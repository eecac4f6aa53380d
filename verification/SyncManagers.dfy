/** Which memory of a slave its windows give access to.

    Sync managers that adjoin share a window. Each of the runs they form should be mapped in full before the next
    one, but the byte count of a window still contains that of the windows before it. */
module SyncManagers {
  import opened FmmuMapping
  import opened IoMap
  import Segments

  /** Sync manager `b` starts inside `a` or right behind it, so that one window can hold both. */
  predicate Adjoins(a: Sm, b: Sm) {
    b.start <= (a.start + a.length) % 0x1_0000
  }

  /** The sync managers that are looked at from number `smc` on: those of the kind, and the last one whatever its
      kind. */
  function From(sm: seq<Sm>, kind: nat, smc: nat): (list: seq<Sm>)
    requires |sm| == MAXSM && smc < MAXSM
    ensures list != []
    decreases MAXSM - smc
  {
    if smc == MAXSM - 1 then [sm[smc]]
    else if sm[smc].kind == kind then [sm[smc]] + From(sm, kind, smc + 1)
    else From(sm, kind, smc + 1)
  }

  /** The first `r` of the sync managers adjoin, and the next one does not. */
  ghost predicate IsRun(list: seq<Sm>, r: nat) {
    1 <= r <= |list| &&
    (forall k | 0 <= k < r - 1 :: Adjoins(list[k], list[k + 1])) &&
    (r < |list| ==> !Adjoins(list[r - 1], list[r]))
  }

  /** The list cut where sync managers do not adjoin. */
  ghost predicate IsCut(list: seq<Sm>, runs: seq<seq<Sm>>) {
    if list == [] then runs == []
    else
      runs != [] && IsRun(list, |runs[0]|) && runs[0] == list[..|runs[0]|] &&
      IsCut(list[|runs[0]|..], runs[1..])
  }

  function Length(run: seq<Sm>): nat {
    if run == [] then 0 else run[0].length + Length(run[1..])
  }

  /** The bytes of the first `j` runs. */
  function Before(runs: seq<seq<Sm>>, j: nat): nat
    requires j <= |runs|
  {
    if j == 0 then 0 else Before(runs, j - 1) + Length(runs[j - 1])
  }

  /** The last sync manager is not mapped on its own unless it is the only one. */
  function Mappable(runs: seq<seq<Sm>>): seq<seq<Sm>> {
    if |runs| > 1 && |runs[|runs| - 1]| == 1 then runs[..|runs| - 1] else runs
  }

  function Min(a: int, b: int): int {
    if a <= b then a else b
  }

  ghost predicate NoneEmpty(runs: seq<seq<Sm>>) {
    forall j | 0 <= j < |runs| :: runs[j] != []
  }

  /** Start and size of the windows if each run is mapped as far as there is data for it. */
  function RightWindows(runs: seq<seq<Sm>>, left: nat): seq<(nat, nat)>
    requires NoneEmpty(runs)
  {
    if runs == [] || left == 0 then [] else
      var size := Min(Length(runs[0]), left);
      [(runs[0][0].start, size)] + RightWindows(runs[1..], left - size)
  }

  /** Start and size of the windows when `count` bytes have been counted before. */
  function CountedWindows(runs: seq<seq<Sm>>, count: nat, left: nat): seq<(nat, nat)>
    requires NoneEmpty(runs)
  {
    if runs == [] || left == 0 then [] else
      var size := Min(count + Length(runs[0]), left);
      [(runs[0][0].start, size)] + CountedWindows(runs[1..], count + Length(runs[0]), left - size)
  }

  // ----- The windows that the program makes.

  lemma {:induction false} FromNext(sm: seq<Sm>, kind: nat, smc: nat)
    requires |sm| == MAXSM && smc < MAXSM
    ensures var next := NextOf(sm, kind, smc);
            From(sm, kind, next) == From(sm, kind, smc) && From(sm, kind, smc)[0] == sm[next] &&
            NextOf(sm, kind, next) == next &&
            From(sm, kind, smc)[1..] == if next == MAXSM - 1 then [] else From(sm, kind, next + 1)
    decreases MAXSM - smc
  {
    if smc < MAXSM - 1 && sm[smc].kind != kind {
      FromNext(sm, kind, smc + 1);
    }
  }

  lemma CutsAreNotEmpty(list: seq<Sm>, runs: seq<seq<Sm>>)
    requires IsCut(list, runs)
    ensures NoneEmpty(runs)
  {
  }

  /** Sync manager `next` is where the mapping goes on behind the run. */
  ghost predicate GoesOn(sm: seq<Sm>, kind: nat, list: seq<Sm>, r: nat, next: nat)
    requires |sm| == MAXSM && next < MAXSM && r <= |list|
  {
    if r < |list| then From(sm, kind, next) == list[r..] && NextOf(sm, kind, next) == next else next == MAXSM - 1
  }

  /** `bytes` are all bytes of the run, or enough. */
  ghost predicate TakesRun(sm: seq<Sm>, kind: nat, bits: nat, list: seq<Sm>, r: nat, byteCount: nat, next: nat,
                           bytes: nat)
    requires |sm| == MAXSM && next < MAXSM && 1 <= r <= |list|
  {
    var whole := byteCount + Length(list[1..r]);
    bytes <= whole && (8 * bytes < bits ==> bytes == whole && GoesOn(sm, kind, list, r, next))
  }

  lemma TakesOneMore(sm: seq<Sm>, kind: nat, bits: nat, list: seq<Sm>, r: nat, byteCount: nat, next: nat, bytes: nat)
    requires |sm| == MAXSM && next < MAXSM && 1 < r <= |list|
    requires TakesRun(sm, kind, bits, list[1..], r - 1, byteCount + list[1].length, next, bytes)
    ensures TakesRun(sm, kind, bits, list, r, byteCount, next, bytes)
  {
    hide From, NextOf;
    assert list[1..][1..r - 1] == list[1..r][1..] && list[1..][r - 1..] == list[r..];
  }

  /** One window: either it has enough bytes, or it holds the whole run and the next one starts behind it. */
  lemma {:induction false} CollectsRun(sm: seq<Sm>, kind: nat, bits: nat, smc: nat, byteCount: nat, r: nat)
    requires |sm| == MAXSM && smc < MAXSM && NextOf(sm, kind, smc) == smc
    requires IsRun(From(sm, kind, smc), r)
    ensures var (next, bytes) := Collected(sm, kind, bits, smc, byteCount);
            TakesRun(sm, kind, bits, From(sm, kind, smc), r, byteCount, next, bytes)
    decreases MAXSM - smc
  {
    hide From, NextOf, TakesRun, Collected, IsRun;
    var list := From(sm, kind, smc);
    FromNext(sm, kind, smc);
    CollectedNext(sm, kind, bits, smc, byteCount);
    RunIsThere(list, r);
    if 8 * byteCount >= bits {
      TakesEnough(sm, kind, bits, list, r, byteCount, smc);
    } else if smc == MAXSM - 1 {
      TakesAll(sm, kind, bits, list, r, byteCount, smc);
    } else {
      var next := NextOf(sm, kind, smc + 1);
      FromNext(sm, kind, smc + 1);
      assert list[1..] == From(sm, kind, next) && list[1] == sm[next] && list[0] == sm[smc];
      RunGoesOn(list, r);
      if r > 1 {
        CollectsRun(sm, kind, bits, next, byteCount + sm[next].length, r - 1);
        var (end, bytes) := Collected(sm, kind, bits, next, byteCount + sm[next].length);
        TakesOneMore(sm, kind, bits, list, r, byteCount, end, bytes);
      } else {
        TakesAll(sm, kind, bits, list, r, byteCount, next);
      }
    }
  }

  lemma TakesEnough(sm: seq<Sm>, kind: nat, bits: nat, list: seq<Sm>, r: nat, byteCount: nat, next: nat)
    requires |sm| == MAXSM && next < MAXSM && 1 <= r <= |list| && 8 * byteCount >= bits
    ensures TakesRun(sm, kind, bits, list, r, byteCount, next, byteCount)
  {
  }

  lemma TakesAll(sm: seq<Sm>, kind: nat, bits: nat, list: seq<Sm>, r: nat, byteCount: nat, next: nat)
    requires |sm| == MAXSM && next < MAXSM && 1 == r <= |list| && GoesOn(sm, kind, list, r, next)
    ensures TakesRun(sm, kind, bits, list, r, byteCount, next, byteCount)
  {
  }

  lemma RunIsThere(list: seq<Sm>, r: nat)
    requires IsRun(list, r)
    ensures 1 <= r <= |list|
  {
  }

  lemma RunGoesOn(list: seq<Sm>, r: nat)
    requires IsRun(list, r) && |list| > 1
    ensures r > 1 <==> Adjoins(list[0], list[1])
    ensures r > 1 ==> IsRun(list[1..], r - 1)
  {
  }

  lemma {:induction false} EndsWithLast(sm: seq<Sm>, kind: nat, smc: nat)
    requires |sm| == MAXSM && smc < MAXSM && NextOf(sm, kind, smc) == smc
    ensures |From(sm, kind, smc)| == 1 <==> smc == MAXSM - 1
  {
    FromNext(sm, kind, smc);
  }

  lemma CutOfOne(list: seq<Sm>, runs: seq<seq<Sm>>)
    requires |list| == 1 && IsCut(list, runs)
    ensures runs == [list]
  {
    assert list[1..] == [];
    assert runs[0] == list;
  }

  lemma CutOfMore(list: seq<Sm>, runs: seq<seq<Sm>>)
    requires |list| > 1 && IsCut(list, runs)
    ensures |runs| == 1 ==> |runs[0]| == |list|
    ensures |runs| > 1 ==> IsCut(list[|runs[0]|..], runs[1..]) && list[|runs[0]|..] != []
  {
    if |runs| == 1 {
      assert runs[1..] == [];
    } else {
      assert runs[1..] != [];
    }
  }

  lemma FirstRun(list: seq<Sm>, runs: seq<seq<Sm>>)
    requires list != [] && IsCut(list, runs)
    ensures runs != [] && IsRun(list, |runs[0]|) && runs[0] == list[..|runs[0]|]
    ensures runs[0][0] == list[0] && Length(runs[0]) == list[0].length + Length(list[1..|runs[0]|])
  {
    assert runs[0][1..] == list[1..|runs[0]|];
  }

  /** What is mapped of the runs from sync manager `smc` on: nothing once the last one has been reached. */
  function Rest(runs: seq<seq<Sm>>, smc: nat): seq<seq<Sm>> {
    if smc >= MAXSM - 1 then [] else Mappable(runs)
  }

  lemma MappableRest(runs: seq<seq<Sm>>)
    requires |runs| > 1
    ensures |runs| == 2 && |runs[1]| == 1 ==> Mappable(runs)[1..] == []
    ensures |runs| > 2 || |runs[1]| != 1 ==> Mappable(runs)[1..] == Mappable(runs[1..])
  {
  }

  /** Behind the first run the mapping goes on with the others. */
  lemma RestOfRuns(sm: seq<Sm>, kind: nat, list: seq<Sm>, runs: seq<seq<Sm>>, next: nat)
    requires |sm| == MAXSM && next < MAXSM && list != [] && IsCut(list, runs)
    requires |runs[0]| <= |list| && GoesOn(sm, kind, list, |runs[0]|, next)
    ensures Mappable(runs)[1..] == Rest(runs[1..], next)
    ensures next < MAXSM - 1 ==> IsCut(From(sm, kind, next), runs[1..])
  {
    hide From, NextOf, IsRun, Mappable, Length;
    LastOfCut(list, runs);
    if |runs| == 1 {
      OneRun(runs, next);
    } else {
      MappableRest(runs);
      EndsWithLast(sm, kind, next);
    }
  }

  lemma OneRun(runs: seq<seq<Sm>>, next: nat)
    requires |runs| == 1
    ensures Mappable(runs)[1..] == Rest(runs[1..], next)
  {
  }

  lemma LastOfCut(list: seq<Sm>, runs: seq<seq<Sm>>)
    requires list != [] && IsCut(list, runs) && |runs[0]| <= |list|
    ensures |runs| == 1 ==> |runs[0]| == |list|
    ensures |runs| > 1 ==>
              var rest := list[|runs[0]|..];
              rest != [] && IsCut(rest, runs[1..]) &&
              (|rest| == 1 <==> |runs| == 2 && |runs[1]| == 1)
  {
    hide IsRun;
    if |list| == 1 {
      CutOfOne(list, runs);
    } else {
      CutOfMore(list, runs);
      if |runs| > 1 {
        var rest := list[|runs[0]|..];
        if |rest| == 1 {
          CutOfOne(rest, runs[1..]);
        } else {
          CutOfMore(rest, runs[1..]);
        }
      }
    }
  }

  lemma {:induction false} ShapesAreCounted(sm: seq<Sm>, kind: nat, bits: nat, smc: nat, runs: seq<seq<Sm>>,
                                            count: nat, done: nat)
    requires |sm| == MAXSM && smc < MAXSM && done <= RoundUp(bits)
    requires smc < MAXSM - 1 ==> IsCut(From(sm, kind, smc), runs)
    ensures NoneEmpty(Rest(runs, smc))
    ensures Shapes(sm, kind, bits, smc, count, done) == CountedWindows(Rest(runs, smc), count, RoundUp(bits) - done)
    decreases MAXSM - smc, if done < RoundUp(bits) then 1 else 0
  {
    hide From, NextOf, Collected, TakesRun, IsCut, IsRun, Length, NoneEmpty, Shapes, Mappable, GoesOn;
    if smc == MAXSM - 1 {
      NoShapes(sm, kind, bits, smc, count, done);
    } else {
      MappableIsNotEmpty(From(sm, kind, smc), runs);
      if done >= RoundUp(bits) {
        NoShapes(sm, kind, bits, smc, count, done);
      } else {
        NextWindow(sm, kind, bits, smc, runs, count, done);
        var first := NextOf(sm, kind, smc);
        var (next, bytes) := Collected(sm, kind, bits, first, count + sm[first].length);
        var size := if bytes + done > RoundUp(bits) then RoundUp(bits) - done else bytes;
        ShapesNext(sm, kind, bits, smc, count, done);
        if done + size < RoundUp(bits) {
          ShapesAreCounted(sm, kind, bits, next, runs[1..], bytes, done + size);
        } else {
          NoShapes(sm, kind, bits, next, bytes, done + size);
        }
      }
    }
  }

  lemma NoShapes(sm: seq<Sm>, kind: nat, bits: nat, smc: nat, count: nat, done: nat)
    requires |sm| == MAXSM && smc < MAXSM && (smc == MAXSM - 1 || done >= RoundUp(bits))
    ensures Shapes(sm, kind, bits, smc, count, done) == []
    ensures NoneEmpty([])
  {
  }

  lemma MappableIsNotEmpty(list: seq<Sm>, runs: seq<seq<Sm>>)
    requires IsCut(list, runs)
    ensures NoneEmpty(Mappable(runs))
  {
    CutsAreNotEmpty(list, runs);
  }

  /** The first window holds the first run, or all data that is left. */
  lemma NextWindow(sm: seq<Sm>, kind: nat, bits: nat, smc: nat, runs: seq<seq<Sm>>, count: nat, done: nat)
    requires |sm| == MAXSM && smc < MAXSM - 1 && done < RoundUp(bits) && IsCut(From(sm, kind, smc), runs)
    ensures var first := NextOf(sm, kind, smc);
            var (next, bytes) := Collected(sm, kind, bits, first, count + sm[first].length);
            var size := if bytes + done > RoundUp(bits) then RoundUp(bits) - done else bytes;
            var rest := Mappable(runs);
            rest != [] && rest[0] != [] && rest[0][0] == sm[first] &&
            size == Min(count + Length(rest[0]), RoundUp(bits) - done) && size <= RoundUp(bits) - done &&
            (done + size < RoundUp(bits) ==>
               smc < next < MAXSM && bytes == count + Length(rest[0]) && runs != [] &&
               rest[1..] == Rest(runs[1..], next) &&
               (next < MAXSM - 1 ==> IsCut(From(sm, kind, next), runs[1..])))
  {
    hide From, NextOf, Collected, IsRun, Rest;
    var list := From(sm, kind, smc);
    var first := NextOf(sm, kind, smc);
    FromNext(sm, kind, smc);
    FirstRun(list, runs);
    CollectsRun(sm, kind, bits, first, count + sm[first].length, |runs[0]|);
    var (next, bytes) := Collected(sm, kind, bits, first, count + sm[first].length);
    RunIsThere(list, |runs[0]|);
    FirstIsMappable(list, runs);
    if 8 * bytes < bits {
      RestOfRuns(sm, kind, list, runs, next);
    }
  }

  lemma FirstIsMappable(list: seq<Sm>, runs: seq<seq<Sm>>)
    requires list != [] && IsCut(list, runs)
    ensures Mappable(runs) != [] && Mappable(runs)[0] == runs[0]
  {
  }

  // ----- When the windows are right.

  /** Every run that follows bytes counted before is the last one that is needed. */
  ghost predicate CountsOwnBytes(runs: seq<seq<Sm>>, count: nat, left: nat) {
    forall j: nat | j < |runs| :: count + Before(runs, j) == 0 || Before(runs, j + 1) >= left
  }

  lemma {:induction false} BeforeShifts(runs: seq<seq<Sm>>, j: nat)
    requires j < |runs|
    ensures Before(runs, j + 1) == Length(runs[0]) + Before(runs[1..], j)
  {
    hide Length;
    if j > 0 {
      BeforeShifts(runs, j - 1);
    }
  }

  lemma RestCounts(runs: seq<seq<Sm>>, count: nat, left: nat)
    requires runs != [] && Length(runs[0]) <= left
    ensures CountsOwnBytes(runs, count, left)
       <==> (count == 0 || Length(runs[0]) >= left) &&
            CountsOwnBytes(runs[1..], count + Length(runs[0]), left - Length(runs[0]))
  {
    hide Length;
    var rest := runs[1..];
    var n := Length(runs[0]);
    BeforeShifts(runs, 0);
    forall j: nat | j < |rest|
      ensures (count + n + Before(rest, j) == 0 || Before(rest, j + 1) >= left - n)
         <==> (count + Before(runs, j + 1) == 0 || Before(runs, j + 2) >= left)
    {
      BeforeShifts(runs, j);
      BeforeShifts(runs, j + 1);
    }
    if CountsOwnBytes(rest, count + n, left - n) && (count == 0 || n >= left) {
      forall j: nat | j < |runs| ensures count + Before(runs, j) == 0 || Before(runs, j + 1) >= left {
        if j > 0 {
          assert count + n + Before(rest, j - 1) == 0 || Before(rest, j) >= left - n;
          assert j - 1 < |rest|;
        }
      }
    }
    if CountsOwnBytes(runs, count, left) {
      assert count + Before(runs, 0) == 0 || Before(runs, 1) >= left;
      forall j: nat | j < |rest| ensures count + n + Before(rest, j) == 0 || Before(rest, j + 1) >= left - n {
        assert count + Before(runs, j + 1) == 0 || Before(runs, j + 2) >= left;
      }
    }
  }

  lemma EnoughCounts(runs: seq<seq<Sm>>, count: nat, left: nat)
    requires runs != [] && Length(runs[0]) > left
    ensures CountsOwnBytes(runs, count, left)
  {
    hide Length;
    forall j: nat | j < |runs| ensures count + Before(runs, j) == 0 || Before(runs, j + 1) >= left {
      BeforeShifts(runs, j);
    }
  }

  lemma {:induction false} CountedAreRightIff(runs: seq<seq<Sm>>, count: nat, left: nat)
    requires NoneEmpty(runs)
    ensures CountedWindows(runs, count, left) == RightWindows(runs, left) <==> CountsOwnBytes(runs, count, left)
  {
    hide Length, Before;
    if runs != [] && left > 0 {
      var n := Length(runs[0]);
      var size := Min(count + n, left);
      if n > left {
        EnoughCounts(runs, count, left);
        SameFirst((runs[0][0].start, left), CountedWindows(runs[1..], count + n, 0), RightWindows(runs[1..], 0));
      } else {
        RestCounts(runs, count, left);
        if count == 0 || n >= left {
          var rest := runs[1..];
          CountedAreRightIff(rest, count + n, left - n);
          SameFirst((runs[0][0].start, n), CountedWindows(rest, count + n, left - n), RightWindows(rest, left - n));
        } else {
          assert CountedWindows(runs, count, left)[0].1 > n == RightWindows(runs, left)[0].1;
        }
      }
    } else {
      NothingCounts(runs, count, left);
    }
  }

  lemma NothingCounts(runs: seq<seq<Sm>>, count: nat, left: nat)
    requires runs == [] || left == 0
    ensures CountsOwnBytes(runs, count, left)
  {
  }

  lemma SameFirst(x: (nat, nat), a: seq<(nat, nat)>, b: seq<(nat, nat)>)
    ensures [x] + a == [x] + b <==> a == b
  {
    if [x] + a == [x] + b {
      assert a == ([x] + a)[1..] == ([x] + b)[1..] == b;
    }
  }

  /** The windows of a slave give access to its sync managers, run by run and each as far as there is data for it,
      if and only if no run but the first with any memory and the last that is needed has any. */
  lemma WindowsAreRightIff(sm: seq<Sm>, kind: nat, bits: nat, runs: seq<seq<Sm>>)
    requires |sm| == MAXSM && IsCut(From(sm, kind, 0), runs)
    ensures NoneEmpty(Mappable(runs))
    ensures Shapes(sm, kind, bits, 0, 0, 0) == RightWindows(Mappable(runs), RoundUp(bits))
       <==> CountsOwnBytes(Mappable(runs), 0, RoundUp(bits))
  {
    hide Shapes, From, IsCut, Mappable, CountsOwnBytes, NoneEmpty;
    ShapesAreCounted(sm, kind, bits, 0, runs, 0, 0);
    CountedAreRightIff(Mappable(runs), 0, RoundUp(bits));
  }

  /** Two runs that hold all data are always mapped right. */
  lemma TwoRunsAreRight(sm: seq<Sm>, kind: nat, bits: nat, runs: seq<seq<Sm>>)
    requires |sm| == MAXSM && IsCut(From(sm, kind, 0), runs)
    requires |Mappable(runs)| <= 2 && Before(Mappable(runs), |Mappable(runs)|) >= RoundUp(bits)
    ensures NoneEmpty(Mappable(runs)) && Shapes(sm, kind, bits, 0, 0, 0) == RightWindows(Mappable(runs), RoundUp(bits))
  {
    hide Shapes, From, IsCut, Mappable, NoneEmpty, Length;
    WindowsAreRightIff(sm, kind, bits, runs);
  }

  /** Three sync managers that do not adjoin, of four, one and three bytes. */
  function ThreeSms(): (sm: seq<Sm>)
    ensures |sm| == MAXSM
  {
    var none := Sm(0, 0, 0);
    [Sm(0x1000, 4, INPUTS), Sm(0x1100, 1, INPUTS), Sm(0x1200, 3, INPUTS), none, none, none, none, none]
  }

  lemma ThreeRunsNext(smc: nat)
    requires smc < 3
    ensures NextOf(ThreeSms(), INPUTS, smc) == smc
  {
  }

  /** Every sync manager of the three ends its run. */
  lemma ThreeRunsCollected(smc: nat, byteCount: nat)
    requires smc < 2 && byteCount < 8
    ensures Collected(ThreeSms(), INPUTS, 64, smc, byteCount) == (smc + 1, byteCount)
  {
    hide Collected;
    ThreeRunsNext(smc + 1);
    CollectedNext(ThreeSms(), INPUTS, 64, smc, byteCount);
  }

  /** The second window takes four bytes instead of one, and the third sync manager is not mapped at all. */
  lemma ThirdRunIsLost()
    ensures Shapes(ThreeSms(), INPUTS, 64, 0, 0, 0) == [(0x1000, 4), (0x1100, 4)]
  {
    hide Collected, NextOf, Shapes;
    var sm := ThreeSms();
    ThreeRunsNext(0);
    ThreeRunsNext(1);
    ThreeRunsCollected(0, 4);
    ThreeRunsCollected(1, 5);
    ShapesNext(sm, INPUTS, 64, 0, 0, 0);
    ShapesNext(sm, INPUTS, 64, 1, 4, 4);
    NoShapes(sm, INPUTS, 64, 2, 5, 8);
  }

  // ----- In a mapped group.

  lemma {:induction false} EachIsPlaced(list: seq<Slave>, kind: nat, addr0: nat, i: nat) returns (addr: nat, bit: nat)
    requires Exact(list, kind, addr0) && i < |list|
    ensures PlacedAt(list[i], kind, addr, bit)
  {
    hide PlacedAt, SpansOf, BitAfter;
    if i < |list| - 1 {
      addr, bit := EachIsPlaced(list[..|list| - 1], kind, addr0, i);
      assert list[..|list| - 1][i] == list[i];
    } else {
      addr, bit := LastIsPlaced(list, kind, addr0);
    }
  }

  lemma LastIsPlaced(list: seq<Slave>, kind: nat, addr0: nat) returns (addr: nat, bit: nat)
    requires Exact(list, kind, addr0) && list != []
    ensures PlacedAt(list[|list| - 1], kind, addr, bit)
  {
    hide PlacedAt, SpansOf, BitAfter;
    var front := list[..|list| - 1];
    ExactHasSms(front, kind, addr0);
    addr, bit := addr0 + Segments.Sum(SpansOf(front, kind)), BitAfter(front, kind);
  }

  /** The same for each slave of a group that has been mapped; a slave with fewer than eight bits has its only
      window at its first sync manager of the kind. */
  lemma SlaveIsMappedRightIff(list: seq<Slave>, kind: nat, addr0: nat, i: nat, runs: seq<seq<Sm>>)
    requires Exact(list, kind, addr0) && i < |list| && list[i].Bits(kind) > 0
    requires |list[i].sm| == MAXSM ==> IsCut(From(list[i].sm, kind, 0), runs)
    ensures NoneEmpty(Mappable(runs)) && runs != [] && runs[0] != []
    ensures var s := list[i];
            if s.Bits(kind) < 8 then |s.Windows(kind)| == 1 && s.Windows(kind)[0].physStart == runs[0][0].start
            else ShapesOf(s.Windows(kind)) == RightWindows(Mappable(runs), RoundUp(s.Bits(kind)))
                 <==> CountsOwnBytes(Mappable(runs), 0, RoundUp(s.Bits(kind)))
  {
    hide Shapes, ShapesOf, FillBytes, From, NextOf, IsCut, IsRun, Mappable, CountsOwnBytes, NoneEmpty, Exact, Length;
    var _, _ := EachIsPlaced(list, kind, addr0, i);
    var s := list[i];
    FromNext(s.sm, kind, 0);
    FirstRun(From(s.sm, kind, 0), runs);
    RunIsThere(From(s.sm, kind, 0), |runs[0]|);
    WindowsAreRightIff(s.sm, kind, s.Bits(kind), runs);
  }
}
