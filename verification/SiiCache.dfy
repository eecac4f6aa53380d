/** The cache for bytes of the slaves' EEPROM: one buffer for the slave that was read last, and a bitmap
    that says which of its bytes are known. */
module SiiCache {
  import opened Basics

  const MAX_BITMAP: nat := 128
  const MAX_BUF: nat := 4096

  /** The contents of all EEPROMs, by slave and byte address, and which slaves read 8 bytes at a time. */
  datatype Device = Device(prom: (nat, nat) -> byte, eight: nat -> bool)
  {
    function Count(slave: nat): (n: nat)
      ensures n == 4 || n == 8
    {
      if eight(slave) then 8 else 4
    }

    /** The first byte of the words that a read at `address` delivers. */
    function Start(address: nat): nat {
      address / 2 * 2
    }

    /** The read stays inside the buffer of the cache. */
    predicate Fits(slave: nat, address: nat) {
      address < MAX_BUF ==> Start(address) + Count(slave) <= MAX_BUF
    }

    /** An EEPROM read; one that fails in spite of all retries delivers zeros. */
    function Read(slave: nat, address: nat, lost: bool): (s: seq<byte>)
      ensures |s| == Count(slave)
    {
      seq(Count(slave), i requires 0 <= i < Count(slave) => if lost then 0 else prom(slave, Start(address) + i))
    }

    predicate InWindow(slave: nat, address: nat, a: nat) {
      Start(address) <= a < Start(address) + Count(slave)
    }

    /** The addresses of the bytes that a read delivers. */
    function Window(slave: nat, address: nat): set<nat> {
      set a: nat | a < MAX_BUF && InWindow(slave, address, a)
    }

    /** What a caller wants to know. */
    function Byte(slave: nat, address: nat): byte {
      if address < MAX_BUF then prom(slave, address) else 0xff
    }
  }

  /** A request and whether an EEPROM read for it, if there is one, fails. */
  datatype Request = Request(slave: nat, address: nat, lost: bool)

  /** The cache in the abstract: the bytes that are known of a slave, and those of them that stem from a
      failed read. */
  datatype Cache = Cache(slave: nat, known: set<nat>, spoiled: set<nat>)
  {
    function Selected(slave: nat): Cache {
      if slave == this.slave then this else Cache(slave, {}, {})
    }

    predicate Asks(r: Request) {
      r.address < MAX_BUF && r.address !in Selected(r.slave).known
    }

    function Step(d: Device, r: Request): Cache {
      var c := Selected(r.slave);
      if !Asks(r) then c else
        var w := d.Window(r.slave, r.address);
        Cache(r.slave, c.known + w, if r.lost then c.spoiled + w else c.spoiled - w)
    }

    function Answer(d: Device, r: Request): byte {
      if r.address < MAX_BUF && r.address in Step(d, r).spoiled then 0 else d.Byte(r.slave, r.address)
    }
  }

  class Context {
    const esibuf: array<byte>
    const esimap: array2<bool>
    var esislave: nat
    ghost var cache: Cache

    ghost predicate Valid() {
      esibuf.Length == MAX_BUF && esimap.Length0 == MAX_BITMAP && esimap.Length1 == 32
    }

    ghost predicate Known(a: nat)
      requires Valid() && a < MAX_BUF
      reads esimap
    {
      esimap[a / 32, a % 32]
    }

    /** The buffers are what `cache` says. */
    ghost predicate Faithful(d: Device)
      requires Valid()
      reads this, esibuf, esimap
    {
      cache.slave == esislave &&
      (forall a: nat | a < MAX_BUF :: Known(a) <==> a in cache.known) &&
      forall a: nat | a < MAX_BUF && a in cache.known ::
        esibuf[a] == if a in cache.spoiled then 0 else d.prom(esislave, a)
    }

    constructor (d: Device)
      ensures Valid() && Faithful(d) && cache == Cache(0, {}, {}) && fresh(esibuf) && fresh(esimap)
    {
      esibuf, esimap, esislave := new byte[MAX_BUF](_ => 0), new bool[MAX_BITMAP, 32]((_, _) => false), 0;
      cache := Cache(0, {}, {});
    }

    /** A request for another slave forgets everything. */
    method Select(d: Device, slave: nat)
      requires Valid() && Faithful(d)
      modifies this, esimap
      ensures Faithful(d) && cache == old(cache).Selected(slave)
    {
      if slave != esislave {
        forall w, b | 0 <= w < MAX_BITMAP && 0 <= b < 32 {
          esimap[w, b] := false;
        }
        esislave := slave;
      }
      cache := cache.Selected(slave);
    }

    /** Marks `cnt` bytes from the word address `eadr` on as known, bit by bit. */
    method Mark(eadr: nat, cnt: nat)
      requires Valid() && eadr * 2 + cnt <= MAX_BUF
      modifies esimap
      ensures forall a | 0 <= a < MAX_BUF :: Known(a) == (old(Known(a)) || eadr * 2 <= a < eadr * 2 + cnt)
    {
      var mapw: nat := eadr / 16;
      var mapb: nat := eadr * 2 - mapw * 32;
      for lp := 0 to cnt
        invariant mapb < 32 && mapw * 32 + mapb == eadr * 2 + lp
        invariant forall a | 0 <= a < MAX_BUF :: Known(a) == (old(Known(a)) || eadr * 2 <= a < eadr * 2 + lp)
      {
        assert (eadr * 2 + lp) / 32 == mapw && (eadr * 2 + lp) % 32 == mapb;
        esimap[mapw, mapb] := true;
        mapb := mapb + 1;
        if mapb > 31 {
          mapb := 0;
          mapw := mapw + 1;
        }
      }
    }

    method Put(start: nat, edat: seq<byte>)
      requires Valid() && start + |edat| <= MAX_BUF
      modifies esibuf
      ensures forall a: nat | a < MAX_BUF ::
                esibuf[a] == if start <= a < start + |edat| then edat[a - start] else old(esibuf[a])
    {
      forall i | 0 <= i < |edat| {
        esibuf[start + i] := edat[i];
      }
    }

    /** Puts what an EEPROM read delivered into the buffer. */
    method Fill(d: Device, address: nat, lost: bool)
      requires Valid() && Faithful(d) && address < MAX_BUF && d.Fits(esislave, address) && !Known(address)
      modifies this`cache, esibuf, esimap
      ensures Faithful(d) && cache == old(cache).Step(d, Request(esislave, address, lost)) && Known(address)
    {
      hide Cache.Step, Cache.Asks, Device.Window;
      StepAsks(cache, d, Request(esislave, address, lost));
      var edat := d.Read(esislave, address, lost);
      Put(d.Start(address), edat);
      assert forall a: nat | a < MAX_BUF :: Known(a) == old(Known(a));
      Mark(address / 2, |edat|);
      cache := cache.Step(d, Request(esislave, address, lost));
    }

    /** One byte of a slave's EEPROM. */
    method GetByte(d: Device, r: Request) returns (retval: byte)
      requires Valid() && Faithful(d) && d.Fits(r.slave, r.address)
      modifies this, esibuf, esimap
      ensures Faithful(d) && cache == old(cache).Step(d, r)
      ensures retval == old(cache).Answer(d, r)
    {
      retval := 0xff;
      Select(d, r.slave);
      if r.address < MAX_BUF {
        var mapw := r.address / 32;
        var mapb := r.address - mapw * 32;
        if !esimap[mapw, mapb] {
          Fill(d, r.address, r.lost);
        }
        retval := esibuf[r.address];
      }
    }

    method GetAll(d: Device, requests: seq<Request>) returns (bytes: seq<byte>)
      requires Valid() && Faithful(d)
      requires forall r | r in requests :: d.Fits(r.slave, r.address)
      modifies this, esibuf, esimap
      ensures Faithful(d) && bytes == Run(old(cache), d, requests)
    {
      hide Faithful, Run, Cache.Step, Cache.Answer;
      bytes := [];
      ghost var all := Run(cache, d, requests);
      assert requests[0..] == requests;
      while |bytes| < |requests|
        invariant |bytes| <= |requests| && Faithful(d)
        invariant all == bytes + Run(cache, d, requests[|bytes|..])
      {
        var r := requests[|bytes|];
        RunFrom(cache, d, requests, |bytes|);
        var b := GetByte(d, r);
        bytes := bytes + [b];
      }
    }
  }

  lemma StepAsks(c: Cache, d: Device, r: Request)
    requires c.slave == r.slave && r.address < MAX_BUF && r.address !in c.known
    ensures var w := d.Window(r.slave, r.address);
            c.Step(d, r) == Cache(c.slave, c.known + w, if r.lost then c.spoiled + w else c.spoiled - w) &&
            forall a: nat | a < MAX_BUF :: a in w <==> d.InWindow(r.slave, r.address, a)
  {
  }

  /** The answers to a sequence of requests. */
  function Run(c: Cache, d: Device, requests: seq<Request>): (bytes: seq<byte>)
    ensures |bytes| == |requests|
    decreases |requests|
  {
    if requests == [] then [] else [c.Answer(d, requests[0])] + Run(c.Step(d, requests[0]), d, requests[1..])
  }

  lemma RunFrom(c: Cache, d: Device, requests: seq<Request>, i: nat)
    requires i < |requests|
    ensures var r := requests[i];
            r in requests && Run(c, d, requests[i..]) == [c.Answer(d, r)] + Run(c.Step(d, r), d, requests[i + 1..])
  {
    hide Cache.Step, Cache.Answer;
    assert requests[i..][1..] == requests[i + 1..];
  }

  /** Beyond the buffer every byte reads as 255, and nothing is read from the EEPROM. A read delivers four or eight
      bytes from an even address on. */
  lemma OutOfRange(c: Cache, d: Device, r: Request)
    ensures r.address >= 4096 ==> c.Answer(d, r) == 255 && c.Step(d, r) == c.Selected(r.slave)
    ensures r.address < 4096 && r.address !in c.Selected(r.slave).known ==>
              forall a: nat :: a in c.Step(d, r).known <==>
                a in c.Selected(r.slave).known ||
                (a < 4096 && r.address - r.address % 2 <= a <
                   r.address - r.address % 2 + if d.eight(r.slave) then 8 else 4)
    ensures r.address < 4096 && r.address in c.Selected(r.slave).known ==> c.Step(d, r) == c.Selected(r.slave)
    ensures c.Selected(r.slave).slave == r.slave && (c.slave != r.slave ==> c.Selected(r.slave).known == {})
  {
  }

  // ----- Transparency.

  /** If no EEPROM read fails, every answer is the byte in the EEPROM of the slave that was asked for. */
  lemma {:induction false} CacheIsTransparent(c: Cache, d: Device, requests: seq<Request>, i: nat)
    requires c.spoiled == {} && i < |requests|
    requires forall r | r in requests :: !r.lost
    ensures Run(c, d, requests)[i] == d.Byte(requests[i].slave, requests[i].address)
    decreases |requests|
  {
    if i > 0 {
      CacheIsTransparent(c.Step(d, requests[0]), d, requests[1..], i - 1);
    }
  }

  /** No request for which the EEPROM has to be read meets a failing read. */
  predicate NothingLost(c: Cache, d: Device, requests: seq<Request>)
    decreases |requests|
  {
    requests != [] ==>
      !(c.Asks(requests[0]) && requests[0].lost) && NothingLost(c.Step(d, requests[0]), d, requests[1..])
  }

  predicate RightAt(bytes: seq<byte>, d: Device, requests: seq<Request>, i: nat)
    requires i < |bytes| == |requests|
  {
    bytes[i] == d.Byte(requests[i].slave, requests[i].address)
  }

  ghost predicate AllRight(c: Cache, d: Device, requests: seq<Request>) {
    forall i: nat | i < |requests| :: RightAt(Run(c, d, requests), d, requests, i)
  }

  lemma AllRightNext(c: Cache, d: Device, requests: seq<Request>)
    requires requests != []
    ensures AllRight(c, d, requests) <==>
              c.Answer(d, requests[0]) == d.Byte(requests[0].slave, requests[0].address) &&
              AllRight(c.Step(d, requests[0]), d, requests[1..])
  {
    hide Cache.Answer, Cache.Step, Device.Byte;
    var bytes, rest := Run(c, d, requests), Run(c.Step(d, requests[0]), d, requests[1..]);
    assert bytes == [c.Answer(d, requests[0])] + rest;
    assert RightAt(bytes, d, requests, 0) <==>
      c.Answer(d, requests[0]) == d.Byte(requests[0].slave, requests[0].address);
    forall i: nat | i < |requests| - 1
      ensures RightAt(bytes, d, requests, i + 1) <==> RightAt(rest, d, requests[1..], i)
    {
    }
    if AllRight(c.Step(d, requests[0]), d, requests[1..]) &&
       c.Answer(d, requests[0]) == d.Byte(requests[0].slave, requests[0].address) {
      forall i: nat | i < |requests| ensures RightAt(bytes, d, requests, i) {
        assert i > 0 ==> RightAt(rest, d, requests[1..], i - 1);
      }
    }
    if AllRight(c, d, requests) {
      assert RightAt(bytes, d, requests, 0);
      forall i: nat | i < |requests| - 1 ensures RightAt(rest, d, requests[1..], i) {
        assert RightAt(bytes, d, requests, i + 1);
      }
    }
  }

  lemma AnswerIsRightIff(c: Cache, d: Device, r: Request)
    requires c.spoiled == {} && (r.address < MAX_BUF ==> d.prom(r.slave, r.address) != 0)
    ensures c.Answer(d, r) == d.Byte(r.slave, r.address) <==> !(c.Asks(r) && r.lost)
    ensures !(c.Asks(r) && r.lost) ==> c.Step(d, r).spoiled == {}
  {
    assert d.InWindow(r.slave, r.address, r.address);
  }

  /** For bytes that are not zero, every answer is the byte in the EEPROM if and only if none of the EEPROM
      reads that are needed fails. */
  lemma {:induction false} AllRightIff(c: Cache, d: Device, requests: seq<Request>)
    requires c.spoiled == {}
    requires forall r | r in requests && r.address < MAX_BUF :: d.prom(r.slave, r.address) != 0
    ensures AllRight(c, d, requests) <==> NothingLost(c, d, requests)
    decreases |requests|
  {
    hide AllRight, Cache.Answer, Cache.Step, Cache.Asks;
    if requests == [] {
      NothingToAnswer(c, d);
    } else {
      var r := requests[0];
      assert r in requests;
      AllRightNext(c, d, requests);
      AnswerIsRightIff(c, d, r);
      if !(c.Asks(r) && r.lost) {
        AllRightIff(c.Step(d, r), d, requests[1..]);
      }
    }
  }

  lemma NothingToAnswer(c: Cache, d: Device)
    ensures AllRight(c, d, [])
  {
  }

  /** The cache when the first `n` requests have been answered. */
  function CacheAt(c: Cache, d: Device, requests: seq<Request>, n: nat): Cache
    requires n <= |requests|
  {
    if n == 0 then c else CacheAt(c, d, requests, n - 1).Step(d, requests[n - 1])
  }

  /** Among the first `n` requests, the last one for which the EEPROM was read at address `a` met a failing
      read, and no other slave has been asked for since. */
  predicate Stale(c: Cache, d: Device, requests: seq<Request>, n: nat, a: nat)
    requires n <= |requests|
  {
    n > 0 &&
    var before, r := CacheAt(c, d, requests, n - 1), requests[n - 1];
    if before.Asks(r) && a in d.Window(r.slave, r.address) then r.lost
    else r.slave == before.slave && Stale(c, d, requests, n - 1, a)
  }

  lemma {:induction false} SpoiledIffStale(c: Cache, d: Device, requests: seq<Request>, n: nat, a: nat)
    requires c.spoiled == {} && n <= |requests|
    ensures a in CacheAt(c, d, requests, n).spoiled <==> Stale(c, d, requests, n, a)
  {
    hide Device.Window, Cache.Asks;
    if n > 0 {
      SpoiledIffStale(c, d, requests, n - 1, a);
    }
  }

  lemma {:induction false} CacheAtNext(c: Cache, d: Device, requests: seq<Request>, n: nat)
    requires 0 < n <= |requests|
    ensures CacheAt(c, d, requests, n) == CacheAt(c.Step(d, requests[0]), d, requests[1..], n - 1)
  {
    hide Cache.Step;
    if n > 1 {
      CacheAtNext(c, d, requests, n - 1);
    }
  }

  lemma {:induction false} RunAt(c: Cache, d: Device, requests: seq<Request>, i: nat)
    requires i < |requests|
    ensures Run(c, d, requests)[i] == CacheAt(c, d, requests, i).Answer(d, requests[i])
    decreases i
  {
    hide Cache.Step, Cache.Answer;
    if i > 0 {
      RunAt(c.Step(d, requests[0]), d, requests[1..], i - 1);
      CacheAtNext(c, d, requests, i);
    }
  }

  /** A byte that is not zero is answered right if and only if the last read that delivered it did not fail;
      a byte that is zero always is. */
  lemma RightIff(c: Cache, d: Device, requests: seq<Request>, i: nat)
    requires c.spoiled == {} && i < |requests|
    ensures var r := requests[i];
            RightAt(Run(c, d, requests), d, requests, i) <==>
              r.address < MAX_BUF && d.prom(r.slave, r.address) != 0 ==> !Stale(c, d, requests, i + 1, r.address)
  {
    hide Cache.Step, Stale, CacheAt, Run;
    RunAt(c, d, requests, i);
    SpoiledIffStale(c, d, requests, i + 1, requests[i].address);
    CacheAfter(c, d, requests, i);
  }

  lemma CacheAfter(c: Cache, d: Device, requests: seq<Request>, i: nat)
    requires i < |requests|
    ensures CacheAt(c, d, requests, i + 1) == CacheAt(c, d, requests, i).Step(d, requests[i])
  {
  }

  /** A failed read is not repeated: its zero answers all later requests, until another slave is asked
      for or a read for an unknown neighbour delivers the byte again. */
  lemma FailureIsRemembered(c: Cache, d: Device, r: Request, lost: bool)
    requires c.Asks(r) && r.lost
    ensures c.Answer(d, r) == 0
    ensures var later := c.Step(d, r);
            !later.Asks(r.(lost := lost)) && later.Answer(d, r.(lost := lost)) == 0
  {
    assert d.InWindow(r.slave, r.address, r.address);
  }

  /** How often the EEPROM is read. */
  function Reads(c: Cache, d: Device, requests: seq<Request>): nat
    decreases |requests|
  {
    if requests == [] then 0
    else (if c.Asks(requests[0]) then 1 else 0) + Reads(c.Step(d, requests[0]), d, requests[1..])
  }

  /** Requests for one slave never read the EEPROM twice for the same address. */
  lemma {:induction false} ReadsOncePerAddress(c: Cache, d: Device, slave: nat, requests: seq<Request>,
                                               addresses: set<nat>)
    requires forall r | r in requests :: r.slave == slave && r.address in addresses
    requires c.slave == slave
    ensures Reads(c, d, requests) <= |addresses - c.known|
    decreases |requests|
  {
    if requests != [] {
      var r := requests[0];
      var next := c.Step(d, r);
      ReadsOncePerAddress(next, d, slave, requests[1..], addresses);
      if c.Asks(r) {
        assert d.InWindow(r.slave, r.address, r.address);
        assert r.address in next.known;
        Smaller(addresses - next.known, addresses - c.known, r.address);
      }
    }
  }

  lemma Smaller(a: set<nat>, b: set<nat>, x: nat)
    requires a <= b && x in b && x !in a
    ensures |a| < |b|
  {
    var c := b - {x};
    Subset(a, c);
    assert b == c + {x};
  }

  lemma Subset(a: set<nat>, b: set<nat>)
    requires a <= b
    ensures |a| <= |b|
  {
    assert b == a + (b - a);
  }
}
