# A verified model of the EtherCAT master and of two control loops of the platform

The robot is driven by an EtherCAT master (a copy of SOEM under `kelo-tulip/src/soem`) and by a Python
driver (`airo-tulip/airo_tulip/hardware`). This project models the parts of both whose correctness is
hardest to see, in Dafny, and proves what they are for. One module stands for one component; code that
changes buffers and records in place is modelled by classes and arrays, and each of its methods is tied
to a function of its inputs and the old state. The theorems are about those functions and hold for
every network, every payload and every run.

- `Network`, `SlaveList`, `Topology`, `DistributedClock`, `ClockLines`, `PropagationDelay`, `ClocklessSplit`: a
  segment is a tree, and a frame walks through it in the port order 0-3-1-2. From link counts, port maps and
  latched times the master finds every slave's parent, links the slaves with a clock, and measures for each of
  them the port it hangs on and its propagation delay. Slaves without a clock may lie in between or end a branch.
  The delays are those of the walk of the frame, with earlier branches included, up to the skew of asymmetric
  ways; they are exact if and only if the ways between neighbouring clocks are symmetric up to rounding.
  (ETG.1000.4, section 6.8.)
- `FmmuMapping`, `SyncManagers`, `Segments`, `IoMap`, `LayoutSize`, `Pieces`, `WorkCounter`: the bit-level layout of
  the process image and the memory it gives access to, the greedy cut into segments, the ranges addressed by LRW and by LRD with LWR, and the work counter
  expected for them. (ETG.1000.4, sections 5.4 and 6.6.)
- `NicDriver`, `ProcessData`, `Cycle`, `WindowCases`: the index allocator and receive buffers of the Linux driver, the
  stack of frames in flight, and one whole cycle over an arbitrary wire: frames may arrive in any order,
  be repeated, lost or foreign.
- `Eoe`, `EoeReceive`, `EoeReassembly`, `EoeStreams`, `Sdo`, `Foe`: the three segmented mailbox protocols, splitter against
  reassembler. (ETG.1000.6, sections 5.6 to 5.8; CiA 301, section 7.2.4.)
- `Datagram`, `StatusReads`, `ReadState`, `SiiCache`: chains of datagrams in one frame against a parser,
  reading all slave states with one broadcast against one datagram per slave, and the EEPROM cache
  against the EEPROM.
- `Encoder`, `VelocityRamp`, `PlatformControl`, `SpeedLimit`: accumulated wheel angles, the velocity ramp, the
  driver with its command timeout, and the limit for its speed, over real numbers.

Some properties that one would expect do not hold of the code. For these there is a theorem with the
exact condition:

- The master reports the work counter that it expects if and only if there is any process data, and windows
  that are cut by the border of a datagram and output windows that are empty make up for each other
  (`Cycle.CycleMeetsExpected`): a cut window counts twice, an empty output window is expected but never
  reached, and a group without process data reports a lost frame. If no output window is empty, the
  condition is that none is cut, and windows of slaves with whole bytes never are (`Cycle.BalancedIff`). The
  mapping does produce both (`WindowCases.EmptyWindowIsNeverReached`, `WindowCases.CutWindowCountsTwice`).
- Behind a split without a clock a measured delay is exact if and only if the frame spends half of the detour
  through the other branches before it enters the slave (`ClocklessSplit.BehindSplit`); in general it does not
  (`ClocklessSplit.SplitWithoutClockIsWrong`).
- The windows of a slave give access to its sync managers as they should if and only if, of the runs of adjoining
  sync managers, no run lies between the first one with any memory and the last one needed
  (`SyncManagers.WindowsAreRightIff`), because the byte count of a window contains the windows before it. With three
  runs the last one may not be mapped at all (`SyncManagers.ThirdRunIsLost`).
- An SDO of 65536 bytes or more does not arrive, because the size of a frame is computed in 16 bits, and an
  empty expedited one arrives as four zero bytes (`Sdo.RoundTripIff`). A download whose inner segments get
  no answer is still reported as a success (`Sdo.ReportsSuccessIff`).
- An empty file has no FoE packet at all (`Foe.RoundTripIff`), and a busy slave ends a transfer without an
  error (`Foe.Write`).
- An EoE frame is limited to 63 blocks of 32 bytes plus what the last fragment carries for one receiver
  (`Eoe.RoundTripIff`), and to 63 blocks for the other (`EoeReassembly.SentFrameIsDeliveredIff`). The latter
  never mixes sixteen frames in a row (`EoeStreams.OnlySentFramesAreDelivered`), but may mix frames with the
  same number (`EoeStreams.RepeatedNumbersMix`).
- Slaves in INIT and PRE_OP together look like slaves in BOOT to the broadcast (`ReadState.BroadcastAgreesIff`).
- A failed EEPROM read is cached as zeros (`SiiCache.FailureIsRemembered`): an answer is right if and only if
  the byte is zero or the last read that delivered it did not fail (`SiiCache.RightIff`).
- A datagram chain parses back if and only if `more` was true for all added datagrams but the last
  (`Datagram.ParsesBackIff`): the flag is only ever corrected on the first datagram.
- A ramp step keeps the limits if and only if the velocity was within reach of its limit, which it may not
  be after the limit was lowered (`VelocityRamp.StepIsBoundedIff`). Two ramp steps are not always one
  (`VelocityRamp.StepsComposeIff`). A timed-out platform stands if and only if the time between steps without
  a negative alignment query in between is long enough (`PlatformControl.StandsInEveryRunIff`); such a query
  before every step keeps it from braking at all (`VelocityRamp.QueriesPreventBraking`).
- The speed may exceed the limit for a command between two accepted commands
  (`SpeedLimit.LimitIsExceededInARun`). In every run of the driver it stays within it until the next command
  if and only if the corner on the way to the target does (`SpeedLimit.SpeedStaysInEveryRunIff`).
- The comment in `airo-tulip/airo_tulip/hardware/ethercat.py` calls the wheel encoders unwrapped, the
  monitor treats them as wrapped; the model follows the monitor.

## Model

| member | source | states |
|---|---|---|
| Network.ParentOfSlave | kelo-tulip/src/soem/ethercatconfig.c:449-479 | in the order in which a frame enters the slaves, every slave but the first hangs on a port of an earlier slave, right behind the branches on the ports before |
| Network.ChildOfSlave | kelo-tulip/src/soem/ethercatdc.c:216-244 | the child on each port has the number that the sizes of the branches before it give |
| Topology.FindParent | kelo-tulip/src/soem/ethercatconfig.c:449-479 | the backward scan stops at the nearest earlier slave with an open branch, or at slave 1 |
| Topology.FindParents | kelo-tulip/src/soem/ethercatconfig.c:449-479 | all parents are found, each with a smaller number than its child, and nothing else in the slave list changes |
| Topology.TailIsNegative | kelo-tulip/src/soem/ethercatconfig.c:455-469 | every tail of a tree's link counts closes more branches than it opens; the whole closes one more |
| Topology.OnlyParentIsOpen | kelo-tulip/src/soem/ethercatconfig.c:455-475 | between a slave and its true parent no slave has an open branch, and the parent has one |
| Topology.ScanFindsTrueParent | kelo-tulip/src/soem/ethercatconfig.c:449-479 | for every tree the scan's answer is the true parent and nothing else |
| DistributedClock.EntryPort | kelo-tulip/src/soem/ethercatdc.c:311-351 | the entry port is an active port with the earliest time stamp, and the first such port in the order 0, 3, 1, 2 |
| DistributedClock.ParentPort | kelo-tulip/src/soem/ethercatdc.c:216-244 | the first unused port of the parent in the order 3, 1, 2, 0 is handed out and marked as used |
| DistributedClock.LinkSlave | kelo-tulip/src/soem/ethercatdc.c:279-294 | a slave with a clock is appended to the chain of such slaves: the first one to record 0, every other one behind the one before, linked both ways |
| DistributedClock.AttachSlave | kelo-tulip/src/soem/ethercatdc.c:356-409 | the nearest ancestor with a clock gives up one port, and the delay of the slave is computed against it |
| DistributedClock.SkipSlave | kelo-tulip/src/soem/ethercatdc.c:411-427 | a branch of slaves without clock takes one port from the split it hangs on, when its end is reached |
| DistributedClock.ConfigDc | kelo-tulip/src/soem/ethercatdc.c:252-431 | the slave list after the loop over all slaves, for every list whose parents come first: record 0 leads to the first slave with a clock, every slave with a clock leads to the next one and back to the one before, and the answer says whether there is any |
| DistributedClock.RunIsChained | kelo-tulip/src/soem/ethercatdc.c:278-295 | after any number of rounds the slaves with a clock so far are linked both ways, in the order of their numbers |
| DistributedClock.PrevIsNearest | kelo-tulip/src/soem/ethercatdc.c:173-210 | on any set of active ports and for any entry port, the previous port is the nearest active one before it in the cyclic order 0, 3, 1, 2 |
| DistributedClock.DelayOfAnyTimes | kelo-tulip/src/soem/ethercatdc.c:374-405 | the delay for any latched times: half of what the trip to the slave takes without the time spent behind it, cut off towards zero, plus the time before; times that cannot be are taken with the other sign |
| ClockLines.LineLeadsUp | kelo-tulip/src/soem/ethercatdc.c:356-361 | every slave with a clock somewhere above it lies on a line of slaves without a clock behind one port of the nearest such slave, and is entered when the frame has passed that line |
| ClockLines.LineEnds | kelo-tulip/src/soem/ethercatdc.c:411-427 | the number of the slave at which a line ends, with a clock or without any, follows from the sizes of the branches before |
| ClockLines.NoneBefore | kelo-tulip/src/soem/ethercatdc.c:356-363 | a slave without any clock above it has none before it either, so only one slave is the reference for all others |
| PropagationDelay.EntersAtPortZero | kelo-tulip/src/soem/ethercatdc.c:311-354 | the entry port found from the stamps of any passing frame is port 0 |
| PropagationDelay.PortBefore | kelo-tulip/src/soem/ethercatdc.c:173-210 | the stamp on the port named as previous is the time at which the frame was handed to the port itself |
| PropagationDelay.FirstUnused | kelo-tulip/src/soem/ethercatdc.c:216-244 | when a slave takes a port from the slave with a clock above it, the first unused one exists and is the port it is reached through |
| PropagationDelay.UnusedAfter | kelo-tulip/src/soem/ethercatdc.c:356-427 | in each round one port of one slave is used up: the one through which a slave with a clock, or the end of a line without clocks on a split, is reached from the nearest clock above |
| PropagationDelay.HoldsSplitter | kelo-tulip/src/soem/ethercatdc.c:411-427 | the split held while a line without clocks is passed is the nearest slave with a clock above that line, if that is a split |
| PropagationDelay.ClockAbove | kelo-tulip/src/soem/ethercatdc.c:356-361 | the search upwards ends at the nearest slave with a clock and remembers the head of the line behind its port |
| PropagationDelay.DelayIsExact | kelo-tulip/src/soem/ethercatdc.c:374-405 | one application of the delay formula gives the time of the frame's entry plus the skew of the way from the nearest clock above |
| PropagationDelay.MeasuredDelay | kelo-tulip/src/soem/ethercatdc.c:252-431 | for every tree whose splits have clocks, with slaves without a clock anywhere else, arbitrary link times and clock offsets: every slave with a clock gets the port through which the nearest clock above it reaches it, and the delay from the entry into the first slave with a clock to its own entry, plus half of the asymmetry on the way; the others get no times |
| PropagationDelay.ExactIffSymmetric | kelo-tulip/src/soem/ethercatdc.c:252-431 | all delays are exact if and only if all ways between neighbouring clocks are symmetric, that is if the way back takes as long as the way there or one unit longer: half the round trip is rounded down |
| PropagationDelay.MeasureNetwork | kelo-tulip/src/soem/ethercatdc.c:252-431 | enumeration and measurement together: from link counts, port maps and time stamps alone every slave gets its true parent, the slaves with a clock are linked, and each of them gets its true port and its delay against the first one, to which record 0 leads |
| ClocklessSplit.BehindSplit | kelo-tulip/src/soem/ethercatdc.c:374-405 | behind a split without a clock the delay of a slave is exact if and only if half of the time that the frame spends in the other branches is what it spends in those before |
| ClocklessSplit.SplitWithoutClockIsWrong | kelo-tulip/src/soem/ethercatdc.c:252-431 | two slaves behind a split without a clock, all ways symmetric: the first one is entered after 20 units of time, and the master computes 30 |
| FmmuMapping.CollectSms | kelo-tulip/src/soem/ethercatconfig.c:1043-1071 | one window takes adjoining sync managers until it has enough bits, or up to the next one that does not adjoin; the loop either moves on or has enough bits, so the mapping ends |
| FmmuMapping.PlaceBits | kelo-tulip/src/soem/ethercatconfig.c:1073-1093 | a bit window starts at the first free bit, has exactly the slave's bits, and the next free bit follows it |
| FmmuMapping.PlaceBytes | kelo-tulip/src/soem/ethercatconfig.c:1094-1114 | a byte window starts at the first free byte and is as long as the sync managers allow |
| FmmuMapping.MapSlave | kelo-tulip/src/soem/ethercatconfig.c:1021-1136 | all windows of a slave follow each other without overlap; bits are packed, bytes leave no gap and are complete if the sync managers hold them; there is one window for each group of adjoining sync managers |
| SyncManagers.ShapesAreCounted | kelo-tulip/src/soem/ethercatconfig.c:1043-1114 | cut the sync managers of a kind where they do not adjoin: there is one window for each such run, from its start on, as long as all runs up to it together or what is left of the data |
| SyncManagers.WindowsAreRightIff | kelo-tulip/src/soem/ethercatconfig.c:1043-1114 | the windows hold each run as far as there is data for it, one after the other, if and only if no run but the first with any memory and the last that is needed has any |
| SyncManagers.TwoRunsAreRight | kelo-tulip/src/soem/ethercatconfig.c:1043-1114 | two runs that hold all data are always mapped right |
| SyncManagers.ThirdRunIsLost | kelo-tulip/src/soem/ethercatconfig.c:1043-1114 | three sync managers of four, one and three bytes that do not adjoin: the second window has four bytes, and the third sync manager is not mapped |
| SyncManagers.SlaveIsMappedRightIff | kelo-tulip/src/soem/ethercatconfig.c:1148-1303 | the same for each slave of a mapped group; a slave with fewer than eight bits has its window at its first sync manager of the kind |
| Segments.SegmentsHoldAll | kelo-tulip/src/soem/ethercatconfig.c:1182-1218 | no segment is longer than the limit, and they hold all spans if and only if the table has room for all segments needed |
| Segments.SpanInSegment | kelo-tulip/src/soem/ethercatconfig.c:1182-1218 | no slave's span is cut by a segment border |
| IoMap.AddSpan | kelo-tulip/src/soem/ethercatconfig.c:1182-1196 | the table and its two cursors follow the greedy cut |
| IoMap.MapAll | kelo-tulip/src/soem/ethercatconfig.c:1171-1223 | one direction of all slaves: every window is exactly where the slaves before leave off, slaves with fewer than eight bits share bytes, and the spans, the counter of windows and the shared last byte follow from the slaves alone |
| IoMap.Group.MapGroup | kelo-tulip/src/soem/ethercatconfig.c:1148-1303 | outputs lie in the first Obytes bytes, inputs in the Ibytes bytes after them; all windows are disjoint, increasing and where the slaves before leave off; both sizes, the segment table, Isegment and Ioffset are those of the spans that the slaves' descriptions give |
| LayoutSize.SpanIsBounded | kelo-tulip/src/soem/ethercatconfig.c:1021-1136 | a slave takes at most its whole bytes and one more |
| LayoutSize.NeededIsBounded | kelo-tulip/src/soem/ethercatconfig.c:1182-1218 | two segments that follow each other are together longer than the limit, so spans of less than k such pairs need at most 2 k segments |
| LayoutSize.GroupFits | kelo-tulip/src/soem/ethercatconfig.c:1148-1303 | a bound on each slave's size and one on all together make the layout fit the table of 64 segments |
| Pieces.LrwCoversImage | kelo-tulip/src/soem/ethercatmain.c:1816-1858 | the LRW datagrams address every byte of the image once, in order |
| Pieces.LrdCoversInputs | kelo-tulip/src/soem/ethercatmain.c:1735-1775 | the LRD datagrams, starting inside segment Isegment, address every input byte once |
| Pieces.LwrCoversOutputs | kelo-tulip/src/soem/ethercatmain.c:1776-1813 | the LWR datagrams address every output byte once |
| Pieces.LrwCoversIffTableSuffices | kelo-tulip/src/soem/ethercatconfig.c:1182-1218 | the datagrams cover the image if and only if the segment table suffices |
| WorkCounter.TouchedOnceIff | kelo-tulip/src/EtherCATMaster.cpp:121 | every window is reached, and by one datagram alone if and only if no border between two datagrams cuts it |
| WorkCounter.TotalCountsWindowsIff | kelo-tulip/src/EtherCATMaster.cpp:121 | the datagrams together reach as many windows as there are, if and only if none is cut; otherwise more |
| WorkCounter.LrwMeetsExpected | kelo-tulip/src/EtherCATMaster.cpp:121 | the sum of the work counters over the LRW datagrams is the expected number, and two for each cut of an output window and one for each cut of an input window more, and two for each empty output window less |
| WorkCounter.SeparateMeetsExpected | kelo-tulip/src/EtherCATMaster.cpp:121 | the same with LRD and LWR, whose counter is doubled |
| WorkCounter.WholeBytesAreUncut | kelo-tulip/src/soem/ethercatconfig.c:1182-1218 | no datagram, of either way of sending, cuts a window of a group whose slaves have whole bytes |
| NicDriver.Port.GetIndex | kelo-tulip/src/soem/oshw/linux/nicdrv.c:218-250 | the next empty buffer in cyclic order is allocated; if there is none, the one after the last |
| NicDriver.Port.InFrame | kelo-tulip/src/soem/oshw/linux/nicdrv.c:373-453 | a frame goes to the buffer of its own index if it is awaited there; no other awaited frame is disturbed |
| NicDriver.Port.WaitInFrame | kelo-tulip/src/soem/oshw/linux/nicdrv.c:550-564 | the frame with the index is found exactly if it arrives at all, whether it had been put aside before or not |
| NicDriver.FindPermuted | kelo-tulip/src/soem/oshw/linux/nicdrv.c:373-453 | which frame is found for an index does not depend on the order of arrival |
| ProcessData.Master.PushIndex | kelo-tulip/src/soem/ethercatmain.c:1643-1652 | an entry is put on the stack, unless all sixteen are taken |
| ProcessData.Master.PullIndex | kelo-tulip/src/soem/ethercatmain.c:1658-1668 | entries come back in the order in which they were put on |
| ProcessData.Master.Emit | kelo-tulip/src/soem/ethercatmain.c:1831-1856 | one datagram is sent from its own buffer with the data at its own address, and its stack entry says where the answer belongs |
| ProcessData.Master.SendProcessData | kelo-tulip/src/soem/ethercatmain.c:1694-1859 | the datagrams sent are the planned ones, each in its own buffer with its own stack entry, with the outputs in them; with a clock the first frame and no other also carries one FRMW of the eight bytes of system time at register 0x910 of the slave that comes first in the chain |
| ProcessData.Master.TakeAnswer | kelo-tulip/src/soem/ethercatmain.c:1926-1966 | inputs are copied to their place, the counter of a write counts twice, and in the first frame of a cycle with a clock the counter in front of the clock datagram is used |
| ProcessData.Master.ReceiveProcessData | kelo-tulip/src/soem/ethercatmain.c:1907-1982 | for every wire, the image is the old one with the data of every answered read in its place, the counter is the sum over the answers, the system time is that of the first answer in a cycle with a clock, and all buffers are free again |
| ProcessData.ImageAt | kelo-tulip/src/soem/ethercatmain.c:1926-1966 | every byte of the image is the one that the last answered read of it brought, or has not changed |
| ProcessData.CounterIsSum | kelo-tulip/src/soem/ethercatmain.c:1926-1981 | the counter is the sum over the answered datagrams, those of writes counted twice, and there is one if anything is answered |
| Cycle.PlanInImage | kelo-tulip/src/soem/ethercatmain.c:1727-1859 | all datagrams stay inside the process image |
| Cycle.OrderDoesNotMatter | kelo-tulip/src/soem/ethercatmain.c:1907-1982 | every order of arrival gives the same image and the same counter |
| Cycle.LrwFillsImage | kelo-tulip/src/soem/ethercatmain.c:1907-1982 | if no LRW frame is lost, the image becomes the data of the answers, one after the other |
| Cycle.LrdFillsInputs | kelo-tulip/src/soem/ethercatmain.c:1907-1982 | if LRW is blocked and no LRD frame is lost, the inputs become the data of the answers and the outputs stay as they are |
| Cycle.CycleMeetsExpected | kelo-tulip/src/EtherCATMaster.cpp:258 | in a cycle without losses the master reports the counter it expects if and only if there is any process data, and twice the cuts of output windows and the cuts of input windows add up to twice the empty output windows, over LRW and over LRD with LWR |
| Cycle.BalancedIff | kelo-tulip/src/EtherCATMaster.cpp:258 | if no output window is empty, they do if and only if no window is cut by a border of the datagrams sent; if none is cut, if and only if no output window is empty; windows of slaves with whole bytes are never cut |
| WindowCases.EmptyWindowIsNeverReached | kelo-tulip/src/soem/ethercatconfig.c:1043-1114 | a slave with two sync managers for outputs, of which the first is empty and the second does not adjoin, is mapped with an empty output window, and the expected counter is never met |
| WindowCases.CutWindowCountsTwice | kelo-tulip/src/soem/ethercatconfig.c:1182-1196 | slaves with 1465 bytes, 4, 7 and 7 bits of outputs are mapped so that the third window lies in two datagrams, and the expected counter is never met |
| Cycle.Exchange | kelo-tulip/src/soem/ethercatmain.c:1694-1982 | send and receive together: the new image and counter for every wire, and readiness for the next cycle |
| Cycle.PlanIsShort | kelo-tulip/src/soem/ethercatmain.c:1727-1859 | a cycle needs at most twice as many frames as there are segments |
| Cycle.SmallGroupFits | kelo-tulip/src/soem/ethercatmain.c:1727-1859 | in particular a group with no more than four full segments of data fits the table and the sixteen buffers |
| Cycle.MapAndExchange | kelo-tulip/src/EtherCATMaster.cpp:107-258 | mapping and one cycle together, for every group that fits the segment table and the sixteen buffers, and for every wire: the new image, and the counter, which, if all slaves do their work, is the expected one exactly under the condition of Cycle.CycleMeetsExpected |
| Cycle.ConfigureAndExchange | kelo-tulip/src/soem/ethercatdc.c:252-431 | clocks, mapping and one cycle together: if any slave has a clock, the first frame asks the first such slave for the time and no other frame does; otherwise none does |
| Eoe.Info2Fields | kelo-tulip/include/kelo_tulip/soem/ethercateoe.h:79-91 | what is put into the bit fields of a fragment header can be read back |
| Eoe.Send | kelo-tulip/src/soem/ethercateoe.c:322-398 | the fragments of a frame: whole 32-byte blocks but for the last one, with running numbers and offsets |
| Eoe.StandsStillIff | kelo-tulip/src/soem/ethercateoe.c:347-352 | a fragment that is not the last one is empty exactly if the mailbox has less than 32 data bytes |
| Eoe.TakeFragment | kelo-tulip/src/soem/ethercateoe.c:440-493 | a fragment is accepted exactly if number, frame and offset match, and stored if it fits the buffer |
| Eoe.Recv | kelo-tulip/src/soem/ethercateoe.c:415-518 | what is received for every sequence of mails, which EoeReceive.WholeFrameAdjoins and EoeReceive.Refuses say in terms of the bits of the headers |
| Eoe.RoundTripIff | kelo-tulip/src/soem/ethercateoe.c:322-518 | a frame comes back as it was sent if and only if the port has four bits, the buffer takes the frame and the size announced for it, and no fragment starts beyond block 63 |
| Eoe.RoundTrip | kelo-tulip/src/soem/ethercateoe.c:322-518 | in particular every frame of up to 2016 bytes through every mailbox with at least 32 data bytes |
| EoeReceive.WholeFrameAdjoins | kelo-tulip/src/soem/ethercateoe.c:415-518 | whatever arrives, a received frame is the data of adjoining fragments of one frame number that arrived, up to the first last one; its size is four less, in 16 bits, if that one has a time stamp |
| EoeReceive.Refuses | kelo-tulip/src/soem/ethercateoe.c:440-485 | the fragments that end reception with an error: wrong number, port or frame number, an announced size beyond the buffer, or an offset other than where the data so far end |
| EoeReceive.StampedRoundTrip | kelo-tulip/src/soem/ethercateoe.c:322-518 | a frame with four bytes of time stamp behind it comes back with its own size |
| EoeReassembly.Reassembly.ReadFragment | kelo-tulip/src/soem/ethercateoe.c:534-640 | after every fragment the buffer starts with the data of the accepted fragments 0, 1, 2, ... of one frame |
| EoeReassembly.ReadsOne | kelo-tulip/src/soem/ethercateoe.c:534-640 | in terms of the bits of the header: when a fragment is refused and everything is forgotten, when it is stored or skipped, and when the frame is delivered |
| EoeReassembly.FramesAreNeverMixed | kelo-tulip/src/soem/ethercateoe.c:534-640 | whatever arrives, a delivered frame consists of fragments of one frame number at adjoining offsets, all of which arrived |
| EoeReassembly.SentFrameIsDeliveredIff | kelo-tulip/src/soem/ethercateoe.c:534-640 | a frame that is sent whole is delivered, alone and unchanged, if and only if it has at most 2016 bytes and fits the buffer, whatever was left over from fragments lost before |
| EoeStreams.OnlySentFramesAreDelivered | kelo-tulip/src/soem/ethercateoe.c:322-640 | whatever arrives of frames with different numbers, lost, repeated or reordered: every frame that is delivered is one of them, whole and unchanged |
| EoeStreams.SixteenInARow | kelo-tulip/src/soem/ethercateoe.c:352-372 | sixteen frames that are sent one after the other have different numbers |
| EoeStreams.RepeatedNumbersMix | kelo-tulip/src/soem/ethercateoe.c:534-640 | halves of two frames with the same number are delivered as one frame |
| Sdo.Write | kelo-tulip/src/soem/ethercatcoe.c:330-539 | the first frame names the index and the subindex, clamped to 1 with complete access, and whether access is complete; the frames sent are a first part of those of the download, which ends early exactly at an unconfirmed first frame or a refused segment; toggle bits alternate |
| Sdo.NextSegment | kelo-tulip/src/soem/ethercatcoe.c:456-487 | one segment is filled in the mailbox buffer, short last ones with what an earlier frame left there |
| Sdo.ReportsSuccessIff | kelo-tulip/src/soem/ethercatcoe.c:436-538 | success is reported exactly if the first and the last frame are confirmed and none in between is refused |
| Sdo.Read | kelo-tulip/src/soem/ethercatcoe.c:120-293 | what is read for every sequence of replies; every request names the index and the clamped subindex, the first one says whether access is complete, and the toggle bits of the others alternate |
| Sdo.AcceptedAnswer | kelo-tulip/src/soem/ethercatcoe.c:160-277 | only an answer for the object asked for is accepted; an expedited one brings as many bytes as its command says, another one as many as it announces, all of which fit the buffer, or the segments after it bring the rest |
| Sdo.RefusedAnswer | kelo-tulip/src/soem/ethercatcoe.c:160-285 | why a first answer is not accepted: none at all, another object or protocol, or more data than the buffer takes |
| Sdo.ReadSegments | kelo-tulip/src/soem/ethercatcoe.c:206-277 | the loop over segments puts the data of accepted segments one after the other into the buffer |
| Sdo.RoundTripIff | kelo-tulip/src/soem/ethercatcoe.c:177-518 | the frames of a download, read with the rules for uploads, give back the parameter if and only if it fits the buffer, is shorter than 65536 bytes, and is not an empty expedited one |
| Sdo.FramesAreWellFormed | kelo-tulip/src/soem/ethercatcoe.c:398-487 | no frame is longer than the mailbox and all but the last one fill it, toggle bits alternate from segment to segment, and only the last segment is marked as last |
| Sdo.FirstAnnounces | kelo-tulip/src/soem/ethercatcoe.c:346-436 | up to four bytes go into one expedited frame, which says how many, unless access is complete; otherwise the first frame announces the size |
| Foe.PacketShapes | kelo-tulip/src/soem/ethercatfoe.c:255-300 | packets are numbered from 1 and all full but the last one, which is shorter |
| Foe.Write | kelo-tulip/src/soem/ethercatfoe.c:199-353 | for every sequence of replies and every message that fails to be sent, a first part of the packets of the file is sent, each for an acknowledgement of the one before, and the result is decided by what the slave answers to the last one |
| Foe.Read | kelo-tulip/src/soem/ethercatfoe.c:71-186 | for every sequence of mails and every message that fails to be sent, what is in the buffer and why reading stopped; packets are acknowledged in order |
| Foe.ReadStopsAt | kelo-tulip/src/soem/ethercatfoe.c:108-180 | after any number of full packets in sequence: a packet with another number, repeated or after a missing one, is refused like one that does not fit, a shorter one ends the file, and everything else is an error |
| Foe.RoundTripIff | kelo-tulip/src/soem/ethercatfoe.c:71-353 | a reader gets exactly the file and stops there, whatever follows, if and only if the file is not empty, a packet has room for data, the buffer for the file, and the request and all acknowledgements can be sent |
| Datagram.TxBuffer.WriteData | kelo-tulip/src/soem/ethercatbase.c:31-54 | commands that only read get zeros, all others their data |
| Datagram.TxBuffer.Setup | kelo-tulip/src/soem/ethercatbase.c:68-91 | the frame holds one datagram, byte by byte as it is sent, and its length field and size fit it |
| Datagram.TxBuffer.Add | kelo-tulip/src/soem/ethercatbase.c:106-146 | the frame holds the old datagrams and, byte by byte, the new one; the returned offset is where the new one's data will be received |
| Datagram.ParsesAnnounced | kelo-tulip/src/soem/ethercatbase.c:106-146 | a frame parses to its datagrams up to the first one that announces no other |
| Datagram.ParsesBackIff | kelo-tulip/src/soem/ethercatbase.c:68-146 | a frame parses back to everything that was put into it if and only if `more` was true for all added datagrams but the last |
| Datagram.AllAreDelivered | kelo-tulip/src/soem/ethercatbase.c:31-146 | then the slaves find every request in its order: command and address, the data of every write, and zeros for every read |
| Datagram.LengthFindsLastCounter | kelo-tulip/src/soem/oshw/linux/nicdrv.c:394-422 | the length field leads the receiver to the work counter of the last datagram |
| StatusReads.Build | kelo-tulip/src/soem/ethercatmain.c:690-705 | status reads for up to 64 slaves fit one frame, and each position remembered is that of its datagram's data |
| StatusReads.FprdMulti | kelo-tulip/src/soem/ethercatmain.c:682-716 | every slave's own status comes back at its place in the list, or all statuses are clear if the frame is lost |
| ReadState.Master.PollAll | kelo-tulip/src/soem/ethercatmain.c:784-819 | consecutive batches of at most 64 slaves visit every slave once; states, codes, their sum and the lowest state are stored |
| ReadState.Master.ReadState | kelo-tulip/src/soem/ethercatmain.c:722-823 | with an error flag in the broadcast, a slave missing, or a state that cannot be one slave's, every slave is asked, and its own status and code are stored; otherwise all slaves get the state of the broadcast |
| ReadState.EachIsCovered | kelo-tulip/src/soem/ethercatmain.c:733-742 | the broadcast contains the bits of every slave's state |
| ReadState.BroadcastAgreesIff | kelo-tulip/src/soem/ethercatmain.c:733-781 | for error-free slaves the broadcast gives every slave its state and the right lowest one, unless the states only add up to the code of BOOT; then the lowest state is reported too high |
| ReadState.ReadsStatesIff | kelo-tulip/src/soem/ethercatmain.c:722-823 | for slaves with or without error flags, all present or not, what is stored is what the slaves are in and the lowest state is right, unless all of them answer and only look like BOOT; with any error flag or missing slave it always is |
| ReadState.LowestIsReached | kelo-tulip/src/soem/ethercatmain.c:784-819 | the lowest state is that of some slave, and no slave is in a lower one |
| ReadState.CodesAreCollected | kelo-tulip/src/soem/ethercatmain.c:784-819 | the summary of the codes has the bits of every slave's code and no others |
| ReadState.InitAndPreOpLookLikeBoot | kelo-tulip/src/soem/ethercatmain.c:754-780 | one slave in INIT and one in PRE_OP are taken for two in BOOT |
| SiiCache.Context.Select | kelo-tulip/src/soem/ethercatmain.c:343-347 | a request for another slave forgets everything |
| SiiCache.Context.Mark | kelo-tulip/src/soem/ethercatmain.c:378-390 | the bitmap marks exactly the bytes that were read, across word borders |
| SiiCache.Context.GetByte | kelo-tulip/src/soem/ethercatmain.c:333-396 | the cache's bytes stay those of the current slave's EEPROM, but for bytes of failed reads |
| SiiCache.Context.GetAll | kelo-tulip/src/soem/ethercatmain.c:333-396 | the answers to every sequence of requests |
| SiiCache.OutOfRange | kelo-tulip/src/soem/ethercatmain.c:333-396 | beyond the buffer every byte reads as 255 and nothing is read; a read makes the four or eight bytes from an even address on known |
| SiiCache.CacheIsTransparent | kelo-tulip/src/soem/ethercatmain.c:333-396 | if no EEPROM read fails, every answer is the EEPROM byte of the slave asked for, also across changes of the slave |
| SiiCache.RightIff | kelo-tulip/src/soem/ethercatmain.c:333-396 | in every run of requests an answer is right if and only if the byte is zero, or the last EEPROM read that delivered it, since another slave was asked for, did not fail |
| SiiCache.AllRightIff | kelo-tulip/src/soem/ethercatmain.c:333-396 | in particular, for EEPROM bytes that are not zero every answer is right if and only if none of the EEPROM reads that are needed fails |
| SiiCache.FailureIsRemembered | kelo-tulip/src/soem/ethercatmain.c:366-391 | a failed read answers the same request with zero later, without another attempt |
| SiiCache.ReadsOncePerAddress | kelo-tulip/src/soem/ethercatmain.c:348-391 | for one slave the EEPROM is read at most once for every address asked for |
| Encoder.Monitor.UpdateChannel | airo-tulip/airo_tulip/hardware/platform_monitor.py:195-212 | one encoder of one wheel is updated and no other |
| Encoder.Monitor.UpdateEncoders | airo-tulip/airo_tulip/hardware/platform_monitor.py:180-212 | after every sample all sums are those of all samples so far |
| Encoder.OffByWholeTurns | airo-tulip/airo_tulip/hardware/platform_monitor.py:180-212 | however a shaft moves, its sum is off by a whole number of turns |
| Encoder.TracksIff | airo-tulip/airo_tulip/hardware/platform_monitor.py:180-212 | the sum is right after every sample if and only if every step is shorter than half a turn, or exactly half a turn and not wrapped |
| Encoder.MonitorTracks | airo-tulip/airo_tulip/hardware/platform_monitor.py:180-212 | shafts that turn by less than half a turn between samples are followed exactly, for every wheel and both encoders |
| VelocityRamp.Controller.CalculatePlatformRampedVelocities | airo-tulip/airo_tulip/hardware/controllers/velocity_platform_controller.py:139-200 | all three components make one ramp step over the time since the last one, or over no time if there was none, the first two with the linear limits and the third one with the angular limits |
| VelocityRamp.Controller.AreDrivesAligned | airo-tulip/airo_tulip/hardware/controllers/velocity_platform_controller.py:228-243 | the answer, and that a negative one makes the ramp forget the time of its last step |
| VelocityRamp.StepIsBoundedIff | airo-tulip/airo_tulip/hardware/controllers/velocity_platform_controller.py:139-200 | a step changes a component by no more than time times the larger limit, if and only if the component was within reach of its velocity limit |
| VelocityRamp.StepStaysBetween | airo-tulip/airo_tulip/hardware/controllers/velocity_platform_controller.py:139-200 | a step does not overshoot its target and ends within the velocity limit |
| VelocityRamp.StepIsFast | airo-tulip/airo_tulip/hardware/controllers/velocity_platform_controller.py:139-200 | a step that does not reach its target uses the full acceleration or deceleration |
| VelocityRamp.StepsComposeIff | airo-tulip/airo_tulip/hardware/controllers/velocity_platform_controller.py:139-200 | two steps equal one over the same time if and only if the first does not pass zero, or the second covers the same distance at either rate, or what is left for it is within reach at either rate |
| VelocityRamp.RampComposes | airo-tulip/airo_tulip/hardware/controllers/velocity_platform_controller.py:139-200 | in particular a ramp that does not pass zero does not depend on how time is cut into steps |
| VelocityRamp.CrossingDependsOnSteps | airo-tulip/airo_tulip/hardware/controllers/velocity_platform_controller.py:149-162 | a ramp through zero that depends on it: acceleration 0, deceleration 1 |
| VelocityRamp.RunIsOneStep | airo-tulip/airo_tulip/hardware/controllers/velocity_platform_controller.py:139-243 | any run of steps and queries takes a component where one step over all the counted time would, if acceleration and deceleration are the same or it does not pass zero |
| VelocityRamp.EventIsBounded | airo-tulip/airo_tulip/hardware/controllers/velocity_platform_controller.py:139-200 | from every state within the velocity limits, a step or query changes a component by no more than time times the larger limit, does not overshoot, and keeps the limit |
| VelocityRamp.RunBrakes | airo-tulip/airo_tulip/hardware/controllers/velocity_platform_controller.py:139-243 | with target zero, any sequence of steps and alignment queries brakes every component for exactly the time that counts |
| VelocityRamp.RunStandsIff | airo-tulip/airo_tulip/hardware/controllers/velocity_platform_controller.py:139-243 | the platform stands if and only if that time reaches speed over deceleration for every component |
| VelocityRamp.QueriesPreventBraking | airo-tulip/airo_tulip/hardware/controllers/velocity_platform_controller.py:228-243 | with a negative alignment query before every step no time counts at all |
| PlatformControl.Setpoint | airo-tulip/airo_tulip/hardware/platform_driver.py:251-269 | a setpoint is never larger than 35; in velocity mode it is zero or at least 0.01, and between the two it is the target |
| PlatformControl.PlatformDriver.Step | airo-tulip/airo_tulip/hardware/platform_driver.py:111-139 | the new state and target; an active driver sends motor 1 of every drive the negated right velocity and motor 2 the left one, as they are in velocity mode between 0.01 and 35 and as the torque controllers answer otherwise, and any other driver sends zero; and whether the driver gives up |
| PlatformControl.PlatformDriver.StepInit | airo-tulip/airo_tulip/hardware/platform_driver.py:141-158 | READY is reached exactly if all wheels are enabled and none has an error |
| PlatformControl.ReadyStatus | airo-tulip/airo_tulip/hardware/platform_driver.py:141-158 | a wheel is enabled and free of errors exactly if its first status is 3 or 63 and its second one 2051 |
| PlatformControl.PlatformDriver.DoControl | airo-tulip/airo_tulip/hardware/platform_driver.py:219-277 | one ramp step, then the setpoints of every drive |
| PlatformControl.PlatformDriver.SetPlatformVelocityTarget | airo-tulip/airo_tulip/hardware/platform_driver.py:69-99 | which commands are accepted, that an accepted one is the target until its duration is over, and that a refused one changes nothing |
| PlatformControl.ActiveNeedsReadyWheels | airo-tulip/airo_tulip/hardware/platform_driver.py:129-174 | in every run the driver becomes active only after two steps, in one of which all wheels were ready |
| PlatformControl.StaysActive | airo-tulip/airo_tulip/hardware/platform_driver.py:129-179 | once active the driver stays active; nothing leads to the error state |
| PlatformControl.SetpointsAreSafe | airo-tulip/airo_tulip/hardware/platform_driver.py:199-277 | only an active driver sends setpoints other than zero, none is too large, and none in velocity mode is tiny |
| PlatformControl.SpeedIsKept | airo-tulip/airo_tulip/hardware/platform_driver.py:69-99 | over every run of commands, steps and queries, each velocity component stays within what a command may ask for |
| PlatformControl.SpeedMayExceedLimitInBetween | airo-tulip/airo_tulip/hardware/platform_driver.py:89-92 | a ramp step between two velocities within the limit for a command that ends beyond it |
| SpeedLimit.SpeedStaysIff | airo-tulip/airo_tulip/hardware/controllers/velocity_platform_controller.py:139-243 | from a velocity and with a target within the limit for a command, no run of steps and queries leaves it, if and only if the corner lies within it at which the first component reaches its target; for components that pass zero, with the same acceleration and deceleration |
| SpeedLimit.StepStaysIff | airo-tulip/airo_tulip/hardware/controllers/velocity_platform_controller.py:139-200 | the same for one step of any length, with any acceleration and deceleration |
| SpeedLimit.CornerDecidesOnlyIfSteady | airo-tulip/airo_tulip/hardware/controllers/velocity_platform_controller.py:139-200 | two steps that leave the limit although the corner lies within it: acceleration 10, deceleration 1, and a component that passes zero |
| SpeedLimit.StaysSlowIff | airo-tulip/airo_tulip/hardware/platform_driver.py:111-139 | until the next command an active driver stays within the limit if and only if its ramp would, also if the command times out on the way |
| SpeedLimit.SpeedStaysInEveryRunIff | airo-tulip/airo_tulip/hardware/platform_driver.py:69-139 | from the start of the driver, after any commands, steps and queries: until the next command the speed stays within the limit for a command if and only if the corner does |
| SpeedLimit.LimitIsExceededInARun | airo-tulip/airo_tulip/hardware/platform_driver.py:69-139 | two accepted commands take a driver from its start to a speed beyond the limit for either |
| PlatformControl.RunKeepsWithin | airo-tulip/airo_tulip/hardware/platform_driver.py:69-139 | over every run of commands, steps and queries, no velocity component exceeds its limit |
| PlatformControl.EveryStepIsBounded | airo-tulip/airo_tulip/hardware/platform_driver.py:111-139 | whatever happened before, every step of a run changes a component by no more than time times the larger limit and does not overshoot the target in force |
| PlatformControl.TimedOutRun | airo-tulip/airo_tulip/hardware/platform_driver.py:123-134 | after a timeout an active driver runs the ramp with target zero |
| PlatformControl.StandsAfterTimeoutIff | airo-tulip/airo_tulip/hardware/platform_driver.py:111-134 | from a state within the velocity limits, a timed-out platform stands if and only if the time counted since is long enough for every component to brake |
| PlatformControl.StopsAfterTimeout | airo-tulip/airo_tulip/hardware/platform_driver.py:111-277 | then every step sends zero setpoints to every drive |
| PlatformControl.StandsInEveryRunIff | airo-tulip/airo_tulip/hardware/platform_driver.py:69-139 | the same from the start of the driver, after any commands, steps and queries: once the last command has timed out, the platform stands if and only if the counted time is long enough |
| PlatformControl.StopsInEveryRun | airo-tulip/airo_tulip/hardware/platform_driver.py:69-277 | from the start of the driver: once the last command has timed out and the counted time is long enough, every step sends zero setpoints to every drive |
| PlatformControl.CommandIsInForce | airo-tulip/airo_tulip/hardware/platform_driver.py:69-134 | from a command on the driver has its target in every run of steps and queries that ends before the duration of the command is over |
| PlatformControl.StopsAfterCommand | airo-tulip/airo_tulip/hardware/platform_driver.py:69-277 | from the start of the driver, whatever came before a command: steps that come later than its duration after it brake the platform, and send zero setpoints to every drive as soon as the time counted since is enough |
| PlatformControl.CountedGrows | airo-tulip/airo_tulip/hardware/platform_driver.py:111-134 | the counted time never shrinks, so a platform that has stopped stays so |
| PlatformControl.StepsCountAllTime | airo-tulip/airo_tulip/hardware/platform_driver.py:111-134 | without alignment queries the counted time is all the time since the last step before |

## Left out

- PropagationDelay.MeasuredDelay: only for networks in which every split has a clock; for a split without one the single delay has its exact condition (ClocklessSplit.BehindSplit), the ports of the other slaves have none. Slaves entered through another port than 0 and the 32-bit wrap-around of time stamps are not modelled.
- DistributedClock.ConfigDc: the registers for the offset of the system time and for the delay are not written in the model, and a register that cannot be read is not modelled.
- FmmuMapping.MapSlave: the slot in the FMMU table is not modelled. Whether the windows are right is the subject of SyncManagers.
- ProcessData.Master.SendProcessData: only for layouts within the segment table, which LayoutSize.GroupFits gives for all groups up to a size; what is sent otherwise is not modelled, except that it cannot cover the image (Pieces.LrwCoversIffTableSuffices).
- ProcessData.Master.ReceiveProcessData: at most sixteen frames in a cycle, and in a cycle with a clock the first frame must not be lost: the code then takes a later frame for the first one.
- NicDriver.Port.WaitInFrame: the timer runs out when nothing more arrives, and all waits of a cycle share the frames that arrive: a frame that comes after one wait has given up and before the next begins is not covered. Sockets, threads, locks and the redundant port are not modelled.
- Sdo.Read: frames whose lengths do not fit together or into the buffer end the model's run as `Malformed`; the code does not check for them. A slave that never answers makes the code ask for ever (`Endless`).
- Sdo.Write: a message that cannot be sent counts as one that gets no answer. Mailbox counters and the two error lists are not modelled.
- Foe.Write: a busy reply ends the transfer, as in the code; no packet is ever sent again. A message that cannot be sent counts as one without an answer. The progress hook is not modelled.
- Eoe.Send: only for mailboxes with at least 32 data bytes, or frames that fit in one fragment; otherwise the code sends empty fragments for ever (Eoe.StandsStillIff). The frame number after more than 256 fragments is not specified (the eight-bit fragment counter then starts again); sending a fragment never fails.
- StatusReads.FprdMulti: at least one slave is asked; without any slaves the code still sends one datagram to an address it never set and ignores the answer.
- ReadState.Master.ReadState: slaves do not change their states while they are read.
- SiiCache.Context.GetByte: only reads that stay inside the buffer; the last words of it can be read past its end with 4 or 8 bytes. EEPROM retries count as one read that succeeds or fails.
- Datagram.TxBuffer.Add: the frame must have room, which the code leaves to its callers.
- Encoder.TracksIff: readings are real numbers; rounding is not modelled.
- VelocityRamp.StepIsBoundedIff: the clock does not go back and limits are not negative.
- PlatformControl.StopsAfterTimeout: velocity mode only; the torque controllers are an arbitrary function. Changing the driver type or the limits of the ramp during a run is not modelled.
- Wheel kinematics and pivot errors need sine, cosine and arctangent and are parameters; odometry is not modelled.
- The overlapping process image and groups other than 0, where Obytes is stored as an absolute address.
- Slave detection, state changes, recovery of lost slaves, CoE mapping reads, SoE, the object dictionary, print tables.
- ROS nodes, the message server and client, the dashboard and the other ports of the network driver: plumbing or copies.
