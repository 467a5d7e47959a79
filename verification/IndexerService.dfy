/**
 EVMTxIndexerService.OnStart (app/server/evm_tx_indexer_service.go) as a transition system: the
 goroutine that listens for headers and the loop that indexes, sharing an atomic height and a
 one-slot channel.
 */
module IndexerService {
  import opened Bytes
  import opened TxResultCodec
  import opened IndexStore
  import opened TxIndexer
  import CatchUp

  /** Where the listener is. */
  datatype Listener =
    | Listening
    | Received(header: int)               // a header has arrived, the height not yet loaded
    | Storing(header: int)                // found it higher, about to store it
    | Notifying                           // stored, about to signal

  /** Where the indexer loop is. */
  datatype Indexer =
    | Starting                            // about to load the height for an empty store
    | AtHead                              // top of the loop, about to load the height
    | Comparing(chainHeight: int)         // loaded, about to compare with lastIndexedHeight
    | Waiting(chainHeight: int)           // in the select
    | FetchingStatus(chainHeight: int)    // about to ask for the earliest height
    | Indexing(chainHeight: int, i: int)  // in the inner loop, about to fetch block i

  /** A block given to IndexBlock, and the records it wrote, None when it returned an error. */
  datatype Pass = Pass(height: int64, records: Option<seq<Saved>>)

  /**
   `start` is lastIndexedHeight as the loop began; `passed` are the blocks given to IndexBlock, in
   order; `reported` are the earliest heights the node has reported; `db` is the store of the index.
   */
  datatype State = State(
    height: int,
    signal: bool,
    listener: Listener,
    indexer: Indexer,
    lastIndexed: int,
    start: int,
    passed: seq<Pass>,
    reported: set<int>,
    db: Store)

  /** After Status and Subscribe; `stored` is what LastIndexedBlock returned. */
  predicate Init(s: State, latest: int, stored: int) {
    && s.height == latest && !s.signal && s.listener == Listening
    && s.indexer == (if stored == -1 then Starting else AtHead)
    && s.lastIndexed == stored && s.start == stored
    && s.passed == [] && s.reported == {}
  }

  /** One atomic step, of the listener or the indexer, with what the environment supplies. */
  datatype Step =
    | ReceiveHeader(header: int)
    | LoadAndCompare
    | StoreHeight
    | Notify
    | LoadStart
    | LoadHeight
    | CompareHeight
    | TakeSignal
    | TimeOut
    | StatusFails
    | StatusReports(earliest: int)
    | FetchFails
    | IndexNext(block: Block, results: seq<DeliverTx>, fault: Fault)
    | LeaveLoop

  /** A panic of IndexBlock stops the node: no step is taken on a block it panics on. */
  predicate Enabled(s: State, step: Step) {
    match step
    case ReceiveHeader(_) => s.listener.Listening?
    case LoadAndCompare => s.listener.Received?
    case StoreHeight => s.listener.Storing?
    case Notify => s.listener.Notifying?
    case LoadStart => s.indexer.Starting?
    case LoadHeight => s.indexer.AtHead?
    case CompareHeight => s.indexer.Comparing?
    case TakeSignal => s.indexer.Waiting? && s.signal
    case TimeOut => s.indexer.Waiting?
    case StatusFails => s.indexer.FetchingStatus?
    case StatusReports(_) => s.indexer.FetchingStatus?
    case FetchFails => s.indexer.Indexing? && s.indexer.i <= s.indexer.chainHeight
    case IndexNext(block, results, _) =>
      s.indexer.Indexing? && s.indexer.i <= s.indexer.chainHeight
      && block.height == s.indexer.i && Records(block, results).Some?
    case LeaveLoop => s.indexer.Indexing? && s.indexer.i > s.indexer.chainHeight
  }

  function Max(a: int, b: int): int { if a >= b then a else b }

  function Take(s: State, step: Step): State
    requires Enabled(s, step)
  {
    match step
    case ReceiveHeader(header) => s.(listener := Received(header))
    case LoadAndCompare =>
      s.(listener := if s.listener.header > s.height then Storing(s.listener.header) else Listening)
    case StoreHeight => s.(height := s.listener.header, listener := Notifying)
    case Notify => s.(signal := true, listener := Listening)
    case LoadStart => s.(lastIndexed := s.height, start := s.height, indexer := AtHead)
    case LoadHeight => s.(indexer := Comparing(s.height))
    case CompareHeight =>
      var c := s.indexer.chainHeight;
      s.(indexer := if c <= s.lastIndexed then Waiting(c) else FetchingStatus(c))
    case TakeSignal => s.(signal := false, indexer := AtHead)
    case TimeOut => s.(indexer := AtHead)
    case StatusFails => s.(indexer := AtHead)
    case StatusReports(earliest) =>
      var c := s.indexer.chainHeight;
      s.(indexer := Indexing(c, Max(s.lastIndexed + 1, earliest)), reported := s.reported + {earliest})
    case FetchFails => s.(indexer := AtHead)
    case IndexNext(block, results, fault) =>
      var Indexing(c, i) := s.indexer;
      var saved := Records(block, results).value;
      var ok := fault != WriteFails && !StrikesSet(fault, 2 * |saved|);
      s.(passed := s.passed + [Pass(block.height, if ok then Some(saved) else None)],
         lastIndexed := i,
         indexer := Indexing(c, i + 1),
         db := if ok then WriteAll(s.db, Batch(saved)) else s.db)
    case LeaveLoop => s.(indexer := AtHead)
  }

  /** The state after a run of steps, if each is enabled in turn. */
  ghost predicate Runs(s: State, steps: seq<Step>, s': State)
    decreases |steps|
  {
    if steps == [] then s == s'
    else Enabled(s, steps[0]) && Runs(Take(s, steps[0]), steps[1..], s')
  }

  // ----- the invariant -----

  /** A listener that has found a header higher still has: nobody else stores. */
  predicate ListenerAhead(s: State) {
    s.listener.Storing? ==> s.listener.header > s.height
  }

  /** Whoever is about to wait, or waits, after reading c has a signal coming if the height has moved on. */
  predicate WakeUpComing(s: State) {
    s.indexer.Comparing? || s.indexer.Waiting? ==>
      s.indexer.chainHeight <= s.height
      && (s.height > s.indexer.chainHeight ==> s.signal || s.listener.Notifying?)
  }

  predicate Increasing(passed: seq<Pass>) {
    forall i, j :: 0 <= i < j < |passed| ==> passed[i].height < passed[j].height
  }

  ghost predicate Written(s: State, h: int) {
    exists p :: p in s.passed && p.height == h && p.records.Some?
  }

  ghost predicate FailedAt(s: State, h: int) {
    exists p :: p in s.passed && p.height == h && p.records == None
  }

  ghost predicate BelowReported(s: State, h: int) {
    exists e :: e in s.reported && h < e
  }

  /** Height `h` was given to IndexBlock or lay below an earliest height the node reported. */
  ghost predicate Covered(s: State, h: int) {
    Written(s, h) || FailedAt(s, h) || BelowReported(s, h)
  }

  ghost predicate Progress(s: State) {
    && Increasing(s.passed) && s.start <= s.lastIndexed
    && (forall p :: p in s.passed ==> s.start < p.height <= s.lastIndexed)
    && s.lastIndexed == (if s.passed == [] then s.start else s.passed[|s.passed| - 1].height)
    && (forall h :: s.start < h <= s.lastIndexed ==> Covered(s, h))
  }

  /** Inside the inner loop: what lies between lastIndexedHeight and i is below a reported height. */
  ghost predicate LoopProgress(s: State) {
    s.indexer.Indexing? ==>
      && s.lastIndexed < s.indexer.i && s.indexer.chainHeight <= s.height
      && (forall h :: s.lastIndexed < h < s.indexer.i ==> Covered(s, h))
  }

  ghost predicate Bounded(s: State) {
    && (s.indexer.FetchingStatus? ==> s.indexer.chainHeight <= s.height)
    && s.lastIndexed <= Max(s.start, s.height)
    && (s.indexer.Starting? ==> s.passed == [])
  }

  ghost predicate Inv(s: State) {
    ListenerAhead(s) && WakeUpComing(s) && Progress(s) && LoopProgress(s) && Bounded(s)
  }

  lemma InitInv(s: State, latest: int, stored: int)
    requires Init(s, latest, stored)
    ensures Inv(s)
  {
  }

  lemma StepInv(s: State, step: Step)
    requires Inv(s) && Enabled(s, step)
    ensures Inv(Take(s, step))
  {
    hide Take, ListenerAhead, WakeUpComing, Progress, LoopProgress, Bounded;
    StepSignals(s, step);
    StepProgress(s, step);
  }

  lemma StepSignals(s: State, step: Step)
    requires ListenerAhead(s) && WakeUpComing(s) && Enabled(s, step)
    ensures ListenerAhead(Take(s, step)) && WakeUpComing(Take(s, step))
  {
  }

  lemma StepProgress(s: State, step: Step)
    requires ListenerAhead(s) && WakeUpComing(s) && Progress(s) && LoopProgress(s) && Bounded(s) && Enabled(s, step)
    ensures Progress(Take(s, step)) && LoopProgress(Take(s, step)) && Bounded(Take(s, step))
  {
    hide Covered, WriteAll, Batch, Records, StrikesSet;
    var s' := Take(s, step);
    CoveredStays(s, s');
    match step
    case StatusReports(earliest) =>
      forall h | s.lastIndexed < h < s'.indexer.i ensures Covered(s', h) {
        ReportCovers(s', earliest, h);
      }
    case IndexNext(block, _, _) => PassCovers(s', s'.passed[|s.passed|]);
    case _ =>
  }

  lemma ReportCovers(s: State, e: int, h: int)
    requires e in s.reported && h < e
    ensures Covered(s, h)
  {
  }

  lemma PassCovers(s: State, p: Pass)
    requires p in s.passed
    ensures Covered(s, p.height)
  {
    if p.records.Some? {
      assert Written(s, p.height);
    } else {
      assert FailedAt(s, p.height);
    }
  }

  lemma CoveredStays(s: State, s': State)
    requires s.passed <= s'.passed && s.reported <= s'.reported
    ensures forall h :: Covered(s, h) ==> Covered(s', h)
  {
    forall h | Covered(s, h) ensures Covered(s', h) {
      if p :| p in s.passed && p.height == h {
        assert p in s'.passed;
        PassCovers(s', p);
      } else {
        var e :| e in s.reported && h < e;
        assert e in s'.reported;
      }
    }
  }

  lemma {:induction false} RunInv(s: State, steps: seq<Step>, s': State)
    requires Inv(s) && Runs(s, steps, s')
    ensures Inv(s')
    decreases |steps|
  {
    if steps != [] {
      StepInv(s, steps[0]);
      RunInv(Take(s, steps[0]), steps[1..], s');
    }
  }

  // ----- the height and the starting point -----

  /** The highest of the stored height and the header the listener is busy with. */
  function Seen(s: State): int {
    match s.listener
    case Received(header) => Max(s.height, header)
    case Storing(header) => Max(s.height, header)
    case _ => s.height
  }

  /** `h` is the highest of `latest` and the headers received in the steps. */
  ghost predicate IsHighest(h: int, latest: int, steps: seq<Step>) {
    && h >= latest
    && (forall i :: 0 <= i < |steps| && steps[i].ReceiveHeader? ==> h >= steps[i].header)
    && (h == latest || exists i :: 0 <= i < |steps| && steps[i].ReceiveHeader? && h == steps[i].header)
  }

  lemma StepSeen(s: State, step: Step)
    requires ListenerAhead(s) && Enabled(s, step)
    ensures Seen(Take(s, step)) == if step.ReceiveHeader? then Max(Seen(s), step.header) else Seen(s)
    ensures Take(s, step).height >= s.height
  {
    hide Records, WriteAll, Batch, StrikesSet;
  }

  lemma {:induction false} RunSeen(s: State, steps: seq<Step>, s': State)
    requires Inv(s) && Runs(s, steps, s')
    ensures IsHighest(Seen(s'), Seen(s), steps) && s'.height >= s.height
    decreases |steps|
  {
    hide Take, Enabled, Inv, Seen;
    if steps != [] {
      InvAhead(s);
      StepInv(s, steps[0]);
      StepSeen(s, steps[0]);
      RunSeen(Take(s, steps[0]), steps[1..], s');
      HighestMore(Seen(s'), Seen(s), steps, Seen(Take(s, steps[0])));
    }
  }

  lemma InvAhead(s: State)
    requires Inv(s)
    ensures ListenerAhead(s)
  {
  }

  lemma HighestMore(h: int, latest: int, steps: seq<Step>, next: int)
    requires steps != [] && IsHighest(h, next, steps[1..])
    requires next == if steps[0].ReceiveHeader? then Max(latest, steps[0].header) else latest
    ensures IsHighest(h, latest, steps)
  {
    forall i | 0 <= i < |steps| && steps[i].ReceiveHeader? ensures h >= steps[i].header {
      if i > 0 {
        assert steps[1..][i - 1] == steps[i];
      }
    }
    if h != next {
      var i :| 0 <= i < |steps[1..]| && steps[1..][i].ReceiveHeader? && h == steps[1..][i].header;
      assert steps[i + 1] == steps[1..][i];
    } else if h != latest {
      assert h == steps[0].header;
    }
  }

  /**
   Over every run, whenever the listener listens the height is the highest of the latest height at the start and
   all headers received; in between, the only thing missing is the header it is busy with.
   */
  lemma HeightFollowsHeaders(s: State, latest: int, stored: int, steps: seq<Step>, s': State)
    requires Init(s, latest, stored) && Runs(s, steps, s')
    ensures s'.listener.Listening? || s'.listener.Notifying? ==> IsHighest(s'.height, latest, steps)
    ensures s'.listener.Received? || s'.listener.Storing? ==> IsHighest(Max(s'.height, s'.listener.header), latest, steps)
    ensures s'.height >= latest
  {
    hide Runs, Inv, IsHighest;
    InitInv(s, latest, stored);
    RunSeen(s, steps, s');
  }

  lemma {:induction false} StartFixed(s: State, steps: seq<Step>, s': State)
    requires Runs(s, steps, s') && !s.indexer.Starting?
    ensures s'.start == s.start && !s'.indexer.Starting?
    decreases |steps|
  {
    hide Records, WriteAll, Batch, StrikesSet;
    if steps != [] {
      StartFixed(Take(s, steps[0]), steps[1..], s');
    }
  }

  /** An indexer that has left the start loaded its starting point, the height at that moment, in one of the steps. */
  lemma {:induction false} StartLoaded(s: State, steps: seq<Step>, s': State) returns (k: nat, mid: State)
    requires Runs(s, steps, s') && s.indexer.Starting? && !s'.indexer.Starting?
    ensures k < |steps| && steps[k].LoadStart? && Runs(s, steps[..k], mid) && Runs(mid, steps[k..], s')
    ensures s'.start == mid.height
    decreases |steps|
  {
    hide Records, WriteAll, Batch, StrikesSet;
    if steps[0].LoadStart? {
      k, mid := 0, s;
      assert steps[..0] == [] && steps[0..] == steps;
      StartFixed(Take(s, steps[0]), steps[1..], s');
    } else {
      k, mid := StartLoaded(Take(s, steps[0]), steps[1..], s');
      k := k + 1;
      assert steps[..k][1..] == steps[1..][..k - 1] && steps[..k][0] == steps[0];
      assert steps[k..] == steps[1..][k - 1..];
    }
  }

  lemma {:induction false} NotStarted(s: State, steps: seq<Step>, s': State)
    requires Runs(s, steps, s') && s.indexer.Starting? && s'.indexer.Starting?
    ensures s'.start == s.start && s'.lastIndexed == s.lastIndexed && s'.passed == s.passed
    decreases |steps|
  {
    hide Records, WriteAll, Batch, StrikesSet;
    if steps != [] {
      if steps[0].LoadStart? {
        StartFixed(Take(s, steps[0]), steps[1..], s');
      } else {
        NotStarted(Take(s, steps[0]), steps[1..], s');
      }
    }
  }

  /** Where the run starts: the stored height, and for an empty store the height loaded in one of its steps. */
  lemma StartOfRun(s: State, latest: int, stored: int, steps: seq<Step>, s': State)
    requires Init(s, latest, stored) && Runs(s, steps, s')
    ensures stored != -1 ==> s'.start == stored
    ensures stored == -1 && s'.indexer.Starting? ==> s'.start == -1 && s'.lastIndexed == -1 && s'.passed == []
    ensures stored == -1 && !s'.indexer.Starting? ==> latest <= s'.start <= s'.height
    ensures stored == -1 && !s'.indexer.Starting? ==> exists k :: 0 <= k < |steps| && LoadedAt(s, steps, k, s'.start)
  {
    hide Runs, Inv;
    if stored != -1 {
      StartFixed(s, steps, s');
    } else if s'.indexer.Starting? {
      NotStarted(s, steps, s');
    } else {
      var k, mid := StartLoaded(s, steps, s');
      InitInv(s, latest, stored);
      RunSeen(s, steps[..k], mid);
      RunInv(s, steps[..k], mid);
      RunSeen(mid, steps[k..], s');
      assert LoadedAt(s, steps, k, s'.start);
    }
  }

  /** Step `k` loads the starting point, and the height is `start` before it. */
  ghost predicate LoadedAt(s: State, steps: seq<Step>, k: nat, start: int)
    requires k < |steps|
  {
    steps[k].LoadStart? && exists mid :: Runs(s, steps[..k], mid) && mid.height == start
  }

  // ----- what every run guarantees -----

  /** No lost wake-up, in any interleaving. */
  lemma NoLostWakeUp(s: State, latest: int, stored: int, steps: seq<Step>, s': State)
    requires Init(s, latest, stored) && Runs(s, steps, s')
    ensures s'.indexer.Waiting? && s'.height > s'.indexer.chainHeight ==> s'.signal || s'.listener.Notifying?
  {
    InitInv(s, latest, stored);
    RunInv(s, steps, s');
  }

  /**
   With any pattern of failures: the heights given to IndexBlock increase strictly, and every height
   from the starting point to lastIndexedHeight was written, or IndexBlock failed on it, or it lay below a
   reported earliest height.
   */
  lemma NoHeightSkipped(s: State, latest: int, stored: int, steps: seq<Step>, s': State)
    requires Init(s, latest, stored) && Runs(s, steps, s')
    ensures Increasing(s'.passed)
    ensures stored != -1 ==> s'.start == stored
    ensures stored == -1 && !s'.indexer.Starting? ==> latest <= s'.start <= s'.height
    ensures forall h :: s'.start < h <= s'.lastIndexed ==> Covered(s', h)
    ensures forall p :: p in s'.passed ==> s'.start < p.height <= s'.lastIndexed
    ensures s'.lastIndexed <= Max(s'.start, s'.height)
  {
    hide Runs, Init;
    InitInv(s, latest, stored);
    RunInv(s, steps, s');
    StartOfRun(s, latest, stored, steps, s');
  }

  // ----- what a run leaves in the store -----

  /** The blocks a run has written, in order. */
  function HistoryOf(passed: seq<Pass>): seq<BlockRecords> {
    if passed == [] then []
    else
      var before, p := HistoryOf(passed[..|passed| - 1]), passed[|passed| - 1];
      if p.records == None then before else before + [BlockRecords(p.height, p.records.value)]
  }

  /** The records of a pass are numbered as IndexBlock numbers them. */
  ghost predicate Genuine(passed: seq<Pass>) {
    forall p :: p in passed && p.records.Some? ==> Numbered(p.records.value, p.height)
  }

  /** The store is what it was, with the written blocks in order. */
  ghost predicate StoreKept(db: Store, s: State) {
    s.db == StoreAfter(db, HistoryOf(s.passed)) && Genuine(s.passed)
  }

  lemma StepStore(db: Store, s: State, step: Step)
    requires StoreKept(db, s) && Enabled(s, step)
    ensures StoreKept(db, Take(s, step))
  {
    hide WriteAll, Batch, Records, Numbered, StrikesSet, StoreAfter, HistoryOf, Genuine;
    if step.IndexNext? {
      var p := Take(s, step).passed[|s.passed|];
      RecordsNumbered(step.block, step.results);
      PassedOne(s.passed, p);
      if p.records.Some? {
        StoreAfterOne(db, HistoryOf(s.passed), BlockRecords(p.height, p.records.value));
      }
    }
  }

  lemma PassedOne(passed: seq<Pass>, p: Pass)
    requires Genuine(passed) && (p.records.Some? ==> Numbered(p.records.value, p.height))
    ensures Genuine(passed + [p])
    ensures HistoryOf(passed + [p])
         == if p.records == None then HistoryOf(passed) else HistoryOf(passed) + [BlockRecords(p.height, p.records.value)]
  {
    hide Numbered;
    assert (passed + [p])[..|passed|] == passed;
  }

  lemma StoreAfterOne(db: Store, history: seq<BlockRecords>, b: BlockRecords)
    ensures StoreAfter(db, history + [b]) == WriteAll(StoreAfter(db, history), Batch(b.saved))
  {
    assert (history + [b])[..|history|] == history;
  }

  lemma {:induction false} RunStore(db: Store, s: State, steps: seq<Step>, s': State)
    requires StoreKept(db, s) && Runs(s, steps, s')
    ensures StoreKept(db, s')
    decreases |steps|
  {
    hide StoreKept, Take, Enabled;
    if steps != [] {
      StepStore(db, s, steps[0]);
      RunStore(db, Take(s, steps[0]), steps[1..], s');
    }
  }

  /** The written blocks are the passes with records. */
  lemma {:induction false} HistoryMembers(passed: seq<Pass>)
    ensures forall b :: b in HistoryOf(passed) ==> Pass(b.height, Some(b.saved)) in passed
    ensures forall p :: p in passed && p.records.Some? ==> BlockRecords(p.height, p.records.value) in HistoryOf(passed)
  {
    if passed != [] {
      HistoryMembers(passed[..|passed| - 1]);
      assert passed == passed[..|passed| - 1] + [passed[|passed| - 1]];
    }
  }

  /** They stand in increasing order of height. */
  lemma {:induction false} HistoryOrder(passed: seq<Pass>)
    requires Increasing(passed)
    ensures forall i, j :: 0 <= i < j < |HistoryOf(passed)| ==> HistoryOf(passed)[i].height < HistoryOf(passed)[j].height
  {
    if passed != [] {
      var before, p := passed[..|passed| - 1], passed[|passed| - 1];
      HistoryOrder(before);
      HistoryMembers(before);
      var history := HistoryOf(before);
      forall i | 0 <= i < |history| ensures history[i].height < p.height {
        assert Pass(history[i].height, Some(history[i].saved)) in before;
      }
    }
  }

  /** No block has more than 2^31 records. */
  ghost predicate SmallBlocks(passed: seq<Pass>) {
    forall p :: p in passed && p.records.Some? ==> |p.records.value| <= TWO_31
  }

  lemma RunHistory(s: State, latest: int, stored: int, steps: seq<Step>, s': State)
    requires Init(s, latest, stored) && Runs(s, steps, s') && SmallBlocks(s'.passed)
    ensures s'.db == StoreAfter(s.db, HistoryOf(s'.passed))
    ensures Plausible(HistoryOf(s'.passed)) && DistinctHeights(HistoryOf(s'.passed))
  {
    hide Runs, Numbered;
    assert StoreKept(s.db, s);
    RunStore(s.db, s, steps, s');
    NoHeightSkipped(s, latest, stored, steps, s');
    HistoryMembers(s'.passed);
    HistoryOrder(s'.passed);
  }

  /** A pass over height `n` wrote a record. */
  ghost predicate Wrote(s: State, n: int64) {
    exists p :: p in s.passed && p.height == n && p.records.Some? && p.records.value != []
  }

  lemma WroteIsIndexed(s: State, n: int64)
    ensures Wrote(s, n) <==> WasIndexed(HistoryOf(s.passed), n)
  {
    hide HistoryOf;
    HistoryMembers(s.passed);
    if WasIndexed(HistoryOf(s.passed), n) {
      var b :| b in HistoryOf(s.passed) && b.height == n && b.saved != [];
      assert Pass(b.height, Some(b.saved)) in s.passed;
    }
    if Wrote(s, n) {
      var p :| p in s.passed && p.height == n && p.records.Some? && p.records.value != [];
      assert BlockRecords(p.height, p.records.value) in HistoryOf(s.passed);
    }
  }

  lemma WrittenOrFailed(s: State, h: int)
    requires Increasing(s.passed)
    ensures !(Written(s, h) && FailedAt(s, h))
  {
  }

  /**
   After any run the index has an entry for a height exactly if it had one before or a pass over that height
   wrote a record.  So of the heights up to lastIndexedHeight, those without new entries are the ones that
   IndexBlock failed on, that have no eth tx, or that lay below a reported earliest height and were not passed.
   */
  lemma StoredHeights(s: State, latest: int, stored: int, steps: seq<Step>, s': State, n: int64)
    requires Init(s, latest, stored) && Runs(s, steps, s') && SmallBlocks(s'.passed)
    ensures HasEntry(s'.db, n) <==> HasEntry(s.db, n) || Wrote(s', n)
    ensures s'.start < n <= s'.lastIndexed && !Written(s', n) ==> FailedAt(s', n) || BelowReported(s', n)
    ensures !(Written(s', n) && FailedAt(s', n))
  {
    hide Init, Runs, HasEntry, StoreAfter, HistoryOf, Plausible, Covered, Written, FailedAt, BelowReported, Wrote;
    hide Increasing, WasIndexed, DistinctHeights;
    RunHistory(s, latest, stored, steps, s');
    HistoryEntries(s.db, HistoryOf(s'.passed));
    NoHeightSkipped(s, latest, stored, steps, s');
    WroteIsIndexed(s', n);
    WrittenOrFailed(s', n);
    if s'.start < n <= s'.lastIndexed {
      CoveredMeans(s', n);
    }
  }

  lemma CoveredMeans(s: State, h: int)
    requires Covered(s, h)
    ensures Written(s, h) || FailedAt(s, h) || BelowReported(s, h)
  {
  }

  /** Every record of a pass that did not fail is found after the run, unless a later one has its hash. */
  lemma WrittenHeightsFound(s: State, latest: int, stored: int, steps: seq<Step>, s': State, p: Pass, k: nat)
    requires Init(s, latest, stored) && Runs(s, steps, s') && SmallBlocks(s'.passed)
    requires p in s'.passed && p.records.Some? && k < |p.records.value|
    ensures var all := AllSaved(HistoryOf(s'.passed));
            && LastOf(all, p.records.value[k].hash).Some?
            && var r := all[LastOf(all, p.records.value[k].hash).value].result;
               GetByBlockAndIndex(s'.db, p.height, k) == if r == ZERO then NotFound else Found(r)
  {
    hide Runs, StoreAfter, Plausible, GetByBlockAndIndex, AllSaved;
    RunHistory(s, latest, stored, steps, s');
    NoHeightSkipped(s, latest, stored, steps, s');
    HistoryMembers(s'.passed);
    var history := HistoryOf(s'.passed);
    var m :| 0 <= m < |history| && history[m] == BlockRecords(p.height, p.records.value);
    LookupInHistory(s.db, history, m, k);
  }

  lemma {:induction false} PassedGrows(s: State, steps: seq<Step>, s': State)
    requires Runs(s, steps, s')
    ensures s.passed <= s'.passed
    decreases |steps|
  {
    hide Records, WriteAll, Batch, StrikesSet;
    if steps != [] {
      PassedGrows(Take(s, steps[0]), steps[1..], s');
    }
  }

  /** A height that IndexBlock failed on is not tried again, however long the run goes on. */
  lemma FailedForGood(s: State, latest: int, stored: int, steps: seq<Step>, s': State, more: seq<Step>, s'': State, h: int)
    requires Init(s, latest, stored) && Runs(s, steps, s') && Runs(s', more, s'') && FailedAt(s', h)
    ensures FailedAt(s'', h) && !Written(s'', h)
  {
    hide Runs;
    RunsTogether(s, steps, s', more, s'');
    NoHeightSkipped(s, latest, stored, steps + more, s'');
    PassedGrows(s', more, s'');
    var p :| p in s'.passed && p.height == h && p.records == None;
    assert p in s''.passed;
  }

  // ----- a quiet node is caught up with -----

  /** The node has every height from `i` to `c`, with results IndexBlock does not panic on. */
  ghost predicate Available(chain: map<int64, CatchUp.Stored>, i: int, c: int) {
    forall h: int :: i <= h <= c ==> h in chain && AvailableBlock(chain[h], h)
  }

  predicate AvailableBlock(b: CatchUp.Stored, h: int) {
    b.block.height == h && b.results.Some? && Records(b.block, b.results.value).Some?
  }

  /** The steps that index the heights from `i` to `c`. */
  ghost function IndexSteps(chain: map<int64, CatchUp.Stored>, i: int, c: int): seq<Step>
    requires Available(chain, i, c)
    decreases c - i
  {
    if i > c then []
    else
      var b := chain[c];
      IndexSteps(chain, i, c - 1) + [IndexNext(b.block, b.results.value, NoFault)]
  }

  ghost function PassesOf(chain: map<int64, CatchUp.Stored>, i: int, c: int): seq<Pass>
    requires Available(chain, i, c)
    decreases c - i
  {
    if i > c then [] else PassesOf(chain, i, c - 1) + [Pass(chain[c].block.height, Some(CatchUp.RecordsAt(chain, c)))]
  }

  lemma {:induction false} RunsTogether(s: State, steps: seq<Step>, s': State, more: seq<Step>, s'': State)
    requires Runs(s, steps, s') && Runs(s', more, s'')
    ensures Runs(s, steps + more, s'')
    decreases |steps|
  {
    hide Take, Enabled;
    if steps == [] {
      assert steps + more == more;
    } else {
      assert (steps + more)[1..] == steps[1..] + more;
      RunsTogether(Take(s, steps[0]), steps[1..], s', more, s'');
    }
  }

  lemma RunsOne(s: State, step: Step)
    requires Enabled(s, step)
    ensures Runs(s, [step], Take(s, step))
  {
    assert Runs(Take(s, step), [step][1..], Take(s, step));
  }

  /** The state inside the inner loop once the heights up to `h` are indexed. */
  ghost function Indexed(s: State, chain: map<int64, CatchUp.Stored>, i: int, h: int): State
    requires s.indexer.Indexing? && i <= h + 1 && Available(chain, i, h)
  {
    s.(indexer := Indexing(s.indexer.chainHeight, h + 1),
       lastIndexed := if i > h then s.lastIndexed else h,
       passed := s.passed + PassesOf(chain, i, h),
       db := WriteAll(s.db, CatchUp.Writes(chain, i, h)))
  }

  lemma IndexOne(s: State, chain: map<int64, CatchUp.Stored>, i: int, h: int)
    requires s.indexer.Indexing? && i <= h <= s.indexer.chainHeight && Available(chain, i, h)
    ensures var s1, step := Indexed(s, chain, i, h - 1), IndexNext(chain[h].block, chain[h].results.value, NoFault);
            Enabled(s1, step) && Take(s1, step) == Indexed(s, chain, i, h)
  {
    hide Records, WriteAll, Batch;
    var first, b := CatchUp.RecordsBetween(chain, i, h - 1), CatchUp.RecordsAt(chain, h);
    BatchOfBoth(first, b);
    WriteBoth(s.db, Batch(first), Batch(b));
  }

  lemma {:induction false} InnerLoop(s: State, chain: map<int64, CatchUp.Stored>, i: int, h: int)
    requires s.indexer.Indexing? && s.indexer.i == i && i - 1 <= h <= s.indexer.chainHeight && Available(chain, i, h)
    ensures Runs(s, IndexSteps(chain, i, h), Indexed(s, chain, i, h))
    decreases h - i
  {
    hide Records, WriteAll, Batch, Take, Enabled;
    if i > h {
      EmptyBatch(s.db);
      assert s.passed + [] == s.passed;
    } else {
      InnerLoop(s, chain, i, h - 1);
      IndexOne(s, chain, i, h);
      var step := IndexNext(chain[h].block, chain[h].results.value, NoFault);
      RunsOne(Indexed(s, chain, i, h - 1), step);
      RunsTogether(s, IndexSteps(chain, i, h - 1), Indexed(s, chain, i, h - 1), [step], Indexed(s, chain, i, h));
    }
  }

  /** The steps of one round of the outer loop in which nothing fails. */
  ghost function QuietRound(s: State, earliest: int, chain: map<int64, CatchUp.Stored>): seq<Step>
    requires Available(chain, Max(s.lastIndexed + 1, earliest), s.height)
  {
    [LoadHeight, CompareHeight, StatusReports(earliest)]
    + (IndexSteps(chain, Max(s.lastIndexed + 1, earliest), s.height) + [LeaveLoop])
  }

  /**
   From the top of the loop, one round without failures indexes exactly the missing heights the node has,
   and leaves in the store what the catch-up command leaves for these heights.
   */
  lemma QuietRoundCatchesUp(s: State, earliest: int, chain: map<int64, CatchUp.Stored>)
    requires s.indexer.AtHead? && s.height > s.lastIndexed && s.height >= earliest
    requires Available(chain, Max(s.lastIndexed + 1, earliest), s.height)
    ensures var first := Max(s.lastIndexed + 1, earliest);
            Runs(s, QuietRound(s, earliest, chain),
                 s.(lastIndexed := s.height, reported := s.reported + {earliest},
                    passed := s.passed + PassesOf(chain, first, s.height),
                    db := WriteAll(s.db, CatchUp.Writes(chain, first, s.height))))
  {
    hide Runs, WriteAll, PassesOf, IndexSteps, CatchUp.Writes, Available;
    var i := Max(s.lastIndexed + 1, earliest);
    var s3 := s.(indexer := Indexing(s.height, i), reported := s.reported + {earliest});
    var s4 := Indexed(s3, chain, i, s.height);
    EnterLoop(s, earliest);
    InnerLoop(s3, chain, i, s.height);
    RunsOne(s4, LeaveLoop);
    RunsTogether(s3, IndexSteps(chain, i, s.height), s4, [LeaveLoop], Take(s4, LeaveLoop));
    RunsTogether(s, [LoadHeight, CompareHeight, StatusReports(earliest)], s3,
                 IndexSteps(chain, i, s.height) + [LeaveLoop], Take(s4, LeaveLoop));
  }

  // ----- from every state the service can catch up -----

  /** From every state of the indexer, steps of its own lead to the top of the loop, with nothing else changed. */
  lemma ReachesHead(s: State) returns (steps: seq<Step>, s': State)
    ensures Runs(s, steps, s') && s'.indexer.AtHead?
    ensures s'.height == s.height && s'.listener == s.listener && s'.signal == s.signal
    ensures s'.passed == s.passed && s'.db == s.db && s'.reported == s.reported
    ensures s'.lastIndexed == if s.indexer.Starting? then s.height else s.lastIndexed
    ensures forall i :: 0 <= i < |steps| ==> !steps[i].ReceiveHeader? && !steps[i].IndexNext?
  {
    hide Records, WriteAll, Batch, StrikesSet, Runs;
    match s.indexer
    case AtHead =>
      steps, s' := [], s;
      RunsNothing(s);
    case Starting => steps, s' := TakeOne(s, LoadStart);
    case Waiting(_) => steps, s' := TakeOne(s, TimeOut);
    case FetchingStatus(_) => steps, s' := TakeOne(s, StatusFails);
    case Indexing(c, i) => steps, s' := TakeOne(s, if i <= c then FetchFails else LeaveLoop);
    case Comparing(_) =>
      var first, mid := TakeOne(s, CompareHeight);
      var more, end := TakeOne(mid, if mid.indexer.Waiting? then TimeOut else StatusFails);
      RunsTogether(s, first, mid, more, end);
      steps, s' := first + more, end;
  }

  lemma RunsNothing(s: State)
    ensures Runs(s, [], s)
  {
  }

  lemma TakeOne(s: State, step: Step) returns (steps: seq<Step>, s': State)
    requires Enabled(s, step)
    ensures steps == [step] && s' == Take(s, step) && Runs(s, steps, s')
  {
    RunsOne(s, step);
    steps, s' := [step], Take(s, step);
  }

  /**
   Whatever the service has been through, if the node now has the heights from the one after lastIndexedHeight, or
   from its earliest one, to the stored height, there is a way to go on after which all of them are indexed.
   */
  lemma AlwaysCatchesUp(s: State, earliest: int, chain: map<int64, CatchUp.Stored>) returns (steps: seq<Step>, s': State)
    requires !s.indexer.Starting? && s.height > s.lastIndexed && s.height >= earliest
    requires Available(chain, Max(s.lastIndexed + 1, earliest), s.height)
    ensures Runs(s, steps, s') && s'.lastIndexed == s.height == s'.height
    ensures s'.passed == s.passed + PassesOf(chain, Max(s.lastIndexed + 1, earliest), s.height)
    ensures forall i :: 0 <= i < |steps| ==> !steps[i].ReceiveHeader?
  {
    hide Runs, Available, WriteAll, PassesOf, CatchUp.Writes, IndexSteps;
    var first, mid := ReachesHead(s);
    QuietRoundCatchesUp(mid, earliest, chain);
    var round := QuietRound(mid, earliest, chain);
    var i := Max(mid.lastIndexed + 1, earliest);
    s' := mid.(lastIndexed := mid.height, reported := mid.reported + {earliest},
               passed := mid.passed + PassesOf(chain, i, mid.height),
               db := WriteAll(mid.db, CatchUp.Writes(chain, i, mid.height)));
    RunsTogether(s, first, mid, round, s');
    steps := first + round;
    NoHeaders(chain, i, mid.height);
  }

  lemma {:induction false} NoHeaders(chain: map<int64, CatchUp.Stored>, i: int, c: int)
    requires Available(chain, i, c)
    ensures forall k :: 0 <= k < |IndexSteps(chain, i, c)| ==> !IndexSteps(chain, i, c)[k].ReceiveHeader?
    decreases c - i
  {
    if i <= c {
      NoHeaders(chain, i, c - 1);
    }
  }

  lemma EnterLoop(s: State, earliest: int)
    requires s.indexer.AtHead? && s.height > s.lastIndexed
    ensures Runs(s, [LoadHeight, CompareHeight, StatusReports(earliest)],
                 s.(indexer := Indexing(s.height, Max(s.lastIndexed + 1, earliest)), reported := s.reported + {earliest}))
  {
    var steps := [LoadHeight, CompareHeight, StatusReports(earliest)];
    assert steps[1..] == [CompareHeight, StatusReports(earliest)];
    assert steps[1..][1..] == [StatusReports(earliest)];
    var s1 := Take(s, LoadHeight);
    var s2 := Take(s1, CompareHeight);
    var s3 := Take(s2, StatusReports(earliest));
    assert Runs(s3, [], s3);
    assert Runs(s2, [StatusReports(earliest)], s3);
    assert Runs(s1, steps[1..], s3);
  }
}
