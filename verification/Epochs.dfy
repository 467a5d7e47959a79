/**
 The epoch clock (x/epochs/abci.go): what BeginBlocker does to every epoch in each block, and the
 hooks it calls over whole runs.  Times and durations are in nanoseconds.
 */
module Epochs {

  datatype EpochInfo = EpochInfo(
    identifier: string,
    startTime: int,
    duration: int,
    currentEpoch: nat,
    currentEpochStartHeight: int,
    currentEpochStartTime: int,
    countingStarted: bool)

  datatype Block = Block(time: int, height: int)

  datatype Hook = AfterEpochEnd(id: string, epoch: nat) | BeforeEpochStart(id: string, epoch: nat)

  /** shouldEpochStart */
  predicate ShouldEpochStart(e: EpochInfo, block: Block) {
    !e.countingStarted || block.time >= e.currentEpochStartTime + e.duration
  }

  predicate Ticks(e: EpochInfo, block: Block) {
    block.time >= e.startTime && ShouldEpochStart(e, block)
  }

  /** The epoch after a block. */
  function Tick(e: EpochInfo, block: Block): EpochInfo {
    if !Ticks(e, block) then e
    else e.(currentEpochStartHeight := block.height,
            currentEpochStartTime := block.time,
            countingStarted := true,
            currentEpoch := if e.countingStarted then e.currentEpoch + 1 else 1)
  }

  /** The hooks called for an epoch in a block. */
  function HooksOf(e: EpochInfo, block: Block): seq<Hook> {
    if !Ticks(e, block) then []
    else if !e.countingStarted then [BeforeEpochStart(e.identifier, 1)]
    else [AfterEpochEnd(e.identifier, e.currentEpoch), BeforeEpochStart(e.identifier, e.currentEpoch + 1)]
  }

  // ----- one block, all epochs -----

  /** The calls that concern one identifier. */
  function CallsFor(hooks: seq<Hook>, id: string): seq<Hook> {
    if hooks == [] then []
    else
      var before, h := CallsFor(hooks[..|hooks| - 1], id), hooks[|hooks| - 1];
      if h.id == id then before + [h] else before
  }

  lemma {:induction false} CallsForBoth(a: seq<Hook>, b: seq<Hook>, id: string)
    ensures CallsFor(a + b, id) == CallsFor(a, id) + CallsFor(b, id)
  {
    if b == [] {
      assert a + b == a;
    } else {
      assert (a + b)[..|a + b| - 1] == a + b[..|b| - 1];
      CallsForBoth(a, b[..|b| - 1], id);
    }
  }

  lemma CallsOfTick(e: EpochInfo, block: Block, id: string)
    ensures CallsFor(HooksOf(e, block), id) == if id == e.identifier then HooksOf(e, block) else []
  {
    var hooks := HooksOf(e, block);
    if |hooks| == 1 {
      assert hooks[..0] == [];
    } else if |hooks| == 2 {
      assert hooks[..1][..0] == [];
      assert CallsFor(hooks[..1], id) == if id == e.identifier then [hooks[0]] else [];
    }
  }

  class Keeper {
    var epochs: map<string, EpochInfo>
    var calls: seq<Hook>

    /** Every epoch is stored under its own identifier. */
    ghost predicate Valid()
      reads this
    {
      forall id :: id in epochs ==> epochs[id].identifier == id
    }

    constructor (epochs: map<string, EpochInfo>)
      requires forall id :: id in epochs ==> epochs[id].identifier == id
      ensures Valid() && this.epochs == epochs && calls == []
    {
      this.epochs := epochs;
      this.calls := [];
    }

    /** BeginBlocker: every epoch ticks once, whatever order they are visited in, and calls its own hooks. */
    method BeginBlocker(block: Block)
      requires Valid()
      modifies this
      ensures Valid() && epochs.Keys == old(epochs).Keys
      ensures forall id :: id in epochs ==> epochs[id] == Tick(old(epochs)[id], block)
      ensures forall id :: id in epochs ==> CallsFor(calls, id) == CallsFor(old(calls), id) + HooksOf(old(epochs)[id], block)
      ensures forall id :: id !in epochs ==> CallsFor(calls, id) == CallsFor(old(calls), id)
    {
      hide Tick, HooksOf, CallsFor;
      ghost var infos, before := epochs, calls;
      var todo := epochs.Keys;
      while todo != {}
        invariant Valid() && epochs.Keys == infos.Keys && todo <= infos.Keys
        invariant forall id :: id in todo ==> epochs[id] == infos[id]
        invariant forall id :: id in infos && id !in todo ==> epochs[id] == Tick(infos[id], block)
        invariant forall id :: CallsFor(calls, id)
                            == CallsFor(before, id) + if id in infos && id !in todo then HooksOf(infos[id], block) else []
        decreases |todo|
      {
        var id :| id in todo;
        var e := epochs[id];
        ghost var soFar := calls;
        TickOnce(id, block);
        forall other ensures CallsFor(calls, other) == CallsFor(soFar, other) + if other == id then HooksOf(e, block) else [] {
          CallsForBoth(soFar, HooksOf(e, block), other);
          CallsOfTick(e, block, other);
        }
        todo := todo - {id};
      }
    }

    /** The callback for one epoch. */
    method TickOnce(id: string, block: Block)
      requires Valid() && id in epochs
      modifies this
      ensures Valid() && epochs == old(epochs)[id := Tick(old(epochs)[id], block)]
      ensures calls == old(calls) + HooksOf(old(epochs)[id], block)
    {
      var e := epochs[id];
      if block.time < e.startTime { return; }
      if !ShouldEpochStart(e, block) { return; }
      e := e.(currentEpochStartHeight := block.height, currentEpochStartTime := block.time);
      if !e.countingStarted {
        e := e.(countingStarted := true, currentEpoch := 1);
      } else {
        calls := calls + [AfterEpochEnd(e.identifier, e.currentEpoch)];
        e := e.(currentEpoch := e.currentEpoch + 1);
      }
      epochs := epochs[e.identifier := e];
      calls := calls + [BeforeEpochStart(e.identifier, e.currentEpoch)];
    }
  }

  // ----- whole runs of one epoch -----

  function Run(e: EpochInfo, blocks: seq<Block>): EpochInfo {
    if blocks == [] then e else Tick(Run(e, blocks[..|blocks| - 1]), blocks[|blocks| - 1])
  }

  function Calls(e: EpochInfo, blocks: seq<Block>): seq<Hook> {
    if blocks == [] then []
    else Calls(e, blocks[..|blocks| - 1]) + HooksOf(Run(e, blocks[..|blocks| - 1]), blocks[|blocks| - 1])
  }

  /** The chain calling BeginBlocker block after block: each epoch runs on its own. */
  method ProcessBlocks(keeper: Keeper, blocks: seq<Block>)
    requires keeper.Valid()
    modifies keeper
    ensures keeper.Valid() && keeper.epochs.Keys == old(keeper.epochs).Keys
    ensures forall id :: id in keeper.epochs ==>
              && keeper.epochs[id] == Run(old(keeper.epochs)[id], blocks)
              && CallsFor(keeper.calls, id) == CallsFor(old(keeper.calls), id) + Calls(old(keeper.epochs)[id], blocks)
  {
    hide Tick, HooksOf, CallsFor;
    for i := 0 to |blocks|
      invariant keeper.Valid() && keeper.epochs.Keys == old(keeper.epochs).Keys
      invariant forall id :: id in keeper.epochs ==> keeper.epochs[id] == Run(old(keeper.epochs)[id], blocks[..i])
      invariant forall id :: id in keeper.epochs ==>
                  CallsFor(keeper.calls, id) == CallsFor(old(keeper.calls), id) + Calls(old(keeper.epochs)[id], blocks[..i])
    {
      assert blocks[..i + 1][..i] == blocks[..i];
      keeper.BeginBlocker(blocks[i]);
    }
    assert blocks[..|blocks|] == blocks;
  }

  /** End(from), Start(from + 1), End(from + 1), ..., Start(to) */
  function Alternation(id: string, from: nat, to: nat): seq<Hook>
    decreases to - from
  {
    if from >= to then [] else Alternation(id, from, to - 1) + [AfterEpochEnd(id, to - 1), BeforeEpochStart(id, to)]
  }

  predicate InOrder(blocks: seq<Block>) {
    forall i, j :: 0 <= i < j < |blocks| ==> blocks[i].time <= blocks[j].time
  }

  /** Over any blocks, at any times: the calls alternate, epoch by epoch, from the current one. */
  lemma {:induction false} RunAlternates(e: EpochInfo, blocks: seq<Block>)
    requires e.countingStarted
    ensures var e' := Run(e, blocks);
            && e'.countingStarted && e'.identifier == e.identifier && e'.currentEpoch >= e.currentEpoch
            && Calls(e, blocks) == Alternation(e.identifier, e.currentEpoch, e'.currentEpoch)
  {
    hide Ticks;
    if blocks != [] {
      RunAlternates(e, blocks[..|blocks| - 1]);
    }
  }

  /** An epoch that has not begun to count calls Start(1), End(1), Start(2), ..., up to Start of the current one. */
  lemma {:induction false} FreshRunAlternates(e: EpochInfo, blocks: seq<Block>)
    requires !e.countingStarted
    ensures var e' := Run(e, blocks);
            && e'.identifier == e.identifier && e'.startTime == e.startTime && e'.duration == e.duration
            && (e'.countingStarted ==> e'.currentEpoch >= 1)
            && Calls(e, blocks) == if e'.countingStarted
                                   then [BeforeEpochStart(e.identifier, 1)] + Alternation(e.identifier, 1, e'.currentEpoch)
                                   else []
  {
    hide Ticks;
    if blocks != [] {
      FreshRunAlternates(e, blocks[..|blocks| - 1]);
    }
  }

  /** A counting epoch records the time and height of the block in which it began. */
  lemma {:induction false} BeganInBlock(e: EpochInfo, blocks: seq<Block>) returns (i: nat)
    requires !e.countingStarted && Run(e, blocks).countingStarted
    ensures i < |blocks| && Ticks(Run(e, blocks[..i]), blocks[i]) && Run(e, blocks[..i + 1]) == Run(e, blocks)
    ensures Run(e, blocks).currentEpochStartTime == blocks[i].time
    ensures Run(e, blocks).currentEpochStartHeight == blocks[i].height
  {
    var last := |blocks| - 1;
    var before := blocks[..last];
    if Ticks(Run(e, before), blocks[last]) {
      i := last;
      assert blocks[..last + 1] == blocks;
    } else {
      i := BeganInBlock(e, before);
      assert before[..i] == blocks[..i];
      assert before[..i + 1] == blocks[..i + 1];
    }
  }

  lemma {:induction false} CountingGoesOn(e: EpochInfo, blocks: seq<Block>)
    ensures e.countingStarted ==> Run(e, blocks).countingStarted
  {
    hide Ticks;
    if blocks != [] {
      CountingGoesOn(e, blocks[..|blocks| - 1]);
    }
  }

  /**
   At most one epoch per block, wherever the clock stands: the number stays, or goes up by one, or becomes
   one in the only block of the run that starts the counting.
   */
  lemma AtMostOnePerBlock(e: EpochInfo, blocks: seq<Block>, block: Block, more: seq<Block>)
    ensures var before, after := Run(e, blocks), Run(e, blocks + [block]);
            && (before.countingStarted ==> 0 <= after.currentEpoch - before.currentEpoch <= 1)
            && (!before.countingStarted && after.countingStarted ==> after.currentEpoch == 1)
            && (!after.countingStarted ==> after == before && !e.countingStarted)
            && (after.countingStarted ==> Run(after, more).countingStarted)
  {
    CountingGoesOn(e, blocks);
    CountingGoesOn(Run(e, blocks + [block]), more);
    assert (blocks + [block])[..|blocks|] == blocks;
  }

  /** No epoch starts early: the n-th starts at least n-1 durations after the start time. */
  predicate NotEarly(e: EpochInfo) {
    e.countingStarted ==> e.currentEpochStartTime >= e.startTime + (e.currentEpoch - 1) * e.duration
  }

  lemma TickNotEarly(e: EpochInfo, block: Block)
    requires NotEarly(e)
    ensures NotEarly(Tick(e, block))
  {
    if Ticks(e, block) && e.countingStarted {
      assert e.currentEpoch * e.duration == (e.currentEpoch - 1) * e.duration + e.duration;
    }
  }

  lemma {:induction false} RunNotEarly(e: EpochInfo, blocks: seq<Block>)
    requires NotEarly(e)
    ensures NotEarly(Run(e, blocks))
  {
    hide NotEarly, Tick;
    if blocks != [] {
      RunNotEarly(e, blocks[..|blocks| - 1]);
      TickNotEarly(Run(e, blocks[..|blocks| - 1]), blocks[|blocks| - 1]);
    }
  }

  /** The clock has caught up with `time`: a started epoch is not over, one not started is not due. */
  predicate CaughtUp(e: EpochInfo, time: int) {
    if e.countingStarted then time < e.currentEpochStartTime + e.duration else time < e.startTime
  }

  /**
   After a block the clock has caught up with it exactly if it had before, or the start time is reached
   and the duration is positive.
   */
  lemma CaughtUpAfterTick(e: EpochInfo, block: Block)
    ensures CaughtUp(Tick(e, block), block.time) <==>
            CaughtUp(e, block.time) || (block.time >= e.startTime && e.duration > 0)
  {
  }

  predicate Reached(time: int, blocks: seq<Block>) {
    exists i :: 0 <= i < |blocks| && blocks[i].time >= time
  }

  lemma ReachedLast(time: int, blocks: seq<Block>)
    requires blocks != []
    ensures Reached(time, blocks) <==>
            Reached(time, blocks[..|blocks| - 1]) || blocks[|blocks| - 1].time >= time
  {
    var last := |blocks| - 1;
    if i :| 0 <= i < |blocks| && blocks[i].time >= time {
      if i < last {
        assert blocks[..last][i].time >= time;
      }
    }
    if i :| 0 <= i < last && blocks[..last][i].time >= time {
      assert blocks[i].time >= time;
    }
  }

  /** Before the start time is reached nothing happens; from then on the epoch counts and is not over before it. */
  lemma {:induction false} RunFromStartTime(e: EpochInfo, blocks: seq<Block>)
    requires e.duration > 0
    ensures Run(e, blocks).startTime == e.startTime && Run(e, blocks).duration == e.duration
    ensures !Reached(e.startTime, blocks) ==> Run(e, blocks) == e
    ensures Reached(e.startTime, blocks) ==>
              Run(e, blocks).countingStarted && e.startTime < Run(e, blocks).currentEpochStartTime + e.duration
  {
    if blocks != [] {
      RunFromStartTime(e, blocks[..|blocks| - 1]);
      ReachedLast(e.startTime, blocks);
    }
  }

  /**
   With a positive duration, whatever state the clock is in and whatever times the blocks have, a run leaves
   it caught up with the last block exactly if some block has reached the start time or the clock was already
   caught up with that time before the run.
   */
  lemma CaughtUpAfterRun(e: EpochInfo, blocks: seq<Block>)
    requires e.duration > 0 && blocks != []
    ensures var now := blocks[|blocks| - 1].time;
            CaughtUp(Run(e, blocks), now) <==> Reached(e.startTime, blocks) || CaughtUp(e, now)
  {
    hide Reached;
    RunFromStartTime(e, blocks[..|blocks| - 1]);
    ReachedLast(e.startTime, blocks);
  }

  /** An epoch that has not begun, or whose current epoch ends after the start time: never behind. */
  predicate Sound(e: EpochInfo) {
    e.countingStarted ==> e.startTime <= e.currentEpochStartTime + e.duration
  }

  /** Every run of such an epoch leaves it such and caught up, and in order of time it began no later than now. */
  lemma {:induction false} SoundAfterRun(e: EpochInfo, blocks: seq<Block>)
    requires e.duration > 0 && Sound(e) && blocks != []
    ensures var e', now := Run(e, blocks), blocks[|blocks| - 1].time;
            && CaughtUp(e', now) && Sound(e')
            && (InOrder(blocks) && e'.countingStarted && (e.countingStarted ==> e.currentEpochStartTime <= blocks[0].time) ==>
                  e'.currentEpochStartTime <= now)
  {
    var before := blocks[..|blocks| - 1];
    RunFromStartTime(e, before);
    if before == [] {
      assert Run(e, before) == e;
    } else {
      SoundAfterRun(e, before);
    }
  }

  /** A negative duration, which validation lets through, makes every block tick once the epoch counts. */
  lemma {:induction false} NegativeDurationAlwaysTicks(e: EpochInfo, blocks: seq<Block>)
    requires e.duration < 0 && !e.countingStarted && InOrder(blocks)
    requires blocks != [] && blocks[0].time >= e.startTime
    ensures Run(e, blocks).countingStarted && Run(e, blocks).currentEpoch == |blocks|
    ensures Run(e, blocks).currentEpochStartTime == blocks[|blocks| - 1].time
    ensures Run(e, blocks).startTime == e.startTime && Run(e, blocks).duration == e.duration
  {
    if |blocks| == 1 {
      assert Run(e, blocks[..0]) == e;
    } else {
      NegativeDurationAlwaysTicks(e, blocks[..|blocks| - 1]);
    }
  }
}
