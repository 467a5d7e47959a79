/**
 The nonce step of the EVM ante handler (app/evmante/evmante_increment_sender_seq.go): each message
 must carry its sender's sequence and raises it by one.
 */
module SenderSequence {
  import opened Bytes
  import opened Sequences

  type Address = string

  /** A message of a tx; `nonce` is None when its tx data cannot be unpacked. */
  datatype Msg = EthMsg(from: Address, nonce: Option<uint64>) | OtherMsg

  type SequenceMap = map<Address, uint64>

  /** What is left of the first `n` messages' effect, None once one is refused. */
  function Advance(seqs: SequenceMap, msgs: seq<Msg>, n: nat): Option<SequenceMap>
    requires n <= |msgs|
  {
    if n == 0 then Some(seqs)
    else
      match Advance(seqs, msgs, n - 1)
      case None => None
      case Some(before) => AdvanceOne(before, msgs[n - 1])
  }

  function AdvanceOne(seqs: SequenceMap, msg: Msg): Option<SequenceMap> {
    if msg.EthMsg? && msg.nonce.Some? && msg.from in seqs && msg.nonce.value == seqs[msg.from]
    then Some(seqs[msg.from := ToUint64(seqs[msg.from] as int + 1)])
    else None
  }

  class AccountKeeper {
    var sequences: SequenceMap

    constructor (sequences: SequenceMap)
      ensures this.sequences == sequences
    {
      this.sequences := sequences;
    }

    /** AnteHandle, up to the next decorator; a refused tx leaves the store part-way, for the caller to discard. */
    method AnteHandle(msgs: seq<Msg>) returns (ok: bool)
      modifies this
      ensures ok <==> Advance(old(sequences), msgs, |msgs|).Some?
      ensures ok ==> sequences == Advance(old(sequences), msgs, |msgs|).value
    {
      for i := 0 to |msgs|
        invariant Advance(old(sequences), msgs, i) == Some(sequences)
      {
        if !msgs[i].EthMsg? || msgs[i].nonce == None || msgs[i].from !in sequences
           || msgs[i].nonce.value != sequences[msgs[i].from]
        {
          Refused(old(sequences), msgs, i + 1, |msgs|);
          return false;
        }
        var nonce := sequences[msgs[i].from];
        sequences := sequences[msgs[i].from := ToUint64(nonce as int + 1)];
      }
      return true;
    }

    /** A tx as the application runs it: the changes stay only if this step and all that follow accept it. */
    method RunTx(msgs: seq<Msg>, restAccepts: bool) returns (accepted: bool)
      modifies this
      ensures accepted <==> restAccepts && Advance(old(sequences), msgs, |msgs|).Some?
      ensures sequences == if accepted then Advance(old(sequences), msgs, |msgs|).value else old(sequences)
    {
      var committed := sequences;
      accepted := AnteHandle(msgs);
      accepted := accepted && restAccepts;
      if !accepted { sequences := committed; }
    }
  }

  lemma {:induction false} Refused(seqs: SequenceMap, msgs: seq<Msg>, i: nat, n: nat)
    requires i <= n <= |msgs| && Advance(seqs, msgs, i) == None
    ensures Advance(seqs, msgs, n) == None
  {
    if i < n {
      Refused(seqs, msgs, i, n - 1);
    }
  }

  // ----- what one tx does -----

  /** The messages of `sender` among the first `n`. */
  function CountOf(msgs: seq<Msg>, sender: Address, n: nat): nat
    requires n <= |msgs|
  {
    if n == 0 then 0
    else CountOf(msgs, sender, n - 1) + if msgs[n - 1].EthMsg? && msgs[n - 1].from == sender then 1 else 0
  }

  /** Message `i` is by a known sender and carries its sequence plus its earlier messages in the tx. */
  predicate InTurn(seqs: SequenceMap, msgs: seq<Msg>, i: nat)
    requires i < |msgs|
  {
    msgs[i].EthMsg? && msgs[i].from in seqs
    && msgs[i].nonce == Some(ToUint64(seqs[msgs[i].from] + CountOf(msgs, msgs[i].from, i)))
  }

  lemma WrapTwice(x: nat)
    ensures ToUint64(ToUint64(x) + 1) == ToUint64(x + 1)
  {
  }

  lemma WrapNone(x: uint64)
    ensures ToUint64(x) == x
  {
  }

  /**
   A tx is accepted exactly if every message is in turn, that is, each sender's nonces are consecutive
   from its sequence in message order; then each sequence has risen by the sender's message count.
   */
  lemma {:induction false} AcceptedIffInTurn(seqs: SequenceMap, msgs: seq<Msg>, n: nat)
    requires n <= |msgs|
    ensures Advance(seqs, msgs, n).Some? <==> forall i :: 0 <= i < n ==> InTurn(seqs, msgs, i)
    ensures Advance(seqs, msgs, n).Some? ==>
              var after := Advance(seqs, msgs, n).value;
              after.Keys == seqs.Keys && forall a :: a in seqs ==> after[a] == ToUint64(seqs[a] + CountOf(msgs, a, n))
  {
    hide ToUint64;
    if n == 0 {
      forall a | a in seqs ensures ToUint64(seqs[a]) == seqs[a] {
        WrapNone(seqs[a]);
      }
    } else {
      AcceptedIffInTurn(seqs, msgs, n - 1);
      var before := Advance(seqs, msgs, n - 1);
      if before.Some? {
        assert AdvanceOne(before.value, msgs[n - 1]).Some? <==> InTurn(seqs, msgs, n - 1);
        if InTurn(seqs, msgs, n - 1) {
          WrapTwice(seqs[msgs[n - 1].from] + CountOf(msgs, msgs[n - 1].from, n - 1));
        }
      }
    }
  }

  // ----- whole runs -----

  datatype Tx = Tx(msgs: seq<Msg>, restAccepts: bool)

  /** A message that was let through. */
  datatype Accepted = Accepted(sender: Address, nonce: uint64)

  function AcceptedOf(msgs: seq<Msg>, n: nat): seq<Accepted>
    requires n <= |msgs|
  {
    if n == 0 then []
    else
      var m := msgs[n - 1];
      if m.EthMsg? && m.nonce.Some? then AcceptedOf(msgs, n - 1) + [Accepted(m.from, m.nonce.value)]
      else AcceptedOf(msgs, n - 1)
  }

  datatype Chain = Chain(seqs: SequenceMap, log: seq<Accepted>)

  function RunOne(chain: Chain, tx: Tx): Chain {
    var after := Advance(chain.seqs, tx.msgs, |tx.msgs|);
    if tx.restAccepts && after.Some? then Chain(after.value, chain.log + AcceptedOf(tx.msgs, |tx.msgs|)) else chain
  }

  function RunAll(seqs: SequenceMap, txs: seq<Tx>): Chain {
    if txs == [] then Chain(seqs, []) else RunOne(RunAll(seqs, txs[..|txs| - 1]), txs[|txs| - 1])
  }

  /** The messages of a tx that names a sender and a nonce in each. */
  method LogTx(msgs: seq<Msg>) returns (log: seq<Accepted>)
    ensures log == AcceptedOf(msgs, |msgs|)
  {
    log := [];
    for i := 0 to |msgs|
      invariant log == AcceptedOf(msgs, i)
    {
      if msgs[i].EthMsg? && msgs[i].nonce.Some? {
        log := log + [Accepted(msgs[i].from, msgs[i].nonce.value)];
      }
    }
  }

  /** The application running tx after tx, and the messages of the accepted ones. */
  method RunTxs(keeper: AccountKeeper, txs: seq<Tx>) returns (log: seq<Accepted>)
    modifies keeper
    ensures keeper.sequences == RunAll(old(keeper.sequences), txs).seqs
    ensures log == RunAll(old(keeper.sequences), txs).log
  {
    hide Advance, AcceptedOf;
    log := [];
    for i := 0 to |txs|
      invariant RunAll(old(keeper.sequences), txs[..i]) == Chain(keeper.sequences, log)
    {
      assert txs[..i + 1][..i] == txs[..i];
      var accepted := keeper.RunTx(txs[i].msgs, txs[i].restAccepts);
      if accepted {
        var more := LogTx(txs[i].msgs);
        log := log + more;
      }
    }
    assert txs[..|txs|] == txs;
  }

  /** The nonces accepted from one sender, in order. */
  function NoncesOf(log: seq<Accepted>, sender: Address): seq<uint64> {
    if log == [] then []
    else
      var before, l := NoncesOf(log[..|log| - 1], sender), log[|log| - 1];
      if l.sender == sender then before + [l.nonce] else before
  }

  /** `nonces` count up from `first`, around the end of the 64-bit range if need be. */
  predicate CountsUp(nonces: seq<uint64>, first: uint64) {
    forall k :: 0 <= k < |nonces| ==> nonces[k] == ToUint64(first + k)
  }

  /** Each account's accepted nonces count up from its first sequence, and its sequence is the next one. */
  ghost predicate Consecutive(seqs: SequenceMap, chain: Chain) {
    && chain.seqs.Keys == seqs.Keys
    && (forall l :: l in chain.log ==> l.sender in seqs)
    && forall a :: a in seqs ==>
         var nonces := NoncesOf(chain.log, a);
         CountsUp(nonces, seqs[a]) && chain.seqs[a] == ToUint64(seqs[a] + |nonces|)
  }

  lemma NextConsecutive(seqs: SequenceMap, chain: Chain, msg: Msg)
    requires Consecutive(seqs, chain) && AdvanceOne(chain.seqs, msg).Some?
    ensures Consecutive(seqs, Chain(AdvanceOne(chain.seqs, msg).value, chain.log + [Accepted(msg.from, msg.nonce.value)]))
  {
    hide ToUint64;
    var l := Accepted(msg.from, msg.nonce.value);
    var log := chain.log + [l];
    assert log[..|chain.log|] == chain.log;
    WrapTwice(seqs[msg.from] + |NoncesOf(chain.log, msg.from)|);
  }

  lemma {:induction false} TxConsecutive(seqs: SequenceMap, chain: Chain, msgs: seq<Msg>, n: nat)
    requires Consecutive(seqs, chain) && n <= |msgs| && Advance(chain.seqs, msgs, n).Some?
    ensures Consecutive(seqs, Chain(Advance(chain.seqs, msgs, n).value, chain.log + AcceptedOf(msgs, n)))
  {
    hide Consecutive, AdvanceOne;
    if n == 0 {
      assert chain.log + AcceptedOf(msgs, 0) == chain.log;
    } else {
      TxConsecutive(seqs, chain, msgs, n - 1);
      var before := Chain(Advance(chain.seqs, msgs, n - 1).value, chain.log + AcceptedOf(msgs, n - 1));
      AdvancedMsg(before.seqs, msgs[n - 1]);
      NextConsecutive(seqs, before, msgs[n - 1]);
      assert chain.log + AcceptedOf(msgs, n) == before.log + [Accepted(msgs[n - 1].from, msgs[n - 1].nonce.value)];
    }
  }

  lemma AdvancedMsg(seqs: SequenceMap, msg: Msg)
    requires AdvanceOne(seqs, msg).Some?
    ensures msg.EthMsg? && msg.nonce.Some?
  {
  }

  lemma NothingRun(seqs: SequenceMap)
    ensures Consecutive(seqs, Chain(seqs, []))
  {
  }

  /** Over any run of accepted and refused txs. */
  lemma {:induction false} RunConsecutive(seqs: SequenceMap, txs: seq<Tx>)
    ensures Consecutive(seqs, RunAll(seqs, txs))
  {
    hide Consecutive, Advance;
    if txs == [] {
      NothingRun(seqs);
    } else {
      var before, tx := RunAll(seqs, txs[..|txs| - 1]), txs[|txs| - 1];
      RunConsecutive(seqs, txs[..|txs| - 1]);
      if Advance(before.seqs, tx.msgs, |tx.msgs|).Some? {
        TxConsecutive(seqs, before, tx.msgs, |tx.msgs|);
      }
    }
  }

  lemma WrapsApart(first: uint64, i: nat, j: nat)
    requires i < j
    ensures j - i < TWO_64 ==> ToUint64(first + i) != ToUint64(first + j)
    ensures j - i == TWO_64 ==> ToUint64(first + i) == ToUint64(first + j)
  {
  }

  lemma CountingDistinct(nonces: seq<uint64>, first: uint64)
    requires CountsUp(nonces, first)
    ensures Distinct(nonces) <==> |nonces| <= TWO_64
  {
    hide ToUint64;
    if |nonces| <= TWO_64 {
      forall i, j | 0 <= i < j < |nonces| ensures nonces[i] != nonces[j] {
        WrapsApart(first, i, j);
      }
    } else {
      WrapsApart(first, 0, TWO_64);
      assert nonces[0] == nonces[TWO_64];
    }
  }

  /** Two places in the log with one sender are two places among its nonces. */
  lemma {:induction false} PlaceOf(log: seq<Accepted>, i: nat) returns (k: nat)
    requires i < |log|
    ensures k < |NoncesOf(log, log[i].sender)| && NoncesOf(log, log[i].sender)[k] == log[i].nonce
    ensures k == |NoncesOf(log[..i], log[i].sender)|
  {
    var last := |log| - 1;
    if i == last {
      k := |NoncesOf(log[..last], log[i].sender)|;
    } else {
      k := PlaceOf(log[..last], i);
      assert log[..last][..i] == log[..i];
    }
  }

  lemma {:induction false} MoreNonces(log: seq<Accepted>, i: nat, j: nat)
    requires i < j <= |log|
    ensures |NoncesOf(log[..i], log[i].sender)| < |NoncesOf(log[..j], log[i].sender)|
    decreases j
  {
    assert log[..j][..j - 1] == log[..j - 1];
    if j - 1 > i {
      MoreNonces(log, i, j - 1);
    }
  }

  lemma {:induction false} PlaceBack(log: seq<Accepted>, sender: Address, k: nat) returns (i: nat)
    requires k < |NoncesOf(log, sender)|
    ensures i < |log| && log[i] == Accepted(sender, NoncesOf(log, sender)[k]) && |NoncesOf(log[..i], sender)| == k
  {
    var last := |log| - 1;
    if k < |NoncesOf(log[..last], sender)| {
      i := PlaceBack(log[..last], sender, k);
      assert log[..last][..i] == log[..i];
    } else {
      i := last;
    }
  }

  ghost predicate NoneRepeats(log: seq<Accepted>) {
    forall a :: Distinct(NoncesOf(log, a))
  }

  /** A log repeats no entry exactly if no sender's nonces repeat. */
  lemma DistinctBySender(log: seq<Accepted>)
    ensures Distinct(log) <==> NoneRepeats(log)
  {
    hide NoncesOf, Distinct;
    if NoneRepeats(log) {
      DistinctLog(log);
    }
    if Distinct(log) {
      forall a ensures Distinct(NoncesOf(log, a)) {
        DistinctNonces(log, a);
      }
    }
  }

  lemma DistinctLog(log: seq<Accepted>)
    requires NoneRepeats(log)
    ensures Distinct(log)
  {
    hide NoncesOf;
    forall i, j | 0 <= i < j < |log| ensures log[i] != log[j] {
      if log[i].sender == log[j].sender {
        var k := PlaceOf(log, i);
        var m := PlaceOf(log, j);
        MoreNonces(log, i, j);
        assert Distinct(NoncesOf(log, log[i].sender));
      }
    }
  }

  lemma DistinctNonces(log: seq<Accepted>, a: Address)
    requires Distinct(log)
    ensures Distinct(NoncesOf(log, a))
  {
    hide NoncesOf;
    forall k, m | 0 <= k < m < |NoncesOf(log, a)| ensures NoncesOf(log, a)[k] != NoncesOf(log, a)[m] {
      var i := PlaceBack(log, a, k);
      var j := PlaceBack(log, a, m);
      assert i != j;
      assert log[i] != log[j];
    }
  }

  /** No sender has more than 2^64 accepted messages. */
  ghost predicate NoneWrapsAround(log: seq<Accepted>) {
    forall a :: |NoncesOf(log, a)| <= TWO_64
  }

  /**
   Over any run, no (sender, nonce) pair is accepted twice exactly if no sender has more than 2^64
   accepted messages.
   */
  lemma NoReplay(seqs: SequenceMap, txs: seq<Tx>)
    ensures Distinct(RunAll(seqs, txs).log) <==> NoneWrapsAround(RunAll(seqs, txs).log)
  {
    hide RunAll, NoncesOf, CountsUp, Distinct;
    var chain := RunAll(seqs, txs);
    RunConsecutive(seqs, txs);
    DistinctBySender(chain.log);
    forall a ensures Distinct(NoncesOf(chain.log, a)) <==> |NoncesOf(chain.log, a)| <= TWO_64 {
      if a in seqs {
        CountingDistinct(NoncesOf(chain.log, a), seqs[a]);
      } else {
        UnknownSender(chain.log, a);
      }
    }
  }

  lemma {:induction false} UnknownSender(log: seq<Accepted>, a: Address)
    requires forall l :: l in log ==> l.sender != a
    ensures NoncesOf(log, a) == [] && Distinct(NoncesOf(log, a))
  {
    if log != [] {
      UnknownSender(log[..|log| - 1], a);
    }
  }

  // ----- a condition on the txs alone -----

  /** How many messages of the txs name `sender`, accepted or not. */
  function MessagesFrom(txs: seq<Tx>, sender: Address): nat {
    if txs == [] then 0
    else
      var msgs := txs[|txs| - 1].msgs;
      MessagesFrom(txs[..|txs| - 1], sender) + CountOf(msgs, sender, |msgs|)
  }

  lemma {:induction false} NoncesOfBoth(a: seq<Accepted>, b: seq<Accepted>, sender: Address)
    ensures NoncesOf(a + b, sender) == NoncesOf(a, sender) + NoncesOf(b, sender)
  {
    if b == [] {
      assert a + b == a;
    } else {
      assert (a + b)[..|a + b| - 1] == a + b[..|b| - 1];
      NoncesOfBoth(a, b[..|b| - 1], sender);
    }
  }

  lemma {:induction false} AcceptedFewer(msgs: seq<Msg>, sender: Address, n: nat)
    requires n <= |msgs|
    ensures |NoncesOf(AcceptedOf(msgs, n), sender)| <= CountOf(msgs, sender, n)
  {
    if n > 0 {
      AcceptedFewer(msgs, sender, n - 1);
      var before, after := AcceptedOf(msgs, n - 1), AcceptedOf(msgs, n);
      assert |after| > |before| ==> after[..|after| - 1] == before;
    }
  }

  lemma {:induction false} AcceptedAtMostSent(seqs: SequenceMap, txs: seq<Tx>, sender: Address)
    ensures |NoncesOf(RunAll(seqs, txs).log, sender)| <= MessagesFrom(txs, sender)
  {
    hide NoncesOf, CountOf, Advance;
    if txs == [] {
      UnknownSender([], sender);
    } else {
      var before, tx := RunAll(seqs, txs[..|txs| - 1]), txs[|txs| - 1];
      AcceptedAtMostSent(seqs, txs[..|txs| - 1], sender);
      AcceptedFewer(tx.msgs, sender, |tx.msgs|);
      NoncesOfBoth(before.log, AcceptedOf(tx.msgs, |tx.msgs|), sender);
    }
  }

  /** Whatever the sequences and the txs, if no sender sends more than 2^64 messages, no pair is accepted twice. */
  lemma NoReplayIfFew(seqs: SequenceMap, txs: seq<Tx>)
    requires forall a :: MessagesFrom(txs, a) <= TWO_64
    ensures Distinct(RunAll(seqs, txs).log)
  {
    hide RunAll, NoncesOf, Distinct, MessagesFrom;
    NoReplay(seqs, txs);
    forall a ensures |NoncesOf(RunAll(seqs, txs).log, a)| <= TWO_64 {
      AcceptedAtMostSent(seqs, txs, a);
    }
  }
}
