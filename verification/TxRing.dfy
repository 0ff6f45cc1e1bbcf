/**
  The transmit ring: `struct ena_ring` with its table of request ids, joined to
  the submission queue that bounds it and the completion queue that feeds it.

  The sender holds the ring lock, the cleaner does not, so they run in parallel.
  Their shared accesses are methods that keep one invariant: `OthersRun` makes any
  number of steps of the sender and the device between two steps of the cleaner,
  `CleanerRuns` any number of steps of the cleaner and the device in the middle of
  sending a packet. The one thing that breaks the invariant is a completion that
  names the id of the packet being sent.
 */
module TxRing {
  import opened Words
  import opened Tally
  import opened IdRing
  import opened TxWire
  import opened TxDecode
  import opened SqAccounting
  import SubmissionQueue
  import CompletionQueue
  import FlowControl

  const ENA_DB_THRESHOLD: nat := 64
  const ENA_TX_COMMIT: nat := 32
  const ENA_TX_BUDGET: nat := 128

  /** `struct ena_tx_buffer`: whether a packet is attached, and its descriptors as an unsigned 32-bit number. */
  datatype TxBuffer = TxBuffer(mbuf: bool, txDescs: nat)

  datatype XmitRc = Sent | MapFailed | Refused(rc: Rc)

  /**
    Where the sender is between its shared accesses: not in `ena_xmit_mbuf`; with
    the packet attached to its id; with the packet in the submission queue but
    neither recorded nor past next_to_use.
   */
  datatype SenderAt = Away | Attached(id: nat) | Submitted(id: nat, nbHwDesc: int, entries: nat) {
    predicate Names(i: nat) {
      !Away? && i == id
    }

    function InQueue(): nat {
      if Submitted? then entries else 0
    }
  }

  /**
    Every id with a recorded packet holds entries of the ring, and its descriptor
    count is right modulo 2^16; besides those only the id being sent has a packet.
   */
  ghost predicate Holds(info: seq<TxBuffer>, held: seq<nat>, at: SenderAt) {
    && |info| == |held|
    && forall id :: 0 <= id < |held| ==>
         && info[id].mbuf == (held[id] > 0 || at.Names(id))
         && (held[id] > 0 ==> info[id].txDescs % U16 == held[id] % U16)
  }

  /** The id being sent is the first free one. */
  ghost predicate AtFirstFree(table: seq<nat>, sends: nat, at: SenderAt) {
    |table| > 0 && (!at.Away? ==> at.id == table[Slot(|table|, sends)])
  }

  ghost predicate Counted(at: SenderAt) {
    at.Submitted? ==> at.entries > 0 && at.nbHwDesc % U16 == at.entries % U16
  }

  /**
    The books of the ring after `sends` packets recorded and `cleans` cleaned:
    unused ids are the free window of the table, used ones have a packet, and the
    outstanding entries are those held by live packets, those of the packet being
    sent and the unacknowledged.
   */
  ghost predicate Books(table: seq<nat>, info: seq<TxBuffer>, held: seq<nat>, place: seq<nat>,
                        sends: nat, cleans: nat, outstanding: int, unacked: nat, at: SenderAt) {
    && AtFirstFree(table, sends, at) && Counted(at)
    && Partition(table, sends, cleans + |table|, held, place)
    && Holds(info, held, at)
    && Sum(held) + at.InQueue() + unacked == outstanding <= |table| - 1
    && InUse(held) + cleans == sends
  }

  /** Fewer live packets than ids, because every one of them holds an entry of the submission queue. */
  lemma {:induction false} RoomForOne(table: seq<nat>, info: seq<TxBuffer>, held: seq<nat>, place: seq<nat>,
                                      sends: nat, cleans: nat, outstanding: int, unacked: nat, at: SenderAt)
    requires Books(table, info, held, place, sends, cleans, outstanding, unacked, at)
    ensures |table| == |info| == |held| == |place| && cleans <= sends < cleans + |table|
    ensures var id := table[Slot(|table|, sends)];
            id < |table| && held[id] == 0 && (at.Away? ==> !info[id].mbuf) && (!at.Away? ==> at.id == id)
  {
    InUseAtMostSum(held);
    TakeId(table, sends, cleans + |table|, held, place, 1);
  }

  /** Attaching a packet to the first free id, and detaching it again. */
  lemma {:induction false} BookAttach(table: seq<nat>, info: seq<TxBuffer>, held: seq<nat>, place: seq<nat>,
                                      sends: nat, cleans: nat, outstanding: int, unacked: nat, id: nat)
    requires Books(table, info, held, place, sends, cleans, outstanding, unacked, Away)
    requires id == table[Slot(|table|, sends)] && id < |info|
    ensures Books(table, info[id := info[id].(mbuf := true)], held, place, sends, cleans, outstanding, unacked,
                  Attached(id))
  {
    hide Partition, Slot;
  }

  lemma {:induction false} BookDetach(table: seq<nat>, info: seq<TxBuffer>, held: seq<nat>, place: seq<nat>,
                                      sends: nat, cleans: nat, outstanding: int, unacked: nat, id: nat)
    requires Books(table, info, held, place, sends, cleans, outstanding, unacked, Attached(id)) && id < |info|
    ensures Books(table, info[id := info[id].(mbuf := false)], held, place, sends, cleans, outstanding, unacked, Away)
  {
    RoomForOne(table, info, held, place, sends, cleans, outstanding, unacked, Attached(id));
    hide Partition, Slot;
  }

  lemma {:induction false} BookSubmit(table: seq<nat>, info: seq<TxBuffer>, held: seq<nat>, place: seq<nat>,
                                      sends: nat, cleans: nat, outstanding: int, unacked: nat,
                                      id: nat, nbHwDesc: int, w: nat)
    requires Books(table, info, held, place, sends, cleans, outstanding, unacked, Attached(id))
    requires w > 0 && nbHwDesc % U16 == w % U16 && outstanding + w <= |table| - 1
    ensures Books(table, info, held, place, sends, cleans, outstanding + w, unacked, Submitted(id, nbHwDesc, w))
  {
    hide Partition, Slot;
  }

  /** Recording a submitted packet makes its id a live one. */
  lemma {:induction false} BookRecord(table: seq<nat>, info: seq<TxBuffer>, held: seq<nat>, place: seq<nat>,
                                      sends: nat, cleans: nat, outstanding: int, unacked: nat, at: SenderAt, descs: nat)
    requires Books(table, info, held, place, sends, cleans, outstanding, unacked, at)
    requires at.Submitted? && descs % U16 == at.entries % U16
    ensures at.id < |info| == |held| && held[at.id] == 0
    ensures Books(table, info[at.id := info[at.id].(txDescs := descs)], held[at.id := at.entries], place,
                  sends + 1, cleans, outstanding, unacked, Away)
  {
    RoomForOne(table, info, held, place, sends, cleans, outstanding, unacked, at);
    TakeId(table, sends, cleans + |table|, held, place, at.entries);
    UpdateTally(held, at.id, at.entries);
    hide Partition, Slot;
  }

  /** Cleaning a live id, whatever the sender is doing, keeps the books. */
  lemma {:induction false} BookClean(table: seq<nat>, info: seq<TxBuffer>, held: seq<nat>, place: seq<nat>,
                                     sends: nat, cleans: nat, outstanding: int, unacked: nat, at: SenderAt, id: nat)
    requires Books(table, info, held, place, sends, cleans, outstanding, unacked, at)
    requires id < |table| && |info| == |held| == |place| == |table| && info[id].mbuf && !at.Names(id)
    ensures held[id] > 0 && info[id].txDescs % U16 == held[id] % U16
    ensures Books(table[Slot(|table|, cleans) := id], info[id := info[id].(mbuf := false)], held[id := 0],
                  place[id := cleans + |table|], sends, cleans + 1, outstanding, unacked + held[id], at)
  {
    hide Partition, Slot, Phase;
    UpdateTally(held, id, 0);
    RoomForOne(table, info, held, place, sends, cleans, outstanding, unacked, at);
    LapFlipsPhase(|table|, cleans);
    PutId(table, sends, cleans + |table|, held, place, id);
    var table' := table[Slot(|table|, cleans) := id];
    assert FreeIds(table', sends, cleans + |table| + 1)[0] == FreeIds(table, sends, cleans + |table|)[0];
    FirstOf(table, sends, cleans + |table|);
    FirstOf(table', sends, cleans + |table| + 1);
  }

  lemma FirstOf(table: seq<nat>, lo: nat, hi: nat)
    requires |table| > 0 && lo < hi
    ensures FreeIds(table, lo, hi)[0] == table[Slot(|table|, lo)]
  {
  }

  /** Taking a completion of the very id that is being sent puts the id into the free window a second time. */
  lemma {:induction false} BookStray(table: seq<nat>, info: seq<TxBuffer>, held: seq<nat>, place: seq<nat>,
                                     sends: nat, cleans: nat, outstanding: int, unacked: nat, at: SenderAt)
    requires Books(table, info, held, place, sends, cleans, outstanding, unacked, at) && !at.Away?
    ensures at.id < |table| == |held| && held[at.id] == 0 && sends < cleans + |table|
    ensures var table' := table[Slot(|table|, cleans) := at.id];
            table'[Slot(|table|, sends)] == at.id == table'[Slot(|table|, cleans + |table|)]
  {
    RoomForOne(table, info, held, place, sends, cleans, outstanding, unacked, at);
    LapFlipsPhase(|table|, cleans);
  }

  lemma {:induction false} BookAck(table: seq<nat>, info: seq<TxBuffer>, held: seq<nat>, place: seq<nat>,
                                   sends: nat, cleans: nat, outstanding: int, unacked: nat, at: SenderAt)
    requires Books(table, info, held, place, sends, cleans, outstanding, unacked, at)
    ensures unacked <= outstanding
    ensures Books(table, info, held, place, sends, cleans, outstanding - unacked, 0, at)
  {
    hide Partition, Slot;
  }

  lemma {:induction false} FreshBooks(n: nat, table: seq<nat>, info: seq<TxBuffer>)
    requires n > 0 && |table| == |info| == n
    requires forall i :: 0 <= i < n ==> table[i] == i && info[i] == TxBuffer(false, 0)
    ensures Books(table, info, seq(n, _ => 0), seq(n, i => i), 0, 0, 0, 0, Away)
  {
    hide Partition, Slot;
    TallyOfZeros(n);
    FreshPartition(n);
    assert table == seq(n, i => i);
  }

  class Ring {
    const ringSize: nat
    const sq: SubmissionQueue.IoSq
    const cq: CompletionQueue.IoCq
    const freeTxIds: array<nat>
    const txBufferInfo: array<TxBuffer>

    var nextToUse: nat
    var nextToClean: nat
    var acumPkts: nat
    var resetTriggered: bool

    /** The cleaner's local index and its descriptors not yet acknowledged. */
    var cleanIdx: nat
    var totalDone: nat

    /** Where the sender is. */
    var sender: SenderAt

    /** Packets ever recorded as sent and ever cleaned. */
    ghost var sends: nat
    ghost var cleans: nat
    /** Ring entries held by the packet of each id; zero for a free id. */
    ghost var held: seq<nat>
    /** Entries of cleaned packets that are not acknowledged yet. */
    ghost var unacked: nat
    /** The place of each free id in the sequence of all ids ever freed. */
    ghost var place: seq<nat>

    ghost function Footprint(): set<object>
    {
      {this, freeTxIds, txBufferInfo, sq, sq.entries, sq.bounceBuffers, cq, cq.ring}
    }

    ghost predicate Queues()
      reads sq, sq.entries, sq.bounceBuffers, cq, cq.ring
    {
      && sq.Valid() && sq.cfg.Valid() && cq.Valid() && cq.start == cq.read
      && sq.cfg.depth == ringSize == cq.depth
      && 0 <= sq.submitted - sq.acked <= ringSize - 1
    }

    ghost predicate Valid()
      reads Footprint()
    {
      && Queues() && Indexed() && Announced()
      && Booked()
    }

    /**
      At most 64 packets are sent between two doorbells; with none since the last one,
      the device knows of everything in the queue.
     */
    ghost predicate Announced()
      reads this`acumPkts, this`sender, sq`rung, sq`submitted
    {
      && acumPkts <= (if sender.Submitted? then 63 else 64)
      && (acumPkts == 0 && !sender.Submitted? ==> sq.rung == sq.submitted)
    }

    ghost predicate Booked()
      reads this, freeTxIds, txBufferInfo, sq
    {
      Books(freeTxIds[..], txBufferInfo[..], held, place, sends, cleans, sq.submitted - sq.acked, unacked, sender)
    }

    ghost predicate Indexed()
      reads this
    {
      && freeTxIds.Length == txBufferInfo.Length == |held| == ringSize > 0
      && nextToUse == Slot(ringSize, sends)
      && cleanIdx == Slot(ringSize, cleans)
      && totalDone % U16 == unacked % U16
    }

    /** The ids from next_to_use up to the cleaner's index, in order. */
    ghost function Free(): seq<nat>
      requires ringSize > 0 && freeTxIds.Length == ringSize && sends <= cleans + ringSize
      reads this`sends, this`cleans, freeTxIds
    {
      FreeIds(freeTxIds[..], sends, cleans + ringSize)
    }

    constructor (sq: SubmissionQueue.IoSq, cq: CompletionQueue.IoCq)
      requires sq.Valid() && cq.Valid() && sq.cfg.depth == cq.depth
      requires sq.submitted == sq.acked == 0 && cq.start == cq.read
      ensures this.sq == sq && this.cq == cq && Valid() && sender == Away && !resetTriggered
      ensures totalDone == unacked == 0 && nextToClean == cleanIdx
      ensures sends == cleans == 0 && fresh(freeTxIds) && fresh(txBufferInfo)
    {
      var n := sq.cfg.depth;
      this.sq, this.cq, ringSize := sq, cq, n;
      freeTxIds := new nat[n](i => i);
      txBufferInfo := new TxBuffer[n](i => TxBuffer(false, 0));
      nextToUse, nextToClean, cleanIdx, acumPkts, totalDone := 0, 0, 0, 0, 0;
      resetTriggered, sender := false, Away;
      sends, cleans, unacked := 0, 0, 0;
      held := seq(n, _ => 0);
      place := seq(n, i => i);
      new;
      hide Books, SubmissionQueue.IoSq.Valid, SubmissionQueue.IoSq.Core, CompletionQueue.IoCq.Valid, IsDepth, Slot;
      sq.ValidHasCore();
      DepthBound(n);
      FirstLap(n, 0);
      FreshBooks(n, freeTxIds[..], txBufferInfo[..]);
    }

    /** Free ids are distinct, and an id is free exactly when no packet holds entries under it. */
    ghost predicate Conserved()
      reads this`sends, this`cleans, this`held, freeTxIds
    {
      && freeTxIds.Length == |held| == ringSize > 0 && sends <= cleans + ringSize
      && (forall a, b :: 0 <= a < b < |Free()| ==> Free()[a] != Free()[b])
      && (forall id: nat :: id < ringSize ==> (id in Free() <==> held[id] == 0))
    }

    /**
      Conservation: the free ids and the ids of live packets are exactly
      0..size-1, each once; the outstanding entries are those held by live packets,
      by the packet being sent and by packets not acknowledged yet; and the id up
      for use is free and nobody's but the packet's being sent.
     */
    lemma Conservation()
      requires Valid()
      ensures Conserved() && cleans <= sends < cleans + ringSize
      ensures forall a :: 0 <= a < |Free()| ==> Free()[a] < ringSize
      ensures forall id: nat :: id < ringSize ==>
                (txBufferInfo[id].mbuf <==> id !in Free() || sender.Names(id))
      ensures |Free()| + InUse(held) == ringSize
      ensures (sq.tail - sq.nextToComp) % U16 == Sum(held) + sender.InQueue() + unacked
      ensures nextToUse < ringSize && freeTxIds[nextToUse] == Free()[0]
      ensures if sender.Away? then !txBufferInfo[Free()[0]].mbuf else sender.id == Free()[0]
    {
      hide CompletionQueue.IoCq.Valid, Partition;
      RoomForOne(freeTxIds[..], txBufferInfo[..], held, place, sends, cleans, sq.submitted - sq.acked, unacked, sender);
      DepthBound(ringSize);
      CounterDistance(sq.submitted, sq.acked);
      PartitionIsExact(freeTxIds[..], sends, cleans + ringSize, held, place);
    }

    /**
      The cleaner has taken a completion of the id being sent: the id is up for use
      and also the last one put back, and its packet is gone.
     */
    ghost predicate Strayed(id: nat)
      reads Footprint()
    {
      && Queues() && freeTxIds.Length == txBufferInfo.Length == |held| == ringSize
      && 0 < cleans && sends + 1 < cleans + ringSize && id < ringSize
      && nextToUse == Slot(ringSize, sends) && freeTxIds[nextToUse] == id
      && freeTxIds[..][Slot(ringSize, cleans - 1)] == id
      && held[id] == 0 && !txBufferInfo[id].mbuf
    }

    /** The invariant, unless a completion has strayed to the packet being sent. */
    ghost predicate ValidUnless(stray: bool)
      reads Footprint()
    {
      if stray then !sender.Away? && Strayed(sender.id) else Valid()
    }

    /** A packet is in the submission queue under an id that is free and has lost its buffer. */
    ghost predicate FreeAlthoughLive(id: nat)
      reads this, freeTxIds, txBufferInfo
    {
      && freeTxIds.Length == txBufferInfo.Length == |held| == ringSize > id && sends <= cleans + ringSize
      && id in Free() && held[id] > 0 && !txBufferInfo[id].mbuf
    }

    lemma StrayedIsNotConserved(id: nat)
      requires Strayed(id)
      ensures !Conserved()
    {
      hide Queues;
      var last := cleans - 1;
      LapFlipsPhase(ringSize, last);
      var table, k := freeTxIds[..], last + ringSize - sends;
      assert Free()[0] == table[Slot(ringSize, sends)] && Free()[k] == table[Slot(ringSize, sends + k)];
    }

    // -------------------------------------------------------------- sending

    lemma RingDepth()
      requires Queues()
      ensures IsDepth(ringSize)
    {
    }

    lemma FirstFree()
      requires Valid()
      ensures freeTxIds[nextToUse] < ringSize && held[freeTxIds[nextToUse]] == 0
      ensures |place| == ringSize && cleans <= sends < cleans + ringSize
      ensures Counted(sender) && (!sender.Away? ==> sender.id == freeTxIds[nextToUse])
    {
      RoomForOne(freeTxIds[..], txBufferInfo[..], held, place, sends, cleans, sq.submitted - sq.acked, unacked, sender);
    }

    /** The start of mapping: the packet is attached to the first free id. */
    method Attach() returns (reqId: nat)
      requires Valid() && sender == Away
      modifies this`sender, txBufferInfo
      ensures Valid() && sender == Attached(reqId) && reqId == freeTxIds[nextToUse] < ringSize && held[reqId] == 0
    {
      hide Queues, Books, SubmissionQueue.IoSq.Valid, CompletionQueue.IoCq.Valid, Slot, IsDepth;
      FirstFree();
      reqId := freeTxIds[nextToUse];
      BookAttach(freeTxIds[..], txBufferInfo[..], held, place, sends, cleans, sq.submitted - sq.acked, unacked, reqId);
      ghost var info := txBufferInfo[..];
      txBufferInfo[reqId] := txBufferInfo[reqId].(mbuf := true);
      assert txBufferInfo[..] == info[reqId := info[reqId].(mbuf := true)];
      sender := Attached(reqId);
    }

    /** The error path: the packet is detached again. */
    method Detach(stray: bool)
      requires sender.Attached? && ValidUnless(stray)
      modifies this`sender, txBufferInfo
      ensures sender == Away && if stray then Strayed(old(sender).id) else Valid()
    {
      hide Queues, Books, SubmissionQueue.IoSq.Valid, CompletionQueue.IoCq.Valid, Slot, IsDepth;
      if !stray {
        FirstFree();
        BookDetach(freeTxIds[..], txBufferInfo[..], held, place, sends, cleans, sq.submitted - sq.acked, unacked,
                   sender.id);
      }
      DropPacket();
    }

    method DropPacket()
      requires sender.Attached? && sender.id < txBufferInfo.Length
      modifies this`sender, txBufferInfo
      ensures sender == Away
      ensures var id := old(sender).id;
              txBufferInfo[..] == old(txBufferInfo[..])[id := old(txBufferInfo[id]).(mbuf := false)]
    {
      txBufferInfo[sender.id] := txBufferInfo[sender.id].(mbuf := false);
      sender := Away;
    }

    /** Rings the doorbell first when told to; then a packet that fits one burst has its budget. */
    method RingDoorbellIfNeeded(ctx: TxCtx)
      requires sq.Valid() && sq.Mapped(ctx)
      modifies this`acumPkts, sq`entriesInTxBurstLeft, sq`rung
      ensures sq.Valid()
      ensures sq.FitsBurst(ctx) && sq.cfg.HasBurst() ==> sq.Uses(ctx) <= sq.entriesInTxBurstLeft
      ensures (acumPkts == 0 && sq.rung == sq.submitted)
              || (acumPkts == old(acumPkts) != 64 && sq.rung == old(sq.rung))
    {
      hide EntriesUsed, PredictedEntries, SqAccounting.FitsBurst, SubmissionQueue.IoSq.Valid, IsDepth;
      hide SubmissionQueue.IoSq.Mapped;
      sq.ValidHasCore();
      if sq.cfg.HasBurst() && sq.FitsBurst(ctx) {
        sq.FindsItsBudget(ctx);
      }
      var needed := DoorbellNeeded(sq.cfg, sq.cachedMeta, sq.entriesInTxBurstLeft, ctx);
      if acumPkts == ENA_DB_THRESHOLD || needed {
        var _ := sq.WriteDoorbell();
        acumPkts := 0;
      }
    }

    /** The packet passes the space check with `free` free entries, and its header is not too long. */
    predicate Acceptable(ctx: TxCtx, free: int)
      requires sq.cfg.Valid()
    {
      PassesSpaceCheck(sq.cfg, ctx, free) && ctx.headerLen <= sq.cfg.txMaxHeaderSize
    }

    /** The submission queue's part of sending: the doorbell if it is needed, then the packet. */
    method PreparePacket(ctx: TxCtx) returns (rc: Rc, nbHwDesc: int)
      requires sq.Valid() && sq.cfg.Valid() && sq.MappedData(ctx)
      modifies this`acumPkts, sq, sq.entries, sq.bounceBuffers
      ensures sq.acked == old(sq.acked) && (rc != NoSpace ==> sq.Valid() && sq.submitted - sq.acked <= sq.cfg.depth - 1)
      ensures rc == NoSpace ==> !old(sq.FitsBurst(ctx))
      ensures rc == NoMem <==> !PassesSpaceCheck(sq.cfg, ctx, old(sq.Free()))
      ensures Acceptable(ctx, old(sq.Free())) && old(sq.FitsBurst(ctx)) ==> rc == Ok
      ensures rc == Ok ==>
                && sq.submitted == old(sq.submitted) + old(sq.Uses(ctx))
                && old(sq.Uses(ctx)) > 0 && nbHwDesc % U16 == old(sq.Uses(ctx)) % U16
                && sq.Carries(old(sq.entries[..]), old(sq.submitted), old(sq.cachedMeta), ctx)
      ensures rc != Ok && rc != NoSpace ==> sq.submitted == old(sq.submitted)
      ensures (acumPkts == 0 && sq.rung == old(sq.submitted))
              || (acumPkts == old(acumPkts) != 64 && sq.rung == old(sq.rung))
    {
      hide PacketChunks, PushedHeader, Slot, Phase, IsDepth, EntriesUsed, SqAccounting.FitsBurst;
      hide SendsMeta, Sendable, PassesSpaceCheck, SubmissionQueue.IoSq.Valid, SubmissionQueue.IoSq.Carries;
      sq.AnyId(ctx, ctx.reqId);
      RingDoorbellIfNeeded(ctx);
      rc, nbHwDesc := sq.Submit(ctx);
    }

    /** The packet of the attached id goes into the submission queue; the books follow unless they are broken. */
    method SubmitAttached(ctx: TxCtx, stray: bool) returns (rc: Rc)
      requires sq.Valid() && sq.cfg.Valid() && sq.MappedData(ctx) && sender == Attached(ctx.reqId)
      requires ValidUnless(stray)
      modifies this`acumPkts, this`sender, sq, sq.entries, sq.bounceBuffers
      ensures rc != NoSpace ==> ValidUnless(stray)
      ensures rc == NoSpace ==> !old(sq.FitsBurst(ctx))
      ensures rc == NoMem <==> !PassesSpaceCheck(sq.cfg, ctx, old(sq.Free()))
      ensures Acceptable(ctx, old(sq.Free())) && old(sq.FitsBurst(ctx)) ==> rc == Ok
      ensures sq.acked == old(sq.acked)
      ensures rc == Ok ==> sq.submitted == old(sq.submitted) + old(sq.Uses(ctx)) && old(sq.Uses(ctx)) > 0
      ensures rc != Ok && rc != NoSpace ==> sq.submitted == old(sq.submitted)
      ensures rc == Ok ==>
                && sender.Submitted? && sender.id == ctx.reqId && sender.entries == old(sq.Uses(ctx)) && Counted(sender)
                && sq.Carries(old(sq.entries[..]), old(sq.submitted), old(sq.cachedMeta), ctx)
      ensures rc != Ok ==> sender == old(sender)
    {
      hide Books, Slot, IsDepth, Sendable, PassesSpaceCheck, EntriesUsed;
      hide SubmissionQueue.IoSq.Valid, SubmissionQueue.IoSq.Carries, CompletionQueue.IoCq.Valid;
      hide SubmissionQueue.IoSq.FitsBurst;
      var w := sq.Uses(ctx);
      var nbHwDesc;
      rc, nbHwDesc := PreparePacket(ctx);
      if rc == Ok {
        assert Queues();
        if !stray {
          BookSubmit(freeTxIds[..], txBufferInfo[..], held, place, sends, cleans, sq.submitted - sq.acked - w, unacked,
                     ctx.reqId, nbHwDesc, w);
        }
        sender := Submitted(ctx.reqId, nbHwDesc, w);
      }
    }

    /** The doorbell at the end of `ena_start_xmit`: afterwards the device knows of every packet. */
    method Announce()
      requires Valid() && !sender.Submitted?
      modifies this`acumPkts, sq`entriesInTxBurstLeft, sq`rung
      ensures Valid() && sq.rung == sq.submitted && acumPkts == 0
    {
      hide Books, Slot, IsDepth, SubmissionQueue.IoSq.Valid, CompletionQueue.IoCq.Valid;
      if acumPkts != 0 {
        sq.ValidHasCore();
        var _ := sq.WriteDoorbell();
        acumPkts := 0;
      }
    }

    /** Records the submitted packet under its id and moves next_to_use past it. */
    method RecordSent()
      requires Valid() && sender.Submitted?
      modifies this`nextToUse, this`acumPkts, this`sends, this`held, this`sender, txBufferInfo
      ensures Valid() && sends == old(sends) + 1 && sender == Away && old(sender).id < |old(held)|
      ensures held == old(held)[old(sender).id := old(sender).entries]
    {
      hide Queues, Books, Slot, Masked, IsDepth;
      FirstFree();
      RingDepth();
      NextSlot(ringSize, sends);
      UnsignedKeepsLow16(sender.nbHwDesc);
      BookRecord(freeTxIds[..], txBufferInfo[..], held, place, sends, cleans, sq.submitted - sq.acked, unacked, sender,
                 sender.nbHwDesc % U32);
      StoreRecord();
    }

    /** The same writes after a completion has strayed. */
    method RecordStrayed()
      requires sender.Submitted? && Counted(sender) && Strayed(sender.id)
      modifies this`nextToUse, this`acumPkts, this`sends, this`held, this`sender, txBufferInfo
      ensures FreeAlthoughLive(old(sender).id) && sends == old(sends) + 1 && sender == Away
      ensures old(sender).id < |old(held)|
      ensures held == old(held)[old(sender).id := old(sender).entries]
    {
      hide Queues, Books, Slot, Masked, IsDepth;
      LastPutBack();
      StoreRecord();
    }

    method StoreRecord()
      requires sender.Submitted? && sender.id < txBufferInfo.Length == |held| == ringSize
      modifies this`nextToUse, this`acumPkts, this`sends, this`held, this`sender, txBufferInfo
      ensures var at := old(sender);
              && txBufferInfo[..]
                 == old(txBufferInfo[..])[at.id := old(txBufferInfo[at.id]).(txDescs := at.nbHwDesc % U32)]
              && held == old(held)[at.id := at.entries]
      ensures nextToUse == Masked(old(nextToUse) + 1, ringSize) && sends == old(sends) + 1 && sender == Away
      ensures acumPkts == old(acumPkts) + 1
    {
      txBufferInfo[sender.id] := txBufferInfo[sender.id].(txDescs := sender.nbHwDesc % U32);
      nextToUse := Masked(nextToUse + 1, ringSize);
      acumPkts := acumPkts + 1;
      held := held[sender.id := sender.entries];
      sends := sends + 1;
      sender := Away;
    }

    /** The id that strayed is free even behind the one up for use. */
    lemma LastPutBack()
      requires !sender.Away? && Strayed(sender.id)
      ensures sender.id in FreeIds(freeTxIds[..], sends + 1, cleans + ringSize)
    {
      hide Queues;
      var last := cleans - 1;
      LapFlipsPhase(ringSize, last);
      var ids, k := FreeIds(freeTxIds[..], sends + 1, cleans + ringSize), last + ringSize - (sends + 1);
      assert ids[k] == freeTxIds[..][Slot(ringSize, sends + 1 + k)];
    }

    /**
      `ena_xmit_mbuf` for a packet that the mapping step turns into `mapped`, or
      cannot map, with the cleaner running before and after the packet is
      submitted. Conservation survives if and only if none of the completions taken
      meanwhile names the id of the packet (`stray`): then a sent packet holds
      exactly the entries it was written to under the first free id, and every
      failure gives the id back. After a stray completion the id is still free
      while its packet is in flight, and nobody asks for a reset.
     */
    method XmitMbuf(mapped: Option<TxCtx>) returns (rc: XmitRc, stray: bool)
      requires Valid() && sender == Away && (mapped.Some? ==> sq.MappedData(mapped.value))
      modifies Footprint()
      ensures sender == Away && (rc == MapFailed <==> mapped.None?)
      ensures var id := old(freeTxIds[nextToUse]); stray <==> Named(id, old(cq.read), cq.read)
      ensures Conserved() <==> !stray
      ensures !stray && rc != Refused(NoSpace) ==> Valid()
      ensures rc == Refused(NoSpace) ==> mapped.Some? && !old(sq.FitsBurst(mapped.value))
      ensures mapped.Some? && Acceptable(mapped.value, old(sq.Free())) && old(sq.FitsBurst(mapped.value)) ==> rc == Sent
      ensures rc == Sent ==>
                && sends == old(sends) + 1
                && var id := old(freeTxIds[nextToUse]);
                && id < |held| == ringSize && old(held)[id] == 0 && held[id] == old(sq.Uses(mapped.value))
                && sq.Carries(old(sq.entries[..]), old(sq.submitted), old(sq.cachedMeta), mapped.value.(reqId := id))
                && (stray ==> FreeAlthoughLive(id))
      ensures rc != Sent ==> sends == old(sends)
    {
      hide Books, PacketChunks, PushedHeader, Slot, Phase, IsDepth, EntriesUsed, PredictorCovers, SendsMeta;
      hide SubmissionQueue.IoSq.Valid, SubmissionQueue.IoSq.Carries, CompletionQueue.IoCq.Valid;
      var reqId := Attach();
      stray := CleanerRuns();
      if mapped.None? {
        Detach(stray);
        ConservedOrStrayed(reqId, stray);
        rc := MapFailed;
      } else {
        MoreIsAcceptable(mapped.value, old(sq.Free()), sq.Free());
        rc, stray := SendAttached(mapped.value, stray);
      }
    }

    /** Sends the packet of the attached id. */
    method SendAttached(mapped: TxCtx, stray0: bool) returns (rc: XmitRc, stray: bool)
      requires sender.Attached? && ValidUnless(stray0) && sq.MappedData(mapped)
      modifies Footprint()
      ensures sender == Away && rc != MapFailed
      ensures var id := old(sender).id;
              && old(cq.read) <= cq.read <= |cq.log| && old(cq.log) <= cq.log
              && (stray <==> stray0 || Named(id, old(cq.read), cq.read))
      ensures Conserved() <==> !stray
      ensures !stray && rc != Refused(NoSpace) ==> Valid()
      ensures rc == Refused(NoSpace) ==> !old(sq.FitsBurst(mapped))
      ensures Acceptable(mapped, old(sq.Free())) && old(sq.FitsBurst(mapped)) ==> rc == Sent
      ensures rc == Sent ==>
                && sends == old(sends) + 1
                && var id := old(sender).id;
                && id < |held| == ringSize && held[id] == old(sq.Uses(mapped))
                && sq.Carries(old(sq.entries[..]), old(sq.submitted), old(sq.cachedMeta), mapped.(reqId := id))
                && (stray ==> FreeAlthoughLive(id))
      ensures rc != Sent ==> sends == old(sends)
    {
      hide Books, PacketChunks, PushedHeader, Slot, Phase, IsDepth, EntriesUsed, PredictorCovers, SendsMeta, Conserved;
      hide SubmissionQueue.IoSq.Valid, SubmissionQueue.IoSq.Carries, CompletionQueue.IoCq.Valid;
      var reqId := sender.id;
      ReadWithinLog();
      var ctx := mapped.(reqId := reqId);
      IdChangesNothing(mapped, reqId, stray0);
      ConservedOrStrayed(reqId, stray0);
      var prc := SubmitAttached(ctx, stray0);
      stray := stray0;
      if prc == Ok {
        stray := FinishSending(stray);
        return Sent, stray;
      }
      RefusedPacket(prc, stray);
      rc := Refused(prc);
    }

    /** The error path after a refusal. */
    method RefusedPacket(prc: Rc, stray: bool)
      requires sender.Attached? && sender.id < txBufferInfo.Length && prc != Ok
      requires prc != NoSpace ==> ValidUnless(stray)
      modifies this`sender, this`resetTriggered, txBufferInfo
      ensures sender == Away && resetTriggered == (old(resetTriggered) || prc != NoMem)
      ensures Conserved() == old(Conserved()) && (prc != NoSpace && !stray ==> Valid())
    {
      hide Books, Slot, IsDepth, SubmissionQueue.IoSq.Valid, CompletionQueue.IoCq.Valid, Conserved;
      if prc != NoMem {
        resetTriggered := true;
      }
      if prc == NoSpace {
        DropPacket();
      } else {
        Detach(stray);
      }
    }

    lemma IdChangesNothing(mapped: TxCtx, reqId: nat, stray: bool)
      requires ValidUnless(stray) && sq.MappedData(mapped) && sender == Attached(reqId)
      ensures var ctx := mapped.(reqId := reqId);
              && reqId < ringSize == txBufferInfo.Length && sq.MappedData(ctx)
              && sq.Uses(ctx) == sq.Uses(mapped) && sq.FitsBurst(ctx) == sq.FitsBurst(mapped)
              && Acceptable(ctx, sq.Free()) == Acceptable(mapped, sq.Free())
    {
      hide Books, EntriesUsed;
      DepthBound(ringSize);
      if !stray {
        FirstFree();
      }
      sq.AnyId(mapped, reqId);
    }

    lemma MoreIsAcceptable(ctx: TxCtx, free: int, free': int)
      requires sq.cfg.Valid() && free <= free'
      ensures Acceptable(ctx, free) ==> Acceptable(ctx, free')
    {
      if Acceptable(ctx, free) {
        var required := (|ctx.bufs| + 1) % U16;
        FlowControl.EnoughSpaceMonotone(sq.cfg, free, required, free', required);
      }
    }

    lemma ConservedOrStrayed(id: nat, stray: bool)
      requires if stray then Strayed(id) else Valid()
      ensures Conserved() <==> !stray
    {
      if stray {
        StrayedIsNotConserved(id);
      } else {
        Conservation();
      }
    }

    /** The rest of sending a submitted packet: the cleaner runs once more, then the packet is recorded. */
    method FinishSending(stray0: bool) returns (stray: bool)
      requires sender.Submitted? && Counted(sender) && ValidUnless(stray0)
      modifies this`cleanIdx, this`totalDone, this`cleans, this`held, this`unacked, this`place, this`resetTriggered
      modifies this`nextToClean, freeTxIds, txBufferInfo, sq`nextToComp, sq`acked
      modifies cq`head, cq`phase, cq`read, cq`start, cq`log, cq.ring
      modifies this`nextToUse, this`acumPkts, this`sends, this`sender
      ensures sender == Away && sends == old(sends) + 1 && (Conserved() <==> !stray)
      ensures var id := old(sender).id;
              && id < |held| == ringSize && held[id] == old(sender).entries
              && if stray then FreeAlthoughLive(id) else Valid()
      ensures old(cq.read) <= cq.read <= |cq.log| && old(cq.log) <= cq.log
      ensures stray <==> stray0 || Named(old(sender).id, old(cq.read), cq.read)
    {
      hide Books, SubmissionQueue.IoSq.Valid, CompletionQueue.IoCq.Valid, Slot, IsDepth;
      hide Conserved;
      ReadWithinLog();
      stray := stray0;
      if !stray {
        stray := CleanerRuns();
      }
      ghost var id := old(sender).id;
      if stray {
        RecordStrayed();
        FreeAlthoughLiveIsNotConserved(id);
      } else {
        RecordSent();
        Conservation();
      }
    }

    lemma FreeAlthoughLiveIsNotConserved(id: nat)
      requires FreeAlthoughLive(id)
      ensures !Conserved()
    {
    }

    // -------------------------------------------------------------- cleaning

    /** One of the completions from..to-1 names the id. */
    ghost predicate Named(id: nat, from: nat, to: nat)
      reads cq
    {
      from <= to <= |cq.log| && exists j :: from <= j < to && cq.log[j].reqId == id
    }

    /**
      One turn of the cleaning loop. A completion of a live packet frees its id
      behind the others; an unknown, repeated or malformed one changes nothing but
      asks for a reset. The exception is a completion that names the id being sent:
      it is taken for that packet's, and conservation is lost.
     */
    method CleanOne() returns (more: bool, stray: bool)
      requires Valid()
      modifies this`cleanIdx, this`totalDone, this`cleans, this`held, this`unacked, this`place, this`resetTriggered
      modifies freeTxIds, txBufferInfo, cq`head, cq`phase, cq`read, cq`start
      ensures ValidUnless(stray)
      ensures more <==>
                && old(cq.read) < |cq.log|
                && var c := cq.log[old(cq.read)];
                !(c.corrupt && cq.checkMbz) && c.reqId < ringSize && (old(held)[c.reqId] > 0 || sender.Names(c.reqId))
      ensures stray <==> more && sender.Names(cq.log[old(cq.read)].reqId)
      ensures more ==> cq.read == old(cq.read) + 1 && cleans == old(cleans) + 1 && resetTriggered == old(resetTriggered)
      ensures more && !stray ==>
                && var id := cq.log[old(cq.read)].reqId;
                && held == old(held)[id := 0] && unacked == old(unacked) + old(held)[id]
                && freeTxIds[old(cleanIdx)] == id
      ensures more ==> (Conserved() <==> !stray)
      ensures !more || stray ==> held == old(held) && unacked == old(unacked)
      ensures !more ==> cleans == old(cleans) && totalDone == old(totalDone) && cleanIdx == old(cleanIdx)
      ensures old(resetTriggered) ==> resetTriggered
      ensures !more ==> Stopped(cq.read - old(cq.read)) && (old(cq.read) < |cq.log| ==> resetTriggered)
    {
      hide Books, SubmissionQueue.IoSq.Valid, CompletionQueue.IoCq.Valid, Slot, Masked, IsDepth, Conserved;
      stray := false;
      var reqId;
      more, reqId := NextLive();
      if more {
        stray := sender.Names(reqId);
        if stray {
          RecordStray();
        } else {
          RecordClean(reqId);
        }
        ConservedOrStrayed(reqId, stray);
      }
    }

    /** The next completion, if its id has a packet; anything else asks for a reset. */
    method NextLive() returns (live: bool, reqId: nat)
      requires Valid()
      modifies this`resetTriggered, cq`head, cq`phase, cq`read, cq`start
      ensures Valid() && (old(resetTriggered) ==> resetTriggered)
      ensures live <==>
                && old(cq.read) < |cq.log|
                && var c := cq.log[old(cq.read)];
                !(c.corrupt && cq.checkMbz) && c.reqId < ringSize && (held[c.reqId] > 0 || sender.Names(c.reqId))
      ensures live ==>
                && cq.read == old(cq.read) + 1 && reqId == cq.log[old(cq.read)].reqId < ringSize
                && txBufferInfo[reqId].mbuf && resetTriggered == old(resetTriggered)
      ensures !live ==> Stopped(cq.read - old(cq.read)) && (old(cq.read) < |cq.log| ==> resetTriggered)
    {
      hide Books, SubmissionQueue.IoSq.Valid, CompletionQueue.IoCq.Valid, Slot, IsDepth;
      var rc;
      rc, reqId := cq.TxCompReqIdGet();
      if rc == CompletionQueue.TryAgain {
        return false, reqId;
      }
      if rc != CompletionQueue.Ok {
        resetTriggered := true;
        return false, reqId;
      }
      AttachedIffHeld(reqId);
      if !txBufferInfo[reqId].mbuf {
        resetTriggered := true;
        return false, reqId;
      }
      live := true;
    }

    /**
      Why cleaning stops: nothing more is completed, or the next completion cannot
      be read, or the `extra` one read last names an id without a packet.
     */
    ghost predicate Stopped(extra: int)
      reads this`held, this`sender, cq`read, cq`log
    {
      if extra == 0 then
        cq.read < |cq.log| ==> var c := cq.log[cq.read]; (c.corrupt && cq.checkMbz) || c.reqId >= ringSize
      else
        && extra == 1 && 0 < cq.read <= |cq.log|
        && var id := cq.log[cq.read - 1].reqId; id < ringSize == |held| && held[id] == 0 && !sender.Names(id)
    }

    lemma AttachedIffHeld(id: nat)
      requires Indexed() && id < ringSize && Booked()
      ensures txBufferInfo[id].mbuf == (held[id] > 0 || sender.Names(id))
    {
    }

    /** The cleaner's writes for one completed id. */
    method FreeId(id: nat)
      requires id < txBufferInfo.Length && cleanIdx < freeTxIds.Length == ringSize
      modifies this`cleanIdx, this`totalDone, freeTxIds, txBufferInfo
      ensures txBufferInfo[..] == old(txBufferInfo[..])[id := old(txBufferInfo[id]).(mbuf := false)]
      ensures freeTxIds[..] == old(freeTxIds[..])[old(cleanIdx) := id]
      ensures totalDone == (old(totalDone) + old(txBufferInfo[id]).txDescs) % U32
      ensures cleanIdx == Masked(old(cleanIdx) + 1, ringSize)
    {
      txBufferInfo[id] := txBufferInfo[id].(mbuf := false);
      totalDone := (totalDone + txBufferInfo[id].txDescs) % U32;
      freeTxIds[cleanIdx] := id;
      cleanIdx := Masked(cleanIdx + 1, ringSize);
    }

    /** Detaches the packet of an id and puts the id back behind the free ones. */
    method RecordClean(id: nat)
      requires Valid() && id < ringSize && txBufferInfo[id].mbuf && !sender.Names(id)
      modifies this`cleanIdx, this`totalDone, this`cleans, this`held, this`unacked, this`place, freeTxIds, txBufferInfo
      ensures Valid()
      ensures cleans == old(cleans) + 1 && freeTxIds[old(cleanIdx)] == id
      ensures held == old(held)[id := 0] && unacked == old(unacked) + old(held)[id]
    {
      hide Queues, Books, SubmissionQueue.IoSq.Valid, CompletionQueue.IoCq.Valid, Slot, Masked, IsDepth;
      FirstFree();
      BookClean(freeTxIds[..], txBufferInfo[..], held, place, sends, cleans, sq.submitted - sq.acked, unacked, sender,
                id);
      AddLow16(totalDone, unacked, txBufferInfo[id].txDescs, held[id]);
      RingDepth();
      NextSlot(ringSize, cleans);
      FreeId(id);
      unacked := unacked + held[id];
      held := held[id := 0];
      place := place[id := cleans + ringSize];
      cleans := cleans + 1;
    }

    /** The same writes for the id that is being sent. */
    method RecordStray()
      requires Valid() && !sender.Away?
      modifies this`cleanIdx, this`totalDone, this`cleans, freeTxIds, txBufferInfo
      ensures Strayed(sender.id) && cleans == old(cleans) + 1
    {
      hide Queues, Books, SubmissionQueue.IoSq.Valid, CompletionQueue.IoCq.Valid, Slot, Masked, IsDepth;
      FirstFree();
      BookStray(freeTxIds[..], txBufferInfo[..], held, place, sends, cleans, sq.submitted - sq.acked, unacked, sender);
      FreeId(sender.id);
      cleans := cleans + 1;
    }

    /** Publishes the cleaner's index and acknowledges the descriptors of the packets it cleaned. */
    method Commit()
      requires Valid()
      modifies this`nextToClean, this`totalDone, this`unacked, sq`nextToComp, sq`acked
      ensures Valid() && nextToClean == cleanIdx && totalDone == 0 && unacked == 0
      ensures sq.acked == old(sq.acked) + old(unacked)
    {
      hide Books, SubmissionQueue.IoSq.Valid, CompletionQueue.IoCq.Valid, Slot, Masked, IsDepth;
      BookAck(freeTxIds[..], txBufferInfo[..], held, place, sends, cleans, sq.submitted - sq.acked, unacked, sender);
      nextToClean := cleanIdx;
      sq.CompAck(totalDone, unacked);
      assert Queues();
      totalDone := 0;
      unacked := 0;
    }

    /** One step of the device or the cleaner. */
    method CleanerStep() returns (stray: bool)
      requires Valid()
      modifies this`cleanIdx, this`totalDone, this`cleans, this`held, this`unacked, this`place, this`resetTriggered
      modifies this`nextToClean, freeTxIds, txBufferInfo, sq`nextToComp, sq`acked
      modifies cq`head, cq`phase, cq`read, cq`start, cq`log, cq.ring
      ensures ValidUnless(stray)
      ensures old(cq.log) <= cq.log && old(cq.read) <= cq.read <= |cq.log| && sq.acked >= old(sq.acked)
      ensures stray <==> !sender.Away? && Named(sender.id, old(cq.read), cq.read)
      ensures old(resetTriggered) ==> resetTriggered
    {
      hide Books, SubmissionQueue.IoSq.Valid, CompletionQueue.IoCq.Valid, Slot, Masked, IsDepth;
      stray := false;
      ReadWithinLog();
      if * {
        cq.DeviceRuns();
        ReadWithinLog();
      } else if * {
        Commit();
      } else {
        var more;
        more, stray := CleanOne();
        if !stray {
          ReadWithinLog();
        }
      }
    }

    lemma ReadWithinLog()
      requires Queues()
      ensures cq.read <= |cq.log|
    {
    }

    /** While a packet is being sent, the cleaner and the device run, up to a completion that names its id. */
    method CleanerRuns() returns (stray: bool)
      requires Valid() && !sender.Away?
      modifies this`cleanIdx, this`totalDone, this`cleans, this`held, this`unacked, this`place, this`resetTriggered
      modifies this`nextToClean, freeTxIds, txBufferInfo, sq`nextToComp, sq`acked
      modifies cq`head, cq`phase, cq`read, cq`start, cq`log, cq.ring
      ensures ValidUnless(stray)
      ensures old(cq.log) <= cq.log && old(cq.read) <= cq.read <= |cq.log| && sq.acked >= old(sq.acked)
      ensures stray <==> Named(sender.id, old(cq.read), cq.read)
      ensures old(resetTriggered) ==> resetTriggered
    {
      hide Books, SubmissionQueue.IoSq.Valid, CompletionQueue.IoCq.Valid, Slot, Masked, IsDepth;
      ReadWithinLog();
      stray := false;
      var steps: nat := *;
      while steps > 0 && !stray
        invariant ValidUnless(stray)
        invariant old(cq.log) <= cq.log && old(cq.read) <= cq.read <= |cq.log| && sq.acked >= old(sq.acked)
        invariant stray <==> Named(sender.id, old(cq.read), cq.read)
        invariant old(resetTriggered) ==> resetTriggered
      {
        stray := CleanerStep();
        steps := steps - 1;
      }
    }

    /** One step of the sender, which sends packets that fit one burst. */
    method SenderStep()
      requires Valid()
      modifies this`nextToUse, this`acumPkts, this`sends, this`held, this`resetTriggered, this`sender
      modifies txBufferInfo, sq, sq.entries, sq.bounceBuffers
      ensures Valid() && sends >= old(sends) && sq.acked == old(sq.acked)
      ensures old(resetTriggered) ==> resetTriggered
    {
      hide Books, SubmissionQueue.IoSq.Valid, CompletionQueue.IoCq.Valid, Slot, Masked, IsDepth;
      match sender
      case Away =>
        var _ := Attach();
      case Submitted(_, _, _) =>
        RecordSent();
      case Attached(id) =>
        var packet: TxCtx := *;
        var ctx := packet.(reqId := id);
        var rc := NoMem;
        if sq.MappedData(ctx) && sq.FitsBurst(ctx) {
          rc := SubmitAttached(ctx, false);
        }
        if rc != Ok {
          resetTriggered := resetTriggered || rc != NoMem;
          Detach(false);
        }
    }

    /** The sender and the device run: any number of their steps. */
    method OthersRun()
      requires Valid()
      modifies this`nextToUse, this`acumPkts, this`sends, this`held, this`resetTriggered, this`sender
      modifies txBufferInfo, sq, sq.entries, sq.bounceBuffers, cq`log, cq.ring
      ensures Valid() && sends >= old(sends) && old(cq.log) <= cq.log && sq.acked == old(sq.acked)
      ensures old(resetTriggered) ==> resetTriggered
    {
      hide Books, SubmissionQueue.IoSq.Valid, CompletionQueue.IoCq.Valid, Slot, Masked, IsDepth;
      var steps: nat := *;
      while steps > 0
        invariant Valid() && sends >= old(sends) && old(cq.log) <= cq.log && sq.acked == old(sq.acked)
        invariant old(resetTriggered) ==> resetTriggered
      {
        if * {
          SenderStep();
        } else {
          cq.DeviceRuns();
        }
        steps := steps - 1;
      }
    }

    /** The others run, then one completion is taken. */
    method CleanNext() returns (more: bool, stray: bool)
      requires Valid()
      modifies Footprint()
      ensures ValidUnless(stray) && nextToClean == old(nextToClean)
      ensures stray ==> more && cq.read > 0 && Named(sender.id, cq.read - 1, cq.read)
      ensures more ==> (Conserved() <==> !stray)
      ensures if more then cq.read == old(cq.read) + 1 && cleans == old(cleans) + 1
              else Stopped(cq.read - old(cq.read)) && cleans == old(cleans)
      ensures !more ==> totalDone == old(totalDone) && unacked == old(unacked) && cleanIdx == old(cleanIdx)
    {
      hide Books, SubmissionQueue.IoSq.Valid, CompletionQueue.IoCq.Valid, Slot, Masked, IsDepth, Conserved, Stopped;
      OthersRun();
      more, stray := CleanOne();
    }

    /**
      `ena_tx_cleanup`, with senders and the device running in between. It takes
      at most the budget of completions, in the device's order, and at the end has
      acknowledged exactly what it cleaned; unless it meets a completion of an id
      that is just being sent (`stray`), where the model stops.
     */
    method TxCleanup() returns (exhausted: bool, stray: bool, ghost acks: nat)
      requires Valid() && totalDone == 0 && unacked == 0 && nextToClean == cleanIdx
      modifies Footprint()
      ensures ValidUnless(stray)
      ensures Conserved() <==> !stray
      ensures stray ==> cq.read > 0 && Named(sender.id, cq.read - 1, cq.read)
      ensures old(cleans) <= cleans <= old(cleans) + 128
      ensures !stray ==> totalDone == 0 && unacked == 0 && nextToClean == cleanIdx
      ensures !stray ==> (exhausted <==> cleans == old(cleans) + 128)
      ensures !stray ==> acks == DivRoundUp(cleans - old(cleans), 32)
      ensures stray || exhausted ==> cq.read == old(cq.read) + (cleans - old(cleans))
      ensures !stray && !exhausted ==> Stopped(cq.read - old(cq.read) - (cleans - old(cleans)))
    {
      hide Books, SubmissionQueue.IoSq.Valid, CompletionQueue.IoCq.Valid, Slot, Masked, IsDepth, Conserved, Stopped;
      var budget, commit, more := ENA_TX_BUDGET, ENA_TX_COMMIT, true;
      stray, acks := false, 0;
      while budget > 0 && more
        invariant Valid() && 0 <= budget <= ENA_TX_BUDGET && 0 < commit <= ENA_TX_COMMIT
        invariant cleans == old(cleans) + (ENA_TX_BUDGET - budget)
        invariant ENA_TX_COMMIT * acks + (ENA_TX_COMMIT - commit) == cleans - old(cleans)
        invariant commit == ENA_TX_COMMIT ==> totalDone == 0 && unacked == 0 && nextToClean == cleanIdx
        invariant more ==> cq.read == old(cq.read) + (cleans - old(cleans))
        invariant !more ==> budget > 0 && Stopped(cq.read - old(cq.read) - (cleans - old(cleans)))
        decreases budget, more
      {
        more, stray := CleanNext();
        if stray {
          return false, true, acks;
        }
        if more {
          commit := commit - 1;
          if commit == 0 {
            commit := ENA_TX_COMMIT;
            Commit();
            acks := acks + 1;
          }
          budget := budget - 1;
        }
      }
      if commit != ENA_TX_COMMIT {
        Commit();
        acks := acks + 1;
      }
      Conservation();
      exhausted := budget == 0;
    }

    /** The device completes a live packet, and the cleaner takes the completion. */
    method CompleteOne(id: nat)
      requires Valid() && sender == Away && cq.read == |cq.log| && id < |held| && held[id] > 0
      modifies this`cleanIdx, this`totalDone, this`cleans, this`held, this`unacked, this`place, this`resetTriggered
      modifies freeTxIds, txBufferInfo, cq, cq.ring
      ensures Valid() && cq.read == |cq.log| && held == old(held)[id := 0] && resetTriggered == old(resetTriggered)
      ensures cleans == old(cleans) + 1
    {
      hide Books, Slot, IsDepth, SubmissionQueue.IoSq.Valid, CompletionQueue.IoCq.Valid, Conserved;
      RoomForCompletion();
      cq.RelyOn(_ => true);
      cq.DeviceCompletes(CompletionQueue.Cdesc(id, 0, 0, true, true, false));
      var _, _ := CleanOne();
    }

    /** The device completes everything in flight, and the cleaner takes it all. */
    method CompleteAll()
      requires Valid() && sender == Away && cq.read == |cq.log|
      modifies this`cleanIdx, this`totalDone, this`cleans, this`held, this`unacked, this`place, this`resetTriggered
      modifies freeTxIds, txBufferInfo, cq, cq.ring
      ensures Valid() && cq.read == |cq.log| && resetTriggered == old(resetTriggered)
      ensures cleans == sends && unacked == sq.submitted - sq.acked
    {
      hide Books, Slot, IsDepth, SubmissionQueue.IoSq.Valid, CompletionQueue.IoCq.Valid, Conserved;
      for id := 0 to ringSize
        invariant Valid() && cq.read == |cq.log| && resetTriggered == old(resetTriggered)
        invariant forall i :: 0 <= i < id ==> held[i] == 0
      {
        AttachedIffHeld(id);
        if txBufferInfo[id].mbuf {
          CompleteOne(id);
        }
      }
      NothingHeld();
    }

    lemma NothingHeld()
      requires Valid() && sender == Away && forall i :: 0 <= i < ringSize ==> held[i] == 0
      ensures cleans == sends && unacked == sq.submitted - sq.acked
    {
      hide Partition, Slot;
      TallyOfZeros(ringSize);
      assert held == seq(ringSize, _ => 0);
    }

    /** The device completes the id up for use, which it was not given, just when a packet is attached to it. */
    method StrayCompletion() returns (id: nat)
      requires Valid() && sender == Away && cq.read == |cq.log|
      modifies this, freeTxIds, txBufferInfo, cq, cq.ring
      ensures sender == Attached(id) && Strayed(id) && resetTriggered == old(resetTriggered)
      ensures cq.log == old(cq.log) + [CompletionQueue.Cdesc(id, 0, 0, true, true, false)]
    {
      hide Books, Slot, IsDepth, SubmissionQueue.IoSq.Valid, CompletionQueue.IoCq.Valid, Conserved;
      id := Attach();
      RoomForCompletion();
      cq.RelyOn(_ => true);
      cq.DeviceCompletes(CompletionQueue.Cdesc(id, 0, 0, true, true, false));
      var _, stray := CleanOne();
    }

    /**
      A run that loses conservation, from any state between packets with nothing
      left to clean. After the stray completion the packet goes out, its id stays
      free, its buffer is gone, and no reset is asked for.
     */
    method StrayRun(mapped: TxCtx) returns (id: nat)
      requires Valid() && sender == Away && cq.read == |cq.log|
      requires sq.MappedData(mapped) && Acceptable(mapped, sq.Free()) && sq.FitsBurst(mapped)
      modifies Footprint()
      ensures FreeAlthoughLive(id) && !Conserved() && resetTriggered == old(resetTriggered)
      ensures cq.log == old(cq.log) + [CompletionQueue.Cdesc(id, 0, 0, true, true, false)]
    {
      hide Books, Slot, IsDepth, EntriesUsed, SendsMeta, Acceptable, FreeAlthoughLive, Conserved;
      hide SubmissionQueue.IoSq.Valid, SubmissionQueue.IoSq.Carries, CompletionQueue.IoCq.Valid;
      hide SubmissionQueue.IoSq.FitsBurst, SubmissionQueue.IoSq.MappedData;
      id := StrayCompletion();
      IdChangesNothing(mapped, id, true);
      var _ := SubmitAttached(mapped.(reqId := id), true);
      RecordStrayed();
      FreeAlthoughLiveIsNotConserved(id);
    }

    lemma RoomForCompletion()
      requires Queues() && cq.read == |cq.log|
      ensures |cq.log| < cq.start + cq.depth
    {
    }
  }

  /** A ring of four entries in host memory, and a packet of one buffer for it. */
  const SMALL_SQ := SqConfig(false, 4, DESC_SIZE, 1, 1, false, 0, false, 96, 48)
  const ONE_BUFFER := TxCtx(ZERO_META, [Buf(0, 64)], None, 0, 0, false, false, NO_OFFLOAD)

  lemma SmallSqIsValid()
    ensures SMALL_SQ.Valid() && IsDepth(4)
  {
    assert Pow2(2) == 4;
  }

  /** The very first packet of a ring can already be lost in this way. */
  method StrayExample() returns (ring: Ring, id: nat)
    ensures fresh(ring) && ring.FreeAlthoughLive(id) && !ring.Conserved() && !ring.resetTriggered
  {
    hide SubmissionQueue.IoSq.Valid, CompletionQueue.IoCq.Valid, IsDepth, Books, Slot, Ring.FreeAlthoughLive;
    hide Ring.Conserved;
    SmallSqIsValid();
    var sq := new SubmissionQueue.IoSq(SMALL_SQ);
    var cq := new CompletionQueue.IoCq(4, false);
    ring := new Ring(sq, cq);
    id := ring.StrayRun(ONE_BUFFER);
  }
}
