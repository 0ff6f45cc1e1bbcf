/**
  The receive ring: refilling it with buffers, and taking back the ids of the
  buffers that packets arrive in. The device completes each posted buffer once.
 */
module RxRing {
  import opened Words
  import opened Tally
  import opened IdRing
  import opened TxWire
  import opened TxDecode
  import SqAccounting
  import SubmissionQueue
  import opened CompletionQueue

  const ENA_RX_DESC_BUDGET: int := 256
  const ENA_RX_REFILL_THRESH_DIVIDER: nat := 8
  const ENA_RX_REFILL_THRESH_PACKET: nat := 256

  /**
    The completions not yet returned name posted buffers, each at most once: the
    device completes each posted buffer once.
   */
  ghost predicate Honest(log: seq<Cdesc>, start: nat, used: seq<nat>) {
    && (forall j :: start <= j < |log| ==> log[j].reqId < |used| && used[log[j].reqId] > 0)
    && (forall j, k :: start <= j < k < |log| ==> log[j].reqId != log[k].reqId)
  }

  /** Ids from..to-1 of the table are free or, in `used`, posted; no more are posted than the queue holds. */
  ghost predicate Books(table: seq<nat>, used: seq<nat>, place: seq<nat>, posted: nat, returned: nat) {
    && |table| > 0
    && Partition(table, posted, returned + |table|, used, place)
    && InUse(used) + returned == posted <= returned + |table| - 1
  }

  /** Distinct ids in use are at most as many as there are ids in use. */
  lemma {:induction false} DistinctIdsInUse(log: seq<Cdesc>, start: nat, used: seq<nat>)
    requires start <= |log| && Honest(log, start, used)
    ensures |log| - start <= InUse(used)
    decreases |log| - start
  {
    if start < |log| {
      var id := log[start].reqId;
      UpdateTally(used, id, 0);
      DistinctIdsInUse(log, start + 1, used[id := 0]);
    }
  }

  lemma {:induction false} BookPost(table: seq<nat>, used: seq<nat>, place: seq<nat>, posted: nat, returned: nat)
    requires Books(table, used, place, posted, returned) && posted < returned + |table| - 1
    ensures var id := table[Slot(|table|, posted)];
            && id < |table| == |used| && used[id] == 0
            && Books(table, used[id := 1], place, posted + 1, returned)
  {
    hide Slot, Phase;
    TakeId(table, posted, returned + |table|, used, place, 1);
    UpdateTally(used, table[Slot(|table|, posted)], 1);
  }

  lemma {:induction false} BookReturn(table: seq<nat>, used: seq<nat>, place: seq<nat>, posted: nat, returned: nat,
                                      id: nat)
    requires Books(table, used, place, posted, returned)
    requires id < |table| && |used| == |place| == |table| && used[id] > 0
    ensures Books(table[Slot(|table|, returned) := id], used[id := 0], place[id := returned + |table|],
                  posted, returned + 1)
  {
    hide Partition, Slot, Phase;
    UpdateTally(used, id, 0);
    LapFlipsPhase(|table|, returned);
    PutId(table, posted, returned + |table|, used, place, id);
  }

  /** Returning the id of the oldest completion leaves the later ones as they were. */
  lemma {:induction false} HonestStep(log: seq<Cdesc>, start: nat, used: seq<nat>)
    requires start < |log| && Honest(log, start, used)
    ensures log[start].reqId < |used| && used[log[start].reqId] > 0
    ensures Honest(log, start + 1, used[log[start].reqId := 0])
  {
  }

  lemma {:induction false} HonestIdsAreGood(log: seq<Cdesc>, start: nat, end: nat, used: seq<nat>)
    requires start <= end <= |log| && Honest(log, start, used)
    ensures GoodIds(log[start..end], |used|)
  {
  }

  function Ids(bufs: seq<RxBuf>): (ids: seq<nat>)
    ensures |ids| == |bufs|
  {
    seq(|bufs|, i requires 0 <= i < |bufs| => bufs[i].reqId)
  }

  /** Returning the ids of the next `n` completions, in order. */
  lemma {:induction false} BookReturnAll(table: seq<nat>, used: seq<nat>, place: seq<nat>, posted: nat, returned: nat,
                                         log: seq<Cdesc>, start: nat, n: nat)
      returns (used': seq<nat>, place': seq<nat>)
    requires Books(table, used, place, posted, returned)
    requires start + n <= |log| && Honest(log, start, used)
    ensures |used'| == |place'| == |table| == |used|
    ensures Books(PutIds(table, returned, Ids(BufsOf(log[start..start + n]))), used', place', posted, returned + n)
    ensures Honest(log, start + n, used')
    ensures forall id :: 0 <= id < |used'| ==> used'[id] <= used[id]
    ensures forall k :: start <= k < start + n && log[k].reqId < |used'| ==> used'[log[k].reqId] == 0
  {
    hide Slot, Books, Honest;
    BooksShape(table, used, place, posted, returned);
    if n == 0 {
      assert Ids(BufsOf(log[start..start + n])) == [];
      used', place' := used, place;
    } else {
      hide BufsOf, Ids, PutIds;
      var m := n - 1;
      var u, p := BookReturnAll(table, used, place, posted, returned, log, start, m);
      var id := log[start + m].reqId;
      var ids := Ids(BufsOf(log[start..start + n]));
      var t := PutIds(table, returned, Ids(BufsOf(log[start..start + m])));
      HonestStep(log, start + m, u);
      BookReturn(t, u, p, posted, returned + m, id);
      IdsOneMore(log, start, m);
      PutOneMore(table, returned, ids);
      used', place' := u[id := 0], p[id := returned + m + |table|];
    }
  }

  lemma BooksShape(table: seq<nat>, used: seq<nat>, place: seq<nat>, posted: nat, returned: nat)
    requires Books(table, used, place, posted, returned)
    ensures 0 < |table| == |used| == |place|
  {
  }

  lemma PutOneMore(table: seq<nat>, hi: nat, ids: seq<nat>)
    requires |table| > 0 && ids != []
    ensures var n := |ids| - 1;
            PutIds(table, hi, ids) == PutIds(table, hi, ids[..n])[Slot(|table|, hi + n) := ids[n]]
  {
  }

  lemma IdsOneMore(log: seq<Cdesc>, start: nat, m: nat)
    requires start + m < |log|
    ensures var ids := Ids(BufsOf(log[start..start + m + 1]));
            ids[..m] == Ids(BufsOf(log[start..start + m])) && ids[m] == log[start + m].reqId
  {
  }

  /** More free entries than this are refilled. */
  function RefillThreshold(ringSize: nat): nat {
    var divided := ringSize / ENA_RX_REFILL_THRESH_DIVIDER;
    if divided < ENA_RX_REFILL_THRESH_PACKET then divided else ENA_RX_REFILL_THRESH_PACKET
  }

  /** Up to an eighth of the ring and 256 entries may stay free. */
  lemma {:induction false} RefillsAbove(ringSize: nat, free: int)
    ensures free <= RefillThreshold(ringSize) <==> 8 * free <= ringSize && free <= 256
  {
    var divided := ringSize / 8;
    assert 8 * divided <= ringSize < 8 * (divided + 1);
  }

  /** How one turn of the receive loop ends. */
  datatype RxStep = Failed | Nothing | MissingMbuf | Received

  class Ring {
    const ringSize: nat
    const maxRxSglSize: nat
    const sq: SubmissionQueue.IoSq
    const cq: IoCq
    const freeRxIds: array<nat>
    /** rx_buffer_info[id].mbuf != NULL */
    const hasMbuf: array<bool>
    /** rx_buffer_info[id].ena_buf */
    const enaBuf: array<Buf>

    var nextToUse: nat
    var nextToClean: nat
    var resetTriggered: bool
    /** Buffers that could not be allocated so far. */
    var allocFailures: nat

    ghost var used: seq<nat>
    ghost var place: seq<nat>
    /** Ids put back into the table. */
    ghost var returned: nat

    ghost function Footprint(): set<object>
    {
      {this, freeRxIds, hasMbuf, enaBuf, sq, sq.entries, sq.bounceBuffers, cq, cq.ring}
    }

    ghost predicate Queues()
      reads sq, sq.entries, sq.bounceBuffers, cq, cq.ring
    {
      && sq.Valid() && !sq.cfg.llq && IsDepth(ringSize)
      && cq.Valid() && cq.Assembling() && cq.Returned()
      && sq.cfg.depth == ringSize == cq.depth
      && 0 <= sq.submitted - sq.acked <= ringSize - 1
    }

    ghost predicate Tables()
      reads this, freeRxIds, sq
    {
      && freeRxIds.Length == hasMbuf.Length == enaBuf.Length == |used| == |place| == ringSize > 0
      && Books(freeRxIds[..], used, place, sq.submitted, returned)
      && nextToUse == Slot(ringSize, sq.submitted)
    }

    ghost predicate Valid()
      reads Footprint()
    {
      Cleaning(nextToClean)
    }

    /** The ring during a cleanup pass, whose own index has moved on to `ntc`. */
    ghost predicate Cleaning(ntc: nat)
      reads Footprint()
    {
      && Queues() && Tables()
      && returned == sq.acked
      && ntc == Slot(ringSize, returned)
      && Honest(cq.log, cq.start, used)
    }

    /** Every posted buffer is there. */
    ghost predicate Backed()
      reads this, hasMbuf
    {
      hasMbuf.Length == |used| && forall id :: 0 <= id < |used| && used[id] > 0 ==> hasMbuf[id]
    }

    constructor (sq: SubmissionQueue.IoSq, cq: IoCq, maxRxSglSize: nat)
      requires sq.Valid() && !sq.cfg.llq && cq.Valid() && cq.Assembling() && cq.Returned()
      requires sq.cfg.depth == cq.depth && sq.submitted == sq.acked == 0 && cq.log == []
      ensures this.sq == sq && this.cq == cq && this.maxRxSglSize == maxRxSglSize && Valid()
      ensures fresh(freeRxIds) && fresh(hasMbuf) && fresh(enaBuf) && !resetTriggered
      ensures forall i :: 0 <= i < hasMbuf.Length ==> !hasMbuf[i]
    {
      var n := sq.cfg.depth;
      this.sq, this.cq, this.maxRxSglSize, ringSize := sq, cq, maxRxSglSize, n;
      freeRxIds := new nat[n](i => i);
      hasMbuf := new bool[n](i => false);
      enaBuf := new Buf[n](i => Buf(0, 0));
      nextToUse, nextToClean, resetTriggered, allocFailures := 0, 0, false, 0;
      used, place, returned := seq(n, _ => 0), seq(n, i => i), 0;
      new;
      DepthBound(n);
      TallyOfZeros(n);
      FreshPartition(n);
      assert freeRxIds[..] == seq(n, i => i);
    }

    /**
      Conservation on receive: posted and free ids are exactly 0..size-1, each
      once; the ring indices are the queue counters modulo the ring size; and the
      device is never a full lap ahead.
     */
    lemma Conservation()
      requires Valid()
      ensures sq.submitted <= returned + ringSize
      ensures var ids := FreeIds(freeRxIds[..], sq.submitted, returned + ringSize);
              && (forall a, b :: 0 <= a < b < |ids| ==> ids[a] != ids[b])
              && (forall a :: 0 <= a < |ids| ==> ids[a] < ringSize)
              && (forall id: nat :: id < ringSize ==> (id in ids <==> used[id] == 0))
              && |ids| + InUse(used) == ringSize
      ensures nextToUse == Masked(sq.tail, ringSize) && nextToClean == Masked(sq.nextToComp, ringSize)
      ensures |cq.log| < cq.start + ringSize
    {
      hide IoCq.Valid, SubmissionQueue.IoSq.Valid, Slot, Masked, IsDepth, Partition;
      PartitionIsExact(freeRxIds[..], sq.submitted, returned + ringSize, used, place);
      IndicesFollow();
      DistinctIdsInUse(cq.log, cq.start, used);
    }

    /** The ring indices are the queue's counters modulo the ring size. */
    lemma IndicesFollow()
      requires Valid()
      ensures nextToUse == Masked(sq.tail, ringSize) && nextToClean == Masked(sq.nextToComp, ringSize)
    {
      hide Books, IoCq.Valid, Slot, Masked;
      CounterSlot(ringSize, sq.submitted);
      CounterSlot(ringSize, returned);
    }

    /** The device receives into a posted buffer that it has not used yet; there is always room to say so. */
    method DeviceReceives(c: Cdesc)
      requires Valid() && Honest(cq.log + [c], cq.start, used)
      modifies cq`log, cq`promise, cq.ring
      ensures Valid() && cq.log == old(cq.log) + [c]
    {
      hide Books, SubmissionQueue.IoSq.Valid, Slot, Phase, IsDepth, Cut, Remainder;
      InUseBound();
      DistinctIdsInUse(cq.log + [c], cq.start, used);
      cq.RelyOn(_ => true);
      cq.DeviceCompletes(c);
      assert cq.log[..cq.start] == old(cq.log[..cq.start]);
    }

    lemma InUseBound()
      requires Tables()
      ensures InUse(used) < ringSize && InUse(used) == sq.submitted - returned
    {
    }

    // -------------------------------------------------------------- refilling

    /** Allocation and mapping of a buffer may fail; a buffer left over from before is used as it is. */
    method AllocRxMbuf(id: nat) returns (ok: bool)
      requires id < hasMbuf.Length == enaBuf.Length
      modifies hasMbuf, enaBuf, this`allocFailures
      ensures allocFailures == old(allocFailures) + if ok then 0 else 1
      ensures ok == hasMbuf[id] && (old(hasMbuf[id]) ==> ok && enaBuf[id] == old(enaBuf[id]))
      ensures OnlyChanges(id, old(hasMbuf[..]), old(enaBuf[..]))
    {
      if hasMbuf[id] {
        return true;
      }
      if * {
        var mapped: Buf := *;
        hasMbuf[id], enaBuf[id] := true, mapped;
        return true;
      }
      allocFailures := allocFailures + 1;
      ok := false;
    }

    /** All buffers but that of one id are the same. */
    ghost predicate OnlyChanges(id: nat, there: seq<bool>, bufs: seq<Buf>)
      reads hasMbuf, enaBuf
    {
      && |there| == hasMbuf.Length == |bufs| == enaBuf.Length
      && forall k :: 0 <= k < |there| && k != id ==> hasMbuf[k] == there[k] && enaBuf[k] == bufs[k]
    }

    /** The ring entry of element n that posts the buffer of an id. */
    ghost function Posting(id: nat, n: nat): SubmissionQueue.Entry
      requires id < enaBuf.Length && sq.cfg.Valid() && ringSize > 0
      reads enaBuf
    {
      var b := enaBuf[id];
      DescBytes(RxDesc(b.len, b.paddr % U32, AddrHi(b.paddr, sq.cfg.dmaAddrBits), id), Phase(ringSize, n))
    }

    /** Posts the buffer of the id at next_to_use. */
    method PostOne(id: nat) returns (rc: SqAccounting.Rc)
      requires Valid() && id == freeRxIds[nextToUse]
      modifies this`nextToUse, this`used, sq`tail, sq`phase, sq`submitted, sq.entries
      ensures Valid() && sq.acked == old(sq.acked) && returned == old(returned)
      ensures rc == if old(sq.Free()) == 0 then SqAccounting.NoSpace else SqAccounting.Ok
      ensures rc == SqAccounting.Ok ==>
                && sq.submitted == old(sq.submitted) + 1
                && id < ringSize && old(used)[id] == 0 && used == old(used)[id := 1]
                && sq.entries[..] == old(sq.entries[..])[Slot(ringSize, old(sq.submitted)) :=
                                                           Posting(id, old(sq.submitted))]
      ensures rc != SqAccounting.Ok ==>
                sq.submitted == old(sq.submitted) && used == old(used) && sq.entries[..] == old(sq.entries[..])
    {
      hide Books, IoCq.Valid, IoCq.Returned, IoCq.Assembling, SubmissionQueue.IoSq.Valid, Slot, Phase, Masked, IsDepth;
      hide Honest, DescBytes, AddrHi;
      FreeIdIsValid();
      rc := sq.AddSingleRxDesc(enaBuf[id], id);
      assert Queues();
      if rc == SqAccounting.Ok {
        RecordPosted(id);
      }
    }

    /** The ring's part of posting. */
    method RecordPosted(id: nat)
      requires Queues() && sq.submitted > 0
      requires freeRxIds.Length == hasMbuf.Length == enaBuf.Length == |used| == |place| == ringSize > 0
      requires Books(freeRxIds[..], used, place, sq.submitted - 1, returned)
      requires nextToUse == Slot(ringSize, sq.submitted - 1) && id == freeRxIds[nextToUse]
      requires returned == sq.acked && nextToClean == Slot(ringSize, returned) && Honest(cq.log, cq.start, used)
      modifies this`nextToUse, this`used
      ensures Valid() && id < ringSize && old(used)[id] == 0 && used == old(used)[id := 1]
    {
      hide Queues, Books, Slot, Phase, Masked, IsDepth, Honest;
      RingDepth();
      BookPost(freeRxIds[..], used, place, sq.submitted - 1, returned);
      HonestGrows(id);
      used := used[id := 1];
      NextSlot(ringSize, sq.submitted - 1);
      nextToUse := Masked(nextToUse + 1, ringSize);
    }

    lemma RingDepth()
      requires Queues()
      ensures IsDepth(ringSize) && sq.submitted - sq.acked <= ringSize - 1
    {
    }

    lemma HonestGrows(id: nat)
      requires Honest(cq.log, cq.start, used) && id < |used|
      ensures Honest(cq.log, cq.start, used[id := 1])
    {
    }

    lemma FreeIdIsValid()
      requires Valid()
      ensures freeRxIds[nextToUse] < ringSize && used[freeRxIds[nextToUse]] == 0
    {
      hide IoCq.Valid, SubmissionQueue.IoSq.Valid;
      TakeId(freeRxIds[..], sq.submitted, returned + ringSize, used, place, 1);
    }

    /** One turn of the refill: makes sure of a buffer for the next id and posts it. */
    method PostNext() returns (ok: bool, noRoom: bool)
      requires Valid()
      modifies this`nextToUse, this`used, this`allocFailures
      modifies sq`tail, sq`phase, sq`submitted, sq.entries, hasMbuf, enaBuf
      ensures Valid() && sq.acked == old(sq.acked) && returned == old(returned)
      ensures sq.submitted == old(sq.submitted) + if ok then 1 else 0
      ensures allocFailures == old(allocFailures) + if ok || noRoom then 0 else 1
      ensures ok ==> old(sq.Free()) > 0
      ensures noRoom ==> !ok && old(sq.Free()) == 0
      ensures OnlyChanges(freeRxIds[old(nextToUse)], old(hasMbuf[..]), old(enaBuf[..]))
      ensures freeRxIds[old(nextToUse)] < ringSize && old(used)[freeRxIds[old(nextToUse)]] == 0
      ensures ok ==>
                && var id := freeRxIds[old(nextToUse)];
                && id < ringSize && hasMbuf[id] && used == old(used)[id := 1]
                && sq.entries[..] == old(sq.entries[..])[Slot(ringSize, old(sq.submitted)) :=
                                                           Posting(id, old(sq.submitted))]
      ensures !ok ==> used == old(used) && sq.entries[..] == old(sq.entries[..])
      ensures old(Backed()) ==> Backed()
    {
      hide Books, IoCq.Valid, IoCq.Returned, IoCq.Assembling, SubmissionQueue.IoSq.Valid, Slot, Phase, IsDepth, Honest;
      hide Posting;
      FreeIdIsValid();
      var id := freeRxIds[nextToUse];
      var backed := AllocRxMbuf(id);
      if !backed {
        return false, false;
      }
      var rc := PostOne(id);
      ok, noRoom := rc == SqAccounting.Ok, rc != SqAccounting.Ok;
    }

    /** The elements from..to-1 of the queue post the ids of their places, each with its own buffer. */
    ghost predicate Posts(from: nat, to: nat)
      reads this, freeRxIds, hasMbuf, enaBuf, sq.entries
    {
      && freeRxIds.Length == hasMbuf.Length == enaBuf.Length == |used| == ringSize == sq.entries.Length > 0
      && sq.cfg.Valid()
      && forall n {:trigger Slot(ringSize, n)} :: from <= n < to ==>
           && var id := freeRxIds[Slot(ringSize, n)];
           && id < ringSize && used[id] > 0 && hasMbuf[id] && sq.entries[Slot(ringSize, n)] == Posting(id, n)
    }

    /**
      A refill that started at element `from`, from these ids in use, buffers and
      ring entries: every element since posts the next free id with that id's own
      buffer, buffers that the device had keep their place, and the other entries
      are as they were.
     */
    ghost predicate Refilled(from: nat, used0: seq<nat>, bufs0: seq<Buf>, entries0: seq<SubmissionQueue.Entry>)
      reads this, freeRxIds, hasMbuf, enaBuf, sq, sq.entries
    {
      && from <= sq.submitted && Posts(from, sq.submitted)
      && |used0| == |bufs0| == |entries0| == ringSize
      && (forall id :: 0 <= id < ringSize && used0[id] > 0 ==> used[id] > 0 && enaBuf[id] == bufs0[id])
      && (forall n {:trigger Slot(ringSize, n)} :: sq.submitted <= n < from + ringSize ==>
            sq.entries[Slot(ringSize, n)] == entries0[Slot(ringSize, n)])
    }

    lemma NothingRefilled()
      requires Valid()
      ensures Refilled(sq.submitted, used, enaBuf[..], sq.entries[..])
    {
    }

    /** One more turn of such a refill. */
    method RefillStep(ghost from: nat, ghost used0: seq<nat>, ghost bufs0: seq<Buf>,
                      ghost entries0: seq<SubmissionQueue.Entry>)
      returns (ok: bool, noRoom: bool)
      requires Valid() && Refilled(from, used0, bufs0, entries0)
      modifies this`nextToUse, this`used, this`allocFailures
      modifies sq`tail, sq`phase, sq`submitted, sq.entries, hasMbuf, enaBuf
      ensures Valid() && sq.acked == old(sq.acked) && returned == old(returned)
      ensures sq.submitted == old(sq.submitted) + if ok then 1 else 0
      ensures allocFailures == old(allocFailures) + if ok || noRoom then 0 else 1
      ensures ok ==> old(sq.Free()) > 0
      ensures noRoom ==> !ok && old(sq.Free()) == 0
      ensures old(Backed()) ==> Backed()
      ensures sq.submitted < from + ringSize ==> Refilled(from, used0, bufs0, entries0)
    {
      hide Books, IoCq.Valid, IoCq.Returned, IoCq.Assembling, SubmissionQueue.IoSq.Valid, Slot, Phase, IsDepth, Honest;
      hide DescBytes, AddrHi;
      FreeIdIsValid();
      ghost var m := sq.submitted;
      ok, noRoom := PostNext();
      OtherSlots(ringSize, m);
    }

    /**
      `ena_refill_rx_bufs`: posts up to `num` buffers and stops early only when
      an allocation fails, as long as no more are asked for than there is room.
     */
    method Refill(num: nat) returns (posted: nat, noRoom: bool)
      requires Valid()
      modifies this`nextToUse, this`used, this`allocFailures
      modifies sq`tail, sq`phase, sq`submitted, sq.entries, sq`entriesInTxBurstLeft, sq`rung, hasMbuf, enaBuf
      ensures posted == num || noRoom || allocFailures > old(allocFailures)
      ensures Valid() && sq.acked == old(sq.acked) && returned == old(returned)
      ensures posted <= num && sq.submitted == old(sq.submitted) + posted
      ensures noRoom ==> num > old(sq.Free())
      ensures posted <= old(sq.Free())
      ensures sq.rung == if posted > 0 then sq.submitted else old(sq.rung)
      ensures old(Backed()) ==> Backed()
      ensures Refilled(old(sq.submitted), old(used), old(enaBuf[..]), old(sq.entries[..]))
    {
      hide Books, IoCq.Valid, IoCq.Returned, IoCq.Assembling, SubmissionQueue.IoSq.Valid, SubmissionQueue.IoSq.Core;
      hide Slot, Phase, IsDepth, Honest, Refilled;
      FreeIsShort();
      NothingRefilled();
      ghost var from, used0, bufs0, entries0 := sq.submitted, used, enaBuf[..], sq.entries[..];
      posted, noRoom := 0, false;
      while posted < num
        invariant Valid() && sq.acked == old(sq.acked) && returned == old(returned)
        invariant posted <= num && sq.submitted == from + posted
        invariant posted <= old(sq.Free()) && !noRoom && allocFailures == old(allocFailures) && sq.rung == old(sq.rung)
        invariant old(Backed()) ==> Backed()
        invariant Refilled(from, used0, bufs0, entries0)
      {
        var ok;
        ok, noRoom := RefillStep(from, used0, bufs0, entries0);
        if !ok {
          break;
        }
        posted := posted + 1;
      }
      if posted != 0 {
        RingDoorbell(from, used0, bufs0, entries0);
      }
    }

    lemma FreeIsShort()
      requires Valid()
      ensures sq.Free() < ringSize
    {
      sq.ValidHasCore();
    }

    method RingDoorbell(ghost from: nat, ghost used0: seq<nat>, ghost bufs0: seq<Buf>,
                        ghost entries0: seq<SubmissionQueue.Entry>)
      requires Valid() && Refilled(from, used0, bufs0, entries0)
      modifies sq`entriesInTxBurstLeft, sq`rung
      ensures Valid() && Refilled(from, used0, bufs0, entries0) && sq.rung == sq.submitted
    {
      hide Books, IoCq.Valid, IoCq.Returned, IoCq.Assembling, SubmissionQueue.IoSq.Valid, SubmissionQueue.IoSq.Core;
      hide Slot, Phase, IsDepth, Honest;
      sq.ValidHasCore();
      var _ := sq.WriteDoorbell();
    }

    /** Posts everything free, if it is more than an eighth of the ring or more than 256 entries. */
    method RefillIfNeeded()
      requires Valid()
      modifies this`nextToUse, this`used, this`allocFailures
      modifies sq`tail, sq`phase, sq`submitted, sq.entries, sq`entriesInTxBurstLeft, sq`rung, hasMbuf, enaBuf
      ensures Valid() && sq.acked == old(sq.acked) && returned == old(returned)
      ensures if 8 * old(sq.Free()) <= ringSize && old(sq.Free()) <= 256 then sq.submitted == old(sq.submitted)
              else sq.submitted == old(sq.submitted) + old(sq.Free()) || allocFailures > old(allocFailures)
      ensures sq.rung == if sq.submitted > old(sq.submitted) then sq.submitted else old(sq.rung)
      ensures old(Backed()) ==> Backed()
      ensures Refilled(old(sq.submitted), old(used), old(enaBuf[..]), old(sq.entries[..]))
    {
      hide Books, IoCq.Valid, IoCq.Returned, IoCq.Assembling, SubmissionQueue.IoSq.Valid, Slot, Phase, IsDepth, Honest;
      hide RefillThreshold, Refilled;
      NothingRefilled();
      FreeIsShort();
      var refillRequired := sq.FreeQEntries();
      RefillsAbove(ringSize, refillRequired);
      if refillRequired > RefillThreshold(ringSize) {
        var posted, noRoom := Refill(refillRequired);
        assert !noRoom;
      }
    }

    // -------------------------------------------------------------- receiving

    /**
      `ena_rx_mbuf`: chains the buffers of a packet and puts their ids back,
      stopping at a buffer that is not there. `k` counts the ids put back.
     */
    method ReceiveMbuf(bufs: seq<RxBuf>, ntc0: nat, ghost hi: nat) returns (ok: bool, ntc: nat, ghost k: nat)
      requires IsDepth(ringSize) && freeRxIds.Length == hasMbuf.Length == ringSize
      requires ntc0 == Slot(ringSize, hi) && forall i :: 0 <= i < |bufs| ==> bufs[i].reqId < ringSize
      modifies this`resetTriggered, freeRxIds, hasMbuf
      ensures k <= |bufs| && (ok <==> k == |bufs|)
      ensures freeRxIds[..] == PutIds(old(freeRxIds[..]), hi, Ids(bufs)[..k])
      ensures forall id :: 0 <= id < ringSize ==> hasMbuf[id] == (old(hasMbuf[id]) && id !in Ids(bufs)[..k])
      ensures if ok then ntc == Slot(ringSize, hi + k) && resetTriggered == old(resetTriggered)
              else ntc == ntc0 && resetTriggered && !hasMbuf[bufs[k].reqId]
    {
      hide Slot, Masked, IsDepth;
      ghost var ids, table := Ids(bufs), freeRxIds[..];
      var i := 0;
      ok, ntc, k := true, ntc0, 0;
      while i < |bufs|
        invariant 0 <= i <= |bufs| && k == i && ntc == Slot(ringSize, hi + i)
        invariant ok && resetTriggered == old(resetTriggered)
        invariant freeRxIds[..] == PutIds(table, hi, ids[..i])
        invariant forall id :: 0 <= id < ringSize ==> hasMbuf[id] == (old(hasMbuf[id]) && id !in ids[..i])
      {
        var id := bufs[i].reqId;
        if !hasMbuf[id] {
          resetTriggered := true;
          return false, ntc0, k;
        }
        hasMbuf[id] := false;
        freeRxIds[ntc] := id;
        assert ids[..i + 1] == ids[..i] + [id];
        NextSlot(ringSize, hi + i);
        ntc := Masked(ntc + 1, ringSize);
        i, k := i + 1, k + 1;
      }
    }

    /** Puts all ids of a packet back, whatever was put back of it before. */
    method ReturnAll(bufs: seq<RxBuf>, ntc0: nat, ghost hi: nat) returns (ntc: nat)
      requires IsDepth(ringSize) && freeRxIds.Length == ringSize && ntc0 == Slot(ringSize, hi)
      modifies freeRxIds
      ensures freeRxIds[..] == PutIds(old(freeRxIds[..]), hi, Ids(bufs))
      ensures ntc == Slot(ringSize, hi + |bufs|)
    {
      hide Slot, Masked, IsDepth;
      ghost var ids, table := Ids(bufs), freeRxIds[..];
      ntc := ntc0;
      var i := 0;
      while i < |bufs|
        invariant 0 <= i <= |bufs| && ntc == Slot(ringSize, hi + i)
        invariant freeRxIds[..] == PutIds(table, hi, ids[..i])
      {
        freeRxIds[ntc] := bufs[i].reqId;
        assert ids[..i + 1] == ids[..i] + [bufs[i].reqId];
        NextSlot(ringSize, hi + i);
        ntc := Masked(ntc + 1, ringSize);
        i := i + 1;
      }
      assert ids[..|bufs|] == ids;
    }

    /** Some buffer of the packet is not there, or is used twice. */
    ghost predicate Missing(there: seq<bool>, bufs: seq<RxBuf>) {
      exists k :: 0 <= k < |bufs| && bufs[k].reqId < |there|
                  && (!there[bufs[k].reqId] || bufs[k].reqId in Ids(bufs)[..k])
    }

    /** Chains the buffers of a packet that has arrived; all its ids go back even when a buffer is missing. */
    method TakeBack(bufs: seq<RxBuf>, ntc0: nat, ghost hi: nat) returns (ok: bool, ntc: nat)
      requires IsDepth(ringSize) && freeRxIds.Length == hasMbuf.Length == ringSize
      requires ntc0 == Slot(ringSize, hi) && forall i :: 0 <= i < |bufs| ==> bufs[i].reqId < ringSize
      modifies this`resetTriggered, freeRxIds, hasMbuf
      ensures freeRxIds[..] == PutIds(old(freeRxIds[..]), hi, Ids(bufs))
      ensures ntc == Slot(ringSize, hi + |bufs|)
      ensures forall id :: 0 <= id < ringSize && id !in Ids(bufs) ==> hasMbuf[id] == old(hasMbuf[id])
      ensures if ok then resetTriggered == old(resetTriggered)
              else resetTriggered && Missing(old(hasMbuf[..]), bufs)
    {
      hide Slot, Masked, IsDepth;
      ghost var ids, table := Ids(bufs), freeRxIds[..];
      ghost var k;
      ok, ntc, k := ReceiveMbuf(bufs, ntc0, hi);
      if ok {
        assert ids[..k] == ids;
      } else {
        assert ids[k] == bufs[k].reqId;
        ntc := ReturnAll(bufs, ntc0, hi);
        PutAgain(table, hi, ids, k);
      }
    }

    /** Returns the ids of the packet that `RxPkt` has just handed over. */
    method RecordReturned(bufs: seq<RxBuf>, ntc0: nat, ghost start: nat) returns (ok: bool, ntc: nat)
      requires Queues() && Tables() && returned == sq.acked && ntc0 == Slot(ringSize, returned)
      requires cq.start == start + |bufs| <= |cq.log| && bufs == BufsOf(cq.log[start..cq.start])
      requires Honest(cq.log, start, used)
      modifies this`resetTriggered, this`used, this`place, this`returned, freeRxIds, hasMbuf
      modifies sq`nextToComp, sq`acked
      ensures Cleaning(ntc) && returned == old(returned) + |bufs|
      ensures old(Backed()) ==> Backed() && ok
      ensures if ok then resetTriggered == old(resetTriggered) else resetTriggered
    {
      hide Books, IoCq.Valid, IoCq.Returned, IoCq.Assembling, SubmissionQueue.IoSq.Valid;
      hide Slot, Phase, Masked, IsDepth, Honest, PutIds, BufsOf;
      ghost var n := |bufs|;
      PacketIsPosted(cq.log, start, n, used, bufs);
      InUseBound();
      sq.CompAck(|bufs|, n);
      assert Queues();
      ok, ntc := TakeBack(bufs, ntc0, returned);
      ghost var u, p := BookReturnAll(old(freeRxIds[..]), used, place, sq.submitted, returned, cq.log, start, n);
      used, place, returned := u, p, returned + n;
    }

    lemma PacketIdsAreGood(start: nat)
      requires Honest(cq.log, start, used) && |used| == cq.depth
      ensures forall end {:trigger cq.log[start..end]} :: start <= end <= |cq.log| ==>
                GoodIds(cq.log[start..end], cq.depth)
    {
      forall end {:trigger cq.log[start..end]} | start <= end <= |cq.log|
        ensures GoodIds(cq.log[start..end], cq.depth)
      {
        HonestIdsAreGood(cq.log, start, end, used);
      }
    }

    /** The next packet of the stream is malformed or has too many buffers. */
    ghost predicate Unacceptable()
      reads cq
    {
      var next := NextPacket(cq.log, cq.checkMbz, cq.start);
      next.Bad? || (next.Complete? && next.end - cq.start > maxRxSglSize)
    }

    /** Polls the completion queue; an honest device stays so while it runs, and names posted buffers only. */
    method PollPacket() returns (rc: CqRc, bufs: seq<RxBuf>)
      requires Queues() && Honest(cq.log, cq.start, used) && |used| == ringSize
      modifies cq, cq.ring
      ensures old(cq.log) <= cq.log && Honest(cq.log, old(cq.start), used)
      ensures rc != Ok ==> cq.start == old(cq.start) && Unacceptable()
      ensures rc == Ok ==>
                && Queues() && cq.start == old(cq.start) + |bufs| <= |cq.log|
                && bufs == BufsOf(cq.log[old(cq.start)..cq.start])
                && cq.packets == if bufs == [] then Cut(cq.log)
                                 else old(cq.packets) + [cq.log[old(cq.start)..cq.start]]
      ensures rc == Ok && bufs == [] ==> cq.packets == old(cq.packets)
      ensures rc == Ok ==> |bufs| <= maxRxSglSize
    {
      hide IoCq.Valid, SubmissionQueue.IoSq.Valid, Slot, Phase, IsDepth, Honest, Cut, Remainder, NextPacket, GoodIds;
      ghost var start, u := cq.start, used;
      cq.RelyOn(log => Honest(log, start, u));
      var pktOffset;
      rc, bufs, pktOffset := cq.RxPkt(maxRxSglSize);
      cq.PromiseKept();
      PacketIdsAreGood(start);
    }

    /** One turn of the receive loop: the next packet, if it is complete, and its ids put back. */
    method ReceivePacket(ntc0: nat) returns (step: RxStep, ntc: nat, bufs: seq<RxBuf>)
      requires Cleaning(ntc0)
      modifies this`resetTriggered, this`used, this`place, this`returned, freeRxIds, hasMbuf
      modifies sq`nextToComp, sq`acked, cq, cq.ring
      ensures old(cq.log) <= cq.log
      ensures step == Failed ==>
                resetTriggered && cq.start == old(cq.start) && Unacceptable()
      ensures step != Failed ==> Cleaning(ntc) && returned - old(returned) == cq.start - old(cq.start) == |bufs|
      ensures step == Nothing ==> cq.packets == old(cq.packets) == Cut(cq.log) && bufs == []
      ensures step == Received || step == MissingMbuf ==>
                && bufs != [] && cq.start <= |cq.log|
                && cq.packets == old(cq.packets) + [cq.log[old(cq.start)..cq.start]]
                && bufs == BufsOf(cq.log[old(cq.start)..cq.start])
      ensures step == MissingMbuf ==> resetTriggered
      ensures step != Failed ==> |bufs| <= maxRxSglSize
      ensures old(Backed()) && step != Failed ==> Backed() && step != MissingMbuf
    {
      hide Books, IoCq.Valid, SubmissionQueue.IoSq.Valid, Slot, Phase, IsDepth, Honest, Cut, Remainder, NextPacket;
      hide BufsOf;
      var rc;
      rc, bufs := PollPacket();
      ntc := ntc0;
      if rc != Ok {
        resetTriggered := true;
        step := Failed;
      } else if bufs == [] {
        step := Nothing;
      } else {
        var ok;
        ok, ntc := RecordReturned(bufs, ntc0, old(cq.start));
        step := if ok then Received else MissingMbuf;
      }
    }

    /**
      The receive loop of `ena_rx_cleanup`: whole packets in the device's order,
      until the budget of descriptors is used up or nothing complete is left.
     */
    method ReceivePackets() returns (ok: bool, exhausted: bool, missing: bool, ntc: nat, delivered: seq<seq<RxBuf>>)
      requires Valid()
      modifies this`resetTriggered, this`used, this`place, this`returned, freeRxIds, hasMbuf
      modifies sq`nextToComp, sq`acked, cq, cq.ring
      ensures ok ==> Cleaning(ntc) && returned - old(returned) == cq.start - old(cq.start)
      ensures ok ==> Delivered(old(cq.packets), delivered, missing)
      ensures !ok || missing ==> resetTriggered
      ensures !ok ==> Unacceptable()
      ensures exhausted ==> ok && cq.start - old(cq.start) >= 256
      ensures ok && cq.start - old(cq.start) >= 256 ==> exhausted || missing
      ensures ok ==> cq.start - old(cq.start) < 256 + maxRxSglSize
      ensures ok && !exhausted && !missing ==> cq.packets == Cut(cq.log)
      ensures ok && old(Backed()) ==> Backed() && !missing
    {
      hide Books, IoCq.Valid, SubmissionQueue.IoSq.Valid, Slot, Phase, IsDepth, Honest, Cut, Remainder, NextPacket;
      hide BufsOf;
      var budget := ENA_RX_DESC_BUDGET;
      ntc, delivered, missing := nextToClean, [], false;
      while budget > 0
        invariant Cleaning(ntc) && returned - old(returned) == cq.start - old(cq.start) && !missing
        invariant Delivered(old(cq.packets), delivered, false)
        invariant budget == ENA_RX_DESC_BUDGET - (cq.start - old(cq.start))
        invariant cq.start - old(cq.start) < ENA_RX_DESC_BUDGET + maxRxSglSize
        invariant old(Backed()) ==> Backed()
      {
        var step, bufs;
        step, ntc, bufs := ReceivePacket(ntc);
        if step == Failed {
          return false, false, false, ntc, delivered;
        }
        if step == Nothing {
          break;
        }
        if step == MissingMbuf {
          missing := true;
          break;
        }
        delivered := delivered + [bufs];
        budget := budget - |bufs|;
      }
      ok, exhausted := true, budget <= 0;
    }

    /** What went up the stack are the packets of the stream, in order, but for a last one that missed a buffer. */
    ghost predicate Delivered(before: seq<seq<Cdesc>>, delivered: seq<seq<RxBuf>>, missing: bool)
      reads cq
    {
      && |cq.packets| == |before| + |delivered| + (if missing then 1 else 0)
      && cq.packets[..|before|] == before
      && forall k :: 0 <= k < |delivered| ==> delivered[k] == BufsOf(cq.packets[|before| + k])
    }

    /**
      `ena_rx_cleanup`: receives, stores the index, and refills when more than an
      eighth of the ring or more than 256 entries are free. Then everything free is
      posted and the device is told, unless an allocation fails.
     */
    method RxCleanup() returns (ok: bool, exhausted: bool, missing: bool, delivered: seq<seq<RxBuf>>)
      requires Valid()
      modifies Footprint()
      ensures ok ==> Valid() && returned - old(returned) == cq.start - old(cq.start)
      ensures ok ==> Delivered(old(cq.packets), delivered, missing)
      ensures !ok || missing ==> resetTriggered
      ensures !ok ==> Unacceptable()
      ensures exhausted ==> ok && cq.start - old(cq.start) >= 256
      ensures ok && cq.start - old(cq.start) >= 256 ==> exhausted || missing
      ensures ok ==> cq.start - old(cq.start) < 256 + maxRxSglSize
      ensures ok && !exhausted && !missing ==> cq.packets == Cut(cq.log)
      ensures ok && old(Backed()) ==> Backed() && !missing
      ensures ok ==>
                && var free := ringSize - 1 - (old(sq.submitted) - returned);
                if 8 * free <= ringSize && free <= 256 then sq.submitted == old(sq.submitted)
                else sq.submitted == old(sq.submitted) + free || allocFailures > old(allocFailures)
      ensures ok ==> (8 * sq.Free() <= ringSize && sq.Free() <= 256) || allocFailures > old(allocFailures)
      ensures ok ==> sq.rung == if sq.submitted > old(sq.submitted) then sq.submitted else old(sq.rung)
    {
      hide Books, IoCq.Valid, IoCq.Returned, IoCq.Assembling, SubmissionQueue.IoSq.Valid, Slot, Phase, IsDepth, Honest;
      hide Cut, BufsOf, Delivered;
      var ntc;
      ok, exhausted, missing, ntc, delivered := ReceivePackets();
      if !ok {
        return;
      }
      nextToClean := ntc;
      RefillIfNeeded();
    }
  }

  /** The buffers of an honest packet are posted ones, all different. */
  lemma {:induction false} PacketIsPosted(log: seq<Cdesc>, start: nat, n: nat, used: seq<nat>, bufs: seq<RxBuf>)
    requires start + n <= |log| && Honest(log, start, used) && bufs == BufsOf(log[start..start + n])
    ensures n <= InUse(used)
    ensures forall i :: 0 <= i < n ==> bufs[i].reqId == log[start + i].reqId < |used| && used[bufs[i].reqId] > 0
    ensures forall i :: 0 <= i < n ==> bufs[i].reqId !in Ids(bufs)[..i]
  {
    DistinctIdsInUse(log, start, used);
  }
}
