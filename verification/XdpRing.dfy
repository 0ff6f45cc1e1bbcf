/**
  The AF_XDP transmit ring. Its completions may come in any order, but packets
  must be released to the socket in the order they were sent. The request ids are
  never permuted: the free id table stays the identity, and the cleaner walks it.

  Frames of length zero are part of the model. Their size of zero marks an idle id,
  so that no completion is accepted for them, and without a meta descriptor they
  hold no entry of the submission queue, which then does not bound them.
 */
module XdpRing {
  import opened Words
  import opened TxWire
  import opened TxDecode
  import opened SqAccounting
  import SubmissionQueue
  import CompletionQueue
  import FlowControl
  import Mapping
  import TxRun

  /** Who gets the packet back: the AF_XDP socket, the owner of an XDP frame, or the network stack. */
  datatype Owner = Socket | Frame | Stack

  /** `struct ena_tx_buffer`; the driver takes a non-zero size for a packet in flight. */
  datatype TxBuffer = TxBuffer(owner: Owner, totalTxSize: nat, txDescs: nat, acked: bool)

  /** A packet in the history of the ring, with the queue entries it holds. */
  datatype Packet = Packet(owner: Owner, size: nat, entries: nat)

  /** A frame of the socket: its bytes and the address the device reads them from. */
  datatype XdpDesc = XdpDesc(dma: nat, data: seq<Byte>)

  function EntriesOf(pkts: seq<Packet>): nat {
    if pkts == [] then 0 else pkts[0].entries + EntriesOf(pkts[1..])
  }

  function SocketPackets(pkts: seq<Packet>): nat {
    if pkts == [] then 0 else SocketPackets(pkts[..|pkts| - 1]) + if pkts[|pkts| - 1].owner == Socket then 1 else 0
  }

  /** Completed packets that are not released. */
  function Acked(info: seq<TxBuffer>): nat {
    if info == [] then 0 else (if info[0].acked then 1 else 0) + Acked(info[1..])
  }

  lemma {:induction false} EntriesOfLast(pkts: seq<Packet>, p: Packet)
    ensures EntriesOf(pkts + [p]) == EntriesOf(pkts) + p.entries
  {
    if pkts == [] {
      assert pkts + [p] == [p];
    } else {
      EntriesOfLast(pkts[1..], p);
      assert (pkts + [p])[1..] == pkts[1..] + [p];
    }
  }

  lemma {:induction false} EntriesGrow(before: seq<Packet>, sent: seq<Packet>, from: nat, c: nat)
    requires from <= c <= |before| <= |sent| && before == sent[..|before|]
    ensures EntriesOf(sent[from..c]) == EntriesOf(before[from..c])
    ensures c < |sent| ==> EntriesOf(sent[from..c + 1]) == EntriesOf(before[from..c]) + sent[c].entries
  {
    assert sent[from..c] == before[from..c];
    if c < |sent| {
      EntriesOfLast(sent[from..c], sent[c]);
      assert sent[from..c + 1] == sent[from..c] + [sent[c]];
    }
  }

  lemma {:induction false} EntriesAtLeastOneEach(pkts: seq<Packet>)
    requires AllHold(pkts)
    ensures |pkts| <= EntriesOf(pkts)
  {
    if pkts != [] {
      EntriesAtLeastOneEach(pkts[1..]);
    }
  }

  lemma {:induction false} AckedAfter(info: seq<TxBuffer>, i: nat, x: TxBuffer)
    requires i < |info|
    ensures Acked(info[i := x]) == Acked(info) + (if x.acked then 1 else 0) - (if info[i].acked then 1 else 0)
  {
    if i == 0 {
      assert info[i := x][1..] == info[1..];
    } else {
      AckedAfter(info[1..], i - 1, x);
      assert info[i := x][1..] == info[1..][i - 1 := x];
    }
  }

  lemma {:induction false} AckedSame(a: seq<TxBuffer>, b: seq<TxBuffer>)
    requires |a| == |b| && forall i :: 0 <= i < |a| ==> a[i].acked == b[i].acked
    ensures Acked(a) == Acked(b)
  {
    if a != [] {
      AckedSame(a[1..], b[1..]);
    }
  }

  /** The record of a packet in flight; only one with bytes can be marked as completed. */
  predicate Matches(x: TxBuffer, p: Packet) {
    && x.owner == p.owner && x.totalTxSize == p.size
    && x.txDescs % U16 == p.entries % U16
    && (p.size > 0 ==> p.entries > 0) && (x.acked ==> p.size > 0)
  }

  predicate Idle(x: TxBuffer) {
    x.owner == Socket && x.totalTxSize == 0 && !x.acked
  }

  /** All packets have bytes. */
  predicate NoneEmpty(pkts: seq<Packet>) {
    forall k :: 0 <= k < |pkts| ==> pkts[k].size > 0
  }

  /** Packets with bytes hold entries of the submission queue; all do if each comes with a meta descriptor. */
  predicate AllCharged(pkts: seq<Packet>, meta: bool) {
    forall k :: 0 <= k < |pkts| && (pkts[k].size > 0 || meta) ==> pkts[k].entries > 0
  }

  lemma ChargedLast(sent: seq<Packet>, cleans: nat, pkt: Packet, meta: bool)
    requires cleans <= |sent| && AllCharged(sent[cleans..], meta) && (pkt.size > 0 || meta ==> pkt.entries > 0)
    ensures AllCharged((sent + [pkt])[cleans..], meta)
  {
    assert (sent + [pkt])[cleans..] == sent[cleans..] + [pkt];
  }

  lemma ChargedRest(sent: seq<Packet>, cleans: nat, meta: bool)
    requires cleans < |sent| && AllCharged(sent[cleans..], meta)
    ensures AllCharged(sent[cleans + 1..], meta)
  {
    assert sent[cleans + 1..] == sent[cleans..][1..];
  }

  /** All packets hold entries of the submission queue. */
  predicate AllHold(pkts: seq<Packet>) {
    forall k :: 0 <= k < |pkts| ==> pkts[k].entries > 0
  }

  /**
    The packets cleans..|sent|-1 are in flight, packet p under id p modulo the
    ring size; all other ids are idle. The outstanding entries are those of
    packets in flight plus those released but not acknowledged.
   */
  ghost predicate Books(q: nat, info: seq<TxBuffer>, sent: seq<Packet>, cleans: nat, outstanding: int, unacked: nat) {
    && |info| == q > 0 && cleans <= |sent| <= cleans + q
    && (forall p {:trigger Slot(q, p)} :: cleans <= p < cleans + q ==>
          if p < |sent| then Matches(info[Slot(q, p)], sent[p]) else Idle(info[Slot(q, p)]))
    && EntriesOf(sent[cleans..]) + unacked == outstanding <= q - 1
  }

  /** When each of them holds an entry, fewer packets are in flight than there are ids. */
  lemma {:induction false} RoomForOne(q: nat, info: seq<TxBuffer>, sent: seq<Packet>, cleans: nat, outstanding: int,
                                      unacked: nat)
    requires Books(q, info, sent, cleans, outstanding, unacked) && AllHold(sent[cleans..])
    ensures |sent| + unacked <= cleans + outstanding && Idle(info[Slot(q, |sent|)])
  {
    EntriesAtLeastOneEach(sent[cleans..]);
  }

  /** A packet sent under an id that is left; its record keeps the cleared mark of the idle one. */
  lemma {:induction false} BookSend(q: nat, info: seq<TxBuffer>, sent: seq<Packet>, cleans: nat, outstanding: int,
                                    unacked: nat, owner: Owner, descs: nat, pkt: Packet)
    requires Books(q, info, sent, cleans, outstanding, unacked) && |sent| < cleans + q
    requires pkt.owner == owner && descs % U16 == pkt.entries % U16 && (pkt.size > 0 ==> pkt.entries > 0)
    requires outstanding + pkt.entries <= q - 1
    ensures var n := Slot(q, |sent|);
            Books(q, info[n := TxBuffer(owner, pkt.size, descs, info[n].acked)], sent + [pkt], cleans,
                  outstanding + pkt.entries, unacked)
  {
    EntriesOfLast(sent[cleans..], pkt);
    assert (sent + [pkt])[cleans..] == sent[cleans..] + [pkt];
    var n := |sent|;
    forall p {:trigger Slot(q, p)} | cleans <= p < cleans + q && p != n ensures Slot(q, p) != Slot(q, n) {
      SlotsDistinct(q, if p < n then p else n, if p < n then n else p);
    }
  }

  lemma {:induction false} BookMark(q: nat, info: seq<TxBuffer>, sent: seq<Packet>, cleans: nat, outstanding: int,
                                    unacked: nat, id: nat)
    requires Books(q, info, sent, cleans, outstanding, unacked) && id < q && info[id].totalTxSize != 0
    ensures Books(q, info[id := info[id].(acked := true)], sent, cleans, outstanding, unacked)
  {
  }

  /** What the cleaner finds completed at its index is the oldest packet in flight, and not an empty one. */
  lemma {:induction false} BookRelease(q: nat, info: seq<TxBuffer>, sent: seq<Packet>, cleans: nat, outstanding: int,
                                       unacked: nat, id: nat)
    requires Books(q, info, sent, cleans, outstanding, unacked)
    requires id == Slot(q, cleans) && info[id].acked
    ensures cleans < |sent| && Matches(info[id], sent[cleans]) && sent[cleans].size > 0
    ensures Books(q, info[id := TxBuffer(Socket, 0, info[id].txDescs, false)], sent, cleans + 1, outstanding,
                  unacked + sent[cleans].entries)
  {
    LapFlipsPhase(q, cleans);
    assert sent[cleans..][1..] == sent[cleans + 1..];
    OtherSlots(q, cleans);
  }

  /**
    A pass of the cleaner that started at packet `from`, when `before` were sent
    and the ids were marked as in `was`: the packets from..cleans-1 were all
    marked and are released, none of them empty, and the marks of the others are
    as they were.
   */
  ghost predicate Released(q: nat, was: seq<TxBuffer>, info: seq<TxBuffer>, before: seq<Packet>, sent: seq<Packet>,
                           from: nat, cleans: nat, unacked: nat) {
    && |was| == |info| == q > 0
    && |before| <= |sent| && before == sent[..|before|]
    && from <= cleans <= |before| <= from + q
    && unacked == EntriesOf(sent[from..cleans]) && cleans - from <= unacked
    && (forall p :: from <= p < cleans ==> sent[p].size > 0)
    && (forall p {:trigger Slot(q, p)} :: from <= p < cleans ==> was[Slot(q, p)].acked)
    && (forall p {:trigger Slot(q, p)} :: cleans <= p < from + q ==> info[Slot(q, p)].acked == was[Slot(q, p)].acked)
    && (forall p {:trigger Slot(q, p)} :: from <= p < from + q && was[Slot(q, p)].acked ==> p < |before|)
  }

  /** Packets sent meanwhile change nothing. */
  lemma {:induction false} ReleasedSame(q: nat, was: seq<TxBuffer>, info: seq<TxBuffer>, info': seq<TxBuffer>,
                                        before: seq<Packet>, sent: seq<Packet>, sent': seq<Packet>,
                                        from: nat, cleans: nat, unacked: nat)
    requires Released(q, was, info, before, sent, from, cleans, unacked)
    requires |sent| <= |sent'| && sent == sent'[..|sent|] && |info'| == q
    requires forall id :: 0 <= id < q ==> info'[id].acked == info[id].acked
    ensures Released(q, was, info', before, sent', from, cleans, unacked)
  {
    hide Slot;
    EntriesGrow(sent, sent', from, cleans);
    assert before == sent'[..|before|];
  }

  /** The packet at the cleaner's index is released. */
  lemma {:induction false} ReleasedMore(q: nat, was: seq<TxBuffer>, info: seq<TxBuffer>, info': seq<TxBuffer>,
                                        before: seq<Packet>, sent: seq<Packet>, sent': seq<Packet>,
                                        from: nat, cleans: nat, unacked: nat)
    requires Released(q, was, info, before, sent, from, cleans, unacked) && cleans < from + q
    requires |sent| <= |sent'| && sent == sent'[..|sent|] && |info'| == q && info[Slot(q, cleans)].acked
    requires forall id :: 0 <= id < q ==> info'[id].acked == (info[id].acked && id != Slot(q, cleans))
    requires cleans < |sent'| && sent'[cleans].size > 0 && sent'[cleans].entries > 0
    ensures Released(q, was, info', before, sent', from, cleans + 1, unacked + sent'[cleans].entries)
  {
    hide Slot;
    EntriesGrow(sent, sent', from, cleans);
    OtherSlots(q, cleans);
    assert before == sent'[..|before|];
  }

  /** A pass releases fewer packets than there are ids, because each held an entry. */
  lemma {:induction false} ReleasedFewer(q: nat, was: seq<TxBuffer>, info: seq<TxBuffer>, before: seq<Packet>,
                                         sent: seq<Packet>, from: nat, cleans: nat, unacked: nat)
    requires Released(q, was, info, before, sent, from, cleans, unacked) && unacked < q
    ensures cleans < from + q && info[Slot(q, cleans)].acked == was[Slot(q, cleans)].acked
  {
  }

  /** The transmit context of a frame: the start of it pushed as far as it fits, the rest in one buffer. */
  function FrameCtx(cfg: SqConfig, maxHeader: nat, d: XdpDesc, reqId: nat): TxCtx {
    var pushLen := if !cfg.llq then 0 else if |d.data| < maxHeader then |d.data| else maxHeader;
    var size := |d.data| - pushLen;
    TxCtx(ZERO_META, if size > 0 then [Buf(d.dma + pushLen, size)] else [],
          if cfg.llq then Some(d.data) else None, pushLen, reqId, false, false, NO_OFFLOAD)
  }

  // ---------------------------------------------------------------- frames and bytes

  /** The frame's bytes are in memory where the device reads them. */
  predicate InMemory(mem: seq<Byte>, d: XdpDesc) {
    d.dma + |d.data| <= |mem| && mem[d.dma..d.dma + |d.data|] == d.data
  }

  /** As much as possible is pushed, a buffer is there for the rest alone, and no offload is asked for. */
  lemma {:induction false} HeaderFirst(cfg: SqConfig, maxHeader: nat, d: XdpDesc, reqId: nat)
    ensures var ctx := FrameCtx(cfg, maxHeader, d, reqId);
            && |PushedHeader(cfg, ctx)| == ctx.headerLen <= (if cfg.llq then maxHeader else 0)
            && |ctx.bufs| == (if |d.data| > ctx.headerLen then 1 else 0)
            && (ctx.bufs != [] && cfg.llq ==> ctx.headerLen == maxHeader)
            && ctx.reqId == reqId && !ctx.metaValid && !ctx.df && ctx.offload == NO_OFFLOAD
  {
  }

  /** Through one buffer in memory the device reads its bytes. */
  lemma ReadOne(mem: seq<Byte>, b: Buf)
    requires b.paddr + b.len <= |mem|
    ensures Mapping.Read(mem, [b]) == mem[b.paddr..b.paddr + b.len]
  {
    assert [b][..0] == [];
  }

  lemma RestInMemory(mem: seq<Byte>, d: XdpDesc, push: nat)
    requires InMemory(mem, d) && push <= |d.data|
    ensures mem[d.dma + push..d.dma + |d.data|] == d.data[push..]
    ensures d.data[..push] + d.data[push..] == d.data
  {
    assert mem[d.dma..d.dma + |d.data|][push..] == mem[d.dma + push..d.dma + |d.data|];
  }

  /** The pushed header and what the device reads through the buffers are the frame, every byte once and in order. */
  lemma {:induction false} CtxIsFrame(cfg: SqConfig, maxHeader: nat, mem: seq<Byte>, d: XdpDesc, reqId: nat)
    requires InMemory(mem, d)
    ensures var ctx := FrameCtx(cfg, maxHeader, d, reqId);
            PushedHeader(cfg, ctx) + Mapping.Read(mem, ctx.bufs) == d.data
  {
    hide Mapping.Read;
    var ctx := FrameCtx(cfg, maxHeader, d, reqId);
    var push := ctx.headerLen;
    RestInMemory(mem, d, push);
    if push < |d.data| {
      ReadOne(mem, ctx.bufs[0]);
    } else {
      Mapping.NoBufferReadsNothing(mem);
    }
  }

  /** What a device has of a packet: the pushed bytes and those it reads through the buffers. */
  function BytesOf(mem: seq<Byte>, v: View): seq<Byte> {
    v.pushed + Mapping.Read(mem, v.bufs)
  }

  /** What the reader finds of a frame leads to the frame's bytes, in any memory the device can address. */
  lemma {:induction false} ViewIsFrame(cfg: SqConfig, maxHeader: nat, mem: seq<Byte>, d: XdpDesc, reqId: nat)
    requires cfg.Valid() && maxHeader < 256 && InMemory(mem, d) && 0 < |d.data| < U16 && reqId < U16
    requires |mem| <= Pow2(cfg.dmaAddrBits)
    ensures BytesOf(mem, WireView(cfg, FrameCtx(cfg, maxHeader, d, reqId), cfg.disableMetaCaching)) == d.data
  {
    hide Pow2, PushedHeader;
    var ctx := FrameCtx(cfg, maxHeader, d, reqId);
    CtxIsFrame(cfg, maxHeader, mem, d, reqId);
    BufsOnTheWire(cfg, ctx, cfg.disableMetaCaching);
    Mapping.NoBufferReadsNothing(mem);
  }

  /** The contexts of the frames that have bytes; the k-th frame goes under the id of packet first + k. */
  function CtxsOf(cfg: SqConfig, maxHeader: nat, q: nat, first: nat, frames: seq<XdpDesc>): (ctxs: seq<TxCtx>)
    requires q > 0
  {
    if frames == [] then []
    else
      var n := |frames| - 1;
      CtxsOf(cfg, maxHeader, q, first, frames[..n])
      + if |frames[n].data| > 0 then [FrameCtx(cfg, maxHeader, frames[n], Slot(q, first + n))] else []
  }

  /** The bytes of the frames that have any, in order. */
  function Payloads(frames: seq<XdpDesc>): seq<seq<Byte>> {
    if frames == [] then []
    else
      var n := |frames| - 1;
      Payloads(frames[..n]) + if |frames[n].data| > 0 then [frames[n].data] else []
  }

  function AllBytes(mem: seq<Byte>, received: seq<TxRun.Received>): (r: seq<seq<Byte>>)
    ensures |r| == |received|
  {
    seq(|received|, i requires 0 <= i < |received| => BytesOf(mem, received[i].view))
  }

  /** A run of frames is received as the frames' bytes, in order. */
  lemma {:induction false} ReceivedAreFrames(cfg: SqConfig, maxHeader: nat, q: nat, first: nat, cached: Meta,
                                             stored: Meta, mem: seq<Byte>, frames: seq<XdpDesc>)
    requires cfg.Valid() && maxHeader < 256 && 0 < q <= 0x8000 && |mem| <= Pow2(cfg.dmaAddrBits)
    requires forall k :: 0 <= k < |frames| ==> InMemory(mem, frames[k]) && |frames[k].data| < U16
    ensures AllBytes(mem, TxRun.ExpectedRun(cfg, cached, stored, CtxsOf(cfg, maxHeader, q, first, frames)))
            == Payloads(frames)
  {
    var ctxs := CtxsOf(cfg, maxHeader, q, first, frames);
    CtxsAreFrames(cfg, maxHeader, q, first, mem, frames);
    var r := TxRun.ExpectedRun(cfg, cached, stored, ctxs);
    forall i | 0 <= i < |r| ensures BytesOf(mem, r[i].view) == Payloads(frames)[i] {
      FramesHaveNoMeta(cfg, cached, ctxs, i);
    }
  }

  /** Each of the contexts leads to its frame's bytes. */
  lemma {:induction false} CtxsAreFrames(cfg: SqConfig, maxHeader: nat, q: nat, first: nat, mem: seq<Byte>,
                                         frames: seq<XdpDesc>)
    requires cfg.Valid() && maxHeader < 256 && 0 < q <= 0x8000 && |mem| <= Pow2(cfg.dmaAddrBits)
    requires forall k :: 0 <= k < |frames| ==> InMemory(mem, frames[k]) && |frames[k].data| < U16
    ensures var ctxs := CtxsOf(cfg, maxHeader, q, first, frames);
            && |ctxs| == |Payloads(frames)|
            && forall i :: 0 <= i < |ctxs| ==>
                 && !ctxs[i].metaValid
                 && BytesOf(mem, WireView(cfg, ctxs[i], cfg.disableMetaCaching)) == Payloads(frames)[i]
  {
    hide Slot, Pow2, WireView, BytesOf, InMemory;
    if frames != [] {
      var n := |frames| - 1;
      CtxsAreFrames(cfg, maxHeader, q, first, mem, frames[..n]);
      if |frames[n].data| > 0 {
        ViewIsFrame(cfg, maxHeader, mem, frames[n], Slot(q, first + n));
      }
    }
  }

  lemma FrameIsSendable(cfg: SqConfig, maxHeader: nat, d: XdpDesc, reqId: nat)
    requires 0 < |d.data| < U16 && maxHeader < 256 && reqId < U16
    requires cfg.llq ==> DESC_SIZE * cfg.descsBeforeHeader + maxHeader <= cfg.lineSize
    ensures Sendable(cfg, FrameCtx(cfg, maxHeader, d, reqId))
  {
  }

  predicate AllSendable(cfg: SqConfig, ctxs: seq<TxCtx>) {
    forall i :: 0 <= i < |ctxs| ==> Sendable(cfg, ctxs[i])
  }

  lemma {:induction false} CtxsAreSendable(cfg: SqConfig, maxHeader: nat, q: nat, first: nat, frames: seq<XdpDesc>)
    requires 0 < q <= 0x8000 && maxHeader < 256 && forall k :: 0 <= k < |frames| ==> |frames[k].data| < U16
    requires cfg.llq ==> DESC_SIZE * cfg.descsBeforeHeader + maxHeader <= cfg.lineSize
    ensures AllSendable(cfg, CtxsOf(cfg, maxHeader, q, first, frames))
    decreases |frames|
  {
    hide Slot, FrameCtx;
    if frames != [] {
      var n := |frames| - 1;
      var ctxs, head := CtxsOf(cfg, maxHeader, q, first, frames), CtxsOf(cfg, maxHeader, q, first, frames[..n]);
      CtxsAreSendable(cfg, maxHeader, q, first, frames[..n]);
      if |frames[n].data| > 0 {
        FrameIsSendable(cfg, maxHeader, frames[n], Slot(q, first + n));
        assert ctxs == head + [FrameCtx(cfg, maxHeader, frames[n], Slot(q, first + n))];
      } else {
        assert ctxs == head;
      }
    }
  }

  /** Without meta data of its own, a packet has a meta descriptor exactly when caching is disabled. */
  lemma {:induction false} FramesHaveNoMeta(cfg: SqConfig, cached: Meta, pkts: seq<TxCtx>, i: nat)
    requires i < |pkts| && forall k :: 0 <= k < |pkts| ==> !pkts[k].metaValid
    ensures WireMetas(cfg, cached, pkts)[i].Some? == cfg.disableMetaCaching
    decreases |pkts|
  {
    if i > 0 {
      FramesHaveNoMeta(cfg, NextCachedMeta(cfg, cached, pkts[0]), pkts[1..], i - 1);
    }
  }

  // ---------------------------------------------------------------- frames and ids

  /** The frames that one call of the sending loop may take. */
  function Within(pool: seq<XdpDesc>, budget: nat): (frames: seq<XdpDesc>)
    ensures |frames| == if |pool| <= budget then |pool| else budget
  {
    if |pool| <= budget then pool else pool[..budget]
  }

  /** The entries that a frame takes; it never has meta data of its own. */
  function FrameUses(cfg: SqConfig, maxHeader: nat, d: XdpDesc): nat
    requires cfg.Valid()
  {
    EntriesUsed(cfg, FrameCtx(cfg, maxHeader, d, 0), cfg.disableMetaCaching)
  }

  /** The burst budget that a frame finds. */
  function FrameBudget(cfg: SqConfig, maxHeader: nat, left: nat, d: XdpDesc): nat
    requires cfg.Valid()
  {
    BudgetFor(cfg, ZERO_META, left, FrameCtx(cfg, maxHeader, d, 0))
  }

  function LeftOf(budget: nat, used: nat): nat {
    if used <= budget then budget - used else 0
  }

  /** How many of the frames are sent with `free` entries free and `left` of the burst budget left. */
  function FramesSent(cfg: SqConfig, maxHeader: nat, sglSize: nat, free: int, left: nat, frames: seq<XdpDesc>): nat
    requires cfg.Valid()
    decreases |frames|
  {
    if frames == [] || !EnoughSpace(cfg, free, sglSize + 2) then 0
    else
      var used, budget := FrameUses(cfg, maxHeader, frames[0]), FrameBudget(cfg, maxHeader, left, frames[0]);
      if cfg.HasBurst() && budget < used then 0
      else 1 + FramesSent(cfg, maxHeader, sglSize, free - used, LeftOf(budget, used), frames[1..])
  }

  predicate Allowed(d: XdpDesc, empty: bool) {
    |d.data| < U16 && (empty || |d.data| > 0)
  }

  /**
    The ids suffice for all frames, or for all but the empty ones. When each
    packet in flight holds an entry, `free` free entries mean at least free + 1
    ids left.
   */
  ghost predicate IdsSuffice(cfg: SqConfig, maxHeader: nat, sglSize: nat, empty: bool)
    requires cfg.Valid()
  {
    forall free: nat, left: nat, frames: seq<XdpDesc> ::
      free < cfg.depth && (forall k :: 0 <= k < |frames| ==> Allowed(frames[k], empty)) ==>
        FramesSent(cfg, maxHeader, sglSize, free, left, frames) <= free + 1
  }

  /** A frame holds an entry exactly when it has bytes or comes with a meta descriptor. */
  lemma {:induction false} FrameHoldsEntryIff(cfg: SqConfig, maxHeader: nat, d: XdpDesc)
    requires cfg.Valid()
    ensures FrameUses(cfg, maxHeader, d) > 0 <==> |d.data| > 0 || cfg.disableMetaCaching
  {
    hide EntriesUsed, IsDepth;
    EntriesUsedAnyId(cfg, FrameCtx(cfg, maxHeader, d, 0), cfg.disableMetaCaching, 0);
  }

  /** A frame that there is room for takes no more entries than are free. */
  lemma {:induction false} FrameFits(cfg: SqConfig, maxHeader: nat, sglSize: nat, free: int, d: XdpDesc)
    requires cfg.Valid() && EnoughSpace(cfg, free, sglSize + 2)
    ensures FrameUses(cfg, maxHeader, d) <= free
  {
    hide EntriesUsed, EnoughSpace, IsDepth;
    var ctx := FrameCtx(cfg, maxHeader, d, 0);
    FlowControl.EnoughSpaceMonotone(cfg, free, sglSize + 2, free, |ctx.bufs| + 1);
    SpaceCheckSound(cfg, ctx, cfg.disableMetaCaching, free);
  }

  /** Frames that hold entries are never more than the free entries. */
  lemma {:induction false} HoldingFramesFit(cfg: SqConfig, maxHeader: nat, sglSize: nat, free: nat, left: nat,
                                            frames: seq<XdpDesc>)
    requires cfg.Valid() && forall k :: 0 <= k < |frames| ==> |frames[k].data| > 0 || cfg.disableMetaCaching
    ensures FramesSent(cfg, maxHeader, sglSize, free, left, frames) <= free
    decreases |frames|
  {
    hide FrameUses, FrameBudget, EnoughSpace, IsDepth;
    if frames != [] && EnoughSpace(cfg, free, sglSize + 2) {
      var used, budget := FrameUses(cfg, maxHeader, frames[0]), FrameBudget(cfg, maxHeader, left, frames[0]);
      FrameHoldsEntryIff(cfg, maxHeader, frames[0]);
      FrameFits(cfg, maxHeader, sglSize, free, frames[0]);
      HoldingFramesFit(cfg, maxHeader, sglSize, free - used, LeftOf(budget, used), frames[1..]);
    }
  }

  /** Empty frames that hold no entry are all sent, however many there are. */
  lemma {:induction false} EmptyFramesAllSent(cfg: SqConfig, maxHeader: nat, sglSize: nat, free: int, left: nat, n: nat)
    requires cfg.Valid() && !cfg.disableMetaCaching && EnoughSpace(cfg, free, sglSize + 2)
    ensures FramesSent(cfg, maxHeader, sglSize, free, left, seq(n, _ => XdpDesc(0, []))) == n
    decreases n
  {
    hide FrameUses, FrameBudget, EnoughSpace, IsDepth;
    if n > 0 {
      var d := XdpDesc(0, []);
      FrameHoldsEntryIff(cfg, maxHeader, d);
      EmptyFramesAllSent(cfg, maxHeader, sglSize, free, LeftOf(FrameBudget(cfg, maxHeader, left, d), 0), n - 1);
      assert seq(n, _ => d)[1..] == seq(n - 1, _ => d);
    }
  }

  /**
    The ids suffice, whatever frames are sent, if and only if meta caching is
    disabled, or empty frames are excluded, or the queue is so small that it never
    has room for a frame.
   */
  lemma {:induction false} IdsSufficeIff(cfg: SqConfig, maxHeader: nat, sglSize: nat, empty: bool)
    requires cfg.Valid()
    ensures IdsSuffice(cfg, maxHeader, sglSize, empty)
            <==> cfg.disableMetaCaching || !empty || !EnoughSpace(cfg, cfg.depth - 1, sglSize + 2)
  {
    hide FramesSent, EnoughSpace, IsDepth;
    DepthBound(cfg.depth);
    if cfg.disableMetaCaching || !empty {
      forall free: nat, left: nat, frames: seq<XdpDesc> |
        free < cfg.depth && forall k :: 0 <= k < |frames| ==> Allowed(frames[k], empty)
        ensures FramesSent(cfg, maxHeader, sglSize, free, left, frames) <= free + 1
      {
        HoldingFramesFit(cfg, maxHeader, sglSize, free, left, frames);
      }
    } else if EnoughSpace(cfg, cfg.depth - 1, sglSize + 2) {
      var frames := seq(cfg.depth + 1, _ => XdpDesc(0, []));
      EmptyFramesAllSent(cfg, maxHeader, sglSize, cfg.depth - 1, 0, cfg.depth + 1);
      assert FramesSent(cfg, maxHeader, sglSize, cfg.depth - 1, 0, frames) > cfg.depth;
    } else {
      forall free: nat, left: nat, frames: seq<XdpDesc> | free < cfg.depth
        ensures FramesSent(cfg, maxHeader, sglSize, free, left, frames) == 0
      {
        NoRoomNothingSent(cfg, maxHeader, sglSize, free, left, frames);
      }
    }
  }

  lemma {:induction false} NoRoomNothingSent(cfg: SqConfig, maxHeader: nat, sglSize: nat, free: nat, left: nat,
                                             frames: seq<XdpDesc>)
    requires cfg.Valid() && free < cfg.depth && !EnoughSpace(cfg, cfg.depth - 1, sglSize + 2)
    ensures FramesSent(cfg, maxHeader, sglSize, free, left, frames) == 0
  {
    hide EnoughSpace, IsDepth;
    if EnoughSpace(cfg, free, sglSize + 2) {
      FlowControl.EnoughSpaceMonotone(cfg, free, sglSize + 2, cfg.depth - 1, sglSize + 2);
    }
  }

  /** A submission queue before a run: its entries, the count submitted and the cached meta data. */
  datatype Before = Before(ring: seq<SubmissionQueue.Entry>, first: nat, cached: Meta)

  class Ring {
    const ringSize: nat
    const sglSize: nat
    const txMaxHeaderSize: nat
    const sq: SubmissionQueue.IoSq
    const cq: CompletionQueue.IoCq
    const freeIds: array<nat>
    const txBufferInfo: array<TxBuffer>

    var nextToUse: nat
    var nextToClean: nat
    var resetTriggered: bool
    /** Frames reported to the socket as sent, ever. */
    var xskCompleted: nat

    /** The cleaner's local index, and its counts of the pass. */
    var cleanIdx: nat
    var totalDone: nat
    var zcPkts: nat

    /** The history: every packet ever sent, in order; the first `cleans` are released. */
    var sent: seq<Packet>
    var cleans: nat
    ghost var unacked: nat

    ghost function Footprint(): set<object>
    {
      {this, freeIds, txBufferInfo, sq, sq.entries, sq.bounceBuffers, cq, cq.ring}
    }

    ghost predicate Queues()
      reads sq, sq.entries, sq.bounceBuffers, cq, cq.ring
    {
      && sq.Valid() && sq.cfg.Valid() && cq.Valid() && cq.start == cq.read
      && sq.cfg.depth == ringSize == cq.depth
      && 0 <= sq.submitted - sq.acked <= ringSize - 1
      && txMaxHeaderSize < 256 && txMaxHeaderSize <= sq.cfg.txMaxHeaderSize
      && (sq.cfg.llq ==> DESC_SIZE * sq.cfg.descsBeforeHeader + txMaxHeaderSize <= sq.cfg.lineSize)
    }

    /** The free id table is the identity. */
    ghost predicate Identity()
      reads freeIds
    {
      freeIds.Length == ringSize && forall i :: 0 <= i < ringSize ==> freeIds[i] == i
    }

    ghost predicate Indexed()
      reads this`nextToUse, this`cleanIdx, this`totalDone, this`unacked, this`sent, this`cleans
      reads this`zcPkts, this`xskCompleted
    {
      && txBufferInfo.Length == ringSize > 0
      && cleans <= |sent|
      && nextToUse == Slot(ringSize, |sent|)
      && cleanIdx == Slot(ringSize, cleans)
      && totalDone % U16 == unacked % U16
      && xskCompleted + zcPkts == SocketPackets(sent[..cleans])
      && Charged()
    }

    /** Packets with bytes hold entries of the queue, and all do where each comes with a meta descriptor. */
    ghost predicate Charged()
      reads this`sent, this`cleans
    {
      cleans <= |sent| && AllCharged(sent[cleans..], sq.cfg.disableMetaCaching)
    }

    ghost predicate Valid()
      reads Footprint()
    {
      && Queues() && Identity() && Indexed()
      && Books(ringSize, txBufferInfo[..], sent, cleans, sq.submitted - sq.acked, unacked)
    }

    /** Between passes of the cleaner. */
    ghost predicate Resting()
      reads this
    {
      totalDone == 0 && zcPkts == 0 && unacked == 0 && nextToClean == cleanIdx
    }

    constructor (sq: SubmissionQueue.IoSq, cq: CompletionQueue.IoCq, sglSize: nat, txMaxHeaderSize: nat)
      requires sq.Valid() && cq.Valid() && sq.cfg.depth == cq.depth
      requires sq.submitted == sq.acked == 0 && cq.start == cq.read
      requires txMaxHeaderSize < 256 && txMaxHeaderSize <= sq.cfg.txMaxHeaderSize
      requires sq.cfg.llq ==> DESC_SIZE * sq.cfg.descsBeforeHeader + txMaxHeaderSize <= sq.cfg.lineSize
      ensures this.sq == sq && this.cq == cq && this.sglSize == sglSize && this.txMaxHeaderSize == txMaxHeaderSize
      ensures Valid() && Resting() && sent == [] && fresh(freeIds) && fresh(txBufferInfo) && !resetTriggered
    {
      var n := sq.cfg.depth;
      this.sq, this.cq, ringSize := sq, cq, n;
      this.sglSize, this.txMaxHeaderSize := sglSize, txMaxHeaderSize;
      freeIds := new nat[n](i => i);
      txBufferInfo := new TxBuffer[n](i => TxBuffer(Socket, 0, 0, false));
      nextToUse, nextToClean, cleanIdx, totalDone, zcPkts, xskCompleted := 0, 0, 0, 0, 0, 0;
      resetTriggered := false;
      sent, cleans, unacked := [], 0, 0;
      new;
      DepthBound(n);
    }

    /** An id is left, so that the next packet does not take that of one in flight. */
    predicate IdLeft()
      reads this`sent, this`cleans
    {
      |sent| < cleans + ringSize
    }

    /** Every packet in flight holds an entry of the submission queue. */
    ghost predicate AllHoldInFlight()
      reads this`sent, this`cleans
    {
      cleans <= |sent| && AllHold(sent[cleans..])
    }

    /** No frame of length zero is in flight. */
    ghost predicate NoneEmptyInFlight()
      reads this`sent, this`cleans
    {
      cleans <= |sent| && NoneEmpty(sent[cleans..])
    }

    /** What makes packets in flight hold entries: meta data with every packet, or no empty frames. */
    lemma WhenAllHold()
      requires Charged() && (sq.cfg.disableMetaCaching || NoneEmptyInFlight())
      ensures AllHoldInFlight()
    {
    }

    /**
      At most as many packets are in flight as there are ids, and the socket has
      heard of every released frame. If an id is left, the one up for use is idle;
      one is always left as long as every packet in flight holds an entry.
     */
    lemma InFlight()
      requires Valid()
      ensures cleans <= |sent| <= cleans + ringSize
      ensures nextToUse < ringSize && freeIds[nextToUse] == nextToUse
      ensures IdLeft() ==> Idle(txBufferInfo[nextToUse])
      ensures AllHoldInFlight() ==> IdLeft()
      ensures (sq.tail - sq.nextToComp) % U16 == EntriesOf(sent[cleans..]) + unacked
      ensures Resting() ==> xskCompleted == SocketPackets(sent[..cleans])
    {
      if AllHoldInFlight() {
        RoomForOne(ringSize, txBufferInfo[..], sent, cleans, sq.submitted - sq.acked, unacked);
      }
      DepthBound(ringSize);
      CounterDistance(sq.submitted, sq.acked);
    }

    /** As long as every packet in flight holds an entry, more ids are left than entries are free. */
    lemma IdsLeft()
      requires Valid() && AllHoldInFlight()
      ensures |sent| + sq.Free() + 1 <= cleans + ringSize
    {
      hide SubmissionQueue.IoSq.Valid, CompletionQueue.IoCq.Valid, Slot, EntriesOf, AllHold;
      RoomForOne(ringSize, txBufferInfo[..], sent, cleans, sq.submitted - sq.acked, unacked);
    }

    // -------------------------------------------------------------- sending

    /**
      The ring as the senders know it: they do not look whether an id is left. The
      books are in order unless more packets are in flight than there are ids.
     */
    ghost predicate Sending()
      reads Footprint()
    {
      && Queues() && Identity() && txBufferInfo.Length == ringSize > 0
      && Charged() && nextToUse == Slot(ringSize, |sent|)
      && (|sent| <= cleans + ringSize ==> Valid())
    }

    /** Rings the doorbell first if the packet seems to need it. */
    method RingDoorbellIfNeeded(ctx: TxCtx)
      requires sq.Valid()
      modifies sq`entriesInTxBurstLeft, sq`rung
      ensures sq.Valid()
      ensures sq.cfg.HasBurst() ==> sq.entriesInTxBurstLeft == old(sq.BudgetFor(ctx))
    {
      hide PredictedEntries;
      var needed := DoorbellNeeded(sq.cfg, sq.cachedMeta, sq.entriesInTxBurstLeft, ctx);
      if needed {
        var _ := sq.WriteDoorbell();
      }
    }

    /** The verdict on a mapped packet: the space, the header's length, and the budget it finds. */
    ghost predicate Accepts(ctx: TxCtx)
      requires sq.cfg.Valid()
      reads sq
    {
      && PassesSpaceCheck(sq.cfg, ctx, sq.Free()) && ctx.headerLen <= sq.cfg.txMaxHeaderSize
      && (sq.cfg.HasBurst() ==> sq.Uses(ctx) <= sq.BudgetFor(ctx))
    }

    /** `ena_xmit_common` for the packet of any owner, under the id at next_to_use. */
    method XmitCommon(owner: Owner, ctx: TxCtx, bytes: nat) returns (rc: Rc)
      requires Sending() && sq.Mapped(ctx) && ctx.reqId == freeIds[nextToUse] && (bytes > 0 <==> !ctx.MetaOnly())
      modifies this`nextToUse, this`resetTriggered, this`sent, txBufferInfo, sq, sq.entries, sq.bounceBuffers
      ensures sq.Core() && sq.acked == old(sq.acked)
      ensures rc == Ok <==> old(Accepts(ctx))
      ensures rc == NoMem <==> !PassesSpaceCheck(sq.cfg, ctx, old(sq.Free()))
      ensures rc == Inval <==> PassesSpaceCheck(sq.cfg, ctx, old(sq.Free())) && ctx.headerLen > sq.cfg.txMaxHeaderSize
      ensures rc in {Ok, NoMem, Inval, NoSpace}
      ensures rc != NoSpace ==> Sending()
      ensures rc == Ok ==>
                && sent == old(sent) + [Packet(owner, bytes, old(sq.Uses(ctx)))]
                && sq.submitted == old(sq.submitted) + old(sq.Uses(ctx))
                && (sq.cfg.HasBurst() ==> sq.entriesInTxBurstLeft == old(sq.BudgetFor(ctx)) - old(sq.Uses(ctx)))
                && sq.Carries(old(sq.entries[..]), old(sq.submitted), old(sq.cachedMeta), ctx)
      ensures rc == Ok ==> sq.cachedMeta == NextCachedMeta(sq.cfg, old(sq.cachedMeta), ctx)
      ensures rc != Ok ==> sent == old(sent) && txBufferInfo[..] == old(txBufferInfo[..])
      ensures resetTriggered == (old(resetTriggered) || (rc != Ok && rc != NoMem))
      ensures forall id :: 0 <= id < ringSize ==> txBufferInfo[id].acked == old(txBufferInfo[id].acked)
    {
      hide Books, PacketChunks, PushedHeader, Slot, Phase, IsDepth, EntriesUsed, SqAccounting.BudgetFor;
      hide SendsMeta, PassesSpaceCheck, SubmissionQueue.IoSq.Mapped, NoneEmpty;
      hide SubmissionQueue.IoSq.Valid, SubmissionQueue.IoSq.Carries, CompletionQueue.IoCq.Valid, SocketPackets;
      sq.AnyId(ctx, ctx.reqId);
      var w := sq.Uses(ctx);
      var nbHwDesc;
      rc, nbHwDesc := PreparePacket(ctx);
      if rc == Ok {
        assert Queues();
        RecordSent(owner, bytes, nbHwDesc, w);
      } else if rc != NoMem {
        resetTriggered := true;
      }
    }

    /** The submission queue's part of sending. */
    method PreparePacket(ctx: TxCtx) returns (rc: Rc, nbHwDesc: int)
      requires sq.Valid() && sq.cfg.Valid() && sq.Mapped(ctx)
      modifies sq, sq.entries, sq.bounceBuffers
      ensures sq.Core() && sq.acked == old(sq.acked)
      ensures rc == Ok <==> old(Accepts(ctx))
      ensures rc == NoMem <==> !PassesSpaceCheck(sq.cfg, ctx, old(sq.Free()))
      ensures rc == Inval <==> PassesSpaceCheck(sq.cfg, ctx, old(sq.Free())) && ctx.headerLen > sq.cfg.txMaxHeaderSize
      ensures rc in {Ok, NoMem, Inval, NoSpace}
      ensures rc != NoSpace ==> sq.Valid() && sq.submitted - sq.acked <= sq.cfg.depth - 1
      ensures rc == Ok ==>
                && sq.submitted == old(sq.submitted) + old(sq.Uses(ctx)) && nbHwDesc % U16 == old(sq.Uses(ctx)) % U16
                && (sq.cfg.HasBurst() ==> sq.entriesInTxBurstLeft == old(sq.BudgetFor(ctx)) - old(sq.Uses(ctx)))
                && sq.Carries(old(sq.entries[..]), old(sq.submitted), old(sq.cachedMeta), ctx)
      ensures rc in {NoMem, Inval} ==> sq.submitted == old(sq.submitted)
      ensures rc == Ok ==> sq.cachedMeta == NextCachedMeta(sq.cfg, old(sq.cachedMeta), ctx)
    {
      hide PacketChunks, PushedHeader, Slot, Phase, IsDepth, EntriesUsed, SqAccounting.BudgetFor;
      hide SendsMeta, PassesSpaceCheck, SubmissionQueue.IoSq.Mapped;
      hide SubmissionQueue.IoSq.Valid, SubmissionQueue.IoSq.Carries;
      RingDoorbellIfNeeded(ctx);
      rc, nbHwDesc := sq.Submit(ctx);
    }

    method RecordSent(owner: Owner, bytes: nat, nbHwDesc: int, w: nat)
      requires Queues() && Identity() && txBufferInfo.Length == ringSize > 0
      requires Charged() && nextToUse == Slot(ringSize, |sent|)
      requires (bytes > 0 || sq.cfg.disableMetaCaching ==> w > 0) && nbHwDesc % U16 == w % U16
      requires IdLeft() ==>
                 Indexed() && Books(ringSize, txBufferInfo[..], sent, cleans, sq.submitted - sq.acked - w, unacked)
      modifies this`nextToUse, this`sent, txBufferInfo
      ensures Sending() && sent == old(sent) + [Packet(owner, bytes, w)]
      ensures forall id :: 0 <= id < ringSize ==> txBufferInfo[id].acked == old(txBufferInfo[id].acked)
    {
      hide Books, Queues, Identity, Slot, Masked, IsDepth, SocketPackets, AllCharged;
      UnsignedKeepsLow16(nbHwDesc);
      RingDepth();
      var pkt := Packet(owner, bytes, w);
      ChargedLast(sent, cleans, pkt, sq.cfg.disableMetaCaching);
      if IdLeft() {
        BookSend(ringSize, txBufferInfo[..], sent, cleans, sq.submitted - sq.acked - w, unacked,
                 owner, nbHwDesc % U32, pkt);
      }
      NextSlot(ringSize, |sent|);
      assert (sent + [pkt])[..cleans] == sent[..cleans];
      StoreRecord(owner, bytes, nbHwDesc % U32);
      nextToUse := Masked(nextToUse + 1, ringSize);
      sent := sent + [pkt];
    }

    /** The writes to the record at next_to_use; the mark of a completion is not among them. */
    method StoreRecord(owner: Owner, bytes: nat, descs: nat)
      requires nextToUse < txBufferInfo.Length
      modifies txBufferInfo
      ensures txBufferInfo[..] == old(txBufferInfo[..])[nextToUse :=
                                    TxBuffer(owner, bytes, descs, old(txBufferInfo[nextToUse].acked))]
    {
      var x := txBufferInfo[nextToUse];
      txBufferInfo[nextToUse] := x.(owner := owner, totalTxSize := bytes, txDescs := descs);
    }

    /** The context of a frame, whatever its request id. */
    function CtxOf(d: XdpDesc): TxCtx {
      FrameCtx(sq.cfg, txMaxHeaderSize, d, 0)
    }

    /** Frames never have meta data of their own. */
    predicate FrameFitsBurst(d: XdpDesc)
      requires sq.cfg.Valid()
    {
      SqAccounting.FitsBurst(sq.cfg, CtxOf(d), sq.cfg.disableMetaCaching)
    }

    lemma FrameIsMapped(d: XdpDesc, reqId: nat)
      requires sq.Core() && Queues() && |d.data| < U16 && reqId < U16 && EnoughSpace(sq.cfg, sq.Free(), sglSize + 2)
      ensures var ctx := FrameCtx(sq.cfg, txMaxHeaderSize, d, reqId);
              && sq.Mapped(ctx) && ctx.reqId == reqId && !ctx.metaValid && (|d.data| > 0 <==> !ctx.MetaOnly())
              && PassesSpaceCheck(sq.cfg, ctx, sq.Free()) && ctx.headerLen <= sq.cfg.txMaxHeaderSize
              && sq.Uses(ctx) == sq.Uses(CtxOf(d)) && sq.BudgetFor(ctx) == sq.BudgetFor(CtxOf(d))
      ensures FrameFitsBurst(d) && sq.cfg.HasBurst() ==> sq.Uses(CtxOf(d)) <= sq.BudgetFor(CtxOf(d))
    {
      hide EntriesUsed, SqAccounting.FitsBurst, SqAccounting.BudgetFor, EnoughSpace, IsDepth;
      hide SubmissionQueue.IoSq.Valid, CompletionQueue.IoCq.Valid;
      var ctx := CtxOf(d);
      FlowControl.EnoughSpaceMonotone(sq.cfg, sq.Free(), sglSize + 2, sq.Free(), |ctx.bufs| + 1);
      sq.AnyId(ctx, reqId);
      if FrameFitsBurst(d) && sq.cfg.HasBurst() {
        sq.FindsItsBudget(ctx);
      }
    }

    /** Sends one frame of the socket, which there is room for: it fails exactly when its burst budget is short. */
    method XmitFrame(d: XdpDesc) returns (rc: Rc)
      requires Sending() && |d.data| < U16 && EnoughSpace(sq.cfg, sq.Free(), sglSize + 2)
      modifies this`nextToUse, this`resetTriggered, this`sent, txBufferInfo, sq, sq.entries, sq.bounceBuffers
      ensures sq.Core() && sq.acked == old(sq.acked) && rc in {Ok, NoSpace}
      ensures rc == Ok <==> (sq.cfg.HasBurst() ==> old(sq.Uses(CtxOf(d))) <= old(sq.BudgetFor(CtxOf(d))))
      ensures rc != Ok ==> !FrameFitsBurst(d) && sent == old(sent)
      ensures rc == Ok ==> sq.cachedMeta == old(sq.cachedMeta)
      ensures rc == Ok ==>
                && Sending() && sent == old(sent) + [Packet(Socket, |d.data|, old(sq.Uses(CtxOf(d))))]
                && sq.submitted == old(sq.submitted) + old(sq.Uses(CtxOf(d)))
                && (sq.cfg.HasBurst() ==>
                      sq.entriesInTxBurstLeft == old(sq.BudgetFor(CtxOf(d))) - old(sq.Uses(CtxOf(d))))
                && sq.Carries(old(sq.entries[..]), old(sq.submitted), old(sq.cachedMeta),
                              FrameCtx(sq.cfg, txMaxHeaderSize, d, old(freeIds[nextToUse])))
    {
      hide Books, PacketChunks, PushedHeader, Slot, Phase, IsDepth, EntriesUsed, SendsMeta, EnoughSpace;
      hide FrameCtx, FrameFitsBurst, SqAccounting.BudgetFor, SubmissionQueue.IoSq.Mapped, PassesSpaceCheck;
      hide SubmissionQueue.IoSq.Valid, SubmissionQueue.IoSq.Carries, CompletionQueue.IoCq.Valid, SocketPackets;
      RingDepth();
      var reqId := freeIds[nextToUse];
      FrameIsMapped(d, reqId);
      rc := XmitCommon(Socket, FrameCtx(sq.cfg, txMaxHeaderSize, d, reqId), |d.data|);
    }

    lemma RingDepth()
      requires Queues()
      ensures sq.Core() && IsDepth(ringSize) && 1 <= ringSize <= 0x8000
      ensures sq.submitted - sq.acked <= ringSize - 1
    {
      DepthBound(ringSize);
    }

    /** With room for two descriptors in front of the header, every frame is one line. */
    lemma OneLineFitsBurst(d: XdpDesc)
      requires sq.cfg.Valid() && sq.cfg.descsBeforeHeader != 1
      ensures FrameFitsBurst(d)
    {
      hide EntriesUsed;
      EntriesUsedCount(sq.cfg, CtxOf(d), sq.cfg.disableMetaCaching);
    }

    /** The packets sent after `before` are the first `n` frames of the pool, in order. */
    ghost predicate Sends(before: seq<Packet>, pool: seq<XdpDesc>, n: nat)
      reads this`sent
    {
      && n <= |pool| && |sent| == |before| + n && before == sent[..|before|]
      && forall p :: |before| <= p < |sent| ==> sent[p].owner == Socket && sent[p].size == |pool[p - |before|].data|
    }

    /** The entries and the budget of a frame do not depend on the meta data that is cached. */
    lemma FrameCost(d: XdpDesc)
      requires sq.cfg.Valid()
      ensures sq.Uses(CtxOf(d)) == FrameUses(sq.cfg, txMaxHeaderSize, d)
      ensures sq.BudgetFor(CtxOf(d)) == FrameBudget(sq.cfg, txMaxHeaderSize, sq.entriesInTxBurstLeft, d)
    {
      hide EntriesUsed, SqAccounting.BudgetFor, IsDepth;
      AnyCachedMeta(sq.cfg, sq.cachedMeta, sq.entriesInTxBurstLeft, CtxOf(d));
    }

    /** The frames sent in all when `n` of them are sent already. */
    ghost function SentInAll(frames: seq<XdpDesc>, n: nat, free: int, left: nat): nat
      requires sq.cfg.Valid() && n <= |frames|
    {
      n + FramesSent(sq.cfg, txMaxHeaderSize, sglSize, free, left, frames[n..])
    }

    lemma SentStep(frames: seq<XdpDesc>, n: nat, free: int, left: nat)
      requires sq.cfg.Valid() && n <= |frames|
      ensures n == |frames| || !EnoughSpace(sq.cfg, free, sglSize + 2) ==> SentInAll(frames, n, free, left) == n
      ensures n < |frames| && EnoughSpace(sq.cfg, free, sglSize + 2) ==>
                var d := frames[n];
                var used := FrameUses(sq.cfg, txMaxHeaderSize, d);
                var budget := FrameBudget(sq.cfg, txMaxHeaderSize, left, d);
                SentInAll(frames, n, free, left)
                == if sq.cfg.HasBurst() && budget < used then n
                   else SentInAll(frames, n + 1, free - used, LeftOf(budget, used))
    {
      hide FrameUses, FrameBudget, EnoughSpace, IsDepth;
      if n < |frames| {
        assert frames[n..][1..] == frames[n + 1..];
      }
    }

    /**
      The sending loop; `failed` when a frame finds too little of the burst budget.
      It sends as many frames as `FramesSent` says.
     */
    method XmitFrames(pool: seq<XdpDesc>, budget: nat) returns (workDone: nat, failed: bool)
      requires Valid() && forall k :: 0 <= k < |pool| ==> |pool[k].data| < U16
      modifies this`nextToUse, this`resetTriggered, this`sent, txBufferInfo, sq, sq.entries, sq.bounceBuffers
      ensures workDone <= budget && workDone <= |pool| && Sends(old(sent), pool, workDone) && sq.Core()
      ensures workDone == FramesSent(sq.cfg, txMaxHeaderSize, sglSize, old(sq.Free()), old(sq.entriesInTxBurstLeft),
                                     Within(pool, budget))
      ensures failed ==> workDone < |pool| && !FrameFitsBurst(pool[workDone])
      ensures !failed ==> Sending() && (AllHoldInFlight() ==> IdLeft()) && sq.acked == old(sq.acked)
      ensures !failed && Whole(pool[..workDone]) ==>
                RanFrames(Before(old(sq.entries[..]), old(sq.submitted), old(sq.cachedMeta)), |old(sent)|,
                          pool[..workDone])
      ensures !failed && workDone < budget && workDone < |pool| ==> !EnoughSpace(sq.cfg, sq.Free(), sglSize + 2)
    {
      hide Books, Queues, Identity, Slot, Phase, IsDepth, EnoughSpace, SocketPackets, FramesSent, AllHold, Sends;
      hide FrameFitsBurst, RanFrames, Whole;
      workDone, failed := 0, false;
      StartsSending();
      QueueIsValid();
      ghost var frames, left := Within(pool, budget), sq.entriesInTxBurstLeft;
      ghost var all := SentInAll(frames, 0, sq.Free(), left);
      assert frames[0..] == frames;
      sq.ValidHasCore();
      NothingSent(pool);
      ghost var at := Before(sq.entries[..], sq.submitted, sq.cachedMeta);
      while workDone < budget
        invariant Sending() && (AllHoldInFlight() ==> IdLeft()) && sq.Valid() && sq.acked == old(sq.acked)
        invariant workDone <= |frames| && Sends(old(sent), pool, workDone)
        invariant Whole(pool[..workDone]) ==> RanFrames(at, |old(sent)|, pool[..workDone])
        invariant sq.cfg.HasBurst() ==> left == sq.entriesInTxBurstLeft
        invariant SentInAll(frames, workDone, sq.Free(), left) == all
      {
        var enough := sq.HaveEnoughSpace(sglSize + 2);
        if !enough || workDone == |pool| {
          SentStep(frames, workDone, sq.Free(), left);
          sq.ValidHasCore();
          return;
        }
        var rc;
        rc, left := XmitNext(pool, workDone, frames, left, old(sent), at);
        if rc != Ok {
          return workDone, true;
        }
        QueueIsValid();
        workDone := workDone + 1;
      }
      SentStep(frames, workDone, sq.Free(), left);
      sq.ValidHasCore();
    }

    lemma WholeParts(pool: seq<XdpDesc>, n: nat)
      requires n < |pool| && Whole(pool[..n + 1])
      ensures Whole(pool[..n]) && (|pool[n].data| > 0 || !sq.cfg.disableMetaCaching)
    {
      assert pool[..n + 1][..n] == pool[..n] && pool[..n + 1][n] == pool[n];
    }

    lemma NothingSent(pool: seq<XdpDesc>)
      requires ringSize > 0 && sq.cfg.Valid() && sq.entries.Length == sq.cfg.depth
      ensures Sends(sent, pool, 0)
      ensures RanFrames(Before(sq.entries[..], sq.submitted, sq.cachedMeta), |sent|, pool[..0])
    {
    }

    lemma QueueIsValid()
      requires Queues()
      ensures sq.Valid() && sq.cfg.Valid()
    {
    }

    /** Every frame comes with a descriptor that ends its packet, or with no entry at all. */
    predicate Whole(frames: seq<XdpDesc>) {
      sq.cfg.disableMetaCaching ==> forall k :: 0 <= k < |frames| ==> |frames[k].data| > 0
    }

    /** Since the queue was at `at`, whose next id was that of packet `m`, the run of these frames was written. */
    ghost predicate RanFrames(at: Before, m: nat, frames: seq<XdpDesc>)
      reads sq`cachedMeta, sq`submitted, sq.entries
    {
      ringSize > 0
      && TxRun.Ran(sq, at.ring, at.first, at.cached, CtxsOf(sq.cfg, txMaxHeaderSize, ringSize, m, frames))
    }

    lemma RanOneFrame(at: Before, m: nat, frames: seq<XdpDesc>, d: XdpDesc,
                      entries: seq<SubmissionQueue.Entry>, submitted: nat, cachedMeta: Meta)
      requires ringSize > 0 && (|d.data| > 0 || !sq.cfg.disableMetaCaching) && sq.cachedMeta == cachedMeta
      requires TxRun.HoldsRun(sq.cfg, entries, submitted, cachedMeta, at.ring, at.first, at.cached,
                              CtxsOf(sq.cfg, txMaxHeaderSize, ringSize, m, frames))
      requires sq.Carries(entries, submitted, cachedMeta,
                          FrameCtx(sq.cfg, txMaxHeaderSize, d, Slot(ringSize, m + |frames|)))
      ensures RanFrames(at, m, frames + [d])
    {
      hide TxRun.HoldsRun, Slot, SubmissionQueue.IoSq.Carries;
      var ctx := FrameCtx(sq.cfg, txMaxHeaderSize, d, Slot(ringSize, m + |frames|));
      var pkts := CtxsOf(sq.cfg, txMaxHeaderSize, ringSize, m, frames);
      assert (frames + [d])[..|frames|] == frames;
      if |d.data| > 0 {
        TxRun.RanOneMore(sq, at.ring, at.first, at.cached, pkts, ctx, entries, submitted, cachedMeta);
      } else {
        TxRun.RanNothing(sq, at.ring, at.first, at.cached, pkts, ctx, entries, submitted, cachedMeta);
        assert pkts + [] == pkts;
      }
    }

    lemma NextId()
      requires Sending()
      ensures freeIds[nextToUse] == Slot(ringSize, |sent|)
    {
      hide Queues, Slot;
    }

    /** Frame n of the pool, which there is room for. */
    method XmitNext(pool: seq<XdpDesc>, n: nat, ghost frames: seq<XdpDesc>, ghost left: nat, ghost before: seq<Packet>,
                    ghost at: Before)
      returns (rc: Rc, ghost left': nat)
      requires Sending() && (AllHoldInFlight() ==> IdLeft()) && Sends(before, pool, n)
      requires Whole(pool[..n]) ==> RanFrames(at, |before|, pool[..n])
      requires n < |frames| <= |pool| && frames[n] == pool[n] && |pool[n].data| < U16
      requires EnoughSpace(sq.cfg, sq.Free(), sglSize + 2) && (sq.cfg.HasBurst() ==> left == sq.entriesInTxBurstLeft)
      modifies this`nextToUse, this`resetTriggered, this`sent, txBufferInfo, sq, sq.entries, sq.bounceBuffers
      ensures rc != Ok ==>
                && sq.Core() && Sends(before, pool, n) && !FrameFitsBurst(pool[n])
                && SentInAll(frames, n, old(sq.Free()), left) == n
      ensures sq.acked == old(sq.acked)
      ensures rc == Ok ==>
                && Sending() && (AllHoldInFlight() ==> IdLeft()) && Sends(before, pool, n + 1)
                && (sq.cfg.HasBurst() ==> left' == sq.entriesInTxBurstLeft)
                && SentInAll(frames, n + 1, sq.Free(), left') == SentInAll(frames, n, old(sq.Free()), left)
                && (Whole(pool[..n + 1]) ==> RanFrames(at, |before|, pool[..n + 1]))
    {
      hide Books, SubmissionQueue.IoSq.Valid, CompletionQueue.IoCq.Valid, Slot, Phase, IsDepth, EnoughSpace;
      hide SocketPackets, FramesSent, FrameUses, FrameBudget, AllHold, EntriesUsed, SqAccounting.BudgetFor;
      hide FrameCtx, FrameFitsBurst, SubmissionQueue.IoSq.Carries, Identity, SentInAll;
      hide TxRun.HoldsRun;
      ghost var sent0 := sent;
      ghost var entries, submitted, cachedMeta := sq.entries[..], sq.submitted, sq.cachedMeta;
      SentStep(frames, n, sq.Free(), left);
      FrameCost(pool[n]);
      NextId();
      left' := NextLeft(pool[n], left);
      rc := XmitFrame(pool[n]);
      if rc == Ok {
        IdStillLeft(sent0);
        if Whole(pool[..n + 1]) {
          WholeParts(pool, n);
          RanOneFrame(at, |before|, pool[..n], pool[n], entries, submitted, cachedMeta);
          assert pool[..n + 1] == pool[..n] + [pool[n]];
        }
      }
    }

    /** What is left of the burst budget after a frame. */
    ghost function NextLeft(d: XdpDesc, left: nat): nat
      requires sq.cfg.Valid()
    {
      LeftOf(FrameBudget(sq.cfg, txMaxHeaderSize, left, d), FrameUses(sq.cfg, txMaxHeaderSize, d))
    }

    lemma StartsSending()
      requires Valid()
      ensures Sending() && (AllHoldInFlight() ==> IdLeft()) && cleans <= |sent|
    {
      hide Books, AllHold;
      InFlight();
    }

    /**
      `ena_xdp_xmit_irq_zc`: frames of the socket, in its order, until the budget,
      the frames or the room for them is used up, or a frame finds too little of
      the burst budget (`failed`). The ring stays valid, and no id is taken twice,
      exactly when the frames sent are no more than the ids left; which is so
      whenever all packets in flight hold entries. A device that reads the ring and
      then a memory with the frames in it has the bytes of the frames sent, in order.
     */
    method XmitIrqZc(pool: seq<XdpDesc>, budget: nat, ghost mem: seq<Byte>, ghost stored: Meta)
      returns (workDone: nat, failed: bool)
      requires Valid() && forall k :: 0 <= k < |pool| ==> |pool[k].data| < U16
      modifies this`nextToUse, this`resetTriggered, this`sent, txBufferInfo, sq, sq.entries, sq.bounceBuffers
      ensures workDone <= budget && workDone <= |pool|
      ensures Sends(old(sent), pool, workDone)
      ensures workDone == FramesSent(sq.cfg, txMaxHeaderSize, sglSize, old(sq.Free()), old(sq.entriesInTxBurstLeft),
                                     Within(pool, budget))
      ensures failed ==> workDone < |pool| && !FrameFitsBurst(pool[workDone])
      ensures sq.cfg.descsBeforeHeader != 1 ==> !failed
      ensures !failed ==> Sending() && (Valid() <==> |old(sent)| + workDone <= cleans + ringSize)
      ensures !failed && (sq.cfg.disableMetaCaching || NoneEmptyInFlight()) ==> Valid() && IdLeft()
      ensures old(NoneEmptyInFlight()) && (forall k :: 0 <= k < workDone ==> |pool[k].data| > 0) ==> NoneEmptyInFlight()
      ensures !failed && (sq.cfg.disableMetaCaching ==> forall k :: 0 <= k < workDone ==> |pool[k].data| > 0)
              && |mem| <= Pow2(sq.cfg.dmaAddrBits) && (forall k :: 0 <= k < workDone ==> InMemory(mem, pool[k])) ==>
                DeviceHas(old(sq.submitted), stored, mem, Payloads(pool[..workDone]))
      ensures workDone > 0 ==> sq.rung == sq.submitted
      ensures !failed && workDone < budget && workDone < |pool| ==> !EnoughSpace(sq.cfg, sq.Free(), sglSize + 2)
    {
      hide Books, SubmissionQueue.IoSq.Valid, CompletionQueue.IoCq.Valid, Slot, Phase, IsDepth, EnoughSpace;
      hide SocketPackets, FramesSent, FrameFitsBurst, NoneEmpty, AllHold, Sends, EntriesOf;
      hide Whole, Readable, DeviceHas, RanFrames, Payloads;
      StartsSending();
      ghost var acked := sq.acked;
      QueueIsValid();
      sq.ValidHasCore();
      workDone, failed := XmitFrames(pool, budget);
      SentCount(old(sent), pool, workDone);
      if failed {
        if sq.cfg.descsBeforeHeader != 1 {
          OneLineFitsBurst(pool[workDone]);
        }
      } else {
        ValidIff();
        if (sq.cfg.disableMetaCaching ==> forall k :: 0 <= k < workDone ==> |pool[k].data| > 0)
           && |mem| <= Pow2(sq.cfg.dmaAddrBits) && (forall k :: 0 <= k < workDone ==> InMemory(mem, pool[k])) {
          AreReadable(mem, pool, workDone);
          FramesAreRead(Before(old(sq.entries[..]), old(sq.submitted), old(sq.cachedMeta)), |old(sent)|, mem, stored,
                        pool[..workDone]);
        }
      }
      if old(NoneEmptyInFlight()) && forall k :: 0 <= k < workDone ==> |pool[k].data| > 0 {
        NoneEmptyAfter(old(sent), pool, workDone);
      }
      if workDone > 0 {
        RingDoorbell();
      }
    }

    method RingDoorbell()
      requires sq.Core()
      modifies sq`entriesInTxBurstLeft, sq`rung
      ensures sq.rung == sq.submitted
      ensures (old(Sending()) ==> Sending()) && (old(Valid()) <==> Valid())
    {
      hide Books, Identity, Indexed, CompletionQueue.IoCq.Valid, IsDepth;
      var _ := sq.WriteDoorbell();
    }

    /** The frames are in a memory that the device can address. */
    ghost predicate Readable(mem: seq<Byte>, frames: seq<XdpDesc>) {
      && |mem| <= Pow2(sq.cfg.dmaAddrBits)
      && forall k :: 0 <= k < |frames| ==> InMemory(mem, frames[k]) && |frames[k].data| < U16
    }

    /** A device that decodes the entries since element `first` and reads the buffers has these packets. */
    ghost predicate DeviceHas(first: nat, stored: Meta, mem: seq<Byte>, packets: seq<seq<Byte>>)
      reads sq`submitted, sq.entries
    {
      && 0 <= sq.submitted - first <= ringSize == sq.entries.Length == sq.cfg.depth && sq.cfg.Valid()
      && var lines := SubmissionQueue.LinesFrom(ringSize, sq.entries[..], first, sq.submitted - first);
      AllBytes(mem, TxRun.DecodeRun(sq.cfg, first, stored, lines)) == packets
    }

    lemma AreReadable(mem: seq<Byte>, pool: seq<XdpDesc>, n: nat)
      requires n <= |pool| && forall k :: 0 <= k < n ==> |pool[k].data| < U16 && InMemory(mem, pool[k])
      requires |mem| <= Pow2(sq.cfg.dmaAddrBits)
      requires sq.cfg.disableMetaCaching ==> forall k :: 0 <= k < n ==> |pool[k].data| > 0
      ensures Whole(pool[..n]) && Readable(mem, pool[..n])
    {
      hide InMemory, Pow2;
    }

    lemma FramesAreRead(at: Before, m: nat, mem: seq<Byte>, stored: Meta, frames: seq<XdpDesc>)
      requires Sending() && sq.acked <= at.first && RanFrames(at, m, frames) && Readable(mem, frames)
      ensures DeviceHas(at.first, stored, mem, Payloads(frames))
    {
      hide Books, Slot, Pow2, CompletionQueue.IoCq.Valid, TxRun.DecodeRun, TxRun.ExpectedRun, InMemory;
      hide SubmissionQueue.LinesFrom, SubmissionQueue.Stored, TxRun.RunLines, TxRun.CachedAfter;
      hide SubmissionQueue.IoSq.Valid, CtxsOf;
      RingDepth();
      var ctxs := CtxsOf(sq.cfg, txMaxHeaderSize, ringSize, m, frames);
      CtxsAreSendable(sq.cfg, txMaxHeaderSize, ringSize, m, frames);
      TxRun.RunIsInRing(sq, at.ring, at.first, at.cached, stored, ctxs);
      ReceivedAreFrames(sq.cfg, txMaxHeaderSize, ringSize, m, at.cached, stored, mem, frames);
    }

    lemma SentCount(before: seq<Packet>, pool: seq<XdpDesc>, n: nat)
      requires Sends(before, pool, n)
      ensures |sent| == |before| + n
    {
    }

    lemma ValidIff()
      requires Sending() && (AllHoldInFlight() ==> IdLeft())
      ensures Valid() <==> |sent| <= cleans + ringSize
      ensures sq.cfg.disableMetaCaching || NoneEmptyInFlight() ==> AllHoldInFlight()
    {
      hide Queues, Identity, AllHold, NoneEmpty;
      if sq.cfg.disableMetaCaching || NoneEmptyInFlight() {
        WhenAllHold();
      }
    }

    lemma IdStillLeft(before: seq<Packet>)
      requires Sending() && |sent| == |before| + 1 && before == sent[..|before|] && cleans <= |before|
      requires AllHold(before[cleans..]) ==> |before| < cleans + ringSize
      ensures AllHoldInFlight() ==> IdLeft()
    {
      hide Books, Queues, Identity, Slot;
      if AllHoldInFlight() {
        assert before[cleans..] == sent[cleans..][..|before| - cleans];
        InFlight();
      }
    }

    lemma NoneEmptyAfter(before: seq<Packet>, pool: seq<XdpDesc>, n: nat)
      requires Sends(before, pool, n) && cleans <= |before| && NoneEmpty(before[cleans..])
      requires forall k :: 0 <= k < n ==> |pool[k].data| > 0
      ensures NoneEmptyInFlight()
    {
      forall k | 0 <= k < |sent[cleans..]| ensures sent[cleans..][k].size > 0 {
        assert sent[cleans..][k] == if cleans + k < |before| then before[cleans..][k] else sent[cleans + k];
      }
    }

    /**
      Frames of length zero that need no meta descriptor take no entry, so that the
      space check never stops them: they use up the ids, and the next one takes the
      id of a packet in flight.
     */
    method EmptyFramesTakeAllIds()
      requires Valid() && !sq.cfg.disableMetaCaching && EnoughSpace(sq.cfg, sq.Free(), sglSize + 2)
      modifies this`nextToUse, this`resetTriggered, this`sent, txBufferInfo, sq, sq.entries, sq.bounceBuffers
      ensures Sending() && |sent| == cleans + ringSize + 1 && !Valid()
      ensures sq.submitted == old(sq.submitted)
    {
      hide SubmissionQueue.IoSq.Valid, CompletionQueue.IoCq.Valid, Slot, Phase, IsDepth, EnoughSpace, SocketPackets;
      hide FrameCtx, FrameFitsBurst, SubmissionQueue.IoSq.Carries, EntriesUsed, SqAccounting.BudgetFor;
      InFlight();
      while |sent| <= cleans + ringSize
        invariant Sending() && |sent| <= cleans + ringSize + 1
        invariant sq.submitted == old(sq.submitted) && sq.acked == old(sq.acked)
      {
        EmptyFrameTakesNothing();
        var _ := XmitFrame(XdpDesc(0, []));
      }
    }

    lemma EmptyFrameTakesNothing()
      requires sq.cfg.Valid() && !sq.cfg.disableMetaCaching
      ensures sq.Uses(CtxOf(XdpDesc(0, []))) == 0
    {
      hide EntriesUsed;
      EntriesUsedCount(sq.cfg, CtxOf(XdpDesc(0, [])), false);
    }

    // -------------------------------------------------------------- cleaning

    /** One step of the senders: any owner's packet that fits one burst, as long as an id is left. */
    method SenderStep()
      requires Valid()
      modifies this`nextToUse, this`sent, this`resetTriggered, txBufferInfo, sq, sq.entries, sq.bounceBuffers
      ensures Valid() && |old(sent)| <= |sent| && old(sent) == sent[..|old(sent)|]
      ensures sq.acked == old(sq.acked) && (old(resetTriggered) ==> resetTriggered)
      ensures forall id :: 0 <= id < ringSize ==> txBufferInfo[id].acked == old(txBufferInfo[id].acked)
    {
      hide Books, SubmissionQueue.IoSq.Valid, CompletionQueue.IoCq.Valid, Slot, Phase, IsDepth, SocketPackets;
      hide SubmissionQueue.IoSq.Mapped, SubmissionQueue.IoSq.FitsBurst, SubmissionQueue.IoSq.Carries, EntriesUsed;
      hide SubmissionQueue.IoSq.BudgetFor, PassesSpaceCheck;
      InFlight();
      RingDepth();
      var owner: Owner, packet: TxCtx, bytes: nat := *, *, *;
      var ctx := packet.(reqId := freeIds[nextToUse]);
      if IdLeft() && sq.Mapped(ctx) && sq.FitsBurst(ctx) && (bytes > 0 <==> !ctx.MetaOnly()) {
        if sq.cfg.HasBurst() {
          sq.FindsItsBudget(ctx);
        }
        var _ := XmitCommon(owner, ctx, bytes);
      }
    }

    /** Senders and the device run, any number of steps: what is completed and what is released stays as it is. */
    method OthersRun()
      requires Valid()
      modifies this`nextToUse, this`sent, this`resetTriggered
      modifies txBufferInfo, sq, sq.entries, sq.bounceBuffers, cq`log, cq.ring
      ensures Valid() && |old(sent)| <= |sent| && old(sent) == sent[..|old(sent)|] && old(cq.log) <= cq.log
      ensures sq.acked == old(sq.acked) && (old(resetTriggered) ==> resetTriggered)
      ensures forall id :: 0 <= id < ringSize ==> txBufferInfo[id].acked == old(txBufferInfo[id].acked)
    {
      hide Books, SubmissionQueue.IoSq.Valid, CompletionQueue.IoCq.Valid, Slot, Phase, IsDepth, SocketPackets;
      var steps: nat := *;
      while steps > 0
        invariant Valid() && |old(sent)| <= |sent| && old(sent) == sent[..|old(sent)|] && old(cq.log) <= cq.log
        invariant sq.acked == old(sq.acked) && (old(resetTriggered) ==> resetTriggered)
        invariant forall id :: 0 <= id < ringSize ==> txBufferInfo[id].acked == old(txBufferInfo[id].acked)
      {
        if * {
          SenderStep();
        } else {
          cq.DeviceRuns();
        }
        steps := steps - 1;
      }
    }

    predicate Unreadable(c: CompletionQueue.Cdesc) {
      (c.corrupt && cq.checkMbz) || c.reqId >= ringSize
    }

    /**
      Why marking stops: nothing more is completed, or the next completion cannot
      be read, or the `extra` one read last names an idle id.
     */
    ghost predicate Stopped(extra: int)
      reads this, cq, txBufferInfo
    {
      if extra == 0 then cq.read < |cq.log| ==> Unreadable(cq.log[cq.read])
      else
        && extra == 1 && 0 < cq.read <= |cq.log|
        && var id := cq.log[cq.read - 1].reqId; id < txBufferInfo.Length && txBufferInfo[id].totalTxSize == 0
    }

    /** The packet of an id was marked before, or completed by one of the `n` completions from `from` on. */
    ghost predicate Done(was: seq<TxBuffer>, id: nat, from: nat, n: nat)
      reads cq
    {
      && id < |was| && from + n <= |cq.log|
      && (was[id].acked || exists j :: from <= j < from + n && cq.log[j].reqId == id)
    }

    /** The first `seen` completions are read, or there is a reset because one of them could not be used. */
    ghost predicate TookAll(seen: nat, used: nat)
      reads this, cq
    {
      || seen <= cq.read
      || (resetTriggered && (cq.read > used || (cq.read < |cq.log| && Unreadable(cq.log[cq.read]))))
    }

    /** One completion: its packet, if there is one, is marked; anything else asks for a reset. */
    method MarkOne() returns (more: bool)
      requires Valid()
      modifies this`resetTriggered, txBufferInfo, cq`head, cq`phase, cq`read, cq`start
      ensures Valid() && (old(resetTriggered) ==> resetTriggered)
      ensures more <==>
                && old(cq.read) < |cq.log|
                && var c := cq.log[old(cq.read)];
                !(c.corrupt && cq.checkMbz) && c.reqId < ringSize && old(txBufferInfo[c.reqId]).totalTxSize > 0
      ensures forall id :: 0 <= id < ringSize ==>
                txBufferInfo[id].acked == (old(txBufferInfo[id].acked) || (more && id == cq.log[old(cq.read)].reqId))
      ensures more ==> cq.read == old(cq.read) + 1
      ensures !more ==> Stopped(cq.read - old(cq.read)) && (old(cq.read) < |cq.log| ==> resetTriggered)
    {
      hide Books, SubmissionQueue.IoSq.Valid, CompletionQueue.IoCq.Valid, Slot, IsDepth, SocketPackets, AllCharged;
      var rc, reqId := cq.TxCompReqIdGet();
      if rc == CompletionQueue.TryAgain {
        return false;
      }
      if rc != CompletionQueue.Ok {
        resetTriggered := true;
        return false;
      }
      if txBufferInfo[reqId].totalTxSize == 0 {
        resetTriggered := true;
        return false;
      }
      BookMark(ringSize, txBufferInfo[..], sent, cleans, sq.submitted - sq.acked, unacked, reqId);
      ghost var info := txBufferInfo[..];
      txBufferInfo[reqId] := txBufferInfo[reqId].(acked := true);
      assert txBufferInfo[..] == info[reqId := info[reqId].(acked := true)];
      more := true;
    }

    /** The first loop of the cleaner: marks exactly the packets of the completions it reads, at most `budget`. */
    method MarkCompleted(budget: nat) returns (ackedPkts: nat)
      requires Valid()
      modifies this`nextToUse, this`sent, this`resetTriggered, txBufferInfo
      modifies sq, sq.entries, sq.bounceBuffers, cq`head, cq`phase, cq`read, cq`start, cq`log, cq.ring
      ensures Valid() && ackedPkts <= budget && |old(sent)| <= |sent| && old(sent) == sent[..|old(sent)|]
      ensures sq.acked == old(sq.acked) && old(cq.log) <= cq.log && old(cq.read) + ackedPkts <= |cq.log|
      ensures forall id :: 0 <= id < ringSize ==>
                txBufferInfo[id].acked == Done(old(txBufferInfo[..]), id, old(cq.read), ackedPkts)
      ensures ackedPkts == budget ==> cq.read == old(cq.read) + ackedPkts
      ensures ackedPkts < budget ==> Stopped(cq.read - old(cq.read) - ackedPkts)
      ensures ackedPkts < budget && cq.read < |cq.log| ==> resetTriggered
      ensures cq.read > old(cq.read) + ackedPkts ==> resetTriggered
    {
      hide Books, SubmissionQueue.IoSq.Valid, CompletionQueue.IoCq.Valid, Slot, IsDepth, SocketPackets;
      ghost var was := txBufferInfo[..];
      ReadWithinLog();
      ackedPkts := 0;
      while ackedPkts < budget
        invariant Valid() && ackedPkts <= budget && |old(sent)| <= |sent| && old(sent) == sent[..|old(sent)|]
        invariant sq.acked == old(sq.acked) && old(cq.log) <= cq.log
        invariant cq.read == old(cq.read) + ackedPkts <= |cq.log|
        invariant forall id :: 0 <= id < ringSize ==> txBufferInfo[id].acked == Done(was, id, old(cq.read), ackedPkts)
      {
        var more := MarkNext(was, old(cq.read), ackedPkts);
        if !more {
          break;
        }
        ackedPkts := ackedPkts + 1;
      }
    }

    lemma ReadWithinLog()
      requires Valid()
      ensures cq.read <= |cq.log|
    {
    }

    /** The others run, then one completion is marked. */
    method MarkNext(ghost was: seq<TxBuffer>, ghost from: nat, ghost n: nat) returns (more: bool)
      requires Valid() && |was| == ringSize && cq.read == from + n <= |cq.log|
      requires forall id :: 0 <= id < ringSize ==> txBufferInfo[id].acked == Done(was, id, from, n)
      modifies this`nextToUse, this`sent, this`resetTriggered, txBufferInfo
      modifies sq, sq.entries, sq.bounceBuffers, cq`head, cq`phase, cq`read, cq`start, cq`log, cq.ring
      ensures Valid() && |old(sent)| <= |sent| && old(sent) == sent[..|old(sent)|]
      ensures sq.acked == old(sq.acked) && old(cq.log) <= cq.log && from + n <= |cq.log|
      ensures forall id :: 0 <= id < ringSize ==>
                txBufferInfo[id].acked == Done(was, id, from, if more then n + 1 else n)
      ensures if more then cq.read == from + n + 1 <= |cq.log|
              else Stopped(cq.read - from - n) && (from + n < |cq.log| ==> resetTriggered)
    {
      hide Books, SubmissionQueue.IoSq.Valid, CompletionQueue.IoCq.Valid, Slot, IsDepth, SocketPackets;
      OthersRun();
      more := MarkOne();
      if more {
        assert cq.log[from + n] == cq.log[cq.read - 1];
      }
    }

    /** The cleaner's writes for one released packet. */
    method FreeBuffer()
      requires cleanIdx < txBufferInfo.Length == ringSize
      modifies this`cleanIdx, this`totalDone, this`zcPkts, txBufferInfo
      ensures var x := old(txBufferInfo[cleanIdx]);
              && txBufferInfo[..] == old(txBufferInfo[..])[old(cleanIdx) := TxBuffer(Socket, 0, x.txDescs, false)]
              && totalDone == (old(totalDone) + x.txDescs) % U32
              && zcPkts == old(zcPkts) + if x.owner == Socket then 1 else 0
      ensures cleanIdx == Masked(old(cleanIdx) + 1, ringSize)
    {
      var x := txBufferInfo[cleanIdx];
      txBufferInfo[cleanIdx] := x.(totalTxSize := 0);
      zcPkts := zcPkts + if x.owner == Socket then 1 else 0;
      totalDone := (totalDone + x.txDescs) % U32;
      txBufferInfo[cleanIdx] := txBufferInfo[cleanIdx].(owner := Socket);
      txBufferInfo[cleanIdx] := txBufferInfo[cleanIdx].(acked := false);
      cleanIdx := Masked(cleanIdx + 1, ringSize);
    }

    /** One turn of the second loop: if the oldest packet in flight is completed, it is released. */
    method ReleaseOne() returns (more: bool)
      requires Valid()
      modifies this`cleanIdx, this`totalDone, this`zcPkts, this`cleans, this`unacked, txBufferInfo
      ensures Valid() && more == old(txBufferInfo[cleanIdx].acked)
      ensures more ==>
                && old(cleans) < |sent| && cleans == old(cleans) + 1
                && sent[old(cleans)].size > 0 && sent[old(cleans)].entries > 0
                && unacked == old(unacked) + sent[old(cleans)].entries
      ensures !more ==> cleans == old(cleans) && unacked == old(unacked) && txBufferInfo[..] == old(txBufferInfo[..])
      ensures forall id :: 0 <= id < ringSize ==>
                txBufferInfo[id].acked == (old(txBufferInfo[id].acked) && id != old(cleanIdx))
      ensures more ==> Acked(txBufferInfo[..]) < Acked(old(txBufferInfo[..]))
    {
      hide Books, SubmissionQueue.IoSq.Valid, CompletionQueue.IoCq.Valid, Slot, Masked, IsDepth, Acked;
      hide AllCharged;
      SlotInRing();
      var x := txBufferInfo[cleanIdx];
      if !x.acked {
        return false;
      }
      BookRelease(ringSize, txBufferInfo[..], sent, cleans, sq.submitted - sq.acked, unacked, cleanIdx);
      AckedAfter(txBufferInfo[..], cleanIdx, TxBuffer(Socket, 0, x.txDescs, false));
      ChargedRest(sent, cleans, sq.cfg.disableMetaCaching);
      AddLow16(totalDone, unacked, x.txDescs, sent[cleans].entries);
      NextSlot(ringSize, cleans);
      FreeBuffer();
      unacked := unacked + sent[cleans].entries;
      assert sent[..cleans + 1][..cleans] == sent[..cleans];
      cleans := cleans + 1;
      more := true;
    }

    lemma SlotInRing()
      requires Valid()
      ensures cleanIdx < ringSize
    {
    }

    /** Only packets in flight are marked. */
    lemma AckedIsSent()
      requires Valid()
      ensures |sent| <= cleans + ringSize
      ensures forall p {:trigger Slot(ringSize, p)} :: cleans <= p < cleans + ringSize ==>
                Slot(ringSize, p) < ringSize && (txBufferInfo[..][Slot(ringSize, p)].acked ==> p < |sent|)
    {
      InFlight();
    }

    lemma UnackedAreOutstanding()
      requires Valid()
      ensures unacked <= sq.submitted - sq.acked && unacked < ringSize
      ensures Books(ringSize, txBufferInfo[..], sent, cleans, sq.submitted - sq.acked - unacked, 0)
    {
    }

    /** Publishes the index, acknowledges the released packets' descriptors and reports the socket's frames. */
    method Commit()
      requires Valid()
      modifies this`nextToClean, this`totalDone, this`zcPkts, this`unacked, this`xskCompleted, sq`nextToComp, sq`acked
      ensures Valid() && Resting() && sq.acked == old(sq.acked) + old(unacked)
    {
      hide Books, SubmissionQueue.IoSq.Valid, CompletionQueue.IoCq.Valid, Slot, Phase, Masked, IsDepth;
      hide Identity, EntriesOf, SocketPackets;
      UnackedAreOutstanding();
      nextToClean := cleanIdx;
      sq.CompAck(totalDone, unacked);
      assert Queues();
      if zcPkts > 0 {
        xskCompleted := xskCompleted + zcPkts;
      }
      totalDone, zcPkts, unacked := 0, 0, 0;
    }

    ghost predicate Releasing(was: seq<TxBuffer>, before: seq<Packet>, from: nat)
      reads this, txBufferInfo
    {
      Released(ringSize, was, txBufferInfo[..], before, sent, from, cleans, unacked)
    }

    method ReleaseStep(ghost was: seq<TxBuffer>, ghost before: seq<Packet>, ghost from: nat) returns (more: bool)
      requires Valid() && Releasing(was, before, from)
      modifies this`cleanIdx, this`totalDone, this`zcPkts, this`cleans, this`unacked
      modifies this`nextToUse, this`sent, this`resetTriggered
      modifies txBufferInfo, sq, sq.entries, sq.bounceBuffers, cq`log, cq.ring
      ensures Valid() && Releasing(was, before, from) && sq.acked == old(sq.acked) && old(cq.log) <= cq.log
      ensures old(resetTriggered) ==> resetTriggered
      ensures more ==> Acked(txBufferInfo[..]) < Acked(old(txBufferInfo[..]))
      ensures !more ==> !was[Slot(ringSize, cleans)].acked && Acked(txBufferInfo[..]) == Acked(old(txBufferInfo[..]))
      ensures cleans < from + ringSize
    {
      hide Books, SubmissionQueue.IoSq.Valid, CompletionQueue.IoCq.Valid, Slot, Masked, IsDepth, SocketPackets, Acked;
      hide EntriesOf, Queues, Identity, Released;
      ghost var c, info0 := cleans, txBufferInfo[..];
      OthersRun();
      AckedSame(info0, txBufferInfo[..]);
      ReleasedSame(ringSize, was, info0, txBufferInfo[..], before, old(sent), sent, from, c, unacked);
      UnackedAreOutstanding();
      ReleasedFewer(ringSize, was, txBufferInfo[..], before, sent, from, c, unacked);
      SlotInRing();
      more := ReleaseOne();
      if more {
        ReleasedMore(ringSize, was, info0, txBufferInfo[..], before, old(sent), sent, from, c, old(unacked));
        UnackedAreOutstanding();
        ReleasedFewer(ringSize, was, txBufferInfo[..], before, sent, from, cleans, unacked);
      }
    }

    /**
      The second loop of the cleaner: releases the longest completed prefix of
      the packets in flight, whatever order they completed in. It ends because
      every turn clears one completion mark. A frame of length zero is never
      released, nor is anything behind it.
     */
    method ReleaseCompleted()
      requires Valid() && Resting()
      modifies this, txBufferInfo, sq, sq.entries, sq.bounceBuffers, cq`log, cq.ring
      ensures Valid() && Resting() && |old(sent)| <= |sent| && old(sent) == sent[..|old(sent)|]
      ensures old(cq.log) <= cq.log
      ensures old(cleans) <= cleans <= |old(sent)| && cleans < old(cleans) + ringSize
      ensures forall p :: old(cleans) <= p < cleans ==> sent[p].size > 0
      ensures forall p {:trigger Slot(ringSize, p)} :: old(cleans) <= p < cleans ==>
                old(txBufferInfo[..])[Slot(ringSize, p)].acked
      ensures !old(txBufferInfo[..])[Slot(ringSize, cleans)].acked
      ensures nextToClean < ringSize && !txBufferInfo[nextToClean].acked
      ensures old(resetTriggered) ==> resetTriggered
      ensures sq.acked == old(sq.acked) + EntriesOf(sent[old(cleans)..cleans])
      ensures xskCompleted == SocketPackets(sent[..cleans])
    {
      hide Books, SubmissionQueue.IoSq.Valid, CompletionQueue.IoCq.Valid, Slot, Masked, IsDepth, SocketPackets, Acked;
      ghost var was := txBufferInfo[..];
      AckedIsSent();
      assert sent[cleans..cleans] == [];
      var more := true;
      while more
        invariant Valid() && Releasing(was, old(sent), old(cleans))
        invariant sq.acked == old(sq.acked) && old(cq.log) <= cq.log
        invariant old(resetTriggered) ==> resetTriggered
        invariant !more ==> !was[Slot(ringSize, cleans)].acked && cleans < old(cleans) + ringSize
        decreases Acked(txBufferInfo[..]), more
      {
        more := ReleaseStep(was, old(sent), old(cleans));
      }
      SlotInRing();
      Commit();
    }

    /**
      `ena_xdp_clean_tx_zc`: marks what completed, at most `budget`, and releases
      the longest completed prefix of the packets in flight. `marked` counts the
      completions taken; it falls short of the budget only when everything that was
      there at the start is read, or one could not be.
     */
    method CleanTxZc(budget: nat) returns (done: bool, ghost marked: nat)
      requires Valid() && Resting()
      modifies Footprint()
      ensures Valid() && Resting() && |old(sent)| <= |sent| && old(sent) == sent[..|old(sent)|]
      ensures old(cleans) <= cleans <= |sent| && cleans < old(cleans) + ringSize
      ensures forall p :: old(cleans) <= p < cleans ==> sent[p].size > 0
      ensures forall p {:trigger Slot(ringSize, p)} :: old(cleans) <= p < cleans ==>
                Done(old(txBufferInfo[..]), Slot(ringSize, p), old(cq.read), marked)
      ensures !Done(old(txBufferInfo[..]), Slot(ringSize, cleans), old(cq.read), marked)
      ensures nextToClean < ringSize && !txBufferInfo[nextToClean].acked
      ensures sq.acked == old(sq.acked) + EntriesOf(sent[old(cleans)..cleans])
      ensures xskCompleted == SocketPackets(sent[..cleans])
      ensures marked <= budget && (done <==> marked < budget)
      ensures done ==> TookAll(|old(cq.log)|, old(cq.read) + marked)
    {
      hide Books, SubmissionQueue.IoSq.Valid, CompletionQueue.IoCq.Valid, Slot, Masked, IsDepth, SocketPackets, Acked;
      var ackedPkts := MarkCompleted(budget);
      marked := ackedPkts;
      SlotsInRing();
      ReadWithinLog();
      ReleaseCompleted();
      done := ackedPkts < budget;
    }

    /**
      A frame of length zero that is the oldest packet in flight blocks the ring
      for good: whatever is sent and completed, no pass of the cleaner releases,
      acknowledges or reports anything any more.
     */
    method EmptyFrameBlocks(passes: nat)
      requires Valid() && Resting() && cleans < |sent| && sent[cleans].size == 0
      modifies Footprint()
      ensures Valid() && Resting() && cleans == old(cleans) && old(sent) <= sent
      ensures sq.acked == old(sq.acked) && xskCompleted == old(xskCompleted)
    {
      hide Books, SubmissionQueue.IoSq.Valid, CompletionQueue.IoCq.Valid, Slot, Masked, IsDepth, SocketPackets;
      hide AllCharged, EntriesOf, Done, TookAll;
      InFlight();
      for i := 0 to passes
        invariant Valid() && Resting() && cleans == old(cleans)
        invariant |old(sent)| <= |sent| && old(sent) == sent[..|old(sent)|]
        invariant sq.acked == old(sq.acked) && xskCompleted == SocketPackets(sent[..cleans])
      {
        BlockedPass(old(sent));
      }
      assert sent[..cleans] == old(sent[..cleans]);
    }

    /** One pass, after anything was sent and completed. */
    method BlockedPass(ghost before: seq<Packet>)
      requires Valid() && Resting() && cleans < |before| <= |sent| && before == sent[..|before|]
      requires before[cleans].size == 0
      modifies Footprint()
      ensures Valid() && Resting() && cleans == old(cleans) && |before| <= |sent| && before == sent[..|before|]
      ensures sq.acked == old(sq.acked) && xskCompleted == SocketPackets(sent[..cleans])
    {
      hide Books, SubmissionQueue.IoSq.Valid, CompletionQueue.IoCq.Valid, Slot, Masked, IsDepth, SocketPackets;
      hide AllCharged, Done, TookAll, Queues, Identity;
      OthersRun();
      assert before == sent[..|before|];
      var budget: nat := *;
      var _, _ := CleanTxZc(budget);
      assert before == sent[..|before|] && sent[old(cleans)] == before[old(cleans)];
      assert sent[cleans..cleans] == [];
    }

    lemma SlotsInRing()
      requires Valid()
      ensures forall p {:trigger Slot(ringSize, p)} :: Slot(ringSize, p) < ringSize
    {
    }
  }
}
