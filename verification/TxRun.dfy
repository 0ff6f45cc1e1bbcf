/**
  Whole runs of packets: what a device reads from ring memory after the driver
  has written packet after packet, with the meta data it caches between them.
 */
module TxRun {
  import opened Words
  import opened TxWire
  import opened TxDecode
  import opened SqAccounting
  import opened SubmissionQueue

  /** The lines that a run of packets writes, from the n-th element of the queue on. */
  function RunLines(cfg: SqConfig, n: nat, cached: Meta, pkts: seq<TxCtx>): seq<Entry>
    requires cfg.Valid()
    decreases |pkts|
  {
    if pkts == [] then []
    else
      var haveMeta := SendsMeta(cfg, cached, pkts[0]);
      Written(cfg, n, PacketChunks(cfg, pkts[0], haveMeta), PushedHeader(cfg, pkts[0]))
      + RunLines(cfg, n + EntriesUsed(cfg, pkts[0], haveMeta), NextCachedMeta(cfg, cached, pkts[0]), pkts[1..])
  }

  /** A packet as received: its fields, and the meta data that applies to it. */
  datatype Received = Received(view: View, applied: Meta)

  /** The device: decodes packet after packet and reuses the last meta data it was sent. */
  function DecodeRun(cfg: SqConfig, n: nat, stored: Meta, lines: seq<Entry>): seq<Received>
    requires cfg.Valid()
    decreases |lines|
  {
    if lines == [] then []
    else match Decode(cfg, n, lines)
      case Malformed => []
      case Decoded(view, used) =>
        if !(0 < used <= |lines|) then []
        else
          var applied := if view.meta.Some? then view.meta.value else stored;
          [Received(view, applied)]
          + DecodeRun(cfg, n + used, if view.metaKept then applied else stored, lines[used..])
  }

  function ExpectedRun(cfg: SqConfig, cached: Meta, stored: Meta, pkts: seq<TxCtx>): (r: seq<Received>)
    ensures |r| == |pkts|
  {
    var wire := WireMetas(cfg, cached, pkts);
    var applied := AppliedMetas(stored, wire);
    seq(|pkts|, i requires 0 <= i < |pkts| => Received(WireView(cfg, pkts[i], wire[i].Some?), applied[i]))
  }

  lemma {:induction false} ExpectedStep(cfg: SqConfig, cached: Meta, stored: Meta, pkts: seq<TxCtx>)
    requires pkts != []
    ensures var v := WireView(cfg, pkts[0], SendsMeta(cfg, cached, pkts[0]));
            var m := if v.meta.Some? then v.meta.value else stored;
            && v.metaKept == v.meta.Some?
            && ExpectedRun(cfg, cached, stored, pkts)
               == [Received(v, m)] + ExpectedRun(cfg, NextCachedMeta(cfg, cached, pkts[0]), m, pkts[1..])
  {
    hide SendsMeta, NextCachedMeta, PushedHeader;
    var wire := WireMetas(cfg, cached, pkts);
    assert wire[1..] == WireMetas(cfg, NextCachedMeta(cfg, cached, pkts[0]), pkts[1..]);
  }

  lemma DecodeStep(cfg: SqConfig, n: nat, stored: Meta, lines: seq<Entry>, view: View, used: nat, rest: seq<Entry>)
    requires cfg.Valid() && Decode(cfg, n, lines) == Decoded(view, used)
    requires 0 < used <= |lines| && lines[used..] == rest
    ensures var applied := if view.meta.Some? then view.meta.value else stored;
            DecodeRun(cfg, n, stored, lines)
            == [Received(view, applied)] + DecodeRun(cfg, n + used, if view.metaKept then applied else stored, rest)
  {
    hide Decode;
  }

  lemma FirstLines(cfg: SqConfig, n: nat, cached: Meta, pkts: seq<TxCtx>)
    requires cfg.Valid() && pkts != [] && Sendable(cfg, pkts[0])
    ensures var haveMeta := SendsMeta(cfg, cached, pkts[0]);
            var used := EntriesUsed(cfg, pkts[0], haveMeta);
            var rest := RunLines(cfg, n + used, NextCachedMeta(cfg, cached, pkts[0]), pkts[1..]);
            var lines := RunLines(cfg, n, cached, pkts);
            && lines == Written(cfg, n, PacketChunks(cfg, pkts[0], haveMeta), PushedHeader(cfg, pkts[0])) + rest
            && 0 < used <= |lines| && lines[used..] == rest
  {
    hide PacketChunks, Written, PushedHeader, SendsMeta, NextCachedMeta;
    EntriesUsedAnyId(cfg, pkts[0], SendsMeta(cfg, cached, pkts[0]), 0);
  }

  /** Every run of packets is received as sent: each view, and the meta data that caching leaves in force. */
  lemma {:induction false} RunReadsBack(cfg: SqConfig, n: nat, cached: Meta, stored: Meta, pkts: seq<TxCtx>)
    requires cfg.Valid()
    requires forall i :: 0 <= i < |pkts| ==> Sendable(cfg, pkts[i])
    ensures DecodeRun(cfg, n, stored, RunLines(cfg, n, cached, pkts)) == ExpectedRun(cfg, cached, stored, pkts)
    decreases |pkts|
  {
    hide PacketChunks, Decode, WireView, Written, ExpectedRun, DecodeRun, RunLines, EntriesUsed, SendsMeta;
    hide PushedHeader, NextCachedMeta;
    if pkts == [] {
      EmptyRun(cfg, n, cached, stored);
    } else {
      var haveMeta := SendsMeta(cfg, cached, pkts[0]);
      var used := EntriesUsed(cfg, pkts[0], haveMeta);
      var next := NextCachedMeta(cfg, cached, pkts[0]);
      var rest := RunLines(cfg, n + used, next, pkts[1..]);
      var view := WireView(cfg, pkts[0], haveMeta);
      var applied := if view.meta.Some? then view.meta.value else stored;
      FirstLines(cfg, n, cached, pkts);
      DecodeEncode(cfg, pkts[0], haveMeta, n, rest);
      DecodeStep(cfg, n, stored, RunLines(cfg, n, cached, pkts), view, used, rest);
      RunReadsBack(cfg, n + used, next, applied, pkts[1..]);
      ExpectedStep(cfg, cached, stored, pkts);
    }
  }

  lemma {:induction false} EmptyRun(cfg: SqConfig, n: nat, cached: Meta, stored: Meta)
    requires cfg.Valid()
    ensures DecodeRun(cfg, n, stored, RunLines(cfg, n, cached, [])) == [] == ExpectedRun(cfg, cached, stored, [])
  {
  }

  /** The packet just written is what a reader finds in ring memory, whatever the older entries hold. */
  lemma {:induction false} PacketReadsBackFromRing(
      cfg: SqConfig, ctx: TxCtx, haveMeta: bool, ring: seq<Entry>, first: nat, count: nat)
    requires cfg.Valid() && Sendable(cfg, ctx) && |ring| == cfg.depth
    requires EntriesUsed(cfg, ctx, haveMeta) <= count <= cfg.depth
    ensures var lines := Written(cfg, first, PacketChunks(cfg, ctx, haveMeta), PushedHeader(cfg, ctx));
            Decode(cfg, first, LinesFrom(cfg.depth, Stored(cfg.depth, ring, first, lines), first, count))
            == Decoded(WireView(cfg, ctx, haveMeta), EntriesUsed(cfg, ctx, haveMeta))
  {
    hide PacketChunks, Decode, WireView, Written, Stored;
    var lines := Written(cfg, first, PacketChunks(cfg, ctx, haveMeta), PushedHeader(cfg, ctx));
    var read := LinesFrom(cfg.depth, Stored(cfg.depth, ring, first, lines), first, count);
    StoredReadsBack(cfg.depth, ring, first, lines);
    assert read[..|lines|] == LinesFrom(cfg.depth, Stored(cfg.depth, ring, first, lines), first, |lines|);
    assert read == lines + read[|lines|..];
    DecodeEncode(cfg, ctx, haveMeta, first, read[|lines|..]);
  }

  /** The meta data that is cached after a run of packets. */
  function CachedAfter(cfg: SqConfig, cached: Meta, pkts: seq<TxCtx>): Meta
    decreases |pkts|
  {
    if pkts == [] then cached else CachedAfter(cfg, NextCachedMeta(cfg, cached, pkts[0]), pkts[1..])
  }

  lemma {:induction false} OnePacketMore(cfg: SqConfig, n: nat, cached: Meta, pkts: seq<TxCtx>, p: TxCtx)
    requires cfg.Valid()
    ensures var last := CachedAfter(cfg, cached, pkts);
            && CachedAfter(cfg, cached, pkts + [p]) == NextCachedMeta(cfg, last, p)
            && RunLines(cfg, n, cached, pkts + [p])
               == RunLines(cfg, n, cached, pkts)
                  + Written(cfg, n + |RunLines(cfg, n, cached, pkts)|, PacketChunks(cfg, p, SendsMeta(cfg, last, p)),
                            PushedHeader(cfg, p))
    decreases |pkts|
  {
    hide PacketChunks, Written, SendsMeta, NextCachedMeta;
    if pkts == [] {
      assert pkts + [p] == [p] && [p][1..] == [];
    } else {
      var haveMeta := SendsMeta(cfg, cached, pkts[0]);
      var head := Written(cfg, n, PacketChunks(cfg, pkts[0], haveMeta), PushedHeader(cfg, pkts[0]));
      var m, next := n + EntriesUsed(cfg, pkts[0], haveMeta), NextCachedMeta(cfg, cached, pkts[0]);
      OnePacketMore(cfg, m, next, pkts[1..], p);
      assert (pkts + [p])[1..] == pkts[1..] + [p];
      var last := CachedAfter(cfg, cached, pkts);
      AppendAssoc(head, RunLines(cfg, m, next, pkts[1..]),
                  Written(cfg, m + |RunLines(cfg, m, next, pkts[1..])|, PacketChunks(cfg, p, SendsMeta(cfg, last, p)),
                          PushedHeader(cfg, p)));
    }
  }

  /**
    A queue at these entries, count and cached meta data holds a run of packets,
    written from element `first` on over the contents `ring`.
   */
  ghost predicate HoldsRun(cfg: SqConfig, entries: seq<Entry>, submitted: nat, cachedMeta: Meta,
                           ring: seq<Entry>, first: nat, cached: Meta, pkts: seq<TxCtx>) {
    && cfg.Valid() && |ring| == cfg.depth
    && cachedMeta == CachedAfter(cfg, cached, pkts)
    && var lines := RunLines(cfg, first, cached, pkts);
    submitted == first + |lines| && entries == Stored(cfg.depth, ring, first, lines)
  }

  ghost predicate Ran(sq: IoSq, ring: seq<Entry>, first: nat, cached: Meta, pkts: seq<TxCtx>)
    reads sq`cachedMeta, sq`submitted, sq.entries
  {
    HoldsRun(sq.cfg, sq.entries[..], sq.submitted, sq.cachedMeta, ring, first, cached, pkts)
  }

  lemma {:induction false} RanOneMore(sq: IoSq, ring: seq<Entry>, first: nat, cached: Meta, pkts: seq<TxCtx>, p: TxCtx,
                                      entries: seq<Entry>, submitted: nat, cachedMeta: Meta)
    requires HoldsRun(sq.cfg, entries, submitted, cachedMeta, ring, first, cached, pkts)
    requires sq.cachedMeta == NextCachedMeta(sq.cfg, cachedMeta, p)
    requires sq.Carries(entries, submitted, cachedMeta, p)
    ensures Ran(sq, ring, first, cached, pkts + [p])
  {
    hide PacketChunks, Written, SendsMeta, NextCachedMeta, Stored, PushedHeader, RunLines, CachedAfter;
    OnePacketMore(sq.cfg, first, cached, pkts, p);
    var last := CachedAfter(sq.cfg, cached, pkts);
    StoredAppend(sq.cfg.depth, ring, first, RunLines(sq.cfg, first, cached, pkts),
                 Written(sq.cfg, submitted, PacketChunks(sq.cfg, p, SendsMeta(sq.cfg, last, p)),
                         PushedHeader(sq.cfg, p)));
  }

  /** A packet with neither header, buffers nor meta descriptor leaves the run as it is. */
  lemma {:induction false} RanNothing(sq: IoSq, ring: seq<Entry>, first: nat, cached: Meta, pkts: seq<TxCtx>, p: TxCtx,
                                      entries: seq<Entry>, submitted: nat, cachedMeta: Meta)
    requires HoldsRun(sq.cfg, entries, submitted, cachedMeta, ring, first, cached, pkts)
    requires sq.cachedMeta == cachedMeta && sq.Carries(entries, submitted, cachedMeta, p)
    requires p.MetaOnly() && !SendsMeta(sq.cfg, cachedMeta, p)
    ensures Ran(sq, ring, first, cached, pkts)
  {
    hide RunLines, CachedAfter;
    var chunks := PacketChunks(sq.cfg, p, false);
    assert chunks == [];
    assert Written(sq.cfg, submitted, chunks, PushedHeader(sq.cfg, p)) == [];
  }

  /** A device that reads the entries of such a run, up to a lap, finds its packets; older entries are as they were. */
  lemma {:induction false} RunIsInRing(sq: IoSq, ring: seq<Entry>, first: nat, cached: Meta, stored: Meta,
                                       pkts: seq<TxCtx>)
    requires Ran(sq, ring, first, cached, pkts) && sq.submitted - first <= sq.cfg.depth
    requires forall i :: 0 <= i < |pkts| ==> Sendable(sq.cfg, pkts[i])
    ensures var q, n := sq.cfg.depth, sq.submitted - first;
            && DecodeRun(sq.cfg, first, stored, LinesFrom(q, sq.entries[..], first, n))
               == ExpectedRun(sq.cfg, cached, stored, pkts)
            && LinesFrom(q, sq.entries[..], first + n, q - n) == LinesFrom(q, ring, first + n, q - n)
  {
    hide RunLines, CachedAfter, DecodeRun, ExpectedRun, Stored, LinesFrom;
    StoredReadsBack(sq.cfg.depth, ring, first, RunLines(sq.cfg, first, cached, pkts));
    RunReadsBack(sq.cfg, first, cached, stored, pkts);
  }

  /**
    Sends packets on one queue until one is refused or they would take more than
    a lap, while doorbells are rung and entries acknowledged at will. What a
    device then reads from ring memory are the packets sent, in order, each with
    the meta data that applies to it, and the other entries are as they were.
   */
  method SubmitRun(sq: IoSq, pkts: seq<TxCtx>, ghost stored: Meta) returns (sent: nat, rc: Rc)
    requires sq.Valid() && sq.cfg.Valid() && forall i :: 0 <= i < |pkts| ==> sq.MappedData(pkts[i])
    modifies sq, sq.entries, sq.bounceBuffers
    ensures sent <= |pkts| && (rc != Ok ==> sent < |pkts|)
    ensures rc != NoSpace ==>
              && sq.Valid()
              && Ran(sq, old(sq.entries[..]), old(sq.submitted), old(sq.cachedMeta), pkts[..sent])
              && var q, first, n := sq.cfg.depth, old(sq.submitted), sq.submitted - old(sq.submitted);
              && 0 <= n <= q
              && DecodeRun(sq.cfg, first, stored, LinesFrom(q, sq.entries[..], first, n))
                 == ExpectedRun(sq.cfg, old(sq.cachedMeta), stored, pkts[..sent])
              && LinesFrom(q, sq.entries[..], first + n, q - n) == LinesFrom(q, old(sq.entries[..]), first + n, q - n)
    ensures rc == NoMem ==> !PassesSpaceCheck(sq.cfg, pkts[sent], sq.Free())
    ensures rc == Ok && sent < |pkts| ==>
              |RunLines(sq.cfg, old(sq.submitted), old(sq.cachedMeta), pkts[..sent + 1])| > sq.cfg.depth
  {
    hide PacketChunks, Written, SendsMeta, Stored, IoSq.Valid, IoSq.Carries, RunLines, CachedAfter;
    hide DecodeRun, ExpectedRun, LinesFrom, PassesSpaceCheck, IoSq.Mapped, NextCachedMeta;
    ghost var ring, first, cached := sq.entries[..], sq.submitted, sq.cachedMeta;
    sent, rc := 0, Ok;
    var lines := 0;
    StartOfRun(sq);
    assert pkts[..0] == [];
    while sent < |pkts|
      invariant sq.Valid() && sent <= |pkts| && rc == Ok
      invariant Ran(sq, ring, first, cached, pkts[..sent]) && lines == sq.submitted - first <= sq.cfg.depth
    {
      OthersAct(sq);
      assert pkts[..sent + 1] == pkts[..sent] + [pkts[sent]];
      var uses := sq.Uses(pkts[sent]);
      if lines + uses > sq.cfg.depth {
        OnePacketMore(sq.cfg, first, cached, pkts[..sent], pkts[sent]);
        break;
      }
      ghost var entries, submitted, cachedMeta := sq.entries[..], sq.submitted, sq.cachedMeta;
      var nbHwDesc;
      rc, nbHwDesc := sq.Submit(pkts[sent]);
      if rc != Ok {
        break;
      }
      RanOneMore(sq, ring, first, cached, pkts[..sent], pkts[sent], entries, submitted, cachedMeta);
      lines, sent := lines + uses, sent + 1;
    }
    if rc != NoSpace {
      MappedAreSendable(sq, pkts);
      RunIsInRing(sq, ring, first, cached, stored, pkts[..sent]);
    }
  }

  /** Doorbells and acknowledgements between two packets. */
  method OthersAct(sq: IoSq)
    requires sq.Valid()
    modifies sq`entriesInTxBurstLeft, sq`rung, sq`nextToComp, sq`acked
    ensures sq.Valid()
  {
    hide IoSq.Valid;
    sq.ValidHasCore();
    if * {
      var _ := sq.WriteDoorbell();
    }
    var free := sq.FreeQEntries();
    var elem: nat := *;
    if elem <= sq.cfg.depth - 1 - free {
      sq.CompAck(elem, elem);
    }
  }

  lemma StartOfRun(sq: IoSq)
    requires sq.Valid()
    ensures sq.cfg.Valid() && Ran(sq, sq.entries[..], sq.submitted, sq.cachedMeta, [])
  {
  }

  lemma MappedAreSendable(sq: IoSq, pkts: seq<TxCtx>)
    requires forall i :: 0 <= i < |pkts| ==> sq.MappedData(pkts[i])
    ensures forall i :: 0 <= i < |pkts| ==> Sendable(sq.cfg, pkts[i])
  {
  }
}
