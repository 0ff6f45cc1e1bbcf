/**
  The cheap checks made before a packet is written: the space check, which is
  allowed to be rough but must be sound, and the doorbell predictor, which must
  be exact, both compared with the entries that are really written.
 */
module SqAccounting {
  import opened Words
  import opened TxWire

  datatype Rc = Ok | NoMem | NoSpace | Inval | Fault

  /** Free entries seen through the two 16-bit counters. */
  function FreeEntries(depth: nat, tail: nat, nextToComp: nat): int {
    depth - 1 - (tail - nextToComp) % U16
  }

  function EnoughSpace(cfg: SqConfig, free: int, required: nat): bool
    requires cfg.Valid()
  {
    if !cfg.llq then free >= required else free > required / cfg.descsPerEntry + 2
  }

  function MetaChanged(cached: Meta, ctx: TxCtx): bool {
    ctx.metaValid && cached != ctx.meta
  }

  /** Whether a meta descriptor is written in front of the packet. */
  function SendsMeta(cfg: SqConfig, cached: Meta, ctx: TxCtx): bool {
    cfg.disableMetaCaching || MetaChanged(cached, ctx)
  }

  /** The meta data the driver remembers after the packet. */
  function NextCachedMeta(cfg: SqConfig, cached: Meta, ctx: TxCtx): Meta {
    if !cfg.disableMetaCaching && MetaChanged(cached, ctx) then ctx.meta else cached
  }

  function PredictedEntries(cfg: SqConfig, cached: Meta, ctx: TxCtx): nat
    requires cfg.Valid() && cfg.llq
  {
    var numDescs := (|ctx.bufs| + if SendsMeta(cfg, cached, ctx) then 1 else 0) % U16;
    1 + if numDescs > cfg.descsBeforeHeader
        then DivRoundUp(numDescs - cfg.descsBeforeHeader, cfg.descsPerEntry) else 0
  }

  function DoorbellNeeded(cfg: SqConfig, cached: Meta, entriesLeft: nat, ctx: TxCtx): bool
    requires cfg.Valid()
  {
    cfg.HasBurst() && PredictedEntries(cfg, cached, ctx) > entriesLeft
  }

  lemma {:induction false} EntriesUsedCount(cfg: SqConfig, ctx: TxCtx, haveMeta: bool)
    requires cfg.Valid()
    ensures EntriesUsed(cfg, ctx, haveMeta)
            == EntriesFor((if haveMeta then 1 else 0) + DataCount(ctx), cfg.Before(), cfg.Per())
  {
    ChunkCount(Descs(ctx, haveMeta, cfg.dmaAddrBits), cfg.Before(), cfg.Per());
  }

  /** The entries a packet takes do not depend on its request id. */
  lemma {:induction false} EntriesUsedAnyId(cfg: SqConfig, ctx: TxCtx, haveMeta: bool, reqId: nat)
    requires cfg.Valid()
    ensures EntriesUsed(cfg, ctx.(reqId := reqId), haveMeta) == EntriesUsed(cfg, ctx, haveMeta)
    ensures EntriesUsed(cfg, ctx, haveMeta) >= 1 <==> !ctx.MetaOnly() || haveMeta
  {
    EntriesUsedCount(cfg, ctx, haveMeta);
    EntriesUsedCount(cfg, ctx.(reqId := reqId), haveMeta);
  }

  lemma {:induction false} DivBounds(a: nat, per: nat)
    requires per > 0
    ensures a / per <= DivRoundUp(a, per) <= a / per + 1
    ensures a <= per * DivRoundUp(a, per)
  {
    var c, r := a / per, a % per;
    DivMod(a, per);
    if r == 0 {
      DivModUnique(a + per - 1, per, c, per - 1);
    } else {
      MulAdds(per, c, 1);
      DivModUnique(a + per - 1, per, c + 1, r - 1);
    }
  }

  lemma {:induction false} DivRoundUpMonotone(a: nat, b: nat, per: nat)
    requires per > 0 && a <= b
    ensures DivRoundUp(a, per) <= DivRoundUp(b, per)
    ensures a / per <= b / per
  {
    DivMonotone(a + per - 1, b + per - 1, per);
    DivMonotone(a, b, per);
  }

  lemma DivMonotone(a: nat, b: nat, per: nat)
    requires per > 0 && a <= b
    ensures a / per <= b / per
  {
    var x, y := a / per, b / per;
    DivMod(a, per);
    DivMod(b, per);
    MulAdds(per, x, y);
    MulBounds(per, x - y);
  }

  // ---------------------------------------------------------------- space check

  /** The check made before a packet is written: room for its buffers and one meta descriptor. */
  predicate PassesSpaceCheck(cfg: SqConfig, ctx: TxCtx, free: int)
    requires cfg.Valid()
  {
    EnoughSpace(cfg, free, (|ctx.bufs| + 1) % U16)
  }

  /** When the check covers what is written. */
  predicate SpaceCheckCovers(cfg: SqConfig, ctx: TxCtx, haveMeta: bool) {
    && |ctx.bufs| + 1 < U16
    && (cfg.llq || |ctx.bufs| >= 1 || !haveMeta || ctx.headerLen == 0)
  }

  /** Lines for up to `required + 1` descriptors: one for the header line, one for rounding. */
  lemma {:induction false} RoughLineBound(n: nat, before: nat, per: nat, required: nat)
    requires per > 0 && before >= 1 && n <= required + 1
    ensures EntriesFor(n, before, per) <= required / per + 2
  {
    if n > before {
      DivRoundUpMonotone(n - before, required, per);
    }
    DivBounds(required, per);
  }

  lemma HostEntries(n: nat)
    ensures EntriesFor(n, 1, 1) == n
  {
    if n > 1 {
      DivModUnique(n - 1, 1, n - 1, 0);
    }
  }

  lemma {:induction false} SpaceCheckSound(cfg: SqConfig, ctx: TxCtx, haveMeta: bool, free: int)
    requires cfg.Valid() && SpaceCheckCovers(cfg, ctx, haveMeta)
    requires PassesSpaceCheck(cfg, ctx, free)
    ensures EntriesUsed(cfg, ctx, haveMeta) <= free
  {
    hide EntriesUsed, EntriesFor, Descs, PacketChunks, Chunks, IsDepth;
    var n := (if haveMeta then 1 else 0) + DataCount(ctx);
    EntriesUsedCount(cfg, ctx, haveMeta);
    Below16(|ctx.bufs| + 1);
    if cfg.llq {
      RoughLineBound(n, cfg.descsBeforeHeader, cfg.descsPerEntry, |ctx.bufs| + 1);
    } else {
      HostEntries(n);
    }
  }

  lemma ManyDescsManyLines(a: nat, per: nat)
    requires 0 < per <= 16 && a >= 64
    ensures DivRoundUp(a, per) >= 4
  {
    DivModUnique(per * 4, per, 4, 0);
    DivMonotone(per * 4, a + per - 1, per);
  }

  /** The least number of free entries that passes the check for `required` buffers. */
  function LeastFree(cfg: SqConfig, required: nat): int
    requires cfg.Valid()
  {
    if cfg.llq then required / cfg.descsPerEntry + 3 else required
  }

  /**
    The check passes if and only if, on a host queue, as many entries are free as
    required, and on a low-latency queue, the free lines besides two have places
    for more descriptors than required.
   */
  lemma {:induction false} EnoughSpaceIff(cfg: SqConfig, free: int, required: nat)
    requires cfg.Valid()
    ensures EnoughSpace(cfg, free, required)
            <==> if cfg.llq then required < cfg.descsPerEntry * (free - 2) else required <= free
  {
    hide IsDepth;
    if cfg.llq {
      var per, lines := cfg.descsPerEntry, required / cfg.descsPerEntry;
      DivMod(required, per);
      MulBounds(per, free - 2 - lines);
      assert per * (free - 2 - lines) == per * (free - 2) - per * lines;
    }
  }

  lemma PassesFromLeastFree(cfg: SqConfig, free: int, required: nat)
    requires cfg.Valid()
    ensures 0 <= LeastFree(cfg, required) && (EnoughSpace(cfg, free, required) <==> free >= LeastFree(cfg, required))
  {
    if cfg.llq {
      DivMod(required, cfg.descsPerEntry);
    }
  }

  /** A packet outside the condition takes more than the least number of free entries that passes. */
  lemma {:induction false} UncoveredTakesMore(cfg: SqConfig, ctx: TxCtx, haveMeta: bool)
    requires cfg.Valid() && ctx.Typed() && !SpaceCheckCovers(cfg, ctx, haveMeta)
    ensures LeastFree(cfg, (|ctx.bufs| + 1) % U16) < EntriesUsed(cfg, ctx, haveMeta)
  {
    hide EntriesUsed, Descs, PacketChunks, Chunks, IsDepth;
    var n := (if haveMeta then 1 else 0) + DataCount(ctx);
    EntriesUsedCount(cfg, ctx, haveMeta);
    if cfg.llq {
      ManyDescsManyLines(n - cfg.descsBeforeHeader, cfg.descsPerEntry);
      DivModUnique(0, cfg.descsPerEntry, 0, 0);
    } else {
      HostEntries(n);
    }
  }

  /**
    The space check is sound for a packet, at every number of entries that can be
    free in a queue of this depth, exactly for packets with fewer than 65535
    buffers that, on a host-memory queue, have a buffer or need a single
    descriptor; and for those that no queue of this depth ever has room for.
   */
  lemma {:induction false} SpaceCheckSoundIff(cfg: SqConfig, ctx: TxCtx, haveMeta: bool)
    requires cfg.Valid() && ctx.Typed()
    ensures (forall free :: 0 <= free < cfg.depth && PassesSpaceCheck(cfg, ctx, free)
                ==> EntriesUsed(cfg, ctx, haveMeta) <= free)
            <==> SpaceCheckCovers(cfg, ctx, haveMeta) || cfg.depth <= LeastFree(cfg, (|ctx.bufs| + 1) % U16)
  {
    hide EntriesUsed, SpaceCheckCovers, LeastFree, EnoughSpace, IsDepth;
    var least := LeastFree(cfg, (|ctx.bufs| + 1) % U16);
    if SpaceCheckCovers(cfg, ctx, haveMeta) {
      forall free | 0 <= free < cfg.depth && PassesSpaceCheck(cfg, ctx, free)
        ensures EntriesUsed(cfg, ctx, haveMeta) <= free
      {
        SpaceCheckSound(cfg, ctx, haveMeta, free);
      }
    } else if cfg.depth <= least {
      forall free | 0 <= free < cfg.depth ensures !PassesSpaceCheck(cfg, ctx, free) {
        PassesFromLeastFree(cfg, free, (|ctx.bufs| + 1) % U16);
      }
    } else {
      UncoveredTakesMore(cfg, ctx, haveMeta);
      PassesFromLeastFree(cfg, least, (|ctx.bufs| + 1) % U16);
      assert PassesSpaceCheck(cfg, ctx, least);
    }
  }

  /**
    The outcome of sending a packet with `free` free entries and `entriesLeft`
    of the burst budget: the first check that fails, in the order they are made.
   */
  function Verdict(cfg: SqConfig, cached: Meta, ctx: TxCtx, free: int, entriesLeft: nat): Rc
    requires cfg.Valid()
  {
    if !PassesSpaceCheck(cfg, ctx, free) then NoMem
    else if ctx.headerLen > cfg.txMaxHeaderSize || (cfg.llq && ctx.pushHeader.None?) then Inval
    else if cfg.llq && DESC_SIZE * cfg.descsBeforeHeader + ctx.headerLen > cfg.lineSize then Fault
    else if cfg.HasBurst() && entriesLeft < EntriesUsed(cfg, ctx, SendsMeta(cfg, cached, ctx)) then NoSpace
    else Ok
  }

  // ---------------------------------------------------------------- doorbell predictor

  /** When the predictor counts the very entries that are written. */
  predicate PredictorCovers(cfg: SqConfig, ctx: TxCtx, haveMeta: bool) {
    && |ctx.bufs| + (if haveMeta then 1 else 0) < U16
    && (|ctx.bufs| >= 1 || !haveMeta || cfg.descsBeforeHeader >= 2)
  }

  /**
    For a packet with a header or buffers, the predicted entries are those
    written exactly when covered; they are never more.
   */
  lemma {:induction false} PredictorExactIff(cfg: SqConfig, cached: Meta, ctx: TxCtx)
    requires cfg.Valid() && cfg.llq && ctx.Typed() && !ctx.MetaOnly()
    ensures PredictedEntries(cfg, cached, ctx) == EntriesUsed(cfg, ctx, SendsMeta(cfg, cached, ctx))
            <==> PredictorCovers(cfg, ctx, SendsMeta(cfg, cached, ctx))
    ensures PredictedEntries(cfg, cached, ctx) <= EntriesUsed(cfg, ctx, SendsMeta(cfg, cached, ctx))
  {
    hide PacketChunks, Descs, IsDepth, DivRoundUp;
    var haveMeta := SendsMeta(cfg, cached, ctx);
    var n := (if haveMeta then 1 else 0) + DataCount(ctx);
    EntriesUsedCount(cfg, ctx, haveMeta);
    if !PredictorCovers(cfg, ctx, haveMeta) {
      if |ctx.bufs| > 0 {
        ManyDescsManyLines(n - cfg.descsBeforeHeader, cfg.descsPerEntry);
      } else {
        DivRoundUpStep(1, cfg.descsPerEntry);
      }
    }
  }

  /** The budget a packet finds: the doorbell refills it first if it seems to be needed. */
  function BudgetFor(cfg: SqConfig, cached: Meta, entriesLeft: nat, ctx: TxCtx): nat
    requires cfg.Valid()
  {
    if DoorbellNeeded(cfg, cached, entriesLeft, ctx) then cfg.maxTxBurst else entriesLeft
  }

  lemma BudgetAtMost(cfg: SqConfig, cached: Meta, entriesLeft: nat, ctx: TxCtx)
    requires cfg.Valid() && entriesLeft <= cfg.maxTxBurst
    ensures BudgetFor(cfg, cached, entriesLeft, ctx) <= cfg.maxTxBurst
  {
  }

  /** The packet needs no more entries than one burst holds, and the predictor counts them right. */
  predicate FitsBurst(cfg: SqConfig, ctx: TxCtx, haveMeta: bool)
    requires cfg.Valid()
  {
    cfg.HasBurst() ==>
      ctx.MetaOnly() || (EntriesUsed(cfg, ctx, haveMeta) <= cfg.maxTxBurst && PredictorCovers(cfg, ctx, haveMeta))
  }

  /** Cached meta data does not matter to a packet without meta data of its own. */
  lemma AnyCachedMeta(cfg: SqConfig, cached: Meta, entriesLeft: nat, ctx: TxCtx)
    requires cfg.Valid() && !ctx.metaValid
    ensures BudgetFor(cfg, cached, entriesLeft, ctx) == BudgetFor(cfg, ZERO_META, entriesLeft, ctx)
    ensures SendsMeta(cfg, cached, ctx) == cfg.disableMetaCaching
  {
    hide DivRoundUp, IsDepth;
  }

  /** A packet finds its budget, whatever is left of the last burst, exactly when it fits one burst. */
  lemma {:induction false} FitsBurstIff(cfg: SqConfig, cached: Meta, ctx: TxCtx)
    requires cfg.Valid() && cfg.HasBurst() && ctx.Typed()
    ensures var haveMeta := SendsMeta(cfg, cached, ctx);
            (forall left :: 0 <= left <= cfg.maxTxBurst ==>
               EntriesUsed(cfg, ctx, haveMeta) <= BudgetFor(cfg, cached, left, ctx))
            <==> FitsBurst(cfg, ctx, haveMeta)
  {
    hide EntriesUsed, PredictorCovers, IsDepth;
    var haveMeta := SendsMeta(cfg, cached, ctx);
    var used, predicted := EntriesUsed(cfg, ctx, haveMeta), PredictedEntries(cfg, cached, ctx);
    if ctx.MetaOnly() {
      EntriesUsedCount(cfg, ctx, haveMeta);
    } else {
      PredictorExactIff(cfg, cached, ctx);
      hide PredictedEntries;
      assert BudgetFor(cfg, cached, 0, ctx) == cfg.maxTxBurst || predicted == 0;
      if predicted <= cfg.maxTxBurst {
        assert BudgetFor(cfg, cached, predicted, ctx) == predicted;
      }
    }
  }

  /** With the budget left, or a full one when the predictor asks for the doorbell, no fitting packet runs out. */
  lemma {:induction false} FittingNeverRunsOut(cfg: SqConfig, cached: Meta, ctx: TxCtx, free: int, before: nat,
                                               left: nat)
    requires cfg.Valid() && ctx.Typed() && FitsBurst(cfg, ctx, SendsMeta(cfg, cached, ctx))
    requires cfg.HasBurst() ==> before <= cfg.maxTxBurst
    requires left == cfg.maxTxBurst || (left == before && !DoorbellNeeded(cfg, cached, before, ctx))
    ensures Verdict(cfg, cached, ctx, free, left) != NoSpace
  {
    hide EntriesUsed, PredictorCovers, PredictedEntries, FitsBurst, IsDepth, PassesSpaceCheck;
    if cfg.HasBurst() {
      FitsBurstIff(cfg, cached, ctx);
      var w := EntriesUsed(cfg, ctx, SendsMeta(cfg, cached, ctx));
      assert w <= BudgetFor(cfg, cached, before, ctx) && w <= BudgetFor(cfg, cached, cfg.maxTxBurst, ctx);
    }
  }

  // ---------------------------------------------------------------- meta caching

  /** The meta descriptors that a run of packets puts on the wire, one option per packet. */
  function WireMetas(cfg: SqConfig, cached: Meta, pkts: seq<TxCtx>): (wire: seq<Option<Meta>>)
    ensures |wire| == |pkts|
    decreases |pkts|
  {
    if pkts == [] then []
    else [if SendsMeta(cfg, cached, pkts[0]) then Some(TruncMeta(pkts[0].meta)) else None]
         + WireMetas(cfg, NextCachedMeta(cfg, cached, pkts[0]), pkts[1..])
  }

  /** The meta data a device applies to each packet: the one sent with it, or else the last one stored. */
  function AppliedMetas(stored: Meta, wire: seq<Option<Meta>>): (applied: seq<Meta>)
    ensures |applied| == |wire|
    decreases |wire|
  {
    if wire == [] then []
    else
      var m := if wire[0].Some? then wire[0].value else stored;
      [m] + AppliedMetas(m, wire[1..])
  }

  lemma {:induction false} CachingRefinesFrom(cfg: SqConfig, cached: Meta, stored: Meta, pkts: seq<TxCtx>, i: nat)
    requires i < |pkts| && pkts[i].metaValid
    requires !cfg.disableMetaCaching ==> stored == TruncMeta(cached)
    ensures AppliedMetas(stored, WireMetas(cfg, cached, pkts))[i] == TruncMeta(pkts[i].meta)
    decreases |pkts|
  {
    var wire := WireMetas(cfg, cached, pkts);
    if i > 0 {
      var m := if wire[0].Some? then wire[0].value else stored;
      CachingRefinesFrom(cfg, NextCachedMeta(cfg, cached, pkts[0]), m, pkts[1..], i - 1);
      assert wire[1..] == WireMetas(cfg, NextCachedMeta(cfg, cached, pkts[0]), pkts[1..]);
    }
  }

  /**
    Caching refines always sending: a device that starts from zero meta data and
    reuses the last one stored applies to every packet with valid meta data what
    it would apply if a meta descriptor came with every packet.
   */
  lemma {:induction false} CachingRefinesAlwaysSending(cfg: SqConfig, pkts: seq<TxCtx>, i: nat)
    requires i < |pkts| && pkts[i].metaValid
    ensures AppliedMetas(ZERO_META, WireMetas(cfg, ZERO_META, pkts))[i]
            == AppliedMetas(ZERO_META, WireMetas(cfg.(disableMetaCaching := true), ZERO_META, pkts))[i]
            == TruncMeta(pkts[i].meta)
  {
    CachingRefinesFrom(cfg, ZERO_META, ZERO_META, pkts, i);
    CachingRefinesFrom(cfg.(disableMetaCaching := true), ZERO_META, ZERO_META, pkts, i);
  }
  /** The meta data of the last packet that has any; zero before that. */
  function LastMeta(pkts: seq<TxCtx>): Meta {
    if pkts == [] then ZERO_META
    else if pkts[|pkts| - 1].metaValid then pkts[|pkts| - 1].meta
    else LastMeta(pkts[..|pkts| - 1])
  }

  lemma {:induction false} LastMetaFrom(pkt: TxCtx, rest: seq<TxCtx>)
    ensures LastMeta([pkt] + rest)
            == if exists k :: 0 <= k < |rest| && rest[k].metaValid then LastMeta(rest)
               else if pkt.metaValid then pkt.meta else ZERO_META
    decreases |rest|
  {
    var all := [pkt] + rest;
    if rest == [] {
      assert all[..0] == [];
    } else {
      var n := |rest| - 1;
      assert all[..n + 1] == [pkt] + rest[..n] && all[n + 1] == rest[n];
      if !rest[n].metaValid {
        LastMetaFrom(pkt, rest[..n]);
        assert (exists k :: 0 <= k < |rest| && rest[k].metaValid)
            <==> (exists k :: 0 <= k < n && rest[..n][k].metaValid);
      }
    }
  }

  /** With caching, what is remembered after the packets is the last meta data among them. */
  lemma {:induction false} SentFrom(cfg: SqConfig, cached: Meta, pkts: seq<TxCtx>, i: nat)
    requires i < |pkts|
    ensures var last := if exists k :: 0 <= k < i && pkts[k].metaValid then LastMeta(pkts[..i]) else cached;
            WireMetas(cfg, cached, pkts)[i].Some? <==>
              cfg.disableMetaCaching || (pkts[i].metaValid && pkts[i].meta != last)
    decreases |pkts|
  {
    hide LastMeta;
    if i > 0 {
      var rest := pkts[1..];
      SentFrom(cfg, NextCachedMeta(cfg, cached, pkts[0]), rest, i - 1);
      assert pkts[..i] == [pkts[0]] + rest[..i - 1];
      LastMetaFrom(pkts[0], rest[..i - 1]);
      assert forall k :: 0 <= k < i - 1 ==> rest[k] == pkts[k + 1];
      assert forall k :: 0 < k < i ==> rest[k - 1] == pkts[k];
    }
  }

  /**
    Nothing is sent twice: with caching, a packet of a run carries a meta descriptor
    if and only if it has meta data and those are not the last ones before it.
   */
  lemma {:induction false} SentExactlyOnChange(cfg: SqConfig, pkts: seq<TxCtx>, i: nat)
    requires i < |pkts|
    ensures WireMetas(cfg, ZERO_META, pkts)[i].Some? <==>
              cfg.disableMetaCaching || (pkts[i].metaValid && pkts[i].meta != LastMeta(pkts[..i]))
  {
    SentFrom(cfg, ZERO_META, pkts, i);
    NoneValid(pkts[..i]);
  }

  lemma {:induction false} NoneValid(pkts: seq<TxCtx>)
    ensures (forall k :: 0 <= k < |pkts| ==> !pkts[k].metaValid) ==> LastMeta(pkts) == ZERO_META
    decreases |pkts|
  {
    if pkts != [] {
      NoneValid(pkts[..|pkts| - 1]);
    }
  }
}
