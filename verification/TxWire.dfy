/**
  What a transmit packet looks like in the submission ring: descriptors with
  their bit fields, the lines they are laid out in, and the device-side reader
  that walks those lines again.

  Memory is modelled byte by byte: a cell says which byte of which descriptor,
  or which header byte, was stored there last, so that an overlap between the
  descriptors of the first line and the pushed header would be visible.
 */
module TxWire {
  import opened Words

  type Byte = n: nat | n < 256

  /** Size of one transmit descriptor in bytes. */
  const DESC_SIZE: nat := 16

  datatype Meta = Meta(mss: nat, l3HdrLen: nat, l3HdrOffset: nat, l4HdrLen: nat)

  const ZERO_META := Meta(0, 0, 0, 0)

  datatype Offload = Offload(tso: bool, l3Proto: nat, l4Proto: nat, l3Csum: bool, l4Csum: bool, l4Partial: bool)

  const NO_OFFLOAD := Offload(false, 0, 0, false, false, false)

  datatype Buf = Buf(paddr: nat, len: nat)

  /** The caller's description of one packet. */
  datatype TxCtx = TxCtx(
    meta: Meta,
    bufs: seq<Buf>,
    pushHeader: Option<seq<Byte>>,
    headerLen: nat,
    reqId: nat,
    metaValid: bool,
    df: bool,
    offload: Offload)
  {
    /** Every field fits the width of its C type; a pushed header has the bytes it announces. */
    predicate Typed() {
      && |bufs| < U16 && headerLen < U16 && reqId < U16
      && meta.mss < U16 && meta.l3HdrLen < U16 && meta.l3HdrOffset < U16 && meta.l4HdrLen < U16
      && (forall i :: 0 <= i < |bufs| ==> bufs[i].len < U16)
      && (pushHeader.Some? ==> |pushHeader.value| >= headerLen)
    }

    /** "The caller doesn't want to send packets": at most a meta descriptor is written. */
    predicate MetaOnly() {
      |bufs| == 0 && headerLen == 0
    }
  }

  datatype TxFields = TxFields(
    length: nat, addrLo: nat, addrHi: nat, headerLength: nat, reqIdLo: nat, reqIdHi: nat,
    df: bool, offload: Offload, compReq: bool, first: bool, last: bool)

  /** A transmit descriptor straight after its memset. */
  const ZERO_TX := TxFields(0, 0, 0, 0, 0, 0, false, NO_OFFLOAD, false, false, false)

  datatype Desc =
    | TxDesc(tx: TxFields)
    | MetaDesc(mssLo: nat, mssHi: nat, l3HdrLen: nat, l3HdrOff: nat, l4HdrLen: nat, store: bool)
    | RxDesc(length: nat, addrLo: nat, addrHi: nat, reqId: nat)
  {
    predicate First() { TxDesc? ==> tx.first }

    predicate Last() { if TxDesc? then tx.last else RxDesc? }
  }

  datatype Cell = Zero | HeaderByte(b: Byte) | DescByte(d: Desc, phase: nat, k: nat)

  /** The geometry of a submission queue; a host-memory queue has one descriptor per entry. */
  datatype SqConfig = SqConfig(
    llq: bool,
    depth: nat,
    lineSize: nat,
    descsBeforeHeader: nat,
    descsPerEntry: nat,
    singleDescPerEntry: bool,
    maxTxBurst: nat,
    disableMetaCaching: bool,
    txMaxHeaderSize: nat,
    dmaAddrBits: nat)
  {
    predicate Valid() {
      && IsDepth(depth)
      && 32 <= dmaAddrBits <= 48
      && maxTxBurst < U16
      && txMaxHeaderSize <= 256
      && (llq ==>
            && 1 <= descsBeforeHeader
            && DESC_SIZE * descsBeforeHeader <= lineSize <= 256
            && 1 <= descsPerEntry == LineCapacity())
      && (!llq ==> !disableMetaCaching)
    }

    /** Descriptors in a line after the first, as recomputed whenever a line is closed. */
    function LineCapacity(): nat {
      if singleDescPerEntry then 1 else lineSize / DESC_SIZE
    }

    function Before(): nat { if llq then descsBeforeHeader else 1 }

    function Per(): nat { if llq then descsPerEntry else 1 }

    function Size(): nat { if llq then lineSize else DESC_SIZE }

    predicate HasBurst() { llq && maxTxBurst > 0 }
  }

  // ---------------------------------------------------------------- descriptors

  function EncodeMeta(m: Meta): Desc {
    MetaDesc(m.mss % 1024, m.mss / 1024 % 16, m.l3HdrLen % 256, m.l3HdrOffset % 256, m.l4HdrLen % 64, true)
  }

  function TruncMeta(m: Meta): Meta {
    Meta(m.mss % 0x4000, m.l3HdrLen % 256, m.l3HdrOffset % 256, m.l4HdrLen % 64)
  }

  function TruncOffload(o: Offload): Offload {
    o.(l3Proto := o.l3Proto % 16, l4Proto := o.l4Proto % 32)
  }

  function AddrHi(paddr: nat, dmaAddrBits: nat): nat
    requires dmaAddrBits >= 32
  {
    (paddr / U32 % Pow2(dmaAddrBits - 32)) % U16
  }

  function WithBuf(f: TxFields, b: Buf, dmaAddrBits: nat): TxFields
    requires dmaAddrBits >= 32
  {
    f.(length := b.len % U16, addrLo := b.paddr % U32, addrHi := AddrHi(b.paddr, dmaAddrBits))
  }

  /** The first data descriptor before a buffer is put into it. */
  function HeadFields(ctx: TxCtx, haveMeta: bool): TxFields {
    TxFields(0, 0, 0, ctx.headerLen % 256, ctx.reqId % 1024, ctx.reqId / 1024 % 64, ctx.df,
             if ctx.metaValid then TruncOffload(ctx.offload) else NO_OFFLOAD, true, !haveMeta, false)
  }

  /** Data descriptor i before it may be marked LAST. */
  function OpenFields(ctx: TxCtx, haveMeta: bool, dmaAddrBits: nat, i: nat): TxFields
    requires dmaAddrBits >= 32
  {
    WithBuf(if i == 0 then HeadFields(ctx, haveMeta) else ZERO_TX,
            if i < |ctx.bufs| then ctx.bufs[i] else Buf(0, 0), dmaAddrBits)
  }

  /** Descriptor i of the data part of a packet. */
  function DataDesc(ctx: TxCtx, haveMeta: bool, dmaAddrBits: nat, i: nat): Desc
    requires dmaAddrBits >= 32
  {
    TxDesc(OpenFields(ctx, haveMeta, dmaAddrBits, i).(last := i + 1 >= |ctx.bufs|))
  }

  function DataCount(ctx: TxCtx): nat {
    if ctx.MetaOnly() then 0 else if |ctx.bufs| == 0 then 1 else |ctx.bufs|
  }

  /** All descriptors of a packet, in order, without their phase bits. */
  function Descs(ctx: TxCtx, haveMeta: bool, dmaAddrBits: nat): (ds: seq<Desc>)
    requires dmaAddrBits >= 32
    ensures |ds| == (if haveMeta then 1 else 0) + DataCount(ctx)
  {
    (if haveMeta then [EncodeMeta(ctx.meta)] else [])
    + seq(DataCount(ctx), i requires 0 <= i => DataDesc(ctx, haveMeta, dmaAddrBits, i))
  }

  lemma {:induction false} DescAt(ctx: TxCtx, haveMeta: bool, dmaAddrBits: nat, i: nat)
    requires dmaAddrBits >= 32 && i < DataCount(ctx)
    ensures var ds, m := Descs(ctx, haveMeta, dmaAddrBits), if haveMeta then 1 else 0;
            m + i < |ds| && ds[m + i] == DataDesc(ctx, haveMeta, dmaAddrBits, i)
  {
  }

  /** A packet without buffers sends the header descriptor with its buffer fields clear. */
  lemma {:induction false} HeaderOnlyDesc(ctx: TxCtx, haveMeta: bool, dmaAddrBits: nat)
    requires dmaAddrBits >= 32 && ctx.bufs == []
    ensures DataDesc(ctx, haveMeta, dmaAddrBits, 0) == TxDesc(HeadFields(ctx, haveMeta).(last := true))
  {
    DivModUnique(0, Pow2(dmaAddrBits - 32), 0, 0);
  }

  /** FIRST marks exactly the first descriptor of a packet and LAST exactly the last. */
  lemma FirstAndLastMarkTheEnds(ctx: TxCtx, haveMeta: bool, dmaAddrBits: nat, i: nat)
    requires dmaAddrBits >= 32 && !ctx.MetaOnly()
    requires i < |Descs(ctx, haveMeta, dmaAddrBits)|
    ensures Descs(ctx, haveMeta, dmaAddrBits)[i].First() <==> i == 0
    ensures Descs(ctx, haveMeta, dmaAddrBits)[i].Last() <==> i == |Descs(ctx, haveMeta, dmaAddrBits)| - 1
  {
    var m := if haveMeta then 1 else 0;
    if i >= m {
      assert Descs(ctx, haveMeta, dmaAddrBits)[i] == DataDesc(ctx, haveMeta, dmaAddrBits, i - m);
    }
  }

  // ---------------------------------------------------------------- lines

  /** Cuts descriptors into lines: the first holds `cap` of them, every later one `per`. */
  function Chunks(ds: seq<Desc>, cap: nat, per: nat): (cs: seq<seq<Desc>>)
    requires cap > 0 && per > 0
    ensures forall j :: 0 <= j < |cs| ==> 0 < |cs[j]| <= if j == 0 then cap else per
    decreases |ds|
  {
    if ds == [] then []
    else if |ds| <= cap then [ds]
    else [ds[..cap]] + Chunks(ds[cap..], per, per)
  }

  lemma {:induction false} ChunksFlush(cur: seq<Desc>, rest: seq<Desc>, room: nat, per: nat)
    requires room > 0 && per > 0 && |cur| == room
    ensures Chunks(cur + rest, room, per) == [cur] + Chunks(rest, per, per)
  {
    if rest == [] {
      assert cur + rest == cur;
    } else {
      assert (cur + rest)[..room] == cur && (cur + rest)[room..] == rest;
    }
  }

  function PacketChunks(cfg: SqConfig, ctx: TxCtx, haveMeta: bool): (cs: seq<seq<Desc>>)
    requires cfg.Valid()
  {
    Chunks(Descs(ctx, haveMeta, cfg.dmaAddrBits), cfg.Before(), cfg.Per())
  }

  /** Ring entries that a packet takes. */
  function EntriesUsed(cfg: SqConfig, ctx: TxCtx, haveMeta: bool): nat
    requires cfg.Valid()
  {
    |PacketChunks(cfg, ctx, haveMeta)|
  }

  function EntriesFor(n: nat, cap: nat, per: nat): nat
    requires per > 0
  {
    if n == 0 then 0 else 1 + if n > cap then DivRoundUp(n - cap, per) else 0
  }

  lemma DivRoundUpStep(n: nat, per: nat)
    requires per > 0
    ensures n > per ==> DivRoundUp(n, per) == 1 + DivRoundUp(n - per, per)
    ensures 0 < n <= per ==> DivRoundUp(n, per) == 1
  {
    if n > per {
      var c, r := (n - 1) / per, (n - 1) % per;
      DivMod(n - 1, per);
      MulAdds(per, c, 1);
      DivModUnique(n + per - 1, per, c + 1, r);
    } else if n > 0 {
      DivModUnique(n + per - 1, per, 1, n - 1);
    }
  }

  lemma {:induction false} ChunkCount(ds: seq<Desc>, cap: nat, per: nat)
    requires cap > 0 && per > 0
    ensures |Chunks(ds, cap, per)| == EntriesFor(|ds|, cap, per)
    decreases |ds|
  {
    if |ds| > cap {
      ChunkCount(ds[cap..], per, per);
      DivRoundUpStep(|ds| - cap, per);
    }
  }

  function CellAt(ds: seq<Desc>, phase: nat, hdr: seq<Byte>, before: nat, p: nat): Cell {
    if p / DESC_SIZE < |ds| then DescByte(ds[p / DESC_SIZE], phase, p % DESC_SIZE)
    else if DESC_SIZE * before <= p < DESC_SIZE * before + |hdr| then HeaderByte(hdr[p - DESC_SIZE * before])
    else Zero
  }

  /** A line of `size` bytes: descriptors from the start, the header after `before` descriptor places. */
  function Line(ds: seq<Desc>, phase: nat, hdr: seq<Byte>, before: nat, size: nat): (line: seq<Cell>)
    ensures |line| == size
  {
    seq(size, p requires 0 <= p => CellAt(ds, phase, hdr, before, p))
  }

  /**
    Where the bytes of a line are: 16 for each descriptor, from the start, then the
    header behind the places reserved for descriptors, and zeros everywhere else.
   */
  lemma {:induction false} LineLayout(ds: seq<Desc>, phase: nat, hdr: seq<Byte>, before: nat, size: nat, p: nat)
    requires p < size && (hdr != [] ==> |ds| <= before)
    ensures var line := Line(ds, phase, hdr, before, size);
            && (p < 16 * |ds| ==> line[p] == DescByte(ds[p / 16], phase, p % 16))
            && (p >= 16 * |ds| && 16 * before <= p < 16 * before + |hdr| ==>
                  line[p] == HeaderByte(hdr[p - 16 * before]))
            && (p >= 16 * |ds| && !(16 * before <= p < 16 * before + |hdr|) ==> line[p] == Zero)
  {
  }

  /** A line has places for as many whole descriptors of 16 bytes as fit, unless it is to hold one only. */
  lemma {:induction false} LineCapacityFits(cfg: SqConfig)
    requires cfg.Valid()
    ensures !cfg.llq ==> cfg.Size() == 16 && cfg.Per() == cfg.Before() == 1
    ensures cfg.llq ==> cfg.Size() == cfg.lineSize && 16 * cfg.Before() <= cfg.lineSize
    ensures cfg.llq && !cfg.singleDescPerEntry ==> 16 * cfg.Per() <= cfg.lineSize < 16 * cfg.Per() + 16
    ensures cfg.llq && cfg.singleDescPerEntry ==> cfg.Per() == 1
  {
    hide IsDepth;
  }

  /** The entries a packet leaves in the ring when its first line is the n-th of the queue. */
  function Written(cfg: SqConfig, n: nat, chunks: seq<seq<Desc>>, hdr: seq<Byte>): (lines: seq<seq<Cell>>)
    requires cfg.depth > 0
    ensures |lines| == |chunks|
  {
    seq(|chunks|, j requires 0 <= j < |chunks| =>
      Line(chunks[j], Phase(cfg.depth, n + j), if j == 0 then hdr else [], cfg.Before(), cfg.Size()))
  }

  /** The bytes pushed into the first line: none on a host-memory queue. */
  function PushedHeader(cfg: SqConfig, ctx: TxCtx): seq<Byte> {
    if cfg.llq && ctx.pushHeader.Some? && ctx.headerLen <= |ctx.pushHeader.value|
    then ctx.pushHeader.value[..ctx.headerLen] else []
  }
}
