/**
  The device's side of the submission ring: a reader that walks the lines from
  the start of a packet to its LAST descriptor, and the proof that it recovers
  the packet that `TxWire` laid out, whatever lies in the ring behind it.
 */
module TxDecode {
  import opened Words
  import opened TxWire

  /** The control bits of a descriptor: where its packet starts and ends, and whether to complete it. */
  datatype Marks = Marks(first: bool, last: bool, compReq: bool)

  datatype View = View(
    meta: Option<Meta>,
    /** The device is told to keep the meta data for later packets. */
    metaKept: bool,
    reqId: nat,
    headerLen: nat,
    pushed: seq<Byte>,
    bufs: seq<Buf>,
    df: bool,
    offload: Offload,
    /** The control bits of every descriptor, meta data included. */
    marks: seq<Marks>,
    /** Data descriptors behind the first one carry a buffer and nothing else. */
    plainTail: bool)

  /** The descriptors of a packet and the number of lines they take. */
  datatype Walked = Stuck | Walked(ds: seq<Desc>, used: nat)

  datatype Decoded = Malformed | Decoded(view: View, used: nat)

  function DescBytes(d: Desc, phase: nat): (b: seq<Cell>)
    ensures |b| == DESC_SIZE
  {
    seq(DESC_SIZE, k requires 0 <= k => DescByte(d, phase, k))
  }

  /** The descriptor in place k of a line, when all its bytes are intact and carry the expected phase. */
  function ReadDesc(line: seq<Cell>, k: nat, phase: nat): Option<Desc> {
    if DESC_SIZE * k + DESC_SIZE <= |line| && line[DESC_SIZE * k].DescByte?
       && line[DESC_SIZE * k..DESC_SIZE * k + DESC_SIZE] == DescBytes(line[DESC_SIZE * k].d, phase)
    then Some(line[DESC_SIZE * k].d) else None
  }

  /** A descriptor is not read any more when any of its bytes is overwritten. */
  lemma {:induction false} OverwrittenIsNotRead(line: seq<Cell>, k: nat, phase: nat, p: nat, c: Cell)
    requires ReadDesc(line, k, phase).Some? && DESC_SIZE * k <= p < DESC_SIZE * k + DESC_SIZE
    ensures p < |line| && (c != line[p] ==> ReadDesc(line[p := c], k, phase) != ReadDesc(line, k, phase))
    ensures line[p] == DescByte(ReadDesc(line, k, phase).value, phase, p - DESC_SIZE * k)
  {
    var from := DESC_SIZE * k;
    var d := line[from].d;
    assert line[from..from + DESC_SIZE][p - from] == DescBytes(d, phase)[p - from];
    assert line[p := c][from..from + DESC_SIZE][p - from] == c;
  }

  /** Descriptors of one line from place k, up to a LAST, an empty place or the line's capacity. */
  function ReadLine(line: seq<Cell>, k: nat, cap: nat, phase: nat): seq<Desc>
    decreases cap - k
  {
    if k >= cap then []
    else match ReadDesc(line, k, phase)
      case None => []
      case Some(d) => if d.Last() then [d] else [d] + ReadLine(line, k + 1, cap, phase)
  }

  function EndsPacket(ds: seq<Desc>): bool {
    ds != [] && ds[|ds| - 1].Last()
  }

  /**
    All descriptors of the packet that starts at lines[0], the n-th line of a
    queue of depth q. A descriptor without its slot's phase is not seen.
   */
  function Walk(q: nat, n: nat, lines: seq<seq<Cell>>, cap: nat, per: nat): Walked
    requires q > 0
    decreases |lines|
  {
    if lines == [] then Stuck
    else
      var ds := ReadLine(lines[0], 0, cap, Phase(q, n));
      if EndsPacket(ds) then Walked(ds, 1)
      else match Walk(q, n + 1, lines[1..], per, per)
        case Stuck => Stuck
        case Walked(rest, used) => Walked(ds + rest, used + 1)
  }

  function ReadHeader(line: seq<Cell>, at: nat, len: nat): Option<seq<Byte>>
    decreases len
  {
    if len == 0 then Some([])
    else if at >= |line| || !line[at].HeaderByte? then None
    else match ReadHeader(line, at + 1, len - 1)
      case None => None
      case Some(rest) => Some([line[at].b] + rest)
  }

  function DecodeMeta(d: Desc): Meta
    requires d.MetaDesc?
  {
    Meta(d.mssLo + 1024 * d.mssHi, d.l3HdrLen, d.l3HdrOff, d.l4HdrLen)
  }

  function DecodeBuf(d: Desc): Buf {
    if d.TxDesc? then Buf(d.tx.addrLo + U32 * d.tx.addrHi, d.tx.length) else Buf(0, 0)
  }

  function DataPart(ds: seq<Desc>): seq<Desc> {
    if ds != [] && ds[0].MetaDesc? then ds[1..] else ds
  }

  function MarksOf(d: Desc): Marks {
    Marks(d.First(), d.Last(), d.TxDesc? && d.tx.compReq)
  }

  /** A data descriptor with nothing but a buffer and control bits. */
  predicate IsPlain(d: Desc) {
    && d.TxDesc? && d.tx.headerLength == 0 && d.tx.reqIdLo == d.tx.reqIdHi == 0 && !d.tx.df
    && !d.tx.offload.tso && d.tx.offload.l3Proto == d.tx.offload.l4Proto == 0
    && !d.tx.offload.l3Csum && !d.tx.offload.l4Csum && !d.tx.offload.l4Partial
  }

  /** The fields that the descriptors of one packet spell out. */
  function ViewOf(ds: seq<Desc>, pushed: seq<Byte>): View
    requires DataPart(ds) != [] && DataPart(ds)[0].TxDesc?
  {
    var data := DataPart(ds);
    View(if ds[0].MetaDesc? then Some(DecodeMeta(ds[0])) else None,
         ds[0].MetaDesc? && ds[0].store,
         data[0].tx.reqIdLo + 1024 * data[0].tx.reqIdHi, data[0].tx.headerLength, pushed,
         seq(|data|, i requires 0 <= i < |data| => DecodeBuf(data[i])),
         data[0].tx.df, data[0].tx.offload,
         seq(|ds|, i requires 0 <= i < |ds| => MarksOf(ds[i])),
         forall i :: 0 < i < |data| ==> IsPlain(data[i]))
  }

  /** What a device makes of the packet that starts at lines[0], the n-th line of the queue. */
  function Decode(cfg: SqConfig, n: nat, lines: seq<seq<Cell>>): Decoded
    requires cfg.depth > 0
  {
    match Walk(cfg.depth, n, lines, cfg.Before(), cfg.Per())
    case Stuck => Malformed
    case Walked(ds, used) =>
      if DataPart(ds) == [] || !DataPart(ds)[0].TxDesc? then Malformed
      else
        match ReadHeader(lines[0], DESC_SIZE * cfg.Before(), if cfg.llq then DataPart(ds)[0].tx.headerLength else 0)
        case None => Malformed
        case Some(pushed) => Decoded(ViewOf(ds, pushed), used)
  }

  /**
    The control bits of a packet: FIRST on its first descriptor, LAST on its last,
    and a completion asked for by exactly the first data descriptor.
   */
  function PacketMarks(ctx: TxCtx, haveMeta: bool): seq<Marks> {
    var m, n := if haveMeta then 1 else 0, if ctx.bufs == [] then 1 else |ctx.bufs|;
    seq(m + n, i requires 0 <= i => Marks(i == 0, i == m + n - 1, i == m))
  }

  /** The packet as far as the descriptor fields can carry it. */
  function WireView(cfg: SqConfig, ctx: TxCtx, haveMeta: bool): View {
    View(if haveMeta then Some(TruncMeta(ctx.meta)) else None, haveMeta,
         ctx.reqId, ctx.headerLen % 256, PushedHeader(cfg, ctx),
         if ctx.bufs == [] then [Buf(0, 0)]
         else seq(|ctx.bufs|, i requires 0 <= i < |ctx.bufs| =>
                Buf(ctx.bufs[i].paddr % Pow2(cfg.dmaAddrBits), ctx.bufs[i].len)),
         ctx.df,
         if ctx.metaValid then TruncOffload(ctx.offload) else NO_OFFLOAD,
         PacketMarks(ctx, haveMeta), true)
  }

  // ---------------------------------------------------------------- reading lines

  lemma {:induction false} ReadPlace(ds: seq<Desc>, ph: nat, hdr: seq<Byte>, before: nat, size: nat, k: nat)
    requires DESC_SIZE * |ds| <= size
    ensures k < |ds| ==> ReadDesc(Line(ds, ph, hdr, before, size), k, ph) == Some(ds[k])
    ensures k >= |ds| ==> ReadDesc(Line(ds, ph, hdr, before, size), k, ph) == None
  {
    var line := Line(ds, ph, hdr, before, size);
    var at := DESC_SIZE * k;
    if k < |ds| {
      forall i | 0 <= i < DESC_SIZE ensures line[at + i] == DescByte(ds[k], ph, i) {
        assert (at + i) / DESC_SIZE == k && (at + i) % DESC_SIZE == i;
      }
      assert line[at..at + DESC_SIZE] == DescBytes(ds[k], ph);
    } else if at + DESC_SIZE <= size {
      assert at / DESC_SIZE == k;
    }
  }

  /** Only the final descriptor of a packet is marked LAST. */
  predicate LastOnlyAtEnd(ds: seq<Desc>) {
    forall i :: 0 <= i < |ds| - 1 ==> !ds[i].Last()
  }

  lemma {:induction false} ReadLineBack(
      ds: seq<Desc>, ph: nat, hdr: seq<Byte>, before: nat, size: nat, cap: nat, k: nat)
    requires k <= |ds| <= cap && DESC_SIZE * |ds| <= size
    requires LastOnlyAtEnd(ds)
    ensures ReadLine(Line(ds, ph, hdr, before, size), k, cap, ph) == ds[k..]
    decreases |ds| - k
  {
    ReadPlace(ds, ph, hdr, before, size, k);
    if k < |ds| {
      ReadLineBack(ds, ph, hdr, before, size, cap, k + 1);
      assert ds[k..] == [ds[k]] + ds[k + 1..];
    }
  }

  lemma {:induction false} WalkFirst(
      q: nat, n: nat, lines: seq<seq<Cell>>, cap: nat, per: nat, ds: seq<Desc>, rest: seq<Desc>, used: nat)
    requires q > 0 && lines != [] && ReadLine(lines[0], 0, cap, Phase(q, n)) == ds
    ensures EndsPacket(ds) ==> Walk(q, n, lines, cap, per) == Walked(ds, 1)
    ensures !EndsPacket(ds) && Walk(q, n + 1, lines[1..], per, per) == Walked(rest, used)
            ==> Walk(q, n, lines, cap, per) == Walked(ds + rest, used + 1)
  {
  }

  /** The reader's first line holds the first chunk; the later lines are the rest of the packet. */
  lemma {:induction false} WalkStep(
      cfg: SqConfig, n: nat, cs: seq<seq<Desc>>, cap: nat, hdr: seq<Byte>, junk: seq<seq<Cell>>)
    requires cfg.depth > 0 && cs != [] && |cs[0]| <= cap && DESC_SIZE * cap <= cfg.Size()
    requires LastOnlyAtEnd(cs[0])
    ensures var lines := Written(cfg, n, cs, hdr) + junk;
            && lines != [] && ReadLine(lines[0], 0, cap, Phase(cfg.depth, n)) == cs[0]
            && lines[1..] == Written(cfg, n + 1, cs[1..], []) + junk
  {
    ReadLineBack(cs[0], Phase(cfg.depth, n), hdr, cfg.Before(), cfg.Size(), cap, 0);
    assert Written(cfg, n, cs, hdr)[1..] == Written(cfg, n + 1, cs[1..], []);
  }

  /** Walking the written lines reads exactly the packet's descriptors, whatever follows them. */
  lemma {:induction false} WalkWritten(
      cfg: SqConfig, n: nat, ds: seq<Desc>, cap: nat, hdr: seq<Byte>, junk: seq<seq<Cell>>)
    requires cfg.depth > 0 && ds != [] && cap > 0 && cfg.Per() > 0
    requires DESC_SIZE * cap <= cfg.Size() && DESC_SIZE * cfg.Per() <= cfg.Size()
    requires LastOnlyAtEnd(ds) && ds[|ds| - 1].Last()
    ensures var cs := Chunks(ds, cap, cfg.Per());
            Walk(cfg.depth, n, Written(cfg, n, cs, hdr) + junk, cap, cfg.Per()) == Walked(ds, |cs|)
    decreases |ds|
  {
    hide Walk, Written, ReadLine, Phase;
    var per := cfg.Per();
    var cs := Chunks(ds, cap, per);
    WalkStep(cfg, n, cs, cap, hdr, junk);
    if |ds| > cap {
      WalkWritten(cfg, n + 1, ds[cap..], per, [], junk);
      assert cs[1..] == Chunks(ds[cap..], per, per);
      assert ds == ds[..cap] + ds[cap..];
    }
    WalkFirst(cfg.depth, n, Written(cfg, n, cs, hdr) + junk, cap, per, cs[0],
              if |ds| > cap then ds[cap..] else [], |cs| - 1);
  }

  lemma {:induction false} ReadHeaderBack(
      ds: seq<Desc>, ph: nat, hdr: seq<Byte>, before: nat, size: nat, i: nat)
    requires |ds| <= before && DESC_SIZE * before + |hdr| <= size && i <= |hdr|
    ensures ReadHeader(Line(ds, ph, hdr, before, size), DESC_SIZE * before + i, |hdr| - i) == Some(hdr[i..])
    decreases |hdr| - i
  {
    if i < |hdr| {
      var at := DESC_SIZE * before + i;
      assert at / DESC_SIZE >= before;
      assert Line(ds, ph, hdr, before, size)[at] == HeaderByte(hdr[i]);
      ReadHeaderBack(ds, ph, hdr, before, size, i + 1);
      assert hdr[i..] == [hdr[i]] + hdr[i + 1..];
    } else {
      assert hdr[i..] == [];
    }
  }

  lemma {:induction false} SplitMod(x: nat, a: nat, b: nat)
    requires a > 0 && b > 0
    ensures a * b > 0 && x % (a * b) == x % a + a * (x / a % b)
  {
    var y, s := x / a, x % a;
    var c, r := y / b, y % b;
    DivMod(x, a);
    DivMod(y, b);
    MulBounds(a, b);
    MulAdds(a, b * c, r);
    MulAssoc(a, b, c);
    MulAdds(a, b, r);
    MulBounds(a, b - r);
    DivModUnique(x, a * b, c, a * r + s);
  }

  lemma {:induction false} HighAddressWidth(k: nat)
    requires k <= 16
    ensures Pow2(k) <= U16 && Pow2(32 + k) == U32 * Pow2(k)
  {
    hide Pow2;
    Pow2Of16();
    Pow2Splits(16, 16);
    Pow2Splits(32, k);
    Pow2Splits(k, 16 - k);
    MulBounds(Pow2(k), Pow2(16 - k));
  }

  /** The two address fields hold exactly the low `bits` bits of a physical address. */
  lemma {:induction false} AddressFields(paddr: nat, bits: nat)
    requires 32 <= bits <= 48
    ensures paddr % U32 + U32 * AddrHi(paddr, bits) == paddr % Pow2(bits)
  {
    hide Pow2;
    var b := Pow2(bits - 32);
    HighAddressWidth(bits - 32);
    SplitMod(paddr, U32, b);
    DivMod(paddr / U32, b);
    Below16(paddr / U32 % b);
  }

  lemma {:induction false} DescsFacts(ctx: TxCtx, haveMeta: bool, bits: nat)
    requires bits >= 32 && !ctx.MetaOnly()
    ensures var ds := Descs(ctx, haveMeta, bits);
            ds != [] && LastOnlyAtEnd(ds) && ds[|ds| - 1].Last()
  {
    var ds := Descs(ctx, haveMeta, bits);
    forall i | 0 <= i < |ds| ensures ds[i].Last() <==> i == |ds| - 1 {
      FirstAndLastMarkTheEnds(ctx, haveMeta, bits, i);
    }
  }

  lemma {:induction false} DataPartOfDescs(ctx: TxCtx, haveMeta: bool, bits: nat)
    requires bits >= 32 && !ctx.MetaOnly()
    ensures var ds := Descs(ctx, haveMeta, bits);
            && ds[0].MetaDesc? == haveMeta
            && (haveMeta ==> ds[0] == EncodeMeta(ctx.meta))
            && DataPart(ds) == seq(DataCount(ctx), i requires 0 <= i => DataDesc(ctx, haveMeta, bits, i))
  {
  }

  lemma {:induction false} BufOfDesc(ctx: TxCtx, haveMeta: bool, bits: nat, i: nat)
    requires 32 <= bits <= 48 && ctx.Typed()
    ensures DecodeBuf(DataDesc(ctx, haveMeta, bits, i))
            == if i < |ctx.bufs| then Buf(ctx.bufs[i].paddr % Pow2(bits), ctx.bufs[i].len) else Buf(0, 0)
  {
    hide Pow2, AddrHi;
    var b := if i < |ctx.bufs| then ctx.bufs[i] else Buf(0, 0);
    AddressFields(b.paddr, bits);
    Below16(b.len);
    DivModUnique(0, Pow2(bits), 0, 0);
  }

  lemma {:induction false} BufsOfDescs(cfg: SqConfig, ctx: TxCtx, haveMeta: bool, data: seq<Desc>)
    requires cfg.Valid() && ctx.Typed() && !ctx.MetaOnly()
    requires data == seq(DataCount(ctx), i requires 0 <= i => DataDesc(ctx, haveMeta, cfg.dmaAddrBits, i))
    ensures seq(|data|, i requires 0 <= i < |data| => DecodeBuf(data[i])) == WireView(cfg, ctx, haveMeta).bufs
  {
    forall i | 0 <= i < |data| ensures DecodeBuf(data[i]) == WireView(cfg, ctx, haveMeta).bufs[i] {
      BufOfDesc(ctx, haveMeta, cfg.dmaAddrBits, i);
    }
  }

  lemma {:induction false} MarksOfDescs(ctx: TxCtx, haveMeta: bool, bits: nat)
    requires bits >= 32 && !ctx.MetaOnly()
    ensures var ds := Descs(ctx, haveMeta, bits);
            seq(|ds|, i requires 0 <= i < |ds| => MarksOf(ds[i])) == PacketMarks(ctx, haveMeta)
  {
    var ds := Descs(ctx, haveMeta, bits);
    forall i | 0 <= i < |ds| ensures MarksOf(ds[i]) == PacketMarks(ctx, haveMeta)[i] {
      FirstAndLastMarkTheEnds(ctx, haveMeta, bits, i);
      if i >= (if haveMeta then 1 else 0) {
        DescAt(ctx, haveMeta, bits, i - if haveMeta then 1 else 0);
      }
    }
  }

  /** Exactly the first data descriptor of a packet asks for its completion. */
  lemma {:induction false} AsksForOneCompletion(ctx: TxCtx, haveMeta: bool, bits: nat, i: nat)
    requires bits >= 32 && !ctx.MetaOnly() && i < |Descs(ctx, haveMeta, bits)|
    ensures MarksOf(Descs(ctx, haveMeta, bits)[i]).compReq <==> i == if haveMeta then 1 else 0
  {
    MarksOfDescs(ctx, haveMeta, bits);
    assert PacketMarks(ctx, haveMeta)[i] == MarksOf(Descs(ctx, haveMeta, bits)[i]);
  }

  lemma {:induction false} PlainTail(ctx: TxCtx, haveMeta: bool, bits: nat, i: nat)
    requires bits >= 32 && 0 < i
    ensures IsPlain(DataDesc(ctx, haveMeta, bits, i))
  {
  }

  /** Ten low and six high bits hold every request id. */
  lemma {:induction false} RequestIdFields(reqId: nat)
    requires reqId < U16
    ensures reqId % 1024 + 1024 * (reqId / 1024 % 64) == reqId
  {
  }

  /** A meta descriptor decodes to the meta data cut to the field widths. */
  lemma {:induction false} MetaFields(m: Meta)
    ensures DecodeMeta(EncodeMeta(m)) == TruncMeta(m)
  {
    SplitMod(m.mss, 1024, 16);
  }

  lemma {:induction false} ViewOfDescs(cfg: SqConfig, ctx: TxCtx, haveMeta: bool)
    requires cfg.Valid() && ctx.Typed() && !ctx.MetaOnly()
    ensures var ds := Descs(ctx, haveMeta, cfg.dmaAddrBits);
            && DataPart(ds) != [] && DataPart(ds)[0].TxDesc?
            && DataPart(ds)[0].tx.headerLength == ctx.headerLen % 256
            && ViewOf(ds, PushedHeader(cfg, ctx)) == WireView(cfg, ctx, haveMeta)
  {
    var ds := Descs(ctx, haveMeta, cfg.dmaAddrBits);
    DataPartOfDescs(ctx, haveMeta, cfg.dmaAddrBits);
    BufsOfDescs(cfg, ctx, haveMeta, DataPart(ds));
    MarksOfDescs(ctx, haveMeta, cfg.dmaAddrBits);
    forall i | 0 < i < |DataPart(ds)| ensures IsPlain(DataPart(ds)[i]) {
      PlainTail(ctx, haveMeta, cfg.dmaAddrBits, i);
    }
    RequestIdFields(ctx.reqId);
    MetaFields(ctx.meta);
    assert DataPart(ds)[0] == DataDesc(ctx, haveMeta, cfg.dmaAddrBits, 0);
  }

  lemma {:induction false} PacketWalk(cfg: SqConfig, ctx: TxCtx, haveMeta: bool, n: nat, junk: seq<seq<Cell>>)
    requires cfg.Valid() && !ctx.MetaOnly()
    ensures Walk(cfg.depth, n, Written(cfg, n, PacketChunks(cfg, ctx, haveMeta), PushedHeader(cfg, ctx)) + junk,
                 cfg.Before(), cfg.Per())
            == Walked(Descs(ctx, haveMeta, cfg.dmaAddrBits), EntriesUsed(cfg, ctx, haveMeta))
  {
    DescsFacts(ctx, haveMeta, cfg.dmaAddrBits);
    WalkWritten(cfg, n, Descs(ctx, haveMeta, cfg.dmaAddrBits), cfg.Before(), PushedHeader(cfg, ctx), junk);
  }

  lemma FirstChunk(cfg: SqConfig, ctx: TxCtx, haveMeta: bool)
    requires cfg.Valid() && !ctx.MetaOnly()
    ensures PacketChunks(cfg, ctx, haveMeta) != [] && |PacketChunks(cfg, ctx, haveMeta)[0]| <= cfg.Before()
  {
    DescsFacts(ctx, haveMeta, cfg.dmaAddrBits);
    hide Descs;
  }

  lemma NoHeader(line: seq<Cell>)
    ensures ReadHeader(line, DESC_SIZE, 0) == Some([])
  {
  }

  /** The descriptors of the first line leave the pushed header alone. */
  lemma {:induction false} PacketHeader(cfg: SqConfig, ctx: TxCtx, haveMeta: bool, n: nat)
    requires cfg.Valid() && !ctx.MetaOnly()
    requires cfg.llq ==> DESC_SIZE * cfg.descsBeforeHeader + ctx.headerLen <= cfg.lineSize
    ensures var hdr := PushedHeader(cfg, ctx);
            var lines := Written(cfg, n, PacketChunks(cfg, ctx, haveMeta), hdr);
            lines != [] && ReadHeader(lines[0], DESC_SIZE * cfg.Before(), |hdr|) == Some(hdr)
  {
    hide PacketChunks, ReadHeader, Line, Phase;
    var hdr := PushedHeader(cfg, ctx);
    FirstChunk(cfg, ctx, haveMeta);
    if cfg.llq {
      ReadHeaderBack(PacketChunks(cfg, ctx, haveMeta)[0], Phase(cfg.depth, n), hdr, cfg.Before(), cfg.Size(), 0);
      assert hdr[0..] == hdr;
    } else {
      NoHeader(Line(PacketChunks(cfg, ctx, haveMeta)[0], Phase(cfg.depth, n), hdr, cfg.Before(), cfg.Size()));
    }
  }

  /** A packet with a header or buffers that passes the header checks. */
  predicate Sendable(cfg: SqConfig, ctx: TxCtx) {
    && ctx.Typed() && !ctx.MetaOnly()
    && (cfg.llq ==> ctx.pushHeader.Some? && DESC_SIZE * cfg.descsBeforeHeader + ctx.headerLen <= cfg.lineSize)
  }

  /**
    The round trip. For every packet with a header or buffers, on either kind of
    queue and at any queue position, the reader recovers the packet from the
    lines it was written to and stops at its end, whatever follows.
   */
  lemma {:induction false} DecodeEncode(cfg: SqConfig, ctx: TxCtx, haveMeta: bool, n: nat, junk: seq<seq<Cell>>)
    requires cfg.Valid() && Sendable(cfg, ctx)
    ensures Decode(cfg, n, Written(cfg, n, PacketChunks(cfg, ctx, haveMeta), PushedHeader(cfg, ctx)) + junk)
            == Decoded(WireView(cfg, ctx, haveMeta), EntriesUsed(cfg, ctx, haveMeta))
  {
    hide Descs, PacketChunks, WireView, Phase, Line, Walk, ReadHeader, ViewOf, Written, DataPart, EntriesUsed;
    FirstChunk(cfg, ctx, haveMeta);
    PacketWalk(cfg, ctx, haveMeta, n, junk);
    PacketHeader(cfg, ctx, haveMeta, n);
    ViewOfDescs(cfg, ctx, haveMeta);
  }

  /** The packet with every field at full width. */
  function FullView(cfg: SqConfig, ctx: TxCtx, haveMeta: bool): View {
    View(if haveMeta then Some(ctx.meta) else None, haveMeta, ctx.reqId, ctx.headerLen, PushedHeader(cfg, ctx),
         if ctx.bufs == [] then [Buf(0, 0)] else ctx.bufs, ctx.df,
         if ctx.metaValid then ctx.offload else NO_OFFLOAD, PacketMarks(ctx, haveMeta), true)
  }

  /** What the descriptor fields can hold. */
  ghost predicate FitsFields(cfg: SqConfig, ctx: TxCtx, haveMeta: bool) {
    && ctx.headerLen < 256
    && (forall i :: 0 <= i < |ctx.bufs| ==> ctx.bufs[i].paddr < Pow2(cfg.dmaAddrBits))
    && (ctx.metaValid ==> ctx.offload.l3Proto < 16 && ctx.offload.l4Proto < 32)
    && (haveMeta ==> ctx.meta.mss < 0x4000 && ctx.meta.l3HdrLen < 256
                     && ctx.meta.l3HdrOffset < 256 && ctx.meta.l4HdrLen < 64)
  }

  /** A number below a power of two is its own remainder. */
  lemma LowBits(x: nat, bits: nat)
    ensures x % Pow2(bits) == x <==> x < Pow2(bits)
  {
    if x < Pow2(bits) {
      DivModUnique(x, Pow2(bits), 0, x);
    }
  }

  /** The addresses get through exactly when all of them fit the address width. */
  lemma {:induction false} BufsOnTheWire(cfg: SqConfig, ctx: TxCtx, haveMeta: bool)
    requires cfg.Valid() && ctx.Typed()
    ensures WireView(cfg, ctx, haveMeta).bufs == FullView(cfg, ctx, haveMeta).bufs
            <==> forall i :: 0 <= i < |ctx.bufs| ==> ctx.bufs[i].paddr < Pow2(cfg.dmaAddrBits)
  {
    hide Pow2;
    var w, f := WireView(cfg, ctx, haveMeta).bufs, FullView(cfg, ctx, haveMeta).bufs;
    forall i | 0 <= i < |ctx.bufs| ensures w[i] == f[i] <==> ctx.bufs[i].paddr < Pow2(cfg.dmaAddrBits) {
      LowBits(ctx.bufs[i].paddr, cfg.dmaAddrBits);
    }
    if forall i :: 0 <= i < |ctx.bufs| ==> ctx.bufs[i].paddr < Pow2(cfg.dmaAddrBits) {
      assert w == f;
    }
  }

  /** Nothing is lost on the wire exactly when every value fits its field. */
  lemma {:induction false} WireIsExactIff(cfg: SqConfig, ctx: TxCtx, haveMeta: bool)
    requires cfg.Valid() && ctx.Typed()
    ensures WireView(cfg, ctx, haveMeta) == FullView(cfg, ctx, haveMeta) <==> FitsFields(cfg, ctx, haveMeta)
  {
    hide Pow2, PushedHeader;
    BufsOnTheWire(cfg, ctx, haveMeta);
  }
}
