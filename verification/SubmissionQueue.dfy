/**
  The submission queue: `struct ena_com_io_sq` and the functions that write
  packets into it, on a host-memory ring or through bounce buffers into the
  device's low-latency lines.
 */
module SubmissionQueue {
  import opened Words
  import opened TxWire
  import opened TxDecode
  import opened SqAccounting

  type Entry = seq<Cell>

  /** Number of bounce buffers of a low-latency queue. */
  const BOUNCE_BUFFERS: nat := 4

  // ---------------------------------------------------------------- ring contents

  /** Ring memory after `lines` were stored as the n-th and following elements. */
  function Stored(q: nat, ring: seq<Entry>, n: nat, lines: seq<Entry>): (r: seq<Entry>)
    requires |ring| == q > 0
    ensures |r| == q
    decreases |lines|
  {
    if lines == [] then ring
    else
      var last := |lines| - 1;
      Stored(q, ring, n, lines[..last])[Slot(q, n + last) := lines[last]]
  }

  /** The lines a device finds from the n-th element on. */
  function LinesFrom(q: nat, ring: seq<Entry>, n: nat, count: nat): (lines: seq<Entry>)
    requires |ring| == q > 0
    ensures |lines| == count
  {
    seq(count, j requires 0 <= j => ring[Slot(q, n + j)])
  }

  lemma {:induction false} StoredAt(q: nat, ring: seq<Entry>, n: nat, lines: seq<Entry>, m: nat)
    requires |ring| == q > 0 && |lines| <= q && n <= m < n + q
    ensures Stored(q, ring, n, lines)[Slot(q, m)]
            == if m < n + |lines| then lines[m - n] else ring[Slot(q, m)]
    decreases |lines|
  {
    if lines != [] {
      var last := |lines| - 1;
      StoredAt(q, ring, n, lines[..last], m);
      if m < n + last {
        SlotsDistinct(q, m, n + last);
      } else if m > n + last {
        SlotsDistinct(q, n + last, m);
      }
    }
  }

  /** Up to one lap of stored lines reads back in order; the rest of the ring keeps its contents. */
  lemma {:induction false} StoredReadsBack(q: nat, ring: seq<Entry>, n: nat, lines: seq<Entry>)
    requires |ring| == q > 0 && |lines| <= q
    ensures LinesFrom(q, Stored(q, ring, n, lines), n, |lines|) == lines
    ensures LinesFrom(q, Stored(q, ring, n, lines), n + |lines|, q - |lines|)
            == LinesFrom(q, ring, n + |lines|, q - |lines|)
  {
    var r, k := Stored(q, ring, n, lines), |lines|;
    forall j | 0 <= j < k ensures LinesFrom(q, r, n, k)[j] == lines[j] {
      StoredAt(q, ring, n, lines, n + j);
    }
    var now, before := LinesFrom(q, r, n + k, q - k), LinesFrom(q, ring, n + k, q - k);
    forall j | 0 <= j < |now| ensures now[j] == before[j] {
      StoredAt(q, ring, n, lines, n + k + j);
    }
  }

  /** Storing more lines behind the first ones. */
  lemma {:induction false} StoredAppend(q: nat, ring: seq<Entry>, n: nat, a: seq<Entry>, b: seq<Entry>)
    requires |ring| == q > 0
    ensures Stored(q, Stored(q, ring, n, a), n + |a|, b) == Stored(q, ring, n, a + b)
    decreases |b|
  {
    if b == [] {
      assert a + b == a;
    } else {
      var last := |b| - 1;
      StoredAppend(q, ring, n, a, b[..last]);
      assert (a + b)[..|a| + last] == a + b[..last];
    }
  }

  function PutDescBytes(line: Entry, at: nat, d: Desc, phase: nat): (r: Entry)
    requires at + DESC_SIZE <= |line|
    ensures |r| == |line|
  {
    line[..at] + DescBytes(d, phase) + line[at + DESC_SIZE..]
  }

  function PutHeaderBytes(line: Entry, at: nat, hdr: seq<Byte>): (r: Entry)
    requires at + |hdr| <= |line|
    ensures |r| == |line|
  {
    line[..at] + seq(|hdr|, k requires 0 <= k < |hdr| => HeaderByte(hdr[k])) + line[at + |hdr|..]
  }

  lemma {:induction false} PutDescExtendsLine(
      ds: seq<Desc>, d: Desc, ph: nat, hdr: seq<Byte>, before: nat, size: nat)
    requires DESC_SIZE * |ds| + DESC_SIZE <= size
    ensures PutDescBytes(Line(ds, ph, hdr, before, size), DESC_SIZE * |ds|, d, ph)
            == Line(ds + [d], ph, hdr, before, size)
  {
    var r, l := PutDescBytes(Line(ds, ph, hdr, before, size), DESC_SIZE * |ds|, d, ph),
                Line(ds + [d], ph, hdr, before, size);
    forall p | 0 <= p < size ensures r[p] == l[p] {
    }
  }

  lemma {:induction false} PutDescReplacesLast(
      ds: seq<Desc>, d: Desc, e: Desc, ph: nat, hdr: seq<Byte>, before: nat, size: nat)
    requires DESC_SIZE * |ds| + DESC_SIZE <= size
    ensures PutDescBytes(Line(ds + [d], ph, hdr, before, size), DESC_SIZE * |ds|, e, ph)
            == Line(ds + [e], ph, hdr, before, size)
  {
    var r, l := PutDescBytes(Line(ds + [d], ph, hdr, before, size), DESC_SIZE * |ds|, e, ph),
                Line(ds + [e], ph, hdr, before, size);
    forall p | 0 <= p < size ensures r[p] == l[p] {
    }
  }

  lemma {:induction false} PutHeaderFillsLine(ph: nat, hdr: seq<Byte>, before: nat, size: nat)
    requires DESC_SIZE * before + |hdr| <= size
    ensures PutHeaderBytes(Line([], ph, [], before, size), DESC_SIZE * before, hdr)
            == Line([], ph, hdr, before, size)
  {
  }
  // ---------------------------------------------------------------- the queue

  class IoSq {
    const cfg: SqConfig
    /** Ring memory: one descriptor per entry on a host queue, the device's lines otherwise. */
    const entries: array<Entry>
    const bounceBuffers: array<Entry>

    var tail: nat
    var nextToComp: nat
    var phase: nat
    var cachedMeta: Meta
    var idx: nat
    var descsLeftInLine: nat
    var currBounce: nat
    var bounceNext: nat
    var entriesInTxBurstLeft: nat

    /** Entries ever submitted, ever acknowledged, and submitted before the last doorbell. */
    ghost var submitted: nat
    ghost var acked: nat
    ghost var rung: nat

    /** The 16-bit counters, the phase bit and the burst budget follow the unbounded counts. */
    ghost predicate Core()
      reads this, entries, bounceBuffers
    {
      && cfg.Valid()
      && entries != bounceBuffers
      && entries.Length == cfg.depth
      && bounceBuffers.Length == BOUNCE_BUFFERS
      && currBounce < BOUNCE_BUFFERS
      && tail == submitted % U16
      && nextToComp == acked % U16
      && phase == Phase(cfg.depth, submitted)
      && rung <= submitted && acked <= submitted
      && (cfg.HasBurst() ==> entriesInTxBurstLeft + (submitted - rung) == cfg.maxTxBurst)
    }

    /** Between packets: an empty, zeroed line and no more than depth - 1 entries outstanding. */
    ghost predicate Valid()
      reads this, entries, bounceBuffers
    {
      && Core()
      && submitted - acked <= cfg.depth - 1
      && (cfg.llq ==>
            && idx == 0 && descsLeftInLine == cfg.descsBeforeHeader
            && bounceBuffers[currBounce] == Line([], phase, [], cfg.descsBeforeHeader, cfg.lineSize))
    }

    /**
      In the middle of a packet that started as element `first` of a ring with
      contents `ring`: the lines `done` are stored, `cur` is in the open line.
     */
    ghost predicate Writing(ring: seq<Entry>, first: nat, hdr: seq<Byte>, done: seq<seq<Desc>>, cur: seq<Desc>)
      reads this, entries, bounceBuffers
    {
      && Core()
      && |ring| == cfg.depth
      && submitted == first + |done|
      && |cur| <= LineRoom(done)
      && (cfg.llq ==> DESC_SIZE * cfg.descsBeforeHeader + |hdr| <= cfg.lineSize)
      && (cfg.llq ==>
            && idx == |cur| && descsLeftInLine == LineRoom(done) - |cur|
            && bounceBuffers[currBounce]
               == Line(cur, phase, if done == [] then hdr else [], cfg.descsBeforeHeader, cfg.lineSize)
            && entries[..] == Stored(cfg.depth, ring, first, Written(cfg, first, done, hdr)))
      && (!cfg.llq ==>
            && hdr == []
            && entries[..] == Stored(cfg.depth, ring, first,
                 Written(cfg, first, if cur == [] then done else done + [cur], hdr)))
    }

    ghost function LineRoom(done: seq<seq<Desc>>): nat {
      if done == [] then cfg.Before() else cfg.Per()
    }

    lemma ValidHasCore()
      requires Valid()
      ensures Core()
    {
    }

    constructor (cfg: SqConfig)
      requires cfg.Valid()
      ensures this.cfg == cfg && Valid()
      ensures fresh(entries) && fresh(bounceBuffers)
      ensures submitted == 0 && acked == 0 && cachedMeta == ZERO_META
    {
      this.cfg := cfg;
      entries := new Entry[cfg.depth](i => []);
      bounceBuffers := new Entry[BOUNCE_BUFFERS](i requires 0 <= i =>
        Line([], 1, [], cfg.descsBeforeHeader, cfg.lineSize));
      tail, nextToComp, phase := 0, 0, 1;
      cachedMeta := ZERO_META;
      idx, descsLeftInLine, currBounce, bounceNext := 0, cfg.descsBeforeHeader, 0, 1;
      entriesInTxBurstLeft := cfg.maxTxBurst;
      submitted, acked, rung := 0, 0, 0;
    }

    method FreeQEntries() returns (free: int)
      requires Valid()
      ensures free == cfg.depth - 1 - (submitted - acked) && 0 <= free < cfg.depth
    {
      free := FreeEntries(cfg.depth, tail, nextToComp);
      DepthBound(cfg.depth);
      CounterDistance(submitted, acked);
    }

    method HaveEnoughSpace(required: nat) returns (enough: bool)
      requires Valid()
      ensures enough == EnoughSpace(cfg, cfg.depth - 1 - (submitted - acked), required)
    {
      var free := FreeQEntries();
      enough := EnoughSpace(cfg, free, required);
    }

    /** Acknowledging wraps the count to 16 bits; only its true value matters. */
    method CompAck(elem: nat, ghost count: nat)
      requires Valid() && elem % U16 == count % U16 && acked + count <= submitted
      modifies this`nextToComp, this`acked
      ensures Valid() && acked == old(acked) + count
    {
      AddWraps(acked, elem % U16);
      AddWraps(count, acked);
      nextToComp := (nextToComp + elem % U16) % U16;
      acked := acked + count;
    }

    /** Ringing the doorbell publishes the tail and refills the burst budget. */
    method WriteDoorbell() returns (published: nat)
      requires Core()
      modifies this`entriesInTxBurstLeft, this`rung
      ensures Core() && (old(Valid()) ==> Valid()) && published == submitted % U16
      ensures rung == submitted
      ensures entriesInTxBurstLeft == if cfg.HasBurst() then cfg.maxTxBurst else old(entriesInTxBurstLeft)
    {
      published := tail;
      if cfg.HasBurst() {
        entriesInTxBurstLeft := cfg.maxTxBurst;
      }
      rung := submitted;
    }

    method AdvanceTail()
      requires cfg.Valid()
      requires tail == submitted % U16 && phase == Phase(cfg.depth, submitted)
      modifies this`tail, this`phase, this`submitted
      ensures submitted == old(submitted) + 1
      ensures tail == submitted % U16 && phase == Phase(cfg.depth, submitted)
    {
      CounterStep(cfg.depth, submitted);
      submitted := submitted + 1;
      tail := (tail + 1) % U16;
      if Masked(tail, cfg.depth) == 0 {
        phase := 1 - phase;
      }
    }

    /** The bounce buffers are taken in turn. */
    method NextBounceBuffer()
      requires cfg.Valid() && bounceBuffers.Length == BOUNCE_BUFFERS
      modifies this`currBounce, this`bounceNext, bounceBuffers
      ensures currBounce == old(bounceNext) % 4 && bounceNext % 4 == (old(bounceNext) + 1) % 4
      ensures bounceBuffers[currBounce] == Line([], phase, [], cfg.descsBeforeHeader, cfg.lineSize)
    {
      assert Pow2(2) == BOUNCE_BUFFERS;
      MaskedIsMod(bounceNext, BOUNCE_BUFFERS);
      currBounce := Masked(bounceNext, BOUNCE_BUFFERS);
      bounceNext := (bounceNext + 1) % U16;
      bounceBuffers[currBounce] := seq(cfg.lineSize, i => Zero);
      assert bounceBuffers[currBounce] == Line([], phase, [], cfg.descsBeforeHeader, cfg.lineSize);
    }

    // -------------------------------------------------------------- one descriptor

    method WriteBounceBufferToDev() returns (rc: Rc)
      requires Core() && cfg.llq
      modifies this`tail, this`phase, this`submitted, this`entriesInTxBurstLeft, entries
      ensures Core() && (rc == Ok || rc == NoSpace)
      ensures rc == NoSpace <==> cfg.HasBurst() && old(entriesInTxBurstLeft) == 0
      ensures rc == NoSpace ==> submitted == old(submitted) && entries[..] == old(entries[..])
      ensures rc == NoSpace ==> phase == old(phase)
      ensures rc == Ok ==> submitted == old(submitted) + 1
      ensures rc == Ok ==> entries[..] == old(entries[..])[Slot(cfg.depth, old(submitted)) := bounceBuffers[currBounce]]
    {
      CounterSlot(cfg.depth, submitted);
      var slot := Masked(tail, cfg.depth);
      if cfg.HasBurst() {
        if entriesInTxBurstLeft == 0 {
          return NoSpace;
        }
        entriesInTxBurstLeft := entriesInTxBurstLeft - 1;
      }
      entries[slot] := bounceBuffers[currBounce];
      AdvanceTail();
      rc := Ok;
    }

    /** Stores a descriptor at a place of the open line. */
    method PutInLine(at: nat, d: Desc)
      requires currBounce < bounceBuffers.Length && at + DESC_SIZE <= |bounceBuffers[currBounce]|
      modifies bounceBuffers
      ensures bounceBuffers[currBounce] == PutDescBytes(old(bounceBuffers[currBounce]), at, d, phase)
    {
      bounceBuffers[currBounce] := PutDescBytes(bounceBuffers[currBounce], at, d, phase);
    }

    /** Takes the next descriptor place of the open line and stores `d` there. */
    method NewDescLlq(d: Desc, ghost ring: seq<Entry>, ghost first: nat, ghost hdr: seq<Byte>,
                      ghost done: seq<seq<Desc>>, ghost cur: seq<Desc>) returns (at: nat)
      requires Writing(ring, first, hdr, done, cur) && |cur| < LineRoom(done) && cfg.llq
      modifies this`idx, this`descsLeftInLine, bounceBuffers
      ensures Writing(ring, first, hdr, done, cur + [d]) && at == DESC_SIZE * |cur|
    {
      at := idx * DESC_SIZE;
      idx := idx + 1;
      descsLeftInLine := descsLeftInLine - 1;
      PutDescExtendsLine(cur, d, phase, if done == [] then hdr else [], cfg.descsBeforeHeader, cfg.lineSize);
      PutInLine(at, d);
    }

    method PutDescLlq(at: nat, e: Desc, ghost ring: seq<Entry>, ghost first: nat, ghost hdr: seq<Byte>,
                      ghost done: seq<seq<Desc>>, ghost cur: seq<Desc>, ghost d: Desc)
      requires Writing(ring, first, hdr, done, cur + [d]) && cfg.llq && at == DESC_SIZE * |cur|
      modifies bounceBuffers
      ensures Writing(ring, first, hdr, done, cur + [e])
    {
      PutDescReplacesLast(cur, d, e, phase, if done == [] then hdr else [], cfg.descsBeforeHeader, cfg.lineSize);
      PutInLine(at, e);
    }

    /** Stores `e` in the ring entry of the next element, over `d` if that was there before. */
    method PutDescHost(at: nat, e: Desc, ghost ring: seq<Entry>, ghost first: nat,
                       ghost done: seq<seq<Desc>>, ghost cur: seq<Desc>)
      requires Writing(ring, first, [], done, cur) && !cfg.llq && at == Slot(cfg.depth, submitted)
      modifies entries
      ensures Writing(ring, first, [], done, [e])
    {
      StoreOverOpenDesc(cur, e, ring, first, done);
      ghost var was := entries[..];
      entries[at] := DescBytes(e, phase);
      assert entries[..] == was[at := DescBytes(e, phase)];
    }

    /** Takes the next descriptor place and stores `d` there. */
    method NewDesc(d: Desc, ghost ring: seq<Entry>, ghost first: nat, ghost hdr: seq<Byte>,
                   ghost done: seq<seq<Desc>>, ghost cur: seq<Desc>) returns (at: nat)
      requires Writing(ring, first, hdr, done, cur) && |cur| < LineRoom(done)
      modifies this`idx, this`descsLeftInLine, entries, bounceBuffers
      ensures Writing(ring, first, hdr, done, cur + [d])
      ensures at == if cfg.llq then DESC_SIZE * |cur| else Slot(cfg.depth, submitted)
    {
      if cfg.llq {
        at := NewDescLlq(d, ring, first, hdr, done, cur);
      } else {
        CounterSlot(cfg.depth, submitted);
        at := Masked(tail, cfg.depth);
        PutDescHost(at, d, ring, first, done, cur);
        assert cur + [d] == [d];
      }
    }

    /** Stores `e` over the descriptor written last. */
    method PutDesc(at: nat, e: Desc, ghost ring: seq<Entry>, ghost first: nat, ghost hdr: seq<Byte>,
                   ghost done: seq<seq<Desc>>, ghost cur: seq<Desc>, ghost d: Desc)
      requires Writing(ring, first, hdr, done, cur + [d])
      requires at == if cfg.llq then DESC_SIZE * |cur| else Slot(cfg.depth, submitted)
      modifies entries, bounceBuffers
      ensures Writing(ring, first, hdr, done, cur + [e])
    {
      if cfg.llq {
        PutDescLlq(at, e, ring, first, hdr, done, cur, d);
      } else {
        PutDescHost(at, e, ring, first, done, cur + [d]);
        assert cur + [e] == [e];
      }
    }

    /** On a host queue the open descriptor is the ring element behind the stored ones. */
    lemma {:induction false} StoreOpenDesc(d: Desc, ring: seq<Entry>, first: nat, done: seq<seq<Desc>>)
      requires cfg.Valid() && !cfg.llq && |ring| == cfg.depth
      ensures Stored(cfg.depth, ring, first, Written(cfg, first, done + [[d]], []))
              == Stored(cfg.depth, ring, first, Written(cfg, first, done, []))
                   [Slot(cfg.depth, first + |done|) := DescBytes(d, Phase(cfg.depth, first + |done|))]
    {
      var lines := Written(cfg, first, done + [[d]], []);
      assert lines[..|done|] == Written(cfg, first, done, []);
      assert lines[|done|] == DescBytes(d, Phase(cfg.depth, first + |done|));
    }

    lemma {:induction false} StoreOverOpenDesc(
        cur: seq<Desc>, e: Desc, ring: seq<Entry>, first: nat, done: seq<seq<Desc>>)
      requires cfg.Valid() && !cfg.llq && |ring| == cfg.depth && |cur| <= 1
      ensures Stored(cfg.depth, ring, first, Written(cfg, first, if cur == [] then done else done + [cur], []))
                [Slot(cfg.depth, first + |done|) := DescBytes(e, Phase(cfg.depth, first + |done|))]
              == Stored(cfg.depth, ring, first, Written(cfg, first, done + [[e]], []))
    {
      if cur != [] {
        assert cur == [cur[0]];
        StoreOpenDesc(cur[0], ring, first, done);
      }
      StoreOpenDesc(e, ring, first, done);
    }

    /** Closes the open line when it is full. */
    method SqUpdateTail(ghost ring: seq<Entry>, ghost first: nat, ghost hdr: seq<Byte>,
                        ghost done: seq<seq<Desc>>, ghost cur: seq<Desc>) returns (rc: Rc)
      requires Writing(ring, first, hdr, done, cur) && cur != []
      modifies this, entries, bounceBuffers
      ensures cachedMeta == old(cachedMeta) && rung == old(rung) && acked == old(acked)
      ensures rc == Ok || rc == NoSpace
      ensures rc == NoSpace <==>
        |cur| == LineRoom(done) && cfg.HasBurst() && old(entriesInTxBurstLeft) == 0
      ensures rc == NoSpace ==> Core() && submitted == old(submitted) && entries[..] == old(entries[..])
      ensures rc == Ok ==> if |cur| == LineRoom(done) then Writing(ring, first, hdr, done + [cur], [])
                           else Writing(ring, first, hdr, done, cur)
    {
      hide Stored, Written;
      if !cfg.llq {
        AdvanceTail();
        return Ok;
      }
      if descsLeftInLine == 0 {
        StoreClosedLine(ring, first, hdr, done, cur);
        rc := WriteBounceBufferToDev();
        if rc != Ok {
          return;
        }
        NextBounceBuffer();
        idx := 0;
        descsLeftInLine := cfg.LineCapacity();
      }
      rc := Ok;
    }

    lemma {:induction false} StoreClosedLine(
        ring: seq<Entry>, first: nat, hdr: seq<Byte>, done: seq<seq<Desc>>, cur: seq<Desc>)
      requires cfg.Valid() && |ring| == cfg.depth
      ensures Stored(cfg.depth, ring, first, Written(cfg, first, done + [cur], hdr))
              == Stored(cfg.depth, ring, first, Written(cfg, first, done, hdr))
                   [Slot(cfg.depth, first + |done|) :=
                      Line(cur, Phase(cfg.depth, first + |done|), if done == [] then hdr else [], cfg.Before(),
                           cfg.Size())]
    {
      var lines := Written(cfg, first, done + [cur], hdr);
      assert lines[..|done|] == Written(cfg, first, done, hdr);
    }

    // -------------------------------------------------------------- one packet

    /** `done` and the open line are the packet's first k descriptors, cut the way the reader expects. */
    ghost predicate Plan(ds: seq<Desc>, done: seq<seq<Desc>>, cur: seq<Desc>, k: nat)
      requires cfg.Valid()
    {
      && k <= |ds|
      && Chunks(ds, cfg.Before(), cfg.Per()) == done + Chunks(cur + ds[k..], LineRoom(done), cfg.Per())
    }

    lemma {:induction false} PlanFlush(ds: seq<Desc>, done: seq<seq<Desc>>, cur: seq<Desc>, k: nat)
      requires cfg.Valid() && Plan(ds, done, cur, k) && |cur| == LineRoom(done)
      ensures Plan(ds, done + [cur], [], k)
    {
      var rest := ds[k..];
      ChunksFlush(cur, rest, LineRoom(done), cfg.Per());
      assert [] + rest == rest;
    }

    lemma {:induction false} PlanTake(ds: seq<Desc>, done: seq<seq<Desc>>, cur: seq<Desc>, k: nat)
      requires cfg.Valid() && Plan(ds, done, cur, k) && k < |ds|
      ensures Plan(ds, done, cur + [ds[k]], k + 1)
    {
      assert cur + ds[k..] == cur + [ds[k]] + ds[k + 1..];
    }

    lemma {:induction false} PlanEnd(ds: seq<Desc>, done: seq<seq<Desc>>, cur: seq<Desc>)
      requires cfg.Valid() && Plan(ds, done, cur, |ds|) && |cur| <= LineRoom(done)
      ensures Chunks(ds, cfg.Before(), cfg.Per()) == if cur == [] then done else done + [cur]
    {
      assert cur + ds[|ds|..] == cur;
    }

    /** A burst that runs out leaves the lines that still fitted, in place and nothing else. */
    ghost predicate BurstRanOut(ring: seq<Entry>, first: nat, hdr: seq<Byte>, chunks: seq<seq<Desc>>)
      reads this, entries, bounceBuffers
    {
      && Core()
      && |ring| == cfg.depth
      && cfg.HasBurst() && entriesInTxBurstLeft == 0
      && first <= submitted < first + |chunks|
      && entries[..] == Stored(cfg.depth, ring, first, Written(cfg, first, chunks[..submitted - first], hdr))
    }

    /** `SqUpdateTail` as a step through the packet's plan. */
    method StepTail(ghost ring: seq<Entry>, ghost first: nat, ghost hdr: seq<Byte>, ghost ds: seq<Desc>,
                    ghost done: seq<seq<Desc>>, ghost cur: seq<Desc>, ghost k: nat)
      returns (rc: Rc, ghost done': seq<seq<Desc>>, ghost cur': seq<Desc>)
      requires Writing(ring, first, hdr, done, cur) && cur != [] && Plan(ds, done, cur, k)
      modifies this, entries, bounceBuffers
      ensures cachedMeta == old(cachedMeta) && rung == old(rung) && acked == old(acked)
      ensures rc == Ok || rc == NoSpace
      ensures rc == Ok ==> Writing(ring, first, hdr, done', cur') && Plan(ds, done', cur', k)
      ensures rc == Ok ==> |cur'| < LineRoom(done') && (!cfg.llq ==> cur' == [])
      ensures rc == NoSpace ==> BurstRanOut(ring, first, hdr, Chunks(ds, cfg.Before(), cfg.Per()))
    {
      done', cur' := done, cur;
      rc := SqUpdateTail(ring, first, hdr, done, cur);
      if rc == Ok {
        if |cur| == LineRoom(done) {
          PlanFlush(ds, done, cur, k);
          done', cur' := done + [cur], [];
        }
      } else {
        PlanFlush(ds, done, cur, k);
        assert (done + [cur] + Chunks([] + ds[k..], cfg.Per(), cfg.Per()))[..|done|] == done;
      }
    }

    method WriteHeaderToBounce(hdr: seq<Byte>)
      requires Valid() && (cfg.llq ==> DESC_SIZE * cfg.descsBeforeHeader + |hdr| <= cfg.lineSize)
      requires !cfg.llq ==> hdr == []
      modifies bounceBuffers
      ensures Writing(old(entries[..]), submitted, hdr, [], [])
    {
      if cfg.llq {
        PutHeaderFillsLine(phase, hdr, cfg.descsBeforeHeader, cfg.lineSize);
        bounceBuffers[currBounce] :=
          PutHeaderBytes(bounceBuffers[currBounce], DESC_SIZE * cfg.descsBeforeHeader, hdr);
      }
    }

    method CreateAndStoreMeta(ctx: TxCtx, ghost ring: seq<Entry>, ghost first: nat, ghost hdr: seq<Byte>)
      returns (rc: Rc, haveMeta: bool, ghost done: seq<seq<Desc>>, ghost cur: seq<Desc>)
      requires Writing(ring, first, hdr, [], [])
      modifies this, entries, bounceBuffers
      ensures haveMeta == SendsMeta(cfg, old(cachedMeta), ctx)
      ensures cachedMeta == NextCachedMeta(cfg, old(cachedMeta), ctx)
      ensures rung == old(rung) && acked == old(acked)
      ensures rc == Ok || rc == NoSpace
      ensures rc == Ok ==> Writing(ring, first, hdr, done, cur) && |cur| < LineRoom(done)
      ensures rc == Ok ==> Plan(Descs(ctx, haveMeta, cfg.dmaAddrBits), done, cur, if haveMeta then 1 else 0)
      ensures rc == Ok && !cfg.llq ==> cur == []
      ensures rc == NoSpace ==> BurstRanOut(ring, first, hdr, PacketChunks(cfg, ctx, haveMeta))
    {
      done, cur := [], [];
      haveMeta := cfg.disableMetaCaching;
      if !haveMeta && MetaChanged(cachedMeta, ctx) {
        haveMeta := true;
        cachedMeta := ctx.meta;
      }
      ghost var ds := Descs(ctx, haveMeta, cfg.dmaAddrBits);
      if !haveMeta {
        assert [] + ds[0..] == ds;
        return Ok, haveMeta, done, cur;
      }
      var d := EncodeMeta(ctx.meta);
      var _ := NewDesc(d, ring, first, hdr, [], []);
      assert [] + [d] == [d] && [d] + ds[1..] == ds;
      rc, done, cur := StepTail(ring, first, hdr, ds, [], [d], 1);
    }

    /** The open line ends in `d`, standing in for descriptor k - 1 of the packet until that is final. */
    ghost predicate OpenDesc(ring: seq<Entry>, first: nat, hdr: seq<Byte>, ds: seq<Desc>,
                             done: seq<seq<Desc>>, prev: seq<Desc>, d: Desc, k: nat, at: nat)
      reads this, entries, bounceBuffers
    {
      && Writing(ring, first, hdr, done, prev + [d])
      && 1 <= k <= |ds| && Plan(ds, done, prev + [ds[k - 1]], k)
      && at == if cfg.llq then DESC_SIZE * |prev| else Slot(cfg.depth, submitted)
    }

    /** Finishes the open descriptor and opens the next one, zeroed. */
    method NextDesc(at0: nat, d: Desc, ghost ring: seq<Entry>, ghost first: nat, ghost hdr: seq<Byte>,
                    ghost ds: seq<Desc>, ghost done: seq<seq<Desc>>, ghost prev: seq<Desc>, ghost k: nat)
      returns (rc: Rc, at: nat, ghost done': seq<seq<Desc>>, ghost prev': seq<Desc>)
      requires OpenDesc(ring, first, hdr, ds, done, prev, d, k, at0) && k < |ds| && d == ds[k - 1]
      modifies this, entries, bounceBuffers
      ensures cachedMeta == old(cachedMeta) && rung == old(rung) && acked == old(acked)
      ensures rc == Ok || rc == NoSpace
      ensures rc == Ok ==> OpenDesc(ring, first, hdr, ds, done', prev', TxDesc(ZERO_TX), k + 1, at)
      ensures rc == NoSpace ==> BurstRanOut(ring, first, hdr, Chunks(ds, cfg.Before(), cfg.Per()))
    {
      at := at0;
      rc, done', prev' := StepTail(ring, first, hdr, ds, done, prev + [d], k);
      if rc == Ok {
        at := NewDesc(TxDesc(ZERO_TX), ring, first, hdr, done', prev');
        PlanTake(ds, done', prev', k);
      }
    }

    /** Puts a buffer into the open descriptor. */
    method FillDesc(at: nat, f: TxFields, b: Buf, ghost ring: seq<Entry>, ghost first: nat, ghost hdr: seq<Byte>,
                    ghost ds: seq<Desc>, ghost done: seq<seq<Desc>>, ghost prev: seq<Desc>, ghost k: nat)
      returns (f': TxFields)
      requires OpenDesc(ring, first, hdr, ds, done, prev, TxDesc(f), k, at)
      modifies entries, bounceBuffers
      ensures f' == WithBuf(f, b, cfg.dmaAddrBits)
      ensures OpenDesc(ring, first, hdr, ds, done, prev, TxDesc(f'), k, at)
    {
      f' := f.(length := b.len % U16);
      f' := f'.(addrLo := b.paddr % U32);
      f' := f'.(addrHi := AddrHi(b.paddr, cfg.dmaAddrBits));
      PutDesc(at, TxDesc(f'), ring, first, hdr, done, prev, TxDesc(f));
    }

    method MarkLast(at: nat, f: TxFields, ghost ring: seq<Entry>, ghost first: nat, ghost hdr: seq<Byte>,
                    ghost ds: seq<Desc>, ghost done0: seq<seq<Desc>>, ghost prev: seq<Desc>)
      returns (rc: Rc, ghost done: seq<seq<Desc>>, ghost cur: seq<Desc>)
      requires OpenDesc(ring, first, hdr, ds, done0, prev, TxDesc(f), |ds|, at)
      requires TxDesc(f.(last := true)) == ds[|ds| - 1]
      modifies this, entries, bounceBuffers
      ensures cachedMeta == old(cachedMeta) && rung == old(rung) && acked == old(acked)
      ensures rc == Ok || rc == NoSpace
      ensures rc == Ok ==> Writing(ring, first, hdr, done, cur) && (!cfg.llq ==> cur == [])
      ensures rc == Ok ==> Plan(ds, done, cur, |ds|)
      ensures rc == NoSpace ==> BurstRanOut(ring, first, hdr, Chunks(ds, cfg.Before(), cfg.Per()))
    {
      var d := TxDesc(f.(last := true));
      PutDesc(at, d, ring, first, hdr, done0, prev, TxDesc(f));
      rc, done, cur := StepTail(ring, first, hdr, ds, done0, prev + [d], |ds|);
    }

    /** Loop state of the buffer loop: `f` is the open descriptor after `i` buffers. */
    ghost predicate DataState(ctx: TxCtx, haveMeta: bool, ring: seq<Entry>, first: nat, hdr: seq<Byte>,
                              done: seq<seq<Desc>>, prev: seq<Desc>, f: TxFields, at: nat, i: nat)
      reads this, entries, bounceBuffers
    {
      && cfg.Valid()
      && i <= |ctx.bufs|
      && OpenDesc(ring, first, hdr, Descs(ctx, haveMeta, cfg.dmaAddrBits), done, prev, TxDesc(f),
                  (if haveMeta then 1 else 0) + (if i == 0 then 1 else i), at)
      && f == if i == 0 then HeadFields(ctx, haveMeta) else OpenFields(ctx, haveMeta, cfg.dmaAddrBits, i - 1)
    }

    /** One turn of the buffer loop: the first buffer shares the header's descriptor. */
    method AddBuf(ctx: TxCtx, haveMeta: bool, i: nat, at0: nat, f0: TxFields,
                  ghost ring: seq<Entry>, ghost first: nat, ghost hdr: seq<Byte>,
                  ghost done0: seq<seq<Desc>>, ghost prev0: seq<Desc>)
      returns (rc: Rc, at: nat, f: TxFields, ghost done: seq<seq<Desc>>, ghost prev: seq<Desc>)
      requires i < |ctx.bufs| && DataState(ctx, haveMeta, ring, first, hdr, done0, prev0, f0, at0, i)
      modifies this, entries, bounceBuffers
      ensures cachedMeta == old(cachedMeta) && rung == old(rung) && acked == old(acked)
      ensures rc == Ok || rc == NoSpace
      ensures rc == Ok ==> DataState(ctx, haveMeta, ring, first, hdr, done, prev, f, at, i + 1)
      ensures rc == NoSpace ==> BurstRanOut(ring, first, hdr, PacketChunks(cfg, ctx, haveMeta))
    {
      hide OpenDesc, Descs, Chunks;
      ghost var ds := Descs(ctx, haveMeta, cfg.dmaAddrBits);
      ghost var m := if haveMeta then 1 else 0;
      rc, at, f, done, prev := Ok, at0, f0, done0, prev0;
      if i != 0 {
        DescAt(ctx, haveMeta, cfg.dmaAddrBits, i - 1);
        rc, at, done, prev := NextDesc(at, TxDesc(f), ring, first, hdr, ds, done, prev, m + i);
        if rc != Ok {
          return;
        }
        f := ZERO_TX;
      }
      f := FillDesc(at, f, ctx.bufs[i], ring, first, hdr, ds, done, prev, m + i + 1);
    }

    /** The first data descriptor, with the header fields. */
    method OpenHead(ctx: TxCtx, haveMeta: bool, ghost ring: seq<Entry>, ghost first: nat, ghost hdr: seq<Byte>,
                    ghost done: seq<seq<Desc>>, ghost cur: seq<Desc>)
      returns (at: nat, f: TxFields)
      requires !ctx.MetaOnly()
      requires Writing(ring, first, hdr, done, cur) && |cur| < LineRoom(done)
      requires Plan(Descs(ctx, haveMeta, cfg.dmaAddrBits), done, cur, if haveMeta then 1 else 0)
      modifies this`idx, this`descsLeftInLine, entries, bounceBuffers
      ensures DataState(ctx, haveMeta, ring, first, hdr, done, cur, f, at, 0)
    {
      f := HeadFields(ctx, haveMeta);
      at := NewDesc(TxDesc(f), ring, first, hdr, done, cur);
      PlanTake(Descs(ctx, haveMeta, cfg.dmaAddrBits), done, cur, if haveMeta then 1 else 0);
    }

    method CloseData(ctx: TxCtx, haveMeta: bool, at: nat, f: TxFields,
                     ghost ring: seq<Entry>, ghost first: nat, ghost hdr: seq<Byte>,
                     ghost done0: seq<seq<Desc>>, ghost prev: seq<Desc>)
      returns (rc: Rc, ghost done: seq<seq<Desc>>, ghost cur: seq<Desc>)
      requires !ctx.MetaOnly()
      requires DataState(ctx, haveMeta, ring, first, hdr, done0, prev, f, at, |ctx.bufs|)
      modifies this, entries, bounceBuffers
      ensures cachedMeta == old(cachedMeta) && rung == old(rung) && acked == old(acked)
      ensures rc == Ok || rc == NoSpace
      ensures rc == Ok ==> Complete(ctx, haveMeta, ring, first, hdr, done, cur)
      ensures rc == NoSpace ==> BurstRanOut(ring, first, hdr, PacketChunks(cfg, ctx, haveMeta))
    {
      hide OpenDesc, Chunks;
      FinalDesc(ctx, haveMeta, cfg.dmaAddrBits, f);
      rc, done, cur := MarkLast(at, f, ring, first, hdr, Descs(ctx, haveMeta, cfg.dmaAddrBits), done0, prev);
    }

    /** All of the packet's descriptors are written; the last line may still be open. */
    ghost predicate Complete(ctx: TxCtx, haveMeta: bool, ring: seq<Entry>, first: nat, hdr: seq<Byte>,
                             done: seq<seq<Desc>>, cur: seq<Desc>)
      reads this, entries, bounceBuffers
    {
      && Writing(ring, first, hdr, done, cur)
      && (!cfg.llq ==> cur == [])
      && var ds := Descs(ctx, haveMeta, cfg.dmaAddrBits);
      Plan(ds, done, cur, |ds|)
    }

    /** The data descriptors, the final one marked LAST. */
    method WriteData(ctx: TxCtx, haveMeta: bool, ghost ring: seq<Entry>, ghost first: nat, ghost hdr: seq<Byte>,
                     ghost done0: seq<seq<Desc>>, ghost cur0: seq<Desc>)
      returns (rc: Rc, ghost done: seq<seq<Desc>>, ghost cur: seq<Desc>)
      requires !ctx.MetaOnly()
      requires Writing(ring, first, hdr, done0, cur0) && |cur0| < LineRoom(done0)
      requires Plan(Descs(ctx, haveMeta, cfg.dmaAddrBits), done0, cur0, if haveMeta then 1 else 0)
      modifies this, entries, bounceBuffers
      ensures cachedMeta == old(cachedMeta) && rung == old(rung) && acked == old(acked)
      ensures rc == Ok || rc == NoSpace
      ensures rc == Ok ==> Complete(ctx, haveMeta, ring, first, hdr, done, cur)
      ensures rc == NoSpace ==> BurstRanOut(ring, first, hdr, PacketChunks(cfg, ctx, haveMeta))
    {
      hide OpenDesc, Plan, Complete, BurstRanOut, Descs, PacketChunks;
      ghost var prev := cur0;
      done, cur, rc := done0, cur0, Ok;
      var at, f := OpenHead(ctx, haveMeta, ring, first, hdr, done, prev);
      var i := 0;
      while i < |ctx.bufs|
        invariant DataState(ctx, haveMeta, ring, first, hdr, done, prev, f, at, i)
        invariant cachedMeta == old(cachedMeta) && rung == old(rung) && acked == old(acked)
      {
        rc, at, f, done, prev := AddBuf(ctx, haveMeta, i, at, f, ring, first, hdr, done, prev);
        if rc != Ok {
          return;
        }
        i := i + 1;
      }
      rc, done, cur := CloseData(ctx, haveMeta, at, f, ring, first, hdr, done, prev);
    }

    /** Sends what the open line holds and starts the next packet on a fresh line. */
    method CloseBounceBuffer(ghost ring: seq<Entry>, ghost first: nat, ghost hdr: seq<Byte>,
                             ghost done: seq<seq<Desc>>, ghost cur: seq<Desc>) returns (rc: Rc)
      requires Writing(ring, first, hdr, done, cur) && (!cfg.llq ==> cur == [])
      requires cfg.llq && done == [] && cur == [] ==> hdr == []
      modifies this, entries, bounceBuffers
      ensures cachedMeta == old(cachedMeta) && rung == old(rung) && acked == old(acked)
      ensures rc == Ok || rc == NoSpace
      ensures rc == Ok ==> Core() && LineReset()
      ensures rc == Ok ==> Stores(ring, first, hdr, if cur == [] then done else done + [cur])
      ensures rc == NoSpace ==> cur != [] && BurstRanOut(ring, first, hdr, done + [cur])
    {
      hide Stored, Written;
      if !cfg.llq {
        return Ok;
      }
      if idx != 0 {
        StoreClosedLine(ring, first, hdr, done, cur);
        rc := WriteBounceBufferToDev();
        if rc != Ok {
          assert (done + [cur])[..|done|] == done;
          return;
        }
        NextBounceBuffer();
      }
      idx := 0;
      descsLeftInLine := cfg.descsBeforeHeader;
      rc := Ok;
    }

    /** The packet, sent while `cached` was the cached meta data, is the last one in the ring. */
    ghost predicate Carries(ring: seq<Entry>, first: nat, cached: Meta, ctx: TxCtx)
      reads this`submitted, entries
    {
      cfg.Valid() && Stores(ring, first, PushedHeader(cfg, ctx), PacketChunks(cfg, ctx, SendsMeta(cfg, cached, ctx)))
    }

    /** The packet's lines are in the ring, and the tail has moved past them. */
    ghost predicate Stores(ring: seq<Entry>, first: nat, hdr: seq<Byte>, chunks: seq<seq<Desc>>)
      reads this`submitted, entries
    {
      && cfg.Valid()
      && |ring| == cfg.depth
      && submitted == first + |chunks|
      && entries[..] == Stored(cfg.depth, ring, first, Written(cfg, first, chunks, hdr))
    }

    ghost predicate LineReset()
      reads this, bounceBuffers
    {
      cfg.llq ==>
        && currBounce < bounceBuffers.Length
        && idx == 0 && descsLeftInLine == cfg.descsBeforeHeader
        && bounceBuffers[currBounce] == Line([], phase, [], cfg.descsBeforeHeader, cfg.lineSize)
    }

    /** Everything after the checks: meta data, data descriptors, closing the line. */
    method WritePacket(ctx: TxCtx, ghost ring: seq<Entry>, ghost first: nat, ghost hdr: seq<Byte>)
      returns (rc: Rc)
      requires Writing(ring, first, hdr, [], []) && (ctx.MetaOnly() ==> hdr == [])
      modifies this, entries, bounceBuffers
      ensures cachedMeta == NextCachedMeta(cfg, old(cachedMeta), ctx)
      ensures rung == old(rung) && acked == old(acked)
      ensures rc == Ok || rc == NoSpace
      ensures var chunks := PacketChunks(cfg, ctx, SendsMeta(cfg, old(cachedMeta), ctx));
              if rc == Ok then Core() && LineReset() && Stores(ring, first, hdr, chunks)
              else BurstRanOut(ring, first, hdr, chunks)
    {
      var haveMeta;
      ghost var done, cur;
      rc, haveMeta, done, cur := CreateAndStoreMeta(ctx, ring, first, hdr);
      if rc == Ok && (|ctx.bufs| > 0 || ctx.headerLen > 0) {
        rc, done, cur := WriteData(ctx, haveMeta, ring, first, hdr, done, cur);
      }
      if rc == Ok {
        PlanEnd(Descs(ctx, haveMeta, cfg.dmaAddrBits), done, cur);
        rc := CloseBounceBuffer(ring, first, hdr, done, cur);
      }
    }

    ghost function Free(): int
      reads this
    {
      cfg.depth - 1 - (submitted - acked)
    }

    /** A packet that passed the checks: written completely, or as far as the burst budget goes. */
    method PushPacket(ctx: TxCtx) returns (rc: Rc)
      requires Valid() && ctx.Typed() && PassesSpaceCheck(cfg, ctx, Free())
      requires cfg.llq ==> DESC_SIZE * cfg.descsBeforeHeader + ctx.headerLen <= cfg.lineSize
      modifies this, entries, bounceBuffers
      ensures rung == old(rung) && acked == old(acked)
      ensures tail == submitted % U16 && submitted >= old(submitted)
      ensures cachedMeta == NextCachedMeta(cfg, old(cachedMeta), ctx)
      ensures var haveMeta := SendsMeta(cfg, old(cachedMeta), ctx);
              var chunks, hdr := PacketChunks(cfg, ctx, haveMeta), PushedHeader(cfg, ctx);
              && rc == (if cfg.HasBurst() && old(entriesInTxBurstLeft) < |chunks| then NoSpace else Ok)
              && (rc == Ok ==> Core() && Stores(old(entries[..]), old(submitted), hdr, chunks))
              && (rc == Ok && SpaceCheckCovers(cfg, ctx, haveMeta) ==> Valid())
              && (rc == NoSpace ==> BurstRanOut(old(entries[..]), old(submitted), hdr, chunks))
    {
      hide Stored, Written, Line, Phase, PacketChunks;
      ghost var haveMeta := SendsMeta(cfg, cachedMeta, ctx);
      if SpaceCheckCovers(cfg, ctx, haveMeta) {
        SpaceCheckSound(cfg, ctx, haveMeta, Free());
      }
      var hdr := PushedHeader(cfg, ctx);
      ghost var ring, first := entries[..], submitted;
      WriteHeaderToBounce(hdr);
      rc := WritePacket(ctx, ring, first, hdr);
    }

    /**
      `ena_com_prepare_tx`. The result is the verdict of the checks. A packet
      that is accepted ends up in the ring exactly as the reader expects it, on
      the next entries, and nothing else changes there; a refused one changes
      nothing; a burst that runs out keeps the lines that still fitted.
      `nbHwDesc` is the difference of two 16-bit tails, negative when they wrap.
     */
    method PrepareTx(ctx: TxCtx) returns (rc: Rc, nbHwDesc: int)
      requires Valid() && ctx.Typed()
      modifies this, entries, bounceBuffers
      ensures rc == Verdict(cfg, old(cachedMeta), ctx, old(Free()), old(entriesInTxBurstLeft))
      ensures rc in {NoMem, Inval, Fault} ==> unchanged(this) && unchanged(entries) && unchanged(bounceBuffers)
      ensures rc in {NoMem, Inval, Fault} ==> Valid()
      ensures rung == old(rung) && acked == old(acked)
      ensures rc in {Ok, NoSpace} ==> cachedMeta == NextCachedMeta(cfg, old(cachedMeta), ctx)
      ensures rc == Ok ==> Carries(old(entries[..]), old(submitted), old(cachedMeta), ctx)
      ensures rc == Ok ==> nbHwDesc % U16 == (submitted - old(submitted)) % U16
      ensures rc == Ok && SpaceCheckCovers(cfg, ctx, SendsMeta(cfg, old(cachedMeta), ctx)) ==> Valid()
      ensures rc == NoSpace ==>
                BurstRanOut(old(entries[..]), old(submitted), PushedHeader(cfg, ctx),
                            PacketChunks(cfg, ctx, SendsMeta(cfg, old(cachedMeta), ctx)))
    {
      hide Stores, BurstRanOut, PacketChunks, SpaceCheckCovers, NextCachedMeta;
      var startTail := tail;
      nbHwDesc := 0;
      var enough := HaveEnoughSpace((|ctx.bufs| + 1) % U16);
      assert enough == PassesSpaceCheck(cfg, ctx, Free());
      if !enough {
        return NoMem, nbHwDesc;
      }
      if ctx.headerLen > cfg.txMaxHeaderSize {
        return Inval, nbHwDesc;
      }
      if cfg.llq && ctx.pushHeader.None? {
        return Inval, nbHwDesc;
      }
      if cfg.llq && cfg.descsBeforeHeader * DESC_SIZE + ctx.headerLen > cfg.lineSize {
        return Fault, nbHwDesc;
      }
      rc := PushPacket(ctx);
      nbHwDesc := tail - startTail;
      if rc == Ok {
        CounterDifference(submitted, old(submitted));
      }
    }

    /** A packet as mapping makes it: its header fits the line, and it has a buffer where it needs one. */
    predicate Mapped(ctx: TxCtx) {
      && ctx.Typed() && |ctx.bufs| + 1 < U16
      && (cfg.llq ==> ctx.pushHeader.Some? && DESC_SIZE * cfg.descsBeforeHeader + ctx.headerLen <= cfg.lineSize)
      && (!cfg.llq ==> |ctx.bufs| >= 1 || ctx.MetaOnly())
    }

    /** With a header or buffers. */
    predicate MappedData(ctx: TxCtx) {
      Mapped(ctx) && !ctx.MetaOnly()
    }

    predicate FitsBurst(ctx: TxCtx)
      requires cfg.Valid()
      reads this
    {
      SqAccounting.FitsBurst(cfg, ctx, SendsMeta(cfg, cachedMeta, ctx))
    }

    function BudgetFor(ctx: TxCtx): nat
      requires cfg.Valid()
      reads this
    {
      SqAccounting.BudgetFor(cfg, cachedMeta, entriesInTxBurstLeft, ctx)
    }

    function Uses(ctx: TxCtx): nat
      requires cfg.Valid()
      reads this
    {
      EntriesUsed(cfg, ctx, SendsMeta(cfg, cachedMeta, ctx))
    }

    /** What a packet takes does not depend on its request id. */
    lemma AnyId(ctx: TxCtx, reqId: nat)
      requires cfg.Valid() && Mapped(ctx)
      ensures Uses(ctx) >= 1 <==> !ctx.MetaOnly() || SendsMeta(cfg, cachedMeta, ctx)
      ensures cfg.disableMetaCaching ==> Uses(ctx) >= 1
      ensures Uses(ctx.(reqId := reqId)) == Uses(ctx)
      ensures FitsBurst(ctx.(reqId := reqId)) == FitsBurst(ctx) && BudgetFor(ctx.(reqId := reqId)) == BudgetFor(ctx)
      ensures reqId < U16 ==> Mapped(ctx.(reqId := reqId))
    {
      hide EntriesUsed, DivRoundUp, IsDepth;
      EntriesUsedAnyId(cfg, ctx, SendsMeta(cfg, cachedMeta, ctx), reqId);
    }

    lemma FindsItsBudget(ctx: TxCtx)
      requires Core() && cfg.HasBurst() && Mapped(ctx) && FitsBurst(ctx)
      ensures Uses(ctx) <= BudgetFor(ctx) && Uses(ctx) <= cfg.maxTxBurst
    {
      hide EntriesUsed, SqAccounting.FitsBurst, SqAccounting.BudgetFor, IsDepth;
      FitsBurstIff(cfg, cachedMeta, ctx);
      assert Uses(ctx) <= SqAccounting.BudgetFor(cfg, cachedMeta, cfg.maxTxBurst, ctx);
      BudgetAtMost(cfg, cachedMeta, cfg.maxTxBurst, ctx);
    }

    /** The submission queue's part of sending: on success, exactly the packet's entries are outstanding more. */
    method Submit(ctx: TxCtx) returns (rc: Rc, nbHwDesc: int)
      requires Valid() && Mapped(ctx)
      modifies this, entries, bounceBuffers
      ensures Core() && rung == old(rung) && acked == old(acked)
      ensures rc == NoMem <==> !PassesSpaceCheck(cfg, ctx, old(Free()))
      ensures rc == Ok <==>
                && PassesSpaceCheck(cfg, ctx, old(Free())) && ctx.headerLen <= cfg.txMaxHeaderSize
                && (cfg.llq && cfg.maxTxBurst > 0 ==> old(Uses(ctx)) <= old(entriesInTxBurstLeft))
      ensures rc == Inval <==> PassesSpaceCheck(cfg, ctx, old(Free())) && ctx.headerLen > cfg.txMaxHeaderSize
      ensures rc in {Ok, NoMem, Inval, NoSpace}
      ensures rc == NoSpace ==> cfg.HasBurst() && old(entriesInTxBurstLeft) < old(Uses(ctx))
      ensures rc != NoSpace ==> Valid() && submitted - acked <= cfg.depth - 1
      ensures rc == Ok ==> submitted == old(submitted) + old(Uses(ctx)) && nbHwDesc % U16 == old(Uses(ctx)) % U16
      ensures rc in {NoMem, Inval} ==>
                submitted == old(submitted) && cachedMeta == old(cachedMeta) && entries[..] == old(entries[..])
      ensures rc == Ok ==> Carries(old(entries[..]), old(submitted), old(cachedMeta), ctx)
      ensures rc == Ok ==> cachedMeta == NextCachedMeta(cfg, old(cachedMeta), ctx)
      ensures rc == Ok && cfg.HasBurst() ==> entriesInTxBurstLeft == old(entriesInTxBurstLeft) - old(Uses(ctx))
    {
      hide PacketChunks, Chunks, Descs, Stored, Written;
      rc, nbHwDesc := PrepareTx(ctx);
    }

    /** `ena_com_add_single_rx_desc`: posts one receive buffer as the next ring element. */
    method AddSingleRxDesc(buf: Buf, reqId: nat) returns (rc: Rc)
      requires Valid() && !cfg.llq
      modifies this`tail, this`phase, this`submitted, entries
      ensures Valid() && acked == old(acked) && (rc == Ok || rc == NoSpace)
      ensures rc == NoSpace <==> old(Free()) == 0
      ensures rc == NoSpace ==> submitted == old(submitted) && entries[..] == old(entries[..])
      ensures rc == Ok ==> submitted == old(submitted) + 1
      ensures rc == Ok ==>
                entries[..] == old(entries[..])[Slot(cfg.depth, old(submitted)) :=
                  DescBytes(RxDesc(buf.len, buf.paddr % U32, AddrHi(buf.paddr, cfg.dmaAddrBits), reqId),
                            Phase(cfg.depth, old(submitted)))]
    {
      var enough := HaveEnoughSpace(1);
      if !enough {
        return NoSpace;
      }
      CounterSlot(cfg.depth, submitted);
      var d := RxDesc(buf.len, buf.paddr % U32, AddrHi(buf.paddr, cfg.dmaAddrBits), reqId);
      entries[Masked(tail, cfg.depth)] := DescBytes(d, phase);
      AdvanceTail();
      rc := Ok;
    }

    lemma {:induction false} FinalDesc(ctx: TxCtx, haveMeta: bool, bits: nat, f: TxFields)
      requires bits >= 32 && !ctx.MetaOnly()
      requires f == if ctx.bufs == [] then HeadFields(ctx, haveMeta)
                    else OpenFields(ctx, haveMeta, bits, |ctx.bufs| - 1)
      ensures var ds := Descs(ctx, haveMeta, bits);
              |ds| == (if haveMeta then 1 else 0) + (if ctx.bufs == [] then 1 else |ctx.bufs|)
              && TxDesc(f.(last := true)) == ds[|ds| - 1]
    {
      if |ctx.bufs| == 0 {
        HeaderOnlyDesc(ctx, haveMeta, bits);
      }
      DescAt(ctx, haveMeta, bits, DataCount(ctx) - 1);
    }
  }
}
