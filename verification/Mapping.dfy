/**
  Turning a fragmented packet into a pushed header and DMA buffers: the Linux
  socket buffer with a linear part and page fragments, and the FreeBSD mbuf whose
  segments are mapped beforehand.
 */
module Mapping {
  import opened Words
  import opened TxWire
  import opened TxDecode

  // ---------------------------------------------------------------- byte ranges

  function Concat(parts: seq<seq<Byte>>): seq<Byte> {
    if parts == [] then [] else parts[0] + Concat(parts[1..])
  }

  /** What is left of the parts behind their first `delta` bytes; parts that end before are gone. */
  function Pieces(parts: seq<seq<Byte>>, delta: nat): (r: seq<seq<Byte>>)
    ensures |r| <= |parts|
  {
    if parts == [] then []
    else if delta >= |parts[0]| then Pieces(parts[1..], delta - |parts[0]|)
    else [parts[0][delta..]] + Pieces(parts[1..], 0)
  }

  /** Parts that lie in the first `delta` bytes altogether. */
  function Swallowed(parts: seq<seq<Byte>>, delta: nat): nat {
    if parts == [] then 0
    else if delta >= |parts[0]| then 1 + Swallowed(parts[1..], delta - |parts[0]|)
    else Swallowed(parts[1..], 0)
  }

  lemma DropFront(p: seq<Byte>, tail: seq<Byte>, delta: nat)
    requires delta <= |p + tail|
    ensures (p + tail)[delta..] == if delta >= |p| then tail[delta - |p|..] else p[delta..] + tail
  {
  }

  lemma ConcatFirst(p: seq<Byte>, rest: seq<seq<Byte>>)
    ensures Concat([p] + rest) == p + Concat(rest)
  {
    assert ([p] + rest)[1..] == rest;
  }

  lemma PiecesFirst(parts: seq<seq<Byte>>, delta: nat)
    requires parts != []
    ensures var p := parts[0];
            if delta >= |p| then
              && Pieces(parts, delta) == Pieces(parts[1..], delta - |p|)
              && Swallowed(parts, delta) == 1 + Swallowed(parts[1..], delta - |p|)
            else
              && Pieces(parts, delta) == [p[delta..]] + Pieces(parts[1..], 0)
              && Swallowed(parts, delta) == Swallowed(parts[1..], 0)
  {
  }

  lemma NoParts(delta: nat)
    ensures Pieces([], delta) == [] && Swallowed([], delta) == 0 && Concat([]) == []
  {
  }

  /** The pieces are the bytes behind the first `delta`, in order, with no gap and no overlap. */
  lemma {:induction false} PiecesAreTheRest(parts: seq<seq<Byte>>, delta: nat)
    requires delta <= |Concat(parts)|
    ensures Concat(Pieces(parts, delta)) == Concat(parts)[delta..]
    ensures |Pieces(parts, delta)| + Swallowed(parts, delta) == |parts|
  {
    hide Pieces, Swallowed, Concat;
    if parts == [] {
      NoParts(delta);
    } else {
      var p, rest := parts[0], parts[1..];
      assert parts == [p] + rest;
      ConcatFirst(p, rest);
      DropFront(p, Concat(rest), delta);
      PiecesFirst(parts, delta);
      if delta >= |p| {
        PiecesAreTheRest(rest, delta - |p|);
      } else {
        PiecesAreTheRest(rest, 0);
        ConcatFirst(p[delta..], Pieces(rest, 0));
      }
    }
  }

  lemma {:induction false} ConcatLast(parts: seq<seq<Byte>>, p: seq<Byte>)
    ensures Concat(parts + [p]) == Concat(parts) + p
  {
    if parts == [] {
      assert parts + [p] == [p];
    } else {
      ConcatLast(parts[1..], p);
      assert (parts + [p])[1..] == parts[1..] + [p];
    }
  }

  // ---------------------------------------------------------------- device memory

  /** What the device reads through a list of buffers. */
  function Read(mem: seq<Byte>, bufs: seq<Buf>): seq<Byte> {
    if bufs == [] then []
    else Read(mem, bufs[..|bufs| - 1]) + ReadBuf(mem, bufs[|bufs| - 1])
  }

  function ReadBuf(mem: seq<Byte>, b: Buf): seq<Byte> {
    if b.paddr + b.len <= |mem| then mem[b.paddr..b.paddr + b.len] else []
  }

  /** The 16-bit length field of a buffer. */
  function LenField(n: nat): nat {
    n % U16
  }

  /** Each buffer is at its piece, but its length is a 16-bit number. */
  ghost predicate Recorded(mem: seq<Byte>, bufs: seq<Buf>, pieces: seq<seq<Byte>>) {
    && |bufs| == |pieces|
    && forall i :: 0 <= i < |bufs| ==>
         && bufs[i].len == LenField(|pieces[i]|)
         && bufs[i].paddr + |pieces[i]| <= |mem|
         && mem[bufs[i].paddr..bufs[i].paddr + |pieces[i]|] == pieces[i]
  }

  ghost predicate Short(pieces: seq<seq<Byte>>) {
    forall i :: 0 <= i < |pieces| ==> |pieces[i]| < U16
  }

  lemma {:induction false} ReadLength(mem: seq<Byte>, bufs: seq<Buf>, pieces: seq<seq<Byte>>)
    requires Recorded(mem, bufs, pieces)
    ensures |Read(mem, bufs)| <= |Concat(pieces)|
    ensures !Short(pieces) ==> |Read(mem, bufs)| < |Concat(pieces)|
    decreases |bufs|
  {
    hide LenField, ReadBuf;
    if bufs != [] {
      var n := |bufs| - 1;
      ReadOne(mem, bufs[n], pieces[n]);
      ReadLength(mem, bufs[..n], pieces[..n]);
      ConcatLast(pieces[..n], pieces[n]);
      assert pieces == pieces[..n] + [pieces[n]];
      LowPart(|pieces[n]|);
    }
  }

  lemma LowPart(n: nat)
    ensures LenField(n) <= n && (LenField(n) == n <==> n < U16)
  {
  }

  lemma {:induction false} ReadShort(mem: seq<Byte>, bufs: seq<Buf>, pieces: seq<seq<Byte>>)
    requires Recorded(mem, bufs, pieces) && Short(pieces)
    ensures Read(mem, bufs) == Concat(pieces)
    decreases |bufs|
  {
    if bufs != [] {
      hide Concat, LenField, ReadBuf;
      var n := |bufs| - 1;
      ReadShort(mem, bufs[..n], pieces[..n]);
      ConcatLast(pieces[..n], pieces[n]);
      assert pieces == pieces[..n] + [pieces[n]];
      ReadOne(mem, bufs[n], pieces[n]);
    }
  }

  lemma ReadOne(mem: seq<Byte>, b: Buf, piece: seq<Byte>)
    requires b.len == LenField(|piece|) && b.paddr + |piece| <= |mem| && mem[b.paddr..b.paddr + |piece|] == piece
    ensures |ReadBuf(mem, b)| == b.len && (|piece| < U16 ==> ReadBuf(mem, b) == piece)
  {
    hide LenField;
    LowPart(|piece|);
  }

  /** The device reads exactly the pieces if and only if none is too long for a buffer's length field. */
  lemma {:induction false} ReadsAllIff(mem: seq<Byte>, bufs: seq<Buf>, pieces: seq<seq<Byte>>)
    requires Recorded(mem, bufs, pieces)
    ensures Read(mem, bufs) == Concat(pieces) <==> Short(pieces)
  {
    ReadLength(mem, bufs, pieces);
    if Short(pieces) {
      ReadShort(mem, bufs, pieces);
    }
  }

  /** A range of device addresses, mapped from linear memory (`dma_map_single`) or from a page. */
  datatype Range = Range(addr: nat, len: nat, single: bool)

  /** The DMA interface: a mapping may fail, and what it maps keeps its place. */
  class Bus {
    var mem: seq<Byte>
    /** Mappings in force. */
    var live: multiset<Range>
    /** Mappings that failed so far. */
    var failures: nat

    method Map(bytes: seq<Byte>, single: bool) returns (dma: Option<nat>)
      modifies this
      ensures old(mem) <= mem
      ensures dma.Some? ==> dma.value + |bytes| <= |mem| && mem[dma.value..dma.value + |bytes|] == bytes
      ensures live == if dma.Some? then old(live) + multiset{Range(dma.value, |bytes|, single)} else old(live)
      ensures failures == old(failures) + if dma.Some? then 0 else 1
    {
      if * {
        dma := Some(|mem|);
        mem := mem + bytes;
        live := live + multiset{Range(dma.value, |bytes|, single)};
      } else {
        dma := None;
        failures := failures + 1;
      }
    }

    /** Gives a mapping back; a range that is not mapped in that way gives nothing back. */
    method Unmap(dma: nat, len: nat, single: bool)
      modifies this`live
      ensures live == old(live) - multiset{Range(dma, len, single)}
    {
      live := live - multiset{Range(dma, len, single)};
    }
  }

  /** The ranges that were mapped for the pieces; `single` when the first one is the linear part. */
  function Ranges(bufs: seq<Buf>, pieces: seq<seq<Byte>>, single: bool): (r: multiset<Range>)
    requires |bufs| == |pieces|
  {
    if bufs == [] then multiset{}
    else
      var n := |bufs| - 1;
      Ranges(bufs[..n], pieces[..n], single) + multiset{Range(bufs[n].paddr, |pieces[n]|, single && n == 0)}
  }

  /** The ranges as the buffers record them; `single` when the first one is to be the linear part. */
  function Records(bufs: seq<Buf>, single: bool): (r: multiset<Range>)
  {
    if bufs == [] then multiset{}
    else
      var n := |bufs| - 1;
      Records(bufs[..n], single) + multiset{Range(bufs[n].paddr, bufs[n].len, single && n == 0)}
  }

  /** What is mapped later leaves the pieces where they are. */
  lemma RecordedStays(mem: seq<Byte>, mem': seq<Byte>, bufs: seq<Buf>, pieces: seq<seq<Byte>>)
    requires Recorded(mem, bufs, pieces) && mem <= mem'
    ensures Recorded(mem', bufs, pieces)
  {
    hide LenField;
  }

  lemma OnePieceMore(mem: seq<Byte>, bufs: seq<Buf>, pieces: seq<seq<Byte>>, single: bool, b: Buf, piece: seq<Byte>)
    requires Recorded(mem, bufs, pieces)
    requires b.len == LenField(|piece|) && b.paddr + |piece| <= |mem| && mem[b.paddr..b.paddr + |piece|] == piece
    ensures Recorded(mem, bufs + [b], pieces + [piece])
    ensures Ranges(bufs + [b], pieces + [piece], single)
            == Ranges(bufs, pieces, single) + multiset{Range(b.paddr, |piece|, single && bufs == [])}
  {
    hide LenField;
    assert (bufs + [b])[..|bufs|] == bufs && (pieces + [piece])[..|bufs|] == pieces;
  }

  lemma {:induction false} RecordsOfShort(mem: seq<Byte>, bufs: seq<Buf>, pieces: seq<seq<Byte>>, single: bool)
    requires Recorded(mem, bufs, pieces) && Short(pieces)
    ensures Records(bufs, single) == Ranges(bufs, pieces, single)
  {
    if bufs != [] {
      var n := |bufs| - 1;
      RecordsOfShort(mem, bufs[..n], pieces[..n], single);
      LowPart(|pieces[n]|);
    }
  }

  lemma {:induction false} RangeOfPiece(bufs: seq<Buf>, pieces: seq<seq<Byte>>, single: bool, i: nat)
    requires |bufs| == |pieces| && i < |bufs|
    ensures Range(bufs[i].paddr, |pieces[i]|, single && i == 0) in Ranges(bufs, pieces, single)
  {
    var n := |bufs| - 1;
    if i < n {
      RangeOfPiece(bufs[..n], pieces[..n], single, i);
    }
  }

  lemma {:induction false} RecordsAreShort(bufs: seq<Buf>, single: bool, r: Range)
    requires forall i :: 0 <= i < |bufs| ==> bufs[i].len < U16
    requires r in Records(bufs, single)
    ensures r.len < U16
  {
    var n := |bufs| - 1;
    if r != Range(bufs[n].paddr, bufs[n].len, single && n == 0) {
      RecordsAreShort(bufs[..n], single, r);
    }
  }

  /**
    Giving back the ranges that the buffers record gives back what was mapped,
    and nothing else, if and only if no piece was too long for the record.
   */
  lemma {:induction false} GivesBackIff(mem: seq<Byte>, bufs: seq<Buf>, pieces: seq<seq<Byte>>, single: bool,
                                        others: multiset<Range>)
    requires Recorded(mem, bufs, pieces)
    ensures others + Ranges(bufs, pieces, single) - Records(bufs, single) == others <==> Short(pieces)
  {
    if Short(pieces) {
      RecordsOfShort(mem, bufs, pieces, single);
    } else {
      var i :| 0 <= i < |pieces| && |pieces[i]| >= U16;
      var r := Range(bufs[i].paddr, |pieces[i]|, single && i == 0);
      RangeOfPiece(bufs, pieces, single, i);
      if r in Records(bufs, single) {
        RecordsAreShort(bufs, single, r);
      }
      assert (others + Ranges(bufs, pieces, single) - Records(bufs, single))[r] > others[r];
    }
  }

  // ---------------------------------------------------------------- the fragment check

  /** `ena_too_many_tx_frags` */
  predicate TooManyTxFrags(nrFrags: nat, sglSize: nat, headerLen: nat, txMaxHeaderSize: nat, llq: bool) {
    if nrFrags < sglSize then false
    else if nrFrags == sglSize && llq && headerLen <= txMaxHeaderSize then false
    else if nrFrags == sglSize && !llq && headerLen == 0 then false
    else true
  }

  /** The length of the pushed header. */
  function PushLen(llq: bool, total: nat, txMaxHeaderSize: nat): nat {
    if !llq then 0 else if total < txMaxHeaderSize then total else txMaxHeaderSize
  }

  /** The pieces of a packet that are mapped: the linear part behind the header, then the fragments. */
  function SkbPieces(linear: seq<Byte>, frags: seq<seq<Byte>>, pushLen: nat): seq<seq<Byte>> {
    (if |linear| > pushLen then [linear[pushLen..]] else [])
    + Pieces(frags, if pushLen > |linear| then pushLen - |linear| else 0)
  }

  /** The pushed header and the mapped pieces are the packet, every byte once and in order. */
  lemma {:induction false} HeaderAndPiecesAreThePacket(linear: seq<Byte>, frags: seq<seq<Byte>>, pushLen: nat)
    requires pushLen <= |linear + Concat(frags)|
    ensures var packet := linear + Concat(frags);
            packet[..pushLen] + Concat(SkbPieces(linear, frags, pushLen)) == packet
  {
    var packet, rest := linear + Concat(frags), SkbPieces(linear, frags, pushLen);
    if |linear| > pushLen {
      PiecesAreTheRest(frags, 0);
      assert rest[1..] == Pieces(frags, 0);
      assert packet[..pushLen] == linear[..pushLen];
      assert Concat(rest) == linear[pushLen..] + Concat(frags);
    } else {
      PiecesAreTheRest(frags, pushLen - |linear|);
      assert rest == Pieces(frags, pushLen - |linear|);
      assert packet[..pushLen] + Concat(frags)[pushLen - |linear|..] == packet;
    }
  }

  /**
    The check is exact for the buffers counted with one per fragment: the packet
    is too long when the linear part, if any of it is mapped, and all fragments
    exceed the limit. Fragments that the header swallows are counted all the same.
   */
  lemma {:induction false} TooManyIff(linear: seq<Byte>, frags: seq<seq<Byte>>, sglSize: nat, txMaxHeaderSize: nat,
                                      llq: bool)
    ensures var pushLen := PushLen(llq, |linear + Concat(frags)|, txMaxHeaderSize);
            var delta := if pushLen > |linear| then pushLen - |linear| else 0;
            TooManyTxFrags(|frags|, sglSize, |linear|, txMaxHeaderSize, llq)
            <==> |SkbPieces(linear, frags, pushLen)| + Swallowed(frags, delta) > sglSize
  {
    var pushLen := PushLen(llq, |linear + Concat(frags)|, txMaxHeaderSize);
    PiecesAreTheRest(frags, if pushLen > |linear| then pushLen - |linear| else 0);
  }

  /** A packet the check turns away although it needs no more buffers than allowed. */
  lemma SwallowedFragmentIsCounted()
    ensures TooManyTxFrags(2, 1, 0, 96, true)
    ensures |SkbPieces([], [seq(96, _ => 0), [1]], PushLen(true, 97, 96))| == 1
  {
    var frags: seq<seq<Byte>> := [seq(96, _ => 0), [1]];
    assert Pieces(frags, 96) == Pieces(frags[1..], 0) == [[1]] + Pieces([], 0);
  }

  lemma {:induction false} TooManyBoundsBuffers(linear: seq<Byte>, frags: seq<seq<Byte>>, sglSize: nat,
                                                txMaxHeaderSize: nat, llq: bool)
    requires !TooManyTxFrags(|frags|, sglSize, |linear|, txMaxHeaderSize, llq)
    ensures |SkbPieces(linear, frags, PushLen(llq, |linear + Concat(frags)|, txMaxHeaderSize))| <= sglSize
  {
    TooManyIff(linear, frags, sglSize, txMaxHeaderSize, llq);
  }

  /** A socket buffer: a linear part and page fragments. */
  class Skb {
    var linear: seq<Byte>
    var frags: seq<seq<Byte>>

    function Packet(): seq<Byte>
      reads this
    {
      linear + Concat(frags)
    }

    /** `skb_linearize`: may fail for lack of memory. */
    method Linearize() returns (ok: bool)
      modifies this
      ensures Packet() == old(Packet())
      ensures ok ==> frags == []
      ensures !ok ==> linear == old(linear) && frags == old(frags)
    {
      ok := false;
      if * {
        linear := Packet();
        frags := [];
        assert linear + [] == linear;
        ok := true;
      }
    }
  }

  /** `struct ena_tx_buffer` as far as mapping goes; the buffers are a fixed array. */
  class TxBuffer {
    const bufs: array<Buf>
    var numOfBufs: nat
    var mapLinearData: bool
    var attached: bool

    constructor (maxBufs: nat)
      ensures bufs.Length == maxBufs && fresh(bufs) && numOfBufs == 0 && !attached
    {
      bufs := new Buf[maxBufs](i => Buf(0, 0));
      numOfBufs, mapLinearData, attached := 0, false, false;
    }

    ghost predicate Valid()
      reads this
    {
      numOfBufs <= bufs.Length
    }

    /** The buffers in use are the given pieces, and the mappings in force are theirs and `others`. */
    ghost predicate Holds(bus: Bus, pieces: seq<seq<Byte>>, single: bool, others: multiset<Range>)
      reads this, bufs, bus
    {
      && Valid() && numOfBufs == |pieces| && Recorded(bus.mem, bufs[..numOfBufs], pieces)
      && bus.live == others + Ranges(bufs[..numOfBufs], pieces, single)
    }

    /** Maps one more piece into the next buffer. */
    method MapPiece(bus: Bus, piece: seq<Byte>, linear: bool, ghost pieces: seq<seq<Byte>>, ghost single: bool,
                    ghost others: multiset<Range>)
      returns (ok: bool)
      requires Holds(bus, pieces, single, others) && numOfBufs < bufs.Length && (linear <==> single && pieces == [])
      modifies bus, this`numOfBufs, bufs
      ensures Holds(bus, if ok then pieces + [piece] else pieces, single, others)
      ensures bus.failures >= old(bus.failures) && (ok <==> bus.failures == old(bus.failures))
    {
      hide Recorded, Ranges, LenField;
      ghost var before := bufs[..numOfBufs];
      var dma := bus.Map(piece, linear);
      RecordedStays(old(bus.mem), bus.mem, before, pieces);
      if dma.None? {
        return false;
      }
      var b := Buf(dma.value, LenField(|piece|));
      OnePieceMore(bus.mem, before, pieces, single, b, piece);
      bufs[numOfBufs] := b;
      numOfBufs := numOfBufs + 1;
      assert bufs[..numOfBufs] == before + [b];
      ok := true;
    }

    /** `ena_tx_map_frags`: maps what is left of the fragments behind their first `delta0` bytes. */
    method MapFrags(bus: Bus, frags: seq<seq<Byte>>, delta0: nat, ghost pieces: seq<seq<Byte>>, ghost single: bool,
                    ghost others: multiset<Range>)
      returns (ok: bool, ghost mapped: seq<seq<Byte>>)
      requires Holds(bus, pieces, single, others) && (single ==> pieces != [])
      requires numOfBufs + |Pieces(frags, delta0)| <= bufs.Length
      modifies bus, this`numOfBufs, bufs
      ensures Holds(bus, mapped, single, others) && mapped <= pieces + Pieces(frags, delta0)
      ensures ok ==> mapped == pieces + Pieces(frags, delta0)
      ensures bus.failures >= old(bus.failures) && (ok <==> bus.failures == old(bus.failures))
    {
      hide Recorded, Ranges;
      var i: nat, delta: nat := 0, delta0;
      ok, mapped := true, pieces;
      while i < |frags|
        invariant 0 <= i <= |frags| && Holds(bus, mapped, single, others) && (single ==> mapped != [])
        invariant ok && bus.failures == old(bus.failures)
        invariant mapped + Pieces(frags[i..], delta) == pieces + Pieces(frags, delta0)
        invariant numOfBufs + |Pieces(frags[i..], delta)| <= bufs.Length
      {
        var frag := frags[i];
        assert frags[i..][1..] == frags[i + 1..];
        if delta >= |frag| {
          delta := delta - |frag|;
        } else {
          ok := MapPiece(bus, frag[delta..], false, mapped, single, others);
          if !ok {
            return;
          }
          AppendAssoc(mapped, [frag[delta..]], Pieces(frags[i + 1..], 0));
          mapped := mapped + [frag[delta..]];
          delta := 0;
        }
        i := i + 1;
      }
    }

    /** `ena_unmap_tx_buff`: gives back the ranges that the buffers in use record. */
    method Unmap(bus: Bus)
      requires Valid()
      modifies bus`live
      ensures bus.live == old(bus.live) - Records(bufs[..numOfBufs], mapLinearData)
    {
      hide Records;
      NoRecords();
      if numOfBufs == 0 {
        return;
      }
      var i := 0;
      if mapLinearData {
        UnmapOne(bus, i, true, bus.live);
        i := 1;
      }
      while i < numOfBufs
        invariant 0 <= i <= numOfBufs && bus.live == old(bus.live) - Records(bufs[..i], mapLinearData)
        invariant mapLinearData ==> i > 0
      {
        UnmapOne(bus, i, false, old(bus.live));
        i := i + 1;
      }
    }

    method UnmapOne(bus: Bus, i: nat, single: bool, ghost before: multiset<Range>)
      requires Valid() && i < numOfBufs && bus.live == before - Records(bufs[..i], mapLinearData)
      requires single <==> mapLinearData && i == 0
      modifies bus`live
      ensures bus.live == before - Records(bufs[..i + 1], mapLinearData)
    {
      assert bufs[..i + 1][..i] == bufs[..i];
      bus.Unmap(bufs[i].paddr, bufs[i].len, single);
    }

    /** Undoes a mapping: all of it comes back if and only if every piece fitted a length field. */
    method Undo(bus: Bus, ghost pieces: seq<seq<Byte>>, ghost others: multiset<Range>)
      requires Holds(bus, pieces, mapLinearData, others)
      modifies bus`live
      ensures bus.live == others <==> Short(pieces)
    {
      hide Recorded, Ranges, Records, Short;
      GivesBackIff(bus.mem, bufs[..numOfBufs], pieces, mapLinearData, others);
      Unmap(bus);
    }

    /**
      `ena_tx_map_skb`. Success leaves the pushed header and the buffers of the
      packet's remaining pieces; failure at any piece gives the pieces mapped
      before it back, all of them if and only if none is too long for its record.
     */
    method TxMapSkb(bus: Bus, skb: Skb, llq: bool, txMaxHeaderSize: nat)
        returns (ok: bool, pushHdr: Option<seq<Byte>>, headerLen: nat, ghost mapped: seq<seq<Byte>>)
      requires numOfBufs == 0
      requires |SkbPieces(skb.linear, skb.frags, PushLen(llq, |skb.Packet()|, txMaxHeaderSize))| <= bufs.Length
      modifies bus, this, bufs
      ensures mapped <= SkbPieces(skb.linear, skb.frags, PushLen(llq, |skb.Packet()|, txMaxHeaderSize))
      ensures ok ==>
                && attached && Holds(bus, mapped, mapLinearData, old(bus.live))
                && mapped == SkbPieces(skb.linear, skb.frags, PushLen(llq, |skb.Packet()|, txMaxHeaderSize))
      ensures ok ==> headerLen <= txMaxHeaderSize
      ensures ok && !llq ==>
                headerLen == if |skb.linear| < txMaxHeaderSize then |skb.linear| else txMaxHeaderSize
      ensures ok ==> if llq then headerLen == PushLen(llq, |skb.Packet()|, txMaxHeaderSize)
                                 && pushHdr == Some(skb.Packet()[..headerLen])
                     else pushHdr == None
      ensures !ok ==> !attached && (bus.live == old(bus.live) <==> Short(mapped))
      ensures bus.failures >= old(bus.failures) && (ok <==> bus.failures == old(bus.failures))
    {
      var pushLen: nat, delta: nat := 0, 0;
      attached := true;
      if llq {
        pushLen := if |skb.Packet()| < txMaxHeaderSize then |skb.Packet()| else txMaxHeaderSize;
        pushHdr, headerLen := Some(skb.Packet()[..pushLen]), pushLen;
        if pushLen > |skb.linear| {
          delta := pushLen - |skb.linear|;
        }
      } else {
        pushHdr, headerLen := None, if |skb.linear| < txMaxHeaderSize then |skb.linear| else txMaxHeaderSize;
      }
      ok, mapped := MapData(bus, skb.linear, skb.frags, pushLen, delta);
      if !ok {
        attached := false;
      }
    }

    /** Maps the linear part behind the header, then the fragments; undoes it if a mapping fails. */
    method MapData(bus: Bus, linear: seq<Byte>, frags: seq<seq<Byte>>, pushLen: nat, delta: nat)
      returns (ok: bool, ghost mapped: seq<seq<Byte>>)
      requires numOfBufs == 0 && delta == if pushLen > |linear| then pushLen - |linear| else 0
      requires |SkbPieces(linear, frags, pushLen)| <= bufs.Length
      modifies bus, this`numOfBufs, this`mapLinearData, bufs
      ensures mapped <= SkbPieces(linear, frags, pushLen)
      ensures ok ==> mapped == SkbPieces(linear, frags, pushLen) && Holds(bus, mapped, mapLinearData, old(bus.live))
      ensures !ok ==> (bus.live == old(bus.live) <==> Short(mapped))
      ensures bus.failures >= old(bus.failures) && (ok <==> bus.failures == old(bus.failures))
    {
      hide Recorded, Ranges, Pieces, Short;
      ghost var head: seq<seq<Byte>> := if |linear| > pushLen then [linear[pushLen..]] else [];
      mapped := [];
      NothingHeld(bus, true);
      NothingHeld(bus, false);
      ok := true;
      if |linear| > pushLen {
        ok := MapPiece(bus, linear[pushLen..], true, mapped, true, old(bus.live));
        if ok {
          assert mapped + [linear[pushLen..]] == head;
          mapped := head;
          mapLinearData := true;
        }
      } else {
        mapLinearData := false;
      }
      if ok {
        ok, mapped := MapFrags(bus, frags, delta, mapped, mapLinearData, old(bus.live));
      }
      if !ok {
        Undo(bus, mapped, old(bus.live));
      }
    }

    lemma NothingHeld(bus: Bus, single: bool)
      requires numOfBufs == 0
      ensures Holds(bus, [], single, bus.live)
    {
    }

    /**
      The whole mapping of a packet: linearize it if it has too many fragments,
      then map it. A mapped packet never has more buffers than the device takes.
     */
    method MapPacket(bus: Bus, skb: Skb, llq: bool, txMaxHeaderSize: nat, sglSize: nat)
        returns (ok: bool, pushHdr: Option<seq<Byte>>, headerLen: nat, ghost pieces: seq<seq<Byte>>)
      requires 1 <= sglSize <= bufs.Length
      modifies bus, this, bufs, skb
      ensures skb.Packet() == old(skb.Packet())
      ensures ok ==> attached && numOfBufs <= sglSize && Holds(bus, pieces, mapLinearData, old(bus.live))
      ensures ok && llq ==>
                && pushHdr.Some? && |pushHdr.value| == headerLen <= txMaxHeaderSize
                && pushHdr.value + Concat(pieces) == skb.Packet()
      ensures ok && !llq ==> pushHdr.None? && Concat(pieces) == skb.Packet()
      ensures ok && !llq ==>
                headerLen == if |skb.linear| < txMaxHeaderSize then |skb.linear| else txMaxHeaderSize
      ensures !ok ==> (bus.live == old(bus.live) <==> Short(pieces))
      ensures !ok ==>
                || bus.failures > old(bus.failures)
                || old(TooManyTxFrags(|skb.frags|, sglSize, |skb.linear|, txMaxHeaderSize, llq))
    {
      hide Recorded, Ranges, Concat, TooManyTxFrags;
      pieces := [];
      if TooManyTxFrags(|skb.frags|, sglSize, |skb.linear|, txMaxHeaderSize, llq) {
        ok := skb.Linearize();
        if !ok {
          pushHdr, headerLen := None, 0;
          return;
        }
      } else {
        TooManyBoundsBuffers(skb.linear, skb.frags, sglSize, txMaxHeaderSize, llq);
      }
      numOfBufs := 0;
      ghost var pushLen := PushLen(llq, |skb.Packet()|, txMaxHeaderSize);
      HeaderAndPiecesAreThePacket(skb.linear, skb.frags, pushLen);
      ok, pushHdr, headerLen, pieces := TxMapSkb(bus, skb, llq, txMaxHeaderSize);
    }

    /** Records what is left of a segment behind `offset`. */
    method RecordSegment(ghost mem: seq<Byte>, seg: Buf, offset: nat, ghost pieces: seq<seq<Byte>>)
      requires Valid() && numOfBufs < bufs.Length && offset <= seg.len && seg.paddr + seg.len <= |mem|
      requires numOfBufs == |pieces| && Recorded(mem, bufs[..numOfBufs], pieces)
      modifies this`numOfBufs, bufs
      ensures Valid() && numOfBufs == old(numOfBufs) + 1
      ensures Recorded(mem, bufs[..numOfBufs], pieces + [mem[seg.paddr..seg.paddr + seg.len][offset..]])
    {
      hide LenField;
      ghost var before := bufs[..numOfBufs];
      bufs[numOfBufs] := Buf(seg.paddr + offset, LenField(seg.len - offset));
      numOfBufs := numOfBufs + 1;
      assert bufs[..numOfBufs][..numOfBufs - 1] == before;
    }

    /** Skips the segments that the pushed header covers and records what is left of the one it ends in. */
    method SkipHeader(ghost mem: seq<Byte>, segs: seq<Buf>, offset0: nat)
      returns (iseg: nat, ghost pieces: seq<seq<Byte>>)
      requires numOfBufs == 0 && |segs| <= bufs.Length && Mapped(mem, segs)
      requires offset0 < |Concat(SegmentBytes(mem, segs))|
      modifies this`numOfBufs, bufs
      ensures Valid() && numOfBufs == |pieces| <= iseg <= |segs| && Recorded(mem, bufs[..numOfBufs], pieces)
      ensures pieces + Pieces(SegmentBytes(mem, segs)[iseg..], 0) == Pieces(SegmentBytes(mem, segs), offset0)
    {
      hide Recorded, Concat, Pieces;
      ghost var parts := SegmentBytes(mem, segs);
      NothingRecorded(mem, bufs[..0]);
      assert parts[0..] == parts;
      var offset: nat := offset0;
      iseg, pieces := 0, [];
      while offset > 0
        invariant iseg <= |segs| && Valid() && numOfBufs == |pieces| <= iseg
        invariant Recorded(mem, bufs[..numOfBufs], pieces)
        invariant pieces + Pieces(parts[iseg..], offset) == Pieces(parts, offset0)
        invariant offset > 0 ==> offset < |Concat(parts[iseg..])|
        decreases |segs| - iseg
      {
        PiecesStep(parts, iseg, offset);
        if offset >= segs[iseg].len {
          offset := offset - segs[iseg].len;
        } else {
          RecordSegment(mem, segs[iseg], offset, pieces);
          AppendAssoc(pieces, [parts[iseg][offset..]], Pieces(parts[iseg + 1..], 0));
          pieces := pieces + [parts[iseg][offset..]];
          offset := 0;
        }
        iseg := iseg + 1;
      }
    }

    /** Records the remaining segments as they are. */
    method MapRest(ghost mem: seq<Byte>, segs: seq<Buf>, from: nat, ghost pieces0: seq<seq<Byte>>)
      requires Valid() && numOfBufs == |pieces0| <= from <= |segs| <= bufs.Length && Mapped(mem, segs)
      requires Recorded(mem, bufs[..numOfBufs], pieces0)
      modifies this`numOfBufs, bufs
      ensures Valid() && numOfBufs <= |segs|
      ensures Recorded(mem, bufs[..numOfBufs], pieces0 + Pieces(SegmentBytes(mem, segs)[from..], 0))
    {
      hide Recorded, Pieces;
      ghost var parts, pieces := SegmentBytes(mem, segs), pieces0;
      var iseg := from;
      while iseg < |segs|
        invariant from <= iseg <= |segs| && Valid() && numOfBufs == |pieces| <= iseg
        invariant Recorded(mem, bufs[..numOfBufs], pieces)
        invariant pieces + Pieces(parts[iseg..], 0) == pieces0 + Pieces(parts[from..], 0)
      {
        PiecesStep(parts, iseg, 0);
        assert parts[iseg][0..] == parts[iseg];
        RecordSegment(mem, segs[iseg], 0, pieces);
        AppendAssoc(pieces, [parts[iseg]], Pieces(parts[iseg + 1..], 0));
        pieces := pieces + [parts[iseg]];
        iseg := iseg + 1;
      }
      NoPieces();
      assert parts[iseg..] == [] && pieces + [] == pieces;
    }

    /**
      `ena_tx_map_mbuf`, where `load` is what loading the DMA map gives. The start
      of the packet is pushed, and the segments behind it become the buffers. A load
      without segments is reported as success although nothing is attached.
     */
    method TxMapMbuf(ghost mem: seq<Byte>, packet: seq<Byte>, load: Option<seq<Buf>>, llq: bool, txMaxHeaderSize: nat)
      returns (ok: bool, pushHdr: Option<seq<Byte>>, headerLen: nat)
      requires numOfBufs == 0
      requires load.Some? ==>
                 && |load.value| <= bufs.Length && Mapped(mem, load.value)
                 && (load.value != [] ==> Concat(SegmentBytes(mem, load.value)) == packet)
      modifies this`numOfBufs, this`attached, bufs
      ensures ok <==> load.Some?
      ensures attached <==> load.Some? && load.value != []
      ensures !attached ==> numOfBufs == 0
      ensures attached ==>
                && Valid() && numOfBufs <= |load.value| && headerLen == PushLen(llq, |packet|, txMaxHeaderSize)
                && pushHdr == (if llq then Some(packet[..headerLen]) else None)
                && var rest := Pieces(SegmentBytes(mem, load.value), headerLen);
                Recorded(mem, bufs[..numOfBufs], rest) && packet[..headerLen] + Concat(rest) == packet
    {
      hide Recorded, Concat, Pieces;
      attached := true;
      pushHdr, headerLen := None, 0;
      if load.None? || load.value == [] {
        attached := false;
        return load.Some?, pushHdr, headerLen;
      }
      pushHdr, headerLen := MapSegments(mem, packet, load.value, llq, txMaxHeaderSize);
      ok := true;
    }

    method MapSegments(ghost mem: seq<Byte>, packet: seq<Byte>, segs: seq<Buf>, llq: bool, txMaxHeaderSize: nat)
      returns (pushHdr: Option<seq<Byte>>, headerLen: nat)
      requires numOfBufs == 0 && |segs| <= bufs.Length
      requires Mapped(mem, segs) && Concat(SegmentBytes(mem, segs)) == packet
      modifies this`numOfBufs, bufs
      ensures Valid() && numOfBufs <= |segs| && headerLen == PushLen(llq, |packet|, txMaxHeaderSize)
      ensures pushHdr == if llq then Some(packet[..headerLen]) else None
      ensures Recorded(mem, bufs[..numOfBufs], Pieces(SegmentBytes(mem, segs), headerLen))
      ensures packet[..headerLen] + Concat(Pieces(SegmentBytes(mem, segs), headerLen)) == packet
    {
      hide Recorded, Concat, Pieces;
      ghost var parts, pieces: seq<seq<Byte>> := SegmentBytes(mem, segs), [];
      NothingRecorded(mem, bufs[..numOfBufs]);
      var iseg := 0;
      if llq {
        headerLen := if |packet| < txMaxHeaderSize then |packet| else txMaxHeaderSize;
        pushHdr := Some(packet[..headerLen]);
        if |packet| <= txMaxHeaderSize {
          AllSwallowed(parts);
          PiecesAreTheRest(parts, headerLen);
          return;
        }
        iseg, pieces := SkipHeader(mem, segs, txMaxHeaderSize);
      } else {
        pushHdr, headerLen := None, 0;
        assert parts[0..] == parts && pieces + Pieces(parts, 0) == Pieces(parts, 0);
      }
      PiecesAreTheRest(parts, headerLen);
      MapRest(mem, segs, iseg, pieces);
    }
  }

  lemma NoPieces()
    ensures Pieces([], 0) == []
  {
  }

  lemma PiecesStep(parts: seq<seq<Byte>>, i: nat, delta: nat)
    requires i < |parts| || (i == |parts| && 0 < delta < |Concat(parts[i..])|)
    ensures i < |parts| && |Concat(parts[i..])| == |parts[i]| + |Concat(parts[i + 1..])|
    ensures Pieces(parts[i..], delta)
            == if delta >= |parts[i]| then Pieces(parts[i + 1..], delta - |parts[i]|)
               else [parts[i][delta..]] + Pieces(parts[i + 1..], 0)
  {
    assert i < |parts| ==> parts[i..][1..] == parts[i + 1..];
  }

  /** Non-empty segments of device memory. */
  ghost predicate Mapped(mem: seq<Byte>, segs: seq<Buf>) {
    forall i :: 0 <= i < |segs| ==> segs[i].len > 0 && segs[i].paddr + segs[i].len <= |mem|
  }

  function SegmentBytes(mem: seq<Byte>, segs: seq<Buf>): (parts: seq<seq<Byte>>)
    requires Mapped(mem, segs)
    ensures |parts| == |segs|
  {
    seq(|segs|, i requires 0 <= i < |segs| => mem[segs[i].paddr..segs[i].paddr + segs[i].len])
  }

  lemma NothingRecorded(mem: seq<Byte>, bufs: seq<Buf>)
    requires bufs == []
    ensures Recorded(mem, bufs, [])
  {
  }

  /** A header as long as the packet leaves nothing to map. */
  lemma {:induction false} AllSwallowed(parts: seq<seq<Byte>>)
    ensures Pieces(parts, |Concat(parts)|) == []
  {
    if parts != [] {
      AllSwallowed(parts[1..]);
    }
  }

  /**
    End to end: a device that decodes a mapped packet from the ring and reads its
    buffers has the packet's bytes, all of them in order, if and only if no piece
    was too long for a length field.
   */
  lemma {:induction false} PacketReachesDevice(cfg: SqConfig, ctx: TxCtx, haveMeta: bool, n: nat, junk: seq<seq<Cell>>,
                                               mem: seq<Byte>, pieces: seq<seq<Byte>>)
    requires cfg.Valid() && Sendable(cfg, ctx) && FitsFields(cfg, ctx, haveMeta)
    requires Recorded(mem, ctx.bufs, pieces)
    ensures var lines := Written(cfg, n, PacketChunks(cfg, ctx, haveMeta), PushedHeader(cfg, ctx));
            var d := Decode(cfg, n, lines + junk);
            && d.Decoded?
            && (d.view.pushed + Read(mem, d.view.bufs) == PushedHeader(cfg, ctx) + Concat(pieces) <==> Short(pieces))
  {
    hide Decode, Written, PacketChunks, Recorded, Concat, Short;
    DecodeEncode(cfg, ctx, haveMeta, n, junk);
    WireIsExactIff(cfg, ctx, haveMeta);
    ReadsAllIff(mem, ctx.bufs, pieces);
    var hdr, view := PushedHeader(cfg, ctx), FullView(cfg, ctx, haveMeta);
    NoBufferReadsNothing(mem);
    assert Read(mem, view.bufs) == Read(mem, ctx.bufs);
    SamePrefix(hdr, Read(mem, ctx.bufs), Concat(pieces));
  }

  lemma SamePrefix(p: seq<Byte>, a: seq<Byte>, b: seq<Byte>)
    ensures p + a == p + b <==> a == b
  {
    assert (p + a)[|p|..] == a && (p + b)[|p|..] == b;
  }

  lemma NoBufferReadsNothing(mem: seq<Byte>)
    ensures Read(mem, [Buf(0, 0)]) == [] == Read(mem, [])
  {
    assert [Buf(0, 0)][..0] == [];
  }

  lemma NoRecords()
    ensures Records([], true) == Records([], false) == multiset{}
  {
  }
}
