/**
  The netmap transmit path: a packet is a chain of slots of a circular array. Its
  slots are mapped for DMA one by one and handed to the device; any failure must
  give them all back to the application.
 */
module Netmap {
  import opened Words
  import opened TxWire
  import opened SqAccounting
  import Mapping
  import SubmissionQueue

  /** `struct netmap_slot`; `other` are the flag bits that do not matter here. */
  datatype NmSlot = NmSlot(len: nat, bufIdx: nat, moreFrag: bool, bufChanged: bool, other: nat)

  // ---------------------------------------------------------------- the circular array

  function Next(i: nat, lim: nat): nat {
    if i == lim then 0 else i + 1
  }

  function Prev(i: nat, lim: nat): nat {
    if i == 0 then lim else i - 1
  }

  /** The k-th slot after `from` in a ring of slots 0..lim. */
  function Pos(from: nat, k: nat, lim: nat): (r: nat)
    requires from <= lim && k <= lim + 1
    ensures r <= lim
  {
    if from + k <= lim then from + k else from + k - (lim + 1)
  }

  /** How far slot `j` is behind `from`. */
  function Offset(from: nat, j: nat, lim: nat): (r: nat)
    requires from <= lim && j <= lim
    ensures r <= lim && Pos(from, r, lim) == j
  {
    if j >= from then j - from else j + (lim + 1) - from
  }

  lemma StepForwardAndBack(from: nat, k: nat, lim: nat)
    requires from <= lim && k <= lim
    ensures Next(Pos(from, k, lim), lim) == Pos(from, k + 1, lim)
    ensures Prev(Pos(from, k + 1, lim), lim) == Pos(from, k, lim)
    ensures Offset(from, Pos(from, k, lim), lim) == k
  {
  }

  /** The `n` slots from `from` on. */
  function Chain(ring: seq<NmSlot>, from: nat, n: nat): (c: seq<NmSlot>)
    requires from < |ring| && n <= |ring|
    ensures |c| == n
  {
    seq(n, k requires 0 <= k < n => ring[Pos(from, k, |ring| - 1)])
  }

  /** A packet of `n` slots starts at `from`: all but its last slot announce more. */
  predicate IsPacket(ring: seq<NmSlot>, from: nat, n: nat) {
    && from < |ring| && 1 <= n <= |ring|
    && !Chain(ring, from, n)[n - 1].moreFrag
    && forall k :: 0 <= k < n - 1 ==> Chain(ring, from, n)[k].moreFrag
  }

  // ---------------------------------------------------------------- what is mapped

  function Total(slots: seq<NmSlot>): nat {
    if slots == [] then 0 else slots[0].len + Total(slots[1..])
  }

  /** The slots that the mapping loop takes to bring `remaining` down to zero; None if the chain ends before. */
  function LoopSlots(slots: seq<NmSlot>, remaining: nat): (r: Option<nat>)
    ensures r.Some? ==> r.value <= |slots|
  {
    if remaining == 0 then Some(0)
    else if slots == [] then None
    else
      match LoopSlots(slots[1..], (remaining - slots[0].len) % U32)
      case None => None
      case Some(k) => Some(k + 1)
  }

  lemma {:induction false} TotalSplits(slots: seq<NmSlot>, k: nat)
    requires k <= |slots|
    ensures Total(slots[..k]) + Total(slots[k..]) == Total(slots)
  {
    if k == 0 {
      assert slots[..0] == [] && slots[0..] == slots;
    } else {
      TotalSplits(slots[1..], k - 1);
      assert slots[..k][1..] == slots[1..][..k - 1] && slots[k..] == slots[1..][k - 1..];
    }
  }

  /** Where the loop ends, the slots taken sum up to the packet length it started with. */
  lemma {:induction false} LoopTakes(slots: seq<NmSlot>, remaining: nat)
    requires remaining < U32 && Total(slots) < U32 && LoopSlots(slots, remaining).Some?
    ensures var k := LoopSlots(slots, remaining).value; Total(slots[..k]) == remaining
  {
    if remaining > 0 {
      var rest, r := slots[1..], (remaining - slots[0].len) % U32;
      LoopTakes(rest, r);
      var k := LoopSlots(rest, r).value;
      TotalSplits(rest, k);
      assert slots[..k + 1][1..] == rest[..k];
    }
  }

  lemma {:induction false} LoopTakesAll(slots: seq<NmSlot>)
    requires Total(slots) < U32
    ensures LoopSlots(slots, Total(slots)).Some?
  {
    if slots != [] && Total(slots) > 0 {
      LoopTakesAll(slots[1..]);
    }
  }

  /**
    The packet length is a 16-bit number, and the loop counts it down modulo 2^32:
    it takes all bytes of a chain if and only if they are fewer than 65536. The
    bytes of a longer chain are sent in part, or the loop leaves the chain.
   */
  lemma {:induction false} WholeChainIff(chain: seq<NmSlot>)
    requires Total(chain) < U32
    ensures var taken := LoopSlots(chain, Total(chain) % U16);
            taken.Some? && Total(chain[..taken.value]) == Total(chain) <==> Total(chain) < U16
  {
    if Total(chain) < U16 {
      LoopTakesAll(chain);
    }
    if LoopSlots(chain, Total(chain) % U16).Some? {
      LoopTakes(chain, Total(chain) % U16);
    }
  }

  function Lengths(bufs: seq<Buf>): nat {
    if bufs == [] then 0 else bufs[0].len + Lengths(bufs[1..])
  }

  function SlotBuf(pa: nat -> nat, s: NmSlot, offset: nat): Buf
    requires offset <= s.len
  {
    Buf(pa(s.bufIdx) + offset, s.len - offset)
  }

  /** The buffers for slots whose first `delta` bytes are in the pushed header; nothing after the last byte. */
  function Rest(pa: nat -> nat, slots: seq<NmSlot>, delta: nat): (bufs: seq<Buf>)
    ensures |bufs| <= |slots|
  {
    if slots == [] || (delta == 0 && Total(slots) == 0) then []
    else if delta > 0 && delta >= slots[0].len then Rest(pa, slots[1..], delta - slots[0].len)
    else [SlotBuf(pa, slots[0], delta)] + Rest(pa, slots[1..], 0)
  }

  /** How many of the slots are used up. */
  function RestUsed(slots: seq<NmSlot>, delta: nat): (n: nat)
    ensures n <= |slots|
  {
    if slots == [] || (delta == 0 && Total(slots) == 0) then 0
    else if delta > 0 && delta >= slots[0].len then 1 + RestUsed(slots[1..], delta - slots[0].len)
    else 1 + RestUsed(slots[1..], 0)
  }

  /** What the header takes from the slots behind the first. */
  function Delta(chain: seq<NmSlot>, push: nat): nat
    requires chain != []
  {
    if push > chain[0].len then push - chain[0].len else 0
  }

  function FrameBufs(pa: nat -> nat, chain: seq<NmSlot>, llq: bool, push: nat): (bufs: seq<Buf>)
    requires chain != []
    ensures |bufs| <= |chain|
  {
    if !llq then Rest(pa, chain, 0)
    else (if chain[0].len > push then [SlotBuf(pa, chain[0], push)] else []) + Rest(pa, chain[1..], Delta(chain, push))
  }

  function FrameUsed(chain: seq<NmSlot>, llq: bool, push: nat): (n: nat)
    requires chain != []
    ensures n <= |chain|
  {
    if llq then 1 + RestUsed(chain[1..], Delta(chain, push)) else RestUsed(chain, 0)
  }

  lemma {:induction false} LengthsFirst(b: Buf, bufs: seq<Buf>)
    ensures Lengths([b] + bufs) == b.len + Lengths(bufs)
  {
    assert ([b] + bufs)[1..] == bufs;
  }

  lemma {:induction false} EachWithinSum(bufs: seq<Buf>)
    ensures forall i :: 0 <= i < |bufs| ==> bufs[i].len <= Lengths(bufs)
  {
    if bufs != [] {
      EachWithinSum(bufs[1..]);
      forall i | 0 <= i < |bufs| ensures bufs[i].len <= Lengths(bufs) {
        if i > 0 {
          assert bufs[i] == bufs[1..][i - 1];
        }
      }
    }
  }

  lemma {:induction false} RestLengths(pa: nat -> nat, slots: seq<NmSlot>, delta: nat)
    requires delta <= Total(slots)
    ensures Lengths(Rest(pa, slots, delta)) == Total(slots) - delta
  {
    if !(slots == [] || (delta == 0 && Total(slots) == 0)) {
      if delta > 0 && delta >= slots[0].len {
        RestLengths(pa, slots[1..], delta - slots[0].len);
      } else {
        RestLengths(pa, slots[1..], 0);
        LengthsFirst(SlotBuf(pa, slots[0], delta), Rest(pa, slots[1..], 0));
      }
    }
  }

  lemma {:induction false} LastHasBytes(slots: seq<NmSlot>)
    ensures slots != [] && slots[|slots| - 1].len > 0 ==> Total(slots) > 0
  {
    if slots != [] {
      LastHasBytes(slots[1..]);
    }
  }

  lemma {:induction false} RestUsesAllIff(slots: seq<NmSlot>, delta: nat)
    requires delta <= Total(slots)
    ensures RestUsed(slots, delta) == |slots| <==> slots == [] || slots[|slots| - 1].len > 0
  {
    LastHasBytes(slots);
    if !(slots == [] || (delta == 0 && Total(slots) == 0)) {
      RestUsesAllIff(slots[1..], if delta > 0 && delta >= slots[0].len then delta - slots[0].len else 0);
    }
  }

  /** The pushed header and the buffers have the length of the packet. */
  lemma {:induction false} FrameLengths(pa: nat -> nat, chain: seq<NmSlot>, llq: bool, txMaxHeaderSize: nat)
    requires chain != []
    ensures var push := Mapping.PushLen(llq, Total(chain), txMaxHeaderSize);
            push + Lengths(FrameBufs(pa, chain, llq, push)) == Total(chain)
  {
    var push := Mapping.PushLen(llq, Total(chain), txMaxHeaderSize);
    if llq {
      RestLengths(pa, chain[1..], Delta(chain, push));
      if chain[0].len > push {
        LengthsFirst(SlotBuf(pa, chain[0], push), Rest(pa, chain[1..], 0));
      } else {
        assert FrameBufs(pa, chain, llq, push) == Rest(pa, chain[1..], Delta(chain, push));
      }
    } else {
      RestLengths(pa, chain, 0);
    }
  }

  /**
    Exactly the packet's slots are used up if and only if its last slot is not
    empty, or it is the only one and the queue is a low-latency queue. Otherwise
    the empty slots at its end are left for the next packet.
   */
  lemma {:induction false} UsesTheChainIff(chain: seq<NmSlot>, llq: bool, txMaxHeaderSize: nat)
    requires chain != []
    ensures FrameUsed(chain, llq, Mapping.PushLen(llq, Total(chain), txMaxHeaderSize)) == |chain|
            <==> chain[|chain| - 1].len > 0 || (llq && |chain| == 1)
  {
    var push := Mapping.PushLen(llq, Total(chain), txMaxHeaderSize);
    if llq {
      RestUsesAllIff(chain[1..], Delta(chain, push));
    } else {
      RestUsesAllIff(chain, 0);
    }
  }

  // ---------------------------------------------------------------- the bytes

  /** What the buffer of a slot holds. */
  function Content(mem: seq<Byte>, pa: nat -> nat, s: NmSlot): seq<Byte> {
    if pa(s.bufIdx) + s.len <= |mem| then mem[pa(s.bufIdx)..pa(s.bufIdx) + s.len] else []
  }

  function PacketBytes(mem: seq<Byte>, pa: nat -> nat, slots: seq<NmSlot>): seq<Byte> {
    if slots == [] then [] else Content(mem, pa, slots[0]) + PacketBytes(mem, pa, slots[1..])
  }

  predicate InMemory(mem: seq<Byte>, pa: nat -> nat, slots: seq<NmSlot>) {
    forall i :: 0 <= i < |slots| ==> pa(slots[i].bufIdx) + slots[i].len <= |mem|
  }

  lemma SlotBufContent(mem: seq<Byte>, pa: nat -> nat, s: NmSlot, offset: nat)
    requires offset <= s.len && pa(s.bufIdx) + s.len <= |mem|
    ensures |Content(mem, pa, s)| == s.len
    ensures Mapping.ReadBuf(mem, SlotBuf(pa, s, offset)) == Content(mem, pa, s)[offset..]
  {
  }

  lemma {:induction false} ReadFirst(mem: seq<Byte>, b: Buf, bufs: seq<Buf>)
    ensures Mapping.Read(mem, [b] + bufs) == Mapping.ReadBuf(mem, b) + Mapping.Read(mem, bufs)
  {
    hide Mapping.ReadBuf;
    if bufs == [] {
      assert [b] + bufs == [b] && [b][..0] == [];
    } else {
      var n := |bufs| - 1;
      ReadFirst(mem, b, bufs[..n]);
      assert ([b] + bufs)[..|bufs|] == [b] + bufs[..n];
      AppendAssoc(Mapping.ReadBuf(mem, b), Mapping.Read(mem, bufs[..n]), Mapping.ReadBuf(mem, bufs[n]));
    }
  }

  lemma {:induction false} RestBytes(mem: seq<Byte>, pa: nat -> nat, slots: seq<NmSlot>, delta: nat)
    requires InMemory(mem, pa, slots)
    ensures |PacketBytes(mem, pa, slots)| == Total(slots)
    ensures delta <= Total(slots) ==>
              Mapping.Read(mem, Rest(pa, slots, delta)) == PacketBytes(mem, pa, slots)[delta..]
  {
    hide Content, SlotBuf, Mapping.Read, Mapping.ReadBuf;
    NothingRead(mem);
    if slots != [] {
      var first, rest := Content(mem, pa, slots[0]), PacketBytes(mem, pa, slots[1..]);
      SlotBufContent(mem, pa, slots[0], 0);
      if delta > 0 && delta >= slots[0].len {
        RestBytes(mem, pa, slots[1..], delta - slots[0].len);
        if delta <= Total(slots) {
          DropBeyond(first, rest, delta);
        }
      } else {
        RestBytes(mem, pa, slots[1..], 0);
        SlotBufContent(mem, pa, slots[0], delta);
        ReadFirst(mem, SlotBuf(pa, slots[0], delta), Rest(pa, slots[1..], 0));
        DropWithin(first, rest, delta);
      }
    }
  }

  lemma DropBeyond(a: seq<Byte>, b: seq<Byte>, d: nat)
    requires |a| <= d <= |a| + |b|
    ensures (a + b)[d..] == b[d - |a|..]
  {
  }

  lemma DropWithin(a: seq<Byte>, b: seq<Byte>, d: nat)
    requires d <= |a|
    ensures (a + b)[d..] == a[d..] + b && b[0..] == b
  {
  }

  lemma NothingRead(mem: seq<Byte>)
    ensures Mapping.Read(mem, []) == []
  {
  }

  /** The buffers hold exactly the bytes of the packet behind the pushed header, in order. */
  lemma {:induction false} FrameBytes(mem: seq<Byte>, pa: nat -> nat, chain: seq<NmSlot>, llq: bool,
                                      txMaxHeaderSize: nat)
    requires chain != [] && InMemory(mem, pa, chain)
    ensures |PacketBytes(mem, pa, chain)| == Total(chain)
    ensures var push := Mapping.PushLen(llq, Total(chain), txMaxHeaderSize);
            Mapping.Read(mem, FrameBufs(pa, chain, llq, push)) == PacketBytes(mem, pa, chain)[push..]
  {
    hide Content, SlotBuf, Mapping.Read, Mapping.ReadBuf, Rest;
    var push := Mapping.PushLen(llq, Total(chain), txMaxHeaderSize);
    RestBytes(mem, pa, chain, push);
    if llq {
      var first, rest := Content(mem, pa, chain[0]), PacketBytes(mem, pa, chain[1..]);
      SlotBufContent(mem, pa, chain[0], 0);
      RestBytes(mem, pa, chain[1..], Delta(chain, push));
      if chain[0].len > push {
        SlotBufContent(mem, pa, chain[0], push);
        ReadFirst(mem, SlotBuf(pa, chain[0], push), Rest(pa, chain[1..], 0));
        DropWithin(first, rest, push);
      } else {
        DropBeyond(first, rest, push);
        assert FrameBufs(pa, chain, llq, push) == Rest(pa, chain[1..], Delta(chain, push));
      }
    }
  }

  // ---------------------------------------------------------------- ring states

  /** The ring when the first `used` slots of a packet are consumed: their buffers are taken out. */
  function Consumed(ring: seq<NmSlot>, from: nat, used: nat): (r: seq<NmSlot>)
    requires from < |ring|
    ensures |r| == |ring|
  {
    seq(|ring|, j requires 0 <= j < |ring| =>
      if Offset(from, j, |ring| - 1) < used then ring[j].(bufIdx := 0) else ring[j])
  }

  /** The ring after that is undone: the buffers are back, but of the flags only "buffer changed" is set. */
  function GivenBack(ring: seq<NmSlot>, from: nat, used: nat): (r: seq<NmSlot>)
    requires from < |ring|
    ensures |r| == |ring|
  {
    seq(|ring|, j requires 0 <= j < |ring| =>
      if Offset(from, j, |ring| - 1) < used then NmSlot(ring[j].len, ring[j].bufIdx, false, true, 0) else ring[j])
  }

  /** Giving back restores every buffer and length. */
  lemma GivenBackRestoresBuffers(ring: seq<NmSlot>, from: nat, used: nat)
    requires from < |ring|
    ensures forall j :: 0 <= j < |ring| ==>
              && GivenBack(ring, from, used)[j].bufIdx == ring[j].bufIdx
              && GivenBack(ring, from, used)[j].len == ring[j].len
  {
  }

  /**
    Giving back a packet keeps it a packet of `n` slots if and only if it has one
    slot or nothing was consumed: the mark for "more slots" is cleared as well.
   */
  lemma {:induction false} GivenBackKeepsPacketIff(ring: seq<NmSlot>, from: nat, n: nat, used: nat)
    requires IsPacket(ring, from, n) && used <= n
    ensures IsPacket(GivenBack(ring, from, used), from, n) <==> n == 1 || used == 0
  {
    var after := GivenBack(ring, from, used);
    forall k | 0 <= k < n ensures Chain(after, from, n)[k].moreFrag == (Chain(ring, from, n)[k].moreFrag && used <= k) {
      StepForwardAndBack(from, k, |ring| - 1);
    }
    if used > 0 && n > 1 {
      assert !Chain(after, from, n)[0].moreFrag;
    }
  }

  lemma ConsumeOneMore(ring: seq<NmSlot>, from: nat, used: nat)
    requires from < |ring| && used < |ring|
    ensures var p := Pos(from, used, |ring| - 1);
            && Consumed(ring, from, used)[p] == ring[p]
            && Consumed(ring, from, used)[p := ring[p].(bufIdx := 0)] == Consumed(ring, from, used + 1)
  {
  }

  lemma NothingConsumed(ring: seq<NmSlot>, from: nat)
    requires from < |ring|
    ensures Consumed(ring, from, 0) == ring == GivenBack(ring, from, 0)
  {
  }

  /** The ring with the slots from `left` to `used` of a consumed packet given back. */
  function PartlyBack(ring: seq<NmSlot>, from: nat, left: nat, used: nat): (r: seq<NmSlot>)
    requires from < |ring|
    ensures |r| == |ring|
  {
    seq(|ring|, j requires 0 <= j < |ring| =>
      if Offset(from, j, |ring| - 1) < left then ring[j].(bufIdx := 0) else GivenBack(ring, from, used)[j])
  }

  lemma GiveOneBack(ring: seq<NmSlot>, from: nat, left: nat, used: nat)
    requires from < |ring| && left < used <= |ring|
    ensures var p := Pos(from, left, |ring| - 1);
            PartlyBack(ring, from, left + 1, used)[p := NmSlot(ring[p].len, ring[p].bufIdx, false, true, 0)]
            == PartlyBack(ring, from, left, used)
  {
  }

  lemma AllOrNothingBack(ring: seq<NmSlot>, from: nat, used: nat)
    requires from < |ring|
    ensures PartlyBack(ring, from, used, used) == Consumed(ring, from, used)
    ensures PartlyBack(ring, from, 0, used) == GivenBack(ring, from, used)
  {
  }

  // ---------------------------------------------------------------- sending

  /** The sending side: the slots and index of the ring, and the buffer record of the packet being sent. */
  class Sender {
    /** The physical address of each netmap buffer. */
    const pa: nat -> nat
    const slots: array<NmSlot>
    const maxTxSglSize: nat
    const txMaxHeaderSize: nat
    const llq: bool

    const bufs: array<Buf>
    /** The DMA maps that are loaded. */
    const mapSeg: array<bool>
    const socketBufIdx: array<nat>

    var nmI: nat
    var numOfBufs: nat
    var socketsUsed: nat
    /** Slots that could not be mapped, and headers that could not be reached. */
    var failures: nat

    ghost predicate Valid()
      reads this`nmI
    {
      && 0 < slots.Length < U16 && nmI < slots.Length
      && bufs.Length == mapSeg.Length == socketBufIdx.Length && maxTxSglSize <= bufs.Length
      && txMaxHeaderSize < 256
    }

    function Lim(): (r: nat)
      requires Valid()
      reads this`nmI
      ensures r == slots.Length - 1
    {
      slots.Length - 1
    }

    /** `used` slots of a packet at `from` of the ring are consumed, and their buffers remembered. */
    ghost predicate Advanced(ring: seq<NmSlot>, from: nat, used: nat)
      reads this`nmI, this`socketsUsed, slots, socketBufIdx
    {
      && Valid() && |ring| == slots.Length && from < |ring|
      && used <= socketBufIdx.Length && used <= |ring|
      && slots[..] == Consumed(ring, from, used)
      && nmI == Pos(from, used, |ring| - 1)
      && socketsUsed == used
      && (forall k :: 0 <= k < used ==> socketBufIdx[k] == ring[Pos(from, k, |ring| - 1)].bufIdx)
    }

    /** The same, and `done` are the packet's buffers so far, each with its map. */
    ghost predicate Progress(ring: seq<NmSlot>, from: nat, used: nat, done: seq<Buf>)
      reads this`nmI, this`numOfBufs, this`socketsUsed, slots, bufs, mapSeg, socketBufIdx
    {
      && Advanced(ring, from, used)
      && |done| <= bufs.Length && numOfBufs == |done| && bufs[..numOfBufs] == done
      && (forall k :: 0 <= k < mapSeg.Length ==> mapSeg[k] == (k < numOfBufs))
    }

    /** Nothing of a packet is mapped or consumed. */
    ghost predicate Resting()
      reads this`numOfBufs, this`socketsUsed, mapSeg
    {
      numOfBufs == 0 && socketsUsed == 0 && forall k :: 0 <= k < mapSeg.Length ==> !mapSeg[k]
    }

    lemma RestingIsProgress()
      requires Valid() && Resting()
      ensures Progress(slots[..], nmI, 0, [])
    {
      NothingConsumed(slots[..], nmI);
    }

    /** Maps the current slot, which may fail, and makes its bytes from `offset` on the next buffer. */
    method MapSlot(offset: nat, ghost ring: seq<NmSlot>, ghost from: nat, ghost used: nat, ghost done: seq<Buf>)
        returns (ok: bool)
      requires Progress(ring, from, used, done) && used < |ring| && |done| < bufs.Length
      requires offset <= ring[Pos(from, used, |ring| - 1)].len
      modifies this`numOfBufs, this`failures, bufs, mapSeg
      ensures failures == old(failures) + if ok then 0 else 1
      ensures Progress(ring, from, used,
                       if ok then done + [SlotBuf(pa, ring[Pos(from, used, |ring| - 1)], offset)] else done)
    {
      hide Consumed;
      ConsumeOneMore(ring, from, used);
      var slot := slots[nmI];
      assert slot == slots[..][nmI] == ring[nmI];
      if * {
        failures := failures + 1;
        return false;
      }
      mapSeg[numOfBufs] := true;
      bufs[numOfBufs] := Buf(pa(slot.bufIdx) + offset, slot.len - offset);
      numOfBufs := numOfBufs + 1;
      assert bufs[..numOfBufs][..numOfBufs - 1] == done;
      ok := true;
    }

    /** Takes the buffer out of the current slot and moves on to the next. */
    method ConsumeSlot(ghost ring: seq<NmSlot>, ghost from: nat, ghost used: nat, ghost done: seq<Buf>)
      requires Progress(ring, from, used, done) && used < |ring| && used < socketBufIdx.Length
      modifies this`nmI, this`socketsUsed, slots, socketBufIdx
      ensures Progress(ring, from, used + 1, done)
    {
      hide Consumed;
      ConsumeOneMore(ring, from, used);
      StepForwardAndBack(from, used, |ring| - 1);
      assert slots[nmI] == slots[..][nmI];
      ghost var before := slots[..];
      socketBufIdx[socketsUsed] := slots[nmI].bufIdx;
      slots[nmI] := slots[nmI].(bufIdx := 0);
      assert slots[..] == before[nmI := before[nmI].(bufIdx := 0)];
      nmI := Next(nmI, Lim());
      socketsUsed := socketsUsed + 1;
    }

    /** `ena_netmap_unmap_last_socket_chain`: unloads the maps and gives the consumed slots back, last first. */
    method UnmapLastSocketChain(ghost ring: seq<NmSlot>, ghost from: nat, ghost used: nat, ghost done: seq<Buf>)
      requires Progress(ring, from, used, done)
      modifies this`nmI, this`numOfBufs, this`socketsUsed, slots, mapSeg, socketBufIdx
      ensures Valid() && Resting() && nmI == from && slots[..] == GivenBack(ring, from, used)
    {
      hide Consumed, GivenBack, PartlyBack;
      var n := numOfBufs;
      while n > 0
        invariant 0 <= n <= numOfBufs && Advanced(ring, from, used)
        invariant forall k :: 0 <= k < mapSeg.Length ==> mapSeg[k] == (k < n)
      {
        n := n - 1;
        mapSeg[n] := false;
      }
      numOfBufs := 0;
      AllOrNothingBack(ring, from, used);
      n := socketsUsed;
      while n > 0
        invariant 0 <= n <= socketsUsed == used <= |ring| && Valid()
        invariant |ring| == slots.Length && used <= socketBufIdx.Length
        invariant nmI == Pos(from, n, |ring| - 1) && slots[..] == PartlyBack(ring, from, n, used)
        invariant forall k :: 0 <= k < n ==> socketBufIdx[k] == ring[Pos(from, k, |ring| - 1)].bufIdx
        invariant numOfBufs == 0 && forall k :: 0 <= k < mapSeg.Length ==> !mapSeg[k]
      {
        n := n - 1;
        StepForwardAndBack(from, n, |ring| - 1);
        GiveOneBack(ring, from, n, used);
        SameLength(ring, from, n + 1, used);
        nmI := Prev(nmI, Lim());
        ghost var before := slots[..];
        assert slots[nmI].len == before[nmI].len;
        slots[nmI] := NmSlot(slots[nmI].len, socketBufIdx[n], false, true, 0);
        assert slots[..] == before[nmI := NmSlot(ring[nmI].len, ring[nmI].bufIdx, false, true, 0)];
        socketBufIdx[n] := 0;
      }
      socketsUsed := 0;
    }

    lemma SameLength(ring: seq<NmSlot>, from: nat, left: nat, used: nat)
      requires from < |ring|
      ensures forall j :: 0 <= j < |ring| ==> PartlyBack(ring, from, left, used)[j].len == ring[j].len
    {
    }

    /** `ena_netmap_count_slots` */
    method CountSlots(ghost n: nat) returns (count: nat)
      requires Valid() && IsPacket(slots[..], nmI, n)
      ensures count == n
    {
      ghost var ring := slots[..];
      count := 1;
      var nm := nmI;
      while slots[nm].moreFrag
        invariant 1 <= count <= n && nm == Pos(nmI, count - 1, |ring| - 1)
        decreases n - count
      {
        assert slots[nm] == Chain(ring, nmI, n)[count - 1];
        StepForwardAndBack(nmI, count - 1, |ring| - 1);
        count := count + 1;
        nm := Next(nm, Lim());
      }
      assert slots[nm] == Chain(ring, nmI, n)[count - 1];
    }

    /** `ena_netmap_packet_len`: the sum of the slot lengths, as a 16-bit number. */
    method PacketLen(ghost n: nat) returns (packetSize: nat)
      requires Valid() && IsPacket(slots[..], nmI, n)
      ensures packetSize == Total(Chain(slots[..], nmI, n)) % U16
    {
      ghost var chain := Chain(slots[..], nmI, n);
      ghost var k: nat, sum := 0, 0;
      packetSize := 0;
      var index, more := nmI, true;
      assert chain[..0] == [];
      while more
        invariant k <= n && index == Pos(nmI, k, slots.Length - 1) && (more <==> k < n)
        invariant sum == Total(chain[..k]) && packetSize == sum % U16
        decreases n - k
      {
        assert slots[index] == slots[..][index] == chain[k];
        AddWraps(sum, slots[index].len);
        TotalLast(chain[..k], chain[k]);
        assert chain[..k + 1] == chain[..k] + [chain[k]];
        StepForwardAndBack(nmI, k, slots.Length - 1);
        packetSize := (packetSize + slots[index].len) % U16;
        sum := sum + slots[index].len;
        more := slots[index].moreFrag;
        index := Next(index, Lim());
        k := k + 1;
      }
      assert chain[..n] == chain;
    }

    /** The chain whose slots are consumed one by one, `used` of them so far. */
    ghost predicate Sending(ring: seq<NmSlot>, from: nat, chain: seq<NmSlot>, used: nat, done: seq<Buf>)
      reads this`nmI, this`numOfBufs, this`socketsUsed, slots, bufs, mapSeg, socketBufIdx
    {
      && Progress(ring, from, used, done)
      && |done| <= used <= |chain| <= maxTxSglSize
      && |chain| <= |ring| && chain == Chain(ring, from, |chain|)
    }

    /** Skips slots that the header covers and maps what is left of the one it ends in. */
    method SkipHeader(delta0: nat, remaining0: nat,
                      ghost ring: seq<NmSlot>, ghost from: nat, ghost chain: seq<NmSlot>, ghost used: nat,
                      ghost done: seq<Buf>)
        returns (ok: bool, remaining: nat, ghost used': nat, ghost done': seq<Buf>)
      requires Sending(ring, from, chain, used, done)
      requires delta0 <= remaining0 == Total(chain[used..])
      modifies this`nmI, this`socketsUsed, this`numOfBufs, this`failures, slots, socketBufIdx, bufs, mapSeg
      ensures failures >= old(failures) && (ok <==> failures == old(failures))
      ensures Sending(ring, from, chain, used', done')
      ensures ok ==>
                && remaining == Total(chain[used'..])
                && done' + Rest(pa, chain[used'..], 0) == done + Rest(pa, chain[used..], delta0)
                && used' + RestUsed(chain[used'..], 0) == used + RestUsed(chain[used..], delta0)
    {
      hide Sending, Rest, RestUsed, SlotBuf;
      SendingFacts(ring, from, chain, used, done);
      var delta: nat := delta0;
      ok, remaining, used', done' := true, remaining0, used, done;
      while delta > 0
        invariant used' <= |chain| && Sending(ring, from, chain, used', done')
        invariant delta <= remaining == Total(chain[used'..]) && ok && failures == old(failures)
        invariant done' + Rest(pa, chain[used'..], delta) == done + Rest(pa, chain[used..], delta0)
        invariant used' + RestUsed(chain[used'..], delta) == used + RestUsed(chain[used..], delta0)
        decreases |chain| - used'
      {
        RestStep(chain, used', delta);
        ghost var before, mapped := done', TakenBuf(chain[used'], delta);
        var fragLen;
        ok, fragLen, delta, done' := TakeSlot(delta, ring, from, chain, used', done');
        if !ok {
          return;
        }
        AppendAssoc(before, mapped, Rest(pa, chain[used' + 1..], delta));
        remaining := remaining - fragLen;
        used' := used' + 1;
      }
    }

    lemma SendingFacts(ring: seq<NmSlot>, from: nat, chain: seq<NmSlot>, used: nat, done: seq<Buf>)
      requires Sending(ring, from, chain, used, done)
      ensures used <= |chain|
    {
    }

    predicate Skips(s: NmSlot, delta: nat) {
      delta > 0 && delta >= s.len
    }

    /** What is mapped of a slot of which `delta` bytes are covered. */
    ghost function TakenBuf(s: NmSlot, delta: nat): seq<Buf> {
      if Skips(s, delta) then [] else [SlotBuf(pa, s, delta)]
    }

    /** The slot at the index: skipped if the header covers it, otherwise mapped from `delta` on; then consumed. */
    method TakeSlot(delta: nat, ghost ring: seq<NmSlot>, ghost from: nat, ghost chain: seq<NmSlot>, ghost used: nat,
                    ghost done: seq<Buf>)
        returns (ok: bool, len: nat, delta': nat, ghost done': seq<Buf>)
      requires Sending(ring, from, chain, used, done) && used < |chain|
      modifies this`nmI, this`socketsUsed, this`numOfBufs, this`failures, slots, socketBufIdx, bufs, mapSeg
      ensures failures >= old(failures) && (ok <==> failures == old(failures)) && len == chain[used].len
      ensures Sending(ring, from, chain, if ok then used + 1 else used, done')
      ensures ok ==>
                && done' == done + TakenBuf(chain[used], delta)
                && delta' == if Skips(chain[used], delta) then delta - len else 0
    {
      hide Consumed, Progress, SlotBuf;
      ok, done', delta' := true, done, 0;
      len := CurrentLen(ring, from, chain, used, done);
      if delta > 0 && delta >= len {
        delta' := delta - len;
      } else {
        ok := MapSlot(delta, ring, from, used, done);
        if !ok {
          return;
        }
        done' := done + [SlotBuf(pa, chain[used], delta)];
      }
      ConsumeSlot(ring, from, used, done');
    }

    /** The length of the slot at the index. */
    method CurrentLen(ghost ring: seq<NmSlot>, ghost from: nat, ghost chain: seq<NmSlot>, ghost used: nat,
                      ghost done: seq<Buf>)
        returns (len: nat)
      requires Sending(ring, from, chain, used, done) && used < |chain|
      ensures len == chain[used].len && chain[used] == ring[Pos(from, used, |ring| - 1)]
      ensures |done| < bufs.Length && used < socketBufIdx.Length && used < |ring|
    {
      ConsumeOneMore(ring, from, used);
      assert slots[nmI] == slots[..][nmI];
      len := slots[nmI].len;
    }

    lemma RestStep(chain: seq<NmSlot>, used: nat, delta: nat)
      requires used <= |chain| && delta <= Total(chain[used..]) && Total(chain[used..]) > 0
      ensures used < |chain| && Total(chain[used..]) == chain[used].len + Total(chain[used + 1..])
      ensures var skip := delta > 0 && delta >= chain[used].len;
              && Rest(pa, chain[used..], delta)
                 == (if skip then [] else [SlotBuf(pa, chain[used], delta)])
                    + Rest(pa, chain[used + 1..], if skip then delta - chain[used].len else 0)
              && RestUsed(chain[used..], delta)
                 == 1 + RestUsed(chain[used + 1..], if skip then delta - chain[used].len else 0)
    {
      hide SlotBuf;
      assert used < |chain| ==> chain[used..][1..] == chain[used + 1..];
    }

    /** Maps slot after slot while bytes of the packet remain. */
    method MapRemaining(remaining0: nat,
                        ghost ring: seq<NmSlot>, ghost from: nat, ghost chain: seq<NmSlot>, ghost used: nat,
                      ghost done: seq<Buf>)
        returns (ok: bool, ghost used': nat, ghost done': seq<Buf>)
      requires Sending(ring, from, chain, used, done) && remaining0 == Total(chain[used..])
      modifies this`nmI, this`socketsUsed, this`numOfBufs, this`failures, slots, socketBufIdx, bufs, mapSeg
      ensures failures >= old(failures) && (ok <==> failures == old(failures))
      ensures Sending(ring, from, chain, used', done')
      ensures ok ==> done' == done + Rest(pa, chain[used..], 0) && used' == used + RestUsed(chain[used..], 0)
    {
      hide Sending, Rest, RestUsed, SlotBuf;
      SendingFacts(ring, from, chain, used, done);
      var remaining := remaining0;
      ok, used', done' := true, used, done;
      while remaining > 0
        invariant used' <= |chain| && Sending(ring, from, chain, used', done')
        invariant remaining == Total(chain[used'..]) && ok && failures == old(failures)
        invariant done' + Rest(pa, chain[used'..], 0) == done + Rest(pa, chain[used..], 0)
        invariant used' + RestUsed(chain[used'..], 0) == used + RestUsed(chain[used..], 0)
        decreases |chain| - used'
      {
        RestStep(chain, used', 0);
        ghost var before, mapped := done', TakenBuf(chain[used'], 0);
        var fragLen, delta;
        ok, fragLen, delta, done' := TakeSlot(0, ring, from, chain, used', done');
        if !ok {
          return;
        }
        AppendAssoc(before, mapped, Rest(pa, chain[used' + 1..], 0));
        remaining := remaining - fragLen;
        used' := used' + 1;
      }
      NothingLeft(chain[used'..]);
    }

    lemma NothingLeft(slots: seq<NmSlot>)
      requires Total(slots) == 0
      ensures Rest(pa, slots, 0) == [] && RestUsed(slots, 0) == 0
    {
    }

    /** The pushed header: it may not be reachable; the bytes themselves are not part of this model. */
    method HeaderBytes(n: nat) returns (hdr: Option<seq<Byte>>)
      modifies this`failures
      ensures hdr.Some? ==> |hdr.value| == n
      ensures failures == old(failures) + if hdr.Some? then 0 else 1
    {
      if * {
        hdr := Some(seq(n, _ => 0));
      } else {
        hdr := None;
        failures := failures + 1;
      }
    }

    /** The first slot of a packet on a low-latency queue: what is behind the header is mapped. */
    method MapFirst(pushLen: nat, ghost ring: seq<NmSlot>, ghost from: nat, ghost chain: seq<NmSlot>)
        returns (ok: bool, ghost done: seq<Buf>)
      requires Sending(ring, from, chain, 0, []) && chain != []
      modifies this`nmI, this`socketsUsed, this`numOfBufs, this`failures, slots, socketBufIdx, bufs, mapSeg
      ensures failures >= old(failures) && (ok <==> failures == old(failures))
      ensures !ok ==> Progress(ring, from, 0, [])
      ensures ok ==>
                && Sending(ring, from, chain, 1, done)
                && done == if chain[0].len > pushLen then [SlotBuf(pa, chain[0], pushLen)] else []
    {
      hide Consumed, Progress, SlotBuf;
      done := [];
      var headLen := CurrentLen(ring, from, chain, 0, []);
      ok := true;
      if headLen > pushLen {
        ok := MapSlot(pushLen, ring, from, 0, []);
        if !ok {
          return;
        }
        done := [] + [SlotBuf(pa, chain[0], pushLen)];
      }
      ConsumeSlot(ring, from, 0, done);
    }

    /** The low-latency part of mapping: the header is pushed, and the slots it covers are consumed. */
    method MapHeader(packetLen: nat, ghost ring: seq<NmSlot>, ghost from: nat, ghost chain: seq<NmSlot>)
        returns (ok: bool, pushHdr: Option<seq<Byte>>, headerLen: nat, remaining: nat, ghost used: nat,
                 ghost done: seq<Buf>)
      requires Sending(ring, from, chain, 0, []) && chain != [] && packetLen == Total(chain)
      modifies this, slots, socketBufIdx, bufs, mapSeg
      ensures failures >= old(failures) && (ok <==> failures == old(failures))
      ensures headerLen == Mapping.PushLen(true, packetLen, txMaxHeaderSize)
      ensures ok ==>
                && pushHdr.Some? && |pushHdr.value| == headerLen
                && Sending(ring, from, chain, used, done) && remaining == Total(chain[used..])
                && done + Rest(pa, chain[used..], 0) == FrameBufs(pa, chain, true, headerLen)
                && used + RestUsed(chain[used..], 0) == FrameUsed(chain, true, headerLen)
      ensures !ok ==>
                Valid() && Resting() && used <= |chain| && nmI == from && slots[..] == GivenBack(ring, from, used)
    {
      hide Consumed, GivenBack, Progress, Resting, Rest, RestUsed, SlotBuf;
      used, done := 0, [];
      headerLen := if packetLen < txMaxHeaderSize then packetLen else txMaxHeaderSize;
      remaining := packetLen;
      ProgressOfNothing(ring, from);
      pushHdr := HeaderBytes(headerLen);
      if pushHdr.None? {
        return false, pushHdr, headerLen, remaining, 0, [];
      }
      var headLen := CurrentLen(ring, from, chain, 0, []);
      var delta := if headerLen > headLen then headerLen - headLen else 0;
      ok, done := MapFirst(headerLen, ring, from, chain);
      if !ok {
        ProgressOfNothing(ring, from);
        return false, pushHdr, headerLen, remaining, 0, [];
      }
      used := 1;
      ok, remaining, used, done := SkipHeader(delta, remaining - headLen, ring, from, chain, 1, done);
      if !ok {
        UnmapLastSocketChain(ring, from, used, done);
      }
    }

    /**
      `ena_netmap_tx_map_slots`. Success consumes the packet's slots and leaves
      its buffers; a failure at any slot gives back what was consumed, and a
      failure at the first consumes nothing.
     */
    method MapSlots(ghost n: nat) returns (ok: bool, pushHdr: Option<seq<Byte>>, headerLen: nat, ghost used: nat)
      requires Valid() && Resting() && IsPacket(slots[..], nmI, n) && n <= maxTxSglSize
      requires Total(Chain(slots[..], nmI, n)) < U16
      modifies this, slots, socketBufIdx, bufs, mapSeg
      ensures failures >= old(failures) && (ok <==> failures == old(failures))
      ensures var ring, from, chain := old(slots[..]), old(nmI), Chain(old(slots[..]), old(nmI), n);
              var push := Mapping.PushLen(llq, Total(chain), txMaxHeaderSize);
              if ok then
                && headerLen == push && pushHdr.Some? == llq && (llq ==> |pushHdr.value| == push)
                && used == FrameUsed(chain, llq, push)
                && Progress(ring, from, used, FrameBufs(pa, chain, llq, push))
              else Valid() && Resting() && used <= n && nmI == from && slots[..] == GivenBack(ring, from, used)
    {
      hide Consumed, GivenBack, Progress, Resting, Rest, RestUsed, SlotBuf;
      RestingIsProgress();
      ghost var ring, from, chain := slots[..], nmI, Chain(slots[..], nmI, n);
      var packetLen := PacketLen(n);
      Below16(Total(chain));
      assert chain[0..] == chain;
      ghost var done: seq<Buf> := [];
      assert done + Rest(pa, chain, 0) == Rest(pa, chain, 0);
      var remaining := packetLen;
      ok, pushHdr, headerLen, used := true, None, 0, 0;
      if llq {
        ok, pushHdr, headerLen, remaining, used, done := MapHeader(packetLen, ring, from, chain);
        if !ok {
          return;
        }
      }
      ok, used, done := MapRemaining(remaining, ring, from, chain, used, done);
      if !ok {
        UnmapLastSocketChain(ring, from, used, done);
      }
    }

    /**
      `ena_netmap_tx_frame` for a packet of `n` slots. Either it is written to the
      submission queue and its slots are consumed, or the index and all buffers
      are back where they were. `left` is the burst budget when it is submitted.
     */
    method TxFrame(sq: SubmissionQueue.IoSq, reqId: nat, ghost n: nat)
        returns (rc: Rc, ctx: TxCtx, ghost used: nat, ghost left: nat)
      requires Valid() && Resting() && IsPacket(slots[..], nmI, n)
      requires Total(Chain(slots[..], nmI, n)) < U16 && maxTxSglSize < U16
      requires sq.Valid() && sq.cfg.llq == llq && reqId < U16
      modifies this, slots, socketBufIdx, bufs, mapSeg, sq, sq.entries, sq.bounceBuffers
      ensures old(nmI) < slots.Length && used <= n
      ensures rc == Ok ==>
                var chain := Chain(old(slots[..]), old(nmI), n);
                var push := Mapping.PushLen(llq, Total(chain), txMaxHeaderSize);
                && used == FrameUsed(chain, llq, push)
                && Progress(old(slots[..]), old(nmI), used, FrameBufs(pa, chain, llq, push))
                && ctx.bufs == FrameBufs(pa, chain, llq, push) && ctx.headerLen == push && ctx.reqId == reqId
                && sq.Carries(old(sq.entries[..]), old(sq.submitted), old(sq.cachedMeta), ctx)
      ensures rc != Ok ==>
                Valid() && Resting() && nmI == old(nmI) && slots[..] == GivenBack(old(slots[..]), old(nmI), used)
      ensures n > maxTxSglSize ==> rc == Inval && used == 0
      ensures rc == Ok ==> failures == old(failures)
      ensures !ctx.df && ctx.offload == NO_OFFLOAD
      ensures ctx.meta == ZERO_META && ctx.metaValid == sq.cfg.disableMetaCaching
      ensures rc == NoSpace ==> !old(sq.FitsBurst(ctx))
      ensures rc != Ok && n <= maxTxSglSize && failures == old(failures) ==>
                ctx.bufs == FrameBufs(pa, Chain(old(slots[..]), old(nmI), n), llq, ctx.headerLen)
                && rc == Verdict(sq.cfg, old(sq.cachedMeta), ctx, old(sq.Free()), left)
                && (left == old(sq.entriesInTxBurstLeft) || left == sq.cfg.maxTxBurst)
    {
      hide Consumed, GivenBack, Progress, Resting, Rest, RestUsed, SlotBuf, FrameBufs, FrameUsed;
      hide SubmissionQueue.IoSq.Valid, SubmissionQueue.IoSq.Carries, Verdict, EntriesUsed, PacketChunks, NextCachedMeta;
      ctx := TxCtx(ZERO_META, [], None, 0, reqId, sq.cfg.disableMetaCaching, false, NO_OFFLOAD);
      used, left := 0, sq.entriesInTxBurstLeft;
      ghost var ring, from := slots[..], nmI;
      NothingConsumed(ring, from);
      var count := CountSlots(n);
      if count > maxTxSglSize {
        return Inval, ctx, 0, left;
      }
      RestartRecord();
      var ok, pushHdr, headerLen;
      ok, pushHdr, headerLen, used := MapSlots(n);
      if !ok {
        return Inval, ctx, used, left;
      }
      ghost var chain := Chain(ring, from, n);
      TypedFrame(chain, headerLen);
      BufsInUse(ring, from, used, FrameBufs(pa, chain, llq, headerLen));
      ctx := ctx.(bufs := bufs[..numOfBufs], pushHeader := pushHdr, headerLen := headerLen);
      rc, left := SubmitFrame(sq, ctx);
      if rc != Ok {
        UnmapLastSocketChain(ring, from, used, FrameBufs(pa, chain, llq, headerLen));
      }
    }

    /** The doorbell, if it is needed or enough packets have gathered, then the packet. */
    method SubmitFrame(sq: SubmissionQueue.IoSq, ctx: TxCtx) returns (rc: Rc, ghost left: nat)
      requires sq.Valid() && ctx.Typed()
      modifies sq, sq.entries, sq.bounceBuffers
      ensures rc == Verdict(sq.cfg, old(sq.cachedMeta), ctx, old(sq.Free()), left)
      ensures left == old(sq.entriesInTxBurstLeft) || left == sq.cfg.maxTxBurst
      ensures old(sq.FitsBurst(ctx)) ==> rc != NoSpace
      ensures rc == Ok ==> sq.Carries(old(sq.entries[..]), old(sq.submitted), old(sq.cachedMeta), ctx)
    {
      hide SubmissionQueue.IoSq.Valid, SubmissionQueue.IoSq.Carries, Verdict, EntriesUsed, PacketChunks, NextCachedMeta;
      hide SqAccounting.FitsBurst, PredictedEntries;
      sq.ValidHasCore();
      var needed := DoorbellNeeded(sq.cfg, sq.cachedMeta, sq.entriesInTxBurstLeft, ctx);
      var gathered: bool := *;
      if gathered || needed {
        var _ := sq.WriteDoorbell();
      }
      left := sq.entriesInTxBurstLeft;
      if sq.FitsBurst(ctx) {
        FittingNeverRunsOut(sq.cfg, sq.cachedMeta, ctx, sq.Free(), old(sq.entriesInTxBurstLeft), left);
      }
      var nbHwDesc;
      rc, nbHwDesc := sq.PrepareTx(ctx);
    }

    /** The counters of the buffer record start from zero. */
    method RestartRecord()
      requires Valid() && Resting()
      modifies this`numOfBufs, this`socketsUsed
      ensures Valid() && Resting()
    {
      numOfBufs, socketsUsed := 0, 0;
    }

    lemma BufsInUse(ring: seq<NmSlot>, from: nat, used: nat, done: seq<Buf>)
      requires Progress(ring, from, used, done)
      ensures numOfBufs <= bufs.Length && bufs[..numOfBufs] == done
    {
    }

    lemma TypedFrame(chain: seq<NmSlot>, push: nat)
      requires chain != [] && Total(chain) < U16 && push == Mapping.PushLen(llq, Total(chain), txMaxHeaderSize)
      ensures |FrameBufs(pa, chain, llq, push)| <= |chain| && push < U16
      ensures forall i :: 0 <= i < |FrameBufs(pa, chain, llq, push)| ==> FrameBufs(pa, chain, llq, push)[i].len < U16
    {
      FrameLengths(pa, chain, llq, txMaxHeaderSize);
      EachWithinSum(FrameBufs(pa, chain, llq, push));
    }

    lemma ProgressOfNothing(ring: seq<NmSlot>, from: nat)
      requires Progress(ring, from, 0, [])
      ensures Valid() && Resting() && nmI == from && slots[..] == ring == GivenBack(ring, from, 0)
    {
      NothingConsumed(ring, from);
    }
  }

  lemma {:induction false} TotalLast(slots: seq<NmSlot>, s: NmSlot)
    ensures Total(slots + [s]) == Total(slots) + s.len
  {
    if slots == [] {
      assert slots + [s] == [s];
    } else {
      TotalLast(slots[1..], s);
      assert (slots + [s])[1..] == slots[1..] + [s];
    }
  }
}
