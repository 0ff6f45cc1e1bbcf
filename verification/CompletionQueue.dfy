/**
  The completion queue: `struct ena_com_io_cq`, the phase handshake with the
  device, and the assembly of received packets over any number of polls.

  The device is the environment: `log` is everything it ever completed, and it
  may complete more whenever the driver is about to look at ring memory.
 */
module CompletionQueue {
  import opened Words

  /** A completion descriptor; `corrupt` stands for its must-be-zero bits being set. */
  datatype Cdesc = Cdesc(reqId: nat, length: nat, offset: nat, first: bool, last: bool, corrupt: bool)

  datatype Cell = Cell(phase: nat, c: Cdesc)

  datatype RxBuf = RxBuf(len: nat, reqId: nat)

  datatype CqRc = Ok | TryAgain | Fault | Inval | NoSpace | Eio

  const ZERO_CDESC := Cdesc(0, 0, 0, false, false, false)

  // ---------------------------------------------------------------- streams of completions

  datatype ScanStep = Empty | Broken | More | Last

  datatype Scan = Pending | Bad(at: nat) | Complete(end: nat)

  /** A descriptor that cannot continue the packet that starts at s. */
  predicate Malformed(log: seq<Cdesc>, checkMbz: bool, s: nat, j: nat)
    requires j < |log|
  {
    (log[j].first && j != s) || (log[j].corrupt && checkMbz)
  }

  /** What a reader of `log` finds from r on, in the packet that starts at s. */
  function ScanFrom(log: seq<Cdesc>, checkMbz: bool, s: nat, r: nat): Scan
    decreases |log| - r
  {
    if r >= |log| then Pending
    else if Malformed(log, checkMbz, s, r) then Bad(r)
    else if log[r].last then Complete(r + 1)
    else ScanFrom(log, checkMbz, s, r + 1)
  }

  /** The packet of the stream that starts at s, as far as `log` tells. */
  function NextPacket(log: seq<Cdesc>, checkMbz: bool, s: nat): Scan {
    ScanFrom(log, checkMbz, s, s)
  }

  lemma {:induction false} ScanStable(log: seq<Cdesc>, more: seq<Cdesc>, checkMbz: bool, s: nat, r: nat)
    requires log <= more && ScanFrom(log, checkMbz, s, r) != Pending
    ensures ScanFrom(more, checkMbz, s, r) == ScanFrom(log, checkMbz, s, r)
    decreases |log| - r
  {
    if !Malformed(log, checkMbz, s, r) && !log[r].last {
      ScanStable(log, more, checkMbz, s, r + 1);
    }
  }

  /** The end of the first packet of a stream: one past its first LAST descriptor. */
  function PacketEnd(s: seq<Cdesc>): (e: nat)
    ensures e <= |s|
    ensures e > 0 ==> s[e - 1].last
    ensures forall i :: 0 <= i < (if e > 0 then e - 1 else |s|) ==> !s[i].last
  {
    if s == [] then 0
    else if s[0].last then 1
    else if PacketEnd(s[1..]) == 0 then 0
    else PacketEnd(s[1..]) + 1
  }

  /** The complete packets of a stream, cut at its LAST bits. */
  function Cut(s: seq<Cdesc>): seq<seq<Cdesc>>
    decreases |s|
  {
    var e := PacketEnd(s);
    if e == 0 then [] else [s[..e]] + Cut(s[e..])
  }

  /** Descriptors of a last, still incomplete packet. */
  function Remainder(s: seq<Cdesc>): seq<Cdesc>
    decreases |s|
  {
    var e := PacketEnd(s);
    if e == 0 then s else Remainder(s[e..])
  }

  lemma {:induction false} PacketEndUnique(s: seq<Cdesc>, e: nat)
    requires 0 < e <= |s| && s[e - 1].last && forall i :: 0 <= i < e - 1 ==> !s[i].last
    ensures PacketEnd(s) == e
  {
  }

  lemma {:induction false} CutStep(p: seq<Cdesc>, rest: seq<Cdesc>)
    requires p != [] && p[|p| - 1].last && forall i :: 0 <= i < |p| - 1 ==> !p[i].last
    ensures Cut(p + rest) == [p] + Cut(rest)
    ensures Remainder(p + rest) == Remainder(rest)
  {
    PacketEndUnique(p + rest, |p|);
    assert (p + rest)[..|p|] == p && (p + rest)[|p|..] == rest;
  }

  lemma {:induction false} FirstPacket(s: seq<Cdesc>) returns (p: seq<Cdesc>, rest: seq<Cdesc>)
    requires Remainder(s) == [] && s != []
    ensures s == p + rest && p != [] && p[|p| - 1].last && forall i :: 0 <= i < |p| - 1 ==> !p[i].last
  {
    var e := PacketEnd(s);
    p, rest := s[..e], s[e..];
  }

  /** Cutting a stream that ended between packets just goes on. */
  lemma {:induction false} CutAppend(a: seq<Cdesc>, b: seq<Cdesc>)
    requires Remainder(a) == []
    ensures Cut(a + b) == Cut(a) + Cut(b)
    ensures Remainder(a + b) == Remainder(b)
    decreases |a|
  {
    if a == [] {
      assert a + b == b;
    } else {
      hide *;
      var p, rest := FirstPacket(a);
      CutStep(p, rest);
      CutStep(p, rest + b);
      AppendAssoc(p, rest, b);
      CutAppend(rest, b);
      AppendAssoc([p], Cut(rest), Cut(b));
    }
  }

  lemma {:induction false} CutOne(p: seq<Cdesc>)
    requires p != [] && p[|p| - 1].last && forall i :: 0 <= i < |p| - 1 ==> !p[i].last
    ensures Cut(p) == [p] && Remainder(p) == []
  {
    CutStep(p, []);
    assert p + [] == p;
  }

  lemma {:induction false} CutNone(p: seq<Cdesc>)
    requires forall i :: 0 <= i < |p| ==> !p[i].last
    ensures Cut(p) == [] && Remainder(p) == p
  {
  }

  // ---------------------------------------------------------------- the queue

  class IoCq {
    const depth: nat
    /** The device announces that it keeps the must-be-zero bits of completions clear. */
    const checkMbz: bool
    const ring: array<Cell>

    var head: nat
    var phase: nat
    var curRxPktCdescCount: nat
    var curRxPktCdescStartIdx: nat

    /** The device's side: everything it ever completed, in order. */
    var log: seq<Cdesc>
    /** Completions the driver has moved its head past. */
    ghost var read: nat
    /** First completion of the packet being assembled; everything before is returned. */
    ghost var start: nat
    /** The packets returned to the driver so far. */
    ghost var packets: seq<seq<Cdesc>>
    /** What the driver's owner may rely on about everything the device completes. */
    ghost var promise: seq<Cdesc> -> bool

    /** The device completes no more than one lap ahead of the first completion still needed. */
    ghost predicate Valid()
      reads this`head, this`phase, this`read, this`start, this`log, this`promise, ring
    {
      && IsDepth(depth) && ring.Length == depth
      && head == read % U16 && phase == Phase(depth, read)
      && start <= read <= |log| <= start + depth
      && promise(log)
      && forall i {:trigger Slot(depth, i)} :: start <= i < start + depth ==>
           if i < |log| then ring[Slot(depth, i)] == Cell(Phase(depth, i), log[i])
           else ring[Slot(depth, i)].phase == 1 - Phase(depth, i)
    }

    /** The counters of a partly assembled packet. */
    ghost predicate Assembling()
      reads this
    {
      && depth > 0
      && curRxPktCdescCount == read - start
      && curRxPktCdescStartIdx == Slot(depth, start)
      && forall j :: start <= j < read && j < |log| ==> !Malformed(log, checkMbz, start, j) && !log[j].last
    }

    constructor (depth: nat, checkMbz: bool)
      requires IsDepth(depth)
      ensures this.depth == depth && this.checkMbz == checkMbz && fresh(ring)
      ensures Valid() && Assembling() && Returned() && log == [] && read == start == 0
      ensures promise == (_ => true)
    {
      this.depth, this.checkMbz := depth, checkMbz;
      ring := new Cell[depth](i => Cell(0, ZERO_CDESC));
      head, phase, curRxPktCdescCount, curRxPktCdescStartIdx := 0, 1, 0, 0;
      log, read, start, packets := [], 0, 0, [];
      promise := _ => true;
      new;
      CounterSlot(depth, 0);
      forall i | 0 <= i < depth ensures Phase(depth, i) == 1 {
        FirstLap(depth, i);
      }
    }

    /** The device completes one more descriptor, stamped with the phase of its lap. */
    method DeviceCompletes(c: Cdesc)
      requires Valid() && |log| < start + depth && promise(log + [c])
      modifies this`log, ring
      ensures Valid() && log == old(log) + [c]
    {
      var n := |log|;
      forall i {:trigger Slot(depth, i)} | start <= i < start + depth && i != n
        ensures Slot(depth, i) != Slot(depth, n)
      {
        SlotsDistinct(depth, if i < n then i else n, if i < n then n else i);
      }
      ring[Slot(depth, n)] := Cell(Phase(depth, n), c);
      log := log + [c];
    }

    /** The device runs in parallel: any number of completions may have appeared. */
    method DeviceRuns()
      requires Valid()
      modifies this`log, ring
      ensures Valid() && old(log) <= log
    {
    }

    /** From now on the device is relied on to keep `p` true of its log. */
    ghost method RelyOn(p: seq<Cdesc> -> bool)
      requires Valid() && p(log)
      modifies this`promise
      ensures Valid() && promise == p
    {
      promise := p;
    }

    lemma PromiseKept()
      requires Valid()
      ensures promise(log)
    {
    }

    /** Nothing before `upTo` is needed any more, so the device may reuse those slots. */
    ghost method Release(upTo: nat)
      requires Valid() && start <= upTo <= read
      modifies this`start
      ensures Valid() && start == upTo
    {
      forall i {:trigger Slot(depth, i)} | start + depth <= i < upTo + depth
        ensures ring[Slot(depth, i)].phase == 1 - Phase(depth, i)
      {
        LapFlipsPhase(depth, i - depth);
        assert start <= i - depth < start + depth;
        assert ring[Slot(depth, i - depth)] == Cell(Phase(depth, i - depth), log[i - depth]);
      }
      start := upTo;
    }

    method CqIncHead()
      requires Valid() && read < |log|
      modifies this`head, this`phase, this`read
      ensures Valid() && read == old(read) + 1
    {
      CounterStep(depth, read);
      read := read + 1;
      head := (head + 1) % U16;
      if Masked(head, depth) == 0 {
        phase := 1 - phase;
      }
    }

    /** The phase handshake: a completion is visible exactly when the device has written one not yet read. */
    method GetNextCdesc() returns (ready: bool, c: Cdesc)
      requires Valid()
      ensures ready <==> read < |log|
      ensures ready ==> c == log[read]
    {
      CounterSlot(depth, read);
      DepthBound(depth);
      var slot := Masked(head, depth);
      assert slot == Slot(depth, read);
      if read == start + depth {
        LapFlipsPhase(depth, start);
      }
      var cell := ring[slot];
      return cell.phase == phase, cell.c;
    }

    method CqEmpty() returns (empty: bool)
      requires Valid()
      ensures empty <==> read == |log|
    {
      var ready, _ := GetNextCdesc();
      empty := !ready;
    }

    /** `ena_com_tx_comp_req_id_get`: the next completed request id, each exactly once and in order. */
    method TxCompReqIdGet() returns (rc: CqRc, reqId: nat)
      requires Valid() && start == read
      modifies this`head, this`phase, this`read, this`start
      ensures Valid() && start == read
      ensures rc == if old(read) == |log| then TryAgain
                    else if log[old(read)].corrupt && checkMbz then Fault
                    else if log[old(read)].reqId >= depth then Inval
                    else Ok
      ensures rc == Ok ==> read == old(read) + 1 && reqId == log[old(read)].reqId < depth
      ensures rc != Ok ==> read == old(read)
    {
      reqId := 0;
      var ready, c := GetNextCdesc();
      if !ready {
        return TryAgain, reqId;
      }
      if c.corrupt && checkMbz {
        return Fault, reqId;
      }
      reqId := c.reqId;
      if reqId >= depth {
        return Inval, reqId;
      }
      CqIncHead();
      Release(read);
      rc := Ok;
    }

    /** One turn of the packet scan: looks at the next completion and moves the head past it. */
    method ScanOne(count: nat) returns (step: ScanStep)
      requires Valid() && count == read - start
      modifies this`head, this`phase, this`read, this`log, ring
      ensures Valid() && old(log) <= log
      ensures read == if step == Empty then old(read) else old(read) + 1
      ensures step == if old(read) == |log| then Empty
                      else if Malformed(log, checkMbz, start, old(read)) then Broken
                      else if log[old(read)].last then Last else More
    {
      DeviceRuns();
      var ready, c := GetNextCdesc();
      if !ready {
        return Empty;
      }
      CqIncHead();
      if c.first && count != 0 {
        return Broken;
      }
      if c.corrupt && checkMbz {
        return Broken;
      }
      return if c.last then Last else More;
    }

    /** Descriptors lo..hi-1 continue the current packet without ending it. */
    ghost predicate Continues(lo: nat, hi: nat)
      reads this
    {
      hi <= |log| && forall j :: lo <= j < hi ==> !Malformed(log, checkMbz, start, j) && !log[j].last
    }

    /** The scan loop: over continuing descriptors up to a broken one, a LAST, or the end of what arrived. */
    method ScanPacket(count0: nat) returns (step: ScanStep, count: nat)
      requires Valid() && count0 == read - start
      modifies this`head, this`phase, this`read, this`log, ring
      ensures Valid() && old(log) <= log && step != More && old(read) <= read
      ensures step == Empty ==> read == |log| && count == read - start && Continues(old(read), read)
      ensures step != Empty ==> old(read) < read && Continues(old(read), read - 1)
      ensures step == Last ==> count == read - start
                               && !Malformed(log, checkMbz, start, read - 1) && log[read - 1].last
      ensures step == Broken ==> Malformed(log, checkMbz, start, read - 1)
    {
      hide Slot, Phase, IsDepth;
      count, step := count0, More;
      while step == More
        invariant Valid() && old(log) <= log && old(read) <= read && step != Broken && count == read - start
        invariant step == More ==> Continues(old(read), read)
        invariant step == Empty ==> read == |log| && Continues(old(read), read)
        invariant step == Last ==> old(read) < read && Continues(old(read), read - 1)
                                   && !Malformed(log, checkMbz, start, read - 1) && log[read - 1].last
        decreases start + depth - read, step == More
      {
        step := ScanOne(count);
        if step == Broken {
          return;
        }
        if step != Empty {
          count := count + 1;
        }
      }
    }

    /** The counters for a packet that starts at the head. */
    method StartNextPacket()
      requires Valid()
      modifies this`curRxPktCdescCount, this`curRxPktCdescStartIdx
      ensures curRxPktCdescCount == 0 && depth > 0 && curRxPktCdescStartIdx == Slot(depth, read)
    {
      CounterSlot(depth, read);
      curRxPktCdescCount := 0;
      curRxPktCdescStartIdx := Masked(head, depth);
    }

    /** `ena_com_cdesc_rx_pkt_get`: moves the head over the current packet, as far as it has arrived. */
    method CdescRxPktGet() returns (rc: CqRc, firstIdx: nat, numDescs: nat)
      requires Valid() && Assembling()
      modifies this`head, this`phase, this`read, this`log, ring
      modifies this`curRxPktCdescCount, this`curRxPktCdescStartIdx
      ensures Valid() && old(log) <= log
      ensures match ScanFrom(log, checkMbz, start, old(read))
              case Pending => rc == Ok && numDescs == 0 && read == |log| && Assembling()
              case Bad(at) => rc == Fault && read == at + 1
              case Complete(end) =>
                && rc == Ok && firstIdx == Slot(depth, start) && read == end && numDescs == end - start > 0
                && curRxPktCdescCount == 0 && curRxPktCdescStartIdx == Slot(depth, end)
                && log[end - 1].last && forall j :: start <= j < end - 1 ==> !log[j].last
    {
      hide Slot, Phase, IsDepth, ScanFrom;
      firstIdx, numDescs, rc := 0, 0, Ok;
      var step, count := ScanPacket(curRxPktCdescCount);
      if step == Broken {
        ScanResult(log, checkMbz, start, old(read), read - 1);
        rc := Fault;
      } else if step == Last {
        ScanResult(log, checkMbz, start, old(read), read - 1);
        firstIdx, numDescs := curRxPktCdescStartIdx, count;
        StartNextPacket();
      } else {
        ScanResult(log, checkMbz, start, old(read), read);
        curRxPktCdescCount := count;
      }
    }

    /** The packets returned are the stream up to `start`, cut at its LAST bits. */
    ghost predicate Returned()
      reads this
    {
      && start <= |log|
      && packets == Cut(log[..start]) && Remainder(log[..start]) == []
    }

    /** Descriptor i of the current packet, which the device leaves alone while it runs. */
    method ReadCdesc(cdescIdx: nat, i: nat) returns (c: Cdesc)
      requires Valid() && start + i < read && cdescIdx == Slot(depth, start)
      modifies this`log, ring
      ensures Valid() && old(log) <= log && c == old(log)[start + i]
    {
      hide Phase, Slot, Masked, IsDepth;
      DeviceRuns();
      DepthBound(depth);
      SlotPlus(depth, start, i);
      c := ring[Masked((cdescIdx + i) % U16, depth)].c;
    }

    /** Copies the buffers of a packet out of the ring; stops at an invalid request id. */
    method ReadBufs(cdescIdx: nat, n: nat) returns (ok: bool, bufs: seq<RxBuf>, pktOffset: nat)
      requires Valid() && 0 < n && start + n <= read && cdescIdx == Slot(depth, start)
      modifies this`log, ring
      ensures Valid() && old(log) <= log
      ensures var pkt := log[start..start + n];
              && ok == GoodIds(pkt, depth)
              && (ok ==> bufs == BufsOf(pkt)) && pktOffset == pkt[0].offset
    {
      hide Phase, Slot, IsDepth;
      ghost var log0 := log;
      ok, bufs, pktOffset := true, [], 0;
      var i := 0;
      while i < n
        invariant 0 <= i <= n && Valid() && log0 <= log
        invariant |bufs| == i && forall k :: 0 <= k < i ==> bufs[k] == BufOf(log0[start + k]) && bufs[k].reqId < depth
        invariant i > 0 ==> pktOffset == log0[start].offset
      {
        var c := ReadCdesc(cdescIdx, i);
        if i == 0 {
          pktOffset := c.offset;
        }
        bufs := bufs + [RxBuf(c.length, c.reqId)];
        if c.reqId >= depth {
          ghost var bad := log[start..start + n];
          assert bad[i] == c && bad[0] == log0[start] && !GoodIds(bad, depth);
          return false, bufs, pktOffset;
        }
        i := i + 1;
      }
      ghost var pkt := log[start..start + n];
      forall k | 0 <= k < n ensures bufs[k] == BufOf(pkt[k]) && pkt[k].reqId < depth {
        assert pkt[k] == log0[start + k];
      }
      assert pkt[0] == log0[start];
      assert bufs == BufsOf(pkt);
    }

    /** Hands the packet that ends at the head to the driver, if it is acceptable. */
    method TakePacket(cdescIdx: nat, n: nat, maxBufs: nat) returns (rc: CqRc, bufs: seq<RxBuf>, pktOffset: nat)
      requires Valid() && Returned() && 0 < n && start + n == read && cdescIdx == Slot(depth, start)
      requires curRxPktCdescCount == 0 && curRxPktCdescStartIdx == Slot(depth, read)
      requires log[read - 1].last && forall j :: start <= j < read - 1 ==> !log[j].last
      modifies this`log, this`start, this`packets, ring
      ensures Valid() && old(log) <= log
      ensures var pkt := old(log)[old(start)..read];
              if |pkt| > maxBufs then rc == NoSpace
              else if !GoodIds(pkt, depth) then rc == Eio
              else rc == Ok && bufs == BufsOf(pkt) && pktOffset == pkt[0].offset
                   && packets == old(packets) + [pkt] && start == read
      ensures rc == Ok ==> Assembling() && Returned() && bufs != []
      ensures rc != Ok ==> start == old(start)
    {
      hide Slot, Phase, IsDepth, GoodIds, BufsOf, Cut, Remainder;
      bufs, pktOffset := [], 0;
      if n > maxBufs {
        return NoSpace, bufs, pktOffset;
      }
      ghost var log0, start0 := log, start;
      var ok;
      ok, bufs, pktOffset := ReadBufs(cdescIdx, n);
      assert log[start0..read] == log0[start0..read];
      if !ok {
        return Eio, bufs, pktOffset;
      }
      assert log[..start0] == log0[..start0];
      OnePacketMore(log, start0, read);
      packets := packets + [log[start0..read]];
      Release(read);
      rc := Ok;
    }

    /**
      `ena_com_rx_pkt`: one poll of the receive completion queue. Whatever was
      already assembled, the next packet of the stream is returned, whole, as soon
      as its LAST descriptor is there.
     */
    method RxPkt(maxBufs: nat) returns (rc: CqRc, bufs: seq<RxBuf>, pktOffset: nat)
      requires Valid() && Assembling() && Returned()
      modifies this`head, this`phase, this`read, this`log, this`start, this`packets, ring
      modifies this`curRxPktCdescCount, this`curRxPktCdescStartIdx
      ensures Valid() && old(log) <= log
      ensures match NextPacket(log, checkMbz, old(start))
              case Pending => rc == Ok && bufs == [] && start == old(start) && packets == old(packets)
              case Bad(_) => rc == Fault
              case Complete(end) =>
                && old(start) < end <= |log|
                && var pkt := log[old(start)..end];
                if |pkt| > maxBufs then rc == NoSpace
                else if !GoodIds(pkt, depth) then rc == Eio
                else rc == Ok && bufs == BufsOf(pkt) && pktOffset == pkt[0].offset
                     && packets == old(packets) + [pkt] && start == read == end
      ensures rc == Ok ==> Assembling() && Returned()
      ensures rc != Ok ==> start == old(start)
      ensures rc == Ok && bufs == [] ==> packets == Cut(log)
    {
      hide Slot, Phase, IsDepth, ScanFrom, GoodIds, BufsOf, Cut, Remainder;
      bufs, pktOffset := [], 0;
      var cdescIdx, nbHwDesc;
      rc, cdescIdx, nbHwDesc := CdescRxPktGet();
      assert log[..start] == old(log[..start]);
      ScanSkips(log, checkMbz, start, start, old(read));
      if rc != Ok {
        return;
      }
      if nbHwDesc == 0 {
        NothingComplete(log, start);
        return;
      }
      ghost var log0 := log;
      rc, bufs, pktOffset := TakePacket(cdescIdx, nbHwDesc, maxBufs);
      ScanStable(log0, log, checkMbz, old(start), old(start));
      assert log[old(start)..read] == log0[old(start)..read];
    }
  }

  function BufOf(c: Cdesc): RxBuf {
    RxBuf(c.length, c.reqId)
  }

  function BufsOf(pkt: seq<Cdesc>): (r: seq<RxBuf>)
    ensures |r| == |pkt|
  {
    seq(|pkt|, i requires 0 <= i < |pkt| => BufOf(pkt[i]))
  }

  predicate GoodIds(pkt: seq<Cdesc>, depth: nat) {
    forall i :: 0 <= i < |pkt| ==> pkt[i].reqId < depth
  }

  /** Between packets with no LAST to come, everything complete is already cut. */
  lemma {:induction false} NothingComplete(log: seq<Cdesc>, s: nat)
    requires s <= |log| && Remainder(log[..s]) == []
    requires forall j :: s <= j < |log| ==> !log[j].last
    ensures Cut(log) == Cut(log[..s])
  {
    assert log == log[..s] + log[s..];
    CutAppend(log[..s], log[s..]);
    CutNone(log[s..]);
  }

  lemma {:induction false} OnePacketMore(log: seq<Cdesc>, s: nat, end: nat)
    requires s < end <= |log| && Remainder(log[..s]) == []
    requires log[end - 1].last && forall j :: s <= j < end - 1 ==> !log[j].last
    ensures Cut(log[..end]) == Cut(log[..s]) + [log[s..end]]
    ensures Remainder(log[..end]) == []
  {
    hide Cut, Remainder;
    assert log[..end] == log[..s] + log[s..end];
    CutAppend(log[..s], log[s..end]);
    CutOne(log[s..end]);
  }

  /** Scanning passes over descriptors that continue the packet. */
  lemma {:induction false} ScanSkips(log: seq<Cdesc>, checkMbz: bool, s: nat, from: nat, r: nat)
    requires from <= r <= |log|
    requires forall j :: from <= j < r ==> !Malformed(log, checkMbz, s, j) && !log[j].last
    ensures ScanFrom(log, checkMbz, s, from) == ScanFrom(log, checkMbz, s, r)
    decreases r - from
  {
    if from < r {
      ScanSkips(log, checkMbz, s, from + 1, r);
    }
  }

  lemma {:induction false} ScanResult(log: seq<Cdesc>, checkMbz: bool, s: nat, from: nat, r: nat)
    requires from <= r <= |log|
    requires forall j :: from <= j < r ==> !Malformed(log, checkMbz, s, j) && !log[j].last
    ensures r == |log| ==> ScanFrom(log, checkMbz, s, from) == Pending
    ensures r < |log| && Malformed(log, checkMbz, s, r) ==> ScanFrom(log, checkMbz, s, from) == Bad(r)
    ensures r < |log| && !Malformed(log, checkMbz, s, r) && log[r].last
            ==> ScanFrom(log, checkMbz, s, from) == Complete(r + 1)
  {
    ScanSkips(log, checkMbz, s, from, r);
  }
}
