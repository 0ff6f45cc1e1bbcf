/**
  The stop/wake protocol between the sender and the cleaner of a transmit ring,
  step by step and in every sequentially consistent interleaving. The sender
  holds the ring lock while it sends; the cleaner takes it only to wake the ring.
 */
module FlowControl {
  import opened Words
  import opened TxWire
  import opened SqAccounting

  const ENA_PKT_MAX_BUFS: nat := 19
  const ENA_TX_RESUME_THRESH: nat := ENA_PKT_MAX_BUFS + 2

  /** Where the sender is: outside the lock, or between two of its shared accesses. */
  datatype SenderPc =
    | Away          // not in ena_start_xmit
    | Loop          // lock held, about to look at `running`
    | Sending       // saw the ring running, about to prepare a packet
    | Sent          // packet prepared, about to test for the stop
    | Stopping      // test failed, about to clear `running`
    | Rechecking    // `running` cleared, about to test again
    | Waking        // second test passed, about to set `running`

  datatype CleanerPc =
    | Cleaning                  // completions are collected
    | Acked                     // acknowledged, about to acknowledge again or to test the space
    | Tested(above: bool)       // about to look at `running`
    | WantLock
    | Locked                    // about to test the space again
    | LockedTested(above: bool) // about to look at `running` again
    | SettingRunning
    | Unlocking

  datatype State = State(outstanding: nat, running: bool, sender: SenderPc, cleaner: CleanerPc)

  datatype Action =
    | SenderStep
    /** The sender prepares a packet of `bufs` buffers that takes `entries` ring entries. */
    | Send(bufs: nat, entries: nat)
    /** No packet is left, or the packet could not be mapped. */
    | SenderLeaves
    | CleanerStep
    | Ack(entries: nat)

  /** The queue and the segment limit of its packets. */
  datatype Params = Params(cfg: SqConfig, maxSgl: nat) {
    predicate Valid() {
      && cfg.Valid()
      && 1 <= maxSgl <= ENA_PKT_MAX_BUFS
      && EnoughSpace(cfg, cfg.depth - 1, maxSgl)
    }
  }

  function Free(p: Params, s: State): int {
    p.cfg.depth - 1 - s.outstanding
  }

  predicate Room(p: Params, s: State, required: nat)
    requires p.Valid()
  {
    EnoughSpace(p.cfg, Free(p, s), required)
  }

  predicate SenderHoldsLock(s: State) {
    s.sender != Away
  }

  predicate CleanerHoldsLock(s: State) {
    s.cleaner in {Locked, LockedTested(false), LockedTested(true), SettingRunning, Unlocking}
  }

  const START := State(0, true, Away, Cleaning)

  /** The next shared access of the sender, other than preparing a packet. */
  function StepSender(p: Params, s: State): Option<State>
    requires p.Valid()
  {
    match s.sender
    case Away => if CleanerHoldsLock(s) then None else Some(s.(sender := Loop))
    case Loop => Some(s.(sender := if s.running then Sending else Away))
    case Sending => None
    case Sent => Some(s.(sender := if Room(p, s, p.maxSgl + 2) then Loop else Stopping))
    case Stopping => Some(s.(running := false, sender := Rechecking))
    case Rechecking => Some(s.(sender := if Room(p, s, ENA_TX_RESUME_THRESH) then Waking else Loop))
    case Waking => Some(s.(running := true, sender := Loop))
  }

  /** Preparing a packet: refused without room, otherwise its entries become outstanding. */
  function StepSend(p: Params, s: State, bufs: nat, entries: nat): Option<State>
    requires p.Valid()
  {
    if s.sender != Sending || bufs + 1 > p.maxSgl then None
    else if !Room(p, s, bufs + 1) then Some(s.(sender := Away))
    else if 1 <= entries <= Free(p, s) then Some(s.(outstanding := s.outstanding + entries, sender := Sent))
    else None
  }

  function StepCleaner(p: Params, s: State): Option<State>
    requires p.Valid()
  {
    match s.cleaner
    case Cleaning => None
    case Acked => Some(s.(cleaner := Tested(Room(p, s, ENA_TX_RESUME_THRESH))))
    case Tested(above) => Some(s.(cleaner := if !s.running && above then WantLock else Cleaning))
    case WantLock => if SenderHoldsLock(s) then None else Some(s.(cleaner := Locked))
    case Locked => Some(s.(cleaner := LockedTested(Room(p, s, ENA_TX_RESUME_THRESH))))
    case LockedTested(above) => Some(s.(cleaner := if !s.running && above then SettingRunning else Unlocking))
    case SettingRunning => Some(s.(running := true, cleaner := Unlocking))
    case Unlocking => Some(s.(cleaner := Cleaning))
  }

  function Step(p: Params, s: State, a: Action): Option<State>
    requires p.Valid()
  {
    match a
    case SenderStep => StepSender(p, s)
    case Send(bufs, entries) => StepSend(p, s, bufs, entries)
    case SenderLeaves => if s.sender in {Loop, Sending} then Some(s.(sender := Away)) else None
    case CleanerStep => StepCleaner(p, s)
    case Ack(entries) =>
      if (s.cleaner == Cleaning || s.cleaner == Acked) && entries <= s.outstanding
      then Some(s.(outstanding := s.outstanding - entries, cleaner := Acked)) else None
  }

  /** The state after a sequence of actions; None if one of them was not possible. */
  function Run(p: Params, s: State, acts: seq<Action>): Option<State>
    requires p.Valid()
    decreases |acts|
  {
    if acts == [] then Some(s)
    else match Step(p, s, acts[0])
      case None => None
      case Some(t) => Run(p, t, acts[1..])
  }

  // ---------------------------------------------------------------- properties

  /** The sender has cleared `running` and has not tested again yet, or is about to set it. */
  predicate SenderInWindow(s: State) {
    s.sender in {Rechecking, Waking}
  }

  /** The cleaner has acknowledged and will still look, or has seen reason to wake the ring. */
  predicate CleanerInWindow(s: State) {
    s.cleaner in {Acked, Tested(true), WantLock, Locked, LockedTested(true), SettingRunning}
  }

  /** Outside the windows, a stopped ring has no room to resume. */
  predicate NoLostWakeup(p: Params, s: State)
    requires p.Valid()
  {
    !s.running && !SenderInWindow(s) && !CleanerInWindow(s) ==> !Room(p, s, ENA_TX_RESUME_THRESH)
  }

  /** A running ring has room for every packet within the segment limit. */
  predicate AwakeMeansRoom(p: Params, s: State)
    requires p.Valid()
  {
    s.running && s.sender !in {Sent, Stopping} ==> Room(p, s, p.maxSgl)
  }

  ghost predicate Inv(p: Params, s: State)
    requires p.Valid()
  {
    && s.outstanding <= p.cfg.depth - 1
    && !(SenderHoldsLock(s) && CleanerHoldsLock(s))
    && NoLostWakeup(p, s)
    && AwakeMeansRoom(p, s)
    && (s.sender == Waking ==> Room(p, s, ENA_TX_RESUME_THRESH))
    && (s.sender in {Sending, Sent, Stopping} ==> s.running)
    && (s.cleaner in {LockedTested(true), SettingRunning} ==> Room(p, s, ENA_TX_RESUME_THRESH))
    && (s.cleaner in {Tested(false), LockedTested(false)} ==> !Room(p, s, ENA_TX_RESUME_THRESH))
  }

  /** The space check is monotone: more free entries or a smaller request never make it fail. */
  lemma {:induction false} EnoughSpaceMonotone(cfg: SqConfig, free: int, required: nat, free': int, required': nat)
    requires cfg.Valid() && free <= free' && required' <= required
    requires EnoughSpace(cfg, free, required)
    ensures EnoughSpace(cfg, free', required')
  {
    if cfg.llq {
      DivMonotone(required', required, cfg.descsPerEntry);
    }
  }

  /** Room in `s` is room in `t` when `t` has no more outstanding entries and the request is no larger. */
  lemma {:induction false} RoomMonotone(p: Params, s: State, required: nat, t: State, required': nat)
    requires p.Valid()
    ensures t.outstanding <= s.outstanding && required' <= required && Room(p, s, required) ==> Room(p, t, required')
  {
    if t.outstanding <= s.outstanding && required' <= required && Room(p, s, required) {
      EnoughSpaceMonotone(p.cfg, Free(p, s), required, Free(p, t), required');
    }
  }

  lemma {:induction false} StepKeepsInv(p: Params, s: State, a: Action)
    requires p.Valid() && Inv(p, s) && Step(p, s, a).Some?
    ensures Inv(p, Step(p, s, a).value)
  {
    var t := Step(p, s, a).value;
    RoomMonotone(p, s, ENA_TX_RESUME_THRESH, t, ENA_TX_RESUME_THRESH);
    RoomMonotone(p, t, ENA_TX_RESUME_THRESH, s, ENA_TX_RESUME_THRESH);
    RoomMonotone(p, s, ENA_TX_RESUME_THRESH, t, p.maxSgl);
    RoomMonotone(p, s, p.maxSgl, t, p.maxSgl);
    RoomMonotone(p, s, p.maxSgl + 2, t, p.maxSgl);
    if a.Send? {
      RoomMonotone(p, s, p.maxSgl, s, a.bufs + 1);
    }
    hide EnoughSpace;
  }

  /** One more action at the end of a run. */
  lemma {:induction false} RunLast(p: Params, s: State, acts: seq<Action>, a: Action)
    requires p.Valid() && Run(p, s, acts).Some?
    ensures Run(p, s, acts + [a]) == Step(p, Run(p, s, acts).value, a)
    decreases |acts|
  {
    if acts == [] {
      assert acts + [a] == [a] && [a][1..] == [];
    } else {
      RunLast(p, Step(p, s, acts[0]).value, acts[1..], a);
      assert (acts + [a])[1..] == acts[1..] + [a];
    }
  }

  lemma {:induction false} RunKeepsInv(p: Params, s: State, acts: seq<Action>)
    requires p.Valid() && Inv(p, s) && Run(p, s, acts).Some?
    ensures Inv(p, Run(p, s, acts).value)
    decreases |acts|
  {
    if acts != [] {
      StepKeepsInv(p, s, acts[0]);
      RunKeepsInv(p, Step(p, s, acts[0]).value, acts[1..]);
    }
  }

  /**
    In every reachable state: at most depth - 1 entries are outstanding, no
    wake-up is lost, and a running ring has room for the next packet.
   */
  lemma {:induction false} ReachableStatesAreSafe(p: Params, acts: seq<Action>)
    requires p.Valid() && Run(p, START, acts).Some?
    ensures var s := Run(p, START, acts).value;
            s.outstanding < p.cfg.depth && NoLostWakeup(p, s) && AwakeMeansRoom(p, s)
  {
    StartSatisfiesInv(p);
    RunKeepsInv(p, START, acts);
  }

  /**
    While the ring is running, the next packet within the segment limit is never
    refused: it passes the space check, and its entries fit what is free.
   */
  lemma {:induction false} AwakeNeverRefused(p: Params, acts: seq<Action>, ctx: TxCtx, haveMeta: bool)
    requires p.Valid() && Run(p, START, acts).Some?
    requires Run(p, START, acts).value.sender == Sending
    requires !ctx.MetaOnly() && |ctx.bufs| + 1 <= p.maxSgl && SpaceCheckCovers(p.cfg, ctx, haveMeta)
    ensures var s := Run(p, START, acts).value;
            var sent := Step(p, s, Send(|ctx.bufs|, EntriesUsed(p.cfg, ctx, haveMeta)));
            && PassesSpaceCheck(p.cfg, ctx, Free(p, s)) && EntriesUsed(p.cfg, ctx, haveMeta) <= Free(p, s)
            && sent.Some? && sent.value.sender == Sent
  {
    hide EntriesUsed, EnoughSpace, IsDepth, Run;
    StartSatisfiesInv(p);
    RunKeepsInv(p, START, acts);
    AwakePasses(p, Run(p, START, acts).value, ctx, haveMeta);
  }

  lemma {:induction false} StartSatisfiesInv(p: Params)
    requires p.Valid()
    ensures Inv(p, START)
  {
    hide EnoughSpace, IsDepth;
    DepthBound(p.cfg.depth);
  }

  /** Every ring the driver accepts, of 256 entries or more, has room for a packet when nothing is outstanding. */
  lemma {:induction false} SmallestRingHasRoom(cfg: SqConfig, maxSgl: nat)
    requires cfg.Valid() && cfg.depth >= 256 && 1 <= maxSgl <= 19
    ensures Params(cfg, maxSgl).Valid()
  {
    hide IsDepth;
    if cfg.llq {
      DivMonotone(maxSgl, cfg.descsPerEntry * 64, cfg.descsPerEntry);
      DivModUnique(cfg.descsPerEntry * 64, cfg.descsPerEntry, 64, 0);
    }
  }

  // ---------------------------------------------------------------- progress

  /** The ring resumes from 21 free entries on, or the lines for 21 buffers and three more. */
  lemma {:induction false} ResumesFrom(p: Params, s: State)
    requires p.Valid()
    ensures Room(p, s, ENA_TX_RESUME_THRESH)
            <==> if p.cfg.llq then Free(p, s) >= 21 / p.cfg.descsPerEntry + 3 else Free(p, s) >= 21
  {
    hide IsDepth;
  }

  /** Every ring the driver accepts resumes at the latest when nothing is outstanding. */
  lemma {:induction false} EmptyRingResumes(cfg: SqConfig)
    requires cfg.Valid() && cfg.depth >= 256
    ensures EnoughSpace(cfg, cfg.depth - 1, ENA_TX_RESUME_THRESH)
    ensures cfg.depth - 1 >= if cfg.llq then 21 / cfg.descsPerEntry + 3 else 21
  {
    hide IsDepth;
    if cfg.llq {
      DivMonotone(ENA_TX_RESUME_THRESH, cfg.descsPerEntry * 64, cfg.descsPerEntry);
      DivModUnique(cfg.descsPerEntry * 64, cfg.descsPerEntry, 64, 0);
    }
  }

  /** The steps the cleaner has before it until it collects completions again. */
  function CleanerRank(pc: CleanerPc): nat {
    match pc
    case Cleaning => 0
    case Acked => 7
    case Tested(_) => 6
    case WantLock => 5
    case Locked => 4
    case LockedTested(_) => 3
    case SettingRunning => 2
    case Unlocking => 1
  }

  /** The ring is running, or what the cleaner has before it sets it running. */
  predicate WillRun(p: Params, s: State)
    requires p.Valid()
  {
    s.running || (CleanerInWindow(s) && Room(p, s, ENA_TX_RESUME_THRESH))
  }

  /** With the sender away, every step of the cleaner brings it nearer to the end and keeps what it will do. */
  lemma {:induction false} CleanerStepKeeps(p: Params, s: State)
    requires p.Valid() && s.sender == Away && Inv(p, s) && s.cleaner != Cleaning
    ensures StepCleaner(p, s).Some?
    ensures var t := StepCleaner(p, s).value;
            && t.sender == Away && t.outstanding == s.outstanding && CleanerRank(t.cleaner) < CleanerRank(s.cleaner)
            && (WillRun(p, t) <==> WillRun(p, s))
  {
    hide EnoughSpace, IsDepth;
  }

  /** The cleaner alone, with the sender away, until it collects completions again. */
  lemma {:induction false} CleanerFinishes(p: Params, s: State) returns (acts: seq<Action>)
    requires p.Valid() && s.sender == Away && Inv(p, s)
    ensures forall k :: 0 <= k < |acts| ==> acts[k] == CleanerStep
    ensures Run(p, s, acts).Some?
    ensures var t := Run(p, s, acts).value;
            && t.cleaner == Cleaning && t.sender == Away && t.outstanding == s.outstanding
            && (t.running <==> WillRun(p, s))
    decreases CleanerRank(s.cleaner)
  {
    hide EnoughSpace, IsDepth, Inv;
    if s.cleaner == Cleaning {
      acts := [];
    } else {
      CleanerStepKeeps(p, s);
      StepKeepsInv(p, s, CleanerStep);
      var t := Step(p, s, CleanerStep).value;
      var rest := CleanerFinishes(p, t);
      acts := [CleanerStep] + rest;
      assert acts[1..] == rest;
    }
  }

  lemma {:induction false} RunAppend(p: Params, s: State, a: seq<Action>, b: seq<Action>)
    requires p.Valid() && Run(p, s, a).Some?
    ensures Run(p, s, a + b) == Run(p, Run(p, s, a).value, b)
    decreases |a|
  {
    if a == [] {
      assert a + b == b;
    } else {
      RunAppend(p, Step(p, s, a[0]).value, a[1..], b);
      assert (a + b)[1..] == a[1..] + b;
    }
  }

  lemma {:induction false} RunOne(p: Params, s: State, a: Action)
    requires p.Valid()
    ensures Run(p, s, [a]) == Step(p, s, a)
  {
    assert [a][1..] == [];
  }

  /**
    A stopped ring with the sender away is woken by the cleaner alone: it finishes
    what it is doing, acknowledges everything outstanding, and looks again.
   */
  lemma {:induction false} CleanerWakes(p: Params, s: State) returns (acts: seq<Action>)
    requires p.Valid() && Inv(p, s) && s.sender == Away
    requires EnoughSpace(p.cfg, p.cfg.depth - 1, ENA_TX_RESUME_THRESH)
    ensures forall k :: 0 <= k < |acts| ==> acts[k] == CleanerStep || acts[k].Ack?
    ensures Run(p, s, acts).Some? && Run(p, s, acts).value.running && Run(p, s, acts).value.sender == Away
  {
    hide EnoughSpace, IsDepth, Run;
    var first := CleanerFinishes(p, s);
    RunKeepsInv(p, s, first);
    var t := Run(p, s, first).value;
    if t.running {
      acts := first;
    } else {
      var u := Step(p, t, Ack(t.outstanding)).value;
      StepKeepsInv(p, t, Ack(t.outstanding));
      var last := CleanerFinishes(p, u);
      RunOne(p, t, Ack(t.outstanding));
      RunAppend(p, t, [Ack(t.outstanding)], last);
      acts := first + ([Ack(t.outstanding)] + last);
      RunAppend(p, s, first, [Ack(t.outstanding)] + last);
    }
  }

  /** The steps the sender has before it until it can leave. */
  function SenderRank(pc: SenderPc): nat {
    match pc
    case Away => 0
    case Loop => 1
    case Sending => 1
    case Waking => 2
    case Rechecking => 3
    case Stopping => 4
    case Sent => 5
  }

  /** The sender can leave without sending another packet. */
  lemma {:induction false} SenderGoesAway(p: Params, s: State) returns (acts: seq<Action>)
    requires p.Valid() && Inv(p, s)
    ensures forall k :: 0 <= k < |acts| ==> acts[k] == SenderStep || acts[k] == SenderLeaves
    ensures Run(p, s, acts).Some? && Run(p, s, acts).value.sender == Away && Inv(p, Run(p, s, acts).value)
    decreases SenderRank(s.sender)
  {
    hide EnoughSpace, IsDepth;
    if s.sender == Away {
      acts := [];
    } else {
      var a := if s.sender == Loop || s.sender == Sending then SenderLeaves else SenderStep;
      StepKeepsInv(p, s, a);
      var rest := SenderGoesAway(p, Step(p, s, a).value);
      acts := [a] + rest;
      assert acts[1..] == rest;
    }
  }

  /** Where even an empty ring does not pass the test, a stopped ring stays stopped. */
  lemma {:induction false} StaysStopped(p: Params, s: State, acts: seq<Action>)
    requires p.Valid() && Inv(p, s) && !s.running && Run(p, s, acts).Some?
    requires !EnoughSpace(p.cfg, p.cfg.depth - 1, ENA_TX_RESUME_THRESH)
    ensures !Run(p, s, acts).value.running
    decreases |acts|
  {
    hide EnoughSpace, IsDepth;
    if acts != [] {
      StepKeepsInv(p, s, acts[0]);
      RoomMonotone(p, s, ENA_TX_RESUME_THRESH, START, ENA_TX_RESUME_THRESH);
      StaysStopped(p, Step(p, s, acts[0]).value, acts[1..]);
    }
  }

  /** Nothing is sent. */
  predicate Quiet(acts: seq<Action>) {
    forall k :: 0 <= k < |acts| ==> !acts[k].Send?
  }

  /**
    No deadlock: from every state of the protocol a stopped ring can be woken, by
    acknowledging and without sending, if and only if an empty ring passes the
    resume test.
   */
  lemma {:induction false} CanBeWokenIff(p: Params, s: State)
    requires p.Valid() && Inv(p, s) && !s.running
    ensures (exists acts: seq<Action> :: Run(p, s, acts).Some? && Run(p, s, acts).value.running && Quiet(acts))
            <==> EnoughSpace(p.cfg, p.cfg.depth - 1, ENA_TX_RESUME_THRESH)
  {
    hide EnoughSpace, IsDepth, Run;
    if EnoughSpace(p.cfg, p.cfg.depth - 1, ENA_TX_RESUME_THRESH) {
      var first := SenderGoesAway(p, s);
      var last := CleanerWakes(p, Run(p, s, first).value);
      RunAppend(p, s, first, last);
      assert Run(p, s, first + last).value.running && Quiet(first + last);
    } else {
      forall acts | Run(p, s, acts).Some? ensures !Run(p, s, acts).value.running {
        StaysStopped(p, s, acts);
      }
    }
  }

  /** In every run over a ring of an accepted size, a stopped ring can be woken without sending. */
  lemma {:induction false} ReachableStatesCanWake(p: Params, acts: seq<Action>) returns (more: seq<Action>)
    requires p.Valid() && p.cfg.depth >= 256 && Run(p, START, acts).Some?
    ensures Quiet(more)
    ensures Run(p, START, acts + more).Some? && Run(p, START, acts + more).value.running
  {
    hide EnoughSpace, IsDepth, Run;
    StartSatisfiesInv(p);
    RunKeepsInv(p, START, acts);
    EmptyRingResumes(p.cfg);
    var s := Run(p, START, acts).value;
    var first := SenderGoesAway(p, s);
    var last := CleanerWakes(p, Run(p, s, first).value);
    RunAppend(p, s, first, last);
    more := first + last;
    RunAppend(p, START, acts, more);
  }

  /** After a packet, the ring is stopped exactly when no packet of the largest size and two more would fit. */
  lemma {:induction false} StopsBelow(p: Params, s: State)
    requires p.Valid() && s.sender == Sent
    ensures var free, most := Free(p, s), p.maxSgl + 2;
            Step(p, s, SenderStep).value.sender == Stopping
            <==> if p.cfg.llq then free <= most / p.cfg.descsPerEntry + 2 else free < most
  {
    hide IsDepth;
  }

  lemma {:induction false} AwakePasses(p: Params, s: State, ctx: TxCtx, haveMeta: bool)
    requires p.Valid() && Inv(p, s) && s.sender == Sending
    requires !ctx.MetaOnly() && |ctx.bufs| + 1 <= p.maxSgl && SpaceCheckCovers(p.cfg, ctx, haveMeta)
    ensures PassesSpaceCheck(p.cfg, ctx, Free(p, s)) && 1 <= EntriesUsed(p.cfg, ctx, haveMeta) <= Free(p, s)
    ensures Room(p, s, |ctx.bufs| + 1)
  {
    hide EntriesUsed, EnoughSpace, IsDepth;
    RoomMonotone(p, s, p.maxSgl, s, |ctx.bufs| + 1);
    SpaceCheckSound(p.cfg, ctx, haveMeta, Free(p, s));
    EntriesUsedAnyId(p.cfg, ctx, haveMeta, ctx.reqId);
  }
}
