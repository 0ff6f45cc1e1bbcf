/**
  The transmit ring under the stop/wake protocol: `running` and the places of
  sender and cleaner, around the methods of the ring. Every step is a step of the
  protocol, with the outstanding entries of the submission queue for its count, or
  leaves the protocol's state alone.
 */
module TxFlow {
  import opened Words
  import opened TxWire
  import opened SqAccounting
  import SubmissionQueue
  import CompletionQueue
  import FlowControl
  import TxRing

  class Flow {
    const ring: TxRing.Ring
    /** Most buffers of a packet and its header descriptor. */
    const maxSgl: nat

    var running: bool
    var sender: FlowControl.SenderPc
    var cleaner: FlowControl.CleanerPc

    ghost function Params(): FlowControl.Params {
      FlowControl.Params(ring.sq.cfg, maxSgl)
    }

    /** The protocol's view of the ring. */
    ghost function Abs(): FlowControl.State
      requires ring.sq.acked <= ring.sq.submitted
      reads this, ring.sq`submitted, ring.sq`acked
    {
      FlowControl.State(ring.sq.submitted - ring.sq.acked, running, sender, cleaner)
    }

    /** A packet is attached only while it is prepared, and recorded before the next test. */
    ghost predicate Placed()
      reads this`sender, ring`sender
    {
      match ring.sender
      case Away => true
      case Attached(_) => sender == FlowControl.Sending
      case Submitted(_, _, _) => sender == FlowControl.Sent
    }

    ghost predicate Valid()
      reads this, ring.Footprint()
    {
      && ring.Valid() && Follows()
    }

    ghost predicate Follows()
      reads this, ring`sender, ring.sq`submitted, ring.sq`acked, ring.sq`rung
    {
      && Placed() && (sender == FlowControl.Away ==> ring.sq.rung == ring.sq.submitted)
      && Params().Valid() && ring.sq.acked <= ring.sq.submitted
      && FlowControl.Inv(Params(), Abs())
    }

    /** The last step made action `a` of the protocol, or none, from state `s`. */
    ghost predicate Made(s: FlowControl.State, a: Option<FlowControl.Action>)
      requires Params().Valid() && ring.sq.acked <= ring.sq.submitted
      reads this, ring.sq`submitted, ring.sq`acked
    {
      match a
      case None => Abs() == s
      case Some(act) => FlowControl.Step(Params(), s, act) == Some(Abs())
    }

    constructor (ring: TxRing.Ring, maxSgl: nat)
      requires ring.Valid() && ring.sender == TxRing.Away && ring.sq.submitted == ring.sq.acked == ring.sq.rung
      requires FlowControl.Params(ring.sq.cfg, maxSgl).Valid()
      ensures this.ring == ring && this.maxSgl == maxSgl && Valid() && Abs() == FlowControl.START
    {
      this.ring, this.maxSgl := ring, maxSgl;
      running, sender, cleaner := true, FlowControl.Away, FlowControl.Cleaning;
      new;
      hide TxRing.Ring.Valid, FlowControl.Inv;
      FlowControl.StartSatisfiesInv(Params());
    }

    lemma QueueFacts()
      requires ring.Valid()
      ensures ring.sq.Valid() && ring.sq.cfg.Valid() && ring.cq.Valid()
      ensures 0 <= ring.sq.submitted - ring.sq.acked <= ring.sq.cfg.depth - 1
      ensures this !in ring.Footprint()
    {
    }

    /** A step of the protocol keeps its invariant. */
    lemma KeepsInv(s: FlowControl.State, a: Option<FlowControl.Action>)
      requires Params().Valid() && FlowControl.Inv(Params(), s) && ring.sq.acked <= ring.sq.submitted
      requires Made(s, a)
      ensures FlowControl.Inv(Params(), Abs())
    {
      hide FlowControl.Inv, FlowControl.Step;
      if a.Some? {
        FlowControl.StepKeepsInv(Params(), s, a.value);
      }
    }

    /** The space check of the ring is the protocol's test. */
    method RoomFor(required: nat) returns (room: bool)
      requires ring.Valid() && Params().Valid() && ring.sq.acked <= ring.sq.submitted
      ensures room == FlowControl.Room(Params(), Abs(), required)
    {
      hide EnoughSpace, SubmissionQueue.IoSq.Valid;
      QueueFacts();
      room := ring.sq.HaveEnoughSpace(required);
    }

    // -------------------------------------------------------------- the sender

    /** What the sender makes of `running` and its own place next. */
    method SenderChoice() returns (run: bool, pc: FlowControl.SenderPc, ghost a: Option<FlowControl.Action>)
      requires ring.Valid() && Params().Valid() && ring.sq.acked <= ring.sq.submitted && sender != FlowControl.Sending
      ensures var s := Abs().(running := run, sender := pc);
              if a.None? then s == Abs() else FlowControl.Step(Params(), Abs(), a.value) == Some(s)
    {
      hide TxRing.Ring.Valid, FlowControl.Room, FlowControl.Params.Valid;
      run, pc, a := running, sender, Some(FlowControl.SenderStep);
      match sender {
        case Away =>
          if CleanerHoldsLock() {
            a := None;
          } else {
            pc := FlowControl.Loop;
          }
        case Loop =>
          if * {
            pc, a := FlowControl.Away, Some(FlowControl.SenderLeaves);
          } else {
            pc := if running then FlowControl.Sending else FlowControl.Away;
          }
        case Sent =>
          var room := RoomFor(maxSgl + 2);
          pc := if room then FlowControl.Loop else FlowControl.Stopping;
        case Stopping =>
          run, pc := false, FlowControl.Rechecking;
        case Rechecking =>
          var room := RoomFor(FlowControl.ENA_TX_RESUME_THRESH);
          pc := if room then FlowControl.Waking else FlowControl.Loop;
        case Waking =>
          run, pc := true, FlowControl.Loop;
      }
    }

    predicate CleanerHoldsLock()
      reads this`cleaner
    {
      FlowControl.CleanerHoldsLock(FlowControl.State(0, true, FlowControl.Away, cleaner))
    }

    /** The sender's accesses to `running` and its tests of the space. */
    method SenderAccess() returns (ghost a: Option<FlowControl.Action>)
      requires Valid() && ring.sender == TxRing.Away && sender != FlowControl.Sending
      modifies this`running, this`sender, ring`acumPkts, ring.sq`entriesInTxBurstLeft, ring.sq`rung
      ensures Valid() && Made(old(Abs()), a)
    {
      hide TxRing.Ring.Valid, FlowControl.Inv, FlowControl.Step, FlowControl.Params.Valid, EnoughSpace;
      hide SubmissionQueue.IoSq.Valid;
      QueueFacts();
      var run, pc;
      run, pc, a := SenderChoice();
      if pc == FlowControl.Away {
        ring.Announce();
      }
      running, sender := run, pc;
      KeepsInv(old(Abs()), a);
    }

    /** A packet within the segment limit, with a short enough header and entries for one burst. */
    predicate Fits(ctx: TxCtx)
      requires ring.sq.cfg.Valid()
      reads ring.sq
    {
      && ring.sq.MappedData(ctx) && |ctx.bufs| + 1 <= maxSgl
      && ctx.headerLen <= ring.sq.cfg.txMaxHeaderSize && ring.sq.FitsBurst(ctx)
    }

    /**
      While the sender is preparing a packet, whatever senders, cleaner and device
      did before, the submission queue takes every packet that fits: the space check
      never fails.
     */
    method SubmitPacket(ctx: TxCtx) returns (rc: Rc, ghost a: Option<FlowControl.Action>)
      requires Valid() && sender == FlowControl.Sending && ring.sender == TxRing.Attached(ctx.reqId)
      requires ring.sq.cfg.Valid() && ring.sq.MappedData(ctx) && |ctx.bufs| + 1 <= maxSgl
      requires ctx.headerLen <= ring.sq.cfg.txMaxHeaderSize && ring.sq.FitsBurst(ctx)
      modifies this`sender, ring`acumPkts, ring`sender, ring.sq, ring.sq.entries, ring.sq.bounceBuffers
      ensures rc == Ok && Valid() && Made(old(Abs()), a)
      ensures ring.sender.Submitted? && ring.sq.submitted == old(ring.sq.submitted) + old(ring.sq.Uses(ctx))
      ensures ring.sq.Carries(old(ring.sq.entries[..]), old(ring.sq.submitted), old(ring.sq.cachedMeta), ctx)
    {
      hide TxRing.Ring.Valid, FlowControl.Inv, EnoughSpace, SubmissionQueue.IoSq.Valid, SubmissionQueue.IoSq.Carries;
      hide EntriesUsed, SubmissionQueue.IoSq.FitsBurst, PacketChunks;
      QueueFacts();
      ghost var s, w := Abs(), ring.sq.Uses(ctx);
      FlowControl.AwakePasses(Params(), s, ctx, SendsMeta(ring.sq.cfg, ring.sq.cachedMeta, ctx));
      rc := ring.SubmitAttached(ctx, false);
      QueueFacts();
      sender := FlowControl.Sent;
      a := Some(FlowControl.Send(|ctx.bufs|, w));
      KeepsInv(s, a);
    }

    /** The packet could not be mapped. */
    method GiveUp() returns (ghost a: Option<FlowControl.Action>)
      requires Valid() && sender == FlowControl.Sending && ring.sender.Attached?
      modifies this`sender, ring`sender, ring.txBufferInfo, ring`acumPkts, ring.sq`entriesInTxBurstLeft, ring.sq`rung
      ensures Valid() && Made(old(Abs()), a)
    {
      hide TxRing.Ring.Valid, FlowControl.Inv, EnoughSpace;
      QueueFacts();
      ring.Detach(false);
      ring.Announce();
      sender := FlowControl.Away;
      a := Some(FlowControl.SenderLeaves);
      KeepsInv(old(Abs()), a);
    }

    /** The next step of the sender. */
    method SenderTurn() returns (ghost a: Option<FlowControl.Action>)
      requires Valid()
      modifies this`running, this`sender, ring`nextToUse, ring`acumPkts, ring`sends, ring`held, ring`sender
      modifies ring.txBufferInfo, ring.sq, ring.sq.entries, ring.sq.bounceBuffers
      ensures Valid() && Made(old(Abs()), a)
    {
      hide TxRing.Ring.Valid, FlowControl.Inv, EnoughSpace, SubmissionQueue.IoSq.Valid, SubmissionQueue.IoSq.Carries;
      hide EntriesUsed, SubmissionQueue.IoSq.FitsBurst, SubmissionQueue.IoSq.MappedData;
      QueueFacts();
      a := None;
      match ring.sender
      case Submitted(_, _, _) =>
        ring.RecordSent();
      case Attached(id) =>
        var packet: TxCtx := *;
        var ctx := packet.(reqId := id);
        if Fits(ctx) {
          var rc;
          rc, a := SubmitPacket(ctx);
        } else {
          a := GiveUp();
        }
      case Away =>
        if sender == FlowControl.Sending {
          var _ := ring.Attach();
        } else {
          a := SenderAccess();
        }
    }

    // -------------------------------------------------------------- the cleaner

    /** What the cleaner makes of `running` and its own place next. */
    method CleanerChoice() returns (run: bool, pc: FlowControl.CleanerPc, ghost a: Option<FlowControl.Action>)
      requires ring.Valid() && Params().Valid() && ring.sq.acked <= ring.sq.submitted && cleaner != FlowControl.Cleaning
      ensures var s := Abs().(running := run, cleaner := pc);
              if a.None? then s == Abs() else FlowControl.Step(Params(), Abs(), a.value) == Some(s)
      ensures a == if cleaner == FlowControl.WantLock && sender != FlowControl.Away then None
                   else Some(FlowControl.CleanerStep)
    {
      hide TxRing.Ring.Valid, FlowControl.Room, FlowControl.Params.Valid;
      run, pc, a := running, cleaner, Some(FlowControl.CleanerStep);
      match cleaner {
        case Acked =>
          var above := RoomFor(FlowControl.ENA_TX_RESUME_THRESH);
          pc := FlowControl.Tested(above);
        case Tested(above) =>
          pc := if !running && above then FlowControl.WantLock else FlowControl.Cleaning;
        case WantLock =>
          if sender != FlowControl.Away {
            a := None;
          } else {
            pc := FlowControl.Locked;
          }
        case Locked =>
          var above := RoomFor(FlowControl.ENA_TX_RESUME_THRESH);
          pc := FlowControl.LockedTested(above);
        case LockedTested(above) =>
          pc := if !running && above then FlowControl.SettingRunning else FlowControl.Unlocking;
        case SettingRunning =>
          run, pc := true, FlowControl.Unlocking;
        case Unlocking =>
          pc := FlowControl.Cleaning;
      }
    }

    /** The cleaner's accesses to `running`, its tests of the space and its lock. */
    method CleanerAccess() returns (ghost a: Option<FlowControl.Action>)
      requires Valid() && cleaner != FlowControl.Cleaning
      modifies this`running, this`cleaner
      ensures Valid() && Made(old(Abs()), a)
      ensures a == if old(cleaner) == FlowControl.WantLock && sender != FlowControl.Away then None
                   else Some(FlowControl.CleanerStep)
    {
      hide TxRing.Ring.Valid, FlowControl.Inv, FlowControl.Step, FlowControl.Params.Valid;
      QueueFacts();
      var run, pc;
      run, pc, a := CleanerChoice();
      running, cleaner := run, pc;
      KeepsInv(old(Abs()), a);
    }

    /** Acknowledging what was cleaned. */
    method Acknowledge() returns (ghost a: Option<FlowControl.Action>)
      requires Valid() && cleaner in {FlowControl.Cleaning, FlowControl.Acked}
      modifies this`cleaner, ring`nextToClean, ring`totalDone, ring`unacked, ring.sq`nextToComp, ring.sq`acked
      ensures Valid() && Made(old(Abs()), a)
      ensures cleaner == FlowControl.Acked
      ensures ring.sq.acked == old(ring.sq.acked) + old(ring.unacked) && ring.unacked == 0
    {
      hide TxRing.Ring.Valid, FlowControl.Inv, EnoughSpace;
      QueueFacts();
      ghost var s, n := Abs(), ring.unacked;
      ring.Commit();
      QueueFacts();
      cleaner := FlowControl.Acked;
      a := Some(FlowControl.Ack(n));
      KeepsInv(s, a);
    }

    /** The completion read last names the id of the packet that is being sent. */
    ghost predicate Strayed()
      reads ring`sender, ring.cq`log, ring.cq`read
    {
      0 < ring.cq.read <= |ring.cq.log| && ring.sender.Names(ring.cq.log[ring.cq.read - 1].reqId)
    }

    /** The next step of the cleaner; `stray` when it takes a completion of the id being sent. */
    method CleanerTurn() returns (stray: bool, ghost a: Option<FlowControl.Action>)
      requires Valid()
      modifies this`running, this`cleaner, ring`cleanIdx, ring`totalDone, ring`cleans, ring`held, ring`unacked
      modifies ring`place, ring`resetTriggered, ring`nextToClean, ring.freeTxIds, ring.txBufferInfo
      modifies ring.sq`nextToComp, ring.sq`acked, ring.cq`head, ring.cq`phase, ring.cq`read, ring.cq`start
      ensures if stray then Strayed() else Valid() && Made(old(Abs()), a)
    {
      hide TxRing.Ring.Valid, FlowControl.Inv, EnoughSpace, TxRing.Ring.Strayed, TxRing.Ring.Conserved;
      QueueFacts();
      stray, a := false, None;
      if cleaner in {FlowControl.Cleaning, FlowControl.Acked} {
        if * {
          a := Acknowledge();
          return;
        } else if * {
          var more;
          more, stray := ring.CleanOne();
          return;
        }
      }
      if cleaner != FlowControl.Cleaning {
        a := CleanerAccess();
      }
    }

    // -------------------------------------------------------------- progress

    /** The cleaner's steps with the sender away, until it collects completions again. */
    method CleanerGoesOn()
      requires Valid() && sender == FlowControl.Away
      modifies this`running, this`cleaner
      ensures Valid() && cleaner == FlowControl.Cleaning
      ensures running <==> old(FlowControl.WillRun(Params(), Abs()))
    {
      hide TxRing.Ring.Valid, FlowControl.Inv, FlowControl.Params.Valid, FlowControl.Room, FlowControl.StepCleaner;
      while cleaner != FlowControl.Cleaning
        invariant Valid()
        invariant FlowControl.WillRun(Params(), Abs()) <==> old(FlowControl.WillRun(Params(), Abs()))
        decreases FlowControl.CleanerRank(cleaner)
      {
        FlowControl.CleanerStepKeeps(Params(), Abs());
        var _ := CleanerAccess();
      }
    }

    /** The cleaner acknowledges what it has collected and goes on: the ring wakes from 21 free entries on. */
    method AcknowledgeAndLook()
      requires Valid() && sender == FlowControl.Away && cleaner in {FlowControl.Cleaning, FlowControl.Acked}
      modifies this`running, this`cleaner
      modifies ring`nextToClean, ring`totalDone, ring`unacked, ring.sq`nextToComp, ring.sq`acked
      ensures Valid() && cleaner == FlowControl.Cleaning
      ensures ring.sq.acked == old(ring.sq.acked) + old(ring.unacked) && ring.unacked == 0
      ensures var free := ring.sq.Free();
              running <==> old(running)
                           || (if ring.sq.cfg.llq then free >= 21 / ring.sq.cfg.descsPerEntry + 3 else free >= 21)
    {
      hide TxRing.Ring.Valid, FlowControl.Inv, FlowControl.Room, FlowControl.Params.Valid, SubmissionQueue.IoSq.Valid;
      var _ := Acknowledge();
      FlowControl.ResumesFrom(Params(), Abs());
      CleanerGoesOn();
    }

    /**
      No deadlock: between packets, with the completion queue read, a ring of an
      accepted size is running again once the device completes what is in flight
      and the cleaner has collected and acknowledged it.
     */
    method Wake()
      requires Valid() && sender == FlowControl.Away && ring.sq.cfg.depth >= 256
      requires ring.cq.read == |ring.cq.log|
      modifies this`running, this`cleaner, ring.Footprint()
      ensures Valid() && running && ring.sq.acked == ring.sq.submitted == old(ring.sq.submitted)
      ensures ring.cleans == ring.sends == old(ring.sends) && ring.resetTriggered == old(ring.resetTriggered)
    {
      hide TxRing.Ring.Valid, FlowControl.Inv, FlowControl.Room, FlowControl.Params.Valid, SubmissionQueue.IoSq.Valid;
      hide EnoughSpace, FlowControl.WillRun;
      QueueFacts();
      FlowControl.EmptyRingResumes(ring.sq.cfg);
      CleanerGoesOn();
      ring.CompleteAll();
      AcknowledgeAndLook();
    }

    // -------------------------------------------------------------- runs

    /** One step of sender, cleaner or device. */
    method Turn() returns (stray: bool, ghost a: Option<FlowControl.Action>)
      requires Valid()
      modifies this, ring.Footprint()
      ensures if stray then Strayed() else Valid() && Made(old(Abs()), a)
    {
      hide TxRing.Ring.Valid, FlowControl.Inv, EnoughSpace;
      stray, a := false, None;
      if * {
        a := SenderTurn();
      } else if * {
        stray, a := CleanerTurn();
      } else {
        Device();
      }
    }

    method Device()
      requires Valid()
      modifies ring.cq`log, ring.cq.ring
      ensures Valid()
    {
      hide TxRing.Ring.Booked, FlowControl.Inv, EnoughSpace, SubmissionQueue.IoSq.Valid, CompletionQueue.IoCq.Valid;
      ring.cq.DeviceRuns();
    }

    /**
      Every run of sender, cleaner and device over the ring is a run of the
      protocol, up to a completion of the id being sent. So no wake-up is lost, an
      awake ring has room, and without a sender the device knows of every packet.
     */
    method AnyRun() returns (stray: bool, ghost acts: seq<FlowControl.Action>)
      requires Valid()
      modifies this, ring.Footprint()
      ensures stray ==> Strayed()
      ensures !stray ==>
                && Valid() && FlowControl.Run(Params(), old(Abs()), acts) == Some(Abs())
                && FlowControl.NoLostWakeup(Params(), Abs()) && FlowControl.AwakeMeansRoom(Params(), Abs())
                && (sender == FlowControl.Away ==> ring.sq.rung == ring.sq.submitted)
    {
      hide TxRing.Ring.Valid, EnoughSpace, FlowControl.Step, FlowControl.NoLostWakeup, FlowControl.AwakeMeansRoom;
      stray, acts := false, [];
      var steps: nat := *;
      while steps > 0
        invariant Valid() && FlowControl.Run(Params(), old(Abs()), acts) == Some(Abs())
      {
        ghost var s, a := Abs(), None;
        stray, a := Turn();
        if stray {
          return;
        }
        if a.Some? {
          FlowControl.RunLast(Params(), old(Abs()), acts, a.value);
          acts := acts + [a.value];
        }
        steps := steps - 1;
      }
    }
  }
}
