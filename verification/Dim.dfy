/**
  Dynamic interrupt moderation: a search over five moderation profiles that is
  driven by comparing statistics of successive measurements.
 */
module Dim {
  import opened Words

  const NET_DIM_PARAMS_NUM_PROFILES: nat := 5
  const DIM_NEVENTS: nat := 64
  const USEC_PER_MSEC: nat := 1000

  datatype TuneState = ParkingOnTop | ParkingTired | GoingRight | GoingLeft

  datatype StatsResult = Worse | Same | Better

  datatype StepResult = Stepped | TooTired | OnEdge

  datatype MeasureState = StartMeasure | MeasureInProgress | ApplyNewProfile

  /** The C type of the statistics. */
  type Int = x: int | -0x8000_0000 <= x < 0x8000_0000

  datatype Stats = Stats(ppms: Int, bpms: Int, epms: Int)

  datatype Sample = Sample(timeUs: int, pktCtr: nat, byteCtr: nat, eventCtr: nat)

  const ZERO_SAMPLE := Sample(0, 0, 0, 0)

  /** The tuning part of `struct dim`. */
  datatype Tuning = Tuning(tune: TuneState, profileIx: nat, stepsRight: nat, stepsLeft: nat, tired: nat)

  const ZERO_TUNING := Tuning(ParkingOnTop, 0, 0, 0, 0)

  const MAX_TIRED: nat := NET_DIM_PARAMS_NUM_PROFILES * 2

  // ---------------------------------------------------------------- statistics

  /** `IS_SIGNIFICANT_DIFF`: in unsigned arithmetic, so a negative reference is huge. */
  predicate IsSignificantDiff(val: Int, ref: Int)
    requires ref != 0
  {
    var diff := if val >= ref then val - ref else ref - val;
    var unsignedRef := if ref > 0 then ref else 0x1_0000_0000_0000_0000 + ref;
    100 * diff / unsignedRef > 10
  }

  lemma QuotientAbove(n: nat, ref: nat)
    requires ref > 0
    ensures n / ref > 10 <==> n >= 11 * ref
  {
    var c, r := n / ref, n % ref;
    MulBounds(ref, c - 11);
    assert ref * (c - 11) == ref * c - 11 * ref;
    assert n == ref * c + r;
  }

  /** At least eleven percent more, or less, than a positive reference. */
  predicate MuchMore(val: Int, ref: Int) {
    ref > 0 && 100 * (val - ref) >= 11 * ref
  }

  predicate MuchLess(val: Int, ref: Int) {
    ref > 0 && 100 * (ref - val) >= 11 * ref
  }

  /** The difference must reach eleven percent of a positive reference; of a negative one, none does. */
  lemma {:induction false} SignificantIff(val: Int, ref: Int)
    requires ref != 0
    ensures IsSignificantDiff(val, ref) <==> MuchMore(val, ref) || MuchLess(val, ref)
  {
    var diff := if val >= ref then val - ref else ref - val;
    QuotientAbove(100 * diff, if ref > 0 then ref else 0x1_0000_0000_0000_0000 + ref);
  }

  function StatsCompare(curr: Stats, prev: Stats): StatsResult {
    if prev.bpms == 0 then (if curr.bpms != 0 then Better else Same)
    else if IsSignificantDiff(curr.bpms, prev.bpms) then (if curr.bpms > prev.bpms then Better else Worse)
    else if prev.ppms == 0 then (if curr.ppms != 0 then Better else Same)
    else if IsSignificantDiff(curr.ppms, prev.ppms) then (if curr.ppms > prev.ppms then Better else Worse)
    else if prev.epms == 0 then Same
    else if IsSignificantDiff(curr.epms, prev.epms) then (if curr.epms < prev.epms then Better else Worse)
    else Same
  }

  /** A rate that was zero and is not, or is eleven percent higher. */
  predicate Grew(val: Int, ref: Int) {
    if ref == 0 then val != 0 else MuchMore(val, ref)
  }

  /** A rate that was not zero and is within eleven percent. */
  predicate Level(val: Int, ref: Int) {
    ref != 0 && !MuchMore(val, ref) && !MuchLess(val, ref)
  }

  /**
    More bytes are better; with level bytes more packets are; with level bytes and
    packets fewer events are.
   */
  predicate IsBetter(curr: Stats, prev: Stats) {
    || Grew(curr.bpms, prev.bpms)
    || (Level(curr.bpms, prev.bpms)
        && (Grew(curr.ppms, prev.ppms) || (Level(curr.ppms, prev.ppms) && MuchLess(curr.epms, prev.epms))))
  }

  predicate IsWorse(curr: Stats, prev: Stats) {
    || MuchLess(curr.bpms, prev.bpms)
    || (Level(curr.bpms, prev.bpms)
        && (MuchLess(curr.ppms, prev.ppms) || (Level(curr.ppms, prev.ppms) && MuchMore(curr.epms, prev.epms))))
  }

  /** The first of bytes, packets and events that differs by eleven percent decides; so nothing is both. */
  lemma {:induction false} FirstDifferenceDecides(curr: Stats, prev: Stats)
    ensures StatsCompare(curr, prev) == Better <==> IsBetter(curr, prev)
    ensures StatsCompare(curr, prev) == Worse <==> IsWorse(curr, prev)
  {
    hide IsSignificantDiff;
    if prev.bpms != 0 {
      SignificantIff(curr.bpms, prev.bpms);
    }
    if prev.ppms != 0 {
      SignificantIff(curr.ppms, prev.ppms);
    }
    if prev.epms != 0 {
      SignificantIff(curr.epms, prev.epms);
    }
  }

  /**
    The comparison is not antisymmetric: of two measurements each can be better
    than the other. Eleven percent up is less than eleven percent down, and then
    the packets decide.
   */
  lemma EachBetterThanTheOther()
    ensures StatsCompare(Stats(1, 111, 1), Stats(9, 100, 1)) == Better
    ensures StatsCompare(Stats(9, 100, 1), Stats(1, 111, 1)) == Better
  {
  }

  /** The gap between two readings of a counter of the given modulus. */
  function BitGap(modulus: nat, end: nat, start: nat): nat
    requires modulus > 0
  {
    (end - start + modulus) % modulus
  }

  /** The gap of a 16-bit or 32-bit counter is the number of events, up to a full lap. */
  lemma BitGapCountsEvents(modulus: nat, start: nat, n: nat)
    requires modulus == U16 || modulus == U32
    ensures BitGap(modulus, (start + n) % modulus, start % modulus) == n % modulus
  {
    if modulus == U16 {
      CounterDifference(start + n, start);
    }
  }

  // ---------------------------------------------------------------- the search

  predicate OnTop(d: Tuning) {
    match d.tune
    case ParkingOnTop => true
    case ParkingTired => true
    case GoingRight => d.stepsLeft > 1 && d.stepsRight == 1
    case GoingLeft => d.stepsRight > 1 && d.stepsLeft == 1
  }

  function Turned(d: Tuning): Tuning {
    match d.tune
    case GoingRight => d.(tune := GoingLeft, stepsLeft := 0)
    case GoingLeft => d.(tune := GoingRight, stepsRight := 0)
    case _ => d
  }

  function ParkedOnTop(d: Tuning): Tuning {
    Tuning(ParkingOnTop, d.profileIx, 0, 0, 0)
  }

  function ParkedTired(d: Tuning): Tuning {
    Tuning(ParkingTired, d.profileIx, 0, 0, d.tired)
  }

  /** One step of the search: what stopped it, or the state one profile further. */
  function StepOf(d: Tuning): (StepResult, Tuning) {
    if d.tired == MAX_TIRED then (TooTired, d)
    else match d.tune
      case GoingRight =>
        if d.profileIx == NET_DIM_PARAMS_NUM_PROFILES - 1 then (OnEdge, d)
        else (Stepped, d.(profileIx := d.profileIx + 1, stepsRight := d.stepsRight + 1, tired := d.tired + 1))
      case GoingLeft =>
        if d.profileIx == 0 then (OnEdge, d)
        else (Stepped, d.(profileIx := d.profileIx - 1, stepsLeft := d.stepsLeft + 1, tired := d.tired + 1))
      case _ => (Stepped, d.(tired := d.tired + 1))
  }

  function ExitedParking(d: Tuning): Tuning {
    StepOf(d.(tune := if d.profileIx != 0 then GoingLeft else GoingRight)).1
  }

  /** The search goes on: turn unless things got better, then park or step. */
  function Moved(d: Tuning, res: StatsResult): Tuning {
    var t := if res != Better then Turned(d) else d;
    if OnTop(t) then ParkedOnTop(t)
    else match StepOf(t)
      case (Stepped, n) => n
      case (TooTired, n) => ParkedTired(n)
      case (OnEdge, n) => ParkedOnTop(n)
  }

  function Decided(d: Tuning, res: StatsResult): Tuning
    requires d.tune == ParkingTired ==> d.tired > 0
  {
    match d.tune
    case ParkingOnTop => if res != Same then ExitedParking(d) else d
    case ParkingTired =>
      var t := d.(tired := d.tired - 1);
      if t.tired == 0 then ExitedParking(t) else t
    case _ => Moved(d, res)
  }

  /** One decision of a moving search, by one profile or into parking. */
  ghost predicate Goes(d: Tuning, n: Tuning, better: bool) {
    var right := (d.tune == GoingRight) == better;
    var top := better && if right then d.stepsLeft > 1 && d.stepsRight == 1 else d.stepsRight > 1 && d.stepsLeft == 1;
    if top then n == Tuning(ParkingOnTop, d.profileIx, 0, 0, 0)
    else if d.tired == 10 then n == Tuning(ParkingTired, d.profileIx, 0, 0, 10)
    else if d.profileIx == (if right then 4 else 0) then n == Tuning(ParkingOnTop, d.profileIx, 0, 0, 0)
    else
      && n.tune == (if right then GoingRight else GoingLeft) && n.tired == d.tired + 1
      && n.profileIx == (if right then d.profileIx + 1 else d.profileIx - 1)
      && var before := if n.tune != d.tune then 0 else if right then d.stepsRight else d.stepsLeft;
      if right then n.stepsRight == before + 1 && n.stepsLeft == d.stepsLeft
      else n.stepsLeft == before + 1 && n.stepsRight == d.stepsRight
  }

  /** A parked search leaves: to the left, but at profile 0 to the right. */
  ghost predicate Leaves(d: Tuning, n: Tuning) {
    n == if d.profileIx == 0 then Tuning(GoingRight, 1, 1, 0, 1) else Tuning(GoingLeft, d.profileIx - 1, 0, 1, 1)
  }

  /**
    What a search makes of the statistics. Moving, it goes on in its direction
    exactly when they got better and turns otherwise, by one profile; it parks only
    at the end of the table, after ten steps, or when it comes back to a top and
    things got better once more. Parked on top, it leaves exactly when they are not
    the same, to the left but at profile 0.
   */
  ghost predicate Heeds(d: Tuning, n: Tuning, curr: Stats, prev: Stats) {
    match d.tune
    case ParkingOnTop => if IsBetter(curr, prev) || IsWorse(curr, prev) then Leaves(d, n) else n == d
    case ParkingTired => if d.tired <= 1 then Leaves(d, n) else n == d.(tired := d.tired - 1)
    case _ => Goes(d, n, IsBetter(curr, prev))
  }

  lemma MoveGoes(d: Tuning, res: StatsResult)
    requires Safe(d) && !Parked(d)
    ensures Goes(d, Moved(d, res), res == Better)
  {
  }

  lemma ExitLeaves(d: Tuning)
    requires Safe(d) && Parked(d)
    ensures Leaves(d, ExitedParking(d.(tired := 0)))
  {
  }

  /** Every decision heeds the statistics in this way. */
  lemma {:induction false} DecisionHeeds(d: Tuning, curr: Stats, prev: Stats)
    requires Safe(d)
    ensures Heeds(d, Decided(d, StatsCompare(curr, prev)), curr, prev)
  {
    hide StatsCompare, IsBetter, IsWorse, Goes, Leaves, Moved, ExitedParking;
    FirstDifferenceDecides(curr, prev);
    if Parked(d) {
      ExitLeaves(d);
    } else {
      MoveGoes(d, StatsCompare(curr, prev));
    }
  }

  predicate Parked(d: Tuning) {
    d.tune == ParkingOnTop || d.tune == ParkingTired
  }

  /** Safety: table index, tiredness and both step counters stay in range, and parking states have no steps. */
  predicate Safe(d: Tuning) {
    && d.profileIx < NET_DIM_PARAMS_NUM_PROFILES && d.tired <= MAX_TIRED
    && d.stepsRight < NET_DIM_PARAMS_NUM_PROFILES && d.stepsLeft < NET_DIM_PARAMS_NUM_PROFILES
    && match d.tune
       case ParkingOnTop => d.stepsRight == d.stepsLeft == d.tired == 0
       case ParkingTired => d.stepsRight == d.stepsLeft == 0 && d.tired > 0
       case GoingRight => d.stepsRight <= d.profileIx && d.tired > 0
       case GoingLeft => d.stepsLeft <= NET_DIM_PARAMS_NUM_PROFILES - 1 - d.profileIx && d.tired > 0
  }

  lemma StepIsSafe(d: Tuning)
    requires Safe(d) && !Parked(d)
    ensures var (r, n) := StepOf(d);
            && (r == Stepped ==> Safe(n) && n.tune == d.tune && n.tired == d.tired + 1
                                 && (n.profileIx == d.profileIx + 1 || n.profileIx == d.profileIx - 1))
            && (r != Stepped ==> n == d) && (r == TooTired <==> d.tired == MAX_TIRED)
  {
  }

  lemma ExitIsSafe(d: Tuning)
    requires d.profileIx < NET_DIM_PARAMS_NUM_PROFILES && d.stepsRight == d.stepsLeft == d.tired == 0
    ensures var n := ExitedParking(d);
            Safe(n) && !Parked(n) && (n.profileIx == d.profileIx + 1 || n.profileIx == d.profileIx - 1)
  {
  }

  lemma TurnIsSafe(d: Tuning)
    requires Safe(d) && !Parked(d)
    ensures Safe(Turned(d)) && !Parked(Turned(d)) && Turned(d).profileIx == d.profileIx && Turned(d).tired == d.tired
  {
  }

  lemma MoveIsSafe(d: Tuning, res: StatsResult)
    requires Safe(d) && !Parked(d)
    ensures var n := Moved(d, res);
            && Safe(n) && -1 <= n.profileIx - d.profileIx <= 1
            && (if Parked(n) then n.profileIx == d.profileIx else n.tired == d.tired + 1)
            && (n.tune == ParkingTired ==> n.tired == d.tired == MAX_TIRED)
  {
    hide StepOf, Turned, OnTop;
    TurnIsSafe(d);
    StepIsSafe(if res != Better then Turned(d) else d);
  }

  /** A decision keeps all that and moves the profile by at most one. */
  lemma {:induction false} DecisionIsSafe(d: Tuning, res: StatsResult)
    requires Safe(d)
    ensures Safe(Decided(d, res)) && -1 <= Decided(d, res).profileIx - d.profileIx <= 1
  {
    hide ExitedParking, Moved;
    if !Parked(d) {
      MoveIsSafe(d, res);
    } else {
      ExitIsSafe(d.(tired := 0));
    }
  }

  /** The states that a sequence of comparisons leads through, one per decision. */
  function Trace(d: Tuning, results: seq<StatsResult>): (t: seq<Tuning>)
    requires Safe(d)
    ensures |t| == |results|
    decreases |results|
  {
    if results == [] then []
    else
      DecisionIsSafe(d, results[0]);
      var n := Decided(d, results[0]);
      [n] + Trace(n, results[1..])
  }

  lemma {:induction false} TraceIsSafe(d: Tuning, results: seq<StatsResult>, k: nat)
    requires Safe(d) && k < |results|
    ensures Safe(Trace(d, results)[k])
    ensures var before := if k == 0 then d else Trace(d, results)[k - 1];
            -1 <= Trace(d, results)[k].profileIx - before.profileIx <= 1
    decreases |results|
  {
    DecisionIsSafe(d, results[0]);
    if k > 0 {
      TraceIsSafe(Decided(d, results[0]), results[1..], k - 1);
    }
  }

  /** From the zeroed state and for all statistics, every state of the search is safe. */
  lemma {:induction false} AlwaysSafe(results: seq<StatsResult>, k: nat)
    requires k < |results|
    ensures var d := Trace(ZERO_TUNING, results)[k];
            Safe(d) && d.profileIx < 5 && d.tired <= 10 && d.stepsRight < 5 && d.stepsLeft < 5
  {
    TraceIsSafe(ZERO_TUNING, results, k);
  }

  /** A moving search that is `tired` parks within 11 - tired decisions, whatever the statistics say. */
  lemma {:induction false} MovingSearchParks(d: Tuning, results: seq<StatsResult>) returns (k: nat)
    requires Safe(d) && !Parked(d) && |results| == MAX_TIRED + 1 - d.tired
    ensures k < |results| && Parked(Trace(d, results)[k])
    decreases |results|
  {
    hide Moved;
    DecisionIsSafe(d, results[0]);
    MoveIsSafe(d, results[0]);
    var n := Decided(d, results[0]);
    if Parked(n) {
      k := 0;
    } else {
      k := MovingSearchParks(n, results[1..]);
      k := k + 1;
    }
  }

  /** A search parks tired with tiredness ten. */
  lemma {:induction false} ParksTiredAtTheMaximum(d: Tuning, res: StatsResult)
    requires Safe(d) && !Parked(d) && Decided(d, res).tune == ParkingTired
    ensures Decided(d, res).tired == d.tired == MAX_TIRED && Decided(d, res).profileIx == d.profileIx
  {
    hide Moved;
    MoveIsSafe(d, res);
  }

  /**
    Tired parking runs down one per decision and does not look at the statistics;
    the search moves again with the very decision that reaches zero.
   */
  lemma {:induction false} TiredParkingRunsDown(d: Tuning, results: seq<StatsResult>, k: nat)
    requires Safe(d) && d.tune == ParkingTired && k < |results| && k < d.tired
    ensures k + 1 < d.tired ==> Trace(d, results)[k] == d.(tired := d.tired - k - 1)
    ensures k + 1 == d.tired ==> !Parked(Trace(d, results)[k]) && Trace(d, results)[k].profileIx != d.profileIx
    decreases |results|
  {
    hide ExitedParking;
    ExitIsSafe(d.(tired := 0));
    DecisionIsSafe(d, results[0]);
    if k > 0 {
      TiredParkingRunsDown(Decided(d, results[0]), results[1..], k - 1);
    }
  }

  // ---------------------------------------------------------------- the object

  /** Conversion to a signed 32-bit integer. */
  function ToInt32(n: nat): int {
    var low := n % U32;
    if low < 0x8000_0000 then low else low - U32
  }

  /** A rate per millisecond, rounded up. */
  function Rate(count: nat, deltaUs: nat): int
    requires deltaUs > 0
  {
    ToInt32(DivRoundUp(count * USEC_PER_MSEC, deltaUs))
  }

  /** The 32-bit measure of the time between two samples. */
  function DeltaUs(start: Sample, end: Sample): nat {
    (end.timeUs - start.timeUs) % U32
  }

  /** `dim_calc_stats`: with no time between the samples, whatever was in the record stays there. */
  function CalcStats(start: Sample, end: Sample, uninitialised: Stats): Stats {
    var deltaUs := DeltaUs(start, end);
    if deltaUs == 0 then uninitialised
    else Stats(Rate(BitGap(U32, end.pktCtr, start.pktCtr), deltaUs),
               Rate(BitGap(U32, end.byteCtr, start.byteCtr), deltaUs),
               Rate(DIM_NEVENTS, deltaUs))
  }

  /** The least whole number per millisecond that covers the count. */
  ghost predicate IsRate(r: int, count: nat, us: nat) {
    0 <= r && 1000 * count <= us * r && (r > 0 ==> us * (r - 1) < 1000 * count)
  }

  lemma RoundUpCovers(n: nat, d: nat)
    requires d > 0
    ensures var c := DivRoundUp(n, d);
            0 <= c && n <= d * c && (c > 0 ==> d * (c - 1) < n)
  {
    var m := n + d - 1;
    DivMod(m, d);
    assert d * (m / d - 1) == d * (m / d) - d;
  }

  lemma FactorAbove(d: nat, x: nat, y: nat)
    ensures d * (y - 1) < d * x ==> y <= x
  {
    MulBounds(d, y - 1 - x);
    assert d * (y - 1 - x) == d * (y - 1) - d * x;
  }

  /** While it fits a signed 32-bit number, a rate is the least whole number that covers the count. */
  lemma {:induction false} RateIsLeast(count: nat, deltaUs: nat)
    requires deltaUs > 0 && 1000 * count <= deltaUs * 0x7FFF_FFFF
    ensures IsRate(Rate(count, deltaUs), count, deltaUs)
  {
    var c := DivRoundUp(1000 * count, deltaUs);
    RoundUpCovers(1000 * count, deltaUs);
    FactorAbove(deltaUs, 0x7FFF_FFFF, c);
  }

  lemma GapOfReadings(start: nat, n: nat)
    requires start < U32 && n < U32
    ensures BitGap(U32, (start + n) % U32, start) == n
  {
    hide BitGap;
    BitGapCountsEvents(U32, start, n);
  }

  lemma DeltaOfTimes(start: Sample, us: nat, pktCtr: nat, byteCtr: nat, eventCtr: nat)
    requires us < U32
    ensures DeltaUs(start, Sample(start.timeUs + us, pktCtr, byteCtr, eventCtr)) == us
  {
  }

  /** Packets, bytes and the 64 events of a measurement go each into their own rate, over any wrap of the counters. */
  lemma {:induction false} StatsAreRates(start: Sample, packets: nat, bytes: nat, us: nat, eventCtr: nat, u: Stats)
    requires start.pktCtr < U32 && start.byteCtr < U32 && packets < U32 && bytes < U32 && 0 < us < U32
    requires 1000 * packets <= us * 0x7FFF_FFFF && 1000 * bytes <= us * 0x7FFF_FFFF
    ensures var pktCtr, byteCtr := (start.pktCtr + packets) % U32, (start.byteCtr + bytes) % U32;
            var s := CalcStats(start, Sample(start.timeUs + us, pktCtr, byteCtr, eventCtr), u);
            IsRate(s.ppms, packets, us) && IsRate(s.bpms, bytes, us) && IsRate(s.epms, 64, us)
  {
    hide Rate, BitGap, IsRate, DeltaUs;
    GapOfReadings(start.pktCtr, packets);
    GapOfReadings(start.byteCtr, bytes);
    DeltaOfTimes(start, us, (start.pktCtr + packets) % U32, (start.byteCtr + bytes) % U32, eventCtr);
    RateIsLeast(packets, us);
    RateIsLeast(bytes, us);
    RateIsLeast(64, us);
  }

  /** `struct dim` */
  class Dim {
    var state: MeasureState
    var prevStats: Stats
    var startSample: Sample
    var profileIx: nat
    var tuneState: TuneState
    var stepsRight: nat
    var stepsLeft: nat
    var tired: nat

    ghost function Value(): Tuning
      reads this
    {
      Tuning(tuneState, profileIx, stepsRight, stepsLeft, tired)
    }

    ghost predicate Valid()
      reads this
    {
      Safe(Value())
    }

    constructor ()
      ensures Valid() && Value() == ZERO_TUNING && state == StartMeasure && prevStats == Stats(0, 0, 0)
    {
      state, prevStats, startSample := StartMeasure, Stats(0, 0, 0), ZERO_SAMPLE;
      profileIx, tuneState, stepsRight, stepsLeft, tired := 0, ParkingOnTop, 0, 0, 0;
    }

    method Turn()
      modifies this`tuneState, this`stepsRight, this`stepsLeft
      ensures Value() == Turned(old(Value()))
    {
      match tuneState
      case ParkingOnTop =>
      case ParkingTired =>
      case GoingRight =>
        tuneState := GoingLeft;
        stepsLeft := 0;
      case GoingLeft =>
        tuneState := GoingRight;
        stepsRight := 0;
    }

    method ParkOnTop()
      modifies this`tuneState, this`stepsRight, this`stepsLeft, this`tired
      ensures Value() == ParkedOnTop(old(Value()))
    {
      stepsRight, stepsLeft, tired := 0, 0, 0;
      tuneState := ParkingOnTop;
    }

    method ParkTired()
      modifies this`tuneState, this`stepsRight, this`stepsLeft
      ensures Value() == ParkedTired(old(Value()))
    {
      stepsRight, stepsLeft := 0, 0;
      tuneState := ParkingTired;
    }

    /** `net_dim_step` */
    method Step() returns (res: StepResult)
      modifies this`profileIx, this`stepsRight, this`stepsLeft, this`tired
      ensures (res, Value()) == StepOf(old(Value()))
    {
      if tired == MAX_TIRED {
        return TooTired;
      }
      match tuneState {
        case ParkingOnTop =>
        case ParkingTired =>
        case GoingRight =>
          if profileIx == NET_DIM_PARAMS_NUM_PROFILES - 1 {
            return OnEdge;
          }
          profileIx := profileIx + 1;
          stepsRight := stepsRight + 1;
        case GoingLeft =>
          if profileIx == 0 {
            return OnEdge;
          }
          profileIx := profileIx - 1;
          stepsLeft := stepsLeft + 1;
      }
      tired := tired + 1;
      res := Stepped;
    }

    method ExitParking()
      modifies this`tuneState, this`profileIx, this`stepsRight, this`stepsLeft, this`tired
      ensures Value() == ExitedParking(old(Value()))
    {
      tuneState := if profileIx != 0 then GoingLeft else GoingRight;
      var _ := Step();
    }

    /** The moving part of a decision. */
    method Move(res: StatsResult)
      requires !Parked(Value())
      modifies this`tuneState, this`profileIx, this`stepsRight, this`stepsLeft, this`tired
      ensures Value() == Moved(old(Value()), res)
    {
      hide StepOf, Turned, OnTop;
      if res != Better {
        Turn();
      }
      var onTop := OnTop(Tuning(tuneState, profileIx, stepsRight, stepsLeft, tired));
      if onTop {
        ParkOnTop();
        return;
      }
      var stepRes := Step();
      match stepRes
      case OnEdge => ParkOnTop();
      case TooTired => ParkTired();
      case Stepped =>
    }

    /**
      `net_dim_decision`: one decision of the search. The statistics are
      remembered for the next comparison unless the search just stays on top.
     */
    method Decision(curr: Stats) returns (changed: bool)
      requires Valid()
      modifies this`tuneState, this`profileIx, this`stepsRight, this`stepsLeft, this`tired, this`prevStats
      ensures Valid() && Value() == Decided(old(Value()), StatsCompare(curr, old(prevStats)))
      ensures Heeds(old(Value()), Value(), curr, old(prevStats))
      ensures changed <==> profileIx != old(profileIx)
      ensures prevStats == if old(tuneState) == tuneState == ParkingOnTop then old(prevStats) else curr
    {
      hide StatsCompare, Moved, ExitedParking, Safe, Heeds;
      DecisionHeeds(Value(), curr, prevStats);
      var prevState, prevIx := tuneState, profileIx;
      var statsRes := StatsCompare(curr, prevStats);
      DecisionIsSafe(Value(), statsRes);
      TiredIsPositive(Value());
      match tuneState {
        case ParkingOnTop =>
          if statsRes != Same {
            ExitParking();
          }
        case ParkingTired =>
          tired := tired - 1;
          if tired == 0 {
            ExitParking();
          }
        case GoingRight => Move(statsRes);
        case GoingLeft => Move(statsRes);
      }
      if prevState != ParkingOnTop || tuneState != ParkingOnTop {
        prevStats := curr;
      }
      changed := profileIx != prevIx;
    }

    /**
      `net_dim`: a measurement ends after enough events, and only then is there
      a decision; none is made while a new profile is still to be applied.
     */
    method NetDim(end: Sample, now: int, uninitialised: Stats) returns (scheduled: bool)
      requires Valid()
      modifies this
      ensures Valid()
      ensures var enough := old(state) == MeasureInProgress
                            && BitGap(U16, end.eventCtr, old(startSample).eventCtr) >= 64;
              && (if enough
                  then var curr := CalcStats(old(startSample), end, uninitialised);
                       && Value() == Decided(old(Value()), StatsCompare(curr, old(prevStats)))
                       && Heeds(old(Value()), Value(), curr, old(prevStats))
                       && prevStats == if old(tuneState) == tuneState == ParkingOnTop then old(prevStats) else curr
                  else Value() == old(Value()) && prevStats == old(prevStats))
              && (scheduled <==> enough && profileIx != old(profileIx))
              && (scheduled <==> old(state) != ApplyNewProfile && state == ApplyNewProfile)
              && (if old(state) == StartMeasure || (enough && !scheduled)
                  then state == MeasureInProgress && startSample == end.(timeUs := now)
                  else startSample == old(startSample) && (!scheduled ==> state == old(state)))
    {
      hide StatsCompare, CalcStats, Decided, Safe, Heeds;
      scheduled := false;
      if state == ApplyNewProfile {
        return;
      }
      if state == MeasureInProgress {
        var nevents := BitGap(U16, end.eventCtr, startSample.eventCtr);
        if nevents < DIM_NEVENTS {
          return;
        }
        scheduled := Decision(CalcStats(startSample, end, uninitialised));
        if scheduled {
          state := ApplyNewProfile;
          return;
        }
      }
      startSample := end.(timeUs := now);
      state := MeasureInProgress;
    }
  }

  lemma TiredIsPositive(d: Tuning)
    requires Safe(d)
    ensures d.tune == ParkingTired ==> d.tired > 0
  {
  }
}
