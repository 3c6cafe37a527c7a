/** Ranges: what the converter can deliver, and what follows for every 16-bit expression of the
    scan over every run. */
module PadNumbers {
  import opened Bytes
  import opened PadScan

  // ----- the converter -----

  /** The value of ADC_Read from the two result registers, of which high holds two bits. */
  function AdcResult(differential: bool, low: byte, high: nat): int
    requires high < 4
  {
    if differential && high / 2 != 0 then -(511 - (low + high % 2 * 256)) else low + high * 256
  }

  /** A differential reading lies within 511 of zero; it is the ten bits, or, if the highest is set, one
      more than their two's complement value. A single-ended reading is below 1024. */
  lemma AdcRange(low: byte, high: nat)
    requires high < 4
    ensures -511 <= AdcResult(true, low, high) <= 511
    ensures 0 <= AdcResult(false, low, high) <= 1023
    ensures high >= 2 ==> AdcResult(true, low, high) == (low + high * 256) - 1024 + 1
    ensures high < 2 ==> AdcResult(true, low, high) == low + high * 256
    ensures AdcResult(false, low, high) == low + high * 256
  {
  }

  // ----- runs whose readings come from the converter -----

  predicate DiffReading(x: int) {
    -511 <= x <= 511
  }

  predicate SeReading(x: int) {
    0 <= x <= 1023
  }

  /** The thresholds that a calibration can set lie in this range. */
  const THRESHOLD_MIN := -294
  const THRESHOLD_MAX := 631

  /** The readings of an event are possible, and a calibration that finds no DAC code for a pad leaves
      it with a threshold that one could have set. */
  predicate ReadingsOk(s: State, e: Event)
    requires Shaped(s) && Enabled(s, e)
  {
    match e
    case Visit(r) => if s.at.pad < 40 then DiffReading(r) else SeReading(r)
    case Sample(r) => DiffReading(r)
    case Calibrated(cal) =>
      && (forall p | 0 <= p < 40 ::
            match cal.diff[p]
            case Some(v) => -400 < v <= 511
            case None => THRESHOLD_MIN <= s.pads[p].init <= THRESHOLD_MAX)
      && (forall p | 0 <= p < 8 :: SeReading(cal.se[p]))
    case _ => true
  }

  ghost predicate AllReadingsOk(s: State, es: seq<Event>)
    requires Shaped(s) && Possible(s, es)
    decreases |es|
  {
    es == [] || (AllReadingsOk(s, Front(es)) && ReadingsOk(Run(s, Front(es)), Last(es)))
  }

  predicate InRange(s: State, p: nat)
    requires Shaped(s) && p < PADS
  {
    && (p < 40 ==> THRESHOLD_MIN <= s.pads[p].init - Adjustment(s, p) <= THRESHOLD_MAX)
    && (p >= 40 ==> -40 <= s.pads[p].initSe - AdjustmentSe(s, p) <= 983)
    && (s.at.Sampling? ==> s.at.peak <= 1400)
    && (s.at.Touching? ==> s.at.val <= 1003)
  }

  lemma StepKeepsRange(s: State, e: Event, p: nat)
    requires Inv(s) && Enabled(s, e) && ReadingsOk(s, e) && p < PADS
    requires InRange(s, p) && (!s.at.Between? ==> InRange(s, s.at.pad))
    ensures Shaped(Next(s, e)) && InRange(Next(s, e), p)
  {
    StepConserves(s, e, p);
    if e.Visit? || e.Sample? {
      assert FlagsMatch(s, s.at.pad);
    }
  }

  lemma {:induction false} RunInRange(s: State, es: seq<Event>)
    requires Initial(s) && Possible(s, es) && AllReadingsOk(s, es)
    requires forall p | 0 <= p < PADS :: InRange(s, p)
    ensures Inv(Run(s, es)) && forall p | 0 <= p < PADS :: InRange(Run(s, es), p)
    decreases |es|
  {
    RunKeepsInv(s, es);
    if es != [] {
      RunInRange(s, Front(es));
      var t := Run(s, Front(es));
      forall p | 0 <= p < PADS ensures InRange(Run(s, es), p) {
        StepKeepsRange(t, Last(es), p);
      }
    }
  }

  /** Every 16-bit value that a step computes or stores on the way is in range; the interrupt
      changes the thresholds of all 48 pads. */
  predicate Int16Safe(s: State, e: Event)
    requires Shaped(s) && Enabled(s, e)
  {
    match e
    case Tick =>
      forall p | 0 <= p < PADS :: FitsInt16(Next(s, e).pads[p].init)
    case Visit(r) =>
      var q := s.pads[s.at.pad];
      if s.at.pad < 40 then
        && FitsInt16(r) && FitsInt16(r - q.init) && FitsInt16(q.init + ANTI_STICKY_ADJUST)
        && (r - q.init > 0 ==> FitsInt16(HalfTowardZero(q.filtered + (r - q.init))))
      else
        && FitsInt16(q.initSe - r) && FitsInt16(2 * (q.initSe - r))
        && FitsInt16(q.initSe + HYSTERISIS_ADJUST_OVER_39) && FitsInt16(q.initSe - HYSTERISIS_ADJUST_OVER_39)
    case Sample(r) => FitsInt16(r) && FitsInt16(r - s.pads[s.at.pad].init)
    case Go =>
      var q := s.pads[s.at.pad];
      && (s.at.pad < 40 ==> FitsInt16(q.init + Hysterisis(s.at.pad)) && FitsInt16(q.init - Hysterisis(s.at.pad)))
      && (s.at.pad < 40 ==> FitsInt16(q.init - ANTI_STICKY_ADJUST))
      && (s.at.Sampling? ==> FitsInt16(s.at.peak))
      && (s.at.Touching? ==> FitsInt16(HalfTowardZero(q.filtered + 2 * s.at.val)))
    case Calibrated(cal) =>
      && (forall p | 0 <= p < 40 :: FitsInt16(CalibratedPad(s.pads[p], p, cal).init))
      && (forall p | 40 <= p < PADS :: FitsInt16(CalibratedPad(s.pads[p], p, cal).initSe))
    case _ => true
  }

  /** A tick that raises the thresholds. */
  predicate Raises(s: State, e: Event) {
    e.Tick? && !AnyPlayed(s) && s.idle + 1 > STANDBY_TICKS && !s.raised
  }

  predicate UnusedFit(t: State)
    requires |t.pads| == PADS
  {
    forall p | 40 <= p < PADS :: FitsInt16(t.pads[p].init)
  }

  lemma TickIsSafeIff(s: State)
    requires Inv(s) && forall p | 0 <= p < PADS :: InRange(s, p)
    ensures Int16Safe(s, Tick) <==> UnusedFit(OnTick(s))
  {
    var t := Next(s, Tick);
    forall p | 0 <= p < 40 ensures FitsInt16(t.pads[p].init) {
      StepKeepsRange(s, Tick, p);
      assert InRange(t, p);
    }
  }

  /** Apart from ticks, every step is safe. */
  lemma RangeIsSafe(s: State, e: Event)
    requires Inv(s) && Enabled(s, e) && ReadingsOk(s, e) && !e.Tick? && forall p | 0 <= p < PADS :: InRange(s, p)
    ensures Int16Safe(s, e)
  {
    if !s.at.Between? {
      assert FlagsMatch(s, s.at.pad) && InRange(s, s.at.pad);
    }
  }

  // ----- the thresholds nobody reads -----

  /** How often the reset button took the firmware out of standby. */
  function StandbyResets(s: State, es: seq<Event>): nat
    requires Shaped(s) && Possible(s, es)
    decreases |es|
  {
    if es == [] then 0
    else StandbyResets(s, Front(es)) + (if Last(es).LeaveStandby? && Run(s, Front(es)).raised then 1 else 0)
  }

  /** The interrupt raises the differential thresholds of the pads from 40 on as well. Nothing reads
      them and no calibration sets them, so every reset in standby leaves 100 in them for good. */
  lemma {:induction false} UnusedThresholdsDrift(s: State, es: seq<Event>, p: nat)
    requires Initial(s) && Possible(s, es) && 40 <= p < PADS
    ensures Run(s, es).pads[p].init ==
              s.pads[p].init + STANDBY_ADJUST * StandbyResets(s, es) + (if Run(s, es).raised then STANDBY_ADJUST else 0)
    decreases |es|
  {
    if es != [] {
      UnusedThresholdsDrift(s, Front(es), p);
      ThresholdConservation(s, Front(es), p);
      UnusedStep(Run(s, Front(es)), Last(es), p);
    }
  }

  lemma UnusedStep(s: State, e: Event, p: nat)
    requires Shaped(s) && Enabled(s, e) && 40 <= p < PADS && FlagsMatch(s, p)
    ensures var t := Next(s, e);
      && (e.LeaveStandby? ==> t.pads[p].init == s.pads[p].init && !t.raised)
      && (!e.LeaveStandby? ==>
            t.pads[p].init - s.pads[p].init
            == (if t.raised then STANDBY_ADJUST else 0) - (if s.raised then STANDBY_ADJUST else 0))
  {
    if e.Calibrated? {
      assert !s.raised;
    }
  }

  // ----- safety over runs -----

  /** Every step of the run is safe. */
  ghost predicate AllSafe(s: State, es: seq<Event>)
    requires Shaped(s) && Possible(s, es)
    decreases |es|
  {
    es == [] || (AllSafe(s, Front(es)) && Int16Safe(Run(s, Front(es)), Last(es)))
  }

  /** The unused thresholds, as they were at the start, can be raised once more after the given number
      of resets in standby. */
  predicate Room(s: State, resets: nat)
    requires Shaped(s)
  {
    forall p | 40 <= p < PADS :: FitsInt16(s.pads[p].init + STANDBY_ADJUST * (resets + 1))
  }

  /** Whenever the thresholds are raised, the unused ones have room for one more than the resets in
      standby so far. */
  ghost predicate RaisesFit(s: State, es: seq<Event>)
    requires Shaped(s) && Possible(s, es)
    decreases |es|
  {
    es == [] ||
    (&& RaisesFit(s, Front(es))
     && (Raises(Run(s, Front(es)), Last(es)) ==> Room(s, StandbyResets(s, Front(es)))))
  }

  /** Once the unused threshold has stood at this height in a safe run, it still fits. */
  lemma {:induction false} RaisedFits(s: State, es: seq<Event>, p: nat)
    requires Initial(s) && Possible(s, es) && RaisesFit(s, es) && 40 <= p < PADS && FitsInt16(s.pads[p].init)
    ensures FitsInt16(s.pads[p].init + STANDBY_ADJUST * StandbyResets(s, es))
    ensures Run(s, es).raised ==> FitsInt16(s.pads[p].init + STANDBY_ADJUST * (StandbyResets(s, es) + 1))
    decreases |es|
  {
    if es != [] {
      RaisedFits(s, Front(es), p);
      RunKeepsInv(s, Front(es));
      IdleStep(Run(s, Front(es)), Last(es));
    }
  }

  lemma TickFitsIff(s: State, es: seq<Event>, p: nat)
    requires Initial(s) && Possible(s, es) && RaisesFit(s, es) && 40 <= p < PADS && FitsInt16(s.pads[p].init)
    ensures TickFits(s, Run(s, es), StandbyResets(s, es), p)
  {
    UnusedThresholdsDrift(s, es, p);
    RaisedFits(s, es, p);
    TickOfUnused(Run(s, es), p, s.pads[p].init + STANDBY_ADJUST * StandbyResets(s, es));
  }

  lemma TickOfUnused(t: State, p: nat, low: int)
    requires Shaped(t) && p < PADS && FitsInt16(low) && (t.raised ==> FitsInt16(low + STANDBY_ADJUST))
    requires t.pads[p].init == low + (if t.raised then STANDBY_ADJUST else 0)
    ensures FitsInt16(OnTick(t).pads[p].init) <==> (Raises(t, Tick) ==> FitsInt16(low + STANDBY_ADJUST))
  {
  }

  /** Numeric safety over every run: with readings as the converter delivers them and successful
      recalibrations, nothing in the scan leaves 16 bits exactly as long as the unused thresholds
      have room whenever standby begins. */
  lemma {:induction false} NumericSafetyIff(s: State, es: seq<Event>)
    requires Initial(s) && Possible(s, es) && AllReadingsOk(s, es) && StartsInRange(s)
    ensures AllSafe(s, es) <==> RaisesFit(s, es)
    decreases |es|
  {
    if es != [] {
      NumericSafetyIff(s, Front(es));
      if RaisesFit(s, Front(es)) {
        LastStepSafeIff(s, es);
        var safe := Int16Safe(Run(s, Front(es)), Last(es));
        AllSafeLonger(s, es, safe);
        RaisesFitLonger(s, es, safe);
      }
    }
  }

  lemma AllSafeLonger(s: State, es: seq<Event>, safe: bool)
    requires Shaped(s) && es != [] && Possible(s, es) && AllSafe(s, Front(es))
    requires safe == Int16Safe(Run(s, Front(es)), Last(es))
    ensures AllSafe(s, es) == safe
  {
  }

  lemma RaisesFitLonger(s: State, es: seq<Event>, fits: bool)
    requires Shaped(s) && es != [] && Possible(s, es) && RaisesFit(s, Front(es))
    requires fits == (Raises(Run(s, Front(es)), Last(es)) ==> Room(s, StandbyResets(s, Front(es))))
    ensures RaisesFit(s, es) == fits
  {
  }

  predicate StartsInRange(s: State)
    requires Shaped(s)
  {
    forall p | 0 <= p < PADS :: InRange(s, p) && FitsInt16(s.pads[p].init)
  }

  lemma LastStepSafeIff(s: State, es: seq<Event>)
    requires Initial(s) && es != [] && Possible(s, es) && AllReadingsOk(s, es) && StartsInRange(s)
    requires RaisesFit(s, Front(es))
    ensures Int16Safe(Run(s, Front(es)), Last(es)) <==>
              (Raises(Run(s, Front(es)), Last(es)) ==> Room(s, StandbyResets(s, Front(es))))
  {
    RunInRange(s, Front(es));
    StepSafeIff(s, Front(es), Last(es));
  }

  lemma StepSafeIff(s: State, es: seq<Event>, e: Event)
    requires Initial(s) && Possible(s, es) && RaisesFit(s, es) && Inv(Run(s, es))
    requires Enabled(Run(s, es), e) && ReadingsOk(Run(s, es), e)
    requires forall p | 0 <= p < PADS :: FitsInt16(s.pads[p].init) && InRange(Run(s, es), p)
    ensures Int16Safe(Run(s, es), e) <==>
              (Raises(Run(s, es), e) ==> Room(s, StandbyResets(s, es)))
  {
    if e.Tick? {
      TickSafeIff(s, es, Run(s, es), StandbyResets(s, es));
    } else {
      RangeIsSafe(Run(s, es), e);
    }
  }

  lemma TickSafeIff(s: State, es: seq<Event>, t: State, n: nat)
    requires Initial(s) && Possible(s, es) && RaisesFit(s, es) && t == Run(s, es) && Inv(t)
    requires n == StandbyResets(s, es)
    requires forall p | 0 <= p < PADS :: FitsInt16(s.pads[p].init) && InRange(t, p)
    ensures Int16Safe(t, Tick) <==> (Raises(t, Tick) ==> Room(s, n))
  {
    EveryTickFitsIff(s, es, t, n);
    TickRoomIff(s, t, n);
  }

  lemma EveryTickFitsIff(s: State, es: seq<Event>, t: State, n: nat)
    requires Initial(s) && Possible(s, es) && RaisesFit(s, es) && t == Run(s, es)
    requires n == StandbyResets(s, es)
    requires forall p | 40 <= p < PADS :: FitsInt16(s.pads[p].init)
    ensures forall p | 40 <= p < PADS :: TickFits(s, t, n, p)
  {
    forall p | 40 <= p < PADS ensures TickFits(s, t, n, p) {
      TickFitsIff(s, es, p);
    }
  }

  predicate TickFits(s: State, t: State, n: nat, p: nat)
    requires Shaped(s) && Shaped(t) && p < PADS
  {
    FitsInt16(OnTick(t).pads[p].init) <==> (Raises(t, Tick) ==> FitsInt16(s.pads[p].init + STANDBY_ADJUST * (n + 1)))
  }

  lemma TickRoomIff(s: State, t: State, n: nat)
    requires Shaped(s) && Inv(t) && forall p | 0 <= p < PADS :: InRange(t, p)
    requires forall p | 40 <= p < PADS :: TickFits(s, t, n, p)
    ensures Int16Safe(t, Tick) <==> (Raises(t, Tick) ==> Room(s, n))
  {
    TickIsSafeIff(t);
    RoomIff(s, t, n);
  }

  lemma RoomIff(s: State, t: State, n: nat)
    requires Shaped(s) && Shaped(t) && forall p | 40 <= p < PADS :: TickFits(s, t, n, p)
    ensures UnusedFit(OnTick(t)) <==> (Raises(t, Tick) ==> Room(s, n))
  {
    if UnusedFit(OnTick(t)) {
      forall p | Raises(t, Tick) && 40 <= p < PADS ensures FitsInt16(s.pads[p].init + STANDBY_ADJUST * (n + 1)) {
        assert TickFits(s, t, n, p);
      }
    } else {
      var p :| 40 <= p < PADS && !FitsInt16(OnTick(t).pads[p].init);
      assert TickFits(s, t, n, p);
    }
  }

  const RESETS_MAX := 326

  /** Each time standby began, the button had taken the firmware out of it at most 326 times. */
  ghost predicate FewStandbyResets(s: State, es: seq<Event>)
    requires Shaped(s) && Possible(s, es)
    decreases |es|
  {
    es == [] ||
    (&& FewStandbyResets(s, Front(es))
     && (Raises(Run(s, Front(es)), Last(es)) ==> StandbyResets(s, Front(es)) <= RESETS_MAX))
  }

  lemma {:induction false} RaisesFitIff(s: State, es: seq<Event>)
    requires Initial(s) && Possible(s, es) && forall p | 40 <= p < PADS :: s.pads[p].init == 0
    ensures RaisesFit(s, es) <==> FewStandbyResets(s, es)
    decreases |es|
  {
    if es != [] {
      RaisesFitIff(s, Front(es));
      RoomFromZero(s, StandbyResets(s, Front(es)));
    }
  }

  lemma RoomFromZero(s: State, resets: nat)
    requires Shaped(s) && forall p | 40 <= p < PADS :: s.pads[p].init == 0
    ensures Room(s, resets) <==> resets <= RESETS_MAX
  {
    assert s.pads[40].init == 0 && (FitsInt16(STANDBY_ADJUST * (resets + 1)) <==> resets <= RESETS_MAX);
  }

  /** From start-up, where the unused thresholds are zero: no 16-bit expression ever overflows if
      and only if standby never begins after the button has ended it 327 times. */
  lemma NumericSafety(s: State, es: seq<Event>)
    requires Initial(s) && Possible(s, es) && AllReadingsOk(s, es)
    requires forall p | 0 <= p < PADS :: InRange(s, p) && (p >= 40 ==> s.pads[p].init == 0)
    ensures AllSafe(s, es) <==> FewStandbyResets(s, es)
  {
    forall p | 0 <= p < PADS ensures FitsInt16(s.pads[p].init) {
      assert InRange(s, p);
    }
    NumericSafetyIff(s, es);
    RaisesFitIff(s, es);
  }

  /** Pressures stay within 0..511, and the LED sum fits 16 bits when it is doubled. */
  lemma PressureSafety(s: State, es: seq<Event>, p: nat)
    requires Initial(s) && Possible(s, es) && p < PADS
    ensures 0 <= Run(s, es).pads[p].filtered <= PRESSURE_MAX
    ensures 2 * Run(s, es).ledSum + 1 < 0x1_0000
  {
    RunKeepsInv(s, es);
    assert FlagsMatch(Run(s, es), p);
  }

  // ----- a run that does overflow -----

  /** A possible run with possible readings that has come to where nothing is played. */
  ghost predicate Quieted(s: State, es: seq<Event>) {
    Initial(s) && Possible(s, es) && AllReadingsOk(s, es) && !AnyPlayed(Run(s, es))
  }

  lemma ExtendReadings(s: State, es: seq<Event>, e: Event)
    requires Shaped(s) && Possible(s, es) && AllReadingsOk(s, es) && Enabled(Run(s, es), e) && ReadingsOk(Run(s, es), e)
    ensures Possible(s, es + [e]) && AllReadingsOk(s, es + [e]) && Run(s, es + [e]) == Next(Run(s, es), e)
    ensures StandbyResets(s, es + [e]) == StandbyResets(s, es) + (if e.LeaveStandby? && Run(s, es).raised then 1 else 0)
    ensures FewStandbyResets(s, es + [e]) <==>
              FewStandbyResets(s, es) && (Raises(Run(s, es), e) ==> StandbyResets(s, es) <= RESETS_MAX)
  {
    RunExtend(s, es, e);
    assert Front(es + [e]) == es;
  }

  lemma {:induction false} QuietTicks(s: State, es: seq<Event>, n: nat) returns (fs: seq<Event>)
    requires Quieted(s, es)
    ensures Quieted(s, fs) && StandbyResets(s, fs) == StandbyResets(s, es)
    ensures var (t, u) := (Run(s, es), Run(s, fs));
      && u.at == t.at && u.index == t.index
      && (t.raised ==> u.raised) && (u.raised || u.idle == t.idle + n)
      && (StandbyResets(s, es) > RESETS_MAX && u.raised && !t.raised ==> !FewStandbyResets(s, fs))
  {
    if n == 0 {
      fs := es;
    } else {
      var gs := QuietTicks(s, es, n - 1);
      ExtendReadings(s, gs, Tick);
      TickOfQuiet(Run(s, gs));
      fs := gs + [Tick];
    }
  }

  lemma TickOfQuiet(s: State)
    requires Shaped(s) && !AnyPlayed(s)
    ensures var t := OnTick(s);
      && !AnyPlayed(t) && t.at == s.at && t.index == s.index
      && (s.raised ==> t.raised)
      && (!s.raised && t.raised ==> Raises(s, Tick))
      && (t.raised || t.idle == s.idle + 1)
  {
    var t := OnTick(s);
    forall p | 0 <= p < |t.pads| ensures !t.pads[p].played {
      assert !s.pads[p].played;
    }
  }

  /** A calibration that finds all pads at a middle reading and keeps the order. */
  function Plain(order: seq<nat>): Calibration {
    Calibration(seq(40, _ => Some(0)), seq(8, _ => 500), order)
  }

  lemma PlainCalibrated(t: State)
    requires Shaped(t) && t.at.Calibrating?
    ensures CalShaped(Plain(t.order))
    ensures var u := OnCalibrated(t, Plain(t.order));
      && !AnyPlayed(u) && u.raised == t.raised
      && forall p | 0 <= p < PADS :: !u.pads[p].sent && !u.pads[p].hyst &&
                                     (if p < 40 then u.pads[p].init > -512 else u.pads[p].initSe < 1024)
  {
  }

  /** The visit of an untouched pad on which the reset button is found down. */
  lemma ResetVisit(s: State, es: seq<Event>) returns (fs: seq<Event>)
    requires Quieted(s, es) && Run(s, es).at.Between? && Run(s, es).index < PADS && Run(s, es).raised
    ensures Quieted(s, fs) && Run(s, fs).at.Between? && !Run(s, fs).raised
    ensures StandbyResets(s, fs) == StandbyResets(s, es) + 1
  {
    ExtendReadings(s, es, Latch);
    var f1 := es + [Latch];
    ExtendReadings(s, f1, ResetDown);
    var f2 := f1 + [ResetDown];
    ExtendReadings(s, f2, LeaveStandby);
    fs := CalibrateAndGo(s, f2 + [LeaveStandby]);
  }

  lemma CalibrateAndGo(s: State, es: seq<Event>) returns (fs: seq<Event>)
    requires Initial(s) && Possible(s, es) && AllReadingsOk(s, es)
    requires Run(s, es).at.Calibrating? && !Run(s, es).raised
    ensures Quieted(s, fs) && Run(s, fs).at.Between? && !Run(s, fs).raised
    ensures StandbyResets(s, fs) == StandbyResets(s, es)
  {
    var cal := Plain(Run(s, es).order);
    ExtendReadings(s, es, Calibrated(cal));
    PlainCalibrated(Run(s, es));
    fs := LetGo(s, es + [Calibrated(cal)]);
  }

  /** The rest of the visit: the pad reads as not touched. */
  lemma LetGo(s: State, es: seq<Event>) returns (fs: seq<Event>)
    requires Quieted(s, es) && Run(s, es).at.Ready? && !Run(s, es).raised
    requires var t := Run(s, es); var q := t.pads[t.at.pad];
      !q.sent && !q.hyst && (if t.at.pad < 40 then q.init > -512 else q.initSe < 1024)
    ensures Quieted(s, fs) && Run(s, fs).at.Between? && !Run(s, fs).raised
    ensures StandbyResets(s, fs) == StandbyResets(s, es)
  {
    var t := Run(s, es);
    var away := Visit(if t.at.pad < 40 then -511 else 1023);
    ExtendReadings(s, es, away);
    AwayFromPad(t, away.reading);
    fs := es + [away];
    if Run(s, fs).at.Untouching? {
      ExtendReadings(s, fs, Go);
      UntouchQuiet(Run(s, fs));
      fs := fs + [Go];
    }
  }

  lemma AwayFromPad(t: State, reading: int)
    requires Shaped(t) && t.at.Ready? && !AnyPlayed(t)
    requires var q := t.pads[t.at.pad];
      !q.sent && !q.hyst && (if t.at.pad < 40 then reading <= q.init else q.initSe <= reading)
    ensures var u := OnVisit(t, t.at.pad, reading);
      && !AnyPlayed(u) && u.raised == t.raised
      && (u.at.Between? || u.at.Untouching?)
  {
    assert OnVisit(t, t.at.pad, reading).pads == t.pads;
  }

  lemma UntouchQuiet(t: State)
    requires Shaped(t) && t.at.Untouching? && !AnyPlayed(t)
    ensures var u := OnGo(t); !AnyPlayed(u) && u.at.Between? && u.raised == t.raised
  {
    var u := OnGo(t);
    forall p | 0 <= p < PADS ensures !u.pads[p].played {
      assert !t.pads[p].played;
    }
  }

  /** Standby, ended by the button, n times over. */
  lemma {:induction false} ResetsInStandby(s: State, n: nat) returns (es: seq<Event>)
    requires Initial(s)
    ensures Quieted(s, es) && Run(s, es).at.Between? && !Run(s, es).raised && StandbyResets(s, es) == n
  {
    if n == 0 {
      es := [];
    } else {
      es := ResetsInStandby(s, n - 1);
      if Run(s, es).index == PADS {
        ExtendReadings(s, es, EndRound);
        es := es + [EndRound];
      }
      var fs := QuietTicks(s, es, STANDBY_TICKS + 1);
      RunKeepsInv(s, fs);
      es := ResetVisit(s, fs);
    }
  }

  /** There is such a run from every start: the button ends standby 327 times, and the firmware goes
      into standby again. */
  lemma StandbyResetsOverflow(s: State) returns (es: seq<Event>)
    requires Initial(s) && forall p | 0 <= p < PADS :: InRange(s, p) && (p >= 40 ==> s.pads[p].init == 0)
    ensures Possible(s, es) && AllReadingsOk(s, es) && !AllSafe(s, es)
  {
    var fs := ResetsInStandby(s, RESETS_MAX + 1);
    es := QuietTicks(s, fs, STANDBY_TICKS + 1);
    RunKeepsInv(s, es);
    NumericSafety(s, es);
  }
}
