/** The pad scanner and the standby interrupt as a state machine. The main loop is cut into steps
    at the places where the timer interrupt can come in between; the interrupt and the loop share
    the thresholds and the flags, and any interleaving of their steps is a run. */
module PadScan {
  import opened Bytes

  const PADS := 48
  const CONTROLS := 6
  const RESET := 5
  const ANTI_STICKY_ADJUST := 50
  const STICKY_TIMEOUT := 10
  const STANDBY_ADJUST := 100
  const STANDBY_TICKS := 20000
  const HYSTERISIS_ADJUST_OVER_39 := 10
  const THRESHOLD_OVER_39 := 40
  const SAMPLES := 200
  const PRESSURE_MAX := 511

  function Hysterisis(pad: nat): int {
    if pad < 16 then 35 else 25
  }

  function Threshold(pad: nat): int {
    if pad < 8 then 120 else 105
  }

  // ----- state -----

  /** The entries of the firmware's global arrays that belong to one pad. */
  datatype Pad = Pad(init: int, initSe: int, filtered: int, sticky: nat,
                     anti: bool, hyst: bool, sent: bool, played: bool)

  /** Where the main loop stands. A pad number is latched before the reset button is looked at. If
      it is down, it is first marked as played, then standby is left, then all is calibrated;
      standby tells whether it was in force when it was left. */
  datatype Point =
    | Between
    | Latched(pad: nat)
    | Pressed(pad: nat)
    | Calibrating(pad: nat, standby: bool)
    | Ready(pad: nat)
    | Sampling(pad: nat, peak: int, left: nat)
    | Attacked(pad: nat, velocity: int)
    | Holding(pad: nat)
    | Releasing(pad: nat)
    | Released(pad: nat)
    | Touching(pad: nat, val: int)
    | Untouching(pad: nat)

  datatype State = State(
    pads: seq<Pad>, controls: seq<bool>, order: seq<nat>,
    raised: bool, idle: nat, ledSum: nat, index: nat, at: Point)

  /** What a calibration reads: for each pad below 40 the reading at the first DAC code that brings
      it above -400, if any code does; for the others the single-ended reading. order is the
      scan order it settles on. */
  datatype Calibration = Calibration(diff: seq<Option<int>>, se: seq<int>, order: seq<nat>)

  /** reading is -ADC_Read for pads below 40 and ADC_Read for the others. */
  datatype Event =
    | Tick
    | Control(i: nat, on: bool)
    | Latch
    | ResetUp
    | ResetDown
    | LeaveStandby
    | Calibrated(cal: Calibration)
    | Visit(reading: int)
    | Sample(reading: int)
    | Go
    | EndRound

  predicate IsScanOrder(order: seq<nat>) {
    && |order| == PADS
    && (forall i | 0 <= i < PADS :: order[i] < PADS)
    && (forall i, j | 0 <= i < j < PADS :: order[i] != order[j])
  }

  predicate Shaped(s: State) {
    && |s.pads| == PADS && |s.controls| == CONTROLS && IsScanOrder(s.order) && s.index <= PADS
    && (s.at.Between? || s.at.pad < PADS)
    && (!s.at.Between? ==> s.index < PADS)
    && (s.at.Sampling? || s.at.Attacked? || s.at.Holding? || s.at.Releasing? || s.at.Released? ==> s.at.pad < 40)
    && (s.at.Touching? || s.at.Untouching? ==> 40 <= s.at.pad)
  }

  predicate CalShaped(cal: Calibration) {
    |cal.diff| == 40 && |cal.se| == 8 && IsScanOrder(cal.order)
  }

  /** Points at which a step without a reading of its own comes next. */
  predicate Reporting(at: Point) {
    at.Attacked? || at.Holding? || at.Releasing? || at.Released? || at.Touching? || at.Untouching?
  }

  predicate Enabled(s: State, e: Event) {
    match e
    case Tick => true
    case Control(i, _) => i < 5
    case Latch => s.at.Between? && s.index < PADS
    case ResetUp => s.at.Latched?
    case ResetDown => s.at.Latched?
    case LeaveStandby => s.at.Pressed?
    case Calibrated(cal) => s.at.Calibrating? && CalShaped(cal)
    case Visit(_) => s.at.Ready?
    case Sample(_) => s.at.Sampling? && s.at.left > 0
    case Go => if s.at.Sampling? then s.at.left == 0 else Reporting(s.at)
    case EndRound => s.at.Between? && s.index == PADS
  }

  // ----- steps -----

  predicate AnyPlayed(s: State) {
    (exists p | 0 <= p < |s.pads| :: s.pads[p].played) || (exists i | 0 <= i < |s.controls| :: s.controls[i])
  }

  function ShiftAll(pads: seq<Pad>, delta: int): seq<Pad> {
    seq(|pads|, p requires 0 <= p < |pads| => pads[p].(init := pads[p].init + delta))
  }

  /** The standby part of the timer interrupt. */
  function OnTick(s: State): State {
    if !AnyPlayed(s) then
      if s.idle + 1 <= STANDBY_TICKS then s.(idle := s.idle + 1)
      else if s.raised then s.(idle := 0)
      else s.(idle := 0, raised := true, pads := ShiftAll(s.pads, STANDBY_ADJUST))
    else if s.raised then s.(idle := 0, raised := false, pads := ShiftAll(s.pads, -STANDBY_ADJUST))
    else s.(idle := 0)
  }

  function CalibratedPad(pad: Pad, p: nat, cal: Calibration): Pad
    requires CalShaped(cal) && p < PADS
  {
    Pad(if p < 40 && cal.diff[p].Some? then cal.diff[p].value + Threshold(p) else pad.init,
        if p >= 40 then cal.se[p - 40] - THRESHOLD_OVER_39 else pad.initSe,
        0, pad.sticky, false, false, false, false)
  }

  function CalibratedPads(pads: seq<Pad>, cal: Calibration): seq<Pad>
    requires |pads| == PADS && CalShaped(cal)
  {
    seq(PADS, p requires 0 <= p < PADS => CalibratedPad(pads[p], p, cal))
  }

  /** Calibrate: all but the thresholds without a DAC code starts afresh. */
  function OnCalibrated(s: State, cal: Calibration): State
    requires Shaped(s) && s.at.Calibrating? && CalShaped(cal)
  {
    s.(pads := CalibratedPads(s.pads, cal),
       controls := seq(CONTROLS, _ => false), order := cal.order, at := Ready(s.at.pad))
  }

  function Min(x: int, y: int): int {
    if x < y then x else y
  }

  function Smoothed(filtered: int, val: int): int {
    Min(HalfTowardZero(filtered + val), PRESSURE_MAX)
  }

  /** The end of a pad's visit. */
  function Done(s: State): State {
    s.(index := s.index + 1, at := Between)
  }

  function OnVisit(s: State, pad: nat, reading: int): State
    requires Shaped(s) && s.at == Ready(pad)
  {
    var q := s.pads[pad];
    if pad < 40 then
      var val := reading - q.init;
      if val > 0 then
        if !q.sent then s.(at := Sampling(pad, val, SAMPLES))
        else
          var f := Smoothed(q.filtered, val);
          var stuck := f == PRESSURE_MAX && !q.anti;
          s.(at := Holding(pad),
             pads := s.pads[pad := q.(filtered := f, anti := q.anti || stuck,
                                      init := if stuck then q.init + ANTI_STICKY_ADJUST else q.init)])
      else if q.sent then s.(at := Releasing(pad))
      else Done(s)
    else
      var val := q.initSe - reading;
      if val > 0 then
        s.(at := Touching(pad, val),
           pads := s.pads[pad := q.(hyst := true,
                                    initSe := if q.hyst then q.initSe else q.initSe + HYSTERISIS_ADJUST_OVER_39)])
      else
        s.(at := Untouching(pad),
           pads := s.pads[pad := q.(hyst := false,
                                    initSe := if q.hyst then q.initSe - HYSTERISIS_ADJUST_OVER_39 else q.initSe)])
  }

  function OnGo(s: State): State
    requires Shaped(s) && Enabled(s, Go)
  {
    var pad := s.at.pad;
    var q := s.pads[pad];
    match s.at
    case Sampling(_, peak, _) =>
      s.(pads := s.pads[pad := q.(played := true)], at := Attacked(pad, Min(peak / 2, 127)))
    case Attacked(_, velocity) =>
      Done(s.(pads := s.pads[pad := q.(sent := true, filtered := velocity, init := q.init - Hysterisis(pad))],
              ledSum := s.ledSum + (if velocity >= 0 then velocity else 0)))
    case Holding(_) =>
      Done(s.(pads := s.pads[pad := q.(played := true)],
              ledSum := s.ledSum + (if q.filtered >= 0 then q.filtered else 0)))
    case Releasing(_) =>
      var free := q.anti && q.sticky + 1 > STICKY_TIMEOUT;
      s.(at := Released(pad),
         pads := s.pads[pad := q.(played := false, anti := q.anti && !free,
                                  sticky := if free then 0 else if q.anti then q.sticky + 1 else q.sticky,
                                  init := if free then q.init - ANTI_STICKY_ADJUST else q.init)])
    case Released(_) =>
      Done(s.(pads := s.pads[pad := q.(sent := false, init := q.init + Hysterisis(pad))]))
    case Touching(_, val) =>
      var f := Smoothed(q.filtered, 2 * val);
      Done(s.(pads := s.pads[pad := q.(filtered := f, played := true)], ledSum := s.ledSum + (if f >= 0 then f else 0)))
    case Untouching(_) =>
      Done(s.(pads := s.pads[pad := q.(played := false)]))
  }

  function Next(s: State, e: Event): State
    requires Shaped(s) && Enabled(s, e)
  {
    match e
    case Tick => OnTick(s)
    case Control(i, on) => s.(controls := s.controls[i := on])
    case Latch => s.(at := Latched(s.order[s.index]))
    case ResetUp => s.(controls := s.controls[RESET := false], at := Ready(s.at.pad))
    case ResetDown => s.(controls := s.controls[RESET := true], at := Pressed(s.at.pad))
    case LeaveStandby => s.(raised := false, at := Calibrating(s.at.pad, s.raised))
    case Calibrated(cal) => OnCalibrated(s, cal)
    case Visit(reading) => OnVisit(s, s.at.pad, reading)
    case Sample(reading) =>
      var val := reading - s.pads[s.at.pad].init;
      s.(at := Sampling(s.at.pad, if val > s.at.peak then val else s.at.peak, s.at.left - 1))
    case Go => OnGo(s)
    case EndRound => s.(index := 0, ledSum := 0)
  }

  lemma NextShaped(s: State, e: Event)
    requires Shaped(s) && Enabled(s, e)
    ensures Shaped(Next(s, e))
  {
  }

  // ----- runs -----

  /** Every event of the run is enabled when it comes. */
  predicate Possible(s: State, es: seq<Event>)
    requires Shaped(s)
    decreases |es|, 0
  {
    es == [] || (Possible(s, es[..|es| - 1]) && Enabled(Run(s, es[..|es| - 1]), es[|es| - 1]))
  }

  function Run(s: State, es: seq<Event>): (t: State)
    requires Shaped(s) && Possible(s, es)
    ensures Shaped(t)
    decreases |es|, 1
  {
    if es == [] then s
    else
      var t := Run(s, es[..|es| - 1]);
      NextShaped(t, es[|es| - 1]);
      Next(t, es[|es| - 1])
  }

  lemma RunExtend(s: State, es: seq<Event>, e: Event)
    requires Shaped(s) && Possible(s, es) && Enabled(Run(s, es), e)
    ensures Possible(s, es + [e]) && Run(s, es + [e]) == Next(Run(s, es), e)
    ensures Shaped(Next(Run(s, es), e))
  {
    assert (es + [e])[..|es|] == es;
  }

  function Front(es: seq<Event>): seq<Event>
    requires es != []
  {
    es[..|es| - 1]
  }

  function Last(es: seq<Event>): Event
    requires es != []
  {
    es[|es| - 1]
  }

  /** Just calibrated at start-up, with nothing pressed and nothing raised. Idle ticks have been
      counted since the first delay of the calibration. */
  predicate Initial(s: State) {
    && Shaped(s) && !s.raised && s.idle <= STANDBY_TICKS && s.ledSum == 0 && s.index == 0 && s.at == Between
    && (forall p | 0 <= p < PADS :: var q := s.pads[p];
          q.filtered == 0 && q.sticky == 0 && !q.anti && !q.hyst && !q.sent && !q.played)
    && (forall i | 0 <= i < CONTROLS :: !s.controls[i])
  }

  // ----- conservation of the thresholds -----

  /** The thresholds are raised; between leaving standby and the end of the calibration they still
      are, although the flag says otherwise. */
  predicate InStandby(s: State) {
    s.raised || (s.at.Calibrating? && s.at.standby)
  }

  /** What the four adjustments add to the threshold of a pad. */
  function Adjustment(s: State, p: nat): int
    requires p < |s.pads|
  {
    (if InStandby(s) then STANDBY_ADJUST else 0)
    + (if s.pads[p].anti then ANTI_STICKY_ADJUST else 0)
    - (if s.pads[p].sent then Hysterisis(p) else 0)
  }

  function AdjustmentSe(s: State, p: nat): int
    requires p < |s.pads|
  {
    if s.pads[p].hyst then HYSTERISIS_ADJUST_OVER_39 else 0
  }

  /** The threshold right after the last calibration of the run. */
  function BaseOf(s: State, es: seq<Event>, p: nat): int
    requires Shaped(s) && Possible(s, es) && p < PADS
    decreases |es|
  {
    if es == [] then s.pads[p].init
    else if Last(es).Calibrated? then Run(s, es).pads[p].init
    else BaseOf(s, Front(es), p)
  }

  function BaseSeOf(s: State, es: seq<Event>, p: nat): int
    requires Shaped(s) && Possible(s, es) && p < PADS
    decreases |es|
  {
    if es == [] then s.pads[p].initSe
    else if Last(es).Calibrated? then Run(s, es).pads[p].initSe
    else BaseSeOf(s, Front(es), p)
  }

  /** Flags that only one kind of pad uses, and the phase of the loop that its flags betray. */
  predicate FlagsMatch(s: State, p: nat)
    requires Shaped(s) && p < PADS
  {
    var q := s.pads[p];
    && q.sticky <= STICKY_TIMEOUT
    && 0 <= q.filtered <= PRESSURE_MAX
    && (p < 40 ==> !q.hyst)
    && (p >= 40 ==> !q.sent && !q.anti)
    && (p < 40 ==> (q.sent != q.played <==> (s.at.Attacked? || s.at.Released?) && s.at.pad == p))
    && (s.at.Sampling? && s.at.pad == p ==> !q.sent && s.at.peak > 0)
    && (s.at.Attacked? && s.at.pad == p ==> !q.sent && 0 <= s.at.velocity <= 127)
    && (s.at.Holding? && s.at.pad == p ==> q.sent)
    && (s.at.Releasing? && s.at.pad == p ==> q.sent)
    && (s.at.Released? && s.at.pad == p ==> q.sent)
    && (s.at.Touching? && s.at.pad == p ==> s.at.val > 0)
    && (p >= 40 ==> (q.hyst != q.played ==> (s.at.Touching? || s.at.Untouching?) && s.at.pad == p))
    && (s.at.Touching? && s.at.pad == p ==> q.hyst)
    && (s.at.Untouching? && s.at.pad == p ==> !q.hyst)
    && (s.at.Pressed? || s.at.Calibrating? ==> s.controls[RESET])
    && (s.at.Calibrating? ==> !s.raised)
  }

  predicate Inv(s: State) {
    && Shaped(s) && s.idle <= STANDBY_TICKS
    && (forall p | 0 <= p < PADS :: FlagsMatch(s, p))
    && s.ledSum <= PRESSURE_MAX * s.index
  }

  /** What a step that is no calibration keeps of a pad. */
  predicate Conserved(s: State, t: State, p: nat)
    requires Shaped(s) && p < PADS
  {
    && Shaped(t) && FlagsMatch(t, p)
    && t.pads[p].init - Adjustment(t, p) == s.pads[p].init - Adjustment(s, p)
    && t.pads[p].initSe - AdjustmentSe(t, p) == s.pads[p].initSe - AdjustmentSe(s, p)
  }

  lemma VisitConserves(s: State, reading: int, p: nat)
    requires Shaped(s) && s.at.Ready? && p < PADS && FlagsMatch(s, p)
    ensures Conserved(s, OnVisit(s, s.at.pad, reading), p)
  {
  }

  lemma GoConserves(s: State, p: nat)
    requires Shaped(s) && Enabled(s, Go) && p < PADS && FlagsMatch(s, p)
    ensures Conserved(s, OnGo(s), p)
  {
    if p != s.at.pad {
      ElsewhereConserves(s, p);
    } else if s.at.Releasing? {
      ReleaseConserves(s);
    } else {
      ReportConserves(s);
    }
  }

  lemma ElsewhereConserves(s: State, p: nat)
    requires Shaped(s) && Enabled(s, Go) && p < PADS && p != s.at.pad && FlagsMatch(s, p)
    ensures Conserved(s, OnGo(s), p)
  {
    NextShaped(s, Go);
    SamePadConserved(s, OnGo(s), p);
  }

  lemma SamePadConserved(s: State, t: State, p: nat)
    requires Shaped(s) && Shaped(t) && p < PADS && FlagsMatch(s, p) && t.pads[p] == s.pads[p]
    requires !s.at.Between? && s.at.pad != p && (t.at.Between? || t.at.pad != p)
    requires t.raised == s.raised && !s.at.Calibrating? && !t.at.Calibrating? && !t.at.Pressed?
    ensures Conserved(s, t, p)
  {
  }

  lemma ReleaseConserves(s: State)
    requires Shaped(s) && s.at.Releasing? && FlagsMatch(s, s.at.pad)
    ensures Conserved(s, OnGo(s), s.at.pad)
  {
  }

  lemma ReportConserves(s: State)
    requires Shaped(s) && Enabled(s, Go) && !s.at.Releasing? && FlagsMatch(s, s.at.pad)
    ensures Conserved(s, OnGo(s), s.at.pad)
  {
  }

  lemma TickConserves(s: State, p: nat)
    requires Shaped(s) && p < PADS && FlagsMatch(s, p)
    ensures Conserved(s, OnTick(s), p)
  {
    if s.at.Calibrating? {
      assert AnyPlayed(s);
    }
  }

  lemma CalibrationStartsAfresh(s: State, cal: Calibration, p: nat)
    requires Shaped(s) && s.at.Calibrating? && CalShaped(cal) && p < PADS && FlagsMatch(s, p)
    ensures var t := OnCalibrated(s, cal);
      Shaped(t) && FlagsMatch(t, p) && Adjustment(t, p) == 0 && AdjustmentSe(t, p) == 0
  {
  }

  lemma OtherStepConserves(s: State, e: Event, p: nat)
    requires Shaped(s) && Enabled(s, e) && p < PADS && FlagsMatch(s, p)
    requires !e.Tick? && !e.Calibrated? && !e.Visit? && !e.Go?
    ensures Conserved(s, Next(s, e), p)
  {
    NextShaped(s, e);
  }

  /** Whatever the step, interrupt or main loop, it moves a threshold by exactly what the flags
      say; only a calibration sets a new base. */
  lemma StepConserves(s: State, e: Event, p: nat)
    requires Shaped(s) && Enabled(s, e) && p < PADS && FlagsMatch(s, p)
    ensures Shaped(Next(s, e)) && FlagsMatch(Next(s, e), p)
    ensures !e.Calibrated? ==> Conserved(s, Next(s, e), p)
    ensures e.Calibrated? ==> Adjustment(Next(s, e), p) == 0 && AdjustmentSe(Next(s, e), p) == 0
  {
    match e
    case Visit(reading) => VisitConserves(s, reading, p);
    case Go => GoConserves(s, p);
    case Tick => TickConserves(s, p);
    case Calibrated(cal) => CalibrationStartsAfresh(s, cal, p);
    case _ => OtherStepConserves(s, e, p);
  }

  /** In every state that any interleaving of the main loop and the interrupt can reach, the
      threshold of a pad is its last calibrated value plus 100 in standby, plus 50 while the
      anti-sticky adjustment is in force, less the hysteresis while its velocity is sent. */
  lemma {:induction false} ThresholdConservation(s: State, es: seq<Event>, p: nat)
    requires Initial(s) && Possible(s, es) && p < PADS
    ensures var t := Run(s, es);
      && t.pads[p].init == BaseOf(s, es, p) + Adjustment(t, p)
      && t.pads[p].initSe == BaseSeOf(s, es, p) + AdjustmentSe(t, p)
      && FlagsMatch(t, p)
    decreases |es|
  {
    if es != [] {
      ThresholdConservation(s, Front(es), p);
      StepConserves(Run(s, Front(es)), Last(es), p);
    }
  }

  /** A calibration that finds no DAC code for a pad makes a new base of the threshold as it is:
      the adjustments in force stay in it for good. One that finds a code starts afresh. */
  lemma FailedCalibrationDrifts(s: State, es: seq<Event>, cal: Calibration, p: nat)
    requires Initial(s) && Possible(s, es) && Enabled(Run(s, es), Calibrated(cal)) && p < 40
    ensures var t := Run(s, es);
      OnCalibrated(t, cal).pads[p].init ==
        match cal.diff[p]
        case Some(v) => v + Threshold(p)
        case None => BaseOf(s, es, p) + Adjustment(t, p)
  {
    ThresholdConservation(s, es, p);
  }

  lemma LedSumStep(s: State, e: Event)
    requires Inv(s) && Enabled(s, e)
    ensures Next(s, e).ledSum <= PRESSURE_MAX * Next(s, e).index
  {
    if !s.at.Between? {
      assert FlagsMatch(s, s.at.pad);
    }
  }

  lemma StepKeepsInv(s: State, e: Event)
    requires Inv(s) && Enabled(s, e)
    ensures Inv(Next(s, e))
  {
    forall p | 0 <= p < PADS ensures Shaped(Next(s, e)) && FlagsMatch(Next(s, e), p) {
      StepConserves(s, e, p);
    }
    LedSumStep(s, e);
  }

  lemma {:induction false} RunKeepsInv(s: State, es: seq<Event>)
    requires Initial(s) && Possible(s, es)
    ensures Inv(Run(s, es))
    decreases |es|
  {
    if es != [] {
      RunKeepsInv(s, Front(es));
      StepKeepsInv(Run(s, Front(es)), Last(es));
    }
  }

  // ----- standby -----

  /** How many ticks in a row, up to the end of the run, found nothing played; those before the run
      included. */
  function IdleStreak(s: State, es: seq<Event>): nat
    requires Shaped(s) && Possible(s, es)
    decreases |es|
  {
    if es == [] then s.idle else StreakWith(Run(s, Front(es)), Last(es), IdleStreak(s, Front(es)))
  }

  function StreakWith(s: State, e: Event, streak: nat): nat {
    if !e.Tick? then streak else if AnyPlayed(s) then 0 else streak + 1
  }

  lemma IdleCounts(s: State, e: Event, streak: nat)
    requires Shaped(s) && Enabled(s, e) && s.idle <= STANDBY_TICKS && s.idle == Cycle(streak)
    ensures Next(s, e).idle <= STANDBY_TICKS && Next(s, e).idle == Cycle(StreakWith(s, e, streak))
  {
    IdleStep(s, e);
  }

  lemma {:induction false} IdleIsStreak(s: State, es: seq<Event>)
    requires Initial(s) && Possible(s, es)
    ensures Run(s, es).idle <= STANDBY_TICKS
    ensures Run(s, es).idle == Cycle(IdleStreak(s, es))
    decreases |es|
  {
    if es == [] {
      CycleIsRemainder(s.idle);
    } else {
      IdleIsStreak(s, Front(es));
      IdleCounts(Run(s, Front(es)), Last(es), IdleStreak(s, Front(es)));
    }
  }

  /** n modulo 20001, counted up. */
  function Cycle(n: nat): nat {
    if n == 0 || Cycle(n - 1) + 1 > STANDBY_TICKS then 0 else Cycle(n - 1) + 1
  }

  lemma {:induction false} CycleIsRemainder(n: nat)
    ensures Cycle(n) == n % (STANDBY_TICKS + 1)
  {
    if n > 0 {
      CycleIsRemainder(n - 1);
      var m, k := STANDBY_TICKS + 1, n - 1;
      assert k == m * (k / m) + k % m;
      assert k % m + 1 == m ==> n == m * (k / m + 1);
    }
  }

  lemma IdleStep(s: State, e: Event)
    requires Shaped(s) && Enabled(s, e)
    ensures var t := Next(s, e);
      && (!e.Tick? ==> t.idle == s.idle && (t.raised == s.raised || (e.LeaveStandby? && !t.raised)))
      && (e.Tick? && AnyPlayed(s) ==> t.idle == 0 && !t.raised)
      && (e.Tick? && !AnyPlayed(s) ==>
           && t.idle == (if s.idle + 1 <= STANDBY_TICKS then s.idle + 1 else 0)
           && t.raised == (s.raised || s.idle + 1 > STANDBY_TICKS))
  {
  }

  /** Standby is entered only by a tick that ends at least 20001 idle ticks in a row. */
  lemma RaisedOnlyAfterIdle(s: State, es: seq<Event>)
    requires Initial(s) && es != [] && Possible(s, es)
    requires !Run(s, Front(es)).raised && Run(s, es).raised
    ensures Last(es).Tick? && !AnyPlayed(Run(s, Front(es)))
    ensures IdleStreak(s, es) >= STANDBY_TICKS + 1 && IdleStreak(s, es) % (STANDBY_TICKS + 1) == 0
  {
    IdleIsStreak(s, es);
    IdleStep(Run(s, Front(es)), Last(es));
    CycleIsRemainder(IdleStreak(s, es));
  }

  predicate Held(s: State, p: nat)
    requires p < |s.pads|
  {
    if p < 40 then s.pads[p].sent else s.pads[p].hyst
  }

  /** A tick while a pad is held never leaves the thresholds raised, except between the two halves of
      the pad's own report: when its release has been reported, or its touch not yet. */
  lemma HeldPadKeepsStandbyOff(s: State, es: seq<Event>, p: nat)
    requires Initial(s) && Possible(s, es) && p < PADS && Held(Run(s, es), p)
    requires var at := Run(s, es).at; !((at.Released? || at.Touching?) && at.pad == p)
    ensures !OnTick(Run(s, es)).raised && OnTick(Run(s, es)).idle == 0
  {
    ThresholdConservation(s, es, p);
    assert Run(s, es).pads[p].played;
    IdleStep(Run(s, es), Tick);
  }

  function Ticks(es: seq<Event>): nat {
    if es == [] then 0 else Ticks(Front(es)) + (if Last(es).Tick? then 1 else 0)
  }

  /** No calibration happens, and every tick finds nothing played. */
  ghost predicate Quiet(s: State, es: seq<Event>)
    requires Shaped(s) && Possible(s, es)
    decreases |es|
  {
    es == [] ||
    (Quiet(s, Front(es)) && !Last(es).LeaveStandby? && (Last(es).Tick? ==> !AnyPlayed(Run(s, Front(es)))))
  }

  /** From any state, 20001 idle ticks without a calibration always lead to standby, whatever the
      main loop does in between. */
  lemma {:induction false} QuietReachesStandby(s: State, es: seq<Event>)
    requires Shaped(s) && s.idle <= STANDBY_TICKS && Possible(s, es) && Quiet(s, es)
    ensures var t := Run(s, es);
      && (t.raised || t.idle == s.idle + Ticks(es))
      && t.idle <= STANDBY_TICKS
      && (s.raised ==> t.raised)
    ensures Ticks(es) >= STANDBY_TICKS + 1 ==> Run(s, es).raised
    decreases |es|
  {
    if es != [] {
      QuietReachesStandby(s, Front(es));
      IdleStep(Run(s, Front(es)), Last(es));
    }
  }

  /** Ticks that come in during a calibration, whatever part of the thresholds and of the order it has
      rewritten by then, change nothing but the idle count: that the calibration is one step of the
      machine leaves no interleaving out. */
  lemma ResetHoldsOffStandby(s: State, es: seq<Event>, pads: seq<Pad>, order: seq<nat>)
    requires Initial(s) && Possible(s, es) && Run(s, es).at.Calibrating?
    ensures var halfway := Run(s, es).(pads := pads, order := order);
      OnTick(halfway) == halfway.(idle := 0)
  {
    ThresholdConservation(s, es, 0);
    assert Run(s, es).controls[RESET];
  }

  // ----- press and release events -----

  predicate IsPress(s: State, e: Event, p: nat) {
    e.Go? && s.at.Sampling? && s.at.left == 0 && s.at.pad == p
  }

  predicate IsRelease(s: State, e: Event, p: nat) {
    e.Go? && s.at.Releasing? && s.at.pad == p
  }

  /** The press (true) and release (false) reports for a pad since the last calibration. */
  function Reports(s: State, es: seq<Event>, p: nat): seq<bool>
    requires Shaped(s) && Possible(s, es)
    decreases |es|
  {
    if es == [] then []
    else ReportsWith(Run(s, Front(es)), Last(es), p, Reports(s, Front(es), p))
  }

  lemma PlayedFlips(s: State, e: Event, p: nat)
    requires Shaped(s) && Enabled(s, e) && p < 40 && FlagsMatch(s, p)
    ensures var t := Next(s, e);
      && (IsPress(s, e, p) ==> !s.pads[p].played && t.pads[p].played)
      && (IsRelease(s, e, p) ==> s.pads[p].played && !t.pads[p].played)
      && (!IsPress(s, e, p) && !IsRelease(s, e, p) && !e.Calibrated? ==> t.pads[p].played == s.pads[p].played)
      && (e.Calibrated? ==> !t.pads[p].played)
  {
  }

  predicate Alternating(r: seq<bool>) {
    forall i | 0 <= i < |r| :: r[i] == (i % 2 == 0)
  }

  lemma AlternatingOneMore(r: seq<bool>, b: bool)
    requires Alternating(r) && b == (|r| % 2 == 0)
    ensures Alternating(r + [b]) && ((|r| + 1) % 2 == 1) == b
  {
  }

  function ReportsWith(s: State, e: Event, p: nat, r: seq<bool>): seq<bool> {
    if e.Calibrated? then []
    else if IsPress(s, e, p) then r + [true]
    else if IsRelease(s, e, p) then r + [false]
    else r
  }

  lemma ReportStep(s: State, e: Event, p: nat, r: seq<bool>)
    requires Shaped(s) && Enabled(s, e) && p < 40 && FlagsMatch(s, p)
    requires Alternating(r) && s.pads[p].played == (|r| % 2 == 1)
    ensures var q := ReportsWith(s, e, p, r);
      Alternating(q) && |Next(s, e).pads| == PADS && Next(s, e).pads[p].played == (|q| % 2 == 1)
  {
    PlayedFlips(s, e, p);
    NextShaped(s, e);
    if !e.Calibrated? && (IsPress(s, e, p) || IsRelease(s, e, p)) {
      AlternatingOneMore(r, IsPress(s, e, p));
    }
  }

  /** Between calibrations the reports of a pad are press, release, press, release, ... */
  lemma {:induction false} ReportsAlternate(s: State, es: seq<Event>, p: nat)
    requires Initial(s) && Possible(s, es) && p < 40
    ensures var r := Reports(s, es, p);
      Alternating(r) && Run(s, es).pads[p].played == (|r| % 2 == 1)
    decreases |es|
  {
    if es != [] {
      ReportsAlternate(s, Front(es), p);
      ThresholdConservation(s, Front(es), p);
      ReportStep(Run(s, Front(es)), Last(es), p, Reports(s, Front(es), p));
    }
  }

  // ----- no chatter -----

  /** A reading above this presses an idle pad. */
  function PressThreshold(s: State, p: nat): int
    requires p < |s.pads|
  {
    s.pads[p].init + (if s.pads[p].sent then Hysterisis(p) else 0)
  }

  /** A reading at or below this releases a held pad. */
  function ReleaseThreshold(s: State, p: nat): int
    requires p < |s.pads|
  {
    s.pads[p].init - (if s.pads[p].sent then 0 else Hysterisis(p))
  }

  /** The hysteresis band lies between the two, and moves with standby and anti-sticky only. */
  lemma BandIsHysterisis(s: State, es: seq<Event>, p: nat)
    requires Initial(s) && Possible(s, es) && p < 40
    ensures var t := Run(s, es);
      && PressThreshold(t, p) == BaseOf(s, es, p) + (if InStandby(t) then STANDBY_ADJUST else 0)
                                 + (if t.pads[p].anti then ANTI_STICKY_ADJUST else 0)
      && ReleaseThreshold(t, p) == PressThreshold(t, p) - Hysterisis(p)
  {
    ThresholdConservation(s, es, p);
  }

  predicate Deciding(at: Point, p: nat) {
    (at.Sampling? || at.Attacked? || at.Releasing? || at.Released?) && at.pad == p
  }

  /** Every reading of the pad in the run is in the band of the moment, and no calibration comes. */
  ghost predicate Banded(s: State, es: seq<Event>, p: nat)
    requires Shaped(s) && Possible(s, es) && p < PADS
    decreases |es|
  {
    es == [] ||
    (var t := Run(s, Front(es));
     && Banded(s, Front(es), p)
     && !Last(es).Calibrated?
     && (Last(es).Visit? && t.at.pad == p ==>
           ReleaseThreshold(t, p) < Last(es).reading <= PressThreshold(t, p)))
  }

  lemma BandStep(s: State, e: Event, p: nat)
    requires Shaped(s) && Enabled(s, e) && p < 40 && FlagsMatch(s, p) && !Deciding(s.at, p) && !e.Calibrated?
    requires e.Visit? && s.at.pad == p ==> ReleaseThreshold(s, p) < e.reading <= PressThreshold(s, p)
    ensures var t := Next(s, e);
      && !IsPress(s, e, p) && !IsRelease(s, e, p) && !Deciding(t.at, p)
      && t.pads[p].sent == s.pads[p].sent && t.pads[p].anti == s.pads[p].anti
  {
  }

  /** No chatter: readings that stay within the band, however long, press and release nothing and
      leave the pad as it is; not even the anti-sticky adjustment is made. */
  lemma {:induction false} NoChatter(s: State, es: seq<Event>, p: nat)
    requires Inv(s) && p < 40 && Possible(s, es) && !Deciding(s.at, p) && Banded(s, es, p)
    ensures var t := Run(s, es);
      && Inv(t) && !Deciding(t.at, p)
      && t.pads[p].sent == s.pads[p].sent && t.pads[p].anti == s.pads[p].anti
      && Reports(s, es, p) == []
    decreases |es|
  {
    if es != [] {
      NoChatter(s, Front(es), p);
      StepKeepsInv(Run(s, Front(es)), Last(es));
      BandStep(Run(s, Front(es)), Last(es), p);
    }
  }
}
