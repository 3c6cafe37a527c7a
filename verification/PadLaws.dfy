/** What the steps of the scan mean in numbers: the thresholds after a calibration, what makes a pad
    be pressed, held and released, where the pressure filter goes, the peak of an attack, the sum for
    the LED and the count that lifts the anti-sticky adjustment. */
module PadLaws {
  import opened Bytes
  import opened PadScan

  // ----- thresholds -----

  /** A calibration that read v for a pad, at the DAC code it found, puts the press threshold 120 above
      for pads 0 to 7 and 105 above for pads 8 to 39, the release threshold 35 below that for pads 0
      to 15 and 25 for pads 16 to 39. Pads from 40 on are touched 40 below their reading. */
  lemma CalibratedThresholds(s: State, cal: Calibration, p: nat)
    requires Shaped(s) && Enabled(s, Calibrated(cal)) && p < PADS
    ensures var t := Next(s, Calibrated(cal));
      && (p < 40 && cal.diff[p].Some? ==>
            && PressThreshold(t, p) == cal.diff[p].value + (if p < 8 then 120 else 105)
            && ReleaseThreshold(t, p) == PressThreshold(t, p) - (if p < 16 then 35 else 25))
      && (p >= 40 ==> t.pads[p].initSe == cal.se[p - 40] - 40)
  {
  }

  /** It lets go of all pads and controls and empties the filters; only the sticky count stays. */
  lemma CalibratedAfresh(s: State, cal: Calibration, p: nat)
    requires Shaped(s) && Enabled(s, Calibrated(cal)) && p < PADS
    ensures var t := Next(s, Calibrated(cal)); var q := t.pads[p];
      && q.filtered == 0 && !q.anti && !q.hyst && !q.sent && !q.played && q.sticky == s.pads[p].sticky
      && t.order == cal.order && (forall i | 0 <= i < CONTROLS :: !t.controls[i])
      && t.at == Ready(s.at.pad) && t.index == s.index && t.idle == s.idle && t.ledSum == s.ledSum
  {
  }

  /** What the adjustments amount to: 100 in standby, 50 for a sticky pad, 35 or 25 while it is held. */
  lemma Amounts(s: State, p: nat)
    requires Shaped(s) && p < PADS
    ensures Adjustment(s, p) ==
      (if InStandby(s) then 100 else 0) + (if s.pads[p].anti then 50 else 0)
      - (if !s.pads[p].sent then 0 else if p < 16 then 35 else 25)
    ensures AdjustmentSe(s, p) == if s.pads[p].hyst then 10 else 0
  {
  }

  /** A tick that finds any of the 48 pads or 6 controls in use ends standby and the idle count. */
  lemma PlayedKeepsAwake(s: State, k: nat)
    requires Shaped(s) && k < 48 + 6 && if k < 48 then s.pads[k].played else s.controls[k - 48]
    ensures AnyPlayed(s) && Next(s, Tick).idle == 0 && !Next(s, Tick).raised
  {
    assert AnyPlayed(s);
  }

  /** Standby comes after 20001 idle ticks, no fewer, and no more unless a calibration comes. */
  lemma StandbyTime(s: State, es: seq<Event>)
    requires Initial(s) && Possible(s, es)
    ensures es != [] && !Run(s, Front(es)).raised && Run(s, es).raised ==> IdleStreak(s, es) >= 20001
    ensures Quiet(s, es) && Ticks(es) >= 20001 ==> Run(s, es).raised
  {
    if es != [] && !Run(s, Front(es)).raised && Run(s, es).raised {
      RaisedOnlyAfterIdle(s, es);
    }
    if Quiet(s, es) {
      QuietReachesStandby(s, es);
    }
  }

  // ----- what a first reading decides -----

  /** A pad below 40 that is not held begins a press exactly if the reading exceeds its threshold; the
      first value of the attack is the excess. Otherwise the visit is over and nothing has changed. */
  lemma PressIff(s: State, reading: int)
    requires Shaped(s) && s.at.Ready? && s.at.pad < 40 && !s.pads[s.at.pad].sent
    ensures var t := Next(s, Visit(reading)); var th := s.pads[s.at.pad].init;
      && t.pads == s.pads
      && (reading > th ==> t.at == Sampling(s.at.pad, reading - th, 200) && t.index == s.index)
      && (reading <= th ==> t.at == Between && t.index == s.index + 1)
  {
  }

  /** A held one is released exactly if the reading does not exceed its threshold. */
  lemma ReleaseIff(s: State, reading: int)
    requires Shaped(s) && s.at.Ready? && s.at.pad < 40 && s.pads[s.at.pad].sent
    ensures var t := Next(s, Visit(reading)); var th := s.pads[s.at.pad].init;
      && (reading <= th ==> t.at == Releasing(s.at.pad) && t.pads == s.pads)
      && (reading > th ==> t.at == Holding(s.at.pad))
  {
  }

  /** A pad from 40 on is touched exactly if its reading is below its threshold, which moves by 10 when
      a touch begins or ends. */
  lemma TouchIff(s: State, reading: int)
    requires Shaped(s) && s.at.Ready? && s.at.pad >= 40
    ensures var t := Next(s, Visit(reading)); var (q, r) := (s.pads[s.at.pad], t.pads[s.at.pad]);
      && t.at == (if reading < q.initSe then Touching(s.at.pad, q.initSe - reading) else Untouching(s.at.pad))
      && r.hyst == (reading < q.initSe)
      && r.initSe == q.initSe + (if r.hyst then 10 else 0) - (if q.hyst then 10 else 0)
      && r.filtered == q.filtered && r.played == q.played
  {
  }

  // ----- the filter -----

  function Capped(val: int): int {
    if val < 511 then val else 511
  }

  /** From f, the filter has gone to g towards the value val, which counts up to 511: no further than it,
      half of the way to within one, to the top exactly if that is half-way or nearer. */
  predicate GoesHalfway(f: int, val: int, g: int) {
    && (f <= Capped(val) ==> f <= g <= Capped(val))
    && (f >= Capped(val) ==> Capped(val) <= g <= f)
    && (g < 511 ==> 0 <= f + val - 2 * g <= 1)
    && (g == 511 <==> f + val >= 2 * 511)
  }

  /** The visit of a held pad: the filter goes half-way to the pressure. When it comes to the top, the
      anti-sticky adjustment raises the threshold by 50, unless it is in force. */
  lemma HeldFilter(s: State, reading: int)
    requires Inv(s) && s.at.Ready? && s.at.pad < 40 && s.pads[s.at.pad].sent && reading > s.pads[s.at.pad].init
    ensures var (q, r) := (s.pads[s.at.pad], Next(s, Visit(reading)).pads[s.at.pad]);
      && GoesHalfway(q.filtered, reading - q.init, r.filtered)
      && r.anti == (q.anti || r.filtered == 511)
      && r.init == q.init + (if r.anti && !q.anti then 50 else 0)
      && r.sent == q.sent && r.played == q.played && r.sticky == q.sticky
  {
    assert FlagsMatch(s, s.at.pad);
  }

  /** The report of a touched pad: the filter goes half-way to twice the excess. */
  lemma TouchedFilter(s: State)
    requires Inv(s) && s.at.Touching?
    ensures var (q, t) := (s.pads[s.at.pad], Next(s, Go)); var r := t.pads[s.at.pad];
      && GoesHalfway(q.filtered, 2 * s.at.val, r.filtered)
      && r == q.(filtered := r.filtered, played := true)
      && t.ledSum == s.ledSum + r.filtered && t.at == Between && t.index == s.index + 1
  {
    assert FlagsMatch(s, s.at.pad);
  }

  function Distance(a: int, b: int): nat {
    if a < b then b - a else a - b
  }

  /** n halved k times, rounding down. */
  function Halvings(n: int, k: nat): int {
    if k == 0 then n else Halvings(n, k - 1) / 2
  }

  function Power2(k: nat): nat {
    if k == 0 then 1 else 2 * Power2(k - 1)
  }

  /** That is n divided by 2^k. */
  lemma {:induction false} HalvingsDivide(n: int, k: nat)
    ensures Power2(k) * Halvings(n, k) <= n < Power2(k) * (Halvings(n, k) + 1)
  {
    if k > 0 {
      HalvingsDivide(n, k - 1);
      var h, q := Halvings(n, k - 1), Power2(k - 1);
      TwiceAsMuch(q, h / 2, h);
      TwiceAsMuch(q, h / 2 + 1, h + 1);
    }
  }

  lemma TwiceAsMuch(q: nat, half: int, whole: int)
    ensures 2 * half <= whole ==> 2 * q * half <= q * whole
    ensures 2 * half >= whole ==> 2 * q * half >= q * whole
  {
    if 2 * half <= whole {
      assert q * (whole - 2 * half) >= 0;
    }
    if 2 * half >= whole {
      assert q * (2 * half - whole) >= 0;
    }
  }

  lemma HalfwayHalves(f: int, val: int, g: int)
    requires 0 <= f <= 511 && val > 0 && GoesHalfway(f, val, g)
    ensures 2 * (Distance(g, Capped(val)) - 1) <= Distance(f, Capped(val)) - 1
  {
  }

  predicate IsVisitOf(s: State, e: Event, p: nat) {
    e.Visit? && s.at.Ready? && s.at.pad == p
  }

  /** One more, if it is a visit of the pad. */
  function VisitsWith(s: State, e: Event, p: nat, n: nat): nat {
    if IsVisitOf(s, e, p) then n + 1 else n
  }

  function VisitsOf(s: State, es: seq<Event>, p: nat): nat
    requires Shaped(s) && Possible(s, es)
    decreases |es|
  {
    if es == [] then 0
    else VisitsWith(Run(s, Front(es)), Last(es), p, VisitsOf(s, Front(es), p))
  }

  /** Whenever the pad is visited it reads val above its threshold, and no calibration comes. */
  ghost predicate SteadilyHeld(s: State, es: seq<Event>, p: nat, val: int)
    requires Shaped(s) && Possible(s, es) && p < PADS
    decreases |es|
  {
    es == [] ||
    (var t := Run(s, Front(es));
     && SteadilyHeld(s, Front(es), p, val)
     && !Last(es).Calibrated?
     && (IsVisitOf(t, Last(es), p) ==> Last(es).reading - t.pads[p].init == val))
  }

  lemma SteadyStep(s: State, e: Event, p: nat, val: int)
    requires Inv(s) && Enabled(s, e) && p < 40 && s.pads[p].sent && !Deciding(s.at, p) && val > 0 && !e.Calibrated?
    requires IsVisitOf(s, e, p) ==> e.reading - s.pads[p].init == val
    ensures var t := Next(s, e);
      && Shaped(t) && t.pads[p].sent && !Deciding(t.at, p)
      && (IsVisitOf(s, e, p) ==> GoesHalfway(s.pads[p].filtered, val, t.pads[p].filtered))
      && (!IsVisitOf(s, e, p) ==> t.pads[p].filtered == s.pads[p].filtered)
  {
    NextShaped(s, e);
    assert FlagsMatch(s, p);
    if IsVisitOf(s, e, p) {
      HeldFilter(s, e.reading);
    }
  }

  /** k steps after f the filter stands at g, within one of the value, or of 511, plus what it was off
      at first divided by 2^k. */
  predicate Settled(f: int, val: int, k: nat, g: int) {
    Distance(g, Capped(val)) <= Halvings(Distance(f, Capped(val)) - 1, k) + 1
  }

  predicate HeldAndSettled(t: State, p: nat, val: int, first: int, k: nat)
    requires p < 40
  {
    Inv(t) && t.pads[p].sent && !Deciding(t.at, p) && Settled(first, val, k, t.pads[p].filtered)
  }

  lemma SettledStep(t: State, e: Event, p: nat, val: int, first: int, k: nat)
    requires p < 40 && HeldAndSettled(t, p, val, first, k) && Enabled(t, e) && val > 0 && !e.Calibrated?
    requires IsVisitOf(t, e, p) ==> e.reading - t.pads[p].init == val
    ensures HeldAndSettled(Next(t, e), p, val, first, VisitsWith(t, e, p, k))
  {
    SteadyStep(t, e, p, val);
    StepKeepsInv(t, e);
    assert FlagsMatch(t, p);
    if IsVisitOf(t, e, p) {
      SettleOnce(t.pads[p].filtered, val, Next(t, e).pads[p].filtered, k, first);
    }
  }

  lemma SettledAtFirst(t: State, p: nat, val: int)
    requires p < 40 && Inv(t) && t.pads[p].sent && !Deciding(t.at, p)
    ensures HeldAndSettled(t, p, val, t.pads[p].filtered, 0)
  {
  }

  /** A held pad on which the pressure stays the same settles with every visit. */
  lemma {:induction false} FilterSettles(s: State, es: seq<Event>, p: nat, val: int)
    requires Inv(s) && Possible(s, es) && p < 40 && s.pads[p].sent && !Deciding(s.at, p) && val > 0
    requires SteadilyHeld(s, es, p, val)
    ensures HeldAndSettled(Run(s, es), p, val, s.pads[p].filtered, VisitsOf(s, es, p))
    decreases |es|
  {
    if es == [] {
      SettledAtFirst(s, p, val);
    } else {
      FilterSettles(s, Front(es), p, val);
      SettledStep(Run(s, Front(es)), Last(es), p, val, s.pads[p].filtered, VisitsOf(s, Front(es), p));
    }
  }

  lemma SettleOnce(f: int, val: int, g: int, k: nat, first: int)
    requires 0 <= f <= 511 && val > 0 && GoesHalfway(f, val, g) && Settled(first, val, k, f)
    ensures Settled(first, val, k + 1, g)
  {
    HalfwayHalves(f, val, g);
  }

  // The same for the pads from 40 on, whose filter moves when the touch is reported.

  predicate IsTouchOf(s: State, e: Event, p: nat) {
    e.Go? && s.at.Touching? && s.at.pad == p
  }

  function TouchesOf(s: State, es: seq<Event>, p: nat): nat
    requires Shaped(s) && Possible(s, es)
    decreases |es|
  {
    if es == [] then 0
    else TouchesOf(s, Front(es), p) + if IsTouchOf(Run(s, Front(es)), Last(es), p) then 1 else 0
  }

  /** Whenever the pad is visited it reads val below its threshold, and no calibration comes. */
  ghost predicate SteadilyTouched(s: State, es: seq<Event>, p: nat, val: int)
    requires Shaped(s) && Possible(s, es) && p < PADS
    decreases |es|
  {
    es == [] ||
    (var t := Run(s, Front(es));
     && SteadilyTouched(s, Front(es), p, val)
     && !Last(es).Calibrated?
     && (IsVisitOf(t, Last(es), p) ==> t.pads[p].initSe - Last(es).reading == val))
  }

  predicate TouchesWith(at: Point, p: nat, val: int) {
    (at.Touching? && at.pad == p ==> at.val == val) && !(at.Untouching? && at.pad == p)
  }

  lemma TouchStep(t: State, e: Event, p: nat, val: int, aim: int, first: int, k: nat)
    requires Inv(t) && Enabled(t, e) && 40 <= p < PADS && TouchesWith(t.at, p, val) && !e.Calibrated?
    requires val > 0 && aim == 2 * val
    requires IsVisitOf(t, e, p) ==> t.pads[p].initSe - e.reading == val
    requires Settled(first, aim, k, t.pads[p].filtered)
    ensures var u := Next(t, e);
      && Inv(u) && TouchesWith(u.at, p, val)
      && Settled(first, aim, k + (if IsTouchOf(t, e, p) then 1 else 0), u.pads[p].filtered)
  {
    StepKeepsInv(t, e);
    assert FlagsMatch(t, p);
    if IsTouchOf(t, e, p) {
      TouchedFilter(t);
      SettleOnce(t.pads[p].filtered, aim, Next(t, e).pads[p].filtered, k, first);
    } else {
      FilterUntouched(t, e, p);
    }
  }

  lemma FilterUntouched(t: State, e: Event, p: nat)
    requires Inv(t) && Enabled(t, e) && 40 <= p < PADS && !e.Calibrated? && !IsTouchOf(t, e, p) && Inv(Next(t, e))
    ensures Next(t, e).pads[p].filtered == t.pads[p].filtered
  {
  }

  /** A pad from 40 on that is touched steadily settles with every report, at twice the excess. */
  lemma {:induction false} TouchSettles(s: State, es: seq<Event>, p: nat, val: int, aim: int)
    requires Inv(s) && Possible(s, es) && 40 <= p < PADS && TouchesWith(s.at, p, val) && val > 0 && aim == 2 * val
    requires SteadilyTouched(s, es, p, val)
    ensures var t := Run(s, es);
      && Inv(t) && TouchesWith(t.at, p, val)
      && Settled(s.pads[p].filtered, aim, TouchesOf(s, es, p), t.pads[p].filtered)
    decreases |es|
  {
    if es != [] {
      TouchSettles(s, Front(es), p, val, aim);
      TouchStep(Run(s, Front(es)), Last(es), p, val, aim, s.pads[p].filtered, TouchesOf(s, Front(es), p));
    }
  }

  // ----- the attack -----

  function ValuesWith(t: State, e: Event, vs: seq<int>): seq<int>
    requires Shaped(t) && Enabled(t, e)
  {
    match e
    case Visit(reading) => [reading - t.pads[t.at.pad].init]
    case Sample(reading) => vs + [reading - t.pads[t.at.pad].init]
    case _ => vs
  }

  /** The values of the attack that is going on: how far each reading was above the threshold of the
      moment. */
  function AttackValues(s: State, es: seq<Event>): seq<int>
    requires Shaped(s) && Possible(s, es)
    decreases |es|
  {
    if es == [] then [] else ValuesWith(Run(s, Front(es)), Last(es), AttackValues(s, Front(es)))
  }

  predicate IsLargest(m: int, vs: seq<int>) {
    m in vs && forall v <- vs :: v <= m
  }

  lemma LargestWith(m: int, vs: seq<int>, v: int)
    requires IsLargest(m, vs)
    ensures IsLargest(if v > m then v else m, vs + [v])
  {
    assert (vs + [v])[|vs|] == v;
  }

  /** Half of a positive peak, rounded down, cut off at 127. */
  predicate IsVelocity(velocity: int, peak: int) {
    0 <= velocity <= 127 && (velocity < 127 ==> 0 <= peak - 2 * velocity <= 1) && (peak >= 2 * 127 ==> velocity == 127)
  }

  /** vs are the values of the attack, if one is going on. */
  ghost predicate PeakOf(t: State, vs: seq<int>) {
    && (t.at.Sampling? ==> t.at.left <= 200 && |vs| + t.at.left == 201 && IsLargest(t.at.peak, vs) && t.at.pad < 40)
    && (t.at.Attacked? ==> |vs| == 201 && exists m :: IsLargest(m, vs) && IsVelocity(t.at.velocity, m))
  }

  lemma PeakStep(t: State, e: Event, vs: seq<int>)
    requires Inv(t) && Enabled(t, e) && PeakOf(t, vs)
    ensures PeakOf(Next(t, e), ValuesWith(t, e, vs))
  {
    if !t.at.Between? {
      assert FlagsMatch(t, t.at.pad);
    }
    if e.Sample? {
      LargestWith(t.at.peak, vs, e.reading - t.pads[t.at.pad].init);
    } else if e.Go? && t.at.Sampling? {
      assert IsVelocity(Next(t, e).at.velocity, t.at.peak);
    }
  }

  /** During an attack the peak is the largest of its values, of which there are one from the visit and
      one from each sample so far; all 201 of them when it is reported. The velocity is half the
      peak, at most 127. */
  lemma {:induction false} PeakIsLargest(s: State, es: seq<Event>)
    requires Initial(s) && Possible(s, es)
    ensures PeakOf(Run(s, es), AttackValues(s, es))
    decreases |es|
  {
    if es != [] {
      PeakIsLargest(s, Front(es));
      RunKeepsInv(s, Front(es));
      PeakStep(Run(s, Front(es)), Last(es), AttackValues(s, Front(es)));
    }
  }

  /** When an attack is over, the pad is held, and the filter starts at the velocity. */
  lemma AttackEnds(s: State)
    requires Inv(s) && s.at.Attacked?
    ensures var t := Next(s, Go); var q := t.pads[s.at.pad];
      && q.filtered == s.at.velocity && q.sent && q.played
      && t.ledSum == s.ledSum + s.at.velocity && t.at == Between && t.index == s.index + 1
      && q.init == s.pads[s.at.pad].init - (if s.at.pad < 16 then 35 else 25)
  {
    assert FlagsMatch(s, s.at.pad);
  }

  // ----- the sum for the LED -----

  /** The filtered pressures of the pads that the round has reported as pressed, added up. */
  function RoundPressure(s: State, es: seq<Event>): int
    requires Shaped(s) && Possible(s, es)
    decreases |es|
  {
    if es == [] then 0
    else
      var t := Run(s, Front(es));
      if Last(es).EndRound? then 0
      else if Last(es).Go? && (t.at.Attacked? || t.at.Holding? || t.at.Touching?) then
        RoundPressure(s, Front(es)) + Run(s, es).pads[t.at.pad].filtered
      else RoundPressure(s, Front(es))
  }

  lemma LedSumStep(s: State, e: Event)
    requires Inv(s) && Enabled(s, e) && Inv(Next(s, e))
    ensures var t := Next(s, e);
      t.ledSum ==
        if e.EndRound? then 0
        else if e.Go? && (s.at.Attacked? || s.at.Holding? || s.at.Touching?) then s.ledSum + t.pads[s.at.pad].filtered
        else s.ledSum
  {
    if !s.at.Between? {
      assert FlagsMatch(s, s.at.pad) && FlagsMatch(Next(s, e), s.at.pad);
    }
  }

  lemma {:induction false} LedSumIsPressure(s: State, es: seq<Event>)
    requires Initial(s) && Possible(s, es)
    ensures Run(s, es).ledSum == RoundPressure(s, es)
    decreases |es|
  {
    if es != [] {
      LedSumIsPressure(s, Front(es));
      RunKeepsInv(s, Front(es));
      RunKeepsInv(s, es);
      LedSumStep(Run(s, Front(es)), Last(es));
    }
  }

  // ----- lifting the anti-sticky adjustment -----

  predicate AntiRelease(s: State, e: Event, p: nat)
    requires p < |s.pads|
  {
    IsRelease(s, e, p) && s.pads[p].anti
  }

  /** The releases of a pad that found the adjustment in force. */
  function AntiReleases(s: State, es: seq<Event>, p: nat): nat
    requires Shaped(s) && Possible(s, es) && p < PADS
    decreases |es|
  {
    if es == [] then 0
    else AntiReleases(s, Front(es), p) + if AntiRelease(Run(s, Front(es)), Last(es), p) then 1 else 0
  }

  /** n modulo 11, counted up. */
  function Eleventh(n: nat): nat {
    if n == 0 || Eleventh(n - 1) == 10 then 0 else Eleventh(n - 1) + 1
  }

  lemma {:induction false} EleventhIsRemainder(n: nat)
    ensures Eleventh(n) == n % 11
  {
    if n > 0 {
      EleventhIsRemainder(n - 1);
    }
  }

  lemma StickyStep(s: State, e: Event, p: nat)
    requires Inv(s) && Enabled(s, e) && p < 40
    ensures var t := Next(s, e);
      && |t.pads| == PADS
      && (!AntiRelease(s, e, p) ==> t.pads[p].sticky == s.pads[p].sticky)
      && (AntiRelease(s, e, p) ==>
            && t.pads[p].sticky == (if s.pads[p].sticky == 10 then 0 else s.pads[p].sticky + 1)
            && t.pads[p].anti == (s.pads[p].sticky != 10))
      && (s.pads[p].anti && !t.pads[p].anti && !e.Calibrated? ==> AntiRelease(s, e, p))
  {
    NextShaped(s, e);
    assert FlagsMatch(s, p);
  }

  /** The sticky count is the number of such releases modulo 11, over calibrations too. */
  lemma {:induction false} StickyCounts(s: State, es: seq<Event>, p: nat)
    requires Initial(s) && Possible(s, es) && p < 40
    ensures Run(s, es).pads[p].sticky == Eleventh(AntiReleases(s, es, p))
    decreases |es|
  {
    if es != [] {
      StickyCounts(s, Front(es), p);
      RunKeepsInv(s, Front(es));
      StickyCountStep(Run(s, Front(es)), Last(es), p, AntiReleases(s, Front(es), p));
    }
  }

  /** The release that comes after n others lifts the adjustment exactly if it is an eleventh one. */
  predicate LiftsIfEleventh(t: State, e: Event, p: nat, n: nat)
    requires Shaped(t) && Enabled(t, e)
  {
    |Next(t, e).pads| == PADS && p < PADS && (Next(t, e).pads[p].anti <==> (n + 1) % 11 != 0)
  }

  lemma LiftsOnEleventh(t: State, e: Event, p: nat, n: nat)
    requires Inv(t) && Enabled(t, e) && p < 40 && AntiRelease(t, e, p) && t.pads[p].sticky == Eleventh(n)
    ensures LiftsIfEleventh(t, e, p, n)
  {
    StickyCountStep(t, e, p, n);
    EleventhIsRemainder(n + 1);
  }

  /** Every eleventh such release lifts the adjustment, and no other. */
  lemma EleventhReleaseLifts(s: State, es: seq<Event>, e: Event, p: nat)
    requires Initial(s) && Possible(s, es) && p < 40 && Enabled(Run(s, es), e) && AntiRelease(Run(s, es), e, p)
    ensures LiftsIfEleventh(Run(s, es), e, p, AntiReleases(s, es, p))
  {
    StickyCounts(s, es, p);
    RunKeepsInv(s, es);
    LiftsOnEleventh(Run(s, es), e, p, AntiReleases(s, es, p));
  }

  lemma StickyCountStep(s: State, e: Event, p: nat, n: nat)
    requires Inv(s) && Enabled(s, e) && p < 40 && s.pads[p].sticky == Eleventh(n)
    ensures var t := Next(s, e); var m := n + if AntiRelease(s, e, p) then 1 else 0;
      && |t.pads| == PADS && t.pads[p].sticky == Eleventh(m)
      && (AntiRelease(s, e, p) ==> (t.pads[p].anti <==> Eleventh(m) != 0))
  {
    StickyStep(s, e, p);
  }
}
