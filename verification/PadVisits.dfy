/** The visits of a round as lists of events, given by what the hardware and the interrupt bring to them,
    and what they come to: which pads are played afterwards, and how hard. */
module PadVisits {
  import opened Bytes
  import opened PadLaws
  import opened PadScan

  /** What the hardware and the interrupt bring to one visit: the buttons, the readings in their
      order and the timer interrupts at each place where they can come, one after the other. */
  datatype Surroundings = Surroundings(
    reset: bool, diff: (nat, nat) -> int, se: nat -> int, control: nat -> bool, reading: nat -> int, ticks: nat -> nat)

  // ----- the events of a visit -----

  // Each of these functions puts the events of one part of a visit behind those that came before.

  function WithTicks(es: seq<Event>, n: nat): seq<Event> {
    if n == 0 then es else WithTicks(es, n - 1) + [Tick]
  }

  function WithDown(es: seq<Event>, marked: nat, left: nat): seq<Event> {
    WithTicks(WithTicks(es + [ResetDown], marked) + [LeaveStandby], left)
  }

  function WithReset(es: seq<Event>, env: Surroundings, cal: Calibration): seq<Event> {
    if env.reset then WithDown(es, env.ticks(1), env.ticks(2)) + [Calibrated(cal)] else es + [ResetUp]
  }

  function WithControls(es: seq<Event>, control: nat -> bool, n: nat): seq<Event> {
    if n == 0 then es else WithControls(es, control, n - 1) + [Control(n - 1, control(n - 1))]
  }

  function WithInputs(es: seq<Event>, env: Surroundings): seq<Event> {
    WithTicks(WithControls(WithTicks(es, env.ticks(3)), env.control, 5), env.ticks(4))
  }

  /** From the latch of the pad to its first reading; cal is the calibration, if there is one. */
  function WithBegin(es: seq<Event>, env: Surroundings, cal: Calibration): seq<Event> {
    WithInputs(WithReset(WithTicks(es + [Latch], env.ticks(0)), env, cal), env)
  }

  function WithSample(es: seq<Event>, ticks: nat, reading: int): seq<Event> {
    WithTicks(es, ticks) + [Sample(reading)]
  }

  function WithSamples(es: seq<Event>, env: Surroundings, n: nat): seq<Event> {
    if n == 0 then es else WithSample(WithSamples(es, env, n - 1), env.ticks(n + 4), env.reading(n))
  }

  function WithAttack(es: seq<Event>, env: Surroundings): seq<Event> {
    WithTicks(WithSamples(es, env, SAMPLES) + [Go], env.ticks(SAMPLES + 5)) + [Go]
  }

  function WithReport(es: seq<Event>, env: Surroundings): seq<Event> {
    WithTicks(es, env.ticks(5)) + [Go]
  }

  function WithRelease(es: seq<Event>, env: Surroundings): seq<Event> {
    WithTicks(WithReport(es, env), env.ticks(6)) + [Go]
  }

  /** From the first reading to the end; q is what is known of the pad then. */
  function WithPad(es: seq<Event>, pad: nat, q: Pad, env: Surroundings): seq<Event> {
    var read := es + [Visit(env.reading(0))];
    if pad >= 40 then WithReport(read, env)
    else if env.reading(0) > q.init then if q.sent then WithReport(read, env) else WithAttack(read, env)
    else if q.sent then WithRelease(read, env)
    else read
  }

  /** The events es are those before and those of one visit. */
  ghost predicate IsVisit(s: State, before: seq<Event>, env: Surroundings, cal: Calibration, es: seq<Event>)
    requires Shaped(s)
  {
    var begun := WithBegin(before, env, cal);
    && Possible(s, begun) && Run(s, begun).at.Ready?
    && es == WithPad(begun, Run(s, begun).at.pad, Run(s, begun).pads[Run(s, begun).at.pad], env)
  }

  /** stages[i] are the events up to the i-th visit, and the visits follow each other. */
  ghost predicate AreVisits(s: State, env: nat -> Surroundings, cals: seq<Calibration>, stages: seq<seq<Event>>)
    requires Shaped(s)
  {
    |stages| == |cals| + 1 && forall i | 0 <= i < |cals| :: IsVisit(s, stages[i], env(i), cals[i], stages[i + 1])
  }

  predicate NoReset(env: nat -> Surroundings, n: nat) {
    forall i | 0 <= i < n :: !env(i).reset
  }

  ghost predicate Still(env: Surroundings) {
    forall i: nat :: env.ticks(i) == 0
  }

  // ----- what interrupts and controls leave alone -----

  /** A pad that at most the interrupt has come by; without ticks not even that. */
  predicate Kept(x: Pad, y: Pad, still: bool) {
    y == x.(init := y.init) && (still ==> y.init == x.init)
  }

  predicate AllKept(a: seq<Pad>, b: seq<Pad>, still: bool) {
    |a| == |b| && forall p | 0 <= p < |a| :: Kept(a[p], b[p], still)
  }

  /** At most ticks and controls have come since a. */
  predicate OnlyTicked(a: State, b: State, still: bool) {
    && a.at == b.at && a.index == b.index && a.order == b.order && a.ledSum == b.ledSum
    && AllKept(a.pads, b.pads, still)
  }

  lemma TickedOnce(a: State, b: State)
    requires Shaped(b) && OnlyTicked(a, b, false)
    ensures OnlyTicked(a, OnTick(b), false)
  {
  }

  lemma {:induction false} Ticked(s: State, es: seq<Event>, n: nat, still: bool)
    requires Shaped(s) && Possible(s, es) && (still ==> n == 0)
    ensures var fs := WithTicks(es, n); Possible(s, fs) && OnlyTicked(Run(s, es), Run(s, fs), still)
    decreases n
  {
    if n > 0 {
      Ticked(s, es, n - 1, false);
      var fs := WithTicks(es, n - 1);
      RunExtend(s, fs, Tick);
      TickedOnce(Run(s, es), Run(s, fs));
    }
  }

  lemma ControlledOnce(a: State, b: State, i: nat, on: bool)
    requires Shaped(b) && i < 5 && OnlyTicked(a, b, true)
    ensures OnlyTicked(a, Next(b, Control(i, on)), true)
  {
  }

  lemma {:induction false} Controlled(s: State, es: seq<Event>, control: nat -> bool, n: nat)
    requires Shaped(s) && Possible(s, es) && n <= 5
    ensures var fs := WithControls(es, control, n); Possible(s, fs) && OnlyTicked(Run(s, es), Run(s, fs), true)
    decreases n
  {
    if n > 0 {
      Controlled(s, es, control, n - 1);
      var fs := WithControls(es, control, n - 1);
      RunExtend(s, fs, Control(n - 1, control(n - 1)));
      ControlledOnce(Run(s, es), Run(s, fs), n - 1, control(n - 1));
    }
  }

  lemma BothTicked(a: State, b: State, c: State, still: bool)
    requires OnlyTicked(a, b, still) && OnlyTicked(b, c, still)
    ensures OnlyTicked(a, c, still)
  {
  }

  lemma InputsTick(s: State, es: seq<Event>, env: Surroundings, still: bool)
    requires Shaped(s) && Possible(s, es) && (still ==> Still(env))
    ensures var fs := WithInputs(es, env); Possible(s, fs) && OnlyTicked(Run(s, es), Run(s, fs), still)
  {
    var first := WithTicks(es, env.ticks(3));
    var second := WithControls(first, env.control, 5);
    Ticked(s, es, env.ticks(3), still);
    Controlled(s, first, env.control, 5);
    Ticked(s, second, env.ticks(4), still);
    BothTicked(Run(s, es), Run(s, first), Run(s, second), still);
    BothTicked(Run(s, es), Run(s, second), Run(s, WithInputs(es, env)), still);
  }

  /** Whatever the loop stands at, the pads are those of a but for the interrupt. */
  predicate PadsKept(a: State, b: State, still: bool) {
    && a.index == b.index && a.order == b.order && a.ledSum == b.ledSum && AllKept(a.pads, b.pads, still)
  }

  lemma StillKept(a: State, b: State, c: State, still: bool)
    requires PadsKept(a, b, still) && OnlyTicked(b, c, still)
    ensures PadsKept(a, c, still) && c.at == b.at
  {
  }

  /** Without a reset a visit comes, up to its first reading, to the pad whose turn it is. */
  lemma Begun(s: State, es: seq<Event>, env: Surroundings, cal: Calibration, still: bool)
    requires Shaped(s) && Possible(s, es) && Run(s, es).at.Between? && Run(s, es).index < PADS
    requires !env.reset && (still ==> Still(env))
    ensures var (fs, a) := (WithBegin(es, env, cal), Run(s, es));
      Possible(s, fs) && PadsKept(a, Run(s, fs), still) && Run(s, fs).at == Ready(a.order[a.index])
  {
    var a := Run(s, es);
    var latched := es + [Latch];
    RunExtend(s, es, Latch);
    var ticked := WithTicks(latched, env.ticks(0));
    Ticked(s, latched, env.ticks(0), still);
    StillKept(a, Run(s, latched), Run(s, ticked), still);
    var up := ticked + [ResetUp];
    RunExtend(s, ticked, ResetUp);
    InputsTick(s, up, env, still);
    StillKept(a, Run(s, up), Run(s, WithInputs(up, env)), still);
  }

  // ----- what a visit comes to -----

  /** How far the first reading and n more are above a threshold. */
  function Excesses(env: Surroundings, threshold: int, n: nat): seq<int> {
    if n == 0 then [env.reading(0) - threshold]
    else Excesses(env, threshold, n - 1) + [env.reading(n) - threshold]
  }

  predicate Beyond(q: Pad, pad: nat, reading: int) {
    if pad < 40 then reading > q.init else reading < q.initSe
  }

  /** A pad that was q when it was read, and is r after its visit. It is played exactly if the first
      reading was beyond its threshold. The pressure has gone half-way to that reading, or starts, if
      the pad was not held, at half of the largest of 201 readings above the threshold. */
  ghost predicate Outcome(q: Pad, r: Pad, pad: nat, env: Surroundings, still: bool) {
    var on := Beyond(q, pad, env.reading(0));
    && r.played == on && (if pad < 40 then r.sent == on else r.hyst == on)
    && (!on ==> r.filtered == q.filtered)
    && (on && pad >= 40 ==> GoesHalfway(q.filtered, 2 * (q.initSe - env.reading(0)), r.filtered))
    && (on && pad < 40 && q.sent ==> GoesHalfway(q.filtered, env.reading(0) - q.init, r.filtered))
    && (on && pad < 40 && !q.sent && still ==>
          exists m :: IsLargest(m, Excesses(env, q.init, SAMPLES)) && IsVelocity(r.filtered, m))
  }

  /** From a, where the pad is read, to b, where its visit is over: the outcome for the pad, nothing but
      ticks for the others, and the pressure of a played pad in the sum. */
  ghost predicate Decided(a: State, b: State, env: Surroundings, still: bool)
    requires Shaped(a) && a.at.Ready?
  {
    var p := a.at.pad;
    && Shaped(b) && b.at.Between? && b.index == a.index + 1 && b.order == a.order
    && Outcome(a.pads[p], b.pads[p], p, env, still)
    && (forall r | 0 <= r < PADS && r != p :: Kept(a.pads[r], b.pads[r], still))
    && b.ledSum == a.ledSum + if b.pads[p].played then b.pads[p].filtered else 0
  }

  /** After n samples of an attack. */
  ghost predicate SampledSoFar(a: State, b: State, p: nat, env: Surroundings, n: nat, still: bool)
    requires |a.pads| == PADS && p < PADS
  {
    && PadsKept(a, b, still) && n <= SAMPLES && b.at.Sampling? && b.at.pad == p && b.at.left == SAMPLES - n
    && (still ==> IsLargest(b.at.peak, Excesses(env, a.pads[p].init, n)))
  }

  lemma SampledOnce(a: State, b: State, p: nat, env: Surroundings, n: nat, still: bool)
    requires |a.pads| == PADS && Shaped(b) && p < PADS && n < SAMPLES && SampledSoFar(a, b, p, env, n, still)
    ensures Enabled(b, Sample(env.reading(n + 1)))
    ensures SampledSoFar(a, Next(b, Sample(env.reading(n + 1))), p, env, n + 1, still)
  {
    if still {
      LargestWith(b.at.peak, Excesses(env, a.pads[p].init, n), env.reading(n + 1) - a.pads[p].init);
    }
  }

  lemma SampledTicked(a: State, b: State, c: State, p: nat, env: Surroundings, n: nat, still: bool)
    requires |a.pads| == PADS && p < PADS && SampledSoFar(a, b, p, env, n, still) && OnlyTicked(b, c, still)
    ensures SampledSoFar(a, c, p, env, n, still)
  {
  }

  ghost predicate SampledRun(s: State, es: seq<Event>, env: Surroundings, a: State, p: nat, n: nat, still: bool)
    requires Shaped(s) && |a.pads| == PADS && p < PADS
  {
    Possible(s, es) && SampledSoFar(a, Run(s, es), p, env, n, still)
  }

  /** The n-th sample, and the ticks before it. */
  lemma OneSample(s: State, es: seq<Event>, env: Surroundings, a: State, p: nat, n: nat, still: bool)
    requires Shaped(s) && |a.pads| == PADS && p < PADS && 0 < n <= SAMPLES && (still ==> Still(env))
    requires SampledRun(s, es, env, a, p, n - 1, still)
    ensures SampledRun(s, WithSample(es, env.ticks(n + 4), env.reading(n)), env, a, p, n, still)
  {
    var fs := WithTicks(es, env.ticks(n + 4));
    Ticked(s, es, env.ticks(n + 4), still);
    SampledTicked(a, Run(s, es), Run(s, fs), p, env, n - 1, still);
    SampledOnce(a, Run(s, fs), p, env, n - 1, still);
    RunExtend(s, fs, Sample(env.reading(n)));
  }

  lemma {:induction false} Sampled(s: State, es: seq<Event>, env: Surroundings, a: State, p: nat, n: nat, still: bool)
    requires Shaped(s) && |a.pads| == PADS && p < PADS && n <= SAMPLES && (still ==> Still(env))
    requires SampledRun(s, es, env, a, p, 0, still)
    ensures SampledRun(s, WithSamples(es, env, n), env, a, p, n, still)
    decreases n
  {
    if n > 0 {
      Sampled(s, es, env, a, p, n - 1, still);
      OneSample(s, WithSamples(es, env, n - 1), env, a, p, n, still);
    }
  }

  lemma AttackBegins(a: State, env: Surroundings, still: bool)
    requires Shaped(a) && a.at.Ready? && a.at.pad < 40 && !a.pads[a.at.pad].sent
    requires env.reading(0) > a.pads[a.at.pad].init
    ensures SampledSoFar(a, Next(a, Visit(env.reading(0))), a.at.pad, env, 0, still)
  {
    PressIff(a, env.reading(0));
  }

  /** The first half of a press has been reported. */
  ghost predicate Shown(a: State, b: State, p: nat, env: Surroundings, still: bool)
    requires Shaped(a) && p < PADS
  {
    && a.index == b.index && a.order == b.order && a.ledSum == b.ledSum && |b.pads| == PADS
    && b.at.Attacked? && b.at.pad == p && 0 <= b.at.velocity <= 127
    && (forall r | 0 <= r < PADS && r != p :: Kept(a.pads[r], b.pads[r], still))
    && b.pads[p] == a.pads[p].(init := b.pads[p].init, played := true)
    && (still ==> exists m :: IsLargest(m, Excesses(env, a.pads[p].init, SAMPLES)) && IsVelocity(b.at.velocity, m))
  }

  lemma AttackShown(a: State, b: State, p: nat, env: Surroundings, still: bool)
    requires Shaped(a) && Inv(b) && p < PADS && SampledSoFar(a, b, p, env, SAMPLES, still)
    ensures Enabled(b, Go) && Shown(a, Next(b, Go), p, env, still)
  {
    assert FlagsMatch(b, p);
    if still {
      assert IsVelocity(Next(b, Go).at.velocity, b.at.peak);
    }
  }

  lemma ShownTicked(a: State, b: State, c: State, p: nat, env: Surroundings, still: bool)
    requires Shaped(a) && p < PADS && Shown(a, b, p, env, still) && OnlyTicked(b, c, still)
    ensures Shown(a, c, p, env, still)
  {
  }

  lemma AttackCommitted(a: State, b: State, env: Surroundings, still: bool)
    requires Shaped(a) && Shaped(b) && a.at.Ready? && a.at.pad < 40 && !a.pads[a.at.pad].sent
    requires env.reading(0) > a.pads[a.at.pad].init && Shown(a, b, a.at.pad, env, still)
    ensures Enabled(b, Go) && Decided(a, Next(b, Go), env, still)
  {
    NextShaped(b, Go);
  }

  lemma Attacks(s: State, es: seq<Event>, env: Surroundings, a: State, p: nat, still: bool)
    requires Initial(s) && Possible(s, es) && Shaped(a) && (still ==> Still(env))
    requires a.at == Ready(p) && p < 40 && !a.pads[p].sent && env.reading(0) > a.pads[p].init
    requires SampledRun(s, es, env, a, p, 0, still)
    ensures var fs := WithAttack(es, env); Possible(s, fs) && Decided(a, Run(s, fs), env, still)
  {
    var sampled := WithSamples(es, env, SAMPLES);
    Sampled(s, es, env, a, p, SAMPLES, still);
    RunKeepsInv(s, sampled);
    AttackShown(a, Run(s, sampled), p, env, still);
    RunExtend(s, sampled, Go);
    AttackReported(s, sampled + [Go], env.ticks(SAMPLES + 5), env, a, p, still);
  }

  lemma AttackReported(s: State, es: seq<Event>, k: nat, env: Surroundings, a: State, p: nat, still: bool)
    requires Initial(s) && Possible(s, es) && Shaped(a) && (still ==> k == 0)
    requires a.at == Ready(p) && p < 40 && !a.pads[p].sent && env.reading(0) > a.pads[p].init
    requires Shown(a, Run(s, es), p, env, still)
    ensures var fs := WithTicks(es, k) + [Go]; Possible(s, fs) && Decided(a, Run(s, fs), env, still)
  {
    var fs := WithTicks(es, k);
    Ticked(s, es, k, still);
    ShownTicked(a, Run(s, es), Run(s, fs), p, env, still);
    AttackCommitted(a, Run(s, fs), env, still);
    RunExtend(s, fs, Go);
  }

  // A held pad, a release, and the pads from 40 on.

  lemma HoldCommitted(a: State, b: State, env: Surroundings, still: bool)
    requires Inv(a) && Inv(b) && a.at.Ready? && a.at.pad < 40 && a.pads[a.at.pad].sent
    requires env.reading(0) > a.pads[a.at.pad].init && OnlyTicked(Next(a, Visit(env.reading(0))), b, still)
    ensures Enabled(b, Go) && Decided(a, Next(b, Go), env, still)
  {
    HeldFilter(a, env.reading(0));
    ReleaseIff(a, env.reading(0));
    NextShaped(b, Go);
    assert FlagsMatch(b, a.at.pad);
  }

  lemma TouchCommitted(a: State, b: State, env: Surroundings, still: bool)
    requires Inv(a) && Inv(b) && a.at.Ready? && a.at.pad >= 40
    requires OnlyTicked(Next(a, Visit(env.reading(0))), b, still)
    ensures Enabled(b, Go) && Decided(a, Next(b, Go), env, still)
  {
    TouchIff(a, env.reading(0));
    NextShaped(b, Go);
    if b.at.Touching? {
      TouchedFilter(b);
    }
  }

  /** The first half of a release has been reported. */
  predicate LetGo(a: State, b: State, p: nat, still: bool)
    requires Shaped(a) && p < PADS
  {
    && a.index == b.index && a.order == b.order && a.ledSum == b.ledSum && |b.pads| == PADS
    && b.at == Released(p) && !b.pads[p].played && b.pads[p].filtered == a.pads[p].filtered
    && (forall r | 0 <= r < PADS && r != p :: Kept(a.pads[r], b.pads[r], still))
  }

  lemma ReleaseShown(a: State, b: State, p: nat, reading: int, still: bool)
    requires Shaped(a) && Shaped(b) && a.at == Ready(p) && p < 40 && a.pads[p].sent && reading <= a.pads[p].init
    requires OnlyTicked(Next(a, Visit(reading)), b, still)
    ensures Enabled(b, Go) && LetGo(a, Next(b, Go), p, still)
  {
    ReleaseIff(a, reading);
  }

  lemma ReleaseTicked(a: State, b: State, c: State, p: nat, still: bool)
    requires Shaped(a) && p < PADS && LetGo(a, b, p, still) && OnlyTicked(b, c, still)
    ensures LetGo(a, c, p, still)
  {
  }

  lemma ReleaseCommitted(a: State, b: State, p: nat, env: Surroundings, still: bool)
    requires Shaped(a) && Shaped(b) && a.at == Ready(p) && p < 40 && env.reading(0) <= a.pads[p].init
    requires LetGo(a, b, p, still)
    ensures Enabled(b, Go) && Decided(a, Next(b, Go), env, still)
  {
    NextShaped(b, Go);
  }

  lemma Releases(s: State, es: seq<Event>, env: Surroundings, a: State, p: nat, still: bool)
    requires Shaped(s) && Possible(s, es) && Shaped(a) && (still ==> Still(env))
    requires a.at == Ready(p) && p < 40 && a.pads[p].sent && env.reading(0) <= a.pads[p].init
    requires Run(s, es) == Next(a, Visit(env.reading(0)))
    ensures var fs := WithRelease(es, env); Possible(s, fs) && Decided(a, Run(s, fs), env, still)
  {
    var ticked, shown := WithTicks(es, env.ticks(5)), WithReport(es, env);
    Ticked(s, es, env.ticks(5), still);
    ReleaseShown(a, Run(s, ticked), p, env.reading(0), still);
    RunExtend(s, ticked, Go);
    ReleaseReported(s, shown, env.ticks(6), env, a, p, still);
  }

  lemma ReleaseReported(s: State, es: seq<Event>, k: nat, env: Surroundings, a: State, p: nat, still: bool)
    requires Shaped(s) && Possible(s, es) && Shaped(a) && (still ==> k == 0)
    requires a.at == Ready(p) && p < 40 && env.reading(0) <= a.pads[p].init && LetGo(a, Run(s, es), p, still)
    ensures var fs := WithTicks(es, k) + [Go]; Possible(s, fs) && Decided(a, Run(s, fs), env, still)
  {
    var fs := WithTicks(es, k);
    Ticked(s, es, k, still);
    ReleaseTicked(a, Run(s, es), Run(s, fs), p, still);
    ReleaseCommitted(a, Run(s, fs), p, env, still);
    RunExtend(s, fs, Go);
  }

  lemma Reported(s: State, es: seq<Event>, env: Surroundings, a: State, p: nat, still: bool)
    requires Initial(s) && Possible(s, es) && Inv(a) && (still ==> Still(env)) && a.at == Ready(p)
    requires p >= 40 || (a.pads[p].sent && env.reading(0) > a.pads[p].init)
    requires Run(s, es) == Next(a, Visit(env.reading(0)))
    ensures var fs := WithReport(es, env); Possible(s, fs) && Decided(a, Run(s, fs), env, still)
  {
    var fs := WithTicks(es, env.ticks(5));
    Ticked(s, es, env.ticks(5), still);
    RunKeepsInv(s, fs);
    if p >= 40 {
      TouchCommitted(a, Run(s, fs), env, still);
    } else {
      HoldCommitted(a, Run(s, fs), env, still);
    }
    RunExtend(s, fs, Go);
  }

  lemma NothingHappens(a: State, env: Surroundings, still: bool)
    requires Inv(a) && a.at.Ready? && a.at.pad < 40 && !a.pads[a.at.pad].sent && env.reading(0) <= a.pads[a.at.pad].init
    ensures Decided(a, Next(a, Visit(env.reading(0))), env, still)
  {
    PressIff(a, env.reading(0));
    NextShaped(a, Visit(env.reading(0)));
    assert FlagsMatch(a, a.at.pad);
  }

  /** From its first reading on, whatever interrupts come in, a visit has the outcome that this reading
      and the threshold of the moment decide. */
  lemma PadVisited(s: State, es: seq<Event>, env: Surroundings, still: bool)
    requires Initial(s) && Possible(s, es) && Run(s, es).at.Ready? && (still ==> Still(env))
    ensures var a := Run(s, es); var fs := WithPad(es, a.at.pad, a.pads[a.at.pad], env);
      Possible(s, fs) && Decided(a, Run(s, fs), env, still)
  {
    var a := Run(s, es);
    var p, q, read := a.at.pad, a.pads[a.at.pad], es + [Visit(env.reading(0))];
    RunKeepsInv(s, es);
    RunExtend(s, es, Visit(env.reading(0)));
    if p >= 40 {
      Reported(s, read, env, a, p, still);
    } else if env.reading(0) > q.init {
      if q.sent {
        Reported(s, read, env, a, p, still);
      } else {
        AttackBegins(a, env, still);
        Attacks(s, read, env, a, p, still);
      }
    } else if q.sent {
      Releases(s, read, env, a, p, still);
    } else {
      NothingHappens(a, env, still);
    }
  }

  // ----- a whole visit, and a round -----

  /** A visit without a reset that finds the loop at a, reads its pad at b and leaves t. */
  ghost predicate VisitDone(a: State, b: State, t: State, env: Surroundings, still: bool)
    requires Shaped(a) && a.index < PADS && Shaped(b) && Shaped(t)
  {
    var p := a.order[a.index];
    && b.at == Ready(p) && Kept(a.pads[p], b.pads[p], still) && Outcome(b.pads[p], t.pads[p], p, env, still)
    && (forall r | 0 <= r < PADS && r != p :: Kept(a.pads[r], t.pads[r], still))
    && t.at.Between? && t.index == a.index + 1 && t.order == a.order
    && t.ledSum == a.ledSum + if t.pads[p].played then t.pads[p].filtered else 0
  }

  lemma DoneFromVisited(a: State, b: State, t: State, env: Surroundings, still: bool)
    requires Shaped(a) && a.index < PADS && Shaped(b) && b.at == Ready(a.order[a.index])
    requires PadsKept(a, b, still) && Decided(b, t, env, still)
    ensures VisitDone(a, b, t, env, still)
  {
  }

  lemma VisitWithoutReset(s: State, before: seq<Event>, env: Surroundings, cal: Calibration, es: seq<Event>,
                          still: bool)
    requires Initial(s) && Possible(s, before) && Run(s, before).at.Between? && Run(s, before).index < PADS
    requires IsVisit(s, before, env, cal, es) && !env.reset && (still ==> Still(env))
    ensures Possible(s, es) && VisitDone(Run(s, before), Run(s, WithBegin(before, env, cal)), Run(s, es), env, still)
  {
    var begun := WithBegin(before, env, cal);
    Begun(s, before, env, cal, still);
    PadVisited(s, begun, env, still);
    DoneFromVisited(Run(s, before), Run(s, begun), Run(s, es), env, still);
  }

  /** The round begins between visits, and the button is never found down. */
  ghost predicate IsRound(s: State, env: nat -> Surroundings, cals: seq<Calibration>, stages: seq<seq<Event>>,
                          still: bool)
    requires Shaped(s)
  {
    && |cals| == PADS && AreVisits(s, env, cals, stages) && Possible(s, stages[0])
    && Run(s, stages[0]).at.Between? && Run(s, stages[0]).index == 0
    && NoReset(env, PADS) && (still ==> forall i | 0 <= i < PADS :: Still(env(i)))
  }

  /** The loop comes to place n of the order. */
  ghost predicate ComesTo(s: State, es: seq<Event>, n: nat, order: seq<nat>)
    requires Shaped(s)
  {
    Possible(s, es) && Run(s, es).at.Between? && Run(s, es).index == n && Run(s, es).order == order
  }

  lemma ComesOnePlaceOn(s: State, before: seq<Event>, env: Surroundings, cal: Calibration, es: seq<Event>, n: nat,
                        order: seq<nat>)
    requires Initial(s) && ComesTo(s, before, n, order) && n < PADS && IsVisit(s, before, env, cal, es) && !env.reset
    ensures ComesTo(s, es, n + 1, order)
  {
    VisitWithoutReset(s, before, env, cal, es, false);
  }

  lemma {:induction false} ComesToPlace(s: State, env: nat -> Surroundings, cals: seq<Calibration>,
                                      stages: seq<seq<Event>>, n: nat, still: bool)
    requires Initial(s) && IsRound(s, env, cals, stages, still) && n <= PADS
    ensures ComesTo(s, stages[n], n, Run(s, stages[0]).order)
    decreases n
  {
    if n > 0 {
      ComesToPlace(s, env, cals, stages, n - 1, still);
      ComesOnePlaceOn(s, stages[n - 1], env(n - 1), cals[n - 1], stages[n], n - 1, Run(s, stages[0]).order);
    }
  }

  /** What has become, at t, of the pad at place i of a round that began at a. */
  ghost predicate PlaceSoFar(s: State, a: State, t: State, before: seq<Event>, env: Surroundings, cal: Calibration,
                             i: nat, n: nat, still: bool)
    requires Shaped(s) && Shaped(a) && Shaped(t) && i < PADS
  {
    var p := a.order[i];
    if i >= n then Kept(a.pads[p], t.pads[p], still)
    else
      var begun := WithBegin(before, env, cal);
      && Possible(s, begun) && Run(s, begun).at == Ready(p) && Kept(a.pads[p], Run(s, begun).pads[p], still)
      && Outcome(Run(s, begun).pads[p], t.pads[p], p, env, still)
  }

  /** The visit of another pad. */
  lemma PlaceStays(s: State, a: State, t: State, b: State, u: State, other: Surroundings, before: seq<Event>,
                   env: Surroundings, cal: Calibration, i: nat, n: nat, still: bool)
    requires Shaped(s) && Shaped(a) && Shaped(t) && Shaped(b) && Shaped(u) && i < PADS && n < PADS && i != n
    requires PlaceSoFar(s, a, t, before, env, cal, i, n, still)
    requires t.order == a.order && t.index == n && VisitDone(t, b, u, other, still)
    ensures PlaceSoFar(s, a, u, before, env, cal, i, n + 1, still)
  {
    assert a.order[i] != a.order[n];
    assert Kept(t.pads[a.order[i]], u.pads[a.order[i]], still);
  }

  /** Its own visit. */
  lemma PlaceDecided(s: State, a: State, t: State, b: State, u: State, before: seq<Event>, env: Surroundings,
                     cal: Calibration, i: nat, still: bool)
    requires Shaped(s) && Shaped(a) && Shaped(t) && Shaped(b) && Shaped(u) && i < PADS
    requires PlaceSoFar(s, a, t, before, env, cal, i, i, still) && t.order == a.order && t.index == i
    requires Possible(s, WithBegin(before, env, cal)) && b == Run(s, WithBegin(before, env, cal))
    requires VisitDone(t, b, u, env, still)
    ensures PlaceSoFar(s, a, u, before, env, cal, i, i + 1, still)
  {
  }

  ghost predicate PlaceAfter(s: State, env: nat -> Surroundings, cals: seq<Calibration>, stages: seq<seq<Event>>,
                             i: nat, n: nat, still: bool)
    requires Shaped(s) && |stages| == |cals| + 1 == PADS + 1 && Possible(s, stages[0]) && i < PADS && n <= PADS
  {
    && Possible(s, stages[n])
    && PlaceSoFar(s, Run(s, stages[0]), Run(s, stages[n]), stages[i], env(i), cals[i], i, n, still)
  }

  lemma PlaceBefore(s: State, env: nat -> Surroundings, cals: seq<Calibration>, stages: seq<seq<Event>>, i: nat,
                    still: bool)
    requires Shaped(s) && |stages| == |cals| + 1 == PADS + 1 && Possible(s, stages[0]) && i < PADS
    ensures PlaceAfter(s, env, cals, stages, i, 0, still)
  {
  }

  lemma PlaceStep(s: State, env: nat -> Surroundings, cals: seq<Calibration>, stages: seq<seq<Event>>, i: nat, n: nat,
                  still: bool)
    requires Initial(s) && IsRound(s, env, cals, stages, still) && i < PADS && n < PADS
    requires PlaceAfter(s, env, cals, stages, i, n, still)
    ensures PlaceAfter(s, env, cals, stages, i, n + 1, still)
  {
    ComesToPlace(s, env, cals, stages, n, still);
    VisitWithoutReset(s, stages[n], env(n), cals[n], stages[n + 1], still);
    var a, t, u := Run(s, stages[0]), Run(s, stages[n]), Run(s, stages[n + 1]);
    var b := Run(s, WithBegin(stages[n], env(n), cals[n]));
    if i == n {
      PlaceDecided(s, a, t, b, u, stages[i], env(i), cals[i], i, still);
    } else {
      PlaceStays(s, a, t, b, u, env(n), stages[i], env(i), cals[i], i, n, still);
    }
  }

  lemma {:induction false} PlaceByPlace(s: State, env: nat -> Surroundings, cals: seq<Calibration>,
                                        stages: seq<seq<Event>>, i: nat, n: nat, still: bool)
    requires Initial(s) && IsRound(s, env, cals, stages, still) && i < PADS && n <= PADS
    ensures PlaceAfter(s, env, cals, stages, i, n, still)
    decreases n
  {
    if n == 0 {
      PlaceBefore(s, env, cals, stages, i, still);
    } else {
      PlaceByPlace(s, env, cals, stages, i, n - 1, still);
      PlaceStep(s, env, cals, stages, i, n - 1, still);
    }
  }

  /** A round without a reset decides for every pad by the threshold that its own visit finds, and what
      it has decided is still so at the end of the round, whatever interrupts come in. */
  lemma RoundDecides(s: State, env: nat -> Surroundings, cals: seq<Calibration>, stages: seq<seq<Event>>, i: nat,
                     still: bool)
    requires Initial(s) && IsRound(s, env, cals, stages, still) && i < PADS
    ensures var begun := WithBegin(stages[i], env(i), cals[i]); var p := Run(s, stages[0]).order[i];
      && Possible(s, stages[PADS]) && Possible(s, begun) && Run(s, begun).at == Ready(p)
      && Outcome(Run(s, begun).pads[p], Run(s, stages[PADS]).pads[p], p, env(i), still)
  {
    PlaceByPlace(s, env, cals, stages, i, PADS, still);
  }

  /** Without interrupts it is the thresholds and pressures at the start of the round that decide. */
  lemma StillRoundDecides(s: State, env: nat -> Surroundings, cals: seq<Calibration>, stages: seq<seq<Event>>, i: nat)
    requires Initial(s) && IsRound(s, env, cals, stages, true) && i < PADS
    ensures Possible(s, stages[PADS])
    ensures var (a, t) := (Run(s, stages[0]), Run(s, stages[PADS]));
      Outcome(a.pads[a.order[i]], t.pads[a.order[i]], a.order[i], env(i), true)
  {
    PlaceByPlace(s, env, cals, stages, i, PADS, true);
  }
}
