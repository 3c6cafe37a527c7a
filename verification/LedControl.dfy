/** What decides the LED's colour: settings and clock messages from the host application, MIDI
    messages, and the LED phase at the end of every scan. */
module LedControl {
  import opened Bytes
  import opened Led

  datatype Owner = Nobody | HostClock | MidiClock

  /** The LED variables and the tick counter of the MIDI clock; prev is prev_led_sum. */
  datatype State = State(
    mode: byte, status: byte, pressure: byte, clock: byte,
    owner: Owner, tempo: nat, fade: int, ticks: nat,
    colours: seq<Rgb>, still: Rgb, prev: nat)

  datatype Event =
    | MidiIn(m0: byte, m1: byte, m2: byte)
    | HostMessage(kind: byte, a: byte, b: byte, c: byte)
    | Phase(ledSum: nat)

  /** What an event sends to the LED. Garbage: the channel variables were never assigned. */
  datatype Output = Nothing | Colour(c: Rgb) | Garbage

  predicate Shaped(s: State) {
    |s.colours| == 3
  }

  // ----- colours -----

  function SetColour(s: State, i: nat, r: byte, g: byte, b: byte): State
    requires Shaped(s) && i < 3
  {
    var c := Fitted(1023.0 * r as real / 255.0, 1023.0 * g as real / 255.0, 1023.0 * b as real / 255.0);
    s.(colours := s.colours[i := c])
  }

  function SetStill(s: State, channel: nat, v: byte): State {
    var x := 1023.0 * v as real / 127.0;
    s.(still := Fitted(if channel == 0 then x else s.still.red as real,
                       if channel == 1 then x else s.still.green as real,
                       if channel != 0 && channel != 1 then x else s.still.blue as real))
  }

  /** LED_Init: everything on, no clock, and the colours blue, green and red. */
  function PowerUp(): (s: State)
    ensures Shaped(s)
  {
    SetColour(SetColour(SetColour(Blank(), 0, 0, 0, 255), 1, 0, 255, 0), 2, 255, 0, 0)
  }

  function Blank(): (s: State)
    ensures Shaped(s)
  {
    State(0, 1, 1, 0, Nobody, 120, 100, 0, [Rgb(0, 0, 0), Rgb(0, 0, 0), Rgb(0, 0, 0)], Rgb(0, 0, 0), 0)
  }

  // ----- messages -----

  /** MIDI_Process_Usb_Midi, clock messages first. */
  function OnClockMessage(s: State, m0: byte): State {
    if s.owner == HostClock then s
    else if m0 == 250 || m0 == 251 then s.(owner := MidiClock, fade := 100, ticks := 0)
    else if m0 == 252 then s.(owner := Nobody)
    else if m0 == 248 then
      if s.ticks + 1 >= 24 then s.(fade := 100, ticks := 0) else s.(ticks := s.ticks + 1)
    else s
  }

  function OnMidi(s: State, m0: byte, m1: byte, m2: byte): State {
    var t := OnClockMessage(s, m0);
    if m0 != 191 then t
    else if m1 == 20 then t.(mode := if m2 == 0 then 0 else 1)
    else if 21 <= m1 <= 23 then SetStill(t, m1 - 21, m2)
    else t
  }

  /** One message of GenericHID_ProcessReport; kind 0 passes MIDI on and concerns no LED. */
  function OnHost(s: State, kind: byte, a: byte, b: byte, c: byte): State
    requires Shaped(s)
  {
    if kind == 1 then
      if a == 1 then s.(status := b)
      else if a == 2 then s.(pressure := b)
      else if a == 3 then s.(clock := b)
      else if a == 4 then s.(mode := b)
      else s
    else if 2 <= kind <= 4 then SetColour(s, kind - 2, a, b, c)
    else if kind == 5 && s.owner != MidiClock then
      var t := s.(tempo := b as nat + c as nat * 256);
      if a == 0 then t.(owner := Nobody) else t.(owner := HostClock, fade := 100)
    else s
  }

  // ----- the LED phase -----

  /** The conversion to int8_t that the fade step goes through. */
  function Int8(x: int): int {
    (x + 128) % 256 - 128
  }

  function Doubled(ledSum: nat): nat {
    if ledSum > 0 then 2 * ledSum % 0x1_0000 + 1 else 0
  }

  /** The sum as the colour code leaves it: it is scaled to 0..1023 in two stages. */
  function ScaledSum(ledSum: nat): (t: nat)
    ensures t <= LED_MAX
  {
    if Doubled(ledSum) <= LED_MAX then Doubled(ledSum)
    else if Doubled(ledSum) - 1022 > LED_MAX then LED_MAX
    else Doubled(ledSum) - 1022
  }

  function PhaseSum(s: State, ledSum: nat): nat {
    if s.mode != 0 || s.status == 0 || s.pressure == 0 then ledSum else ScaledSum(ledSum)
  }

  predicate SecondStage(ledSum: nat) {
    Doubled(ledSum) > LED_MAX
  }

  /** The colour before the clock has its say; in the second stage it is only assigned if the scan
      before felt pressure too. */
  function BaseColour(s: State, ledSum: nat): Output
    requires Shaped(s)
  {
    if s.pressure == 0 then Colour(s.colours[0])
    else if !SecondStage(ledSum) then
      if s.prev > 0 then Colour(Blended(s.colours[0], s.colours[1], ScaledSum(ledSum)))
      else Colour(s.colours[0])
    else if s.prev > 0 then Colour(Blended(s.colours[1], s.colours[2], ScaledSum(ledSum)))
    else Garbage
  }

  predicate Fading(s: State) {
    s.clock != 0 && s.owner != Nobody
  }

  function NextFade(s: State): int {
    match s.owner
    case Nobody => s.fade
    case HostClock => Int8(Truncate(s.fade as real - s.tempo as real / 25.0))
    case MidiClock => Int8(Truncate(100.0 - s.ticks as real * 4.5))
  }

  function PhaseOutput(s: State, ledSum: nat): Output
    requires Shaped(s)
  {
    if s.mode == 1 then Colour(s.still)
    else if s.mode != 0 || s.status == 0 then Nothing
    else if !Fading(s) then BaseColour(s, ledSum)
    else if s.fade <= 0 then Colour(Rgb(0, 0, 0))
    else
      match BaseColour(s, ledSum)
      case Colour(c) => Colour(Faded(c, s.fade))
      case other => other
  }

  function OnPhase(s: State, ledSum: nat): State {
    s.(prev := PhaseSum(s, ledSum), fade := if s.mode == 0 && s.status != 0 && Fading(s) then NextFade(s) else s.fade)
  }

  // ----- runs -----

  function Next(s: State, e: Event): (t: State)
    requires Shaped(s)
    ensures Shaped(t)
  {
    match e
    case MidiIn(m0, m1, m2) => OnMidi(s, m0, m1, m2)
    case HostMessage(kind, a, b, c) => OnHost(s, kind, a, b, c)
    case Phase(ledSum) => OnPhase(s, ledSum)
  }

  /** Switching the LED or its pressure setting writes a colour at once. */
  function OutputOf(s: State, e: Event): Output
    requires Shaped(s)
  {
    match e
    case MidiIn(_, _, _) => Nothing
    case HostMessage(kind, a, b, _) =>
      if kind == 1 && a == 1 && s.mode == 0 then Colour(if b == 0 then Rgb(0, 0, 0) else s.colours[0])
      else if kind == 1 && a == 2 && s.mode == 0 && b == 0 && s.status == 1 then Colour(s.colours[0])
      else Nothing
    case Phase(ledSum) => PhaseOutput(s, ledSum)
  }

  function Run(s: State, es: seq<Event>): (t: State)
    requires Shaped(s)
    ensures Shaped(t)
  {
    if es == [] then s else Next(Run(s, es[..|es| - 1]), es[|es| - 1])
  }

  // ----- the budget -----

  predicate Within(s: State) {
    Shaped(s) && InBudget(s.still) && (forall i | 0 <= i < 3 :: InBudget(s.colours[i]))
  }

  lemma ColourInBudget(s: State, i: nat, r: byte, g: byte, b: byte)
    requires Within(s) && i < 3
    ensures Within(SetColour(s, i, r, g, b))
  {
    FittedInBudget(1023.0 * r as real / 255.0, 1023.0 * g as real / 255.0, 1023.0 * b as real / 255.0);
  }

  lemma StillInBudget(s: State, channel: nat, v: byte)
    ensures InBudget(SetStill(s, channel, v).still)
  {
    var x := 1023.0 * v as real / 127.0;
    FittedInBudget(if channel == 0 then x else s.still.red as real, if channel == 1 then x else s.still.green as real,
                   if channel != 0 && channel != 1 then x else s.still.blue as real);
  }

  lemma MidiKeepsBudget(s: State, m0: byte, m1: byte, m2: byte)
    requires Within(s)
    ensures Within(OnMidi(s, m0, m1, m2))
  {
    var t := OnClockMessage(s, m0);
    assert t.colours == s.colours && t.still == s.still;
    if 21 <= m1 <= 23 {
      StillInBudget(t, m1 - 21, m2);
    }
  }

  lemma StepKeepsBudget(s: State, e: Event)
    requires Within(s)
    ensures Within(Next(s, e))
  {
    match e
    case MidiIn(m0, m1, m2) => MidiKeepsBudget(s, m0, m1, m2);
    case HostMessage(kind, a, b, c) =>
      if 2 <= kind <= 4 {
        ColourInBudget(s, kind - 2, a, b, c);
      }
    case Phase(_) =>
  }

  lemma PowerUpInBudget()
    ensures Within(PowerUp())
  {
    FirstTwoInBudget();
    ColourInBudget(SetColour(SetColour(Blank(), 0, 0, 0, 255), 1, 0, 255, 0), 2, 255, 0, 0);
  }

  lemma FirstTwoInBudget()
    ensures Within(SetColour(SetColour(Blank(), 0, 0, 0, 255), 1, 0, 255, 0))
  {
    ColourInBudget(Blank(), 0, 0, 0, 255);
    ColourInBudget(SetColour(Blank(), 0, 0, 0, 255), 1, 0, 255, 0);
  }

  /** After any mix of messages and scans every stored colour is within the budget. */
  lemma {:induction false} StoredColoursInBudget(es: seq<Event>)
    ensures Within(Run(PowerUp(), es))
  {
    if es == [] {
      PowerUpInBudget();
    } else {
      StoredColoursInBudget(es[..|es| - 1]);
      StepKeepsBudget(Run(PowerUp(), es[..|es| - 1]), es[|es| - 1]);
    }
  }

  /** Every colour that is sent to the LED is within the budget, if the fade step is at most 100
      when it is applied. */
  lemma SentColoursInBudget(es: seq<Event>, e: Event)
    ensures var s := Run(PowerUp(), es);
      OutputOf(s, e).Colour? && !(e.Phase? && Endangered(s)) ==> InBudget(OutputOf(s, e).c)
  {
    var s := Run(PowerUp(), es);
    StoredColoursInBudget(es);
    if e.Phase? {
      BaseInBudget(s, e.ledSum);
      if BaseColour(s, e.ledSum).Colour? && s.fade <= 100 {
        FadedInBudget(BaseColour(s, e.ledSum).c, s.fade);
      }
    }
  }

  lemma BaseInBudget(s: State, ledSum: nat)
    requires Within(s)
    ensures BaseColour(s, ledSum).Colour? ==> InBudget(BaseColour(s, ledSum).c)
  {
    var t := ScaledSum(ledSum);
    if s.pressure != 0 {
      BlendedInBudget(s.colours[0], s.colours[1], t);
      BlendedInBudget(s.colours[1], s.colours[2], t);
    }
  }

  /** The phase sends channels that were never assigned exactly when pressure jumps from nothing to
      the second stage within one scan and no clock turns the LED off. */
  lemma GarbageIff(s: State, ledSum: nat)
    requires Shaped(s)
    ensures PhaseOutput(s, ledSum) == Garbage <==>
              && s.mode == 0 && s.status != 0 && s.pressure != 0 && SecondStage(ledSum) && s.prev == 0
              && !(Fading(s) && s.fade <= 0)
  {
  }

  /** It does happen: right after power-up, in a scan that sums up to 512 or more. */
  lemma GarbageReachable(ledSum: nat)
    requires ledSum < 0x8000
    ensures OutputOf(Run(PowerUp(), []), Phase(ledSum)) == Garbage <==> ledSum >= 512
  {
    GarbageIff(PowerUp(), ledSum);
    assert Doubled(ledSum) == if ledSum > 0 then 2 * ledSum + 1 else 0;
  }

  // ----- clocks -----

  /** Neither clock takes over from the other: the owner is let go in between. */
  lemma OwnerStep(s: State, e: Event)
    requires Shaped(s)
    ensures !(s.owner == HostClock && Next(s, e).owner == MidiClock)
    ensures !(s.owner == MidiClock && Next(s, e).owner == HostClock)
  {
  }

  lemma {:induction false} OwnershipPassesThroughNobody(s: State, es: seq<Event>)
    requires Shaped(s) && s.owner != Nobody && Run(s, es).owner != Nobody && Run(s, es).owner != s.owner
    ensures exists k :: 0 <= k < |es| && Run(s, es[..k]).owner == Nobody
  {
    var front := es[..|es| - 1];
    OwnerStep(Run(s, front), es[|es| - 1]);
    if Run(s, front).owner == Nobody {
      assert Run(s, es[..|es| - 1]).owner == Nobody;
    } else {
      OwnershipPassesThroughNobody(s, front);
      var k :| 0 <= k < |front| && Run(s, front[..k]).owner == Nobody;
      assert es[..k] == front[..k];
    }
  }

  /** Timing messages since the last start or continue message. */
  function TicksSinceStart(es: seq<Event>): nat {
    if es == [] then 0
    else
      var e := es[|es| - 1];
      if e.MidiIn? && (e.m0 == 250 || e.m0 == 251) then 0
      else TicksSinceStart(es[..|es| - 1]) + (if e.MidiIn? && e.m0 == 248 then 1 else 0)
  }

  /** n modulo 24, counted up. */
  function Beat(n: nat): nat {
    if n == 0 || Beat(n - 1) + 1 >= 24 then 0 else Beat(n - 1) + 1
  }

  lemma {:induction false} BeatIsRemainder(n: nat)
    ensures Beat(n) == n % 24
  {
    if n > 0 {
      BeatIsRemainder(n - 1);
    }
  }

  /** The tick counter stays below 24, and under the MIDI clock it is the number of timing messages
      since the last start or continue message, modulo 24. */
  lemma {:induction false} TickCounter(es: seq<Event>)
    ensures var s := Run(PowerUp(), es);
      s.ticks < 24 && (s.owner == MidiClock ==> s.ticks == Beat(TicksSinceStart(es)))
  {
    if es != [] {
      TickCounter(es[..|es| - 1]);
    }
  }

  /** The value a phase gives the step under the MIDI clock is between -3 and 100. */
  lemma MidiFadeRange(ticks: nat)
    requires ticks < 24
    ensures var x := Truncate(100.0 - ticks as real * 4.5); -3 <= x <= 100 && Int8(x) == x
  {
  }

  /** Under the host clock a phase lowers the step by tempo / 25, and what is stored is that value
      exactly as long as it is above -129: below that the conversion to int8_t wraps round. */
  lemma HostFadeStep(s: State)
    requires s.owner == HostClock && -128 <= s.fade <= 100
    ensures var x := Truncate(s.fade as real - s.tempo as real / 25.0);
      && x <= s.fade
      && (NextFade(s) == x <==> 25 * s.fade - s.tempo > -129 * 25)
  {
    var y := s.fade as real - s.tempo as real / 25.0;
    assert 25.0 * y == (25 * s.fade - s.tempo) as real;
  }

  /** The step that a phase under the host clock stores. */
  function StoredStep(fade: int, tempo: nat): int {
    Int8(Truncate(fade as real - tempo as real / 25.0))
  }

  /** The event is a phase that lets the host clock lower the step. */
  predicate HostLowers(s: State, e: Event) {
    e.Phase? && s.mode == 0 && s.status != 0 && Fading(s) && s.owner == HostClock
  }

  /** Whenever the host clock lowers the step, what is stored is at most 100. */
  ghost predicate LowSteps(es: seq<Event>) {
    es == [] ||
    (var s := Run(PowerUp(), es[..|es| - 1]);
     && LowSteps(es[..|es| - 1])
     && (HostLowers(s, es[|es| - 1]) ==> StoredStep(s.fade, s.tempo) <= 100))
  }

  lemma FadeStepIff(s: State, e: Event)
    requires Shaped(s) && s.fade <= 100 && s.ticks < 24
    ensures Next(s, e).fade <= 100 <==> (HostLowers(s, e) ==> StoredStep(s.fade, s.tempo) <= 100)
  {
    MidiFadeRange(s.ticks);
  }

  lemma FadeStep(s: State, e: Event)
    requires Shaped(s) && -128 <= s.fade <= 100 && (s.owner == MidiClock ==> s.ticks < 24)
    requires e.Phase? && s.mode == 0 && s.status != 0 && Fading(s) && s.owner == HostClock ==>
               25 * s.fade - s.tempo > -129 * 25
    ensures -128 <= Next(s, e).fade <= 100
  {
    if s.owner == MidiClock {
      MidiFadeRange(s.ticks);
    } else if s.owner == HostClock {
      HostFadeStep(s);
    }
  }

  /** The step is at most 100 after the run, and was at every point of it. */
  predicate NeverBright(es: seq<Event>) {
    Run(PowerUp(), es).fade <= 100 && (es == [] || NeverBright(es[..|es| - 1]))
  }

  /** Over a run, the step never exceeds 100 exactly if the host clock never stores a larger one. */
  lemma {:induction false} FadeAtMost100(es: seq<Event>)
    ensures NeverBright(es) <==> LowSteps(es)
  {
    if es != [] {
      var front := es[..|es| - 1];
      FadeAtMost100(front);
      TickCounter(front);
      if NeverBright(front) {
        FadeStepIff(Run(PowerUp(), front), es[|es| - 1]);
      }
    }
  }

  /** A start of the host's clock at tempo 5725 and one phase are enough to wrap the step round to
      127, and the next phase sends 1299 where the budget is 1023. */
  lemma FadeWrapBreaksBudget()
    ensures var es := [HostMessage(1, 3, 1, 0), HostMessage(5, 1, 93, 22), Phase(0)];
      && !LowSteps(es)
      && OutputOf(Run(PowerUp(), es), Phase(0)) == Colour(Rgb(0, 0, 1299))
  {
    var e0, e1, e2 := HostMessage(1, 3, 1, 0), HostMessage(5, 1, 93, 22), Phase(0);
    var s0 := PowerUp();
    assert s0.colours[0] == Rgb(0, 0, 1023);
    var s1 := s0.(clock := 1);
    var s2 := s1.(owner := HostClock, fade := 100, tempo := 5725);
    assert Run(s0, []) == s0;
    assert [e0][..0] == [] && Run(s0, [e0]) == Next(s0, e0) == s1;
    assert [e0, e1][..1] == [e0] && Run(s0, [e0, e1]) == Next(s1, e1) == s2;
    assert [e0, e1, e2][..2] == [e0, e1] && Run(s0, [e0, e1, e2]) == Next(s2, e2);
    assert Truncate(100.0 - 5725.0 / 25.0) == -129;
    assert Next(s2, e2) == s2.(fade := 127);
    assert FadedChannel(1023, 127) == 1299 && FadedChannel(0, 127) == 0;
  }

  predicate Ticking(s: State) {
    Shaped(s) && s.mode == 0 && s.status != 0 && s.clock != 0 && s.owner == HostClock && -128 <= s.fade <= 100
  }

  predicate Phases(es: seq<Event>) {
    forall e <- es :: e.Phase?
  }

  predicate WrapsNext(s: State) {
    25 * s.fade - s.tempo <= -129 * 25
  }

  lemma HostDecrement(s: State)
    requires Ticking(s) && !WrapsNext(s)
    ensures s.tempo >= 25 ==> NextFade(s) <= s.fade - 1
    ensures s.tempo < 25 && s.fade >= 0 ==> 0 <= NextFade(s)
    ensures NextFade(s) <= s.fade
  {
    HostFadeStep(s);
    var y := s.fade as real - s.tempo as real / 25.0;
    assert 25.0 * y == (25 * s.fade - s.tempo) as real;
  }

  lemma {:induction false} SilentHostFade(s: State, es: seq<Event>)
    requires Ticking(s) && Phases(es)
    requires forall k | 0 <= k < |es| :: !WrapsNext(Run(s, es[..k]))
    ensures var t := Run(s, es);
      && Ticking(t) && t.tempo == s.tempo && t.fade <= s.fade
      && (s.tempo >= 25 ==> t.fade <= s.fade - |es|)
      && (s.tempo < 25 && s.fade >= 0 ==> 0 <= t.fade)
  {
    if es != [] {
      var front := es[..|es| - 1];
      forall k | 0 <= k < |front| ensures !WrapsNext(Run(s, front[..k])) {
        assert es[..k] == front[..k];
      }
      SilentHostFade(s, front);
      var t := Run(s, front);
      assert !WrapsNext(t);
      assert Phases(front) && es[|es| - 1].Phase?;
      HostDecrement(t);
      FadeStep(t, es[|es| - 1]);
    }
  }

  /** When the host's clock falls silent the step wraps round after a while, within one phase for
      each unit of its way down to -128, if and only if the tempo is at least 25: a lower one stops
      at zero. */
  lemma SilentHostWrapsIff(s: State, es: seq<Event>)
    requires Ticking(s) && Phases(es) && s.fade >= 0 && |es| >= s.fade + 129
    ensures (exists k :: 0 <= k < |es| && WrapsNext(Run(s, es[..k]))) <==> s.tempo >= 25
  {
    if s.tempo >= 25 {
      if forall k | 0 <= k < |es| :: !WrapsNext(Run(s, es[..k])) {
        SilentHostFade(s, es);
        assert false;
      }
    } else {
      forall k | 0 <= k < |es| ensures !WrapsNext(Run(s, es[..k])) {
        SlowHostNeverWraps(s, es, k);
      }
    }
  }

  lemma {:induction false} SlowHostNeverWraps(s: State, es: seq<Event>, k: nat)
    requires Ticking(s) && Phases(es) && s.fade >= 0 && s.tempo < 25 && k < |es|
    ensures !WrapsNext(Run(s, es[..k]))
  {
    forall j | 0 <= j < k ensures !WrapsNext(Run(s, es[..k][..j])) {
      SlowHostNeverWraps(s, es, j);
      assert es[..k][..j] == es[..j];
    }
    SilentHostFade(s, es[..k]);
  }

  // ----- when the budget can be broken -----

  /** A phase now would fade with a step above 100. */
  predicate Endangered(s: State) {
    s.mode == 0 && s.status != 0 && Fading(s) && s.fade > 100
  }

  /** Whatever colour within the budget a phase starts from, it sends one within the budget, exactly
      if it does not fade or the step is at most 100. */
  lemma PhaseBudgetIff(s: State)
    requires s.mode == 0 && s.status != 0
    ensures (forall c | InBudget(c) :: InBudget(if Fading(s) then Faded(c, s.fade) else c)) <==> !Endangered(s)
  {
    if Endangered(s) {
      BrightStepOverBudget(s.fade);
    } else {
      forall c | InBudget(c) ensures InBudget(if Fading(s) then Faded(c, s.fade) else c) {
        if Fading(s) {
          FadedInBudget(c, s.fade);
        }
      }
    }
  }

  /** After the run and one setting of the first colour, a phase sends more than the budget. */
  ghost predicate Breaks(es: seq<Event>, r: byte, g: byte, b: byte, ledSum: nat) {
    var out := OutputOf(Next(Run(PowerUp(), es), HostMessage(2, r, g, b)), Phase(ledSum));
    out.Colour? && !InBudget(out.c)
  }

  lemma FullRed(s: State)
    requires Shaped(s)
    ensures Next(s, HostMessage(2, 255, 0, 0)) == s.(colours := s.colours[0 := Rgb(LED_MAX, 0, 0)])
  {
    assert Fitted(1023.0, 0.0, 0.0) == Rgb(LED_MAX, 0, 0);
    assert 1023.0 * 255.0 / 255.0 == 1023.0 && 1023.0 * 0.0 / 255.0 == 0.0;
  }

  lemma NoPressureShowsFirst(s: State)
    requires Shaped(s)
    ensures BaseColour(s, 0) == Colour(s.colours[0])
  {
    var (x, y) := (s.colours[0], s.colours[1]);
    BlendAtZero(x.red, y.red);
    BlendAtZero(x.green, y.green);
    BlendAtZero(x.blue, y.blue);
  }

  lemma BlendAtZero(a: nat, b: nat)
    ensures Stored(Blend(a, b, 0)) == a
  {
  }

  lemma EndangeredBreaks(es: seq<Event>)
    requires Endangered(Run(PowerUp(), es))
    ensures Breaks(es, 255, 0, 0, 0)
  {
    var s := Run(PowerUp(), es);
    FullRed(s);
    var t := Next(s, HostMessage(2, 255, 0, 0));
    NoPressureShowsFirst(t);
    BrightStepOverBudget(t.fade);
  }

  /** The host can make the LED be sent more than its budget by setting a colour exactly if the run
      has led to a step above 100 with a clock fading. */
  lemma BudgetBrokenIff(es: seq<Event>)
    ensures (exists r, g, b, ledSum :: Breaks(es, r, g, b, ledSum)) <==> Endangered(Run(PowerUp(), es))
  {
    if Endangered(Run(PowerUp(), es)) {
      EndangeredBreaks(es);
    } else if r, g, b, ledSum :| Breaks(es, r, g, b, ledSum) {
      var m := HostMessage(2, r, g, b);
      assert (es + [m])[..|es|] == es && Run(PowerUp(), es + [m]) == Next(Run(PowerUp(), es), m);
      SentColoursInBudget(es + [m], Phase(ledSum));
      assert false;
    }
  }

  /** The budget over whole runs: as long as the host clock stores no step above 100, every colour
      the LED is sent, at any time, adds up to at most 1023, and its packet carries it in full. */
  lemma BudgetOverRuns(es: seq<Event>, e: Event)
    requires LowSteps(es)
    ensures var out := OutputOf(Run(PowerUp(), es), e);
      out.Colour? ==> InBudget(out.c) && Unpacked(Packed(0, out.c)) == (0, out.c)
  {
    FadeAtMost100(es);
    SentColoursInBudget(es, e);
    var out := OutputOf(Run(PowerUp(), es), e);
    if out.Colour? {
      PacketRoundTrip(0, out.c);
    }
  }
}
