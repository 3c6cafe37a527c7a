/** What the LED shows, in terms of the stored colours, the pressure sum and the messages: the way from
    colour to colour as the pressure grows, brightness, the effect of every message, and how
    messages are laid out in a report and colours in a packet. */
module LedLaws {
  import opened Bytes
  import opened Led
  import opened LedControl
  import opened LedDriver

  // ----- the pressure sum -----

  const FIRST_TOP := 511
  const SECOND_TOP := 1022

  /** The first stage goes up to a sum of 511, the second to 1022; each is scaled to 0 or the odd numbers
      from 3 to 1023, growing with the sum, and what is more than 1022 counts as 1022. */
  lemma ScaledSumValues(ledSum: nat)
    requires ledSum < 0x8000
    ensures SecondStage(ledSum) <==> ledSum > FIRST_TOP
    ensures ScaledSum(ledSum) ==
      if ledSum == 0 then 0
      else if ledSum <= FIRST_TOP then 2 * ledSum + 1
      else if ledSum <= SECOND_TOP then 2 * (ledSum - FIRST_TOP) + 1
      else 1023
  {
  }

  /** Each stage reaches all of these numbers. */
  lemma ScaledSumReaches(v: nat)
    requires 3 <= v <= 1023 && v % 2 == 1
    ensures var n := v / 2; n <= FIRST_TOP && ScaledSum(n) == v && !SecondStage(n)
    ensures var n := FIRST_TOP + v / 2; n <= SECOND_TOP && ScaledSum(n) == v && SecondStage(n)
  {
    ScaledSumValues(v / 2);
    ScaledSumValues(FIRST_TOP + v / 2);
  }

  lemma ScaledSumGrows(a: nat, b: nat)
    requires a <= b < 0x8000 && SecondStage(a) == SecondStage(b)
    ensures ScaledSum(a) <= ScaledSum(b)
  {
    ScaledSumValues(a);
    ScaledSumValues(b);
  }

  // ----- from colour to colour -----

  /** The LED follows the pressure: normal mode, switched on, pressure and scan before felt. */
  predicate FollowsPressure(s: State) {
    Shaped(s) && s.mode == 0 && s.status != 0 && s.pressure != 0 && s.prev > 0 && !Fading(s)
  }

  /** The two colours that a sum lies between. */
  function From(s: State, ledSum: nat): Rgb
    requires Shaped(s)
  {
    if ledSum <= FIRST_TOP then s.colours[0] else s.colours[1]
  }

  function To(s: State, ledSum: nat): Rgb
    requires Shaped(s)
  {
    if ledSum <= FIRST_TOP then s.colours[1] else s.colours[2]
  }

  lemma BlendAtTop(a: nat, b: nat)
    ensures Stored(Blend(a, b, 1023)) == b
  {
    var d := a as real - b as real;
    assert 1023.0 * (d / 1023.0) == d;
  }

  lemma TopIsTarget(x: Rgb, y: Rgb)
    ensures Blended(x, y, 1023) == y
  {
    BlendAtTop(x.red, y.red);
    BlendAtTop(x.green, y.green);
    BlendAtTop(x.blue, y.blue);
  }

  /** No pressure shows the first colour, a sum of 511 the second, a sum of 1022 or more the third. */
  lemma PressureEnds(s: State, ledSum: nat)
    requires FollowsPressure(s) && ledSum < 0x8000
    ensures ledSum == 0 ==> PhaseOutput(s, ledSum) == Colour(s.colours[0])
    ensures ledSum == 511 ==> PhaseOutput(s, ledSum) == Colour(s.colours[1])
    ensures ledSum >= 1022 ==> PhaseOutput(s, ledSum) == Colour(s.colours[2])
  {
    ScaledSumValues(ledSum);
    if ledSum == 0 {
      NoPressureShowsFirst(s);
    } else if ledSum == 511 {
      TopIsTarget(s.colours[0], s.colours[1]);
    } else if ledSum >= 1022 {
      TopIsTarget(s.colours[1], s.colours[2]);
    }
  }

  predicate BetweenChannels(a: nat, b: nat, v: nat) {
    a <= v <= b || b <= v <= a
  }

  predicate BetweenColours(x: Rgb, y: Rgb, c: Rgb) {
    && BetweenChannels(x.red, y.red, c.red)
    && BetweenChannels(x.green, y.green, c.green)
    && BetweenChannels(x.blue, y.blue, c.blue)
  }

  /** p and q lie in this order on the way from nothing to d. */
  predicate OnTheWay(d: real, p: real, q: real) {
    (d >= 0.0 ==> 0.0 <= p <= q <= d) && (d <= 0.0 ==> d <= q <= p <= 0.0)
  }

  lemma WeightGrows(d: real, t: nat, u: nat)
    requires t <= u <= 1023
    ensures OnTheWay(d, t as real * (d / 1023.0), u as real * (d / 1023.0))
  {
    var w := d / 1023.0;
    assert 1023.0 * w == d;
    WeightOrder(w, t as real, u as real);
    WeightOrder(w, u as real, 1023.0);
    WeightOrder(w, 0.0, t as real);
  }

  lemma WeightOrder(w: real, x: real, y: real)
    requires x <= y
    ensures w >= 0.0 ==> x * w <= y * w
    ensures w <= 0.0 ==> y * w <= x * w
  {
    if w >= 0.0 {
      Product(w, y - x);
      assert w * (y - x) == y * w - x * w;
    } else {
      Product(-w, y - x);
      assert -w * (y - x) == x * w - y * w;
    }
  }

  /** Taking off p or more, q, of the way d from a to b. */
  lemma MovesBy(a: nat, b: nat, p: real, q: real)
    requires OnTheWay(a as real - b as real, p, q)
    ensures var (x, y) := (Stored(a as real - p), Stored(a as real - q));
      BetweenChannels(a, b, x) && (a <= b ==> x <= y) && (a >= b ==> y <= x)
  {
  }

  lemma BlendTakesOff(a: nat, b: nat, t: nat, u: nat) returns (p: real, q: real)
    requires t <= u <= 1023
    ensures Blend(a, b, t) == a as real - p && Blend(a, b, u) == a as real - q
    ensures OnTheWay(a as real - b as real, p, q)
  {
    var d := a as real - b as real;
    p, q := t as real * (d / 1023.0), u as real * (d / 1023.0);
    WeightGrows(d, t, u);
  }

  /** A channel of a blend lies between its ends, and moves from the one to the other. */
  lemma BlendMoves(a: nat, b: nat, t: nat, u: nat)
    requires t <= u <= 1023
    ensures BetweenChannels(a, b, Stored(Blend(a, b, t)))
    ensures a <= b ==> Stored(Blend(a, b, t)) <= Stored(Blend(a, b, u))
    ensures a >= b ==> Stored(Blend(a, b, u)) <= Stored(Blend(a, b, t))
  {
    var p, q := BlendTakesOff(a, b, t, u);
    MovesBy(a, b, p, q);
  }

  /** Whatever the pressure, every channel lies between those of the two colours of the stage. */
  lemma PressureBetween(s: State, ledSum: nat)
    requires FollowsPressure(s) && ledSum < 0x8000
    ensures PhaseOutput(s, ledSum).Colour?
    ensures BetweenColours(From(s, ledSum), To(s, ledSum), PhaseOutput(s, ledSum).c)
  {
    ScaledSumValues(ledSum);
    var (x, y, t) := (From(s, ledSum), To(s, ledSum), ScaledSum(ledSum));
    BlendMoves(x.red, y.red, t, t);
    BlendMoves(x.green, y.green, t, t);
    BlendMoves(x.blue, y.blue, t, t);
  }

  /** c is nearer to the goal than b, or as near, in one channel. */
  predicate Nearer(a: nat, goal: nat, b: nat, c: nat) {
    if a <= goal then b <= c else c <= b
  }

  /** More pressure within a stage brings every channel nearer to that of the later colour. */
  lemma PressureMoves(s: State, ledSum: nat, more: nat)
    requires FollowsPressure(s) && ledSum <= more < 0x8000 && (ledSum <= FIRST_TOP <==> more <= FIRST_TOP)
    ensures PhaseOutput(s, ledSum).Colour? && PhaseOutput(s, more).Colour?
    ensures var (x, y, b, c) := (From(s, ledSum), To(s, ledSum), PhaseOutput(s, ledSum).c, PhaseOutput(s, more).c);
      && Nearer(x.red, y.red, b.red, c.red)
      && Nearer(x.green, y.green, b.green, c.green)
      && Nearer(x.blue, y.blue, b.blue, c.blue)
  {
    ScaledSumValues(ledSum);
    ScaledSumValues(more);
    var (x, y, t, u) := (From(s, ledSum), To(s, ledSum), ScaledSum(ledSum), ScaledSum(more));
    BlendMoves(x.red, y.red, t, u);
    BlendMoves(x.green, y.green, t, u);
    BlendMoves(x.blue, y.blue, t, u);
  }

  predicate Within3(a: nat, b: nat) {
    a <= b + 3 && b <= a + 3
  }

  lemma BlendStart(a: nat, b: nat)
    requires a <= 1023 && b <= 1023
    ensures Within3(Stored(Blend(a, b, 3)), a)
  {
    var d := a as real - b as real;
    var w := 3.0 * (d / 1023.0);
    assert 1023.0 * (d / 1023.0) == d;
    assert -3.0 <= w <= 3.0;
  }

  /** The second stage starts where the first ends, within 3. */
  lemma StagesMeet(s: State)
    requires FollowsPressure(s) && Within(s)
    ensures PhaseOutput(s, 512).Colour?
    ensures var (x, c) := (s.colours[1], PhaseOutput(s, 512).c);
      Within3(c.red, x.red) && Within3(c.green, x.green) && Within3(c.blue, x.blue)
  {
    ScaledSumValues(512);
    var (x, y) := (s.colours[1], s.colours[2]);
    BlendStart(x.red, y.red);
    BlendStart(x.green, y.green);
    BlendStart(x.blue, y.blue);
  }

  /** In the other cases the colour does not depend on the pressure: the static colour in static mode,
      nothing when the LED is off, the first colour without pressure interaction, and in the first
      stage when the scan before felt no pressure. */
  lemma PressureIgnored(s: State, ledSum: nat)
    requires Shaped(s) && ledSum < 0x8000
    ensures s.mode == 1 ==> PhaseOutput(s, ledSum) == Colour(s.still)
    ensures s.mode == 0 && s.status == 0 ==> PhaseOutput(s, ledSum) == Nothing
    ensures s.mode > 1 ==> PhaseOutput(s, ledSum) == Nothing
    ensures s.mode == 0 && s.status != 0 && !Fading(s) && (s.pressure == 0 || (s.prev == 0 && ledSum <= 511)) ==>
              PhaseOutput(s, ledSum) == Colour(s.colours[0])
  {
    ScaledSumValues(ledSum);
  }

  /** Whether a scan felt pressure is remembered until the next phase. */
  lemma PressureRemembered(s: State, ledSum: nat)
    requires Shaped(s) && ledSum < 0x8000
    ensures OnPhase(s, ledSum).prev > 0 <==> ledSum > 0
  {
    ScaledSumValues(ledSum);
  }

  lemma {:induction false} PrevIsLastPhase(es: seq<Event>)
    requires forall e <- es :: e.Phase? ==> e.ledSum < 0x8000
    ensures Run(PowerUp(), es).prev > 0 <==> LastSum(es) > 0
  {
    if es != [] {
      var front, e := es[..|es| - 1], es[|es| - 1];
      PrevIsLastPhase(front);
      if e.Phase? {
        PressureRemembered(Run(PowerUp(), front), e.ledSum);
      }
    }
  }

  function LastSum(es: seq<Event>): nat {
    if es == [] then 0
    else if es[|es| - 1].Phase? then es[|es| - 1].ledSum
    else LastSum(es[..|es| - 1])
  }

  // ----- brightness -----

  /** The step is a brightness in percent: a channel is that part of it, rounded down; all of it at 100,
      and nothing at or below zero. */
  lemma FadeIsPercent(v: nat, step: int)
    requires step > 0
    ensures 100 * FadedChannel(v, step) <= v * step < 100 * FadedChannel(v, step) + 100
    ensures step == 100 ==> FadedChannel(v, step) == v
  {
    var x := v as real * (step as real / 100.0);
    assert 100.0 * x == v as real * step as real by {
      assert 100.0 * (step as real / 100.0) == step as real;
      assert 100.0 * x == v as real * (100.0 * (step as real / 100.0));
    }
    assert v as real * step as real == (v * step) as real;
    var f := x.Floor;
    assert f as real <= x < f as real + 1.0;
    assert (100 * f) as real <= (v * step) as real < (100 * f + 100) as real;
  }

  /** While a clock fades, a phase sends the colour at the brightness of the step. */
  lemma FadingShows(s: State, ledSum: nat)
    requires Shaped(s) && s.mode == 0 && s.status != 0 && Fading(s) && BaseColour(s, ledSum).Colour?
    ensures var c := BaseColour(s, ledSum).c;
      PhaseOutput(s, ledSum) ==
        Colour(if s.fade <= 0 then Rgb(0, 0, 0)
               else Rgb(FadedChannel(c.red, s.fade), FadedChannel(c.green, s.fade), FadedChannel(c.blue, s.fade)))
  {
  }

  /** What a phase stores under the MIDI clock: each of the 24 ticks of a beat takes off four and a half,
      fractions cut off towards zero. */
  lemma MidiPhaseStep(s: State, ledSum: nat)
    requires Shaped(s) && s.mode == 0 && s.status != 0 && s.clock != 0 && s.owner == MidiClock && s.ticks < 24
    ensures var f := OnPhase(s, ledSum).fade;
      && (s.ticks <= 22 ==> 2 * f <= 200 - 9 * s.ticks < 2 * f + 2)
      && (s.ticks == 23 ==> f == -3)
      && (s.ticks == 0 ==> f == 100)
  {
    var x := 100.0 - s.ticks as real * 4.5;
    assert 2.0 * x == (200 - 9 * s.ticks) as real;
    MidiFadeRange(s.ticks);
  }

  /** What a phase stores under the host's clock: the tempo divided by 25 less, fractions cut off towards
      zero, as long as that is above -129. */
  lemma HostPhaseStep(s: State, ledSum: nat)
    requires Shaped(s) && s.mode == 0 && s.status != 0 && s.clock != 0 && s.owner == HostClock && -128 <= s.fade <= 100
    requires 25 * s.fade - s.tempo > -129 * 25
    ensures var (f, x) := (OnPhase(s, ledSum).fade, 25 * s.fade - s.tempo);
      && (x >= 0 ==> 25 * f <= x < 25 * f + 25)
      && (x <= 0 ==> 25 * f - 25 < x <= 25 * f)
  {
    HostFadeStep(s);
    var y := s.fade as real - s.tempo as real / 25.0;
    assert 25.0 * y == (25 * s.fade - s.tempo) as real;
  }

  /** In all other phases the step stays. */
  lemma StepStays(s: State, ledSum: nat)
    requires Shaped(s) && (s.mode != 0 || s.status == 0 || s.clock == 0 || s.owner == Nobody)
    ensures OnPhase(s, ledSum).fade == s.fade
  {
  }

  // ----- messages -----

  const START := 250
  const CONTINUE := 251
  const STOP := 252
  const TIMING := 248
  const CC_CHANNEL_16 := 191

  /** Start and continue give the LED to the MIDI clock at full brightness, stop lets go of it, and the
      24th timing message begins a beat at full brightness; none of them counts while the host's
      clock owns it. */
  lemma MidiClockMessages(s: State, m1: byte, m2: byte, m: byte)
    requires Shaped(s) && m in {START, CONTINUE, STOP, TIMING}
    ensures var t := Next(s, MidiIn(m, m1, m2));
      if s.owner == HostClock then t == s
      else if m == START || m == CONTINUE then t == s.(owner := MidiClock, fade := 100, ticks := 0)
      else if m == STOP then t == s.(owner := Nobody)
      else if s.ticks >= 23 then t == s.(fade := 100, ticks := 0)
      else t == s.(ticks := s.ticks + 1)
  {
  }

  /** Every beat of a MIDI clock begins at full brightness. */
  lemma BeatIsBright(es: seq<Event>, m1: byte, m2: byte)
    requires Run(PowerUp(), es).owner == MidiClock && (TicksSinceStart(es) + 1) % 24 == 0
    ensures Next(Run(PowerUp(), es), MidiIn(TIMING, m1, m2)).fade == 100
  {
    TickCounter(es);
    BeatCompletes(TicksSinceStart(es));
    LastTickIsBright(Run(PowerUp(), es), m1, m2);
  }

  lemma BeatCompletes(n: nat)
    requires (n + 1) % 24 == 0
    ensures Beat(n) == 23
  {
    BeatIsRemainder(n);
  }

  lemma LastTickIsBright(s: State, m1: byte, m2: byte)
    requires Shaped(s) && s.owner == MidiClock && s.ticks == 23
    ensures Next(s, MidiIn(TIMING, m1, m2)).fade == 100
  {
    MidiClockMessages(s, m1, m2, TIMING);
  }

  /** A clock message of the host: zero lets go, anything else takes the LED at full brightness, and both
      set the tempo; not while a MIDI clock owns it. */
  lemma HostClockMessage(s: State, a: byte, tempo: nat)
    requires Shaped(s) && tempo < 0x1_0000
    ensures var t := Next(s, HostMessage(5, a, tempo % 256, tempo / 256));
      if s.owner == MidiClock then t == s
      else if a == 0 then t == s.(owner := Nobody, tempo := tempo)
      else t == s.(owner := HostClock, fade := 100, tempo := tempo)
  {
  }

  /** Settings of the host: on or off, pressure, clock, and mode. Off sends black at once, on the first
      colour, and so does leaving the pressure interaction while the LED is on; in normal mode only. */
  lemma SettingMessages(s: State, b: byte, c: byte)
    requires Shaped(s)
    ensures Next(s, HostMessage(1, 1, b, c)) == s.(status := b)
    ensures Next(s, HostMessage(1, 2, b, c)) == s.(pressure := b)
    ensures Next(s, HostMessage(1, 3, b, c)) == s.(clock := b)
    ensures Next(s, HostMessage(1, 4, b, c)) == s.(mode := b)
    ensures s.mode == 0 ==> OutputOf(s, HostMessage(1, 1, 0, c)) == Colour(Rgb(0, 0, 0))
    ensures s.mode == 0 && b != 0 ==> OutputOf(s, HostMessage(1, 1, b, c)) == Colour(s.colours[0])
    ensures s.mode == 0 && s.status == 1 ==> OutputOf(s, HostMessage(1, 2, 0, c)) == Colour(s.colours[0])
    ensures s.mode != 0 ==> OutputOf(s, HostMessage(1, 1, b, c)) == OutputOf(s, HostMessage(1, 2, b, c)) == Nothing
  {
  }

  /** All other messages change nothing of the LED, and nothing is sent but by the settings above. */
  lemma OtherMessages(s: State, a: byte, b: byte, c: byte)
    requires Shaped(s)
    ensures a !in {START, CONTINUE, STOP, TIMING, CC_CHANNEL_16} ==> Next(s, MidiIn(a, b, c)) == s
    ensures !(20 <= b <= 23) ==> Next(s, MidiIn(CC_CHANNEL_16, b, c)) == s
    ensures Next(s, HostMessage(0, a, b, c)) == s
    ensures forall kind: byte | kind > 5 :: Next(s, HostMessage(kind, a, b, c)) == s
    ensures !(1 <= a <= 4) ==> Next(s, HostMessage(1, a, b, c)) == s
    ensures OutputOf(s, MidiIn(a, b, c)) == Nothing
    ensures forall kind: byte | kind != 1 :: OutputOf(s, HostMessage(kind, a, b, c)) == Nothing
    ensures a != 1 && a != 2 ==> OutputOf(s, HostMessage(1, a, b, c)) == Nothing
    ensures b != 0 || s.status != 1 ==> OutputOf(s, HostMessage(1, 2, b, c)) == Nothing
  {
  }

  /** At power-up the LED is on and follows the pressure without a clock, from blue by way of green to red. */
  lemma PowerUpSettings()
    ensures var s := PowerUp();
      && s.mode == 0 && s.status == 1 && s.pressure == 1 && s.clock == 0 && s.owner == Nobody
      && s.colours == [Rgb(0, 0, 1023), Rgb(0, 1023, 0), Rgb(1023, 0, 0)] && s.still == Rgb(0, 0, 0)
  {
    FullChannel();
    ZeroChannel(255);
  }

  lemma FullChannel()
    ensures 1023.0 * (255 as byte) as real / 255.0 == 1023.0
  {
  }

  /** v of 255 of the full range of 1023, rounded down. */
  predicate IsScaled(x: nat, v: byte, range: nat) {
    range * x <= 1023 * v < range * x + range
  }

  lemma PureChannel(v: byte, range: nat)
    requires range == 255 || range == 127
    requires v <= range
    ensures var x := 1023.0 * v as real / range as real; x >= 0.0 && x <= 1023.0 && IsScaled(Stored(x), v, range)
  {
    var x := 1023.0 * v as real / range as real;
    assert range as real * x == (1023 * v) as real;
    ScaledFloor(x, v, range);
  }

  lemma ScaledFloor(x: real, v: byte, range: nat)
    requires x >= 0.0 && (range == 255 || range == 127) && range as real * x == (1023 * v) as real
    ensures IsScaled(Stored(x), v, range)
  {
    var f := x.Floor;
    assert f as real <= x < f as real + 1.0;
    if range == 255 {
      assert (255 * f) as real <= (1023 * v) as real < (255 * f + 255) as real;
    } else {
      assert (127 * f) as real <= (1023 * v) as real < (127 * f + 127) as real;
    }
  }

  /** A colour message with one channel sets that channel of its colour, in proportion, and no other
      colour: messages 2, 3 and 4 stand for the three colours, and their bytes for red, green, blue. */
  lemma PureColours(s: State, i: nat, v: byte)
    requires Shaped(s) && i < 3
    ensures var t := Next(s, HostMessage(2 + i, v, 0, 0));
      && t == s.(colours := s.colours[i := t.colours[i]])
      && t.colours[i] == Rgb(t.colours[i].red, 0, 0) && IsScaled(t.colours[i].red, v, 255)
    ensures var t := Next(s, HostMessage(2 + i, 0, v, 0));
      && t == s.(colours := s.colours[i := t.colours[i]])
      && t.colours[i] == Rgb(0, t.colours[i].green, 0) && IsScaled(t.colours[i].green, v, 255)
    ensures var t := Next(s, HostMessage(2 + i, 0, 0, v));
      && t == s.(colours := s.colours[i := t.colours[i]])
      && t.colours[i] == Rgb(0, 0, t.colours[i].blue) && IsScaled(t.colours[i].blue, v, 255)
  {
    PureChannel(v, 255);
    ZeroChannel(255);
  }

  lemma ZeroChannel(range: nat)
    requires range > 0
    ensures 1023.0 * (0 as byte) as real / range as real == 0.0
  {
  }

  /** Controllers 20 to 23 on channel 16: static mode off or on, and the three channels of the static
      colour, in proportion when the others are dark. */
  lemma Controllers(s: State, v: byte)
    requires Shaped(s) && v <= 127
    ensures Next(s, MidiIn(CC_CHANNEL_16, 20, v)) == s.(mode := if v == 0 then 0 else 1)
    ensures var t := Next(s, MidiIn(CC_CHANNEL_16, 21, v));
      && t == s.(still := t.still)
      && (s.still == Rgb(0, 0, 0) ==> t.still == Rgb(t.still.red, 0, 0) && IsScaled(t.still.red, v, 127))
    ensures var t := Next(s, MidiIn(CC_CHANNEL_16, 22, v));
      && t == s.(still := t.still)
      && (s.still == Rgb(0, 0, 0) ==> t.still == Rgb(0, t.still.green, 0) && IsScaled(t.still.green, v, 127))
    ensures var t := Next(s, MidiIn(CC_CHANNEL_16, 23, v));
      && t == s.(still := t.still)
      && (s.still == Rgb(0, 0, 0) ==> t.still == Rgb(0, 0, t.still.blue) && IsScaled(t.still.blue, v, 127))
  {
    PureChannel(v, 127);
  }

  // ----- how messages and colours are laid out -----

  /** A report with these messages: the report number, how many there are, and four bytes each. */
  function ReportOf(es: seq<Event>): seq<byte>
    requires |es| <= 255 && forall e <- es :: e.HostMessage?
  {
    [1, |es|] + Body(es)
  }

  function Body(es: seq<Event>): (bytes: seq<byte>)
    requires forall e <- es :: e.HostMessage?
    ensures |bytes| == 4 * |es|
  {
    if es == [] then []
    else
      var e := es[|es| - 1];
      Body(es[..|es| - 1]) + [e.kind, e.a, e.b, e.c]
  }

  lemma {:induction false} BodyAt(es: seq<Event>, i: nat)
    requires i < |es| && forall e <- es :: e.HostMessage?
    ensures var bytes := Body(es);
      es[i] == HostMessage(bytes[4 * i], bytes[4 * i + 1], bytes[4 * i + 2], bytes[4 * i + 3])
  {
    var front, e := es[..|es| - 1], es[|es| - 1];
    assert e in es;
    assert Body(es) == Body(front) + [e.kind, e.a, e.b, e.c];
    if i < |es| - 1 {
      BodyAt(front, i);
      SamePrefix(Body(front), Body(es), 4 * i);
    } else {
      assert Body(es)[4 * i..] == [e.kind, e.a, e.b, e.c];
    }
  }

  lemma SamePrefix(xs: seq<byte>, ys: seq<byte>, i: nat)
    requires i + 4 <= |xs| <= |ys| && ys[..|xs|] == xs
    ensures xs[i] == ys[i] && xs[i + 1] == ys[i + 1] && xs[i + 2] == ys[i + 2] && xs[i + 3] == ys[i + 3]
  {
  }

  /** The bytes of the messages are in memory from byte 2 on. */
  ghost predicate HoldsBody(es: seq<Event>, mem: nat -> byte)
    requires forall e <- es :: e.HostMessage?
  {
    forall i: nat | i < |Body(es)| :: mem(2 + i) == Body(es)[i]
  }

  lemma {:induction false} BodyRead(es: seq<Event>, mem: nat -> byte, n: nat)
    requires n <= |es| && (forall e <- es :: e.HostMessage?) && HoldsBody(es, mem)
    ensures Messages(mem, n) == es[..n]
  {
    if n > 0 {
      BodyRead(es, mem, n - 1);
      BodyAt(es, n - 1);
      assert mem(2 + 4 * (n - 1)) == Body(es)[4 * (n - 1)];
      assert mem(2 + (4 * (n - 1) + 1)) == Body(es)[4 * (n - 1) + 1];
      assert mem(2 + (4 * (n - 1) + 2)) == Body(es)[4 * (n - 1) + 2];
      assert mem(2 + (4 * (n - 1) + 3)) == Body(es)[4 * (n - 1) + 3];
      assert es[..n] == es[..n - 1] + [es[n - 1]];
    }
  }

  lemma BodyInMemory(es: seq<Event>, beyond: nat -> byte)
    requires |es| <= 255 && forall e <- es :: e.HostMessage?
    ensures var mem := Memory(ReportOf(es), beyond); HoldsBody(es, mem) && mem(0) == 1 && mem(1) == |es|
  {
    var report, body := ReportOf(es), Body(es);
    forall i: nat | i < |body| ensures Memory(report, beyond)(2 + i) == body[i] {
      assert ([1, |es|] + body)[2 + i] == body[i];
    }
  }

  /** Messages written into a report are the messages that the loop reads from it. */
  lemma ReportRoundTrip(es: seq<Event>, beyond: nat -> byte)
    requires |es| <= 255 && forall e <- es :: e.HostMessage?
    ensures var mem := Memory(ReportOf(es), beyond);
      mem(0) == 1 && mem(1) == |es| && Messages(mem, |es|) == es
  {
    BodyInMemory(es, beyond);
    ReadsAll(es, Memory(ReportOf(es), beyond));
  }

  lemma ReadsAll(es: seq<Event>, mem: nat -> byte)
    requires (forall e <- es :: e.HostMessage?) && HoldsBody(es, mem)
    ensures Messages(mem, |es|) == es
  {
    BodyRead(es, mem, |es|);
    assert es[..|es|] == es;
  }

  /** Bits 30 and 31 of a packet are the mode, 20 to 29 blue, 10 to 19 red and 0 to 9 green. */
  lemma PacketLayout(mode: nat, c: Rgb)
    requires mode < 4 && c.red < 1024 && c.green < 1024 && c.blue < 1024
    ensures Packed(mode, c) == mode * 0x4000_0000 + c.blue * 0x10_0000 + c.red * 0x400 + c.green
  {
  }
}
