/** The code behind the LED: the stored colours, the messages that change them, the LED phase of the
    main loop, and the 32 bits per packet that reach the LED's shift register. */
module LedDriver {
  import opened Bytes
  import opened Led
  import opened LedControl

  const CURRENT := Rgb(127, 127, 127)

  // ----- the wire -----

  /** p >> k. */
  function Shift(p: nat, k: nat): nat {
    if k == 0 then p else Shift(p, k - 1) / 2
  }

  /** The low n bits of p, the highest first. */
  function Bits(p: nat, n: nat): (bits: seq<bool>)
    ensures |bits| == n
  {
    if n == 0 then [] else Bits(p / 2, n - 1) + [p % 2 == 1]
  }

  lemma OneMoreBit(p: nat, k: nat, j: nat)
    ensures Bits(Shift(p, k), j + 1) == Bits(Shift(p, k + 1), j) + [Shift(p, k) % 2 == 1]
  {
  }

  /** What a shift register makes of the bits it has seen. */
  function Received(bits: seq<bool>): nat {
    if bits == [] then 0 else 2 * Received(bits[..|bits| - 1]) + if bits[|bits| - 1] then 1 else 0
  }

  function Span(n: nat): nat {
    if n == 0 then 1 else 2 * Span(n - 1)
  }

  lemma {:induction false} BitsArrive(p: nat, n: nat)
    requires p < Span(n)
    ensures Received(Bits(p, n)) == p
  {
    if n > 0 {
      BitsArrive(p / 2, n - 1);
      assert Bits(p, n)[..n - 1] == Bits(p / 2, n - 1);
    }
  }

  lemma SpanOfPacket()
    ensures Span(32) == 0x1_0000_0000
  {
    assert Span(8) == 256;
    assert Span(16) == 65536;
    assert Span(24) == 0x100_0000;
  }

  /** The 32 bits of any packet arrive. */
  lemma BitsOfPacket(mode: nat, c: Rgb)
    requires mode < 4
    ensures Received(Bits(Packed(mode, c), 32)) == Packed(mode, c)
  {
    var d := Rgb(c.red % 1024, c.green % 1024, c.blue % 1024);
    assert Packed(mode, c) == Packed(mode, d);
    MaskedUnpacks(mode, d);
    SpanOfPacket();
    BitsArrive(Packed(mode, c), 32);
  }

  /** Mode and colour of a packet reach the LED as they were given, if the colour is within the
      budget. */
  lemma PacketArrives(mode: nat, c: Rgb)
    requires mode < 4 && InBudget(c)
    ensures Unpacked(Received(Bits(Packed(mode, c), 32))) == (mode, c)
  {
    PacketRoundTrip(mode, c);
    BitsOfPacket(mode, c);
  }

  /** What each of the two latch pulses of a colour finds in the register: brightness, then current. */
  function Frames(c: Rgb): seq<seq<bool>> {
    [Bits(Packed(0, c), 32), Bits(Packed(1, CURRENT), 32)]
  }

  function Emitted(out: Output, unassigned: Rgb): seq<seq<bool>> {
    match out
    case Nothing => []
    case Colour(c) => Frames(c)
    case Garbage => Frames(unassigned)
  }

  // ----- reports from the host -----

  /** The report buffer as the loop reads it; more messages than it has room for make it read on
      in the memory behind. */
  function Memory(report: seq<byte>, beyond: nat -> byte): nat -> byte {
    (i: nat) => if i < |report| then report[i] else beyond(i)
  }

  function MessageAt(mem: nat -> byte, i: nat): Event {
    HostMessage(mem(2 + 4 * i), mem(3 + 4 * i), mem(4 + 4 * i), mem(5 + 4 * i))
  }

  /** The first n messages of a report. */
  function Messages(mem: nat -> byte, n: nat): (es: seq<Event>)
    ensures |es| == n && (forall e <- es :: e.HostMessage?)
  {
    if n == 0 then [] else Messages(mem, n - 1) + [MessageAt(mem, n - 1)]
  }

  /** The MIDI messages among them, which are passed on. */
  function Forwarded(es: seq<Event>): seq<(byte, byte, byte)> {
    if es == [] then []
    else
      var e := es[|es| - 1];
      Forwarded(es[..|es| - 1]) + if e.HostMessage? && e.kind == 0 then [(e.a, e.b, e.c)] else []
  }

  /** All frames of a run that needs no unassigned channels. */
  function Trace(s: State, es: seq<Event>): seq<seq<bool>>
    requires Shaped(s)
  {
    if es == [] then []
    else Trace(s, es[..|es| - 1]) + Emitted(OutputOf(Run(s, es[..|es| - 1]), es[|es| - 1]), Rgb(0, 0, 0))
  }

  lemma Regroup<T>(a: seq<T>, b: seq<T>, c: seq<T>)
    ensures (a + b) + c == a + (b + c)
  {
  }

  lemma OneMoreMessage(s: State, mem: nat -> byte, i: nat)
    requires Shaped(s)
    ensures var (es, e, more) := (Messages(mem, i), MessageAt(mem, i), Messages(mem, i + 1));
      && Run(s, more) == Next(Run(s, es), e)
      && Trace(s, more) == Trace(s, es) + Emitted(OutputOf(Run(s, es), e), Rgb(0, 0, 0))
      && Forwarded(more) == Forwarded(es) + if e.kind == 0 then [(e.a, e.b, e.c)] else []
  {
    var more := Messages(mem, i + 1);
    assert more[..i] == Messages(mem, i) && more[i] == MessageAt(mem, i);
  }

  // ----- the driver -----

  class Driver {
    var mode: byte
    var status: byte
    var pressure: byte
    var clock: byte
    var owner: Owner
    var tempo: nat
    var fade: int
    var ticks: nat
    const colours: array<Rgb>
    var still: Rgb
    var prev: nat
    /** Bits since the last latch pulse, and what the pulses so far have latched. */
    var register: seq<bool>
    var latched: seq<seq<bool>>

    ghost predicate Ok()
      reads this
    {
      colours.Length == 3 && register == []
    }

    ghost function View(): (s: State)
      reads this, colours
    {
      State(mode, status, pressure, clock, owner, tempo, fade, ticks, colours[..], still, prev)
    }

    /** LED_Init, and the start of main. */
    constructor ()
      ensures Ok() && View() == PowerUp() && latched == [] && fresh(colours)
    {
      mode, status, pressure, clock := 0, 1, 1, 0;
      owner, tempo, fade, ticks, prev := Nobody, 120, 100, 0, 0;
      still := Rgb(0, 0, 0);
      colours := new Rgb[3](i => Rgb(0, 0, 0));
      register, latched := [], [];
      new;
      assert View() == Blank();
      SetColourValues(0, 0, 0, 255);
      SetColourValues(1, 0, 255, 0);
      SetColourValues(2, 255, 0, 0);
    }

    /** LED_SendPacket. */
    method SendPacket(command: nat, c: Rgb)
      modifies this`register
      ensures register == old(register) + Bits(Packed(command, if command == 1 then CURRENT else c), 32)
    {
      var p := Packed(command, if command == 1 then CURRENT else c);
      for j := 0 to 32
        invariant register == old(register) + Bits(Shift(p, 32 - j), j)
      {
        OneMoreBit(p, 31 - j, j);
        register := register + [Shift(p, 31 - j) % 2 == 1];
      }
    }

    method Latch()
      modifies this`register, this`latched
      ensures register == [] && latched == old(latched) + [old(register)]
    {
      latched := latched + [register];
      register := [];
    }

    /** LED_Set_Colour, for the one LED there is. */
    method SetColour(c: Rgb)
      requires Ok()
      modifies this`register, this`latched
      ensures Ok() && latched == old(latched) + Frames(c)
    {
      SendPacket(0, c);
      assert register == Bits(Packed(0, c), 32);
      Latch();
      SendPacket(1, c);
      assert register == Bits(Packed(1, CURRENT), 32);
      Latch();
    }

    /** Both colour setters: the excess over the budget is taken from the channels in proportion. */
    method Fit(r: real, g: real, b: real) returns (c: Rgb)
      requires r >= 0.0 && g >= 0.0 && b >= 0.0
      ensures c == Fitted(r, g, b)
    {
      var red, green, blue := r, g, b;
      var sum := red + green + blue;
      if sum > 1023.0 {
        var redPart, greenPart, bluePart := red / sum, green / sum, blue / sum;
        var excess := Truncate(sum - 1023.0);
        red := red - excess as real * redPart;
        green := green - excess as real * greenPart;
        blue := blue - excess as real * bluePart;
      }
      c := Rgb(Stored(red), Stored(green), Stored(blue));
    }

    method SetColourValues(colour: nat, r: byte, g: byte, b: byte)
      requires Ok() && colour < 3
      modifies colours
      ensures View() == LedControl.SetColour(old(View()), colour, r, g, b)
    {
      colours[colour] := Fit(1023.0 * r as real / 255.0, 1023.0 * g as real / 255.0, 1023.0 * b as real / 255.0);
    }

    /** LED_Set_Static_Colour; its last test assigns instead of comparing, so every other channel is
        taken for blue. */
    method SetStaticColour(channel: nat, v: byte)
      requires Ok()
      modifies this`still
      ensures View() == SetStill(old(View()), channel, v)
    {
      var red, green, blue := still.red as real, still.green as real, still.blue as real;
      var x := 1023.0 * v as real / 127.0;
      if channel == 0 {
        red := x;
      } else if channel == 1 {
        green := x;
      } else {
        blue := x;
      }
      still := Fit(red, green, blue);
    }

    // ----- messages -----

    method ProcessClockMessage(m0: byte)
      requires Ok()
      modifies this`owner, this`fade, this`ticks
      ensures View() == OnClockMessage(old(View()), m0)
    {
      if owner != HostClock {
        if m0 == 250 || m0 == 251 {
          owner := MidiClock;
          fade := 100;
          ticks := 0;
        } else if m0 == 252 {
          owner := Nobody;
        } else if m0 == 248 {
          ticks := ticks + 1;
          if ticks >= 24 {
            fade := 100;
            ticks := 0;
          }
        }
      }
    }

    /** MIDI_Process_Usb_Midi, without the copy that goes to the host. */
    method ProcessUsbMidi(m0: byte, m1: byte, m2: byte)
      requires Ok()
      modifies this`owner, this`fade, this`ticks, this`mode, this`still
      ensures View() == Next(old(View()), MidiIn(m0, m1, m2))
    {
      ProcessClockMessage(m0);
      if m0 == 191 {
        if m1 == 20 {
          mode := if m2 == 0 then 0 else 1;
        } else if m1 == 21 {
          SetStaticColour(0, m2);
        } else if m1 == 22 {
          SetStaticColour(1, m2);
        } else if m1 == 23 {
          SetStaticColour(2, m2);
        }
      }
    }

    method SetStatus(b: byte)
      requires Ok()
      modifies this`status, this`register, this`latched
      ensures Ok() && View() == old(View()).(status := b)
      ensures latched == old(latched) + Emitted(OutputOf(old(View()), HostMessage(1, 1, b, 0)), Rgb(0, 0, 0))
    {
      status := b;
      if mode == 0 {
        if b == 0 {
          SetColour(Rgb(0, 0, 0));
        } else {
          SetColour(colours[0]);
        }
      }
    }

    method SetPressureStatus(b: byte)
      requires Ok()
      modifies this`pressure, this`register, this`latched
      ensures Ok() && View() == old(View()).(pressure := b)
      ensures latched == old(latched) + Emitted(OutputOf(old(View()), HostMessage(1, 2, b, 0)), Rgb(0, 0, 0))
    {
      pressure := b;
      if mode == 0 && b == 0 && status == 1 {
        SetColour(colours[0]);
      }
    }

    method ProcessHostClock(a: byte, b: byte, c: byte)
      requires Ok()
      modifies this`owner, this`fade, this`tempo
      ensures View() == Next(old(View()), HostMessage(5, a, b, c))
    {
      if owner != MidiClock {
        if a == 0 {
          owner := Nobody;
        } else {
          owner := HostClock;
          fade := 100;
        }
        tempo := b as nat + c as nat * 256;
      }
    }

    /** One message of a report; a MIDI message is handed on instead. */
    method ProcessMessage(kind: byte, a: byte, b: byte, c: byte) returns (midi: seq<(byte, byte, byte)>)
      requires Ok()
      modifies this, colours
      ensures Ok() && View() == Next(old(View()), HostMessage(kind, a, b, c))
      ensures latched == old(latched) + Emitted(OutputOf(old(View()), HostMessage(kind, a, b, c)), Rgb(0, 0, 0))
      ensures midi == if kind == 0 then [(a, b, c)] else []
    {
      midi := [];
      if kind == 0 {
        midi := [(a, b, c)];
      } else if kind == 1 {
        if a == 1 {
          SetStatus(b);
        } else if a == 2 {
          SetPressureStatus(b);
        } else if a == 3 {
          clock := b;
        } else if a == 4 {
          mode := b;
        }
      } else if 2 <= kind <= 4 {
        SetColourValues(kind - 2, a, b, c);
      } else if kind == 5 {
        ProcessHostClock(a, b, c);
      }
    }

    /** The message at index i, after those before it. */
    method ProcessMessageAt(mem: nat -> byte, i: nat, ghost s: State, ghost before: seq<seq<bool>>)
        returns (midi: seq<(byte, byte, byte)>)
      requires Ok() && Shaped(s) && View() == Run(s, Messages(mem, i))
      requires latched == before + Trace(s, Messages(mem, i))
      modifies this, colours
      ensures Ok() && View() == Run(s, Messages(mem, i + 1))
      ensures latched == before + Trace(s, Messages(mem, i + 1))
      ensures Forwarded(Messages(mem, i + 1)) == Forwarded(Messages(mem, i)) + midi
    {
      OneMoreMessage(s, mem, i);
      var at := 4 * i + 2;
      ghost var e := MessageAt(mem, i);
      Regroup(before, Trace(s, Messages(mem, i)), Emitted(OutputOf(View(), e), Rgb(0, 0, 0)));
      midi := ProcessMessage(mem(at), mem(at + 1), mem(at + 2), mem(at + 3));
    }

    method ProcessMessages(mem: nat -> byte, n: nat) returns (midi: seq<(byte, byte, byte)>)
      requires Ok()
      modifies this, colours
      ensures Ok() && View() == Run(old(View()), Messages(mem, n))
      ensures latched == old(latched) + Trace(old(View()), Messages(mem, n)) && midi == Forwarded(Messages(mem, n))
    {
      midi := [];
      ghost var s, before := View(), latched;
      for i := 0 to n
        invariant Ok() && View() == Run(s, Messages(mem, i))
        invariant latched == before + Trace(s, Messages(mem, i))
        invariant midi == Forwarded(Messages(mem, i))
      {
        var more := ProcessMessageAt(mem, i, s, before);
        midi := midi + more;
      }
    }

    /** GenericHID_ProcessReport. beyond is what lies behind the buffer, for a message count that the
        report has no room for. */
    method ProcessReport(report: array<byte>, beyond: nat -> byte) returns (midi: seq<(byte, byte, byte)>)
      requires Ok() && report.Length >= 2
      modifies this, colours
      ensures Ok()
      ensures var mem := Memory(old(report[..]), beyond);
        var es := if mem(0) == 1 then Messages(mem, mem(1)) else [];
        && View() == Run(old(View()), es)
        && latched == old(latched) + Trace(old(View()), es)
        && midi == Forwarded(es)
    {
      var mem := Memory(report[..], beyond);
      midi := [];
      if mem(0) == 1 {
        midi := ProcessMessages(mem, mem(1));
      }
    }

    // ----- the LED phase -----

    /** The colour by pressure. unassigned is what the three channel variables happen to hold. */
    method PressureColour(ledSum: nat, unassigned: Rgb) returns (c: Rgb, sum: nat)
      requires Ok() && pressure != 0
      ensures sum == ScaledSum(ledSum)
      ensures var out := BaseColour(View(), ledSum); c == if out.Colour? then out.c else unassigned
    {
      c := unassigned;
      sum := if ledSum > 0 then 2 * ledSum % 0x1_0000 + 1 else 0;
      if sum <= LED_MAX {
        if prev > 0 {
          c := Blended(colours[0], colours[1], sum);
        } else {
          c := colours[0];
        }
      } else {
        sum := sum - 1022;
        if sum > LED_MAX {
          sum := LED_MAX;
        }
        if prev > 0 {
          c := Blended(colours[1], colours[2], sum);
        }
      }
    }

    /** The clock's part: the colour faded by the step, and the step for the next phase. */
    method ClockFade(c: Rgb) returns (d: Rgb)
      requires Ok()
      modifies this`fade
      ensures d == if Fading(old(View())) then Faded(c, old(fade)) else c
      ensures View() == old(View()).(fade := if Fading(old(View())) then NextFade(old(View())) else old(fade))
    {
      d := c;
      if clock != 0 && owner != Nobody {
        if fade > 0 {
          d := Rgb(FadedChannel(c.red, fade), FadedChannel(c.green, fade), FadedChannel(c.blue, fade));
        } else {
          d := Rgb(0, 0, 0);
        }
        if owner == HostClock {
          fade := Int8(Truncate(fade as real - tempo as real / 25.0));
        }
        if owner == MidiClock {
          fade := Int8(Truncate(100.0 - ticks as real * 4.5));
        }
      }
    }

    /** The normal mode, unless the LED is switched off. */
    method ShowPressure(ledSum: nat, unassigned: Rgb) returns (sum: nat)
      requires Ok() && mode == 0 && status != 0
      modifies this`fade, this`register, this`latched
      ensures Ok() && sum == PhaseSum(old(View()), ledSum)
      ensures View() == old(View()).(fade := if Fading(old(View())) then NextFade(old(View())) else old(fade))
      ensures latched == old(latched) +
        Emitted(PhaseOutput(old(View()), ledSum),
                if Fading(old(View())) then Faded(unassigned, old(fade)) else unassigned)
    {
      sum := ledSum;
      var c := colours[0];
      if pressure != 0 {
        c, sum := PressureColour(ledSum, unassigned);
      }
      c := ClockFade(c);
      SetColour(c);
    }

    /** The end of a scan: the LED follows the pressure sum, the clock and the mode. */
    method LedPhase(ledSum: nat, unassigned: Rgb)
      requires Ok()
      modifies this`fade, this`prev, this`register, this`latched
      ensures Ok() && View() == Next(old(View()), Phase(ledSum))
      ensures var out := OutputOf(old(View()), Phase(ledSum));
        latched == old(latched) + Emitted(out, if Fading(old(View())) then Faded(unassigned, old(fade)) else unassigned)
    {
      var sum := ledSum;
      if mode == 0 {
        if status != 0 {
          sum := ShowPressure(ledSum, unassigned);
        }
      } else if mode == 1 {
        SetColour(still);
      }
      prev := sum;
    }
  }

  predicate SameOrder(r: real, g: real, b: real, c: Rgb) {
    && (r <= g ==> c.red <= c.green) && (g <= r ==> c.green <= c.red)
    && (g <= b ==> c.green <= c.blue) && (b <= g ==> c.blue <= c.green)
    && (b <= r ==> c.blue <= c.red) && (r <= b ==> c.red <= c.blue)
  }

  /** Scaling to the budget keeps the order of all channels, so the hue survives it. */
  lemma FitOrder(r: real, g: real, b: real)
    requires r >= 0.0 && g >= 0.0 && b >= 0.0
    ensures SameOrder(r, g, b, Fitted(r, g, b))
  {
    var sum := r + g + b;
    PairOrder(r, g, sum);
    PairOrder(g, b, sum);
    PairOrder(b, r, sum);
  }

  lemma PairOrder(x: real, y: real, sum: real)
    requires 0.0 <= x <= sum && 0.0 <= y <= sum
    ensures x <= y ==> Stored(Share(x, sum)) <= Stored(Share(y, sum))
    ensures y <= x ==> Stored(Share(y, sum)) <= Stored(Share(x, sum))
  {
    if x <= y {
      FittedKeepsOrder(x, y, sum);
    }
    if y <= x {
      FittedKeepsOrder(y, x, sum);
    }
  }

  /** Over whole runs: what the latch pulses of a colour find in the register is that colour, at the
      set current; the colour arrives whole exactly if no channel exceeds ten bits, and it is within
      the budget unless a phase fades it with a step above 100. */
  lemma ColoursArrive(es: seq<Event>, e: Event)
    requires OutputOf(Run(PowerUp(), es), e).Colour?
    ensures var (s, out) := (Run(PowerUp(), es), OutputOf(Run(PowerUp(), es), e));
      && (Unpacked(Received(Emitted(out, Rgb(0, 0, 0))[0])) == (0, out.c) <==>
            out.c.red < 1024 && out.c.green < 1024 && out.c.blue < 1024)
      && Unpacked(Received(Emitted(out, Rgb(0, 0, 0))[1])) == (1, CURRENT)
      && (!(e.Phase? && Endangered(s)) ==> InBudget(out.c))
  {
    var c := OutputOf(Run(PowerUp(), es), e).c;
    SentColoursInBudget(es, e);
    BitsOfPacket(0, c);
    PacketExactIff(0, c);
    PacketArrives(1, CURRENT);
  }
}
