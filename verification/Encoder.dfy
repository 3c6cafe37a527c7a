/** The rotary encoders: a history of pin states per dial, and the turns it counts. */
module Encoder {
  import opened Bytes
  import opened HidReport

  /** The two pins of an encoder as one number. */
  type Pins = x: int | 0 <= x < 4

  // ----- one sample -----

  function Push(history: byte, pins: Pins): byte {
    (history as nat * 4 + pins) % 256
  }

  /** The change of the dial when the history has just become this: its last three states are
      11, 10, 00 for a clockwise tick and 11, 01, 00 for the other direction. */
  function TickOf(history: byte): int {
    if history % 64 == 0x34 then -1 else if history % 64 == 0x38 then 1 else 0
  }

  function Sampled(history: byte, pins: Pins): byte {
    if pins != history % 4 then Push(history, pins) else history
  }

  function TickAt(history: byte, pins: Pins): int {
    if pins != history % 4 then TickOf(Push(history, pins)) else 0
  }

  class Encoders {
    const dialState: array<byte>

    constructor ()
      ensures dialState.Length == 2 && dialState[0] == dialState[1] == 0 && fresh(dialState)
    {
      dialState := new byte[2](_ => 0);
    }

    /** Encoder_Read; the flag beingTurned changes only with the pins. */
    method Read(number: nat, pins: Pins, hid: HidBuffer, beingTurned: bool) returns (turned: bool)
      requires dialState.Length == 2 && number < 2 && hid.Ok() && hid.buffer != dialState
      modifies dialState, hid.buffer
      ensures var h := old(dialState[number]);
        && dialState[..] == old(dialState[..])[number := Sampled(h, pins)]
        && hid.View() == (if TickAt(h, pins) == 0 then old(hid.View())
                          else Next(old(hid.View()), Dial(number, TickAt(h, pins))))
        && turned == (if pins == h % 4 then beingTurned else TickAt(h, pins) != 0)
    {
      turned := beingTurned;
      if pins != dialState[number] % 4 {
        dialState[number] := (dialState[number] as nat * 4 + pins) % 256;
        if dialState[number] % 64 == 0x34 {
          hid.AdjustDial(number, -1);
          turned := true;
        } else if dialState[number] % 64 == 0x38 {
          hid.AdjustDial(number, 1);
          turned := true;
        } else {
          turned := false;
        }
      }
    }
  }

  // ----- whole pin streams -----

  function HistoryAfter(stream: seq<Pins>): byte {
    if stream == [] then 0 else Sampled(HistoryAfter(stream[..|stream| - 1]), stream[|stream| - 1])
  }

  /** The ticks of a stream in order. */
  function TickList(stream: seq<Pins>): seq<int> {
    if stream == [] then []
    else
      var front := stream[..|stream| - 1];
      var tick := TickAt(HistoryAfter(front), stream[|stream| - 1]);
      if tick == 0 then TickList(front) else TickList(front) + [tick]
  }

  function Sum(xs: seq<int>): int {
    if xs == [] then 0 else Sum(xs[..|xs| - 1]) + xs[|xs| - 1]
  }

  /** The states the pins go through, from 00 at power-up, without repetitions. */
  function Collapsed(stream: seq<Pins>): (c: seq<Pins>)
    ensures c != []
  {
    if stream == [] then [0]
    else
      var c := Collapsed(stream[..|stream| - 1]);
      if c[|c| - 1] == stream[|stream| - 1] then c else c + [stream[|stream| - 1]]
  }

  /** Clockwise passages 11, 10, 00 less passages 11, 01, 00 the other way. */
  function Passages(c: seq<Pins>): int {
    if |c| < 3 then 0
    else
      var n := |c|;
      Passages(c[..n - 1])
      + (if c[n - 3] == 3 && c[n - 2] == 2 && c[n - 1] == 0 then 1
         else if c[n - 3] == 3 && c[n - 2] == 1 && c[n - 1] == 0 then -1 else 0)
  }

  /** The history holds the last three states passed through, zeros standing in for the first. */
  predicate Remembers(history: byte, c: seq<Pins>) {
    var n := |c|;
    && n > 0 && history % 4 == c[n - 1]
    && history / 4 % 4 == (if n > 1 then c[n - 2] else 0)
    && history / 4 / 4 % 4 == (if n > 2 then c[n - 3] else 0)
  }

  lemma Digits(b: nat, c: nat, d: nat, e: nat)
    requires b < 4 && c < 4 && d < 4 && e < 4
    ensures var h := 64 * b + 16 * c + 4 * d + e;
      h % 4 == e && h / 4 % 4 == d && h / 4 / 4 % 4 == c && h % 64 == 16 * c + 4 * d + e
  {
    var h := 64 * b + 16 * c + 4 * d + e;
    assert h / 4 == 16 * b + 4 * c + d;
    assert h / 4 / 4 == 4 * b + c;
  }

  lemma PushOfDigits(a: nat, b: nat, c: nat, d: nat, pins: Pins)
    requires a < 4 && b < 4 && c < 4 && d < 4
    ensures Push(64 * a + 16 * b + 4 * c + d, pins) == 64 * b + 16 * c + 4 * d + pins
  {
    var r := 64 * b + 16 * c + 4 * d + pins;
    assert (64 * a + 16 * b + 4 * c + d) * 4 + pins == 256 * a + r;
  }

  lemma DigitsOf(h: byte) returns (a: nat, b: nat, c: nat, d: nat)
    ensures a < 4 && b < 4 && c < 4 && d < 4 && h == 64 * a + 16 * b + 4 * c + d
  {
    var q := h / 4;
    d := h - 4 * q;
    var r := q / 4;
    c := q - 4 * r;
    a := r / 4;
    b := r - 4 * a;
  }

  lemma PushDigits(history: byte, pins: Pins)
    ensures var h := Push(history, pins);
      && h % 4 == pins && h / 4 % 4 == history % 4 && h / 4 / 4 % 4 == history / 4 % 4
      && h % 64 == 16 * (history / 4 % 4) + 4 * (history % 4) + pins
  {
    var a, b, c, d := DigitsOf(history);
    Digits(a, b, c, d);
    PushOfDigits(a, b, c, d, pins);
    Digits(b, c, d, pins);
  }

  /** What appending one state to those passed through adds to the count. */
  function LastPassage(c: seq<Pins>, pins: Pins): int {
    var n := |c|;
    if n < 2 || c[n - 2] != 3 || pins != 0 then 0
    else if c[n - 1] == 2 then 1
    else if c[n - 1] == 1 then -1
    else 0
  }

  lemma PassagesOneMore(c: seq<Pins>, pins: Pins)
    ensures Passages(c + [pins]) == Passages(c) + LastPassage(c, pins)
  {
    assert (c + [pins])[..|c|] == c;
  }

  lemma PushRemembers(history: byte, c: seq<Pins>, pins: Pins)
    requires Remembers(history, c) && c[0] == 0
    ensures Remembers(Push(history, pins), c + [pins])
    ensures Passages(c + [pins]) == Passages(c) + TickOf(Push(history, pins))
  {
    PushDigits(history, pins);
    PassagesOneMore(c, pins);
  }

  /** Whatever the pins do, bouncing included, the dial moves by the number of passages. */
  lemma {:induction false} TicksArePassages(stream: seq<Pins>)
    ensures Remembers(HistoryAfter(stream), Collapsed(stream)) && Collapsed(stream)[0] == 0
    ensures Sum(TickList(stream)) == Passages(Collapsed(stream))
  {
    if stream != [] {
      var front, pins := stream[..|stream| - 1], stream[|stream| - 1];
      TicksArePassages(front);
      PushRemembers(HistoryAfter(front), Collapsed(front), pins);
      var ticks, tick := TickList(front), TickAt(HistoryAfter(front), pins);
      assert (ticks + [tick])[..|ticks|] == ticks;
    }
  }

  // ----- complete turns -----

  /** From rest at 11 through complete cycles, clockwise for true. */
  function Turns(cycles: seq<bool>): seq<Pins> {
    if cycles == [] then [3]
    else Turns(cycles[..|cycles| - 1]) + (if cycles[|cycles| - 1] then [2, 0, 1, 3] else [1, 0, 2, 3])
  }

  function Net(cycles: seq<bool>): int {
    if cycles == [] then 0 else Net(cycles[..|cycles| - 1]) + (if cycles[|cycles| - 1] then 1 else -1)
  }

  predicate EndsIn(c: seq<Pins>, x: Pins, y: Pins) {
    |c| >= 2 && c[|c| - 2] == x && c[|c| - 1] == y
  }

  /** One more sample of a stream whose last two states are known. */
  lemma OneMore(stream: seq<Pins>, x: Pins, y: Pins, pins: Pins)
    requires EndsIn(Collapsed(stream), x, y) && pins != y
    ensures EndsIn(Collapsed(stream + [pins]), y, pins)
    ensures Passages(Collapsed(stream + [pins])) ==
              Passages(Collapsed(stream))
              + (if x == 3 && pins == 0 then (if y == 2 then 1 else if y == 1 then -1 else 0) else 0)
  {
    assert (stream + [pins])[..|stream|] == stream;
    PassagesOneMore(Collapsed(stream), pins);
  }

  /** From 11 to 00 by way of w. */
  lemma FirstHalf(stream: seq<Pins>, x: Pins, w: Pins)
    requires EndsIn(Collapsed(stream), x, 3) && (w == 1 || w == 2)
    ensures EndsIn(Collapsed(stream + [w] + [0]), w, 0)
    ensures Passages(Collapsed(stream + [w] + [0])) == Passages(Collapsed(stream)) + (if w == 2 then 1 else -1)
  {
    OneMore(stream, x, 3, w);
    OneMore(stream + [w], 3, w, 0);
  }

  /** And back to 11 by way of y. */
  lemma SecondHalf(stream: seq<Pins>, w: Pins, y: Pins)
    requires EndsIn(Collapsed(stream), w, 0) && w != 3 && (y == 1 || y == 2)
    ensures EndsIn(Collapsed(stream + [y] + [3]), y, 3)
    ensures Passages(Collapsed(stream + [y] + [3])) == Passages(Collapsed(stream))
  {
    OneMore(stream, w, 0, y);
    OneMore(stream + [y], 0, y, 3);
  }

  lemma OneCycle(stream: seq<Pins>, x: Pins, w: Pins, y: Pins)
    requires EndsIn(Collapsed(stream), x, 3) && x != 3 && ((w == 2 && y == 1) || (w == 1 && y == 2))
    ensures var after := Collapsed(stream + [w, 0, y, 3]);
      EndsIn(after, y, 3) && Passages(after) == Passages(Collapsed(stream)) + (if w == 2 then 1 else -1)
  {
    FirstHalf(stream, x, w);
    SecondHalf(stream + [w] + [0], w, y);
    assert stream + [w] + [0] + [y] + [3] == stream + [w, 0, y, 3];
  }

  lemma {:induction false} TurnsCounted(cycles: seq<bool>) returns (x: Pins)
    ensures x != 3 && EndsIn(Collapsed(Turns(cycles)), x, 3)
    ensures Passages(Collapsed(Turns(cycles))) == Net(cycles)
  {
    if cycles == [] {
      assert Turns([])[..0] == [];
      assert Collapsed([3]) == [0, 3];
      x := 0;
    } else {
      var front, clockwise := cycles[..|cycles| - 1], cycles[|cycles| - 1];
      var before := TurnsCounted(front);
      x := if clockwise then 1 else 2;
      OneCycle(Turns(front), before, if clockwise then 2 else 1, x);
    }
  }

  /** However often each state is sampled, complete cycles count one each way. */
  lemma CyclesCounted(stream: seq<Pins>, cycles: seq<bool>)
    requires Collapsed(stream) == Collapsed(Turns(cycles))
    ensures Sum(TickList(stream)) == Net(cycles)
  {
    TicksArePassages(stream);
    var x := TurnsCounted(cycles);
  }

  // ----- from the pins to the host -----

  /** The adjustments of dial d in a run of the report buffer. */
  function Amounts(es: seq<Event>, d: nat): seq<int> {
    if es == [] then []
    else
      var e := es[|es| - 1];
      if e.Dial? && e.d == d then Amounts(es[..|es| - 1], d) + [e.amount] else Amounts(es[..|es| - 1], d)
  }

  lemma {:induction false} TurnedIsSum(es: seq<Event>, d: nat)
    ensures Turned(es, d) == Sum(Amounts(es, d))
  {
    if es != [] {
      var front, e := es[..|es| - 1], es[|es| - 1];
      TurnedIsSum(front, d);
      if e.Dial? && e.d == d {
        var xs := Amounts(front, d);
        assert (xs + [e.amount])[..|xs|] == xs;
      }
    }
  }

  /** All that the report buffer is told to turn is the clockwise cycles less the others. */
  lemma CyclesTurned(stream: seq<Pins>, cycles: seq<bool>, es: seq<Event>, d: nat)
    requires Collapsed(stream) == Collapsed(Turns(cycles)) && Amounts(es, d) == TickList(stream)
    ensures Turned(es, d) == Net(cycles)
  {
    CyclesCounted(stream, cycles);
    TurnedIsSum(es, d);
  }

  lemma HostAgrees(es: seq<Event>, d: nat, n: int)
    requires AllValid(es) && d < 2 && Turned(es, d) == n
    ensures forall p <- SecondHalves(es) :: |p| == 64
    ensures (HostTotal(SecondHalves(es), d) + TurnedSince(es, d) - n) % 256 == 0
    ensures KeptUp(es, d) && -128 <= TurnedSince(es, d) <= 127 ==> HostShows(es, d) == n
  {
    DialConservation(es, d);
  }

  lemma CyclesAgree(stream: seq<Pins>, cycles: seq<bool>, es: seq<Event>, d: nat)
    requires AllValid(es) && d < 2 && Amounts(es, d) == TickList(stream)
    requires Collapsed(stream) == Collapsed(Turns(cycles))
    ensures forall p <- SecondHalves(es) :: |p| == 64
    ensures (HostTotal(SecondHalves(es), d) + TurnedSince(es, d) - Net(cycles)) % 256 == 0
    ensures KeptUp(es, d) && -128 <= TurnedSince(es, d) <= 127 ==> HostShows(es, d) == Net(cycles)
  {
    CyclesTurned(stream, cycles, es, d);
    HostAgrees(es, d, Net(cycles));
  }

  /** End to end: an encoder turned by complete cycles, sampled as often as you like, its ticks
      mixed with everything else that goes into the report: what the host has added up, and the
      byte that waits, are the clockwise cycles less the others; modulo 256 always, and exactly if
      the host keeps up. It is exact at every point on the way if and only if it always keeps up. */
  lemma DialEndToEnd(stream: seq<Pins>, cycles: seq<bool>, es: seq<Event>, d: nat)
    requires AllValid(es) && d < 2 && Amounts(es, d) == TickList(stream)
    ensures forall p <- SecondHalves(es) :: |p| == 64
    ensures Collapsed(stream) == Collapsed(Turns(cycles)) ==>
      && (HostTotal(SecondHalves(es), d) + TurnedSince(es, d) - Net(cycles)) % 256 == 0
      && (KeptUp(es, d) && -128 <= TurnedSince(es, d) <= 127 ==> HostShows(es, d) == Net(cycles))
    ensures AlwaysExact(es, d) <==> AlwaysFits(es, d)
  {
    SecondHalvesSize(es);
    DialExactIff(es, d);
    if Collapsed(stream) == Collapsed(Turns(cycles)) {
      CyclesAgree(stream, cycles, es, d);
    }
  }
}
