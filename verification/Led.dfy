/** The LED: colours scaled to the current budget of 1023, blended by pressure and faded to a clock
    that either the host application or a MIDI clock may own. Real arithmetic, with C's
    truncation wherever a value is stored. */
module Led {
  import opened Bytes

  const LED_MAX := 1023

  datatype Rgb = Rgb(red: nat, green: nat, blue: nat)

  function Total(c: Rgb): nat {
    c.red + c.green + c.blue
  }

  predicate InBudget(c: Rgb) {
    Total(c) <= LED_MAX
  }

  /** Conversion of a real to an integer in C. */
  function Truncate(x: real): int {
    if x >= 0.0 then x.Floor else -((-x).Floor)
  }

  // ----- scaling to the budget -----

  /** One channel after the excess over the budget has been shared out in proportion. */
  function Share(x: real, sum: real): real {
    if sum > 1023.0 then x - Truncate(sum - 1023.0) as real * (x / sum) else x
  }

  function Stored(x: real): nat {
    if x >= 0.0 then Truncate(x) else 0
  }

  function Fitted(r: real, g: real, b: real): Rgb {
    var sum := r + g + b;
    Rgb(Stored(Share(r, sum)), Stored(Share(g, sum)), Stored(Share(b, sum)))
  }

  /** Every channel is cut by the same factor, so it keeps its part of the whole. */
  lemma ShareIsProportional(x: real, sum: real)
    requires 0.0 <= x <= sum && sum > 1023.0
    ensures var left := sum - Truncate(sum - 1023.0) as real;
      && 1023.0 <= left < 1024.0
      && Share(x, sum) == x * (left / sum)
      && 0.0 <= left / sum <= 1.0
  {
    var e := Truncate(sum - 1023.0) as real;
    assert x - e * (x / sum) == x * ((sum - e) / sum) by {
      assert x == x / sum * sum;
      assert e * (x / sum) == x / sum * e;
      assert x * ((sum - e) / sum) == x / sum * (sum - e);
    }
  }

  lemma Product(x: real, y: real)
    requires x >= 0.0 && y >= 0.0
    ensures x * y >= 0.0
  {
  }

  lemma Distribute(x: real, y: real, z: real, f: real)
    ensures (x + y + z) * f == x * f + y * f + z * f
  {
  }

  /** Three parts that add up to x: their integer parts are within three of it from below. */
  lemma FloorsAddUp(x: real, y: real, z: real, top: int)
    requires x >= 0.0 && y >= 0.0 && z >= 0.0
    ensures x + y + z < top as real ==> Stored(x) + Stored(y) + Stored(z) < top
    ensures x + y + z >= top as real ==> Stored(x) + Stored(y) + Stored(z) > top - 3
  {
  }

  lemma SharesAddUp(r: real, g: real, b: real, sum: real)
    requires r >= 0.0 && g >= 0.0 && b >= 0.0 && sum == r + g + b > 1023.0
    ensures var (x, y, z) := (Share(r, sum), Share(g, sum), Share(b, sum));
      x >= 0.0 && y >= 0.0 && z >= 0.0 && 1023.0 <= x + y + z < 1024.0
  {
    ShareIsProportional(r, sum);
    ShareIsProportional(g, sum);
    ShareIsProportional(b, sum);
    var left := sum - Truncate(sum - 1023.0) as real;
    var f := left / sum;
    Product(r, f);
    Product(g, f);
    Product(b, f);
    Distribute(r, g, b, f);
    assert sum * f == left;
  }

  /** Whatever the channels were, the stored triple is within the budget, and when it had to be cut
      it uses all of it but at most two. */
  lemma FittedInBudget(r: real, g: real, b: real)
    requires r >= 0.0 && g >= 0.0 && b >= 0.0
    ensures InBudget(Fitted(r, g, b))
    ensures r + g + b > 1023.0 ==> Total(Fitted(r, g, b)) >= LED_MAX - 2
  {
    var sum := r + g + b;
    if sum > 1023.0 {
      SharesAddUp(r, g, b, sum);
    }
    FloorsAddUp(Share(r, sum), Share(g, sum), Share(b, sum), 1024);
    FloorsAddUp(Share(r, sum), Share(g, sum), Share(b, sum), 1023);
  }

  /** A channel that was no larger than another stays so. */
  lemma FittedKeepsOrder(x: real, y: real, sum: real)
    requires 0.0 <= x <= y <= sum
    ensures Stored(Share(x, sum)) <= Stored(Share(y, sum))
  {
    if sum > 1023.0 {
      ShareIsProportional(x, sum);
      ShareIsProportional(y, sum);
      var f := (sum - Truncate(sum - 1023.0) as real) / sum;
      Product(x, f);
      Product(y, f);
      Product(y - x, f);
      assert (y - x) * f == y * f - x * f;
    }
  }

  // ----- blending and fading -----

  /** From one value to another as t goes from 0 to 1023. */
  function Blend(a: nat, b: nat, t: nat): real {
    a as real - t as real * ((a as real - b as real) / 1023.0)
  }

  function Blended(x: Rgb, y: Rgb, t: nat): Rgb {
    Rgb(Stored(Blend(x.red, y.red, t)), Stored(Blend(x.green, y.green, t)), Stored(Blend(x.blue, y.blue, t)))
  }

  /** A weighted mean of two values is no larger than both. */
  lemma Mean(p: real, q: real, w: real, top: real)
    requires 0.0 <= w <= 1.0 && 0.0 <= p <= top && 0.0 <= q <= top
    ensures 0.0 <= p - w * (p - q) <= top
  {
    Product(top - p, 1.0 - w);
    Product(top - q, w);
    Product(p, 1.0 - w);
    Product(q, w);
    assert (top - p) * (1.0 - w) + (top - q) * w == top - (p - w * (p - q));
    assert p * (1.0 - w) + q * w == p - w * (p - q);
  }

  lemma BlendIsMean(a: nat, b: nat, t: nat)
    ensures Blend(a, b, t) == a as real - t as real / 1023.0 * (a as real - b as real)
  {
    var d := a as real - b as real;
    assert t as real * (d / 1023.0) == t as real / 1023.0 * d;
  }

  lemma BlendedInBudget(x: Rgb, y: Rgb, t: nat)
    requires t <= LED_MAX && InBudget(x) && InBudget(y)
    ensures InBudget(Blended(x, y, t))
  {
    var w := t as real / 1023.0;
    BlendIsMean(x.red, y.red, t);
    BlendIsMean(x.green, y.green, t);
    BlendIsMean(x.blue, y.blue, t);
    Mean(x.red as real, y.red as real, w, 1023.0);
    Mean(x.green as real, y.green as real, w, 1023.0);
    Mean(x.blue as real, y.blue as real, w, 1023.0);
    Mean(Total(x) as real, Total(y) as real, w, 1023.0);
    Distribute(x.red as real - y.red as real, x.green as real - y.green as real, x.blue as real - y.blue as real, w);
    FloorsAddUp(Blend(x.red, y.red, t), Blend(x.green, y.green, t), Blend(x.blue, y.blue, t), 1024);
  }

  /** One channel at a brightness in percent. */
  function FadedChannel(v: nat, step: int): nat {
    Stored(v as real * (step as real / 100.0))
  }

  /** The brightness step in percent; at or below zero the LED is off. */
  function Faded(c: Rgb, step: int): Rgb {
    if step > 0 then Rgb(FadedChannel(c.red, step), FadedChannel(c.green, step), FadedChannel(c.blue, step))
    else Rgb(0, 0, 0)
  }

  lemma FadedChannelBound(v: nat, step: int)
    requires 0 < step <= 100
    ensures FadedChannel(v, step) <= v
  {
    var f := step as real / 100.0;
    Product(v as real, 1.0 - f);
    assert v as real * (1.0 - f) == v as real - v as real * f;
  }

  lemma FadedInBudget(c: Rgb, step: int)
    requires InBudget(c) && step <= 100
    ensures InBudget(Faded(c, step))
  {
    if step > 0 {
      FadedChannelBound(c.red, step);
      FadedChannelBound(c.green, step);
      FadedChannelBound(c.blue, step);
    }
  }

  /** A step above 100 breaks the budget of full red, so the bound is exact. */
  lemma BrightStepOverBudget(step: int)
    requires step > 100
    ensures InBudget(Rgb(LED_MAX, 0, 0)) && !InBudget(Faded(Rgb(LED_MAX, 0, 0), step))
  {
    var f := step as real / 100.0;
    var v := LED_MAX as real;
    Product(v, f - 1.01);
    assert v * (f - 1.01) == v * f - v * 1.01;
    assert v * 1.01 >= 1024.0;
    assert FadedChannel(LED_MAX, step) >= 1024;
  }

  // ----- the packet -----

  /** The 32-bit packet: mode, blue, red and green, ten bits each below the mode. */
  function Packed(mode: nat, c: Rgb): nat {
    ((mode % 4 * 1024 + c.blue % 1024) * 1024 + c.red % 1024) * 1024 + c.green % 1024
  }

  function Unpacked(packet: nat): (nat, Rgb) {
    var upper := packet / 1024 / 1024;
    (upper / 1024, Rgb(packet / 1024 % 1024, packet % 1024, upper % 1024))
  }

  /** A packet carries a colour in full exactly if no channel needs more than ten bits. */
  lemma PacketExactIff(mode: nat, c: Rgb)
    requires mode < 4
    ensures Unpacked(Packed(mode, c)) == (mode, c) <==> c.red < 1024 && c.green < 1024 && c.blue < 1024
  {
    var d := Rgb(c.red % 1024, c.green % 1024, c.blue % 1024);
    assert Packed(mode, c) == Packed(mode, d);
    MaskedUnpacks(mode, d);
  }

  lemma MaskedUnpacks(mode: nat, c: Rgb)
    requires mode < 4 && c.red < 1024 && c.green < 1024 && c.blue < 1024
    ensures Packed(mode, c) < 0x1_0000_0000
    ensures Unpacked(Packed(mode, c)) == (mode, c)
  {
    var upper := mode * 1024 + c.blue;
    var middle := upper * 1024 + c.red;
    var p := middle * 1024 + c.green;
    assert p == Packed(mode, c);
    assert p / 1024 == middle && middle / 1024 == upper && upper / 1024 == mode;
  }

  /** The ten-bit masks lose nothing of a colour within the budget. */
  lemma PacketRoundTrip(mode: nat, c: Rgb)
    requires mode < 4 && InBudget(c)
    ensures Packed(mode, c) < 0x1_0000_0000
    ensures Unpacked(Packed(mode, c)) == (mode, c)
  {
    MaskedUnpacks(mode, c);
  }
}
