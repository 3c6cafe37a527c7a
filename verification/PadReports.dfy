/** What the scan writes into the input report, and what the host sees of the pads: the decoded
    report is the state of the scanner, under any interleaving with the interrupt and with
    everything else that goes into the report. */
module PadReports {
  import opened Bytes
  import opened PadScan
  import Hid = HidReport

  /** The write to the report buffer that goes with a step of the scan. */
  function Report(s: State, e: Event): Option<Hid.Event>
    requires Shaped(s) && Enabled(s, e)
  {
    match e
    case Calibrated(_) => Some(Hid.Clear)
    case Go =>
      (match s.at
       case Sampling(pad, peak, _) => Some(Hid.PadData(pad, Min(peak / 2, 127), Min(peak / 2, 127) % 256))
       case Holding(pad) => Some(Hid.Pressure(pad, s.pads[pad].filtered))
       case Releasing(pad) => Some(Hid.PadData(pad, 0, 0))
       case Touching(pad, val) => Some(Hid.PadData(pad, Smoothed(s.pads[pad].filtered, 2 * val), 127))
       case Untouching(pad) => Some(Hid.PadData(pad, 0, 0))
       case _ => None)
    case _ => None
  }

  function Reported(s: State, es: seq<Event>): (hs: seq<Hid.Event>)
    requires Shaped(s) && Possible(s, es)
    ensures Hid.AllValid(hs)
    decreases |es|
  {
    if es == [] then []
    else
      match Report(Run(s, Front(es)), Last(es))
      case Some(h) => Reported(s, Front(es)) + [h]
      case None => Reported(s, Front(es))
  }

  /** The writes to the pads in all that happens to the report buffer. */
  function PadEvents(hs: seq<Hid.Event>): seq<Hid.Event> {
    if hs == [] then []
    else
      var front, h := hs[..|hs| - 1], hs[|hs| - 1];
      if Hid.TouchesPads(h) then PadEvents(front) + [h] else PadEvents(front)
  }

  lemma {:induction false} TableOfPadEvents(hs: seq<Hid.Event>)
    requires Hid.AllValid(hs)
    ensures Hid.AllValid(PadEvents(hs)) && Hid.TableAfter(hs) == Hid.TableAfter(PadEvents(hs))
  {
    if hs != [] {
      var front, h := hs[..|hs| - 1], hs[|hs| - 1];
      TableOfPadEvents(front);
      assert (PadEvents(front) + [h])[..|PadEvents(front)|] == PadEvents(front);
    }
  }

  function Table(s: State, es: seq<Event>): (t: seq<Hid.PadValue>)
    requires Shaped(s) && Possible(s, es)
    ensures |t| == 48
  {
    Hid.TableAfter(Reported(s, es))
  }

  function TableStep(t: seq<Hid.PadValue>, h: Option<Hid.Event>): (u: seq<Hid.PadValue>)
    requires |t| == 48 && (h.Some? ==> Hid.Valid(h.value))
    ensures |u| == 48
  {
    match h
    case Some(e) => Hid.PadTable(t, e)
    case None => t
  }

  lemma TableOneMore(s: State, es: seq<Event>)
    requires Shaped(s) && Possible(s, es) && es != []
    ensures var h := Report(Run(s, Front(es)), Last(es));
      (h.Some? ==> Hid.Valid(h.value)) && Table(s, es) == TableStep(Table(s, Front(es)), h)
  {
    var h, hs := Report(Run(s, Front(es)), Last(es)), Reported(s, Front(es));
    if h.Some? {
      assert (hs + [h.value])[..|hs|] == hs;
    }
  }

  /** The velocity of the pad's last press. */
  function PressVelocity(s: State, es: seq<Event>, p: nat): int
    requires Shaped(s) && Possible(s, es)
    decreases |es|
  {
    if es == [] then 0
    else if IsPress(Run(s, Front(es)), Last(es), p) then Min(Run(s, Front(es)).at.peak / 2, 127)
    else PressVelocity(s, Front(es), p)
  }

  /** What a calibration leaves of the pressure that was shown for pad 47, until its next visit: the
      byte with its upper bits is not cleared. */
  function Leftover(s: State, es: seq<Event>): nat
    requires Shaped(s) && Possible(s, es)
    decreases |es|
  {
    if es == [] then 0
    else LeftoverStep(Run(s, Front(es)), Last(es), Table(s, Front(es))[47], Leftover(s, Front(es)))
  }

  function LeftoverStep(s: State, e: Event, v: Hid.PadValue, left: nat): nat {
    if e.Calibrated? then v.pressure / 2 * 2
    else if e.Go? && !s.at.Between? && s.at.pad == 47 then 0
    else left
  }

  /** v is what the report shows for pad p. Between the two halves of an attack the report is ahead
      of the filter, and while a held pad is about to be reported it is behind. */
  predicate Shown(s: State, p: nat, v: Hid.PadValue, velocity: int, left: nat)
    requires Shaped(s) && p < PADS
  {
    var q := s.pads[p];
    if s.at.Attacked? && s.at.pad == p then v.pressure == v.velocity == velocity == s.at.velocity
    else
      && ((s.at.Holding? && s.at.pad == p)
          || v.pressure == if q.played then q.filtered else if p == 47 then left else 0)
      && v.velocity == (if !q.played then 0 else if p < 40 then velocity else 127)
  }

  lemma ShownGo(s: State, p: nat, t: seq<Hid.PadValue>, velocity: int, left: nat)
    requires Inv(s) && Enabled(s, Go) && p < PADS && |t| == 48 && Inv(OnGo(s))
    requires Shown(s, p, t[p], velocity, left)
    requires Report(s, Go).Some? ==> Hid.Valid(Report(s, Go).value)
    ensures Shown(OnGo(s), p, TableStep(t, Report(s, Go))[p],
                  if IsPress(s, Go, p) then Min(s.at.peak / 2, 127) else velocity, LeftoverStep(s, Go, t[47], left))
  {
    if p == s.at.pad {
      ShownGoHere(s, t, velocity, left);
    } else {
      assert OnGo(s).pads[p] == s.pads[p];
    }
  }

  lemma ShownGoHere(s: State, t: seq<Hid.PadValue>, velocity: int, left: nat)
    requires Inv(s) && Enabled(s, Go) && |t| == 48 && Inv(OnGo(s))
    requires Shown(s, s.at.pad, t[s.at.pad], velocity, left)
    requires Report(s, Go).Some? ==> Hid.Valid(Report(s, Go).value)
    ensures Shown(OnGo(s), s.at.pad, TableStep(t, Report(s, Go))[s.at.pad],
                  if IsPress(s, Go, s.at.pad) then Min(s.at.peak / 2, 127) else velocity,
                  LeftoverStep(s, Go, t[47], left))
  {
    assert FlagsMatch(s, s.at.pad) && FlagsMatch(OnGo(s), s.at.pad);
  }

  lemma ShownStep(s: State, e: Event, p: nat, t: seq<Hid.PadValue>, velocity: int, left: nat)
    requires Inv(s) && Enabled(s, e) && p < PADS && |t| == 48 && Inv(Next(s, e))
    requires Shown(s, p, t[p], velocity, left)
    requires Report(s, e).Some? ==> Hid.Valid(Report(s, e).value)
    ensures Shown(Next(s, e), p, TableStep(t, Report(s, e))[p],
                  if IsPress(s, e, p) then Min(s.at.peak / 2, 127) else velocity, LeftoverStep(s, e, t[47], left))
  {
    if e.Go? {
      ShownGo(s, p, t, velocity, left);
    } else {
      assert FlagsMatch(s, p);
    }
  }

  lemma {:induction false} TableShowsScan(s: State, es: seq<Event>, p: nat)
    requires Initial(s) && Possible(s, es) && p < PADS
    ensures Shown(Run(s, es), p, Table(s, es)[p], PressVelocity(s, es, p), Leftover(s, es))
    decreases |es|
  {
    if es != [] {
      TableShowsScan(s, Front(es), p);
      RunKeepsInv(s, Front(es));
      RunKeepsInv(s, es);
      TableOneMore(s, es);
      var front := Front(es);
      ShownStep(Run(s, front), Last(es), p, Table(s, front), PressVelocity(s, front, p), Leftover(s, front));
    }
  }

  /** From the pads to the host. Let the writes to the pads be those of a run of the scan, mixed in
      any way with sends, MIDI messages, buttons and dials: between visits the host's decoding of
      a pad is the filtered pressure and the velocity of its press while it is held, and zero
      when it is not. Only pad 47 keeps a leftover of its pressure after a calibration. */
  lemma HostSeesPads(s: State, es: seq<Event>, hs: seq<Hid.Event>, p: nat)
    requires Initial(s) && Possible(s, es) && Run(s, es).at.Between? && p < PADS
    requires Hid.AllValid(hs) && PadEvents(hs) == Reported(s, es)
    ensures var (t, q) := (Hid.Run(Hid.PowerUp(), hs), Run(s, es).pads[p]);
      Hid.DecodePad(t.buf, p) ==
        if q.played then (q.filtered, if p < 40 then PressVelocity(s, es, p) else 127)
        else (if p == 47 then Leftover(s, es) else 0, 0)
  {
    Hid.PadsRefineTable(hs);
    TableOfPadEvents(hs);
    TableShowsScan(s, es, p);
  }

  predicate NoSends(hs: seq<Hid.Event>) {
    forall h <- hs :: !h.Send?
  }

  /** Without a send, the turn of the halves stays as it is. */
  lemma {:induction false} FlipStays(hs: seq<Hid.Event>, rest: seq<Hid.Event>)
    requires Hid.AllValid(hs) && Hid.AllValid(rest) && NoSends(rest)
    ensures Hid.AllValid(hs + rest)
    ensures Hid.Run(Hid.PowerUp(), hs + rest).flip == Hid.Run(Hid.PowerUp(), hs).flip
  {
    if rest == [] {
      assert hs + rest == hs;
    } else {
      var front, h := rest[..|rest| - 1], rest[|rest| - 1];
      FlipStays(hs, front);
      assert (hs + rest)[..|hs + rest| - 1] == hs + front;
      assert h in rest && !h.Send?;
    }
  }

  lemma BufferShowsScan(s: State, es: seq<Event>, hs: seq<Hid.Event>, p: nat)
    requires Initial(s) && Possible(s, es) && p < PADS
    requires Hid.AllValid(hs) && PadEvents(hs) == Reported(s, es)
    ensures BufferShows(s, es, Hid.Run(Hid.PowerUp(), hs), p)
  {
    Hid.PadsRefineTable(hs);
    TableOfPadEvents(hs);
    TableShowsScan(s, es, p);
  }

  /** v is what a report shows for the pad when the scan has come this far. */
  predicate ShownFor(s: State, es: seq<Event>, p: nat, v: Hid.PadValue)
    requires Shaped(s) && Possible(s, es) && p < PADS
  {
    Shown(Run(s, es), p, v, PressVelocity(s, es, p), Leftover(s, es))
  }

  /** The report put together from the halves of the two states: pads below 31 show the scan as it was
      at es1, those above as it was at es2, and pad 31 takes the low bit of its pressure and its
      velocity from the one and the other bits from the other. */
  predicate HostReads(s: State, es1: seq<Event>, es2: seq<Event>, first: Hid.State, second: Hid.State,
                      stray1: byte, stray2: byte, p: nat)
    requires Shaped(s) && Possible(s, es1) && Possible(s, es2) && p < PADS
    requires Hid.Shaped(first) && Hid.Shaped(second)
  {
    var (pressure, velocity) := Hid.DecodePad(Hid.Packet(first, stray1) + Hid.Packet(second, stray2), p);
    && (p < 31 ==> ShownFor(s, es1, p, Hid.PadValue(pressure, velocity)))
    && (p > 31 ==> ShownFor(s, es2, p, Hid.PadValue(pressure, velocity)))
    && (p == 31 ==>
          var (pressure1, pressure2) := (Hid.DecodePad(first.buf, p).0, Hid.DecodePad(second.buf, p).0);
          && pressure == pressure1 % 2 + pressure2 / 2 * 2
          && ShownFor(s, es1, p, Hid.PadValue(pressure1, velocity))
          && ShownFor(s, es2, p, Hid.PadValue(pressure2, Hid.DecodePad(second.buf, p).1)))
  }

  predicate BufferShows(s: State, es: seq<Event>, h: Hid.State, p: nat)
    requires Shaped(s) && Possible(s, es) && Hid.Shaped(h) && p < PADS
  {
    var (pressure, velocity) := Hid.DecodePad(h.buf, p);
    ShownFor(s, es, p, Hid.PadValue(pressure, velocity))
  }

  lemma ReportOfHalves(s: State, es1: seq<Event>, es2: seq<Event>, first: Hid.State, second: Hid.State,
                       stray1: byte, stray2: byte, p: nat)
    requires Shaped(s) && Possible(s, es1) && Possible(s, es2) && p < PADS
    requires Hid.Shaped(first) && Hid.Shaped(second) && !first.flip && second.flip
    requires BufferShows(s, es1, first, p) && BufferShows(s, es2, second, p)
    ensures HostReads(s, es1, es2, first, second, stray1, stray2, p)
  {
    Hid.TornReport(first, second, stray1, stray2, p);
  }

  /** After hs the first half is sent, and no other until later. */
  predicate HalfBetween(hs: seq<Hid.Event>, later: seq<Hid.Event>, stray: byte) {
    |hs| < |later| && later[..|hs|] == hs && later[|hs|] == Hid.Send(stray) && NoSends(later[|hs| + 1..])
  }

  lemma SecondHalfIsNext(hs: seq<Hid.Event>, later: seq<Hid.Event>, stray: byte)
    requires Hid.AllValid(hs) && Hid.AllValid(later) && HalfBetween(hs, later, stray)
    requires !Hid.Run(Hid.PowerUp(), hs).flip
    ensures Hid.Run(Hid.PowerUp(), later).flip
  {
    var sent, rest := hs + [Hid.Send(stray)], later[|hs| + 1..];
    assert sent[..|sent| - 1] == hs && Hid.AllValid(sent) && Hid.AllValid(rest) && sent + rest == later;
    FlipStays(sent, rest);
  }

  /** What the host makes of a report as it receives it: a first half, sent after hs, and the second
      half that is sent next, later. By the time of the first, the scan has come to es1, by the time
      of the second to es2, in the middle of a visit or not. */
  lemma HostSeesReport(s: State, es1: seq<Event>, es2: seq<Event>, hs: seq<Hid.Event>, later: seq<Hid.Event>,
                       stray1: byte, stray2: byte, p: nat)
    requires Initial(s) && Possible(s, es1) && Possible(s, es2) && p < PADS
    requires Hid.AllValid(hs) && Hid.AllValid(later) && HalfBetween(hs, later, stray1)
    requires !Hid.Run(Hid.PowerUp(), hs).flip
    requires PadEvents(hs) == Reported(s, es1) && PadEvents(later) == Reported(s, es2)
    ensures Hid.Run(Hid.PowerUp(), later).flip
    ensures HostReads(s, es1, es2, Hid.Run(Hid.PowerUp(), hs), Hid.Run(Hid.PowerUp(), later), stray1, stray2, p)
  {
    SecondHalfIsNext(hs, later, stray1);
    BufferShowsScan(s, es1, hs, p);
    BufferShowsScan(s, es2, later, p);
    ReportOfHalves(s, es1, es2, Hid.Run(Hid.PowerUp(), hs), Hid.Run(Hid.PowerUp(), later), stray1, stray2, p);
  }
}
