/** The input report: pads, buttons, dials and a queue of MIDI messages in one buffer, which goes to
    the host in two alternating halves of 64 bytes. */
module HidReport {
  import opened Bytes

  const GENERIC_REPORT_SIZE := 127
  const QUEUE_MAX := 7

  type Msg = (byte, byte, byte)

  // ----- the buffer -----

  /** hid_in_buffer, noOfMidiInMessages and the half that is sent next. */
  datatype State = State(buf: seq<byte>, pending: nat, flip: bool)

  predicate Shaped(s: State) {
    |s.buf| == GENERIC_REPORT_SIZE && s.pending <= QUEUE_MAX
  }

  function PowerUp(): (s: State)
    ensures Shaped(s)
  {
    State(seq(GENERIC_REPORT_SIZE, i => if i == 0 then 1 else 0), 0, false)
  }

  /** Host or firmware activity. stray is the byte behind the buffer, which the second half includes. */
  datatype Event =
    | PadData(pad: nat, value: int, velocity: byte)
    | Pressure(pad: nat, value: int)
    | Buttons(b: byte)
    | Dial(d: nat, amount: int)
    | Midi(msg: Msg)
    | Clear
    | Send(stray: byte)

  predicate Valid(e: Event) {
    match e
    case PadData(pad, _, _) => pad < 48
    case Pressure(pad, _) => pad < 48
    case Dial(d, amount) => d < 2 && -128 <= amount <= 127
    case _ => true
  }

  /** The low bit of a value in two's complement, and the eight bits above it. */
  function LowBit(v: int): byte {
    v % 2
  }

  function HighBits(v: int): byte {
    v / 2 % 256
  }

  function Message(i: nat): nat {
    101 + 3 * i
  }

  function ClearBytes(buf: seq<byte>, from: nat, n: nat): (r: seq<byte>)
    requires from + n <= |buf|
    ensures |r| == |buf|
    ensures forall i | 0 <= i < |buf| :: r[i] == if from <= i < from + n then 0 else buf[i]
  {
    seq(|buf|, i requires 0 <= i < |buf| => if from <= i < from + n then 0 else buf[i])
  }

  function Packet(s: State, stray: byte): (p: seq<byte>)
    requires Shaped(s)
    ensures |p| == 64
  {
    if s.flip then s.buf[64..] + [stray] else s.buf[..64]
  }

  function Next(s: State, e: Event): (t: State)
    requires Shaped(s) && Valid(e)
    ensures Shaped(t)
  {
    match e
    case PadData(pad, value, velocity) =>
      s.(buf := s.buf[1 + 2 * pad := velocity % 128 + LowBit(value) * 128][2 + 2 * pad := HighBits(value)])
    case Pressure(pad, value) =>
      s.(buf := s.buf[1 + 2 * pad := s.buf[1 + 2 * pad] % 128 + LowBit(value) * 128][2 + 2 * pad := HighBits(value)])
    case Buttons(b) => s.(buf := s.buf[97 := b])
    case Dial(d, amount) => s.(buf := s.buf[98 + d := (s.buf[98 + d] + amount) % 256])
    case Midi(msg) =>
      if s.pending <= 6 then
        var at := Message(s.pending);
        s.(buf := s.buf[at := msg.0][at + 1 := msg.1][at + 2 := msg.2][100 := s.pending + 1], pending := s.pending + 1)
      else s
    case Clear => s.(buf := ClearBytes(s.buf, 1, 95))
    case Send(_) =>
      if s.flip then State(ClearBytes(ClearBytes(s.buf, 97, 3), 100, 19), 0, false) else s.(flip := true)
  }

  predicate AllValid(es: seq<Event>) {
    forall e <- es :: Valid(e)
  }

  function Run(s: State, es: seq<Event>): (t: State)
    requires Shaped(s) && AllValid(es)
    ensures Shaped(t)
  {
    if es == [] then s else Next(Run(s, es[..|es| - 1]), es[|es| - 1])
  }

  class HidBuffer {
    const buffer: array<byte>
    var noOfMidiInMessages: nat
    var flip: bool

    ghost predicate Ok()
      reads this
    {
      buffer.Length == GENERIC_REPORT_SIZE && noOfMidiInMessages <= QUEUE_MAX
    }

    ghost function View(): State
      reads this, buffer
    {
      State(buffer[..], noOfMidiInMessages, flip)
    }

    constructor ()
      ensures Ok() && View() == PowerUp() && fresh(buffer)
    {
      buffer := new byte[GENERIC_REPORT_SIZE](i => if i == 0 then 1 else 0);
      noOfMidiInMessages, flip := 0, false;
      new;
      assert buffer[..] == PowerUp().buf;
    }

    method WritePadData(pad: nat, value: int, velocity: byte)
      requires Ok() && pad < 48
      modifies buffer
      ensures View() == Next(old(View()), PadData(pad, value, velocity))
    {
      buffer[1 + 2 * pad] := velocity % 128 + LowBit(value) * 128;
      buffer[2 + 2 * pad] := HighBits(value);
    }

    method WritePressureOnly(pad: nat, value: int)
      requires Ok() && pad < 48
      modifies buffer
      ensures View() == Next(old(View()), Pressure(pad, value))
    {
      buffer[1 + 2 * pad] := buffer[1 + 2 * pad] % 128;
      buffer[1 + 2 * pad] := buffer[1 + 2 * pad] + LowBit(value) * 128;
      buffer[2 + 2 * pad] := HighBits(value);
    }

    method WriteButtonData(b: byte)
      requires Ok()
      modifies buffer
      ensures View() == Next(old(View()), Buttons(b))
    {
      buffer[97] := b;
    }

    method AdjustDial(d: nat, amount: int)
      requires Ok() && d < 2 && -128 <= amount <= 127
      modifies buffer
      ensures View() == Next(old(View()), Dial(d, amount))
    {
      buffer[98 + d] := (buffer[98 + d] + amount) % 256;
    }

    method ClearPads()
      requires Ok()
      modifies buffer
      ensures View() == Next(old(View()), Clear)
    {
      forall i | 1 <= i < 96 {
        buffer[i] := 0;
      }
    }

    method WriteMidiData(msg: Msg)
      requires Ok()
      modifies this`noOfMidiInMessages, buffer
      ensures Ok() && View() == Next(old(View()), Midi(msg))
    {
      if noOfMidiInMessages <= 6 {
        var at := noOfMidiInMessages * 3 + 101;
        buffer[at] := msg.0;
        buffer[at + 1] := msg.1;
        buffer[at + 2] := msg.2;
        noOfMidiInMessages := noOfMidiInMessages + 1;
        buffer[100] := noOfMidiInMessages;
      }
    }

    /** The part of GenericHID_Task that sends a half when the host is ready for one. */
    method SendHalf(stray: byte) returns (data: array<byte>)
      requires Ok()
      modifies this`noOfMidiInMessages, this`flip, buffer
      ensures fresh(data) && data[..] == Packet(old(View()), stray)
      ensures Ok() && View() == Next(old(View()), Send(stray))
    {
      data := new byte[64];
      ghost var s := View();
      for i := 0 to 64
        invariant data[..i] == Packet(s, stray)[..i] && View() == s
      {
        var at := i + (if flip then 64 else 0);
        data[i] := if at < buffer.Length then buffer[at] else stray;
      }
      assert data[..] == data[..64] == Packet(s, stray)[..64] == Packet(s, stray);
      if flip {
        ClearAfterSend();
      }
      flip := !flip;
    }

    /** What the second half has carried is cleared: buttons, dials, and 19 bytes of the queue. */
    method ClearAfterSend()
      requires Ok()
      modifies this`noOfMidiInMessages, buffer
      ensures noOfMidiInMessages == 0
      ensures buffer[..] == ClearBytes(ClearBytes(old(buffer[..]), 97, 3), 100, 19)
    {
      buffer[98] := 0;
      buffer[99] := 0;
      buffer[97] := 0;
      for i := 0 to 19
        invariant forall j | 0 <= j < buffer.Length ::
          buffer[j] == if 97 <= j < 100 + i then 0 else old(buffer[j])
      {
        buffer[100 + i] := 0;
      }
      noOfMidiInMessages := 0;
    }
  }

  // ----- what the host makes of a report -----

  /** The decoder of the monitor: pressure and velocity of a pad in the bytes of a report. */
  function DecodePad(report: seq<byte>, pad: nat): (nat, nat)
    requires pad < 48 && |report| > 96
  {
    (report[1 + 2 * pad] / 128 + 2 * (report[2 + 2 * pad] as nat), report[1 + 2 * pad] % 128)
  }

  function Signed(b: byte): int {
    if b > 0x7F then b - 256 else b
  }

  /** The dial and the queued messages in a second half. */
  function DecodeDial(packet: seq<byte>, d: nat): int
    requires |packet| == 64 && d < 2
  {
    Signed(packet[34 + d])
  }

  function DecodeMidi(packet: seq<byte>, n: nat): seq<Msg>
    requires |packet| == 64 && n <= QUEUE_MAX
  {
    if n == 0 then []
    else DecodeMidi(packet, n - 1) + [(packet[34 + 3 * n], packet[35 + 3 * n], packet[36 + 3 * n])]
  }

  /** The messages of a second half, as many as its count byte says (a count above 7 is refused). */
  function Messages(packet: seq<byte>): seq<Msg>
    requires |packet| == 64
  {
    if packet[36] <= QUEUE_MAX then DecodeMidi(packet, packet[36]) else []
  }

  // ----- pads: the buffer refines a table of pressures and velocities -----

  datatype PadValue = PadValue(pressure: nat, velocity: nat)

  function PadTable(t: seq<PadValue>, e: Event): seq<PadValue>
    requires |t| == 48 && Valid(e)
  {
    match e
    case PadData(pad, value, velocity) => t[pad := PadValue(value % 512, velocity % 128)]
    case Pressure(pad, value) => t[pad := t[pad].(pressure := value % 512)]
    case Clear =>
      seq(48, p requires 0 <= p < 48 => if p < 47 then PadValue(0, 0) else PadValue(t[47].pressure / 2 * 2, 0))
    case _ => t
  }

  function TableAfter(es: seq<Event>): (t: seq<PadValue>)
    requires AllValid(es)
    ensures |t| == 48
  {
    if es == [] then seq(48, _ => PadValue(0, 0))
    else PadTable(TableAfter(es[..|es| - 1]), es[|es| - 1])
  }

  ghost predicate ShowsTable(buf: seq<byte>, t: seq<PadValue>)
    requires |buf| == GENERIC_REPORT_SIZE && |t| == 48
  {
    forall p | 0 <= p < 48 :: DecodePad(buf, p) == (t[p].pressure, t[p].velocity)
  }

  lemma SplitValue(v: int)
    ensures LowBit(v) + 2 * HighBits(v) == v % 512
  {
  }

  /** Encoding a pad and decoding it again, and decoding any other pad. */
  lemma WriteThenDecode(buf: seq<byte>, pad: nat, v: int, velocity: nat, p: nat)
    requires |buf| == GENERIC_REPORT_SIZE && pad < 48 && velocity < 128 && p < 48
    ensures var b := buf[1 + 2 * pad := velocity + LowBit(v) * 128][2 + 2 * pad := HighBits(v)];
      DecodePad(b, p) == if p == pad then (v % 512, velocity) else DecodePad(buf, p)
  {
    SplitValue(v);
  }

  lemma ClearShowsPad(s: State, t: seq<PadValue>, p: nat)
    requires Shaped(s) && |t| == 48 && p < 48 && DecodePad(s.buf, p) == (t[p].pressure, t[p].velocity)
    ensures var u := PadTable(t, Clear); DecodePad(Next(s, Clear).buf, p) == (u[p].pressure, u[p].velocity)
  {
  }

  lemma OtherShowsPad(s: State, e: Event, p: nat)
    requires Shaped(s) && Valid(e) && !TouchesPads(e) && p < 48
    ensures DecodePad(Next(s, e).buf, p) == DecodePad(s.buf, p)
  {
  }

  lemma StepShowsPad(s: State, e: Event, t: seq<PadValue>, p: nat)
    requires Shaped(s) && Valid(e) && |t| == 48 && p < 48
    requires DecodePad(s.buf, p) == (t[p].pressure, t[p].velocity)
    ensures var u := PadTable(t, e); DecodePad(Next(s, e).buf, p) == (u[p].pressure, u[p].velocity)
  {
    match e
    case PadData(pad, value, velocity) => WriteThenDecode(s.buf, pad, value, velocity % 128, p);
    case Pressure(pad, value) => WriteThenDecode(s.buf, pad, value, s.buf[1 + 2 * pad] % 128, p);
    case Clear => ClearShowsPad(s, t, p);
    case _ => OtherShowsPad(s, e, p);
  }

  lemma StepShowsTable(s: State, e: Event, t: seq<PadValue>)
    requires Shaped(s) && Valid(e) && |t| == 48 && ShowsTable(s.buf, t)
    ensures ShowsTable(Next(s, e).buf, PadTable(t, e))
  {
    forall p | 0 <= p < 48
      ensures var u := PadTable(t, e); DecodePad(Next(s, e).buf, p) == (u[p].pressure, u[p].velocity)
    {
      StepShowsPad(s, e, t, p);
    }
  }

  /** After any sequence of writes and sends, the host's decoding of each pad gives its last pressure
      (nine bits of it) and the velocity of its last full write; writes to other pads, the buttons,
      the dials and the queue, and sends, change nothing of that. Clearing resets every pad but the
      pressure of the last, of which only the low bit goes. */
  lemma {:induction false} PadsRefineTable(es: seq<Event>)
    requires AllValid(es)
    ensures ShowsTable(Run(PowerUp(), es).buf, TableAfter(es))
  {
    if es != [] {
      var front := es[..|es| - 1];
      PadsRefineTable(front);
      StepShowsTable(Run(PowerUp(), front), es[|es| - 1], TableAfter(front));
    }
  }

  predicate TouchesPads(e: Event) {
    e.PadData? || e.Pressure? || e.Clear?
  }

  /** Buttons, dials and queue in turn are untouched by the pads. */
  lemma PadsLeaveRest(s: State, e: Event, i: nat)
    requires Shaped(s) && Valid(e) && TouchesPads(e) && 97 <= i < GENERIC_REPORT_SIZE
    ensures Next(s, e).buf[i] == s.buf[i] && Next(s, e).pending == s.pending
  {
  }

  // ----- a report put together from two halves -----

  lemma ByteOfReport(first: State, second: State, stray1: byte, stray2: byte, i: nat)
    requires Shaped(first) && Shaped(second) && !first.flip && second.flip && i < GENERIC_REPORT_SIZE
    ensures (Packet(first, stray1) + Packet(second, stray2))[i] == if i < 64 then first.buf[i] else second.buf[i]
  {
  }

  /** Two halves sent at different times. All pads but one lie within a half and decode to what they
      were when it was sent. Pad 31 has a byte in each. */
  lemma TornReport(first: State, second: State, stray1: byte, stray2: byte, pad: nat)
    requires Shaped(first) && Shaped(second) && !first.flip && second.flip && pad < 48
    ensures var report := Packet(first, stray1) + Packet(second, stray2);
      && (pad < 31 ==> DecodePad(report, pad) == DecodePad(first.buf, pad))
      && (pad > 31 ==> DecodePad(report, pad) == DecodePad(second.buf, pad))
      && (pad == 31 ==>
            var (pressure1, velocity1) := DecodePad(first.buf, 31);
            var (pressure2, _) := DecodePad(second.buf, 31);
            DecodePad(report, pad) == (pressure1 % 2 + pressure2 / 2 * 2, velocity1))
  {
    ByteOfReport(first, second, stray1, stray2, 1 + 2 * pad);
    ByteOfReport(first, second, stray1, stray2, 2 + 2 * pad);
  }

  /** So pad 31 is read as it was at the first half exactly when the upper bits of its pressure
      have not changed by the second. */
  lemma Pad31ConsistentIff(first: State, second: State, stray1: byte, stray2: byte)
    requires Shaped(first) && Shaped(second) && !first.flip && second.flip
    ensures DecodePad(Packet(first, stray1) + Packet(second, stray2), 31) == DecodePad(first.buf, 31) <==>
              DecodePad(first.buf, 31).0 / 2 == DecodePad(second.buf, 31).0 / 2
  {
    TornReport(first, second, stray1, stray2, 31);
  }

  // ----- the MIDI queue -----

  /** The second halves sent in a run, in order. */
  function SecondHalves(es: seq<Event>): seq<seq<byte>>
    requires AllValid(es)
  {
    if es == [] then []
    else
      var front, e := es[..|es| - 1], es[|es| - 1];
      var s := Run(PowerUp(), front);
      if e.Send? && s.flip then SecondHalves(front) + [Packet(s, e.stray)] else SecondHalves(front)
  }

  lemma {:induction false} SecondHalvesSize(es: seq<Event>)
    requires AllValid(es)
    ensures forall p <- SecondHalves(es) :: |p| == 64
  {
    if es != [] {
      SecondHalvesSize(es[..|es| - 1]);
    }
  }

  function Delivered(ps: seq<seq<byte>>): seq<Msg>
    requires forall p <- ps :: |p| == 64
  {
    if ps == [] then [] else Delivered(ps[..|ps| - 1]) + Messages(ps[|ps| - 1])
  }

  function HostTotal(ps: seq<seq<byte>>, d: nat): int
    requires d < 2 && forall p <- ps :: |p| == 64
  {
    if ps == [] then 0 else HostTotal(ps[..|ps| - 1], d) + DecodeDial(ps[|ps| - 1], d)
  }

  /** Sends alternate between the halves, the first one first. */
  function Sends(es: seq<Event>): nat {
    if es == [] then 0 else Sends(es[..|es| - 1]) + (if es[|es| - 1].Send? then 1 else 0)
  }

  predicate IsSecondHalf(es: seq<Event>)
    requires es != []
  {
    es[|es| - 1].Send? && Sends(es) % 2 == 0
  }

  /** Arrivals since the last second half was sent. */
  function Arrivals(es: seq<Event>): nat {
    if es == [] || IsSecondHalf(es) then 0
    else Arrivals(es[..|es| - 1]) + (if es[|es| - 1].Midi? then 1 else 0)
  }

  /** The arrivals that are kept: the first seven after each second half. */
  function Accepted(es: seq<Event>): seq<Msg> {
    if es == [] then []
    else
      var front, e := es[..|es| - 1], es[|es| - 1];
      if e.Midi? && Arrivals(front) < QUEUE_MAX then Accepted(front) + [e.msg] else Accepted(front)
  }

  /** The messages waiting in the buffer. */
  function Waiting(s: State, n: nat): seq<Msg>
    requires Shaped(s) && n <= QUEUE_MAX
  {
    if n == 0 then []
    else Waiting(s, n - 1) + [(s.buf[98 + 3 * n], s.buf[99 + 3 * n], s.buf[100 + 3 * n])]
  }

  predicate QueueOk(s: State) {
    Shaped(s) && s.buf[100] == s.pending
  }

  lemma {:induction false} WaitingSame(s: State, t: State, n: nat)
    requires Shaped(s) && Shaped(t) && n <= QUEUE_MAX
    requires forall i | 101 <= i < 101 + 3 * n :: t.buf[i] == s.buf[i]
    ensures Waiting(t, n) == Waiting(s, n)
  {
    if n > 0 {
      WaitingSame(s, t, n - 1);
    }
  }

  lemma {:induction false} PacketShowsWaiting(s: State, stray: byte, n: nat)
    requires Shaped(s) && s.flip && n <= QUEUE_MAX
    ensures DecodeMidi(Packet(s, stray), n) == Waiting(s, n)
  {
    if n > 0 {
      PacketShowsWaiting(s, stray, n - 1);
    }
  }

  lemma MidiArrives(s: State, msg: Msg)
    requires QueueOk(s)
    ensures var t := Next(s, Midi(msg));
      && QueueOk(t)
      && (s.pending < QUEUE_MAX ==>
            t.pending == s.pending + 1 && Waiting(t, t.pending) == Waiting(s, s.pending) + [msg])
      && (s.pending == QUEUE_MAX ==> t == s)
  {
    WaitingSame(s, Next(s, Midi(msg)), s.pending);
  }

  lemma SecondHalfSent(s: State, stray: byte)
    requires QueueOk(s) && s.flip
    ensures var t := Next(s, Send(stray));
      QueueOk(t) && t.pending == 0 && Messages(Packet(s, stray)) == Waiting(s, s.pending)
  {
    PacketShowsWaiting(s, stray, s.pending);
  }

  lemma QueueUntouched(s: State, e: Event)
    requires QueueOk(s) && Valid(e) && !e.Midi? && !(e.Send? && s.flip)
    ensures var t := Next(s, e);
      QueueOk(t) && t.pending == s.pending && Waiting(t, t.pending) == Waiting(s, s.pending)
  {
    WaitingSame(s, Next(s, e), s.pending);
  }

  lemma MidiStep(s: State, e: Event)
    requires QueueOk(s) && Valid(e)
    ensures var t := Next(s, e);
      && QueueOk(t)
      && (e.Midi? && s.pending < QUEUE_MAX ==>
            t.pending == s.pending + 1 && Waiting(t, t.pending) == Waiting(s, s.pending) + [e.msg])
      && (e.Midi? && s.pending == QUEUE_MAX ==> t == s)
      && (e.Send? && s.flip ==> t.pending == 0 && Messages(Packet(s, e.stray)) == Waiting(s, s.pending))
      && (!e.Midi? && !(e.Send? && s.flip) ==> t.pending == s.pending && Waiting(t, t.pending) == Waiting(s, s.pending))
  {
    if e.Midi? {
      MidiArrives(s, e.msg);
    } else if e.Send? && s.flip {
      SecondHalfSent(s, e.stray);
    } else {
      QueueUntouched(s, e);
    }
  }

  lemma {:induction false} FlipIsParity(es: seq<Event>)
    requires AllValid(es)
    ensures Run(PowerUp(), es).flip == (Sends(es) % 2 == 1)
  {
    if es != [] {
      FlipIsParity(es[..|es| - 1]);
    }
  }

  lemma {:induction false} PendingIsArrivals(es: seq<Event>)
    requires AllValid(es)
    ensures var s := Run(PowerUp(), es);
      QueueOk(s) && s.pending == (if Arrivals(es) < QUEUE_MAX then Arrivals(es) else QUEUE_MAX)
  {
    if es != [] {
      var front, e := es[..|es| - 1], es[|es| - 1];
      PendingIsArrivals(front);
      SecondHalfIff(es);
      MidiStep(Run(PowerUp(), front), e);
    }
  }

  lemma SecondHalfIff(es: seq<Event>)
    requires AllValid(es) && es != []
    ensures IsSecondHalf(es) <==> es[|es| - 1].Send? && Run(PowerUp(), es[..|es| - 1]).flip
  {
    FlipIsParity(es[..|es| - 1]);
    var n := Sends(es[..|es| - 1]);
    assert n % 2 == 1 <==> (n + 1) % 2 == 0;
  }

  /** Nothing is lost and nothing doubled: the messages in the second halves sent so far, followed by
      those waiting, are the accepted arrivals in order. Byte 100 is the number waiting, never more
      than seven, and a message is dropped only if seven have come since the last second half. */
  lemma {:induction false} MidiConservation(es: seq<Event>)
    requires AllValid(es)
    ensures var s := Run(PowerUp(), es);
      && s.buf[100] == s.pending == (if Arrivals(es) < QUEUE_MAX then Arrivals(es) else QUEUE_MAX)
      && (forall p <- SecondHalves(es) :: |p| == 64)
      && Delivered(SecondHalves(es)) + Waiting(s, s.pending) == Accepted(es)
  {
    SecondHalvesSize(es);
    PendingIsArrivals(es);
    if es != [] {
      var front, e := es[..|es| - 1], es[|es| - 1];
      MidiConservation(front);
      SecondHalvesSize(front);
      PendingIsArrivals(front);
      DeliveryStep(Run(PowerUp(), front), e, SecondHalves(front));
    }
  }

  /** One event moves messages from the arrivals to the queue or from the queue to the host. */
  lemma DeliveryStep(s: State, e: Event, ps: seq<seq<byte>>)
    requires QueueOk(s) && Valid(e) && forall p <- ps :: |p| == 64
    ensures var t := Next(s, e);
      var qs := if e.Send? && s.flip then ps + [Packet(s, e.stray)] else ps;
      Delivered(qs) + Waiting(t, t.pending) ==
        Delivered(ps) + Waiting(s, s.pending) + (if e.Midi? && s.pending < QUEUE_MAX then [e.msg] else [])
  {
    MidiStep(s, e);
    if e.Send? && s.flip {
      DeliveredOneMore(ps, Packet(s, e.stray));
    }
  }

  lemma DeliveredOneMore(ps: seq<seq<byte>>, p: seq<byte>)
    requires |p| == 64 && forall q <- ps :: |q| == 64
    ensures Delivered(ps + [p]) == Delivered(ps) + Messages(p)
  {
    assert (ps + [p])[..|ps|] == ps;
  }

  // ----- the buttons -----

  /** The buttons written last since the last second half. */
  function ButtonsSince(es: seq<Event>): byte {
    if es == [] || IsSecondHalf(es) then 0
    else if es[|es| - 1].Buttons? then es[|es| - 1].b
    else ButtonsSince(es[..|es| - 1])
  }

  lemma ButtonStep(s: State, e: Event)
    requires Shaped(s) && Valid(e)
    ensures Next(s, e).buf[97] == if e.Send? && s.flip then 0 else if e.Buttons? then e.b else s.buf[97]
  {
  }

  lemma {:induction false} ButtonByte(es: seq<Event>)
    requires AllValid(es)
    ensures Run(PowerUp(), es).buf[97] == ButtonsSince(es)
  {
    if es != [] {
      ButtonByte(es[..|es| - 1]);
      SecondHalfIff(es);
      ButtonStep(Run(PowerUp(), es[..|es| - 1]), es[|es| - 1]);
    }
  }

  /** A second half brings the host, in byte 97 of the report, the buttons written last since the one
      before it. */
  lemma HostSeesButtons(es: seq<Event>, stray: byte)
    requires AllValid(es) && Run(PowerUp(), es).flip
    ensures Packet(Run(PowerUp(), es), stray)[97 - 64] == ButtonsSince(es)
  {
    ButtonByte(es);
  }

  // ----- the dials -----

  /** The sum of all adjustments of a dial. */
  function Turned(es: seq<Event>, d: nat): int {
    if es == [] then 0
    else
      var e := es[|es| - 1];
      Turned(es[..|es| - 1], d) + (if e.Dial? && e.d == d then e.amount else 0)
  }

  /** The sum since the last second half was sent. */
  function TurnedSince(es: seq<Event>, d: nat): int {
    if es == [] || IsSecondHalf(es) then 0
    else
      var e := es[|es| - 1];
      TurnedSince(es[..|es| - 1], d) + (if e.Dial? && e.d == d then e.amount else 0)
  }

  /** Whenever a second half was sent, what had been turned since the one before fitted a signed byte. */
  ghost predicate KeptUp(es: seq<Event>, d: nat) {
    es == [] ||
    (var front := es[..|es| - 1];
     KeptUp(front, d) && (IsSecondHalf(es) ==> -128 <= TurnedSince(front, d) <= 127))
  }

  lemma DialStep(s: State, e: Event, d: nat)
    requires Shaped(s) && Valid(e) && d < 2
    ensures Next(s, e).buf[98 + d] ==
              if e.Send? && s.flip then 0
              else if e.Dial? && e.d == d then (s.buf[98 + d] + e.amount) % 256
              else s.buf[98 + d]
  {
  }

  lemma {:induction false} DialByte(es: seq<Event>, d: nat)
    requires AllValid(es) && d < 2
    ensures Run(PowerUp(), es).buf[98 + d] == TurnedSince(es, d) % 256
  {
    if es != [] {
      var front, e := es[..|es| - 1], es[|es| - 1];
      DialByte(front, d);
      SecondHalfIff(es);
      DialStep(Run(PowerUp(), front), e, d);
      if e.Dial? {
        AddModulo256(TurnedSince(front, d), e.amount);
      }
    }
  }

  lemma AddModulo256(x: int, y: int)
    ensures (x % 256 + y) % 256 == (x + y) % 256
  {
    var q := x / 256;
    assert x + y == 256 * q + (x % 256 + y);
  }

  lemma SignedOf(x: int)
    ensures (Signed(x % 256) - x) % 256 == 0
    ensures -128 <= x <= 127 ==> Signed(x % 256) == x
  {
  }

  lemma HostTotalOneMore(ps: seq<seq<byte>>, p: seq<byte>, d: nat)
    requires d < 2 && |p| == 64 && forall q <- ps :: |q| == 64
    ensures HostTotal(ps + [p], d) == HostTotal(ps, d) + DecodeDial(p, d)
  {
    assert (ps + [p])[..|ps|] == ps;
  }

  /** What the host has and will have with the byte that waits, less what was turned. */
  function DialGap(es: seq<Event>, d: nat): int
    requires AllValid(es) && d < 2
  {
    SecondHalvesSize(es);
    HostTotal(SecondHalves(es), d) + TurnedSince(es, d) - Turned(es, d)
  }

  lemma DialGapStep(es: seq<Event>, d: nat)
    requires AllValid(es) && es != [] && d < 2
    ensures var front := es[..|es| - 1]; var x := TurnedSince(front, d);
      DialGap(es, d) == DialGap(front, d) + (if IsSecondHalf(es) then Signed(x % 256) - x else 0)
  {
    var front, e := es[..|es| - 1], es[|es| - 1];
    var s := Run(PowerUp(), front);
    SecondHalvesSize(es);
    SecondHalvesSize(front);
    SecondHalfIff(es);
    DialByte(front, d);
    if e.Send? && s.flip {
      HostTotalOneMore(SecondHalves(front), Packet(s, e.stray), d);
    }
  }

  lemma SumModulo256(x: int, y: int)
    requires x % 256 == 0 && y % 256 == 0
    ensures (x + y) % 256 == 0
  {
    AddModulo256(x, y);
  }

  lemma WrapKeepsModulo(gap: int, x: int)
    requires gap % 256 == 0
    ensures (gap + (Signed(x % 256) - x)) % 256 == 0
  {
    SignedOf(x);
    SumModulo256(gap, Signed(x % 256) - x);
  }

  lemma {:induction false} DialGapModulo(es: seq<Event>, d: nat)
    requires AllValid(es) && d < 2
    ensures DialGap(es, d) % 256 == 0
  {
    if es != [] {
      DialGapModulo(es[..|es| - 1], d);
      DialGapStep(es, d);
      if IsSecondHalf(es) {
        WrapKeepsModulo(DialGap(es[..|es| - 1], d), TurnedSince(es[..|es| - 1], d));
      }
    }
  }

  lemma {:induction false} DialGapZero(es: seq<Event>, d: nat)
    requires AllValid(es) && d < 2 && KeptUp(es, d)
    ensures DialGap(es, d) == 0
  {
    if es != [] {
      DialGapZero(es[..|es| - 1], d);
      DialGapStep(es, d);
      SignedOf(TurnedSince(es[..|es| - 1], d));
    }
  }

  /** The host's total and the byte still waiting always account for all that was turned modulo
      256; and exactly, as long as the turns between second halves fit a signed byte. */
  lemma DialConservation(es: seq<Event>, d: nat)
    requires AllValid(es) && d < 2
    ensures forall p <- SecondHalves(es) :: |p| == 64
    ensures (HostTotal(SecondHalves(es), d) + TurnedSince(es, d) - Turned(es, d)) % 256 == 0
    ensures Run(PowerUp(), es).buf[98 + d] == TurnedSince(es, d) % 256
    ensures KeptUp(es, d) && -128 <= TurnedSince(es, d) <= 127 ==>
              HostTotal(SecondHalves(es), d) + Signed(Run(PowerUp(), es).buf[98 + d]) == Turned(es, d)
  {
    SecondHalvesSize(es);
    DialGapModulo(es, d);
    DialByte(es, d);
    SignedOf(TurnedSince(es, d));
    if KeptUp(es, d) {
      DialGapZero(es, d);
    }
  }

  /** The host's total with the byte that waits. */
  function HostShows(es: seq<Event>, d: nat): int
    requires AllValid(es) && d < 2
  {
    SecondHalvesSize(es);
    HostTotal(SecondHalves(es), d) + Signed(Run(PowerUp(), es).buf[98 + d])
  }

  /** After the run and at every point of it, the host's account of the dial is exact. */
  ghost predicate AlwaysExact(es: seq<Event>, d: nat)
    requires AllValid(es) && d < 2
  {
    HostShows(es, d) == Turned(es, d) && (es == [] || AlwaysExact(es[..|es| - 1], d))
  }

  /** After the run and at every point of it, what has been turned since the last second half fits a
      signed byte. */
  ghost predicate AlwaysFits(es: seq<Event>, d: nat) {
    -128 <= TurnedSince(es, d) <= 127 && (es == [] || AlwaysFits(es[..|es| - 1], d))
  }

  lemma {:induction false} FitsKeepsUp(es: seq<Event>, d: nat)
    requires es == [] || AlwaysFits(es[..|es| - 1], d)
    ensures KeptUp(es, d)
  {
    if es != [] {
      FitsKeepsUp(es[..|es| - 1], d);
    }
  }

  lemma SignedExactIff(x: int)
    ensures Signed(x % 256) == x <==> -128 <= x <= 127
  {
    SignedOf(x);
  }

  /** As long as it always was exact before, the account is exact if and only if the turns fit. */
  lemma ExactIffFits(es: seq<Event>, d: nat)
    requires AllValid(es) && d < 2 && (es == [] || AlwaysFits(es[..|es| - 1], d))
    ensures HostShows(es, d) == Turned(es, d) <==> -128 <= TurnedSince(es, d) <= 127
  {
    FitsKeepsUp(es, d);
    DialGapZero(es, d);
    DialByte(es, d);
    SignedExactIff(TurnedSince(es, d));
  }

  /** The host's account is exact throughout a run if and only if the turns between second halves
      always fit a signed byte. */
  lemma {:induction false} DialExactIff(es: seq<Event>, d: nat)
    requires AllValid(es) && d < 2
    ensures AlwaysExact(es, d) <==> AlwaysFits(es, d)
  {
    if es == [] {
      ExactIffFits(es, d);
    } else {
      DialExactIff(es[..|es| - 1], d);
      if AlwaysFits(es[..|es| - 1], d) {
        ExactIffFits(es, d);
      }
    }
  }
}
