/** The byte ring buffer of LUFA, first as one thread uses it, then as a producer
    and a consumer interleave on it with only the count update atomic. */
module Ring {
  import opened Bytes

  // The structure's fields; In and Out are offsets into the storage array.
  datatype Core = Core(data: seq<byte>, inp: nat, out: nat, count: nat)

  predicate InRange(c: Core) {
    if c.data == [] then c.inp == 0 && c.out == 0 else c.inp < |c.data| && c.out < |c.data|
  }

  // ----- the statements of Insert and Remove, one micro-step each -----

  function Wrap(p: nat, size: nat): nat {
    if p + 1 == size then 0 else p + 1
  }

  // A store or load outside the array has no meaning in C; it is a no-op here and
  // is proved never to happen.
  function StoreIn(c: Core, b: byte): Core {
    if c.inp < |c.data| then c.(data := c.data[c.inp := b]) else c
  }

  function LoadOut(c: Core): byte {
    if c.out < |c.data| then c.data[c.out] else 0
  }

  function AdvanceIn(c: Core): Core {
    c.(inp := Wrap(c.inp, |c.data|))
  }

  function CountUp(c: Core): Core {
    c.(count := (c.count + 1) % 0x1_0000)
  }

  function AdvanceOut(c: Core): Core {
    c.(out := Wrap(c.out, |c.data|))
  }

  function CountDown(c: Core): Core {
    c.(count := (c.count + 0xFFFF) % 0x1_0000)
  }

  // ----- meaning of a buffer that no thread is in the middle of changing -----

  /** The slot d places after p, going round the end of an array of the given size. */
  function After(p: nat, d: nat, size: nat): nat {
    if p + d < size then p + d else p + d - size
  }

  function Contents(c: Core): seq<byte>
    requires InRange(c) && c.count <= |c.data|
  {
    seq(c.count, i requires 0 <= i < c.count => c.data[After(c.out, i, |c.data|)])
  }

  predicate Settled(c: Core) {
    && InRange(c)
    && c.count <= |c.data|
    && c.inp == After(c.out, c.count, |c.data|)
  }

  function InsertAll(c: Core, b: byte): Core {
    CountUp(AdvanceIn(StoreIn(c, b)))
  }

  function RemoveAll(c: Core): Core {
    CountDown(AdvanceOut(c))
  }

  lemma InsertAppends(c: Core, b: byte)
    requires Settled(c) && c.count < |c.data| < 0x1_0000
    ensures Settled(InsertAll(c, b))
    ensures Contents(InsertAll(c, b)) == Contents(c) + [b]
  {
    var d := InsertAll(c, b);
    assert forall i | 0 <= i < c.count :: After(c.out, i, |c.data|) != c.inp;
    assert Contents(d)[c.count] == b;
  }

  lemma RemoveTakesOldest(c: Core)
    requires Settled(c) && c.count > 0 && |c.data| < 0x1_0000
    ensures Settled(RemoveAll(c))
    ensures Contents(c) == [c.data[c.out]] + Contents(RemoveAll(c))
  {
    var d := RemoveAll(c);
    assert forall i | 0 <= i < d.count :: After(d.out, i, |d.data|) == After(c.out, i + 1, |c.data|);
  }

  class RingBuffer {
    const data: array<byte>
    var inp: nat
    var out: nat
    var count: nat

    ghost function View(): Core
      reads this, data
    {
      Core(data[..], inp, out, count)
    }

    ghost predicate Valid()
      reads this, data
    {
      Settled(View()) && data.Length < 0x1_0000
    }

    constructor InitBuffer(storage: array<byte>)
      requires storage.Length < 0x1_0000
      ensures Valid() && data == storage && Contents(View()) == []
    {
      data := storage;
      inp, out, count := 0, 0, 0;
    }

    method GetCount() returns (n: nat)
      requires Valid()
      ensures n == |Contents(View())|
    {
      n := count;
    }

    method IsFull() returns (full: bool)
      requires Valid()
      ensures full <==> |Contents(View())| == data.Length
    {
      var n := GetCount();
      full := n == data.Length;
    }

    method IsEmpty() returns (empty: bool)
      requires Valid()
      ensures empty <==> Contents(View()) == []
    {
      var n := GetCount();
      empty := n == 0;
    }

    method Insert(b: byte)
      requires Valid() && count < data.Length
      modifies this`inp, this`count, data
      ensures Valid()
      ensures View() == InsertAll(old(View()), b)
      ensures Contents(View()) == old(Contents(View())) + [b]
    {
      InsertAppends(View(), b);
      data[inp] := b;
      inp := inp + 1;
      if inp == data.Length {
        inp := 0;
      }
      count := count + 1;
      assert View().data == old(View()).data[old(inp) := b];
    }

    method Remove() returns (b: byte)
      requires Valid() && count > 0
      modifies this`out, this`count
      ensures Valid()
      ensures View() == RemoveAll(old(View()))
      ensures old(Contents(View())) == [b] + Contents(View())
    {
      RemoveTakesOldest(View());
      b := data[out];
      out := out + 1;
      if out == data.Length {
        out := 0;
      }
      count := count - 1;
    }

    method Peek() returns (b: byte)
      requires Valid() && count > 0
      ensures b == Contents(View())[0]
    {
      b := data[out];
    }
  }

  // ----- one producer and one consumer, interleaved -----

  datatype ProducerAt = ProducerIdle | Stored | AdvancedIn

  datatype ConsumerAt = ConsumerIdle | Loaded | AdvancedOut

  /** credit: inserts the producer may still make on its last look at the free count, the
      current one included. claim: the same for the consumer and the count.
      inserted and removed record the bytes stored and loaded so far. */
  datatype State = State(
    core: Core,
    producer: ProducerAt, credit: nat,
    consumer: ConsumerAt, claim: nat,
    inserted: seq<byte>, removed: seq<byte>)

  datatype Step =
    | SeeSpace(room: nat) | Store(b: byte) | StepIn | StepCountUp
    | SeeData(avail: nat) | Load | StepOut | StepCountDown

  function Fresh(storage: seq<byte>): State {
    State(Core(storage, 0, 0, 0), ProducerIdle, 0, ConsumerIdle, 0, [], [])
  }

  /** A look at the count may be used for fewer operations than it allows: IsFull is room == 1. */
  predicate Enabled(s: State, e: Step) {
    match e
    case SeeSpace(room) => s.producer.ProducerIdle? && room + s.core.count <= |s.core.data|
    case Store(b) => s.producer.ProducerIdle? && s.credit > 0
    case StepIn => s.producer.Stored?
    case StepCountUp => s.producer.AdvancedIn?
    case SeeData(avail) => s.consumer.ConsumerIdle? && avail <= s.core.count
    case Load => s.consumer.ConsumerIdle? && s.claim > 0
    case StepOut => s.consumer.Loaded?
    case StepCountDown => s.consumer.AdvancedOut?
  }

  /** The slot of the k-th byte ever inserted. */
  function Slot(k: nat, size: nat): nat {
    if k == 0 then 0 else Wrap(Slot(k - 1, size), size)
  }

  function Published(s: State): int {
    |s.inserted| - (if s.producer.ProducerIdle? then 0 else 1)
  }

  function Consumed(s: State): int {
    |s.removed| - (if s.consumer.ConsumerIdle? then 0 else 1)
  }

  /** Each byte stored but not yet loaded is still in its slot. */
  ghost predicate UnreadIntact(s: State) {
    var size := |s.core.data|;
    forall k | |s.removed| <= k < |s.inserted| ::
      Slot(k, size) < size && s.core.data[Slot(k, size)] == s.inserted[k]
  }

  ghost predicate Bookkeeping(s: State) {
    var size := |s.core.data|;
    && InRange(s.core) && size < 0x1_0000
    && 0 <= Consumed(s) && s.core.count == Published(s) - Consumed(s)
    && (size > 0 ==> s.core.inp == Slot(Published(s) + (if s.producer.AdvancedIn? then 1 else 0), size))
    && (size > 0 ==> s.core.out == Slot(Consumed(s) + (if s.consumer.AdvancedOut? then 1 else 0), size))
    && s.core.count + s.credit <= size
    && s.claim <= s.core.count
    && (!s.producer.ProducerIdle? ==> s.credit > 0)
    && (!s.consumer.ConsumerIdle? ==> s.claim > 0)
  }

  ghost predicate Inv(s: State) {
    Bookkeeping(s) && s.removed <= s.inserted && UnreadIntact(s)
  }

  function Next(s: State, e: Step): State {
    match e
    case SeeSpace(room) => s.(credit := room)
    case Store(b) => s.(core := StoreIn(s.core, b), producer := Stored, inserted := s.inserted + [b])
    case StepIn => s.(core := AdvanceIn(s.core), producer := AdvancedIn)
    case StepCountUp =>
      s.(core := CountUp(s.core), producer := ProducerIdle, credit := if s.credit > 0 then s.credit - 1 else 0)
    case SeeData(avail) => s.(claim := avail)
    case Load => s.(consumer := Loaded, removed := s.removed + [LoadOut(s.core)])
    case StepOut => s.(core := AdvanceOut(s.core), consumer := AdvancedOut)
    case StepCountDown =>
      s.(core := CountDown(s.core), consumer := ConsumerIdle, claim := if s.claim > 0 then s.claim - 1 else 0)
  }

  function Run(s: State, steps: seq<Step>): State
    decreases |steps|
  {
    if steps == [] then s else Run(Next(s, steps[0]), steps[1..])
  }

  /** Every step of the schedule is taken by a thread that is at that step. */
  predicate Schedule(s: State, steps: seq<Step>)
    decreases |steps|
  {
    steps == [] || (Enabled(s, steps[0]) && Schedule(Next(s, steps[0]), steps[1..]))
  }

  lemma {:induction false} SlotInRange(k: nat, size: nat)
    requires size > 0
    ensures Slot(k, size) < size
  {
    if k > 0 {
      SlotInRange(k - 1, size);
    }
  }

  /** Up to a whole turn, slots of successive bytes are the slots that follow each other. */
  lemma {:induction false} SlotAfter(k: nat, d: nat, size: nat)
    requires 0 < size && d < size
    ensures Slot(k, size) < size && Slot(k + d, size) == After(Slot(k, size), d, size)
  {
    SlotInRange(k, size);
    if d > 0 {
      SlotAfter(k, d - 1, size);
    }
  }

  /** The store of an insert never lands on a byte that is still to be read. */
  lemma StoreMissesUnread(s: State, k: nat)
    requires Inv(s) && s.producer.ProducerIdle? && s.credit > 0
    requires |s.removed| <= k < |s.inserted|
    ensures Slot(k, |s.core.data|) != s.core.inp < |s.core.data|
  {
    SlotAfter(k, |s.inserted| - k, |s.core.data|);
  }

  lemma StoreKeepsInv(s: State, b: byte)
    requires Inv(s) && Enabled(s, Store(b))
    ensures Inv(Next(s, Store(b)))
  {
    var t := Next(s, Store(b));
    var size := |s.core.data|;
    forall k | |t.removed| <= k < |t.inserted|
      ensures Slot(k, size) < size && t.core.data[Slot(k, size)] == t.inserted[k]
    {
      if k < |s.inserted| {
        StoreMissesUnread(s, k);
      }
    }
  }

  lemma LoadKeepsInv(s: State)
    requires Inv(s) && Enabled(s, Load)
    ensures Inv(Next(s, Load))
  {
    assert LoadOut(s.core) == s.inserted[|s.removed|];
  }

  lemma AdvanceKeepsInv(s: State, e: Step)
    requires Inv(s) && Enabled(s, e) && (e.StepIn? || e.StepOut?)
    ensures Inv(Next(s, e))
  {
    SlotInRange(|s.inserted|, |s.core.data|);
    SlotInRange(|s.removed|, |s.core.data|);
    var t := Next(s, e);
    assert t.core.data == s.core.data;
  }

  lemma CountKeepsInv(s: State, e: Step)
    requires Inv(s) && Enabled(s, e) && (e.StepCountUp? || e.StepCountDown?)
    ensures Inv(Next(s, e))
  {
    var t := Next(s, e);
    assert t.core.count == s.core.count + (if e.StepCountUp? then 1 else -1);
    assert t.core.data == s.core.data;
  }

  lemma StepKeepsInv(s: State, e: Step)
    requires Inv(s) && Enabled(s, e)
    ensures Inv(Next(s, e))
  {
    match e
    case Store(b) => StoreKeepsInv(s, b);
    case Load => LoadKeepsInv(s);
    case StepIn => AdvanceKeepsInv(s, e);
    case StepOut => AdvanceKeepsInv(s, e);
    case StepCountUp => CountKeepsInv(s, e);
    case StepCountDown => CountKeepsInv(s, e);
    case SeeSpace(_) => assert Next(s, e).core == s.core;
    case SeeData(_) => assert Next(s, e).core == s.core;
  }

  lemma {:induction false} RunKeepsInv(s: State, steps: seq<Step>)
    requires Inv(s) && Schedule(s, steps)
    ensures Inv(Run(s, steps))
    decreases |steps|
  {
    if steps != [] {
      StepKeepsInv(s, steps[0]);
      RunKeepsInv(Next(s, steps[0]), steps[1..]);
    }
  }

  lemma IdleHoldsRest(s: State)
    requires Inv(s) && s.producer.ProducerIdle? && s.consumer.ConsumerIdle?
    ensures s.removed + Contents(s.core) == s.inserted
  {
    forall i | 0 <= i < s.core.count ensures Contents(s.core)[i] == s.inserted[|s.removed| + i] {
      SlotAfter(|s.removed|, i, |s.core.data|);
    }
  }

  /** FIFO under every interleaving: what has come out is a prefix of what went in, the count
      stays within the size, an answer about free space or stored bytes stays good until it is
      used up, and whenever both threads are between calls the buffer holds the rest in order. */
  lemma EveryInterleavingIsFifo(storage: seq<byte>, steps: seq<Step>)
    requires |storage| < 0x1_0000 && Schedule(Fresh(storage), steps)
    ensures var s := Run(Fresh(storage), steps);
      && s.removed <= s.inserted
      && UnreadIntact(s)
      && s.core.count + s.credit <= |s.core.data| == |storage|
      && s.claim <= s.core.count
      && (s.producer.ProducerIdle? && s.consumer.ConsumerIdle? ==>
            InRange(s.core) && s.removed + Contents(s.core) == s.inserted)
  {
    RunKeepsInv(Fresh(storage), steps);
    RunKeepsSize(Fresh(storage), steps);
    var s := Run(Fresh(storage), steps);
    if s.producer.ProducerIdle? && s.consumer.ConsumerIdle? {
      IdleHoldsRest(s);
    }
  }

  lemma {:induction false} RunKeepsSize(s: State, steps: seq<Step>)
    ensures |Run(s, steps).core.data| == |s.core.data|
    decreases |steps|
  {
    if steps != [] {
      RunKeepsSize(Next(s, steps[0]), steps[1..]);
    }
  }

  /** No schedule lets an insert overwrite a byte that has not been read. */
  lemma NoUnreadByteIsOverwritten(storage: seq<byte>, steps: seq<Step>, b: byte, k: nat)
    requires |storage| < 0x1_0000 && Schedule(Fresh(storage), steps)
    requires var s := Run(Fresh(storage), steps);
      Enabled(s, Store(b)) && |s.removed| <= k < |s.inserted|
    ensures var s := Run(Fresh(storage), steps);
      Slot(k, |s.core.data|) != s.core.inp < |s.core.data|
  {
    RunKeepsInv(Fresh(storage), steps);
    StoreMissesUnread(Run(Fresh(storage), steps), k);
  }
}
