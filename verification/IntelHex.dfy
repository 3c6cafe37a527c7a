/** Reading firmware files in the Intel Hexadecimal Object File Format (Specification Rev. A):
    the line parser of the host loader, the array-filling loops, and what a file means. */
module IntelHex {
  import opened Bytes

  const MAX_MEMORY_SIZE := 0x1_0000
  const TWO_TO_THE_32 := 0x1_0000_0000

  // ----- characters and fields -----

  predicate IsHex(c: char) {
    '0' <= c <= '9' || 'A' <= c <= 'F' || 'a' <= c <= 'f'
  }

  function HexVal(c: char): (v: nat)
    requires IsHex(c)
    ensures v < 16
  {
    if c <= '9' then (c - '0') as nat
    else if c <= 'F' then (c - 'A') as nat + 10
    else (c - 'a') as nat + 10
  }

  /** A digit stands for its place among the sixteen, whichever case it is written in. */
  lemma DigitValues(n: nat)
    requires n < 16
    ensures var (upper, lower) := ("0123456789ABCDEF"[n], "0123456789abcdef"[n]);
      IsHex(upper) && IsHex(lower) && HexVal(upper) == HexVal(lower) == n
  {
    var upper, lower := "0123456789ABCDEF", "0123456789abcdef";
    if n < 10 {
      assert upper[n] == lower[n] == '0' + n as char;
    } else {
      assert upper[n] == 'A' + (n - 10) as char && lower[n] == 'a' + (n - 10) as char;
    }
  }

  function ScanDigits(line: string, p: nat, width: nat, acc: nat): nat
    decreases width
  {
    if width == 0 || p >= |line| || !IsHex(line[p]) then acc
    else ScanDigits(line, p + 1, width - 1, 16 * acc + HexVal(line[p]))
  }

  /** sscanf with a "%0<width>x" conversion at p: as many hex digits as there are, up to width. */
  function Scan(line: string, p: nat, width: nat): Option<nat> {
    if p < |line| && IsHex(line[p]) then Some(ScanDigits(line, p, width, 0)) else None
  }

  lemma ScanTwo(line: string, p: nat)
    ensures Scan(line, p, 2).Some? ==> Scan(line, p, 2).value < 256
    ensures p + 1 < |line| && IsHex(line[p]) && IsHex(line[p + 1]) ==>
              Scan(line, p, 2) == Some(16 * HexVal(line[p]) + HexVal(line[p + 1]))
  {
    if p < |line| && IsHex(line[p]) {
      assert ScanDigits(line, p, 2, 0) == ScanDigits(line, p + 1, 1, HexVal(line[p]));
      var acc := HexVal(line[p]);
      if p + 1 < |line| && IsHex(line[p + 1]) {
        assert ScanDigits(line, p + 1, 1, acc) == ScanDigits(line, p + 2, 0, 16 * acc + HexVal(line[p + 1]));
      }
    }
  }

  lemma {:induction false} ScanDigitsStep(line: string, p: nat, w: nat, acc: nat)
    requires p < |line| && IsHex(line[p])
    ensures ScanDigits(line, p, w + 1, acc) == ScanDigits(line, p + 1, w, 16 * acc + HexVal(line[p]))
  {
  }

  lemma {:induction false} ScanDigitsBound(line: string, p: nat, w: nat, acc: nat, bound: nat)
    requires acc < bound
    ensures w == 0 ==> ScanDigits(line, p, w, acc) < bound
    ensures w == 1 ==> ScanDigits(line, p, w, acc) < 16 * bound
    ensures w == 2 ==> ScanDigits(line, p, w, acc) < 256 * bound
    ensures w == 3 ==> ScanDigits(line, p, w, acc) < 4096 * bound
    decreases w
  {
    if w > 0 && p < |line| && IsHex(line[p]) {
      ScanDigitsBound(line, p + 1, w - 1, 16 * acc + HexVal(line[p]), 16 * bound);
    }
  }

  lemma ScanFour(line: string, p: nat)
    ensures Scan(line, p, 4).Some? ==> Scan(line, p, 4).value < 0x1_0000
    ensures p + 3 < |line| && IsHex(line[p]) && IsHex(line[p + 1]) && IsHex(line[p + 2]) && IsHex(line[p + 3]) ==>
              Scan(line, p, 4) == Some(256 * (16 * HexVal(line[p]) + HexVal(line[p + 1]))
                                       + (16 * HexVal(line[p + 2]) + HexVal(line[p + 3])))
  {
    if p < |line| && IsHex(line[p]) {
      ScanDigitsStep(line, p, 3, 0);
      ScanDigitsBound(line, p + 1, 3, HexVal(line[p]), 16);
    }
    if p + 3 < |line| && IsHex(line[p]) && IsHex(line[p + 1]) && IsHex(line[p + 2]) && IsHex(line[p + 3]) {
      var a := HexVal(line[p]);
      var b := 16 * a + HexVal(line[p + 1]);
      var c := 16 * b + HexVal(line[p + 2]);
      ScanDigitsStep(line, p + 1, 2, a);
      ScanDigitsStep(line, p + 2, 1, b);
      ScanDigitsStep(line, p + 3, 0, c);
    }
  }

  // ----- one line -----

  datatype Header = Header(len: byte, addr: nat, code: byte)

  function ParseHeader(line: string): (h: Option<Header>)
    ensures h.Some? ==> |line| >= 11 + 2 * h.value.len && h.value.addr < 0x1_0000
  {
    ScanTwo(line, 1);
    ScanFour(line, 3);
    ScanTwo(line, 7);
    if |line| < 11 || line[0] != ':' then None
    else
      match Scan(line, 1, 2)
      case None => None
      case Some(len) =>
        if |line| < 11 + 2 * len then None
        else
          match (Scan(line, 3, 4), Scan(line, 7, 2))
          case (Some(addr), Some(code)) => Some(Header(len, addr, code))
          case _ => None
  }

  /** Addresses are computed in 32-bit unsigned arithmetic. */
  predicate PassesBound(h: Header, ext: nat) {
    (h.addr + ext + h.len) % TWO_TO_THE_32 < MAX_MEMORY_SIZE
  }

  predicate Wraps(h: Header, ext: nat) {
    h.addr + ext + h.len >= TWO_TO_THE_32
  }

  /** The bound check keeps every store inside the arrays unless the sum wraps around, and
      that takes the highest extended linear address. */
  lemma BoundCheckExact(h: Header, v: nat, linear: bool)
    requires h.addr < 0x1_0000 && v < 0x1_0000
    ensures var ext := if linear then v * 0x1_0000 else v * 16;
      && (PassesBound(h, ext) && h.len > 0 ==>
           ((h.addr + ext) % TWO_TO_THE_32 + h.len <= MAX_MEMORY_SIZE <==> !Wraps(h, ext)))
      && (Wraps(h, ext) ==> linear && v == 0xFFFF && PassesBound(h, ext))
  {
  }

  function HeaderSum(h: Header): nat {
    h.len + h.addr / 256 % 256 + h.addr % 256 + h.code
  }

  function SumOf(bs: seq<byte>): nat {
    if bs == [] then 0 else SumOf(bs[..|bs| - 1]) + bs[|bs| - 1]
  }

  /** The first n payload bytes, or as many as come before something that is no hex number. */
  function Payload(line: string, n: nat): (bs: seq<byte>)
    ensures |bs| <= n
  {
    if n == 0 then []
    else
      var bs := Payload(line, n - 1);
      ScanTwo(line, 7 + 2 * n);
      if |bs| < n - 1 || Scan(line, 7 + 2 * n, 2).None? then bs
      else bs + [Scan(line, 7 + 2 * n, 2).value]
  }

  predicate ChecksumOk(sum: nat, cksum: Option<nat>) {
    cksum.Some? && (sum % 256 + cksum.value % 256) % 256 == 0
  }

  datatype Write = Write(base: nat, bytes: seq<byte>)

  predicate Covers(w: Write, a: nat) {
    w.base <= a < w.base + |w.bytes|
  }

  datatype Record = Data(addr: nat, bytes: seq<byte>) | EndOfFile | Segment(usba: nat) | Linear(ulba: nat) | Ignored

  /** What a line with a readable header stands for. A base address record with a wrong
      checksum is passed over; a checksum on an end record is not looked at. */
  function RecordOf(line: string, h: Header): Record {
    if h.code == 0 then Data(h.addr, Payload(line, h.len))
    else if h.code == 1 then EndOfFile
    else
      match Scan(line, 9, 4)
      case None => Ignored
      case Some(v) =>
        if h.len != 2 || !ChecksumOk(HeaderSum(h) + v / 256 % 256 + v % 256, Scan(line, 13, 2)) then Ignored
        else if h.code == 2 then Segment(v)
        else if h.code == 4 then Linear(v)
        else Ignored
  }

  /** All that parse_hex_line takes from a line. sound: the payload is complete and so is the
      checksum, which matches. */
  datatype Digest = Blank | Unreadable | Line(h: Header, rec: Record, sound: bool)

  predicate Sound(h: Header, payload: seq<byte>, cksum: Option<nat>) {
    |payload| == h.len && ChecksumOk(HeaderSum(h) + SumOf(payload), cksum)
  }

  predicate PayloadOk(line: string, h: Header) {
    Sound(h, Payload(line, h.len), Scan(line, 9 + 2 * h.len, 2))
  }

  function DigestOf(line: string): Digest {
    if line == "" then Blank
    else
      match ParseHeader(line)
      case None => Unreadable
      case Some(h) => Line(h, RecordOf(line, h), h.code == 0 && PayloadOk(line, h))
  }

  lemma DigestOfData(line: string, h: Header)
    requires line != "" && ParseHeader(line) == Some(h) && h.code == 0
    ensures DigestOf(line) == Line(h, Data(h.addr, Payload(line, h.len)), PayloadOk(line, h))
  {
  }

  lemma DigestOfOther(line: string, h: Header)
    requires line != "" && ParseHeader(line) == Some(h) && h.code != 0
    ensures DigestOf(line) == Line(h, RecordOf(line, h), false) && !RecordOf(line, h).Data?
    ensures h.code == 1 ==> RecordOf(line, h) == EndOfFile
  {
  }

  /** What every digest of a line satisfies. */
  predicate Proper(d: Digest) {
    d.Line? ==>
      && d.h.addr < 0x1_0000
      && (d.rec.Data? ==> d.rec.addr == d.h.addr && |d.rec.bytes| <= d.h.len && (d.sound ==> |d.rec.bytes| == d.h.len))
      && (d.rec.Segment? ==> d.rec.usba < 0x1_0000)
      && (d.rec.Linear? ==> d.rec.ulba < 0x1_0000)
  }

  lemma DigestIsProper(line: string)
    ensures Proper(DigestOf(line))
  {
    ScanFour(line, 9);
  }

  // ----- effect of a line -----

  datatype Verdict = Accepted | Rejected | OutsideImage

  datatype Control = Control(count: nat, ext: nat, ended: bool)

  const START := Control(0, 0, false)

  /** The verdict of parse_hex_line and its effect on everything but the two arrays.
      OutsideImage marks a store whose address computation wrapped around. */
  function Judge(c: Control, d: Digest): (Control, Verdict) {
    match d
    case Blank => (c, Accepted)
    case Unreadable => (c, Rejected)
    case Line(h, rec, sound) =>
      if !PassesBound(h, c.ext) then (c, Rejected)
      else
        match rec
        case EndOfFile => (c.(ended := true), Accepted)
        case Segment(v) => (c.(ext := v * 16), Accepted)
        case Linear(v) => (c.(ext := v * 0x1_0000), Accepted)
        case Ignored => (c, Accepted)
        case Data(_, _) =>
          if Wraps(h, c.ext) then (c, OutsideImage)
          else (c.(count := c.count + h.len), if sound then Accepted else Rejected)
  }

  /** What the line puts into the image; the payload is stored before its checksum is looked at. */
  function Stored(c: Control, d: Digest): Option<Write> {
    if d.Line? && d.rec.Data? && PassesBound(d.h, c.ext) && !Wraps(d.h, c.ext)
    then Some(Write(d.h.addr + c.ext, d.rec.bytes))
    else None
  }

  /** A line that fails the bound check, or passes it by wrapping round, has no effect. */
  lemma JudgeStopped(c: Control, d: Digest)
    requires d.Line?
    ensures !PassesBound(d.h, c.ext) ==> Judge(c, d) == (c, Rejected) && Stored(c, d) == None
    ensures PassesBound(d.h, c.ext) && Wraps(d.h, c.ext) && d.rec.Data? ==>
              Judge(c, d) == (c, OutsideImage) && Stored(c, d) == None
  {
  }

  lemma JudgeData(c: Control, h: Header, bytes: seq<byte>, sound: bool)
    requires h.addr + c.ext + h.len < MAX_MEMORY_SIZE
    ensures var d := Line(h, Data(h.addr, bytes), sound);
      && Judge(c, d) == (c.(count := c.count + h.len), if sound then Accepted else Rejected)
      && Stored(c, d) == Some(Write(h.addr + c.ext, bytes))
  {
  }

  /** Image and mask. */
  datatype Memory = Memory(image: seq<byte>, mask: seq<byte>)

  predicate Sized(m: Memory) {
    |m.image| == |m.mask| == MAX_MEMORY_SIZE
  }

  function Fill(n: nat, b: byte): seq<byte> {
    seq(n, _ => b)
  }

  function Erased(): Memory {
    Memory(Fill(MAX_MEMORY_SIZE, 0xFF), Fill(MAX_MEMORY_SIZE, 0))
  }

  function Overlay(a: seq<byte>, base: nat, bs: seq<byte>): (r: seq<byte>)
    requires base + |bs| <= |a|
    ensures |r| == |a|
  {
    if bs == [] then a
    else
      var last := |bs| - 1;
      Overlay(a, base, bs[..last])[base + last := bs[last]]
  }

  lemma OverlayOneMore(a: seq<byte>, base: nat, bs: seq<byte>, b: byte)
    requires base + |bs| < |a|
    ensures Overlay(a, base, bs + [b]) == Overlay(a, base, bs)[base + |bs| := b]
  {
    assert (bs + [b])[..|bs|] == bs;
  }

  lemma {:induction false} OverlayAt(a: seq<byte>, base: nat, bs: seq<byte>, i: nat)
    requires base + |bs| <= |a| && i < |a|
    ensures Overlay(a, base, bs)[i] == if base <= i < base + |bs| then bs[i - base] else a[i]
  {
    if bs != [] {
      OverlayAt(a, base, bs[..|bs| - 1], i);
    }
  }

  function Paint(m: Memory, w: Option<Write>): (r: Memory)
    requires Sized(m)
    ensures Sized(r)
  {
    match w
    case Some(Write(base, bytes)) =>
      if base + |bytes| <= MAX_MEMORY_SIZE
      then Memory(Overlay(m.image, base, bytes), Overlay(m.mask, base, Fill(|bytes|, 1)))
      else m
    case None => m
  }

  lemma PaintOneMore(m: Memory, base: nat, bs: seq<byte>, b: byte)
    requires Sized(m) && base + |bs| < MAX_MEMORY_SIZE
    ensures var r := Paint(m, Some(Write(base, bs)));
      Paint(m, Some(Write(base, bs + [b]))) ==
        Memory(r.image[base + |bs| := b], r.mask[base + |bs| := 1])
  {
    OverlayOneMore(m.image, base, bs, b);
    OverlayOneMore(m.mask, base, Fill(|bs|, 1), 1);
    assert Fill(|bs|, 1) + [1] == Fill(|bs| + 1, 1);
  }

  // ----- a whole file -----

  const BUFFER_SIZE := 1024

  /** How much of the text the next fgets takes, when it has taken n characters: up to a newline, as
      much as fits the buffer, or all there is. */
  function ChunkLength(text: string, n: nat): (len: nat)
    requires n <= |text| && n < BUFFER_SIZE
    ensures n <= len <= |text| && (n < |text| && n < BUFFER_SIZE - 1 ==> len > n)
    decreases |text| - n
  {
    if n == |text| || n == BUFFER_SIZE - 1 then n
    else if text[n] == '\n' then n + 1
    else ChunkLength(text, n + 1)
  }

  /** What fgets delivers of a text, call by call. */
  function Chunks(text: string): seq<string>
    decreases |text|
  {
    if text == "" then []
    else
      var n := ChunkLength(text, 0);
      [text[..n]] + Chunks(text[n..])
  }

  function Digests(lines: seq<string>): seq<Digest> {
    seq(|lines|, i requires 0 <= i < |lines| => DigestOf(lines[i]))
  }

  /** After the first n lines have been gone through. */
  function ControlAfter(ds: seq<Digest>, n: nat): Control
    requires n <= |ds|
  {
    if n == 0 then START else Judge(ControlAfter(ds, n - 1), ds[n - 1]).0
  }

  function MemoryAfter(ds: seq<Digest>, n: nat): (m: Memory)
    requires n <= |ds|
    ensures Sized(m)
  {
    if n == 0 then Erased()
    else Paint(MemoryAfter(ds, n - 1), Stored(ControlAfter(ds, n - 1), ds[n - 1]))
  }

  function VerdictAt(ds: seq<Digest>, k: nat): Verdict
    requires k < |ds|
  {
    Judge(ControlAfter(ds, k), ds[k]).1
  }

  /** The chunk that is read next is the next of all chunks. */
  lemma NextChunk(rest: string, lines: seq<string>, k: nat)
    requires rest != "" && k <= |lines| && Chunks(rest) == lines[k..]
    ensures var n := ChunkLength(rest, 0);
      0 < n && k < |lines| && rest[..n] == lines[k] && Chunks(rest[n..]) == lines[k + 1..]
  {
    assert Chunks(rest)[1..] == lines[k + 1..];
  }

  /** Reading on from line k: how many lines are read in all, and the verdict on the file. */
  function Finish(ds: seq<Digest>, k: nat): (r: (nat, Verdict))
    requires k <= |ds|
    ensures k <= r.0 <= |ds|
    decreases |ds| - k
  {
    if k == |ds| then (k, Accepted)
    else if VerdictAt(ds, k) != Accepted then (k + 1, VerdictAt(ds, k))
    else if ControlAfter(ds, k + 1).ended then (k + 1, Accepted)
    else Finish(ds, k + 1)
  }

  datatype ReadResult = CannotOpen | ParseError | Loaded(bytes: nat) | Undefined

  class HexImage {
    const image: array<byte>
    const mask: array<byte>
    var byteCount: nat
    var extendedAddr: nat
    var endRecordSeen: bool

    ghost predicate Valid() {
      image.Length == mask.Length == MAX_MEMORY_SIZE && image != mask
    }

    ghost function Mem(): (m: Memory)
      requires Valid()
      reads image, mask
      ensures Sized(m)
    {
      Memory(image[..], mask[..])
    }

    ghost function Ctl(): Control
      reads this
    {
      Control(byteCount, extendedAddr, endRecordSeen)
    }

    constructor ()
      ensures Valid() && fresh(image) && fresh(mask)
    {
      image := new byte[MAX_MEMORY_SIZE];
      mask := new byte[MAX_MEMORY_SIZE];
      byteCount, extendedAddr, endRecordSeen := 0, 0, false;
    }

    /** The part of parse_hex_line that handles a data record. */
    method ParseData(line: string, h: Header, ghost d: Digest) returns (v: Verdict)
      requires Valid() && h.addr + extendedAddr + h.len < MAX_MEMORY_SIZE
      requires d == Line(h, Data(h.addr, Payload(line, h.len)), PayloadOk(line, h))
      modifies this`byteCount, image, mask
      ensures (Ctl(), v) == Judge(old(Ctl()), d)
      ensures Mem() == Paint(old(Mem()), Stored(old(Ctl()), d))
    {
      JudgeData(Ctl(), h, d.rec.bytes, d.sound);
      byteCount := byteCount + h.len;
      var sound := StoreAndCheck(line, h);
      v := if sound then Accepted else Rejected;
    }

    method StoreAndCheck(line: string, h: Header) returns (sound: bool)
      requires Valid() && h.addr + extendedAddr + h.len < MAX_MEMORY_SIZE
      modifies image, mask
      ensures sound == PayloadOk(line, h)
      ensures Mem() == Paint(old(Mem()), Some(Write(h.addr + extendedAddr, Payload(line, h.len))))
    {
      var complete, sum := StorePayload(line, h.addr + extendedAddr, h.len, HeaderSum(h));
      sound := complete && ChecksumOk(sum, Scan(line, 9 + 2 * h.len, 2));
    }

    /** The loop over the payload; false if it meets something that is no hex number. */
    method StorePayload(line: string, base: nat, len: byte, start: nat) returns (complete: bool, sum: nat)
      requires Valid() && base + len <= MAX_MEMORY_SIZE
      modifies image, mask
      ensures Mem() == Paint(old(Mem()), Some(Write(base, Payload(line, len))))
      ensures complete == (|Payload(line, len)| == len)
      ensures complete ==> sum == start + SumOf(Payload(line, len))
    {
      sum := start;
      var num := 0;
      ghost var bs := [];
      while num != len
        invariant 0 <= num == |bs| <= len && bs == Payload(line, num)
        invariant Mem() == Paint(old(Mem()), Some(Write(base, bs)))
        invariant sum == start + SumOf(bs)
        decreases len - num
      {
        PayloadGrows(line, num, len);
        var i := Scan(line, 9 + 2 * num, 2);
        if i.None? {
          return false, sum;
        }
        PaintOneMore(old(Mem()), base, bs, i.value);
        image[base + num] := i.value;
        mask[base + num] := 1;
        sum := sum + i.value;
        bs := bs + [i.value];
        num := num + 1;
      }
      return true, sum;
    }

    /** The part of parse_hex_line that handles the other record types; none is ever an error. */
    method ParseNonData(line: string, h: Header, ghost d: Digest)
      requires Valid() && h.code != 0 && PassesBound(h, extendedAddr)
      requires d.Line? && d.h == h && d.rec == RecordOf(line, h)
      modifies this`endRecordSeen, this`extendedAddr
      ensures (Ctl(), Accepted) == Judge(old(Ctl()), d)
      ensures Mem() == Paint(old(Mem()), Stored(old(Ctl()), d))
    {
      if h.code == 1 {
        endRecordSeen := true;
      } else if (h.code == 2 || h.code == 4) && h.len == 2 {
        var value := Scan(line, 9, 4);
        if value.None? {
          return;
        }
        var sum := HeaderSum(h) + value.value / 256 % 256 + value.value % 256;
        var cksum := Scan(line, 13, 2);
        if cksum.None? || (sum % 256 + cksum.value % 256) % 256 != 0 {
          return;
        }
        extendedAddr := if h.code == 2 then value.value * 16 else value.value * 0x1_0000;
      }
    }

    /** parse_hex_line from the bound check on. */
    method ParseRecord(line: string, h: Header, ghost d: Digest) returns (v: Verdict)
      requires Valid() && d.Line? && d.h == h
      requires h.code == 0 ==> d == Line(h, Data(h.addr, Payload(line, h.len)), PayloadOk(line, h))
      requires h.code != 0 ==> d.rec == RecordOf(line, h) && !d.rec.Data?
      modifies this, image, mask
      ensures (Ctl(), v) == Judge(old(Ctl()), d)
      ensures Mem() == Paint(old(Mem()), Stored(old(Ctl()), d))
    {
      JudgeStopped(Ctl(), d);
      if (h.addr + extendedAddr + h.len) % TWO_TO_THE_32 >= MAX_MEMORY_SIZE {
        v := Rejected;
      } else if h.code != 0 {
        ParseNonData(line, h, d);
        v := Accepted;
      } else if Wraps(h, extendedAddr) {
        v := OutsideImage;
      } else {
        v := ParseData(line, h, d);
      }
    }

    method ParseHexLine(line: string) returns (v: Verdict)
      requires Valid() && line != ""
      modifies this, image, mask
      ensures (Ctl(), v) == Judge(old(Ctl()), DigestOf(line))
      ensures Mem() == Paint(old(Mem()), Stored(old(Ctl()), DigestOf(line)))
    {
      var header := ParseHeader(line);
      if header.None? {
        return Rejected;
      }
      if header.value.code == 0 {
        DigestOfData(line, header.value);
      } else {
        DigestOfOther(line, header.value);
      }
      v := ParseRecord(line, header.value, DigestOf(line));
    }

    method Reset()
      requires Valid()
      modifies this, image, mask
      ensures Mem() == Erased() && Ctl() == START
    {
      byteCount, endRecordSeen, extendedAddr := 0, false, 0;
      for i := 0 to MAX_MEMORY_SIZE
        invariant byteCount == 0 && !endRecordSeen && extendedAddr == 0
        invariant image[..i] == Fill(i, 0xFF) && mask[..i] == Fill(i, 0)
      {
        image[i] := 0xFF;
        mask[i] := 0;
      }
      assert image[..] == image[..MAX_MEMORY_SIZE] && mask[..] == mask[..MAX_MEMORY_SIZE];
    }

    method ReadLine(buf: string, ghost lines: seq<string>, ghost k: nat) returns (v: Verdict)
      requires Valid() && buf != "" && k < |lines| && lines[k] == buf
      requires Mem() == MemoryAfter(Digests(lines), k) && Ctl() == ControlAfter(Digests(lines), k)
      modifies this, image, mask
      ensures Mem() == MemoryAfter(Digests(lines), k + 1) && Ctl() == ControlAfter(Digests(lines), k + 1)
      ensures v == VerdictAt(Digests(lines), k)
    {
      v := ParseHexLine(buf);
    }

    /** The file is its text; None if it cannot be opened. */
    method ReadIntelHex(file: Option<string>) returns (r: ReadResult)
      requires Valid()
      modifies this, image, mask
      ensures match file
        case None => r == CannotOpen
        case Some(text) =>
          var ds := Digests(Chunks(text));
          var (n, v) := Finish(ds, 0);
          && Mem() == MemoryAfter(ds, n) && Ctl() == ControlAfter(ds, n)
          && r == match v
                  case Accepted => Loaded(ControlAfter(ds, n).count)
                  case Rejected => ParseError
                  case OutsideImage => Undefined
    {
      Reset();
      if file.None? {
        return CannotOpen;
      }
      var rest := file.value;
      ghost var lines, k := Chunks(file.value), 0;
      ghost var ds := Digests(lines);
      while rest != ""
        invariant 0 <= k <= |lines| && Chunks(rest) == lines[k..]
        invariant Mem() == MemoryAfter(ds, k) && Ctl() == ControlAfter(ds, k)
        invariant Finish(ds, 0) == Finish(ds, k)
        decreases |rest|
      {
        var n := ChunkLength(rest, 0);
        NextChunk(rest, lines, k);
        var v := ReadLine(rest[..n], lines, k);
        rest := rest[n..];
        k := k + 1;
        if v != Accepted {
          return if v == Rejected then ParseError else Undefined;
        }
        if endRecordSeen {
          return Loaded(byteCount);
        }
      }
      return Loaded(byteCount);
    }
  }

  lemma {:induction false} PayloadGrows(line: string, m: nat, n: nat)
    requires m < n && |Payload(line, m)| == m
    ensures Scan(line, 9 + 2 * m, 2).Some? ==> Scan(line, 9 + 2 * m, 2).value < 256
    ensures Scan(line, 9 + 2 * m, 2).None? ==> Payload(line, n) == Payload(line, m)
    ensures Scan(line, 9 + 2 * m, 2).Some? ==>
              Payload(line, m + 1) == Payload(line, m) + [Scan(line, 9 + 2 * m, 2).value]
    decreases n
  {
    ScanTwo(line, 9 + 2 * m);
    if m < n - 1 {
      PayloadGrows(line, m, n - 1);
    }
  }
}
