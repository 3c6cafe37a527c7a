/** The inverse of the reader: records written out as hex lines, and the round trips. */
module HexWriter {
  import opened Bytes
  import opened IntelHex
  import opened HexMeaning

  function Digit(n: nat): (c: char)
    requires n < 16
    ensures IsHex(c) && HexVal(c) == n
  {
    if n < 10 then '0' + n as char else 'A' + (n - 10) as char
  }

  function Pairs(bs: seq<byte>): (s: string)
    ensures |s| == 2 * |bs|
  {
    if bs == [] then ""
    else
      var b := bs[|bs| - 1];
      Pairs(bs[..|bs| - 1]) + [Digit(b / 16), Digit(b % 16)]
  }

  function WithChecksum(body: seq<byte>): seq<byte> {
    body + [(256 - SumOf(body) % 256) % 256]
  }

  predicate Writable(r: Record) {
    match r
    case Data(addr, bytes) => addr < 0x1_0000 && |bytes| < 256
    case EndOfFile => true
    case Segment(v) => v < 0x1_0000
    case Linear(v) => v < 0x1_0000
    case Ignored => false
  }

  function Body(r: Record): seq<byte>
    requires Writable(r)
  {
    match r
    case Data(addr, bytes) => [|bytes|, addr / 256, addr % 256, 0] + bytes
    case EndOfFile => [0, 0, 0, 1]
    case Segment(v) => [2, 0, 0, 2, v / 256, v % 256]
    case Linear(v) => [2, 0, 0, 4, v / 256, v % 256]
  }

  function Render(r: Record): string
    requires Writable(r)
  {
    ":" + Pairs(WithChecksum(Body(r)))
  }

  lemma {:induction false} PairsSpell(bs: seq<byte>, rest: string)
    ensures PairsUpTo(":" + Pairs(bs) + rest, bs, |bs|)
    decreases |bs|
  {
    if bs != [] {
      var front, b := bs[..|bs| - 1], bs[|bs| - 1];
      var tail := [Digit(b / 16), Digit(b % 16)] + rest;
      PairsSpell(front, tail);
      assert ":" + Pairs(bs) + rest == ":" + Pairs(front) + tail;
      PairsUpToSame(":" + Pairs(bs) + rest, front, bs, |front|);
    }
  }

  lemma {:induction false} PairsUpToSame(line: string, xs: seq<byte>, ys: seq<byte>, n: nat)
    requires n <= |xs| <= |ys| && ys[..|xs|] == xs && PairsUpTo(line, xs, n)
    ensures PairsUpTo(line, ys, n)
  {
    if n > 0 {
      PairsUpToSame(line, xs, ys, n - 1);
      assert ys[n - 1] == ys[..|xs|][n - 1];
    }
  }

  lemma BodyIsRecord(r: Record)
    requires Writable(r)
    ensures IsRecord(WithChecksum(Body(r)))
  {
  }

  lemma ChecksumCompletes(body: seq<byte>)
    ensures SumOf(WithChecksum(body)) % 256 == 0
  {
    var bs := WithChecksum(body);
    assert bs[..|bs| - 1] == body;
  }

  lemma PairsSpellLine(bs: seq<byte>, rest: string)
    requires IsRecord(bs)
    ensures Spells(":" + Pairs(bs) + rest, bs)
  {
    PairsSpell(bs, rest);
  }

  lemma RenderSpells(r: Record, rest: string)
    requires Writable(r)
    ensures Spells(Render(r) + rest, WithChecksum(Body(r)))
    ensures SumOf(WithChecksum(Body(r))) % 256 == 0
  {
    BodyIsRecord(r);
    ChecksumCompletes(Body(r));
    PairsSpellLine(WithChecksum(Body(r)), rest);
  }

  lemma BaseRecordScans(line: string, bs: seq<byte>)
    requires Spells(line, bs) && Len(bs) == 2
    ensures Scan(line, 9, 4) == Some((bs[4] as nat) * 256 + bs[5])
    ensures Scan(line, 13, 2) == Some(bs[6])
    ensures SumOf(bs) == HeaderSum(HeaderOf(bs)) + bs[4] + bs[5] + bs[6]
  {
    PairOf(line, bs, 7, 4);
    PairOf(line, bs, 7, 5);
    ScanFour(line, 9);
    PairScans(line, bs, 6);
    SumOfLine(bs);
    assert bs[4..6] == [bs[4], bs[5]];
    SumOfTwo(bs[4], bs[5]);
  }

  lemma SumOfTwo(a: byte, b: byte)
    ensures SumOf([a, b]) == (a as nat) + b
  {
    assert [a, b][..1] == [a] && [a][..0] == [];
    calc {
      SumOf([a, b]);
      SumOf([a]) + b;
      SumOf([]) + a + b;
    }
  }

  /** The digest of a line that was written for r. */
  predicate IsFor(d: Digest, r: Record) {
    && d.Line? && d.rec == r && (r.Data? ==> d.sound)
    && d.h.len + d.h.addr == Extent(r) && d.h.addr < 0x1_0000
  }

  /** Reading back one written record gives that record, whatever ends the line. */
  lemma RenderThenParse(r: Record, rest: string)
    requires Writable(r)
    ensures IsFor(DigestOf(Render(r) + rest), r)
  {
    RenderSpells(r, rest);
    SpeltRecordRead(Render(r) + rest, r);
  }

  lemma SpeltRecordRead(line: string, r: Record)
    requires Writable(r) && Spells(line, WithChecksum(Body(r))) && SumOf(WithChecksum(Body(r))) % 256 == 0
    ensures IsFor(DigestOf(line), r)
  {
    if r.Data? {
      SpeltDataRead(line, r);
    } else {
      SpeltOtherRead(line, r);
    }
  }

  lemma SpeltDataRead(line: string, r: Record)
    requires Writable(r) && r.Data?
    requires Spells(line, WithChecksum(Body(r))) && SumOf(WithChecksum(Body(r))) % 256 == 0
    ensures IsFor(DigestOf(line), r)
  {
    var bs := WithChecksum(Body(r));
    DataLineDigest(line, bs);
    assert bs[4..4 + Len(bs)] == r.bytes;
  }

  lemma SpeltOtherRead(line: string, r: Record)
    requires Writable(r) && !r.Data?
    requires Spells(line, WithChecksum(Body(r))) && SumOf(WithChecksum(Body(r))) % 256 == 0
    ensures IsFor(DigestOf(line), r)
  {
    var bs := WithChecksum(Body(r));
    HeaderSpelt(line, bs);
    DigestOfOther(line, HeaderOf(bs));
    if !r.EndOfFile? {
      BaseRecordRead(line, bs, bs[4] as nat * 256 + bs[5]);
    }
  }

  function Extent(r: Record): nat {
    match r
    case Data(addr, bs) => addr + |bs|
    case EndOfFile => 0
    case _ => 2
  }

  lemma BaseRecordRead(line: string, bs: seq<byte>, v: nat)
    requires Spells(line, bs) && Len(bs) == 2 && SumOf(bs) % 256 == 0
    requires v < 0x1_0000 && bs[4] == v / 256 && bs[5] == v % 256
    ensures Scan(line, 9, 4) == Some(v)
    ensures ChecksumOk(HeaderSum(HeaderOf(bs)) + v / 256 % 256 + v % 256, Scan(line, 13, 2))
  {
    BaseRecordScans(line, bs);
    PairChecksum(HeaderSum(HeaderOf(bs)), v, bs[6]);
  }

  lemma PairChecksum(s: nat, v: nat, ck: byte)
    requires v < 0x1_0000 && (s + v / 256 + v % 256 + ck) % 256 == 0
    ensures ChecksumOk(s + v / 256 % 256 + v % 256, Some(ck))
  {
    ModAdds(s + v / 256 % 256 + v % 256, ck);
  }

  // ----- whole files -----

  predicate Listable(rs: seq<Record>) {
    forall r <- rs :: Writable(r) && r != EndOfFile
  }

  function RecordAt(rs: seq<Record>, k: nat): Record {
    if k < |rs| then rs[k] else EndOfFile
  }

  /** The lines of a file, each with its line end. */
  function RenderFile(rs: seq<Record>, eol: string): seq<string>
    requires Listable(rs)
  {
    seq(|rs| + 1, i requires 0 <= i < |rs| + 1 => Render(RecordAt(rs, i)) + eol)
  }

  function Joined(lines: seq<string>): string {
    if lines == [] then "" else lines[0] + Joined(lines[1..])
  }

  predicate IsLine(line: string) {
    && 0 < |line| < BUFFER_SIZE && line[|line| - 1] == '\n'
    && forall i | 0 <= i < |line| - 1 :: line[i] != '\n'
  }

  lemma {:induction false} ChunkIsLine(line: string, rest: string, n: nat)
    requires IsLine(line) && n < |line|
    ensures ChunkLength(line + rest, n) == |line|
    decreases |line| - n
  {
    if n < |line| - 1 {
      ChunkIsLine(line, rest, n + 1);
    }
  }

  /** A text of lines that fit the buffer is delivered line by line. */
  lemma {:induction false} ChunksOfLines(lines: seq<string>)
    requires forall line <- lines :: IsLine(line)
    ensures Chunks(Joined(lines)) == lines
    decreases |lines|
  {
    if lines != [] {
      var line, rest := lines[0], Joined(lines[1..]);
      ChunkIsLine(line, rest, 0);
      assert (line + rest)[..|line|] == line && (line + rest)[|line|..] == rest;
      ChunksOfLines(lines[1..]);
    }
  }

  predicate IsLineEnd(eol: string) {
    eol == "\n" || eol == "\r\n"
  }

  lemma {:induction false} PairsHaveNoNewline(bs: seq<byte>)
    ensures forall i | 0 <= i < |Pairs(bs)| :: Pairs(bs)[i] != '\n'
  {
    if bs != [] {
      PairsHaveNoNewline(bs[..|bs| - 1]);
    }
  }

  lemma RenderedIsLine(r: Record, eol: string)
    requires Writable(r) && IsLineEnd(eol)
    ensures IsLine(Render(r) + eol)
  {
    PairsHaveNoNewline(WithChecksum(Body(r)));
    assert |Body(r)| < 260 && |Render(r)| == 1 + 2 * |WithChecksum(Body(r))|;
  }

  lemma FileIsLines(rs: seq<Record>, eol: string)
    requires Listable(rs) && IsLineEnd(eol)
    ensures Chunks(Joined(RenderFile(rs, eol))) == RenderFile(rs, eol)
  {
    forall line | line in RenderFile(rs, eol) ensures IsLine(line) {
      var i :| 0 <= i <= |rs| && line == RenderFile(rs, eol)[i];
      RenderedIsLine(RecordAt(rs, i), eol);
    }
    ChunksOfLines(RenderFile(rs, eol));
  }

  /** The digests of a written file as fgets delivers it. */
  function FileDigests(rs: seq<Record>, eol: string): seq<Digest>
    requires Listable(rs)
  {
    Digests(Chunks(Joined(RenderFile(rs, eol))))
  }

  function RecordMode(rs: seq<Record>, n: nat): Mode
    requires n <= |rs|
  {
    if n == 0 then Segmented(0)
    else
      match rs[n - 1]
      case Segment(v) => Segmented(v)
      case Linear(v) => Extended(v)
      case _ => RecordMode(rs, n - 1)
  }

  function RecordWrites(rs: seq<Record>, n: nat): seq<Write>
    requires n <= |rs|
  {
    if n == 0 then []
    else
      match rs[n - 1]
      case Data(addr, bs) => RecordWrites(rs, n - 1) + [Write(AddressOf(RecordMode(rs, n - 1), addr, 0), bs)]
      case _ => RecordWrites(rs, n - 1)
  }

  /** ds are digests of lines that were written for the records rs and an end record. */
  ghost predicate Written(rs: seq<Record>, ds: seq<Digest>) {
    && Listable(rs) && |ds| == |rs| + 1
    && forall k | 0 <= k < |ds| :: IsFor(ds[k], RecordAt(rs, k))
  }

  lemma FileIsWritten(rs: seq<Record>, eol: string)
    requires Listable(rs) && IsLineEnd(eol)
    ensures Written(rs, FileDigests(rs, eol))
  {
    FileIsLines(rs, eol);
    forall k | 0 <= k <= |rs| ensures IsFor(DigestOf(Render(RecordAt(rs, k)) + eol), RecordAt(rs, k)) {
      RenderThenParse(RecordAt(rs, k), eol);
    }
  }

  lemma {:induction false} FileMeaning(rs: seq<Record>, ds: seq<Digest>, n: nat)
    requires Written(rs, ds) && n <= |rs|
    ensures ModeAfter(ds, n) == RecordMode(rs, n)
    ensures Writes(ds, n) == RecordWrites(rs, n)
    ensures BaseOf(RecordMode(rs, n)) <= 0xFFFF_0000
  {
    if n > 0 {
      FileMeaning(rs, ds, n - 1);
      assert Writable(rs[n - 1]) && Meaning(ds[n - 1]) == rs[n - 1];
    }
  }

  /** A record fits if it stays below the top of the image, whatever its type. */
  predicate FitsAt(rs: seq<Record>, k: nat)
    requires k <= |rs|
  {
    BaseOf(RecordMode(rs, k)) + Extent(RecordAt(rs, k)) < MAX_MEMORY_SIZE
  }

  predicate FitsFrom(rs: seq<Record>, k: nat)
    requires k <= |rs|
    decreases |rs| - k
  {
    FitsAt(rs, k) && (k < |rs| ==> FitsFrom(rs, k + 1))
  }

  /** A line for the record r, read with the base of its mode. */
  lemma JudgeWritten(c: Control, d: Digest, r: Record)
    requires IsFor(d, r) && r != Ignored && c.ext <= 0xFFFF_0000
    ensures Judge(c, d).1 == Accepted <==> c.ext + Extent(r) < MAX_MEMORY_SIZE
    ensures Judge(c, d).1 == Accepted ==> Judge(c, d).0.ended == (r == EndOfFile || c.ended)
  {
  }

  lemma LineAcceptedIffFits(rs: seq<Record>, ds: seq<Digest>, k: nat)
    requires Written(rs, ds) && k <= |rs| && AllAccepted(ds, k)
    ensures VerdictAt(ds, k) == Accepted <==> FitsAt(rs, k)
    ensures VerdictAt(ds, k) == Accepted ==> ControlAfter(ds, k + 1).ended == (k == |rs| || ControlAfter(ds, k).ended)
  {
    FileMeaning(rs, ds, k);
    BaseIsMode(ds, k);
    assert k < |rs| ==> rs[k] in rs;
    JudgeWritten(ControlAfter(ds, k), ds[k], RecordAt(rs, k));
  }

  /** Reading goes on past a record exactly when it fits. */
  lemma {:induction false} FinishFrom(rs: seq<Record>, ds: seq<Digest>, k: nat)
    requires Written(rs, ds) && k <= |rs| && AllAccepted(ds, k) && !ControlAfter(ds, k).ended
    ensures Finish(ds, k).1 == Accepted <==> FitsFrom(rs, k)
    ensures Finish(ds, k).1 == Accepted ==> Finish(ds, k).0 == |rs| + 1
    decreases |rs| - k
  {
    LineAcceptedIffFits(rs, ds, k);
    if FitsAt(rs, k) && k < |rs| {
      FinishFrom(rs, ds, k + 1);
    }
  }

  /** A written file is accepted exactly when every record of it fits, and then it is read to the
      end, as the records that were written. */
  lemma WriteThenRead(rs: seq<Record>, eol: string)
    requires Listable(rs) && IsLineEnd(eol)
    ensures var ds := FileDigests(rs, eol);
      && (Finish(ds, 0).1 == Accepted <==> FitsFrom(rs, 0))
      && (FitsFrom(rs, 0) ==> Finish(ds, 0).0 == |rs| + 1)
      && |ds| == |rs| + 1 && Writes(ds, |rs| + 1) == RecordWrites(rs, |rs|)
  {
    var ds := FileDigests(rs, eol);
    FileIsWritten(rs, eol);
    FinishFrom(rs, ds, 0);
    FileMeaning(rs, ds, |rs|);
    assert ds[|rs|].rec == EndOfFile;
  }

  // ----- a contiguous image -----

  /** Where the last line of n bytes begins, at width bytes a line. */
  function Cut(n: nat, width: nat): (at: nat)
    requires n > 0 && width > 0
    ensures at < n <= at + width
    decreases n
  {
    if n <= width then 0 else width + Cut(n - width, width)
  }

  /** The image from address 0 in lines of at most width bytes. */
  function ImageRecords(image: seq<byte>, width: nat): seq<Record>
    requires width > 0
    decreases |image|
  {
    if image == [] then []
    else
      var at := Cut(|image|, width);
      ImageRecords(image[..at], width) + [Data(at, image[at..])]
  }

  lemma {:induction false} ImageRecordsFit(image: seq<byte>, width: nat)
    requires 0 < width < 256 && |image| < MAX_MEMORY_SIZE
    ensures var rs := ImageRecords(image, width);
      && Listable(rs) && (forall r <- rs :: r.Data?)
      && (forall k | 0 <= k < |rs| :: Extent(rs[k]) <= |image|)
    decreases |image|
  {
    if image != [] {
      ImageRecordsFit(image[..Cut(|image|, width)], width);
    }
  }

  lemma {:induction false} NoBaseRecords(rs: seq<Record>, n: nat)
    requires n <= |rs| && forall r <- rs :: r.Data?
    ensures RecordMode(rs, n) == Segmented(0)
  {
    if n > 0 {
      NoBaseRecords(rs, n - 1);
      assert rs[n - 1] in rs;
    }
  }

  lemma {:induction false} WritesOfPrefix(rs: seq<Record>, qs: seq<Record>, n: nat)
    requires n <= |qs|
    ensures RecordMode(qs + rs, n) == RecordMode(qs, n) && RecordWrites(qs + rs, n) == RecordWrites(qs, n)
  {
    if n > 0 {
      WritesOfPrefix(rs, qs, n - 1);
    }
  }

  /** The writes of an image are those of its front and one for its last line. */
  lemma ImageWrites(image: seq<byte>, width: nat)
    requires 0 < width < 256 && 0 < |image| < MAX_MEMORY_SIZE
    ensures var at := Cut(|image|, width);
      ImageWriteList(image, width) == ImageWriteList(image[..at], width) + [Write(at, image[at..])]
  {
    var at := Cut(|image|, width);
    ImageRecordsFit(image[..at], width);
    LastDataWrite(ImageRecords(image[..at], width), at, image[at..]);
  }

  lemma LastDataWrite(qs: seq<Record>, at: nat, bs: seq<byte>)
    requires at < MAX_MEMORY_SIZE && forall q <- qs :: q.Data?
    ensures RecordWrites(qs + [Data(at, bs)], |qs| + 1) == RecordWrites(qs, |qs|) + [Write(at, bs)]
  {
    var rs := qs + [Data(at, bs)];
    NoBaseRecords(qs, |qs|);
    WritesOfPrefix([Data(at, bs)], qs, |qs|);
    assert rs[|qs|] == Data(at, bs);
    WriteAtZeroBase(RecordWrites(qs, |qs|), at, bs);
  }

  lemma WriteAtZeroBase(ws: seq<Write>, at: nat, bs: seq<byte>)
    requires at < MAX_MEMORY_SIZE
    ensures ws + [Write(AddressOf(Segmented(0), at, 0), bs)] == ws + [Write(at, bs)]
  {
  }

  function ImageWriteList(image: seq<byte>, width: nat): seq<Write>
    requires width > 0
  {
    RecordWrites(ImageRecords(image, width), |ImageRecords(image, width)|)
  }

  lemma {:induction false} ImageValue(image: seq<byte>, width: nat, a: nat)
    requires 0 < width < 256 && |image| < MAX_MEMORY_SIZE
    ensures Value(ImageWriteList(image, width), a) == if a < |image| then Some(image[a]) else None
    decreases |image|
  {
    if image != [] {
      var at := Cut(|image|, width);
      ImageWrites(image, width);
      ImageValue(image[..at], width, a);
      ValueAfter(ImageWriteList(image[..at], width), Write(at, image[at..]), a);
    }
  }

  lemma ValueAfter(ws: seq<Write>, w: Write, a: nat)
    ensures Value(ws + [w], a) == if Covers(w, a) then Some(w.bytes[a - w.base]) else Value(ws, a)
    ensures TotalLength(ws + [w]) == TotalLength(ws) + |w.bytes|
  {
    assert (ws + [w])[..|ws|] == ws;
  }

  lemma {:induction false} ImageLength(image: seq<byte>, width: nat)
    requires 0 < width < 256 && |image| < MAX_MEMORY_SIZE
    ensures TotalLength(ImageWriteList(image, width)) == |image|
    decreases |image|
  {
    if image != [] {
      var at := Cut(|image|, width);
      ImageWrites(image, width);
      ImageLength(image[..at], width);
      ValueAfter(ImageWriteList(image[..at], width), Write(at, image[at..]), 0);
    }
  }

  ghost predicate HoldsImage(m: Memory, image: seq<byte>)
    requires Sized(m) && |image| <= MAX_MEMORY_SIZE
  {
    && (forall a | 0 <= a < |image| :: m.mask[a] == 1 && m.image[a] == image[a])
    && (forall a | |image| <= a < MAX_MEMORY_SIZE :: m.mask[a] == 0 && m.image[a] == 0xFF)
  }

  /** Any image below the top of memory, written out at any line width with either line end and read
      back, is itself;
      the rest of the arrays stays erased, and the byte count is its length. */
  lemma ImageRoundTrip(image: seq<byte>, width: nat, eol: string)
    requires 0 < width < 256 && |image| < MAX_MEMORY_SIZE && IsLineEnd(eol)
    ensures var rs := ImageRecords(image, width);
      && Listable(rs)
      && var ds := FileDigests(rs, eol); var (n, v) := Finish(ds, 0);
      && v == Accepted && ControlAfter(ds, n).count == |image| && HoldsImage(MemoryAfter(ds, n), image)
  {
    var rs := ImageRecords(image, width);
    ImageRecordsFit(image, width);
    ImageFits(rs, |image|, 0);
    FileReadBack(rs, eol);
    ImageLength(image, width);
    var ds := FileDigests(rs, eol);
    ShowsImage(MemoryAfter(ds, Finish(ds, 0).0), image, width);
  }

  /** What a written file that fits leaves in the arrays. */
  lemma FileReadBack(rs: seq<Record>, eol: string)
    requires Listable(rs) && IsLineEnd(eol) && FitsFrom(rs, 0)
    ensures var ds := FileDigests(rs, eol); var (n, v) := Finish(ds, 0); var ws := RecordWrites(rs, |rs|);
      v == Accepted && ControlAfter(ds, n).count == TotalLength(ws) && Shows(MemoryAfter(ds, n), ws)
  {
    WriteThenRead(rs, eol);
    LoadedFileMeansItsRecords(Chunks(Joined(RenderFile(rs, eol))));
  }

  lemma ShowsImage(m: Memory, image: seq<byte>, width: nat)
    requires 0 < width < 256 && |image| < MAX_MEMORY_SIZE && Sized(m) && Shows(m, ImageWriteList(image, width))
    ensures HoldsImage(m, image)
  {
    forall a: nat ensures Value(ImageWriteList(image, width), a) == if a < |image| then Some(image[a]) else None {
      ImageValue(image, width, a);
    }
  }

  lemma {:induction false} ImageFits(rs: seq<Record>, top: nat, k: nat)
    requires k <= |rs| && top < MAX_MEMORY_SIZE && forall r <- rs :: r.Data?
    requires forall i | 0 <= i < |rs| :: Extent(rs[i]) <= top
    ensures FitsFrom(rs, k)
    decreases |rs| - k
  {
    NoBaseRecords(rs, k);
    if k < |rs| {
      ImageFits(rs, top, k + 1);
    }
  }
}
