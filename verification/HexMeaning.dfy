/** What an accepted hex file means: the addresses the file format gives its data records,
    the last writer of each byte, the byte count, and the power of the line checksum. */
module HexMeaning {
  import opened Bytes
  import opened IntelHex

  // ----- the format's own account of addresses -----

  datatype Mode = Segmented(usba: nat) | Extended(ulba: nat)

  /** Absolute address of byte i of a data record, as the format defines it: offsets wrap within
      a segment, and within four gigabytes after an extended linear address. */
  function AddressOf(m: Mode, addr: nat, i: nat): nat {
    match m
    case Segmented(usba) => usba * 16 + (addr + i) % 0x1_0000
    case Extended(ulba) => (ulba * 0x1_0000 + addr + i) % TWO_TO_THE_32
  }

  function Meaning(d: Digest): Record {
    if d.Line? then d.rec else Ignored
  }

  /** The addressing mode in force after the first n lines: that of the last base record. */
  function ModeAfter(ds: seq<Digest>, n: nat): Mode
    requires n <= |ds|
  {
    if n == 0 then Segmented(0)
    else
      match Meaning(ds[n - 1])
      case Segment(v) => Segmented(v)
      case Linear(v) => Extended(v)
      case _ => ModeAfter(ds, n - 1)
  }

  /** The data records among the first n lines, each at its first absolute address. */
  function Writes(ds: seq<Digest>, n: nat): seq<Write>
    requires n <= |ds|
  {
    if n == 0 then []
    else
      match Meaning(ds[n - 1])
      case Data(addr, bs) => Writes(ds, n - 1) + [Write(AddressOf(ModeAfter(ds, n - 1), addr, 0), bs)]
      case _ => Writes(ds, n - 1)
  }

  /** The byte that the last of the writes covering a leaves there. */
  function Value(ws: seq<Write>, a: nat): Option<byte> {
    if ws == [] then None
    else
      var w := ws[|ws| - 1];
      if Covers(w, a) then Some(w.bytes[a - w.base]) else Value(ws[..|ws| - 1], a)
  }

  function TotalLength(ws: seq<Write>): nat {
    if ws == [] then 0 else TotalLength(ws[..|ws| - 1]) + |ws[|ws| - 1].bytes|
  }

  // ----- an accepted file leaves exactly that in the arrays -----

  predicate AllProper(ds: seq<Digest>) {
    forall d <- ds :: Proper(d)
  }

  ghost predicate AllAccepted(ds: seq<Digest>, n: nat)
    requires n <= |ds|
  {
    forall k | 0 <= k < n :: VerdictAt(ds, k) == Accepted
  }

  lemma {:induction false} FinishAccepts(ds: seq<Digest>, k: nat)
    requires k <= |ds| && AllAccepted(ds, k)
    ensures Finish(ds, k).1 == Accepted ==> AllAccepted(ds, Finish(ds, k).0)
    decreases |ds| - k
  {
    if k < |ds| && VerdictAt(ds, k) == Accepted && !ControlAfter(ds, k + 1).ended {
      FinishAccepts(ds, k + 1);
    }
  }

  function BaseOf(m: Mode): nat {
    match m
    case Segmented(v) => v * 16
    case Extended(v) => v * 0x1_0000
  }

  /** The loader's single base address stands for the format's two addressing modes. */
  lemma {:induction false} BaseIsMode(ds: seq<Digest>, n: nat)
    requires n <= |ds| && AllAccepted(ds, n)
    ensures ControlAfter(ds, n).ext == BaseOf(ModeAfter(ds, n))
  {
    if n > 0 {
      BaseIsMode(ds, n - 1);
      assert VerdictAt(ds, n - 1) == Accepted;
    }
  }

  lemma LowAddress(m: Mode, addr: nat, i: nat, len: nat)
    requires addr + BaseOf(m) + len < MAX_MEMORY_SIZE && i <= len
    ensures AddressOf(m, addr, i) == BaseOf(m) + addr + i
  {
  }

  lemma BoundWithoutWrap(h: Header, ext: nat)
    ensures PassesBound(h, ext) && !Wraps(h, ext) <==> h.addr + ext + h.len < MAX_MEMORY_SIZE
  {
  }

  lemma DataAcceptedIff(c: Control, d: Digest)
    requires d.Line? && d.rec.Data?
    ensures Judge(c, d).1 == Accepted <==> d.h.addr + c.ext + d.h.len < MAX_MEMORY_SIZE && d.sound
  {
    BoundWithoutWrap(d.h, c.ext);
  }

  /** Wherever a data record is accepted, the loader stores its bytes at the format's addresses,
      inside the image. */
  lemma AcceptedAddresses(ds: seq<Digest>, k: nat, i: nat)
    requires k < |ds| && AllProper(ds) && AllAccepted(ds, k + 1)
    requires Meaning(ds[k]).Data? && i < |Meaning(ds[k]).bytes|
    ensures var w := Stored(ControlAfter(ds, k), ds[k]); var r := Meaning(ds[k]);
      && w.Some? && w.value.bytes == r.bytes
      && w.value.base + i == AddressOf(ModeAfter(ds, k), r.addr, i) < MAX_MEMORY_SIZE - 1
  {
    StoredIsWrite(ds, k);
    LowAddress(ModeAfter(ds, k), ds[k].h.addr, i, ds[k].h.len);
  }

  lemma StoredIsWrite(ds: seq<Digest>, k: nat)
    requires k < |ds| && AllProper(ds) && AllAccepted(ds, k + 1) && Meaning(ds[k]).Data?
    ensures var h := ds[k].h;
      && Stored(ControlAfter(ds, k), ds[k]) == Some(Write(AddressOf(ModeAfter(ds, k), h.addr, 0), ds[k].rec.bytes))
      && AddressOf(ModeAfter(ds, k), h.addr, 0) == BaseOf(ModeAfter(ds, k)) + h.addr
      && BaseOf(ModeAfter(ds, k)) + h.addr + h.len < MAX_MEMORY_SIZE
      && |ds[k].rec.bytes| == h.len && ds[k].rec.addr == h.addr
  {
    var d := ds[k];
    assert Proper(d) && VerdictAt(ds, k) == Accepted;
    BaseIsMode(ds, k);
    DataAcceptedIff(ControlAfter(ds, k), d);
    BoundWithoutWrap(d.h, ControlAfter(ds, k).ext);
    LowAddress(ModeAfter(ds, k), d.h.addr, 0, d.h.len);
  }

  ghost predicate Shows(m: Memory, ws: seq<Write>)
    requires Sized(m)
  {
    forall a | 0 <= a < MAX_MEMORY_SIZE ::
      match Value(ws, a)
      case None => m.mask[a] == 0 && m.image[a] == 0xFF
      case Some(b) => m.mask[a] == 1 && m.image[a] == b
  }

  lemma PaintShows(m: Memory, ws: seq<Write>, w: Write)
    requires Sized(m) && Shows(m, ws) && w.base + |w.bytes| <= MAX_MEMORY_SIZE
    ensures Shows(Paint(m, Some(w)), ws + [w])
  {
    assert (ws + [w])[..|ws|] == ws;
    var r := Paint(m, Some(w));
    forall a | 0 <= a < MAX_MEMORY_SIZE
      ensures r.image[a] == if Covers(w, a) then w.bytes[a - w.base] else m.image[a]
      ensures r.mask[a] == if Covers(w, a) then 1 else m.mask[a]
    {
      OverlayAt(m.image, w.base, w.bytes, a);
      OverlayAt(m.mask, w.base, Fill(|w.bytes|, 1), a);
    }
  }

  lemma {:induction false} WritesFit(ds: seq<Digest>, n: nat)
    requires n <= |ds| && AllProper(ds) && AllAccepted(ds, n)
    ensures forall w <- Writes(ds, n) :: w.base + |w.bytes| < MAX_MEMORY_SIZE
  {
    if n > 0 {
      WritesFit(ds, n - 1);
      if Meaning(ds[n - 1]).Data? {
        StoredIsWrite(ds, n - 1);
      }
    }
  }

  lemma {:induction false} CountIsTotal(ds: seq<Digest>, n: nat)
    requires n <= |ds| && AllProper(ds) && AllAccepted(ds, n)
    ensures ControlAfter(ds, n).count == TotalLength(Writes(ds, n))
  {
    if n > 0 {
      CountIsTotal(ds, n - 1);
      var ws := Writes(ds, n - 1);
      assert VerdictAt(ds, n - 1) == Accepted;
      if Meaning(ds[n - 1]).Data? {
        StoredIsWrite(ds, n - 1);
        assert Writes(ds, n)[..|ws|] == ws;
      }
    }
  }

  /** Image and mask after n accepted lines are those of the data records so far. */
  lemma {:induction false} MemoryShowsWrites(ds: seq<Digest>, n: nat)
    requires n <= |ds| && AllProper(ds) && AllAccepted(ds, n)
    ensures Shows(MemoryAfter(ds, n), Writes(ds, n))
  {
    if n > 0 {
      MemoryShowsWrites(ds, n - 1);
      if Meaning(ds[n - 1]).Data? {
        StoredIsWrite(ds, n - 1);
        PaintShows(MemoryAfter(ds, n - 1), Writes(ds, n - 1), Stored(ControlAfter(ds, n - 1), ds[n - 1]).value);
      } else {
        assert Stored(ControlAfter(ds, n - 1), ds[n - 1]) == None;
      }
    }
  }

  /** Value is the last writer: the only thing it can be, stated by positions alone. */
  lemma {:induction false} ValueIsLastWriter(ws: seq<Write>, a: nat, k: nat)
    requires k < |ws| && Covers(ws[k], a)
    requires forall j | k < j < |ws| :: !Covers(ws[j], a)
    ensures Value(ws, a) == Some(ws[k].bytes[a - ws[k].base])
  {
    if k < |ws| - 1 {
      ValueIsLastWriter(ws[..|ws| - 1], a, k);
    }
  }

  lemma {:induction false} ValueNoneIff(ws: seq<Write>, a: nat)
    ensures Value(ws, a) == None <==> forall k | 0 <= k < |ws| :: !Covers(ws[k], a)
  {
    if ws != [] {
      ValueNoneIff(ws[..|ws| - 1], a);
      assert forall k | 0 <= k < |ws| - 1 :: ws[k] == ws[..|ws| - 1][k];
    }
  }

  /** The file reader, end to end: an accepted file puts the last data record's byte at every
      address the format assigns, and 0xFF with a clear mask everywhere else. */
  lemma LoadedFileMeansItsRecords(lines: seq<string>)
    requires Finish(Digests(lines), 0).1 == Accepted
    ensures var ds := Digests(lines); var n := Finish(ds, 0).0;
      && Shows(MemoryAfter(ds, n), Writes(ds, n))
      && ControlAfter(ds, n).count == TotalLength(Writes(ds, n))
      && AllProper(ds) && AllAccepted(ds, n)
  {
    var ds := Digests(lines);
    DigestsProper(lines);
    FinishAccepts(ds, 0);
    MemoryShowsWrites(ds, Finish(ds, 0).0);
    CountIsTotal(ds, Finish(ds, 0).0);
  }

  lemma DigestsProper(lines: seq<string>)
    ensures AllProper(Digests(lines))
  {
    forall i | 0 <= i < |lines| ensures Proper(Digests(lines)[i]) {
      DigestIsProper(lines[i]);
    }
  }

  /** Once a base of 64K or more is set, no further record is accepted, an end record included
      (the highest linear base excepted, where the bound check wraps around). */
  lemma HighBaseIsFinal(c: Control, line: string)
    requires MAX_MEMORY_SIZE <= c.ext <= 0xFFFE_0000 && line != ""
    ensures Judge(c, DigestOf(line)) == (c, Rejected) && Stored(c, DigestOf(line)) == None
  {
    DigestIsProper(line);
    NoDigestPasses(c, DigestOf(line));
  }

  lemma NoDigestPasses(c: Control, d: Digest)
    requires MAX_MEMORY_SIZE <= c.ext <= 0xFFFE_0000 && d != Blank && Proper(d)
    ensures Judge(c, d) == (c, Rejected) && Stored(c, d) == None
  {
    assert d.Line? ==> !PassesBound(d.h, c.ext);
  }

  // ----- the byte count -----

  ghost function Covered(ws: seq<Write>): set<nat> {
    if ws == [] then {} else Covered(ws[..|ws| - 1]) + Span(ws[|ws| - 1])
  }

  ghost function Interval(lo: nat, n: nat): (r: set<nat>)
    ensures forall a: nat :: a in r <==> lo <= a < lo + n
    ensures |r| == n
  {
    if n == 0 then {} else Interval(lo, n - 1) + {lo + n - 1}
  }

  ghost function Span(w: Write): set<nat> {
    Interval(w.base, |w.bytes|)
  }

  lemma {:induction false} CoveredIffValue(ws: seq<Write>, a: nat)
    ensures a in Covered(ws) <==> Value(ws, a).Some?
  {
    if ws != [] {
      CoveredIffValue(ws[..|ws| - 1], a);
    }
  }

  lemma UnionSize(x: set<nat>, y: set<nat>)
    ensures |x + y| <= |x| + |y|
    ensures |x + y| == |x| + |y| <==> x !! y
  {
    assert |x + y| == |x| + |y| - |x * y|;
  }

  predicate Overlap(v: Write, w: Write) {
    v.base < w.base + |w.bytes| && w.base < v.base + |v.bytes| && v.bytes != [] && w.bytes != []
  }

  ghost predicate PairwiseDisjoint(ws: seq<Write>) {
    forall i, j | 0 <= i < j < |ws| :: !Overlap(ws[i], ws[j])
  }

  lemma CommonAddress(ws: seq<Write>, w: Write, i: nat)
    requires i < |ws| && Overlap(ws[i], w)
    ensures !(Covered(ws) !! Span(w))
  {
    var a := if ws[i].base < w.base then w.base else ws[i].base;
    assert Covers(ws[i], a);
    ValueNoneIff(ws, a);
    CoveredIffValue(ws, a);
    assert a in Covered(ws) && a in Span(w);
  }

  lemma OverlapAtCommon(ws: seq<Write>, w: Write, a: nat) returns (k: nat)
    requires a in Covered(ws) && a in Span(w)
    ensures k < |ws| && Overlap(ws[k], w)
  {
    CoveredIffValue(ws, a);
    ValueNoneIff(ws, a);
    k :| 0 <= k < |ws| && Covers(ws[k], a);
  }

  lemma DisjointFromLast(ws: seq<Write>, w: Write)
    ensures Covered(ws) !! Span(w) <==> forall i | 0 <= i < |ws| :: !Overlap(ws[i], w)
  {
    forall i | 0 <= i < |ws| && Overlap(ws[i], w) ensures !(Covered(ws) !! Span(w)) {
      CommonAddress(ws, w, i);
    }
    forall a | a in Covered(ws) && a in Span(w) ensures exists i :: 0 <= i < |ws| && Overlap(ws[i], w) {
      var k := OverlapAtCommon(ws, w, a);
    }
  }

  /** The byte count is at least the number of addresses written, and equals it exactly when
      no two records overlap. */
  lemma {:induction false} CountVersusCovered(ws: seq<Write>)
    ensures |Covered(ws)| <= TotalLength(ws)
    ensures |Covered(ws)| == TotalLength(ws) <==> PairwiseDisjoint(ws)
  {
    if ws != [] {
      var front, w := ws[..|ws| - 1], ws[|ws| - 1];
      CountVersusCovered(front);
      UnionSize(Covered(front), Span(w));
      DisjointFromLast(front, w);
      assert PairwiseDisjoint(ws) <==>
               PairwiseDisjoint(front) && forall i | 0 <= i < |front| :: !Overlap(front[i], w) by {
        assert forall i | 0 <= i < |front| :: front[i] == ws[i];
      }
    }
  }

  ghost function Masked(m: Memory): set<nat>
    requires Sized(m)
  {
    set a: nat | a < MAX_MEMORY_SIZE && m.mask[a] == 1
  }

  lemma ByteCountMeaning(lines: seq<string>)
    requires Finish(Digests(lines), 0).1 == Accepted
    ensures var ds := Digests(lines); var n := Finish(ds, 0).0;
      && |Masked(MemoryAfter(ds, n))| <= ControlAfter(ds, n).count
      && (|Masked(MemoryAfter(ds, n))| == ControlAfter(ds, n).count <==> PairwiseDisjoint(Writes(ds, n)))
  {
    var ds := Digests(lines);
    var n := Finish(ds, 0).0;
    LoadedFileMeansItsRecords(lines);
    WritesFit(ds, n);
    MaskedIsCovered(MemoryAfter(ds, n), Writes(ds, n));
    CountVersusCovered(Writes(ds, n));
  }

  lemma MaskedIsCovered(m: Memory, ws: seq<Write>)
    requires Sized(m) && Shows(m, ws) && forall w <- ws :: w.base + |w.bytes| < MAX_MEMORY_SIZE
    ensures Masked(m) == Covered(ws)
  {
    forall a: nat ensures a in Masked(m) <==> a in Covered(ws) {
      CoveredIffValue(ws, a);
      if a in Covered(ws) {
        ValueNoneIff(ws, a);
      }
    }
  }

  // ----- the checksum -----

  /** The characters at 1 + 2i and 2 + 2i are hex digits for b. */
  predicate PairAt(line: string, i: nat, b: byte) {
    && 2 + 2 * i < |line| && IsHex(line[1 + 2 * i]) && IsHex(line[2 + 2 * i])
    && b == 16 * HexVal(line[1 + 2 * i]) + HexVal(line[2 + 2 * i])
  }

  /** line is a record made of the bytes bs: length, address, type, payload and checksum, each a
      pair of hex digits of either case, and anything may follow. */
  predicate Spells(line: string, bs: seq<byte>) {
    IsRecord(bs) && line != "" && line[0] == ':' && PairsUpTo(line, bs, |bs|)
  }

  predicate PairsUpTo(line: string, bs: seq<byte>, n: nat)
    requires n <= |bs|
  {
    n == 0 || (PairsUpTo(line, bs, n - 1) && PairAt(line, n - 1, bs[n - 1]))
  }

  lemma {:induction false} PairOf(line: string, bs: seq<byte>, n: nat, i: nat)
    requires i < n <= |bs| && PairsUpTo(line, bs, n)
    ensures PairAt(line, i, bs[i])
  {
    if i < n - 1 {
      PairOf(line, bs, n - 1, i);
    }
  }

  predicate IsRecord(bs: seq<byte>) {
    |bs| >= 5 && |bs| == 5 + Len(bs)
  }

  function Len(bs: seq<byte>): nat
    requires bs != []
  {
    bs[0]
  }

  function AddrOf(bs: seq<byte>): nat
    requires |bs| > 2
  {
    (bs[1] as nat) * 256 + bs[2]
  }

  function HeaderOf(bs: seq<byte>): Header
    requires |bs| >= 5
  {
    Header(bs[0], AddrOf(bs), bs[3])
  }

  lemma PairScans(line: string, bs: seq<byte>, i: nat)
    requires Spells(line, bs) && i < |bs|
    ensures Scan(line, 1 + 2 * i, 2) == Some(bs[i]) && 2 + 2 * i < |line|
  {
    PairOf(line, bs, |bs|, i);
    ScanTwo(line, 1 + 2 * i);
  }

  lemma {:induction false} PayloadSpelt(line: string, bs: seq<byte>, n: nat)
    requires Spells(line, bs) && n <= Len(bs)
    ensures Payload(line, n) == bs[4..4 + n]
  {
    if n > 0 {
      PayloadSpelt(line, bs, n - 1);
      PairScans(line, bs, 3 + n);
      assert bs[4..4 + (n - 1)] + [bs[3 + n]] == bs[4..4 + n];
    }
  }

  lemma HeaderSpelt(line: string, bs: seq<byte>)
    requires Spells(line, bs)
    ensures ParseHeader(line) == Some(HeaderOf(bs))
    ensures Scan(line, 9 + 2 * Len(bs), 2) == Some(bs[4 + Len(bs)])
  {
    PairScans(line, bs, 0);
    PairScans(line, bs, 3);
    PairScans(line, bs, 4 + Len(bs));
    PairOf(line, bs, |bs|, 1);
    PairOf(line, bs, |bs|, 2);
    ScanFour(line, 3);
  }

  lemma {:induction false} SumOfConcat(a: seq<byte>, b: seq<byte>)
    ensures SumOf(a + b) == SumOf(a) + SumOf(b)
  {
    if b == [] {
      assert a + b == a;
    } else {
      SumOfConcat(a, b[..|b| - 1]);
      assert (a + b)[..|a + b| - 1] == a + b[..|b| - 1];
    }
  }

  lemma SumOfFour(a: byte, b: byte, c: byte, d: byte)
    ensures SumOf([a, b, c, d]) == (a as nat) + b + c + d
  {
    assert [a, b, c, d][..3] == [a, b, c] && [a, b, c][..2] == [a, b] && [a, b][..1] == [a] && [a][..0] == [];
    calc {
      SumOf([a, b, c, d]);
      SumOf([a, b, c]) + d;
      SumOf([a, b]) + c + d;
      SumOf([a]) + b + c + d;
      SumOf([]) + a + b + c + d;
      (a as nat) + b + c + d;
    }
  }

  lemma SumOfLine(bs: seq<byte>)
    requires IsRecord(bs)
    ensures SumOf(bs) == HeaderSum(HeaderOf(bs)) + SumOf(bs[4..4 + Len(bs)]) + bs[4 + Len(bs)]
  {
    var n := 4 + Len(bs);
    assert bs[..n] == [bs[0], bs[1], bs[2], bs[3]] + bs[4..n];
    SumOfConcat([bs[0], bs[1], bs[2], bs[3]], bs[4..n]);
    SumOfFour(bs[0], bs[1], bs[2], bs[3]);
  }

  lemma SumDecides(bs: seq<byte>)
    requires IsRecord(bs)
    ensures ChecksumOk(HeaderSum(HeaderOf(bs)) + SumOf(bs[4..4 + Len(bs)]), Some(bs[4 + Len(bs)])) <==>
              SumOf(bs) % 256 == 0
  {
    SumOfLine(bs);
    ModAdds(HeaderSum(HeaderOf(bs)) + SumOf(bs[4..4 + Len(bs)]), bs[4 + Len(bs)]);
  }

  lemma ModAdds(x: nat, y: nat)
    ensures (x % 256 + y % 256) % 256 == (x + y) % 256
  {
    var q, r := x / 256 + y / 256, x % 256 + y % 256;
    assert x + y == 256 * q + r;
    if r >= 256 {
      assert x + y == 256 * (q + 1) + (r - 256);
    }
  }

  lemma DataDigestFrom(line: string, h: Header, payload: seq<byte>, ck: byte, sound: bool)
    requires line != "" && ParseHeader(line) == Some(h) && h.code == 0
    requires Payload(line, h.len) == payload && |payload| == h.len
    requires Scan(line, 9 + 2 * h.len, 2) == Some(ck)
    requires sound == ChecksumOk(HeaderSum(h) + SumOf(payload), Some(ck))
    ensures DigestOf(line) == Line(h, Data(h.addr, payload), sound)
  {
    DigestOfData(line, h);
    assert PayloadOk(line, h) == sound;
  }

  /** The digest of a data line spelt by bs. */
  lemma DataLineDigest(line: string, bs: seq<byte>)
    requires Spells(line, bs) && bs[3] == 0
    ensures DigestOf(line) == Line(HeaderOf(bs), Data(AddrOf(bs), bs[4..4 + Len(bs)]), SumOf(bs) % 256 == 0)
  {
    HeaderSpelt(line, bs);
    PayloadSpelt(line, bs, Len(bs));
    SumDecides(bs);
    DataDigestFrom(line, HeaderOf(bs), bs[4..4 + Len(bs)], bs[4 + Len(bs)], SumOf(bs) % 256 == 0);
  }

  /** A complete data line is accepted exactly when it fits below the top of the image and all
      its bytes, the checksum included, add up to zero modulo 256. */
  lemma DataLineAcceptedIff(c: Control, line: string, bs: seq<byte>)
    requires Spells(line, bs) && bs[3] == 0
    ensures Judge(c, DigestOf(line)).1 == Accepted <==>
              AddrOf(bs) + c.ext + Len(bs) < MAX_MEMORY_SIZE && SumOf(bs) % 256 == 0
    ensures c.ext < MAX_MEMORY_SIZE ==> Judge(c, DigestOf(line)).1 != OutsideImage
  {
    DataLineDigest(line, bs);
    DataAcceptedIff(c, DigestOf(line));
  }

  lemma SumOfUpdate(bs: seq<byte>, i: nat, b: byte)
    requires i < |bs|
    ensures bs[i] <= SumOf(bs) && SumOf(bs[i := b]) == SumOf(bs) - bs[i] + b
  {
    var front, back := bs[..i], bs[i + 1..];
    assert bs == front + [bs[i]] + back && bs[i := b] == front + [b] + back;
    SumOfConcat(front + [bs[i]], back);
    SumOfConcat(front + [b], back);
    SumOfConcat(front, [bs[i]]);
    SumOfConcat(front, [b]);
  }

  lemma NotBoth(sum: nat, x: byte, y: byte)
    requires x <= sum && sum % 256 == 0 && x != y
    ensures (sum - x + y) % 256 != 0
  {
  }

  /** Any change to one address, payload or checksum byte of an accepted data line is noticed. */
  lemma OneWrongByteIsRejected(c: Control, line: string, bs: seq<byte>, other: string, i: nat, b: byte)
    requires Spells(line, bs) && bs[3] == 0 && Judge(c, DigestOf(line)).1 == Accepted
    requires i < |bs| && i != 0 && i != 3 && b != bs[i]
    requires Spells(other, bs[i := b])
    ensures Judge(c, DigestOf(other)).1 == Rejected
  {
    DataLineAcceptedIff(c, line, bs);
    DataLineAcceptedIff(c, other, bs[i := b]);
    SumOfUpdate(bs, i, b);
    NotBoth(SumOf(bs), bs[i], b);
  }

  lemma OtherLineDigest(line: string, bs: seq<byte>)
    requires Spells(line, bs) && bs[3] != 0
    ensures var d := DigestOf(line);
      d.Line? && d.h == HeaderOf(bs) && !d.rec.Data? && (bs[3] == 1 ==> d.rec == EndOfFile)
  {
    HeaderSpelt(line, bs);
    DigestOfOther(line, HeaderOf(bs));
  }

  lemma JudgeOther(c: Control, d: Digest)
    requires d.Line? && !d.rec.Data?
    ensures Judge(c, d).1 == Accepted <==> PassesBound(d.h, c.ext)
    ensures PassesBound(d.h, c.ext) && d.rec == EndOfFile ==> Judge(c, d).0 == c.(ended := true)
  {
  }

  /** A changed record type, on the other hand, never is: a data line whose type byte reads as
      anything else is accepted, and with type 1 it ends the file. */
  lemma WrongTypeIsAccepted(c: Control, line: string, bs: seq<byte>, other: string, b: byte)
    requires Spells(line, bs) && bs[3] == 0 && Judge(c, DigestOf(line)).1 == Accepted
    requires b != 0 && Spells(other, bs[3 := b])
    ensures Judge(c, DigestOf(other)).1 == Accepted
    ensures b == 1 ==> Judge(c, DigestOf(other)).0 == c.(ended := true)
  {
    DataLineAcceptedIff(c, line, bs);
    OtherLineDigest(other, bs[3 := b]);
    SameExtent(bs, b);
    FitsPasses(HeaderOf(bs[3 := b]), c.ext);
    JudgeOther(c, DigestOf(other));
  }

  lemma SameExtent(bs: seq<byte>, b: byte)
    requires IsRecord(bs)
    ensures IsRecord(bs[3 := b]) && HeaderOf(bs[3 := b]) == Header(bs[0], AddrOf(bs), b)
  {
  }

  lemma FitsPasses(h: Header, ext: nat)
    requires h.addr + ext + h.len < MAX_MEMORY_SIZE
    ensures PassesBound(h, ext)
  {
  }

  // ----- which lines are records, and of what kind -----

  /** The length that a line claims: one or two hex digits behind the colon. */
  function LengthField(line: string): nat
    requires |line| > 2 && IsHex(line[1])
  {
    if IsHex(line[2]) then 16 * HexVal(line[1]) + HexVal(line[2]) else HexVal(line[1])
  }

  /** A colon, a hex digit where length, address and type begin, and room for what the length claims. */
  predicate Readable(line: string) {
    && |line| >= 11 && line[0] == ':' && IsHex(line[1]) && IsHex(line[3]) && IsHex(line[7])
    && |line| >= 11 + 2 * LengthField(line)
  }

  lemma LengthScans(line: string)
    requires |line| > 2 && IsHex(line[1])
    ensures Scan(line, 1, 2) == Some(LengthField(line))
  {
    ScanDigitsStep(line, 1, 1, 0);
    if IsHex(line[2]) {
      ScanDigitsStep(line, 2, 0, HexVal(line[1]));
    }
  }

  /** All other lines are rejected, whatever came before, and store nothing; an empty one is passed over. */
  lemma UnreadableIff(c: Control, line: string)
    requires line != ""
    ensures DigestOf(line) == Unreadable <==> !Readable(line)
    ensures !Readable(line) ==> Judge(c, DigestOf(line)) == (c, Rejected) && Stored(c, DigestOf(line)) == None
    ensures Judge(c, DigestOf("")) == (c, Accepted) && Stored(c, DigestOf("")) == None
  {
    if |line| > 2 && IsHex(line[1]) {
      LengthScans(line);
    }
  }

  lemma SumOfTwo(bs: seq<byte>, a: byte, b: byte)
    requires bs == [a, b]
    ensures SumOf(bs) == a + b
  {
    assert bs[..1] == [a] && [a][..0] == [];
    assert SumOf([a]) == SumOf([a][..0]) + a;
  }

  /** What a base record says: its two bytes as one number. */
  function BaseValue(bs: seq<byte>): nat
    requires |bs| > 5
  {
    256 * (bs[4] as nat) + bs[5]
  }

  lemma BaseValueScans(line: string, bs: seq<byte>)
    requires Spells(line, bs) && Len(bs) == 2
    ensures Scan(line, 9, 4) == Some(BaseValue(bs)) && Scan(line, 13, 2) == Some(bs[6])
  {
    PairOf(line, bs, |bs|, 4);
    PairOf(line, bs, |bs|, 5);
    ScanFour(line, 9);
    PairScans(line, bs, 6);
  }

  lemma BaseSum(bs: seq<byte>)
    requires IsRecord(bs) && Len(bs) == 2
    ensures ChecksumOk(HeaderSum(HeaderOf(bs)) + BaseValue(bs) / 256 % 256 + BaseValue(bs) % 256, Some(bs[6])) <==>
              SumOf(bs) % 256 == 0
  {
    SumDecides(bs);
    SumOfTwo(bs[4..6], bs[4], bs[5]);
    assert BaseValue(bs) / 256 % 256 == bs[4] && BaseValue(bs) % 256 == bs[5];
  }

  /** The kind of a complete line. A base record needs two bytes and a sum of zero, or it is passed over;
      an end record ends the file whatever it holds; types that the format does not have are passed
      over, and so are the start addresses. */
  lemma KindOfLine(line: string, bs: seq<byte>)
    requires Spells(line, bs) && bs[3] != 0
    ensures DigestOf(line).Line?
    ensures DigestOf(line).rec ==
      if bs[3] == 1 then EndOfFile
      else if bs[3] !in {2, 4} || Len(bs) != 2 || SumOf(bs) % 256 != 0 then Ignored
      else if bs[3] == 2 then Segment(BaseValue(bs))
      else Linear(BaseValue(bs))
  {
    OtherLineDigest(line, bs);
    HeaderSpelt(line, bs);
    if Len(bs) == 2 {
      BaseValueScans(line, bs);
      BaseSum(bs);
      KindFromFields(line, HeaderOf(bs), BaseValue(bs), bs[6]);
    }
  }

  lemma KindFromFields(line: string, h: Header, v: nat, ck: byte)
    requires h.len == 2 && h.code != 0 && Scan(line, 9, 4) == Some(v) && Scan(line, 13, 2) == Some(ck)
    ensures RecordOf(line, h) ==
      if h.code == 1 then EndOfFile
      else if h.code !in {2, 4} || !ChecksumOk(HeaderSum(h) + v / 256 % 256 + v % 256, Some(ck)) then Ignored
      else if h.code == 2 then Segment(v)
      else Linear(v)
  {
  }
}
