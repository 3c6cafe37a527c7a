/** A whole firmware update: the host reads a hex file and sends the pages that matter, the device
    programs them, and the flash ends up as the file says. */
module Update {
  import opened Bytes
  import opened IntelHex
  import opened HexMeaning
  import opened HexWriter
  import opened Bootloader

  // ----- what the host sends -----

  /** ihex_bytes_within_range */
  predicate BytesWithinRange(m: Memory, begin: nat, end: nat)
    requires Sized(m)
  {
    begin < MAX_MEMORY_SIZE && end < MAX_MEMORY_SIZE && exists i :: begin <= i <= end && m.mask[i] != 0
  }

  /** ihex_get_data; a block that reaches the very top of the image is refused as a whole. */
  function GetData(m: Memory, addr: nat, len: nat): (d: seq<byte>)
    requires Sized(m)
    ensures |d| == len
  {
    if addr + len >= MAX_MEMORY_SIZE then Fill(len, 0xFF)
    else seq(len, i requires 0 <= i < len => if m.mask[addr + i] != 0 then m.image[addr + i] else 0xFF)
  }

  /** The two address bytes of a report, low byte first. */
  function AddressWord(p: Part, addr: nat): nat {
    if p.codeSize < 0x1_0000 then addr % 0x1_0000 else addr / 256 % 0x1_0000
  }

  /** Unused blocks are skipped, but the first one is always sent. */
  predicate Sent(m: Memory, p: Part, addr: nat)
    requires Sized(m) && Supported(p)
  {
    addr == 0 || BytesWithinRange(m, addr, addr + p.pageSize - 1)
  }

  predicate IsBlock(p: Part, addr: nat)
    requires Supported(p)
  {
    addr <= p.codeSize && PageOffset(p, addr) == 0
  }

  /** The flash after the blocks below addr have been dealt with. */
  function FlashAfter(flash: seq<byte>, m: Memory, p: Part, addr: nat): (r: seq<byte>)
    requires Supported(p) && |flash| == p.codeSize && Sized(m) && IsBlock(p, addr)
    ensures |r| == |flash|
  {
    if addr == 0 then flash
    else
      var prev := addr - p.pageSize;
      var f := FlashAfter(flash, m, p, prev);
      if Sent(m, p, prev) then Programmed(p, f, PageAddress(p, AddressWord(p, prev)), GetData(m, prev, p.pageSize))
      else f
  }

  /** The report cut into packets of an even number of bytes. half gives half of each packet's
      size, less one; what the list does not cover comes in one last packet. */
  function Cut(report: seq<byte>, half: seq<nat>): seq<seq<byte>> {
    if report == [] then []
    else if half == [] || 2 * half[0] + 2 >= |report| then [report]
    else [report[..2 * half[0] + 2]] + Cut(report[2 * half[0] + 2..], half[1..])
  }

  lemma OnePacketMore(first: seq<byte>, rest: seq<seq<byte>>)
    requires first != [] && |first| % 2 == 0 && Packets(rest)
    ensures Packets([first] + rest) && Flat([first] + rest) == first + Flat(rest)
  {
    assert ([first] + rest)[1..] == rest;
  }

  lemma OnePacket(report: seq<byte>)
    requires report != [] && |report| % 2 == 0
    ensures Packets([report]) && Flat([report]) == report
  {
    assert [report][1..] == [];
    assert Flat([]) == [];
  }

  lemma {:induction false} CutIsPackets(report: seq<byte>, half: seq<nat>)
    requires |report| % 2 == 0
    ensures Packets(Cut(report, half)) && Flat(Cut(report, half)) == report
    decreases half
  {
    if report != [] && (half == [] || 2 * half[0] + 2 >= |report|) {
      OnePacket(report);
    } else if report != [] {
      var size := 2 * half[0] + 2;
      var first, rest := report[..size], report[size..];
      CutIsPackets(rest, half[1..]);
      OnePacketMore(first, Cut(rest, half[1..]));
      assert Cut(report, half) == [first] + Cut(rest, half[1..]);
      assert first + rest == report;
    }
  }

  lemma CutFirst(first: seq<byte>, rest: seq<byte>, half: seq<nat>)
    requires first != [] && |first| % 2 == 0 && rest != []
    ensures Cut(first + rest, [(|first| - 2) / 2] + half) == [first] + Cut(rest, half)
  {
    var all, halves := first + rest, [(|first| - 2) / 2] + half;
    assert all[..|first|] == first && all[|first|..] == rest && halves[1..] == half;
    assert 2 * halves[0] + 2 == |first|;
  }

  lemma FlatNotEmpty(ps: seq<seq<byte>>)
    requires Packets(ps) && ps != []
    ensures Flat(ps) != []
  {
    assert ps[0] in ps;
  }

  /** Every way to send a report in non-empty packets of even size is one of these. */
  lemma {:induction false} EveryPackingIsACut(ps: seq<seq<byte>>) returns (half: seq<nat>)
    requires Packets(ps)
    ensures Cut(Flat(ps), half) == ps
    decreases |ps|
  {
    if ps == [] {
      half := [];
    } else if |ps| == 1 {
      OnePacket(ps[0]);
      assert ps == [ps[0]];
      half := [];
    } else {
      var rest := EveryPackingIsACut(ps[1..]);
      FlatNotEmpty(ps[1..]);
      CutFirst(ps[0], Flat(ps[1..]), rest);
      half := [(|ps[0]| - 2) / 2] + rest;
      assert ps == [ps[0]] + ps[1..];
    }
  }

  // ----- the host program -----

  class Loader {
    const hex: HexImage

    constructor (h: HexImage)
      ensures hex == h
    {
      hex := h;
    }

    method WithinRange(begin: int, end: int) returns (found: bool)
      requires hex.Valid() && begin <= end
      ensures found <==> begin >= 0 && BytesWithinRange(hex.Mem(), begin, end)
    {
      if begin < 0 || begin >= MAX_MEMORY_SIZE || end < 0 || end >= MAX_MEMORY_SIZE {
        return false;
      }
      var i := begin;
      while i <= end
        invariant begin <= i <= end + 1
        invariant forall j | begin <= j < i :: hex.mask[j] == 0
      {
        if hex.mask[i] != 0 {
          return true;
        }
        i := i + 1;
      }
      return false;
    }

    method GetBytes(addr: nat, len: nat, bytes: array<byte>, at: nat)
      requires hex.Valid() && at + len <= bytes.Length && bytes != hex.image && bytes != hex.mask
      modifies bytes
      ensures bytes[at..at + len] == GetData(hex.Mem(), addr, len)
      ensures bytes[..at] == old(bytes[..at])
    {
      if addr + len >= MAX_MEMORY_SIZE {
        for i := 0 to len
          invariant bytes[..at] == old(bytes[..at])
          invariant bytes[at..at + i] == Fill(i, 0xFF)
        {
          bytes[at + i] := 255;
        }
        return;
      }
      for i := 0 to len
        invariant bytes[..at] == old(bytes[..at])
        invariant forall j | 0 <= j < i :: bytes[at + j] == GetData(hex.Mem(), addr, len)[j]
      {
        bytes[at + i] := if hex.mask[addr + i] != 0 then hex.image[addr + i] else 255;
      }
    }

    /** The body of the programming loop for a block that is sent. */
    method SendBlock(dev: Device, buf: array<byte>, addr: nat, half: seq<nat>)
      requires hex.Valid() && dev.Valid() && IsBlock(dev.part, addr) && addr < dev.part.codeSize
      requires buf.Length == 260 && buf != dev.flash && buf != hex.image && buf != hex.mask
      requires dev.flash != hex.image && dev.flash != hex.mask
      modifies buf, dev, dev.flash, dev.buffer
      ensures dev.running == old(dev.running)
      ensures dev.flash[..] == Programmed(dev.part, old(dev.flash[..]),
                                          PageAddress(dev.part, AddressWord(dev.part, addr)),
                                          GetData(old(hex.Mem()), addr, dev.part.pageSize))
    {
      var p := dev.part;
      buf[0], buf[1] := LowByte(AddressWord(p, addr)), HighByte(AddressWord(p, addr));
      GetBytes(addr, p.pageSize, buf, 2);
      var report := buf[..2 + p.pageSize];
      assert report[0] == buf[..2][0] && report[1] == buf[..2][1] && report[2..] == buf[2..2 + p.pageSize];
      PageCommandNotStart(p, addr);
      Deliver(dev, report, half);
    }

    /** The programming loop of main. */
    method Program(dev: Device, half: nat -> seq<nat>)
      requires hex.Valid() && dev.Valid()
      requires dev.flash != hex.image && dev.flash != hex.mask
      modifies dev, dev.flash, dev.buffer
      ensures dev.flash[..] == FlashAfter(old(dev.flash[..]), old(hex.Mem()), dev.part, dev.part.codeSize)
      ensures dev.running == old(dev.running)
    {
      var p := dev.part;
      var buf := new byte[260];
      var addr := 0;
      ghost var m, flash0 := hex.Mem(), dev.flash[..];
      while addr < p.codeSize
        invariant IsBlock(p, addr) && hex.Mem() == m && dev.running == old(dev.running)
        invariant dev.flash[..] == FlashAfter(flash0, m, p, addr)
      {
        BlockStep(p, addr);
        var used := addr == 0;
        if !used {
          used := WithinRange(addr, addr + p.pageSize - 1);
        }
        if used {
          SendBlock(dev, buf, addr, half(addr));
        }
        addr := addr + p.pageSize;
      }
    }
  }

  lemma BlockStep(p: Part, addr: nat)
    requires Supported(p) && IsBlock(p, addr) && addr < p.codeSize
    ensures IsBlock(p, addr + p.pageSize)
  {
  }

  /** teensy_write: the report reaches the device as a SET_REPORT request in some packets. */
  method Deliver(dev: Device, report: seq<byte>, half: seq<nat>)
    requires dev.Valid() && |report| == 2 + dev.part.pageSize
    requires Word(report[0], report[1]) != COMMAND_STARTAPPLICATION
    modifies dev, dev.flash, dev.buffer
    ensures dev.running == old(dev.running)
    ensures dev.flash[..] == Programmed(dev.part, old(dev.flash[..]),
                                        PageAddress(dev.part, Word(report[0], report[1])), report[2..])
  {
    CutIsPackets(report, half);
    WholeTail(report, dev.part.pageSize);
    var packets := Cut(report, half);
    dev.incoming := packets;
    dev.ControlRequest(0x21, SET_REPORT, report);
  }

  lemma WholeTail(report: seq<byte>, size: nat)
    requires |report| == 2 + size
    ensures report[2..2 + size] == report[2..]
  {
  }

  /** No page is ever taken for the command that starts the application. */
  lemma PageCommandNotStart(p: Part, addr: nat)
    requires Supported(p) && IsBlock(p, addr) && addr < p.codeSize
    ensures AddressWord(p, addr) != COMMAND_STARTAPPLICATION
    ensures Word(LowByte(AddressWord(p, addr)), HighByte(AddressWord(p, addr))) == AddressWord(p, addr)
  {
  }

  // ----- where a page goes -----

  /** The page address survives the trip to the device on every part but one: for 64K parts the
      host sends units of 256 bytes, and the device takes them for bytes. */
  lemma PageAddressArrivesIff(p: Part, addr: nat)
    requires Supported(p) && IsBlock(p, addr) && addr < p.codeSize
    ensures PageAddress(p, AddressWord(p, addr)) == addr <==> (p.codeSize != 0x1_0000 || addr == 0)
  {
  }

  /** What a block contributes to the flash when its address arrives. */
  lemma ProgrammedAligned(p: Part, flash: seq<byte>, addr: nat, data: seq<byte>, i: nat)
    requires Supported(p) && IsBlock(p, addr) && addr < p.codeSize && |flash| == p.codeSize && |data| == p.pageSize
    requires i < p.codeSize
    ensures Programmed(p, flash, addr, data)[i] == if addr <= i < addr + p.pageSize then data[i - addr] else flash[i]
  {
    AlignedBase(p, addr);
    if addr <= i < addr + p.pageSize {
      AlignedDataIndex(p, addr, i - addr);
    }
  }

  lemma AlignedBase(p: Part, addr: nat)
    requires Supported(p) && IsBlock(p, addr) && addr < p.codeSize
    ensures PageBase(p, addr) == addr
  {
  }

  /** The block that holds address i. */
  function BlockOf(p: Part, i: nat): nat
    requires Supported(p)
  {
    i - PageOffset(p, i)
  }

  lemma BlockOfIs(p: Part, i: nat, addr: nat)
    requires Supported(p) && PageOffset(p, addr) == 0
    ensures BlockOf(p, i) == addr <==> addr <= i < addr + p.pageSize
  {
    if p.pageSize == 128 {
      Multiple128(i, addr);
    } else {
      Multiple256(i, addr);
    }
  }

  lemma Multiple128(i: nat, addr: nat)
    requires addr % 128 == 0
    ensures i - i % 128 == addr <==> addr <= i < addr + 128
  {
  }

  lemma Multiple256(i: nat, addr: nat)
    requires addr % 256 == 0
    ensures i - i % 256 == addr <==> addr <= i < addr + 256
  {
  }

  /** One more block leaves all bytes alone but its own. */
  lemma FlashStep(flash: seq<byte>, m: Memory, p: Part, prev: nat, i: nat)
    requires Supported(p) && p.codeSize != 0x1_0000 && |flash| == p.codeSize && Sized(m)
    requires IsBlock(p, prev) && prev < p.codeSize && IsBlock(p, prev + p.pageSize) && i < p.codeSize
    ensures FlashAfter(flash, m, p, prev + p.pageSize)[i] ==
              if prev <= i < prev + p.pageSize && Sent(m, p, prev) then GetData(m, prev, p.pageSize)[i - prev]
              else FlashAfter(flash, m, p, prev)[i]
  {
    PageAddressArrivesIff(p, prev);
    ProgrammedAligned(p, FlashAfter(flash, m, p, prev), prev, GetData(m, prev, p.pageSize), i);
  }

  /** On parts where addresses arrive, each byte of flash is decided by its own block alone. */
  lemma {:induction false} FlashByBlock(flash: seq<byte>, m: Memory, p: Part, addr: nat, i: nat)
    requires Supported(p) && p.codeSize != 0x1_0000 && |flash| == p.codeSize && Sized(m)
    requires IsBlock(p, addr) && i < p.codeSize
    ensures FlashAfter(flash, m, p, addr)[i] ==
              if i < addr && Sent(m, p, BlockOf(p, i)) then GetData(m, BlockOf(p, i), p.pageSize)[i - BlockOf(p, i)]
              else flash[i]
    decreases addr
  {
    if addr > 0 {
      var prev := addr - p.pageSize;
      FlashByBlock(flash, m, p, prev, i);
      FlashStep(flash, m, p, prev, i);
      BlockOfIs(p, i, prev);
    }
  }

  ghost predicate BlockUsed(p: Part, ws: seq<Write>, i: nat)
    requires Supported(p)
  {
    BlockOf(p, i) == 0 || PageUsed(p, ws, BlockOf(p, i))
  }

  /** The device now holds what the file says: a covered address its last byte, an uncovered one
      0xFF if its page was sent and its old contents otherwise; a page is sent if the file has a
      byte in it, and the first one always is. */
  ghost predicate Faithful(p: Part, before: seq<byte>, after: seq<byte>, ws: seq<Write>, i: nat)
    requires Supported(p) && i < |before| == |after|
  {
    after[i] ==
      match Value(ws, i)
      case Some(b) => b
      case None => if BlockUsed(p, ws, i) then 0xFF else before[i]
  }

  ghost predicate PageUsed(p: Part, ws: seq<Write>, addr: nat) {
    exists j :: addr <= j < addr + p.pageSize && j < MAX_MEMORY_SIZE && Value(ws, j).Some?
  }

  lemma SentIffUsed(p: Part, m: Memory, ws: seq<Write>, addr: nat)
    requires Supported(p) && Sized(m) && Shows(m, ws) && PageOffset(p, addr) == 0
    ensures Sent(m, p, addr) <==> addr == 0 || PageUsed(p, ws, addr)
  {
    if addr + p.pageSize <= MAX_MEMORY_SIZE {
      if j :| addr <= j < addr + p.pageSize && j < MAX_MEMORY_SIZE && Value(ws, j).Some? {
        assert m.mask[j] != 0;
      }
      if j :| addr <= j <= addr + p.pageSize - 1 && m.mask[j] != 0 {
        assert Value(ws, j).Some?;
      }
    }
  }

  lemma BlockData(p: Part, m: Memory, ws: seq<Write>, i: nat)
    requires Supported(p) && Sized(m) && Shows(m, ws) && i < MAX_MEMORY_SIZE
    ensures var d := GetData(m, BlockOf(p, i), p.pageSize)[i - BlockOf(p, i)];
      if BlockOf(p, i) + p.pageSize >= MAX_MEMORY_SIZE then d == 0xFF
      else d == match Value(ws, i) case Some(b) => b case None => 0xFF
  {
    assert BlockOf(p, i) + (i - BlockOf(p, i)) == i;
  }

  function ValueOr(ws: seq<Write>, i: nat): byte {
    match Value(ws, i)
    case Some(b) => b
    case None => 0xFF
  }

  /** What becomes of the byte at i on a part where page addresses arrive. */
  lemma ByteOutcome(p: Part, flash: seq<byte>, m: Memory, ws: seq<Write>, i: nat)
    requires Supported(p) && p.codeSize != 0x1_0000 && |flash| == p.codeSize && Sized(m) && Shows(m, ws)
    requires i < p.codeSize
    ensures FlashAfter(flash, m, p, p.codeSize)[i] ==
              if !BlockUsed(p, ws, i) then flash[i]
              else if BlockOf(p, i) + p.pageSize >= MAX_MEMORY_SIZE then 0xFF
              else ValueOr(ws, i)
  {
    var block := BlockOf(p, i);
    BlockOfIs(p, i, block);
    SentIffUsed(p, m, ws, block);
    FlashByBlock(flash, m, p, p.codeSize, i);
    if i < MAX_MEMORY_SIZE {
      BlockData(p, m, ws, i);
    } else {
      assert block + p.pageSize >= MAX_MEMORY_SIZE;
    }
  }

  /** Parts below 64K: the flash is faithful to the file at every address. */
  lemma SmallPartsFaithful(p: Part, flash: seq<byte>, m: Memory, ws: seq<Write>, i: nat)
    requires Supported(p) && p.codeSize < 0x1_0000 && |flash| == p.codeSize && Sized(m) && Shows(m, ws)
    requires i < p.codeSize
    ensures Faithful(p, flash, FlashAfter(flash, m, p, p.codeSize), ws, i)
  {
    ByteOutcome(p, flash, m, ws, i);
    if Value(ws, i).Some? {
      ValueUsesPage(p, ws, i);
    }
  }

  lemma ValueUsesPage(p: Part, ws: seq<Write>, i: nat)
    requires Supported(p) && i < MAX_MEMORY_SIZE && Value(ws, i).Some?
    ensures PageUsed(p, ws, BlockOf(p, i))
  {
    var block := BlockOf(p, i);
    assert PageOffset(p, i) < p.pageSize;
    assert block <= i < block + p.pageSize && i < MAX_MEMORY_SIZE && Value(ws, i).Some?;
  }

  /** 128K parts: only what the file puts into the last block of the image is lost. */
  lemma LargePartFaithfulIff(p: Part, flash: seq<byte>, m: Memory, ws: seq<Write>, i: nat)
    requires Supported(p) && p.codeSize == 0x2_0000 && |flash| == p.codeSize && Sized(m) && Shows(m, ws)
    requires i < p.codeSize && forall j | j >= MAX_MEMORY_SIZE :: Value(ws, j) == None
    ensures Faithful(p, flash, FlashAfter(flash, m, p, p.codeSize), ws, i) <==>
              (0xFF00 <= i < 0x1_0000 ==> Value(ws, i) == None || Value(ws, i) == Some(0xFF))
  {
    ByteOutcome(p, flash, m, ws, i);
    BlockOfIs(p, i, 0xFF00);
    if Value(ws, i).Some? {
      ValueUsesPage(p, ws, i);
    }
  }

  lemma LandsInFirstPage(p: Part, addr: nat)
    requires Supported(p) && p.codeSize == 0x1_0000 && IsBlock(p, addr) && addr < p.codeSize
    ensures PageBase(p, PageAddress(p, AddressWord(p, addr))) == 0
  {
    var a := addr / 256 % 0x1_0000;
    assert a < 256 && a % 0x1_0000 == a && a % 256 == a;
  }

  lemma OutsidePage(p: Part, flash: seq<byte>, a: nat, data: seq<byte>, i: nat)
    requires Supported(p) && |flash| == p.codeSize && |data| == p.pageSize && PageBase(p, a) == 0
    requires p.pageSize <= i < p.codeSize
    ensures Programmed(p, flash, a, data)[i] == flash[i]
  {
  }

  /** 64K parts: every frame lands in the first page. */
  lemma {:induction false} OnlyFirstPage(p: Part, flash: seq<byte>, m: Memory, addr: nat, i: nat)
    requires Supported(p) && p.codeSize == 0x1_0000 && |flash| == p.codeSize && Sized(m)
    requires IsBlock(p, addr) && p.pageSize <= i < p.codeSize
    ensures FlashAfter(flash, m, p, addr)[i] == flash[i]
    decreases addr
  {
    if addr > 0 {
      var prev := addr - p.pageSize;
      OnlyFirstPage(p, flash, m, prev, i);
      LandsInFirstPage(p, prev);
      var before, a := FlashAfter(flash, m, p, prev), PageAddress(p, AddressWord(p, prev));
      OutsidePage(p, before, a, GetData(m, prev, p.pageSize), i);
    }
  }

  lemma {:induction false} OnlyFirstBlockSent(p: Part, flash: seq<byte>, m: Memory, ws: seq<Write>, addr: nat)
    requires Supported(p) && |flash| == p.codeSize && Sized(m) && Shows(m, ws)
    requires IsBlock(p, addr) && addr > 0 && OnlyFirstPageUsed(p, ws)
    ensures FlashAfter(flash, m, p, addr) == Programmed(p, flash, 0, GetData(m, 0, p.pageSize))
    decreases addr
  {
    var prev := addr - p.pageSize;
    SentIffUsed(p, m, ws, prev);
    if prev > 0 {
      OnlyFirstBlockSent(p, flash, m, ws, prev);
    }
  }

  ghost predicate OnlyFirstPageUsed(p: Part, ws: seq<Write>)
    requires Supported(p)
  {
    forall addr: nat | 0 < addr < p.codeSize && IsBlock(p, addr) :: !PageUsed(p, ws, addr)
  }

  /** The flash is faithful to the file whatever it held before. */
  ghost predicate AlwaysFaithful(p: Part, m: Memory, ws: seq<Write>)
    requires Supported(p) && Sized(m)
  {
    forall before: seq<byte>, i: nat | |before| == p.codeSize && i < p.codeSize ::
      Faithful(p, before, FlashAfter(before, m, p, p.codeSize), ws, i)
  }

  lemma FirstPageFaithful(p: Part, before: seq<byte>, m: Memory, ws: seq<Write>, i: nat)
    requires Supported(p) && p.codeSize == 0x1_0000 && |before| == p.codeSize && Sized(m) && Shows(m, ws)
    requires i < p.codeSize && OnlyFirstPageUsed(p, ws)
    ensures Faithful(p, before, FlashAfter(before, m, p, p.codeSize), ws, i)
  {
    OnlyFirstBlockSent(p, before, m, ws, p.codeSize);
    ProgrammedAligned(p, before, 0, GetData(m, 0, p.pageSize), i);
    BlockOfIs(p, i, 0);
    BlockOfIs(p, i, BlockOf(p, i));
    BlockData(p, m, ws, i);
    if Value(ws, i).Some? {
      ValueUsesPage(p, ws, i);
    }
  }

  lemma OtherPageUnfaithful(p: Part, m: Memory, ws: seq<Write>, addr: nat) returns (before: seq<byte>)
    requires Supported(p) && p.codeSize == 0x1_0000 && Sized(m)
    requires 0 < addr < p.codeSize && IsBlock(p, addr) && PageUsed(p, ws, addr)
    ensures |before| == p.codeSize && !Faithful(p, before, FlashAfter(before, m, p, p.codeSize), ws, addr)
  {
    var expected := match Value(ws, addr) case Some(b) => b case None => 0xFF;
    before := Fill(p.codeSize, if expected == 0 then 1 else 0);
    OnlyFirstPage(p, before, m, p.codeSize, addr);
    BlockOfIs(p, addr, addr);
  }

  /** 64K parts: an update can be relied on exactly when the file stays within the first page. */
  lemma SixtyFourKFaithfulIff(p: Part, m: Memory, ws: seq<Write>)
    requires Supported(p) && p.codeSize == 0x1_0000 && Sized(m) && Shows(m, ws)
    ensures AlwaysFaithful(p, m, ws) <==> OnlyFirstPageUsed(p, ws)
  {
    if OnlyFirstPageUsed(p, ws) {
      forall before: seq<byte>, i: nat | |before| == p.codeSize && i < p.codeSize
        ensures Faithful(p, before, FlashAfter(before, m, p, p.codeSize), ws, i)
      {
        FirstPageFaithful(p, before, m, ws, i);
      }
    } else {
      var addr: nat :| 0 < addr < p.codeSize && IsBlock(p, addr) && PageUsed(p, ws, addr);
      var before := OtherPageUnfaithful(p, m, ws, addr);
    }
  }

  /** What a file must keep to for a part to be updated faithfully. */
  ghost predicate Deliverable(p: Part, ws: seq<Write>)
    requires Supported(p)
  {
    && (p.codeSize == 0x1_0000 ==> OnlyFirstPageUsed(p, ws))
    && (p.codeSize == 0x2_0000 ==>
          forall i | 0xFF00 <= i < 0x1_0000 :: Value(ws, i) == None || Value(ws, i) == Some(0xFF))
  }

  /** Every part: the update is faithful, whatever the flash held, exactly for the files that
      keep to the limits of the part. Below 64K that is every file. */
  lemma FaithfulIffDeliverable(p: Part, m: Memory, ws: seq<Write>)
    requires Supported(p) && Sized(m) && Shows(m, ws) && forall j | j >= MAX_MEMORY_SIZE :: Value(ws, j) == None
    ensures AlwaysFaithful(p, m, ws) <==> Deliverable(p, ws)
  {
    if p.codeSize == 0x1_0000 {
      SixtyFourKFaithfulIff(p, m, ws);
    } else {
      forall before: seq<byte>, i: nat | |before| == p.codeSize && i < p.codeSize
        ensures Faithful(p, before, FlashAfter(before, m, p, p.codeSize), ws, i) <==>
                  (p.codeSize == 0x2_0000 && 0xFF00 <= i < 0x1_0000 ==>
                     Value(ws, i) == None || Value(ws, i) == Some(0xFF))
      {
        if p.codeSize == 0x2_0000 {
          LargePartFaithfulIff(p, before, m, ws, i);
        } else {
          SmallPartsFaithful(p, before, m, ws, i);
        }
      }
      if p.codeSize == 0x2_0000 && AlwaysFaithful(p, m, ws) {
        var before := Fill(p.codeSize, 0);
        assert |before| == p.codeSize;
        forall i | 0xFF00 <= i < 0x1_0000 ensures Value(ws, i) == None || Value(ws, i) == Some(0xFF) {
          assert Faithful(p, before, FlashAfter(before, m, p, p.codeSize), ws, i);
        }
      }
    }
  }

  lemma NothingAboveImage(ws: seq<Write>)
    requires forall w <- ws :: w.base + |w.bytes| < MAX_MEMORY_SIZE
    ensures forall j | j >= MAX_MEMORY_SIZE :: Value(ws, j) == None
  {
    forall j | j >= MAX_MEMORY_SIZE ensures Value(ws, j) == None {
      ValueNoneIff(ws, j);
    }
  }

  // ----- end to end -----

  /** The host program from the file to the reboot. */
  method UpdateFirmware(file: Option<string>, loader: Loader, dev: Device, half: nat -> seq<nat>, reboot: bool)
      returns (r: ReadResult)
    requires loader.hex.Valid() && dev.Valid() && dev.running
    requires dev.flash != loader.hex.image && dev.flash != loader.hex.mask && loader.hex as object != dev
    modifies loader.hex, loader.hex.image, loader.hex.mask, dev, dev.flash, dev.buffer
    ensures file.None? <==> r == CannotOpen
    ensures file.Some? ==>
      match Finish(Digests(Chunks(file.value)), 0).1
      case Accepted => r.Loaded?
      case Rejected => r == ParseError
      case OutsideImage => r == Undefined
    ensures !r.Loaded? ==> dev.flash[..] == old(dev.flash[..]) && dev.running
    ensures r.Loaded? ==>
      && file.Some? && dev.running == !reboot
      && var ds := Digests(Chunks(file.value)); var (n, v) := Finish(ds, 0);
      && v == Accepted && r.bytes == TotalLength(Writes(ds, n))
      && dev.flash[..] == FlashAfter(old(dev.flash[..]), MemoryAfter(ds, n), dev.part, dev.part.codeSize)
      && (Deliverable(dev.part, Writes(ds, n)) ==>
            forall i | 0 <= i < dev.part.codeSize ::
              Faithful(dev.part, old(dev.flash[..]), dev.flash[..], Writes(ds, n), i))
  {
    r := loader.hex.ReadIntelHex(file);
    if !r.Loaded? {
      return;
    }
    ghost var ds := Digests(Chunks(file.value));
    ghost var n := Finish(ds, 0).0;
    LoadedFileMeansItsRecords(Chunks(file.value));
    WritesFit(ds, n);
    NothingAboveImage(Writes(ds, n));
    FaithfulIffDeliverable(dev.part, MemoryAfter(ds, n), Writes(ds, n));
    loader.Program(dev, half);
    if reboot {
      StartApplication(dev, half(0));
    }
  }

  method StartApplication(dev: Device, half: seq<nat>)
    requires dev.Valid()
    modifies dev, dev.flash, dev.buffer
    ensures !dev.running && dev.flash[..] == old(dev.flash[..])
  {
    var report := [0xFF, 0xFF] + Fill(dev.part.pageSize, 0);
    CutIsPackets(report, half);
    var packets := Cut(report, half);
    dev.incoming := packets;
    dev.ControlRequest(0x21, SET_REPORT, report);
  }

  // ----- an image, from its text to the flash -----

  /** The image keeps to the limits of the part. */
  predicate Fitting(p: Part, image: seq<byte>) {
    && (p.codeSize == 0x1_0000 ==> |image| <= p.pageSize)
    && (p.codeSize == 0x2_0000 ==> forall i | 0xFF00 <= i < |image| :: image[i] == 0xFF)
  }

  function TextOf(image: seq<byte>, width: nat, eol: string): string
    requires 0 < width < 256 && |image| < MAX_MEMORY_SIZE
  {
    ImageRecordsFit(image, width);
    Joined(RenderFile(ImageRecords(image, width), eol))
  }

  /** The writes of the records of an image: its bytes from address 0 on, and nothing else. */
  lemma ImageMeaning(image: seq<byte>, width: nat, eol: string)
    requires 0 < width < 256 && |image| < MAX_MEMORY_SIZE && IsLineEnd(eol)
    ensures var ds := Digests(Chunks(TextOf(image, width, eol))); var (n, v) := Finish(ds, 0);
      && v == Accepted && TotalLength(Writes(ds, n)) == |image|
      && forall a: nat :: Value(Writes(ds, n), a) == if a < |image| then Some(image[a]) else None
  {
    var rs := ImageRecords(image, width);
    ImageRecordsFit(image, width);
    ImageFits(rs, |image|, 0);
    WriteThenRead(rs, eol);
    ImageLength(image, width);
    forall a: nat
      ensures Value(ImageWriteList(image, width), a) == if a < |image| then Some(image[a]) else None
    {
      ImageValue(image, width, a);
    }
  }

  ghost predicate HoldsImageUpTo(ws: seq<Write>, image: seq<byte>) {
    forall a: nat :: Value(ws, a) == if a < |image| then Some(image[a]) else None
  }

  lemma FittingIsDeliverable(p: Part, image: seq<byte>, ws: seq<Write>)
    requires Supported(p) && HoldsImageUpTo(ws, image) && Fitting(p, image)
    ensures Deliverable(p, ws)
  {
  }

  /** A page is used exactly if the image reaches it. */
  lemma UsedByImage(p: Part, image: seq<byte>, ws: seq<Write>, i: nat)
    requires Supported(p) && HoldsImageUpTo(ws, image) && |image| < MAX_MEMORY_SIZE
    ensures BlockUsed(p, ws, i) <==> i < p.pageSize || i - i % p.pageSize < |image|
  {
    var block := BlockOf(p, i);
    assert block == i - i % p.pageSize;
    if block < |image| {
      assert Value(ws, block).Some?;
    }
    if block == 0 {
      BlockOfIs(p, i, 0);
    }
  }

  /** An image that fits the part is delivered: its written text is accepted, every byte of it is in the
      flash afterwards, the rest of its last page is erased, the other pages are as they were, and
      the device starts the application if it is told to. */
  method UpdateWithImage(image: seq<byte>, width: nat, eol: string, loader: Loader, dev: Device,
                         half: nat -> seq<nat>, reboot: bool)
      returns (r: ReadResult)
    requires 0 < width < 256 && |image| < MAX_MEMORY_SIZE && IsLineEnd(eol) && Fitting(dev.part, image)
    requires loader.hex.Valid() && dev.Valid() && dev.running
    requires dev.flash != loader.hex.image && dev.flash != loader.hex.mask && loader.hex as object != dev
    modifies loader.hex, loader.hex.image, loader.hex.mask, dev, dev.flash, dev.buffer
    ensures r == Loaded(|image|) && dev.running == !reboot
    ensures forall i | 0 <= i < dev.part.codeSize ::
      dev.flash[i] ==
        if i < |image| then image[i]
        else if i < dev.part.pageSize || i - i % dev.part.pageSize < |image| then 0xFF
        else old(dev.flash[i])
  {
    ImageMeaning(image, width, eol);
    var text := TextOf(image, width, eol);
    ghost var ds := Digests(Chunks(text));
    ghost var ws := Writes(ds, Finish(ds, 0).0);
    FittingIsDeliverable(dev.part, image, ws);
    ghost var before := dev.flash[..];
    r := UpdateFirmware(Some(text), loader, dev, half, reboot);
    forall i | 0 <= i < dev.part.codeSize
      ensures dev.flash[i] ==
        if i < |image| then image[i]
        else if i < dev.part.pageSize || i - i % dev.part.pageSize < |image| then 0xFF
        else before[i]
    {
      UsedByImage(dev.part, image, ws, i);
      assert Faithful(dev.part, before, dev.flash[..], ws, i);
    }
  }
}
