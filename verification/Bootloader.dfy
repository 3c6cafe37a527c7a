/** The HID bootloader: reports arrive in packets, are put together into flash words, and a page
    is erased, filled and written. Flash can only be cleared bit by bit once it has been erased. */
module Bootloader {
  import opened Bytes

  /** A microcontroller: bytes of flash, and bytes in a page (SPM_PAGESIZE). */
  datatype Part = Part(codeSize: nat, pageSize: nat)

  predicate Supported(p: Part) {
    || p == Part(0x2_0000, 256) || p == Part(0x1_0000, 256)
    || p == Part(0x8000, 128) || p == Part(0x4000, 128) || p == Part(0x2000, 128)
  }

  const COMMAND_STARTAPPLICATION := 0xFFFF
  const SET_REPORT := 0x09

  // ----- flash -----

  /** Bitwise and of the n low bits. */
  function AndBits(x: nat, y: nat, n: nat): (r: nat)
    ensures r <= y
  {
    if n == 0 then 0 else x % 2 * (y % 2) + 2 * AndBits(x / 2, y / 2, n - 1)
  }

  /** Programming flash can only clear bits. */
  function And(x: byte, y: byte): byte {
    AndBits(x, y, 8)
  }

  function Ones(n: nat): nat {
    if n == 0 then 0 else 1 + 2 * Ones(n - 1)
  }

  lemma {:induction false} AndOnes(y: nat, n: nat)
    requires y <= Ones(n)
    ensures AndBits(Ones(n), y, n) == y
  {
    if n > 0 {
      AndOnes(y / 2, n - 1);
    }
  }

  lemma AndErased(y: byte)
    ensures And(0xFF, y) == y
  {
    AndOnes(y, 8);
    assert Ones(4) == 15 && Ones(8) == 255;
  }

  function LowByte(w: nat): byte {
    w % 256
  }

  function HighByte(w: nat): byte {
    w / 256 % 256
  }

  function Word(lo: byte, hi: byte): nat {
    lo as nat + hi as nat * 256
  }

  /** Offset of an address within its page. The page sizes are spelt out for the verifier's sake. */
  function PageOffset(p: Part, a: nat): (r: nat)
    requires Supported(p)
    ensures r < p.pageSize && r <= a
  {
    if p.pageSize == 128 then a % 128 else a % 256
  }

  /** First address of the page that holds a; addresses wrap at the end of flash. */
  function PageBase(p: Part, a: nat): nat
    requires Supported(p)
  {
    a % p.codeSize - PageOffset(p, a % p.codeSize)
  }

  /** The word of the page buffer that an address selects; bit 0 is ignored. */
  function BufferIndex(p: Part, a: nat): nat
    requires Supported(p)
  {
    PageOffset(p, a) / 2
  }

  lemma PageFits(p: Part, a: nat)
    requires Supported(p)
    ensures PageBase(p, a) + p.pageSize <= p.codeSize && PageOffset(p, PageBase(p, a)) == 0
    ensures BufferIndex(p, a) < p.pageSize / 2
  {
    var x := a % p.codeSize;
    if p.pageSize == 128 {
      WholePage128(x, p.codeSize);
    } else {
      WholePage256(x, p.codeSize);
    }
  }

  lemma WholePage128(x: nat, size: nat)
    requires x < size && size % 128 == 0
    ensures x - x % 128 + 128 <= size && (x - x % 128) % 128 == 0
  {
  }

  lemma WholePage256(x: nat, size: nat)
    requires x < size && size % 256 == 0
    ensures x - x % 256 + 256 <= size && (x - x % 256) % 256 == 0
  {
  }

  // ----- one report, as the page address and the data it brings -----

  /** The byte address a page command selects; above 64K it is sent in units of 256 bytes. */
  function PageAddress(p: Part, word: nat): nat {
    if p.codeSize > 0x1_0000 then word * 256 else word
  }

  /** Where the byte that ends up at offset off of the page stood in the data: words go to the
      buffer from the page address on and wrap round the buffer. */
  function DataIndex(p: Part, a: nat, off: nat): (i: nat)
    requires Supported(p) && off < p.pageSize
    ensures i < p.pageSize
  {
    var first, slot := BufferIndex(p, a), off / 2;
    (if slot >= first then slot - first else slot + p.pageSize / 2 - first) * 2 + off % 2
  }

  lemma BufferIndexAfter(p: Part, a: nat, w: nat)
    requires Supported(p) && w < p.pageSize / 2
    ensures var next := BufferIndex(p, a) + w;
      BufferIndex(p, a + 2 * w) == if next < p.pageSize / 2 then next else next - p.pageSize / 2
  {
    if p.pageSize == 128 {
      AddModulo128(a, 2 * w);
    } else {
      AddModulo256(a, 2 * w);
    }
  }

  lemma AddModulo128(a: nat, d: nat)
    requires d < 128
    ensures (a + d) % 128 == if a % 128 + d < 128 then a % 128 + d else a % 128 + d - 128
  {
    assert a + d == 128 * (a / 128) + (a % 128 + d);
    assert a % 128 + d >= 128 ==> a + d == 128 * (a / 128 + 1) + (a % 128 + d - 128);
  }

  lemma AddModulo256(a: nat, d: nat)
    requires d < 256
    ensures (a + d) % 256 == if a % 256 + d < 256 then a % 256 + d else a % 256 + d - 256
  {
    assert a + d == 256 * (a / 256) + (a % 256 + d);
    assert a % 256 + d >= 256 ==> a + d == 256 * (a / 256 + 1) + (a % 256 + d - 256);
  }

  /** Filling word w from address a reaches just the places whose data index is in word w. */
  lemma DataIndexInverts(p: Part, a: nat, w: nat, off: nat)
    requires Supported(p) && off < p.pageSize && w < p.pageSize / 2
    ensures off / 2 == BufferIndex(p, a + 2 * w) <==> DataIndex(p, a, off) / 2 == w
    ensures DataIndex(p, a, off) % 2 == off % 2
  {
    BufferIndexAfter(p, a, w);
  }

  lemma AlignedDataIndex(p: Part, a: nat, off: nat)
    requires Supported(p) && off < p.pageSize && PageOffset(p, a) == 0
    ensures DataIndex(p, a, off) == off
  {
  }

  function Programmed(p: Part, flash: seq<byte>, a: nat, data: seq<byte>): (r: seq<byte>)
    requires Supported(p) && |flash| == p.codeSize && |data| == p.pageSize
    ensures |r| == |flash|
  {
    var base := PageBase(p, a);
    seq(|flash|, i requires 0 <= i < |flash| =>
      if base <= i < base + p.pageSize then data[DataIndex(p, a, i - base)] else flash[i])
  }

  // ----- the three page commands of the flash controller -----

  predicate InPage(p: Part, a: nat, i: nat)
    requires Supported(p)
  {
    PageBase(p, a) <= i < PageBase(p, a) + p.pageSize
  }

  function ErasedPage(p: Part, flash: seq<byte>, a: nat): seq<byte>
    requires Supported(p)
  {
    seq(|flash|, i requires 0 <= i < |flash| => if InPage(p, a, i) then 0xFF else flash[i])
  }

  function BufferByte(buffer: seq<nat>, off: nat): byte {
    if off / 2 >= |buffer| then 0xFF
    else if off % 2 == 0 then LowByte(buffer[off / 2]) else HighByte(buffer[off / 2])
  }

  function WrittenPage(p: Part, flash: seq<byte>, buffer: seq<nat>, a: nat): seq<byte>
    requires Supported(p)
  {
    seq(|flash|, i requires 0 <= i < |flash| =>
      if InPage(p, a, i) then And(flash[i], BufferByte(buffer, i - PageBase(p, a))) else flash[i])
  }

  /** The buffer after the first w words of the data have been filled in from address a on. */
  ghost predicate Filled(p: Part, buffer: seq<nat>, a: nat, data: seq<byte>, w: nat)
    requires Supported(p) && |data| == p.pageSize
  {
    && |buffer| == p.pageSize / 2
    && forall off | 0 <= off < p.pageSize ::
         DataIndex(p, a, off) / 2 < w ==> BufferByte(buffer, off) == data[DataIndex(p, a, off)]
  }

  lemma FillOneMore(p: Part, buffer: seq<nat>, a: nat, data: seq<byte>, w: nat)
    requires Supported(p) && |data| == p.pageSize && w < p.pageSize / 2 && Filled(p, buffer, a, data, w)
    ensures BufferIndex(p, a + 2 * w) < |buffer|
    ensures Filled(p, buffer[BufferIndex(p, a + 2 * w) := Word(data[2 * w], data[2 * w + 1])], a, data, w + 1)
  {
    PageFits(p, a + 2 * w);
    WordBytes(data[2 * w], data[2 * w + 1]);
    var next := buffer[BufferIndex(p, a + 2 * w) := Word(data[2 * w], data[2 * w + 1])];
    forall off | 0 <= off < p.pageSize && DataIndex(p, a, off) / 2 < w + 1
      ensures BufferByte(next, off) == data[DataIndex(p, a, off)]
    {
      DataIndexInverts(p, a, w, off);
      var i := DataIndex(p, a, off);
      if i / 2 == w {
        assert i == 2 * w + off % 2;
      }
    }
  }

  lemma WordBytes(lo: byte, hi: byte)
    ensures LowByte(Word(lo, hi)) == lo && HighByte(Word(lo, hi)) == hi
  {
  }

  lemma ByteWritten(p: Part, buffer: seq<nat>, a: nat, data: seq<byte>, off: nat)
    requires Supported(p) && |data| == p.pageSize && Filled(p, buffer, a, data, p.pageSize / 2) && off < p.pageSize
    ensures And(0xFF, BufferByte(buffer, off)) == data[DataIndex(p, a, off)]
  {
    AndErased(BufferByte(buffer, off));
    assert DataIndex(p, a, off) / 2 < p.pageSize / 2;
  }

  /** Erasing, filling and writing a page leaves the data there, wherever the bits stood before. */
  lemma EraseFillWrite(p: Part, flash: seq<byte>, buffer: seq<nat>, a: nat, data: seq<byte>)
    requires Supported(p) && |flash| == p.codeSize && |data| == p.pageSize
    requires Filled(p, buffer, a, data, p.pageSize / 2)
    ensures WrittenPage(p, ErasedPage(p, flash, a), buffer, a) == Programmed(p, flash, a, data)
  {
    forall off | 0 <= off < p.pageSize ensures And(0xFF, BufferByte(buffer, off)) == data[DataIndex(p, a, off)] {
      ByteWritten(p, buffer, a, data, off);
    }
  }

  // ----- the endpoint -----

  predicate Packets(ps: seq<seq<byte>>) {
    forall p <- ps :: p != [] && |p| % 2 == 0
  }

  function Flat(ps: seq<seq<byte>>): seq<byte> {
    if ps == [] then [] else ps[0] + Flat(ps[1..])
  }

  class Device {
    const part: Part
    const flash: array<byte>
    const buffer: array<nat>
    var running: bool
    var bank: seq<byte>
    var incoming: seq<seq<byte>>

    ghost predicate Valid() {
      && Supported(part) && flash.Length == part.codeSize && buffer.Length == part.pageSize / 2
      && flash as object != buffer
    }

    ghost predicate Receiving()
      reads this
    {
      |bank| % 2 == 0 && Packets(incoming)
    }

    ghost function Unread(): seq<byte>
      reads this
    {
      bank + Flat(incoming)
    }

    constructor (p: Part)
      requires Supported(p)
      ensures Valid() && part == p && running && fresh(flash) && fresh(buffer)
    {
      part := p;
      flash := new byte[p.codeSize];
      buffer := new nat[p.pageSize / 2];
      running, bank, incoming := true, [], [];
    }

    /** boot_page_erase */
    method PageErase(a: nat)
      requires Valid()
      modifies flash
      ensures flash[..] == ErasedPage(part, old(flash[..]), a)
    {
      PageFits(part, a);
      var base := PageBase(part, a);
      forall i | base <= i < base + part.pageSize {
        flash[i] := 0xFF;
      }
    }

    /** boot_page_fill */
    method PageFill(a: nat, word: nat)
      requires Valid()
      modifies buffer
      ensures BufferIndex(part, a) < buffer.Length
      ensures buffer[..] == old(buffer[..])[BufferIndex(part, a) := word]
    {
      PageFits(part, a);
      buffer[BufferIndex(part, a)] := word;
    }

    /** boot_page_write */
    method PageWrite(a: nat)
      requires Valid()
      modifies flash
      ensures flash[..] == WrittenPage(part, old(flash[..]), buffer[..], a)
    {
      PageFits(part, a);
      var base := PageBase(part, a);
      forall i | base <= i < base + part.pageSize {
        flash[i] := And(flash[i], BufferByte(buffer[..], i - base));
      }
    }

    /** Endpoint_ClearOUT, and the wait for the next packet. */
    method NextPacket()
      requires Receiving() && bank == [] && incoming != []
      modifies this`bank, this`incoming
      ensures Receiving() && bank != [] && Unread() == old(Unread())
    {
      assert Packets(incoming[1..]);
      bank, incoming := incoming[0], incoming[1..];
    }

    /** Endpoint_Read_16_LE */
    method ReadWord() returns (w: nat)
      requires Receiving() && bank != []
      modifies this`bank
      ensures Receiving() && |old(Unread())| >= 2 && Unread() == old(Unread())[2..]
      ensures w == Word(old(Unread())[0], old(Unread())[1])
    {
      w := Word(bank[0], bank[1]);
      bank := bank[2..];
    }

    /** A word of the report, from the next packet if the bank is empty. */
    method NextWord(ghost unread: seq<byte>) returns (w: nat)
      requires Receiving() && Unread() == unread && |unread| >= 2
      modifies this`bank, this`incoming
      ensures Receiving() && Unread() == unread[2..] && w == Word(unread[0], unread[1])
    {
      if bank == [] {
        NextPacket();
      }
      w := ReadWord();
    }

    /** The loop that fills the page buffer from the packets of the report; all is what they hold. */
    method FillPage(a: nat, ghost all: seq<byte>)
      requires Valid() && Receiving() && Unread() == all && |all| >= part.pageSize
      modifies this`bank, this`incoming, buffer
      ensures Receiving() && Unread() == all[part.pageSize..]
      ensures Filled(part, buffer[..], a, all[..part.pageSize], part.pageSize / 2)
    {
      var w := 0;
      while w < part.pageSize / 2
        invariant 0 <= w <= part.pageSize / 2
        invariant Receiving() && Unread() == all[2 * w..]
        invariant Filled(part, buffer[..], a, all[..part.pageSize], w)
      {
        var word := NextWord(all[2 * w..]);
        assert word == Word(all[..part.pageSize][2 * w], all[..part.pageSize][2 * w + 1]);
        FillOneMore(part, buffer[..], a, all[..part.pageSize], w);
        PageFill(a + 2 * w, word);
        w := w + 1;
      }
    }

    /** The first packet is waited for, and its first word read. */
    method ReadAddress(ghost report: seq<byte>) returns (word: nat)
      requires Packets(incoming) && Flat(incoming) == report && |report| >= 2
      modifies this`bank, this`incoming
      ensures Receiving() && Unread() == report[2..] && word == Word(report[0], report[1])
    {
      bank := [];
      NextPacket();
      word := ReadWord();
    }

    /** EVENT_USB_Device_ControlRequest. The device waits for a page of data after a page address; the
        start command needs none, and what a report holds beyond that is not looked at. */
    method ControlRequest(requestType: byte, request: byte, ghost report: seq<byte>)
      requires Valid() && Packets(incoming) && Flat(incoming) == report
      requires IsSetReport(requestType, request) ==>
        |report| >= 2 && (Word(report[0], report[1]) != COMMAND_STARTAPPLICATION ==> |report| >= 2 + part.pageSize)
      modifies this`bank, this`incoming, this`running, flash, buffer
      ensures IsSetReport(requestType, request) ==>
        var word := Word(report[0], report[1]);
        && running == (old(running) && word != COMMAND_STARTAPPLICATION)
        && flash[..] == (if word == COMMAND_STARTAPPLICATION then old(flash[..])
                         else Programmed(part, old(flash[..]), PageAddress(part, word), report[2..2 + part.pageSize]))
      ensures !IsSetReport(requestType, request) ==> flash[..] == old(flash[..]) && running == old(running)
    {
      if requestType % 128 != 0x21 || request != SET_REPORT {
        return;
      }
      var word := ReadAddress(report);
      if word == COMMAND_STARTAPPLICATION {
        running := false;
      } else {
        assert report[2..][..part.pageSize] == report[2..2 + part.pageSize];
        ProgramPage(PageAddress(part, word), report[2..]);
      }
      bank := [];
    }

    method ProgramPage(a: nat, ghost all: seq<byte>)
      requires Valid() && Receiving() && Unread() == all && |all| >= part.pageSize
      modifies this`bank, this`incoming, flash, buffer
      ensures flash[..] == Programmed(part, old(flash[..]), a, all[..part.pageSize])
    {
      PageErase(a);
      FillPage(a, all);
      PageWrite(a);
      EraseFillWrite(part, old(flash[..]), buffer[..], a, all[..part.pageSize]);
    }
  }

  /** A SET_REPORT request of the HID class to the interface. */
  predicate IsSetReport(requestType: byte, request: byte) {
    requestType % 128 == 0x21 && request == SET_REPORT
  }
}
