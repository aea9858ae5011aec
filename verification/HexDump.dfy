// The hexadecimal dump of examples/frame.c: a loop that reads a segmented
// block piece by piece and prints one continuous listing.
module HexDump {
  import opened BigEndian
  import opened Chunks
  import opened Hex
  import opened Machine

  // %08x, of a number below 2^32.
  function Hex8(x: nat): string
    requires x < 0x1_0000_0000
  {
    PrintByte(x / 0x100_0000) + PrintByte(x / 0x1_0000 % 256) + PrintByte(x / 256 % 256) + PrintByte(x % 256)
  }

  // What is printed for byte i: a new line with its address every 16 bytes, a
  // space every 2 bytes, and the byte.
  function Lead(i: nat): string
    requires i < 0x8000_0000
  {
    (if i % 16 == 0 then (if i != 0 then "\n" else "") + Hex8(i) + ":" else "")
    + (if i % 2 == 0 then " " else "")
  }

  function Cells(bytes: seq<byte>): string
    requires |bytes| <= 0x8000_0000
  {
    if bytes == [] then ""
    else
      var n := |bytes| - 1;
      Cells(bytes[..n]) + Lead(n) + PrintByte(bytes[n])
  }

  // The listing of a whole block.
  function Listing(bytes: seq<byte>): string
    requires |bytes| <= 0x8000_0000
  {
    Cells(bytes) + if bytes == [] then "" else "\n"
  }

  // The bytes that are dumped: all, or the first limit ones.
  function Shown(bytes: seq<byte>, limit: int): seq<byte> {
    if 0 < limit < |bytes| then bytes[..limit] else bytes
  }

  // ubuf_block_read: the rest of the segment that holds the offset, but no more
  // than size.  It fails past the last segment.
  method BlockRead(segments: seq<Chunk>, offset: nat, size: nat) returns (buffer: Option<Chunk>)
    ensures buffer == None <==> offset >= |Flatten(segments)|
    ensures buffer != None ==>
      && offset + |buffer.value| <= |Flatten(segments)|
      && buffer.value == Flatten(segments)[offset..offset + |buffer.value|]
      && |buffer.value| <= size
      && (size > 0 ==> |buffer.value| > 0)
  {
    hide Flatten, Off;
    var at, left: nat := 0, offset;
    NothingBefore(segments);
    while at < |segments| && left >= |segments[at]|
      invariant at <= |segments| && offset == Off(segments, at) + left
    {
      SegmentAt(segments, at);
      left := left - |segments[at]|;
      at := at + 1;
    }
    if at == |segments| {
      FlattenAll(segments);
      return None;
    }
    SegmentAt(segments, at);
    var block := segments[at];
    var read := if size > |block| - left then |block| - left else size;
    buffer := Some(block[left..left + read]);
    Slice(Flatten(segments), Off(segments, at), block, left, read);
  }

  lemma SegmentAt(segments: seq<Chunk>, i: nat)
    requires i < |segments|
    ensures Off(segments, i + 1) == Off(segments, i) + |segments[i]| <= |Flatten(segments)|
    ensures Flatten(segments)[Off(segments, i)..Off(segments, i) + |segments[i]|] == segments[i]
  {
    ChunkAt(segments, i);
  }

  lemma Slice(all: seq<byte>, at: nat, part: seq<byte>, from: nat, size: nat)
    requires at + |part| <= |all| && all[at..at + |part|] == part && from + size <= |part|
    ensures all[at + from..at + from + size] == part[from..from + size]
  {
    var x, y, whole := all[at + from..at + from + size], part[from..from + size], all[at..at + |part|];
    forall k: nat | k < size
      ensures x[k] == y[k]
    {
      assert whole[from + k] == all[at + from + k];
    }
  }

  // The dump loop of catch_uref: whatever the segments, it prints the listing
  // of the bytes they hold.
  method Dump(segments: seq<Chunk>, dumpHexSize: int) returns (out: string)
    requires |Flatten(segments)| < 0x8000_0000
    ensures out == Listing(Shown(Flatten(segments), dumpHexSize))
    ensures dumpHexSize <= 0 || dumpHexSize >= |Flatten(segments)| ==> out == Listing(Flatten(segments))
    ensures 0 < dumpHexSize < |Flatten(segments)| ==> out == Listing(Flatten(segments)[..dumpHexSize])
  {
    hide Flatten, Cells, Lead, PrintByte;
    ghost var bytes := Shown(Flatten(segments), dumpHexSize);
    NoCells();
    out := "";
    var blockSize := BlockSize(segments);
    var offset: nat := 0;
    if 0 < dumpHexSize < blockSize {
      blockSize := dumpHexSize;
    }
    while blockSize > 0
      invariant offset <= offset + blockSize == |bytes|
      invariant out == Cells(bytes[..offset])
      decreases blockSize
    {
      var buffer := BlockRead(segments, offset, blockSize);
      if buffer == None || |buffer.value| == 0 {
        break;
      }
      var size := |buffer.value|;
      for i := offset to offset + size
        invariant out == Cells(bytes[..i])
      {
        var lead := PrintLead(i);
        out := out + lead + PrintByte(buffer.value[i - offset]);
        CellsSnoc(bytes, i);
      }
      blockSize := blockSize - size;
      offset := offset + size;
    }
    assert bytes[..|bytes|] == bytes;
    if offset > 0 {
      out := out + "\n";
    }
  }

  // What comes before byte i.
  method PrintLead(i: nat) returns (lead: string)
    requires i < 0x8000_0000
    ensures lead == Lead(i)
  {
    lead := "";
    if i % 16 == 0 {
      if i != 0 {
        lead := lead + "\n";
      }
      lead := lead + Hex8(i) + ":";
    }
    if i % 2 == 0 {
      lead := lead + " ";
    }
  }

  method BlockSize(segments: seq<Chunk>) returns (size: nat)
    ensures size == |Flatten(segments)|
  {
    hide Flatten, Off;
    NothingBefore(segments);
    size := 0;
    for i := 0 to |segments|
      invariant size == Off(segments, i)
    {
      SegmentAt(segments, i);
      size := size + |segments[i]|;
    }
    FlattenAll(segments);
  }

  lemma NoCells()
    ensures Cells([]) == ""
  {
  }

  lemma CellsSnoc(bytes: seq<byte>, i: nat)
    requires i < |bytes| <= 0x8000_0000
    ensures Cells(bytes[..i + 1]) == Cells(bytes[..i]) + Lead(i) + PrintByte(bytes[i])
  {
    assert bytes[..i + 1][..i] == bytes[..i];
  }

  // ---------------------------------------------------------------------
  // The listing determines the bytes
  // ---------------------------------------------------------------------

  // Where the cell of byte n starts depends on n alone.
  function Width(n: nat): nat
    requires n <= 0x8000_0000
  {
    if n == 0 then 0 else Width(n - 1) + |Lead(n - 1)| + 2
  }

  lemma {:induction false} CellsWidth(bytes: seq<byte>)
    requires |bytes| <= 0x8000_0000
    ensures |Cells(bytes)| == Width(|bytes|)
    decreases |bytes|
  {
    hide Lead, PrintByte;
    if bytes != [] {
      CellsWidth(bytes[..|bytes| - 1]);
      PrintByteLength(bytes[|bytes| - 1]);
    }
  }

  lemma PrintByteLength(b: byte)
    ensures |PrintByte(b)| == 2
  {
  }

  lemma {:induction false} WidthGrows(m: nat, n: nat)
    requires m < n <= 0x8000_0000
    ensures Width(m) < Width(n)
  {
    hide Lead;
    if m < n - 1 {
      WidthGrows(m, n - 1);
    }
  }

  lemma CellsLength(a: seq<byte>, b: seq<byte>)
    requires |a| <= 0x8000_0000 && |b| <= 0x8000_0000
    ensures |Cells(a)| == |Cells(b)| <==> |a| == |b|
  {
    CellsWidth(a);
    CellsWidth(b);
    hide Cells, Width;
    if |a| < |b| {
      WidthGrows(|a|, |b|);
    } else if |b| < |a| {
      WidthGrows(|b|, |a|);
    }
  }

  lemma CellsLast(bytes: seq<byte>)
    requires 0 < |bytes| <= 0x8000_0000
    ensures var n := |bytes| - 1;
      Cells(bytes) == Cells(bytes[..n]) + (Lead(n) + PrintByte(bytes[n]))
  {
    hide Lead, PrintByte;
    var n := |bytes| - 1;
    Associate(Cells(bytes[..n]), Lead(n), PrintByte(bytes[n]));
  }

  lemma {:induction false} CellsInjective(a: seq<byte>, b: seq<byte>)
    requires |a| <= 0x8000_0000 && |b| <= 0x8000_0000 && Cells(a) == Cells(b)
    ensures a == b
    decreases |a|
  {
    hide Cells, Lead, PrintByte;
    CellsLength(a, b);
    if a != [] {
      var n := |a| - 1;
      CellsLast(a);
      CellsLast(b);
      CellsLength(a[..n], b[..n]);
      SameSplit(Cells(a[..n]), Lead(n) + PrintByte(a[n]), Cells(b[..n]), Lead(n) + PrintByte(b[n]));
      SameSplit(Lead(n), PrintByte(a[n]), Lead(n), PrintByte(b[n]));
      CellsInjective(a[..n], b[..n]);
      PrintByteInjective(a[n], b[n]);
      assert a == a[..n] + [a[n]] && b == b[..n] + [b[n]];
    }
  }

  lemma SameSplit(a: string, b: string, c: string, d: string)
    requires |a| == |c| && a + b == c + d
    ensures a == c && b == d
  {
    assert a == (a + b)[..|a|] && b == (a + b)[|a|..];
  }

  // Two blocks print the same listing only if they hold the same bytes.
  lemma ListingInjective(a: seq<byte>, b: seq<byte>)
    requires |a| <= 0x8000_0000 && |b| <= 0x8000_0000
    ensures Listing(a) == Listing(b) <==> a == b
  {
    NoCells();
    hide Cells;
    if Listing(a) == Listing(b) {
      CellsLength(a, b);
      if a != [] && b != [] {
        assert Listing(a)[..|Listing(a)| - 1] == Cells(a) && Listing(b)[..|Listing(b)| - 1] == Cells(b);
        CellsInjective(a, b);
      } else {
        CellsLength(a, []);
        CellsLength(b, []);
      }
    }
  }

  // ---------------------------------------------------------------------
  // Where everything is listed
  // ---------------------------------------------------------------------

  // A line is 50 characters long: an address of 8 digits, a colon, 8 groups of
  // a space and 2 bytes, and the end of the line.
  function Column(i: nat): nat {
    50 * (i / 16) + 10 + 5 * (i % 16 / 2) + 2 * (i % 2)
  }

  lemma LeadLength(i: nat)
    requires i < 0x8000_0000
    ensures |Lead(i)| == (if i % 16 == 0 then (if i == 0 then 9 else 10) else 0) + (if i % 2 == 0 then 1 else 0)
  {
  }

  lemma NextColumn(i: nat)
    ensures Column(i + 1) == Column(i) + 2 + (if (i + 1) % 16 == 0 then 10 else 0) + if (i + 1) % 2 == 0 then 1 else 0
  {
    var q, r := i / 16, i % 16;
    if r == 15 {
      ColumnOf(q, 15);
      ColumnOf(q + 1, 0);
    } else {
      ColumnOf(q, r);
      ColumnOf(q, r + 1);
    }
  }

  lemma ColumnOf(q: nat, r: nat)
    requires r < 16
    ensures Column(16 * q + r) == 50 * q + 10 + 5 * (r / 2) + 2 * (r % 2)
    ensures (16 * q + r) % 16 == r && (16 * q + r) % 2 == r % 2
  {
    assert (16 * q + r) / 16 == q && (16 * q + r) % 16 == r;
    assert 16 * q + r == 2 * (8 * q) + r;
    EvenPart(8 * q, r);
  }

  lemma EvenPart(h: nat, r: nat)
    ensures (2 * h + r) % 2 == r % 2
  {
  }

  lemma {:induction false} WidthColumn(n: nat)
    requires n <= 0x8000_0000
    ensures Width(n) == if n == 0 then 0 else Column(n - 1) + 2
  {
    hide Lead, Column;
    if n > 0 {
      WidthColumn(n - 1);
      LeadLength(n - 1);
      if n == 1 {
        FirstColumn();
      } else {
        NextColumn(n - 2);
      }
    }
  }

  lemma FirstColumn()
    ensures Column(0) == 10
  {
  }

  lemma {:induction false} CellsPrefix(bytes: seq<byte>, i: nat)
    requires i <= |bytes| <= 0x8000_0000
    ensures Width(i) <= |Cells(bytes)| && Cells(bytes)[..Width(i)] == Cells(bytes[..i])
    decreases |bytes|
  {
    hide Lead, PrintByte;
    CellsWidth(bytes[..i]);
    CellsWidth(bytes);
    hide Width;
    if i == |bytes| {
      assert bytes[..i] == bytes;
    } else {
      var before := bytes[..|bytes| - 1];
      CellsLast(bytes);
      hide Cells;
      CellsPrefix(before, i);
      assert before[..i] == bytes[..i];
    }
  }

  // What stands in front of byte i and in its place.
  lemma CellAt(bytes: seq<byte>, i: nat)
    requires i < |bytes| <= 0x8000_0000
    ensures Column(i) + 2 <= |Cells(bytes)| && |Lead(i)| <= Column(i)
    ensures Cells(bytes)[Column(i) - |Lead(i)|..Column(i)] == Lead(i)
    ensures Cells(bytes)[Column(i)..Column(i) + 2] == PrintByte(bytes[i])
  {
    hide Cells, Lead, Column, Width, PrintByte;
    CellsPrefix(bytes, i + 1);
    CellsPrefix(bytes, i);
    CellsSnoc(bytes, i);
    CellsWidth(bytes[..i]);
    CellsWidth(bytes[..i + 1]);
    WidthColumn(i + 1);
    PrintByteLength(bytes[i]);
    InThree(Cells(bytes), Cells(bytes[..i]), Lead(i), PrintByte(bytes[i]));
  }

  lemma InThree(s: string, a: string, b: string, c: string)
    requires |a| + |b| + |c| <= |s| && s[..|a| + |b| + |c|] == a + b + c
    ensures s[|a|..|a| + |b|] == b && s[|a| + |b|..|a| + |b| + |c|] == c
  {
    var t := s[..|a| + |b| + |c|];
    assert t[|a|..|a| + |b|] == b && t[|a| + |b|..] == c;
    assert t[|a|..|a| + |b|] == s[|a|..|a| + |b|] && t[|a| + |b|..] == s[|a| + |b|..|a| + |b| + |c|];
  }

  // The address of a line is its number in 8 hexadecimal digits.
  lemma AddressDigits(x: nat)
    requires x < 0x1_0000_0000
    ensures var b := Bytes32(x);
      Number(b) == x && Hex8(x) == PrintByte(b[0]) + PrintByte(b[1]) + PrintByte(b[2]) + PrintByte(b[3])
  {
    hide PrintByte, Number;
    Bytes32Number(x);
    assert x / 0x100_0000 % 256 == x / 0x100_0000;
  }

  lemma Hex8Length(x: nat)
    requires x < 0x1_0000_0000
    ensures |Hex8(x)| == 8
  {
    hide PrintByte;
    PrintByteLength(x / 0x100_0000);
    PrintByteLength(x / 0x1_0000 % 256);
    PrintByteLength(x / 256 % 256);
    PrintByteLength(x % 256);
  }

  lemma LeadOfLine(i: nat)
    requires i < 0x8000_0000 && i % 16 == 0
    ensures Lead(i) == (if i > 0 then "\n" else "") + Hex8(i) + ":" + " "
  {
    hide Hex8;
    assert i % 2 == 0 by {
      assert i == 2 * (8 * (i / 16));
    }
  }

  lemma LineParts(nl: string, hex: string)
    requires |hex| == 8 && |nl| <= 1
    ensures var l := nl + hex + ":" + " ";
      var n := |l|;
      && n == |nl| + 10 && l[n - 10..n - 2] == hex && l[n - 2] == ':' && l[n - 1] == ' ' && (nl != "" ==> l[0] == nl[0])
  {
    assert (nl + hex)[|nl|..] == hex;
  }

  lemma LeadParts(i: nat)
    requires i < 0x8000_0000
    ensures i % 2 == 0 ==> |Lead(i)| > 0 && Lead(i)[|Lead(i)| - 1] == ' '
    ensures i % 16 == 0 ==>
      var n := |Lead(i)|;
      && n >= 10 && Lead(i)[n - 10..n - 2] == Hex8(i) && Lead(i)[n - 2] == ':'
      && (i > 0 ==> n == 11 && Lead(i)[0] == '\n')
  {
    if i % 16 == 0 {
      hide Hex8, Lead;
      Hex8Length(i);
      LeadOfLine(i);
      LineParts(if i > 0 then "\n" else "", Hex8(i));
    }
  }

  lemma SubSlice(s: string, from: nat, to: nat, i: nat, j: nat)
    requires from <= to <= |s| && i <= j <= to - from
    ensures s[from..to][i..j] == s[from + i..from + j]
  {
    var x, y, part := s[from..to][i..j], s[from + i..from + j], s[from..to];
    forall k: nat | k < j - i
      ensures x[k] == y[k]
    {
      assert part[i + k] == s[from + i + k];
    }
  }

  lemma ListedAt(bytes: seq<byte>, i: nat, at: nat)
    requires i < |bytes| <= 0x8000_0000 && at == Column(i)
    ensures var l := Listing(bytes);
      && at + 3 <= |l|
      && l[at..at + 2] == PrintByte(bytes[i])
      && (i % 2 == 0 ==> at > 0 && l[at - 1] == ' ')
      && (i % 16 == 0 ==> at >= 10 && l[at - 10..at - 2] == Hex8(i) && l[at - 2] == ':')
      && (i % 16 == 0 && i > 0 ==> at > 10 && l[at - 11] == '\n')
      && (i == |bytes| - 1 ==> |l| == at + 3 && l[at + 2] == '\n')
  {
    hide Cells, Lead, Width, PrintByte, Hex8, Column;
    CellAt(bytes, i);
    LeadParts(i);
    CellsWidth(bytes);
    WidthColumn(|bytes|);
    var c, n := Cells(bytes), |Lead(i)|;
    var lead := c[at - n..at];
    assert Listing(bytes)[at..at + 2] == c[at..at + 2];
    if i % 2 == 0 {
      assert lead[n - 1] == c[at - 1];
    }
    if i % 16 == 0 {
      SubSlice(c, at - n, at, n - 10, n - 2);
      assert c[at - 10..at - 2] == Listing(bytes)[at - 10..at - 2] && lead[n - 2] == c[at - 2];
      if i > 0 {
        assert lead[0] == c[at - 11];
      }
    }
  }

  // Every character of the listing: byte i at its column, a space in front of
  // each even byte, an address and a colon in front of each line, and the ends
  // of the lines.
  lemma ListingLayout(bytes: seq<byte>, i: nat)
    requires i < |bytes| <= 0x8000_0000
    ensures var l, at := Listing(bytes), 50 * (i / 16) + 10 + 5 * (i % 16 / 2) + 2 * (i % 2);
      && at + 3 <= |l|
      && l[at..at + 2] == PrintByte(bytes[i])
      && (i % 2 == 0 ==> l[at - 1] == ' ')
      && (i % 16 == 0 ==> l[at - 10..at - 2] == Hex8(i) && l[at - 2] == ':')
      && (i % 16 == 0 && i > 0 ==> at > 10 && l[at - 11] == '\n')
      && (i == |bytes| - 1 ==> |l| == at + 3 && l[at + 2] == '\n')
  {
    hide Listing, PrintByte, Hex8;
    ListedAt(bytes, i, 50 * (i / 16) + 10 + 5 * (i % 16 / 2) + 2 * (i % 2));
  }
}
