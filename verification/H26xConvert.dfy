// Changing the encapsulation of a whole frame
// (lib/upipe-framers/upipe_h26x_common.c), the client of the NAL index that
// walks it with a running correction and edits every NAL after visiting it.
module H26xConvert {
  import opened BigEndian
  import opened Chunks
  import opened Machine
  import opened NalIndex

  // enum uref_h26x_encaps
  datatype Encaps = Nalu | AnnexB | LengthUnknown | Length1 | Length2 | Length4

  // The bytes the decapsulation removes from the front of a NAL.
  function HeadSize(e: Encaps, nal: Nal): nat {
    match e
    case Nalu => 0
    case AnnexB => if |nal| > 2 && nal[2] == 1 then 3 else 4
    case Length1 => 1
    case Length2 => 2
    case LengthUnknown => 4
    case Length4 => 4
  }

  // What the code takes for granted of a NAL in its input encapsulation.
  predicate Decodable(e: Encaps, nal: Nal) {
    && |nal| >= HeadSize(e, nal)
    && (e == AnnexB ==> |nal| >= 3 && nal[0] == 0 && nal[1] == 0)
  }

  function Payload(e: Encaps, nal: Nal): Nal
    requires Decodable(e, nal)
  {
    nal[HeadSize(e, nal)..]
  }

  // The largest payload an encapsulation can carry.
  predicate Encodable(e: Encaps, size: nat) {
    match e
    case Nalu => true
    case AnnexB => true
    case Length1 => size <= 0xFF
    case Length2 => size <= 0xFFFF
    case LengthUnknown => size <= 0xFFFF_FFFF
    case Length4 => size <= 0xFFFF_FFFF
  }

  // The bytes the encapsulation puts in front of a payload: a start code, or
  // the low bytes of its size, most significant first.
  function Head(e: Encaps, size: nat): seq<byte> {
    match e
    case Nalu => []
    case AnnexB => [0, 0, 0, 1]
    case Length1 => [size % 256]
    case Length2 => Bytes16(size)
    case LengthUnknown => Bytes32(size)
    case Length4 => Bytes32(size)
  }

  function Converted(from: Encaps, to: Encaps, nal: Nal): Nal
    requires Decodable(from, nal)
  {
    Head(to, |Payload(from, nal)|) + Payload(from, nal)
  }

  ghost predicate AllDecodable(e: Encaps, nals: seq<Nal>) {
    forall i: nat :: i < |nals| ==> Decodable(e, nals[i])
  }

  function ConvertAll(from: Encaps, to: Encaps, nals: seq<Nal>): seq<Nal>
    requires AllDecodable(from, nals)
  {
    seq(|nals|, i requires 0 <= i < |nals| => Converted(from, to, nals[i]))
  }

  // The bytes of a NAL in an encapsulation: a start code of four bytes, or the
  // size of the payload, most significant byte first, and then the payload.
  ghost predicate Carries(e: Encaps, nal: Nal, p: Nal) {
    match e
    case Nalu => nal == p
    case AnnexB => |nal| == 4 + |p| && nal[..4] == [0, 0, 0, 1] && nal[4..] == p
    case Length1 => |nal| == 1 + |p| && nal[0] == |p| && nal[1..] == p
    case Length2 => |nal| == 2 + |p| && 256 * (nal[0] as int) + nal[1] as int == |p| && nal[2..] == p
    case _ =>
      && |nal| == 4 + |p| && nal[4..] == p
      && 256 * (256 * (256 * (nal[0] as int) + nal[1] as int) + nal[2] as int) + nal[3] as int == |p|
  }

  // A converted NAL is its payload behind a start code or behind its size, if
  // and only if the size fits; and it decapsulates to the payload in any case.
  lemma ConvertedPayload(from: Encaps, to: Encaps, nal: Nal)
    requires Decodable(from, nal)
    ensures Decodable(to, Converted(from, to, nal))
    ensures Payload(to, Converted(from, to, nal)) == Payload(from, nal)
    ensures Carries(to, Converted(from, to, nal), Payload(from, nal)) <==> Encodable(to, |Payload(from, nal)|)
    ensures to == AnnexB ==> Converted(from, to, nal) == [0, 0, 0, 1] + Payload(from, nal)
  {
    var p := Payload(from, nal);
    var head := Head(to, |p|);
    assert (head + p)[|head|..] == p && (head + p)[..|head|] == head;
    HeadBytes(to, |p|);
    CarriesHead(to, |p|, p);
    hide Head, Encodable, Carries;
  }

  // What is written in front of a payload.
  lemma HeadBytes(e: Encaps, size: nat)
    ensures e == Nalu ==> Head(e, size) == []
    ensures e == AnnexB ==> Head(e, size) == [0, 0, 0, 1]
    ensures e == Length1 ==> |Head(e, size)| == 1
    ensures e == Length2 ==> |Head(e, size)| == 2
    ensures e == Length4 || e == LengthUnknown ==> |Head(e, size)| == 4
  {
  }

  // A length field reads back exactly if it can hold the size.
  lemma HeadNumber(e: Encaps, size: nat)
    requires e != Nalu && e != AnnexB
    ensures Number(Head(e, size)) == size <==> Encodable(e, size)
  {
    hide Number, Bytes16, Bytes32;
    match e {
      case Length1 => NumberOf([size % 256]);
      case Length2 => Bytes16Number(size);
      case _ => Bytes32Number(size);
    }
  }

  lemma CarriesHead(e: Encaps, size: nat, p: Nal)
    requires size == |p|
    ensures Carries(e, Head(e, size) + p, p) <==> Encodable(e, size)
  {
    HeadBytes(e, size);
    var h := Head(e, size);
    NumberOf(h);
    assert (h + p)[|h|..] == p && (h + p)[..|h|] == h;
    assert Encodable(Nalu, size) && Encodable(AnnexB, size);
    hide Head, Encodable, Number;
    if e != Nalu && e != AnnexB {
      HeadNumber(e, size);
    }
  }

  // What counts as a NAL in an encapsulation, and what its payload is: a start
  // code has 3 bytes exactly if its third byte is 1.
  lemma PayloadBytes(p: Nal, x: byte, y: byte, z: byte, w: byte)
    ensures Decodable(Nalu, p) && Payload(Nalu, p) == p
    ensures Decodable(AnnexB, [0, 0, 1] + p) && Payload(AnnexB, [0, 0, 1] + p) == p
    ensures x != 1 ==> Decodable(AnnexB, [0, 0, x, y] + p) && Payload(AnnexB, [0, 0, x, y] + p) == p
    ensures Decodable(Length1, [x] + p) && Payload(Length1, [x] + p) == p
    ensures Decodable(Length2, [x, y] + p) && Payload(Length2, [x, y] + p) == p
    ensures Decodable(Length4, [x, y, z, w] + p) && Payload(Length4, [x, y, z, w] + p) == p
    ensures Decodable(LengthUnknown, [x, y, z, w] + p) && Payload(LengthUnknown, [x, y, z, w] + p) == p
  {
  }

  // The sizes a length field can hold.
  lemma EncodableSizes(size: nat)
    ensures Encodable(Nalu, size) && Encodable(AnnexB, size)
    ensures Encodable(Length1, size) <==> size < 256
    ensures Encodable(Length2, size) <==> size < 256 * 256
    ensures Encodable(Length4, size) <==> size < 256 * 256 * 256 * 256
    ensures Encodable(LengthUnknown, size) <==> size < 256 * 256 * 256 * 256
  {
  }

  // ---------------------------------------------------------------------
  // One NAL
  // ---------------------------------------------------------------------

  // A block without the h bytes at an offset, and with bytes inserted there.
  function Cut(b: seq<byte>, at: nat, h: nat): seq<byte>
    requires at + h <= |b|
  {
    b[..at] + b[at + h..]
  }

  function Put(b: seq<byte>, at: nat, head: seq<byte>): seq<byte>
    requires at <= |b|
  {
    b[..at] + head + b[at..]
  }

  lemma CutPutNothing(b: seq<byte>, at: nat)
    requires at <= |b|
    ensures Cut(b, at, 0) == b && Put(b, at, []) == b
  {
  }

  predicate CanDelete(from: Encaps, block: Option<seq<byte>>, offset: nat) {
    && block.Some? && offset < |block.value|
    && (from == AnnexB ==> offset + 3 <= |block.value|)
    && offset + HeadSize(from, block.value[offset..]) <= |block.value|
  }

  // upipe_h26xf_decaps_nal.  The size and the correction are in-out arguments.
  method DecapsNal(u: Uref, offset: nat, size: nat, from: Encaps, correction: int)
    returns (err: Code, size': nat, correction': int)
    requires from == AnnexB && u.block.Some? && offset + 3 <= |u.block.value| ==>
      u.block.value[offset] == 0 && u.block.value[offset + 1] == 0
    modifies u`block
    ensures err == ErrNone <==> from == Nalu || CanDelete(from, old(u.block), offset)
    ensures err == ErrNone && from == Nalu ==> u.block == old(u.block) && size' == size && correction' == correction
    ensures err == ErrNone && from != Nalu ==>
      var b := old(u.block).value;
      var h := HeadSize(from, b[offset..]);
      u.block == Some(Cut(b, offset, h)) && size' == U64(size - h) && correction' == correction - h
    ensures err == ErrInvalid ==> u.block == old(u.block)
    ensures err == ErrNone && from != Nalu ==>
      var b := old(u.block).value;
      var h := if from == AnnexB then (if offset + 2 < |b| && b[offset + 2] == 1 then 3 else 4)
               else if from == Length1 then 1 else if from == Length2 then 2 else 4;
      offset + h <= |b| && u.block == Some(b[..offset] + b[offset + h..]) && correction' == correction - h
  {
    size', correction' := size, correction;
    var encapsSize: nat;
    match from {
      case Nalu =>
        return ErrNone, size', correction';
      case AnnexB =>
        if u.block.None? || offset + 3 > |u.block.value| {
          return ErrInvalid, size', correction';
        }
        encapsSize := if u.block.value[offset + 2] == 1 then 3 else 4;
      case Length1 =>
        encapsSize := 1;
      case Length2 =>
        encapsSize := 2;
      case _ =>
        encapsSize := 4;
    }
    err := u.BlockDelete(offset, encapsSize);
    if err == ErrNone {
      size', correction' := U64(size - encapsSize), correction - encapsSize;
    }
  }

  // upipe_h26xf_encaps_nal
  method EncapsNal(u: Uref, offset: nat, size: nat, to: Encaps, correction: int)
    returns (err: Code, size': nat, correction': int)
    modifies u`block
    ensures err == ErrNone <==>
      to == Nalu || (
        && (to == Length1 ==> size <= 0xFF) && (to == Length2 ==> size <= 0xFFFF)
        && (to == Length4 || to == LengthUnknown ==> size <= 0xFFFF_FFFF)
        && old(u.block).Some? && offset < |old(u.block).value|)
    ensures err == ErrNone && to == Nalu ==> u.block == old(u.block) && size' == size && correction' == correction
    ensures err == ErrNone && to != Nalu ==>
      var b, h := old(u.block).value, Head(to, size);
      && u.block == Some(Put(b, offset, h))
      && size' == U64(size + |h|) && correction' == correction + |h|
    ensures err == ErrNone && to == AnnexB ==>
      u.block == Some(old(u.block).value[..offset] + [0, 0, 0, 1] + old(u.block).value[offset..])
    ensures err == ErrInvalid ==> u.block == old(u.block)
  {
    size', correction' := size, correction;
    var insert: seq<byte>;
    match to {
      case Nalu =>
        return ErrNone, size', correction';
      case AnnexB =>
        insert := [0, 0, 0, 1];
      case Length1 =>
        if size > 0xFF {
          return ErrInvalid, size', correction';
        }
        insert := [size % 256];
      case Length2 =>
        if size > 0xFFFF {
          return ErrInvalid, size', correction';
        }
        insert := [size / 256 % 256, size % 256];
      case _ =>
        if size > 0xFFFF_FFFF {
          return ErrInvalid, size', correction';
        }
        insert := [size / 0x100_0000 % 256, size / 0x1_0000 % 256, size / 256 % 256, size % 256];
    }
    err := u.BlockInsert(offset, insert);
    if err == ErrNone {
      size', correction' := U64(size + |insert|), correction + |insert|;
    }
  }

  // ---------------------------------------------------------------------
  // The whole frame
  // ---------------------------------------------------------------------

  // NAL i can be written in the output encapsulation: its payload is not too
  // large, and a byte remains in front of which its head can be inserted.
  ghost predicate CanConvert(from: Encaps, to: Encaps, nals: seq<Nal>, i: nat)
    requires i < |nals| && AllDecodable(from, nals)
  {
    to == Nalu || (
      && Encodable(to, |Payload(from, nals[i])|)
      && Payload(from, nals[i]) + Flatten(nals[i + 1..]) != [])
  }

  // The entry the pass leaves for NAL i: it was written before the edit of NAL
  // i itself, so the change in size of that NAL is missing from it.
  function StaleEnd(nals: seq<Nal>, conv: seq<Nal>, i: nat): nat
    requires i < |nals| == |conv|
  {
    Off(conv, i) + |nals[i]|
  }

  ghost predicate StaleTable(n: map<nat, nat>, nals: seq<Nal>, conv: seq<Nal>, i: nat, k: nat)
    requires |nals| == |conv| && k <= |nals|
  {
    && Contiguous(n) && |n| == k
    && (forall j: nat :: j < k ==> n[j] == if j < i then StaleEnd(nals, conv, j) else Off(nals, j + 1))
  }

  // The first i NALs are converted.
  ghost predicate PartWay(m: Mem, nals: seq<Nal>, conv: seq<Nal>, i: nat, k: nat) {
    && |nals| == |conv| && i <= |nals| && k <= |nals| <= k + 1
    && (|nals| == k + 1 ==> nals[k] != [])
    && m.block == Some(Flatten(conv[..i]) + Flatten(nals[i..]))
    && |m.block.value| < POW2_64
    && StaleTable(m.n, nals, conv, i, k)
  }

  // The call that returns NAL i.
  lemma CallBefore(m: Mem, nals: seq<Nal>, conv: seq<Nal>, c: Cursor, correction: int, i: nat, k: nat)
    requires PartWay(m, nals, conv, i, k) && i < |nals| && At(c, conv, i)
    requires correction == Off(conv, i) - Off(nals, i)
    ensures var s := Iterate(m, c, correction);
      && s.err == ErrNone && s.c == Cursor(i + 1, Off(conv, i), |nals[i]|)
      && s.m.block == m.block && StaleTable(s.m.n, nals, conv, i + 1, k)
  {
    hide Flatten, Iterate;
    OffIsLength(conv, i);
    Around(conv[..i], nals, i);
    if i < k {
      IterateStored(m, c, correction, Off(conv, i), StaleEnd(nals, conv, i));
      StaleUpdate(m.n, nals, conv, i, k);
    } else {
      FlattenCons(nals[i + 1..]);
      IterateTail(m, c, correction, Off(conv, i));
    }
  }

  lemma StaleUpdate(n: map<nat, nat>, nals: seq<Nal>, conv: seq<Nal>, i: nat, k: nat)
    requires |nals| == |conv| && i < k <= |nals| && StaleTable(n, nals, conv, i, k)
    ensures StaleTable(n[i := StaleEnd(nals, conv, i)], nals, conv, i + 1, k)
  {
    hide StaleEnd, Off;
    var n' := n[i := StaleEnd(nals, conv, i)];
    assert n'.Keys == n.Keys;
    assert |n'| == |n'.Keys| && |n| == |n.Keys|;
  }

  lemma CutHead(front: seq<byte>, nal: Nal, back: seq<byte>, h: nat)
    requires h <= |nal|
    ensures var b := front + nal + back;
      && b[|front|..|front| + |nal|] == nal
      && b[|front|..] == nal + back
      && Cut(b, |front|, h) == front + (nal[h..] + back)
  {
    var b := front + nal + back;
    assert b[..|front|] == front;
    assert b[|front| + h..] == nal[h..] + back;
  }

  lemma PutHead(front: seq<byte>, head: seq<byte>, rest: seq<byte>)
    ensures var b := front + rest;
      Put(b, |front|, head) == front + head + rest
  {
    var b := front + rest;
    assert b[..|front|] == front && b[|front|..] == rest;
  }

  // Where the NAL at hand lies.
  lemma HeadAt(nals: seq<Nal>, from: Encaps, to: Encaps, i: nat, b: seq<byte>)
    requires AllDecodable(from, nals) && i < |nals|
    requires b == Flatten(ConvertAll(from, to, nals)[..i]) + Flatten(nals[i..])
    ensures |ConvertAll(from, to, nals)| == |nals|
    ensures var at := Off(ConvertAll(from, to, nals), i);
      && at + |nals[i]| <= |b|
      && b[at..at + |nals[i]|] == nals[i]
      && HeadSize(from, b[at..]) == HeadSize(from, nals[i])
  {
    hide Flatten, Off, Head, HeadSize, ConvertAll, Decodable, AllDecodable, Converted, Payload, Cut;
    var conv := ConvertAll(from, to, nals);
    ConvertedParts(nals, from, to, i);
    OffIsLength(conv, i);
    Around(conv[..i], nals, i);
    HeadSizeLocal(from, nals[i], Flatten(nals[i + 1..]));
    CutHead(Flatten(conv[..i]), nals[i], Flatten(nals[i + 1..]), 0);
  }

  // Replacing the head of the NAL at hand converts it.
  lemma ReplaceHead(nals: seq<Nal>, from: Encaps, to: Encaps, i: nat, b: seq<byte>)
    requires AllDecodable(from, nals) && i < |nals|
    requires b == Flatten(ConvertAll(from, to, nals)[..i]) + Flatten(nals[i..])
    ensures var conv, h := ConvertAll(from, to, nals), HeadSize(from, nals[i]);
      var at, p := Off(conv, i), Payload(from, nals[i]);
      && at + |nals[i]| <= |b|
      && var b' := Cut(b, at, h);
      && b' == Flatten(conv[..i]) + (p + Flatten(nals[i + 1..]))
      && at <= |b'| && Put(b', at, Head(to, |p|)) == Flatten(conv[..i + 1]) + Flatten(nals[i + 1..])
  {
    hide Flatten, Off, Head, HeadSize, ConvertAll, Decodable, AllDecodable, Converted, Payload, Cut, Put;
    var conv := ConvertAll(from, to, nals);
    ConvertedParts(nals, from, to, i);
    OffIsLength(conv, i);
    Around(conv[..i], nals, i);
    FlattenSnoc(conv, i);
    var front, nal, back := Flatten(conv[..i]), nals[i], Flatten(nals[i + 1..]);
    var p, head := Payload(from, nal), Head(to, |Payload(from, nal)|);
    CutHead(front, nal, back, HeadSize(from, nal));
    PutHead(front, head, p + back);
    Concat4(front, head, p, back);
  }

  lemma Concat4(a: seq<byte>, b: seq<byte>, c: seq<byte>, d: seq<byte>)
    ensures a + b + (c + d) == a + (b + c) + d
  {
  }

  lemma HeadSizeLocal(e: Encaps, nal: Nal, back: seq<byte>)
    requires Decodable(e, nal)
    ensures HeadSize(e, nal + back) == HeadSize(e, nal)
  {
  }

  lemma ConvertedParts(nals: seq<Nal>, from: Encaps, to: Encaps, i: nat)
    requires AllDecodable(from, nals) && i < |nals|
    ensures Decodable(from, nals[i]) && HeadSize(from, nals[i]) <= |nals[i]|
    ensures var conv, p := ConvertAll(from, to, nals), Payload(from, nals[i]);
      && |conv| == |nals| && conv[i] == Head(to, |p|) + p
      && p == nals[i][HeadSize(from, nals[i])..]
      && Off(conv, i + 1) == Off(conv, i) + |conv[i]| && Off(nals, i + 1) == Off(nals, i) + |nals[i]|
  {
    hide Head, HeadSize;
  }

  lemma {:induction false} ConvertGrowth(from: Encaps, to: Encaps, nals: seq<Nal>, i: nat)
    requires AllDecodable(from, nals) && i <= |nals|
    ensures Off(ConvertAll(from, to, nals), i) <= Off(nals, i) + 4 * i
  {
    if i > 0 {
      ConvertGrowth(from, to, nals, i - 1);
    }
  }

  // Room for four more bytes in front of every NAL.
  ghost predicate Roomy(nals: seq<Nal>) {
    |Flatten(nals)| + 4 * |nals| < POW2_64
  }

  lemma PartWayFits(from: Encaps, to: Encaps, nals: seq<Nal>, i: nat)
    requires AllDecodable(from, nals) && Roomy(nals) && i <= |nals|
    ensures |Flatten(ConvertAll(from, to, nals)[..i]) + Flatten(nals[i..])| < POW2_64
  {
    hide Flatten;
    ConvertGrowth(from, to, nals, i);
    OffIsLength(ConvertAll(from, to, nals), i);
    OffIsLength(nals, i);
    assert nals == nals[..i] + nals[i..];
    FlattenConcat(nals[..i], nals[i..]);
  }

  lemma CallAtEnd(m: Mem, nals: seq<Nal>, conv: seq<Nal>, c: Cursor, correction: int, k: nat)
    requires PartWay(m, nals, conv, |nals|, k) && At(c, conv, |nals|)
    ensures Iterate(m, c, correction) == Step(ErrInvalid, m, Iterate(m, c, correction).c)
  {
    hide Flatten, Iterate, Off;
    FlattenCons(nals[|nals|..]);
    assert conv[..|conv|] == conv;
    FlattenAll(conv);
    IterateTail(m, c, correction, Off(conv, |conv|));
  }

  lemma PartWayStart(m: Mem, from: Encaps, to: Encaps)
    requires Valid(m) && AllDecodable(from, Nals(m)) && Roomy(Nals(m))
    ensures PartWay(m, Nals(m), ConvertAll(from, to, Nals(m)), 0, |m.n|)
  {
    hide Off, Nals, Valid;
    var nals, conv := Nals(m), ConvertAll(from, to, Nals(m));
    NalsDescribe(m);
    assert nals[0..] == nals && conv[..0] == [];
    assert [] + Flatten(nals) == Flatten(nals);
  }

  // What a conversion leaves: the converted NALs, under the stale table.
  ghost predicate Leaves(m: Mem, nals: seq<Nal>, conv: seq<Nal>, k: nat)
    requires |nals| == |conv|
  {
    && k <= |nals| <= k + 1
    && m.block == Some(Flatten(conv)) && |Flatten(conv)| < POW2_64 && |Flatten(nals)| < POW2_64
    && StaleTable(m.n, nals, conv, |nals|, k)
  }

  lemma LeavesAtEnd(m: Mem, nals: seq<Nal>, conv: seq<Nal>, k: nat)
    requires PartWay(m, nals, conv, |nals|, k) && Roomy(nals)
    ensures Leaves(m, nals, conv, k)
  {
    hide Off;
    assert nals[|nals|..] == [] && conv[..|nals|] == conv;
    assert Flatten(conv) + [] == Flatten(conv);
  }

  // Around the NAL at hand: its head can be deleted ...
  lemma HeadDelete(b: seq<byte>, nals: seq<Nal>, from: Encaps, to: Encaps, i: nat)
    requires AllDecodable(from, nals) && i < |nals|
    requires b == Flatten(ConvertAll(from, to, nals)[..i]) + Flatten(nals[i..]) && |b| < POW2_64
    ensures var at, nal := Off(ConvertAll(from, to, nals), i), nals[i];
      var h := HeadSize(from, nal);
      && at + h <= |b|
      && (from != Nalu ==> CanDelete(from, Some(b), at) && HeadSize(from, b[at..]) == h)
      && (from == AnnexB ==> at + 3 <= |b| && b[at] == 0 && b[at + 1] == 0)
      && U64(|nal| - h) == |Payload(from, nal)|
  {
    hide Flatten, Head, HeadSize, Off, U64, ConvertAll, Converted, AllDecodable, Decodable, CanDelete;
    HeadAt(nals, from, to, i, b);
    DecodableAt(nals, from, i);
    SmallU64(|nals[i]| - HeadSize(from, nals[i]));
    CanDeleteHead(b, Off(ConvertAll(from, to, nals), i), from, nals[i]);
  }

  lemma CanDeleteHead(b: seq<byte>, at: nat, from: Encaps, nal: Nal)
    requires Decodable(from, nal) && at + |nal| <= |b| && b[at..at + |nal|] == nal
    requires HeadSize(from, b[at..]) == HeadSize(from, nal)
    ensures from != Nalu ==> CanDelete(from, Some(b), at)
    ensures from == AnnexB ==> at + 3 <= |b| && b[at] == 0 && b[at + 1] == 0
  {
    if from == AnnexB {
      assert b[at..at + |nal|][0] == b[at] && b[at..at + |nal|][1] == b[at + 1];
    }
  }

  // ... and the new one can be inserted exactly if the NAL can be converted.
  lemma HeadInsert(b: seq<byte>, nals: seq<Nal>, from: Encaps, to: Encaps, i: nat)
    requires AllDecodable(from, nals) && i < |nals|
    requires b == Flatten(ConvertAll(from, to, nals)[..i]) + Flatten(nals[i..]) && |b| < POW2_64
    ensures var at, h, p := Off(ConvertAll(from, to, nals), i), HeadSize(from, nals[i]), Payload(from, nals[i]);
      && at + h <= |b|
      && var b' := Cut(b, at, h);
      && (CanConvert(from, to, nals, i) <==> to == Nalu || (Encodable(to, |p|) && at < |b'|))
      && at <= |b'| && Put(b', at, Head(to, |p|))
         == Flatten(ConvertAll(from, to, nals)[..i + 1]) + Flatten(nals[i + 1..])
  {
    assert |ConvertAll(from, to, nals)| == |nals|;
    hide Flatten, Encodable, Head, HeadSize, Off, ConvertAll, Converted, AllDecodable, Put, Cut, Decodable, Payload;
    ReplaceHead(nals, from, to, i, b);
    DecodableAt(nals, from, i);
    OffIsLength(ConvertAll(from, to, nals), i);
  }

  lemma DecodableAt(nals: seq<Nal>, from: Encaps, i: nat)
    requires AllDecodable(from, nals) && i < |nals|
    ensures Decodable(from, nals[i]) && HeadSize(from, nals[i]) <= |nals[i]|
  {
  }

  // After the call that returned NAL i, before its edit.
  ghost predicate Returned(m: Mem, nals: seq<Nal>, conv: seq<Nal>, c: Cursor, correction: int, i: nat, k: nat) {
    && |nals| == |conv| && i < |nals| && k <= |nals| <= k + 1
    && (|nals| == k + 1 ==> nals[k] != [])
    && m.block == Some(Flatten(conv[..i]) + Flatten(nals[i..])) && |m.block.value| < POW2_64
    && StaleTable(m.n, nals, conv, i + 1, k)
    && c == Cursor(i + 1, Off(conv, i), |nals[i]|)
    && correction == Off(conv, i) - Off(nals, i)
  }

  lemma PartWayNext(m: Mem, m': Mem, nals: seq<Nal>, from: Encaps, to: Encaps,
                    c: Cursor, correction: int, i: nat, k: nat)
    requires AllDecodable(from, nals) && Roomy(nals)
    requires Returned(m, nals, ConvertAll(from, to, nals), c, correction, i, k)
    requires m' == m.(block := Some(Flatten(ConvertAll(from, to, nals)[..i + 1]) + Flatten(nals[i + 1..])))
    ensures PartWay(m', nals, ConvertAll(from, to, nals), i + 1, k)
    ensures |ConvertAll(from, to, nals)[i]| < POW2_64
  {
    hide Flatten, StaleTable, Roomy;
    PartWayFits(from, to, nals, i + 1);
    OffIsLength(ConvertAll(from, to, nals), i + 1);
  }

  // One round of the loop of upipe_h26xf_convert_frame: the edit of one NAL.
  method ConvertNal(u: Uref, c: Cursor, from: Encaps, to: Encaps, correction: int,
                    ghost nals: seq<Nal>, ghost i: nat, ghost k: nat)
    returns (err: Code, c': Cursor, correction': int)
    requires AllDecodable(from, nals) && Roomy(nals)
    requires Returned(u.State(), nals, ConvertAll(from, to, nals), c, correction, i, k)
    modifies u`block
    ensures err == ErrNone <==> CanConvert(from, to, nals, i)
    ensures err == ErrNone ==>
      var conv := ConvertAll(from, to, nals);
      && PartWay(u.State(), nals, conv, i + 1, k) && At(c', conv, i + 1)
      && correction' == Off(conv, i + 1) - Off(nals, i + 1)
  {
    hide Flatten, Off, PartWay, Roomy, CanConvert, StaleTable, Encodable, CanDelete, ConvertAll, AllDecodable, Payload,
         Decodable, Converted, HeadSize, Head, Contiguous, Cut, Put;
    ghost var m := u.State();
    HeadDelete(u.block.value, nals, from, to, i);
    HeadInsert(u.block.value, nals, from, to, i);
    ConvertedParts(nals, from, to, i);
    NaluHead();
    var size;
    err, size, correction' := DecapsNal(u, c.offset, c.size, from, correction);
    c' := c;
    if err != ErrNone {
      return;
    }
    CutPutNothing(m.block.value, c.offset);
    CutPutNothing(u.block.value, c.offset);
    EncodableSizes(size);
    err, size, correction' := EncapsNal(u, c.offset, size, to, correction');
    if err != ErrNone {
      return;
    }
    PartWayNext(m, u.State(), nals, from, to, c, correction, i, k);
    c' := c.(size := size);
  }

  lemma NaluHead()
    ensures forall nal :: HeadSize(Nalu, nal) == 0
    ensures forall size :: Head(Nalu, size) == []
  {
  }

  // The header size attribute while the frame is converted: the offset still to
  // be moved, 0 when there is none, and the value of the attribute.
  datatype Header = Header(pending: nat, value: Option<u64>)

  function HeaderAfter(size: Option<u64>, nals: seq<Nal>, conv: seq<Nal>, i: nat): Header
    requires i <= |nals| == |conv|
  {
    if i == 0 then
      Header(if size == None then 0 else size.value, size)
    else
      HeaderStep(HeaderAfter(size, nals, conv, i - 1), Off(conv, i), Off(conv, i) - Off(nals, i))
  }

  function HeaderStep(h: Header, end: nat, correction: int): Header {
    if h.pending != 0 && h.pending <= end then Header(0, Some(U64(h.pending + correction))) else h
  }

  // The while loop of upipe_h26xf_convert_frame before its round number i.
  ghost predicate Progress(u: Uref, size: Option<u64>, nals: seq<Nal>, conv: seq<Nal>,
                           c: Cursor, correction: int, vclOffset: nat, i: nat, k: nat)
    reads u
  {
    && PartWay(u.State(), nals, conv, i, k) && At(c, conv, i)
    && correction == Off(conv, i) - Off(nals, i)
    && HeaderAfter(size, nals, conv, i) == Header(vclOffset, u.headerSize)
  }

  // The edit of one NAL, and of the header size behind it.
  method ConvertRound(u: Uref, c: Cursor, from: Encaps, to: Encaps, correction: int, vclOffset: nat,
                      ghost size: Option<u64>, ghost nals: seq<Nal>, ghost i: nat, ghost k: nat)
    returns (err: Code, c': Cursor, correction': int, vclOffset': nat)
    requires AllDecodable(from, nals) && Roomy(nals) && i < |nals|
    requires Returned(u.State(), nals, ConvertAll(from, to, nals), c, correction, i, k)
    requires HeaderAfter(size, nals, ConvertAll(from, to, nals), i) == Header(vclOffset, u.headerSize)
    modifies u
    ensures err == ErrNone <==> CanConvert(from, to, nals, i)
    ensures err == ErrNone ==>
      Progress(u, size, nals, ConvertAll(from, to, nals), c', correction', vclOffset', i + 1, k)
  {
    hide Flatten, PartWay, Roomy, CanConvert, Returned, AllDecodable, HeaderAfter, Off, At;
    vclOffset' := vclOffset;
    err, c', correction' := ConvertNal(u, c, from, to, correction, nals, i, k);
    if err != ErrNone {
      return;
    }
    EndOfNal(u.State(), nals, ConvertAll(from, to, nals), c', i + 1, k);
    HeaderNext(size, nals, ConvertAll(from, to, nals), i + 1, vclOffset, u.headerSize);
    if vclOffset != 0 && vclOffset <= U64(c'.offset + c'.size) {
      MoveHeader(u, U64(vclOffset + correction'));
      vclOffset' := 0;
    }
  }

  // What the loop leaves: the converted NALs under the stale table, and the
  // header size it has moved.
  ghost predicate Finished(u: Uref, from: Encaps, to: Encaps, size: Option<u64>, nals: seq<Nal>, k: nat)
    requires AllDecodable(from, nals)
    reads u
  {
    && Leaves(u.State(), nals, ConvertAll(from, to, nals), k)
    && u.headerSize == HeaderAfter(size, nals, ConvertAll(from, to, nals), |nals|).value
  }

  lemma IsFinished(u: Uref, from: Encaps, to: Encaps, size: Option<u64>, nals: seq<Nal>, k: nat)
    requires AllDecodable(from, nals) && Leaves(u.State(), nals, ConvertAll(from, to, nals), k)
    requires u.headerSize == HeaderAfter(size, nals, ConvertAll(from, to, nals), |nals|).value
    ensures Finished(u, from, to, size, nals, k)
  {
  }

  // The call of the iterator and, if it returns a NAL, the round for it.
  method NextRound(u: Uref, c: Cursor, from: Encaps, to: Encaps, correction: int, vclOffset: nat,
                   ghost size: Option<u64>, ghost nals: seq<Nal>, ghost i: nat, ghost k: nat)
    returns (more: bool, err: Code, c': Cursor, correction': int, vclOffset': nat)
    requires AllDecodable(from, nals) && Roomy(nals) && i <= |nals| && ConvertibleBelow(from, to, nals, i)
    requires Progress(u, size, nals, ConvertAll(from, to, nals), c, correction, vclOffset, i, k)
    modifies u
    ensures more <==> i < |nals|
    ensures more ==> (err == ErrNone <==> ConvertibleBelow(from, to, nals, i + 1))
    ensures more && err == ErrInvalid ==> !ConvertibleBelow(from, to, nals, |nals|)
    ensures more && err == ErrNone ==>
      Progress(u, size, nals, ConvertAll(from, to, nals), c', correction', vclOffset', i + 1, k)
    ensures !more ==> Finished(u, from, to, size, nals, k)
  {
    ghost var conv := ConvertAll(from, to, nals);
    assert |conv| == |nals|;
    hide *;
    ProgressCall(u, size, nals, conv, c, correction, vclOffset, i, k);
    ghost var s := Iterate(u.State(), c, correction);
    err, c' := u.IterateNal(c, correction);
    assert s == Step(err, u.State(), c');
    more, correction', vclOffset' := err == ErrNone, correction, vclOffset;
    if more {
      ConvertibleStep(from, to, nals, i);
      err, c', correction', vclOffset' := ConvertRound(u, c', from, to, correction, vclOffset, size, nals, i, k);
    } else {
      IsFinished(u, from, to, size, nals, k);
    }
  }

  // upipe_h26xf_convert_frame, on a frame whose NALs are all in the input
  // encapsulation.  The frame is converted exactly when each NAL can be, and
  // then the bytes are the converted NALs and the table is the stale one.
  method ConvertFrame(u: Uref, from: Encaps, to: Encaps) returns (err: Code)
    requires Valid(u.State()) && AllDecodable(from, Nals(u.State())) && Roomy(Nals(u.State()))
    modifies u
    ensures from == to ==> err == ErrNone && u.State() == old(u.State()) && u.headerSize == old(u.headerSize)
    ensures from != to ==>
      (err == ErrNone <==> ConvertibleBelow(from, to, old(Nals(u.State())), |old(Nals(u.State()))|))
    ensures from != to && err == ErrNone ==>
      Finished(u, from, to, old(u.headerSize), old(Nals(u.State())), |old(u.State().n)|)
    ensures from != to && err == ErrNone ==>
      var nals := old(Nals(u.State()));
      forall i: nat :: i < |nals| ==> CarriedAt(u.block, from, to, nals, i)
    ensures from != to && err == ErrNone && to == AnnexB ==>
      var nals, conv := old(Nals(u.State())), ConvertAll(from, to, old(Nals(u.State())));
      && |conv| == |nals| && u.block.Some?
      && forall i: nat :: i < |nals| ==>
        && Off(conv, i) + 4 <= |u.block.value|
        && u.block.value[Off(conv, i)..Off(conv, i) + 4] == [0, 0, 0, 1]
    ensures old(u.headerSize) == None && err == ErrNone ==> u.headerSize == None
  {
    if to == from {
      return ErrNone;
    }
    ghost var nals, size := Nals(u.State()), u.headerSize;
    ProgressStart(u, from, to);
    ghost var k := |u.State().n|;
    hide *;
    err := ConvertLoop(u, from, to, size, nals, k);
    if err == ErrNone {
      FrameFinished(u, from, to, size, nals, k);
    }
  }

  lemma FrameFinished(u: Uref, from: Encaps, to: Encaps, size: Option<u64>, nals: seq<Nal>, k: nat)
    requires AllDecodable(from, nals) && Finished(u, from, to, size, nals, k)
    requires ConvertibleBelow(from, to, nals, |nals|)
    ensures forall i: nat :: i < |nals| ==> CarriedAt(u.block, from, to, nals, i)
    ensures to == AnnexB ==>
      var conv := ConvertAll(from, to, nals);
      && |conv| == |nals| && u.block.Some?
      && forall i: nat :: i < |nals| ==>
           Off(conv, i) + 4 <= |u.block.value| && u.block.value[Off(conv, i)..Off(conv, i) + 4] == [0, 0, 0, 1]
    ensures size == None ==> u.headerSize == None
  {
    hide Leaves, CarriedAt, AllDecodable, ConvertibleBelow, HeaderAfter;
    assert |ConvertAll(from, to, nals)| == |nals|;
    ConvertedBlock(u.State(), nals, from, to, k);
    NoHeader(size, nals, ConvertAll(from, to, nals), |nals|);
    if to == AnnexB {
      StartCodes(u.State(), nals, from, k);
    }
  }

  // NAL i lies, converted, between its two boundaries.
  ghost predicate CarriedAt(block: Option<seq<byte>>, from: Encaps, to: Encaps, nals: seq<Nal>, i: nat)
    requires AllDecodable(from, nals) && i < |nals|
  {
    var at, end := Off(ConvertAll(from, to, nals), i), Off(ConvertAll(from, to, nals), i + 1);
    block.Some? && at <= end <= |block.value| && Carries(to, block.value[at..end], Payload(from, nals[i]))
  }

  lemma ConvertedAt(m: Mem, nals: seq<Nal>, from: Encaps, to: Encaps, k: nat, i: nat)
    requires AllDecodable(from, nals) && Leaves(m, nals, ConvertAll(from, to, nals), k)
    requires i < |nals| && CanConvert(from, to, nals, i)
    ensures CarriedAt(m.block, from, to, nals, i)
    ensures var at := Off(ConvertAll(from, to, nals), i);
      to == AnnexB ==> at + 4 <= |m.block.value| && m.block.value[at..at + 4] == [0, 0, 0, 1]
  {
    hide Flatten, Head, HeadSize, Off, StaleTable;
    var conv := ConvertAll(from, to, nals);
    ChunkAt(conv, i);
    OffStep(conv, i);
    ConvertedPayload(from, to, nals[i]);
    var at, end, b := Off(conv, i), Off(conv, i + 1), m.block.value;
    if to == AnnexB {
      assert b[at..end][..4] == b[at..at + 4];
    }
  }

  lemma ConvertedBlock(m: Mem, nals: seq<Nal>, from: Encaps, to: Encaps, k: nat)
    requires AllDecodable(from, nals) && Leaves(m, nals, ConvertAll(from, to, nals), k)
    requires ConvertibleBelow(from, to, nals, |nals|)
    ensures forall i: nat :: i < |nals| ==> CarriedAt(m.block, from, to, nals, i)
  {
    hide CarriedAt, Leaves, CanConvert, AllDecodable, Off, ConvertAll;
    forall i: nat | i < |nals|
      ensures CarriedAt(m.block, from, to, nals, i)
    {
      assert CanConvert(from, to, nals, i);
      ConvertedAt(m, nals, from, to, k, i);
    }
  }

  lemma StartCodes(m: Mem, nals: seq<Nal>, from: Encaps, k: nat)
    requires AllDecodable(from, nals) && Leaves(m, nals, ConvertAll(from, AnnexB, nals), k)
    requires ConvertibleBelow(from, AnnexB, nals, |nals|)
    ensures var conv := ConvertAll(from, AnnexB, nals);
      && |conv| == |nals| && m.block.Some?
      && forall i: nat :: i < |nals| ==>
           Off(conv, i) + 4 <= |m.block.value| && m.block.value[Off(conv, i)..Off(conv, i) + 4] == [0, 0, 0, 1]
  {
    var conv := ConvertAll(from, AnnexB, nals);
    assert |conv| == |nals| && m.block.Some?;
    hide CanConvert, Leaves, AllDecodable, Off, ConvertAll;
    forall i: nat | i < |nals|
      ensures StartCodeAt(m.block.value, Off(conv, i))
    {
      assert CanConvert(from, AnnexB, nals, i);
      hide *;
      ConvertedAt(m, nals, from, AnnexB, k, i);
      IsStartCode(m.block.value, Off(conv, i));
    }
  }

  ghost predicate StartCodeAt(b: seq<byte>, at: nat) {
    at + 4 <= |b| && b[at..at + 4] == [0, 0, 0, 1]
  }

  lemma IsStartCode(b: seq<byte>, at: nat)
    requires at + 4 <= |b| && b[at..at + 4] == [0, 0, 0, 1]
    ensures StartCodeAt(b, at)
  {
  }

  // Without a header size the loop sets none.
  lemma {:induction false} NoHeader(size: Option<u64>, nals: seq<Nal>, conv: seq<Nal>, i: nat)
    requires i <= |nals| == |conv|
    ensures size == None || size == Some(0) ==> HeaderAfter(size, nals, conv, i) == Header(0, size)
  {
    if i > 0 {
      NoHeader(size, nals, conv, i - 1);
    }
  }

  method ConvertLoop(u: Uref, from: Encaps, to: Encaps, ghost size: Option<u64>, ghost nals: seq<Nal>, ghost k: nat)
    returns (err: Code)
    requires AllDecodable(from, nals) && Roomy(nals) && ConvertibleBelow(from, to, nals, 0)
    requires Progress(u, size, nals, ConvertAll(from, to, nals), Cursor(0, 0, 0), 0,
                      if u.headerSize == None then 0 else u.headerSize.value, 0, k)
    modifies u
    ensures err == ErrNone <==> ConvertibleBelow(from, to, nals, |nals|)
    ensures err == ErrNone ==> Finished(u, from, to, size, nals, k)
  {
    ghost var conv := ConvertAll(from, to, nals);
    assert |conv| == |nals|;
    hide *;
    var vclOffset: nat := if u.headerSize == None then 0 else u.headerSize.value;
    var c, correction := Cursor(0, 0, 0), 0;
    ghost var i: nat := 0;
    var more := true;
    err := ErrNone;
    while more && err == ErrNone
      invariant i <= |nals|
      invariant more && err == ErrNone ==> ConvertibleBelow(from, to, nals, i)
      invariant more && err == ErrNone ==> Progress(u, size, nals, conv, c, correction, vclOffset, i, k)
      invariant !more ==> err == ErrNone && ConvertibleBelow(from, to, nals, |nals|)
      invariant !more ==> Finished(u, from, to, size, nals, k)
      invariant more && err == ErrInvalid ==> !ConvertibleBelow(from, to, nals, |nals|)
      decreases more && err == ErrNone, |nals| - i
    {
      more, err, c, correction, vclOffset := NextRound(u, c, from, to, correction, vclOffset, size, nals, i, k);
      if more && err == ErrNone {
        i := i + 1;
      } else if !more {
        err := ErrNone;
      }
    }
  }

  lemma ProgressStart(u: Uref, from: Encaps, to: Encaps)
    requires Valid(u.State()) && AllDecodable(from, Nals(u.State())) && Roomy(Nals(u.State()))
    ensures var nals := Nals(u.State());
      && ConvertibleBelow(from, to, nals, 0) && |ConvertAll(from, to, nals)| == |nals|
      && Progress(u, u.headerSize, nals, ConvertAll(from, to, nals), Cursor(0, 0, 0), 0,
                  if u.headerSize == None then 0 else u.headerSize.value, 0, |u.State().n|)
  {
    hide Flatten, PartWay, Valid, AllDecodable, Roomy, Nals, CanConvert;
    PartWayStart(u.State(), from, to);
  }

  // What the next call of the iterator does.
  lemma ProgressCall(u: Uref, size: Option<u64>, nals: seq<Nal>, conv: seq<Nal>,
                     c: Cursor, correction: int, vclOffset: nat, i: nat, k: nat)
    requires Progress(u, size, nals, conv, c, correction, vclOffset, i, k) && i <= |nals| == |conv| && Roomy(nals)
    ensures HeaderAfter(size, nals, conv, i) == Header(vclOffset, u.headerSize)
    ensures var s := Iterate(u.State(), c, correction);
      if i < |nals| then
        s.err == ErrNone && Returned(s.m, nals, conv, s.c, correction, i, k)
      else
        s.err == ErrInvalid && Leaves(s.m, nals, conv, k)
  {
    hide Flatten, PartWay, Iterate, HeaderAfter, Returned, Leaves, Roomy;
    if i < |nals| {
      CallReturns(u.State(), nals, conv, c, correction, i, k);
    } else {
      CallAtEnd(u.State(), nals, conv, c, correction, k);
      LeavesAtEnd(u.State(), nals, conv, k);
    }
  }

  // uref_block_set_header_size
  method MoveHeader(u: Uref, size: u64)
    modifies u`headerSize
    ensures u.headerSize == Some(size)
  {
    u.headerSize := Some(size);
  }

  lemma HeaderNext(size: Option<u64>, nals: seq<Nal>, conv: seq<Nal>, i: nat, pending: nat, value: Option<u64>)
    requires 0 < i <= |nals| == |conv| && HeaderAfter(size, nals, conv, i - 1) == Header(pending, value)
    ensures HeaderAfter(size, nals, conv, i) ==
      if pending != 0 && pending <= Off(conv, i) then Header(0, Some(U64(pending + (Off(conv, i) - Off(nals, i)))))
      else Header(pending, value)
  {
  }

  lemma EndOfNal(m: Mem, nals: seq<Nal>, conv: seq<Nal>, c: Cursor, i: nat, k: nat)
    requires PartWay(m, nals, conv, i, k) && i > 0 && At(c, conv, i)
    ensures U64(c.offset + c.size) == Off(conv, i)
  {
    hide Flatten, Off, StaleTable, U64;
    OffIsLength(conv, i);
    SmallU64(Off(conv, i));
  }

  ghost predicate ConvertibleBelow(from: Encaps, to: Encaps, nals: seq<Nal>, i: nat)
    requires i <= |nals| && AllDecodable(from, nals)
  {
    forall j: nat :: j < i ==> CanConvert(from, to, nals, j)
  }

  lemma ConvertibleStep(from: Encaps, to: Encaps, nals: seq<Nal>, i: nat)
    requires i < |nals| && AllDecodable(from, nals) && ConvertibleBelow(from, to, nals, i)
    ensures CanConvert(from, to, nals, i) <==> ConvertibleBelow(from, to, nals, i + 1)
    ensures !CanConvert(from, to, nals, i) ==> !ConvertibleBelow(from, to, nals, |nals|)
  {
    hide CanConvert;
  }

  lemma CallReturns(m: Mem, nals: seq<Nal>, conv: seq<Nal>, c: Cursor, correction: int, i: nat, k: nat)
    requires PartWay(m, nals, conv, i, k) && i < |nals| && At(c, conv, i)
    requires correction == Off(conv, i) - Off(nals, i)
    ensures var s := Iterate(m, c, correction);
      s.err == ErrNone && Returned(s.m, nals, conv, s.c, correction, i, k)
  {
    hide Flatten, Iterate, StaleTable;
    CallBefore(m, nals, conv, c, correction, i, k);
  }

  // ---------------------------------------------------------------------
  // What the stale table is worth
  // ---------------------------------------------------------------------

  // The head of NAL i kept its size.
  ghost predicate SameHead(from: Encaps, to: Encaps, nal: Nal)
    requires Decodable(from, nal)
  {
    |Head(to, |Payload(from, nal)|)| == HeadSize(from, nal)
  }

  lemma FreshTable(m: Mem, nals: seq<Nal>, conv: seq<Nal>, k: nat)
    requires |nals| == |conv| && Leaves(m, nals, conv, k)
    requires forall i: nat :: i < k ==> |conv[i]| == |nals[i]|
    ensures Describes(m, Kept(conv, k))
  {
    hide Flatten;
    var kept := Kept(conv, k);
    forall i: nat | i < k
      ensures m.n[i] == Off(kept, i + 1)
    {
      VisitPrefix(conv, |kept|, i);
      assert conv[..|conv|] == conv;
    }
    KeptBytes(conv, k);
  }

  lemma StoredSize(m: Mem, c: Cursor, start: nat, size: nat)
    requires c.counter in m.n && m.n[c.counter] == start + size && start < POW2_64 && size < POW2_64
    requires start == if c.counter == 0 then 0 else c.offset + c.size
    ensures Iterate(m, c, 0).c.size == size
  {
    hide U64;
    SmallU64(start);
    SmallU64(size);
  }

  // The walk gives NAL i the size it had before it was converted.
  lemma StaleCall(m: Mem, nals: seq<Nal>, conv: seq<Nal>, k: nat, c: Cursor, i: nat)
    requires |nals| == |conv| && Leaves(m, nals, conv, k) && i < k && At(c, conv, i)
    ensures Iterate(m, c, 0).c.size == |nals[i]|
  {
    hide Flatten, Iterate;
    SizesFit(conv, i);
    SizesFit(nals, i);
    assert m.n[i] == StaleEnd(nals, conv, i);
    StoredSize(m, c, Off(conv, i), |nals[i]|);
  }

  lemma StaleVisit(m: Mem, nals: seq<Nal>, conv: seq<Nal>, k: nat, c: Cursor, i: nat)
    requires |nals| == |conv| && Leaves(m, nals, conv, k) && c.counter == 0
    requires i < k && |conv[i]| != |nals[i]|
    ensures !Walks(m, c, Visits(Kept(conv, k)))
  {
    hide Flatten, Iterate;
    var kept := Kept(conv, k);
    var visits := Visits(kept);
    assert conv[..|conv|] == conv;
    if i > 0 {
      VisitPrefix(conv, |kept|, i - 1);
    }
    StaleCall(m, nals, conv, k, Before(c, visits, i), i);
    assert !Returns(m, c, visits, i);
  }

  lemma SizesFit(nals: seq<Nal>, i: nat)
    requires i < |nals| && |Flatten(nals)| < POW2_64
    ensures Off(nals, i) < POW2_64 && |nals[i]| < POW2_64
  {
    ChunkAt(nals, i);
  }

  // After a conversion, walking the frame returns the converted NALs if and
  // only if no NAL with an entry of its own changed the size of its head.
  lemma ConvertedWalk(m: Mem, nals: seq<Nal>, from: Encaps, to: Encaps, k: nat, c: Cursor)
    requires AllDecodable(from, nals) && Leaves(m, nals, ConvertAll(from, to, nals), k) && c.counter == 0
    ensures Walks(m, c, Visits(Kept(ConvertAll(from, to, nals), k)))
       <==> forall i: nat :: i < k ==> SameHead(from, to, nals[i])
  {
    hide Flatten, Walks, Off, Head, HeadSize, StaleTable;
    var conv := ConvertAll(from, to, nals);
    forall i: nat | i < k
      ensures SameHead(from, to, nals[i]) <==> |conv[i]| == |nals[i]|
    {
      ConvertedParts(nals, from, to, i);
    }
    if i: nat :| i < k && !SameHead(from, to, nals[i]) {
      StaleVisit(m, nals, conv, k, c, i);
    } else {
      FreshTable(m, nals, conv, k);
      DescribedWalk(m, Kept(conv, k), c);
    }
  }

  // Converting forth and back restores a NAL if and only if its head was the
  // one this code would have written.
  lemma ConvertBack(from: Encaps, to: Encaps, nal: Nal)
    requires Decodable(from, nal) && Encodable(to, |Payload(from, nal)|)
    ensures Decodable(to, Converted(from, to, nal))
    ensures Converted(to, from, Converted(from, to, nal)) == nal
       <==> nal[..HeadSize(from, nal)] == Head(from, |Payload(from, nal)|)
  {
    ConvertedPayload(from, to, nal);
    hide Head, HeadSize;
    var p := Payload(from, nal);
    assert nal == nal[..HeadSize(from, nal)] + p;
    assert (Head(from, |p|) + p)[|Head(from, |p|)|..] == p;
    if Head(from, |p|) + p == nal {
      assert |Head(from, |p|)| == HeadSize(from, nal);
      assert (Head(from, |p|) + p)[..|Head(from, |p|)|] == Head(from, |p|);
    }
  }

  // A frame that loses its index: two NALs taken out of their start codes.
  lemma ConvertedWalkFails(a: byte, b: byte, c: Cursor)
    requires c.counter == 0
    ensures var nals := [[0, 0, 0, 1, a], [0, 0, 0, 1, b]];
      var m := Mem(Some([a, b]), map[0 := 5]);
      && AllDecodable(AnnexB, nals)
      && Leaves(m, nals, ConvertAll(AnnexB, Nalu, nals), 1)
      && !Walks(m, c, Visits([[a], [b]]))
  {
    var nals: seq<Nal> := [[0, 0, 0, 1, a], [0, 0, 0, 1, b]];
    var m := Mem(Some([a, b]), map[0 := 5]);
    var conv := ConvertAll(AnnexB, Nalu, nals);
    assert conv[0] == [a] && conv[1] == [b];
    assert conv == [[a], [b]] && [a] + [b] == [a, b];
    TwoNals(nals, conv, m);
    hide Leaves, Walks, Flatten, StaleTable;
    ConvertedWalk(m, nals, AnnexB, Nalu, 1, c);
    assert !SameHead(AnnexB, Nalu, nals[0]);
  }

  lemma TwoNals(nals: seq<Nal>, conv: seq<Nal>, m: Mem)
    requires |nals| == |conv| == 2 && m == Mem(Some(conv[0] + conv[1]), map[0 := |nals[0]|])
    requires |nals[0]| + |nals[1]| < POW2_64 && |conv[0]| + |conv[1]| < POW2_64
    ensures Leaves(m, nals, conv, 1)
  {
    assert conv == [conv[0], conv[1]] && nals == [nals[0], nals[1]];
    FlattenTwo(conv[0], conv[1]);
    FlattenTwo(nals[0], nals[1]);
    hide Flatten;
    assert m.n.Keys == {0} && |m.n| == |m.n.Keys|;
    assert StaleEnd(nals, conv, 0) == |nals[0]|;
  }

  // ---------------------------------------------------------------------
  // What the header size is worth
  // ---------------------------------------------------------------------

  // No NAL is shorter after the conversion, or every one is.
  ghost predicate Grows(nals: seq<Nal>, conv: seq<Nal>) {
    |nals| == |conv| && forall i: nat :: i < |nals| ==> |nals[i]| <= |conv[i]|
  }

  ghost predicate Shrinks(nals: seq<Nal>, conv: seq<Nal>) {
    |nals| == |conv| && forall i: nat :: i < |nals| ==> |conv[i]| < |nals[i]|
  }

  // How far boundary i moved.
  function Shift(nals: seq<Nal>, conv: seq<Nal>, i: nat): int
    requires i <= |nals| == |conv|
  {
    Off(conv, i) - Off(nals, i)
  }

  lemma {:induction false} ShiftGrows(nals: seq<Nal>, conv: seq<Nal>, i: nat, j: nat)
    requires Grows(nals, conv) && i <= j <= |nals|
    ensures Shift(nals, conv, i) <= Shift(nals, conv, j)
  {
    if i < j {
      ShiftGrows(nals, conv, i, j - 1);
    }
  }

  ghost predicate SameSizes(nals: seq<Nal>, conv: seq<Nal>, i: nat, j: nat)
    requires i <= j <= |nals| == |conv|
  {
    forall l: nat :: i <= l < j ==> |conv[l]| == |nals[l]|
  }

  lemma {:induction false} ShiftSame(nals: seq<Nal>, conv: seq<Nal>, i: nat, j: nat)
    requires Grows(nals, conv) && i <= j <= |nals|
    ensures Shift(nals, conv, i) == Shift(nals, conv, j) <==> SameSizes(nals, conv, i, j)
  {
    if i < j {
      ShiftSame(nals, conv, i, j - 1);
      ShiftGrows(nals, conv, i, j - 1);
      hide Off;
      assert SameSizes(nals, conv, i, j) <==> SameSizes(nals, conv, i, j - 1) && |conv[j - 1]| == |nals[j - 1]|;
    }
  }

  lemma {:induction false} ShiftShrinks(nals: seq<Nal>, conv: seq<Nal>, i: nat, j: nat)
    requires Shrinks(nals, conv) && i <= j <= |nals|
    ensures i < j ==> Shift(nals, conv, j) < Shift(nals, conv, i)
  {
    if i < j {
      ShiftShrinks(nals, conv, i, j - 1);
    }
  }

  // Boundary t is the first converted one that reaches the old offset.
  ghost predicate Moves(conv: seq<Nal>, size: nat, t: nat) {
    0 < t <= |conv| && size <= Off(conv, t) && forall s: nat :: 0 < s < t ==> Off(conv, s) < size
  }

  ghost predicate NeverMoves(conv: seq<Nal>, size: nat, i: nat)
    requires i <= |conv|
  {
    forall s: nat :: 0 < s <= i ==> Off(conv, s) < size
  }

  lemma {:induction false} HeaderValue(size: u64, nals: seq<Nal>, conv: seq<Nal>, i: nat)
    requires size > 0 && i <= |nals| == |conv|
    ensures var h := HeaderAfter(Some(size), nals, conv, i);
      || (h == Header(size, Some(size)) && NeverMoves(conv, size, i))
      || (exists t: nat :: t <= i && Moves(conv, size, t) && h == Header(0, Some(U64(size + Shift(nals, conv, t)))))
  {
    hide Off;
    if i > 0 {
      HeaderValue(size, nals, conv, i - 1);
      var h := HeaderAfter(Some(size), nals, conv, i - 1);
      if h.pending == size {
        assert NeverMoves(conv, size, i - 1);
        if size <= Off(conv, i) {
          assert Moves(conv, size, i);
        }
      }
    }
  }

  // The header size, once it was where NAL m started, is where it starts now.
  ghost predicate Follows(nals: seq<Nal>, conv: seq<Nal>, m: nat)
    requires m <= |nals| == |conv| && Off(nals, m) < POW2_64
  {
    HeaderAfter(Some(Off(nals, m)), nals, conv, |nals|).value == Some(Off(conv, m))
  }

  // Each NAL before NAL m that grows starts, converted, before the old offset
  // of NAL m.
  ghost predicate GrowthBefore(nals: seq<Nal>, conv: seq<Nal>, m: nat)
    requires m <= |nals| == |conv|
  {
    forall j: nat :: j < m && |conv[j]| > |nals[j]| ==> Off(conv, j) < Off(nals, m)
  }

  // The boundary that moves the header size comes after every NAL that starts
  // before the old offset, so what matters is whether one behind it grows.
  lemma GrowthBehind(nals: seq<Nal>, conv: seq<Nal>, m: nat, t: nat)
    requires Grows(nals, conv) && t <= m <= |nals| && Moves(conv, Off(nals, m), t) && 0 < Off(nals, m)
    ensures GrowthBefore(nals, conv, m) <==> Shift(nals, conv, t) == Shift(nals, conv, m)
  {
    ShiftSame(nals, conv, t, m);
    hide Shift, Off;
    forall j: nat | j < m
      ensures Off(conv, j) < Off(nals, m) <==> j < t
    {
      if t <= j {
        OffMonotone(conv, t, j);
      } else if j > 0 {
        assert 0 < j < t;
      }
    }
  }

  lemma MovesBy(conv: seq<Nal>, size: nat, m: nat, t: nat)
    requires Moves(conv, size, t) && 0 < m <= |conv| && size <= Off(conv, m)
    ensures t <= m
  {
  }

  lemma GrowingMoved(nals: seq<Nal>, conv: seq<Nal>, m: nat, t: nat)
    requires Grows(nals, conv) && t <= m <= |nals| && 0 < Off(nals, m) && Off(conv, m) < POW2_64
    requires Moves(conv, Off(nals, m), t)
    ensures U64(Off(nals, m) + Shift(nals, conv, t)) == Off(conv, m) <==> GrowthBefore(nals, conv, m)
  {
    NothingBefore(nals);
    NothingBefore(conv);
    assert |nals| == |conv|;
    hide Off, GrowthBefore, Grows, U64, Moves;
    GrowthBehind(nals, conv, m, t);
    ShiftGrows(nals, conv, 0, t);
    ShiftGrows(nals, conv, t, m);
    SmallU64(Off(nals, m) + Shift(nals, conv, t));
  }

  lemma GrowingReaches(nals: seq<Nal>, conv: seq<Nal>, m: nat)
    requires Grows(nals, conv) && m <= |nals|
    ensures Off(nals, m) <= Off(conv, m) <= Off(conv, |nals|)
  {
    ShiftGrows(nals, conv, 0, m);
    OffMonotone(conv, m, |nals|);
  }

  // If no NAL shrinks, the header size still ends where NAL m starts if and
  // only if each NAL before it that grows starts before the old offset.
  lemma HeaderGrowing(nals: seq<Nal>, conv: seq<Nal>, m: nat)
    requires Grows(nals, conv) && m <= |nals| && Off(conv, |nals|) < POW2_64
    ensures Off(nals, m) < POW2_64
    ensures Follows(nals, conv, m) <==> GrowthBefore(nals, conv, m)
  {
    GrowingReaches(nals, conv, m);
    if Off(nals, m) == 0 {
      NoGrowth(nals, conv, m);
    } else {
      NothingBefore(nals);
      var t := HeaderMoves(nals, conv, m);
      hide *;
      MovesBy(conv, Off(nals, m), m, t);
      GrowingMoved(nals, conv, m, t);
    }
  }

  // Some boundary moves the header size if the converted NALs reach it.
  lemma HeaderMoves(nals: seq<Nal>, conv: seq<Nal>, m: nat) returns (t: nat)
    requires m <= |nals| == |conv| && 0 < Off(nals, m) <= Off(conv, m) && Off(nals, m) < POW2_64
    ensures t <= |nals| && Moves(conv, Off(nals, m), t)
    ensures Follows(nals, conv, m) <==> U64(Off(nals, m) + Shift(nals, conv, t)) == Off(conv, m)
  {
    NothingBefore(conv);
    hide HeaderAfter, Off, Shift, U64, Moves, NeverMoves;
    var size: u64 := Off(nals, m);
    HeaderValue(size, nals, conv, |nals|);
    Reached(conv, size, m, |nals|);
    t :| t <= |nals| && Moves(conv, size, t)
         && HeaderAfter(Some(size), nals, conv, |nals|) == Header(0, Some(U64(size + Shift(nals, conv, t))));
  }

  lemma Reached(conv: seq<Nal>, size: nat, m: nat, i: nat)
    requires 0 < m <= i <= |conv| && size <= Off(conv, m)
    ensures !NeverMoves(conv, size, i)
  {
  }

  lemma NoGrowth(nals: seq<Nal>, conv: seq<Nal>, m: nat)
    requires Grows(nals, conv) && m <= |nals| && Off(nals, m) == 0
    ensures Follows(nals, conv, m) <==> GrowthBefore(nals, conv, m)
  {
    NoHeader(Some(0), nals, conv, |nals|);
    ShiftSame(nals, conv, 0, m);
    NothingBefore(nals);
    NothingBefore(conv);
    hide Off, HeaderAfter;
  }

  // If all NALs shrink, it does so only if NAL m is the first.
  lemma HeaderShrinking(nals: seq<Nal>, conv: seq<Nal>, m: nat)
    requires Shrinks(nals, conv) && m <= |nals| && Off(nals, |nals|) < POW2_64
    ensures Off(nals, m) < POW2_64
    ensures Follows(nals, conv, m) <==> m == 0
  {
    OffMonotone(nals, m, |nals|);
    if m == 0 {
      NoHeader(Some(0), nals, conv, |nals|);
    } else {
      ShrinkingMoved(nals, conv, m);
    }
  }

  lemma ShrinkingMoved(nals: seq<Nal>, conv: seq<Nal>, m: nat)
    requires Shrinks(nals, conv) && 0 < m <= |nals| && Off(nals, |nals|) < POW2_64 && Off(nals, m) < POW2_64
    ensures !Follows(nals, conv, m)
  {
    var size: u64 := Off(nals, m);
    var h := HeaderAfter(Some(size), nals, conv, |nals|);
    ShiftShrinks(nals, conv, 0, m);
    NothingBefore(nals);
    NothingBefore(conv);
    assert size > Off(conv, m);
    hide HeaderAfter, Off, Shrinks, Shift, U64, NeverMoves, Moves;
    HeaderValue(size, nals, conv, |nals|);
    if t: nat :| t <= |nals| && Moves(conv, size, t) && h == Header(0, Some(U64(size + Shift(nals, conv, t)))) {
      ShrinkingLands(nals, conv, m, t);
    }
  }

  // Moving by a boundary behind boundary m lands less than 2^64 before it.
  lemma ShrinkingLands(nals: seq<Nal>, conv: seq<Nal>, m: nat, t: nat)
    requires Shrinks(nals, conv) && m <= |nals| && Off(nals, |nals|) < POW2_64
    requires Moves(conv, Off(nals, m), t) && Off(conv, m) < Off(nals, m)
    ensures U64(Off(nals, m) + Shift(nals, conv, t)) != Off(conv, m)
  {
    hide Off;
    if t <= m {
      OffMonotone(conv, t, m);
    }
    ShiftShrinks(nals, conv, m, t);
    OffMonotone(nals, t, |nals|);
    OffMonotone(conv, m, t);
    Apart(Off(nals, m) + Shift(nals, conv, t), Off(conv, m));
  }

  lemma Apart(x: int, y: int)
    requires x < y < x + POW2_64
    ensures U64(x) != y
  {
  }

  // The bytes an encapsulation puts in front of a payload.
  function Width(e: Encaps): (w: nat)
    ensures forall size :: |Head(e, size)| == w
  {
    match e
    case Nalu => 0
    case Length1 => 1
    case Length2 => 2
    case _ => 4
  }

  lemma ConvertedChange(from: Encaps, to: Encaps, nals: seq<Nal>, i: nat)
    requires AllDecodable(from, nals) && i < |nals|
    ensures |ConvertAll(from, to, nals)| == |nals|
    ensures |ConvertAll(from, to, nals)[i]| - |nals[i]| == Width(to) - HeadSize(from, nals[i])
  {
    hide HeadSize, Width, Head, Decodable;
    ConvertedParts(nals, from, to, i);
  }

  // Every conversion is of one of the two kinds, and which one does not depend
  // on the frame, although a start code has 3 or 4 bytes.
  lemma ConvertedSizes(from: Encaps, to: Encaps, nals: seq<Nal>)
    requires AllDecodable(from, nals)
    ensures Width(to) < Width(from) ==> Shrinks(nals, ConvertAll(from, to, nals))
    ensures Width(to) >= Width(from) ==> Grows(nals, ConvertAll(from, to, nals))
  {
    forall i: nat | i < |nals|
      ensures |ConvertAll(from, to, nals)[i]| - |nals[i]| == Width(to) - HeadSize(from, nals[i])
    {
      ConvertedChange(from, to, nals, i);
    }
    hide ConvertAll, Head;
  }

  // Each NAL before NAL m whose head becomes longer starts, converted, before
  // the old offset of NAL m.
  ghost predicate LongerHeadsBefore(from: Encaps, to: Encaps, nals: seq<Nal>, m: nat)
    requires AllDecodable(from, nals) && m <= |nals|
  {
    forall j: nat :: j < m && HeadSize(from, nals[j]) < Width(to) ==>
      Off(ConvertAll(from, to, nals), j) < Off(nals, m)
  }

  lemma LongerHeads(from: Encaps, to: Encaps, nals: seq<Nal>, m: nat)
    requires AllDecodable(from, nals) && m <= |nals|
    ensures |ConvertAll(from, to, nals)| == |nals|
    ensures LongerHeadsBefore(from, to, nals, m) <==> GrowthBefore(nals, ConvertAll(from, to, nals), m)
  {
    assert |ConvertAll(from, to, nals)| == |nals|;
    hide ConvertAll, HeadSize, Width, Off, AllDecodable;
    forall j: nat | j < m
      ensures HeadSize(from, nals[j]) < Width(to) <==> |ConvertAll(from, to, nals)[j]| > |nals[j]|
    {
      ConvertedChange(from, to, nals, j);
    }
  }

  // After the conversion of any frame the header size still ends where NAL m
  // starts if and only if, when heads become shorter, no NAL precedes NAL m,
  // and otherwise each NAL before it whose head becomes longer starts,
  // converted, before the old offset of NAL m.
  lemma HeaderFollows(from: Encaps, to: Encaps, nals: seq<Nal>, m: nat)
    requires AllDecodable(from, nals) && Roomy(nals) && m <= |nals|
    ensures Off(nals, m) < POW2_64
    ensures Follows(nals, ConvertAll(from, to, nals), m)
       <==> if Width(to) < Width(from) then m == 0 else LongerHeadsBefore(from, to, nals, m)
  {
    var conv := ConvertAll(from, to, nals);
    ConvertedSizes(from, to, nals);
    LongerHeads(from, to, nals, m);
    FlattenAll(nals);
    ConvertGrowth(from, to, nals, |nals|);
    hide *;
    if Width(to) < Width(from) {
      HeaderShrinking(nals, conv, m);
    } else {
      HeaderGrowing(nals, conv, m);
    }
  }

  // A header of one parameter set is lost when two NALs are taken out of start
  // codes of 3 and of 4 bytes ...
  lemma HeaderStaysBehind(a: byte, b: byte)
    ensures var nals := [[0, 0, 1, a], [0, 0, 0, 1, b]];
      && AllDecodable(AnnexB, nals) && Roomy(nals)
      && Off(nals, 1) == 4 && Off(ConvertAll(AnnexB, Nalu, nals), 1) == 1
      && HeaderAfter(Some(4), nals, ConvertAll(AnnexB, Nalu, nals), 2).value == Some(4)
  {
    var nals: seq<Nal> := [[0, 0, 1, a], [0, 0, 0, 1, b]];
    var conv := ConvertAll(AnnexB, Nalu, nals);
    FlattenTwo(nals[0], nals[1]);
    assert conv[0] == [a] && conv[1] == [b];
    HeaderTwo(4, nals, conv);
  }

  // ... and one of two parameter sets falls short when they get lengths.
  lemma HeaderFallsShort(a: byte, b: byte)
    ensures var nals := [[a], [b]];
      && AllDecodable(Nalu, nals) && Roomy(nals)
      && Off(nals, 2) == 2 && Off(ConvertAll(Nalu, Length4, nals), 2) == 10
      && HeaderAfter(Some(2), nals, ConvertAll(Nalu, Length4, nals), 2).value == Some(6)
  {
    var nals: seq<Nal> := [[a], [b]];
    var conv := ConvertAll(Nalu, Length4, nals);
    FlattenTwo([a], [b]);
    assert |conv[0]| == 5 && |conv[1]| == 5;
    HeaderTwo(2, nals, conv);
  }

  lemma HeaderTwo(size: u64, nals: seq<Nal>, conv: seq<Nal>)
    requires |nals| == |conv| == 2 && size > 0
    ensures Off(nals, 1) == |nals[0]| && Off(nals, 2) == |nals[0]| + |nals[1]|
    ensures Off(conv, 1) == |conv[0]| && Off(conv, 2) == |conv[0]| + |conv[1]|
    ensures HeaderAfter(Some(size), nals, conv, 2).value == Some(
      if size <= |conv[0]| then U64(size + |conv[0]| - |nals[0]|)
      else if size <= |conv[0]| + |conv[1]| then U64(size + Off(conv, 2) - Off(nals, 2))
      else size)
  {
    assert HeaderAfter(Some(size), nals, conv, 0) == Header(size, Some(size));
    assert HeaderAfter(Some(size), nals, conv, 1) ==
      HeaderStep(Header(size, Some(size)), Off(conv, 1), Off(conv, 1) - Off(nals, 1));
  }
}
