// Control words in hexadecimal: three grammars
// (include/upipe-dvbcsa/upipe_dvbcsa_common.h) and the printer whose output is
// parsed by one of them (examples/ts_encrypt.c).
module ControlWord {
  import opened Hex
  import opened Machine

  // ---------------------------------------------------------------------
  // The part of include/upipe/ustring.h the parsers use
  // ---------------------------------------------------------------------

  // A length and a pointer, possibly null.
  datatype Ustring = Null | Str(chars: string)

  function Len(u: Ustring): nat {
    if u == Null then 0 else |u.chars|
  }

  function Sub(u: Ustring, offset: nat, length: nat): Ustring {
    if u == Null || offset > |u.chars| then
      Null
    else if |u.chars| - offset > length then
      Str(u.chars[offset..offset + length])
    else
      Str(u.chars[offset..])
  }

  function Shift(u: Ustring, offset: nat): Ustring {
    Sub(u, offset, Len(u))
  }

  function Truncate(u: Ustring, length: nat): Ustring {
    Sub(u, 0, length)
  }

  datatype Match = Match(str: Ustring, value: byte)

  function ToHexdigit(u: Ustring): Match {
    if Len(u) > 0 && IsHex(u.chars[0]) then Match(Truncate(u, 1), HexValue(u.chars[0])) else Match(Null, 0)
  }

  function ToByte(u: Ustring): Match {
    var high := ToHexdigit(u);
    if Len(high.str) == 0 then
      Match(Null, 0)
    else
      var low := ToHexdigit(Shift(u, Len(high.str)));
      if Len(low.str) == 0 then
        high
      else
        Match(Truncate(u, Len(high.str) + Len(low.str)), high.value * 16 + low.value)
  }

  // ---------------------------------------------------------------------
  // What the strings mean
  // ---------------------------------------------------------------------

  // The first n pairs of characters are hexadecimal digits.
  ghost predicate HexPairs(s: string, n: nat) {
    |s| >= 2 * n && forall i: nat :: i < 2 * n ==> IsHex(s[i])
  }

  function ByteAt(s: string, i: nat): byte
    requires 2 * i + 1 < |s| && IsHex(s[2 * i]) && IsHex(s[2 * i + 1])
  {
    HexValue(s[2 * i]) * 16 + HexValue(s[2 * i + 1])
  }

  function BytesOf(s: string, n: nat): seq<byte>
    requires HexPairs(s, n)
  {
    seq(n, i requires 0 <= i < n => ByteAt(s, i))
  }

  function Sum(a: byte, b: byte, c: byte): byte {
    (a as int + b as int + c as int) % 256
  }

  lemma SumOf()
    ensures forall a: byte, b: byte, c: byte :: Sum(a, b, c) as int == (a as int + b as int + c as int) % 256
  {
  }

  // A 48-bit word with its two checksum bytes.
  function Expanded(w: seq<byte>): seq<byte>
    requires |w| == 6
  {
    w[..3] + [Sum(w[0], w[1], w[2])] + w[3..] + [Sum(w[3], w[4], w[5])]
  }

  predicate Checksummed(w: seq<byte>) {
    |w| == 8 && w[3] == Sum(w[0], w[1], w[2]) && w[7] == Sum(w[4], w[5], w[6])
  }

  // A string is accepted by a grammar, and this is its value.
  ghost predicate Accepts128(s: string) { HexPairs(s, 16) }

  ghost predicate Accepts64(s: string) { HexPairs(s, 8) && Checksummed(BytesOf(s, 8)) }

  ghost predicate Accepts48(s: string) { HexPairs(s, 6) }

  // A pair of digits, in either case, is worth 16 times the position of the
  // first plus the position of the second.
  lemma PairValue(s: string, n: nat, i: nat, high: nat, low: nat)
    requires i < n && 2 * n <= |s| && high < 16 && low < 16
    requires s[2 * i] == "0123456789abcdef"[high] || s[2 * i] == "0123456789ABCDEF"[high]
    requires s[2 * i + 1] == "0123456789abcdef"[low] || s[2 * i + 1] == "0123456789ABCDEF"[low]
    ensures HexPairs(s, n) ==> BytesOf(s, n)[i] == 16 * high + low
  {
    DigitPositions(high);
    DigitPositions(low);
    hide HexValue;
  }

  lemma PairsAreDigits(s: string, n: nat)
    ensures HexPairs(s, n) <==>
      2 * n <= |s| && forall i: nat :: i < 2 * n ==> s[i] in "0123456789abcdef" || s[i] in "0123456789ABCDEF"
  {
    if 2 * n <= |s| {
      forall i: nat | i < 2 * n
        ensures IsHex(s[i]) <==> s[i] in "0123456789abcdef" || s[i] in "0123456789ABCDEF"
      {
        NoOtherDigits(s[i]);
      }
    }
  }

  function UpperCase(c: char): char {
    if 'a' <= c <= 'z' then 'A' + (c - 'a') else c
  }

  function Upper(s: string): string {
    seq(|s|, i requires 0 <= i < |s| => UpperCase(s[i]))
  }

  lemma UpperDigit(c: char)
    ensures IsHex(UpperCase(c)) <==> IsHex(c)
    ensures IsHex(c) ==> HexValue(UpperCase(c)) == HexValue(c)
  {
  }

  lemma UpperPairs(s: string, n: nat)
    ensures HexPairs(Upper(s), n) <==> HexPairs(s, n)
    ensures HexPairs(s, n) ==> BytesOf(Upper(s), n) == BytesOf(s, n)
  {
    hide IsHex, HexValue, UpperCase;
    forall i: nat | i < |s|
      ensures IsHex(Upper(s)[i]) <==> IsHex(s[i])
      ensures IsHex(s[i]) ==> HexValue(Upper(s)[i]) == HexValue(s[i])
    {
      UpperDigit(s[i]);
    }
  }

  // Reading pair k at the front of what is left of a string.
  lemma PairInFront(s: string, k: nat)
    requires 2 * k <= |s| && HexPairs(s, k)
    ensures var m := ToByte(Str(s[2 * k..]));
      && (Len(m.str) == 2 <==> HexPairs(s, k + 1))
      && (Len(m.str) == 2 ==> 2 * (k + 1) <= |s| && BytesOf(s, k + 1) == BytesOf(s, k) + [m.value]
                              && Shift(Str(s[2 * k..]), 2) == Str(s[2 * (k + 1)..]))
      && (Len(m.str) != 2 ==> forall n: nat :: n > k ==> !HexPairs(s, n))
  {
    var i := 2 * k;
    if i + 2 <= |s| {
      assert s[i..][1..] == s[i + 1..] && s[i..][2..] == s[i + 2..];
    }
  }

  // ---------------------------------------------------------------------
  // The parsers
  // ---------------------------------------------------------------------

  // ustring_to_dvbcsa_cw128
  method ToCw128(str: Ustring) returns (matched: Ustring, aes: array<byte>)
    ensures fresh(aes) && aes.Length == 16
    ensures matched == if str.Str? && Accepts128(str.chars) then Truncate(str, 32) else Null
    ensures matched.Str? ==> aes[..] == BytesOf(str.chars, 16) && matched == Str(str.chars[..32])
  {
    hide ToByte, Shift, BytesOf, HexPairs;
    StartOfString(str);
    var tmp := str;
    aes := new byte[16];
    matched := Null;
    for i := 0 to 16
      invariant str.Str? ==> 2 * i <= |str.chars| && tmp == Str(str.chars[2 * i..])
      invariant str == Null ==> i == 0 && tmp == Null
      invariant str.Str? ==> HexPairs(str.chars, i) && aes[..i] == BytesOf(str.chars, i)
    {
      var b := ToByte(tmp);
      if str.Str? {
        PairInFront(str.chars, i);
      }
      if Len(b.str) != 2 {
        return;
      }
      aes[i] := b.value;
      tmp := Shift(tmp, 2);
    }
    assert aes[..16] == aes[..];
    matched := Truncate(str, 32);
  }

  // What the 64-bit grammar asks of eight bytes.
  lemma ChecksumBytes(s: string)
    requires HexPairs(s, 8)
    ensures var w := BytesOf(s, 8);
      Accepts64(s) <==>
        && w[3] as int == (w[0] as int + w[1] as int + w[2] as int) % 256
        && w[7] as int == (w[4] as int + w[5] as int + w[6] as int) % 256
  {
    hide ByteAt;
  }

  // ustring_to_dvbcsa_cw64
  method ToCw64(str: Ustring) returns (matched: Ustring, value: array<byte>)
    ensures fresh(value) && value.Length == 8
    ensures matched == if str.Str? && Accepts64(str.chars) then Truncate(str, 16) else Null
    ensures matched.Str? ==> value[..] == BytesOf(str.chars, 8) && matched == Str(str.chars[..16])
  {
    hide ToByte, Shift, BytesOf, HexPairs, Sum;
    StartOfString(str);
    var tmp := str;
    value := new byte[8];
    matched := Null;
    for i := 0 to 8
      invariant str.Str? ==> 2 * i <= |str.chars| && tmp == Str(str.chars[2 * i..])
      invariant str == Null ==> i == 0 && tmp == Null
      invariant str.Str? ==> HexPairs(str.chars, i) && value[..i] == BytesOf(str.chars, i)
      invariant i > 3 ==> value[3] == Sum(value[0], value[1], value[2])
      invariant i > 7 ==> value[7] == Sum(value[4], value[5], value[6])
    {
      var b := ToByte(tmp);
      if str.Str? {
        PairInFront(str.chars, i);
      }
      if Len(b.str) != 2 {
        return;
      }
      if i == 3 || i == 7 {
        value[i] := Sum(value[i - 3], value[i - 2], value[i - 1]);
        if b.value != value[i] {
          ChecksumFails(str.chars, i, b.value);
          return;
        }
      } else {
        value[i] := b.value;
      }
      tmp := Shift(tmp, 2);
    }
    assert value[..8] == value[..];
    matched := Truncate(str, 16);
  }

  // A checksum byte that is not the sum of the three bytes before it.
  lemma ChecksumFails(s: string, i: nat, b: byte)
    requires (i == 3 || i == 7) && HexPairs(s, i) && HexPairs(s, i + 1)
    requires BytesOf(s, i + 1) == BytesOf(s, i) + [b]
    requires b != Sum(BytesOf(s, i)[i - 3], BytesOf(s, i)[i - 2], BytesOf(s, i)[i - 1])
    ensures !Accepts64(s)
  {
    hide Sum, ByteAt;
    if HexPairs(s, 8) {
      var w := BytesOf(s, 8);
      assert w[..i + 1] == BytesOf(s, i + 1) && w[..i] == BytesOf(s, i);
      assert w[i] == b && w[i - 3] == BytesOf(s, i)[i - 3];
    }
  }

  // ustring_to_dvbcsa_cw48
  method ToCw48(str: Ustring) returns (matched: Ustring, value: array<byte>)
    ensures fresh(value) && value.Length == 8
    ensures matched == if str.Str? && Accepts48(str.chars) then Truncate(str, 12) else Null
    ensures matched.Str? ==> value[..] == Expanded(BytesOf(str.chars, 6)) && matched == Str(str.chars[..12])
    ensures matched.Str? ==>
      && value[..3] + value[4..7] == BytesOf(str.chars, 6)
      && value[3] as int == (value[0] as int + value[1] as int + value[2] as int) % 256
      && value[7] as int == (value[4] as int + value[5] as int + value[6] as int) % 256
  {
    SumOf();
    hide ToByte, Shift, Sum, BytesOf, HexPairs;
    var tmp := str;
    value := new byte[8];
    matched := Null;
    StartOfString(str);
    for i := 0 to 8
      invariant str.Str? ==> 2 * Read(i) <= |str.chars| && tmp == Str(str.chars[2 * Read(i)..])
      invariant str == Null ==> i == 0 && tmp == Null
      invariant str.Str? ==> HexPairs(str.chars, Read(i)) && Plain(value[..i]) == BytesOf(str.chars, Read(i))
      invariant i > 3 ==> value[3] == Sum(value[0], value[1], value[2])
      invariant i > 7 ==> value[7] == Sum(value[4], value[5], value[6])
    {
      if i == 3 || i == 7 {
        value[i] := Sum(value[i - 3], value[i - 2], value[i - 1]);
      } else {
        var b := ToByte(tmp);
        if str.Str? {
          PairInFront(str.chars, Read(i));
        }
        if Len(b.str) != 2 {
          return;
        }
        tmp := Shift(tmp, 2);
        value[i] := b.value;
      }
    }
    assert value[..8] == value[..];
    ExpandedOf(value[..]);
    matched := Truncate(str, 12);
  }

  lemma StartOfString(str: Ustring)
    ensures str.Str? ==> str == Str(str.chars[0..])
    ensures str.Str? ==> HexPairs(str.chars, 0) && BytesOf(str.chars, 0) == []
    ensures Len(ToByte(Null).str) == 0
  {
  }

  // A part of a word without its checksum bytes.
  function Plain(v: seq<byte>): seq<byte> {
    if |v| <= 3 then v else if |v| <= 7 then v[..3] + v[4..] else v[..3] + v[4..7]
  }

  lemma ExpandedOf(v: seq<byte>)
    requires |v| == 8 && v[3] == Sum(v[0], v[1], v[2]) && v[7] == Sum(v[4], v[5], v[6])
    ensures v == Expanded(Plain(v))
  {
    hide Sum;
    var w := Plain(v);
    assert w == [v[0], v[1], v[2], v[4], v[5], v[6]];
  }

  // How many bytes the 48-bit parser has read before byte i of its result.
  function Read(i: nat): nat {
    if i <= 3 then i else if i <= 7 then i - 1 else i - 2
  }

  // ustring_to_dvbcsa_cw
  method ToCw(str: Ustring) returns (matched: Ustring, value: array<byte>)
    ensures matched.Str? <==> str.Str? && Accepts(str.chars)
    ensures matched.Str? ==> matched == Truncate(str, 2 * WordSize(str.chars)) && value[..] == ValueOf(str.chars)
    ensures str.Str? && |str.chars| >= 32 ==>
      && (matched.Str? <==> HexPairs(str.chars, 16))
      && (matched.Str? ==> matched == Str(str.chars[..32]) && value[..] == BytesOf(str.chars, 16))
    ensures str.Str? && 16 <= |str.chars| < 32 && matched.Str? ==>
      HexPairs(str.chars, 8) && matched == Str(str.chars[..16]) && value[..] == BytesOf(str.chars, 8)
    ensures str.Str? && |str.chars| < 16 ==>
      && (matched.Str? <==> HexPairs(str.chars, 6))
      && (matched.Str? ==> matched == Str(str.chars[..12]) && value.Length == 8
                           && value[..3] + value[4..7] == BytesOf(str.chars, 6))
  {
    if Len(str) >= 32 {
      matched, value := ToCw128(str);
    } else if Len(str) >= 16 {
      matched, value := ToCw64(str);
    } else {
      matched, value := ToCw48(str);
    }
  }

  // The dispatch goes by length alone.
  function WordSize(s: string): nat {
    if |s| >= 32 then 16 else if |s| >= 16 then 8 else 6
  }

  ghost predicate Accepts(s: string) {
    HexPairs(s, WordSize(s)) && (WordSize(s) == 8 ==> Checksummed(BytesOf(s, 8)))
  }

  ghost function ValueOf(s: string): seq<byte>
    requires Accepts(s)
  {
    if WordSize(s) == 6 then Expanded(BytesOf(s, 6)) else BytesOf(s, WordSize(s))
  }

  // A string and its upper-case form are the same control word or none.
  lemma EitherCase(s: string)
    ensures Accepts(Upper(s)) <==> Accepts(s)
    ensures Accepts(s) ==> ValueOf(Upper(s)) == ValueOf(s)
  {
    hide HexPairs, BytesOf, Checksummed, Expanded;
    UpperPairs(s, WordSize(s));
    assert WordSize(Upper(s)) == WordSize(s);
  }

  // ---------------------------------------------------------------------
  // The 64-bit and the 48-bit grammar
  // ---------------------------------------------------------------------

  // The digits of a 64-bit word without its two checksum bytes.
  function Squeezed(s: string): string
    requires |s| >= 16
  {
    s[..6] + s[8..14]
  }

  lemma SqueezedBytes(s: string)
    requires HexPairs(s, 8)
    ensures HexPairs(Squeezed(s), 6)
    ensures BytesOf(Squeezed(s), 6) == BytesOf(s, 8)[..3] + BytesOf(s, 8)[4..7]
  {
    var q := Squeezed(s);
    assert forall i: nat :: i < 12 ==> q[i] == if i < 6 then s[i] else s[i + 2];
  }

  // A string of 16 to 31 characters is a control word exactly when the first 16
  // are digits and the word is its six other bytes with their checksums; and
  // then it means what the 12 digits without the checksums mean.
  lemma Grammars64And48(s: string)
    requires 16 <= |s| < 32
    ensures Accepts(s) <==> HexPairs(s, 8) && BytesOf(s, 8) == Expanded(BytesOf(s, 8)[..3] + BytesOf(s, 8)[4..7])
    ensures Accepts(s) ==> Accepts(Squeezed(s)) && ValueOf(Squeezed(s)) == ValueOf(s)
  {
    if HexPairs(s, 8) {
      SqueezedBytes(s);
      var w := BytesOf(s, 8);
      var x := Expanded(w[..3] + w[4..7]);
      assert w == [w[0], w[1], w[2], w[3], w[4], w[5], w[6], w[7]];
      assert x == [w[0], w[1], w[2], x[3], w[4], w[5], w[6], x[7]];
    }
  }

  // ---------------------------------------------------------------------
  // The printer
  // ---------------------------------------------------------------------

  function PrintKey(key: seq<byte>): string {
    if key == [] then "" else PrintKey(key[..|key| - 1]) + PrintByte(key[|key| - 1])
  }

  lemma {:induction false} PrintedDigits(key: seq<byte>)
    ensures |PrintKey(key)| == 2 * |key| && HexPairs(PrintKey(key), |key|)
    ensures forall i: nat :: i < |key| ==> ByteAt(PrintKey(key), i) == key[i]
  {
    if key != [] {
      PrintedDigits(key[..|key| - 1]);
    }
  }

  // The key handler: each key printed into 33 characters, the last one NUL.
  method PrintKeys(even: seq<byte>, odd: seq<byte>) returns (e: array<char>, o: array<char>)
    requires |even| == 16 && |odd| == 16
    ensures e[..] == PrintKey(even) + ['\0'] && o[..] == PrintKey(odd) + ['\0']
  {
    e := Snprintf(even);
    o := Snprintf(odd);
  }

  method Snprintf(key: seq<byte>) returns (buf: array<char>)
    requires |key| == 16
    ensures fresh(buf) && buf[..] == PrintKey(key) + ['\0']
  {
    buf := new char[33];
    for i := 0 to 16
      invariant buf[..2 * i] == PrintKey(key[..i])
    {
      buf[2 * i], buf[2 * i + 1] := HexDigit(key[i] / 16), HexDigit(key[i] % 16);
      assert key[..i + 1][..i] == key[..i];
      assert buf[..2 * (i + 1)] == buf[..2 * i] + PrintByte(key[i]);
    }
    buf[32] := '\0';
    assert key[..16] == key;
    assert buf[..] == buf[..32] + ['\0'];
  }

  // ustring_from_str: the characters before the first NUL.
  function FromStr(s: string): string
    requires '\0' in s
    decreases |s|
  {
    if s[0] == '\0' then "" else [s[0]] + FromStr(s[1..])
  }

  lemma {:induction false} FromStrOf(s: string)
    requires '\0' !in s
    ensures FromStr(s + ['\0']) == s
  {
    if s != "" {
      FromStrOf(s[1..]);
      assert (s + ['\0'])[1..] == s[1..] + ['\0'];
    }
  }

  // Every printed key is a string of 32 digits, which the parser hands to the
  // 128-bit grammar, matches entirely and reads back as the same 16 bytes.
  lemma KeyRoundTrip(key: seq<byte>)
    requires |key| == 16
    ensures '\0' in PrintKey(key) + ['\0']
    ensures var s := FromStr(PrintKey(key) + ['\0']);
      WordSize(s) == 16 && Accepts(s) && Truncate(Str(s), 32) == Str(s) && ValueOf(s) == key
  {
    var s := PrintKey(key);
    PrintedDigits(key);
    assert (s + ['\0'])[32] == '\0';
    FromStrOf(s);
    assert BytesOf(s, 16) == key;
  }

  // The same keys in upper case.
  lemma UpperKeyRoundTrip(key: seq<byte>)
    requires |key| == 16
    ensures var s := Upper(PrintKey(key));
      |s| == 32 && WordSize(s) == 16 && Accepts(s) && ValueOf(s) == key
  {
    KeyRoundTrip(key);
    PrintedDigits(key);
    FromStrOf(PrintKey(key));
    EitherCase(PrintKey(key));
  }

  // Conversely, every 48-bit word, printed with its checksums, is an accepted
  // 64-bit word of the same value.
  lemma ExpandedIsAccepted(s: string)
    requires |s| < 16 && Accepts(s)
    ensures var x := PrintKey(ValueOf(s));
      |x| == 16 && Accepts(x) && ValueOf(x) == ValueOf(s)
  {
    var v := ValueOf(s);
    PrintedDigits(v);
    assert BytesOf(PrintKey(v), 8) == v;
  }
}
