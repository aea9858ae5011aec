// Numbers written with the most significant byte first.
module BigEndian {
  import opened Machine

  function Bytes16(x: nat): (s: seq<byte>)
    ensures |s| == 2
  {
    [x / 256 % 256, x % 256]
  }

  function Bytes32(x: nat): (s: seq<byte>)
    ensures |s| == 4
  {
    [x / 0x100_0000 % 256, x / 0x1_0000 % 256, x / 256 % 256, x % 256]
  }

  function Number(s: seq<byte>): nat {
    if s == [] then 0 else 256 * Number(s[..|s| - 1]) + s[|s| - 1]
  }

  lemma NumberStep(s: seq<byte>, i: nat)
    requires i < |s|
    ensures Number(s[..i + 1]) == 256 * Number(s[..i]) + s[i]
  {
    assert s[..i + 1][..i] == s[..i];
  }

  lemma NumberOf(s: seq<byte>)
    ensures |s| == 1 ==> Number(s) == s[0] as int
    ensures |s| == 2 ==> Number(s) == 256 * (s[0] as int) + s[1] as int
    ensures |s| == 4 ==> Number(s) == 256 * (256 * (256 * (s[0] as int) + s[1] as int) + s[2] as int) + s[3] as int
  {
    assert s[..|s|] == s;
    if |s| > 0 {
      NumberStep(s, 0);
    }
    if |s| > 1 {
      NumberStep(s, 1);
    }
    if |s| == 4 {
      NumberStep(s, 2);
      NumberStep(s, 3);
    }
  }

  lemma LastDigit(x: nat, y: nat)
    requires y == x / 256
    ensures x == 256 * y + x % 256
  {
  }

  lemma Remainder(x: nat, q: nat, r: nat)
    requires x == 0x1_0000_0000 * q + r && r < 0x1_0000_0000
    ensures x % 0x1_0000_0000 == r
  {
  }

  // What is written reads back modulo the room there is.
  lemma Bytes16Number(x: nat)
    ensures Number(Bytes16(x)) == x % 0x1_0000
  {
    hide Number;
    NumberOf(Bytes16(x));
    LastDigit(x, x / 256);
    LastDigit(x / 256, x / 256 / 256);
    Remainder16(x, x / 256 / 256, 256 * (x / 256 % 256) + x % 256);
  }

  lemma Remainder16(x: nat, q: nat, r: nat)
    requires x == 0x1_0000 * q + r && r < 0x1_0000
    ensures x % 0x1_0000 == r
  {
  }

  lemma Bytes32Number(x: nat)
    ensures Number(Bytes32(x)) == x % 0x1_0000_0000
  {
    hide Number;
    NumberOf(Bytes32(x));
    Digits(x);
  }

  lemma Digits(x: nat)
    ensures x % 0x1_0000_0000
         == 256 * (256 * (256 * (x / 0x100_0000 % 256) + x / 0x1_0000 % 256) + x / 256 % 256) + x % 256
  {
    var y := x / 256;
    var z := y / 256;
    var w := z / 256;
    assert x / 0x1_0000 == z && x / 0x100_0000 == w;
    LastDigit(x, y);
    LastDigit(y, z);
    LastDigit(z, w);
    LastDigit(w, w / 256);
    Remainder(x, w / 256, 256 * (256 * (256 * (w % 256) + z % 256) + y % 256) + x % 256);
  }

  // Four bytes are what is written for their number.
  lemma NumberBytes32(s: seq<byte>)
    requires |s| == 4
    ensures Number(s) < 0x1_0000_0000 && Bytes32(Number(s)) == s
  {
    NumberOf(s);
    hide Number;
    var x := Number(s);
    var y := 256 * (256 * (s[0] as int) + s[1] as int) + s[2] as int;
    var z := 256 * (s[0] as int) + s[1] as int;
    assert x / 256 == y && y / 256 == z && z / 256 == s[0] as int;
    assert x / 0x1_0000 == z && x / 0x100_0000 == s[0] as int;
  }

  lemma NumberAppend(s: seq<byte>, t: seq<byte>)
    requires |t| == 4
    ensures Number(s + t) == Number(s) * 0x1_0000_0000 + Number(t)
  {
    NumberOf(t);
    var n := |s|;
    assert (s + t)[..n] == s && (s + t)[..n + 4] == s + t;
    hide Number;
    NumberStep(s + t, n);
    NumberStep(s + t, n + 1);
    NumberStep(s + t, n + 2);
    NumberStep(s + t, n + 3);
  }
}
