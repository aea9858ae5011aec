// Lists of byte strings laid end to end.
module Chunks {
  import opened Machine

  type Chunk = seq<byte>

  function Flatten(cs: seq<Chunk>): seq<byte> {
    if cs == [] then [] else cs[0] + Flatten(cs[1..])
  }

  // Number of bytes in the first i chunks: the boundary after chunk i-1.
  function Off(cs: seq<Chunk>, i: nat): nat
    requires i <= |cs|
  {
    if i == 0 then 0 else Off(cs, i - 1) + |cs[i - 1]|
  }

  lemma {:induction false} FlattenConcat(a: seq<Chunk>, b: seq<Chunk>)
    ensures Flatten(a + b) == Flatten(a) + Flatten(b)
  {
    FlattenCons(a);
    FlattenCons(a + b);
    hide Flatten;
    if a == [] {
      assert a + b == b;
    } else {
      FlattenConcat(a[1..], b);
      assert (a + b)[1..] == a[1..] + b;
      Associate(a[0], Flatten(a[1..]), Flatten(b));
    }
  }

  lemma Associate<T>(x: seq<T>, y: seq<T>, z: seq<T>)
    ensures x + y + z == x + (y + z)
  {
  }

  lemma OffStep(cs: seq<Chunk>, i: nat)
    requires i < |cs|
    ensures Off(cs, i + 1) == Off(cs, i) + |cs[i]|
  {
  }

  lemma NothingBefore(cs: seq<Chunk>)
    ensures Off(cs, 0) == 0
  {
  }

  lemma {:induction false} OffPrefix(a: seq<Chunk>, b: seq<Chunk>, i: nat)
    requires i <= |a|
    ensures Off(a + b, i) == Off(a, i)
  {
    if i > 0 {
      OffPrefix(a, b, i - 1);
    }
  }

  lemma {:induction false} OffIsLength(cs: seq<Chunk>, i: nat)
    requires i <= |cs|
    ensures Off(cs, i) == |Flatten(cs[..i])|
  {
    if i > 0 {
      OffIsLength(cs, i - 1);
      assert cs[..i] == cs[..i - 1] + [cs[i - 1]];
      FlattenConcat(cs[..i - 1], [cs[i - 1]]);
    }
  }

  lemma {:induction false} OffMonotone(cs: seq<Chunk>, i: nat, j: nat)
    requires i <= j <= |cs|
    ensures Off(cs, i) <= Off(cs, j)
  {
    if i < j {
      OffMonotone(cs, i, j - 1);
    }
  }

  // Chunk i sits between its two boundaries.
  lemma {:induction false} ChunkAt(cs: seq<Chunk>, i: nat)
    requires i < |cs|
    ensures Off(cs, i) <= Off(cs, i + 1) <= |Flatten(cs)|
    ensures Flatten(cs)[Off(cs, i)..Off(cs, i + 1)] == cs[i]
    ensures Flatten(cs) == Flatten(cs[..i]) + cs[i] + Flatten(cs[i + 1..])
  {
    assert cs == cs[..i] + ([cs[i]] + cs[i + 1..]);
    FlattenConcat(cs[..i], [cs[i]] + cs[i + 1..]);
    FlattenConcat([cs[i]], cs[i + 1..]);
    OffIsLength(cs, i);
  }

  lemma JoinSlices(b: seq<byte>, i: nat, j: nat)
    requires i <= j <= |b|
    ensures b[..i] + b[i..j] == b[..j] && b[..|b|] == b
  {
  }

  lemma FlattenSnoc(cs: seq<Chunk>, i: nat)
    requires i < |cs|
    ensures Flatten(cs[..i + 1]) == Flatten(cs[..i]) + cs[i]
  {
    assert cs[..i + 1] == cs[..i] + [cs[i]];
    FlattenConcat(cs[..i], [cs[i]]);
  }

  lemma FlattenAll(cs: seq<Chunk>)
    ensures Off(cs, |cs|) == |Flatten(cs)|
  {
    OffIsLength(cs, |cs|);
    assert cs[..|cs|] == cs;
  }

  lemma FlattenOne(b: Chunk)
    ensures Flatten([b]) == b
  {
    assert [b][1..] == [];
  }

  lemma FlattenCons(cs: seq<Chunk>)
    ensures Flatten(cs) == if cs == [] then [] else cs[0] + Flatten(cs[1..])
  {
  }

  lemma Reassociate<T>(s: seq<T>, t: seq<T>)
    ensures s == [] ==> s + t == t
    ensures s != [] ==> s + t == [s[0]] + (s[1..] + t)
  {
  }

  lemma {:induction false} OffCons(b: Chunk, cs: seq<Chunk>, i: nat)
    requires i <= |cs|
    ensures Off([b] + cs, i + 1) == |b| + Off(cs, i)
  {
    if i > 0 {
      OffCons(b, cs, i - 1);
    }
  }

  lemma FlattenTwo(x: Chunk, y: Chunk)
    ensures Flatten([x, y]) == x + y
  {
    assert [x, y][1..] == [y];
    FlattenOne(y);
  }
}
