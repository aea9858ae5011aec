// The index of NAL units kept beside the bytes of a coded picture
// (include/upipe-framers/uref_h26x.h).
//
// A frame is one block of bytes and a dictionary h26x.n[0], h26x.n[1], ... of
// end offsets.  The first NAL starts at 0 and the last one may end, without an
// entry of its own, at the end of the block.  What the index is for is the list
// of NALs it denotes, so every operation is related to that list.
module NalIndex {
  import opened Chunks
  import opened Machine

  type Nal = seq<byte>

  // The part of a uref these operations see.  No buffer attached is None.
  datatype Mem = Mem(block: Option<seq<byte>>, n: map<nat, nat>)

  // The in-out arguments counter_p, offset_p and size_p of the iterator.
  datatype Cursor = Cursor(counter: nat, offset: nat, size: nat)

  // ---------------------------------------------------------------------
  // Lists of NALs and the indexes that describe them
  // ---------------------------------------------------------------------

  ghost predicate Contiguous(n: map<nat, nat>) {
    forall i: nat :: i in n <==> i < |n|
  }

  // What an index must satisfy, said without mentioning NALs.
  ghost predicate Valid(m: Mem) {
    && m.block.Some?
    && |m.block.value| < POW2_64
    && Contiguous(m.n)
    && (forall i: nat, j: nat :: i <= j < |m.n| ==> m.n[i] <= m.n[j])
    && (forall i: nat :: i < |m.n| ==> m.n[i] <= |m.block.value|)
  }

  // The bytes are these NALs one after the other, the entries are their ends,
  // and at most the last one, which is then nonempty, has no entry.
  ghost predicate Describes(m: Mem, nals: seq<Nal>) {
    && m.block == Some(Flatten(nals))
    && |Flatten(nals)| < POW2_64
    && Contiguous(m.n)
    && |m.n| <= |nals| <= |m.n| + 1
    && (|nals| == |m.n| + 1 ==> nals[|m.n|] != [])
    && (forall i: nat :: i < |m.n| ==> m.n[i] == Off(nals, i + 1))
  }

  // Where NAL i starts and ends according to the index.
  ghost function Start(m: Mem, i: nat): nat
    requires Contiguous(m.n) && i <= |m.n|
  {
    if i == 0 then 0 else m.n[i - 1]
  }

  ghost function End(m: Mem, i: nat): nat
    requires Valid(m) && i <= |m.n|
  {
    if i < |m.n| then m.n[i] else |m.block.value|
  }

  // The last NAL has no entry exactly when bytes remain after the last entry.
  ghost function Count(m: Mem): nat
    requires Valid(m)
  {
    if Start(m, |m.n|) < |m.block.value| then |m.n| + 1 else |m.n|
  }

  ghost function NalOf(m: Mem, i: nat): Nal
    requires Valid(m) && i <= |m.n|
    ensures Start(m, i) + |NalOf(m, i)| == End(m, i)
  {
    m.block.value[Start(m, i)..End(m, i)]
  }

  // The NALs a valid index denotes.
  ghost function Nals(m: Mem): seq<Nal>
    requires Valid(m)
  {
    seq(Count(m), i requires 0 <= i < Count(m) => NalOf(m, i))
  }

  lemma NalsAt(m: Mem, i: nat)
    requires Valid(m) && i < |m.n|
    ensures |m.n| <= |Nals(m)| && m.block.Some? && Start(m, i) <= Start(m, i + 1) <= |m.block.value|
    ensures Nals(m)[i] == m.block.value[Start(m, i)..Start(m, i + 1)]
  {
  }

  // The first i NALs fill the block up to boundary i.
  ghost predicate Fills(nals: seq<Nal>, i: nat, block: seq<byte>, start: nat) {
    && i <= |nals| && Off(nals, i) == start <= |block|
    && Flatten(nals[..i]) == block[..start]
  }

  lemma FillsStep(nals: seq<Nal>, i: nat, block: seq<byte>, start: nat, end: nat)
    requires Fills(nals, i, block, start) && i < |nals| && start <= end <= |block|
    requires nals[i] == block[start..end]
    ensures Fills(nals, i + 1, block, end)
  {
    hide Flatten, Off;
    OffStep(nals, i);
    FlattenSnoc(nals, i);
    JoinSlices(block, start, end);
  }

  lemma FillsNothing(nals: seq<Nal>, block: seq<byte>)
    ensures Fills(nals, 0, block, 0)
  {
  }

  lemma FillsNal(m: Mem, i: nat)
    requires Valid(m) && i < |m.n| && Fills(Nals(m), i, m.block.value, Start(m, i))
    ensures Fills(Nals(m), i + 1, m.block.value, Start(m, i + 1))
  {
    NalsAt(m, i);
    hide Fills, Nals, Valid, Start;
    FillsStep(Nals(m), i, m.block.value, Start(m, i), Start(m, i + 1));
  }

  lemma {:induction false} PrefixOfNals(m: Mem, i: nat)
    requires Valid(m) && i <= |m.n|
    ensures Fills(Nals(m), i, m.block.value, Start(m, i))
  {
    hide Fills, Nals;
    if i == 0 {
      FillsNothing(Nals(m), m.block.value);
    } else {
      PrefixOfNals(m, i - 1);
      FillsNal(m, i - 1);
    }
  }

  lemma FlattenNals(m: Mem)
    requires Valid(m)
    ensures Flatten(Nals(m)) == m.block.value
  {
    hide Flatten;
    var b, k := m.block.value, |m.n|;
    PrefixOfNals(m, k);
    assert Nals(m)[..Count(m)] == Nals(m);
    if Count(m) == k + 1 {
      FlattenSnoc(Nals(m), k);
    }
    JoinSlices(b, Start(m, k), |b|);
  }

  // Validity is exactly being the index of some list of NALs: of this one ...
  lemma NalsDescribe(m: Mem)
    requires Valid(m)
    ensures Describes(m, Nals(m))
  {
    hide Flatten, Off;
    FlattenNals(m);
    forall i: nat | i < |m.n|
      ensures m.n[i] == Off(Nals(m), i + 1)
    {
      PrefixOfNals(m, i + 1);
    }
  }

  lemma DescribedOrder(m: Mem, nals: seq<Nal>, i: nat, j: nat)
    requires Describes(m, nals) && i <= j < |m.n|
    ensures m.n[i] <= m.n[j] <= |Flatten(nals)|
  {
    FlattenAll(nals);
    hide Flatten;
    OffMonotone(nals, i + 1, j + 1);
    OffMonotone(nals, j + 1, |nals|);
  }

  lemma DescribedIsValid(m: Mem, nals: seq<Nal>)
    requires Describes(m, nals)
    ensures Valid(m) && Count(m) == |nals|
  {
    FlattenAll(nals);
    hide Flatten;
    forall i: nat, j: nat | i <= j < |m.n|
      ensures m.n[i] <= m.n[j] <= |Flatten(nals)|
    {
      DescribedOrder(m, nals, i, j);
    }
  }

  lemma DescribedNal(m: Mem, nals: seq<Nal>, i: nat)
    requires Describes(m, nals) && Valid(m) && i < |nals|
    ensures NalOf(m, i) == nals[i]
  {
    ChunkAt(nals, i);
    FlattenAll(nals);
  }

  // ... and of no other.
  lemma DescribesUnique(m: Mem, nals: seq<Nal>)
    requires Describes(m, nals)
    ensures Valid(m) && Nals(m) == nals
  {
    DescribedIsValid(m, nals);
    hide Describes, Flatten, Off, NalOf;
    forall i: nat | i < |nals|
      ensures Nals(m)[i] == nals[i]
    {
      DescribedNal(m, nals, i);
    }
  }

  // ---------------------------------------------------------------------
  // Iteration
  // ---------------------------------------------------------------------

  datatype Step = Step(err: Code, m: Mem, c: Cursor)

  // One call of the iterator, in uint64_t arithmetic, on any index at all.
  function Iterate(m: Mem, c: Cursor, correction: int): Step {
    var offset := if c.counter == 0 then 0 else U64(c.offset + c.size);
    if c.counter in m.n then
      var next := if correction == 0 then m.n[c.counter] else U64(m.n[c.counter] + correction);
      var m' := if correction == 0 then m else m.(n := m.n[c.counter := next]);
      Step(ErrNone, m', Cursor(c.counter + 1, offset, U64(next - offset)))
    else if m.block.Some? && |m.block.value| > offset then
      Step(ErrNone, m, Cursor(c.counter + 1, offset, |m.block.value| - offset))
    else
      Step(ErrInvalid, m, Cursor(c.counter, offset, c.size))
  }

  // The same in numbers.
  lemma IterateInNumbers(m: Mem, c: Cursor, correction: int)
    ensures var (s, wrap) := (Iterate(m, c, correction), 0x1_0000_0000_0000_0000);
      && s.m.block == m.block
      && s.c.offset == (if c.counter == 0 then 0 else (c.offset + c.size) % wrap)
      && (s.err == ErrNone <==> c.counter in m.n || (m.block.Some? && |m.block.value| > s.c.offset))
      && (s.err == ErrInvalid ==> s.m == m && s.c.counter == c.counter && s.c.size == c.size)
      && (s.err == ErrNone ==> s.c.counter == c.counter + 1)
      && (c.counter in m.n ==>
            && s.m.n == m.n[c.counter :=
                              if correction == 0 then m.n[c.counter] else (m.n[c.counter] + correction) % wrap]
            && s.c.size == (s.m.n[c.counter] - s.c.offset) % wrap)
      && (s.err == ErrNone && c.counter !in m.n ==> s.m == m && s.c.offset + s.c.size == |m.block.value|)
  {
    if c.counter in m.n && correction == 0 {
      assert m.n[c.counter := m.n[c.counter]] == m.n;
    }
  }

  // Calling the iterator from cursor c with correction 0 returns these cursors
  // one after the other and then reports an error; the index is left alone.
  ghost predicate Walks(m: Mem, c: Cursor, visits: seq<Cursor>) {
    && (forall i: nat :: i < |visits| ==> Returns(m, c, visits, i))
    && Iterate(m, Before(c, visits, |visits|), 0).err == ErrInvalid
  }

  ghost predicate Returns(m: Mem, c: Cursor, visits: seq<Cursor>, i: nat)
    requires i < |visits|
  {
    Iterate(m, Before(c, visits, i), 0) == Step(ErrNone, m, visits[i])
  }

  ghost function Before(c: Cursor, visits: seq<Cursor>, i: nat): Cursor
    requires i <= |visits|
  {
    if i == 0 then c else visits[i - 1]
  }

  // The cursor after NAL i has been returned.
  function Visit(nals: seq<Nal>, i: nat): Cursor
    requires i < |nals|
  {
    Cursor(i + 1, Off(nals, i), |nals[i]|)
  }

  function Visits(nals: seq<Nal>): seq<Cursor> {
    seq(|nals|, i requires 0 <= i < |nals| => Visit(nals, i))
  }

  // The cursor is where the walk over nals stands before its call number i.
  ghost predicate At(c: Cursor, nals: seq<Nal>, i: nat)
    requires i <= |nals|
  {
    c.counter == i && (i > 0 ==> c.offset + c.size == Off(nals, i))
  }

  // A call that finds entry i, which the correction turns into end.
  lemma IterateStored(m: Mem, c: Cursor, correction: int, start: nat, end: nat)
    requires c.counter in m.n && m.n[c.counter] + correction == end
    requires start <= end < POW2_64
    requires start == if c.counter == 0 then 0 else c.offset + c.size
    ensures Iterate(m, c, correction)
         == Step(ErrNone, m.(n := m.n[c.counter := end]), Cursor(c.counter + 1, start, end - start))
  {
    hide U64;
    SmallU64(start);
    SmallU64(end);
    SmallU64(end - start);
    if correction == 0 {
      assert m.n[c.counter := end] == m.n;
    }
  }

  // A call past the last entry.
  lemma IterateTail(m: Mem, c: Cursor, correction: int, start: nat)
    requires c.counter !in m.n && m.block.Some? && start <= |m.block.value| < POW2_64
    requires start == if c.counter == 0 then 0 else c.offset + c.size
    ensures Iterate(m, c, correction).m == m
    ensures Iterate(m, c, correction).err == if start < |m.block.value| then ErrNone else ErrInvalid
    ensures start < |m.block.value| ==>
      Iterate(m, c, correction).c == Cursor(c.counter + 1, start, |m.block.value| - start)
  {
    hide U64;
    SmallU64(start);
  }

  // Past the last NAL the iterator reports an error, whatever the correction.
  lemma NothingAfter(m: Mem, nals: seq<Nal>, c: Cursor, correction: int)
    requires Describes(m, nals) && At(c, nals, |nals|)
    ensures Iterate(m, c, correction).err == ErrInvalid
  {
    FlattenAll(nals);
    IterateTail(m, c, correction, Off(nals, |nals|));
  }

  lemma VisitStep(m: Mem, nals: seq<Nal>, c: Cursor, i: nat)
    requires Describes(m, nals) && i < |nals| && At(c, nals, i)
    ensures Iterate(m, c, 0) == Step(ErrNone, m, Visit(nals, i))
  {
    hide Flatten, Iterate;
    FlattenAll(nals);
    OffMonotone(nals, i + 1, |nals|);
    if i < |m.n| {
      IterateStored(m, c, 0, Off(nals, i), Off(nals, i + 1));
      assert m.n[i := m.n[i]] == m.n;
    } else {
      IterateTail(m, c, 0, Off(nals, i));
    }
  }

  lemma DescribedWalk(m: Mem, nals: seq<Nal>, c: Cursor)
    requires Describes(m, nals) && c.counter == 0
    ensures Walks(m, c, Visits(nals))
  {
    var visits := Visits(nals);
    forall i: nat | i < |visits|
      ensures Returns(m, c, visits, i)
    {
      VisitStep(m, nals, Before(c, visits, i), i);
    }
    NothingAfter(m, nals, Before(c, visits, |visits|), 0);
  }

  // Walking a valid index terminates, returns every NAL it denotes in order
  // with its offset and size, and the NALs tile the block.
  lemma WalkReturnsNals(m: Mem, c: Cursor)
    requires Valid(m) && c.counter == 0
    ensures Walks(m, c, Visits(Nals(m)))
    ensures Flatten(Nals(m)) == m.block.value
    ensures forall i: nat :: i < |Nals(m)| ==> Tile(m, Visits(Nals(m)), i) && Bytes(m, Visits(Nals(m))[i]) == Nals(m)[i]
    ensures |Nals(m)| == if Start(m, |m.n|) < |m.block.value| then |m.n| + 1 else |m.n|
  {
    NalsDescribe(m);
    DescribedWalk(m, Nals(m), c);
    forall i: nat | i < |Nals(m)|
      ensures Tile(m, Visits(Nals(m)), i) && Bytes(m, Visits(Nals(m))[i]) == Nals(m)[i]
    {
      DescribedTile(m, Nals(m), i);
    }
  }

  // Visit i starts where the one before it ended, and stays inside the block.
  ghost predicate Tile(m: Mem, visits: seq<Cursor>, i: nat)
    requires m.block.Some? && i < |visits|
  {
    && visits[i].counter == i + 1
    && visits[i].offset == (if i == 0 then 0 else visits[i - 1].offset + visits[i - 1].size)
    && visits[i].offset + visits[i].size <= |m.block.value|
  }

  ghost function Bytes(m: Mem, c: Cursor): Nal
    requires m.block.Some? && c.offset + c.size <= |m.block.value|
  {
    m.block.value[c.offset..c.offset + c.size]
  }

  lemma DescribedTile(m: Mem, nals: seq<Nal>, i: nat)
    requires Describes(m, nals) && i < |nals|
    ensures Tile(m, Visits(nals), i) && Bytes(m, Visits(nals)[i]) == nals[i]
  {
    ChunkAt(nals, i);
  }

  // What a walk returns is determined by where it starts.
  lemma WalkDeterministic(m: Mem, c: Cursor, v: seq<Cursor>, w: seq<Cursor>)
    requires Walks(m, c, v) && Walks(m, c, w)
    ensures v == w
  {
    if |v| < |w| {
      assert Returns(m, c, w, |v|);
      WalkAgrees(m, c, v, w, |v|);
    } else if |w| < |v| {
      assert Returns(m, c, v, |w|);
      WalkAgrees(m, c, v, w, |w|);
    } else {
      WalkAgrees(m, c, v, w, |v|);
    }
  }

  lemma {:induction false} WalkAgrees(m: Mem, c: Cursor, v: seq<Cursor>, w: seq<Cursor>, i: nat)
    requires Walks(m, c, v) && Walks(m, c, w) && i <= |v| && i <= |w|
    ensures v[..i] == w[..i] && Before(c, v, i) == Before(c, w, i)
  {
    if i > 0 {
      WalkAgrees(m, c, v, w, i - 1);
      assert Returns(m, c, v, i - 1) && Returns(m, c, w, i - 1);
      assert v[..i] == v[..i - 1] + [v[i - 1]] && w[..i] == w[..i - 1] + [w[i - 1]];
    }
  }

  // ---------------------------------------------------------------------
  // Prepending
  // ---------------------------------------------------------------------

  function Below(k: nat): (r: set<nat>)
    ensures forall i: nat :: i in r <==> i < k
    ensures |r| == k
  {
    if k == 0 then {} else Below(k - 1) + {k - 1}
  }

  // The table after s bytes were put in front as a NAL of their own.
  function Shifted(n: map<nat, nat>, s: nat): map<nat, nat>
    requires forall i: nat :: i < |n| ==> i in n
  {
    map i {:trigger i in Below(|n| + 1)} | i in Below(|n| + 1) :: ShiftedEntry(n, s, i)
  }

  function ShiftedEntry(n: map<nat, nat>, s: nat, i: nat): nat
    requires i == 0 || i - 1 in n
  {
    if i == 0 then s else n[i - 1] + s
  }

  ghost predicate Empty(m: Mem) {
    m.block.None? || m.block.value == []
  }

  // An empty block has no segment to insert before, so that insertion fails.
  ghost function Prepended(m: Mem, buf: seq<byte>): Mem
    requires Contiguous(m.n)
  {
    if Empty(m) then
      m
    else
      Mem(Some(buf + m.block.value), Shifted(m.n, |buf|))
  }

  lemma ShiftedContiguous(n: map<nat, nat>, s: nat)
    requires Contiguous(n)
    ensures |Shifted(n, s)| == |n| + 1 && Contiguous(Shifted(n, s))
  {
    ShiftedKeys(n, s);
    hide Shifted;
    assert |Shifted(n, s)| == |Shifted(n, s).Keys|;
  }

  lemma PrependedTable(m: Mem, nals: seq<Nal>, buf: seq<byte>, i: nat)
    requires Describes(m, nals) && i <= |m.n|
    ensures Shifted(m.n, |buf|)[i] == Off([buf] + nals, i + 1)
  {
    hide Flatten, Off;
    NothingBefore(nals);
    OffCons(buf, nals, i);
    assert i in Below(|m.n| + 1);
    assert Shifted(m.n, |buf|)[i] == ShiftedEntry(m.n, |buf|, i);
    if i > 0 {
      var j: nat := i - 1;
      assert j < |m.n| && m.n[j] == Off(nals, j + 1);
    }
  }

  lemma PrependedDescribes(m: Mem, nals: seq<Nal>, buf: seq<byte>)
    requires Describes(m, nals) && !Empty(m) && |buf| + |m.block.value| < POW2_64
    ensures Describes(Prepended(m, buf), [buf] + nals)
  {
    hide Flatten, Off, Shifted;
    var m' := Prepended(m, buf);
    ShiftedContiguous(m.n, |buf|);
    FlattenConcat([buf], nals);
    FlattenOne(buf);
    forall i: nat | i < |m'.n|
      ensures m'.n[i] == Off([buf] + nals, i + 1)
    {
      PrependedTable(m, nals, buf, i);
    }
  }

  // Prepending puts one NAL in front and leaves every other one as it was.
  lemma PrependedNals(m: Mem, buf: seq<byte>)
    requires Valid(m) && !Empty(m) && |buf| + |m.block.value| < POW2_64
    ensures Valid(Prepended(m, buf)) && Prepended(m, buf).block == Some(buf + m.block.value)
    ensures Nals(Prepended(m, buf)) == [buf] + Nals(m)
  {
    NalsDescribe(m);
    PrependedDescribes(m, Nals(m), buf);
    DescribesUnique(Prepended(m, buf), [buf] + Nals(m));
  }

  // Prepending a list of buffers, the last one first.
  ghost function Build(m: Mem, bufs: seq<Nal>): Mem
    requires Contiguous(m.n)
    ensures Contiguous(Build(m, bufs).n)
    decreases |bufs|
  {
    if bufs == [] then
      m
    else
      var rest := Build(m, bufs[1..]);
      ShiftedContiguous(rest.n, |bufs[0]|);
      Prepended(rest, bufs[0])
  }

  lemma {:induction false} BuildNals(m: Mem, bufs: seq<Nal>)
    requires Valid(m) && !Empty(m)
    requires |Flatten(bufs)| + |m.block.value| < POW2_64
    ensures Valid(Build(m, bufs))
    ensures Nals(Build(m, bufs)) == bufs + Nals(m)
    ensures Build(m, bufs).block == Some(Flatten(bufs) + m.block.value)
    decreases |bufs|
  {
    hide Flatten, Prepended, Nals;
    FlattenCons(bufs);
    if bufs == [] {
      hide Valid;
      Reassociate([], Nals(m));
      Reassociate([], m.block.value);
    } else {
      BuildNals(m, bufs[1..]);
      hide Valid, Empty;
      BuildStep(Build(m, bufs[1..]), bufs, Nals(m), m.block.value);
    }
  }

  lemma BuildStep(rest: Mem, bufs: seq<Nal>, nals: seq<Nal>, base: seq<byte>)
    requires bufs != [] && Valid(rest) && base != []
    requires rest.block == Some(Flatten(bufs[1..]) + base) && Nals(rest) == bufs[1..] + nals
    requires |bufs[0]| + |Flatten(bufs[1..]) + base| < POW2_64
    ensures Valid(Prepended(rest, bufs[0]))
    ensures Prepended(rest, bufs[0]).block == Some(bufs[0] + Flatten(bufs[1..]) + base)
    ensures Nals(Prepended(rest, bufs[0])) == bufs + nals
  {
    hide Flatten, Prepended, Nals, Valid;
    PrependedNals(rest, bufs[0]);
    Reassociate(bufs, nals);
    Associate(bufs[0], Flatten(bufs[1..]), base);
  }

  lemma {:induction false} BuildOnEmpty(m: Mem, bufs: seq<Nal>)
    requires Contiguous(m.n) && m.block == Some([])
    ensures Build(m, bufs) == m
    decreases |bufs|
  {
    if bufs != [] {
      BuildOnEmpty(m, bufs[1..]);
    }
  }

  lemma SingleNal(base: seq<byte>)
    requires |base| < POW2_64
    ensures var m := Mem(Some(base), map[]);
      Valid(m) && Nals(m) == if base == [] then [] else [base]
  {
    var m := Mem(Some(base), map[]);
    if base == [] {
      DescribesUnique(m, []);
    } else {
      FlattenOne(base);
      DescribesUnique(m, [base]);
    }
  }

  // Build and walk.  From a block without index, prepending any buffers in
  // reverse and walking gives back exactly those buffers, empty ones included,
  // followed by the block, if and only if there was a byte to insert before.
  lemma BuildWalkRoundTrip(base: seq<byte>, bufs: seq<Nal>, c: Cursor)
    requires |Flatten(bufs)| + |base| < POW2_64 && c.counter == 0
    ensures var m := Build(Mem(Some(base), map[]), bufs);
      Walks(m, c, Visits(bufs + if base == [] then [] else [base])) <==> base != [] || bufs == []
  {
    var m0 := Mem(Some(base), map[]);
    SingleNal(base);
    if base != [] {
      BuildNals(m0, bufs);
      WalkReturnsNals(Build(m0, bufs), c);
    } else {
      BuildOnEmpty(m0, bufs);
      DescribedWalk(m0, [], c);
      Reassociate(bufs, []);
      if Walks(m0, c, Visits(bufs + [])) {
        WalkDeterministic(m0, c, Visits(bufs + []), Visits([]));
        assert |Visits(bufs + [])| == |bufs|;
      }
    }
  }

  // The shortest refutation of the round trip from an empty frame.
  lemma EmptyFrameLosesBuffers(b: byte, c: Cursor)
    requires c.counter == 0
    ensures Walks(Build(Mem(Some([]), map[]), [[b]]), c, [])
  {
    var m0 := Mem(Some([]), map[]);
    BuildOnEmpty(m0, [[b]]);
    DescribedWalk(m0, [], c);
    assert Visits([]) == [];
  }

  // ---------------------------------------------------------------------
  // The rewriting pass
  // ---------------------------------------------------------------------

  // What ubuf_block_delete and ubuf_block_insert make of the bytes of a block,
  // or None where they report an error: an offset must lie in some segment.
  function Deleted(block: Option<seq<byte>>, offset: nat, size: nat): Option<seq<byte>> {
    if block.Some? && offset < |block.value| && offset + size <= |block.value| then
      Some(block.value[..offset] + block.value[offset + size..])
    else
      None
  }

  function Inserted(block: Option<seq<byte>>, offset: nat, insert: seq<byte>): Option<seq<byte>> {
    if block.Some? && offset < |block.value| then
      Some(block.value[..offset] + insert + block.value[offset..])
    else
      None
  }

  // A caller's edit at a boundary: bytes deleted there, if any, and then bytes
  // inserted, if any.
  datatype Edit = Edit(drop: nat, ins: seq<byte>)

  function EditBlock(block: Option<seq<byte>>, at: nat, e: Edit): Option<seq<byte>> {
    var rest := if e.drop == 0 then block else Deleted(block, at, e.drop);
    if e.ins == [] then rest else Inserted(rest, at, e.ins)
  }

  function Edited(nals: seq<Nal>, edits: seq<Edit>): seq<Nal>
    requires |edits| == |nals|
    requires forall i: nat :: i < |nals| ==> edits[i].drop <= |nals[i]|
  {
    seq(|nals|, i requires 0 <= i < |nals| => edits[i].ins + nals[i][edits[i].drop..])
  }

  // A pass goes on until a call reports an error, or an edit does.
  datatype Status = Going | Ended | Refused

  // A pass in progress: what the calls returned, and the caller's variables.
  datatype Pass = Pass(status: Status, visits: seq<Cursor>, m: Mem, c: Cursor, correction: int)

  // The boundary the caller sees: where the last returned NAL ended.
  function Boundary(c: Cursor): nat {
    if c.counter == 0 then 0 else c.offset + c.size
  }

  // Before each call the caller edits at the current boundary and adds the
  // change in size to the correction it passes.
  function RewriteStep(p: Pass, e: Edit): Pass {
    if p.status != Going then
      p
    else
      var block := EditBlock(p.m.block, Boundary(p.c), e);
      if block == None then
        p.(status := Refused)
      else
        Called(p, Iterate(p.m.(block := block), p.c, Change(p, e)), Change(p, e))
  }

  function Change(p: Pass, e: Edit): int {
    p.correction + |e.ins| - e.drop
  }

  function Called(p: Pass, s: Step, correction: int): Pass {
    if s.err == ErrNone then
      Pass(Going, p.visits + [s.c], s.m, s.c, correction)
    else
      Pass(Ended, p.visits, s.m, s.c, correction)
  }

  // The pass after its first i calls.
  function Rewrite(m: Mem, c: Cursor, edits: seq<Edit>, i: nat): Pass
    requires i <= |edits|
  {
    if i == 0 then Pass(Going, [], m, c, 0) else RewriteStep(Rewrite(m, c, edits, i - 1), edits[i - 1])
  }

  // One edit for each NAL, none dropping more than its NAL, and between two
  // edits the size of the block can always be represented.
  ghost predicate Editable(nals: seq<Nal>, edits: seq<Edit>) {
    && |edits| == |nals|
    && (forall j: nat :: j < |nals| ==> edits[j].drop <= |nals[j]|)
    && (forall i: nat :: i <= |nals| ==> Room(nals, Edited(nals, edits), i))
  }

  ghost predicate Room(nals: seq<Nal>, edited: seq<Nal>, i: nat)
    requires |edited| == |nals| && i <= |nals|
  {
    Off(edited, i) + |Flatten(nals[i..])| < POW2_64
  }

  // The first i NALs are edited, and both block and table say so.
  ghost predicate Midway(m: Mem, nals: seq<Nal>, edited: seq<Nal>, i: nat, k: nat) {
    && |nals| == |edited| && i <= |nals| && k <= |nals| <= k + 1
    && m.block == Some(Flatten(edited[..i]) + Flatten(nals[i..]))
    && TableMidway(m.n, nals, edited, i, k)
  }

  ghost predicate TableMidway(n: map<nat, nat>, nals: seq<Nal>, edited: seq<Nal>, i: nat, k: nat)
    requires |nals| == |edited| && k <= |nals|
  {
    && Contiguous(n) && |n| == k
    && (forall j: nat :: j < k ==> n[j] == Off(if j < i then edited else nals, j + 1))
  }

  // The edited list, without a last NAL that has neither bytes nor an entry.
  function Kept(edited: seq<Nal>, k: nat): seq<Nal> {
    if |edited| == k + 1 && edited[k] == [] then edited[..k] else edited
  }

  // Splitting the block around the NAL at hand.
  lemma Around(front: seq<Nal>, nals: seq<Nal>, i: nat)
    requires i < |nals|
    ensures Flatten(front) + Flatten(nals[i..]) == Flatten(front) + nals[i] + Flatten(nals[i + 1..])
  {
    assert nals[i..] == [nals[i]] + nals[i + 1..];
    FlattenConcat([nals[i]], nals[i + 1..]);
  }

  // Edit i inserts nothing, or a byte remains that it can be inserted before.
  ghost predicate EditFits(nals: seq<Nal>, edits: seq<Edit>, i: nat)
    requires |edits| == |nals| && i < |nals| && edits[i].drop <= |nals[i]|
  {
    edits[i].ins == [] || nals[i][edits[i].drop..] + Flatten(nals[i + 1..]) != []
  }

  ghost predicate AllFit(nals: seq<Nal>, edits: seq<Edit>, i: nat)
    requires Editable(nals, edits) && i <= |nals|
  {
    forall j: nat :: j < i ==> EditFits(nals, edits, j)
  }

  lemma DeleteInside(front: seq<byte>, mid: seq<byte>, back: seq<byte>, drop: nat)
    requires 0 < drop <= |mid|
    ensures Deleted(Some(front + mid + back), |front|, drop) == Some(front + (mid[drop..] + back))
  {
    var b := front + mid + back;
    assert b[..|front|] == front;
    assert b[|front| + drop..] == mid[drop..] + back;
  }

  lemma InsertInside(front: seq<byte>, ins: seq<byte>, back: seq<byte>)
    ensures Inserted(Some(front + back), |front|, ins) == if back == [] then None else Some(front + ins + back)
  {
    var b := front + back;
    assert b[..|front|] == front && b[|front|..] == back;
  }

  lemma EditInside(front: seq<byte>, mid: seq<byte>, back: seq<byte>, e: Edit)
    requires e.drop <= |mid|
    ensures EditBlock(Some(front + mid + back), |front|, e) ==
      if e.ins == [] || mid[e.drop..] + back != [] then Some(front + (e.ins + mid[e.drop..]) + back) else None
  {
    hide Deleted, Inserted;
    var rest := mid[e.drop..] + back;
    if e.drop > 0 {
      DeleteInside(front, mid, back, e.drop);
    } else {
      assert mid[0..] == mid;
      Associate(front, mid, back);
    }
    assert (if e.drop == 0 then Some(front + mid + back) else Deleted(Some(front + mid + back), |front|, e.drop))
        == Some(front + rest);
    InsertInside(front, e.ins, rest);
    assert front + e.ins + rest == front + (e.ins + mid[e.drop..]) + back;
    assert e.ins == [] ==> e.ins + mid[e.drop..] == mid[e.drop..];
    Associate(front, mid[e.drop..], back);
  }

  lemma EditedBlock(block: seq<byte>, nals: seq<Nal>, edits: seq<Edit>, i: nat)
    requires Editable(nals, edits) && i < |nals|
    requires block == Flatten(Edited(nals, edits)[..i]) + Flatten(nals[i..])
    ensures var edited := Edited(nals, edits);
      EditBlock(Some(block), Off(edited, i), edits[i]) ==
        if EditFits(nals, edits, i) then Some(Flatten(edited[..i + 1]) + Flatten(nals[i + 1..])) else None
  {
    hide Flatten, Off, EditBlock, Room;
    var edited := Edited(nals, edits);
    OffIsLength(edited, i);
    Around(edited[..i], nals, i);
    FlattenSnoc(edited, i);
    EditInside(Flatten(edited[..i]), nals[i], Flatten(nals[i + 1..]), edits[i]);
  }

  lemma MidwayUpdate(n: map<nat, nat>, nals: seq<Nal>, edited: seq<Nal>, i: nat, k: nat)
    requires |nals| == |edited| && i < k <= |nals| && TableMidway(n, nals, edited, i, k)
    ensures TableMidway(n[i := Off(edited, i + 1)], nals, edited, i + 1, k)
  {
    var n' := n[i := Off(edited, i + 1)];
    assert n'.Keys == n.Keys;
    assert |n'| == |n'.Keys| && |n| == |n.Keys|;
  }

  // The state between the edit of NAL i and the call that returns it.
  ghost predicate AfterEdit(m: Mem, nals: seq<Nal>, edited: seq<Nal>, c: Cursor, i: nat, k: nat) {
    && |nals| == |edited| && i < |nals| && k <= |nals| <= k + 1
    && m.block == Some(Flatten(edited[..i + 1]) + Flatten(nals[i + 1..]))
    && |m.block.value| < POW2_64
    && TableMidway(m.n, nals, edited, i, k)
    && At(c, edited, i)
  }

  lemma EditStep(m: Mem, nals: seq<Nal>, edits: seq<Edit>, c: Cursor, i: nat, k: nat)
    requires Editable(nals, edits) && i < |nals|
    requires Midway(m, nals, Edited(nals, edits), i, k) && At(c, Edited(nals, edits), i)
    ensures var block := EditBlock(m.block, Boundary(c), edits[i]);
      && (block == None <==> !EditFits(nals, edits, i))
      && (block != None ==> AfterEdit(m.(block := block), nals, Edited(nals, edits), c, i, k))
  {
    hide Flatten, Off, EditBlock, EditFits, TableMidway, Edited;
    var edited := Edited(nals, edits);
    EditedBlock(m.block.value, nals, edits, i);
    BoundaryAt(c, edited, i);
    EditedLength(nals, edits);
    OffIsLength(edited, i + 1);
    assert Room(nals, edited, i + 1);
  }

  lemma EditedLength(nals: seq<Nal>, edits: seq<Edit>)
    requires Editable(nals, edits)
    ensures |Edited(nals, edits)| == |nals|
  {
  }

  lemma BoundaryAt(c: Cursor, nals: seq<Nal>, i: nat)
    requires i <= |nals| && At(c, nals, i)
    ensures Boundary(c) == Off(nals, i)
  {
  }

  // A call whose correction is the change in size so far moves the line
  // between old and edited by one NAL, in the table too.
  lemma CallStored(m: Mem, nals: seq<Nal>, edited: seq<Nal>, c: Cursor, correction: int, i: nat, k: nat)
    requires AfterEdit(m, nals, edited, c, i, k) && i < k
    requires correction == Off(edited, i + 1) - Off(nals, i + 1)
    ensures var s := Iterate(m, c, correction);
      s.err == ErrNone && Midway(s.m, nals, edited, i + 1, k) && s.c == Visit(edited, i)
  {
    OffIsLength(edited, i + 1);
    IterateStored(m, c, correction, Off(edited, i), Off(edited, i + 1));
    MidwayUpdate(m.n, nals, edited, i, k);
  }

  // The last NAL, when it has no entry.
  lemma CallTail(m: Mem, nals: seq<Nal>, edited: seq<Nal>, c: Cursor, correction: int, k: nat)
    requires AfterEdit(m, nals, edited, c, k, k)
    ensures var s := Iterate(m, c, correction);
      && (s.err == ErrNone <==> edited[k] != [])
      && Midway(s.m, nals, edited, k + 1, k)
      && (s.err == ErrNone ==> s.c == Visit(edited, k))
  {
    OffIsLength(edited, k + 1);
    IterateTail(m, c, correction, Off(edited, k));
  }

  // The pass after i calls, none of which failed.
  ghost predicate SoFar(p: Pass, nals: seq<Nal>, edited: seq<Nal>, i: nat, k: nat) {
    && Midway(p.m, nals, edited, i, k) && At(p.c, edited, i)
    && p.status == Going
    && p.visits == Visits(edited)[..i]
    && p.correction == Off(edited, i) - Off(nals, i)
  }

  lemma EditedSize(nals: seq<Nal>, edits: seq<Edit>, i: nat)
    requires Editable(nals, edits) && i < |nals|
    ensures var edited := Edited(nals, edits);
      Off(edited, i + 1) - Off(nals, i + 1) == Off(edited, i) - Off(nals, i) + |edits[i].ins| - edits[i].drop
  {
  }

  lemma CallStep(m: Mem, nals: seq<Nal>, edited: seq<Nal>, c: Cursor, correction: int, i: nat, k: nat)
    requires AfterEdit(m, nals, edited, c, i, k)
    requires correction == Off(edited, i + 1) - Off(nals, i + 1)
    ensures var s := Iterate(m, c, correction);
      && (s.err == ErrNone <==> i < k || edited[i] != [])
      && Midway(s.m, nals, edited, i + 1, k)
      && (s.err == ErrNone ==> s.c == Visit(edited, i))
  {
    if i < k {
      CallStored(m, nals, edited, c, correction, i, k);
    } else {
      CallTail(m, nals, edited, c, correction, k);
    }
  }

  // The state of the pass after step i, all of whose edits so far fit.
  ghost predicate StepDone(q: Pass, p: Pass, nals: seq<Nal>, edited: seq<Nal>, i: nat, k: nat)
    requires i < |nals| == |edited|
  {
    if i < k || edited[i] != [] then
      SoFar(q, nals, edited, i + 1, k)
    else
      q.status == Ended && q.visits == p.visits && Midway(q.m, nals, edited, i + 1, k)
  }

  lemma OneStep(p: Pass, nals: seq<Nal>, edits: seq<Edit>, i: nat, k: nat)
    requires Editable(nals, edits) && i < |nals|
    requires SoFar(p, nals, Edited(nals, edits), i, k)
    ensures |Edited(nals, edits)| == |nals|
    ensures !EditFits(nals, edits, i) ==> RewriteStep(p, edits[i]) == p.(status := Refused)
    ensures EditFits(nals, edits, i) ==> StepDone(RewriteStep(p, edits[i]), p, nals, Edited(nals, edits), i, k)
  {
    EditedLength(nals, edits);
    EditedSize(nals, edits, i);
    hide Flatten, Midway, AfterEdit, EditBlock, EditFits, Iterate, Off, StepDone, Edited, Called, Editable;
    var edited, e := Edited(nals, edits), edits[i];
    EditStep(p.m, nals, edits, p.c, i, k);
    if EditFits(nals, edits, i) {
      var block := EditBlock(p.m.block, Boundary(p.c), e);
      CallStep(p.m.(block := block), nals, edited, p.c, Change(p, e), i, k);
      StepOutcome(p, Iterate(p.m.(block := block), p.c, Change(p, e)), Change(p, e), nals, edited, i, k);
    }
  }

  // What a step records, given what its call did.
  lemma StepOutcome(p: Pass, s: Step, correction: int, nals: seq<Nal>, edited: seq<Nal>, i: nat, k: nat)
    requires i < |nals| == |edited| && SoFar(p, nals, edited, i, k)
    requires correction == Off(edited, i + 1) - Off(nals, i + 1)
    requires s.err == ErrNone <==> i < k || edited[i] != []
    requires Midway(s.m, nals, edited, i + 1, k)
    requires s.err == ErrNone ==> s.c == Visit(edited, i)
    ensures StepDone(Called(p, s, correction), p, nals, edited, i, k)
  {
    OffStep(edited, i);
    hide Flatten, Midway, Visits, Off;
    VisitsSnoc(edited, i);
  }

  lemma VisitsSnoc(nals: seq<Nal>, i: nat)
    requires i < |nals|
    ensures Visits(nals)[..i + 1] == Visits(nals)[..i] + [Visit(nals, i)]
  {
  }

  lemma {:induction false} RewriteSoFar(m: Mem, nals: seq<Nal>, edits: seq<Edit>, c: Cursor, i: nat)
    requires Describes(m, nals) && c.counter == 0 && Editable(nals, edits)
    requires i <= |Kept(Edited(nals, edits), |m.n|)| <= |nals| && AllFit(nals, edits, i)
    ensures SoFar(Rewrite(m, c, edits, i), nals, Edited(nals, edits), i, |m.n|)
  {
    hide EditFits, Flatten, Off, Midway, SoFar, Kept, RewriteStep, Room, Edited;
    if i == 0 {
      EditedLength(nals, edits);
      RewriteStart(m, nals, Edited(nals, edits), c);
    } else {
      RewriteSoFar(m, nals, edits, c, i - 1);
      RewriteNext(Rewrite(m, c, edits, i - 1), nals, edits, i - 1, |m.n|);
    }
  }

  // A step whose edit fits and whose call returns a NAL.
  lemma RewriteNext(p: Pass, nals: seq<Nal>, edits: seq<Edit>, i: nat, k: nat)
    requires Editable(nals, edits) && i < |Kept(Edited(nals, edits), k)| <= |nals| <= k + 1
    requires EditFits(nals, edits, i)
    requires SoFar(p, nals, Edited(nals, edits), i, k)
    ensures SoFar(RewriteStep(p, edits[i]), nals, Edited(nals, edits), i + 1, k)
  {
    EditedLength(nals, edits);
    KeptCalls(Edited(nals, edits), k, i);
    hide Flatten, Midway, RewriteStep, EditFits, Editable, Edited, Kept, SoFar;
    OneStep(p, nals, edits, i, k);
  }

  lemma RewriteStart(m: Mem, nals: seq<Nal>, edited: seq<Nal>, c: Cursor)
    requires Describes(m, nals) && |edited| == |nals| && c.counter == 0
    ensures SoFar(Pass(Going, [], m, c, 0), nals, edited, 0, |m.n|)
  {
    MidwayAtStart(m, nals, edited);
    hide Midway, Describes;
  }

  lemma KeptCalls(edited: seq<Nal>, k: nat, i: nat)
    requires i < |Kept(edited, k)| && |edited| <= k + 1
    ensures i < |edited| && (i < k || edited[i] != [])
  {
  }

  lemma RefusedAt(m: Mem, nals: seq<Nal>, edits: seq<Edit>, c: Cursor, i: nat)
    requires Describes(m, nals) && c.counter == 0 && Editable(nals, edits)
    requires i < |edits| && AllFit(nals, edits, i) && !EditFits(nals, edits, i)
    ensures RewriteStep(Rewrite(m, c, edits, i), edits[i]) == Rewrite(m, c, edits, i).(status := Refused)
    ensures Rewrite(m, c, edits, i).visits == Visits(Edited(nals, edits))[..i]
  {
    UnfitIsKept(m, nals, edits, i);
    hide Flatten, Midway, RewriteStep, EditFits, Edited, Kept, Describes, Visits, Rewrite, Room, At, Off;
    RewriteSoFar(m, nals, edits, c, i);
    OneStep(Rewrite(m, c, edits, i), nals, edits, i, |m.n|);
  }

  // An edit that does not fit, the first one, is refused, and the pass with it.
  lemma {:induction false} RefusedFrom(m: Mem, nals: seq<Nal>, edits: seq<Edit>, c: Cursor, i: nat, j: nat)
    requires Describes(m, nals) && c.counter == 0 && Editable(nals, edits)
    requires i < j <= |edits| && AllFit(nals, edits, i) && !EditFits(nals, edits, i)
    ensures Rewrite(m, c, edits, j) == Rewrite(m, c, edits, i).(status := Refused)
    ensures Rewrite(m, c, edits, i).visits == Visits(Edited(nals, edits))[..i]
    decreases j
  {
    hide EditFits, Edited, Visits, Describes, Room;
    if j == i + 1 {
      hide RewriteStep;
      RefusedAt(m, nals, edits, c, i);
    } else {
      RefusedFrom(m, nals, edits, c, i, j - 1);
      hide EditBlock, Called;
    }
  }

  lemma UnfitIsKept(m: Mem, nals: seq<Nal>, edits: seq<Edit>, i: nat)
    requires Describes(m, nals) && Editable(nals, edits) && i < |nals|
    ensures i <= |Kept(Edited(nals, edits), |m.n|)| <= |nals|
  {
    hide Flatten, Off, Room;
  }

  lemma FirstUnfit(nals: seq<Nal>, edits: seq<Edit>, i: nat) returns (j: nat)
    requires Editable(nals, edits) && i <= |nals| && !AllFit(nals, edits, i)
    ensures j < i && AllFit(nals, edits, j) && !EditFits(nals, edits, j)
  {
    hide EditFits, Room, Edited;
    j := 0;
    while EditFits(nals, edits, j)
      invariant j < i && AllFit(nals, edits, j)
      decreases i - j
    {
      assert AllFit(nals, edits, j + 1);
      j := j + 1;
    }
  }

  lemma MidwayAtStart(m: Mem, nals: seq<Nal>, edited: seq<Nal>)
    requires Describes(m, nals) && |edited| == |nals|
    ensures Midway(m, nals, edited, 0, |m.n|)
  {
    hide Off;
    assert nals[0..] == nals && edited[..0] == [];
    assert [] + Flatten(nals) == Flatten(nals);
  }

  lemma KeptTable(n: map<nat, nat>, nals: seq<Nal>, edited: seq<Nal>, k: nat, j: nat)
    requires |nals| == |edited| && k <= |nals| && TableMidway(n, nals, edited, |nals|, k) && j < k
    ensures n[j] == Off(Kept(edited, k), j + 1)
  {
    if Kept(edited, k) != edited {
      VisitPrefix(edited, k, j);
    }
  }

  lemma KeptBytes(edited: seq<Nal>, k: nat)
    ensures Flatten(Kept(edited, k)) == Flatten(edited)
  {
    hide Flatten;
    if Kept(edited, k) != edited {
      FlattenSnoc(edited, k);
      assert edited[..k + 1] == edited;
      assert Flatten(edited[..k]) + [] == Flatten(edited[..k]);
    }
  }

  // A block and a table that are edited all the way describe the edited list.
  lemma MidwayDone(m: Mem, nals: seq<Nal>, edited: seq<Nal>, k: nat)
    requires Midway(m, nals, edited, |nals|, k) && |Flatten(edited)| < POW2_64
    ensures Describes(m, Kept(edited, k))
  {
    assert nals[|nals|..] == [] && edited[..|nals|] == edited;
    FlattenCons([]);
    hide Flatten, Off;
    assert Flatten(edited) + [] == Flatten(edited);
    KeptBytes(edited, k);
    forall j: nat | j < k
      ensures m.n[j] == Off(Kept(edited, k), j + 1)
    {
      KeptTable(m.n, nals, edited, k, j);
    }
  }

  lemma VisitPrefix(nals: seq<Nal>, k: nat, j: nat)
    requires j < k <= |nals|
    ensures Visit(nals[..k], j) == Visit(nals, j) && Off(nals[..k], j + 1) == Off(nals, j + 1)
  {
    assert nals[..k] + nals[k..] == nals;
    OffPrefix(nals[..k], nals[k..], j);
    OffPrefix(nals[..k], nals[k..], j + 1);
  }

  lemma RewriteEnd(m: Mem, nals: seq<Nal>, edits: seq<Edit>, c: Cursor)
    requires Describes(m, nals) && c.counter == 0 && Editable(nals, edits) && AllFit(nals, edits, |nals|)
    ensures var edited := Edited(nals, edits);
      var kept, p := Kept(edited, |m.n|), Rewrite(m, c, edits, |edits|);
      && |kept| <= |edited| && p.visits == Visits(edited)[..|kept|]
      && Midway(p.m, nals, edited, |nals|, |m.n|)
      && (p.status == Ended || (p.status == Going && At(p.c, edited, |edited|) && kept == edited))
  {
    var edited, k := Edited(nals, edits), |m.n|;
    assert k <= |nals| <= k + 1 && |edited| == |nals|;
    if Kept(edited, k) != edited {
      assert AllFit(nals, edits, k) && EditFits(nals, edits, k);
    }
    hide Flatten, Iterate, Off, EditFits, Midway, RewriteStep, Edited, Describes, Editable;
    RewriteSoFar(m, nals, edits, c, |Kept(edited, k)|);
    if Kept(edited, k) != edited {
      // The last NAL was emptied and has no entry: its call reports the end.
      OneStep(Rewrite(m, c, edits, k), nals, edits, k, k);
    }
  }

  lemma RewriteDescribes(m: Mem, nals: seq<Nal>, edits: seq<Edit>, c: Cursor)
    requires Describes(m, nals) && c.counter == 0 && Editable(nals, edits) && AllFit(nals, edits, |nals|)
    ensures var kept, p := Kept(Edited(nals, edits), |m.n|), Rewrite(m, c, edits, |edits|);
      p.visits == Visits(kept) && Describes(p.m, kept)
  {
    hide Off, Rewrite, Iterate, Describes;
    var edited := Edited(nals, edits);
    var kept := Kept(edited, |m.n|);
    RewriteEnd(m, nals, edits, c);
    assert Room(nals, edited, |nals|);
    FlattenAll(edited);
    MidwayDone(Rewrite(m, c, edits, |edits|).m, nals, edited, |m.n|);
    VisitsPrefix(edited, |kept|);
    assert edited[..|kept|] == kept;
  }

  lemma VisitsPrefix(nals: seq<Nal>, k: nat)
    requires k <= |nals|
    ensures Visits(nals[..k]) == Visits(nals)[..k]
  {
    forall j: nat | j < k
      ensures Visits(nals[..k])[j] == Visits(nals)[..k][j]
    {
      VisitPrefix(nals, k, j);
    }
  }

  // What is kept are the edited NALs, but for a last one without an entry of
  // which no byte was left.
  lemma KeptAre(nals: seq<Nal>, edits: seq<Edit>, k: nat)
    requires Editable(nals, edits)
    ensures var kept := Kept(Edited(nals, edits), k);
      && |kept| <= |nals|
      && (forall i: nat :: i < |kept| ==> kept[i] == edits[i].ins + nals[i][edits[i].drop..])
      && (|kept| < |nals| ==> |kept| == k == |nals| - 1 && edits[k].ins == [] && edits[k].drop == |nals[k]|)
  {
    hide Room;
  }

  // The rewriting pass, with one edit in front of every NAL.  It is refused
  // exactly if some edit inserts bytes where none remain behind the boundary,
  // at the first such edit; the calls before it have returned the edited NALs.
  // Otherwise the pass returns exactly the edited NALs and then an error, the
  // table it leaves is the index of the rewritten block, and a second pass,
  // without correction, returns the same NALs.
  lemma RewritePass(m: Mem, edits: seq<Edit>, c: Cursor)
    requires Valid(m) && c.counter == 0 && Editable(Nals(m), edits)
    ensures Rewrite(m, c, edits, |edits|).status == Refused
       <==> exists i: nat :: i < |edits| && !EditFits(Nals(m), edits, i)
    ensures Rewrite(m, c, edits, |edits|).status == Refused ==>
      exists i: nat :: i < |edits| && !EditFits(Nals(m), edits, i) && AllFit(Nals(m), edits, i)
                       && Rewrite(m, c, edits, |edits|).visits == Visits(Edited(Nals(m), edits))[..i]
    ensures Rewrite(m, c, edits, |edits|).status != Refused ==>
      var kept := Kept(Edited(Nals(m), edits), |m.n|);
      var p := Rewrite(m, c, edits, |edits|);
      && p.visits == Visits(kept)
      && Valid(p.m) && Nals(p.m) == kept
      && |kept| <= |edits|
      && (forall i: nat :: i < |kept| ==> kept[i] == edits[i].ins + Nals(m)[i][edits[i].drop..])
      && (|kept| < |edits| ==>
            |kept| == |m.n| == |edits| - 1 && edits[|m.n|].ins == [] && edits[|m.n|].drop == |Nals(m)[|m.n|]|)
      && (p.status == Ended || Iterate(p.m, p.c, p.correction).err == ErrInvalid)
      && Walks(p.m, c, Visits(kept))
  {
    hide Flatten, Iterate, Off, Rewrite, Walks, Midway, Describes, Valid, Edited, Visits, EditFits, Nals;
    var nals := Nals(m);
    NalsDescribe(m);
    if AllFit(nals, edits, |nals|) {
      var kept, p := Kept(Edited(nals, edits), |m.n|), Rewrite(m, c, edits, |edits|);
      RewriteEnd(m, nals, edits, c);
      RewriteDescribes(m, nals, edits, c);
      DescribesUnique(p.m, kept);
      DescribedWalk(p.m, kept, c);
      KeptAre(nals, edits, |m.n|);
      if p.status == Going {
        NothingAfter(p.m, kept, p.c, p.correction);
      }
    } else {
      var i := FirstUnfit(nals, edits, |nals|);
      RefusedFrom(m, nals, edits, c, i, |edits|);
    }
  }

  // ---------------------------------------------------------------------
  // The operations, on the object they update
  // ---------------------------------------------------------------------

  // The entry prepend_nal writes at i: the boundary in front of it, moved by
  // the size s of the new NAL.
  function MovedEntry(n: map<nat, nat>, s: nat, i: nat): nat
    requires i == 0 || i - 1 in n
  {
    U64((if i == 0 then 0 else n[i - 1]) + s)
  }

  ghost predicate AllBelow(n: map<nat, nat>, k: nat) {
    forall i: nat :: i < k ==> i in n
  }

  // n' is n with its entries below k, which are all there, moved.
  ghost predicate Moved(n: map<nat, nat>, n': map<nat, nat>, s: nat, k: nat) {
    && AllBelow(n, k) && n'.Keys == n.Keys
    && forall i: nat {:trigger n'[i]} :: i in n ==> n'[i] == if i < k then MovedEntry(n, s, i) else n[i]
  }

  // ... and with one more entry, at the first index k that had none.
  ghost predicate MovedUp(n: map<nat, nat>, n': map<nat, nat>, s: nat, k: nat) {
    && AllBelow(n, k) && k !in n && n'.Keys == n.Keys + {k}
    && forall i: nat {:trigger n'[i]} :: i in n' ==> n'[i] == if i <= k then MovedEntry(n, s, i) else n[i]
  }

  // Entry by entry, in numbers.
  lemma MovedUpEntry(n: map<nat, nat>, n': map<nat, nat>, s: nat, k: nat, i: nat)
    requires MovedUp(n, n', s, k)
    ensures k !in n && (i < k ==> i in n)
    ensures i in n' <==> i in n || i == k
    ensures i == 0 ==> n'[i] == s % 0x1_0000_0000_0000_0000
    ensures 0 < i <= k ==> i - 1 in n && n'[i] == (n[i - 1] + s) % 0x1_0000_0000_0000_0000
    ensures i > k && i in n ==> n'[i] == n[i]
  {
    assert i in n' <==> i in n.Keys + {k};
    if i in n' && i <= k {
      assert n'[i] == MovedEntry(n, s, i);
    }
  }

  lemma MovedStep(n: map<nat, nat>, n': map<nat, nat>, s: nat, k: nat)
    requires Moved(n, n', s, k)
    ensures k > 0 ==> k - 1 in n
    ensures k in n' <==> k in n
    ensures k in n ==> n'[k] == n[k] && Moved(n, n'[k := MovedEntry(n, s, k)], s, k + 1)
    ensures k !in n ==> MovedUp(n, n'[k := MovedEntry(n, s, k)], s, k)
  {
    hide MovedEntry;
  }

  lemma MovedStart(n: map<nat, nat>, s: nat)
    ensures Moved(n, n, s, 0)
  {
  }

  lemma MovedCount(n: map<nat, nat>, n': map<nat, nat>, s: nat, k: nat)
    requires Moved(n, n', s, k)
    ensures k <= |n|
  {
    NoMoreThan(n, k);
  }

  // What the loop variable holds: the old entry before index i.
  ghost predicate EntryBefore(n: map<nat, nat>, offset: nat, i: nat) {
    if i == 0 then offset == 0 else i - 1 in n && offset == n[i - 1]
  }

  lemma EntryRead(n: map<nat, nat>, offset: nat, s: nat, i: nat)
    requires EntryBefore(n, offset, i)
    ensures U64(offset + s) == MovedEntry(n, s, i)
  {
  }

  // Entries without a gap are no more than there are entries.
  lemma NoMoreThan(n: map<nat, nat>, k: nat)
    requires AllBelow(n, k)
    ensures k <= |n|
  {
    Subset(Below(k), n.Keys);
    assert |n| == |n.Keys|;
  }

  lemma {:induction false} Subset(a: set<nat>, b: set<nat>)
    requires a <= b
    ensures |a| <= |b|
  {
    if a != {} {
      var x :| x in a;
      Subset(a - {x}, b - {x});
    }
  }

  lemma MovedEntryFits(m: Mem, s: nat, i: nat)
    requires Valid(m) && s + |m.block.value| < POW2_64 && i <= |m.n|
    ensures i == 0 || i - 1 in m.n
    ensures MovedEntry(m.n, s, i) == ShiftedEntry(m.n, s, i)
  {
    if i > 0 {
      assert m.n[i - 1] <= |m.block.value|;
    }
    SmallU64(ShiftedEntry(m.n, s, i));
  }

  lemma ShiftedAt(n: map<nat, nat>, s: nat, i: nat)
    requires Contiguous(n) && i in Below(|n| + 1)
    ensures i in Shifted(n, s) && (i == 0 || i - 1 in n) && Shifted(n, s)[i] == ShiftedEntry(n, s, i)
  {
    hide ShiftedEntry;
  }

  lemma ShiftedKeys(n: map<nat, nat>, s: nat)
    requires Contiguous(n)
    ensures Shifted(n, s).Keys == Below(|n| + 1)
  {
    hide ShiftedEntry;
  }

  lemma AddedKey(n: map<nat, nat>, k: nat)
    requires Contiguous(n) && AllBelow(n, k) && k !in n
    ensures k == |n| && n.Keys + {k} == Below(|n| + 1)
  {
    NoMoreThan(n, k);
  }

  // On a valid index that is the table of the list with one NAL in front.
  lemma MovedUpIsShifted(m: Mem, n': map<nat, nat>, s: nat, k: nat)
    requires Valid(m) && s + |m.block.value| < POW2_64 && MovedUp(m.n, n', s, k)
    ensures n' == Shifted(m.n, s)
  {
    var n := m.n;
    hide MovedEntry, ShiftedEntry, Shifted, Below, AllBelow;
    AddedKey(n, k);
    ShiftedKeys(n, s);
    assert n'.Keys == Shifted(n, s).Keys;
    forall i: nat | i in n'
      ensures n'[i] == Shifted(n, s)[i]
    {
      assert i in Below(|n| + 1) && i <= k;
      ShiftedAt(n, s, i);
      MovedEntryFits(m, s, i);
    }
  }

  class Uref {
    var block: Option<seq<byte>>
    var n: map<nat, nat>
    // The attribute uref_block_get_header_size reads.
    var headerSize: Option<u64>

    constructor (block: Option<seq<byte>>)
      ensures State() == Mem(block, map[]) && headerSize == None
    {
      this.block, n, headerSize := block, map[], None;
    }

    ghost function State(): Mem
      reads this`block, this`n
    {
      Mem(block, n)
    }

    // uref_h26x_iterate_nal
    method IterateNal(c: Cursor, correction: int) returns (err: Code, c': Cursor)
      modifies this`n
      ensures Step(err, State(), c') == Iterate(old(State()), c, correction)
    {
      var offset: nat := 0;
      if c.counter != 0 {
        offset := U64(c.offset + c.size);
      }
      if c.counter in n {
        var nextOffset := n[c.counter];
        if correction != 0 {
          nextOffset := U64(nextOffset + correction);
          n := n[c.counter := nextOffset];
        }
        return ErrNone, Cursor(c.counter + 1, offset, U64(nextOffset - offset));
      }
      if block.Some? && |block.value| > offset {
        return ErrNone, Cursor(c.counter + 1, offset, |block.value| - offset);
      }
      return ErrInvalid, Cursor(c.counter, offset, c.size);
    }

    // uref_h26x_prepend_nal, on any table.
    method PrependNal(buf: seq<byte>) returns (err: Code)
      modifies this`block, this`n
      ensures Empty(old(State())) ==> err == ErrInvalid && State() == old(State())
      ensures !Empty(old(State())) ==>
        && err == ErrNone && block == Some(buf + old(block).value)
        && exists k: nat :: MovedUp(old(n), n, |buf|, k)
    {
      hide Moved, MovedUp, MovedEntry;
      ghost var m0, n0 := State(), n;
      err := BlockInsert(0, buf);
      if err != ErrNone {
        return;
      }
      assert block == Some(buf + m0.block.value) by {
        assert m0.block.value[..0] + buf + m0.block.value[0..] == buf + m0.block.value;
      }
      MovedStart(n0, |buf|);
      var units: nat, offset: nat := 0, 0;
      while units in n
        invariant block == Some(buf + m0.block.value)
        invariant Moved(n0, n, |buf|, units) && units <= |n0|
        invariant EntryBefore(n0, offset, units)
        decreases |n0| - units
      {
        MovedStep(n0, n, |buf|, units);
        EntryRead(n0, offset, |buf|, units);
        var next := n[units];
        n := n[units := U64(offset + |buf|)];
        units := units + 1;
        offset := next;
        MovedCount(n0, n, |buf|, units);
      }
      MovedStep(n0, n, |buf|, units);
      EntryRead(n0, offset, |buf|, units);
      n := n[units := U64(offset + |buf|)];
    }

    // uref_h26x_delete_nal_offsets
    method DeleteNalOffsets()
      modifies this`n
      ensures exists k: nat :: DeletedBelow(old(n), n, k) && k !in old(n)
    {
      var counter: nat := 0;
      while true
        invariant DeletedBelow(old(n), n, counter)
        decreases |n|
      {
        var found := counter in n;
        if found {
          Removed(n, counter);
        }
        n := n - {counter};
        if !found {
          break;
        }
        counter := counter + 1;
      }
    }

    // ubuf_block_insert: there must be a segment that holds the offset.
    method BlockInsert(offset: nat, insert: seq<byte>) returns (err: Code)
      modifies this`block
      ensures err == ErrNone <==> old(block).Some? && offset < |old(block).value|
      ensures err == ErrNone ==> block == Some(old(block).value[..offset] + insert + old(block).value[offset..])
      ensures err == ErrInvalid ==> block == old(block)
      ensures Inserted(old(block), offset, insert) == if err == ErrNone then block else None
    {
      if block.None? || offset >= |block.value| {
        return ErrInvalid;
      }
      block := Some(block.value[..offset] + insert + block.value[offset..]);
      return ErrNone;
    }

    // ubuf_block_delete
    method BlockDelete(offset: nat, size: nat) returns (err: Code)
      modifies this`block
      ensures err == ErrNone <==> old(block).Some? && offset < |old(block).value| && offset + size <= |old(block).value|
      ensures err == ErrNone ==> block == Some(old(block).value[..offset] + old(block).value[offset + size..])
      ensures err == ErrInvalid ==> block == old(block)
      ensures Deleted(old(block), offset, size) == if err == ErrNone then block else None
    {
      if block.None? || offset >= |block.value| || offset + size > |block.value| {
        return ErrInvalid;
      }
      block := Some(block.value[..offset] + block.value[offset + size..]);
      return ErrNone;
    }
  }

  lemma Removed(n: map<nat, nat>, i: nat)
    requires i in n
    ensures |n - {i}| < |n|
  {
    assert (n - {i}).Keys == n.Keys - {i};
    assert |(n - {i}).Keys| == |n - {i}| && |n.Keys| == |n|;
  }

  // n' is n without its entries below k, all of which n had.
  ghost predicate DeletedBelow(n: map<nat, nat>, n': map<nat, nat>, k: nat) {
    && (forall i: nat :: i < k ==> i in n)
    && (forall i: nat :: i in n' <==> i in n && i >= k)
    && (forall i: nat :: i in n' ==> n'[i] == n[i])
  }

  // After the deletion the block walks as a single NAL.
  lemma DeletedWalk(m: Mem, n: map<nat, nat>, k: nat, c: Cursor)
    requires Valid(m) && c.counter == 0
    requires DeletedBelow(m.n, n, k) && k !in m.n
    ensures n == map[]
    ensures Walks(Mem(m.block, n), c, Visits(if m.block.value == [] then [] else [m.block.value]))
  {
    assert n.Keys == {};
    SingleNal(m.block.value);
    WalkReturnsNals(Mem(m.block, map[]), c);
  }
}
