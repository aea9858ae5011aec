// The timeline of hls2rtp (examples/hls2rtp.c): 33-bit MPEG dates, scaled to
// the 27 MHz clock, are unwrapped and their discontinuities hidden.
module RewriteDate {
  import opened Machine

  const MAX_GAP: int := 27_000_000

  // TS_CLOCK_MAX: 2^33 periods of 90 kHz, in periods of 27 MHz (section
  // 2.4.3.7 of ISO/IEC 13818-1).
  const TS_CLOCK_MAX: int := 2_576_980_377_600

  function Wrap(x: int): nat {
    x % 2_576_980_377_600
  }

  // The fields of struct uprobe_rewrite_date.
  datatype Clock = Clock(lastCr: int, offset: int, highest: int)

  const Start := Clock(TS_CLOCK_MAX, 0, TS_CLOCK_MAX)

  // ---------------------------------------------------------------------
  // The rewriting in unbounded integers
  // ---------------------------------------------------------------------

  function Delta(lastCr: int, date: int): nat {
    Wrap(TS_CLOCK_MAX + date - Wrap(lastCr))
  }

  function Adjusted(s: Clock, date: int): Clock {
    var delta := Delta(s.lastCr, date);
    if delta < MAX_GAP then
      s.(lastCr := s.lastCr + delta)
    else
      s.(lastCr := date, offset := s.highest - date)
  }

  // The new state and the rewritten date.
  function Rewrite(s: Clock, date: int): (Clock, int) {
    var s' := Adjusted(s, date);
    var out := s'.offset + s'.lastCr + Delta(s'.lastCr, date);
    (if out > s'.highest then s'.(highest := out) else s', out)
  }

  // The state before date i, and what that date becomes.
  function After(dates: seq<nat>, i: nat): Clock
    requires i <= |dates|
  {
    if i == 0 then Start else Rewrite(After(dates, i - 1), dates[i - 1]).0
  }

  function Out(dates: seq<nat>, i: nat): int
    requires i < |dates|
  {
    Rewrite(After(dates, i), dates[i]).1
  }

  // How far date i is ahead of the clock, modulo the wrap.
  function Ahead(dates: seq<nat>, i: nat): nat
    requires i < |dates|
  {
    Delta(After(dates, i).lastCr, dates[i])
  }

  // Moving the clock by the delta reaches the date, and from there the delta
  // is 0.
  lemma DeltaReaches(lastCr: int, date: int)
    ensures Wrap(lastCr + Delta(lastCr, date)) == Wrap(date)
  {
  }

  lemma DeltaVanishes(lastCr: int, date: int)
    requires Wrap(lastCr) == Wrap(date)
    ensures Delta(lastCr, date) == 0
  {
  }

  // A step from a consistent state: the second delta is 0, the output is the
  // new highest date, and it moves by the delta or not at all.
  lemma RewriteStep(s: Clock, date: nat)
    requires s.highest == s.offset + s.lastCr
    ensures var (s', out) := Rewrite(s, date);
      var delta := Delta(s.lastCr, date);
      && Delta(s'.lastCr, date) == 0
      && Wrap(s'.lastCr) == Wrap(date)
      && out == s'.highest == s'.offset + s'.lastCr
      && out == s.highest + if delta < MAX_GAP then delta else 0
  {
    hide Wrap, Delta;
    DeltaReaches(s.lastCr, date);
    DeltaVanishes(Adjusted(s, date).lastCr, date);
  }

  // On every input, every reachable state is consistent; every output is the
  // highest so far, moves forward by less than MAX_GAP, by exactly the
  // distance of the date if that is below MAX_GAP, and repeats the output
  // before it at a discontinuity.
  lemma {:induction false} Timeline(dates: seq<nat>, i: nat)
    requires i <= |dates|
    ensures var s := After(dates, i); s.highest == s.offset + s.lastCr
    ensures i > 0 ==>
      var s, before := After(dates, i), After(dates, i - 1).highest;
      && Delta(s.lastCr, dates[i - 1]) == 0
      && Wrap(s.lastCr) == Wrap(dates[i - 1])
      && Out(dates, i - 1) == s.highest
      && (Ahead(dates, i - 1) < MAX_GAP ==> Out(dates, i - 1) == before + Ahead(dates, i - 1))
      && (Ahead(dates, i - 1) >= MAX_GAP ==> Out(dates, i - 1) == before)
    ensures i > 1 ==> After(dates, i - 1).highest == Out(dates, i - 2)
  {
    if i > 0 {
      Timeline(dates, i - 1);
      RewriteStep(After(dates, i - 1), dates[i - 1]);
    }
  }

  lemma OutputsAdvance(dates: seq<nat>, i: nat)
    requires 0 < i < |dates|
    ensures 0 <= Out(dates, i) - Out(dates, i - 1) < MAX_GAP
    ensures Ahead(dates, i) >= MAX_GAP ==> Out(dates, i) == Out(dates, i - 1)
  {
    Timeline(dates, i + 1);
  }

  lemma WrapIs(x: int)
    ensures Wrap(x) == x % 2_576_980_377_600
  {
  }

  lemma DeltaOf(lastCr: int, before: nat, date: nat)
    requires lastCr % 2_576_980_377_600 == before % 2_576_980_377_600
    ensures Delta(lastCr, date) == (date - before) % 2_576_980_377_600
  {
  }

  // The first output, on a clock that starts at one wrap.
  lemma FirstOutput(dates: seq<nat>)
    requires dates != []
    ensures var d := dates[0] % 2_576_980_377_600;
      Out(dates, 0) == 2_576_980_377_600 + if d < 27_000_000 then d else 0
  {
    hide Rewrite, Wrap, Delta;
    assert After(dates, 0) == Start;
    RewriteStep(Start, dates[0]);
    DeltaOf(TS_CLOCK_MAX, 0, dates[0]);
  }

  // Every output in numbers: it moves by the distance from the date before, as
  // the clock wraps around, if that is less than a second, and not otherwise.
  lemma NextOutput(dates: seq<nat>, i: nat)
    requires 0 < i < |dates|
    ensures var d := (dates[i] as int - dates[i - 1]) % 2_576_980_377_600;
      Out(dates, i) == Out(dates, i - 1) + if d < 27_000_000 then d else 0
  {
    hide Rewrite, After, Out, Wrap, Delta;
    Timeline(dates, i);
    Timeline(dates, i + 1);
    WrapIs(After(dates, i).lastCr);
    WrapIs(dates[i - 1]);
    DeltaOf(After(dates, i).lastCr, dates[i - 1], dates[i]);
  }

  lemma WrapTwice(x: int)
    ensures Wrap(Wrap(x)) == Wrap(x)
  {
  }

  lemma DeltaIsStep(lastCr: int, date: nat, t: nat, t': nat)
    requires Wrap(lastCr) == Wrap(t) && date == Wrap(t') && t <= t' < t + MAX_GAP
    ensures Delta(lastCr, date) == t' - t
  {
  }

  // Dates that are an unbounded timeline modulo the wrap, with steps below
  // MAX_GAP, come out as that timeline, across any number of wraps.
  ghost predicate Unwraps(dates: seq<nat>, t: seq<nat>) {
    && |dates| == |t|
    && (forall i: nat :: i < |t| ==> dates[i] == Wrap(t[i]))
    && (forall i: nat, j: nat :: j == i + 1 < |t| ==> t[i] <= t[j] < t[i] + MAX_GAP)
  }

  lemma {:induction false} ExactUnwrapping(dates: seq<nat>, t: seq<nat>, i: nat)
    requires Unwraps(dates, t) && i < |t|
    ensures Out(dates, i) - Out(dates, 0) == t[i] as int - t[0]
  {
    hide Rewrite, After, Out, Wrap, Delta;
    if i > 0 {
      ExactUnwrapping(dates, t, i - 1);
      Timeline(dates, i);
      Timeline(dates, i + 1);
      var j := i - 1;
      WrapTwice(t[j]);
      assert t[j] <= t[i] < t[j] + MAX_GAP;
      DeltaIsStep(After(dates, i).lastCr, dates[i], t[j], t[i]);
    }
  }

  // ---------------------------------------------------------------------
  // The rewriting in machine arithmetic
  // ---------------------------------------------------------------------

  // Conversion to int64_t.
  function I64(x: int): i64 {
    (x + 0x8000_0000_0000_0000) % 0x1_0000_0000_0000_0000 - 0x8000_0000_0000_0000
  }

  function Delta64(lastCr: int, date: int): nat {
    U64(U64(TS_CLOCK_MAX + date) - Wrap(lastCr)) % 2_576_980_377_600
  }

  function Adjusted64(s: Clock, date: int): Clock {
    var delta := Delta64(s.lastCr, date);
    if delta < MAX_GAP then
      s.(lastCr := U64(s.lastCr + delta))
    else
      s.(lastCr := date, offset := I64(s.highest - date))
  }

  function Rewrite64(s: Clock, date: int): (Clock, int) {
    var s' := Adjusted64(s, date);
    var out := U64(U64(s'.offset + s'.lastCr) + Delta64(s'.lastCr, date));
    (if out > s'.highest then s'.(highest := out) else s', out)
  }

  // How far a date is ahead of a clock, with both wrap-arounds.
  function Ahead64(lastCr: int, date: int): nat {
    ((2_576_980_377_600 + date) % 0x1_0000_0000_0000_0000 - lastCr % 2_576_980_377_600)
      % 0x1_0000_0000_0000_0000 % 2_576_980_377_600
  }

  // One step in numbers, for any state and date, whatever wraps around.
  lemma StepInNumbers(s: Clock, date: int)
    ensures var (s', out) := Rewrite64(s, date);
      && (Ahead64(s.lastCr, date) < 27_000_000 ==>
            s'.lastCr == (s.lastCr + Ahead64(s.lastCr, date)) % 0x1_0000_0000_0000_0000 && s'.offset == s.offset)
      && (Ahead64(s.lastCr, date) >= 27_000_000 ==>
            s'.lastCr == date && (s'.offset + date) % 0x1_0000_0000_0000_0000 == s.highest % 0x1_0000_0000_0000_0000)
      && out == (s'.offset + s'.lastCr + Ahead64(s'.lastCr, date)) % 0x1_0000_0000_0000_0000
      && s'.highest == if out > s.highest then out else s.highest
  {
    SameAhead(s.lastCr, date);
    var s' := Adjusted64(s, date);
    SameAhead(s'.lastCr, date);
    hide U64, I64, Delta64, Ahead64;
    SumOfSums(s'.offset + s'.lastCr, Delta64(s'.lastCr, date));
    WrapAround(s.lastCr + Ahead64(s.lastCr, date));
    Reduced(s.highest, date);
  }

  lemma SameAhead(lastCr: int, date: int)
    ensures Delta64(lastCr, date) == Ahead64(lastCr, date)
  {
  }

  lemma SumOfSums(x: int, y: int)
    ensures U64(U64(x) + y) == (x + y) % 0x1_0000_0000_0000_0000
  {
  }

  lemma WrapAround(x: int)
    ensures U64(x) == x % 0x1_0000_0000_0000_0000
  {
  }

  lemma Reduced(highest: int, date: int)
    ensures (I64(highest - date) + date) % 0x1_0000_0000_0000_0000 == highest % 0x1_0000_0000_0000_0000
  {
  }

  function After64(dates: seq<nat>, i: nat): Clock
    requires i <= |dates|
  {
    if i == 0 then Start else Rewrite64(After64(dates, i - 1), dates[i - 1]).0
  }

  function Out64(dates: seq<nat>, i: nat): int
    requires i < |dates|
  {
    Rewrite64(After64(dates, i), dates[i]).1
  }

  lemma Delta64Agrees(lastCr: int, date: nat)
    requires date + TS_CLOCK_MAX < POW2_64
    ensures Delta64(lastCr, date) == Delta(lastCr, date)
  {
  }

  // A machine state stands for an unbounded one when only the offset had to
  // be reduced.
  predicate Stands(m: Clock, s: Clock) {
    m == s.(offset := I64(s.offset))
  }

  // Adding a reduced signed offset to an unsigned number.
  lemma SignedSum(offset: int, x: int)
    ensures U64(I64(offset) + x) == U64(offset + x)
  {
  }

  lemma StepAgrees(m: Clock, s: Clock, date: nat)
    requires Stands(m, s) && s.highest == s.offset + s.lastCr
    requires date + TS_CLOCK_MAX < POW2_64 && 0 <= s.lastCr && s.lastCr + MAX_GAP < POW2_64
    requires 0 <= s.highest && s.highest + MAX_GAP < POW2_64
    ensures Stands(Rewrite64(m, date).0, Rewrite(s, date).0)
    ensures Rewrite64(m, date).1 == Rewrite(s, date).1
  {
    hide Delta, Delta64, Wrap, U64, I64;
    RewriteStep(s, date);
    Delta64Agrees(s.lastCr, date);
    var s' := Adjusted(s, date);
    Delta64Agrees(s'.lastCr, date);
    SmallU64(s.lastCr + Delta(s.lastCr, date));
    SignedSum(s'.offset, s'.lastCr);
    SmallU64(s'.offset + s'.lastCr);
  }

  // n steps below the gap, from the first output or from any date, stay below
  // 2^64, and so does the sum of a date and one wrap.
  ghost predicate Representable(dates: seq<nat>) {
    && TS_CLOCK_MAX + |dates| * MAX_GAP < POW2_64
    && forall j: nat :: j < |dates| ==> dates[j] + |dates| * MAX_GAP < POW2_64 && dates[j] + TS_CLOCK_MAX < POW2_64
  }

  lemma {:induction false} Bounds(dates: seq<nat>, i: nat)
    requires i <= |dates| && Representable(dates)
    ensures 0 <= After(dates, i).lastCr < POW2_64 - (|dates| - i) * MAX_GAP
    ensures 0 <= After(dates, i).highest < POW2_64 - (|dates| - i) * MAX_GAP
  {
    if i > 0 {
      Bounds(dates, i - 1);
      Timeline(dates, i);
      assert dates[i - 1] + |dates| * MAX_GAP < POW2_64;
      hide Wrap, Representable;
    }
  }

  // The uint64_t and int64_t arithmetic computes the same outputs as long as
  // the sums can be represented.
  lemma {:induction false} MachineAgrees(dates: seq<nat>, i: nat)
    requires i <= |dates| && Representable(dates)
    ensures Stands(After64(dates, i), After(dates, i))
    ensures i < |dates| ==> Out64(dates, i) == Out(dates, i)
    decreases i
  {
    hide Rewrite, Rewrite64, Wrap;
    Bounds(dates, i);
    Timeline(dates, i);
    if i > 0 {
      MachineAgrees(dates, i - 1);
      Bounds(dates, i - 1);
      Timeline(dates, i - 1);
      StepAgrees(After64(dates, i - 1), After(dates, i - 1), dates[i - 1]);
    }
    if i < |dates| {
      StepAgrees(After64(dates, i), After(dates, i), dates[i]);
    }
  }

  // 33-bit dates need no more than room for the outputs.
  lemma WrappedDates(dates: seq<nat>)
    requires TS_CLOCK_MAX + |dates| * MAX_GAP < POW2_64
    requires forall j: nat :: j < |dates| ==> dates[j] < TS_CLOCK_MAX
    ensures Representable(dates)
  {
  }

  // The same numbers come out of the machine.
  lemma MachineOutputs(dates: seq<nat>, i: nat)
    requires i < |dates| && forall j: nat :: j < |dates| ==> dates[j] < 2_576_980_377_600
    requires 2_576_980_377_600 + |dates| * 27_000_000 < 0x1_0000_0000_0000_0000
    ensures i == 0 ==>
      Out64(dates, 0) == 2_576_980_377_600 + if dates[0] < 27_000_000 then dates[0] else 0
    ensures i > 0 ==>
      var d := (dates[i] as int - dates[i - 1]) % 2_576_980_377_600;
      Out64(dates, i) == Out64(dates, i - 1) + if d < 27_000_000 then d else 0
  {
    WrappedDates(dates);
    assert dates[0] % 2_576_980_377_600 == dates[0];
    hide Out, Out64, Representable, After, After64, Rewrite, Rewrite64, Wrap;
    MachineAgrees(dates, i);
    if i == 0 {
      FirstOutput(dates);
    } else {
      MachineAgrees(dates, i - 1);
      NextOutput(dates, i);
    }
  }

  // Every date of a timeline comes out as its distance from the first, counted
  // from the first output.
  lemma UnwrappedOutputs(dates: seq<nat>, t: seq<nat>, i: nat)
    requires Unwraps(dates, t) && i < |t|
    ensures var d := t[0] % 2_576_980_377_600;
      Out(dates, i) == 2_576_980_377_600 + (if d < 27_000_000 then d else 0) + (t[i] as int - t[0])
  {
    ExactUnwrapping(dates, t, i);
    FirstOutput(dates);
    WrapIs(t[0]);
    WrapIs(Wrap(t[0]));
    WrapTwice(t[0]);
    hide Out, Wrap;
  }

  // What the program is for, on the arithmetic it runs.
  lemma MachineUnwraps(dates: seq<nat>, t: seq<nat>, i: nat)
    requires Unwraps(dates, t) && i < |t|
    requires TS_CLOCK_MAX + |dates| * MAX_GAP < POW2_64
    ensures Out64(dates, i) - Out64(dates, 0) == t[i] as int - t[0]
  {
    WrappedDates(dates);
    hide Out, Out64, Representable;
    ExactUnwrapping(dates, t, i);
    MachineAgrees(dates, i);
    MachineAgrees(dates, 0);
  }

  // ---------------------------------------------------------------------
  // The probe
  // ---------------------------------------------------------------------

  class RewriteDateProbe {
    var lastCr: u64
    var timestampOffset: i64
    var timestampHighest: u64

    // uprobe_rewrite_date_init
    constructor ()
      ensures lastCr == 2_576_980_377_600 && timestampOffset == 0 && timestampHighest == 2_576_980_377_600
      ensures State() == Start
    {
      lastCr, timestampOffset, timestampHighest := TS_CLOCK_MAX, 0, TS_CLOCK_MAX;
    }

    ghost function State(): Clock
      reads this
    {
      Clock(lastCr, timestampOffset, timestampHighest)
    }

    // catch_rewrite_date, on a uref with or without a date.
    method Catch(date: Option<u64>) returns (prog: Option<u64>)
      modifies this
      ensures date == None ==> State() == old(State()) && prog == None
      ensures date != None ==> State() == Rewrite64(old(State()), date.value).0
      ensures date != None ==> prog == Some(Rewrite64(old(State()), date.value).1)
    {
      hide U64, I64, Wrap;
      if date == None {
        return None;
      }
      var orig := date.value;
      var delta := U64(U64(TS_CLOCK_MAX + orig) - Wrap(lastCr)) % TS_CLOCK_MAX;
      if delta < MAX_GAP {
        lastCr := U64(lastCr + delta);
      } else {
        lastCr := orig;
        timestampOffset := I64(timestampHighest - orig);
      }
      delta := U64(U64(TS_CLOCK_MAX + orig) - Wrap(lastCr)) % TS_CLOCK_MAX;
      var out := U64(U64(timestampOffset + lastCr) + delta);
      if out > timestampHighest {
        timestampHighest := out;
      }
      prog := Some(out);
    }
  }
}
