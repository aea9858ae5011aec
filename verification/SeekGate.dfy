// The seek gate of hls2rtp (examples/hls2rtp.c): frames are dropped until the
// first key frame at or after a target.
module SeekGate {
  import opened Machine

  // What the gate looks at: the presentation date, if any, and the key flag.
  datatype Frame = Frame(pts: Option<u64>, key: bool)

  // The fields of struct uprobe_seek.
  datatype Gate = Gate(at: u64, pts: u64)

  // The state after a frame, and whether the frame is dropped.
  function Pass(g: Gate, f: Frame): (Gate, bool) {
    if f.pts == None then
      (g, true)
    else
      var g1 := if g.at != 0 then Gate(0, U64(f.pts.value + g.at)) else g;
      if g1.pts == 0 then
        (g1, false)
      else if f.pts.value < g1.pts || !f.key then
        (g1, true)
      else
        (g1.(pts := 0), false)
  }

  class SeekProbe {
    var at: u64
    var pts: u64

    // uprobe_seek_init
    constructor (at: u64)
      ensures State() == Gate(at, 0)
    {
      this.at, pts := at, 0;
    }

    ghost function State(): Gate
      reads this
    {
      Gate(at, pts)
    }

    // catch_seek
    method Catch(f: Frame) returns (drop: bool)
      modifies this
      ensures (State(), drop) == Pass(old(State()), f)
      ensures f.pts == None ==> drop && at == old(at) && pts == old(pts)
      ensures f.pts != None ==>
        var target := if old(at) != 0 then (f.pts.value + old(at)) % 0x1_0000_0000_0000_0000 else old(pts);
        && at == 0 && pts == (if drop then target else 0)
        && (drop <==> target != 0 && (f.pts.value < target || !f.key))
    {
      drop := false;
      if f.pts == None {
        return true;
      }
      var p := f.pts.value;
      if at != 0 {
        pts := U64(p + at);
        at := 0;
      }
      if pts != 0 {
        if p < pts || !f.key {
          drop := true;
        } else {
          pts := 0;
        }
      }
    }
  }

  // The gate before frame i, and whether frame i is kept.
  function Before(at: u64, frames: seq<Frame>, i: nat): Gate
    requires i <= |frames|
  {
    if i == 0 then Gate(at, 0) else Pass(Before(at, frames, i - 1), frames[i - 1]).0
  }

  predicate Kept(at: u64, frames: seq<Frame>, i: nat)
    requires i < |frames|
  {
    !Pass(Before(at, frames, i), frames[i]).1
  }

  // The first presentation date among the first i frames.
  function FirstPts(frames: seq<Frame>, i: nat): Option<u64>
    requires i <= |frames|
  {
    if i == 0 then None
    else if FirstPts(frames, i - 1) != None then FirstPts(frames, i - 1)
    else frames[i - 1].pts
  }

  // Frame j is one the gate can open on, for a target in uint64_t arithmetic.
  predicate Opens(frames: seq<Frame>, target: u64, j: nat)
    requires j < |frames|
  {
    frames[j].pts != None && (target == 0 || (frames[j].pts.value >= target && frames[j].key))
  }

  ghost predicate OpenBy(frames: seq<Frame>, target: u64, i: nat)
    requires i <= |frames|
  {
    exists j: nat :: j < i && Opens(frames, target, j)
  }

  lemma {:induction false} GateState(at: u64, frames: seq<Frame>, i: nat)
    requires at != 0 && i <= |frames|
    ensures Before(at, frames, i) ==
      if FirstPts(frames, i) == None then Gate(at, 0)
      else var target := U64(FirstPts(frames, i).value + at);
        Gate(0, if OpenBy(frames, target, i) then 0 else target)
    ensures FirstPts(frames, i) == None ==> forall j: nat :: j < i ==> frames[j].pts == None
  {
    hide U64;
    if i > 0 {
      GateState(at, frames, i - 1);
      if FirstPts(frames, i) != None {
        var target := U64(FirstPts(frames, i).value + at);
        if OpenBy(frames, target, i - 1) {
          var j: nat :| j < i - 1 && Opens(frames, target, j);
          assert OpenBy(frames, target, i);
        } else if Opens(frames, target, i - 1) {
          assert OpenBy(frames, target, i);
        }
      }
    }
  }

  // Exactly which frames are kept, for every sequence of frames: those with a
  // date if no seek was asked for, and otherwise those with a date from the
  // first one the gate can open on.
  lemma KeptFrames(at: u64, frames: seq<Frame>, i: nat)
    requires i < |frames|
    ensures at == 0 ==> (Kept(at, frames, i) <==> frames[i].pts != None)
    ensures at != 0 ==> (Kept(at, frames, i) <==>
      frames[i].pts != None && OpenBy(frames, U64(FirstPts(frames, i + 1).value + at), i + 1))
  {
    if at == 0 {
      NoSeek(frames, i);
    } else {
      GateState(at, frames, i);
      if frames[i].pts != None {
        var target := U64(FirstPts(frames, i + 1).value + at);
        assert Opens(frames, target, i) ==> OpenBy(frames, target, i + 1);
        if OpenBy(frames, target, i) {
          var j: nat :| j < i && Opens(frames, target, j);
          assert OpenBy(frames, target, i + 1);
        }
      }
    }
  }

  lemma {:induction false} NoSeek(frames: seq<Frame>, i: nat)
    requires i <= |frames|
    ensures Before(0, frames, i) == Gate(0, 0)
  {
    if i > 0 {
      NoSeek(frames, i - 1);
    }
  }

  lemma {:induction false} FirstPtsStays(frames: seq<Frame>, i: nat, j: nat)
    requires i <= j <= |frames| && FirstPts(frames, i) != None
    ensures FirstPts(frames, j) == FirstPts(frames, i)
  {
    if i < j {
      FirstPtsStays(frames, i, j - 1);
    }
  }

  // Once open, the gate never closes.
  lemma StaysOpen(at: u64, frames: seq<Frame>, i: nat, j: nat)
    requires i <= j < |frames| && Kept(at, frames, i) && frames[j].pts != None
    ensures Kept(at, frames, j)
  {
    KeptFrames(at, frames, i);
    KeptFrames(at, frames, j);
    if at != 0 {
      var target := U64(FirstPts(frames, i + 1).value + at);
      FirstPtsStays(frames, i + 1, j + 1);
      var o: nat :| o < i + 1 && Opens(frames, target, o);
      assert OpenBy(frames, target, j + 1);
    }
  }

  // What is asked for: frames with a date, from the first key frame whose date
  // is at least the first date plus at, in unbounded integers.
  ghost predicate Wanted(at: u64, frames: seq<Frame>, i: nat)
    requires i < |frames|
  {
    && frames[i].pts != None
    && var target := FirstPts(frames, i + 1).value as int + at;
    && exists j: nat :: j <= i && Reaches(frames, target, j)
  }

  predicate Reaches(frames: seq<Frame>, target: int, j: nat)
    requires j < |frames|
  {
    frames[j].pts != None && frames[j].pts.value >= target && frames[j].key
  }

  ghost predicate KeepsWanted(at: u64, frames: seq<Frame>) {
    forall i: nat :: i < |frames| ==> (Kept(at, frames, i) <==> Wanted(at, frames, i))
  }

  lemma NoWrapKeepsWanted(at: u64, frames: seq<Frame>, i: nat)
    requires at != 0 && i < |frames|
    requires FirstPts(frames, i + 1) != None ==> FirstPts(frames, i + 1).value + at < POW2_64
    ensures Kept(at, frames, i) <==> Wanted(at, frames, i)
  {
    KeptFrames(at, frames, i);
    if frames[i].pts != None {
      var target := FirstPts(frames, i + 1).value + at;
      assert U64(target) == target;
      forall j: nat | j <= i
        ensures Opens(frames, target, j) <==> Reaches(frames, target, j)
      {
      }
      if OpenBy(frames, target, i + 1) {
        var j: nat :| j < i + 1 && Opens(frames, target, j);
        assert j <= i && Reaches(frames, target, j);
      }
    }
  }

  // In full: after a first date, and without wrap-around, a frame is kept
  // exactly if it has a date and a key frame at or after the target was seen.
  lemma KeptFrom(at: u64, frames: seq<Frame>, first: nat, i: nat)
    requires at != 0 && first < |frames| && frames[first].pts != None
    requires forall j: nat :: j < first ==> frames[j].pts == None
    requires frames[first].pts.value + at < 0x1_0000_0000_0000_0000 && i < |frames|
    ensures Kept(at, frames, i) <==>
      && frames[i].pts != None
      && exists j: nat :: j <= i && frames[j].pts != None && frames[j].key
                          && frames[j].pts.value >= frames[first].pts.value + at
  {
    FirstDate(frames, first, i + 1);
    NoWrapKeepsWanted(at, frames, i);
    if frames[i].pts != None {
      assert i >= first && FirstPts(frames, i + 1) == frames[first].pts;
      var target := FirstPts(frames, i + 1).value as int + at;
      if Wanted(at, frames, i) {
        var j: nat :| j <= i && Reaches(frames, target, j);
        assert j <= i && frames[j].pts != None && frames[j].key && frames[j].pts.value >= target;
      }
      if j: nat :| j <= i && frames[j].pts != None && frames[j].key && frames[j].pts.value >= target {
        IsWanted(at, frames, i, j);
      }
    }
  }

  lemma IsWanted(at: u64, frames: seq<Frame>, i: nat, j: nat)
    requires i < |frames| && frames[i].pts != None && j <= i && FirstPts(frames, i + 1) != None
    requires Reaches(frames, FirstPts(frames, i + 1).value as int + at, j)
    ensures Wanted(at, frames, i)
  {
  }

  lemma {:induction false} FirstDate(frames: seq<Frame>, first: nat, i: nat)
    requires first < |frames| && frames[first].pts != None && i <= |frames|
    requires forall j: nat :: j < first ==> frames[j].pts == None
    ensures FirstPts(frames, i) == if i <= first then None else frames[first].pts
  {
    if i > 0 {
      FirstDate(frames, first, i - 1);
    }
  }

  // The gate does what is asked for on every sequence that starts with a given
  // date if and only if the target does not wrap around.
  lemma SeekIsExact(at: u64, first: u64)
    requires at != 0
    ensures (forall frames: seq<Frame> :: FirstPts(frames, |frames|) == Some(first) ==> KeepsWanted(at, frames))
       <==> first + at < POW2_64
  {
    if first + at < POW2_64 {
      forall frames: seq<Frame> | FirstPts(frames, |frames|) == Some(first)
        ensures KeepsWanted(at, frames)
      {
        forall i: nat | i < |frames|
          ensures Kept(at, frames, i) <==> Wanted(at, frames, i)
        {
          if FirstPts(frames, i + 1) != None {
            FirstPtsStays(frames, i + 1, |frames|);
          }
          NoWrapKeepsWanted(at, frames, i);
        }
      }
    } else {
      // The first frame, if it is a key frame, is kept although its date is
      // below the target.
      var frames := [Frame(Some(first), true)];
      assert FirstPts(frames, 0) == None && FirstPts(frames, 1) == Some(first);
      assert Before(at, frames, 0) == Gate(at, 0);
      assert Kept(at, frames, 0) && !Wanted(at, frames, 0);
      assert !KeepsWanted(at, frames);
    }
  }
}
