/**
 Which frames may be handed out and which are: the two bitmaps as sequences of booleans,
 with the operations of the frame allocator and what they promise over every run.
 */
module FrameModel {
  import opened Wrappers

  datatype Frames = Frames(allocatable: seq<bool>, used: seq<bool>)

  ghost predicate Shaped(f: Frames) {
    |f.allocatable| == |f.used|
  }

  predicate IsFree(f: Frames, i: int) {
    0 <= i < |f.allocatable| && i < |f.used| && f.allocatable[i] && !f.used[i]
  }

  predicate IsIssued(f: Frames, i: int) {
    0 <= i < |f.allocatable| && i < |f.used| && f.allocatable[i] && f.used[i]
  }

  /** `n` free frames in a row from `s`. */
  ghost predicate FreeRun(f: Frames, s: nat, n: nat) {
    s + n <= |f.allocatable| && forall i :: s <= i < s + n ==> IsFree(f, i)
  }

  ghost predicate IssuedRun(f: Frames, s: nat, n: nat) {
    s + n <= |f.allocatable| && forall i :: s <= i < s + n ==> IsIssued(f, i)
  }

  /** Free frames among the first `n`. */
  function FreeCount(f: Frames, n: nat): nat
    requires n <= |f.allocatable| && n <= |f.used|
  {
    if n == 0 then 0 else FreeCount(f, n - 1) + (if IsFree(f, n - 1) then 1 else 0)
  }

  ghost function FreeSet(f: Frames, n: nat): set<nat> {
    set i: nat | i < n && IsFree(f, i)
  }

  lemma {:induction false} FreeCountIsSize(f: Frames, n: nat)
    requires Shaped(f) && n <= |f.used|
    ensures FreeCount(f, n) == |FreeSet(f, n)|
  {
    if n == 0 {
    } else {
      FreeCountIsSize(f, n - 1);
      assert FreeSet(f, n) == FreeSet(f, n - 1) + (if IsFree(f, n - 1) then {n - 1} else {});
    }
  }

  /** The frames from `s` on, `n` of them, marked used or not. */
  function Mark(f: Frames, s: nat, n: nat, value: bool): Frames
    requires s + n <= |f.used|
  {
    f.(used := f.used[..s] + seq(n, i => value) + f.used[s + n..])
  }

  lemma {:induction false} MarkCount(f: Frames, s: nat, n: nat, k: nat)
    requires Shaped(f) && FreeRun(f, s, n) && k <= |f.used|
    ensures var taken := if k <= s then 0 else if k <= s + n then k - s else n;
            FreeCount(Mark(f, s, n, true), k) + taken == FreeCount(f, k)
  {
    if k == 0 {
    } else {
      MarkCount(f, s, n, k - 1);
      MarkAt(f, s, n, true, k - 1);
    }
  }

  lemma MarkAt(f: Frames, s: nat, n: nat, value: bool, i: nat)
    requires s + n <= |f.used| && i < |f.used|
    ensures |Mark(f, s, n, value).used| == |f.used|
    ensures Mark(f, s, n, value).used[i] == if s <= i < s + n then value else f.used[i]
  {
  }

  lemma MarkOne(f: Frames, i: nat, value: bool)
    requires i < |f.used|
    ensures Mark(f, i, 1, value) == f.(used := f.used[i := value])
  {
    assert f.used[..i] + seq(1, k => value) + f.used[i + 1..] == f.used[i := value];
  }

  lemma MarkExtend(f: Frames, s: nat, n: nat, value: bool)
    requires s + n < |f.used|
    ensures Mark(f, s, n + 1, value) == Mark(f, s, n, value).(used := Mark(f, s, n, value).used[s + n := value])
  {
    var a, b := Mark(f, s, n + 1, value).used, Mark(f, s, n, value).used[s + n := value];
    forall i | 0 <= i < |a|
      ensures a[i] == b[i]
    {
      MarkAt(f, s, n + 1, value, i);
      MarkAt(f, s, n, value, i);
    }
    assert a == b;
  }

  lemma MarkNothing(f: Frames, s: nat, value: bool)
    requires s <= |f.used|
    ensures Mark(f, s, 0, value) == f
  {
    assert f.used[..s] + seq(0, k => value) + f.used[s..] == f.used;
  }

  /** Changing one frame's state changes the count by one. */
  lemma {:induction false} FlipCount(f: Frames, i: nat, n: nat)
    requires Shaped(f) && i < |f.used| && f.allocatable[i] && n <= |f.used|
    ensures var g := f.(used := f.used[i := !f.used[i]]);
            FreeCount(g, n) == FreeCount(f, n) + (if i >= n then 0 else if f.used[i] then 1 else -1)
  {
    if n == 0 {
    } else {
      FlipCount(f, i, n - 1);
    }
  }

  /** A frame that joins the allocatable set free adds one. */
  lemma {:induction false} JoinCount(f: Frames, i: nat, n: nat)
    requires Shaped(f) && i < |f.used| && !f.allocatable[i] && n <= |f.used|
    ensures var g := Frames(f.allocatable[i := true], f.used[i := false]);
            FreeCount(g, n) == FreeCount(f, n) + (if i < n then 1 else 0)
  {
    if n == 0 {
    } else {
      JoinCount(f, i, n - 1);
    }
  }

  /** Making a frame allocatable and free adds one, unless it was free already. */
  lemma MarkedCount(f: Frames, i: nat, n: nat)
    requires Shaped(f) && i < n <= |f.used|
    ensures FreeCount(Frames(f.allocatable[i := true], f.used[i := false]), n)
            == FreeCount(f, n) + (if IsFree(f, i) then 0 else 1)
  {
    var g := Frames(f.allocatable[i := true], f.used[i := false]);
    if !f.allocatable[i] {
      JoinCount(f, i, n);
    } else {
      assert f.allocatable[i := true] == f.allocatable;
      if f.used[i] {
        FlipCount(f, i, n);
      } else {
        assert f.used[i := false] == f.used;
      }
    }
  }

  // ----- operations -----

  /** The lowest start, at or after `s`, of `n` free frames in a row. */
  ghost function FirstRun(f: Frames, n: nat, s: nat): (r: Option<nat>)
    ensures r.Some? ==> s <= r.value && FreeRun(f, r.value, n)
    ensures forall t :: s <= t < (if r.Some? then r.value else |f.allocatable| + 1) ==> !FreeRun(f, t, n)
    decreases |f.allocatable| + 1 - s
  {
    if s + n > |f.allocatable| then None
    else if FreeRun(f, s, n) then Some(s)
    else FirstRun(f, n, s + 1)
  }

  lemma FirstRunIs(f: Frames, n: nat, s: nat)
    requires forall t :: 0 <= t < s ==> !FreeRun(f, t, n)
    requires FreeRun(f, s, n) || s + n > |f.allocatable|
    ensures FirstRun(f, n, 0) == if FreeRun(f, s, n) then Some(s) else None
  {
    assert forall t :: s <= t && s + n > |f.allocatable| ==> !FreeRun(f, t, n);
  }

  ghost function AllocContiguous(f: Frames, n: nat): (Frames, Option<nat>)
    requires Shaped(f)
  {
    if n == 0 then (f, None)
    else match FirstRun(f, n, 0)
         case None => (f, None)
         case Some(s) => (Mark(f, s, n, true), Some(s))
  }

  /** The run handed out is the lowest there is, and refusal means that there is none. */
  lemma AllocLowest(f: Frames, n: nat)
    requires Shaped(f) && 0 < n
    ensures match AllocContiguous(f, n).1
            case None => AllocContiguous(f, n).0 == f && forall t: nat :: !FreeRun(f, t, n)
            case Some(s) => FreeRun(f, s, n) && forall t: nat :: t < s ==> !FreeRun(f, t, n)
  {
  }

  /** Giving back a whole range that is out. */
  function Release(f: Frames, s: nat, n: nat): Frames
    requires s + n <= |f.used|
  {
    Mark(f, s, n, false)
  }

  // ----- what they promise -----

  /** Free and issued frames part the fixed allocatable set; an allocation moves its run across. */
  lemma AllocMoves(f: Frames, n: nat)
    requires Shaped(f) && AllocContiguous(f, n).1.Some?
    ensures var (f', r) := AllocContiguous(f, n);
            && Shaped(f') && f'.allocatable == f.allocatable
            && 0 < n && FreeRun(f, r.value, n) && IssuedRun(f', r.value, n)
            && (forall i :: (i < r.value || r.value + n <= i) ==>
                              (IsFree(f', i) <==> IsFree(f, i)) && (IsIssued(f', i) <==> IsIssued(f, i)))
            && FreeCount(f', |f'.used|) + n == FreeCount(f, |f.used|)
  {
    var s := FirstRun(f, n, 0).value;
    MarkCount(f, s, n, |f.used|);
    forall i
      ensures IsFree(Mark(f, s, n, true), i) <==> IsFree(f, i) && !(s <= i < s + n)
      ensures IsIssued(Mark(f, s, n, true), i) <==> IsIssued(f, i) || s <= i < s + n
    {
      MarkMoves(f, s, n, i);
    }
  }

  lemma MarkMoves(f: Frames, s: nat, n: nat, i: int)
    requires Shaped(f) && FreeRun(f, s, n)
    ensures IsFree(Mark(f, s, n, true), i) <==> IsFree(f, i) && !(s <= i < s + n)
    ensures IsIssued(Mark(f, s, n, true), i) <==> IsIssued(f, i) || s <= i < s + n
  {
    assert s <= i < s + n ==> IsFree(f, i);
    if 0 <= i < |f.used| {
      MarkAt(f, s, n, true, i);
    }
  }

  /** Releasing what was just allocated restores both bitmaps. */
  ghost predicate HasRoom(f: Frames, n: nat) {
    exists s: nat :: FreeRun(f, s, n)
  }

  /** Taking the lowest run spoils no more of a longer one than it takes. */
  lemma RoomAfter(f: Frames, n: nat, spare: nat)
    requires Shaped(f) && 0 < n && HasRoom(f, n + spare)
    ensures AllocContiguous(f, n).1.Some? && HasRoom(AllocContiguous(f, n).0, spare)
  {
    var s: nat :| FreeRun(f, s, n + spare);
    assert FreeRun(f, s, n);
    AllocLowest(f, n);
    AllocMoves(f, n);
    var (f', t) := AllocContiguous(f, n);
    var left := if t.value + n <= s then s else s + n;
    forall i | left <= i < left + spare ensures IsFree(f', i) {
      assert IsFree(f, i);
    }
    assert FreeRun(f', left, spare);
  }

  lemma ReleaseUndoesAlloc(f: Frames, n: nat)
    requires Shaped(f) && AllocContiguous(f, n).1.Some?
    ensures var (f', r) := AllocContiguous(f, n);
            r.value + n <= |f'.used| && Release(f', r.value, n) == f
  {
    var (f', r) := AllocContiguous(f, n);
    AllocMoves(f, n);
    var g := Release(f', r.value, n);
    forall i: nat | i < |f.used|
      ensures |g.used| == |f.used| && g.used[i] == f.used[i]
    {
      MarkAt(f', r.value, n, false, i);
      MarkAt(f, r.value, n, true, i);
      assert r.value <= i < r.value + n ==> IsFree(f, i);
    }
    assert g.used == f.used;
  }

  // ----- whole runs -----

  datatype Run = Run(start: nat, count: nat)

  /** The allocator and the ranges it has out. */
  datatype Ledger = Ledger(frames: Frames, out: set<Run>)

  ghost predicate Disjoint(a: Run, b: Run) {
    a.start + a.count <= b.start || b.start + b.count <= a.start
  }

  ghost predicate OutCovers(out: set<Run>, i: int) {
    exists r :: r in out && r.start <= i < r.start + r.count
  }

  /** The issued frames are exactly those of the ranges out, and no two ranges overlap. */
  ghost predicate Balanced(l: Ledger) {
    && Shaped(l.frames)
    && (forall r :: r in l.out ==> 0 < r.count && r.start + r.count <= |l.frames.used|)
    && (forall a, b :: a in l.out && b in l.out && a != b ==> Disjoint(a, b))
    && (forall i :: IsIssued(l.frames, i) <==> OutCovers(l.out, i))
  }

  /** `FreeOneOp` gives back a single frame of a range that is out. */
  datatype Op = AllocOp(count: nat) | FreeOp(range: Run) | FreeOneOp(frame: nat)

  ghost function Holder(out: set<Run>, i: int): (r: Run)
    requires OutCovers(out, i)
    ensures r in out && r.start <= i < r.start + r.count
  {
    var r :| r in out && r.start <= i < r.start + r.count; r
  }

  /** What is left of a range without one of its frames. */
  function Parts(r: Run, i: nat): set<Run>
    requires r.start <= i < r.start + r.count
  {
    (if r.start < i then {Run(r.start, i - r.start)} else {})
    + (if i + 1 < r.start + r.count then {Run(i + 1, r.start + r.count - i - 1)} else {})
  }

  ghost function Step(l: Ledger, op: Op): Ledger
    requires Balanced(l)
  {
    match op
    case AllocOp(n) =>
      var (f, r) := AllocContiguous(l.frames, n);
      Ledger(f, if r.Some? then l.out + {Run(r.value, n)} else l.out)
    case FreeOp(r) =>
      if r in l.out then Ledger(Release(l.frames, r.start, r.count), l.out - {r}) else l
    case FreeOneOp(i) =>
      if !OutCovers(l.out, i) then l
      else
        var r := Holder(l.out, i);
        Ledger(Release(l.frames, i, 1), l.out - {r} + Parts(r, i))
  }

  lemma AllocBalanced(l: Ledger, n: nat)
    requires Balanced(l)
    ensures Balanced(Step(l, AllocOp(n))) && Step(l, AllocOp(n)).frames.allocatable == l.frames.allocatable
  {
    var (f, r) := AllocContiguous(l.frames, n);
    if r.Some? {
      AllocMoves(l.frames, n);
      var run := Run(r.value, n);
      forall a | a in l.out
        ensures Disjoint(a, run)
      {
        NoSharedFrame(l, a, run);
      }
      forall i
        ensures IsIssued(f, i) <==> OutCovers(l.out + {run}, i)
      {
        OutCoversAdd(l.out, run, i);
        assert r.value <= i < r.value + n ==> IsIssued(f, i);
        assert r.value <= i < r.value + n ==> IsFree(l.frames, i);
      }
    }
  }

  /** An allocator that has issued nothing owes nothing. */
  lemma NothingOut(f: Frames)
    requires Shaped(f) && forall i :: !IsIssued(f, i)
    ensures Balanced(Ledger(f, {}))
  {
  }

  lemma OutIssued(l: Ledger, r: Run)
    requires Balanced(l) && r in l.out
    ensures IssuedRun(l.frames, r.start, r.count)
  {
    assert forall i :: r.start <= i < r.start + r.count ==> OutCovers(l.out, i);
  }

  lemma NoSharedFrame(l: Ledger, a: Run, run: Run)
    requires Balanced(l) && a in l.out && 0 < run.count && FreeRun(l.frames, run.start, run.count)
    ensures Disjoint(a, run)
  {
    var x := if a.start < run.start then run.start else a.start;
    assert a.start <= x < a.start + a.count ==> OutCovers(l.out, x);
    assert run.start <= x < run.start + run.count ==> IsFree(l.frames, x);
  }

  lemma OutCoversAdd(out: set<Run>, r: Run, i: int)
    ensures OutCovers(out + {r}, i) <==> OutCovers(out, i) || r.start <= i < r.start + r.count
  {
    if OutCovers(out, i) {
      var a :| a in out && a.start <= i < a.start + a.count;
      assert a in out + {r};
    } else if r.start <= i < r.start + r.count {
      assert r in out + {r};
    }
  }

  lemma OutCoversRemove(l: Ledger, r: Run, i: int)
    requires Balanced(l) && r in l.out
    ensures OutCovers(l.out - {r}, i) <==> OutCovers(l.out, i) && !(r.start <= i < r.start + r.count)
  {
    if OutCovers(l.out, i) && !(r.start <= i < r.start + r.count) {
      var a :| a in l.out && a.start <= i < a.start + a.count;
      assert a in l.out - {r};
    }
    if OutCovers(l.out - {r}, i) {
      var a :| a in l.out - {r} && a.start <= i < a.start + a.count;
      assert Disjoint(a, r);
    }
  }

  lemma FreeBalanced(l: Ledger, r: Run)
    requires Balanced(l)
    ensures Balanced(Step(l, FreeOp(r))) && Step(l, FreeOp(r)).frames.allocatable == l.frames.allocatable
  {
    if r in l.out {
      var f := Release(l.frames, r.start, r.count);
      forall i
        ensures IsIssued(f, i) <==> OutCovers(l.out - {r}, i)
      {
        OutCoversRemove(l, r, i);
        if 0 <= i < |l.frames.used| {
          MarkAt(l.frames, r.start, r.count, false, i);
        }
      }
    }
  }

  lemma PartsCover(r: Run, i: nat, j: int)
    requires r.start <= i < r.start + r.count
    ensures OutCovers(Parts(r, i), j) <==> r.start <= j < r.start + r.count && j != i
  {
    if r.start <= j < i {
      assert Run(r.start, i - r.start) in Parts(r, i);
    } else if i < j < r.start + r.count {
      assert Run(i + 1, r.start + r.count - i - 1) in Parts(r, i);
    }
  }

  lemma OutCoversUnion(a: set<Run>, b: set<Run>, j: int)
    ensures OutCovers(a + b, j) <==> OutCovers(a, j) || OutCovers(b, j)
  {
    if OutCovers(a, j) {
      assert Holder(a, j) in a + b;
    } else if OutCovers(b, j) {
      assert Holder(b, j) in a + b;
    }
  }

  lemma FreeOneBalanced(l: Ledger, i: nat)
    requires Balanced(l)
    ensures Balanced(Step(l, FreeOneOp(i))) && Step(l, FreeOneOp(i)).frames.allocatable == l.frames.allocatable
  {
    if OutCovers(l.out, i) {
      var r := Holder(l.out, i);
      var f, out := Release(l.frames, i, 1), l.out - {r} + Parts(r, i);
      forall j
        ensures IsIssued(f, j) <==> OutCovers(out, j)
      {
        OutCoversUnion(l.out - {r}, Parts(r, i), j);
        OutCoversRemove(l, r, j);
        PartsCover(r, i, j);
        assert r.start <= j < r.start + r.count ==> OutCovers(l.out, j);
        if 0 <= j < |l.frames.used| {
          MarkAt(l.frames, i, 1, false, j);
        }
      }
      forall a, b | a in out && b in out && a != b
        ensures Disjoint(a, b)
      {
        PartsApart(l, r, i, a, b);
      }
    }
  }

  lemma PartsApart(l: Ledger, r: Run, i: nat, a: Run, b: Run)
    requires Balanced(l) && r in l.out && r.start <= i < r.start + r.count && a != b
    requires a in l.out - {r} + Parts(r, i) && b in l.out - {r} + Parts(r, i)
    ensures Disjoint(a, b)
  {
    assert a in l.out && a != r ==> Disjoint(a, r);
    assert b in l.out && b != r ==> Disjoint(b, r);
  }

  /** Every operation keeps the books and the set of allocatable frames. */
  lemma StepBalanced(l: Ledger, op: Op)
    requires Balanced(l)
    ensures Balanced(Step(l, op)) && Step(l, op).frames.allocatable == l.frames.allocatable
  {
    match op
    case AllocOp(n) => AllocBalanced(l, n);
    case FreeOp(r) => FreeBalanced(l, r);
    case FreeOneOp(i) => FreeOneBalanced(l, i);
  }

  ghost function Steps(l: Ledger, ops: seq<Op>): Ledger
    requires Balanced(l)
    ensures Balanced(Steps(l, ops)) && Steps(l, ops).frames.allocatable == l.frames.allocatable
  {
    if ops == [] then l else
      var before := Steps(l, ops[..|ops| - 1]);
      var op := ops[|ops| - 1];
      StepBalanced(before, op);
      Step(before, op)
  }

  /**
   After every run of allocations and releases, whole or frame by frame, ranges out never overlap and
   cover what is issued.
   */
  lemma RunsNeverOverlap(l: Ledger, ops: seq<Op>, a: Run, b: Run)
    requires Balanced(l) && a in Steps(l, ops).out && b in Steps(l, ops).out && a != b
    ensures Disjoint(a, b)
    ensures IssuedRun(Steps(l, ops).frames, a.start, a.count)
  {
    OutIssued(Steps(l, ops), a);
  }
}
