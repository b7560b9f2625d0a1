/**
 * The slot assignment engine on values: which students count as placed,
 * `auto_assign_students`, the slot numbering after `shuffle_students`, and
 * the resolution of a drop in `on_drag_end`. The `Planner` class runs
 * these as the source does, step by step, and is proved to compute them.
 */
module Assignment {
  import opened Wrappers
  import Geometry
  import opened Shuffle

  /** A student record: the fields the engine reads or writes. */
  datatype Student = Student(name: string, slot: Option<int>, fontSize: int)

  /** The test at the head of `auto_assign_students`, `draw_students` and
      `export_pdf`: an integer slot below the slot count. A negative slot
      passes it. */
  predicate Placed(st: Student, n: int) {
    st.slot.Some? && st.slot.value < n
  }

  /** No two placed students share a slot. */
  predicate Injective(xs: seq<Student>, n: int) {
    forall i, j :: 0 <= i < j < |xs| && Placed(xs[i], n) && Placed(xs[j], n) ==> xs[i].slot != xs[j].slot
  }

  // ------------------------------------------------------- auto-assign

  /** `used`: the slots of the placed students. */
  function UsedSlots(xs: seq<Student>, n: int): set<int> {
    set i | 0 <= i < |xs| && Placed(xs[i], n) :: xs[i].slot.value
  }

  /** `free`: the slots below `k` not in `used`, in increasing order. */
  function FreeSlots(used: set<int>, k: nat): (f: seq<int>)
    ensures forall j :: 0 <= j < |f| ==> 0 <= f[j] < k && f[j] !in used
    ensures forall v :: 0 <= v < k && v !in used ==> v in f
    ensures forall i, j :: 0 <= i < j < |f| ==> f[i] < f[j]
  {
    if k == 0 then [] else FreeSlots(used, k - 1) + (if k - 1 in used then [] else [k - 1])
  }

  function FreeFor(xs: seq<Student>, n: nat): seq<int> {
    FreeSlots(UsedSlots(xs, n), n)
  }

  /** The number of students that are not placed. */
  function Unplaced(xs: seq<Student>, n: int): nat {
    if xs == [] then 0 else Unplaced(xs[..|xs| - 1], n) + (if Placed(xs[|xs| - 1], n) then 0 else 1)
  }

  /** How many unplaced students precede position `i`: how often `free` was
      popped before the loop reaches it. */
  function Rank(xs: seq<Student>, n: int, i: nat): nat
    requires i <= |xs|
  {
    Unplaced(xs[..i], n)
  }

  /** `free.pop(0)` after `c` pops, or `None` once `free` is exhausted. */
  function Nth(f: seq<int>, c: nat): Option<int> {
    if c < |f| then Some(f[c]) else None
  }

  /** The students after `auto_assign_students` with `n` slots: the placed
      ones keep their record, the others take the free slots in list order. */
  function AutoAssign(xs: seq<Student>, n: nat): (r: seq<Student>)
    ensures |r| == |xs|
    ensures forall i :: 0 <= i < |xs| ==> r[i] == xs[i].(slot := r[i].slot)
    ensures forall i :: 0 <= i < |xs| && Placed(xs[i], n) ==> r[i] == xs[i]
  {
    var free := FreeFor(xs, n);
    seq(|xs|, i requires 0 <= i < |xs| =>
      if Placed(xs[i], n) then xs[i] else xs[i].(slot := Nth(free, Rank(xs, n, i))))
  }

  lemma RankStep(xs: seq<Student>, n: int, i: nat)
    requires i < |xs|
    ensures Rank(xs, n, i + 1) == Rank(xs, n, i) + (if Placed(xs[i], n) then 0 else 1)
  {
    assert xs[..i + 1][..i] == xs[..i];
  }

  lemma {:induction false} RankMono(xs: seq<Student>, n: int, i: nat, j: nat)
    requires i < j <= |xs| && !Placed(xs[i], n)
    ensures Rank(xs, n, i) < Rank(xs, n, j)
  {
    RankStep(xs, n, j - 1);
    if i < j - 1 {
      RankMono(xs, n, i, j - 1);
    }
  }

  /** Every count below a rank is the rank of an earlier unplaced student. */
  lemma {:induction false} RankWitness(xs: seq<Student>, n: int, i: nat, c: nat)
    requires i <= |xs| && c < Rank(xs, n, i)
    ensures exists k :: 0 <= k < i && !Placed(xs[k], n) && Rank(xs, n, k) == c
  {
    RankStep(xs, n, i - 1);
    if c < Rank(xs, n, i - 1) {
      RankWitness(xs, n, i - 1, c);
    }
  }

  /** Unplaced students, taken in list order, receive increasing slots. */
  lemma AutoAssignInOrder(xs: seq<Student>, n: nat, i: nat, j: nat)
    requires i < j < |xs| && !Placed(xs[i], n) && !Placed(xs[j], n)
    requires AutoAssign(xs, n)[j].slot.Some?
    ensures AutoAssign(xs, n)[i].slot.Some?
    ensures 0 <= AutoAssign(xs, n)[i].slot.value < AutoAssign(xs, n)[j].slot.value < n
  {
    RankMono(xs, n, i, j);
  }

  /** A student is left without a slot only when every slot is taken. */
  lemma AutoAssignNoneOnlyWhenFull(xs: seq<Student>, n: nat, i: nat)
    requires i < |xs| && AutoAssign(xs, n)[i].slot.None?
    ensures !Placed(xs[i], n)
    ensures forall v :: 0 <= v < n ==> exists k :: 0 <= k < |xs| && AutoAssign(xs, n)[k].slot == Some(v)
  {
    var r := AutoAssign(xs, n);
    var free := FreeFor(xs, n);
    var used := UsedSlots(xs, n);
    assert Rank(xs, n, i) >= |free|;
    forall v | 0 <= v < n
      ensures exists k :: 0 <= k < |xs| && r[k].slot == Some(v)
    {
      if v in used {
        var k :| 0 <= k < |xs| && Placed(xs[k], n) && xs[k].slot.value == v;
        assert r[k].slot == Some(v);
      } else {
        assert v in free;
        var c :| 0 <= c < |free| && free[c] == v;
        RankWitness(xs, n, i, c);
        var k :| 0 <= k < i && !Placed(xs[k], n) && Rank(xs, n, k) == c;
        assert r[k].slot == Some(v);
      }
    }
  }

  /** A student unplaced after auto-assign has no slot at all. */
  lemma AutoAssignUnplacedIsNone(xs: seq<Student>, n: nat, k: nat)
    requires k < |xs| && !Placed(AutoAssign(xs, n)[k], n)
    ensures AutoAssign(xs, n)[k].slot.None?
  {
  }

  /** Distinct placed slots stay distinct, and every newly given slot is a
      real one. */
  lemma AutoAssignInjective(xs: seq<Student>, n: nat)
    requires Injective(xs, n)
    ensures Injective(AutoAssign(xs, n), n)
    ensures forall i :: 0 <= i < |xs| && !Placed(xs[i], n) && AutoAssign(xs, n)[i].slot.Some? ==>
      0 <= AutoAssign(xs, n)[i].slot.value < n && AutoAssign(xs, n)[i].slot.value !in UsedSlots(xs, n)
  {
    var r := AutoAssign(xs, n);
    forall i, j | 0 <= i < j < |r| && Placed(r[i], n) && Placed(r[j], n)
      ensures r[i].slot != r[j].slot
    {
      if !Placed(xs[i], n) && !Placed(xs[j], n) {
        RankMono(xs, n, i, j);
      } else if Placed(xs[i], n) && !Placed(xs[j], n) {
        assert xs[i].slot.value in UsedSlots(xs, n);
      } else if !Placed(xs[i], n) && Placed(xs[j], n) {
        assert xs[j].slot.value in UsedSlots(xs, n);
      }
    }
  }

  lemma NoFreeWhenAllUsed(used: set<int>, n: nat)
    requires forall v :: 0 <= v < n ==> v in used
    ensures FreeSlots(used, n) == []
  {
    var f := FreeSlots(used, n);
    assert forall j :: 0 <= j < |f| ==> f[j] in used;
  }

  /** Running auto-assign twice equals running it once. */
  lemma AutoAssignIdempotent(xs: seq<Student>, n: nat)
    ensures AutoAssign(AutoAssign(xs, n), n) == AutoAssign(xs, n)
  {
    var r := AutoAssign(xs, n);
    var rr := AutoAssign(r, n);
    if i :| 0 <= i < |r| && !Placed(r[i], n) {
      AutoAssignNoneOnlyWhenFull(xs, n, i);
      forall v | 0 <= v < n
        ensures v in UsedSlots(r, n)
      {
        var k :| 0 <= k < |xs| && r[k].slot == Some(v);
        assert Placed(r[k], n);
      }
      NoFreeWhenAllUsed(UsedSlots(r, n), n);
      forall k | 0 <= k < |r|
        ensures rr[k] == r[k]
      {
        if !Placed(r[k], n) {
          AutoAssignUnplacedIsNone(xs, n, k);
        }
      }
    }
    assert rr == r;
  }

  // ------------------------------------------------------------ shuffle

  /** The slot loop of `shuffle_students`: position `i` gets slot `i` when
      there is one, otherwise none. */
  function WithOrderedSlots(ys: seq<Student>, n: nat): (r: seq<Student>)
    ensures |r| == |ys|
  {
    seq(|ys|, i requires 0 <= i < |ys| => ys[i].(slot := if i < n then Some(i) else None))
  }

  /** `shuffle_students` with the given draws. */
  function ShuffleStudents(xs: seq<Student>, draws: seq<nat>, n: nat): (r: seq<Student>)
    requires DrawsFit(draws, |xs|)
    ensures |r| == |xs|
    ensures forall i :: 0 <= i < |r| ==> r[i].slot == if i < n then Some(i) else None
  {
    WithOrderedSlots(Shuffled(xs, draws, |draws|), n)
  }

  /** A student record without its slot. */
  function Unslotted(xs: seq<Student>): (r: seq<Student>)
    ensures |r| == |xs|
  {
    seq(|xs|, i requires 0 <= i < |xs| => xs[i].(slot := None))
  }

  lemma UnslottedSwap(p: seq<Student>, i: nat, j: nat)
    requires i < |p| && j < |p|
    ensures Unslotted(Swap(p, i, j)) == Swap(Unslotted(p), i, j)
  {
    var a := Unslotted(Swap(p, i, j));
    var b := Swap(Unslotted(p), i, j);
    forall k | 0 <= k < |p|
      ensures a[k] == b[k]
    {
      if k == j {
      } else if k == i {
      }
    }
  }

  lemma {:induction false} UnslottedShuffled(xs: seq<Student>, draws: seq<nat>, k: nat)
    requires DrawsFit(draws, |xs|) && k <= |draws|
    ensures Unslotted(Shuffled(xs, draws, k)) == Shuffled(Unslotted(xs), draws, k)
  {
    if k > 0 {
      UnslottedShuffled(xs, draws, k - 1);
      var p := Shuffled(xs, draws, k - 1);
      var q := Shuffled(Unslotted(xs), draws, k - 1);
      assert Shuffled(xs, draws, k) == Swap(p, |xs| - k, draws[k - 1]);
      assert Shuffled(Unslotted(xs), draws, k) == Swap(q, |xs| - k, draws[k - 1]);
      UnslottedSwap(p, |xs| - k, draws[k - 1]);
    }
  }

  function PlacedCount(xs: seq<Student>, n: int): nat {
    if xs == [] then 0 else PlacedCount(xs[..|xs| - 1], n) + (if Placed(xs[|xs| - 1], n) then 1 else 0)
  }

  lemma {:induction false} OrderedPlacedCount(ys: seq<Student>, n: nat, k: nat)
    requires k <= |ys|
    ensures PlacedCount(WithOrderedSlots(ys, n)[..k], n) == if k < n then k else n
  {
    if k > 0 {
      OrderedPlacedCount(ys, n, k - 1);
      assert WithOrderedSlots(ys, n)[..k][..k - 1] == WithOrderedSlots(ys, n)[..k - 1];
    }
  }

  /** After a shuffle the students are the old ones in another order (slots
      aside); position `i` holds slot `i` when `i` is below the slot count
      and no slot otherwise; exactly `min(N, n)` students are placed, all in
      different slots. */
  lemma ShuffleStudentsSpec(xs: seq<Student>, draws: seq<nat>, n: nat)
    requires DrawsFit(draws, |xs|)
    ensures |ShuffleStudents(xs, draws, n)| == |xs|
    ensures multiset(Unslotted(ShuffleStudents(xs, draws, n))) == multiset(Unslotted(xs))
    ensures forall i :: 0 <= i < |xs| ==>
      ShuffleStudents(xs, draws, n)[i].slot == if i < n then Some(i) else None
    ensures PlacedCount(ShuffleStudents(xs, draws, n), n) == if |xs| < n then |xs| else n
    ensures Injective(ShuffleStudents(xs, draws, n), n)
  {
    var ys := Shuffled(xs, draws, |draws|);
    var r := ShuffleStudents(xs, draws, n);
    assert Unslotted(r) == Unslotted(ys);
    UnslottedShuffled(xs, draws, |draws|);
    ShuffledPermutes(Unslotted(xs), draws, |draws|);
    OrderedPlacedCount(ys, n, |ys|);
    assert r[..|r|] == r;
  }

  /** A later auto-assign leaves a freshly shuffled plan as it is. */
  lemma AutoAssignAfterShuffle(xs: seq<Student>, draws: seq<nat>, n: nat)
    requires DrawsFit(draws, |xs|)
    ensures AutoAssign(ShuffleStudents(xs, draws, n), n) == ShuffleStudents(xs, draws, n)
  {
    var r := ShuffleStudents(xs, draws, n);
    var rr := AutoAssign(r, n);
    ShuffleStudentsSpec(xs, draws, n);
    var f := FreeFor(r, n);
    if |xs| > n {
      forall v | 0 <= v < n
        ensures v in UsedSlots(r, n)
      {
        assert Placed(r[v], n) && r[v].slot.value == v;
      }
      NoFreeWhenAllUsed(UsedSlots(r, n), n);
    }
    forall k | 0 <= k < |r|
      ensures rr[k] == r[k]
    {
      if k >= n {
        assert |f| == 0;
      }
    }
    assert rr == r;
  }

  // ------------------------------------------------------------- a drop

  const Far: real := 1000000000000000000.0

  /** The squared distance from the drop point to a slot centre. */
  function Dist2(q: Geometry.Slot, px: real, py: real): real {
    (px - q.cx) * (px - q.cx) + (py - q.cy) * (py - q.cy)
  }

  /** The nearest-slot loop after its first `k` iterations, starting from
      `(None, 1e18)` and taking a slot only when strictly closer. */
  function NearestUpTo(slots: seq<Geometry.Slot>, px: real, py: real, k: nat): (r: (Option<nat>, real))
    requires k <= |slots|
    ensures r.0.None? ==> r.1 == Far && forall i :: 0 <= i < k ==> Dist2(slots[i], px, py) >= Far
    ensures r.0.Some? ==> r.0.value < k && r.1 == Dist2(slots[r.0.value], px, py) < Far
    ensures r.0.Some? ==> forall i :: 0 <= i < k ==> Dist2(slots[i], px, py) >= r.1
    ensures r.0.Some? ==> forall i :: 0 <= i < r.0.value ==> Dist2(slots[i], px, py) > r.1
  {
    if k == 0 then (None, Far)
    else
      var prev := NearestUpTo(slots, px, py, k - 1);
      var d2 := Dist2(slots[k - 1], px, py);
      if d2 < prev.1 then (Some(k - 1), d2) else prev
  }

  /** `snap = max(100, int(seat_size * 1.2 * zoom))`. */
  function Snap(seat: int, zoom: real): (s: int)
    ensures s >= 100
  {
    var t := Geometry.Trunc(seat as real * 1.2 * zoom);
    if t < 100 then 100 else t
  }

  /** The first student other than the dragged one whose slot is `t`,
      searching from position `j`. */
  function HolderFrom(xs: seq<Student>, d: nat, t: int, j: nat): (h: Option<nat>)
    requires j <= |xs|
    decreases |xs| - j
    ensures h.Some? ==> j <= h.value < |xs| && h.value != d && xs[h.value].slot == Some(t)
    ensures h.Some? ==> forall k :: j <= k < h.value && k != d ==> xs[k].slot != Some(t)
    ensures h.None? ==> forall k :: j <= k < |xs| && k != d ==> xs[k].slot != Some(t)
  {
    if j == |xs| then None
    else if j != d && xs[j].slot == Some(t) then Some(j)
    else HolderFrom(xs, d, t, j + 1)
  }

  /** Whether a drop at squared distance `best` from the `nearest` slot is
      taken: within the snap radius and onto a slot. */
  predicate Accepted(nearest: Option<nat>, best: real, snap: int, n: nat) {
    !(best > (snap * snap) as real) && nearest.Some? && nearest.value < n
  }

  /** The students after dropping student `d` at the `nearest` slot. */
  function Drop(xs: seq<Student>, d: nat, nearest: Option<nat>, best: real, snap: int, n: nat): (r: seq<Student>)
    requires d < |xs|
    ensures |r| == |xs|
  {
    if !Accepted(nearest, best, snap, n) then xs
    else
      var t := nearest.value;
      match HolderFrom(xs, d, t, 0)
      case None => xs[d := xs[d].(slot := Some(t))]
      case Some(h) => xs[d := xs[d].(slot := xs[h].slot)][h := xs[h].(slot := xs[d].slot)]
  }

  /** `on_drag_end` for student `d` released at `(px, py)`. */
  function DropAt(xs: seq<Student>, d: nat, slots: seq<Geometry.Slot>, px: real, py: real, snap: int): (r: seq<Student>)
    requires d < |xs|
    ensures |r| == |xs|
    ensures forall k :: 0 <= k < |xs| ==> r[k] == xs[k].(slot := r[k].slot)
    ensures Injective(xs, |slots|) ==> Injective(r, |slots|)
  {
    var near := NearestUpTo(slots, px, py, |slots|);
    DropSpec(xs, d, near.0, near.1, snap, |slots|);
    if Injective(xs, |slots|) then
      DropInjective(xs, d, near.0, near.1, snap, |slots|);
      Drop(xs, d, near.0, near.1, snap, |slots|)
    else Drop(xs, d, near.0, near.1, snap, |slots|)
  }

  /** The target is the first slot closest to the drop point. */
  lemma NearestIsFirstClosest(slots: seq<Geometry.Slot>, px: real, py: real)
    requires slots != [] && Dist2(slots[0], px, py) < Far
    ensures NearestUpTo(slots, px, py, |slots|).0.Some?
    ensures var j := NearestUpTo(slots, px, py, |slots|).0.value;
            j < |slots| &&
            (forall i :: 0 <= i < |slots| ==> Dist2(slots[j], px, py) <= Dist2(slots[i], px, py)) &&
            (forall i :: 0 <= i < j ==> Dist2(slots[j], px, py) < Dist2(slots[i], px, py))
  {
  }

  /** A drop outside the snap radius, or with no slots at all, changes nothing. */
  lemma DropRejected(xs: seq<Student>, d: nat, slots: seq<Geometry.Slot>, px: real, py: real, snap: int)
    requires d < |xs|
    requires slots == [] ||
      forall i :: 0 <= i < |slots| ==> Dist2(slots[i], px, py) > (snap * snap) as real
    ensures DropAt(xs, d, slots, px, py, snap) == xs
  {
    var near := NearestUpTo(slots, px, py, |slots|);
    if near.0.Some? {
      assert Dist2(slots[near.0.value], px, py) > (snap * snap) as real;
    }
  }

  /** An accepted drop puts the dragged student on the target; the first
      other student there gets the dragged student's old slot; no one else
      changes, not even a later student sharing the target, and names and
      font sizes stay. */
  lemma DropSpec(xs: seq<Student>, d: nat, nearest: Option<nat>, best: real, snap: int, n: nat)
    requires d < |xs|
    ensures var r := Drop(xs, d, nearest, best, snap, n);
            forall k :: 0 <= k < |xs| ==> r[k] == xs[k].(slot := r[k].slot)
    ensures !Accepted(nearest, best, snap, n) ==> Drop(xs, d, nearest, best, snap, n) == xs
    ensures Accepted(nearest, best, snap, n) ==>
      var r := Drop(xs, d, nearest, best, snap, n);
      var t := nearest.value;
      var other := HolderFrom(xs, d, t, 0);
      r[d].slot == Some(t) &&
      (other.Some? ==> r[other.value].slot == xs[d].slot) &&
      (forall k :: 0 <= k < |xs| && k != d && Some(k) != other ==> r[k] == xs[k])
  {
  }

  /** A drop never makes two placed students share a slot. */
  lemma DropInjective(xs: seq<Student>, d: nat, nearest: Option<nat>, best: real, snap: int, n: nat)
    requires d < |xs| && Injective(xs, n)
    ensures Injective(Drop(xs, d, nearest, best, snap, n), n)
  {
    var r := Drop(xs, d, nearest, best, snap, n);
    if Accepted(nearest, best, snap, n) {
      var t := nearest.value;
      forall i, j | 0 <= i < j < |r| && Placed(r[i], n) && Placed(r[j], n)
        ensures r[i].slot != r[j].slot
      {
        match HolderFrom(xs, d, t, 0)
        case None =>
        case Some(h) =>
          assert Placed(xs[h], n);
      }
    }
  }

  /** Dropping a student onto the slot it already holds changes nothing:
      either nobody else is there, or the swap exchanges two equal slots. */
  lemma DropOnOwnSlot(xs: seq<Student>, d: nat, nearest: Option<nat>, best: real, snap: int, n: nat)
    requires d < |xs|
    requires nearest.Some? && xs[d].slot == Some(nearest.value as int)
    ensures Drop(xs, d, nearest, best, snap, n) == xs
  {
    if Accepted(nearest, best, snap, n) {
      var t := nearest.value;
      match HolderFrom(xs, d, t, 0)
      case None =>
        assert xs[d := xs[d].(slot := Some(t))] == xs;
      case Some(h) =>
        assert xs[d := xs[d].(slot := xs[h].slot)][h := xs[h].(slot := xs[d].slot)] == xs;
    }
  }
}
