/**
 * The mutable state of the seating planner and the operations that change
 * it: choosing a layout (which recomputes both geometries and auto-assigns),
 * zooming, auto-assigning, shuffling, and dragging a student onto a seat.
 */
module Planner {
  import opened Wrappers
  import opened Layout
  import opened Geometry
  import opened Shuffle
  import opened Assignment

  /** `self.drag`: the dragged student, by position, and the grab offset. */
  datatype Drag = Idle | Dragging(student: nat, dx: real, dy: real)

  /** The loop of `auto_assign_students`: students without a slot in range
      take the next free slot from the front of the free list, or `None`. */
  method AssignFree(xs: seq<Student>, n: nat) returns (ys: seq<Student>)
    ensures ys == AutoAssign(xs, n)
  {
    var used := UsedSlots(xs, n);
    var free := FreeSlots(used, n);
    ghost var free0 := free;
    ys := xs;
    var i := 0;
    while i < |ys|
      invariant 0 <= i <= |ys| == |xs|
      invariant forall k :: i <= k < |xs| ==> ys[k] == xs[k]
      invariant forall k :: 0 <= k < i ==> ys[k] == AutoAssign(xs, n)[k]
      invariant Rank(xs, n, i) <= |free0| ==> free == free0[Rank(xs, n, i)..]
      invariant Rank(xs, n, i) > |free0| ==> free == []
    {
      RankStep(xs, n, i);
      var s := ys[i];
      if s.slot.None? || s.slot.value >= n {
        if free != [] {
          ys := ys[i := s.(slot := Some(free[0]))];
          free := free[1..];
        } else {
          ys := ys[i := s.(slot := None)];
        }
      }
      i := i + 1;
    }
  }

  /** `random.shuffle(self.students)`: from the last position down to the
      second, swap with the position the next draw names. */
  method ShuffleInPlace(xs: seq<Student>, draws: seq<nat>) returns (ys: seq<Student>)
    requires DrawsFit(draws, |xs|)
    ensures ys == Shuffled(xs, draws, |draws|)
  {
    ys := xs;
    var i := |ys| - 1;
    while i >= 1
      invariant |ys| == |xs|
      invariant if |xs| == 0 then i == -1 else 0 <= i < |xs|
      invariant ys == Shuffled(xs, draws, |xs| - 1 - i)
    {
      var j := draws[|ys| - 1 - i];
      ys := ys[i := ys[j]][j := ys[i]];
      i := i - 1;
    }
  }

  /** The renumbering loop of `shuffle_students`: student `i` takes slot `i`
      while there are slots, and `None` after. */
  method NumberSlots(xs: seq<Student>, n: nat) returns (ys: seq<Student>)
    ensures ys == WithOrderedSlots(xs, n)
  {
    ys := xs;
    var p := 0;
    while p < |ys|
      invariant 0 <= p <= |ys| == |xs|
      invariant forall k :: p <= k < |xs| ==> ys[k] == xs[k]
      invariant forall k :: 0 <= k < p ==> ys[k] == WithOrderedSlots(xs, n)[k]
    {
      ys := ys[p := ys[p].(slot := if p < n then Some(p) else None)];
      p := p + 1;
    }
  }

  /** The nearest-centre scan of `on_drag_end`: the first slot with the
      smallest squared distance, starting from the bound `1e18`. */
  method NearestSlot(slots: seq<Geometry.Slot>, px: real, py: real) returns (nearest: Option<nat>, best: real)
    ensures (nearest, best) == NearestUpTo(slots, px, py, |slots|)
  {
    nearest, best := None, Far;
    var i := 0;
    while i < |slots|
      invariant 0 <= i <= |slots|
      invariant (nearest, best) == NearestUpTo(slots, px, py, i)
    {
      var dx := px - slots[i].cx;
      var dy := py - slots[i].cy;
      var d2 := dx * dx + dy * dy;
      assert d2 == Dist2(slots[i], px, py);
      if d2 < best {
        best := d2;
        nearest := Some(i);
      }
      i := i + 1;
    }
  }

  /** The search for the student other than `d` sitting on slot `t`. */
  method FindHolder(xs: seq<Student>, d: nat, t: nat) returns (other: Option<nat>)
    ensures other == HolderFrom(xs, d, t, 0)
  {
    other := None;
    var j := 0;
    while j < |xs|
      invariant 0 <= j <= |xs|
      invariant HolderFrom(xs, d, t, 0) == HolderFrom(xs, d, t, j)
    {
      if j != d && xs[j].slot == Some(t) {
        return Some(j);
      }
      j := j + 1;
    }
  }

  /** The body of `on_drag_end` after the release point is known: the nearest
      slot, the snap test, the student on the target, then the move or the
      swap (the right-hand side of the tuple swap is read first). */
  method DropStudent(xs: seq<Student>, d: nat, slots: seq<Geometry.Slot>, px: real, py: real, snap: int)
    returns (ys: seq<Student>)
    requires d < |xs|
    ensures ys == DropAt(xs, d, slots, px, py, snap)
  {
    var nearest, best := NearestSlot(slots, px, py);
    if best > (snap * snap) as real {
      return xs;
    }
    if nearest.None? || nearest.value >= |slots| {
      return xs;
    }
    var target := nearest.value;
    var other := FindHolder(xs, d, target);
    match other
    case None =>
      ys := xs[d := xs[d].(slot := Some(target))];
    case Some(h) =>
      var theirs := xs[h].slot;
      var mine := xs[d].slot;
      ys := xs[d := xs[d].(slot := theirs)][h := xs[h].(slot := mine)];
  }

  /** The seat size and both geometries are the ones layout `cfg` on a `w` by
      `h` page at zoom `z` determines. */
  ghost predicate LaidOut(cfg: LayoutConfig, w: real, h: real, z: real, seat: int,
                          baseRects: seq<Rect>, baseSlots: seq<Slot>, rects: seq<Rect>, slots: seq<Slot>)
    requires GeometryDefined(cfg)
  {
    && seat == SeatSize(cfg, w, h)
    && baseRects == LayoutRects(Topology(cfg), BaseMetrics(cfg, w, h))
    && baseSlots == LayoutSlots(Topology(cfg), BaseMetrics(cfg, w, h))
    && rects == LayoutRects(Topology(cfg), DisplayMetrics(cfg, w, h, z))
    && slots == LayoutSlots(Topology(cfg), DisplayMetrics(cfg, w, h, z))
  }

  /** `compute_geometry_and_draw_static` without the drawing: the seat size,
      the export geometry and the display geometry at zoom `z`. */
  method Geometries(cfg: LayoutConfig, w: real, h: real, z: real)
    returns (seat: int, baseRects: seq<Rect>, baseSlots: seq<Slot>, rects: seq<Rect>, slots: seq<Slot>)
    requires GeometryDefined(cfg)
    ensures LaidOut(cfg, w, h, z, seat, baseRects, baseSlots, rects, slots)
  {
    var t := Topology(cfg);
    seat := SeatSize(cfg, w, h);
    baseRects, baseSlots := LayOut(t, BaseMetrics(cfg, w, h));
    rects, slots := LayOut(t, DisplayMetrics(cfg, w, h, z));
  }

  class Planner {
    var students: seq<Student>
    var layout: LayoutConfig
    var page: (real, real)
    var zoom: real
    var seatSize: int
    var baseRects: seq<Rect>
    var baseSlots: seq<Slot>
    var rects: seq<Rect>
    var slots: seq<Slot>
    var drag: Drag

    /** Both geometries are the ones the layout, the page and the zoom
        determine, and a dragged student exists. */
    ghost predicate Valid()
      reads this
    {
      && GeometryDefined(layout)
      && LaidOut(layout, page.0, page.1, zoom, seatSize, baseRects, baseSlots, rects, slots)
      && (drag.Dragging? ==> drag.student < |students|)
    }

    /** A planner without students at zoom 1 showing layout `cfg`. */
    constructor (cfg: LayoutConfig)
      requires GeometryDefined(cfg)
      ensures Valid()
      ensures students == [] && layout == cfg && zoom == 1.0 && drag == Idle
      ensures page == PageSize(cfg.orientation)
    {
      students := [];
      layout := cfg;
      page := PageSize(cfg.orientation);
      zoom := 1.0;
      drag := Idle;
      new;
      ComputeGeometry();
    }

    /** The geometry part of `compute_geometry_and_draw_static`. */
    method ComputeGeometry()
      requires GeometryDefined(layout)
      requires drag.Dragging? ==> drag.student < |students|
      modifies this
      ensures Valid()
      ensures students == old(students) && layout == old(layout) && page == old(page)
      ensures zoom == old(zoom) && drag == old(drag)
    {
      var cfg, w, h, z := layout, page.0, page.1, zoom;
      var s, br, bs, dr, ds := Geometries(cfg, w, h, z);
      seatSize, baseRects, baseSlots, rects, slots := s, br, bs, dr, ds;
    }

    /** `set_layout`: the page turns with the layout's orientation, both
        geometries are recomputed and the students are auto-assigned. */
    method SetLayout(cfg: LayoutConfig)
      requires GeometryDefined(cfg)
      requires drag.Dragging? ==> drag.student < |students|
      modifies this
      ensures Valid()
      ensures layout == cfg && page == PageSize(cfg.orientation)
      ensures zoom == old(zoom) && drag == old(drag)
      ensures students == AutoAssign(old(students), |slots|)
    {
      layout := cfg;
      page := PageSize(cfg.orientation);
      ComputeGeometry();
      AutoAssignStudents();
    }

    /** `zoom`: the zoom factor is multiplied and held in `[0.5, 2.0]`, and the
        display geometry follows; the export geometry does not change. */
    method Zoom(factor: real)
      requires Valid()
      modifies this
      ensures Valid()
      ensures var z := old(zoom) * factor;
              zoom == if z < 0.5 then 0.5 else if z > 2.0 then 2.0 else z
      ensures 0.5 <= zoom <= 2.0
      ensures students == old(students) && layout == old(layout) && page == old(page) && drag == old(drag)
      ensures seatSize == old(seatSize) && baseRects == old(baseRects) && baseSlots == old(baseSlots)
    {
      ghost var bm := BaseMetrics(layout, page.0, page.1);
      assert seatSize == SeatSize(layout, page.0, page.1);
      assert baseRects == LayoutRects(Topology(layout), bm) && baseSlots == LayoutSlots(Topology(layout), bm);
      var z := zoom * factor;
      zoom := if z < 0.5 then 0.5 else if z > 2.0 then 2.0 else z;
      ComputeGeometry();
      assert baseRects == LayoutRects(Topology(layout), bm) && baseSlots == LayoutSlots(Topology(layout), bm);
    }

    /** `reset_zoom`: back to zoom 1, where the display is the export geometry. */
    method ResetZoom()
      requires Valid()
      modifies this
      ensures Valid() && zoom == 1.0
      ensures rects == baseRects && slots == baseSlots
      ensures students == old(students) && layout == old(layout) && page == old(page) && drag == old(drag)
    {
      zoom := 1.0;
      ComputeGeometry();
      DisplayAtZoomOne(layout, page.0, page.1);
    }

    /** `auto_assign_students`: the loop that pops the free list. */
    method AutoAssignStudents()
      requires Valid()
      modifies this
      ensures Valid()
      ensures students == AutoAssign(old(students), |slots|)
      ensures layout == old(layout) && page == old(page) && zoom == old(zoom) && drag == old(drag)
      ensures slots == old(slots) && baseSlots == old(baseSlots)
    {
      students := AssignFree(students, |slots|);
    }

    /** `shuffle_students` with the draws of `random.shuffle`: the students are
        permuted in place, then numbered onto the slots in list order. */
    method ShuffleStudents(draws: seq<nat>)
      requires Valid() && DrawsFit(draws, |students|)
      modifies this
      ensures Valid()
      ensures students == Assignment.ShuffleStudents(old(students), draws, |slots|)
      ensures layout == old(layout) && page == old(page) && zoom == old(zoom) && drag == old(drag)
      ensures slots == old(slots)
    {
      students := ShuffleInPlace(students, draws);
      students := NumberSlots(students, |slots|);
    }

    /** `on_drag_start` on the photo of student `i`. Only a placed student
        has a photo on the canvas, so a press on an unplaced one, or beside
        every photo, starts nothing. */
    method DragStart(i: nat, dx: real, dy: real)
      requires Valid()
      modifies this
      ensures Valid()
      ensures drag == if i < |students| && Placed(students[i], |slots|) then Dragging(i, dx, dy) else old(drag)
      ensures students == old(students) && layout == old(layout) && page == old(page) && zoom == old(zoom)
      ensures slots == old(slots) && baseSlots == old(baseSlots)
    {
      if i < |students| && Placed(students[i], |slots|) {
        drag := Dragging(i, dx, dy);
      }
    }

    /** `on_drag_end` with the release point `(px, py)` in canvas coordinates:
        the nearest slot centre, the snap test, the search for the student on
        the target, then the move or the swap; the drag always ends. */
    method DragEnd(px: real, py: real)
      requires Valid()
      modifies this
      ensures Valid() && drag == Idle
      ensures old(drag).Idle? ==> students == old(students)
      ensures old(drag).Dragging? ==>
        students == DropAt(old(students), old(drag).student, slots, px, py, Snap(seatSize, zoom))
      ensures layout == old(layout) && page == old(page) && zoom == old(zoom)
      ensures slots == old(slots) && baseSlots == old(baseSlots)
    {
      if drag.Idle? {
        return;
      }
      students := DropStudent(students, drag.student, slots, px, py, Snap(seatSize, zoom));
      drag := Idle;
    }
  }
}
