/**
 * The seat geometry of `compute_geometry_and_draw_static`: the seat size
 * chosen for a page, and the bank rectangles and seat slots emitted row by
 * row, bank by bank, seat by seat. One emission, driven by a `Metrics`
 * record, serves both the export geometry (page units) and the zoomed
 * display geometry (screen units).
 */
module Geometry {
  import opened Layout

  const SeatMin := 60
  const SeatMax := 130
  const CaptionGap := 8
  const InnerPadX := 8
  const InnerPadTop := 8
  const InnerPadBottom := 12
  const SeatSpacing := 8
  const RowSpacing := 28
  const BankSpacing := 24
  const PageMarginLR := 28
  const PageMarginTop := 56
  const PageMarginBottom := 24
  /** The caption height the layout reserves under every seat. */
  const FontEst := 14
  const TitleY := 24

  /** A bank rectangle `(x0, y0, x1, y1)`. */
  datatype Rect = Rect(x0: int, y0: int, x1: int, y1: int)

  /** A seat slot: its box and its centre. */
  datatype Slot = Slot(x: int, y: int, w: int, h: int, cx: real, cy: real)

  /** What tells the export geometry and the display geometry apart: the seat
      side, the gaps between seats, banks and rows, where the first row
      starts, the side margin and the page width. */
  datatype Metrics = Metrics(seat: int, seatGap: int, bankGap: int, rowGap: int,
                             top: real, margin: real, width: real)

  /** Python's `int()` of a float: the integer next to `x` on the side of zero. */
  function Trunc(x: real): (r: int)
    ensures 0.0 <= x ==> 0 <= r && r as real <= x < r as real + 1.0
    ensures x < 0.0 ==> r <= 0 && r as real - 1.0 < x <= r as real
  {
    if x >= 0.0 then x.Floor else -((-x).Floor)
  }

  // ------------------------------------------------------------ seat size

  /** The most seats in any bank, or 0 (`max_seats_in_widest_row`). */
  function MaxSeats(t: seq<seq<int>>): (m: int)
    ensures m >= 0
    ensures forall r, b :: 0 <= r < |t| && 0 <= b < |t[r]| ==> t[r][b] <= m
    ensures m == 0 || exists r, b :: 0 <= r < |t| && 0 <= b < |t[r]| && t[r][b] == m
  {
    if t == [] then 0
    else
      var prev := MaxSeats(t[..|t| - 1]);
      var row := t[|t| - 1];
      var here := if row == [] then 0 else MaxOf(row);
      assert forall r :: 0 <= r < |t| - 1 ==> t[..|t| - 1][r] == t[r];
      if prev >= here then prev else here
  }

  /** The source's loop over the rows for `max_seats_in_widest_row`. */
  method WidestBank(t: seq<seq<int>>) returns (m: int)
    ensures m == MaxSeats(t)
  {
    m := 0;
    var r := 0;
    while r < |t|
      invariant 0 <= r <= |t|
      invariant m == MaxSeats(t[..r])
    {
      assert t[..r + 1][..r] == t[..r];
      var seatsList := t[r];
      var here := if seatsList == [] then 0 else MaxOf(seatsList);
      m := if m >= here then m else here;
      r := r + 1;
    }
    assert t[..r] == t;
  }

  /** `seats_per_bank_for_width`. */
  function SeatsForWidth(cfg: LayoutConfig): int {
    if cfg.Regular? then cfg.seats
    else var m := MaxSeats(Topology(cfg)); if m == 0 then 1 else m
  }

  /** `seat_by_w`: the seat side that makes the widest row fill the page width. */
  function SeatByWidth(cfg: LayoutConfig, w: real): (r: real)
    requires GeometryDefined(cfg)
    ensures var mb, spb := MaxBanks(cfg), SeatsForWidth(cfg);
            spb >= 1 ==>
              mb as real * ((2 * InnerPadX) as real + spb as real * r + ((spb - 1) * SeatSpacing) as real)
              + ((mb - 1) * BankSpacing) as real == w - (PageMarginLR * 2) as real
  {
    WidthShare(MaxBanks(cfg), SeatsForWidth(cfg), w)
  }

  /** The seat side for `mb` banks of `spb` seats across a `w` wide page. */
  function WidthShare(mb: int, spb: int, w: real): (r: real)
    requires mb != 0
    ensures spb >= 1 ==>
      mb as real * ((2 * InnerPadX) as real + spb as real * r + ((spb - 1) * SeatSpacing) as real)
      + ((mb - 1) * BankSpacing) as real == w - (PageMarginLR * 2) as real
  {
    var availW := w - (PageMarginLR * 2) as real - ((mb - 1) * BankSpacing) as real;
    var fixed := (2 * InnerPadX) as real + ((spb - 1) * SeatSpacing) as real;
    if spb >= 1 then FillShare(mb, spb, availW, fixed); (availW / mb as real - fixed) / spb as real
    else (availW / mb as real - fixed) / 1 as real
  }

  /** Dividing `avail` into `mb` shares and a share, less `fixed`, into
      `spb` seats is undone by multiplying back. */
  lemma FillShare(mb: int, spb: int, avail: real, fixed: real)
    requires mb != 0 && spb >= 1
    ensures mb as real * (fixed + spb as real * ((avail / mb as real - fixed) / spb as real)) == avail
  {
    var share := avail / mb as real;
    assert mb as real * share == avail;
    assert spb as real * ((share - fixed) / spb as real) == share - fixed;
  }

  /** `seat_by_h`: the seat side that makes the rows fill the page height. */
  function SeatByHeight(cfg: LayoutConfig, h: real): (r: real)
    requires GeometryDefined(cfg)
    ensures var rows := |Topology(cfg)|;
            rows as real * (r + (InnerPadTop + CaptionGap + FontEst + InnerPadBottom) as real)
            + ((rows - 1) * RowSpacing) as real == h - PageMarginTop as real - PageMarginBottom as real
  {
    GeometryDefinedRows(cfg);
    var rows := |Topology(cfg)|;
    var availH := h - PageMarginTop as real - PageMarginBottom as real - ((rows - 1) * RowSpacing) as real;
    var share := availH / rows as real;
    assert rows as real * share == availH;
    share - (InnerPadTop + CaptionGap + FontEst + InnerPadBottom) as real
  }

  /** `int(max(SEAT_MIN, min(SEAT_MAX, seat_by_w, seat_by_h)))`, the seat size
      of the export geometry. */
  function SeatSize(cfg: LayoutConfig, w: real, h: real): (s: int)
    requires GeometryDefined(cfg)
    ensures SeatMin <= s <= SeatMax
  {
    var a := SeatByWidth(cfg, w);
    var b := SeatByHeight(cfg, h);
    var lo := if a <= b then a else b;
    var capped := if SeatMax as real <= lo then SeatMax as real else lo;
    Trunc(if capped < SeatMin as real then SeatMin as real else capped)
  }

  /** The seat size lies in `[SEAT_MIN, SEAT_MAX]`; above the minimum it
      respects both the width and the height budget, and below the maximum it
      is the largest whole size that does. */
  lemma SeatSizeBounds(cfg: LayoutConfig, w: real, h: real)
    requires GeometryDefined(cfg)
    ensures SeatMin <= SeatSize(cfg, w, h) <= SeatMax
    ensures SeatSize(cfg, w, h) > SeatMin ==>
      SeatSize(cfg, w, h) as real <= SeatByWidth(cfg, w) && SeatSize(cfg, w, h) as real <= SeatByHeight(cfg, h)
    ensures SeatSize(cfg, w, h) < SeatMax ==>
      SeatByWidth(cfg, w) < (SeatSize(cfg, w, h) + 1) as real || SeatByHeight(cfg, h) < (SeatSize(cfg, w, h) + 1) as real
  {
  }

  // ----------------------------------------------------- the two metrics

  /** `bank_w_base` / `bank_w_disp`: pads, seats and the (unscaled) seat spacing. */
  function BankWidth(n: int, seat: int): int {
    2 * InnerPadX + n * seat + (n - 1) * SeatSpacing
  }

  /** `bank_h_base` / `bank_h_disp`. */
  function BankHeight(seat: int): int {
    InnerPadTop + seat + CaptionGap + FontEst + InnerPadBottom
  }

  /** The height of all rows with the gaps between them. */
  function BlockHeight(rows: int, seat: int, rowGap: int): int {
    rows * BankHeight(seat) + (rows - 1) * rowGap
  }

  /** `y_base`: the block of rows centred vertically below the top margin,
      never above the title. */
  function BaseTop(rows: int, seat: int, h: real): (y: int)
    ensures y >= PageMarginTop
  {
    var room := h - (PageMarginTop + PageMarginBottom) as real - BlockHeight(rows, seat, RowSpacing) as real;
    var half := (room / 2.0).Floor;
    var y := PageMarginTop + (if half > 0 then half else 0);
    if y < TitleY + 10 then TitleY + 16 else y
  }

  /** The export geometry for a configuration on a `w` by `h` page. */
  function BaseMetrics(cfg: LayoutConfig, w: real, h: real): (m: Metrics)
    requires GeometryDefined(cfg)
    ensures SeatMin <= m.seat <= SeatMax
    ensures m.seatGap == SeatSpacing && m.bankGap == BankSpacing && m.rowGap == RowSpacing
    ensures m.top >= PageMarginTop as real && m.margin == PageMarginLR as real && m.width == w
  {
    var s := SeatSize(cfg, w, h);
    Metrics(s, SeatSpacing, BankSpacing, RowSpacing,
            BaseTop(|Topology(cfg)|, s, h) as real, PageMarginLR as real, w)
  }

  /** `vs = max(4, int(seat * zoom))`: the scaled seat, cut toward zero,
      but never below 4. */
  function DisplaySeat(s: int, z: real): (vs: int)
    requires s >= 0
    ensures vs >= 4
    ensures 0.0 <= z && vs > 4 ==> vs as real <= s as real * z < (vs + 1) as real
  {
    var x := s as real * z;
    assert 0.0 <= z ==> 0.0 <= x by {
      if 0.0 <= z { MulNonNeg(s as real, z); }
    }
    var t := Trunc(x);
    if t < 4 then 4 else t
  }

  /** `int(SPACING * zoom)` for a non-negative spacing. */
  function ScaledGap(g: int, z: real): (r: int)
    requires g >= 0
    ensures 0.0 <= z ==> 0 <= r
  {
    var x := g as real * z;
    assert 0.0 <= z ==> 0.0 <= x by {
      if 0.0 <= z { MulNonNeg(g as real, z); }
    }
    Trunc(x)
  }

  lemma MulNonNeg(a: real, b: real)
    requires 0.0 <= a && 0.0 <= b
    ensures 0.0 <= a * b
  {
  }

  /** The display geometry at zoom `z`: `vs`, the three `int(SPACING*zoom)`
      gaps and `y_disp`, written as in the source. */
  function DisplayMetrics(cfg: LayoutConfig, w: real, h: real, z: real): (m: Metrics)
    requires GeometryDefined(cfg)
    ensures m.seat >= 4 && m.seat == DisplaySeat(SeatSize(cfg, w, h), z)
    ensures 0.0 <= z ==> 0 <= m.seatGap && 0 <= m.bankGap && 0 <= m.rowGap
    ensures m.margin == PageMarginLR as real * z && m.width == w * z
  {
    var s := SeatSize(cfg, w, h);
    var vs := DisplaySeat(s, z);
    var seatGap := ScaledGap(SeatSpacing, z);
    var bankGap := ScaledGap(BankSpacing, z);
    var rowGap := ScaledGap(RowSpacing, z);
    Metrics(vs, seatGap, bankGap, rowGap, DisplayTop(|Topology(cfg)|, vs, rowGap, h, z),
            PageMarginLR as real * z, w * z)
  }

  /** `y_disp`: the scaled block of rows centred below the scaled top margin,
      never above the scaled title. */
  function DisplayTop(rows: int, vs: int, rowGap: int, h: real, z: real): (y: real)
    ensures y >= PageMarginTop as real * z && y >= TitleY as real * z + 10.0
  {
    var room := h * z - (PageMarginTop as real * z + PageMarginBottom as real * z)
                - BlockHeight(rows, vs, rowGap) as real;
    var half := (room / 2.0).Floor;
    var y := PageMarginTop as real * z + (if half > 0 then half else 0) as real;
    if y < TitleY as real * z + 10.0 then TitleY as real * z + 16.0 else y
  }

  /** At zoom 1 the display geometry is the export geometry. */
  lemma DisplayAtZoomOne(cfg: LayoutConfig, w: real, h: real)
    requires GeometryDefined(cfg)
    ensures DisplayMetrics(cfg, w, h, 1.0) == BaseMetrics(cfg, w, h)
  {
    SeatSizeBounds(cfg, w, h);
  }

  // -------------------------------------------- closed-form positions

  /** The widths of the first `b` banks of a row. */
  function WidthsBefore(row: seq<int>, seat: int, b: nat): int
    requires b <= |row|
  {
    if b == 0 then 0 else WidthsBefore(row, seat, b - 1) + BankWidth(row[b - 1], seat)
  }

  /** `row_total_w`. */
  function RowWidth(row: seq<int>, m: Metrics): int {
    WidthsBefore(row, m.seat, |row|) + (|row| - 1) * m.bankGap
  }

  /** `x_base` / `x_disp` at the start of a row: the row centred between the margins. */
  function RowLeft(row: seq<int>, m: Metrics): int {
    Trunc(m.margin + ((m.width - 2.0 * m.margin - RowWidth(row, m) as real) / 2.0).Floor as real)
  }

  /** The left edge of bank `b` of a row. */
  function BankLeft(row: seq<int>, m: Metrics, b: nat): int
    requires b <= |row|
  {
    RowLeft(row, m) + WidthsBefore(row, m.seat, b) + b * m.bankGap
  }

  /** The top edge of row `r`: `y_base` / `int(y_disp)` after `r` rows. */
  function RowTop(m: Metrics, r: nat): int {
    Trunc(m.top + (r * (BankHeight(m.seat) + m.rowGap)) as real)
  }

  function BankRect(row: seq<int>, m: Metrics, r: nat, b: nat): Rect
    requires b < |row|
  {
    var x0 := BankLeft(row, m, b);
    var y0 := RowTop(m, r);
    Rect(x0, y0, x0 + BankWidth(row[b], m.seat), y0 + BankHeight(m.seat))
  }

  function SeatSlot(row: seq<int>, m: Metrics, r: nat, b: nat, s: nat): Slot
    requires b < |row|
  {
    var x := BankLeft(row, m, b) + InnerPadX + s * (m.seat + m.seatGap);
    var y := RowTop(m, r) + InnerPadTop;
    Slot(x, y, m.seat, m.seat, x as real + m.seat as real / 2.0, y as real + m.seat as real / 2.0)
  }

  // --------------------------------------------- the emitted sequences

  /** The first `k` seats of bank `b` of row `r`. */
  function BankSlots(row: seq<int>, m: Metrics, r: nat, b: nat, k: nat): (q: seq<Slot>)
    requires b < |row|
    ensures |q| == k
    ensures forall s :: 0 <= s < k ==> q[s] == SeatSlot(row, m, r, b, s)
  {
    if k == 0 then [] else BankSlots(row, m, r, b, k - 1) + [SeatSlot(row, m, r, b, k - 1)]
  }

  /** The seats of the first `k` banks of row `r`, bank after bank. */
  function RowSlots(row: seq<int>, m: Metrics, r: nat, k: nat): (q: seq<Slot>)
    requires k <= |row|
    ensures |q| == RowSeats(row[..k])
    ensures forall i :: 0 <= i < |q| ==> q[i].w == m.seat && q[i].h == m.seat
  {
    if k == 0 then []
    else
      assert row[..k][..k - 1] == row[..k - 1];
      RowSlots(row, m, r, k - 1) + BankSlots(row, m, r, k - 1, Max0(row[k - 1]))
  }

  /** The banks of the first `k` banks of row `r`. */
  function RowRects(row: seq<int>, m: Metrics, r: nat, k: nat): (q: seq<Rect>)
    requires k <= |row|
    ensures |q| == k
    ensures forall b :: 0 <= b < k ==> q[b] == BankRect(row, m, r, b)
  {
    if k == 0 then [] else RowRects(row, m, r, k - 1) + [BankRect(row, m, r, k - 1)]
  }

  /** The slots of the first `k` rows. */
  function SlotsUpTo(t: seq<seq<int>>, m: Metrics, k: nat): (q: seq<Slot>)
    requires k <= |t|
    ensures |q| == SeatTotal(t[..k])
    ensures forall i :: 0 <= i < |q| ==> q[i].w == m.seat && q[i].h == m.seat
  {
    if k == 0 then []
    else
      assert t[..k][..k - 1] == t[..k - 1];
      assert t[..k][k - 1] == t[k - 1];
      assert t[k - 1][..|t[k - 1]|] == t[k - 1];
      SlotsUpTo(t, m, k - 1) + RowSlots(t[k - 1], m, k - 1, |t[k - 1]|)
  }

  /** The bank rectangles of the first `k` rows. */
  function RectsUpTo(t: seq<seq<int>>, m: Metrics, k: nat): (q: seq<Rect>)
    requires k <= |t|
    ensures |q| == BankTotal(t[..k])
  {
    if k == 0 then []
    else
      assert t[..k][..k - 1] == t[..k - 1];
      RectsUpTo(t, m, k - 1) + RowRects(t[k - 1], m, k - 1, |t[k - 1]|)
  }

  /** All seat slots, in row-, then bank-, then seat-major order: one per
      seat, each a `seat` by `seat` square. */
  function LayoutSlots(t: seq<seq<int>>, m: Metrics): (q: seq<Slot>)
    ensures |q| == SeatTotal(t)
    ensures forall i :: 0 <= i < |q| ==> q[i].w == m.seat && q[i].h == m.seat
  {
    assert t[..|t|] == t;
    SlotsUpTo(t, m, |t|)
  }

  /** All bank rectangles, row by row: one per bank. */
  function LayoutRects(t: seq<seq<int>>, m: Metrics): (q: seq<Rect>)
    ensures |q| == BankTotal(t)
  {
    assert t[..|t|] == t;
    RectsUpTo(t, m, |t|)
  }

  /** The export slots and the display slots are as many as the seats of
      the layout, and both are squares of their seat size, which the display
      never lets fall below 4. */
  lemma BaseAndDisplaySlots(cfg: LayoutConfig, w: real, h: real, z: real)
    requires GeometryDefined(cfg)
    ensures var t := Topology(cfg);
            var b := LayoutSlots(t, BaseMetrics(cfg, w, h));
            var d := LayoutSlots(t, DisplayMetrics(cfg, w, h, z));
            |b| == |d| == SeatTotal(t) &&
            |LayoutRects(t, BaseMetrics(cfg, w, h))| == |LayoutRects(t, DisplayMetrics(cfg, w, h, z))| == BankTotal(t) &&
            (forall i :: 0 <= i < |b| ==> SeatMin <= b[i].w == b[i].h <= SeatMax) &&
            (forall i :: 0 <= i < |d| ==> 4 <= d[i].w == d[i].h)
  {
    var t := Topology(cfg);
    SeatSizeBounds(cfg, w, h);
  }

  // ------------------------------------------------- where a slot sits

  lemma {:induction false} SlotsUpToPrefix(t: seq<seq<int>>, m: Metrics, j: nat, k: nat)
    requires j <= k <= |t|
    ensures SlotsUpTo(t, m, j) <= SlotsUpTo(t, m, k)
  {
    if j < k {
      SlotsUpToPrefix(t, m, j, k - 1);
    }
  }

  lemma {:induction false} RectsUpToPrefix(t: seq<seq<int>>, m: Metrics, j: nat, k: nat)
    requires j <= k <= |t|
    ensures RectsUpTo(t, m, j) <= RectsUpTo(t, m, k)
  {
    if j < k {
      RectsUpToPrefix(t, m, j, k - 1);
    }
  }

  lemma {:induction false} RowSlotsPrefix(row: seq<int>, m: Metrics, r: nat, j: nat, k: nat)
    requires j <= k <= |row|
    ensures RowSlots(row, m, r, j) <= RowSlots(row, m, r, k)
  {
    if j < k {
      RowSlotsPrefix(row, m, r, j, k - 1);
    }
  }

  /** Seat `s` of bank `b` of row `r` is the slot after all seats of the
      rows before it and of the banks before it in its row: the index the
      assignment engine stores for a student. */
  lemma SlotAt(t: seq<seq<int>>, m: Metrics, r: nat, b: nat, s: nat)
    requires r < |t| && b < |t[r]| && s < t[r][b]
    ensures SeatTotal(t[..r]) + RowSeats(t[r][..b]) + s < |LayoutSlots(t, m)|
    ensures LayoutSlots(t, m)[SeatTotal(t[..r]) + RowSeats(t[r][..b]) + s] == SeatSlot(t[r], m, r, b, s)
  {
    var row := t[r];
    SlotInRow(row, m, r, b, s);
    SlotsUpToPrefix(t, m, r + 1, |t|);
    IndexAcross(SlotsUpTo(t, m, r), RowSlots(row, m, r, |row|), LayoutSlots(t, m), RowSeats(row[..b]) + s);
  }

  /** Element `i` of the second part of a prefix `x + y` of `z`. */
  lemma IndexAcross<T>(x: seq<T>, y: seq<T>, z: seq<T>, i: nat)
    requires x + y <= z && i < |y|
    ensures |x| + i < |z| && z[|x| + i] == y[i]
  {
    assert (x + y)[|x| + i] == y[i];
  }

  /** Within a row, seat `s` of bank `b` follows the seats of the banks before it. */
  lemma SlotInRow(row: seq<int>, m: Metrics, r: nat, b: nat, s: nat)
    requires b < |row| && s < row[b]
    ensures RowSeats(row[..b]) + s < |RowSlots(row, m, r, |row|)|
    ensures RowSlots(row, m, r, |row|)[RowSeats(row[..b]) + s] == SeatSlot(row, m, r, b, s)
  {
    var head := RowSlots(row, m, r, b);
    var bank := BankSlots(row, m, r, b, Max0(row[b]));
    RowSlotsPrefix(row, m, r, b + 1, |row|);
    assert RowSlots(row, m, r, b + 1) == head + bank;
    assert (head + bank)[|head| + s] == bank[s];
  }

  /** Bank `b` of row `r` is the rectangle after all banks of the rows before it. */
  lemma RectAt(t: seq<seq<int>>, m: Metrics, r: nat, b: nat)
    requires r < |t| && b < |t[r]|
    ensures BankTotal(t[..r]) + b < |LayoutRects(t, m)|
    ensures LayoutRects(t, m)[BankTotal(t[..r]) + b] == BankRect(t[r], m, r, b)
  {
    RectsUpToPrefix(t, m, r + 1, |t|);
    IndexAcross(RectsUpTo(t, m, r), RowRects(t[r], m, r, |t[r]|), LayoutRects(t, m), b);
  }

  // ------------------------------------------------- geometric facts

  /** With gaps no wider than `SEAT_SPACING`, every seat lies inside its bank:
      within the side pads, below the top pad, above the caption. */
  lemma SeatInBank(row: seq<int>, m: Metrics, r: nat, b: nat, s: nat)
    requires b < |row| && s < row[b]
    requires m.seat >= 0 && 0 <= m.seatGap <= SeatSpacing
    ensures var q := SeatSlot(row, m, r, b, s);
            var k := BankRect(row, m, r, b);
            k.x0 + InnerPadX <= q.x && q.x + q.w <= k.x1 - InnerPadX &&
            q.y == k.y0 + InnerPadTop && q.y + q.h + CaptionGap + FontEst + InnerPadBottom == k.y1
  {
    SeatWithinBank(row[b], s, m.seat, m.seatGap);
  }

  /** Seat `s` of a bank of `n` seats ends at least `InnerPadX` before the
      bank's right edge when the seat gap is at most `SeatSpacing`. */
  lemma SeatWithinBank(n: int, s: nat, seat: int, gap: int)
    requires s < n && seat >= 0 && 0 <= gap <= SeatSpacing
    ensures 0 <= s * (seat + gap)
    ensures InnerPadX + s * (seat + gap) + seat <= BankWidth(n, seat) - InnerPadX
  {
    var sg := seat + gap;
    MulMono(0, s, sg);
    MulMono(s, n - 1, sg);
    assert (n - 1) * sg == (n - 1) * seat + (n - 1) * gap;
    MulMono(gap, SeatSpacing, n - 1);
    assert n * seat == (n - 1) * seat + seat;
  }

  /** At twice the size the gaps between seats double but the bank frames
      do not widen with them: in a bank of three or more seats the last seat
      runs past the frame's right edge. */
  lemma SeatsOverrunBankAtZoomTwo(cfg: LayoutConfig, w: real, h: real, r: nat, b: nat)
    requires GeometryDefined(cfg)
    requires r < |Topology(cfg)| && b < |Topology(cfg)[r]| && Topology(cfg)[r][b] >= 3
    ensures var m := DisplayMetrics(cfg, w, h, 2.0);
            var row := Topology(cfg)[r];
            var q := SeatSlot(row, m, r, b, row[b] - 1);
            q.x + q.w > BankRect(row, m, r, b).x1
  {
    var m := DisplayMetrics(cfg, w, h, 2.0);
    var row := Topology(cfg)[r];
    assert m.seatGap == 2 * SeatSpacing;
    SeatPastBank(row[b], m.seat, m.seatGap);
  }

  /** With doubled gaps the last of three or more seats ends past the frame. */
  lemma SeatPastBank(n: int, seat: int, gap: int)
    requires n >= 3 && gap == 2 * SeatSpacing
    ensures InnerPadX + (n - 1) * (seat + gap) + seat > BankWidth(n, seat)
  {
    assert (n - 1) * (seat + gap) == (n - 1) * seat + (n - 1) * gap;
    assert n * seat == (n - 1) * seat + seat;
  }

  lemma MulMono(a: int, b: int, c: int)
    requires a <= b && 0 <= c
    ensures a * c <= b * c
  {
    assert b * c - a * c == (b - a) * c;
  }

  /** Seats of one bank follow each other left to right on one line. */
  lemma SeatsApart(row: seq<int>, m: Metrics, r: nat, b: nat, s: nat, s': nat)
    requires b < |row| && s < s'
    requires m.seat >= 0 && m.seatGap >= 0
    ensures SeatSlot(row, m, r, b, s).x + SeatSlot(row, m, r, b, s).w + m.seatGap <= SeatSlot(row, m, r, b, s').x
    ensures SeatSlot(row, m, r, b, s).y == SeatSlot(row, m, r, b, s').y
  {
    var sg := m.seat + m.seatGap;
    MulMono(s + 1, s', sg);
  }

  lemma {:induction false} WidthsBeforeMono(row: seq<int>, seat: int, j: nat, k: nat)
    requires j <= k <= |row|
    requires seat >= 0 && forall i :: 0 <= i < |row| ==> row[i] >= 0
    ensures WidthsBefore(row, seat, j) <= WidthsBefore(row, seat, k)
  {
    if j < k {
      WidthsBeforeMono(row, seat, j, k - 1);
      assert row[k - 1] * seat >= 0;
    }
  }

  /** Banks of one row follow each other left to right, at least the bank
      gap apart, all at the row's height. */
  lemma BanksApart(row: seq<int>, m: Metrics, r: nat, b: nat, b': nat)
    requires b < b' < |row|
    requires m.seat >= 0 && m.bankGap >= 0 && forall i :: 0 <= i < |row| ==> row[i] >= 0
    ensures BankRect(row, m, r, b).x1 + m.bankGap <= BankRect(row, m, r, b').x0
    ensures BankRect(row, m, r, b).y0 == BankRect(row, m, r, b').y0
    ensures BankRect(row, m, r, b).y1 == BankRect(row, m, r, b').y1
  {
    WidthsBeforeMono(row, m.seat, b + 1, b');
    assert b' * m.bankGap >= (b + 1) * m.bankGap;
  }

  /** From a top edge at or below the page top, row `r` starts `r` row
      steps further down. */
  lemma RowTopSteps(m: Metrics, r: nat)
    requires m.top >= 0.0 && BankHeight(m.seat) + m.rowGap >= 0
    ensures RowTop(m, r) == m.top.Floor + r * (BankHeight(m.seat) + m.rowGap)
  {
    var k := r * (BankHeight(m.seat) + m.rowGap);
    assert (m.top + k as real).Floor == m.top.Floor + k;
  }

  /** Rows follow each other top to bottom, at least the row gap apart. */
  lemma RowsApart(m: Metrics, r: nat, r': nat)
    requires r < r'
    requires m.top >= 0.0 && m.seat >= 0 && m.rowGap >= 0
    ensures RowTop(m, r) + BankHeight(m.seat) + m.rowGap <= RowTop(m, r')
  {
    var step := BankHeight(m.seat) + m.rowGap;
    RowTopSteps(m, r);
    RowTopSteps(m, r');
    MulMono(r + 1, r', step);
  }

  /** With a whole-numbered margin a row is centred: the space to its right
      is the space to its left, or up to two units more. */
  lemma RowCentered(row: seq<int>, m: Metrics)
    requires m.margin.Floor as real == m.margin
    ensures var left := RowLeft(row, m) as real - m.margin;
            var right := m.width - m.margin - (RowLeft(row, m) + RowWidth(row, m)) as real;
            left <= right < left + 2.0
  {
    var c := m.margin.Floor;
    var f := ((m.width - 2.0 * m.margin - RowWidth(row, m) as real) / 2.0).Floor;
    assert m.margin + f as real == (c + f) as real;
    assert RowLeft(row, m) == c + f;
  }

  // ---------------------------------------------- the block fits the page

  lemma RealMulDiv(a: real, x: real, n: int)
    requires n >= 1 && a <= x / n as real
    ensures n as real * a <= x
  {
    assert n as real * (x / n as real) == x;
  }

  /** A block of `n` rows whose banks are at most a row budget high sits
      between the margins. */
  lemma BlockBetweenMargins(n: int, s: int, h: real)
    requires n >= 1
    requires BankHeight(s) as real <= (h - (PageMarginTop + PageMarginBottom) as real - ((n - 1) * RowSpacing) as real) / n as real
    ensures BaseTop(n, s, h) >= PageMarginTop
    ensures (BaseTop(n, s, h) + (n - 1) * (BankHeight(s) + RowSpacing) + BankHeight(s)) as real <= h - PageMarginBottom as real
  {
    var bh := BankHeight(s);
    var availH := h - (PageMarginTop + PageMarginBottom) as real - ((n - 1) * RowSpacing) as real;
    RealMulDiv(bh as real, availH, n);
    assert (n * bh) as real == n as real * bh as real;
    var block := BlockHeight(n, s, RowSpacing);
    assert (n - 1) * (bh + RowSpacing) + bh == block;
  }

  /** When the seat size is not held up by `SEAT_MIN`, the rows fit between
      the top and bottom margins. */
  lemma BlockFitsHeight(cfg: LayoutConfig, w: real, h: real)
    requires GeometryDefined(cfg)
    requires SeatSize(cfg, w, h) > SeatMin
    ensures |Topology(cfg)| >= 1
    ensures var m := BaseMetrics(cfg, w, h);
            RowTop(m, 0) >= PageMarginTop &&
            (RowTop(m, |Topology(cfg)| - 1) + BankHeight(m.seat)) as real <= h - PageMarginBottom as real
  {
    GeometryDefinedRows(cfg);
    SeatSizeBounds(cfg, w, h);
    var m := BaseMetrics(cfg, w, h);
    var n := |Topology(cfg)|;
    BlockBetweenMargins(n, m.seat, h);
    RowTopSteps(m, 0);
    RowTopSteps(m, n - 1);
  }

  /** Every bank of a configuration has at most `seats_per_bank_for_width` seats. */
  lemma EntriesWithinSeatsForWidth(cfg: LayoutConfig, r: nat, b: nat)
    requires r < |Topology(cfg)| && b < |Topology(cfg)[r]|
    ensures Topology(cfg)[r][b] <= SeatsForWidth(cfg)
  {
  }

  /** A row of `k` banks of at most `n` seats is at most `k` widths of `n` seats. */
  lemma {:induction false} WidthsBeforeBound(row: seq<int>, seat: int, k: nat, n: int)
    requires k <= |row| && seat >= 0
    requires forall i :: 0 <= i < |row| ==> row[i] <= n
    ensures WidthsBefore(row, seat, k) <= k * BankWidth(n, seat)
  {
    if k > 0 {
      WidthsBeforeBound(row, seat, k - 1, n);
      assert row[k - 1] * (seat + SeatSpacing) <= n * (seat + SeatSpacing);
      assert k * BankWidth(n, seat) == (k - 1) * BankWidth(n, seat) + BankWidth(n, seat);
    }
  }

  /** The widest row's banks of `seats_per_bank_for_width` seats fit the page
      width when the seat size respects the width budget. */
  lemma WidestRowBudget(cfg: LayoutConfig, w: real, s: int)
    requires GeometryDefined(cfg) && MaxBanks(cfg) > 0
    requires 0 <= s && s as real <= SeatByWidth(cfg, w)
    ensures var mb := MaxBanks(cfg);
            (mb * BankWidth(SeatsForWidth(cfg), s) + (mb - 1) * BankSpacing) as real <= w - (2 * PageMarginLR) as real
  {
    var mb, spb := MaxBanks(cfg), SeatsForWidth(cfg);
    assert SeatByWidth(cfg, w) == ((w - (PageMarginLR * 2) as real - ((mb - 1) * BankSpacing) as real) / mb as real
                           - (2 * InnerPadX) as real - ((spb - 1) * SeatSpacing) as real)
                          / (if spb > 1 then spb else 1) as real;
    RowBudget(mb, spb, s, w);
  }

  /** The width arithmetic behind `WidestRowBudget`, over plain numbers. */
  lemma RowBudget(mb: int, spb: int, s: int, w: real)
    requires mb >= 1 && 0 <= s
    requires s as real <= ((w - (PageMarginLR * 2) as real - ((mb - 1) * BankSpacing) as real) / mb as real
                           - (2 * InnerPadX) as real - ((spb - 1) * SeatSpacing) as real)
                          / (if spb > 1 then spb else 1) as real
    ensures (mb * BankWidth(spb, s) + (mb - 1) * BankSpacing) as real <= w - (2 * PageMarginLR) as real
  {
    var availW := w - (PageMarginLR * 2) as real - ((mb - 1) * BankSpacing) as real;
    var bw := BankWidth(spb, s);
    BankWithinShare(spb, s, availW / mb as real);
    RealMulDiv(bw as real, availW, mb);
    assert (mb * bw) as real == mb as real * bw as real;
  }

  /** A seat side within `seat_by_w` makes a bank of `spb` seats no wider than
      its share `x` of the available width. */
  lemma BankWithinShare(spb: int, s: int, x: real)
    requires 0 <= s
    requires s as real <= (x - (2 * InnerPadX) as real - ((spb - 1) * SeatSpacing) as real) / (if spb > 1 then spb else 1) as real
    ensures BankWidth(spb, s) as real <= x
  {
    var d := x - (2 * InnerPadX) as real - ((spb - 1) * SeatSpacing) as real;
    if spb > 1 {
      RealMulDiv(s as real, d, spb);
      assert (spb * s) as real == spb as real * s as real;
    } else {
      MulMono(spb, 1, s);
    }
  }
  /** A row of at most `mb` banks of at most `n` seats is no wider than `mb`
      banks of `n` seats. */
  lemma RowWithinWidest(row: seq<int>, m: Metrics, n: int, mb: int)
    requires m.seat >= 0 && m.bankGap >= 0 && |row| <= mb
    requires forall i :: 0 <= i < |row| ==> row[i] <= n
    requires n >= 1 || |row| == mb
    ensures RowWidth(row, m) <= mb * BankWidth(n, m.seat) + (mb - 1) * m.bankGap
  {
    var k := |row|;
    var bw := BankWidth(n, m.seat);
    WidthsBeforeBound(row, m.seat, k, n);
    if k < mb {
      assert n * m.seat >= 0;
      MulMono(k, mb, bw + m.bankGap);
    }
  }

  /** A row no wider than the space between the margins starts after the
      left margin and ends before the right one. */
  lemma RowBetweenMargins(row: seq<int>, m: Metrics)
    requires m.margin == PageMarginLR as real
    requires RowWidth(row, m) as real <= m.width - (2 * PageMarginLR) as real
    ensures PageMarginLR <= RowLeft(row, m)
    ensures (RowLeft(row, m) + RowWidth(row, m)) as real <= m.width - PageMarginLR as real
  {
    var f := ((m.width - 2.0 * m.margin - RowWidth(row, m) as real) / 2.0).Floor;
    assert m.margin + f as real == (PageMarginLR + f) as real;
    assert RowLeft(row, m) == PageMarginLR + f;
  }

  /** When the seat size is not held up by `SEAT_MIN`, every row fits
      between the left and right margins. */
  lemma RowFitsWidth(cfg: LayoutConfig, w: real, h: real, r: nat)
    requires GeometryDefined(cfg) && MaxBanks(cfg) > 0
    requires SeatSize(cfg, w, h) > SeatMin
    requires r < |Topology(cfg)|
    ensures var m := BaseMetrics(cfg, w, h);
            var row := Topology(cfg)[r];
            PageMarginLR <= RowLeft(row, m) &&
            (RowLeft(row, m) + RowWidth(row, m)) as real <= w - PageMarginLR as real
  {
    SeatSizeBounds(cfg, w, h);
    var m := BaseMetrics(cfg, w, h);
    var row := Topology(cfg)[r];
    var spb := SeatsForWidth(cfg);
    WidestRowBudget(cfg, w, m.seat);
    forall i | 0 <= i < |row|
      ensures row[i] <= spb
    {
      EntriesWithinSeatsForWidth(cfg, r, i);
    }
    assert |row| <= MaxBanks(cfg);
    RowWithinWidest(row, m, spb, MaxBanks(cfg));
    RowBetweenMargins(row, m);
  }

  // ------------------------------------------------------ the loops

  /** The emission loops: for every row, for every bank, append the bank and
      then its seats, advancing `x`, `y` and `sx` as the source does. */
  method LayOut(t: seq<seq<int>>, m: Metrics) returns (rects: seq<Rect>, slots: seq<Slot>)
    ensures rects == LayoutRects(t, m)
    ensures slots == LayoutSlots(t, m)
  {
    rects := [];
    slots := [];
    var step := BankHeight(m.seat) + m.rowGap;
    var y := m.top;
    var r := 0;
    while r < |t|
      invariant 0 <= r <= |t|
      invariant rects == RectsUpTo(t, m, r)
      invariant slots == SlotsUpTo(t, m, r)
      invariant y == m.top + (r * step) as real
    {
      var row := t[r];
      var rowRects, rowSlots := LayOutRow(row, m, r, y);
      assert RectsUpTo(t, m, r + 1) == RectsUpTo(t, m, r) + rowRects;
      assert SlotsUpTo(t, m, r + 1) == SlotsUpTo(t, m, r) + rowSlots;
      rects := rects + rowRects;
      slots := slots + rowSlots;
      assert (r + 1) * step == r * step + step;
      y := y + step as real;
      r := r + 1;
    }
  }

  /** One pass of the row loop: the row's banks from left to right at height `y`. */
  method LayOutRow(row: seq<int>, m: Metrics, r: nat, y: real) returns (rects: seq<Rect>, slots: seq<Slot>)
    requires y == m.top + (r * (BankHeight(m.seat) + m.rowGap)) as real
    ensures rects == RowRects(row, m, r, |row|)
    ensures slots == RowSlots(row, m, r, |row|)
  {
    rects := [];
    slots := [];
    var bankH := BankHeight(m.seat);
    var x := Trunc(m.margin + ((m.width - 2.0 * m.margin - RowWidth(row, m) as real) / 2.0).Floor as real);
    var b := 0;
    while b < |row|
      invariant 0 <= b <= |row|
      invariant rects == RowRects(row, m, r, b)
      invariant slots == RowSlots(row, m, r, b)
      invariant x == BankLeft(row, m, b)
    {
      var bw := BankWidth(row[b], m.seat);
      var y0 := Trunc(y);
      RowStep(row, m, r, b);
      rects := rects + [Rect(x, y0, x + bw, y0 + bankH)];
      var seats := LayOutBank(row, m, r, b, x, y0);
      slots := slots + seats;
      x := x + bw + m.bankGap;
      b := b + 1;
    }
  }

  /** What bank `b` adds to a row's rectangles, slots and left edge. */
  lemma RowStep(row: seq<int>, m: Metrics, r: nat, b: nat)
    requires b < |row|
    ensures RowRects(row, m, r, b + 1) == RowRects(row, m, r, b) + [BankRect(row, m, r, b)]
    ensures RowSlots(row, m, r, b + 1) == RowSlots(row, m, r, b) + BankSlots(row, m, r, b, Max0(row[b]))
    ensures BankLeft(row, m, b + 1) == BankLeft(row, m, b) + BankWidth(row[b], m.seat) + m.bankGap
  {
    assert WidthsBefore(row, m.seat, b + 1) == WidthsBefore(row, m.seat, b) + BankWidth(row[b], m.seat);
    assert (b + 1) * m.bankGap == b * m.bankGap + m.bankGap;
  }

  /** One pass of the bank loop: the bank's seats from left to right. */
  method LayOutBank(row: seq<int>, m: Metrics, r: nat, b: nat, x: int, y0: int) returns (slots: seq<Slot>)
    requires b < |row|
    requires x == BankLeft(row, m, b) && y0 == RowTop(m, r)
    ensures slots == BankSlots(row, m, r, b, Max0(row[b]))
  {
    slots := [];
    var sx := x + InnerPadX;
    var sy := y0 + InnerPadTop;
    var s := 0;
    while s < row[b]
      invariant 0 <= s <= Max0(row[b])
      invariant slots == BankSlots(row, m, r, b, s)
      invariant sx == x + InnerPadX + s * (m.seat + m.seatGap)
    {
      slots := slots + [Slot(sx, sy, m.seat, m.seat, sx as real + m.seat as real / 2.0, sy as real + m.seat as real / 2.0)];
      sx := sx + m.seat + m.seatGap;
      s := s + 1;
    }
  }
}
