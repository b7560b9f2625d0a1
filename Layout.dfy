/**
 * Layout configurations and the row -> bank -> seat-count topology they
 * describe, together with the custom-layout dialog that creates them.
 */
module Layout {
  import opened Wrappers
  import Pattern
  import Text

  datatype Orientation = Portrait | Landscape

  /** One entry of the layout registry. `centerFirstRow` is stored by the
      dialog but read nowhere. */
  datatype LayoutConfig =
    | Regular(rows: int, banks: int, seats: int, orientation: Orientation)
    | Irregular(pattern: seq<seq<int>>, orientation: Orientation, centerFirstRow: bool)

  function Max0(n: int): nat {
    if n < 0 then 0 else n
  }

  /** `banks_per_row`: `[banks] * rows` (empty when `rows <= 0`), or the length of every pattern row. */
  function BanksPerRow(cfg: LayoutConfig): (r: seq<int>)
    ensures cfg.Regular? ==> |r| == Max0(cfg.rows) && forall i :: 0 <= i < |r| ==> r[i] == cfg.banks
    ensures cfg.Irregular? ==> |r| == |cfg.pattern| && forall i :: 0 <= i < |r| ==> r[i] == |cfg.pattern[i]|
  {
    match cfg
    case Regular(rows, banks, _, _) => seq(Max0(rows), _ => banks)
    case Irregular(pattern, _, _) => seq(|pattern|, i requires 0 <= i < |pattern| => |pattern[i]|)
  }

  /** The seat count of every bank of every row, as the emission loops visit them. */
  function Topology(cfg: LayoutConfig): (t: seq<seq<int>>)
    ensures |t| == |BanksPerRow(cfg)|
    ensures forall r :: 0 <= r < |t| ==> |t[r]| == Max0(BanksPerRow(cfg)[r])
    ensures cfg.Regular? ==> forall r, b :: 0 <= r < |t| && 0 <= b < |t[r]| ==> t[r][b] == cfg.seats
  {
    match cfg
    case Regular(rows, banks, seats, _) => seq(Max0(rows), _ => seq(Max0(banks), _ => seats))
    case Irregular(pattern, _, _) => pattern
  }

  /** The largest element of a non-empty list. */
  function MaxOf(xs: seq<int>): (m: int)
    requires xs != []
    ensures forall i :: 0 <= i < |xs| ==> xs[i] <= m
    ensures exists i :: 0 <= i < |xs| && xs[i] == m
  {
    if |xs| == 1 then xs[0]
    else
      var m := MaxOf(xs[1..]);
      assert forall i :: 1 <= i < |xs| ==> xs[i] == xs[1..][i - 1];
      if xs[0] >= m then xs[0] else m
  }

  /** `max_banks`: the most banks in any row, or 0 without rows. */
  function MaxBanks(cfg: LayoutConfig): (r: int)
    ensures BanksPerRow(cfg) == [] ==> r == 0
    ensures BanksPerRow(cfg) != [] ==> r in BanksPerRow(cfg)
    ensures forall k :: 0 <= k < |BanksPerRow(cfg)| ==> BanksPerRow(cfg)[k] <= r
  {
    var bpr := BanksPerRow(cfg);
    if bpr == [] then 0 else MaxOf(bpr)
  }

  /** The geometry divides by `max_banks` and by the row count; this is
      exactly the condition under which it does not fail. */
  predicate GeometryDefined(cfg: LayoutConfig) {
    MaxBanks(cfg) != 0
  }

  /** With a defined geometry there is at least one row, and some row has a
      bank count other than zero. */
  lemma GeometryDefinedRows(cfg: LayoutConfig)
    requires GeometryDefined(cfg)
    ensures |Topology(cfg)| >= 1
    ensures cfg.Regular? ==> cfg.rows >= 1 && cfg.banks != 0
    ensures cfg.Irregular? ==> exists r :: 0 <= r < |cfg.pattern| && cfg.pattern[r] != []
  {
    var bpr := BanksPerRow(cfg);
    var i :| 0 <= i < |bpr| && bpr[i] == MaxOf(bpr);
    if cfg.Irregular? {
      assert cfg.pattern[i] != [];
    }
  }

  // ------------------------------------------------------------- counting

  /** The seats of one row: `range(n)` is empty for `n <= 0`. */
  function RowSeats(row: seq<int>): nat {
    if row == [] then 0 else RowSeats(row[..|row| - 1]) + Max0(row[|row| - 1])
  }

  /** The seats of all rows. */
  function SeatTotal(t: seq<seq<int>>): nat {
    if t == [] then 0 else SeatTotal(t[..|t| - 1]) + RowSeats(t[|t| - 1])
  }

  /** The banks of all rows. */
  function BankTotal(t: seq<seq<int>>): nat {
    if t == [] then 0 else BankTotal(t[..|t| - 1]) + |t[|t| - 1]|
  }

  lemma {:induction false} RowSeatsConstant(row: seq<int>, seats: int)
    requires forall b :: 0 <= b < |row| ==> row[b] == seats
    ensures RowSeats(row) == |row| * Max0(seats)
  {
    if row != [] {
      RowSeatsConstant(row[..|row| - 1], seats);
    }
  }

  lemma {:induction false} SeatTotalConstant(t: seq<seq<int>>, banks: nat, seats: int)
    requires forall r :: 0 <= r < |t| ==> |t[r]| == banks && forall b :: 0 <= b < banks ==> t[r][b] == seats
    ensures SeatTotal(t) == |t| * (banks * Max0(seats))
  {
    if t != [] {
      var k := |t| - 1;
      var c := banks * Max0(seats);
      SeatTotalConstant(t[..k], banks, seats);
      RowSeatsConstant(t[k], seats);
      assert SeatTotal(t) == k * c + c;
    }
  }

  /** A regular layout has `rows * banks * seats` seats. */
  lemma RegularSeatTotal(rows: int, banks: int, seats: int, o: Orientation)
    ensures SeatTotal(Topology(Regular(rows, banks, seats, o))) == Max0(rows) * Max0(banks) * Max0(seats)
  {
    var t := Topology(Regular(rows, banks, seats, o));
    SeatTotalConstant(t, Max0(banks), seats);
  }

  /** "Klas 1": 5 rows of 3 banks of 2 seats hold 30 students; the default
      of "Eigen opstelling", 4 rows of 3 banks of 2 seats, holds 24. */
  lemma RegularExample()
    ensures SeatTotal(Topology(Regular(5, 3, 2, Portrait))) == 30
    ensures SeatTotal(Topology(Regular(4, 3, 2, Portrait))) == 24
  {
    RegularSeatTotal(5, 3, 2, Portrait);
    RegularSeatTotal(4, 3, 2, Portrait);
  }

  /** "Fysica T121": 4 banks on top, then three rows of 3 banks of 3 seats: 31 seats. */
  lemma IrregularExample()
    ensures SeatTotal(Topology(Irregular([[4], [3, 3, 3], [3, 3, 3], [3, 3, 3]], Landscape, true))) == 31
  {
    var t: seq<seq<int>> := [[4], [3, 3, 3], [3, 3, 3], [3, 3, 3]];
    assert [3, 3, 3][..2] == [3, 3] && [3, 3][..1] == [3] && |[3][..0]| == 0;
    assert RowSeats([3, 3, 3]) == 9;
    assert |[4][..0]| == 0;
    assert RowSeats([4]) == 4;
    assert t[..1] == [[4]] && |t[..1][..0]| == 0;
    assert SeatTotal(t[..1]) == 4;
    assert t[..2][..1] == t[..1];
    assert SeatTotal(t[..2]) == 13;
    assert t[..3][..2] == t[..2];
    assert SeatTotal(t[..3]) == 22;
    assert t[..4] == t;
  }

  // ------------------------------------------------------------ the page

  /** ReportLab's `A4` in points: 210 mm by 297 mm at 72/25.4 points per mm. */
  const A4Short: real := 75600.0 / 127.0
  const A4Long: real := 106920.0 / 127.0

  /** `portrait(A4)` or `landscape(A4)` as `(W, H)`. */
  function PageSize(o: Orientation): (r: (real, real))
    ensures o == Portrait ==> r.0 < r.1
    ensures o == Landscape ==> r.0 > r.1
    ensures {r.0, r.1} == {A4Short, A4Long}
  {
    if o == Portrait then (A4Short, A4Long) else (A4Long, A4Short)
  }

  // --------------------------------------------- the custom-layout dialog

  datatype DialogInput =
    | RegularInput(rows: int, banks: int, seats: int)
    | PatternInput(text: string)

  datatype DialogError =
    | NonPositive                         // "Negatieve of nul waarden niet toegestaan"
    | BadPattern(error: Pattern.PatternError)

  /** The dialog's OK button as written: the pattern branch stores whatever
      `parse_pattern_text` returns. */
  function CustomLayoutAsWritten(input: DialogInput, o: Orientation): (r: Result<LayoutConfig, DialogError>)
    ensures r.Ok? ==> r.value.orientation == o
    ensures input.RegularInput? ==>
      (r.Ok? <==> input.rows > 0 && input.banks > 0 && input.seats > 0)
  {
    match input
    case RegularInput(rows, banks, seats) =>
      if rows <= 0 || banks <= 0 || seats <= 0 then Err(NonPositive)
      else Ok(Regular(rows, banks, seats, o))
    case PatternInput(text) =>
      match Pattern.ParsePattern(Some(Text.Strip(text)))
      case Err(e) => Err(BadPattern(e))
      case Ok(p) => Ok(Irregular(p, o, true))
  }

  /** A pattern without rows has `max_banks == 0`, so its geometry divides by zero. */
  lemma NoRowsNoGeometry(o: Orientation, center: bool)
    ensures !GeometryDefined(Irregular([], o, center))
  {
    assert BanksPerRow(Irregular([], o, center)) == [];
  }

  /** Text made only of brackets is stored as a layout without rows, whose
      geometry then divides by zero. */
  lemma AsWrittenDialogBreaksGeometry(o: Orientation)
    ensures CustomLayoutAsWritten(PatternInput("[]"), o) == Ok(Irregular([], o, true))
    ensures !GeometryDefined(Irregular([], o, true))
  {
    Pattern.BracketsStrip();
    Pattern.EmptyBracketsAccepted();
    NoRowsNoGeometry(o, true);
  }

  /** The dialog with the corrected parser: an empty pattern is refused. */
  function CustomLayout(input: DialogInput, o: Orientation): (r: Result<LayoutConfig, DialogError>)
    ensures r.Ok? ==> r.value.orientation == o
    ensures input.RegularInput? ==>
      (r.Ok? <==> input.rows > 0 && input.banks > 0 && input.seats > 0)
    ensures r.Ok? ==> GeometryDefined(r.value)
  {
    match input
    case RegularInput(rows, banks, seats) =>
      if rows <= 0 || banks <= 0 || seats <= 0 then Err(NonPositive)
      else
        RegularDefined(rows, banks, seats, o);
        Ok(Regular(rows, banks, seats, o))
    case PatternInput(text) =>
      match Pattern.ParseCustomPattern(Some(Text.Strip(text)))
      case Err(e) => Err(BadPattern(e))
      case Ok(p) =>
        PatternDefined(p, o, true);
        Ok(Irregular(p, o, true))
  }

  /** A regular layout with rows and banks has a defined geometry. */
  lemma RegularDefined(rows: int, banks: int, seats: int, o: Orientation)
    requires rows > 0 && banks > 0
    ensures GeometryDefined(Regular(rows, banks, seats, o))
  {
    var bpr := BanksPerRow(Regular(rows, banks, seats, o));
    assert bpr[0] == banks;
  }

  /** A pattern whose first row has a bank has a defined geometry. */
  lemma PatternDefined(p: seq<seq<int>>, o: Orientation, center: bool)
    requires p != [] && p[0] != []
    ensures GeometryDefined(Irregular(p, o, center))
  {
    var bpr := BanksPerRow(Irregular(p, o, center));
    assert bpr[0] == |p[0]| >= 1;
  }

  /** The corrected dialog accepts exactly what the original accepts, except
      a pattern without rows. */
  lemma CustomLayoutAgrees(input: DialogInput, o: Orientation)
    ensures CustomLayout(input, o).Ok? ==> CustomLayout(input, o) == CustomLayoutAsWritten(input, o)
    ensures CustomLayoutAsWritten(input, o).Ok? && CustomLayout(input, o).Err? ==>
      CustomLayoutAsWritten(input, o) == Ok(Irregular([], o, true))
  {
    match input
    case RegularInput(_, _, _) =>
    case PatternInput(text) =>
      var raw := Some(Text.Strip(text));
      var asWritten := Pattern.ParsePattern(raw);
      var corrected := Pattern.ParseCustomPattern(raw);
      assert CustomLayoutAsWritten(input, o) ==
        if asWritten.Ok? then Ok(Irregular(asWritten.value, o, true)) else Err(BadPattern(asWritten.error));
      assert CustomLayout(input, o) ==
        if corrected.Ok? then Ok(Irregular(corrected.value, o, true)) else Err(BadPattern(corrected.error));
  }
}
