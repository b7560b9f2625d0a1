# Classroom seating planner — verified model of its engine

`zitplaatsen.py` is a Tkinter desktop tool that places student portraits on
the seats of a classroom plan and exports the plan as an A4 PDF. This
project models its engine in Dafny:

- reading a custom layout pattern such as `[4],[3,3,3]` (`parse_pattern_text`)
  and the custom-layout dialog that stores it;
- the row → bank → seat-count topology of a regular or an irregular layout;
- the seat-size clamp and the bank and seat geometry computed twice per
  layout, once on the page for the export and once on the zoomed canvas;
- cutting a class photo sheet into portraits on a fixed 5-column grid, and
  the centred square crop;
- the student state: auto-assignment of free seats, shuffling,
  drag-and-drop (nearest seat, snap radius, move or swap);
- the export projection onto the PDF page, whose y axis points up, and the
  caption font fitting;
- `safe_filename` and the image names of a saved session.

The modules are:

- `Wrappers`: `Option` and `Result`.
- `Text`: the Python string operations the parser needs (`strip`, `replace`,
  `split`, `join`, `isdigit`, `str` of an int).
- `Pattern`: `parse_pattern_text`, plus the bracket text the dialog prefills.
  The source is a loop, so it is modelled by methods proved against the
  functions.
- `FileNames`: `safe_filename`.
- `PhotoGrid`: the grid crop and `crop_square`.
- `Layout`: configurations, topology, page orientation, the dialog.
- `Geometry`: the seat size and the emitted rectangles and slots. One
  emission procedure, parametrised by a `Metrics` record, serves both the
  export geometry and the display geometry. The emission loops are methods
  proved equal to the functions.
- `Shuffle`: Python's `random.shuffle`, with the random draws as input.
- `Assignment`: students, auto-assign, shuffle and drop, as functions on
  the student list.
- `Export`: `export_pdf` as the list of drawing commands, and `fit_font_size`.
- `Planner`: the application object as a class. Its fields are the
  students, the layout, the page, the zoom, the seat size, both geometries
  and the drag state. Its methods change them in place and are proved
  against the `Assignment` and `Geometry` functions.

The class invariant `Planner.Planner.Valid` says:

- both geometries are the ones computed from the layout, the page and the
  zoom;
- a dragged student exists.

Every method keeps it.

Numbers: page sizes, zoom and slot centres are exact reals. Python's
`int()` of a float is `Geometry.Trunc`, which rounds toward zero. `//` on a
float is `Floor`. Slot and bank coordinates are whole-valued, as the source
produces them: in the export geometry `W` and `H` are floats, so `x_base`
and `y_base` are floats with whole values (`//` on a float, lines 507 and
519), and the model holds them as integers.

Two edge cases behave as the code has them:

- A layout without rows or banks has no geometry. `max_banks` is then 0,
  and `seat_by_w` divides by it (`zitplaatsen.py:491-497`). The geometry is
  only defined under `Layout.GeometryDefined`, which is exactly
  `max_banks != 0`.
- The parser accepts the pattern text `[]` and returns a pattern without
  rows (see Findings).

## Model

| member | source | states |
|---|---|---|
| Text.StripLeft | zitplaatsen.py:81 | drops exactly the leading whitespace: the result is a suffix, everything cut off is whitespace, and the result is empty or starts with a non-space |
| Text.StripRight | zitplaatsen.py:81 | drops exactly the trailing whitespace: the result is a prefix, everything cut off is whitespace, and the result is empty or ends with a non-space |
| Text.IsSpace | zitplaatsen.py:81 | `c.isspace()`, the characters `str.strip` removes: no contract of its own; `Text.StripLeft`, `Text.StripRight` and `Text.Strip` state what it removes |
| Text.Replace | zitplaatsen.py:84-86 | `str.replace`: no contract of its own; its meaning is stated by `Text.ReplaceHit`, `Text.ReplaceSkip`, `Text.ReplaceAbsent` and `Text.ReplaceAvoids` |
| Text.ReplaceHit | zitplaatsen.py:84-86 | an occurrence of the pattern at the front is replaced, and the scan goes on after it |
| Text.ReplaceSkip | zitplaatsen.py:84-86 | a stretch holding no first character of the pattern is copied unchanged |
| Text.ReplaceAfterPart | zitplaatsen.py:84-86 | such a stretch followed by the pattern becomes the stretch followed by the replacement |
| Text.ReplaceJoin | zitplaatsen.py:84-86 | pieces joined by the pattern, none holding its first character, come out joined by the replacement |
| Text.ReplaceAbsent | zitplaatsen.py:84-86 | a text missing some character of the pattern is left unchanged |
| Text.ReplaceAvoids | zitplaatsen.py:85-86 | replacing the only pattern a character can occur in, by text without it, removes that character |
| Text.Join | zitplaatsen.py:87 | `sep.join`: no contract of its own; its meaning is stated by `Text.SplitJoin` and `Text.SplitPieces`, which make it the inverse of `Text.Split` |
| Text.Split | zitplaatsen.py:87 | `str.split` with one separator gives at least one piece; `Text.SplitPieces`, `Text.SplitJoin`, `Text.SplitCons` and `Text.SplitNone` state its pieces |
| Text.SplitCons | zitplaatsen.py:87 | text before the first separator is the first piece, and the rest is split on |
| Text.SplitNone | zitplaatsen.py:90 | text without the separator splits into itself alone |
| Text.StrippedNonEmpty | zitplaatsen.py:87 | the filter `[p.strip() for p in ... if p.strip()]` keeps at most as many pieces as it gets; `Text.StrippedNonEmptyKeeps` states which |
| Text.StrippedNonEmptyKeeps | zitplaatsen.py:87 | pieces that are non-empty and have no whitespace all pass the filter unchanged |
| Text.Strip | zitplaatsen.py:81 | the stripped text has no whitespace at either end; it is empty exactly when the input is all whitespace; text already without outer whitespace is unchanged |
| Text.SplitJoin | zitplaatsen.py:87 | splitting the joined pieces at a separator that occurs in none of them gives the pieces back |
| Text.SplitPieces | zitplaatsen.py:90 | no piece of a split holds the separator, and joining the pieces restores the text |
| Text.NatToString | zitplaatsen.py:325 | `str(n)` is a non-empty digit string whose value is `n`, without a leading zero unless `n == 0` |
| Text.IsDigit | zitplaatsen.py:95 | an ASCII decimal digit, the model's `str.isdigit` per character: no contract of its own; `Text.NatToString` shows every `str(n)` is all digits, and `Pattern.CountsRoundTrip` that such tokens pass the digit test and parse back |
| Text.ValueOf | zitplaatsen.py:97 | `int(n)` of a digit string: no contract of its own; `Text.NatToString` states that it reads `str(n)` back as `n`, and `Pattern.CountsRoundTrip` that counts parse back |
| Text.IntToString | zitplaatsen.py:325 | `str(i)`: the digits of a non-negative `i` read back as `i`; a negative `i` gives `-` followed by the digits of `-i` |
| Text.NatToStringInjective | zitplaatsen.py:325 | distinct counts are written as distinct digit strings |
| Pattern.Normalize | zitplaatsen.py:81-87 | no bracket and no newline survives the normalisation |
| Pattern.Parts | zitplaatsen.py:87 | the stripped non-blank `;` parts: no contract of its own; `Pattern.PartsOfBracketText` and `Pattern.ParsePatternOkIff` state its meaning |
| Pattern.Tokens | zitplaatsen.py:90 | the stripped non-blank `,` tokens of a part: no contract of its own; `Pattern.TokensOfRowText` states its meaning |
| Pattern.ParseCount | zitplaatsen.py:95-99 | one token: no contract of its own; `Pattern.ParseCounts` and `Pattern.ParseCountsFirstError` state its meaning |
| Pattern.ParseCounts | zitplaatsen.py:94-100 | a row of tokens parses iff every token parses; on success one count per token, all positive |
| Pattern.ParseCountsFirstError | zitplaatsen.py:94-99 | the error reported is the one of the first bad token |
| Pattern.ParseRow | zitplaatsen.py:90-101 | `EmptyRow` exactly for a row without numbers; a parsed row is non-empty with positive counts |
| Pattern.ParseRows | zitplaatsen.py:89-101 | all rows parse iff each does, one parsed row per part |
| Pattern.ParseRowsFirstError | zitplaatsen.py:89-101 | the error reported is the one of the first bad row |
| Pattern.ParseRowsOkIff | zitplaatsen.py:89-101 | the rows parse exactly when each is a non-empty row of positive decimal counts |
| Pattern.ParsePattern | zitplaatsen.py:78-102 | a result is a pattern whose rows are non-empty and whose counts are positive; `Leeg patroon` exactly for `None` or all-whitespace text |
| Pattern.ParsePatternOkIff | zitplaatsen.py:78-102 | a text parses exactly when it is not blank and every normalised part is a row of positive decimal counts |
| Pattern.ParsePatternText | zitplaatsen.py:78-102 | the parsing loops return what `ParsePattern` specifies, errors included |
| Pattern.ParsePartsText | zitplaatsen.py:88-101 | the loop over the parts equals `ParseRows` of their tokens |
| Pattern.ParseRowText | zitplaatsen.py:90-100 | the loop over one row's numbers equals `ParseRow` |
| Pattern.RowRoundTrip | zitplaatsen.py:90-100 | the comma-joined digits of a row of positive counts parse back to that row |
| Pattern.CountsRoundTrip | zitplaatsen.py:94-100 | the decimal texts of positive counts parse back to those counts |
| Pattern.RowsRoundTrip | zitplaatsen.py:89-101 | the row texts of a pattern, cut into tokens, parse back to the pattern |
| Pattern.TokensOfRowText | zitplaatsen.py:90 | the comma-joined texts of a row of positive counts split back into those texts |
| Pattern.Bodies | zitplaatsen.py:325 | one inner text per row, the row's counts joined by commas |
| Pattern.BracketText | zitplaatsen.py:325 | the dialog's prefilled text: no contract of its own; `Pattern.BracketTextRoundTrip`, `Pattern.NormalizeBracketText` and `Pattern.PartsOfBracketText` state its meaning |
| Pattern.NormalizeSpaced | zitplaatsen.py:84 | the prefilled text holds no `], [`, so the first replacement leaves it alone |
| Pattern.NormalizeSeparators | zitplaatsen.py:84 | the `],[` between rows of the prefilled text become `;` |
| Pattern.NormalizeBrackets | zitplaatsen.py:84-86 | after that the remaining replacements remove just the outer brackets |
| Pattern.NormalizeBracketText | zitplaatsen.py:84-86 | the prefilled text normalises to the row texts joined by `;` |
| Pattern.PartsOfBracketText | zitplaatsen.py:87 | the parts of the prefilled text are the row texts |
| Pattern.BracketTextRoundTrip | zitplaatsen.py:325 | the dialog's prefilled text of a non-empty pattern parses back to that pattern |
| Pattern.EmptyBracketsAccepted | zitplaatsen.py:81-87 | as written, `[]` passes the emptiness test and parses to a pattern without rows |
| Pattern.BracketsStrip | zitplaatsen.py:81-83 | `[]` has no outer whitespace, so it is not refused as blank |
| Pattern.BracketsNormalize | zitplaatsen.py:84-86 | `[]` normalises to the empty text |
| Pattern.ParseCustomPattern | zitplaatsen.py:78-102 | corrected parser: agrees with `ParsePattern` except that a pattern without rows is an error; every result is non-empty |
| Pattern.CustomPatternRoundTrip | zitplaatsen.py:325 | the corrected parser also gets the prefilled text back to its pattern |
| FileNames.KeepOnly | zitplaatsen.py:105-106 | only allow-listed characters remain, and text made only of them is unchanged |
| FileNames.Keep | zitplaatsen.py:105 | the `keep` allow-list: no contract of its own; `FileNames.KeepOnly` and `FileNames.SafeFilename` state what it admits |
| FileNames.ReplaceChar | zitplaatsen.py:106 | replacing one character by another keeps the length and changes exactly that character at every place |
| FileNames.SafeFilename | zitplaatsen.py:104-106 | the safe name is no longer than the input and made only of allowed characters (letters, digits, `-`, `_`, `.`, `(`, `)`) |
| FileNames.SafeFilenameChars | zitplaatsen.py:104-106 | the kept characters in order, spaces turned into `_`; every character is a letter, a digit or one of `-_.()` |
| FileNames.SafeFilenameNoSpace | zitplaatsen.py:106 | a safe file name holds no space |
| FileNames.SafeFilenameIdempotent | zitplaatsen.py:104-106 | sanitising a safe name changes nothing |
| FileNames.AssetName | zitplaatsen.py:800 | the index can be read back from the digits the file name starts with, and the name ends in `.png` |
| FileNames.AssetNameInjective | zitplaatsen.py:800 | two students at different positions never get the same image file name, whatever their names |
| PhotoGrid.GridCell | zitplaatsen.py:393-399 | the crop of portrait `i` is 236 by 236 at column `i % 5` and row `i // 5` |
| PhotoGrid.CellIndexOfGridCell | zitplaatsen.py:915-921 | the cell determines its index, so distinct saved indices get distinct cells |
| PhotoGrid.GridCellsDisjoint | zitplaatsen.py:393-399 | two different portraits never overlap on the sheet |
| PhotoGrid.GridCrops | zitplaatsen.py:393-399 | the import loop yields the cell of every index below `N`, in order |
| PhotoGrid.CropSquare | zitplaatsen.py:436-441 | the crop is a square of side `min(w, h)` inside the image, centred up to one pixel, touching two opposite edges |
| PhotoGrid.CropSquareOfCell | zitplaatsen.py:436-441 | a grid cell is square, so the square crop keeps all of it |
| Layout.BanksPerRow | zitplaatsen.py:473-480 | `[banks] * rows` for a regular layout, the row lengths of the pattern otherwise |
| Layout.Topology | zitplaatsen.py:473-482 | one row per row, one entry per bank; a regular layout has the same seat count everywhere |
| Layout.MaxBanks | zitplaatsen.py:484 | `max_banks` bounds the bank count of every row and is one of them; it is 0 without rows |
| Layout.MaxOf | zitplaatsen.py:484 | the maximum is an element and bounds all elements |
| Layout.GeometryDefined | zitplaatsen.py:484-493 | `max_banks != 0`, the condition under which the width division is defined: no contract of its own; `Layout.GeometryDefinedRows`, `Layout.NoRowsNoGeometry`, `Layout.RegularDefined` and `Layout.PatternDefined` state its meaning |
| Layout.GeometryDefinedRows | zitplaatsen.py:491-497 | where the divisions are defined there is a row, and some row has banks |
| Layout.NoRowsNoGeometry | zitplaatsen.py:484-493 | without rows `max_banks` is 0 and the width computation divides by zero |
| Layout.RegularDefined | zitplaatsen.py:473-484 | a regular layout with rows and banks gives a positive `max_banks` |
| Layout.PatternDefined | zitplaatsen.py:477-484 | a pattern whose first row has a bank gives a positive `max_banks` |
| Layout.RegularSeatTotal | zitplaatsen.py:474-476 | a regular layout has `rows * banks * seats` seats, negative counts counting as zero |
| Layout.RowSeatsConstant | zitplaatsen.py:474-476 | a row of banks that all have `seats` seats has banks times `max(seats, 0)` seats |
| Layout.SeatTotalConstant | zitplaatsen.py:474-476 | rows that all have `banks` such banks have rows times that many seats |
| Layout.RegularExample | zitplaatsen.py:58-75 | "Klas 1" seats 30 students; the default custom layout seats 24 |
| Layout.IrregularExample | zitplaatsen.py:67-72 | "Fysica T121" seats 31 students |
| Layout.PageSize | zitplaatsen.py:449-450 | the sides are ReportLab's A4, 210 mm by 297 mm in points; portrait is narrower than tall, landscape wider than tall |
| Layout.CustomLayoutAsWritten | zitplaatsen.py:327-345 | the regular branch is accepted iff all three counts are positive; the layout keeps the chosen orientation |
| Layout.AsWrittenDialogBreaksGeometry | zitplaatsen.py:338-340 | as written, the dialog stores a pattern without rows, whose geometry is undefined |
| Layout.CustomLayout | zitplaatsen.py:327-345 | corrected dialog: same acceptance for regular input, and every stored layout has a defined geometry |
| Layout.CustomLayoutAgrees | zitplaatsen.py:327-345 | the corrected dialog accepts what the original does, with the same result, except the pattern without rows |
| Geometry.Trunc | zitplaatsen.py:500 | `int()` rounds toward zero: floor for non-negative values, minus the floor of the negation otherwise |
| Geometry.MaxSeats | zitplaatsen.py:486-489 | the largest seat count of any bank, or 0; it bounds every bank and is attained unless 0 |
| Geometry.SeatsForWidth | zitplaatsen.py:492 | `seats_per_bank_for_width`: no contract of its own; `Geometry.EntriesWithinSeatsForWidth` shows it bounds every bank, and `Geometry.SeatByWidth` uses it |
| Geometry.WidestBank | zitplaatsen.py:486-489 | the loop over the rows computes `MaxSeats` |
| Geometry.SeatByWidth | zitplaatsen.py:491-493 | at this seat side, `max_banks` banks of `seats_per_bank_for_width` seats with their pads and gaps exactly fill the width between the margins |
| Geometry.WidthShare | zitplaatsen.py:491-493 | the `seat_by_w` formula: with at least one seat per bank, `max_banks` banks of that many seats of this side, with pads and gaps, exactly fill the width between the margins |
| Geometry.SeatByHeight | zitplaatsen.py:495-497 | at this seat side, the rows of banks with their pads, caption room and row gaps exactly fill the height between the margins |
| Geometry.SeatSize | zitplaatsen.py:500 | the seat size lies in `[SEAT_MIN, SEAT_MAX]` |
| Geometry.SeatSizeBounds | zitplaatsen.py:491-500 | the seat size lies in `[60, 130]`; above 60 it fits both the width and the height budget; below 130 one budget leaves less than one more unit |
| Geometry.BankWidth | zitplaatsen.py:502-503 | `bank_w_base` / `bank_w_disp`: no contract of its own; `Geometry.SeatWithinBank`, `Geometry.BankWithinShare` and `Geometry.WidthsBeforeBound` state what it bounds |
| Geometry.BankHeight | zitplaatsen.py:504 | `bank_h_base` / `bank_h_disp`: no contract of its own; `Geometry.RowTopSteps`, `Geometry.RowsApart` and `Geometry.BlockBetweenMargins` use it as the row step |
| Geometry.BlockHeight | zitplaatsen.py:507 | `rows*bank_h + (rows-1)*ROW_SPACING`: no contract of its own; `Geometry.BaseTop` and `Geometry.DisplayTop` centre it, and `Geometry.BlockBetweenMargins` shows it lies between the margins when the height fits |
| Geometry.BaseTop | zitplaatsen.py:507-510 | the first row starts at least 56 below the top edge, after centring and the title clamp |
| Geometry.BaseMetrics | zitplaatsen.py:500-510 | the export geometry uses the clamped seat size, the unscaled spacings and margin, the page width, and a first row no higher than the top margin |
| Geometry.DisplaySeat | zitplaatsen.py:538 | the display seat is at least 4; above 4 it is the export seat times the zoom, cut toward zero |
| Geometry.ScaledGap | zitplaatsen.py:543-572 | a scaled spacing is never negative at a non-negative zoom |
| Geometry.DisplayTop | zitplaatsen.py:543-545 | `y_disp`: the scaled first row starts no higher than the scaled top margin and at least 10 below the scaled title |
| Geometry.DisplayMetrics | zitplaatsen.py:538-572 | the display seat is `DisplaySeat` of the export seat, at least 4; the gaps are non-negative at a non-negative zoom; margin and width scale with the zoom |
| Geometry.DisplayAtZoomOne | zitplaatsen.py:538-572 | at zoom 1 the display geometry is the export geometry |
| Geometry.BankSlots | zitplaatsen.py:526-533 | a bank emits one slot per seat, slot `s` at its seat position |
| Geometry.SeatSlot | zitplaatsen.py:526-532 | seat `s` of a bank: no contract of its own; `Geometry.SlotAt`, `Geometry.SeatInBank` and `Geometry.SeatsApart` state where it lies |
| Geometry.RowSlots | zitplaatsen.py:520-534 | a row emits as many slots as its seats, each a square of the seat size |
| Geometry.RowRects | zitplaatsen.py:520-525 | a row emits one rectangle per bank, at the bank's position |
| Geometry.BankRect | zitplaatsen.py:523-525 | bank `b` of row `r`: no contract of its own; `Geometry.RectAt`, `Geometry.SeatInBank`, `Geometry.BanksApart` and `Geometry.RowsApart` state where it lies |
| Geometry.RowWidth | zitplaatsen.py:518 | `row_total_w`: no contract of its own; `Geometry.RowWithinWidest` bounds it and `Geometry.RowCentered` centres it |
| Geometry.WidthsBefore | zitplaatsen.py:518 | the running sum of `row_bank_widths`: no contract of its own; `Geometry.WidthsBeforeMono` and `Geometry.WidthsBeforeBound` state its growth and bound |
| Geometry.BankLeft | zitplaatsen.py:523-534 | `x_base` / `x_disp` at bank `b`: no contract of its own; `Geometry.RowStep` shows it advances by `bw + BANK_SPACING` per bank, and `Geometry.BanksApart` that banks lie left to right |
| Geometry.RowLeft | zitplaatsen.py:519 | `x_base` / `x_disp` at the start of a row: no contract of its own; `Geometry.RowCentered` and `Geometry.RowBetweenMargins` state its meaning |
| Geometry.RowTop | zitplaatsen.py:507 | `y_base` / `y_disp` for row `r`: no contract of its own; `Geometry.RowTopSteps` and `Geometry.RowsApart` state its meaning |
| Geometry.SlotsUpTo | zitplaatsen.py:512-535 | the first `k` rows emit as many slots as they have seats, all square |
| Geometry.RectsUpTo | zitplaatsen.py:512-535 | the first `k` rows emit as many rectangles as they have banks |
| Geometry.LayoutSlots | zitplaatsen.py:512-535 | a layout emits one slot per seat, each a square of the seat size |
| Geometry.LayoutRects | zitplaatsen.py:512-535 | a layout emits one rectangle per bank |
| Geometry.BaseAndDisplaySlots | zitplaatsen.py:512-572 | the export and display geometries have the same numbers of slots and rectangles; export seats lie in `[60, 130]`, display seats are at least 4 |
| Geometry.SlotAt | zitplaatsen.py:528-532 | seat `s` of bank `b` of row `r` is slot number seats-before-row + seats-before-bank + `s` |
| Geometry.RectAt | zitplaatsen.py:520-525 | bank `b` of row `r` is rectangle number banks-before-row + `b` |
| Geometry.SeatInBank | zitplaatsen.py:523-533 | on the export page every seat lies inside its bank, 8 from the sides, with room for the caption below |
| Geometry.SeatWithinBank | zitplaatsen.py:523-533 | with a seat gap of at most 8, seat `s` of a bank of `n` ends at least 8 before the bank's right edge |
| Geometry.SeatsOverrunBankAtZoomTwo | zitplaatsen.py:539-570 | at zoom 2 the last seat of a bank with three or more seats overruns the bank frame |
| Geometry.SeatPastBank | zitplaatsen.py:539-570 | with the seat gap doubled to 16, the last of three or more seats ends past the bank's right edge |
| Geometry.SeatsApart | zitplaatsen.py:533 | later seats of a bank lie to the right, at least a seat gap apart, on the same line |
| Geometry.WidthsBeforeMono | zitplaatsen.py:518 | the width of the banks before `b` grows with `b` |
| Geometry.BanksApart | zitplaatsen.py:534 | later banks of a row lie to the right, at least a bank gap apart, with the same top and bottom |
| Geometry.RowTopSteps | zitplaatsen.py:535 | row `r` starts `r` row steps below the first row |
| Geometry.RowsApart | zitplaatsen.py:535 | banks of a later row start below the banks of an earlier row plus the row gap |
| Geometry.RowCentered | zitplaatsen.py:519 | a row is centred: its left margin is at most its right margin and less than 2 smaller |
| Geometry.BlockBetweenMargins | zitplaatsen.py:496-510 | when the bank height fits the height budget, the block of rows lies between the top and bottom margins |
| Geometry.BlockFitsHeight | zitplaatsen.py:496-510 | whenever the seat size is not floored at 60, the export rows fit between the top and bottom margins |
| Geometry.EntriesWithinSeatsForWidth | zitplaatsen.py:492 | no bank has more seats than the count the width budget was computed for |
| Geometry.WidthsBeforeBound | zitplaatsen.py:518 | the banks before `b` are no wider than `b` of the widest banks |
| Geometry.WidestRowBudget | zitplaatsen.py:491-493 | a seat size within the width budget makes a row of the widest banks fit between the side margins |
| Geometry.RowBudget | zitplaatsen.py:491-493 | a seat side within `seat_by_w` makes `max_banks` banks of `seats_per_bank_for_width` seats, with the gaps between them, no wider than the page minus its margins |
| Geometry.BankWithinShare | zitplaatsen.py:492-493 | a seat side within `seat_by_w` makes one bank no wider than its share `avail_w / max_banks` |
| Geometry.RowWithinWidest | zitplaatsen.py:518 | a row is no wider than a row of `max_banks` of the widest banks |
| Geometry.RowBetweenMargins | zitplaatsen.py:519 | a row narrower than the page minus its margins is drawn between the margins |
| Geometry.RowFitsWidth | zitplaatsen.py:491-519 | whenever the seat size is not floored at 60, every export row lies between the side margins |
| Geometry.LayOut | zitplaatsen.py:512-535 | the emission loops produce exactly `LayoutRects` and `LayoutSlots` |
| Geometry.LayOutRow | zitplaatsen.py:513-534 | the loop over one row's banks produces that row's rectangles and slots |
| Geometry.RowStep | zitplaatsen.py:520-534 | one pass of the bank loop appends that bank's rectangle and slots and moves right by the bank's width plus the bank gap |
| Geometry.SlotInRow | zitplaatsen.py:526-533 | within a row, seat `s` of bank `b` is slot number seats-of-earlier-banks + `s` |
| Geometry.LayOutBank | zitplaatsen.py:526-533 | the loop over one bank's seats produces that bank's slots |
| Shuffle.Shuffled | zitplaatsen.py:718 | the shuffle keeps the list's length (its permutation property is `Shuffle.ShuffledPermutes`) |
| Shuffle.Swap | zitplaatsen.py:718 | one exchange of `random.shuffle` keeps the length; `Shuffle.SwapPermutes` makes it a permutation |
| Shuffle.SwapPermutes | zitplaatsen.py:718 | a swap is a permutation |
| Shuffle.ShuffleStepPermutes | zitplaatsen.py:718 | one swap of the shuffle loop keeps the multiset of students |
| Shuffle.ShuffledPermutes | zitplaatsen.py:718 | any number of shuffle steps is a permutation of the list |
| Assignment.FreeSlots | zitplaatsen.py:593 | the free list is increasing and holds exactly the slots below `n` that no placed student holds |
| Assignment.Placed | zitplaatsen.py:592 | the slot guard of lines 592, 595, 605 and 997, an integer slot below the slot count: no contract of its own; `Assignment.AutoAssign`, `Assignment.AutoAssignUnplacedIsNone` and `Export.StudentCommandsAt` state what passes it |
| Assignment.Nth | zitplaatsen.py:597 | `free.pop(0)` after `c` pops, or `None` once `free` is empty: no contract of its own; `Assignment.AutoAssignInOrder` and `Assignment.AutoAssignNoneOnlyWhenFull` state what it gives |
| Assignment.UsedSlots | zitplaatsen.py:592 | `used`: no contract of its own; `Assignment.AutoAssignInjective` shows newly given slots avoid it, and `Assignment.NoFreeWhenAllUsed` covers the full case |
| Assignment.AutoAssign | zitplaatsen.py:591-599 | only the slots change; a student whose slot is below `n`, negative ones included, keeps it |
| Assignment.AutoAssignInOrder | zitplaatsen.py:594-597 | unplaced students take free slots in list order: an earlier one gets a smaller slot |
| Assignment.AutoAssignNoneOnlyWhenFull | zitplaatsen.py:596-599 | a student is left without a slot only if every slot is taken |
| Assignment.AutoAssignUnplacedIsNone | zitplaatsen.py:595-599 | after auto-assign, a student not on a slot has `None` |
| Assignment.AutoAssignInjective | zitplaatsen.py:591-599 | when the input has no shared slot neither does the output, and new slots are free slots below `n` |
| Assignment.NoFreeWhenAllUsed | zitplaatsen.py:593 | with every slot used the free list is empty |
| Assignment.AutoAssignIdempotent | zitplaatsen.py:591-599 | auto-assigning twice is auto-assigning once |
| Assignment.UnslottedShuffled | zitplaatsen.py:718 | shuffling commutes with forgetting the slots |
| Assignment.UnslottedSwap | zitplaatsen.py:718 | one exchange commutes with forgetting the slots |
| Assignment.WithOrderedSlots | zitplaatsen.py:719-720 | the renumbering keeps the length; `Assignment.OrderedPlacedCount` counts the placed students |
| Assignment.OrderedPlacedCount | zitplaatsen.py:719-720 | after renumbering, `min(k, n)` of the first `k` students are placed |
| Assignment.ShuffleStudents | zitplaatsen.py:716-721 | the list keeps its length; position `i` holds slot `i` while there are slots, and no slot after that |
| Assignment.ShuffleStudentsSpec | zitplaatsen.py:716-720 | the shuffle permutes the students; student `i` gets slot `i` while there are slots and `None` after; `min(N, n)` are placed and no slot is shared |
| Assignment.AutoAssignAfterShuffle | zitplaatsen.py:716-720 | auto-assign after a shuffle changes nothing |
| Assignment.NearestUpTo | zitplaatsen.py:672-680 | the scan keeps the first slot with the smallest squared distance, or none when every distance is at least `1e18` |
| Assignment.Dist2 | zitplaatsen.py:674-676 | `dx*dx + dy*dy`: no contract of its own; `Assignment.NearestUpTo` and `Assignment.NearestIsFirstClosest` state the ordering it induces |
| Assignment.NearestIsFirstClosest | zitplaatsen.py:672-680 | the chosen slot is at least as close as every slot and strictly closer than every earlier one |
| Assignment.Snap | zitplaatsen.py:681 | the snap radius is at least 100 |
| Assignment.Accepted | zitplaatsen.py:681-691 | the two rejection tests of the drop: no contract of its own; `Assignment.DropSpec` states both outcomes, and `Assignment.DropRejected` the release too far from every slot |
| Assignment.HolderFrom | zitplaatsen.py:693-697 | the first other student on the target slot, or none when no other student is there |
| Assignment.Drop | zitplaatsen.py:681-702 | the list keeps its length (the move or swap itself is `Assignment.DropSpec`) |
| Assignment.DropAt | zitplaatsen.py:667-705 | the release keeps the list's length and every name and font size, and never makes two placed students share a slot |
| Assignment.DropRejected | zitplaatsen.py:681-685 | a release farther than the snap radius from every slot, or with no slots, changes nothing |
| Assignment.DropSpec | zitplaatsen.py:681-702 | only slots change; a rejected drop changes nothing; an accepted one puts the dragged student on the target and gives the other student there the dragged student's old slot |
| Assignment.DropInjective | zitplaatsen.py:693-702 | a drop never makes two placed students share a slot |
| Assignment.DropOnOwnSlot | zitplaatsen.py:693-702 | dropping a student onto its own slot changes nothing |
| Export.ClampFont | zitplaatsen.py:1004-1005 | the font lies in `[7, 12]` and equals the stored size when that is in range |
| Export.PyIndex | zitplaatsen.py:997-998 | Python indexing of the export slots: a negative index counts from the end, one below `-n` raises |
| Export.OutOfRange | zitplaatsen.py:998 | a slot below `-len(base_slots)`, where `self.base_slots[s["slot"]]` raises `IndexError`: no contract of its own; `Export.StudentCommands` and `Export.ExportOutcome` state that exactly these students stop the export |
| Export.BankFrames | zitplaatsen.py:984-986 | one frame per bank; `Export.BankFramesUnflip` gives each frame's position |
| Export.SeatFrames | zitplaatsen.py:988-992 | one frame per seat; `Export.SeatFramesUnflip` gives each frame's position |
| Export.StudentDraw | zitplaatsen.py:998-1007 | one student's photo and caption: no contract of its own; `Export.StudentCommandsAt` states both commands |
| Export.StudentCommands | zitplaatsen.py:995-1007 | draws iff no student raises, else reports the first that does; two commands per placed student; photos sit at their slot with the y axis flipped; caption fonts are clamped |
| Export.StudentCommandsAt | zitplaatsen.py:995-1007 | placed student `i` has its photo at command 2·(placed students before `i`), at its slot with the y axis flipped, and its caption right after it at `(x + w/2, H - (y + w + 8 + 12))` in the clamped font |
| Export.StudentCommandsOwner | zitplaatsen.py:995-1007 | every command is the photo (even place) or the caption (odd place) of the placed student with that many placed students before it |
| Export.ExportPdf | zitplaatsen.py:962-1011 | no students gives no PDF; an `IndexError` names a student; a drawn page starts with the title and has one command per bank and per seat and two per placed student |
| Export.ExportOutcome | zitplaatsen.py:962-1007 | a PDF is drawn exactly when there are students and none has a slot below `-n`; otherwise the first such student raises |
| Export.BankFramesUnflip | zitplaatsen.py:983-986 | each bank frame, flipped back, is its bank rectangle |
| Export.SeatFramesUnflip | zitplaatsen.py:988-992 | each seat frame, flipped back, is its slot |
| Export.ExportDrawn | zitplaatsen.py:978-1007 | the page is the title, then a frame per bank, a frame per seat, then every placed student's photo and caption |
| Export.FitFontSize | zitplaatsen.py:621-627 | the size is in `[7, 12]`; above 7 the text fits; every larger size up to 12 is too wide |
| Planner.AssignFree | zitplaatsen.py:591-599 | the assignment loop computes `AutoAssign` |
| Planner.ShuffleInPlace | zitplaatsen.py:718 | the swap loop computes `Shuffled` for the given draws |
| Planner.NumberSlots | zitplaatsen.py:719-720 | the renumbering loop computes `WithOrderedSlots` |
| Planner.NearestSlot | zitplaatsen.py:672-680 | the nearest-centre loop computes `NearestUpTo` over all slots |
| Planner.FindHolder | zitplaatsen.py:693-697 | the search loop computes `HolderFrom` |
| Planner.DropStudent | zitplaatsen.py:672-702 | the body of the drop handler computes `DropAt` |
| Planner.Geometries | zitplaatsen.py:457-572 | the seat size and both geometries are the ones the layout, page and zoom determine |
| Planner.Planner.constructor | zitplaatsen.py:123-236 | no students, zoom 1, no drag, and, as after `set_layout(initial=True)` at line 236, the page of the layout's orientation with its geometry, so the invariant holds |
| Planner.Planner.ComputeGeometry | zitplaatsen.py:457-572 | recomputes both geometries and changes nothing else |
| Planner.Planner.SetLayout | zitplaatsen.py:443-455 | turns the page with the layout, recomputes the geometry and auto-assigns the students onto the new display slots |
| Planner.Planner.Zoom | zitplaatsen.py:1014-1020 | the zoom is multiplied and held in `[0.5, 2.0]`; the export geometry and the students stay |
| Planner.Planner.ResetZoom | zitplaatsen.py:1022-1026 | zoom 1 makes the display geometry the export geometry |
| Planner.Planner.AutoAssignStudents | zitplaatsen.py:591-599 | the students become `AutoAssign` of the old students over the display slots |
| Planner.Planner.ShuffleStudents | zitplaatsen.py:716-721 | the students become `ShuffleStudents` of the old students for the given draws |
| Planner.Planner.DragStart | zitplaatsen.py:641-653 | pressing on placed student `i` starts dragging it; a press on an unplaced student, who has no photo, or on no student changes nothing |
| Planner.Planner.DragEnd | zitplaatsen.py:667-705 | without a drag nothing changes; otherwise the students become `DropAt` of the release point, and the drag always ends |

`Export.ExportPdf` takes the export geometry. `Planner.Planner.Valid`
ensures that geometry is the one computed for the current layout, page and
seat size.

The grid crop of the import (`zitplaatsen.py:393-399`) and of the session
recovery (`zitplaatsen.py:915-921`) are the same computation. Both are
`PhotoGrid.GridCell`.

A student counts as placed when its slot is below the slot count, as in
the source's `s["slot"] < len(...)` guards. A negative slot therefore
counts as placed:

- auto-assign keeps it;
- the export indexes it from the end of the list.

## Left out

- Everything graphical: the Tk widgets, canvas items, thumbnails, context
  menus, drawing on screen (`draw_students`, `refresh_positions`,
  `on_drag_move`), the scroll region and the mouse wheel. These are user
  interface with no state the engine keeps.
- Image work (PIL decode, resize, crop) and PDF rasterisation
  (`pdf2image`). Only the crop rectangles are modelled.
- ReportLab drawing. It is modelled as the sequence of drawing commands
  with their coordinates. Fonts, dashes and line widths are not modelled.
- The file dialogs, message boxes, saving and loading a session
  (`save_seating`, `load_seating`), the zip archive, the temporary
  directories and `resource_path`. These are I/O. Only the image file name
  `{i}_{safe_filename(name)}.png` is modelled.
- `random.shuffle`'s random source. The values its `_randbelow` returns are
  the `draws` parameter, constrained by `Shuffle.DrawsFit`.
- `tkfont.Font.measure`. It is the `measure` parameter of
  `Export.FitFontSize`, a function of the size, for one fixed text.
- Floating point. Reals are exact, so `seat_size * 1.2 * zoom` and the page
  arithmetic are not rounded as IEEE doubles are.
- Geometry.Trunc: Python's `int()` on a float; modelled only for its
  meaning on exact reals.
- Non-ASCII digit characters. `str.isdigit` accepts them. Non-ASCII
  decimal digits such as `٣` then parse in the source. Other digit
  characters such as `²` pass `isdigit` and make `int()` raise
  `ValueError`. The model refuses every non-ASCII character as
  non-numeric. (`Text.IsSpace` is Python's full `str.isspace` set, the
  characters `str.strip` removes.)
- The dialog reads its regular counts with `int()` of the entry text. The
  model takes the integers. Text that is not a number raises there before
  the positivity check.
- Slots and font sizes from a session file that are not integers. In the
  source a slot that is not an `int` fails the `isinstance(..., int)` test,
  and `int(s.get("font_size", FONT_MAX))` (`zitplaatsen.py:1004`) truncates
  a float font size and raises on a string. The model's slots are
  `Option<int>` and its font sizes `int`.
- The fallback in `set_layout` to the first registry entry for an unknown
  name (`zitplaatsen.py:445-447`). The model takes the configuration
  itself, not its name. The registry `LAYOUTS` appears only through the
  example lemmas.
- `delete_selected`, `rename_selected`, `edit_name_dialog`, `reset_board`,
  `load_from_folder`, `prompt_names_list`. These edit the list outside the
  engine, and `reflow_after_data_change` is then `AutoAssignStudents`.
- `center_first_row`. It is stored and never read. Every row is centred
  anyway, and `Layout.LayoutConfig` keeps the flag only as data.
- Planner.Planner.DragStart: the student under the mouse is given as an
  index, not found by its canvas image id. The grab offset is stored but
  only affects drawing. The source holds a reference to the student's
  record, and the model holds its position in the list. The position does
  not follow the student through a reorder that happens during a drag,
  such as a shuffle.
- Export.StudentCommands: the caption font comes from the stored
  `font_size`, as in the source. The display font chosen by
  `draw_students` is not modelled.
- Geometry.SeatInBank: proved for the export geometry (seat gap at most
  8). For the display geometry, `Geometry.SeatsOverrunBankAtZoomTwo` shows
  that containment fails at zoom 2.
- Planner.Planner.SetLayout: it auto-assigns onto `|slots|` display slots.
  `Geometry.BaseAndDisplaySlots` gives that count as the layout's seat
  total.

## Findings

| source | as written | input that shows it | evidently intended | confidence | as-written member | corrected member |
|---|---|---|---|---|---|---|
| zitplaatsen.py:81-87 | the emptiness test runs before the brackets are removed, so text made only of brackets and separators parses to a pattern without rows; the dialog stores it and selects it (`zitplaatsen.py:340-341`); `set_layout` clears the geometry lists (`zitplaatsen.py:464-467`) and divides by `max_banks == 0` (`zitplaatsen.py:493`); `on_ok` catches the `ZeroDivisionError` (`zitplaatsen.py:344-345`) and shows "Ongeldige invoer", so the dialog stays open and the planner is left on the stored layout with no geometry | pattern text `[]` | refuse a pattern without rows with "Leeg patroon", as for empty text | not executed | Pattern.EmptyBracketsAccepted, Layout.AsWrittenDialogBreaksGeometry | Pattern.ParseCustomPattern, Layout.CustomLayout |
