/**
 * `export_pdf` as a map from the export geometry and the students to the
 * draw calls it makes on the PDF page, whose y axis points up: the title,
 * a frame per bank, a dashed frame per seat, and a photo and a caption per
 * placed student. Also `fit_font_size`, with the text measurement as input.
 */
module Export {
  import opened Wrappers
  import opened Geometry
  import opened Assignment

  const FontMin := 7
  const FontMax := 12
  const Oversample := 2

  datatype Command =
    | Title(x: real, y: real)
    | BankFrame(x: real, y: real, w: real, h: real)
    | SeatFrame(x: real, y: real, w: real, h: real)
    | Photo(student: nat, x: real, y: real, w: real, h: real, pixels: int)
    | Caption(student: nat, x: real, y: real, font: int)

  /** No PDF when there are no students; an `IndexError` aborts the export
      before the file is saved. */
  datatype Outcome =
    | NoStudents
    | IndexError(student: nat)
    | Drawn(commands: seq<Command>)

  /** `max(FONT_MIN, min(FONT_MAX, size))`. */
  function ClampFont(size: int): (r: int)
    ensures FontMin <= r <= FontMax
    ensures FontMin <= size <= FontMax ==> r == size
    ensures size < FontMin ==> r == FontMin
    ensures size > FontMax ==> r == FontMax
  {
    if size < FontMin then FontMin else if size > FontMax then FontMax else size
  }

  /** Python's `slots[v]` for a placed slot `v < n`: a negative index counts
      from the end, one below `-n` raises. */
  function PyIndex(v: int, n: nat): (r: Option<nat>)
    requires v < n
    ensures r.Some? ==> r.value < n && r.value as int == (if v >= 0 then v else v + n)
    ensures r.None? <==> v < -(n as int)
  {
    if v >= 0 then Some(v) else if v >= -(n as int) then Some(v + n) else None
  }

  function BankFrames(rects: seq<Rect>, pageH: real): (cs: seq<Command>)
    ensures |cs| == |rects|
  {
    seq(|rects|, k requires 0 <= k < |rects| =>
      var b := rects[k];
      BankFrame(b.x0 as real, pageH - b.y1 as real, (b.x1 - b.x0) as real, (b.y1 - b.y0) as real))
  }

  function SeatFrames(slots: seq<Slot>, pageH: real): (cs: seq<Command>)
    ensures |cs| == |slots|
  {
    seq(|slots|, k requires 0 <= k < |slots| =>
      var q := slots[k];
      SeatFrame(q.x as real, pageH - (q.y + q.h) as real, q.w as real, q.h as real))
  }

  /** The photo and caption of student `i` placed at slot `q`. */
  function StudentDraw(i: nat, st: Student, q: Slot, pageH: real): seq<Command> {
    var w := q.w;
    [ Photo(i, q.x as real, pageH - (q.y + w) as real, w as real, w as real, if w * Oversample > 1 then w * Oversample else 1),
      Caption(i, q.x as real + w as real / 2.0, pageH - (q.y + w + CaptionGap + 12) as real, ClampFont(st.fontSize)) ]
  }

  /** A student whose slot makes the export raise. */
  predicate OutOfRange(st: Student, n: nat) {
    st.slot.Some? && st.slot.value < -(n as int)
  }

  /** The student loop over the first `k` students: their photos and captions,
      or the first student whose slot index raises. */
  function StudentCommands(xs: seq<Student>, slots: seq<Slot>, pageH: real, k: nat): (r: Result<seq<Command>, nat>)
    requires k <= |xs|
    ensures r.Ok? <==> forall j :: 0 <= j < k ==> !OutOfRange(xs[j], |slots|)
    ensures r.Err? ==>
      r.error < k && OutOfRange(xs[r.error], |slots|) &&
      forall j :: 0 <= j < r.error ==> !OutOfRange(xs[j], |slots|)
    ensures r.Ok? ==> |r.value| == 2 * PlacedCount(xs[..k], |slots|)
    ensures r.Ok? ==> forall c :: 0 <= c < |r.value| && r.value[c].Caption? ==>
      FontMin <= r.value[c].font <= FontMax && r.value[c].student < k &&
      r.value[c].font == ClampFont(xs[r.value[c].student].fontSize)
    ensures r.Ok? ==> forall c :: 0 <= c < |r.value| && r.value[c].Photo? ==>
      var i := r.value[c].student;
      i < k && Placed(xs[i], |slots|) &&
      var q := slots[PyIndex(xs[i].slot.value, |slots|).value];
      r.value[c].x == q.x as real && r.value[c].y + r.value[c].h == pageH - q.y as real &&
      r.value[c].w == r.value[c].h == q.w as real
  {
    if k == 0 then Ok([])
    else
      assert xs[..k][..k - 1] == xs[..k - 1];
      var prev := StudentCommands(xs, slots, pageH, k - 1);
      var st := xs[k - 1];
      if prev.Err? then prev
      else if !Placed(st, |slots|) then prev
      else
        match PyIndex(st.slot.value, |slots|)
        case None => Err(k - 1)
        case Some(j) => Ok(prev.value + StudentDraw(k - 1, st, slots[j], pageH))
  }

  /** Every placed student among the first `k` gets its photo at command
      `2 * PlacedCount(xs[..i])` and its caption right after: the photo is a
      `w` by `w` image at the slot with the y axis flipped, the caption is
      centred under it, `CAPTION_GAP + 12` below the photo, in the clamped
      font. With `|r.value| == 2 * PlacedCount(xs[..k])` these positions are
      all the commands, so each placed student has exactly one photo and one
      caption, in list order. */
  lemma {:induction false} StudentCommandsAt(xs: seq<Student>, slots: seq<Slot>, pageH: real, k: nat, i: nat)
    requires i < k <= |xs|
    requires StudentCommands(xs, slots, pageH, k).Ok? && Placed(xs[i], |slots|)
    ensures var cs := StudentCommands(xs, slots, pageH, k).value;
            var c := 2 * PlacedCount(xs[..i], |slots|);
            var q := slots[PyIndex(xs[i].slot.value, |slots|).value];
            var w := q.w;
            c + 1 < |cs| &&
            cs[c] == Photo(i, q.x as real, pageH - (q.y + w) as real, w as real, w as real,
                           if w * Oversample > 1 then w * Oversample else 1) &&
            cs[c + 1] == Caption(i, q.x as real + w as real / 2.0,
                                 pageH - (q.y + w + CaptionGap + 12) as real, ClampFont(xs[i].fontSize))
  {
    var prev := StudentCommands(xs, slots, pageH, k - 1);
    assert xs[..k][..k - 1] == xs[..k - 1];
    if i < k - 1 {
      StudentCommandsAt(xs, slots, pageH, k - 1, i);
    } else {
      assert |prev.value| == 2 * PlacedCount(xs[..i], |slots|);
    }
  }

  /** Conversely, every command is the photo (at an even position) or the
      caption (at the odd position after it) of a placed student `j` among
      the first `k`, at the positions `StudentCommandsAt` gives for `j`. */
  lemma {:induction false} StudentCommandsOwner(xs: seq<Student>, slots: seq<Slot>, pageH: real, k: nat, c: nat)
    requires k <= |xs| && StudentCommands(xs, slots, pageH, k).Ok?
    requires c < |StudentCommands(xs, slots, pageH, k).value|
    ensures var cmd := StudentCommands(xs, slots, pageH, k).value[c];
            (cmd.Photo? || cmd.Caption?) && (cmd.Photo? <==> c % 2 == 0)
    ensures var cmd := StudentCommands(xs, slots, pageH, k).value[c];
            cmd.student < k && Placed(xs[cmd.student], |slots|) &&
            c / 2 == PlacedCount(xs[..cmd.student], |slots|)
  {
    var prev := StudentCommands(xs, slots, pageH, k - 1);
    assert xs[..k][..k - 1] == xs[..k - 1];
    if c < |prev.value| {
      StudentCommandsOwner(xs, slots, pageH, k - 1, c);
    } else {
      assert |prev.value| == 2 * PlacedCount(xs[..k - 1], |slots|);
    }
  }

  /** `export_pdf` on a `w` by `h` page. */
  function ExportPdf(rects: seq<Rect>, slots: seq<Slot>, xs: seq<Student>, w: real, h: real): (r: Outcome)
    ensures r.NoStudents? <==> xs == []
    ensures r.IndexError? ==> r.student < |xs|
    ensures r.Drawn? ==>
      |r.commands| == 1 + |rects| + |slots| + 2 * PlacedCount(xs, |slots|) && r.commands[0] == Title(w / 2.0, h - 36.0)
  {
    if xs == [] then NoStudents
    else
      assert xs[..|xs|] == xs;
      match StudentCommands(xs, slots, h, |xs|)
      case Err(i) => IndexError(i)
      case Ok(cs) => Drawn([Title(w / 2.0, h - 36.0)] + BankFrames(rects, h) + SeatFrames(slots, h) + cs)
  }

  /** Undoing the y flip: the frame `(x, y, w, h)` drawn with y up covers the
      box `(x0, y0, x1, y1)` of the y-down geometry. */
  function Unflip(x: real, y: real, w: real, h: real, pageH: real): (real, real, real, real) {
    (x, pageH - (y + h), x + w, pageH - y)
  }

  /** A PDF is drawn exactly when there are students and none has a slot
      below `-n`; otherwise the first such student raises. */
  lemma ExportOutcome(rects: seq<Rect>, slots: seq<Slot>, xs: seq<Student>, w: real, h: real)
    ensures ExportPdf(rects, slots, xs, w, h).Drawn? <==>
      xs != [] && forall j :: 0 <= j < |xs| ==> !OutOfRange(xs[j], |slots|)
    ensures ExportPdf(rects, slots, xs, w, h).IndexError? ==>
      var i := ExportPdf(rects, slots, xs, w, h).student;
      i < |xs| && OutOfRange(xs[i], |slots|) && forall j :: 0 <= j < i ==> !OutOfRange(xs[j], |slots|)
  {
  }

  /** Each bank frame, unflipped, is its bank. */
  lemma BankFramesUnflip(rects: seq<Rect>, pageH: real, k: nat)
    requires k < |rects|
    ensures var f := BankFrames(rects, pageH)[k];
            f.BankFrame? &&
            Unflip(f.x, f.y, f.w, f.h, pageH) == (rects[k].x0 as real, rects[k].y0 as real, rects[k].x1 as real, rects[k].y1 as real)
  {
  }

  /** Each seat frame, unflipped, is its slot. */
  lemma SeatFramesUnflip(slots: seq<Slot>, pageH: real, k: nat)
    requires k < |slots|
    ensures var f := SeatFrames(slots, pageH)[k];
            f.SeatFrame? &&
            Unflip(f.x, f.y, f.w, f.h, pageH) ==
              (slots[k].x as real, slots[k].y as real, (slots[k].x + slots[k].w) as real, (slots[k].y + slots[k].h) as real)
  {
  }

  /** The drawn page: the title, then the bank frames, the seat frames, and
      a photo and a caption for every placed student. */
  lemma ExportDrawn(rects: seq<Rect>, slots: seq<Slot>, xs: seq<Student>, w: real, h: real)
    requires ExportPdf(rects, slots, xs, w, h).Drawn?
    ensures var cs := ExportPdf(rects, slots, xs, w, h).commands;
      |cs| == 1 + |rects| + |slots| + 2 * PlacedCount(xs, |slots|) &&
      cs[0] == Title(w / 2.0, h - 36.0) &&
      cs[1..1 + |rects|] == BankFrames(rects, h) &&
      cs[1 + |rects|..1 + |rects| + |slots|] == SeatFrames(slots, h) &&
      cs[1 + |rects| + |slots|..] == StudentCommands(xs, slots, h, |xs|).value
  {
    assert xs[..|xs|] == xs;
    var t := [Title(w / 2.0, h - 36.0)];
    var b := BankFrames(rects, h);
    var f := SeatFrames(slots, h);
    var ps := StudentCommands(xs, slots, h, |xs|).value;
    var cs := t + b + f + ps;
    assert cs == ExportPdf(rects, slots, xs, w, h).commands;
    assert cs[1..1 + |rects|] == b;
    assert cs[1 + |rects|..1 + |rects| + |slots|] == f;
    assert cs[1 + |rects| + |slots|..] == ps;
  }

  /** `fit_font_size`: from `FONT_MAX` down, the first size whose measured
      width fits, but never below `FONT_MIN`. */
  method FitFontSize(measure: int -> int, maxWidth: int) returns (size: int)
    ensures FontMin <= size <= FontMax
    ensures size > FontMin ==> measure(size) <= maxWidth
    ensures forall k :: size < k <= FontMax ==> measure(k) > maxWidth
  {
    size := FontMax;
    while size > FontMin && measure(size) > maxWidth
      invariant FontMin <= size <= FontMax
      invariant forall k :: size < k <= FontMax ==> measure(k) > maxWidth
    {
      size := size - 1;
    }
  }
}
