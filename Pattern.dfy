/**
 * `parse_pattern_text`: free-form layout text such as `[4],[3,3,3]` or
 * `4;3,3,3` becomes a list of rows of positive seat counts, or an error.
 * The text written back into the custom-layout dialog (`BracketText`) parses
 * to the pattern it came from.
 */
module Pattern {
  import opened Wrappers
  import opened Text

  /** The ValueErrors the parser raises, one per message in the source. */
  datatype PatternError =
    | EmptyPattern              // "Leeg patroon"
    | EmptyRow                  // "Lege rij in patroon"
    | NonNumeric(token: string) // "Niet-numerieke waarde in patroon: '<token>'"
    | NotPositive               // "Alle aantallen moeten > 0 zijn"

  /** Every row is non-empty and every seat count is positive. */
  predicate IsPattern(p: seq<seq<int>>) {
    forall r :: 0 <= r < |p| ==> |p[r]| > 0 && forall c :: 0 <= c < |p[r]| ==> p[r][c] > 0
  }

  // ------------------------------------------------------- the text steps

  /** Turn every row separator into `;` and drop the brackets (in the source's order). */
  function Normalize(s: string): (r: string)
    ensures '[' !in r && ']' !in r && '\n' !in r
  {
    var a := Replace(s, "], [", ";");
    var b := Replace(a, "],[", ";");
    var c := Replace(b, "][", ";");
    var d := Replace(c, "[", "");
    var e := Replace(d, "]", "");
    ReplaceAvoids(c, "[", "", '[');
    ReplaceAvoids(d, "]", "", '[');
    ReplaceAvoids(d, "]", "", ']');
    ReplaceAvoids(e, "\n", ";", '[');
    ReplaceAvoids(e, "\n", ";", ']');
    ReplaceAvoids(e, "\n", ";", '\n');
    Replace(e, "\n", ";")
  }

  /** The non-blank, stripped rows of the normalised text. */
  function Parts(s: string): seq<string> {
    StrippedNonEmpty(Split(Normalize(s), ';'))
  }

  /** The non-blank, stripped comma-separated tokens of one row. */
  function Tokens(part: string): seq<string> {
    StrippedNonEmpty(Split(part, ','))
  }

  // ------------------------------------------- the specification functions

  /** One token: `isdigit`, then `int`, then `> 0`. */
  function ParseCount(token: string): Result<int, PatternError> {
    if !IsDigits(token) then Err(NonNumeric(token))
    else if ValueOf(token) <= 0 then Err(NotPositive)
    else Ok(ValueOf(token))
  }

  function Prefixed<T>(prefix: seq<T>, r: Result<seq<T>, PatternError>): Result<seq<T>, PatternError> {
    match r
    case Ok(v) => Ok(prefix + v)
    case Err(e) => Err(e)
  }

  /** The tokens of a row, in order; the first bad token decides the error
      (`ParseCountsFirstError`). */
  function ParseCounts(tokens: seq<string>): (r: Result<seq<int>, PatternError>)
    ensures r.Ok? <==> forall i :: 0 <= i < |tokens| ==> ParseCount(tokens[i]).Ok?
    ensures r.Ok? ==> |r.value| == |tokens| &&
                      forall i :: 0 <= i < |tokens| ==> ParseCount(tokens[i]) == Ok(r.value[i])
    ensures r.Err? ==> r.error.NonNumeric? || r.error == NotPositive
  {
    if tokens == [] then Ok([])
    else
      match ParseCount(tokens[0])
      case Err(e) => Err(e)
      case Ok(v) =>
        var rest := ParseCounts(tokens[1..]);
        assert forall i :: 1 <= i < |tokens| ==> tokens[i] == tokens[1..][i - 1];
        Prefixed([v], rest)
  }

  lemma {:induction false} ParseCountsFirstError(tokens: seq<string>, i: nat)
    requires i < |tokens| && ParseCount(tokens[i]).Err?
    requires forall j :: 0 <= j < i ==> ParseCount(tokens[j]).Ok?
    ensures ParseCounts(tokens) == Err(ParseCount(tokens[i]).error)
  {
    if i > 0 {
      assert forall j :: 0 <= j < i - 1 ==> tokens[1..][j] == tokens[j + 1];
      ParseCountsFirstError(tokens[1..], i - 1);
    }
  }

  /** The tokens of every part, in order. */
  function RowTokens(parts: seq<string>): seq<seq<string>> {
    seq(|parts|, i requires 0 <= i < |parts| => Tokens(parts[i]))
  }

  /** One row, given its tokens: no tokens is an error, otherwise its counts. */
  function ParseRow(nums: seq<string>): (r: Result<seq<int>, PatternError>)
    ensures r == Err(EmptyRow) <==> nums == []
    ensures r.Err? ==> r.error != EmptyPattern
    ensures r.Ok? ==> |r.value| > 0 && forall c :: 0 <= c < |r.value| ==> r.value[c] > 0
  {
    if nums == [] then Err(EmptyRow) else ParseCounts(nums)
  }

  /** The rows, in order; the first bad row decides the error (`ParseRowsFirstError`). */
  function ParseRows(rows: seq<seq<string>>): (r: Result<seq<seq<int>>, PatternError>)
    ensures r.Ok? <==> forall i :: 0 <= i < |rows| ==> ParseRow(rows[i]).Ok?
    ensures r.Ok? ==> |r.value| == |rows| &&
                      forall i :: 0 <= i < |rows| ==> ParseRow(rows[i]) == Ok(r.value[i])
    ensures r.Err? ==> r.error != EmptyPattern
  {
    if rows == [] then Ok([])
    else
      match ParseRow(rows[0])
      case Err(e) => Err(e)
      case Ok(row) =>
        var rest := ParseRows(rows[1..]);
        assert forall i :: 1 <= i < |rows| ==> rows[i] == rows[1..][i - 1];
        Prefixed([row], rest)
  }

  lemma {:induction false} ParseRowsFirstError(rows: seq<seq<string>>, i: nat)
    requires i < |rows| && ParseRow(rows[i]).Err?
    requires forall j :: 0 <= j < i ==> ParseRow(rows[j]).Ok?
    ensures ParseRows(rows) == Err(ParseRow(rows[i]).error)
  {
    if i > 0 {
      assert forall j :: 0 <= j < i - 1 ==> rows[1..][j] == rows[j + 1];
      ParseRowsFirstError(rows[1..], i - 1);
    }
  }

  /** `parse_pattern_text(raw)`, with `None` as the missing text. */
  function ParsePattern(raw: Option<string>): (r: Result<seq<seq<int>>, PatternError>)
    ensures r.Ok? ==> IsPattern(r.value)
    ensures r == Err(EmptyPattern) <==> raw.None? || forall i :: 0 <= i < |raw.value| ==> IsSpace(raw.value[i])
  {
    if raw.None? then Err(EmptyPattern)
    else
      var s := Strip(raw.value);
      if s == [] then Err(EmptyPattern)
      else
        var rows := RowTokens(Parts(s));
        var r := ParseRows(rows);
        assert r.Ok? ==> IsPattern(r.value) by {
          if r.Ok? {
            forall q | 0 <= q < |r.value| ensures |r.value[q]| > 0 && forall c :: 0 <= c < |r.value[q]| ==> r.value[q][c] > 0 {
              assert ParseRow(rows[q]) == Ok(r.value[q]);
            }
          }
        }
        r
  }

  /** Every row has tokens, and every token is a positive decimal number. */
  predicate WellFormedRows(rows: seq<seq<string>>) {
    forall i :: 0 <= i < |rows| ==>
      rows[i] != [] && forall k :: 0 <= k < |rows[i]| ==> IsDigits(rows[i][k]) && ValueOf(rows[i][k]) > 0
  }

  lemma ParseRowsOkIff(rows: seq<seq<string>>)
    ensures ParseRows(rows).Ok? <==> WellFormedRows(rows)
  {
    forall i | 0 <= i < |rows|
      ensures ParseRow(rows[i]).Ok? <==>
        rows[i] != [] && forall k :: 0 <= k < |rows[i]| ==> IsDigits(rows[i][k]) && ValueOf(rows[i][k]) > 0
    {
      var toks := rows[i];
      if toks != [] {
        assert ParseRow(toks) == ParseCounts(toks);
        assert forall k :: 0 <= k < |toks| ==> (ParseCount(toks[k]).Ok? <==> IsDigits(toks[k]) && ValueOf(toks[k]) > 0);
      }
    }
  }

  /** The text is accepted exactly when it is not blank and every token of every
      row is a positive decimal number. */
  lemma ParsePatternOkIff(s: string)
    ensures ParsePattern(Some(s)).Ok? <==> Strip(s) != [] && WellFormedRows(RowTokens(Parts(Strip(s))))
  {
    if Strip(s) != [] {
      ParseRowsOkIff(RowTokens(Parts(Strip(s))));
    }
  }

  // ------------------------------------- a pattern with no rows at all

  /** Text made of brackets only passes the blank-text test but leaves no rows,
      so it is accepted as the empty pattern. */
  lemma EmptyBracketsAccepted()
    ensures ParsePattern(Some("[]")) == Ok([])
  {
    BracketsStrip();
    BracketsNormalize();
    assert Split("", ';') == [""];
    assert Strip("") == "";
    assert Parts("[]") == [];
  }

  /** `"[]"` has no outer whitespace. */
  lemma BracketsStrip()
    ensures Strip("[]") == "[]"
  {
    var s := "[]";
    assert s[0] == '[' && s[|s| - 1] == ']';
    assert !IsSpace(s[0]) && !IsSpace(s[|s| - 1]);
  }

  /** Normalising `"[]"` removes both brackets and leaves nothing. */
  lemma BracketsNormalize()
    ensures Normalize("[]") == ""
  {
    var s := "[]";
    assert s == "[" + "]";
    var a := Replace(s, "], [", ";");
    ReplaceAbsent(s, "], [", ";", 1);
    var b := Replace(a, "],[", ";");
    ReplaceAbsent(s, "],[", ";", 1);
    var c := Replace(b, "][", ";");
    ReplaceAbsent("]", "][", ";", 1);
    assert s[..2] == s && s[1..] == "]";
    assert c == [s[0]] + Replace("]", "][", ";") == s;
    var d := Replace(c, "[", "");
    ReplaceHit("]", "[", "");
    ReplaceAbsent("]", "[", "", 0);
    assert d == "]";
    var e := Replace(d, "]", "");
    ReplaceHit("", "]", "");
    assert "]" + "" == "]" && Replace("", "]", "") == "";
    assert e == "";
  }

  /** `parse_pattern_text` with the empty result rejected as blank text, as the
      "Leeg patroon" checks intend; every accepted pattern has a row. */
  function ParseCustomPattern(raw: Option<string>): (r: Result<seq<seq<int>>, PatternError>)
    ensures r.Ok? ==> r.value != [] && IsPattern(r.value)
    ensures r.Ok? ==> ParsePattern(raw) == r
    ensures r.Err? <==> ParsePattern(raw).Err? || ParsePattern(raw) == Ok([])
  {
    match ParsePattern(raw)
    case Ok(p) => if p == [] then Err(EmptyPattern) else Ok(p)
    case Err(e) => Err(e)
  }

  /** The dialog's own text for any pattern it can hold is accepted unchanged. */
  lemma CustomPatternRoundTrip(p: seq<seq<int>>)
    requires p != [] && IsPattern(p)
    ensures ParseCustomPattern(Some(BracketText(p))) == Ok(p)
  {
    BracketTextRoundTrip(p);
  }

  lemma PrefixedNil<T>(r: Result<seq<T>, PatternError>)
    ensures Prefixed([], r) == r
  {
    if r.Ok? { assert [] + r.value == r.value; }
  }

  lemma PrefixedPrefixed<T>(a: seq<T>, b: seq<T>, r: Result<seq<T>, PatternError>)
    ensures Prefixed(a, Prefixed(b, r)) == Prefixed(a + b, r)
  {
    if r.Ok? { assert a + (b + r.value) == (a + b) + r.value; }
  }

  /** The source's inner loop: the counts of one row's tokens, appended one by one. */
  method ParseRowText(nums: seq<string>) returns (r: Result<seq<int>, PatternError>)
    ensures r == ParseRow(nums)
  {
    if nums == [] {
      return Err(EmptyRow);
    }
    var row: seq<int> := [];
    var j := 0;
    assert nums[0..] == nums;
    PrefixedNil(ParseCounts(nums));
    while j < |nums|
      invariant 0 <= j <= |nums|
      invariant ParseCounts(nums) == Prefixed(row, ParseCounts(nums[j..]))
    {
      assert nums[j..][1..] == nums[j + 1..];
      var n := nums[j];
      if !IsDigits(n) {
        return Err(NonNumeric(n));
      }
      var v := ValueOf(n);
      if v <= 0 {
        return Err(NotPositive);
      }
      PrefixedPrefixed(row, [v], ParseCounts(nums[j + 1..]));
      row := row + [v];
      j := j + 1;
    }
    assert nums[j..] == [];
    assert row + [] == row;
    return Ok(row);
  }

  /** The source's outer loop over the parts of the normalised text. */
  method ParsePartsText(parts: seq<string>) returns (r: Result<seq<seq<int>>, PatternError>)
    ensures r == ParseRows(RowTokens(parts))
  {
    ghost var rows := RowTokens(parts);
    var pattern: seq<seq<int>> := [];
    var i := 0;
    assert rows[0..] == rows;
    PrefixedNil(ParseRows(rows));
    while i < |parts|
      invariant 0 <= i <= |parts|
      invariant ParseRows(rows) == Prefixed(pattern, ParseRows(rows[i..]))
    {
      assert rows[i..][1..] == rows[i + 1..];
      var nums := Tokens(parts[i]);
      assert nums == rows[i];
      var row := ParseRowText(nums);
      if row.Err? {
        return Err(row.error);
      }
      PrefixedPrefixed(pattern, [row.value], ParseRows(rows[i + 1..]));
      pattern := pattern + [row.value];
      i := i + 1;
    }
    assert rows[i..] == [];
    assert pattern + [] == pattern;
    return Ok(pattern);
  }

  /** `parse_pattern_text`: strip, reject blank text, then parse the parts. */
  method ParsePatternText(raw: Option<string>) returns (r: Result<seq<seq<int>>, PatternError>)
    ensures r == ParsePattern(raw)
  {
    if raw.None? {
      return Err(EmptyPattern);
    }
    var s := Strip(raw.value);
    if s == [] {
      return Err(EmptyPattern);
    }
    r := ParsePartsText(Parts(s));
  }

  // ------------------------------------------- the text the dialog writes

  /** `map(str, row)`. */
  function IntTexts(row: seq<int>): (r: seq<string>)
    ensures |r| == |row| && forall i :: 0 <= i < |row| ==> r[i] == IntToString(row[i])
  {
    if row == [] then [] else [IntToString(row[0])] + IntTexts(row[1..])
  }

  /** `",".join(map(str, row))` for every row. */
  function Bodies(p: seq<seq<int>>): (r: seq<string>)
    ensures |r| == |p| && forall i :: 0 <= i < |p| ==> r[i] == Join(",", IntTexts(p[i]))
  {
    if p == [] then [] else [Join(",", IntTexts(p[0]))] + Bodies(p[1..])
  }

  /** `"[" + x + "]"` for every x. */
  function Bracketed(xs: seq<string>): (r: seq<string>)
    ensures |r| == |xs| && forall i :: 0 <= i < |xs| ==> r[i] == "[" + xs[i] + "]"
  {
    if xs == [] then [] else ["[" + xs[0] + "]"] + Bracketed(xs[1..])
  }

  /** `",".join(["[" + ",".join(map(str, row)) + "]" for row in pattern])`. */
  function BracketText(p: seq<seq<int>>): string {
    Join(",", Bracketed(Bodies(p)))
  }

  predicate AllChars(s: string, ok: char -> bool) {
    forall i :: 0 <= i < |s| ==> ok(s[i])
  }

  lemma {:induction false} JoinChars(sep: string, xs: seq<string>, ok: char -> bool)
    requires AllChars(sep, ok) && forall i :: 0 <= i < |xs| ==> AllChars(xs[i], ok)
    ensures AllChars(Join(sep, xs), ok)
  {
    if |xs| > 1 {
      JoinChars(sep, xs[1..], ok);
      var t := Join(sep, xs[1..]);
      assert Join(sep, xs) == xs[0] + sep + t;
      forall i | 0 <= i < |xs[0] + sep + t| ensures ok((xs[0] + sep + t)[i]) {
        if i < |xs[0]| { assert (xs[0] + sep + t)[i] == xs[0][i]; }
        else if i < |xs[0]| + |sep| { assert (xs[0] + sep + t)[i] == sep[i - |xs[0]|]; }
        else { assert (xs[0] + sep + t)[i] == t[i - |xs[0]| - |sep|]; }
      }
    }
  }

  predicate CountChar(c: char) { IsDigit(c) || c == ',' }
  predicate RowsChar(c: char) { IsDigit(c) || c == ',' || c == ';' }

  /** The text of one row: non-empty, only digits and commas. */
  lemma RowTextShape(row: seq<int>)
    requires |row| > 0 && forall c :: 0 <= c < |row| ==> row[c] > 0
    ensures Join(",", IntTexts(row)) != []
    ensures AllChars(Join(",", IntTexts(row)), CountChar)
  {
    var ts := IntTexts(row);
    forall i | 0 <= i < |ts| ensures AllChars(ts[i], CountChar) {
      assert ts[i] == NatToString(row[i]);
    }
    JoinChars(",", ts, CountChar);
    assert |ts| == 1 ==> Join(",", ts) == ts[0];
    assert |ts| > 1 ==> Join(",", ts) == ts[0] + "," + Join(",", ts[1..]);
    assert ts[0] == NatToString(row[0]);
  }

  /** Bracketing every part and joining with `,` is one bracket around the parts joined with `],[`. */
  lemma {:induction false} BracketShape(xs: seq<string>)
    requires xs != []
    ensures Join(",", Bracketed(xs)) == "[" + Join("],[", xs) + "]"
  {
    if |xs| > 1 {
      BracketShape(xs[1..]);
      assert Bracketed(xs)[1..] == Bracketed(xs[1..]);
      calc {
        Join(",", Bracketed(xs));
        ("[" + xs[0] + "]") + "," + Join(",", Bracketed(xs[1..]));
        ("[" + xs[0] + "]") + "," + ("[" + Join("],[", xs[1..]) + "]");
        "[" + (xs[0] + "],[" + Join("],[", xs[1..])) + "]";
      }
    }
  }

  /** The rows' texts: non-empty, only digits and commas. */
  predicate RowTexts(xs: seq<string>) {
    forall i :: 0 <= i < |xs| ==> xs[i] != [] && AllChars(xs[i], CountChar)
  }

  lemma {:induction false} AbsentChar(s: string, ok: char -> bool, c: char)
    requires AllChars(s, ok) && !ok(c)
    ensures c !in s
  {
    assert forall k :: 0 <= k < |s| ==> s[k] != c;
  }

  /** There is no `], [` in the dialog's text. */
  lemma NormalizeSpaced(xs: seq<string>)
    requires xs != [] && RowTexts(xs)
    ensures Replace("[" + Join("],[", xs) + "]", "], [", ";") == "[" + Join("],[", xs) + "]"
  {
    var ok := c => CountChar(c) || c == '[' || c == ']';
    JoinChars("],[", xs, ok);
    AbsentChar(Join("],[", xs), ok, ' ');
    ReplaceAbsent("[" + Join("],[", xs) + "]", "], [", ";", 2);
  }

  /** Every `],[` becomes `;`. */
  lemma NormalizeSeparators(xs: seq<string>)
    requires xs != [] && RowTexts(xs)
    ensures Replace("[" + Join("],[", xs) + "]", "],[", ";") == "[" + Join(";", xs) + "]"
  {
    forall i | 0 <= i < |xs| ensures ']' !in xs[i] {
      AbsentChar(xs[i], CountChar, ']');
    }
    assert "[" + Join("],[", xs) + "]" == "[" + (Join("],[", xs) + "]");
    ReplaceSkip("[", Join("],[", xs) + "]", "],[", ";");
    ReplaceJoin(xs, "]", "],[", ";");
    assert Replace("]", "],[", ";") == "]";
  }

  /** No `][` remains, then the brackets go. */
  lemma NormalizeBrackets(semi: string)
    requires AllChars(semi, RowsChar)
    ensures Replace("[" + semi + "]", "][", ";") == "[" + semi + "]"
    ensures Replace("[" + semi + "]", "[", "") == semi + "]"
    ensures Replace(semi + "]", "]", "") == semi
    ensures Replace(semi, "\n", ";") == semi
  {
    AbsentChar(semi, RowsChar, ']');
    AbsentChar(semi, RowsChar, '[');
    AbsentChar(semi, RowsChar, '\n');
    ReplaceSkip("[" + semi, "]", "][", ";");
    assert Replace("]", "][", ";") == "]";
    assert "[" + semi + "]" == "[" + (semi + "]");
    ReplaceHit(semi + "]", "[", "");
    ReplaceAbsent(semi + "]", "[", "", 0);
    ReplaceSkip(semi, "]", "]", "");
    ReplaceHit("", "]", "");
    assert Replace("", "]", "") == "";
    ReplaceAbsent(semi, "\n", ";", 0);
  }

  /** The brackets-and-separators step maps the dialog's text to the rows joined by `;`. */
  lemma NormalizeBracketText(p: seq<seq<int>>)
    requires p != [] && IsPattern(p)
    ensures Normalize(BracketText(p)) == Join(";", Bodies(p))
  {
    var xs := Bodies(p);
    forall i | 0 <= i < |xs| ensures xs[i] != [] && AllChars(xs[i], CountChar) {
      RowTextShape(p[i]);
    }
    BracketShape(xs);
    NormalizeSpaced(xs);
    NormalizeSeparators(xs);
    JoinChars(";", xs, RowsChar);
    NormalizeBrackets(Join(";", xs));
  }

  /** The dialog's text splits into the rows' texts. */
  lemma PartsOfBracketText(p: seq<seq<int>>)
    requires p != [] && IsPattern(p)
    ensures Parts(BracketText(p)) == Bodies(p)
  {
    var xs := Bodies(p);
    forall i | 0 <= i < |xs| ensures xs[i] != [] && AllChars(xs[i], CountChar) {
      RowTextShape(p[i]);
    }
    NormalizeBracketText(p);
    forall i | 0 <= i < |xs| ensures ';' !in xs[i] && NoSpace(xs[i]) {
      AbsentChar(xs[i], CountChar, ';');
    }
    SplitJoin(xs, ';');
    StrippedNonEmptyKeeps(xs);
  }

  /** A row's text splits into its numbers' texts. */
  lemma TokensOfRowText(row: seq<int>)
    requires forall c :: 0 <= c < |row| ==> row[c] > 0
    requires |row| > 0
    ensures Tokens(Join(",", IntTexts(row))) == IntTexts(row)
  {
    var ts := IntTexts(row);
    forall k | 0 <= k < |ts| ensures ts[k] != [] && NoSpace(ts[k]) && ',' !in ts[k] {
      assert ts[k] == NatToString(row[k]);
      assert forall m :: 0 <= m < |ts[k]| ==> ts[k][m] != ',';
    }
    SplitJoin(ts, ',');
    StrippedNonEmptyKeeps(ts);
  }

  /** The numbers' texts parse back to the numbers. */
  lemma {:induction false} CountsRoundTrip(row: seq<int>)
    requires forall c :: 0 <= c < |row| ==> row[c] > 0
    ensures ParseCounts(IntTexts(row)) == Ok(row)
  {
    if row != [] {
      var ts := IntTexts(row);
      assert ts[0] == NatToString(row[0]);
      assert ParseCount(ts[0]) == Ok(row[0]);
      assert ts[1..] == IntTexts(row[1..]);
      CountsRoundTrip(row[1..]);
      assert [row[0]] + row[1..] == row;
    }
  }

  /** The rows' texts parse back to the rows. */
  lemma RowsRoundTrip(p: seq<seq<int>>)
    requires IsPattern(p)
    ensures ParseRows(RowTokens(Bodies(p))) == Ok(p)
  {
    var bodies := Bodies(p);
    var rows := RowTokens(bodies);
    forall i | 0 <= i < |p| ensures ParseRow(rows[i]) == Ok(p[i]) {
      assert rows[i] == Tokens(bodies[i]);
      RowRoundTrip(p[i]);
    }
    var r := ParseRows(rows);
    assert r.Ok?;
    assert |r.value| == |p|;
    forall i | 0 <= i < |p| ensures r.value[i] == p[i] {
      assert ParseRow(rows[i]) == Ok(r.value[i]);
    }
    assert r.value == p;
  }

  /** One row's text parses back to the row. */
  lemma RowRoundTrip(row: seq<int>)
    requires |row| > 0 && forall c :: 0 <= c < |row| ==> row[c] > 0
    ensures ParseRow(Tokens(Join(",", IntTexts(row)))) == Ok(row)
  {
    TokensOfRowText(row);
    CountsRoundTrip(row);
  }

  /** Parsing the text the custom-layout dialog writes gives back the pattern. */
  lemma BracketTextRoundTrip(p: seq<seq<int>>)
    requires p != [] && IsPattern(p)
    ensures ParsePattern(Some(BracketText(p))) == Ok(p)
  {
    var xs := Bodies(p);
    var b := BracketText(p);
    BracketShape(xs);
    assert b[0] == '[' && b[|b| - 1] == ']';
    assert Strip(b) == b;
    PartsOfBracketText(p);
    RowsRoundTrip(p);
  }
}
