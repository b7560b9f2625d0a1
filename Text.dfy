/**
 * The handful of Python `str` operations the layout-pattern parser and the
 * file-name helper are built from: `strip`, `replace`, `split`, `join`,
 * `isdigit`, `int(...)` and `str(...)`. Each is written the way CPython
 * defines it, on `seq<char>`.
 */
module Text {

  /** `c.isspace()`: the characters Python's `str.strip()` removes. */
  predicate IsSpace(c: char) {
    || c == ' ' || c == '\t' || c == '\n' || c == '\r' || c == '\U{000B}' || c == '\U{000C}'
    || ('\U{001C}' <= c <= '\U{001F}') || c == '\U{0085}' || c == '\U{00A0}' || c == '\U{1680}'
    || ('\U{2000}' <= c <= '\U{200A}') || c == '\U{2028}' || c == '\U{2029}'
    || c == '\U{202F}' || c == '\U{205F}' || c == '\U{3000}'
  }

  /** No whitespace character anywhere in `s`. */
  predicate NoSpace(s: string) {
    forall i :: 0 <= i < |s| ==> !IsSpace(s[i])
  }

  // ---------------------------------------------------------------- strip

  function StripLeft(s: string): (r: string)
    ensures |r| <= |s| && r == s[|s| - |r|..]
    ensures forall i :: 0 <= i < |s| - |r| ==> IsSpace(s[i])
    ensures r == [] || !IsSpace(r[0])
  {
    if s != [] && IsSpace(s[0]) then StripLeft(s[1..]) else s
  }

  function StripRight(s: string): (r: string)
    ensures |r| <= |s| && r == s[..|r|]
    ensures forall i :: |r| <= i < |s| ==> IsSpace(s[i])
    ensures r == [] || !IsSpace(r[|r| - 1])
  {
    if s != [] && IsSpace(s[|s| - 1]) then StripRight(s[..|s| - 1]) else s
  }

  /** `s.strip()`: drop leading and trailing whitespace. */
  function Strip(s: string): (r: string)
    ensures |r| <= |s|
    ensures r == [] || (!IsSpace(r[0]) && !IsSpace(r[|r| - 1]))
    ensures r == [] <==> forall i :: 0 <= i < |s| ==> IsSpace(s[i])
    ensures s != [] && !IsSpace(s[0]) && !IsSpace(s[|s| - 1]) ==> r == s
  {
    var t := StripLeft(s);
    StripRight(t)
  }

  // -------------------------------------------------------------- replace

  /** `s.replace(pat, rep)`: non-overlapping occurrences, scanned left to right. */
  function Replace(s: string, pat: string, rep: string): string
    requires pat != []
    decreases |s|
  {
    if |s| < |pat| then s
    else if s[..|pat|] == pat then rep + Replace(s[|pat|..], pat, rep)
    else [s[0]] + Replace(s[1..], pat, rep)
  }

  /** A prefix that does not contain the first character of `pat` is copied unchanged. */
  lemma {:induction false} ReplaceSkip(x: string, rest: string, pat: string, rep: string)
    requires pat != [] && pat[0] !in x
    ensures Replace(x + rest, pat, rep) == x + Replace(rest, pat, rep)
  {
    if x != [] {
      var s := x + rest;
      assert s[0] == x[0];
      if |s| < |pat| {
        assert Replace(rest, pat, rep) == rest;
        assert Replace(s, pat, rep) == s;
      } else {
        assert s[..|pat|][0] != pat[0];
        assert Replace(s, pat, rep) == [x[0]] + Replace(s[1..], pat, rep);
        assert s[1..] == x[1..] + rest;
        ReplaceSkip(x[1..], rest, pat, rep);
        calc {
          Replace(s, pat, rep);
          [x[0]] + (x[1..] + Replace(rest, pat, rep));
          ([x[0]] + x[1..]) + Replace(rest, pat, rep);
          { assert [x[0]] + x[1..] == x; }
          x + Replace(rest, pat, rep);
        }
      }
    } else {
      assert x + rest == rest;
    }
  }

  /** An occurrence of `pat` at the front is replaced. */
  lemma ReplaceHit(rest: string, pat: string, rep: string)
    requires pat != []
    ensures Replace(pat + rest, pat, rep) == rep + Replace(rest, pat, rep)
  {
    var s := pat + rest;
    assert s[..|pat|] == pat && s[|pat|..] == rest;
  }

  /** When the parts do not contain the first character of `pat`, replacing
      `pat` in the parts joined by `pat` joins them by `rep` instead. */
  lemma {:induction false} ReplaceJoin(xs: seq<string>, t: string, pat: string, rep: string)
    requires pat != [] && xs != []
    requires forall i :: 0 <= i < |xs| ==> pat[0] !in xs[i]
    ensures Replace(Join(pat, xs) + t, pat, rep) == Join(rep, xs) + Replace(t, pat, rep)
  {
    if |xs| == 1 {
      ReplaceSkip(xs[0], t, pat, rep);
    } else {
      var tail := xs[1..];
      var y := Join(pat, tail) + t;
      assert forall i :: 0 <= i < |tail| ==> pat[0] !in tail[i] by {
        forall i | 0 <= i < |tail| ensures pat[0] !in tail[i] {
          assert tail[i] == xs[i + 1];
        }
      }
      ReplaceJoin(tail, t, pat, rep);
      ReplaceAfterPart(xs[0], y, pat, rep);
      JoinFirst(pat, xs, t);
      JoinFirst(rep, xs, Replace(t, pat, rep));
    }
  }

  /** A join of two or more parts, followed by `t`, is the first part, the
      separator and the join of the rest followed by `t`. */
  lemma JoinFirst(sep: string, xs: seq<string>, t: string)
    requires |xs| > 1
    ensures Join(sep, xs) + t == xs[0] + (sep + (Join(sep, xs[1..]) + t))
  {
  }

  /** A part free of `pat[0]` followed by `pat`: the part is copied and `pat`
      becomes `rep`. */
  lemma ReplaceAfterPart(x: string, y: string, pat: string, rep: string)
    requires pat != [] && pat[0] !in x
    ensures Replace(x + (pat + y), pat, rep) == x + (rep + Replace(y, pat, rep))
  {
    ReplaceSkip(x, pat + y, pat, rep);
    ReplaceHit(y, pat, rep);
  }

  /** When one character of `pat` never occurs in `s`, nothing is replaced. */
  lemma {:induction false} ReplaceAbsent(s: string, pat: string, rep: string, k: nat)
    requires pat != [] && k < |pat| && pat[k] !in s
    ensures Replace(s, pat, rep) == s
  {
    if |s| >= |pat| {
      assert s[..|pat|][k] == s[k];
      ReplaceAbsent(s[1..], pat, rep, k);
      assert [s[0]] + s[1..] == s;
    }
  }

  /** A character missing from `rep` is gone after replacing it, and one
      missing from both `s` and `rep` does not appear. */
  lemma {:induction false} ReplaceAvoids(s: string, pat: string, rep: string, c: char)
    requires pat != [] && c !in rep && (c in s ==> pat == [c])
    ensures c !in Replace(s, pat, rep)
    decreases |s|
  {
    if |s| >= |pat| {
      if s[..|pat|] == pat {
        assert c in s[|pat|..] ==> c in s;
        ReplaceAvoids(s[|pat|..], pat, rep, c);
      } else {
        assert s[0] != c;
        assert c in s[1..] ==> c in s;
        ReplaceAvoids(s[1..], pat, rep, c);
      }
    }
  }

  // ---------------------------------------------------------- join, split

  /** `sep.join(parts)`. */
  function Join(sep: string, parts: seq<string>): string
  {
    if parts == [] then []
    else if |parts| == 1 then parts[0]
    else parts[0] + sep + Join(sep, parts[1..])
  }

  /** `s.split(sep)` for a one-character separator; `SplitPieces` states what
      the pieces are. */
  function Split(s: string, sep: char): (r: seq<string>)
    ensures |r| >= 1
  {
    if s == [] then [[]]
    else
      var rest := Split(s[1..], sep);
      if s[0] == sep then [[]] + rest
      else [[s[0]] + rest[0]] + rest[1..]
  }

  /** No piece contains the separator, and joining the pieces back with the
      separator gives `s` again. */
  lemma {:induction false} SplitPieces(s: string, sep: char)
    ensures forall i :: 0 <= i < |Split(s, sep)| ==> sep !in Split(s, sep)[i]
    ensures Join([sep], Split(s, sep)) == s
  {
    if s != [] {
      var rest := Split(s[1..], sep);
      SplitPieces(s[1..], sep);
      if s[0] == sep {
        assert Split(s, sep) == [[]] + rest;
        assert [sep] + Join([sep], rest) == s;
      } else {
        var r := [[s[0]] + rest[0]] + rest[1..];
        assert Split(s, sep) == r;
        assert Join([sep], r) == [s[0]] + Join([sep], rest) by {
          if |rest| > 1 {
            assert r[1..] == rest[1..];
          }
        }
        assert [s[0]] + s[1..] == s;
        forall i | 0 <= i < |r| ensures sep !in r[i] {
          if i == 0 {
            assert r[0] == [s[0]] + rest[0];
          } else {
            assert r[i] == rest[i];
          }
        }
      }
    }
  }

  /** A piece without the separator followed by the separator is split off. */
  lemma {:induction false} SplitCons(x: string, y: string, sep: char)
    requires sep !in x
    ensures Split(x + [sep] + y, sep) == [x] + Split(y, sep)
  {
    if x != [] {
      var s := x + [sep] + y;
      assert s[1..] == x[1..] + [sep] + y;
      SplitCons(x[1..], y, sep);
      assert [x[0]] + x[1..] == x;
    } else {
      assert x + [sep] + y == [sep] + y;
    }
  }

  /** A string without the separator splits into itself. */
  lemma {:induction false} SplitNone(x: string, sep: char)
    requires sep !in x
    ensures Split(x, sep) == [x]
  {
    if x != [] {
      SplitNone(x[1..], sep);
      assert [x[0]] + x[1..] == x;
    }
  }

  /** Splitting undoes joining, when no part contains the separator. */
  lemma {:induction false} SplitJoin(parts: seq<string>, sep: char)
    requires parts != []
    requires forall i :: 0 <= i < |parts| ==> sep !in parts[i]
    ensures Split(Join([sep], parts), sep) == parts
  {
    if |parts| == 1 {
      SplitNone(parts[0], sep);
    } else {
      SplitJoin(parts[1..], sep);
      SplitCons(parts[0], Join([sep], parts[1..]), sep);
      assert [parts[0]] + parts[1..] == parts;
    }
  }

  /** `[p.strip() for p in parts if p.strip()]`. */
  function StrippedNonEmpty(parts: seq<string>): (r: seq<string>)
    ensures |r| <= |parts|
  {
    if parts == [] then []
    else
      var p := Strip(parts[0]);
      var rest := StrippedNonEmpty(parts[1..]);
      if p != [] then [p] + rest else rest
  }

  /** Parts that are already non-empty and free of whitespace survive the filter as they are. */
  lemma {:induction false} StrippedNonEmptyKeeps(parts: seq<string>)
    requires forall i :: 0 <= i < |parts| ==> parts[i] != [] && NoSpace(parts[i])
    ensures StrippedNonEmpty(parts) == parts
  {
    if parts != [] {
      StrippedNonEmptyKeeps(parts[1..]);
      assert [parts[0]] + parts[1..] == parts;
    }
  }

  // --------------------------------------------------------------- digits

  predicate IsDigit(c: char) { '0' <= c <= '9' }

  predicate AllDigits(s: string) { forall i :: 0 <= i < |s| ==> IsDigit(s[i]) }

  /** `s.isdigit()` for ASCII digits: non-empty and all digits. */
  predicate IsDigits(s: string) { s != [] && AllDigits(s) }

  function DigitValue(c: char): nat
    requires IsDigit(c)
  {
    c as int - '0' as int
  }

  function Digit(d: nat): (c: char)
    requires d < 10
    ensures IsDigit(c) && DigitValue(c) == d
  {
    ('0' as int + d) as char
  }

  /** `int(s)` for a string of decimal digits (leading zeros allowed). */
  function ValueOf(s: string): nat
    requires AllDigits(s)
  {
    if s == [] then 0 else 10 * ValueOf(s[..|s| - 1]) + DigitValue(s[|s| - 1])
  }

  /** `str(n)` for a natural number: decimal digits without leading zeros,
      and reading them back gives `n`. */
  function NatToString(n: nat): (r: string)
    ensures IsDigits(r)
    ensures ValueOf(r) == n
    ensures r[0] == '0' ==> n == 0
  {
    if n < 10 then [Digit(n)]
    else
      var r := NatToString(n / 10) + [Digit(n % 10)];
      assert r[..|r| - 1] == NatToString(n / 10);
      r
  }

  /** `str(i)` for any integer: the digits of `|i|`, after a minus sign when
      `i` is negative. */
  function IntToString(i: int): (r: string)
    ensures 0 <= i ==> IsDigits(r) && ValueOf(r) == i
    ensures i < 0 ==> |r| >= 2 && r[0] == '-' && IsDigits(r[1..]) && ValueOf(r[1..]) == -i
  {
    if i < 0 then
      var r := "-" + NatToString(-i);
      assert r[1..] == NatToString(-i);
      r
    else NatToString(i)
  }

  /** Different numbers print differently. */
  lemma NatToStringInjective(m: nat, n: nat)
    requires NatToString(m) == NatToString(n)
    ensures m == n
  {
    assert ValueOf(NatToString(m)) == m;
  }
}
