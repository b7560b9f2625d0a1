/**
 * `safe_filename` and the names of the image files a saved seating plan
 * writes next to its JSON file (`<i>_<safe name>.png`).
 */
module FileNames {
  import opened Text

  /** The characters `safe_filename` keeps (before spaces become `_`). */
  predicate Keep(c: char) {
    || c == '-' || c == '_' || c == '.' || c == '(' || c == ')' || c == ' '
    || ('a' <= c <= 'z') || ('A' <= c <= 'Z') || ('0' <= c <= '9')
  }

  /** The characters a safe file name is made of: the kept ones except the space. */
  predicate Allowed(c: char) {
    Keep(c) && c != ' '
  }

  /** `"".join(c for c in s if c in keep)`. */
  function KeepOnly(s: string): (r: string)
    ensures |r| <= |s|
    ensures forall k :: 0 <= k < |r| ==> Keep(r[k])
    ensures (forall k :: 0 <= k < |s| ==> Keep(s[k])) ==> r == s
  {
    if s == [] then []
    else
      var rest := KeepOnly(s[1..]);
      if Keep(s[0]) then
        assert [s[0]] + s[1..] == s;
        [s[0]] + rest
      else rest
  }

  /** Replacing the one-character pattern `c` changes characters one for one. */
  lemma {:induction false} ReplaceChar(s: string, c: char, d: char)
    ensures |Replace(s, [c], [d])| == |s|
    ensures forall k :: 0 <= k < |s| ==> Replace(s, [c], [d])[k] == if s[k] == c then d else s[k]
  {
    if s != [] {
      ReplaceChar(s[1..], c, d);
      var t := Replace(s[1..], [c], [d]);
      assert s[..1] == [s[0]];
      assert Replace(s, [c], [d]) == (if s[0] == c then [d] else [s[0]]) + t;
    }
  }

  /** `safe_filename(s)`. */
  function SafeFilename(s: string): (r: string)
    ensures |r| <= |s|
    ensures forall k :: 0 <= k < |r| ==> Allowed(r[k])
  {
    ReplaceChar(KeepOnly(s), ' ', '_');
    Replace(KeepOnly(s), " ", "_")
  }

  /** The kept characters in order, each space turned into `_`. */
  lemma SafeFilenameChars(s: string)
    ensures |SafeFilename(s)| == |KeepOnly(s)| <= |s|
    ensures forall k :: 0 <= k < |KeepOnly(s)| ==>
      SafeFilename(s)[k] == if KeepOnly(s)[k] == ' ' then '_' else KeepOnly(s)[k]
    ensures forall k :: 0 <= k < |SafeFilename(s)| ==> Allowed(SafeFilename(s)[k])
  {
    ReplaceChar(KeepOnly(s), ' ', '_');
  }

  /** No space survives, and nothing outside the allowlist does either. */
  lemma SafeFilenameNoSpace(s: string)
    ensures ' ' !in SafeFilename(s)
  {
    SafeFilenameChars(s);
    assert forall k :: 0 <= k < |SafeFilename(s)| ==> SafeFilename(s)[k] != ' ';
  }

  /** A safe name is its own safe name. */
  lemma SafeFilenameIdempotent(s: string)
    ensures SafeFilename(SafeFilename(s)) == SafeFilename(s)
  {
    var t := SafeFilename(s);
    SafeFilenameChars(s);
    assert KeepOnly(t) == t;
    SafeFilenameNoSpace(s);
    ReplaceAbsent(t, " ", "_", 0);
  }

  /** `f"{i}_{safe_filename(name)}.png"`: the index can be read back from
      the digits the name starts with, and the name ends in `.png`. */
  function AssetName(i: nat, name: string): (r: string)
    ensures DigitRun(r) == |NatToString(i)| && AllDigits(r[..DigitRun(r)]) && ValueOf(r[..DigitRun(r)]) == i
    ensures |r| >= 4 && r[|r| - 4..] == ".png"
  {
    var x := NatToString(i);
    var tail := SafeFilename(name) + ".png";
    DigitRunBeforeUnderscore(x, tail);
    assert x + "_" + tail == x + "_" + SafeFilename(name) + ".png";
    assert (x + "_" + tail)[..|x|] == x;
    x + "_" + SafeFilename(name) + ".png"
  }

  /** The length of the run of digits `s` starts with. */
  function DigitRun(s: string): nat
    ensures DigitRun(s) <= |s|
  {
    if s != [] && IsDigit(s[0]) then 1 + DigitRun(s[1..]) else 0
  }

  lemma {:induction false} DigitRunBeforeUnderscore(x: string, a: string)
    requires AllDigits(x)
    ensures DigitRun(x + "_" + a) == |x|
  {
    if x != [] {
      assert (x + "_" + a)[1..] == x[1..] + "_" + a;
      DigitRunBeforeUnderscore(x[1..], a);
    } else {
      assert x + "_" + a == "_" + a;
    }
  }

  /** The number written before the first `_` is determined by the text. */
  lemma DigitsPrefix(x: string, y: string, a: string, b: string)
    requires AllDigits(x) && AllDigits(y)
    requires x + "_" + a == y + "_" + b
    ensures x == y
  {
    var s := x + "_" + a;
    DigitRunBeforeUnderscore(x, a);
    DigitRunBeforeUnderscore(y, b);
    assert x == s[..|x|] == y;
  }

  /** Different positions in the student list give different asset files,
      whatever the names. */
  lemma AssetNameInjective(i: nat, j: nat, a: string, b: string)
    requires AssetName(i, a) == AssetName(j, b)
    ensures i == j
  {
    var x := NatToString(i);
    var y := NatToString(j);
    assert AssetName(i, a) == x + "_" + (SafeFilename(a) + ".png");
    assert AssetName(j, b) == y + "_" + (SafeFilename(b) + ".png");
    DigitsPrefix(x, y, SafeFilename(a) + ".png", SafeFilename(b) + ".png");
    NatToStringInjective(i, j);
  }
}
