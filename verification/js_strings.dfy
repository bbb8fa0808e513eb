/** The JavaScript string and array primitives the validator calls, over
    `seq<char>`: `split` on one separator character, `startsWith`,
    `indexOf`, first-occurrence `replace`, `trim`, `toLowerCase`, and
    `Array.prototype.find` with a `startsWith` test. */
module JsStrings {
  import opened Options

  /* ---------------------------------------------------------------------
     Truthiness
     --------------------------------------------------------------------- */

  /** JavaScript truthiness of a value that is either `undefined` or a
      string: `undefined` and `""` are falsy, every other string is truthy. */
  predicate Truthy(o: Option<string>) {
    o.Some? && o.value != ""
  }

  /* ---------------------------------------------------------------------
     split
     --------------------------------------------------------------------- */

  /** Joins the pieces back together with `sep` between consecutive pieces;
      the inverse of `Split`. */
  function Join(pieces: seq<string>, sep: char): string
  {
    if |pieces| == 0 then ""
    else if |pieces| == 1 then pieces[0]
    else pieces[0] + [sep] + Join(pieces[1..], sep)
  }

  /** `s.split(sep)` for a one-character separator: the maximal runs of
      characters between separators, in order. There is always at least one
      piece (`"".split("\n")` is `[""]`), and a trailing separator yields a
      trailing empty piece. */
  function Split(s: string, sep: char): (pieces: seq<string>)
    ensures |pieces| >= 1
    ensures forall i :: 0 <= i < |pieces| ==> sep !in pieces[i]
    ensures Join(pieces, sep) == s
    decreases |s|
  {
    if |s| == 0 then [""]
    else if s[0] == sep then [""] + Split(s[1..], sep)
    else
      var rest := Split(s[1..], sep);
      [[s[0]] + rest[0]] + rest[1..]
  }

  /** Splitting a joined sequence of separator-free pieces gives the pieces
      back: every such sequence is the split of exactly one string. */
  lemma {:induction false} SplitJoin(pieces: seq<string>, sep: char)
    requires |pieces| >= 1
    requires forall i :: 0 <= i < |pieces| ==> sep !in pieces[i]
    ensures Split(Join(pieces, sep), sep) == pieces
    decreases |pieces|, |pieces[0]|
  {
    var p := pieces[0];
    if |pieces| == 1 {
      SplitOfSeparatorFree(p, sep);
    } else if |p| == 0 {
      var tail := pieces[1..];
      assert Join(pieces, sep) == [sep] + Join(tail, sep);
      SplitJoin(tail, sep);
      assert Join(pieces, sep)[1..] == Join(tail, sep);
    } else {
      var shorter := [p[1..]] + pieces[1..];
      assert shorter[1..] == pieces[1..];
      assert sep !in shorter[0] by { assert forall c :: c in p[1..] ==> c in p; }
      assert Join(pieces, sep) == [p[0]] + Join(shorter, sep);
      SplitJoin(shorter, sep);
      assert Join(pieces, sep)[1..] == Join(shorter, sep);
      assert [p[0]] + p[1..] == p;
    }
  }

  /** A string without the separator splits into itself alone. */
  lemma {:induction false} SplitOfSeparatorFree(s: string, sep: char)
    requires sep !in s
    ensures Split(s, sep) == [s]
    decreases |s|
  {
    if |s| > 0 {
      assert sep !in s[1..] by { assert forall c :: c in s[1..] ==> c in s; }
      SplitOfSeparatorFree(s[1..], sep);
      assert [s[0]] + s[1..] == s;
    }
  }

  /* ---------------------------------------------------------------------
     startsWith, indexOf, replace
     --------------------------------------------------------------------- */

  /** `s.startsWith(p)`. */
  predicate StartsWith(s: string, p: string) {
    |p| <= |s| && s[..|p|] == p
  }

  /** `p` occurs in `s` starting at position `j`. */
  predicate OccursAt(s: string, p: string, j: int) {
    0 <= j && j + |p| <= |s| && s[j..j + |p|] == p
  }

  /** `p` occurs somewhere in `s` (`s.includes(p)`). */
  ghost predicate Contains(s: string, p: string) {
    exists j :: OccursAt(s, p, j)
  }

  /** `s.indexOf(p, k)`: the first position at or after `k` where `p`
      occurs, or None where JavaScript returns -1. */
  function IndexOfFrom(s: string, p: string, k: nat): (r: Option<nat>)
    requires k <= |s|
    ensures r.Some? ==> k <= r.value && OccursAt(s, p, r.value)
    ensures forall j :: k <= j && (r.Some? ==> j < r.value) ==> !OccursAt(s, p, j)
    decreases |s| - k
  {
    if k + |p| > |s| then None
    else if s[k..k + |p|] == p then Some(k)
    else IndexOfFrom(s, p, k + 1)
  }

  /** `s.indexOf(p)`. */
  function IndexOf(s: string, p: string): (r: Option<nat>)
    ensures r.Some? ==> OccursAt(s, p, r.value)
    ensures forall j :: (r.Some? ==> j < r.value) ==> !OccursAt(s, p, j)
  {
    IndexOfFrom(s, p, 0)
  }

  /** `s.replace(p, rep)` with a string pattern: only the first occurrence
      of `p` is replaced, and `s` is returned unchanged when `p` does not
      occur. The replacement is inserted literally (the `$`-patterns of a
      replacement string do not occur in this model's uses, where `rep` is
      empty). */
  function ReplaceFirst(s: string, p: string, rep: string): (r: string)
    ensures !Contains(s, p) ==> r == s
    ensures Contains(s, p) ==> |r| == |s| - |p| + |rep|
  {
    match IndexOf(s, p)
    case None => s
    case Some(i) => s[..i] + rep + s[i + |p|..]
  }

  /** Replacing splices `rep` in place of the first occurrence of `p`: the
      text before it and the text after it are kept unchanged. */
  lemma ReplaceAtFirstOccurrence(s: string, p: string, rep: string, i: nat)
    requires OccursAt(s, p, i)
    requires forall j :: 0 <= j < i ==> !OccursAt(s, p, j)
    ensures ReplaceFirst(s, p, rep) == s[..i] + rep + s[i + |p|..]
  {
    var k := IndexOf(s, p);
    // No occurrence precedes `i`, so the search neither stops earlier nor
    // runs past it.
    assert (k.Some? ==> i < k.value) ==> !OccursAt(s, p, i);
    assert k.Some? && k.value <= i;
    assert OccursAt(s, p, k.value);
    assert k == Some(i);
  }

  /** When `s` starts with `p`, replacing the first `p` by nothing is the same
      as dropping the first `|p|` characters. */
  lemma ReplaceLeadingOccurrence(s: string, p: string)
    requires StartsWith(s, p)
    ensures ReplaceFirst(s, p, "") == s[|p|..]
  {
    ReplaceAtFirstOccurrence(s, p, "", 0);
    assert s[..0] + "" + s[|p|..] == s[|p|..];
  }

  /* ---------------------------------------------------------------------
     trim
     --------------------------------------------------------------------- */

  /** The characters `String.prototype.trim` strips: ECMAScript's WhiteSpace
      (tab, vertical tab, form feed, zero-width no-break space and every
      space separator of Unicode category Zs) and LineTerminator (line feed,
      carriage return, line separator, paragraph separator). */
  predicate IsWhitespace(c: char) {
    || c == '\t' || c == '\n' || c == '\U{000B}' || c == '\U{000C}' || c == '\r'
    || c == ' ' || c == '\U{00A0}' || c == '\U{1680}'
    || ('\U{2000}' <= c <= '\U{200A}')
    || c == '\U{2028}' || c == '\U{2029}' || c == '\U{202F}' || c == '\U{205F}'
    || c == '\U{3000}' || c == '\U{FEFF}'
  }

  predicate AllWhitespace(s: string) {
    forall i :: 0 <= i < |s| ==> IsWhitespace(s[i])
  }

  /** Neither the first nor the last character is whitespace. */
  predicate IsTrimmed(s: string) {
    |s| > 0 ==> !IsWhitespace(s[0]) && !IsWhitespace(s[|s| - 1])
  }

  /** `s.trimStart()`: the longest suffix of `s` that does not start with
      whitespace; what is dropped is all whitespace. */
  function TrimStart(s: string): (r: string)
    ensures |r| <= |s| && r == s[|s| - |r|..]
    ensures AllWhitespace(s[..|s| - |r|])
    ensures |r| > 0 ==> !IsWhitespace(r[0])
    decreases |s|
  {
    if |s| > 0 && IsWhitespace(s[0]) then TrimStart(s[1..]) else s
  }

  /** `s.trimEnd()`: the longest prefix of `s` that does not end with
      whitespace; what is dropped is all whitespace. */
  function TrimEnd(s: string): (r: string)
    ensures |r| <= |s| && r == s[..|r|]
    ensures AllWhitespace(s[|r|..])
    ensures |r| > 0 ==> !IsWhitespace(r[|r| - 1])
    decreases |s|
  {
    if |s| > 0 && IsWhitespace(s[|s| - 1]) then TrimEnd(s[..|s| - 1]) else s
  }

  /** `s.trim()`: `s` with leading and trailing whitespace removed; the
      result neither starts nor ends with whitespace. */
  function Trim(s: string): (r: string)
    ensures |r| <= |s|
    ensures IsTrimmed(r)
  {
    var t := TrimStart(s);
    var r := TrimEnd(t);
    assert |r| > 0 ==> r[0] == t[0];
    r
  }

  /** What `Trim` keeps is the block of `s` starting at `i`, with only
      whitespace on either side of it. */
  lemma TrimShape(s: string) returns (i: nat)
    ensures i + |Trim(s)| <= |s| && s[i..i + |Trim(s)|] == Trim(s)
    ensures AllWhitespace(s[..i]) && AllWhitespace(s[i + |Trim(s)|..])
  {
    var t := TrimStart(s);
    var r := TrimEnd(t);
    i := |s| - |t|;
    assert r == Trim(s);
    assert AllWhitespace(s[..i]);
    assert t == s[i..] && r == t[..|r|] && AllWhitespace(t[|r|..]);
    SlicesOfSuffix(s, i, |r|);
  }

  /** Slicing a suffix of `s` is slicing `s` itself, shifted by `i`. */
  lemma SlicesOfSuffix(s: string, i: nat, k: nat)
    requires i + k <= |s|
    ensures s[i..][..k] == s[i..i + k]
    ensures s[i..][k..] == s[i + k..]
  {
  }

  /** Leading whitespace in front of a block that does not start with
      whitespace is exactly what `TrimStart` removes. */
  lemma {:induction false} TrimStartOfPadded(a: string, t: string)
    requires AllWhitespace(a)
    requires |t| > 0 ==> !IsWhitespace(t[0])
    ensures TrimStart(a + t) == (if |t| == 0 then "" else t)
    decreases |a|
  {
    if |a| > 0 {
      assert (a + t)[1..] == a[1..] + t;
      TrimStartOfPadded(a[1..], t);
    } else {
      assert a + t == t;
      if |t| == 0 {
        assert TrimStart(t) == "";
      }
    }
  }

  /** Trailing whitespace after a block that does not end with whitespace is
      exactly what `TrimEnd` removes. */
  lemma {:induction false} TrimEndOfPadded(t: string, b: string)
    requires AllWhitespace(b)
    requires |t| > 0 ==> !IsWhitespace(t[|t| - 1])
    ensures TrimEnd(t + b) == t
    decreases |b|
  {
    if |b| > 0 {
      assert (t + b)[..|t + b| - 1] == t + b[..|b| - 1];
      TrimEndOfPadded(t, b[..|b| - 1]);
    } else {
      assert t + b == t;
    }
  }

  /** Trim is determined by the decomposition: whenever `s` is whitespace,
      then a trimmed block, then whitespace, `Trim(s)` is that block. */
  lemma TrimOfPadded(a: string, m: string, b: string)
    requires AllWhitespace(a) && AllWhitespace(b) && IsTrimmed(m)
    ensures Trim(a + m + b) == m
  {
    if |m| == 0 {
      assert a + m + b == a + b;
      assert AllWhitespace(a + b);
      TrimStartOfPadded(a + b, "");
      assert a + b + "" == a + b;
    } else {
      assert a + m + b == a + (m + b);
      TrimStartOfPadded(a, m + b);
      TrimEndOfPadded(m, b);
    }
  }

  /** Trimming twice is trimming once. */
  lemma TrimIdempotent(s: string)
    ensures Trim(Trim(s)) == Trim(s)
  {
    var t := Trim(s);
    TrimOfPadded("", t, "");
    assert "" + t + "" == t;
  }

  /* ---------------------------------------------------------------------
     toLowerCase
     --------------------------------------------------------------------- */

  predicate IsUpperAscii(c: char) {
    'A' <= c <= 'Z'
  }

  /** Lower-cases one character: ASCII capitals map to their small letters,
      every other character is left alone. */
  function LowerChar(c: char): char {
    if IsUpperAscii(c) then (c as int + 32) as char else c
  }

  /** No character of `s` is an ASCII capital. */
  predicate IsLowerCase(s: string) {
    forall i :: 0 <= i < |s| ==> !IsUpperAscii(s[i])
  }

  /** `s.toLowerCase()` on ASCII letters: the result has no capitals and
      agrees with `s` position by position up to letter case. */
  function ToLower(s: string): (r: string)
    ensures |r| == |s|
    ensures IsLowerCase(r)
    ensures forall i :: 0 <= i < |s| ==> r[i] == s[i] || (IsUpperAscii(s[i]) && r[i] as int == s[i] as int + 32)
  {
    seq(|s|, i requires 0 <= i < |s| => LowerChar(s[i]))
  }

  /** A string is left unchanged by lower-casing exactly when it has no
      capitals; in particular lower-casing is idempotent. */
  lemma ToLowerFixpoint(s: string)
    ensures ToLower(s) == s <==> IsLowerCase(s)
    ensures ToLower(ToLower(s)) == ToLower(s)
  {
    if ToLower(s) == s {
      assert IsLowerCase(s);
    }
    if IsLowerCase(s) {
      assert forall i :: 0 <= i < |s| ==> ToLower(s)[i] == s[i];
    }
    var t := ToLower(s);
    assert forall i :: 0 <= i < |t| ==> ToLower(t)[i] == t[i];
  }

  /* ---------------------------------------------------------------------
     Array.prototype.find with startsWith
     --------------------------------------------------------------------- */

  /** The index of the first of `lines` that starts with `p`, at or after `k`. */
  function FirstIndexFrom(lines: seq<string>, p: string, k: nat): (r: Option<nat>)
    requires k <= |lines|
    ensures r.Some? ==> k <= r.value < |lines| && StartsWith(lines[r.value], p)
    ensures forall j :: k <= j < |lines| && (r.Some? ==> j < r.value) ==> !StartsWith(lines[j], p)
    decreases |lines| - k
  {
    if k == |lines| then None
    else if StartsWith(lines[k], p) then Some(k)
    else FirstIndexFrom(lines, p, k + 1)
  }

  /** The index of the first of `lines` that starts with `p`, if any. */
  function FirstIndex(lines: seq<string>, p: string): (r: Option<nat>)
    ensures r.Some? ==> r.value < |lines| && StartsWith(lines[r.value], p)
    ensures forall j :: 0 <= j < |lines| && (r.Some? ==> j < r.value) ==> !StartsWith(lines[j], p)
  {
    FirstIndexFrom(lines, p, 0)
  }

  /** `lines.find(line => line.startsWith(p))`: the first line starting with
      `p`, or None (`undefined`) when there is none. */
  function FindStartingWith(lines: seq<string>, p: string): (r: Option<string>)
    ensures r.None? <==> forall j :: 0 <= j < |lines| ==> !StartsWith(lines[j], p)
    ensures r.Some? ==> StartsWith(r.value, p) && r.value in lines
  {
    match FirstIndex(lines, p)
    case None => None
    case Some(i) => Some(lines[i])
  }

  /** `find` returns the first line starting with `p`: whenever line `i`
      starts with `p` and no earlier line does, that line is the result. */
  lemma FindIsFirst(lines: seq<string>, p: string, i: nat)
    requires i < |lines| && StartsWith(lines[i], p)
    requires forall j :: 0 <= j < i ==> !StartsWith(lines[j], p)
    ensures FindStartingWith(lines, p) == Some(lines[i])
  {
    var k := FirstIndex(lines, p);
    // No line before `i` matches, so the search neither stops earlier nor
    // runs past it.
    assert k.Some? && k.value <= i;
    assert StartsWith(lines[k.value], p);
    assert k == Some(i);
  }

  /** A line found by a non-empty prefix is never the empty string, so the
      truthiness test on the result of `find` is exactly "a line was found". */
  lemma FoundLineIsTruthy(lines: seq<string>, p: string)
    requires p != ""
    ensures Truthy(FindStartingWith(lines, p)) <==> FindStartingWith(lines, p).Some?
  {
  }

  /** Two line sequences that agree on their first `n` lines, among which a
      line starts with `p`, have the same first line starting with `p`. */
  lemma {:induction false} FirstIndexOfSharedPrefix(a: seq<string>, b: seq<string>, p: string, n: nat)
    requires n <= |a| && n <= |b| && a[..n] == b[..n]
    requires exists j :: 0 <= j < n && StartsWith(a[j], p)
    ensures FirstIndex(a, p) == FirstIndex(b, p)
    ensures FirstIndex(a, p).Some? && FirstIndex(a, p).value < n
  {
    var j :| 0 <= j < n && StartsWith(a[j], p);
    assert a[j] == a[..n][j];
    var ia := FirstIndex(a, p);
    var ib := FirstIndex(b, p);
    assert ia.Some? && ia.value <= j;
    assert a[ia.value] == b[ia.value] by { assert a[..n][ia.value] == b[..n][ia.value]; }
    assert StartsWith(b[j], p) by { assert b[..n][j] == a[..n][j]; }
    assert ib.Some? && ib.value <= j;
    assert a[ib.value] == b[ib.value] by { assert a[..n][ib.value] == b[..n][ib.value]; }
  }
}
