/**
 * The JavaScript string operations the route handlers rely on, restricted to
 * ASCII: lower-casing, `includes`, `startsWith`, `substring(n)`, `split` on a
 * character and on `/\s+/`, `parseInt`, number-to-string conversion, and the
 * tag-stripping `replace(/<[^>]*>/g, '')`.
 */
module Text {
  import opened Common

  predicate IsDigit(c: char) {
    '0' <= c <= '9'
  }

  /** The ASCII characters matched by the regular-expression class `\s`. */
  predicate IsSpace(c: char) {
    c == ' ' || (9 <= c as int <= 13)
  }

  predicate IsUpper(c: char) {
    'A' <= c <= 'Z'
  }

  function LowerChar(c: char): char {
    if IsUpper(c) then (c as int + 32) as char else c
  }

  /** `s.toLowerCase()` on ASCII text. */
  function Lower(s: string): (r: string)
    ensures |r| == |s|
    ensures forall i | 0 <= i < |r| :: !IsUpper(r[i])
    ensures forall i | 0 <= i < |s| :: !IsUpper(s[i]) ==> r[i] == s[i]
    ensures forall i | 0 <= i < |s| :: IsUpper(s[i]) ==> r[i] as int == s[i] as int + 32
  {
    seq(|s|, i requires 0 <= i < |s| => LowerChar(s[i]))
  }

  /** Lower-casing text that is already lower case changes nothing. */
  lemma LowerIdempotent(s: string)
    ensures Lower(Lower(s)) == Lower(s)
  {
  }

  /** `t` occurs in `s` starting at index `i`. */
  predicate OccursAt(s: string, t: string, i: int) {
    0 <= i <= |s| - |t| && s[i..i + |t|] == t
  }

  /** `s.includes(t)`. */
  predicate Contains(s: string, t: string) {
    exists i | 0 <= i <= |s| - |t| :: OccursAt(s, t, i)
  }

  /** `s.startsWith(p)`. */
  predicate StartsWith(s: string, p: string) {
    |p| <= |s| && s[..|p|] == p
  }

  /** `s.substring(start)`, which clamps a start beyond the end to the empty string. */
  function Substring(s: string, start: nat): (r: string)
    ensures start <= |s| ==> s == s[..start] + r
    ensures start > |s| ==> r == ""
  {
    if start <= |s| then s[start..] else ""
  }

  // ---------------------------------------------------------------- split on one character

  /**
   * `s.split(sep)` for a one-character separator: the fields between
   * successive separators, so there is always one field more than there are
   * separators, and "" splits into [""].
   */
  function Split(s: string, sep: char): (r: seq<string>)
    ensures |r| >= 1
    ensures forall i | 0 <= i < |r| :: sep !in r[i]
  {
    if s == [] then [""]
    else
      var rest := Split(s[1..], sep);
      if s[0] == sep then [""] + rest
      else [[s[0]] + rest[0]] + rest[1..]
  }

  /** `fields.join(sep)`: the inverse of Split. */
  function Join(fields: seq<string>, sep: char): string
    requires |fields| >= 1
  {
    if |fields| == 1 then fields[0]
    else fields[0] + [sep] + Join(fields[1..], sep)
  }

  lemma {:induction false} JoinSplit(s: string, sep: char)
    ensures Join(Split(s, sep), sep) == s
  {
    if s != [] {
      JoinSplit(s[1..], sep);
      var rest := Split(s[1..], sep);
      if s[0] == sep {
        assert Split(s, sep) == [""] + rest;
        assert ([""] + rest)[1..] == rest;
        assert s == [] + [sep] + s[1..];
      } else if |rest| == 1 {
        assert s == [s[0]] + s[1..];
      } else {
        var r := Split(s, sep);
        assert r[1..] == rest[1..];
        calc {
          Join(r, sep);
          r[0] + [sep] + Join(rest[1..], sep);
          [s[0]] + (rest[0] + [sep] + Join(rest[1..], sep));
          [s[0]] + Join(rest, sep);
          [s[0]] + s[1..];
          s;
        }
      }
    }
  }

  /** A text without the separator is one field. */
  lemma {:induction false} SplitNoSep(a: string, sep: char)
    requires sep !in a
    ensures Split(a, sep) == [a]
  {
    if a != [] {
      SplitNoSep(a[1..], sep);
      assert a == [a[0]] + a[1..];
    }
  }

  /** A separator after a separator-free prefix ends the first field. */
  lemma {:induction false} SplitAtSep(a: string, sep: char, b: string)
    requires sep !in a
    ensures Split(a + [sep] + b, sep) == [a] + Split(b, sep)
  {
    var s := a + [sep] + b;
    if a == [] {
      assert s[1..] == b;
    } else {
      assert s[1..] == a[1..] + [sep] + b;
      SplitAtSep(a[1..], sep, b);
      assert a == [a[0]] + a[1..];
    }
  }

  lemma {:induction false} SplitJoin(fields: seq<string>, sep: char)
    requires |fields| >= 1
    requires forall i | 0 <= i < |fields| :: sep !in fields[i]
    ensures Split(Join(fields, sep), sep) == fields
  {
    if |fields| == 1 {
      SplitNoSep(fields[0], sep);
    } else {
      SplitJoin(fields[1..], sep);
      SplitAtSep(fields[0], sep, Join(fields[1..], sep));
      assert fields == [fields[0]] + fields[1..];
    }
  }

  // ---------------------------------------------------------------- numbers and digits

  function DigitChar(d: nat): (c: char)
    requires d < 10
    ensures IsDigit(c)
  {
    ('0' as int + d) as char
  }

  predicate AllDigits(s: string) {
    forall i | 0 <= i < |s| :: IsDigit(s[i])
  }

  /** The value of a string of decimal digits, most significant first. */
  function DigitsValue(d: string): nat
    requires AllDigits(d)
  {
    if d == [] then 0
    else 10 * DigitsValue(d[..|d| - 1]) + (d[|d| - 1] as int - '0' as int)
  }

  /** `String(n)` (or a template literal) for a non-negative integer: no leading zero. */
  function NatToString(n: nat): (r: string)
    ensures r != [] && AllDigits(r)
    ensures r[0] == '0' <==> n == 0
    ensures |r| == 1 || r[0] != '0'
  {
    if n < 10 then [DigitChar(n)] else NatToString(n / 10) + [DigitChar(n % 10)]
  }

  /** A digit string whose first digit is not `0` has a positive value. */
  lemma {:induction false} DigitsValuePositive(d: string)
    requires d != [] && AllDigits(d) && d[0] != '0'
    ensures DigitsValue(d) >= 1
  {
    if |d| > 1 {
      var p := d[..|d| - 1];
      assert p[0] == d[0];
      DigitsValuePositive(p);
    }
  }

  /**
   * The printed form is the only digit string without a leading zero that has
   * the number's value: printing the value of such a string gives it back.
   */
  lemma {:induction false} NatToStringCanonical(d: string)
    requires d != [] && AllDigits(d) && (|d| == 1 || d[0] != '0')
    ensures NatToString(DigitsValue(d)) == d
  {
    var c := d[|d| - 1] as int - '0' as int;
    if |d| == 1 {
      assert DigitsValue(d) == c;
      assert [DigitChar(c)] == d;
    } else {
      var p := d[..|d| - 1];
      assert p[0] == d[0];
      DigitsValuePositive(p);
      NatToStringCanonical(p);
      var n := DigitsValue(d);
      assert n == 10 * DigitsValue(p) + c;
      assert n / 10 == DigitsValue(p) && n % 10 == c;
      assert d == p + [DigitChar(c)];
    }
  }

  lemma {:induction false} NatToStringValue(n: nat)
    ensures DigitsValue(NatToString(n)) == n
  {
    var r := NatToString(n);
    if n >= 10 {
      NatToStringValue(n / 10);
      assert r[..|r| - 1] == NatToString(n / 10);
    }
  }

  /** The longest prefix of `s` made of decimal digits. */
  function LeadingDigits(s: string): (r: string)
    ensures r <= s && AllDigits(r)
    ensures |r| < |s| ==> !IsDigit(s[|r|])
  {
    if s == [] || !IsDigit(s[0]) then [] else [s[0]] + LeadingDigits(s[1..])
  }

  /**
   * `parseInt(s)` for text that is a plain decimal number, possibly followed
   * by other text: the value of the leading decimal digits, None (standing
   * for NaN) when there are none. JavaScript's parseInt also skips leading
   * white space, reads a sign, and reads a "0x" prefix as hexadecimal; this
   * reading does none of that.
   */
  function ParseInt(s: string): (r: Option<nat>)
    ensures r.None? <==> s == [] || !IsDigit(s[0])
  {
    var d := LeadingDigits(s);
    if d == [] then None else Some(DigitsValue(d))
  }

  lemma {:induction false} LeadingDigitsOfDigits(d: string, rest: string)
    requires AllDigits(d)
    requires rest == [] || !IsDigit(rest[0])
    ensures LeadingDigits(d + rest) == d
  {
    if d != [] {
      assert (d + rest)[1..] == d[1..] + rest;
      LeadingDigitsOfDigits(d[1..], rest);
      assert d == [d[0]] + d[1..];
    } else {
      assert d + rest == rest;
    }
  }

  /** parseInt reads back a printed number, whatever non-digit text follows it. */
  lemma ParseIntOfNat(n: nat, rest: string)
    requires rest == [] || !IsDigit(rest[0])
    ensures ParseInt(NatToString(n) + rest) == Some(n)
  {
    LeadingDigitsOfDigits(NatToString(n), rest);
    NatToStringValue(n);
  }

  // ---------------------------------------------------------------- removing markup

  /** The index of the first occurrence of `c` in `s`. */
  function IndexOf(s: string, c: char): (k: nat)
    requires c in s
    ensures k < |s| && s[k] == c && c !in s[..k]
  {
    if s[0] == c then 0 else 1 + IndexOf(s[1..], c)
  }

  /** No `<` is followed, anywhere later, by a `>`: the pattern `<[^>]*>` has no match. */
  predicate NoTag(s: string) {
    forall i, j | 0 <= i < j < |s| :: s[i] == '<' ==> s[j] != '>'
  }

  /**
   * `s.replace(/<[^>]*>/g, '')`: scanning left to right, each `<` that has a
   * `>` somewhere after it is deleted together with everything up to and
   * including the first such `>`; a `<` with no `>` after it is kept.
   */
  function StripTags(s: string): (r: string)
    ensures |r| <= |s|
    ensures forall i | 0 <= i < |r| :: r[i] in s
    ensures NoTag(r)
  {
    if s == [] then []
    else if s[0] == '<' && '>' in s[1..] then
      var k := IndexOf(s[1..], '>');
      var r := StripTags(s[k + 2..]);
      assert forall i | 0 <= i < |r| :: r[i] in s by {
        forall i | 0 <= i < |r| ensures r[i] in s {
          var j :| 0 <= j < |s[k + 2..]| && s[k + 2..][j] == r[i];
          assert s[k + 2 + j] == r[i];
        }
      }
      r
    else
      var r := StripTags(s[1..]);
      assert forall i | 0 <= i < |r| :: r[i] in s[1..];
      [s[0]] + r
  }

  /** Text without a tag is left as it is, so stripping twice is stripping once. */
  lemma {:induction false} StripTagsNoTag(s: string)
    requires NoTag(s)
    ensures StripTags(s) == s
  {
    if s != [] {
      assert !(s[0] == '<' && '>' in s[1..]);
      assert NoTag(s[1..]) by {
        forall i, j | 0 <= i < j < |s[1..]| ensures s[1..][i] == '<' ==> s[1..][j] != '>' {
          assert s[1..][i] == s[i + 1] && s[1..][j] == s[j + 1];
        }
      }
      StripTagsNoTag(s[1..]);
      assert s == [s[0]] + s[1..];
    }
  }

  /** Text before the first `<` is kept as it is. */
  lemma {:induction false} StripTagsPlain(a: string, b: string)
    requires '<' !in a
    ensures StripTags(a + b) == a + StripTags(b)
  {
    if a == [] {
      assert a + b == b;
    } else {
      var s := a + b;
      assert s[0] == a[0] && s[1..] == a[1..] + b;
      StripTagsPlain(a[1..], b);
      assert a == [a[0]] + a[1..];
    }
  }

  /** A tag, a `<` up to the first `>` after it, is removed together with its contents. */
  lemma StripTagsTag(m: string, b: string)
    requires '>' !in m
    ensures StripTags(['<'] + m + ['>'] + b) == StripTags(b)
  {
    var s := ['<'] + m + ['>'] + b;
    var t := s[1..];
    assert t == m + ['>'] + b;
    assert t[|m|] == '>' && t[..|m|] == m;
    var k := IndexOf(t, '>');
    assert forall i | 0 <= i < |m| :: t[i] == m[i];
    assert forall i | 0 <= i < k :: t[..k][i] == t[i];
    assert k == |m|;
    assert s[k + 2..] == b;
  }

  lemma StripTagsIdempotent(s: string)
    ensures StripTags(StripTags(s)) == StripTags(s)
  {
    StripTagsNoTag(StripTags(s));
  }

  // ---------------------------------------------------------------- split on white space

  /** `s` without its leading run of white space. */
  function SkipSpaces(s: string): (r: string)
    ensures |r| <= |s| && (r == [] || !IsSpace(r[0]))
    ensures s[|s| - |r|..] == r
    ensures forall i | 0 <= i < |s| - |r| :: IsSpace(s[i])
  {
    if s == [] || !IsSpace(s[0]) then s else SkipSpaces(s[1..])
  }

  /** The characters of `s` that are not white space, in order. */
  function RemoveSpaces(s: string): string {
    if s == [] then []
    else (if IsSpace(s[0]) then [] else [s[0]]) + RemoveSpaces(s[1..])
  }

  function Concat(fields: seq<string>): string {
    if fields == [] then [] else fields[0] + Concat(fields[1..])
  }

  /**
   * `s.split(/\s+/)`: every maximal run of white space separates two fields,
   * so a leading or trailing run yields an empty first or last field and ""
   * splits into [""].
   */
  function SplitWhitespace(s: string): (r: seq<string>)
    ensures |r| >= 1
    ensures forall i | 0 <= i < |r| :: forall j | 0 <= j < |r[i]| :: !IsSpace(r[i][j])
  {
    if s == [] then [""]
    else if IsSpace(s[0]) then [""] + SplitWhitespace(SkipSpaces(s))
    else
      var rest := SplitWhitespace(s[1..]);
      [[s[0]] + rest[0]] + rest[1..]
  }

  /** A word with no white space in it joins the first field of what follows. */
  lemma {:induction false} SplitWhitespaceWord(a: string, b: string)
    requires forall i | 0 <= i < |a| :: !IsSpace(a[i])
    ensures SplitWhitespace(a + b) == [a + SplitWhitespace(b)[0]] + SplitWhitespace(b)[1..]
  {
    var r := SplitWhitespace(b);
    if a == [] {
      assert a + b == b && a + r[0] == r[0];
      assert r == [r[0]] + r[1..];
    } else {
      var s := a + b;
      assert s[0] == a[0] && s[1..] == a[1..] + b;
      SplitWhitespaceWord(a[1..], b);
      assert [a[0]] + (a[1..] + SplitWhitespace(b)[0]) == a + SplitWhitespace(b)[0];
    }
  }

  /** A maximal run of white space ends a field: what follows starts the next one. */
  lemma SplitWhitespaceRun(w: string, b: string)
    requires w != [] && forall i | 0 <= i < |w| :: IsSpace(w[i])
    requires b == [] || !IsSpace(b[0])
    ensures SplitWhitespace(w + b) == [""] + SplitWhitespace(b)
  {
    var s := w + b;
    assert s[0] == w[0];
    SkipSpacesRun(w, b);
  }

  lemma {:induction false} SkipSpacesRun(w: string, b: string)
    requires forall i | 0 <= i < |w| :: IsSpace(w[i])
    requires b == [] || !IsSpace(b[0])
    ensures SkipSpaces(w + b) == b
  {
    if w == [] {
      assert w + b == b;
    } else {
      var s := w + b;
      assert s[0] == w[0] && s[1..] == w[1..] + b;
      SkipSpacesRun(w[1..], b);
    }
  }

  /** Position `i` of `s` starts a maximal run of white space. */
  predicate RunStart(s: string, i: int) {
    0 <= i < |s| && IsSpace(s[i]) && (i == 0 || !IsSpace(s[i - 1]))
  }

  /** The number of maximal runs of white space in `s`. */
  function Runs(s: string): nat {
    |set i | 0 <= i < |s| && RunStart(s, i)|
  }

  /** The number of runs that start at `from` or later. */
  function RunsFrom(s: string, from: nat): nat
    decreases |s| - from
  {
    if from >= |s| then 0 else (if RunStart(s, from) then 1 else 0) + RunsFrom(s, from + 1)
  }

  lemma {:induction false} RunsFromSet(s: string, from: nat)
    ensures RunsFrom(s, from) == |set i | from <= i < |s| && RunStart(s, i)|
    decreases |s| - from
  {
    var here := set i | from <= i < |s| && RunStart(s, i);
    if from >= |s| {
      assert here == {};
    } else {
      RunsFromSet(s, from + 1);
      var later := set i | from + 1 <= i < |s| && RunStart(s, i);
      if RunStart(s, from) {
        assert here == {from} + later;
      } else {
        assert here == later;
      }
    }
  }

  /** Past the first position of a suffix, the suffix has the same run starts. */
  lemma {:induction false} RunsFromShift(s: string, k: nat, j: nat)
    requires k <= |s| && j >= 1
    ensures RunsFrom(s, k + j) == RunsFrom(s[k..], j)
    decreases |s| - k - j
  {
    if k + j < |s| {
      assert RunStart(s, k + j) == RunStart(s[k..], j);
      RunsFromShift(s, k, j + 1);
    }
  }

  /** Inside a run, after its first position, no run starts. */
  lemma {:induction false} RunsFromInsideRun(s: string, j: nat, d: nat)
    requires 1 <= j <= d <= |s|
    requires forall i | 0 <= i < d :: IsSpace(s[i])
    ensures RunsFrom(s, j) == RunsFrom(s, d)
    decreases d - j
  {
    if j < d {
      assert !RunStart(s, j);
      RunsFromInsideRun(s, j + 1, d);
    }
  }

  /** `s.split(/\s+/)` has one field more than `s` has runs of white space. */
  lemma {:induction false} SplitWhitespaceCountFrom(s: string)
    ensures |SplitWhitespace(s)| == 1 + RunsFrom(s, 0)
    decreases |s|
  {
    if s != [] {
      if IsSpace(s[0]) {
        var t := SkipSpaces(s);
        var d := |s| - |t|;
        assert t == s[d..];
        SplitWhitespaceCountFrom(t);
        assert RunStart(s, 0);
        RunsFromInsideRun(s, 1, d);
        if d < |s| {
          assert !RunStart(s, d) && !RunStart(t, 0);
          RunsFromShift(s, d, 1);
        }
      } else {
        SplitWhitespaceCountFrom(s[1..]);
        assert !RunStart(s, 0);
        if 1 < |s| {
          assert RunStart(s, 1) == RunStart(s[1..], 0);
          RunsFromShift(s, 1, 1);
        }
      }
    }
  }

  lemma SplitWhitespaceCount(s: string)
    ensures |SplitWhitespace(s)| == 1 + Runs(s)
  {
    SplitWhitespaceCountFrom(s);
    RunsFromSet(s, 0);
  }

  lemma {:induction false} RemoveLeadingSpaces(s: string)
    ensures RemoveSpaces(s) == RemoveSpaces(SkipSpaces(s))
  {
    if s != [] && IsSpace(s[0]) {
      RemoveLeadingSpaces(s[1..]);
    }
  }

  /** Splitting on white space loses only the white space. */
  lemma {:induction false} SplitWhitespaceKeepsText(s: string)
    ensures Concat(SplitWhitespace(s)) == RemoveSpaces(s)
  {
    if s != [] {
      if IsSpace(s[0]) {
        var t := SkipSpaces(s);
        assert |t| < |s|;
        SplitWhitespaceKeepsText(t);
        RemoveLeadingSpaces(s);
        var r := [""] + SplitWhitespace(t);
        assert r[1..] == SplitWhitespace(t);
      } else {
        SplitWhitespaceKeepsText(s[1..]);
        var rest := SplitWhitespace(s[1..]);
        var r := [[s[0]] + rest[0]] + rest[1..];
        assert r[1..] == rest[1..];
        assert Concat(rest) == rest[0] + Concat(rest[1..]);
      }
    }
  }
}
