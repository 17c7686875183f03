/** The JavaScript string built-ins the application relies on, for the cases it uses:
    `indexOf`, `split` and `join` with a non-empty separator, `replace` with a string
    pattern (first occurrence only), `padStart`, and the decimal rendering of a
    non-negative integer (`toString()` / template interpolation).
 */
module JsStrings {
  import opened Wrappers

  /** True when `pat` occurs in `s` starting at index `i`. */
  predicate OccursAt(s: string, pat: string, i: nat) {
    i + |pat| <= |s| && s[i..i + |pat|] == pat
  }

  /** True when `pat` occurs somewhere in `s`. */
  predicate Contains(s: string, pat: string) {
    exists i: nat | i <= |s| :: OccursAt(s, pat, i)
  }

  /** `i` is the leftmost occurrence of `pat` in `s`. */
  predicate FirstOccurrence(s: string, pat: string, i: nat) {
    OccursAt(s, pat, i) && forall j: nat :: j < i ==> !OccursAt(s, pat, j)
  }

  /** `s.indexOf(pat, from)`: scans left to right from `from`. */
  function IndexOfFrom(s: string, pat: string, from: nat): (r: Option<nat>)
    ensures r.Some? ==> from <= r.value && OccursAt(s, pat, r.value)
    ensures r.Some? ==> forall j: nat :: from <= j < r.value ==> !OccursAt(s, pat, j)
    ensures r.None? ==> forall j: nat :: from <= j ==> !OccursAt(s, pat, j)
    decreases |s| - from
  {
    if from + |pat| > |s| then None
    else if s[from..from + |pat|] == pat then Some(from)
    else IndexOfFrom(s, pat, from + 1)
  }

  /** `s.indexOf(pat)`: the leftmost occurrence, or None for JavaScript's -1. */
  function IndexOf(s: string, pat: string): (r: Option<nat>)
    ensures r.Some? <==> Contains(s, pat)
    ensures r.Some? ==> FirstOccurrence(s, pat, r.value)
  {
    IndexOfFrom(s, pat, 0)
  }

  /** `s.split(sep)` for a non-empty separator: the pieces between
      successive non-overlapping occurrences, scanned left to right. */
  function Split(s: string, sep: string): (parts: seq<string>)
    requires |sep| > 0
    ensures |parts| >= 1
    ensures forall k :: 0 <= k < |parts| ==> !Contains(parts[k], sep)
    decreases |s|
  {
    match IndexOf(s, sep)
    case None => [s]
    case Some(i) =>
      PrefixBeforeFirstIsFree(s, sep, i);
      [s[..i]] + Split(s[i + |sep|..], sep)
  }

  /** `parts.join(sep)`; joining no parts gives the empty string. */
  function Join(parts: seq<string>, sep: string): string
  {
    if |parts| == 0 then ""
    else if |parts| == 1 then parts[0]
    else parts[0] + sep + Join(parts[1..], sep)
  }

  /** `s.replace(pat, rep)` with a string pattern: only the leftmost
      occurrence is replaced. */
  function ReplaceFirst(s: string, pat: string, rep: string): (r: string)
    ensures !Contains(s, pat) ==> r == s
    ensures Contains(s, pat) ==> |r| == |s| - |pat| + |rep|
  {
    match IndexOf(s, pat)
    case None => s
    case Some(i) => s[..i] + rep + s[i + |pat|..]
  }

  /** `s.padStart(width, fill)` with a one-character fill string. */
  function PadStart(s: string, width: nat, fill: char): (r: string)
    ensures |r| == if |s| >= width then |s| else width
    ensures r[|r| - |s|..] == s
    ensures forall k :: 0 <= k < |r| - |s| ==> r[k] == fill
  {
    if |s| >= width then s else seq(width - |s|, _ => fill) + s
  }

  predicate IsDigit(c: char) {
    '0' <= c <= '9'
  }

  predicate IsDigits(s: string) {
    forall k :: 0 <= k < |s| ==> IsDigit(s[k])
  }

  function DigitChar(d: nat): (c: char)
    requires d < 10
    ensures IsDigit(c)
  {
    "0123456789"[d]
  }

  /** A decimal numeral as `toString()` writes one: at least one digit, and
      no leading zero unless the numeral is "0" itself. */
  predicate IsCanonicalDecimal(s: string) {
    |s| >= 1 && IsDigits(s) && (|s| == 1 || s[0] != '0')
  }

  /** The decimal rendering of a non-negative integer, as `n.toString()`. */
  function NatToString(n: nat): (r: string)
    ensures IsCanonicalDecimal(r)
    ensures |r| == 1 <==> n < 10
    ensures r[0] == '0' ==> n == 0
  {
    if n < 10 then [DigitChar(n)] else NatToString(n / 10) + [DigitChar(n % 10)]
  }

  /** Reads a string of decimal digits back as a number (leading zeros allowed). */
  function ParseDecimal(s: string): nat
    requires IsDigits(s)
  {
    if |s| == 0 then 0
    else ParseDecimal(s[..|s| - 1]) * 10 + ((s[|s| - 1] as int) - ('0' as int))
  }

  // ---------------------------------------------------------------------------
  // Lemmas

  /** Nothing before the leftmost occurrence contains the pattern. */
  lemma PrefixBeforeFirstIsFree(s: string, pat: string, i: nat)
    requires |pat| > 0 && FirstOccurrence(s, pat, i)
    ensures !Contains(s[..i], pat)
  {
    forall j: nat | j <= i
      ensures !OccursAt(s[..i], pat, j)
    {
      if OccursAt(s[..i], pat, j) {
        assert s[..i][j..j + |pat|] == s[j..j + |pat|];
        assert OccursAt(s, pat, j);
      }
    }
  }

  /** A pattern whose first character does not occur in `s` does not occur in `s`. */
  lemma FreeOfFirstChar(s: string, pat: string)
    requires |pat| > 0 && pat[0] !in s
    ensures !Contains(s, pat)
  {
  }

  /** If the separator's first character is absent from `a`, the leftmost
      occurrence of the separator in `a + sep + b` is right after `a`. */
  lemma IndexOfAfterFree(a: string, sep: string, b: string)
    requires |sep| > 0 && sep[0] !in a
    ensures IndexOf(a + sep + b, sep) == Some(|a|)
  {
    var s := a + sep + b;
    assert s[|a|..|a| + |sep|] == sep;
    assert OccursAt(s, sep, |a|);
    forall j: nat | j < |a|
      ensures !OccursAt(s, sep, j)
    {
      assert s[j] == a[j];
      if j + |sep| <= |s| {
        assert s[j..j + |sep|][0] == s[j];
      }
    }
  }

  /** Splitting then joining with the same separator gives back the input. */
  lemma {:induction false} JoinSplit(s: string, sep: string)
    requires |sep| > 0
    ensures Join(Split(s, sep), sep) == s
    decreases |s|
  {
    var found := IndexOf(s, sep);
    if found.Some? {
      var i := found.value;
      var rest := s[i + |sep|..];
      var tail := Split(rest, sep);
      JoinSplit(rest, sep);
      assert Split(s, sep) == [s[..i]] + tail;
      assert Join([s[..i]] + tail, sep) == s[..i] + sep + Join(tail, sep) by {
        assert ([s[..i]] + tail)[1..] == tail;
      }
      assert s[i..i + |sep|] == sep;
      assert s == s[..i] + s[i..i + |sep|] + rest;
    }
  }

  /** Joining then splitting with the same separator gives back the parts,
      provided no part contains the separator's first character. */
  lemma {:induction false} SplitJoin(parts: seq<string>, sep: string)
    requires |sep| > 0 && |parts| >= 1
    requires forall k :: 0 <= k < |parts| ==> sep[0] !in parts[k]
    ensures Split(Join(parts, sep), sep) == parts
  {
    if |parts| == 1 {
      SplitWithout(parts[0], sep);
    } else {
      var rest := Join(parts[1..], sep);
      assert Join(parts, sep) == parts[0] + sep + rest;
      SplitAfterFree(parts[0], sep, rest);
      SplitJoin(parts[1..], sep);
      assert parts == [parts[0]] + parts[1..];
    }
  }

  /** A string without the pattern is split into itself alone. */
  lemma SplitWithout(s: string, sep: string)
    requires |sep| > 0 && sep[0] !in s
    ensures Split(s, sep) == [s]
  {
  }

  /** Splitting at a separator preceded by a free piece peels that piece off. */
  lemma SplitAfterFree(a: string, sep: string, b: string)
    requires |sep| > 0 && sep[0] !in a
    ensures Split(a + sep + b, sep) == [a] + Split(b, sep)
  {
    IndexOfAfterFree(a, sep, b);
    var s := a + sep + b;
    assert s[..|a|] == a;
    assert s[|a| + |sep|..] == b;
  }

  /** A one-character pattern occurs only if its character does. */
  lemma NotContainsChar(s: string, c: char)
    requires !Contains(s, [c])
    ensures c !in s
  {
    if c in s {
      var k :| 0 <= k < |s| && s[k] == c;
      assert s[k..k + 1] == [c];
      assert OccursAt(s, [c], k);
    }
  }

  /** A character absent from the input is absent from every piece of a split. */
  lemma {:induction false} SplitPartsFree(s: string, sep: string, c: char)
    requires |sep| > 0 && c !in s
    ensures forall k :: 0 <= k < |Split(s, sep)| ==> c !in Split(s, sep)[k]
    decreases |s|
  {
    var found := IndexOf(s, sep);
    if found.Some? {
      var i := found.value;
      var rest := s[i + |sep|..];
      assert c !in s[..i] && c !in rest;
      SplitPartsFree(rest, sep, c);
      assert Split(s, sep) == [s[..i]] + Split(rest, sep);
    }
  }

  /** A character absent from the parts and the separator is absent from the join. */
  lemma {:induction false} JoinFree(parts: seq<string>, sep: string, c: char)
    requires c !in sep && forall k :: 0 <= k < |parts| ==> c !in parts[k]
    ensures c !in Join(parts, sep)
  {
    if |parts| > 1 {
      var rest := parts[1..];
      assert forall k :: 0 <= k < |rest| ==> rest[k] == parts[k + 1];
      JoinFree(rest, sep, c);
    }
  }

  /** Decimal rendering and parsing are inverse. */
  lemma {:induction false} ParseNatToString(n: nat)
    ensures ParseDecimal(NatToString(n)) == n
  {
    if n >= 10 {
      var s := NatToString(n);
      assert s[..|s| - 1] == NatToString(n / 10);
      ParseNatToString(n / 10);
    }
  }

  /** Every canonical numeral is the rendering of the number it reads as. */
  lemma {:induction false} NatToStringParse(s: string)
    requires IsCanonicalDecimal(s)
    ensures NatToString(ParseDecimal(s)) == s
    decreases |s|
  {
    var d := (s[|s| - 1] as int) - ('0' as int);
    if |s| == 1 {
      assert ParseDecimal(s) == d;
      assert "0123456789"[d] == s[0];
    } else {
      var p := s[..|s| - 1];
      assert p[0] == s[0];
      NatToStringParse(p);
      var n := ParseDecimal(s);
      assert n == ParseDecimal(p) * 10 + d;
      assert ParseDecimal(p) >= 1;
      assert n / 10 == ParseDecimal(p) && n % 10 == d;
      assert "0123456789"[d] == s[|s| - 1];
      assert s == p + [s[|s| - 1]];
    }
  }

  /** A leading zero does not change the parsed value. */
  lemma {:induction false} ParseLeadingZero(s: string)
    requires IsDigits(s)
    ensures IsDigits("0" + s) && ParseDecimal("0" + s) == ParseDecimal(s)
    decreases |s|
  {
    if |s| > 0 {
      var t := "0" + s;
      assert t[..|t| - 1] == "0" + s[..|s| - 1];
      ParseLeadingZero(s[..|s| - 1]);
    }
  }
}
