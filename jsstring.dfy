/**
 * The JavaScript string primitives the editor code relies on, with their ECMAScript index rules:
 * `slice` counts negative indices from the end and clamps, `substring` clamps to [0, length] and
 * swaps reversed bounds, `indexOf`/`lastIndexOf` clamp their `fromIndex`, `split`/`join` on a
 * one-character separator, and `trim().length === 0`.
 */
module JsString {

  /** `String.prototype.startsWith(p)`. */
  predicate StartsWith(s: string, p: string)
  {
    |p| <= |s| && s[..|p|] == p
  }

  /** `String.prototype.endsWith(p)`. */
  predicate EndsWith(s: string, p: string)
  {
    |p| <= |s| && s[|s| - |p|..] == p
  }

  /** How `slice` turns an index into a position: negative counts from the end, then clamp. */
  function SliceIndex(len: nat, i: int): (r: nat)
    ensures r <= len
    ensures 0 <= i <= len ==> r == i
  {
    if i < 0 then (if len + i < 0 then 0 else len + i)
    else if i > len then len
    else i
  }

  /** `s.slice(a, b)`. */
  function Slice(s: string, a: int, b: int): (r: string)
    ensures |r| <= |s|
    ensures 0 <= a <= b <= |s| ==> r == s[a..b]
  {
    var lo, hi := SliceIndex(|s|, a), SliceIndex(|s|, b);
    if lo < hi then s[lo..hi] else []
  }

  /** `s.slice(a)`. */
  function SliceFrom(s: string, a: int): (r: string)
    ensures 0 <= a <= |s| ==> r == s[a..]
  {
    Slice(s, a, |s|)
  }

  /** How `substring` turns an index into a position: clamp to [0, length]. */
  function SubstringIndex(len: nat, i: int): (r: nat)
    ensures r <= len
    ensures 0 <= i <= len ==> r == i
  {
    if i < 0 then 0 else if i > len then len else i
  }

  /** `s.substring(a, b)`: both bounds clamped, then the smaller one first. */
  function Substring(s: string, a: int, b: int): (r: string)
    ensures |r| <= |s|
    ensures 0 <= a <= b <= |s| ==> r == s[a..b]
    ensures 0 <= b <= a <= |s| ==> r == s[b..a]
  {
    var x, y := SubstringIndex(|s|, a), SubstringIndex(|s|, b);
    if x <= y then s[x..y] else s[y..x]
  }

  /** `s.substring(a)`. */
  function SubstringFrom(s: string, a: int): (r: string)
    ensures 0 <= a <= |s| ==> r == s[a..]
    ensures a < 0 ==> r == s
    ensures a > |s| ==> r == []
  {
    Substring(s, a, |s|)
  }

  /** Exchanging the bounds of `substring` never changes its result. */
  lemma SubstringSymmetric(s: string, a: int, b: int)
    ensures Substring(s, a, b) == Substring(s, b, a)
  {
  }

  /** The last position `k <= from` holding `c`, or -1. */
  function LastAtOrBefore(s: string, c: char, from: int): (r: int)
    requires from < |s|
    ensures r == -1 || 0 <= r <= from
    ensures r >= 0 ==> s[r] == c
    ensures forall k :: r < k <= from && 0 <= k ==> s[k] != c
    decreases from + 1
  {
    if from < 0 then -1
    else if s[from] == c then from
    else LastAtOrBefore(s, c, from - 1)
  }

  /** The first position `k >= from` holding `c`, or -1. */
  function FirstAtOrAfter(s: string, c: char, from: nat): (r: int)
    requires from <= |s|
    ensures r == -1 || from <= r < |s|
    ensures r >= 0 ==> s[r] == c
    ensures forall k :: from <= k < |s| && (r == -1 || k < r) ==> s[k] != c
    decreases |s| - from
  {
    if from == |s| then -1
    else if s[from] == c then from
    else FirstAtOrAfter(s, c, from + 1)
  }

  /**
   * `s.lastIndexOf(c, from)` for a one-character search string: the start position is `from`
   * clamped to [0, length], so a negative `from` still inspects position 0.
   */
  function LastIndexOf(s: string, c: char, from: int): (r: int)
    ensures -1 <= r < |s|
    ensures r >= 0 ==> s[r] == c
    ensures 0 <= from < |s| ==> r <= from && forall k :: r < k <= from ==> s[k] != c
  {
    if |s| == 0 then -1
    else
      var start := if from < 0 then 0 else if from > |s| - 1 then |s| - 1 else from;
      LastAtOrBefore(s, c, start)
  }

  /** `s.indexOf(c, from)` for a one-character search string: `from` clamped to [0, length]. */
  function IndexOf(s: string, c: char, from: int): (r: int)
    ensures -1 <= r < |s|
    ensures r >= 0 ==> s[r] == c
    ensures 0 <= from <= |s| ==> r == -1 || from <= r
    ensures 0 <= from <= |s| ==> forall k :: from <= k < |s| && (r == -1 || k < r) ==> s[k] != c
  {
    var start := if from < 0 then 0 else if from > |s| then |s| else from;
    FirstAtOrAfter(s, c, start)
  }

  /** `s.split(sep)` for a one-character separator: always at least one piece, none holding `sep`. */
  function Split(s: string, sep: char): (r: seq<string>)
    ensures |r| >= 1
    ensures forall i, k :: 0 <= i < |r| && 0 <= k < |r[i]| ==> r[i][k] != sep
  {
    if |s| == 0 then [[]]
    else
      var rest := Split(s[1..], sep);
      if s[0] == sep then [[]] + rest
      else [[s[0]] + rest[0]] + rest[1..]
  }

  /** `lines.join(sep)`; the empty array joins to the empty string. */
  function Join(lines: seq<string>, sep: char): string
  {
    if |lines| == 0 then []
    else if |lines| == 1 then lines[0]
    else lines[0] + [sep] + Join(lines[1..], sep)
  }

  /** Joining the pieces of a split gives the string back. */
  lemma {:induction false} JoinSplit(s: string, sep: char)
    ensures Join(Split(s, sep), sep) == s
  {
    if |s| > 0 {
      var rest := Split(s[1..], sep);
      JoinSplit(s[1..], sep);
      if s[0] == sep {
        assert Split(s, sep) == [[]] + rest;
        assert Join([[]] + rest, sep) == [] + [sep] + Join(rest, sep);
      } else {
        var r := [[s[0]] + rest[0]] + rest[1..];
        assert Split(s, sep) == r;
        if |rest| == 1 {
          assert Join(r, sep) == [s[0]] + rest[0];
        } else {
          assert r[1..] == rest[1..];
          assert Join(r, sep) == [s[0]] + rest[0] + [sep] + Join(rest[1..], sep);
          assert Join(rest, sep) == rest[0] + [sep] + Join(rest[1..], sep);
        }
      }
    }
  }

  /** Whether one line contains the separator. */
  predicate Free(l: string, sep: char)
  {
    forall k :: 0 <= k < |l| ==> l[k] != sep
  }

  /** Splitting a join of separator-free lines gives those lines back. */
  lemma {:induction false} SplitJoin(lines: seq<string>, sep: char)
    requires |lines| >= 1
    requires forall i :: 0 <= i < |lines| ==> Free(lines[i], sep)
    ensures Split(Join(lines, sep), sep) == lines
  {
    if |lines| == 1 {
      SplitFree(lines[0], sep);
    } else {
      SplitJoin(lines[1..], sep);
      assert Join(lines, sep) == lines[0] + ([sep] + Join(lines[1..], sep));
      SplitWithPrefix(lines[0], Join(lines[1..], sep), sep);
    }
  }

  lemma {:induction false} SplitFree(l: string, sep: char)
    requires Free(l, sep)
    ensures Split(l, sep) == [l]
  {
    if |l| > 0 {
      SplitFree(l[1..], sep);
      assert [l[0]] + l[1..] == l;
    }
  }

  lemma {:induction false} SplitWithPrefix(l: string, t: string, sep: char)
    requires Free(l, sep)
    ensures Split(l + [sep] + t, sep) == [l] + Split(t, sep)
  {
    if |l| == 0 {
      assert l + [sep] + t == [sep] + t;
      assert ([sep] + t)[1..] == t;
    } else {
      assert (l + [sep] + t)[1..] == l[1..] + [sep] + t;
      SplitWithPrefix(l[1..], t, sep);
      assert [l[0]] + l[1..] == l;
    }
  }

  /** The characters `String.prototype.trim` removes: WhiteSpace and LineTerminator. */
  predicate IsJsWhitespace(c: char)
  {
    c == '\t' || c == '\n' || c == '\U{000B}' || c == '\U{000C}' || c == '\r' || c == ' '
    || c == '\U{00A0}' || c == '\U{1680}' || ('\U{2000}' <= c <= '\U{200A}')
    || c == '\U{2028}' || c == '\U{2029}' || c == '\U{202F}' || c == '\U{205F}'
    || c == '\U{3000}' || c == '\U{FEFF}'
  }

  /** `l.trim().length === 0`. */
  predicate IsBlank(l: string)
  {
    forall k :: 0 <= k < |l| ==> IsJsWhitespace(l[k])
  }
  /** The decimal digit for `d`. */
  function DigitChar(d: nat): char
    requires d < 10
  {
    ['0', '1', '2', '3', '4', '5', '6', '7', '8', '9'][d]
  }

  /** `n.toString()` for a non-negative integer: decimal, no leading zeros. */
  function NatToString(n: nat): (r: string)
    ensures |r| >= 1
    ensures r[0] != '-'
    ensures n >= 10 ==> |r| >= 2
  {
    if n < 10 then [DigitChar(n)] else NatToString(n / 10) + [DigitChar(n % 10)]
  }

  /** `String(i)` / `${i}` for an integer: a minus sign before the digits of a negative value. */
  function IntToString(i: int): (r: string)
    ensures |r| >= 1
    ensures (r[0] == '-') <==> i < 0
  {
    if i < 0 then "-" + NatToString(-i) else NatToString(i)
  }

  lemma {:induction false} NatToStringInjective(a: nat, b: nat)
    requires NatToString(a) == NatToString(b)
    ensures a == b
  {
    if a >= 10 && b >= 10 {
      var sa, sb := NatToString(a), NatToString(b);
      assert sa[|sa| - 1] == DigitChar(a % 10) && sb[|sb| - 1] == DigitChar(b % 10);
      assert a % 10 == b % 10;
      assert sa[..|sa| - 1] == NatToString(a / 10);
      assert sb[..|sb| - 1] == NatToString(b / 10);
      NatToStringInjective(a / 10, b / 10);
    } else if a < 10 && b < 10 {
      assert NatToString(a)[0] == DigitChar(a);
    }
  }

  /** Distinct integers print differently. */
  lemma IntToStringInjective(a: int, b: int)
    requires IntToString(a) == IntToString(b)
    ensures a == b
  {
    if a < 0 {
      assert IntToString(a)[1..] == NatToString(-a);
      assert IntToString(b)[1..] == NatToString(-b);
      NatToStringInjective(-a, -b);
    } else {
      NatToStringInjective(a, b);
    }
  }

  /** `s.padStart(2, "0")`. */
  function PadStart2(s: string): (r: string)
    ensures |r| == if |s| >= 2 then |s| else 2
    ensures EndsWith(r, s)
    ensures forall k :: 0 <= k < |r| - |s| ==> r[k] == '0'
  {
    if |s| >= 2 then s else if |s| == 1 then "0" + s else "00"
  }
}
