/**
 * The JavaScript array primitives the editor code relies on, over immutable sequences:
 * `filter` by a predicate, `map`, `filter((_, i) => i !== idx)` and `splice(start, 0, x)` (whose start
 * index follows the same negative-from-the-end and clamping rule as `slice`).
 */
module JsArray {
  import JsString

  /** `s.filter(p)`: the elements satisfying `p`, in order. */
  function Filter<T(!new)>(s: seq<T>, p: T -> bool): (r: seq<T>)
    ensures |r| <= |s|
    ensures forall x :: x in r <==> x in s && p(x)
  {
    if |s| == 0 then []
    else (if p(s[0]) then [s[0]] else []) + Filter(s[1..], p)
  }

  /** Filtering with a predicate every element satisfies returns the array itself. */
  lemma {:induction false} FilterAll<T(!new)>(s: seq<T>, p: T -> bool)
    requires forall k :: 0 <= k < |s| ==> p(s[k])
    ensures Filter(s, p) == s
  {
    if |s| > 0 {
      FilterAll(s[1..], p);
      assert [s[0]] + s[1..] == s;
    }
  }

  /** The elements kept by `p` and those kept by its negation are, together, the whole array. */
  lemma {:induction false} FilterPartition<T(!new)>(s: seq<T>, p: T -> bool, q: T -> bool)
    requires forall x :: q(x) == !p(x)
    ensures multiset(Filter(s, p)) + multiset(Filter(s, q)) == multiset(s)
  {
    if |s| > 0 {
      FilterPartition(s[1..], p, q);
      assert s == [s[0]] + s[1..];
    }
  }

  /** Filtering with two predicates that agree on every element gives the same result. */
  lemma {:induction false} FilterSame<T(!new)>(s: seq<T>, p: T -> bool, q: T -> bool)
    requires forall k :: 0 <= k < |s| ==> p(s[k]) == q(s[k])
    ensures Filter(s, p) == Filter(s, q)
  {
    if |s| > 0 {
      FilterSame(s[1..], p, q);
    }
  }

  /** Filtering a concatenation filters each part. */
  lemma {:induction false} FilterConcat<T(!new)>(a: seq<T>, b: seq<T>, p: T -> bool)
    ensures Filter(a + b, p) == Filter(a, p) + Filter(b, p)
  {
    if |a| > 0 {
      FilterConcat(a[1..], b, p);
      assert (a + b)[0] == a[0] && (a + b)[1..] == a[1..] + b;
    } else {
      assert a + b == b;
    }
  }

  /** Filtering with a predicate no element satisfies gives the empty array. */
  lemma {:induction false} FilterNone<T(!new)>(s: seq<T>, p: T -> bool)
    requires forall k :: 0 <= k < |s| ==> !p(s[k])
    ensures Filter(s, p) == []
  {
    if |s| > 0 {
      FilterNone(s[1..], p);
    }
  }

  /** `s.map(f)`. */
  function Map<T, U>(s: seq<T>, f: T -> U): (r: seq<U>)
    ensures |r| == |s|
    ensures forall k :: 0 <= k < |s| ==> r[k] == f(s[k])
  {
    seq(|s|, k requires 0 <= k < |s| => f(s[k]))
  }

  /** The two parts of a concatenation, by position. */
  lemma ConcatParts<T>(a: seq<T>, b: seq<T>)
    ensures (a + b)[..|a|] == a && (a + b)[|a|..] == b
  {
  }

  /** The five parts of a five-part concatenation, by position. */
  lemma FiveParts<T>(x: seq<T>, b: seq<T>, m: seq<T>, a: seq<T>, y: seq<T>, t: seq<T>)
    requires t == x + b + m + a + y
    ensures t[..|x|] == x
    ensures t[|x|..|x| + |b|] == b
    ensures t[|x| + |b|..|x| + |b| + |m|] == m
    ensures t[|x| + |b| + |m|..|x| + |b| + |m| + |a|] == a
    ensures t[|x| + |b| + |m| + |a|..] == y
  {
  }

  /** The three parts of a concatenation, by position. */
  lemma ThreeParts<T>(x: seq<T>, m: seq<T>, y: seq<T>, t: seq<T>)
    requires t == x + m + y
    ensures t[..|x|] == x
    ensures t[|x|..|x| + |m|] == m
    ensures t[|x| + |m|..] == y
  {
  }

  /** Cutting a sequence at `i <= j` and putting the three pieces back together. */
  lemma CutThree<T>(s: seq<T>, i: int, j: int)
    requires 0 <= i <= j <= |s|
    ensures s[..i] + s[i..j] + s[j..] == s
  {
  }

  /** Cutting a sequence at four ordered points and putting the five pieces back together. */
  lemma CutFive<T>(s: seq<T>, i: int, j: int, k: int, l: int)
    requires 0 <= i <= j <= k <= l <= |s|
    ensures s[..i] + s[i..j] + s[j..k] + s[k..l] + s[l..] == s
  {
    assert s[..i] + s[i..j] == s[..j];
    assert s[..j] + s[j..k] == s[..k];
    assert s[..k] + s[k..l] == s[..l];
  }

  /** A slice of a mapped array is the mapped slice. */
  lemma MapSlice<T, U>(s: seq<T>, f: T -> U, a: int, b: int)
    requires 0 <= a <= b <= |s|
    ensures Map(s, f)[a..b] == Map(s[a..b], f)
  {
  }

  /** Mapping with `f` and then with a `g` that undoes `f` on every element gives the array back. */
  lemma MapUndone<T, U>(s: seq<T>, f: T -> U, g: U -> T)
    requires forall k :: 0 <= k < |s| ==> g(f(s[k])) == s[k]
    ensures Map(Map(s, f), g) == s
  {
  }

  /** `s.filter((_, i) => i !== idx)`: drops position `idx` when there is one. */
  function Without<T>(s: seq<T>, idx: int): (r: seq<T>)
    ensures 0 <= idx < |s| ==> |r| == |s| - 1
    ensures 0 <= idx < |s| ==> forall k :: 0 <= k < |r| ==> r[k] == if k < idx then s[k] else s[k + 1]
    ensures !(0 <= idx < |s|) ==> r == s
  {
    if 0 <= idx < |s| then s[..idx] + s[idx + 1..] else s
  }

  /** `s.splice(start, 0, x)` on a copy: `x` goes in at the clamped start position. */
  function InsertAt<T>(s: seq<T>, start: int, x: T): (r: seq<T>)
    ensures |r| == |s| + 1
    ensures var p := JsString.SliceIndex(|s|, start);
      r[p] == x && r[..p] == s[..p] && r[p + 1..] == s[p..]
    ensures var p := JsString.SliceIndex(|s|, start);
      forall k :: 0 <= k < |s| ==> r[if k < p then k else k + 1] == s[k]
  {
    var p := JsString.SliceIndex(|s|, start);
    s[..p] + [x] + s[p..]
  }

  /** Dropping the position an insertion just filled gives the array back. */
  lemma WithoutInsertAt<T>(s: seq<T>, idx: int, x: T)
    requires 0 <= idx <= |s|
    ensures Without(InsertAt(s, idx, x), idx) == s
  {
    var t := InsertAt(s, idx, x);
    assert t[..idx] == s[..idx] && t[idx + 1..] == s[idx..];
    assert t[..idx] + t[idx + 1..] == s;
  }
}
