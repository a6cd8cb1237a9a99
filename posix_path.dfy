/**
 * Node's POSIX `path.normalize` and `path.join`, at the level of path segments: a path is split at
 * `/`, empty and `.` segments are dropped, `..` removes the segment before it (or, in a relative
 * path with nothing left to remove, is kept), and the surviving segments are joined again with the
 * path's leading and trailing `/` restored.
 */
module PosixPath {
  import opened JsString

  /** The effect of one segment on the segments resolved so far; `above` allows a leading `..`. */
  function Step(stack: seq<string>, seg: string, above: bool): seq<string>
  {
    if seg == "" || seg == "." then stack
    else if seg == ".." then
      if |stack| > 0 && stack[|stack| - 1] != ".." then stack[..|stack| - 1]
      else if above then stack + [".."]
      else stack
    else stack + [seg]
  }

  /** All segments in turn. */
  function Resolve(stack: seq<string>, segs: seq<string>, above: bool): seq<string>
    decreases |segs|
  {
    if |segs| == 0 then stack else Resolve(Step(stack, segs[0], above), segs[1..], above)
  }

  predicate Absolute(p: string)
  {
    |p| > 0 && p[0] == '/'
  }

  /** The resolved segments of a path; above the root of an absolute path there is nothing. */
  function Stack(p: string): seq<string>
  {
    Resolve([], Split(p, '/'), !Absolute(p))
  }

  /** `path.posix.normalize(p)`. */
  function Normalize(p: string): (r: string)
    ensures Absolute(p) ==> Absolute(r)
  {
    if |p| == 0 then "."
    else
      var trail := p[|p| - 1] == '/';
      var body := Join(Stack(p), '/');
      if |body| == 0 then (if Absolute(p) then "/" else if trail then "./" else ".")
      else (if Absolute(p) then "/" else "") + body + (if trail then "/" else "")
  }

  /** `path.posix.join(a, b)`: the non-empty arguments joined with `/`, then normalized. */
  function PathJoin(a: string, b: string): (r: string)
    ensures Absolute(a) ==> Absolute(r)
  {
    if |a| == 0 && |b| == 0 then "."
    else Normalize(if |a| == 0 then b else if |b| == 0 then a else a + "/" + b)
  }

  /** A segment that stays as it is: not empty, not `.`, not `..`, without a `/`. */
  predicate Name(s: string)
  {
    s != "" && s != "." && s != ".." && Free(s, '/')
  }

  predicate Names(st: seq<string>)
  {
    forall i :: 0 <= i < |st| ==> Name(st[i])
  }

  /** No segment is `..`. */
  predicate NoUp(segs: seq<string>)
  {
    forall i :: 0 <= i < |segs| ==> segs[i] != ".."
  }

  /** Every `..` comes before every other segment. */
  predicate UpsFirst(segs: seq<string>)
  {
    forall i, j :: 0 <= i < j < |segs| && segs[j] == ".." ==> segs[i] == ".."
  }

  /** What a resolved stack can hold: names, and `..` only in front. */
  predicate Resolved(st: seq<string>)
  {
    UpsFirst(st) && forall i :: 0 <= i < |st| ==> st[i] == ".." || Name(st[i])
  }

  lemma {:induction false} ResolveAppend(st: seq<string>, a: seq<string>, b: seq<string>, above: bool)
    ensures Resolve(st, a + b, above) == Resolve(Resolve(st, a, above), b, above)
    decreases |a|
  {
    if |a| > 0 {
      assert (a + b)[1..] == a[1..] + b;
      ResolveAppend(Step(st, a[0], above), a[1..], b, above);
    } else {
      assert a + b == b;
    }
  }

  /** Segments without `..` only ever add to what is already resolved. */
  lemma {:induction false} ResolveNoUp(st: seq<string>, segs: seq<string>, above: bool)
    requires NoUp(segs)
    ensures Resolve(st, segs, above) == st + Resolve([], segs, above)
    decreases |segs|
  {
    if |segs| > 0 {
      var rest := segs[1..];
      var s0 := Step(st, segs[0], above);
      var t0 := Step([], segs[0], above);
      StepNoUp(st, segs[0], above);
      assert NoUp(rest) by {
        forall i | 0 <= i < |rest| ensures rest[i] != ".." { assert rest[i] == segs[i + 1]; }
      }
      var r := Resolve([], rest, above);
      ResolveNoUp(s0, rest, above);
      ResolveNoUp(t0, rest, above);
      assert Resolve(st, segs, above) == s0 + r;
      assert Resolve([], segs, above) == t0 + r;
      assert (st + t0) + r == st + (t0 + r);
    }
  }

  /** A segment other than `..` only ever adds to the stack. */
  lemma StepNoUp(st: seq<string>, seg: string, above: bool)
    requires seg != ".."
    ensures Step(st, seg, above) == st + Step([], seg, above)
  {
    if seg == "" || seg == "." {
      assert st + [] == st;
    }
  }

  /** Resolving keeps the resolved shape, and without `above` no `..` ever appears. */
  lemma {:induction false} ResolveResolved(st: seq<string>, segs: seq<string>, above: bool)
    requires Resolved(st) && (!above ==> NoUp(st))
    requires forall i :: 0 <= i < |segs| ==> Free(segs[i], '/')
    ensures Resolved(Resolve(st, segs, above)) && (!above ==> NoUp(Resolve(st, segs, above)))
    decreases |segs|
  {
    if |segs| > 0 {
      var s0 := Step(st, segs[0], above);
      assert Resolved(s0) && (!above ==> NoUp(s0)) by {
        if segs[0] == ".." && !(|st| > 0 && st[|st| - 1] != "..") && above {
          assert forall i :: 0 <= i < |st| ==> st[i] == "..";
        }
      }
      ResolveResolved(s0, segs[1..], above);
    }
  }

  /** Names resolve to themselves. */
  lemma {:induction false} ResolveNames(st: seq<string>, names: seq<string>, above: bool)
    requires Names(names)
    ensures Resolve(st, names, above) == st + names
    decreases |names|
  {
    if |names| > 0 {
      ResolveNames(st + [names[0]], names[1..], above);
      assert st + [names[0]] + names[1..] == st + names;
    }
  }

  /** The resolved segments of an absolute path are names. */
  lemma StackNames(p: string)
    requires Absolute(p)
    ensures Names(Stack(p))
  {
    ResolveResolved([], Split(p, '/'), false);
  }

  lemma {:induction false} JoinAppend(a: seq<string>, b: seq<string>, sep: char)
    requires |a| >= 1 && |b| >= 1
    ensures Join(a + b, sep) == Join(a, sep) + [sep] + Join(b, sep)
    decreases |a|
  {
    if |a| > 1 {
      assert (a + b)[1..] == a[1..] + b;
      JoinAppend(a[1..], b, sep);
    } else {
      assert (a + b)[1..] == b;
    }
  }

  lemma {:induction false} SplitConcat(a: string, b: string, sep: char)
    ensures Split(a + [sep] + b, sep) == Split(a, sep) + Split(b, sep)
    decreases |a|
  {
    if |a| == 0 {
      assert a + [sep] + b == [sep] + b;
      assert ([sep] + b)[1..] == b;
    } else {
      var t := a + [sep] + b;
      assert t[0] == a[0] && t[1..] == a[1..] + [sep] + b;
      SplitConcat(a[1..], b, sep);
      var x, y := Split(a[1..], sep), Split(b, sep);
      assert Split(t[1..], sep) == x + y;
      if a[0] == sep {
        assert Split(t, sep) == [[]] + (x + y);
        assert Split(a, sep) == [[]] + x;
      } else {
        assert (x + y)[0] == x[0] && (x + y)[1..] == x[1..] + y;
        assert Split(t, sep) == [[a[0]] + x[0]] + (x[1..] + y);
        assert Split(a, sep) == [[a[0]] + x[0]] + x[1..];
      }
    }
  }

  /** A join of names is empty only when there are none. */
  lemma JoinNamesEmpty(st: seq<string>)
    requires Names(st) && |st| > 0
    ensures |Join(st, '/')| > 0
  {
    if |st| > 1 {
      assert Join(st, '/') == st[0] + ['/'] + Join(st[1..], '/');
    }
  }

  /** The text of a nonempty resolved stack, split again, gives the stack back. */
  lemma SplitStack(st: seq<string>)
    requires |st| > 0 && forall i :: 0 <= i < |st| ==> Free(st[i], '/')
    ensures Split(Join(st, '/'), '/') == st
  {
    SplitJoin(st, '/');
  }

  /** The same with a trailing `/`, which adds an empty last segment. */
  lemma SplitStackTrail(st: seq<string>)
    requires |st| > 0 && forall i :: 0 <= i < |st| ==> Free(st[i], '/')
    ensures Split(Join(st, '/') + "/", '/') == st + [""]
  {
    SplitJoin(st, '/');
    SplitConcat(Join(st, '/'), "", '/');
    SplitFree("", '/');
    assert Join(st, '/') + "/" == Join(st, '/') + ['/'] + "";
  }

  /** `"/" + t` splits into an empty segment and the segments of `t`. */
  lemma SplitRooted(t: string)
    ensures Split("/" + t, '/') == [""] + Split(t, '/')
  {
    SplitConcat("", t, '/');
    SplitFree("", '/');
    assert "/" + t == "" + ['/'] + t;
  }

  /** Empty segments resolve to nothing. */
  lemma ResolveEmpty(st: seq<string>, above: bool)
    ensures Resolve(st, [""], above) == st
    ensures Resolve(st, ["", ""], above) == st
  {
    assert ["", ""][1..] == [""];
    assert [""][1..] == [];
  }

  /** Normalizing an absolute path does not change its segments. */
  lemma StackOfNormalize(p: string)
    requires Absolute(p)
    ensures Stack(Normalize(p)) == Stack(p)
  {
    var st := Stack(p);
    StackNames(p);
    if st == [] {
      assert Normalize(p) == "/";
      SplitRooted("");
      SplitFree("", '/');
      assert "/" + "" == "/";
      assert Split("/", '/') == ["", ""];
      assert Absolute("/");
      ResolveEmpty([], false);
    } else {
      JoinNamesEmpty(st);
      if p[|p| - 1] == '/' {
        StackOfNormalizeTrail(p, st);
      } else {
        StackOfNormalizePlain(p, st);
      }
    }
  }

  lemma StackOfNormalizePlain(p: string, st: seq<string>)
    requires Absolute(p) && st == Stack(p) && Names(st) && |Join(st, '/')| > 0 && p[|p| - 1] != '/'
    ensures Stack(Normalize(p)) == st
  {
    var n := Normalize(p);
    assert n == "/" + Join(st, '/');
    SplitRooted(Join(st, '/'));
    SplitStack(st);
    ResolveAppend([], [""], st, false);
    ResolveEmpty([], false);
    ResolveNames([], st, false);
  }

  lemma StackOfNormalizeTrail(p: string, st: seq<string>)
    requires Absolute(p) && st == Stack(p) && Names(st) && |Join(st, '/')| > 0 && p[|p| - 1] == '/'
    ensures Stack(Normalize(p)) == st
  {
    var n := Normalize(p);
    assert n == "/" + (Join(st, '/') + "/");
    SplitRooted(Join(st, '/') + "/");
    SplitStackTrail(st);
    assert [""] + (st + [""]) == [""] + st + [""];
    ResolveAppend([], [""] + st, [""], false);
    ResolveAppend([], [""], st, false);
    ResolveEmpty([], false);
    ResolveNames([], st, false);
    ResolveEmpty(st, false);
  }

  /** `p` is the directory `d` or lies below it. */
  predicate Inside(d: string, p: string)
  {
    p == d || StartsWith(p, if d == "/" then "/" else d + "/")
  }

  /** The directory an absolute path's resolved segments name, written without a trailing `/`. */
  function Dir(rs: seq<string>): string
  {
    if rs == [] then "/" else "/" + Join(rs, '/')
  }

  /** An absolute path whose segments extend `rs` normalizes to a path inside `Dir(rs)`. */
  lemma InsideOf(rs: seq<string>, ms: seq<string>, y: string)
    requires Absolute(y) && Stack(y) == rs + ms && Names(rs) && Names(ms)
    ensures Inside(Dir(rs), Normalize(y))
  {
    var st := rs + ms;
    if st == [] {
      assert rs == [];
    } else {
      NamesConcat(rs, ms);
      var tr := if y[|y| - 1] == '/' then "/" else "";
      NormalizeNames(y, st, tr);
      InsideSpelled(rs, ms, tr, Normalize(y));
    }
  }

  lemma NamesConcat(rs: seq<string>, ms: seq<string>)
    requires Names(rs) && Names(ms)
    ensures Names(rs + ms)
  {
    var st := rs + ms;
    forall i | 0 <= i < |st| ensures Name(st[i]) {
      if i < |rs| { assert st[i] == rs[i]; } else { assert st[i] == ms[i - |rs|]; }
    }
  }

  /** `/`, segments extending `rs`, and a trailing slash or nothing spell a path inside `Dir(rs)`. */
  lemma InsideSpelled(rs: seq<string>, ms: seq<string>, tr: string, n: string)
    requires Names(rs) && (tr == "/" || tr == "")
    requires n == "/" + Join(rs + ms, '/') + tr
    ensures Inside(Dir(rs), n)
  {
    if rs == [] {
      assert n[..1] == "/";
    } else if ms == [] {
      InsideSpelledSame(rs, ms, tr, n);
    } else {
      InsideSpelledBelow(rs, ms, tr, n);
    }
  }

  lemma InsideSpelledSame(rs: seq<string>, ms: seq<string>, tr: string, n: string)
    requires rs != [] && ms == [] && (tr == "/" || tr == "")
    requires n == "/" + Join(rs + ms, '/') + tr
    ensures n == Dir(rs) + tr && Inside(Dir(rs), n)
  {
    assert rs + ms == rs;
    InsideTrail(Dir(rs), tr);
  }

  lemma InsideSpelledBelow(rs: seq<string>, ms: seq<string>, tr: string, n: string)
    requires Names(rs) && rs != [] && ms != []
    requires n == "/" + Join(rs + ms, '/') + tr
    ensures Inside(Dir(rs), n)
  {
    var j := Join(ms, '/') + tr;
    JoinAppend(rs, ms, '/');
    assert n == Dir(rs) + "/" + j;
    InsideBelow(Dir(rs), j, n, rs);
  }

  /** An absolute path with segments `st`, all names, normalizes to `/`, those segments and its trailing slash. */
  lemma NormalizeNames(y: string, st: seq<string>, tr: string)
    requires Absolute(y) && st == Stack(y) && st != [] && Names(st)
    requires tr == if y[|y| - 1] == '/' then "/" else ""
    ensures Normalize(y) == "/" + Join(st, '/') + tr
  {
    JoinNamesEmpty(st);
  }

  /** A directory followed by nothing or by a slash lies inside it. */
  lemma InsideTrail(d: string, tr: string)
    requires tr == "/" || tr == ""
    ensures Inside(d, d + tr)
  {
    if tr == "" {
      assert d + tr == d;
    } else if d != "/" {
      assert (d + tr)[..|d + "/"|] == d + "/";
    }
  }

  /** A path spelled as a directory other than the root, a slash and more lies inside it. */
  lemma InsideBelow(d: string, rest: string, n: string, rs: seq<string>)
    requires rs != [] && Names(rs) && d == "/" + Join(rs, '/') && n == d + "/" + rest
    ensures Inside(d, n)
  {
    JoinNamesEmpty(rs);
    assert |d| > 1;
    assert n[..|d + "/"|] == d + "/";
  }

  /** Joining a name onto an absolute path adds that one segment. */
  lemma JoinName(p: string, name: string)
    requires Absolute(p) && Name(name)
    ensures Stack(PathJoin(p, name)) == Stack(p) + [name]
  {
    AppendName(p, name);
    StackOfNormalize(p + "/" + name);
  }

  /** Writing `/name` after an absolute path adds that one segment. */
  lemma AppendName(p: string, name: string)
    requires Absolute(p) && Name(name)
    ensures Absolute(p + "/" + name) && Stack(p + "/" + name) == Stack(p) + [name]
  {
    SplitConcat(p, name, '/');
    SplitFree(name, '/');
    assert p + "/" + name == p + ['/'] + name;
    ResolveAppend([], Split(p, '/'), [name], false);
    ResolveNames(Stack(p), [name], false);
  }

  /** Writing `/..` after an absolute path removes its last segment, if it has one. */
  lemma AppendUp(p: string)
    requires Absolute(p)
    ensures Absolute(p + "/..")
    ensures Stack(p + "/..") == if Stack(p) == [] then [] else Stack(p)[..|Stack(p)| - 1]
  {
    SplitConcat(p, "..", '/');
    SplitFree("..", '/');
    assert p + "/.." == p + ['/'] + "..";
    ResolveAppend([], Split(p, '/'), [".."], false);
    StackNames(p);
  }

  /** Text appended to a path inside `d` stays inside it, unless the path is `d` itself. */
  lemma InsideExtended(d: string, c: string, x: string)
    requires Inside(d, c)
    ensures c == d || Inside(d, c + x)
  {
    if c != d {
      var pre := if d == "/" then "/" else d + "/";
      assert (c + x)[..|pre|] == c[..|pre|];
    }
  }

  /** The leading `/` and `\` that `safeJoin` drops first. */
  function StripSeps(s: string): (r: string)
    ensures !Absolute(r) && (|r| == 0 || r[0] != '\\')
  {
    if |s| > 0 && (s[0] == '/' || s[0] == '\\') then StripSeps(s[1..]) else s
  }

  /** A leading `..` followed by `/`, `\` or the end of the text, which `safeJoin` drops, repeatedly. */
  function StripUp(s: string): string
  {
    if |s| >= 2 && s[0] == '.' && s[1] == '.' && (|s| == 2 || s[2] == '/' || s[2] == '\\') then
      StripUp(s[if |s| == 2 then 2 else 3..])
    else s
  }

  /** The relative part `safeJoin` keeps. */
  function Rel(u: string): string
  {
    StripUp(Normalize(StripSeps(u)))
  }

  /** `safeJoin(rootDir, urlPathname)`. */
  function SafeJoin(root: string, u: string): string
  {
    PathJoin(root, Rel(u))
  }

  lemma SplitCons(c: char, t: string, sep: char)
    requires c != sep
    ensures Split([c] + t, sep) == [[c] + Split(t, sep)[0]] + Split(t, sep)[1..]
  {
    assert ([c] + t)[1..] == t;
  }

  /** The segments of a relative normalized path keep their `..` in front. */
  lemma NormalizeUpsFirst(p: string)
    requires !Absolute(p)
    ensures UpsFirst(Split(Normalize(p), '/'))
  {
    if |p| > 0 {
      ResolveResolved([], Split(p, '/'), true);
      if |Join(Stack(p), '/')| == 0 {
        NormalizeDot(p);
      } else {
        NormalizeSegments(p, Stack(p));
      }
    } else {
      SplitFree(".", '/');
    }
  }

  /** A relative path that resolves to nothing normalizes to `.` or `./`. */
  lemma NormalizeDot(p: string)
    requires |p| > 0 && !Absolute(p) && |Join(Stack(p), '/')| == 0
    ensures UpsFirst(Split(Normalize(p), '/'))
  {
    if p[|p| - 1] == '/' {
      assert Normalize(p) == "." + ['/'] + "";
      SplitConcat(".", "", '/');
      SplitFree(".", '/');
      SplitFree("", '/');
    } else {
      SplitFree(".", '/');
    }
  }

  /** A relative path that resolves to segments normalizes to them, with its trailing slash. */
  lemma NormalizeSegments(p: string, st: seq<string>)
    requires |p| > 0 && !Absolute(p) && st == Stack(p) && |Join(st, '/')| > 0 && Resolved(st)
    ensures UpsFirst(Split(Normalize(p), '/'))
  {
    if p[|p| - 1] == '/' {
      assert Normalize(p) == Join(st, '/') + "/";
      SplitStackTrail(st);
      UpsFirstSnoc(st);
    } else {
      assert Normalize(p) == Join(st, '/');
      SplitStack(st);
    }
  }

  lemma UpsFirstSnoc(st: seq<string>)
    requires UpsFirst(st)
    ensures UpsFirst(st + [""])
  {
    var t := st + [""];
    forall i, j | 0 <= i < j < |t| && t[j] == ".." ensures t[i] == ".." {
      assert j < |st| && t[i] == st[i] && t[j] == st[j];
    }
  }

  /** Dropping the leading `..` of a path whose `..` come first leaves no `..` at all. */
  lemma {:induction false} StripUpNoUp(t: string)
    requires UpsFirst(Split(t, '/'))
    ensures NoUp(Split(StripUp(t), '/'))
    decreases |t|
  {
    if |t| >= 2 && t[0] == '.' && t[1] == '.' && (|t| == 2 || t[2] == '/' || t[2] == '\\') {
      if |t| == 2 {
        assert StripUp(t) == "";
        SplitFree("", '/');
      } else {
        var rest := t[3..];
        assert StripUp(t) == StripUp(rest);
        if t[2] == '/' {
          UpsFirstAfterSlash(t, rest);
        } else {
          UpsFirstAfterBackslash(t, rest);
        }
        StripUpNoUp(rest);
      }
    } else {
      StripUpStays(t);
    }
  }

  lemma UpsFirstAfterSlash(t: string, rest: string)
    requires |t| >= 3 && t[..3] == "../" && rest == t[3..] && UpsFirst(Split(t, '/'))
    ensures UpsFirst(Split(rest, '/'))
  {
    assert t == ".." + ['/'] + rest;
    SplitConcat("..", rest, '/');
    SplitFree("..", '/');
    UpsFirstTail([".."], Split(rest, '/'));
  }

  lemma UpsFirstTail(a: seq<string>, b: seq<string>)
    requires UpsFirst(a + b)
    ensures UpsFirst(b)
  {
    forall i, j | 0 <= i < j < |b| && b[j] == ".." ensures b[i] == ".." {
      assert (a + b)[|a| + i] == b[i] && (a + b)[|a| + j] == b[j];
    }
  }

  lemma UpsFirstAfterBackslash(t: string, rest: string)
    requires |t| >= 3 && t[..3] == "..\\" && rest == t[3..] && UpsFirst(Split(t, '/'))
    ensures UpsFirst(Split(rest, '/'))
  {
    var rs := Split(rest, '/');
    assert t == ['.'] + (['.'] + (['\\'] + rest));
    SplitCons('\\', rest, '/');
    SplitCons('.', ['\\'] + rest, '/');
    SplitCons('.', ['.'] + (['\\'] + rest), '/');
    UpsFirstNewHead(Split(t, '/'), rs);
  }

  /** When the first segment is not `..`, no segment is; a new first segment keeps the shape. */
  lemma UpsFirstNewHead(segs: seq<string>, rs: seq<string>)
    requires UpsFirst(segs) && |segs| > 0 && segs[0] != ".."
    requires |rs| == |segs| && segs[1..] == rs[1..]
    ensures UpsFirst(rs)
  {
    NoUpOf(segs);
    forall j | 1 <= j < |rs| ensures rs[j] != ".." {
      assert rs[j] == rs[1..][j - 1] == segs[1..][j - 1] == segs[j];
    }
  }

  lemma NoUpOf(segs: seq<string>)
    requires UpsFirst(segs) && |segs| > 0 && segs[0] != ".."
    ensures NoUp(segs)
  {
    assert forall j :: 0 < j < |segs| ==> segs[0] == ".." || segs[j] != "..";
  }

  /** A path `StripUp` leaves alone has no `..` segment, when its `..` come first. */
  lemma StripUpStays(t: string)
    requires UpsFirst(Split(t, '/'))
    requires !(|t| >= 2 && t[0] == '.' && t[1] == '.' && (|t| == 2 || t[2] == '/' || t[2] == '\\'))
    ensures NoUp(Split(StripUp(t), '/'))
  {
    assert NoUp(Split(t, '/')) by { NoUpUnlessDotDot(t); }
  }

  /** Segments with their `..` in front, of a text not opening with `..`, hold no `..` at all. */
  lemma NoUpUnlessDotDot(t: string)
    requires UpsFirst(Split(t, '/'))
    requires !(|t| >= 2 && t[0] == '.' && t[1] == '.' && (|t| == 2 || t[2] == '/'))
    ensures NoUp(Split(t, '/'))
  {
    var segs := Split(t, '/');
    if segs[0] == ".." {
      StripUpShape(t);
      assert false;
    }
    NoUpOf(segs);
  }

  /** A first segment `..` means the text opens with `..` followed by `/` or its end. */
  lemma StripUpShape(t: string)
    requires Split(t, '/')[0] == ".."
    ensures |t| >= 2 && t[0] == '.' && t[1] == '.' && (|t| == 2 || t[2] == '/')
  {
    assert |t| > 0 && t[0] != '/';
    SplitCons(t[0], t[1..], '/');
    assert [t[0]] + t[1..] == t;
    var t1 := t[1..];
    assert |t1| > 0 && t1[0] != '/';
    SplitCons(t1[0], t1[1..], '/');
    assert [t1[0]] + t1[1..] == t1;
  }

  /** The part `safeJoin` keeps resolves to names only. */
  lemma RelNames(u: string)
    ensures NoUp(Split(Rel(u), '/'))
    ensures Names(Resolve([], Split(Rel(u), '/'), false))
  {
    NormalizeUpsFirst(StripSeps(u));
    StripUpNoUp(Normalize(StripSeps(u)));
    ResolveResolved([], Split(Rel(u), '/'), false);
  }

  /** The text `safeJoin` hands to `normalize` for a nonempty root. */
  function Joined(root: string, rel: string): string
  {
    if |rel| == 0 then root else root + "/" + rel
  }

  /**
   * `safeJoin` never leaves the root: the joined path's segments are the root's, followed by
   * names only.
   */
  lemma SafeJoinStack(root: string, u: string, ms: seq<string>)
    requires Absolute(root) && ms == Resolve([], Split(Rel(u), '/'), false)
    ensures Absolute(SafeJoin(root, u)) && Names(ms)
    ensures Stack(SafeJoin(root, u)) == Stack(root) + ms
  {
    RelNames(u);
    JoinedStack(root, Rel(u), ms);
    StackOfNormalize(Joined(root, Rel(u)));
  }

  lemma JoinedStack(root: string, rel: string, ms: seq<string>)
    requires Absolute(root) && ms == Resolve([], Split(rel, '/'), false) && NoUp(Split(rel, '/'))
    ensures Absolute(Joined(root, rel)) && Stack(Joined(root, rel)) == Stack(root) + ms
  {
    if |rel| == 0 {
      SplitFree("", '/');
    } else {
      var y := root + "/" + rel;
      assert y == root + ['/'] + rel;
      SplitConcat(root, rel, '/');
      ResolveAppend([], Split(root, '/'), Split(rel, '/'), false);
      ResolveNoUp(Stack(root), Split(rel, '/'), false);
    }
  }

  /** The joined path lies inside the directory the root names. */
  lemma SafeJoinInside(root: string, u: string)
    requires Absolute(root)
    ensures Inside(Dir(Stack(root)), SafeJoin(root, u))
  {
    var ms := Resolve([], Split(Rel(u), '/'), false);
    RelNames(u);
    JoinedStack(root, Rel(u), ms);
    StackNames(root);
    InsideOf(Stack(root), ms, Joined(root, Rel(u)));
  }
}
