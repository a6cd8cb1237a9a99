/**
 * The four ordered `re.sub` rewrites of the selection patcher.
 *
 * Each regular expression is written as a sequence of atoms (a literal, one character of a class,
 * or a greedy run of a class), matched greedily without backtracking. For the four patterns of the
 * patcher that is exactly what the regular expression matches: every greedy run is followed by a
 * literal or a class that its own class cannot start, so giving characters back never helps.
 * `re.sub` then scans the text from left to right, replaces each match and resumes after it.
 */
module PatchRewrite {
  import opened Wrappers

  /** Python's `\w`, ASCII part. */
  predicate IsWordChar(c: char)
  {
    'a' <= c <= 'z' || 'A' <= c <= 'Z' || '0' <= c <= '9' || c == '_'
  }

  /** Python's `\s`, ASCII part. */
  predicate IsSpaceChar(c: char)
  {
    c == ' ' || c == '\t' || c == '\n' || c == '\r' || c == '\U{000B}' || c == '\U{000C}'
  }

  datatype CharClass = Word | Space | IdentStart

  predicate InClass(k: CharClass, c: char)
  {
    match k
    case Word => IsWordChar(c)
    case Space => IsSpaceChar(c)
    case IdentStart => 'a' <= c <= 'z' || 'A' <= c <= 'Z' || c == '_'
  }

  /** One element of a pattern: a literal, exactly one character, or a greedy run (`*` or `+`). */
  datatype Atom = Lit(text: string) | One(cls: CharClass) | Star(cls: CharClass) | Plus(cls: CharClass)

  /** Whether `a` can consume the character `c`. */
  predicate Accepts(a: Atom, c: char)
  {
    match a
    case Lit(l) => c in l
    case One(k) => InClass(k, c)
    case Star(k) => InClass(k, c)
    case Plus(k) => InClass(k, c)
  }

  /** No atom of `p` can consume `c`. */
  predicate Blocks(p: seq<Atom>, c: char)
  {
    forall i :: 0 <= i < |p| ==> !Accepts(p[i], c)
  }

  /** `t` starts with `l`, compared character by character. */
  predicate HasPrefix(t: string, l: string)
    ensures HasPrefix(t, l) <==> |l| <= |t| && t[..|l|] == l
  {
    |l| == 0 || (|t| > 0 && t[0] == l[0] && HasPrefix(t[1..], l[1..]))
  }

  /** `l` occurs somewhere in `t` (Python's `l in t`). */
  predicate Contains(t: string, l: string)
  {
    exists k :: 0 <= k <= |t| && HasPrefix(t[k..], l)
  }

  /** Length of the longest run of `k`-characters at the start of `t`. */
  function Run(k: CharClass, t: string): (n: nat)
    ensures n <= |t|
    ensures forall i :: 0 <= i < n ==> InClass(k, t[i])
    ensures n < |t| ==> !InClass(k, t[n])
  {
    if |t| > 0 && InClass(k, t[0]) then 1 + Run(k, t[1..]) else 0
  }

  /** A run is determined by where it stops. */
  lemma {:induction false} RunUnique(k: CharClass, t: string, n: nat)
    requires n <= |t|
    requires forall i :: 0 <= i < n ==> InClass(k, t[i])
    requires n == |t| || !InClass(k, t[n])
    ensures Run(k, t) == n
  {
    if n > 0 {
      RunUnique(k, t[1..], n - 1);
    }
  }

  /** How many characters atom `a` consumes at the start of `t`, greedily. */
  function AtomLen(a: Atom, t: string): (r: Option<nat>)
    ensures r.Some? ==> r.value <= |t|
    ensures r.Some? ==> forall i :: 0 <= i < r.value ==> Accepts(a, t[i])
  {
    match a
    case Lit(l) =>
      if HasPrefix(t, l) then
        assert forall i :: 0 <= i < |l| ==> t[i] == l[i];
        Some(|l|)
      else None
    case One(k) => if |t| > 0 && InClass(k, t[0]) then Some(1) else None
    case Star(k) => Some(Run(k, t))
    case Plus(k) => var n := Run(k, t); if n > 0 then Some(n) else None
  }

  /** Whether an atom always consumes at least one character when it matches. */
  predicate Consumes(a: Atom)
  {
    match a
    case Lit(l) => |l| > 0
    case One(_) => true
    case Star(_) => false
    case Plus(_) => true
  }

  function Flatten(ss: seq<string>): string
  {
    if |ss| == 0 then [] else ss[0] + Flatten(ss[1..])
  }

  lemma FlattenCons(t: string, n: nat, rest: seq<string>)
    requires n <= |t| && |Flatten(rest)| <= |t| - n
    requires Flatten(rest) == t[n..][..|Flatten(rest)|]
    ensures Flatten([t[..n]] + rest) == t[..n] + Flatten(rest)
    ensures Flatten([t[..n]] + rest) == t[..n + |Flatten(rest)|]
  {
    assert ([t[..n]] + rest)[1..] == rest;
  }

  /**
   * Matches the atoms of `p` one after the other at the start of `t`; on success, the text each
   * atom consumed (so the groups of the regular expression are spans of this list).
   */
  function MatchAtoms(p: seq<Atom>, t: string): (r: Option<seq<string>>)
    ensures r.Some? ==> |r.value| == |p| && |Flatten(r.value)| <= |t|
    ensures r.Some? ==> Flatten(r.value) == t[..|Flatten(r.value)|]
    ensures r.Some? && |p| > 0 && Consumes(p[0]) ==> |r.value[0]| >= 1
    ensures r.Some? && |p| > 0 ==> r.value[0] == t[..|r.value[0]|]
    decreases |p|
  {
    if |p| == 0 then Some([])
    else
      var n := AtomLen(p[0], t);
      if n.None? then None
      else
        var rest := MatchAtoms(p[1..], t[n.value..]);
        if rest.None? then None
        else
          FlattenCons(t, n.value, rest.value);
          Some([t[..n.value]] + rest.value)
  }

  /** Everything a successful match consumed is accepted by some atom: a blocked character is never consumed. */
  lemma {:induction false} MatchAvoids(p: seq<Atom>, t: string, c: char)
    requires Blocks(p, c)
    requires MatchAtoms(p, t).Some?
    ensures forall k :: 0 <= k < |Flatten(MatchAtoms(p, t).value)| ==> t[k] != c
  {
    if |p| > 0 {
      var n := AtomLen(p[0], t).value;
      var rest := MatchAtoms(p[1..], t[n..]).value;
      assert Blocks(p[1..], c) by {
        forall i | 0 <= i < |p[1..]| ensures !Accepts(p[1..][i], c) {
          assert p[1..][i] == p[i + 1];
        }
      }
      MatchAvoids(p[1..], t[n..], c);
      assert MatchAtoms(p, t).value == [t[..n]] + rest;
      assert |Flatten(MatchAtoms(p, t).value)| == n + |Flatten(rest)|;
      forall k | 0 <= k < n + |Flatten(rest)| ensures t[k] != c {
        if k < n {
          assert Accepts(p[0], t[k]);
        } else {
          assert t[n..][k - n] == t[k];
        }
      }
    }
  }

  /** An atom that consumes no more than `t` of `t + u` consumes the same of `t` alone. */
  lemma AtomLenPrefix(a: Atom, t: string, u: string, n: nat)
    requires AtomLen(a, t + u) == Some(n) && n <= |t|
    ensures AtomLen(a, t) == Some(n)
  {
    var tu := t + u;
    match a {
      case Lit(l) =>
        assert t[..|l|] == tu[..|l|];
      case One(k) =>
        assert tu[0] == t[0];
      case Star(k) =>
        RunPrefix(k, t, u, n);
      case Plus(k) =>
        RunPrefix(k, t, u, n);
    }
  }

  lemma RunPrefix(k: CharClass, t: string, u: string, n: nat)
    requires Run(k, t + u) == n && n <= |t|
    ensures Run(k, t) == n
  {
    var tu := t + u;
    forall i | 0 <= i < n ensures InClass(k, t[i]) {
      assert tu[i] == t[i];
    }
    if n < |t| {
      assert tu[n] == t[n];
    }
    RunUnique(k, t, n);
  }

  /** An atom that stops short of the end of `t` consumes the same of `t + u`. */
  lemma AtomLenExtend(a: Atom, t: string, u: string, n: nat)
    requires AtomLen(a, t) == Some(n) && n < |t|
    ensures AtomLen(a, t + u) == Some(n)
  {
    var tu := t + u;
    match a {
      case Lit(l) =>
        assert t[..|l|] == tu[..|l|];
      case One(k) =>
        assert tu[0] == t[0];
      case Star(k) =>
        RunExtend(k, t, u, n);
      case Plus(k) =>
        RunExtend(k, t, u, n);
    }
  }

  lemma RunExtend(k: CharClass, t: string, u: string, n: nat)
    requires Run(k, t) == n && n < |t|
    ensures Run(k, t + u) == n
  {
    var tu := t + u;
    forall i | 0 <= i < n ensures InClass(k, tu[i]) {
      assert tu[i] == t[i];
    }
    assert tu[n] == t[n];
    RunUnique(k, tu, n);
  }

  /** A match that stays inside `t` does not depend on what follows `t`. */
  lemma {:induction false} MatchPrefix(p: seq<Atom>, t: string, u: string)
    requires MatchAtoms(p, t + u).Some?
    requires |Flatten(MatchAtoms(p, t + u).value)| <= |t|
    ensures MatchAtoms(p, t) == MatchAtoms(p, t + u)
  {
    if |p| > 0 {
      var tu := t + u;
      var n := AtomLen(p[0], tu).value;
      var rest := MatchAtoms(p[1..], tu[n..]).value;
      assert MatchAtoms(p, tu).value == [tu[..n]] + rest;
      assert |Flatten(MatchAtoms(p, tu).value)| == n + |Flatten(rest)| by {
        FlattenCons(tu, n, rest);
      }
      AtomLenPrefix(p[0], t, u, n);
      assert tu[n..] == t[n..] + u;
      MatchPrefix(p[1..], t[n..], u);
      assert tu[..n] == t[..n];
    }
  }

  /** A match that ends before the end of `t` survives appending anything to `t`. */
  lemma {:induction false} MatchExtend(p: seq<Atom>, t: string, u: string)
    requires MatchAtoms(p, t).Some?
    requires |Flatten(MatchAtoms(p, t).value)| < |t|
    ensures MatchAtoms(p, t + u) == MatchAtoms(p, t)
  {
    if |p| > 0 {
      var tu := t + u;
      var n := AtomLen(p[0], t).value;
      var rest := MatchAtoms(p[1..], t[n..]).value;
      assert MatchAtoms(p, t).value == [t[..n]] + rest;
      assert |Flatten(MatchAtoms(p, t).value)| == n + |Flatten(rest)| by {
        FlattenCons(t, n, rest);
      }
      AtomLenExtend(p[0], t, u, n);
      assert tu[n..] == t[n..] + u;
      MatchExtend(p[1..], t[n..], u);
      assert tu[..n] == t[..n];
    }
  }

  /** When `t` ends with a character `p` cannot consume, appending to `t` does not change the match. */
  lemma MatchBeforeCut(p: seq<Atom>, t: string, u: string)
    requires |t| > 0 && Blocks(p, t[|t| - 1])
    ensures MatchAtoms(p, t + u) == MatchAtoms(p, t)
  {
    var c := t[|t| - 1];
    if MatchAtoms(p, t).Some? {
      MatchAvoids(p, t, c);
      MatchExtend(p, t, u);
    } else if MatchAtoms(p, t + u).Some? {
      MatchAvoids(p, t + u, c);
      assert (t + u)[|t| - 1] == c;
      MatchPrefix(p, t, u);
    }
  }

  /** The first alternative that matches (Python tries the branches of `|` in order). */
  function FirstMatch(alts: seq<seq<Atom>>, t: string): (r: Option<(nat, seq<string>)>)
    ensures r.Some? ==> r.value.0 < |alts| && MatchAtoms(alts[r.value.0], t) == Some(r.value.1)
    ensures r.None? ==> forall i :: 0 <= i < |alts| ==> MatchAtoms(alts[i], t).None?
    decreases |alts|
  {
    if |alts| == 0 then None
    else
      var m0 := MatchAtoms(alts[0], t);
      if m0.Some? then Some((0, m0.value))
      else
        var rest := FirstMatch(alts[1..], t);
        assert forall i :: 1 <= i < |alts| ==> alts[1..][i - 1] == alts[i];
        if rest.None? then None else Some((rest.value.0 + 1, rest.value.1))
  }

  /** A piece of a replacement template: literal text, or the text of an atom span (a group). */
  datatype Piece = Text(text: string) | Group(index: nat)

  /**
   * One rewrite: the alternatives of its pattern (tried in order), whether the pattern starts
   * with `\b`, and the replacement template.
   */
  datatype Rule = Rule(alts: seq<seq<Atom>>, boundary: bool, template: seq<Piece>)

  /** Every alternative starts with an atom that consumes, so no match is empty. */
  predicate WellFormed(r: Rule)
  {
    forall i :: 0 <= i < |r.alts| ==> |r.alts[i]| > 0 && Consumes(r.alts[i][0])
  }

  /** The replacement text, with each group taken from the atom spans. */
  function Expand(template: seq<Piece>, sp: seq<string>): string
  {
    if |template| == 0 then []
    else
      var head := match template[0]
        case Text(x) => x
        case Group(i) => if i < |sp| then sp[i] else [];
      head + Expand(template[1..], sp)
  }

  const WindowCall := "window.getSelection().getRangeAt(0)"
  const DocumentCall := "document.getSelection().getRangeAt(0)"
  const RangeCall := ".getRangeAt(0)"
  const MarkedGet := "/*SAFE*/(safeGetRange())"
  const MarkedFromOpen := "/*SAFE*/(safeGetRangeFrom("

  /** Rule 1: `(?:window|document)\.getSelection\(\)\.getRangeAt\(0\)` becomes `/*SAFE*/(safeGetRange())`. */
  const SelectionCall := Rule([[Lit(WindowCall)], [Lit(DocumentCall)]], false, [Text(MarkedGet)])

  /** Rule 2: `(\b[A-Za-z_]\w*)\.getRangeAt\(0\)` becomes `/*SAFE*/(safeGetRangeFrom(\1))`. */
  const VariableCall := Rule([[One(IdentStart), Star(Word), Lit(RangeCall)]], true,
                             [Text(MarkedFromOpen), Group(0), Group(1), Text("))")])

  /** The part rules 3 and 4 share: `const\s+(\w+)\s*=\s*`. */
  const ConstHead := [Lit("const"), Plus(Space), Plus(Word), Star(Space), Lit("="), Star(Space)]

  /** Rule 3: `const\s+(\w+)\s*=\s*\/\*SAFE\*\/\(safeGetRange\(\)\)\s*;` becomes `const \1 = safeGetRange();`. */
  const ConstRange := Rule([ConstHead + [Lit(MarkedGet), Star(Space), Lit(";")]], false,
                           [Text("const "), Group(2), Text(" = safeGetRange();")])

  /** Rule 4: as rule 3 for `safeGetRangeFrom\((\w+)\)`, becoming `const \1 = safeGetRangeFrom(\2);`. */
  const ConstRangeFrom := Rule([ConstHead + [Lit(MarkedFromOpen), Plus(Word), Lit("))"), Star(Space), Lit(";")]], false,
                               [Text("const "), Group(2), Text(" = safeGetRangeFrom("), Group(7), Text(");")])

  /** The match of rule `r` at the start of `t`, ignoring `\b`: how much it consumes and what replaces it. */
  function MatchBody(r: Rule, t: string): (m: Option<(nat, string)>)
    requires WellFormed(r)
    ensures m.Some? ==> 1 <= m.value.0 <= |t|
  {
    match FirstMatch(r.alts, t)
    case None => None
    case Some((i, sp)) =>
      assert Consumes(r.alts[i][0]);
      assert |Flatten(sp)| >= |sp[0]|;
      Some((|Flatten(sp)|, Expand(r.template, sp)))
  }

  /** The match of rule `r` at the start of `t`, given the character before `t` (none at the start of the text). */
  function MatchRule(r: Rule, prev: Option<char>, t: string): (m: Option<(nat, string)>)
    requires WellFormed(r)
    ensures m.Some? ==> 1 <= m.value.0 <= |t|
  {
    if r.boundary && prev.Some? && IsWordChar(prev.value) then None else MatchBody(r, t)
  }

  /**
   * What a scan needs from a pattern: given the character before the text (none at the start of
   * the text), the length of the match at the start of the text and its replacement.
   */
  type Matcher = (Option<char>, string) -> Option<(nat, string)>

  /**
   * The `re.sub` scan with matcher `m` over the rest `t` of the text, `prev` being the character
   * before `t`: a match is replaced and the scan resumes after it; elsewhere one character is
   * copied. A match of a rule always advances (`MatchRule`'s contract); the bound test only keeps
   * the scan total for any matcher.
   */
  function Scan(m: Matcher, prev: Option<char>, t: string): string
    decreases |t|
  {
    if |t| == 0 then []
    else
      var h := m(prev, t);
      if h.Some? && 1 <= h.value.0 <= |t| then h.value.1 + Scan(m, Some(t[h.value.0 - 1]), t[h.value.0..])
      else [t[0]] + Scan(m, Some(t[0]), t[1..])
  }

  function RuleMatcher(r: Rule): Matcher
    requires WellFormed(r)
  {
    (prev: Option<char>, t: string) => MatchRule(r, prev, t)
  }

  lemma RuleMatcherIs(r: Rule, prev: Option<char>, t: string)
    requires WellFormed(r)
    ensures RuleMatcher(r)(prev, t) == MatchRule(r, prev, t)
  {
  }

  /** `re.sub(pattern_r, replacement_r, s)`. */
  function Sub(r: Rule, s: string): string
    requires WellFormed(r)
  {
    Scan(RuleMatcher(r), None, s)
  }

  /** `patch_src`: the four rewrites in order. */
  function PatchSrc(s: string): string
  {
    RulesWellFormed();
    Sub(ConstRangeFrom, Sub(ConstRange, Sub(VariableCall, Sub(SelectionCall, s))))
  }

  lemma RulesWellFormed()
    ensures WellFormed(SelectionCall) && WellFormed(VariableCall)
    ensures WellFormed(ConstRange) && WellFormed(ConstRangeFrom)
  {
  }

  // ---------------------------------------------------------------------------------------------
  // Locality of the scan

  /**
   * Along the scan of `a + b`, every step inside `a` sees the same match as in `a` alone, no match
   * runs to the end of `a`, and the scan of `b` that follows does not depend on the last character of `a`.
   */
  ghost predicate Separated(m: Matcher, prev: Option<char>, a: string, b: string)
    decreases |a|
  {
    && |a| > 0
    && m(prev, a + b) == m(prev, a)
    && var h := m(prev, a);
       if h.Some? then
         1 <= h.value.0 < |a| && Separated(m, Some(a[h.value.0 - 1]), a[h.value.0..], b)
       else if |a| == 1 then
         m(Some(a[0]), b) == m(None, b)
       else
         Separated(m, Some(a[0]), a[1..], b)
  }

  lemma {:induction false} ScanConcat(m: Matcher, prev: Option<char>, a: string, b: string)
    requires Separated(m, prev, a, b)
    ensures Scan(m, prev, a + b) == Scan(m, prev, a) + Scan(m, None, b)
    decreases |a|
  {
    var h := m(prev, a);
    if h.Some? {
      var n := h.value.0;
      ScanConcat(m, Some(a[n - 1]), a[n..], b);
      ScanConcatMatchStep(m, prev, a, b, n);
    } else if |a| == 1 {
      ScanConcatLast(m, prev, a, b);
    } else {
      ScanConcat(m, Some(a[0]), a[1..], b);
      ScanConcatCopyStep(m, prev, a, b);
    }
  }

  lemma ScanConcatMatchStep(m: Matcher, prev: Option<char>, a: string, b: string, n: nat)
    requires 1 <= n < |a| && m(prev, a + b) == m(prev, a) && m(prev, a).Some? && m(prev, a).value.0 == n
    requires Scan(m, Some(a[n - 1]), a[n..] + b) == Scan(m, Some(a[n - 1]), a[n..]) + Scan(m, None, b)
    ensures Scan(m, prev, a + b) == Scan(m, prev, a) + Scan(m, None, b)
  {
    ScanMatchesPrefix(m, prev, a, b, n);
    ScanMatches(m, prev, a, n);
    Assoc(m(prev, a).value.1, Scan(m, Some(a[n - 1]), a[n..]), Scan(m, None, b));
  }

  /** A match inside `a` is taken the same way when `b` follows. */
  lemma ScanMatchesPrefix(m: Matcher, prev: Option<char>, a: string, b: string, n: nat)
    requires 1 <= n <= |a| && m(prev, a + b).Some? && m(prev, a + b).value.0 == n
    ensures Scan(m, prev, a + b) == m(prev, a + b).value.1 + Scan(m, Some(a[n - 1]), a[n..] + b)
  {
    var ab := a + b;
    assert ab[n..] == a[n..] + b;
    assert ab[n - 1] == a[n - 1];
    ScanMatches(m, prev, ab, n);
  }

  /** A character of `a` the scan copies is copied the same way when `b` follows. */
  lemma ScanCopiesPrefix(m: Matcher, prev: Option<char>, a: string, b: string)
    requires |a| > 0 && m(prev, a + b).None?
    ensures Scan(m, prev, a + b) == [a[0]] + Scan(m, Some(a[0]), a[1..] + b)
  {
    var ab := a + b;
    ScanCopies(m, prev, ab);
    assert ab[0] == a[0] && ab[1..] == a[1..] + b;
  }

  lemma ScanConcatLast(m: Matcher, prev: Option<char>, a: string, b: string)
    requires |a| == 1 && m(prev, a + b) == m(prev, a) && m(prev, a).None?
    requires m(Some(a[0]), b) == m(None, b)
    ensures Scan(m, prev, a + b) == Scan(m, prev, a) + Scan(m, None, b)
  {
    ScanCopiesPrefix(m, prev, a, b);
    ScanCopies(m, prev, a);
    assert a[1..] + b == b by { assert a[1..] == []; }
    assert Scan(m, Some(a[0]), a[1..]) == [] by { assert a[1..] == []; }
    ScanSamePrev(m, Some(a[0]), None, b);
  }

  lemma ScanConcatCopyStep(m: Matcher, prev: Option<char>, a: string, b: string)
    requires |a| > 1 && m(prev, a + b) == m(prev, a) && m(prev, a).None?
    requires Scan(m, Some(a[0]), a[1..] + b) == Scan(m, Some(a[0]), a[1..]) + Scan(m, None, b)
    ensures Scan(m, prev, a + b) == Scan(m, prev, a) + Scan(m, None, b)
  {
    ScanCopiesPrefix(m, prev, a, b);
    ScanCopies(m, prev, a);
    Assoc([a[0]], Scan(m, Some(a[0]), a[1..]), Scan(m, None, b));
  }

  /** Where `m` matches, the scan puts the replacement and resumes after the match. */
  lemma ScanMatches(m: Matcher, prev: Option<char>, t: string, n: nat)
    requires |t| > 0 && m(prev, t).Some? && m(prev, t).value.0 == n && 1 <= n <= |t|
    ensures Scan(m, prev, t) == m(prev, t).value.1 + Scan(m, Some(t[n - 1]), t[n..])
  {
  }

  lemma {:induction false} ScanKeepsLast(m: Matcher, prev: Option<char>, a: string, b: string)
    requires Separated(m, prev, a, b)
    ensures |Scan(m, prev, a)| > 0 && Scan(m, prev, a)[|Scan(m, prev, a)| - 1] == a[|a| - 1]
    decreases |a|
  {
    var h := m(prev, a);
    if h.Some? {
      var n := h.value.0;
      ScanKeepsLast(m, Some(a[n - 1]), a[n..], b);
    } else if |a| > 1 {
      ScanKeepsLast(m, Some(a[0]), a[1..], b);
    }
  }

  /** A character no match of `r` can consume and that is not a word character. */
  predicate Cut(r: Rule, c: char)
  {
    !IsWordChar(c) && forall i :: 0 <= i < |r.alts| ==> Blocks(r.alts[i], c)
  }

  lemma {:induction false} FirstMatchSame(alts: seq<seq<Atom>>, t: string, t': string)
    requires forall i :: 0 <= i < |alts| ==> MatchAtoms(alts[i], t') == MatchAtoms(alts[i], t)
    ensures FirstMatch(alts, t') == FirstMatch(alts, t)
    decreases |alts|
  {
    if |alts| > 0 {
      FirstMatchSame(alts[1..], t, t');
    }
  }

  lemma MatchRuleBeforeCut(r: Rule, prev: Option<char>, t: string, u: string)
    requires WellFormed(r)
    requires |t| > 0 && Cut(r, t[|t| - 1])
    ensures MatchRule(r, prev, t + u) == MatchRule(r, prev, t)
  {
    var alts := r.alts;
    forall i | 0 <= i < |alts| ensures MatchAtoms(alts[i], t + u) == MatchAtoms(alts[i], t) {
      MatchBeforeCut(alts[i], t, u);
    }
    FirstMatchSame(alts, t, t + u);
  }

  /** A match starting before a cut ends before it. */
  lemma MatchStopsAtCut(r: Rule, prev: Option<char>, t: string, k: nat)
    requires WellFormed(r)
    requires k < |t| && Cut(r, t[k])
    requires MatchRule(r, prev, t).Some?
    ensures MatchRule(r, prev, t).value.0 <= k
  {
    var (i, sp) := FirstMatch(r.alts, t).value;
    MatchAvoids(r.alts[i], t, t[k]);
  }

  /** Text ending with a cut of `r` is separated from whatever follows it. */
  lemma {:induction false} RuleSeparated(r: Rule, prev: Option<char>, a: string, b: string)
    requires WellFormed(r)
    requires |a| > 0 && Cut(r, a[|a| - 1])
    ensures Separated(RuleMatcher(r), prev, a, b)
    decreases |a|, 1
  {
    var m := RuleMatcher(r);
    MatchRuleBeforeCut(r, prev, a, b);
    RuleMatcherIs(r, prev, a);
    RuleMatcherIs(r, prev, a + b);
    var h := MatchRule(r, prev, a);
    if h.Some? {
      var n := h.value.0;
      MatchStopsAtCut(r, prev, a, |a| - 1);
      RuleSeparatedAfter(r, a, n, b);
      SeparatedByMatch(m, prev, a, b, n);
    } else if |a| == 1 {
      RuleMatcherIs(r, Some(a[0]), b);
      RuleMatcherIs(r, None, b);
      SeparatedLast(m, prev, a, b);
    } else {
      RuleSeparatedAfter(r, a, 1, b);
      SeparatedByCopy(m, prev, a, b);
    }
  }

  lemma SeparatedByMatch(m: Matcher, prev: Option<char>, a: string, b: string, n: nat)
    requires |a| > 0 && m(prev, a + b) == m(prev, a) && m(prev, a).Some? && n == m(prev, a).value.0
    requires 1 <= n < |a| && Separated(m, Some(a[n - 1]), a[n..], b)
    ensures Separated(m, prev, a, b)
  {
  }

  lemma SeparatedLast(m: Matcher, prev: Option<char>, a: string, b: string)
    requires |a| == 1 && m(prev, a + b) == m(prev, a) && m(prev, a).None?
    requires m(Some(a[0]), b) == m(None, b)
    ensures Separated(m, prev, a, b)
  {
  }

  lemma SeparatedByCopy(m: Matcher, prev: Option<char>, a: string, b: string)
    requires |a| > 1 && m(prev, a + b) == m(prev, a) && m(prev, a).None?
    requires Separated(m, Some(a[0]), a[1..], b)
    ensures Separated(m, prev, a, b)
  {
  }

  lemma {:induction false} RuleSeparatedAfter(r: Rule, a: string, n: nat, b: string)
    requires WellFormed(r)
    requires 1 <= n < |a| && Cut(r, a[|a| - 1])
    ensures Separated(RuleMatcher(r), Some(a[n - 1]), a[n..], b)
    decreases |a|, 0
  {
    assert a[n..][|a[n..]| - 1] == a[|a| - 1];
    RuleSeparated(r, Some(a[n - 1]), a[n..], b);
  }

  /** When `a` ends with a cut of rule `r`, rewriting `a + b` rewrites `a` and `b` separately. */
  lemma SubConcat(r: Rule, a: string, b: string)
    requires WellFormed(r)
    requires |a| > 0 && Cut(r, a[|a| - 1])
    ensures Sub(r, a + b) == Sub(r, a) + Sub(r, b)
  {
    RuleSeparated(r, None, a, b);
    ScanConcat(RuleMatcher(r), None, a, b);
  }

  /** A cut of rule `r` that ends the text also ends the rewritten text. */
  lemma SubKeepsLastCut(r: Rule, a: string)
    requires WellFormed(r)
    requires |a| > 0 && Cut(r, a[|a| - 1])
    ensures |Sub(r, a)| > 0 && Sub(r, a)[|Sub(r, a)| - 1] == a[|a| - 1]
  {
    RuleSeparated(r, None, a, []);
    ScanKeepsLast(RuleMatcher(r), None, a, []);
  }

  // ---------------------------------------------------------------------------------------------
  // Text the scan copies through

  /** No match of `m` starts anywhere in `t`. */
  ghost predicate Unmatched(m: Matcher, prev: Option<char>, t: string)
    decreases |t|
  {
    |t| == 0 || (m(prev, t).None? && Unmatched(m, Some(t[0]), t[1..]))
  }

  lemma {:induction false} ScanUnmatched(m: Matcher, prev: Option<char>, t: string)
    requires Unmatched(m, prev, t)
    ensures Scan(m, prev, t) == t
    decreases |t|
  {
    if |t| > 0 {
      ScanUnmatched(m, Some(t[0]), t[1..]);
    }
  }

  /** `t` has no occurrence of the character `c`. */
  predicate Lacks(t: string, c: char)
  {
    forall k :: 0 <= k < |t| ==> t[k] != c
  }

  /** Some literal of `p` holds `c`, so every match of `p` consumes a `c`. */
  predicate Needs(p: seq<Atom>, c: char)
    decreases |p|
  {
    |p| > 0 && ((p[0].Lit? && c in p[0].text) || Needs(p[1..], c))
  }

  /** Every alternative of `r` needs `c`. */
  predicate RuleNeeds(r: Rule, c: char)
  {
    forall i :: 0 <= i < |r.alts| ==> Needs(r.alts[i], c)
  }

  lemma {:induction false} MatchNeeds(p: seq<Atom>, t: string, c: char)
    requires Needs(p, c) && MatchAtoms(p, t).Some?
    ensures !Lacks(t, c)
    decreases |p|
  {
    var n := AtomLen(p[0], t).value;
    if p[0].Lit? && c in p[0].text {
      var q :| 0 <= q < |p[0].text| && p[0].text[q] == c;
      assert t[q] == c;
    } else {
      MatchNeeds(p[1..], t[n..], c);
      var k :| 0 <= k < |t[n..]| && t[n..][k] == c;
      assert t[n + k] == c;
    }
  }

  /** A rule whose every alternative needs `c` never matches in text without a `c`. */
  lemma {:induction false} RuleUnmatched(r: Rule, prev: Option<char>, t: string, c: char)
    requires WellFormed(r) && RuleNeeds(r, c) && Lacks(t, c)
    ensures Unmatched(RuleMatcher(r), prev, t)
    decreases |t|
  {
    if |t| > 0 {
      if FirstMatch(r.alts, t).Some? {
        var i := FirstMatch(r.alts, t).value.0;
        MatchNeeds(r.alts[i], t, c);
      }
      assert MatchRule(r, prev, t).None?;
      RuleUnmatched(r, Some(t[0]), t[1..], c);
    }
  }

  /** Rewriting text that lacks a character every match needs changes nothing. */
  lemma SubLacking(r: Rule, t: string, c: char)
    requires WellFormed(r) && RuleNeeds(r, c) && Lacks(t, c)
    ensures Sub(r, t) == t
  {
    RuleUnmatched(r, None, t, c);
    ScanUnmatched(RuleMatcher(r), None, t);
  }

  /** Text lacking a character every match needs, and ending in a cut, is copied in front of the rest. */
  lemma CopyThen(r: Rule, c: char, m: string, b: string)
    requires WellFormed(r) && RuleNeeds(r, c) && Lacks(m, c)
    requires |m| > 0 && Cut(r, m[|m| - 1])
    ensures Sub(r, m + b) == m + Sub(r, b)
  {
    SubConcat(r, m, b);
    SubLacking(r, m, c);
  }

  // ---------------------------------------------------------------------------------------------
  // What each rule rewrites

  /** A scan whose first step sees the same match from two different preceding characters. */
  lemma ScanSamePrev(m: Matcher, p: Option<char>, q: Option<char>, t: string)
    requires m(p, t) == m(q, t)
    ensures Scan(m, p, t) == Scan(m, q, t)
  {
  }

  /** Text that continues with a match of `m` is rewritten by the replacement, then the scan goes on after it. */
  lemma ScanMatched(m: Matcher, prev: Option<char>, t: string, b: string, x: string)
    requires |t| > 0 && m(prev, t + b) == Some((|t|, x))
    ensures Scan(m, prev, t + b) == x + Scan(m, Some(t[|t| - 1]), b)
  {
    assert (t + b)[|t|..] == b;
    assert (t + b)[|t| - 1] == t[|t| - 1];
  }

  /** A rule without `\b` ignores the character before the text. */
  lemma NoBoundarySamePrev(r: Rule, c: char, t: string)
    requires WellFormed(r) && !r.boundary
    ensures Scan(RuleMatcher(r), Some(c), t) == Scan(RuleMatcher(r), None, t)
  {
    assert MatchRule(r, Some(c), t) == MatchRule(r, None, t);
    ScanSamePrev(RuleMatcher(r), Some(c), None, t);
  }

  /** A pattern made of one literal matches exactly where the text starts with it. */
  lemma MatchLiteral(l: string, t: string)
    ensures HasPrefix(t, l) ==> MatchAtoms([Lit(l)], t) == Some([l])
    ensures !HasPrefix(t, l) ==> MatchAtoms([Lit(l)], t) == None
  {
    var p := [Lit(l)];
    assert p[0] == Lit(l) && p[1..] == [];
    if HasPrefix(t, l) {
      assert AtomLen(p[0], t) == Some(|l|);
      assert MatchAtoms(p[1..], t[|l|..]) == Some([]);
      assert t[..|l|] == l;
      assert [t[..|l|]] + [] == [l];
    } else {
      assert AtomLen(p[0], t) == None;
    }
  }

  /** One atom then the rest of the pattern. */
  lemma MatchCons(p: seq<Atom>, t: string, n: nat, rest: seq<string>)
    requires |p| > 0 && AtomLen(p[0], t) == Some(n) && MatchAtoms(p[1..], t[n..]) == Some(rest)
    ensures MatchAtoms(p, t) == Some([t[..n]] + rest)
  {
  }

  /** The match of a rule, from the alternative that matched. */
  lemma MatchRuleFrom(r: Rule, prev: Option<char>, t: string, i: nat, sp: seq<string>)
    requires WellFormed(r)
    requires !(r.boundary && prev.Some? && IsWordChar(prev.value))
    requires FirstMatch(r.alts, t) == Some((i, sp))
    ensures MatchRule(r, prev, t) == Some((|Flatten(sp)|, Expand(r.template, sp)))
  {
    assert MatchBody(r, t) == Some((|Flatten(sp)|, Expand(r.template, sp)));
  }

  /** Rule 1 matches a whole selection call and nothing more. */
  lemma SelectionCallMatch(prev: Option<char>, call: string, b: string)
    requires call == WindowCall || call == DocumentCall
    ensures MatchRule(SelectionCall, prev, call + b) == Some((|call|, MarkedGet))
  {
    RulesWellFormed();
    var t := call + b;
    var alts := SelectionCall.alts;
    assert t[..|call|] == call;
    MatchLiteral(WindowCall, t);
    MatchLiteral(DocumentCall, t);
    if call == WindowCall {
      assert FirstMatch(alts, t) == Some((0, [call]));
    } else {
      assert t[0] != WindowCall[0];
      assert alts[1..] == [[Lit(DocumentCall)]];
      assert FirstMatch(alts[1..], t) == Some((0, [call]));
      assert FirstMatch(alts, t) == Some((1, [call]));
    }
    assert Flatten([call]) == call;
    assert Expand(SelectionCall.template, [call]) == MarkedGet;
    MatchRuleFrom(SelectionCall, prev, t, if call == WindowCall then 0 else 1, [call]);
  }

  lemma SelectionCallMatcher(call: string, b: string)
    requires call == WindowCall || call == DocumentCall
    ensures WellFormed(SelectionCall)
    ensures RuleMatcher(SelectionCall)(None, call + b) == Some((|call|, MarkedGet))
    ensures RuleMatcher(SelectionCall)(Some(call[|call| - 1]), b) == RuleMatcher(SelectionCall)(None, b)
  {
    RulesWellFormed();
    SelectionCallMatch(None, call, b);
    RuleMatcherIs(SelectionCall, None, call + b);
    RuleMatcherIs(SelectionCall, None, b);
    RuleMatcherIs(SelectionCall, Some(call[|call| - 1]), b);
  }

  /** A match of `r` that covers exactly `t` at the start of the text is replaced, and the scan goes on after it. */
  lemma SubReplacedAtStart(r: Rule, t: string, b: string, x: string)
    requires WellFormed(r) && |t| > 0
    requires RuleMatcher(r)(None, t + b) == Some((|t|, x))
    requires RuleMatcher(r)(Some(t[|t| - 1]), b) == RuleMatcher(r)(None, b)
    ensures Sub(r, t + b) == x + Sub(r, b)
  {
    var m := RuleMatcher(r);
    ScanMatched(m, None, t, b, x);
    ScanSamePrev(m, Some(t[|t| - 1]), None, b);
  }

  /** The same after a cut: the text on either side of the match is rewritten independently. */
  lemma SubReplaced(r: Rule, a: string, t: string, b: string, x: string)
    requires WellFormed(r) && |t| > 0
    requires |a| > 0 && Cut(r, a[|a| - 1])
    requires RuleMatcher(r)(None, t + b) == Some((|t|, x))
    requires RuleMatcher(r)(Some(t[|t| - 1]), b) == RuleMatcher(r)(None, b)
    ensures Sub(r, a + (t + b)) == Sub(r, a) + (x + Sub(r, b))
  {
    SubReplacedAtStart(r, t, b, x);
    SubConcat(r, a, t + b);
  }

  /**
   * Rule 1 replaces a `window.getSelection().getRangeAt(0)` or
   * `document.getSelection().getRangeAt(0)` that starts the text or follows a cut, and rewrites
   * the text on either side of it independently.
   */
  lemma SelectionCallReplaced(a: string, call: string, b: string)
    requires call == WindowCall || call == DocumentCall
    requires a == [] || Cut(SelectionCall, a[|a| - 1])
    ensures Sub(SelectionCall, a + (call + b)) == Sub(SelectionCall, a) + (MarkedGet + Sub(SelectionCall, b))
  {
    RulesWellFormed();
    SelectionCallMatcher(call, b);
    if a == [] {
      SubReplacedAtStart(SelectionCall, call, b, MarkedGet);
      assert a + (call + b) == call + b;
      assert Sub(SelectionCall, a) == [];
    } else {
      SubReplaced(SelectionCall, a, call, b, MarkedGet);
    }
  }

  /** An identifier as rule 2 captures it: `[A-Za-z_]\w*`. */
  predicate IsIdentifier(x: string)
  {
    |x| > 0 && InClass(IdentStart, x[0]) && forall k :: 0 < k < |x| ==> IsWordChar(x[k])
  }

  /** A greedy run over exactly `w`, then the literal `l`: `w` must stop where `l` starts. */
  lemma MatchRunLiteral(k: CharClass, w: string, l: string, b: string)
    requires forall i :: 0 <= i < |w| ==> InClass(k, w[i])
    requires |l| > 0 && !InClass(k, l[0])
    ensures MatchAtoms([Star(k), Lit(l)], w + (l + b)) == Some([w, l])
  {
    var u := w + (l + b);
    var p := [Star(k), Lit(l)];
    assert u[|w|] == l[0];
    RunUnique(k, u, |w|);
    assert u[|w|..] == l + b;
    MatchLiteral(l, l + b);
    assert p[1..] == [Lit(l)];
    MatchCons(p, u, |w|, [l]);
    assert u[..|w|] == w;
    assert [w] + [l] == [w, l];
  }

  /** The pattern of rule 2 on an identifier followed by `l`. */
  lemma MatchIdentifierLiteral(x: string, l: string, b: string)
    requires IsIdentifier(x)
    requires |l| > 0 && !IsWordChar(l[0])
    ensures MatchAtoms([One(IdentStart), Star(Word), Lit(l)], x + (l + b)) == Some([x[..1], x[1..], l])
  {
    var u := x + (l + b);
    var p := [One(IdentStart), Star(Word), Lit(l)];
    assert u[0] == x[0];
    assert u[1..] == x[1..] + (l + b);
    MatchRunLiteral(Word, x[1..], l, b);
    assert p[1..] == [Star(Word), Lit(l)];
    MatchCons(p, u, 1, [x[1..], l]);
    assert u[..1] == x[..1];
    assert [u[..1]] + [x[1..], l] == [x[..1], x[1..], l];
  }

  /** Rule 2 matches an identifier followed by `.getRangeAt(0)`, unless a word character precedes it. */
  lemma VariableCallMatch(prev: Option<char>, x: string, b: string)
    requires IsIdentifier(x)
    requires prev.None? || !IsWordChar(prev.value)
    ensures MatchRule(VariableCall, prev, x + (RangeCall + b)) == Some((|x| + |RangeCall|, MarkedFromOpen + (x + "))")))
  {
    RulesWellFormed();
    var u := x + (RangeCall + b);
    var sp := [x[..1], x[1..], RangeCall];
    MatchIdentifierLiteral(x, RangeCall, b);
    FirstMatchSingle(VariableCall.alts, u, sp);
    assert x[..1] + x[1..] == x;
    FlattenThree(x[..1], x[1..], RangeCall);
    Assoc(x[..1], x[1..], RangeCall);
    ExpandMarkedCall(MarkedFromOpen, "))", sp);
    Assoc(x[..1], x[1..], "))");
    MatchRuleFrom(VariableCall, prev, u, 0, sp);
  }

  lemma FirstMatchSingle(alts: seq<seq<Atom>>, t: string, sp: seq<string>)
    requires |alts| == 1 && MatchAtoms(alts[0], t) == Some(sp)
    ensures FirstMatch(alts, t) == Some((0, sp))
  {
  }

  /** The template of rule 2: an opening text, groups 0 and 1, and a closing text. */
  lemma ExpandMarkedCall(o: string, c: string, sp: seq<string>)
    requires |sp| >= 2
    ensures Expand([Text(o), Group(0), Group(1), Text(c)], sp) == o + (sp[0] + (sp[1] + c))
  {
    var tpl := [Text(o), Group(0), Group(1), Text(c)];
    assert tpl[1..] == [Group(0), Group(1), Text(c)];
    assert tpl[1..][1..] == [Group(1), Text(c)];
    assert tpl[1..][1..][1..] == [Text(c)] && tpl[1..][1..][1..][1..] == [];
    assert Expand(tpl[1..][1..][1..], sp) == c;
    assert Expand(tpl[1..][1..], sp) == sp[1] + c;
    assert Expand(tpl[1..], sp) == sp[0] + (sp[1] + c);
  }

  lemma VariableCallMatcher(x: string, b: string)
    requires IsIdentifier(x)
    ensures WellFormed(VariableCall)
    ensures RuleMatcher(VariableCall)(None, x + RangeCall + b) == Some((|x + RangeCall|, MarkedFromOpen + (x + "))")))
    ensures RuleMatcher(VariableCall)(Some((x + RangeCall)[|x + RangeCall| - 1]), b) == RuleMatcher(VariableCall)(None, b)
  {
    RulesWellFormed();
    assert x + RangeCall + b == x + (RangeCall + b);
    VariableCallMatch(None, x, b);
    RuleMatcherIs(VariableCall, None, x + RangeCall + b);
    var c := (x + RangeCall)[|x + RangeCall| - 1];
    assert c == ')';
    RuleMatcherIs(VariableCall, None, b);
    RuleMatcherIs(VariableCall, Some(c), b);
  }

  /**
   * Rule 2 replaces an identifier followed by `.getRangeAt(0)` that starts the text or follows a
   * cut, and rewrites the text on either side of it independently.
   */
  lemma VariableCallReplaced(a: string, x: string, b: string)
    requires IsIdentifier(x)
    requires a == [] || Cut(VariableCall, a[|a| - 1])
    ensures Sub(VariableCall, a + (x + RangeCall + b))
         == Sub(VariableCall, a) + (MarkedFromOpen + (x + "))") + Sub(VariableCall, b))
  {
    VariableCallMatcher(x, b);
    var r := MarkedFromOpen + (x + "))");
    if a == [] {
      SubReplacedAtStart(VariableCall, x + RangeCall, b, r);
      assert a + (x + RangeCall + b) == x + RangeCall + b;
      assert Sub(VariableCall, a) == [];
    } else {
      SubReplaced(VariableCall, a, x + RangeCall, b, r);
    }
  }

  /** Every character of `w` is in class `k`. */
  predicate AllIn(k: CharClass, w: string)
  {
    forall i :: 0 <= i < |w| ==> InClass(k, w[i])
  }

  /** A literal in front of a pattern consumes itself. */
  lemma MatchLiteralThen(l: string, rest: string, p: seq<Atom>, sp: seq<string>, q: seq<Atom>, sq: seq<string>)
    requires MatchAtoms(p, rest) == Some(sp)
    requires q == [Lit(l)] + p && sq == [l] + sp
    ensures MatchAtoms(q, l + rest) == Some(sq)
  {
    var t := l + rest;
    assert q[0] == Lit(l) && q[1..] == p;
    assert t[..|l|] == l && t[|l|..] == rest;
    MatchCons(q, t, |l|, sp);
  }

  /** A greedy run in front of a pattern consumes exactly `w` when `w` is followed by a character outside the class. */
  lemma MatchRunThen(a: Atom, w: string, rest: string, p: seq<Atom>, sp: seq<string>, q: seq<Atom>, sq: seq<string>)
    requires a.Star? || (a.Plus? && |w| > 0)
    requires AllIn(a.cls, w) && |rest| > 0 && !InClass(a.cls, rest[0])
    requires MatchAtoms(p, rest) == Some(sp)
    requires q == [a] + p && sq == [w] + sp
    ensures MatchAtoms(q, w + rest) == Some(sq)
  {
    var t := w + rest;
    assert q[0] == a && q[1..] == p;
    assert t[|w|] == rest[0];
    RunUnique(a.cls, t, |w|);
    assert t[..|w|] == w && t[|w|..] == rest;
    MatchCons(q, t, |w|, sp);
  }

  lemma Cons4<T>(a: T, b: T, c: T, d: T, q: seq<T>)
    ensures [a] + ([b, c, d] + q) == [a, b, c, d] + q
  {
    assert [a] + ([b, c, d] + q) == [a, b, c, d] + q;
  }

  lemma Cons6<T>(a: T, b: T, c: T, d: T, e: T, f: T, q: seq<T>)
    ensures [a] + ([b] + ([c, d, e, f] + q)) == [a, b, c, d, e, f] + q
  {
    assert [a] + ([b] + ([c, d, e, f] + q)) == [a, b, c, d, e, f] + q;
  }

  lemma Cons3<T>(a: T, b: T, c: T, q: seq<T>)
    ensures [a] + ([b] + ([c] + q)) == [a, b, c] + q
  {
    assert [a] + ([b] + ([c] + q)) == [a, b, c] + q;
  }

  /** `\s*=\s*` in front of a pattern. */
  lemma EqualsMatch(s2: string, s3: string, rest: string, q: seq<Atom>, sq: seq<string>)
    requires AllIn(Space, s2) && AllIn(Space, s3)
    requires |rest| > 0 && !IsSpaceChar(rest[0])
    requires MatchAtoms(q, rest) == Some(sq)
    ensures MatchAtoms([Star(Space), Lit("="), Star(Space)] + q, s2 + ("=" + (s3 + rest)))
         == Some([s2, "=", s3] + sq)
  {
    var p5 := [Star(Space)] + q;
    var p4 := [Lit("=")] + p5;
    MatchRunThen(Star(Space), s3, rest, q, sq, p5, [s3] + sq);
    MatchLiteralThen("=", s3 + rest, p5, [s3] + sq, p4, ["="] + ([s3] + sq));
    MatchRunThen(Star(Space), s2, "=" + (s3 + rest), p4, ["="] + ([s3] + sq), [Star(Space)] + p4, [s2] + (["="] + ([s3] + sq)));
    Cons3(Star(Space), Lit("="), Star(Space), q);
    Cons3(s2, "=", s3, sq);
  }

  /** `\w+\s*=\s*` in front of a pattern. */
  lemma NameEqualsMatch(n: string, s2: string, s3: string, rest: string, q: seq<Atom>, sq: seq<string>)
    requires |n| > 0 && AllIn(Word, n) && AllIn(Space, s2) && AllIn(Space, s3)
    requires |rest| > 0 && !IsSpaceChar(rest[0])
    requires MatchAtoms(q, rest) == Some(sq)
    ensures MatchAtoms([Plus(Word), Star(Space), Lit("="), Star(Space)] + q, n + (s2 + ("=" + (s3 + rest))))
         == Some([n, s2, "=", s3] + sq)
  {
    var t3 := s2 + ("=" + (s3 + rest));
    var p3 := [Star(Space), Lit("="), Star(Space)] + q;
    EqualsMatch(s2, s3, rest, q, sq);
    assert !IsWordChar(t3[0]) by {
      if |s2| > 0 { assert t3[0] == s2[0]; } else { assert t3[0] == '='; }
    }
    MatchRunThen(Plus(Word), n, t3, p3, [s2, "=", s3] + sq, [Plus(Word)] + p3, [n] + ([s2, "=", s3] + sq));
    Cons4(Plus(Word), Star(Space), Lit("="), Star(Space), q);
    Cons4(n, s2, "=", s3, sq);
  }

  /** `const\s+(\w+)\s*=\s*` on a declaration head, then the pattern `q` on what follows it. */
  lemma ConstHeadMatch(s1: string, n: string, s2: string, s3: string, rest: string, q: seq<Atom>, sq: seq<string>)
    requires |s1| > 0 && AllIn(Space, s1) && |n| > 0 && AllIn(Word, n) && AllIn(Space, s2) && AllIn(Space, s3)
    requires |rest| > 0 && !IsSpaceChar(rest[0])
    requires MatchAtoms(q, rest) == Some(sq)
    ensures MatchAtoms(ConstHead + q, "const" + (s1 + (n + (s2 + ("=" + (s3 + rest))))))
         == Some(["const", s1, n, s2, "=", s3] + sq)
  {
    var t2 := n + (s2 + ("=" + (s3 + rest)));
    var p2 := [Plus(Word), Star(Space), Lit("="), Star(Space)] + q;
    var sp2 := [n, s2, "=", s3] + sq;
    NameEqualsMatch(n, s2, s3, rest, q, sq);
    assert t2[0] == n[0];
    MatchRunThen(Plus(Space), s1, t2, p2, sp2, [Plus(Space)] + p2, [s1] + sp2);
    MatchLiteralThen("const", s1 + t2, [Plus(Space)] + p2, [s1] + sp2, [Lit("const")] + ([Plus(Space)] + p2), ["const"] + ([s1] + sp2));
    Cons6(Lit("const"), Plus(Space), Plus(Word), Star(Space), Lit("="), Star(Space), q);
    Cons6("const", s1, n, s2, "=", s3, sq);
  }

  lemma FlattenCons1(x: string, l: seq<string>)
    ensures Flatten([x] + l) == x + Flatten(l)
  {
    assert ([x] + l)[1..] == l;
  }

  lemma FlattenSix(a: string, b: string, c: string, d: string, e: string, f: string, q: seq<string>)
    ensures Flatten([a, b, c, d, e, f] + q) == a + (b + (c + (d + (e + (f + Flatten(q))))))
  {
    var l5 := [f] + q;
    var l4 := [e] + l5;
    var l3 := [d] + l4;
    var l2 := [c] + l3;
    var l1 := [b] + l2;
    assert [a] + l1 == [a, b, c, d, e, f] + q;
    FlattenCons1(f, q);
    FlattenCons1(e, l5);
    FlattenCons1(d, l4);
    FlattenCons1(c, l3);
    FlattenCons1(b, l2);
    FlattenCons1(a, l1);
  }

  lemma FlattenThree(a: string, b: string, c: string)
    ensures Flatten([a, b, c]) == a + (b + c)
  {
    FlattenCons1(c, []);
    FlattenCons1(b, [c]);
    FlattenCons1(a, [b, c]);
    assert [c] + [] == [c] && [b] + [c] == [b, c] && [a] + [b, c] == [a, b, c];
  }

  lemma Assoc(x: string, y: string, b: string)
    ensures (x + y) + b == x + (y + b)
  {
  }

  lemma LitMatch(l: string, b: string)
    ensures MatchAtoms([Lit(l)], l + b) == Some([l])
  {
    MatchLiteralThen(l, b, [], [], [Lit(l)], [l]);
  }

  lemma BlankLitMatch(w: string, l: string, b: string)
    requires AllIn(Space, w) && |l| > 0 && !IsSpaceChar(l[0])
    ensures MatchAtoms([Star(Space), Lit(l)], w + (l + b)) == Some([w, l])
  {
    LitMatch(l, b);
    assert (l + b)[0] == l[0];
    MatchRunThen(Star(Space), w, l + b, [Lit(l)], [l], [Star(Space), Lit(l)], [w, l]);
  }

  /** A literal, a run of blanks and a literal, in front of any text. */
  lemma LitBlankLitMatch(l1: string, w: string, l2: string, b: string)
    requires AllIn(Space, w) && |l2| > 0 && !IsSpaceChar(l2[0])
    ensures MatchAtoms([Lit(l1), Star(Space), Lit(l2)], l1 + (w + (l2 + b))) == Some([l1, w, l2])
  {
    BlankLitMatch(w, l2, b);
    MatchLiteralThen(l1, w + (l2 + b), [Star(Space), Lit(l2)], [w, l2], [Lit(l1), Star(Space), Lit(l2)], [l1, w, l2]);
  }

  /** `const` + blanks + name + blanks + `=` + blanks, then `tail`. */
  function ConstDecl(s1: string, n: string, s2: string, s3: string, tail: string): string
  {
    "const" + (s1 + (n + (s2 + ("=" + (s3 + tail)))))
  }

  lemma ConstDeclAppend(s1: string, n: string, s2: string, s3: string, tail: string, b: string)
    ensures ConstDecl(s1, n, s2, s3, tail) + b == ConstDecl(s1, n, s2, s3, tail + b)
  {
    Assoc(s3, tail, b);
    Assoc("=", s3 + tail, b);
    Assoc(s2, "=" + (s3 + tail), b);
    Assoc(n, s2 + ("=" + (s3 + tail)), b);
    Assoc(s1, n + (s2 + ("=" + (s3 + tail))), b);
    Assoc("const", s1 + (n + (s2 + ("=" + (s3 + tail)))), b);
  }

  /** The words of a declaration `rules 3 and 4 accept: blanks after `const`, a `\w+` name, any blanks around `=`. */
  predicate DeclWords(s1: string, n: string, s2: string, s3: string)
  {
    |s1| > 0 && AllIn(Space, s1) && |n| > 0 && AllIn(Word, n) && AllIn(Space, s2) && AllIn(Space, s3)
  }

  /** The declaration rule 3 rewrites. */
  function MarkedGetDecl(s1: string, n: string, s2: string, s3: string, s4: string): string
  {
    ConstDecl(s1, n, s2, s3, MarkedGet + (s4 + ";"))
  }

  lemma ConstRangeAtoms(s1: string, n: string, s2: string, s3: string, s4: string, b: string)
    requires DeclWords(s1, n, s2, s3) && AllIn(Space, s4)
    ensures MatchAtoms(ConstRange.alts[0], MarkedGetDecl(s1, n, s2, s3, s4) + b)
         == Some(["const", s1, n, s2, "=", s3] + [MarkedGet, s4, ";"])
  {
    var rest := MarkedGet + (s4 + (";" + b));
    LitBlankLitMatch(MarkedGet, s4, ";", b);
    assert rest[0] == '/';
    ConstHeadMatch(s1, n, s2, s3, rest, [Lit(MarkedGet), Star(Space), Lit(";")], [MarkedGet, s4, ";"]);
    Assoc(s4, ";", b);
    Assoc(MarkedGet, s4 + ";", b);
    ConstDeclAppend(s1, n, s2, s3, MarkedGet + (s4 + ";"), b);
  }

  lemma ExpandThree(a: string, g: nat, c: string, sp: seq<string>)
    requires g < |sp|
    ensures Expand([Text(a), Group(g), Text(c)], sp) == a + (sp[g] + c)
  {
    var tpl := [Text(a), Group(g), Text(c)];
    assert tpl[1..] == [Group(g), Text(c)] && tpl[1..][1..] == [Text(c)] && tpl[1..][1..][1..] == [];
    assert Expand(tpl[1..][1..], sp) == c;
  }

  lemma ExpandFive(a: string, g: nat, c: string, h: nat, e: string, sp: seq<string>)
    requires g < |sp| && h < |sp|
    ensures Expand([Text(a), Group(g), Text(c), Group(h), Text(e)], sp) == a + (sp[g] + (c + (sp[h] + e)))
  {
    var tpl := [Text(a), Group(g), Text(c), Group(h), Text(e)];
    ExpandThree(c, h, e, sp);
    assert tpl[1..][1..] == [Text(c), Group(h), Text(e)];
    assert tpl[1..] == [Group(g), Text(c), Group(h), Text(e)];
  }

  /** A rule with one alternative and no `\b` replaces what that alternative matches. */
  lemma SingleAltMatch(r: Rule, prev: Option<char>, t: string, sp: seq<string>, d: string, x: string)
    requires WellFormed(r) && !r.boundary && |r.alts| == 1
    requires MatchAtoms(r.alts[0], t) == Some(sp) && Flatten(sp) == d && Expand(r.template, sp) == x
    ensures MatchRule(r, prev, t) == Some((|d|, x))
  {
    FirstMatchSingle(r.alts, t, sp);
    MatchRuleFrom(r, prev, t, 0, sp);
  }

  /**
   * Rule 3 matches a whole `const N = /*SAFE*/(safeGetRange());` declaration and replaces it by
   * `const N = safeGetRange();`.
   */
  lemma ConstRangeMatch(prev: Option<char>, s1: string, n: string, s2: string, s3: string, s4: string, b: string)
    requires DeclWords(s1, n, s2, s3) && AllIn(Space, s4)
    ensures WellFormed(ConstRange)
    ensures MatchRule(ConstRange, prev, MarkedGetDecl(s1, n, s2, s3, s4) + b)
         == Some((|MarkedGetDecl(s1, n, s2, s3, s4)|, "const " + (n + " = safeGetRange();")))
  {
    RulesWellFormed();
    var sp := ["const", s1, n, s2, "=", s3] + [MarkedGet, s4, ";"];
    ConstRangeAtoms(s1, n, s2, s3, s4, b);
    FlattenSix("const", s1, n, s2, "=", s3, [MarkedGet, s4, ";"]);
    FlattenThree(MarkedGet, s4, ";");
    ExpandThree("const ", 2, " = safeGetRange();", sp);
    SingleAltMatch(ConstRange, prev, MarkedGetDecl(s1, n, s2, s3, s4) + b, sp,
                   MarkedGetDecl(s1, n, s2, s3, s4), "const " + (n + " = safeGetRange();"));
  }

  lemma FlattenFive(a: string, b: string, c: string, d: string, e: string)
    ensures Flatten([a, b, c, d, e]) == a + (b + Flatten([c, d, e]))
  {
    FlattenCons1(b, [c, d, e]);
    FlattenCons1(a, [b, c, d, e]);
    assert [b] + [c, d, e] == [b, c, d, e] && [a] + [b, c, d, e] == [a, b, c, d, e];
  }

  /** The declaration rule 4 rewrites: `v` is the argument of the marked call. */
  function MarkedFromDecl(s1: string, n: string, s2: string, s3: string, v: string, s4: string): string
  {
    ConstDecl(s1, n, s2, s3, MarkedFromOpen + (v + ("))" + (s4 + ";"))))
  }

  /** A word, a literal, blanks and a literal, in front of any text. */
  lemma WordLitBlankLitMatch(v: string, l1: string, w: string, l2: string, b: string)
    requires |v| > 0 && AllIn(Word, v) && |l1| > 0 && !IsWordChar(l1[0])
    requires AllIn(Space, w) && |l2| > 0 && !IsSpaceChar(l2[0])
    ensures MatchAtoms([Plus(Word), Lit(l1), Star(Space), Lit(l2)], v + (l1 + (w + (l2 + b))))
         == Some([v, l1, w, l2])
  {
    LitBlankLitMatch(l1, w, l2, b);
    assert (l1 + (w + (l2 + b)))[0] == l1[0];
    MatchRunThen(Plus(Word), v, l1 + (w + (l2 + b)), [Lit(l1), Star(Space), Lit(l2)], [l1, w, l2],
                 [Plus(Word), Lit(l1), Star(Space), Lit(l2)], [v, l1, w, l2]);
  }

  /** `\/\*SAFE\*\/\(safeGetRangeFrom\((\w+)\)\)\s*;` in front of any text. */
  lemma MarkedFromTailMatch(v: string, s4: string, b: string)
    requires |v| > 0 && AllIn(Word, v) && AllIn(Space, s4)
    ensures MatchAtoms([Lit(MarkedFromOpen), Plus(Word), Lit("))"), Star(Space), Lit(";")],
                       MarkedFromOpen + (v + ("))" + (s4 + (";" + b)))))
         == Some([MarkedFromOpen, v, "))", s4, ";"])
  {
    LitWordLitBlankLitMatch(MarkedFromOpen, v, "))", s4, ";", b);
  }

  /** A literal, a word, a literal, blanks and a literal, in front of any text. */
  lemma LitWordLitBlankLitMatch(l0: string, v: string, l1: string, w: string, l2: string, b: string)
    requires |v| > 0 && AllIn(Word, v) && |l1| > 0 && !IsWordChar(l1[0])
    requires AllIn(Space, w) && |l2| > 0 && !IsSpaceChar(l2[0])
    ensures MatchAtoms([Lit(l0), Plus(Word), Lit(l1), Star(Space), Lit(l2)], l0 + (v + (l1 + (w + (l2 + b)))))
         == Some([l0, v, l1, w, l2])
  {
    WordLitBlankLitMatch(v, l1, w, l2, b);
    MatchLiteralThen(l0, v + (l1 + (w + (l2 + b))), [Plus(Word), Lit(l1), Star(Space), Lit(l2)], [v, l1, w, l2],
                     [Lit(l0), Plus(Word), Lit(l1), Star(Space), Lit(l2)], [l0, v, l1, w, l2]);
  }

  lemma ConstRangeFromAtoms(s1: string, n: string, s2: string, s3: string, v: string, s4: string, b: string)
    requires DeclWords(s1, n, s2, s3) && |v| > 0 && AllIn(Word, v) && AllIn(Space, s4)
    ensures MatchAtoms(ConstRangeFrom.alts[0], MarkedFromDecl(s1, n, s2, s3, v, s4) + b)
         == Some(["const", s1, n, s2, "=", s3] + [MarkedFromOpen, v, "))", s4, ";"])
  {
    var rest := MarkedFromOpen + (v + ("))" + (s4 + (";" + b))));
    MarkedFromTailMatch(v, s4, b);
    assert rest[0] == '/';
    ConstHeadMatch(s1, n, s2, s3, rest, [Lit(MarkedFromOpen), Plus(Word), Lit("))"), Star(Space), Lit(";")],
                   [MarkedFromOpen, v, "))", s4, ";"]);
    Assoc(s4, ";", b);
    Assoc("))", s4 + ";", b);
    Assoc(v, "))" + (s4 + ";"), b);
    Assoc(MarkedFromOpen, v + ("))" + (s4 + ";")), b);
    ConstDeclAppend(s1, n, s2, s3, MarkedFromOpen + (v + ("))" + (s4 + ";"))), b);
  }

  /**
   * Rule 4 matches a whole `const N = /*SAFE*/(safeGetRangeFrom(V));` declaration and replaces it
   * by `const N = safeGetRangeFrom(V);`.
   */
  lemma ConstRangeFromMatch(prev: Option<char>, s1: string, n: string, s2: string, s3: string, v: string, s4: string, b: string)
    requires DeclWords(s1, n, s2, s3) && |v| > 0 && AllIn(Word, v) && AllIn(Space, s4)
    ensures WellFormed(ConstRangeFrom)
    ensures MatchRule(ConstRangeFrom, prev, MarkedFromDecl(s1, n, s2, s3, v, s4) + b)
         == Some((|MarkedFromDecl(s1, n, s2, s3, v, s4)|, "const " + (n + (" = safeGetRangeFrom(" + (v + ");")))))
  {
    RulesWellFormed();
    var sp := ["const", s1, n, s2, "=", s3] + [MarkedFromOpen, v, "))", s4, ";"];
    ConstRangeFromAtoms(s1, n, s2, s3, v, s4, b);
    FlattenSix("const", s1, n, s2, "=", s3, [MarkedFromOpen, v, "))", s4, ";"]);
    FlattenFive(MarkedFromOpen, v, "))", s4, ";");
    FlattenThree("))", s4, ";");
    assert sp[2] == n && sp[7] == v;
    ExpandFive("const ", 2, " = safeGetRangeFrom(", 7, ");", sp);
    SingleAltMatch(ConstRangeFrom, prev, MarkedFromDecl(s1, n, s2, s3, v, s4) + b, sp,
                   MarkedFromDecl(s1, n, s2, s3, v, s4), "const " + (n + (" = safeGetRangeFrom(" + (v + ");"))));
  }

  /** A rule without `\b` that matches exactly `t` is replaced there, at the start of the text or after a cut. */
  lemma NoBoundaryReplaced(r: Rule, a: string, t: string, b: string, x: string)
    requires WellFormed(r) && !r.boundary && |t| > 0
    requires a == [] || Cut(r, a[|a| - 1])
    requires MatchRule(r, None, t + b) == Some((|t|, x))
    ensures Sub(r, a + (t + b)) == Sub(r, a) + (x + Sub(r, b))
  {
    RuleMatcherIs(r, None, t + b);
    RuleMatcherIs(r, None, b);
    RuleMatcherIs(r, Some(t[|t| - 1]), b);
    assert MatchRule(r, Some(t[|t| - 1]), b) == MatchRule(r, None, b);
    if a == [] {
      SubReplacedAtStart(r, t, b, x);
      assert a + (t + b) == t + b;
      assert Sub(r, a) == [];
    } else {
      SubReplaced(r, a, t, b, x);
    }
  }

  /** Rule 3 unmarks a `const N = /*SAFE*/(safeGetRange());` declaration and rewrites both sides independently. */
  lemma ConstRangeReplaced(a: string, s1: string, n: string, s2: string, s3: string, s4: string, b: string)
    requires DeclWords(s1, n, s2, s3) && AllIn(Space, s4)
    requires WellFormed(ConstRange) && (a == [] || Cut(ConstRange, a[|a| - 1]))
    ensures Sub(ConstRange, a + (MarkedGetDecl(s1, n, s2, s3, s4) + b))
         == Sub(ConstRange, a) + ("const " + (n + " = safeGetRange();") + Sub(ConstRange, b))
  {
    ConstRangeMatch(None, s1, n, s2, s3, s4, b);
    NoBoundaryReplaced(ConstRange, a, MarkedGetDecl(s1, n, s2, s3, s4), b, "const " + (n + " = safeGetRange();"));
  }

  /** Rule 4 unmarks a `const N = /*SAFE*/(safeGetRangeFrom(V));` declaration and rewrites both sides independently. */
  lemma ConstRangeFromReplaced(a: string, s1: string, n: string, s2: string, s3: string, v: string, s4: string, b: string)
    requires DeclWords(s1, n, s2, s3) && |v| > 0 && AllIn(Word, v) && AllIn(Space, s4)
    requires WellFormed(ConstRangeFrom) && (a == [] || Cut(ConstRangeFrom, a[|a| - 1]))
    ensures Sub(ConstRangeFrom, a + (MarkedFromDecl(s1, n, s2, s3, v, s4) + b))
         == Sub(ConstRangeFrom, a) + ("const " + (n + (" = safeGetRangeFrom(" + (v + ");"))) + Sub(ConstRangeFrom, b))
  {
    var x := "const " + (n + (" = safeGetRangeFrom(" + (v + ");")));
    ConstRangeFromMatch(None, s1, n, s2, s3, v, s4, b);
    NoBoundaryReplaced(ConstRangeFrom, a, MarkedFromDecl(s1, n, s2, s3, v, s4), b, x);
  }

  lemma LacksConcat(a: string, b: string, c: char)
    requires Lacks(a, c) && Lacks(b, c)
    ensures Lacks(a + b, c)
  {
    assert forall k :: 0 <= k < |a + b| ==> (a + b)[k] == (if k < |a| then a[k] else b[k - |a|]);
  }

  /** Text without the first character of `l` does not contain `l`. */
  lemma LacksNotContains(t: string, l: string)
    requires |l| > 0 && Lacks(t, l[0])
    ensures !Contains(t, l)
  {
    forall k | 0 <= k <= |t|
      ensures !HasPrefix(t[k..], l)
    {
      if k < |t| {
        assert t[k..][0] == t[k];
      }
    }
  }

  /** Neither replacement of rules 1 and 2 contains `.getRangeAt(0)`, so the rewrites do not feed themselves. */
  lemma ReplacementsLackRangeCall(x: string)
    requires IsIdentifier(x)
    ensures !Contains(MarkedGet, RangeCall)
    ensures !Contains(MarkedFromOpen + (x + "))"), RangeCall)
  {
    assert RangeCall[0] == '.';
    assert Lacks(MarkedGet, '.');
    assert Lacks(MarkedFromOpen, '.');
    assert Lacks("))", '.');
    assert Lacks(x, '.') by {
      forall k | 0 <= k < |x|
        ensures x[k] != '.'
      {
        if k > 0 { assert IsWordChar(x[k]); }
      }
    }
    LacksConcat(x, "))", '.');
    LacksConcat(MarkedFromOpen, x + "))", '.');
    LacksNotContains(MarkedGet, RangeCall);
    LacksNotContains(MarkedFromOpen + (x + "))"), RangeCall);
  }

  // ---------------------------------------------------------------------------------------------
  // Rules whose matches end, or start, with a fixed character

  /** The pattern ends with a literal whose last character is `e`. */
  predicate EndsIn(p: seq<Atom>, e: char)
  {
    |p| > 0 && p[|p| - 1].Lit? && |p[|p| - 1].text| > 0 && p[|p| - 1].text[|p[|p| - 1].text| - 1] == e
  }

  /** Every match of `p` ends with the character `e`. */
  lemma {:induction false} MatchEnds(p: seq<Atom>, t: string, e: char)
    requires EndsIn(p, e) && MatchAtoms(p, t).Some?
    ensures 1 <= |Flatten(MatchAtoms(p, t).value)| <= |t|
    ensures t[|Flatten(MatchAtoms(p, t).value)| - 1] == e
    decreases |p|
  {
    MatchUncons(p, t);
    var n := AtomLen(p[0], t).value;
    if |p| == 1 {
      MatchEndsSingle(p, t, e);
    } else {
      assert EndsIn(p[1..], e) by { assert p[1..][|p[1..]| - 1] == p[|p| - 1]; }
      MatchEnds(p[1..], t[n..], e);
      EndsAfterHead(t, n, MatchAtoms(p[1..], t[n..]).value, MatchAtoms(p, t).value, e);
    }
  }

  lemma MatchEndsSingle(p: seq<Atom>, t: string, e: char)
    requires |p| == 1 && EndsIn(p, e) && MatchAtoms(p, t).Some?
    ensures 1 <= |Flatten(MatchAtoms(p, t).value)| <= |t|
    ensures t[|Flatten(MatchAtoms(p, t).value)| - 1] == e
  {
    MatchUncons(p, t);
    var n := AtomLen(p[0], t).value;
    var rest := MatchAtoms(p[1..], t[n..]).value;
    assert rest == [];
    FlattenCons1(t[..n], rest);
    LitEnds(p[0].text, t, n, e);
  }

  lemma EndsAfterHead(t: string, n: nat, sr: seq<string>, sp: seq<string>, e: char)
    requires n <= |t| && sp == [t[..n]] + sr
    requires 1 <= |Flatten(sr)| <= |t| - n && t[n..][|Flatten(sr)| - 1] == e
    ensures 1 <= |Flatten(sp)| <= |t| && t[|Flatten(sp)| - 1] == e
  {
    FlattenCons1(t[..n], sr);
    ShiftedIndex(t, n, |Flatten(sr)|, e);
  }

  /** A successful match is the first atom's part followed by the match of the other atoms. */
  lemma MatchUncons(p: seq<Atom>, t: string)
    requires |p| > 0 && MatchAtoms(p, t).Some?
    ensures AtomLen(p[0], t).Some? && MatchAtoms(p[1..], t[AtomLen(p[0], t).value..]).Some?
    ensures MatchAtoms(p, t).value
         == [t[..AtomLen(p[0], t).value]] + MatchAtoms(p[1..], t[AtomLen(p[0], t).value..]).value
  {
  }

  lemma LitEnds(l: string, t: string, n: nat, e: char)
    requires AtomLen(Lit(l), t) == Some(n) && |l| > 0 && l[|l| - 1] == e
    ensures 1 <= n <= |t| && t[..n] == l && t[n - 1] == e
  {
  }

  lemma ShiftedIndex(t: string, n: nat, m: nat, e: char)
    requires n <= |t| && 1 <= m <= |t| - n && t[n..][m - 1] == e
    ensures t[n + m - 1] == e
  {
  }

  /**
   * Text that does not end with `e`, followed by text without `e` that ends with a character `p`
   * cannot consume: no match of `p` ending in `e` can start in the first part and reach the second.
   */
  lemma AltBeforeEndless(p: seq<Atom>, e: char, t: string, x: string)
    requires EndsIn(p, e) && |t| > 0 && t[|t| - 1] != e
    requires Lacks(x, e) && |x| > 0 && Blocks(p, x[|x| - 1])
    ensures MatchAtoms(p, t + x) == MatchAtoms(p, t)
    ensures MatchAtoms(p, t).Some? ==> |Flatten(MatchAtoms(p, t).value)| < |t|
  {
    if MatchAtoms(p, t).Some? {
      MatchedBeforeEndless(p, e, t, x);
    } else if MatchAtoms(p, t + x).Some? {
      EndlessStaysIn(p, e, t, x);
      MatchPrefix(p, t, x);
    }
  }

  /** A match of `p` in `t` stops before the end of `t`, so it does not see what follows. */
  lemma MatchedBeforeEndless(p: seq<Atom>, e: char, t: string, x: string)
    requires EndsIn(p, e) && |t| > 0 && t[|t| - 1] != e
    requires MatchAtoms(p, t).Some?
    ensures |Flatten(MatchAtoms(p, t).value)| < |t|
    ensures MatchAtoms(p, t + x) == MatchAtoms(p, t)
  {
    MatchEnds(p, t, e);
    MatchExtend(p, t, x);
  }

  /** A match of `p` in `t + x` cannot end inside `x`, nor at the end of `t`. */
  lemma EndlessStaysIn(p: seq<Atom>, e: char, t: string, x: string)
    requires EndsIn(p, e) && |t| > 0 && t[|t| - 1] != e
    requires Lacks(x, e) && |x| > 0 && Blocks(p, x[|x| - 1])
    requires MatchAtoms(p, t + x).Some?
    ensures |Flatten(MatchAtoms(p, t + x).value)| < |t|
  {
    var tx := t + x;
    var l := |Flatten(MatchAtoms(p, tx).value)|;
    MatchEnds(p, tx, e);
    MatchAvoids(p, tx, x[|x| - 1]);
    assert tx[|tx| - 1] == x[|x| - 1];
    assert l < |tx|;
  }

  /** Every alternative of `r` ends with a literal ending in `e`. */
  predicate RuleEndsIn(r: Rule, e: char)
  {
    forall i :: 0 <= i < |r.alts| ==> EndsIn(r.alts[i], e)
  }

  lemma MatchRuleBeforeEndless(r: Rule, e: char, prev: Option<char>, t: string, x: string)
    requires WellFormed(r) && RuleEndsIn(r, e) && |t| > 0 && t[|t| - 1] != e
    requires Lacks(x, e) && |x| > 0 && Cut(r, x[|x| - 1])
    ensures MatchRule(r, prev, t + x) == MatchRule(r, prev, t)
    ensures MatchRule(r, prev, t).Some? ==> MatchRule(r, prev, t).value.0 < |t|
  {
    var alts := r.alts;
    forall i | 0 <= i < |alts| ensures MatchAtoms(alts[i], t + x) == MatchAtoms(alts[i], t) {
      AltBeforeEndless(alts[i], e, t, x);
    }
    FirstMatchSame(alts, t, t + x);
    if MatchRule(r, prev, t).Some? {
      var (i, sp) := FirstMatch(alts, t).value;
      AltBeforeEndless(alts[i], e, t, x);
    }
  }

  lemma {:induction false} RuleSeparatedEndless(r: Rule, e: char, prev: Option<char>, a: string, x: string)
    requires WellFormed(r) && !r.boundary && RuleEndsIn(r, e)
    requires |a| > 0 && a[|a| - 1] != e
    requires Lacks(x, e) && |x| > 0 && Cut(r, x[|x| - 1])
    ensures Separated(RuleMatcher(r), prev, a, x)
    decreases |a|, 1
  {
    var m := RuleMatcher(r);
    MatchRuleBeforeEndless(r, e, prev, a, x);
    RuleMatcherIs(r, prev, a);
    RuleMatcherIs(r, prev, a + x);
    var h := MatchRule(r, prev, a);
    if h.Some? {
      RuleSeparatedEndlessAfter(r, e, a, h.value.0, x);
      SeparatedByMatch(m, prev, a, x, h.value.0);
    } else if |a| == 1 {
      RuleMatcherIs(r, Some(a[0]), x);
      RuleMatcherIs(r, None, x);
      SeparatedLast(m, prev, a, x);
    } else {
      RuleSeparatedEndlessAfter(r, e, a, 1, x);
      SeparatedByCopy(m, prev, a, x);
    }
  }

  lemma {:induction false} RuleSeparatedEndlessAfter(r: Rule, e: char, a: string, n: nat, x: string)
    requires WellFormed(r) && !r.boundary && RuleEndsIn(r, e)
    requires 1 <= n < |a| && a[|a| - 1] != e
    requires Lacks(x, e) && |x| > 0 && Cut(r, x[|x| - 1])
    ensures Separated(RuleMatcher(r), Some(a[n - 1]), a[n..], x)
    decreases |a|, 0
  {
    assert a[n..][|a[n..]| - 1] == a[|a| - 1];
    RuleSeparatedEndless(r, e, Some(a[n - 1]), a[n..], x);
  }

  /**
   * When every match of `r` ends with `e`, text not ending in `e` is rewritten independently of
   * what follows it, provided that what follows has no `e` up to a cut.
   */
  lemma SubConcatEndless(r: Rule, e: char, a: string, x: string)
    requires WellFormed(r) && !r.boundary && RuleEndsIn(r, e)
    requires |a| > 0 && a[|a| - 1] != e
    requires Lacks(x, e) && |x| > 0 && Cut(r, x[|x| - 1])
    ensures Sub(r, a + x) == Sub(r, a) + Sub(r, x)
  {
    RuleSeparatedEndless(r, e, None, a, x);
    ScanConcat(RuleMatcher(r), None, a, x);
  }

  /** With every match of `r` ending in `e`, text that does not end in `e` keeps its last character. */
  lemma SubKeepsLastEndless(r: Rule, e: char, a: string, k: char)
    requires WellFormed(r) && !r.boundary && RuleEndsIn(r, e)
    requires |a| > 0 && a[|a| - 1] != e
    requires k != e && Cut(r, k)
    ensures |Sub(r, a)| > 0 && Sub(r, a)[|Sub(r, a)| - 1] == a[|a| - 1]
  {
    RuleSeparatedEndless(r, e, None, a, [k]);
    ScanKeepsLast(RuleMatcher(r), None, a, [k]);
  }

  /** Every alternative of `r` starts with a literal starting with `c`. */
  predicate RuleStartsWith(r: Rule, c: char)
  {
    forall i :: 0 <= i < |r.alts| ==> |r.alts[i]| > 0 && r.alts[i][0].Lit? && |r.alts[i][0].text| > 0 && r.alts[i][0].text[0] == c
  }

  /** No match of `r` starts at a character other than `c`. */
  lemma NoMatchWithout(r: Rule, c: char, prev: Option<char>, t: string)
    requires WellFormed(r) && RuleStartsWith(r, c) && |t| > 0 && t[0] != c
    ensures RuleMatcher(r)(prev, t).None?
  {
    forall i | 0 <= i < |r.alts| ensures MatchAtoms(r.alts[i], t).None? {
      assert AtomLen(r.alts[i][0], t).None?;
    }
    RuleMatcherIs(r, prev, t);
  }

  /** Where `m` does not match, the scan copies one character. */
  lemma ScanCopies(m: Matcher, prev: Option<char>, t: string)
    requires |t| > 0 && m(prev, t).None?
    ensures Scan(m, prev, t) == [t[0]] + Scan(m, Some(t[0]), t[1..])
  {
  }

  lemma ScanCopiesHead(f: Matcher, prev: Option<char>, m: string, b: string, rest: string)
    requires |m| > 0 && f(prev, m + b).None?
    requires Scan(f, Some(m[0]), m[1..] + b) == m[1..] + rest
    ensures Scan(f, prev, m + b) == m + rest
  {
    ScanCopiesPrefix(f, prev, m, b);
    Assoc([m[0]], m[1..], rest);
    assert [m[0]] + m[1..] == m;
  }

  lemma {:induction false} ScanSkipsLacking(r: Rule, c: char, prev: Option<char>, m: string, b: string)
    requires WellFormed(r) && !r.boundary && RuleStartsWith(r, c) && Lacks(m, c)
    ensures Scan(RuleMatcher(r), prev, m + b) == m + Scan(RuleMatcher(r), None, b)
    decreases |m|
  {
    var f := RuleMatcher(r);
    if |m| == 0 {
      assert m + b == b;
      RuleMatcherIs(r, prev, b);
      RuleMatcherIs(r, None, b);
      ScanSamePrev(f, prev, None, b);
    } else {
      var t := m + b;
      assert t[0] == m[0];
      NoMatchWithout(r, c, prev, t);
      ScanSkipsLacking(r, c, Some(m[0]), m[1..], b);
      ScanCopiesHead(f, prev, m, b, Scan(f, None, b));
    }
  }

  /** Text without `c` in front of anything is copied when every match of `r` must start with `c`. */
  lemma SubSkipsLacking(r: Rule, c: char, m: string, b: string)
    requires WellFormed(r) && !r.boundary && RuleStartsWith(r, c) && Lacks(m, c)
    ensures Sub(r, m + b) == m + Sub(r, b)
  {
    ScanSkipsLacking(r, c, None, m, b);
  }

  // ---------------------------------------------------------------------------------------------
  // Characters the four rules need, and characters that separate their matches

  lemma SelectionCallNeeds()
    ensures WellFormed(SelectionCall)
    ensures RuleNeeds(SelectionCall, 'A') && RuleNeeds(SelectionCall, '0') && RuleNeeds(SelectionCall, 'S')
  {
    assert WindowCall[30] == 'A' && WindowCall[33] == '0' && WindowCall[10] == 'S';
    assert DocumentCall[32] == 'A' && DocumentCall[35] == '0' && DocumentCall[12] == 'S';
    assert SelectionCall.alts[1] == [Lit(DocumentCall)];
  }

  lemma LacksNotIn(t: string, c: char)
    requires Lacks(t, c)
    ensures c !in t
  {
  }

  predicate SeparatorChar(c: char)
  {
    c == '\n' || c == '{' || c == '}'
  }

  lemma SelectionTailLacks(c: char)
    requires SeparatorChar(c)
    ensures Lacks(".getSelection()" + RangeCall, c)
  {
    assert Lacks(".getSelection()", c) && Lacks(RangeCall, c);
    LacksConcat(".getSelection()", RangeCall, c);
  }

  lemma WindowCallLacks(c: char)
    requires SeparatorChar(c)
    ensures c !in WindowCall
  {
    var tail := ".getSelection()" + RangeCall;
    assert WindowCall == "window" + tail;
    SelectionTailLacks(c);
    assert Lacks("window", c);
    LacksConcat("window", tail, c);
    LacksNotIn(WindowCall, c);
  }

  lemma DocumentCallLacks(c: char)
    requires SeparatorChar(c)
    ensures c !in DocumentCall
  {
    var tail := ".getSelection()" + RangeCall;
    assert DocumentCall == "document" + tail;
    SelectionTailLacks(c);
    assert Lacks("document", c);
    LacksConcat("document", tail, c);
    LacksNotIn(DocumentCall, c);
  }

  /** Line breaks and braces separate the matches of rule 1. */
  lemma SelectionCallCut(c: char)
    requires SeparatorChar(c)
    ensures Cut(SelectionCall, c)
  {
    WindowCallLacks(c);
    DocumentCallLacks(c);
    assert SelectionCall.alts[1] == [Lit(DocumentCall)];
  }

  lemma VariableCallNeeds()
    ensures WellFormed(VariableCall)
    ensures RuleNeeds(VariableCall, 'A') && RuleNeeds(VariableCall, '0')
  {
    var p := VariableCall.alts[0];
    assert RangeCall[9] == 'A' && RangeCall[12] == '0';
    assert p[1..][1..] == [Lit(RangeCall)];
    assert Needs(p[1..][1..], 'A') && Needs(p[1..][1..], '0');
    assert Needs(p[1..], 'A') && Needs(p[1..], '0');
  }

  /** Line breaks, braces and blanks separate the matches of rule 2. */
  lemma VariableCallCut(c: char)
    requires SeparatorChar(c) || c == ' '
    ensures Cut(VariableCall, c)
  {
    assert Lacks(RangeCall, c);
    LacksNotIn(RangeCall, c);
  }

  /** What rules 3 and 4 share: they start with `const`, end with `;` and need a `*` and a `c`. */
  predicate ConstRuleShape(r: Rule)
  {
    WellFormed(r) && !r.boundary && RuleStartsWith(r, 'c') && RuleEndsIn(r, ';')
    && RuleNeeds(r, '*') && RuleNeeds(r, 'c')
  }

  lemma {:induction false} NeedsAppend(p: seq<Atom>, q: seq<Atom>, c: char)
    requires Needs(q, c)
    ensures Needs(p + q, c)
    decreases |p|
  {
    if |p| > 0 {
      assert (p + q)[0] == p[0] && (p + q)[1..] == p[1..] + q;
      NeedsAppend(p[1..], q, c);
    } else {
      assert p + q == q;
    }
  }

  /** A pattern made of the shared head and a tail that starts with a marked literal and ends with `;`. */
  lemma ConstPatternShape(q: seq<Atom>, l: string)
    requires |q| > 0 && q[0] == Lit(l) && |l| > 1 && l[1] == '*' && q[|q| - 1] == Lit(";")
    ensures var p := ConstHead + q;
      |p| > 0 && p[0] == Lit("const") && EndsIn(p, ';') && Needs(p, '*') && Needs(p, 'c')
  {
    var p := ConstHead + q;
    assert p[0] == Lit("const") && "const"[0] == 'c';
    assert p[|p| - 1] == q[|q| - 1];
    assert Needs(q, '*');
    NeedsAppend(ConstHead, q, '*');
  }

  lemma ConstRangeShape()
    ensures ConstRuleShape(ConstRange)
  {
    RulesWellFormed();
    assert MarkedGet[1] == '*';
    ConstPatternShape([Lit(MarkedGet), Star(Space), Lit(";")], MarkedGet);
  }

  lemma ConstRangeFromShape()
    ensures ConstRuleShape(ConstRangeFrom)
  {
    RulesWellFormed();
    assert MarkedFromOpen[1] == '*';
    ConstPatternShape([Lit(MarkedFromOpen), Plus(Word), Lit("))"), Star(Space), Lit(";")], MarkedFromOpen);
  }

  lemma MarkedLacks(c: char)
    requires c == '{' || c == '}' || c == '-'
    ensures c !in MarkedGet && c !in MarkedFromOpen
  {
    assert Lacks(MarkedGet, c);
    assert Lacks(MarkedFromOpen, c);
    LacksNotIn(MarkedGet, c);
    LacksNotIn(MarkedFromOpen, c);
  }

  /** Braces and `-` separate the matches of rules 3 and 4. */
  lemma ConstRuleCut(c: char)
    requires c == '{' || c == '}' || c == '-'
    ensures Cut(ConstRange, c) && Cut(ConstRangeFrom, c)
  {
    MarkedLacks(c);
    var p := ConstRange.alts[0];
    var q := ConstRangeFrom.alts[0];
    assert forall i :: 0 <= i < |p| ==> !Accepts(p[i], c);
    assert forall i :: 0 <= i < |q| ==> !Accepts(q[i], c);
  }
}
