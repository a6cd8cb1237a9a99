/**
 * The plain-text Markdown editing rules shared by the textarea editors: the inline wrap/unwrap
 * toggle around a selection, and the line-prefix toggle (headings, list markers) over the lines a
 * selection touches. Offsets are JavaScript string offsets and every slice follows `slice` rules.
 */
module MdText {
  import opened JsString
  import opened JsArray

  /** A text together with the selection to restore on it. */
  datatype Edit = Edit(text: string, ns: int, ne: int)

  /** `before` sits immediately left of `[s, e)` and `after` immediately right of it. */
  predicate Surrounded(src: string, s: int, e: int, before: string, after: string)
  {
    s - |before| >= 0 && Slice(src, s - |before|, s) == before
    && Slice(src, e, e + |after|) == after
  }

  /** On a valid selection, being surrounded means both markers are really there, in range. */
  lemma SurroundedMeans(src: string, s: int, e: int, before: string, after: string)
    requires 0 <= s <= e <= |src|
    ensures Surrounded(src, s, e, before, after) <==>
      (|before| <= s && e + |after| <= |src|
       && src[s - |before|..s] == before && src[e..e + |after|] == after)
  {
    if e + |after| > |src| {
      assert |Slice(src, e, e + |after|)| <= |src| - e;
    }
  }

  /** The text a wrap builds, and where the wrapped characters sit in it. */
  function WrapText(src: string, s: int, e: int, before: string, after: string): (t: string)
    ensures 0 <= s <= e <= |src| ==>
      t == src[..s] + before + src[s..e] + after + src[e..]
      && s + |before| <= e + |before| <= |t| && t[s + |before|..e + |before|] == src[s..e]
  {
    var t := Slice(src, 0, s) + before + Slice(src, s, e) + after + SliceFrom(src, e);
    WrapTextParts(src, s, e, before, after, t);
    t
  }

  lemma WrapTextParts(src: string, s: int, e: int, before: string, after: string, t: string)
    requires t == Slice(src, 0, s) + before + Slice(src, s, e) + after + SliceFrom(src, e)
    ensures 0 <= s <= e <= |src| ==>
      t == src[..s] + before + src[s..e] + after + src[e..] && t[s + |before|..e + |before|] == src[s..e]
  {
    if 0 <= s <= e <= |src| {
      FiveParts(src[..s], before, src[s..e], after, src[e..], t);
    }
  }

  /** The text an unwrap builds, and where the unwrapped characters sit in it. */
  function UnwrapText(src: string, s: int, e: int, before: string, after: string): (t: string)
    requires Surrounded(src, s, e, before, after)
    ensures 0 <= s <= e <= |src| ==>
      e + |after| <= |src|
      && t == src[..s - |before|] + src[s..e] + src[e + |after|..]
      && s - |before| <= e - |before| <= |t| && t[s - |before|..e - |before|] == src[s..e]
  {
    var t := Slice(src, 0, s - |before|) + Slice(src, s, e) + SliceFrom(src, e + |after|);
    UnwrapTextParts(src, s, e, before, after, t);
    t
  }

  lemma UnwrapTextParts(src: string, s: int, e: int, before: string, after: string, t: string)
    requires Surrounded(src, s, e, before, after)
    requires t == Slice(src, 0, s - |before|) + Slice(src, s, e) + SliceFrom(src, e + |after|)
    ensures 0 <= s <= e <= |src| ==>
      e + |after| <= |src|
      && t == src[..s - |before|] + src[s..e] + src[e + |after|..] && t[s - |before|..e - |before|] == src[s..e]
  {
    if 0 <= s <= e <= |src| {
      SurroundedMeans(src, s, e, before, after);
      ThreeParts(src[..s - |before|], src[s..e], src[e + |after|..], t);
    }
  }

  /**
   * The inline toggle: remove the markers when they surround the selection, otherwise put them
   * around it. The new selection covers the same characters as the old one.
   */
  function ToggleWrap(src: string, s: int, e: int, before: string, after: string): (r: Edit)
    ensures 0 <= s <= e <= |src| && Surrounded(src, s, e, before, after) ==>
      r.text == src[..s - |before|] + src[s..e] + src[e + |after|..]
      && r.ns == s - |before| && r.ne == e - |before|
    ensures 0 <= s <= e <= |src| && !Surrounded(src, s, e, before, after) ==>
      r.text == src[..s] + before + src[s..e] + after + src[e..]
      && r.ns == s + |before| && r.ne == e + |before|
    ensures 0 <= s <= e <= |src| ==>
      0 <= r.ns <= r.ne <= |r.text| && r.text[r.ns..r.ne] == src[s..e]
  {
    if Surrounded(src, s, e, before, after) then
      Edit(UnwrapText(src, s, e, before, after), s - |before|, e - |before|)
    else
      Edit(WrapText(src, s, e, before, after), s + |before|, e + |before|)
  }

  /** Applying the toggle a second time, on the text and selection the first one produced. */
  function Retoggle(x: Edit, before: string, after: string): Edit
  {
    ToggleWrap(x.text, x.ns, x.ne, before, after)
  }

  /**
   * Markers around a text in the middle of a concatenation are taken off, with the selection kept
   * on it. The text and the selection are parameters, so that a caller's own terms match.
   */
  lemma UnwrapParts(w: string, s: int, e: int, x: string, before: string, t: string, after: string, y: string)
    requires w == x + before + t + after + y && s == |x| + |before| && e == s + |t|
    ensures ToggleWrap(w, s, e, before, after) == Edit(x + t + y, |x|, |x| + |t|)
  {
    FiveParts(x, before, t, after, y, w);
    SurroundedMeans(w, s, e, before, after);
  }

  /** Wrapping and then toggling again restores the original text and selection. */
  lemma WrapThenToggle(src: string, s: int, e: int, before: string, after: string)
    requires 0 <= s <= e <= |src|
    requires !Surrounded(src, s, e, before, after)
    ensures Retoggle(ToggleWrap(src, s, e, before, after), before, after) == Edit(src, s, e)
  {
    var w := ToggleWrap(src, s, e, before, after);
    var x, t, y := src[..s], src[s..e], src[e..];
    UnwrapParts(w.text, w.ns, w.ne, x, before, t, after, y);
    CutThree(src, s, e);
  }

  /** Unwrapping and then toggling again restores the original, unless the result is itself wrapped. */
  lemma UnwrapThenToggle(src: string, s: int, e: int, before: string, after: string)
    requires 0 <= s <= e <= |src|
    requires Surrounded(src, s, e, before, after)
    requires !Surrounded(ToggleWrap(src, s, e, before, after).text, s - |before|, e - |before|, before, after)
    ensures Retoggle(ToggleWrap(src, s, e, before, after), before, after) == Edit(src, s, e)
  {
    var u := ToggleWrap(src, s, e, before, after);
    SurroundedMeans(src, s, e, before, after);
    ThreeParts(src[..s - |before|], src[s..e], src[e + |after|..], u.text);
    CutFive(src, s - |before|, s, e, e + |after|);
  }

  /**
   * Where the line holding offset `i` starts, as the editors compute it: one past the last newline
   * at or before `i - 1`. `lastIndexOf` clamps a negative start to 0, so for `i = 0` a newline at
   * position 0 is found and the result is 1, past the caret.
   */
  function LineStartAsWritten(src: string, i: int): (r: int)
    ensures 0 <= r <= |src|
    ensures 0 < i <= |src| ==> r <= i
    ensures r == if i <= 0 && |src| > 0 && src[0] == '\n' then 1 else LineStart(src, i)
  {
    LastIndexOf(src, '\n', i - 1) + 1
  }

  /** The caret at the very start of a text that opens with an empty line yields a line start of 1. */
  lemma AsWrittenLineStartPastCaret()
    ensures LineStartAsWritten("\nab", 0) == 1
  {
    assert "\nab"[0] == '\n';
  }

  /** Where the line holding offset `i` starts: 0 for the first line, otherwise one past a newline. */
  function LineStart(src: string, i: int): (r: nat)
    ensures r <= |src|
    ensures 0 <= i <= |src| ==> r <= i && (r == 0 || src[r - 1] == '\n')
    ensures 0 <= i <= |src| ==> forall k :: r <= k < i ==> src[k] != '\n'
  {
    if i <= 0 then 0 else LastIndexOf(src, '\n', i - 1) + 1
  }

  /** Where the line holding offset `i` ends: the next newline at or after `i`, or the text's end. */
  function LineEnd(src: string, i: int): (r: nat)
    ensures r <= |src|
    ensures 0 <= i <= |src| ==> i <= r && (r == |src| || src[r] == '\n')
    ensures 0 <= i <= |src| ==> forall k :: i <= k < r ==> src[k] != '\n'
  {
    var j := IndexOf(src, '\n', i);
    if j == -1 then |src| else j
  }

  /** Every line starts with `p`. */
  predicate AllPrefixed(lines: seq<string>, p: string)
  {
    forall k :: 0 <= k < |lines| ==> StartsWith(lines[k], p)
  }

  /** The stripping step: drop `p` from a line that starts with it. */
  function StripPrefix(p: string): string -> string
  {
    l => if StartsWith(l, p) then l[|p|..] else l
  }

  /** The adding step: blank lines and lines already starting with `p` stay; the rest get `p`. */
  function AddPrefix(p: string): string -> string
  {
    l => if IsBlank(l) then l else if StartsWith(l, p) then l else p + l
  }

  /**
   * The per-line prefix toggle: when every line carries `p`, it is stripped from all of them;
   * otherwise every non-blank line ends up carrying it.
   */
  function ToggleLines(lines: seq<string>, p: string): (r: seq<string>)
    ensures |r| == |lines|
    ensures AllPrefixed(lines, p) ==> forall k :: 0 <= k < |lines| ==> p + r[k] == lines[k]
    ensures !AllPrefixed(lines, p) ==>
      forall k :: 0 <= k < |lines| ==> (IsBlank(lines[k]) || StartsWith(lines[k], p) ==> r[k] == lines[k])
    ensures !AllPrefixed(lines, p) ==>
      forall k :: 0 <= k < |lines| ==> (!IsBlank(lines[k]) && !StartsWith(lines[k], p) ==> r[k] == p + lines[k])
    ensures !AllPrefixed(lines, p) ==>
      forall k :: 0 <= k < |lines| ==> (!IsBlank(lines[k]) ==> StartsWith(r[k], p))
  {
    if AllPrefixed(lines, p) then
      var r := Map(lines, StripPrefix(p));
      assert forall k :: 0 <= k < |lines| ==> lines[k] == p + r[k] by {
        forall k | 0 <= k < |lines| ensures lines[k] == p + r[k] {
          assert lines[k] == lines[k][..|p|] + lines[k][|p|..];
        }
      }
      r
    else
      var r := Map(lines, AddPrefix(p));
      assert forall k :: 0 <= k < |lines| && !IsBlank(lines[k]) ==> StartsWith(r[k], p) by {
        forall k | 0 <= k < |lines| && !IsBlank(lines[k]) ensures StartsWith(r[k], p) {
          if !StartsWith(lines[k], p) {
            assert r[k] == p + lines[k];
            assert r[k][..|p|] == p;
          }
        }
      }
      r
  }

  /**
   * On lines that are all non-blank and none of which carries a non-empty `p`, toggling twice
   * gives the lines back: the first toggle adds `p` everywhere, the second strips it everywhere.
   */
  lemma ToggleLinesTwice(lines: seq<string>, p: string)
    requires |p| > 0 && |lines| > 0
    requires forall k :: 0 <= k < |lines| ==> !IsBlank(lines[k]) && !StartsWith(lines[k], p)
    ensures ToggleLines(ToggleLines(lines, p), p) == lines
  {
    assert !StartsWith(lines[0], p);
    var once := ToggleLines(lines, p);
    assert AllPrefixed(once, p);
    var twice := ToggleLines(once, p);
    forall k | 0 <= k < |lines| ensures twice[k] == lines[k] {
      assert p + twice[k] == once[k] == p + lines[k];
      assert twice[k] == (p + twice[k])[|p|..];
      assert lines[k] == (p + lines[k])[|p|..];
    }
  }

  /** A prefix toggle over the region `[L, R)`: the text, the old region and the new one. */
  datatype PrefixEdit = PrefixEdit(text: string, middle: string, newMiddle: string)

  /** Toggle `p` on the lines of `src.slice(L, R)` and put the result back between the two ends. */
  function PrefixToggleAt(src: string, L: int, R: int, p: string): (r: PrefixEdit)
    ensures 0 <= L <= R <= |src| ==> r.middle == src[L..R]
    ensures 0 <= R < L <= |src| ==> r.middle == []
    ensures 0 <= L <= |src| && 0 <= R <= |src| ==> r.text == src[..L] + r.newMiddle + src[R..]
    ensures r.newMiddle == Join(ToggleLines(Split(r.middle, '\n'), p), '\n')
  {
    var middle := Slice(src, L, R);
    var newMiddle := Join(ToggleLines(Split(middle, '\n'), p), '\n');
    PrefixEdit(Slice(src, 0, L) + newMiddle + SliceFrom(src, R), middle, newMiddle)
  }

  /** A concatenation of two newline-free strings is newline-free. */
  lemma FreeConcat(a: string, b: string, sep: char)
    requires Free(a, sep) && Free(b, sep)
    ensures Free(a + b, sep)
  {
    forall k | 0 <= k < |a + b| ensures (a + b)[k] != sep {
      if k < |a| { assert (a + b)[k] == a[k]; } else { assert (a + b)[k] == b[k - |a|]; }
    }
  }

  /**
   * Toggling a prefix on a region and then on the region the result occupies gives the text back,
   * when the region's lines are all non-blank and none carries the (non-empty, newline-free) prefix.
   */
  lemma PrefixToggleAtTwice(src: string, L: int, R: int, p: string)
    requires 0 <= L <= R <= |src|
    requires |p| > 0 && Free(p, '\n')
    requires forall k :: 0 <= k < |Split(src[L..R], '\n')| ==>
      !IsBlank(Split(src[L..R], '\n')[k]) && !StartsWith(Split(src[L..R], '\n')[k], p)
    ensures PrefixToggleAt(PrefixToggleAt(src, L, R, p).text, L, L + |PrefixToggleAt(src, L, R, p).newMiddle|, p).text
      == src
  {
    var lines := Split(src[L..R], '\n');
    var once := ToggleLines(lines, p);
    var first := PrefixToggleAt(src, L, R, p);
    var nm := first.newMiddle;
    assert nm == Join(once, '\n');
    ThreeParts(src[..L], nm, src[R..], first.text);
    forall k | 0 <= k < |once| ensures Free(once[k], '\n') {
      assert once[k] == p + lines[k];
      FreeConcat(p, lines[k], '\n');
    }
    SplitJoin(once, '\n');
    ToggleLinesTwice(lines, p);
    JoinSplit(src[L..R], '\n');
    var second := PrefixToggleAt(first.text, L, L + |nm|, p);
    assert second.newMiddle == src[L..R];
    CutThree(src, L, R);
  }

  /** The commands of the formatting menu. */
  datatype Command = BoldCmd | ItalicCmd | H1 | H2 | H3 | BulletList | NumberedList

  /** What a command does: an inline wrap with a marker, or a line-prefix toggle. */
  datatype CommandAction = WrapWith(marker: string) | PrefixWith(prefix: string)

  /**
   * The command table: bold wraps in `**`, italic in `*`; the headings prefix `# `, `## `, `### `,
   * the lists `- ` and `1. `. Every prefix is a non-empty one-line marker ending in a space.
   */
  function ActionOf(c: Command): (r: CommandAction)
    ensures r.WrapWith? <==> c == BoldCmd || c == ItalicCmd
    ensures r.WrapWith? ==> |r.marker| > 0 && Free(r.marker, '\n')
    ensures r.PrefixWith? ==> |r.prefix| > 0 && Free(r.prefix, '\n') && EndsWith(r.prefix, " ")
  {
    match c
    case BoldCmd => WrapWith("**")
    case ItalicCmd => WrapWith("*")
    case H1 => PrefixWith("# ")
    case H2 => PrefixWith("## ")
    case H3 => PrefixWith("### ")
    case BulletList => PrefixWith("- ")
    case NumberedList => PrefixWith("1. ")
  }

  /** Distinct commands do distinct things. */
  lemma ActionOfInjective(c: Command, d: Command)
    requires ActionOf(c) == ActionOf(d)
    ensures c == d
  {
  }

  /**
   * The prefix toggle with the line start computed as the editors write it. The text before the
   * line start and from the line end on is kept around the new region; when the start lies past
   * the end, the region is empty and the character between them appears twice.
   */
  function PrefixToggleAsWritten(src: string, s: int, e: int, p: string): (r: PrefixEdit)
    ensures var L, R := LineStartAsWritten(src, s), LineEnd(src, e);
      r.text == src[..L] + r.newMiddle + src[R..]
      && r.middle == (if L <= R then src[L..R] else [])
      && r.newMiddle == Join(ToggleLines(Split(r.middle, '\n'), p), '\n')
  {
    PrefixToggleAt(src, LineStartAsWritten(src, s), LineEnd(src, e), p)
  }

  /**
   * With the caret at offset 0 of a text opening with an empty line, the region is `[1, 0)`: the
   * first newline is kept in front and the whole text is appended again after it, so the newline
   * is doubled although no line was covered.
   */
  lemma AsWrittenPrefixDoublesNewline()
    ensures PrefixToggleAsWritten("\nab", 0, 0, "# ").text == "\n\nab"
  {
    AsWrittenLineStartPastCaret();
    var src := "\nab";
    assert src[0] == '\n';
    assert LineEnd(src, 0) == 0;
    assert Slice(src, 1, 0) == [];
    assert Split([], '\n') == [[]];
    assert !StartsWith([[]][0], "# ");
    assert IsBlank([]);
    assert ToggleLines([[]], "# ") == [[]];
  }

  /**
   * Over the selection `[0, 5]` of `"\n# ab"`, a heading under an empty first line, the region as
   * written starts at 1 and leaves the empty line out, so the H1 toggle finds every covered line
   * prefixed and strips the heading.
   */
  lemma AsWrittenStripsAfterBlankLine()
    ensures PrefixToggleAsWritten("\n# ab", 0, 5, "# ").text == "\nab"
  {
    var src := "\n# ab";
    assert src[0] == '\n';
    assert LineEnd(src, 5) == 5;
    assert src[1..5] == "# ab";
    assert Free("# ab", '\n');
    SplitFree("# ab", '\n');
    assert StartsWith("# ab", "# ");
    var r := ToggleLines(["# ab"], "# ");
    assert "# " + r[0] == "# ab";
    assert r[0] == ("# " + r[0])[2..];
    assert r == ["ab"];
  }

  /** The prefix toggle over the whole lines the selection `[s, e]` touches. */
  function PrefixToggle(src: string, s: int, e: int, p: string): (r: PrefixEdit)
    ensures var L, R := LineStart(src, s), LineEnd(src, e);
      0 <= s <= e <= |src| ==> L <= s && e <= R && r.middle == src[L..R]
  {
    PrefixToggleAt(src, LineStart(src, s), LineEnd(src, e), p)
  }

  /**
   * The text before the first covered line and after the last covered line end is unchanged; only
   * the covered region is replaced, and the length changes by exactly the region's change.
   */
  lemma PrefixToggleFrame(src: string, s: int, e: int, p: string)
    requires 0 <= s <= e <= |src|
    ensures PrefixToggle(src, s, e, p).text[..LineStart(src, s)] == src[..LineStart(src, s)]
    ensures PrefixToggle(src, s, e, p).text[LineStart(src, s) + |PrefixToggle(src, s, e, p).newMiddle|..]
      == src[LineEnd(src, e)..]
    ensures |PrefixToggle(src, s, e, p).text| - |src|
      == |PrefixToggle(src, s, e, p).newMiddle| - |PrefixToggle(src, s, e, p).middle|
  {
    var L, R := LineStart(src, s), LineEnd(src, e);
    var r := PrefixToggle(src, s, e, p);
    assert r.text == src[..L] + r.newMiddle + src[R..];
  }

  /** Off the first position of a text opening with a newline, both line starts agree. */
  lemma PrefixToggleAsWrittenAgrees(src: string, s: int, e: int, p: string)
    requires 0 < s || |src| == 0 || src[0] != '\n'
    ensures PrefixToggleAsWritten(src, s, e, p) == PrefixToggle(src, s, e, p)
  {
  }

  /**
   * The as-written toggle keeps the text before its line start and after its line end, and the
   * result is exactly those two pieces around the new region, crossed ends included.
   */
  lemma PrefixToggleAsWrittenFrame(src: string, s: int, e: int, p: string)
    ensures PrefixToggleAsWritten(src, s, e, p).text[..LineStartAsWritten(src, s)] == src[..LineStartAsWritten(src, s)]
    ensures PrefixToggleAsWritten(src, s, e, p).text[LineStartAsWritten(src, s) + |PrefixToggleAsWritten(src, s, e, p).newMiddle|..]
      == src[LineEnd(src, e)..]
    ensures |PrefixToggleAsWritten(src, s, e, p).text|
      == LineStartAsWritten(src, s) + |PrefixToggleAsWritten(src, s, e, p).newMiddle| + (|src| - LineEnd(src, e))
  {
    EditFrame(src, LineStartAsWritten(src, s), LineEnd(src, e), PrefixToggleAsWritten(src, s, e, p));
  }

  /** An edit that puts a new region between the text up to `L` and the text from `R` keeps both. */
  lemma EditFrame(src: string, L: int, R: int, r: PrefixEdit)
    requires 0 <= L <= |src| && 0 <= R <= |src| && r.text == src[..L] + r.newMiddle + src[R..]
    ensures r.text[..L] == src[..L]
    ensures r.text[L + |r.newMiddle|..] == src[R..]
    ensures |r.text| == L + |r.newMiddle| + (|src| - R)
  {
    ThreeParts(src[..L], r.newMiddle, src[R..], r.text);
  }

  /** The corrected region over the same selection takes in the empty line and keeps the heading. */
  lemma CorrectedKeepsAfterBlankLine()
    ensures PrefixToggle("\n# ab", 0, 5, "# ").text == "\n# ab"
  {
    assert Free("# ab", '\n');
    assert StartsWith("# ab", "# ");
    KeepsUnderBlankLine("\n# ab", "# ab", "# ");
  }

  /** A one-line text under an empty first line, already carrying `p`, comes back unchanged. */
  lemma KeepsUnderBlankLine(src: string, h: string, p: string)
    requires src == ['\n'] + h && Free(h, '\n') && |p| > 0 && StartsWith(h, p)
    ensures PrefixToggle(src, 0, |src|, p).text == src
  {
    assert LineEnd(src, |src|) == |src|;
    SplitUnderBlank(src, h);
    KeepsBlankAndHeading(Split(src, '\n'), h, p);
    ToggleWholeKeeps(src, p, Split(src, '\n'));
  }

  /** When the toggle leaves every line of a text as it is, toggling the whole text keeps it. */
  lemma ToggleWholeKeeps(src: string, p: string, lines: seq<string>)
    requires lines == Split(src, '\n') && ToggleLines(lines, p) == lines
    ensures PrefixToggleAt(src, 0, |src|, p).text == src
  {
    var pe := PrefixToggleAt(src, 0, |src|, p);
    assert src[0..|src|] == src;
    assert Split(pe.middle, '\n') == lines;
    assert pe.newMiddle == Join(lines, '\n');
    JoinSplit(src, '\n');
    assert src[..0] == [] && src[|src|..] == [];
    assert pe.text == [] + src + [];
  }

  /** A newline then a newline-free line splits into an empty piece and that line. */
  lemma SplitUnderBlank(src: string, h: string)
    requires src == ['\n'] + h && Free(h, '\n')
    ensures Split(src, '\n') == [[], h]
  {
    assert src == [] + ['\n'] + h;
    SplitFree(h, '\n');
    SplitWithPrefix([], h, '\n');
  }

  /** An empty line followed by a line carrying a non-empty `p`: the toggle keeps both. */
  lemma KeepsBlankAndHeading(lines: seq<string>, h: string, p: string)
    requires lines == [[], h] && |p| > 0 && StartsWith(h, p)
    ensures ToggleLines(lines, p) == lines
  {
    assert !StartsWith(lines[0], p);
    assert IsBlank(lines[0]);
    var r := ToggleLines(lines, p);
    assert r[0] == lines[0] && r[1] == lines[1];
  }

  /** The corrected line start never lies past the caret, even at offset 0 of a text opening with a newline. */
  lemma LineStartAtCaret()
    ensures LineStart("\nab", 0) == 0
    ensures PrefixToggle("\nab", 0, 0, "# ").text == "\nab"
  {
    var src := "\nab";
    assert src[0] == '\n';
    assert LineEnd(src, 0) == 0;
    assert Split([], '\n') == [[]];
    assert !StartsWith([[]][0], "# ");
    assert IsBlank([]);
    assert ToggleLines([[]], "# ") == [[]];
  }
}
