/**
 * The goal-description textarea with a right-click command menu: inline wrapping of a non-empty
 * selection, the line-prefix toggle, and the command dispatch. Each command computes the next
 * text handed to `setData` and the selection restored afterwards; a command that returns early
 * yields nothing.
 */
module RevertGoalDescription {
  import opened Wrappers
  import opened JsString
  import opened MdText
  import opened TextareaSelection

  /**
   * `applyInlineWrap`: nothing on an empty selection; otherwise the shared toggle, with the new
   * selection moved left by the marker on an unwrap and right by it on a wrap.
   */
  function ApplyInlineWrap(src: string, s: int, e: int, before: string, after: string): (r: Option<Edit>)
    ensures r.None? <==> s == e
    ensures 0 <= s < e <= |src| && Surrounded(src, s, e, before, after) ==>
      r == Some(Edit(src[..s - |before|] + src[s..e] + src[e + |after|..], s - |before|, e - |before|))
    ensures 0 <= s < e <= |src| && !Surrounded(src, s, e, before, after) ==>
      r == Some(Edit(src[..s] + before + src[s..e] + after + src[e..], s + |before|, e + |before|))
  {
    if s == e then None else Some(ToggleWrap(src, s, e, before, after))
  }

  /** A wrap applied by the menu is undone by applying the same command again. */
  lemma InlineWrapTwice(src: string, s: int, e: int, before: string, after: string)
    requires 0 <= s < e <= |src| && !Surrounded(src, s, e, before, after)
    ensures ApplyInlineWrap(ApplyInlineWrap(src, s, e, before, after).value.text, s + |before|, e + |before|, before, after)
      == Some(Edit(src, s, e))
  {
    var w := ToggleWrap(src, s, e, before, after);
    assert ApplyInlineWrap(src, s, e, before, after) == Some(w);
    assert w.ns == s + |before| && w.ne == e + |before| && w.ns != w.ne;
    assert ApplyInlineWrap(w.text, w.ns, w.ne, before, after) == Some(Retoggle(w, before, after));
    WrapThenToggle(src, s, e, before, after);
  }

  /**
   * `applyPrefix`: the prefix toggle over the lines the selection touches (also on an empty
   * selection), its line start computed as written, with the new selection starting at the old
   * start and spanning the new region.
   */
  function ApplyPrefix(src: string, s: int, e: int, p: string): (r: Edit)
    ensures r.text == PrefixToggleAsWritten(src, s, e, p).text
    ensures r.ns == s && r.ne - r.ns == |PrefixToggleAsWritten(src, s, e, p).newMiddle|
  {
    var pe := PrefixToggleAsWritten(src, s, e, p);
    Edit(pe.text, s, s + |pe.newMiddle|)
  }

  /**
   * The text before the line start is kept, and the untouched tail from the last covered line's
   * end follows the new region; the new text is exactly those three pieces.
   */
  lemma ApplyPrefixKeepsOutside(src: string, s: int, e: int, p: string)
    requires 0 <= s <= e <= |src|
    ensures ApplyPrefix(src, s, e, p).text[..LineStartAsWritten(src, s)] == src[..LineStartAsWritten(src, s)]
    ensures ApplyPrefix(src, s, e, p).text[LineStartAsWritten(src, s) + |PrefixToggleAsWritten(src, s, e, p).newMiddle|..]
      == src[LineEnd(src, e)..]
    ensures |ApplyPrefix(src, s, e, p).text|
      == LineStartAsWritten(src, s) + |PrefixToggleAsWritten(src, s, e, p).newMiddle| + (|src| - LineEnd(src, e))
  {
    PrefixToggleAsWrittenFrame(src, s, e, p);
  }

  /** A single line that is not blank and lacks `p` gets `p` in front. */
  lemma ToggleOneLine(l: string, p: string)
    requires Free(l, '\n') && !IsBlank(l) && !StartsWith(l, p)
    ensures Join(ToggleLines(Split(l, '\n'), p), '\n') == p + l
  {
    SplitFree(l, '\n');
    var lines := [l];
    assert lines[0] == l && !AllPrefixed(lines, p);
    var t := ToggleLines(lines, p);
    assert |t| == 1 && t[0] == p + l;
  }

  /** In a single non-blank line lacking `p`, the toggle at any caret inside it puts `p` in front. */
  lemma PrefixOneLine(l: string, i: int, p: string)
    requires Free(l, '\n') && !IsBlank(l) && !StartsWith(l, p) && 0 < i <= |l|
    ensures PrefixToggleAsWritten(l, i, i, p).newMiddle == p + l
    ensures PrefixToggleAsWritten(l, i, i, p).text == p + l
  {
    var L, R := LineStartAsWritten(l, i), LineEnd(l, i);
    assert L == 0;
    assert R == |l|;
    var pe := PrefixToggleAsWritten(l, i, i, p);
    assert pe.middle == l by {
      assert l[L..R] == l;
    }
    ToggleOneLine(l, p);
    assert pe.newMiddle == p + l;
    assert l[..L] == [] && l[R..] == [];
    assert pe.text == [] + pe.newMiddle + [];
  }

  /**
   * The selection the textarea ends with once the frame calls `setSelectionRange(s, s +
   * newMiddle.length)` on the new text: the start stays at `s` and the end at `s + |newMiddle|`
   * only as far as the new text reaches; past it both are cut back to its length.
   */
  lemma ApplyPrefixSelectionLands(src: string, s: int, e: int, p: string)
    requires 0 <= s <= e <= |src|
    requires |ApplyPrefix(src, s, e, p).text| < 0x1_0000_0000 && ApplyPrefix(src, s, e, p).ne < 0x1_0000_0000
    ensures var r := ApplyPrefix(src, s, e, p);
      var sel := SetSelectionRange(r.ns, r.ne, |r.text|);
      sel.1 == (if r.ne <= |r.text| then r.ne else |r.text|)
      && sel.0 == (if s <= sel.1 then s else sel.1)
      && (sel == (r.ns, r.ne) <==> r.ne <= |r.text|)
  {
    var r := ApplyPrefix(src, s, e, p);
    SetSelectionRangeOrdered(r.ns, r.ne, |r.text|);
  }

  /** On one non-blank line lacking the prefix, `applyPrefix` at a caret inside it selects from there on. */
  lemma ApplyPrefixOneLine(l: string, i: int, p: string)
    requires Free(l, '\n') && !IsBlank(l) && !StartsWith(l, p) && 0 < i <= |l|
    ensures ApplyPrefix(l, i, i, p) == Edit(p + l, i, i + |p| + |l|)
  {
    PrefixOneLine(l, i, p);
  }

  /**
   * The caret at the end of `"ab"` and H1: the arguments are `(2, 6)` on the four characters of
   * `"# ab"`, so the textarea ends with `(2, 4)`.
   */
  lemma ApplyPrefixSelectionClamped()
    ensures ApplyPrefix("ab", 2, 2, "# ") == Edit("# ab", 2, 6)
    ensures SetSelectionRange(2, 6, 4) == (2, 4)
  {
    var src, p := "ab", "# ";
    assert src[0] != '\n' && src[1] != '\n';
    assert src[0] != p[0];
    ApplyPrefixOneLine(src, 2, p);
    SetSelectionRangeOrdered(2, 6, 4);
  }

  /** Away from a caret at 0 before a leading newline, `applyPrefix` is the corrected toggle. */
  lemma ApplyPrefixAgrees(src: string, s: int, e: int, p: string)
    requires 0 < s || |src| == 0 || src[0] != '\n'
    ensures ApplyPrefix(src, s, e, p).text == PrefixToggle(src, s, e, p).text
  {
    PrefixToggleAsWrittenAgrees(src, s, e, p);
  }

  /** `onCommand`: the command table applied to the textarea's text and selection. */
  function OnCommand(src: string, s: int, e: int, c: Command): (r: Option<Edit>)
    ensures ActionOf(c).WrapWith? ==> r == ApplyInlineWrap(src, s, e, ActionOf(c).marker, ActionOf(c).marker)
    ensures ActionOf(c).PrefixWith? ==> r == Some(ApplyPrefix(src, s, e, ActionOf(c).prefix))
  {
    match ActionOf(c)
    case WrapWith(m) => ApplyInlineWrap(src, s, e, m, m)
    case PrefixWith(p) => Some(ApplyPrefix(src, s, e, p))
  }

  /** Bold on a selection that is not yet bold puts `**` on both sides of it. */
  lemma BoldWraps(src: string, s: int, e: int)
    requires 0 <= s < e <= |src| && !Surrounded(src, s, e, "**", "**")
    ensures OnCommand(src, s, e, BoldCmd) == Some(Edit(src[..s] + "**" + src[s..e] + "**" + src[e..], s + 2, e + 2))
  {
  }
}
