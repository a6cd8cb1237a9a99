/**
 * The textarea Markdown editor with selection tracking: it remembers the latest selection and the
 * latest non-empty one, applies the wrap and prefix toggles to the stable range, queues the
 * selection to restore and hands every new text to `onChange`.
 */
module RevertEditor {
  import opened Wrappers
  import opened JsString
  import opened MdText
  import opened TextareaSelection

  /** A selection `{ s, e }` of the textarea. */
  datatype Sel = Sel(s: int, e: int)

  /** The range a command works on: the current selection if non-empty, else the last non-empty one. */
  function StableRange(cur: Sel, prev: Sel): (r: Option<Sel>)
    ensures cur.s != cur.e ==> r == Some(cur)
    ensures cur.s == cur.e && prev.s != prev.e ==> r == Some(prev)
    ensures r.None? <==> cur.s == cur.e && prev.s == prev.e
  {
    if cur.s != cur.e then Some(cur)
    else if prev.s != prev.e then Some(prev)
    else None
  }

  /** A stable range is never empty. */
  lemma StableRangeNonEmpty(cur: Sel, prev: Sel)
    requires StableRange(cur, prev).Some?
    ensures StableRange(cur, prev).value.s != StableRange(cur, prev).value.e
  {
  }

  /** `e.key.toLowerCase() === c` for a one-letter ASCII key name. */
  predicate KeyIs(key: string, lower: char, upper: char)
  {
    key == [lower] || key == [upper]
  }

  /** The hotkeys: with Ctrl or Cmd held, B wraps in `**` and I in `*`; anything else does nothing. */
  function Hotkey(ctrl: bool, meta: bool, key: string): (r: Option<string>)
    ensures r == Some("**") <==> (ctrl || meta) && KeyIs(key, 'b', 'B')
    ensures r == Some("*") <==> (ctrl || meta) && KeyIs(key, 'i', 'I')
    ensures r.None? <==> !(ctrl || meta) || (!KeyIs(key, 'b', 'B') && !KeyIs(key, 'i', 'I'))
  {
    if !(ctrl || meta) then None
    else if KeyIs(key, 'b', 'B') then Some("**")
    else if KeyIs(key, 'i', 'I') then Some("*")
    else None
  }

  class MarkdownEditor {
    /** The local text state. */
    var text: string
    /** The most recent selection seen while the textarea had focus. */
    var lastSel: Sel
    /** The most recent non-empty selection. */
    var lastNonZeroSel: Sel
    /** The selection to restore after the next render. */
    var pendingSel: Option<Sel>
    /** The values handed to `onChange`, oldest first. */
    var emitted: seq<string>

    /** The remembered non-empty selection is non-empty, or still the initial `{0, 0}`. */
    predicate Valid()
      reads this
    {
      lastNonZeroSel.s != lastNonZeroSel.e || lastNonZeroSel == Sel(0, 0)
    }

    constructor(value: Option<string>)
      ensures Valid()
      ensures text == value.GetOr("")
      ensures lastSel == Sel(0, 0) && lastNonZeroSel == Sel(0, 0)
      ensures pendingSel == None && emitted == []
    {
      text := value.GetOr("");
      lastSel := Sel(0, 0);
      lastNonZeroSel := Sel(0, 0);
      pendingSel := None;
      emitted := [];
    }

    /** The stable range of the current tracking state. */
    function Range(): Option<Sel>
      reads this
    {
      StableRange(lastSel, lastNonZeroSel)
    }

    /** A new value from the parent replaces the local text. */
    method Receive(value: Option<string>)
      modifies this
      ensures text == value.GetOr("")
      ensures lastSel == old(lastSel) && lastNonZeroSel == old(lastNonZeroSel)
      ensures pendingSel == old(pendingSel) && emitted == old(emitted)
    {
      text := value.GetOr("");
    }

    /**
     * The selection listener: while the textarea has focus it records the selection, and the
     * non-empty one only when start and end differ.
     */
    method SelectionChanged(focused: bool, s: int, e: int)
      requires Valid()
      modifies this
      ensures Valid()
      ensures lastSel == if focused then Sel(s, e) else old(lastSel)
      ensures lastNonZeroSel == if focused && s != e then Sel(s, e) else old(lastNonZeroSel)
      ensures text == old(text) && pendingSel == old(pendingSel) && emitted == old(emitted)
      ensures focused && s != e ==> Range() == Some(Sel(s, e))
      ensures focused && s == e ==> Range() == StableRange(Sel(s, e), old(lastNonZeroSel))
    {
      if focused {
        lastSel := Sel(s, e);
        if s != e {
          lastNonZeroSel := Sel(s, e);
        }
      }
    }

    /** Set the new text, queue the selection and report the text. */
    method ApplyChange(newText: string, s: int, e: int)
      modifies this
      ensures text == newText && pendingSel == Some(Sel(s, e))
      ensures emitted == old(emitted) + [newText]
      ensures lastSel == old(lastSel) && lastNonZeroSel == old(lastNonZeroSel)
    {
      text := newText;
      pendingSel := Some(Sel(s, e));
      emitted := emitted + [newText];
    }

    /**
     * The restore effect, which runs after a render whose text differs from the previous render's
     * (`prevText`), with the animation frame it queues and the selection event that follows. The
     * queued selection is taken off; when the textarea is still mounted it is set as
     * `setSelectionRange` clamps it, and the focused textarea's listener records it.
     */
    method RestoreSelection(prevText: string, mounted: bool)
      requires Valid()
      modifies this
      ensures Valid()
      ensures text == old(text) && emitted == old(emitted)
      ensures text == prevText || old(pendingSel).None? ==>
        pendingSel == old(pendingSel) && lastSel == old(lastSel) && lastNonZeroSel == old(lastNonZeroSel)
      ensures text != prevText && old(pendingSel).Some? ==> pendingSel == None
      ensures text != prevText && old(pendingSel).Some? && !mounted ==>
        lastSel == old(lastSel) && lastNonZeroSel == old(lastNonZeroSel)
      ensures text != prevText && old(pendingSel).Some? && mounted ==>
        var r := SetSelectionRange(old(pendingSel).value.s, old(pendingSel).value.e, |text|);
        lastSel == Sel(r.0, r.1)
        && lastNonZeroSel == (if r.0 != r.1 then Sel(r.0, r.1) else old(lastNonZeroSel))
    {
      if text == prevText || pendingSel.None? {
        return;
      }
      var sel := pendingSel.value;
      pendingSel := None;
      if mounted {
        var r := SetSelectionRange(sel.s, sel.e, |text|);
        SelectionChanged(true, r.0, r.1);
      }
    }

    /** The wrap toggle on the stable range; without one nothing happens. */
    method ToggleWrap(before: string, after: string)
      modifies this
      ensures old(Range()).None? ==>
        text == old(text) && pendingSel == old(pendingSel) && emitted == old(emitted)
      ensures old(Range()).Some? ==>
        var rng := old(Range()).value;
        var w := MdText.ToggleWrap(old(text), rng.s, rng.e, before, after);
        text == w.text && pendingSel == Some(Sel(w.ns, w.ne)) && emitted == old(emitted) + [w.text]
      ensures lastSel == old(lastSel) && lastNonZeroSel == old(lastNonZeroSel)
    {
      var rng := Range();
      if rng.Some? {
        var w := MdText.ToggleWrap(text, rng.value.s, rng.value.e, before, after);
        ApplyChange(w.text, w.ns, w.ne);
      }
    }

    /**
     * The prefix toggle on the lines the stable range touches, its line start computed as the
     * editor writes it; the selection keeps its start and its end moves by the change in length.
     * Without a range nothing happens.
     */
    method TogglePrefix(prefix: string)
      modifies this
      ensures old(Range()).None? ==>
        text == old(text) && pendingSel == old(pendingSel) && emitted == old(emitted)
      ensures old(Range()).Some? ==>
        var rng := old(Range()).value;
        var p := PrefixToggleAsWritten(old(text), rng.s, rng.e, prefix);
        text == p.text && emitted == old(emitted) + [p.text]
        && pendingSel == Some(Sel(rng.s, rng.e + (|p.newMiddle| - |p.middle|)))
      ensures lastSel == old(lastSel) && lastNonZeroSel == old(lastNonZeroSel)
    {
      var rng := Range();
      if rng.Some? {
        var p := PrefixToggleAsWritten(text, rng.value.s, rng.value.e, prefix);
        var delta := |p.newMiddle| - |p.middle|;
        ApplyChange(p.text, rng.value.s, rng.value.e + delta);
      }
    }

    /** The textarea's key handler. */
    method KeyDown(ctrl: bool, meta: bool, key: string)
      modifies this
      ensures Hotkey(ctrl, meta, key).None? || old(Range()).None? ==>
        text == old(text) && pendingSel == old(pendingSel) && emitted == old(emitted)
      ensures Hotkey(ctrl, meta, key).Some? && old(Range()).Some? ==>
        var m := Hotkey(ctrl, meta, key).value;
        var rng := old(Range()).value;
        var w := MdText.ToggleWrap(old(text), rng.s, rng.e, m, m);
        text == w.text && pendingSel == Some(Sel(w.ns, w.ne)) && emitted == old(emitted) + [w.text]
      ensures lastSel == old(lastSel) && lastNonZeroSel == old(lastNonZeroSel)
    {
      var m := Hotkey(ctrl, meta, key);
      if m.Some? {
        ToggleWrap(m.value, m.value);
      }
    }
  }

  /** Selecting then pressing Ctrl+B wraps exactly the selected text in `**`. */
  method SelectThenBold(src: string, s: int, e: int) returns (text: string)
    requires 0 <= s < e <= |src|
    requires !Surrounded(src, s, e, "**", "**")
    ensures text == src[..s] + "**" + src[s..e] + "**" + src[e..]
  {
    var ed := new MarkdownEditor(Some(src));
    ed.SelectionChanged(true, s, e);
    ed.KeyDown(true, false, "b");
    text := ed.text;
  }

  /**
   * After Ctrl+B on a selection inside a text, and the render and restore that follow, the command
   * range is the wrapped text itself, so a second Ctrl+B toggles the same characters.
   */
  method BoldThenRestore(src: string, s: int, e: int) returns (text: string, range: Option<Sel>)
    requires 0 <= s < e <= |src| && |src| + 4 < 0x1_0000_0000
    requires !Surrounded(src, s, e, "**", "**")
    ensures text == src[..s] + "**" + src[s..e] + "**" + src[e..]
    ensures range == Some(Sel(s + 2, e + 2)) && text[s + 2..e + 2] == src[s..e]
  {
    var ed := new MarkdownEditor(Some(src));
    ed.SelectionChanged(true, s, e);
    ed.KeyDown(true, false, "b");
    assert |ed.text| == |src| + 4;
    ed.RestoreSelection(src, true);
    text, range := ed.text, ed.Range();
  }
}
