/**
 * The card-style goal/description editor: context-menu formatting of the selected text in the
 * goal or the description field, and the textarea commands that rewrite the textarea's value and
 * selection directly, then dispatch an `input` event.
 */
module BackupGoalDescription {
  import opened Wrappers
  import opened Storage
  import opened FormatMenu
  import MdText
  import TextareaSelection

  /** The two fields the menu can target. */
  datatype GoalField = Goal | Description

  /** The target field's current value. */
  function FieldValue(data: OnePagerData, field: GoalField): string
  {
    match field
    case Goal => data.goal
    case Description => data.description
  }

  /**
   * `handleFormat`: nothing without a selection or a target field, or when a link gets no URL;
   * otherwise the target field becomes its text before the range, the formatted selection and its
   * text after the range, and no other part of the document changes.
   */
  function HandleFormat(data: OnePagerData, field: Option<GoalField>, sel: Option<DomSelection>,
                        f: Format, url: Option<string>): (r: Option<OnePagerData>)
    ensures r.None? <==> sel.None? || field.None? || Formatted(f, sel.value.text, url).None?
    ensures r.Some? ==>
      FieldValue(r.value, field.value)
      == Splice(FieldValue(data, field.value), sel.value.startOffset, sel.value.endOffset,
                Formatted(f, sel.value.text, url).value)
    ensures r.Some? && field.value == Goal ==> r.value == data.(goal := r.value.goal)
    ensures r.Some? && field.value == Description ==> r.value == data.(description := r.value.description)
  {
    if sel.None? || field.None? then None
    else
      match Formatted(f, sel.value.text, url)
      case None => None
      case Some(formatted) =>
        var cur := FieldValue(data, field.value);
        var v := Splice(cur, sel.value.startOffset, sel.value.endOffset, formatted);
        match field.value
        case Goal => Some(data.(goal := v))
        case Description => Some(data.(description := v))
  }

  /**
   * A wrapping format over the goal's `[start, end)`, undone by the textarea toggle on the
   * formatted goal, gives the goal back.
   */
  lemma FormatGoalUndone(data: OnePagerData, start: int, end: int, f: Format, r: Option<OnePagerData>)
    requires 0 <= start <= end <= |data.goal| && f != Link
    requires r == HandleFormat(data, Some(Goal), Some(DomSelection(data.goal[start..end], start, end)), f, None)
    ensures r.Some?
    ensures MdText.ToggleWrap(r.value.goal, start + |Opening(f)|, end + |Opening(f)|, Opening(f), Opening(f)).text
      == data.goal
  {
    SpliceUndoneByToggle(data.goal, start, end, f, r.value.goal);
  }

  class Textarea {
    var value: string
    var selStart: nat
    var selEnd: nat
    /** The values announced by the dispatched `input` events, oldest first. */
    var inputs: seq<string>

    /** A textarea's selection lies within its value, start first. */
    predicate Valid()
      reads this
    {
      selStart <= selEnd <= |value|
    }

    constructor(v: string, s: nat, e: nat)
      requires s <= e <= |v|
      ensures Valid() && value == v && selStart == s && selEnd == e && inputs == []
    {
      value, selStart, selEnd, inputs := v, s, e, [];
    }

    /** `__md_commit`: set the value, then the selection (end clamped first, start not past it). */
    method Commit(text: string, ns: int, ne: int)
      modifies this
      ensures Valid()
      ensures value == text && inputs == old(inputs) + [text]
      ensures selEnd == TextareaSelection.SelectionOffset(ne, |text|)
      ensures selStart == if TextareaSelection.SelectionOffset(ns, |text|) <= selEnd then TextareaSelection.SelectionOffset(ns, |text|) else selEnd
      ensures 0 <= ns <= ne <= |text| < 0x1_0000_0000 ==> selStart == ns && selEnd == ne
    {
      value := text;
      var sel := TextareaSelection.SetSelectionRange(ns, ne, |text|);
      selStart, selEnd := sel.0, sel.1;
      inputs := inputs + [text];
    }

    /** `__md_wrap`: the shared toggle on a non-empty selection; nothing on an empty one. */
    method MdWrap(before: string, after: string)
      requires Valid()
      modifies this
      ensures Valid()
      ensures old(selStart) == old(selEnd) ==>
        value == old(value) && selStart == old(selStart) && selEnd == old(selEnd) && inputs == old(inputs)
      ensures old(selStart) != old(selEnd) ==>
        var w := MdText.ToggleWrap(old(value), old(selStart), old(selEnd), before, after);
        value == w.text && inputs == old(inputs) + [w.text]
        && (|w.text| < 0x1_0000_0000 ==> selStart == w.ns && selEnd == w.ne)
    {
      var src, s, e := value, selStart, selEnd;
      if s != e {
        var w := MdText.ToggleWrap(src, s, e, before, after);
        Commit(w.text, w.ns, w.ne);
      }
    }

    /**
     * `__md_prefix`: the prefix toggle with the line start as written, the selection end moved by
     * the change in length.
     */
    method MdPrefix(p: string)
      requires Valid()
      modifies this
      ensures Valid()
      ensures var pe := MdText.PrefixToggleAsWritten(old(value), old(selStart), old(selEnd), p);
        var delta := |pe.newMiddle| - |pe.middle|;
        value == pe.text && inputs == old(inputs) + [pe.text]
        && selEnd == TextareaSelection.SelectionOffset(old(selEnd) + delta, |pe.text|)
        && selStart == (var st := TextareaSelection.SelectionOffset(old(selStart), |pe.text|); if st <= selEnd then st else selEnd)
    {
      var src, s, e := value, selStart, selEnd;
      var pe := MdText.PrefixToggleAsWritten(src, s, e, p);
      var delta := |pe.newMiddle| - |pe.middle|;
      Commit(pe.text, s, e + delta);
    }
  }

  /** `__md_apply`: without a textarea nothing happens; otherwise the command table decides. */
  method MdApply(ta: Textarea?, c: MdText.Command)
    requires ta != null ==> ta.Valid()
    modifies ta
    ensures ta != null ==> ta.Valid()
    ensures ta != null && MdText.ActionOf(c).WrapWith? && old(ta.selStart) != old(ta.selEnd) ==>
      var m := MdText.ActionOf(c).marker;
      var w := MdText.ToggleWrap(old(ta.value), old(ta.selStart), old(ta.selEnd), m, m);
      ta.value == w.text && ta.inputs == old(ta.inputs) + [w.text]
      && (|w.text| < 0x1_0000_0000 ==> ta.selStart == w.ns && ta.selEnd == w.ne)
    ensures ta != null && MdText.ActionOf(c).WrapWith? && old(ta.selStart) == old(ta.selEnd) ==>
      ta.value == old(ta.value) && ta.inputs == old(ta.inputs)
      && ta.selStart == old(ta.selStart) && ta.selEnd == old(ta.selEnd)
    ensures ta != null && MdText.ActionOf(c).PrefixWith? ==>
      var pe := MdText.PrefixToggleAsWritten(old(ta.value), old(ta.selStart), old(ta.selEnd), MdText.ActionOf(c).prefix);
      var delta := |pe.newMiddle| - |pe.middle|;
      ta.value == pe.text && ta.inputs == old(ta.inputs) + [pe.text]
      && ta.selEnd == TextareaSelection.SelectionOffset(old(ta.selEnd) + delta, |pe.text|)
      && ta.selStart == (var st := TextareaSelection.SelectionOffset(old(ta.selStart), |pe.text|); if st <= ta.selEnd then st else ta.selEnd)
  {
    if ta == null {
      return;
    }
    var a := MdText.ActionOf(c);
    ghost var v0, s0, e0 := ta.value, ta.selStart, ta.selEnd;
    if a.WrapWith? {
      ta.MdWrap(a.marker, a.marker);
      assert s0 != e0 ==> ta.value == MdText.ToggleWrap(v0, s0, e0, a.marker, a.marker).text;
    } else {
      ta.MdPrefix(a.prefix);
      assert ta.value == MdText.PrefixToggleAsWritten(v0, s0, e0, a.prefix).text;
    }
  }
}
