/**
 * The context-menu formatting shared by the card editors: the menu opens only over a non-empty
 * selection, a format turns the selected text into its Markdown form (a link needs a URL from a
 * prompt), and the result is spliced into the field's value with `substring`.
 */
module FormatMenu {
  import opened Wrappers
  import opened JsString
  import opened JsArray
  import MdText

  /** The formats the menu offers. */
  datatype Format = Bold | Italic | Underline | Link | Code

  /** `window.getSelection()`: its text and the offsets of its first range. */
  datatype DomSelection = DomSelection(text: string, startOffset: int, endOffset: int)

  /** The menu opens only when there is a selection and its text is non-empty. */
  predicate MenuOpens(selectedText: Option<string>)
  {
    selectedText.Some? && |selectedText.value| > 0
  }

  /** A prompt answer that JavaScript treats as true: given and not the empty string. */
  predicate Truthy(url: Option<string>)
  {
    url.Some? && url.value != ""
  }

  /** The marker a format puts in front of the selected text. */
  function Opening(f: Format): string
  {
    match f
    case Bold => "**"
    case Italic => "*"
    case Underline => "__"
    case Link => "["
    case Code => "`"
  }

  /**
   * The formatted text, or nothing when a link is asked for and the prompt gives no URL. The
   * selected text follows the opening marker; the other formats close with the same marker.
   */
  function Formatted(f: Format, t: string, url: Option<string>): (r: Option<string>)
    ensures r.None? <==> f == Link && !Truthy(url)
    ensures r.Some? ==>
      (StartsWith(r.value, Opening(f))
       && |Opening(f)| + |t| <= |r.value| && r.value[|Opening(f)|..|Opening(f)| + |t|] == t)
    ensures r.Some? && f != Link ==> r.value == Opening(f) + t + Opening(f)
    ensures r.Some? && f == Link ==> r.value == "[" + t + "](" + url.value + ")"
  {
    match f
    case Bold => Some("**" + t + "**")
    case Italic => Some("*" + t + "*")
    case Underline => Some("__" + t + "__")
    case Link => if Truthy(url) then Some("[" + t + "](" + url.value + ")") else None
    case Code => Some("`" + t + "`")
  }

  /** `cur.substring(0, start) + formatted + cur.substring(end)`. */
  function Splice(cur: string, start: int, end: int, formatted: string): (r: string)
    ensures 0 <= start <= end <= |cur| ==> r == cur[..start] + formatted + cur[end..]
  {
    Substring(cur, 0, start) + formatted + SubstringFrom(cur, end)
  }

  /**
   * When the selected text is the value's `[start, end)`, a wrapping format spliced in is undone by
   * the textarea editors' toggle on the selected text: the value comes back.
   */
  lemma SpliceUndoneByToggle(cur: string, start: int, end: int, f: Format, w: string)
    requires 0 <= start <= end <= |cur| && f != Link
    requires w == Splice(cur, start, end, Formatted(f, cur[start..end], None).value)
    ensures MdText.ToggleWrap(w, start + |Opening(f)|, end + |Opening(f)|, Opening(f), Opening(f)).text == cur
  {
    FormattedWraps(f, cur[start..end]);
    SpliceWrapped(cur, start, end, Opening(f), cur[start..end], Formatted(f, cur[start..end], None).value, w);
  }

  lemma FormattedWraps(f: Format, t: string)
    requires f != Link
    ensures Formatted(f, t, None).value == Opening(f) + t + Opening(f)
  {
  }

  lemma SpliceWrapped(cur: string, start: int, end: int, m: string, t: string, formatted: string, w: string)
    requires 0 <= start <= end <= |cur| && t == cur[start..end]
    requires formatted == m + t + m && w == Splice(cur, start, end, formatted)
    ensures MdText.ToggleWrap(w, start + |m|, end + |m|, m, m).text == cur
  {
    SpliceParts(cur, start, end, m, t);
    UnwrapSpliced(w, cur, start, end, m, t);
  }

  lemma SpliceParts(cur: string, start: int, end: int, m: string, t: string)
    requires 0 <= start <= end <= |cur|
    ensures Splice(cur, start, end, m + t + m) == cur[..start] + m + t + m + cur[end..]
  {
  }

  lemma UnwrapSpliced(w: string, cur: string, start: int, end: int, m: string, t: string)
    requires 0 <= start <= end <= |cur| && t == cur[start..end]
    requires w == cur[..start] + m + t + m + cur[end..]
    ensures MdText.ToggleWrap(w, start + |m|, end + |m|, m, m).text == cur
  {
    var x, y := cur[..start], cur[end..];
    assert x + t + y == cur by { CutThree(cur, start, end); }
    MdText.UnwrapParts(w, start + |m|, end + |m|, x, m, t, m, y);
  }
}
