/**
 * The simpler textarea Markdown editor: inline wrapping of the textarea selection (with a
 * placeholder word for an empty one), prefixing of every line the selection touches, and the
 * edit/preview switch.
 */
module MarkdownEditable {
  import opened JsString
  import opened JsArray
  import MdText

  /** The word inserted between the markers when nothing is selected. */
  const Placeholder: string := "text"

  /** What ends up between the markers: the selected text, or the placeholder when it is empty. */
  function Wrapped(value: string, start: int, end: int): (r: string)
    ensures |r| > 0
    ensures 0 <= start < end <= |value| ==> r == value[start..end]
    ensures 0 <= start <= end <= |value| && start == end ==> r == Placeholder
  {
    var sel := Slice(value, start, end);
    if |sel| == 0 then Placeholder else sel
  }

  /**
   * `wrap(before, after)`: the text with the markers put around the selection, and the selection to
   * restore, which covers exactly the wrapped text.
   */
  function Wrap(value: string, start: int, end: int, before: string, after: string): (r: MdText.Edit)
    ensures 0 <= start <= end <= |value| ==>
      r.text == value[..start] + before + Wrapped(value, start, end) + after + value[end..]
    ensures 0 <= start <= end <= |value| ==>
      0 <= r.ns <= r.ne <= |r.text| && r.text[r.ns..r.ne] == Wrapped(value, start, end)
  {
    var sel := Wrapped(value, start, end);
    var s := start + |before|;
    MdText.Edit(Slice(value, 0, start) + before + sel + after + SliceFrom(value, end), s, s + |sel|)
  }

  /** With an empty selection the markers go around the placeholder, at the caret. */
  lemma WrapEmptySelection(value: string, at: int, before: string, after: string)
    requires 0 <= at <= |value|
    ensures Wrap(value, at, at, before, after).text == value[..at] + before + "text" + after + value[at..]
  {
  }

  /**
   * On a non-empty selection the shared toggle, applied to what `wrap` produced, takes the markers
   * off again and gives back the original text and selection.
   */
  lemma WrapUndoneByToggle(value: string, start: int, end: int, before: string, after: string)
    requires 0 <= start < end <= |value|
    ensures MdText.Retoggle(Wrap(value, start, end, before, after), before, after)
      == MdText.Edit(value, start, end)
  {
    var w := Wrap(value, start, end, before, after);
    var x, t, y := value[..start], value[start..end], value[end..];
    MdText.UnwrapParts(w.text, w.ns, w.ne, x, before, t, after, y);
    CutThree(value, start, end);
  }

  /** Where line `k` of `lines` starts in their `\n`-join: each earlier line and its newline. */
  function LineOffset(lines: seq<string>, k: nat): (r: nat)
    requires k <= |lines|
    ensures k > 0 ==> r >= k
  {
    if k == 0 then 0 else LineOffset(lines, k - 1) + |lines[k - 1]| + 1
  }

  /** Line `k` overlaps the selection `[start, end]`, end points included. */
  predicate Touches(lines: seq<string>, k: nat, start: int, end: int)
    requires k < |lines|
  {
    !(LineOffset(lines, k) + |lines[k]| < start || LineOffset(lines, k) > end)
  }

  /** The result for one line: touched lines that lack the prefix get it; every other line stays. */
  function PrefixedLine(lines: seq<string>, k: nat, start: int, end: int, prefix: string): string
    requires k < |lines|
  {
    if !Touches(lines, k, start, end) then lines[k]
    else if StartsWith(lines[k], prefix) then lines[k]
    else prefix + lines[k]
  }

  /** All lines, each with its result. */
  function PrefixedLines(lines: seq<string>, start: int, end: int, prefix: string): (r: seq<string>)
    ensures |r| == |lines|
    ensures forall k :: 0 <= k < |lines| && !Touches(lines, k, start, end) ==> r[k] == lines[k]
    ensures forall k :: 0 <= k < |lines| && StartsWith(lines[k], prefix) ==> r[k] == lines[k]
    ensures forall k :: 0 <= k < |lines| && Touches(lines, k, start, end) ==>
      StartsWith(r[k], prefix) && (r[k] == lines[k] || r[k] == prefix + lines[k])
  {
    var r := seq(|lines|, k requires 0 <= k < |lines| => PrefixedLine(lines, k, start, end, prefix));
    assert forall k :: 0 <= k < |lines| && Touches(lines, k, start, end) && !StartsWith(lines[k], prefix) ==>
      StartsWith(r[k], prefix) by {
      forall k | 0 <= k < |lines| && Touches(lines, k, start, end) && !StartsWith(lines[k], prefix)
        ensures StartsWith(r[k], prefix)
      {
        assert r[k] == prefix + lines[k];
        assert r[k][..|prefix|] == prefix;
      }
    }
    r
  }

  /** The text `prefixLines(prefix)` hands to `onChange`. */
  function PrefixLinesText(value: string, start: int, end: int, prefix: string): string
  {
    Join(PrefixedLines(Split(value, '\n'), start, end, prefix), '\n')
  }

  /** `prefixLines`: walk the lines with a running offset and prefix those the selection touches. */
  method PrefixLines(value: string, start: int, end: int, prefix: string) returns (out: string)
    ensures out == PrefixLinesText(value, start, end, prefix)
  {
    var lines := Split(value, '\n');
    var outLines: seq<string> := [];
    var pos := 0;
    var i := 0;
    while i < |lines|
      invariant 0 <= i <= |lines|
      invariant pos == LineOffset(lines, i)
      invariant |outLines| == i
      invariant forall k :: 0 <= k < i ==> outLines[k] == PrefixedLine(lines, k, start, end, prefix)
    {
      var line := lines[i];
      var s, e := pos, pos + |line|;
      pos := pos + |line| + 1;
      if e < start || s > end {
        outLines := outLines + [line];
      } else if StartsWith(line, prefix) {
        outLines := outLines + [line];
      } else {
        outLines := outLines + [prefix + line];
      }
      i := i + 1;
    }
    assert outLines == PrefixedLines(lines, start, end, prefix);
    out := Join(outLines, '\n');
  }

  lemma {:induction false} OffsetOfTail(lines: seq<string>, k: nat)
    requires 1 <= k <= |lines|
    ensures LineOffset(lines, k) == |lines[0]| + 1 + LineOffset(lines[1..], k - 1)
  {
    if k > 1 {
      OffsetOfTail(lines, k - 1);
      assert lines[1..][k - 2] == lines[k - 1];
    }
  }

  lemma SliceAfter(a: string, b: string, i: int, j: int)
    requires 0 <= i <= j <= |b|
    ensures (a + b)[|a| + i..|a| + j] == b[i..j]
  {
    assert forall n :: 0 <= n < j - i ==> (a + b)[|a| + i..|a| + j][n] == b[i..j][n];
  }

  /** Line `k` sits in the joined text at its offset. */
  lemma {:induction false} LineAtOffset(lines: seq<string>, k: nat)
    requires k < |lines|
    ensures LineOffset(lines, k) + |lines[k]| <= |Join(lines, '\n')|
    ensures Join(lines, '\n')[LineOffset(lines, k)..LineOffset(lines, k) + |lines[k]|] == lines[k]
  {
    if |lines| == 1 {
    } else {
      var t := Join(lines[1..], '\n');
      assert Join(lines, '\n') == lines[0] + ['\n'] + t;
      if k == 0 {
        assert (lines[0] + ['\n'] + t)[..|lines[0]|] == lines[0];
      } else {
        LineAtOffset(lines[1..], k - 1);
        OffsetOfTail(lines, k);
        assert lines[1..][k - 1] == lines[k];
        var o := LineOffset(lines[1..], k - 1);
        var head := lines[0] + ['\n'];
        assert Join(lines, '\n') == head + t;
        SliceAfter(head, t, o, o + |lines[k]|);
      }
    }
  }

  /**
   * The offsets the running counter produces are real positions: line `k` of the text occupies
   * `[LineOffset(k), LineOffset(k) + |line|)`, so "touches the selection" is about the text itself.
   */
  lemma LineOffsetsArePositions(value: string, k: nat)
    requires k < |Split(value, '\n')|
    ensures LineOffset(Split(value, '\n'), k) + |Split(value, '\n')[k]| <= |value|
    ensures var lines := Split(value, '\n');
      value[LineOffset(lines, k)..LineOffset(lines, k) + |lines[k]|] == lines[k]
  {
    JoinSplit(value, '\n');
    LineAtOffset(Split(value, '\n'), k);
  }

  /**
   * The output has exactly as many lines as the input, and those lines are the per-line results,
   * for a prefix without a newline.
   */
  lemma PrefixLinesKeepsLines(value: string, start: int, end: int, prefix: string)
    requires Free(prefix, '\n')
    ensures Split(PrefixLinesText(value, start, end, prefix), '\n')
      == PrefixedLines(Split(value, '\n'), start, end, prefix)
    ensures |Split(PrefixLinesText(value, start, end, prefix), '\n')| == |Split(value, '\n')|
  {
    var lines := Split(value, '\n');
    var r := PrefixedLines(lines, start, end, prefix);
    forall k | 0 <= k < |r| ensures Free(r[k], '\n') {
      assert Free(lines[k], '\n');
      if r[k] != lines[k] {
        assert r[k] == prefix + lines[k];
        forall j | 0 <= j < |r[k]| ensures r[k][j] != '\n' {
          if j < |prefix| { assert r[k][j] == prefix[j]; } else { assert r[k][j] == lines[k][j - |prefix|]; }
        }
      }
    }
    SplitJoin(r, '\n');
  }

  /** The editor shows either the textarea or the rendered preview. */
  datatype Mode = Editing | Previewing

  /** The mode button: edit switches to preview and preview back to edit. */
  function ToggleMode(m: Mode): (r: Mode)
    ensures r != m
    ensures r.Editing? <==> m.Previewing?
  {
    if m == Editing then Previewing else Editing
  }

  /** Pressing the mode button twice returns to the mode it started from. */
  lemma ToggleModeTwice(m: Mode)
    ensures ToggleMode(ToggleMode(m)) == m
  {
  }
}
