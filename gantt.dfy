/**
 * The chart data of components/mars/gantt-chart.tsx and the edits the chart makes to it: the
 * top-level row helpers, the in-component bar, milestone and row operations, the label editors,
 * the prompt-driven editors and the drag arithmetic. Every edit is a function from the chart the
 * component was given to the chart it hands to `onChange`; `None` means `onChange` is not called.
 */
module Gantt {
  import opened Wrappers
  import opened JsString
  import opened JsArray

  datatype Status = Green | Yellow | Red

  /**
   * A bar: its row, its first and last column and its caption. `finish` is the field the chart
   * calls `end` and `caption` the one it calls `label` (both reserved words here); `text` is the
   * optional copy of the caption that the inline editors write beside `label`.
   */
  datatype Bar = Bar(row: int, start: int, finish: int, caption: string, text: Option<string>, status: Status)

  /** A milestone sits on a row, or above all rows when `row` is null (`None`); `caption` as for bars. */
  datatype Milestone = Milestone(row: Option<int>, at: int, caption: string, text: Option<string>)

  /** A column heading: a plain string, or a `{ top, bottom }` pair. */
  datatype Label = Tick(text: string) | TwoLine(top: string, bottom: string)

  datatype GanttData = GanttData(
    labels: seq<Label>, rows: seq<string>, bars: seq<Bar>, milestones: seq<Milestone>, nowCol: int)

  /** A bar lies on an existing row and spans existing columns, left to right. */
  predicate BarFits(rows: nat, cols: nat, b: Bar)
  {
    0 <= b.row < rows && 0 <= b.start <= b.finish < cols
  }

  /** A milestone is on an existing row (or on none) and at an existing column. */
  predicate MilestoneFits(rows: nat, cols: nat, m: Milestone)
  {
    (m.row.Some? ==> 0 <= m.row.value < rows) && 0 <= m.at < cols
  }

  /** Every bar and milestone refers to an existing row and column; so does the "now" line. */
  predicate Valid(g: GanttData)
  {
    (forall k :: 0 <= k < |g.bars| ==> BarFits(|g.rows|, |g.labels|, g.bars[k]))
    && (forall k :: 0 <= k < |g.milestones| ==> MilestoneFits(|g.rows|, |g.labels|, g.milestones[k]))
    && 0 <= g.nowCol < |g.labels|
  }

  // ---------------------------------------------------------------------------------------------
  // Row names

  /** `${base} ${i}`. */
  function Numbered(base: string, i: int): string
  {
    base + " " + IntToString(i)
  }

  lemma NumberedInjective(base: string, i: int, j: int)
    requires Numbered(base, i) == Numbered(base, j)
    ensures i == j
  {
    var n := |base| + 1;
    assert Numbered(base, i)[n..] == IntToString(i);
    assert Numbered(base, j)[n..] == IntToString(j);
    IntToStringInjective(i, j);
  }

  /** The names `Numbered(base, j)` for `lo <= j < hi`. */
  function NamesBetween(base: string, lo: int, hi: int): (r: set<string>)
    ensures forall j :: lo <= j < hi ==> Numbered(base, j) in r
    ensures forall x :: x in r ==> exists j :: lo <= j < hi && x == Numbered(base, j)
    decreases hi - lo
  {
    if hi <= lo then {} else NamesBetween(base, lo, hi - 1) + {Numbered(base, hi - 1)}
  }

  lemma NamesBetweenOnly(base: string, lo: int, hi: int, j: int)
    requires Numbered(base, j) in NamesBetween(base, lo, hi)
    ensures lo <= j < hi
  {
    var k :| lo <= k < hi && Numbered(base, j) == Numbered(base, k);
    NumberedInjective(base, j, k);
  }

  lemma {:induction false} NamesBetweenSize(base: string, lo: int, hi: int)
    requires lo <= hi
    ensures |NamesBetween(base, lo, hi)| == hi - lo
    decreases hi - lo
  {
    if hi > lo {
      NamesBetweenSize(base, lo, hi - 1);
      if Numbered(base, hi - 1) in NamesBetween(base, lo, hi - 1) {
        NamesBetweenOnly(base, lo, hi - 1, hi - 1);
      }
    }
  }

  lemma {:induction false} SubsetSize<T>(a: set<T>, b: set<T>)
    requires a <= b
    ensures |a| <= |b|
    decreases |a|
  {
    if a != {} {
      var x :| x in a;
      SubsetSize(a - {x}, b - {x});
    }
  }

  /**
   * `name` is the first of `Numbered(base, first)`, `Numbered(base, first + 1)`, … that is not
   * among the rows: a loop `while (used.has(name)) { i += 1; name = … }` started at `first`.
   */
  ghost predicate FreshNumbered(rows: seq<string>, base: string, first: int, name: string)
  {
    name !in rows
    && exists i :: i >= first && name == Numbered(base, i)
                   && forall j :: first <= j < i ==> Numbered(base, j) in rows
  }

  /** The first free number is unique: the loop's result is determined by the rows. */
  lemma FreshNumberedUnique(rows: seq<string>, base: string, first: int, a: string, b: string)
    requires FreshNumbered(rows, base, first, a) && FreshNumbered(rows, base, first, b)
    ensures a == b
  {
    var i :| i >= first && a == Numbered(base, i)
             && forall j :: first <= j < i ==> Numbered(base, j) in rows;
    var k :| k >= first && b == Numbered(base, k)
             && forall j :: first <= j < k ==> Numbered(base, j) in rows;
  }

  /** The counting loop shared by `addRow`, `addRowAbove` and `addRowBelow`. */
  method FirstFreeNumbered(rows: seq<string>, base: string, first: int) returns (name: string)
    ensures FreshNumbered(rows, base, first, name)
  {
    var used := set r | r in rows;
    var i := first;
    name := Numbered(base, i);
    while name in used
      invariant i >= first && name == Numbered(base, i)
      invariant forall j :: first <= j < i ==> Numbered(base, j) in used
      decreases |used| - (i - first)
    {
      assert NamesBetween(base, first, i + 1) <= used by {
        forall x | x in NamesBetween(base, first, i + 1) ensures x in used {
          var j :| first <= j < i + 1 && x == Numbered(base, j);
        }
      }
      NamesBetweenSize(base, first, i + 1);
      SubsetSize(NamesBetween(base, first, i + 1), used);
      i := i + 1;
      name := Numbered(base, i);
    }
  }
  // ---------------------------------------------------------------------------------------------
  // Top-level helpers

  /**
   * `updateRowTitle`: `rows[idx] = text` on a copy, with no range check. A negative index names a
   * property rather than an element, so the rows stay as they were; `idx == rows.length` appends.
   */
  function UpdateRowTitle(g: GanttData, idx: int, text: string): (r: GanttData)
    requires idx <= |g.rows|
    ensures r == g.(rows := r.rows)
    ensures |r.rows| == if idx == |g.rows| then |g.rows| + 1 else |g.rows|
    ensures forall k :: 0 <= k < |r.rows| ==> r.rows[k] == if k == idx then text else g.rows[k]
    ensures Valid(g) ==> Valid(r)
  {
    if idx < 0 then g
    else if idx == |g.rows| then g.(rows := g.rows + [text])
    else g.(rows := g.rows[idx := text])
  }

  /** (label, text) := (t, t): what every inline editor does to a bar it renames. */
  function RetitleBar(b: Bar, t: string): Bar
  {
    b.(caption := t, text := Some(t))
  }

  function RetitleMilestone(m: Milestone, t: string): Milestone
  {
    m.(caption := t, text := Some(t))
  }

  /** `updateBarText`: no `onChange` when there is no bar at `idx`; otherwise it is retitled. */
  function UpdateBarText(g: GanttData, idx: int, text: string): (r: Option<GanttData>)
    ensures r.Some? <==> 0 <= idx < |g.bars|
    ensures r.Some? ==> r.value == g.(bars := r.value.bars) && |r.value.bars| == |g.bars|
    ensures r.Some? ==> forall k :: 0 <= k < |g.bars| ==>
      r.value.bars[k] == if k == idx then RetitleBar(g.bars[k], text) else g.bars[k]
    ensures r.Some? && Valid(g) ==> Valid(r.value)
  {
    if 0 <= idx < |g.bars| then Some(g.(bars := g.bars[idx := RetitleBar(g.bars[idx], text)]))
    else None
  }

  /** `updateMsText`: the same for milestones. */
  function UpdateMsText(g: GanttData, idx: int, text: string): (r: Option<GanttData>)
    ensures r.Some? <==> 0 <= idx < |g.milestones|
    ensures r.Some? ==> r.value == g.(milestones := r.value.milestones)
    ensures r.Some? ==> |r.value.milestones| == |g.milestones|
    ensures r.Some? ==> forall k :: 0 <= k < |g.milestones| ==>
      r.value.milestones[k] == if k == idx then RetitleMilestone(g.milestones[k], text) else g.milestones[k]
    ensures r.Some? && Valid(g) ==> Valid(r.value)
  {
    if 0 <= idx < |g.milestones| then
      Some(g.(milestones := g.milestones[idx := RetitleMilestone(g.milestones[idx], text)]))
    else None
  }

  /** The top-level `addRow` helper: appends `Row <length + 1>` without looking at the names in use. */
  function AppendRow(g: GanttData): (r: GanttData)
    ensures r == g.(rows := r.rows)
    ensures |r.rows| == |g.rows| + 1 && r.rows[..|g.rows|] == g.rows
    ensures r.rows[|g.rows|] == Numbered("Row", |g.rows| + 1)
    ensures Valid(g) ==> Valid(r)
  {
    g.(rows := g.rows + [Numbered("Row", |g.rows| + 1)])
  }

  /** Unlike the in-component `addRow`, the helper can repeat a name already in use. */
  lemma AppendRowMayRepeat(g: GanttData)
    requires g.rows == ["Row 2"]
    ensures AppendRow(g).rows == ["Row 2", "Row 2"]
  {
    assert IntToString(2) == NatToString(2) == [DigitChar(2)] == "2";
    assert Numbered("Row", |g.rows| + 1) == "Row 2";
  }

  /** `removeRowAt`: no `onChange` out of range; otherwise drops the row and leaves bars alone. */
  function RemoveRowAt(g: GanttData, idx: int): (r: Option<GanttData>)
    ensures r.Some? <==> 0 <= idx < |g.rows|
    ensures r.Some? ==> r.value == g.(rows := r.value.rows) && |r.value.rows| == |g.rows| - 1
    ensures r.Some? ==> forall k :: 0 <= k < |r.value.rows| ==>
      r.value.rows[k] == if k < idx then g.rows[k] else g.rows[k + 1]
  {
    if 0 <= idx < |g.rows| then Some(g.(rows := Without(g.rows, idx))) else None
  }

  /** The name `addRowWithDefaults` settles on: `New Row`, else the first free `New Row <i>`, i >= 2. */
  ghost predicate DefaultRowName(rows: seq<string>, name: string)
  {
    if "New Row" !in rows then name == "New Row" else FreshNumbered(rows, "New Row", 2, name)
  }

  /** While the default loop runs, the `i` names tried so far are `i` distinct members of `used`. */
  lemma DefaultNamesTried(used: set<string>, i: int)
    requires i >= 1 && "New Row" in used
    requires forall j :: 2 <= j < i + 1 ==> Numbered("New Row", j) in used
    ensures i <= |used|
  {
    var numbered := NamesBetween("New Row", 2, i + 1);
    assert numbered <= used by {
      forall x | x in numbered ensures x in used {
        var j :| 2 <= j < i + 1 && x == Numbered("New Row", j);
      }
    }
    NamesBetweenSize("New Row", 2, i + 1);
    assert "New Row" !in numbered by {
      forall j | 2 <= j < i + 1 ensures Numbered("New Row", j) != "New Row" {
        assert |Numbered("New Row", j)| > |"New Row"|;
      }
    }
    SubsetSize({"New Row"} + numbered, used);
  }

  /** `addRowWithDefaults`: appends the first free default name. */
  method AddRowWithDefaults(g: GanttData) returns (r: GanttData)
    ensures |r.rows| == |g.rows| + 1 && r == g.(rows := g.rows + [r.rows[|g.rows|]])
    ensures DefaultRowName(g.rows, r.rows[|g.rows|])
    ensures r.rows[|g.rows|] !in g.rows
    ensures Valid(g) ==> Valid(r)
  {
    var used := set x | x in g.rows;
    var name, i := "New Row", 1;
    while name in used
      invariant i >= 1 && name == if i == 1 then "New Row" else Numbered("New Row", i)
      invariant i >= 2 ==> "New Row" in used
      invariant forall j :: 2 <= j < i ==> Numbered("New Row", j) in used
      decreases |used| - i
    {
      DefaultNamesTried(used, i);
      i := i + 1;
      name := Numbered("New Row", i);
    }
    r := g.(rows := g.rows + [name]);
  }

  /** `b.row !== idx` keeps a bar; a kept bar above the removed row moves up one. */
  function LowerBar(b: Bar, idx: int): Bar
  {
    if b.row > idx then b.(row := b.row - 1) else b
  }

  function LowerMilestone(m: Milestone, idx: int): Milestone
  {
    if m.row.Some? && m.row.value > idx then m.(row := Some(m.row.value - 1)) else m
  }

  /** The `filter` and `map` callbacks of the row operations. */
  function BarOff(idx: int): Bar -> bool
  {
    (b: Bar) => b.row != idx
  }

  function BarUp(idx: int): Bar -> Bar
  {
    (b: Bar) => LowerBar(b, idx)
  }

  /** `deleteRow` keeps `ms.row === null || ms.row !== idx`. */
  function MilestoneOff(idx: int): Milestone -> bool
  {
    (m: Milestone) => m.row.None? || m.row.value != idx
  }

  function MilestoneUp(idx: int): Milestone -> Milestone
  {
    (m: Milestone) => LowerMilestone(m, idx)
  }

  /** `removeRowAtIndex` keeps `m.row !== idx`. */
  function MilestoneNotAt(idx: int): Milestone -> bool
  {
    (m: Milestone) => m.row != Some(idx)
  }

  /** `removeRowAtIndex` re-indexes by `m.row > idx`, without a null test. */
  function MilestoneUpLoose(idx: int): Milestone -> Milestone
  {
    (m: Milestone) => if RowNumber(m.row) > idx then m.(row := Some(RowNumber(m.row) - 1)) else m
  }

  /** JavaScript's `null > idx` compares 0 with `idx`. */
  function RowNumber(row: Option<int>): int
  {
    if row.Some? then row.value else 0
  }

  /**
   * `removeRowAtIndex`: no `onChange` out of range. Otherwise the row goes; when there are bars
   * they are filtered and re-indexed by `.row` (every bar of a chart has a `row` field, so the
   * `typeof bars[0].row` test passes whenever there is a first bar), and the same for milestones.
   */
  function RemoveRowAtIndex(g: GanttData, idx: int): (r: Option<GanttData>)
    ensures r.Some? <==> 0 <= idx < |g.rows|
  {
    if !(0 <= idx < |g.rows|) then None
    else
      var rows := g.rows[..idx] + g.rows[idx + 1..];
      var bars :=
        if |g.bars| > 0 then
          Map(Filter(g.bars, BarOff(idx)), BarUp(idx))
        else g.bars;
      var milestones :=
        if |g.milestones| > 0 then
          Map(Filter(g.milestones, MilestoneNotAt(idx)), MilestoneUpLoose(idx))
        else g.milestones;
      Some(g.(rows := rows, bars := bars, milestones := milestones))
  }

  // ---------------------------------------------------------------------------------------------
  // In-component operations

  /** `createBar`: a one-column green "New Task" bar at the given cell, appended. */
  function CreateBar(g: GanttData, rowIdx: int, colIdx: int): (r: GanttData)
    ensures r == g.(bars := r.bars) && |r.bars| == |g.bars| + 1 && r.bars[..|g.bars|] == g.bars
    ensures var b := r.bars[|g.bars|];
      b.row == rowIdx && b.start == colIdx && b.finish == colIdx && b.caption == "New Task"
      && b.text == None && b.status == Green
    ensures Valid(g) && 0 <= rowIdx < |g.rows| && 0 <= colIdx < |g.labels| ==> Valid(r)
  {
    g.(bars := g.bars + [Bar(rowIdx, colIdx, colIdx, "New Task", None, Green)])
  }

  /** `addMilestone`: a "Milestone" at the given column, on the given row or on none, appended. */
  function AddMilestone(g: GanttData, rowIdx: Option<int>, colIdx: int): (r: GanttData)
    ensures r == g.(milestones := r.milestones) && |r.milestones| == |g.milestones| + 1
    ensures r.milestones[..|g.milestones|] == g.milestones
    ensures var m := r.milestones[|g.milestones|];
      m.row == rowIdx && m.at == colIdx && m.caption == "Milestone" && m.text == None
    ensures Valid(g) && MilestoneFits(|g.rows|, |g.labels|, Milestone(rowIdx, colIdx, "", None)) ==> Valid(r)
  {
    g.(milestones := g.milestones + [Milestone(rowIdx, colIdx, "Milestone", None)])
  }

  /** `deleteBar`: `filter((_, i) => i !== idx)`. */
  function DeleteBar(g: GanttData, idx: int): (r: GanttData)
    ensures r == g.(bars := r.bars)
    ensures 0 <= idx < |g.bars| ==> |r.bars| == |g.bars| - 1
    ensures 0 <= idx < |g.bars| ==>
      forall k :: 0 <= k < |r.bars| ==> r.bars[k] == if k < idx then g.bars[k] else g.bars[k + 1]
    ensures !(0 <= idx < |g.bars|) ==> r == g
    ensures Valid(g) ==> Valid(r)
  {
    g.(bars := Without(g.bars, idx))
  }

  /** `deleteMs`: the same for milestones. */
  function DeleteMs(g: GanttData, idx: int): (r: GanttData)
    ensures r == g.(milestones := r.milestones)
    ensures 0 <= idx < |g.milestones| ==> |r.milestones| == |g.milestones| - 1
    ensures 0 <= idx < |g.milestones| ==> forall k :: 0 <= k < |r.milestones| ==>
      r.milestones[k] == if k < idx then g.milestones[k] else g.milestones[k + 1]
    ensures !(0 <= idx < |g.milestones|) ==> r == g
    ensures Valid(g) ==> Valid(r)
  {
    g.(milestones := Without(g.milestones, idx))
  }

  /** Deleting the bar just created gives the chart back. */
  lemma DeleteCreatedBar(g: GanttData, rowIdx: int, colIdx: int)
    ensures DeleteBar(CreateBar(g, rowIdx, colIdx), |g.bars|) == g
  {
    var c := CreateBar(g, rowIdx, colIdx);
    assert c.bars[..|g.bars|] + c.bars[|g.bars| + 1..] == g.bars;
  }

  /** Deleting the milestone just added gives the chart back. */
  lemma DeleteAddedMilestone(g: GanttData, rowIdx: Option<int>, colIdx: int)
    ensures DeleteMs(AddMilestone(g, rowIdx, colIdx), |g.milestones|) == g
  {
    var c := AddMilestone(g, rowIdx, colIdx);
    assert c.milestones[..|g.milestones|] + c.milestones[|g.milestones| + 1..] == g.milestones;
  }

  /** `changeBarStatus`: only that bar's status changes. */
  function ChangeBarStatus(g: GanttData, idx: int, status: Status): (r: GanttData)
    requires 0 <= idx < |g.bars|
    ensures r == g.(bars := r.bars) && |r.bars| == |g.bars|
    ensures forall k :: 0 <= k < |g.bars| ==>
      r.bars[k] == if k == idx then g.bars[k].(status := status) else g.bars[k]
    ensures Valid(g) ==> Valid(r)
  {
    g.(bars := g.bars[idx := g.bars[idx].(status := status)])
  }

  /** `addRow` in the component: appends the first free `Row <i>` with i from `length + 1`. */
  method AddRow(g: GanttData) returns (r: GanttData, name: string)
    ensures FreshNumbered(g.rows, "Row", |g.rows| + 1, name)
    ensures r == g.(rows := g.rows + [name])
    ensures Valid(g) ==> Valid(r)
  {
    name := FirstFreeNumbered(g.rows, "Row", |g.rows| + 1);
    r := g.(rows := g.rows + [name]);
  }

  /** A bar at or below row `from` moves down one. */
  function RaiseBar(b: Bar, from: int): Bar
  {
    if b.row >= from then b.(row := b.row + 1) else b
  }

  function RaiseMilestone(m: Milestone, from: int): Milestone
  {
    if m.row.Some? && m.row.value >= from then m.(row := Some(m.row.value + 1)) else m
  }

  function BarDownFrom(from: int): Bar -> Bar
  {
    (b: Bar) => RaiseBar(b, from)
  }

  function MilestoneDownFrom(from: int): Milestone -> Milestone
  {
    (m: Milestone) => RaiseMilestone(m, from)
  }

  /** `addRowBelow` moves rows `> idx`. */
  function BarDownAfter(idx: int): Bar -> Bar
  {
    (b: Bar) => if b.row > idx then b.(row := b.row + 1) else b
  }

  function MilestoneDownAfter(idx: int): Milestone -> Milestone
  {
    (m: Milestone) => if m.row.Some? && m.row.value > idx then m.(row := Some(m.row.value + 1)) else m
  }

  /** The chart `addRowAbove(idx)` emits for a given new name: `splice(idx, 0, name)`, rows `>= idx` move. */
  function InsertRowAbove(g: GanttData, idx: int, name: string): GanttData
  {
    g.(rows := InsertAt(g.rows, idx, name),
       bars := Map(g.bars, BarDownFrom(idx)),
       milestones := Map(g.milestones, MilestoneDownFrom(idx)))
  }

  /** The chart `addRowBelow(idx)` emits: `splice(idx + 1, 0, name)`, rows `> idx` move. */
  function InsertRowBelow(g: GanttData, idx: int, name: string): GanttData
  {
    g.(rows := InsertAt(g.rows, idx + 1, name),
       bars := Map(g.bars, BarDownAfter(idx)),
       milestones := Map(g.milestones, MilestoneDownAfter(idx)))
  }

  /** `addRowAbove`: the prompt is disabled, so the name is always the first free `Row <i>`, i >= idx + 1. */
  method AddRowAbove(g: GanttData, idx: int) returns (r: GanttData, name: string)
    ensures FreshNumbered(g.rows, "Row", idx + 1, name)
    ensures r == InsertRowAbove(g, idx, name)
  {
    name := FirstFreeNumbered(g.rows, "Row", idx + 1);
    r := InsertRowAbove(g, idx, name);
  }

  /** `addRowBelow`: the first free `Row <i>` with i >= idx + 2. */
  method AddRowBelow(g: GanttData, idx: int) returns (r: GanttData, name: string)
    ensures FreshNumbered(g.rows, "Row", idx + 2, name)
    ensures r == InsertRowBelow(g, idx, name)
  {
    name := FirstFreeNumbered(g.rows, "Row", idx + 2);
    r := InsertRowBelow(g, idx, name);
  }

  /** `deleteRow`: the row, its bars and its milestones go; rows below move up; null rows stay. */
  function DeleteRow(g: GanttData, idx: int): GanttData
  {
    g.(rows := Without(g.rows, idx),
       bars := Map(Filter(g.bars, BarOff(idx)), BarUp(idx)),
       milestones := Map(Filter(g.milestones, MilestoneOff(idx)), MilestoneUp(idx)))
  }

  /**
   * `editRowLabel`: `newRows[idx] = newLabel` on a copy, unchecked like `updateRowTitle`: an index
   * inside the rows overwrites that row, `idx == length` appends, a negative index changes nothing.
   */
  function EditRowLabel(g: GanttData, idx: int, newLabel: string): (r: GanttData)
    requires idx <= |g.rows|
    ensures r == g.(rows := r.rows)
    ensures |r.rows| == if idx == |g.rows| then |g.rows| + 1 else |g.rows|
    ensures forall k :: 0 <= k < |r.rows| ==> r.rows[k] == if k == idx then newLabel else g.rows[k]
    ensures Valid(g) ==> Valid(r)
  {
    UpdateRowTitle(g, idx, newLabel)
  }

  /** `editBarLabel`: only the caption of that bar changes. */
  function EditBarLabel(g: GanttData, idx: int, newLabel: string): (r: GanttData)
    requires 0 <= idx < |g.bars|
    ensures r == g.(bars := r.bars) && |r.bars| == |g.bars|
    ensures forall k :: 0 <= k < |g.bars| ==>
      r.bars[k] == if k == idx then g.bars[k].(caption := newLabel) else g.bars[k]
    ensures Valid(g) ==> Valid(r)
  {
    g.(bars := g.bars[idx := g.bars[idx].(caption := newLabel)])
  }

  /** `editMsLabel`: only the caption of that milestone changes. */
  function EditMsLabel(g: GanttData, idx: int, newLabel: string): (r: GanttData)
    requires 0 <= idx < |g.milestones|
    ensures r == g.(milestones := r.milestones) && |r.milestones| == |g.milestones|
    ensures forall k :: 0 <= k < |g.milestones| ==>
      r.milestones[k] == if k == idx then g.milestones[k].(caption := newLabel) else g.milestones[k]
    ensures Valid(g) ==> Valid(r)
  {
    g.(milestones := g.milestones[idx := g.milestones[idx].(caption := newLabel)])
  }

  /** `editTickLabel`: the heading at `idx` becomes the plain string `newLabel`. */
  function EditTickLabel(g: GanttData, idx: int, newLabel: string): (r: GanttData)
    requires 0 <= idx < |g.labels|
    ensures r == g.(labels := r.labels) && |r.labels| == |g.labels|
    ensures forall k :: 0 <= k < |g.labels| ==> r.labels[k] == if k == idx then Tick(newLabel) else g.labels[k]
    ensures Valid(g) ==> Valid(r)
  {
    g.(labels := g.labels[idx := Tick(newLabel)])
  }

  // ---------------------------------------------------------------------------------------------
  // Prompt-driven editors; `reply` is what the prompt returned (`None` when cancelled or unavailable)

  /** `editRowTitle`: nothing when cancelled; otherwise `rows[idx] = reply` with no range check. */
  function EditRowTitle(g: GanttData, idx: int, reply: Option<string>): (r: Option<GanttData>)
    requires idx <= |g.rows|
    ensures r.Some? <==> reply.Some?
    ensures r.Some? ==> r.value == UpdateRowTitle(g, idx, reply.value)
  {
    if reply.None? then None else Some(UpdateRowTitle(g, idx, reply.value))
  }

  /** `editBarText`: nothing without a bar at `idx` or when cancelled; otherwise the bar is retitled. */
  function EditBarText(g: GanttData, idx: int, reply: Option<string>): (r: Option<GanttData>)
    ensures r.Some? <==> 0 <= idx < |g.bars| && reply.Some?
    ensures r.Some? ==> r == UpdateBarText(g, idx, reply.value)
  {
    if !(0 <= idx < |g.bars|) || reply.None? then None
    else Some(g.(bars := g.bars[idx := RetitleBar(g.bars[idx], reply.value)]))
  }

  /** `editMsText`: the same for milestones. */
  function EditMsText(g: GanttData, idx: int, reply: Option<string>): (r: Option<GanttData>)
    ensures r.Some? <==> 0 <= idx < |g.milestones| && reply.Some?
    ensures r.Some? ==> r == UpdateMsText(g, idx, reply.value)
  {
    if !(0 <= idx < |g.milestones|) || reply.None? then None
    else Some(g.(milestones := g.milestones[idx := RetitleMilestone(g.milestones[idx], reply.value)]))
  }

  // ---------------------------------------------------------------------------------------------
  // Dragging; the column under the pointer is an input

  datatype Drag = MoveBar(idx: int) | ResizeBar(idx: int, left: bool) | MoveMilestone(idx: int) | MoveNow

  /** `Math.max(0, Math.min(n - 1, col))`. */
  function ClampCol(n: int, col: int): (c: int)
    ensures n >= 1 ==> 0 <= c < n
    ensures 0 <= col < n ==> c == col
    ensures c >= 0
  {
    var m := if n - 1 < col then n - 1 else col;
    if m < 0 then 0 else m
  }

  /** A milestone drag needs the milestone it started on. */
  predicate DragOn(g: GanttData, d: Drag)
  {
    d.MoveMilestone? ==> 0 <= d.idx < |g.milestones|
  }

  /** Whether the bar a bar drag names exists. */
  predicate BarDragOn(g: GanttData, d: Drag)
  {
    (d.MoveBar? || d.ResizeBar?) && 0 <= d.idx < |g.bars|
  }

  /**
   * One pointer move during a drag, with the pointer over column `col`: a moved bar keeps its
   * width as far as the last column allows, a resize moves one end without passing the other,
   * a milestone or the "now" line goes to the clamped column. A bar drag whose bar is gone reads
   * a property of `undefined`, which throws before anything is written, so nothing changes.
   */
  function DragTo(g: GanttData, d: Drag, col: int): (r: GanttData)
    requires DragOn(g, d)
    ensures r.rows == g.rows && r.labels == g.labels
    ensures |r.bars| == |g.bars| && |r.milestones| == |g.milestones|
    ensures forall k :: 0 <= k < |g.bars| && !BarDragOn(g, d) ==> r.bars[k] == g.bars[k]
    ensures forall k :: 0 <= k < |g.bars| && BarDragOn(g, d) && k != d.idx ==> r.bars[k] == g.bars[k]
    ensures forall k :: 0 <= k < |g.milestones| && !(d.MoveMilestone? && k == d.idx) ==>
      r.milestones[k] == g.milestones[k]
    ensures !d.MoveNow? ==> r.nowCol == g.nowCol
    ensures (d.MoveBar? || d.ResizeBar?) && !BarDragOn(g, d) ==> r == g
    ensures d.MoveBar? && BarDragOn(g, d) ==>
      var b, c := g.bars[d.idx], ClampCol(|g.labels|, col);
      r.bars[d.idx] == b.(start := c, finish := if |g.labels| - 1 < c + (b.finish - b.start) then |g.labels| - 1 else c + (b.finish - b.start))
    ensures d.ResizeBar? && BarDragOn(g, d) && d.left ==>
      var b, c := g.bars[d.idx], ClampCol(|g.labels|, col);
      r.bars[d.idx] == b.(start := if c < b.finish then c else b.finish)
    ensures d.ResizeBar? && BarDragOn(g, d) && !d.left ==>
      var b, c := g.bars[d.idx], ClampCol(|g.labels|, col);
      r.bars[d.idx] == b.(finish := if c > b.start then c else b.start)
    ensures d.MoveMilestone? ==> r.milestones[d.idx] == g.milestones[d.idx].(at := ClampCol(|g.labels|, col))
    ensures d.MoveNow? ==> r.nowCol == ClampCol(|g.labels|, col) && r == g.(nowCol := r.nowCol)
  {
    var n := |g.labels|;
    var c := ClampCol(n, col);
    match d
    case MoveBar(i) =>
      if !(0 <= i < |g.bars|) then g
      else
        var b := g.bars[i];
        var width := b.finish - b.start;
        var newEnd := if n - 1 < c + width then n - 1 else c + width;
        g.(bars := g.bars[i := b.(start := c, finish := newEnd)])
    case ResizeBar(i, left) =>
      if !(0 <= i < |g.bars|) then g
      else
        var b := g.bars[i];
        if left then g.(bars := g.bars[i := b.(start := if c < b.finish then c else b.finish)])
        else g.(bars := g.bars[i := b.(finish := if c > b.start then c else b.start)])
    case MoveMilestone(i) =>
      g.(milestones := g.milestones[i := g.milestones[i].(at := c)])
    case MoveNow =>
      g.(nowCol := c)
  }
  // ---------------------------------------------------------------------------------------------
  // What the row operations preserve

  /**
   * Adding a row above `idx` puts the new name at `idx` and keeps every bar and milestone on the
   * row of the same name as before, changing nothing else about it.
   */
  lemma InsertRowAboveKeepsNames(g: GanttData, idx: int, name: string)
    requires Valid(g) && 0 <= idx <= |g.rows|
    ensures var r := InsertRowAbove(g, idx, name);
      Valid(r) && |r.rows| == |g.rows| + 1 && r.rows[idx] == name
      && |r.bars| == |g.bars| && |r.milestones| == |g.milestones|
      && (forall k :: 0 <= k < |g.bars| ==>
            r.bars[k] == g.bars[k].(row := r.bars[k].row)
            && r.rows[r.bars[k].row] == g.rows[g.bars[k].row])
      && (forall k :: 0 <= k < |g.milestones| && g.milestones[k].row.None? ==>
            r.milestones[k] == g.milestones[k])
      && (forall k :: 0 <= k < |g.milestones| && g.milestones[k].row.Some? ==>
            r.milestones[k] == g.milestones[k].(row := r.milestones[k].row)
            && r.milestones[k].row.Some?
            && r.rows[r.milestones[k].row.value] == g.rows[g.milestones[k].row.value])
  {
    var r := InsertRowAbove(g, idx, name);
    forall k | 0 <= k < |g.bars|
      ensures BarFits(|r.rows|, |r.labels|, r.bars[k])
      ensures r.rows[r.bars[k].row] == g.rows[g.bars[k].row]
    {
      assert BarFits(|g.rows|, |g.labels|, g.bars[k]);
    }
    forall k | 0 <= k < |g.milestones| && g.milestones[k].row.Some?
      ensures r.rows[r.milestones[k].row.value] == g.rows[g.milestones[k].row.value]
    {
      assert MilestoneFits(|g.rows|, |g.labels|, g.milestones[k]);
    }
  }

  /** `addRowBelow(idx)` is `addRowAbove(idx + 1)`, apart from the name it suggests. */
  lemma InsertRowBelowIsAbove(g: GanttData, idx: int, name: string)
    ensures InsertRowBelow(g, idx, name) == InsertRowAbove(g, idx + 1, name)
  {
  }

  lemma LowerRaisedBars(bars: seq<Bar>, idx: int)
    ensures Map(Filter(Map(bars, BarDownFrom(idx)), BarOff(idx)), BarUp(idx)) == bars
  {
    RaisedBarsKept(bars, idx);
    MapUndone(bars, BarDownFrom(idx), BarUp(idx));
  }

  /** After rows from `idx` move down, no bar is on row `idx`. */
  lemma RaisedBarsKept(bars: seq<Bar>, idx: int)
    ensures Filter(Map(bars, BarDownFrom(idx)), BarOff(idx)) == Map(bars, BarDownFrom(idx))
  {
    FilterAll(Map(bars, BarDownFrom(idx)), BarOff(idx));
  }

  lemma LowerRaisedMilestones(ms: seq<Milestone>, idx: int)
    ensures Map(Filter(Map(ms, MilestoneDownFrom(idx)), MilestoneOff(idx)), MilestoneUp(idx)) == ms
  {
    RaisedMilestonesKept(ms, idx);
    MapUndone(ms, MilestoneDownFrom(idx), MilestoneUp(idx));
  }

  /** After rows from `idx` move down, no milestone is on row `idx`. */
  lemma RaisedMilestonesKept(ms: seq<Milestone>, idx: int)
    ensures Filter(Map(ms, MilestoneDownFrom(idx)), MilestoneOff(idx)) == Map(ms, MilestoneDownFrom(idx))
  {
    FilterAll(Map(ms, MilestoneDownFrom(idx)), MilestoneOff(idx));
  }

  /** Deleting the row just added above `idx` gives the chart back. */
  lemma DeleteInsertedRow(g: GanttData, idx: int, name: string)
    requires 0 <= idx <= |g.rows|
    ensures DeleteRow(InsertRowAbove(g, idx, name), idx) == g
  {
    var r := InsertRowAbove(g, idx, name);
    WithoutInsertAt(g.rows, idx, name);
    LowerRaisedBars(g.bars, idx);
    LowerRaisedMilestones(g.milestones, idx);
  }

  /** Deleting the row just added below `idx` gives the chart back. */
  lemma DeleteInsertedRowBelow(g: GanttData, idx: int, name: string)
    requires 0 <= idx + 1 <= |g.rows|
    ensures DeleteRow(InsertRowBelow(g, idx, name), idx + 1) == g
  {
    InsertRowBelowIsAbove(g, idx, name);
    DeleteInsertedRow(g, idx + 1, name);
  }

  /** After `deleteRow`, every bar is on an existing row and within the columns. */
  lemma DeleteRowBarsFit(g: GanttData, idx: int)
    requires Valid(g) && 0 <= idx < |g.rows|
    ensures var r := DeleteRow(g, idx);
      forall k :: 0 <= k < |r.bars| ==> BarFits(|r.rows|, |r.labels|, r.bars[k])
  {
    var r := DeleteRow(g, idx);
    var kept := Filter(g.bars, BarOff(idx));
    forall k | 0 <= k < |r.bars| ensures BarFits(|r.rows|, |r.labels|, r.bars[k]) {
      assert kept[k] in g.bars;
      var j :| 0 <= j < |g.bars| && g.bars[j] == kept[k];
      assert BarFits(|g.rows|, |g.labels|, g.bars[j]);
    }
  }

  /** `deleteRow` keeps exactly the bars that are not on the row, each moved by `LowerBar`. */
  lemma DeleteRowBarsKept(g: GanttData, idx: int)
    ensures var r := DeleteRow(g, idx);
      (forall b :: b in g.bars && b.row != idx ==> LowerBar(b, idx) in r.bars)
      && (forall b :: b in r.bars ==> exists b0 :: b0 in g.bars && b0.row != idx && b == LowerBar(b0, idx))
  {
    var r := DeleteRow(g, idx);
    var kept := Filter(g.bars, BarOff(idx));
    forall b | b in g.bars && b.row != idx ensures LowerBar(b, idx) in r.bars {
      assert b in kept;
      var k :| 0 <= k < |kept| && kept[k] == b;
      assert r.bars[k] == LowerBar(b, idx);
    }
    forall b | b in r.bars
      ensures exists b0 :: b0 in g.bars && b0.row != idx && b == LowerBar(b0, idx)
    {
      var k :| 0 <= k < |r.bars| && r.bars[k] == b;
      assert kept[k] in kept;
    }
  }

  /** A row that survives `deleteRow` keeps its name at its new index. */
  lemma DeleteRowNames(g: GanttData, idx: int, j: int)
    requires 0 <= idx < |g.rows| && 0 <= j < |g.rows| && j != idx
    ensures var r := DeleteRow(g, idx);
      var j' := if j > idx then j - 1 else j;
      0 <= j' < |r.rows| && r.rows[j'] == g.rows[j]
  {
  }

  /** `deleteRow` keeps every bar that is not on the row on the row of the same name. */
  lemma DeleteRowBarNames(g: GanttData, idx: int)
    requires Valid(g) && 0 <= idx < |g.rows|
    ensures var r := DeleteRow(g, idx);
      forall k :: 0 <= k < |g.bars| && g.bars[k].row != idx ==>
        0 <= LowerBar(g.bars[k], idx).row < |r.rows|
        && r.rows[LowerBar(g.bars[k], idx).row] == g.rows[g.bars[k].row]
  {
    forall k | 0 <= k < |g.bars| && g.bars[k].row != idx
      ensures 0 <= LowerBar(g.bars[k], idx).row < |DeleteRow(g, idx).rows|
      ensures DeleteRow(g, idx).rows[LowerBar(g.bars[k], idx).row] == g.rows[g.bars[k].row]
    {
      assert BarFits(|g.rows|, |g.labels|, g.bars[k]);
      DeleteRowNames(g, idx, g.bars[k].row);
    }
  }

  /** After `deleteRow`, every milestone is on an existing row or none, and within the columns. */
  lemma DeleteRowMilestonesFit(g: GanttData, idx: int)
    requires Valid(g) && 0 <= idx < |g.rows|
    ensures var r := DeleteRow(g, idx);
      forall k :: 0 <= k < |r.milestones| ==> MilestoneFits(|r.rows|, |r.labels|, r.milestones[k])
  {
    var r := DeleteRow(g, idx);
    var kept := Filter(g.milestones, MilestoneOff(idx));
    forall k | 0 <= k < |r.milestones| ensures MilestoneFits(|r.rows|, |r.labels|, r.milestones[k]) {
      assert kept[k] in g.milestones;
      var j :| 0 <= j < |g.milestones| && g.milestones[j] == kept[k];
      assert MilestoneFits(|g.rows|, |g.labels|, g.milestones[j]);
    }
  }

  /**
   * `deleteRow` keeps exactly the milestones that are not on the row, each moved by
   * `LowerMilestone`; those on no row stay as they are.
   */
  lemma DeleteRowMilestonesKept(g: GanttData, idx: int)
    ensures var r := DeleteRow(g, idx);
      (forall m :: m in g.milestones && m.row != Some(idx) ==> LowerMilestone(m, idx) in r.milestones)
      && (forall m :: m in r.milestones ==>
            exists m0 :: m0 in g.milestones && m0.row != Some(idx) && m == LowerMilestone(m0, idx))
      && (forall m :: m in g.milestones && m.row.None? ==> m in r.milestones)
  {
    var r := DeleteRow(g, idx);
    var kept := Filter(g.milestones, MilestoneOff(idx));
    forall m | m in g.milestones && m.row != Some(idx) ensures LowerMilestone(m, idx) in r.milestones {
      assert m in kept;
      var k :| 0 <= k < |kept| && kept[k] == m;
      assert r.milestones[k] == LowerMilestone(m, idx);
    }
    forall m | m in r.milestones
      ensures exists m0 :: m0 in g.milestones && m0.row != Some(idx) && m == LowerMilestone(m0, idx)
    {
      var k :| 0 <= k < |r.milestones| && r.milestones[k] == m;
      assert kept[k] in kept;
    }
  }

  /** `deleteRow` keeps every milestone on another row on the row of the same name. */
  lemma DeleteRowMilestoneNames(g: GanttData, idx: int)
    requires Valid(g) && 0 <= idx < |g.rows|
    ensures var r := DeleteRow(g, idx);
      forall k :: 0 <= k < |g.milestones| && g.milestones[k].row.Some? && g.milestones[k].row != Some(idx) ==>
        LowerMilestone(g.milestones[k], idx).row.Some?
        && 0 <= LowerMilestone(g.milestones[k], idx).row.value < |r.rows|
        && r.rows[LowerMilestone(g.milestones[k], idx).row.value] == g.rows[g.milestones[k].row.value]
  {
    forall k | 0 <= k < |g.milestones| && g.milestones[k].row.Some? && g.milestones[k].row != Some(idx)
      ensures LowerMilestone(g.milestones[k], idx).row.Some?
      ensures 0 <= LowerMilestone(g.milestones[k], idx).row.value < |DeleteRow(g, idx).rows|
      ensures DeleteRow(g, idx).rows[LowerMilestone(g.milestones[k], idx).row.value]
              == g.rows[g.milestones[k].row.value]
    {
      assert MilestoneFits(|g.rows|, |g.labels|, g.milestones[k]);
      DeleteRowNames(g, idx, g.milestones[k].row.value);
    }
  }

  /** Deleting an existing row keeps the chart valid. */
  lemma DeleteRowKeepsValid(g: GanttData, idx: int)
    requires Valid(g) && 0 <= idx < |g.rows|
    ensures Valid(DeleteRow(g, idx)) && |DeleteRow(g, idx).rows| == |g.rows| - 1
  {
    DeleteRowBarsFit(g, idx);
    DeleteRowMilestonesFit(g, idx);
  }

  /** For a row that exists, `removeRowAtIndex` emits exactly what `deleteRow` emits. */
  lemma RemoveRowAtIndexIsDeleteRow(g: GanttData, idx: int)
    requires 0 <= idx < |g.rows|
    ensures RemoveRowAtIndex(g, idx) == Some(DeleteRow(g, idx))
  {
    FilterSame(g.milestones, MilestoneNotAt(idx), MilestoneOff(idx));
    var kept := Filter(g.milestones, MilestoneOff(idx));
    assert Map(kept, MilestoneUpLoose(idx)) == Map(kept, MilestoneUp(idx));
  }

  /** `removeRowAt` drops the same row as `removeRowAtIndex` but leaves every bar and milestone as it was. */
  lemma RemoveRowAtSkipsReindex(g: GanttData, idx: int)
    requires 0 <= idx < |g.rows|
    ensures RemoveRowAt(g, idx) ==
      Some(RemoveRowAtIndex(g, idx).value.(bars := g.bars, milestones := g.milestones))
  {
  }
  // ---------------------------------------------------------------------------------------------
  // What dragging preserves

  /** With at least one column, a moved bar that ran left to right still does, within the columns. */
  lemma MoveBarStaysInside(g: GanttData, i: int, col: int)
    requires 0 <= i < |g.bars| && |g.labels| >= 1 && g.bars[i].start <= g.bars[i].finish
    ensures var b := DragTo(g, MoveBar(i), col).bars[i];
      0 <= b.start <= b.finish < |g.labels| && b.start == ClampCol(|g.labels|, col)
  {
  }

  /** A move keeps the bar's width whenever the last column leaves room for it. */
  lemma MoveBarKeepsWidth(g: GanttData, i: int, col: int)
    requires 0 <= i < |g.bars|
    requires ClampCol(|g.labels|, col) + (g.bars[i].finish - g.bars[i].start) < |g.labels|
    ensures var b := DragTo(g, MoveBar(i), col).bars[i];
      b.finish - b.start == g.bars[i].finish - g.bars[i].start
  {
  }

  /** A resize never lets one end pass the other, whatever the bar was before. */
  lemma ResizeKeepsOrder(g: GanttData, i: int, left: bool, col: int)
    requires 0 <= i < |g.bars|
    ensures var b := DragTo(g, ResizeBar(i, left), col).bars[i];
      if left then b.start <= g.bars[i].finish == b.finish else g.bars[i].start == b.start <= b.finish
  {
  }

  /** Every drag step keeps a valid chart valid. */
  lemma DragKeepsValid(g: GanttData, d: Drag, col: int)
    requires Valid(g) && DragOn(g, d)
    ensures Valid(DragTo(g, d, col))
  {
    var r := DragTo(g, d, col);
    if BarDragOn(g, d) {
      assert BarFits(|g.rows|, |g.labels|, g.bars[d.idx]);
      assert BarFits(|r.rows|, |r.labels|, r.bars[d.idx]);
    }
    if d.MoveMilestone? {
      assert MilestoneFits(|g.rows|, |g.labels|, g.milestones[d.idx]);
    }
  }
}
