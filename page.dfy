/**
 * The page logic of app/page.tsx: the quarter window onto the 52-week chart (projection and
 * write-back), the keyboard-shortcut dispatch, the two persisted feature toggles and the autosave
 * skip rule. A thrown TypeError (a `selectedQuarter` outside 0..3) is an explicit outcome.
 */
module Page {
  import opened Wrappers
  import opened JsString
  import opened JsArray
  import opened Gantt
  import opened Storage

  // ---------------------------------------------------------------------------------------------
  // Quarter ranges

  /** One entry of `quarterRanges`: the first and last week of the quarter and its month names. */
  datatype QuarterRange = QuarterRange(start: int, last: int, months: seq<string>)

  const Ranges: seq<QuarterRange> := [
    QuarterRange(0, 11, QuarterMonths[0]), QuarterRange(12, 23, QuarterMonths[1]),
    QuarterRange(24, 35, QuarterMonths[2]), QuarterRange(36, 51, QuarterMonths[3])]

  /** `quarterRanges[quarter]`, which is `undefined` outside 0..3. */
  function RangeOf(q: int): Option<QuarterRange>
  {
    if 0 <= q < |Ranges| then Some(Ranges[q]) else None
  }

  /** `range.end - range.start + 1`. */
  function WeekCountOf(r: QuarterRange): int
  {
    r.last - r.start + 1
  }

  /** The quarters last 12, 12, 12 and 16 weeks and tile weeks 0..51 in order, without gaps. */
  lemma QuarterSizes(q: int)
    requires 0 <= q < 4
    ensures RangeOf(q).Some?
    ensures WeekCountOf(RangeOf(q).value) == if q < 3 then 12 else 16
    ensures q == 0 ==> RangeOf(q).value.start == 0
    ensures q == 3 ==> RangeOf(q).value.last == WeekCount - 1
    ensures q < 3 ==> RangeOf(q + 1).value.start == RangeOf(q).value.last + 1
    ensures |RangeOf(q).value.months| == 3
  {
  }

  // ---------------------------------------------------------------------------------------------
  // Projection: `getQuarterGanttData`

  /** `range.months[monthIndex] || range.months[range.months.length - 1]`. */
  function ViewMonth(r: QuarterRange, i: int): string
    requires |r.months| > 0
  {
    if 0 <= i / 4 < |r.months| then r.months[i / 4] else r.months[|r.months| - 1]
  }

  /** The headings of the quarter view's weeks. */
  function QuarterHeadings(r: QuarterRange): (hs: seq<Heading>)
    requires |r.months| > 0 && r.start <= r.last + 1
    ensures |hs| == WeekCountOf(r)
    ensures forall i :: 0 <= i < |hs| ==> hs[i] == Heading(r.start + i, ViewMonth(r, i))
  {
    seq(WeekCountOf(r), i => Heading(r.start + i, ViewMonth(r, i)))
  }

  /** The week labels of the quarter view. */
  function QuarterLabels(r: QuarterRange): (ls: seq<Label>)
    requires |r.months| > 0 && r.start <= r.last + 1
    ensures |ls| == WeekCountOf(r)
  {
    Map(QuarterHeadings(r), Render())
  }

  /** The quarter's labels are exactly the new-project labels of its weeks. */
  lemma QuarterLabelsMatchDefault(q: int)
    requires 0 <= q < 4
    ensures var r := RangeOf(q).value;
      0 <= r.start <= r.last < WeekCount
      && QuarterLabels(r) == DefaultQuarterLabels()[r.start..r.last + 1]
  {
    var r := Ranges[q];
    QuarterHeadingsMatchDefault(q);
    MapSlice(DefaultHeadings(), Render(), r.start, r.last + 1);
  }

  /** The quarter's headings are the new-project headings of its weeks. */
  lemma QuarterHeadingsMatchDefault(q: int)
    requires 0 <= q < 4
    ensures 0 <= Ranges[q].start <= Ranges[q].last < WeekCount
    ensures QuarterHeadings(Ranges[q]) == DefaultHeadings()[Ranges[q].start..Ranges[q].last + 1]
  {
    var r := Ranges[q];
    var hs := QuarterHeadings(r);
    var ds := DefaultHeadings();
    forall i | 0 <= i < |hs|
      ensures hs[i] == ds[r.start..r.last + 1][i]
    {
      ViewMonthIsDefault(q, i);
    }
  }

  /** Week `i` of quarter `q` is named after the same month in the view as in the full chart. */
  lemma ViewMonthIsDefault(q: int, i: int)
    requires 0 <= q < 4 && 0 <= i < WeekCountOf(Ranges[q])
    ensures ViewMonth(Ranges[q], i) == DefaultMonth(Ranges[q].start + i)
  {
    var w := Ranges[q].start + i;
    assert w == 12 * q + i;
    if i < 12 {
      assert w / 12 == q && w % 12 == i;
    } else {
      assert q == 3 && w >= 48;
    }
  }

  function InQuarterBar(r: QuarterRange): Bar -> bool
  {
    (b: Bar) => r.start <= b.start <= r.last
  }

  function OutsideBar(r: QuarterRange): Bar -> bool
  {
    (b: Bar) => b.start < r.start || b.start > r.last
  }

  function InQuarterMilestone(r: QuarterRange): Milestone -> bool
  {
    (m: Milestone) => r.start <= m.at <= r.last
  }

  function OutsideMilestone(r: QuarterRange): Milestone -> bool
  {
    (m: Milestone) => m.at < r.start || m.at > r.last
  }

  /** A bar moved into view coordinates, its end cut at the last week of the quarter. */
  function ViewBar(r: QuarterRange): Bar -> Bar
  {
    (b: Bar) => b.(start := b.start - r.start,
                   finish := if b.finish - r.start < WeekCountOf(r) - 1 then b.finish - r.start else WeekCountOf(r) - 1)
  }

  function ViewMilestone(r: QuarterRange): Milestone -> Milestone
  {
    (m: Milestone) => m.(at := m.at - r.start)
  }

  /** The view of quarter `r` of the 52-week chart `g`. */
  function QuarterView(r: QuarterRange, g: GanttData): GanttData
    requires |r.months| > 0 && r.start <= r.last
  {
    GanttData(
      QuarterLabels(r), g.rows,
      Map(Filter(g.bars, InQuarterBar(r)), ViewBar(r)),
      Map(Filter(g.milestones, InQuarterMilestone(r)), ViewMilestone(r)),
      ClampCol(WeekCountOf(r), g.nowCol - r.start))
  }

  /** `getQuarterGanttData`: an empty chart without data; `None` where `quarterRanges` has no entry. */
  function GetQuarterGanttData(data: Option<OnePagerData>): (v: Option<GanttData>)
    ensures data.None? ==> v == Some(GanttData([], [], [], [], 0))
    ensures data.Some? ==> (v.Some? <==> 0 <= data.value.selectedQuarter < 4)
  {
    if data.None? then Some(GanttData([], [], [], [], 0))
    else
      var r := RangeOf(data.value.selectedQuarter);
      if r.None? then None else Some(QuarterView(r.value, data.value.quarterGantt))
  }

  /**
   * The view holds exactly the bars of `g` that start inside the quarter: each one shifted left by
   * the quarter's first week and with its end cut at the quarter's last week.
   */
  lemma QuarterViewBars(q: int, g: GanttData)
    requires 0 <= q < 4
    ensures var r := RangeOf(q).value; var v := QuarterView(r, g);
      forall b :: b in v.bars <==> exists x :: x in g.bars && r.start <= x.start <= r.last && b == ViewBar(r)(x)
  {
    var r := RangeOf(q).value;
    var kept := Filter(g.bars, InQuarterBar(r));
    var v := QuarterView(r, g);
    forall b | b in v.bars
      ensures exists x :: x in g.bars && r.start <= x.start <= r.last && b == ViewBar(r)(x)
    {
      var k :| 0 <= k < |v.bars| && v.bars[k] == b;
      assert kept[k] in kept;
    }
    forall x | x in g.bars && r.start <= x.start <= r.last
      ensures ViewBar(r)(x) in v.bars
    {
      assert x in kept;
      var k :| 0 <= k < |kept| && kept[k] == x;
      assert v.bars[k] == ViewBar(r)(x);
    }
  }

  /** The view keeps exactly the milestones inside the quarter, shifted left by its first week. */
  lemma QuarterViewMilestones(q: int, g: GanttData)
    requires 0 <= q < 4
    ensures var r := RangeOf(q).value; var v := QuarterView(r, g);
      forall m :: m in v.milestones <==> exists x :: x in g.milestones && r.start <= x.at <= r.last && m == ViewMilestone(r)(x)
  {
    var r := RangeOf(q).value;
    var kept := Filter(g.milestones, InQuarterMilestone(r));
    var v := QuarterView(r, g);
    forall m | m in v.milestones
      ensures exists x :: x in g.milestones && r.start <= x.at <= r.last && m == ViewMilestone(r)(x)
    {
      var k :| 0 <= k < |v.milestones| && v.milestones[k] == m;
      assert kept[k] in kept;
    }
    forall x | x in g.milestones && r.start <= x.at <= r.last
      ensures ViewMilestone(r)(x) in v.milestones
    {
      assert x in kept;
      var k :| 0 <= k < |kept| && kept[k] == x;
      assert v.milestones[k] == ViewMilestone(r)(x);
    }
  }

  /** The view of a valid chart is a valid chart on the quarter's weeks, "now" line included. */
  lemma QuarterViewValid(q: int, g: GanttData)
    requires 0 <= q < 4 && Valid(g)
    ensures var r := RangeOf(q).value; var v := QuarterView(r, g);
      Valid(v) && |v.labels| == WeekCountOf(r) && v.rows == g.rows
  {
    var r := RangeOf(q).value;
    var v := QuarterView(r, g);
    var kept := Filter(g.bars, InQuarterBar(r));
    forall k | 0 <= k < |v.bars|
      ensures BarFits(|v.rows|, |v.labels|, v.bars[k])
    {
      assert kept[k] in kept;
      var j :| 0 <= j < |g.bars| && g.bars[j] == kept[k];
      assert BarFits(|g.rows|, |g.labels|, g.bars[j]);
    }
    var keptMs := Filter(g.milestones, InQuarterMilestone(r));
    forall k | 0 <= k < |v.milestones|
      ensures MilestoneFits(|v.rows|, |v.labels|, v.milestones[k])
    {
      assert keptMs[k] in keptMs;
      var j :| 0 <= j < |g.milestones| && g.milestones[j] == keptMs[k];
      assert MilestoneFits(|g.rows|, |g.labels|, g.milestones[j]);
    }
  }

  // ---------------------------------------------------------------------------------------------
  // Write-back: `handleQuarterGanttChange`

  function ShiftBar(d: int): Bar -> Bar
  {
    (b: Bar) => b.(start := b.start + d, finish := b.finish + d)
  }

  function ShiftMilestone(d: int): Milestone -> Milestone
  {
    (m: Milestone) => m.(at := m.at + d)
  }

  /** The bars the write-back keeps as they are: those starting outside the quarter. */
  function OutsideBars(r: QuarterRange, bars: seq<Bar>): (outs: seq<Bar>)
    ensures forall b :: b in outs <==> b in bars && (b.start < r.start || b.start > r.last)
  {
    Filter(bars, OutsideBar(r))
  }

  /** The milestones the write-back keeps as they are: those outside the quarter. */
  function OutsideMilestones(r: QuarterRange, ms: seq<Milestone>): (outs: seq<Milestone>)
    ensures forall m :: m in outs <==> m in ms && (m.at < r.start || m.at > r.last)
  {
    Filter(ms, OutsideMilestone(r))
  }

  /** The 52-week chart after the quarter view `v` of quarter `r` was edited. */
  function WriteBack(r: QuarterRange, g: GanttData, v: GanttData): GanttData
  {
    g.(rows := v.rows,
       bars := OutsideBars(r, g.bars) + Map(v.bars, ShiftBar(r.start)),
       milestones := OutsideMilestones(r, g.milestones) + Map(v.milestones, ShiftMilestone(r.start)),
       nowCol := v.nowCol + r.start)
  }

  /** What the change handler does: nothing without data, a throw outside 0..3, else new data. */
  datatype Change = Unchanged | Throws | SetData(data: OnePagerData)

  function HandleQuarterGanttChange(data: Option<OnePagerData>, v: GanttData): (c: Change)
    ensures data.None? <==> c.Unchanged?
    ensures c.SetData? ==> c.data == data.value.(quarterGantt := c.data.quarterGantt)
    ensures c.SetData? ==> c.data.quarterGantt.labels == data.value.quarterGantt.labels
  {
    if data.None? then Unchanged
    else
      var r := RangeOf(data.value.selectedQuarter);
      if r.None? then Throws
      else SetData(data.value.(quarterGantt := WriteBack(r.value, data.value.quarterGantt, v)))
  }

  /**
   * The bars and milestones outside the quarter come first, unchanged and in order; they are
   * followed by the view's, moved right by the quarter's first week.
   */
  lemma WriteBackKeepsOutside(r: QuarterRange, g: GanttData, v: GanttData)
    ensures WriteBack(r, g, v).bars[..|OutsideBars(r, g.bars)|] == OutsideBars(r, g.bars)
    ensures WriteBack(r, g, v).bars[|OutsideBars(r, g.bars)|..] == Map(v.bars, ShiftBar(r.start))
    ensures WriteBack(r, g, v).milestones[..|OutsideMilestones(r, g.milestones)|] == OutsideMilestones(r, g.milestones)
    ensures WriteBack(r, g, v).milestones[|OutsideMilestones(r, g.milestones)|..] == Map(v.milestones, ShiftMilestone(r.start))
  {
    ConcatParts(OutsideBars(r, g.bars), Map(v.bars, ShiftBar(r.start)));
    ConcatParts(OutsideMilestones(r, g.milestones), Map(v.milestones, ShiftMilestone(r.start)));
  }

  /** `ShiftBar(d)` moves both ends of every bar right by `d` and changes nothing else. */
  lemma ShiftedBars(d: int, bars: seq<Bar>)
    ensures forall k :: 0 <= k < |bars| ==> Map(bars, ShiftBar(d))[k] == bars[k].(start := bars[k].start + d, finish := bars[k].finish + d)
  {
  }

  /** A bar lying wholly inside the quarter comes back unchanged from projection and write-back. */
  lemma InsideBarRoundTrip(q: int, b: Bar)
    requires 0 <= q < 4
    requires RangeOf(q).value.start <= b.start <= b.finish <= RangeOf(q).value.last
    ensures InQuarterBar(RangeOf(q).value)(b)
    ensures ShiftBar(RangeOf(q).value.start)(ViewBar(RangeOf(q).value)(b)) == b
  {
  }

  /**
   * Writing back an unedited view gives the chart back up to order: the same bars and milestones
   * (as multisets), the same rows, and the same "now" column when it lies inside the quarter. Bars
   * have to end by the quarter's last week: the view cuts longer ones.
   */
  lemma UneditedWriteBack(r: QuarterRange, g: GanttData)
    requires |r.months| > 0 && r.start <= r.last
    requires forall k :: 0 <= k < |g.bars| && r.start <= g.bars[k].start <= r.last ==> g.bars[k].finish <= r.last
    ensures var w := WriteBack(r, g, QuarterView(r, g));
      multiset(w.bars) == multiset(g.bars) && multiset(w.milestones) == multiset(g.milestones)
      && w.rows == g.rows && w.labels == g.labels
      && (r.start <= g.nowCol <= r.last ==> w.nowCol == g.nowCol)
  {
    UneditedBars(r, g.bars);
    UneditedMilestones(r, g.milestones);
  }

  lemma UneditedBars(r: QuarterRange, bars: seq<Bar>)
    requires forall k :: 0 <= k < |bars| && r.start <= bars[k].start <= r.last ==> bars[k].finish <= r.last
    ensures multiset(Filter(bars, OutsideBar(r)) + Map(Map(Filter(bars, InQuarterBar(r)), ViewBar(r)), ShiftBar(r.start)))
            == multiset(bars)
  {
    var ins := Filter(bars, InQuarterBar(r));
    var outs := Filter(bars, OutsideBar(r));
    InsideBarsEndInside(r, bars, ins);
    ViewedBarsComeBack(r, ins);
    FilterPartition(bars, OutsideBar(r), InQuarterBar(r));
    assert multiset(outs + ins) == multiset(outs) + multiset(ins);
  }

  lemma InsideBarsEndInside(r: QuarterRange, bars: seq<Bar>, ins: seq<Bar>)
    requires forall k :: 0 <= k < |bars| && r.start <= bars[k].start <= r.last ==> bars[k].finish <= r.last
    requires ins == Filter(bars, InQuarterBar(r))
    ensures forall k :: 0 <= k < |ins| ==> r.start <= ins[k].start <= r.last && ins[k].finish <= r.last
  {
    forall k | 0 <= k < |ins|
      ensures r.start <= ins[k].start <= r.last && ins[k].finish <= r.last
    {
      assert ins[k] in bars;
    }
  }

  lemma ViewedBarsComeBack(r: QuarterRange, ins: seq<Bar>)
    requires forall k :: 0 <= k < |ins| ==> r.start <= ins[k].start <= r.last && ins[k].finish <= r.last
    ensures Map(Map(ins, ViewBar(r)), ShiftBar(r.start)) == ins
  {
    MapUndone(ins, ViewBar(r), ShiftBar(r.start));
  }

  lemma UneditedMilestones(r: QuarterRange, ms: seq<Milestone>)
    ensures multiset(Filter(ms, OutsideMilestone(r)) + Map(Map(Filter(ms, InQuarterMilestone(r)), ViewMilestone(r)), ShiftMilestone(r.start)))
            == multiset(ms)
  {
    var ins := Filter(ms, InQuarterMilestone(r));
    MapUndone(ins, ViewMilestone(r), ShiftMilestone(r.start));
    FilterPartition(ms, OutsideMilestone(r), InQuarterMilestone(r));
  }

  /**
   * Every edit made in a valid quarter view survives: projecting the written-back chart again gives
   * the edited view, headings aside (those are always the quarter's own).
   */
  lemma ViewOfWriteBack(q: int, g: GanttData, v: GanttData)
    requires 0 <= q < 4 && Valid(v) && |v.labels| == WeekCountOf(RangeOf(q).value)
    ensures var r := RangeOf(q).value; QuarterView(r, WriteBack(r, g, v)) == v.(labels := QuarterLabels(r))
  {
    var r := RangeOf(q).value;
    var w := WriteBack(r, g, v);
    BarsOfWriteBack(r, g, v);
    MilestonesOfWriteBack(r, g, v);
  }

  lemma BarsOfWriteBack(r: QuarterRange, g: GanttData, v: GanttData)
    requires r.start <= r.last && forall k :: 0 <= k < |v.bars| ==> BarFits(|v.rows|, WeekCountOf(r), v.bars[k])
    ensures Map(Filter(WriteBack(r, g, v).bars, InQuarterBar(r)), ViewBar(r)) == v.bars
  {
    ShiftedBarsInside(r, g, v);
    MapUndone(v.bars, ShiftBar(r.start), ViewBar(r));
  }

  /** Of the written-back bars exactly the view's, shifted, start inside the quarter. */
  lemma ShiftedBarsInside(r: QuarterRange, g: GanttData, v: GanttData)
    requires r.start <= r.last && forall k :: 0 <= k < |v.bars| ==> BarFits(|v.rows|, WeekCountOf(r), v.bars[k])
    ensures Filter(WriteBack(r, g, v).bars, InQuarterBar(r)) == Map(v.bars, ShiftBar(r.start))
  {
    var outs := Filter(g.bars, OutsideBar(r));
    var shifted := Map(v.bars, ShiftBar(r.start));
    FilterConcat(outs, shifted, InQuarterBar(r));
    OutsideBarsNotInside(r, outs);
    FilterNone(outs, InQuarterBar(r));
    FilterAll(shifted, InQuarterBar(r));
  }

  lemma OutsideBarsNotInside(r: QuarterRange, outs: seq<Bar>)
    requires forall b :: b in outs ==> OutsideBar(r)(b)
    ensures forall k :: 0 <= k < |outs| ==> !InQuarterBar(r)(outs[k])
  {
    forall k | 0 <= k < |outs|
      ensures !InQuarterBar(r)(outs[k])
    {
      assert outs[k] in outs;
    }
  }

  lemma MilestonesOfWriteBack(r: QuarterRange, g: GanttData, v: GanttData)
    requires r.start <= r.last && forall k :: 0 <= k < |v.milestones| ==> MilestoneFits(|v.rows|, WeekCountOf(r), v.milestones[k])
    ensures Map(Filter(WriteBack(r, g, v).milestones, InQuarterMilestone(r)), ViewMilestone(r)) == v.milestones
  {
    ShiftedMilestonesInside(r, g, v);
    MapUndone(v.milestones, ShiftMilestone(r.start), ViewMilestone(r));
  }

  /** Of the written-back milestones exactly the view's, shifted, lie inside the quarter. */
  lemma ShiftedMilestonesInside(r: QuarterRange, g: GanttData, v: GanttData)
    requires r.start <= r.last && forall k :: 0 <= k < |v.milestones| ==> MilestoneFits(|v.rows|, WeekCountOf(r), v.milestones[k])
    ensures Filter(WriteBack(r, g, v).milestones, InQuarterMilestone(r)) == Map(v.milestones, ShiftMilestone(r.start))
  {
    var outs := Filter(g.milestones, OutsideMilestone(r));
    var shifted := Map(v.milestones, ShiftMilestone(r.start));
    FilterConcat(outs, shifted, InQuarterMilestone(r));
    OutsideMilestonesNotInside(r, outs);
    FilterNone(outs, InQuarterMilestone(r));
    FilterAll(shifted, InQuarterMilestone(r));
  }

  lemma OutsideMilestonesNotInside(r: QuarterRange, outs: seq<Milestone>)
    requires forall m :: m in outs ==> OutsideMilestone(r)(m)
    ensures forall k :: 0 <= k < |outs| ==> !InQuarterMilestone(r)(outs[k])
  {
    forall k | 0 <= k < |outs|
      ensures !InQuarterMilestone(r)(outs[k])
    {
      assert outs[k] in outs;
    }
  }

  // ---------------------------------------------------------------------------------------------
  // Keyboard shortcuts: `handleKeyDown`

  datatype Action = ExportPng | ExportPngSaveAs | Undo | Redo | ShowSaved | ExportJson | ExportPdf | NewProject | NoAction

  /**
   * The if-chain of `handleKeyDown`; the modifier is Cmd on a Mac and Ctrl elsewhere, and
   * `isMac` stands for the platform test.
   */
  function Shortcut(isMac: bool, meta: bool, ctrl: bool, key: string, shift: bool): (a: Action)
    ensures var m := if isMac then meta else ctrl;
      (a == ExportPng <==> m && key == "4" && !shift)
      && (a == ExportPngSaveAs <==> m && key == "4" && shift)
      && (a == Undo <==> m && key == "z" && !shift)
      && (a == Redo <==> m && ((key == "z" && shift) || key == "y"))
      && (a == ShowSaved <==> m && key == "s")
      && (a == ExportJson <==> m && key == "e")
      && (a == ExportPdf <==> m && key == "p")
      && (a == NewProject <==> m && key == "n")
  {
    var m := if isMac then meta else ctrl;
    if m && key == "4" && !shift then ExportPng
    else if m && key == "4" && shift then ExportPngSaveAs
    else if m && key == "z" && !shift then Undo
    else if (m && key == "z" && shift) || (m && key == "y") then Redo
    else if m && key == "s" then ShowSaved
    else if m && key == "e" then ExportJson
    else if m && key == "p" then ExportPdf
    else if m && key == "n" then NewProject
    else NoAction
  }

  /** Only the platform's own modifier counts: Ctrl on a Mac and Cmd elsewhere do nothing. */
  lemma ShortcutNeedsModifier(isMac: bool, meta: bool, ctrl: bool, key: string, shift: bool)
    requires !(if isMac then meta else ctrl)
    ensures Shortcut(isMac, meta, ctrl, key, shift) == NoAction
  {
  }

  /** `if (name) handleCreateNew(name)`: a cancelled prompt or an empty name creates nothing. */
  function NewProjectName(reply: Option<string>): (name: Option<string>)
    ensures name.Some? <==> reply.Some? && reply.value != ""
    ensures name.Some? ==> name == reply
  {
    if reply.Some? && reply.value != "" then reply else None
  }

  // ---------------------------------------------------------------------------------------------
  // Feature toggles

  const TpKey := "tp"
  const CommentsKey := "comments"

  /** How a toggle is persisted. */
  function FlagString(v: bool): (s: string)
    ensures s == "1" || s == "0"
  {
    if v then "1" else "0"
  }

  /** How a stored toggle is read: an absent key keeps the current value, else `=== '1'`. */
  function ReadFlag(stored: Option<string>, current: bool): (v: bool)
    ensures stored.None? ==> v == current
    ensures stored.Some? ==> (v <==> stored.value == "1")
  {
    if stored.None? then current else stored.value == "1"
  }

  /** A persisted toggle reads back as the same boolean, whatever the current value. */
  lemma FlagRoundTrip(v: bool, current: bool)
    ensures ReadFlag(Some(FlagString(v)), current) == v
  {
  }

  function Lookup(store: map<string, string>, key: string): Option<string>
  {
    if key in store then Some(store[key]) else None
  }

  /**
   * The two toggles and the localStorage they persist to; `available` is false where there is no
   * `window` or the storage throws, and then nothing is read or written.
   */
  class FeatureToggles {
    var store: map<string, string>
    var available: bool
    var showTP: bool
    var showComments: bool

    /** Both toggles start on. */
    constructor (store0: map<string, string>, available0: bool)
      ensures store == store0 && available == available0 && showTP && showComments
    {
      store := store0;
      available := available0;
      showTP := true;
      showComments := true;
    }

    /** The mount effect: each stored key overrides its toggle. */
    method Load()
      modifies this
      ensures store == old(store) && available == old(available)
      ensures showTP == if available then ReadFlag(Lookup(store, TpKey), old(showTP)) else old(showTP)
      ensures showComments == if available then ReadFlag(Lookup(store, CommentsKey), old(showComments)) else old(showComments)
    {
      if available {
        showTP := ReadFlag(Lookup(store, TpKey), showTP);
        showComments := ReadFlag(Lookup(store, CommentsKey), showComments);
      }
    }

    /** `setShowTPAndPersist`. */
    method SetShowTP(v: bool)
      modifies this
      ensures showTP == v && showComments == old(showComments) && available == old(available)
      ensures store == if available then old(store)[TpKey := FlagString(v)] else old(store)
    {
      showTP := v;
      if available {
        store := store[TpKey := FlagString(v)];
      }
    }

    /** `setShowCommentsAndPersist`. */
    method SetShowComments(v: bool)
      modifies this
      ensures showComments == v && showTP == old(showTP) && available == old(available)
      ensures store == if available then old(store)[CommentsKey := FlagString(v)] else old(store)
    {
      showComments := v;
      if available {
        store := store[CommentsKey := FlagString(v)];
      }
    }
  }

  /** Setting a toggle and loading the page again shows the toggle as it was set. */
  method PersistThenReload(store0: map<string, string>, v: bool, w: bool) returns (tp: bool, comments: bool)
    ensures tp == v && comments == w
  {
    var t := new FeatureToggles(store0, true);
    t.SetShowTP(v);
    t.SetShowComments(w);
    var reloaded := new FeatureToggles(t.store, true);
    reloaded.Load();
    FlagRoundTrip(v, true);
    FlagRoundTrip(w, true);
    tp, comments := reloaded.showTP, reloaded.showComments;
  }

  // ---------------------------------------------------------------------------------------------
  // Autosave

  /**
   * The autosave effect's state: the serialised data last saved (`lastSavedData`) and whether the
   * mount effect has still to run. `json` below stands for `JSON.stringify(data)`.
   */
  class Autosaver {
    var lastSaved: string
    var initialMount: bool

    constructor ()
      ensures lastSaved == "" && initialMount
    {
      lastSaved := "";
      initialMount := true;
    }

    /** The end of the mount effect: the loaded project's data counts as saved. */
    method Mounted(json: string)
      modifies this
      ensures lastSaved == json && !initialMount
    {
      lastSaved := json;
      initialMount := false;
    }

    /**
     * The effect run on every data change: skipped on the first render, without a project, data
     * or history, or when the data serialises as last saved; otherwise the project is saved with
     * the new data, and that serialisation becomes the last saved one. The clock is read twice:
     * `stamp` for the project the page keeps, and `saveNow` for `saveProject`'s own stamp on the
     * stored copy.
     */
    method OnDataChange(store: ProjectStore, project: Option<Project>, data: Option<OnePagerData>,
                        hasHistory: bool, json: string, stamp: string, saveNow: string)
      returns (current: Option<Project>)
      modifies this, store
      ensures var saved := !old(initialMount) && project.Some? && data.Some? && hasHistory && json != old(lastSaved);
        initialMount == old(initialMount)
        && (saved ==> lastSaved == json && current == Some(project.value.(data := data.value, updatedAt := stamp))
                      && store.stored == Some(Upsert(old(store.GetAllProjects()), current.value, saveNow)))
        && (!saved ==> lastSaved == old(lastSaved) && current == project && store.stored == old(store.stored))
        && store.active == old(store.active)
    {
      if initialMount || project.None? || data.None? || !hasHistory {
        return project;
      }
      if json == lastSaved {
        return project;
      }
      lastSaved := json;
      var updated := project.value.(data := data.value, updatedAt := stamp);
      store.SaveProject(updated, saveNow);
      current := Some(updated);
    }
  }

  /**
   * Once a change is saved, the same data arriving again is not saved a second time, whatever the
   * clock reads on the second run.
   */
  method SaveIsIdempotent(store: ProjectStore, p: Project, loaded: string, d: OnePagerData, json: string,
                          stamp: string, saveNow: string, laterStamp: string, laterSaveNow: string)
    returns (first: Option<Project>, second: Option<Project>)
    requires json != loaded
    modifies store
    ensures first == Some(p.(data := d, updatedAt := stamp)) && second == first
    ensures store.stored == Some(Upsert(old(store.GetAllProjects()), first.value, saveNow))
  {
    var a := new Autosaver();
    a.Mounted(loaded);
    first := a.OnDataChange(store, Some(p), Some(d), true, json, stamp, saveNow);
    second := a.OnDataChange(store, first, Some(d), true, json, laterStamp, laterSaveNow);
  }
}
