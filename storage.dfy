/**
 * The project store of lib/storage.ts: the one-pager document and the project record, the
 * week-to-period rule, the default document `createNewProject` builds, and the two
 * localStorage slots (the project list and the active project id) as a class. JSON encoding is
 * abstract: the list slot holds the decoded projects, or nothing when the key is absent.
 */
module Storage {
  import opened Wrappers
  import opened JsString
  import opened JsArray
  import opened Gantt

  const WeekCount := 52
  const PeriodCount := 13

  /** `Math.min(13, Math.floor(w / 4) + 1)`; Dafny's `/` by a positive divisor is the floor. */
  function WeekToPeriod(w: int): (p: int)
    ensures p <= PeriodCount
    ensures 0 <= w ==> 1 <= p
    ensures p == PeriodCount <==> w >= 48
  {
    if w / 4 + 1 < 13 then w / 4 + 1 else 13
  }

  /** Weeks 0..51 map onto periods 1..13, four weeks to a period, the last period taking weeks 48..51. */
  lemma WeekToPeriodBlocks(w: int)
    requires 0 <= w < WeekCount
    ensures 1 <= WeekToPeriod(w) <= PeriodCount
    ensures w < 48 ==> 4 * (WeekToPeriod(w) - 1) <= w < 4 * WeekToPeriod(w)
  {
  }

  const QuarterMonths: seq<seq<string>> :=
    [["Jan", "Feb", "Mar"], ["Apr", "May", "Jun"], ["Jul", "Aug", "Sep"], ["Oct", "Nov", "Dec"]]

  datatype Kpi = Kpi(caption: string, value: string, color: Status)
  datatype Roles = Roles(sponsor: string, productOwner: string, projectManager: string)
  datatype Risk = Risk(risk: string, impact: Status, mitigation: string)
  datatype Artifact = Artifact(caption: string, url: string)

  /** The document a project holds (its `extraSections` list is not modelled). */
  datatype OnePagerData = OnePagerData(
    projectName: string, niicDate: string, kpis: seq<Kpi>, roles: Roles, projectStatus: Status,
    goal: string, description: string, yearGantt: GanttData, quarterGantt: GanttData,
    selectedQuarter: int, done: seq<string>, next: seq<string>, teamMetrics: seq<Kpi>,
    risks: seq<Risk>, artifacts: seq<Artifact>, comments: string)

  datatype Project = Project(id: string, name: string, data: OnePagerData, createdAt: string, updatedAt: string)

  /** `P` and the period on two digits. */
  function PeriodTop(period: int): string
  {
    "P" + PadStart2(IntToString(period))
  }

  /** `<month> | W<week>`. */
  function WeekBottom(month: string, week: int): string
  {
    month + " | W" + IntToString(week)
  }

  /** The month of default week `i`: `QUARTER_MONTHS[i / 12]?.[(i % 12) / 4] || "Dec"`. */
  function DefaultMonth(i: nat): string
  {
    var q := i / 12;
    if q < 4 then QuarterMonths[q][(i % 12) / 4] else "Dec"
  }

  /** The two-line heading of week `w`: its period on top, the month and its week in the period below. */
  function WeekLabel(w: int, month: string): Label
  {
    TwoLine(PeriodTop(WeekToPeriod(w)), WeekBottom(month, w % 4 + 1))
  }

  /** The heading of week `i` in a new project's quarter chart. */
  function DefaultQuarterLabel(i: nat): Label
  {
    WeekLabel(i, DefaultMonth(i))
  }

  /** What a week heading is made from: the week's index in the year and its month name. */
  datatype Heading = Heading(week: int, month: string)

  /** Renders a heading as its two-line label. */
  function Render(): Heading -> Label
  {
    (h: Heading) => WeekLabel(h.week, h.month)
  }

  /** The headings of the 52 weeks of a new project's quarter chart. */
  function DefaultHeadings(): (hs: seq<Heading>)
    ensures |hs| == WeekCount
    ensures forall i :: 0 <= i < WeekCount ==> hs[i] == Heading(i, DefaultMonth(i))
  {
    seq(WeekCount, i requires 0 <= i < WeekCount => Heading(i, DefaultMonth(i)))
  }

  /** `Array.from({ length: 52 }, …)`. */
  function DefaultQuarterLabels(): (r: seq<Label>)
    ensures |r| == WeekCount
    ensures forall i :: 0 <= i < WeekCount ==> r[i] == DefaultQuarterLabel(i)
  {
    Map(DefaultHeadings(), Render())
  }

  /**
   * Week `i`'s heading names its period on two digits and its week within the period; the months
   * run three per twelve-week block, four weeks each, and the weeks from 48 on fall back to "Dec".
   */
  lemma DefaultQuarterLabelShape(i: nat)
    requires i < WeekCount
    ensures var l := DefaultQuarterLabels()[i];
      l.TwoLine? && |l.top| == 3 && l.top[0] == 'P'
      && EndsWith(l.bottom, "W" + IntToString(i % 4 + 1))
      && (i >= 48 ==> StartsWith(l.bottom, "Dec"))
      && (i < 48 ==> StartsWith(l.bottom, QuarterMonths[i / 12][(i % 12) / 4]))
  {
    var l := DefaultQuarterLabels()[i];
    var m := DefaultMonth(i);
    assert l == TwoLine(PeriodTop(WeekToPeriod(i)), WeekBottom(m, i % 4 + 1));
    PeriodTopShape(WeekToPeriod(i));
    WeekBottomShape(m, i % 4 + 1);
    if i >= 48 {
      LateWeeksDec(i);
    }
  }

  /** The weeks from 48 on lie past the four quarters' months. */
  lemma LateWeeksDec(i: nat)
    requires 48 <= i < WeekCount
    ensures DefaultMonth(i) == "Dec"
  {
    assert i / 12 == 4;
  }

  /** A period from 1 to 13 prints as `P` and two characters. */
  lemma PeriodTopShape(p: int)
    requires 1 <= p <= PeriodCount
    ensures |PeriodTop(p)| == 3 && PeriodTop(p)[0] == 'P'
  {
    assert |IntToString(p)| <= 2 by {
      if p >= 10 {
        assert IntToString(p) == NatToString(p / 10) + [DigitChar(p % 10)];
      }
    }
  }

  /** The bottom line begins with the month and ends with the week. */
  lemma WeekBottomShape(m: string, w: int)
    ensures StartsWith(WeekBottom(m, w), m)
    ensures EndsWith(WeekBottom(m, w), "W" + IntToString(w))
  {
    var b := WeekBottom(m, w);
    assert b == m + (" | " + ("W" + IntToString(w)));
    assert b[..|m|] == m;
  }

  const YearLabels: seq<Label> := [
    TwoLine("Jan", "P01 | Q1"), TwoLine("Feb", "P02 | Q1"), TwoLine("Mar", "P03 | Q1"),
    TwoLine("Apr", "P04 | Q2"), TwoLine("May", "P05 | Q2"), TwoLine("Jun", "P06 | Q2"),
    TwoLine("Jul", "P07 | Q3"), TwoLine("Aug", "P08 | Q3"), TwoLine("Sep", "P09 | Q3"),
    TwoLine("Oct", "P10 | Q4"), TwoLine("Nov", "P11 | Q4"), TwoLine("Dec", "P12 | Q4"),
    TwoLine("Dec", "P13 | Q4")]

  function DefaultYearGantt(): GanttData
  {
    GanttData(
      YearLabels,
      ["Workstream 1", "Workstream 2", "Workstream 3"],
      [Bar(0, 0, 3, "Phase 1", None, Green), Bar(1, 4, 7, "Phase 2", None, Yellow),
       Bar(2, 8, 11, "Phase 3", None, Green)],
      [Milestone(None, 2, "Q1 Review", None), Milestone(None, 5, "Q2 Review", None),
       Milestone(None, 8, "Q3 Review", None), Milestone(None, 12, "Year End", None)],
      5)
  }

  function DefaultQuarterGantt(): GanttData
  {
    GanttData(
      DefaultQuarterLabels(),
      ["Task 1", "Task 2", "Task 3"],
      [Bar(0, 0, 3, "Sprint 1", None, Green), Bar(1, 4, 7, "Sprint 2", None, Green)],
      [Milestone(None, 8, "Q1 End", None)],
      5)
  }

  /** The document a new project gets when no template is given; `now` is `new Date().toISOString()`. */
  function DefaultData(name: string, now: string): OnePagerData
  {
    OnePagerData(
      name, Slice(now, 0, 7),
      [Kpi("Money Plan", "1000", Green), Kpi("Money Fact", "850", Yellow), Kpi("Benefits", "150", Green)],
      Roles("Sponsor Name", "PO Name", "PM Name"),
      Green, "Project goal and objectives", "Detailed project description and context",
      DefaultYearGantt(), DefaultQuarterGantt(), 0,
      ["Completed task 1", "Completed task 2"], ["Upcoming task 1", "Upcoming task 2"],
      [Kpi("Velocity", "85%", Green), Kpi("Quality", "92%", Green), Kpi("Budget", "78%", Yellow)],
      [Risk("Vendor dependency", Red, "Multi-vendor strategy"),
       Risk("Resource availability", Yellow, "Cross-training team members")],
      [Artifact("📄 Passport", "#"), Artifact("👥 Team", "#"), Artifact("📋 Task Tracking", "#"),
       Artifact("📑 NIIC Presentation", "#")],
      "")
  }

  /** Both default charts are valid: every bar, milestone and "now" line is on the grid. */
  lemma DefaultChartsValid(name: string, now: string)
    ensures Valid(DefaultData(name, now).yearGantt) && Valid(DefaultData(name, now).quarterGantt)
    ensures DefaultData(name, now).selectedQuarter == 0
  {
    var q := DefaultQuarterGantt();
    assert |q.labels| == 52;
  }

  /**
   * `createNewProject`: the template when one is given, else the default document. The clock is
   * read separately for the document's month (`niicNow`), the creation stamp (`created`) and the
   * update stamp (`updated`), so the two stamps need not be equal. `millis` and `random` stand for
   * `Date.now()` and the nine base-36 characters drawn from `Math.random()`.
   */
  function CreateNewProject(name: string, template: Option<OnePagerData>, niicNow: string,
                            created: string, updated: string, millis: int, random: string): (r: Project)
    ensures template.Some? ==> r.data == template.value
    ensures template.None? ==>
      r.data == DefaultData(name, niicNow) && r.data.projectName == name && r.data.niicDate == Slice(niicNow, 0, 7)
    ensures r.name == name && r.createdAt == created && r.updatedAt == updated
    ensures StartsWith(r.id, "project-")
  {
    var data := if template.Some? then template.value else DefaultData(name, niicNow);
    Project("project-" + IntToString(millis) + "-" + random, name, data, created, updated)
  }

  /**
   * What `saveProject` does to the list, by recursion on the list: the first project with the
   * same id is replaced by `p` stamped with `now`; without one, `p` is appended.
   */
  function Upsert(ps: seq<Project>, p: Project, now: string): seq<Project>
  {
    if |ps| == 0 then [p]
    else if ps[0].id == p.id then [p.(updatedAt := now)] + ps[1..]
    else [ps[0]] + Upsert(ps[1..], p, now)
  }

  /** `Upsert` at the first position holding the id is the index assignment `saveProject` makes. */
  lemma {:induction false} UpsertAt(ps: seq<Project>, p: Project, now: string, i: nat)
    requires i < |ps| && ps[i].id == p.id && forall k :: 0 <= k < i ==> ps[k].id != p.id
    ensures Upsert(ps, p, now) == ps[i := p.(updatedAt := now)]
  {
    if i > 0 {
      UpsertAt(ps[1..], p, now, i - 1);
      assert [ps[0]] + ps[1..][i - 1 := p.(updatedAt := now)] == ps[i := p.(updatedAt := now)];
    }
  }

  /** Without a project holding the id, `Upsert` is the `push`. */
  lemma {:induction false} UpsertAppends(ps: seq<Project>, p: Project, now: string)
    requires forall k :: 0 <= k < |ps| ==> ps[k].id != p.id
    ensures Upsert(ps, p, now) == ps + [p]
  {
    if |ps| > 0 {
      UpsertAppends(ps[1..], p, now);
      assert [ps[0]] + (ps[1..] + [p]) == ps + [p];
    }
  }

  /** A save into a list of distinct ids keeps the ids distinct, and the saved id is then present. */
  lemma {:induction false} UpsertKeepsIdsUnique(ps: seq<Project>, p: Project, now: string)
    requires forall i, j :: 0 <= i < j < |ps| ==> ps[i].id != ps[j].id
    ensures var r := Upsert(ps, p, now);
      (forall i, j :: 0 <= i < j < |r| ==> r[i].id != r[j].id)
      && exists k :: 0 <= k < |r| && r[k].id == p.id
  {
    if |ps| == 0 {
      assert Upsert(ps, p, now)[0] == p;
    } else {
      if ps[0].id == p.id {
        assert forall k :: 1 <= k < |ps| ==> ps[k].id != p.id;
        assert Upsert(ps, p, now)[0].id == p.id;
      } else {
        UpsertKeepsIdsUnique(ps[1..], p, now);
        var rest := Upsert(ps[1..], p, now);
        UpsertIds(ps[1..], p, now);
        assert Upsert(ps, p, now) == [ps[0]] + rest;
        forall j | 0 <= j < |rest|
          ensures rest[j].id != ps[0].id
        {
          if rest[j].id != p.id {
            assert rest[j] in ps[1..];
            var m :| 0 <= m < |ps[1..]| && ps[1..][m] == rest[j];
            assert ps[m + 1] == rest[j];
          }
        }
        var k :| 0 <= k < |rest| && rest[k].id == p.id;
        assert Upsert(ps, p, now)[k + 1].id == p.id;
      }
    }
  }

  /** Every project after a save is the saved one or was there before. */
  lemma {:induction false} UpsertIds(ps: seq<Project>, p: Project, now: string)
    ensures forall x :: x in Upsert(ps, p, now) ==> x.id == p.id || x in ps
  {
    if |ps| > 0 {
      assert forall x :: x in ps[1..] ==> x in ps;
      if ps[0].id != p.id {
        UpsertIds(ps[1..], p, now);
      }
    }
  }

  /** `projects.findIndex((q) => q.id === id)`. */
  method FindIndex(ps: seq<Project>, id: string) returns (index: int)
    ensures -1 <= index < |ps|
    ensures index >= 0 ==> ps[index].id == id
    ensures forall k :: 0 <= k < |ps| && (index == -1 || k < index) ==> ps[k].id != id
  {
    var i := 0;
    while i < |ps|
      invariant 0 <= i <= |ps|
      invariant forall k :: 0 <= k < i ==> ps[k].id != id
    {
      if ps[i].id == id {
        return i;
      }
      i := i + 1;
    }
    return -1;
  }

  /** The two localStorage slots: the project list and the active project id. */
  class ProjectStore {
    var stored: Option<seq<Project>>
    var active: Option<string>

    constructor (stored0: Option<seq<Project>>, active0: Option<string>)
      ensures stored == stored0 && active == active0
    {
      stored := stored0;
      active := active0;
    }

    /** `getAllProjects`: the stored list, or the empty list when nothing is stored. */
    function GetAllProjects(): (r: seq<Project>)
      reads this
      ensures stored.None? ==> r == []
      ensures stored.Some? ==> r == stored.value
    {
      stored.GetOr([])
    }

    /** `getActiveProjectId`. */
    function GetActiveProjectId(): Option<string>
      reads this
    {
      active
    }

    /** `setActiveProjectId`. */
    method SetActiveProjectId(id: string)
      modifies this
      ensures active == Some(id) && stored == old(stored)
    {
      active := Some(id);
    }

    /** `saveProject`: the loaded list, updated in place or extended, written back. */
    method SaveProject(p: Project, now: string)
      modifies this
      ensures stored == Some(Upsert(old(GetAllProjects()), p, now))
      ensures active == old(active)
    {
      var projects := GetAllProjects();
      var index := FindIndex(projects, p.id);
      if index >= 0 {
        UpsertAt(projects, p, now, index);
        projects := projects[index := p.(updatedAt := now)];
      } else {
        UpsertAppends(projects, p, now);
        projects := projects + [p];
      }
      stored := Some(projects);
    }

    /** `deleteProject`: every project with the id goes; the active id is cleared iff it is that id. */
    method DeleteProject(id: string)
      modifies this
      ensures stored == Some(Filter(old(GetAllProjects()), (q: Project) => q.id != id))
      ensures active == if old(active) == Some(id) then None else old(active)
    {
      var projects := Filter(GetAllProjects(), (q: Project) => q.id != id);
      stored := Some(projects);
      if GetActiveProjectId() == Some(id) {
        active := None;
      }
    }
  }

  /**
   * A save replaces the first project with the same id and keeps the length, or appends; no
   * other entry changes.
   */
  lemma SaveReplacesOrAppends(ps: seq<Project>, p: Project, now: string)
    ensures var r := Upsert(ps, p, now);
      if exists k :: 0 <= k < |ps| && ps[k].id == p.id then
        |r| == |ps| && exists i :: 0 <= i < |ps| && ps[i].id == p.id && r == ps[i := p.(updatedAt := now)]
                                 && forall k :: 0 <= k < i ==> ps[k].id != p.id
      else r == ps + [p]
  {
    if exists k :: 0 <= k < |ps| && ps[k].id == p.id {
      var i := FirstWithId(ps, p.id);
      UpsertAt(ps, p, now, i);
    } else {
      UpsertAppends(ps, p, now);
    }
  }

  /** The smallest position holding `id`. */
  lemma FirstWithId(ps: seq<Project>, id: string) returns (i: nat)
    requires exists k :: 0 <= k < |ps| && ps[k].id == id
    ensures i < |ps| && ps[i].id == id && forall k :: 0 <= k < i ==> ps[k].id != id
  {
    var k :| 0 <= k < |ps| && ps[k].id == id;
    i := 0;
    while ps[i].id != id
      invariant i <= k && forall j :: 0 <= j < i ==> ps[j].id != id
      decreases k - i
    {
      i := i + 1;
    }
  }

  /** A delete leaves no project with the id and keeps every other one. */
  lemma DeleteRemovesId(ps: seq<Project>, id: string)
    ensures var r := Filter(ps, (q: Project) => q.id != id);
      (forall q :: q in r ==> q.id != id) && (forall q :: q in ps && q.id != id ==> q in r)
  {
  }
}
