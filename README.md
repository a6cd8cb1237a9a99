# One-pager editor: a Dafny model

The repository is a desktop one-pager editor: a Next.js page that edits one project document, plus an Electron shell that serves the static export and saves PNG files. The document holds:

- a yearly and a quarterly Gantt chart;
- "done" and "next" lists;
- risks and artifacts;
- a goal description in Markdown.

The repository also ships a build shim for `next export` and a Python patcher. The patcher rewrites `getRangeAt(0)` calls into calls of injected "safe selection" helpers.

This project models, on values and in Dafny's terms:

- the chart operations of the Gantt component (`Gantt`), including the drag arithmetic and the row operations with their re-indexing;
- the project store kept in `localStorage` (`Storage`). The store is a class with a list field and the active id; the default document and its week headings are modelled too;
- the page (`Page`):
  - the projection of the 52-week chart onto one quarter, and the write-back of an edited quarter;
  - the keyboard shortcuts;
  - the persisted feature toggles;
  - the autosave effect;
- the risks and artifacts card (`RisksArtifacts`). Risk and artifact objects are class instances, because the card writes into array elements that the old and new arrays share;
- the "done / next" lists (`DoneNext`) and the shared context-menu formatting (`FormatMenu`);
- the Markdown editors, three generations of them:
  - the shared wrap and line-prefix toggles (`MdText`);
  - the current `MarkdownEditable` (`MarkdownEditable`);
  - the reverted textarea editor, with its selection tracking (`RevertEditor`);
  - the reverted goal description (`RevertGoalDescription`);
  - the backup goal description, with its textarea commit (`BackupGoalDescription`);
- the Electron main process (`ElectronMain`):
  - the choice of the output directory;
  - the `app://` protocol handler, including the path clamping of `safeJoin` (on top of a POSIX path model, `PosixPath`);
  - the second-instance deep link;
  - the two PNG IPC handlers;
- the browser-side full-page PNG export (`Png`): the choice between one snapshot and tiles, the tile plan, the stitching offsets, and the style restoration;
- the `next` shim (`NextShim`): the export target, the build step, the copy, and the exit status;
- the patcher `patch_selection_safe.py`:
  - `PatchRewrite`: Python's `re.sub` over the patcher's four patterns, modelled as a small regular-expression engine over atoms;
  - `PatchInject`: the helper injection after the first run of import lines;
  - `PatchMain`: the file walk, the per-file outcome and the run over the workspace.

`JsString` and `JsArray` model the JavaScript built-ins the code relies on (`slice`, `substring`, `lastIndexOf`, `split`, `join`, `filter`, `splice`, `toString`). `Wrappers` holds `Option`.

Inputs stand in for what the program reads from outside:

- the clock (`now`, `Date.now()`) and `Math.random()`;
- prompts, and `localStorage` failures;
- file existence and directory tests;
- child-process results;
- DOM sizes, and whether a rendering step throws.

Effects on the outside world are recorded as values:

- actions of the shim;
- files written by the patcher;
- the `Response` of the protocol handler;
- the result objects of the IPC handlers.

## Model

| member | source | states |
|---|---|---|
| Gantt.FirstFreeNumbered | components/mars/gantt-chart.tsx:99-107 | The counting loop returns the first `base i`, from the given start, that no row already uses; the name is fresh and every earlier candidate is taken |
| Gantt.FreshNumberedUnique | components/mars/gantt-chart.tsx:102-106 | The name the counting loop settles on is determined by the rows: two results of the loop from the same start are equal |
| Gantt.NamesBetweenSize | components/mars/gantt-chart.tsx:102-106 | The candidate names `base j` for `lo <= j < hi` are pairwise distinct, so there are exactly `hi - lo` of them; this is what bounds the loop |
| Gantt.DefaultNamesTried | components/mars/gantt-chart.tsx:99-107 | When `New Row` and `New Row 2` up to `New Row i` are all in use, `i` is at most the number of names in use, so the default-name loop ends |
| Gantt.AddRowWithDefaults | components/mars/gantt-chart.tsx:99-107 | Appends `New Row`, or else the first free `New Row i` with `i >= 2`; the new name is not among the old rows, and bars and milestones are untouched |
| Gantt.UpdateRowTitle | components/mars/gantt-chart.tsx:58-62 | Index write into a copy of the rows: an index inside the rows overwrites only that row, `idx == length` appends, and a negative index leaves the rows unchanged |
| Gantt.UpdateBarText | components/mars/gantt-chart.tsx:63-68 | No change event without a bar at `idx`; otherwise only that bar's label and text become the new text |
| Gantt.UpdateMsText | components/mars/gantt-chart.tsx:69-74 | The same for milestones: only the milestone at `idx` changes, and only its label and text |
| Gantt.AppendRow | components/mars/gantt-chart.tsx:75-80 | The module-level helper appends `Row <length + 1>` and leaves everything else as it was |
| Gantt.AppendRowMayRepeat | components/mars/gantt-chart.tsx:75-80 | Unlike the in-component `addRow`, this helper can produce a name that is already in use (shown on a concrete chart) |
| Gantt.RemoveRowAt | components/mars/gantt-chart.tsx:81-86 | No change event for an index out of range; otherwise exactly that row is dropped and bars and milestones keep their row numbers |
| Gantt.RemoveRowAtIndex | components/mars/gantt-chart.tsx:110-130 | A change event is emitted exactly when the index names an existing row; what it emits is stated by `RemoveRowAtIndexIsDeleteRow` |
| Gantt.RemoveRowAtIndexIsDeleteRow | components/mars/gantt-chart.tsx:110-130 | For a row that exists, `removeRowAtIndex` produces exactly the chart that `deleteRow` produces |
| Gantt.RemoveRowAtSkipsReindex | components/mars/gantt-chart.tsx:81-86 | `removeRowAt` drops the same row as `removeRowAtIndex`, but leaves every bar and milestone unchanged, so items below the row end up on a different row |
| Gantt.CreateBar | components/mars/gantt-chart.tsx:309-318 | Appends one green one-column `New Task` bar without a text at the clicked cell; rows, milestones and the earlier bars are unchanged |
| Gantt.AddMilestone | components/mars/gantt-chart.tsx:320-327 | Appends one `Milestone` without a text at the given column, on the given row or on none; nothing else changes |
| Gantt.DeleteBar | components/mars/gantt-chart.tsx:329-333 | Drops exactly the bar at `idx` (nothing when out of range) and keeps the others in order |
| Gantt.DeleteMs | components/mars/gantt-chart.tsx:335-339 | Drops exactly the milestone at `idx` and keeps the others in order |
| Gantt.DeleteCreatedBar | components/mars/gantt-chart.tsx:309-333 | Deleting the bar that `createBar` just appended gives back the original chart |
| Gantt.DeleteAddedMilestone | components/mars/gantt-chart.tsx:320-339 | Deleting the milestone that `addMilestone` just appended gives back the original chart |
| Gantt.ChangeBarStatus | components/mars/gantt-chart.tsx:341-345 | Only the status of the bar at `idx` changes; every other field and every other bar stays |
| Gantt.AddRow | components/mars/gantt-chart.tsx:347-357 | Appends the first free `Row i` with `i >= length + 1`; the name is fresh and nothing else changes |
| Gantt.AddRowAbove | components/mars/gantt-chart.tsx:359-387 | Inserts the first free `Row i` (`i >= idx + 1`) at `idx`, and moves bars and milestones on rows `>= idx` down one row |
| Gantt.AddRowBelow | components/mars/gantt-chart.tsx:389-417 | Inserts the first free `Row i` (`i >= idx + 2`) after `idx`, and moves items on rows `> idx` down one row |
| Gantt.InsertRowAboveKeepsNames | components/mars/gantt-chart.tsx:359-387 | After an insertion the new name is at `idx`, and every bar and milestone sits on the row with the same name as before, otherwise unchanged |
| Gantt.InsertRowBelowIsAbove | components/mars/gantt-chart.tsx:389-417 | `addRowBelow(idx)` puts the row where `addRowAbove(idx + 1)` would |
| Gantt.DeleteInsertedRow | components/mars/gantt-chart.tsx:359-434 | Deleting the row just inserted above `idx` gives back the original chart |
| Gantt.DeleteInsertedRowBelow | components/mars/gantt-chart.tsx:389-434 | Deleting the row just inserted below `idx` gives back the original chart |
| Gantt.RaisedBarsKept | components/mars/gantt-chart.tsx:359-387 | Once rows from `idx` have moved down, no bar is on row `idx` (the new row starts empty) |
| Gantt.RaisedMilestonesKept | components/mars/gantt-chart.tsx:359-387 | Once rows from `idx` have moved down, no milestone is on row `idx` |
| Gantt.DeleteRowBarsFit | components/mars/gantt-chart.tsx:419-434 | After `deleteRow` on a valid chart, every bar is on an existing row and within the columns |
| Gantt.DeleteRowBarsKept | components/mars/gantt-chart.tsx:419-434 | `deleteRow` keeps exactly the bars that are not on the deleted row, each moved up one row when it was below it |
| Gantt.DeleteRowNames | components/mars/gantt-chart.tsx:419-434 | A row that survives `deleteRow` keeps its name at its new index |
| Gantt.DeleteRowBarNames | components/mars/gantt-chart.tsx:419-434 | Every bar kept by `deleteRow` is on the row with the same name as before |
| Gantt.DeleteRowMilestonesFit | components/mars/gantt-chart.tsx:419-434 | After `deleteRow`, every milestone is on an existing row or on none, and within the columns |
| Gantt.DeleteRowMilestonesKept | components/mars/gantt-chart.tsx:419-434 | `deleteRow` keeps exactly the milestones not on the deleted row, each moved up when below it; milestones on no row stay as they are |
| Gantt.DeleteRowMilestoneNames | components/mars/gantt-chart.tsx:419-434 | Every milestone kept on a row is on the row with the same name as before |
| Gantt.DeleteRowKeepsValid | components/mars/gantt-chart.tsx:419-434 | Deleting an existing row keeps a valid chart valid, the "now" column included |
| Gantt.EditRowLabel | components/mars/gantt-chart.tsx:436-440 | The unchecked index write: an index inside the rows overwrites only that row, `idx == length` appends, and a negative index leaves the rows unchanged; nothing else changes |
| Gantt.EditBarLabel | components/mars/gantt-chart.tsx:442-446 | Only the caption of the bar at `idx` changes |
| Gantt.EditMsLabel | components/mars/gantt-chart.tsx:448-452 | Only the caption of the milestone at `idx` changes |
| Gantt.EditTickLabel | components/mars/gantt-chart.tsx:454-458 | The heading at `idx` becomes the plain string; the other headings and the rest of the chart stay |
| Gantt.EditRowTitle | components/mars/gantt-chart.tsx:906-913 | A cancelled prompt changes nothing; otherwise the reply is written at `idx` without a range check |
| Gantt.EditBarText | components/mars/gantt-chart.tsx:915-923 | Without a bar at `idx`, or when the prompt is cancelled, nothing changes; otherwise that bar is renamed |
| Gantt.EditMsText | components/mars/gantt-chart.tsx:925-933 | The same for milestones |
| Gantt.ClampCol | components/mars/gantt-chart.tsx:258 | The pointer column is clamped into `[0, n - 1]` (to 0 when there are no columns) |
| Gantt.DragTo | components/mars/gantt-chart.tsx:243-287 | One pointer move over column `col`, clamped to the columns: a moved bar starts there and keeps its width up to the last column; a left resize puts the start there but not past the finish, a right resize the finish but not before the start; a milestone gets that column as `at`, the now-line as `nowCol`; a bar drag whose bar is gone changes nothing; every other item is unchanged |
| Gantt.MoveBarStaysInside | components/mars/gantt-chart.tsx:260-267 | With at least one column, a moved bar that ran left to right still does, within the columns |
| Gantt.MoveBarKeepsWidth | components/mars/gantt-chart.tsx:260-267 | A move keeps the bar's width whenever the last column leaves room for it |
| Gantt.ResizeKeepsOrder | components/mars/gantt-chart.tsx:268-276 | A resize never lets one end of a bar pass the other, whatever the bar was before |
| Gantt.DragKeepsValid | components/mars/gantt-chart.tsx:243-287 | Every drag step keeps a valid chart valid |
| Storage.WeekToPeriod | lib/storage.ts:17 | The period is at most 13, at least 1 for a week that is not negative, and exactly 13 from week 48 on |
| Storage.WeekToPeriodBlocks | lib/storage.ts:14-17 | Weeks 0..51 map onto periods 1..13; below week 48, period `p` takes weeks `4(p-1)` to `4p-1` |
| Storage.DefaultQuarterLabels | lib/storage.ts:119-129 | The default quarter chart has 52 headings, and heading `i` is the label of week `i` |
| Storage.DefaultQuarterLabelShape | lib/storage.ts:119-129 | Heading `i` is two-line: on top `P` and two more characters, below `<month> \| W<week>` with the week counting 1..4 by `i % 4`; the month is the quarter's month for the four-week block, and `Dec` from week 48 on |
| Storage.DefaultChartsValid | lib/storage.ts:87-138 | Both charts of a new project are valid (every bar, milestone and now-line lies on the grid), and the first quarter is selected |
| Storage.CreateNewProject | lib/storage.ts:70-168 | A new project carries the given name, the template or else the default document with that project name, an id starting with `project-`, the creation and update stamps of their own clock readings, and, for the default document, the month of a third reading |
| Storage.FindIndex | lib/storage.ts:50 | The loop returns the first position holding the id, or -1 exactly when the id is absent |
| Storage.UpsertAt | lib/storage.ts:52-53 | When the id is present, the save is an index write at its first position, stamped with `now` |
| Storage.UpsertAppends | lib/storage.ts:54-55 | When the id is absent, the save is a `push` of the project unchanged |
| Storage.UpsertKeepsIdsUnique | lib/storage.ts:48-59 | Saving into a list of distinct ids keeps the ids distinct, and the saved id is then present |
| Storage.UpsertIds | lib/storage.ts:48-59 | After a save, every project is the saved one or was there before |
| Storage.SaveReplacesOrAppends | lib/storage.ts:52-56 | A save either replaces the first project with the same id and keeps the length, or appends; no other entry changes |
| Storage.DeleteRemovesId | lib/storage.ts:61-68 | A delete leaves no project with the id and keeps every other project, in order |
| Storage.ProjectStore.GetAllProjects | lib/storage.ts:33-37 | The stored list, or the empty list when nothing is stored |
| Storage.ProjectStore.SetActiveProjectId | lib/storage.ts:44-46 | The active id becomes `id` and the project list is unchanged |
| Storage.ProjectStore.SaveProject | lib/storage.ts:48-59 | The stored list becomes the upsert of the project into the old list; the active id is unchanged |
| Storage.ProjectStore.DeleteProject | lib/storage.ts:61-68 | Every project with the id is removed; the active id is cleared exactly when it was that id |
| Page.QuarterSizes | app/page.tsx:56-61 | The four quarter ranges last 12, 12, 12 and 16 weeks and tile weeks 0..51 in order, without gaps |
| Page.QuarterLabels | app/page.tsx:296-307 | The quarter view has one heading per week of the quarter |
| Page.QuarterLabelsMatchDefault | app/page.tsx:296-307 | The headings the view computes are exactly the new-project headings of the quarter's weeks |
| Page.QuarterHeadingsMatchDefault | app/page.tsx:296-307 | The same, on the structured headings (period, month and week) |
| Page.ViewMonthIsDefault | app/page.tsx:300-301 | Week `i` of a quarter is named after the same month in the view as in the full-year chart, the fourth quarter's last weeks included |
| Page.GetQuarterGanttData | app/page.tsx:289-331 | Without data the view is the empty chart; with data there is a view exactly when the selected quarter is in 0..3 (`quarterRanges[q]` is otherwise undefined); its contents are stated by the three lemmas below |
| Page.QuarterViewBars | app/page.tsx:309-315 | The view holds exactly the bars whose start lies in the quarter, each shifted left by the quarter's first week and cut at its last week |
| Page.QuarterViewMilestones | app/page.tsx:317-322 | The view holds exactly the milestones inside the quarter, shifted left by its first week |
| Page.QuarterViewValid | app/page.tsx:289-331 | The view of a valid chart is a valid chart (every bar, milestone and now-line on its grid) with one heading per week of the quarter and the chart's rows |
| Page.HandleQuarterGanttChange | app/page.tsx:349-389 | Without data nothing changes; with data only the quarter chart changes, and it keeps its headings; the written-back contents are stated by the lemmas below |
| Page.WriteBackKeepsOutside | app/page.tsx:373-386 | The bars and milestones outside the quarter come first, unchanged and in order; the view's items follow, shifted right by the quarter's first week |
| Page.ShiftedBars | app/page.tsx:362-366 | The write-back shift moves both ends of every bar right by the same amount and changes nothing else |
| Page.InsideBarRoundTrip | app/page.tsx:309-366 | A bar lying wholly inside the quarter comes back unchanged from projection and write-back |
| Page.UneditedWriteBack | app/page.tsx:349-389 | Writing back an unedited view gives the chart back up to order: the same bars and milestones as multisets, the same rows, and the same now-column when it lies in the quarter, for bars that end by the quarter's last week |
| Page.ViewOfWriteBack | app/page.tsx:349-389 | Every edit made to a valid view survives: projecting the written-back chart again gives the edited view, headings aside |
| Page.ShiftedBarsInside | app/page.tsx:362-374 | Of the written-back bars, exactly the view's (shifted) start inside the quarter |
| Page.ShiftedMilestonesInside | app/page.tsx:368-374 | Of the written-back milestones, exactly the view's (shifted) lie inside the quarter |
| Page.Shortcut | app/page.tsx:392-457 | The key handler's if-chain: with the platform modifier, `4` exports (with Shift: Save As), `z` undoes, Shift+`z` or `y` redoes, and `s`, `e`, `p`, `n` map to their commands; everything else does nothing |
| Page.ShortcutNeedsModifier | app/page.tsx:393-394 | Only the platform's own modifier counts: Ctrl on a Mac and Cmd elsewhere trigger nothing |
| Page.NewProjectName | app/page.tsx:449-456 | A cancelled prompt or an empty name creates no project; any other reply creates one with that name |
| Page.FlagString | app/page.tsx:101 | A toggle is stored as `1` or `0` |
| Page.ReadFlag | app/page.tsx:92-95 | An absent key keeps the current value; a stored value reads as true exactly when it is `1` |
| Page.FlagRoundTrip | app/page.tsx:92-106 | A persisted toggle reads back as the same boolean, whatever the current value |
| Page.FeatureToggles.Load | app/page.tsx:90-97 | The mount effect: when storage is available each stored key overrides its toggle and an absent key leaves it; when it is not, both toggles stay; storage is not written |
| Page.FeatureToggles.SetShowTP | app/page.tsx:99-102 | The `tp` toggle takes the value and the other stays; `tp` is stored as its flag string when storage is available, and storage is left alone when it is not |
| Page.FeatureToggles.SetShowComments | app/page.tsx:104-107 | The same for `comments` |
| Page.PersistThenReload | app/page.tsx:90-107 | Setting both toggles and then loading the page again shows each toggle as it was set |
| Page.Autosaver.Mounted | app/page.tsx:179-201 | After the mount effect, the loaded project's serialised data counts as saved and the first render is over |
| Page.Autosaver.OnDataChange | app/page.tsx:203-222 | The data-change effect saves nothing on the first render, without a project, data or history, or when the data matches what was last saved; otherwise the page's project takes the new data and the first clock reading, the store upserts it stamped with a second reading of its own, and that data is recorded as saved |
| Page.SaveIsIdempotent | app/page.tsx:203-209 | Once a change is saved, the same data arriving again is not saved a second time, whatever the clock then reads |
| RisksArtifacts.ImpactLabel | components/mars/risks-artifacts.tsx:174-183 | Green is `Low`, yellow `Medium`, red `High` |
| RisksArtifacts.ImpactColor | components/mars/risks-artifacts.tsx:163-172 | Each impact has its own text colour class |
| RisksArtifacts.ImpactLabelInjective | components/mars/risks-artifacts.tsx:174-183 | Different impacts never share a label |
| RisksArtifacts.RisksCard.AddRisk | components/mars/risks-artifacts.tsx:112-117 | A fresh risk object with the default texts and yellow impact is appended; old elements keep their values |
| RisksArtifacts.RisksCard.RemoveRisk | components/mars/risks-artifacts.tsx:119-121 | The list without position `idx`; an index out of range removes nothing |
| RisksArtifacts.RisksCard.UpdateRisk | components/mars/risks-artifacts.tsx:123-127 | The element at `idx` itself is rewritten, in the new and old arrays alike, with only that field changed; out of range the write throws and nothing changes |
| RisksArtifacts.UpdateSeenThroughOldArray | components/mars/risks-artifacts.tsx:123-127 | A reference to the array taken before `updateRisk` reads the new value afterwards, because the shallow copy shares the element |
| RisksArtifacts.RisksCard.ImpactClick | components/mars/risks-artifacts.tsx:129-137 | A right click, or Ctrl with the main button, opens the impact menu for that risk; any other click leaves the menu as it was |
| RisksArtifacts.RisksCard.ChooseImpact | components/mars/risks-artifacts.tsx:156-161 | With the impact menu open on an existing risk, that risk alone takes the impact and the menu closes; when the menu's risk no longer exists, the update throws first, so the risks are unchanged and the menu stays open; without a menu nothing happens |
| RisksArtifacts.RisksCard.AddArtifact | components/mars/risks-artifacts.tsx:185-190 | A fresh artifact with the default caption and `#` is appended |
| RisksArtifacts.RisksCard.RemoveArtifact | components/mars/risks-artifacts.tsx:192-194 | The list without position `idx` |
| RisksArtifacts.RisksCard.UpdateArtifact | components/mars/risks-artifacts.tsx:196-200 | The shared artifact at `idx` has that field rewritten; out of range nothing changes |
| RisksArtifacts.RisksCard.ContextMenu | components/mars/risks-artifacts.tsx:202-214 | The format menu opens on the field exactly when there is a non-empty selection, and not otherwise |
| RisksArtifacts.RisksCard.HandleFormat | components/mars/risks-artifacts.tsx:216-260 | Nothing happens without a selection or a target, when a link gets no URL, or when the index names no element; otherwise the target field becomes its text before the range, the formatted selection, and its text after the range |
| RisksArtifacts.RisksCard.ApplyFormat | components/mars/risks-artifacts.tsx:247-259 | The write for a known target: the risk text, the mitigation or the artifact caption at the index is spliced, and nothing else changes |
| DoneNext.WithItemsKeepsRest | components/mars/done-next.tsx:53-79 | Replacing one list leaves the other list, and every other field of the document, as it was |
| DoneNext.AddItem | components/mars/done-next.tsx:53-59 | The default item goes at the end of the chosen list; nothing else changes |
| DoneNext.RemoveItem | components/mars/done-next.tsx:61-67 | The chosen list without position `idx`; out of range nothing goes |
| DoneNext.RemoveAfterAdd | components/mars/done-next.tsx:53-67 | Removing the item just added gives the document back |
| DoneNext.Assigned | components/mars/done-next.tsx:69-79 | An index write into a copy: inside the list it overwrites one item, just past the end it appends, and a negative index changes nothing |
| DoneNext.AssignedRestores | components/mars/done-next.tsx:69-79 | Writing the old item back undoes an overwrite |
| DoneNext.AssignAt | components/mars/done-next.tsx:70-71 | The spread copy and index write on an array give exactly the `Assigned` list |
| DoneNext.UpdateItem | components/mars/done-next.tsx:69-79 | The document with the chosen list's copy written at `idx` and the other list unchanged |
| DoneNext.ContextMenu | components/mars/done-next.tsx:81-93 | The menu opens on the item exactly over a non-empty selection |
| DoneNext.Formatting | components/mars/done-next.tsx:95-135 | No update without a selection, a list or an index, when a link gets no URL, or when the index names no item; otherwise the menu's list with that item spliced |
| DoneNext.HandleFormat | components/mars/done-next.tsx:95-135 | The document after `handleFormat` is the `Formatting` result written through `updateDone` or `updateNext` |
| DoneNext.FormatDoneUndone | components/mars/done-next.tsx:95-135 | Any format but a link over `[start, end)` of a "done" item applies, keeps the list's length, and is undone by the textarea toggle on the formatted text |
| FormatMenu.Formatted | components/mars/done-next.tsx:99-120 | Bold, italic, underline and code put their markers around the selected text; a link without a URL gives nothing, and with one gives `[text](url)` |
| FormatMenu.Splice | components/mars/done-next.tsx:128 | For bounds within the value, the result is the text before `start`, the formatted text, and the text from `end` |
| FormatMenu.SpliceUndoneByToggle | components/mars/done-next.tsx:128 | When the selection is the value's `[start, end)`, a wrapping format spliced in is undone by the editors' toggle: the value comes back |
| MdText.SurroundedMeans | _panic_revert_1761501226/components/MarkdownEditable.tsx:103-104 | On a valid selection, the `hasLeft && hasRight` test holds exactly when both markers are really next to the selection |
| MdText.ToggleWrap | _panic_revert_1761501226/components/MarkdownEditable.tsx:99-119 | Surrounded: the markers are removed; otherwise they are added. Either way the new selection covers the same characters as before |
| MdText.WrapThenToggle | _panic_revert_1761501226/components/MarkdownEditable.tsx:99-119 | Wrapping and then toggling again restores the original text and selection |
| MdText.UnwrapThenToggle | _panic_revert_1761501226/components/MarkdownEditable.tsx:99-119 | Unwrapping and then toggling again restores the original, unless the unwrapped text is itself surrounded by markers |
| MdText.LineStart | _panic_revert_1761501226/components/MarkdownEditable.tsx:125 | The corrected line start: 0 on the first line, otherwise one past a newline, and never past the caret |
| MdText.LineEnd | _panic_revert_1761501226/components/MarkdownEditable.tsx:126 | The next newline at or after `i`, or the text's end; no newline lies in between |
| MdText.ToggleLines | _panic_revert_1761501226/components/MarkdownEditable.tsx:130-136 | When every line carries the prefix, it is stripped from all of them; otherwise every non-blank line ends up carrying it and blank lines stay |
| MdText.ToggleLinesTwice | _panic_revert_1761501226/components/MarkdownEditable.tsx:130-136 | On non-blank lines none of which carries a non-empty prefix, toggling twice gives the lines back |
| MdText.PrefixToggleAtTwice | _panic_revert_1761501226/components/MarkdownEditable.tsx:121-140 | Toggling a prefix on a region, then on the region the result occupies, gives the text back, for non-blank lines lacking the one-line prefix |
| MdText.PrefixToggle | _panic_revert_1761501226/components/MarkdownEditable.tsx:121-140 | The region toggled runs over whole lines: it starts at or before the selection's start, ends at or after its end, and is the text between those points |
| MdText.PrefixToggleFrame | _panic_revert_1761501226/components/MarkdownEditable.tsx:127-139 | The text before the first covered line and after the last is unchanged, and the length changes by exactly the region's change |
| MdText.ActionOfInjective | _panic_revert_1761501226/components/MarkdownEditable.tsx:174-182 | The seven toolbar commands do seven different things: no two share an action |
| MdText.LineStartAsWritten | _panic_revert_1761501226/components/MarkdownEditable.tsx:125 | The line start as written lies within the text, not past the caret after position 0, and equals the corrected line start except at offset 0 or before of a text opening with a newline, where it is 1 |
| MdText.AsWrittenLineStartPastCaret | _panic_revert_1761501226/components/MarkdownEditable.tsx:125 | With the caret at 0 in a text opening with a newline, the line start as written is 1, past the caret |
| MdText.AsWrittenPrefixDoublesNewline | _panic_revert_1761501226/components/mars/goal-description.tsx:55-82 | As written, the H1 command with the caret at 0 of `"\nab"` gives `"\n\nab"`: the leading newline is doubled |
| MdText.PrefixToggleAsWritten | _panic_revert_1761501226/components/MarkdownEditable.tsx:121-140 | The text before the as-written line start and from the line end on surround the toggled region; the region is the text between them, or empty when the start lies past the end |
| MdText.PrefixToggleAsWrittenAgrees | _panic_revert_1761501226/components/MarkdownEditable.tsx:125 | Off offset 0 of a text opening with a newline, the as-written and the corrected toggle are the same |
| MdText.PrefixToggleAsWrittenFrame | _panic_revert_1761501226/components/MarkdownEditable.tsx:127-139 | The as-written toggle keeps the text before its line start and after its line end, and its length is the two kept pieces plus the new region |
| MdText.AsWrittenStripsAfterBlankLine | _panic_revert_1761501226/components/MarkdownEditable.tsx:125-136 | As written, H1 over `[0, 5]` of `"\n# ab"` leaves the empty first line out of the region and strips the heading: `"\nab"` |
| MdText.CorrectedKeepsAfterBlankLine | _panic_revert_1761501226/components/MarkdownEditable.tsx:125-136 | The corrected region over the same selection takes in the empty line, and the text stays `"\n# ab"` |
| MdText.KeepsUnderBlankLine | _panic_revert_1761501226/components/MarkdownEditable.tsx:125-136 | A newline followed by one line that already carries the prefix comes back unchanged from the corrected toggle over the whole text |
| MdText.LineStartAtCaret | _panic_revert_1761501226/components/MarkdownEditable.tsx:125 | The corrected line start at offset 0 of `"\nab"` is 0, and the H1 command leaves that text as it is, its first line being blank |
| MarkdownEditable.Wrap | components/MarkdownEditable.tsx:30-45 | The markers go around the selection (or the placeholder `text` when it is empty), and the restored selection covers exactly the wrapped text |
| MarkdownEditable.WrapEmptySelection | components/MarkdownEditable.tsx:35-37 | With an empty selection, the markers go around the placeholder at the caret |
| MarkdownEditable.WrapUndoneByToggle | components/MarkdownEditable.tsx:30-45 | On a non-empty selection, the shared toggle applied to the wrapped result gives back the original text and selection |
| MarkdownEditable.PrefixLines | components/MarkdownEditable.tsx:48-65 | The loop with its running offset returns the per-line result: touched lines lacking the prefix get it, and every other line stays |
| MarkdownEditable.LineOffsetsArePositions | components/MarkdownEditable.tsx:53-59 | The offsets the running counter produces are real positions: line `k` occupies `[offset, offset + length)` of the text |
| MarkdownEditable.PrefixLinesKeepsLines | components/MarkdownEditable.tsx:54-63 | For a prefix without a newline, the output has as many lines as the input, and they are the per-line results |
| MarkdownEditable.ToggleModeTwice | components/MarkdownEditable.tsx:141 | The mode button switches edit and preview, and pressing it twice returns to the starting mode |
| RevertEditor.StableRange | _panic_revert_1761501226/components/MarkdownEditable.tsx:91-97 | The current selection when it is non-empty, else the last non-empty one, else none |
| RevertEditor.StableRangeNonEmpty | _panic_revert_1761501226/components/MarkdownEditable.tsx:91-97 | A stable range is never empty |
| RevertEditor.Hotkey | _panic_revert_1761501226/components/MarkdownEditable.tsx:143-149 | With Ctrl or Cmd held, `b` (either case) wraps in `**` and `i` in `*`; anything else does nothing |
| RevertEditor.MarkdownEditor.Receive | _panic_revert_1761501226/components/MarkdownEditable.tsx:31-33 | A new value from the parent replaces the local text, an absent one giving the empty text; the selections, the queued selection and the reported values stay |
| RevertEditor.MarkdownEditor.SelectionChanged | _panic_revert_1761501226/components/MarkdownEditable.tsx:50-59 | With focus, the listener records the selection, and records the non-empty selection only when its ends differ; without focus nothing changes |
| RevertEditor.MarkdownEditor.ApplyChange | _panic_revert_1761501226/components/MarkdownEditable.tsx:82-89 | The text is set, the selection is queued, and the text is reported; the tracked selections stay |
| RevertEditor.MarkdownEditor.ToggleWrap | _panic_revert_1761501226/components/MarkdownEditable.tsx:99-119 | The shared wrap toggle on the stable range; without one, nothing happens |
| RevertEditor.MarkdownEditor.TogglePrefix | _panic_revert_1761501226/components/MarkdownEditable.tsx:121-140 | The prefix toggle, with the line start as written, on the lines the stable range touches; the text is emitted, the selection keeps its start and its end moves by the change in length; without a range nothing happens |
| RevertEditor.MarkdownEditor.KeyDown | _panic_revert_1761501226/components/MarkdownEditable.tsx:143-149 | The key handler performs the hotkey's action and nothing else |
| RevertEditor.MarkdownEditor.RestoreSelection | _panic_revert_1761501226/components/MarkdownEditable.tsx:36-59 | After a render with a changed text, the queued selection is taken off; with the textarea mounted it is set as `setSelectionRange` clamps it, and the listener records it as the latest selection, and as the latest non-empty one when non-empty. With the text unchanged or nothing queued, nothing happens |
| RevertEditor.BoldThenRestore | _panic_revert_1761501226/components/MarkdownEditable.tsx:36-149 | After Ctrl+B on a selection and the restore that follows, the command range is exactly the wrapped text, so a second Ctrl+B works on the same characters |
| RevertEditor.SelectThenBold | _panic_revert_1761501226/components/MarkdownEditable.tsx:50-149 | Selecting a non-surrounded range and pressing Ctrl+B wraps exactly the selected text in `**` |
| RevertGoalDescription.ApplyInlineWrap | _panic_revert_1761501226/components/mars/goal-description.tsx:27-53 | Nothing on an empty selection; a selection already surrounded by the markers loses them, the selection moving left by the opening marker; otherwise the markers go around it and the selection moves right |
| RevertGoalDescription.InlineWrapTwice | _panic_revert_1761501226/components/mars/goal-description.tsx:27-53 | A wrap applied from the menu is undone by applying the same command again |
| RevertGoalDescription.ApplyPrefix | _panic_revert_1761501226/components/mars/goal-description.tsx:55-82 | The prefix toggle with the line start as written, over the lines the selection touches, also on an empty selection; the new selection starts at the old start and spans the new region's length |
| RevertGoalDescription.ApplyPrefixKeepsOutside | _panic_revert_1761501226/components/mars/goal-description.tsx:62-76 | The text before the as-written line start is kept, the untouched tail from the last line's end follows the new region, and the new text is exactly those three pieces |
| RevertGoalDescription.ApplyPrefixSelectionLands | _panic_revert_1761501226/components/mars/goal-description.tsx:78-81 | The textarea ends with the selection start at `s` and its end at `s + newMiddle.length`, each as far as the new text reaches; it keeps the pair as passed exactly when that end fits in the new text |
| RevertGoalDescription.ApplyPrefixSelectionClamped | _panic_revert_1761501226/components/mars/goal-description.tsx:55-82 | H1 with the caret at the end of `"ab"` passes `(2, 6)` on the four characters of `"# ab"`, and the textarea ends with `(2, 4)` |
| RevertGoalDescription.ApplyPrefixAgrees | _panic_revert_1761501226/components/mars/goal-description.tsx:62 | Unless the caret is at 0 of a text opening with a newline, `applyPrefix` gives the corrected toggle's text |
| RevertGoalDescription.OnCommand | _panic_revert_1761501226/components/mars/goal-description.tsx:84-94 | The command table: bold and italic go through the inline wrap with their marker, the headings and lists through `applyPrefix` with the line start as written |
| RevertGoalDescription.BoldWraps | _panic_revert_1761501226/components/mars/goal-description.tsx:84-86 | Bold on a selection that is not yet bold puts `**` on both sides of it |
| BackupGoalDescription.HandleFormat | _fix_goaldesc_backup_1761500996/goal-description.tsx:43-79 | Nothing without a selection or target field, or when a link gets no URL; otherwise only the target field is spliced |
| BackupGoalDescription.FormatGoalUndone | _fix_goaldesc_backup_1761500996/goal-description.tsx:43-79 | A wrapping format over the goal's `[start, end)` is undone by the textarea toggle on the formatted goal |
| TextareaSelection.SelectionOffset | _fix_goaldesc_backup_1761500996/goal-description.tsx:84 | `setSelectionRange` converts its argument to an unsigned 32-bit integer and clamps it to the length, so the result lies in `[0, len]` and is the argument when that already does |
| TextareaSelection.SetSelectionRange | _fix_goaldesc_backup_1761500996/goal-description.tsx:84 | The selection a textarea ends with lies in `[0, len]`, start not past end: the end clamped, then the start clamped and moved to the end when past it; an ordered in-range pair is kept as given |
| TextareaSelection.SetSelectionRangeOrdered | _panic_revert_1761501226/components/mars/goal-description.tsx:80 | For an ordered pair below 2^32, the end is cut to the length and the start to that end, and the pair is kept exactly when its end fits |
| BackupGoalDescription.Textarea.Commit | _fix_goaldesc_backup_1761500996/goal-description.tsx:83-86 | The value becomes the text, and the selection becomes the clamped pair, start not past end |
| BackupGoalDescription.Textarea.MdWrap | _fix_goaldesc_backup_1761500996/goal-description.tsx:87-101 | The shared toggle on a non-empty selection; nothing on an empty one |
| BackupGoalDescription.Textarea.MdPrefix | _fix_goaldesc_backup_1761500996/goal-description.tsx:102-115 | The prefix toggle with the line start as written, committed with one input event, the selection end moved by the change in length and clamped |
| BackupGoalDescription.MdApply | _fix_goaldesc_backup_1761500996/goal-description.tsx:117-126 | Without a textarea nothing happens. Bold and italic wrap a non-empty selection, fire one input event and select the toggled text; on an empty selection they change nothing, the selection included. The headings and lists apply the as-written prefix toggle with one input event, keep the selection start and move its end by the change in length, both clamped to the new text |
| ElectronMain.PickFirstExisting | electron/main.js:44-49 | The loop returns the first path that exists; when none does, the first path, and nothing for no paths |
| ElectronMain.OutDirLayout | electron/main.js:51-56 | The candidates resolve to the `out` directory beside the script's parent, then under `app.asar.unpacked`, `app.asar` and `app` in the resources directory, in that order |
| ElectronMain.ResolveOutDir | electron/main.js:50-59 | The result is the first candidate that exists, in the order beside the script, `app.asar.unpacked`, `app.asar`, `app`; when none exists, it is the one beside the script |
| PosixPath.SafeJoinStack | electron/main.js:60-64 | The segments of `safeJoin(root, u)` are the root's followed by names only: no `..` survives |
| PosixPath.SafeJoinInside | electron/main.js:60-64 | Whatever the URL path, `safeJoin` lies inside the directory the root names |
| PosixPath.StripUpNoUp | electron/main.js:62 | Dropping the leading `..` segments of a normalized relative path leaves no `..` at all |
| PosixPath.RelNames | electron/main.js:61-62 | The part `safeJoin` keeps resolves to names only |
| PosixPath.StackOfNormalize | electron/main.js:62-63 | Normalizing an absolute path does not change its resolved segments |
| PosixPath.JoinName | electron/main.js:77 | Joining a name onto an absolute path adds exactly that segment |
| ElectronMain.RoutePath | electron/main.js:76-112 | The decision tree: the root and `/index.html` give the page; an existing path is served, a directory by its `index.html`; otherwise `<path>.html` if it exists; a missing asset fails with -6; anything else gives the page |
| ElectronMain.Route | electron/main.js:68-117 | A URL that does not parse or decode fails with -2, and only then; otherwise the answer is the decision tree's for the decoded path, `/` for an empty one |
| ElectronMain.MissingAssetNotFound | electron/main.js:103-108 | A missing `_next`, `.js` or `.css` asset is answered with -6 and never with the page |
| ElectronMain.RoutesInside | electron/main.js:76-112 | Whatever is served lies inside the output directory, except that when the output directory itself is missing, the sibling `<out>.html` can be served |
| ElectronMain.FirstDeepLink | electron/main.js:25 | None exactly when no argument starts with `onepager://`; otherwise the first argument that does |
| ElectronMain.SecondInstance | electron/main.js:21-28 | Without a window nothing happens; otherwise a minimized window is restored and the window is focused; what is sent is a deep link among the arguments, and one is sent whenever an argument is a deep link |
| ElectronMain.PayloadOf | electron/main.js:195 | The payload of a PNG data URL is the text after the prefix up to the first comma, so comma-free base64 text comes back whole |
| ElectronMain.DefaultSaveName | electron/main.js:200 | The suggested name when one is given and it is not empty; the name is never empty |
| ElectronMain.SavePng | electron/main.js:190-210 | A missing or non-PNG data URL gives `Invalid dataURL` before any dialog; a dismissed dialog cancels; a write error is reported; otherwise the payload goes to the chosen path |
| ElectronMain.SavePngWritesPayload | electron/main.js:192-206 | A data URL built from comma-free base64 text, saved to a chosen path, writes exactly that text |
| ElectronMain.ExportFullPagePng | electron/main.js:212-230 | Without a window the result is the `No window` error; with one, a dismissed dialog cancels, a confirmed one without a write error saves the captured page to the chosen path, and a write error is returned as the error |
| Png.ContentSize | lib/png.ts:40-49 | The capture extent is the largest of the three scroll sizes, and is one of them |
| Png.TileHeight | lib/png.ts:117 | The tile height is positive and at most 2000; 1200 when the window height is unknown, else the window height capped at 2000 |
| Png.CeilDiv | lib/png.ts:119 | The tile count `r` satisfies `(r - 1) * tileH < height <= r * tileH` for a positive height, and is 0 for height 0 |
| Png.TilePlan | lib/png.ts:121-132 | The loop asks for `ceil(height / tileH)` tiles; tile `i` starts at `i * tileH` and is `min(tileH, height - top)` tall |
| Png.TileHeights | lib/png.ts:122-126 | Every tile is at least one pixel tall, all but the last are a full `tileH`, and the last ends at the page's bottom |
| Png.DrawOffsets | lib/png.ts:138-149 | Each image is drawn at the sum of the heights before it, and the final offset is the sum of all the heights |
| Png.TilesStack | lib/png.ts:138-149 | Stacking tile `0 .. i - 1` reaches `i * tileH`, and stacking all of them reaches the page height |
| Png.PlanCovers | lib/png.ts:117-149 | The tiles cover the page without gap or overlap: the heights add up to the page height, and each tile is drawn at its own top |
| Png.Page.ExportFullPage | lib/png.ts:23-93 | Without a root nothing is touched and the error names the selector. Otherwise the capture runs with scrolling hidden and the root stretched to the content. It is a single snapshot up to 28000 pixels and the tile plan beyond, and a throwing step gives an error. On every way out the four styles are restored |
| NextShim.OutFlagIndex | scripts/next-shim.cjs:36 | -1 exactly when no argument is an output option; otherwise the first position that is one |
| NextShim.ExportTarget | scripts/next-shim.cjs:35-41 | The value after the first output option when it is usable, else a usable first argument, else `out`; the target is never empty and never starts with `-` |
| NextShim.DefaultTargetIsDefaultOut | scripts/next-shim.cjs:35-44 | Without arguments the target is `out`, which resolves to the default output directory, so nothing is copied |
| NextShim.OutFlagWins | scripts/next-shim.cjs:36-41 | The value after `-o` wins over the first argument, except when that argument is itself an output option, whose value `-o` is refused, leaving `out` |
| NextShim.Forward | scripts/next-shim.cjs:19-32 | An unresolvable CLI exits 1 without running anything; otherwise `next` runs once, and the exit status is the child's, or 1 when it failed to start, else 0 |
| NextShim.Export | scripts/next-shim.cjs:34-70 | The build runs exactly when the output is missing and the CLI resolves. A failing build exits with its status. Missing output after the build exits non-zero without copying. Otherwise a target equal to the default output exits 0 without copying; a target nested in it, or holding it, is removed and recreated, and the copy then throws, exiting 1; any other target is replaced by a copy, exiting 0 |
| NextShim.CopyIntoOutputRefused | scripts/next-shim.cjs:43-67 | `export out/sub` resolves to a directory inside the default output, so its copy is refused |
| NextShim.CopyOverOutputRefused | scripts/next-shim.cjs:43-67 | `export .` resolves to the project root, which holds the default output, so its copy is refused |
| NextShim.Shim | scripts/next-shim.cjs:34-72 | `export` takes the export emulation and every other command is forwarded, with both halves' outcomes |
| PatchRewrite.RuleSeparated | patch_selection_safe.py:42-57 | Text ending with a character no match of a rule can consume is rewritten independently of what follows it |
| PatchRewrite.SubConcat | patch_selection_safe.py:42-57 | When `a` ends with a cut of rule `r`, `re.sub` over `a + b` is the rewrite of `a` followed by the rewrite of `b` |
| PatchRewrite.SubLacking | patch_selection_safe.py:42-57 | `re.sub` changes nothing in text lacking a character that every match needs |
| PatchRewrite.SelectionCallReplaced | patch_selection_safe.py:44 | Rule 1 replaces `window.getSelection().getRangeAt(0)` and `document.getSelection().getRangeAt(0)` by the marked `safeGetRange()` call, and rewrites the text on either side independently |
| PatchRewrite.VariableCallMatch | patch_selection_safe.py:48 | When no word character precedes it, rule 2 matches an identifier followed by `.getRangeAt(0)`, consuming exactly those, and produces the marked `safeGetRangeFrom` call on that identifier |
| PatchRewrite.VariableCallReplaced | patch_selection_safe.py:48 | Rule 2 replaces `v.getRangeAt(0)` by the marked `safeGetRangeFrom(v)` call, at a word boundary, and rewrites both sides independently |
| PatchRewrite.ConstRangeReplaced | patch_selection_safe.py:51-52 | Rule 3 unmarks a `const N = /*SAFE*/(safeGetRange());` declaration |
| PatchRewrite.ConstRangeFromReplaced | patch_selection_safe.py:54-55 | Rule 4 unmarks a `const N = /*SAFE*/(safeGetRangeFrom(V));` declaration |
| PatchRewrite.ReplacementsLackRangeCall | patch_selection_safe.py:44-48 | Neither replacement of rules 1 and 2 contains `.getRangeAt(0)`, so the rewrites do not feed themselves |
| PatchRewrite.MatchAvoids | patch_selection_safe.py:42-57 | Every character a successful match consumes is accepted by some atom, so a blocked character is never consumed |
| PatchInject.FindImports | patch_selection_safe.py:18 | The leftmost match of the multiline import pattern, at a line start, after the longest run of import lines there |
| PatchInject.InsertionPoint | patch_selection_safe.py:18-40 | The insertion point lies within the source at a line boundary: the start, or just after a newline |
| PatchInject.InjectSplits | patch_selection_safe.py:15-40 | A source without the marker gets the helper block, unchanged, at its insertion point, with the source around it kept |
| PatchInject.InjectHasMarker | patch_selection_safe.py:16-40 | After injection the source defines `safeGetRange` |
| PatchInject.InjectIdempotent | patch_selection_safe.py:15-17 | Injecting twice is the same as injecting once |
| PatchInject.HelpersHaveMarker | patch_selection_safe.py:19-39 | The helper block defines `safeGetRange`, whatever stands in place of its range calls |
| PatchMain.CollectFiles | patch_selection_safe.py:5-13 | The walk keeps exactly the paths with a script extension and no excluded directory, in walk order |
| PatchMain.CandidatesExactly | patch_selection_safe.py:5-13 | A path is collected exactly when some listed file passes the test and joins to it |
| PatchMain.AsWrittenRewritesHelpers | patch_selection_safe.py:65-66 | As written, the rewrite reaches into the injected block: both helpers' `sel.getRangeAt(0)` become marked `safeGetRangeFrom(sel)` calls |
| PatchMain.AsWrittenSelfCall | patch_selection_safe.py:65-66 | Every file that receives the helpers comes out with `safeGetRangeFrom` calling itself |
| PatchMain.HelpersPatched | patch_selection_safe.py:42-66 | The four rewrites over text followed by the helper block rewrite the text around it as if the block were absent, and rewrite both of the block's calls |
| PatchMain.PatchFileKeepsHelpers | patch_selection_safe.py:65-66 | With the intended order, the file is the rewritten source with the helper block inserted verbatim, so both helpers read the range with `sel.getRangeAt(0)` |
| PatchMain.PatchFileMarked | patch_selection_safe.py:16-17 | A source that already defines `safeGetRange` is only rewritten |
| PatchMain.PatchFileHasMarker | patch_selection_safe.py:15-40 | After patching, the file defines `safeGetRange` |
| PatchMain.Workspace.PatchAll | patch_selection_safe.py:59-70 | The files and the list after the loop are the run over the paths with the steps as written (inject, then rewrite): files without `.getRangeAt(0)` are skipped, changed files are written back and listed, and other files keep their contents |
| PatchMain.RunLeavesOthers | patch_selection_safe.py:59-70 | A file the run does not visit keeps its contents |
| PatchMain.RunOutcome | patch_selection_safe.py:59-70 | When each path is visited once, every visited file ends with its outcome, and the list names exactly the files that were written back |
| PatchMain.RunPatchedAmong | patch_selection_safe.py:59-70 | Every path the run lists is one it visited |
| PatchMain.RunAsWrittenSelfCall | patch_selection_safe.py:59-70 | Over the run as written, every visited file with `.getRangeAt(0)` and no `safeGetRange` ends with `safeGetRangeFrom` calling itself |
| PatchMain.RunIntendedKeepsHelpers | patch_selection_safe.py:59-70 | Over the run in the intended order, every visited file with `.getRangeAt(0)` ends as its rewritten source with the helper block inserted verbatim, or the rewritten source alone when that defines `safeGetRange` |
| PatchMain.Report | patch_selection_safe.py:72-74 | The report is the header chosen by whether anything was patched, followed by one ` - path` line per patched file |
| JsString.JoinSplit | components/MarkdownEditable.tsx:54-63 | Joining the pieces of a split gives the string back |
| JsString.SplitJoin | _panic_revert_1761501226/components/MarkdownEditable.tsx:130-136 | Splitting a join of separator-free lines gives those lines back |
| JsString.LastIndexOf | _panic_revert_1761501226/components/MarkdownEditable.tsx:125 | -1 or a position holding the character; for a start within the string, the last such position at or before it, -1 meaning there is none |
| JsString.Substring | components/mars/done-next.tsx:128 | For bounds within the string, the text between them, whichever comes first; never longer than the string |
| JsString.SubstringSymmetric | components/mars/done-next.tsx:128 | Exchanging the bounds of `substring` never changes its result |
| JsString.Slice | _panic_revert_1761501226/components/MarkdownEditable.tsx:103-114 | For ordered bounds within the string, the text between them; never longer than the string |
| JsString.IntToStringInjective | lib/storage.ts:162 | Distinct integers print differently |
| JsString.PadStart2 | lib/storage.ts:126 | The result is at least two characters long, ends with the string, and anything in front of it is `0` |
| JsArray.FilterPartition | app/page.tsx:309-374 | The elements a predicate keeps and those its negation keeps are, together, the whole array (as a multiset) |
| JsArray.FilterConcat | app/page.tsx:373-386 | Filtering a concatenation filters each part |
| JsArray.MapUndone | app/page.tsx:362-371 | Mapping with `f` and then with a `g` that undoes it gives the array back |
| JsArray.WithoutInsertAt | components/mars/gantt-chart.tsx:359-434 | Dropping the position that an insertion just filled gives the array back |

## Left out

- Untyped data: the stored JSON is taken to have the document's shape. `JSON.parse` errors, `any` casts and the serialisation format are not modelled. Serialised equality is equality of values.
- JavaScript array holes. An index write far past the end of a list would leave holes. `DoneNext.Assigned`, `DoneNext.UpdateItem`, `Gantt.UpdateRowTitle` and `Gantt.EditRowLabel` therefore require `idx <= |items|`; only the append case at `idx == length` is modelled.
- Node's `path` module is not part of this model. `PosixPath` models `normalize`, `join` and `resolve` at the level of segments, for POSIX paths. Windows separators are treated only where `safeJoin` strips them by its own patterns.
- The injected DOM helpers (`safeGetRange`, `safeGetRangeFrom`, the fallback range). The browser selection's range offsets and text are inputs.
- Floating point: `Math.ceil(height / tileH)` is integer ceiling division.
- Gantt.DragTo: the now-line drag's `nowFrac`, the pointer's fraction of a column (gantt-chart.tsx:283-284), is not modelled; the chart holds no `nowFrac` and only `nowCol` is set. A milestone drag needs its milestone: without one the source writes a bare `{ at }` object, which the model's milestones cannot hold.
- The device pixel ratio in tiling: each image is taken to be as tall as its tile, that is, a ratio of 1.
- Prompts, toasts, `window.getSelection()` and `navigator.platform` are inputs, or are left out. The undo/redo history (`pushHistory`, `undo`, `redo`, its storage) is not part of this model. `Page.Autosaver.OnDataChange` only records that the history exists.
- JSON export and import, PDF export, and duplicating or switching projects (`handleExportJSON`, `handleImportJSON`, `handleExportPDF`, `handleDuplicate`, `handleSelectProject`): they move data through prompts, files and the print dialog, and are not modelled.
- Page.GetQuarterGanttData: a `selectedQuarter` outside 0..3 makes the source throw when it reads `range.start`; the model returns `None` instead.
- `extraSections`, `teamMetrics`, `comments` and the unused `periods` field of the quarter ranges are carried along unchanged or left out.
- `toLowerCase` is modelled only for the ASCII letters the hotkeys test.
- The null textarea paths: `BackupGoalDescription.MdApply` takes a textarea that may be null; the other editors are taken to have their textarea mounted.
- RevertEditor.MarkdownEditor.Receive: the `isApplying` guard is not modelled; `applyChange` sets and clears it within one synchronous call, so the effect always finds it false.
- `requestAnimationFrame` and `setTimeout`: in the Markdown editor with selection tracking, `RevertEditor.MarkdownEditor.RestoreSelection` runs the restore effect, its animation frame and the `selectionchange` event they cause as one step. The event is taken to follow every restore. Edits between the render and the frame are not interleaved. The deferred `onChange` is reported at once. In the goal description with a command menu, the selection passed to `setSelectionRange` is stated, and `RevertGoalDescription.ApplyPrefixSelectionLands` gives the pair the textarea ends with. This assumes the parent hands the new text back before the frame runs.
- TextareaSelection.SelectionOffset: the `ToUint32` conversion is stated as the identity only for lengths below 2^32.
- The backup goal description is not syntactically valid TypeScript (lines 16-17 and 128-135). Its inline handlers are modelled as the functions they define.
- The `DEBUG` log in `resolveOutDir` (electron/main.js:57) names an undefined `unpackedOut` and would throw with debugging on. Logging is not modelled.
- URL parsing and `decodeURIComponent` are an input: the decoded path, or none when either fails.
- The race between `existsSync` and `statSync` is not modelled: the file system is a fixed map.
- `Buffer.from(base64, 'base64')` is not modelled: the written content is the base64 text.
- Window-state persistence, window creation, protocol registration, the single-instance lock, and `open-url`/`open-file` forwarding (electron/main.js:31-41, 120-187, 233-241) are Electron plumbing without logic worth proving, and are left out.
- Font and image waiting, `html-to-image` rendering, the save-file picker, the download, and the canvas are left out; whether a step throws is an input.
- The shim's `spawnSync`, `rmSync`, `mkdirSync` and `cpSync` are recorded as actions. `process.exit` truncates statuses to eight bits on POSIX; this is not modelled.
- NextShim.Export and NextShim.Shim: apart from a target nested in the default output or holding it, `rmSync`, `mkdirSync` and `cpSync` are taken to succeed. A failure of theirs for other reasons (permissions, a full disk, a file in the target's place) would throw and exit 1; that is not modelled.
- Storage.CreateNewProject: the three clock readings are parameters of their own. Their order in time, and the format of `toISOString`, are not modelled.
- A second run of the patcher over already patched files is covered only by `PatchMain.PatchFileMarked` and `PatchInject.InjectIdempotent`, not as a whole run.
- PatchMain.Workspace.PatchAll: files are read as decoded strings. The script opens them as UTF-8 with `errors="ignore"` (patch_selection_safe.py:61), which silently drops undecodable bytes, so a written-back file also loses them. Bytes and decoding are not modelled.
- Python's `\w` and `\s` are modelled on ASCII; Unicode word characters are left out.
- JavaScript strings are sequences of UTF-16 code units; the model's strings are sequences of characters and offsets count them.
- The long-press timer of the impact button (risks-artifacts.tsx:139-154) and the click-outside listener are timing plumbing and are left out.

## Findings

| source | as written | input that shows it | evidently intended | confidence | as-written member | corrected member |
|---|---|---|---|---|---|---|
| patch_selection_safe.py:65-66 | the helpers are injected first and the rewrite rules then run over the whole file, injected block included | any file containing `sel.getRangeAt(0)` and no `safeGetRange`: the injected `safeGetRangeFrom` ends up returning `safeGetRangeFrom(sel)`: it calls itself until the stack overflows, its own `catch` returns the fallback range, and the real range is never read (as in components/mars/risks-artifacts.tsx:19-22) | rewrite the source, then inject the helpers verbatim, so that they still call `sel.getRangeAt(0)` | not executed | PatchMain.AsWrittenSelfCall | PatchMain.PatchFileKeepsHelpers |
| _panic_revert_1761501226/components/MarkdownEditable.tsx:125 | `lastIndexOf('\n', i - 1) + 1` as the line start; at `i = 0` the search start is clamped to 0 and finds a newline at position 0 | text `"\nab"`, caret at 0, the H1 command from the goal description's menu, whose `applyPrefix` uses the same line start (_panic_revert_1761501226/components/mars/goal-description.tsx:62) and accepts an empty selection: the region is `[1, 0)`, and the text comes out as `"\n\nab"`, its leading newline doubled; and H1 over `[0, 5]` of `"\n# ab"` leaves the empty line out and strips the heading to `"\nab"` | line start 0 on the first line, so that the region begins at or before the caret | not executed | MdText.AsWrittenPrefixDoublesNewline | MdText.LineStartAtCaret |
