/**
 * The "Done" and "Next" lists: appending a default item, removing one by index, overwriting one
 * by index through a copied array, and the context-menu formatting of the selected text inside an
 * item. Every operation hands a new document to `setData`; only the list it acts on changes.
 */
module DoneNext {
  import opened Wrappers
  import opened JsArray
  import opened Storage
  import opened FormatMenu
  import MdText

  /** The two lists of the card. */
  datatype ListKind = DoneList | NextList

  /** The list of that kind. */
  function Items(data: OnePagerData, k: ListKind): seq<string>
  {
    match k
    case DoneList => data.done
    case NextList => data.next
  }

  /** The document with the list of that kind replaced. */
  function WithItems(data: OnePagerData, k: ListKind, items: seq<string>): OnePagerData
  {
    match k
    case DoneList => data.(done := items)
    case NextList => data.(next := items)
  }

  /** The other list. */
  function Other(k: ListKind): ListKind
  {
    match k
    case DoneList => NextList
    case NextList => DoneList
  }

  /** Replacing one list leaves the other list, and every other field, as it was. */
  lemma WithItemsKeepsRest(data: OnePagerData, k: ListKind, items: seq<string>)
    ensures Items(WithItems(data, k, items), k) == items
    ensures Items(WithItems(data, k, items), Other(k)) == Items(data, Other(k))
    ensures WithItems(data, k, items).(done := data.done, next := data.next) == data
  {
  }

  /** The text `addDone` and `addNext` append. */
  function DefaultItem(k: ListKind): string
  {
    match k
    case DoneList => "New completed item"
    case NextList => "New upcoming item"
  }

  /** `addDone` / `addNext`: the default item goes at the end of that list. */
  function AddItem(data: OnePagerData, k: ListKind): (r: OnePagerData)
    ensures Items(r, k) == Items(data, k) + [DefaultItem(k)]
    ensures Items(r, Other(k)) == Items(data, Other(k))
    ensures r.(done := data.done, next := data.next) == data
  {
    WithItems(data, k, Items(data, k) + [DefaultItem(k)])
  }

  /** `removeDone` / `removeNext`: the list without position `idx`; out of range nothing goes. */
  function RemoveItem(data: OnePagerData, k: ListKind, idx: int): (r: OnePagerData)
    ensures Items(r, k) == Without(Items(data, k), idx)
    ensures Items(r, Other(k)) == Items(data, Other(k))
    ensures r.(done := data.done, next := data.next) == data
  {
    WithItems(data, k, Without(Items(data, k), idx))
  }

  /** Removing the item just added gives the document back. */
  lemma RemoveAfterAdd(data: OnePagerData, k: ListKind)
    ensures RemoveItem(AddItem(data, k), k, |Items(data, k)|) == data
  {
    var items := Items(data, k);
    assert (items + [DefaultItem(k)])[..|items|] == items;
  }

  /**
   * `copy[idx] = value` on a copy of the list: an index inside the list overwrites that item, the
   * index just past the end appends, and a negative index names no element.
   */
  function Assigned(items: seq<string>, idx: int, value: string): (r: seq<string>)
    requires idx <= |items|
    ensures 0 <= idx < |items| ==>
      |r| == |items| && r[idx] == value && forall k :: 0 <= k < |items| && k != idx ==> r[k] == items[k]
    ensures idx == |items| ==> r == items + [value]
    ensures idx < 0 ==> r == items
  {
    if 0 <= idx < |items| then items[idx := value]
    else if idx == |items| then items + [value]
    else items
  }

  /** Writing back the old item undoes an overwrite. */
  lemma AssignedRestores(items: seq<string>, idx: int, value: string)
    requires 0 <= idx < |items|
    ensures Assigned(Assigned(items, idx, value), idx, items[idx]) == items
  {
  }

  /** The spread copy and the index write, on an array. */
  method AssignAt(items: seq<string>, idx: int, value: string) returns (r: seq<string>)
    requires idx <= |items|
    ensures r == Assigned(items, idx, value)
  {
    var n := if idx == |items| then |items| + 1 else |items|;
    var copy := new string[n](i => if 0 <= i < |items| then items[i] else value);
    if 0 <= idx < n {
      copy[idx] := value;
    }
    r := copy[..];
    if idx == |items| {
      assert r[..|items|] == items;
    }
  }

  /** `updateDone` / `updateNext`: the document with that list's copy written at `idx`. */
  method UpdateItem(data: OnePagerData, k: ListKind, idx: int, value: string) returns (r: OnePagerData)
    requires idx <= |Items(data, k)|
    ensures r == WithItems(data, k, Assigned(Items(data, k), idx, value))
  {
    var items := AssignAt(Items(data, k), idx, value);
    r := WithItems(data, k, items);
  }

  /** The format menu's state: which list and which item it was opened on. */
  datatype MenuState = MenuState(show: bool, kind: Option<ListKind>, index: Option<int>)

  /** The closed menu. */
  const Closed := MenuState(false, None, None)

  /** `handleContextMenu`: the menu opens on the item only over a non-empty selection. */
  function ContextMenu(menu: MenuState, selectedText: Option<string>, k: ListKind, index: int): (r: MenuState)
    ensures MenuOpens(selectedText) ==> r == MenuState(true, Some(k), Some(index))
    ensures !MenuOpens(selectedText) ==> r == menu
  {
    if MenuOpens(selectedText) then MenuState(true, Some(k), Some(index)) else menu
  }

  /**
   * What `handleFormat` hands to `setData`: nothing without a selection, a list or an index, when
   * a link gets no URL, or when the index names no item (reading it throws); otherwise the list
   * the menu names, with that item spliced.
   */
  function Formatting(data: OnePagerData, menu: MenuState, sel: Option<DomSelection>, f: Format,
                      url: Option<string>): (r: Option<OnePagerData>)
    ensures r.None? <==>
      sel.None? || menu.kind.None? || menu.index.None? || Formatted(f, sel.value.text, url).None?
      || !(0 <= menu.index.value < |Items(data, menu.kind.value)|)
    ensures r.Some? ==>
      var k, i := menu.kind.value, menu.index.value;
      Items(r.value, k) == Items(data, k)[i := Splice(Items(data, k)[i], sel.value.startOffset,
                                                       sel.value.endOffset, Formatted(f, sel.value.text, url).value)]
      && Items(r.value, Other(k)) == Items(data, Other(k))
      && r.value.(done := data.done, next := data.next) == data
  {
    if sel.None? || menu.kind.None? || menu.index.None? then None
    else
      match Formatted(f, sel.value.text, url)
      case None => None
      case Some(formatted) =>
        var k, i := menu.kind.value, menu.index.value;
        var items := Items(data, k);
        if 0 <= i < |items| then
          Some(WithItems(data, k, items[i := Splice(items[i], sel.value.startOffset, sel.value.endOffset, formatted)]))
        else None
  }

  /** `handleFormat`, which writes the new item through `updateDone` or `updateNext`. */
  method HandleFormat(data: OnePagerData, menu: MenuState, sel: Option<DomSelection>, f: Format,
                      url: Option<string>) returns (r: Option<OnePagerData>)
    ensures r == Formatting(data, menu, sel, f, url)
  {
    if sel.None? || menu.kind.None? || menu.index.None? {
      return None;
    }
    var formatted := Formatted(f, sel.value.text, url);
    if formatted.None? {
      return None;
    }
    var k, i := menu.kind.value, menu.index.value;
    var items := Items(data, k);
    if !(0 <= i < |items|) {
      return None;
    }
    var newValue := Splice(items[i], sel.value.startOffset, sel.value.endOffset, formatted.value);
    var d := UpdateItem(data, k, i, newValue);
    r := Some(d);
  }

  /**
   * A wrapping format over the item's `[start, end)`, selected in a "Done" item, is undone by the
   * textarea editors' toggle on the formatted item.
   */
  lemma FormatDoneUndone(data: OnePagerData, i: int, start: int, end: int, f: Format, r: Option<OnePagerData>)
    requires 0 <= i < |data.done| && 0 <= start <= end <= |data.done[i]| && f != Link
    requires r == Formatting(data, MenuState(true, Some(DoneList), Some(i)),
                             Some(DomSelection(data.done[i][start..end], start, end)), f, None)
    ensures r.Some? && |r.value.done| == |data.done|
    ensures MdText.ToggleWrap(r.value.done[i], start + |Opening(f)|, end + |Opening(f)|, Opening(f), Opening(f)).text
      == data.done[i]
  {
    var t := data.done[i][start..end];
    assert Items(r.value, DoneList) == data.done[i := Splice(data.done[i], start, end, Formatted(f, t, None).value)];
    SpliceUndoneByToggle(data.done[i], start, end, f, r.value.done[i]);
  }
}
