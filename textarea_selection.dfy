/**
 * A textarea's `setSelectionRange`: each argument is converted to an unsigned 32-bit integer and
 * clamped to the value's length, and a start past the end is moved to the end.
 */
module TextareaSelection {
  /**
   * One argument of a textarea's `setSelectionRange` on a value of length `len`: converted to an
   * unsigned 32-bit integer, then clamped to the length.
   */
  function SelectionOffset(x: int, len: nat): (r: nat)
    ensures r <= len
    ensures 0 <= x <= len && x < 0x1_0000_0000 ==> r == x
  {
    var u := x % 0x1_0000_0000;
    if u > len then len else u
  }

  /**
   * The selection a textarea ends with after `setSelectionRange(start, end)` on a value of length
   * `len`: the end clamped, then the start clamped and moved back to the end when it lies past it.
   */
  function SetSelectionRange(start: int, end: int, len: nat): (r: (nat, nat))
    ensures r.0 <= r.1 <= len
    ensures r.1 == SelectionOffset(end, len)
    ensures SelectionOffset(start, len) <= r.1 ==> r.0 == SelectionOffset(start, len)
    ensures SelectionOffset(start, len) > r.1 ==> r.0 == r.1
    ensures 0 <= start <= end <= len < 0x1_0000_0000 ==> r == (start, end)
  {
    var e := SelectionOffset(end, len);
    var s := SelectionOffset(start, len);
    (if s <= e then s else e, e)
  }

  /**
   * Setting an ordered selection within `[0, 2^32)`: the end is cut back to the length, the start
   * to that end, and the selection is kept as given exactly when its end fits.
   */
  lemma SetSelectionRangeOrdered(start: int, end: int, len: nat)
    requires 0 <= start <= end < 0x1_0000_0000 && len < 0x1_0000_0000
    ensures var sel := SetSelectionRange(start, end, len);
      sel.1 == (if end <= len then end else len)
      && sel.0 == (if start <= sel.1 then start else sel.1)
      && (sel == (start, end) <==> end <= len)
  {
    assert end % 0x1_0000_0000 == end;
    assert start % 0x1_0000_0000 == start;
  }
}
