/** Cells of a PAV sheet and the two per-cell decisions of the merge:
    whether an incoming value replaces the current one, and whether that
    replacement is a conflict. */
module Cells {

  /** A non-empty scalar as a spreadsheet reader produces it. Text and numbers
      never compare equal; numbers compare by value (so 1 and 1.0 are equal). */
  datatype Scalar = Text(s: string) | Number(x: real)

  /** A cell is either empty (NaN / None / a blank cell) or holds a scalar.
      `Empty?` plays the role of `pd.isna`. */
  datatype Cell = Empty | Val(v: Scalar)

  /** Field-update rule: an empty current value is filled by a non-empty
      incoming one; an empty incoming value never overwrites; otherwise the
      incoming value wins when it differs. */
  function ShouldUpdate(current: Cell, incoming: Cell): (r: bool)
    ensures incoming.Empty? ==> !r
    ensures current.Empty? && incoming.Val? ==> r
    ensures r <==> incoming.Val? && current != incoming
  {
    if current.Empty? && !incoming.Empty? then true
    else if incoming.Empty? then false
    else current != incoming
  }

  /** A conflict: both values present and different. */
  function IsConflict(value1: Cell, value2: Cell): (r: bool)
    ensures r ==> ShouldUpdate(value1, value2)
    ensures r <==> ShouldUpdate(value1, value2) && value1.Val?
    ensures value1.Empty? ==> !r
  {
    !value1.Empty? && !value2.Empty? && value1 != value2
  }
}
