/** One grid position: the `Cell` data record, and the abstract view record
    standing for its DOM node (a `div` whose children are the hint label, a
    `span`, and the text field, an `input`). */
module Cells {
  import opened Optional

  /** The three cell types. The source keeps the current type only in the
      node's `filled` / `empty` class markers; `Cell.cellType` is set at
      construction and never written again. */
  datatype CellType = Text | Filled | Empty

  /** `Cell`: `hintNum` is `null` until the first time hint mode is left,
      after which it holds the hint field's text (a string, not a number). */
  datatype Cell = Cell(id: nat, cellType: CellType, hintNum: Option<string>, chr: string)

  /** The `style.visibility` of the hint label. A fresh label has no style
      set, which renders as visible. */
  datatype Visibility = Visible | Collapsed

  /** What the model keeps of a cell's DOM node: the text field's value, the
      hint label's inner HTML and visibility, the `invisible` class of each of
      the two children, and the node's `filled` / `empty` class markers. */
  datatype CellView = CellView(
    field: string,
    hintLabel: string,
    hintVisibility: Visibility,
    hintInvisible: bool,
    fieldInvisible: bool,
    filled: bool,
    empty: bool)

  /** The cell built by `new Cell(id)`. */
  function NewCell(id: nat): Cell {
    Cell(id, Text, None, "")
  }

  /** The hint label's markup for a hint text. */
  function SupLabel(hint: string): string {
    "<sup>" + hint + "</sup>"
  }

  /** What the text field shows when a hint number is written into it; an
      unset hint shows as the empty field. */
  function HintDisplay(hintNum: Option<string>): string {
    match hintNum
    case None => ""
    case Some(h) => h
  }

  /** `Cell.createDOM`: the node rendered for a cell. */
  function NodeOf(c: Cell): (v: CellView)
    ensures v.field == c.chr
    ensures c.hintNum.None? ==> v.hintLabel == ""
    ensures c.hintNum.Some? ==> v.hintLabel == SupLabel(c.hintNum.value)
    ensures TypeOf(v) == Text && Coherent(v) && v.hintVisibility == Visible
  {
    CellView(c.chr, if c.hintNum.Some? then SupLabel(c.hintNum.value) else "", Visible, false, false, false, false)
  }

  /** The type a node displays, read from its markers in the order
      `changeCellType` tests them. */
  function TypeOf(v: CellView): CellType {
    if v.filled then Filled else if v.empty then Empty else Text
  }

  /** The intended type cycle text -> filled -> empty -> text. */
  function NextType(t: CellType): CellType {
    match t
    case Text => Filled
    case Filled => Empty
    case Empty => Text
  }

  /** A node whose markers and children agree: at most one marker is set,
      and both children are hidden exactly when the cell is filled or empty. */
  predicate Coherent(v: CellView) {
    && !(v.filled && v.empty)
    && v.hintInvisible == (v.filled || v.empty)
    && v.fieldInvisible == (v.filled || v.empty)
  }

  /** `toggleCellChildrenVisibility`: flip the `invisible` class of both children. */
  function ToggleChildren(v: CellView): CellView {
    v.(hintInvisible := !v.hintInvisible, fieldInvisible := !v.fieldInvisible)
  }

  /** The node update of `changeCellType` in type mode. */
  function CycleMarkers(v: CellView): (r: CellView)
    ensures TypeOf(r) == NextType(TypeOf(v))
    ensures !(r.filled && r.empty)
    ensures r.field == v.field && r.hintLabel == v.hintLabel && r.hintVisibility == v.hintVisibility
    ensures (TypeOf(v) == Text || TypeOf(r) == Text) ==>
      r.hintInvisible != v.hintInvisible && r.fieldInvisible != v.fieldInvisible
    ensures !(TypeOf(v) == Text || TypeOf(r) == Text) ==>
      r.hintInvisible == v.hintInvisible && r.fieldInvisible == v.fieldInvisible
    ensures Coherent(v) ==> Coherent(r)
  {
    if v.filled then v.(filled := false, empty := true)
    else if v.empty then ToggleChildren(v.(empty := false))
    else ToggleChildren(v).(filled := true)
  }

  lemma NextTypeCycle(t: CellType)
    ensures NextType(t) != t
    ensures NextType(NextType(NextType(t))) == t
  {
  }

  /** Three clicks in type mode restore a node's markers and children, as
      long as it did not carry both markers to begin with. */
  lemma CycleMarkersThrice(v: CellView)
    requires !(v.filled && v.empty)
    ensures CycleMarkers(CycleMarkers(CycleMarkers(v))) == v
  {
  }

  /** With both markers set, three clicks do not come back: the `filled`
      branch drops one of them for good. */
  lemma CycleMarkersBothSet(v: CellView)
    requires v.filled && v.empty
    ensures CycleMarkers(CycleMarkers(CycleMarkers(v))) != v
  {
  }
}
