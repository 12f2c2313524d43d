/** The `Crossword` object: the grid's cells, their DOM nodes, and the edit
    mode state machine of `changeMode` and `changeCellType`. */
module Crosswords {
  import opened Optional
  import opened CellIds
  import opened Cells

  /** The edit modes: character entry, cell-type editing, hint-number editing. */
  datatype Mode = Char | Type | Hint

  /** The string the source uses for each mode. */
  function ModeName(m: Mode): string {
    match m
    case Char => "char"
    case Type => "type"
    case Hint => "hint"
  }

  /** Reads a requested mode; any string other than the three names is not a mode. */
  function ParseMode(s: string): (r: Option<Mode>)
    ensures forall m :: r == Some(m) <==> s == ModeName(m)
  {
    if s == "char" then Some(Char)
    else if s == "type" then Some(Type)
    else if s == "hint" then Some(Hint)
    else None
  }

  /** The crossword together with what the page shows of it: `views[k]` is
      the `k`-th node in document order, and `description` is the mode whose
      instructions the mode-description panel displays. */
  datatype Crossword = Crossword(
    rows: nat,
    cols: nat,
    cells: seq<Cell>,
    views: seq<CellView>,
    mode: Mode,
    description: Mode)

  /** What a mode or type change returns, with the state it leaves. */
  datatype Reply = Reply(ok: bool, state: Crossword)

  /** `new Crossword(rows, cols)`, with the description panel set to the
      initial mode as the page does right after construction. */
  function NewCrossword(rows: nat, cols: nat): Crossword {
    Crossword(rows, cols, [], [], Char, Char)
  }

  /** Node `k` was rendered from `cells[k]` and so carries its DOM id, and
      cell `k` has id `k`: the state `createDOM` leaves on a fresh crossword. */
  predicate WellFormed(cw: Crossword) {
    && |cw.views| == |cw.cells|
    && forall k :: 0 <= k < |cw.cells| ==> cw.cells[k].id == k
  }

  /** The DOM id of the `k`-th node. */
  function DomIdOf(cw: Crossword, k: nat): string
    requires k < |cw.cells|
  {
    CellDomId(cw.cells[k].id)
  }

  /** Two states that differ at most in cell text, hint numbers, field
      values, hint labels, hint visibility, mode and description. */
  predicate SameLayout(a: Crossword, b: Crossword) {
    && a.rows == b.rows && a.cols == b.cols
    && |a.cells| == |b.cells| && |a.views| == |b.views|
    && (forall i :: 0 <= i < |a.cells| ==>
          b.cells[i].id == a.cells[i].id && b.cells[i].cellType == a.cells[i].cellType)
    && (forall k :: 0 <= k < |a.views| ==> SameShape(a.views[k], b.views[k]))
  }

  /** Same markers and same child visibility classes. */
  predicate SameShape(v: CellView, w: CellView) {
    v.filled == w.filled && v.empty == w.empty
    && v.hintInvisible == w.hintInvisible && v.fieldInvisible == w.fieldInvisible
  }

  // ---------------------------------------------------------------------
  // Construction.

  /** The loop of `Crossword.createDOM` from index `i` on: each round builds
      `new Cell(i)`, renders its node and appends both. */
  function Populate(cw: Crossword, i: nat, total: nat): (r: Crossword)
    requires i <= total
    ensures r.rows == cw.rows && r.cols == cw.cols
    ensures r.mode == cw.mode && r.description == cw.description
    ensures |r.cells| == |cw.cells| + (total - i)
    ensures |r.views| == |cw.views| + (total - i)
    ensures r.cells[..|cw.cells|] == cw.cells && r.views[..|cw.views|] == cw.views
    ensures forall k :: |cw.cells| <= k < |r.cells| ==> r.cells[k] == NewCell(i + k - |cw.cells|)
    ensures forall k :: |cw.views| <= k < |r.views| ==> r.views[k] == NodeOf(NewCell(i + k - |cw.views|))
    decreases total - i
  {
    if i == total then cw
    else
      var cell := NewCell(i);
      Populate(cw.(cells := cw.cells + [cell], views := cw.views + [NodeOf(cell)]), i + 1, total)
  }

  /** `Crossword.createDOM`: `rows * cols` fresh cells with ids counting up
      from 0, each with its node, appended to the crossword. */
  function CreateDom(cw: Crossword): (r: Crossword)
    ensures r.rows == cw.rows && r.cols == cw.cols
    ensures r.mode == cw.mode && r.description == cw.description
    ensures |r.cells| == |cw.cells| + cw.rows * cw.cols
    ensures |r.views| == |cw.views| + cw.rows * cw.cols
    ensures r.cells[..|cw.cells|] == cw.cells && r.views[..|cw.views|] == cw.views
    ensures forall k :: |cw.cells| <= k < |r.cells| ==>
      r.cells[k] == Cell(k - |cw.cells|, Text, None, "")
    ensures forall k :: |cw.views| <= k < |r.views| ==>
      && r.views[k].field == "" && r.views[k].hintLabel == ""
      && r.views[k].hintVisibility == Visible && TypeOf(r.views[k]) == Text && Coherent(r.views[k])
    ensures cw.cells == [] && cw.views == [] ==> WellFormed(r)
  {
    Populate(cw, 0, cw.rows * cw.cols)
  }

  // ---------------------------------------------------------------------
  // Mode changes.

  /** The cell index the source recovers from the `k`-th node's DOM id with
      `Cell.getCellId`: always the node's own position. */
  function NodeCellIndex(cw: Crossword, k: nat): (i: nat)
    requires WellFormed(cw) && k < |cw.cells|
    ensures i == k
  {
    GetCellIdOfDomId(cw.cells[k].id);
    GetCellId(DomIdOf(cw, k)).value
  }

  /** The per-node work done when leaving hint mode: the field's text becomes
      the cell's hint number, the label is rebuilt from it and made visible,
      and the field shows the cell's text again. */
  function LeaveHint(cw: Crossword): (r: Crossword)
    requires WellFormed(cw)
    ensures WellFormed(r) && SameLayout(cw, r)
    ensures r.mode == cw.mode && r.description == cw.description
    ensures forall k :: 0 <= k < |cw.cells| ==>
      && r.cells[k].hintNum == Some(cw.views[k].field)
      && r.cells[k].chr == cw.cells[k].chr
      && r.views[k].hintLabel == SupLabel(cw.views[k].field)
      && r.views[k].hintVisibility == Visible
      && r.views[k].field == cw.cells[k].chr
  {
    var n := |cw.cells|;
    var cells := seq(n, i requires 0 <= i < n => cw.cells[i].(hintNum := Some(cw.views[i].field)));
    var views := seq(n, k requires 0 <= k < n =>
      var idx := NodeCellIndex(cw, k);
      cw.views[k].(
        hintLabel := SupLabel(cells[idx].hintNum.value),
        field := cells[idx].chr,
        hintVisibility := Visible));
    cw.(cells := cells, views := views)
  }

  /** The per-node work done when entering hint mode: the label is collapsed,
      the field's text is saved as the cell's text, and the field shows the
      cell's hint number (empty when there is none). */
  function EnterHint(cw: Crossword): (r: Crossword)
    requires WellFormed(cw)
    ensures WellFormed(r) && SameLayout(cw, r)
    ensures r.mode == cw.mode && r.description == cw.description
    ensures forall k :: 0 <= k < |cw.cells| ==>
      && r.cells[k].chr == cw.views[k].field
      && r.cells[k].hintNum == cw.cells[k].hintNum
      && r.views[k].hintLabel == cw.views[k].hintLabel
      && r.views[k].hintVisibility == Collapsed
      && r.views[k].field == HintDisplay(cw.cells[k].hintNum)
  {
    var n := |cw.cells|;
    var cells := seq(n, i requires 0 <= i < n => cw.cells[i].(chr := cw.views[i].field));
    var views := seq(n, k requires 0 <= k < n =>
      var idx := NodeCellIndex(cw, k);
      cw.views[k].(hintVisibility := Collapsed, field := HintDisplay(cells[idx].hintNum)));
    cw.(cells := cells, views := views)
  }

  /** `Crossword.changeMode`. The outgoing hint mode is flushed before the
      requested mode is checked, so a rejected request from hint mode still
      flushes; the description panel is set from the mode being left. */
  function ChangeMode(cw: Crossword, newMode: string): (r: Reply)
    requires WellFormed(cw)
    ensures WellFormed(r.state) && SameLayout(cw, r.state)
    ensures r.ok <==> ParseMode(newMode).Some?
    ensures ParseMode(newMode) == Some(cw.mode) ==> r.state == cw
    ensures r.ok ==> r.state.mode == ParseMode(newMode).value
    ensures r.ok && ParseMode(newMode) != Some(cw.mode) ==> r.state.description == cw.mode
    ensures !r.ok ==> r.state.mode == cw.mode && r.state.description == cw.description
    ensures !r.ok && cw.mode != Hint ==> r.state == cw
    ensures !r.ok && cw.mode == Hint ==> r.state == LeaveHint(cw)
    ensures r.ok && cw.mode != Hint && r.state.mode != Hint ==>
      r.state.cells == cw.cells && r.state.views == cw.views
    ensures r.ok && cw.mode == Hint && r.state.mode != Hint ==>
      r.state.cells == LeaveHint(cw).cells && r.state.views == LeaveHint(cw).views
    ensures cw.mode != Hint && r.state.mode == Hint ==>
      r.state.cells == EnterHint(cw).cells && r.state.views == EnterHint(cw).views
  {
    if newMode == ModeName(cw.mode) then Reply(true, cw)
    else
      var flushed := if cw.mode == Hint then LeaveHint(cw) else cw;
      if newMode == "hint" then
        Reply(true, EnterHint(flushed).(description := cw.mode, mode := Hint))
      else if newMode != "type" && newMode != "char" then
        Reply(false, flushed)
      else
        Reply(true, flushed.(description := cw.mode, mode := if newMode == "type" then Type else Char))
  }

  // ---------------------------------------------------------------------
  // Cell types.

  /** The first node from position `from` on whose DOM id is `domId`. */
  function FirstNodeWithId(cw: Crossword, domId: string, from: nat): (r: Option<nat>)
    ensures r.Some? ==>
      && from <= r.value < |cw.views| && r.value < |cw.cells|
      && DomIdOf(cw, r.value) == domId
      && forall j :: from <= j < r.value ==> DomIdOf(cw, j) != domId
    ensures r.None? ==>
      forall j :: from <= j < |cw.views| && j < |cw.cells| ==> DomIdOf(cw, j) != domId
    decreases |cw.views| - from
  {
    if from >= |cw.views| || from >= |cw.cells| then None
    else if DomIdOf(cw, from) == domId then Some(from)
    else FirstNodeWithId(cw, domId, from + 1)
  }

  /** `document.getElementById('cell-' + cellId)` as a node position, `None`
      standing for `null`. In a well-formed state it is node `cellId`
      whenever there is one. */
  function NodeWithId(cw: Crossword, cellId: nat): (r: Option<nat>)
    ensures r.Some? ==> r.value < |cw.views| && r.value < |cw.cells|
    ensures r.Some? ==> DomIdOf(cw, r.value) == CellDomId(cellId)
    ensures WellFormed(cw) ==> r == (if cellId < |cw.views| then Some(cellId) else None)
  {
    var r := FirstNodeWithId(cw, CellDomId(cellId), 0);
    assert WellFormed(cw) ==> r == (if cellId < |cw.views| then Some(cellId) else None) by {
      if WellFormed(cw) {
        if cellId < |cw.views| {
          assert DomIdOf(cw, cellId) == CellDomId(cellId);
        }
        if r.Some? {
          CellDomIdInjective(r.value, cellId);
        }
      }
    }
    r
  }

  /** `Crossword.changeCellType`: outside type mode it declines; in type mode
      it cycles the markers of the node with the given id. `None` stands for
      the `TypeError` thrown when no node carries that id. */
  function ChangeCellType(cw: Crossword, cellId: nat): (r: Option<Reply>)
    ensures cw.mode != Type ==> r == Some(Reply(false, cw))
    ensures WellFormed(cw) && cw.mode == Type ==> (r.None? <==> cellId >= |cw.views|)
    ensures r.Some? ==> r.value.ok == (cw.mode == Type)
    ensures r.Some? ==>
      && r.value.state.cells == cw.cells && r.value.state.mode == cw.mode
      && r.value.state.rows == cw.rows && r.value.state.cols == cw.cols
      && r.value.state.description == cw.description
      && |r.value.state.views| == |cw.views|
    ensures r.Some? ==> forall k :: 0 <= k < |cw.views| ==>
      r.value.state.views[k] == cw.views[k] || r.value.state.views[k] == CycleMarkers(cw.views[k])
    ensures WellFormed(cw) && r.Some? ==> forall k :: 0 <= k < |cw.views| && k != cellId ==>
      r.value.state.views[k] == cw.views[k]
    ensures WellFormed(cw) && r.Some? && cw.mode == Type ==>
      && cellId < |cw.views|
      && r.value.state.views[cellId] == CycleMarkers(cw.views[cellId])
      && TypeOf(r.value.state.views[cellId]) == NextType(TypeOf(cw.views[cellId]))
  {
    if cw.mode != Type then Some(Reply(false, cw))
    else
      match NodeWithId(cw, cellId)
      case None => None
      case Some(k) =>
        Some(Reply(true, cw.(views := cw.views[k := CycleMarkers(cw.views[k])])))
  }

  /** `handleCellClick` on the node with DOM id `targetId`: only in type mode
      does it parse the id and change that cell's type. `None` stands for a
      `TypeError` raised while handling the click. */
  function HandleCellClick(cw: Crossword, targetId: string): (r: Option<Crossword>)
    ensures cw.mode != Type ==> r == Some(cw)
    ensures r.Some? ==>
      && r.value.cells == cw.cells && r.value.mode == cw.mode
      && r.value.rows == cw.rows && r.value.cols == cw.cols
      && r.value.description == cw.description
      && |r.value.views| == |cw.views|
      && forall k :: 0 <= k < |cw.views| ==>
           r.value.views[k] == cw.views[k] || r.value.views[k] == CycleMarkers(cw.views[k])
    ensures WellFormed(cw) && cw.mode == Type ==> forall k :: 0 <= k < |cw.views| ==>
      (targetId == DomIdOf(cw, k) ==> r == Some(cw.(views := cw.views[k := CycleMarkers(cw.views[k])])))
  {
    if cw.mode != Type then Some(cw)
    else
      assert WellFormed(cw) ==> forall k :: 0 <= k < |cw.views| ==>
        (targetId == DomIdOf(cw, k) ==> GetCellId(targetId) == Some(k)) by {
        if WellFormed(cw) {
          forall k | 0 <= k < |cw.views|
            ensures targetId == DomIdOf(cw, k) ==> GetCellId(targetId) == Some(k)
          {
            GetCellIdOfDomId(k);
          }
        }
      }
      match GetCellId(targetId)
      case None => None
      case Some(n) =>
        match ChangeCellType(cw, n)
        case None => None
        case Some(reply) => Some(reply.state)
  }
}
