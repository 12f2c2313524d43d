/** A page session: the crossword built at load time and driven by user
    events. The properties the editor promises are stated here, over single
    calls, over pairs of mode changes and over any sequence of events. */
module Session {
  import opened Optional
  import opened CellIds
  import opened Cells
  import opened Crosswords

  /** What the user can do: press one of the three mode buttons, click a
      cell node (identified by its DOM id), or type text into a cell's field. */
  datatype Event =
    | SwitchMode(target: Mode)
    | ClickCell(targetId: string)
    | EditField(node: nat, text: string)

  /** The crossword the page builds on load: `new Crossword(rows, cols)`
      followed by `createDOM`. */
  function Init(rows: nat, cols: nat): Crossword {
    CreateDom(NewCrossword(rows, cols))
  }

  /** The browser storing typed text in the `node`-th field. */
  function Edit(cw: Crossword, node: nat, text: string): (r: Crossword)
    ensures r.cells == cw.cells && r.mode == cw.mode && r.description == cw.description
    ensures |r.views| == |cw.views|
    ensures WellFormed(cw) ==> WellFormed(r) && SameLayout(cw, r)
    ensures node < |cw.views| ==> r.views[node].field == text
    ensures forall k :: 0 <= k < |cw.views| ==>
      (k == node ==> r.views[k] == cw.views[k].(field := text)) && (k != node ==> r.views[k] == cw.views[k])
  {
    if node < |cw.views| then cw.(views := cw.views[node := cw.views[node].(field := text)]) else cw
  }

  /** One event. A mode button calls `changeMode` with its mode's name; a
      click goes through `handleCellClick`, and a click whose handler throws
      leaves the state as it was, since the throw precedes any update. */
  function Step(cw: Crossword, e: Event): (r: Crossword)
    requires WellFormed(cw)
    ensures WellFormed(r)
    ensures r.rows == cw.rows && r.cols == cw.cols && |r.cells| == |cw.cells|
    ensures forall i :: 0 <= i < |cw.cells| ==> r.cells[i].cellType == cw.cells[i].cellType
  {
    match e
    case SwitchMode(m) => ChangeMode(cw, ModeName(m)).state
    case ClickCell(t) =>
      (match HandleCellClick(cw, t)
       case None => cw
       case Some(next) => next)
    case EditField(k, s) => Edit(cw, k, s)
  }

  function Run(cw: Crossword, events: seq<Event>): (r: Crossword)
    requires WellFormed(cw)
    ensures WellFormed(r)
    decreases |events|
  {
    if |events| == 0 then cw else Run(Step(cw, events[0]), events[1..])
  }

  /** What holds of every state the page can reach: one cell and one node per
      grid position, ids matching positions, the stored type never moved off
      text, every node coherent, and hint labels collapsed exactly in hint mode. */
  predicate Inv(cw: Crossword) {
    && WellFormed(cw)
    && |cw.cells| == cw.rows * cw.cols
    && (forall i :: 0 <= i < |cw.cells| ==> cw.cells[i].cellType == Text)
    && (forall k :: 0 <= k < |cw.views| ==> Coherent(cw.views[k]))
    && (forall k :: 0 <= k < |cw.views| ==>
          cw.views[k].hintVisibility == (if cw.mode == Hint then Collapsed else Visible))
  }

  // ---------------------------------------------------------------------
  // Construction.

  /** The grid built on load: `rows * cols` cells numbered in order, each a
      fresh text cell with no hint and no text, shown by an empty node, in
      character mode. */
  lemma InitialGrid(rows: nat, cols: nat)
    ensures var cw := Init(rows, cols);
      && cw.mode == Char && cw.description == Char
      && |cw.cells| == rows * cols && |cw.views| == rows * cols
      && (forall i :: 0 <= i < |cw.cells| ==>
            cw.cells[i].id == i && cw.cells[i].cellType == Text
            && cw.cells[i].hintNum == None && cw.cells[i].chr == "")
      && (forall k :: 0 <= k < |cw.views| ==>
            cw.views[k].field == "" && cw.views[k].hintLabel == "" && TypeOf(cw.views[k]) == Text)
      && Inv(cw)
  {
  }

  /** The page's own grid is seven rows by six columns. */
  lemma PageGrid()
    ensures var cw := Init(7, 6);
      && |cw.cells| == 42 && cw.mode == Char
      && cw.cells[0].cellType == Text && cw.cells[0].hintNum == None
  {
  }

  // ---------------------------------------------------------------------
  // The invariant holds in every reachable state.

  lemma StepKeepsInv(cw: Crossword, e: Event)
    requires Inv(cw)
    ensures Inv(Step(cw, e))
  {
  }

  lemma {:induction false} RunKeepsInv(cw: Crossword, events: seq<Event>)
    requires Inv(cw)
    ensures Inv(Run(cw, events))
    decreases |events|
  {
    if |events| > 0 {
      StepKeepsInv(cw, events[0]);
      RunKeepsInv(Step(cw, events[0]), events[1..]);
    }
  }

  /** Whatever the user does after the page loads, every node's children are
      hidden exactly when it is filled or empty, it never carries both
      markers, and hint labels are collapsed exactly in hint mode. */
  lemma Reachable(rows: nat, cols: nat, events: seq<Event>)
    ensures Inv(Run(Init(rows, cols), events))
  {
    InitialGrid(rows, cols);
    RunKeepsInv(Init(rows, cols), events);
  }

  /** The stored `Cell.type` does not follow the markers: one click in type
      mode shows a filled cell whose stored type is still text. */
  lemma StoredTypeLagsMarkers()
    ensures var cw := Run(Init(1, 1), [SwitchMode(Type), ClickCell(CellDomId(0))]);
      TypeOf(cw.views[0]) == Filled && cw.cells[0].cellType == Text
  {
    var c0 := Init(1, 1);
    InitialGrid(1, 1);
    var c1 := Step(c0, SwitchMode(Type));
    assert ParseMode("type") == Some(Type);
    assert c1.mode == Type && c1.views == c0.views;
    var c2 := Step(c1, ClickCell(CellDomId(0)));
    assert DomIdOf(c1, 0) == CellDomId(0);
    assert c2.views[0] == CycleMarkers(c1.views[0]);
    var es := [SwitchMode(Type), ClickCell(CellDomId(0))];
    assert es[1..] == [ClickCell(CellDomId(0))];
    assert Run(c0, es) == Run(c1, es[1..]);
    assert es[1..][1..] == [];
  }

  // ---------------------------------------------------------------------
  // Mode changes.

  /** Going to hint mode and back gives every field the text it showed
      before: entering saves the field as the cell's text, leaving restores
      it. The hint number becomes the hint field's text, so a cell that had
      none now holds the empty string. */
  lemma HintRoundTrip(cw: Crossword)
    requires WellFormed(cw) && cw.mode != Hint
    ensures var mid := ChangeMode(cw, "hint");
      var back := ChangeMode(mid.state, ModeName(cw.mode));
      && mid.ok && mid.state.mode == Hint
      && back.ok && back.state.mode == cw.mode
      && |back.state.views| == |cw.views|
      && forall k :: 0 <= k < |cw.views| ==>
           && back.state.views[k].field == cw.views[k].field
           && back.state.cells[k].chr == cw.views[k].field
           && back.state.cells[k].hintNum == Some(HintDisplay(cw.cells[k].hintNum))
           && back.state.views[k].hintLabel == SupLabel(HintDisplay(cw.cells[k].hintNum))
           && back.state.views[k].hintVisibility == Visible
           && SameShape(cw.views[k], back.state.views[k])
  {
  }

  /** Entering hint mode, typing `text` into one cell's field and leaving
      again stores `text` as that cell's hint number, shows it in the label,
      and puts the cell's own text back in the field. */
  lemma HintEditRoundTrip(cw: Crossword, node: nat, text: string)
    requires WellFormed(cw) && cw.mode != Hint && node < |cw.views|
    ensures var mid := ChangeMode(cw, "hint").state;
      var edited := Edit(mid, node, text);
      var back := ChangeMode(edited, ModeName(cw.mode)).state;
      && back.mode == cw.mode
      && back.cells[node].hintNum == Some(text)
      && back.views[node].hintLabel == SupLabel(text)
      && back.views[node].hintVisibility == Visible
      && back.views[node].field == cw.views[node].field
  {
  }

  /** The design's example: in character mode a cell shows "CAT"; after a
      trip through hint mode it shows "CAT" again. */
  lemma CatSurvivesHintMode(rows: nat, cols: nat)
    requires rows * cols > 0
    ensures var typed := Edit(Init(rows, cols), 0, "CAT");
      var mid := ChangeMode(typed, "hint").state;
      ChangeMode(mid, "char").state.views[0].field == "CAT"
  {
  }

  /** The design's example: hint "5" typed in hint mode is kept as the
      hint number and rendered in the label after leaving. */
  lemma FiveBecomesHint(rows: nat, cols: nat)
    requires rows * cols > 0
    ensures var mid := ChangeMode(Init(rows, cols), "hint").state;
      var back := ChangeMode(Edit(mid, 0, "5"), "char").state;
      back.cells[0].hintNum == Some("5") && back.views[0].hintLabel == "<sup>5</sup>"
  {
  }

  /** A rejected request made in hint mode still flushes the hint fields but
      stays in hint mode, with the fields now showing the cells' text. The
      next change out of hint mode flushes again and so stores each cell's
      text as its hint number. */
  lemma RejectedRequestInHintMode(cw: Crossword, bad: string)
    requires WellFormed(cw) && cw.mode == Hint && ParseMode(bad) == None
    ensures var rejected := ChangeMode(cw, bad);
      var next := ChangeMode(rejected.state, "char");
      && !rejected.ok && rejected.state.mode == Hint
      && next.ok && next.state.mode == Char
      && forall k :: 0 <= k < |cw.cells| ==>
           && rejected.state.cells[k].hintNum == Some(cw.views[k].field)
           && rejected.state.views[k].field == cw.cells[k].chr
           && next.state.cells[k].hintNum == Some(cw.cells[k].chr)
  {
  }

  // ---------------------------------------------------------------------
  // Cell types.

  /** Three clicks on the same node in type mode give back the state clicked
      in, provided the node did not carry both markers. */
  lemma ThreeClicksRestore(cw: Crossword, node: nat)
    requires WellFormed(cw) && cw.mode == Type && node < |cw.views|
    requires !(cw.views[node].filled && cw.views[node].empty)
    ensures var id := DomIdOf(cw, node);
      var c1 := HandleCellClick(cw, id);
      c1.Some? && var c2 := HandleCellClick(c1.value, id);
      c2.Some? && var c3 := HandleCellClick(c2.value, id);
      c3 == Some(cw)
  {
    var id := DomIdOf(cw, node);
    var v := cw.views[node];
    var c1 := HandleCellClick(cw, id).value;
    assert c1 == cw.(views := cw.views[node := CycleMarkers(v)]);
    assert DomIdOf(c1, node) == id;
    var c2 := HandleCellClick(c1, id).value;
    assert c2 == cw.(views := cw.views[node := CycleMarkers(CycleMarkers(v))]);
    assert DomIdOf(c2, node) == id;
    var c3 := HandleCellClick(c2, id).value;
    assert c3 == cw.(views := cw.views[node := CycleMarkers(CycleMarkers(CycleMarkers(v)))]);
    CycleMarkersThrice(v);
    assert cw.views[node := v] == cw.views;
  }
}
