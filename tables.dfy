/** The `Table` node of html_table_parser/parser.py as a value.

    A table's elements interleave finished rows and nested tables. While a
    nested table is open the parent is inactive and forwards every operation to
    its last element, so the open tables form a chain that ends in the one
    active table. Each operation below is the source method: an active table
    acts on itself, an inactive one delegates to `Last(t)`, the source's
    `self[-1]`.

    The same chain can be read as a stack of frames, root first: the frame of a
    table is the table as it was before its open child was appended (active,
    without that last element). `Frames` and `Assemble` convert between the two
    readings; the operations' lemmas are stated on frames, where "only the
    active table changes" is an update of the last frame. */
module Tables {
  import opened Text

  datatype Option<T> = None | Some(value: T)

  /** A position as the tokenizer reports it: line number and column offset. */
  datatype Pos = Pos(line: int, col: int)

  /** An element of a table: a finished row of cell strings, or a nested table. */
  datatype Entry = Row(cells: seq<string>) | Sub(table: Table)

  datatype Table = Table(
    elements: seq<Entry>,
    st: Pos,
    ed: Option<Pos>,
    isActive: bool,
    inTd: bool,
    inTh: bool,
    currentCell: seq<string>,
    currentRow: seq<string>)

  /** `Table(st)`: active, no elements, no end position, empty buffers. */
  function Fresh(st: Pos): Table
  {
    Table([], st, None, true, false, false, [], [])
  }

  // ---------------------------------------------------------------------------
  // The chain of open tables

  /** Delegation ends in an active table: every inactive table on the way has a
      nested table, never a row, as its last element. */
  predicate Delegable(t: Table)
    decreases t
  {
    t.isActive
    || (|t.elements| > 0 && t.elements[|t.elements| - 1].Sub?
        && Delegable(t.elements[|t.elements| - 1].table))
  }

  /** `self[-1]` of an inactive table. */
  function Last(t: Table): Table
    requires !t.isActive && Delegable(t)
  {
    t.elements[|t.elements| - 1].table
  }

  /** The innermost table of the chain, the one every operation reaches. */
  function Active(t: Table): (a: Table)
    requires Delegable(t)
    ensures a.isActive
    decreases t
  {
    if t.isActive then t else Active(t.elements[|t.elements| - 1].table)
  }

  /** The number of open tables on the chain. */
  function Depth(t: Table): nat
    requires Delegable(t)
    decreases t
  {
    if t.isActive then 1 else 1 + Depth(t.elements[|t.elements| - 1].table)
  }

  /** The tables of the chain themselves, root first. */
  function Chain(t: Table): seq<Table>
    requires Delegable(t)
    decreases t
  {
    if t.isActive then [t] else [t] + Chain(t.elements[|t.elements| - 1].table)
  }

  /** Exactly one table on the chain is active: the last one, which is the
      table every delegation reaches. */
  lemma {:induction false} ChainHasOneActive(t: Table)
    requires Delegable(t)
    ensures |Chain(t)| == Depth(t)
    ensures Chain(t)[|Chain(t)| - 1] == Active(t)
    ensures forall i :: 0 <= i < |Chain(t)| ==> (Chain(t)[i].isActive <==> i == |Chain(t)| - 1)
    decreases t
  {
    if !t.isActive {
      ChainHasOneActive(Last(t));
    }
  }

  // ---------------------------------------------------------------------------
  // Frames

  /** The frame of an inactive table: itself without its open child, active. */
  function Detach(t: Table): Table
    requires |t.elements| > 0
  {
    t.(elements := t.elements[..|t.elements| - 1], isActive := true)
  }

  /** A frame with its open child appended: the parent becomes inactive. */
  function Attach(parent: Table, child: Table): Table
  {
    parent.(elements := parent.elements + [Sub(child)], isActive := false)
  }

  /** The chain as a stack of frames, root first, the active table last. */
  function Frames(t: Table): seq<Table>
    requires Delegable(t)
    decreases t
  {
    if t.isActive then [t] else [Detach(t)] + Frames(t.elements[|t.elements| - 1].table)
  }

  /** The chain that a stack of frames stands for. */
  function Assemble(fs: seq<Table>): (t: Table)
    requires |fs| > 0
    ensures AllActive(fs) ==> Delegable(t)
    decreases |fs|
  {
    if |fs| == 1 then fs[0] else Attach(fs[0], Assemble(fs[1..]))
  }

  predicate AllActive(fs: seq<Table>)
  {
    forall i :: 0 <= i < |fs| ==> fs[i].isActive
  }

  /** One frame per open table, all of them active, the last one the table
      every delegation reaches. */
  lemma {:induction false} FramesShape(t: Table)
    requires Delegable(t)
    ensures |Frames(t)| == Depth(t)
    ensures AllActive(Frames(t))
    ensures Frames(t)[|Frames(t)| - 1] == Active(t)
    decreases t
  {
    if !t.isActive {
      var c := Last(t);
      FramesShape(c);
      assert Frames(t) == [Detach(t)] + Frames(c);
    }
  }

  /** One level of `Frames`: an inactive table contributes its own frame,
      then come the frames of its open child. */
  lemma FramesStep(t: Table)
    requires Delegable(t) && !t.isActive
    ensures Frames(t) == [Detach(t)] + Frames(Last(t))
    ensures |Frames(Last(t))| > 0
  {
    FramesShape(Last(t));
  }

  /** Detaching the open child and attaching it again gives the table back. */
  lemma AttachDetach(t: Table)
    requires Delegable(t) && !t.isActive
    ensures Attach(Detach(t), Last(t)) == t
  {
    assert t.elements[..|t.elements| - 1] + [Sub(Last(t))] == t.elements;
  }

  /** One level of `Assemble`. */
  lemma AssembleCons(f: Table, fs: seq<Table>)
    requires |fs| > 0
    ensures Assemble([f] + fs) == Attach(f, Assemble(fs))
  {
    assert ([f] + fs)[1..] == fs;
  }

  /** Every chain is the assembly of its frames. */
  lemma {:induction false} AssembleFrames(t: Table)
    requires Delegable(t)
    ensures Assemble(Frames(t)) == t
    decreases t
  {
    if !t.isActive {
      var c := Last(t);
      AssembleFrames(c);
      FramesStep(t);
      AssembleCons(Detach(t), Frames(c));
      AttachDetach(t);
    }
  }

  /** Every stack of active frames assembles into a chain whose frames are the
      same stack. */
  lemma {:induction false} FramesAssemble(fs: seq<Table>)
    requires |fs| > 0 && AllActive(fs)
    ensures Delegable(Assemble(fs))
    ensures Frames(Assemble(fs)) == fs
    decreases |fs|
  {
    if |fs| > 1 {
      FramesAssemble(fs[1..]);
      var t := Assemble(fs);
      assert t.elements[..|t.elements| - 1] == fs[0].elements;
      assert Detach(t) == fs[0];
    }
  }

  // ---------------------------------------------------------------------------
  // What the active table does to itself

  /** The text of a finished cell: its fragments joined with one space, then
      stripped. */
  function CellText(cell: seq<string>): string
  {
    Strip(Join(cell, " "))
  }

  /** When the first and the last fragment of a cell are non-empty and have
      no whitespace at their ends, stripping the joined text removes nothing:
      the cell's text is its fragments with one space between each two. */
  lemma CellTextJoined(cell: seq<string>)
    requires |cell| > 0
    requires |cell[0]| > 0 && Trimmed(cell[0])
    requires |cell[|cell| - 1]| > 0 && Trimmed(cell[|cell| - 1])
    ensures CellText(cell) == Join(cell, " ")
  {
    var j := Join(cell, " ");
    JoinLast(cell, " ");
    assert j[0] == cell[0][0];
    assert Trimmed(j);
    assert "" + j + "" == j;
    StripUnique("", j, "");
  }

  /** Active branch of `set_in_td`. */
  function TdFlag(val: bool): Table -> Table
  {
    (a: Table) => a.(inTd := val)
  }

  /** Active branch of `set_in_th`. */
  function ThFlag(val: bool): Table -> Table
  {
    (a: Table) => a.(inTh := val)
  }

  /** Active branch of `append_to_cell`: text is kept only inside a cell. */
  function AddText(data: string): Table -> Table
  {
    (a: Table) => if a.inTd || a.inTh then a.(currentCell := a.currentCell + [data]) else a
  }

  /** Active branch of `append_to_row`. */
  function EndCell(a: Table): Table
  {
    a.(currentRow := a.currentRow + [CellText(a.currentCell)], currentCell := [])
  }

  /** Active branch of `append_to_table`. */
  function EndRow(a: Table): Table
  {
    a.(elements := a.elements + [Row(a.currentRow)], currentRow := [])
  }

  /** Active branch of `new_table`: the fresh table is appended at once and
      takes over. */
  function OpenChild(st: Pos): Table -> Table
  {
    (a: Table) => Attach(a, Fresh(st))
  }

  /** Active branch of `close_table`: pending data is flushed only when the
      cell buffer is non-empty, then the table is finalised. */
  function Finish(a: Table, ed: Pos): Table
  {
    var b := if |a.currentCell| > 0 then EndRow(EndCell(a)) else a;
    b.(isActive := false, ed := Some(ed))
  }

  // ---------------------------------------------------------------------------
  // The methods of `Table`

  /** The delegation every mutating method of `Table` shares: an active table
      applies the change `f` to itself, an inactive one to `self[-1]`. */
  function ApplyActive(t: Table, f: Table -> Table): (r: Table)
    requires Delegable(t)
    ensures Delegable(f(Active(t))) ==> Delegable(r) && Active(r) == Active(f(Active(t)))
    ensures !t.isActive ==> !r.isActive && r.st == t.st && r.ed == t.ed
    decreases t
  {
    if t.isActive then f(t)
    else t.(elements := t.elements[..|t.elements| - 1] + [Sub(ApplyActive(Last(t), f))])
  }

  function SetInTd(t: Table, val: bool): (r: Table)
    requires Delegable(t)
    ensures Delegable(r)
  {
    ApplyActive(t, TdFlag(val))
  }

  function SetInTh(t: Table, val: bool): (r: Table)
    requires Delegable(t)
    ensures Delegable(r)
  {
    ApplyActive(t, ThFlag(val))
  }

  function AppendToCell(t: Table, data: string): (r: Table)
    requires Delegable(t)
    ensures Delegable(r)
  {
    ApplyActive(t, AddText(data))
  }

  function AppendToRow(t: Table): (r: Table)
    requires Delegable(t)
    ensures Delegable(r)
  {
    ApplyActive(t, EndCell)
  }

  function AppendToTable(t: Table): (r: Table)
    requires Delegable(t)
    ensures Delegable(r)
  {
    ApplyActive(t, EndRow)
  }

  function NewTable(t: Table, st: Pos): (r: Table)
    requires Delegable(t)
    ensures Delegable(r)
  {
    OpenChildFrames(Active(t), st);
    ApplyActive(t, OpenChild(st))
  }

  /** `close_table`: the active table finishes itself and reports true; the
      table above it becomes active again and reports false, and every table
      further up only passes the false on. */
  function CloseTable(t: Table, ed: Pos): (res: (Table, bool))
    requires Delegable(t)
    ensures res.1 <==> t.isActive
    ensures !res.1 ==> Delegable(res.0) && res.0.st == t.st && res.0.ed == t.ed
    decreases t
  {
    if t.isActive then (Finish(t, ed), true)
    else
      var (c, ret) := CloseTable(Last(t), ed);
      (t.(elements := t.elements[..|t.elements| - 1] + [Sub(c)],
          isActive := if ret then true else t.isActive),
       false)
  }

  // ---------------------------------------------------------------------------
  // Invariants of reachable tables

  /** A finished table: inactive, with an end position, and every table nested
      in it finished too. */
  predicate Closed(t: Table)
    decreases t
  {
    && !t.isActive
    && t.ed.Some?
    && forall i :: 0 <= i < |t.elements| && t.elements[i].Sub? ==> Closed(t.elements[i].table)
  }

  predicate SubsClosed(es: seq<Entry>)
  {
    forall i :: 0 <= i < |es| && es[i].Sub? ==> Closed(es[i].table)
  }

  /** A frame of the open chain: active, not yet ended, and every table
      nested in it already finished. */
  predicate IsFrame(f: Table)
  {
    f.isActive && f.ed.None? && SubsClosed(f.elements)
  }

  predicate AllFrames(fs: seq<Table>)
  {
    forall i :: 0 <= i < |fs| ==> IsFrame(fs[i])
  }

  /** The chain invariant of an open table: delegation reaches an active
      table, and every table off the chain is finished. */
  predicate Open(t: Table)
  {
    Delegable(t) && AllFrames(Frames(t))
  }

  // ---------------------------------------------------------------------------
  // What each method of `Table` does to the chain

  /** Delegation changes the active table alone: the result's frames are the
      old frames with the last one replaced by the frames of its changed form. */
  lemma {:induction false} ApplyActiveFrames(t: Table, f: Table -> Table)
    requires Delegable(t) && Delegable(f(Active(t)))
    ensures Delegable(ApplyActive(t, f))
    ensures Frames(ApplyActive(t, f)) == Frames(t)[..|Frames(t)| - 1] + Frames(f(Active(t)))
    decreases t
  {
    if !t.isActive {
      var c := Last(t);
      ApplyActiveFrames(c, f);
      ApplyActiveStep(t, f);
      FramesStep(t);
      var fc := Frames(c);
      assert Frames(t)[..|Frames(t)| - 1] == [Detach(t)] + fc[..|fc| - 1];
    }
  }

  /** One level of delegation keeps the inactive table's own frame. */
  lemma ApplyActiveStep(t: Table, f: Table -> Table)
    requires Delegable(t) && !t.isActive
    requires Delegable(ApplyActive(Last(t), f))
    ensures Delegable(ApplyActive(t, f))
    ensures Frames(ApplyActive(t, f)) == [Detach(t)] + Frames(ApplyActive(Last(t), f))
  {
    var r := ApplyActive(t, f);
    var init := t.elements[..|t.elements| - 1];
    assert r.elements == init + [Sub(ApplyActive(Last(t), f))];
    assert r.elements[..|r.elements| - 1] == init;
    assert Detach(r) == Detach(t);
  }

  /** A change of the active table that keeps it a frame keeps the chain open
      and touches only the last frame. */
  lemma ChangeLastFrame(t: Table, f: Table -> Table)
    requires Delegable(t) && f(Active(t)).isActive
    ensures Delegable(ApplyActive(t, f))
    ensures Frames(ApplyActive(t, f)) == Frames(t)[|Frames(t)| - 1 := f(Active(t))]
    ensures Open(t) && IsFrame(f(Active(t))) ==> Open(ApplyActive(t, f))
  {
    ApplyActiveFrames(t, f);
    FramesShape(t);
  }

  /** `set_in_td` sets the flag of the active table; no other table changes. */
  lemma SetInTdFrames(t: Table, val: bool)
    requires Delegable(t)
    ensures Delegable(SetInTd(t, val))
    ensures var fs := Frames(t);
      Frames(SetInTd(t, val)) == fs[|fs| - 1 := fs[|fs| - 1].(inTd := val)]
    ensures Open(t) ==> Open(SetInTd(t, val))
  {
    FramesShape(t);
    ChangeLastFrame(t, TdFlag(val));
  }

  /** `set_in_th` sets the flag of the active table; no other table changes. */
  lemma SetInThFrames(t: Table, val: bool)
    requires Delegable(t)
    ensures Delegable(SetInTh(t, val))
    ensures var fs := Frames(t);
      Frames(SetInTh(t, val)) == fs[|fs| - 1 := fs[|fs| - 1].(inTh := val)]
    ensures Open(t) ==> Open(SetInTh(t, val))
  {
    FramesShape(t);
    ChangeLastFrame(t, ThFlag(val));
  }

  /** `append_to_cell` adds the text to the active table's cell buffer while
      that table is inside a `td` or `th`, and otherwise changes nothing. */
  lemma AppendToCellFrames(t: Table, data: string)
    requires Delegable(t)
    ensures Delegable(AppendToCell(t, data))
    ensures var fs := Frames(t); var a := fs[|fs| - 1];
      Frames(AppendToCell(t, data))
        == if a.inTd || a.inTh then fs[|fs| - 1 := a.(currentCell := a.currentCell + [data])] else fs
    ensures var a := Active(t); !(a.inTd || a.inTh) ==> AppendToCell(t, data) == t
    ensures Open(t) ==> Open(AppendToCell(t, data))
  {
    FramesShape(t);
    ChangeLastFrame(t, AddText(data));
    var a := Active(t);
    if !(a.inTd || a.inTh) {
      AssembleFrames(t);
      AssembleFrames(AppendToCell(t, data));
      assert Frames(t)[|Frames(t)| - 1 := a] == Frames(t);
    }
  }

  /** `append_to_row` ends the active table's cell: the row in progress gains
      the cell's fragments joined with a space and stripped (the empty string
      for an empty cell), the cell buffer is emptied, and no other table
      changes. */
  lemma AppendToRowFrames(t: Table)
    requires Delegable(t)
    ensures Delegable(AppendToRow(t))
    ensures var fs := Frames(t); var a := fs[|fs| - 1];
      Frames(AppendToRow(t))
        == fs[|fs| - 1 := a.(currentRow := a.currentRow + [Strip(Join(a.currentCell, " "))], currentCell := [])]
    ensures var a := Active(t); a.currentCell == [] ==>
      Active(AppendToRow(t)).currentRow == a.currentRow + [""]
    ensures Open(t) ==> Open(AppendToRow(t))
  {
    FramesShape(t);
    ChangeLastFrame(t, EndCell);
    ApplyActiveFrames(t, EndCell);
    FramesShape(AppendToRow(t));
  }

  /** `append_to_table` appends the active table's row in progress, even an
      empty one, as a new element and empties it; no other table changes. */
  lemma AppendToTableFrames(t: Table)
    requires Delegable(t)
    ensures Delegable(AppendToTable(t))
    ensures var fs := Frames(t); var a := fs[|fs| - 1];
      Frames(AppendToTable(t))
        == fs[|fs| - 1 := a.(elements := a.elements + [Row(a.currentRow)], currentRow := [])]
    ensures Open(t) ==> Open(AppendToTable(t))
  {
    FramesShape(t);
    var a := Active(t);
    ChangeLastFrame(t, EndRow);
    if IsFrame(a) {
      var b := EndRow(a);
      forall i | 0 <= i < |b.elements| && b.elements[i].Sub?
        ensures Closed(b.elements[i].table)
      {
        assert b.elements[i] == a.elements[i];
      }
    }
  }

  /** The active table with a fresh child attached is a chain of two frames. */
  lemma OpenChildFrames(a: Table, st: Pos)
    requires a.isActive
    ensures Delegable(OpenChild(st)(a))
    ensures Frames(OpenChild(st)(a)) == [a, Fresh(st)]
  {
    var b := Attach(a, Fresh(st));
    assert b.elements[..|b.elements| - 1] == a.elements;
    assert Detach(b) == a;
    assert OpenChild(st)(a) == b;
  }

  /** The frames after `new_table`, as a function of the frames before. */
  lemma NewTableStep(t: Table, st: Pos)
    requires Delegable(t)
    ensures Delegable(NewTable(t, st))
    ensures Frames(NewTable(t, st)) == Frames(t) + [Fresh(st)]
  {
    var a := Active(t);
    var r := ApplyActive(t, OpenChild(st));
    assert NewTable(t, st) == r;
    OpenChildFrames(a, st);
    ApplyActiveFrames(t, OpenChild(st));
    FramesShape(t);
    var fs := Frames(t);
    assert Frames(r) == fs[..|fs| - 1] + [a, Fresh(st)];
    assert fs[..|fs| - 1] + [a, Fresh(st)] == fs + [Fresh(st)];
  }

  /** `new_table` appends a fresh table, with the given start and nothing
      else, to the active table and makes it the active one: the chain grows
      by exactly that one frame. */
  lemma NewTableFrames(t: Table, st: Pos)
    requires Delegable(t)
    ensures Delegable(NewTable(t, st))
    ensures Frames(NewTable(t, st)) == Frames(t) + [Fresh(st)]
    ensures Depth(NewTable(t, st)) == Depth(t) + 1
    ensures Active(NewTable(t, st)) == Fresh(st)
    ensures Open(t) ==> Open(NewTable(t, st))
  {
    NewTableStep(t, st);
    FramesShape(t);
    var fs := Frames(t);
    var r := NewTable(t, st);
    FramesShape(r);
    if Open(t) {
      var rs := Frames(r);
      forall i | 0 <= i < |rs|
        ensures IsFrame(rs[i])
      {
        if i < |fs| {
          assert rs[i] == fs[i];
        }
      }
    }
  }

  /** Closing an active table: pending data is flushed only when the cell
      buffer is non-empty, and then as one more row holding the row in
      progress and the cell's text; otherwise a pending row is dropped. The
      table becomes inactive and gets its end position. */
  lemma FinishFlushes(a: Table, ed: Pos)
    ensures var b := Finish(a, ed);
      && !b.isActive && b.ed == Some(ed) && b.st == a.st
      && b.elements == (if |a.currentCell| > 0
                        then a.elements + [Row(a.currentRow + [CellText(a.currentCell)])]
                        else a.elements)
    ensures IsFrame(a) ==> Closed(Finish(a, ed))
  {
    var b := Finish(a, ed);
    if IsFrame(a) {
      forall i | 0 <= i < |b.elements| && b.elements[i].Sub?
        ensures Closed(b.elements[i].table)
      {
        assert b.elements[i] == a.elements[i];
      }
    }
  }

  /** The parent of a closed table, active again with the closed table as its
      last element. */
  function Reopen(parent: Table, closed: Table): Table
  {
    parent.(elements := parent.elements + [Sub(closed)])
  }

  lemma {:induction false} CloseTableFramesRec(t: Table, ed: Pos)
    requires Delegable(t)
    ensures var (r, ret) := CloseTable(t, ed); var fs := Frames(t);
      && |fs| >= 1
      && (ret <==> |fs| == 1)
      && (ret ==> r == Finish(t, ed))
      && (!ret ==> |fs| >= 2 && Delegable(r)
                   && Frames(r) == fs[..|fs| - 2] + [Reopen(fs[|fs| - 2], Finish(fs[|fs| - 1], ed))])
    decreases t
  {
    FramesShape(t);
    if !t.isActive {
      var c := Last(t);
      CloseTableFramesRec(c, ed);
      CloseTableStep(t, ed);
      FramesStep(t);
      var fc := Frames(c);
      var fs := Frames(t);
      if |fc| == 1 {
        assert fs[..|fs| - 2] == [];
      } else {
        assert fs[..|fs| - 2] == [Detach(t)] + fc[..|fc| - 2];
      }
    }
  }

  /** One level of `close_table` on an inactive table: it reports false, and
      reopens itself exactly when its last element reported true. */
  lemma CloseTableStep(t: Table, ed: Pos)
    requires Delegable(t) && !t.isActive
    ensures var (r, ret) := CloseTable(t, ed); var (rc, retc) := CloseTable(Last(t), ed);
      && !ret
      && (retc ==> r == Reopen(Detach(t), rc) && Delegable(r) && Frames(r) == [r])
      && (!retc && Delegable(rc) ==> Delegable(r) && Frames(r) == [Detach(t)] + Frames(rc))
  {
    var (r, ret) := CloseTable(t, ed);
    var (rc, retc) := CloseTable(Last(t), ed);
    var init := t.elements[..|t.elements| - 1];
    assert r.elements == init + [Sub(rc)];
    assert r.elements[..|r.elements| - 1] == init;
    if !retc {
      assert Detach(r) == Detach(t);
    }
  }

  /** `close_table` reports true exactly when the root itself was the active
      table, which is then finished. Otherwise it reports false: the active
      table is finished and stays the last element of its parent, that parent
      alone becomes active again, and the chain is one table shorter. */
  lemma CloseTableFrames(t: Table, ed: Pos)
    requires Delegable(t)
    ensures var (r, ret) := CloseTable(t, ed); var fs := Frames(t);
      && (ret <==> t.isActive)
      && (ret ==> r == Finish(t, ed))
      && (!ret ==> |fs| >= 2 && Delegable(r) && Depth(r) == Depth(t) - 1
                   && Frames(r) == fs[..|fs| - 2] + [Reopen(fs[|fs| - 2], Finish(fs[|fs| - 1], ed))])
  {
    CloseTableFramesRec(t, ed);
    FramesShape(t);
    var (r, ret) := CloseTable(t, ed);
    if !ret {
      FramesShape(r);
    }
  }

  /** A frame that takes back a finished child as its last element is still a
      frame. */
  lemma ReopenIsFrame(p: Table, closed: Table)
    requires IsFrame(p) && Closed(closed)
    ensures IsFrame(Reopen(p, closed))
  {
    var q := Reopen(p, closed);
    forall i | 0 <= i < |q.elements| && q.elements[i].Sub?
      ensures Closed(q.elements[i].table)
    {
      if i < |p.elements| {
        assert q.elements[i] == p.elements[i];
      }
    }
  }

  /** Dropping the last two frames and pushing a frame keeps every frame one. */
  lemma PopPushFrames(fs: seq<Table>, q: Table)
    requires |fs| >= 2 && AllFrames(fs) && IsFrame(q)
    ensures AllFrames(fs[..|fs| - 2] + [q])
  {
    var rs := fs[..|fs| - 2] + [q];
    forall i | 0 <= i < |rs|
      ensures IsFrame(rs[i])
    {
      if i < |fs| - 2 {
        assert rs[i] == fs[i];
      }
    }
  }

  /** Closing keeps the invariants: the table that reports true is finished
      with every table inside it, and after a nested close the chain is still
      open. */
  lemma CloseTableKeepsOpen(t: Table, ed: Pos)
    requires Open(t)
    ensures var (r, ret) := CloseTable(t, ed); if ret then Closed(r) else Open(r)
  {
    CloseTableFramesRec(t, ed);
    var (r, ret) := CloseTable(t, ed);
    var fs := Frames(t);
    if ret {
      FinishFlushes(t, ed);
    } else {
      var closed := Finish(fs[|fs| - 1], ed);
      FinishFlushes(fs[|fs| - 1], ed);
      ReopenIsFrame(fs[|fs| - 2], closed);
      PopPushFrames(fs, Reopen(fs[|fs| - 2], closed));
    }
  }
}
