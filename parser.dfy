/** `HTMLTableParser` of html_table_parser/parser.py: three tokenizer
    callbacks mapped onto the operations of the open table chain.

    The handlers are first given as functions on a `State` value, the
    specification, together with their properties and whole event sequences
    (`Feed`). The class `HTMLTableParser` then holds the same state the way the
    parser updates it, field by field, with the open chain kept as a stack of
    frames; each of its methods is proved to act as the corresponding function. */
module Parser {
  import opened Text
  import opened Tables

  /** `_current_table`, the root of the open chain or nothing, and `tables`,
      the finished top-level tables. */
  datatype State = State(current: Option<Table>, tables: seq<Table>)

  /** A tokenizer callback, with the position `getpos()` reports for it. */
  datatype Event =
    | StartTag(tag: string, pos: Pos)
    | Data(data: string)
    | EndTag(tag: string, pos: Pos)

  /** The state after `__init__`. */
  const Initial := State(None, [])

  /** What the handlers need to call into the chain. */
  predicate Ready(s: State)
  {
    s.current.Some? ==> Delegable(s.current.value)
  }

  /** The invariant of every reachable state: the open chain is open, every
      finished table is closed. */
  predicate Good(s: State)
  {
    && (s.current.Some? ==> Open(s.current.value))
    && forall i :: 0 <= i < |s.tables| ==> Closed(s.tables[i])
  }

  /** `handle_starttag`. */
  function OnStartTag(s: State, tag: string, st: Pos): (r: State)
    requires Ready(s)
    ensures Ready(r)
  {
    if tag == "td" && s.current.Some? then s.(current := Some(SetInTd(s.current.value, true)))
    else if tag == "th" && s.current.Some? then s.(current := Some(SetInTh(s.current.value, true)))
    else if tag == "table" then
      if s.current.None? then s.(current := Some(Fresh(st)))
      else s.(current := Some(NewTable(s.current.value, st)))
    else s
  }

  /** `handle_data`: the text is stripped before it reaches the chain. */
  function OnData(s: State, data: string): (r: State)
    requires Ready(s)
    ensures Ready(r)
  {
    if s.current.Some? then s.(current := Some(AppendToCell(s.current.value, Strip(data)))) else s
  }

  /** `handle_endtag`: the cell flag is cleared first, then the end of the
      cell, row or table is acted on. */
  function OnEndTag(s: State, tag: string, ed: Pos): (r: State)
    requires Ready(s)
    ensures Ready(r)
  {
    EndAction(EndFlags(s, tag), tag, ed)
  }

  /** The first half of `handle_endtag`: `</td>` and `</th>` clear their flag. */
  function EndFlags(s: State, tag: string): (r: State)
    requires Ready(s)
    ensures Ready(r)
  {
    if tag == "td" && s.current.Some? then s.(current := Some(SetInTd(s.current.value, false)))
    else if tag == "th" && s.current.Some? then s.(current := Some(SetInTh(s.current.value, false)))
    else s
  }

  /** The second half of `handle_endtag`: a cell, row or table ends. */
  function EndAction(s1: State, tag: string, ed: Pos): (r: State)
    requires Ready(s1)
    ensures Ready(r)
  {
    if (tag == "td" || tag == "th") && s1.current.Some? then
      s1.(current := Some(AppendToRow(s1.current.value)))
    else if tag == "tr" && s1.current.Some? then
      s1.(current := Some(AppendToTable(s1.current.value)))
    else if tag == "table" && s1.current.Some? then
      var (t, ret) := CloseTable(s1.current.value, ed);
      if ret then State(None, s1.tables + [t]) else s1.(current := Some(t))
    else s1
  }

  function Step(s: State, e: Event): (r: State)
    requires Ready(s)
    ensures Ready(r)
  {
    match e
    case StartTag(tag, pos) => OnStartTag(s, tag, pos)
    case Data(data) => OnData(s, data)
    case EndTag(tag, pos) => OnEndTag(s, tag, pos)
  }

  /** The state after the callbacks for `events`, in order. */
  function Feed(s: State, events: seq<Event>): (r: State)
    requires Ready(s)
    ensures Ready(r)
    decreases |events|
  {
    if |events| == 0 then s else Feed(Step(s, events[0]), events[1..])
  }

  // ---------------------------------------------------------------------------
  // Properties of the handlers

  lemma StartTagKeepsGood(s: State, tag: string, st: Pos)
    requires Good(s)
    ensures Good(OnStartTag(s, tag, st))
  {
    if s.current.Some? {
      var t := s.current.value;
      SetInTdFrames(t, true);
      SetInThFrames(t, true);
      NewTableFrames(t, st);
    }
  }

  lemma DataKeepsGood(s: State, data: string)
    requires Good(s)
    ensures Good(OnData(s, data))
  {
    if s.current.Some? {
      AppendToCellFrames(s.current.value, Strip(data));
    }
  }

  lemma EndTagKeepsGood(s: State, tag: string, ed: Pos)
    requires Good(s)
    ensures Good(OnEndTag(s, tag, ed))
  {
    var r := OnEndTag(s, tag, ed);
    if s.current.Some? {
      var t := s.current.value;
      if tag == "td" {
        SetInTdFrames(t, false);
        AppendToRowFrames(SetInTd(t, false));
        assert r == s.(current := Some(AppendToRow(SetInTd(t, false))));
      } else if tag == "th" {
        SetInThFrames(t, false);
        AppendToRowFrames(SetInTh(t, false));
        assert r == s.(current := Some(AppendToRow(SetInTh(t, false))));
      } else if tag == "tr" {
        AppendToTableFrames(t);
        assert r == s.(current := Some(AppendToTable(t)));
      } else if tag == "table" {
        CloseTableKeepsOpen(t, ed);
        var (c, ret) := CloseTable(t, ed);
        if ret {
          assert r == State(None, s.tables + [c]);
        } else {
          assert r == s.(current := Some(c));
        }
      } else {
        assert r == s;
      }
    }
  }

  /** The chain invariant holds in every state a callback can reach. */
  lemma StepKeepsGood(s: State, e: Event)
    requires Good(s)
    ensures Good(Step(s, e))
  {
    match e
    case StartTag(tag, pos) => StartTagKeepsGood(s, tag, pos);
    case Data(data) => DataKeepsGood(s, data);
    case EndTag(tag, pos) => EndTagKeepsGood(s, tag, pos);
  }

  lemma {:induction false} FeedKeepsGood(s: State, events: seq<Event>)
    requires Good(s)
    ensures Good(Feed(s, events))
    decreases |events|
  {
    if |events| > 0 {
      StepKeepsGood(s, events[0]);
      FeedKeepsGood(Step(s, events[0]), events[1..]);
    }
  }

  /** Every state a fresh parser reaches is good: each table on the open chain
      that is not the active one has an open table as its last element, and
      every table in `tables` is finished. */
  lemma ReachableIsGood(events: seq<Event>)
    ensures Good(Feed(Initial, events))
  {
    FeedKeepsGood(Initial, events);
  }

  /** `tables` changes only on a `</table>` that the root itself answers:
      then it gains exactly that finished root and no table stays open. Every
      other callback leaves `tables` alone and a table open exactly when one
      was. */
  lemma TablesGrowOnlyOnRootClose(s: State, e: Event)
    requires Ready(s)
    ensures var r := Step(s, e);
      if e.EndTag? && e.tag == "table" && s.current.Some? && s.current.value.isActive then
        r.current == None && r.tables == s.tables + [Finish(s.current.value, e.pos)]
      else
        r.tables == s.tables && (r.current.Some? <==> s.current.Some? || (e.StartTag? && e.tag == "table"))
  {
  }

  /** With no table open, only `<table>` does anything; it opens a root. */
  lemma IdleIgnores(s: State, e: Event)
    requires s.current.None?
    ensures Step(s, e) == if e.StartTag? && e.tag == "table" then s.(current := Some(Fresh(e.pos))) else s
  {
  }

  /** Text reaches the active table's cell buffer, stripped, only while that
      table is inside a `td` or `th`; no other table changes. */
  lemma DataGoesToActiveCell(s: State, data: string)
    requires Ready(s) && s.current.Some?
    ensures var t := s.current.value; var r := OnData(s, data);
      var fs := Frames(t); var a := fs[|fs| - 1];
      && r.tables == s.tables && r.current.Some?
      && Frames(r.current.value)
         == if a.inTd || a.inTh then fs[|fs| - 1 := a.(currentCell := a.currentCell + [Strip(data)])] else fs
  {
    AppendToCellFrames(s.current.value, Strip(data));
  }

  /** Finished tables are never taken back or changed: a run only appends. */
  lemma {:induction false} FeedOnlyAppends(s: State, events: seq<Event>)
    requires Ready(s)
    ensures |Feed(s, events).tables| >= |s.tables|
    ensures Feed(s, events).tables[..|s.tables|] == s.tables
    decreases |events|
  {
    if |events| > 0 {
      var s1 := Step(s, events[0]);
      TablesGrowOnlyOnRootClose(s, events[0]);
      FeedOnlyAppends(s1, events[1..]);
      assert s1.tables[..|s.tables|] == s.tables;
    }
  }

  /** Without a `</table>` nothing is added to `tables`: a table whose end
      tag never comes is not reported. */
  lemma {:induction false} NoEndNoTables(s: State, events: seq<Event>)
    requires Ready(s)
    requires forall i :: 0 <= i < |events| ==> !(events[i].EndTag? && events[i].tag == "table")
    ensures Feed(s, events).tables == s.tables
    decreases |events|
  {
    if |events| > 0 {
      TablesGrowOnlyOnRootClose(s, events[0]);
      NoEndNoTables(Step(s, events[0]), events[1..]);
    }
  }

  // ---------------------------------------------------------------------------
  // The parser object

  class HTMLTableParser {
    /** `_data_separator`: stored, never read. */
    const dataSeparator: string
    /** The open chain as frames, root first and active table last; empty when
        `_current_table` is None. */
    var chain: seq<Table>
    var tables: seq<Table>

    ghost predicate Valid()
      reads this
    {
      AllFrames(chain) && forall i :: 0 <= i < |tables| ==> Closed(tables[i])
    }

    /** `_current_table`. */
    function Current(): Option<Table>
      reads this
    {
      if chain == [] then None else Some(Assemble(chain))
    }

    function Snapshot(): State
      reads this
    {
      State(Current(), tables)
    }

    /** The frames of a valid parser are those of the chain they assemble. */
    lemma ChainIsFrames()
      requires Valid()
      ensures Good(Snapshot())
      ensures chain != [] ==> Open(Assemble(chain)) && Frames(Assemble(chain)) == chain
    {
      if chain != [] {
        FramesAssemble(chain);
      }
    }

    constructor (dataSeparator: string)
      ensures Valid() && Snapshot() == Initial
      ensures this.dataSeparator == dataSeparator
    {
      this.dataSeparator := dataSeparator;
      chain := [];
      tables := [];
    }

    method SetInTd(val: bool)
      requires Valid() && chain != []
      modifies this
      ensures Valid() && chain != [] && tables == old(tables)
      ensures Current() == Some(Tables.SetInTd(old(Current()).value, val))
    {
      ChainIsFrames();
      ghost var t := Assemble(chain);
      SetInTdFrames(t, val);
      chain := chain[|chain| - 1 := chain[|chain| - 1].(inTd := val)];
      assert chain == Frames(Tables.SetInTd(t, val));
      AssembleFrames(Tables.SetInTd(t, val));
    }

    method SetInTh(val: bool)
      requires Valid() && chain != []
      modifies this
      ensures Valid() && chain != [] && tables == old(tables)
      ensures Current() == Some(Tables.SetInTh(old(Current()).value, val))
    {
      ChainIsFrames();
      ghost var t := Assemble(chain);
      SetInThFrames(t, val);
      chain := chain[|chain| - 1 := chain[|chain| - 1].(inTh := val)];
      assert chain == Frames(Tables.SetInTh(t, val));
      AssembleFrames(Tables.SetInTh(t, val));
    }

    method AppendToCell(data: string)
      requires Valid() && chain != []
      modifies this
      ensures Valid() && chain != [] && tables == old(tables)
      ensures Current() == Some(Tables.AppendToCell(old(Current()).value, data))
    {
      ChainIsFrames();
      ghost var t := Assemble(chain);
      AppendToCellFrames(t, data);
      var a := chain[|chain| - 1];
      if a.inTd || a.inTh {
        chain := chain[|chain| - 1 := a.(currentCell := a.currentCell + [data])];
      }
      assert chain == Frames(Tables.AppendToCell(t, data));
      AssembleFrames(Tables.AppendToCell(t, data));
    }

    method AppendToRow()
      requires Valid() && chain != []
      modifies this
      ensures Valid() && chain != [] && tables == old(tables)
      ensures Current() == Some(Tables.AppendToRow(old(Current()).value))
    {
      ChainIsFrames();
      ghost var t := Assemble(chain);
      AppendToRowFrames(t);
      var a := chain[|chain| - 1];
      var finalCell := Strip(Join(a.currentCell, " "));
      chain := chain[|chain| - 1 := a.(currentRow := a.currentRow + [finalCell], currentCell := [])];
      assert chain == Frames(Tables.AppendToRow(t));
      AssembleFrames(Tables.AppendToRow(t));
    }

    method AppendToTable()
      requires Valid() && chain != []
      modifies this
      ensures Valid() && chain != [] && tables == old(tables)
      ensures Current() == Some(Tables.AppendToTable(old(Current()).value))
    {
      ChainIsFrames();
      ghost var t := Assemble(chain);
      AppendToTableFrames(t);
      var a := chain[|chain| - 1];
      chain := chain[|chain| - 1 := a.(elements := a.elements + [Row(a.currentRow)], currentRow := [])];
      assert chain == Frames(Tables.AppendToTable(t));
      AssembleFrames(Tables.AppendToTable(t));
    }

    method NewTable(st: Pos)
      requires Valid() && chain != []
      modifies this
      ensures Valid() && tables == old(tables)
      ensures chain == old(chain) + [Fresh(st)]
      ensures Current() == Some(Tables.NewTable(old(Current()).value, st))
    {
      ChainIsFrames();
      ghost var t := Assemble(chain);
      NewTableFrames(t, st);
      chain := chain + [Fresh(st)];
      assert chain == Frames(Tables.NewTable(t, st));
      AssembleFrames(Tables.NewTable(t, st));
    }

    /** `close_table` on `_current_table`. Besides the flag, returns the table
        that closed: the root when the flag is true (the chain is then empty),
        otherwise the nested table, now the last element of its reactivated
        parent. */
    method CloseTable(ed: Pos) returns (ret: bool, closed: Table)
      requires Valid() && chain != []
      modifies this
      ensures Valid() && tables == old(tables)
      ensures ret <==> |old(chain)| == 1
      ensures closed == Finish(old(chain)[|old(chain)| - 1], ed) && Closed(closed)
      ensures ret ==> chain == [] && Tables.CloseTable(old(Current()).value, ed) == (closed, true)
      ensures !ret ==> |chain| == |old(chain)| - 1
                       && Tables.CloseTable(old(Current()).value, ed) == (Current().value, false)
    {
      ChainIsFrames();
      ghost var t := Assemble(chain);
      CloseTableFrames(t, ed);
      CloseTableKeepsOpen(t, ed);
      var n := |chain|;
      FinishFlushes(chain[n - 1], ed);
      closed := Finish(chain[n - 1], ed);
      if n == 1 {
        ret := true;
        chain := [];
      } else {
        ret := false;
        chain := chain[..n - 2] + [Reopen(chain[n - 2], closed)];
        var (r, _) := Tables.CloseTable(t, ed);
        assert Open(r);
        forall i | 0 <= i < |chain| ensures IsFrame(chain[i]) {
          assert chain[i] == Frames(r)[i];
        }
        AssembleFrames(r);
      }
    }

    method HandleStartTag(tag: string, st: Pos)
      requires Valid()
      modifies this
      ensures Valid()
      ensures Snapshot() == OnStartTag(old(Snapshot()), tag, st)
    {
      if tag == "td" && chain != [] {
        SetInTd(true);
      }
      if tag == "th" && chain != [] {
        SetInTh(true);
      }
      if tag == "table" {
        if chain == [] {
          chain := [Fresh(st)];
        } else {
          NewTable(st);
        }
      }
    }

    method HandleData(data: string)
      requires Valid()
      modifies this
      ensures Valid()
      ensures Snapshot() == OnData(old(Snapshot()), data)
    {
      if chain != [] {
        AppendToCell(Strip(data));
      }
    }

    method HandleEndTag(tag: string, ed: Pos)
      requires Valid()
      modifies this
      ensures Valid()
      ensures Snapshot() == OnEndTag(old(Snapshot()), tag, ed)
    {
      ghost var s1 := EndFlags(old(Snapshot()), tag);
      if tag == "td" && chain != [] {
        SetInTd(false);
      } else if tag == "th" && chain != [] {
        SetInTh(false);
      }
      assert Snapshot() == s1;
      if (tag == "td" || tag == "th") && chain != [] {
        AppendToRow();
      } else if tag == "tr" && chain != [] {
        AppendToTable();
      } else if tag == "table" && chain != [] {
        var ret, closed := CloseTable(ed);
        if ret {
          tables := tables + [closed];
        }
      }
    }
  }
}
