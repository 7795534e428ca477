# html_table_parser in Dafny

A model of the table-assembly state machine of `html_table_parser/parser.py`.
The HTML tokenizer reports start tags, text and end tags. `HTMLTableParser`
turns these callbacks into operations on a tree of `Table` nodes. A `Table` is a
list whose elements interleave finished rows (lists of cell strings) and nested
tables. Each node also holds:

- start and end positions;
- an active flag;
- the `td`/`th` capture flags;
- a cell buffer and a row buffer.

An inactive table forwards every operation to its last element. The open
tables therefore form a chain from `_current_table` down to the one active
table.

The project has three modules, one file each:

- `Text` (`text.dfy`): Python's `str.strip()` (the whitespace set of
  `str.isspace`) and `sep.join`. It proves that strip is characterised by its
  result (`StripUnique`, `StripSplits`) and is idempotent.
- `Tables` (`tables.dfy`): `Table` as a value (`datatype Table`). Every method of
  the Python class is written as `ApplyActive` (the shared `self[-1]`
  delegation) applied to the change the active table makes to itself.
  `close_table`, which returns a flag, is its own recursive function. The same
  chain is also read as a stack of *frames*, root first: the frame of a table
  is that table, active, without its open child. `Frames` and `Assemble`
  convert between the two readings, and both round trips are proved. Each
  operation is then proved to change only the last frame (`set_in_td`,
  `set_in_th`, `append_to_cell`, `append_to_row`, `append_to_table`), to push a
  frame (`new_table`), or to pop one (`close_table`). The chain invariant
  `Open` is preserved by each of them.
- `Parser` (`parser.dfy`): the three handlers as functions on a
  `State(current, tables)` value, and `Feed` over a sequence of callbacks. It
  also has the class `HTMLTableParser`, which holds the open chain as a
  mutable stack of frames (`chain`) plus the `tables` list. Each method of the
  class updates the fields in place and is proved to produce exactly the state
  the corresponding function describes.

Three behaviours of the code that are easy to miss:

- A nested table is appended to its parent when it opens (`new_table`), not
  when it closes.
- Cell fragments are always joined with a single space and then stripped. The
  `data_separator` argument is stored but never read.
- When a table closes, the pending cell and row are flushed only if the cell
  buffer is non-empty. A pending row with an empty cell buffer is dropped.

## Model

The functions that carry the source's behaviour are specified through the
lemmas in the table. `Table.__init__` (html_table_parser/parser.py:21-33) is
`Tables.Fresh`. The active branches of the `Table` methods are `Tables.TdFlag`,
`ThFlag`, `AddText`, `EndCell`, `EndRow`, `OpenChild` and `Finish`, the last
being lines 82-88 of `close_table`. The cell text of line 59 is
`Tables.CellText`, built from `Text.Join`. The `str.strip` of lines 59 and 135
is `Text.Strip`, built from `Text.IsSpace`, `TrimLeft` and `TrimRight`.

| member | source | states |
|---|---|---|
| Text.Strip | html_table_parser/parser.py:59 | the result is no longer than the input and has no whitespace at either end |
| Text.TrimLeftSpec | html_table_parser/parser.py:59 | `lstrip` leaves a suffix that does not start with whitespace and removes only whitespace |
| Text.TrimRightSpec | html_table_parser/parser.py:59 | `rstrip` leaves a prefix that does not end with whitespace and removes only whitespace |
| Text.TrimLeftSkips | html_table_parser/parser.py:135 | whitespace in front of a string does not change what `lstrip` leaves |
| Text.TrimRightSkips | html_table_parser/parser.py:135 | whitespace after a string does not change what `rstrip` leaves |
| Text.LeftSplit | html_table_parser/parser.py:135 | every string is a whitespace prefix followed by what `lstrip` leaves |
| Text.RightSplit | html_table_parser/parser.py:135 | every string is what `rstrip` leaves followed by a whitespace suffix |
| Text.StripUnique | html_table_parser/parser.py:135 | a string with no whitespace at its ends, surrounded by any whitespace, strips back to itself |
| Text.StripSplits | html_table_parser/parser.py:135 | every string is its stripped form with whitespace before and after it |
| Text.StripIdempotent | html_table_parser/parser.py:135 | stripping twice is stripping once |
| Text.JoinSnoc | html_table_parser/parser.py:59 | joining one more fragment appends the separator and that fragment |
| Text.JoinLast | html_table_parser/parser.py:59 | a join whose last fragment is non-empty ends with that fragment's last character |
| Text.JoinLength | html_table_parser/parser.py:59 | the joined length is the fragments' total length plus one separator between each two |
| Tables.CellTextJoined | html_table_parser/parser.py:59 | if the first and last fragments are non-empty and stripped, the cell text is the fragments joined by one space, with nothing removed |
| Tables.Active | html_table_parser/parser.py:38-42 | delegation through `self[-1]` ends in an active table |
| Tables.ChainHasOneActive | html_table_parser/parser.py:38-93 | the chain has `Depth` tables; exactly one is active, the last, which is the table delegation reaches |
| Tables.Assemble | html_table_parser/parser.py:72-78 | a stack of active frames assembles into a chain whose delegation reaches an active table |
| Tables.FramesShape | html_table_parser/parser.py:38-93 | one frame per open table, all active, the last being the active table |
| Tables.FramesStep | html_table_parser/parser.py:38-93 | an inactive table contributes its own frame, followed by the frames of its last element |
| Tables.AttachDetach | html_table_parser/parser.py:72-78 | detaching the open child and attaching it again gives the table back |
| Tables.AssembleCons | html_table_parser/parser.py:72-78 | assembling a frame on top of a stack attaches the rest as its open child |
| Tables.AssembleFrames | html_table_parser/parser.py:38-93 | every chain is the assembly of its frames |
| Tables.FramesAssemble | html_table_parser/parser.py:38-93 | every stack of active frames assembles into a chain whose frames are that stack |
| Tables.ApplyActive | html_table_parser/parser.py:38-70 | delegation yields a chain whose active table is the changed active table; an inactive root stays inactive and keeps its positions |
| Tables.SetInTd | html_table_parser/parser.py:38-42 | the result is still a chain that delegation can follow |
| Tables.SetInTh | html_table_parser/parser.py:44-48 | the result is still a chain that delegation can follow |
| Tables.AppendToCell | html_table_parser/parser.py:50-55 | the result is still a chain that delegation can follow |
| Tables.AppendToRow | html_table_parser/parser.py:57-63 | the result is still a chain that delegation can follow |
| Tables.AppendToTable | html_table_parser/parser.py:65-70 | the result is still a chain that delegation can follow |
| Tables.NewTable | html_table_parser/parser.py:72-78 | the result is still a chain that delegation can follow |
| Tables.CloseTable | html_table_parser/parser.py:80-93 | reports true exactly when the table itself is active; when false, the result is a chain with the same start and end positions |
| Tables.ApplyActiveFrames | html_table_parser/parser.py:38-70 | delegation replaces the last frame by the frames of the changed active table; every ancestor frame is unchanged |
| Tables.ApplyActiveStep | html_table_parser/parser.py:40-42 | one level of delegation keeps the inactive table's own frame |
| Tables.ChangeLastFrame | html_table_parser/parser.py:38-70 | a change that keeps the active table active updates only the last frame, and keeps the chain open if the new table is a frame |
| Tables.SetInTdFrames | html_table_parser/parser.py:38-42 | only the active table changes: its `inTd` becomes `val`; the chain stays open |
| Tables.SetInThFrames | html_table_parser/parser.py:44-48 | only the active table changes: its `inTh` becomes `val`; the chain stays open |
| Tables.AppendToCellFrames | html_table_parser/parser.py:50-55 | the fragment is appended to the active table's cell buffer only while it is in a `td` or `th`; otherwise the whole chain is unchanged |
| Tables.AppendToRowFrames | html_table_parser/parser.py:57-63 | the active table's row gains the stripped, space-joined cell (`""` for an empty cell); its cell buffer empties; nothing else changes |
| Tables.AppendToTableFrames | html_table_parser/parser.py:65-70 | the active table gains its row in progress as an element, even an empty one, and resets it; nothing else changes |
| Tables.OpenChildFrames | html_table_parser/parser.py:73-76 | an active table with a fresh child attached is the two frames: the table, then the fresh table |
| Tables.NewTableStep | html_table_parser/parser.py:72-78 | after `new_table` the frames are the old frames plus one fresh table |
| Tables.NewTableFrames | html_table_parser/parser.py:21-33 | `new_table` pushes a fresh table (given start, no end, no elements, empty buffers, active); depth grows by one; the chain stays open |
| Tables.FinishFlushes | html_table_parser/parser.py:82-88 | a closing table gains one row (row in progress plus cell text) only if its cell buffer is non-empty, else a pending row is dropped; it becomes inactive with end `ed`; a frame closes into a finished table |
| Tables.CloseTableFramesRec | html_table_parser/parser.py:80-93 | true exactly for a one-frame chain; otherwise the last frame is finished and becomes the last element of its parent, which is active again |
| Tables.CloseTableStep | html_table_parser/parser.py:89-93 | an inactive table reports false and becomes active again exactly when its last element reported true |
| Tables.CloseTableFrames | html_table_parser/parser.py:80-93 | true exactly when the root is active, which is then finished; otherwise only the direct parent reactivates, only the closed table gets `ed`, and depth drops by one |
| Tables.ReopenIsFrame | html_table_parser/parser.py:91-92 | a frame that takes back a finished child is still a frame |
| Tables.PopPushFrames | html_table_parser/parser.py:89-93 | replacing the last two frames by one frame keeps every entry a frame |
| Tables.CloseTableKeepsOpen | html_table_parser/parser.py:80-93 | the table that reports true is finished, with everything nested in it; after a nested close the chain is still open |
| Parser.OnStartTag | html_table_parser/parser.py:117-130 | the handler's result can still be delegated through |
| Parser.OnData | html_table_parser/parser.py:132-135 | the handler's result can still be delegated through |
| Parser.OnEndTag | html_table_parser/parser.py:137-156 | the handler's result can still be delegated through |
| Parser.EndFlags | html_table_parser/parser.py:143-146 | clearing a cell flag keeps the state one that can be delegated through |
| Parser.EndAction | html_table_parser/parser.py:148-156 | ending a cell, row or table keeps the state one that can be delegated through |
| Parser.Step | html_table_parser/parser.py:117-156 | one callback keeps the state one that can be delegated through |
| Parser.Feed | html_table_parser/parser.py:117-156 | a run of callbacks keeps the state one that can be delegated through |
| Parser.StartTagKeepsGood | html_table_parser/parser.py:117-130 | `handle_starttag` keeps the chain open and every table in `tables` finished |
| Parser.DataKeepsGood | html_table_parser/parser.py:132-135 | `handle_data` keeps the chain open and every table in `tables` finished |
| Parser.EndTagKeepsGood | html_table_parser/parser.py:137-156 | `handle_endtag` keeps the chain open and every table in `tables` finished |
| Parser.StepKeepsGood | html_table_parser/parser.py:117-156 | every callback keeps the invariant |
| Parser.FeedKeepsGood | html_table_parser/parser.py:117-156 | every run of callbacks keeps the invariant |
| Parser.ReachableIsGood | html_table_parser/parser.py:104-156 | every state reachable from a fresh parser satisfies the chain invariant; every reported table is finished |
| Parser.TablesGrowOnlyOnRootClose | html_table_parser/parser.py:117-156 | `tables` gains one finished root, and the current table becomes None, exactly on a `</table>` the root answers; otherwise `tables` is unchanged and a table is open iff one was or this is `<table>` |
| Parser.IdleIgnores | html_table_parser/parser.py:122-130 | with no table open, only `<table>` changes the state; it opens a fresh root |
| Parser.DataGoesToActiveCell | html_table_parser/parser.py:132-135 | stripped text reaches only the active table's cell buffer, and only inside a `td` or `th` |
| Parser.FeedOnlyAppends | html_table_parser/parser.py:155 | finished tables are never removed or changed; `tables` only grows at the end |
| Parser.NoEndNoTables | html_table_parser/parser.py:153-156 | without a `</table>` callback nothing is reported; an unterminated table is never added |
| Parser.HTMLTableParser.ChainIsFrames | html_table_parser/parser.py:110-115 | a valid parser's chain is the frame stack of an open table, and its state satisfies the invariant |
| Parser.HTMLTableParser.constructor | html_table_parser/parser.py:104-115 | a new parser has no open table and no tables, and stores the separator |
| Parser.HTMLTableParser.SetInTd | html_table_parser/parser.py:38-42 | updating the last frame in place yields `set_in_td` on the current table |
| Parser.HTMLTableParser.SetInTh | html_table_parser/parser.py:44-48 | updating the last frame in place yields `set_in_th` on the current table |
| Parser.HTMLTableParser.AppendToCell | html_table_parser/parser.py:50-55 | updating the last frame in place yields `append_to_cell` on the current table |
| Parser.HTMLTableParser.AppendToRow | html_table_parser/parser.py:57-63 | updating the last frame in place yields `append_to_row` on the current table |
| Parser.HTMLTableParser.AppendToTable | html_table_parser/parser.py:65-70 | updating the last frame in place yields `append_to_table` on the current table |
| Parser.HTMLTableParser.NewTable | html_table_parser/parser.py:72-78 | pushing a fresh frame yields `new_table` on the current table |
| Parser.HTMLTableParser.CloseTable | html_table_parser/parser.py:80-93 | true iff one frame was open; the closed table is the finished last frame; popping and reopening the parent yields `close_table` on the current table |
| Parser.HTMLTableParser.HandleStartTag | html_table_parser/parser.py:117-130 | the new state is `OnStartTag` of the old one |
| Parser.HTMLTableParser.HandleData | html_table_parser/parser.py:132-135 | the new state is `OnData` of the old one |
| Parser.HTMLTableParser.HandleEndTag | html_table_parser/parser.py:137-156 | the new state is `OnEndTag` of the old one |

## Left out

- Tokenization by the standard library's `html.parser.HTMLParser` is not modelled: `feed`, `getpos`, `convert_charrefs` and entity decoding. Callbacks and their positions are inputs (`Event`, `Pos`), so `decode_html_entities` has no effect in the model.
- Start-tag attributes are ignored by the source and are not passed in.
- The `error` override and `__repr__` are not modelled. They have no behaviour to verify.
- example_of_usage.py is not part of this model. It is network fetching and printing.
- `data_separator` is kept as a field only. The source never reads it, so it has no effect.
- Whitespace follows the set of characters `str.isspace` accepts, hard-coded. Changes between Unicode database versions are not tracked.
- Tables are values. Python list aliasing is not modelled: rows, buffers and tables are shared by no other object in the source, so no result depends on it.
- Parser.HTMLTableParser.CloseTable: the closed root comes back as an out-parameter. In the source it stays in `_current_table` until `handle_endtag` appends it to `tables`. The resulting state is the same.
