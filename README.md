# decel, modelled in Dafny

decel is a terminal spreadsheet. This project models its core in Dafny and proves properties of the model:

- the formula engine;
- the table store;
- the dependency tree between cells;
- the text and key helpers of the view;
- the configuration file;
- the buffered windows and the navigation of the sheet view.

The model has one module per source file:

- **Common**: shared pieces.
  - `Option` and `Result`.
  - Python's `' ' * n`, `str.find`-style search and `str(int)` (`ShowNat`, `ShowInt`).
  - Digit texts and their values.
  - Clamping at 0.
- **ColumnCodec** (`source/data/formula.py`, the column helpers).
  - `letter_val`, `char_val` and `colint`.
  - The column name of a 1-based number. The source's `colval` never ends for numbers of 26 and more (see Findings). The model uses the bijective base-26 name that `colval` evidently intends.
- **Formulas** (`source/data/formula.py`, class `Formula`).
  - Token search by the regular expression of `_decipher`.
  - Parsing a cell reference with its `$` locks (`_get_cell`).
  - Resolving a reference against the formula's position and an anchor cell.
  - Single and range tokens (`_generate_token_formula`).
  - The token dictionaries (`_load_dict`).
  - `_get_value_for_cell`:
    - sort the tokens longest first;
    - read each token's value from the table;
    - bind it to a placeholder and replace it in the text;
    - evaluate.
  - `eval` is a parameter. The table reads are parameters too.
- **Tables** (`source/data/table_data.py`).
  - `read_token`.
  - Class `TableData`, with three stores:
    - a sparse frame, indexed the way pandas indexes `.at[index, column]`;
    - the formulas by row and column;
    - the dependency lists.
  - The reads, range reads, updates, dependency bookkeeping and the one-level refresh of `token_changed`.
- **Dependencies** (`source/data/dependency_tree.py`).
  - Classes `DependencyNode` and `DependencyTree`, with nodes on the heap that link to each other.
  - Every tree mirrors a value `Graph`. Each method is stated as a function of that graph.
  - The recursive walk `yield_values` is proved to visit every root and everything reachable from one, parents before their child. This holds when the roots lie in a part closed under links whose parent links have no cycle. A cycle that no root reaches is allowed and never yielded (`CycleAsideSkipped`).
- **TextLayout** (`source/view/utils.py`).
  - `align_text`.
  - `fix_text_to_width`, the word wrapper, with the shape of every line it produces. A word that does not fit ends the line and is itself lost (`OverflowDropsWord`).
- **KeyCommands** (`source/key_command.py`).
  - `decode_command`: reserved names matched in table order, otherwise code points, with an optional ENTER after each word.
- **Config** (`source/configfile.py`).
  - Line filtering by `strip`.
  - `_read_line`, `get_val`, and Python's `int` on a text.
  - The three integer settings of `DecelConfig` with their defaults.
- **Windows** (`source/view/window.py`).
  - The cell buffer and its change log.
  - `update_value`, and `draw_text` and `draw_box` as sequences of writes. The content of every cell after a write is given in closed form.
  - Screen coordinates along the parent chain, and the marking of covered positions.
- **SheetWindows** (`source/view/sheet_window.py`).
  - Column widths and row heights.
  - The row label offset.
  - Cursor moves and scrolling clamped at 0.
  - The key map of `process_char`.
  - `get_column_offset` (see Findings).

## Model

| member | source | states |
|---|---|---|
| Common.Spaces | source/view/utils.py:9-15 | `' ' * n` is `n` blanks when `n` is positive and empty otherwise |
| Common.IndexOf | source/data/formula.py:105-106 | the position found is within the text, and the text holds the searched character there when it is found |
| Common.IndexOfFirst | source/data/formula.py:105-106 | no earlier position holds the character: the split happens at the first occurrence |
| Common.HasCharIff | source/data/formula.py:105 | `c in s` holds exactly when some position holds `c` |
| Common.NoChar | source/data/formula.py:74 | a text none of whose characters is `c` does not contain `c` |
| Common.IndexOfIs | source/data/formula.py:105-106 | the first position holding `c` is what the search answers |
| Common.ShowNat | source/view/sheet_window.py:87 | `str(n)` is a digit text whose value is `n`, without a leading zero |
| Common.ShowNatDigits | source/view/sheet_window.py:87-88 | the number of digits of `str(n)` is the least `k` with `n < 10^k` |
| ColumnCodec.LetterVal | source/data/formula.py:9-10 | a character's value is in 1..26 exactly when it is a capital letter |
| ColumnCodec.CharVal | source/data/formula.py:12-13 | `char_val` is the inverse of `letter_val`, and gives capital letters for 1..26 |
| ColumnCodec.Pow26 | source/data/formula.py:17-25 | the place values of the base-26 reading are positive |
| ColumnCodec.Colint | source/data/formula.py:17-25 | `colint` (its loop over the letters) is the base-26 value of the column text minus 1 |
| ColumnCodec.ColumnValue | source/data/formula.py:20-24 | defines the sum `colint` accumulates, a letter value times a power of 26 per place; `Colint`, `ColumnValueAppend` and `ColintOfColumnName` state what it is |
| ColumnCodec.ColumnValueAppend | source/data/formula.py:17-25 | one more letter multiplies the value by 26 and adds the letter's value |
| ColumnCodec.ColumnName | source/data/formula.py:27-34 | the intended `colval`: empty for non-positive numbers, otherwise a column text whose value is the number |
| ColumnCodec.ColumnNameOfValue | source/data/formula.py:17-34 | every column text is the name of its own value: name and value are inverse bijections |
| ColumnCodec.ColintInjective | source/data/formula.py:17-25 | two column texts with the same `colint` are equal |
| ColumnCodec.ColintOfColumnName | source/data/formula.py:17-34 | `colint(colval(n)) == n - 1` for every positive `n` |
| ColumnCodec.ColintExamples | source/data/test/formula_test.py:7-13 | the values of `test_colint`: A, B, Z, AA, BA, ZADDS give 0, 1, 25, 26, 52, 11901778 |
| ColumnCodec.ColvalAsWritten | source/data/formula.py:27-34 | `colval` as written, below 26: empty for non-positive input, otherwise the one letter of that value |
| ColumnCodec.ColvalNeverStopsFrom26 | source/data/formula.py:27-34 | from 26 on, the loop variable stays a positive multiple of 26 and the step is stuck at a fixed point: the loop never ends |
| ColumnCodec.ColumnNameAgreesBelow26 | source/data/formula.py:27-34 | the intended name agrees with `colval` as written wherever that one terminates |
| Formulas.RunEnd | source/data/formula.py:57-61 | a run of letters or digits ends inside the text, at or after its start |
| Formulas.FindTokensFrom | source/data/formula.py:61 | defines `re.findall` with the token pattern from a position on: the longest match where one starts, else the next position; `FindTokensWellFormed` states that every result is a token text |
| Formulas.FindTokens | source/data/formula.py:56-62 | defines `_decipher`'s token list, the matches from the start of the text in order; `FindTokensWellFormed` states what each match is |
| Formulas.RunEndSpec | source/data/formula.py:57-61 | the run is maximal: all of its characters are in the class and the next one is not |
| Formulas.RunEndIs | source/data/formula.py:57-61 | any maximal run from a start is the run `RunEnd` finds |
| Formulas.LeadAt | source/data/formula.py:57 | the optional `$` before a column is skipped within the text |
| Formulas.ColumnEndAt | source/data/formula.py:57 | the letters of a column end after its lead |
| Formulas.RowStartAt | source/data/formula.py:58 | the optional `$` before a row lies after the column |
| Formulas.MatchCell | source/data/formula.py:59 | a match of the cell pattern consumes at least one character and stays within the text |
| Formulas.MatchToken | source/data/formula.py:60 | a match of the token pattern consumes at least one character and stays within the text |
| Formulas.RunEndSlice | source/data/formula.py:57-61 | a run found in a text is found the same in any slice that contains it |
| Formulas.MatchCellSlice | source/data/formula.py:59-61 | what the cell pattern matches is a cell text |
| Formulas.IndexOfJoin | source/data/formula.py:105-106 | splitting `a:b` on the first colon gives back `a` when `a` has no colon |
| Formulas.TokenTextJoin | source/data/formula.py:60 | two cell texts joined by a colon form a range token |
| Formulas.CellTextIsToken | source/data/formula.py:60 | a cell text on its own is a token |
| Formulas.RangeMatchWellFormed | source/data/formula.py:60 | a cell, a colon and a cell, matched in place, form a token |
| Formulas.MatchTokenWellFormed | source/data/formula.py:60-61 | every match of the token pattern is a well-formed token text |
| Formulas.CellTextHasNoColon | source/data/formula.py:105 | a cell text holds no colon, so only a range token is split |
| Formulas.FindTokensWellFormed | source/data/formula.py:56-62 | `re.findall` with the token pattern yields only non-empty well-formed tokens |
| Formulas.CellPositions | source/data/formula.py:70-81 | in a cell text the letters come after the lead, then an optional `$`, then only digits to the end |
| Formulas.GetCell | source/data/formula.py:64-81 | defines the parse of `_get_cell`: a leading `$` locks the column, a further `$` splits column and row and locks the row, else the letter run is the column; `ParseRender`, `GetCellRoundTrip` state the round trip |
| Formulas.ParseUnlocked | source/data/formula.py:74-81 | defines the split after the leading `$`: at the first `$` when there is one, else after the letter run; `ParseLockedRow` and `ParseFreeRow` state each branch |
| Formulas.Unlocked | source/data/formula.py:70-72 | stripping a leading `$` leaves the text from the column letters on |
| Formulas.CellTexts | source/data/formula.py:74-81 | the parts `_get_cell` cuts out are a column text and a digit text |
| Formulas.RenderIsCellText | source/data/formula.py:57-59 | a well-formed reference, written out with its locks, matches the cell pattern |
| Formulas.ColumnTextHasNoLock | source/data/formula.py:74 | a column text holds no `$` |
| Formulas.ParseLockedRow | source/data/formula.py:74-76 | with a `$` after the column, `split('$')` gives the column and the row, and the row is locked |
| Formulas.ParseFreeRow | source/data/formula.py:78-81 | without a second `$`, the column is the leading letter run and the row the rest, not locked |
| Formulas.UnlockRender | source/data/formula.py:70-72 | a written reference starts with `$` exactly when its column is locked, and the rest is column, row lock and row |
| Formulas.ResolveCell | source/data/formula.py:86-102 | defines the closures `_get_cell` returns: a locked axis gives the literal, an unlocked one shifts by the anchor minus the origin; `LockedAxesAreConstant`, `UnlockedAxesShift` and `ResolveAtOrigin` state this |
| Formulas.ParseRender | source/data/formula.py:64-81 | `_get_cell` reads back every well-formed reference written out: parse after render is the identity |
| Formulas.CellAtRoundTrip | source/data/formula.py:64-81 | reading a cell text by positions gives a well-formed reference that renders back to the text |
| Formulas.GetCellRoundTrip | source/data/formula.py:64-81 | `_get_cell` on a cell text gives a well-formed reference, with a column lock exactly when it starts with `$`, that renders back to the text |
| Formulas.LockedAxesAreConstant | source/data/formula.py:89-97 | a locked row (or column) resolves to the same index at every anchor: the written row minus 1 (or `colint` of the column) |
| Formulas.UnlockedAxesShift | source/data/formula.py:89-100 | an unlocked row (or column) moves with the anchor, by exactly the anchor's move |
| Formulas.ResolveAtOrigin | source/data/formula.py:89-102 | resolved at the formula's own position, a reference reads the cell it names, 0-based |
| Formulas.GenerateTokenRef | source/data/formula.py:104-112 | a token is a range exactly when it holds a colon |
| Formulas.GenerateTokenRefRoundTrip | source/data/formula.py:104-112 | every token gives a valid single or range reference that renders back to the token |
| Formulas.SingleTokenRoundTrip | source/data/formula.py:110-112 | a token without a colon is the single cell `_get_cell` reads |
| Formulas.RangeTokenRoundTrip | source/data/formula.py:105-109 | a token with a colon is the range of the cells before and after the colon |
| Formulas.RangeRoundTrip | source/data/formula.py:105-109 | both corners of a range render back to their texts |
| Formulas.ResolveToken | source/data/formula.py:104-112 | a token resolves to a pair of corners exactly when it is a range |
| Formulas.RangeResolvesCorners | source/data/formula.py:104-109 | a range resolves to its two corners, each resolved on its own |
| Formulas.Distinct | source/data/formula.py:114-119 | the dictionary keys: the same tokens, each once |
| Formulas.LoadDict | source/data/formula.py:114-123 | `formula_dict` has the distinct tokens in first-seen order, and `range_dict` holds exactly the tokens with a colon |
| Formulas.NewFormula | source/data/formula.py:42-62 | a new formula keeps its position and text and holds the distinct tokens of its text |
| Formulas.InsertByLength | source/data/formula.py:126 | defines one insertion step of the stable sort by decreasing length; `InsertByLengthSorts`, `InsertByLengthKeeps` and `InsertByLengthOrders` state what it keeps |
| Formulas.SortByLength | source/data/formula.py:126 | defines `sorted(keys, key=len, reverse=True)`; `SortByLengthSorts` states it is a permutation into longest-first order |
| Formulas.InsertByLengthSorts | source/data/formula.py:126 | inserting a token adds it, loses nothing, and keeps the order longest first |
| Formulas.InsertByLengthKeeps | source/data/formula.py:126 | an insertion step is a permutation of the list plus the new token |
| Formulas.InsertByLengthOrders | source/data/formula.py:126 | an insertion step keeps longest first and adds nothing besides the token |
| Formulas.SortByLengthSorts | source/data/formula.py:126 | `sorted(key=len, reverse=True)` is a permutation into longest-first order |
| Formulas.ReplaceAll | source/data/formula.py:142 | defines Python's `str.replace`, every non-overlapping occurrence left to right; `ReplaceAllAbsent` states that no occurrence of the pattern is left when the replacement holds none |
| Formulas.Placeholder | source/data/formula.py:139-140 | defines the variable name of the i-th token, the column name of i; `PlaceholderBelow26` and `PlaceholdersDistinct` state what it is |
| Formulas.PlaceholderBelow26 | source/data/formula.py:140 | below 26 the placeholder is the single capital letter that `colval(i)` gives |
| Formulas.Substituted | source/data/formula.py:137-142 | defines `tmp_formula` after the first n replacements, in the order of the tokens; `BindTokens` states the loop computes it |
| Formulas.Bindings | source/data/formula.py:136-141 | defines `local_vars` after the first n tokens are bound; `BindingsAt` and `BindingsKeys` state which names it binds and to what |
| Formulas.ReplaceAllAbsent | source/data/formula.py:142 | `replace` leaves a text without an occurrence of the token unchanged |
| Formulas.PlaceholdersDistinct | source/data/formula.py:139-141 | the placeholders `colval(i)` of different positions differ |
| Formulas.BindingsAt | source/data/formula.py:138-141 | `local_vars` binds the i-th token's placeholder to that token's value |
| Formulas.BindingsKeys | source/data/formula.py:138-141 | `local_vars` binds exactly the placeholders of the tokens visited |
| Formulas.TokenValue | source/data/formula.py:129-133 | defines the value one token reads at an anchor: a range reads `get_cell_range` of its corners, a single token `get_cell_value`; `ReadTokens` states the loop reads these |
| Formulas.ReadTokens | source/data/formula.py:128-133 | every token gets a value, and each value is what the token's resolver reads: a range's cells or a single cell |
| Formulas.BindTokens | source/data/formula.py:135-142 | the loop binds the i-th token to placeholder i and substitutes the tokens in order |
| Formulas.ValueForCell | source/data/formula.py:125-148 | evaluates the substituted text with the bindings; 0 on success, an error carrying the expression otherwise |
| Formulas.GetValue | source/data/formula.py:150-151 | `get_value` is 0 or an error, and an error exactly when the evaluation at the formula's own position fails |
| Formulas.SubstitutionOrder | source/data/formula.py:126 | the replacement order holds each dictionary key once, longest first |
| Formulas.WorkedCases | source/data/test/formula_test.py:24-34 | the references of `test_basic_locked_formula` and `test_dynamic_formula` resolve to the cells the tests read |
| Formulas.ResolvedExamples | source/data/test/formula_test.py:24-34 | the parsed references of those tests resolve to (0,0) at any anchor, and to (1,1), (2,2), (4,4), (1,10) at the anchors C3, D4, F6, L3 |
| Formulas.LockedA1 | source/data/test/formula_test.py:25 | `$A$1` is a cell text and parses to the fully locked A1 |
| Formulas.PlainA1 | source/data/test/formula_test.py:30 | `A1` is a cell text and parses to the unlocked A1 |
| Formulas.SmallColumns | source/data/test/formula_test.py:29-34 | the column indices of A, B, C, D, F and L and the row value of "1" |
| Tables.CellValue | source/data/table_data.py:50-53 | defines `get_cell_value` on the stored maps: the formula's value, else the datum, else `None`; `GetCellValue` and `ReadBackTransposed` state it |
| Tables.WithEdge | source/data/table_data.py:81-84 | defines `add_dependency` on the edge map; `WithEdgeEffect`, `WithEdgeIdempotent` and `WithEdgeExtends` state what it records and keeps |
| Tables.WithEdges | source/data/table_data.py:86-90 | defines `add_dependencies`, one edge per lead in order; `WithEdgesExtend`, `WithEdgesRecord`, `WithEdgesKeys` and `WithEdgesLists` state it |
| Tables.WithEdgeEffect | source/data/table_data.py:81-84 | `add_dependency` adds the lead if missing, lists the dependent under it once, and leaves every other lead alone |
| Tables.WithEdgeIdempotent | source/data/table_data.py:81-84 | adding the same dependency twice is the same as once |
| Tables.WithEdgeExtends | source/data/table_data.py:81-84 | adding a dependency loses no lead and no dependent |
| Tables.ExtendsTransitive | source/data/table_data.py:86-90 | growing the dependencies step by step keeps everything from before |
| Tables.WithEdgesExtend | source/data/table_data.py:86-90 | `add_dependencies` loses no existing dependency |
| Tables.WithEdgesRecord | source/data/table_data.py:86-90 | after `add_dependencies` the leads are the old ones plus the tokens, and each token lists the formula's position |
| Tables.WithEdgesKeys | source/data/table_data.py:86-90 | the leads after `add_dependencies` are the old leads plus the tokens |
| Tables.WithEdgesLists | source/data/table_data.py:86-90 | each token lists the formula's position after `add_dependencies` |
| Tables.Refreshed | source/data/table_data.py:107-108 | defines the data after `update_value` on each dependent in turn; `RefreshedCells` states which cells change and to what |
| Tables.RefreshedCells | source/data/table_data.py:75-78 | `token_changed` rewrites exactly the listed cells that hold a formula, with its value, and nothing else |
| Tables.RangeCell | source/data/table_data.py:61 | defines one read of `get_cell_range`, the cell at row and named column; `GridValuesAt` states where each one lands |
| Tables.RangeValues | source/data/table_data.py:55-63 | defines the rectangle between the sorted corners in row-major order; `RangeShape` states its size and each cell |
| Tables.RowValuesAt | source/data/table_data.py:60-62 | one row of a range: one value per column, in column order |
| Tables.GridValuesAt | source/data/table_data.py:59-62 | the range's output is row-major: position k holds row r0 + k / w, column c0 + k % w |
| Tables.AppendRow | source/data/table_data.py:59-62 | appending a row to a row-major list keeps it row-major |
| Tables.RangeShape | source/data/table_data.py:55-63 | `get_cell_range` has rows times columns values in row-major order and does not depend on which corners are given |
| Tables.FirstInClass | source/data/table_data.py:18-23 | `re.search` starts at a character of the class, when there is one |
| Tables.FirstInClassIs | source/data/table_data.py:18-23 | the first character of the class is where the search starts |
| Tables.FirstInClassNone | source/data/table_data.py:18-23 | the search finds nothing exactly when no character is of the class |
| Tables.ReadToken | source/data/table_data.py:8-25 | defines `read_token`, including its two failures; `ReadTokenFails`, `ReadTokenRender` and `ReadTokenOfCell` state when it fails and what it reads |
| Tables.ReadTokenFails | source/data/table_data.py:8-25 | `read_token` fails on the column search exactly when no capital letter follows the lead, and on the row search exactly when there is a letter but no digit |
| Tables.LetterRun | source/data/table_data.py:18-20 | in a written reference the first letter run is its column |
| Tables.DigitRun | source/data/table_data.py:22-24 | in a written reference the first digit run is its row |
| Tables.RowLockRun | source/data/table_data.py:15-16 | the rest holds a `$` exactly when the row is locked |
| Tables.ReadUnlockedParts | source/data/table_data.py:15-25 | after the lead, `read_token` reads the row, the row lock, the 0-based column and the column lock |
| Tables.ReadTokenRender | source/data/table_data.py:8-25 | `read_token` reads back every written reference |
| Tables.ReadTokenOfCell | source/data/table_data.py:8-25 | `read_token` agrees with `_get_cell` on every cell text |
| Tables.ReadBackTransposed | source/data/table_data.py:50-53 | a value stored at `(row, col)` is read back by `get_cell_value(col, row)`, even after a refresh that does not touch it |
| Tables.TableData.constructor | source/data/table_data.py:37-43 | the given frame or an empty one, and no formulas or dependencies |
| Tables.TableData.ClearData | source/data/table_data.py:45-48 | all three stores are emptied |
| Tables.TableData.GetFormula | source/data/table_data.py:65-73 | the formula exactly when the row and column have one |
| Tables.TableData.GetCellValue | source/data/table_data.py:50-53 | a formula cell reads as the formula's value; otherwise the datum, else `None` |
| Tables.TableData.GetDependencies | source/data/table_data.py:92-93 | the dependents of a cell, or none |
| Tables.TableData.UpdateValue | source/data/table_data.py:75-78 | only a formula cell is written, with the formula's value; formulas and dependencies unchanged |
| Tables.TableData.AddDependency | source/data/table_data.py:81-84 | the dependencies gain the edge and keep each list duplicate-free; data and formulas unchanged |
| Tables.TableData.AddDependencies | source/data/table_data.py:86-90 | every token gains the formula's position as a dependent |
| Tables.TableData.TokenChanged | source/data/table_data.py:95-108 | each dependent of the cell is refreshed once, with no cascade |
| Tables.TableData.SetValue | source/data/table_data.py:131-133 | the value is stored at `(row, col)` and the cell's dependents are refreshed |
| Tables.TableData.AddFormula | source/data/table_data.py:110-118 | the formula is stored at its cell, every other formula is kept, its value is set, the dependencies gain its tokens, and its dependents are refreshed |
| Tables.TableData.SetStringValue | source/data/table_data.py:120-129 | a text with tokens becomes a well-formed formula at that cell with those tokens, every other formula is kept, the dependencies gain its edges and the data take the formula's value and the two refreshes; otherwise the evaluated value, or the raw text when evaluation fails, is stored and the dependents are refreshed |
| Tables.TableData.GetCellRange | source/data/table_data.py:55-63 | the nested loops yield exactly the rectangle's values in row-major order |
| Dependencies.Intern | source/data/dependency_tree.py:43-48 | `get_node` adds the value with no links when missing and changes no existing node |
| Dependencies.AddEdge | source/data/dependency_tree.py:50-56 | `add_dependency` as written: both values become nodes |
| Dependencies.Connect | source/data/dependency_tree.py:53-56 | linking two nodes adds no node |
| Dependencies.AddEdgeRecordsParent | source/data/dependency_tree.py:53-54 | the child lists the parent once, and the parent lists stay duplicate-free |
| Dependencies.AddEdgeTwiceDuplicatesChild | source/data/dependency_tree.py:55-56 | adding A→B twice lists B twice among A's children, while B lists A once |
| Dependencies.AddEdgeIntended | source/data/dependency_tree.py:50-56 | the corrected `add_dependency`: both values become nodes |
| Dependencies.ConnectIntended | source/data/dependency_tree.py:53-56 | corrected linking adds no node |
| Dependencies.AddEdgeIntendedRecords | source/data/dependency_tree.py:50-56 | with the corrected guard, the parent and the child list each other, and no list ever holds a value twice |
| Dependencies.InternSimple | source/data/dependency_tree.py:43-48 | adding a node keeps every list duplicate-free |
| Dependencies.ConnectIntendedSimple | source/data/dependency_tree.py:53-56 | corrected linking keeps every list duplicate-free |
| Dependencies.AddEdgeIntendedIdempotent | source/data/dependency_tree.py:50-56 | with the corrected guard, adding the same edge twice is the same as once |
| Dependencies.AddEdgeParents | source/data/dependency_tree.py:50-54 | `add_dependency` as written changes only the child's parent list, which gains the parent unless it holds it |
| Dependencies.AddEdgeChildren | source/data/dependency_tree.py:50-56 | `add_dependency` as written changes only the parent's child list, which gains the child unless the child lists itself |
| Dependencies.Ranked | source/data/dependency_tree.py:15-30 | defines when the walk ends: a part closed under parent and child links whose parent links have no cycle, witnessed by a rank; `ParentStep` and `ChildStep` state what it gives the recursion |
| Dependencies.ParentsFirst | source/data/dependency_tree.py:19-25 | defines the order `yield_values` promises: every yielded value after all its parents; `YieldedValues` states it holds |
| Dependencies.ParentStep | source/data/dependency_tree.py:19-22 | inside a ranked part, every parent lies in the part with a lower rank, and no more values are pending: the recursion into a parent terminates |
| Dependencies.ChildStep | source/data/dependency_tree.py:27-30 | inside a ranked part, every child lies in the part, and once the value is seen a child not yet seen leaves strictly fewer pending values |
| Dependencies.AppendSeen | source/data/dependency_tree.py:24-25 | appending a node after all its parents keeps "parents first" |
| Dependencies.CloseWalk | source/data/dependency_tree.py:27-30 | once all children are seen, the node no longer has unseen children |
| Dependencies.ChildPath | source/data/dependency_tree.py:27-30 | defines a chain of child links, what the walk follows; `ClosedHoldsPath` and `YieldedValues` state that its end is yielded |
| Dependencies.ClosedHoldsPath | source/data/dependency_tree.py:15-30 | when every seen node's children are seen, every path from a seen node ends at a seen node |
| Dependencies.RootsIn | source/data/dependency_tree.py:58-64 | the roots are among the tree's values |
| Dependencies.RootsInStep | source/data/dependency_tree.py:60-63 | each pass of the loop appends the node exactly when it has no parents |
| Dependencies.RootsInExactly | source/data/dependency_tree.py:58-64 | a value is a root exactly when it is in the tree and has no parents |
| Dependencies.WalkFrom | source/data/dependency_tree.py:15-30 | `yield_values` yields the node itself, and `seen` grows by exactly what is yielded |
| Dependencies.ParentWalks | source/data/dependency_tree.py:19-22 | the parent loop: `seen` grows by exactly what it yields |
| Dependencies.ChildWalks | source/data/dependency_tree.py:27-30 | the child loop: `seen` grows by exactly what it yields |
| Dependencies.WalkFromKeeps | source/data/dependency_tree.py:15-30 | a walk keeps "parents first" and "children of finished nodes are seen" |
| Dependencies.ParentWalksKeep | source/data/dependency_tree.py:19-22 | after the parent loop every parent has been seen, and the invariants hold |
| Dependencies.ParentWalksKeepWalked | source/data/dependency_tree.py:20-22 | an unseen parent is walked, and the invariants hold after it |
| Dependencies.ChildWalksKeep | source/data/dependency_tree.py:27-30 | after the child loop every child has been seen, and the invariants hold |
| Dependencies.ChildWalksKeepWalked | source/data/dependency_tree.py:28-30 | an unseen child is walked, and the invariants hold after it |
| Dependencies.RootWalks | source/data/dependency_tree.py:66-70 | walking the roots one after another with one `seen` list loses no seen value |
| Dependencies.RootWalksKeep | source/data/dependency_tree.py:66-70 | walking the roots keeps the invariants and visits every root |
| Dependencies.YieldedValues | source/data/dependency_tree.py:66-70 | when the roots lie in a part closed under links whose parent links have no cycle, the walk yields every root and every value reachable from a root, each after its parents, and nothing outside that part |
| Dependencies.CycleAsideLists | source/data/dependency_tree.py:50-56 | after `add_dependency(r, s)`, `(x, y)` and `(y, x)`, only `r` lacks parents, `s` is its one child and `x`, `y` are each other's parent |
| Dependencies.TwoEdgesLists | source/data/dependency_tree.py:50-56 | the parent and child lists after the first two of those calls |
| Dependencies.SecondEdgeLists | source/data/dependency_tree.py:50-56 | a second edge between two other values leaves the lists of `r` and `s` alone |
| Dependencies.CycleEdgeLists | source/data/dependency_tree.py:50-56 | the closing edge `y`→`x` makes `x` and `y` each other's parent and leaves `r` and `s` alone |
| Dependencies.CycleAsideRoots | source/data/dependency_tree.py:58-64 | of those four values only `r`, the one without parents, is a root |
| Dependencies.PairWalk | source/data/dependency_tree.py:15-30 | with `r` the only parent of `s` and `s` the only child of `r`, the walk from `r` yields `r` then `s` |
| Dependencies.CycleApartSkipped | source/data/dependency_tree.py:58-70 | on any graph with those lists, `r` is the only root, the walk yields `r` and `s` and ends, and no ranked part holds `x` |
| Dependencies.CycleAsideSkipped | source/data/dependency_tree.py:58-70 | a cycle that no root reaches is never walked: after those three calls `yield_values` yields exactly `r` and `s`, and no part holding the cycle can be ranked |
| Dependencies.DependencyNode.constructor | source/data/dependency_tree.py:4-7 | a node with its value and no links |
| Dependencies.DependencyNode.AddParent | source/data/dependency_tree.py:9-10 | the parent is appended; the children are unchanged |
| Dependencies.DependencyNode.AddChild | source/data/dependency_tree.py:12-13 | the child is appended; the parents are unchanged |
| Dependencies.Values | source/data/dependency_tree.py:32-33 | the values of a node list, position by position |
| Dependencies.ValuesAppend | source/data/dependency_tree.py:9-13 | appending a node appends its value |
| Dependencies.InNodesIsInValues | source/data/dependency_tree.py:32-33 | `in` on nodes, by `__eq__`, is `in` on their values |
| Dependencies.DependencyTree.ViewClosed | source/data/dependency_tree.py:35-56 | every link of a tree leads to a node of the tree |
| Dependencies.DependencyTree.constructor | source/data/dependency_tree.py:37-38 | an empty `node_dict` |
| Dependencies.DependencyTree.Shake | source/data/dependency_tree.py:40-41 | `node_dict` emptied |
| Dependencies.DependencyTree.GetNode | source/data/dependency_tree.py:43-48 | the existing node for the value or a fresh one with no links; the graph is `Intern` of the old graph |
| Dependencies.DependencyTree.AddDependency | source/data/dependency_tree.py:50-56 | the graph afterwards is `AddEdge` of the old graph, and new values are appended in dictionary order |
| Dependencies.DependencyTree.Link | source/data/dependency_tree.py:53-56 | the two guarded appends are `Connect` on the graph |
| Dependencies.DependencyTree.GiveParent | source/data/dependency_tree.py:53-54 | the child gains the parent unless a node of that value is already a parent |
| Dependencies.DependencyTree.GiveChild | source/data/dependency_tree.py:55-56 | the parent gains the child unless the child lists itself among its own children |
| Dependencies.DependencyTree.GetRoots | source/data/dependency_tree.py:58-64 | the parentless nodes, in `node_dict` order |
| Dependencies.DependencyTree.Walk | source/data/dependency_tree.py:15-30 | the node walk yields what `WalkFrom` says and leaves `seen` as it says |
| Dependencies.DependencyTree.WalkParents | source/data/dependency_tree.py:19-22 | the parent loop is `ParentWalks` |
| Dependencies.DependencyTree.WalkChildren | source/data/dependency_tree.py:27-30 | the child loop is `ChildWalks` |
| Dependencies.DependencyTree.ParentPass | source/data/dependency_tree.py:20-22 | one pass of the parent loop advances `ParentWalks` by one parent |
| Dependencies.DependencyTree.ChildPass | source/data/dependency_tree.py:28-30 | one pass of the child loop advances `ChildWalks` by one child |
| Dependencies.DependencyTree.YieldValues | source/data/dependency_tree.py:66-70 | under the same condition on the roots' part, yields every root and everything reachable from one, each value after its parents, and no value outside the part |
| TextLayout.TakePrefix | source/view/utils.py:5-6 | Python's `text[:width]`, negative widths counting from the end |
| TextLayout.TruncHalf | source/view/utils.py:13 | `int(diff / 2)` is half of `diff`, rounded toward zero |
| TextLayout.AlignText | source/view/utils.py:4-16 | cut to the width when too long; otherwise padded to exactly the width, the text at the right, left or middle; any other alignment raises "Invalid Alignment" |
| TextLayout.AlignTextExactWidth | source/view/utils.py:5-6 | a text of exactly the width is returned unchanged |
| TextLayout.AlignTextPadding | source/view/utils.py:7-15 | a padded result is blanks, the text, blanks |
| TextLayout.JoinSpaced | source/view/utils.py:27 | words each after one blank are non-empty when there is a word |
| TextLayout.SplitWords | source/view/utils.py:22 | `split(' ')` gives at least one word, and no word holds a blank |
| TextLayout.JoinSpacedCons | source/view/utils.py:27 | blank-separated words unfold from the front |
| TextLayout.JoinWordsCons | source/view/utils.py:22 | `' '.join` unfolds from the front |
| TextLayout.SplitJoin | source/view/utils.py:22 | `' '.join(s.split(' ')) == s`: splitting loses nothing |
| TextLayout.Pad | source/view/utils.py:29-36 | padding by `diff` adds exactly `diff` characters for l, r, c and none otherwise |
| TextLayout.WrapAppend | source/view/utils.py:24-38 | one more word extends the line when it fits, otherwise it finishes the padded line and drops the word |
| TextLayout.Wrap | source/view/utils.py:24-38 | defines the loop of `fix_text_to_width` over the words, with the lines so far and the current line; `WrapLines`, `WrapWidths` and `OverflowDropsWord` state its shape |
| TextLayout.FixedLines | source/view/utils.py:20-41 | defines the lines `fix_text_to_width` returns; `FixTextToWidth`, `FixedLinesWidths` and `WrapCount` state it |
| TextLayout.FixTextToWidth | source/view/utils.py:20-41 | the method computes the wrapped lines of the message |
| TextLayout.PadLine | source/view/utils.py:29-36 | the three alignment tests pad as `Pad` says |
| TextLayout.WrapCurrent | source/view/utils.py:24-38 | one dropped word per finished line, and the current line holds the words after the last dropped one |
| TextLayout.LineStaysShaped | source/view/utils.py:24-38 | a finished line keeps its shape as more words come |
| TextLayout.NewLineShaped | source/view/utils.py:28-37 | a line finished by a word that does not fit is its words, padded by what is left, and the word did not fit |
| TextLayout.WrapLines | source/view/utils.py:24-38 | every finished line is the padded run of words before the word that ended it, which did not fit |
| TextLayout.WrapWidths | source/view/utils.py:24-38 | with a valid alignment each finished line has exactly the width, and the open line is shorter |
| TextLayout.WrapCount | source/view/utils.py:20-41 | there are no more lines than words |
| TextLayout.FixedLinesWidths | source/view/utils.py:20-41 | every line is non-empty and at most the width, and all lines but the last are exactly the width |
| TextLayout.OneLine | source/view/utils.py:20-41 | "to be" in 10 columns, left aligned, is the single line " to be" |
| TextLayout.OverflowDropsWord | source/view/utils.py:24-37 | "ab cdefgh" in 6 columns gives only " ab   ": the word that did not fit is lost |
| TextLayout.OverflowSplit | source/view/utils.py:22 | "ab cdefgh" splits into its two words |
| TextLayout.OverflowWrap | source/view/utils.py:24-37 | the second word overflows, finishes the first line and is dropped |
| KeyCommands.Reserved | source/key_command.py:4-8 | three reserved names, none empty, in table order |
| KeyCommands.MatchFrom | source/key_command.py:17-22 | the first reserved name, in table order, that the text starts with, or none |
| KeyCommands.DecodeWord | source/key_command.py:15-26 | defines the codes of one word, a reserved name or one code point at a time; `DecodeWordBounds`, `ConsumeOne` and `PlainWord` state it |
| KeyCommands.Decoded | source/key_command.py:13-29 | defines `decode_command` on values, the words' codes in order; `DecodeCommand`, `DecodedAppend` and `EnterPerWord` state it |
| KeyCommands.DecodeCommand | source/key_command.py:10-30 | the codes of the words, in order, each word followed by ENTER when asked |
| KeyCommands.DecodedSnoc | source/key_command.py:13-29 | one more word appends its codes |
| KeyCommands.ConsumeOne | source/key_command.py:16-26 | one pass consumes a reserved name or one character and emits the first code of the word's decoding |
| KeyCommands.DecodeWordBounds | source/key_command.py:15-26 | a word gives at most one code per character, and at least one when non-empty |
| KeyCommands.PlainWord | source/key_command.py:23-26 | a word without `<` or `#` decodes to its code points |
| KeyCommands.DecodedAppend | source/key_command.py:13-29 | decoding a concatenation of word lists concatenates the decodings |
| KeyCommands.EnterPerWord | source/key_command.py:28-29 | with `enter_after` the output has exactly one more code per word |
| KeyCommands.OneWord | source/key_command.py:13-29 | a single word gives its codes, then ENTER only when asked |
| KeyCommands.EnterName | source/key_command.py:5 | "<ENTER>" decodes to the ENTER code |
| KeyCommands.HashThenSpace | source/key_command.py:17-22 | "#<SPACE>" decodes to HASHTAG then SPACE |
| KeyCommands.UnfinishedName | source/key_command.py:23-26 | "<ENT" is not a reserved name and decodes character by character |
| Config.Strip | source/configfile.py:15 | defines `str.strip()`; `StripSpec`, `StripTrimmed` and `StripIdempotent` state what it removes and keeps |
| Config.StripLeftSpec | source/configfile.py:15 | `lstrip` removes exactly the leading white space |
| Config.StripRightSpec | source/configfile.py:15 | `rstrip` removes exactly the trailing white space |
| Config.StripSpec | source/configfile.py:15 | a stripped line is empty exactly when the line is all white space, and otherwise has no white space at either end |
| Config.StripTrimmed | source/configfile.py:15 | a line without white space at its ends is its own strip |
| Config.StripIdempotent | source/configfile.py:15 | stripping twice is stripping once |
| Config.Kept | source/configfile.py:15 | defines the list comprehension that keeps the non-blank stripped lines; `KeptTrimmed`, `KeptAppend` and `BlankLineSkipped` state it |
| Config.KeptTrimmed | source/configfile.py:15 | the kept lines are non-empty and stripped, and no more than the lines read |
| Config.KeptAppend | source/configfile.py:15 | filtering is line by line |
| Config.BlankLineSkipped | source/configfile.py:15 | a blank line is dropped |
| Config.KeptIdempotent | source/configfile.py:15 | filtering kept lines again changes nothing |
| Config.SettingOf | source/configfile.py:20-24 | `True` for a key alone, else the items after the key |
| Config.Stored | source/configfile.py:16-24 | defines the settings after `_read_line` on each line in turn; `StoredKeys`, `LastLineWins` and `UnnamedKeyKept` state it |
| Config.StoredKeys | source/configfile.py:16-24 | the keys after reading are the old keys plus the first item of each line |
| Config.LastLineWins | source/configfile.py:16-24 | the value of a key is what its last line says |
| Config.UnnamedKeyKept | source/configfile.py:16-24 | a key no line names keeps its old value or stays absent |
| Config.Ungroup | source/configfile.py:44 | removing the underscores keeps a plain digit text unchanged |
| Config.PlainDigits | source/configfile.py:44 | plain digits are a valid numeral and need no ungrouping |
| Config.ParseDigitText | source/configfile.py:44 | `int` of a digit text is its value |
| Config.ParseNegative | source/configfile.py:44 | `int` of a minus and digits is the negated value |
| Config.ParseShowInt | source/configfile.py:44 | `int(str(n)) == n` |
| Config.ParseInt | source/configfile.py:44 | defines Python's `int` on a text; `ParseDigitText`, `ParseNegative` and `ParseShowInt` state what it accepts and gives |
| Config.IntOf | source/configfile.py:44 | `int` succeeds exactly on a single item that parses, with its value |
| Config.ConfigFile.constructor | source/configfile.py:5-8 | the settings of the file's kept lines, or none when there is no file |
| Config.ConfigFile.Read | source/configfile.py:10-18 | the kept lines are stored in order over the old settings; a missing file changes nothing |
| Config.ConfigFile.ReadLine | source/configfile.py:20-24 | the key gets its setting, and every other key is kept |
| Config.ConfigFile.RawVal | source/configfile.py:27-33 | absent for a missing key; a key alone fails on `len(True)`; a one-item list is unwrapped |
| Config.ConfigFile.GetVal | source/configfile.py:27-36 | the default for a missing key, otherwise the action applied to the unwrapped value, and an error for a key alone |
| Config.ConfigFile.DefaultColumnWidth | source/configfile.py:43-44 | `col_width` as an integer, 7 when missing, an error when it is not one integer |
| Config.ConfigFile.RowJumpSize | source/configfile.py:46-47 | `row_jump` as an integer, 5 when missing |
| Config.ConfigFile.ColJumpSize | source/configfile.py:49-50 | `col_jump` as an integer, 3 when missing |
| Config.StripLineBreak | source/configfile.py:15 | a line with its line break strips back to the line |
| Config.SplitPair | source/configfile.py:17 | "key value" splits into the key and the value |
| Config.ShowIntHasNoBlank | source/configfile.py:17 | a written integer holds no blank |
| Config.IntLineStored | source/configfile.py:10-24 | the line "key n" read last stores the one item `str(n)` under the key |
| Config.IntLineRead | source/configfile.py:10-47 | a setting written as "key n" reads back as `n` |
| Config.FlagLineFails | source/configfile.py:10-47 | a key on a line of its own makes its integer setting fail |
| Windows.Put | source/view/window.py:34-38 | defines one `update_value` on the buffer: the cell is replaced when it lies inside; `PutCell` states it |
| Windows.Paint | source/view/window.py:34-38 | defines the buffer after writes in order; `PaintCell` and `PaintSnoc` state each cell after them |
| Windows.Overlay | source/view/window.py:34-38 | defines what a position shows after writes, the last write there winning; `OverlaySnoc`, `OverlayAppend` and `PaintCell` relate it to `Paint` |
| Windows.OverlaySnoc | source/view/window.py:34-38 | the last write at a position decides what it shows |
| Windows.PaintSnoc | source/view/window.py:34-38 | one more write is one more `update_value`, and the log gains the position only inside the buffer |
| Windows.PaintCell | source/view/window.py:34-38 | writes keep the buffer's shape, and each cell shows the last write to it or what it held |
| Windows.PutCell | source/view/window.py:34-38 | `update_value` changes only its own position, and nothing outside the buffer |
| Windows.OverlayAppend | source/view/window.py:34-38 | two batches of writes act one after the other |
| Windows.LoggedInside | source/view/window.py:34-38 | the log gains only positions inside the buffer, at most one per write |
| Windows.TextWrites | source/view/window.py:79-81 | defines `draw_text`'s writes, character i at column col + i; `TextCell` and `TextPainted` state the result |
| Windows.TextWritesSnoc | source/view/window.py:79-81 | each character adds one write, one column further |
| Windows.TextCell | source/view/window.py:79-81 | after `draw_text` the cells of the text's span show its characters, and every other cell is unchanged |
| Windows.TextPainted | source/view/window.py:79-81 | the buffer after `draw_text`, cell by cell |
| Windows.BoxWrites | source/view/window.py:41-60 | defines everything `draw_box` writes, in order; `BoxCell` and `BoxPainted` state each cell after it |
| Windows.EdgeCell | source/view/window.py:44-46 | the first loop draws the top and bottom edges strictly between the corners |
| Windows.SideCell | source/view/window.py:48-50 | the second loop draws the left and right sides strictly between the corners |
| Windows.CornerCell | source/view/window.py:52-55 | the four corners, the last write winning where they meet |
| Windows.FillRowCell | source/view/window.py:59-60 | one fill row covers the inside columns of its row |
| Windows.FillRowsCell | source/view/window.py:57-60 | the fill covers exactly the inside of the box |
| Windows.FillRowsSnoc | source/view/window.py:58-60 | the outer fill loop appends one row at a time |
| Windows.BoxCell | source/view/window.py:41-60 | every cell after `draw_box` shows the fill, a corner, a side, an edge, or what it showed before |
| Windows.BoxPainted | source/view/window.py:41-60 | the buffer after `draw_box`, cell by cell |
| Windows.RowCoordsAt | source/view/window.py:92-93 | the inner loop of `set_all_changed` logs one row's positions in order |
| Windows.RowMajorAt | source/view/window.py:90-93 | `set_all_changed` logs every position of the window, row by row |
| Windows.PyIndex | source/view/window.py:151-153 | Python indexing: in range exactly for -n..n-1, and negative indexes count from the end |
| Windows.Window.constructor | source/view/window.py:15-26 | a buffer of `height` rows of `width` default cells, every position logged, no children |
| Windows.Window.Delete | source/view/window.py:28-29 | marks the window for deletion and changes nothing else |
| Windows.Window.SetChanged | source/view/window.py:31-32 | the position is appended to the log |
| Windows.Window.GetValue | source/view/window.py:151-153 | `data[row][col]` with Python's negative row indexes, and an error when the row is out of range |
| Windows.Window.UpdateValue | source/view/window.py:34-38 | a position inside the buffer is written and logged, and reads back the new value; outside nothing changes |
| Windows.Window.DrawText | source/view/window.py:79-81 | the buffer and log afterwards are those of the text's writes |
| Windows.Window.DrawBox | source/view/window.py:41-60 | the buffer and log afterwards are those of the box's writes: edges, sides, corners, then the fill |
| Windows.Window.DrawCorners | source/view/window.py:52-55 | the four corner writes, in source order |
| Windows.Window.DrawEdges | source/view/window.py:44-46 | the top and bottom edge writes |
| Windows.Window.DrawSides | source/view/window.py:48-50 | the left and right side writes |
| Windows.Window.DrawSideRow | source/view/window.py:49-50 | one pass of the side loop |
| Windows.Window.DrawFill | source/view/window.py:57-60 | the fill writes, row by row |
| Windows.Window.DrawFillRow | source/view/window.py:58-60 | one row of the fill |
| Windows.Window.FillCell | source/view/window.py:59-60 | one cell of the fill |
| Windows.Window.Step | source/view/window.py:34-38 | one `update_value` extends the writes made so far |
| Windows.Window.SetAllChanged | source/view/window.py:90-93 | every position of the window is appended to the log, row by row |
| Windows.Window.Chain | source/view/window.py:138-141 | the parent chain from the window up to the top window |
| Windows.Window.ScrIndices | source/view/window.py:135-142 | screen position: the position plus the offsets of the window and of all its ancestors |
| Windows.Window.UpdateParentIndices | source/view/window.py:144-149 | every screen position the window covers is marked, and existing marks are kept |
| Windows.Window.MarkRow | source/view/window.py:146-149 | one row of the window's screen positions is marked |
| Windows.Window.AddChild | source/view/window.py:155-156 | the child is appended |
| SheetWindows.KeyAction | source/view/sheet_window.py:163-180 | ^J and ^K scroll rows, ^L and backspace scroll columns, by one; h, j, k, l move the cursor one step; any other key does nothing |
| SheetWindows.SheetWindow.constructor | source/view/sheet_window.py:16-25 | no overrides, scrolled to the origin, cursor at (0, 0) |
| SheetWindows.SheetWindow.GetColumnWidth | source/view/sheet_window.py:28-31 | the override for the column, else 8 |
| SheetWindows.SheetWindow.GetRowHeight | source/view/sheet_window.py:33-36 | the override for the row, else 1 |
| SheetWindows.SheetWindow.RowLabelOffset | source/view/sheet_window.py:86-88 | the number of characters of `str(current_row)` plus 2 |
| SheetWindows.SheetWindow.MoveCursor | source/view/sheet_window.py:141-149 | the cursor moves by the changes, each coordinate clamped at 0; nothing else changes |
| SheetWindows.SheetWindow.VerticalScroll | source/view/sheet_window.py:151-155 | the first row shown moves by the amount, clamped at 0 |
| SheetWindows.SheetWindow.HorizontalScroll | source/view/sheet_window.py:157-161 | the first column shown moves by the amount, clamped at 0 |
| SheetWindows.SheetWindow.ProcessChar | source/view/sheet_window.py:163-180 | the key's action and nothing else, and the positions stay non-negative |
| SheetWindows.SheetWindow.OffsetLoopAsWritten | source/view/sheet_window.py:70-75 | defines the state of `get_column_offset`'s loop after k passes, the column never changing; `OffsetLoopNeverEnds` states the loop does not end |
| SheetWindows.SheetWindow.OffsetLoopNeverEnds | source/view/sheet_window.py:70-75 | as written, the loop never changes `col`, so it never ends for any other column |
| SheetWindows.SheetWindow.ColumnOffset | source/view/sheet_window.py:70-75 | the corrected loop returns the sum of the widths from the first column shown up to the column |
| SheetWindows.SheetWindow.WidthSum | source/view/sheet_window.py:70-75 | defines the widths of a range of columns, the intended offset; `ColumnOffset` and `WidthSumSplit` state it |
| SheetWindows.SheetWindow.WidthSumSplit | source/view/sheet_window.py:70-75 | offsets add up over consecutive spans of columns |
| SheetWindows.SheetWindow.DefaultOffset | source/view/sheet_window.py:70-75 | without overrides the offset is 8 per column |
| SheetWindows.SheetWindow.OffsetIncreasing | source/view/sheet_window.py:70-75 | with positive widths, a column further right starts further right |

## Left out

- Python's `eval` is a parameter of `Formulas.ValueForCell`.
  - Its result is printed and discarded in the source, so only success or failure matters.
  - Inside `TableData` a formula cell reads as the constant 0 that `get_value` returns on success. A failing evaluation, which raises in the source, is not modelled there.
- The table that a `Formula` reads is a pair of function parameters, `cellValue` and `rangeValue`. They stand for `get_cell_value` and `get_cell_range`.
- The pandas frame is a map from `(index, column)` labels to values. NaN filling, column creation and the float conversion of pandas are left out. An absent cell reads as `Nil`.
- `load_csv` is left out: reading files with `csv.reader` is I/O.
- The names `has_tokens`, `get_col` and `get_dependent_tokens` are called in table_data.py but not defined there.
  - `has_tokens` is read as "the token search finds something".
  - `get_col` is `colint`.
  - `get_dependent_tokens`' result is the parameter `leads` of `AddDependencies`, `AddFormula` and `SetStringValue`.
- Python's `eval` of a plain text in `set_string_value` is the parameter `evaluate`.
- Dependencies.DependencyTree.YieldValues: termination and its properties are proved when the roots lie in a part closed under parent and child links whose parent links have no cycle, witnessed by a ghost rank map on that part.
  - A cycle outside that part is allowed and is never yielded (`CycleAsideSkipped`).
  - On a cycle that a root reaches, the nested generators recurse until CPython raises `RecursionError`. That error is not modelled.
  - A node reachable by two paths may be yielded twice, as in the source. The model states coverage and order, not that values are distinct.
- The `seen` list of `yield_values` is passed in and returned rather than shared and mutated.
  - The generator's laziness is not modelled.
  - `yield` is an appended output list.
- `Window`: curses is left out. So are `refresh`, `prerefresh`, `draw_button`, `draw_border`, `draw_text_box`, `remove_child`, `set_active` and the empty `process_char` of the base class, as are the colours.
- Windows.Window.UpdateValue: the row and column are natural numbers. Python's negative indexes in `update_value` are not modelled there, though `GetValue` models them.
- Windows.Window.DrawText: positions are natural numbers, as in `UpdateValue`.
- Windows.Window.DrawBox: requires that every position it writes is non-negative (`BoxInside`). A box reaching negative positions would write through Python's negative indexes, which are not modelled.
- Windows.Window.UpdateParentIndices: the dictionary `seen` is returned rather than updated in place.
- `SheetWindow`: `draw_page`, `draw_column`, `draw_row_labels` and `draw_cell_inner` draw with curses and are left out.
  - The `Window` part a sheet window inherits is not repeated in `SheetWindows`.
  - The `table` keyword and `c_row`, `c_col`, `c_width`, `c_height` are not modelled.
- SheetWindows.SheetWindow.ProcessChar: the final `draw_page` redraw is not modelled.
- The key codes `ENTER`, `SPACE` and `HASHTAG` come from view/utils/keys.py, which is not part of this model. They are the fields of the parameter `KeyCodes`.
- Config:
  - choosing the file through the environment variable and `~` expansion is left out;
  - reading the file is left out: its lines are the parameter `contents`, and `None` means the file does not exist;
  - `str.isspace` is modelled on ASCII only;
  - `int` accepts ASCII digits only.
- Formulas.SortByLengthSorts: states a permutation into longest-first order, but not that ties keep the dictionary's order. The model's sort is stable, as Python's is, but that is not stated as a lemma.
- Formulas.ValueForCell: the `print(x)` of the result is output and is left out.
- Formulas.Placeholder: from 26 on it is the intended column name, where the source's `colval` never returns (see Findings).
- Formulas.BindTokens: a 26th or later token is bound to the intended name; in the source `colval` never returns there.
- Formulas.ValueForCell: a formula with 26 or more distinct tokens yields a value; in the source it never returns, at `colval`.
- Formulas.GetValue: inherits the gap of `ValueForCell` for 26 or more distinct tokens.
- Tables.RangeCell: a column index of 26 or more reads the column of the intended name; in the source `colval` never returns there.
- Tables.TableData.GetCellRange: a rectangle reaching column index 26 or more yields its values; in the source it never returns, at `colval`.
- Tables.TableData.SetStringValue: a column index of 26 or more stores under the intended name; in the source it never returns, at `colval`.
- SheetWindows.SheetWindow.ColumnOffset: sums the widths only, as `get_column_offset` evidently intends. `draw_page` also steps over the `|` separator of each column, one more position per column, and that drawing is not modelled.

## Findings

| source | as written | input that shows it | evidently intended | confidence | as-written member | corrected member |
|---|---|---|---|---|---|---|
| source/data/formula.py:27-34 | `colval` subtracts `cur_val % 26` from `cur_val` and loops while `cur_val > 0`. From 26 on, this leaves a positive multiple of 26, which every later pass leaves unchanged, so the loop does not end | `colval(26)`, which `_get_value_for_cell` calls for its 26th token and `get_cell_range` for column index 26 | the bijective base-26 name (A..Z, AA, ...), the inverse of `colint` plus one | not executed | ColumnCodec.ColvalAsWritten, ColumnCodec.ColvalNeverStopsFrom26 | ColumnCodec.ColumnName, ColumnCodec.ColumnNameOfValue, ColumnCodec.ColintOfColumnName |
| source/view/sheet_window.py:70-75 | `get_column_offset` adds `get_column_width(col)` but never advances `col`, so `while col != column` never ends | any `column` other than `current_col` | advance `col` by one per pass and return the widths from `current_col` up to `column` | not executed | SheetWindows.SheetWindow.OffsetLoopNeverEnds | SheetWindows.SheetWindow.ColumnOffset, SheetWindows.SheetWindow.WidthSumSplit |
| source/data/dependency_tree.py:55 | `if c not in c.children` tests the child's own children, so the parent gains the child again on every call | `add_dependency("A", "B")` twice: A's children become [B, B] | `if c not in p.children` | not executed | Dependencies.AddEdge, Dependencies.AddEdgeTwiceDuplicatesChild | Dependencies.AddEdgeIntended, Dependencies.AddEdgeIntendedRecords |
