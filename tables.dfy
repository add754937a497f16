/**
 * `TableData` of source/data/table_data.py: the sparse value store, the
 * formulas by row and column, and the map from a lead cell to the cells whose
 * formulas depend on it.
 *
 * The pandas frame is a map from `(index, column)` labels to values, holding
 * exactly the cells written with `.at[index, column]`.  Its reader
 * `data.get(row).get(col)` selects the column labelled `row` and then the
 * index `col`, so it reads the cell written as `.at[col, row]`.
 *
 * A formula cell's value is `get_value()`, which answers 0 whenever the
 * evaluation succeeds; that constant is `FormulaValue`.
 */
module Tables {
  import opened Common
  import opened ColumnCodec
  import opened Formulas

  /** A row or column label: the frame and the dictionaries mix integers and letter texts. */
  datatype Label = Num(i: int) | Name(s: string)

  /** A cell position `(row, col)`, as the dependency dictionaries key it. */
  type Cell = (Label, Label)

  type Formulae = map<Label, map<Label, Formula>>

  /** What a formula cell reads as: `get_value` returns 0. */
  const FormulaValue: Value := Number(0)

  /** `_has_formula` on the formula dictionary. */
  predicate HasFormulaIn(formulae: Formulae, row: Label, col: Label)
  {
    row in formulae && col in formulae[row]
  }

  /** `get_cell_value` on the stored maps: the formula's value, else the datum, else `None`. */
  function CellValue(data: map<Cell, Value>, formulae: Formulae, row: Label, col: Label): Value
  {
    if HasFormulaIn(formulae, row, col) then FormulaValue
    else if (col, row) in data then data[(col, row)]
    else Nil
  }

  /* ---------------------------------------------------------------------- */
  /* Dependency edges                                                         */
  /* ---------------------------------------------------------------------- */

  /** No cell is listed twice: the keys of a Python dict. */
  predicate NoDuplicates(s: seq<Cell>)
  {
    forall i, j :: 0 <= i < j < |s| ==> s[i] != s[j]
  }

  /** The dependents registered for a lead, in insertion order, or none. */
  function DependentsOf(deps: map<Cell, seq<Cell>>, lead: Cell): seq<Cell>
  {
    if lead in deps then deps[lead] else []
  }

  /** `add_dependency`: create the lead's entry if needed, then set `dependent` in it. */
  function WithEdge(deps: map<Cell, seq<Cell>>, lead: Cell, dependent: Cell): map<Cell, seq<Cell>>
  {
    var known := DependentsOf(deps, lead);
    deps[lead := if dependent in known then known else known + [dependent]]
  }

  /**
   * Registering an edge records it, keeps every edge already there in its
   * place, touches no other lead, and keeps the dependents free of repeats.
   */
  lemma WithEdgeEffect(deps: map<Cell, seq<Cell>>, lead: Cell, dependent: Cell)
    ensures var r := WithEdge(deps, lead, dependent);
            && lead in r && dependent in r[lead]
            && r.Keys == deps.Keys + {lead}
            && (forall c :: c in deps && c != lead ==> r[c] == deps[c])
            && DependentsOf(deps, lead) <= r[lead]
            && (forall x :: x in r[lead] <==> x in DependentsOf(deps, lead) || x == dependent)
            && (NoDuplicates(DependentsOf(deps, lead)) ==> NoDuplicates(r[lead]))
  {
  }

  /** Registering the same edge twice is registering it once. */
  lemma WithEdgeIdempotent(deps: map<Cell, seq<Cell>>, lead: Cell, dependent: Cell)
    ensures WithEdge(WithEdge(deps, lead, dependent), lead, dependent) == WithEdge(deps, lead, dependent)
  {
    WithEdgeEffect(deps, lead, dependent);
  }

  /** `add_dependencies`: one edge from each lead to the formula's position, in order. */
  function WithEdges(deps: map<Cell, seq<Cell>>, leads: seq<Cell>, dependent: Cell): map<Cell, seq<Cell>>
  {
    if leads == [] then deps
    else WithEdge(WithEdges(deps, leads[..|leads| - 1], dependent), leads[|leads| - 1], dependent)
  }

  /** An edge list `a` that `b` extends: every lead keeps its dependents, in order, as a prefix. */
  predicate Extends(a: map<Cell, seq<Cell>>, b: map<Cell, seq<Cell>>)
  {
    forall c :: c in a ==> c in b && a[c] <= b[c]
  }

  /** Registering one edge extends the edge lists. */
  lemma WithEdgeExtends(deps: map<Cell, seq<Cell>>, lead: Cell, dependent: Cell)
    ensures Extends(deps, WithEdge(deps, lead, dependent))
  {
  }

  lemma ExtendsTransitive(a: map<Cell, seq<Cell>>, b: map<Cell, seq<Cell>>, c: map<Cell, seq<Cell>>)
    requires Extends(a, b) && Extends(b, c)
    ensures Extends(a, c)
  {
  }

  /** Edges only grow: every edge registered before `add_dependencies` is still there, in its place. */
  lemma {:induction false} WithEdgesExtend(deps: map<Cell, seq<Cell>>, leads: seq<Cell>, dependent: Cell)
    ensures Extends(deps, WithEdges(deps, leads, dependent))
  {
    if leads != [] {
      var init, last := leads[..|leads| - 1], leads[|leads| - 1];
      var mid := WithEdges(deps, init, dependent);
      WithEdgesExtend(deps, init, dependent);
      WithEdgeExtends(mid, last, dependent);
      ExtendsTransitive(deps, mid, WithEdge(mid, last, dependent));
    }
  }

  /**
   * After `add_dependencies` every lead lists the formula's position, and
   * the leads with an entry are the earlier ones and the new leads.
   */
  lemma WithEdgesRecord(deps: map<Cell, seq<Cell>>, leads: seq<Cell>, dependent: Cell)
    ensures var r := WithEdges(deps, leads, dependent);
            && r.Keys == deps.Keys + (set l | l in leads)
            && (forall l :: l in leads ==> l in r && dependent in r[l])
  {
    WithEdgesKeys(deps, leads, dependent);
    WithEdgesLists(deps, leads, dependent);
  }

  /** The leads with an entry after `add_dependencies`: the earlier ones and the new leads. */
  lemma {:induction false} WithEdgesKeys(deps: map<Cell, seq<Cell>>, leads: seq<Cell>, dependent: Cell)
    ensures WithEdges(deps, leads, dependent).Keys == deps.Keys + (set l | l in leads)
  {
    if leads != [] {
      var init, last := leads[..|leads| - 1], leads[|leads| - 1];
      assert leads == init + [last];
      WithEdgesKeys(deps, init, dependent);
      assert (set l | l in leads) == (set l | l in init) + {last};
    }
  }

  /** After `add_dependencies` every lead lists the formula's position. */
  lemma {:induction false} WithEdgesLists(deps: map<Cell, seq<Cell>>, leads: seq<Cell>, dependent: Cell)
    ensures var r := WithEdges(deps, leads, dependent);
            forall l :: l in leads ==> l in r && dependent in r[l]
  {
    if leads != [] {
      var init, last := leads[..|leads| - 1], leads[|leads| - 1];
      assert leads == init + [last];
      var mid := WithEdges(deps, init, dependent);
      WithEdgesLists(deps, init, dependent);
      WithEdgeExtends(mid, last, dependent);
      var r := WithEdge(mid, last, dependent);
      forall l | l in leads ensures l in r && dependent in r[l] {
        if l != last {
          assert l in init;
          assert mid[l] <= r[l];
        }
      }
    }
  }

  /* ---------------------------------------------------------------------- */
  /* One-level refresh                                                        */
  /* ---------------------------------------------------------------------- */

  /** The data after `update_value` on each of `ds` in turn. */
  function Refreshed(data: map<Cell, Value>, formulae: Formulae, ds: seq<Cell>): map<Cell, Value>
  {
    if ds == [] then data
    else
      var d := ds[|ds| - 1];
      var prev := Refreshed(data, formulae, ds[..|ds| - 1]);
      if HasFormulaIn(formulae, d.0, d.1) then prev[d := FormulaValue] else prev
  }

  /**
   * `token_changed` does not cascade: exactly the listed cells that hold a
   * formula are written, with the formula's value; every other cell keeps
   * its datum.
   */
  lemma {:induction false} RefreshedCells(data: map<Cell, Value>, formulae: Formulae, ds: seq<Cell>)
    ensures var r := Refreshed(data, formulae, ds);
            forall k :: (k in r <==> k in data || (k in ds && HasFormulaIn(formulae, k.0, k.1)))
                     && (k in r ==> r[k] == if k in ds && HasFormulaIn(formulae, k.0, k.1) then FormulaValue else data[k])
  {
    if ds != [] {
      RefreshedCells(data, formulae, ds[..|ds| - 1]);
      assert forall k :: k in ds <==> k in ds[..|ds| - 1] || k == ds[|ds| - 1];
    }
  }

  /* ---------------------------------------------------------------------- */
  /* Range reads                                                              */
  /* ---------------------------------------------------------------------- */

  /**
   * What `get_cell_range` reads for the 0-based cell `(row, col)`:
   * `get_cell_value` at the column named for `col`.  The source names it with
   * `colval(col)`, which never returns from 26 on; the model uses the
   * intended name `ColumnName(col)`.
   */
  function RangeCell(data: map<Cell, Value>, formulae: Formulae, row: int, col: int): Value
  {
    CellValue(data, formulae, Name(ColumnName(col)), Num(row))
  }

  /** The cells of one row, columns `c0` up to (not including) `c`. */
  function RowValues(data: map<Cell, Value>, formulae: Formulae, row: int, c0: int, c: int): seq<Value>
    decreases c - c0
  {
    if c <= c0 then [] else RowValues(data, formulae, row, c0, c - 1) + [RangeCell(data, formulae, row, c - 1)]
  }

  /** The rows `r0` up to (not including) `r`, each over the columns `c0..c1`, rows outer. */
  function GridValues(data: map<Cell, Value>, formulae: Formulae, r0: int, r: int, c0: int, c1: int): seq<Value>
    decreases r - r0
  {
    if r <= r0 then [] else GridValues(data, formulae, r0, r - 1, c0, c1) + RowValues(data, formulae, r - 1, c0, c1 + 1)
  }

  function Min(a: int, b: int): int { if a <= b then a else b }
  function Max(a: int, b: int): int { if a <= b then b else a }

  /** `get_cell_range`: the rectangle between the sorted rows and the sorted columns, inclusive. */
  function RangeValues(data: map<Cell, Value>, formulae: Formulae, start: (int, int), end: (int, int)): seq<Value>
  {
    GridValues(data, formulae, Min(start.0, end.0), Max(start.0, end.0) + 1, Min(start.1, end.1), Max(start.1, end.1))
  }

  /** A row holds one cell per column, the `k`-th at column `c0 + k`. */
  lemma {:induction false} RowValuesAt(data: map<Cell, Value>, formulae: Formulae, row: int, c0: int, c: int)
    requires c0 <= c
    ensures |RowValues(data, formulae, row, c0, c)| == c - c0
    ensures forall k :: 0 <= k < |RowValues(data, formulae, row, c0, c)| ==>
              RowValues(data, formulae, row, c0, c)[k] == RangeCell(data, formulae, row, c0 + k)
    decreases c - c0
  {
    if c > c0 {
      RowValuesAt(data, formulae, row, c0, c - 1);
    }
  }

  /** `s` lists cells row after row, `w` to a row, from row `r0` and column `c0`: its `k`-th is at `(r0 + k / w, c0 + k % w)`. */
  ghost predicate RowMajor(data: map<Cell, Value>, formulae: Formulae, s: seq<Value>, r0: int, c0: int, w: int)
    requires w >= 1
  {
    forall k :: 0 <= k < |s| ==> s[k] == RangeCell(data, formulae, r0 + k / w, c0 + k % w)
  }

  /** The grid is `(r - r0)` rows of `w` cells, and its `k`-th cell is at row `r0 + k / w`, column `c0 + k % w`. */
  lemma {:induction false} GridValuesAt(data: map<Cell, Value>, formulae: Formulae, r0: int, r: int, c0: int, c1: int)
    requires r0 <= r && c0 <= c1
    ensures |GridValues(data, formulae, r0, r, c0, c1)| == (r - r0) * (c1 - c0 + 1)
    ensures RowMajor(data, formulae, GridValues(data, formulae, r0, r, c0, c1), r0, c0, c1 - c0 + 1)
    decreases r - r0
  {
    if r > r0 {
      var prev, last := GridValues(data, formulae, r0, r - 1, c0, c1), RowValues(data, formulae, r - 1, c0, c1 + 1);
      GridValuesAt(data, formulae, r0, r - 1, c0, c1);
      RowValuesAt(data, formulae, r - 1, c0, c1 + 1);
      AppendRow(data, formulae, r0, c0, prev, last, r - 1 - r0, c1 - c0 + 1);
      assert GridValues(data, formulae, r0, r, c0, c1) == prev + last;
    }
  }

  /** Appending row `q` to `q` rows of width `w` gives `q + 1` rows, indexed row-major. */
  lemma AppendRow(data: map<Cell, Value>, formulae: Formulae, r0: int, c0: int, prev: seq<Value>, last: seq<Value>, q: int, w: int)
    requires w >= 1 && q >= 0 && |prev| == q * w && |last| == w
    requires RowMajor(data, formulae, prev, r0, c0, w)
    requires forall j :: 0 <= j < |last| ==> last[j] == RangeCell(data, formulae, r0 + q, c0 + j)
    ensures |prev + last| == (q + 1) * w
    ensures RowMajor(data, formulae, prev + last, r0, c0, w)
  {
    forall k | 0 <= k < |prev + last| ensures (prev + last)[k] == RangeCell(data, formulae, r0 + k / w, c0 + k % w) {
      if k >= |prev| {
        DivModOfRow(k, q, w, k - q * w);
      }
    }
  }

  /** Integer division of `q * w + j` by `w`, with `0 <= j < w`. */
  lemma DivModOfRow(k: int, q: int, w: int, j: int)
    requires 0 <= j < w && k == q * w + j
    ensures k / w == q && k % w == j
  {
    var d, m := k / w, k % w;
    assert (q - d) * w == m - j;
    if q - d >= 1 {
      MulAtLeast(q - d, w);
    } else if d - q >= 1 {
      MulAtLeast(d - q, w);
    }
  }

  lemma MulAtLeast(a: int, w: int)
    requires a >= 1 && w >= 1
    ensures a * w >= w
  {
    assert a * w == (a - 1) * w + w;
  }

  /**
   * The range has `(|dr| + 1) * (|dc| + 1)` cells, row after row, and
   * naming the rectangle by any two opposite corners gives the same list.
   */
  lemma RangeShape(data: map<Cell, Value>, formulae: Formulae, start: (int, int), end: (int, int))
    ensures var rs := Max(start.0, end.0) - Min(start.0, end.0) + 1;
            var cs := Max(start.1, end.1) - Min(start.1, end.1) + 1;
            var out := RangeValues(data, formulae, start, end);
            && |out| == rs * cs
            && (forall k :: 0 <= k < rs * cs ==>
                  out[k] == RangeCell(data, formulae, Min(start.0, end.0) + k / cs, Min(start.1, end.1) + k % cs))
            && out == RangeValues(data, formulae, end, start)
            && out == RangeValues(data, formulae, (start.0, end.1), (end.0, start.1))
  {
    GridValuesAt(data, formulae, Min(start.0, end.0), Max(start.0, end.0) + 1, Min(start.1, end.1), Max(start.1, end.1));
  }

  /* ---------------------------------------------------------------------- */
  /* `read_token`                                                             */
  /* ---------------------------------------------------------------------- */

  /** The position of the first character of the class, or `|s|`: where `re.search` starts its match. */
  function FirstInClass(s: string, digits: bool): (k: nat)
    ensures k <= |s|
    ensures k < |s| ==> InClass(s[k], digits)
  {
    if s == [] then 0 else if InClass(s[0], digits) then 0 else 1 + FirstInClass(s[1..], digits)
  }

  /** `re.search` for `[A-Z]+` or `[0-9]+`: the first maximal run, if there is one. */
  function SearchRun(s: string, digits: bool): Option<string>
  {
    var i := FirstInClass(s, digits);
    if i == |s| then None else Some(s[i..RunEnd(s, i, digits)])
  }

  /** The parts `read_token` returns: the 1-based row, its lock, the 0-based column, its lock. */
  datatype TokenParts = TokenParts(row: int, rowLock: bool, col: int, colLock: bool)

  /** `read_token` fails (`m.group` on `None`) when the text holds no letter or no digit. */
  datatype ReadTokenError = NoColumn | NoRow

  /** `read_token`: lock flags by `$`, column from the first letter run, row from the first digit run. */
  function ReadToken(token: string): Result<TokenParts, ReadTokenError>
  {
    ReadUnlocked(StartsWith(token, "$"), Unlocked(token))
  }

  /** The part of `read_token` that follows the stripping of a leading `$`. */
  function ReadUnlocked(colLock: bool, t: string): Result<TokenParts, ReadTokenError>
  {
    match SearchRun(t, false)
    case None => Err(NoColumn)
    case Some(letters) =>
      match SearchRun(t, true)
      case None => Err(NoRow)
      case Some(digits) => Ok(TokenParts(DigitsValue(digits), HasChar(t, '$'), ColumnValue(letters) - 1, colLock))
  }

  /* ---------------------------------------------------------------------- */
  /* The table                                                                */
  /* ---------------------------------------------------------------------- */

  class TableData {
    /** The frame: the value stored under `(index, column)`. */
    var data: map<Cell, Value>
    /** `formulae[row][col]`. */
    var formulae: Formulae
    /** `dependencies[lead]`: the dependents of a lead, in insertion order. */
    var dependencies: map<Cell, seq<Cell>>

    /** Every lead lists each dependent once. */
    ghost predicate Valid()
      reads this
    {
      forall c :: c in dependencies ==> NoDuplicates(dependencies[c])
    }

    /** `__init__`: an empty frame unless one is given, and no formulas or dependencies. */
    constructor(dataframe: Option<map<Cell, Value>>)
      ensures Valid()
      ensures data == (if dataframe.Some? then dataframe.value else map[])
      ensures formulae == map[] && dependencies == map[]
    {
      data := if dataframe.Some? then dataframe.value else map[];
      formulae := map[];
      dependencies := map[];
    }

    /** `clear_data`: empty all three stores. */
    method ClearData()
      modifies this
      ensures Valid()
      ensures data == map[] && formulae == map[] && dependencies == map[]
    {
      data := map[];
      formulae := map[];
      dependencies := map[];
    }

    /** `_has_formula`. */
    predicate HasFormula(row: Label, col: Label)
      reads this
    {
      HasFormulaIn(formulae, row, col)
    }

    /** `get_formula`: the formula at the cell, or `None`. */
    function GetFormula(row: Label, col: Label): (r: Option<Formula>)
      reads this
      ensures r.Some? <==> row in formulae && col in formulae[row]
      ensures r.Some? ==> r.value == formulae[row][col]
    {
      if HasFormula(row, col) then Some(formulae[row][col]) else None
    }

    /** `get_cell_value`. */
    function GetCellValue(row: Label, col: Label): (v: Value)
      reads this
      ensures HasFormula(row, col) ==> v == FormulaValue
      ensures !HasFormula(row, col) && (col, row) in data ==> v == data[(col, row)]
      ensures !HasFormula(row, col) && (col, row) !in data ==> v == Nil
    {
      CellValue(data, formulae, row, col)
    }

    /** `get_dependencies`: the dependents of a cell, or none. */
    function GetDependencies(cell: Cell): (r: seq<Cell>)
      reads this
      ensures cell in dependencies ==> r == dependencies[cell]
      ensures cell !in dependencies ==> r == []
    {
      DependentsOf(dependencies, cell)
    }

    /** `update_value`: a formula cell is rewritten with the formula's value; any other cell is left alone. */
    method UpdateValue(row: Label, col: Label)
      modifies this
      ensures data == Refreshed(old(data), formulae, [(row, col)])
      ensures formulae == old(formulae) && dependencies == old(dependencies)
    {
      if HasFormula(row, col) {
        data := data[(row, col) := FormulaValue];
      }
    }

    /** `add_dependency`. */
    method AddDependency(leadToken: Cell, dependentToken: Cell)
      requires Valid()
      modifies this
      ensures Valid()
      ensures dependencies == WithEdge(old(dependencies), leadToken, dependentToken)
      ensures data == old(data) && formulae == old(formulae)
    {
      if leadToken !in dependencies {
        dependencies := dependencies[leadToken := []];
      }
      var known := dependencies[leadToken];
      if dependentToken !in known {
        dependencies := dependencies[leadToken := known + [dependentToken]];
      }
      WithEdgeEffect(old(dependencies), leadToken, dependentToken);
    }

    /** `add_dependencies`: an edge from each of the formula's lead cells to its position. */
    method AddDependencies(leads: seq<Cell>, position: Cell)
      requires Valid()
      modifies this
      ensures Valid()
      ensures dependencies == WithEdges(old(dependencies), leads, position)
      ensures data == old(data) && formulae == old(formulae)
    {
      for i := 0 to |leads|
        invariant Valid()
        invariant dependencies == WithEdges(old(dependencies), leads[..i], position)
        invariant data == old(data) && formulae == old(formulae)
      {
        AddDependency(leads[i], position);
        assert leads[..i + 1][..i] == leads[..i];
      }
      assert leads[..|leads|] == leads;
    }

    /** `token_changed`: `update_value` on each direct dependent of the cell, in insertion order. */
    method TokenChanged(cell: Cell)
      modifies this
      ensures data == Refreshed(old(data), formulae, GetDependencies(cell))
      ensures formulae == old(formulae) && dependencies == old(dependencies)
    {
      var ds := GetDependencies(cell);
      for i := 0 to |ds|
        invariant data == Refreshed(old(data), formulae, ds[..i])
        invariant formulae == old(formulae) && dependencies == old(dependencies)
      {
        UpdateValue(ds[i].0, ds[i].1);
        assert ds[..i + 1][..i] == ds[..i];
      }
      assert ds[..|ds|] == ds;
    }

    /** `set_value`: store the value, then refresh the cell's direct dependents. */
    method SetValue(row: Label, col: Label, value: Value)
      modifies this
      ensures data == Refreshed(old(data)[(row, col) := value], formulae, GetDependencies((row, col)))
      ensures formulae == old(formulae) && dependencies == old(dependencies)
    {
      data := data[(row, col) := value];
      TokenChanged((row, col));
    }

    /**
     * `add_formula`: parse the formula at `(row, col)` and store it over any
     * earlier one, write its value, register an edge from each lead cell, and
     * refresh the cell's dependents (before and after the new edges).
     */
    method AddFormula(row: int, col: string, text: string, leads: seq<Cell>)
      requires Valid()
      modifies this
      ensures Valid()
      ensures HasFormula(Num(row), Name(col))
      ensures var f := formulae[Num(row)][Name(col)];
              && WellFormed(f) && f.position == Anchor(row, col) && f.text == text
              && f.order == Distinct(FindTokens(text))
      ensures formulae.Keys == old(formulae).Keys + {Num(row)}
      ensures forall r, c :: (r, c) != (Num(row), Name(col)) ==>
                (HasFormulaIn(formulae, r, c) <==> HasFormulaIn(old(formulae), r, c))
                && (HasFormulaIn(formulae, r, c) ==> formulae[r][c] == old(formulae)[r][c])
      ensures dependencies == WithEdges(old(dependencies), leads, (Num(row), Name(col)))
      ensures data == Refreshed(Refreshed(old(data)[(Num(row), Name(col)) := FormulaValue], formulae,
                                          DependentsOf(old(dependencies), (Num(row), Name(col)))),
                                formulae, GetDependencies((Num(row), Name(col))))
    {
      var f := NewFormula(Anchor(row, col), text);
      var r, c := Num(row), Name(col);
      var inner := if r in formulae then formulae[r] else map[];
      formulae := formulae[r := inner[c := f]];
      SetValue(r, c, FormulaValue);
      AddDependencies(leads, (r, c));
      TokenChanged((r, c));
    }

    /**
     * `set_string_value`: name the column of `c` (the source calls `colval(c)`,
     * which never returns from 26 on; the model uses the intended name
     * `ColumnName(c)`), then store a formula when the text holds references
     * (what `add_formula` does), else the evaluated value when the evaluator
     * `evaluate` accepts the text, else the text itself.
     */
    method SetStringValue(r: int, c: int, val: string, leads: seq<Cell>, evaluate: string -> Option<Value>)
      requires Valid()
      modifies this
      ensures Valid()
      ensures FindTokens(val) != [] ==>
                && HasFormula(Num(r), Name(ColumnName(c)))
                && var f := formulae[Num(r)][Name(ColumnName(c))];
                   && WellFormed(f) && f.position == Anchor(r, ColumnName(c)) && f.text == val
                   && f.order == Distinct(FindTokens(val))
      ensures FindTokens(val) != [] ==>
                && formulae.Keys == old(formulae).Keys + {Num(r)}
                && forall r', c' :: (r', c') != (Num(r), Name(ColumnName(c))) ==>
                     (HasFormulaIn(formulae, r', c') <==> HasFormulaIn(old(formulae), r', c'))
                     && (HasFormulaIn(formulae, r', c') ==> formulae[r'][c'] == old(formulae)[r'][c'])
      ensures FindTokens(val) != [] ==>
                var cell := (Num(r), Name(ColumnName(c)));
                && dependencies == WithEdges(old(dependencies), leads, cell)
                && data == Refreshed(Refreshed(old(data)[cell := FormulaValue], formulae,
                                               DependentsOf(old(dependencies), cell)),
                                     formulae, GetDependencies(cell))
      ensures FindTokens(val) == [] ==>
                var cell := (Num(r), Name(ColumnName(c)));
                var stored := if evaluate(val).Some? then evaluate(val).value else Text(val);
                && formulae == old(formulae) && dependencies == old(dependencies)
                && data == Refreshed(old(data)[cell := stored], formulae, GetDependencies(cell))
    {
      var col := ColumnName(c);
      if FindTokens(val) != [] {
        AddFormula(r, col, val, leads);
      } else {
        match evaluate(val)
        case Some(value) =>
          SetValue(Num(r), Name(col), value);
        case None =>
          SetValue(Num(r), Name(col), Text(val));
      }
    }

    /** `get_cell_range`: the rectangle's values, rows outer and columns inner. */
    method GetCellRange(startPos: (int, int), endPos: (int, int)) returns (output: seq<Value>)
      ensures output == RangeValues(data, formulae, startPos, endPos)
    {
      output := [];
      var r0, r1 := Min(startPos.0, endPos.0), Max(startPos.0, endPos.0);
      var c0, c1 := Min(startPos.1, endPos.1), Max(startPos.1, endPos.1);
      for row := r0 to r1 + 1
        invariant output == GridValues(data, formulae, r0, row, c0, c1)
      {
        for col := c0 to c1 + 1
          invariant output == GridValues(data, formulae, r0, row, c0, c1) + RowValues(data, formulae, row, c0, col)
        {
          var val := GetCellValue(Name(ColumnName(col)), Num(row));
          output := output + [val];
        }
      }
    }
  }

  /**
   * What `set_value` stores at `(row, col)` is what `get_cell_value(col, row)`
   * reads back, unless the cell is its own formula dependent or a formula
   * sits at `[col][row]`.
   */
  lemma ReadBackTransposed(data: map<Cell, Value>, formulae: Formulae, ds: seq<Cell>, row: Label, col: Label, v: Value)
    requires !HasFormulaIn(formulae, col, row)
    requires (row, col) !in ds || !HasFormulaIn(formulae, row, col)
    ensures CellValue(Refreshed(data[(row, col) := v], formulae, ds), formulae, col, row) == v
  {
    RefreshedCells(data[(row, col) := v], formulae, ds);
  }

  /** Any position before which `s` holds nothing of the class, and at which it holds one, is `FirstInClass`. */
  lemma {:induction false} FirstInClassIs(s: string, digits: bool, k: nat)
    requires k < |s| && InClass(s[k], digits)
    requires forall i :: 0 <= i < k ==> !InClass(s[i], digits)
    ensures FirstInClass(s, digits) == k
  {
    if k > 0 {
      forall i | 0 <= i < k - 1 ensures !InClass(s[1..][i], digits) {
        assert s[1..][i] == s[i + 1];
      }
      FirstInClassIs(s[1..], digits, k - 1);
    }
  }

  /** `re.search` finds nothing exactly when no character of `s` is of the class. */
  lemma {:induction false} FirstInClassNone(s: string, digits: bool)
    ensures FirstInClass(s, digits) == |s| <==> forall i :: 0 <= i < |s| ==> !InClass(s[i], digits)
    decreases |s|
  {
    if s != [] {
      FirstInClassNone(s[1..], digits);
      assert forall i :: 1 <= i < |s| ==> s[i] == s[1..][i - 1];
    }
  }

  /**
   * `read_token` fails exactly when the text after a leading `$` holds no
   * capital letter (the column search), or holds one but no digit (the row
   * search); otherwise it succeeds.
   */
  lemma ReadTokenFails(token: string)
    ensures var t := Unlocked(token);
            ReadToken(token) == Err(NoColumn) <==> forall i :: 0 <= i < |t| ==> !InClass(t[i], false)
    ensures var t := Unlocked(token);
            ReadToken(token) == Err(NoRow) <==>
              (exists i :: 0 <= i < |t| && InClass(t[i], false)) && forall i :: 0 <= i < |t| ==> !InClass(t[i], true)
  {
    FirstInClassNone(Unlocked(token), false);
    FirstInClassNone(Unlocked(token), true);
  }

  /** In the unlocked rest of a rendered reference, the first letter run is the column. */
  lemma LetterRun(col: string, lock: string, rowText: string)
    requires IsColumnText(col) && IsDigitText(rowText) && (lock == "" || lock == "$")
    ensures SearchRun(col + lock + rowText, false) == Some(col)
  {
    var t := col + lock + rowText;
    assert t[0] == col[0];
    forall x | 0 <= x < |col| ensures InClass(t[x], false) {
      assert t[x] == col[x];
    }
    assert t[|col|] == if lock == "$" then '$' else rowText[0];
    RunEndIs(t, 0, false, |col|);
    assert t[..|col|] == col;
  }

  /** In the unlocked rest of a rendered reference, the first digit run is the row. */
  lemma DigitRun(col: string, lock: string, rowText: string)
    requires IsColumnText(col) && IsDigitText(rowText) && (lock == "" || lock == "$")
    ensures SearchRun(col + lock + rowText, true) == Some(rowText)
  {
    var t := col + lock + rowText;
    var l := |col| + |lock|;
    forall x | 0 <= x < l ensures !InClass(t[x], true) {
      if x < |col| {
        assert t[x] == col[x] && IsUpper(col[x]);
      } else {
        assert t[x] == '$';
      }
    }
    assert t[l] == rowText[0];
    FirstInClassIs(t, true, l);
    forall x | l <= x < |t| ensures InClass(t[x], true) {
      assert t[x] == rowText[x - l];
    }
    RunEndIs(t, l, true, |t|);
    assert FirstInClass(t, true) == l && RunEnd(t, l, true) == |t|;
    assert t[l..|t|] == rowText;
  }

  /** The unlocked rest of a rendered reference holds `$` exactly when the row is locked. */
  lemma RowLockRun(col: string, lock: string, rowText: string)
    requires IsColumnText(col) && IsDigitText(rowText) && (lock == "" || lock == "$")
    ensures HasChar(col + lock + rowText, '$') <==> lock == "$"
  {
    var t := col + lock + rowText;
    if lock == "$" {
      assert t[|col|] == '$';
      HasCharIff(t, '$');
    } else {
      forall x | 0 <= x < |t| ensures t[x] != '$' {
        if x < |col| {
          assert t[x] == col[x];
        } else {
          assert t[x] == rowText[x - |col|];
        }
      }
      NoChar(t, '$');
    }
  }

  /** The letters, the optional `$` and the digits after a stripped leading `$`, read back. */
  lemma ReadUnlockedParts(colLock: bool, col: string, lock: string, rowText: string)
    requires IsColumnText(col) && IsDigitText(rowText) && (lock == "" || lock == "$")
    ensures ReadUnlocked(colLock, col + lock + rowText)
              == Ok(TokenParts(DigitsValue(rowText), lock == "$", ColumnValue(col) - 1, colLock))
  {
    LetterRun(col, lock, rowText);
    DigitRun(col, lock, rowText);
    RowLockRun(col, lock, rowText);
  }

  /** `read_token` on a rendered reference reads back its locks, its row and its column. */
  lemma ReadTokenRender(r: CellRef)
    requires WellFormedCell(r)
    ensures ReadToken(RenderCell(r)) == Ok(TokenParts(DigitsValue(r.rowText), r.rowLock, ColIndex(r.col), r.colLock))
  {
    UnlockRender(r);
    var lock := Lock(r.rowLock);
    ReadUnlockedParts(r.colLock, r.col, lock, r.rowText);
    assert (lock == "$") == r.rowLock;
  }

  /** `read_token` agrees with `_get_cell` on every cell text: same locks, row and column. */
  lemma ReadTokenOfCell(token: string)
    requires IsCellText(token)
    ensures ReadToken(token) == Ok(TokenParts(DigitsValue(GetCell(token).rowText), GetCell(token).rowLock,
                                              ColIndex(GetCell(token).col), GetCell(token).colLock))
  {
    GetCellRoundTrip(token);
    ReadTokenRender(GetCell(token));
  }
}
