/**
 * The `Formula` class of source/data/formula.py: the reference tokenizer
 * (`_decipher`), the per-token coordinate resolvers (`_get_cell`,
 * `_generate_token_formula`), the token dictionaries (`_load_dict`) and the
 * token substitution of `_get_value_for_cell`.
 *
 * A resolver, a Python closure in the source, is represented by the parsed
 * reference (`CellRef`, `TokenRef`) together with the function that the
 * closure computes (`ResolveCell`, `ResolveToken`).
 */
module Formulas {
  import opened Common
  import opened ColumnCodec

  /* ---------------------------------------------------------------------- */
  /* Values                                                                   */
  /* ---------------------------------------------------------------------- */

  /**
   * The Python values that flow through the table: `None`, numbers, text,
   * and the lists a range reads.
   */
  datatype Value = Nil | Number(n: int) | Text(s: string) | Cells(items: seq<Value>)

  /** A formula's position or an evaluation anchor: a row number and column letters. */
  datatype Anchor = Anchor(row: int, col: string)

  /** The 0-based column index `colint` gives for a column text. */
  function ColIndex(s: string): int
  {
    ColumnValue(s) - 1
  }

  /* ---------------------------------------------------------------------- */
  /* The token recogniser: \$?[A-Z]+\$?[0-9]+(?::\$?[A-Z]+\$?[0-9]+)?         */
  /* ---------------------------------------------------------------------- */

  predicate InClass(c: char, digits: bool)
  {
    if digits then '0' <= c <= '9' else 'A' <= c <= 'Z'
  }

  /** The end of the longest run of letters (or digits) that starts at `i`. */
  function RunEnd(s: string, i: nat, digits: bool): (k: nat)
    requires i <= |s|
    ensures i <= k <= |s|
    decreases |s| - i
  {
    if i == |s| || !InClass(s[i], digits) then i else RunEnd(s, i + 1, digits)
  }

  /** The run holds only characters of the class and stops at the first other one. */
  lemma {:induction false} RunEndSpec(s: string, i: nat, digits: bool)
    requires i <= |s|
    ensures forall j :: i <= j < RunEnd(s, i, digits) ==> InClass(s[j], digits)
    ensures RunEnd(s, i, digits) < |s| ==> !InClass(s[RunEnd(s, i, digits)], digits)
    decreases |s| - i
  {
    if i < |s| && InClass(s[i], digits) {
      RunEndSpec(s, i + 1, digits);
    }
  }

  /** Where the letters of a cell reference that starts at `i` start: after an optional `$`. */
  function LeadAt(s: string, i: nat): (j: nat)
    requires i <= |s|
    ensures i <= j <= |s|
  {
    if i < |s| && s[i] == '$' then i + 1 else i
  }

  /** Where those letters end. */
  function ColumnEndAt(s: string, i: nat): (k: nat)
    requires i <= |s|
    ensures LeadAt(s, i) <= k <= |s|
  {
    RunEnd(s, LeadAt(s, i), false)
  }

  /** Where the digits start: after an optional `$` that follows the letters. */
  function RowStartAt(s: string, i: nat): (l: nat)
    requires i <= |s|
    ensures ColumnEndAt(s, i) <= l <= |s|
  {
    var k := ColumnEndAt(s, i);
    if k < |s| && s[k] == '$' then k + 1 else k
  }

  /**
   * Where a cell reference that starts at `i` ends, if one does.  The classes
   * `$`, letters and digits are disjoint, so the greedy match is the only
   * one and the regular expression never needs to backtrack.
   */
  function MatchCell(s: string, i: nat): (r: Option<nat>)
    requires i <= |s|
    ensures r.Some? ==> i < r.value <= |s|
  {
    var j, k, l := LeadAt(s, i), ColumnEndAt(s, i), RowStartAt(s, i);
    if k == j then None
    else
      var m := RunEnd(s, l, true);
      if m == l then None else Some(m)
  }

  /** Where a token (a cell, optionally followed by `:` and a second cell) that starts at `i` ends. */
  function MatchToken(s: string, i: nat): (r: Option<nat>)
    requires i <= |s|
    ensures r.Some? ==> i < r.value <= |s|
  {
    match MatchCell(s, i)
    case None => None
    case Some(e) =>
      if e < |s| && s[e] == ':' && MatchCell(s, e + 1).Some? then MatchCell(s, e + 1) else Some(e)
  }

  /** `re.findall`: the non-overlapping matches, scanning from `i` to the right. */
  function FindTokensFrom(s: string, i: nat): seq<string>
    requires i <= |s|
    decreases |s| - i
  {
    if i == |s| then []
    else
      match MatchToken(s, i)
      case Some(e) => [s[i..e]] + FindTokensFrom(s, e)
      case None => FindTokensFrom(s, i + 1)
  }

  /** `_decipher`: the reference tokens of a formula text, in order of appearance. */
  function FindTokens(text: string): seq<string>
  {
    FindTokensFrom(text, 0)
  }

  /** A whole text that is one cell reference, such as `A1`, `$AB$12` or `C$3`. */
  predicate IsCellText(t: string)
  {
    MatchCell(t, 0) == Some(|t|)
  }

  /** A whole text that is one token: a cell, or two cells joined by `:`. */
  predicate IsTokenText(t: string)
  {
    if HasChar(t, ':') then
      var k := IndexOf(t, ':');
      IsCellText(t[..k]) && IsCellText(t[k + 1..])
    else IsCellText(t)
  }

  /** `RunEnd` is the only end its postcondition allows. */
  lemma {:induction false} RunEndIs(s: string, i: nat, digits: bool, k: nat)
    requires i <= k <= |s|
    requires forall j :: i <= j < k ==> InClass(s[j], digits)
    requires k == |s| || !InClass(s[k], digits)
    ensures RunEnd(s, i, digits) == k
    decreases k - i
  {
    if i < k {
      RunEndIs(s, i + 1, digits, k);
    }
  }

  /** A run computed on a slice is the run computed on the whole text, shifted. */
  lemma RunEndSlice(s: string, a: nat, b: nat, j: nat, digits: bool)
    requires a <= j <= b <= |s|
    requires RunEnd(s, j, digits) <= b
    ensures RunEnd(s[a..b], j - a, digits) == RunEnd(s, j, digits) - a
  {
    var k := RunEnd(s, j, digits);
    var t := s[a..b];
    RunEndSpec(s, j, digits);
    forall x | j - a <= x < k - a ensures InClass(t[x], digits) {
      assert t[x] == s[x + a];
    }
    if k < b {
      assert t[k - a] == s[k];
    }
    RunEndIs(t, j - a, digits, k - a);
  }

  /** A cell matched inside a text is a cell text on its own. */
  lemma MatchCellSlice(s: string, i: nat, e: nat)
    requires i <= |s| && MatchCell(s, i) == Some(e)
    ensures IsCellText(s[i..e])
  {
    var t := s[i..e];
    var j, k, l := LeadAt(s, i), ColumnEndAt(s, i), RowStartAt(s, i);
    assert RunEnd(s, l, true) == e;
    assert t[0] == s[i];
    assert LeadAt(t, 0) == j - i;
    RunEndSlice(s, i, e, j, false);
    assert ColumnEndAt(t, 0) == k - i;
    if k < e {
      assert t[k - i] == s[k];
    }
    assert RowStartAt(t, 0) == l - i;
    RunEndSlice(s, i, e, l, true);
  }

  /** The first `c` in `a + [c] + b`, when `a` holds none, is at `|a|`. */
  lemma IndexOfJoin(a: string, c: char, b: string)
    requires !HasChar(a, c)
    ensures IndexOf(a + [c] + b, c) == |a|
  {
    var t := a + [c] + b;
    IndexOfFirst(a, c);
    forall x | 0 <= x < |a| ensures t[x] != c {
      assert t[x] == a[x];
    }
    assert t[|a|] == c;
    IndexOfIs(t, c, |a|);
  }

  /** Two cell texts joined by `:` make a range token. */
  lemma TokenTextJoin(a: string, b: string)
    requires IsCellText(a) && IsCellText(b)
    ensures IsTokenText(a + [':'] + b)
  {
    CellTextHasNoColon(a);
    var t := a + [':'] + b;
    IndexOfJoin(a, ':', b);
    assert t[|a|] == ':';
    assert t[..|a|] == a;
    assert t[|a| + 1..] == b;
  }

  /** A cell text on its own is a single-cell token. */
  lemma CellTextIsToken(a: string)
    requires IsCellText(a)
    ensures IsTokenText(a)
  {
    CellTextHasNoColon(a);
  }

  /** A cell, a `:` and a second cell matched after it make a range token. */
  lemma RangeMatchWellFormed(s: string, i: nat, e: nat, e2: nat)
    requires i <= e < e2 <= |s| && s[e] == ':'
    requires IsCellText(s[i..e]) && IsCellText(s[e + 1..e2])
    ensures IsTokenText(s[i..e2])
  {
    assert s[i..e2] == s[i..e] + [':'] + s[e + 1..e2];
    TokenTextJoin(s[i..e], s[e + 1..e2]);
  }

  /** Every text the tokenizer reports is a well-formed token. */
  lemma MatchTokenWellFormed(s: string, i: nat)
    requires i <= |s| && MatchToken(s, i).Some?
    ensures IsTokenText(s[i..MatchToken(s, i).value])
  {
    var e := MatchCell(s, i).value;
    MatchCellSlice(s, i, e);
    if e < |s| && s[e] == ':' && MatchCell(s, e + 1).Some? {
      var e2 := MatchCell(s, e + 1).value;
      assert MatchToken(s, i) == Some(e2);
      MatchCellSlice(s, e + 1, e2);
      RangeMatchWellFormed(s, i, e, e2);
    } else {
      assert MatchToken(s, i) == Some(e);
      CellTextIsToken(s[i..e]);
    }
  }

  /** A cell text is made of `$`, letters and digits only. */
  lemma CellTextHasNoColon(t: string)
    requires IsCellText(t)
    ensures !HasChar(t, ':')
  {
    var j, k, l := LeadAt(t, 0), ColumnEndAt(t, 0), RowStartAt(t, 0);
    assert RunEnd(t, l, true) == |t|;
    RunEndSpec(t, j, false);
    RunEndSpec(t, l, true);
    forall x | 0 <= x < |t| ensures t[x] != ':' {
      if j <= x < k {
        assert InClass(t[x], false);
      } else if l <= x {
        assert InClass(t[x], true);
      }
    }
    NoChar(t, ':');
  }

  /** `_decipher` yields only well-formed tokens, each a piece of the text. */
  lemma {:induction false} FindTokensWellFormed(s: string, i: nat)
    requires i <= |s|
    ensures forall t :: t in FindTokensFrom(s, i) ==> IsTokenText(t) && |t| > 0
    decreases |s| - i
  {
    if i < |s| {
      match MatchToken(s, i)
      case Some(e) =>
        var rest := FindTokensFrom(s, e);
        assert FindTokensFrom(s, i) == [s[i..e]] + rest;
        MatchTokenWellFormed(s, i);
        FindTokensWellFormed(s, e);
        forall t | t in [s[i..e]] + rest ensures IsTokenText(t) && |t| > 0 {
          if t != s[i..e] {
            assert t in rest;
          }
        }
      case None =>
        FindTokensWellFormed(s, i + 1);
    }
  }

  /* ---------------------------------------------------------------------- */
  /* `_get_cell`: lock flags and the coordinate resolver                     */
  /* ---------------------------------------------------------------------- */

  /** A single-cell reference as `_get_cell` takes it apart. */
  datatype CellRef = CellRef(colLock: bool, rowLock: bool, col: string, rowText: string)

  /** The text a reference was parsed from. */
  function RenderCell(r: CellRef): string
  {
    (if r.colLock then "$" else "") + r.col + (if r.rowLock then "$" else "") + r.rowText
  }

  /** A reference whose parts the token grammar allows. */
  predicate WellFormedCell(r: CellRef)
  {
    IsColumnText(r.col) && IsDigitText(r.rowText)
  }

  /**
   * `_get_cell`'s parse: a leading `$` locks the column and is stripped; a
   * remaining `$` locks the row and splits the text into column and row;
   * otherwise the column is the leading letters and the row the rest.
   * On a text that is not a cell text the source raises (a second `$` in
   * the unpacking of `split`, no leading letter for `re.match`, or `int` of
   * a row that is not a numeral); the model still returns a reference there.  No caller reaches
   * that case: `_get_cell` only sees what the cell pattern matched
   * (`FindTokensWellFormed`, `GetCellRoundTrip`).
   */
  function GetCell(token: string): CellRef
  {
    ParseUnlocked(StartsWith(token, "$"), Unlocked(token))
  }

  /** The part of `_get_cell` that follows the stripping of a leading `$`. */
  function ParseUnlocked(colLock: bool, t: string): CellRef
  {
    if HasChar(t, '$') then
      var k := IndexOf(t, '$');
      CellRef(colLock, true, t[..k], t[k + 1..])
    else
      var k := RunEnd(t, 0, false);
      CellRef(colLock, false, t[..k], t[k..])
  }

  /** Where the column letters of a cell text start: after an optional leading `$`. */
  function Lead(token: string): nat
  {
    LeadAt(token, 0)
  }

  /** Where the column letters of a cell text end. */
  function ColumnEnd(token: string): nat
  {
    ColumnEndAt(token, 0)
  }

  /** Where the row digits of a cell text start: after an optional second `$`. */
  function RowStart(token: string): nat
  {
    RowStartAt(token, 0)
  }

  /** The letters, the optional `$` and the digits of a cell text, by position. */
  lemma CellPositions(token: string)
    requires IsCellText(token)
    ensures Lead(token) < ColumnEnd(token) <= RowStart(token) < |token|
    ensures forall x :: Lead(token) <= x < ColumnEnd(token) ==> IsUpper(token[x])
    ensures forall x :: RowStart(token) <= x < |token| ==> '0' <= token[x] <= '9'
  {
    assert RunEnd(token, RowStart(token), true) == |token|;
    RunEndSpec(token, Lead(token), false);
    RunEndSpec(token, RowStart(token), true);
  }

  /** The text `_get_cell` works on once a leading `$` is stripped. */
  function Unlocked(token: string): (t: string)
    ensures t == token[Lead(token)..]
  {
    if StartsWith(token, "$") then token[1..] else token
  }

  /** The letters and the digits of a cell text, as texts. */
  lemma CellTexts(token: string)
    requires IsCellText(token)
    ensures IsColumnText(token[Lead(token)..ColumnEnd(token)])
    ensures IsDigitText(token[RowStart(token)..])
  {
    CellPositions(token);
    var j, k, l := Lead(token), ColumnEnd(token), RowStart(token);
    assert forall x :: 0 <= x < k - j ==> token[j..k][x] == token[x + j];
    assert forall x :: 0 <= x < |token| - l ==> token[l..][x] == token[x + l];
  }

  /**
   * The reference a cell text denotes, read off by position: the letters
   * between the leading `$` and the second `$` (or the first digit), and the
   * digits after them.
   */
  function CellAt(token: string): CellRef
  {
    var j, k, l := Lead(token), ColumnEnd(token), RowStart(token);
    CellRef(j == 1, l == k + 1, token[j..k], token[l..])
  }

  /** The optional `$` of a rendered reference. */
  function Lock(locked: bool): string
  {
    if locked then "$" else ""
  }

  /** Every well-formed reference renders to a cell text the tokenizer matches whole. */
  lemma RenderIsCellText(r: CellRef)
    requires WellFormedCell(r)
    ensures IsCellText(RenderCell(r))
  {
    var p, d := Lock(r.colLock), Lock(r.rowLock);
    var s := p + r.col + d + r.rowText;
    assert RenderCell(r) == s;
    var j, k, l := |p|, |p| + |r.col|, |p| + |r.col| + |d|;
    assert LeadAt(s, 0) == j by {
      assert s[0] == if r.colLock then '$' else r.col[0];
    }
    forall x | j <= x < k ensures InClass(s[x], false) {
      assert s[x] == r.col[x - j];
    }
    assert s[k] == if r.rowLock then '$' else r.rowText[0];
    RunEndIs(s, j, false, k);
    assert RowStartAt(s, 0) == l;
    forall x | l <= x < |s| ensures InClass(s[x], true) {
      assert s[x] == r.rowText[x - l];
    }
    RunEndIs(s, l, true, |s|);
  }

  /** Column letters hold no `$`. */
  lemma ColumnTextHasNoLock(col: string)
    requires IsColumnText(col)
    ensures !HasChar(col, '$')
  {
    forall x | 0 <= x < |col| ensures col[x] != '$' {
      assert IsUpper(col[x]);
    }
    NoChar(col, '$');
  }

  /** With the row locked, the second `$` splits the letters from the digits. */
  lemma ParseLockedRow(colLock: bool, col: string, rowText: string)
    requires IsColumnText(col)
    ensures ParseUnlocked(colLock, col + "$" + rowText) == CellRef(colLock, true, col, rowText)
  {
    var t := col + "$" + rowText;
    ColumnTextHasNoLock(col);
    IndexOfJoin(col, '$', rowText);
    assert t[..|col|] == col;
    assert t[|col| + 1..] == rowText;
  }

  /** With the row free, the letters end where the digits begin. */
  lemma ParseFreeRow(colLock: bool, col: string, rowText: string)
    requires IsColumnText(col) && IsDigitText(rowText)
    ensures ParseUnlocked(colLock, col + rowText) == CellRef(colLock, false, col, rowText)
  {
    var t := col + rowText;
    forall x | 0 <= x < |t| ensures t[x] != '$' && (x < |col| ==> InClass(t[x], false)) {
      if x < |col| {
        assert t[x] == col[x];
      } else {
        assert t[x] == rowText[x - |col|];
      }
    }
    NoChar(t, '$');
    assert t[|col|] == rowText[0];
    RunEndIs(t, 0, false, |col|);
    assert t[..|col|] == col;
    assert t[|col|..] == rowText;
  }

  /** A rendering starts with `$` exactly when its column is locked, and stripping it leaves the rest. */
  lemma UnlockRender(r: CellRef)
    requires WellFormedCell(r)
    ensures StartsWith(RenderCell(r), "$") == r.colLock
    ensures Unlocked(RenderCell(r)) == r.col + Lock(r.rowLock) + r.rowText
  {
    var s := RenderCell(r);
    assert s == Lock(r.colLock) + (r.col + Lock(r.rowLock) + r.rowText);
    assert s[0] == if r.colLock then '$' else r.col[0];
  }

  /** `_get_cell` recovers a well-formed reference from its rendering. */
  lemma ParseRender(r: CellRef)
    requires WellFormedCell(r)
    ensures GetCell(RenderCell(r)) == r
  {
    UnlockRender(r);
    var rest := r.col + Lock(r.rowLock) + r.rowText;
    assert GetCell(RenderCell(r)) == ParseUnlocked(r.colLock, rest);
    if r.rowLock {
      assert rest == r.col + "$" + r.rowText;
      ParseLockedRow(r.colLock, r.col, r.rowText);
    } else {
      assert rest == r.col + r.rowText;
      ParseFreeRow(r.colLock, r.col, r.rowText);
    }
  }

  /** The parts read off by position put the text back together. */
  lemma CellAtRoundTrip(token: string)
    requires IsCellText(token)
    ensures Lead(token) < ColumnEnd(token) <= RowStart(token) < |token|
    ensures WellFormedCell(CellAt(token))
    ensures CellAt(token).colLock <==> token[0] == '$'
    ensures RenderCell(CellAt(token)) == token
  {
    CellPositions(token);
    CellTexts(token);
    var j, k, l := Lead(token), ColumnEnd(token), RowStart(token);
    assert token[..j] == if j == 1 then "$" else "";
    assert token[k..l] == if l == k + 1 then "$" else "";
    assert token == token[..j] + token[j..k] + token[k..l] + token[l..];
  }

  /** `_get_cell` takes a cell text apart without losing anything. */
  lemma GetCellRoundTrip(token: string)
    requires IsCellText(token)
    ensures WellFormedCell(GetCell(token))
    ensures GetCell(token).colLock <==> token[0] == '$'
    ensures RenderCell(GetCell(token)) == token
  {
    CellAtRoundTrip(token);
    ParseRender(CellAt(token));
  }

  /** The 0-based row of a reference: `int(row) - 1`. */
  function RowIndex(r: CellRef): int
  {
    DigitsValue(r.rowText) - 1
  }

  /**
   * The resolver `_get_cell` returns, applied to an anchor.  A locked axis is
   * the literal; an unlocked one is shifted by the anchor minus the origin.
   * The row closures read `row` after it has been reduced by one, while the
   * origin row is used as given.
   */
  function ResolveCell(r: CellRef, origin: Anchor, anchor: Anchor): (int, int)
  {
    (if r.rowLock then RowIndex(r) else anchor.row + (RowIndex(r) - origin.row),
     if r.colLock then ColIndex(r.col) else ColIndex(anchor.col) + (ColIndex(r.col) - ColIndex(origin.col)))
  }

  /** Locked axes resolve to the literal cell at every anchor. */
  lemma LockedAxesAreConstant(r: CellRef, origin: Anchor, a: Anchor, b: Anchor)
    ensures r.rowLock ==> ResolveCell(r, origin, a).0 == ResolveCell(r, origin, b).0 == RowIndex(r)
    ensures r.colLock ==> ResolveCell(r, origin, a).1 == ResolveCell(r, origin, b).1 == ColIndex(r.col)
  {
  }

  /**
   * Unlocked axes move with the anchor: the resolved row and column differ
   * by exactly the difference of the anchors.
   */
  lemma UnlockedAxesShift(r: CellRef, origin: Anchor, a: Anchor, b: Anchor)
    ensures !r.rowLock ==> ResolveCell(r, origin, b).0 - ResolveCell(r, origin, a).0 == b.row - a.row
    ensures !r.colLock ==> ResolveCell(r, origin, b).1 - ResolveCell(r, origin, a).1 == ColIndex(b.col) - ColIndex(a.col)
  {
  }

  /** At the origin itself every reference resolves to its literal cell. */
  lemma ResolveAtOrigin(r: CellRef, origin: Anchor)
    ensures ResolveCell(r, origin, origin) == (RowIndex(r), ColIndex(r.col))
  {
  }

  /* ---------------------------------------------------------------------- */
  /* `_generate_token_formula` and `_load_dict`                               */
  /* ---------------------------------------------------------------------- */

  /** The resolver for a whole token: one cell, or the two corners of a range. */
  datatype TokenRef = Single(cell: CellRef) | Range(start: CellRef, end: CellRef)

  datatype Resolved = At(cell: (int, int)) | Span(start: (int, int), end: (int, int))

  predicate ValidRef(t: TokenRef)
  {
    match t
    case Single(c) => WellFormedCell(c)
    case Range(a, b) => WellFormedCell(a) && WellFormedCell(b)
  }

  /** The token text a resolver was generated from. */
  function RenderToken(t: TokenRef): string
  {
    match t
    case Single(c) => RenderCell(c)
    case Range(a, b) => RenderCell(a) + ":" + RenderCell(b)
  }

  /** `_generate_token_formula`: split a range at `:` and parse both halves. */
  function GenerateTokenRef(token: string): (r: TokenRef)
    ensures r.Range? <==> HasChar(token, ':')
  {
    if HasChar(token, ':') then
      var k := IndexOf(token, ':');
      Range(GetCell(token[..k]), GetCell(token[k + 1..]))
    else Single(GetCell(token))
  }

  /**
   * `_generate_token_formula` loses nothing: a range exactly when the token
   * holds `:`, and the parsed halves render back to the token.
   */
  lemma GenerateTokenRefRoundTrip(token: string)
    requires IsTokenText(token)
    ensures ValidRef(GenerateTokenRef(token))
    ensures GenerateTokenRef(token).Range? <==> HasChar(token, ':')
    ensures RenderToken(GenerateTokenRef(token)) == token
  {
    if HasChar(token, ':') {
      var k := IndexOf(token, ':');
      RangeTokenRoundTrip(token, k, token[..k], token[k + 1..]);
    } else {
      SingleTokenRoundTrip(token);
    }
  }

  /** The single-cell case of the round trip. */
  lemma SingleTokenRoundTrip(token: string)
    requires !HasChar(token, ':') && IsCellText(token)
    ensures GenerateTokenRef(token) == Single(GetCell(token))
    ensures WellFormedCell(GetCell(token)) && RenderCell(GetCell(token)) == token
  {
    GetCellRoundTrip(token);
  }

  /** The range case of the round trip: the halves around the first `:`. */
  lemma RangeTokenRoundTrip(token: string, k: nat, a: string, b: string)
    requires HasChar(token, ':') && k == IndexOf(token, ':')
    requires a == token[..k] && b == token[k + 1..]
    requires IsCellText(a) && IsCellText(b)
    ensures GenerateTokenRef(token) == Range(GetCell(a), GetCell(b))
    ensures WellFormedCell(GetCell(a)) && WellFormedCell(GetCell(b))
    ensures RenderCell(GetCell(a)) + ":" + RenderCell(GetCell(b)) == token
  {
    RangeRoundTrip(a, b);
    SplitAt(token, k);
  }

  /** A text is what comes before and after one of its characters, joined by that character. */
  lemma SplitAt(token: string, k: nat)
    requires k < |token|
    ensures token == token[..k] + [token[k]] + token[k + 1..]
  {
  }

  /** Two cell texts, parsed and rendered, join back into their range token. */
  lemma RangeRoundTrip(a: string, b: string)
    requires IsCellText(a) && IsCellText(b)
    ensures WellFormedCell(GetCell(a)) && WellFormedCell(GetCell(b))
    ensures RenderCell(GetCell(a)) + ":" + RenderCell(GetCell(b)) == a + ":" + b
  {
    GetCellRoundTrip(a);
    GetCellRoundTrip(b);
  }

  function ResolveToken(t: TokenRef, origin: Anchor, anchor: Anchor): (r: Resolved)
    ensures r.Span? <==> t.Range?
  {
    match t
    case Single(c) => At(ResolveCell(c, origin, anchor))
    case Range(a, b) => Span(ResolveCell(a, origin, anchor), ResolveCell(b, origin, anchor))
  }

  /**
   * Two cell texts joined by `:` form a range token, which resolves to the
   * pair of its two corners, each resolved at the same anchor.
   */
  lemma RangeResolvesCorners(a: string, b: string, origin: Anchor, anchor: Anchor)
    requires IsCellText(a) && IsCellText(b)
    ensures IsTokenText(a + ":" + b)
    ensures GenerateTokenRef(a + ":" + b) == Range(GetCell(a), GetCell(b))
    ensures ResolveToken(GenerateTokenRef(a + ":" + b), origin, anchor)
              == Span(ResolveCell(GetCell(a), origin, anchor), ResolveCell(GetCell(b), origin, anchor))
  {
    var t := a + ":" + b;
    TokenTextJoin(a, b);
    assert t == a + [':'] + b;
    CellTextHasNoColon(a);
    IndexOfJoin(a, ':', b);
    assert t[|a|] == ':';
    assert t[..|a|] == a && t[|a| + 1..] == b;
    GetCellRoundTrip(a);
    GetCellRoundTrip(b);
  }

  /** The keys of a Python dict filled from `s` in order: first occurrences, in order. */
  function Distinct(s: seq<string>): (r: seq<string>)
    ensures forall t :: t in r <==> t in s
    ensures forall i, j :: 0 <= i < j < |r| ==> r[i] != r[j]
  {
    if s == [] then []
    else
      var prefix := Distinct(s[..|s| - 1]);
      var t := s[|s| - 1];
      assert forall u :: u in s <==> u in s[..|s| - 1] || u == t;
      if t in prefix then prefix else prefix + [t]
  }

  /**
   * A deciphered formula: its position and text, the keys of the token
   * dictionary `formula_dict` in insertion order (the resolver stored under a
   * key `t` is `GenerateTokenRef(t)`), and the range dictionary `range_dict`
   * (a set of tokens, since every value it stores is `True`).
   */
  datatype Formula = Formula(position: Anchor, text: string, order: seq<string>, ranges: set<string>)

  /** What `_load_dict` leaves behind: distinct non-empty keys, and the ranges among them. */
  ghost predicate WellFormed(f: Formula)
  {
    && (forall i, j :: 0 <= i < j < |f.order| ==> f.order[i] != f.order[j])
    && (forall t :: t in f.order ==> |t| > 0)
    && (forall t :: t in f.ranges <==> t in f.order && HasChar(t, ':'))
  }

  /**
   * `_load_dict`: one dictionary entry per token (a repeated token keeps its
   * first place), and the range dictionary holding exactly the tokens with `:`.
   */
  method LoadDict(tokens: seq<string>) returns (order: seq<string>, ranges: set<string>)
    ensures order == Distinct(tokens)
    ensures forall t :: t in ranges <==> t in tokens && HasChar(t, ':')
  {
    order, ranges := [], {};
    for i := 0 to |tokens|
      invariant order == Distinct(tokens[..i])
      invariant forall t :: t in ranges <==> t in tokens[..i] && HasChar(t, ':')
    {
      var token := tokens[i];
      assert tokens[..i + 1] == tokens[..i] + [token];
      if token !in order {
        order := order + [token];
      }
      if HasChar(token, ':') {
        ranges := ranges + {token};
      }
    }
    assert tokens[..|tokens|] == tokens;
  }

  /** `Formula.__init__`: store the position and text, then decipher the tokens. */
  method NewFormula(position: Anchor, text: string) returns (f: Formula)
    ensures WellFormed(f)
    ensures f.position == position && f.text == text
    ensures f.order == Distinct(FindTokens(text))
  {
    var tokens := FindTokens(text);
    FindTokensWellFormed(text, 0);
    var order, ranges := LoadDict(tokens);
    f := Formula(position, text, order, ranges);
  }

  /* ---------------------------------------------------------------------- */
  /* `_get_value_for_cell`: token order, lookups and substitution            */
  /* ---------------------------------------------------------------------- */

  /** Longest first: no text is shorter than a later one. */
  predicate LongestFirst(s: seq<string>)
  {
    forall i, j :: 0 <= i < j < |s| ==> |s[i]| >= |s[j]|
  }

  /**
   * Place `x` after every leading element at least as long: an insertion
   * step of a stable sort by decreasing length.
   */
  function InsertByLength(x: string, s: seq<string>): seq<string>
  {
    if s == [] then [x]
    else if |s[0]| >= |x| then [s[0]] + InsertByLength(x, s[1..])
    else [x] + s
  }

  /** Inserting keeps every element, adds `x`, and keeps the order longest first. */
  lemma InsertByLengthSorts(x: string, s: seq<string>)
    requires LongestFirst(s)
    ensures multiset(InsertByLength(x, s)) == multiset(s) + multiset{x}
    ensures LongestFirst(InsertByLength(x, s))
  {
    InsertByLengthKeeps(x, s);
    InsertByLengthOrders(x, s);
  }

  /** Inserting adds `x` to the elements and changes no other. */
  lemma {:induction false} InsertByLengthKeeps(x: string, s: seq<string>)
    ensures multiset(InsertByLength(x, s)) == multiset(s) + multiset{x}
  {
    if s != [] {
      assert s == [s[0]] + s[1..];
      if |s[0]| >= |x| {
        InsertByLengthKeeps(x, s[1..]);
      }
    }
  }

  /** Inserting into a longest-first list keeps it longest first; each element is `x` or one of the list's. */
  lemma {:induction false} InsertByLengthOrders(x: string, s: seq<string>)
    requires LongestFirst(s)
    ensures LongestFirst(InsertByLength(x, s))
    ensures forall y :: y in InsertByLength(x, s) ==> y == x || y in s
  {
    if s != [] && |s[0]| >= |x| {
      var rest := InsertByLength(x, s[1..]);
      InsertByLengthOrders(x, s[1..]);
      assert InsertByLength(x, s) == [s[0]] + rest;
      forall j | 0 <= j < |rest| ensures |s[0]| >= |rest[j]| {
        assert rest[j] in rest;
        if rest[j] != x {
          var k :| 0 <= k < |s[1..]| && s[1..][k] == rest[j];
          assert s[k + 1] == rest[j];
        }
      }
    }
  }

  /** `sorted(keys, key=len, reverse=True)`: the keys, longest first, ties in key order. */
  function SortByLength(s: seq<string>): seq<string>
  {
    if s == [] then [] else InsertByLength(s[|s| - 1], SortByLength(s[..|s| - 1]))
  }

  /** The sort is a permutation into longest-first order. */
  lemma {:induction false} SortByLengthSorts(s: seq<string>)
    ensures multiset(SortByLength(s)) == multiset(s)
    ensures LongestFirst(SortByLength(s))
  {
    if s != [] {
      SortByLengthSorts(s[..|s| - 1]);
      InsertByLengthSorts(s[|s| - 1], SortByLength(s[..|s| - 1]));
      assert s == s[..|s| - 1] + [s[|s| - 1]];
    }
  }

  /** Python's `s.replace('', new)`: `new` before every character and at the end. */
  function InsertEverywhere(s: string, rep: string): string
  {
    if s == [] then rep else rep + [s[0]] + InsertEverywhere(s[1..], rep)
  }

  /** Python's `s.replace(old, new)`: every non-overlapping occurrence, left to right. */
  function ReplaceAll(s: string, pat: string, rep: string): string
    decreases |s|
  {
    if pat == [] then InsertEverywhere(s, rep)
    else if |s| < |pat| then s
    else if s[..|pat|] == pat then rep + ReplaceAll(s[|pat|..], pat, rep)
    else [s[0]] + ReplaceAll(s[1..], pat, rep)
  }

  /** `pat` occurs in `s` at position `i`. */
  predicate OccursAt(s: string, pat: string, i: nat)
  {
    i + |pat| <= |s| && s[i..i + |pat|] == pat
  }

  /** A text that does not contain the token is left as it is. */
  lemma {:induction false} ReplaceAllAbsent(s: string, pat: string, rep: string)
    requires |pat| > 0
    requires forall i :: 0 <= i <= |s| ==> !OccursAt(s, pat, i)
    ensures ReplaceAll(s, pat, rep) == s
    decreases |s|
  {
    if |s| >= |pat| {
      assert !OccursAt(s, pat, 0);
      assert s[0..|pat|] == s[..|pat|];
      forall i | 0 <= i <= |s[1..]| ensures !OccursAt(s[1..], pat, i) {
        assert !OccursAt(s, pat, i + 1);
        if i + |pat| <= |s[1..]| {
          assert s[1..][i..i + |pat|] == s[i + 1..i + 1 + |pat|];
        }
      }
      ReplaceAllAbsent(s[1..], pat, rep);
      assert s == [s[0]] + s[1..];
    }
  }

  /** The value a token reads from the table at an anchor. */
  function TokenValue(f: Formula, t: string, anchor: Anchor,
                      cellValue: (int, int) -> Value, rangeValue: ((int, int), (int, int)) -> seq<Value>): Value
  {
    match ResolveToken(GenerateTokenRef(t), f.position, anchor)
    case Span(a, b) => Cells(rangeValue(a, b))
    case At(c) => cellValue(c.0, c.1)
  }

  /**
   * The placeholder for the `i`-th token (1-based) of the substitution order:
   * the column name of `i`.  The source computes it with `colval(i)`, which
   * never returns from 26 on; the model uses the intended name `ColumnName(i)`,
   * which agrees with `colval` below 26 (`PlaceholderBelow26`).
   */
  function Placeholder(i: nat): string
  {
    ColumnName(i)
  }

  /** Below 26 the placeholder is the one letter `colval` gives. */
  lemma PlaceholderBelow26(i: nat)
    requires 1 <= i < 26
    ensures Placeholder(i) == [CharVal(i)] && |Placeholder(i)| == 1
  {
    ColumnNameAgreesBelow26(i);
  }

  /** Distinct positions get distinct placeholders, so no binding shadows another. */
  lemma PlaceholdersDistinct(i: nat, j: nat)
    requires 1 <= i && 1 <= j && i != j
    ensures Placeholder(i) != Placeholder(j)
  {
  }

  /**
   * `local_vars` after the tokens `toks[..n]` have been bound, the first to
   * `Placeholder(1)`, each to the value `value` gives it.
   */
  function Bindings(toks: seq<string>, n: nat, value: string -> Value): map<string, Value>
    requires n <= |toks|
  {
    if n == 0 then map[] else Bindings(toks, n - 1, value)[Placeholder(n) := value(toks[n - 1])]
  }

  /** The i-th token of the order is bound, under its placeholder, to its value. */
  lemma {:induction false} BindingsAt(toks: seq<string>, n: nat, i: nat, value: string -> Value)
    requires 1 <= i <= n <= |toks|
    ensures Placeholder(i) in Bindings(toks, n, value)
    ensures Bindings(toks, n, value)[Placeholder(i)] == value(toks[i - 1])
  {
    if i < n {
      BindingsAt(toks, n - 1, i, value);
      PlaceholdersDistinct(i, n);
    }
  }

  /** The placeholders of the first `n` positions. */
  function PlaceholderSet(n: nat): set<string>
  {
    if n == 0 then {} else PlaceholderSet(n - 1) + {Placeholder(n)}
  }

  /** `local_vars` binds exactly the placeholders of the positions bound so far. */
  lemma {:induction false} BindingsKeys(toks: seq<string>, n: nat, value: string -> Value)
    requires n <= |toks|
    ensures Bindings(toks, n, value).Keys == PlaceholderSet(n)
  {
    if n > 0 {
      BindingsKeys(toks, n - 1, value);
    }
  }

  /** `tmp_formula` after the tokens `toks[..n]` have been replaced by their placeholders. */
  function Substituted(text: string, toks: seq<string>, n: nat): string
    requires n <= |toks|
  {
    if n == 0 then text else ReplaceAll(Substituted(text, toks, n - 1), toks[n - 1], Placeholder(n))
  }

  /**
   * The first loop of `_get_value_for_cell`: the dict `tokens`, each token of
   * `toks` bound to what its resolver reads at the anchor (a range's cells
   * through `rangeValue`, a single cell through `cellValue`).
   */
  method ReadTokens(f: Formula, toks: seq<string>, anchor: Anchor,
                    cellValue: (int, int) -> Value, rangeValue: ((int, int), (int, int)) -> seq<Value>)
    returns (tokens: map<string, Value>)
    requires WellFormed(f)
    requires forall t :: t in toks ==> t in f.order
    ensures forall k :: 0 <= k < |toks| ==> toks[k] in tokens
    ensures forall t :: t in tokens ==> tokens[t] == TokenValue(f, t, anchor, cellValue, rangeValue)
  {
    tokens := map[];
    for i := 0 to |toks|
      invariant forall t :: t in tokens ==> tokens[t] == TokenValue(f, t, anchor, cellValue, rangeValue)
      invariant forall k :: 0 <= k < i ==> toks[k] in tokens
    {
      var token := toks[i];
      var tokenVals := ResolveToken(GenerateTokenRef(token), f.position, anchor);
      assert token in f.order;
      if token in f.ranges {
        tokens := tokens[token := Cells(rangeValue(tokenVals.start, tokenVals.end))];
      } else {
        tokens := tokens[token := cellValue(tokenVals.cell.0, tokenVals.cell.1)];
      }
    }
  }

  /**
   * The second loop of `_get_value_for_cell`: visiting the tokens in the
   * dict's insertion order (the order `toks`), bind the `i`-th one's value
   * to `Placeholder(i)` and replace it in the text by that placeholder.
   */
  method BindTokens(text: string, toks: seq<string>, tokens: map<string, Value>, ghost value: string -> Value)
    returns (localVars: map<string, Value>, tmpFormula: string)
    requires forall k :: 0 <= k < |toks| ==> toks[k] in tokens && tokens[toks[k]] == value(toks[k])
    ensures localVars == Bindings(toks, |toks|, value)
    ensures tmpFormula == Substituted(text, toks, |toks|)
  {
    var tokenIndex := 0;
    localVars, tmpFormula := map[], text;
    while tokenIndex < |toks|
      invariant 0 <= tokenIndex <= |toks|
      invariant localVars == Bindings(toks, tokenIndex, value)
      invariant tmpFormula == Substituted(text, toks, tokenIndex)
    {
      var token := toks[tokenIndex];
      tokenIndex := tokenIndex + 1;
      var varname := Placeholder(tokenIndex);
      localVars := localVars[varname := tokens[token]];
      tmpFormula := ReplaceAll(tmpFormula, token, varname);
    }
  }

  /** An evaluator outcome: Python's `eval` succeeding (its value is discarded) or raising. */
  datatype EvalError = EvalError(expression: string)

  /**
   * `_get_value_for_cell`: resolve every token at the anchor longest first,
   * read its value, replace each token by the placeholder of its position,
   * and hand the text and the bindings to the evaluator `eval` (a parameter:
   * it is Python's `eval`).  The evaluator's result is discarded and the
   * method answers 0; a failing evaluation raises in the source, an `Err` here.
   */
  method ValueForCell(f: Formula, anchor: Anchor,
                      cellValue: (int, int) -> Value, rangeValue: ((int, int), (int, int)) -> seq<Value>,
                      eval: (string, map<string, Value>) -> bool) returns (r: Result<int, EvalError>)
    requires WellFormed(f)
    ensures var toks := SortByLength(f.order);
            var expr := Substituted(f.text, toks, |toks|);
            var env := Bindings(toks, |toks|, t => TokenValue(f, t, anchor, cellValue, rangeValue));
            r == if eval(expr, env) then Ok(0) else Err(EvalError(expr))
  {
    var tokensToReplace := SortByLength(f.order);
    SubstitutionOrder(f);
    var tokens := ReadTokens(f, tokensToReplace, anchor, cellValue, rangeValue);
    var localVars, tmpFormula := BindTokens(f.text, tokensToReplace, tokens, t => TokenValue(f, t, anchor, cellValue, rangeValue));
    if eval(tmpFormula, localVars) {
      r := Ok(0);
    } else {
      r := Err(EvalError(tmpFormula));
    }
  }

  /** `get_value`: `_get_value_for_cell` anchored at the formula's own position. */
  method GetValue(f: Formula, cellValue: (int, int) -> Value, rangeValue: ((int, int), (int, int)) -> seq<Value>,
                  eval: (string, map<string, Value>) -> bool) returns (r: Result<int, EvalError>)
    requires WellFormed(f)
    ensures r.Ok? ==> r.value == 0
    ensures var toks := SortByLength(f.order);
            var expr := Substituted(f.text, toks, |toks|);
            r.Err? <==> !eval(expr, Bindings(toks, |toks|, t => TokenValue(f, t, f.position, cellValue, rangeValue)))
  {
    r := ValueForCell(f, f.position, cellValue, rangeValue, eval);
  }

  /** The order of substitution is longest first and holds each token exactly once. */
  lemma SubstitutionOrder(f: Formula)
    requires WellFormed(f)
    ensures var toks := SortByLength(f.order);
            && |toks| == |f.order|
            && (forall t :: t in toks <==> t in f.order)
            && LongestFirst(toks)
  {
    var toks := SortByLength(f.order);
    SortByLengthSorts(f.order);
    assert |toks| == |multiset(toks)| == |multiset(f.order)| == |f.order|;
    forall t ensures t in toks <==> t in f.order {
      assert t in toks <==> multiset(toks)[t] > 0;
      assert t in f.order <==> multiset(f.order)[t] > 0;
    }
  }

  /* ---------------------------------------------------------------------- */
  /* The test module's worked cases                                           */
  /* ---------------------------------------------------------------------- */

  /**
   * `$A$1` declared at [2, B] resolves to (0, 0) wherever it is evaluated;
   * `A1` declared at [2, B] resolves at [3, C], [4, D], [6, F] and [3, L] to
   * (1, 1), (2, 2), (4, 4) and (1, 10).
   */
  lemma WorkedCases(anchor: Anchor)
    ensures IsCellText("$A$1") && IsCellText("A1")
    ensures ResolveCell(GetCell("$A$1"), Anchor(2, "B"), anchor) == (0, 0)
    ensures ResolveCell(GetCell("A1"), Anchor(2, "B"), Anchor(3, "C")) == (1, 1)
    ensures ResolveCell(GetCell("A1"), Anchor(2, "B"), Anchor(4, "D")) == (2, 2)
    ensures ResolveCell(GetCell("A1"), Anchor(2, "B"), Anchor(6, "F")) == (4, 4)
    ensures ResolveCell(GetCell("A1"), Anchor(2, "B"), Anchor(3, "L")) == (1, 10)
  {
    LockedA1();
    PlainA1();
    ResolvedExamples(anchor);
  }

  /** The resolutions of the worked cases, on the references themselves. */
  lemma ResolvedExamples(anchor: Anchor)
    ensures ResolveCell(CellRef(true, true, "A", "1"), Anchor(2, "B"), anchor) == (0, 0)
    ensures ResolveCell(CellRef(false, false, "A", "1"), Anchor(2, "B"), Anchor(3, "C")) == (1, 1)
    ensures ResolveCell(CellRef(false, false, "A", "1"), Anchor(2, "B"), Anchor(4, "D")) == (2, 2)
    ensures ResolveCell(CellRef(false, false, "A", "1"), Anchor(2, "B"), Anchor(6, "F")) == (4, 4)
    ensures ResolveCell(CellRef(false, false, "A", "1"), Anchor(2, "B"), Anchor(3, "L")) == (1, 10)
  {
    SmallColumns();
  }

  /** `$A$1` is a cell text with both locks, column `A` and row `1`. */
  lemma LockedA1()
    ensures IsCellText("$A$1") && GetCell("$A$1") == CellRef(true, true, "A", "1")
  {
    var r := CellRef(true, true, "A", "1");
    assert RenderCell(r) == "$A$1";
    RenderIsCellText(r);
    ParseRender(r);
  }

  /** `A1` is a cell text with no lock, column `A` and row `1`. */
  lemma PlainA1()
    ensures IsCellText("A1") && GetCell("A1") == CellRef(false, false, "A", "1")
  {
    var r := CellRef(false, false, "A", "1");
    assert RenderCell(r) == "A1";
    RenderIsCellText(r);
    ParseRender(r);
  }

  /** The row `1` and the columns the worked cases use, as 0-based indices. */
  lemma SmallColumns()
    ensures DigitsValue("1") == 1
    ensures ColIndex("A") == 0 && ColIndex("B") == 1 && ColIndex("C") == 2
    ensures ColIndex("D") == 3 && ColIndex("F") == 5 && ColIndex("L") == 11
  {
  }
}
