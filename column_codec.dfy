/**
 * The column codec of source/data/formula.py: `letter_val`, `char_val`,
 * `colint` (letters to a 0-based column index) and `colval` (a 1-based
 * integer back to letters).
 *
 * `colint` reads its argument as a bijective base-26 numeral (A = 1 .. Z = 26,
 * no zero digit) and subtracts one.  The `column_values` cache it consults is
 * never written, so the lookup always misses and `colint` is a pure function
 * of its text.
 *
 * `colval` as written only works below 26 (see `ColvalAsWritten` and
 * `ColvalNeverStopsFrom26`); the rest of the model uses the intended bijective
 * encoding `ColumnName`.
 */
module ColumnCodec {

  predicate IsUpper(c: char) { 'A' <= c <= 'Z' }

  /** A non-empty run of the letters A-Z, the text a column name is made of. */
  predicate IsColumnText(s: string)
  {
    |s| > 0 && forall i :: 0 <= i < |s| ==> IsUpper(s[i])
  }

  /** `letter_val`: the code point minus 64, so A = 1 .. Z = 26. */
  function LetterVal(c: char): (v: int)
    ensures IsUpper(c) <==> 1 <= v <= 26
  {
    c as int - 64
  }

  /** `char_val`: the character whose code point is `i + 64`. */
  function CharVal(i: int): (c: char)
    requires -64 <= i < 0xD800 - 64
    ensures LetterVal(c) == i
    ensures 1 <= i <= 26 ==> IsUpper(c)
  {
    (i + 64) as char
  }

  function Pow26(k: nat): (p: nat)
    ensures p >= 1
  {
    if k == 0 then 1 else 26 * Pow26(k - 1)
  }

  /**
   * The sum `colint` accumulates: each character's letter value times 26 to
   * the power of its distance from the right end.
   */
  function ColumnValue(s: string): int
  {
    if s == [] then 0 else LetterVal(s[0]) * Pow26(|s| - 1) + ColumnValue(s[1..])
  }

  /** `colint`: the loop over the powers, from the rightmost character leftwards. */
  method Colint(colText: string) returns (index: int)
    ensures index == ColumnValue(colText) - 1
  {
    var length := |colText|;
    var value := 0;
    for power := 0 to length
      invariant value == ColumnValue(colText[length - power..])
    {
      var digit := colText[length - power - 1];
      assert colText[length - power - 1..][1..] == colText[length - power..];
      value := value + LetterVal(digit) * Pow26(power);
    }
    assert colText[length - length..] == colText;
    index := value - 1;
  }

  /** Appending a letter multiplies the value so far by 26 and adds the letter. */
  lemma {:induction false} ColumnValueAppend(s: string, c: char)
    ensures ColumnValue(s + [c]) == 26 * ColumnValue(s) + LetterVal(c)
  {
    if s == [] {
      assert [] + [c] == [c];
    } else {
      var t := s + [c];
      assert t[0] == s[0] && t[1..] == s[1..] + [c];
      ColumnValueAppend(s[1..], c);
      calc {
        ColumnValue(t);
        LetterVal(s[0]) * Pow26(|s|) + ColumnValue(s[1..] + [c]);
        LetterVal(s[0]) * (26 * Pow26(|s| - 1)) + 26 * ColumnValue(s[1..]) + LetterVal(c);
        { assert LetterVal(s[0]) * (26 * Pow26(|s| - 1)) == 26 * (LetterVal(s[0]) * Pow26(|s| - 1)); }
        26 * ColumnValue(s) + LetterVal(c);
      }
    }
  }

  /**
   * The intended `colval`: the bijective base-26 name of a 1-based column
   * number, and the empty text for numbers below 1.
   */
  function ColumnName(n: int): (r: string)
    ensures n <= 0 ==> r == []
    ensures n >= 1 ==> IsColumnText(r) && ColumnValue(r) == n
    decreases n
  {
    if n <= 0 then []
    else
      var q, m := (n - 1) / 26, (n - 1) % 26;
      assert n == 26 * q + m + 1 && 0 <= m < 26;
      var prefix, digit := ColumnName(q), CharVal(m + 1);
      ColumnValueAppend(prefix, digit);
      prefix + [digit]
  }

  /** Every column text is the name of its own value: `ColumnName` is onto. */
  lemma {:induction false} ColumnNameOfValue(s: string)
    requires IsColumnText(s)
    ensures ColumnValue(s) >= 1
    ensures ColumnName(ColumnValue(s)) == s
    decreases |s|
  {
    var p, c := s[..|s| - 1], s[|s| - 1];
    assert s == p + [c];
    ColumnValueAppend(p, c);
    if p == [] {
      assert ColumnValue(p) == 0;
    } else {
      assert IsColumnText(p) by {
        forall i | 0 <= i < |p| ensures IsUpper(p[i]) { assert p[i] == s[i]; }
      }
      ColumnNameOfValue(p);
    }
    var n := ColumnValue(s);
    assert (n - 1) / 26 == ColumnValue(p) && (n - 1) % 26 + 1 == LetterVal(c);
    assert CharVal(LetterVal(c)) == c;
  }

  /** `colint` is injective on column texts: distinct names give distinct indices. */
  lemma ColintInjective(s: string, t: string)
    requires IsColumnText(s) && IsColumnText(t)
    requires ColumnValue(s) - 1 == ColumnValue(t) - 1
    ensures s == t
  {
    ColumnNameOfValue(s);
    ColumnNameOfValue(t);
  }

  /** `colint` and the intended `colval` are inverse: 1-based numbers, 0-based indices. */
  lemma ColintOfColumnName(n: int)
    requires n >= 1
    ensures ColumnValue(ColumnName(n)) - 1 == n - 1
  {
  }

  /** The values the source's test module expects of `colint`. */
  lemma ColintExamples()
    ensures ColumnValue("A") - 1 == 0
    ensures ColumnValue("B") - 1 == 1
    ensures ColumnValue("Z") - 1 == 25
    ensures ColumnValue("AA") - 1 == 26
    ensures ColumnValue("BA") - 1 == 52
    ensures ColumnValue("ZADDS") - 1 == 11901778
  {
    assert Pow26(2) == 676;
    assert Pow26(3) == 17576;
    assert Pow26(4) == 456976;
  }

  /**
   * `colval` as written: while the value is positive, take it modulo 26,
   * subtract that remainder and prepend the character.  It stops only for
   * values below 26, so that is what it requires.
   */
  method ColvalAsWritten(val: int) returns (output: string)
    requires val < 26
    ensures val <= 0 ==> output == []
    ensures val >= 1 ==> output == [CharVal(val)] && IsColumnText(output)
  {
    var curVal := val;
    output := [];
    while curVal > 0
      invariant (curVal == val && output == []) || (curVal == 0 && val >= 1 && output == [CharVal(val)])
      decreases curVal
    {
      var m := curVal % 26;
      curVal := curVal - m;
      output := [CharVal(m)] + output;
    }
  }

  /** One pass of `colval`'s loop body on the running value. */
  function ColvalStep(curVal: int): int
  {
    curVal - curVal % 26
  }

  /**
   * From 26 on, one pass leaves a positive multiple of 26, which every later
   * pass leaves unchanged (the remainder is 0): the loop guard `cur_val > 0`
   * never becomes false.
   */
  lemma ColvalNeverStopsFrom26(val: int)
    requires val >= 26
    ensures ColvalStep(val) >= 26 && ColvalStep(val) % 26 == 0
    ensures ColvalStep(ColvalStep(val)) == ColvalStep(val)
  {
  }

  /** Below 26 the intended encoding gives what `colval` gives. */
  lemma ColumnNameAgreesBelow26(n: int)
    requires n < 26
    ensures ColumnName(n) == if n <= 0 then [] else [CharVal(n)]
  {
  }
}
