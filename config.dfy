/**
 * source/configfile.py: a configuration file is a list of lines
 * `key item item ...`.  `read` strips every line and drops blank ones, then
 * `_read_line` splits each on single blanks and stores, under the first
 * item, the flag `True` when the line has no other item and the list of
 * the remaining items otherwise; a later line overwrites an earlier one
 * with the same key.  `get_val` answers the default for a missing key,
 * unwraps a one-item list and applies an optional conversion; `DecelConfig`
 * adds three getters that convert with `int` and fall back to 7, 5 and 3.
 *
 * Choosing the file (an environment variable, `~` expansion) and reading it
 * are left out: the file's lines, as `readlines` gives them, are a
 * parameter, and `None` stands for a file that does not exist.
 */
module Config {
  import opened Common
  import TextLayout

  /* ---------------------------------------------------------------------- */
  /* Line filtering in `read`                                                */
  /* ---------------------------------------------------------------------- */

  /**
   * Python's `str.isspace` on the ASCII range: the blank, the controls
   * from tab to carriage return, and the separators 0x1C to 0x1F.
   */
  predicate IsSpace(c: char)
  {
    c == ' ' || '\t' <= c <= '\r' || '\U{1C}' <= c <= '\U{1F}'
  }

  /** `lstrip()`: white space removed from the start. */
  function StripLeft(s: string): string
    decreases |s|
  {
    if s != [] && IsSpace(s[0]) then StripLeft(s[1..]) else s
  }

  /** `rstrip()`: white space removed from the end. */
  function StripRight(s: string): string
    decreases |s|
  {
    if s != [] && IsSpace(s[|s| - 1]) then StripRight(s[..|s| - 1]) else s
  }

  /** `lstrip()` leaves the longest suffix that does not start with white space. */
  lemma {:induction false} StripLeftSpec(s: string)
    ensures |StripLeft(s)| <= |s| && StripLeft(s) == s[|s| - |StripLeft(s)|..]
    ensures forall i :: 0 <= i < |s| - |StripLeft(s)| ==> IsSpace(s[i])
    ensures StripLeft(s) != [] ==> !IsSpace(StripLeft(s)[0])
    decreases |s|
  {
    if s != [] && IsSpace(s[0]) {
      StripLeftSpec(s[1..]);
      assert forall i :: 1 <= i < |s| ==> s[i] == s[1..][i - 1];
    }
  }

  /** `rstrip()` leaves the longest prefix that does not end with white space. */
  lemma {:induction false} StripRightSpec(s: string)
    ensures |StripRight(s)| <= |s| && StripRight(s) == s[..|StripRight(s)|]
    ensures forall i :: |StripRight(s)| <= i < |s| ==> IsSpace(s[i])
    ensures StripRight(s) != [] ==> !IsSpace(StripRight(s)[|StripRight(s)| - 1])
    decreases |s|
  {
    if s != [] && IsSpace(s[|s| - 1]) {
      StripRightSpec(s[..|s| - 1]);
    }
  }

  /** `strip()`: white space removed from both ends. */
  function Strip(s: string): string
  {
    StripRight(StripLeft(s))
  }

  /** What `strip()` leaves: no white space at either end, and nothing of an all-blank text. */
  lemma StripSpec(s: string)
    ensures Strip(s) != [] ==> !IsSpace(Strip(s)[0]) && !IsSpace(Strip(s)[|Strip(s)| - 1])
    ensures Strip(s) == [] <==> forall i :: 0 <= i < |s| ==> IsSpace(s[i])
  {
    var t := StripLeft(s);
    StripLeftSpec(s);
    StripRightSpec(t);
  }

  /** A text that starts and ends with something other than white space is its own `strip()`. */
  lemma StripTrimmed(s: string)
    requires s != [] && !IsSpace(s[0]) && !IsSpace(s[|s| - 1])
    ensures Strip(s) == s
  {
  }

  /** Stripping twice strips nothing more. */
  lemma StripIdempotent(s: string)
    ensures Strip(Strip(s)) == Strip(s)
  {
    StripSpec(s);
    if Strip(s) != [] {
      StripTrimmed(Strip(s));
    }
  }

  /** What the comprehension in `read` keeps of one line: its stripped text, unless that is empty. */
  function KeepLine(line: string): seq<string>
  {
    var t := Strip(line);
    if t != [] then [t] else []
  }

  /** `[line.strip() for line in lines if len(line.strip()) > 0]`. */
  function Kept(lines: seq<string>): seq<string>
    decreases |lines|
  {
    if lines == [] then [] else Kept(lines[..|lines| - 1]) + KeepLine(lines[|lines| - 1])
  }

  /** No more lines are kept than there are, and every kept line is non-blank and already stripped. */
  lemma {:induction false} KeptTrimmed(lines: seq<string>)
    ensures |Kept(lines)| <= |lines|
    ensures forall i :: 0 <= i < |Kept(lines)| ==> Kept(lines)[i] != [] && Strip(Kept(lines)[i]) == Kept(lines)[i]
    decreases |lines|
  {
    if lines != [] {
      KeptTrimmed(lines[..|lines| - 1]);
      StripIdempotent(lines[|lines| - 1]);
    }
  }

  /** Filtering works line by line, so the lines of two parts are kept in order. */
  lemma {:induction false} KeptAppend(a: seq<string>, b: seq<string>)
    ensures Kept(a + b) == Kept(a) + Kept(b)
    decreases |b|
  {
    if b == [] {
      assert a + b == a;
    } else {
      var n := |b| - 1;
      assert (a + b)[..|a + b| - 1] == a + b[..n] && (a + b)[|a + b| - 1] == b[n];
      KeptAppend(a, b[..n]);
    }
  }

  /** A line that is blank after stripping contributes nothing. */
  lemma BlankLineSkipped(lines: seq<string>, line: string)
    requires forall i :: 0 <= i < |line| ==> IsSpace(line[i])
    ensures Kept(lines + [line]) == Kept(lines)
  {
    StripSpec(line);
    assert (lines + [line])[..|lines|] == lines;
  }

  /** Filtering the filtered lines again changes nothing. */
  lemma {:induction false} KeptIdempotent(lines: seq<string>)
    ensures Kept(Kept(lines)) == Kept(lines)
    decreases |lines|
  {
    if lines != [] {
      var prev := lines[..|lines| - 1];
      var tail := KeepLine(lines[|lines| - 1]);
      KeptIdempotent(prev);
      KeptAppend(Kept(prev), tail);
      if tail != [] {
        StripIdempotent(lines[|lines| - 1]);
        assert tail[..0] == [];
      }
    }
  }

  /* ---------------------------------------------------------------------- */
  /* `_read_line` and the stored settings                                    */
  /* ---------------------------------------------------------------------- */

  /** A stored value: `True` for a line with only a key, else the items after the key. */
  datatype Setting = Flag | Words(words: seq<string>)

  /** The value `_read_line` stores for the items of one line. */
  function SettingOf(items: seq<string>): (v: Setting)
    requires |items| >= 1
    ensures v.Flag? <==> |items| == 1
    ensures v.Words? ==> v.words == items[1..] && |v.words| >= 1
  {
    if |items| > 1 then Words(items[1..]) else Flag
  }

  /** The key of a kept line: its first item of `split(' ')`. */
  function Key(line: string): string
  {
    TextLayout.SplitWords(line)[0]
  }

  /** The settings after `_read_line` has run on each of `lines`, in order, starting from `data`. */
  function Stored(data: map<string, Setting>, lines: seq<string>): map<string, Setting>
    decreases |lines|
  {
    if lines == [] then data
    else
      var items := TextLayout.SplitWords(lines[|lines| - 1]);
      Stored(data, lines[..|lines| - 1])[items[0] := SettingOf(items)]
  }

  /** The keys afterwards are the old keys and the keys of the lines, and no others. */
  lemma {:induction false} StoredKeys(data: map<string, Setting>, lines: seq<string>, k: string)
    ensures k in Stored(data, lines) <==> k in data || exists i :: 0 <= i < |lines| && Key(lines[i]) == k
    decreases |lines|
  {
    if lines != [] {
      var prev := lines[..|lines| - 1];
      StoredKeys(data, prev, k);
      if exists i :: 0 <= i < |prev| && Key(prev[i]) == k {
        var i :| 0 <= i < |prev| && Key(prev[i]) == k;
        assert Key(lines[i]) == k;
      }
      if exists i :: 0 <= i < |lines| && Key(lines[i]) == k {
        var i :| 0 <= i < |lines| && Key(lines[i]) == k;
        if i < |prev| {
          assert Key(prev[i]) == k;
        }
      }
    }
  }

  /** The last line with a given key decides that key's setting: later lines overwrite earlier ones. */
  lemma {:induction false} LastLineWins(data: map<string, Setting>, lines: seq<string>, i: nat)
    requires i < |lines|
    requires forall j :: i < j < |lines| ==> Key(lines[j]) != Key(lines[i])
    ensures Key(lines[i]) in Stored(data, lines)
    ensures Stored(data, lines)[Key(lines[i])] == SettingOf(TextLayout.SplitWords(lines[i]))
    decreases |lines|
  {
    if i < |lines| - 1 {
      var prev := lines[..|lines| - 1];
      assert forall j :: i < j < |prev| ==> prev[j] == lines[j];
      LastLineWins(data, prev, i);
      assert Key(lines[|lines| - 1]) != Key(lines[i]);
    }
  }

  /** A key that no line names keeps its old setting, or stays absent. */
  lemma {:induction false} UnnamedKeyKept(data: map<string, Setting>, lines: seq<string>, k: string)
    requires forall i :: 0 <= i < |lines| ==> Key(lines[i]) != k
    ensures k in Stored(data, lines) <==> k in data
    ensures k in data ==> Stored(data, lines)[k] == data[k]
    decreases |lines|
  {
    if lines != [] {
      var prev := lines[..|lines| - 1];
      assert forall i :: 0 <= i < |prev| ==> prev[i] == lines[i];
      UnnamedKeyKept(data, prev, k);
      assert Key(lines[|lines| - 1]) != k;
    }
  }

  /* ---------------------------------------------------------------------- */
  /* `get_val` and the `int` conversion                                      */
  /* ---------------------------------------------------------------------- */

  /** What `get_val` hands on: `None`, a single item unwrapped, or a list of several. */
  datatype Value = Absent | Single(item: string) | Several(items: seq<string>)

  /** The items a value holds, in order. */
  function Items(v: Value): seq<string>
  {
    match v
    case Absent => []
    case Single(s) => [s]
    case Several(ws) => ws
  }

  /** A decimal digit. */
  predicate IsDigit(c: char)
  {
    '0' <= c <= '9'
  }

  /** Digits, with single underscores allowed between two digits, as `int` accepts them. */
  predicate IsGroupedDigits(t: string)
  {
    |t| > 0 && IsDigit(t[0]) && IsDigit(t[|t| - 1]) &&
    forall i :: 0 <= i < |t| ==> IsDigit(t[i]) || (t[i] == '_' && i + 1 < |t| && IsDigit(t[i + 1]))
  }

  /** The digits of a grouped numeral, underscores dropped. */
  function Ungroup(t: string): (d: string)
    ensures |d| <= |t|
    ensures (forall i :: 0 <= i < |t| ==> IsDigit(t[i])) ==> d == t
  {
    if t == [] then []
    else (if t[0] == '_' then [] else [t[0]]) + Ungroup(t[1..])
  }

  /** Python's `int(s)` for a text: an optional sign and grouped digits, white space around. */
  function ParseInt(s: string): Option<int>
  {
    var t := Strip(s);
    if t != [] && (t[0] == '+' || t[0] == '-') then
      if IsGroupedDigits(t[1..]) then
        var m := DigitsValue(Ungroup(t[1..]));
        Some(if t[0] == '-' then -m else m)
      else None
    else if IsGroupedDigits(t) then Some(DigitsValue(Ungroup(t)))
    else None
  }

  /** A plain run of digits is a grouped numeral whose digits are itself. */
  lemma PlainDigits(d: string)
    requires IsDigitText(d)
    ensures IsGroupedDigits(d) && Ungroup(d) == d
  {
  }

  /** An unsigned numeral with nothing around it reads as its digits' value. */
  lemma ParseDigitText(d: string)
    requires IsDigitText(d)
    ensures ParseInt(d) == Some(DigitsValue(d))
  {
    PlainDigits(d);
    StripTrimmed(d);
  }

  /** A minus sign before a numeral negates it. */
  lemma ParseNegative(d: string)
    requires IsDigitText(d)
    ensures ParseInt("-" + d) == Some(-DigitsValue(d))
  {
    var s := "-" + d;
    PlainDigits(d);
    assert s[|s| - 1] == d[|d| - 1];
    StripTrimmed(s);
    assert s[1..] == d;
  }

  /** `int(str(n)) == n`: the text Python prints for an integer reads back as that integer. */
  lemma ParseShowInt(n: int)
    ensures ParseInt(ShowInt(n)) == Some(n)
  {
    if n < 0 {
      ParseNegative(ShowNat(-n));
    } else {
      ParseDigitText(ShowNat(n));
    }
  }

  /** Python's `int(val)` on what `get_val` unwrapped; a list or `None` is a type error. */
  function IntOf(v: Value): (r: Result<int, string>)
    ensures r.Ok? <==> v.Single? && ParseInt(v.item).Some?
    ensures r.Ok? ==> ParseInt(v.item) == Some(r.value)
  {
    match v
    case Single(s) =>
      (match ParseInt(s)
       case Some(n) => Ok(n)
       case None => Err("ValueError: invalid literal for int() with base 10"))
    case _ => Err("TypeError: int() argument must be a string or a number")
  }

  /** What each `DecelConfig` getter answers for `key`, with `default` when the key is missing. */
  predicate IntSetting(data: map<string, Setting>, key: string, default: int, r: Result<int, string>)
  {
    (key !in data ==> r == Ok(default)) &&
    (key in data ==> (r.Ok? <==> data[key].Words? && |data[key].words| == 1 && ParseInt(data[key].words[0]).Some?)) &&
    (key in data && r.Ok? ==> ParseInt(data[key].words[0]) == Some(r.value))
  }

  /* ---------------------------------------------------------------------- */
  /* The configuration object                                                */
  /* ---------------------------------------------------------------------- */

  class ConfigFile {
    /** `self.data`: the setting of each key. */
    var data: map<string, Setting>

    /** `__init__`: start empty and read the file, when it exists. */
    constructor (contents: Option<seq<string>>)
      ensures data == if contents.Some? then Stored(map[], Kept(contents.value)) else map[]
    {
      data := map[];
      new;
      Read(contents);
    }

    /** `read`: store the kept lines one after another; a missing file changes nothing. */
    method Read(contents: Option<seq<string>>)
      modifies this
      ensures data == if contents.Some? then Stored(old(data), Kept(contents.value)) else old(data)
    {
      if contents.None? {
        return;
      }
      var lines := Kept(contents.value);
      for i := 0 to |lines|
        invariant data == Stored(old(data), lines[..i])
      {
        var items := TextLayout.SplitWords(lines[i]);
        ReadLine(items);
        assert lines[..i + 1][..i] == lines[..i];
      }
      assert lines[..|lines|] == lines;
    }

    /** `_read_line`: the first item is the key; the flag, or the other items, its value. */
    method ReadLine(items: seq<string>)
      requires |items| >= 1
      modifies this
      ensures data == old(data)[items[0] := SettingOf(items)]
    {
      var value := Flag;
      if |items| > 1 {
        value := Words(items[1..]);
      }
      data := data[items[0] := value];
    }

    /**
     * `get_val` without a conversion, whose default is `None`: a one-item
     * list is unwrapped; a flag fails at `len`.
     */
    function RawVal(key: string): (r: Result<Value, string>)
      reads this
      ensures key !in data ==> r == Ok(Absent)
      ensures key in data ==> (r.Err? <==> data[key].Flag?)
      ensures r.Ok? && key in data ==> Items(r.value) == data[key].words && r.value != Absent
      ensures r.Ok? && r.value.Several? ==> |r.value.items| != 1
    {
      if key !in data then Ok(Absent)
      else
        match data[key]
        case Flag => Err("TypeError: object of type 'bool' has no len()")
        case Words(ws) => if |ws| == 1 then Ok(Single(ws[0])) else Ok(Several(ws))
    }

    /** `get_val` with a conversion: the default for a missing key, else the converted value. */
    function GetVal<T>(key: string, action: Value -> Result<T, string>, default: T): (r: Result<T, string>)
      reads this
      ensures key !in data ==> r == Ok(default)
      ensures key in data && RawVal(key).Ok? ==> r == action(RawVal(key).value)
      ensures key in data && data[key].Flag? ==> r.Err?
    {
      if key !in data then Ok(default)
      else
        match RawVal(key)
        case Ok(v) => action(v)
        case Err(e) => Err(e)
    }

    /** `DecelConfig.default_column_width`: `col_width` as an integer, 7 when unset. */
    function DefaultColumnWidth(): (r: Result<int, string>)
      reads this
      ensures IntSetting(data, "col_width", 7, r)
    {
      GetVal("col_width", IntOf, 7)
    }

    /** `DecelConfig.row_jump_size`: `row_jump` as an integer, 5 when unset. */
    function RowJumpSize(): (r: Result<int, string>)
      reads this
      ensures IntSetting(data, "row_jump", 5, r)
    {
      GetVal("row_jump", IntOf, 5)
    }

    /** `DecelConfig.col_jump_size`: `col_jump` as an integer, 3 when unset. */
    function ColJumpSize(): (r: Result<int, string>)
      reads this
      ensures IntSetting(data, "col_jump", 3, r)
    {
      GetVal("col_jump", IntOf, 3)
    }
  }

  /* ---------------------------------------------------------------------- */
  /* Reading a setting back                                                  */
  /* ---------------------------------------------------------------------- */

  /** A line as `readlines` gives it loses its line break to `strip()`. */
  lemma StripLineBreak(s: string)
    requires s != [] && !IsSpace(s[0]) && !IsSpace(s[|s| - 1])
    ensures Strip(s + "\n") == s
  {
    var t := s + "\n";
    assert StripLeft(t) == t;
    assert t[..|t| - 1] == s;
    assert StripRight(t) == StripRight(s);
    StripTrimmed(s);
  }

  /** `k + " " + v` splits into its two parts when neither holds a blank. */
  lemma SplitPair(k: string, v: string)
    requires !HasChar(k, ' ') && !HasChar(v, ' ')
    ensures TextLayout.SplitWords(k + " " + v) == [k, v]
  {
    var s := k + " " + v;
    HasCharIff(k, ' ');
    IndexOfIs(s, ' ', |k|);
    assert s[|k| + 1..] == v;
    assert s[..|k|] == k;
    HasCharIff(v, ' ');
  }

  /** The text of an integer holds no blank. */
  lemma ShowIntHasNoBlank(n: int)
    ensures !HasChar(ShowInt(n), ' ')
  {
    var s := ShowInt(n);
    var d := ShowNat(if n < 0 then -n else n);
    assert forall i :: 0 <= i < |s| ==> s[i] == '-' || s[i] in "0123456789" by {
      forall i | 0 <= i < |s| ensures s[i] == '-' || s[i] in "0123456789" {
        if n < 0 && i > 0 {
          assert s[i] == d[i - 1];
        }
      }
    }
    NoChar(s, ' ');
  }

  /** The last line of a file, `key n`, sets `key` to the one item `str(n)`. */
  lemma IntLineStored(data: map<string, Setting>, lines: seq<string>, key: string, n: int)
    requires key != [] && !IsSpace(key[0]) && !HasChar(key, ' ')
    ensures key in Stored(data, Kept(lines + [key + " " + ShowInt(n) + "\n"]))
    ensures Stored(data, Kept(lines + [key + " " + ShowInt(n) + "\n"]))[key] == Words([ShowInt(n)])
  {
    var line := key + " " + ShowInt(n);
    var d := ShowNat(if n < 0 then -n else n);
    assert line[|line| - 1] == d[|d| - 1];
    StripLineBreak(line);
    assert (lines + [line + "\n"])[..|lines|] == lines;
    var kept := Kept(lines + [line + "\n"]);
    assert kept == Kept(lines) + [line];
    assert kept[..|kept| - 1] == Kept(lines);
    ShowIntHasNoBlank(n);
    SplitPair(key, ShowInt(n));
  }

  /** A getter whose key's last line is `key n` answers `n`, whatever its default. */
  lemma IntLineRead(data: map<string, Setting>, lines: seq<string>, key: string, n: int, default: int, r: Result<int, string>)
    requires key != [] && !IsSpace(key[0]) && !HasChar(key, ' ')
    requires IntSetting(Stored(data, Kept(lines + [key + " " + ShowInt(n) + "\n"])), key, default, r)
    ensures r == Ok(n)
  {
    IntLineStored(data, lines, key, n);
    ParseShowInt(n);
  }

  /** A getter whose key's last line is the key alone fails: the flag has no length. */
  lemma FlagLineFails(data: map<string, Setting>, lines: seq<string>, key: string, default: int, r: Result<int, string>)
    requires key != [] && !IsSpace(key[0]) && !IsSpace(key[|key| - 1]) && !HasChar(key, ' ')
    requires IntSetting(Stored(data, Kept(lines + [key + "\n"])), key, default, r)
    ensures r.Err?
  {
    StripLineBreak(key);
    assert (lines + [key + "\n"])[..|lines|] == lines;
    var kept := Kept(lines + [key + "\n"]);
    assert kept == Kept(lines) + [key];
    assert kept[..|kept| - 1] == Kept(lines);
    assert TextLayout.SplitWords(key) == [key];
  }
}
