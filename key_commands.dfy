/**
 * source/key_command.py: `decode_command` turns a list of words into key
 * codes.  At each step the reserved names of `reserved_keys` are tried as
 * prefixes in table order, "<ENTER>", "<SPACE>", "#"; the first that
 * matches is consumed and gives its code; with none, the first character is
 * consumed and gives its code point.  With `enter_after`, an ENTER code
 * follows each word.
 *
 * The codes ENTER, SPACE and HASHTAG come from view/utils/keys.py, which is
 * not part of this model: they are the fields of a `KeyCodes` parameter.
 */
module KeyCommands {
  import opened Common

  /** The key codes the reserved names stand for. */
  datatype KeyCodes = KeyCodes(enter: int, space: int, hashtag: int)

  /** `reserved_keys`, in the order a loop over the dictionary visits it. */
  function Reserved(keys: KeyCodes): (table: seq<(string, int)>)
    ensures |table| == 3
    ensures forall j :: 0 <= j < |table| ==> |table[j].0| > 0
  {
    [("<ENTER>", keys.enter), ("<SPACE>", keys.space), ("#", keys.hashtag)]
  }

  /** The first entry at or after `j` whose name `t` starts with. */
  function MatchFrom(t: string, table: seq<(string, int)>, j: nat): (r: Option<nat>)
    requires j <= |table|
    ensures r.Some? ==> j <= r.value < |table| && StartsWith(t, table[r.value].0)
    ensures r.Some? ==> forall i :: j <= i < r.value ==> !StartsWith(t, table[i].0)
    ensures r.None? ==> forall i :: j <= i < |table| ==> !StartsWith(t, table[i].0)
    decreases |table| - j
  {
    if j == |table| then None
    else if StartsWith(t, table[j].0) then Some(j)
    else MatchFrom(t, table, j + 1)
  }

  /** The codes of one word: a reserved name or a single character at a time. */
  function DecodeWord(t: string, keys: KeyCodes): seq<int>
    decreases |t|
  {
    if t == [] then []
    else
      var table := Reserved(keys);
      match MatchFrom(t, table, 0)
      case Some(j) => [table[j].1] + DecodeWord(t[|table[j].0|..], keys)
      case None => [t[0] as int] + DecodeWord(t[1..], keys)
  }

  /** The codes of one word, followed by ENTER when `enterAfter` holds. */
  function WordCodes(word: string, enterAfter: bool, keys: KeyCodes): seq<int>
  {
    DecodeWord(word, keys) + (if enterAfter then [keys.enter] else [])
  }

  /** `decode_command` on values: the codes of each word, in order. */
  function Decoded(values: seq<string>, enterAfter: bool, keys: KeyCodes): seq<int>
    decreases |values|
  {
    if values == [] then []
    else Decoded(values[..|values| - 1], enterAfter, keys) + WordCodes(values[|values| - 1], enterAfter, keys)
  }

  /**
   * `decode_command`: for each word, consume it from the front, a reserved
   * name or else a single character at a time, then add ENTER when asked.
   */
  method DecodeCommand(values: seq<string>, enterAfter: bool, keys: KeyCodes) returns (output: seq<int>)
    ensures output == Decoded(values, enterAfter, keys)
  {
    output := [];
    for w := 0 to |values|
      invariant output == Decoded(values[..w], enterAfter, keys)
    {
      var word := values[w];
      var tword := word;
      ghost var start := output;
      while |tword| > 0
        invariant start + DecodeWord(word, keys) == output + DecodeWord(tword, keys)
        decreases |tword|
      {
        ghost var t0, out0 := tword, output;
        var code;
        code, tword := ConsumeOne(tword, keys);
        output := output + [code];
        assert out0 + DecodeWord(t0, keys) == output + DecodeWord(tword, keys);
      }
      assert output == start + DecodeWord(word, keys);
      assert values[..w + 1] == values[..w] + [word];
      DecodedSnoc(values[..w], word, enterAfter, keys);
      output := output + (if enterAfter then [keys.enter] else []);
    }
    assert values[..|values|] == values;
  }

  /** One more word adds its codes at the end. */
  lemma DecodedSnoc(prev: seq<string>, word: string, enterAfter: bool, keys: KeyCodes)
    ensures Decoded(prev + [word], enterAfter, keys) == Decoded(prev, enterAfter, keys) + WordCodes(word, enterAfter, keys)
  {
    assert (prev + [word])[..|prev|] == prev;
  }

  /**
   * One pass of the inner loop of `decode_command`: the first reserved name,
   * in table order, that the text starts with is consumed and gives its
   * code; with none, the first character is consumed and gives its code
   * point.
   */
  method ConsumeOne(tword: string, keys: KeyCodes) returns (code: int, rest: string)
    requires |tword| > 0
    ensures DecodeWord(tword, keys) == [code] + DecodeWord(rest, keys)
    ensures |rest| < |tword|
  {
    var rkeys := Reserved(keys);
    for j := 0 to |rkeys|
      invariant MatchFrom(tword, rkeys, 0) == MatchFrom(tword, rkeys, j)
    {
      if StartsWith(tword, rkeys[j].0) {
        return rkeys[j].1, tword[|rkeys[j].0|..];
      }
    }
    var first := tword[0];
    code, rest := first as int, tword[1..];
  }

  /* ---------------------------------------------------------------------- */
  /* What decoding promises                                                   */
  /* ---------------------------------------------------------------------- */

  /** Each step consumes at least one character, so a word gives at most one code per character. */
  lemma {:induction false} DecodeWordBounds(t: string, keys: KeyCodes)
    ensures |DecodeWord(t, keys)| <= |t|
    ensures t != [] ==> |DecodeWord(t, keys)| >= 1
    decreases |t|
  {
    if t != [] {
      var table := Reserved(keys);
      match MatchFrom(t, table, 0)
      case Some(j) => DecodeWordBounds(t[|table[j].0|..], keys);
      case None => DecodeWordBounds(t[1..], keys);
    }
  }

  /** A character that is neither '<' nor '#' starts no reserved name. */
  predicate Plain(c: char)
  {
    c != '<' && c != '#'
  }

  /** A word of plain characters decodes to the code point of each character, in order. */
  lemma {:induction false} PlainWord(t: string, keys: KeyCodes)
    requires forall i :: 0 <= i < |t| ==> Plain(t[i])
    ensures DecodeWord(t, keys) == seq(|t|, i requires 0 <= i < |t| => t[i] as int)
    decreases |t|
  {
    if t != [] {
      var table := Reserved(keys);
      assert forall j :: 0 <= j < |table| ==> table[j].0[0] in "<#";
      assert forall j :: 0 <= j < |table| ==> !StartsWith(t, table[j].0);
      assert MatchFrom(t, table, 0) == None;
      PlainWord(t[1..], keys);
    }
  }

  /** The words' codes come in input order: decoding a concatenation concatenates the decodings. */
  lemma {:induction false} DecodedAppend(a: seq<string>, b: seq<string>, enterAfter: bool, keys: KeyCodes)
    ensures Decoded(a + b, enterAfter, keys) == Decoded(a, enterAfter, keys) + Decoded(b, enterAfter, keys)
    decreases |b|
  {
    if b == [] {
      assert a + b == a;
    } else {
      var n := |b| - 1;
      assert (a + b)[..|a + b| - 1] == a + b[..n] && (a + b)[|a + b| - 1] == b[n];
      DecodedAppend(a, b[..n], enterAfter, keys);
    }
  }

  /** With `enterAfter`, the output is one ENTER longer per word than without it. */
  lemma {:induction false} EnterPerWord(values: seq<string>, keys: KeyCodes)
    ensures |Decoded(values, true, keys)| == |Decoded(values, false, keys)| + |values|
    decreases |values|
  {
    if values != [] {
      EnterPerWord(values[..|values| - 1], keys);
    }
  }

  /** A single word: its codes, then exactly one ENTER when asked and none otherwise. */
  lemma OneWord(word: string, keys: KeyCodes)
    ensures Decoded([word], true, keys) == DecodeWord(word, keys) + [keys.enter]
    ensures Decoded([word], false, keys) == DecodeWord(word, keys)
  {
    assert [word][..0] == [];
  }

  /** A reserved name on its own gives its code. */
  lemma EnterName(keys: KeyCodes)
    ensures DecodeWord("<ENTER>", keys) == [keys.enter]
  {
    var table := Reserved(keys);
    assert StartsWith("<ENTER>", table[0].0);
    assert "<ENTER>"[7..] == [];
  }

  /** Reserved names are matched one after another, each in table order. */
  lemma HashThenSpace(keys: KeyCodes)
    ensures DecodeWord("#<SPACE>", keys) == [keys.hashtag, keys.space]
  {
    var table := Reserved(keys);
    assert "#<SPACE>"[..7][0] == '#' != table[0].0[0] && table[0].0[0] == table[1].0[0];
    assert StartsWith("#<SPACE>", table[2].0);
    assert "#<SPACE>"[1..] == "<SPACE>";
    assert "<SPACE>"[..7][1] == 'S' != table[0].0[1];
    assert StartsWith("<SPACE>", table[1].0);
    assert "<SPACE>"[7..] == [];
  }

  /** An unfinished reserved name is plain text: one code point per character. */
  lemma UnfinishedName(keys: KeyCodes)
    ensures DecodeWord("<ENT", keys) == ['<' as int, 'E' as int, 'N' as int, 'T' as int]
  {
    var table := Reserved(keys);
    assert |"<ENT"| < |table[0].0| && |"<ENT"| < |table[1].0|;
    assert "<ENT"[..1] == "<" != table[2].0;
    assert MatchFrom("<ENT", table, 0) == None;
    assert "<ENT"[1..] == "ENT";
    PlainWord("ENT", keys);
    assert "ENT"[0] == 'E' && "ENT"[1] == 'N' && "ENT"[2] == 'T';
  }
}
