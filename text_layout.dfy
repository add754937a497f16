/**
 * The text helpers of source/view/utils.py: `align_text`, which pads or cuts
 * a text to a width, and `fix_text_to_width`, which wraps a message into
 * padded lines word by word.
 *
 * An alignment is the one-character text the source compares against:
 * "r", "l" or "c".
 */
module TextLayout {
  import opened Common

  /* ---------------------------------------------------------------------- */
  /* align_text                                                               */
  /* ---------------------------------------------------------------------- */

  /** Python's `s[:n]`: a negative `n` counts from the end. */
  function TakePrefix(s: string, n: int): (r: string)
    ensures 0 <= n <= |s| ==> r == s[..n]
    ensures n < 0 ==> r == s[..if |s| + n < 0 then 0 else |s| + n]
    ensures n > |s| ==> r == s
  {
    if n < 0 then s[..if |s| + n < 0 then 0 else |s| + n]
    else if n <= |s| then s[..n]
    else s
  }

  /** `int(d / 2)`: true division then truncation toward zero. */
  function TruncHalf(d: int): (h: int)
    ensures d >= 0 ==> 2 * h <= d <= 2 * h + 1
    ensures d < 0 ==> h <= 0
  {
    if d >= 0 then d / 2 else -((-d) / 2)
  }

  /**
   * `align_text`: a text at least `width` long is cut to `text[:width]`;
   * a shorter one is padded with blanks on the left ("r"), the right ("l")
   * or both, the left half rounded down ("c"); any other alignment raises.
   */
  function AlignText(text: string, width: int, alignment: string): (r: Result<string, string>)
    ensures |text| >= width ==> r == Ok(TakePrefix(text, width))
    ensures |text| < width ==> (r.Ok? <==> alignment in {"r", "l", "c"})
    ensures |text| < width && r.Ok? ==> |r.value| == width
    ensures |text| < width && alignment == "r" ==> r.Ok? && r.value[width - |text|..] == text
    ensures |text| < width && alignment == "l" ==> r.Ok? && r.value[..|text|] == text
    ensures |text| < width && alignment == "c" ==>
              var left := (width - |text|) / 2;
              r.Ok? && r.value[left..left + |text|] == text && width - |text| - left - left in {0, 1}
    ensures r.Ok? && |text| < width ==> forall i :: 0 <= i < |r.value| ==> r.value[i] == ' ' || r.value[i] in text
    ensures r.Err? ==> r.error == "Invalid Alignment: " + alignment
  {
    if |text| >= width then Ok(TakePrefix(text, width))
    else
      var diff := width - |text|;
      if alignment == "r" then Ok(Spaces(diff) + text)
      else if alignment == "l" then Ok(text + Spaces(diff))
      else if alignment == "c" then
        var l := TruncHalf(diff);
        var r := diff - l;
        assert (Spaces(l) + text + Spaces(r))[l..l + |text|] == text;
        Ok(Spaces(l) + text + Spaces(r))
      else Err("Invalid Alignment: " + alignment)
  }

  /** Aligning a text that already has the width returns it unchanged, whatever the alignment. */
  lemma AlignTextExactWidth(text: string, alignment: string)
    ensures AlignText(text, |text|, alignment) == Ok(text)
  {
    assert text[..|text|] == text;
  }

  /** Each alignment of a shorter text puts blanks around it, `width - |text|` of them in all. */
  lemma AlignTextPadding(text: string, width: int, alignment: string)
    requires |text| < width && alignment in {"r", "l", "c"}
    ensures exists left: nat :: left <= width - |text| &&
              AlignText(text, width, alignment) == Ok(Spaces(left) + text + Spaces(width - |text| - left))
  {
    var diff := width - |text|;
    assert Spaces(0) == [];
    if alignment == "c" {
      var l := TruncHalf(diff);
      assert AlignText(text, width, alignment) == Ok(Spaces(l) + text + Spaces(diff - l));
    } else if alignment == "r" {
      assert Spaces(diff) + text + Spaces(0) == Spaces(diff) + text;
      assert AlignText(text, width, alignment) == Ok(Spaces(diff) + text + Spaces(0));
    } else {
      assert Spaces(0) + text == text;
      assert AlignText(text, width, alignment) == Ok(Spaces(0) + text + Spaces(diff));
    }
  }

  /** The words after each: every word with one blank in front, in order. */
  function JoinSpaced(ws: seq<string>): (r: string)
    ensures ws != [] ==> |r| > 0
  {
    if ws == [] then "" else JoinSpaced(ws[..|ws| - 1]) + " " + ws[|ws| - 1]
  }

  /** Python's `" ".join(ws)`. */
  function JoinWords(ws: seq<string>): string
  {
    if ws == [] then "" else ws[0] + JoinSpaced(ws[1..])
  }

  /**
   * Python's `s.split(' ')`: the texts between blanks, empty ones included;
   * the empty text splits into one empty word.
   */
  function SplitWords(s: string): (ws: seq<string>)
    ensures |ws| >= 1
    ensures forall i :: 0 <= i < |ws| ==> !HasChar(ws[i], ' ')
    decreases |s|
  {
    var k := IndexOf(s, ' ');
    IndexOfFirst(s, ' ');
    if k == |s| then
      NoChar(s, ' ');
      [s]
    else
      NoChar(s[..k], ' ');
      [s[..k]] + SplitWords(s[k + 1..])
  }

  /** A word in front of the blank-prefixed rest. */
  lemma {:induction false} JoinSpacedCons(w: string, ws: seq<string>)
    ensures JoinSpaced([w] + ws) == " " + w + JoinSpaced(ws)
    decreases |ws|
  {
    if ws == [] {
      assert ([w] + ws)[..0] == [];
    } else {
      var n := |ws| - 1;
      assert ([w] + ws)[..n + 1] == [w] + ws[..n];
      JoinSpacedCons(w, ws[..n]);
    }
  }

  /** A word in front of at least one more is followed by a blank in the joined text. */
  lemma {:induction false} JoinWordsCons(w: string, rest: seq<string>)
    requires rest != []
    ensures JoinWords([w] + rest) == w + " " + JoinWords(rest)
  {
    var ws := [w] + rest;
    assert ws[0] == w && ws[1..] == rest;
    assert [rest[0]] + rest[1..] == rest;
    JoinSpacedCons(rest[0], rest[1..]);
    var tail := JoinSpaced(rest[1..]);
    assert JoinSpaced(rest) == " " + (rest[0] + tail);
    assert JoinWords(rest) == rest[0] + tail;
  }

  /** Joining the words of a split with blanks gives the text back. */
  lemma {:induction false} SplitJoin(s: string)
    ensures JoinWords(SplitWords(s)) == s
    decreases |s|
  {
    var k := IndexOf(s, ' ');
    if k == |s| {
      assert JoinWords([s]) == s + JoinSpaced([]);
    } else {
      var rest := SplitWords(s[k + 1..]);
      SplitJoin(s[k + 1..]);
      JoinWordsCons(s[..k], rest);
      assert s == s[..k] + " " + s[k + 1..];
    }
  }

  /* ---------------------------------------------------------------------- */
  /* fix_text_to_width                                                        */
  /* ---------------------------------------------------------------------- */

  /**
   * The padding of a full line: blanks after it ("l"), before it ("r") or
   * around it, the left share `int(diff / 2)` ("c"); any other alignment
   * leaves the line as it is.
   */
  function Pad(line: string, diff: int, alignment: string): (r: string)
    ensures alignment in {"l", "r", "c"} && diff >= 0 ==> |r| == |line| + diff
    ensures alignment !in {"l", "r", "c"} ==> r == line
  {
    if alignment == "l" then line + Spaces(diff)
    else if alignment == "r" then Spaces(diff) + line
    else if alignment == "c" then Spaces(TruncHalf(diff)) + line + Spaces(diff - TruncHalf(diff))
    else line
  }

  /**
   * The state of the wrapping loop after some words: the finished lines, the
   * line being filled, and the positions of the words that did not fit
   * (each one ended a line and was itself dropped).
   */
  datatype Wrapping = Wrapping(lines: seq<string>, current: string, dropped: seq<nat>)

  /**
   * The loop of `fix_text_to_width` on values: a word that fits with its
   * blank strictly inside what is left of the width joins the current
   * line; otherwise the current line is padded by what is left, finished,
   * and restarted empty, and the word is lost.
   */
  function Wrap(words: seq<string>, width: int, alignment: string): Wrapping
    decreases |words|
  {
    if words == [] then Wrapping([], "", [])
    else
      var n := |words| - 1;
      var st := Wrap(words[..n], width, alignment);
      var diff := width - |st.current|;
      if |words[n]| + 1 < diff then st.(current := st.current + " " + words[n])
      else Wrapping(st.lines + [Pad(st.current, diff, alignment)], "", st.dropped + [n])
  }

  /** One more word: the loop body applied to the wrap of the words before it. */
  lemma {:induction false} WrapAppend(prev: seq<string>, w: string, width: int, alignment: string)
    ensures var st := Wrap(prev, width, alignment);
            var diff := width - |st.current|;
            Wrap(prev + [w], width, alignment) ==
              if |w| + 1 < diff then st.(current := st.current + " " + w)
              else Wrapping(st.lines + [Pad(st.current, diff, alignment)], "", st.dropped + [|prev|])
  {
    assert (prev + [w])[..|prev|] == prev;
  }

  /** The lines `fix_text_to_width` returns: the finished ones, then a non-empty last line unpadded. */
  function Finish(st: Wrapping): seq<string>
  {
    st.lines + (if st.current != "" then [st.current] else [])
  }

  /** `fix_text_to_width` on values. */
  function FixedLines(message: string, width: int, alignment: string): seq<string>
  {
    Finish(Wrap(SplitWords(message), width, alignment))
  }

  /** `fix_text_to_width`: split the message on blanks and wrap the words. */
  method FixTextToWidth(message: string, width: int, alignment: string) returns (lines: seq<string>)
    ensures lines == FixedLines(message, width, alignment)
  {
    var words := SplitWords(message);
    lines := [];
    var currentLine := "";
    for i := 0 to |words|
      invariant Wrap(words[..i], width, alignment).lines == lines
      invariant Wrap(words[..i], width, alignment).current == currentLine
    {
      var word := words[i];
      assert words[..i + 1] == words[..i] + [word];
      WrapAppend(words[..i], word, width, alignment);
      var diff := width - |currentLine|;
      if |word| + 1 < diff {
        currentLine := currentLine + " " + word;
      } else {
        currentLine := PadLine(currentLine, diff, alignment);
        lines := lines + [currentLine];
        currentLine := "";
      }
    }
    assert words[..|words|] == words;
    if currentLine != "" {
      lines := lines + [currentLine];
    }
  }

  /** The padding branch of `fix_text_to_width`'s loop, one alignment test after another. */
  method PadLine(line: string, diff: int, alignment: string) returns (padded: string)
    ensures padded == Pad(line, diff, alignment)
  {
    padded := line;
    if alignment == "l" {
      padded := padded + Spaces(diff);
    }
    if alignment == "r" {
      padded := Spaces(diff) + padded;
    }
    if alignment == "c" {
      var firstHalf := TruncHalf(diff);
      var secondHalf := diff - firstHalf;
      padded := Spaces(firstHalf) + padded + Spaces(secondHalf);
    }
  }

  /* ---------------------------------------------------------------------- */
  /* What the wrap promises                                                   */
  /* ---------------------------------------------------------------------- */

  /** Where line `k` starts: at the first word, or just after the word that ended line `k - 1`. */
  function LineStart(dropped: seq<nat>, k: nat): nat
    requires k <= |dropped|
  {
    if k == 0 then 0 else dropped[k - 1] + 1
  }

  /** The words of line `k`, each after one blank, before padding. */
  function LineWords(words: seq<string>, dropped: seq<nat>, k: nat): string
    requires k < |dropped| && LineStart(dropped, k) <= dropped[k] <= |words|
  {
    JoinSpaced(words[LineStart(dropped, k)..dropped[k]])
  }

  /**
   * Line `k` of a wrap holds the words from `LineStart(k)` up to the
   * dropped word that ended it, each after one blank, padded by the width
   * left, and that dropped word did not fit.
   */
  predicate LineShaped(words: seq<string>, st: Wrapping, k: nat, width: int, alignment: string)
  {
    && k < |st.dropped| && k < |st.lines|
    && LineStart(st.dropped, k) <= st.dropped[k] < |words|
    && var group := LineWords(words, st.dropped, k);
       && st.lines[k] == Pad(group, width - |group|, alignment)
       && |words[st.dropped[k]]| + 1 >= width - |group|
  }

  /**
   * One dropped word per finished line, and the current line holds the
   * words after the last dropped one, each after one blank.
   */
  lemma {:induction false} WrapCurrent(words: seq<string>, width: int, alignment: string)
    ensures var st := Wrap(words, width, alignment);
            && |st.dropped| == |st.lines|
            && LineStart(st.dropped, |st.dropped|) <= |words|
            && st.current == JoinSpaced(words[LineStart(st.dropped, |st.dropped|)..])
    decreases |words|
  {
    if words != [] {
      var n := |words| - 1;
      var prev := words[..n];
      var st := Wrap(prev, width, alignment);
      WrapCurrent(prev, width, alignment);
      var s := LineStart(st.dropped, |st.dropped|);
      if |words[n]| + 1 < width - |st.current| {
        assert words[s..] == prev[s..] + [words[n]];
        assert words[s..][..|words[s..]| - 1] == prev[s..];
      } else {
        assert LineStart(st.dropped + [n], |st.dropped| + 1) == |words|;
      }
    }
  }

  /** A line shaped after some words stays shaped after one more word. */
  lemma {:induction false} LineStaysShaped(prev: seq<string>, w: string, width: int, alignment: string, k: nat)
    requires LineShaped(prev, Wrap(prev, width, alignment), k, width, alignment)
    ensures LineShaped(prev + [w], Wrap(prev + [w], width, alignment), k, width, alignment)
  {
    var words := prev + [w];
    assert words[..|prev|] == prev;
    var st := Wrap(prev, width, alignment);
    var st' := Wrap(words, width, alignment);
    assert st'.dropped[k] == st.dropped[k] && st'.lines[k] == st.lines[k];
    assert LineStart(st'.dropped, k) == LineStart(st.dropped, k);
    assert words[LineStart(st.dropped, k)..st.dropped[k]] == prev[LineStart(st.dropped, k)..st.dropped[k]];
  }

  /** The line a word that does not fit finishes holds the current line's words, padded. */
  lemma {:induction false} NewLineShaped(prev: seq<string>, w: string, width: int, alignment: string)
    requires |w| + 1 >= width - |Wrap(prev, width, alignment).current|
    ensures LineShaped(prev + [w], Wrap(prev + [w], width, alignment), |Wrap(prev, width, alignment).dropped|, width, alignment)
  {
    var words := prev + [w];
    var n := |prev|;
    var st := Wrap(prev, width, alignment);
    var diff := width - |st.current|;
    WrapAppend(prev, w, width, alignment);
    var st' := Wrapping(st.lines + [Pad(st.current, diff, alignment)], "", st.dropped + [n]);
    assert Wrap(words, width, alignment) == st';
    WrapCurrent(prev, width, alignment);
    var s := LineStart(st.dropped, |st.dropped|);
    var m := |st.dropped|;
    assert words[s..n] == prev[s..];
    assert LineStart(st'.dropped, m) == s && st'.dropped[m] == n && st'.lines[m] == Pad(st.current, diff, alignment);
    var group := LineWords(words, st'.dropped, m);
    assert group == st.current;
    assert st'.lines[m] == Pad(group, width - |group|, alignment);
    assert |words[st'.dropped[m]]| + 1 >= width - |group|;
    assert m < |st'.dropped| && m < |st'.lines| && s <= n < |words|;
  }

  /** Every finished line of a wrap is shaped as `LineShaped` says. */
  lemma {:induction false} WrapLines(words: seq<string>, width: int, alignment: string)
    ensures forall k :: 0 <= k < |Wrap(words, width, alignment).dropped| ==>
              LineShaped(words, Wrap(words, width, alignment), k, width, alignment)
    decreases |words|
  {
    if words != [] {
      var n := |words| - 1;
      var prev := words[..n];
      var st := Wrap(prev, width, alignment);
      WrapLines(prev, width, alignment);
      assert words == prev + [words[n]];
      var st' := Wrap(words, width, alignment);
      forall k | 0 <= k < |st'.dropped| ensures LineShaped(words, st', k, width, alignment) {
        if k < |st.dropped| {
          LineStaysShaped(prev, words[n], width, alignment, k);
        } else {
          NewLineShaped(prev, words[n], width, alignment);
        }
      }
    }
  }

  /**
   * With alignment "l", "r" or "c" and a positive width, the line being
   * filled stays shorter than the width and every finished line is exactly
   * the width long.
   */
  lemma {:induction false} WrapWidths(words: seq<string>, width: int, alignment: string)
    requires alignment in {"l", "r", "c"} && width >= 1
    ensures var st := Wrap(words, width, alignment);
            |st.current| < width && forall k :: 0 <= k < |st.lines| ==> |st.lines[k]| == width
    decreases |words|
  {
    if words != [] {
      WrapWidths(words[..|words| - 1], width, alignment);
    }
  }

  /** No more lines come out than words went in: each line needs a word that ended or started it. */
  lemma {:induction false} WrapCount(words: seq<string>, width: int, alignment: string)
    ensures |Finish(Wrap(words, width, alignment))| <= |words|
    decreases |words|
  {
    if words != [] {
      WrapCount(words[..|words| - 1], width, alignment);
    }
  }

  /** The returned lines: all `width` long except a shorter non-empty last one, and no more than the words. */
  lemma FixedLinesWidths(message: string, width: int, alignment: string)
    requires alignment in {"l", "r", "c"} && width >= 1
    ensures var lines := FixedLines(message, width, alignment);
            && |lines| <= |SplitWords(message)|
            && (forall k :: 0 <= k < |lines| ==> 0 < |lines[k]| <= width)
            && (forall k :: 0 <= k < |lines| - 1 ==> |lines[k]| == width)
  {
    var words := SplitWords(message);
    WrapWidths(words, width, alignment);
    WrapCount(words, width, alignment);
  }

  /** A message whose words all fit on one line comes back as that one unpadded line. */
  lemma OneLine()
    ensures FixedLines("to be", 10, "l") == [" to be"]
  {
    IndexOfIs("to be", ' ', 2);
    NoChar("be", ' ');
    assert "to be"[..2] == "to" && "to be"[3..] == "be";
    assert SplitWords("to be") == ["to", "be"];
    assert ["to", "be"][..1] == ["to"];
    assert ["to"][..0] == [];
    assert Wrap(["to"], 10, "l") == Wrapping([], " to", []);
    assert Wrap(["to", "be"], 10, "l") == Wrapping([], " to be", []);
  }

  /** A word that does not fit ends the line and is lost. */
  lemma OverflowDropsWord()
    ensures FixedLines("ab cdefgh", 6, "l") == [" ab   "]
  {
    OverflowSplit();
    OverflowWrap();
  }

  /** The message of `OverflowDropsWord` splits into its two words. */
  lemma OverflowSplit()
    ensures SplitWords("ab cdefgh") == ["ab", "cdefgh"]
  {
    IndexOfIs("ab cdefgh", ' ', 2);
    NoChar("cdefgh", ' ');
    assert "ab cdefgh"[..2] == "ab" && "ab cdefgh"[3..] == "cdefgh";
  }

  /** The wrap behind `OverflowDropsWord`: " ab" leaves 3 columns, too few for "cdefgh" and its blank. */
  lemma OverflowWrap()
    ensures Wrap(["ab", "cdefgh"], 6, "l") == Wrapping([" ab   "], "", [1])
  {
    assert ["ab", "cdefgh"][..1] == ["ab"];
    assert ["ab"][..0] == [];
    assert Wrap(["ab"], 6, "l") == Wrapping([], " ab", []);
    assert Spaces(3) == "   ";
    assert Pad(" ab", 3, "l") == " ab   ";
  }
}
