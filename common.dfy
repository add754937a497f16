/** Small value types and string helpers shared by the modules of the model. */
module Common {

  /** A value that may be missing (Python's `None` or an absent key). */
  datatype Option<+T> = None | Some(value: T)

  /** The outcome of an operation that the source lets raise an exception. */
  datatype Result<+T, +E> = Ok(value: T) | Err(error: E)

  /** Python's `' ' * n`: `n` blanks, and the empty string when `n <= 0`. */
  function Spaces(n: int): (r: string)
    ensures |r| == if n <= 0 then 0 else n
    ensures forall i :: 0 <= i < |r| ==> r[i] == ' '
    decreases n
  {
    if n <= 0 then [] else [' '] + Spaces(n - 1)
  }

  /** Python's `s.startswith(prefix)`. */
  predicate StartsWith(s: string, prefix: string)
  {
    |prefix| <= |s| && s[..|prefix|] == prefix
  }

  /** The position of the first `c` in `s`, or `|s|` when there is none. */
  function IndexOf(s: string, c: char): (k: nat)
    ensures k <= |s|
    ensures k < |s| ==> s[k] == c
  {
    if s == [] then 0 else if s[0] == c then 0 else 1 + IndexOf(s[1..], c)
  }

  /** Python's `c in s` for a single character. */
  predicate HasChar(s: string, c: char)
  {
    IndexOf(s, c) < |s|
  }

  /** No `c` comes before `IndexOf`. */
  lemma {:induction false} IndexOfFirst(s: string, c: char)
    ensures forall i :: 0 <= i < IndexOf(s, c) ==> s[i] != c
  {
    if s != [] && s[0] != c {
      IndexOfFirst(s[1..], c);
      forall i | 0 < i < IndexOf(s, c) ensures s[i] != c {
        assert s[i] == s[1..][i - 1];
      }
    }
  }

  /** `HasChar` is Python's `in`: some position holds `c`. */
  lemma HasCharIff(s: string, c: char)
    ensures HasChar(s, c) <==> exists i :: 0 <= i < |s| && s[i] == c
  {
    IndexOfFirst(s, c);
  }

  /** A text none of whose characters is `c` does not hold `c`. */
  lemma NoChar(s: string, c: char)
    requires forall i :: 0 <= i < |s| ==> s[i] != c
    ensures !HasChar(s, c)
  {
  }

  /** Any position before which `s` holds no `c`, and at which it holds one, is `IndexOf`. */
  lemma {:induction false} IndexOfIs(s: string, c: char, k: nat)
    requires k < |s| && s[k] == c
    requires forall i :: 0 <= i < k ==> s[i] != c
    ensures IndexOf(s, c) == k
  {
    if k > 0 {
      forall i | 0 <= i < k - 1 ensures s[1..][i] != c {
        assert s[1..][i] == s[i + 1];
      }
      IndexOfIs(s[1..], c, k - 1);
    }
  }

  /** A non-empty run of decimal digits. */
  predicate IsDigitText(s: string)
  {
    |s| > 0 && forall i :: 0 <= i < |s| ==> '0' <= s[i] <= '9'
  }

  /** Python's `int` on a run of decimal digits. */
  function DigitsValue(s: string): int
  {
    if s == [] then 0 else 10 * DigitsValue(s[..|s| - 1]) + (s[|s| - 1] as int - '0' as int)
  }

  /** Python's `str` on a non-negative integer: its decimal digits, without leading zeros. */
  function ShowNat(n: nat): (s: string)
    ensures IsDigitText(s) && DigitsValue(s) == n
    ensures |s| > 1 ==> s[0] != '0'
    decreases n
  {
    var d := ['0' + (n % 10) as char];
    if n < 10 then d
    else
      var s := ShowNat(n / 10) + d;
      assert s[..|s| - 1] == ShowNat(n / 10);
      s
  }

  /** Python's `str` on an integer: a minus sign before the digits of a negative one. */
  function ShowInt(n: int): string
  {
    if n < 0 then "-" + ShowNat(-n) else ShowNat(n)
  }

  /** `n`, or 0 when `n` is negative: the length of Python's `range(n)`, and a position clamped at 0. */
  function Clamp(n: int): nat
  {
    if n > 0 then n else 0
  }

  /** Ten to the power `k`. */
  function Pow10(k: nat): nat
  {
    if k == 0 then 1 else 10 * Pow10(k - 1)
  }

  /** `str(n)` has as many characters as `n` has decimal digits: `n` lies below 10^len and, past one digit, at or above 10^(len - 1). */
  lemma {:induction false} ShowNatDigits(n: nat)
    ensures 1 <= |ShowNat(n)| && n < Pow10(|ShowNat(n)|)
    ensures |ShowNat(n)| > 1 ==> Pow10(|ShowNat(n)| - 1) <= n
    decreases n
  {
    if n >= 10 {
      ShowNatDigits(n / 10);
      var k := |ShowNat(n / 10)|;
      assert |ShowNat(n)| == k + 1;
      assert n == 10 * (n / 10) + n % 10;
      if k > 1 {
        assert Pow10(k) == 10 * Pow10(k - 1);
      }
    }
  }
}
