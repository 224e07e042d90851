/** The JavaScript string operations the algebraic notation relies on:
    writing an integer in decimal (`'' + n`), `parseInt(s)` and
    `Array.prototype.indexOf`. */
module JsText {
  import opened Util

  predicate IsDigit(c: char)
  {
    '0' <= c <= '9'
  }

  function DigitChar(d: int): (c: char)
    requires 0 <= d < 10
    ensures IsDigit(c)
  {
    (48 + d) as char
  }

  function DigitValue(c: char): (d: int)
    requires IsDigit(c)
    ensures 0 <= d < 10 && DigitChar(d) == c
  {
    c as int - 48
  }

  /** The decimal digits of `n`, without leading zeros. */
  function Digits(n: nat): (s: string)
    ensures |s| > 0 && forall i :: 0 <= i < |s| ==> IsDigit(s[i])
    ensures n >= 10 ==> s[0] != '0'
  {
    if n < 10 then [DigitChar(n)] else Digits(n / 10) + [DigitChar(n % 10)]
  }

  /** A number as JavaScript writes it when it is added to a string. */
  function NumberToString(n: int): (s: string)
    ensures |s| > 0
  {
    if n < 0 then ['-'] + Digits(-n) else Digits(n)
  }

  /** The value of a run of decimal digits. */
  function DigitsValue(s: string): nat
    requires forall i :: 0 <= i < |s| ==> IsDigit(s[i])
  {
    if |s| == 0 then 0 else 10 * DigitsValue(s[..|s| - 1]) + DigitValue(s[|s| - 1])
  }

  /** The length of the run of digits at the start of `s`. */
  function DigitRun(s: string): (k: nat)
    ensures k <= |s| && forall i :: 0 <= i < k ==> IsDigit(s[i])
    ensures k < |s| ==> !IsDigit(s[k])
  {
    if |s| == 0 || !IsDigit(s[0]) then 0 else 1 + DigitRun(s[1..])
  }

  /** `parseInt(s)` in base ten: an optional sign and then the longest run of
      digits; `None` stands for NaN, the answer when no digit follows. */
  function ParseInt(s: string): Option<int>
  {
    var negative := |s| > 0 && s[0] == '-';
    var body := if |s| > 0 && (s[0] == '-' || s[0] == '+') then s[1..] else s;
    var k := DigitRun(body);
    if k == 0 then None
    else
      var v: int := DigitsValue(body[..k]);
      Some(if negative then -v else v)
  }

  /** `xs.indexOf(c)`: the first index holding `c`, or -1. */
  function IndexOf(xs: seq<char>, c: char): (r: int)
    ensures -1 <= r < |xs|
    ensures r == -1 <==> c !in xs
    ensures r >= 0 ==> xs[r] == c
  {
    if |xs| == 0 then -1
    else
      var r := IndexOf(xs[..|xs| - 1], c);
      if r >= 0 then r
      else if xs[|xs| - 1] == c then |xs| - 1
      else -1
  }

  /** In a list without repeats, `indexOf` finds each entry at its own
      index. */
  lemma IndexOfDistinct(xs: seq<char>, i: int)
    requires 0 <= i < |xs|
    requires forall j, k :: 0 <= j < k < |xs| ==> xs[j] != xs[k]
    ensures IndexOf(xs, xs[i]) == i
  {
    IndexOfFirst(xs, xs[i]);
  }

  /** `indexOf` finds the first occurrence: no earlier index holds `c`. */
  lemma {:induction false} IndexOfFirst(xs: seq<char>, c: char)
    ensures IndexOf(xs, c) >= 0 ==> forall k :: 0 <= k < IndexOf(xs, c) ==> xs[k] != c
    decreases |xs|
  {
    if |xs| > 0 {
      IndexOfFirst(xs[..|xs| - 1], c);
    }
  }

  lemma {:induction false} DigitsValueOf(n: nat)
    ensures DigitsValue(Digits(n)) == n
  {
    if n >= 10 {
      var s := Digits(n);
      assert s[..|s| - 1] == Digits(n / 10);
      DigitsValueOf(n / 10);
    }
  }

  lemma {:induction false} DigitRunAll(s: string)
    requires forall i :: 0 <= i < |s| ==> IsDigit(s[i])
    ensures DigitRun(s) == |s|
    decreases |s|
  {
    if |s| > 0 {
      DigitRunAll(s[1..]);
    }
  }

  /** `parseInt` reads back every integer JavaScript writes. */
  lemma ParseNumber(n: int)
    ensures ParseInt(NumberToString(n)) == Some(n)
  {
    var m := if n < 0 then -n else n;
    var d := Digits(m);
    DigitRunAll(d);
    DigitsValueOf(m);
    assert d[..|d|] == d;
    if n < 0 {
      assert NumberToString(n)[1..] == d;
    }
  }

  /** Reading stops at the first character that is not a digit. */
  lemma ParseStopsAtNonDigit(s: string, t: string)
    requires forall i :: 0 <= i < |s| ==> IsDigit(s[i])
    requires |t| > 0 && !IsDigit(t[0]) && |s| > 0
    ensures ParseInt(s + t) == ParseInt(s)
  {
    DigitRunAll(s);
    assert DigitRun(s + t) == |s| by {
      DigitRunPrefix(s, t);
    }
    assert (s + t)[..|s|] == s[..|s|];
  }

  lemma {:induction false} DigitRunPrefix(s: string, t: string)
    requires forall i :: 0 <= i < |s| ==> IsDigit(s[i])
    requires |t| > 0 && !IsDigit(t[0])
    ensures DigitRun(s + t) == |s|
    decreases |s|
  {
    if |s| > 0 {
      assert (s + t)[1..] == s[1..] + t;
      DigitRunPrefix(s[1..], t);
    } else {
      assert (s + t)[0] == t[0];
    }
  }
}
