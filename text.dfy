/** The textual renderings used by the progress map: `String.join(",", …)` and `String.valueOf(int)`,
    each with the parser that undoes it. */
module Text {
  import opened Wrappers

  const Separator: char := ','

  /** `String.join(",", parts)`: the parts with one separator between neighbours. */
  function Join(parts: seq<string>): string
  {
    if |parts| == 0 then ""
    else if |parts| == 1 then parts[0]
    else parts[0] + [Separator] + Join(parts[1..])
  }

  /** A part that a reader can find again in a joined text: non-empty and free of separators. */
  predicate IsPart(s: string)
  {
    s != "" && Separator !in s
  }

  /** The position of the first `c` in `s`, or `|s|` if there is none. */
  function IndexOf(s: string, c: char): (i: nat)
    ensures i <= |s|
    ensures i < |s| ==> s[i] == c
    ensures forall k :: 0 <= k < i ==> s[k] != c
  {
    if s == [] then 0 else if s[0] == c then 0 else 1 + IndexOf(s[1..], c)
  }

  /** Splits a text at every separator; the empty text has no parts. */
  function Split(s: string): seq<string>
    decreases |s|
  {
    if s == "" then []
    else
      var i := IndexOf(s, Separator);
      if i == |s| then [s] else [s[..i]] + Split(s[i + 1..])
  }

  /** Joining parts and splitting the result gives the parts back. */
  lemma {:induction false} SplitJoin(parts: seq<string>)
    requires forall k :: 0 <= k < |parts| ==> IsPart(parts[k])
    ensures Split(Join(parts)) == parts
  {
    if |parts| == 1 {
      assert IndexOf(parts[0], Separator) == |parts[0]|;
    } else if |parts| > 1 {
      var x, rest := parts[0], Join(parts[1..]);
      var s := x + [Separator] + rest;
      assert s[|x|] == Separator;
      assert forall k :: 0 <= k < |x| ==> s[k] == x[k];
      assert IndexOf(s, Separator) == |x|;
      assert s[..|x|] == x;
      assert s[|x| + 1..] == rest;
      SplitJoin(parts[1..]);
    }
  }

  predicate IsDigit(c: char)
  {
    '0' <= c <= '9'
  }

  predicate AllDigits(s: string)
  {
    forall k :: 0 <= k < |s| ==> IsDigit(s[k])
  }

  function DigitChar(d: nat): char
    requires d < 10
  {
    (d + '0' as int) as char
  }

  /** The decimal digits of a natural number, without leading zeros. */
  function NatDigits(n: nat): string
    decreases n
  {
    if n < 10 then [DigitChar(n)] else NatDigits(n / 10) + [DigitChar(n % 10)]
  }

  /** `String.valueOf(int)`: the decimal text, with a leading minus sign for negative numbers. */
  function DecimalString(n: int): string
  {
    if n < 0 then "-" + NatDigits(-n) else NatDigits(n)
  }

  /** The value of a string of decimal digits. */
  function DigitsValue(s: string): nat
    requires AllDigits(s)
    decreases |s|
  {
    if s == "" then 0 else 10 * DigitsValue(s[..|s| - 1]) + (s[|s| - 1] as int - '0' as int)
  }

  /** Reads a decimal integer, as a poller would read a count back. */
  function ParseDecimal(s: string): Option<int>
  {
    if |s| > 1 && s[0] == '-' && AllDigits(s[1..]) then Some(-(DigitsValue(s[1..]) as int))
    else if |s| > 0 && AllDigits(s) then Some(DigitsValue(s))
    else None
  }

  lemma {:induction false} NatDigitsValue(n: nat)
    ensures NatDigits(n) != "" && AllDigits(NatDigits(n))
    ensures DigitsValue(NatDigits(n)) == n
    decreases n
  {
    if n >= 10 {
      NatDigitsValue(n / 10);
      var s := NatDigits(n);
      assert s[..|s| - 1] == NatDigits(n / 10);
    }
  }

  /** The rendering of a count is read back as that count. */
  lemma DecimalRoundTrip(n: int)
    ensures ParseDecimal(DecimalString(n)) == Some(n)
  {
    if n < 0 {
      NatDigitsValue(-n);
      assert DecimalString(n)[1..] == NatDigits(-n);
    } else {
      NatDigitsValue(n);
    }
  }
}
