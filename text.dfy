/** The string helpers the regex compiler relies on: `join` on a slice of
    strings, and the decimal rendering that `format!("{}", n)` gives an
    unsigned integer, together with the parser that undoes it; and two
    facts about sequences used throughout. */
module Text {

  lemma ConcatAssociative<T>(a: seq<T>, b: seq<T>, c: seq<T>)
    ensures a + (b + c) == (a + b) + c
  {
  }

  /** `xs.iter().map(f)`, collected. */
  function Map<A, B>(f: A -> B, xs: seq<A>): (r: seq<B>)
    ensures |r| == |xs|
    ensures forall i :: 0 <= i < |xs| ==> r[i] == f(xs[i])
  {
    seq(|xs|, i requires 0 <= i < |xs| => f(xs[i]))
  }

  lemma MapCons<A, B>(f: A -> B, x: A, xs: seq<A>)
    ensures Map(f, [x] + xs) == [f(x)] + Map(f, xs)
  {
    var l, r := Map(f, [x] + xs), [f(x)] + Map(f, xs);
    forall i | 0 <= i < |l|
      ensures l[i] == r[i]
    {
      if i > 0 {
        assert ([x] + xs)[i] == xs[i - 1];
      }
    }
  }

  /** `parts.join(sep)`: the parts with `sep` between each two neighbours. */
  function Join(sep: string, parts: seq<string>): string
    decreases |parts|
  {
    if |parts| == 0 then ""
    else if |parts| == 1 then parts[0]
    else parts[0] + sep + Join(sep, parts[1..])
  }

  /** Joining two non-empty lists puts exactly one separator at the seam. */
  lemma {:induction false} JoinAppend(sep: string, a: seq<string>, b: seq<string>)
    requires |a| > 0 && |b| > 0
    ensures Join(sep, a + b) == Join(sep, a) + sep + Join(sep, b)
    decreases |a|
  {
    if |a| == 1 {
      assert (a + b)[1..] == b;
    } else {
      assert (a + b)[1..] == a[1..] + b;
      JoinAppend(sep, a[1..], b);
    }
  }

  /** With the empty separator, `join` is a monoid homomorphism: concatenation. */
  lemma JoinEmptySeparatorAppend(a: seq<string>, b: seq<string>)
    ensures Join("", a + b) == Join("", a) + Join("", b)
  {
    if |a| == 0 {
      assert a + b == b;
    } else if |b| == 0 {
      assert a + b == a;
    } else {
      JoinAppend("", a, b);
    }
  }

  predicate IsDigit(c: char) {
    '0' <= c <= '9'
  }

  function DigitChar(d: nat): (c: char)
    requires d < 10
    ensures IsDigit(c) && DigitValue(c) == d
  {
    (d + '0' as int) as char
  }

  function DigitValue(c: char): nat
    requires IsDigit(c)
  {
    c as int - '0' as int
  }

  predicate AllDigits(s: string) {
    forall k :: 0 <= k < |s| ==> IsDigit(s[k])
  }

  /** `format!("{}", n)`: the shortest decimal numeral of `n`. */
  function Decimal(n: nat): (s: string)
    ensures |s| > 0 && AllDigits(s)
    ensures s[0] == '0' ==> n == 0 && |s| == 1
  {
    if n < 10 then [DigitChar(n)] else Decimal(n / 10) + [DigitChar(n % 10)]
  }

  /** The value of a decimal numeral, most significant digit first. */
  function ParseDecimal(s: string): nat
    requires AllDigits(s)
  {
    if |s| == 0 then 0 else 10 * ParseDecimal(s[..|s| - 1]) + DigitValue(s[|s| - 1])
  }

  /** Decimal rendering loses nothing: parsing it gives the number back. */
  lemma {:induction false} DecimalRoundTrip(n: nat)
    ensures ParseDecimal(Decimal(n)) == n
  {
    if n >= 10 {
      var s := Decimal(n);
      assert s[..|s| - 1] == Decimal(n / 10);
      DecimalRoundTrip(n / 10);
    }
  }

  /** The length of the longest prefix of `s` made of digits. */
  function DigitPrefix(s: string): (r: nat)
    ensures r <= |s| && AllDigits(s[..r])
    ensures r < |s| ==> !IsDigit(s[r])
  {
    if |s| > 0 && IsDigit(s[0]) then
      var r := 1 + DigitPrefix(s[1..]);
      assert s[..r] == [s[0]] + s[1..][..r - 1];
      r
    else 0
  }

  /** A numeral followed by a non-digit is read back in full. */
  lemma {:induction false} DigitPrefixOfNumeral(d: string, rest: string)
    requires AllDigits(d)
    requires |rest| > 0 ==> !IsDigit(rest[0])
    ensures DigitPrefix(d + rest) == |d|
    decreases |d|
  {
    if |d| > 0 {
      assert (d + rest)[1..] == d[1..] + rest;
      DigitPrefixOfNumeral(d[1..], rest);
    } else {
      assert d + rest == rest;
    }
  }
}
