/** Decimal text of non-negative integers, as JavaScript prints numbers in
    template literals and Array.join, and reads them back with Number. */
module Decimal {

  predicate IsDigit(ch: char)
  {
    '0' <= ch <= '9'
  }

  predicate AllDigits(s: string)
  {
    forall i :: 0 <= i < |s| ==> IsDigit(s[i])
  }

  function DigitChar(d: nat): (ch: char)
    requires d < 10
    ensures IsDigit(ch)
  {
    (48 + d) as char
  }

  function DigitValue(ch: char): (d: nat)
    requires IsDigit(ch)
    ensures d < 10
    ensures DigitChar(d) == ch
  {
    (ch as int - 48)
  }

  /** The shortest decimal numeral of `n`: digits only, no leading zero. */
  function NatToString(n: nat): (s: string)
    ensures |s| >= 1 && AllDigits(s)
    ensures s[0] == '0' ==> n == 0 && |s| == 1
    decreases n
  {
    if n < 10 then [DigitChar(n)] else NatToString(n / 10) + [DigitChar(n % 10)]
  }

  /** The value of a string of decimal digits (Number on such a string; the
      empty string reads as 0). */
  function DigitsToNat(s: string): nat
    requires AllDigits(s)
  {
    if |s| == 0 then 0 else DigitsToNat(s[..|s| - 1]) * 10 + DigitValue(s[|s| - 1])
  }

  /** Printing and reading back a number is the identity. */
  lemma {:induction false} DigitsOfNatToString(n: nat)
    ensures DigitsToNat(NatToString(n)) == n
    decreases n
  {
    var s := NatToString(n);
    if n < 10 {
      assert s[..0] == [];
    } else {
      DigitsOfNatToString(n / 10);
      assert s[..|s| - 1] == NatToString(n / 10);
    }
  }

  /** Distinct numbers print differently. */
  lemma NatToStringInjective(m: nat, n: nat)
    requires NatToString(m) == NatToString(n)
    ensures m == n
  {
    DigitsOfNatToString(m);
    DigitsOfNatToString(n);
  }

  /** Number of leading digit characters of `s`. */
  function LeadingDigits(s: string): (n: nat)
    ensures n <= |s|
    ensures AllDigits(s[..n])
    ensures n < |s| ==> !IsDigit(s[n])
  {
    if |s| == 0 || !IsDigit(s[0]) then 0
    else
      var k := LeadingDigits(s[1..]);
      assert s[..1 + k] == [s[0]] + s[1..][..k];
      1 + k
  }

  lemma {:induction false} LeadingDigitsOfNumeral(d: string, t: string)
    requires AllDigits(d)
    requires |t| > 0 && !IsDigit(t[0])
    ensures LeadingDigits(d + t) == |d|
    decreases |d|
  {
    if |d| == 0 {
      assert d + t == t;
    } else {
      assert (d + t)[1..] == d[1..] + t;
      LeadingDigitsOfNumeral(d[1..], t);
    }
  }
}

/** The string keys of the colour histogram: `color.map(..).join(',')` to
    build a key and `key.split(',').map(Number)` to read one back. */
module ColorKey {
  import opened Pixels
  import opened Decimal
  import opened Optional

  /** Array.prototype.join with a one-character separator. */
  function Join(parts: seq<string>, sep: char): string
  {
    if |parts| == 0 then ""
    else if |parts| == 1 then parts[0]
    else parts[0] + [sep] + Join(parts[1..], sep)
  }

  /** String.prototype.split on a one-character separator: always at least
      one part; `k` separators give `k + 1` parts. */
  function Split(s: string, sep: char): (parts: seq<string>)
    ensures |parts| >= 1
    ensures forall i :: 0 <= i < |parts| ==> sep !in parts[i]
  {
    if |s| == 0 then [""]
    else
      var rest := Split(s[1..], sep);
      if s[0] == sep then [""] + rest
      else [[s[0]] + rest[0]] + rest[1..]
  }

  lemma {:induction false} SplitAfterPlainPrefix(a: string, t: string, sep: char)
    requires sep !in a
    ensures Split(a + t, sep) == [a + Split(t, sep)[0]] + Split(t, sep)[1..]
    decreases |a|
  {
    var parts := Split(t, sep);
    if |a| == 0 {
      assert a + t == t;
      assert a + parts[0] == parts[0];
      assert [parts[0]] + parts[1..] == parts;
    } else {
      assert (a + t)[1..] == a[1..] + t;
      assert a[0] != sep;
      SplitAfterPlainPrefix(a[1..], t, sep);
      assert [a[0]] + (a[1..] + Split(t, sep)[0]) == a + Split(t, sep)[0];
    }
  }

  /** Splitting a join of separator-free parts gives the parts back. */
  lemma {:induction false} SplitJoin(parts: seq<string>, sep: char)
    requires |parts| >= 1
    requires forall i :: 0 <= i < |parts| ==> sep !in parts[i]
    ensures Split(Join(parts, sep), sep) == parts
    decreases |parts|
  {
    if |parts| == 1 {
      SplitAfterPlainPrefix(parts[0], "", sep);
      assert parts[0] + "" == parts[0];
    } else {
      var tail := Join(parts[1..], sep);
      SplitJoin(parts[1..], sep);
      assert parts[0] + [sep] + tail == parts[0] + ([sep] + tail);
      SplitAfterPlainPrefix(parts[0], [sep] + tail, sep);
      assert ([sep] + tail)[1..] == tail;
      assert Split([sep] + tail, sep) == [""] + Split(tail, sep);
      assert parts[0] + "" == parts[0];
      assert parts == [parts[0]] + parts[1..];
    }
  }

  /** Number applied to one part of a key, where every part is a string
      of decimal digits: such a string reads as its value. Other strings
      never occur as parts of a key and are left unread (None). */
  function ParseNumber(s: string): Option<nat>
  {
    if AllDigits(s) then Some(DigitsToNat(s)) else None
  }

  /** `color.join(',')` on the quantised channels. */
  function EncodeKey(c: Color): string
  {
    Join([NatToString(c.r), NatToString(c.g), NatToString(c.b)], ',')
  }

  /** `key.split(',').map(Number)`. */
  function DecodeKey(key: string): (channels: seq<Option<nat>>)
    ensures |channels| == |Split(key, ',')|
  {
    var parts := Split(key, ',');
    seq(|parts|, i requires 0 <= i < |parts| => ParseNumber(parts[i]))
  }

  lemma NumeralHasNoComma(n: nat)
    ensures ',' !in NatToString(n)
  {
  }

  /** A key reads back as the three channels it was built from. */
  lemma DecodeEncodeKey(c: Color)
    ensures DecodeKey(EncodeKey(c)) == [Some(c.r as nat), Some(c.g as nat), Some(c.b as nat)]
  {
    var parts := [NatToString(c.r), NatToString(c.g), NatToString(c.b)];
    NumeralHasNoComma(c.r);
    NumeralHasNoComma(c.g);
    NumeralHasNoComma(c.b);
    SplitJoin(parts, ',');
    DigitsOfNatToString(c.r);
    DigitsOfNatToString(c.g);
    DigitsOfNatToString(c.b);
  }

  /** Distinct colours have distinct keys, so a Map keyed by the string
      counts exactly the same buckets as one keyed by the colour. */
  lemma EncodeKeyInjective(c: Color, d: Color)
    requires EncodeKey(c) == EncodeKey(d)
    ensures c == d
  {
    DecodeEncodeKey(c);
    DecodeEncodeKey(d);
  }
}
