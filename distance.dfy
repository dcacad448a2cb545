/** The distance string of a violation record and the order in which the
    closest-violation reduction compares those strings. */
module Distance {

  /** The character of the decimal digit `d`. */
  function DigitChar(d: nat): char
    requires d < 10
  {
    (48 + d) as char
  }

  /** Decimal notation of `n` without leading zeros. */
  function Digits(n: nat): (s: string)
    ensures |s| > 0
    ensures forall i :: 0 <= i < |s| ==> '0' <= s[i] <= '9'
  {
    if n < 10 then [DigitChar(n)] else Digits(n / 10) + [DigitChar(n % 10)]
  }

  /** The number a string of decimal digits denotes. */
  function DecimalValue(s: string): nat
    requires forall i :: 0 <= i < |s| ==> '0' <= s[i] <= '9'
  {
    if s == [] then 0 else DecimalValue(s[..|s| - 1]) * 10 + (s[|s| - 1] as int - 48)
  }

  lemma {:induction false} DigitsRoundTrip(n: nat)
    ensures DecimalValue(Digits(n)) == n
  {
    if n >= 10 {
      var s := Digits(n);
      assert s[..|s| - 1] == Digits(n / 10);
      DigitsRoundTrip(n / 10);
    }
  }

  /** `distToNest` of a record: `toFixed(2)` of a distance of `h` hundredths
      of a metre, e.g. 950 renders as "9.50" and 1000 as "10.00". */
  function Fixed2(h: nat): string
  {
    Digits(h / 100) + ['.', DigitChar(h / 10 % 10), DigitChar(h % 10)]
  }

  /** A distance is its whole metres, tenths and hundredths. */
  lemma Fixed2Parts(x: nat)
    ensures x == 100 * (x / 100) + 10 * (x / 10 % 10) + x % 10
  {
    assert x / 10 == 10 * (x / 100) + x / 10 % 10;
  }

  /** Two distances render alike only when they are equal. */
  lemma Fixed2Injective(x: nat, y: nat)
    requires Fixed2(x) == Fixed2(y)
    ensures x == y
  {
    var sx, sy := Fixed2(x), Fixed2(y);
    var dx, dy := Digits(x / 100), Digits(y / 100);
    assert |dx| == |dy|;
    assert dx == sx[..|dx|] && dy == sy[..|dy|];
    DigitsRoundTrip(x / 100);
    DigitsRoundTrip(y / 100);
    assert sx[|sx| - 2] == DigitChar(x / 10 % 10) && sy[|sy| - 2] == DigitChar(y / 10 % 10);
    assert sx[|sx| - 1] == DigitChar(x % 10) && sy[|sy| - 1] == DigitChar(y % 10);
    Fixed2Parts(x);
    Fixed2Parts(y);
  }

  /** JavaScript's `<` on two strings: code-unit by code-unit, a proper prefix
      being smaller. */
  function StrLess(a: string, b: string): bool
  {
    if a == [] then b != []
    else if b == [] then false
    else if a[0] != b[0] then a[0] < b[0]
    else StrLess(a[1..], b[1..])
  }

  lemma {:induction false} StrLessIrreflexive(a: string)
    ensures !StrLess(a, a)
  {
    if a != [] {
      StrLessIrreflexive(a[1..]);
    }
  }

  lemma {:induction false} StrLessTransitive(a: string, b: string, c: string)
    requires StrLess(a, b) && StrLess(b, c)
    ensures StrLess(a, c)
  {
    if a != [] && b != [] && c != [] && a[0] == b[0] && b[0] == c[0] {
      StrLessTransitive(a[1..], b[1..], c[1..]);
    }
  }

  lemma {:induction false} StrLessTotal(a: string, b: string)
    requires a != b
    ensures StrLess(a, b) || StrLess(b, a)
  {
    if a != [] && b != [] && a[0] == b[0] {
      assert a == [a[0]] + a[1..] && b == [b[0]] + b[1..];
      StrLessTotal(a[1..], b[1..]);
    }
  }

  /** How two distances are compared: `AsWritten` is the source's comparison of
      the `distToNest` strings, `Numeric` the comparison of the distances. */
  datatype DistOrder = AsWritten | Numeric

  /** `Less(o, x, y)`: distance `x` counts as strictly closer than `y` under `o`. */
  function Less(o: DistOrder, x: nat, y: nat): bool
  {
    match o
    case AsWritten => StrLess(Fixed2(x), Fixed2(y))
    case Numeric => x < y
  }

  lemma LessIrreflexive(o: DistOrder, x: nat)
    ensures !Less(o, x, x)
  {
    if o == AsWritten {
      StrLessIrreflexive(Fixed2(x));
    }
  }

  lemma LessTransitive(o: DistOrder, x: nat, y: nat, z: nat)
    requires Less(o, x, y) && Less(o, y, z)
    ensures Less(o, x, z)
  {
    if o == AsWritten {
      StrLessTransitive(Fixed2(x), Fixed2(y), Fixed2(z));
    }
  }

  lemma LessTotal(o: DistOrder, x: nat, y: nat)
    requires x != y
    ensures Less(o, x, y) || Less(o, y, x)
  {
    if o == AsWritten {
      if Fixed2(x) == Fixed2(y) {
        Fixed2Injective(x, y);
      }
      StrLessTotal(Fixed2(x), Fixed2(y));
    }
  }

  /** The string comparison puts 10.00 m before 9.50 m. */
  lemma AsWrittenMisordersTenMetres()
    ensures Less(AsWritten, 1000, 950) && 950 < 1000
  {
    assert Digits(10) == ['1', '0'];
    assert Fixed2(1000) == ['1', '0', '.', '0', '0'];
    assert Fixed2(950) == ['9', '.', '5', '0'];
  }
}
