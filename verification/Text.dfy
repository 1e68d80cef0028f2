/** Decimal numerals and list-to-text helpers used when statements and cache keys are written. */
module Text {

  function Digit(d: nat): (c: char)
    requires d < 10
    ensures '0' <= c <= '9'
  {
    ('0' as int + d) as char
  }

  function Digits(n: nat): (s: string)
    ensures s != ""
    ensures forall i :: 0 <= i < |s| ==> '0' <= s[i] <= '9'
  {
    if n < 10 then [Digit(n)] else Digits(n / 10) + [Digit(n % 10)]
  }

  predicate IsNumeral(c: char) {
    c == '-' || '0' <= c <= '9'
  }

  /** strconv.Itoa. */
  function Itoa(n: int): (s: string)
    ensures s != ""
    ensures forall i :: 0 <= i < |s| ==> IsNumeral(s[i])
  {
    if n < 0 then "-" + Digits(-n) else Digits(n)
  }

  /** The number that decimal digits denote, the first weighing most. */
  function Decimal(s: string): int {
    if s == "" then 0 else 10 * Decimal(s[..|s| - 1]) + (s[|s| - 1] as int - '0' as int)
  }

  /** The number that a numeral denotes. */
  function NumeralValue(s: string): int {
    if s != "" && s[0] == '-' then -Decimal(s[1..]) else Decimal(s)
  }

  lemma {:induction false} DigitsDenote(n: nat)
    ensures Decimal(Digits(n)) == n
  {
    var s := Digits(n);
    if n < 10 {
      assert s[..|s| - 1] == "";
    } else {
      DigitsDenote(n / 10);
      assert s[..|s| - 1] == Digits(n / 10);
    }
  }

  /** A printed number denotes itself. */
  lemma ItoaDenotes(n: int)
    ensures NumeralValue(Itoa(n)) == n
  {
    if n < 0 {
      DigitsDenote(-n);
      assert Itoa(n)[1..] == Digits(-n);
    } else {
      DigitsDenote(n);
      assert Itoa(n)[0] != '-';
    }
  }

  lemma {:induction false} DigitsInjective(m: nat, n: nat)
    requires Digits(m) == Digits(n)
    ensures m == n
  {
    var s, t := Digits(m), Digits(n);
    assert s[|s| - 1] == Digit(m % 10) && t[|t| - 1] == Digit(n % 10);
    if m >= 10 && n >= 10 {
      assert s[..|s| - 1] == Digits(m / 10);
      assert t[..|t| - 1] == Digits(n / 10);
      DigitsInjective(m / 10, n / 10);
    }
  }

  lemma ItoaInjective(m: int, n: int)
    requires Itoa(m) == Itoa(n)
    ensures m == n
  {
    assert Itoa(m)[0] == '-' <==> m < 0;
    assert Itoa(n)[0] == '-' <==> n < 0;
    if m < 0 {
      assert Itoa(m)[1..] == Digits(-m) && Itoa(n)[1..] == Digits(-n);
      DigitsInjective(-m, -n);
    } else {
      DigitsInjective(m, n);
    }
  }

  /** How many characters at the start of s belong to a numeral. */
  function NumeralLength(s: string): (k: nat)
    ensures k <= |s|
  {
    if s == "" || !IsNumeral(s[0]) then 0 else 1 + NumeralLength(s[1..])
  }

  lemma {:induction false} NumeralLengthOf(s: string, x: string)
    requires forall i :: 0 <= i < |s| ==> IsNumeral(s[i])
    requires x == "" || !IsNumeral(x[0])
    ensures NumeralLength(s + x) == |s|
  {
    if s == "" {
      assert s + x == x;
    } else {
      assert (s + x)[1..] == s[1..] + x;
      NumeralLengthOf(s[1..], x);
    }
  }

  /** A numeral is split off the text that follows it, as long as that text does not start with one. */
  lemma ItoaDecodes(m: int, x: string, n: int, y: string)
    requires Itoa(m) + x == Itoa(n) + y
    requires x == "" || !IsNumeral(x[0])
    requires y == "" || !IsNumeral(y[0])
    ensures m == n && x == y
  {
    NumeralLengthOf(Itoa(m), x);
    NumeralLengthOf(Itoa(n), y);
    SplitEqual(Itoa(m), x, Itoa(n), y);
    ItoaInjective(m, n);
  }

  lemma SplitEqual(s: string, x: string, t: string, y: string)
    requires s + x == t + y
    requires |s| == |t|
    ensures s == t && x == y
  {
    assert s == (s + x)[..|s|] && t == (t + y)[..|t|];
    assert x == (s + x)[|s|..] && y == (t + y)[|t|..];
  }

  function Concat(parts: seq<string>): string {
    if parts == [] then "" else parts[0] + Concat(parts[1..])
  }

  lemma {:induction false} ConcatSnoc(parts: seq<string>, last: string)
    ensures Concat(parts + [last]) == Concat(parts) + last
  {
    if parts == [] {
      assert [last][1..] == [];
    } else {
      assert (parts + [last])[1..] == parts[1..] + [last];
      ConcatSnoc(parts[1..], last);
    }
  }

  /** strings.Join. */
  function Join(parts: seq<string>, sep: string): string {
    if parts == [] then ""
    else if |parts| == 1 then parts[0]
    else parts[0] + sep + Join(parts[1..], sep)
  }

  lemma {:induction false} JoinSnoc(parts: seq<string>, sep: string, last: string)
    requires parts != []
    ensures Join(parts + [last], sep) == Join(parts, sep) + sep + last
  {
    if |parts| == 1 {
      assert (parts + [last])[1..] == [last];
    } else {
      assert (parts + [last])[1..] == parts[1..] + [last];
      JoinSnoc(parts[1..], sep, last);
    }
  }
}
