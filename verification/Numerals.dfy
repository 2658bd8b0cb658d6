/** Number formatting: what the two `itoa` and `ptoa` write, and exactly when reading it back gives the number. */
module Numerals {
  import opened Words

  const INT_MIN := -0x8000_0000

  type i32 = x: int | -0x8000_0000 <= x < 0x8000_0000

  /** C's division and remainder round toward zero. */
  function Quot(a: int, b: int): int
    requires b > 0
  {
    if a >= 0 then a / b else -(-a / b)
  }

  function Rem(a: int, b: int): (r: int)
    requires b > 0
    ensures a == b * Quot(a, b) + r && -b < r < b && (a >= 0 ==> r >= 0) && (a <= 0 ==> r <= 0)
  {
    if a >= 0 then a % b else -(-a % b)
  }

  /** `v = -v` on a 32-bit int: the smallest value is its own negation. */
  function Negate(v: i32): i32 {
    if v == INT_MIN then v else -v
  }

  function Digit(d: int): char
    requires -36 < d < 36
  {
    (if d < 10 then '0' as int + d else 'a' as int + d - 10) as char
  }

  function Abs(t: int): nat {
    if t < 0 then -t else t
  }

  /** The digits of a number, least significant first; zero has one digit. */
  function Digits(t: int, base: nat): (s: string)
    requires 2 <= base <= 36
    ensures s != ""
    decreases Abs(t)
  {
    QuotSmaller(t, base);
    [Digit(Rem(t, base))] + (if Quot(t, base) == 0 then "" else Digits(Quot(t, base), base))
  }

  lemma QuotSmaller(t: int, base: nat)
    requires base >= 2
    ensures Quot(t, base) != 0 ==> Abs(Quot(t, base)) < Abs(t)
    ensures t >= 0 ==> Quot(t, base) >= 0
    ensures t <= 0 ==> Quot(t, base) <= 0
  {
    DivSmaller(Abs(t), base, Abs(t) / base, Abs(t) % base);
  }

  lemma DivSmaller(a: nat, base: nat, q: int, r: int)
    requires base >= 2 && a == base * q + r && 0 <= r < base
    ensures 0 <= q && (q > 0 ==> q < a)
  {}

  function Reverse(s: string): (r: string)
    ensures |r| == |s|
  {
    if s == "" then "" else Reverse(s[1..]) + [s[0]]
  }

  /** The magnitude and sign marker the code works with. */
  predicate Signed(v: i32, base: nat) {
    v < 0 && base == 10
  }

  function Magnitude(v: i32, base: nat): i32 {
    if Signed(v, base) then Negate(v) else v
  }

  /** What is in the buffer before it is reversed. */
  function Backwards(v: i32, base: nat): string
    requires 2 <= base <= 36
  {
    Digits(Magnitude(v, base), base) + (if Signed(v, base) then "-" else "")
  }

  /** The text of a number. */
  function Text(v: i32, base: nat): string
    requires 2 <= base <= 36
  {
    Reverse(Backwards(v, base))
  }

  /** The text of a pointer. */
  function PointerText(p: u32): string {
    "0x" + Reverse(Digits(p, 16))
  }

  // ----- Reading numbers -----

  function DigitValue(c: char, base: nat): Option<nat>
    requires 2 <= base <= 36
  {
    var d := if '0' <= c <= '9' then c as int - '0' as int
             else if 'a' <= c <= 'z' then c as int - 'a' as int + 10
             else -1;
    if 0 <= d < base then Some(d) else None
  }

  function Horner(high: nat, base: nat, d: nat): nat {
    MulMonotone(base, 0, high);
    high * base + d
  }

  function ReadDigits(s: string, base: nat): Option<nat>
    requires 2 <= base <= 36
    decreases |s|
  {
    if s == "" then None
    else
      var n := |s| - 1;
      match (DigitValue(s[n], base), if n == 0 then Some(0) else ReadDigits(s[..n], base))
      case (Some(d), Some(high)) => Some(Horner(high, base, d))
      case _ => None
  }

  function Negated(n: Option<int>): Option<int> {
    match n
    case Some(x) => Some(-x)
    case None => None
  }

  /** Read an optional minus sign and digits. */
  function Read(s: string, base: nat): Option<int>
    requires 2 <= base <= 36
  {
    if s != "" && s[0] == '-' then
      Negated(ReadDigits(s[1..], base))
    else
      ReadDigits(s, base)
  }

  // ----- Round trip -----

  lemma DigitReads(d: int, base: nat)
    requires 2 <= base <= 36 && 0 <= d < base
    ensures DigitValue(Digit(d), base) == Some(d) && Digit(d) != '-'
  {}

  /** A digit that came out negative is no digit. */
  lemma NegativeDigit(d: int, base: nat)
    requires 2 <= base <= 36 && d <= 0 && 0 < base + d
    ensures d < 0 ==> DigitValue(Digit(d), base) == None
    ensures d == 0 ==> DigitValue(Digit(d), base) == Some(0)
  {}

  lemma {:induction false} DigitsRead(t: nat, base: nat)
    requires 2 <= base <= 36
    ensures ReadDigits(Reverse(Digits(t, base)), base) == Some(t)
    ensures Reverse(Digits(t, base))[0] != '-'
    decreases t
  {
    var q, r := Quot(t, base), Rem(t, base);
    QuotSmaller(t, base);
    DigitReads(r, base);
    DigitsUnfold(t, base);
    if q == 0 {
      ReadLast("", Digit(r), base);
    } else {
      DigitsRead(q, base);
      ReadLast(Reverse(Digits(q, base)), Digit(r), base);
    }
  }

  /** The text of the digits ends in the last digit. */
  lemma DigitsUnfold(t: int, base: nat)
    requires 2 <= base <= 36
    ensures Reverse(Digits(t, base)) ==
      (if Quot(t, base) == 0 then "" else Reverse(Digits(Quot(t, base), base))) + [Digit(Rem(t, base))]
  {}

  /** Reading one more digit. */
  lemma ReadLast(s: string, c: char, base: nat)
    requires 2 <= base <= 36 && DigitValue(c, base).Some?
    requires s == "" || ReadDigits(s, base).Some?
    ensures ReadDigits(s + [c], base) ==
      Some(Horner(if s == "" then 0 else ReadDigits(s, base).value, base, DigitValue(c, base).value))
  {}

  /** The first digit of a negative number is no digit, and the others read as nothing but zeros. */
  lemma {:induction false} NegativeDigits(t: int, base: nat)
    requires 2 <= base <= 36 && t < 0
    ensures var s := Reverse(Digits(t, base));
      && DigitValue(s[0], base) == None
      && (forall i :: 0 <= i < |s| ==> DigitValue(s[i], base) != None ==> DigitValue(s[i], base) == Some(0))
    decreases Abs(t)
  {
    QuotSmaller(t, base);
    NegativeDigit(Rem(t, base), base);
    DigitsUnfold(t, base);
    if Quot(t, base) != 0 { NegativeDigits(Quot(t, base), base); }
  }

  lemma {:induction false} BadFirstDigit(s: string, base: nat)
    requires 2 <= base <= 36 && s != "" && DigitValue(s[0], base) == None
    ensures ReadDigits(s, base) == None
    decreases |s|
  {
    if |s| > 1 { BadFirstDigit(s[..|s| - 1], base); }
  }

  lemma {:induction false} ZerosRead(s: string, base: nat)
    requires 2 <= base <= 36
    requires forall i :: 0 <= i < |s| ==> DigitValue(s[i], base) != None ==> DigitValue(s[i], base) == Some(0)
    ensures ReadDigits(s, base) == None || ReadDigits(s, base) == Some(0)
    decreases |s|
  {
    if |s| > 1 { ZerosRead(s[..|s| - 1], base); }
  }

  lemma ReverseLast(s: string, c: char)
    ensures Reverse(s + [c]) == [c] + Reverse(s)
    decreases |s|
  {
    if s == "" {
      assert s + [c] == [c];
    } else {
      assert (s + [c])[1..] == s[1..] + [c];
      ReverseLast(s[1..], c);
    }
  }

  /** What is printed for a negative number in another base than 10: as many characters as its magnitude has
      digits, each as far below '0' as the digit is above. */
  lemma {:induction false} NegativeText(t: int, base: nat, k: nat)
    requires 2 <= base <= 36 && t > 0
    ensures |Digits(-t, base)| == |Digits(t, base)|
    ensures k < |Digits(t, base)| ==> Digits(-t, base)[k] as int == '0' as int - DigitOf(t, base, k)
    decreases t
  {
    QuotSmaller(t, base);
    assert Quot(-t, base) == -Quot(t, base) && Rem(-t, base) == -Rem(t, base);
    if Quot(t, base) != 0 {
      NegativeText(Quot(t, base), base, if k > 0 then k - 1 else 0);
    }
  }

  /** Digit k of a number, counted from the right. */
  function DigitOf(t: int, base: nat, k: nat): int
    requires base >= 2
    decreases k
  {
    if k == 0 then Rem(t, base) else DigitOf(Quot(t, base), base, k - 1)
  }

  /** The text of a number reads back as the number exactly for the numbers that are not negative and, in
      base 10, for every negative one but the smallest. */
  lemma ReadsBackIff(v: i32, base: nat)
    requires 2 <= base <= 36
    ensures Read(Text(v, base), base) == Some(v) <==> v >= 0 || (base == 10 && v > INT_MIN)
  {
    hide Digits, DigitValue, ReadDigits;
    var s := Text(v, base);
    if v >= 0 {
      assert Backwards(v, base) == Digits(v, base);
      DigitsRead(v, base);
    } else if base == 10 {
      ReverseLast(Digits(Negate(v), base), '-');
      assert s[1..] == Reverse(Digits(Negate(v), base));
      NegativeDecimal(v, s[1..]);
    } else {
      assert Backwards(v, base) == Digits(v, base);
      NegativeDigits(v, base);
      BadFirstDigit(s, base);
      ZerosRead(s[1..], base);
    }
  }

  lemma NegativeDecimal(v: i32, s: string)
    requires v < 0 && s == Reverse(Digits(Negate(v), 10))
    ensures ReadDigits(s, 10) == if v > INT_MIN then Some(-v) else None
  {
    hide Digits, DigitValue, ReadDigits;
    if v > INT_MIN {
      DigitsRead(-v, 10);
    } else {
      NegativeDigits(v, 10);
      BadFirstDigit(s, 10);
    }
  }

  /** A negative number of two hexadecimal digits prints as two characters, both below '1'. */
  lemma TwoDigits(v: i32, high: int, low: int)
    requires v == 16 * high + low && -16 < high < 0 && -16 < low <= 0
    ensures Text(v, 16) == [Digit(high), Digit(low)]
  {
    hide Digits, Reverse;
    DigitsUnfold(v, 16);
    DigitsUnfold(high, 16);
    assert Backwards(v, 16) == Digits(v, 16);
  }

  lemma MinusZeroReads(s: string)
    requires s == ['-', '0']
    ensures Read(s, 16) == Some(0)
  {
    ReadLast("", '0', 16);
    assert s[1..] == "" + ['0'];
  }

  /** "%x" of -48 prints "-0", which reads as 0. */
  lemma NegativeHexIsWrong()
    ensures Text(-48, 16) == "-0" && Read(Text(-48, 16), 16) == Some(0)
  {
    hide Text, Read;
    TwoDigits(-48, -3, 0);
    MinusZeroReads(Text(-48, 16));
  }

  /** A pointer's text is "0x" and digits that read back as the pointer. */
  lemma PointerReadsBack(p: u32)
    ensures PointerText(p)[..2] == "0x" && Read(PointerText(p)[2..], 16) == Some(p)
    ensures |PointerText(p)| <= 10
  {
    DigitsRead(p, 16);
    assert PointerText(p)[2..] == Reverse(Digits(p, 16));
    PowersOfBase();
    DigitCount(p, 16, 8);
  }

  // ----- Lengths -----

  function Power(base: nat, k: nat): nat {
    if k == 0 then 1 else base * Power(base, k - 1)
  }

  lemma PowersOfBase()
    ensures Power(2, 32) == 0x1_0000_0000 && Power(10, 9) == 1_000_000_000 && Power(10, 10) == 10_000_000_000
    ensures Power(16, 8) == 0x1_0000_0000
  {
    assert Power(2, 8) == 256;
    assert Power(2, 16) == 65536;
    assert Power(2, 24) == 0x100_0000;
  }

  /** A number below base^k has at most k digits, and one from base^k on has more. */
  lemma {:induction false} DigitCount(t: int, base: nat, k: nat)
    requires 2 <= base <= 36 && k > 0
    ensures Abs(t) < Power(base, k) <==> |Digits(t, base)| <= k
    decreases k
  {
    QuotSmaller(t, base);
    var q := Quot(t, base);
    assert Abs(q) == Abs(t) / base;
    DivBelow(Abs(t), base, Power(base, k - 1));
    if k == 1 {
      assert Power(base, 0) == 1 && Power(base, 1) == base;
    } else if q == 0 {
      PowerPositive(base, k - 1);
    } else {
      DigitCount(q, base, k - 1);
    }
  }

  /** A text has as many digits as its number needs and no more, whatever the base: at most k exactly if the
      magnitude is below base^k.  The sign of a decimal comes on top. */
  lemma TextLength(v: i32, base: nat, k: nat)
    requires 2 <= base <= 36 && k > 0
    ensures |Text(v, base)| <= k + (if v < 0 && base == 10 then 1 else 0) <==> Abs(v) < Power(base, k)
  {
    DigitCount(Magnitude(v, base), base, k);
  }

  /** So has a pointer, behind its "0x". */
  lemma PointerLength(p: u32, k: nat)
    requires k > 0
    ensures |PointerText(p)| <= 2 + k <==> p < Power(16, k)
  {
    DigitCount(p, 16, k);
  }

  lemma PowerPositive(base: nat, k: nat)
    requires base > 0
    ensures Power(base, k) > 0
  {}

  lemma DivBelow(a: nat, b: nat, p: nat)
    requires b > 0
    ensures a / b < p <==> a < b * p
  {
    var q, r := a / b, a % b;
    assert a == b * q + r;
    if q < p {
      assert b * (q + 1) <= b * p;
    } else {
      assert b * p <= b * q;
    }
  }

  /** In base 10 a text with its terminator always fits 12 bytes, and fills them exactly for the ten-digit
      negative numbers. */
  lemma DecimalFits(v: i32)
    ensures |Text(v, 10)| + 1 <= 12
    ensures |Text(v, 10)| + 1 == 12 <==> v <= -1_000_000_000
  {
    var m := Magnitude(v, 10);
    PowersOfBase();
    DigitCount(m, 10, 9);
    DigitCount(m, 10, 10);
  }

  /** In every base the digits fit the 32-byte temporary. */
  lemma DigitsFitTemporary(v: i32, base: nat)
    requires 2 <= base <= 36
    ensures |Backwards(v, base)| <= 32
  {
    var m := Magnitude(v, base);
    PowersOfBase();
    if base == 10 {
      DigitCount(m, 10, 10);
    } else {
      PowerMonotone(2, base, 32);
      DigitCount(m, base, 32);
    }
  }

  lemma {:induction false} PowerMonotone(a: nat, b: nat, k: nat)
    requires a <= b
    ensures Power(a, k) <= Power(b, k)
  {
    if k > 0 {
      PowerMonotone(a, b, k - 1);
      MulMonotone(Power(a, k - 1), a, b);
      MulMonotone(b, Power(a, k - 1), Power(b, k - 1));
    }
  }
}
