/** The formatting loops: `itoa` of the screen printer reverses its buffer in place; `itoa` and `ptoa` of the
    serial printer fill a temporary and copy it back to front.  All write the same texts. */
module Formatting {
  import opened Words
  import opened Numerals

  lemma {:induction false} ReverseAt(s: string, k: nat)
    requires k < |s|
    ensures Reverse(s)[k] == s[|s| - 1 - k]
    decreases |s|
  {
    if k < |s| - 1 { ReverseAt(s[1..], k); }
  }

  /** A string with the elements of another in opposite order is its reverse. */
  lemma IsReverse(s: string, r: string)
    requires |r| == |s| && forall k :: 0 <= k < |s| ==> r[k] == s[|s| - 1 - k]
    ensures r == Reverse(s)
  {
    forall k | 0 <= k < |s| ensures r[k] == Reverse(s)[k] { ReverseAt(s, k); }
  }

  /** `base` digits are written while some are left: the text so far, and what the rest would add. */
  lemma DigitsStep(done: string, t: int, base: nat)
    requires 2 <= base <= 36
    ensures done + Digits(t, base) ==
      (done + [Digit(Rem(t, base))]) + (if Quot(t, base) == 0 then "" else Digits(Quot(t, base), base))
  {}

  /** Swap the ends of buf[..n] towards the middle. */
  method ReverseInPlace(buf: array<char>, n: nat)
    requires n <= buf.Length
    modifies buf
    ensures buf[..n] == Reverse(old(buf[..n])) && buf[n..] == old(buf[n..])
  {
    var start, end := 0, n - 1;
    while start < end
      invariant 0 <= start && start + end == n - 1 && start <= end + 1
      invariant forall k :: 0 <= k < start ==> buf[k] == old(buf[n - 1 - k]) && buf[n - 1 - k] == old(buf[k])
      invariant forall k :: start <= k <= end ==> buf[k] == old(buf[k])
      invariant buf[n..] == old(buf[n..])
    {
      var t := buf[start];
      buf[start] := buf[end];
      buf[end] := t;
      start, end := start + 1, end - 1;
    }
    IsReverse(old(buf[..n]), buf[..n]);
  }

  /** The digit loop of the screen printer: do ... while (temp). */
  method WriteDigits(val: int, buf: array<char>, base: nat) returns (n: nat)
    requires 2 <= base <= 36 && |Digits(val, base)| < buf.Length
    modifies buf
    ensures n == |Digits(val, base)| && buf[..n] == Digits(val, base) && buf[n..] == old(buf[n..])
  {
    var temp := val;
    n := 0;
    while true
      invariant n + |Digits(temp, base)| < buf.Length
      invariant buf[..n] + Digits(temp, base) == Digits(val, base)
      invariant buf[n..] == old(buf[n..])
      decreases Abs(temp)
    {
      DigitsStep(buf[..n], temp, base);
      QuotSmaller(temp, base);
      ghost var before := buf[..n];
      buf[n] := Digit(Rem(temp, base));
      n := n + 1;
      assert buf[..n] == before + [Digit(Rem(temp, base))];
      temp := Quot(temp, base);
      if temp == 0 { break; }
    }
  }

  /** `itoa` of lib/stdio.c. */
  method Itoa(val: i32, buf: array<char>, base: nat)
    requires 2 <= base <= 36 && |Text(val, base)| < buf.Length
    modifies buf
    ensures buf[..|Text(val, base)| + 1] == Text(val, base) + ['\0']
    ensures buf[|Text(val, base)| + 1..] == old(buf[|Text(val, base)| + 1..])
  {
    hide Digits, Reverse;
    var v, sign := val, false;
    if v < 0 && base == 10 {
      sign := true;
      v := Negate(v);
    }
    var n := WriteDigits(v, buf, base);
    if sign {
      buf[n] := '-';
      n := n + 1;
    }
    buf[n] := '\0';
    assert buf[..n] == Backwards(val, base);
    assert n == |Text(val, base)|;
    ghost var rest := buf[n..];
    assert rest == ['\0'] + old(buf[n + 1..]);
    ReverseInPlace(buf, n);
    assert buf[..n] == Text(val, base) && buf[n..] == rest;
    assert buf[n] == buf[n..][0] && buf[n + 1..] == buf[n..][1..];
    assert buf[..n + 1] == buf[..n] + [buf[n]];
  }

  /** The digit loop shared by the two serial printers: while (v != 0), into a 32-byte temporary. */
  method FillTemporary(val: int, temp: array<char>, base: nat) returns (i: nat)
    requires 2 <= base <= 36 && val != 0 && |Digits(val, base)| <= temp.Length
    modifies temp
    ensures i == |Digits(val, base)| && temp[..i] == Digits(val, base)
  {
    var v := val;
    i := 0;
    while v != 0
      invariant i + (if v == 0 then 0 else |Digits(v, base)|) <= temp.Length
      invariant temp[..i] + (if v == 0 then "" else Digits(v, base)) == Digits(val, base)
      decreases Abs(v)
    {
      DigitsStep(temp[..i], v, base);
      QuotSmaller(v, base);
      ghost var before := temp[..i];
      temp[i] := Digit(Rem(v, base));
      i := i + 1;
      assert temp[..i] == before + [Digit(Rem(v, base))];
      v := Quot(v, base);
    }
  }

  /** Copy temp[..i] back to front to buf[at..], and terminate. */
  method CopyBack(temp: array<char>, i: nat, buf: array<char>, at: nat)
    requires temp != buf && i <= temp.Length && at + i < buf.Length
    modifies buf
    ensures buf[at..at + i] == Reverse(temp[..i]) && buf[at + i] == '\0'
    ensures buf[..at] == old(buf[..at]) && buf[at + i + 1..] == old(buf[at + i + 1..])
  {
    for j := 0 to i
      invariant forall k :: at <= k < at + j ==> buf[k] == temp[i - (k - at) - 1]
      invariant buf[..at] == old(buf[..at]) && buf[at + i + 1..] == old(buf[at + i + 1..])
    {
      buf[at + j] := temp[i - j - 1];
    }
    buf[at + i] := '\0';
    IsReverse(temp[..i], buf[at..at + i]);
  }

  /** `itoa` of lib/serial.c: the same text as the other one, for every number and base. */
  method SerialItoa(val: i32, buf: array<char>, base: nat)
    requires 2 <= base <= 36 && |Text(val, base)| < buf.Length
    modifies buf
    ensures buf[..|Text(val, base)| + 1] == Text(val, base) + ['\0']
    ensures buf[|Text(val, base)| + 1..] == old(buf[|Text(val, base)| + 1..])
  {
    hide Digits, Reverse;
    if val == 0 {
      ZeroText(base);
      buf[0], buf[1] := '0', '\0';
      return;
    }
    var temp := new char[32];
    var v, negative := val, false;
    if v < 0 && base == 10 {
      negative := true;
      v := Negate(v);
    }
    DigitsFitTemporary(val, base);
    var i := FillTemporary(v, temp, base);
    if negative {
      temp[i] := '-';
      i := i + 1;
    }
    assert temp[..i] == Backwards(val, base);
    CopyBack(temp, i, buf, 0);
    assert buf[..i + 1] == buf[0..0 + i] + [buf[0 + i]];
  }

  lemma ZeroText(base: nat)
    requires 2 <= base <= 36
    ensures Text(0, base) == "0" && Reverse(Digits(0, base)) == "0"
  {}

  /** `ptoa` of lib/serial.c. */
  method Ptoa(ptr: u32, buffer: array<char>)
    requires |PointerText(ptr)| < buffer.Length
    modifies buffer
    ensures buffer[..|PointerText(ptr)| + 1] == PointerText(ptr) + ['\0']
  {
    if ptr == 0 {
      ZeroText(16);
      buffer[0], buffer[1], buffer[2], buffer[3] := '0', 'x', '0', '\0';
      return;
    }
    var temp := new char[32];
    PointerReadsBack(ptr);
    var i := FillTemporary(ptr, temp, 16);
    buffer[0], buffer[1] := '0', 'x';
    CopyBack(temp, i, buffer, 2);
    assert buffer[..2] == "0x";
    assert buffer[..2 + i + 1] == buffer[..2] + buffer[2..2 + i] + [buffer[2 + i]];
  }
}
