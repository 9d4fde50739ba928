/**
 Decimal text: printing and parsing of integers as `%d`, `strconv` and the digit
 loop of obs/context.go do it.
 */
module Decimal {
  import opened Wrappers

  const MAX_INT64: int := 0x7fff_ffff_ffff_ffff
  const MIN_INT64: int := -0x8000_0000_0000_0000
  const UINT64_RANGE: int := 0x1_0000_0000_0000_0000

  predicate IsDigit(c: char) {
    '0' <= c <= '9'
  }

  predicate AllDigits(s: string) {
    forall i | 0 <= i < |s| :: IsDigit(s[i])
  }

  function DigitChar(d: nat): char
    requires d < 10
  {
    '0' + d as char
  }

  function DigitValue(c: char): nat
    requires IsDigit(c)
  {
    (c - '0') as int
  }

  function Print(n: nat): string {
    if n < 10 then [DigitChar(n)] else Print(n / 10) + [DigitChar(n % 10)]
  }

  function Value(s: string): nat
    requires AllDigits(s)
  {
    if s == [] then 0 else 10 * Value(s[..|s| - 1]) + DigitValue(s[|s| - 1])
  }

  // Digits without a leading zero, or the single digit zero.
  predicate Canonical(s: string) {
    s != [] && AllDigits(s) && (|s| > 1 ==> s[0] != '0')
  }

  lemma {:induction false} ValueOfPrint(n: nat)
    ensures Canonical(Print(n)) && Value(Print(n)) == n
    ensures n > 0 ==> Print(n)[0] != '0'
  {
    if n >= 10 {
      ValueOfPrint(n / 10);
      assert Print(n)[..|Print(n)| - 1] == Print(n / 10);
    }
  }

  lemma PrintExtends(n: nat, c: char)
    requires n > 0 && IsDigit(c)
    ensures Print(10 * n + DigitValue(c)) == Print(n) + [c]
  {
    var v := 10 * n + DigitValue(c);
    assert v / 10 == n && v % 10 == DigitValue(c);
  }

  lemma {:induction false} PrintOfValue(s: string)
    requires Canonical(s)
    ensures Print(Value(s)) == s
    ensures s[0] != '0' ==> Value(s) > 0
  {
    var init, c := s[..|s| - 1], s[|s| - 1];
    assert s == init + [c] && Value(s) == 10 * Value(init) + DigitValue(c);
    if init == [] {
      assert Print(DigitValue(c)) == [c];
    } else {
      PrintOfValue(init);
      PrintExtends(Value(init), c);
    }
  }

  lemma PrintInjective(m: nat, n: nat)
    requires Print(m) == Print(n)
    ensures m == n
  {
    ValueOfPrint(m);
    ValueOfPrint(n);
  }

  lemma PrintAvoids(n: nat, c: char)
    requires !IsDigit(c)
    ensures c !in Print(n)
  {
    ValueOfPrint(n);
  }

  // ---------- Signed decimals ----------

  // The `%d` form of an integer.
  function PrintInt(i: int): string {
    if i < 0 then "-" + Print(-i) else Print(i)
  }

  lemma PrintIntInjective(i: int, j: int)
    requires PrintInt(i) == PrintInt(j)
    ensures i == j
  {
    var m, n := if i < 0 then -i else i, if j < 0 then -j else j;
    ValueOfPrint(m);
    ValueOfPrint(n);
    assert (i < 0) == (PrintInt(i)[0] == '-') && (j < 0) == (PrintInt(j)[0] == '-');
    assert Print(m) == if i < 0 then PrintInt(i)[1..] else PrintInt(i);
    assert Print(n) == if j < 0 then PrintInt(j)[1..] else PrintInt(j);
  }

  lemma PrintIntAvoids(i: int, c: char)
    requires !IsDigit(c) && c != '-'
    ensures c !in PrintInt(i)
  {
    PrintAvoids(if i < 0 then -i else i, c);
  }

  // strconv.ParseInt(s, 10, 64): an optional sign, digits, and the int64 range.
  function ParseInt64(s: string): Option<int> {
    var signed := s != [] && (s[0] == '+' || s[0] == '-');
    var digits := if signed then s[1..] else s;
    if digits == [] || !AllDigits(digits) then None
    else
      var v: int := if signed && s[0] == '-' then -(Value(digits) as int) else Value(digits);
      if MIN_INT64 <= v <= MAX_INT64 then Some(v) else None
  }

  /** A text parses to an integer exactly when it is digits of its magnitude after an optional sign, within int64. */
  lemma ParsesExactly(s: string, v: int)
    ensures ParseInt64(s) == Some(v) <==>
            && MIN_INT64 <= v <= MAX_INT64
            && exists sign, digits ::
                 && s == sign + digits && sign in ["", "+", "-"] && digits != [] && AllDigits(digits)
                 && v == if sign == "-" then -(Value(digits) as int) else Value(digits)
  {
    if s != [] && (s[0] == '+' || s[0] == '-') {
      assert s == [s[0]] + s[1..];
    } else {
      assert s == "" + s;
    }
    forall sign, digits | s == sign + digits && sign in ["", "+", "-"] && digits != [] && AllDigits(digits)
      ensures digits == if s[0] == '+' || s[0] == '-' then s[1..] else s
      ensures sign == if s[0] == '+' || s[0] == '-' then [s[0]] else ""
    {
      if sign == "" {
        assert s == digits;
      } else {
        assert s[0] == sign[0];
      }
    }
  }

  lemma ParseOfPrintInt(i: int)
    ensures ParseInt64(PrintInt(i)) == if MIN_INT64 <= i <= MAX_INT64 then Some(i) else None
  {
    var n := if i < 0 then -i else i;
    ValueOfPrint(n);
    if i < 0 {
      assert PrintInt(i)[1..] == Print(n);
    }
  }

  // ---------- The digit loop of obs/context.go ----------

  function Pow10(k: nat): nat {
    if k == 0 then 1 else 10 * Pow10(k - 1)
  }

  lemma Pow10Of20()
    ensures Pow10(20) == 100_000_000_000_000_000_000
  {
    assert Pow10(5) == 100_000;
    assert Pow10(10) == 10_000_000_000;
    assert Pow10(15) == 1_000_000_000_000_000;
  }

  // The digits the loop still has to write.
  function Pending(x: nat): string {
    if x == 0 then [] else Print(x)
  }

  lemma WriteDigit(x: nat, tail: string, printed: string)
    requires x > 0 && Pending(x) + tail == printed
    ensures Pending(x / 10) + ([DigitChar(x % 10)] + tail) == printed
  {
    assert Pending(x) == Pending(x / 10) + [DigitChar(x % 10)];
  }

  lemma {:induction false} PrintLength(n: nat, k: nat)
    requires n < Pow10(k) && k > 0
    ensures |Print(n)| <= k
  {
    if n >= 10 {
      PrintLength(n / 10, k - 1);
    }
  }

  // A uint64 has at most 20 digits.
  lemma Uint64Length(v: nat)
    requires v < UINT64_RANGE
    ensures |Print(v)| <= 20
  {
    Pow10Of20();
    PrintLength(v, 20);
  }

  /** Fills a 20-byte buffer from the back; the digits never outnumber the bytes left in front of `pos`. */
  method Uint64ToString(v: nat) returns (s: string)
    requires v < UINT64_RANGE
    ensures s == Print(v)
    ensures Canonical(s) && Value(s) == v
  {
    Uint64Length(v);
    ghost var printed := Print(v);
    if v == 0 {
      ValueOfPrint(0);
      return "0";
    }
    var buf := new char[20];
    var pos: nat, x: nat := buf.Length, v;
    while x > 0
      invariant pos <= buf.Length
      invariant Pending(x) + buf[pos..] == printed
    {
      WriteDigit(x, buf[pos..], printed);
      var digit := DigitChar(x % 10);
      x := x / 10;
      ghost var tail := buf[pos..];
      pos := pos - 1;
      buf[pos] := digit;
      assert buf[pos..] == [digit] + tail;
    }
    s := buf[pos..];
    ValueOfPrint(v);
  }
}
