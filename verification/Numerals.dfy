/** Numerals in any base up to 32, and the fixed-width addresses built from them. */
module Numerals {
  import opened Machine

  const MAX_BASE := 32

  function DigitChar(d: nat): char
    requires d < MAX_BASE
  {
    if d < 10 then '0' + d as char else 'A' + (d - 10) as char
  }

  /** The value of a digit; characters that are no digits have a value out of range. */
  function DigitValue(c: char): nat {
    if '0' <= c <= '9' then (c - '0') as nat
    else if 'A' <= c <= 'V' then (c - 'A') as nat + 10
    else MAX_BASE
  }

  /** The digits are 0 to 9 and then the letters from A on. */
  lemma {:induction false} Digits(d: nat)
    requires d < 32
    ensures DigitChar(d) == "0123456789ABCDEFGHIJKLMNOPQRSTUV"[d]
  {
  }

  predicate IsNumeral(base: nat, s: string) {
    s != [] && forall i :: 0 <= i < |s| ==> DigitValue(s[i]) < base
  }

  /** The value of a numeral, most significant digit first. */
  function Value(base: nat, s: string): nat {
    if s == [] then 0 else Value(base, s[..|s| - 1]) * base + DigitValue(s[|s| - 1])
  }

  /** No zero in front, except in the numeral 0 itself. */
  predicate Canonical(s: string) {
    s != [] && (s[0] == '0' ==> |s| == 1)
  }

  function Numeral(base: nat, n: nat): (s: string)
    requires 2 <= base <= MAX_BASE
    ensures s != []
    decreases n
  {
    if n < base then [DigitChar(n)]
    else
      QuotientSmaller(n, base);
      Numeral(base, n / base) + [DigitChar(n % base)]
  }

  lemma {:induction false} QuotientSmaller(n: nat, base: nat)
    requires 2 <= base <= n
    ensures 0 < n / base < n
    ensures n == n / base * base + n % base
  {
  }

  lemma {:induction false} Product(q: nat, base: nat)
    requires 2 <= base
    ensures q * base >= 2 * q
    ensures q >= 1 ==> q * base >= base
  {
  }

  lemma {:induction false} DigitRoundTrip(d: nat)
    requires d < MAX_BASE
    ensures DigitValue(DigitChar(d)) == d
    ensures DigitChar(d) == '0' <==> d == 0
  {
  }

  /** The numeral of n is a canonical numeral whose value is n. */
  lemma {:induction false} NumeralHasValue(base: nat, n: nat)
    requires 2 <= base <= MAX_BASE
    ensures var s := Numeral(base, n);
            IsNumeral(base, s) && Canonical(s) && Value(base, s) == n && (n > 0 ==> s[0] != '0')
    decreases n
  {
    DigitRoundTrip(n % base);
    if n < base {
      DigitRoundTrip(n);
      assert Numeral(base, n)[..0] == [];
    } else {
      QuotientSmaller(n, base);
      NumeralHasValue(base, n / base);
      var s := Numeral(base, n);
      assert s[..|s| - 1] == Numeral(base, n / base);
    }
  }

  lemma {:induction false} QuotientAndRemainder(q: nat, d: nat, base: nat)
    requires d < base
    ensures (q * base + d) / base == q && (q * base + d) % base == d
  {
    var n := q * base + d;
    var q', d' := n / base, n % base;
    assert q' * base + d' == q * base + d;
    assert (q' - q) * base == d - d';
    assert q' - q >= 1 ==> (q' - q) * base >= base;
    assert q - q' >= 1 ==> (q - q') * base >= base;
  }

  lemma {:induction false} DigitOfValue(c: char)
    requires DigitValue(c) < MAX_BASE
    ensures DigitChar(DigitValue(c)) == c
  {
  }

  /** It is the only one: every canonical numeral is the numeral of its value. */
  lemma {:induction false} NumeralUnique(base: nat, s: string)
    requires 2 <= base <= MAX_BASE && IsNumeral(base, s) && Canonical(s)
    ensures s == Numeral(base, Value(base, s))
  {
    var init, d := s[..|s| - 1], DigitValue(s[|s| - 1]);
    DigitOfValue(s[|s| - 1]);
    if |s| == 1 {
      assert init == [] && s == [DigitChar(d)];
    } else {
      assert init[0] == s[0] != '0';
      NumeralUnique(base, init);
      PositiveValue(base, init);
      QuotientAndRemainder(Value(base, init), d, base);
      assert Value(base, s) >= base;
      assert s == init + [DigitChar(d)];
    }
  }

  lemma {:induction false} PositiveValue(base: nat, s: string)
    requires 2 <= base <= MAX_BASE && IsNumeral(base, s) && s[0] != '0'
    ensures Value(base, s) >= 1 && Value(base, s) * base >= base
  {
    DigitOfValue(s[0]);
    var init := s[..|s| - 1];
    if |s| == 1 {
      assert init == [] && Value(base, init) * base == 0;
      assert DigitValue(s[0]) >= 1;
    } else {
      PositiveValue(base, init);
    }
    Product(Value(base, s), base);
  }

  // ---------------------------------------------------------------- printing

  lemma {:induction false} NumeralStep(base: nat, n: nat)
    requires 2 <= base <= MAX_BASE && n > 0
    ensures 0 <= n / base < n && n % base < MAX_BASE
    ensures n < base <==> n / base == 0
    ensures n / base > 0 ==> Numeral(base, n) == Numeral(base, n / base) + [DigitChar(n % base)]
    ensures n / base == 0 ==> Numeral(base, n) == [DigitChar(n % base)]
  {
    if n >= base {
      QuotientSmaller(n, base);
    } else {
      QuotientAndRemainder(0, n, base);
    }
  }

  /** The first loop of itoau: the number of digits. */
  method CountDigits(base: nat, num: nat) returns (size: nat)
    requires 2 <= base <= MAX_BASE && num > 0
    ensures size == |Numeral(base, num)|
  {
    var copy: nat := num;
    size := 0;
    while copy != 0
      invariant size + (if copy > 0 then |Numeral(base, copy)| else 0) == |Numeral(base, num)|
      decreases copy
    {
      NumeralStep(base, copy);
      size := size + 1;
      copy := copy / base;
    }
  }

  /** itoau: the canonical numeral of the number, written from its last digit to its first; no
      result for a base above 32. */
  method Itoau(base: nat, num: u32) returns (r: Option<string>)
    requires 2 <= base
    ensures r == if base > MAX_BASE then None else Some(Numeral(base, num))
  {
    if base > MAX_BASE {
      return None;
    }
    if num == 0 {
      return Some("0");
    }
    var size := CountDigits(base, num);
    var ret := new char[size];
    ghost var all := Numeral(base, num);
    var copy: nat := num;
    while size > 0
      invariant size <= |all| == ret.Length
      invariant if size > 0 then copy > 0 && Numeral(base, copy) == all[..size] else copy == 0
      invariant ret[size..] == all[size..]
    {
      size := size - 1;
      NumeralStep(base, copy);
      var tmp := copy % base;
      if tmp < 10 {
        ret[size] := '0' + tmp as char;
      } else {
        ret[size] := 'A' + (tmp - 10) as char;
      }
      copy := copy / base;
    }
    return Some(ret[..]);
  }

  function Zeros(n: nat): string {
    seq(n, _ => '0')
  }

  /** Eight hexadecimal digits behind 0x. */
  function AddressText(n: u32): string
    requires |Numeral(16, n)| <= 8
  {
    "0x" + Zeros(8 - |Numeral(16, n)|) + Numeral(16, n)
  }

  /** makeaddr: zeros in front of up to eight characters. */
  method MakeAddr(s: string) returns (r: string)
    requires |s| <= 8
    ensures r == "0x" + Zeros(8 - |s|) + s
  {
    var len := |s|;
    var ret := new char[10](_ => ' ');
    ret[0] := '0';
    ret[1] := 'x';
    var i, j := 0, 0;
    while i < 8 - |s|
      invariant i <= 8 - |s|
      invariant ret[..i + 2] == "0x" + Zeros(i)
    {
      ghost var before := ret[..i + 2];
      ret[i + 2] := '0';
      assert ret[..i + 3] == before + ['0'] && Zeros(i + 1) == Zeros(i) + ['0'];
      i := i + 1;
    }
    while len > 0
      invariant 0 <= len <= |s| && j == |s| - len && i == 8 - len
      invariant ret[..i + 2] == "0x" + Zeros(8 - |s|) + s[..j]
    {
      ghost var before := ret[..i + 2];
      len := len - 1;
      ret[i + 2] := s[j];
      assert ret[..i + 3] == before + [s[j]] && s[..j + 1] == s[..j] + [s[j]];
      i, j := i + 1, j + 1;
    }
    assert s[..j] == s && ret[..] == ret[..i + 2];
    return ret[..];
  }

  lemma {:induction false} HexLength(n: nat, bound: nat, k: nat)
    requires k > 0 && n < bound && bound == Power16(k)
    ensures |Numeral(16, n)| <= k
    decreases k
  {
    if n >= 16 {
      QuotientSmaller(n, 16);
      if k > 1 {
        HexLength(n / 16, Power16(k - 1), k - 1);
      }
    }
  }

  function Power16(k: nat): nat {
    if k == 0 then 1 else 16 * Power16(k - 1)
  }

  /** Every 32-bit word has at most eight hexadecimal digits. */
  lemma {:induction false} HexWord(n: u32)
    ensures |Numeral(16, n)| <= 8
  {
    assert Power16(4) == 65536;
    assert Power16(8) == TWO_TO_THE_32;
    HexLength(n, TWO_TO_THE_32, 8);
  }

  lemma {:induction false} ValueOfPadded(base: nat, zeros: nat, s: string)
    requires 2 <= base
    ensures Value(base, Zeros(zeros) + s) == Value(base, s)
    decreases zeros + |s|
  {
    if s != [] {
      assert (Zeros(zeros) + s)[..zeros + |s| - 1] == Zeros(zeros) + s[..|s| - 1];
      ValueOfPadded(base, zeros, s[..|s| - 1]);
    } else if zeros > 0 {
      assert (Zeros(zeros) + s)[..zeros - 1] == Zeros(zeros - 1) + [];
      ValueOfPadded(base, zeros - 1, []);
      assert Zeros(zeros) + s == Zeros(zeros);
    }
  }

  /** An address is 0x and exactly eight hexadecimal digits whose value is the word. */
  lemma {:induction false} AddressHasValue(n: u32)
    ensures |Numeral(16, n)| <= 8
    ensures var a := AddressText(n);
            && |a| == 10 && a[..2] == "0x"
            && (forall i :: 2 <= i < 10 ==> DigitValue(a[i]) < 16)
            && Value(16, a[2..]) == n
  {
    HexWord(n);
    NumeralHasValue(16, n);
    var s := Numeral(16, n);
    assert AddressText(n)[2..] == Zeros(8 - |s|) + s;
    ValueOfPadded(16, 8 - |s|, s);
  }

  /** Different words are printed as different addresses. */
  lemma {:induction false} AddressInjective(m: u32, n: u32)
    requires m != n
    ensures |Numeral(16, m)| <= 8 && |Numeral(16, n)| <= 8
    ensures AddressText(m) != AddressText(n)
  {
    AddressHasValue(m);
    AddressHasValue(n);
  }
}
