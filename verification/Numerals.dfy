/** Numbers as text: the conversion of an integer to a numeral in any base, and the
    reading of a decimal numeral. */
module Numerals {
  import opened Options
  import opened Words

  const LETTERS_DOWN: string := "zyxwvutsrqpon" + "mlkjihgfedcba"
  const LETTERS_UP: string := "abcdefghijklm" + "nopqrstuvwxyz"
  const FROM_NINE: string := "9876543210"
  const FROM_ONE: string := "123456789"

  /** The digits on both sides of zero, so that a remainder of either sign selects one. */
  const TABLE: string := LETTERS_DOWN + FROM_NINE + FROM_ONE + LETTERS_UP

  // ----- numerals

  predicate IsBase(base: int) { 2 <= base <= 36 }

  function Abs(v: int): (a: nat) { if v < 0 then -v else v }

  function Digit(d: nat): (c: char)
    requires d < 36
  {
    if d < 10 then '0' + d as char else 'a' + (d - 10) as char
  }

  lemma TwiceAtMost(q: nat, base: int)
    requires base >= 2
    ensures q * base >= 2 * q
  {
    assert q * (base - 2) >= 0;
  }

  lemma DivisionShrinks(n: nat, base: int)
    requires IsBase(base) && n > 0
    ensures n / base < n && 0 <= n % base < base && n == n / base * base + n % base
  {
    DivMod(n, base);
    TwiceAtMost(n / base, base);
  }

  function Digits(n: nat, base: int): (s: string)
    requires IsBase(base)
    ensures |s| >= 1
    decreases n
  {
    if n < base then [Digit(n)] else DivisionShrinks(n, base); Digits(n / base, base) + [Digit(n % base)]
  }

  /** The canonical signed numeral. */
  function Numeral(v: int, base: int): (s: string)
    requires IsBase(base)
  {
    if v < 0 then "-" + Digits(-v, base) else Digits(v, base)
  }

  function DigitValue(c: char): (d: nat) {
    if '0' <= c <= '9' then (c - '0') as int else if 'a' <= c <= 'z' then (c - 'a') as int + 10 else 0
  }

  /** The value of a sequence of digits. */
  function Value(s: string, base: int): (n: nat)
    requires base >= 0
  {
    if s == "" then 0 else Value(s[..|s| - 1], base) * base + DigitValue(s[|s| - 1])
  }

  predicate IsDigit(c: char, base: int) { DigitValue(c) < base && ('0' <= c <= '9' || 'a' <= c <= 'z') }

  lemma DigitIsDigit(d: nat)
    requires d < 36
    ensures DigitValue(Digit(d)) == d && (Digit(d) == '0' <==> d == 0)
    ensures forall base :: d < base ==> IsDigit(Digit(d), base)
  {
  }

  /** A numeral has the value it was made from, consists of digits of its base, and has no
      leading zero. */
  lemma {:induction false} DigitsAreCanonical(n: nat, base: int)
    requires IsBase(base)
    ensures Value(Digits(n, base), base) == n
    ensures forall c :: c in Digits(n, base) ==> IsDigit(c, base)
    ensures Digits(n, base)[0] == '0' <==> n == 0
    decreases n
  {
    hide Digit;
    hide DigitValue;
    hide Value;
    hide Digits;
    hide IsDigit;
    var q, d := n / base, n % base;
    DivMod(n, base);
    DivisionCases(n, base);
    DigitsUnfold(n, base);
    DigitIsDigit(d);
    if n < base {
      ValueSnoc("", Digit(d), base);
      ValueOfNothing(base);
    } else {
      DivisionShrinks(n, base);
      DigitsAreCanonical(q, base);
      ValueSnoc(Digits(q, base), Digit(d), base);
      assert Digits(n, base)[0] == Digits(q, base)[0];
    }
  }

  /** The value of a signed numeral, in every base. */
  lemma NumeralMeans(v: int, base: int)
    requires IsBase(base)
    ensures var s := Numeral(v, base);
            if v < 0 then |s| > 1 && s[0] == '-' && Value(s[1..], base) == -v && forall c :: c in s[1..] ==> IsDigit(c, base)
            else s != "" && Value(s, base) == v && forall c :: c in s ==> IsDigit(c, base)
  {
    hide Digits;
    hide Value;
    DigitsAreCanonical(Abs(v), base);
    assert v < 0 ==> Numeral(v, base)[1..] == Digits(-v, base);
  }

  lemma ValueSnoc(s: string, c: char, base: int)
    requires base >= 0
    ensures Value(s + [c], base) == Value(s, base) * base + DigitValue(c)
  {
    assert (s + [c])[..|s|] == s;
  }

  lemma DigitOfValue(c: char, base: int)
    requires IsBase(base) && IsDigit(c, base)
    ensures Digit(DigitValue(c)) == c
  {
  }

  lemma MultipleBounds(k: int, base: int)
    requires base > 0
    ensures k >= 1 ==> k * base >= base
    ensures k <= -1 ==> k * base <= -base
  {
    if k >= 1 {
      assert (k - 1) * base >= 0;
    } else if k <= -1 {
      assert (-1 - k) * base >= 0;
    }
  }

  lemma DivideBack(n: nat, q: nat, d: nat, base: int)
    requires IsBase(base) && d < base && n == q * base + d
    ensures n / base == q && n % base == d
  {
    var p, r := n / base, n % base;
    assert n == p * base + r;
    assert (p - q) * base == p * base - q * base;
    MultipleBounds(p - q, base);
  }

  lemma DigitsSnoc(q: nat, d: nat, base: int)
    requires IsBase(base) && d < base && q > 0
    ensures q * base + d >= 0 && Digits(q * base + d, base) == Digits(q, base) + [Digit(d)]
  {
    hide Digits;
    MultipleBounds(q, base);
    var n := q * base + d;
    DivideBack(n, q, d, base);
    DigitsUnfold(n, base);
  }

  /** There is no other sequence of digits without a leading zero that has the value. */
  lemma {:induction false} CanonicalIsUnique(s: string, base: int)
    requires IsBase(base) && s != "" && (forall c :: c in s ==> IsDigit(c, base)) && (|s| > 1 ==> s[0] != '0')
    ensures s == Digits(Value(s, base), base)
  {
    hide IsDigit;
    hide Digit;
    hide DigitValue;
    hide Value;
    var last, init := s[|s| - 1], s[..|s| - 1];
    var d := DigitValue(last);
    assert last in s && s == init + [last];
    DigitOfValue(last, base);
    DigitBelowBase(last, base);
    ValueSnoc(init, last, base);
    if init == "" {
      ValueOfNothing(base);
      assert s == [Digit(d)];
    } else {
      var q := Value(init, base);
      CanonicalIsUnique(init, base);
      DigitsAreCanonical(q, base);
      DigitsSnoc(q, d, base);
    }
  }

  lemma ValueOfNothing(base: int)
    requires base >= 0
    ensures Value("", base) == 0
  {
  }

  lemma DigitBelowBase(c: char, base: int)
    requires IsDigit(c, base)
    ensures DigitValue(c) < base
  {
  }

  // ----- writing

  /** Division that truncates towards zero. */
  function Quotient(v: int, base: int): (q: int)
    requires IsBase(base)
  {
    if v < 0 then -(-v / base) else v / base
  }

  lemma Remainders(n: int, q: int, r: int, base: int)
    requires n == q * base + r
    ensures n - q * base == r && -n - (-q) * base == -r
  {
    assert (-q) * base == -(q * base);
  }

  lemma DivMod(n: nat, base: int)
    requires IsBase(base)
    ensures n / base >= 0 && 0 <= n % base < base && n == n / base * base + n % base
  {
  }

  lemma QuotientIs(v: int, base: int)
    requires IsBase(base)
    ensures Abs(Quotient(v, base)) == Abs(v) / base
    ensures Quotient(v, base) != 0 ==> (Quotient(v, base) < 0 <==> v < 0)
    ensures Abs(v - Quotient(v, base) * base) == Abs(v) % base
  {
    var n := Abs(v);
    DivMod(n, base);
    Remainders(n, n / base, n % base, base);
    if v < 0 {
      assert Quotient(v, base) == -(n / base);
    } else {
      assert Quotient(v, base) == n / base;
    }
  }

  lemma LettersAt(i: nat)
    requires i < 26
    ensures LETTERS_DOWN[i] == 'z' - i as char && LETTERS_UP[i] == 'a' + i as char
  {
  }

  lemma DecimalsAt(i: nat)
    requires i < 10
    ensures FROM_NINE[i] == '9' - i as char && (i < 9 ==> FROM_ONE[i] == '1' + i as char)
  {
  }

  lemma FourParts(a: string, b: string, c: string, d: string, i: nat)
    requires i < |a| + |b| + |c| + |d|
    ensures (a + b + c + d)[i] ==
            if i < |a| then a[i]
            else if i < |a| + |b| then b[i - |a|]
            else if i < |a| + |b| + |c| then c[i - |a| - |b|]
            else d[i - |a| - |b| - |c|]
  {
  }

  lemma TableIsSymmetric(r: int)
    requires -36 < r < 36
    ensures TABLE[35 + r] == Digit(Abs(r))
  {
    FourParts(LETTERS_DOWN, FROM_NINE, FROM_ONE, LETTERS_UP, 35 + r);
    if r < -9 {
      LettersAt(35 + r);
    } else if r <= 0 {
      DecimalsAt(9 + r);
    } else if r < 10 {
      DecimalsAt(r - 1);
    } else {
      LettersAt(r - 10);
    }
  }

  function DigitFor(r: int): (c: char)
    requires -36 < r < 36
    ensures c == Digit(Abs(r))
  {
    TableIsSymmetric(r);
    TABLE[35 + r]
  }

  function Reversed(s: string): (r: string)
    ensures |r| == |s|
  {
    if s == "" then "" else Reversed(s[1..]) + [s[0]]
  }

  lemma {:induction false} ReversedAt(s: string, k: nat)
    requires k < |s|
    ensures Reversed(s)[k] == s[|s| - 1 - k]
  {
    if k < |s| - 1 {
      ReversedAt(s[1..], k);
    }
  }

  lemma {:induction false} ReversedSnoc(s: string, c: char)
    ensures Reversed(s + [c]) == [c] + Reversed(s)
  {
    if s != "" {
      assert (s + [c])[1..] == s[1..] + [c];
      ReversedSnoc(s[1..], c);
    }
  }

  lemma DivisionCases(n: nat, base: int)
    requires IsBase(base)
    ensures 0 <= n % base < base
    ensures if n < base then n / base == 0 && n % base == n else n / base > 0
  {
  }

  lemma DigitsUnfold(n: nat, base: int)
    requires IsBase(base)
    ensures 0 <= n % base < base
    ensures Digits(n, base) == DigitsLeft(n / base, n / base != 0, base) + [Digit(n % base)]
  {
    DivisionCases(n, base);
    if n < base {
      assert Digits(n, base) == "" + [Digit(n)];
    } else {
      var q := n / base;
      assert DigitsLeft(q, q != 0, base) == Digits(q, base);
    }
  }

  /** One division takes the last digit off. */
  lemma DigitStep(v: int, base: int)
    requires IsBase(base)
    ensures var q := Quotient(v, base); var r := v - q * base;
            && -36 < r < 36 && Digits(Abs(v), base) == DigitsLeft(q, q != 0, base) + [Digit(Abs(r))]
            && (q != 0 ==> (q < 0 <==> v < 0)) && (v != 0 ==> Abs(q) < Abs(v)) && (v == 0 ==> q == 0)
  {
    hide Digits;
    hide Digit;
    QuotientIs(v, base);
    DigitsUnfold(Abs(v), base);
    hide Quotient;
    if v != 0 {
      DivisionShrinks(Abs(v), base);
    }
  }

  /** The digits still to be written. */
  ghost function DigitsLeft(value: int, more: bool, base: int): (s: string)
    requires IsBase(base)
  {
    if more then Digits(Abs(value), base) else ""
  }

  /** The digits of either sign are written from the last to the first. */
  method WriteDigits(v: Int32, str: array<char>, base: int) returns (n: nat, last: int)
    requires IsBase(base) && str.Length >= |Digits(Abs(v), base)|
    modifies str
    ensures n == |Digits(Abs(v), base)| && Reversed(str[..n]) == Digits(Abs(v), base)
    ensures forall k :: n <= k < str.Length ==> str[k] == old(str[k])
    ensures last < 0 <==> v < 0
  {
    hide Digits;
    hide Digit;
    hide Quotient;
    hide Reversed;
    hide DigitFor;
    var value := v;
    n, last := 0, v;
    var more := true;
    ghost var left := DigitsLeft(value, true, base);
    NothingWritten(str, left);
    while more
      invariant n <= str.Length && left == DigitsLeft(value, more, base)
      invariant Digits(Abs(v), base) == left + Reversed(str[..n])
      invariant forall k :: n <= k < str.Length ==> str[k] == old(str[k])
      invariant (if more then value else last) < 0 <==> v < 0
      decreases if more then 1 + Abs(value) else 0
    {
      DigitStep(value, base);
      last := value;
      value := Quotient(last, base);
      var r := last - value * base;
      more := value != 0;
      left := DigitsLeft(value, more, base);
      WriteOne(str[..], n, Digit(Abs(r)), left);
      str[n] := DigitFor(r);
      n := n + 1;
    }
  }

  lemma NothingWritten(str: array<char>, left: string)
    ensures left == left + Reversed(str[..0])
  {
    assert str[..0] == "";
  }

  lemma WriteOne(text: string, n: nat, c: char, left: string)
    requires n < |text|
    ensures left + Reversed(text[n := c][..n + 1]) == left + [c] + Reversed(text[..n])
  {
    assert text[n := c][..n + 1] == text[..n] + [c];
    ReversedSnoc(text[..n], c);
  }

  method ReverseInPlace(str: array<char>, n: nat)
    requires n <= str.Length
    modifies str
    ensures str[..n] == Reversed(old(str[..n])) && forall k :: n <= k < str.Length ==> str[k] == old(str[k])
  {
    ghost var before := str[..];
    var i, j := 0, n - 1;
    while i < j
      invariant 0 <= i <= j + 1 && i + j == n - 1
      invariant forall k :: 0 <= k < i ==> str[k] == before[n - 1 - k] && str[n - 1 - k] == before[k]
      invariant forall k :: i <= k < n - i ==> str[k] == before[k]
      invariant forall k :: n <= k < str.Length ==> str[k] == before[k]
    {
      str[i], str[j] := str[j], str[i];
      i, j := i + 1, j - 1;
    }
    forall k | 0 <= k < n
      ensures str[..n][k] == Reversed(before[..n])[k]
    {
      ReversedAt(before[..n], k);
    }
  }

  method WriteBackwards(value: Int32, str: array<char>, base: int) returns (n: nat)
    requires IsBase(base) && str.Length >= |Numeral(value, base)|
    modifies str
    ensures n == |Numeral(value, base)| && Reversed(str[..n]) == Numeral(value, base)
    ensures forall k :: n <= k < str.Length ==> str[k] == old(str[k])
  {
    hide Digits;
    hide Reversed;
    var last;
    n, last := WriteDigits(value, str, base);
    ghost var digits := str[..n];
    if last < 0 {
      str[n] := '-';
      n := n + 1;
      assert str[..n] == digits + ['-'];
      ReversedSnoc(digits, '-');
    }
  }

  /** The text is the canonical numeral and its terminator; a base that is none gives the
      empty text. */
  method Itoa(value: Int32, str: array<char>, base: int)
    requires str.Length > if IsBase(base) then |Numeral(value, base)| else 0
    modifies str
    ensures var text := if IsBase(base) then Numeral(value, base) else "";
            && str[..|text|] == text && str[|text|] == '\0'
            && forall k :: |text| < k < str.Length ==> str[k] == old(str[k])
  {
    hide Digits;
    hide Reversed;
    hide Numeral;
    if base < 2 || base > 36 {
      str[0] := '\0';
      return;
    }
    var n := WriteBackwards(value, str, base);
    ghost var text := str[..n];
    str[n] := '\0';
    assert str[..n] == text;
    ReverseInPlace(str, n);
  }

  // ----- reading

  function SkipSpaces(s: string): (r: string) { if s != "" && s[0] == ' ' then SkipSpaces(s[1..]) else s }

  predicate IsDecimal(c: char) { '0' <= c <= '9' }

  /** The longest prefix of decimal digits. */
  function DigitPrefix(s: string): (p: string)
    ensures p <= s
    ensures forall c :: c in p ==> IsDecimal(c)
    ensures |p| < |s| ==> !IsDecimal(s[|p|])
  {
    if s != "" && IsDecimal(s[0]) then [s[0]] + DigitPrefix(s[1..]) else ""
  }

  /** Spaces, an optional sign and decimal digits; nothing when the digits exceed the
      largest integer on the way. */
  function AtoiOf(s: string): (r: Option<int>) { Signed(SkipSpaces(s)) }

  function Signed(t: string): (r: Option<int>) {
    var negative := t != "" && t[0] == '-';
    var u := if t != "" && (t[0] == '-' || t[0] == '+') then t[1..] else t;
    var v: int := Value(DigitPrefix(u), 10);
    if v < SIGN then Some(if negative then -v else v) else None
  }

  lemma {:induction false} PrefixValue(s: string, n: nat)
    requires n <= |s|
    ensures Value(s[..n], 10) <= Value(s, 10)
  {
    if n < |s| {
      PrefixValue(s[..|s| - 1], n);
      assert s[..|s| - 1][..n] == s[..n];
    } else {
      assert s[..n] == s;
    }
  }

  lemma {:induction false} DigitPrefixIs(s: string, n: nat)
    requires n <= |s| && (forall k :: 0 <= k < n ==> IsDecimal(s[k])) && (n < |s| ==> !IsDecimal(s[n]))
    ensures DigitPrefix(s) == s[..n]
  {
    if n > 0 {
      DigitPrefixIs(s[1..], n - 1);
      assert s[..n] == [s[0]] + s[1..][..n - 1];
    }
  }

  lemma {:induction false} PrefixCovers(s: string, n: nat)
    requires n <= |s| && forall k :: 0 <= k < n ==> IsDecimal(s[k])
    ensures n <= |DigitPrefix(s)| && DigitPrefix(s)[..n] == s[..n]
  {
    if n > 0 {
      PrefixCovers(s[1..], n - 1);
    }
  }

  /** The digits at the start of a text, as long as they fit. */
  method ReadDigits(s: string) returns (r: Option<int>)
    ensures var v := Value(DigitPrefix(s), 10); r == if v < SIGN then Some(v) else None
  {
    var result, i := 0, 0;
    assert s[..0] == "";
    while i < |s| && '0' <= s[i] <= '9'
      invariant i <= |s| && result == Value(s[..i], 10) < SIGN
      invariant forall k :: 0 <= k < i ==> IsDecimal(s[k])
    {
      ValueSnoc(s[..i], s[i], 10);
      assert s[..i + 1] == s[..i] + [s[i]];
      result := result * 10 + (s[i] - '0') as int;
      i := i + 1;
      if result >= SIGN {
        PrefixCovers(s, i);
        PrefixValue(DigitPrefix(s), i);
        return None;
      }
    }
    DigitPrefixIs(s, i);
    return Some(result);
  }

  /** The result is nothing when a signed addition overflows. */
  method Atoi(s: string) returns (r: Option<int>)
    ensures r == AtoiOf(s)
  {
    var i, sign := 0, 1;
    assert s[0..] == s;
    while i < |s| && s[i] == ' '
      invariant i <= |s| && SkipSpaces(s) == SkipSpaces(s[i..])
    {
      assert s[i..][1..] == s[i + 1..];
      i := i + 1;
    }
    ghost var t := s[i..];
    if i < |s| && s[i] == '-' {
      sign, i := -1, i + 1;
    } else if i < |s| && s[i] == '+' {
      i := i + 1;
    }
    assert s[i..] == if t != "" && (t[0] == '-' || t[0] == '+') then t[1..] else t;
    r := ReadDigits(s[i..]);
    if r.Some? {
      r := Some(sign * r.value);
    }
  }

  lemma {:induction false} SpacesSkipped(n: nat, s: string)
    requires s == "" || s[0] != ' '
    ensures SkipSpaces(Spaces(n) + s) == s
  {
    if n > 0 {
      assert Spaces(n) + s == " " + (Spaces(n - 1) + s);
      SpacesSkipped(n - 1, s);
    } else {
      assert Spaces(n) + s == s;
    }
  }

  function Spaces(n: nat): (s: string) { seq(n, _ => ' ') }

  lemma DigitsThenOther(digits: string, rest: string)
    requires (forall c :: c in digits ==> '0' <= c <= '9') && (rest != "" ==> !('0' <= rest[0] <= '9'))
    ensures DigitPrefix(digits + rest) == digits
  {
    var u := digits + rest;
    assert forall k :: 0 <= k < |digits| ==> u[k] == digits[k] && digits[k] in digits;
    DigitPrefixIs(u, |digits|);
    assert u[..|digits|] == digits;
  }

  predicate IsSign(s: string) { s == "" || s == "+" || s == "-" }

  lemma StartOf(sign: string, digits: string, rest: string)
    requires IsSign(sign) && (forall c :: c in digits ==> '0' <= c <= '9')
    ensures sign != "" ==> (sign + digits + rest)[0] == sign[0]
    ensures sign == "" && digits != "" ==> '0' <= (sign + digits + rest)[0] <= '9'
    ensures sign == "" && digits == "" ==> sign + digits + rest == rest
  {
    assert digits != "" ==> digits[0] in digits;
  }

  lemma SignedReads(sign: string, digits: string, rest: string)
    requires IsSign(sign) && (forall c :: c in digits ==> '0' <= c <= '9') && (rest != "" ==> !('0' <= rest[0] <= '9'))
    requires sign == "" && digits == "" && rest != "" ==> rest[0] != '+' && rest[0] != '-'
    ensures Signed(sign + digits + rest) ==
            var v: int := Value(digits, 10);
            if v >= 0x8000_0000 then None else if sign == "-" then Some(-v) else Some(v)
  {
    hide Value;
    hide DigitPrefix;
    var t := sign + digits + rest;
    StartOf(sign, digits, rest);
    DigitsThenOther(digits, rest);
    if sign == "" {
      assert t == digits + rest;
    } else {
      assert t[1..] == digits + rest;
    }
  }

  /** Behind any spaces and at most one sign the digits are read up to the first character
      that is none. */
  lemma AtoiReads(n: nat, sign: string, digits: string, rest: string)
    requires IsSign(sign) && (forall c :: c in digits ==> '0' <= c <= '9') && (rest != "" ==> !('0' <= rest[0] <= '9'))
    requires sign == "" && digits == "" && rest != "" ==> rest[0] != ' ' && rest[0] != '+' && rest[0] != '-'
    ensures AtoiOf(Spaces(n) + (sign + digits + rest)) ==
            var v: int := Value(digits, 10);
            if v >= 0x8000_0000 then None else if sign == "-" then Some(-v) else Some(v)
  {
    hide Value;
    hide DigitPrefix;
    hide Spaces;
    hide SkipSpaces;
    hide Signed;
    var t := sign + digits + rest;
    StartOf(sign, digits, rest);
    SpacesSkipped(n, t);
    SignedReads(sign, digits, rest);
  }

  /** Reading back a written number gives the number, except for the smallest one, whose
      digits do not fit. */
  lemma AtoiAfterItoa(v: Int32)
    ensures AtoiOf(Numeral(v, 10)) == if v > -SIGN then Some(v) else None
  {
    hide Digits;
    hide AtoiOf;
    var digits := Digits(Abs(v), 10);
    DigitsAreCanonical(Abs(v), 10);
    var sign := if v < 0 then "-" else "";
    AtoiReads(0, sign, digits, "");
    assert Spaces(0) + (sign + digits + "") == Numeral(v, 10);
  }
}
