/**
 * Integer conversions of src/lib/printf.c (_ntoa_long_long, _ntoa_long,
 * _ntoa_format, _out_rev) and a reader of numbers they are measured against.
 */
module Numbers {
  import opened Words

  /** PRINTF_NTOA_BUFFER_SIZE */
  const BUFFER := 32

  type Base = b: nat | b == 2 || b == 8 || b == 10 || b == 16 witness 10

  datatype Flags = Flags(zeropad: bool, left: bool, plus: bool, space: bool, hash: bool, uppercase: bool, precision: bool)

  function Repeat(n: nat, c: char): (s: string)
    ensures |s| == n && forall i :: 0 <= i < n ==> s[i] == c
  {
    seq(n, _ => c)
  }

  function Reversed(s: string): (r: string)
    ensures |r| == |s| && forall i :: 0 <= i < |s| ==> r[i] == s[|s| - 1 - i]
  {
    seq(|s|, i requires 0 <= i < |s| => s[|s| - 1 - i])
  }

  function Min(a: nat, b: nat): nat {
    if a < b then a else b
  }

  // ----- what is printed -----

  function Digit(d: nat, uppercase: bool): char
    requires d < 16
  {
    if d < 10 then ('0' as int + d) as char else ((if uppercase then 'A' else 'a') as int + (d - 10)) as char
  }

  function Quot(value: nat, base: Base): nat {
    value / base
  }

  function Rem(value: nat, base: Base): (r: nat)
    ensures r < base <= 16
  {
    value % base
  }

  /** The digits of value, least significant first, as many as fit into n characters; 0 has one. */
  function Digits(value: nat, base: Base, uppercase: bool, n: nat): (s: string)
    requires 0 < n
    ensures 0 < |s| <= n
    decreases n
  {
    [Digit(Rem(value, base), uppercase)] + if Quot(value, base) == 0 || n == 1 then [] else Digits(Quot(value, base), base, uppercase, n - 1)
  }

  /** A buffer filled up with c to length n. */
  function Fill(buf: string, n: nat, c: char): (s: string)
    ensures |s| == if |buf| < n then n else |buf|
  {
    if |buf| < n then buf + Repeat(n - |buf|, c) else buf
  }

  predicate Signed(negative: bool, f: Flags) {
    negative || f.plus || f.space
  }

  /** The width inside _ntoa_format: a sign takes one of the zero-padded columns. */
  function FieldWidth(negative: bool, width: nat, f: Flags): nat {
    if !f.left && f.zeropad && width > 0 && Signed(negative, f) then width - 1 else width
  }

  function ZeroFilled(buf: string, negative: bool, prec: nat, width: nat, f: Flags): (s: string)
    ensures |buf| <= BUFFER ==> |s| <= BUFFER
  {
    if f.left then buf else
    var b := Fill(buf, Min(prec, BUFFER), '0');
    if f.zeropad then Fill(b, Min(FieldWidth(negative, width, f), BUFFER), '0') else b
  }

  /** '#' takes back a padding zero, two of them in base 16, when the zeros reached the precision or the width. */
  function Unfilled(buf: string, base: Base, prec: nat, width: nat, f: Flags): string {
    if !f.precision && buf != [] && (|buf| == prec || |buf| == width) then
      if |buf| > 1 && base == 16 then buf[..|buf| - 2] else buf[..|buf| - 1]
    else buf
  }

  /** The prefixes 0x, 0b and 0, backwards. */
  function Marked(buf: string, base: Base, f: Flags): string {
    var b := if |buf| == BUFFER || base == 8 || base == 10 then buf
             else buf + (if base == 2 then "b" else if f.uppercase then "X" else "x");
    if |b| < BUFFER then b + "0" else b
  }

  function Prefixed(buf: string, base: Base, prec: nat, width: nat, f: Flags): string
    requires |buf| <= BUFFER
  {
    if !f.hash then buf else Marked(Unfilled(buf, base, prec, width, f), base, f)
  }

  function SignOf(negative: bool, f: Flags): string {
    if negative then "-" else if f.plus then "+" else if f.space then " " else ""
  }

  /** The buffer before it is reversed. */
  function Formatted(buf: string, negative: bool, base: Base, prec: nat, width: nat, f: Flags): string
    requires |buf| <= BUFFER
  {
    var b := Prefixed(ZeroFilled(buf, negative, prec, width, f), base, prec, FieldWidth(negative, width, f), f);
    if |b| < BUFFER then b + SignOf(negative, f) else b
  }

  /** _out_rev: the buffer backwards, padded with blanks to the width. */
  function Padded(buf: string, width: nat, f: Flags): string {
    var pad := Repeat(if |buf| < width then width - |buf| else 0, ' ');
    (if !f.left && !f.zeropad then pad else "") + Reversed(buf) + (if f.left then pad else "")
  }

  /** The text of a conversion. */
  function Text(value: nat, negative: bool, base: Base, prec: nat, width: nat, flags: Flags): string {
    var f := if value == 0 then flags.(hash := false) else flags;
    var digits := if f.precision && value == 0 then "" else Digits(value, base, f.uppercase, BUFFER);
    Padded(Formatted(digits, negative, base, prec, width, f), FieldWidth(negative, width, f), f)
  }

  // ----- how a number is read -----

  function DigitValue(c: char): Option<nat> {
    if '0' <= c <= '9' then Some(c as int - '0' as int)
    else if 'a' <= c <= 'f' then Some(10 + (c as int - 'a' as int))
    else if 'A' <= c <= 'F' then Some(10 + (c as int - 'A' as int))
    else None
  }

  /** Value of a string of digits; None if there is a character that is no digit of the base. */
  function ReadDigits(s: string, base: nat, v: nat): Option<nat> {
    if s == [] then Some(v) else
    match DigitValue(s[0])
    case None => None
    case Some(d) => if d >= base then None else ReadDigits(s[1..], base, v * base + d)
  }

  function SkipBlanks(s: string): string {
    if s != [] && s[0] == ' ' then SkipBlanks(s[1..]) else s
  }

  function DropBlanks(s: string): string {
    if s != [] && s[|s| - 1] == ' ' then DropBlanks(s[..|s| - 1]) else s
  }

  /** Blanks around, an optional sign, then digits only. */
  function ReadNumber(s: string, base: nat): Option<int> {
    var t := SkipBlanks(DropBlanks(s));
    if t == [] then None
    else
      var v := ReadDigits(if t[0] == '-' || t[0] == '+' then t[1..] else t, base, 0);
      if v.None? then None else if t[0] == '-' then Some(0 - v.value) else Some(v.value)
  }

  // ----- reading back what was printed -----

  lemma DigitRead(d: nat, uppercase: bool)
    requires d < 16
    ensures DigitValue(Digit(d, uppercase)) == Some(d)
  {
  }

  function Power(base: nat, n: nat): nat {
    if n == 0 then 1 else base * Power(base, n - 1)
  }

  /** Reading appends: what has been read is scaled by the digits that follow. */
  lemma {:induction false} ReadSnoc(s: string, c: char, base: nat, v: nat)
    ensures ReadDigits(s + [c], base, v) ==
            match ReadDigits(s, base, v)
            case None => None
            case Some(w) => if DigitValue(c).None? || DigitValue(c).value >= base then None else Some(w * base + DigitValue(c).value)
  {
    if s == [] {
      assert [] + [c] == [c] && [c][1..] == [];
    } else {
      assert (s + [c])[1..] == s[1..] + [c] && (s + [c])[0] == s[0];
      match DigitValue(s[0]) {
        case None =>
        case Some(d) => if d < base { ReadSnoc(s[1..], c, base, v * base + d); }
      }
    }
  }

  /** Digits are read back when the buffer holds them all. */
  lemma {:induction false} DigitsRead(value: nat, base: Base, uppercase: bool, n: nat)
    requires 0 < n && value < Power(base, n)
    ensures ReadDigits(Reversed(Digits(value, base, uppercase, n)), base, 0) == Some(value)
    decreases n
  {
    hide Power, ReadDigits, Digit, DigitValue, Reversed, Quot, Rem;
    var q, d := Quot(value, base), Digit(Rem(value, base), uppercase);
    DigitRead(Rem(value, base), uppercase);
    Quotient(value, base, n);
    if q == 0 {
      assert Digits(value, base, uppercase, n) == [d] + [] == [d];
      ReadLast("", d, base, 0, value);
    } else {
      var rest := Digits(q, base, uppercase, n - 1);
      DigitsRead(q, base, uppercase, n - 1);
      ReadLast(rest, d, base, q, value);
    }
  }

  lemma ReadLast(rest: string, d: char, base: Base, q: nat, value: nat)
    requires DigitValue(d) == Some(Rem(value, base)) && value == q * base + Rem(value, base) && Rem(value, base) < base
    requires if rest == [] then q == 0 else ReadDigits(Reversed(rest), base, 0) == Some(q)
    ensures ReadDigits(Reversed([d] + rest), base, 0) == Some(value)
  {
    hide DigitValue;
    assert Reversed([d] + rest) == Reversed(rest) + [d];
    ReadSnoc(Reversed(rest), d, base, 0);
  }

  lemma Quotient(value: nat, base: Base, n: nat)
    requires 0 < n && value < Power(base, n)
    ensures Quot(value, base) < Power(base, n - 1) && (n == 1 ==> Quot(value, base) == 0)
    ensures Quot(value, base) * base + Rem(value, base) == value && Rem(value, base) < base <= 16
  {
    assert Power(base, n) == base * Power(base, n - 1);
    if base == 2 { } else if base == 8 { } else if base == 10 { } else { }
  }

  // ----- the shape of the text -----

  /** Conversions without '#' and without a precision, whose digits leave room for a sign. */
  predicate Simple(value: nat, base: Base, f: Flags) {
    !f.hash && !f.precision && value < Power(base, BUFFER) && |Digits(value, base, f.uppercase, BUFFER)| < BUFFER
  }

  /** Zeros in front of n digits. */
  function ZeroCount(n: nat, negative: bool, width: nat, f: Flags): nat {
    var w := Min(FieldWidth(negative, width, f), BUFFER);
    if !f.left && f.zeropad && n < w then w - n else 0
  }

  /** The sign as printed: none when zeros have filled the buffer. */
  function SignText(n: nat, negative: bool, width: nat, f: Flags): string {
    if n + ZeroCount(n, negative, width, f) < BUFFER then SignOf(negative, f) else ""
  }

  /** Blanks, sign, zeros, digits, blanks. */
  function Parts(a: nat, sign: string, z: nat, digits: string, b: nat): string {
    Repeat(a, ' ') + sign + Repeat(z, '0') + digits + Repeat(b, ' ')
  }

  lemma ReversedTwo(a: string, b: string)
    ensures Reversed(a + b) == Reversed(b) + Reversed(a)
  {
  }

  lemma ReversedShort(n: nat, c: char, s: string)
    requires |s| <= 1
    ensures Reversed(Repeat(n, c)) == Repeat(n, c) && Reversed(s) == s
  {
  }

  /** Reversing and padding a buffer of digits, zeros and a sign. */
  lemma PaddedParts(d: string, z: nat, sign: string, w: nat, f: Flags)
    requires |sign| <= 1
    ensures var used := |sign| + z + |d|;
            var pad := if used < w then w - used else 0;
            Padded(d + Repeat(z, '0') + sign, w, f) == Parts(if f.left || f.zeropad then 0 else pad, sign, z, Reversed(d), if f.left then pad else 0)
  {
    hide Reversed;
    var buf := d + Repeat(z, '0') + sign;
    ReversedTwo(d + Repeat(z, '0'), sign);
    ReversedTwo(d, Repeat(z, '0'));
    ReversedShort(z, '0', sign);
    assert Reversed(buf) == sign + Repeat(z, '0') + Reversed(d);
    assert Repeat(0, ' ') == "";
  }

  lemma FilledParts(d: string, negative: bool, base: Base, width: nat, f: Flags)
    requires !f.hash && |d| < BUFFER
    ensures Formatted(d, negative, base, 0, width, f) ==
            d + Repeat(ZeroCount(|d|, negative, width, f), '0') + SignText(|d|, negative, width, f)
  {
    assert d + Repeat(0, '0') == d;
  }

  lemma TextParts(value: nat, negative: bool, base: Base, width: nat, f: Flags)
    requires Simple(value, base, f)
    ensures var d := Digits(value, base, f.uppercase, BUFFER);
            var z, sign := ZeroCount(|d|, negative, width, f), SignText(|d|, negative, width, f);
            var used := |sign| + z + |d|;
            var pad := if used < width then width - used else 0;
            && |sign| <= 1
            && Text(value, negative, base, 0, width, f) ==
               Parts(if f.left || f.zeropad then 0 else pad, sign, z, Reversed(d), if f.left then pad else 0)
  {
    hide Digits, Power, Reversed, Parts, Formatted, Padded;
    var d := Digits(value, base, f.uppercase, BUFFER);
    FilledParts(d, negative, base, width, f);
    PaddedParts(d, ZeroCount(|d|, negative, width, f), SignText(|d|, negative, width, f), FieldWidth(negative, width, f), f);
    assert f.(hash := false) == f;
  }

  /** Letters among the digits are of the case asked for, and there are none up to base 10. */
  predicate CaseOk(c: char, base: Base, uppercase: bool) {
    ('a' <= c <= 'z' ==> base == 16 && !uppercase) && ('A' <= c <= 'Z' ==> base == 16 && uppercase)
  }

  lemma {:induction false} DigitsCase(value: nat, base: Base, uppercase: bool, n: nat)
    requires 0 < n
    ensures forall k :: 0 <= k < |Digits(value, base, uppercase, n)| ==> CaseOk(Digits(value, base, uppercase, n)[k], base, uppercase)
    decreases n
  {
    if Quot(value, base) != 0 && n > 1 { DigitsCase(Quot(value, base), base, uppercase, n - 1); }
  }

  lemma TextCase(value: nat, negative: bool, base: Base, width: nat, f: Flags)
    requires Simple(value, base, f)
    ensures forall k :: 0 <= k < |Text(value, negative, base, 0, width, f)| ==> CaseOk(Text(value, negative, base, 0, width, f)[k], base, f.uppercase)
  {
    hide Digits, Power, Text;
    TextParts(value, negative, base, width, f);
    DigitsCase(value, base, f.uppercase, BUFFER);
  }

  // ----- reading the parts -----

  lemma {:induction false} ReadZeros(n: nat, s: string, base: Base)
    ensures ReadDigits(Repeat(n, '0') + s, base, 0) == ReadDigits(s, base, 0)
  {
    if n == 0 {
      assert Repeat(0, '0') + s == s;
    } else {
      assert (Repeat(n, '0') + s)[1..] == Repeat(n - 1, '0') + s;
      ReadZeros(n - 1, s, base);
    }
  }

  lemma {:induction false} SkipThem(n: nat, s: string)
    requires s != [] && s[0] != ' '
    ensures SkipBlanks(Repeat(n, ' ') + s) == s
  {
    if n == 0 {
      assert Repeat(0, ' ') + s == s;
    } else {
      assert (Repeat(n, ' ') + s)[1..] == Repeat(n - 1, ' ') + s;
      SkipThem(n - 1, s);
    }
  }

  lemma {:induction false} DropThem(n: nat, s: string)
    requires s != [] && s[|s| - 1] != ' '
    ensures DropBlanks(s + Repeat(n, ' ')) == s
  {
    if n == 0 {
      assert s + Repeat(0, ' ') == s;
    } else {
      assert (s + Repeat(n, ' '))[..|s| + n - 1] == s + Repeat(n - 1, ' ');
      DropThem(n - 1, s);
    }
  }

  predicate IsDigits(s: string) {
    s != [] && forall i :: 0 <= i < |s| ==> s[i] != ' ' && s[i] != '+' && s[i] != '-'
  }

  lemma {:induction false} DigitsAreDigits(value: nat, base: Base, uppercase: bool, n: nat)
    requires 0 < n
    ensures IsDigits(Digits(value, base, uppercase, n))
    decreases n
  {
    if Quot(value, base) != 0 && n > 1 { DigitsAreDigits(Quot(value, base), base, uppercase, n - 1); }
  }

  lemma ReadParts(a: nat, sign: string, z: nat, digits: string, b: nat, base: Base)
    requires IsDigits(digits) && (sign == "" || sign == "-" || sign == "+" || sign == " ")
    ensures ReadNumber(Parts(a, sign, z, digits, b), base) ==
            match ReadDigits(digits, base, 0)
            case None => None
            case Some(v) => Some(if sign == "-" then 0 - v else v)
  {
    hide ReadDigits, SkipBlanks, DropBlanks;
    var number := Repeat(z, '0') + digits;
    var body := sign + number;
    assert number[0] != ' ' && number[0] != '-' && number[0] != '+' && number[|number| - 1] == digits[|digits| - 1];
    ReadZeros(z, digits, base);
    assert Parts(a, sign, z, digits, b) == (Repeat(a, ' ') + body) + Repeat(b, ' ');
    DropThem(b, Repeat(a, ' ') + body);
    if sign == " " {
      assert Repeat(a, ' ') + body == Repeat(a + 1, ' ') + number;
      SkipThem(a + 1, number);
    } else if sign == "" {
      assert body == number;
      SkipThem(a, number);
    } else {
      SkipThem(a, body);
      assert body[1..] == number;
    }
  }

  /** Zeros fill the buffer and push a minus sign out. */
  predicate SignLost(negative: bool, width: nat, f: Flags) {
    negative && f.zeropad && !f.left && width > BUFFER
  }

  /** A printed number reads back as itself, unless its minus sign was lost. */
  lemma ReadBack(value: nat, negative: bool, base: Base, width: nat, f: Flags)
    requires Simple(value, base, f) && (negative ==> 0 < value)
    ensures ReadNumber(Text(value, negative, base, 0, width, f), base) == Some(if negative then 0 - value else value)
            <==> !SignLost(negative, width, f)
  {
    hide Power, Digits, Text, ReadNumber, Parts, ReadDigits, Reversed;
    var d := Digits(value, base, f.uppercase, BUFFER);
    TextParts(value, negative, base, width, f);
    DigitsRead(value, base, f.uppercase, BUFFER);
    DigitsAreDigits(value, base, f.uppercase, BUFFER);
    ReversedDigits(d);
    var z, sign := ZeroCount(|d|, negative, width, f), SignText(|d|, negative, width, f);
    var used := |sign| + z + |d|;
    var pad := if used < width then width - used else 0;
    ReadParts(if f.left || f.zeropad then 0 else pad, sign, z, Reversed(d), if f.left then pad else 0, base);
  }

  lemma ReversedDigits(d: string)
    requires IsDigits(d)
    ensures IsDigits(Reversed(d))
  {
  }

  /** The text is as long as the field and the number demand, unless zero padding beyond the buffer is asked for. */
  lemma TextLength(value: nat, negative: bool, base: Base, width: nat, f: Flags)
    requires Simple(value, base, f)
    ensures var natural := |SignOf(negative, f)| + |Digits(value, base, f.uppercase, BUFFER)|;
            |Text(value, negative, base, 0, width, f)| == (if natural < width then width else natural)
            <==> f.left || !f.zeropad || width <= BUFFER
  {
    hide Power, Digits, Text, Reversed;
    TextParts(value, negative, base, width, f);
  }

  // ----- 64-bit values -----

  lemma {:induction false} PowerGrows(a: Base, b: Base, n: nat, m: nat)
    requires a <= b && n <= m
    ensures 0 < Power(a, n) <= Power(b, m)
  {
    if m > 0 {
      var k := if n > 0 then n - 1 else 0;
      PowerGrows(a, b, k, m - 1);
      MulMono(1, b, Power(b, m - 1));
      if n > 0 {
        MulMono(1, a, Power(a, k));
        MulMono(a, b, Power(a, k));
        Swap(b, Power(a, k), Power(b, m - 1));
      }
    }
  }

  lemma Swap(b: nat, p: nat, q: nat)
    requires p <= q
    ensures p * b <= q * b && b * p <= b * q
  {
    MulMono(p, q, b);
  }

  lemma {:induction false} DigitsFew(value: nat, base: Base, uppercase: bool, n: nat, k: nat)
    requires 0 < k <= n && value < Power(base, k)
    ensures |Digits(value, base, uppercase, n)| <= k
    decreases n
  {
    Quotient(value, base, k);
    if Quot(value, base) != 0 && n > 1 { DigitsFew(Quot(value, base), base, uppercase, n - 1, k - 1); }
  }

  lemma PowerOfEight()
    ensures TWO64 <= Power(8, 22)
  {
    assert Power(8, 4) == 4096;
    assert Power(8, 8) == 8 * 8 * 8 * 8 * Power(8, 4);
    assert Power(8, 12) == 8 * 8 * 8 * 8 * Power(8, 8);
    assert Power(8, 16) == 8 * 8 * 8 * 8 * Power(8, 12);
    assert Power(8, 20) == 8 * 8 * 8 * 8 * Power(8, 16);
  }

  /** Every 64-bit value has at most 22 octal, decimal or hexadecimal digits. */
  lemma AnyWord(value: Word, base: Base, f: Flags)
    requires base != 2 && !f.hash && !f.precision
    ensures Simple(value, base, f)
  {
    hide Digits, Digit;
    PowerOfEight();
    PowerGrows(8, base, 22, 22);
    PowerGrows(base, base, 22, BUFFER);
    DigitsFew(value, base, f.uppercase, BUFFER, 22);
  }
}
