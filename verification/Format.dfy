/** The format interpreter _vsnprintf of src/lib/printf.c, without its floating point conversions. */
module Format {
  import opened Words
  import opened Numbers
  import opened Printf

  /** A variadic argument: an integer or pointer as its 64 bits, or a NUL-terminated string without its NUL. */
  datatype Arg = IntArg(bits: Word) | StrArg(s: string)

  datatype Length = AsInt | AsChar | AsShort | AsLong

  /** A conversion specification and where its conversion character stands. */
  datatype Spec = Spec(flags: Flags, width: nat, prec: nat, length: Length, at: nat, args: seq<Arg>)

  const TWO32 := 0x1_0000_0000

  /** The character at i, the terminating NUL behind the last one. */
  function Peek(fmt: string, i: nat): char {
    if i < |fmt| then fmt[i] else '\0'
  }

  predicate IsDigit(c: char) {
    '0' <= c <= '9'
  }

  /** A two's complement number of `n` values. */
  function AsSigned(w: nat, n: nat): (v: int)
    requires 0 < n && n % 2 == 0
    ensures 0 - n / 2 <= v < n / 2 && (v == w % n || v == w % n - n)
  {
    var v := w % n;
    if v < n / 2 then v else v - n
  }

  // ----- reading a specification -----

  predicate IsFlag(c: char) {
    c == '0' || c == '-' || c == '+' || c == ' ' || c == '#'
  }

  function WithFlag(f: Flags, c: char): Flags {
    match c
    case '0' => f.(zeropad := true)
    case '-' => f.(left := true)
    case '+' => f.(plus := true)
    case ' ' => f.(space := true)
    case '#' => f.(hash := true)
    case _ => f
  }

  function FlagsAt(fmt: string, i: nat, f: Flags): (r: (Flags, nat))
    requires i <= |fmt|
    ensures i <= r.1 <= |fmt|
    decreases |fmt| - i
  {
    if IsFlag(Peek(fmt, i)) then FlagsAt(fmt, i + 1, WithFlag(f, Peek(fmt, i))) else (f, i)
  }

  /** _atoi, in unsigned int. */
  function NumberAt(fmt: string, i: nat, v: nat): (r: (nat, nat))
    requires i <= |fmt|
    ensures i <= r.1 <= |fmt|
    decreases |fmt| - i
  {
    if IsDigit(Peek(fmt, i)) then NumberAt(fmt, i + 1, (v * 10 + (fmt[i] as int - '0' as int)) % TWO32) else (v, i)
  }

  function ArgInt(args: seq<Arg>): Option<int> {
    if args != [] && args[0].IntArg? then Some(AsSigned(args[0].bits, TWO32)) else None
  }

  /** The width field, or a '*' argument, whose sign means left alignment. */
  function WidthAt(fmt: string, i: nat, f: Flags, args: seq<Arg>): (r: Option<(nat, Flags, nat, seq<Arg>)>)
    requires i <= |fmt|
    ensures r.Some? ==> i <= r.value.2 <= |fmt|
  {
    if Peek(fmt, i) == '*' then
      (match ArgInt(args)
       case None => None
       case Some(w) => Some((if w < 0 then 0 - w else w, if w < 0 then f.(left := true) else f, i + 1, args[1..])))
    else var (n, j) := NumberAt(fmt, i, 0); Some((n, f, j, args))
  }

  function PrecisionAt(fmt: string, i: nat, args: seq<Arg>): (r: Option<(nat, nat, seq<Arg>)>)
    requires i <= |fmt|
    ensures r.Some? ==> i <= r.value.1 <= |fmt|
  {
    if Peek(fmt, i) == '*' then
      (match ArgInt(args)
       case None => None
       case Some(p) => Some((if p > 0 then p else 0, i + 1, args[1..])))
    else var (n, j) := NumberAt(fmt, i, 0); Some((n, j, args))
  }

  /** l, ll, t, j and z all mean 64 bits. */
  function LengthAt(fmt: string, i: nat): (r: (Length, nat))
    requires i <= |fmt|
    ensures i <= r.1 <= |fmt|
  {
    match Peek(fmt, i)
    case 'l' => (AsLong, if Peek(fmt, i + 1) == 'l' then i + 2 else i + 1)
    case 'h' => if Peek(fmt, i + 1) == 'h' then (AsChar, i + 2) else (AsShort, i + 1)
    case 't' => (AsLong, i + 1)
    case 'j' => (AsLong, i + 1)
    case 'z' => (AsLong, i + 1)
    case _ => (AsInt, i)
  }

  const NO_FLAGS := Flags(false, false, false, false, false, false, false)

  /** The specification behind a '%'; None when an argument is missing. */
  function SpecAt(fmt: string, i: nat, args: seq<Arg>): (r: Option<Spec>)
    requires i <= |fmt|
    ensures r.Some? ==> i <= r.value.at <= |fmt|
  {
    var (f0, i1) := FlagsAt(fmt, i, NO_FLAGS);
    match WidthAt(fmt, i1, f0, args)
    case None => None
    case Some((width, f1, i2, args1)) =>
      if Peek(fmt, i2) == '.' then
        (match PrecisionAt(fmt, i2 + 1, args1)
         case None => None
         case Some((prec, i3, args2)) =>
           var (len, i4) := LengthAt(fmt, i3);
           Some(Spec(f1.(precision := true), width, prec, len, i4, args2)))
      else
        var (len, i4) := LengthAt(fmt, i2);
        Some(Spec(f1, width, 0, len, i4, args1))
  }

  // ----- conversions -----

  function BaseOf(c: char): Base {
    if c == 'x' || c == 'X' then 16 else if c == 'o' then 8 else if c == 'b' then 2 else 10
  }

  predicate IsIntConversion(c: char) {
    c == 'd' || c == 'i' || c == 'u' || c == 'x' || c == 'X' || c == 'o' || c == 'b'
  }

  predicate IsSignedConversion(c: char) {
    c == 'd' || c == 'i'
  }

  /** The flags an integer conversion keeps. */
  function IntFlags(c: char, f: Flags): Flags {
    var f1 := if BaseOf(c) == 10 then f.(hash := false) else f;
    var f2 := if c == 'X' then f1.(uppercase := true) else f1;
    var f3 := if IsSignedConversion(c) then f2 else f2.(plus := false, space := false);
    if f3.precision then f3.(zeropad := false) else f3
  }

  function Values(l: Length): (n: nat)
    ensures 0 < n && n % 2 == 0
  {
    match l
    case AsChar => 0x100
    case AsShort => 0x1_0000
    case AsInt => TWO32
    case AsLong => TWO64
  }

  /** The number an argument stands for. */
  function IntValue(c: char, l: Length, bits: Word): int {
    if IsSignedConversion(c) then AsSigned(bits, Values(l)) else bits % Values(l)
  }

  function Magnitude(v: int): nat {
    if v > 0 then v else 0 - v
  }

  function IntText(c: char, sp: Spec, bits: Word): string
    requires IsIntConversion(c)
  {
    var v := IntValue(c, sp.length, bits);
    Text(Magnitude(v), v < 0, BaseOf(c), sp.prec, sp.width, IntFlags(c, sp.flags))
  }

  function Blanks(n: nat, width: nat): string {
    Repeat(if n < width then width - n else 0, ' ')
  }

  /** A text in a field of blanks. */
  function Field(t: string, sp: Spec): string {
    if sp.flags.left then t + Blanks(|t|, sp.width) else Blanks(|t|, sp.width) + t
  }

  function StringText(s: string, sp: Spec): string {
    Field(if sp.flags.precision && sp.prec < |s| then s[..sp.prec] else s, sp)
  }

  function PointerFlags(f: Flags): Flags {
    f.(zeropad := true, uppercase := true)
  }

  /**
   * The text of the conversion and the arguments left.  None: an argument is
   * missing or of the wrong kind, the conversion is one of floating point, or
   * the format ends inside the specification, where the C code runs past its end.
   */
  function Convert(fmt: string, sp: Spec): (r: Option<(string, seq<Arg>)>)
    ensures r.Some? ==> sp.at < |fmt|
  {
    var c := Peek(fmt, sp.at);
    if sp.at >= |fmt| || c in "fFeEgG" then None
    else if c == '%' then Some(("%", sp.args))
    else if IsIntConversion(c) || c == 'c' || c == 's' || c == 'p' then
      if sp.args == [] || (sp.args[0].StrArg? <==> c != 's') then None else
      var rest := sp.args[1..];
      if c == 's' then Some((StringText(sp.args[0].s, sp), rest))
      else if c == 'c' then Some((Field([(sp.args[0].bits % 0x100) as char], sp), rest))
      else if c == 'p' then Some((Text(sp.args[0].bits, false, 16, sp.prec, 16, PointerFlags(sp.flags)), rest))
      else Some((IntText(c, sp, sp.args[0].bits), rest))
    else Some(([c], sp.args))
  }

  /** The whole output, without any limit. */
  function Render(fmt: string, i: nat, args: seq<Arg>): Option<string>
    requires i <= |fmt|
    decreases |fmt| - i
  {
    if i == |fmt| then Some("") else
    if fmt[i] != '%' then
      var r := Render(fmt, i + 1, args);
      if r.None? then None else Some([fmt[i]] + r.value)
    else
      match SpecAt(fmt, i + 1, args)
      case None => None
      case Some(sp) =>
        match Convert(fmt, sp)
        case None => None
        case Some((t, rest)) =>
          var r := Render(fmt, sp.at + 1, rest);
          if r.None? then None else Some(t + r.value)
  }

  // ----- the interpreter -----

  method ReadFlags(fmt: string, i0: nat) returns (f: Flags, i: nat)
    requires i0 <= |fmt|
    ensures i <= |fmt| && (f, i) == FlagsAt(fmt, i0, NO_FLAGS)
  {
    f, i := Flags(false, false, false, false, false, false, false), i0;
    var more := true;
    while more
      invariant i0 <= i <= |fmt| && FlagsAt(fmt, i0, NO_FLAGS) == if more then FlagsAt(fmt, i, f) else (f, i)
      decreases |fmt| - i, more
    {
      match Peek(fmt, i)
      case '0' => f := f.(zeropad := true); i := i + 1;
      case '-' => f := f.(left := true); i := i + 1;
      case '+' => f := f.(plus := true); i := i + 1;
      case ' ' => f := f.(space := true); i := i + 1;
      case '#' => f := f.(hash := true); i := i + 1;
      case _ => more := false;
    }
  }

  method Atoi(fmt: string, i0: nat) returns (v: nat, i: nat)
    requires i0 <= |fmt|
    ensures i <= |fmt| && (v, i) == NumberAt(fmt, i0, 0)
  {
    v, i := 0, i0;
    while '0' <= Peek(fmt, i) <= '9'
      invariant i0 <= i <= |fmt| && NumberAt(fmt, i, v) == NumberAt(fmt, i0, 0)
      decreases |fmt| - i
    {
      v, i := (v * 10 + (fmt[i] as int - '0' as int)) % TWO32, i + 1;
    }
  }

  method ReadLength(fmt: string, i: nat) returns (length: Length, at: nat)
    requires i <= |fmt|
    ensures (length, at) == LengthAt(fmt, i)
  {
    length, at := AsInt, i;
    var c := Peek(fmt, at);
    if c == 'l' {
      length, at := AsLong, at + 1;
      if Peek(fmt, at) == 'l' { at := at + 1; }
    } else if c == 'h' {
      length, at := AsShort, at + 1;
      if Peek(fmt, at) == 'h' { length, at := AsChar, at + 1; }
    } else if c == 't' || c == 'j' || c == 'z' {
      length, at := AsLong, at + 1;
    }
  }

  method ReadSpec(fmt: string, i0: nat, args0: seq<Arg>) returns (sp: Spec)
    requires i0 <= |fmt| && SpecAt(fmt, i0, args0).Some?
    ensures SpecAt(fmt, i0, args0) == Some(sp)
  {
    var flags, i := ReadFlags(fmt, i0);
    var args, width, prec := args0, 0, 0;
    if '0' <= Peek(fmt, i) <= '9' {
      width, i := Atoi(fmt, i);
    } else if Peek(fmt, i) == '*' {
      var w := AsSigned(args[0].bits, TWO32);
      if w < 0 { flags := flags.(left := true); width := 0 - w; } else { width := w; }
      i, args := i + 1, args[1..];
    }
    if Peek(fmt, i) == '.' {
      flags := flags.(precision := true);
      i := i + 1;
      if '0' <= Peek(fmt, i) <= '9' {
        prec, i := Atoi(fmt, i);
      } else if Peek(fmt, i) == '*' {
        var p := AsSigned(args[0].bits, TWO32);
        prec := if p > 0 then p else 0;
        i, args := i + 1, args[1..];
      }
    }
    var length, at := ReadLength(fmt, i);
    sp := Spec(flags, width, prec, length, at, args);
  }

  /** The cases of the conversion switch. */
  method PutConversion(out: Sink, fmt: string, sp: Spec) returns (args: seq<Arg>)
    requires out.Valid() && Convert(fmt, sp).Some?
    modifies out, out.buffer
    ensures out.Valid() && out.text == old(out.text) + Convert(fmt, sp).value.0 && args == Convert(fmt, sp).value.1
  {
    hide Text;
    var c := Peek(fmt, sp.at);
    args := sp.args;
    if c == '%' {
      out.Put('%');
    } else if c == 'd' || c == 'i' || c == 'u' || c == 'x' || c == 'X' || c == 'o' || c == 'b' {
      PutInteger(out, c, sp, args[0].bits);
      args := args[1..];
    } else if c == 'c' {
      if !sp.flags.left { out.PutBlanks(1, sp.width); }
      out.Put((args[0].bits % 0x100) as char);
      if sp.flags.left { out.PutBlanks(1, sp.width); }
      args := args[1..];
    } else if c == 's' {
      PutString(out, args[0].s, sp);
      args := args[1..];
    } else if c == 'p' {
      out.PutNumber(args[0].bits, false, 16, sp.prec, 16, sp.flags.(zeropad := true, uppercase := true));
      args := args[1..];
    } else {
      out.Put(c);
    }
  }

  /** The integer conversions. */
  method PutInteger(out: Sink, c: char, sp: Spec, bits: Word)
    requires out.Valid() && IsIntConversion(c)
    modifies out, out.buffer
    ensures out.Valid() && out.text == old(out.text) + IntText(c, sp, bits)
  {
    hide Text;
    var flags, base: Base := sp.flags, 10;
    if c == 'x' || c == 'X' { base := 16; }
    else if c == 'o' { base := 8; }
    else if c == 'b' { base := 2; }
    else { flags := flags.(hash := false); }
    if c == 'X' { flags := flags.(uppercase := true); }
    if c != 'i' && c != 'd' { flags := flags.(plus := false, space := false); }
    if flags.precision { flags := flags.(zeropad := false); }
    if c == 'i' || c == 'd' {
      var value := SignedArgument(sp.length, bits);
      out.PutNumber(if value > 0 then value else 0 - value, value < 0, base, sp.prec, sp.width, flags);
    } else {
      var value := UnsignedArgument(sp.length, bits);
      out.PutNumber(value, false, base, sp.prec, sp.width, flags);
    }
  }

  /** va_arg as long, int, short or char. */
  method SignedArgument(l: Length, bits: Word) returns (v: int)
    ensures v == AsSigned(bits, Values(l))
  {
    match l
    case AsLong => v := if bits < 0x8000_0000_0000_0000 then bits else bits - 0x1_0000_0000_0000_0000;
    case AsChar => v := bits % 0x100; if v >= 0x80 { v := v - 0x100; }
    case AsShort => v := bits % 0x1_0000; if v >= 0x8000 { v := v - 0x1_0000; }
    case AsInt => v := bits % 0x1_0000_0000; if v >= 0x8000_0000 { v := v - 0x1_0000_0000; }
  }

  method UnsignedArgument(l: Length, bits: Word) returns (v: nat)
    ensures v == bits % Values(l)
  {
    match l
    case AsLong => v := bits;
    case AsChar => v := bits % 0x100;
    case AsShort => v := bits % 0x1_0000;
    case AsInt => v := bits % 0x1_0000_0000;
  }

  method PutString(out: Sink, s: string, sp: Spec)
    requires out.Valid()
    modifies out, out.buffer
    ensures out.Valid() && out.text == old(out.text) + StringText(s, sp)
  {
    ghost var t0 := out.text;
    var l := if sp.flags.precision && sp.prec < |s| then sp.prec else |s|;
    if !sp.flags.left { out.PutBlanks(l, sp.width); }
    ghost var t1 := out.text;
    var k := 0;
    while k < |s| && (!sp.flags.precision || k < sp.prec)
      invariant k <= l && out.Valid() && out.text == t1 + s[..k]
    {
      out.Put(s[k]);
      k := k + 1;
    }
    assert k == l;
    if sp.flags.left { out.PutBlanks(l, sp.width); }
  }

  /**
   * vsnprintf_: the buffer receives the first n - 1 characters of the unlimited
   * output and a NUL, and the length of the unlimited output is returned.
   */
  method Vsnprintf(buffer: array<char>, n: Word, fmt: string, args0: seq<Arg>) returns (ret: nat)
    requires n <= buffer.Length && Render(fmt, 0, args0).Some?
    modifies buffer
    ensures var t := Render(fmt, 0, args0).value;
            ret == |t| &&
            (0 < n ==> var k := if |t| < n then |t| else n - 1; buffer[..k] == t[..k] && buffer[k] == '\0')
  {
    hide SpecAt, Convert;
    var out := new Sink(buffer, n);
    var i, args := 0, args0;
    ghost var t := Render(fmt, 0, args0).value;
    while i < |fmt|
      invariant i <= |fmt| && out.Valid() && out.buffer == buffer && out.maxlen == n && fresh(out)
      invariant Render(fmt, i, args).Some? && out.text + Render(fmt, i, args).value == t
    {
      if fmt[i] != '%' {
        out.Put(fmt[i]);
        i := i + 1;
      } else {
        var sp := ReadSpec(fmt, i + 1, args);
        args := PutConversion(out, fmt, sp);
        i := sp.at + 1;
      }
    }
    ret := out.Terminate();
  }

  /** A format of one octal, decimal or hexadecimal conversion without '#' and precision, with an argument for it. */
  predicate OneConversion(fmt: string, args: seq<Arg>, sp: Spec) {
    && fmt != "" && fmt[0] == '%' && SpecAt(fmt, 1, args) == Some(sp) && sp.at == |fmt| - 1
    && IsIntConversion(fmt[sp.at]) && fmt[sp.at] != 'b' && !sp.flags.hash && !sp.flags.precision && sp.prec == 0
    && sp.args != [] && sp.args[0].IntArg?
  }

  /** The base that the conversion character stands for. */
  predicate InBase(c: char, base: nat) {
    match c
    case 'd' => base == 10 case 'i' => base == 10 case 'u' => base == 10
    case 'o' => base == 8
    case 'x' => base == 16 case 'X' => base == 16
    case _ => false
  }

  /** v is the argument converted to char, short, int or long, signed for d and i. */
  predicate Converted(c: char, l: Length, bits: Word, v: int) {
    match l
    case AsChar => Fits(c, 0x100, bits, v)
    case AsShort => Fits(c, 0x1_0000, bits, v)
    case AsInt => Fits(c, 0x1_0000_0000, bits, v)
    case AsLong => Fits(c, 0x1_0000_0000_0000_0000, bits, v)
  }

  /** v has the low bits of the argument and is a number of that type. */
  predicate Fits(c: char, n: nat, bits: Word, v: int)
    requires n > 0
  {
    (v - bits) % n == 0 && if c == 'd' || c == 'i' then 0 - n <= 2 * v < n else 0 <= v < n
  }

  lemma ConvertedIs(c: char, l: Length, bits: Word, v: int)
    requires Converted(c, l, bits, v)
    ensures v == IntValue(c, l, bits)
  {
    var n := Values(l);
    var k := (v - bits) / n;
    assert v == bits + k * n;
    LowBits(bits, k, n);
  }

  lemma LowBits(bits: nat, k: int, n: nat)
    requires n in {0x100, 0x1_0000, 0x1_0000_0000, 0x1_0000_0000_0000_0000}
    ensures 0 <= bits + k * n < n ==> bits + k * n == bits % n
    ensures 0 - n <= 2 * (bits + k * n) < 0 ==> bits + k * n == bits % n - n
    ensures 0 <= 2 * (bits + k * n) < n ==> bits + k * n == bits % n
  {
    if n == 0x100 { } else if n == 0x1_0000 { } else if n == 0x1_0000_0000 { } else { }
  }

  /**
   * What it prints reads back, in the base of the conversion, as the argument in its
   * type, except that zero padding beyond the digit buffer loses a minus sign.
   */
  lemma PrintedReadsBack(fmt: string, args: seq<Arg>, sp: Spec, base: nat, v: int)
    requires OneConversion(fmt, args, sp) && InBase(fmt[sp.at], base) && Converted(fmt[sp.at], sp.length, sp.args[0].bits, v)
    ensures Render(fmt, 0, args).Some?
    ensures ReadNumber(Render(fmt, 0, args).value, base) == Some(v) <==> !(v < 0 && sp.flags.zeropad && !sp.flags.left && sp.width > 32)
  {
    hide SpecAt, Text, ReadNumber, Converted;
    var c := fmt[sp.at];
    ConvertedIs(c, sp.length, sp.args[0].bits, v);
    PrintedText(fmt, args, sp);
    MagnitudeFits(c, sp.length, sp.args[0].bits);
    var f := IntFlags(c, sp.flags);
    AnyWord(Magnitude(v), BaseOf(c), f);
    ReadBack(Magnitude(v), v < 0, BaseOf(c), sp.width, f);
  }

  /**
   * Its length, which vsnprintf_ returns, is the width or that of sign and digits,
   * whichever is larger, if and only if no zero padding beyond the digit buffer is asked for.
   */
  lemma PrintedLength(fmt: string, args: seq<Arg>, sp: Spec, base: Base, v: int)
    requires OneConversion(fmt, args, sp) && InBase(fmt[sp.at], base) && Converted(fmt[sp.at], sp.length, sp.args[0].bits, v)
    ensures var sign := if v < 0 || ((sp.flags.plus || sp.flags.space) && fmt[sp.at] in "di") then 1 else 0;
            var natural := sign + |Digits(if v < 0 then 0 - v else v, base, fmt[sp.at] == 'X', BUFFER)|;
            && Render(fmt, 0, args).Some?
            && (|Render(fmt, 0, args).value| == (if natural < sp.width then sp.width else natural)
                <==> sp.flags.left || !sp.flags.zeropad || sp.width <= 32)
  {
    hide SpecAt, Text, Digits, Converted;
    var c := fmt[sp.at];
    ConvertedIs(c, sp.length, sp.args[0].bits, v);
    PrintedText(fmt, args, sp);
    PlainCase(fmt, 1, args);
    MagnitudeFits(c, sp.length, sp.args[0].bits);
    var f := IntFlags(c, sp.flags);
    AnyWord(Magnitude(v), BaseOf(c), f);
    TextLength(Magnitude(v), v < 0, BaseOf(c), sp.width, f);
  }

  /** No flag asks for capital digits. */
  lemma PlainCase(fmt: string, i: nat, args: seq<Arg>)
    requires i <= |fmt| && SpecAt(fmt, i, args).Some?
    ensures !SpecAt(fmt, i, args).value.flags.uppercase
  {
    FlagsPlain(fmt, i, NO_FLAGS);
  }

  lemma {:induction false} FlagsPlain(fmt: string, i: nat, f: Flags)
    requires i <= |fmt| && !f.uppercase
    ensures !FlagsAt(fmt, i, f).0.uppercase
    decreases |fmt| - i
  {
    if IsFlag(Peek(fmt, i)) { FlagsPlain(fmt, i + 1, WithFlag(f, Peek(fmt, i))); }
  }

  /** x prints small letters only, X capitals only, and no other conversion letters. */
  lemma PrintedCase(fmt: string, args: seq<Arg>, sp: Spec)
    requires OneConversion(fmt, args, sp)
    ensures Render(fmt, 0, args).Some?
    ensures forall k :: 0 <= k < |Render(fmt, 0, args).value| ==>
              var ch := Render(fmt, 0, args).value[k];
              && ('a' <= ch <= 'z' ==> fmt[sp.at] == 'x') && ('A' <= ch <= 'Z' ==> fmt[sp.at] == 'X')
  {
    hide SpecAt, Text, Digits;
    var c := fmt[sp.at];
    PrintedText(fmt, args, sp);
    PlainCase(fmt, 1, args);
    var f, v := IntFlags(c, sp.flags), IntValue(c, sp.length, sp.args[0].bits);
    MagnitudeFits(c, sp.length, sp.args[0].bits);
    AnyWord(Magnitude(v), BaseOf(c), f);
    TextCase(Magnitude(v), v < 0, BaseOf(c), sp.width, f);
  }

  lemma PrintedText(fmt: string, args: seq<Arg>, sp: Spec)
    requires OneConversion(fmt, args, sp)
    ensures Render(fmt, 0, args) == Some(IntText(fmt[sp.at], sp, sp.args[0].bits))
  {
    hide SpecAt, Text;
    var text := IntText(fmt[sp.at], sp, sp.args[0].bits);
    assert Render(fmt, |fmt|, sp.args[1..]) == Some("");
    assert text + "" == text;
  }

  lemma MagnitudeFits(c: char, l: Length, bits: Word)
    ensures Magnitude(IntValue(c, l, bits)) < TWO64
  {
  }
}
