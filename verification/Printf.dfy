/** _vsnprintf of src/lib/printf.c without floating point: the bounded output, and the format interpreter. */
module Printf {
  import opened Words
  import opened Numbers

  /** _out_buffer: characters beyond maxlen are counted and dropped. */
  class Sink {
    const buffer: array<char>
    const maxlen: Word
    var idx: nat
    ghost var text: string     // everything put so far

    ghost predicate Valid()
      reads this, buffer
    {
      && maxlen <= buffer.Length && idx == |text|
      && forall i :: 0 <= i < idx && i < maxlen ==> buffer[i] == text[i]
    }

    constructor (buffer: array<char>, maxlen: Word)
      requires maxlen <= buffer.Length
      ensures Valid() && this.buffer == buffer && this.maxlen == maxlen && text == "" && idx == 0
    {
      this.buffer, this.maxlen, idx, text := buffer, maxlen, 0, "";
    }

    method Put(c: char)
      requires Valid()
      modifies this, buffer
      ensures Valid() && text == old(text) + [c]
    {
      if idx < maxlen { buffer[idx] := c; }
      idx := idx + 1;
      text := text + [c];
    }

    /** Blanks up to a field width, as the loops around a text put them. */
    method PutBlanks(n: nat, width: nat)
      requires Valid()
      modifies this, buffer
      ensures Valid() && text == old(text) + Repeat(if n < width then width - n else 0, ' ')
    {
      var i := n;
      assert text == old(text) + Repeat(0, ' ');
      while i < width
        invariant n <= i && (i <= width || i == n) && Valid()
        invariant text == old(text) + Repeat(i - n, ' ')
      {
        Put(' ');
        i := i + 1;
      }
    }

    /** The terminating NUL: behind the text, or in the last place of the buffer. */
    method Terminate() returns (ret: nat)
      requires Valid()
      modifies buffer
      ensures ret == idx == |text|
      ensures 0 < maxlen ==>
                var n := if |text| < maxlen then |text| else maxlen - 1;
                buffer[..n] == text[..n] && buffer[n] == '\0'
      ensures forall i :: maxlen <= i < buffer.Length ==> buffer[i] == old(buffer[i])
    {
      var at := if idx < maxlen then idx else (maxlen - 1) % TWO64;
      if at < maxlen { buffer[at] := '\0'; }
      ret := idx;
    }

    /** _out_rev */
    method OutRev(buf: array<char>, len0: nat, width: nat, f: Flags)
      requires Valid() && len0 <= buf.Length && buf != buffer
      modifies this, buffer
      ensures Valid() && text == old(text) + Padded(buf[..len0], width, f)
    {
      ghost var b, t := buf[..len0], text;
      var len := len0;
      if !f.left && !f.zeropad { PutBlanks(len, width); }
      ghost var t1 := text;
      var start := idx;
      assert Reversed(b)[..0] == "";
      while len > 0
        invariant len <= len0 && Valid() && buf[..len0] == b && idx == start + (len0 - len)
        invariant text == t1 + Reversed(b)[..len0 - len]
      {
        len := len - 1;
        Put(buf[len]);
        assert Reversed(b)[..len0 - len] == Reversed(b)[..len0 - len - 1] + [buf[len]];
      }
      if f.left { PutBlanks(len0, width); }
    }

    /** _ntoa_long_long and _ntoa_long */
    method PutNumber(value: nat, negative: bool, base: Base, prec: nat, width: nat, flags: Flags)
      requires Valid()
      modifies this, buffer
      ensures Valid() && text == old(text) + Text(value, negative, base, prec, width, flags)
    {
      hide Digits, Padded, Formatted;
      var buf, len := new char[BUFFER], 0;
      var f := if value == 0 then flags.(hash := false) else flags;
      assert buf[..0] == "";
      if !f.precision || value != 0 { len := FillDigits(buf, value, base, f.uppercase); }
      var len1, width1 := FormatNumber(buf, len, negative, base, prec, width, f);
      OutRev(buf, len1, width1, f);
    }
  }

  /** The digits, least significant first, as far as the buffer goes. */
  method FillDigits(buf: array<char>, value0: nat, base: Base, uppercase: bool) returns (len: nat)
    requires buf.Length == BUFFER
    modifies buf
    ensures len <= BUFFER && buf[..len] == Digits(value0, base, uppercase, BUFFER)
  {
    hide Digit, Digits, Quot, Rem;
    ghost var all := Digits(value0, base, uppercase, BUFFER);
    var value: nat, more := value0, true;
    len := 0;
    while more
      invariant len <= BUFFER && (more ==> len < BUFFER)
      invariant len <= |all| && all[..len] == buf[..len]
      invariant all[len..] == if more then Digits(value, base, uppercase, BUFFER - len) else ""
      decreases BUFFER - len, more
    {
      DigitsStep(value, base, uppercase, BUFFER - len);
      DigitCode(value, base, uppercase);
      var digit := value % base;
      buf[len] := if digit < 10 then ('0' as int + digit) as char else ((if uppercase then 'A' else 'a') as int + digit - 10) as char;
      len := len + 1;
      value := value / base;
      assert all[len..] == all[len - 1..][1..] && all[len - 1] == all[len - 1..][0];
      more := value != 0 && len < BUFFER;
    }
  }

  lemma DigitCode(value: nat, base: Base, uppercase: bool)
    ensures var digit := value % base;
            && 0 <= digit < 16 && value / base == Quot(value, base)
            && (digit < 10 ==> ('0' as int + digit) as char == Digit(Rem(value, base), uppercase))
            && (digit >= 10 ==> ((if uppercase then 'A' else 'a') as int + digit - 10) as char == Digit(Rem(value, base), uppercase))
  {
  }

  lemma DigitsStep(value: nat, base: Base, uppercase: bool, n: nat)
    requires 0 < n
    ensures Digits(value, base, uppercase, n) ==
            [Digit(Rem(value, base), uppercase)] + if Quot(value, base) != 0 && n > 1 then Digits(Quot(value, base), base, uppercase, n - 1) else ""
  {
  }

  /** _ntoa_format up to its call of _out_rev: the buffer, and the width that remains. */
  method FormatNumber(buf: array<char>, len0: nat, negative: bool, base: Base, prec: nat, width0: nat, f: Flags) returns (len: nat, width: nat)
    requires buf.Length == BUFFER && len0 <= BUFFER
    modifies buf
    ensures len <= BUFFER && width == FieldWidth(negative, width0, f)
    ensures buf[..len] == Formatted(old(buf[..len0]), negative, base, prec, width0, f)
  {
    hide Prefixed, Fill;
    len, width := len0, width0;
    ghost var b0 := buf[..len0];
    if !f.left {
      if width > 0 && f.zeropad && (negative || f.plus || f.space) { width := width - 1; }
      len := FillZeros(buf, len, prec);
      if f.zeropad { len := FillZeros(buf, len, width); }
    }
    ghost var b1 := ZeroFilled(b0, negative, prec, width0, f);
    assert buf[..len] == b1;
    NoPrefix(b1, base, prec, width, f);
    if f.hash { len := Prefix(buf, len, base, prec, width, f); }
    ghost var b2 := Prefixed(b1, base, prec, width, f);
    assert buf[..len] == b2;
    if len < BUFFER { len := PutSign(buf, len, negative, f); }
  }

  method PutSign(buf: array<char>, len0: nat, negative: bool, f: Flags) returns (len: nat)
    requires buf.Length == BUFFER && len0 < BUFFER
    modifies buf
    ensures len <= BUFFER && buf[..len] == old(buf[..len0]) + SignOf(negative, f)
  {
    len := len0;
    if negative { buf[len] := '-'; len := len + 1; }
    else if f.plus { buf[len] := '+'; len := len + 1; }
    else if f.space { buf[len] := ' '; len := len + 1; }
  }

  lemma NoPrefix(b: string, base: Base, prec: nat, width: nat, f: Flags)
    requires |b| <= BUFFER
    ensures !f.hash ==> Prefixed(b, base, prec, width, f) == b
  {
  }

  lemma PrefixedIs(b: string, base: Base, prec: nat, width: nat, f: Flags)
    requires |b| <= BUFFER && f.hash
    ensures |Unfilled(b, base, prec, width, f)| <= BUFFER
    ensures Prefixed(b, base, prec, width, f) == Marked(Unfilled(b, base, prec, width, f), base, f)
  {
  }

  method FillZeros(buf: array<char>, len0: nat, limit: nat) returns (len: nat)
    requires buf.Length == BUFFER && len0 <= BUFFER
    modifies buf
    ensures len <= BUFFER && buf[..len] == Fill(old(buf[..len0]), Min(limit, BUFFER), '0')
  {
    len := len0;
    while len < limit && len < BUFFER
      invariant len0 <= len <= BUFFER && (len == len0 || len <= limit)
      invariant buf[..len] == old(buf[..len0]) + Repeat(len - len0, '0')
    {
      buf[len] := '0';
      len := len + 1;
    }
  }

  /** The branch of _ntoa_format for '#'. */
  method Prefix(buf: array<char>, len0: nat, base: Base, prec: nat, width: nat, f: Flags) returns (len: nat)
    requires buf.Length == BUFFER && len0 <= BUFFER && f.hash
    modifies buf
    ensures len <= BUFFER && buf[..len] == Prefixed(old(buf[..len0]), base, prec, width, f)
  {
    hide Prefixed;
    ghost var b0 := buf[..len0];
    PrefixedIs(b0, base, prec, width, f);
    len := len0;
    if !f.precision && len > 0 && (len == prec || len == width) {
      len := len - 1;
      if len > 0 && base == 16 { len := len - 1; }
    }
    ghost var b1 := buf[..len];
    assert b1 == Unfilled(b0, base, prec, width, f);
    if base == 16 && !f.uppercase && len < BUFFER { buf[len] := 'x'; len := len + 1; }
    else if base == 16 && f.uppercase && len < BUFFER { buf[len] := 'X'; len := len + 1; }
    else if base == 2 && len < BUFFER { buf[len] := 'b'; len := len + 1; }
    if len < BUFFER { buf[len] := '0'; len := len + 1; }
  }
}
