/** What strings of bytes do to the terminal: text, control characters, escape and control sequences, characters in UTF-8. */
module ParserLaws {
  import opened Words
  import opened Screen
  import S = Screen
  import opened Printing
  import opened Csi
  import opened Parser

  // ----- byte strings -----

  lemma {:induction false} Appended(th: Theme, t: Term, a: seq<Byte>, b: seq<Byte>)
    requires ThemeOk(th) && Fine(t)
    ensures AfterBytes(th, t, a + b) == AfterBytes(th, AfterBytes(th, t, a), b)
  {
    hide OneByte, Fine;
    if b == [] {
      assert a + b == a;
    } else {
      var n := |b| - 1;
      assert (a + b)[..|a + b| - 1] == a + b[..n];
      Appended(th, t, a, b[..n]);
    }
  }

  lemma One(th: Theme, t: Term, c: Byte)
    requires ThemeOk(th) && Fine(t)
    ensures AfterBytes(th, t, [c]) == OneByte(th, t, c)
  {
    hide OneByte, Fine;
    assert [c][..0] == [];
    assert AfterBytes(th, t, []) == t;
  }

  lemma First(th: Theme, t: Term, c: Byte, rest: seq<Byte>)
    requires ThemeOk(th) && Fine(t)
    ensures AfterBytes(th, t, [c] + rest) == AfterBytes(th, OneByte(th, t, c), rest)
  {
    hide OneByte, Fine, AfterBytes;
    Appended(th, t, [c], rest);
    One(th, t, c);
  }

  lemma Three(th: Theme, t: Term, a: Byte, b: Byte, c: Byte)
    requires ThemeOk(th) && Fine(t)
    ensures AfterBytes(th, t, [a, b, c]) == OneByte(th, OneByte(th, OneByte(th, t, a), b), c)
  {
    hide OneByte, Fine, AfterBytes;
    assert [a, b, c] == [a] + ([b] + [c]);
    First(th, t, a, [b] + [c]);
    First(th, OneByte(th, t, a), b, [c]);
    One(th, OneByte(th, OneByte(th, t, a), b), c);
  }

  // ----- text -----

  /** No multi-byte character and no sequence is in progress. */
  predicate Idle(t: Term) {
    !t.mode.discard && t.mode.utf.remaining == 0 && !t.mode.escape && t.mode.gSelect == 0 && !t.mode.osc && !t.mode.control
  }

  /** Nothing but plain text is in progress. */
  predicate Ground(t: Term)
    requires Fine(t)
  {
    && !t.mode.discard && t.mode.utf.remaining == 0 && !t.mode.escape && t.mode.gSelect == 0
    && !t.setup.insert && t.setup.onlcr && !t.setup.sets[t.setup.charset]
  }

  lemma TextByte(th: Theme, t: Term, c: Byte)
    requires ThemeOk(th) && Fine(t) && Ground(t) && Printable(c)
    ensures OneByte(th, t, c) == t.(s := PutText(t.s, c))
  {
    hide Ok, Utf8Ok, RawPut, FedLine, DEC_SPECIAL, GetX, GetY;
  }

  /** Plain text goes to the screen as Printing says, and nothing else changes. */
  lemma {:induction false} TextBytes(th: Theme, t: Term, text: seq<Byte>)
    requires ThemeOk(th) && Fine(t) && Ground(t) && IsText(text)
    ensures AfterBytes(th, t, text) == t.(s := PutAll(t.s, text))
  {
    hide OneByte, PutText, Ok, Utf8Ok;
    if text != [] {
      var n := |text| - 1;
      TextBytes(th, t, text[..n]);
      TextByte(th, t.(s := PutAll(t.s, text[..n])), text[n]);
    }
  }

  /** CAN ESC c, from any state. */
  lemma StartOverBytes(th: Theme, t: Term)
    requires ThemeOk(th) && Fine(t)
    ensures AfterBytes(th, t, [0x18, 0x1B, B('c')]) == Restarted(t)
  {
    hide Ok, Utf8Ok, AfterBytes, Fresh;
    Three(th, t, 0x18, 0x1B, B('c'));
    var a := Aborted(t);
    assert OneByte(th, t, 0x18) == a;
    assert OneByte(th, a, 0x1B) == a.(mode := a.mode.(escape := true, offset := 0));
  }

  /** Whatever state the terminal is in, CAN ESC c and a text show the layout of the text. */
  lemma PageBytes(th: Theme, t: Term, text: seq<Byte>)
    requires ThemeOk(th) && Fine(t) && t.s.rows <= t.s.cols && IsText(text)
    ensures AfterBytes(th, t, [0x18, 0x1B, B('c')] + text) == Restarted(t).(s := Shown(Fresh(t.s), Layout(t.s.cols, text)))
  {
    hide AfterBytes, OneByte, PutAll, Layout, Page, Utf8Ok;
    Appended(th, t, [0x18, 0x1B, B('c')], text);
    StartOverBytes(th, t);
    TextBytes(th, Restarted(t), text);
    PrintingIsLayout(t.s.(top := 0, bottom := t.s.rows, scrollOn := true), text);
  }

  // ----- characters in UTF-8 -----

  /** The encoding of a character prints that character, even inside an escape sequence. */
  lemma CharacterBytes(th: Theme, t: Term, cp: nat)
    requires ThemeOk(th) && Fine(t) && 0x80 <= cp < 0x11_0000 && !t.mode.discard && t.mode.utf.remaining == 0
    ensures AfterBytes(th, t, Encode(cp)) == t.(s := PutUnicode(t.s, th, cp), mode := t.mode.(utf := Utf8(0, cp)))
  {
    hide AfterBytes, OneByte, PutUnicode, Encode, Lead, Continue, Utf8Ok, Ok;
    var e := Encode(cp);
    DecodeInvertsEncode(cp);
    assert e[..|e|] == e;
    CharacterPart(th, t, e, |e|);
  }

  lemma {:induction false} CharacterPart(th: Theme, t: Term, e: seq<Byte>, n: nat)
    requires ThemeOk(th) && Fine(t) && !t.mode.discard && t.mode.utf.remaining == 0
    requires 1 <= n <= |e| && 2 <= |e| && IsLead(e[0]) && Lead(e[0]).remaining == |e| - 1 <= 3 && forall i :: 1 <= i < |e| ==> IsContinuation(e[i])
    ensures var u := Decode(e, n);
            AfterBytes(th, t, e[..n]) == t.(mode := t.mode.(utf := u), s := if n == |e| then PutUnicode(t.s, th, u.codePoint) else t.s)
  {
    hide AfterBytes, PutUnicode, Lead, Continue, Utf8Ok, Ok, EscapeStep, GroundStep, CharsetStep;
    if n == 1 {
      assert e[..1] == [e[0]];
      One(th, t, e[0]);
    } else {
      CharacterPart(th, t, e, n - 1);
      assert e[..n] == e[..n - 1] + [e[n - 1]];
      Appended(th, t, e[..n - 1], [e[n - 1]]);
      One(th, AfterBytes(th, t, e[..n - 1]), e[n - 1]);
    }
  }

  // ----- control sequences -----

  function DecimalText(n: nat): (s: seq<Byte>)
    ensures s != []
  {
    if n < 10 then [B('0') + n] else DecimalText(n / 10) + [B('0') + n % 10]
  }

  /** v1 ; v2 ; ... */
  function ValuesText(values: seq<Dword>): seq<Byte> {
    if values == [] then []
    else if |values| == 1 then DecimalText(values[0])
    else ValuesText(values[..|values| - 1]) + [B(';')] + DecimalText(values[|values| - 1])
  }

  /** ESC [ v1 ; v2 ; ... c */
  function SequenceText(values: seq<Dword>, c: Byte): seq<Byte> {
    [0x1B, B('[')] + ValuesText(values) + [c]
  }

  /** A control sequence is being read. */
  predicate Reading(t: Term) {
    !t.mode.discard && t.mode.utf.remaining == 0 && t.mode.escape && t.mode.control && !t.mode.osc
  }

  /** n more bytes behind ESC, and these parameters. */
  function Read(t: Term, n: nat, p: Params): Term {
    t.(mode := t.mode.(offset := (t.mode.offset + n) % TWO64), pars := p)
  }

  lemma ParameterByte(th: Theme, t: Term, c: Byte)
    requires ThemeOk(th) && Fine(t) && Reading(t) && IsParameterByte(c)
    ensures OneByte(th, t, c) == Read(t, 1, Fed(t.pars, c))
  {
    hide Ok, Utf8Ok, Fed;
  }

  lemma ReadMore(t: Term, n: nat, m: nat, p: Params, q: Params)
    ensures Read(Read(t, n, p), m, q) == Read(t, n + m, q)
  {
  }

  lemma {:induction false} DecimalBytes(th: Theme, t: Term, n: Dword)
    requires ThemeOk(th) && Fine(t) && Reading(t) && !t.pars.open && t.pars.index < MAX_VALUES && t.pars.vals[t.pars.index] == 0
    ensures AfterBytes(th, t, DecimalText(n)) == Read(t, |DecimalText(n)|, t.pars.(vals := t.pars.vals[t.pars.index := n], open := true))
    decreases n
  {
    hide Ok, Utf8Ok, AfterBytes, OneByte, Fed;
    if n < 10 {
      FedDigit(t.pars, 0, n);
      One(th, t, B('0') + n);
      ParameterByte(th, t, B('0') + n);
    } else {
      var d := DecimalText(n / 10);
      var p := t.pars.(vals := t.pars.vals[t.pars.index := n / 10], open := true);
      DecimalBytes(th, t, n / 10);
      Appended(th, t, d, [B('0') + n % 10]);
      var r := Read(t, |d|, p);
      One(th, r, B('0') + n % 10);
      ParameterByte(th, r, B('0') + n % 10);
      FedDigit(p, n / 10, n % 10);
      ReadMore(t, |d|, 1, p, Fed(p, B('0') + n % 10));
    }
  }

  lemma FedDigit(p: Params, v: Dword, d: nat)
    requires ParamsOk(p) && p.index < MAX_VALUES && p.vals[p.index] == v && d < 10 && v * 10 + d < 0x1_0000_0000
    ensures IsParameterByte(B('0') + d) && Fed(p, B('0') + d) == p.(vals := p.vals[p.index := v * 10 + d], open := true)
  {
  }

  /** The values have been given in order. */
  function Given(values: seq<Dword>): (p: Params)
    requires |values| <= MAX_VALUES
    ensures ParamsOk(p) && Count(p) == |values| && p.vals[..|values|] == values
  {
    Params(values + NO_PARAMS.vals[|values|..], if values == [] then 0 else |values| - 1, values != [])
  }

  lemma {:induction false} ValuesBytes(th: Theme, t: Term, values: seq<Dword>)
    requires ThemeOk(th) && Fine(t) && Reading(t) && t.pars == NO_PARAMS && |values| <= MAX_VALUES
    ensures AfterBytes(th, t, ValuesText(values)) == Read(t, |ValuesText(values)|, Given(values))
    decreases |values|
  {
    hide Ok, Utf8Ok, AfterBytes, OneByte, Fed, DecimalText, Given, Fine, NO_PARAMS;
    ZerosOnly();
    var n := |values| - 1;
    if values == [] {
      NoBytes(th, t);
    } else if n == 0 {
      DecimalBytes(th, t, values[0]);
      OnlyPlace(values);
    } else {
      var a := ValuesText(values[..n]);
      ValuesBytes(th, t, values[..n]);
      Appended(th, t, a + [B(';')], DecimalText(values[n]));
      Appended(th, t, a, [B(';')]);
      var r := Read(t, |a|, Given(values[..n]));
      One(th, r, B(';'));
      ParameterByte(th, r, B(';'));
      var q := NextPlace(values, n);
      var r1 := Read(t, |a| + 1, q);
      ReadMore(t, |a|, 1, Given(values[..n]), q);
      DecimalBytes(th, r1, values[n]);
      ReadMore(t, |a| + 1, |DecimalText(values[n])|, q, Given(values));
    }
  }

  lemma NoBytes(th: Theme, t: Term)
    requires ThemeOk(th) && Fine(t)
    ensures AfterBytes(th, t, []) == t
    ensures Fine(t) && t.pars == NO_PARAMS && t.mode.offset < TWO64 ==> Read(t, 0, Given([])) == t
  {
    hide OneByte, Fine;
    assert [] + NO_PARAMS.vals[0..] == NO_PARAMS.vals;
  }

  lemma OnlyPlace(values: seq<Dword>)
    requires |values| == 1
    ensures NO_PARAMS.(vals := NO_PARAMS.vals[0 := values[0]], open := true) == Given(values)
  {
    hide NO_PARAMS;
    ZerosOnly();
    assert NO_PARAMS.vals[0 := values[0]] == values + NO_PARAMS.vals[1..];
  }

  lemma NextPlace(values: seq<Dword>, n: nat) returns (q: Params)
    requires 0 < n == |values| - 1 && |values| <= MAX_VALUES
    ensures IsParameterByte(B(';')) && q == Fed(Given(values[..n]), B(';')) && ParamsOk(q) && !q.open && q.index == n && q.vals[n] == 0
    ensures q.(vals := q.vals[n := values[n]], open := true) == Given(values)
  {
    hide NO_PARAMS;
    ZerosOnly();
    q := Fed(Given(values[..n]), B(';'));
    assert q.vals == values[..n] + NO_PARAMS.vals[n..];
    assert q.vals[n := values[n]] == values + NO_PARAMS.vals[n + 1..];
  }

  lemma ZerosOnly()
    ensures |NO_PARAMS.vals| == MAX_VALUES && !NO_PARAMS.open && NO_PARAMS.index == 0
    ensures forall i :: 0 <= i < MAX_VALUES ==> NO_PARAMS.vals[i] == 0
  {
  }

  /** ESC [ v1 ; v2 ; ... c, from a state with nothing in progress. */
  function Finished(th: Theme, t: Term, values: seq<Dword>, c: Byte): (r: Term)
    requires ThemeOk(th) && Fine(t) && |values| <= MAX_VALUES
    ensures Fine(r)
  {
    var m := t.mode.(unhandled := false, offset := (|ValuesText(values)| + 2) % TWO64);
    var p := Closed(Given(values), c);
    if t.mode.private then PrivateEnds(t.(mode := m, pars := p), c)
    else if IsKnown(c) then Performed(th, t.(mode := m, pars := p), c).(pars := NO_PARAMS)
    else t.(mode := m.(escape := true, control := true, unhandled := true), pars := p, s := t.s.(scrollOn := false))
  }

  lemma SequenceBytes(th: Theme, t: Term, values: seq<Dword>, c: Byte)
    requires ThemeOk(th) && Fine(t) && Idle(t) && |values| <= MAX_VALUES && IsFinal(c)
    ensures AfterBytes(th, t, SequenceText(values, c)) == Finished(th, t, values, c)
  {
    hide Ok, Utf8Ok, AfterBytes, OneByte, ValuesText, Performed, Closed, Given, PrivateEnds;
    var v := ValuesText(values);
    var t2 := Introduced(th, t);
    assert SequenceText(values, c) == [0x1B] + ([B('[')] + (v + [c]));
    First(th, t, 0x1B, [B('[')] + (v + [c]));
    First(th, OneByte(th, t, 0x1B), B('['), v + [c]);
    Appended(th, t2, v, [c]);
    ValuesBytes(th, t2, values);
    var r := Read(t2, |v|, Given(values));
    One(th, r, c);
    FinalByte(th, t, r, values, c);
  }

  lemma Introduced(th: Theme, t: Term) returns (t2: Term)
    requires ThemeOk(th) && Fine(t) && Idle(t)
    ensures t2 == t.(mode := t.mode.(escape := true, control := true, unhandled := false, offset := 1), pars := NO_PARAMS)
    ensures t2 == OneByte(th, OneByte(th, t, 0x1B), B('[')) && Reading(t2) && Fine(t2)
  {
    hide Ok, Utf8Ok;
    t2 := OneByte(th, OneByte(th, t, 0x1B), B('['));
  }

  lemma FinalByte(th: Theme, t: Term, r: Term, values: seq<Dword>, c: Byte)
    requires ThemeOk(th) && Fine(t) && Idle(t) && |values| <= MAX_VALUES && IsFinal(c)
    requires r == t.(mode := t.mode.(escape := true, control := true, unhandled := false, offset := (1 + |ValuesText(values)|) % TWO64), pars := Given(values))
    ensures OneByte(th, r, c) == Finished(th, t, values, c)
  {
    hide Ok, Utf8Ok, Performed, Closed, Given, PrivateEnds, IsKnown, ValuesText;
    FinalBytes();
    var e := r.(mode := r.mode.(offset := (|ValuesText(values)| + 2) % TWO64));
    FinalStep(th, r, c);
    assert e == r.(mode := r.mode.(offset := (r.mode.offset + 1) % TWO64));
    var p := Closed(r.pars, c);
    if t.mode.private {
      PrivateOver(t, e.(pars := p), c);
    } else if IsKnown(c) {
      var e' := e.(pars := p);
      PerformedMode(th, e', e.mode.(escape := false, control := false), c);
      PerformedMode(th, e', e.mode, c);
      assert e'.(mode := e.mode) == e';
      assert e'.(mode := e.mode.(escape := false, control := false)) == t.(mode := e.mode.(escape := false, control := false), pars := p);
    }
  }

  lemma FinalStep(th: Theme, r: Term, c: Byte)
    requires ThemeOk(th) && Fine(r) && Reading(r) && IsFinal(c)
    ensures var e := r.(mode := r.mode.(offset := (r.mode.offset + 1) % TWO64), pars := Closed(r.pars, c));
            OneByte(th, r, c) == if r.mode.private then PrivateEnds(e, c) else SequenceEnds(th, e, c)
  {
    hide Ok, Utf8Ok, SequenceEnds, Closed, PrivateEnds;
  }

  /** A sequence takes effect whatever the parser is doing. */
  lemma PerformedMode(th: Theme, t: Term, m: Mode, c: Byte)
    requires ThemeOk(th) && Fine(t) && Fine(t.(mode := m))
    ensures Performed(th, t.(mode := m), c) == Performed(th, t, c).(mode := m)
  {
    hide Ok, Utf8Ok, SgrAll, Effect;
  }

  lemma PrivateOver(t: Term, e: Term, c: Byte)
    requires Fine(e) && Fine(t.(mode := e.mode.(escape := false, control := false), pars := e.pars)) && e.s == t.s && e.look == t.look && e.kept == t.kept && e.setup == t.setup
    ensures PrivateEnds(e, c) == PrivateEnds(t.(mode := e.mode.(escape := false, control := false), pars := e.pars), c)
  {
    hide Ok, Utf8Ok;
  }

  // ----- what a control sequence does to the screen -----

  /** The effect of ESC [ v1 ; v2 ; ... c on the screen, CSI m aside. */
  function Sequence(s: Screen, values: seq<Dword>, c: Byte, u: Word, v: Word): (r: Screen)
    requires Ok(s)
    ensures Ok(r)
  {
    var n0 := if |values| > 0 then values[0] else DefaultOf(c);
    var n1 := if |values| > 1 then values[1] else DefaultOf(c);
    Effect(s.(scrollOn := false), c, n0, n1, |values|, u, v).(scrollOn := s.scrollOn)
  }

  lemma ClosedValues(values: seq<Dword>, c: Byte)
    requires |values| <= MAX_VALUES
    ensures var p := Closed(Given(values), c);
            && p.vals[0] == (if |values| > 0 then values[0] else DefaultOf(c))
            && p.vals[1] == (if |values| > 1 then values[1] else DefaultOf(c))
            && p.index == |values| && p.vals[..|values|] == values
  {
    hide DefaultOf;
    var p := Closed(Given(values), c);
    forall i | 0 <= i < |values| ensures p.vals[i] == values[i] {
      assert Given(values).vals[i] == values[i];
    }
  }

  /** The screen after a control sequence: unchanged if the terminal was left private, but for scrolling if the byte is unknown, and as Sequence says otherwise. */
  lemma FinishedScreen(th: Theme, t: Term, values: seq<Dword>, c: Byte)
    requires ThemeOk(th) && Fine(t) && |values| <= MAX_VALUES
    ensures Finished(th, t, values, c).s ==
            if t.mode.private then t.s
            else if !IsKnown(c) then t.s.(scrollOn := false)
            else if c == B('m') then Painted(t, SgrAll(th, PaintOf(t), if values == [] then [0] else values)).s
            else Sequence(t.s, values, c, t.setup.cx, t.setup.cy)
  {
    hide Ok, Utf8Ok, SgrAll, Moved, Edited, Closed, Given, DefaultOf, ValuesText;
    ClosedValues(values, c);
  }

  /** A sequence leaves nothing in progress, unless its final byte is unknown. */
  lemma FinishedIdle(th: Theme, t: Term, values: seq<Dword>, c: Byte)
    requires ThemeOk(th) && Fine(t) && Idle(t) && |values| <= MAX_VALUES
    ensures var r := Finished(th, t, values, c);
            && !r.mode.private && (t.mode.private || IsKnown(c) ==> Idle(r) && r.kept == t.kept)
            && r.s.scrollOn == (t.s.scrollOn && (t.mode.private || IsKnown(c)))
  {
    hide Ok, Utf8Ok, SgrAll, Effect, Closed, Given, ValuesText;
  }

  /** A cursor sequence has its effect on every screen if and only if the terminal was not left private. */
  lemma SentExactly(th: Theme, t: Term, values: seq<Dword>, c: Byte)
    requires ThemeOk(th) && Fine(t) && IsMove(c) && |values| <= MAX_VALUES
    ensures (forall s: Screen :: Ok(s) ==> Finished(th, t.(s := s), values, c).s == Sequence(s, values, c, t.setup.cx, t.setup.cy)) <==> !t.mode.private
  {
    hide Sequence, Finished, Utf8Ok;
    forall s: Screen | Ok(s)
      ensures Finished(th, t.(s := s), values, c).s == if t.mode.private then s else Sequence(s, values, c, t.setup.cx, t.setup.cy)
    {
      FinishedScreen(th, t.(s := s), values, c);
    }
    if t.mode.private {
      var s := Screen(1, 1, [Cell(0x20, 0, 0)], 1, 0, 0, 0, 0, 1, false);
      MoveEndsWrap(s, values, c);
      assert Finished(th, t.(s := s), values, c).s != Sequence(s, values, c, t.setup.cx, t.setup.cy);
    }
  }

  /** Moving the cursor ends a pending wrap, whatever the parameters. */
  lemma MoveEndsWrap(s: Screen, values: seq<Dword>, c: Byte)
    requires Ok(s) && IsMove(c)
    ensures forall u: Word, v: Word :: Sequence(s, values, c, u, v).x < s.cols
  {
  }

  /** Behind an unknown final byte the next letter is skipped, and scrolling stays off. */
  lemma UnhandledBytes(th: Theme, t: Term, values: seq<Dword>, c: Byte, next: Byte)
    requires ThemeOk(th) && Fine(t) && Idle(t) && !t.mode.private && |values| <= MAX_VALUES && IsFinal(c) && !IsKnown(c) && IsFinal(next)
    ensures var r := AfterBytes(th, t, SequenceText(values, c) + [next]);
            Idle(r) && !r.mode.private && r.s == t.s.(scrollOn := false) && r.look == t.look && r.setup == t.setup && r.kept == t.kept
  {
    hide Ok, Utf8Ok, AfterBytes, Closed, Given, ValuesText, SequenceText, IsKnown, Performed;
    Appended(th, t, SequenceText(values, c), [next]);
    SequenceBytes(th, t, values, c);
    var r := Finished(th, t, values, c);
    One(th, r, next);
    SkippedByte(th, r, next);
  }

  lemma SkippedByte(th: Theme, r: Term, next: Byte)
    requires ThemeOk(th) && Fine(r) && Reading(r) && r.mode.unhandled && !r.mode.private && IsFinal(next)
    ensures var q := OneByte(th, r, next);
            && q.mode == r.mode.(escape := false, control := false, unhandled := false, offset := (r.mode.offset + 1) % TWO64)
            && q.s == r.s.(scrollOn := false) && q.look == r.look && q.setup == r.setup && q.kept == r.kept
  {
    hide Ok, Utf8Ok, Performed, Closed;
    FinalStep(th, r, next);
  }

  /** ESC [1;2r ESC [J: what is on the rows below the margin stays, on any screen of three rows or more. */
  lemma MarginBytes(th: Theme, t: Term)
    requires ThemeOk(th) && Fine(t) && Idle(t) && !t.mode.private && 3 <= t.s.rows
    ensures var r := AfterBytes(th, t, SequenceText([1, 2], B('r')) + SequenceText([], B('J')));
            Idle(r) && r.s.top == 0 && r.s.bottom == 2 && SameFrom(t.s, r.s, 2)
  {
    hide Utf8Ok, AfterBytes, SequenceText, Finished, Sequence, SameFrom;
    Appended(th, t, SequenceText([1, 2], B('r')), SequenceText([], B('J')));
    SequenceBytes(th, t, [1, 2], B('r'));
    FinishedIdle(th, t, [1, 2], B('r'));
    FinishedScreen(th, t, [1, 2], B('r'));
    MarginsSet(t.s, t.setup.cx, t.setup.cy);
    var m := Finished(th, t, [1, 2], B('r'));
    SequenceBytes(th, m, [], B('J'));
    FinishedIdle(th, m, [], B('J'));
    FinishedScreen(th, m, [], B('J'));
    MarginsKept(t.s, m.setup.cx, m.setup.cy);
  }

  lemma MarginsSet(s: Screen, u: Word, v: Word)
    requires Ok(s) && 3 <= s.rows
    ensures Sequence(s, [1, 2], B('r'), u, v) == s.(top := 0, bottom := 2, x := 0, y := 0)
  {
  }

  lemma MarginsKept(s: Screen, u: Word, v: Word)
    requires Ok(s) && 3 <= s.rows
    ensures var r := Sequence(s.(top := 0, bottom := 2, x := 0, y := 0), [], B('J'), u, v);
            r.top == 0 && r.bottom == 2 && SameFrom(s, r, 2)
  {
    hide DisplayErased, SameFrom, BlanksView, Moved, Sequence, Filled, Cells;
    var o := s.(scrollOn := false);
    var t := o.(top := 0, bottom := 2, x := 0, y := 0);
    EraseSent(s.(top := 0, bottom := 2, x := 0, y := 0), u, v);
    RegionSet(o, u, v);
    EraseStopsAtMargin(o, u, v);
    EraseDisplayIs(t);
    SameRows(s, DisplayErased(t, 0), s.scrollOn);
  }

  lemma EraseSent(s: Screen, u: Word, v: Word)
    requires Ok(s)
    ensures Sequence(s, [], B('J'), u, v) == DisplayErased(s.(scrollOn := false), 0).(scrollOn := s.scrollOn)
  {
    hide DisplayErased, Moved;
  }

  lemma RegionSet(s: Screen, u: Word, v: Word)
    requires Ok(s) && 3 <= s.rows
    ensures Moved(s, B('r'), 1, 2, 2, u, v) == s.(top := 0, bottom := 2, x := 0, y := 0)
  {
  }

  lemma SameRows(s: Screen, r: Screen, on: bool)
    requires SameFrom(s.(scrollOn := false), r, 2)
    ensures SameFrom(s, r.(scrollOn := on), 2)
  {
  }

  /** CAN in the middle of a private sequence: nothing is in progress, but the next control sequence will be taken for private. */
  lemma AbandonedBytes(th: Theme, t: Term)
    requires ThemeOk(th) && Fine(t) && Idle(t)
    ensures var r := AfterBytes(th, t, [0x1B, B('['), B('?'), 0x18]); Idle(r) && r.mode.private && r.s == t.s
  {
    hide Ok, Utf8Ok, AfterBytes;
    assert [0x1B, B('['), B('?'), 0x18] == [0x1B] + ([B('[')] + [B('?'), 0x18]);
    First(th, t, 0x1B, [B('[')] + [B('?'), 0x18]);
    First(th, OneByte(th, t, 0x1B), B('['), [B('?'), 0x18]);
    var t2 := Introduced(th, t);
    assert [B('?'), 0x18] == [B('?')] + [0x18];
    First(th, t2, B('?'), [0x18]);
    QuestionMark(th, t2);
    One(th, OneByte(th, t2, B('?')), 0x18);
  }

  lemma QuestionMark(th: Theme, t: Term)
    requires ThemeOk(th) && Fine(t) && Reading(t) && t.mode.offset == 1
    ensures OneByte(th, t, B('?')) == t.(mode := t.mode.(private := true, offset := 2))
  {
    hide Ok, Utf8Ok;
  }

  // ----- CSI m -----

  /** Codes that leave colours and attributes together whatever the state. */
  predicate KeepsColours(v: Dword) {
    v == 0 || v == 7 || v == 27 || v == 39 || v == 49 || 30 <= v <= 37 || 40 <= v <= 47
  }

  /** The attribute that such a code sets. */
  function LookAfter(l: Look, v: Dword): Look
    requires KeepsColours(v)
  {
    if v == 0 then PLAIN
    else if v == 7 || v == 27 then l.(reverse := v == 7)
    else if v < 40 then l.(primary := if v == 39 then -1 else v - 30)
    else l.(background := if v == 49 then -1 else v - 40)
  }

  lemma SgrKeeps(th: Theme, p: Paint, v: Dword)
    requires ThemeOk(th) && Coherent(th, p) && KeepsColours(v)
    ensures SgrOne(th, p, v) == Rendered(th, LookAfter(p.look, v))
  {
  }

  function LookAll(l: Look, values: seq<Dword>): Look
    requires forall i :: 0 <= i < |values| ==> KeepsColours(values[i])
    decreases |values|
  {
    if values == [] then l else LookAll(LookAfter(l, values[0]), values[1..])
  }

  /** From colours that belong to the attributes, such codes in any number set the attributes they name, and the colours of these. */
  lemma {:induction false} SgrKeepsAll(th: Theme, p: Paint, values: seq<Dword>)
    requires ThemeOk(th) && Coherent(th, p) && forall i :: 0 <= i < |values| ==> KeepsColours(values[i])
    ensures SgrAll(th, p, values) == Rendered(th, LookAll(p.look, values))
    decreases |values|
  {
    hide SgrOne, Rendered, LookAfter;
    if values != [] {
      RenderedLook(th, p.look);
      SgrKeeps(th, p, values[0]);
      RenderedLook(th, LookAfter(p.look, values[0]));
      SgrKeepsAll(th, SgrOne(th, p, values[0]), values[1..]);
    }
  }

  lemma RenderedLook(th: Theme, l: Look)
    requires ThemeOk(th)
    ensures Rendered(th, l).look == l && Coherent(th, Rendered(th, l))
  {
  }

  /**
   * 1, 5, 22 and 25 switch the brightness.  Under reverse video a default colour is
   * replaced by the default of the other kind, so colours and attributes part unless
   * these agree.
   */
  lemma IntensityExactly(th: Theme, p: Paint, v: Dword)
    requires ThemeOk(th) && Coherent(th, p) && (v == 1 || v == 5 || v == 22 || v == 25)
    ensures var q := SgrOne(th, p, v);
            && q.look == (if v == 1 || v == 22 then p.look.(bold := v == 1) else p.look.(bgBold := v == 5))
            && (Coherent(th, q) <==> !(p.look.reverse && (if v == 1 || v == 22 then p.look.primary else p.look.background) == -1)
                                     || (if v < 10 then th.fgBright == th.bgBright else th.fg == NO_BG))
  {
  }

  /** 90-97 and 100-107 set the attribute and draw it in its bright colour, exchanged under reverse video. */
  lemma BrightShade(th: Theme, p: Paint, v: Dword)
    requires ThemeOk(th) && (90 <= v <= 97 || 100 <= v <= 107)
    ensures var q := SgrOne(th, p, v);
            && q.look == (if v < 100 then p.look.(primary := v - 90) else p.look.(background := v - 100))
            && q == Drawn(p.(look := q.look), (v < 100) != p.look.reverse, th.bright[v % 10])
  {
  }

  /** 38 and 48 draw the colour where it is on the screen: under reverse video CSI 27 m then turns the text colour into the ground. */
  lemma ExtendedReversed(th: Theme, p: Paint, n: Dword)
    requires ThemeOk(th) && p.look.reverse && n < 256
    ensures var q := SgrAll(th, p, [38, 5, n, 27]); q.bg == Palette(th, n) && !q.look.reverse
  {
    hide Palette;
    assert [38, 5, n, 27][3..] == [27];
    SgrSingle(th, Drawn(p, true, Palette(th, n)), 27);
    assert SgrAll(th, p, [38, 5, n, 27]) == SgrAll(th, Drawn(p, true, Palette(th, n)), [27]);
  }

  /** ESC [ v m on a terminal without bold and reverse video: the text to come has colour v - 30. */
  lemma ColourBytes(th: Theme, t: Term, v: Dword)
    requires ThemeOk(th) && Fine(t) && Idle(t) && !t.mode.private && 30 <= v <= 37
    requires Coherent(th, PaintOf(t)) && !t.look.bold && !t.look.reverse
    ensures var r := AfterBytes(th, t, SequenceText([v], B('m')));
            Idle(r) && r.s == t.s.(fg := th.ansi[v - 30]) && r.look == t.look.(primary := v - 30) && r.setup == t.setup
  {
    hide Utf8Ok, Ok, AfterBytes, SequenceText, SgrAll, Closed, Given, ValuesText;
    SequenceBytes(th, t, [v], B('m'));
    FinishedIdle(th, t, [v], B('m'));
    ClosedValues([v], B('m'));
    SgrSingle(th, PaintOf(t), v);
    SgrKeeps(th, PaintOf(t), v);
    var p := Closed(Given([v]), B('m'));
    assert p.vals[..1] == [v];
  }

  // ----- control characters -----

  /** The characters in these colours, from index lo on. */
  function Laid(v: seq<Cell>, lo: nat, text: seq<Byte>, fg: Colour, bg: Colour): (r: seq<Cell>)
    requires lo + |text| <= |v|
    ensures |r| == |v|
    ensures forall i :: 0 <= i < |v| ==> r[i] == if lo <= i < lo + |text| then Cell(text[i - lo], fg, bg) else v[i]
  {
    if text == [] then v else Laid(v, lo, text[..|text| - 1], fg, bg)[lo + |text| - 1 := Cell(text[|text| - 1], fg, bg)]
  }

  /** Text typed over the row of the cursor from column 0 on. */
  function Overwritten(s: Screen, text: seq<Byte>): (r: Screen)
    requires Ok(s) && s.y < s.rows && |text| <= s.cols
    ensures Ok(r)
  {
    RowInView(s);
    Sides(s);
    s.(view := Laid(s.view, S.At(s.cols, 0, s.y), text, s.fg, s.bg), x := |text|)
  }

  lemma RowInView(s: Screen)
    requires Ok(s) && s.y < s.rows
    ensures S.At(s.cols, 0, s.y) + s.cols <= |s.view|
  {
    AtInside(s.rows, s.cols, 0, s.y);
  }

  predicate IsLine(text: seq<Byte>) {
    forall i :: 0 <= i < |text| ==> 0x20 <= text[i] <= 0x7E
  }

  lemma {:induction false} TypedRow(s: Screen, text: seq<Byte>)
    requires Ok(s) && s.x == 0 && s.y < s.rows && |text| <= s.cols && IsLine(text)
    ensures PutAll(s, text) == Overwritten(s, text)
  {
    hide Ok, RawPut;
    if text == [] {
      TypedNothing(s);
    } else {
      var n := |text| - 1;
      TypedRow(s, text[..n]);
      TypedNext(s, text, n);
    }
  }

  lemma TypedNothing(s: Screen)
    requires Ok(s) && s.x == 0 && s.y < s.rows
    ensures Overwritten(s, []) == s
  {
    RowInView(s);
  }

  lemma TypedNext(s: Screen, text: seq<Byte>, n: nat)
    requires Ok(s) && s.y < s.rows && |text| <= s.cols && IsLine(text) && n == |text| - 1
    ensures RawPut(Overwritten(s, text[..n]), text[n]) == Overwritten(s, text)
  {
    hide S.At, Wrap;
    var w := Overwritten(s, text[..n]);
    RowInView(s);
    Sides(s);
    Csi.NoWrap(w);
    AtInside(s.rows, s.cols, n, s.y);
    AtNext(s.cols, 0, n, s.y);
  }

  /** Text, CR and shorter text: the second text stands over the beginning of the first. */
  lemma ReturnBytes(th: Theme, t: Term, a: seq<Byte>, b: seq<Byte>)
    requires ThemeOk(th) && Fine(t) && Ground(t) && t.s.x == 0 && t.s.y < t.s.rows
    requires IsLine(a) && IsLine(b) && |b| <= |a| <= t.s.cols
    ensures AfterBytes(th, t, a + [13] + b) == t.(s := Overwritten(t.s, b + a[|b|..]).(x := |b|))
  {
    hide AfterBytes, OneByte, Utf8Ok, PutAll;
    Sides(t.s);
    Appended(th, t, a + [13], b);
    Appended(th, t, a, [13]);
    TextBytes(th, t, a);
    TypedRow(t.s, a);
    var t1 := t.(s := Overwritten(t.s, a));
    One(th, t1, 13);
    ReturnByte(th, t1);
    var t2 := t1.(s := t1.s.(x := 0));
    TextBytes(th, t2, b);
    TypedRow(t2.s, b);
    OverTwice(t.s, a, b);
  }

  lemma ReturnByte(th: Theme, t: Term)
    requires ThemeOk(th) && Fine(t) && Ground(t) && t.s.y < t.s.rows
    ensures OneByte(th, t, 13) == t.(s := t.s.(x := 0))
  {
    hide Utf8Ok;
  }

  lemma OverTwice(s: Screen, a: seq<Byte>, b: seq<Byte>)
    requires Ok(s) && s.y < s.rows && |b| <= |a| <= s.cols < TWO64
    ensures Overwritten(Overwritten(s, a).(x := 0), b) == Overwritten(s, b + a[|b|..]).(x := |b|)
  {
    hide S.At;
    RowInView(s);
    assert Overwritten(Overwritten(s, a).(x := 0), b).view == Overwritten(s, b + a[|b|..]).view;
  }

  /** BS and a character put it over the one before, if there is one. */
  lemma BackspaceBytes(th: Theme, t: Term, c: Byte)
    requires ThemeOk(th) && Fine(t) && Ground(t) && 0 < t.s.x < t.s.cols && t.s.y < t.s.rows && 0x20 <= c <= 0x7E
    ensures S.At(t.s.cols, t.s.x - 1, t.s.y) < |t.s.view|
    ensures AfterBytes(th, t, [8, c]) == t.(s := t.s.(view := t.s.view[S.At(t.s.cols, t.s.x - 1, t.s.y) := Cell(c, t.s.fg, t.s.bg)]))
  {
    hide AfterBytes, Utf8Ok;
    Sides(t.s);
    AtInside(t.s.rows, t.s.cols, t.s.x - 1, t.s.y);
    assert [8, c] == [8] + [c];
    First(th, t, 8, [c]);
    var t1 := t.(s := t.s.(x := t.s.x - 1));
    BackByte(th, t);
    One(th, t1, c);
    TextByte(th, t1, c);
    Csi.NoWrap(t1.s);
  }

  lemma BackByte(th: Theme, t: Term)
    requires ThemeOk(th) && Fine(t) && Ground(t) && 0 < t.s.x < t.s.cols && t.s.y < t.s.rows
    ensures OneByte(th, t, 8) == t.(s := t.s.(x := t.s.x - 1))
  {
    hide Utf8Ok;
  }

  /** TAB goes to the next multiple of 8, or to the last column. */
  lemma TabByte(th: Theme, t: Term)
    requires ThemeOk(th) && Fine(t) && Ground(t) && t.setup.tab == 8 && t.s.x < t.s.cols < 0x400_0000 && t.s.y < t.s.rows
    ensures OneByte(th, t, 9) == t.(s := t.s.(x := Min(t.s.x / 8 * 8 + 8, t.s.cols - 1)))
  {
    hide Utf8Ok, Ok;
    Sides(t.s);
    TabStop(t.s);
  }

  lemma TabStop(s: Screen)
    requires Ok(s) && s.x < s.cols < 0x400_0000 && s.y < s.rows
    ensures Tabbed(s, 8) == s.(x := Min(s.x / 8 * 8 + 8, s.cols - 1))
  {
    hide Ok;
    NextStop(s.x);
  }

  lemma NextStop(x: nat)
    requires x < 0x400_0000
    ensures var v := (x / 8 + 1) * 8;
            v == x / 8 * 8 + 8 && x < v <= x + 8 && v % TWO64 == v && v % 0x1_0000_0000 == v
  {
  }

  /** BEL, NUL and DEL do nothing. */
  lemma NothingByte(th: Theme, t: Term, c: Byte)
    requires ThemeOk(th) && Fine(t) && Ground(t) && c in {0, 7, 0x7F}
    ensures OneByte(th, t, c) == t
  {
    hide Utf8Ok, Ok;
  }

  /** VT and FF are line feeds. */
  lemma FeedByte(th: Theme, t: Term, c: Byte)
    requires ThemeOk(th) && Fine(t) && Ground(t) && (c == 11 || c == 12)
    ensures OneByte(th, t, c) == OneByte(th, t, NEWLINE) == t.(s := PutText(t.s, NEWLINE))
  {
    hide Utf8Ok, Ok, FedLine;
  }

  // ----- escape sequences -----

  lemma EscapeBytes(th: Theme, t: Term, c: Byte)
    requires ThemeOk(th) && Fine(t) && Idle(t) && 0x20 <= c <= 0x7E
    ensures Fine(t.(mode := t.mode.(escape := true, offset := 1)))
    ensures AfterBytes(th, t, [0x1B, c]) == EscapeEnds(t.(mode := t.mode.(escape := true, offset := 1)), c)
  {
    hide Utf8Ok, Ok, AfterBytes, EscapeEnds;
    assert [0x1B, c] == [0x1B] + [c];
    First(th, t, 0x1B, [c]);
    One(th, OneByte(th, t, 0x1B), c);
  }

  /** Nothing but ESC 7 changes what ESC 7 has saved. */
  lemma KeptStays(th: Theme, t: Term, c: Byte)
    requires ThemeOk(th) && Fine(t) && (c == B('7') ==> !t.mode.escape || t.mode.control)
    ensures OneByte(th, t, c).kept == t.kept
  {
    hide Utf8Ok, Ok, Effect, SgrAll, Closed, Fed, PutUnicode, Controlled, Typed, Fresh, FedLine, FedBack;
  }

  /** ESC 7, anything but another ESC 7, and ESC 8: attributes, character set, colours and cursor are as they were. */
  lemma SaveAndRestore(th: Theme, t: Term, bytes: seq<Byte>)
    requires ThemeOk(th) && Fine(t) && Idle(t) && B('7') !in bytes
    requires Idle(AfterBytes(th, t, [0x1B, B('7')] + bytes))
    ensures var r := AfterBytes(th, t, [0x1B, B('7')] + bytes + [0x1B, B('8')]);
            && Idle(r) && r.look == t.look && r.setup.charset == t.setup.charset
            && (r.s.fg, r.s.bg, r.s.x, r.s.y) == (t.s.fg, t.s.bg, t.s.x, t.s.y)
  {
    hide Utf8Ok, Ok, AfterBytes, OneByte, Fine;
    EscapeBytes(th, t, B('7'));
    var t1 := AfterBytes(th, t, [0x1B, B('7')]);
    Appended(th, t, [0x1B, B('7')], bytes);
    KeptAlong(th, t1, bytes);
    var t2 := AfterBytes(th, t1, bytes);
    Appended(th, t, [0x1B, B('7')] + bytes, [0x1B, B('8')]);
    EscapeBytes(th, t2, B('8'));
  }

  lemma {:induction false} KeptAlong(th: Theme, t: Term, bytes: seq<Byte>)
    requires ThemeOk(th) && Fine(t) && B('7') !in bytes
    ensures AfterBytes(th, t, bytes).kept == t.kept
  {
    hide OneByte, Fine;
    if bytes != [] {
      var n := |bytes| - 1;
      assert B('7') !in bytes[..n] && bytes[n] in bytes;
      KeptAlong(th, t, bytes[..n]);
      KeptStays(th, AfterBytes(th, t, bytes[..n]), bytes[n]);
    }
  }

  /** ESC ( 0 makes set 0 the special one, ESC ( B the plain one; ESC ) does the same for set 1. */
  lemma CharsetBytes(th: Theme, t: Term, second: bool, special: bool)
    requires ThemeOk(th) && Fine(t) && Idle(t)
    ensures var r := AfterBytes(th, t, [0x1B, if second then B(')') else B('('), if special then B('0') else B('B')]);
            Idle(r) && r.s == t.s && r.setup == t.setup.(sets := t.setup.sets[(if second then 1 else 0) := special])
  {
    hide Utf8Ok, Ok, AfterBytes;
    var c, d := if second then B(')') else B('('), if special then B('0') else B('B');
    Three(th, t, 0x1B, c, d);
    EscapeByte(th, t);
    var t1 := OneByte(th, t, 0x1B);
    SelectByte(th, t1, second);
    ChosenByte(th, OneByte(th, t1, c), d);
  }

  lemma EscapeByte(th: Theme, t: Term)
    requires ThemeOk(th) && Fine(t) && Idle(t)
    ensures OneByte(th, t, 0x1B) == t.(mode := t.mode.(escape := true, offset := 0))
  {
    hide Utf8Ok, Ok;
  }

  lemma SelectByte(th: Theme, t: Term, second: bool)
    requires ThemeOk(th) && Fine(t) && !t.mode.discard && t.mode.utf.remaining == 0 && t.mode.escape && !t.mode.control && !t.mode.osc && t.mode.offset == 0
    ensures OneByte(th, t, if second then B(')') else B('(')) == t.(mode := t.mode.(escape := false, offset := 1, gSelect := if second then 2 else 1))
  {
    hide Utf8Ok, Ok;
  }

  lemma ChosenByte(th: Theme, t: Term, d: Byte)
    requires ThemeOk(th) && Fine(t) && !t.mode.discard && t.mode.utf.remaining == 0 && !t.mode.escape && 0 < t.mode.gSelect && (d == B('0') || d == B('B'))
    ensures OneByte(th, t, d) == t.(mode := t.mode.(gSelect := 0), setup := t.setup.(sets := t.setup.sets[t.mode.gSelect - 1 := d == B('0')]))
  {
    hide Utf8Ok, Ok;
  }

  /** SO and SI choose set 1 and set 0; a special character is then drawn as DEC_SPECIAL says, here a horizontal line. */
  lemma LineDrawingBytes(th: Theme, t: Term)
    requires ThemeOk(th) && Fine(t) && Ground(t) && t.setup.sets == [false, true] && t.setup.charset == 0
    ensures AfterBytes(th, t, [14, B('q'), 15]) == t.(s := RawPut(t.s, 0xC4))
  {
    hide Utf8Ok, Ok, AfterBytes, RawPut;
    Three(th, t, 14, B('q'), 15);
    assert OneByte(th, t, 14) == t.(setup := t.setup.(charset := 1));
    assert OneByte(th, t.(setup := t.setup.(charset := 1)), B('q')) == t.(s := RawPut(t.s, 0xC4), setup := t.setup.(charset := 1));
  }

  /** ESC ], a string and BEL, or ESC and a backslash: the terminal is as before, whatever plain bytes the string has. */
  lemma {:induction false} StringBytes(th: Theme, t: Term, text: seq<Byte>)
    requires ThemeOk(th) && Fine(t) && !t.mode.discard && t.mode.utf.remaining == 0 && t.mode.escape && t.mode.osc && !t.mode.oscEscape && IsLine(text)
    ensures AfterBytes(th, t, text) == t.(mode := t.mode.(offset := (t.mode.offset + |text|) % TWO64))
  {
    hide Utf8Ok, Ok, OneByte, Fine;
    if text != [] {
      var n := |text| - 1;
      StringBytes(th, t, text[..n]);
      StringByte(th, t.(mode := t.mode.(offset := (t.mode.offset + n) % TWO64)), text[n]);
    }
  }

  lemma StringByte(th: Theme, t: Term, c: Byte)
    requires ThemeOk(th) && Fine(t) && !t.mode.discard && t.mode.utf.remaining == 0 && t.mode.escape && t.mode.osc && !t.mode.oscEscape && 0x20 <= c <= 0x7E
    ensures OneByte(th, t, c) == t.(mode := t.mode.(offset := (t.mode.offset + 1) % TWO64))
  {
    hide Utf8Ok, Ok, ControlStep, EscapeEnds;
  }

  /** ESC ], a string and BEL leave no trace but the count of bytes. */
  lemma OscBytes(th: Theme, t: Term, text: seq<Byte>)
    requires ThemeOk(th) && Fine(t) && Idle(t) && IsLine(text)
    ensures AfterBytes(th, t, [0x1B, B(']')] + text + [7]) ==
            t.(mode := t.mode.(offset := (|text| + 2) % TWO64, oscEscape := false))
  {
    hide Utf8Ok, Ok, AfterBytes, OneByte, Fine, EscapeEnds, IsLine, Idle;
    var t1 := StringStarts(th, t);
    Appended(th, t, [0x1B, B(']')], text);
    StringBytes(th, t1, text);
    var t2 := t1.(mode := t1.mode.(offset := (1 + |text|) % TWO64));
    Appended(th, t, [0x1B, B(']')] + text, [7]);
    One(th, t2, 7);
    BellByte(th, t2);
    IdleMode(t);
    NextOffset(|text|);
  }

  lemma NextOffset(n: nat)
    ensures ((1 + n) % TWO64 + 1) % TWO64 == (n + 2) % TWO64
  {
  }

  lemma StringStarts(th: Theme, t: Term) returns (t1: Term)
    requires ThemeOk(th) && Fine(t) && Idle(t)
    ensures t1 == t.(mode := t.mode.(escape := true, osc := true, oscEscape := false, offset := 1))
    ensures t1 == AfterBytes(th, t, [0x1B, B(']')])
    ensures !t1.mode.discard && t1.mode.utf.remaining == 0
  {
    hide Utf8Ok, Ok, AfterBytes, OneByte;
    EscapeBytes(th, t, B(']'));
    t1 := AfterBytes(th, t, [0x1B, B(']')]);
  }

  lemma IdleMode(t: Term)
    requires Idle(t)
    ensures !t.mode.escape && !t.mode.osc
  {
  }

  lemma BellByte(th: Theme, t: Term)
    requires ThemeOk(th) && Fine(t) && !t.mode.discard && t.mode.utf.remaining == 0 && t.mode.escape && t.mode.osc && !t.mode.oscEscape
    ensures OneByte(th, t, 7) == t.(mode := t.mode.(offset := (t.mode.offset + 1) % TWO64, osc := false, escape := false))
  {
    hide Utf8Ok, Ok, ControlStep, EscapeEnds;
  }

  // ----- modes -----

  /** What a control sequence changes besides screen and colours: CSI s the saved cursor, CSI 4 h and l insert mode, CSI ? 25 h and l the cursor. */
  lemma FinishedSetup(th: Theme, t: Term, values: seq<Dword>, c: Byte)
    requires ThemeOk(th) && Fine(t) && |values| <= MAX_VALUES
    ensures GetX(t.s) < TWO64 && GetY(t.s) < TWO64
    ensures var switch := (c == B('h') || c == B('l')) && values != [];
            Finished(th, t, values, c).setup ==
            if t.mode.private then (if switch && values[0] == 25 then t.setup.(cursorOn := c == B('h')) else t.setup)
            else if switch && values[0] == 4 then t.setup.(insert := c == B('h'))
            else if c == B('s') then t.setup.(cx := GetX(t.s), cy := GetY(t.s))
            else t.setup
  {
    hide Ok, Utf8Ok, SgrAll, Effect, Closed, Given, ValuesText, GetX, GetY;
    ReportedSmall(t.s);
    ClosedValues(values, c);
  }

  lemma ReportedSmall(s: Screen)
    requires Ok(s)
    ensures GetX(s) < TWO64 && GetY(s) < TWO64
  {
    Sides(s);
  }

  /** ESC [ ? v1 ; v2 ; ... c has the effect that c would have on a terminal left private. */
  lemma PrivateBytes(th: Theme, t: Term, values: seq<Dword>, c: Byte)
    requires ThemeOk(th) && Fine(t) && Idle(t) && |values| <= MAX_VALUES && IsFinal(c)
    ensures var r := AfterBytes(th, t, [0x1B, B('['), B('?')] + ValuesText(values) + [c]);
            && Idle(r) && !r.mode.private && r.s == t.s && r.look == t.look && r.kept == t.kept
            && r.setup == Finished(th, t.(mode := t.mode.(private := true)), values, c).setup
  {
    hide Ok, Utf8Ok, AfterBytes, OneByte, ValuesText, Performed, Closed, Given;
    var v := ValuesText(values);
    assert [0x1B, B('['), B('?')] + v + [c] == [0x1B] + ([B('[')] + ([B('?')] + (v + [c])));
    First(th, t, 0x1B, [B('[')] + ([B('?')] + (v + [c])));
    First(th, OneByte(th, t, 0x1B), B('['), [B('?')] + (v + [c]));
    var t2 := Introduced(th, t);
    First(th, t2, B('?'), v + [c]);
    QuestionMark(th, t2);
    var t3 := t2.(mode := t2.mode.(private := true, offset := 2));
    Appended(th, t3, v, [c]);
    ValuesBytes(th, t3, values);
    var r := Read(t3, |v|, Given(values));
    One(th, r, c);
    FinalStep(th, r, c);
  }

  /** In insert mode a character moves the rest of its row to the right. */
  lemma InsertBytes(th: Theme, t: Term, c: Byte)
    requires ThemeOk(th) && Fine(t) && Ground(t) && !t.mode.private && !t.mode.osc && !t.mode.control && 0x20 <= c <= 0x7E
    ensures AfterBytes(th, t, SequenceText([4], B('h')) + [c]).s == RawPut(Shoved(t.s, GetX(t.s), GetY(t.s)), c)
  {
    hide Ok, Utf8Ok, AfterBytes, SequenceText, RawPut, Shoved, GetX, GetY, Finished, DEC_SPECIAL;
    Appended(th, t, SequenceText([4], B('h')), [c]);
    SequenceBytes(th, t, [4], B('h'));
    FinishedIdle(th, t, [4], B('h'));
    FinishedSetup(th, t, [4], B('h'));
    FinishedScreen(th, t, [4], B('h'));
    NoEffect(t.s, B('h'), t.setup.cx, t.setup.cy);
    One(th, Finished(th, t, [4], B('h')), c);
  }

  lemma NoEffect(s: Screen, c: Byte, u: Word, v: Word)
    requires Ok(s) && (c == B('h') || c == B('l') || c == B('s'))
    ensures forall values :: Sequence(s, values, c, u, v) == s
  {
    hide Moved, Edited;
  }
}
