/** utils/vsprintf.c, vsprintf: the conversions of a format string, and reading back what they print. */
module Format {

  import opened Printf
  import opened Common

  type Int32 = n: int | -(WORD / 2) <= n < WORD / 2 witness 0

  /** An argument. Reading one of another kind, or one that is not there, is undefined in C. */
  datatype Arg = Int(n: Int32) | Str(s: seq<char>) | Pointer

  const NO_FLAGS := Flags(false, false, false, false, false, false, false)

  /** What has been read of a conversion, what is left of the format, and the arguments left. */
  datatype Directive = Directive(flags: Flags, width: int, precision: int, rest: seq<char>, args: seq<Arg>)

  // ---------------------------------------------------------------- what a format means

  predicate IsDigit(c: char) {
    '0' <= c <= '9'
  }

  /** The flag characters. */
  function WithFlag(flags: Flags, c: char): Option<Flags> {
    if c == '-' then Some(flags.(left := true))
    else if c == '+' then Some(flags.(plus := true))
    else if c == ' ' then Some(flags.(space := true))
    else if c == '#' then Some(flags.(special := true))
    else if c == '0' then Some(flags.(zeroPad := true))
    else None
  }

  function ReadFlags(d: Directive): (r: Directive)
    ensures |r.rest| <= |d.rest|
    decreases |d.rest|
  {
    var f := WithFlag(d.flags, At(d.rest, 0));
    if f.None? || d.rest == [] then d else ReadFlags(d.(flags := f.value, rest := d.rest[1..]))
  }

  /** skip_atoi: the number in front, and what follows it. */
  function Skipped(s: seq<char>, acc: int): (r: (int, seq<char>))
    ensures |r.1| <= |s|
  {
    if IsDigit(At(s, 0)) then Skipped(s[1..], acc * 10 + (s[0] as int - '0' as int)) else (acc, s)
  }

  function Negated(n: int): int {
    -n
  }

  /** The width. A `*` takes it from the arguments, but is not itself passed over. */
  function ReadWidth(d: Directive): (r: Option<Directive>)
    ensures r.Some? ==> |r.value.rest| <= |d.rest|
  {
    if IsDigit(At(d.rest, 0)) then
      var r := Skipped(d.rest, 0);
      Some(d.(width := r.0, rest := r.1))
    else if At(d.rest, 0) == '*' then
      if d.args == [] || !d.args[0].Int? then None
      else if d.args[0].n < 0 then Some(d.(width := Negated(d.args[0].n), flags := d.flags.(left := true),
        args := d.args[1..]))
      else Some(d.(width := d.args[0].n, args := d.args[1..]))
    else Some(d)
  }

  function NotNegative(n: int): int {
    if n < 0 then 0 else n
  }

  function ReadPrecision(d: Directive): (r: Option<Directive>)
    ensures r.Some? ==> |r.value.rest| <= |d.rest|
  {
    if At(d.rest, 0) != '.' then Some(d)
    else
      var rest := d.rest[1..];
      if IsDigit(At(rest, 0)) then
        var r := Skipped(rest, 0);
        Some(d.(precision := NotNegative(r.0), rest := r.1))
      else if At(rest, 0) == '*' then
        if d.args == [] || !d.args[0].Int? then None
        else Some(d.(precision := NotNegative(d.args[0].n), rest := rest, args := d.args[1..]))
      else Some(d.(precision := 0, rest := rest))
  }

  function ReadQualifier(d: Directive): (r: Directive)
    ensures |r.rest| <= |d.rest|
  {
    if At(d.rest, 0) in {'h', 'l', 'L'} then d.(rest := d.rest[1..]) else d
  }

  /** A conversion up to its letter. */
  function Read(fmt: seq<char>, args: seq<Arg>): (r: Option<Directive>)
    ensures r.Some? ==> |r.value.rest| <= |fmt|
  {
    var w := ReadWidth(ReadFlags(Directive(NO_FLAGS, -1, -1, fmt, args)));
    if w.None? then None
    else
      var p := ReadPrecision(w.value);
      if p.None? then None else Some(ReadQualifier(p.value))
  }

  /** The base of a number's letter. */
  function Base(c: char): (b: nat)
    ensures b == 0 || b == 8 || b == 10 || b == 16
  {
    if c == 'o' then 8 else if c in {'p', 'x', 'X'} then 16 else if c in {'d', 'i', 'u'} then 10 else 0
  }

  /** The flags and the width its letter adds. */
  function Lettered(d: Directive, c: char): Directive {
    if c == 'x' then d.(flags := d.flags.(small := true))
    else if c == 'd' || c == 'i' then d.(flags := d.flags.(sign := true))
    else if c == 'p' && d.width == -1 then d.(width := 8, flags := d.flags.(zeroPad := true))
    else d
  }

  function Padded(s: seq<char>, width: int, left: bool): seq<char> {
    if left then s + Rep(' ', width - |s|) else Rep(' ', width - |s|) + s
  }

  /** The part of a string that is printed. */
  function Cut(s: seq<char>, precision: int): seq<char> {
    if 0 <= precision < |s| then s[..precision] else s
  }

  /** What a conversion prints. */
  function Converted(d: Directive): Option<seq<char>> {
    var c := At(d.rest, 0);
    if Base(c) != 0 then
      if d.args == [] || !d.args[0].Int? then None
      else
        var e := Lettered(d, c);
        Some(Printed(d.args[0].n, Base(c), e.width, e.precision, e.flags))
    else if c == 'c' then
      if d.args == [] || !d.args[0].Int? then None
        else Some(Padded([(d.args[0].n % 256) as char], d.width, d.flags.left))
    else if c == 's' then
      if d.args == [] || !d.args[0].Str? then None
        else Some(Padded(Cut(d.args[0].s, d.precision), d.width, d.flags.left))
    else if c == 'n' then
      if d.args == [] || !d.args[0].Pointer? then None else Some([])
    else Some((if c != '%' then ['%'] else []) + (if c != '\0' then [c] else []))
  }

  function TakesArg(c: char): bool {
    Base(c) != 0 || c in {'c', 's', 'n'}
  }

  /** What is left after a conversion's letter; at the end of the format there is none. */
  function AfterLetter(d: Directive): (r: seq<char>)
    ensures |r| <= |d.rest|
  {
    if d.rest == [] || d.rest[0] == '\0' then [] else d.rest[1..]
  }

  function ArgsLeft(d: Directive): seq<Arg> {
    if TakesArg(At(d.rest, 0)) && d.args != [] then d.args[1..] else d.args
  }

  /** What a format prints, if its arguments are there. */
  function Rendered(fmt: seq<char>, args: seq<Arg>): Option<seq<char>>
    decreases |fmt|
  {
    if At(fmt, 0) == '\0' then Some([])
    else if fmt[0] != '%' then Before([fmt[0]], Rendered(fmt[1..], args))
    else
      var d := Read(fmt[1..], args);
      if d.None? || Converted(d.value).None? then None
      else Before(Converted(d.value).value, Rendered(AfterLetter(d.value), ArgsLeft(d.value)))
  }

  function Before(s: seq<char>, rest: Option<seq<char>>): Option<seq<char>> {
    if rest.None? then None else Some(s + rest.value)
  }

  lemma Grouped(a: seq<char>, b: seq<char>, r: Option<seq<char>>)
    ensures Before(a + b, r) == Before(a, Before(b, r)) && Before([], r) == r
  {
    if r.Some? { assert a + b + r.value == a + (b + r.value) && [] + r.value == r.value; }
  }

  lemma RenderedPlain(fmt: seq<char>, args: seq<Arg>)
    requires At(fmt, 0) != '\0' && fmt[0] != '%'
    ensures Rendered(fmt, args) == Before([fmt[0]], Rendered(fmt[1..], args))
  {
  }

  lemma RenderedNext(fmt: seq<char>, args: seq<Arg>)
    requires fmt != [] && fmt[0] == '%'
    ensures var d := Read(fmt[1..], args);
      Rendered(fmt, args) == if d.None? || Converted(d.value).None? then None
        else Before(Converted(d.value).value, Rendered(AfterLetter(d.value), ArgsLeft(d.value)))
  {
    hide Read, Converted;
  }

  lemma RenderedEnd(fmt: seq<char>, args: seq<Arg>)
    requires At(fmt, 0) == '\0'
    ensures Rendered(fmt, args) == Some([])
  {
  }

  // ---------------------------------------------------------------- vsprintf

  /** The `repeat` loop. */
  method TakeFlags(start: Directive) returns (d: Directive)
    ensures d == ReadFlags(start)
  {
    d := start;
    while d.rest != [] && WithFlag(d.flags, d.rest[0]).Some?
      invariant ReadFlags(d) == ReadFlags(start)
      decreases |d.rest|
    {
      d := d.(flags := WithFlag(d.flags, d.rest[0]).value, rest := d.rest[1..]);
    }
  }

  method SkipAtoi(s: seq<char>) returns (i: int, rest: seq<char>)
    ensures (i, rest) == Skipped(s, 0)
  {
    i, rest := 0, s;
    while IsDigit(At(rest, 0))
      invariant Skipped(rest, i) == Skipped(s, 0)
      decreases |rest|
    {
      i, rest := i * 10 + (rest[0] as int - '0' as int), rest[1..];
    }
  }

  method TakeWidth(start: Directive) returns (d: Directive)
    requires ReadWidth(start).Some?
    ensures ReadWidth(start) == Some(d)
  {
    d := start;
    if IsDigit(At(d.rest, 0)) {
      var width, rest := SkipAtoi(d.rest);
      d := d.(width := width, rest := rest);
    } else if At(d.rest, 0) == '*' {
      var n: int := d.args[0].n;
      d := d.(width := n, args := d.args[1..]);
      if d.width < 0 {
        d := d.(width := -d.width, flags := d.flags.(left := true));
      }
    }
  }

  method TakePrecision(start: Directive) returns (d: Directive)
    requires ReadPrecision(start).Some?
    ensures ReadPrecision(start) == Some(d)
  {
    d := start;
    if At(d.rest, 0) == '.' {
      d := d.(rest := d.rest[1..]);
      if IsDigit(At(d.rest, 0)) {
        var precision, rest := SkipAtoi(d.rest);
        d := d.(precision := precision, rest := rest);
      } else if At(d.rest, 0) == '*' {
        var n: int := d.args[0].n;
        d := d.(precision := n, args := d.args[1..]);
      } else {
        d := d.(precision := -1);
      }
      if d.precision < 0 {
        d := d.(precision := 0);
      }
    }
  }

  /** The part of a round before the switch. */
  method Take(fmt: seq<char>, args: seq<Arg>) returns (d: Directive)
    requires Read(fmt, args).Some?
    ensures Read(fmt, args) == Some(d)
  {
    hide ReadFlags, ReadWidth, ReadPrecision;
    d := TakeFlags(Directive(NO_FLAGS, -1, -1, fmt, args));
    d := TakeWidth(d);
    d := TakePrecision(d);
    if At(d.rest, 0) == 'h' || At(d.rest, 0) == 'l' || At(d.rest, 0) == 'L' {
      d := d.(rest := d.rest[1..]);
    }
  }

  /** A text with the spaces its width asks for in front of it or, if it is to stand left, after it. */
  method PutPadded(str: seq<char>, s: seq<char>, width: int, left: bool) returns (out: seq<char>)
    ensures out == str + Padded(s, width, left)
  {
    var size := width - |s|;
    out := str;
    if !left {
      out, size := Fill(out, size, ' ');
    }
    out := out + s;
    out, size := Fill(out, size, ' ');
  }

  /** The switch on the conversion's letter. */
  method Convert(str: seq<char>, d: Directive) returns (out: seq<char>)
    requires Converted(d).Some?
    ensures out == str + Converted(d).value
  {
    hide Printed, Padded, Cut;
    var c := At(d.rest, 0);
    if Base(c) != 0 {
      var e := Lettered(d, c);
      var ok;
      ok, out := Number(str, d.args[0].n, Base(c), e.width, e.precision, e.flags);
    } else if c == 'c' {
      out := PutPadded(str, [(d.args[0].n % 256) as char], d.width, d.flags.left);
    } else if c == 's' {
      out := PutPadded(str, Cut(d.args[0].s, d.precision), d.width, d.flags.left);
    } else {
      out := str;
      if c == 'n' {
        return;
      }
      if c != '%' {
        out := out + ['%'];
      }
      if c != '\0' {
        out := out + [c];
      }
    }
  }

  /** vsprintf: what the format prints, conversion by conversion. */
  method Vsprintf(fmt: seq<char>, args: seq<Arg>) returns (str: seq<char>)
    requires Rendered(fmt, args).Some?
    ensures str == Rendered(fmt, args).value
  {
    hide Read, Converted, Rendered, AfterLetter, ArgsLeft;
    str := [];
    var rest, left := fmt, args;
    Grouped([], [], Rendered(fmt, args));
    while At(rest, 0) != '\0'
      invariant Before(str, Rendered(rest, left)) == Rendered(fmt, args)
      decreases |rest|
    {
      if rest[0] != '%' {
        RenderedPlain(rest, left);
        Grouped(str, [rest[0]], Rendered(rest[1..], left));
        str := str + [rest[0]];
        rest := rest[1..];
      } else {
        RenderedNext(rest, left);
        var d := Take(rest[1..], left);
        Grouped(str, Converted(d).value, Rendered(AfterLetter(d), ArgsLeft(d)));
        str := Convert(str, d);
        rest, left := AfterLetter(d), ArgsLeft(d);
      }
    }
    RenderedEnd(rest, left);
    assert str + [] == str;
  }

  // ---------------------------------------------------------------- printing, then parsing

  /** skip_atoi reads a number back from its digits. */
  lemma SkippedDigits(m: nat, t: seq<char>)
    requires !IsDigit(At(t, 0))
    ensures Skipped(Digits(m, 10, false) + t, 0) == (m, t)
  {
    SkippedOn(m, t, 0);
  }

  function Scale(m: nat): (p: nat)
    ensures p > 0
  {
    if m / 10 == 0 then 10 else 10 * Scale(m / 10)
  }

  lemma {:induction false} SkippedOn(m: nat, t: seq<char>, acc: nat)
    ensures Skipped(Digits(m, 10, false) + t, acc) == Skipped(t, acc * Scale(m) + m)
  {
    hide Skipped, Digits, DigitChars, Scale;
    Halved(m, 10);
    DecimalLast(m);
    ScaleStep(m, acc);
    var c := DigitChars(false)[m % 10];
    if m / 10 == 0 {
      SkippedOne(m % 10, t, acc);
    } else {
      OneMore(Digits(m / 10, 10, false), c, t);
      SkippedOn(m / 10, [c] + t, acc);
      SkippedOne(m % 10, t, acc * Scale(m / 10) + m / 10);
    }
  }

  lemma DecimalLast(m: nat)
    ensures m / 10 >= 0 && 0 <= m % 10 < 10
    ensures var d, c := Digits(m, 10, false), DigitChars(false)[m % 10];
      if m / 10 == 0 then d == [c] else d == Digits(m / 10, 10, false) + [c]
  {
    hide DigitChars;
  }

  lemma OneMore(d: seq<char>, c: char, t: seq<char>)
    ensures d + [c] + t == d + ([c] + t)
  {
  }

  lemma ScaleStep(m: nat, acc: nat)
    ensures acc * Scale(m) + m == (if m / 10 == 0 then acc else acc * Scale(m / 10) + m / 10) * 10 + m % 10
  {
    var q, r := m / 10, m % 10;
    assert m == q * 10 + r;
    if q != 0 {
      var s := Scale(q);
      assert Scale(m) == 10 * s;
      Tenfold(acc, s);
    } else {
      assert Scale(m) == 10;
    }
  }

  lemma Tenfold(a: nat, s: nat)
    ensures a * (10 * s) == 10 * (a * s)
  {
  }

  lemma SkippedOne(k: nat, t: seq<char>, acc: int)
    requires k < 10
    ensures var c := DigitChars(false)[k]; Skipped([c] + t, acc) == Skipped(t, acc * 10 + k)
  {
    var c := DigitChars(false)[k];
    assert IsDigit(c) && c as int - '0' as int == k;
    assert ([c] + t)[1..] == t;
  }

  /** Flag characters, as often as one likes. */
  predicate FlagChars(s: seq<char>) {
    forall i :: 0 <= i < |s| ==> s[i] in {'-', '+', ' ', '#', '0'}
  }

  function Flagged(flags: Flags, s: seq<char>): Flags
    decreases |s|
  {
    if s == [] then flags else
      var f := WithFlag(flags, s[0]);
      Flagged(if f.Some? then f.value else flags, s[1..])
  }

  lemma {:induction false} FlagsRead(d: Directive, s: seq<char>, t: seq<char>)
    requires FlagChars(s) && d.rest == s + t && (t == [] || WithFlag(NO_FLAGS, t[0]).None?)
    ensures ReadFlags(d) == d.(flags := Flagged(d.flags, s), rest := t)
    decreases |s|
  {
    if s == [] {
      assert s + t == t;
      assert WithFlag(d.flags, '\0').None?;
    } else {
      assert (s + t)[1..] == s[1..] + t;
      FlagsRead(d.(flags := WithFlag(d.flags, s[0]).value, rest := s[1..] + t), s[1..], t);
    }
  }

  /** Space and `#` only. */
  predicate Marks(s: seq<char>) {
    forall i :: 0 <= i < |s| ==> s[i] == ' ' || s[i] == '#'
  }

  /** The text of a width, none for 0, and of a precision, none below 0. */
  function WidthText(w: nat): seq<char> {
    if w == 0 then [] else Digits(w, 10, false)
  }

  function PrecisionText(p: int): seq<char> {
    if p < 0 then [] else ['.'] + Digits(p, 10, false)
  }

  /** A character that cannot be taken for anything before the letter. */
  predicate Letter(c: char) {
    WithFlag(NO_FLAGS, c).None? && !IsDigit(c) && c !in {'*', '.', 'h', 'l', 'L', '\0'}
  }

  /** The conversion that such a text stands for. */
  function Meant(f: seq<char>, w: nat, p: int, rest: seq<char>, args: seq<Arg>): Directive {
    Directive(Flagged(NO_FLAGS, f), if w == 0 then -1 else w, if p < 0 then -1 else p, rest, args)
  }

  /** A qualifier or none. */
  predicate Qualifier(q: seq<char>) {
    q in {"", "h", "l", "L"}
  }

  /** Flags, width and precision are read as what they say, and a qualifier is passed over. */
  lemma DirectiveRead(f: seq<char>, w: nat, p: int, q: seq<char>, c: char, t: seq<char>, args: seq<Arg>)
    requires FlagChars(f) && Qualifier(q) && Letter(c)
    ensures Read(f + (WidthText(w) + (PrecisionText(p) + (q + ([c] + t)))), args) == Some(Meant(f, w, p, [c] + t, args))
  {
    var u := PrecisionText(p) + (q + ([c] + t));
    var start := Directive(NO_FLAGS, -1, -1, f + (WidthText(w) + u), args);
    var d := start.(flags := Flagged(NO_FLAGS, f), rest := WidthText(w) + u);
    AfterWidth(p, q, c, t);
    FirstOf(w, u);
    hide WidthText, PrecisionText, WithFlag, IsDigit, Letter, Flagged, ReadFlags, ReadWidth, ReadPrecision;
    FlagsRead(start, f, WidthText(w) + u);
    WidthRead(d, w, u);
    PrecisionRead(d.(width := if w == 0 then -1 else w, rest := u), p, q, c, t);
  }

  /** A dot without digits is a precision of 0. */
  lemma BareDot(f: seq<char>, w: nat, q: seq<char>, c: char, t: seq<char>, args: seq<Arg>)
    requires FlagChars(f) && Qualifier(q) && Letter(c)
    ensures Read(f + (WidthText(w) + (['.'] + (q + ([c] + t)))), args) == Some(Meant(f, w, 0, [c] + t, args))
  {
    var v := q + ([c] + t);
    var u := ['.'] + v;
    var start := Directive(NO_FLAGS, -1, -1, f + (WidthText(w) + u), args);
    var d := start.(flags := Flagged(NO_FLAGS, f), rest := WidthText(w) + u);
    var e := d.(width := if w == 0 then -1 else w, rest := u);
    DottedLetter(e, q, c, t);
    FirstOf(w, u);
    QualifierRead(e.(precision := 0, rest := v), q, c, t);
    hide WidthText, WithFlag, Letter, Flagged, ReadFlags, ReadWidth, ReadPrecision;
    FlagsRead(start, f, WidthText(w) + u);
    WidthRead(d, w, u);
  }

  lemma DottedLetter(e: Directive, q: seq<char>, c: char, t: seq<char>)
    requires e.rest == ['.'] + (q + ([c] + t)) && Qualifier(q) && Letter(c)
    ensures ReadPrecision(e) == Some(e.(precision := 0, rest := q + ([c] + t)))
  {
    var v := q + ([c] + t);
    assert (['.'] + v)[1..] == v && ([c] + t)[0] == c && (q == "" ==> v == [c] + t);
    assert !IsDigit(At(v, 0)) && At(v, 0) != '*';
  }

  /** A percent sign that nothing but flags follows is printed. */
  lemma PercentEnds(f: seq<char>, args: seq<Arg>)
    requires FlagChars(f)
    ensures Rendered(['%'] + f, args) == Some("%")
  {
    var start := Directive(NO_FLAGS, -1, -1, f, args);
    assert f + [] == f && (['%'] + f)[1..] == f;
    FlagsRead(start, f, []);
    RenderedNext(['%'] + f, args);
    RenderedEnd([], args);
    assert ['%'] + [] == "%" && "%" + [] == "%";
  }

  lemma AfterWidth(p: int, q: seq<char>, c: char, t: seq<char>)
    requires Qualifier(q) && Letter(c)
    ensures var u := PrecisionText(p) + (q + ([c] + t));
      u != [] && WithFlag(NO_FLAGS, u[0]).None? && !IsDigit(u[0]) && u[0] != '*'
  {
  }

  lemma FirstOf(w: nat, u: seq<char>)
    requires u == [] || WithFlag(NO_FLAGS, u[0]).None?
    ensures var t := WidthText(w) + u; t == [] || WithFlag(NO_FLAGS, t[0]).None?
  {
    if w > 0 {
      FirstDecimal(w, false);
      DigitsRead(w, 10, false);
    } else {
      assert [] + u == u;
    }
  }

  lemma WidthRead(d: Directive, w: nat, u: seq<char>)
    requires d.rest == WidthText(w) + u && d.width == -1 && !IsDigit(At(u, 0)) && At(u, 0) != '*'
    ensures ReadWidth(d) == Some(d.(width := if w == 0 then -1 else w, rest := u))
  {
    if w > 0 {
      FirstDecimal(w, false);
      SkippedDigits(w, u);
    }
    hide Skipped, Digits;
    assert w == 0 ==> d.rest == u;
  }

  lemma PrecisionRead(d: Directive, p: int, q: seq<char>, c: char, t: seq<char>)
    requires d.rest == PrecisionText(p) + (q + ([c] + t)) && d.precision == -1 && Qualifier(q) && Letter(c)
    ensures var e := d.(precision := if p < 0 then -1 else p, rest := q + ([c] + t));
      ReadPrecision(d) == Some(e) && ReadQualifier(e) == e.(rest := [c] + t)
  {
    if p >= 0 {
      PrecisionDigits(d, p, q + ([c] + t));
    } else {
      hide Digits;
      assert d.rest == q + ([c] + t);
    }
    hide Skipped, Digits, ReadPrecision;
    QualifierRead(d.(precision := if p < 0 then -1 else p, rest := q + ([c] + t)), q, c, t);
  }

  /** A qualifier is passed over. */
  lemma QualifierRead(e: Directive, q: seq<char>, c: char, t: seq<char>)
    requires e.rest == q + ([c] + t) && Qualifier(q) && Letter(c)
    ensures ReadQualifier(e) == e.(rest := [c] + t)
  {
    assert ([c] + t)[0] == c && "" + ([c] + t) == [c] + t;
    assert q != "" ==> (q + ([c] + t))[1..] == [c] + t;
  }

  lemma PrecisionDigits(d: Directive, p: nat, u: seq<char>)
    requires d.rest == PrecisionText(p) + u && !IsDigit(At(u, 0))
    ensures ReadPrecision(d) == Some(d.(precision := p, rest := u))
  {
    hide Digits, Skipped;
    FirstDecimal(p, false);
    SkippedDigits(p, u);
    var s := Digits(p, 10, false);
    Fronted('.', s, u);
    Dotted(d, s + u, p, u);
  }

  lemma Fronted(c: char, s: seq<char>, u: seq<char>)
    ensures [c] + s + u == [c] + (s + u) && (s != [] ==> (s + u)[0] == s[0])
  {
  }

  lemma Dotted(d: Directive, v: seq<char>, p: nat, u: seq<char>)
    requires d.rest == ['.'] + v && v != [] && IsDigit(v[0]) && Skipped(v, 0) == (p, u)
    ensures ReadPrecision(d) == Some(d.(precision := p, rest := u))
  {
    hide Skipped;
    assert (['.'] + v)[1..] == v;
  }

  /** So a width and a precision in digits are honoured, whatever follows. */
  lemma DirectiveRendered(f: seq<char>, w: nat, p: int, q: seq<char>, c: char, t: seq<char>, args: seq<Arg>)
    requires FlagChars(f) && Qualifier(q) && Letter(c)
    ensures var d := Meant(f, w, p, [c] + t, args);
      Rendered(['%'] + (f + (WidthText(w) + (PrecisionText(p) + (q + ([c] + t))))), args)
        == if Converted(d).None? then None else Before(Converted(d).value, Rendered(t, ArgsLeft(d)))
  {
    var rest := f + (WidthText(w) + (PrecisionText(p) + (q + ([c] + t))));
    DirectiveRead(f, w, p, q, c, t, args);
    hide Read, Converted, Rendered, WidthText, PrecisionText, Flagged;
    assert (['%'] + rest)[1..] == rest;
    RenderedNext(['%'] + rest, args);
    assert ([c] + t)[1..] == t;
  }

  /** A width given by `*` is lost. The star is not passed over, so it is taken for the letter; its
      argument is used up, the star is printed, and what follows it is printed as it stands. */
  lemma StarWidth(f: seq<char>, w: Int32, t: seq<char>, args: seq<Arg>)
    requires FlagChars(f)
    ensures Rendered(['%'] + (f + (['*'] + t)), [Int(w)] + args) == Before("%*", Rendered(t, args))
  {
    var u := ['*'] + t;
    var start := Directive(NO_FLAGS, -1, -1, f + u, [Int(w)] + args);
    FlagsRead(start, f, u);
    var d := ReadFlags(start);
    assert ([Int(w)] + args)[1..] == args;
    StarLetter(ReadWidth(d).value, t);
    RenderedStar(f + u, [Int(w)] + args, t, args);
  }

  /** And so is a precision. */
  lemma StarPrecision(f: seq<char>, w: nat, p: Int32, t: seq<char>, args: seq<Arg>)
    requires FlagChars(f)
    ensures Rendered(['%'] + (f + (WidthText(w) + (".*" + t))), [Int(p)] + args) == Before("%*", Rendered(t, args))
  {
    var u := ".*" + t;
    var rest := f + (WidthText(w) + u);
    var start := Directive(NO_FLAGS, -1, -1, rest, [Int(p)] + args);
    var d := start.(flags := Flagged(NO_FLAGS, f), rest := WidthText(w) + u);
    FirstOf(w, u);
    FlagsRead(start, f, WidthText(w) + u);
    WidthRead(d, w, u);
    hide Flagged, Skipped, ReadFlags, ReadWidth, WidthText;
    StarDotted(d.(width := if w == 0 then -1 else w, rest := u), p, t, args);
    RenderedStar(rest, [Int(p)] + args, t, args);
  }

  lemma StarDotted(d: Directive, p: Int32, t: seq<char>, args: seq<Arg>)
    requires d.rest == ".*" + t && d.args == [Int(p)] + args
    ensures var e := ReadPrecision(d);
      e.Some? && e.value.rest == ['*'] + t && e.value.args == args && ReadQualifier(e.value) == e.value
  {
    assert (".*" + t)[1..] == ['*'] + t && ([Int(p)] + args)[1..] == args;
  }

  lemma StarLetter(d: Directive, t: seq<char>)
    requires d.rest == ['*'] + t
    ensures ReadQualifier(d) == d && (d.precision == -1 ==> ReadPrecision(d) == Some(d))
    ensures Converted(d) == Some("%*") && AfterLetter(d) == t && ArgsLeft(d) == d.args
  {
    assert ['%'] + ['*'] == "%*";
    assert (['*'] + t)[1..] == t;
  }

  lemma RenderedStar(rest: seq<char>, args: seq<Arg>, t: seq<char>, left: seq<Arg>)
    requires var d := Read(rest, args); d.Some? && d.value.rest == ['*'] + t && d.value.args == left
    ensures Rendered(['%'] + rest, args) == Before("%*", Rendered(t, left))
  {
    var d := Read(rest, args).value;
    StarLetter(d, t);
    hide Read, Rendered;
    assert (['%'] + rest)[1..] == rest;
    RenderedNext(['%'] + rest, args);
  }

  /** Every flag character sets its flag, in any order and as often as it comes. */
  lemma {:induction false} FlagsMeant(flags: Flags, f: seq<char>)
    requires FlagChars(f)
    ensures Flagged(flags, f) == Flags(flags.zeroPad || '0' in f, flags.sign, flags.plus || '+' in f,
        flags.space || ' ' in f, flags.left || '-' in f, flags.special || '#' in f, flags.small)
    decreases |f|
  {
    if f != [] {
      OneFlag(flags, f[0]);
      hide WithFlag;
      FlagsMeant(WithFlag(flags, f[0]).value, f[1..]);
    }
  }

  lemma OneFlag(flags: Flags, c: char)
    requires c in {'-', '+', ' ', '#', '0'}
    ensures WithFlag(flags, c) == Some(Flags(flags.zeroPad || c == '0', flags.sign, flags.plus || c == '+',
        flags.space || c == ' ', flags.left || c == '-', flags.special || c == '#', flags.small))
  {
  }

  /** The letters of numbers. */
  predicate NumberLetter(c: char) {
    c in {'d', 'i', 'u', 'o', 'x', 'X', 'p'}
  }

  /** A number is printed in the base of its letter, signed for `d` and `i`, with small letters for `x`,
      under the flags, width and precision of the format. A pointer without a width is printed with
      8 places and zeros in front. */
  lemma NumberRendered(f: seq<char>, w: nat, p: int, q: seq<char>, c: char, n: Int32, t: seq<char>, args: seq<Arg>)
    requires FlagChars(f) && Qualifier(q) && NumberLetter(c)
    ensures var flags := Flags('0' in f || (c == 'p' && w == 0), c == 'd' || c == 'i', '+' in f, ' ' in f, '-' in f,
        '#' in f, c == 'x');
      Rendered(['%'] + (f + (WidthText(w) + (PrecisionText(p) + (q + ([c] + t))))), [Int(n)] + args)
        == Before(Printed(n, if c == 'o' then 8 else if c in {'d', 'i', 'u'} then 10 else 16,
                    if w > 0 then w else if c == 'p' then 8 else -1, if p < 0 then -1 else p, flags),
             Rendered(t, args))
  {
    DirectiveRendered(f, w, p, q, c, t, [Int(n)] + args);
    FlagsMeant(NO_FLAGS, f);
    hide Read, Printed, WidthText, PrecisionText, Rendered, Flagged, Converted, ArgsLeft;
    NumberConverted(Meant(f, w, p, [c] + t, [Int(n)] + args), c, n, t, args);
  }

  lemma NumberConverted(d: Directive, c: char, n: Int32, t: seq<char>, args: seq<Arg>)
    requires NumberLetter(c) && d.rest == [c] + t && d.args == [Int(n)] + args && !d.flags.sign && !d.flags.small
    ensures var none := c == 'p' && d.width == -1;
      Converted(d) == Some(Printed(n, if c == 'o' then 8 else if c in {'d', 'i', 'u'} then 10 else 16,
        if none then 8 else d.width, d.precision,
        d.flags.(zeroPad := d.flags.zeroPad || none, sign := c == 'd' || c == 'i', small := c == 'x')))
    ensures ArgsLeft(d) == args
  {
    hide Printed;
    assert ([c] + t)[0] == c && ([Int(n)] + args)[1..] == args;
  }

  lemma Alone(s: seq<char>, args: seq<Arg>)
    ensures Before(s, Rendered([], args)) == Some(s)
  {
    RenderedEnd([], args);
    assert s + [] == s;
  }

  lemma NoneBehind(c: char, n: Int32)
    ensures [c] + [] == [c] && [Int(n)] + [] == [Int(n)]
  {
  }

  /** A string is printed up to the precision and padded with spaces up to the width, behind it with `-`
      and else in front. The width never cuts. */
  lemma StringRendered(f: seq<char>, w: nat, p: int, q: seq<char>, s: seq<char>, t: seq<char>, args: seq<Arg>)
    returns (text: seq<char>)
    requires FlagChars(f) && Qualifier(q)
    ensures Rendered(['%'] + (f + (WidthText(w) + (PrecisionText(p) + (q + (['s'] + t))))), [Str(s)] + args)
      == if Rendered(t, args).None? then None else Some(text + Rendered(t, args).value)
    ensures var n := if 0 <= p < |s| then p else |s|;
      var rest := if w > n then w - n else 0;
      && |text| == rest + n
      && if '-' in f then text[..n] == s[..n] && forall i :: n <= i < |text| ==> text[i] == ' '
         else text[rest..] == s[..n] && forall i :: 0 <= i < rest ==> text[i] == ' '
  {
    var d := Meant(f, w, p, ['s'] + t, [Str(s)] + args);
    text := Padded(Cut(s, d.precision), d.width, d.flags.left);
    DirectiveRendered(f, w, p, q, 's', t, [Str(s)] + args);
    FlagsMeant(NO_FLAGS, f);
    hide Read, WidthText, PrecisionText, Rendered, Flagged;
    assert (['s'] + t)[0] == 's' && ([Str(s)] + args)[1..] == args;
    var c, n := Cut(s, d.precision), if 0 <= p < |s| then p else |s|;
    assert c == s[..n];
    PaddedParts(c, d.width, d.flags.left);
  }

  /** A character is printed modulo 256 and padded in the same way, whatever the precision. */
  lemma CharRendered(f: seq<char>, w: nat, p: int, q: seq<char>, n: Int32, t: seq<char>, args: seq<Arg>)
    returns (text: seq<char>)
    requires FlagChars(f) && Qualifier(q)
    ensures Rendered(['%'] + (f + (WidthText(w) + (PrecisionText(p) + (q + (['c'] + t))))), [Int(n)] + args)
      == if Rendered(t, args).None? then None else Some(text + Rendered(t, args).value)
    ensures var rest := if w > 1 then w - 1 else 0;
      && |text| == rest + 1 && text[if '-' in f then 0 else rest] as int == n % 256
      && forall i :: 0 <= i <= rest && i != (if '-' in f then 0 else rest) ==> text[i] == ' '
  {
    var d := Meant(f, w, p, ['c'] + t, [Int(n)] + args);
    var c := [(n % 256) as char];
    text := Padded(c, d.width, d.flags.left);
    DirectiveRendered(f, w, p, q, 'c', t, [Int(n)] + args);
    FlagsMeant(NO_FLAGS, f);
    hide Read, WidthText, PrecisionText, Rendered, Flagged;
    assert (['c'] + t)[0] == 'c' && ([Int(n)] + args)[1..] == args;
    PaddedParts(c, d.width, d.flags.left);
  }

  lemma PaddedParts(s: seq<char>, width: int, left: bool)
    ensures var text, rest := Padded(s, width, left), if width > |s| then width - |s| else 0;
      && |text| == rest + |s|
      && if left then text[..|s|] == s && forall i :: |s| <= i < |text| ==> text[i] == ' '
         else text[rest..] == s && forall i :: 0 <= i < rest ==> text[i] == ' '
  {
  }

  /** `%n` prints nothing, `%%` a percent sign, and any other letter is printed with the percent sign
      before it, without using an argument up. */
  lemma OtherRendered(f: seq<char>, w: nat, p: int, q: seq<char>, c: char, t: seq<char>, args: seq<Arg>)
    requires FlagChars(f) && Qualifier(q) && Letter(c) && !NumberLetter(c) && c != 's' && c != 'c'
    ensures var out := Rendered(['%'] + (f + (WidthText(w) + (PrecisionText(p) + (q + ([c] + t))))), args);
      if c == 'n' then args != [] && args[0].Pointer? ==> out == Rendered(t, args[1..])
      else out == if Rendered(t, args).None? then None
           else Some((if c == '%' then "%" else ['%', c]) + Rendered(t, args).value)
  {
    var d := Meant(f, w, p, [c] + t, args);
    DirectiveRendered(f, w, p, q, c, t, args);
    hide Read, WidthText, PrecisionText, Rendered, Flagged;
    assert ([c] + t)[0] == c && ['%'] + [c] == ['%', c] && [] + ['%'] == "%";
    Grouped([], [], Rendered(t, ArgsLeft(d)));
  }

  /** With any flags, width and precision a number that vsprintf prints is read back by atoi exactly
      when there is no plus in front, no padding behind, and the digits are read in their base. */
  lemma FormatReadBack(f: seq<char>, w: nat, p: int, q: seq<char>, c: char, n: Int32)
    requires FlagChars(f) && Qualifier(q) && NumberLetter(c) && if c == 'd' || c == 'i' then n > -(WORD / 2) else n >= 0
    ensures var out := Rendered(['%'] + (f + (WidthText(w) + (PrecisionText(p) + (q + [c])))), [Int(n)]);
      var flags := Flags('0' in f || (c == 'p' && w == 0), c == 'd' || c == 'i', '+' in f, ' ' in f, '-' in f, '#' in f,
        c == 'x');
      out.Some?
      && (Parse(out.value) == Parsed(n, 0) <==>
            ReadsBack(n, if c == 'o' then 8 else if c in {'d', 'i', 'u'} then 10 else 16,
              if w > 0 then w else if c == 'p' then 8 else -1, if p < 0 then -1 else p, flags))
  {
    var flags := Flags('0' in f || (c == 'p' && w == 0), c == 'd' || c == 'i', '+' in f, ' ' in f, '-' in f, '#' in f,
      c == 'x');
    var base, width := if c == 'o' then 8 else if c in {'d', 'i', 'u'} then 10 else 16,
      if w > 0 then w else if c == 'p' then 8 else -1;
    NumberRendered(f, w, p, q, c, n, [], []);
    NoneBehind(c, n);
    hide Rendered, Parse, Printed, WidthText, PrecisionText, ReadsBack;
    Alone(Printed(n, base, width, if p < 0 then -1 else p, flags), []);
    NumberReadBack(n, base, width, if p < 0 then -1 else p, flags);
  }

  /** Printing through vsprintf and reading back with atoi gives the number, for any width and any
      flags among space and `#`: with `%d`, and with `%#x`, `%#X` and `%#o` for non-negative numbers. */
  lemma FormatRoundTrip(marks: seq<char>, w: nat, c: char, n: Int32)
    requires Marks(marks) && c in {'d', 'i', 'o', 'x', 'X'}
    requires if c == 'd' || c == 'i' then n > -(WORD / 2) else n >= 0 && '#' in marks
    ensures var out := Rendered(['%'] + (marks + (WidthText(w) + [c])), [Int(n)]);
      out.Some? && Parse(out.value) == Parsed(n, 0)
  {
    FormatReadBack(marks, w, -1, "", c, n);
    assert PrecisionText(-1) + ("" + [c]) == [c];
    hide Rendered, Parse, WidthText;
  }
}
