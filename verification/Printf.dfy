/** utils/vsprintf.c and utils/utils.c: printing an integer and reading it back. */
module Printf {

  const TMP_SIZE := 36
  const WORD := 0x1_0000_0000

  datatype Flags = Flags(zeroPad: bool, sign: bool, plus: bool, space: bool, left: bool, special: bool, small: bool)

  // ---------------------------------------------------------------- digits

  const UPPER: seq<char> := "0123456789ABCDEFGHIJKLMNOPQRSTUVWXYZ"
  const LOWER: seq<char> := "0123456789abcdefghijklmnopqrstuvwxyz"

  function DigitChars(small: bool): (d: seq<char>)
    ensures |d| == 36
  {
    if small then LOWER else UPPER
  }

  lemma Halved(m: nat, base: nat)
    requires base >= 2
    ensures 0 <= m / base <= m / 2 && 0 <= m % base < base && m == (m / base) * base + m % base
    ensures m / base > 0 ==> m / base < m
  {
    assert m == (m / base) * base + m % base;
    assert (m / base) * base >= (m / base) * 2;
  }

  /** The digits of a number, most significant first. */
  function Digits(m: nat, base: nat, small: bool): (d: seq<char>)
    requires 2 <= base <= 36
    ensures |d| > 0
  {
    Halved(m, base);
    (if m / base == 0 then [] else Digits(m / base, base, small)) + [DigitChars(small)[m % base]]
  }

  function Power(n: nat): (p: nat)
    ensures p > n
  {
    if n == 0 then 1 else 2 * Power(n - 1)
  }

  lemma Power4(n: nat)
    ensures Power(n + 4) == 16 * Power(n)
  {
    assert Power(n + 2) == 4 * Power(n);
  }

  lemma Power32()
    ensures Power(32) == WORD
  {
    Power4(0); Power4(4); Power4(8); Power4(12); Power4(16); Power4(20); Power4(24); Power4(28);
  }

  /** A number below 2^n has at most n digits. */
  lemma {:induction false} FewDigits(m: nat, base: nat, small: bool, n: nat)
    requires 2 <= base <= 36 && m < Power(n) && n > 0
    ensures |Digits(m, base, small)| <= n
  {
    Halved(m, base);
    hide DigitChars;
    if m / base != 0 {
      FewDigits(m / base, base, small, n - 1);
    }
  }

  function Rep(c: char, n: int): (s: seq<char>)
    ensures |s| == (if n > 0 then n else 0) && forall i :: 0 <= i < |s| ==> s[i] == c
  {
    seq(if n > 0 then n else 0, _ => c)
  }

  function Max(a: int, b: int): int {
    if a > b then a else b
  }

  // ---------------------------------------------------------------- number

  /** The magnitude that is printed: an int without SIGN is read as unsigned. */
  function Magnitude(num: int, flags: Flags): int {
    if flags.sign && num < 0 then -num else if num < 0 then num + WORD else num
  }

  function SignPart(num: int, flags: Flags): seq<char> {
    if flags.sign && num < 0 then "-" else if flags.plus then "+" else if flags.space then " " else ""
  }

  function PrefixPart(base: nat, flags: Flags): seq<char> {
    if !flags.special then "" else if base == 8 then "0" else if base == 16 then ['0', DigitChars(flags.small)[33]]
      else ""
  }

  function DigitPart(num: int, base: nat, precision: int, flags: Flags): seq<char>
    requires 2 <= base <= 36 && Magnitude(num, flags) >= 0
  {
    var d := Digits(Magnitude(num, flags), base, flags.small);
    Rep('0', precision - |d|) + d
  }

  /** What the conversion prints: sign, prefix and digits, padded to the width on the left with
      spaces, after the prefix with zeros, or on the right with spaces. */
  function Printed(num: int, base: nat, width: int, precision: int, flags: Flags): seq<char>
    requires 2 <= base <= 36 && Magnitude(num, flags) >= 0
  {
    var s, p, d := SignPart(num, flags), PrefixPart(base, flags), DigitPart(num, base, precision, flags);
    Laid(s, p, d, width - |s| - |p| - |d|, flags)
  }

  function Laid(s: seq<char>, p: seq<char>, d: seq<char>, pad: int, flags: Flags): seq<char> {
    if flags.left then s + p + d + Rep(' ', pad)
    else if flags.zeroPad then s + p + Rep('0', pad) + d
    else Rep(' ', pad) + s + p + d
  }

  /** Writes a character `size` times, and leaves what the counter has become. */
  method Fill(str: seq<char>, size: int, c: char) returns (out: seq<char>, left: int)
    ensures out == str + Rep(c, size) && left == if size > 0 then -1 else size - 1
  {
    out, left := str, size;
    while left > 0
      invariant left <= size && (size > 0 ==> left >= 0) && (size <= 0 ==> left == size)
      invariant out == str + Rep(c, size - left)
    {
      out := out + [c];
      left := left - 1;
    }
    left := left - 1;
  }

  function Reversed(s: seq<char>): (r: seq<char>)
    ensures |r| == |s|
  {
    if s == [] then [] else Reversed(s[1..]) + [s[0]]
  }

  lemma {:induction false} ReversedLast(s: seq<char>, c: char)
    ensures Reversed(s + [c]) == [c] + Reversed(s)
    decreases |s|
  {
    if s != [] {
      ReversedLast(s[1..], c);
      assert (s + [c])[1..] == s[1..] + [c];
    }
  }

  /** The digit loop: tmp holds the digits, least significant first, and never overflows. */
  method Collect(num: nat, base: nat, small: bool) returns (tmp: array<char>, i: nat)
    requires 2 <= base <= 36 && num < WORD
    ensures fresh(tmp) && tmp.Length == TMP_SIZE && i <= 32 && Reversed(tmp[..i]) == Digits(num, base, small)
  {
    tmp := new char[TMP_SIZE];
    hide DigitsLeft, Digits, DigitChars, Power;
    var digits := DigitChars(small);
    i := 0;
    if num == 0 {
      tmp[0] := '0';
      i := 1;
      ZeroDigit(base, small);
      assert tmp[..1] == ['0'];
      return;
    }
    var n: nat := num;
    DigitsStart(num, base, small);
    while n != 0
      invariant i <= 32 && DigitsLeft(num, base, small, n, tmp[..i])
    {
      DigitsStep(num, base, small, n, tmp[..i]);
      tmp[i] := digits[n % base];
      assert tmp[..i + 1] == tmp[..i] + [digits[n % base]];
      n := n / base;
      i := i + 1;
    }
    DigitsEnd(num, base, small, tmp[..i]);
  }

  lemma ZeroDigit(base: nat, small: bool)
    requires 2 <= base <= 36
    ensures Digits(0, base, small) == ['0']
  {
    assert 0 / base == 0 && 0 % base == 0;
  }

  /** The digits of `num` are those of `n`, which are still to be written, and those in `s`. */
  ghost predicate DigitsLeft(num: nat, base: nat, small: bool, n: nat, s: seq<char>)
    requires 2 <= base <= 36
  {
    Digits(num, base, small) == (if n == 0 then [] else Digits(n, base, small)) + Reversed(s)
  }

  lemma DigitsStart(num: nat, base: nat, small: bool)
    requires 2 <= base <= 36 && num > 0
    ensures DigitsLeft(num, base, small, num, [])
  {
  }

  lemma DigitsStep(num: nat, base: nat, small: bool, n: nat, s: seq<char>)
    requires 2 <= base <= 36 && num < WORD && n > 0 && DigitsLeft(num, base, small, n, s)
    ensures 0 <= n / base < n && |s| < 32 && DigitsLeft(num, base, small, n / base, s + [DigitChars(small)[n % base]])
  {
    hide Digits, Power, DigitChars;
    Power32();
    FewDigits(num, base, small, 32);
    Halved(n, base);
    LastDigit(n, base, small);
    var c := DigitChars(small)[n % base];
    ReversedLast(s, c);
    var before := if n / base == 0 then [] else Digits(n / base, base, small);
    assert before + [c] + Reversed(s) == before + ([c] + Reversed(s));
  }

  lemma LastDigit(n: nat, base: nat, small: bool)
    requires 2 <= base <= 36 && n > 0
    ensures n / base >= 0
    ensures Digits(n, base, small)
      == (if n / base == 0 then [] else Digits(n / base, base, small)) + [DigitChars(small)[n % base]]
  {
    hide DigitChars;
    Halved(n, base);
  }

  lemma DigitsEnd(num: nat, base: nat, small: bool, s: seq<char>)
    requires 2 <= base <= 36 && DigitsLeft(num, base, small, 0, s)
    ensures Reversed(s) == Digits(num, base, small)
  {
  }

  /** What the sign and the prefix leave of the width. */
  method Room(num: int, base: nat, width: int, flags: Flags) returns (size: int)
    ensures size == width - |SignPart(num, flags)| - |PrefixPart(base, flags)|
  {
    size := width;
    if SignPart(num, flags) != "" {
      size := size - 1;
    }
    if flags.special {
      if base == 16 {
        size := size - 2;
      } else if base == 8 {
        size := size - 1;
      }
    }
  }

  /** number: sign, prefix, padding and digits, written one after the other. */
  method Number(str: seq<char>, num: int, base: int, width: int, precision: int, type_: Flags)
    returns (ok: bool, out: seq<char>)
    requires -(WORD / 2) <= num < WORD / 2
    ensures ok <==> 2 <= base <= 36
    ensures ok ==> Magnitude(num, type_) >= 0 && out == str + Printed(num, base, width, precision, type_)
  {
    hide Digits, DigitChars, Rep, Laid, Reversed;
    if type_.left { SameLaid(type_); }
    var flags := if type_.left then type_.(zeroPad := false) else type_;
    if base < 2 || base > 36 {
      return false, [];
    }
    var c := if flags.zeroPad then '0' else ' ';
    var sign := SignPart(num, flags);
    var size := Room(num, base, width, flags);
    var prefix := PrefixPart(base, flags);
    var tmp, i := Collect(Magnitude(num, flags), base, flags.small);
    var prec := if i > precision then i else precision;
    size := size - prec;
    out := Emit(str, sign, prefix, c, size, prec, tmp, i, flags);
    ok := true;
    NoZeros(prec - i, precision - i);
  }

  /** The output of number, once the padding is known. */
  method Emit(str: seq<char>, sign: seq<char>, prefix: seq<char>, c: char, pad: int, precision: int, tmp: array<char>,
      i: nat, flags: Flags)
    returns (out: seq<char>)
    requires i <= tmp.Length && !(flags.left && flags.zeroPad) && c == if flags.zeroPad then '0' else ' '
    ensures out == str + Laid(sign, prefix, Rep('0', precision - i) + Reversed(tmp[..i]), pad, flags)
  {
    hide Rep, Reversed;
    NoRep(c);
    var size := pad;
    out := str;
    if !flags.zeroPad && !flags.left {
      out, size := Fill(out, size, ' ');
    }
    out := out + sign + prefix;
    if !flags.left {
      out, size := Fill(out, size, c);
    }
    var zeros;
    out, zeros := Fill(out, precision - i, '0');
    out := WriteDigits(out, tmp, i);
    out, size := Fill(out, size, ' ');
    Assembled(str, sign, prefix, Rep(' ', pad), Rep(c, pad), Rep('0', precision - i), Reversed(tmp[..i]));
  }

  /** ZEROPAD means nothing with LEFT. */
  lemma SameLaid(flags: Flags)
    requires flags.left
    ensures forall s, p, d, pad :: Laid(s, p, d, pad, flags.(zeroPad := false)) == Laid(s, p, d, pad, flags)
  {
  }

  lemma NoRep(c: char)
    ensures forall n :: n <= 0 ==> Rep(c, n) == [] && Rep(' ', n) == []
  {
  }

  lemma NoZeros(a: int, b: int)
    requires a == b || (a == 0 && b < 0)
    ensures Rep('0', a) == Rep('0', b)
  {
  }

  lemma Assembled(str: seq<char>, s: seq<char>, p: seq<char>, pad: seq<char>, zeros: seq<char>, a: seq<char>,
      b: seq<char>)
    ensures str + pad + (s + p) + [] + a + b + [] == str + (pad + s + p + (a + b))
    ensures str + (s + p) + zeros + a + b + [] == str + (s + p + zeros + (a + b))
    ensures str + (s + p) + a + b + pad == str + (s + p + (a + b) + pad)
  {
  }

  /** Writes the collected digits, the last one first. */
  method WriteDigits(str: seq<char>, tmp: array<char>, i: nat) returns (out: seq<char>)
    requires i <= tmp.Length
    ensures out == str + Reversed(tmp[..i])
  {
    out := str;
    var k := i;
    while k > 0
      invariant 0 <= k <= i && out + Reversed(tmp[..k]) == str + Reversed(tmp[..i])
    {
      k := k - 1;
      ReversedLast(tmp[..k], tmp[k]);
      assert tmp[..k + 1] == tmp[..k] + [tmp[k]];
      out := out + [tmp[k]];
    }
  }

  /** The length is the width, or what the value needs if that is more. */
  lemma PrintedLength(num: int, base: nat, width: int, precision: int, flags: Flags)
    requires 2 <= base <= 36 && Magnitude(num, flags) >= 0
    ensures |Printed(num, base, width, precision, flags)|
         == Max(width, |SignPart(num, flags)| + |PrefixPart(base, flags)|
                       + Max(|Digits(Magnitude(num, flags), base, flags.small)|, precision))
  {
  }

  // ---------------------------------------------------------------- atoi

  /** The character at a place, or the terminator. */
  function At(s: seq<char>, i: nat): char {
    if i < |s| then s[i] else '\0'
  }

  predicate IsSpace(c: char) {
    9 <= c as int <= 13 || c as int == 32 || c as int == 160
  }

  predicate IsUpper(c: char) {
    'A' <= c <= 'Z'
  }

  predicate IsXDigit(c: char) {
    '0' <= c <= '9' || 'A' <= c <= 'F' || 'a' <= c <= 'f'
  }

  function ToLower(c: char): char {
    if IsUpper(c) then (c as int + 32) as char else c
  }

  /** The value of a hexadecimal digit. */
  function Val(c: char): int {
    if '0' <= c <= '9' then c as int - '0' as int else ToLower(c) as int - 'a' as int + 10
  }

  datatype Parsed = Parsed(value: int, errno: int)

  /** What the digit loop makes of the rest of the string: it stops at the terminator, or with an
      error at anything that is not a digit of the base. */
  function Value(s: seq<char>, base: nat, acc: int): Parsed {
    if At(s, 0) == '\0' then Parsed(acc, 0)
    else if !IsXDigit(s[0]) || Val(s[0]) >= base then Parsed(acc, -1)
    else Value(s[1..], base, acc * base + Val(s[0]))
  }

  function SkipSpaces(s: seq<char>): seq<char> {
    if s != [] && IsSpace(s[0]) then SkipSpaces(s[1..]) else s
  }

  /** The base and the digits that follow the sign. */
  function BaseOf(s: seq<char>): (nat, seq<char>) {
    if At(s, 0) != '0' then (10, s)
    else if ToLower(At(s, 1)) == 'x' then (16, s[2..])
    else if ToLower(At(s, 1)) == 'b' then (2, s[2..])
    else (8, s[1..])
  }

  function Unsigned(s: seq<char>): Parsed {
    Value(BaseOf(s).1, BaseOf(s).0, 0)
  }

  function Parse(s: seq<char>): Parsed {
    var t := SkipSpaces(s);
    if At(t, 0) == '-' then Unsigned(t[1..]).(value := -Unsigned(t[1..]).value) else Unsigned(t)
  }

  /** atoi. */
  method Atoi(buffer: seq<char>) returns (value: int, errno: int)
    ensures Parsed(value, errno) == Parse(buffer)
  {
    var str, base, sign := buffer, 10, 1;
    errno := -1;
    while str != [] && IsSpace(str[0])
      invariant SkipSpaces(str) == SkipSpaces(buffer)
    {
      str := str[1..];
    }
    if At(str, 0) == '-' {
      sign := -1;
      str := str[1..];
    }
    ghost var number := str;
    if At(str, 0) == '0' {
      base := 8;
      str := str[1..];
      if ToLower(At(str, 0)) == 'x' {
        base := 16;
        str := str[1..];
      } else if ToLower(At(str, 0)) == 'b' {
        base := 2;
        str := str[1..];
      }
    }
    assert (base, str) == BaseOf(number);
    value, errno := DigitLoop(str, base);
    value := value * sign;
  }

  /** The digit loop of atoi and the test of what stopped it. */
  method DigitLoop(digits: seq<char>, base: nat) returns (result: int, errno: int)
    ensures Parsed(result, errno) == Value(digits, base, 0)
  {
    var str := digits;
    result := 0;
    while At(str, 0) != '\0' && IsXDigit(str[0])
      invariant Value(str, base, result) == Value(digits, base, 0)
      decreases |str|
    {
      var val := Val(str[0]);
      if val >= base {
        return result, -1;
      }
      result := result * base + val;
      str := str[1..];
    }
    errno := if At(str, 0) != '\0' then -1 else 0;
  }

  // ---------------------------------------------------------------- printing, then parsing

  /** The characters of the digits are read as what they stand for. */
  lemma DigitRead(small: bool, k: nat)
    requires k < 16
    ensures var c := DigitChars(small)[k]; c != '\0' && IsXDigit(c) && Val(c) == k && !IsSpace(c) && c != '-'
    ensures DigitChars(small)[k] == '0' <==> k == 0
  {
  }

  /** One more digit at the end. */
  lemma {:induction false} ValueNext(s: seq<char>, base: nat, acc: int, c: char)
    requires (forall i :: 0 <= i < |s| ==> s[i] != '\0') && Value(s, base, acc).errno == 0
    requires IsXDigit(c) && Val(c) < base
    ensures Value(s + [c], base, acc) == Parsed(Value(s, base, acc).value * base + Val(c), 0)
    decreases |s|
  {
    if s == [] {
      assert Value([c], base, acc) == Value([c][1..], base, acc * base + Val(c));
    } else {
      ValueNext(s[1..], base, acc * base + Val(s[0]), c);
      assert (s + [c])[1..] == s[1..] + [c] && (s + [c])[0] == s[0];
    }
  }

  lemma ValueLast(s: seq<char>, base: nat, acc: int, small: bool, k: nat)
    requires base <= 16 && k < base && (forall i :: 0 <= i < |s| ==> s[i] != '\0') && Value(s, base, acc).errno == 0
    ensures Value(s + [DigitChars(small)[k]], base, acc) == Parsed(Value(s, base, acc).value * base + k, 0)
  {
    DigitRead(small, k);
    ValueNext(s, base, acc, DigitChars(small)[k]);
  }

  /** The characters that atoi takes for blanks and for digits, and the value of a digit. */
  lemma Characters(c: char)
    ensures IsSpace(c) <==> c as int in {9, 10, 11, 12, 13, 32, 160}
    ensures IsXDigit(c) <==> c in "0123456789" || c in "abcdef" || c in "ABCDEF"
    ensures '0' <= c <= '9' ==> Val(c) == c as int - '0' as int
    ensures 'a' <= c <= 'f' ==> Val(c) == c as int - 'a' as int + 10
    ensures 'A' <= c <= 'F' ==> Val(c) == c as int - 'A' as int + 10
  {
  }

  /** The characters that numbers are printed with. */
  lemma DigitText(small: bool, k: nat)
    requires k < 16
    ensures DigitChars(small)[k] as int
      == if k < 10 then '0' as int + k else if small then 'a' as int + k - 10 else 'A' as int + k - 10
    ensures DigitChars(small)[33] == if small then 'x' else 'X'
  {
  }

  predicate DigitsOf(s: seq<char>, base: nat) {
    forall i :: 0 <= i < |s| ==> IsXDigit(s[i]) && Val(s[i]) < base
  }

  /** The number that digits write in a base. */
  function NumberOf(s: seq<char>, base: nat): int {
    if s == [] then 0 else NumberOf(s[..|s| - 1], base) * base + Val(s[|s| - 1])
  }

  lemma {:induction false} ValueIs(s: seq<char>, base: nat)
    requires DigitsOf(s, base)
    ensures Value(s, base, 0) == Parsed(NumberOf(s, base), 0)
  {
    if s != [] {
      var n := |s| - 1;
      ValueIs(s[..n], base);
      ValueNext(s[..n], base, 0, s[n]);
      assert s[..n] + [s[n]] == s;
    }
  }

  /** A prefix with the base that it stands for. */
  predicate Prefixed(prefix: seq<char>, base: nat, digits: seq<char>) {
    && (prefix, base) in {("", 10), ("0", 8), ("0x", 16), ("0X", 16), ("0b", 2), ("0B", 2)}
    && (prefix == "" && digits != [] ==> digits[0] != '0')
  }

  /** Blanks, a minus or none, a prefix, and digits of its base, or none, are read as the number they
      write. */
  lemma AtoiReads(blanks: seq<char>, negative: bool, prefix: seq<char>, base: nat, digits: seq<char>)
    requires (forall i :: 0 <= i < |blanks| ==> IsSpace(blanks[i])) && DigitsOf(digits, base)
    requires Prefixed(prefix, base, digits)
    ensures Parse(blanks + ((if negative then "-" else "") + (prefix + digits)))
      == Parsed(if negative then -NumberOf(digits, base) else NumberOf(digits, base), 0)
  {
    var t := prefix + digits;
    var u := (if negative then "-" else "") + t;
    ValueIs(digits, base);
    PrefixedRead(prefix, base, digits);
    BlanksSkipped(blanks, u);
    if u != [] { NothingSkipped(u); }
    assert ("-" + t)[1..] == t && "" + t == t;
    hide Unsigned, NumberOf;
  }

  lemma PrefixedRead(prefix: seq<char>, base: nat, digits: seq<char>)
    requires DigitsOf(digits, base) && Prefixed(prefix, base, digits)
    ensures var t := prefix + digits;
      (t != [] ==> !IsSpace(t[0]) && t[0] != '-') && Unsigned(t) == Value(digits, base, 0)
  {
    var t := prefix + digits;
    hide Value;
    assert t[|prefix|..] == digits;
    assert prefix == "" ==> t == digits;
  }

  /** Every string that is read without an error has that form. */
  lemma AtoiAccepts(s: seq<char>)
    returns (blanks: seq<char>, negative: bool, prefix: seq<char>, base: nat, digits: seq<char>)
    requires (forall i :: 0 <= i < |s| ==> s[i] != '\0') && Parse(s).errno == 0
    ensures s == blanks + ((if negative then "-" else "") + (prefix + digits))
    ensures (forall i :: 0 <= i < |blanks| ==> IsSpace(blanks[i])) && DigitsOf(digits, base)
    ensures Prefixed(prefix, base, digits)
  {
    hide Value, BaseOf, IsSpace, IsXDigit, Val;
    var t := SkipSpaces(s);
    blanks := Blanks(s);
    negative := At(t, 0) == '-';
    var u := if negative then t[1..] else t;
    assert s == blanks + t && t == (if negative then "-" else "") + u;
    assert forall i :: 0 <= i < |t| ==> t[i] == s[|blanks| + i];
    BaseSplit(u);
    base, digits := BaseOf(u).0, BaseOf(u).1;
    prefix := u[..|u| - |digits|];
    ValueDigits(digits, base, 0);
  }

  lemma {:induction false} Blanks(s: seq<char>) returns (blanks: seq<char>)
    ensures s == blanks + SkipSpaces(s) && forall i :: 0 <= i < |blanks| ==> IsSpace(blanks[i])
    decreases |s|
  {
    if s != [] && IsSpace(s[0]) {
      var rest := Blanks(s[1..]);
      blanks := [s[0]] + rest;
    } else {
      blanks := [];
    }
  }

  lemma BaseSplit(u: seq<char>)
    requires forall i :: 0 <= i < |u| ==> u[i] != '\0'
    ensures var r := BaseOf(u);
      |r.1| <= |u| && u == u[..|u| - |r.1|] + r.1 && Prefixed(u[..|u| - |r.1|], r.0, r.1)
      && forall i :: 0 <= i < |r.1| ==> r.1[i] != '\0'
  {
    if At(u, 0) == '0' {
      assert u[..1] == "0" && |u| > 1 ==> u[..2] == ['0', u[1]];
    } else {
      assert u[..0] == "";
    }
  }

  lemma {:induction false} ValueDigits(s: seq<char>, base: nat, acc: int)
    requires (forall i :: 0 <= i < |s| ==> s[i] != '\0') && Value(s, base, acc).errno == 0
    ensures DigitsOf(s, base)
    decreases |s|
  {
    if s != [] {
      ValueDigits(s[1..], base, acc * base + Val(s[0]));
      assert forall i :: 0 < i < |s| ==> s[i] == s[1..][i - 1];
    }
  }

  lemma {:induction false} BlanksSkipped(blanks: seq<char>, s: seq<char>)
    requires forall i :: 0 <= i < |blanks| ==> IsSpace(blanks[i])
    ensures SkipSpaces(blanks + s) == SkipSpaces(s)
    decreases |blanks|
  {
    if blanks == [] {
      assert blanks + s == s;
    } else {
      BlanksSkipped(blanks[1..], s);
      assert (blanks + s)[1..] == blanks[1..] + s && (blanks + s)[0] == blanks[0];
    }
  }

  /** The digits of a number are read as the number; they start with a digit other than 0, unless
      the number is 0. */
  lemma {:induction false} DigitsRead(m: nat, base: nat, small: bool)
    requires 2 <= base <= 16
    ensures var d := Digits(m, base, small);
      && Value(d, base, 0) == Parsed(m, 0) && (forall i :: 0 <= i < |d| ==> d[i] != '\0')
      && !IsSpace(d[0]) && d[0] != '-' && (d[0] == '0' <==> m == 0)
    decreases m
  {
    hide DigitChars;
    Halved(m, base);
    DigitRead(small, m % base);
    var c := DigitChars(small)[m % base];
    if m / base == 0 {
      ValueLast([], base, 0, small, m % base);
      assert [] + [c] == [c];
    } else {
      DigitsRead(m / base, base, small);
      ValueLast(Digits(m / base, base, small), base, 0, small, m % base);
    }
  }

  lemma SpacesSkipped(n: int, s: seq<char>)
    ensures SkipSpaces(Rep(' ', n) + s) == SkipSpaces(s)
  {
    BlanksSkipped(Rep(' ', n), s);
  }

  lemma OneSpace()
    ensures Rep(' ', 1) == " "
  {
  }

  /** What is read after padding and a sign other than plus. */
  lemma SignRead(pad: int, s: seq<char>, t: seq<char>)
    requires t != [] && !IsSpace(t[0]) && t[0] != '-' && (s == "" || s == " " || s == "-")
    ensures Parse(Rep(' ', pad) + (s + t)) == Signed(s == "-", Unsigned(t))
  {
    hide Unsigned, Rep;
    SpacesSkipped(pad, s + t);
    if s == " " {
      OneSpace();
      SpacesSkipped(1, t);
    }
    NothingSkipped(t);
    NothingSkipped("-" + t);
    assert ("-" + t)[1..] == t && "" + t == t;
  }

  function Signed(negative: bool, p: Parsed): Parsed {
    if negative then p.(value := -p.value) else p
  }

  /** A plus is not read. */
  lemma PlusRead(pad: int, t: seq<char>)
    ensures Parse(Rep(' ', pad) + ("+" + t)).errno == -1
  {
    hide Rep;
    SpacesSkipped(pad, "+" + t);
    NothingSkipped("+" + t);
    assert BaseOf("+" + t) == (10, "+" + t);
    assert Value("+" + t, 10, 0) == Parsed(0, -1);
  }

  /** A number that is followed by something else. */
  lemma {:induction false} ValueBad(s: seq<char>, t: seq<char>, base: nat, acc: int)
    requires (forall i :: 0 <= i < |s| ==> s[i] != '\0') && t != [] && t[0] != '\0' && !IsXDigit(t[0])
    ensures Value(s + t, base, acc).errno == -1
    decreases |s|
  {
    if s == [] {
      assert s + t == t;
    } else {
      assert (s + t)[1..] == s[1..] + t && (s + t)[0] == s[0];
      ValueBad(s[1..], t, base, acc * base + Val(s[0]));
    }
  }

  lemma {:induction false} FirstDecimal(m: nat, small: bool)
    ensures '0' <= Digits(m, 10, small)[0] <= '9'
  {
    Halved(m, 10);
    if m / 10 != 0 { FirstDecimal(m / 10, small); }
  }

  lemma NothingSkipped(s: seq<char>)
    requires s != [] && !IsSpace(s[0])
    ensures SkipSpaces(s) == s
  {
  }

  /** A number below the base is one digit. */
  lemma OneDigit(m: nat, base: nat, small: bool)
    requires 2 <= base <= 16
    ensures var d := Digits(m, base, small); if m < base then d == [DigitChars(small)[m]] else |d| > 1
  {
    hide DigitChars;
    Halved(m, base);
    if m < base { assert m / base == 0 && m % base == m; }
  }

  /** Digits that are read in one base are read in any larger one, and as more unless there is at
      most one of them. */
  lemma {:induction false} LargerBase(s: seq<char>, small: nat, large: nat, a: nat, b: nat)
    requires small < large && a <= b && Value(s, small, a).errno == 0
    ensures var v, w := Value(s, small, a), Value(s, large, b);
      && w.errno == 0 && v.value <= w.value
      && (a < b || (a > 0 && At(s, 0) != '\0') ==> v.value < w.value)
    decreases |s|
  {
    if At(s, 0) != '\0' {
      Products(a, small, b, large);
      LargerBase(s[1..], small, large, a * small + Val(s[0]), b * large + Val(s[0]));
    }
  }

  lemma Products(a: nat, x: nat, b: nat, y: nat)
    requires x < y && a <= b
    ensures a * x <= b * y && (b > 0 ==> a * x < b * y) && a * x >= 0
  {
    assert b * y == a * x + a * (y - x) + (b - a) * y;
    if a > 0 { assert a * (y - x) >= y - x by { Scaled(a, y - x); } }
    if b > a { assert (b - a) * y >= y by { Scaled(b - a, y); } }
  }

  lemma Scaled(n: nat, k: nat)
    requires n > 0
    ensures n * k >= k
  {
  }

  /** Digits of one base are read as the number in another one exactly when it is below both. */
  lemma OtherBase(m: nat, base: nat, other: nat, small: bool)
    requires 2 <= base <= 16 && 2 <= other <= 16
    ensures Value(Digits(m, base, small), other, 0) == Parsed(m, 0) <==> base == other || (m < base && m < other)
  {
    var d := Digits(m, base, small);
    DigitsRead(m, base, small);
    OneDigit(m, base, small);
    if m < base {
      DigitRead(small, m);
      OneRead(DigitChars(small)[m], other);
    } else {
      ManyRead(m, d, base, other);
    }
  }

  lemma OneRead(c: char, base: nat)
    requires IsXDigit(c) && c != '\0'
    ensures Value([c], base, 0) == if Val(c) < base then Parsed(Val(c), 0) else Parsed(0, -1)
  {
    assert [c][1..] == [];
  }

  lemma ManyRead(m: nat, d: seq<char>, base: nat, other: nat)
    requires 2 <= base <= 16 && 2 <= other <= 16 && |d| > 1 && Value(d, base, 0) == Parsed(m, 0)
    requires d[0] != '\0' && d[0] != '0' && d[1] != '\0'
    ensures base != other ==> Value(d, other, 0) != Parsed(m, 0)
  {
    var a, t := Val(d[0]), d[1..];
    assert IsXDigit(d[0]) && 0 < a < base && Value(d, base, 0) == Value(t, base, a);
    assert At(t, 0) == d[1];
    if base < other {
      assert Value(d, other, 0) == Value(t, other, a);
      LargerBase(t, base, other, a, a);
    } else if other < base && Value(d, other, 0).errno == 0 {
      assert Value(d, other, 0) == Value(t, other, a);
      LargerBase(t, other, base, a, a);
    }
  }

  lemma {:induction false} ZerosRead(k: nat, s: seq<char>, base: nat)
    requires base > 0
    ensures Value(Rep('0', k) + s, base, 0) == Value(s, base, 0)
  {
    if k == 0 {
      assert Rep('0', k) + s == s;
    } else {
      ZerosRead(k - 1, s, base);
      assert (Rep('0', k) + s)[1..] == Rep('0', k - 1) + s;
    }
  }

  /** Spaces behind a number are not read. */
  lemma BadTail(u: seq<char>, pad: int)
    requires u != [] && (forall i :: 0 <= i < |u| ==> u[i] != '\0') && pad > 0
    ensures Unsigned(u + Rep(' ', pad)).errno == -1
  {
    var t := Rep(' ', pad);
    var n :=
      if u[0] != '0' then 0 else if |u| > 1 && (ToLower(u[1]) == 'x' || ToLower(u[1]) == 'b') then 2 else 1;
    assert t[0] == ' ';
    hide Rep, Value;
    assert BaseOf(u + t).1 == u[n..] + t by { SplitAt(u, t, n); }
    ValueBad(u[n..], t, BaseOf(u + t).0, 0);
  }

  lemma SplitAt(u: seq<char>, t: seq<char>, n: nat)
    requires n <= |u|
    ensures (u + t)[n..] == u[n..] + t && (u + t)[0..] == u + t
    ensures forall i :: 0 <= i < |u| ==> At(u + t, i) == u[i]
    ensures t != [] ==> At(u + t, |u|) == t[0]
  {
  }

  lemma ZerosFront(d: seq<char>, k: nat)
    requires k > 0 && d != []
    ensures var t := Rep('0', k) + d;
      |t| > 1 && t[0] == '0' && t[1] == (if k > 1 then '0' else d[0]) && t[1..] == Rep('0', k - 1) + d
      && (k == 1 ==> t[2..] == d[1..])
  {
  }

  /** A zero in front means octal, unless an x or a b follows. */
  lemma OctalText(t: seq<char>)
    requires |t| > 1 && t[0] == '0'
    ensures ToLower(t[1]) != 'x' && ToLower(t[1]) != 'b' ==> Unsigned(t) == Value(t[1..], 8, 0)
    ensures ToLower(t[1]) == 'x' ==> Unsigned(t) == Value(t[2..], 16, 0)
    ensures ToLower(t[1]) == 'b' ==> Unsigned(t) == Value(t[2..], 2, 0)
  {
    hide Value;
  }

  /** Digits without a prefix behind zeros are read as octal. */
  lemma ZerosBefore(m: nat, base: nat, small: bool, k: nat)
    requires (base == 8 || base == 10 || base == 16) && k > 0
    ensures Unsigned(Rep('0', k) + Digits(m, base, small)) == Parsed(m, 0) <==> base == 8 || m < 8
  {
    var d := Digits(m, base, small);
    DigitsRead(m, base, small);
    OneDigit(m, base, small);
    OtherBase(m, base, 8, small);
    ZerosRead(k - 1, d, 8);
    ZerosFront(d, k);
    OctalText(Rep('0', k) + d);
    FirstDigit(m, base, small);
    if k == 1 && ToLower(d[0]) == 'b' {
      Binary(m, d);
    }
  }

  /** What the first digit of a number can be. */
  lemma {:induction false} FirstDigit(m: nat, base: nat, small: bool)
    requires 2 <= base <= 16
    ensures var c := Digits(m, base, small)[0];
      IsXDigit(c) && ToLower(c) != 'x' && (ToLower(c) == 'b' ==> base > 11 && m >= 11 && Val(c) == 11)
    decreases m
  {
    Halved(m, base);
    if m / base == 0 {
      FirstOf(small, m);
    } else {
      FirstDigit(m / base, base, small);
    }
  }

  lemma FirstOf(small: bool, k: nat)
    requires k < 16
    ensures var c := DigitChars(small)[k];
      IsXDigit(c) && ToLower(c) != 'x' && (ToLower(c) == 'b' <==> k == 11) && Val(c) == k
  {
  }

  lemma Binary(m: nat, d: seq<char>)
    requires d != [] && d[0] != '\0' && Value(d, 16, 0) == Parsed(m, 0) && IsXDigit(d[0]) && Val(d[0]) == 11
    ensures Value(d[1..], 2, 0) != Parsed(m, 0)
  {
    if Value(d[1..], 2, 0).errno == 0 {
      LargerBase(d[1..], 2, 16, 0, 11);
      assert Value(d, 16, 0) == Value(d[1..], 16, 11);
    }
  }

  /** Digits with nothing in front are read as decimal. */
  lemma BareRead(m: nat, base: nat, small: bool)
    requires base == 8 || base == 10 || base == 16
    ensures Unsigned(Digits(m, base, small)) == Parsed(m, 0) <==> base == 10 || (m < base && m < 10)
  {
    var d := Digits(m, base, small);
    DigitsRead(m, base, small);
    OneDigit(m, base, small);
    DigitRead(small, 0);
    OtherBase(m, base, 10, small);
    hide Digits, DigitChars;
    if m == 0 {
      assert d == ['0'] && BaseOf(d) == (8, []);
    } else {
      assert BaseOf(d) == (10, d);
    }
  }

  /** Behind its prefix a number is read as it is, with any zeros between. */
  lemma PrefixRead(m: nat, base: nat, flags: Flags, k: nat)
    requires (base == 8 || base == 16) && flags.special
    ensures Unsigned(PrefixPart(base, flags) + (Rep('0', k) + Digits(m, base, flags.small))) == Parsed(m, 0)
  {
    var d, x := Digits(m, base, flags.small), DigitChars(flags.small)[33];
    assert ToLower(x) == 'x';
    DigitsRead(m, base, flags.small);
    hide Digits, DigitChars, Unsigned, Rep, Value;
    ZerosRead(k, d, base);
    if base == 16 {
      HexPrefix(x, Rep('0', k) + d);
    } else {
      ZerosBefore(m, 8, flags.small, k + 1);
      OneZero(k, d);
    }
  }

  lemma HexPrefix(x: char, u: seq<char>)
    requires ToLower(x) == 'x'
    ensures Unsigned(['0', x] + u) == Value(u, 16, 0)
  {
    hide Value;
    OctalText(['0', x] + u);
    assert (['0', x] + u)[2..] == u;
  }

  lemma OneZero(k: nat, d: seq<char>)
    ensures "0" + (Rep('0', k) + d) == Rep('0', k + 1) + d
  {
  }

  function Abs(n: int): nat {
    if n < 0 then -n else n
  }

  /** What the width leaves to be padded. */
  function Pad(n: int, base: nat, width: int, precision: int, flags: Flags): int
    requires 2 <= base <= 16
  {
    width - |SignPart(n, flags)| - |PrefixPart(base, flags)| - Max(|Digits(Abs(n), base, flags.small)|, precision)
  }

  /** The zeros between the prefix and the digits, from the precision and from the padding. */
  function Zeros(n: int, base: nat, width: int, precision: int, flags: Flags): nat
    requires 2 <= base <= 16
  {
    Max(precision - |Digits(Abs(n), base, flags.small)|, 0)
    + if flags.zeroPad && !flags.left then Max(Pad(n, base, width, precision, flags), 0) else 0
  }

  /** Digits are read as what they stand for if they have a prefix; else, behind zeros, as octal, and
      with nothing in front as decimal. */
  predicate DigitsBack(m: nat, base: nat, prefixed: bool, zeros: bool) {
    prefixed || if zeros then base == 8 || m < 8 else base == 10 || (m < base && m < 10)
  }

  /** There is no plus in front, no padding behind, and the digits are read in their base. */
  predicate ReadsBack(n: int, base: nat, width: int, precision: int, flags: Flags)
    requires 2 <= base <= 16
  {
    && !(flags.plus && !(flags.sign && n < 0))
    && (flags.left ==> Pad(n, base, width, precision, flags) <= 0)
    && DigitsBack(Abs(n), base, flags.special && base != 10, Zeros(n, base, width, precision, flags) > 0)
  }

  /** A number printed in base 8, 10 or 16 with any flags, width and precision is read back by atoi if
      and only if this is so. */
  lemma NumberReadBack(n: int, base: nat, width: int, precision: int, flags: Flags)
    requires (base == 8 || base == 10 || base == 16) && -(WORD / 2) < n < WORD / 2 && (flags.sign || n >= 0)
    ensures Parse(Printed(n, base, width, precision, flags)) == Parsed(n, 0) <==>
      ReadsBack(n, base, width, precision, flags)
  {
    var m, sign, pad := Abs(n), SignPart(n, flags), Pad(n, base, width, precision, flags);
    var k := Zeros(n, base, width, precision, flags);
    var trail, spaces := if flags.left then pad else 0, if flags.left || flags.zeroPad then 0 else pad;
    var u := PrefixPart(base, flags) + (Rep('0', k) + Digits(m, base, flags.small));
    NumberLaid(n, base, width, precision, flags);
    TextRead(m, base, flags, k, trail);
    hide Digits, DigitChars, Printed, Parse, Unsigned, Rep, Value, IsSpace, IsXDigit, PrefixPart, Zeros, Pad;
    if sign == "+" {
      PlusRead(spaces, u + Rep(' ', trail));
    } else {
      SignRead(spaces, sign, u + Rep(' ', trail));
    }
  }

  /** The text that follows the sign, and what it is read as. */
  lemma TextRead(m: nat, base: nat, flags: Flags, k: nat, trail: int)
    requires base == 8 || base == 10 || base == 16
    ensures var t := PrefixPart(base, flags) + (Rep('0', k) + Digits(m, base, flags.small)) + Rep(' ', trail);
      && t != [] && !IsSpace(t[0]) && t[0] != '-'
      && (Unsigned(t) == Parsed(m, 0) <==> trail <= 0 && DigitsBack(m, base, flags.special && base != 10, k > 0))
  {
    var p, d := PrefixPart(base, flags), Digits(m, base, flags.small);
    var u := p + (Rep('0', k) + d);
    DigitsRead(m, base, flags.small);
    NoTerminator(p, k, d, flags, base);
    if flags.special && base != 10 { PrefixRead(m, base, flags, k); }
    if k > 0 { ZerosBefore(m, base, flags.small, k); }
    BareRead(m, base, flags.small);
    if trail > 0 { BadTail(u, trail); }
    hide Digits, DigitChars, Unsigned, Value, IsSpace, PrefixPart;
    Unpadded(p, k, d, trail);
  }

  lemma NoTerminator(p: seq<char>, k: nat, d: seq<char>, flags: Flags, base: nat)
    requires p == PrefixPart(base, flags) && d != [] && (forall i :: 0 <= i < |d| ==> d[i] != '\0')
    requires !IsSpace(d[0]) && d[0] != '-'
    ensures var u := p + (Rep('0', k) + d);
      u != [] && (forall i :: 0 <= i < |u| ==> u[i] != '\0') && !IsSpace(u[0]) && u[0] != '-'
    ensures !(flags.special && (base == 8 || base == 16)) ==> p == []
  {
  }

  lemma Unpadded(p: seq<char>, k: nat, d: seq<char>, trail: int)
    ensures trail <= 0 ==> p + (Rep('0', k) + d) + Rep(' ', trail) == p + (Rep('0', k) + d)
    ensures k == 0 ==> Rep('0', k) + d == d
    ensures p == [] ==> p + (Rep('0', k) + d) == Rep('0', k) + d
    ensures p + (Rep('0', k) + d) != [] ==>
      (p + (Rep('0', k) + d) + Rep(' ', trail))[0] == (p + (Rep('0', k) + d))[0]
  {
  }

  lemma NumberLaid(n: int, base: nat, width: int, precision: int, flags: Flags)
    requires 2 <= base <= 16 && (flags.sign || n >= 0)
    ensures Magnitude(n, flags) == Abs(n)
    ensures var pad, k := Pad(n, base, width, precision, flags), Zeros(n, base, width, precision, flags);
      var u := PrefixPart(base, flags) + (Rep('0', k) + Digits(Abs(n), base, flags.small));
      Printed(n, base, width, precision, flags)
      == Rep(' ', if flags.left || flags.zeroPad then 0 else pad)
        + (SignPart(n, flags) + (u + Rep(' ', if flags.left then pad else 0)))
  {
    hide Digits, DigitChars, SignPart, PrefixPart, Laid, Rep, Printed, Pad;
    var s, p, d := SignPart(n, flags), PrefixPart(base, flags), Digits(Abs(n), base, flags.small);
    PrintedLaid(n, base, width, precision, flags);
    Relaid(s, p, d, precision - |d|, Pad(n, base, width, precision, flags), flags);
  }

  lemma PrintedLaid(n: int, base: nat, width: int, precision: int, flags: Flags)
    requires 2 <= base <= 16 && (flags.sign || n >= 0)
    ensures Magnitude(n, flags) == Abs(n)
    ensures var d := Digits(Abs(n), base, flags.small);
      Printed(n, base, width, precision, flags)
        == Laid(SignPart(n, flags), PrefixPart(base, flags), Rep('0', precision - |d|) + d,
                Pad(n, base, width, precision, flags), flags)
  {
    hide Digits, DigitChars, SignPart, PrefixPart, Laid, Rep;
    DigitLength(Digits(Abs(n), base, flags.small), precision);
  }

  lemma DigitLength(d: seq<char>, precision: int)
    ensures |Rep('0', precision - |d|) + d| == Max(|d|, precision)
  {
  }

  lemma Relaid(s: seq<char>, p: seq<char>, d: seq<char>, q: int, pad: int, flags: Flags)
    ensures var k := Max(q, 0) + if flags.zeroPad && !flags.left then Max(pad, 0) else 0;
      Laid(s, p, Rep('0', q) + d, pad, flags)
      == Rep(' ', if flags.left || flags.zeroPad then 0 else pad)
        + (s + (p + (Rep('0', k) + d) + Rep(' ', if flags.left then pad else 0)))
  {
    ZerosSum(q, pad);
    assert Rep(' ', 0) == [];
    var a, b, c := Rep('0', q), Rep('0', pad), Rep(' ', pad);
    hide Rep;
    Regrouped(s, p, a, b, c, d);
  }

  lemma ZerosSum(q: int, pad: int)
    ensures Rep('0', pad) + Rep('0', q) == Rep('0', Max(q, 0) + Max(pad, 0)) && Rep('0', Max(q, 0) + 0) == Rep('0', q)
  {
  }

  lemma Regrouped(s: seq<char>, p: seq<char>, a: seq<char>, b: seq<char>, c: seq<char>, d: seq<char>)
    ensures s + p + (a + d) + c == [] + (s + (p + (a + d) + c))
    ensures s + p + b + (a + d) == [] + (s + (p + ((b + a) + d) + []))
    ensures c + s + p + (a + d) == c + (s + (p + (a + d) + []))
  {
  }

  /** A digit, of which the letters have one case. */
  predicate OneCase(c: char, small: bool) {
    '0' <= c <= '9' || if small then 'a' <= c <= 'f' else 'A' <= c <= 'F'
  }

  lemma {:induction false} DigitsCase(m: nat, base: nat, small: bool)
    requires 2 <= base <= 16
    ensures var d := Digits(m, base, small); DigitsOf(d, base) && forall i :: 0 <= i < |d| ==> OneCase(d[i], small)
    decreases m
  {
    hide DigitChars, Val, IsXDigit, OneCase;
    Halved(m, base);
    DigitRead(small, m % base);
    assert OneCase(DigitChars(small)[m % base], small) by { CaseOf(small, m % base); }
    if m / base != 0 { DigitsCase(m / base, base, small); }
  }

  lemma CaseOf(small: bool, k: nat)
    requires k < 16
    ensures OneCase(DigitChars(small)[k], small)
  {
    DigitText(small, k);
    hide DigitChars;
  }

  lemma DigitsShape(m: nat, base: nat, small: bool)
    requires 2 <= base <= 16
    ensures var d := Digits(m, base, small);
      DigitsOf(d, base) && NumberOf(d, base) == m && d != [] && (d[0] == '0' ==> |d| == 1)
  {
    DigitsCase(m, base, small);
    DigitsRead(m, base, small);
    ValueIs(Digits(m, base, small), base);
    OneDigit(m, base, small);
  }

  /** A printed number: its sign, its prefix and its digits, which stand for the number read as signed or
      unsigned, have no zero in front and letters of one case; zeros up to the precision; and up to the
      width spaces behind it, zeros before the digits, or spaces in front. */
  lemma PrintedText(num: int, base: nat, width: int, precision: int, flags: Flags)
    returns (sign: seq<char>, prefix: seq<char>, digits: seq<char>)
    requires 2 <= base <= 16 && num > -0x1_0000_0000
    ensures Magnitude(num, flags) >= 0
    ensures sign == if flags.sign && num < 0 then "-" else if flags.plus then "+" else if flags.space then " " else ""
    ensures prefix ==
      if !flags.special then "" else if base == 8 then "0"
      else if base == 16 then (if flags.small then "0x" else "0X") else ""
    ensures DigitsOf(digits, base) && digits != [] && (digits[0] == '0' ==> |digits| == 1)
    ensures NumberOf(digits, base)
      == if flags.sign && num < 0 then -num else if num < 0 then num + 0x1_0000_0000 else num
    ensures forall i :: 0 <= i < |digits| ==> OneCase(digits[i], flags.small)
    ensures var pad := width - |sign| - |prefix| - if precision > |digits| then precision else |digits|;
      var number := Rep('0', precision - |digits|) + digits;
      Printed(num, base, width, precision, flags)
        == if flags.left then sign + prefix + number + Rep(' ', pad)
           else if flags.zeroPad then sign + prefix + Rep('0', pad) + number
           else Rep(' ', pad) + sign + prefix + number
  {
    hide DigitChars, Digits, DigitsOf, NumberOf, Rep, Laid, Printed, PrefixPart, OneCase;
    sign, prefix := SignPart(num, flags), PrefixPart(base, flags);
    digits := Digits(Magnitude(num, flags), base, flags.small);
    DigitsCase(Magnitude(num, flags), base, flags.small);
    DigitsShape(Magnitude(num, flags), base, flags.small);
    PrefixIs(base, flags);
    PrintedParts(num, base, width, precision, flags);
  }

  lemma PrefixIs(base: nat, flags: Flags)
    ensures PrefixPart(base, flags) ==
      if !flags.special then "" else if base == 8 then "0"
      else if base == 16 then (if flags.small then "0x" else "0X") else ""
  {
    DigitText(flags.small, 0);
    hide DigitChars;
  }

  lemma PrintedParts(num: int, base: nat, width: int, precision: int, flags: Flags)
    requires 2 <= base <= 16 && Magnitude(num, flags) >= 0
    ensures var s, p := SignPart(num, flags), PrefixPart(base, flags);
      var d := Digits(Magnitude(num, flags), base, flags.small);
      var pad := width - |s| - |p| - if precision > |d| then precision else |d|;
      var n := Rep('0', precision - |d|) + d;
      Printed(num, base, width, precision, flags)
        == if flags.left then s + p + n + Rep(' ', pad) else if flags.zeroPad then s + p + Rep('0', pad) + n
           else Rep(' ', pad) + s + p + n
  {
    DigitLength(Digits(Magnitude(num, flags), base, flags.small), precision);
    hide DigitChars, Digits, Rep, PrefixPart, SignPart;
  }

  /** No flags other than space and `#`: right-justified, padded with spaces. */
  predicate Plain(flags: Flags) {
    !flags.zeroPad && !flags.plus && !flags.left
  }

  /** `%d` and back, for any width, with no flags but space and `#`. */
  lemma DecimalRoundTrip(n: int, width: int, flags: Flags)
    requires -(WORD / 2) < n < WORD / 2 && Plain(flags) && flags.sign
    ensures Parse(Printed(n, 10, width, -1, flags)) == Parsed(n, 0)
  {
    NumberReadBack(n, 10, width, -1, flags);
  }

  /** `%#x` and back, in either case. */
  lemma HexRoundTrip(n: int, width: int, flags: Flags)
    requires 0 <= n < WORD / 2 && Plain(flags) && !flags.sign && flags.special
    ensures Parse(Printed(n, 16, width, -1, flags)) == Parsed(n, 0)
  {
    NumberReadBack(n, 16, width, -1, flags);
  }

  /** `%#o` and back. */
  lemma OctalRoundTrip(n: int, width: int, flags: Flags)
    requires 0 <= n < WORD / 2 && Plain(flags) && !flags.sign && flags.special
    ensures Parse(Printed(n, 8, width, -1, flags)) == Parsed(n, 0)
  {
    NumberReadBack(n, 8, width, -1, flags);
  }

  const SIGNED := Flags(false, true, false, false, false, false, false)

  /** Zeros in front make a decimal number octal: `%05d` and `%.5d` of 8 are not read back. */
  lemma ZeroPadFails()
    ensures Parse(Printed(8, 10, 5, -1, SIGNED.(zeroPad := true))) != Parsed(8, 0)
    ensures Parse(Printed(8, 10, -1, 5, SIGNED)) != Parsed(8, 0)
  {
    OneDigit(8, 10, false);
    NumberReadBack(8, 10, 5, -1, SIGNED.(zeroPad := true));
    NumberReadBack(8, 10, -1, 5, SIGNED);
  }
}
