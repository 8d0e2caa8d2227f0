/** Formatted output of rt-thread/src/kservice.c, with 32-bit numbers.

    `prefixes` says whether the kernel is built with support for the `#` flag. */
module Printf {

  const WORD: nat := 0x1_0000_0000
  const NUL: char := '\0'

  datatype Flags = Flags(zeropad: bool, sign: bool, plus: bool, space: bool, left: bool, special: bool, large: bool)

  /** An argument: a 32-bit word, or a string that may be missing. */
  datatype Arg = Word(bits: nat) | Text(chars: string) | NoText

  // ----- digits -----

  function DigitChar(d: nat, large: bool): char
    requires d < 16
  {
    if d < 10 then '0' + d as char else if large then 'A' + (d - 10) as char else 'a' + (d - 10) as char
  }

  /** The digits of `n`, the most significant first. */
  ghost function Digits(n: nat, base: nat, large: bool): (r: string)
    requires 2 <= base <= 16
    ensures |r| > 0
  {
    if n < base then [DigitChar(n, large)] else Digits(n / base, base, large) + [DigitChar(n % base, large)]
  }

  predicate IsDigit(c: char) { '0' <= c <= '9' }

  function At(s: string, i: nat): char { if i < |s| then s[i] else NUL }

  /** `skip_atoi`: the number read, and where it ends. */
  function SkipAtoi(s: string, i: nat, acc: nat): (r: (nat, nat))
    ensures r.1 >= i && (i <= |s| ==> r.1 <= |s|)
    decreases if i < |s| then |s| - i else 0
  {
    if i < |s| && IsDigit(s[i]) then SkipAtoi(s, i + 1, 10 * acc + (s[i] as nat - '0' as nat)) else (acc, i)
  }

  lemma {:induction false} DecimalDigits(n: nat, large: bool)
    ensures forall c :: c in Digits(n, 10, large) ==> IsDigit(c)
  {
    if n >= 10 { DecimalDigits(n / 10, large); }
  }

  lemma {:induction false} AtoiJoin(a: string, c: char, rest: string, i: nat, acc: nat)
    requires i <= |a| && IsDigit(c) && forall k :: i <= k < |a| ==> IsDigit(a[k])
    ensures SkipAtoi(a + [c] + rest, i, acc) ==
      SkipAtoi(a + [c] + rest, |a| + 1, 10 * SkipAtoi(a, i, acc).0 + (c as nat - '0' as nat))
    decreases |a| - i
  {
    var s := a + [c] + rest;
    if i < |a| {
      assert s[i] == a[i];
      AtoiJoin(a, c, rest, i + 1, 10 * acc + (a[i] as nat - '0' as nat));
    } else {
      assert s[i] == c;
    }
  }

  /** Decimal digits read back as the number they were printed for. */
  lemma {:induction false} ReadBack(n: nat, large: bool, rest: string)
    requires !IsDigit(At(rest, 0))
    ensures SkipAtoi(Digits(n, 10, large) + rest, 0, 0) == (n, |Digits(n, 10, large)|)
  {
    var s := Digits(n, 10, large);
    if n < 10 {
      assert s + rest == [] + [DigitChar(n, large)] + rest;
      AtoiJoin([], DigitChar(n, large), rest, 0, 0);
      assert At(s + rest, 1) == At(rest, 0);
    } else {
      var a, c := Digits(n / 10, 10, large), DigitChar(n % 10, large);
      DecimalDigits(n / 10, large);
      AtoiJoin(a, c, rest, 0, 0);
      ReadBack(n / 10, large, []);
      assert a + [] == a;
      assert At(s + rest, |s|) == At(rest, 0);
    }
  }

  // ----- the text of a number -----

  ghost function Fill(c: char, n: int): (r: string)
    ensures |r| == if n > 0 then n else 0
  {
    seq(if n > 0 then n else 0, _ => c)
  }

  /** The sign in front of a number, if any. */
  function SignOf(num: nat, f: Flags): string {
    if !f.sign then "" else if num >= WORD / 2 then "-" else if f.plus then "+" else if f.space then " " else ""
  }

  /** The number without its sign; words from half the range up are negative. */
  function Magnitude(num: nat, f: Flags): int {
    if f.sign && num >= WORD / 2 then WORD - num else num
  }

  /** Every base but ten is printed in base sixteen. */
  function DigitBase(base: nat): nat { if base == 10 then 10 else 16 }

  function PrefixOf(base: nat, f: Flags, prefixes: bool): string {
    if !prefixes || !f.special then ""
    else if base == 8 then "0" else if base == 16 then (if f.large then "0X" else "0x") else ""
  }

  function Larger(a: int, b: int): int { if a < b then b else a }

  /** Room left for padding, once digits and prefix are provided for. */
  ghost function Room(num: nat, base: nat, width: int, precision: int, f: Flags, prefixes: bool): int {
    width - |PrefixOf(base, f, prefixes)| - Larger(precision, |DigitsOf(num, base, f)|)
  }

  ghost function DigitsOf(num: nat, base: nat, f: Flags): string {
    if Magnitude(num, f) < 0 then "" else Digits(Magnitude(num, f), DigitBase(base), f.large)
  }

  /** Padding with zeros gives way to padding on the right. */
  function Normal(f: Flags): Flags {
    if f.left then f.(zeropad := false) else f
  }

  /** What `print_number` prints; a precision of 0 makes it print no digits at all. */
  ghost function NumberText(num: nat, base: nat, width: int, precision: int, flags: Flags, prefixes: bool): string {
    var f := Normal(flags);
    var room := Room(num, base, width, precision, f, prefixes);
    Flat(PiecesOf(f, SignOf(num, f), PrefixOf(base, f, prefixes), DigitsOf(num, base, f), precision, room))
  }

  /** The parts of a number's text, in their order. */
  datatype Pieces = Pieces(lead: string, sign: string, prefix: string, zeros: string, fill: string, digits: string,
                           trail: string)

  ghost function Flat(p: Pieces): string {
    p.lead + p.sign + p.prefix + p.zeros + p.fill + p.digits + p.trail
  }

  ghost function PiecesOf(f: Flags, sign: string, prefix: string, digits: string, precision: int, room: int): Pieces {
    Pieces(LeadText(f, room - |sign|), sign, prefix, ZeroText(f, room - |sign|), Fill('0', precision - |digits|),
           if precision == 0 then "" else digits, TrailText(f, room - |sign|))
  }

  ghost function ZeroText(f: Flags, room: int): string {
    if f.zeropad then Fill('0', room) else ""
  }

  ghost function TrailText(f: Flags, room: int): string {
    if f.left then Fill(' ', room) else ""
  }

  ghost function LeadText(f: Flags, room: int): string {
    if f.zeropad || f.left then "" else Fill(' ', room)
  }

  /** The width a number's text has to have: the one asked for, or what sign, prefix, digits and precision need. */
  ghost function NeededWidth(num: nat, base: nat, width: int, precision: int, f: Flags, prefixes: bool): int {
    Larger(width, |SignOf(num, f)| + |PrefixOf(base, f, prefixes)| + Larger(precision, |DigitsOf(num, base, f)|))
  }

  /** A number's text has the width it has to have exactly if the precision is not 0. */
  lemma NumberWidth(num: nat, base: nat, width: int, precision: int, f: Flags, prefixes: bool)
    requires num < WORD
    ensures |NumberText(num, base, width, precision, f, prefixes)| ==
              NeededWidth(num, base, width, precision, f, prefixes)
      <==> precision != 0
  {
  }

  /** A precision of 0 takes the digits out of the text and changes nothing else: whatever the number, the width and
      the flags, the padding still leaves room for them. */
  lemma ZeroPrecision(num: nat, base: nat, width: int, f: Flags, prefixes: bool) returns (front: string, back: string)
    requires num < WORD
    ensures NumberText(num, base, width, -1, f, prefixes) == front + DigitsOf(num, base, f) + back
    ensures NumberText(num, base, width, 0, f, prefixes) == front + back
    ensures |DigitsOf(num, base, f)| > 0
  {
    var g, digits := Normal(f), DigitsOf(num, base, f);
    var room := Room(num, base, width, 0, g, prefixes);
    var p := PiecesOf(g, SignOf(num, g), PrefixOf(base, g, prefixes), digits, 0, room);
    front, back := p.lead + p.sign + p.prefix + p.zeros + p.fill, p.trail;
    assert front + "" + back == front + back;
    assert NumberText(num, base, width, -1, f, prefixes) == Flat(p.(digits := digits));
  }

  /** A signed decimal number without flags, width and precision reads back. */
  lemma SignedReadBack(num: nat, rest: string, prefixes: bool)
    requires num < WORD && !IsDigit(At(rest, 0))
    ensures var f := Flags(false, true, false, false, false, false, false);
      var t := NumberText(num, 10, -1, -1, f, prefixes);
      var d := Digits(Magnitude(num, f), 10, false);
      && t == (if num >= WORD / 2 then "-" else "") + d
      && SkipAtoi(d + rest, 0, 0) == (Magnitude(num, f) as nat, |d|)
  {
    var f := Flags(false, true, false, false, false, false, false);
    ReadBack(Magnitude(num, f), false, rest);
  }

  /** What digits are worth. */
  function Worth(s: string, base: nat): nat {
    if s == "" then 0 else Worth(s[..|s| - 1], base) * base + DigitValue(s[|s| - 1])
  }

  function DigitValue(c: char): nat {
    if IsDigit(c) then c as nat - '0' as nat
    else if 'a' <= c <= 'f' then c as nat - 'a' as nat + 10
    else if 'A' <= c <= 'F' then c as nat - 'A' as nat + 10
    else 0
  }

  lemma WorthSnoc(s: string, d: nat, base: nat, large: bool)
    requires d < 16
    ensures Worth(s + [DigitChar(d, large)], base) == Worth(s, base) * base + d
  {
    assert (s + [DigitChar(d, large)])[..|s|] == s;
  }

  /** The digits of a number are worth the number, in the base they are written in. */
  lemma {:induction false} DigitsWorth(n: nat, base: nat, large: bool)
    requires 2 <= base <= 16
    ensures Worth(Digits(n, base, large), base) == n
  {
    if n < base {
      WorthSnoc("", n, base, large);
      assert "" + [DigitChar(n, large)] == [DigitChar(n, large)];
    } else {
      var q, d := n / base, n % base;
      Divided(n, base, q, d);
      DigitsWorth(q, base, large);
      WorthSnoc(Digits(q, base, large), d, base, large);
    }
  }

  lemma Divided(n: nat, base: nat, q: nat, d: nat)
    requires 2 <= base <= n && q == n / base && d == n % base
    ensures 0 < q < n && d < base && n == q * base + d
  {
  }

  /** A digit as the conversion writes it: in lower or in upper case. */
  predicate Written(c: char, large: bool) {
    IsDigit(c) || if large then 'A' <= c <= 'F' else 'a' <= c <= 'f'
  }

  /** Digits do not begin with a zero, unless there is only one, and are written in one case. */
  lemma {:induction false} DigitsProper(n: nat, base: nat, large: bool)
    requires 2 <= base <= 16
    ensures n > 0 ==> Digits(n, base, large)[0] != '0'
    ensures n == 0 ==> Digits(n, base, large) == "0"
    ensures forall c :: c in Digits(n, base, large) ==> Written(c, large)
  {
    if n >= base {
      Divided(n, base, n / base, n % base);
      DigitsProper(n / base, base, large);
    }
  }

  lemma {:induction false} OctalDigits(n: nat)
    ensures Worth(Digits(n, 8, false), 16) >= n && (n >= 8 ==> Worth(Digits(n, 8, false), 16) > n)
  {
    if n < 8 {
      WorthSnoc("", n, 16, false);
      assert "" + [DigitChar(n, false)] == [DigitChar(n, false)];
    } else {
      OctalDigits(n / 8);
      WorthSnoc(Digits(n / 8, 8, false), n % 8, 16, false);
    }
  }

  /** The octal conversion prints hexadecimal digits: it is right exactly for numbers of one octal digit. */
  lemma OctalRight(num: nat, f: Flags)
    requires num < WORD && !f.sign && !f.large
    ensures DigitsOf(num, 8, f) == Digits(num, 8, false) <==> num < 8
  {
    DigitsWorth(num, 16, false);
    OctalDigits(num);
  }

  // ----- printing into a buffer -----

  lemma FillMore(c: char, n: int)
    ensures n > 0 ==> Fill(c, n) == [c] + Fill(c, n - 1)
  {
  }

  /** `str` and `end` of the program: characters past the end are counted but not stored. */
  class Sink {
    const buf: array<char>
    const size: nat
    var pos: nat
    ghost var out: string

    /** The buffer holds as much of the output as fits. */
    ghost predicate Valid()
      reads this, buf
    {
      && size <= buf.Length && pos == |out|
      && forall i :: 0 <= i < pos && i < size ==> buf[i] == out[i]
    }

    constructor (buf: array<char>, size: nat)
      requires size <= buf.Length
      ensures Valid() && this.buf == buf && this.size == size && out == "" && pos == 0
    {
      this.buf := buf;
      this.size := size;
      pos, out := 0, "";
    }

    /** `if (str < end) *str = c; ++ str;` */
    method Put(c: char)
      requires Valid()
      modifies this`pos, this`out, buf
      ensures Valid() && out == old(out) + [c]
      ensures forall i :: size <= i < buf.Length ==> buf[i] == old(buf[i])
    {
      if pos < size {
        buf[pos] := c;
      }
      pos := pos + 1;
      out := out + [c];
    }

    /** `while (n-- > 0)` put `c`; the result is what is left in `n`. */
    method Pad(c: char, n: int) returns (left: int)
      requires Valid()
      modifies this`pos, this`out, buf
      ensures Valid() && out == old(out) + Fill(c, n) && left == if n > 0 then -1 else n - 1
      ensures forall i :: size <= i < buf.Length ==> buf[i] == old(buf[i])
    {
      left := n;
      while left > 0
        invariant Valid() && left <= n && (n <= 0 ==> left == n) && (n > 0 ==> left >= 0)
        invariant out + Fill(c, left) == old(out) + Fill(c, n)
        invariant forall i :: size <= i < buf.Length ==> buf[i] == old(buf[i])
      {
        FillMore(c, left);
        ghost var before := out;
        Put(c);
        left := left - 1;
        assert before + ([c] + Fill(c, left)) == out + Fill(c, left);
      }
      left := left - 1;
    }

    method PutAll(s: string)
      requires Valid()
      modifies this`pos, this`out, buf
      ensures Valid() && out == old(out) + s
      ensures forall i :: size <= i < buf.Length ==> buf[i] == old(buf[i])
    {
      for i := 0 to |s|
        invariant Valid() && out == old(out) + s[..i]
        invariant forall i :: size <= i < buf.Length ==> buf[i] == old(buf[i])
      {
        Put(s[i]);
        assert s[..i + 1] == s[..i] + [s[i]];
      }
      assert s[..|s|] == s;
    }

    /** The digits, collected in reverse, as `print_number` does. */
    method Collect(n: nat, base: nat, large: bool) returns (tmp: string)
      ensures Reversed(tmp) == Digits(n, DigitBase(base), large) && |tmp| == |Digits(n, DigitBase(base), large)|
    {
      var num := n;
      if num == 0 {
        tmp := ['0'];
      } else {
        tmp := [];
        while num != 0
          invariant (if num == 0 then "" else Digits(num, DigitBase(base), large)) + Reversed(tmp) ==
                      Digits(n, DigitBase(base), large)
        {
          var res := if base == 10 then num % 10 else num % 16;
          var c := DigitChar(res, large);
          MoreDigits(num, DigitBase(base), large, Reversed(tmp));
          ReversedMore(tmp, c);
          tmp := tmp + [c];
          num := if base == 10 then num / 10 else num / 16;
        }
      }
      ReversedLength(tmp);
    }

    /** The last characters collected come out first. */
    method PutReversed(tmp: string)
      requires Valid()
      modifies this`pos, this`out, buf
      ensures Valid() && out == old(out) + Reversed(tmp)
      ensures forall i :: size <= i < buf.Length ==> buf[i] == old(buf[i])
    {
      var i := |tmp|;
      assert tmp[..i] == tmp;
      while i > 0
        invariant Valid() && i <= |tmp| && out + Reversed(tmp[..i]) == old(out) + Reversed(tmp)
        invariant forall k :: size <= k < buf.Length ==> buf[k] == old(buf[k])
      {
        i := i - 1;
        ghost var before := out;
        assert tmp[..i + 1] == tmp[..i] + [tmp[i]];
        ReversedMore(tmp[..i], tmp[i]);
        Put(tmp[i]);
        assert before + ([tmp[i]] + Reversed(tmp[..i])) == out + Reversed(tmp[..i]);
      }
    }

    /** Padding in front of the number, unless it goes elsewhere, and the sign. */
    method PutLead(f: Flags, sign: string, room: int) returns (left: int)
      requires Valid() && |sign| <= 1
      modifies this`pos, this`out, buf
      ensures Valid() && out == old(out) + LeadText(f, room - |sign|) + sign
      ensures if f.zeropad || f.left then left == room - |sign| else left < 0
      ensures forall i :: size <= i < buf.Length ==> buf[i] == old(buf[i])
    {
      left := room;
      if !(f.zeropad || f.left) {
        if sign != "" && left > 0 {
          left := left - 1;
        }
        assert Fill(' ', left) == LeadText(f, room - |sign|);
        left := Pad(' ', left);
      }
      assert out == old(out) + LeadText(f, room - |sign|);
      if sign != "" {
        Put(sign[0]);
        assert sign == [sign[0]];
        left := left - 1;
      }
    }

    /** Padding between the sign and the number. */
    method PutZeros(f: Flags, c: char, room: int) returns (left: int)
      requires Valid() && c == (if f.zeropad then '0' else ' ') && !(f.left && f.zeropad)
      requires (!f.left && !f.zeropad ==> room < 0)
      modifies this`pos, this`out, buf
      ensures Valid() && out == old(out) + ZeroText(f, room)
      ensures Fill(' ', left) == TrailText(f, room)
      ensures forall i :: size <= i < buf.Length ==> buf[i] == old(buf[i])
    {
      left := room;
      if !f.left {
        left := Pad(c, left);
      }
    }

    /** Zeros, the digits, and padding behind the number. */
    method PutDigits(f: Flags, tmp: string, n: int, precision: int, room: int)
      requires Valid() && n == (if |tmp| > precision then |tmp| else precision)
      modifies this`pos, this`out, buf
      ensures Valid()
      ensures out ==
                old(out) + Fill('0', precision - |tmp|) + (if precision == 0 then "" else Reversed(tmp)) +
                Fill(' ', room)
      ensures forall i :: size <= i < buf.Length ==> buf[i] == old(buf[i])
    {
      var ignored := Pad('0', n - |tmp|);
      assert Fill('0', n - |tmp|) == Fill('0', precision - |tmp|);
      if precision != 0 {
        PutReversed(tmp);
      }
      ignored := Pad(' ', room);
    }

    /** The second half of `print_number`: all pieces, one after another; `room` is what is left for padding. */
    method PutPieces(f: Flags, sign: string, prefix: string, tmp: string, precision: int, room: int)
      requires Valid() && |sign| <= 1 && f == Normal(f)
      modifies this`pos, this`out, buf
      ensures Valid()
      ensures out == old(out) + Flat(PiecesOf(f, sign, prefix, Reversed(tmp), precision, room))
      ensures forall i :: size <= i < buf.Length ==> buf[i] == old(buf[i])
    {
      ReversedLength(tmp);
      Assembled(out, PiecesOf(f, sign, prefix, Reversed(tmp), precision, room));
      var n := if |tmp| > precision then |tmp| else precision;
      var left := PutLead(f, sign, room);
      PutAll(prefix);
      left := PutZeros(f, if f.zeropad then '0' else ' ', left);
      PutDigits(f, tmp, n, precision, left);
    }

    /** `print_number`. */
    method PrintNumber(num: nat, base: nat, s: int, precision: int, type0: Flags, prefixes: bool)
      requires Valid() && num < WORD
      modifies this`pos, this`out, buf
      ensures Valid() && out == old(out) + NumberText(num, base, s, precision, type0, prefixes)
      ensures forall i :: size <= i < buf.Length ==> buf[i] == old(buf[i])
    {
      var f := Normal(type0);
      var sign := SignOf(num, f);
      var room := s;
      if prefixes && f.special {
        if base == 16 {
          room := room - 2;
        } else if base == 8 {
          room := room - 1;
        }
      }
      var tmp := Collect(Magnitude(num, f), base, f.large);
      room := room - if |tmp| > precision then |tmp| else precision;
      assert room == Room(num, base, s, precision, f, prefixes);
      PutPieces(f, sign, PrefixOf(base, f, prefixes), tmp, precision, room);
    }

    /** The conversions that print characters. */
    method PutChars(text: string, width: int, left: bool)
      requires Valid()
      modifies this`pos, this`out, buf
      ensures Valid() && out == old(out) + if left then text + Fill(' ', width - |text|)
                                           else Fill(' ', width - |text|) + text
      ensures forall i :: size <= i < buf.Length ==> buf[i] == old(buf[i])
    {
      var room := width - |text|;
      if !left {
        room := Pad(' ', room);
      }
      PutAll(text);
      room := Pad(' ', room);
      assert old(out) + Fill(' ', width - |text|) + text == old(out) + (Fill(' ', width - |text|) + text);
      assert old(out) + text + Fill(' ', width - |text|) == old(out) + (text + Fill(' ', width - |text|));
    }

    /** The switch of `rt_vsnprintf`. */
    method Convert(sp: Spec, c: char, args: seq<Arg>, prefixes: bool)
      requires Valid()
      modifies this`pos, this`out, buf
      ensures Valid() && out == old(out) + Converted(sp, c, args, prefixes)
      ensures forall i :: size <= i < buf.Length ==> buf[i] == old(buf[i])
    {
      if c == 'c' {
        PutChars([(WordAt(args, sp.arg) % 256) as char], sp.width, sp.flags.left);
      } else if c == 's' {
        var text := TextAt(args, sp.arg);
        PutChars(text[..ShownLength(text, sp.precision)], sp.width, sp.flags.left);
      } else if c == 'p' {
        if sp.width == -1 {
          PrintNumber(WordAt(args, sp.arg), 16, 8, sp.precision, sp.flags.(zeropad := true), prefixes);
        } else {
          PrintNumber(WordAt(args, sp.arg), 16, sp.width, sp.precision, sp.flags, prefixes);
        }
      } else if Numeric(c) {
        var f := FlagsOf(sp.flags, c);
        PrintNumber(NumberOf(WordAt(args, sp.arg), sp.qualifier, f.sign), BaseOf(c), sp.width, sp.precision, f,
                    prefixes);
      } else {
        Put('%');
        if c != '%' && c != NUL {
          Put(c);
          assert old(out) + ['%'] + [c] == old(out) + ['%', c];
        }
      }
    }
  }

  // ----- format strings -----

  /** A conversion: its parts, where its letter is, and the next argument. */
  datatype Spec = Spec(flags: Flags, width: int, precision: int, qualifier: char, at: nat, arg: nat)

  const NO_FLAGS := Flags(false, false, false, false, false, false, false)

  /** An argument taken as a word; what is missing or of another kind reads as 0. */
  function WordAt(args: seq<Arg>, k: nat): nat {
    if k < |args| && args[k].Word? && args[k].bits < WORD then args[k].bits else 0
  }

  /** The same word as a signed number. */
  function IntAt(args: seq<Arg>, k: nat): (r: int)
    ensures -0x8000_0000 <= r < 0x8000_0000 && (r - WordAt(args, k)) % WORD == 0
  {
    if WordAt(args, k) >= WORD / 2 then WordAt(args, k) - WORD else WordAt(args, k)
  }

  function TextAt(args: seq<Arg>, k: nat): string {
    if k < |args| && args[k].Text? then args[k].chars else "(NULL)"
  }

  predicate IsFlag(c: char) { c == '-' || c == '+' || c == ' ' || c == '#' || c == '0' }

  function WithFlag(f: Flags, c: char): Flags {
    if c == '-' then f.(left := true) else if c == '+' then f.(plus := true) else if c == ' ' then f.(space := true)
    else if c == '#' then f.(special := true) else f.(zeropad := true)
  }

  /** The flags from place `i` on, and where they end. */
  ghost function FlagsFrom(fmt: string, i: nat, f: Flags): (r: (Flags, nat))
    requires i <= |fmt|
    ensures i <= r.1 <= |fmt|
    decreases |fmt| - i
  {
    if i < |fmt| && IsFlag(fmt[i]) then FlagsFrom(fmt, i + 1, WithFlag(f, fmt[i])) else (f, i)
  }

  /** A number in the format or, for a star, among the arguments: its value, where it ends, and the next argument. */
  function NumberFrom(fmt: string, i: nat, args: seq<Arg>, k: nat, none: int): (r: (int, nat, nat))
    requires i <= |fmt|
    ensures i <= r.1 <= |fmt|
  {
    if i < |fmt| && IsDigit(fmt[i]) then (SkipAtoi(fmt, i, 0).0, SkipAtoi(fmt, i, 0).1, k)
    else if i < |fmt| && fmt[i] == '*' then (IntAt(args, k), i + 1, k + 1)
    else (none, i, k)
  }

  /** The conversion whose percent sign is at place `i`. */
  ghost function SpecAt(fmt: string, i: nat, args: seq<Arg>, k: nat): (r: Spec)
    requires i < |fmt|
    ensures i < r.at <= |fmt|
  {
    var flags := FlagsFrom(fmt, i + 1, NO_FLAGS);
    var width := NumberFrom(fmt, flags.1, args, k, -1);
    var star := flags.1 < |fmt| && fmt[flags.1] == '*' && width.0 < 0;
    var dot := At(fmt, width.1) == '.' && width.1 < |fmt|;
    var precision := if dot then NumberFrom(fmt, width.1 + 1, args, width.2, 0) else (-1, width.1, width.2);
    var qualified := At(fmt, precision.1) == 'h' || At(fmt, precision.1) == 'l';
    Spec(if star then flags.0.(left := true) else flags.0,
         if star then -width.0 else width.0,
         if dot && precision.0 < 0 then 0 else precision.0,
         if qualified then At(fmt, precision.1) else NUL,
         if qualified && precision.1 < |fmt| then precision.1 + 1 else precision.1,
         precision.2)
  }

  /** The word a numeric conversion prints: the low half only, with its sign, for the `h` qualifier. */
  function NumberOf(word: nat, qualifier: char, signed: bool): nat {
    if qualifier != 'h' then word
    else if signed && word % 0x1_0000 >= 0x8000 then word % 0x1_0000 + 0xffff_0000
    else word % 0x1_0000
  }

  predicate Numeric(c: char) { c == 'o' || c == 'X' || c == 'x' || c == 'd' || c == 'i' || c == 'u' }

  function BaseOf(c: char): nat { if c == 'o' then 8 else if c == 'X' || c == 'x' then 16 else 10 }

  function FlagsOf(f: Flags, c: char): Flags {
    if c == 'X' then f.(large := true) else if c == 'd' || c == 'i' then f.(sign := true) else f
  }

  function TakesArgument(c: char): bool { c == 'c' || c == 's' || c == 'p' || Numeric(c) }

  function ShownLength(s: string, precision: int): nat {
    if precision > 0 && |s| > precision then precision else |s|
  }

  /** What a conversion prints. */
  ghost function Converted(sp: Spec, c: char, args: seq<Arg>, prefixes: bool): string {
    if c == 'c' then
      var pad, shown := Fill(' ', sp.width - 1), [(WordAt(args, sp.arg) % 256) as char];
      if sp.flags.left then shown + pad else pad + shown
    else if c == 's' then
      var text := TextAt(args, sp.arg);
      var len := ShownLength(text, sp.precision);
      var pad := Fill(' ', sp.width - len);
      if sp.flags.left then text[..len] + pad else pad + text[..len]
    else if c == 'p' then
      NumberText(WordAt(args, sp.arg), 16, if sp.width == -1 then 8 else sp.width, sp.precision,
                 if sp.width == -1 then sp.flags.(zeropad := true) else sp.flags, prefixes)
    else if Numeric(c) then
      var f := FlagsOf(sp.flags, c);
      NumberText(NumberOf(WordAt(args, sp.arg), sp.qualifier, f.sign), BaseOf(c), sp.width, sp.precision, f, prefixes)
    else if c == '%' then "%"
    else if c == NUL then "%"
    else ['%', c]
  }

  function NextArg(sp: Spec, c: char): nat { if TakesArgument(c) then sp.arg + 1 else sp.arg }

  /** The whole output from place `i` of the format and argument `k` on, as if there were room for all of it. */
  ghost function Output(fmt: string, i: nat, args: seq<Arg>, k: nat, prefixes: bool): string
    decreases if i < |fmt| then |fmt| - i else 0
  {
    if i >= |fmt| then ""
    else if fmt[i] != '%' then [fmt[i]] + Output(fmt, i + 1, args, k, prefixes)
    else
      var sp := SpecAt(fmt, i, args, k);
      var c := At(fmt, sp.at);
      Converted(sp, c, args, prefixes) + Output(fmt, sp.at + 1, args, NextArg(sp, c), prefixes)
  }

  /** The pieces of a number's text, put together one after another. */
  lemma Assembled(before: string, p: Pieces)
    ensures before + p.lead + p.sign + p.prefix + p.zeros + p.fill + p.digits + p.trail == before + Flat(p)
  {
  }

  lemma MoreDigits(num: nat, base: nat, large: bool, rest: string)
    requires 2 <= base <= 16 && num > 0
    ensures Digits(num, base, large) + rest ==
      (if num / base == 0 then "" else Digits(num / base, base, large)) + ([DigitChar(num % base, large)] + rest)
  {
    SmallQuotient(num, base);
    if num >= base {
      var front, last := Digits(num / base, base, large), [DigitChar(num % base, large)];
      assert Digits(num, base, large) == front + last;
      assert (front + last) + rest == front + (last + rest);
    }
  }

  lemma SmallQuotient(num: nat, base: nat)
    requires base > 0
    ensures num < base <==> num / base == 0
    ensures num < base ==> num % base == num
  {
  }

  ghost function Reversed(s: string): string {
    if s == "" then "" else [s[|s| - 1]] + Reversed(s[..|s| - 1])
  }

  lemma ReversedMore(s: string, c: char)
    ensures Reversed(s + [c]) == [c] + Reversed(s)
  {
    assert (s + [c])[..|s|] == s;
  }

  lemma {:induction false} ReversedLength(s: string)
    ensures |Reversed(s)| == |s|
  {
    if s != "" { ReversedLength(s[..|s| - 1]); }
  }

  /** `skip_atoi`. */
  method ReadNumber(s: string, i: nat) returns (n: nat, end: nat)
    requires i <= |s|
    ensures (n, end) == SkipAtoi(s, i, 0)
  {
    n, end := 0, i;
    while end < |s| && IsDigit(s[end])
      invariant i <= end <= |s| && SkipAtoi(s, i, 0) == SkipAtoi(s, end, n)
    {
      n := n * 10 + s[end] as nat - '0' as nat;
      end := end + 1;
    }
  }

  /** The loop over the flags. */
  method ReadFlags(fmt: string, i: nat) returns (f: Flags, end: nat)
    requires i <= |fmt|
    ensures (f, end) == FlagsFrom(fmt, i, NO_FLAGS)
  {
    f, end := NO_FLAGS, i;
    while end < |fmt| && IsFlag(fmt[end])
      invariant i <= end <= |fmt| && FlagsFrom(fmt, i, NO_FLAGS) == FlagsFrom(fmt, end, f)
    {
      f := WithFlag(f, fmt[end]);
      end := end + 1;
    }
  }

  /** A width or precision. */
  method ReadCount(fmt: string, i: nat, args: seq<Arg>, k: nat, none: int) returns (n: int, end: nat, next: nat)
    requires i <= |fmt|
    ensures (n, end, next) == NumberFrom(fmt, i, args, k, none)
  {
    n, end, next := none, i, k;
    if i < |fmt| && IsDigit(fmt[i]) {
      n, end := ReadNumber(fmt, i);
    } else if i < |fmt| && fmt[i] == '*' {
      n, end, next := IntAt(args, k), i + 1, k + 1;
    }
  }

  /** Everything between a percent sign and the letter of its conversion. */
  method ReadSpec(fmt: string, i: nat, args: seq<Arg>, k: nat) returns (sp: Spec)
    requires i < |fmt|
    ensures sp == SpecAt(fmt, i, args, k)
  {
    var flags, at := ReadFlags(fmt, i + 1);
    var width, afterWidth, next := ReadCount(fmt, at, args, k, -1);
    if at < |fmt| && fmt[at] == '*' && width < 0 {
      width := -width;
      flags := flags.(left := true);
    }
    var precision, end := -1, afterWidth;
    if end < |fmt| && fmt[end] == '.' {
      precision, end, next := ReadCount(fmt, end + 1, args, next, 0);
      if precision < 0 {
        precision := 0;
      }
    }
    var qualifier := NUL;
    if end < |fmt| && (fmt[end] == 'h' || fmt[end] == 'l') {
      qualifier := fmt[end];
      end := end + 1;
    }
    sp := Spec(flags, width, precision, qualifier, end, next);
  }

  /** The buffer holds the first characters of `text`, as many as fit, and a NUL behind them. */
  ghost predicate Holds(buf: seq<char>, size: nat, text: string) {
    size > 0 ==>
      var n := if |text| < size then |text| else size - 1;
      n < |buf| && buf[..n] == text[..n] && buf[n] == NUL
  }

  lemma OutputConverts(fmt: string, i: nat, args: seq<Arg>, k: nat, prefixes: bool)
    requires i < |fmt| && fmt[i] == '%'
    ensures var sp := SpecAt(fmt, i, args, k); var c := At(fmt, sp.at);
      Output(fmt, i, args, k, prefixes) ==
        Converted(sp, c, args, prefixes) + Output(fmt, sp.at + 1, args, NextArg(sp, c), prefixes)
  {
  }

  /** Text without percent signs comes out as it is. */
  lemma {:induction false} PlainText(fmt: string, i: nat, args: seq<Arg>, k: nat, prefixes: bool)
    requires i <= |fmt| && forall j :: i <= j < |fmt| ==> fmt[j] != '%'
    ensures Output(fmt, i, args, k, prefixes) == fmt[i..]
    decreases |fmt| - i
  {
    if i < |fmt| {
      PlainText(fmt, i + 1, args, k, prefixes);
      assert fmt[i..] == [fmt[i]] + fmt[i + 1..];
    }
  }

  /** A plain signed conversion prints the number alone, which reads back by `SignedReadBack`. */
  lemma DecimalOutput(num: nat, prefixes: bool)
    requires num < WORD
    ensures Output("%d", 0, [Word(num)], 0, prefixes) == NumberText(num, 10, -1, -1, NO_FLAGS.(sign := true), prefixes)
  {
    var fmt, args := "%d", [Word(num)];
    assert FlagsFrom(fmt, 1, NO_FLAGS) == (NO_FLAGS, 1);
    assert SpecAt(fmt, 0, args, 0) == Spec(NO_FLAGS, -1, -1, NUL, 1, 0);
    assert Output(fmt, 2, args, 1, prefixes) == "";
    OutputConverts(fmt, 0, args, 0, prefixes);
  }

  /** One conversion. */
  method PutConversion(str: Sink, fmt: string, i: nat, args: seq<Arg>, k: nat, prefixes: bool)
    returns (next: nat, arg: nat)
    requires str.Valid() && i < |fmt| && fmt[i] == '%'
    modifies str`pos, str`out, str.buf
    ensures str.Valid() && i < next
    ensures str.out + Output(fmt, next, args, arg, prefixes) == old(str.out) + Output(fmt, i, args, k, prefixes)
    ensures forall j :: str.size <= j < str.buf.Length ==> str.buf[j] == old(str.buf[j])
  {
    var sp := ReadSpec(fmt, i, args, k);
    var c := At(fmt, sp.at);
    OutputConverts(fmt, i, args, k, prefixes);
    next, arg := sp.at + 1, NextArg(sp, c);
    Regroup(str.out, Converted(sp, c, args, prefixes), Output(fmt, next, args, arg, prefixes));
    str.Convert(sp, c, args, prefixes);
  }

  /** One character of the format, or one conversion. */
  method PutNext(str: Sink, fmt: string, i: nat, args: seq<Arg>, k: nat, prefixes: bool) returns (next: nat, arg: nat)
    requires str.Valid() && i < |fmt|
    modifies str`pos, str`out, str.buf
    ensures str.Valid() && i < next
    ensures str.out + Output(fmt, next, args, arg, prefixes) == old(str.out) + Output(fmt, i, args, k, prefixes)
    ensures forall j :: str.size <= j < str.buf.Length ==> str.buf[j] == old(str.buf[j])
  {
    if fmt[i] != '%' {
      str.Put(fmt[i]);
      next, arg := i + 1, k;
      Regroup(old(str.out), [fmt[i]], Output(fmt, next, args, arg, prefixes));
    } else {
      next, arg := PutConversion(str, fmt, i, args, k, prefixes);
    }
  }

  lemma Regroup(a: string, b: string, c: string)
    ensures a + b + c == a + (b + c)
  {
  }

  /** The terminating NUL, which may overwrite the last character that was stored. */
  method Terminate(str: Sink)
    requires str.Valid()
    modifies str.buf
    ensures Holds(str.buf[..], str.size, str.out)
    ensures forall j :: str.size <= j < str.buf.Length ==> str.buf[j] == old(str.buf[j])
  {
    if str.size > 0 {
      if str.pos < str.size {
        str.buf[str.pos] := NUL;
      } else {
        str.buf[str.size - 1] := NUL;
      }
    }
  }

  /** `rt_vsnprintf`: the result is the length of the whole output, of which the buffer gets what fits. */
  method Vsnprintf(buf: array<char>, size: nat, fmt: string, args: seq<Arg>, prefixes: bool) returns (n: nat)
    requires size <= buf.Length
    modifies buf
    ensures n == |Output(fmt, 0, args, 0, prefixes)| && Holds(buf[..], size, Output(fmt, 0, args, 0, prefixes))
    ensures buf[size..] == old(buf[size..])
  {
    var str := new Sink(buf, size);
    var i, k := 0, 0;
    while i < |fmt|
      invariant str.Valid() && str.buf == buf && str.size == size && fresh(str)
      invariant str.out + Output(fmt, i, args, k, prefixes) == Output(fmt, 0, args, 0, prefixes)
      invariant forall j :: size <= j < buf.Length ==> buf[j] == old(buf[j])
      decreases |fmt| - i
    {
      i, k := PutNext(str, fmt, i, args, k, prefixes);
    }
    n := str.pos;
    Terminate(str);
  }
}
