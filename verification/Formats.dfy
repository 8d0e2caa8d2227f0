/** What the conversions of rt-thread/src/kservice.c print, in terms of how they are written in a format string. */
module Formats {
  import opened Printf

  /** A width or a precision as it may be written. */
  datatype Count = Absent | Given(n: nat) | Star

  ghost function CountText(c: Count): string {
    match c
    case Absent => ""
    case Given(n) => Digits(n, 10, false)
    case Star => "*"
  }

  function Stars(c: Count): nat { if c.Star? then 1 else 0 }

  /** The characters that may stand as flags. */
  predicate Mark(c: char) { c == '0' || c == '+' || c == ' ' || c == '-' || c == '#' }

  /** A letter that is no part of flags, width, precision or qualifier. */
  predicate Plain(c: char) {
    !Mark(c) && !('0' <= c <= '9') && c != '*' && c != '.' && c != 'h' && c != 'l' && c != NUL
  }

  /** A conversion as it is written. */
  datatype Conversion = Conversion(flags: string, width: Count, dot: bool, precision: Count, qualifier: string,
                                   letter: char)
  {
    ghost function PrecisionText(): string {
      if dot then "." + CountText(precision) else ""
    }

    ghost function Text(): string {
      "%" + flags + CountText(width) + PrecisionText() + qualifier + [letter]
    }

    /** The parts can be told apart: a width of 0 would be taken for a flag. */
    predicate Clear() {
      && (forall c :: c in flags ==> Mark(c)) && (width.Given? ==> width.n > 0)
      && (qualifier == "" || qualifier == "h" || qualifier == "l") && Plain(letter)
    }

    function Width(args: seq<Arg>, k: nat): int {
      match width
      case Absent => -1
      case Given(n) => n
      case Star => if IntAt(args, k) < 0 then -IntAt(args, k) else IntAt(args, k)
    }

    /** A star that stands for a negative width pads on the right. */
    predicate Left(args: seq<Arg>, k: nat) {
      '-' in flags || (width.Star? && IntAt(args, k) < 0)
    }

    function Precision(args: seq<Arg>, k: nat): int {
      if !dot then -1
      else match precision
           case Absent => 0
           case Given(n) => n
           case Star => if IntAt(args, k + Stars(width)) < 0 then 0 else IntAt(args, k + Stars(width))
    }

    function Flagged(): Flags {
      Flags('0' in flags, false, '+' in flags, ' ' in flags, '-' in flags, '#' in flags, false)
    }

    /** What is to be read, if the letter is at place `at`. */
    function AsSpec(args: seq<Arg>, k: nat, at: nat): Spec {
      Spec(Flagged().(left := Left(args, k)), Width(args, k), Precision(args, k),
           if qualifier == "" then NUL else qualifier[0], at, Last(k))
    }

    /** The argument to be converted. */
    function Last(k: nat): nat {
      k + Stars(width) + if dot then Stars(precision) else 0
    }
  }

  ghost predicate StandsAt(s: string, i: nat, t: string) {
    i + |t| <= |s| && s[i..i + |t|] == t
  }

  /** The conversion is written at place `i` of the format. */
  ghost predicate Standing(s: string, i: nat, cv: Conversion) {
    cv.Clear() && StandsAt(s, i, cv.Text())
  }

  lemma Parts(s: string, i: nat, a: string, b: string)
    requires StandsAt(s, i, a + b)
    ensures StandsAt(s, i, a) && StandsAt(s, i + |a|, b)
  {
    assert s[i..i + |a|] == (a + b)[..|a|] == a;
    assert s[i + |a|..i + |a| + |b|] == (a + b)[|a|..] == b;
  }

  // ----- reading what is written -----

  /** The flags read are those that are written. */
  lemma {:induction false} FlagsRead(s: string, i: nat, flags: string, f: Flags)
    requires StandsAt(s, i, flags) && forall c :: c in flags ==> Mark(c)
    requires !IsFlag(At(s, i + |flags|))
    ensures FlagsFrom(s, i, f) ==
      (Flags(f.zeropad || '0' in flags, f.sign, f.plus || '+' in flags, f.space || ' ' in flags, f.left || '-' in flags,
             f.special || '#' in flags, f.large), i + |flags|)
    decreases |flags|
  {
    if flags != "" {
      var c, rest := flags[0], flags[1..];
      assert s[i] == s[i..i + |flags|][0] == c && c in flags;
      assert flags == [c] + rest;
      Parts(s, i, [c], rest);
      WithFlagIs(f, c);
      FlagsRead(s, i + 1, rest, WithFlag(f, c));
      InFront(c, rest, '0');
      InFront(c, rest, '+');
      InFront(c, rest, ' ');
      InFront(c, rest, '-');
      InFront(c, rest, '#');
    }
  }

  lemma WithFlagIs(f: Flags, c: char)
    requires IsFlag(c)
    ensures WithFlag(f, c) ==
      Flags(f.zeropad || c == '0', f.sign, f.plus || c == '+', f.space || c == ' ', f.left || c == '-',
            f.special || c == '#', f.large)
  {
  }

  lemma InFront(c: char, rest: string, x: char)
    ensures x in [c] + rest <==> x == c || x in rest
  {
  }

  lemma {:induction false} SkipShift(s: string, i: nat, j: nat, acc: nat)
    requires i <= |s| && j <= |s| - i
    ensures SkipAtoi(s, i + j, acc) == (SkipAtoi(s[i..], j, acc).0, i + SkipAtoi(s[i..], j, acc).1)
    decreases |s| - i - j
  {
    if j < |s| - i {
      assert s[i..][j] == s[i + j];
      if IsDigit(s[i + j]) { SkipShift(s, i, j + 1, 10 * acc + (s[i + j] as nat - '0' as nat)); }
    }
  }

  lemma DigitsRead(s: string, i: nat, n: nat)
    requires StandsAt(s, i, Digits(n, 10, false)) && !IsDigit(At(s, i + |Digits(n, 10, false)|))
    ensures SkipAtoi(s, i, 0) == (n, i + |Digits(n, 10, false)|)
  {
    var d := Digits(n, 10, false);
    var rest := s[i + |d|..];
    assert At(rest, 0) == At(s, i + |d|);
    assert s[i..] == d + rest;
    ReadBack(n, false, rest);
    SkipShift(s, i, 0, 0);
  }

  /** The first character of a number is a digit, and no flag unless the number is 0. */
  lemma FirstDigit(n: nat)
    ensures IsDigit(Digits(n, 10, false)[0]) && (n > 0 ==> !IsFlag(Digits(n, 10, false)[0]))
  {
    DecimalDigits(n, false);
    DigitsProper(n, 10, false);
    assert Digits(n, 10, false)[0] in Digits(n, 10, false);
  }

  lemma CountRead(s: string, i: nat, c: Count, args: seq<Arg>, k: nat, none: int)
    requires StandsAt(s, i, CountText(c)) && !IsDigit(At(s, i + |CountText(c)|))
    requires c.Absent? ==> At(s, i) != '*'
    ensures NumberFrom(s, i, args, k, none) ==
      (match c case Absent => none case Given(n) => n case Star => IntAt(args, k), i + |CountText(c)|, k + Stars(c))
  {
    match c
    case Absent =>
    case Given(n) =>
      FirstDigit(n);
      DigitsRead(s, i, n);
      assert s[i] == s[i..i + |CountText(c)|][0];
    case Star =>
      assert s[i] == s[i..i + 1][0];
  }

  /** Where the parts of a conversion stand, and what follows each of them. */
  lemma Places(s: string, i: nat, cv: Conversion) returns (a: nat, b: nat, c: nat, d: nat)
    requires Standing(s, i, cv)
    ensures a == i + 1 + |cv.flags| && b == a + |CountText(cv.width)| && c == b + |cv.PrecisionText()|
    ensures d == c + |cv.qualifier| == i + |cv.Text()| - 1 < |s|
    ensures s[i] == '%' && StandsAt(s, i + 1, cv.flags) && StandsAt(s, a, CountText(cv.width))
    ensures StandsAt(s, b, cv.PrecisionText()) && StandsAt(s, c, cv.qualifier) && s[d] == cv.letter
    ensures cv.width.Absent? ==> a == b
  {
    var w, p := CountText(cv.width), cv.PrecisionText();
    a, b, c, d := i + 1 + |cv.flags|, i + 1 + |cv.flags| + |w|, i + 1 + |cv.flags| + |w| + |p|,
      i + 1 + |cv.flags| + |w| + |p| + |cv.qualifier|;
    Parts(s, i, "%" + cv.flags + w + p + cv.qualifier, [cv.letter]);
    Parts(s, i, "%" + cv.flags + w + p, cv.qualifier);
    Parts(s, i, "%" + cv.flags + w, p);
    Parts(s, i, "%" + cv.flags, w);
    Parts(s, i, "%", cv.flags);
    assert s[i] == s[i..i + 1][0] && s[d] == s[d..d + 1][0];
  }

  /** What follows the precision is the qualifier or the letter. */
  lemma AfterPrecision(s: string, i: nat, cv: Conversion) returns (a: nat, b: nat, c: nat, d: nat)
    requires Standing(s, i, cv)
    ensures a == i + 1 + |cv.flags| && b == a + |CountText(cv.width)| && c == b + |cv.PrecisionText()|
    ensures d == c + |cv.qualifier| == i + |cv.Text()| - 1 < |s| && s[d] == cv.letter
    ensures !IsFlag(s[c]) && !IsDigit(s[c]) && s[c] != '*' && s[c] != '.'
    ensures cv.qualifier == if s[c] == 'h' || s[c] == 'l' then [s[c]] else ""
    ensures StandsAt(s, a, CountText(cv.width)) && StandsAt(s, b, cv.PrecisionText()) && StandsAt(s, i + 1, cv.flags)
    ensures s[i] == '%'
  {
    a, b, c, d := Places(s, i, cv);
    if cv.qualifier != "" {
      assert s[c] == s[c..c + |cv.qualifier|][0] == cv.qualifier[0];
    }
  }

  /** What follows the width is the point, if there is one. */
  lemma AfterWidth(s: string, cv: Conversion, b: nat, c: nat)
    requires c < |s| && c == b + |cv.PrecisionText()| && StandsAt(s, b, cv.PrecisionText())
    requires !IsFlag(s[c]) && !IsDigit(s[c]) && s[c] != '*' && s[c] != '.'
    ensures !IsFlag(s[b]) && !IsDigit(s[b]) && s[b] != '*' && (s[b] == '.' <==> cv.dot)
    ensures cv.dot ==> StandsAt(s, b + 1, CountText(cv.precision)) && c == b + 1 + |CountText(cv.precision)|
  {
    if cv.dot {
      Parts(s, b, ".", CountText(cv.precision));
      assert s[b] == s[b..b + 1][0];
    }
  }

  /** What follows the flags is no flag. */
  lemma AfterFlags(s: string, cv: Conversion, a: nat, b: nat)
    requires b < |s| && b == a + |CountText(cv.width)| && StandsAt(s, a, CountText(cv.width))
    requires !IsFlag(s[b]) && s[b] != '*' && (cv.width.Given? ==> cv.width.n > 0)
    ensures !IsFlag(s[a]) && (s[a] == '*' <==> cv.width.Star?)
  {
    if cv.width.Given? {
      FirstDigit(cv.width.n);
      assert s[a] == s[a..b][0];
    } else if cv.width.Star? {
      assert s[a] == s[a..b][0];
    }
  }

  /** Flags and width are read as they are written. */
  lemma HeadRead(s: string, i: nat, cv: Conversion, args: seq<Arg>, k: nat, a: nat, b: nat, c: nat)
    requires Standing(s, i, cv) && a == i + 1 + |cv.flags| && b == a + |CountText(cv.width)| && c < |s|
    requires StandsAt(s, a, CountText(cv.width)) && StandsAt(s, b, cv.PrecisionText()) && StandsAt(s, i + 1, cv.flags)
    requires c == b + |cv.PrecisionText()| && !IsFlag(s[c]) && !IsDigit(s[c]) && s[c] != '*' && s[c] != '.'
    ensures FlagsFrom(s, i + 1, NO_FLAGS) == (cv.Flagged(), a) && (s[a] == '*' <==> cv.width.Star?)
    ensures NumberFrom(s, a, args, k, -1) ==
      (match cv.width case Absent => -1 case Given(n) => n case Star => IntAt(args, k), b, k + Stars(cv.width))
  {
    AfterWidth(s, cv, b, c);
    AfterFlags(s, cv, a, b);
    FlagsRead(s, i + 1, cv.flags, NO_FLAGS);
    CountRead(s, a, cv.width, args, k, -1);
  }

  /** The precision is read as it is written. */
  lemma TailRead(s: string, cv: Conversion, args: seq<Arg>, k: nat, b: nat, c: nat) returns (p: int)
    requires c < |s| && c == b + |cv.PrecisionText()| && StandsAt(s, b, cv.PrecisionText())
    requires !IsFlag(s[c]) && !IsDigit(s[c]) && s[c] != '*' && s[c] != '.'
    ensures s[b] == '.' <==> cv.dot
    ensures p == if !cv.dot then -1
                 else match cv.precision case Absent => 0 case Given(n) => n case Star => IntAt(args, k)
    ensures if cv.dot then NumberFrom(s, b + 1, args, k, 0) == (p, c, k + Stars(cv.precision)) else p == -1 && c == b
  {
    AfterWidth(s, cv, b, c);
    p := -1;
    if cv.dot {
      CountRead(s, b + 1, cv.precision, args, k, 0);
      p := match cv.precision case Absent => 0 case Given(n) => n case Star => IntAt(args, k);
    }
  }

  /** The parts of a conversion, once they are read. */
  lemma SpecIs(s: string, i: nat, args: seq<Arg>, k: nat, f: Flags, a: nat, w: int, b: nat, k1: nat, dot: bool, p: int,
               c: nat, k2: nat)
    requires i < a <= b <= c < |s| && FlagsFrom(s, i + 1, NO_FLAGS) == (f, a)
    requires NumberFrom(s, a, args, k, -1) == (w, b, k1) && (dot <==> s[b] == '.')
    requires if dot then NumberFrom(s, b + 1, args, k1, 0) == (p, c, k2) else p == -1 && c == b && k2 == k1
    ensures var star := s[a] == '*' && w < 0; var q := s[c] == 'h' || s[c] == 'l';
      SpecAt(s, i, args, k) ==
        Spec(if star then f.(left := true) else f, if star then -w else w, if dot && p < 0 then 0 else p,
             if q then s[c] else NUL, if q then c + 1 else c, k2)
  {
  }

  /** A conversion is read as it is written. */
  lemma ReadsAsWritten(s: string, i: nat, cv: Conversion, args: seq<Arg>, k: nat)
    requires Standing(s, i, cv)
    ensures i + |cv.Text()| <= |s| && s[i] == '%' && s[i + |cv.Text()| - 1] == cv.letter
    ensures SpecAt(s, i, args, k) == cv.AsSpec(args, k, i + |cv.Text()| - 1)
  {
    var a, b, c, d := AfterPrecision(s, i, cv);
    HeadRead(s, i, cv, args, k, a, b, c);
    var p := TailRead(s, cv, args, k + Stars(cv.width), b, c);
    var w := match cv.width case Absent => -1 case Given(n) => n case Star => IntAt(args, k);
    assert cv.qualifier == "" <==> s[c] != 'h' && s[c] != 'l';
    assert (if cv.width.Star? && w < 0 then -w else w) == cv.Width(args, k);
    assert (if cv.dot && p < 0 then 0 else p) == cv.Precision(args, k);
    SpecIs(s, i, args, k, cv.Flagged(), a, w, b, k + Stars(cv.width), cv.dot, p, c, cv.Last(k));
  }

  // ----- what is printed -----

  /** A conversion prints its text, and the output goes on behind its letter with the next argument. */
  lemma Prints(s: string, i: nat, cv: Conversion, args: seq<Arg>, k: nat, prefixes: bool) returns (text: string)
    requires Standing(s, i, cv)
    ensures text == Converted(cv.AsSpec(args, k, i + |cv.Text()| - 1), cv.letter, args, prefixes)
    ensures Output(s, i, args, k, prefixes) ==
      text + Output(s, i + |cv.Text()|, args, if TakesArgument(cv.letter) then cv.Last(k) + 1 else cv.Last(k), prefixes)
  {
    ReadsAsWritten(s, i, cv, args, k);
    OutputConverts(s, i, args, k, prefixes);
    text := Converted(cv.AsSpec(args, k, i + |cv.Text()| - 1), cv.letter, args, prefixes);
  }

  predicate Signed(c: char) { c == 'd' || c == 'i' }

  predicate Decimal(c: char) { Signed(c) || c == 'u' }

  predicate Integral(c: char) { Decimal(c) || c == 'x' || c == 'X' || c == 'o' }

  function Most(a: int, b: int): int { if a < b then b else a }

  /** The layout of a number: blanks, sign, prefix, zeros, digits and blanks; with precision 0 the digits are left out
      when all is laid out. */
  datatype Layout = Layout(before: nat, sign: string, prefix: string, zeros: nat, digits: string, behind: nat)
  {
    ghost function Shown(precision: int): string {
      Fill(' ', before) + sign + prefix + Fill('0', zeros) + (if precision == 0 then "" else digits) + Fill(' ', behind)
    }

    /** Blanks go in front unless the flags want them behind, or zeros instead; all together make up the width. */
    ghost predicate Fills(width: int, precision: int, left: bool, zeropad: bool) {
      && (behind > 0 ==> left) && (before > 0 ==> !left && !zeropad) && zeros >= Most(precision - |digits|, 0)
      && (zeros > Most(precision - |digits|, 0) ==> zeropad && !left)
      && before + |sign| + |prefix| + zeros + |digits| + behind ==
         Most(width, |sign| + |prefix| + Most(precision, |digits|))
    }
  }

  lemma PiecesLaid(g: Flags, sign: string, prefix: string, digits: string, width: int, precision: int, room: int)
    returns (l: Layout)
    requires !(g.left && g.zeropad) && room == width - |prefix| - Most(precision, |digits|)
    ensures l.sign == sign && l.prefix == prefix && l.digits == digits && l.Fills(width, precision, g.left, g.zeropad)
    ensures Flat(PiecesOf(g, sign, prefix, digits, precision, room)) == l.Shown(precision)
  {
    var rest := room - |sign|;
    var a, b := if g.zeropad || g.left then 0 else Most(rest, 0), if g.left then Most(rest, 0) else 0;
    var z0, z1 := if g.zeropad then Most(rest, 0) else 0, Most(precision - |digits|, 0);
    l := Layout(a, sign, prefix, z0 + z1, digits, b);
    assert Fill('0', z0) + Fill('0', z1) == Fill('0', z0 + z1);
    assert ZeroText(g, rest) == Fill('0', z0) && LeadText(g, rest) == Fill(' ', a) &&
           TrailText(g, rest) == Fill(' ', b);
    Joined(Fill(' ', a), sign, prefix, Fill('0', z0), Fill('0', z1), if precision == 0 then "" else digits,
           Fill(' ', b));
  }

  lemma NormalSame(num: nat, base: nat, f: Flags, prefixes: bool)
    ensures SignOf(num, Normal(f)) == SignOf(num, f)
    ensures PrefixOf(base, Normal(f), prefixes) == PrefixOf(base, f, prefixes)
    ensures DigitsOf(num, base, Normal(f)) == DigitsOf(num, base, f)
  {
  }

  /** What a number's text is made of. */
  lemma NumberLaid(num: nat, base: nat, width: int, precision: int, f: Flags, prefixes: bool) returns (l: Layout)
    requires num < WORD
    ensures l.sign == SignOf(num, f) && l.prefix == PrefixOf(base, f, prefixes) && l.digits == DigitsOf(num, base, f)
    ensures l.Fills(width, precision, f.left, f.zeropad)
    ensures NumberText(num, base, width, precision, f, prefixes) == l.Shown(precision)
  {
    var g := Normal(f);
    var sign, prefix, digits := SignOf(num, f), PrefixOf(base, f, prefixes), DigitsOf(num, base, f);
    NormalSame(num, base, f, prefixes);
    l := PiecesLaid(g, sign, prefix, digits, width, precision, Room(num, base, width, precision, g, prefixes));
    assert f.left || g.zeropad == f.zeropad;
  }

  lemma Joined(a: string, b: string, c: string, d: string, e: string, f: string, g: string)
    ensures a + b + c + d + e + f + g == a + b + c + (d + e) + f + g
  {
  }

  /** The number a word stands for: the low half only with the `h` qualifier, and negative from half the range up if
      it is signed. */
  function Value(word: nat, qualifier: string, signed: bool): int {
    var range := if qualifier == "h" then 0x1_0000 else WORD;
    if signed && word % range >= range / 2 then word % range - range else word % range
  }

  function Magnify(v: int): nat { if v < 0 then -v else v }

  lemma NumberIs(word: nat, qualifier: string, signed: bool, f: Flags)
    requires word < WORD && (qualifier == "" || qualifier == "h" || qualifier == "l") && f.sign == signed
    ensures var num := NumberOf(word, if qualifier == "" then NUL else qualifier[0], signed);
      var v := Value(word, qualifier, signed);
      && num < WORD && Magnitude(num, f) == Magnify(v)
      && SignOf(num, f) ==
         if !signed then "" else if v < 0 then "-" else if f.plus then "+" else if f.space then " " else ""
  {
  }

  /** The digits of a number: worth it in its base, in one case, without a leading zero. */
  ghost predicate Spelled(digits: string, n: nat, base: nat, large: bool) {
    && Worth(digits, base) == n && digits != "" && (|digits| > 1 ==> digits[0] != '0')
    && forall c :: c in digits ==> '0' <= c <= '9' || (base == 16 && if large then 'A' <= c <= 'F' else 'a' <= c <= 'f')
  }

  lemma DigitsSpelled(n: nat, base: nat, large: bool)
    requires base == 10 || base == 16
    ensures Spelled(Digits(n, base, large), n, base, large)
  {
    DigitsWorth(n, base, large);
    DigitsProper(n, base, large);
    if base == 10 { DecimalDigits(n, large); }
  }

  /** The layout is that of a word converted by letter `c`: `d` and `i` print the signed number in base ten and `u` the
      unsigned one, `x` and `X` in base sixteen with small and large letters, and so does `o`. */
  ghost predicate LaidFor(l: Layout, word: nat, qualifier: string, c: char, f: Flags, prefixes: bool) {
    var v := Value(word, qualifier, Signed(c));
    && Spelled(l.digits, Magnify(v), if Decimal(c) then 10 else 16, c == 'X')
    && l.sign == (if !Signed(c) then "" else if v < 0 then "-" else if f.plus then "+" else if f.space then " " else "")
    && l.prefix == if !prefixes || !f.special || Decimal(c) then "" else if c == 'o' then "0" else ['0', c]
  }

  lemma IntegerText(word: nat, qualifier: string, c: char, width: int, precision: int, flags: Flags, prefixes: bool)
    returns (l: Layout)
    requires word < WORD && (qualifier == "" || qualifier == "h" || qualifier == "l") && Integral(c)
    requires !flags.sign && !flags.large
    ensures var f := FlagsOf(flags, c);
      NumberText(NumberOf(word, if qualifier == "" then NUL else qualifier[0], f.sign), BaseOf(c), width, precision,
                 f, prefixes) == l.Shown(precision)
    ensures l.Fills(width, precision, flags.left, flags.zeropad) && LaidFor(l, word, qualifier, c, flags, prefixes)
  {
    var f := FlagsOf(flags, c);
    assert f == flags.(sign := Signed(c), large := c == 'X');
    var num := NumberOf(word, if qualifier == "" then NUL else qualifier[0], f.sign);
    NumberIs(word, qualifier, f.sign, f);
    l := NumberLaid(num, BaseOf(c), width, precision, f, prefixes);
    DigitsSpelled(Magnify(Value(word, qualifier, f.sign)), DigitBase(BaseOf(c)), f.large);
  }

  lemma ConvertedInteger(sp: Spec, c: char, args: seq<Arg>, prefixes: bool)
    requires Integral(c) && sp.arg < |args| && args[sp.arg].Word? && args[sp.arg].bits < WORD
    ensures var f := FlagsOf(sp.flags, c);
      Converted(sp, c, args, prefixes) ==
        NumberText(NumberOf(args[sp.arg].bits, sp.qualifier, f.sign), BaseOf(c), sp.width, sp.precision, f, prefixes)
  {
  }

  lemma IntegerLaid(cv: Conversion, args: seq<Arg>, k: nat, at: nat, prefixes: bool) returns (l: Layout)
    requires cv.Clear() && Integral(cv.letter)
    requires cv.Last(k) < |args| && args[cv.Last(k)].Word? && args[cv.Last(k)].bits < WORD
    ensures Converted(cv.AsSpec(args, k, at), cv.letter, args, prefixes) == l.Shown(cv.Precision(args, k))
    ensures l.Fills(cv.Width(args, k), cv.Precision(args, k), cv.Left(args, k), '0' in cv.flags)
    ensures LaidFor(l, args[cv.Last(k)].bits, cv.qualifier, cv.letter, cv.Flagged(), prefixes)
  {
    var sp := cv.AsSpec(args, k, at);
    ConvertedInteger(sp, cv.letter, args, prefixes);
    l := IntegerText(args[sp.arg].bits, cv.qualifier, cv.letter, sp.width, sp.precision, sp.flags, prefixes);
  }

  /** What an integer conversion prints, from what is written in the format and the word it is given. */
  lemma IntegerOutput(s: string, i: nat, cv: Conversion, args: seq<Arg>, k: nat, prefixes: bool) returns (l: Layout)
    requires Standing(s, i, cv) && Integral(cv.letter)
    requires cv.Last(k) < |args| && args[cv.Last(k)].Word? && args[cv.Last(k)].bits < WORD
    ensures Output(s, i, args, k, prefixes) ==
      l.Shown(cv.Precision(args, k)) + Output(s, i + |cv.Text()|, args, cv.Last(k) + 1, prefixes)
    ensures l.Fills(cv.Width(args, k), cv.Precision(args, k), cv.Left(args, k), '0' in cv.flags)
    ensures LaidFor(l, args[cv.Last(k)].bits, cv.qualifier, cv.letter, cv.Flagged(), prefixes)
  {
    var text := Prints(s, i, cv, args, k, prefixes);
    l := IntegerLaid(cv, args, k, i + |cv.Text()| - 1, prefixes);
  }

  /** The pointer conversion prints eight digits of base sixteen, unless another width is written. */
  lemma PointerOutput(s: string, i: nat, cv: Conversion, args: seq<Arg>, k: nat, prefixes: bool) returns (l: Layout)
    requires Standing(s, i, cv) && cv.letter == 'p'
    requires cv.Last(k) < |args| && args[cv.Last(k)].Word? && args[cv.Last(k)].bits < WORD
    ensures Output(s, i, args, k, prefixes) ==
      l.Shown(cv.Precision(args, k)) + Output(s, i + |cv.Text()|, args, cv.Last(k) + 1, prefixes)
    ensures if cv.width.Absent? then l.Fills(8, cv.Precision(args, k), cv.Left(args, k), true)
            else l.Fills(cv.Width(args, k), cv.Precision(args, k), cv.Left(args, k), '0' in cv.flags)
    ensures Spelled(l.digits, args[cv.Last(k)].bits, 16, false) && l.sign == ""
    ensures l.prefix == if prefixes && '#' in cv.flags then "0x" else ""
  {
    var text := Prints(s, i, cv, args, k, prefixes);
    var sp := cv.AsSpec(args, k, i + |cv.Text()| - 1);
    var word := args[cv.Last(k)].bits;
    var f := if sp.width == -1 then sp.flags.(zeropad := true) else sp.flags;
    l := NumberLaid(word, 16, if sp.width == -1 then 8 else sp.width, sp.precision, f, prefixes);
    DigitsSpelled(word, 16, false);
  }

  /** The string, or as much of it as a precision but 0 lets through. */
  function Cut(whole: string, precision: int): string {
    if 0 < precision < |whole| then whole[..precision] else whole
  }

  ghost function Padded(shown: string, width: int, left: bool): string {
    if left then shown + Fill(' ', width - |shown|) else Fill(' ', width - |shown|) + shown
  }

  lemma ConvertedText(sp: Spec, args: seq<Arg>, prefixes: bool)
    requires sp.arg < |args|
    ensures var shown := Cut(if args[sp.arg].Text? then args[sp.arg].chars else "(NULL)", sp.precision);
      Converted(sp, 's', args, prefixes) == Padded(shown, sp.width, sp.flags.left)
  {
    var text := TextAt(args, sp.arg);
    assert text[..ShownLength(text, sp.precision)] == Cut(text, sp.precision);
  }

  /** The string conversion prints the string, or its beginning if a precision but 0 says so, padded to the width. */
  lemma StringOutput(s: string, i: nat, cv: Conversion, args: seq<Arg>, k: nat, prefixes: bool)
    requires Standing(s, i, cv) && cv.letter == 's'
    requires cv.Last(k) < |args| && !args[cv.Last(k)].Word?
    ensures var shown :=
              Cut(if args[cv.Last(k)].Text? then args[cv.Last(k)].chars else "(NULL)", cv.Precision(args, k));
      Output(s, i, args, k, prefixes) ==
        Padded(shown, cv.Width(args, k), cv.Left(args, k)) +
        Output(s, i + |cv.Text()|, args, cv.Last(k) + 1, prefixes)
  {
    var text := Prints(s, i, cv, args, k, prefixes);
    ConvertedText(cv.AsSpec(args, k, i + |cv.Text()| - 1), args, prefixes);
  }

  /** The character conversion prints the low byte of the word, padded to the width. */
  lemma CharOutput(s: string, i: nat, cv: Conversion, args: seq<Arg>, k: nat, prefixes: bool)
    requires Standing(s, i, cv) && cv.letter == 'c'
    requires cv.Last(k) < |args| && args[cv.Last(k)].Word? && args[cv.Last(k)].bits < WORD
    ensures var shown := [(args[cv.Last(k)].bits % 256) as char];
      Output(s, i, args, k, prefixes) ==
        Padded(shown, cv.Width(args, k), cv.Left(args, k)) +
        Output(s, i + |cv.Text()|, args, cv.Last(k) + 1, prefixes)
  {
    var text := Prints(s, i, cv, args, k, prefixes);
  }

  /** Any other letter is printed behind a percent sign, and a second percent sign is printed once; neither takes an
      argument. */
  lemma OtherOutput(s: string, i: nat, cv: Conversion, args: seq<Arg>, k: nat, prefixes: bool)
    requires Standing(s, i, cv) && cv.letter !in "cspdiuxXo"
    ensures Output(s, i, args, k, prefixes) ==
      (if cv.letter == '%' then "%" else ['%', cv.letter]) +
      Output(s, i + |cv.Text()|, args, cv.Last(k), prefixes)
  {
    var text := Prints(s, i, cv, args, k, prefixes);
  }

  /** A percent sign at the end of the format is printed as it is. */
  lemma EndOutput(s: string, i: nat, args: seq<Arg>, k: nat, prefixes: bool)
    requires |s| > 0 && i == |s| - 1 && s[i] == '%'
    ensures Output(s, i, args, k, prefixes) == "%"
  {
    OutputConverts(s, i, args, k, prefixes);
    assert SpecAt(s, i, args, k).at == |s|;
  }
}
