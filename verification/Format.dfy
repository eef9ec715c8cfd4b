/** Bounded formatting over a character buffer, and the unbounded rendering that it cuts off. */
module Format {
  import opened Bytes

  /** An argument of a format string. */
  datatype Argument = Text(text: string) | Number(value: int)

  /** The parts of a format string; a conversion carries its zero flag, width and conversion character. */
  datatype Directive = Plain(c: char) | Percent | Conversion(zero: bool, width: nat, c: char)

  predicate IsDigit(c: char) {
    '0' <= c <= '9'
  }

  function DigitChar(n: nat): (c: char)
    requires n < 10
    ensures IsDigit(c) && DigitOf(c) == n
  {
    ('0' as int + n) as char
  }

  function DigitOf(c: char): (n: nat)
    requires IsDigit(c)
    ensures n < 10
  {
    c as int - '0' as int
  }

  predicate AllDigits(s: string) {
    forall k :: 0 <= k < |s| ==> IsDigit(s[k])
  }

  /** The number that a string of digits spells. */
  function Value(s: string): nat
    requires AllDigits(s)
  {
    if s == "" then 0 else 10 * Value(s[..|s| - 1]) + DigitOf(s[|s| - 1])
  }

  /** The decimal digits of a number, the most significant first. */
  function Digits(n: nat): (s: string)
    ensures s != "" && AllDigits(s)
  {
    if n < 10 then [DigitChar(n)] else Digits(n / 10) + [DigitChar(n % 10)]
  }

  /** The digits spell the number, and without a leading zero: no other string of digits does both. */
  lemma {:induction false} DigitsSpell(n: nat)
    ensures Value(Digits(n)) == n && (n > 0 ==> Digits(n)[0] != '0')
  {
    if n >= 10 {
      DigitsSpell(n / 10);
      assert Digits(n)[..|Digits(n)| - 1] == Digits(n / 10);
    } else {
      assert [DigitChar(n)][..0] == "";
      assert Value("") == 0;
    }
  }

  lemma {:induction false} DigitsUnique(s: string)
    requires s != "" && AllDigits(s) && (|s| > 1 ==> s[0] != '0')
    ensures Digits(Value(s)) == s
  {
    var most := s[..|s| - 1];
    if most == "" {
      assert Value(s) == DigitOf(s[0]);
    } else {
      DigitsUnique(most);
      LeadingDigit(most);
      assert Value(s) / 10 == Value(most);
      assert s == most + [s[|s| - 1]];
    }
  }

  lemma {:induction false} LeadingDigit(s: string)
    requires s != "" && AllDigits(s) && s[0] != '0'
    ensures Value(s) > 0
  {
    if |s| > 1 {
      LeadingDigit(s[..|s| - 1]);
    }
  }

  /** A 32-bit number has at most ten digits. */
  lemma {:induction false} DigitsFit(n: nat, k: nat)
    requires n < Power10(k) && k > 0
    ensures |Digits(n)| <= k
  {
    if n >= 10 {
      assert k > 1;
      DigitsFit(n / 10, k - 1);
    }
  }

  function Power10(k: nat): (p: nat)
    ensures p > 0
  {
    if k == 0 then 1 else 10 * Power10(k - 1)
  }

  // ----- the unbounded rendering

  function Fill(c: char, n: int): (s: string)
    ensures |s| == (if n > 0 then n else 0) && forall k :: 0 <= k < |s| ==> s[k] == c
    decreases n
  {
    if n <= 0 then "" else Fill(c, n - 1) + [c]
  }

  function Magnitude(value: int): nat {
    if value < 0 then -value else value
  }

  /** Sign, padding to the width, digits. */
  function Decimal(value: int, width: nat, padding: char): string {
    var sign := if value < 0 then "-" else "";
    var digits := Digits(Magnitude(value));
    sign + Fill(padding, width - |sign| - |digits|) + digits
  }

  /** A decimal fills its width, tells its sign first, and its last digits spell the magnitude. */
  lemma DecimalReads(value: int, width: nat, padding: char)
    requires padding == ' ' || padding == '0'
    ensures var d, n := Decimal(value, width, padding), |Digits(Magnitude(value))|;
            && (value < 0 <==> d[0] == '-')
            && |d| == (var least := if value < 0 then n + 1 else n; if width > least then width else least)
            && AllDigits(d[|d| - n..]) && Value(d[|d| - n..]) == Magnitude(value)
            && forall k :: (if value < 0 then 1 else 0) <= k < |d| - n ==> d[k] == padding
  {
    var d, digits := Decimal(value, width, padding), Digits(Magnitude(value));
    DigitsSpell(Magnitude(value));
    assert d[|d| - |digits|..] == digits;
  }

  /** The length of the run of digits a string starts with. */
  function DigitCount(s: string): (n: nat)
    ensures n <= |s| && AllDigits(s[..n]) && (n < |s| ==> !IsDigit(s[n]))
  {
    if s != "" && IsDigit(s[0]) then 1 + DigitCount(s[1..]) else 0
  }

  /** A width is computed in 32 unsigned bits. */
  function Width(s: string): nat
    requires AllDigits(s)
  {
    Value(s) % U32_MODULUS
  }

  /** The directives of a format string; one that is cut off by the end of the string has no effect. */
  function Parse(fmt: string): seq<Directive>
    decreases |fmt|
  {
    if fmt == "" then []
    else if fmt[0] != '%' then [Plain(fmt[0])] + Parse(fmt[1..])
    else if |fmt| > 1 && fmt[1] == '%' then [Percent] + Parse(fmt[2..])
    else ParseFlagged(ZeroFlag(fmt[1..]), if ZeroFlag(fmt[1..]) then fmt[2..] else fmt[1..])
  }

  /** Width and conversion character, after the flag. */
  function ParseFlagged(zero: bool, s: string): seq<Directive>
    decreases |s|
  {
    var n := DigitCount(s);
    if n == |s| then [] else [Conversion(zero, Width(s[..n]), s[n])] + Parse(s[n + 1..])
  }

  predicate ZeroFlag(s: string) {
    s != "" && s[0] == '0'
  }

  /** The arguments that the directives take are there and of the right kind. */
  predicate Matches(ds: seq<Directive>, args: seq<Argument>) {
    if ds == [] then true
    else if Takes(ds[0]) then args != [] && Suits(ds[0], args[0]) && Matches(ds[1..], args[1..])
    else Matches(ds[1..], args)
  }

  predicate Takes(d: Directive) {
    d.Conversion? && (d.c == 's' || d.c == 'd')
  }

  predicate Suits(d: Directive, a: Argument)
    requires Takes(d)
  {
    if d.c == 's' then a.Text? && '\0' !in a.text
    else a.Number? && -0x8000_0000 <= a.value < 0x8000_0000
  }

  /** What a directive that takes an argument renders. */
  function RenderArgument(d: Directive, a: Argument): string
    requires Takes(d) && Suits(d, a)
  {
    if d.c == 's' then a.text else Decimal(a.value, d.width, if d.zero then '0' else ' ')
  }

  /** What any other directive renders. */
  function RenderFixed(d: Directive): string
    requires !Takes(d)
  {
    match d
    case Plain(c) => [c]
    case Percent => "%"
    case Conversion(_, _, c) => ['%', c]
  }

  function Render(ds: seq<Directive>, args: seq<Argument>): string
    requires Matches(ds, args)
  {
    if ds == [] then ""
    else if Takes(ds[0]) then RenderArgument(ds[0], args[0]) + Render(ds[1..], args[1..])
    else RenderFixed(ds[0]) + Render(ds[1..], args)
  }

  // ----- spelling directives

  function WidthDigits(width: nat): (s: string)
    ensures AllDigits(s)
  {
    if width == 0 then "" else Digits(width)
  }

  /** The format string of a directive. */
  function Spell(d: Directive): string {
    match d
    case Plain(c) => [c]
    case Percent => "%%"
    case Conversion(zero, width, c) =>
      "%" + (if zero then "0" else "") + WidthDigits(width) + [c]
  }

  /** Directives that a format string can express: no bare "%%" conversion, no digit as a conversion character. */
  predicate Expressible(d: Directive) {
    match d
    case Plain(c) => c != '%'
    case Percent => true
    case Conversion(zero, width, c) => width < U32_MODULUS && !IsDigit(c) && (c == '%' ==> zero || width > 0)
  }

  function SpellAll(ds: seq<Directive>): string {
    if ds == [] then "" else Spell(ds[0]) + SpellAll(ds[1..])
  }

  lemma {:induction false} DigitRun(s: string, rest: string)
    requires AllDigits(s) && (rest != "" ==> !IsDigit(rest[0]))
    ensures DigitCount(s + rest) == |s|
  {
    if s == "" {
      assert s + rest == rest;
    } else {
      assert (s + rest)[1..] == s[1..] + rest;
      DigitRun(s[1..], rest);
    }
  }

  lemma ParseSpelled(d: Directive, rest: string)
    requires Expressible(d)
    ensures Parse(Spell(d) + rest) == [d] + Parse(rest)
  {
    var fmt := Spell(d) + rest;
    match d
    case Plain(c) => assert fmt[1..] == rest;
    case Percent => assert fmt[2..] == rest;
    case Conversion(zero, width, c) => ParseConversion(zero, width, c, rest);
  }

  /** Width digits and conversion character behind a flag. */
  lemma ParseWidth(fmt: string, zero: bool, digits: string, c: char, rest: string)
    requires |fmt| > 1 && fmt[0] == '%' && fmt[1] != '%' && ZeroFlag(fmt[1..]) == zero
    requires (if zero then fmt[2..] else fmt[1..]) == digits + ([c] + rest)
    requires AllDigits(digits) && !IsDigit(c)
    ensures Parse(fmt) == [Conversion(zero, Width(digits), c)] + Parse(rest)
  {
    hide Width, ZeroFlag, AllDigits, DigitCount;
    var s := digits + ([c] + rest);
    DigitRun(digits, [c] + rest);
    assert s[..|digits|] == digits && s[|digits|] == c && s[|digits| + 1..] == rest;
  }

  lemma WidthOf(width: nat)
    requires width < U32_MODULUS
    ensures Width(WidthDigits(width)) == width
  {
    DigitsSpell(width);
    assert Value("") == 0;
  }

  lemma ParseConversion(zero: bool, width: nat, c: char, rest: string)
    requires Expressible(Conversion(zero, width, c))
    ensures Parse(Spell(Conversion(zero, width, c)) + rest) == [Conversion(zero, width, c)] + Parse(rest)
  {
    hide Parse, Width, Value, AllDigits;
    var digits := WidthDigits(width);
    var tail := digits + ([c] + rest);
    var fmt := Spell(Conversion(zero, width, c)) + rest;
    WidthOf(width);
    DigitsSpell(width);
    if zero {
      assert fmt == "%0" + tail;
      assert fmt[1..] == "0" + tail && fmt[2..] == tail;
    } else {
      assert fmt == "%" + tail;
      assert fmt[1..] == tail;
      FirstIsDigit(digits);
      assert digits != "" ==> tail[0] == digits[0];
    }
    ParseWidth(fmt, zero, digits, c, rest);
  }

  lemma FirstIsDigit(s: string)
    requires AllDigits(s)
    ensures s != "" ==> IsDigit(s[0])
  {
  }

  /** Every list of expressible directives has a format string that means it. */
  lemma {:induction false} ParseSpelledAll(ds: seq<Directive>)
    requires forall k :: 0 <= k < |ds| ==> Expressible(ds[k])
    ensures Parse(SpellAll(ds)) == ds
  {
    if ds != [] {
      ParseSpelled(ds[0], SpellAll(ds[1..]));
      ParseSpelledAll(ds[1..]);
    }
  }

  /**
    "%d" with a width renders right-aligned: zeros stand between sign and digits when the width has a leading
    zero, and blanks otherwise.
  */
  lemma DecimalShown(zero: bool, digits: string, value: int)
    requires AllDigits(digits) && (digits != "" ==> digits[0] != '0') && -0x8000_0000 <= value < 0x8000_0000
    ensures var fmt, args := "%" + (if zero then "0" else "") + digits + "d", [Number(value)];
            && Matches(Parse(fmt), args)
            && var out, n := Render(Parse(fmt), args), |Digits(Magnitude(value))|;
               && n <= |out| && AllDigits(out[|out| - n..]) && Value(out[|out| - n..]) == Magnitude(value)
               && |out| > 0 && (value < 0 <==> out[0] == '-')
               && |out| >= Width(digits)
               && forall k :: (if value < 0 then 1 else 0) <= k < |out| - n ==> out[k] == if zero then '0' else ' '
  {
    hide Width, Value, AllDigits, Digits, Parse, Decimal;
    var fmt, args := "%" + (if zero then "0" else "") + digits + "d", [Number(value)];
    FirstIsDigit(digits);
    assert (if zero then fmt[2..] else fmt[1..]) == digits + (['d'] + "");
    ParseWidth(fmt, zero, digits, 'd', "");
    NothingLeft([]);
    OneConversion(Conversion(zero, Width(digits), 'd'), args[0]);
    assert Parse(fmt) == [Conversion(zero, Width(digits), 'd')];
    DecimalReads(value, Width(digits), if zero then '0' else ' ');
  }

  lemma OneConversion(d: Directive, a: Argument)
    requires Takes(d) && Suits(d, a)
    ensures Matches([d], [a]) && Render([d], [a]) == RenderArgument(d, a)
  {
    hide RenderArgument, Suits;
    assert [d][1..] == [] && [a][1..] == [];
    assert RenderArgument(d, a) + "" == RenderArgument(d, a);
  }

  /** "%s" renders the text, "%%" a percent sign, and any other conversion itself. */
  lemma OthersShown(text: string, c: char)
    requires '\0' !in text && c != 's' && c != 'd' && c != '%' && !IsDigit(c)
    ensures Matches(Parse("%s"), [Text(text)]) && Render(Parse("%s"), [Text(text)]) == text
    ensures Matches(Parse("%%"), []) && Render(Parse("%%"), []) == "%"
    ensures Matches(Parse(['%', c]), []) && Render(Parse(['%', c]), []) == ['%', c]
  {
    hide Width, Value;
    NothingLeft([]);
    ParseWidth("%s", false, "", 's', "");
    OneConversion(Conversion(false, Width(""), 's'), Text(text));
    assert "%%"[2..] == "";
    assert Parse("%%") == [Percent] && [Percent][1..] == [];
    ParseWidth(['%', c], false, "", c, "");
    assert Parse(['%', c]) == [Conversion(false, Width(""), c)] && [Conversion(false, Width(""), c)][1..] == [];
  }

  // ----- the bounded output

  function Reversed(s: string): (r: string)
    ensures |r| == |s| && forall k :: 0 <= k < |s| ==> r[k] == s[|s| - 1 - k]
  {
    if s == "" then "" else Reversed(s[1..]) + [s[0]]
  }

  /** How much of a rendering of `n` characters is kept: one place is reserved for the terminator. */
  function KeptLength(capacity: nat, n: nat): (k: nat)
    ensures k <= n && (capacity > 0 ==> k < capacity)
  {
    if capacity == 0 then 0 else if n < capacity then n else capacity - 1
  }

  /** The buffer under a rendering: what is kept of it, and otherwise what was there before. */
  function Shown(before: string, rendered: string, capacity: nat): (s: string)
    requires KeptLength(capacity, |rendered|) <= |before|
    ensures |s| == |before|
  {
    var k := KeptLength(capacity, |rendered|);
    rendered[..k] + before[k..]
  }

  lemma ShownStep(before: string, rendered: string, capacity: nat, c: char, now: string)
    requires KeptLength(capacity, |rendered| + 1) <= |before|
    requires var was := Shown(before, rendered, capacity);
             now == if capacity != 0 && |rendered| + 1 < capacity then was[|rendered| := c] else was
    ensures now == Shown(before, rendered + [c], capacity)
  {
    var k := KeptLength(capacity, |rendered| + 1);
    if capacity != 0 && |rendered| + 1 < capacity {
      assert (rendered + [c])[..k] == rendered + [c] && rendered[..|rendered|] == rendered;
      assert before[|rendered|..][1..] == before[k..];
    } else {
      assert (rendered + [c])[..k] == rendered[..k];
    }
  }

  class FormatOutput {
    const buffer: array<char>
    const capacity: nat
    var length: nat
    ghost const before: string
    ghost var rendered: string

    constructor (buffer: array<char>, capacity: nat)
      requires capacity < U32_MODULUS
      ensures this.buffer == buffer && this.capacity == capacity && rendered == "" && before == buffer[..] && Valid()
    {
      this.buffer := buffer;
      this.capacity := capacity;
      length := 0;
      before := buffer[..];
      rendered := "";
    }

    /** The buffer holds what is kept of the rendering so far, and is otherwise untouched. */
    ghost predicate Valid()
      reads this, buffer
    {
      && capacity < U32_MODULUS && length == |rendered| && KeptLength(capacity, length) <= |before|
      && buffer[..] == Shown(before, rendered, capacity)
    }

    /**
      `n` characters more leave room for the terminator: the capacity is that of the buffer, or the text is short.
      The count of characters does not wrap.
    */
    ghost predicate Room(n: nat)
      reads this
    {
      length + n < U32_MODULUS && (capacity <= buffer.Length || length + n < buffer.Length)
    }

    method EmitCharacter(c: char)
      requires Valid() && Room(1)
      modifies this`length, this`rendered, buffer
      ensures Valid() && rendered == old(rendered) + [c]
    {
      hide Shown;
      ShownStep(before, rendered, capacity, c,
        if capacity != 0 && length + 1 < capacity then buffer[..][length := c] else buffer[..]);
      if capacity != 0 && length + 1 < capacity {
        buffer[length] := c;
      }
      length := length + 1;
      rendered := rendered + [c];
    }

    method EmitString(text: string)
      requires Valid() && Room(|text|)
      modifies this`length, this`rendered, buffer
      ensures Valid() && rendered == old(rendered) + text
    {
      hide Shown;
      var i := 0;
      while i < |text|
        invariant i <= |text| && Valid() && rendered == old(rendered) + text[..i]
      {
        EmitCharacter(text[i]);
        i := i + 1;
      }
    }

    method EmitPadding(padding: char, start: nat, count: nat)
      requires Valid() && Room(|Fill(padding, start - count)|)
      modifies this`length, this`rendered, buffer
      ensures Valid() && rendered == old(rendered) + Fill(padding, start - count)
    {
      hide Shown;
      var width := start;
      while count < width
        invariant width <= start && Valid() && (count <= width || width == start)
        invariant rendered == old(rendered) + Fill(padding, start - width)
      {
        EmitCharacter(padding);
        width := width - 1;
      }
    }

    /** The digits were collected from the least significant on. */
    method EmitReversed(digits: array<char>, n: nat)
      requires digits != buffer && n <= digits.Length && Valid() && Room(n)
      modifies this`length, this`rendered, buffer
      ensures Valid() && rendered == old(rendered) + Reversed(digits[..n])
    {
      hide Shown;
      var count := n;
      while count != 0
        invariant 0 <= count <= n && Valid() && rendered == old(rendered) + Reversed(digits[count..n])
      {
        count := count - 1;
        assert digits[count..n][1..] == digits[count + 1..n];
        EmitCharacter(digits[count]);
      }
    }

    method EmitMagnitude(magnitude: nat, width: nat, padding: char)
      requires magnitude < U32_MODULUS && Valid() && Room(|Padded(magnitude, width, padding)|)
      modifies this`length, this`rendered, buffer
      ensures Valid() && rendered == old(rendered) + Padded(magnitude, width, padding)
    {
      hide Shown;
      var digits, count := CollectDigits(magnitude);
      EmitPadding(padding, width, count);
      EmitReversed(digits, count);
    }

    /** emit_decimal: the magnitude is a negation in unsigned arithmetic, so that the minimum has one too. */
    method EmitDecimal(value: int, width: nat, padding: char)
      requires -0x8000_0000 <= value < 0x8000_0000 && Valid() && Room(|Decimal(value, width, padding)|)
      modifies this`length, this`rendered, buffer
      ensures Valid() && rendered == old(rendered) + Decimal(value, width, padding)
    {
      hide Shown;
      var rest: nat := width;
      var magnitude: nat := value % U32_MODULUS;
      if value < 0 {
        EmitCharacter('-');
        if rest != 0 {
          rest := rest - 1;
        }
        Negated(value);
        magnitude := (0 - value % U32_MODULUS) % U32_MODULUS;
      }
      DecimalParts(value, width, rest, magnitude, padding);
      EmitMagnitude(magnitude, rest, padding);
    }

    /** A buffer that is not empty is always terminated. */
    method Terminate()
      requires Valid() && Room(0)
      modifies buffer
      ensures buffer[..] == Bounded(before, rendered, capacity)
    {
      if capacity != 0 {
        var terminator := if length < capacity then length else capacity - 1;
        buffer[terminator] := '\0';
      }
    }

    /** One round of format: a plain character, a doubled percent sign or a conversion. */
    method EmitNext(fmt: string, start: nat, args: seq<Argument>, taken: nat, ghost full: string)
      returns (i: nat, a: nat)
      requires start < |fmt| && taken <= |args| && Valid()
      requires Matches(Parse(fmt[start..]), args[taken..])
      requires rendered + Render(Parse(fmt[start..]), args[taken..]) == full
      requires |full| < U32_MODULUS && (capacity <= buffer.Length || |full| < buffer.Length)
      modifies this`length, this`rendered, buffer
      ensures start < i <= |fmt| && a <= |args| && Valid()
      ensures Matches(Parse(fmt[i..]), args[a..])
      ensures rendered + Render(Parse(fmt[i..]), args[a..]) == full
    {
      hide Render, Matches, Parse, Shown;
      a := taken;
      if fmt[start] != '%' {
        RenderPlain(fmt, start, args[taken..]);
        EmitCharacter(fmt[start]);
        i := start + 1;
      } else if start + 1 < |fmt| && fmt[start + 1] == '%' {
        RenderPlain(fmt, start, args[taken..]);
        EmitCharacter('%');
        i := start + 2;
      } else {
        i, a := EmitConversion(fmt, start, args, taken, full);
      }
    }

    /** The conversions that take an argument. */
    method EmitArgument(d: Directive, a: Argument)
      requires Takes(d) && Suits(d, a) && Valid() && Room(|RenderArgument(d, a)|)
      modifies this`length, this`rendered, buffer
      ensures Valid() && rendered == old(rendered) + RenderArgument(d, a)
    {
      hide Decimal, Shown;
      if d.c == 's' {
        EmitString(a.text);
      } else {
        EmitDecimal(a.value, d.width, if d.zero then '0' else ' ');
      }
    }

    /** The conversion at a percent sign. */
    method EmitConversion(fmt: string, start: nat, args: seq<Argument>, taken: nat, ghost full: string)
      returns (i: nat, a: nat)
      requires start < |fmt| && taken <= |args| && Valid()
      requires fmt[start] == '%' && !(start + 1 < |fmt| && fmt[start + 1] == '%')
      requires Matches(Parse(fmt[start..]), args[taken..])
      requires rendered + Render(Parse(fmt[start..]), args[taken..]) == full
      requires |full| < U32_MODULUS && (capacity <= buffer.Length || |full| < buffer.Length)
      modifies this`length, this`rendered, buffer
      ensures start < i <= |fmt| && a <= |args| && Valid()
      ensures Matches(Parse(fmt[i..]), args[a..])
      ensures rendered + Render(Parse(fmt[i..]), args[a..]) == full
    {
      hide Render, Matches, Parse, RenderArgument, Suits, Shown, KeptLength;
      var zero, width, e := ReadConversion(fmt, start);
      i, a := e, taken;
      if i < |fmt| {
        RenderConversion(Parse(fmt[start..]), args[taken..], zero, width, fmt[e]);
        i := i + 1;
        if fmt[e] == 's' || fmt[e] == 'd' {
          NextArgument(args, a);
          Advance(rendered, RenderArgument(Conversion(zero, width, fmt[e]), args[a]), Render(Parse(fmt[i..]),
              args[a + 1..]), full);
          EmitArgument(Conversion(zero, width, fmt[e]), args[a]);
          a := a + 1;
        } else {
          Advance(rendered, ['%', fmt[e]], Render(Parse(fmt[i..]), args[a..]), full);
          ghost var before := rendered;
          EmitCharacter('%');
          EmitCharacter(fmt[e]);
          assert rendered == before + ['%', fmt[e]];
        }
      } else {
        assert fmt[i..] == "";
        NothingLeft(args[a..]);
      }
    }
  }

  lemma RenderConversion(ds: seq<Directive>, args: seq<Argument>, zero: bool, width: nat, c: char)
    requires ds != [] && Matches(ds, args) && ds[0] == Conversion(zero, width, c)
    ensures c != 's' && c != 'd' ==> Matches(ds[1..], args) && Render(ds, args) == ['%', c] + Render(ds[1..], args)
    ensures c == 's' || c == 'd' ==>
              && args != [] && Suits(ds[0], args[0]) && Matches(ds[1..], args[1..])
              && Render(ds, args) == RenderArgument(ds[0], args[0]) + Render(ds[1..], args[1..])
  {
    hide Render, Matches, RenderArgument, Suits;
    RenderFirst(ds, args);
  }

  lemma NextArgument(args: seq<Argument>, a: nat)
    requires a < |args|
    ensures args[a..][0] == args[a] && args[a..][1..] == args[a + 1..]
  {
  }

  lemma Advance(done: string, next: string, rest: string, full: string)
    requires done + (next + rest) == full
    ensures (done + next) + rest == full && |done| + |next| <= |full|
  {
  }

  lemma NothingLeft(args: seq<Argument>)
    ensures Parse("") == [] && Matches([], args) && Render([], args) == ""
  {
  }

  /** A plain character or a doubled percent sign renders as itself. */
  lemma RenderPlain(fmt: string, i: nat, args: seq<Argument>)
    requires i < |fmt| && (fmt[i] == '%' ==> i + 1 < |fmt| && fmt[i + 1] == '%')
    requires Matches(Parse(fmt[i..]), args)
    ensures var rest := Parse(fmt[if fmt[i] == '%' then i + 2 else i + 1..]);
            Matches(rest, args) && Render(Parse(fmt[i..]), args) == [fmt[i]] + Render(rest, args)
  {
    hide Matches, Render;
    assert fmt[i..][1..] == fmt[i + 1..];
    if i + 1 < |fmt| {
      assert fmt[i..][2..] == fmt[i + 2..];
    }
    RenderFirst(Parse(fmt[i..]), args);
  }

  function Padded(magnitude: nat, width: nat, padding: char): string {
    Fill(padding, width - |Digits(magnitude)|) + Digits(magnitude)
  }

  lemma Negated(value: int)
    requires -0x8000_0000 <= value < 0
    ensures (0 - value % U32_MODULUS) % U32_MODULUS == -value
  {
    assert value % U32_MODULUS == value + U32_MODULUS;
  }

  lemma DecimalParts(value: int, width: nat, rest: nat, magnitude: nat, padding: char)
    requires magnitude == Magnitude(value)
    requires rest == if value < 0 && width > 0 then width - 1 else width
    ensures Decimal(value, width, padding) == (if value < 0 then "-" else "") + Padded(magnitude, rest, padding)
  {
  }

  lemma {:induction false} ReversedAppend(s: string, c: char)
    ensures Reversed(s + [c]) == [c] + Reversed(s)
  {
    if s != "" {
      ReversedAppend(s[1..], c);
      assert (s + [c])[1..] == s[1..] + [c];
    }
  }

  /** The digits of a number in an array of eleven characters, the least significant first. */
  method CollectDigits(magnitude: nat) returns (digits: array<char>, count: nat)
    requires magnitude < U32_MODULUS
    ensures fresh(digits) && count == |Digits(magnitude)| <= digits.Length
    ensures Reversed(digits[..count]) == Digits(magnitude)
  {
    hide Digits, Reversed, WidthDigits;
    DigitsFit(magnitude, 10);
    digits := new char[11];
    digits[0] := DigitChar(magnitude % 10);
    count := 1;
    var rest: nat := magnitude / 10;
    FirstCollected(magnitude);
    assert digits[..1] == [digits[0]];
    while rest != 0
      invariant 1 <= count <= 10 && digits.Length == 11 && fresh(digits)
      invariant Digits(magnitude) == WidthDigits(rest) + Reversed(digits[..count])
      decreases rest
    {
      OneMore(rest, digits[..count]);
      digits[count] := DigitChar(rest % 10);
      assert digits[..count + 1] == digits[..count] + [digits[count]];
      rest := rest / 10;
      count := count + 1;
    }
    NoneAbove();
  }

  lemma FirstCollected(n: nat)
    ensures Digits(n) == WidthDigits(n / 10) + Reversed([DigitChar(n % 10)])
  {
    ReversedAppend("", DigitChar(n % 10));
    assert "" + [DigitChar(n % 10)] == [DigitChar(n % 10)];
  }

  /** The next digit is collected: the number above it loses it. */
  lemma OneMore(rest: nat, collected: string)
    requires rest != 0
    ensures WidthDigits(rest) + Reversed(collected)
         == WidthDigits(rest / 10) + Reversed(collected + [DigitChar(rest % 10)])
    ensures WidthDigits(rest) != ""
  {
    hide Reversed;
    ReversedAppend(collected, DigitChar(rest % 10));
    assert WidthDigits(rest) == WidthDigits(rest / 10) + [DigitChar(rest % 10)];
  }

  lemma NoneAbove()
    ensures WidthDigits(0) == ""
  {
  }

  // ----- formatting

  lemma RenderFirst(ds: seq<Directive>, args: seq<Argument>)
    requires ds != [] && Matches(ds, args)
    ensures !Takes(ds[0]) ==> Matches(ds[1..], args) && Render(ds, args) == RenderFixed(ds[0]) + Render(ds[1..], args)
    ensures Takes(ds[0]) ==> args != [] && Suits(ds[0], args[0]) && Matches(ds[1..], args[1..])
                             && Render(ds, args) == RenderArgument(ds[0], args[0]) + Render(ds[1..], args[1..])
  {
  }

  /** The width read so far, in 32 unsigned bits. */
  lemma WidthStep(s: string, c: char)
    requires AllDigits(s) && IsDigit(c)
    ensures AllDigits(s + [c]) && Width(s + [c]) == (10 * Width(s) + DigitOf(c)) % U32_MODULUS
  {
    assert (s + [c])[..|s|] == s;
    assert Value(s + [c]) == 10 * Value(s) + DigitOf(c);
    WidthWraps(Value(s), DigitOf(c));
  }

  lemma WidthWraps(v: nat, d: nat)
    ensures (10 * v + d) % U32_MODULUS == (10 * (v % U32_MODULUS) + d) % U32_MODULUS
  {
    var q, low := v / U32_MODULUS, v % U32_MODULUS;
    Multiples(10 * q, 10 * low + d);
    assert v == U32_MODULUS * q + low;
  }

  lemma Multiples(x: nat, y: nat)
    ensures (U32_MODULUS * x + y) % U32_MODULUS == y % U32_MODULUS
  {
  }

  /** The width at `start`, and the place behind its digits. */
  method ReadWidth(fmt: string, start: nat) returns (width: nat, i: nat)
    requires start <= |fmt|
    ensures i == start + DigitCount(fmt[start..]) && AllDigits(fmt[start..i]) && width == Width(fmt[start..i])
  {
    hide Width, Value;
    ghost var s := fmt[start..];
    i := start;
    width := 0;
    EmptyWidth();
    assert fmt[start..start] == "";
    while i < |fmt| && IsDigit(fmt[i])
      invariant start <= i <= start + DigitCount(s) && AllDigits(fmt[start..i]) && width == Width(fmt[start..i])
    {
      assert s[i - start] == fmt[i];
      WidthStep(fmt[start..i], fmt[i]);
      assert fmt[start..i] + [fmt[i]] == fmt[start..i + 1];
      width := (width * 10 + DigitOf(fmt[i])) % U32_MODULUS;
      i := i + 1;
    }
    DigitInRun(s, i - start);
  }

  lemma DigitInRun(s: string, k: nat)
    ensures k < DigitCount(s) ==> IsDigit(s[k])
  {
    if k < DigitCount(s) {
      assert s[k] == s[..DigitCount(s)][k];
    }
  }

  lemma EmptyWidth()
    ensures Width("") == 0
  {
    assert Value("") == 0;
  }

  /** Flag and width of the conversion whose '%' stands at `start`, and the place of its conversion character. */
  method ReadConversion(fmt: string, start: nat) returns (zero: bool, width: nat, i: nat)
    requires start < |fmt| && fmt[start] == '%' && !(start + 1 < |fmt| && fmt[start + 1] == '%')
    ensures start < i <= |fmt|
    ensures Parse(fmt[start..])
         == if i == |fmt| then [] else [Conversion(zero, width, fmt[i])] + Parse(fmt[i + 1..])
  {
    hide Width, Value;
    zero := start + 1 < |fmt| && fmt[start + 1] == '0';
    var first := if zero then start + 2 else start + 1;
    width, i := ReadWidth(fmt, first);
    ParseAt(fmt, start, zero, first, i);
  }

  lemma ParseAt(fmt: string, start: nat, zero: bool, first: nat, i: nat)
    requires start < |fmt| && fmt[start] == '%' && !(start + 1 < |fmt| && fmt[start + 1] == '%')
    requires zero == (start + 1 < |fmt| && fmt[start + 1] == '0') && first == (if zero then start + 2 else start + 1)
    requires i == first + DigitCount(fmt[first..]) && AllDigits(fmt[first..i])
    ensures Parse(fmt[start..])
         == if i == |fmt| then [] else [Conversion(zero, Width(fmt[first..i]), fmt[i])] + Parse(fmt[i + 1..])
  {
    hide Width, AllDigits, DigitCount, Parse;
    var rest := fmt[start..];
    var s := fmt[first..];
    assert rest[1..] == fmt[start + 1..];
    assert (if zero then rest[2..] else rest[1..]) == s;
    ParsePercent(rest);
    assert s[..i - first] == fmt[first..i];
    if i < |fmt| {
      assert s[i - first + 1..] == fmt[i + 1..];
    }
  }

  lemma ParsePercent(rest: string)
    requires rest != "" && rest[0] == '%' && !(|rest| > 1 && rest[1] == '%')
    ensures var zero := ZeroFlag(rest[1..]); Parse(rest) == ParseFlagged(zero, if zero then rest[2..] else rest[1..])
  {
    hide ParseFlagged;
  }

  /** What is left of a buffer: the rendering cut off to leave room for a terminator, and the terminator. */
  function Bounded(before: string, full: string, capacity: nat): string
    requires capacity <= |before| || |full| < |before|
  {
    if capacity == 0 then before
    else
      var k := if |full| < capacity then |full| else capacity - 1;
      full[..k] + ['\0'] + before[k + 1..]
  }

  /** Character by character: the rendering as far as it leaves room for a terminator, the terminator, the rest. */
  lemma BoundedIs(before: string, full: string, capacity: nat, k: nat)
    requires capacity <= |before| || |full| < |before|
    requires k < |before|
    ensures |Bounded(before, full, capacity)| == |before|
    ensures Bounded(before, full, capacity)[k]
         == if k < |full| && k + 1 < capacity then full[k]
            else if k < capacity && (k == |full| || k + 1 == capacity) && k <= |full| then '\0'
            else before[k]
  {
  }

  /** snprintf: the length of the full rendering, and as much of it as fits. */
  method Snprintf(buffer: array<char>, capacity: nat, fmt: string, args: seq<Argument>) returns (result: int)
    requires capacity < U32_MODULUS && '\0' !in fmt && Matches(Parse(fmt), args)
    requires |Render(Parse(fmt), args)| < U32_MODULUS
    requires capacity <= buffer.Length || |Render(Parse(fmt), args)| < buffer.Length
    modifies buffer
    ensures result == IntCast(|Render(Parse(fmt), args)|)
    ensures buffer[..] == Bounded(old(buffer[..]), Render(Parse(fmt), args), capacity)
  {
    hide Render, Parse, Matches, IntCast, Bounded;
    ghost var full := Render(Parse(fmt), args);
    var output := new FormatOutput(buffer, capacity);
    var i, a := 0, 0;
    assert fmt[0..] == fmt && args[0..] == args;
    while i < |fmt|
      invariant 0 <= i <= |fmt| && 0 <= a <= |args| && Matches(Parse(fmt[i..]), args[a..]) && output.Valid()
      invariant output.rendered + Render(Parse(fmt[i..]), args[a..]) == full
    {
      i, a := output.EmitNext(fmt, i, args, a, full);
    }
    assert fmt[i..] == "";
    NothingLeft(args[a..]);
    assert output.rendered == full;
    output.Terminate();
    result := IntCast(output.length);
  }
}
