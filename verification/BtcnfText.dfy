/** The text form of a boot configuration: one line per module, after a line for the devkit word. */
module BtcnfText {
  import opened Bytes

  /** Load directives, in the order in which the builder groups modules. */
  datatype Directive = Plain | Dollar | Percent | DollarPercent | PercentPercent | DollarPercentPercent

  datatype ModuleRecord = ModuleRecord(directive: Directive, path: string, runlevels: nat)

  datatype Result<+T> = Success(value: T) | Failure {
    predicate IsFailure() { Failure? }
    function PropagateFailure<U>(): Result<U> requires Failure? { Failure }
    function Extract(): T requires Success? { value }
  }

  function Order(d: Directive): nat {
    match d
    case Plain => 0
    case Dollar => 1
    case Percent => 2
    case DollarPercent => 3
    case PercentPercent => 4
    case DollarPercentPercent => 5
  }

  function Prefix(d: Directive): string {
    match d
    case Plain => ""
    case Dollar => "$"
    case Percent => "%"
    case DollarPercent => "$%"
    case PercentPercent => "%%"
    case DollarPercentPercent => "$%%"
  }

  function LoadMode(d: Directive): nat {
    match d
    case Plain => 1
    case Dollar => 0x8001
    case Percent => 2
    case DollarPercent => 0x8002
    case PercentPercent => 4
    case DollarPercentPercent => 0x8004
  }

  /** The load mode above the runlevels, which fit 16 bits. */
  function Flags(r: ModuleRecord): nat {
    LoadMode(r.directive) * 0x1_0000 + r.runlevels
  }

  /** Takes the longest directive off the front of a token, dollar forms first. */
  function SplitToken(token: string): (r: (Directive, string))
    ensures Prefix(r.0) + r.1 == token
  {
    if "$%%" <= token then (DollarPercentPercent, token[3..])
    else if "$%" <= token then (DollarPercent, token[2..])
    else if "$" <= token then (Dollar, token[1..])
    else if "%%" <= token then (PercentPercent, token[2..])
    else if "%" <= token then (Percent, token[1..])
    else (Plain, token)
  }

  lemma SplitJoined(d: Directive, path: string)
    requires "/" <= path
    ensures SplitToken(Prefix(d) + path) == (d, path)
  {
    var t := Prefix(d) + path;
    assert t[|Prefix(d)|] == '/';
    assert t[|Prefix(d)|..] == path;
  }

  // ----- runlevels

  const LETTERS := "VGUPLAEM"

  function Flag(k: nat): nat
    requires k < 8
  {
    [0x01, 0x02, 0x04, 0x08, 0x10, 0x20, 0x40, 0x80][k]
  }

  /** Two to the power `k`. */
  function Span(k: nat): (p: nat)
    requires k <= 8
    ensures p > 0
  {
    if k == 8 then 256 else Flag(k)
  }

  /** Whether `v` has mode flag `k`, which lies in the low byte. */
  predicate Bit(v: nat, k: nat)
    requires k < 8
  {
    v % 256 / Flag(k) % 2 == 1
  }

  /** The letters of the runlevels in `v`, from the `k`-th mode on. */
  function ModeText(v: nat, k: nat): string
    requires k <= 8
    decreases 8 - k
  {
    if k == 8 then "" else (if Bit(v, k) then [LETTERS[k]] else "") + ModeText(v, k + 1)
  }

  /** The runlevels whose letters occur in `text`, among the first `k` modes. */
  function Runlevels(text: string, k: nat): nat
    requires k <= 8
  {
    if k == 0 then 0 else Runlevels(text, k - 1) + if LETTERS[k - 1] in text then Flag(k - 1) else 0
  }

  lemma {:induction false} LetterInModeText(v: nat, k: nat, j: nat)
    requires k <= 8 && j < 8
    ensures LETTERS[j] in ModeText(v, k) <==> k <= j && Bit(v, j)
    decreases 8 - k
  {
    hide Bit;
    if k < 8 {
      LetterInModeText(v, k + 1, j);
      LettersDistinct(k, j);
    }
  }

  lemma LettersDistinct(j: nat, k: nat)
    requires j < 8 && k < 8
    ensures LETTERS[j] == LETTERS[k] ==> j == k
  {
  }

  lemma {:induction false} ModeTextLetters(v: nat, k: nat)
    requires k <= 8
    ensures forall c :: c in ModeText(v, k) ==> c in LETTERS
    decreases 8 - k
  {
    hide Bit;
    if k < 8 {
      ModeTextLetters(v, k + 1);
    }
  }

  /** The first `k` bits of `v`. */
  lemma {:induction false} RunlevelsOfModeText(v: nat, k: nat)
    requires k <= 8 && v < 256
    ensures Runlevels(ModeText(v, 0), k) == v % Span(k)
  {
    hide Bit, ModeText, Flag;
    if k > 0 {
      RunlevelsOfModeText(v, k - 1);
      LetterInModeText(v, 0, k - 1);
      LowBits(v, k);
    } else {
      assert Span(0) == 1 by {
        FirstFlag();
      }
    }
  }

  lemma FirstFlag()
    ensures Flag(0) == 1
  {
  }

  lemma LowBits(v: nat, k: nat)
    requires 1 <= k <= 8 && v < 256
    ensures v % Span(k)
            == v % Span(k - 1) + if Bit(v, k - 1) then Flag(k - 1) else 0
  {
    hide Bit;
    BitValue(v, k - 1);
    if k <= 4 {
      LowerBits(v);
    } else {
      UpperBits(v);
    }
  }

  lemma BitValue(v: nat, k: nat)
    requires k < 8 && v < 256
    ensures Bit(v, k) <==> v / Flag(k) % 2 == 1
  {
    assert v % 256 == v;
  }

  lemma LowerBits(v: nat)
    ensures v % 1 == 0
    ensures v % 2 == v / 1 % 2 && v % 4 == v % 2 + 2 * (v / 2 % 2)
    ensures v % 8 == v % 4 + 4 * (v / 4 % 2) && v % 16 == v % 8 + 8 * (v / 8 % 2)
  {
    Bit1(v);
    Bit2(v);
    Bit3(v);
  }

  lemma Bit1(v: nat)
    ensures v % 4 == v % 2 + 2 * (v / 2 % 2)
  {
    var q, r := v / 4, v % 4;
    assert v == 4 * q + r;
    assert v / 2 == 2 * q + r / 2;
  }

  lemma Bit2(v: nat)
    ensures v % 8 == v % 4 + 4 * (v / 4 % 2)
  {
  }

  lemma Bit3(v: nat)
    ensures v % 16 == v % 8 + 8 * (v / 8 % 2)
  {
  }

  lemma UpperBits(v: nat)
    ensures v % 32 == v % 16 + 16 * (v / 16 % 2) && v % 64 == v % 32 + 32 * (v / 32 % 2)
    ensures v % 128 == v % 64 + 64 * (v / 64 % 2) && v % 256 == v % 128 + 128 * (v / 128 % 2)
  {
    Bit4(v);
    Bit5(v);
    Bit6(v);
    Bit7(v);
  }

  lemma Bit4(v: nat)
    ensures v % 32 == v % 16 + 16 * (v / 16 % 2)
  {
  }

  lemma Bit5(v: nat)
    ensures v % 64 == v % 32 + 32 * (v / 32 % 2)
  {
  }

  lemma Bit6(v: nat)
    ensures v % 128 == v % 64 + 64 * (v / 64 % 2)
  {
  }

  lemma Bit7(v: nat)
    ensures v % 256 == v % 128 + 128 * (v / 128 % 2)
  {
  }

  // ----- hexadecimal

  function HexDigit(d: nat): char
    requires d < 16
  {
    "0123456789ABCDEF"[d]
  }

  function DigitValue(c: char): Option<nat> {
    if '0' <= c <= '9' then Some(c as nat - '0' as nat)
    else if 'a' <= c <= 'f' then Some(c as nat - 'a' as nat + 10)
    else if 'A' <= c <= 'F' then Some(c as nat - 'A' as nat + 10)
    else None
  }

  /** Exactly `n` uppercase digits, most significant first. */
  function HexDigits(v: nat, n: nat): (s: string)
    ensures |s| == n
  {
    if n == 0 then "" else HexDigits(v / 16, n - 1) + [HexDigit(v % 16)]
  }

  /** As many uppercase digits as `v` has. */
  function Hex(v: nat): string {
    if v < 16 then [HexDigit(v)] else Hex(v / 16) + [HexDigit(v % 16)]
  }

  /** Digits with single underscores between them; `need` says that a digit must follow. */
  function ParseDigits(s: string, sum: nat, need: bool): Option<nat> {
    if s == "" then if need then None else Some(sum)
    else if s[0] == '_' then if need then None else ParseDigits(s[1..], sum, true)
    else if DigitValue(s[0]).None? then None
    else ParseDigits(s[1..], 16 * sum + DigitValue(s[0]).value, false)
  }

  /** int(s, 16): an optional sign, an optional 0x that an underscore may follow, digits. */
  function ParseHex(s: string): Option<int> {
    var negative := "-" <= s;
    var t := if negative || "+" <= s then s[1..] else s;
    var u := if "0x" <= t || "0X" <= t then if |t| > 2 && t[2] == '_' then t[3..] else t[2..] else t;
    match ParseDigits(u, 0, true)
    case None => None
    case Some(v) => Some(if negative then -(v as int) else v)
  }

  function Power16(n: nat): nat {
    if n == 0 then 1 else 16 * Power16(n - 1)
  }

  lemma {:induction false} ParseAppended(s: string, d: nat, sum: nat, need: bool)
    requires d < 16 && (s == "" || ParseDigits(s, sum, need).Some?)
    ensures ParseDigits(s + [HexDigit(d)], sum, need)
            == Some(16 * (if s == "" then sum else ParseDigits(s, sum, need).value) + d)
    decreases |s|
  {
    assert DigitValue(HexDigit(d)) == Some(d) && HexDigit(d) != '_';
    var t := s + [HexDigit(d)];
    if s == "" {
      assert t[1..] == "";
    } else {
      assert t[1..] == s[1..] + [HexDigit(d)] && t[0] == s[0];
      if s[1..] == "" {
        if s[0] == '_' {
        } else {
          ParseAppended(s[1..], d, 16 * sum + DigitValue(s[0]).value, false);
        }
      } else if s[0] == '_' {
        ParseAppended(s[1..], d, sum, true);
      } else {
        ParseAppended(s[1..], d, 16 * sum + DigitValue(s[0]).value, false);
      }
    }
  }

  lemma {:induction false} ParseHexDigits(v: nat, n: nat)
    requires v < Power16(n) && n > 0
    ensures ParseDigits(HexDigits(v, n), 0, true) == Some(v)
  {
    if n == 1 {
      ParseAppended("", v, 0, true);
      assert HexDigits(v, 1) == "" + [HexDigit(v)];
    } else {
      ParseHexDigits(v / 16, n - 1);
      ParseAppended(HexDigits(v / 16, n - 1), v % 16, 0, true);
    }
  }
}
