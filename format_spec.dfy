/**
 * The format-spec recogniser of 3_ecosystem/3_4_regex_parsing/src/main.rs:
 * the inline PEG grammar for the `{:...}` specification of Rust's format
 * strings, the pest parse tree it yields, and the walk over that tree that
 * extracts sign, width and precision.
 *
 * Every grammar rule is a matcher on the remaining input that returns how
 * many characters it consumes (None when it fails). PEG choice is ordered
 * and `e?` and `e*` are greedy and never give back what they consumed.
 */
module FormatSpecs {
  import opened Wrappers

  /** usize on a 64-bit target. */
  const USIZE_LIMIT: int := 0x1_0000_0000_0000_0000

  type Usize = x: int | 0 <= x < USIZE_LIMIT

  datatype Sign = Plus | Minus

  datatype Precision = Integer(n: Usize) | Argument(n: Usize) | Asterisk

  predicate IsAsciiDigit(c: char) {
    '0' <= c <= '9'
  }

  predicate IsAsciiAlpha(c: char) {
    'a' <= c <= 'z' || 'A' <= c <= 'Z'
  }

  predicate IsAsciiAlphanumeric(c: char) {
    IsAsciiDigit(c) || IsAsciiAlpha(c)
  }

  predicate IsAlign(c: char) {
    c == '<' || c == '^' || c == '>'
  }

  predicate AllDigits(s: string) {
    forall k :: 0 <= k < |s| ==> IsAsciiDigit(s[k])
  }

  /** How each sign is written. */
  function SignText(sign: Sign): string {
    match sign
    case Plus => "+"
    case Minus => "-"
  }

  /** `FromStr for Sign`: exactly the strings "-" and "+" are signs. */
  function SignFromStr(s: string): (r: Result<Sign, Unit>)
    ensures r.Ok? <==> s == "-" || s == "+"
    ensures r.Ok? ==> SignText(r.value) == s
  {
    if s == "-" then Ok(Minus) else if s == "+" then Ok(Plus) else Err(Unit)
  }

  function DigitValue(c: char): nat
    requires IsAsciiDigit(c)
  {
    c as int - '0' as int
  }

  function DigitChar(d: nat): (c: char)
    requires d < 10
    ensures IsAsciiDigit(c) && DigitValue(c) == d
  {
    ('0' as int + d) as char
  }

  /** The number that a string of decimal digits denotes, most significant digit first. */
  function DigitsValue(s: string): nat
    requires AllDigits(s)
  {
    if s == [] then 0 else 10 * DigitsValue(s[..|s| - 1]) + DigitValue(s[|s| - 1])
  }

  /** The decimal spelling of `n`, without sign or leading zeros. */
  function Decimal(n: nat): (s: string)
    ensures s != [] && AllDigits(s)
    ensures n > 0 ==> s[0] != '0'
    ensures DigitsValue(s) == n
  {
    if n < 10 then [DigitChar(n)]
    else
      var s := Decimal(n / 10) + [DigitChar(n % 10)];
      assert s[..|s| - 1] == Decimal(n / 10);
      s
  }

  /**
   * `FromStr for usize`: an optional `+` followed by one or more ASCII
   * digits whose value fits in 64 bits; anything else, the empty string and
   * a lone `+` included, is an error.
   */
  function ParseUsize(s: string): (r: Result<Usize, Unit>)
    ensures r.Ok? ==> s != [] && (s[0] == '+' || IsAsciiDigit(s[0]))
  {
    var digits := if s != [] && s[0] == '+' then s[1..] else s;
    if digits == [] || !AllDigits(digits) then Err(Unit)
    else if DigitsValue(digits) < USIZE_LIMIT then Ok(DigitsValue(digits))
    else Err(Unit)
  }

  /** A leading zero does not change the value of a digit string. */
  lemma {:induction false} DigitsValueLeadingZero(s: string)
    requires AllDigits(s)
    ensures AllDigits(['0'] + s) && DigitsValue(['0'] + s) == DigitsValue(s)
    decreases |s|
  {
    var z := ['0'] + s;
    if s != [] {
      assert z[..|z| - 1] == ['0'] + s[..|s| - 1];
      DigitsValueLeadingZero(s[..|s| - 1]);
    } else {
      assert z[..|z| - 1] == [];
    }
  }

  /** Parsing reads back every number in range from its decimal spelling, also after a `+` or a leading zero. */
  lemma ParseUsizeDecimal(n: Usize)
    ensures ParseUsize(Decimal(n)) == Ok(n)
    ensures ParseUsize("+" + Decimal(n)) == Ok(n)
    ensures ParseUsize("0" + Decimal(n)) == Ok(n)
  {
    assert ("+" + Decimal(n))[1..] == Decimal(n);
    DigitsValueLeadingZero(Decimal(n));
  }

  /** A minus sign, an empty string and a lone `+` are not numbers. */
  lemma ParseUsizeRejects(s: string)
    ensures ParseUsize("") == Err(Unit) && ParseUsize("+") == Err(Unit)
    ensures ParseUsize("-" + s) == Err(Unit)
  {
    assert ("-" + s)[0] == '-';
  }

  /** `str::trim_start_matches('0')`. */
  function TrimZeros(s: string): (r: string)
    ensures |r| <= |s|
    ensures r != [] ==> r[0] != '0'
  {
    if s != [] && s[0] == '0' then TrimZeros(s[1..]) else s
  }

  /** What trim_start_matches('0') keeps is a suffix, and all it drops are zeros. */
  lemma {:induction false} TrimZerosSuffix(s: string)
    ensures TrimZeros(s) == s[|s| - |TrimZeros(s)|..]
    ensures forall k :: 0 <= k < |s| - |TrimZeros(s)| ==> s[k] == '0'
  {
    if s != [] && s[0] == '0' {
      TrimZerosSuffix(s[1..]);
      assert s[1..][|s| - 1 - |TrimZeros(s)|..] == s[|s| - |TrimZeros(s)|..];
      forall k | 0 < k < |s| - |TrimZeros(s)|
        ensures s[k] == '0'
      {
        assert s[k] == s[1..][k - 1];
      }
    }
  }

  /** The string Precision::from_str reads each precision back from. */
  function PrecisionText(p: Precision): string {
    match p
    case Integer(n) => Decimal(n)
    case Argument(n) => Decimal(n) + "$"
    case Asterisk => "*"
  }

  /**
   * `FromStr for Precision`: "*" is the asterisk; a string ending in `$`
   * names an argument by the number before the `$`, and any other string is
   * an integer; both numbers are parsed after their leading zeros are cut.
   */
  function PrecisionFromStr(s: string): (r: Result<Precision, Unit>)
    ensures r == Ok(Asterisk) <==> s == "*"
    ensures r.Ok? && r.value.Argument? ==> s != [] && s[|s| - 1] == '$'
    ensures r.Ok? && r.value.Integer? ==> s != [] && s[|s| - 1] != '$'
  {
    if s == "*" then Ok(Asterisk)
    else if s != [] && s[|s| - 1] == '$' then
      match ParseUsize(TrimZeros(s[..|s| - 1]))
      case Ok(n) => Ok(Argument(n))
      case Err(_) => Err(Unit)
    else
      match ParseUsize(TrimZeros(s))
      case Ok(n) => Ok(Integer(n))
      case Err(_) => Err(Unit)
  }

  /** `k` zero digits. */
  function Zeros(k: nat): (z: string)
    ensures |z| == k && forall i :: 0 <= i < k ==> z[i] == '0'
  {
    if k == 0 then [] else ['0'] + Zeros(k - 1)
  }

  /** A leading zero is cut like the others. */
  lemma TrimZerosCons(x: string)
    ensures TrimZeros(['0'] + x) == TrimZeros(x)
  {
    assert (['0'] + x)[1..] == x;
  }

  lemma {:induction false} TrimZerosPrefix(k: nat, s: string)
    requires s == [] || s[0] != '0'
    ensures TrimZeros(Zeros(k) + s) == s
    decreases k
  {
    if k > 0 {
      var rest := Zeros(k - 1) + s;
      assert Zeros(k) + s == ['0'] + rest;
      TrimZerosCons(rest);
      TrimZerosPrefix(k - 1, s);
    } else {
      assert Zeros(k) + s == s;
    }
  }

  /**
   * Every precision with a nonzero number is read back from its text, also
   * when the number is written with leading zeros.
   */
  lemma PrecisionRoundTrip(p: Precision, k: nat)
    requires !p.Asterisk? ==> p.n > 0
    ensures PrecisionFromStr(PrecisionText(p)) == Ok(p)
    ensures !p.Asterisk? ==> PrecisionFromStr(Zeros(k) + PrecisionText(p)) == Ok(p)
  {
    if !p.Asterisk? {
      assert Zeros(0) + PrecisionText(p) == PrecisionText(p);
      PrecisionWithZeros(p, 0);
      PrecisionWithZeros(p, k);
    }
  }

  lemma PrecisionWithZeros(p: Precision, k: nat)
    requires !p.Asterisk? && p.n > 0
    ensures PrecisionFromStr(Zeros(k) + PrecisionText(p)) == Ok(p)
  {
    if p.Argument? {
      ArgumentWithZeros(p.n, k);
    } else {
      IntegerWithZeros(p.n, k);
    }
  }

  lemma IntegerWithZeros(n: Usize, k: nat)
    requires n > 0
    ensures PrecisionFromStr(Zeros(k) + Decimal(n)) == Ok(Integer(n))
  {
    var d := Decimal(n);
    var z := Zeros(k) + d;
    assert z[|z| - 1] == d[|d| - 1];
    assert IsAsciiDigit(z[|z| - 1]);
    assert z != "*";
    TrimZerosPrefix(k, d);
    ParseUsizeDecimal(n);
  }

  lemma ArgumentWithZeros(n: Usize, k: nat)
    requires n > 0
    ensures PrecisionFromStr(Zeros(k) + (Decimal(n) + "$")) == Ok(Argument(n))
  {
    var d := Decimal(n);
    var z := Zeros(k) + (d + "$");
    var prefix := z[..|z| - 1];
    assert prefix == Zeros(k) + d;
    TrimZerosPrefix(k, d);
    ParseUsizeDecimal(n);
    ArgumentText(z, n);
  }

  /** Precision::from_str on a string ending in `$` whose number parses. */
  lemma ArgumentText(s: string, n: Usize)
    requires s != [] && s[|s| - 1] == '$' && ParseUsize(TrimZeros(s[..|s| - 1])) == Ok(n)
    ensures PrecisionFromStr(s) == Ok(Argument(n))
  {
    assert s != "*" by {
      assert "*"[0] != '$';
    }
  }

  /** A number of all zeros is cut down to nothing, so it is no precision at all. */
  lemma PrecisionAllZerosIsErr(k: nat)
    requires k > 0
    ensures PrecisionFromStr(Zeros(k)).Err?
    ensures PrecisionFromStr(Zeros(k) + "$").Err?
  {
    TrimZerosPrefix(k, "");
    assert Zeros(k) + "" == Zeros(k);
    assert (Zeros(k) + "$")[..k] == Zeros(k);
  }

  /** A digit string of value zero is all zeros. */
  lemma {:induction false} ZeroValueAllZeros(d: string)
    requires AllDigits(d) && DigitsValue(d) == 0
    ensures forall k :: 0 <= k < |d| ==> d[k] == '0'
    decreases |d|
  {
    if d != [] {
      var front := d[..|d| - 1];
      ZeroValueAllZeros(front);
      forall k | 0 <= k < |d|
        ensures d[k] == '0'
      {
        if k < |d| - 1 {
          assert d[k] == front[k];
        }
      }
    }
  }

  /** Cutting the leading zeros of a digit string keeps its value, and leaves nothing exactly when the value is zero. */
  lemma {:induction false} TrimZerosDigits(d: string)
    requires AllDigits(d)
    ensures AllDigits(TrimZeros(d)) && DigitsValue(TrimZeros(d)) == DigitsValue(d)
    ensures TrimZeros(d) == [] <==> DigitsValue(d) == 0
    decreases |d|
  {
    if d != [] && d[0] == '0' {
      assert d == ['0'] + d[1..];
      TrimZerosDigits(d[1..]);
      DigitsValueLeadingZero(d[1..]);
    } else if d != [] && DigitsValue(d) == 0 {
      ZeroValueAllZeros(d);
    }
  }

  /**
   * On a digit string Precision::from_str reads its value as an integer,
   * or, before a `$`, as an argument, except that a value of zero ("0",
   * "00", "0$"…) is refused: the zeros are cut and nothing is left to parse.
   */
  lemma PrecisionAsWrittenDigits(d: string)
    requires d != [] && AllDigits(d) && DigitsValue(d) < USIZE_LIMIT
    ensures PrecisionFromStr(d) == if DigitsValue(d) == 0 then Err(Unit) else Ok(Integer(DigitsValue(d)))
    ensures PrecisionFromStr(d + "$") == if DigitsValue(d) == 0 then Err(Unit) else Ok(Argument(DigitsValue(d)))
  {
    TrimZerosDigits(d);
    var a := d + "$";
    assert a[..|a| - 1] == d && a[|a| - 1] == '$';
    assert IsAsciiDigit(d[|d| - 1]) && IsAsciiDigit(d[0]);
    assert d != "*" && a != "*";
  }

  /**
   * Precision::from_str as evidently intended: the number is parsed as it
   * stands, since usize parsing already accepts leading zeros, so ".0" is
   * precision zero.
   */
  function PrecisionFromStrCorrected(s: string): (r: Result<Precision, Unit>)
    ensures r == Ok(Asterisk) <==> s == "*"
    ensures r.Ok? && r.value.Argument? ==> s != [] && s[|s| - 1] == '$'
    ensures r.Ok? && r.value.Integer? ==> s != [] && s[|s| - 1] != '$'
  {
    if s == "*" then Ok(Asterisk)
    else if s != [] && s[|s| - 1] == '$' then
      match ParseUsize(s[..|s| - 1])
      case Ok(n) => Ok(Argument(n))
      case Err(_) => Err(Unit)
    else
      match ParseUsize(s)
      case Ok(n) => Ok(Integer(n))
      case Err(_) => Err(Unit)
  }

  /** Leading zeros do not change the value of a digit string. */
  lemma {:induction false} ZerosDigitsValue(k: nat, d: string)
    requires AllDigits(d)
    ensures AllDigits(Zeros(k) + d) && DigitsValue(Zeros(k) + d) == DigitsValue(d)
    decreases k
  {
    if k > 0 {
      assert Zeros(k) + d == ['0'] + (Zeros(k - 1) + d);
      ZerosDigitsValue(k - 1, d);
      DigitsValueLeadingZero(Zeros(k - 1) + d);
    } else {
      assert Zeros(k) + d == d;
    }
  }

  /** The corrected parse reads a digit string's value for every value in range, zero included. */
  lemma PrecisionCorrectedDigits(d: string)
    requires d != [] && AllDigits(d) && DigitsValue(d) < USIZE_LIMIT
    ensures PrecisionFromStrCorrected(d) == Ok(Integer(DigitsValue(d)))
    ensures PrecisionFromStrCorrected(d + "$") == Ok(Argument(DigitsValue(d)))
  {
    var a := d + "$";
    assert a[..|a| - 1] == d && a[|a| - 1] == '$';
    assert IsAsciiDigit(d[|d| - 1]) && IsAsciiDigit(d[0]);
    assert d != "*" && a != "*";
  }

  /** The corrected parse reads every precision back from its text, zero included, also after leading zeros. */
  lemma PrecisionRoundTripCorrected(p: Precision, k: nat)
    ensures PrecisionFromStrCorrected(PrecisionText(p)) == Ok(p)
    ensures !p.Asterisk? ==> PrecisionFromStrCorrected(Zeros(k) + PrecisionText(p)) == Ok(p)
  {
    if !p.Asterisk? {
      var d := Decimal(p.n);
      ZerosDigitsValue(k, d);
      assert Zeros(k) + d != [] by {
        assert |Zeros(k) + d| >= |d|;
      }
      PrecisionCorrectedDigits(d);
      PrecisionCorrectedDigits(Zeros(k) + d);
      assert Zeros(k) + (d + "$") == (Zeros(k) + d) + "$";
    }
  }

  // The grammar. Each matcher returns the number of characters it consumes.

  /** The number of leading ASCII digits of `t`. */
  function LeadingDigits(t: string): (n: nat)
    ensures n <= |t| && (forall k :: 0 <= k < n ==> IsAsciiDigit(t[k]))
    ensures n < |t| ==> !IsAsciiDigit(t[n])
  {
    if t != [] && IsAsciiDigit(t[0]) then 1 + LeadingDigits(t[1..]) else 0
  }

  /** The number of leading ASCII letters and digits of `t`. */
  function LeadingAlphanumerics(t: string): (n: nat)
    ensures n <= |t| && (forall k :: 0 <= k < n ==> IsAsciiAlphanumeric(t[k]))
    ensures n < |t| ==> !IsAsciiAlphanumeric(t[n])
  {
    if t != [] && IsAsciiAlphanumeric(t[0]) then 1 + LeadingAlphanumerics(t[1..]) else 0
  }

  /** PEG ordered choice `a | b`: `b` is tried only if `a` fails. */
  function OrElse(a: Option<nat>, b: Option<nat>): Option<nat> {
    if a.Some? then a else b
  }

  /** What `e?` consumes when `e` yields `m`. */
  function Opt(m: Option<nat>): nat {
    if m.Some? then m.value else 0
  }

  /** A one-character literal. */
  function MatchChar(t: string, c: char): (r: Option<nat>)
    ensures r.Some? <==> t != [] && t[0] == c
    ensures r.Some? ==> r.value == 1
  {
    if t != [] && t[0] == c then Some(1) else None
  }

  /** A two-character literal. */
  function MatchPair(t: string, c: char, d: char): (r: Option<nat>)
    ensures r.Some? <==> |t| >= 2 && t[0] == c && t[1] == d
    ensures r.Some? ==> r.value == 2
  {
    if |t| >= 2 && t[0] == c && t[1] == d then Some(2) else None
  }

  /** identifier = (ASCII_ALPHA | "_") ~ ASCII_ALPHANUMERIC* */
  function MatchIdentifier(t: string): (r: Option<nat>)
    ensures r.Some? ==> 0 < r.value <= |t|
  {
    if t != [] && (IsAsciiAlpha(t[0]) || t[0] == '_') then Some(1 + LeadingAlphanumerics(t[1..])) else None
  }

  /** integer = ASCII_DIGIT+ */
  function MatchInteger(t: string): (r: Option<nat>)
    ensures r.Some? ==> 0 < r.value <= |t|
  {
    var n := LeadingDigits(t);
    if n == 0 then None else Some(n)
  }

  /** argument = identifier | integer */
  function MatchArgument(t: string): (r: Option<nat>)
    ensures r.Some? ==> 0 < r.value <= |t|
  {
    OrElse(MatchIdentifier(t), MatchInteger(t))
  }

  /** parameter = argument ~ "$" */
  function MatchParameter(t: string): (r: Option<nat>)
    ensures r.Some? ==> 0 < r.value <= |t|
  {
    match MatchArgument(t)
    case None => None
    case Some(n) => if n < |t| && t[n] == '$' then Some(n + 1) else None
  }

  /** count = parameter | integer */
  function MatchCount(t: string): (r: Option<nat>)
    ensures r.Some? ==> 0 < r.value <= |t|
  {
    OrElse(MatchParameter(t), MatchInteger(t))
  }

  /** fill_align = fill? ~ align, where fill = !align ~ ANY and align = "<" | "^" | ">" */
  function MatchFillAlign(t: string): (r: Option<nat>)
    ensures r.Some? ==> 0 < r.value <= |t|
  {
    var f := if t != [] && !IsAlign(t[0]) then 1 else 0;
    if f < |t| && IsAlign(t[f]) then Some(f + 1) else None
  }

  /** sign = "-" | "+" */
  function MatchSign(t: string): (r: Option<nat>)
    ensures r.Some? ==> 0 < r.value <= |t|
  {
    OrElse(MatchChar(t, '-'), MatchChar(t, '+'))
  }

  /** precision = count | "*" */
  function MatchPrecision(t: string): (r: Option<nat>)
    ensures r.Some? ==> 0 < r.value <= |t|
  {
    OrElse(MatchCount(t), MatchChar(t, '*'))
  }

  /** dot_precision = "." ~ precision */
  function MatchDotPrecision(t: string): (r: Option<nat>)
    ensures r.Some? ==> 1 < r.value <= |t|
  {
    if t != [] && t[0] == '.' then
      match MatchPrecision(t[1..])
      case None => None
      case Some(n) => Some(1 + n)
    else None
  }

  /** type = "?" | "x?" | "X?" | identifier */
  function MatchType(t: string): (r: Option<nat>)
    ensures r.Some? ==> 0 < r.value <= |t|
  {
    OrElse(MatchChar(t, '?'), OrElse(MatchPair(t, 'x', '?'), OrElse(MatchPair(t, 'X', '?'), MatchIdentifier(t))))
  }

  /** What is left of `t` after `e?`, where `e` yields `m`. */
  function After(t: string, m: Option<nat>): (r: string)
    requires m.Some? ==> m.value <= |t|
    ensures |r| <= |t|
  {
    t[Opt(m)..]
  }

  /** The rules that leave a pair in the parse tree. */
  datatype Rule = FormatSpecRule | FillAlignRule | SignRule | WidthRule | DotPrecisionRule | PrecisionRule | TypeRule

  /** A pest pair: the rule that matched, the text it matched, and the pairs of its sub-rules. */
  datatype Pair = Pair(rule: Rule, text: string, inner: seq<Pair>)

  /** The pair a rule leaves when it matched the first `m` characters of `t`. */
  function Token(rule: Rule, t: string, m: Option<nat>, inner: seq<Pair>): seq<Pair>
    requires m.Some? ==> m.value <= |t|
  {
    if m.Some? then [Pair(rule, t[..m.value], inner)] else []
  }

  /** The precision pair inside a dot_precision pair that matched the first `m` characters of `t`. */
  function PrecisionChild(t: string, m: Option<nat>): seq<Pair>
    requires m.Some? ==> 1 < m.value <= |t|
  {
    if m.Some? then [Pair(PrecisionRule, t[1..m.value], [])] else []
  }

  /** What is left of the input after each optional part of format_spec, in order. */
  datatype Rests = Rests(t1: string, t2: string, t3: string, t4: string, t5: string, t6: string, t7: string)

  /** The rests, each what remains of the one before after that part matched or was skipped. */
  function RestsOf(s: string): (r: Rests)
    ensures |r.t7| <= |s|
  {
    var t1 := After(s, MatchFillAlign(s));
    var t2 := After(t1, MatchSign(t1));
    var t3 := After(t2, MatchChar(t2, '#'));
    var t4 := After(t3, MatchChar(t3, '0'));
    var t5 := After(t4, MatchCount(t4));
    var t6 := After(t5, MatchDotPrecision(t5));
    var t7 := After(t6, MatchType(t6));
    Rests(t1, t2, t3, t4, t5, t6, t7)
  }

  /**
   * The sub-pairs of the format_spec pair: one for each of fill_align,
   * sign, width, dot_precision and type that matched ("#" and "0" are
   * literals and leave none), a dot_precision pair holding its precision.
   */
  function SpecPairs(s: string, r: Rests): seq<Pair> {
    Token(FillAlignRule, s, MatchFillAlign(s), []) + Token(SignRule, r.t1, MatchSign(r.t1), [])
      + Token(WidthRule, r.t4, MatchCount(r.t4), [])
      + Token(DotPrecisionRule, r.t5, MatchDotPrecision(r.t5), PrecisionChild(r.t5, MatchDotPrecision(r.t5)))
      + Token(TypeRule, r.t6, MatchType(r.t6), [])
  }

  /**
   * `FmtParser::parse(Rule::format_spec, input)` and its first pair:
   * format_spec = fill_align? ~ sign? ~ "#"? ~ "0"? ~ width? ~ dot_precision? ~ type?
   * Every part is optional and the rule is not anchored to the end of the
   * input, so the parse never fails; it matches a prefix of the input.
   */
  function FormatSpecParse(s: string): (p: Pair)
    ensures p.rule == FormatSpecRule && |p.text| <= |s| && p.text == s[..|p.text|]
  {
    var r := RestsOf(s);
    Pair(FormatSpecRule, s[..|s| - |r.t7|], SpecPairs(s, r))
  }

  /** The last of `pairs` with rule `rule`, if any. */
  function LastOf(pairs: seq<Pair>, rule: Rule): (r: Option<Pair>)
    ensures r.Some? ==> r.value in pairs && r.value.rule == rule
    ensures r.None? ==> forall k :: 0 <= k < |pairs| ==> pairs[k].rule != rule
  {
    if pairs == [] then None
    else if pairs[|pairs| - 1].rule == rule then Some(pairs[|pairs| - 1])
    else LastOf(pairs[..|pairs| - 1], rule)
  }

  /** The first of `pairs` with rule `rule`, if any. */
  function FirstOf(pairs: seq<Pair>, rule: Rule): (r: Option<Pair>)
    ensures r.Some? ==> r.value in pairs && r.value.rule == rule
    ensures r.None? ==> forall k :: 0 <= k < |pairs| ==> pairs[k].rule != rule
  {
    if pairs == [] then None
    else if pairs[0].rule == rule then Some(pairs[0])
    else FirstOf(pairs[1..], rule)
  }

  /** What parse_dot_precision reads from the sub-pairs of a dot_precision pair. */
  function DotPrecisionField(inner: seq<Pair>): Option<Precision> {
    match FirstOf(inner, PrecisionRule)
    case None => None
    case Some(p) => PrecisionFromStr(p.text).ToOption()
  }

  /** The sign, width and precision that the walk over the pairs `pairs` assigns last. */
  function SignField(pairs: seq<Pair>): Option<Sign> {
    match LastOf(pairs, SignRule)
    case None => None
    case Some(p) => SignFromStr(p.text).ToOption()
  }

  function WidthField(pairs: seq<Pair>): Option<Usize> {
    match LastOf(pairs, WidthRule)
    case None => None
    case Some(p) => ParseUsize(p.text).ToOption()
  }

  function PrecisionField(pairs: seq<Pair>): Option<Precision> {
    match LastOf(pairs, DotPrecisionRule)
    case None => None
    case Some(p) => DotPrecisionField(p.inner)
  }

  /** The triple parse_parser returns for `input`. */
  function Fields(input: string): (Option<Sign>, Option<Usize>, Option<Precision>) {
    var pairs := FormatSpecParse(input).inner;
    (SignField(pairs), WidthField(pairs), PrecisionField(pairs))
  }

  /** parse_dot_precision: the first precision sub-pair, parsed. */
  method ParseDotPrecision(entry: Pair) returns (r: Option<Precision>)
    ensures r == DotPrecisionField(entry.inner)
  {
    var i := 0;
    while i < |entry.inner|
      invariant 0 <= i <= |entry.inner|
      invariant FirstOf(entry.inner, PrecisionRule) == FirstOf(entry.inner[i..], PrecisionRule)
    {
      var item := entry.inner[i];
      assert entry.inner[i..][0] == item && entry.inner[i..][1..] == entry.inner[i + 1..];
      if item.rule == PrecisionRule {
        return PrecisionFromStr(item.text).ToOption();
      }
      i := i + 1;
    }
    return None;
  }

  /** parse_format_spec: the walk over the sub-pairs of the format_spec pair. */
  method ParseFormatSpec(entry: Pair) returns (sign: Option<Sign>, width: Option<Usize>, precision: Option<Precision>)
    ensures sign == SignField(entry.inner)
    ensures width == WidthField(entry.inner)
    ensures precision == PrecisionField(entry.inner)
  {
    sign, width, precision := None, None, None;
    var i := 0;
    while i < |entry.inner|
      invariant 0 <= i <= |entry.inner|
      invariant sign == SignField(entry.inner[..i])
      invariant width == WidthField(entry.inner[..i])
      invariant precision == PrecisionField(entry.inner[..i])
    {
      var item := entry.inner[i];
      assert entry.inner[..i + 1][..i] == entry.inner[..i];
      match item.rule {
        case SignRule => sign := SignFromStr(item.text).ToOption();
        case WidthRule => width := ParseUsize(item.text).ToOption();
        case DotPrecisionRule => precision := ParseDotPrecision(item);
        case _ =>
      }
      i := i + 1;
    }
    assert entry.inner[..i] == entry.inner;
  }

  /** parse_parser. The branch for a failed parse is unreachable, as FormatSpecParse shows. */
  method ParseParser(input: string) returns (sign: Option<Sign>, width: Option<Usize>, precision: Option<Precision>)
    ensures (sign, width, precision) == Fields(input)
  {
    var res := FormatSpecParse(input);
    sign, width, precision := ParseFormatSpec(res);
  }

  // What the walk reads from a parse tree shaped like the one format_spec yields.

  lemma {:induction false} LastOfAppend(a: seq<Pair>, b: seq<Pair>, rule: Rule)
    ensures LastOf(a + b, rule) == if LastOf(b, rule).Some? then LastOf(b, rule) else LastOf(a, rule)
    decreases |b|
  {
    if b == [] {
      assert a + b == a;
    } else {
      assert (a + b)[..|a + b| - 1] == a + b[..|b| - 1];
      LastOfAppend(a, b[..|b| - 1], rule);
    }
  }

  /** A token holds a pair of `rule` exactly when it is of that rule and matched. */
  lemma LastOfToken(tokenRule: Rule, t: string, m: Option<nat>, inner: seq<Pair>, rule: Rule)
    requires m.Some? ==> m.value <= |t|
    ensures LastOf(Token(tokenRule, t, m, inner), rule)
      == if m.Some? && tokenRule == rule then Some(Pair(tokenRule, t[..m.value], inner)) else None
  {
  }

  /** The sign read from format_spec's pairs is the text the sign rule matched, parsed. */
  lemma SignOfPairs(s: string, r: Rests)
    ensures SignField(SpecPairs(s, r))
      == match MatchSign(r.t1) case None => None case Some(n) => SignFromStr(r.t1[..n]).ToOption()
  {
    var fa, sg, w := Token(FillAlignRule, s, MatchFillAlign(s), []), Token(SignRule, r.t1, MatchSign(r.t1), []),
      Token(WidthRule, r.t4, MatchCount(r.t4), []);
    var dp := Token(DotPrecisionRule, r.t5, MatchDotPrecision(r.t5), PrecisionChild(r.t5, MatchDotPrecision(r.t5)));
    var ty := Token(TypeRule, r.t6, MatchType(r.t6), []);
    assert SpecPairs(s, r) == fa + sg + w + dp + ty;
    LastOfToken(FillAlignRule, s, MatchFillAlign(s), [], SignRule);
    LastOfToken(SignRule, r.t1, MatchSign(r.t1), [], SignRule);
    LastOfToken(WidthRule, r.t4, MatchCount(r.t4), [], SignRule);
    LastOfToken(DotPrecisionRule, r.t5, MatchDotPrecision(r.t5), PrecisionChild(r.t5, MatchDotPrecision(r.t5)), SignRule);
    LastOfToken(TypeRule, r.t6, MatchType(r.t6), [], SignRule);
    LastOfParts(fa, sg, w, dp, ty, SignRule);
  }

  /** The width read from format_spec's pairs is the text the width rule matched, parsed. */
  lemma WidthOfPairs(s: string, r: Rests)
    ensures WidthField(SpecPairs(s, r))
      == match MatchCount(r.t4) case None => None case Some(n) => ParseUsize(r.t4[..n]).ToOption()
  {
    var fa, sg, w := Token(FillAlignRule, s, MatchFillAlign(s), []), Token(SignRule, r.t1, MatchSign(r.t1), []),
      Token(WidthRule, r.t4, MatchCount(r.t4), []);
    var dp := Token(DotPrecisionRule, r.t5, MatchDotPrecision(r.t5), PrecisionChild(r.t5, MatchDotPrecision(r.t5)));
    var ty := Token(TypeRule, r.t6, MatchType(r.t6), []);
    assert SpecPairs(s, r) == fa + sg + w + dp + ty;
    LastOfToken(FillAlignRule, s, MatchFillAlign(s), [], WidthRule);
    LastOfToken(SignRule, r.t1, MatchSign(r.t1), [], WidthRule);
    LastOfToken(WidthRule, r.t4, MatchCount(r.t4), [], WidthRule);
    LastOfToken(DotPrecisionRule, r.t5, MatchDotPrecision(r.t5), PrecisionChild(r.t5, MatchDotPrecision(r.t5)), WidthRule);
    LastOfToken(TypeRule, r.t6, MatchType(r.t6), [], WidthRule);
    LastOfParts(fa, sg, w, dp, ty, WidthRule);
  }

  /** The precision read from format_spec's pairs is the text after the dot of dot_precision, parsed. */
  lemma PrecisionOfPairs(s: string, r: Rests)
    ensures PrecisionField(SpecPairs(s, r))
      == match MatchDotPrecision(r.t5) case None => None case Some(n) => PrecisionFromStr(r.t5[1..n]).ToOption()
  {
    var fa, sg, w := Token(FillAlignRule, s, MatchFillAlign(s), []), Token(SignRule, r.t1, MatchSign(r.t1), []),
      Token(WidthRule, r.t4, MatchCount(r.t4), []);
    var dp := Token(DotPrecisionRule, r.t5, MatchDotPrecision(r.t5), PrecisionChild(r.t5, MatchDotPrecision(r.t5)));
    var ty := Token(TypeRule, r.t6, MatchType(r.t6), []);
    assert SpecPairs(s, r) == fa + sg + w + dp + ty;
    LastOfToken(FillAlignRule, s, MatchFillAlign(s), [], DotPrecisionRule);
    LastOfToken(SignRule, r.t1, MatchSign(r.t1), [], DotPrecisionRule);
    LastOfToken(WidthRule, r.t4, MatchCount(r.t4), [], DotPrecisionRule);
    LastOfToken(DotPrecisionRule, r.t5, MatchDotPrecision(r.t5), PrecisionChild(r.t5, MatchDotPrecision(r.t5)), DotPrecisionRule);
    LastOfToken(TypeRule, r.t6, MatchType(r.t6), [], DotPrecisionRule);
    LastOfParts(fa, sg, w, dp, ty, DotPrecisionRule);
  }

  lemma LastOfParts(fa: seq<Pair>, sg: seq<Pair>, w: seq<Pair>, dp: seq<Pair>, ty: seq<Pair>, rule: Rule)
    ensures LastOf(fa + sg + w + dp + ty, rule)
      == if LastOf(ty, rule).Some? then LastOf(ty, rule)
         else if LastOf(dp, rule).Some? then LastOf(dp, rule)
         else if LastOf(w, rule).Some? then LastOf(w, rule)
         else if LastOf(sg, rule).Some? then LastOf(sg, rule)
         else LastOf(fa, rule)
  {
    LastOfAppend(fa + sg + w + dp, ty, rule);
    LastOfAppend(fa + sg + w, dp, rule);
    LastOfAppend(fa + sg, w, rule);
    LastOfAppend(fa, sg, rule);
  }

  // Rendering a format specification and reading it back.

  /** An identifier of the grammar, taking up the whole string. */
  predicate IsIdentifier(t: string) {
    t != [] && (IsAsciiAlpha(t[0]) || t[0] == '_') && forall k :: 1 <= k < |t| ==> IsAsciiAlphanumeric(t[k])
  }

  /** A type the grammar accepts, or none. */
  predicate IsType(t: string) {
    t == "" || t == "?" || t == "x?" || t == "X?" || IsIdentifier(t)
  }

  /** The parts of a format specification: fill and align, sign, the `#` and `0` flags, width, precision and type. */
  datatype Spec = Spec(fill: Option<char>, align: Option<char>, sign: Option<Sign>, alternate: bool, zero: bool,
                       width: Option<Usize>, precision: Option<Precision>, ty: string)

  /**
   * A specification whose text the grammar reads back part by part: a fill
   * only before an align and no align character as the fill, and a width
   * that is not 0 (a lone `0` is the zero flag).
   */
  predicate Renderable(sp: Spec) {
    && (sp.fill.Some? ==> sp.align.Some? && !IsAlign(sp.fill.value))
    && (sp.align.Some? ==> IsAlign(sp.align.value))
    && (sp.width.Some? ==> sp.width.value > 0)
    && IsType(sp.ty)
  }

  /**
   * A specification whose fields are read back from its text: renderable,
   * with a precision number that is not 0 (whose text Precision::from_str
   * cuts down to nothing).
   */
  predicate WellFormed(sp: Spec) {
    && Renderable(sp)
    && (sp.precision.Some? && !sp.precision.value.Asterisk? ==> sp.precision.value.n > 0)
  }

  function FillAlignText(sp: Spec): string {
    (if sp.fill.Some? then [sp.fill.value] else []) + (if sp.align.Some? then [sp.align.value] else [])
  }

  function SignPart(sp: Spec): string {
    if sp.sign.Some? then SignText(sp.sign.value) else ""
  }

  function WidthPart(sp: Spec): string {
    if sp.width.Some? then Decimal(sp.width.value) else ""
  }

  function PrecisionPart(sp: Spec): string {
    if sp.precision.Some? then "." + PrecisionText(sp.precision.value) else ""
  }

  function AlternatePart(sp: Spec): string {
    if sp.alternate then "#" else ""
  }

  function ZeroPart(sp: Spec): string {
    if sp.zero then "0" else ""
  }

  // The text from each part of a specification on.

  function FromPrecision(sp: Spec): string {
    PrecisionPart(sp) + sp.ty
  }

  function FromWidth(sp: Spec): string {
    WidthPart(sp) + FromPrecision(sp)
  }

  function FromZero(sp: Spec): string {
    ZeroPart(sp) + FromWidth(sp)
  }

  function FromAlternate(sp: Spec): string {
    AlternatePart(sp) + FromZero(sp)
  }

  function FromSign(sp: Spec): string {
    SignPart(sp) + FromAlternate(sp)
  }

  /** The text of a format specification, part after part. */
  function Render(sp: Spec): string {
    FillAlignText(sp) + FromSign(sp)
  }

  predicate NoAlign(s: string) {
    forall k :: 0 <= k < |s| ==> !IsAlign(s[k])
  }

  lemma {:induction false} LeadingDigitsOf(d: string, r: string)
    requires AllDigits(d) && (r == [] || !IsAsciiDigit(r[0]))
    ensures LeadingDigits(d + r) == |d|
    decreases |d|
  {
    if d == [] {
      assert d + r == r;
    } else {
      assert (d + r)[1..] == d[1..] + r;
      LeadingDigitsOf(d[1..], r);
    }
  }

  lemma {:induction false} LeadingAlphanumericsAll(t: string)
    requires forall k :: 0 <= k < |t| ==> IsAsciiAlphanumeric(t[k])
    ensures LeadingAlphanumerics(t) == |t|
    decreases |t|
  {
    if t != [] {
      LeadingAlphanumericsAll(t[1..]);
    }
  }

  /** What a type may begin with rules out every earlier part of the grammar. */
  lemma TypeStart(ty: string)
    requires IsType(ty)
    ensures NoAlign(ty)
    ensures ty != [] ==> !IsAsciiDigit(ty[0]) && ty[0] !in {'$', '.', '#', '-', '+', '*'}
  {
  }

  /** No count starts a type. */
  lemma CountOfType(ty: string)
    requires IsType(ty)
    ensures MatchCount(ty) == None
  {
    if IsIdentifier(ty) {
      LeadingAlphanumericsAll(ty[1..]);
    }
  }

  /** No count starts with a character that is no letter, digit or `_`. */
  lemma CountOfNonWord(r: string)
    requires r != [] && !IsAsciiAlphanumeric(r[0]) && r[0] != '_'
    ensures MatchCount(r) == None
  {
    assert LeadingDigits(r) == 0;
    assert MatchIdentifier(r) == None;
  }

  /** A count spelled as a decimal number is read to its end. */
  lemma CountOfDecimal(n: nat, r: string)
    requires r == [] || (!IsAsciiDigit(r[0]) && r[0] != '$')
    ensures MatchCount(Decimal(n) + r) == Some(|Decimal(n)|)
  {
    var d := Decimal(n);
    LeadingDigitsOf(d, r);
    assert (d + r)[0] == d[0];
    if r != [] {
      assert (d + r)[|d|] == r[0];
    }
  }

  /** A count spelled as an argument number and `$` is read to its end. */
  lemma CountOfParameter(n: nat, r: string)
    ensures MatchCount(Decimal(n) + ("$" + r)) == Some(|Decimal(n)| + 1)
  {
    var d := Decimal(n);
    LeadingDigitsOf(d, "$" + r);
    assert (d + ("$" + r))[0] == d[0];
    assert (d + ("$" + r))[|d|] == '$';
  }

  lemma PrecisionOfText(p: Precision, ty: string)
    requires IsType(ty)
    ensures MatchPrecision(PrecisionText(p) + ty) == Some(|PrecisionText(p)|)
  {
    TypeStart(ty);
    match p
    case Integer(n) =>
      CountOfDecimal(n, ty);
    case Argument(n) =>
      assert Decimal(n) + "$" + ty == Decimal(n) + ("$" + ty);
      CountOfParameter(n, ty);
    case Asterisk =>
      assert ("*" + ty)[0] == '*';
  }

  /** fill_align reads exactly the fill and align of a specification. */
  lemma FillAlignOfRender(sp: Spec, r: string)
    requires Renderable(sp) && NoAlign(r)
    ensures MatchFillAlign(FillAlignText(sp) + r) == if sp.align.Some? then Some(|FillAlignText(sp)|) else None
  {
    var t := FillAlignText(sp) + r;
    if sp.fill.Some? {
      assert t[0] == sp.fill.value && t[1] == sp.align.value;
    } else if sp.align.Some? {
      assert t[0] == sp.align.value;
    } else {
      assert t == r;
    }
  }

  lemma NoAlignConcat(a: string, b: string)
    requires NoAlign(a) && NoAlign(b)
    ensures NoAlign(a + b)
  {
    forall k | 0 <= k < |a + b|
      ensures !IsAlign((a + b)[k])
    {
      if k < |a| {
        assert (a + b)[k] == a[k];
      } else {
        assert (a + b)[k] == b[k - |a|];
      }
    }
  }

  lemma NoAlignWidth(sp: Spec)
    ensures NoAlign(WidthPart(sp))
  {
    if sp.width.Some? {
      assert AllDigits(WidthPart(sp));
    }
  }

  lemma NoAlignPrecision(sp: Spec)
    ensures NoAlign(PrecisionPart(sp))
  {
    if sp.precision.Some? {
      var p := sp.precision.value;
      if !p.Asterisk? {
        assert AllDigits(Decimal(p.n));
      }
      if p.Argument? {
        NoAlignConcat(Decimal(p.n), "$");
      }
      NoAlignConcat(".", PrecisionText(p));
    }
  }

  /** Nothing after fill and align is an align character. */
  lemma NoAlignAfterFillAlign(sp: Spec)
    requires Renderable(sp)
    ensures NoAlign(FromSign(sp))
  {
    TypeStart(sp.ty);
    NoAlignWidth(sp);
    NoAlignPrecision(sp);
    assert NoAlign(AlternatePart(sp)) && NoAlign(ZeroPart(sp)) && NoAlign(SignPart(sp));
    NoAlignConcat(PrecisionPart(sp), sp.ty);
    NoAlignConcat(WidthPart(sp), FromPrecision(sp));
    NoAlignConcat(ZeroPart(sp), FromWidth(sp));
    NoAlignConcat(AlternatePart(sp), FromZero(sp));
    NoAlignConcat(SignPart(sp), FromAlternate(sp));
  }

  /** What the text from the precision on may begin with. */
  lemma FromPrecisionStart(sp: Spec)
    requires Renderable(sp)
    ensures var t := FromPrecision(sp);
      t == [] || (!IsAsciiDigit(t[0]) && t[0] != '$' && t[0] != '#' && t[0] != '-' && t[0] != '+')
  {
    TypeStart(sp.ty);
    if sp.precision.None? {
      assert FromPrecision(sp) == sp.ty;
    } else {
      assert FromPrecision(sp)[0] == '.';
    }
  }

  /** What the text from the width on may begin with. */
  lemma FromWidthStart(sp: Spec)
    requires Renderable(sp)
    ensures var t := FromWidth(sp);
      t == [] || (t[0] != '0' && t[0] != '#' && t[0] != '-' && t[0] != '+')
  {
    FromPrecisionStart(sp);
    if sp.width.Some? {
      assert FromWidth(sp)[0] == WidthPart(sp)[0];
      assert IsAsciiDigit(FromWidth(sp)[0]);
    } else {
      assert FromWidth(sp) == FromPrecision(sp);
    }
  }

  /** What the text from the zero flag on may begin with. */
  lemma FromZeroStart(sp: Spec)
    requires Renderable(sp)
    ensures var t := FromZero(sp);
      t == [] || (t[0] != '#' && t[0] != '-' && t[0] != '+')
  {
    FromWidthStart(sp);
    if !sp.zero {
      assert FromZero(sp) == FromWidth(sp);
    }
  }

  /** What the text from the alternate flag on may begin with. */
  lemma FromAlternateStart(sp: Spec)
    requires Renderable(sp)
    ensures var t := FromAlternate(sp);
      t == [] || (t[0] != '-' && t[0] != '+')
  {
    FromZeroStart(sp);
    if !sp.alternate {
      assert FromAlternate(sp) == FromZero(sp);
    }
  }

  /** fill_align reads the fill and align, and leaves the text from the sign on. */
  lemma FillAlignStage(sp: Spec)
    requires Renderable(sp)
    ensures MatchFillAlign(Render(sp)) == if sp.align.Some? then Some(|FillAlignText(sp)|) else None
    ensures After(Render(sp), MatchFillAlign(Render(sp))) == FromSign(sp)
  {
    NoAlignAfterFillAlign(sp);
    FillAlignOfRender(sp, FromSign(sp));
  }

  /** sign reads the sign, and leaves the text from the alternate flag on. */
  lemma SignStage(sp: Spec)
    requires Renderable(sp)
    ensures MatchSign(FromSign(sp)) == if sp.sign.Some? then Some(1) else None
    ensures After(FromSign(sp), MatchSign(FromSign(sp))) == FromAlternate(sp)
    ensures sp.sign.Some? ==> FromSign(sp)[..1] == SignText(sp.sign.value)
  {
    FromAlternateStart(sp);
    if sp.sign.None? {
      assert FromSign(sp) == FromAlternate(sp);
    }
  }

  /** "#" is read when the flag is set, and leaves the text from the zero flag on. */
  lemma AlternateStage(sp: Spec)
    requires Renderable(sp)
    ensures After(FromAlternate(sp), MatchChar(FromAlternate(sp), '#')) == FromZero(sp)
  {
    FromZeroStart(sp);
    if !sp.alternate {
      assert FromAlternate(sp) == FromZero(sp);
    }
  }

  /** "0" is read when the flag is set, and leaves the text from the width on. */
  lemma ZeroStage(sp: Spec)
    requires Renderable(sp)
    ensures After(FromZero(sp), MatchChar(FromZero(sp), '0')) == FromWidth(sp)
  {
    FromWidthStart(sp);
    if !sp.zero {
      assert FromZero(sp) == FromWidth(sp);
    }
  }

  /** width reads the width, and leaves the text from the precision on. */
  lemma WidthStage(sp: Spec)
    requires Renderable(sp)
    ensures MatchCount(FromWidth(sp)) == if sp.width.Some? then Some(|WidthPart(sp)|) else None
    ensures After(FromWidth(sp), MatchCount(FromWidth(sp))) == FromPrecision(sp)
    ensures sp.width.Some? ==> FromWidth(sp)[..|WidthPart(sp)|] == WidthPart(sp)
  {
    var r := FromPrecision(sp);
    FromPrecisionStart(sp);
    if sp.width.Some? {
      CountOfDecimal(sp.width.value, r);
    } else {
      assert FromWidth(sp) == r;
      if sp.precision.Some? {
        assert r[0] == '.';
        CountOfNonWord(r);
      } else {
        assert r == sp.ty;
        CountOfType(sp.ty);
      }
    }
  }

  /** dot_precision reads the dot and precision, and leaves the type. */
  lemma PrecisionStage(sp: Spec)
    requires Renderable(sp)
    ensures MatchDotPrecision(FromPrecision(sp)) == if sp.precision.Some? then Some(|PrecisionPart(sp)|) else None
    ensures After(FromPrecision(sp), MatchDotPrecision(FromPrecision(sp))) == sp.ty
    ensures sp.precision.Some? ==> FromPrecision(sp)[1..|PrecisionPart(sp)|] == PrecisionText(sp.precision.value)
  {
    TypeStart(sp.ty);
    var t := FromPrecision(sp);
    if sp.precision.Some? {
      assert t == "." + (PrecisionText(sp.precision.value) + sp.ty);
      assert t[0] == '.' && t[1..] == PrecisionText(sp.precision.value) + sp.ty;
      PrecisionOfText(sp.precision.value, sp.ty);
    } else {
      assert t == sp.ty;
    }
  }

  /** Parsing a rendered specification leaves, after each part, the text of the parts that follow it. */
  lemma RestsOfRender(sp: Spec)
    requires Renderable(sp)
    ensures var r := RestsOf(Render(sp));
      && r.t1 == FromSign(sp) && r.t2 == FromAlternate(sp) && r.t3 == FromZero(sp)
      && r.t4 == FromWidth(sp) && r.t5 == FromPrecision(sp) && r.t6 == sp.ty
  {
    FillAlignStage(sp);
    SignStage(sp);
    AlternateStage(sp);
    ZeroStage(sp);
    WidthStage(sp);
    PrecisionStage(sp);
  }

  /** The sign of a well-formed specification is read back from its text. */
  lemma SignOfRender(sp: Spec)
    requires Renderable(sp)
    ensures SignField(FormatSpecParse(Render(sp)).inner) == sp.sign
  {
    var s := Render(sp);
    var r := RestsOf(s);
    RestsOfRender(sp);
    SignStage(sp);
    SignOfPairs(s, r);
    if sp.sign.Some? {
      var t := SignText(sp.sign.value);
      assert SignFromStr(t) == Ok(sp.sign.value) by {
        if sp.sign.value == Plus { assert t == "+"; } else { assert t == "-"; }
      }
    }
  }

  /** The width of a well-formed specification is read back from its text. */
  lemma WidthOfRender(sp: Spec)
    requires Renderable(sp)
    ensures WidthField(FormatSpecParse(Render(sp)).inner) == sp.width
  {
    var s := Render(sp);
    var r := RestsOf(s);
    RestsOfRender(sp);
    WidthStage(sp);
    WidthOfPairs(s, r);
    if sp.width.Some? {
      ParseUsizeDecimal(sp.width.value);
    }
  }

  /** The precision of a well-formed specification is read back from its text. */
  lemma PrecisionOfRender(sp: Spec)
    requires WellFormed(sp)
    ensures PrecisionField(FormatSpecParse(Render(sp)).inner) == sp.precision
  {
    var s := Render(sp);
    var r := RestsOf(s);
    RestsOfRender(sp);
    PrecisionStage(sp);
    PrecisionOfPairs(s, r);
    if sp.precision.Some? {
      PrecisionRoundTrip(sp.precision.value, 0);
    }
  }

  /**
   * The round trip: parse_parser reads back the sign, the width and the
   * precision of every well-formed specification from its text.
   */
  lemma ParseRender(sp: Spec)
    requires WellFormed(sp)
    ensures Fields(Render(sp)) == (sp.sign, sp.width, sp.precision)
  {
    SignOfRender(sp);
    WidthOfRender(sp);
    PrecisionOfRender(sp);
  }

  /**
   * A precision number of 0 is read as no precision at all: dot_precision
   * matches ".0" (or ".0$") but Precision::from_str refuses its text.
   */
  lemma ZeroPrecisionOfRender(sp: Spec)
    requires Renderable(sp) && sp.precision.Some? && !sp.precision.value.Asterisk? && sp.precision.value.n == 0
    ensures PrecisionField(FormatSpecParse(Render(sp)).inner) == None
  {
    var s := Render(sp);
    var r := RestsOf(s);
    RestsOfRender(sp);
    PrecisionStage(sp);
    PrecisionOfPairs(s, r);
    assert Decimal(0) == Zeros(1);
    PrecisionAllZerosIsErr(1);
  }

  /** With the corrected Precision::from_str the text of dot_precision gives back every precision, zero included. */
  lemma PrecisionOfRenderCorrected(sp: Spec)
    requires Renderable(sp)
    ensures var t5 := RestsOf(Render(sp)).t5;
      (match MatchDotPrecision(t5) case None => None case Some(n) => PrecisionFromStrCorrected(t5[1..n]).ToOption())
        == sp.precision
  {
    RestsOfRender(sp);
    PrecisionStage(sp);
    if sp.precision.Some? {
      PrecisionRoundTripCorrected(sp.precision.value, 0);
    }
  }

  /** ".0" comes out of parse_parser with no precision; the corrected parse reads precision 0 from its "0". */
  lemma DotZeroHasNoPrecision()
    ensures Fields(".0").2 == None
    ensures PrecisionFromStrCorrected("0") == Ok(Integer(0))
  {
    var sp := Spec(None, None, None, false, false, None, Some(Integer(0)), "");
    assert Decimal(0) == "0";
    assert Render(sp) == ".0";
    ZeroPrecisionOfRender(sp);
    PrecisionRoundTripCorrected(Integer(0), 0);
  }

  /** ".0$" comes out with no precision either; the corrected parse reads argument 0 from its "0$". */
  lemma DotZeroArgumentHasNoPrecision()
    ensures Fields(".0$").2 == None
    ensures PrecisionFromStrCorrected("0$") == Ok(Argument(0))
  {
    var sp := Spec(None, None, None, false, false, None, Some(Argument(0)), "");
    assert Decimal(0) == "0";
    assert PrecisionText(Argument(0)) == "0$";
    assert PrecisionPart(sp) == ".0$";
    assert Render(sp) == ".0$";
    ZeroPrecisionOfRender(sp);
    PrecisionRoundTripCorrected(Argument(0), 0);
  }

  // The inputs of the tests at lines 146-195, all read through ParseRender.

  /** An empty specification has no sign, width or precision. */
  lemma EmptyInput()
    ensures Fields("") == (None, None, None)
  {
    var sp := Spec(None, None, None, false, false, None, None, "");
    assert Render(sp) == "";
    ParseRender(sp);
  }

  lemma AlignWidthAsterisk()
    ensures Fields(">8.*") == (None, Some(8), Some(Asterisk))
  {
    var sp := Spec(None, Some('>'), None, false, false, Some(8), Some(Asterisk), "");
    assert Decimal(8) == "8";
    assert Render(sp) == ">8.*";
    ParseRender(sp);
  }

  lemma AlignSignWidthAsterisk()
    ensures Fields(">+8.*") == (Some(Plus), Some(8), Some(Asterisk))
  {
    var sp := Spec(None, Some('>'), Some(Plus), false, false, Some(8), Some(Asterisk), "");
    assert Decimal(8) == "8";
    assert Render(sp) == ">+8.*";
    ParseRender(sp);
  }

  lemma SignArgumentType()
    ensures Fields("-.1$x") == (Some(Minus), None, Some(Argument(1)))
  {
    var sp := Spec(None, None, Some(Minus), false, false, None, Some(Argument(1)), "x");
    assert Decimal(1) == "1";
    assert Render(sp) == "-.1$x";
    ParseRender(sp);
  }

  /** The `0` flag is read before the width, so "043" is the flag and width 43. */
  lemma FillFlagsWidthPrecisionType()
    ensures Fields("a^#043.8?") == (None, Some(43), Some(Integer(8)))
  {
    var sp := Spec(Some('a'), Some('^'), None, true, true, Some(43), Some(Integer(8)), "?");
    assert Decimal(43) == "43";
    assert Decimal(8) == "8";
    assert Render(sp) == "a^#043.8?";
    ParseRender(sp);
  }
}
