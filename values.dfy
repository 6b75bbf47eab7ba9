/**
 * The typed values a flag can hold and the text grammar that converts
 * command-line text into them and back (the pure half of gflags_value.cc:
 * the parse grammar behind FlagValue::ParseFrom, ToString, TypeName and the
 * zero values that FlagValue::New starts from).
 */
module Values {
  import opened Wrappers

  const TWO_31: int := 0x8000_0000
  const TWO_32: int := 0x1_0000_0000
  const TWO_63: int := 0x8000_0000_0000_0000
  const TWO_64: int := 0x1_0000_0000_0000_0000

  newtype int32 = x: int | -0x8000_0000 <= x < 0x8000_0000
  newtype uint32 = x: int | 0 <= x < 0x1_0000_0000
  newtype int64 = x: int | -0x8000_0000_0000_0000 <= x < 0x8000_0000_0000_0000
  newtype uint64 = x: int | 0 <= x < 0x1_0000_0000_0000_0000

  /** The ValueType enum: which C++ type a flag's storage holds. */
  datatype Kind = Bool | Int32 | UInt32 | Int64 | UInt64 | Double | String

  /**
   * The contents of one storage cell. A double is kept as its 64-bit
   * pattern: its text form is not part of this model.
   */
  datatype Value =
    | BoolValue(b: bool)
    | Int32Value(i32: int32)
    | UInt32Value(u32: uint32)
    | Int64Value(i64: int64)
    | UInt64Value(u64: uint64)
    | DoubleValue(bits: bv64)
    | StringValue(s: string)
  {
    function KindOf(): Kind {
      match this
      case BoolValue(_) => Bool
      case Int32Value(_) => Int32
      case UInt32Value(_) => UInt32
      case Int64Value(_) => Int64
      case UInt64Value(_) => UInt64
      case DoubleValue(_) => Double
      case StringValue(_) => String
    }
  }

  /** FlagValue::TypeName: the C++ spelling of each kind. */
  function TypeName(k: Kind): (r: string)
    ensures |r| > 0
  {
    match k
    case Bool => "bool"
    case Int32 => "int32"
    case UInt32 => "uint32"
    case Int64 => "int64"
    case UInt64 => "uint64"
    case Double => "double"
    case String => "string"
  }

  /** The value FlagValue::New starts a fresh box with: false, 0, 0.0 or "". */
  function Zero(k: Kind): (r: Value)
    ensures r.KindOf() == k
    ensures k == Bool ==> Show(r) == "false"
    ensures k in {Int32, UInt32, Int64, UInt64} ==> Show(r) == "0"
    ensures k == String ==> Show(r) == ""
  {
    match k
    case Bool => BoolValue(false)
    case Int32 => Int32Value(0)
    case UInt32 => UInt32Value(0)
    case Int64 => Int64Value(0)
    case UInt64 => UInt64Value(0)
    case Double => DoubleValue(0)
    case String => StringValue("")
  }

  // ---------------------------------------------------------------------
  // Digits and decimal text
  // ---------------------------------------------------------------------

  /** The digit value strtol gives a character: 0-9, then a-z / A-Z as 10-35. */
  function DigitValue(c: char): nat {
    if '0' <= c <= '9' then (c as int) - ('0' as int)
    else if 'a' <= c <= 'z' then (c as int) - ('a' as int) + 10
    else if 'A' <= c <= 'Z' then (c as int) - ('A' as int) + 10
    else 36
  }

  predicate IsDigit(c: char, base: nat) {
    DigitValue(c) < base
  }

  predicate AllDigits(s: string, base: nat) {
    forall k :: 0 <= k < |s| ==> IsDigit(s[k], base)
  }

  /** The number a string of digits denotes in the given base. */
  function DigitsValue(s: string, base: nat): nat {
    if s == [] then 0 else DigitsValue(s[..|s| - 1], base) * base + DigitValue(s[|s| - 1])
  }

  function DigitChar(d: nat): (c: char)
    requires d < 10
    ensures IsDigit(c, 10) && DigitValue(c) == d
  {
    (('0' as int) + d) as char
  }

  /** printf's %u: the shortest decimal text of n, without leading zeros. */
  function NatToDecimal(n: nat): (s: string)
    ensures |s| > 0 && AllDigits(s, 10)
    ensures (s[0] == '0') == (n == 0)
    decreases n
  {
    if n < 10 then [DigitChar(n)] else NatToDecimal(n / 10) + [DigitChar(n % 10)]
  }

  /** printf's %d: a '-' before the digits of a negative number. */
  function IntToDecimal(i: int): string {
    if i < 0 then "-" + NatToDecimal(-i) else NatToDecimal(i)
  }

  lemma {:induction false} DecimalValue(n: nat)
    ensures DigitsValue(NatToDecimal(n), 10) == n
    decreases n
  {
    if n >= 10 {
      var s := NatToDecimal(n);
      assert s[..|s| - 1] == NatToDecimal(n / 10);
      DecimalValue(n / 10);
    }
  }

  /**
   * FlagValue::ToString for every kind but double: "true"/"false",
   * decimal integers, the string itself. The "%.17g" text of a double is
   * not part of this model and shows as the empty string.
   */
  function Show(v: Value): (r: string)
    ensures v.BoolValue? ==> BoolWord(r) == Some(v.b)
    ensures v.UInt32Value? || v.UInt64Value? ==> |r| > 0 && AllDigits(r, 10)
    ensures v.Int32Value? || v.Int64Value? ==>
      var x := if v.Int32Value? then v.i32 as int else v.i64 as int;
      |r| > 0 && (r[0] == '-' <==> x < 0) && AllDigits(if x < 0 then r[1..] else r, 10)
    ensures v.StringValue? ==> r == v.s
  {
    match v
    case BoolValue(b) =>
      assert LowerText("true") == "true" && LowerText("false") == "false";
      if b then "true" else "false"
    case Int32Value(x) => IntToDecimal(x as int)
    case UInt32Value(x) => NatToDecimal(x as int)
    case Int64Value(x) => IntToDecimal(x as int)
    case UInt64Value(x) => NatToDecimal(x as int)
    case DoubleValue(_) => ""
    case StringValue(s) => s
  }

  /**
   * A character as a C `char` on a platform where char is signed: its low
   * eight bits read as a two's-complement byte.
   */
  function SignedChar(c: char): (r: int)
    ensures -128 <= r < 128
    ensures (r - (c as int)) % 256 == 0
  {
    var b := (c as int) % 256;
    if b < 128 then b else b - 256
  }

  // ---------------------------------------------------------------------
  // Boolean words
  // ---------------------------------------------------------------------

  const TrueWords: seq<string> := ["1", "t", "true", "y", "yes"]
  const FalseWords: seq<string> := ["0", "f", "false", "n", "no"]

  /** tolower in the C locale. */
  function LowerAscii(c: char): char {
    if 'A' <= c <= 'Z' then ((c as int) - ('A' as int) + ('a' as int)) as char else c
  }

  function LowerText(s: string): (r: string)
    ensures |r| == |s| && forall k :: 0 <= k < |s| ==> r[k] == LowerAscii(s[k])
  {
    seq(|s|, k requires 0 <= k < |s| => LowerAscii(s[k]))
  }

  /** strcasecmp(a, b) == 0. */
  predicate EqualsIgnoreCase(a: string, b: string) {
    |a| == |b| && forall k :: 0 <= k < |a| ==> LowerAscii(a[k]) == LowerAscii(b[k])
  }

  /** The boolean a text names, compared without regard to case. */
  function BoolWord(text: string): Option<bool> {
    var w := LowerText(text);
    if w in TrueWords then Some(true) else if w in FalseWords then Some(false) else None
  }

  lemma LowerWordMatches(text: string, w: string)
    requires LowerText(w) == w
    ensures EqualsIgnoreCase(text, w) <==> LowerText(text) == w
  {
    if EqualsIgnoreCase(text, w) {
      forall k | 0 <= k < |text| ensures LowerText(text)[k] == w[k] {
        assert LowerAscii(w[k]) == LowerText(w)[k];
      }
    }
    if LowerText(text) == w {
      forall k | 0 <= k < |text| ensures LowerAscii(text[k]) == LowerAscii(w[k]) {
        assert LowerAscii(w[k]) == LowerText(w)[k];
      }
    }
  }

  /**
   * The word tables: a text is accepted as true exactly when it matches,
   * ignoring case, one of "1", "t", "true", "y", "yes"; as false exactly when
   * it matches one of "0", "f", "false", "n", "no"; and is refused otherwise.
   */
  lemma {:induction false} BoolWordMatchesTables(text: string)
    ensures BoolWord(text) == Some(true) <==>
      exists k :: 0 <= k < |TrueWords| && EqualsIgnoreCase(text, TrueWords[k])
    ensures BoolWord(text) == Some(false) <==>
      exists k :: 0 <= k < |FalseWords| && EqualsIgnoreCase(text, FalseWords[k])
  {
    forall k | 0 <= k < |TrueWords|
      ensures EqualsIgnoreCase(text, TrueWords[k]) <==> LowerText(text) == TrueWords[k]
    {
      LowerWordMatches(text, TrueWords[k]);
    }
    forall k | 0 <= k < |FalseWords|
      ensures EqualsIgnoreCase(text, FalseWords[k]) <==> LowerText(text) == FalseWords[k]
    {
      LowerWordMatches(text, FalseWords[k]);
    }
  }

  // ---------------------------------------------------------------------
  // strtoll / strtoull with the full-consumption and errno checks
  // ---------------------------------------------------------------------

  /** isspace in the C locale. */
  predicate IsCSpace(c: char) {
    c == ' ' || c == '\t' || c == '\n' || c == '\U{000B}' || c == '\U{000C}' || c == '\r'
  }

  /** The leading white space strtoll skips. */
  function SkipCSpace(s: string): (r: string)
    ensures |r| <= |s| && (r != [] ==> r[|r| - 1] == s[|s| - 1])
    ensures r == [] || !IsCSpace(r[0])
  {
    if s != [] && IsCSpace(s[0]) then SkipCSpace(s[1..]) else s
  }

  /** The `while (*value == ' ') value++` loop of the unsigned branches: blanks only. */
  function SkipBlanks(s: string): (r: string)
    ensures |r| <= |s| && (r != [] ==> r[|r| - 1] == s[|s| - 1])
    ensures r == [] || r[0] != ' '
  {
    if s != [] && s[0] == ' ' then SkipBlanks(s[1..]) else s
  }

  /** A number as strtoll reads it, before the range check: a sign and a magnitude. */
  datatype Scanned = Scanned(negative: bool, magnitude: nat)

  function HasHexPrefix(s: string): bool {
    |s| >= 2 && s[0] == '0' && (s[1] == 'x' || s[1] == 'X')
  }

  /** The magnitude part: in base 16 an optional "0x"/"0X", then digits only. */
  function ScanMagnitude(u: string, base: nat): (r: Option<nat>)
    ensures r.Some? ==> |u| > 0 && IsDigit(u[|u| - 1], base)
  {
    var d := if base == 16 && HasHexPrefix(u) then u[2..] else u;
    assert d != [] ==> d[|d| - 1] == u[|u| - 1];
    if d != [] && AllDigits(d, base) then Some(DigitsValue(d, base)) else None
  }

  /** The part after the white space: an optional sign, then the magnitude. */
  function ScanSigned(t: string, base: nat): (r: Option<Scanned>)
    ensures r.Some? ==> |t| > 0 && IsDigit(t[|t| - 1], base)
  {
    var signed := t != [] && (t[0] == '+' || t[0] == '-');
    var u := if signed then t[1..] else t;
    match ScanMagnitude(u, base)
    case Some(m) => Some(Scanned(signed && t[0] == '-', m))
    case None => None
  }

  /**
   * The syntax strtoll and strtoull accept when the end pointer must reach
   * the end of the text: C white space, an optional sign, in base 16 an
   * optional "0x"/"0X", then at least one digit of the base and nothing else.
   */
  function ScanNumber(s: string, base: nat): (r: Option<Scanned>)
    ensures r.Some? ==> |s| > 0 && IsDigit(s[|s| - 1], base)
  {
    ScanSigned(SkipCSpace(s), base)
  }

  /**
   * strtoll, its errno and the end-of-text check: None for a bad parse or
   * ERANGE. When nothing converts, the end pointer is the start of the
   * text, which is its end only for the empty text: that reads as 0.
   */
  function StrToInt64(s: string, base: nat): (r: Option<int>)
    ensures r.Some? ==> -TWO_63 <= r.value < TWO_63
  {
    if s == [] then Some(0) else
    match ScanNumber(s, base)
    case None => None
    case Some(sc) =>
      var v: int := if sc.negative then -(sc.magnitude as int) else sc.magnitude;
      if -TWO_63 <= v < TWO_63 then Some(v) else None
  }

  /**
   * strtoull, its errno and the end-of-text check. A '-' is accepted by
   * strtoull itself and negates modulo 2^64 (2^64 - m, or 0 for m = 0).
   * The empty text converts nothing and reads as 0, as for strtoll.
   */
  function StrToUInt64(s: string, base: nat): (r: Option<int>)
    ensures r.Some? ==> 0 <= r.value < TWO_64
  {
    if s == [] then Some(0) else
    match ScanNumber(s, base)
    case None => None
    case Some(sc) =>
      if sc.magnitude < TWO_64 then
        Some(if sc.negative && sc.magnitude != 0 then TWO_64 - sc.magnitude else sc.magnitude)
      else None
  }

  /** Base 16 after a leading "0x" or "0X", base 10 otherwise; a leading 0 is never octal. */
  function NumericBase(text: string): (base: nat)
    ensures base == 16 || base == 10
  {
    if HasHexPrefix(text) then 16 else 10
  }

  /** The negative-number test of the unsigned branches, made after skipping blanks only. */
  predicate LooksNegative(text: string) {
    var t := SkipBlanks(text);
    t != [] && t[0] == '-'
  }

  /** The 32-bit range check of the int32 branch, applied to strtoll's result. */
  function FitSigned(kind: Kind, parsed: Option<int>): (r: Option<Value>)
    requires kind == Int32 || kind == Int64
    requires parsed.Some? ==> -TWO_63 <= parsed.value < TWO_63
    ensures r.Some? ==> r.value.KindOf() == kind && parsed.Some?
  {
    match parsed
    case None => None
    case Some(x) =>
      if kind == Int64 then Some(Int64Value(x as int64))
      else if -TWO_31 <= x < TWO_31 then Some(Int32Value(x as int32))
      else None
  }

  /** The 32-bit range check of the uint32 branch, applied to strtoull's result. */
  function FitUnsigned(kind: Kind, parsed: Option<int>): (r: Option<Value>)
    requires kind == UInt32 || kind == UInt64
    requires parsed.Some? ==> 0 <= parsed.value < TWO_64
    ensures r.Some? ==> r.value.KindOf() == kind && parsed.Some?
  {
    match parsed
    case None => None
    case Some(x) =>
      if kind == UInt64 then Some(UInt64Value(x as uint64))
      else if x < TWO_32 then Some(UInt32Value(x as uint32))
      else None
  }

  /** The signed branches: strtoll, then for int32 the 32-bit range check. */
  function ParseSigned(kind: Kind, text: string, base: nat): (r: Option<Value>)
    requires kind == Int32 || kind == Int64
    ensures r.Some? ==> r.value.KindOf() == kind
  {
    FitSigned(kind, StrToInt64(text, base))
  }

  /**
   * The unsigned branches: skip blanks, refuse a '-', strtoull, then for
   * uint32 the 32-bit range check.
   */
  function ParseUnsigned(kind: Kind, text: string, base: nat): (r: Option<Value>)
    requires kind == UInt32 || kind == UInt64
    ensures r.Some? ==> r.value.KindOf() == kind
    ensures LooksNegative(text) ==> r.None?
  {
    if LooksNegative(text) then None else FitUnsigned(kind, StrToUInt64(SkipBlanks(text), base))
  }

  /**
   * What FlagValue::ParseFrom stores for a text, or None when it returns
   * false. The base is chosen from the text as given, before the unsigned
   * branches skip their blanks. Double text is not part of this model and is
   * refused.
   */
  function ParseValue(kind: Kind, text: string): (r: Option<Value>)
    ensures r.Some? ==> r.value.KindOf() == kind
    ensures kind == String ==> r == Some(StringValue(text))
    ensures kind != String && text == [] ==> r.None?
    ensures kind in {UInt32, UInt64} && LooksNegative(text) ==> r.None?
  {
    match kind
    case Bool =>
      (match BoolWord(text)
       case Some(b) => Some(BoolValue(b))
       case None => None)
    case String => Some(StringValue(text))
    case Double => None
    case Int32 => if text == [] then None else ParseSigned(kind, text, NumericBase(text))
    case Int64 => if text == [] then None else ParseSigned(kind, text, NumericBase(text))
    case UInt32 => if text == [] then None else ParseUnsigned(kind, text, NumericBase(text))
    case UInt64 => if text == [] then None else ParseUnsigned(kind, text, NumericBase(text))
  }

  // ---------------------------------------------------------------------
  // Properties of the grammar
  // ---------------------------------------------------------------------

  lemma {:induction false} SkipCSpaceOver(ws: string, rest: string)
    requires forall k :: 0 <= k < |ws| ==> IsCSpace(ws[k])
    requires rest == [] || !IsCSpace(rest[0])
    ensures SkipCSpace(ws + rest) == rest
    decreases |ws|
  {
    if ws != [] {
      assert (ws + rest)[1..] == ws[1..] + rest;
      SkipCSpaceOver(ws[1..], rest);
    }
  }

  lemma MagnitudeAccepts(prefix: string, digits: string, base: nat)
    requires prefix == "" || (base == 16 && prefix in {"0x", "0X"})
    requires digits != [] && AllDigits(digits, base) && base <= 16
    ensures ScanMagnitude(prefix + digits, base) == Some(DigitsValue(digits, base))
  {
    var u := prefix + digits;
    if prefix == "" {
      assert u == digits;
      assert !(base == 16 && HasHexPrefix(u)) by {
        if |digits| >= 2 {
          assert IsDigit(digits[1], base);
          assert digits[1] != 'x' && digits[1] != 'X';
        }
      }
    } else {
      assert HasHexPrefix(u) && u[2..] == digits;
    }
  }

  lemma SignedAccepts(sign: string, u: string, base: nat)
    requires sign in {"", "+", "-"}
    requires u != [] && IsDigit(u[0], base) && base <= 16
    ensures ScanSigned(sign + u, base) ==
      (match ScanMagnitude(u, base)
       case Some(m) => Some(Scanned(sign == "-", m))
       case None => None)
  {
    var t := sign + u;
    if sign == "" {
      assert t == u;
      assert t[0] != '+' && t[0] != '-';
    } else {
      assert t[1..] == u;
    }
  }

  /**
   * Every text of the shape white space, optional sign, optional "0x" in
   * base 16, digits is read as that signed digit string; so the grammar
   * rejects a text only when it is not of that shape.
   */
  lemma ScanNumberAccepts(ws: string, sign: string, prefix: string, digits: string, base: nat)
    requires forall k :: 0 <= k < |ws| ==> IsCSpace(ws[k])
    requires sign in {"", "+", "-"}
    requires prefix == "" || (base == 16 && prefix in {"0x", "0X"})
    requires digits != [] && AllDigits(digits, base) && base <= 16
    ensures ScanNumber(ws + sign + prefix + digits, base)
         == Some(Scanned(sign == "-", DigitsValue(digits, base)))
  {
    var u := prefix + digits;
    var rest := sign + u;
    assert ws + sign + prefix + digits == ws + rest;
    assert IsDigit(u[0], base) by {
      if prefix == "" { assert u[0] == digits[0]; assert IsDigit(digits[0], base); }
    }
    assert !IsCSpace(rest[0]) by {
      if sign == "" { assert rest[0] == u[0]; }
    }
    SkipCSpaceOver(ws, rest);
    MagnitudeAccepts(prefix, digits, base);
    SignedAccepts(sign, u, base);
  }

  lemma NoBlankNoSpace(s: string)
    requires s == [] || (s[0] != ' ' && !IsCSpace(s[0]))
    ensures SkipBlanks(s) == s && SkipCSpace(s) == s
  {
  }

  lemma DecimalScan(n: nat, negative: bool)
    ensures ScanNumber((if negative then "-" else "") + NatToDecimal(n), 10)
         == Some(Scanned(negative, n))
  {
    DecimalValue(n);
    ScanNumberAccepts("", if negative then "-" else "", "", NatToDecimal(n), 10);
    assert "" + (if negative then "-" else "") + "" + NatToDecimal(n)
        == (if negative then "-" else "") + NatToDecimal(n);
  }

  lemma IntDecimalScan(x: int)
    ensures ScanNumber(IntToDecimal(x), 10) == Some(Scanned(x < 0, if x < 0 then -x else x))
  {
    if x < 0 {
      DecimalScan(-x, true);
      assert IntToDecimal(x) == "-" + NatToDecimal(-x);
    } else {
      DecimalScan(x, false);
      assert IntToDecimal(x) == "" + NatToDecimal(x);
    }
  }

  lemma SignedRoundTrip(x: int)
    requires -TWO_63 <= x < TWO_63
    ensures StrToInt64(IntToDecimal(x), 10) == Some(x)
  {
    IntDecimalScan(x);
  }

  lemma UnsignedShape(x: nat)
    ensures var s := NatToDecimal(x);
      !LooksNegative(s) && NumericBase(s) == 10 && SkipBlanks(s) == s
  {
    var s := NatToDecimal(x);
    assert IsDigit(s[0], 10);
    NoBlankNoSpace(s);
    assert s[0] != '-';
    if |s| >= 2 {
      assert IsDigit(s[1], 10);
    }
  }

  lemma UnsignedRoundTrip(x: nat)
    requires x < TWO_64
    ensures StrToUInt64(NatToDecimal(x), 10) == Some(x)
  {
    DecimalScan(x, false);
    assert "" + NatToDecimal(x) == NatToDecimal(x);
  }

  lemma SignedBase(x: int)
    ensures NumericBase(IntToDecimal(x)) == 10
  {
    var s := NatToDecimal(if x < 0 then -x else x);
    if |s| >= 2 {
      assert IsDigit(s[1], 10);
    }
  }

  lemma Int32RoundTrip(x: int32)
    ensures ParseValue(Int32, IntToDecimal(x as int)) == Some(Int32Value(x))
  {
    SignedRoundTrip(x as int);
    SignedBase(x as int);
    assert ParseSigned(Int32, IntToDecimal(x as int), 10) == Some(Int32Value(x));
  }

  lemma Int64RoundTrip(x: int64)
    ensures ParseValue(Int64, IntToDecimal(x as int)) == Some(Int64Value(x))
  {
    SignedRoundTrip(x as int);
    SignedBase(x as int);
    assert ParseSigned(Int64, IntToDecimal(x as int), 10) == Some(Int64Value(x));
  }

  lemma UInt32RoundTrip(x: uint32)
    ensures ParseValue(UInt32, NatToDecimal(x as int)) == Some(UInt32Value(x))
  {
    UnsignedShape(x as int);
    UnsignedRoundTrip(x as int);
    assert ParseUnsigned(UInt32, NatToDecimal(x as int), 10) == Some(UInt32Value(x));
  }

  lemma UInt64RoundTrip(x: uint64)
    ensures ParseValue(UInt64, NatToDecimal(x as int)) == Some(UInt64Value(x))
  {
    UnsignedShape(x as int);
    UnsignedRoundTrip(x as int);
    assert ParseUnsigned(UInt64, NatToDecimal(x as int), 10) == Some(UInt64Value(x));
  }

  /**
   * The base is chosen from the text before any white space is skipped:
   * a blank before "0x" leaves base 10, where the 'x' is trailing garbage,
   * so every numeric kind refuses the text.
   */
  lemma LeadingBlankHex(kind: Kind, rest: string)
    requires kind in {Int32, UInt32, Int64, UInt64}
    ensures ParseValue(kind, " 0x" + rest) == None
  {
    var text := " 0x" + rest;
    var u := "0x" + rest;
    assert text[1..] == u && text[0] == ' ' && !HasHexPrefix(text);
    assert SkipCSpace(u) == u;
    assert SkipBlanks(u) == u;
    assert !IsDigit(u[1], 10);
    assert ScanMagnitude(u, 10).None?;
    assert ScanNumber(text, 10).None?;
    assert ScanNumber(u, 10).None?;
  }

  /**
   * The unsigned branches refuse a '-' only after skipping blanks, while
   * strtoull skips every kind of white space and negates modulo 2^64: a
   * tab before the '-' lets a negative number through as 2^64 - m.
   */
  lemma TabMinusWraps(m: nat)
    requires 0 < m < TWO_64
    ensures ParseValue(UInt64, "\t-" + NatToDecimal(m)) == Some(UInt64Value((TWO_64 - m) as uint64))
  {
    var text := "\t-" + NatToDecimal(m);
    assert StrToUInt64(text, 10) == Some(TWO_64 - m) by {
      var s := "-" + NatToDecimal(m);
      assert text == ['\t'] + s;
      DecimalScan(m, true);
      SpaceThenScan('\t', s, 10);
    }
    UInt64Decimal(text, TWO_64 - m);
  }

  /** A uint64 text that starts with neither a blank nor '0' goes to strtoull unchanged, in base 10. */
  lemma UInt64Decimal(text: string, x: int)
    requires text != [] && text[0] != ' ' && text[0] != '0' && text[0] != '-'
    requires StrToUInt64(text, 10) == Some(x)
    ensures ParseValue(UInt64, text) == Some(UInt64Value(x as uint64))
  {
    assert SkipBlanks(text) == text;
  }

  /** strtoll and strtoull skip any leading C white space. */
  lemma SpaceThenScan(c: char, s: string, base: nat)
    requires IsCSpace(c)
    ensures ScanNumber([c] + s, base) == ScanNumber(s, base)
  {
    assert ([c] + s)[1..] == s;
  }

  /**
   * A non-empty text of blanks only: the unsigned branches skip it all and
   * hand strtoull the empty text, which converts nothing with the end
   * pointer already at the end, so 0 is stored.
   */
  lemma BlankOnlyUnsigned(kind: Kind, text: string)
    requires kind in {UInt32, UInt64}
    requires text != [] && SkipBlanks(text) == []
    ensures ParseValue(kind, text) == Some(Zero(kind))
  {
    assert !LooksNegative(text);
    assert StrToUInt64(SkipBlanks(text), NumericBase(text)) == Some(0);
  }

  /**
   * The signed branches hand strtoll the blanks themselves: nothing
   * converts, the end pointer stays at the start, and the text is refused.
   */
  lemma BlankOnlySigned(kind: Kind, text: string)
    requires kind in {Int32, Int64}
    requires text != [] && forall k :: 0 <= k < |text| ==> text[k] == ' '
    ensures ParseValue(kind, text) == None
  {
    SkipCSpaceOver(text, []);
    assert text + [] == text;
    assert ScanNumber(text, NumericBase(text)) == None;
  }

  /** The int32 branch in full: strtoll's result, kept only within 32 bits. */
  lemma Int32Range(text: string)
    ensures var x := StrToInt64(text, NumericBase(text));
      ParseValue(Int32, text) ==
        if text != [] && x.Some? && -TWO_31 <= x.value < TWO_31 then Some(Int32Value(x.value as int32))
        else None
  {
  }

  /** The uint32 branch in full: past the blanks no '-', then strtoull's result, kept only below 2^32. */
  lemma UInt32Range(text: string)
    ensures var y := StrToUInt64(SkipBlanks(text), NumericBase(text));
      ParseValue(UInt32, text) ==
        if text != [] && !LooksNegative(text) && y.Some? && y.value < TWO_32 then Some(UInt32Value(y.value as uint32))
        else None
  {
  }

  /** A decimal number outside 32 bits is refused by int32 and kept by int64. */
  lemma Int32Overflow(n: nat)
    requires TWO_31 <= n < TWO_63
    ensures ParseValue(Int32, NatToDecimal(n)) == None
    ensures ParseValue(Int64, NatToDecimal(n)) == Some(Int64Value(n as int64))
  {
    assert IntToDecimal(n) == NatToDecimal(n);
    SignedRoundTrip(n);
    SignedBase(n);
    Int32Range(NatToDecimal(n));
  }

  /** A decimal number outside 32 bits is refused by uint32 and kept by uint64. */
  lemma UInt32Overflow(n: nat)
    requires TWO_32 <= n < TWO_64
    ensures ParseValue(UInt32, NatToDecimal(n)) == None
    ensures ParseValue(UInt64, NatToDecimal(n)) == Some(UInt64Value(n as uint64))
  {
    UnsignedShape(n);
    UnsignedRoundTrip(n);
    UInt32Range(NatToDecimal(n));
  }

  lemma {:induction false} LeadingZeroValue(d: string, base: nat)
    requires base >= 1
    ensures DigitsValue("0" + d, base) == DigitsValue(d, base)
    decreases |d|
  {
    if d != [] {
      assert ("0" + d)[..|d|] == "0" + d[..|d| - 1];
      LeadingZeroValue(d[..|d| - 1], base);
    }
  }

  /** A leading 0 does not make a number octal: "0" followed by digits reads in base 10. */
  lemma LeadingZeroDecimal(n: nat)
    requires n < TWO_63
    ensures ParseValue(Int64, "0" + NatToDecimal(n)) == Some(Int64Value(n as int64))
  {
    var d := NatToDecimal(n);
    var text := "0" + d;
    assert StrToInt64(text, 10) == Some(n) by {
      assert AllDigits(text, 10) by {
        forall k | 0 <= k < |text| ensures IsDigit(text[k], 10) {
          if k > 0 { assert text[k] == d[k - 1]; }
        }
      }
      DecimalValue(n);
      LeadingZeroValue(d, 10);
      ScanNumberAccepts("", "", "", text, 10);
      assert "" + "" + "" + text == text;
    }
    assert NumericBase(text) == 10 by {
      assert text[1] == d[0] && IsDigit(d[0], 10);
    }
  }

  /** "0x" or "0X" selects base 16 and the hex digits after it give the value. */
  lemma HexValue(prefix: string, digits: string)
    requires prefix in {"0x", "0X"}
    requires digits != [] && AllDigits(digits, 16) && DigitsValue(digits, 16) < TWO_63
    ensures ParseValue(Int64, prefix + digits) == Some(Int64Value(DigitsValue(digits, 16) as int64))
  {
    var text := prefix + digits;
    HexScan(prefix, digits);
    assert NumericBase(text) == 16 by {
      assert text[0] == '0' && text[1] == prefix[1];
    }
    assert ParseValue(Int64, text) == FitSigned(Int64, StrToInt64(text, 16));
  }

  lemma HexScan(prefix: string, digits: string)
    requires prefix in {"0x", "0X"}
    requires digits != [] && AllDigits(digits, 16)
    ensures ScanNumber(prefix + digits, 16) == Some(Scanned(false, DigitsValue(digits, 16)))
  {
    ScanNumberAccepts("", "", prefix, digits, 16);
    assert "" + "" + prefix + digits == prefix + digits;
  }

  lemma {:induction false} SkipCSpaceSplit(s: string) returns (ws: string)
    ensures s == ws + SkipCSpace(s)
    ensures forall k :: 0 <= k < |ws| ==> IsCSpace(ws[k])
    decreases |s|
  {
    if s != [] && IsCSpace(s[0]) {
      var rest := SkipCSpaceSplit(s[1..]);
      ws := [s[0]] + rest;
      assert s == [s[0]] + s[1..];
    } else {
      ws := [];
    }
  }

  lemma MagnitudeShape(u: string, base: nat) returns (prefix: string, digits: string)
    requires ScanMagnitude(u, base).Some?
    ensures u == prefix + digits
    ensures prefix == "" || (base == 16 && prefix in {"0x", "0X"})
    ensures digits != [] && AllDigits(digits, base)
    ensures ScanMagnitude(u, base) == Some(DigitsValue(digits, base))
  {
    if base == 16 && HasHexPrefix(u) {
      prefix, digits := u[..2], u[2..];
      assert prefix == ['0', u[1]];
    } else {
      prefix, digits := "", u;
    }
  }

  lemma SignedShape(t: string, base: nat) returns (sign: string, u: string)
    requires ScanSigned(t, base).Some?
    ensures t == sign + u && sign in {"", "+", "-"}
    ensures ScanMagnitude(u, base).Some?
    ensures ScanSigned(t, base) == Some(Scanned(sign == "-", ScanMagnitude(u, base).value))
  {
    if t != [] && (t[0] == '+' || t[0] == '-') {
      sign, u := [t[0]], t[1..];
    } else {
      sign, u := "", t;
    }
  }

  /**
   * The converse of ScanNumberAccepts: every text the scan accepts is
   * white space, an optional sign, in base 16 an optional "0x", and digits,
   * read as that signed digit string.
   */
  lemma ScanNumberShape(s: string, base: nat) returns (ws: string, sign: string, prefix: string, digits: string)
    requires ScanNumber(s, base).Some?
    ensures s == ws + sign + prefix + digits
    ensures forall k :: 0 <= k < |ws| ==> IsCSpace(ws[k])
    ensures sign in {"", "+", "-"}
    ensures prefix == "" || (base == 16 && prefix in {"0x", "0X"})
    ensures digits != [] && AllDigits(digits, base)
    ensures ScanNumber(s, base) == Some(Scanned(sign == "-", DigitsValue(digits, base)))
  {
    ws := SkipCSpaceSplit(s);
    var u;
    sign, u := SignedShape(SkipCSpace(s), base);
    prefix, digits := MagnitudeShape(u, base);
    Regroup(ws, sign, prefix, digits);
  }

  lemma Regroup(a: string, b: string, c: string, d: string)
    ensures a + b + c + d == a + (b + (c + d))
  {
  }

  /**
   * ToString and ParseFrom are inverse for every kind this model prints:
   * parsing the canonical text of a value of kind k as kind k gives the value back.
   */
  lemma RoundTrip(v: Value)
    requires v.KindOf() != Double
    ensures ParseValue(v.KindOf(), Show(v)) == Some(v)
  {
    match v
    case BoolValue(b) =>
      assert LowerText(Show(v)) == Show(v);
    case StringValue(_) =>
    case Int32Value(x) => Int32RoundTrip(x);
    case Int64Value(x) => Int64RoundTrip(x);
    case UInt32Value(x) => UInt32RoundTrip(x);
    case UInt64Value(x) => UInt64RoundTrip(x);
  }
}
