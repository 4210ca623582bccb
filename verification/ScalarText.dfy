/** Conversion between configuration values and their texts: yaml_utils::convert and
    determine_scalar_type (src/libs/config/yaml_node.h) against StringConversions::to_string
    (src/libs/utils/misc/string_conversions.cpp). */
module ScalarText {

  datatype Option<+T> = None | Some(value: T)

  /** YamlConfigurationNode::Type */
  datatype Kind = NONE | UINT32 | INT32 | FLOAT | BOOL | STRING | MAP | SEQUENCE | SEQUENCE_MAP | UNKNOWN

  const TWO_31 := 0x8000_0000
  const TWO_32 := 0x1_0000_0000
  const TWO_63 := 0x8000_0000_0000_0000

  type Uint32 = n: int | 0 <= n < TWO_32
  type Int32 = n: int | -TWO_31 <= n < TWO_31

  predicate IsSpace(c: char) {
    c == ' ' || c == '\t' || c == '\n' || c == '\r' || c == 11 as char || c == 12 as char
  }

  predicate IsDigit(c: char) {
    '0' <= c <= '9'
  }

  function SkipSpace(s: string): string {
    if s != "" && IsSpace(s[0]) then SkipSpace(s[1..]) else s
  }

  function TrimEnd(s: string): string {
    if s != "" && IsSpace(s[|s| - 1]) then TrimEnd(s[..|s| - 1]) else s
  }

  // ---- Integers ----

  function DigitValue(c: char): nat {
    if IsDigit(c) then c as int - '0' as int
    else if 'a' <= c <= 'f' then c as int - 'a' as int + 10
    else if 'A' <= c <= 'F' then c as int - 'A' as int + 10
    else 16
  }

  function DigitsValue(s: string, base: nat): Option<nat> {
    if s == "" then Some(0)
    else
      var prefix := DigitsValue(s[..|s| - 1], base);
      var d := DigitValue(s[|s| - 1]);
      if prefix.Some? && d < base then Some(prefix.value * base + d) else None
  }

  /** The digits of an integer whose base is told by its prefix, as strtol(..., 0) reads it. */
  function Magnitude(s: string): Option<nat> {
    if s == "" then None
    else if |s| > 2 && s[0] == '0' && (s[1] == 'x' || s[1] == 'X') then DigitsValue(s[2..], 16)
    else if s[0] == '0' then DigitsValue(s, 8)
    else DigitsValue(s, 10)
  }

  function IntegerOf(text: string): Option<int> {
    var s := SkipSpace(text);
    if s != "" && s[0] == '-' then
      var m := Magnitude(s[1..]);
      if m.Some? then Some(-(m.value as int)) else None
    else
      var m := Magnitude(if s != "" && s[0] == '+' then s[1..] else s);
      if m.Some? then Some(m.value as int) else None
  }

  /** convert to unsigned int: strtol over the whole text, truncated to 32 bits. */
  function AsUint(s: string): Option<Uint32> {
    var l := IntegerOf(s);
    if l.Some? && 0 <= l.value < TWO_63 then Some(l.value % 0x1_0000_0000) else None
  }

  /** convert to int: stream extraction, so white space may follow and the range is 32 bits. */
  function AsInt(s: string): Option<Int32> {
    var l := IntegerOf(TrimEnd(s));
    if l.Some? && -TWO_31 <= l.value < TWO_31 then Some(l.value) else None
  }

  // ---- Booleans ----

  predicate IsLower(c: char) { 'a' <= c <= 'z' }
  predicate IsUpper(c: char) { 'A' <= c <= 'Z' }

  function ToLower(s: string): string {
    seq(|s|, i requires 0 <= i < |s| =>
      if IsUpper(s[i]) then (s[i] as int + 32) as char else s[i])
  }

  predicate IsFlexibleCase(s: string) {
    || (forall i :: 0 <= i < |s| ==> IsLower(s[i]))
    || (IsUpper(s[0]) && ((forall i :: 1 <= i < |s| ==> IsLower(s[i])) || (forall i :: 1 <= i < |s| ==> IsUpper(s[i]))))
  }

  function AsBool(s: string): Option<bool> {
    if !IsFlexibleCase(s) then None
    else
      var t := ToLower(s);
      if t == "y" || t == "yes" || t == "true" || t == "on" then Some(true)
      else if t == "n" || t == "no" || t == "false" || t == "off" then Some(false)
      else None
  }

  // ---- Floats: only whether a text is one ----

  function SkipDigits(s: string): (r: string)
    ensures |r| <= |s|
  {
    if s != "" && IsDigit(s[0]) then SkipDigits(s[1..]) else s
  }

  function SkipSign(s: string): string {
    if s != "" && (s[0] == '+' || s[0] == '-') then s[1..] else s
  }

  predicate IsExponent(s: string) {
    s == "" || ((s[0] == 'e' || s[0] == 'E') && SkipSign(s[1..]) != "" && SkipDigits(SkipSign(s[1..])) == "")
  }

  /** The number mantissa * 10^exponent. */
  datatype Decimal = Decimal(mantissa: nat, exponent: int)

  function NumberOf(digits: string): nat {
    var v := DigitsValue(digits, 10);
    if v.Some? then v.value else 0
  }

  function ExponentOf(s: string): int
    requires IsExponent(s)
  {
    if s == "" then 0 else if s[1] == '-' then -(NumberOf(SkipSign(s[1..])) as int) else NumberOf(SkipSign(s[1..]))
  }

  /** The number that a text is, if it is one without a sign. */
  function UnsignedOf(s: string): Option<Decimal> {
    var a := SkipDigits(s);
    var dot := a != "" && a[0] == '.';
    var b := if dot then SkipDigits(a[1..]) else a;
    var fraction := if dot then a[1..|a| - |b|] else "";
    var digits := s[..|s| - |a|] + fraction;
    if digits != "" && IsExponent(b) then Some(Decimal(NumberOf(digits), ExponentOf(b) - |fraction|)) else None
  }

  /** The number that stream extraction finds in a text, apart from its sign. */
  function DecimalOf(text: string): Option<Decimal> {
    UnsignedOf(SkipSign(SkipSpace(TrimEnd(text))))
  }

  function Power10(n: nat): nat {
    if n == 0 then 1 else 10 * Power10(n - 1)
  }

  /** 2^128 - 2^103: from here on a number is rounded to infinity, for which the extraction fails. */
  const FLOAT_LIMIT: nat := 0xFFFF_FF80_0000_0000_0000_0000_0000_0000

  predicate InFloatRange(d: Decimal) {
    if d.exponent >= 0 then d.mantissa * Power10(d.exponent) < FLOAT_LIMIT
        else d.mantissa < FLOAT_LIMIT * Power10(-d.exponent)
  }

  /** convert to float: stream extraction, or the words for infinity and for no number. */
  predicate IsFloat(text: string) {
    || (DecimalOf(text).Some? && InFloatRange(DecimalOf(text).value))
    || SkipSign(text) in [".inf", ".Inf", ".INF"]
    || text in [".nan", ".NaN", ".NAN"]
  }

  // ---- Type of a scalar text ----

  /** determine_scalar_type of a node that holds this text and is no list. */
  function ScalarKind(s: string): (k: Kind)
    ensures IsScalarKind(k)
  {
    if AsUint(s).Some? then
      if AsInt(s).Some? && AsInt(s).value < 0 then INT32 else UINT32
    else if AsInt(s).Some? then INT32
    else if IsFloat(s) then FLOAT
    else if AsBool(s).Some? then BOOL
    else STRING
  }

  /** determine_scalar_type of a node that is still marked as a list with these items: is_type looks at
      the first of them and finds an empty list to be of any type, and get_int throws for a list. */
  function FirstKind(items: seq<string>): (k: Kind)
    ensures IsScalarKind(k)
  {
    if items == [] || AsUint(items[0]).Some? then UINT32
    else if AsInt(items[0]).Some? then INT32
    else if IsFloat(items[0]) then FLOAT
    else if AsBool(items[0]).Some? then BOOL
    else STRING
  }

  predicate IsScalarKind(k: Kind) {
    k == UINT32 || k == INT32 || k == FLOAT || k == BOOL || k == STRING
  }

  // ---- StringConversions::to_string ----

  function PrintNat(n: nat): string {
    if n < 10 then [('0' as int + n) as char]
    else PrintNat(n / 10) + [('0' as int + n % 10) as char]
  }

  function PrintInt(i: int): string {
    if i < 0 then "-" + PrintNat(-i) else PrintNat(i)
  }

  function PrintBool(b: bool): string {
    if b then "true" else "false"
  }

  // ---- Printing and reading back ----

  lemma {:induction false} PrintNatDigits(n: nat)
    ensures PrintNat(n) != ""
    ensures forall i :: 0 <= i < |PrintNat(n)| ==> IsDigit(PrintNat(n)[i])
    ensures PrintNat(n)[0] == '0' ==> PrintNat(n) == "0"
    ensures DigitsValue(PrintNat(n), 10) == Some(n)
  {
    var s := PrintNat(n);
    if n < 10 {
      assert s[..0] == "";
      assert DigitsValue(s[..|s| - 1], 10) == Some(0);
    } else {
      PrintNatDigits(n / 10);
      assert s[..|s| - 1] == PrintNat(n / 10);
    }
  }

  lemma DigitMagnitude(s: string, n: nat)
    requires s != "" && (forall i :: 0 <= i < |s| ==> IsDigit(s[i])) && (s[0] == '0' ==> s == "0")
    requires DigitsValue(s, 10) == Some(n)
    ensures Magnitude(s) == Some(n)
  {
    if s == "0" {
      assert s[..0] == "";
      assert DigitsValue(s[..0], 8) == DigitsValue(s[..0], 10) == Some(0);
    }
  }

  /** A text of digits without a leading zero, alone or after a minus sign. */
  lemma DigitText(s: string, n: nat)
    requires s != "" && (forall i :: 0 <= i < |s| ==> IsDigit(s[i])) && Magnitude(s) == Some(n)
    ensures IntegerOf(s) == Some(n as int) && TrimEnd(s) == s
    ensures IntegerOf("-" + s) == Some(-(n as int)) && TrimEnd("-" + s) == "-" + s
  {
    hide Magnitude, TrimEnd, SkipSpace, IsSpace;
    assert IsDigit(s[0]) && IsDigit(s[|s| - 1]);
    var t := "-" + s;
    assert t[1..] == s && t[|t| - 1] == s[|s| - 1];
    NoSpace(s);
    NoSpace(t);
  }

  lemma NoSpace(s: string)
    requires s != "" && (IsDigit(s[0]) || s[0] == '-') && IsDigit(s[|s| - 1])
    ensures SkipSpace(s) == s && TrimEnd(s) == s
  {
    assert !IsSpace(s[0]) && !IsSpace(s[|s| - 1]);
  }

  lemma PrintNatInteger(n: nat)
    ensures IntegerOf(PrintNat(n)) == Some(n as int) && TrimEnd(PrintNat(n)) == PrintNat(n)
    ensures IntegerOf("-" + PrintNat(n)) == Some(-(n as int)) && TrimEnd("-" + PrintNat(n)) == "-" + PrintNat(n)
  {
    hide *;
    PrintNatDigits(n);
    DigitMagnitude(PrintNat(n), n);
    DigitText(PrintNat(n), n);
  }

  lemma {:induction false} SkipSpaceEnd(s: string)
    ensures SkipSpace(s) != "" ==> s != "" && SkipSpace(s)[|SkipSpace(s)| - 1] == s[|s| - 1]
  {
    if s != "" && IsSpace(s[0]) {
      SkipSpaceEnd(s[1..]);
    }
  }

  lemma NoSpaceAtEnd(s: string)
    requires s != "" && IsSpace(s[|s| - 1])
    ensures Magnitude(s).None?
  {
    assert DigitValue(s[|s| - 1]) == 16;
    if |s| > 2 { assert s[2..][|s[2..]| - 1] == s[|s| - 1]; }
  }

  /** A text that is a number for strtol has no white space behind it. */
  lemma UintText(s: string)
    requires IntegerOf(s).Some?
    ensures TrimEnd(s) == s
  {
    hide Magnitude, IsSpace;
    SkipSpaceEnd(s);
    var t := SkipSpace(s);
    if s != "" && IsSpace(s[|s| - 1]) {
      if t != "" {
        NoSpaceAtEnd(t);
        if |t| > 1 { NoSpaceAtEnd(t[1..]); }
      }
      SignMagnitude(t);
      assert false;
    }
  }

  lemma SignMagnitude(t: string)
    ensures Magnitude("").None?
    ensures t != "" && |t| == 1 ==> t[1..] == ""
  {
  }

  /** The type of a text that replaces a list: that of the first item, whatever the text is. */
  lemma FirstItemKind(items: seq<string>)
    ensures FirstKind(items) == if items == [] then UINT32 else ScalarKind(items[0])
  {
    if items != [] && AsUint(items[0]).Some? {
      UintText(items[0]);
    }
  }

  /** How a text is read and typed is decided by the integer it denotes. */
  lemma IntegerText(s: string, i: int)
    requires IntegerOf(s) == Some(i) && TrimEnd(s) == s && -TWO_31 <= i < TWO_32
    ensures AsUint(s) == if i >= 0 then Some(i) else None
    ensures AsInt(s) == if i < TWO_31 then Some(i) else None
    ensures ScalarKind(s) == if i < 0 then INT32 else UINT32
  {
    if i >= 0 {
      assert i % 0x1_0000_0000 == i;
    }
  }

  /** set_uint then get_uint: every 32-bit value comes back, with the type "unsigned int". */
  lemma UintRoundTrip(n: Uint32)
    ensures AsUint(PrintNat(n)) == Some(n)
    ensures ScalarKind(PrintNat(n)) == UINT32
  {
    PrintNatInteger(n);
    IntegerText(PrintNat(n), n);
  }

  /** set_int then get_int: every 32-bit value comes back; the type is "unsigned int" exactly for
      the values that are not negative. */
  lemma IntRoundTrip(i: Int32)
    ensures AsInt(PrintInt(i)) == Some(i)
    ensures ScalarKind(PrintInt(i)) == if i < 0 then INT32 else UINT32
    ensures AsUint(PrintInt(i)).Some? <==> i >= 0
  {
    PrintNatInteger(if i < 0 then 0 - (i as int) else i);
    IntegerText(PrintInt(i), i);
  }

  /** A word of lower-case letters that is no number. */
  lemma WordText(s: string)
    requires s == "true" || s == "false"
    ensures IntegerOf(s).None? && TrimEnd(s) == s && !IsFloat(s)
  {
    assert TrimEnd(s) == s && SkipSpace(s) == s && SkipSign(s) == s && SkipDigits(s) == s;
    assert DigitValue(s[|s| - 1]) >= 10;
    assert DigitsValue(s, 10).None?;
  }

  lemma WordBool(b: bool)
    ensures AsBool(PrintBool(b)) == Some(b)
  {
    hide IsFloat, IntegerOf, DigitsValue, Magnitude;
    assert ToLower("true") == "true" && ToLower("false") == "false";
  }

  lemma BoolRoundTrip(b: bool)
    ensures AsBool(PrintBool(b)) == Some(b)
    ensures ScalarKind(PrintBool(b)) == BOOL
    ensures AsUint(PrintBool(b)).None? && AsInt(PrintBool(b)).None? && !IsFloat(PrintBool(b))
  {
    hide IsFloat, IntegerOf, DigitsValue, Magnitude, AsBool, TrimEnd;
    WordText(PrintBool(b));
    WordBool(b);
  }

  // ---- The type of a text ----

  /** The type is that of the first accessor, in the order unsigned int, int, float and bool, that can read the
      text, and string if none can. */
  lemma TypeIsFirstReader(s: string)
    ensures ScalarKind(s) == UINT32 <==> AsUint(s).Some?
    ensures ScalarKind(s) == INT32 <==> AsUint(s).None? && AsInt(s).Some?
    ensures ScalarKind(s) == FLOAT <==> AsUint(s).None? && AsInt(s).None? && IsFloat(s)
    ensures ScalarKind(s) == BOOL <==> AsUint(s).None? && AsInt(s).None? && !IsFloat(s) && AsBool(s).Some?
    ensures ScalarKind(s) == STRING <==> AsUint(s).None? && AsInt(s).None? && !IsFloat(s) && AsBool(s).None?
  {
    hide IsFloat, AsBool;
    if AsUint(s).Some? { UintText(s); }
  }

  lemma {:induction false} OnlyDigits(s: string)
    requires forall i :: 0 <= i < |s| ==> IsDigit(s[i])
    ensures SkipDigits(s) == ""
  {
    if s != "" { OnlyDigits(s[1..]); }
  }

  lemma DigitsDecimal(s: string, n: nat)
    requires s != "" && (forall i :: 0 <= i < |s| ==> IsDigit(s[i])) && DigitsValue(s, 10) == Some(n)
    ensures DecimalOf(s) == Some(Decimal(n, 0))
  {
    hide DigitsValue, TrimEnd, SkipSpace, SkipDigits, IsSpace, UnsignedOf;
    assert IsDigit(s[0]) && IsDigit(s[|s| - 1]);
    NoSpace(s);
    OnlyDigits(s);
    UnsignedInteger(s);
  }

  lemma UnsignedInteger(s: string)
    requires s != "" && SkipDigits(s) == ""
    ensures UnsignedOf(s) == Some(Decimal(NumberOf(s), 0))
  {
    hide DigitsValue, SkipDigits, NumberOf;
    assert s[..|s|] + "" == s;
  }

  lemma DigitsAreNoWord(s: string)
    requires s != "" && IsDigit(s[0])
    ensures AsBool(s).None? && SkipSign(s) !in [".inf", ".Inf", ".INF"] && s !in [".nan", ".NaN", ".NAN"]
  {
  }

  /** Every natural number in decimal: unsigned int below 2^63, float up to the largest one, and beyond it string. */
  lemma NatKind(n: nat)
    ensures ScalarKind(PrintNat(n)) == if n < TWO_63 then UINT32 else if n < FLOAT_LIMIT then FLOAT else STRING
  {
    hide AsBool, TrimEnd, DecimalOf, DigitsValue, PrintNat, IntegerOf;
    var s := PrintNat(n);
    PrintNatDigits(n);
    PrintNatInteger(n);
    DigitsDecimal(s, n);
    DigitsAreNoWord(s);
    assert Power10(0) == 1;
  }

  lemma OneWithExponent(e: string, k: nat)
    requires e != "" && (forall i :: 0 <= i < |e| ==> IsDigit(e[i])) && DigitsValue(e, 10) == Some(k)
    ensures DecimalOf("1e" + e) == Some(Decimal(1, k))
  {
    hide DigitsValue, TrimEnd, SkipSpace, SkipDigits, IsSpace, UnsignedOf;
    var s := "1e" + e;
    assert IsDigit(e[0]) && s[|s| - 1] == e[|e| - 1] && IsDigit(e[|e| - 1]);
    NoSpace(s);
    OnlyDigits(e);
    MantissaOne(s, e);
    UnsignedOne(s, e);
    OneDigit();
  }

  lemma MantissaOne(s: string, e: string)
    requires s == "1e" + e
    ensures SkipDigits(s) == "e" + e
  {
    assert s[1..] == "e" + e;
  }

  lemma UnsignedOne(s: string, e: string)
    requires s == "1e" + e && SkipDigits(s) == "e" + e && SkipDigits(e) == "" && e != "" && IsDigit(e[0])
    ensures UnsignedOf(s) == Some(Decimal(NumberOf("1"), NumberOf(e)))
  {
    hide DigitsValue, SkipDigits, NumberOf;
    assert ("e" + e)[1..] == e && SkipSign(e) == e;
    assert s[..|s| - |"e" + e|] + "" == "1";
  }

  lemma OneDigit()
    ensures DigitsValue("1", 10) == Some(1)
  {
    assert "1"[..0] == "";
  }

  lemma Exponents()
    ensures DigitsValue("38", 10) == Some(38) && DigitsValue("39", 10) == Some(39)
  {
    assert "38"[..1] == "3" && "39"[..1] == "3" && "3"[..0] == "";
  }

  lemma Powers()
    ensures Power10(38) < FLOAT_LIMIT <= Power10(39)
  {
    assert Power10(13) == 10000000000000;
    assert Power10(26) == 100000000000000000000000000;
  }

  /** The largest power of ten that is a float, and the first that is a string. */
  lemma PowerKinds()
    ensures ScalarKind("1e38") == FLOAT && ScalarKind("1e39") == STRING
  {
    hide AsBool, TrimEnd, DecimalOf, DigitsValue, IntegerOf, Power10;
    Exponents();
    Powers();
    OneWithExponent("38", 38);
    OneWithExponent("39", 39);
    assert "1e" + "38" == "1e38" && "1e" + "39" == "1e39";
    ExponentNoInteger("38");
    ExponentNoInteger("39");
    DigitsAreNoWord("1e38");
    DigitsAreNoWord("1e39");
  }

  lemma ExponentNoInteger(e: string)
    requires |e| == 2 && IsDigit(e[0]) && IsDigit(e[1])
    ensures IntegerOf("1e" + e).None? && IntegerOf(TrimEnd("1e" + e)).None?
  {
    var s := "1e" + e;
    NoSpace(s);
    assert s[..3] == "1e" + [e[0]] && s[..3][..2] == "1e" && s[..2] == "1e";
    assert DigitsValue("1e", 10).None? by { assert "1e"[1] == 'e'; }
    assert DigitsValue(s[..3], 10).None? && DigitsValue(s, 10).None?;
  }

  lemma TextKinds()
    ensures FirstKind(["1", "2"]) == UINT32 && ScalarKind("x") == STRING
  {
    hide IsFloat, IntegerOf;
    UintRoundTrip(1);
    assert PrintNat(1) == "1";
    assert TrimEnd("x") == "x";
    LetterText();
    assert AsBool("x").None? by { assert ToLower("x") == "x"; }
  }

  lemma LetterText()
    ensures IntegerOf("x").None? && !IsFloat("x")
  {
    assert TrimEnd("x") == "x" && SkipSpace("x") == "x" && SkipSign("x") == "x" && SkipDigits("x") == "x";
    assert DigitsValue("x", 10).None?;
  }

  // ---- The words for truth values ----

  /** A word of lower-case letters, capitalized and in upper case. */
  predicate Forms(w: string, capitalized: string, upper: string) {
    && w != "" && |capitalized| == |upper| == |w|
    && (forall i :: 0 <= i < |w| ==> IsLower(w[i]) && upper[i] as int + 32 == w[i] as int)
    && capitalized[0] == upper[0] && capitalized[1..] == w[1..]
  }

  /** A text is a word, whatever its case, exactly in lower case, capitalized or in upper case. */
  lemma WordForms(s: string, w: string, capitalized: string, upper: string)
    requires Forms(w, capitalized, upper)
    ensures s != "" && IsFlexibleCase(s) && ToLower(s) == w <==> s == w || s == capitalized || s == upper
  {
    var c := capitalized;
    assert forall i :: 1 <= i < |w| ==> c[i] == c[1..][i - 1] && w[i] == w[1..][i - 1];
    if s != "" && IsFlexibleCase(s) && ToLower(s) == w {
      assert |s| == |w| && forall i :: 0 <= i < |w| ==> ToLower(s)[i] == w[i];
      if forall i :: 0 <= i < |s| ==> IsLower(s[i]) {
        assert s == w;
      } else if forall i :: 1 <= i < |s| ==> IsLower(s[i]) {
        assert s == c;
      } else {
        assert s == upper;
      }
    }
    assert ToLower(w) == w && ToLower(c) == w && ToLower(upper) == w;
    assert IsLower(w[0]) && IsUpper(c[0]) && IsUpper(upper[0]);
    assert forall i :: 1 <= i < |w| ==> IsUpper(upper[i]);
  }

  lemma TrueForms()
    ensures Forms("y", "Y", "Y") && Forms("yes", "Yes", "YES") && Forms("true", "True", "TRUE")
            && Forms("on", "On", "ON")
  {
  }

  lemma FalseForms()
    ensures Forms("n", "N", "N") && Forms("no", "No", "NO") && Forms("false", "False", "FALSE")
            && Forms("off", "Off", "OFF")
  {
  }

  lemma NotEmptyBool()
    ensures AsBool("").None?
  {
    hide IsFlexibleCase;
    assert |ToLower("")| == 0;
  }

  /** What reads as a truth value: y, yes, true and on, and n, no, false and off, in lower case, capitalized or in
      upper case, and nothing else. */
  lemma TruthWords(s: string)
    ensures AsBool(s) == Some(true) <==>
            s in ["y", "Y", "yes", "Yes", "YES", "true", "True", "TRUE", "on", "On", "ON"]
    ensures AsBool(s) == Some(false) <==>
            s in ["n", "N", "no", "No", "NO", "false", "False", "FALSE", "off", "Off", "OFF"]
  {
    hide IsFlexibleCase, ToLower, AsBool;
    NotEmptyBool();
    TrueWord(s);
    FalseWord(s);
    if s != "" { BoolOf(s); }
  }

  lemma TrueWord(s: string)
    ensures s != "" && IsFlexibleCase(s) && ToLower(s) in ["y", "yes", "true", "on"] <==>
            s in ["y", "Y", "yes", "Yes", "YES", "true", "True", "TRUE", "on", "On", "ON"]
  {
    hide IsFlexibleCase, ToLower, Forms;
    TrueForms();
    WordForms(s, "y", "Y", "Y");
    WordForms(s, "yes", "Yes", "YES");
    WordForms(s, "true", "True", "TRUE");
    WordForms(s, "on", "On", "ON");
  }

  lemma FalseWord(s: string)
    ensures s != "" && IsFlexibleCase(s) && ToLower(s) in ["n", "no", "false", "off"] <==>
            s in ["n", "N", "no", "No", "NO", "false", "False", "FALSE", "off", "Off", "OFF"]
  {
    hide IsFlexibleCase, ToLower, Forms;
    FalseForms();
    WordForms(s, "n", "N", "N");
    WordForms(s, "no", "No", "NO");
    WordForms(s, "false", "False", "FALSE");
    WordForms(s, "off", "Off", "OFF");
  }

  lemma BoolOf(s: string)
    requires s != ""
    ensures AsBool(s) == Some(true) <==>
            IsFlexibleCase(s) && ToLower(s) in ["y", "yes", "true", "on"]
    ensures AsBool(s) == Some(false) <==>
            IsFlexibleCase(s) && ToLower(s) in ["n", "no", "false", "off"]
  {
    hide IsFlexibleCase, ToLower;
  }
}
