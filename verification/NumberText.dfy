/** The texts that are read as numbers: the integers of strtol with base 0 and the decimal numbers of
    stream extraction, as convert (src/libs/config/yaml_node.h) uses them. */
module NumberText {
  import opened ScalarText

  // ---- Integers in base 8, 10 and 16 ----

  const HEX := "0123456789abcdef"
  const UPPER_HEX := "0123456789ABCDEF"
  const OCTAL := "01234567"

  /** A number written with the digits of a base. */
  function Written(n: nat, digits: string): (s: string)
    requires |digits| >= 2
    ensures s != ""
  {
    if n < |digits| then [digits[n]] else Written(n / |digits|, digits) + [digits[n % |digits|]]
  }

  lemma DigitValues()
    ensures forall d :: 0 <= d < 16 ==> DigitValue(HEX[d]) == DigitValue(UPPER_HEX[d]) == d
    ensures forall d :: 0 <= d < 8 ==> DigitValue(OCTAL[d]) == d
  {
  }

  lemma {:induction false} WrittenValue(n: nat, digits: string)
    requires |digits| >= 2 && forall d :: 0 <= d < |digits| ==> DigitValue(digits[d]) == d
    ensures DigitsValue(Written(n, digits), |digits|) == Some(n)
  {
    hide DigitValue, DigitsValue;
    var b := |digits|;
    if n < b {
      OneMore("", 0, digits[n], n, b);
      assert "" + [digits[n]] == [digits[n]] && 0 * b == 0;
    } else {
      WrittenValue(n / b, digits);
      Quotient(n, b);
      OneMore(Written(n / b, digits), n / b, digits[n % b], n % b, b);
    }
  }

  lemma OneMore(s: string, q: nat, c: char, d: nat, base: nat)
    requires (s == "" && q == 0) || DigitsValue(s, base) == Some(q)
    requires DigitValue(c) == d < base
    ensures DigitsValue(s + [c], base) == Some(q * base + d)
  {
    hide DigitValue;
    assert (s + [c])[..|s|] == s;
  }

  lemma Quotient(n: nat, b: nat)
    requires b > 0
    ensures n / b * b + n % b == n
  {
  }

  /** A zero in front changes nothing. */
  lemma {:induction false} LeadingZero(s: string, base: nat)
    requires base > 0
    ensures DigitsValue("0" + s, base) == DigitsValue(s, base)
    decreases |s|
  {
    if s == "" {
      assert ("0" + s)[..0] == "";
    } else {
      LeadingZero(s[..|s| - 1], base);
      assert ("0" + s)[..|s|] == "0" + s[..|s| - 1];
    }
  }

  /** Every number is read back from its hexadecimal and its octal text, told apart by their prefixes. */
  lemma BasesRead(n: nat)
    ensures Magnitude("0x" + Written(n, HEX)) == Magnitude("0X" + Written(n, HEX)) == Some(n)
    ensures Magnitude("0x" + Written(n, UPPER_HEX)) == Magnitude("0X" + Written(n, UPPER_HEX)) == Some(n)
    ensures Magnitude("0" + Written(n, OCTAL)) == Some(n)
    ensures Magnitude(PrintNat(n)) == Some(n)
  {
    hide DigitsValue, DigitValue, Written, PrintNat;
    DigitValues();
    HexRead(n, HEX);
    HexRead(n, UPPER_HEX);
    OctalRead(n);
    PrintNatDigits(n);
    DigitMagnitude(PrintNat(n), n);
  }

  lemma HexRead(n: nat, digits: string)
    requires |digits| == 16 && forall d :: 0 <= d < 16 ==> DigitValue(digits[d]) == d
    ensures Magnitude("0x" + Written(n, digits)) == Magnitude("0X" + Written(n, digits)) == Some(n)
  {
    hide DigitsValue, DigitValue, Written;
    var s := Written(n, digits);
    WrittenValue(n, digits);
    assert ("0x" + s)[2..] == s && ("0X" + s)[2..] == s;
  }

  lemma {:induction false} OctalDigits(n: nat)
    ensures forall i :: 0 <= i < |Written(n, OCTAL)| ==> Written(n, OCTAL)[i] in OCTAL
  {
    if n >= 8 { OctalDigits(n / 8); }
  }

  lemma OctalRead(n: nat)
    ensures Magnitude("0" + Written(n, OCTAL)) == Some(n)
  {
    hide DigitsValue, DigitValue, Written;
    DigitValues();
    var s := Written(n, OCTAL);
    WrittenValue(n, OCTAL);
    LeadingZero(s, 8);
    OctalDigits(n);
    assert s[0] in OCTAL && ("0" + s)[1] == s[0];
  }

  lemma {:induction false} SpaceBefore(w: string, s: string)
    requires forall i :: 0 <= i < |w| ==> IsSpace(w[i])
    ensures SkipSpace(w + s) == SkipSpace(s)
  {
    if w == "" {
      assert w + s == s;
    } else {
      assert (w + s)[1..] == w[1..] + s;
      SpaceBefore(w[1..], s);
    }
  }

  lemma {:induction false} SpaceBehind(s: string, w: string)
    requires forall i :: 0 <= i < |w| ==> IsSpace(w[i])
    ensures TrimEnd(s + w) == TrimEnd(s)
    decreases |w|
  {
    if w == "" {
      assert s + w == s;
    } else {
      assert (s + w)[..|s + w| - 1] == s + w[..|w| - 1];
      SpaceBehind(s, w[..|w| - 1]);
    }
  }

  /** A sign and white space may go before an integer. */
  lemma SignsRead(w: string, s: string, n: nat)
    requires (forall i :: 0 <= i < |w| ==> IsSpace(w[i])) && Magnitude(s) == Some(n) && s != "" && IsDigit(s[0])
    ensures IntegerOf(w + s) == IntegerOf(w + ("+" + s)) == Some(n as int)
    ensures IntegerOf(w + ("-" + s)) == Some(-(n as int))
  {
    hide Magnitude;
    SpaceBefore(w, s);
    SpaceBefore(w, "+" + s);
    SpaceBefore(w, "-" + s);
    assert ("+" + s)[1..] == s && ("-" + s)[1..] == s;
  }

  /** What the two accessors make of an integer text: the first wraps at 32 bits and does not read negative
      numbers or 2^63 and more, the second reads 32-bit numbers only; white space may follow for the second alone. */
  lemma AccessorRanges(s: string, i: int, w: string)
    requires IntegerOf(s) == Some(i)
    requires w != "" && forall j :: 0 <= j < |w| ==> IsSpace(w[j])
    ensures AsUint(s) == if 0 <= i < TWO_63 then Some(i % TWO_32) else None
    ensures AsInt(s) == if -TWO_31 <= i < TWO_31 then Some(i) else None
    ensures AsUint(s + w).None? && AsInt(s + w) == AsInt(s)
  {
    hide IsSpace, TrimEnd;
    UintText(s);
    SpaceBehind(s, w);
    if IntegerOf(s + w).Some? {
      UintText(s + w);
      assert false;
    }
  }

  lemma BothAccessors(s: string)
    requires AsUint(s).Some? && AsInt(s).Some?
    ensures AsUint(s).value == AsInt(s).value
  {
    UintText(s);
  }

  lemma {:induction false} WrongDigit(s: string, i: nat, base: nat)
    requires i < |s| && DigitValue(s[i]) >= base
    ensures DigitsValue(s, base).None?
    decreases |s|
  {
    if i < |s| - 1 { WrongDigit(s[..|s| - 1], i, base); }
  }

  /** What reads as a truth value reads as no integer. */
  lemma TruthNoInteger(s: string)
    requires AsBool(s).Some?
    ensures AsUint(s).None? && AsInt(s).None?
  {
    hide DigitsValue, TrimEnd, SkipSpace;
    assert s != "" by { NotEmptyBool(); }
    assert IsFlexibleCase(s);
    LettersNoInteger(s);
  }

  lemma LettersNoInteger(s: string)
    requires s != "" && IsFlexibleCase(s)
    ensures IntegerOf(s).None? && TrimEnd(s) == s
  {
    assert (IsLower(s[0]) || IsUpper(s[0])) && !IsSpace(s[0]) && !IsSpace(s[|s| - 1]);
    assert DigitValue(s[0]) >= 10 && SkipSpace(s) == s;
    WrongDigit(s, 0, 10);
  }

  // ---- Decimal numbers ----

  predicate IsDigits(s: string) {
    forall i :: 0 <= i < |s| ==> IsDigit(s[i])
  }

  lemma {:induction false} SkipToRest(a: string, rest: string)
    requires IsDigits(a) && (rest == "" || !IsDigit(rest[0]))
    ensures SkipDigits(a + rest) == rest
  {
    if a == "" {
      assert a + rest == rest;
    } else {
      assert (a + rest)[0] == a[0] && (a + rest)[1..] == a[1..] + rest;
      SkipToRest(a[1..], rest);
    }
  }

  /** The exponent part of a number: none, or an e, perhaps a sign, and digits. */
  predicate ExponentText(x: string, k: nat, e: int) {
    || (x == "" && e == 0)
    || (e == k && x in ["e" + PrintNat(k), "E" + PrintNat(k), "e+" + PrintNat(k), "E+" + PrintNat(k)])
    || (e == 0 - k as int && x in ["e-" + PrintNat(k), "E-" + PrintNat(k)])
  }

  lemma ExponentRead(x: string, k: nat, e: int)
    requires ExponentText(x, k, e)
    ensures IsExponent(x) && ExponentOf(x) == e
    ensures x != "" ==> !IsDigit(x[0]) && x[0] != '.' && IsDigit(x[|x| - 1])
  {
    hide PrintNat, SkipDigits, DigitsValue;
    var d := PrintNat(k);
    PrintNatDigits(k);
    OnlyDigits(d);
    assert IsDigit(d[0]) && IsDigit(d[|d| - 1]);
    if x != "" {
      ExponentParts(x, d);
    }
  }

  lemma ExponentParts(x: string, d: string)
    requires d != "" && IsDigit(d[0])
    requires x in ["e" + d, "E" + d, "e+" + d, "E+" + d, "e-" + d, "E-" + d]
    ensures x[0] in "eE" && |x| > 1 && SkipSign(x[1..]) == d && x[|x| - 1] == d[|d| - 1]
    ensures x[1] == '-' <==> x in ["e-" + d, "E-" + d]
  {
    if x == "e" + d || x == "E" + d {
      assert x[1..] == d;
    } else {
      assert x[1..] == [x[1]] + d && x[2..] == d;
    }
  }

  lemma UnsignedRead(a: string, f: string, x: string)
    requires IsDigits(a) && IsDigits(f) && a + f != "" && IsExponent(x)
    requires x != "" ==> !IsDigit(x[0]) && x[0] != '.'
    ensures UnsignedOf(a + ("." + (f + x))) == Some(Decimal(NumberOf(a + f), ExponentOf(x) - |f|))
    ensures f == "" ==> UnsignedOf(a + x) == Some(Decimal(NumberOf(a), ExponentOf(x)))
  {
    hide NumberOf, IsExponent, SkipDigits, ExponentOf;
    var t := "." + (f + x);
    SkipToRest(a, t);
    SkipToRest(f, x);
    SkipToRest(a, x);
    assert t[1..] == f + x && t[1..|t| - |x|] == f;
    assert (a + t)[..|a + t| - |t|] == a && (a + x)[..|a + x| - |x|] == a;
    if f == "" { assert a + f == a; }
  }

  lemma Trimmed(w: string, s: string, w': string)
    requires s != "" && !IsSpace(s[0]) && !IsSpace(s[|s| - 1])
    requires (forall i :: 0 <= i < |w| ==> IsSpace(w[i])) && (forall i :: 0 <= i < |w'| ==> IsSpace(w'[i]))
    ensures SkipSpace(TrimEnd(w + s + w')) == s
  {
    hide IsSpace;
    SpaceBehind(w + s, w');
    SpaceBefore(w, s);
    assert (w + s)[|w + s| - 1] == s[|s| - 1];
  }

  lemma NumberEnds(s: string)
    requires s != "" && (IsDigit(s[0]) || s[0] == '.') && (IsDigit(s[|s| - 1]) || s[|s| - 1] == '.')
    ensures !IsSpace(s[0]) && !IsSpace(s[|s| - 1]) && SkipSign(s) == s
  {
  }

  lemma SignedRead(w: string, g: string, s: string, w': string)
    requires s != "" && (IsDigit(s[0]) || s[0] == '.') && (IsDigit(s[|s| - 1]) || s[|s| - 1] == '.')
    requires g in ["", "+", "-"]
    requires (forall i :: 0 <= i < |w| ==> IsSpace(w[i])) && (forall i :: 0 <= i < |w'| ==> IsSpace(w'[i]))
    ensures DecimalOf(w + (g + s) + w') == UnsignedOf(s)
  {
    hide UnsignedOf, TrimEnd, SkipSpace, IsDigit;
    NumberEnds(s);
    Trimmed(w, g + s, w');
    assert (g + s)[|g + s| - 1] == s[|s| - 1];
    if g == "" { assert g + s == s; } else { assert (g + s)[1..] == s; }
  }

  /** Every decimal number is read as what it says: digits, perhaps a point and a fraction, perhaps an exponent, with a
      sign and white space around it. */
  lemma DecimalRead(w: string, g: string, a: string, f: string, x: string, k: nat, e: int, w': string)
    requires IsDigits(a) && IsDigits(f) && a + f != "" && ExponentText(x, k, e) && g in ["", "+", "-"]
    requires (forall i :: 0 <= i < |w| ==> IsSpace(w[i])) && (forall i :: 0 <= i < |w'| ==> IsSpace(w'[i]))
    ensures DecimalOf(w + (g + (a + ("." + (f + x)))) + w') == Some(Decimal(NumberOf(a + f), e - |f|))
    ensures f == "" ==> DecimalOf(w + (g + (a + x)) + w') == Some(Decimal(NumberOf(a), e))
  {
    hide NumberOf, UnsignedOf, ExponentText, IsExponent, DecimalOf, IsSpace, ExponentOf;
    ExponentRead(x, k, e);
    UnsignedRead(a, f, x);
    var s := a + ("." + (f + x));
    assert s[0] == (if a == "" then '.' else a[0]);
    assert s[|s| - 1] == (if x != "" then x[|x| - 1] else if f != "" then f[|f| - 1] else '.');
    SignedRead(w, g, s, w');
    if f == "" {
      assert a + f == a;
      assert (a + x)[|a + x| - 1] == if x != "" then x[|x| - 1] else a[|a| - 1];
      SignedRead(w, g, a + x, w');
    }
  }

  lemma {:induction false} PowerSum(i: nat, j: nat)
    ensures Power10(i + j) == Power10(i) * Power10(j) && Power10(j) > 0
    decreases j
  {
    if j > 0 { PowerSum(i, j - 1); }
  }

  lemma Scaled(m: nat, l: nat, p: nat)
    requires p > 0
    ensures m * p < l * p <==> m < l
  {
  }

  /** Whether a number is in range depends on the number alone, not on where its point is. */
  lemma SameNumber(m: nat, e: int, j: nat)
    ensures InFloatRange(Decimal(m * Power10(j), e - j)) <==> InFloatRange(Decimal(m, e))
  {
    hide Power10, InFloatRange;
    RangeOf(m * Power10(j), e - j);
    RangeOf(m, e);
    if e >= j {
      PowerSum(j, e - j);
      Regrouped(m, Power10(j), Power10(e - j));
    } else if e >= 0 {
      PowerSum(e, j - e);
      Regrouped(m, Power10(e), Power10(j - e));
      Scaled(m * Power10(e), FLOAT_LIMIT, Power10(j - e));
    } else {
      PowerSum(-e, j);
      Regrouped(FLOAT_LIMIT, Power10(-e), Power10(j));
      Scaled(m, FLOAT_LIMIT * Power10(-e), Power10(j));
    }
  }

  lemma RangeOf(m: nat, e: int)
    ensures e >= 0 ==> (InFloatRange(Decimal(m, e)) <==> m * Power10(e) < FLOAT_LIMIT)
    ensures e < 0 ==> (InFloatRange(Decimal(m, e)) <==> m < FLOAT_LIMIT * Power10(-e))
  {
  }

  lemma Regrouped(m: nat, p: nat, q: nat)
    ensures m * (p * q) == m * p * q
  {
  }

  // ---- Types of texts with a point ----

  lemma PointMagnitude(s: string, i: nat)
    requires i < |s| && s[i] == '.'
    ensures Magnitude(s).None?
  {
    WrongDigit(s, i, 8);
    WrongDigit(s, i, 10);
    if |s| > 2 && i >= 2 { WrongDigit(s[2..], i - 2, 16); }
  }

  lemma {:induction false} PointStays(s: string, i: nat)
    requires i < |s| && s[i] == '.'
    ensures '.' in SkipSpace(s)
    decreases |s|
  {
    if i > 0 { PointStays(s[1..], i - 1); }
  }

  lemma PointNoInteger(s: string)
    requires '.' in s
    ensures IntegerOf(s).None?
  {
    hide Magnitude, SkipSpace;
    var i :| 0 <= i < |s| && s[i] == '.';
    PointStays(s, i);
    var t := SkipSpace(s);
    var j :| 0 <= j < |t| && t[j] == '.';
    PointMagnitude(t, j);
    if j > 0 { PointMagnitude(t[1..], j - 1); }
  }

  lemma {:induction false} PointTrimmed(s: string, i: nat)
    requires i < |s| && s[i] == '.'
    ensures '.' in TrimEnd(s)
    decreases |s|
  {
    if i < |s| - 1 { PointTrimmed(s[..|s| - 1], i); }
  }

  /** A text with a point is a float or a string. */
  lemma PointKind(s: string)
    requires '.' in s
    ensures ScalarKind(s) == if IsFloat(s) then FLOAT else STRING
  {
    hide IntegerOf, TrimEnd, IsFloat;
    var i :| 0 <= i < |s| && s[i] == '.';
    PointTrimmed(s, i);
    PointNoInteger(s);
    PointNoInteger(TrimEnd(s));
    assert !IsLower(s[i]) && !IsUpper(s[i]);
  }

  /** The words for infinity, with or without a sign, and those for no number. */
  lemma FloatWords(g: string, s: string)
    requires g in ["", "+", "-"]
    ensures s in [".inf", ".Inf", ".INF"] ==> ScalarKind(g + s) == FLOAT
    ensures s in [".nan", ".NaN", ".NAN"] ==> ScalarKind(s) == FLOAT && (g != "" ==> ScalarKind(g + s) == STRING)
  {
    hide ScalarKind, DecimalOf, InFloatRange;
    if s in [".inf", ".Inf", ".INF", ".nan", ".NaN", ".NAN"] {
      var t := g + s;
      assert s[0] == '.' && t[|g|] == '.';
      PointKind(s);
      PointKind(t);
      assert SkipSign(t) == s by { if g == "" { assert t == s; } else { assert t[1..] == s; } }
      WordNoDecimal(g, s);
    }
  }

  lemma WordNoDecimal(g: string, s: string)
    requires g in ["", "+", "-"] && |s| == 4 && s[0] == '.' && s[1] in "iInN" && s[3] in "fFnN"
    ensures DecimalOf(g + s).None?
  {
    hide UnsignedOf;
    var t := g + s;
    assert t[|t| - 1] == s[3] && TrimEnd(t) == t;
    assert !IsSpace(t[0]) && SkipSpace(t) == t;
    assert SkipSign(t) == s by { if g == "" { assert t == s; } else { assert t[1..] == s; } }
    WordNoNumber(s);
  }

  lemma WordNoNumber(s: string)
    requires |s| == 4 && s[0] == '.' && s[1] in "iInN"
    ensures UnsignedOf(s).None?
  {
    assert SkipDigits(s) == s && SkipDigits(s[1..]) == s[1..];
  }

  /** The type of a decimal number with a point: float as far as floats go, and string beyond. */
  lemma DecimalKind(w: string, g: string, a: string, f: string, x: string, k: nat, e: int, w': string)
    requires IsDigits(a) && IsDigits(f) && a + f != "" && ExponentText(x, k, e) && g in ["", "+", "-"]
    requires (forall i :: 0 <= i < |w| ==> IsSpace(w[i])) && (forall i :: 0 <= i < |w'| ==> IsSpace(w'[i]))
    ensures ScalarKind(w + (g + (a + ("." + (f + x)))) + w') ==
            if InFloatRange(Decimal(NumberOf(a + f), e - |f|)) then FLOAT else STRING
  {
    hide ScalarKind, DecimalOf, NumberOf, InFloatRange, ExponentText, IsSpace;
    var s := w + (g + (a + ("." + (f + x)))) + w';
    DecimalRead(w, g, a, f, x, k, e, w');
    assert s[|w + g + a|] == '.';
    PointKind(s);
    if SkipSign(s) in [".inf", ".Inf", ".INF"] || s in [".nan", ".NaN", ".NAN"] { WordIsNone(s); }
  }

  lemma WordIsNone(s: string)
    requires SkipSign(s) in [".inf", ".Inf", ".INF"] || s in [".nan", ".NaN", ".NAN"]
    ensures DecimalOf(s).None?
  {
    hide DecimalOf;
    var u := SkipSign(s);
    if u == s {
      assert "" + s == s;
      WordNoDecimal("", s);
    } else {
      assert [s[0]] + u == s && [s[0]] in ["+", "-"];
      WordNoDecimal([s[0]], u);
    }
  }

  // ---- What is no number ----

  /** White space is the six characters that isspace knows. */
  lemma SpaceCharacters(c: char)
    ensures IsSpace(c) <==> c == ' ' || 9 <= c as int <= 13
  {
  }

  lemma {:induction false} SplitDigits(s: string)
    ensures var r := SkipDigits(s);
            s == s[..|s| - |r|] + r && IsDigits(s[..|s| - |r|]) && (r != "" ==> !IsDigit(r[0]))
  {
    if s != "" && IsDigit(s[0]) {
      SplitDigits(s[1..]);
      var r := SkipDigits(s[1..]);
      assert s[..|s| - |r|] == [s[0]] + s[1..][..|s| - 1 - |r|];
    }
  }

  /** A number without a sign is made of digits, perhaps a point and more digits, at least one digit in all, and perhaps
      an exponent; nothing else is one. */
  lemma OnlyDecimals(s: string) returns (a: string, f: string, x: string)
    requires UnsignedOf(s).Some?
    ensures IsDigits(a) && IsDigits(f) && a + f != "" && IsExponent(x)
    ensures s == a + ("." + (f + x)) || (f == "" && s == a + x)
  {
    hide SkipDigits, IsExponent, NumberOf, ExponentOf;
    SplitDigits(s);
    var t := SkipDigits(s);
    a := s[..|s| - |t|];
    if t != "" && t[0] == '.' {
      SplitDigits(t[1..]);
      x := SkipDigits(t[1..]);
      f := t[1..|t| - |x|];
      assert t[1..][..|t| - 1 - |x|] == f && t == "." + t[1..];
    } else {
      f, x := "", t;
      assert a + f == a;
    }
  }

  /** An exponent is an e, perhaps a sign, and at least one digit. */
  lemma OnlyExponents(x: string) returns (d: string)
    requires IsExponent(x) && x != ""
    ensures d != "" && IsDigits(d)
    ensures x in ["e" + d, "E" + d, "e+" + d, "E+" + d, "e-" + d, "E-" + d]
  {
    hide SkipDigits;
    d := SkipSign(x[1..]);
    SplitDigits(d);
    assert IsDigits(d) by { assert d[..|d|] == d; }
    if d == x[1..] {
      assert x == [x[0]] + d;
    } else {
      assert x == [x[0], x[1]] + d;
    }
  }

  /** The largest number that is still a float, and the next one, which is a string. */
  lemma LargestFloat()
    ensures ScalarKind(PrintNat(340282356779733661637539395458142568447)) == FLOAT
    ensures ScalarKind(PrintNat(340282356779733661637539395458142568448)) == STRING
    ensures ScalarKind(PrintNat(9223372036854775807)) == UINT32 && ScalarKind(PrintNat(9223372036854775808)) == FLOAT
  {
    hide PrintNat, ScalarKind;
    NatKind(340282356779733661637539395458142568447);
    NatKind(340282356779733661637539395458142568448);
    NatKind(9223372036854775807);
    NatKind(9223372036854775808);
  }
}
