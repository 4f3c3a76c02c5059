/** Conversion between decimal strings and symbolic numbers: parsing by long
    division of the decimal digit vector by 256, and formatting by long
    division of the base-256 digit vector by 10. */
module DecimalConversion {
  import opened Digits
  import opened SymbolicNumbers
  import Cache

  /** is_ascii_digit */
  predicate IsDecimalChar(c: char)
  {
    '0' <= c <= '9'
  }

  /** The digit c stands for, or nothing when c is not a decimal digit. */
  function CharDigits(c: char): (ds: seq<u8>)
    ensures |ds| <= 1
    ensures |ds| == 1 <==> IsDecimalChar(c)
  {
    if IsDecimalChar(c) then [c as int - '0' as int] else []
  }

  /** The decimal digits of s, most significant first; every character that
      is not a decimal digit is dropped. */
  function DecimalDigits(s: string): (ds: seq<u8>)
    ensures IsDigits(ds, 10)
    ensures |ds| <= |s|
  {
    if s == [] then [] else CharDigits(s[0]) + DecimalDigits(s[1..])
  }

  /** The number the decimal digits of s spell. */
  function DecimalValue(s: string): nat
  {
    ValueBE(DecimalDigits(s), 10)
  }

  /** `d + b'0'` for every digit. */
  function DigitChars(ds: seq<nat>): (cs: string)
    requires IsDigits(ds, 10)
    ensures |cs| == |ds|
    ensures forall i :: 0 <= i < |cs| ==> IsDecimalChar(cs[i])
  {
    seq(|ds|, i requires 0 <= i < |ds| => (ds[i] + '0' as int) as char)
  }

  /** The canonical decimal notation of v: most significant digit first, no
      leading '0' unless v is zero. */
  function DecimalString(v: nat): (s: string)
    ensures |s| >= 1
    ensures forall i :: 0 <= i < |s| ==> IsDecimalChar(s[i])
    ensures s[0] != '0' || s == "0"
  {
    var ds := Expand(v, 10);
    ReverseDigits(ds, 10);
    DigitChars(Reverse(ds))
  }

  /** A string the decimal notation of some number takes. */
  predicate IsCanonicalDecimal(s: string)
  {
    |s| >= 1 && (forall i :: 0 <= i < |s| ==> IsDecimalChar(s[i])) && (s[0] != '0' || s == "0")
  }

  // ---------------------------------------------------------------------------
  // Digit strings

  /** The filter keeps nothing exactly when s has no decimal digit. */
  lemma {:induction false} NoDecimalDigits(s: string)
    ensures DecimalDigits(s) == [] <==> forall i :: 0 <= i < |s| ==> !IsDecimalChar(s[i])
    decreases |s|
  {
    if s != [] {
      NoDecimalDigits(s[1..]);
      assert forall i :: 1 <= i < |s| ==> s[1..][i - 1] == s[i];
    }
  }

  /** Filtering distributes over concatenation. */
  lemma {:induction false} DecimalDigitsAppend(s: string, t: string)
    ensures DecimalDigits(s + t) == DecimalDigits(s) + DecimalDigits(t)
    decreases |s|
  {
    if s != [] {
      assert (s + t)[1..] == s[1..] + t;
      DecimalDigitsAppend(s[1..], t);
    } else {
      assert s + t == t;
    }
  }

  lemma DecimalDigitsCons(c: char, s: string)
    ensures DecimalDigits([c] + s) == CharDigits(c) + DecimalDigits(s)
  {
    assert ([c] + s)[1..] == s;
  }

  /** Characters other than '0'..'9' are ignored wherever they appear. */
  lemma IgnoresNonDigits()
    ensures DecimalDigits("1a2b3") == DecimalDigits("123") == [1, 2, 3]
  {
    assert "3" == ['3'] + "";
    DecimalDigitsCons('3', "");
    assert "b3" == ['b'] + "3";
    DecimalDigitsCons('b', "3");
    assert "2b3" == ['2'] + "b3";
    DecimalDigitsCons('2', "b3");
    assert "a2b3" == ['a'] + "2b3";
    DecimalDigitsCons('a', "2b3");
    assert "1a2b3" == ['1'] + "a2b3";
    DecimalDigitsCons('1', "a2b3");
    assert "23" == ['2'] + "3";
    DecimalDigitsCons('2', "3");
    assert "123" == ['1'] + "23";
    DecimalDigitsCons('1', "23");
  }

  lemma {:induction false} DecimalDigitsOfDigitChars(ds: seq<nat>)
    requires IsDigits(ds, 10)
    ensures DecimalDigits(DigitChars(ds)) == ds
    decreases |ds|
  {
    if ds != [] {
      assert DigitChars(ds)[1..] == DigitChars(ds[1..]);
      DecimalDigitsOfDigitChars(ds[1..]);
    }
  }

  lemma {:induction false} DigitCharsOfDecimalDigits(s: string)
    requires forall i :: 0 <= i < |s| ==> IsDecimalChar(s[i])
    ensures DigitChars(DecimalDigits(s)) == s
    decreases |s|
  {
    if s != [] {
      DigitCharsOfDecimalDigits(s[1..]);
      var ds := DecimalDigits(s);
      assert ds == [s[0] as int - '0' as int] + DecimalDigits(s[1..]);
      assert DigitChars(ds)[1..] == DigitChars(DecimalDigits(s[1..]));
    }
  }

  /** The decimal notation of v reads back as v. */
  lemma DecimalStringValue(v: nat)
    ensures DecimalDigits(DecimalString(v)) == Reverse(Expand(v, 10))
    ensures DecimalValue(DecimalString(v)) == v
  {
    var ds := Expand(v, 10);
    ReverseDigits(ds, 10);
    DecimalDigitsOfDigitChars(Reverse(ds));
    ValueLEReverse(ds, 10);
    ExpandValue(v, 10);
  }

  /** Distinct numbers have distinct decimal notations. */
  lemma DecimalStringInjective(x: nat, y: nat)
    ensures DecimalString(x) == DecimalString(y) <==> x == y
  {
    DecimalStringValue(x);
    DecimalStringValue(y);
  }

  /** Every canonical decimal string is the notation of the number it reads as. */
  lemma CanonicalDecimalString(s: string)
    requires IsCanonicalDecimal(s)
    ensures DecimalString(DecimalValue(s)) == s
  {
    var ds: seq<nat> := DecimalDigits(s);
    DigitCharsOfDecimalDigits(s);
    assert DigitChars(ds) == s;
    var le := Reverse(ds);
    ReverseDigits(ds, 10);
    CanonicalReversed(s, ds);
    ExpandUnique(le, 10);
    ValueLEReverse(le, 10);
    ReverseReverse(ds);
    var v := ValueBE(ds, 10);
    assert Expand(v, 10) == le;
    assert DecimalString(v) == DigitChars(Reverse(le));
  }

  /** Read from the back, the digits of a canonical decimal string have no
      most significant zero. */
  lemma CanonicalReversed(s: string, ds: seq<nat>)
    requires IsCanonicalDecimal(s) && IsDigits(ds, 10) && DigitChars(ds) == s
    ensures |Reverse(ds)| >= 1
    ensures Reverse(ds)[|ds| - 1] != 0 || Reverse(ds) == [0]
  {
    var le := Reverse(ds);
    assert le[|ds| - 1] == ds[0];
    if ds[0] == 0 {
      assert s[0] == '0';
      assert |ds| == 1;
      assert le == [0];
    }
  }

  // ---------------------------------------------------------------------------
  // Long division

  lemma DivisionStep(w: nat, q: nat, rem: nat, d: nat, base: nat, divisor: nat)
    requires divisor > 0 && w == divisor * q + rem
    ensures var num := rem * base + d;
      w * base + d == divisor * (base * q + num / divisor) + num % divisor
  {
    var num := rem * base + d;
    DivModEq(num, divisor);
    assert w * base == divisor * (base * q) + rem * base;
  }

  /** One more digit of the dividend moves the quotient and remainder on. */
  lemma LongDivisionStep(dividend: seq<nat>, idx: nat, quotient: seq<nat>, rem: nat, base: nat, divisor: nat, q: nat)
    requires divisor > 0 && idx < |dividend|
    requires ValueBE(dividend[..idx], base) == divisor * ValueBE(quotient, base) + rem
    requires q == (rem * base + dividend[idx]) / divisor
    ensures ValueBE(dividend[..idx + 1], base)
         == divisor * ValueBE(quotient + [q], base) + (rem * base + dividend[idx]) % divisor
  {
    assert dividend[..idx + 1][..idx] == dividend[..idx];
    assert (quotient + [q])[..|quotient|] == quotient;
    assert ValueBE(dividend[..idx + 1], base) == ValueBE(dividend[..idx], base) * base + dividend[idx];
    DivisionStep(ValueBE(dividend[..idx], base), ValueBE(quotient, base), rem, dividend[idx], base, divisor);
  }

  /** The expansion of divisor·q + rem starts with rem and goes on with q. */
  lemma ExpandSplit(w: nat, q: nat, rem: nat, base: nat)
    requires base >= 2 && rem < base && w == base * q + rem
    ensures q == 0 ==> Expand(w, base) == [rem]
    ensures q > 0 ==> Expand(w, base) == [rem] + Expand(q, base)
  {
    if q > 0 {
      var rest := Expand(q, base);
      var ds := [rem] + rest;
      ExpandValue(q, base);
      ValueLECons(rem, rest, base);
      assert ds[1..] == rest;
      ExpandUnique(ds, base);
    }
  }

  /** A vector of quotient digits without a leading zero is empty exactly when
      it reads as zero. */
  lemma QuotientZero(quotient: seq<nat>, base: nat)
    requires base >= 1 && (quotient == [] || quotient[0] != 0)
    ensures quotient == [] <==> ValueBE(quotient, base) == 0
  {
    if quotient != [] {
      ValueBELeading(quotient, base);
    }
  }

  /** One round of long division: the remainder is the next digit of the
      expansion and the quotient holds the digits that follow it. */
  lemma DivisionRound(acc: seq<nat>, w: nat, quotient: seq<nat>, rem: nat, base: nat, qbase: nat, target: seq<nat>)
    requires base >= 2 && qbase >= 1 && rem < base
    requires quotient == [] || quotient[0] != 0
    requires w == base * ValueBE(quotient, qbase) + rem
    requires acc + Expand(w, base) == target
    ensures quotient != [] ==> (acc + [rem]) + Expand(ValueBE(quotient, qbase), base) == target
    ensures quotient == [] ==> acc + [rem] == target
  {
    QuotientZero(quotient, qbase);
    ExpandSplit(w, ValueBE(quotient, qbase), rem, base);
    if quotient != [] {
      assert (acc + [rem]) + Expand(ValueBE(quotient, qbase), base)
          == acc + ([rem] + Expand(ValueBE(quotient, qbase), base));
    }
  }

  // ---------------------------------------------------------------------------
  // Parsing

  /** A leading zero quotient digit adds nothing to the quotient's value. */
  lemma LeadingZero(quotient: seq<nat>, q: nat, base: nat)
    requires quotient == [] && q == 0
    ensures ValueBE(quotient + [q], base) == ValueBE(quotient, base)
  {
    assert (quotient + [q])[..0] == [];
  }

  /** One pass of the parser's long division: divides the decimal digit
      vector dec by 256, dropping leading zeros of the quotient. */
  method DivideDecimalBy256(dec: seq<u8>) returns (newDec: seq<u8>, rem: u16)
    requires IsDigits(dec, 10) && dec != []
    ensures ValueBE(dec, 10) == 256 * ValueBE(newDec, 10) + rem
    ensures rem < 256
    ensures IsDigits(newDec, 10) && (newDec == [] || newDec[0] != 0)
    ensures |newDec| < |dec|
  {
    rem := 0;
    newDec := [];
    for idx := 0 to |dec|
      invariant rem < 256
      invariant IsDigits(newDec, 10)
      invariant newDec == [] || newDec[0] != 0
      invariant ValueBE(dec[..idx], 10) == 256 * ValueBE(newDec, 10) + rem
      invariant if idx == 0 then newDec == [] && rem == 0 else |newDec| < idx
    {
      var num: u16 := rem * 10 + dec[idx];
      QuotientBound(num, 256, 10);
      var q: u8 := num / 256;
      LongDivisionStep(dec, idx, newDec, rem, 10, 256, q);
      rem := num % 256;
      if !(newDec == []) || q != 0 {
        AppendDigit(newDec, q, 10);
        newDec := newDec + [q];
      } else {
        LeadingZero(newDec, q, 10);
      }
    }
    assert dec[..|dec|] == dec;
  }

  /** Divides the decimal digit vector by 256 again and again, collecting
      the remainders as base-256 digits, least significant first, until the
      quotient has no digits left. */
  method DecimalToBase256(dec: seq<u8>) returns (digits: seq<u8>)
    requires IsDigits(dec, 10) && dec != []
    ensures digits == Expand(ValueBE(dec, 10), Base)
  {
    ghost var target := Expand(ValueBE(dec, 10), Base);
    digits := [];
    var rest := dec;
    assert digits + Expand(ValueBE(rest, 10), Base) == target;
    while rest != []
      invariant IsDigits(rest, 10)
      invariant rest != [] ==> digits + Expand(ValueBE(rest, 10), Base) == target
      invariant rest == [] ==> digits == target
      decreases |rest|
    {
      ghost var w := ValueBE(rest, 10);
      var newDec, rem := DivideDecimalBy256(rest);
      DivisionRound(digits, w, newDec, rem, Base, 10, target);
      var d: u8 := rem;
      digits := digits + [d];
      rest := newDec;
    }
  }

  /** Keeps the decimal digits of s and converts them to base 256; a string
      without digits is zero. */
  method Parse(s: string) returns (r: SymbolicNumber)
    ensures r.digits == Expand(DecimalValue(s), Base)
    ensures Value(r) == DecimalValue(s)
    ensures (forall i :: 0 <= i < |s| ==> !IsDecimalChar(s[i])) ==> r.digits == [0]
  {
    var dec := DecimalDigits(s);
    ExpandValue(ValueBE(dec, 10), Base);
    NoDecimalDigits(s);
    if dec == [] {
      return SymbolicNumber([0]);
    }
    var digits := DecimalToBase256(dec);
    r := SymbolicNumber(digits);
  }

  // ---------------------------------------------------------------------------
  // Formatting

  /** One pass of the formatter's long division: divides the base-256 digit
      vector, read from index 0 as the most significant digit, by 10,
      dropping leading zeros of the quotient. */
  method DivideBy10(digits: seq<u16>) returns (newDigits: seq<u16>, rem: u16)
    requires IsDigits(digits, Base)
    ensures ValueBE(digits, Base) == 10 * ValueBE(newDigits, Base) + rem
    ensures rem < 10
    ensures IsDigits(newDigits, Base) && (newDigits == [] || newDigits[0] != 0)
  {
    rem := 0;
    newDigits := [];
    for idx := 0 to |digits|
      invariant rem < 10
      invariant IsDigits(newDigits, Base)
      invariant newDigits == [] || newDigits[0] != 0
      invariant ValueBE(digits[..idx], Base) == 10 * ValueBE(newDigits, Base) + rem
    {
      var num: u16 := rem * 256 + digits[idx];
      QuotientBound(num, 10, 256);
      var q: u16 := num / 10;
      LongDivisionStep(digits, idx, newDigits, rem, Base, 10, q);
      rem := num % 10;
      if !(newDigits == []) || q != 0 {
        AppendDigit(newDigits, q, Base);
        newDigits := newDigits + [q];
      } else {
        LeadingZero(newDigits, q, Base);
      }
    }
    assert digits[..|digits|] == digits;
  }

  /** The formatter as written: it divides the digit vector by 10 walking it
      from index 0 up, so it reads digits[0] as the MOST significant base-256
      digit, and returns the decimal notation of the big-endian reading. */
  method Format(n: SymbolicNumber) returns (s: string)
    ensures s == DecimalString(ValueBE(n.digits, Base))
    ensures n.digits == [] ==> s == "0"
  {
    if n.digits == [] {
      assert Expand(0, 10) == [0];
      return "0";
    }
    var digits: seq<u16> := seq(|n.digits|, i requires 0 <= i < |n.digits| => n.digits[i] as u16);
    assert digits == n.digits;
    var result: seq<u8> := [];
    ghost var target := Expand(ValueBE(n.digits, Base), 10);
    while digits != []
      invariant IsDigits(digits, Base)
      invariant digits != [] ==> result + Expand(ValueBE(digits, Base), 10) == target
      invariant digits == [] ==> result == target
      decreases ValueBE(digits, Base), |digits|
    {
      ghost var w := ValueBE(digits, Base);
      var newDigits, rem := DivideBy10(digits);
      QuotientZero(newDigits, Base);
      DivisionRound(result, w, newDigits, rem, 10, Base, target);
      var d: u8 := rem;
      result := result + [d];
      digits := newDigits;
    }
    var lsFirst: seq<nat> := result;
    var msFirst := Reverse(lsFirst);
    ReverseDigits(lsFirst, 10);
    s := DigitChars(msFirst);
  }

  /** The formatter as the little-endian convention of symbolic numbers
      intends it: the division walks the digits from the most significant
      one, that is, the reversed vector. */
  method FormatLittleEndian(n: SymbolicNumber) returns (s: string)
    ensures s == DecimalString(Value(n))
  {
    s := Format(SymbolicNumber(Reverse(n.digits)));
    ghost var ds: seq<nat> := n.digits;
    assert Reverse(ds) == Reverse(n.digits);
    ValueLEReverse(ds, Base);
  }

  // ---------------------------------------------------------------------------
  // Round trips

  /** Formatting the result of parsing gives back the string, for every
      canonical decimal string. */
  method RoundTrip(s: string) returns (t: string)
    requires IsCanonicalDecimal(s)
    ensures t == s
  {
    var n := Parse(s);
    t := FormatLittleEndian(n);
    CanonicalDecimalString(s);
  }

  /** Parsing the result of formatting gives back the canonical digits. */
  method FormatThenParse(n: SymbolicNumber) returns (m: SymbolicNumber)
    ensures Value(m) == Value(n)
    ensures m.digits == Expand(Value(n), Base)
  {
    var s := FormatLittleEndian(n);
    m := Parse(s);
    DecimalStringValue(Value(n));
  }

  // ---------------------------------------------------------------------------
  // The formatter as written

  /** Formatting, as written, the parse of a number's notation gives that
      notation back exactly when the base-256 digits read the same in both
      directions. */
  lemma AsWrittenRoundTripIffPalindrome(v: nat)
    ensures DecimalString(ValueBE(Expand(v, Base), Base)) == DecimalString(v)
        <==> Reverse(Expand(v, Base)) == Expand(v, Base)
  {
    var ds := Expand(v, Base);
    ExpandValue(v, Base);
    ReverseReverse(ds);
    ValueLEReverse(Reverse(ds), Base);
    ReverseDigits(ds, Base);
    DecimalStringInjective(ValueBE(ds, Base), v);
    if ValueBE(ds, Base) == v {
      ValueLEInjective(Reverse(ds), ds, Base);
    }
  }

  /** "256" parses to [0, 1], which the formatter as written prints as "1". */
  lemma AsWrittenFormats256As1()
    ensures Expand(DecimalValue("256"), Base) == [0, 1]
    ensures DecimalString(ValueBE([0, 1], Base)) == "1"
  {
    Value256();
    ExpandSplit(256, 1, 0, Base);
    assert Expand(1, Base) == [1];
    ValueBEOf2(0, 1, Base);
    DecimalString1();
  }

  lemma Value256()
    ensures DecimalValue("256") == 256
  {
    assert "6" == ['6'] + "";
    DecimalDigitsCons('6', "");
    assert "56" == ['5'] + "6";
    DecimalDigitsCons('5', "6");
    assert "256" == ['2'] + "56";
    DecimalDigitsCons('2', "56");
    assert DecimalDigits("256") == [2, 5, 6];
    ValueBEOf3(2, 5, 6, 10);
  }

  lemma DecimalString1()
    ensures DecimalString(1) == "1"
  {
    assert Expand(1, 10) == [1];
    assert Reverse([1]) == [1];
    assert DecimalString(1) == DigitChars([1]);
    assert DigitChars([1])[0] == '1';
  }

  lemma ValueBEOf2(x: nat, y: nat, base: nat)
    ensures ValueBE([x, y], base) == x * base + y
  {
    assert [x, y][..1] == [x];
    assert [x][..0] == [];
    assert ValueBE([x], base) == 0 * base + x;
    assert ValueBE([x, y], base) == ValueBE([x], base) * base + y;
  }

  lemma ValueBEOf3(x: nat, y: nat, z: nat, base: nat)
    ensures ValueBE([x, y, z], base) == (x * base + y) * base + z
  {
    assert [x, y, z][..2] == [x, y];
    ValueBEOf2(x, y, base);
  }

  lemma ValueLEOf3(x: nat, y: nat, z: nat, base: nat)
    ensures ValueLE([x, y, z], base) == x + y * base + z * (base * base)
  {
    assert [x, y, z][..2] == [x, y];
    assert [x, y][..1] == [x];
    assert [x][..0] == [];
    assert Pow(base, 1) == base;
    assert Pow(base, 2) == base * base;
    assert ValueLE([x], base) == x;
    assert ValueLE([x, y], base) == x + y * base;
  }

  // ---------------------------------------------------------------------------
  // Parse, multiply, format

  /** The decimal product of the numbers written in x and y. */
  method MultiplyDecimal(x: string, y: string, table: Cache.AlignedTable, workers: nat) returns (s: string)
    requires table.Valid() && workers >= 1
    ensures s == DecimalString(DecimalValue(x) * DecimalValue(y))
  {
    var a := Parse(x);
    var b := Parse(y);
    var product := MultiplyParallel(a, b, table, workers);
    s := FormatLittleEndian(product);
  }

  /** With the formatter as written, "123" times "456" prints 1628928 rather
      than 56088: the product digits [24, 219, 0] are read big-endian. */
  method AsWrittenMultiply123By456(table: Cache.AlignedTable, workers: nat) returns (s: string)
    requires table.Valid() && workers >= 1
    ensures s == "1628928"
    ensures s != DecimalString(123 * 456)
  {
    var a := Parse("123");
    var b := Parse("456");
    Operand123();
    Operand456();
    var product := MultiplyParallel(a, b, table, workers);
    ProductDigits(product.digits);
    s := Format(product);
    ProductNotationAsWritten();
  }

  /** The big-endian reading of [24, 219, 0] is 1628928, whose notation is
      not that of 56088. */
  lemma ProductNotationAsWritten()
    ensures DecimalString(ValueBE([24, 219, 0], Base)) == "1628928"
    ensures "1628928" != DecimalString(123 * 456)
  {
    ValueBEOf3(24, 219, 0, Base);
    DecimalString1628928();
    DecimalStringInjective(1628928, 56088);
  }

  lemma DecimalString1628928()
    ensures DecimalString(1628928) == "1628928"
  {
    Expand1628928();
    Reversed1628928();
    DigitChars1628928();
  }

  lemma Reversed1628928()
    ensures Reverse([8, 2, 9, 8, 2, 6, 1]) == [1, 6, 2, 8, 9, 2, 8]
  {
  }

  lemma DigitChars1628928()
    ensures DigitChars([1, 6, 2, 8, 9, 2, 8]) == "1628928"
  {
    var cs := DigitChars([1, 6, 2, 8, 9, 2, 8]);
    assert cs[0] == '1' && cs[1] == '6' && cs[2] == '2' && cs[3] == '8';
    assert cs[4] == '9' && cs[5] == '2' && cs[6] == '8';
  }

  lemma Expand1628928()
    ensures Expand(1628928, 10) == [8, 2, 9, 8, 2, 6, 1]
  {
    Expand1628();
    ExpandSplit(16289, 1628, 9, 10);
    assert Expand(16289, 10) == [9, 8, 2, 6, 1];
    ExpandSplit(162892, 16289, 2, 10);
    assert Expand(162892, 10) == [2, 9, 8, 2, 6, 1];
    ExpandSplit(1628928, 162892, 8, 10);
  }

  lemma Expand1628()
    ensures Expand(1628, 10) == [8, 2, 6, 1]
  {
    assert Expand(1, 10) == [1];
    ExpandSplit(16, 1, 6, 10);
    assert Expand(16, 10) == [6, 1];
    ExpandSplit(162, 16, 2, 10);
    assert Expand(162, 10) == [2, 6, 1];
    ExpandSplit(1628, 162, 8, 10);
  }

  /** The only three base-256 digits worth 56088. */
  lemma ProductDigits(ds: seq<u8>)
    requires |ds| == 3 && ValueLE(ds, Base) == 123 * 456
    ensures ds == [24, 219, 0]
  {
    ValueLEOf3(24, 219, 0, Base);
    ValueLEInjective(ds, [24, 219, 0], Base);
  }

  lemma Operand123()
    ensures DecimalValue("123") == 123
    ensures Expand(123, Base) == [123]
  {
    IgnoresNonDigits();
    ValueBEOf3(1, 2, 3, 10);
  }

  lemma Operand456()
    ensures DecimalValue("456") == 456
    ensures Expand(456, Base) == [200, 1]
  {
    assert "6" == ['6'] + "";
    DecimalDigitsCons('6', "");
    assert "56" == ['5'] + "6";
    DecimalDigitsCons('5', "6");
    assert "456" == ['4'] + "56";
    DecimalDigitsCons('4', "56");
    assert DecimalDigits("456") == [4, 5, 6];
    ValueBEOf3(4, 5, 6, 10);
    ExpandSplit(456, 1, 200, Base);
    assert Expand(1, Base) == [1];
  }
}
