/** `integer_parser` of cxxopts: text to an integer type of any width. The scan works
    modulo the width and detects wrapping only by a decrease of the result. */
module IntegerParser {
  import opened Wrappers
  import opened Arithmetic

  /** An integer type of the program: a C++ integer has at least eight bits. */
  datatype IntType = IntType(bits: nat, signed: bool) {
    function Modulus(): nat { Pow2(bits) }

    function Max(): int
      requires bits > 0
    {
      if signed then Pow2(bits - 1) - 1 else Pow2(bits) - 1
    }

    function Min(): int
      requires bits > 0
    {
      if signed then 0 - Pow2(bits - 1) else 0
    }

    predicate Holds(v: int)
      requires bits > 0
    {
      Min() <= v <= Max()
    }
  }

  function Pow2(n: nat): (p: nat)
    ensures p >= 1
  {
    if n == 0 then 1 else 2 * Pow2(n - 1)
  }

  /** `SplitInteger`: the parts that the regular expression captures. */
  datatype Desc = Desc(negative: bool, hex: bool, digits: string)

  predicate IsAlnum(c: char) {
    '0' <= c <= '9' || 'a' <= c <= 'z' || 'A' <= c <= 'Z'
  }

  predicate AreAlnum(s: string) {
    forall k :: 0 <= k < |s| ==> IsAlnum(s[k])
  }

  function SplitInteger(text: string): Option<Desc> {
    var negative := text != "" && text[0] == '-';
    var t := if negative then text[1..] else text;
    var hex := |t| > 2 && t[..2] == "0x";
    var digits := if hex then t[2..] else t;
    if digits != "" && AreAlnum(digits) then Some(Desc(negative, hex, digits)) else None
  }

  function Spelled(d: Desc): string {
    (if d.negative then "-" else "") + ((if d.hex then "0x" else "") + d.digits)
  }

  /** Letters and digits, which do not begin like a prefix if there is none. */
  predicate IsSpellable(d: Desc) {
    && d.digits != "" && AreAlnum(d.digits)
    && (d.hex || !(|d.digits| > 2 && d.digits[..2] == "0x"))
  }

  /** A text is split exactly into its sign, its prefix and the letters and digits behind. */
  lemma SplitExactly(text: string, d: Desc)
    ensures SplitInteger(text) == Some(d) <==> text == Spelled(d) && IsSpellable(d)
  {
    if SplitInteger(text) == Some(d) {
      SplitIsSpelled(text, d);
    }
    if IsSpellable(d) {
      SpelledIsSplit(d);
    }
  }

  lemma SplitIsSpelled(text: string, d: Desc)
    requires SplitInteger(text) == Some(d)
    ensures text == Spelled(d) && IsSpellable(d)
  {
    var t := if d.negative then text[1..] else text;
    assert text == (if d.negative then "-" else "") + t;
    assert t == (if d.hex then "0x" else "") + d.digits;
  }

  lemma SpelledIsSplit(d: Desc)
    requires IsSpellable(d)
    ensures SplitInteger(Spelled(d)) == Some(d)
  {
    if d.hex {
      HexSplit(d.digits);
      SpelledHex(d);
    } else {
      PlainSplit(d.digits);
      SpelledPlain(d);
    }
  }

  lemma SpelledHex(d: Desc)
    requires d.hex
    ensures Spelled(d) == if d.negative then "-0x" + d.digits else "0x" + d.digits
  {
  }

  lemma SpelledPlain(d: Desc)
    requires !d.hex
    ensures Spelled(d) == if d.negative then "-" + d.digits else d.digits
  {
  }

  lemma PlainSplit(digits: string)
    requires IsSpellable(Desc(false, false, digits))
    ensures SplitInteger(digits) == Some(Desc(false, false, digits))
    ensures SplitInteger("-" + digits) == Some(Desc(true, false, digits))
  {
    assert ("-" + digits)[1..] == digits;
  }

  function Base(d: Desc): nat {
    if d.hex then 16 else 10
  }

  /** The value of a digit, if it is one in the base. */
  function Digit(c: char, base: nat): (r: Option<nat>)
    ensures r.Some? && (base == 10 || base == 16) ==> r.value < base
  {
    if '0' <= c <= '9' then Some(c as nat - '0' as nat)
    else if base == 16 && 'a' <= c <= 'f' then Some(c as nat - 'a' as nat + 10)
    else if base == 16 && 'A' <= c <= 'F' then Some(c as nat - 'A' as nat + 10)
    else None
  }

  predicate IsNumeral(digits: string, base: nat) {
    forall k :: 0 <= k < |digits| ==> Digit(digits[k], base).Some?
  }

  /** What the digits denote. */
  function Value(digits: string, base: nat): nat
    requires IsNumeral(digits, base)
  {
    if digits == "" then 0
    else Value(digits[..|digits| - 1], base) * base + Digit(digits[|digits| - 1], base).value
  }

  /** What a text denotes: an optional minus sign, then a numeral. */
  function Denotes(text: string): Option<int> {
    var d := SplitInteger(text);
    if d.None? || !IsNumeral(d.value.digits, Base(d.value)) then None
    else
      var v := Value(d.value.digits, Base(d.value));
      Some(if d.value.negative then 0 - v else v)
  }

  // ---------- The scan ----------

  /** The unsigned result after all digits, or the error. */
  function Scan(digits: string, base: nat, modulus: nat): (r: Option<nat>)
    requires modulus > 0
    ensures r.Some? ==> r.value < modulus
  {
    if digits == "" then Some(0)
    else
      var before := Scan(digits[..|digits| - 1], base, modulus);
      var digit := Digit(digits[|digits| - 1], base);
      if before.None? || digit.None? then None else Push(before.value, base, digit.value, modulus)
  }

  /** One digit more, unless the result gets smaller. */
  function Push(u: nat, base: nat, digit: nat, modulus: nat): (r: Option<nat>)
    requires modulus > 0
    ensures r.Some? ==> r.value < modulus
  {
    var next := (u * base + digit) % modulus;
    if u > next then None else Some(next)
  }

  /** A value of the unsigned type, read as one of the type itself. */
  function Cast(t: IntType, u: nat): int
    requires t.bits > 0
  {
    if t.signed && u >= Pow2(t.bits - 1) then u - t.Modulus() else u
  }

  /** `checked_negate` on a signed type. The unsigned subtraction wraps at zero. */
  function Negated(t: IntType, u: nat): int
    requires t.bits > 0
  {
    -Cast(t, (u - 1) % t.Modulus()) - 1
  }

  /** `check_signed_range`: the limit is the unsigned image of the smallest or the
      largest value. */
  predicate InSignedRange(t: IntType, negative: bool, u: nat)
    requires t.bits > 0
  {
    !t.signed || u <= if negative then Pow2(t.bits - 1) else Pow2(t.bits - 1) - 1
  }

  /** `integer_parser`. `None` is the incorrect-argument-type error. */
  function Parsed(text: string, t: IntType): Option<int>
    requires t.bits >= 8
  {
    var d := SplitInteger(text);
    if d.None? then None
    else
      var u := Scan(d.value.digits, Base(d.value), t.Modulus());
      if u.None? || !InSignedRange(t, d.value.negative, u.value) then None
      else if !d.value.negative then Some(Cast(t, u.value))
      else if t.signed then Some(Negated(t, u.value)) else None
  }

  /** The loop over the digits. */
  method ScanDigits(digits: string, base: nat, modulus: nat) returns (result: Option<nat>)
    requires modulus > 0
    ensures result == Scan(digits, base, modulus)
  {
    var value := 0;
    for i := 0 to |digits|
      invariant Scan(digits[..i], base, modulus) == Some(value)
    {
      assert digits[..i + 1][..i] == digits[..i];
      var digit := ReadDigit(digits[i], base);
      if digit.None? {
        ScanFails(digits, i + 1, base, modulus);
        return None;
      }
      var next := PushDigit(value, base, digit.value, modulus);
      if next.None? {
        ScanFails(digits, i + 1, base, modulus);
        return None;
      }
      value := next.value;
    }
    assert digits[..|digits|] == digits;
    return Some(value);
  }

  /** The second half of the loop body: the new result, and the test whether it wrapped. */
  method PushDigit(result: nat, base: nat, digit: nat, modulus: nat) returns (next: Option<nat>)
    requires modulus > 0
    ensures next == Push(result, base, digit, modulus)
  {
    var wrapped := (result * base + digit) % modulus;
    next := if result > wrapped then None else Some(wrapped);
  }

  /** The first half of the loop body: which digit it is. */
  method ReadDigit(ch: char, base: nat) returns (digit: Option<nat>)
    ensures digit == Digit(ch, base)
  {
    if '0' <= ch <= '9' {
      digit := Some(ch as nat - '0' as nat);
    } else if base == 16 && 'a' <= ch <= 'f' {
      digit := Some(ch as nat - 'a' as nat + 10);
    } else if base == 16 && 'A' <= ch <= 'F' {
      digit := Some(ch as nat - 'A' as nat + 10);
    } else {
      digit := None;
    }
  }

  method Parse(text: string, t: IntType) returns (value: Option<int>)
    requires t.bits >= 8
    ensures value == Parsed(text, t)
  {
    var split := SplitInteger(text);
    if split.None? {
      return None;
    }
    var desc := split.value;
    var result := ScanDigits(desc.digits, Base(desc), t.Modulus());
    if result.None? || !InSignedRange(t, desc.negative, result.value) {
      return None;
    }
    if desc.negative {
      return if t.signed then Some(Negated(t, result.value)) else None;
    }
    return Some(Cast(t, result.value));
  }

  lemma {:induction false} ScanFails(digits: string, i: nat, base: nat, modulus: nat)
    requires i <= |digits| && modulus > 0 && Scan(digits[..i], base, modulus).None?
    ensures Scan(digits, base, modulus).None?
    decreases |digits| - i
  {
    if i < |digits| {
      assert digits[..i + 1][..i] == digits[..i];
      ScanFails(digits, i + 1, base, modulus);
    } else {
      assert digits[..i] == digits;
    }
  }

  // ---------- What is stored ----------

  /** The scan keeps the value of the digits modulo the width, wrapped or not; and it
      rejects what is not a numeral. */
  lemma {:induction false} ScanIsCongruent(digits: string, base: nat, modulus: nat) returns (k: nat)
    requires modulus > 0 && Scan(digits, base, modulus).Some?
    ensures IsNumeral(digits, base)
    ensures Value(digits, base) == Scan(digits, base, modulus).value + k * modulus
  {
    k := 0;
    if digits != "" {
      var front, digit := digits[..|digits| - 1], Digit(digits[|digits| - 1], base).value;
      var before := ScanIsCongruent(front, base, modulus);
      assert forall j :: 0 <= j < |front| ==> digits[j] == front[j];
      k := CongruentStep(Scan(front, base, modulus).value, before, base, digit, modulus);
    }
  }

  lemma CongruentStep(u: nat, k: nat, base: nat, digit: nat, m: nat) returns (k': nat)
    requires m > 0
    ensures (u + k * m) * base + digit == (u * base + digit) % m + k' * m
  {
    var x := u * base + digit;
    k' := k * base + x / m;
    assert x == (x / m) * m + x % m;
    assert (u + k * m) * base == u * base + (k * base) * m;
    assert k' * m == (k * base) * m + (x / m) * m;
  }

  /** A numeral whose value fits the unsigned type is scanned exactly. */
  lemma {:induction false} ScanIsExact(digits: string, base: nat, modulus: nat)
    requires base >= 1 && modulus > 0 && IsNumeral(digits, base) && Value(digits, base) < modulus
    ensures Scan(digits, base, modulus) == Some(Value(digits, base))
  {
    if digits != "" {
      var front := digits[..|digits| - 1];
      assert IsNumeral(front, base) by { assert forall j :: 0 <= j < |front| ==> digits[j] == front[j]; }
      ExactStep(Value(front, base), base, Digit(digits[|digits| - 1], base).value, modulus);
      ScanIsExact(front, base, modulus);
    }
  }

  lemma ExactStep(v: nat, base: nat, digit: nat, modulus: nat)
    requires base >= 1 && modulus > 0 && v * base + digit < modulus
    ensures v <= v * base + digit && (v * base + digit) % modulus == v * base + digit
  {
    assert v * base == v + v * (base - 1);
  }

  lemma HalfModulus(t: IntType)
    requires t.bits > 0
    ensures t.Modulus() == 2 * Pow2(t.bits - 1)
  {
  }

  /** Negation is exact down to the most negative value, and no step of it overflows. */
  lemma NegationIsExact(t: IntType, u: nat)
    requires t.bits >= 8 && t.signed && u <= Pow2(t.bits - 1)
    ensures Negated(t, u) == 0 - u && t.Holds(0 - u)
    ensures t.Holds(-Cast(t, (u - 1) % t.Modulus()))
  {
    HalfModulus(t);
    assert Pow2(t.bits - 1) == 2 * Pow2(t.bits - 2);
    NegationArithmetic(u, Pow2(t.bits - 1));
  }

  lemma NegationArithmetic(u: nat, half: nat)
    requires 2 <= half && u <= half
    ensures var x := (u - 1) % (2 * half);
            x == if u == 0 then 2 * half - 1 else u - 1
  {
    if u == 0 {
      MinusOne(2 * half);
    }
  }

  lemma MinusOne(m: nat)
    requires m > 0
    ensures -1 % m == m - 1
  {
    var q := -1 / m;
    assert -1 == q * m + (-1 % m);
    assert q == -1;
  }

  /** A text is stored with exactly the value it denotes if and only if that value is
      one of the type's, and the type is signed if the text has a minus sign. */
  lemma StoredExactly(text: string, t: IntType)
    requires t.bits >= 8 && Denotes(text).Some?
    ensures var v := Denotes(text).value;
            Parsed(text, t) == Some(v) <==> t.Holds(v) && (text[0] == '-' ==> t.signed)
  {
    var d := SplitInteger(text).value;
    var v := Value(d.digits, Base(d));
    HalfModulus(t);
    if v < t.Modulus() {
      ScanIsExact(d.digits, Base(d), t.Modulus());
      if d.negative && t.signed && v <= Pow2(t.bits - 1) { NegationIsExact(t, v); }
    }
    if Parsed(text, t).Some? { var k := StoredFits(text, t); }
  }

  /** Whatever is accepted is stored as a value of the type, and only numerals are
      accepted; the value stored is the one denoted, up to multiples of 2^bits. */
  lemma StoredFits(text: string, t: IntType) returns (k: int)
    requires t.bits >= 8 && Parsed(text, t).Some?
    ensures Denotes(text).Some? && t.Holds(Parsed(text, t).value)
    ensures Parsed(text, t).value == Denotes(text).value + k * t.Modulus()
    ensures text[0] == '-' ==> t.signed
  {
    var d := SplitInteger(text).value;
    HalfModulus(t);
    var q := ScanIsCongruent(d.digits, Base(d), t.Modulus());
    var u := Scan(d.digits, Base(d), t.Modulus()).value;
    if d.negative {
      NegationIsExact(t, u);
      k := q;
    } else {
      k := if t.signed && u >= Pow2(t.bits - 1) then -1 - (q as int) else 0 - (q as int);
      Multiples(q, t.Modulus());
    }
  }

  lemma Multiples(q: int, m: int)
    ensures (0 - q) * m == 0 - q * m && (-1 - q) * m == 0 - m - q * m
  {
  }

  // ---------- What is refused ----------

  /** The value of the first n digits, as far as the width holds it. */
  function Residue(digits: string, base: nat, modulus: nat, n: nat): nat
    requires modulus > 0 && n <= |digits| && IsNumeral(digits, base)
  {
    assert forall k :: 0 <= k < n ==> digits[..n][k] == digits[k];
    Value(digits[..n], base) % modulus
  }

  /** Within the first n digits the residue never gets smaller from one digit to the
      next: the wrap test has nothing to notice. */
  predicate NeverDrops(digits: string, base: nat, modulus: nat, n: nat)
    requires modulus > 0 && n <= |digits| && IsNumeral(digits, base)
  {
    forall i :: 0 <= i < n ==> Residue(digits, base, modulus, i) <= Residue(digits, base, modulus, i + 1)
  }

  /** A numeral is scanned if and only if its residues never drop, and then to the last
      of them. */
  lemma ScanExactly(digits: string, base: nat, modulus: nat)
    requires modulus > 0 && IsNumeral(digits, base)
    ensures Scan(digits, base, modulus)
         == if NeverDrops(digits, base, modulus, |digits|) then Some(Value(digits, base) % modulus) else None
  {
    ScanOfPrefix(digits, base, modulus, |digits|);
    assert digits[..|digits|] == digits;
  }

  lemma {:induction false} ScanOfPrefix(digits: string, base: nat, modulus: nat, n: nat)
    requires modulus > 0 && IsNumeral(digits, base) && n <= |digits|
    ensures Scan(digits[..n], base, modulus)
         == if NeverDrops(digits, base, modulus, n) then Some(Residue(digits, base, modulus, n)) else None
  {
    if n == 0 {
      assert digits[..0] == "";
    } else {
      ScanOfPrefix(digits, base, modulus, n - 1);
      OneMoreDigit(digits, base, modulus, n, NeverDrops(digits, base, modulus, n - 1));
      NeverDropsStep(digits, base, modulus, n);
    }
  }

  lemma NeverDropsStep(digits: string, base: nat, modulus: nat, n: nat)
    requires modulus > 0 && IsNumeral(digits, base) && 0 < n <= |digits|
    ensures NeverDrops(digits, base, modulus, n) <==>
              NeverDrops(digits, base, modulus, n - 1)
              && Residue(digits, base, modulus, n - 1) <= Residue(digits, base, modulus, n)
  {
  }

  lemma OneMoreDigit(digits: string, base: nat, modulus: nat, n: nat, scanned: bool)
    requires modulus > 0 && IsNumeral(digits, base) && 0 < n <= |digits|
    requires Scan(digits[..n - 1], base, modulus)
          == if scanned then Some(Residue(digits, base, modulus, n - 1)) else None
    ensures Scan(digits[..n], base, modulus)
         == if scanned && Residue(digits, base, modulus, n - 1) <= Residue(digits, base, modulus, n)
            then Some(Residue(digits, base, modulus, n)) else None
  {
    ScanStep(digits, base, modulus, n, if scanned then Some(Residue(digits, base, modulus, n - 1)) else None);
    ResidueStep(digits, base, modulus, n);
  }

  lemma ScanStep(digits: string, base: nat, modulus: nat, n: nat, before: Option<nat>)
    requires modulus > 0 && 0 < n <= |digits| && Digit(digits[n - 1], base).Some?
    requires before == Scan(digits[..n - 1], base, modulus)
    ensures Scan(digits[..n], base, modulus) ==
              if before.None? then None
              else
                var next := (before.value * base + Digit(digits[n - 1], base).value) % modulus;
                if before.value > next then None else Some(next)
  {
    assert digits[..n][..n - 1] == digits[..n - 1];
  }

  /** One digit more, for the scan and for the residue. */
  lemma ResidueStep(digits: string, base: nat, modulus: nat, n: nat)
    requires modulus > 0 && IsNumeral(digits, base) && 0 < n <= |digits|
    ensures var before, digit := Residue(digits, base, modulus, n - 1), Digit(digits[n - 1], base).value;
            Residue(digits, base, modulus, n) == (before * base + digit) % modulus
  {
    assert forall k :: 0 <= k < n ==> digits[..n][k] == digits[k];
    assert digits[..n][..n - 1] == digits[..n - 1];
    assert forall k :: 0 <= k < n - 1 ==> digits[..n - 1][k] == digits[k];
    ModuloStep(Value(digits[..n - 1], base), base, Digit(digits[n - 1], base).value, modulus);
  }

  lemma ModuloStep(v: nat, base: nat, digit: nat, m: nat)
    requires m > 0
    ensures (v * base + digit) % m == (v % m * base + digit) % m
  {
    assert v == v % m + v / m * m;
    var k := CongruentStep(v % m, v / m, base, digit, m);
    DivisionIs(v * base + digit, m, k, (v % m * base + digit) % m);
  }

  /** What passes the tests of the program: the digits wrap only upwards, the last
      residue is in the signed range, and a minus sign comes with a signed type. */
  predicate PassesTests(d: Desc, t: IntType)
    requires t.bits >= 8 && IsNumeral(d.digits, Base(d))
  {
    && NeverDrops(d.digits, Base(d), t.Modulus(), |d.digits|)
    && InSignedRange(t, d.negative, Value(d.digits, Base(d)) % t.Modulus())
    && (d.negative ==> t.signed)
  }

  /** A text that denotes a number is refused if and only if it fails one of the tests. */
  lemma RefusedExactly(text: string, t: IntType)
    requires t.bits >= 8 && Denotes(text).Some?
    ensures Parsed(text, t).None? <==> !PassesTests(SplitInteger(text).value, t)
  {
    var d := SplitInteger(text).value;
    ScanExactly(d.digits, Base(d), t.Modulus());
  }

  /** A number that does not fit the type is accepted, as another one, if and only if it
      passes the tests all the same; nothing that fits is ever stored as another one. */
  lemma SlipsThroughExactly(text: string, t: IntType)
    requires t.bits >= 8 && Denotes(text).Some?
    ensures var v, d := Denotes(text).value, SplitInteger(text).value;
            (Parsed(text, t).Some? && Parsed(text, t).value != v)
            <==> !(t.Holds(v) && (d.negative ==> t.signed)) && PassesTests(d, t)
  {
    RefusedExactly(text, t);
    StoredExactly(text, t);
  }

  /** A value too large for the type is not always noticed: eight unsigned bits take
      "300", and store 44. */
  lemma OverflowSlipsThrough()
    ensures Parsed("300", IntType(8, false)) == Some(44)
    ensures Denotes("300") == Some(300)
  {
    assert Pow2(3) == 8 && Pow2(6) == 64 && Pow2(8) == 256;
    ThreeHundred();
    DigitsSplit("300");
  }

  lemma ThreeHundred()
    ensures Scan("300", 10, 256) == Some(44) && IsNumeral("300", 10) && Value("300", 10) == 300
  {
    assert "300"[..2] == "30" && "30"[..1] == "3" && "3"[..0] == "";
    assert Scan("3", 10, 256) == Some(3) && Scan("30", 10, 256) == Some(30);
    assert Value("3", 10) == 3 && Value("30", 10) == 30;
  }

  // ---------- Printing ----------

  function DigitChar(d: nat): char
    requires d < 10
  {
    ('0' as int + d) as char
  }

  function Decimal(n: nat): string {
    if n < 10 then [DigitChar(n)] else Decimal(n / 10) + [DigitChar(n % 10)]
  }

  function Text(v: int): string {
    if v < 0 then "-" + Decimal(0 - v) else Decimal(v)
  }

  lemma {:induction false} DecimalDenotes(n: nat)
    ensures Decimal(n) != "" && IsNumeral(Decimal(n), 10) && Value(Decimal(n), 10) == n
    ensures forall k :: 0 <= k < |Decimal(n)| ==> '0' <= Decimal(n)[k] <= '9'
  {
    var s := Decimal(n);
    if n < 10 {
      assert s[..0] == "";
    } else {
      DecimalDenotes(n / 10);
      assert s[..|s| - 1] == Decimal(n / 10);
    }
  }

  lemma DigitsSplit(digits: string)
    requires digits != "" && forall k :: 0 <= k < |digits| ==> '0' <= digits[k] <= '9'
    ensures SplitInteger(digits) == Some(Desc(false, false, digits))
    ensures SplitInteger("-" + digits) == Some(Desc(true, false, digits))
  {
    assert ("-" + digits)[1..] == digits;
    assert forall k :: 0 <= k < |digits| ==> IsAlnum(digits[k]);
    if |digits| > 2 {
      assert digits[..2][1] == digits[1] && "0x"[1] == 'x';
      assert digits[..2] != "0x";
    }
  }

  /** Every value of the type survives being printed and parsed. */
  lemma PrintedIsParsed(v: int, t: IntType)
    requires t.bits >= 8 && t.Holds(v)
    ensures Parsed(Text(v), t) == Some(v)
  {
    TextDenotes(v);
    StoredExactly(Text(v), t);
  }

  lemma TextDenotes(v: int)
    ensures Denotes(Text(v)) == Some(v) && (Text(v)[0] == '-' <==> v < 0)
  {
    var digits := Decimal(if v < 0 then 0 - v else v);
    DecimalDenotes(if v < 0 then 0 - v else v);
    DigitsSplit(digits);
    SplitDenotes(Text(v), Desc(v < 0, false, digits));
  }

  lemma SplitDenotes(text: string, d: Desc)
    requires SplitInteger(text) == Some(d) && IsNumeral(d.digits, Base(d))
    ensures Denotes(text) == Some(if d.negative then 0 - Value(d.digits, Base(d)) else Value(d.digits, Base(d)))
    ensures text != "" && (text[0] == '-' <==> d.negative)
  {
  }

  // ---------- Hexadecimal ----------

  const LOWER_DIGITS: string := "0123456789abcdef"
  const UPPER_DIGITS: string := "0123456789ABCDEF"

  function HexChar(d: nat, upper: bool): char
    requires d < 16
  {
    if upper then UPPER_DIGITS[d] else LOWER_DIGITS[d]
  }

  lemma HexDigit(d: nat, upper: bool)
    requires d < 16
    ensures Digit(HexChar(d, upper), 16) == Some(d) && IsAlnum(HexChar(d, upper))
  {
  }

  /** The digits are those of either spelling, up to the base. */
  lemma DigitExactly(c: char, base: nat, d: nat)
    requires base == 10 || base == 16
    ensures Digit(c, base) == Some(d) <==> d < base && (c == HexChar(d, false) || c == HexChar(d, true))
  {
    if d < base {
      HexDigit(d, false);
      HexDigit(d, true);
    }
  }

  function Hexadecimal(n: nat, upper: bool): string {
    if n < 16 then [HexChar(n, upper)] else Hexadecimal(n / 16, upper) + [HexChar(n % 16, upper)]
  }

  function HexText(v: int, upper: bool): string {
    if v < 0 then "-0x" + Hexadecimal(0 - v, upper) else "0x" + Hexadecimal(v, upper)
  }

  lemma {:induction false} HexadecimalDenotes(n: nat, upper: bool)
    ensures var s := Hexadecimal(n, upper);
            && s != "" && IsNumeral(s, 16) && Value(s, 16) == n
            && AreAlnum(s)
  {
    var s := Hexadecimal(n, upper);
    if n < 16 {
      HexDigit(n, upper);
      assert s[..0] == "";
    } else {
      HexDigit(n % 16, upper);
      HexadecimalDenotes(n / 16, upper);
      assert s[..|s| - 1] == Hexadecimal(n / 16, upper);
    }
  }

  lemma HexSplit(digits: string)
    requires digits != "" && AreAlnum(digits)
    ensures SplitInteger("0x" + digits) == Some(Desc(false, true, digits))
    ensures SplitInteger("-0x" + digits) == Some(Desc(true, true, digits))
  {
    var t := "0x" + digits;
    assert t[..2] == "0x" && t[2..] == digits;
    assert ("-0x" + digits)[1..] == t;
  }

  /** So is every value that is printed in hexadecimal, in small or capital letters. */
  lemma HexIsParsed(v: int, t: IntType, upper: bool)
    requires t.bits >= 8 && t.Holds(v)
    ensures Parsed(HexText(v, upper), t) == Some(v)
  {
    HexTextDenotes(v, upper);
    StoredExactly(HexText(v, upper), t);
  }

  lemma HexTextDenotes(v: int, upper: bool)
    ensures Denotes(HexText(v, upper)) == Some(v) && (HexText(v, upper)[0] == '-' <==> v < 0)
  {
    var digits := Hexadecimal(if v < 0 then 0 - v else v, upper);
    HexadecimalDenotes(if v < 0 then 0 - v else v, upper);
    HexSplit(digits);
    SplitDenotes(HexText(v, upper), Desc(v < 0, true, digits));
  }
}
