/** Canonical decimal text of bounded integers and the stringifiers of integer and enum fields. */
module IntegerText {
  import opened Division

  datatype Result<+T> = Ok(value: T) | Err

  predicate Digit(c: char) { '0' <= c <= '9' }

  predicate Digits(s: string) { forall i :: 0 <= i < |s| ==> Digit(s[i]) }

  /** The accepted form: "0", or an optional minus sign, a digit from one to nine, and more digits. */
  predicate Canonical(s: string) {
    || s == "0"
    || (s != "" && '1' <= s[0] <= '9' && Digits(s[1..]))
    || (|s| >= 2 && s[0] == '-' && '1' <= s[1] <= '9' && Digits(s[2..]))
  }

  function DigitValue(c: char): nat
    requires Digit(c)
  {
    c as int - '0' as int
  }

  function DigitChar(d: nat): (c: char)
    requires d < 10
    ensures Digit(c) && DigitValue(c) == d
  {
    ('0' as int + d) as char
  }

  function Natural(s: string): nat
    requires Digits(s)
  {
    if s == "" then 0 else Natural(s[..|s| - 1]) * 10 + DigitValue(s[|s| - 1])
  }

  /** The value of canonical text. */
  function Value(s: string): int
    requires Canonical(s)
  {
    if s[0] == '-' then -(Natural(s[1..]) as int) else Natural(s)
  }

  function PrintNatural(n: nat): (s: string)
    requires n > 0
    ensures s != "" && Digits(s)
  {
    (if n < 10 then "" else PrintNatural(n / 10)) + [DigitChar(n % 10)]
  }

  function Print(v: int): string {
    if v == 0 then "0" else if v > 0 then PrintNatural(v) else "-" + PrintNatural(-v)
  }

  lemma {:induction false} PrintedNatural(n: nat)
    requires n > 0
    ensures Natural(PrintNatural(n)) == n
    ensures '1' <= PrintNatural(n)[0] <= '9'
  {
    var s := PrintNatural(n);
    if n >= 10 {
      PrintedNatural(n / 10);
      assert s[..|s| - 1] == PrintNatural(n / 10);
    } else {
      assert s == [DigitChar(n)];
      assert s[..0] == "" && Natural("") == 0;
    }
  }

  /** A digit string without a leading zero is what its value prints as. */
  lemma {:induction false} ReprintedNatural(s: string)
    requires s != "" && Digits(s) && s[0] != '0'
    ensures Natural(s) > 0 && PrintNatural(Natural(s)) == s
  {
    var init, last := s[..|s| - 1], DigitValue(s[|s| - 1]);
    assert s == init + [s[|s| - 1]];
    assert DigitChar(last) == s[|s| - 1];
    if init != "" {
      ReprintedNatural(init);
      assert Natural(s) / 10 == Natural(init) && Natural(s) % 10 == last;
    } else {
      assert Natural(init) == 0 && s == [DigitChar(last)];
    }
  }

  lemma PrintIsCanonical(v: int)
    ensures Canonical(Print(v)) && Value(Print(v)) == v
  {
    hide PrintNatural;
    if v > 0 {
      PrintedNatural(v);
    } else if v < 0 {
      PrintedNatural(-v);
      assert Print(v)[1..] == PrintNatural(-v);
    } else {
      assert "0"[..0] == "" && Natural("") == 0 && Natural("0") == 0;
    }
  }

  lemma ReprintCanonical(s: string)
    requires Canonical(s)
    ensures Print(Value(s)) == s
  {
    if s == "0" {
      assert s[..0] == "" && Natural("") == 0 && Natural(s) == 0;
    } else if s[0] == '-' {
      assert s[1..][1..] == s[2..];
      assert Digits(s[1..]) by {
        forall i | 0 <= i < |s[1..]| ensures Digit(s[1..][i]) { if i > 0 { assert s[1..][i] == s[2..][i - 1]; } }
      }
      ReprintedNatural(s[1..]);
      assert "-" + s[1..] == s;
    } else {
      assert Digits(s) by {
        forall i | 0 <= i < |s| ensures Digit(s[i]) { if i > 0 { assert s[i] == s[1..][i - 1]; } }
      }
      ReprintedNatural(s);
    }
  }

  // ----- Decimal meaning, from the left and with the digits spelled out -----

  function Face(c: char): nat {
    match c
    case '1' => 1 case '2' => 2 case '3' => 3 case '4' => 4 case '5' => 5
    case '6' => 6 case '7' => 7 case '8' => 8 case '9' => 9 case _ => 0
  }

  function Pow10(n: nat): nat {
    if n == 0 then 1 else 10 * Pow10(n - 1)
  }

  function Decimal(s: string): nat {
    if s == "" then 0 else Face(s[0]) * Pow10(|s| - 1) + Decimal(s[1..])
  }

  lemma {:induction false} DecimalAppend(s: string, c: char)
    ensures Decimal(s + [c]) == Decimal(s) * 10 + Face(c)
  {
    if s == "" {
      assert [c][1..] == "" && Pow10(0) == 1;
    } else {
      assert (s + [c])[1..] == s[1..] + [c];
      DecimalAppend(s[1..], c);
      Shift(Face(s[0]), Pow10(|s| - 1));
    }
  }

  lemma Shift(d: nat, p: nat)
    ensures d * (10 * p) == (d * p) * 10
  {
  }

  lemma {:induction false} NaturalIsDecimal(s: string)
    requires Digits(s)
    ensures Natural(s) == Decimal(s)
  {
    if s != "" {
      var init, last := s[..|s| - 1], s[|s| - 1];
      assert s == init + [last];
      NaturalIsDecimal(init);
      DecimalAppend(init, last);
    }
  }

  /** Canonical text denotes the sum of its digits' weights, negated after a minus sign. */
  lemma ValueIsDecimal(s: string)
    requires Canonical(s)
    ensures Value(s) == if s[0] == '-' then -(Decimal(s[1..]) as int) else Decimal(s)
  {
    if s[0] == '-' {
      assert Digits(s[1..]) by {
        forall i | 0 <= i < |s[1..]| ensures Digit(s[1..][i]) { if i > 0 { assert s[1..][i] == s[2..][i - 1]; } }
      }
      NaturalIsDecimal(s[1..]);
    } else {
      assert Digits(s) by {
        forall i | 0 <= i < |s| ensures Digit(s[i]) { if i > 0 { assert s[i] == s[1..][i - 1]; } }
      }
      NaturalIsDecimal(s);
    }
  }

  // ----- Bounded integers -----

  function IntegerOfText(s: string, min: int, max: int): Result<int> {
    if !Canonical(s) then Err
    else if Value(s) < min || Value(s) > max then Err
    else Ok(Value(s))
  }

  // ----- Numbers -----

  const MAX_SAFE := 0x1F_FFFF_FFFF_FFFF

  predicate Safe(v: int) { -MAX_SAFE <= v <= MAX_SAFE }

  function Pow2(n: nat): nat {
    if n == 0 then 1 else 2 * Pow2(n - 1)
  }

  /** The weight of the last of 53 significant bits. */
  function UnitOf(n: nat): (u: nat)
    ensures u > 0
  {
    if n <= MAX_SAFE then 1 else 2 * UnitOf(n / 2)
  }

  /** The nearest binary64 magnitude, ties to the even multiple of the unit. */
  function Nearest(n: nat): nat {
    var unit := UnitOf(n);
    var down, over := n / unit, n % unit;
    (if 2 * over > unit || (2 * over == unit && down % 2 == 1) then down + 1 else down) * unit
  }

  lemma {:induction false} UnitKeepsPrecision(n: nat)
    requires n > MAX_SAFE
    ensures UnitOf(n) >= 2 && 2 * (n / UnitOf(n)) > MAX_SAFE
  {
    var half := UnitOf(n / 2);
    assert n / (2 * half) == (n / 2) / half by { Halving(n, half); }
    if n / 2 > MAX_SAFE {
      UnitKeepsPrecision(n / 2);
    }
  }

  lemma Halving(n: nat, d: nat)
    requires d > 0
    ensures n / (2 * d) == (n / 2) / d
  {
    var q, r := (n / 2) / d, (n / 2) % d;
    assert n / 2 == d * q + r;
    assert n == (2 * d) * q + (2 * r + n % 2);
    assert 0 <= 2 * r + n % 2 < 2 * d;
    Quotient(n, 2 * d, q, 2 * r + n % 2);
  }

  /** Conversion to a number is exact up to the safe bound and never lands back inside it from beyond. */
  lemma NearestIsSafeIff(n: nat)
    ensures Safe(Nearest(n)) <==> Safe(n)
    ensures Safe(n) ==> Nearest(n) == n
  {
    hide UnitOf;
    if n > MAX_SAFE {
      UnitKeepsPrecision(n);
      var unit, down := UnitOf(n), n / UnitOf(n);
      Scaled(down, 2, unit);
      Scaled(down + 1, 2, unit);
      assert Nearest(n) == down * unit || Nearest(n) == (down + 1) * unit;
    } else {
      assert UnitOf(n) == 1 by { ExactUnit(n); }
    }
  }

  lemma ExactUnit(n: nat)
    requires Safe(n)
    ensures UnitOf(n) == 1
  {
  }

  /** The unit is the power of two that leaves 53 significant bits, and at least one. */
  lemma {:induction false} UnitIsPower(n: nat) returns (k: nat)
    ensures UnitOf(n) == Pow2(k)
    ensures n / UnitOf(n) <= 0x1F_FFFF_FFFF_FFFF
    ensures k > 0 ==> 2 * (n / UnitOf(n)) > 0x1F_FFFF_FFFF_FFFF
  {
    if n <= MAX_SAFE {
      k := 0;
    } else {
      k := UnitIsPower(n / 2);
      k := k + 1;
      UnitKeepsPrecision(n);
      Halving(n, UnitOf(n / 2));
    }
  }

  /** The conversion keeps whole units, is off by half a unit at most, and breaks ties to an even count. */
  lemma NearestRounds(n: nat) returns (units: nat)
    ensures Nearest(n) == units * UnitOf(n)
    ensures -(UnitOf(n) as int) <= 2 * (Nearest(n) - n) <= UnitOf(n)
    ensures 2 * (Nearest(n) - n) in {-(UnitOf(n) as int), UnitOf(n) as int} ==> units % 2 == 0
  {
    hide UnitOf;
    var unit := UnitOf(n);
    var down, over := n / unit, n % unit;
    assert n == down * unit + over;
    units := if 2 * over > unit || (2 * over == unit && down % 2 == 1) then down + 1 else down;
    assert units == down + 1 ==> units * unit == down * unit + unit;
  }

  // ----- Runtime integers -----

  /** Runtime forms of an integer; a number is given by the integer it holds, anything else is Other. */
  datatype Runtime = Number(number: int) | BigInt(big: int) | Text(text: string) | Other

  datatype Representation = AsNumber | AsBigInt | AsText

  /** A big integer as a number: rounded, and infinite, hence no integer, from 2^1024 on. */
  function ToNumber(v: int): Runtime {
    var magnitude: int := Nearest(if v < 0 then -v else v);
    if magnitude >= Pow2(1024) then Other else Number(if v < 0 then -magnitude else magnitude)
  }

  lemma {:induction false} Pow2Grows(n: nat, k: nat)
    requires k <= n
    ensures Pow2(k) <= Pow2(n)
  {
    if k < n {
      Pow2Grows(n - 1, k);
    }
  }

  lemma SafeBelowInfinity()
    ensures MAX_SAFE < Pow2(1024)
  {
    assert Pow2(8) == 0x100;
    assert Pow2(16) == 0x1_0000;
    assert Pow2(24) == 0x100_0000;
    assert Pow2(32) == 0x1_0000_0000;
    assert Pow2(40) == 0x100_0000_0000;
    assert Pow2(48) == 0x1_0000_0000_0000;
    assert Pow2(56) == 0x100_0000_0000_0000;
    Pow2Grows(1024, 56);
  }

  lemma NumberIsSafeIff(v: int)
    ensures Safe(v) ==> ToNumber(v) == Number(v)
    ensures ToNumber(v).Number? && Safe(ToNumber(v).number) ==> Safe(v)
  {
    hide Pow2, Nearest;
    NearestIsSafeIff(if v < 0 then -v else v);
    SafeBelowInfinity();
  }

  function Checked(v: int, min: int, max: int): Result<int> {
    if v < min || v > max then Err else Ok(v)
  }

  function IntegerOfValue(r: Runtime, min: int, max: int, rep: Representation): Result<int> {
    match (rep, r)
    case (AsText, Text(s)) =>
      (match IntegerOfText(s, min, max)
       case Ok(v) => Checked(v, min, max)
       case Err => Err)
    case (AsBigInt, BigInt(v)) => Checked(v, min, max)
    case (AsNumber, Number(v)) => if Safe(v) then Checked(v, min, max) else Err
    case (_, _) => Err
  }

  function ToRuntime(v: int, rep: Representation): Runtime {
    match rep
    case AsNumber => ToNumber(v)
    case AsBigInt => BigInt(v)
    case AsText => Text(Print(v))
  }

  function FromString(s: string, min: int, max: int, rep: Representation): Result<Runtime> {
    match IntegerOfText(s, min, max)
    case Ok(v) => Ok(ToRuntime(v, rep))
    case Err => Err
  }

  function ToString(r: Runtime, min: int, max: int, rep: Representation): Result<string> {
    match IntegerOfValue(r, min, max, rep)
    case Ok(v) => Ok(Print(v))
    case Err => Err
  }

  /** Every value a field can hold survives printing and parsing, whatever the bounds. */
  lemma PrintThenParse(r: Runtime, min: int, max: int, rep: Representation)
    ensures var s := ToString(r, min, max, rep);
            s.Ok? ==> FromString(s.value, min, max, rep) == Ok(r)
  {
    hide ToNumber, Print, Canonical, Value;
    var v := IntegerOfValue(r, min, max, rep);
    if v.Ok? {
      PrintIsCanonical(v.value);
      NumberIsSafeIff(v.value);
      if r.Text? { ReprintCanonical(r.text); }
    }
  }

  /** Every accepted text is printed back unchanged, unless it has to become a number too large to be one. */
  lemma ParseThenPrint(s: string, min: int, max: int, rep: Representation)
    ensures var r := FromString(s, min, max, rep);
            r.Ok? ==> (ToString(r.value, min, max, rep) == Ok(s)
                       <==> (rep.AsNumber? ==> Safe(IntegerOfText(s, min, max).value)))
  {
    hide ToNumber, Print, Canonical, Value;
    if Canonical(s) {
      ReprintCanonical(s);
      PrintIsCanonical(Value(s));
      NumberIsSafeIff(Value(s));
    }
  }

  /** Each value has one accepted text, and it exists exactly for the values in range. */
  lemma TextIsUnique(v: int, min: int, max: int, s: string)
    ensures IntegerOfText(s, min, max) == Ok(v) <==> s == Print(v) && min <= v <= max
  {
    PrintIsCanonical(v);
    if Canonical(s) {
      ReprintCanonical(s);
    }
  }

  /** The integer kinds of a field; 64-bit fields hold big integers, or text where the field says so. */
  datatype IntegerKind = Signed32 | Unsigned32 | Signed64(asText: bool) | Unsigned64(asText: bool)

  const TWO_32 := 0x1_0000_0000
  const TWO_64 := 0x1_0000_0000_0000_0000

  function Smallest(kind: IntegerKind): int {
    match kind
    case Signed32 => -TWO_32 / 2
    case Signed64(_) => -TWO_64 / 2
    case Unsigned32 | Unsigned64(_) => 0
  }

  function Largest(kind: IntegerKind): int {
    match kind
    case Signed32 => TWO_32 / 2 - 1
    case Unsigned32 => TWO_32 - 1
    case Signed64(_) => TWO_64 / 2 - 1
    case Unsigned64(_) => TWO_64 - 1
  }

  function Form(kind: IntegerKind): Representation {
    match kind
    case Signed32 | Unsigned32 => AsNumber
    case Signed64(asText) => if asText then AsText else AsBigInt
    case Unsigned64(asText) => if asText then AsText else AsBigInt
  }

  function FieldFromString(kind: IntegerKind, s: string): Result<Runtime> {
    FromString(s, Smallest(kind), Largest(kind), Form(kind))
  }

  function FieldToString(kind: IntegerKind, r: Runtime): Result<string> {
    ToString(r, Smallest(kind), Largest(kind), Form(kind))
  }

  /** For every integer field printing and parsing are mutual inverses: a value has a text exactly when the text has the value. */
  lemma FieldRoundTrip(kind: IntegerKind, r: Runtime, s: string)
    ensures FieldToString(kind, r) == Ok(s) <==> FieldFromString(kind, s) == Ok(r)
  {
    hide IntegerOfText, IntegerOfValue, ToString, FromString;
    var min, max, form := Smallest(kind), Largest(kind), Form(kind);
    PrintThenParse(r, min, max, form);
    if FieldFromString(kind, s) == Ok(r) {
      AcceptedInRange(s, min, max, form);
      ParseThenPrint(s, min, max, form);
    }
  }

  lemma AcceptedInRange(s: string, min: int, max: int, rep: Representation)
    requires FromString(s, min, max, rep).Ok?
    ensures IntegerOfText(s, min, max).Ok? && min <= IntegerOfText(s, min, max).value <= max
  {
    hide ToRuntime, Canonical, Value;
  }

  /** Every integer of the field's range has a value in the field's form, with that integer's text. */
  lemma FieldCoversRange(kind: IntegerKind, v: int)
    requires Smallest(kind) <= v <= Largest(kind)
    ensures FieldFromString(kind, Print(v)) == Ok(ToRuntime(v, Form(kind)))
    ensures FieldToString(kind, ToRuntime(v, Form(kind))) == Ok(Print(v))
  {
    hide ToRuntime, IntegerOfValue, Print;
    TextIsUnique(v, Smallest(kind), Largest(kind), Print(v));
    FieldRoundTrip(kind, ToRuntime(v, Form(kind)), Print(v));
  }

  /** What each kind of field accepts, and in which form, bound by bound. */
  lemma FieldAccepts(kind: IntegerKind, v: int)
    ensures FieldFromString(kind, Print(v)) ==
            match kind
            case Signed32 => if -2147483648 <= v <= 2147483647 then Ok(Number(v)) else Err
            case Unsigned32 => if 0 <= v <= 4294967295 then Ok(Number(v)) else Err
            case Signed64(asText) =>
              if -9223372036854775808 <= v <= 9223372036854775807 then Ok(if asText then Text(Print(v)) else BigInt(v)) else Err
            case Unsigned64(asText) =>
              if 0 <= v <= 18446744073709551615 then Ok(if asText then Text(Print(v)) else BigInt(v)) else Err
  {
    hide Print, ToNumber, IntegerOfText;
    TextIsUnique(v, Smallest(kind), Largest(kind), Print(v));
    NumberIsSafeIff(v);
    if FieldFromString(kind, Print(v)).Ok? { AcceptedInRange(Print(v), Smallest(kind), Largest(kind), Form(kind)); }
    Accepts(Print(v), v, Smallest(kind), Largest(kind));
  }

  lemma Accepts(s: string, v: int, min: int, max: int)
    requires s == Print(v)
    ensures IntegerOfText(s, min, max) == if min <= v <= max then Ok(v) else Err
  {
    hide Print, Canonical, Value;
    PrintIsCanonical(v);
  }

  /** Any text that is not canonical is refused by every kind of field. */
  lemma FieldRefuses(kind: IntegerKind, s: string)
    ensures FieldFromString(kind, s).Ok? ==> Canonical(s) && s == Print(Value(s))
  {
    hide Print, Canonical, Value, ToRuntime;
    if Canonical(s) { ReprintCanonical(s); }
  }

  /**
    Bounds beyond the safe range, which no number field has, would lose integers: the first one is
    accepted as text and never printed again.
    */
  lemma UnsafeIntegerIsLost() returns (s: string)
    ensures var r := FromString(s, 0, 2 * MAX_SAFE, AsNumber);
            r.Ok? && ToString(r.value, 0, 2 * MAX_SAFE, AsNumber).Err?
  {
    hide ToNumber, Print, Canonical, Value;
    s := Print(MAX_SAFE + 1);
    PrintIsCanonical(MAX_SAFE + 1);
    NumberIsSafeIff(MAX_SAFE + 1);
  }

  // ----- Enums -----

  datatype EnumValue = EnumValue(name: string, number: int)

  /** Declared values, and the index by number, which keeps one of the values sharing a number. */
  datatype Enum = Enum(values: seq<EnumValue>, byNumber: map<int, EnumValue>)

  const MIN_INT32 := -0x8000_0000
  const MAX_INT32 := 0x7FFF_FFFF

  /** Names are distinct identifiers, numbers are 32-bit, the index agrees with the declarations. */
  ghost predicate WellFormed(e: Enum) {
    && (forall i, j :: 0 <= i < j < |e.values| ==> e.values[i].name != e.values[j].name)
    && (forall v :: v in e.values ==> v.name != "" && !Digit(v.name[0]) && v.name[0] != '-')
    && (forall v :: v in e.values ==> MIN_INT32 <= v.number <= MAX_INT32 && v.number in e.byNumber)
    && (forall n :: n in e.byNumber ==> e.byNumber[n] in e.values && e.byNumber[n].number == n)
  }

  function FindName(values: seq<EnumValue>, name: string): (r: Result<EnumValue>)
    ensures r.Ok? ==> r.value in values && r.value.name == name
    ensures r.Err? ==> forall v :: v in values ==> v.name != name
  {
    if values == [] then Err else if values[0].name == name then Ok(values[0]) else FindName(values[1..], name)
  }

  function EnumFromString(e: Enum, s: string): Result<int> {
    match FindName(e.values, s)
    case Ok(v) => Ok(v.number)
    case Err => IntegerOfText(s, MIN_INT32, MAX_INT32)
  }

  function EnumToString(e: Enum, r: Runtime): Result<string> {
    match IntegerOfValue(r, MIN_INT32, MAX_INT32, AsNumber)
    case Err => Err
    case Ok(n) => Ok(if n in e.byNumber then e.byNumber[n].name else Print(n))
  }

  lemma FirstCharacter(s: string)
    requires Canonical(s)
    ensures s != "" && (Digit(s[0]) || s[0] == '-')
  {
  }

  /** Every enum number, declared, aliased or unnamed, comes back from its text. */
  lemma EnumRoundTrip(e: Enum, r: Runtime)
    requires WellFormed(e)
    ensures var s := EnumToString(e, r);
            s.Ok? ==> r.Number? && EnumFromString(e, s.value) == Ok(r.number)
    ensures EnumToString(e, r).Ok? <==> r.Number? && -2147483648 <= r.number <= 2147483647
  {
    hide Print, Canonical, Value;
    if r.Number? && MIN_INT32 <= r.number <= MAX_INT32 {
      var n := r.number;
      if n in e.byNumber {
        var found := FindName(e.values, e.byNumber[n].name);
        var i :| 0 <= i < |e.values| && e.values[i] == found.value;
        var j :| 0 <= j < |e.values| && e.values[j] == e.byNumber[n];
      } else {
        PrintIsCanonical(n);
        FirstCharacter(Print(n));
      }
    }
  }

  /** The text is a declared name, and the one the number index holds. */
  ghost predicate IndexedName(e: Enum, s: string) {
    exists v :: v in e.values && v.name == s && v.number in e.byNumber && e.byNumber[v.number] == v
  }

  /** The text is the canonical form of a 32-bit number that no value declares. */
  ghost predicate UndeclaredNumber(e: Enum, s: string) {
    Canonical(s) && -2147483648 <= Value(s) <= 2147483647 && forall v :: v in e.values ==> v.number != Value(s)
  }

  /** Text is accepted and printed back unchanged exactly for indexed names and undeclared numbers. */
  lemma EnumTextPrintedBackIff(e: Enum, s: string)
    requires WellFormed(e)
    ensures (EnumFromString(e, s).Ok? && EnumToString(e, Number(EnumFromString(e, s).value)) == Ok(s))
            <==> IndexedName(e, s) || UndeclaredNumber(e, s)
  {
    hide Print, Value;
    var named := FindName(e.values, s);
    if named.Ok? {
      SameNameSameValue(e, named.value);
      if Canonical(s) { FirstCharacter(s); }
    } else if Canonical(s) {
      ReprintCanonical(s);
    }
  }

  /** A declared name stands for its own number; any other text must be a canonical 32-bit number. */
  lemma EnumAccepts(e: Enum, s: string)
    requires WellFormed(e)
    ensures forall v :: v in e.values && v.name == s ==> EnumFromString(e, s) == Ok(v.number)
    ensures (forall v :: v in e.values ==> v.name != s) ==>
              EnumFromString(e, s) ==
              if Canonical(s) && -2147483648 <= Value(s) <= 2147483647 then Ok(Value(s)) else Err
  {
    hide Canonical, Value;
    var named := FindName(e.values, s);
    if named.Ok? { SameNameSameValue(e, named.value); }
  }

  lemma SameNameSameValue(e: Enum, v: EnumValue)
    requires WellFormed(e) && v in e.values
    ensures forall w :: w in e.values && w.name == v.name ==> w == v
  {
    forall w | w in e.values && w.name == v.name ensures w == v {
      var i :| 0 <= i < |e.values| && e.values[i] == v;
      var j :| 0 <= j < |e.values| && e.values[j] == w;
    }
  }

  /** The second name of a number is accepted but comes back as the first. */
  lemma AliasIsRenamed() returns (e: Enum)
    ensures WellFormed(e) && EnumFromString(e, "B") == Ok(1) && EnumToString(e, Number(1)) == Ok("A")
  {
    var a, b := EnumValue("A", 1), EnumValue("B", 1);
    e := Enum([a, b], map[1 := a]);
    assert e.values[1..] == [b];
  }
}
