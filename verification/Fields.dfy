/** Reading getter outputs: unsigned integers arrive as decimal or `0x` strings or as
    numbers, and hashes are turned into decimal text without loss. */
module Fields {
  import opened Common
  import opened Wrappers
  import opened Json
  import opened Text
  import opened Numerals

  datatype FieldError = Missing | BadHex | BadUint | NotAUint | NotABool

  /** The digits behind `0x` or `0X`, if the text starts that way. */
  function HexTail(s: string): Option<string> {
    if "0x" <= s || "0X" <= s then Some(s[2..]) else None
  }

  function FieldU128(v: Value, name: string): Result<nat, FieldError> {
    match v.Get(name)
    case None => Err(Missing)
    case Some(Str(text)) =>
      var s := Trim(text);
      (match HexTail(s)
       case Some(hex) => if ParseU128(hex, 16).Some? then Ok(ParseU128(hex, 16).value) else Err(BadHex)
       case None => if ParseU128(s, 10).Some? then Ok(ParseU128(s, 10).value) else Err(BadUint))
    case Some(Int(n)) => if Int(n).AsU64().Some? then Ok(n) else Err(NotAUint)
    case Some(_) => Err(NotAUint)
  }

  function FieldBool(v: Value, name: string): Result<bool, FieldError> {
    match v.Get(name)
    case None => Err(Missing)
    case Some(Bool(b)) => Ok(b)
    case Some(_) => Err(NotABool)
  }

  // ---- how a getter may write a number --------------------------------------

  /** The digits of a number: decimal, or hex behind `0x` or `0X`, with an optional plus sign. */
  ghost predicate IsNumeral(prefix: string, plus: string, digits: string, n: nat) {
    var radix := if prefix == "" then 10 else 16;
    && prefix in ["", "0x", "0X"] && plus in ["", "+"]
    && digits != "" && AllDigits(digits, radix) && ValueOf(digits, radix) == n
  }

  /** A getter writes the number: as a JSON number of at most 64 bits, or as a text with white
      space around the digits. */
  ghost predicate Spells(val: Value, n: nat) {
    || (val == Int(n) && n < U64_BOUND)
    || (val.Str? && exists pre, prefix, plus, digits, post ::
          && AllSpace(pre) && AllSpace(post) && val.text == pre + (prefix + (plus + digits)) + post
          && IsNumeral(prefix, plus, digits, n))
  }

  ghost predicate SpelledAt(v: Value, name: string, n: nat) {
    v.Get(name).Some? && Spells(v.Get(name).value, n)
  }

  lemma NumeralReads(prefix: string, plus: string, digits: string, n: nat)
    requires IsNumeral(prefix, plus, digits, n)
    ensures var s := prefix + (plus + digits);
            && Trimmed(s)
            && HexTail(s) == (if prefix == "" then None else Some(plus + digits))
            && ParseU128(plus + digits, if prefix == "" then 10 else 16) == if n < U128_BOUND then Some(n) else None
  {
    var radix := if prefix == "" then 10 else 16;
    assert DigitVal(digits[0], radix).Some? && DigitVal(digits[|digits| - 1], radix).Some?;
    if plus == "" {
      assert plus + digits == digits;
    } else {
      assert (plus + digits)[1..] == digits;
    }
    if prefix == "" {
      assert prefix + (plus + digits) == plus + digits;
      NoHexTail(plus + digits);
    } else {
      assert (prefix + (plus + digits))[2..] == plus + digits;
    }
  }

  lemma NoHexTail(s: string)
    requires forall i :: 1 <= i < |s| ==> DigitVal(s[i], 10).Some?
    ensures HexTail(s) == None
  {
    SecondChar(s, "0x");
    SecondChar(s, "0X");
  }

  lemma DigitsOf(rest: string, radix: nat, n: nat) returns (plus: string, digits: string)
    requires ParseU128(rest, radix) == Some(n)
    ensures rest == plus + digits && plus in ["", "+"] && digits != "" && n < U128_BOUND
    ensures AllDigits(digits, radix) && ValueOf(digits, radix) == n
  {
    plus := if rest[0] == '+' then "+" else "";
    digits := rest[|plus|..];
  }

  lemma NumeralOf(s: string, n: nat) returns (prefix: string, plus: string, digits: string)
    requires match HexTail(s) case Some(hex) => ParseU128(hex, 16) == Some(n) case None => ParseU128(s, 10) == Some(n)
    ensures s == prefix + (plus + digits) && IsNumeral(prefix, plus, digits, n) && n < U128_BOUND
  {
    hide ParseU128, ValueOf, AllDigits;
    if HexTail(s).Some? {
      prefix := if "0x" <= s then "0x" else "0X";
      plus, digits := DigitsOf(s[2..], 16, n);
    } else {
      prefix := "";
      plus, digits := DigitsOf(s, 10, n);
    }
  }

  /** A field is read as a number exactly when it is there and one of the ways to write that
      number, which has to fit into 128 bits. */
  lemma FieldIff(v: Value, name: string, n: nat)
    ensures FieldU128(v, name) == Ok(n) <==> SpelledAt(v, name, n) && n < U128_BOUND
    ensures FieldU128(v, name) == Err(Missing) <==> v.Get(name).None?
  {
    hide Trim, HexTail, ParseU128, IsNumeral, ValueOf, Value.Get;
    match v.Get(name) {
      case Some(Str(text)) =>
        if FieldU128(v, name) == Ok(n) {
          var pre, post := TrimSplits(text);
          var prefix, plus, digits := NumeralOf(Trim(text), n);
        }
        forall pre, prefix, plus, digits, post |
          AllSpace(pre) && AllSpace(post) && text == pre + (prefix + (plus + digits)) + post
          && IsNumeral(prefix, plus, digits, n)
          ensures FieldU128(v, name) == Ok(n) <==> n < U128_BOUND
        {
          NumeralReads(prefix, plus, digits, n);
          TrimPadded(pre, prefix + (plus + digits), post);
          TrimOfTrimmed(prefix + (plus + digits));
          var read := ParseU128(plus + digits, if prefix == "" then 10 else 16);
          assert prefix == "" ==> prefix + (plus + digits) == plus + digits;
          assert FieldU128(v, name).Ok? ==> FieldU128(v, name) == Ok(read.value);
        }
      case _ =>
    }
  }

  // ---- decimal digits, least significant first ------------------------------

  ghost predicate Digits(ds: seq<nat>) {
    forall i :: 0 <= i < |ds| ==> ds[i] < 10
  }

  ghost function Value10(ds: seq<nat>): nat {
    if ds == [] then 0 else ds[0] + 10 * Value10(ds[1..])
  }

  /** The digits the carry loop pushes. */
  ghost function Pushed(carry: nat): seq<nat> {
    if carry == 0 then [] else [carry % 10] + Pushed(carry / 10)
  }

  /** One hex digit taken in: every digit times sixteen plus the running carry. */
  ghost function TakeIn(ds: seq<nat>, carry: nat): seq<nat> {
    if ds == [] then Pushed(carry)
    else [(ds[0] * 16 + carry) % 10] + TakeIn(ds[1..], (ds[0] * 16 + carry) / 10)
  }

  lemma {:induction false} PushedValue(carry: nat)
    ensures Digits(Pushed(carry)) && Value10(Pushed(carry)) == carry
    ensures carry > 0 ==> Pushed(carry) != [] && Pushed(carry)[|Pushed(carry)| - 1] > 0
  {
    if carry > 0 {
      PushedValue(carry / 10);
    }
  }

  lemma {:induction false} TakeInValue(ds: seq<nat>, carry: nat)
    requires Digits(ds)
    ensures Digits(TakeIn(ds, carry))
    ensures Value10(TakeIn(ds, carry)) == 16 * Value10(ds) + carry
  {
    if ds == [] {
      PushedValue(carry);
    } else {
      TakeInValue(ds[1..], (ds[0] * 16 + carry) / 10);
    }
  }

  /** No leading zero, except for zero itself. */
  ghost predicate Canonical(ds: seq<nat>) {
    Digits(ds) && ds != [] && (|ds| == 1 || ds[|ds| - 1] > 0)
  }

  lemma {:induction false} TakeInKeepsTopDigit(ds: seq<nat>, carry: nat)
    requires Digits(ds) && ds != [] && ds[|ds| - 1] > 0
    ensures var r := TakeIn(ds, carry); r != [] && r[|r| - 1] > 0
  {
    var out := (ds[0] * 16 + carry) / 10;
    if |ds| == 1 {
      PushedValue(out);
      assert ds[1..] == [];
    } else {
      assert ds[1..][|ds| - 2] == ds[|ds| - 1];
      TakeInKeepsTopDigit(ds[1..], out);
    }
  }

  lemma TakeInCanonical(ds: seq<nat>, carry: nat)
    requires Canonical(ds) && carry < 16
    ensures Canonical(TakeIn(ds, carry))
  {
    TakeInValue(ds, carry);
    if ds[|ds| - 1] > 0 {
      TakeInKeepsTopDigit(ds, carry);
    } else {
      assert ds[1..] == [];
      PushedValue(carry / 10);
    }
  }

  /** The digits as text, most significant first. */
  function Rendered(ds: seq<nat>): string
    requires forall i :: 0 <= i < |ds| ==> ds[i] < 10
  {
    if ds == [] then "" else Rendered(ds[1..]) + [DigitChar(ds[0])]
  }

  lemma {:induction false} CanonicalIsPositive(ds: seq<nat>)
    requires Digits(ds) && ds != [] && ds[|ds| - 1] > 0
    ensures Value10(ds) > 0
  {
    if |ds| > 1 {
      assert ds[1..][|ds| - 2] == ds[|ds| - 1];
      CanonicalIsPositive(ds[1..]);
    }
  }

  lemma {:induction false} RenderedShows(ds: seq<nat>)
    requires Canonical(ds)
    ensures Rendered(ds) == ShowNat(Value10(ds))
  {
    if |ds| == 1 {
      assert ds[1..] == [];
    } else {
      assert ds[1..][|ds| - 2] == ds[|ds| - 1];
      CanonicalIsPositive(ds[1..]);
      RenderedShows(ds[1..]);
    }
  }

  /** One turn of the inner loop, on the digits from `i` on. */
  lemma DigitStep(before: seq<nat>, done: seq<nat>, i: nat, carry: nat)
    requires i < |before| && before[i] < 10 && carry <= 15
    ensures var val := before[i] * 16 + carry;
            && val <= 159 && val / 10 <= 15
            && done + TakeIn(before[i..], carry) == done + [val % 10] + TakeIn(before[i + 1..], val / 10)
  {
    assert before[i..][1..] == before[i + 1..];
  }

  /** One turn of the carry loop. */
  lemma CarryStep(done: seq<nat>, carry: nat)
    requires carry > 0
    ensures done + Pushed(carry) == done + [carry % 10] + Pushed(carry / 10)
  {
  }

  lemma OneMoreDigit(hex: string, k: nat)
    requires k < |hex| && AllDigits(hex[..k], 16) && DigitVal(hex[k], 16).Some?
    ensures AllDigits(hex[..k + 1], 16)
    ensures ValueOf(hex[..k + 1], 16) == ValueOf(hex[..k], 16) * 16 + DigitVal(hex[k], 16).value
  {
    assert hex[..k + 1][..k] == hex[..k];
  }

  /** The decimal text of a run of hex digits. */
  function HexDecimal(hex: string): Result<string, FieldError> {
    if AllDigits(hex, 16) then Ok(ShowNat(ValueOf(hex, 16))) else Err(BadHex)
  }

  /** The in-place conversion. Every intermediate value is below 160, so the 32-bit sum and
      the 8-bit digits never overflow, and the carry is at most 15 between digits. */
  method HexToDecimal(hex: string) returns (r: Result<string, FieldError>)
    ensures r == HexDecimal(hex)
  {
    hide TakeIn, Pushed, Value10, ValueOf, ShowNat, Rendered, DigitVal;
    var digits: seq<nat> := [0];
    ZeroDigits(hex);
    for k := 0 to |hex|
      invariant Canonical(digits)
      invariant AllDigits(hex[..k], 16) && Value10(digits) == ValueOf(hex[..k], 16)
    {
      var digit := DigitVal(hex[k], 16);
      if digit.None? {
        return Err(BadHex);
      }
      OneMoreDigit(hex, k);
      var carry := digit.value;
      assert carry <= 15 by { DigitBelow(hex[k]); }
      ghost var before := digits;
      TakeInValue(before, carry);
      TakeInCanonical(before, carry);
      ghost var target := TakeIn(before, carry);
      assert before[0..] == before && digits[..0] + target == target;
      for i := 0 to |digits|
        invariant |digits| == |before|
        invariant forall j :: i <= j < |digits| ==> digits[j] == before[j]
        invariant carry <= 15
        invariant digits[..i] + TakeIn(before[i..], carry) == target
      {
        DigitStep(before, digits[..i], i, carry);
        var val := digits[i] * 16 + carry;
        assert digits[i := val % 10][..i + 1] == digits[..i] + [val % 10];
        digits := digits[i := val % 10];
        carry := val / 10;
      }
      NoDigitsLeft(before, carry);
      assert digits[..|digits|] == digits;
      while carry > 0
        invariant digits + Pushed(carry) == target
      {
        CarryStep(digits, carry);
        digits := digits + [carry % 10];
        carry := carry / 10;
      }
      NoDigitsLeft([], 0);
      assert digits + [] == digits;
    }
    assert hex[..|hex|] == hex;
    RenderedShows(digits);
    r := Ok(Rendered(digits));
  }

  lemma ZeroDigits(hex: string)
    ensures Canonical([0]) && Value10([0]) == 0
    ensures AllDigits(hex[..0], 16) && ValueOf(hex[..0], 16) == 0
  {
  }

  lemma DigitBelow(c: char)
    requires DigitVal(c, 16).Some?
    ensures DigitVal(c, 16).value < 16
  {
  }

  lemma NoDigitsLeft(ds: seq<nat>, carry: nat)
    ensures TakeIn(ds[|ds|..], carry) == Pushed(carry) && Pushed(0) == []
  {
  }

  /** What `field_dec` answers, told by values. */
  function DecOf(v: Value, name: string): Result<string, FieldError> {
    match v.Get(name)
    case None => Err(Missing)
    case Some(Str(text)) =>
      (match HexTail(Trim(text)) case Some(hex) => HexDecimal(hex) case None => Ok(Trim(text)))
    case Some(Int(n)) => Ok(Show(n))
    case Some(Float(repr)) => Ok(repr)
    case Some(_) => Err(NotAUint)
  }

  method FieldDec(v: Value, name: string) returns (r: Result<string, FieldError>)
    ensures r == DecOf(v, name)
  {
    match v.Get(name) {
      case None => r := Err(Missing);
      case Some(Str(text)) =>
        var hex := HexTail(Trim(text));
        if hex.Some? {
          r := HexToDecimal(hex.value);
        } else {
          r := Ok(Trim(text));
        }
      case Some(Int(n)) => r := Ok(Show(n));
      case Some(Float(repr)) => r := Ok(repr);
      case Some(_) => r := Err(NotAUint);
    }
  }

  lemma TrimmedText(pre: string, core: string, post: string)
    requires AllSpace(pre) && AllSpace(post) && Trimmed(core)
    ensures Trim(pre + core + post) == core
  {
    TrimPadded(pre, core, post);
    TrimOfTrimmed(core);
  }

  lemma HexTailIff(s: string)
    ensures HexTail(s) == if s[..Min(2, |s|)] in ["0x", "0X"] then Some(s[2..]) else None
  {
    SecondChar(s, "0x");
    SecondChar(s, "0X");
    if |s| >= 2 {
      assert s[..2] == "0x" <==> "0x" <= s;
      assert s[..2] == "0X" <==> "0X" <= s;
    }
  }

  /** Other texts and numbers are taken as they are, and nothing else is. */
  lemma TextIsKept(v: Value, name: string, pre: string, core: string, post: string)
    requires AllSpace(pre) && AllSpace(post) && Trimmed(core)
    ensures v.Get(name) == Some(Str(pre + core + post)) ==>
              DecOf(v, name) == (if core[..Min(2, |core|)] !in ["0x", "0X"] then Ok(core)
                                 else if AllDigits(core[2..], 16) then Ok(ShowNat(ValueOf(core[2..], 16)))
                                 else Err(BadHex))
    ensures forall n: nat :: v.Get(name) == Some(Int(n)) ==> DecOf(v, name) == Ok(ShowNat(n))
    ensures v.Get(name).None? ==> DecOf(v, name) == Err(Missing)
    ensures v.Get(name).Some? && !v.Get(name).value.Str? && !v.Get(name).value.Int? && !v.Get(name).value.Float?
            ==> DecOf(v, name) == Err(NotAUint)
  {
    TrimmedText(pre, core, post);
    HexTailIff(core);
    hide HexTail, Trim, ShowNat, ValueOf, AllDigits;
  }

  /** A hash of any size, written in hex of either case with any leading zeros, comes out as
      its decimal text; what is behind the prefix has to be hex digits. */
  lemma HashInDecimal(v: Value, name: string, pre: string, prefix: string, zeros: string, n: nat, upper: bool,
                      post: string)
    requires AllSpace(pre) && AllSpace(post) && prefix in ["0x", "0X"]
    requires forall i :: 0 <= i < |zeros| ==> zeros[i] == '0'
    requires v.Get(name) == Some(Str(pre + (prefix + (zeros + ShowHex(n, upper))) + post))
    ensures DecOf(v, name) == Ok(ShowNat(n))
  {
    hide DecOf, Trim, HexTail, ShowHex, ShowNat, ValueOf, AllDigits;
    var digits := zeros + ShowHex(n, upper);
    ShowHexReads(n, upper);
    LeadingZeros(zeros, ShowHex(n, upper), 16);
    assert digits != "" by {
      assert |digits| >= |ShowHex(n, upper)| >= 1;
    }
    assert "" + digits == digits;
    assert IsNumeral(prefix, "", digits, n);
    NumeralReads(prefix, "", digits, n);
    TrimmedText(pre, prefix + digits, post);
    TextIsKept(v, name, pre, prefix + digits, post);
    assert (prefix + digits)[..2] == prefix && (prefix + digits)[2..] == digits;
  }

  /** On the digits behind `0x`, the 128-bit reader and the decimal printer agree exactly
      when there is at least one digit, no sign, and the value fits: then the printed text
      reads back, as a decimal, as the very number. On nothing at all the printer says "0"
      and the reader fails; on a leading `+` it is the other way round. */
  lemma ReadersAgreeIff(hex: string)
    ensures ParseU128(hex, 16).Some? && HexDecimal(hex).Ok?
            <==> hex != "" && AllDigits(hex, 16) && ValueOf(hex, 16) < U128_BOUND
    ensures ParseU128(hex, 16).Some? && HexDecimal(hex).Ok?
            ==> ParseU128(HexDecimal(hex).value, 10) == ParseU128(hex, 16)
    ensures HexDecimal("") == Ok("0") && ParseU128("", 16) == None
    ensures HexDecimal("+f") == Err(BadHex) && ParseU128("+f", 16) == Some(15)
  {
    if hex != "" && AllDigits(hex, 16) {
      assert DigitVal(hex[0], 16).Some?;
      ShowNatReads(ValueOf(hex, 16));
      var dec := ShowNat(ValueOf(hex, 16));
      assert DigitVal(dec[0], 10).Some?;
    }
    SignIsNoDigit(hex);
    PlusF();
  }

  lemma PlusF()
    ensures HexDecimal("+f") == Err(BadHex) && ParseU128("+f", 16) == Some(15)
  {
    assert DigitVal("+f"[0], 16).None?;
    assert "+f"[1..] == "f";
    assert "f"[..0] == "";
    assert ValueOf("f", 16) == 15;
  }

  /** The field is a hex string with a sign behind `0x`. */
  predicate SignedHex(v: Value, name: string) {
    match v.Get(name)
    case Some(Str(text)) =>
      (match HexTail(Trim(text)) case Some(hex) => hex != "" && hex[0] == '+' case None => false)
    case _ => false
  }

  /** Whatever form a field has, string or number: where the 128-bit reader gets a number,
      the decimal text is that number, and it is only missing for a signed hex string. */
  lemma FieldsAgree(v: Value, name: string)
    requires FieldU128(v, name).Ok?
    ensures DecOf(v, name).Ok? <==> !SignedHex(v, name)
    ensures DecOf(v, name).Ok? ==> ParseU128(DecOf(v, name).value, 10) == Some(FieldU128(v, name).value)
  {
    hide HexTail, Trim, ValueOf, ShowNat;
    match v.Get(name).value {
      case Str(text) =>
        var hex := HexTail(Trim(text));
        if hex.Some? {
          ReadersAgreeIff(hex.value);
          SignIsNoDigit(hex.value);
        }
      case Int(n) =>
        ShowNatReads(n);
        assert DigitVal(ShowNat(n)[0], 10).Some?;
    }
  }

  lemma SignIsNoDigit(hex: string)
    ensures hex != "" && hex[0] == '+' ==> !AllDigits(hex, 16)
  {
    if hex != "" && hex[0] == '+' {
      assert DigitVal(hex[0], 16).None?;
    }
  }
}
