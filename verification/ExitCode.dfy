/** The failure path of a submit: the exit code is dug out of the Block Manager's reply,
    printed into an error text, and read back from the text to tell the failures apart. */
module ExitCode {
  import opened Wrappers
  import opened Json
  import opened Text
  import opened Numerals

  // ---- digging the code out -------------------------------------------------

  predicate IsExitCodeKey(key: string) {
    Contains(Lower(key), "exit") && Contains(Lower(key), "code")
  }

  /** `str::parse::<i64>`. */
  function ParseI64(s: string): Option<int> {
    var signed := s != "" && (s[0] == '-' || s[0] == '+');
    var digits := if signed then s[1..] else s;
    if digits == "" || !AllDigits(digits, 10) then None
    else
      var magnitude: int := ValueOf(digits, 10);
      var n := if signed && s[0] == '-' then -magnitude else magnitude;
      if I64_MIN <= n <= I64_MAX then Some(n) else None
  }

  /** The code an object entry carries itself. */
  function EntryCode(key: string, val: Value): Option<int> {
    if !IsExitCodeKey(key) then None
    else if val.AsI64().Some? then val.AsI64()
    else if val.AsStr().Some? then ParseI64(Trim(val.AsStr().value))
    else None
  }

  function ExtractExitCode(v: Value): Option<int>
    decreases v
  {
    match v
    case Obj(fields) => ExtractFromFields(fields)
    case Arr(items) => ExtractFromItems(items)
    case _ => None
  }

  function ExtractFromFields(fields: seq<Field>): Option<int>
    decreases fields
  {
    if fields == [] then None
    else
      var own := EntryCode(fields[0].key, fields[0].val);
      if own.Some? then own
      else
        var inner := ExtractExitCode(fields[0].val);
        if inner.Some? then inner else ExtractFromFields(fields[1..])
  }

  function ExtractFromItems(items: seq<Value>): Option<int>
    decreases items
  {
    if items == [] then None
    else
      var inner := ExtractExitCode(items[0]);
      if inner.Some? then inner else ExtractFromItems(items[1..])
  }

  // ---- what an entry has to look like ---------------------------------------

  /** Around a word there may be anything, and the case does not matter. */
  ghost predicate Mentions(key: string, word: string) {
    exists pre, post :: Lower(key) == pre + word + post
  }

  lemma ContainsIff(s: string, needle: string)
    ensures Contains(s, needle) <==> exists pre, post :: s == pre + needle + post
  {
    if Contains(s, needle) {
      var at: nat :| at <= |s| && OccursAt(s, needle, at);
      assert s == s[..at] + needle + s[at + |needle|..];
    }
    forall pre, post | s == pre + needle + post
      ensures Contains(s, needle)
    {
      assert OccursAt(s, needle, |pre|);
    }
  }

  /** The text is a decimal number with an optional sign and white space around it. */
  ghost predicate Writes(text: string, n: int) {
    exists pre, sign, digits, post ::
      && AllSpace(pre) && AllSpace(post) && text == pre + (sign + digits) + post
      && IsWritten(sign, digits, n)
  }

  ghost predicate IsWritten(sign: string, digits: string, n: int) {
    && sign in ["", "+", "-"] && digits != "" && AllDigits(digits, 10)
    && if sign == "-" then -n == ValueOf(digits, 10) else n == ValueOf(digits, 10)
  }

  /** An entry has a code exactly when its key mentions both words, in any case, and its value
      is a 64-bit integer or a text that is one. */
  lemma EntryCodeIff(key: string, val: Value, n: Int64)
    ensures EntryCode(key, val) == Some(n)
            <==> && Mentions(key, "exit") && Mentions(key, "code")
                 && (val == Int(n) || (val.Str? && Writes(val.text, n)))
    ensures EntryCode(key, val).Some? ==> I64_MIN <= EntryCode(key, val).value <= I64_MAX
  {
    ContainsIff(Lower(key), "exit");
    ContainsIff(Lower(key), "code");
    if val.Str? {
      ParseI64Iff(val.text, n);
    }
    hide ParseI64, Trim, Contains, Writes, Lower;
  }

  lemma ShownIsWritten(pre: string, n: Int64, post: string)
    requires AllSpace(pre) && AllSpace(post)
    ensures Writes(pre + Show(n) + post, n)
  {
    var sign := if n < 0 then "-" else "";
    var size: nat := if n < 0 then 0 - n else n;
    var digits := ShowNat(size);
    ShowNatReads(size);
    assert Show(n) == sign + digits;
    assert IsWritten(sign, digits, n);
  }

  lemma ParseI64Iff(text: string, n: Int64)
    ensures ParseI64(Trim(text)) == Some(n) <==> Writes(text, n)
  {
    var s := Trim(text);
    hide Trim, ValueOf;
    if ParseI64(s) == Some(n) {
      var pre, post := TrimSplits(text);
      var sign := if s[0] == '-' || s[0] == '+' then [s[0]] else "";
      assert s == sign + s[|sign|..];
      assert IsWritten(sign, s[|sign|..], n);
    }
    forall pre, sign, digits, post |
      AllSpace(pre) && AllSpace(post) && text == pre + (sign + digits) + post && IsWritten(sign, digits, n)
      ensures ParseI64(s) == Some(n)
    {
      WrittenReads(sign, digits, n);
      TrimPadded(pre, sign + digits, post);
      TrimOfTrimmed(sign + digits);
    }
  }

  lemma WrittenReads(sign: string, digits: string, n: Int64)
    requires IsWritten(sign, digits, n)
    ensures ParseI64(sign + digits) == Some(n) && Trimmed(sign + digits)
  {
    var s := sign + digits;
    assert DigitVal(digits[0], 10).Some? && DigitVal(digits[|digits| - 1], 10).Some?;
    hide ValueOf, AllDigits, DigitVal;
    assert s[|s| - 1] == digits[|digits| - 1];
    if sign == "" {
      assert s == digits;
    } else {
      assert s[0] == sign[0] && s[1..] == digits;
    }
  }

  // ---- every code of a value, in document order -----------------------------

  function Children(v: Value): seq<Value> {
    match v
    case Obj(fields) => seq(|fields|, i requires 0 <= i < |fields| => fields[i].val)
    case Arr(items) => items
    case _ => []
  }

  function OwnCode(v: Value, i: nat): Option<int> {
    if v.Obj? && i < |v.fields| then EntryCode(v.fields[i].key, v.fields[i].val) else None
  }

  /** All codes at any depth: an entry's own code comes before those inside its value. */
  function Codes(v: Value): seq<int>
    decreases v
  {
    match v
    case Obj(fields) => CodesOfFields(fields)
    case Arr(items) => CodesOfItems(items)
    case _ => []
  }

  function CodesOfFields(fields: seq<Field>): seq<int>
    decreases fields
  {
    if fields == [] then []
    else
      var own := EntryCode(fields[0].key, fields[0].val);
      (if own.Some? then [own.value] else []) + Codes(fields[0].val) + CodesOfFields(fields[1..])
  }

  function CodesOfItems(items: seq<Value>): seq<int>
    decreases items
  {
    if items == [] then [] else Codes(items[0]) + CodesOfItems(items[1..])
  }

  function First(codes: seq<int>): Option<int> {
    if codes == [] then None else Some(codes[0])
  }

  /** The search finds the first code in document order, at whatever depth. */
  lemma {:induction false} ExtractsFirst(v: Value)
    ensures ExtractExitCode(v) == First(Codes(v))
    decreases v
  {
    hide EntryCode;
    match v {
      case Obj(fields) => ExtractsFirstField(fields);
      case Arr(items) => ExtractsFirstItem(items);
      case _ =>
    }
  }

  lemma {:induction false} ExtractsFirstField(fields: seq<Field>)
    ensures ExtractFromFields(fields) == First(CodesOfFields(fields))
    decreases fields
  {
    hide EntryCode;
    if fields != [] {
      ExtractsFirst(fields[0].val);
      ExtractsFirstField(fields[1..]);
    }
  }

  lemma {:induction false} ExtractsFirstItem(items: seq<Value>)
    ensures ExtractFromItems(items) == First(CodesOfItems(items))
    decreases items
  {
    hide EntryCode;
    if items != [] {
      ExtractsFirst(items[0]);
      ExtractsFirstItem(items[1..]);
    }
  }

  /** The node a path of child numbers leads to. */
  function NodeAt(v: Value, path: seq<nat>): Option<Value>
    decreases |path|
  {
    if path == [] then Some(v)
    else if path[0] < |Children(v)| then NodeAt(Children(v)[path[0]], path[1..])
    else None
  }

  /** Some object, at any depth, has an entry that carries the code. */
  ghost predicate Carries(v: Value, path: seq<nat>, i: nat, code: int) {
    NodeAt(v, path).Some? && OwnCode(NodeAt(v, path).value, i) == Some(code)
  }

  lemma {:induction false} CarriedIsInCodes(v: Value, path: seq<nat>, i: nat, code: int)
    requires Carries(v, path, i, code)
    ensures code in Codes(v)
    decreases |path|
  {
    hide EntryCode;
    if path == [] {
      FieldCodeIn(v.fields, i, code);
    } else {
      var k := path[0];
      CarriedIsInCodes(Children(v)[k], path[1..], i, code);
      match v {
        case Obj(fields) => ChildCodesInFields(fields, k, code);
        case Arr(items) => ChildCodesInItems(items, k, code);
      }
    }
  }

  lemma {:induction false} FieldCodeIn(fields: seq<Field>, i: nat, code: int)
    requires i < |fields| && EntryCode(fields[i].key, fields[i].val) == Some(code)
    ensures code in CodesOfFields(fields)
    decreases i
  {
    hide EntryCode;
    if i > 0 {
      FieldCodeIn(fields[1..], i - 1, code);
    }
  }

  lemma {:induction false} ChildCodesInFields(fields: seq<Field>, k: nat, code: int)
    requires k < |fields| && code in Codes(fields[k].val)
    ensures code in CodesOfFields(fields)
    decreases k
  {
    hide EntryCode;
    if k > 0 {
      ChildCodesInFields(fields[1..], k - 1, code);
    }
  }

  lemma {:induction false} ChildCodesInItems(items: seq<Value>, k: nat, code: int)
    requires k < |items| && code in Codes(items[k])
    ensures code in CodesOfItems(items)
    decreases k
  {
    if k > 0 {
      ChildCodesInItems(items[1..], k - 1, code);
    }
  }

  lemma {:induction false} CodeIsCarried(v: Value, code: int) returns (path: seq<nat>, i: nat)
    requires code in Codes(v)
    ensures Carries(v, path, i, code)
    decreases v
  {
    hide EntryCode;
    match v {
      case Obj(fields) =>
        var k := WhichField(fields, code);
        if EntryCode(fields[k].key, fields[k].val) == Some(code) {
          path, i := [], k;
        } else {
          var rest, j := CodeIsCarried(fields[k].val, code);
          path, i := [k] + rest, j;
          assert path[1..] == rest;
        }
      case Arr(items) =>
        var k := WhichItem(items, code);
        var rest, j := CodeIsCarried(items[k], code);
        path, i := [k] + rest, j;
        assert path[1..] == rest;
    }
  }

  lemma {:induction false} WhichField(fields: seq<Field>, code: int) returns (k: nat)
    requires code in CodesOfFields(fields)
    ensures k < |fields|
    ensures EntryCode(fields[k].key, fields[k].val) == Some(code) || code in Codes(fields[k].val)
    decreases |fields|
  {
    hide EntryCode;
    if EntryCode(fields[0].key, fields[0].val) == Some(code) || code in Codes(fields[0].val) {
      k := 0;
    } else {
      k := WhichField(fields[1..], code);
      k := k + 1;
    }
  }

  lemma {:induction false} WhichItem(items: seq<Value>, code: int) returns (k: nat)
    requires code in CodesOfItems(items)
    ensures k < |items| && code in Codes(items[k])
    decreases |items|
  {
    if code in Codes(items[0]) {
      k := 0;
    } else {
      k := WhichItem(items[1..], code);
      k := k + 1;
    }
  }

  /** Nothing is found exactly when no object at any depth has an exit-code entry with an
      integer value; and what is found is carried by one. */
  lemma ExtractsNoneIff(v: Value)
    ensures ExtractExitCode(v).None? <==> !exists path, i, code :: Carries(v, path, i, code)
    ensures ExtractExitCode(v).Some? ==> exists path, i :: Carries(v, path, i, ExtractExitCode(v).value)
  {
    hide Codes, ExtractExitCode, Carries;
    ExtractsFirst(v);
    forall path, i, code | Carries(v, path, i, code)
      ensures code in Codes(v)
    {
      CarriedIsInCodes(v, path, i, code);
    }
    if Codes(v) != [] {
      var path, i := CodeIsCarried(v, Codes(v)[0]);
    }
  }

  /** Whatever is found fits into 64 bits. */
  lemma CodesFit(v: Value)
    ensures ExtractExitCode(v).Some? ==> I64_MIN <= ExtractExitCode(v).value <= I64_MAX
  {
    hide ExtractExitCode;
    ExtractsNoneIff(v);
    if ExtractExitCode(v).Some? {
      var path, i :| Carries(v, path, i, ExtractExitCode(v).value);
    }
  }
}
