/** JSON values as the client sees them after parsing. An object is the sequence
    of its entries in iteration order. */
module Json {
  import opened Wrappers

  datatype Field = Field(key: string, val: Value)

  datatype Value =
    | Null
    | Bool(flag: bool)
    | Int(num: int)
    | Float(repr: string)
    | Str(text: string)
    | Arr(items: seq<Value>)
    | Obj(fields: seq<Field>)
  {
    function Get(name: string): Option<Value> {
      if Obj? then Find(fields, name) else None
    }

    function AsStr(): Option<string> {
      if Str? then Some(text) else None
    }

    function AsBool(): Option<bool> {
      if Bool? then Some(flag) else None
    }

    function AsI64(): Option<int> {
      if Int? && I64_MIN <= num <= I64_MAX then Some(num) else None
    }

    function AsU64(): Option<int> {
      if Int? && 0 <= num < U64_BOUND then Some(num) else None
    }
  }

  const I64_MAX: int := 0x7fff_ffff_ffff_ffff
  const I64_MIN: int := -0x8000_0000_0000_0000
  const U64_BOUND: int := 0x1_0000_0000_0000_0000

  type Int64 = n: int | I64_MIN <= n <= I64_MAX

  /** How an optional value is printed: `null` when there is none. */
  function OfStr(s: Option<string>): Value {
    match s case None => Null case Some(text) => Str(text)
  }

  function OfInt(n: Option<Int64>): Value {
    match n case None => Null case Some(num) => Int(num)
  }

  function OfBool(b: Option<bool>): Value {
    match b case None => Null case Some(flag) => Bool(flag)
  }

  function Find(fields: seq<Field>, name: string): Option<Value> {
    if fields == [] then None
    else if fields[0].key == name then Some(fields[0].val)
    else Find(fields[1..], name)
  }

  /** A value is found under a name exactly when it is the first entry of that name. */
  lemma {:induction false} FindIff(fields: seq<Field>, name: string, v: Value)
    ensures Find(fields, name) == Some(v)
            <==> exists k :: 0 <= k < |fields| && fields[k] == Field(name, v)
                             && forall i :: 0 <= i < k ==> fields[i].key != name
  {
    if fields != [] {
      FindIff(fields[1..], name, v);
      if fields[0].key != name {
        assert forall k :: 1 <= k < |fields| ==> fields[k] == fields[1..][k - 1];
        if k :| 0 <= k < |fields| && fields[k] == Field(name, v) && forall i :: 0 <= i < k ==> fields[i].key != name {
          assert fields[1..][k - 1] == Field(name, v);
        }
        if k :| 0 <= k < |fields[1..]| && fields[1..][k] == Field(name, v)
                && forall i :: 0 <= i < k ==> fields[1..][i].key != name {
          assert fields[k + 1] == Field(name, v);
        }
      }
    }
  }

  lemma FindAbsent(fields: seq<Field>, name: string)
    requires forall i :: 0 <= i < |fields| ==> fields[i].key != name
    ensures Find(fields, name) == None
  {
    if Find(fields, name).Some? {
      FindIff(fields, name, Find(fields, name).value);
    }
  }

  lemma FindAt(fields: seq<Field>, k: nat)
    requires k < |fields| && forall i :: 0 <= i < k ==> fields[i].key != fields[k].key
    ensures Find(fields, fields[k].key) == Some(fields[k].val)
  {
    assert fields[k] == Field(fields[k].key, fields[k].val);
    FindIff(fields, fields[k].key, fields[k].val);
  }

  /** Follow object keys from the root; `None` as soon as one is missing. */
  function Pointer(v: Value, path: seq<string>): Option<Value>
    decreases |path|
  {
    if path == [] then Some(v)
    else match v.Get(path[0])
         case None => None
         case Some(child) => Pointer(child, path[1..])
  }

  /** `field(name).as_str()` through an optional parent. */
  function StrField(v: Option<Value>, name: string): Option<string> {
    match v
    case None => None
    case Some(parent) =>
      match parent.Get(name)
      case None => None
      case Some(child) => child.AsStr()
  }

  /** `field(name).as_i64()` through an optional parent. */
  function IntField(v: Option<Value>, name: string): Option<int> {
    match v
    case None => None
    case Some(parent) =>
      match parent.Get(name)
      case None => None
      case Some(child) => child.AsI64()
  }
}
