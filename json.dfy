/** JSON values as the registry stores them: records are dictionaries from keys to values. */
module Json {

  datatype Value =
    | Null
    | Bool(b: bool)
    | Num(n: int)
    | Str(s: string)
    | Arr(items: seq<Value>)
    | Obj(fields: map<string, Value>)

  /** A JSON object: one registry record. */
  type Dict = map<string, Value>

  /** Python's truth value of a JSON value: false, 0, "", [] and {} are false. */
  predicate Truthy(v: Value)
  {
    match v
    case Null => false
    case Bool(b) => b
    case Num(n) => n != 0
    case Str(s) => s != ""
    case Arr(items) => items != []
    case Obj(fields) => fields != map[]
  }

  /** `d.get(key, default)`. */
  function Get(d: Dict, key: string, default: Value): Value
  {
    if key in d then d[key] else default
  }

  /** A list whose every item is an object. */
  predicate IsObjList(v: Value)
  {
    v.Arr? && forall i :: 0 <= i < |v.items| ==> v.items[i].Obj?
  }

  /** The objects of a list of objects. */
  function Objects(v: Value): (ds: seq<Dict>)
    requires IsObjList(v)
    ensures |ds| == |v.items|
    ensures forall i :: 0 <= i < |ds| ==> ds[i] == v.items[i].fields
  {
    seq(|v.items|, i requires 0 <= i < |v.items| => v.items[i].fields)
  }

  /** A list holding the given objects. */
  function ObjList(ds: seq<Dict>): (v: Value)
    ensures IsObjList(v) && Objects(v) == ds
  {
    Arr(seq(|ds|, i requires 0 <= i < |ds| => Obj(ds[i])))
  }

  /** `d.get(key, [])` is a list of objects. */
  predicate HasObjList(d: Dict, key: string)
  {
    key in d ==> IsObjList(d[key])
  }

  /** The objects of `d.get(key, [])`. */
  function ObjectsAt(d: Dict, key: string): seq<Dict>
    requires HasObjList(d, key)
  {
    if key in d then Objects(d[key]) else []
  }

  /** `d[key]` exists and is a string. */
  predicate HasStr(d: Dict, key: string)
  {
    key in d && d[key].Str?
  }

  /** A list of strings. */
  function StrList(ss: seq<string>): Value
  {
    Arr(seq(|ss|, i requires 0 <= i < |ss| => Str(ss[i])))
  }
}
