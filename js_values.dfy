/** JavaScript values as the mail path sees them: what a parsed JSON body or a
    thrown error can be, property reads on them, truthiness and `||`. */
module JsValues {
  import opened Wrappers

  /** A JavaScript value. Numbers are integers here; objects keep their properties in order. */
  datatype Js =
    | Undefined
    | Null
    | Bool(b: bool)
    | Num(n: int)
    | Str(s: string)
    | Arr(items: seq<Js>)
    | Obj(fields: seq<(string, Js)>)

  /** The value taken as a condition. */
  predicate Truthy(v: Js) {
    match v
    case Undefined => false
    case Null => false
    case Bool(b) => b
    case Num(n) => n != 0
    case Str(s) => s != ""
    case Arr(_) => true
    case Obj(_) => true
  }

  /** `a || b`: the left value when it is truthy, the right one otherwise. */
  function Or(a: Js, b: Js): (r: Js)
    ensures Truthy(a) ==> r == a
    ensures !Truthy(a) ==> r == b
  {
    if Truthy(a) then a else b
  }

  /** The value of the last property named `key` (as `JSON.parse` keeps the last duplicate), or
      `undefined`. */
  function Field(fields: seq<(string, Js)>, key: string): (r: Js)
    ensures r != Undefined ==> exists i :: 0 <= i < |fields| && fields[i] == (key, r)
    ensures (forall i :: 0 <= i < |fields| ==> fields[i].0 != key) ==> r == Undefined
    ensures forall i ::
      0 <= i < |fields| && fields[i].0 == key && (forall j :: i < j < |fields| ==> fields[j].0 != key)
      ==> r == fields[i].1
  {
    if fields == [] then Undefined
    else
      var n := |fields| - 1;
      if fields[n].0 == key then fields[n].1 else Field(fields[..n], key)
  }

  /** `v.key`: a read on `null` or `undefined` throws (`None`); a read on a value that is not an
      object yields `undefined`. */
  function Member(v: Js, key: string): (r: Option<Js>)
    ensures r.None? <==> v == Null || v == Undefined
    ensures v.Obj? ==> r == Some(Field(v.fields, key))
    ensures !v.Obj? && r.Some? ==> r == Some(Undefined)
  {
    match v
    case Undefined => None
    case Null => None
    case Obj(fields) => Some(Field(fields, key))
    case _ => Some(Undefined)
  }

  /** `v?.key`: like `v.key`, but `undefined` instead of throwing. */
  function OptMember(v: Js, key: string): (r: Js)
    ensures Member(v, key).Some? ==> r == Member(v, key).value
    ensures Member(v, key).None? ==> r == Undefined
  {
    match Member(v, key)
    case None => Undefined
    case Some(x) => x
  }

  /** The built-ins the mail path calls on text: `JSON.parse` (`None` when it throws),
      `JSON.stringify` and `String`. */
  datatype Builtins = Builtins(parse: string -> Option<Js>, stringify: Js -> string, toText: Js -> string)
}
