/**
 The dinosaur records the query functions read, and the small part of
 JavaScript's dynamic values they rely on: truthiness (for `a || b` and
 `if (x)`) and property lookup by a run-time key (`dinosaur[key]`).
 */
module Dinosaurs {

  datatype Option<+T> = None | Some(value: T)

  /** A JavaScript value as far as the queries can observe it. */
  datatype Value =
    | Undefined
    | Null
    | Bool(b: bool)
    | Num(n: real)
    | Str(s: string)
    | Arr(items: seq<Value>)

  /** JavaScript truthiness: `undefined`, `null`, `false`, `0` and `""` are
      falsy; every array, even an empty one, is truthy. */
  predicate Truthy(v: Value)
  {
    match v
    case Undefined => false
    case Null => false
    case Bool(b) => b
    case Num(n) => n != 0.0
    case Str(s) => s != ""
    case Arr(_) => true
  }

  /** A dinosaur record. The fields the queries read by name are typed;
      any other property a record may carry is kept in `extra`, which holds
      only keys outside `Known` (an entry under a key in `Known` is never
      read, so a record has one representation only when `extra` keeps
      to that rule).
      Both `id` and `dinosaurId` are present because the lookup by
      identifier reads one and the time filter projects the other. */
  datatype Dinosaur = Dinosaur(
    id: string,
    dinosaurId: string,
    name: string,
    pronunciation: string,
    info: string,
    period: string,
    lengthInMeters: real,
    mya: seq<real>,
    extra: map<string, Value>)

  /** The property names every record carries. */
  const Known: set<string> :=
    {"id", "dinosaurId", "name", "pronunciation", "info", "period", "lengthInMeters", "mya"}

  predicate HasProperty(d: Dinosaur, key: string)
  {
    key in Known || key in d.extra
  }

  /** `d[key]`: the named property, or `undefined` when the record has none. */
  function Get(d: Dinosaur, key: string): (v: Value)
    ensures !HasProperty(d, key) ==> v == Undefined
    ensures key == "id" ==> v == Str(d.id)
  {
    if key == "id" then Str(d.id)
    else if key == "dinosaurId" then Str(d.dinosaurId)
    else if key == "name" then Str(d.name)
    else if key == "pronunciation" then Str(d.pronunciation)
    else if key == "info" then Str(d.info)
    else if key == "period" then Str(d.period)
    else if key == "lengthInMeters" then Num(d.lengthInMeters)
    else if key == "mya" then Arr(seq(|d.mya|, i requires 0 <= i < |d.mya| => Num(d.mya[i])))
    else if key in d.extra then d.extra[key]
    else Undefined
  }
}
