/**
 Three queries over a sequence of dinosaur records: the longest dinosaur
 (in feet), a formatted description looked up by identifier, and the
 dinosaurs alive at a given number of millions of years ago.

 JavaScript's number formatting is not modelled: the queries take it as a
 parameter, `round2` for `parseFloat(x.toFixed(2))` and `show` for the
 text a number becomes inside a template literal.
 */
module DinosaurFacts {
  import opened Dinosaurs

  // ---------------------------------------------------------------------
  // getLongestDinosaur
  // ---------------------------------------------------------------------

  const FeetPerMeter: real := 3.281

  /** Height in feet; positive exactly when the length is. */
  function Feet(d: Dinosaur): (f: real)
    ensures f > 0.0 <==> d.lengthInMeters > 0.0
  {
    d.lengthInMeters * FeetPerMeter
  }

  /** Ordering by height in feet is ordering by length. */
  lemma FeetOrder(a: Dinosaur, b: Dinosaur)
    ensures Feet(a) < Feet(b) <==> a.lengthInMeters < b.lengthInMeters
  {
  }

  /** The height a running maximum holds while it points at `leader`:
      0 while no record has been taken yet. */
  function HeightOf(ds: seq<Dinosaur>, leader: Option<nat>): real
    requires leader.Some? ==> leader.value < |ds|
  {
    match leader
    case None => 0.0
    case Some(k) => Feet(ds[k])
  }

  /** Index of the record the running maximum holds after the first `n`
      records have been scanned; a record replaces it only when it is
      strictly higher. */
  function Leader(ds: seq<Dinosaur>, n: nat): (leader: Option<nat>)
    requires n <= |ds|
    ensures leader.Some? ==> leader.value < n
  {
    if n == 0 then None
    else
      var prev := Leader(ds, n - 1);
      if Feet(ds[n - 1]) > HeightOf(ds, prev) then Some(n - 1) else prev
  }

  /** The `{ name: height }` object getLongestDinosaur returns: empty when no
      record was taken or when the winner's name is falsy. */
  function Longest(ds: seq<Dinosaur>, round2: real -> real): (r: map<string, real>)
    ensures |r| <= 1
    ensures forall name :: name in r ==> name != ""
  {
    match Leader(ds, |ds|)
    case None => map[]
    case Some(k) => if ds[k].name != "" then map[ds[k].name := round2(Feet(ds[k]))] else map[]
  }

  method GetLongestDinosaur(dinosaurs: seq<Dinosaur>, round2: real -> real) returns (r: map<string, real>)
    ensures r == Longest(dinosaurs, round2)
  {
    var name: Option<string> := None;
    var height: real := 0.0;
    ghost var leader: Option<nat> := None;
    for i := 0 to |dinosaurs|
      invariant leader == Leader(dinosaurs, i)
      invariant leader.None? ==> name.None? && height == 0.0
      invariant leader.Some? ==> name == Some(dinosaurs[leader.value].name) && height == Feet(dinosaurs[leader.value])
    {
      var heightInFeet := dinosaurs[i].lengthInMeters * FeetPerMeter;
      if heightInFeet > height {
        name := Some(dinosaurs[i].name);
        height := heightInFeet;
        leader := Some(i);
      }
    }
    if name.Some? && name.value != "" {
      r := map[name.value := round2(height)];
    } else {
      r := map[];
    }
  }

  /** Record `k` is the first of the first `n` records with the greatest
      positive length: every record is at most as long, every earlier one
      strictly shorter. */
  ghost predicate FirstLongestWithin(ds: seq<Dinosaur>, n: nat, k: nat)
    requires n <= |ds|
  {
    && k < n
    && ds[k].lengthInMeters > 0.0
    && (forall j :: 0 <= j < n ==> ds[j].lengthInMeters <= ds[k].lengthInMeters)
    && (forall j :: 0 <= j < k ==> ds[j].lengthInMeters < ds[k].lengthInMeters)
  }

  ghost predicate IsFirstLongest(ds: seq<Dinosaur>, k: nat)
  {
    FirstLongestWithin(ds, |ds|, k)
  }

  lemma {:induction false} LeaderWithin(ds: seq<Dinosaur>, n: nat)
    requires n <= |ds|
    ensures Leader(ds, n).None? <==> forall j :: 0 <= j < n ==> ds[j].lengthInMeters <= 0.0
    ensures Leader(ds, n).Some? ==> FirstLongestWithin(ds, n, Leader(ds, n).value)
  {
    if n > 0 {
      LeaderWithin(ds, n - 1);
    }
  }

  lemma FirstLongestUnique(ds: seq<Dinosaur>, k1: nat, k2: nat)
    requires IsFirstLongest(ds, k1) && IsFirstLongest(ds, k2)
    ensures k1 == k2
  {
  }

  /** The record the scan settles on is exactly the first longest one. */
  lemma LeaderIsFirstLongest(ds: seq<Dinosaur>, k: nat)
    ensures Leader(ds, |ds|) == Some(k) <==> IsFirstLongest(ds, k)
  {
    LeaderWithin(ds, |ds|);
    if IsFirstLongest(ds, k) && Leader(ds, |ds|).Some? {
      FirstLongestUnique(ds, k, Leader(ds, |ds|).value);
    }
  }

  /** With no record of positive length (in particular with no record at
      all) the result is the empty object. */
  lemma LongestWithoutPositiveLength(ds: seq<Dinosaur>, round2: real -> real)
    requires forall j :: 0 <= j < |ds| ==> ds[j].lengthInMeters <= 0.0
    ensures Longest(ds, round2) == map[]
  {
    LeaderWithin(ds, |ds|);
  }

  /** Otherwise the result names the first longest record with its rounded
      height in feet, unless that record's name is empty. */
  lemma LongestNamesFirstLongest(ds: seq<Dinosaur>, round2: real -> real, k: nat)
    requires IsFirstLongest(ds, k)
    ensures Longest(ds, round2) ==
      if ds[k].name != "" then map[ds[k].name := round2(Feet(ds[k]))] else map[]
  {
    LeaderIsFirstLongest(ds, k);
  }

  /** The two cases above cover every input. */
  lemma LongestCases(ds: seq<Dinosaur>)
    ensures (forall j :: 0 <= j < |ds| ==> ds[j].lengthInMeters <= 0.0) || exists k :: IsFirstLongest(ds, k)
  {
    LeaderWithin(ds, |ds|);
    if Leader(ds, |ds|).Some? {
      assert IsFirstLongest(ds, Leader(ds, |ds|).value);
    }
  }

  /** The returned height is at least the unrounded height of every record,
      before rounding. */
  lemma LongestIsMaximal(ds: seq<Dinosaur>, round2: real -> real)
    requires Longest(ds, round2) != map[]
    ensures exists k :: (&& 0 <= k < |ds|
                         && Longest(ds, round2) == map[ds[k].name := round2(Feet(ds[k]))]
                         && (forall j :: 0 <= j < |ds| ==> Feet(ds[j]) <= Feet(ds[k])))
  {
    LeaderWithin(ds, |ds|);
    var k := Leader(ds, |ds|).value;
    assert forall j :: 0 <= j < |ds| ==> Feet(ds[j]) <= Feet(ds[k]);
  }

  // ---------------------------------------------------------------------
  // getDinosaurDescription
  // ---------------------------------------------------------------------

  /** Record `k` is the first whose `dinosaurId` is `id`. */
  ghost predicate IsFirstMatch(ds: seq<Dinosaur>, id: string, k: nat)
  {
    && k < |ds|
    && ds[k].dinosaurId == id
    && (forall j :: 0 <= j < k ==> ds[j].dinosaurId != id)
  }

  /** `dinosaurs.find(dino => dino.dinosaurId === id)`, as an index. */
  function FindById(ds: seq<Dinosaur>, id: string): (r: Option<nat>)
    ensures r.None? <==> forall j :: 0 <= j < |ds| ==> ds[j].dinosaurId != id
    ensures r.Some? ==> IsFirstMatch(ds, id, r.value)
  {
    if ds == [] then None
    else if ds[0].dinosaurId == id then Some(0)
    else
      match FindById(ds[1..], id)
      case None => None
      case Some(k) => Some(k + 1)
  }

  /** The not-found sentence; the id can be read back from it. */
  function NotFoundMessage(id: string): (r: string)
    ensures |r| == |id| + 44
    ensures r[26..26 + |id|] == id
  {
    "A dinosaur with an ID of '" + id + "' cannot be found."
  }

  /** `${mya[i]}` inside a template literal; a missing element prints as
      `undefined`. */
  function ShowAt(mya: seq<real>, i: nat, show: real -> string): string
  {
    if i < |mya| then show(mya[i]) else "undefined"
  }

  /** The "million years ago" clause: a single estimate, or the first two
      values as a range (any length other than one takes the range form). */
  function MyaClause(mya: seq<real>, show: real -> string): (r: string)
    ensures |mya| == 1 ==> r == show(mya[0]) + " million years ago"
    ensures |mya| >= 2 ==> r == show(mya[0]) + "-" + show(mya[1]) + " million years ago"
    ensures |mya| == 0 ==> r == "undefined-undefined million years ago"
  {
    if |mya| == 1 then ShowAt(mya, 0, show) + " million years ago"
    else ShowAt(mya, 0, show) + "-" + ShowAt(mya, 1, show) + " million years ago"
  }

  /** The description: its first line is `name (pronunciation)`, and it
      ends with the "million years ago" clause and a full stop. */
  function Describe(d: Dinosaur, show: real -> string): (r: string)
    ensures |d.name| + |d.pronunciation| + 4 <= |r|
    ensures r[..|d.name| + |d.pronunciation| + 4] == d.name + " (" + d.pronunciation + ")\n"
    ensures |MyaClause(d.mya, show)| + 1 <= |r|
    ensures r[|r| - |MyaClause(d.mya, show)| - 1..] == MyaClause(d.mya, show) + "."
  {
    d.name + " (" + d.pronunciation + ")\n" + d.info + " It lived in the " + d.period
      + " period, over " + MyaClause(d.mya, show) + "."
  }

  function GetDinosaurDescription(ds: seq<Dinosaur>, id: string, show: real -> string): (r: string)
    ensures (forall j :: 0 <= j < |ds| ==> ds[j].dinosaurId != id) ==> r == NotFoundMessage(id)
    ensures forall k: nat :: IsFirstMatch(ds, id, k) ==> r == Describe(ds[k], show)
  {
    match FindById(ds, id)
    case None => NotFoundMessage(id)
    case Some(k) =>
      assert forall k': nat :: IsFirstMatch(ds, id, k') ==> k' == k;
      Describe(ds[k], show)
  }

  // ---------------------------------------------------------------------
  // getDinosaursAliveMya
  // ---------------------------------------------------------------------

  /** The filter's test: a single estimate `v` covers the queries `v` and
      `v + 1`; any other `mya` covers exactly the values it lists. */
  predicate AliveAt(mya: seq<real>, q: real)
    ensures AliveAt(mya, q) ==> q in mya || (|mya| == 1 && q == mya[0] + 1.0)
    ensures |mya| != 1 ==> (AliveAt(mya, q) <==> q in mya)
    ensures |mya| == 0 ==> !AliveAt(mya, q)
  {
    if |mya| == 1 then mya[0] == q || mya[0] == q - 1.0 else q in mya
  }

  function FilterAlive(ds: seq<Dinosaur>, q: real): (r: seq<Dinosaur>)
    ensures |r| <= |ds|
    ensures forall d :: d in r ==> d in ds && AliveAt(d.mya, q)
    ensures forall d :: d in ds && AliveAt(d.mya, q) ==> d in r
  {
    if ds == [] then []
    else if AliveAt(ds[0].mya, q) then [ds[0]] + FilterAlive(ds[1..], q)
    else FilterAlive(ds[1..], q)
  }

  /** `if (key)`: an omitted key and the empty string are both falsy. */
  predicate KeyGiven(key: Option<string>)
    ensures KeyGiven(key) <==> key.Some? && Truthy(Str(key.value))
  {
    key.Some? && key.value != ""
  }

  /** `dinosaur[key] || dinosaur.id`. */
  function KeyOrId(d: Dinosaur, key: string): (v: Value)
    ensures Truthy(Get(d, key)) ==> v == Get(d, key)
    ensures !Truthy(Get(d, key)) ==> v == Str(d.id)
    ensures !HasProperty(d, key) ==> v == Str(d.id)
  {
    if Truthy(Get(d, key)) then Get(d, key) else Str(d.id)
  }

  function Project(fs: seq<Dinosaur>, key: Option<string>): (r: seq<Value>)
    ensures |r| == |fs|
    ensures forall i :: 0 <= i < |fs| && KeyGiven(key) && Truthy(Get(fs[i], key.value)) ==>
      r[i] == Get(fs[i], key.value)
    ensures forall i :: 0 <= i < |fs| && !(KeyGiven(key) && Truthy(Get(fs[i], key.value))) ==>
      r[i] == Str(fs[i].id)
  {
    if KeyGiven(key) then seq(|fs|, i requires 0 <= i < |fs| => KeyOrId(fs[i], key.value))
    else seq(|fs|, i requires 0 <= i < |fs| => Str(fs[i].id))
  }

  function GetDinosaursAliveMya(ds: seq<Dinosaur>, q: real, key: Option<string>): (r: seq<Value>)
    ensures |r| <= |ds|
    ensures |r| == |FilterAlive(ds, q)|
    ensures forall i :: 0 <= i < |r| ==>
      var d := FilterAlive(ds, q)[i];
      r[i] == if KeyGiven(key) && Truthy(Get(d, key.value)) then Get(d, key.value) else Str(d.id)
    ensures forall i :: 0 <= i < |r| ==>
      exists d :: && d in ds && AliveAt(d.mya, q)
                  && (r[i] == Str(d.id) || (KeyGiven(key) && Truthy(r[i]) && r[i] == Get(d, key.value)))
  {
    var fs := FilterAlive(ds, q);
    assert forall i :: 0 <= i < |fs| ==> fs[i] in fs;
    Project(fs, key)
  }

  /** A single estimate `[v]` matches query `q` exactly when `q` is `v` or
      `v + 1`. */
  lemma SingleEstimateWindow(v: real, q: real)
    ensures AliveAt([v], q) <==> q == v || q == v + 1.0
  {
  }

  /** The window runs upwards from the estimate: `[29]` matches 29 and 30
      but not 28. */
  lemma SingleEstimateExample()
    ensures AliveAt([29.0], 29.0) && AliveAt([29.0], 30.0) && !AliveAt([29.0], 28.0)
  {
  }

  /** A two-value `mya` is tested by membership, not as a numeric range;
      an empty one matches nothing. */
  lemma MembershipNotRange()
    ensures !AliveAt([70.0, 66.0], 68.0)
    ensures AliveAt([70.0, 66.0], 66.0)
    ensures forall q :: !AliveAt([], q)
  {
  }

  /** Filtering keeps input order: it distributes over concatenation. */
  lemma {:induction false} FilterAliveAppend(a: seq<Dinosaur>, b: seq<Dinosaur>, q: real)
    ensures FilterAlive(a + b, q) == FilterAlive(a, q) + FilterAlive(b, q)
  {
    if a == [] {
      assert a + b == b;
    } else {
      assert (a + b)[1..] == a[1..] + b;
      FilterAliveAppend(a[1..], b, q);
    }
  }

  /** One output per surviving record, in input order. */
  lemma {:induction false} AliveMyaAppend(a: seq<Dinosaur>, b: seq<Dinosaur>, q: real, key: Option<string>)
    ensures GetDinosaursAliveMya(a + b, q, key) == GetDinosaursAliveMya(a, q, key) + GetDinosaursAliveMya(b, q, key)
  {
    FilterAliveAppend(a, b, q);
    ProjectAppend(FilterAlive(a, q), FilterAlive(b, q), key);
  }

  lemma ProjectAppend(x: seq<Dinosaur>, y: seq<Dinosaur>, key: Option<string>)
    ensures Project(x + y, key) == Project(x, key) + Project(y, key)
  {
    var l, r := Project(x + y, key), Project(x, key) + Project(y, key);
    assert |l| == |r|;
    forall i | 0 <= i < |l| ensures l[i] == r[i] {
      if i < |x| {
        assert (x + y)[i] == x[i];
      } else {
        assert (x + y)[i] == y[i - |x|];
      }
    }
  }

  lemma AliveMyaSingle(d: Dinosaur, q: real, key: Option<string>)
    ensures GetDinosaursAliveMya([d], q, key) ==
      if !AliveAt(d.mya, q) then []
      else if KeyGiven(key) && Truthy(Get(d, key.value)) then [Get(d, key.value)]
      else [Str(d.id)]
  {
    assert [d][1..] == [];
  }

  /** Without a key (or with a falsy one) the result lists the ids. */
  lemma AliveMyaIds(ds: seq<Dinosaur>, q: real, key: Option<string>)
    requires !KeyGiven(key)
    ensures var fs := FilterAlive(ds, q);
      GetDinosaursAliveMya(ds, q, key) == seq(|fs|, i requires 0 <= i < |fs| => Str(fs[i].id))
  {
  }

  /** A key that no record has behaves like no key at all. */
  lemma UnknownKeyFallsBackToId(ds: seq<Dinosaur>, q: real, key: string)
    requires forall j :: 0 <= j < |ds| ==> !HasProperty(ds[j], key)
    ensures GetDinosaursAliveMya(ds, q, Some(key)) == GetDinosaursAliveMya(ds, q, None)
  {
    var fs := FilterAlive(ds, q);
    forall i | 0 <= i < |fs| ensures !HasProperty(fs[i], key) {
      assert fs[i] in ds;
    }
  }

  // ---------------------------------------------------------------------
  // A two-record example
  // ---------------------------------------------------------------------

  function Rex(): Dinosaur
  {
    Dinosaur("A", "A", "Rex", "", "", "", 10.0, [66.0], map[])
  }

  function Bronto(): Dinosaur
  {
    Dinosaur("B", "B", "Bronto", "", "", "", 20.0, [150.0], map[])
  }

  /** The longer record wins, at 20 * 3.281 = 65.62 feet before rounding. */
  lemma TwoRecordLongest(round2: real -> real)
    ensures Longest([Rex(), Bronto()], round2) == map["Bronto" := round2(65.62)]
  {
    LongestNamesFirstLongest([Rex(), Bronto()], round2, 1);
  }

  /** A query of 66 or 67 keeps only the record with `mya == [66]`; an
      unknown key gives its id, the key "name" its name. */
  lemma TwoRecordAlive(q: real, key: Option<string>)
    requires q == 66.0 || q == 67.0
    requires key == None || key == Some("name") || key == Some("unknown-key")
    ensures GetDinosaursAliveMya([Rex(), Bronto()], q, key) ==
      if key == Some("name") then [Str("Rex")] else [Str("A")]
  {
    assert [Rex(), Bronto()] == [Rex()] + [Bronto()];
    AliveMyaAppend([Rex()], [Bronto()], q, key);
    AliveMyaSingle(Rex(), q, key);
    AliveMyaSingle(Bronto(), q, key);
  }

  lemma TwoRecordNotFound(show: real -> string)
    ensures GetDinosaurDescription([Rex(), Bronto()], "Z", show) == NotFoundMessage("Z")
  {
  }
}
