/**
 * The instrument record and the insertion-ordered map keyed by `id` that the
 * pipeline keeps instruments in (a JavaScript `Map`, or a plain object whose
 * keys are slugs). A map is its list of entries in insertion order; setting a
 * key that is present replaces its value where it stands, a new key goes last.
 */
module Instruments {
  import opened Wrappers

  /** One legal instrument. A JavaScript field that is `undefined` or `null` is None. */
  datatype Instrument = Instrument(
    id: string,
    title: Option<string>,
    sourceUrl: Option<string>,
    topic: Option<string>,
    uaePortal: Option<string>,
    status: Option<string>,
    effectiveFrom: Option<string>,
    effectiveTo: Option<string>,
    metaHash: Option<string>,
    asAmendedBy: seq<string>,
    repealedBy: Option<string>)

  const InForce := "in_force"
  const Amended := "amended"
  const Repealed := "repealed"
  const Unknown := "unknown"

  predicate IsStatus(s: string) {
    s == InForce || s == Amended || s == Repealed || s == Unknown
  }

  /** JavaScript truthiness of a string field: present and not empty. */
  predicate Truthy(v: Option<string>) {
    v.Some? && v.value != ""
  }

  /** `v || null`: a missing, null or empty value becomes null. */
  function OrNull(v: Option<string>): (r: Option<string>)
    ensures r.None? <==> !Truthy(v)
    ensures r.Some? ==> r == v
  {
    if Truthy(v) then v else None
  }

  /** A record as discovery and the seed fallback create it: only id, title and source URL. */
  function NewInstrument(id: string, title: Option<string>, sourceUrl: Option<string>): (r: Instrument)
    ensures r.id == id && r.title == title && r.sourceUrl == sourceUrl
    ensures r.topic.None? && r.status.None? && r.effectiveFrom.None? && r.effectiveTo.None?
    ensures r.asAmendedBy == [] && r.repealedBy.None?
  {
    Instrument(id, title, sourceUrl, None, None, None, None, None, None, [], None)
  }

  function IdSet(s: seq<Instrument>): set<string> {
    set x | x in s :: x.id
  }

  predicate DistinctIds(s: seq<Instrument>) {
    forall i, j :: 0 <= i < j < |s| ==> s[i].id != s[j].id
  }

  /** The position of the first entry keyed `id`. */
  function FindId(m: seq<Instrument>, id: string): (r: Option<nat>)
    ensures r.Some? ==> r.value < |m| && m[r.value].id == id
    ensures r.Some? ==> forall k :: 0 <= k < r.value ==> m[k].id != id
    ensures r.None? <==> id !in IdSet(m)
  {
    if |m| == 0 then None
    else if m[0].id == id then Some(0)
    else match FindId(m[1..], id)
         case None => None
         case Some(k) => Some(k + 1)
  }

  /** `map.get(id)`. */
  function Lookup(m: seq<Instrument>, id: string): (r: Option<Instrument>)
    ensures r.Some? <==> id in IdSet(m)
    ensures r.Some? ==> r.value in m && r.value.id == id
  {
    match FindId(m, id)
    case None => None
    case Some(k) => Some(m[k])
  }

  /** `map.set(x.id, x)`: the key is added if new, its entry replaced in place otherwise. */
  function Put(m: seq<Instrument>, x: Instrument): (r: seq<Instrument>)
    ensures IdSet(r) == IdSet(m) + {x.id}
    ensures DistinctIds(m) ==> DistinctIds(r)
    ensures DistinctIds(m) ==> Lookup(r, x.id) == Some(x)
    ensures forall id :: id != x.id ==> Lookup(r, id) == Lookup(m, id)
  {
    match FindId(m, x.id)
    case None =>
      AppendFacts(m, x);
      m + [x]
    case Some(k) =>
      ReplaceFacts(m, k, x);
      m[k := x]
  }

  lemma AppendFacts(m: seq<Instrument>, x: Instrument)
    requires x.id !in IdSet(m)
    ensures IdSet(m + [x]) == IdSet(m) + {x.id}
    ensures DistinctIds(m) ==> DistinctIds(m + [x])
    ensures Lookup(m + [x], x.id) == Some(x)
    ensures forall id :: id != x.id ==> Lookup(m + [x], id) == Lookup(m, id)
  {
    FindIdAppend(m, x, x.id);
    forall id | id != x.id ensures Lookup(m + [x], id) == Lookup(m, id) {
      FindIdAppend(m, x, id);
    }
  }

  lemma {:induction false} FindIdAppend(m: seq<Instrument>, x: Instrument, id: string)
    ensures FindId(m + [x], id) ==
      if id in IdSet(m) then FindId(m, id) else if x.id == id then Some(|m|) else None
    decreases |m|
  {
    if |m| > 0 {
      assert (m + [x])[0] == m[0] && (m + [x])[1..] == m[1..] + [x];
      FindIdAppend(m[1..], x, id);
      assert id in IdSet(m) <==> m[0].id == id || id in IdSet(m[1..]) by {
        assert m == [m[0]] + m[1..];
      }
    }
  }

  lemma {:induction false} FindIdReplace(m: seq<Instrument>, k: nat, x: Instrument, id: string)
    requires k < |m| && m[k].id == x.id
    ensures FindId(m[k := x], id) == FindId(m, id)
    decreases |m|
  {
    if k > 0 {
      assert m[k := x][0] == m[0] && m[k := x][1..] == m[1..][k - 1 := x];
      FindIdReplace(m[1..], k - 1, x, id);
    }
  }

  lemma ReplaceFacts(m: seq<Instrument>, k: nat, x: Instrument)
    requires k < |m| && m[k].id == x.id
    ensures IdSet(m[k := x]) == IdSet(m)
    ensures DistinctIds(m) ==> DistinctIds(m[k := x]) && Lookup(m[k := x], x.id) == Some(x)
    ensures forall id :: id != x.id ==> Lookup(m[k := x], id) == Lookup(m, id)
  {
    var r := m[k := x];
    forall y | y in IdSet(m) ensures y in IdSet(r) {
      var j :| 0 <= j < |m| && m[j].id == y;
      assert r[j].id == y;
    }
    forall id | id != x.id ensures Lookup(r, id) == Lookup(m, id) {
      FindIdReplace(m, k, x, id);
      var f := FindId(m, id);
      assert f.Some? ==> f.value != k;
    }
    FindIdReplace(m, k, x, x.id);
    if DistinctIds(m) {
      assert FindId(m, x.id) == Some(k);
    }
  }

  /** Setting every record of `xs` into `m`, in order. */
  function PutAll(m: seq<Instrument>, xs: seq<Instrument>): seq<Instrument>
    decreases |xs|
  {
    if |xs| == 0 then m else Put(PutAll(m, xs[..|xs| - 1]), xs[|xs| - 1])
  }

  /** `keyBy`: a fresh map holding every record of `xs` under its id. */
  function KeyedBy(xs: seq<Instrument>): seq<Instrument> {
    PutAll([], xs)
  }

  /** The last record of `xs` keyed `id`: the one a sequence of sets leaves in the map. */
  function LastWith(xs: seq<Instrument>, id: string): (r: Instrument)
    requires id in IdSet(xs)
    ensures r in xs && r.id == id
    decreases |xs|
  {
    var last := xs[|xs| - 1];
    if last.id == id then last
    else
      assert id in IdSet(xs[..|xs| - 1]) by {
        var y :| y in xs && y.id == id;
        var j :| 0 <= j < |xs| && xs[j] == y;
        assert xs[..|xs| - 1][j] == y;
      }
      LastWith(xs[..|xs| - 1], id)
  }

  lemma IdSetSnoc(xs: seq<Instrument>)
    requires |xs| > 0
    ensures IdSet(xs) == IdSet(xs[..|xs| - 1]) + {xs[|xs| - 1].id}
  {
    assert xs == xs[..|xs| - 1] + [xs[|xs| - 1]];
  }

  /** After setting every record of `xs`, the map holds the union of the keys, none twice. */
  lemma {:induction false} PutAllKeys(m: seq<Instrument>, xs: seq<Instrument>)
    requires DistinctIds(m)
    ensures DistinctIds(PutAll(m, xs))
    ensures IdSet(PutAll(m, xs)) == IdSet(m) + IdSet(xs)
    decreases |xs|
  {
    if |xs| > 0 {
      var init := xs[..|xs| - 1];
      PutAllKeys(m, init);
      IdSetSnoc(xs);
      assert PutAll(m, xs) == Put(PutAll(m, init), xs[|xs| - 1]);
    } else {
      assert PutAll(m, xs) == m;
      assert IdSet(xs) == {};
    }
  }

  /** After setting every record of `xs`, every key of `xs` holds the last record of `xs`
      with that key, and every other key holds what it held before. */
  lemma {:induction false} PutAllLookup(m: seq<Instrument>, xs: seq<Instrument>, id: string)
    requires DistinctIds(m)
    ensures Lookup(PutAll(m, xs), id) == if id in IdSet(xs) then Some(LastWith(xs, id)) else Lookup(m, id)
    decreases |xs|
  {
    if |xs| > 0 {
      var init := xs[..|xs| - 1];
      PutAllKeys(m, init);
      PutAllLookup(m, init, id);
      IdSetSnoc(xs);
      assert PutAll(m, xs) == Put(PutAll(m, init), xs[|xs| - 1]);
    } else {
      assert PutAll(m, xs) == m;
      assert IdSet(xs) == {};
    }
  }

  /** `keyBy`: what the map holds is exactly the ids of `xs`, each with its last record. */
  lemma KeyedByContents(xs: seq<Instrument>)
    ensures DistinctIds(KeyedBy(xs))
    ensures IdSet(KeyedBy(xs)) == IdSet(xs)
    ensures forall id :: id in IdSet(xs) ==> Lookup(KeyedBy(xs), id) == Some(LastWith(xs, id))
  {
    PutAllKeys([], xs);
    forall id | id in IdSet(xs) ensures Lookup(KeyedBy(xs), id) == Some(LastWith(xs, id)) {
      PutAllLookup([], xs, id);
    }
  }

  /** Setting a record whose key is new appends it. */
  lemma PutFresh(m: seq<Instrument>, x: Instrument)
    requires x.id !in IdSet(m)
    ensures Put(m, x) == m + [x]
  {
  }

  /** Setting a record whose key is present replaces that entry where it stands: the map keeps
      its size and order, and every other entry is untouched. */
  lemma PutInPlace(m: seq<Instrument>, x: Instrument)
    requires DistinctIds(m) && x.id in IdSet(m)
    ensures |Put(m, x)| == |m|
    ensures forall k :: 0 <= k < |m| ==> Put(m, x)[k] == (if m[k].id == x.id then x else m[k])
  {
    var f := FindId(m, x.id).value;
    assert Put(m, x) == m[f := x];
  }

  lemma DistinctIdsInit(xs: seq<Instrument>)
    requires |xs| > 0 && DistinctIds(xs)
    ensures DistinctIds(xs[..|xs| - 1])
    ensures xs[|xs| - 1].id !in IdSet(xs[..|xs| - 1])
  {
    var init := xs[..|xs| - 1];
    assert forall j :: 0 <= j < |init| ==> init[j] == xs[j] && init[j].id != xs[|xs| - 1].id;
  }

  lemma InitLast(m: seq<Instrument>, xs: seq<Instrument>)
    requires |xs| > 0
    ensures m + xs[..|xs| - 1] + [xs[|xs| - 1]] == m + xs
  {
    assert xs == xs[..|xs| - 1] + [xs[|xs| - 1]];
  }

  /** Setting records whose keys are all new, none twice, appends them in order. */
  lemma {:induction false} PutAllFresh(m: seq<Instrument>, xs: seq<Instrument>)
    requires DistinctIds(xs)
    requires forall j :: 0 <= j < |xs| ==> xs[j].id !in IdSet(m)
    ensures PutAll(m, xs) == m + xs
    decreases |xs|
  {
    if |xs| > 0 {
      var init := xs[..|xs| - 1];
      var x := xs[|xs| - 1];
      DistinctIdsInit(xs);
      assert forall j :: 0 <= j < |init| ==> init[j] == xs[j];
      PutAllFresh(m, init);
      assert PutAll(m, xs) == Put(m + init, x);
      IdSetAppend(m, init);
      PutFresh(m + init, x);
      InitLast(m, xs);
    } else {
      assert m + xs == m;
    }
  }

  /** `keyBy` over records with distinct ids holds them in the order given. */
  lemma KeyedByDistinct(xs: seq<Instrument>)
    requires DistinctIds(xs)
    ensures KeyedBy(xs) == xs
  {
    PutAllFresh([], xs);
    assert [] + xs == xs;
  }

  /** In a map every entry is what looking up its own key finds. */
  lemma LookupOwnKey(m: seq<Instrument>, k: nat)
    requires DistinctIds(m) && k < |m|
    ensures Lookup(m, m[k].id) == Some(m[k])
  {
    var f := FindId(m, m[k].id).value;
    assert f == k;
  }

  lemma IdSetAppend(a: seq<Instrument>, b: seq<Instrument>)
    ensures IdSet(a + b) == IdSet(a) + IdSet(b)
  {
    assert forall x :: x in a + b <==> x in a || x in b;
  }

  /** Every entry of a map is what looking up its key finds. */
  lemma LookupMember(m: seq<Instrument>, x: Instrument)
    requires DistinctIds(m) && x in m
    ensures Lookup(m, x.id) == Some(x)
  {
    var k :| 0 <= k < |m| && m[k] == x;
    LookupOwnKey(m, k);
  }

  /** Setting a record adds nothing but that record. */
  lemma PutMembers(m: seq<Instrument>, x: Instrument)
    ensures forall y :: y in Put(m, x) ==> y in m || y == x
  {
    match FindId(m, x.id)
    case None =>
    case Some(k) =>
      forall y | y in m[k := x] ensures y in m || y == x {
        var j :| 0 <= j < |m| && m[k := x][j] == y;
        if j != k {
          assert m[j] == y;
        }
      }
  }

  /** A keyed map holds only records of the list it was built from. */
  lemma KeyedByMembers(xs: seq<Instrument>)
    ensures forall x :: x in KeyedBy(xs) ==> x in xs
  {
    KeyedByContents(xs);
    forall x | x in KeyedBy(xs) ensures x in xs {
      LookupMember(KeyedBy(xs), x);
    }
  }

  /** `keyBy` (sync-laws.mjs:147): the loop that sets every record into a new map. */
  method KeyBy(xs: seq<Instrument>) returns (m: seq<Instrument>)
    ensures m == KeyedBy(xs)
    ensures DistinctIds(m) && IdSet(m) == IdSet(xs)
    ensures forall id :: id in IdSet(xs) ==> Lookup(m, id) == Some(LastWith(xs, id))
  {
    m := [];
    for i := 0 to |xs|
      invariant m == PutAll([], xs[..i])
    {
      assert xs[..i + 1][..i] == xs[..i];
      m := Put(m, xs[i]);
    }
    assert xs[..|xs|] == xs;
    KeyedByContents(xs);
  }
}
