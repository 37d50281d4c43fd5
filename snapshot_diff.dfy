/**
 * The snapshot diff (`keyBy` and `computeDiff`, sync-laws.mjs:147-161): both
 * snapshots are keyed by id, ids only in the current one are added, ids only
 * in the previous one are removed, and ids in both are compared over five
 * tracked fields after `|| null` normalisation.
 */
module SnapshotDiff {
  import opened Wrappers
  import opened Instruments

  /** The tracked fields, in the order the comparison visits them. */
  datatype Field = Title | Status | EffectiveFrom | EffectiveTo | RepealedBy

  const TrackedFields: seq<Field> := [Title, Status, EffectiveFrom, EffectiveTo, RepealedBy]

  function FieldValue(x: Instrument, f: Field): Option<string> {
    match f
    case Title => x.title
    case Status => x.status
    case EffectiveFrom => x.effectiveFrom
    case EffectiveTo => x.effectiveTo
    case RepealedBy => x.repealedBy
  }

  /** One entry of `delta`: `{ from, to }` under the field's name. */
  datatype FieldChange = FieldChange(field: Field, from: Option<string>, to: Option<string>)

  datatype Change = Change(id: string, changes: seq<FieldChange>)

  datatype Diff = Diff(generatedAt: string, added: seq<Instrument>, removed: seq<Instrument>,
                       changed: seq<Change>)

  /** The normalised values of `f` differ between `p` and `c`. */
  predicate Differs(p: Instrument, c: Instrument, f: Field) {
    OrNull(FieldValue(p, f)) != OrNull(FieldValue(c, f))
  }

  function ChangeOf(p: Instrument, c: Instrument, f: Field): FieldChange {
    FieldChange(f, OrNull(FieldValue(p, f)), OrNull(FieldValue(c, f)))
  }

  /** `delta` after visiting the fields `fs`. */
  function ChangesOver(p: Instrument, c: Instrument, fs: seq<Field>): seq<FieldChange>
    decreases |fs|
  {
    if |fs| == 0 then []
    else
      var rest := ChangesOver(p, c, fs[..|fs| - 1]);
      var f := fs[|fs| - 1];
      if Differs(p, c, f) then rest + [ChangeOf(p, c, f)] else rest
  }

  /** `delta` for a previous record `p` and a current record `c`. */
  function FieldChanges(p: Instrument, c: Instrument): seq<FieldChange> {
    ChangesOver(p, c, TrackedFields)
  }

  lemma {:induction false} ChangesOverFacts(p: Instrument, c: Instrument, fs: seq<Field>)
    ensures forall fc :: fc in ChangesOver(p, c, fs) ==> fc.field in fs && fc == ChangeOf(p, c, fc.field)
    ensures forall f :: f in fs && Differs(p, c, f) ==> ChangeOf(p, c, f) in ChangesOver(p, c, fs)
    ensures forall fc :: fc in ChangesOver(p, c, fs) ==> Differs(p, c, fc.field)
    ensures (forall i, j :: 0 <= i < j < |fs| ==> fs[i] != fs[j]) ==>
      forall i, j :: 0 <= i < j < |ChangesOver(p, c, fs)| ==>
        ChangesOver(p, c, fs)[i].field != ChangesOver(p, c, fs)[j].field
    decreases |fs|
  {
    if |fs| > 0 {
      var init := fs[..|fs| - 1];
      ChangesOverFacts(p, c, init);
      assert fs == init + [fs[|fs| - 1]];
    }
  }

  /** The comparison is exact: it lists each tracked field once, precisely when the
      normalised values differ, from the previous value to the current one; values that
      are missing, null or empty on both sides are never a change. */
  lemma FieldChangesExact(p: Instrument, c: Instrument)
    ensures forall fc :: fc in FieldChanges(p, c) ==>
      fc.from == OrNull(FieldValue(p, fc.field)) && fc.to == OrNull(FieldValue(c, fc.field)) && fc.from != fc.to
    ensures forall f :: ChangeOf(p, c, f) in FieldChanges(p, c) <==> Differs(p, c, f)
    ensures forall i, j :: 0 <= i < j < |FieldChanges(p, c)| ==>
      FieldChanges(p, c)[i].field != FieldChanges(p, c)[j].field
    ensures FieldChanges(p, c) == [] <==> forall f :: !Differs(p, c, f)
    ensures forall f :: !Truthy(FieldValue(p, f)) && !Truthy(FieldValue(c, f)) ==> !Differs(p, c, f)
  {
    ChangesOverFacts(p, c, TrackedFields);
    forall f ensures f in TrackedFields {
      match f
      case Title => assert TrackedFields[0] == f;
      case Status => assert TrackedFields[1] == f;
      case EffectiveFrom => assert TrackedFields[2] == f;
      case EffectiveTo => assert TrackedFields[3] == f;
      case RepealedBy => assert TrackedFields[4] == f;
    }
    if FieldChanges(p, c) != [] {
      assert FieldChanges(p, c)[0] in FieldChanges(p, c);
    }
  }

  /** The inner loop of `computeDiff` (sync-laws.mjs:155-156) that fills `delta`. */
  method CompareFields(p: Instrument, c: Instrument) returns (delta: seq<FieldChange>)
    ensures delta == FieldChanges(p, c)
  {
    delta := [];
    for i := 0 to |TrackedFields|
      invariant delta == ChangesOver(p, c, TrackedFields[..i])
    {
      var f := TrackedFields[i];
      assert TrackedFields[..i + 1][..i] == TrackedFields[..i];
      if OrNull(FieldValue(p, f)) != OrNull(FieldValue(c, f)) {
        delta := delta + [FieldChange(f, OrNull(FieldValue(p, f)), OrNull(FieldValue(c, f)))];
      }
    }
    assert TrackedFields[..|TrackedFields|] == TrackedFields;
  }

  /** The entries of map `m`, in order, whose key the map `other` lacks. */
  function Missing(m: seq<Instrument>, other: seq<Instrument>): seq<Instrument>
    decreases |m|
  {
    if |m| == 0 then []
    else
      var rest := Missing(m[..|m| - 1], other);
      var x := m[|m| - 1];
      if x.id in IdSet(other) then rest else rest + [x]
  }

  /** The `changed` list for the current-map entries `cs` against the previous map `a`. */
  function ChangedIn(cs: seq<Instrument>, a: seq<Instrument>): seq<Change>
    decreases |cs|
  {
    if |cs| == 0 then []
    else
      var rest := ChangedIn(cs[..|cs| - 1], a);
      var c := cs[|cs| - 1];
      match Lookup(a, c.id)
      case None => rest
      case Some(p) => if FieldChanges(p, c) == [] then rest else rest + [Change(c.id, FieldChanges(p, c))]
  }

  /** `computeDiff(prev, curr)`, with the clock reading `generatedAt` passed in. */
  function DiffOf(prev: seq<Instrument>, curr: seq<Instrument>, generatedAt: string): Diff {
    var a := KeyedBy(prev);
    var b := KeyedBy(curr);
    Diff(generatedAt, Missing(b, a), Missing(a, b), ChangedIn(b, a))
  }

  /** `computeDiff` (sync-laws.mjs:148-161): key both snapshots, then two loops. */
  method ComputeDiff(prev: seq<Instrument>, curr: seq<Instrument>, generatedAt: string) returns (d: Diff)
    ensures d == DiffOf(prev, curr, generatedAt)
  {
    var a := KeyBy(prev);
    var b := KeyBy(curr);
    var added, changed := AddedAndChanged(a, b);
    var removed := Removed(a, b);
    d := Diff(generatedAt, added, removed, changed);
  }

  /** The first loop of `computeDiff` (sync-laws.mjs:151-158), over the current map's keys. */
  method AddedAndChanged(a: seq<Instrument>, b: seq<Instrument>)
    returns (added: seq<Instrument>, changed: seq<Change>)
    ensures added == Missing(b, a) && changed == ChangedIn(b, a)
  {
    added, changed := [], [];
    for i := 0 to |b|
      invariant added == Missing(b[..i], a)
      invariant changed == ChangedIn(b[..i], a)
    {
      assert b[..i + 1][..i] == b[..i];
      var c := b[i];
      var found := Lookup(a, c.id);
      if found.None? {
        added := added + [c];
      } else {
        var delta := CompareFields(found.value, c);
        if |delta| > 0 {
          changed := changed + [Change(c.id, delta)];
        }
      }
    }
    assert b[..|b|] == b;
  }

  /** The second loop of `computeDiff` (sync-laws.mjs:159), over the previous map's keys. */
  method Removed(a: seq<Instrument>, b: seq<Instrument>) returns (removed: seq<Instrument>)
    ensures removed == Missing(a, b)
  {
    removed := [];
    for i := 0 to |a|
      invariant removed == Missing(a[..i], b)
    {
      assert a[..i + 1][..i] == a[..i];
      if Lookup(b, a[i].id).None? {
        removed := removed + [a[i]];
      }
    }
    assert a[..|a|] == a;
  }

  lemma {:induction false} MissingMembers(m: seq<Instrument>, other: seq<Instrument>)
    ensures forall x :: x in Missing(m, other) <==> x in m && x.id !in IdSet(other)
    decreases |m|
  {
    if |m| > 0 {
      MissingMembers(m[..|m| - 1], other);
      assert m == m[..|m| - 1] + [m[|m| - 1]];
    }
  }

  lemma {:induction false} MissingDistinct(m: seq<Instrument>, other: seq<Instrument>)
    requires DistinctIds(m)
    ensures DistinctIds(Missing(m, other))
    decreases |m|
  {
    if |m| > 0 {
      var init := m[..|m| - 1];
      var x := m[|m| - 1];
      MissingDistinct(init, other);
      MissingMembers(init, other);
      assert forall j :: 0 <= j < |init| ==> init[j].id != x.id;
    }
  }

  /** No entry of `m` is missing from `other`, so nothing is reported. */
  lemma {:induction false} MissingNone(m: seq<Instrument>, other: seq<Instrument>)
    requires forall x :: x in m ==> x.id in IdSet(other)
    ensures Missing(m, other) == []
    decreases |m|
  {
    if |m| > 0 {
      MissingNone(m[..|m| - 1], other);
    }
  }

  lemma {:induction false} ChangedInFacts(cs: seq<Instrument>, a: seq<Instrument>)
    ensures forall ch :: ch in ChangedIn(cs, a) ==>
      (ch.id in IdSet(a) && ch.id in IdSet(cs) && ch.changes != [] &&
       exists c :: c in cs && c.id == ch.id && ch.changes == FieldChanges(Lookup(a, ch.id).value, c))
    ensures forall c :: c in cs && c.id in IdSet(a) && FieldChanges(Lookup(a, c.id).value, c) != [] ==>
      Change(c.id, FieldChanges(Lookup(a, c.id).value, c)) in ChangedIn(cs, a)
    decreases |cs|
  {
    if |cs| > 0 {
      ChangedInFacts(cs[..|cs| - 1], a);
      assert cs == cs[..|cs| - 1] + [cs[|cs| - 1]];
    }
  }

  lemma {:induction false} ChangedInDistinct(cs: seq<Instrument>, a: seq<Instrument>)
    requires DistinctIds(cs)
    ensures forall i, j :: 0 <= i < j < |ChangedIn(cs, a)| ==> ChangedIn(cs, a)[i].id != ChangedIn(cs, a)[j].id
    decreases |cs|
  {
    if |cs| > 0 {
      var init := cs[..|cs| - 1];
      var x := cs[|cs| - 1];
      ChangedInDistinct(init, a);
      ChangedInFacts(init, a);
      assert forall j :: 0 <= j < |init| ==> init[j].id != x.id;
    }
  }

  /** Every entry of `cs` equals the previous record under its id, so nothing is reported. */
  lemma {:induction false} ChangedInNone(cs: seq<Instrument>, a: seq<Instrument>)
    requires forall c :: c in cs ==> Lookup(a, c.id) == Some(c)
    ensures ChangedIn(cs, a) == []
    decreases |cs|
  {
    if |cs| > 0 {
      ChangedInNone(cs[..|cs| - 1], a);
      FieldChangesExact(cs[|cs| - 1], cs[|cs| - 1]);
    }
  }

  /** `added` holds every id of `curr` that `prev` lacks, once each, with the record the
      current map holds for it (the last one of `curr` with that id). */
  lemma DiffAdded(prev: seq<Instrument>, curr: seq<Instrument>, generatedAt: string)
    ensures DistinctIds(DiffOf(prev, curr, generatedAt).added)
    ensures IdSet(DiffOf(prev, curr, generatedAt).added) == IdSet(curr) - IdSet(prev)
    ensures forall x :: x in DiffOf(prev, curr, generatedAt).added ==>
      x.id in IdSet(curr) && x == LastWith(curr, x.id)
  {
    var a := KeyedBy(prev);
    var b := KeyedBy(curr);
    KeyedByContents(prev);
    KeyedByContents(curr);
    MissingMembers(b, a);
    MissingDistinct(b, a);
    forall x | x in Missing(b, a) ensures x == LastWith(curr, x.id) {
      LookupMember(b, x);
    }
  }

  /** `removed` holds every id of `prev` that `curr` lacks, once each, with its previous record. */
  lemma DiffRemoved(prev: seq<Instrument>, curr: seq<Instrument>, generatedAt: string)
    ensures DistinctIds(DiffOf(prev, curr, generatedAt).removed)
    ensures IdSet(DiffOf(prev, curr, generatedAt).removed) == IdSet(prev) - IdSet(curr)
    ensures forall x :: x in DiffOf(prev, curr, generatedAt).removed ==>
      x.id in IdSet(prev) && x == LastWith(prev, x.id)
  {
    var a := KeyedBy(prev);
    var b := KeyedBy(curr);
    KeyedByContents(prev);
    KeyedByContents(curr);
    MissingMembers(a, b);
    MissingDistinct(a, b);
    forall x | x in Missing(a, b) ensures x == LastWith(prev, x.id) {
      LookupMember(a, x);
    }
  }

  /** `changed` lists, once each, exactly the ids present in both snapshots whose tracked
      fields differ, with the field changes from the previous record to the current one. */
  lemma DiffChanged(prev: seq<Instrument>, curr: seq<Instrument>, generatedAt: string)
    ensures forall i, j :: 0 <= i < j < |DiffOf(prev, curr, generatedAt).changed| ==>
      DiffOf(prev, curr, generatedAt).changed[i].id != DiffOf(prev, curr, generatedAt).changed[j].id
    ensures forall ch :: ch in DiffOf(prev, curr, generatedAt).changed ==>
      ch.id in IdSet(prev) && ch.id in IdSet(curr) && ch.changes != [] &&
      ch.changes == FieldChanges(LastWith(prev, ch.id), LastWith(curr, ch.id))
    ensures forall id :: (id in IdSet(prev) && id in IdSet(curr) &&
                          FieldChanges(LastWith(prev, id), LastWith(curr, id)) != []) ==>
      Change(id, FieldChanges(LastWith(prev, id), LastWith(curr, id))) in DiffOf(prev, curr, generatedAt).changed
  {
    var a := KeyedBy(prev);
    var b := KeyedBy(curr);
    KeyedByContents(prev);
    KeyedByContents(curr);
    ChangedInFacts(b, a);
    ChangedInDistinct(b, a);
    forall ch | ch in ChangedIn(b, a)
      ensures ch.changes == FieldChanges(LastWith(prev, ch.id), LastWith(curr, ch.id))
    {
      var c :| c in b && c.id == ch.id && ch.changes == FieldChanges(Lookup(a, ch.id).value, c);
      LookupMember(b, c);
    }
    forall id | id in IdSet(prev) && id in IdSet(curr) && FieldChanges(LastWith(prev, id), LastWith(curr, id)) != []
      ensures Change(id, FieldChanges(LastWith(prev, id), LastWith(curr, id))) in ChangedIn(b, a)
    {
      var c := Lookup(b, id).value;
      assert c in b && c.id == id;
    }
  }

  /** `computeDiff(S, S)` reports nothing. */
  lemma DiffOfSelfIsEmpty(s: seq<Instrument>, generatedAt: string)
    ensures DiffOf(s, s, generatedAt) == Diff(generatedAt, [], [], [])
  {
    var b := KeyedBy(s);
    KeyedByContents(s);
    MissingNone(b, b);
    forall c | c in b ensures Lookup(b, c.id) == Some(c) {
      LookupMember(b, c);
    }
    ChangedInNone(b, b);
  }

  /** Records of the repeal scenario: `a` in force, then repealed by a new `b` on 2024-01-01. */
  function ScenarioBefore(): Instrument {
    NewInstrument("a", None, None).(status := Some(InForce))
  }

  function ScenarioAfter(): Instrument {
    NewInstrument("a", None, None).(status := Some(Repealed), repealedBy := Some("b"), effectiveTo := Some("2024-01-01"))
  }

  function ScenarioRepealer(): Instrument {
    NewInstrument("b", None, None).(status := Some(InForce))
  }

  /** The repealed record changes in status, end date and repealer, in that order. */
  lemma ScenarioFieldChanges()
    ensures FieldChanges(ScenarioBefore(), ScenarioAfter()) == [
      FieldChange(Status, Some("in_force"), Some("repealed")),
      FieldChange(EffectiveTo, None, Some("2024-01-01")),
      FieldChange(RepealedBy, None, Some("b"))]
  {
    var p, c := ScenarioBefore(), ScenarioAfter();
    assert InForce != Repealed by { assert InForce[0] != Repealed[0]; }
    var f1, f2, f3, f4 := [Title], [Title, Status], [Title, Status, EffectiveFrom], [Title, Status, EffectiveFrom, EffectiveTo];
    assert f1[..0] == [] && f2[..1] == f1 && f3[..2] == f2 && f4[..3] == f3 && TrackedFields[..4] == f4;
    assert ChangesOver(p, c, f1) == [];
    assert ChangesOver(p, c, f2) == [ChangeOf(p, c, Status)];
    assert !Differs(p, c, EffectiveFrom);
    assert ChangesOver(p, c, f3) == [ChangeOf(p, c, Status)];
    assert ChangesOver(p, c, f4) == [ChangeOf(p, c, Status), ChangeOf(p, c, EffectiveTo)];
  }

  lemma ScenarioKeyed()
    ensures KeyedBy([ScenarioBefore()]) == [ScenarioBefore()]
    ensures KeyedBy([ScenarioAfter(), ScenarioRepealer()]) == [ScenarioAfter(), ScenarioRepealer()]
  {
    assert "a" != "b" by { assert "a"[0] != "b"[0]; }
    KeyedByDistinct([ScenarioBefore()]);
    KeyedByDistinct([ScenarioAfter(), ScenarioRepealer()]);
  }

  lemma ScenarioMissing()
    ensures Missing([ScenarioAfter(), ScenarioRepealer()], [ScenarioBefore()]) == [ScenarioRepealer()]
    ensures Missing([ScenarioBefore()], [ScenarioAfter(), ScenarioRepealer()]) == []
  {
    var a0, a1, b := ScenarioBefore(), ScenarioAfter(), ScenarioRepealer();
    assert "a" != "b" by { assert "a"[0] != "b"[0]; }
    assert IdSet([a0]) == {"a"};
    assert [a1, b][..1] == [a1] && [a1][..0] == [] && [a0][..0] == [];
    assert a1.id in IdSet([a0]) by { assert a0 in [a0]; }
    assert Missing([a1], [a0]) == [];
    assert a0.id in IdSet([a1, b]) by { assert a1 in [a1, b]; }
  }

  lemma ScenarioChanged()
    ensures ChangedIn([ScenarioAfter(), ScenarioRepealer()], [ScenarioBefore()]) ==
      [Change("a", FieldChanges(ScenarioBefore(), ScenarioAfter()))]
  {
    var a0, a1, b := ScenarioBefore(), ScenarioAfter(), ScenarioRepealer();
    assert "a" != "b" by { assert "a"[0] != "b"[0]; }
    ScenarioFieldChanges();
    assert [a1, b][..1] == [a1] && [a1][..0] == [];
    assert Lookup([a0], a1.id) == Some(a0);
    assert ChangedIn([a1], [a0]) == [Change("a", FieldChanges(a0, a1))];
    assert Lookup([a0], b.id) == None;
  }

  /** The repeal scenario: `b` is added, nothing is removed, `a` has three field changes. */
  lemma ScenarioDiff(generatedAt: string)
    ensures DiffOf([ScenarioBefore()], [ScenarioAfter(), ScenarioRepealer()], generatedAt) ==
      Diff(generatedAt, [ScenarioRepealer()], [], [Change("a", [
        FieldChange(Status, Some("in_force"), Some("repealed")),
        FieldChange(EffectiveTo, None, Some("2024-01-01")),
        FieldChange(RepealedBy, None, Some("b"))])])
  {
    ScenarioKeyed();
    ScenarioMissing();
    ScenarioChanged();
    ScenarioFieldChanges();
  }
}
