/**
 * Relationship inference (sync-laws.mjs:109-121): one pass over the merged
 * instruments that links amending instruments to the Federal Decree-Law
 * No. 33 of 2021 record and repealing instruments to their predecessor.
 * The loop is a fold of per-item steps over the list; each step reads only
 * ids, titles, topics and effective dates, which no step changes, so the
 * whole pass equals two independent per-record computations (`LinkedAfter`).
 */
module Inference {
  import opened Wrappers
  import opened Text
  import opened Instruments

  /** The sixteen strings `/(33|9)\/?20(21|22|23|24)/` matches. */
  const LawReferences: seq<string> := [
    "33/2021", "33/2022", "33/2023", "33/2024", "332021", "332022", "332023", "332024",
    "9/2021", "9/2022", "9/2023", "9/2024", "92021", "92022", "92023", "92024"]

  /** The title matches `(33|9)\/?20(21|22|23|24)` (case-sensitive, digits only). */
  predicate HasLawReference(t: string) {
    exists k :: 0 <= k < |LawReferences| && Contains(t, LawReferences[k])
  }

  const LawNumbers: seq<string> := ["33", "9"]
  const LawYears: seq<string> := ["21", "22", "23", "24"]

  /** The sixteen literals are the pattern's alternatives: a law number, an optional slash,
      "20" and a year from 21 to 24. */
  lemma {:induction false} LawReferenceForms(t: string)
    ensures HasLawReference(t) <==>
      exists i, j :: 0 <= i < |LawNumbers| && 0 <= j < |LawYears| &&
        (Contains(t, LawNumbers[i] + "/20" + LawYears[j]) || Contains(t, LawNumbers[i] + "20" + LawYears[j]))
  {
    if HasLawReference(t) {
      var k :| 0 <= k < |LawReferences| && Contains(t, LawReferences[k]);
      var i, j := k / 8, k % 4;
      LawReferenceSpelled(i, j);
      if k % 8 < 4 {
        assert k == 8 * i + j;
      } else {
        assert k == 8 * i + 4 + j;
      }
    }
    forall i, j | 0 <= i < |LawNumbers| && 0 <= j < |LawYears| &&
        (Contains(t, LawNumbers[i] + "/20" + LawYears[j]) || Contains(t, LawNumbers[i] + "20" + LawYears[j]))
      ensures HasLawReference(t)
    {
      LawReferenceSpelled(i, j);
    }
  }

  lemma LawReferenceSpelled(i: nat, j: nat)
    requires i < |LawNumbers| && j < |LawYears|
    ensures LawNumbers[i] + "/20" + LawYears[j] == LawReferences[8 * i + j]
    ensures LawNumbers[i] + "20" + LawYears[j] == LawReferences[8 * i + 4 + j]
  {
  }

  /** The year must follow "33" or "9" at once, or after one slash: a title containing none
      of "/20", "3320" and "920", such as one that cites "No. 33 of 2021", has no reference. */
  lemma LawReferenceNeedsAdjacentYear(t: string)
    requires !Contains(t, "/20") && !Contains(t, "3320") && !Contains(t, "920")
    ensures !HasLawReference(t)
  {
    forall k | 0 <= k < |LawReferences| ensures !Contains(t, LawReferences[k]) {
      var r := LawReferences[k];
      if Contains(t, r) {
        if k < 4 {
          assert r == "33" + "/20" + r[5..];
          ContainsPart(t, "33", "/20", r[5..]);
        } else if k < 8 {
          assert r == "" + "3320" + r[4..];
          ContainsPart(t, "", "3320", r[4..]);
        } else if k < 12 {
          assert r == "9" + "/20" + r[4..];
          ContainsPart(t, "9", "/20", r[4..]);
        } else {
          assert r == "" + "920" + r[3..];
          ContainsPart(t, "", "920", r[3..]);
        }
      }
    }
  }

  /** An amending instrument: its title cites a law reference and mentions "amend". */
  predicate AmendTrigger(title: Option<string>) {
    title.Some? && HasLawReference(title.value) && ContainsIgnoringCase(title.value, "amend")
  }

  /** The amendment target pattern `/33\s*of\s*2021|33\/2021/i`. A missing title
      is tested as the text "undefined" and does not match. */
  predicate IsLaw33Title(title: Option<string>) {
    title.Some? &&
    (ContainsSpaced(Lower(title.value), ["33", "of", "2021"]) || ContainsIgnoringCase(title.value, "33/2021"))
  }

  /** A repealing instrument: `/repeal|replaced/i` on its title. */
  predicate RepealTrigger(title: Option<string>) {
    title.Some? && ContainsAnyIgnoringCase(title.value, ["repeal", "replaced"])
  }

  /** `all.find(...)` from position `from` on. */
  function FirstTargetFrom(s: seq<Instrument>, from: nat): (r: Option<nat>)
    requires from <= |s|
    ensures r.Some? ==> from <= r.value < |s| && IsLaw33Title(s[r.value].title)
    ensures r.Some? ==> forall k :: from <= k < r.value ==> !IsLaw33Title(s[k].title)
    ensures r.None? ==> forall k :: from <= k < |s| ==> !IsLaw33Title(s[k].title)
    decreases |s| - from
  {
    if from == |s| then None
    else if IsLaw33Title(s[from].title) then Some(from)
    else FirstTargetFrom(s, from + 1)
  }

  /** The amendment target: the first instrument whose title matches the target pattern. */
  function FirstTarget(s: seq<Instrument>): Option<nat> {
    FirstTargetFrom(s, 0)
  }

  /** `x` passes the repeal-candidate filter for repealer `it` (sync-laws.mjs:117):
      same topic (two missing topics are equal), both dates truthy, `x`'s strictly smaller. */
  predicate IsCandidate(x: Instrument, it: Instrument) {
    x.topic == it.topic && Truthy(x.effectiveFrom) && Truthy(it.effectiveFrom)
    && LexLess(x.effectiveFrom.value, it.effectiveFrom.value)
  }

  /** The candidate among `s[..n]` that the descending stable sort puts first: one with the
      greatest date, and the earliest of those. */
  function BestIn(s: seq<Instrument>, it: Instrument, n: nat): (r: Option<nat>)
    requires n <= |s|
    ensures r.Some? ==> r.value < n && IsCandidate(s[r.value], it)
    ensures r.Some? ==> forall j :: 0 <= j < n && IsCandidate(s[j], it) ==>
      !LexLess(s[r.value].effectiveFrom.value, s[j].effectiveFrom.value)
    ensures r.Some? ==> forall j :: 0 <= j < r.value && IsCandidate(s[j], it) ==>
      LexLess(s[j].effectiveFrom.value, s[r.value].effectiveFrom.value)
    ensures r.None? <==> forall j :: 0 <= j < n ==> !IsCandidate(s[j], it)
    ensures !Truthy(it.effectiveFrom) ==> r.None?
    decreases n
  {
    if n == 0 then None
    else
      var prev := BestIn(s, it, n - 1);
      if !IsCandidate(s[n - 1], it) then prev
      else match prev
        case None =>
          LexLessIrreflexive(s[n - 1].effectiveFrom.value);
          Some(n - 1)
        case Some(b) =>
          if LexLess(s[b].effectiveFrom.value, s[n - 1].effectiveFrom.value) then
            NewBestFacts(s, it, n, b);
            Some(n - 1)
          else
            KeptBestFacts(s, it, n, b);
            prev
  }

  /** A later candidate with a strictly greater date takes over as the best. */
  lemma NewBestFacts(s: seq<Instrument>, it: Instrument, n: nat, b: nat)
    requires 0 < n <= |s| && b < n - 1
    requires IsCandidate(s[b], it) && IsCandidate(s[n - 1], it)
    requires forall j :: 0 <= j < n - 1 && IsCandidate(s[j], it) ==>
      !LexLess(s[b].effectiveFrom.value, s[j].effectiveFrom.value)
    requires LexLess(s[b].effectiveFrom.value, s[n - 1].effectiveFrom.value)
    ensures forall j :: 0 <= j < n && IsCandidate(s[j], it) ==>
      !LexLess(s[n - 1].effectiveFrom.value, s[j].effectiveFrom.value)
    ensures forall j :: 0 <= j < n - 1 && IsCandidate(s[j], it) ==>
      LexLess(s[j].effectiveFrom.value, s[n - 1].effectiveFrom.value)
  {
    var top := s[n - 1].effectiveFrom.value;
    var old_ := s[b].effectiveFrom.value;
    forall j | 0 <= j < n && IsCandidate(s[j], it)
      ensures !LexLess(top, s[j].effectiveFrom.value)
    {
      if j == n - 1 {
        LexLessIrreflexive(top);
      } else if LexLess(top, s[j].effectiveFrom.value) {
        LexLessTransitive(old_, top, s[j].effectiveFrom.value);
      }
    }
    forall j | 0 <= j < n - 1 && IsCandidate(s[j], it)
      ensures LexLess(s[j].effectiveFrom.value, top)
    {
      LexLessTotal(s[j].effectiveFrom.value, old_);
      if s[j].effectiveFrom.value != old_ {
        LexLessTransitive(s[j].effectiveFrom.value, old_, top);
      }
    }
  }

  /** A later candidate whose date is not greater leaves the best where it was. */
  lemma KeptBestFacts(s: seq<Instrument>, it: Instrument, n: nat, b: nat)
    requires 0 < n <= |s| && b < n - 1
    requires IsCandidate(s[b], it) && IsCandidate(s[n - 1], it)
    requires forall j :: 0 <= j < n - 1 && IsCandidate(s[j], it) ==>
      !LexLess(s[b].effectiveFrom.value, s[j].effectiveFrom.value)
    requires !LexLess(s[b].effectiveFrom.value, s[n - 1].effectiveFrom.value)
    ensures forall j :: 0 <= j < n && IsCandidate(s[j], it) ==>
      !LexLess(s[b].effectiveFrom.value, s[j].effectiveFrom.value)
  {
  }

  /** The repeal candidate of `it`: `filter(...).sort(by date, descending)[0]`. */
  function BestCandidate(s: seq<Instrument>, it: Instrument): Option<nat> {
    BestIn(s, it, |s|)
  }

  /** Amendment linking for item `i` (sync-laws.mjs:110-114). */
  function LinkAmendment(s: seq<Instrument>, i: nat): (r: seq<Instrument>)
    requires i < |s|
    ensures |r| == |s|
  {
    if !AmendTrigger(s[i].title) then s
    else match FirstTarget(s)
      case None => s
      case Some(k) =>
        if s[i].id in s[k].asAmendedBy then s
        else s[k := s[k].(asAmendedBy := s[k].asAmendedBy + [s[i].id])]
  }

  /** Repeal linking for item `i` (sync-laws.mjs:115-120). */
  function LinkRepeal(s: seq<Instrument>, i: nat): (r: seq<Instrument>)
    requires i < |s|
    ensures |r| == |s|
  {
    if !RepealTrigger(s[i].title) then s
    else match BestCandidate(s, s[i])
      case None => s
      case Some(k) =>
        if Truthy(s[k].repealedBy) then s
        else s[k := s[k].(repealedBy := Some(s[i].id))]
  }

  /** One iteration of the inference loop, for item `i`. */
  function InferStep(s: seq<Instrument>, i: nat): (r: seq<Instrument>)
    requires i < |s|
    ensures |r| == |s|
  {
    LinkRepeal(LinkAmendment(s, i), i)
  }

  /** The list after the first `n` iterations. */
  function InferPrefix(s: seq<Instrument>, n: nat): (r: seq<Instrument>)
    requires n <= |s|
    ensures |r| == |s|
  {
    if n == 0 then s else InferStep(InferPrefix(s, n - 1), n - 1)
  }

  /** The list after the whole inference loop. */
  function Inferred(s: seq<Instrument>): (r: seq<Instrument>)
    ensures |r| == |s|
  {
    InferPrefix(s, |s|)
  }

  /** A record with its two links cleared: everything inference reads or leaves alone. */
  function Unlinked(x: Instrument): Instrument {
    x.(asAmendedBy := [], repealedBy := None)
  }

  /** `t` is `s` with, at most, different links. */
  predicate SameApartFromLinks(s: seq<Instrument>, t: seq<Instrument>) {
    |s| == |t| && forall k :: 0 <= k < |s| ==> Unlinked(s[k]) == Unlinked(t[k])
  }

  lemma {:induction false} FirstTargetIgnoresLinks(s: seq<Instrument>, t: seq<Instrument>, from: nat)
    requires SameApartFromLinks(s, t) && from <= |s|
    ensures FirstTargetFrom(s, from) == FirstTargetFrom(t, from)
    decreases |s| - from
  {
    if from < |s| {
      assert s[from].title == t[from].title by {
        assert Unlinked(s[from]) == Unlinked(t[from]);
      }
      FirstTargetIgnoresLinks(s, t, from + 1);
    }
  }

  /** The best candidate depends only on what the candidate filter and the sort read: the
      ensures of `BestIn` pin its result down, so equal filters and dates give equal results. */
  lemma BestInIgnoresLinks(s: seq<Instrument>, t: seq<Instrument>,
                           it: Instrument, it': Instrument, n: nat)
    requires SameApartFromLinks(s, t) && n <= |s| && Unlinked(it) == Unlinked(it')
    ensures BestIn(s, it, n) == BestIn(t, it', n)
  {
    forall j | 0 <= j < n
      ensures s[j].effectiveFrom == t[j].effectiveFrom && IsCandidate(s[j], it) == IsCandidate(t[j], it')
    {
      SameCandidate(s[j], t[j], it, it');
    }
    var r1 := BestIn(s, it, n);
    var r2 := BestIn(t, it', n);
    if r1.Some? && r2.Some? && r1.value != r2.value {
      assert false;
    }
  }

  /** Records equal apart from their links agree on everything the candidate filter reads. */
  lemma SameCandidate(x: Instrument, y: Instrument, it: Instrument, it': Instrument)
    requires Unlinked(x) == Unlinked(y) && Unlinked(it) == Unlinked(it')
    ensures x.effectiveFrom == y.effectiveFrom
    ensures IsCandidate(x, it) == IsCandidate(y, it')
  {
    assert x.effectiveFrom == Unlinked(x).effectiveFrom && y.effectiveFrom == Unlinked(y).effectiveFrom;
    assert it.topic == it'.topic && it.effectiveFrom == it'.effectiveFrom;
    assert x.topic == Unlinked(x).topic && y.topic == Unlinked(y).topic;
  }

  /** The ids of the amending instruments among the first `n`, in order. */
  function Amenders(s: seq<Instrument>, n: nat): seq<string>
    requires n <= |s|
  {
    if n == 0 then []
    else Amenders(s, n - 1) + (if AmendTrigger(s[n - 1].title) then [s[n - 1].id] else [])
  }

  /** Item `i` is a repealing instrument whose candidate is `c`. */
  predicate Picks(s: seq<Instrument>, i: nat, c: nat)
    requires i < |s|
  {
    RepealTrigger(s[i].title) && BestCandidate(s, s[i]) == Some(c)
  }

  /** The ids of the repealing instruments among the first `n` whose candidate is `c`, in order. */
  function RepealersOf(s: seq<Instrument>, n: nat, c: nat): seq<string>
    requires n <= |s|
  {
    if n == 0 then []
    else
      RepealersOf(s, n - 1, c) + (if Picks(s, n - 1, c) then [s[n - 1].id] else [])
  }

  /** Pushing each of `ids` onto `l` unless it is already there. */
  function AppendMissing(l: seq<string>, ids: seq<string>): seq<string>
    decreases |ids|
  {
    if |ids| == 0 then l
    else
      var r := AppendMissing(l, ids[..|ids| - 1]);
      if ids[|ids| - 1] in r then r else r + [ids[|ids| - 1]]
  }

  /** Assigning each of `ids` in turn to a field, each time only if the field is falsy. */
  function FirstWins(v: Option<string>, ids: seq<string>): Option<string>
    decreases |ids|
  {
    if |ids| == 0 then v
    else
      var w := FirstWins(v, ids[..|ids| - 1]);
      if Truthy(w) then w else Some(ids[|ids| - 1])
  }

  function AmendedList(s: seq<Instrument>, n: nat, k: nat): seq<string>
    requires n <= |s| && k < |s|
  {
    if FirstTarget(s) == Some(k) then AppendMissing(s[k].asAmendedBy, Amenders(s, n))
    else s[k].asAmendedBy
  }

  function RepealedValue(s: seq<Instrument>, n: nat, k: nat): Option<string>
    requires n <= |s| && k < |s|
  {
    FirstWins(s[k].repealedBy, RepealersOf(s, n, k))
  }

  /** Record `k` after the first `n` iterations, computed from the input alone. */
  function LinkedAfter(s: seq<Instrument>, n: nat, k: nat): Instrument
    requires n <= |s| && k < |s|
  {
    s[k].(asAmendedBy := AmendedList(s, n, k), repealedBy := RepealedValue(s, n, k))
  }

  lemma AppendMissingSnoc(l: seq<string>, ids: seq<string>, x: string)
    ensures AppendMissing(l, ids + [x]) ==
      if x in AppendMissing(l, ids) then AppendMissing(l, ids) else AppendMissing(l, ids) + [x]
  {
    assert (ids + [x])[..|ids|] == ids;
  }

  lemma FirstWinsSnoc(v: Option<string>, ids: seq<string>, x: string)
    ensures FirstWins(v, ids + [x]) ==
      if Truthy(FirstWins(v, ids)) then FirstWins(v, ids) else Some(x)
  {
    assert (ids + [x])[..|ids|] == ids;
  }

  /** The amendment half of iteration `i`, seen at record `k`. */
  lemma AmendStepAt(s: seq<Instrument>, u: seq<Instrument>, i: nat, k: nat)
    requires SameApartFromLinks(s, u) && i < |s| && k < |s|
    requires u[k] == LinkedAfter(s, i, k)
    ensures LinkAmendment(u, i)[k] ==
      s[k].(asAmendedBy := AmendedList(s, i + 1, k), repealedBy := RepealedValue(s, i, k))
  {
    FirstTargetIgnoresLinks(s, u, 0);
    assert Unlinked(s[i]) == Unlinked(u[i]);
    var x := s[i].id;
    if AmendTrigger(s[i].title) {
      assert Amenders(s, i + 1) == Amenders(s, i) + [x];
      AppendMissingSnoc(s[k].asAmendedBy, Amenders(s, i), x);
    } else {
      assert Amenders(s, i + 1) == Amenders(s, i);
    }
  }

  /** The repeal half of iteration `i`, seen at record `k`. */
  lemma RepealStepAt(s: seq<Instrument>, v: seq<Instrument>, i: nat, k: nat, a: seq<string>)
    requires SameApartFromLinks(s, v) && i < |s| && k < |s|
    requires v[k] == s[k].(asAmendedBy := a, repealedBy := RepealedValue(s, i, k))
    ensures LinkRepeal(v, i)[k] == s[k].(asAmendedBy := a, repealedBy := RepealedValue(s, i + 1, k))
  {
    assert Unlinked(s[i]) == Unlinked(v[i]);
    assert v[i].title == s[i].title && v[i].id == s[i].id;
    BestInIgnoresLinks(s, v, s[i], v[i], |s|);
    var x := s[i].id;
    var r := RepealersOf(s, i, k);
    if Picks(s, i, k) {
      assert RepealersOf(s, i + 1, k) == r + [x];
      FirstWinsSnoc(s[k].repealedBy, r, x);
      if Truthy(v[k].repealedBy) {
        assert LinkRepeal(v, i) == v;
      } else {
        assert LinkRepeal(v, i) == v[k := v[k].(repealedBy := Some(x))];
      }
    } else {
      assert RepealersOf(s, i + 1, k) == r;
      assert LinkRepeal(v, i)[k] == v[k];
    }
  }

  /** The loop equals the per-record two-pass computation after every iteration. */
  lemma {:induction false} InferPrefixPointwise(s: seq<Instrument>, n: nat)
    requires n <= |s|
    ensures forall k :: 0 <= k < |s| ==> InferPrefix(s, n)[k] == LinkedAfter(s, n, k)
    decreases n
  {
    if n > 0 {
      var i := n - 1;
      var u := InferPrefix(s, i);
      InferPrefixPointwise(s, i);
      assert SameApartFromLinks(s, u) by {
        forall k | 0 <= k < |s| ensures Unlinked(s[k]) == Unlinked(u[k]) {
          assert u[k] == LinkedAfter(s, i, k);
        }
      }
      var v := LinkAmendment(u, i);
      forall k | 0 <= k < |s|
        ensures v[k] == s[k].(asAmendedBy := AmendedList(s, n, k), repealedBy := RepealedValue(s, i, k))
      {
        AmendStepAt(s, u, i, k);
      }
      assert SameApartFromLinks(s, v);
      forall k | 0 <= k < |s| ensures LinkRepeal(v, i)[k] == LinkedAfter(s, n, k) {
        RepealStepAt(s, v, i, k, AmendedList(s, n, k));
      }
    } else {
      forall k | 0 <= k < |s| ensures InferPrefix(s, 0)[k] == LinkedAfter(s, 0, k) {
        assert Amenders(s, 0) == [] && RepealersOf(s, 0, k) == [];
      }
    }
  }

  lemma InferredPointwise(s: seq<Instrument>)
    ensures forall k :: 0 <= k < |s| ==> Inferred(s)[k] == LinkedAfter(s, |s|, k)
  {
    InferPrefixPointwise(s, |s|);
  }

  predicate NoDuplicates(l: seq<string>) {
    forall i, j :: 0 <= i < j < |l| ==> l[i] != l[j]
  }

  /** `AppendMissing` keeps `l` as a prefix, adds exactly the missing ids and no duplicate. */
  lemma {:induction false} AppendMissingFacts(l: seq<string>, ids: seq<string>)
    ensures |l| <= |AppendMissing(l, ids)| && AppendMissing(l, ids)[..|l|] == l
    ensures forall x :: x in AppendMissing(l, ids) <==> x in l || x in ids
    ensures NoDuplicates(l) ==> NoDuplicates(AppendMissing(l, ids))
    decreases |ids|
  {
    if |ids| > 0 {
      var init := ids[..|ids| - 1];
      var x := ids[|ids| - 1];
      AppendMissingFacts(l, init);
      assert ids == init + [x];
      var r := AppendMissing(l, init);
      if x !in r {
        assert (r + [x])[..|l|] == r[..|l|];
      }
    }
  }

  lemma {:induction false} AppendMissingPresent(r: seq<string>, ids: seq<string>)
    requires forall x :: x in ids ==> x in r
    ensures AppendMissing(r, ids) == r
    decreases |ids|
  {
    if |ids| > 0 {
      var init := ids[..|ids| - 1];
      assert forall x :: x in init ==> x in ids;
      AppendMissingPresent(r, init);
    }
  }

  lemma AppendMissingIdempotent(l: seq<string>, ids: seq<string>)
    ensures AppendMissing(AppendMissing(l, ids), ids) == AppendMissing(l, ids)
  {
    AppendMissingFacts(l, ids);
    AppendMissingPresent(AppendMissing(l, ids), ids);
  }

  /** `FirstWins` keeps a truthy value, otherwise takes one of `ids`; it stays falsy exactly
      when every id is empty and the value was falsy. */
  lemma {:induction false} FirstWinsFacts(v: Option<string>, ids: seq<string>)
    ensures Truthy(v) ==> FirstWins(v, ids) == v
    ensures FirstWins(v, ids) == v || (FirstWins(v, ids).Some? && FirstWins(v, ids).value in ids)
    ensures !Truthy(FirstWins(v, ids)) <==> !Truthy(v) && forall j :: 0 <= j < |ids| ==> ids[j] == ""
    decreases |ids|
  {
    if |ids| > 0 {
      var init := ids[..|ids| - 1];
      FirstWinsFacts(v, init);
      assert ids == init + [ids[|ids| - 1]];
      assert forall j :: 0 <= j < |init| ==> init[j] == ids[j];
    }
  }

  lemma FirstWinsIdempotent(v: Option<string>, ids: seq<string>)
    ensures FirstWins(FirstWins(v, ids), ids) == FirstWins(v, ids)
  {
    var w := FirstWins(v, ids);
    FirstWinsFacts(v, ids);
    FirstWinsFacts(w, ids);
    if !Truthy(w) && |ids| > 0 {
      var init := ids[..|ids| - 1];
      assert forall j :: 0 <= j < |init| ==> init[j] == ids[j];
      FirstWinsFacts(v, init);
      FirstWinsFacts(w, init);
    }
  }

  lemma {:induction false} AmendersElems(s: seq<Instrument>, n: nat)
    requires n <= |s|
    ensures forall x :: x in Amenders(s, n) <==>
      exists i :: 0 <= i < n && AmendTrigger(s[i].title) && s[i].id == x
    decreases n
  {
    if n > 0 {
      AmendersElems(s, n - 1);
    }
  }

  lemma {:induction false} RepealersOfElems(s: seq<Instrument>, n: nat, c: nat)
    requires n <= |s|
    ensures forall x :: x in RepealersOf(s, n, c) <==> exists i :: 0 <= i < n && Picks(s, i, c) && s[i].id == x
    decreases n
  {
    if n > 0 {
      RepealersOfElems(s, n - 1, c);
    }
  }

  /** Amendment linking (sync-laws.mjs:110-114): a list only grows at its end, only the first
      instrument matching "33 of 2021" or "33/2021" gains entries, it gains the id of every
      amending instrument (itself included when its own title amends), and a list without
      duplicates keeps none. */
  lemma AmendedByAfterInference(s: seq<Instrument>, k: nat)
    requires k < |s|
    ensures s[k].asAmendedBy <= Inferred(s)[k].asAmendedBy
    ensures Inferred(s)[k].asAmendedBy != s[k].asAmendedBy ==> FirstTarget(s) == Some(k)
    ensures FirstTarget(s) == Some(k) ==> forall x :: x in Inferred(s)[k].asAmendedBy <==>
      x in s[k].asAmendedBy || exists i :: 0 <= i < |s| && AmendTrigger(s[i].title) && s[i].id == x
    ensures NoDuplicates(s[k].asAmendedBy) ==> NoDuplicates(Inferred(s)[k].asAmendedBy)
  {
    InferredPointwise(s);
    AppendMissingFacts(s[k].asAmendedBy, Amenders(s, |s|));
    AmendersElems(s, |s|);
  }

  /** Repeal linking (sync-laws.mjs:115-120): a truthy `repealedBy` is never replaced; a new
      value is the id of a repealing instrument whose best candidate is this record, which
      then shares its topic, has an earlier date and the latest such date; a record
      without a date is never chosen. */
  lemma RepealedByAfterInference(s: seq<Instrument>, k: nat)
    requires k < |s|
    ensures Truthy(s[k].repealedBy) ==> Inferred(s)[k].repealedBy == s[k].repealedBy
    ensures !Truthy(s[k].effectiveFrom) ==> Inferred(s)[k].repealedBy == s[k].repealedBy
    ensures Inferred(s)[k].repealedBy != s[k].repealedBy ==>
      exists i :: 0 <= i < |s| && RepealTrigger(s[i].title) && BestCandidate(s, s[i]) == Some(k)
        && Inferred(s)[k].repealedBy == Some(s[i].id)
        && IsCandidate(s[k], s[i])
        && (forall j :: 0 <= j < |s| && IsCandidate(s[j], s[i]) ==>
              !LexLess(s[k].effectiveFrom.value, s[j].effectiveFrom.value))
  {
    InferredPointwise(s);
    var r := RepealersOf(s, |s|, k);
    FirstWinsFacts(s[k].repealedBy, r);
    RepealersOfElems(s, |s|, k);
  }

  /** First wins: the first repealing instrument with a non-empty id that picks a record
      without a truthy `repealedBy` is the one recorded. */
  lemma {:induction false} RepealedValueFirst(s: seq<Instrument>, n: nat, k: nat, i: nat)
    requires i < n <= |s| && k < |s|
    requires !Truthy(s[k].repealedBy) && Picks(s, i, k) && s[i].id != ""
    requires forall j :: 0 <= j < i && Picks(s, j, k) ==> s[j].id == ""
    ensures RepealedValue(s, n, k) == Some(s[i].id)
    decreases n
  {
    var r := RepealersOf(s, n - 1, k);
    if n == i + 1 {
      RepealersOfElems(s, i, k);
      FirstWinsFacts(s[k].repealedBy, r);
      assert RepealersOf(s, n, k) == r + [s[i].id];
      FirstWinsSnoc(s[k].repealedBy, r, s[i].id);
    } else {
      RepealedValueFirst(s, n - 1, k, i);
      if Picks(s, n - 1, k) {
        assert RepealersOf(s, n, k) == r + [s[n - 1].id];
        FirstWinsSnoc(s[k].repealedBy, r, s[n - 1].id);
      } else {
        assert RepealersOf(s, n, k) == r;
      }
    }
  }

  lemma RepealFirstWins(s: seq<Instrument>, k: nat, i: nat)
    requires i < |s| && k < |s|
    requires !Truthy(s[k].repealedBy) && RepealTrigger(s[i].title) && BestCandidate(s, s[i]) == Some(k)
    requires s[i].id != ""
    requires forall j :: 0 <= j < i && RepealTrigger(s[j].title) && BestCandidate(s, s[j]) == Some(k) ==>
      s[j].id == ""
    ensures Inferred(s)[k].repealedBy == Some(s[i].id)
  {
    InferredPointwise(s);
    RepealedValueFirst(s, |s|, k, i);
  }

  /** Inference changes nothing but `asAmendedBy` and `repealedBy`. */
  lemma InferenceKeepsOtherFields(s: seq<Instrument>)
    ensures SameApartFromLinks(s, Inferred(s))
  {
    InferredPointwise(s);
  }

  lemma {:induction false} AmendersIgnoreLinks(s: seq<Instrument>, t: seq<Instrument>, n: nat)
    requires SameApartFromLinks(s, t) && n <= |s|
    ensures Amenders(s, n) == Amenders(t, n)
    decreases n
  {
    if n > 0 {
      AmendersIgnoreLinks(s, t, n - 1);
      assert Unlinked(s[n - 1]) == Unlinked(t[n - 1]);
    }
  }

  lemma {:induction false} RepealersIgnoreLinks(s: seq<Instrument>, t: seq<Instrument>, n: nat, c: nat)
    requires SameApartFromLinks(s, t) && n <= |s|
    ensures RepealersOf(s, n, c) == RepealersOf(t, n, c)
    decreases n
  {
    if n > 0 {
      RepealersIgnoreLinks(s, t, n - 1, c);
      assert Unlinked(s[n - 1]) == Unlinked(t[n - 1]);
      BestInIgnoresLinks(s, t, s[n - 1], t[n - 1], |s|);
    }
  }

  /** Running the inference loop a second time changes nothing. */
  lemma InferenceIdempotent(s: seq<Instrument>)
    ensures Inferred(Inferred(s)) == Inferred(s)
  {
    var t := Inferred(s);
    InferenceKeepsOtherFields(s);
    InferredPointwise(s);
    InferredPointwise(t);
    FirstTargetIgnoresLinks(s, t, 0);
    AmendersIgnoreLinks(s, t, |s|);
    forall k | 0 <= k < |s| ensures Inferred(t)[k] == t[k] {
      RepealersIgnoreLinks(s, t, |s|, k);
      AppendMissingIdempotent(s[k].asAmendedBy, Amenders(s, |s|));
      FirstWinsIdempotent(s[k].repealedBy, RepealersOf(s, |s|, k));
    }
  }
}
