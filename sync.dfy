/**
 * The pipeline `main` runs (sync-laws.mjs:89-140): discovery over the index
 * pages, the registry keyed by id, the seed merge with enrichment, link
 * defaults, relationship inference, status derivation, the in-force view and
 * the diff against the previous snapshot. Fetches, URL resolution, hashing,
 * date parsing and the clock come from outside (`Host`, `runDate`,
 * `generatedAt`); writing files is replaced by returning what would be written.
 */
module Sync {
  import opened Wrappers
  import opened Instruments
  import opened Portal
  import opened Discovery
  import opened Inference
  import opened Lifecycle
  import opened SnapshotDiff

  /** A configured instrument (the `instruments` entries of sources.mjs). */
  datatype Seed = Seed(id: string, titleHint: Option<string>, topic: Option<string>,
                       mohreRef: Option<string>, uaePortal: Option<string>)

  datatype Sources = Sources(indexPages: seq<string>, instruments: seq<Seed>)

  /** The outcome of fetching an index page and extracting its links. */
  datatype IndexFetch = IndexLinks(links: seq<Link>) | IndexFailed

  /** What the pipeline asks of the outside world. */
  datatype Host = Host(absolute: (string, string) -> string, sha1Hex: string -> string,
                       dateParse: string -> Option<string>,
                       fetchIndex: string -> IndexFetch, fetchPortal: string -> PageFetch)

  /** What a run produces: the snapshot, the in-force view and the diff (written only when a
      previous snapshot exists), or nothing when an index page cannot be fetched. */
  datatype SyncResult =
    | Synced(snapshot: seq<Instrument>, inForce: seq<Instrument>, diff: Diff, diffWritten: bool)
    | Aborted

  /** The pages `get(url)` returns for a portal URL; without a URL nothing is fetched. */
  function PortalPage(url: Option<string>, host: Host): PageFetch {
    if Truthy(url) then host.fetchPortal(url.value) else FetchFailed
  }

  /** `seed.topic || base.topic || "labour"`. */
  function MergedTopic(seed: Seed, base: Instrument): (r: Option<string>)
    ensures Truthy(r)
    ensures Truthy(seed.topic) ==> r == seed.topic
    ensures !Truthy(seed.topic) && Truthy(base.topic) ==> r == base.topic
    ensures !Truthy(seed.topic) && !Truthy(base.topic) ==> r == Some("labour")
  {
    if Truthy(seed.topic) then seed.topic
    else if Truthy(base.topic) then base.topic
    else Some("labour")
  }

  /** The record a seed starts from: the registered one, or one built from the seed. */
  function SeedBase(m: seq<Instrument>, seed: Seed): Instrument {
    match Lookup(m, seed.id)
    case Some(x) => x
    case None => NewInstrument(seed.id, seed.titleHint, seed.mohreRef)
  }

  /** The record a seed leaves under its id (sync-laws.mjs:100-103). */
  function Merged(m: seq<Instrument>, seed: Seed, host: Host): Instrument {
    var base := SeedBase(m, seed);
    var withTopic := base.(topic := MergedTopic(seed, base));
    Enrich(withTopic, seed.uaePortal, PortalPage(seed.uaePortal, host), host.sha1Hex, host.dateParse)
  }

  /** The registry after merging every seed of `seeds`, in order. */
  function MergedAll(m: seq<Instrument>, seeds: seq<Seed>, host: Host): seq<Instrument>
    decreases |seeds|
  {
    if |seeds| == 0 then m
    else
      var before := MergedAll(m, seeds[..|seeds| - 1], host);
      Put(before, Merged(before, seeds[|seeds| - 1], host))
  }

  /** `it.asAmendedBy || []` and `it.repealedBy || null` (sync-laws.mjs:107). */
  function WithDefaultLinks(x: Instrument): Instrument {
    x.(repealedBy := OrNull(x.repealedBy))
  }

  function DefaultedAll(s: seq<Instrument>): (r: seq<Instrument>)
    ensures |r| == |s|
  {
    seq(|s|, i requires 0 <= i < |s| => WithDefaultLinks(s[i]))
  }

  /** The records discovered over `pages`, in page order, or None once a page fails. */
  function DiscoverAll(pages: seq<string>, host: Host): Option<seq<Instrument>>
    decreases |pages|
  {
    if |pages| == 0 then Some([])
    else
      match DiscoverAll(pages[..|pages| - 1], host)
      case None => None
      case Some(found) =>
        match host.fetchIndex(pages[|pages| - 1])
        case IndexFailed => None
        case IndexLinks(links) => Some(found + Discovered(pages[|pages| - 1], links, host.absolute))
  }

  /** The snapshot a run computes from the discovered records. */
  function SnapshotOf(discovered: seq<Instrument>, seeds: seq<Seed>, host: Host, runDate: string): seq<Instrument> {
    var merged := MergedAll(KeyedBy(discovered), seeds, host);
    DeriveAll(Inferred(DefaultedAll(merged)), runDate)
  }

  /** What one run of `main` produces. */
  function SyncOf(prev: Option<seq<Instrument>>, cfg: Sources, host: Host, runDate: string,
                  generatedAt: string): SyncResult
  {
    match DiscoverAll(cfg.indexPages, host)
    case None => Aborted
    case Some(discovered) =>
      var all := SnapshotOf(discovered, cfg.instruments, host, runDate);
      Synced(all, InForceView(all), DiffOf(prev.GetOr([]), all, generatedAt), prev.Some?)
  }

  /** The `byId` map of `main`, whose records the later loops update in place. */
  class Registry {
    var entries: seq<Instrument>

    ghost predicate Valid()
      reads this
    {
      DistinctIds(entries)
    }

    constructor ()
      ensures entries == [] && Valid()
    {
      entries := [];
    }

    /** `byId.get(id)`. */
    method Get(id: string) returns (r: Option<Instrument>)
      ensures r == Lookup(entries, id)
    {
      r := Lookup(entries, id);
    }

    /** `byId.set(x.id, x)`. */
    method Set(x: Instrument)
      modifies this
      requires Valid()
      ensures Valid()
      ensures entries == Put(old(entries), x)
    {
      entries := Put(entries, x);
    }

    /** The loop at sync-laws.mjs:97. */
    method AddAll(xs: seq<Instrument>)
      modifies this
      requires Valid()
      ensures Valid()
      ensures entries == PutAll(old(entries), xs)
    {
      for i := 0 to |xs|
        invariant Valid()
        invariant entries == PutAll(old(entries), xs[..i])
      {
        assert xs[..i + 1][..i] == xs[..i];
        Set(xs[i]);
      }
      assert xs[..|xs|] == xs;
    }

    /** The seed loop at sync-laws.mjs:99-104. */
    method MergeSeeds(seeds: seq<Seed>, host: Host)
      modifies this
      requires Valid()
      ensures Valid()
      ensures entries == MergedAll(old(entries), seeds, host)
    {
      for i := 0 to |seeds|
        invariant Valid()
        invariant entries == MergedAll(old(entries), seeds[..i], host)
      {
        assert seeds[..i + 1][..i] == seeds[..i];
        var seed := seeds[i];
        var found := Get(seed.id);
        var base := if found.Some? then found.value else NewInstrument(seed.id, seed.titleHint, seed.mohreRef);
        base := base.(topic := MergedTopic(seed, base));
        var page := PortalPage(seed.uaePortal, host);
        var enriched := Enrich(base, seed.uaePortal, page, host.sha1Hex, host.dateParse);
        Set(enriched);
      }
      assert seeds[..|seeds|] == seeds;
    }

    /** The defaults loop at sync-laws.mjs:107. */
    method DefaultLinks()
      modifies this
      requires Valid()
      ensures Valid()
      ensures entries == DefaultedAll(old(entries))
    {
      for i := 0 to |entries|
        invariant Valid()
        invariant |entries| == |old(entries)|
        invariant forall k :: 0 <= k < i ==> entries[k] == WithDefaultLinks(old(entries)[k])
        invariant forall k :: i <= k < |entries| ==> entries[k] == old(entries)[k]
      {
        ReplaceFacts(entries, i, WithDefaultLinks(entries[i]));
        entries := entries[i := WithDefaultLinks(entries[i])];
      }
    }

    /** The inference loop at sync-laws.mjs:109-121: amendment then repeal linking per item. */
    method InferRelationships()
      modifies this
      requires Valid()
      ensures Valid()
      ensures entries == Inferred(old(entries))
    {
      ghost var start := entries;
      var n := |entries|;
      for i := 0 to n
        invariant Valid()
        invariant entries == InferPrefix(start, i)
      {
        InferAt(i);
      }
    }

    /** One iteration of the inference loop (sync-laws.mjs:109-121): the item is read once,
        then both halves run on it. */
    method InferAt(i: nat)
      modifies this
      requires Valid() && i < |entries|
      ensures Valid()
      ensures entries == InferStep(old(entries), i)
    {
      var it := entries[i];
      LinkAmender(i, it);
      LinkRepealer(i, it);
    }

    /** The amendment half of one iteration (sync-laws.mjs:110-114), for item `it` at `i`. */
    method LinkAmender(i: nat, it: Instrument)
      modifies this
      requires Valid() && i < |entries| && it == entries[i]
      ensures Valid()
      ensures entries == LinkAmendment(old(entries), i)
    {
      if AmendTrigger(it.title) {
        var target := FirstTarget(entries);
        if target.Some? && it.id !in entries[target.value].asAmendedBy {
          var t := target.value;
          ReplaceFacts(entries, t, entries[t].(asAmendedBy := entries[t].asAmendedBy + [it.id]));
          entries := entries[t := entries[t].(asAmendedBy := entries[t].asAmendedBy + [it.id])];
        }
      }
    }

    /** The repeal half of one iteration (sync-laws.mjs:115-120), for the item `it` read at
        `i` before the amendment half ran. */
    method LinkRepealer(i: nat, it: Instrument)
      modifies this
      requires Valid() && i < |entries| && Unlinked(it) == Unlinked(entries[i])
      ensures Valid()
      ensures entries == LinkRepeal(old(entries), i)
    {
      if RepealTrigger(it.title) {
        CandidateOfItem(entries, i, it);
        var cand := BestCandidate(entries, it);
        if cand.Some? && !Truthy(entries[cand.value].repealedBy) {
          var c := cand.value;
          ReplaceFacts(entries, c, entries[c].(repealedBy := Some(it.id)));
          entries := entries[c := entries[c].(repealedBy := Some(it.id))];
        }
      }
    }

    /** The status loop at sync-laws.mjs:123-128. */
    method DeriveStatuses(runDate: string)
      modifies this
      requires Valid()
      ensures Valid()
      ensures entries == DeriveAll(old(entries), runDate)
    {
      for i := 0 to |entries|
        invariant Valid()
        invariant |entries| == |old(entries)|
        invariant forall k :: 0 <= k < i ==> entries[k] == Derive(old(entries)[k], runDate)
        invariant forall k :: i <= k < |entries| ==> entries[k] == old(entries)[k]
      {
        ReplaceFacts(entries, i, Derive(entries[i], runDate));
        entries := entries[i := Derive(entries[i], runDate)];
      }
    }
  }

  /** Amendment linking changes only links, so the repeal half may use the item read before it. */
  lemma CandidateOfItem(s: seq<Instrument>, i: nat, it: Instrument)
    requires i < |s| && Unlinked(s[i]) == Unlinked(it)
    ensures BestCandidate(s, it) == BestCandidate(s, s[i])
  {
    BestInIgnoresLinks(s, s, it, s[i], |s|);
  }

  lemma {:induction false} DiscoverAllPrefix(pages: seq<string>, host: Host, n: nat)
    requires n <= |pages| && DiscoverAll(pages[..n], host).None?
    ensures DiscoverAll(pages, host).None?
    decreases |pages| - n
  {
    if n < |pages| {
      assert pages[..n + 1][..n] == pages[..n];
      DiscoverAllPrefix(pages, host, n + 1);
    } else {
      assert pages[..n] == pages;
    }
  }

  /** The discovery loop at sync-laws.mjs:95-96; a failed page ends the run. */
  method DiscoverPages(pages: seq<string>, host: Host) returns (r: Option<seq<Instrument>>)
    ensures r == DiscoverAll(pages, host)
  {
    var discovered: seq<Instrument> := [];
    for i := 0 to |pages|
      invariant DiscoverAll(pages[..i], host) == Some(discovered)
    {
      assert pages[..i + 1][..i] == pages[..i];
      var fetched := host.fetchIndex(pages[i]);
      if fetched.IndexFailed? {
        DiscoverAllPrefix(pages, host, i + 1);
        return None;
      }
      var found := ParseIndex(pages[i], fetched.links, host.absolute);
      discovered := discovered + found;
    }
    assert pages[..|pages|] == pages;
    r := Some(discovered);
  }

  /** The registry loops of `main` (sync-laws.mjs:97-128) over the discovered records. */
  method BuildSnapshot(discovered: seq<Instrument>, seeds: seq<Seed>, host: Host, runDate: string)
    returns (all: seq<Instrument>)
    ensures all == SnapshotOf(discovered, seeds, host, runDate)
  {
    var registry := new Registry();
    registry.AddAll(discovered);
    registry.MergeSeeds(seeds, host);
    registry.DefaultLinks();
    registry.InferRelationships();
    registry.DeriveStatuses(runDate);
    all := registry.entries;
  }

  /** `main` (sync-laws.mjs:89-140) without its file and console output. */
  method RunSync(prev: Option<seq<Instrument>>, cfg: Sources, host: Host, runDate: string,
                 generatedAt: string) returns (result: SyncResult)
    ensures result == SyncOf(prev, cfg, host, runDate, generatedAt)
  {
    var discovered := DiscoverPages(cfg.indexPages, host);
    if discovered.None? {
      return Aborted;
    }
    var all := BuildSnapshot(discovered.value, cfg.instruments, host, runDate);
    var inForce := InForceView(all);
    var diff := ComputeDiff(prev.GetOr([]), all, generatedAt);
    result := Synced(all, inForce, diff, prev.Some?);
  }

  lemma DiscoverAllFails(pages: seq<string>, host: Host)
    ensures DiscoverAll(pages, host).None? <==>
      exists i :: 0 <= i < |pages| && host.fetchIndex(pages[i]).IndexFailed?
  {
    if DiscoverAll(pages, host).None? {
      var i := AbortNamesFailedPage(pages, host);
    }
    forall i | 0 <= i < |pages| && host.fetchIndex(pages[i]).IndexFailed?
      ensures DiscoverAll(pages, host).None?
    {
      FailedPageAborts(pages, host, i);
    }
  }

  /** A page whose fetch fails aborts discovery, whatever its position. */
  lemma {:induction false} FailedPageAborts(pages: seq<string>, host: Host, i: nat)
    requires i < |pages| && host.fetchIndex(pages[i]).IndexFailed?
    ensures DiscoverAll(pages, host).None?
    decreases |pages|
  {
    if i < |pages| - 1 {
      var init := pages[..|pages| - 1];
      assert init[i] == pages[i];
      FailedPageAborts(init, host, i);
    }
  }

  /** An aborted discovery has a page whose fetch failed. */
  lemma {:induction false} AbortNamesFailedPage(pages: seq<string>, host: Host) returns (i: nat)
    requires DiscoverAll(pages, host).None?
    ensures i < |pages| && host.fetchIndex(pages[i]).IndexFailed?
    decreases |pages|
  {
    var init := pages[..|pages| - 1];
    if DiscoverAll(init, host).None? {
      i := AbortNamesFailedPage(init, host);
      assert init[i] == pages[i];
    } else {
      i := |pages| - 1;
    }
  }

    /** The record a seed leaves: under the seed's id, with the registered record's title and
      source URL (the seed's hints only when nothing is registered), its links and end date,
      the merged topic, and without a portal URL the base record with that topic alone. */
  lemma {:induction false} MergedRecord(m: seq<Instrument>, seed: Seed, host: Host)
    ensures Merged(m, seed, host).id == seed.id
    ensures Lookup(m, seed.id).Some? ==>
      Merged(m, seed, host).title == Lookup(m, seed.id).value.title &&
      Merged(m, seed, host).sourceUrl == Lookup(m, seed.id).value.sourceUrl &&
      Merged(m, seed, host).asAmendedBy == Lookup(m, seed.id).value.asAmendedBy &&
      Merged(m, seed, host).repealedBy == Lookup(m, seed.id).value.repealedBy &&
      Merged(m, seed, host).effectiveTo == Lookup(m, seed.id).value.effectiveTo
    ensures Lookup(m, seed.id).None? ==>
      Merged(m, seed, host).title == seed.titleHint && Merged(m, seed, host).sourceUrl == seed.mohreRef &&
      Merged(m, seed, host).asAmendedBy == [] && Merged(m, seed, host).repealedBy.None? &&
      Merged(m, seed, host).effectiveTo.None?
    ensures Merged(m, seed, host).topic == MergedTopic(seed, SeedBase(m, seed))
    ensures !Truthy(seed.uaePortal) ==>
      Merged(m, seed, host) == SeedBase(m, seed).(topic := MergedTopic(seed, SeedBase(m, seed)))
  {
    var base := SeedBase(m, seed);
    var withTopic := base.(topic := MergedTopic(seed, base));
    assert Unenriched(Merged(m, seed, host)) == Unenriched(withTopic);
  }

/** Discovery creates records with an id, a title and a source URL only. */
  lemma {:induction false} DiscoverAllFresh(pages: seq<string>, host: Host)
    ensures DiscoverAll(pages, host).Some? ==>
      forall x :: x in DiscoverAll(pages, host).value ==> x.status.None?
    decreases |pages|
  {
    if |pages| > 0 {
      var init := pages[..|pages| - 1];
      DiscoverAllFresh(init, host);
      var last := pages[|pages| - 1];
      if DiscoverAll(init, host).Some? && host.fetchIndex(last).IndexLinks? {
        DiscoveredRecords(last, host.fetchIndex(last).links, host.absolute);
      }
    }
  }

  predicate StatusKnownOrUnset(x: Instrument) {
    x.status.None? || IsStatus(x.status.value)
  }

  lemma MergedFacts(m: seq<Instrument>, seed: Seed, host: Host)
    requires forall x :: x in m ==> StatusKnownOrUnset(x)
    ensures Merged(m, seed, host).id == seed.id
    ensures Truthy(Merged(m, seed, host).topic)
    ensures StatusKnownOrUnset(Merged(m, seed, host))
  {
    MergedRecord(m, seed, host);
    var base := SeedBase(m, seed);
    var withTopic := base.(topic := MergedTopic(seed, base));
    var page := PortalPage(seed.uaePortal, host);
    assert Unenriched(Merged(m, seed, host)) == Unenriched(withTopic);
    if Truthy(seed.uaePortal) {
      EnrichedStatusIsValid(withTopic, seed.uaePortal, page, host.sha1Hex, host.dateParse);
    }
  }

  /** The seed merge keeps ids distinct and statuses valid. */
  lemma {:induction false} MergedAllValid(m: seq<Instrument>, seeds: seq<Seed>, host: Host)
    requires DistinctIds(m)
    requires forall x :: x in m ==> StatusKnownOrUnset(x)
    ensures DistinctIds(MergedAll(m, seeds, host))
    ensures forall x :: x in MergedAll(m, seeds, host) ==> StatusKnownOrUnset(x)
    decreases |seeds|
  {
    if |seeds| > 0 {
      var init := seeds[..|seeds| - 1];
      MergedAllValid(m, init, host);
      var before := MergedAll(m, init, host);
      MergedFacts(before, seeds[|seeds| - 1], host);
      PutMembers(before, Merged(before, seeds[|seeds| - 1], host));
    }
  }

  /** After the seed merge every seed's id holds a record with a truthy topic. */
  lemma {:induction false} MergedAllSeeds(m: seq<Instrument>, seeds: seq<Seed>, host: Host)
    requires DistinctIds(m)
    requires forall x :: x in m ==> StatusKnownOrUnset(x)
    ensures forall seed :: seed in seeds ==>
      Lookup(MergedAll(m, seeds, host), seed.id).Some? &&
      Truthy(Lookup(MergedAll(m, seeds, host), seed.id).value.topic)
    decreases |seeds|
  {
    if |seeds| > 0 {
      var init := seeds[..|seeds| - 1];
      var last := seeds[|seeds| - 1];
      MergedAllSeeds(m, init, host);
      MergedAllValid(m, init, host);
      var before := MergedAll(m, init, host);
      var y := Merged(before, last, host);
      MergedFacts(before, last, host);
      var after := MergedAll(m, seeds, host);
      assert after == Put(before, y);
      SeedsInitLast(seeds);
      forall seed | seed in seeds
        ensures Lookup(after, seed.id).Some? && Truthy(Lookup(after, seed.id).value.topic)
      {
        if seed.id != y.id {
          assert seed in init;
        }
      }
    }
  }

  /** Merging seeds keeps the ids distinct. */
  lemma {:induction false} MergedAllDistinct(m: seq<Instrument>, seeds: seq<Seed>, host: Host)
    requires DistinctIds(m)
    ensures DistinctIds(MergedAll(m, seeds, host))
    decreases |seeds|
  {
    if |seeds| > 0 {
      MergedAllDistinct(m, seeds[..|seeds| - 1], host);
    }
  }

  /** One more seed: its id now holds the merged record, in the place the existing record
      held or appended when there was none, and every other id keeps its record. */
  lemma {:induction false} MergedAllStep(m: seq<Instrument>, seeds: seq<Seed>, seed: Seed, host: Host)
    requires DistinctIds(m)
    ensures Lookup(MergedAll(m, seeds + [seed], host), seed.id) ==
      Some(Merged(MergedAll(m, seeds, host), seed, host))
    ensures forall id :: id != seed.id ==>
      Lookup(MergedAll(m, seeds + [seed], host), id) == Lookup(MergedAll(m, seeds, host), id)
    ensures seed.id !in IdSet(MergedAll(m, seeds, host)) ==>
      MergedAll(m, seeds + [seed], host) == MergedAll(m, seeds, host) + [Merged(MergedAll(m, seeds, host), seed, host)]
    ensures seed.id in IdSet(MergedAll(m, seeds, host)) ==>
      |MergedAll(m, seeds + [seed], host)| == |MergedAll(m, seeds, host)| &&
      forall k :: 0 <= k < |MergedAll(m, seeds, host)| ==>
        MergedAll(m, seeds + [seed], host)[k] ==
          if MergedAll(m, seeds, host)[k].id == seed.id then Merged(MergedAll(m, seeds, host), seed, host)
          else MergedAll(m, seeds, host)[k]
  {
    var before := MergedAll(m, seeds, host);
    var y := Merged(before, seed, host);
    assert (seeds + [seed])[..|seeds|] == seeds;
    assert MergedAll(m, seeds + [seed], host) == Put(before, y);
    MergedAllDistinct(m, seeds, host);
    MergedRecord(before, seed, host);
    if seed.id in IdSet(before) {
      PutInPlace(before, y);
    } else {
      PutFresh(before, y);
    }
  }

  /** An id no seed names keeps the record it had before the merge. */
  lemma {:induction false} MergedAllOthers(m: seq<Instrument>, seeds: seq<Seed>, host: Host, id: string)
    requires forall seed :: seed in seeds ==> seed.id != id
    ensures Lookup(MergedAll(m, seeds, host), id) == Lookup(m, id)
    decreases |seeds|
  {
    if |seeds| > 0 {
      var init := seeds[..|seeds| - 1];
      assert seeds[|seeds| - 1] in seeds;
      assert forall seed :: seed in init ==> seed in seeds;
      MergedAllOthers(m, init, host, id);
      MergedRecord(MergedAll(m, init, host), seeds[|seeds| - 1], host);
    }
  }

  lemma SeedsInitLast(seeds: seq<Seed>)
    requires |seeds| > 0
    ensures forall seed :: seed in seeds ==> seed in seeds[..|seeds| - 1] || seed == seeds[|seeds| - 1]
  {
    assert seeds == seeds[..|seeds| - 1] + [seeds[|seeds| - 1]];
  }

  /** Defaulting, inference and derivation keep each record's id and topic in place and leave
      it a valid status. */
  lemma SnapshotPositions(merged: seq<Instrument>, runDate: string)
    ensures |DeriveAll(Inferred(DefaultedAll(merged)), runDate)| == |merged|
    ensures forall k :: 0 <= k < |merged| ==>
      DeriveAll(Inferred(DefaultedAll(merged)), runDate)[k].id == merged[k].id &&
      DeriveAll(Inferred(DefaultedAll(merged)), runDate)[k].topic == merged[k].topic
    ensures forall k :: 0 <= k < |merged| && StatusKnownOrUnset(merged[k]) ==>
      DeriveAll(Inferred(DefaultedAll(merged)), runDate)[k].status.Some? &&
      IsStatus(DeriveAll(Inferred(DefaultedAll(merged)), runDate)[k].status.value)
  {
    var d := DefaultedAll(merged);
    var t := Inferred(d);
    InferenceKeepsOtherFields(d);
    forall k | 0 <= k < |merged|
      ensures t[k].id == merged[k].id && t[k].topic == merged[k].topic && t[k].status == merged[k].status
    {
      assert Unlinked(d[k]) == Unlinked(t[k]);
    }
    forall k | 0 <= k < |merged|
      ensures StatusKnownOrUnset(merged[k]) ==> IsStatus(Derive(t[k], runDate).status.value)
    {
      DeriveStatus(t[k], runDate);
    }
  }

  /** The snapshot of a run: ids are distinct; every seed is present with a truthy topic;
      every status is one of the four; a record with a repealer is "repealed" and ends on
      the run date. */
  lemma SnapshotFacts(discovered: seq<Instrument>, seeds: seq<Seed>, host: Host, runDate: string)
    requires forall x :: x in discovered ==> x.status.None?
    ensures DistinctIds(SnapshotOf(discovered, seeds, host, runDate))
    ensures forall seed :: seed in seeds ==>
      exists k :: (0 <= k < |SnapshotOf(discovered, seeds, host, runDate)| &&
                   SnapshotOf(discovered, seeds, host, runDate)[k].id == seed.id &&
                   Truthy(SnapshotOf(discovered, seeds, host, runDate)[k].topic))
    ensures forall x :: x in SnapshotOf(discovered, seeds, host, runDate) ==>
      x.status.Some? && IsStatus(x.status.value)
    ensures forall x :: x in SnapshotOf(discovered, seeds, host, runDate) && Truthy(x.repealedBy) ==>
      x.status == Some(Repealed) && x.effectiveTo == Some(runDate)
  {
    SnapshotHasSeeds(discovered, seeds, host, runDate);
    SnapshotStatuses(discovered, seeds, host, runDate);
    SnapshotRepealed(discovered, seeds, host, runDate);
  }

  /** The keyed discovered records and the merged registry have distinct ids and valid or
      unset statuses. */
  lemma MergedRegistryValid(discovered: seq<Instrument>, seeds: seq<Seed>, host: Host)
    requires forall x :: x in discovered ==> x.status.None?
    ensures DistinctIds(KeyedBy(discovered))
    ensures forall x :: x in KeyedBy(discovered) ==> StatusKnownOrUnset(x)
    ensures DistinctIds(MergedAll(KeyedBy(discovered), seeds, host))
    ensures forall x :: x in MergedAll(KeyedBy(discovered), seeds, host) ==> StatusKnownOrUnset(x)
  {
    KeyedByContents(discovered);
    KeyedByMembers(discovered);
    MergedAllValid(KeyedBy(discovered), seeds, host);
  }

  /** The snapshot has distinct ids and holds every seed with a truthy topic. */
  lemma SnapshotHasSeeds(discovered: seq<Instrument>, seeds: seq<Seed>, host: Host, runDate: string)
    requires forall x :: x in discovered ==> x.status.None?
    ensures DistinctIds(SnapshotOf(discovered, seeds, host, runDate))
    ensures forall seed :: seed in seeds ==>
      exists k :: (0 <= k < |SnapshotOf(discovered, seeds, host, runDate)| &&
                   SnapshotOf(discovered, seeds, host, runDate)[k].id == seed.id &&
                   Truthy(SnapshotOf(discovered, seeds, host, runDate)[k].topic))
  {
    var keyed := KeyedBy(discovered);
    var merged := MergedAll(keyed, seeds, host);
    var snap := SnapshotOf(discovered, seeds, host, runDate);
    MergedRegistryValid(discovered, seeds, host);
    MergedAllSeeds(keyed, seeds, host);
    SnapshotPositions(merged, runDate);
    forall seed | seed in seeds
      ensures exists k :: 0 <= k < |snap| && snap[k].id == seed.id && Truthy(snap[k].topic)
    {
      var k := FindId(merged, seed.id).value;
      assert snap[k].id == seed.id;
    }
  }

  /** Every record of the snapshot has one of the four statuses. */
  lemma SnapshotStatuses(discovered: seq<Instrument>, seeds: seq<Seed>, host: Host, runDate: string)
    requires forall x :: x in discovered ==> x.status.None?
    ensures forall x :: x in SnapshotOf(discovered, seeds, host, runDate) ==>
      x.status.Some? && IsStatus(x.status.value)
  {
    var merged := MergedAll(KeyedBy(discovered), seeds, host);
    var snap := SnapshotOf(discovered, seeds, host, runDate);
    MergedRegistryValid(discovered, seeds, host);
    SnapshotPositions(merged, runDate);
    forall x | x in snap ensures x.status.Some? && IsStatus(x.status.value) {
      var k :| 0 <= k < |snap| && snap[k] == x;
      assert merged[k] in merged;
    }
  }

  /** A snapshot record with a repealer is "repealed" and ends on the run date. */
  lemma SnapshotRepealed(discovered: seq<Instrument>, seeds: seq<Seed>, host: Host, runDate: string)
    ensures forall x :: x in SnapshotOf(discovered, seeds, host, runDate) && Truthy(x.repealedBy) ==>
      x.status == Some(Repealed) && x.effectiveTo == Some(runDate)
  {
    var merged := MergedAll(KeyedBy(discovered), seeds, host);
    var t := Inferred(DefaultedAll(merged));
    var snap := SnapshotOf(discovered, seeds, host, runDate);
    forall x | x in snap && Truthy(x.repealedBy)
      ensures x.status == Some(Repealed) && x.effectiveTo == Some(runDate)
    {
      var k :| 0 <= k < |snap| && snap[k] == x;
      DerivePrecedence(t[k], runDate);
    }
  }

  /** A run aborts exactly when an index page cannot be fetched. Otherwise its snapshot has
      the properties of `SnapshotFacts`, the in-force view is the snapshot without repealed
      records, the diff is taken against the previous snapshot (empty when there is none),
      and it is written exactly when a previous snapshot exists. */
  lemma SyncFacts(prev: Option<seq<Instrument>>, cfg: Sources, host: Host, runDate: string, generatedAt: string)
    ensures SyncOf(prev, cfg, host, runDate, generatedAt).Aborted? <==>
      exists i :: 0 <= i < |cfg.indexPages| && host.fetchIndex(cfg.indexPages[i]).IndexFailed?
    ensures SyncOf(prev, cfg, host, runDate, generatedAt).Synced? ==>
      var r := SyncOf(prev, cfg, host, runDate, generatedAt);
      DistinctIds(r.snapshot) &&
      (forall x :: x in r.snapshot ==> x.status.Some? && IsStatus(x.status.value)) &&
      (forall x :: x in r.inForce <==> x in r.snapshot && x.status != Some(Repealed)) &&
      r.diff == DiffOf(prev.GetOr([]), r.snapshot, generatedAt) &&
      (r.diffWritten <==> prev.Some?)
  {
    DiscoverAllFails(cfg.indexPages, host);
    DiscoverAllFresh(cfg.indexPages, host);
    var found := DiscoverAll(cfg.indexPages, host);
    if found.Some? {
      SnapshotFacts(found.value, cfg.instruments, host, runDate);
    }
  }
}
