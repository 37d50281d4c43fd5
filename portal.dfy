/**
 * Portal enrichment: what `enrichFromPortal` derives from the secondary page of
 * one instrument. The page is given as the outcome of fetching it; the fetch
 * itself, the SHA-1 digest and `Date.parse` are supplied by the caller.
 */
module Portal {
  import opened Wrappers
  import opened Text
  import opened Instruments

  /** `p` occurs at `k`, and nowhere between `from` and `k`. */
  predicate FirstMatchFrom(s: string, p: string, from: nat, k: nat) {
    from <= k && MatchAt(s, p, k) && forall q :: from <= q < k ==> !MatchAt(s, p, q)
  }

  /** The first `start` is at `i` and the first `end` after it at `j`. */
  predicate Delimits(html: string, start: string, end: string, i: nat, j: nat) {
    FirstMatchFrom(html, start, 0, i) && FirstMatchFrom(html, end, i + |start|, j)
  }

  /** `textBetween(html, start, end)`: the text after the first `start` up to the first
      `end` that follows it, or "" when either is missing. */
  function TextBetween(html: string, start: string, end: string): (r: string)
    ensures (forall k: nat :: !MatchAt(html, start, k)) ==> r == ""
    ensures forall i: nat :: FirstMatchFrom(html, start, 0, i) ==>
      ((forall j: nat :: i + |start| <= j ==> !MatchAt(html, end, j)) ==> r == "")
    ensures forall i: nat, j: nat :: Delimits(html, start, end, i, j) ==> r == html[i + |start|..j]
  {
    match IndexOf(html, start, 0)
    case None => ""
    case Some(i) =>
      match IndexOf(html, end, i + |start|)
      case None => ""
      case Some(j) => html[i + |start|..j]
  }

  /** What `textBetween` returns never contains `end`, and when it is not empty it is the
      text immediately after the first `start`. */
  lemma TextBetweenStopsAtEnd(html: string, start: string, end: string)
    requires |end| > 0
    ensures forall q: nat :: !MatchAt(TextBetween(html, start, end), end, q)
    ensures TextBetween(html, start, end) != "" ==>
      exists i: nat, j: nat :: Delimits(html, start, end, i, j) && TextBetween(html, start, end) == html[i + |start|..j]
  {
    var r := TextBetween(html, start, end);
    if r != "" {
      var i := IndexOf(html, start, 0).value;
      var j := IndexOf(html, end, i + |start|).value;
      assert Delimits(html, start, end, i, j);
      forall q: nat ensures !MatchAt(r, end, q) {
        NoEndInside(html, end, i + |start|, j, q);
      }
    }
  }

  lemma NoEndInside(html: string, end: string, a: nat, j: nat, q: nat)
    requires |end| > 0 && FirstMatchFrom(html, end, a, j)
    ensures !MatchAt(html[a..j], end, q)
  {
    if MatchAt(html[a..j], end, q) {
      var inner := html[a..j];
      var x := html[a + q..a + q + |end|];
      var y := inner[q..q + |end|];
      forall t | 0 <= t < |end| ensures x[t] == y[t] {
        assert y[t] == inner[q + t] == html[a + q + t];
      }
      assert x == y;
      assert MatchAt(html, end, a + q);
    }
  }

  /** `/^\d{4}-\d{2}-\d{2}$/`. */
  predicate IsIsoDate(d: string) {
    |d| == 10 && IsDigit(d[0]) && IsDigit(d[1]) && IsDigit(d[2]) && IsDigit(d[3]) && d[4] == '-'
    && IsDigit(d[5]) && IsDigit(d[6]) && d[7] == '-' && IsDigit(d[8]) && IsDigit(d[9])
  }

  /** `normaliseDate`: null or empty gives null, an ISO date passes through unchanged, and
      anything else is handed to `Date.parse` (`dateParse`, which yields the ISO date or null). */
  function NormaliseDate(d: Option<string>, dateParse: string -> Option<string>): (r: Option<string>)
    ensures !Truthy(d) ==> r.None?
    ensures Truthy(d) && IsIsoDate(d.value) ==> r == d
    ensures Truthy(d) && !IsIsoDate(d.value) ==> r == dateParse(d.value)
  {
    if !Truthy(d) then None
    else if IsIsoDate(d.value) then d
    else dateParse(d.value)
  }

  /** When `Date.parse` followed by `toISOString().slice(0, 10)` yields ISO dates, so does
      `normaliseDate`, and normalising a second time changes nothing. */
  lemma NormaliseDateIsIso(d: Option<string>, dateParse: string -> Option<string>)
    requires forall s :: dateParse(s).Some? ==> IsIsoDate(dateParse(s).value)
    ensures NormaliseDate(d, dateParse).Some? ==> IsIsoDate(NormaliseDate(d, dateParse).value)
    ensures NormaliseDate(NormaliseDate(d, dateParse), dateParse) == NormaliseDate(d, dateParse)
  {
    var r := NormaliseDate(d, dateParse);
    if r.Some? {
      assert IsIsoDate(r.value);
      assert r.value != "";
    }
  }

  /** An ISO-shaped date starts at `k` (`/\d{4}-\d{2}-\d{2}/`). */
  predicate IsoAt(s: string, k: nat) {
    k + 10 <= |s| && IsIsoDate(s[k..k + 10])
  }

  /** The leftmost ISO-shaped date at or after `from`. */
  function FirstIsoAt(s: string, from: nat): (r: Option<nat>)
    requires from <= |s|
    ensures r.Some? ==> from <= r.value && IsoAt(s, r.value)
    ensures r.Some? ==> forall k :: from <= k < r.value ==> !IsoAt(s, k)
    ensures r.None? ==> forall k :: from <= k ==> !IsoAt(s, k)
    decreases |s| - from
  {
    if from + 10 > |s| then None
    else if IsoAt(s, from) then Some(from)
    else FirstIsoAt(s, from + 1)
  }

  /** The length of the whitespace run starting at `k`. */
  function SpaceRun(s: string, k: nat): (n: nat)
    requires k <= |s|
    ensures k + n <= |s|
    decreases |s| - k
  {
    if k < |s| && IsSpace(s[k]) then 1 + SpaceRun(s, k + 1) else 0
  }

  /** The length of the `\w` run starting at `k`. */
  function WordRun(s: string, k: nat): (n: nat)
    requires k <= |s|
    ensures k + n <= |s|
    decreases |s| - k
  {
    if k < |s| && IsWordChar(s[k]) then 1 + WordRun(s, k + 1) else 0
  }

  /** What each run covers: whitespace throughout, then something that is not whitespace. */
  lemma {:induction false} SpaceRunSpans(s: string, k: nat)
    requires k <= |s|
    ensures forall i :: k <= i < k + SpaceRun(s, k) ==> IsSpace(s[i])
    ensures k + SpaceRun(s, k) < |s| ==> !IsSpace(s[k + SpaceRun(s, k)])
    decreases |s| - k
  {
    if k < |s| && IsSpace(s[k]) {
      SpaceRunSpans(s, k + 1);
    }
  }

  lemma {:induction false} WordRunSpans(s: string, k: nat)
    requires k <= |s|
    ensures forall i :: k <= i < k + WordRun(s, k) ==> IsWordChar(s[i])
    ensures k + WordRun(s, k) < |s| ==> !IsWordChar(s[k + WordRun(s, k)])
    decreases |s| - k
  {
    if k < |s| && IsWordChar(s[k]) {
      WordRunSpans(s, k + 1);
    }
  }

  /** A whitespace stretch of length `m` that nothing further extends is the run. */
  lemma {:induction false} SpaceRunIs(s: string, k: nat, m: nat)
    requires k + m <= |s| && forall i :: k <= i < k + m ==> IsSpace(s[i])
    requires k + m < |s| ==> !IsSpace(s[k + m])
    ensures SpaceRun(s, k) == m
    decreases m
  {
    if m > 0 {
      SpaceRunIs(s, k + 1, m - 1);
    }
  }

  lemma {:induction false} WordRunIs(s: string, k: nat, m: nat)
    requires k + m <= |s| && forall i :: k <= i < k + m ==> IsWordChar(s[i])
    requires k + m < |s| ==> !IsWordChar(s[k + m])
    ensures WordRun(s, k) == m
    decreases m
  {
    if m > 0 {
      WordRunIs(s, k + 1, m - 1);
    }
  }

  /** `\s` shares no character with `\d` or `\w`. */
  lemma SpaceIsNotWord(c: char)
    requires IsSpace(c)
    ensures !IsDigit(c) && !IsWordChar(c)
  {
  }

  /** `s` holds, from `k`, `d` digits, `w1` whitespace characters, `w` word characters,
      `w2` whitespace characters and four digits: one way `/\d{1,2}\s+\w+\s+\d{4}/` can
      match there. */
  predicate DayMonthYearSpan(s: string, k: nat, d: nat, w1: nat, w: nat, w2: nat) {
    var b := k + d + w1;
    var c := b + w;
    var e := c + w2;
    1 <= d <= 2 && w1 > 0 && w > 0 && w2 > 0 && e + 4 <= |s| &&
    (forall i :: k <= i < k + d ==> IsDigit(s[i])) &&
    (forall i :: k + d <= i < b ==> IsSpace(s[i])) &&
    (forall i :: b <= i < c ==> IsWordChar(s[i])) &&
    (forall i :: c <= i < e ==> IsSpace(s[i])) &&
    (forall i :: e <= i < e + 4 ==> IsDigit(s[i]))
  }

  /** The pattern matches the `n` characters of `s` from `k`. */
  ghost predicate DayMonthYearMatch(s: string, k: nat, n: nat) {
    0 < n && k + n <= |s| &&
    exists d: nat, w1: nat, w: nat, w2: nat :: DayMonthYearSpan(s, k, d, w1, w, w2) && n == d + w1 + w + w2 + 4
  }

  /** The length of the match of `/\d{1,2}\s+\w+\s+\d{4}/` starting at `k`, if any. Every
      quantifier in the pattern is followed by a class it cannot share a character with,
      so backtracking never succeeds where the greedy choice fails and the match is unique. */
  function DayMonthYearAt(s: string, k: nat): (r: Option<nat>)
    requires k <= |s|
    ensures r.Some? ==> 0 < r.value && k + r.value <= |s| && IsDigit(s[k])
  {
    if k >= |s| || !IsDigit(s[k]) then None
    else
      var a := if k + 1 < |s| && IsDigit(s[k + 1]) then k + 2 else k + 1;
      var w1 := SpaceRun(s, a);
      var b := a + w1;
      var w := WordRun(s, b);
      var c := b + w;
      var w2 := SpaceRun(s, c);
      var e := c + w2;
      if w1 > 0 && w > 0 && w2 > 0 && e + 4 <= |s|
         && IsDigit(s[e]) && IsDigit(s[e + 1]) && IsDigit(s[e + 2]) && IsDigit(s[e + 3])
      then Some(e + 4 - k)
      else None
  }

  /** What `DayMonthYearAt` finds is a match of the pattern at `k`. */
  lemma {:induction false} DayMonthYearAtSound(s: string, k: nat)
    requires k <= |s|
    ensures DayMonthYearAt(s, k).Some? ==> DayMonthYearMatch(s, k, DayMonthYearAt(s, k).value)
  {
    if DayMonthYearAt(s, k).Some? {
      var a := if k + 1 < |s| && IsDigit(s[k + 1]) then k + 2 else k + 1;
      var w1 := SpaceRun(s, a);
      var w := WordRun(s, a + w1);
      var w2 := SpaceRun(s, a + w1 + w);
      var e := a + w1 + w + w2;
      assert w1 > 0 && w > 0 && w2 > 0 && e + 4 <= |s| && DayMonthYearAt(s, k).value == e + 4 - k;
      RunsSpan(s, k, a - k, w1, w, w2);
    }
  }

  /** Digits, then the three maximal runs, then four digits make a span of the pattern. */
  lemma {:induction false} RunsSpan(s: string, k: nat, d: nat, w1: nat, w: nat, w2: nat)
    requires 1 <= d <= 2 && k + d <= |s| && forall i :: k <= i < k + d ==> IsDigit(s[i])
    requires w1 == SpaceRun(s, k + d) && w == WordRun(s, k + d + w1) && w2 == SpaceRun(s, k + d + w1 + w)
    requires w1 > 0 && w > 0 && w2 > 0 && k + d + w1 + w + w2 + 4 <= |s|
    requires forall i :: k + d + w1 + w + w2 <= i < k + d + w1 + w + w2 + 4 ==> IsDigit(s[i])
    ensures DayMonthYearSpan(s, k, d, w1, w, w2)
  {
    SpaceRunSpans(s, k + d);
    WordRunSpans(s, k + d + w1);
    SpaceRunSpans(s, k + d + w1 + w);
  }

  /** Any match of the pattern at `k` is the one `DayMonthYearAt` finds: each quantifier is
      followed by a class it shares no character with, so each run is taken whole. */
  lemma {:induction false} DayMonthYearAtComplete(s: string, k: nat, d: nat, w1: nat, w: nat, w2: nat)
    requires DayMonthYearSpan(s, k, d, w1, w, w2)
    ensures DayMonthYearAt(s, k) == Some(d + w1 + w + w2 + 4)
  {
    SpanRuns(s, k, d, w1, w, w2);
    var e := k + d + w1 + w + w2;
    assert IsDigit(s[e]) && IsDigit(s[e + 1]) && IsDigit(s[e + 2]) && IsDigit(s[e + 3]);
  }

  /** Over a span of the pattern, the digit prefix and the three runs measure exactly its
      parts. */
  lemma {:induction false} SpanRuns(s: string, k: nat, d: nat, w1: nat, w: nat, w2: nat)
    requires DayMonthYearSpan(s, k, d, w1, w, w2)
    ensures k < |s| && IsDigit(s[k])
    ensures k + d == if k + 1 < |s| && IsDigit(s[k + 1]) then k + 2 else k + 1
    ensures SpaceRun(s, k + d) == w1
    ensures WordRun(s, k + d + w1) == w
    ensures SpaceRun(s, k + d + w1 + w) == w2
  {
    var a := k + d;
    if d == 1 {
      SpaceIsNotWord(s[k + 1]);
    }
    SpaceIsNotWord(s[a]);
    SpaceRunIs(s, a, w1);
    SpaceIsNotWord(s[a + w1 + w]);
    WordRunIs(s, a + w1, w);
    SpaceIsNotWord(s[a + w1 + w + w2 - 1]);
    SpaceRunIs(s, a + w1 + w, w2);
  }

  /** `DayMonthYearAt` answers exactly whether, and over how many characters, the pattern
      matches at `k`. */
  lemma {:induction false} DayMonthYearAtMatches(s: string, k: nat)
    requires k <= |s|
    ensures DayMonthYearAt(s, k).Some? ==> DayMonthYearMatch(s, k, DayMonthYearAt(s, k).value)
    ensures forall n: nat :: DayMonthYearMatch(s, k, n) ==> DayMonthYearAt(s, k) == Some(n)
  {
    DayMonthYearAtSound(s, k);
    forall n: nat | DayMonthYearMatch(s, k, n) ensures DayMonthYearAt(s, k) == Some(n) {
      MatchIsFound(s, k, n);
    }
  }

  lemma {:induction false} MatchIsFound(s: string, k: nat, n: nat)
    requires DayMonthYearMatch(s, k, n)
    ensures DayMonthYearAt(s, k) == Some(n)
  {
    var d: nat, w1: nat, w: nat, w2: nat :| DayMonthYearSpan(s, k, d, w1, w, w2) && n == d + w1 + w + w2 + 4;
    DayMonthYearAtComplete(s, k, d, w1, w, w2);
  }

  /** The leftmost day-month-year match at or after `from`, as its text. */
  function FirstDayMonthYear(s: string, from: nat): (r: Option<string>)
    requires from <= |s|
    ensures r.Some? ==> r.value != ""
    decreases |s| - from
  {
    if from >= |s| then None
    else match DayMonthYearAt(s, from)
      case Some(n) => Some(s[from..from + n])
      case None => FirstDayMonthYear(s, from + 1)
  }

  /** `FirstDayMonthYear` takes what the search finds at the first position, at or after
      `from`, where it finds something. */
  lemma {:induction false} FirstDayMonthYearFinds(s: string, from: nat)
    requires from <= |s|
    ensures FirstDayMonthYear(s, from).None? <==> forall k :: from <= k < |s| ==> DayMonthYearAt(s, k).None?
    ensures FirstDayMonthYear(s, from).Some? ==>
      exists k :: from <= k < |s| && DayMonthYearAt(s, k).Some? &&
        FirstDayMonthYear(s, from).value == s[k..k + DayMonthYearAt(s, k).value] &&
        forall q :: from <= q < k ==> DayMonthYearAt(s, q).None?
    decreases |s| - from
  {
    if from < |s| && DayMonthYearAt(s, from).None? {
      FirstDayMonthYearFinds(s, from + 1);
      if FirstDayMonthYear(s, from).Some? {
        var k :| from + 1 <= k < |s| && DayMonthYearAt(s, k).Some? &&
          FirstDayMonthYear(s, from + 1).value == s[k..k + DayMonthYearAt(s, k).value] &&
          forall q :: from + 1 <= q < k ==> DayMonthYearAt(s, q).None?;
        assert forall q :: from <= q < k ==> DayMonthYearAt(s, q).None?;
      }
    }
  }

  /** `FirstDayMonthYear` is the text of the leftmost match at or after `from`, and is
      nothing exactly when there is no match there. */
  lemma {:induction false} FirstDayMonthYearLeftmost(s: string, from: nat)
    requires from <= |s|
    ensures FirstDayMonthYear(s, from).None? <==>
      forall k: nat, n: nat :: from <= k ==> !DayMonthYearMatch(s, k, n)
    ensures FirstDayMonthYear(s, from).Some? ==>
      exists k: nat, n: nat :: from <= k && DayMonthYearMatch(s, k, n) &&
        FirstDayMonthYear(s, from).value == s[k..k + n] &&
        forall q: nat, m: nat :: from <= q < k ==> !DayMonthYearMatch(s, q, m)
  {
    FirstDayMonthYearNone(s, from);
    FirstDayMonthYearSome(s, from);
  }

  lemma {:induction false} FirstDayMonthYearNone(s: string, from: nat)
    requires from <= |s|
    ensures FirstDayMonthYear(s, from).None? <==>
      forall k: nat, n: nat :: from <= k ==> !DayMonthYearMatch(s, k, n)
  {
    FirstDayMonthYearFinds(s, from);
    if FirstDayMonthYear(s, from).None? {
      forall k: nat, n: nat | from <= k ensures !DayMonthYearMatch(s, k, n) {
        if k <= |s| {
          DayMonthYearAtMatches(s, k);
        }
      }
    } else {
      forall k | from <= k < |s| && DayMonthYearAt(s, k).Some?
        ensures DayMonthYearMatch(s, k, DayMonthYearAt(s, k).value)
      {
        DayMonthYearAtMatches(s, k);
      }
    }
  }

  lemma {:induction false} FirstDayMonthYearSome(s: string, from: nat)
    requires from <= |s|
    ensures FirstDayMonthYear(s, from).Some? ==>
      exists k: nat, n: nat :: from <= k && DayMonthYearMatch(s, k, n) &&
        FirstDayMonthYear(s, from).value == s[k..k + n] &&
        forall q: nat, m: nat :: from <= q < k ==> !DayMonthYearMatch(s, q, m)
  {
    FirstDayMonthYearFinds(s, from);
    if FirstDayMonthYear(s, from).Some? {
      var k :| from <= k < |s| && DayMonthYearAt(s, k).Some? &&
        FirstDayMonthYear(s, from).value == s[k..k + DayMonthYearAt(s, k).value] &&
        forall q :: from <= q < k ==> DayMonthYearAt(s, q).None?;
      var n := DayMonthYearAt(s, k).value;
      DayMonthYearAtMatches(s, k);
      forall q: nat, m: nat | from <= q < k ensures !DayMonthYearMatch(s, q, m) {
        DayMonthYearAtMatches(s, q);
      }
      assert DayMonthYearMatch(s, k, n);
    }
  }

  /** The date text found in the "Effective Date" block: the leftmost ISO date, otherwise
      the leftmost day-month-year text, otherwise nothing. */
  function EffectiveDateText(block: string): (r: Option<string>)
    ensures r.Some? ==> r.value != ""
    ensures (exists k: nat :: IsoAt(block, k)) ==>
      r.Some? && IsIsoDate(r.value) &&
      (exists k: nat :: IsoAt(block, k) && r.value == block[k..k + 10] && forall q: nat :: q < k ==> !IsoAt(block, q))
  {
    match FirstIsoAt(block, 0)
    case Some(k) => Some(block[k..k + 10])
    case None => FirstDayMonthYear(block, 0)
  }

  /** With no ISO date in the block, the date text is the leftmost day-month-year match;
      there is none exactly when neither pattern matches anywhere. */
  lemma {:induction false} EffectiveDateTextFallback(block: string)
    ensures EffectiveDateText(block).None? <==>
      (forall k: nat :: !IsoAt(block, k)) && forall k: nat, n: nat :: !DayMonthYearMatch(block, k, n)
    ensures (forall k: nat :: !IsoAt(block, k)) && EffectiveDateText(block).Some? ==>
      exists k: nat, n: nat :: DayMonthYearMatch(block, k, n) &&
        EffectiveDateText(block).value == block[k..k + n] &&
        forall q: nat, m: nat :: q < k ==> !DayMonthYearMatch(block, q, m)
  {
    FirstDayMonthYearLeftmost(block, 0);
  }

  const RepealCues := ["repeal", "repealed", "replaced"]
  const AmendCues := ["amend", "amended"]

  /** `/in\s*force|active/i` on the Status block. */
  predicate InForceCue(block: string) {
    ContainsSpaced(Lower(block), ["in", "force"]) || ContainsIgnoringCase(block, "active")
  }

  /** The status a fetched page gives. */
  function PageStatus(html: string): (r: string)
    ensures IsStatus(r)
  {
    if ContainsAnyIgnoringCase(html, RepealCues) then Repealed
    else if InForceCue(TextBetween(html, "Status", "</")) then InForce
    else if ContainsAnyIgnoringCase(html, AmendCues) then Amended
    else Unknown
  }

  /** Status precedence: a repeal cue anywhere wins, then an in-force cue in the Status
      block, then an amendment cue anywhere, and "unknown" only when there is none. */
  lemma PageStatusPrecedence(html: string)
    ensures PageStatus(html) == Repealed <==> ContainsAnyIgnoringCase(html, RepealCues)
    ensures PageStatus(html) == InForce <==>
      !ContainsAnyIgnoringCase(html, RepealCues) && InForceCue(TextBetween(html, "Status", "</"))
    ensures PageStatus(html) == Amended <==>
      !ContainsAnyIgnoringCase(html, RepealCues) && !InForceCue(TextBetween(html, "Status", "</"))
      && ContainsAnyIgnoringCase(html, AmendCues)
    ensures PageStatus(html) == Unknown <==>
      !ContainsAnyIgnoringCase(html, RepealCues) && !InForceCue(TextBetween(html, "Status", "</"))
      && !ContainsAnyIgnoringCase(html, AmendCues)
  {
  }

  /** The outcome of `get(url)` for a portal page: its text, or a failed request. */
  datatype PageFetch = Fetched(html: string) | FetchFailed

  /** `hash(html).slice(0, 12)`. */
  function Prefix(s: string, n: nat): (r: string)
    ensures |r| <= n && r <= s
    ensures r == s[..if |s| < n then |s| else n]
  {
    if |s| <= n then s else s[..n]
  }

  /** The four fields enrichment may set, cleared, so that two records can be compared on the rest. */
  function Unenriched(r: Instrument): Instrument {
    r.(uaePortal := None, status := None, effectiveFrom := None, metaHash := None)
  }

  /** `enrichFromPortal(item, url)` with the page `get(url)` produced. */
  function Enrich(item: Instrument, url: Option<string>, page: PageFetch,
                  sha1Hex: string -> string, dateParse: string -> Option<string>): (r: Instrument)
    ensures !Truthy(url) ==> r == item
    ensures Unenriched(r) == Unenriched(item)
    ensures Truthy(url) ==> r.uaePortal == url
    ensures Truthy(url) && page.FetchFailed? ==>
      r.status == (if Truthy(item.status) then item.status else Some(Unknown))
      && r.effectiveFrom == item.effectiveFrom && r.metaHash == item.metaHash
    ensures Truthy(url) && page.Fetched? ==>
      r.status == Some(PageStatus(page.html))
      && r.effectiveFrom == NormaliseDate(EffectiveDateText(TextBetween(page.html, "Effective Date", "</")), dateParse)
      && r.metaHash == Some(Prefix(sha1Hex(page.html), 12))
  {
    if !Truthy(url) then item
    else match page
      case FetchFailed =>
        item.(uaePortal := url, status := if Truthy(item.status) then item.status else Some(Unknown))
      case Fetched(html) =>
        var effectiveBlock := TextBetween(html, "Effective Date", "</");
        item.(uaePortal := url, status := Some(PageStatus(html)),
              effectiveFrom := NormaliseDate(EffectiveDateText(effectiveBlock), dateParse),
              metaHash := Some(Prefix(sha1Hex(html), 12)))
  }

  /** Enrichment with a URL always leaves a status that is one of the four, whether the
      page came back or not, provided the record had none or a valid one before. */
  lemma EnrichedStatusIsValid(item: Instrument, url: Option<string>, page: PageFetch,
                              sha1Hex: string -> string, dateParse: string -> Option<string>)
    requires item.status.None? || IsStatus(item.status.value)
    requires Truthy(url)
    ensures Enrich(item, url, page, sha1Hex, dateParse).status.Some?
    ensures IsStatus(Enrich(item, url, page, sha1Hex, dateParse).status.value)
  {
  }
}
