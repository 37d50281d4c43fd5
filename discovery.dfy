/**
 * Discovery post-processing (`parseMohreIndex`, sync-laws.mjs:42-55) once the
 * index page has been fetched and its links extracted: keep the links whose
 * label names an instrument, clean each label into a title, drop empty
 * titles, and key the items by the slug of their title, the last item with a
 * slug winning.
 */
module Discovery {
  import opened Wrappers
  import opened Text
  import opened Slug
  import opened Instruments

  /** An extracted `<a>`: its `href` and its label with the tags removed. */
  datatype Link = Link(href: string, text: string)

  /** The alternatives of the label filter at sync-laws.mjs:45, as written (one twice). */
  const LabelKeywords: seq<string> :=
    ["decree", "law", "resolution", "regulation", "domestic", "emiratisation", "emiratisation"]

  predicate IsInstrumentLabel(text: string) {
    ContainsAnyIgnoringCase(text, LabelKeywords)
  }

  /** `links.filter(a => /decree|law|.../i.test(a.text))`. */
  function InstrumentLinks(links: seq<Link>): (r: seq<Link>)
    ensures forall l :: l in r <==> l in links && IsInstrumentLabel(l.text)
    decreases |links|
  {
    if |links| == 0 then []
    else
      var rest := InstrumentLinks(links[1..]);
      assert links == [links[0]] + links[1..];
      if IsInstrumentLabel(links[0].text) then [links[0]] + rest else rest
  }

  /** The filter keeps order and repetitions: filtering a concatenation filters each part. */
  lemma {:induction false} InstrumentLinksAppend(a: seq<Link>, b: seq<Link>)
    ensures InstrumentLinks(a + b) == InstrumentLinks(a) + InstrumentLinks(b)
    decreases |a|
  {
    if |a| == 0 {
      assert a + b == b;
    } else {
      assert (a + b)[0] == a[0] && (a + b)[1..] == a[1..] + b;
      InstrumentLinksAppend(a[1..], b);
      if IsInstrumentLabel(a[0].text) {
        assert [a[0]] + (InstrumentLinks(a[1..]) + InstrumentLinks(b))
            == ([a[0]] + InstrumentLinks(a[1..])) + InstrumentLinks(b);
      }
    }
  }

  /** The characters `/[\u200B-\u200D\uFEFF]/g` removes. */
  predicate IsZeroWidth(c: char) {
    (0x200B <= c as int <= 0x200D) || c as int == 0xFEFF
  }

  /** `replace(/[\u200B-\u200D\uFEFF]/g, "")`. */
  function RemoveZeroWidth(s: string): (r: string)
    ensures forall i :: 0 <= i < |r| ==> !IsZeroWidth(r[i]) && r[i] in s
    ensures (forall i :: 0 <= i < |s| ==> !IsZeroWidth(s[i])) ==> r == s
    decreases |s|
  {
    if |s| == 0 then []
    else
      assert s == [s[0]] + s[1..];
      (if IsZeroWidth(s[0]) then [] else [s[0]]) + RemoveZeroWidth(s[1..])
  }

  /** Removal works character by character: removing from a concatenation removes from
      each part. */
  lemma {:induction false} RemoveZeroWidthAppend(a: string, b: string)
    ensures RemoveZeroWidth(a + b) == RemoveZeroWidth(a) + RemoveZeroWidth(b)
    decreases |a|
  {
    if |a| == 0 {
      assert a + b == b;
    } else {
      var head := if IsZeroWidth(a[0]) then [] else [a[0]];
      assert (a + b)[0] == a[0] && (a + b)[1..] == a[1..] + b;
      RemoveZeroWidthAppend(a[1..], b);
      assert head + (RemoveZeroWidth(a[1..]) + RemoveZeroWidth(b))
          == (head + RemoveZeroWidth(a[1..])) + RemoveZeroWidth(b);
    }
  }

  /** `s` without its trailing whitespace. */
  function DropTrailingSpaces(s: string): (r: string)
    ensures r <= s
    ensures |r| > 0 ==> !IsSpace(r[|r| - 1])
    decreases |s|
  {
    if |s| > 0 && IsSpace(s[|s| - 1]) then DropTrailingSpaces(s[..|s| - 1]) else s
  }

  lemma PrefixMembers(a: string, b: string)
    requires a <= b
    ensures forall c :: c in a ==> c in b
  {
    assert forall i :: 0 <= i < |a| ==> a[i] == b[i];
  }

  /** `trim()`: whitespace removed from both ends. */
  function Trim(s: string): (r: string)
    ensures |r| > 0 ==> !IsSpace(r[0]) && !IsSpace(r[|r| - 1])
    ensures forall i :: 0 <= i < |r| ==> r[i] in s
  {
    var d := DropSpaces(s);
    DropSpacesSuffix(s);
    var r := DropTrailingSpaces(d);
    PrefixMembers(r, d);
    r
  }

  /** What trailing-whitespace removal drops is all whitespace. */
  lemma {:induction false} DropTrailingSpacesTail(s: string)
    ensures forall k :: |DropTrailingSpaces(s)| <= k < |s| ==> IsSpace(s[k])
    decreases |s|
  {
    if |s| > 0 && IsSpace(s[|s| - 1]) {
      var init := s[..|s| - 1];
      DropTrailingSpacesTail(init);
      forall k | |DropTrailingSpaces(s)| <= k < |s| - 1 ensures IsSpace(s[k]) {
        assert init[k] == s[k];
      }
    }
  }

  /** `trim()` returns the middle of `s`: what it cuts off at either end is whitespace. */
  lemma {:induction false} TrimIsInfix(s: string)
    ensures exists i, j ::
              0 <= i <= j <= |s| && Trim(s) == s[i..j] &&
              (forall k :: 0 <= k < i ==> IsSpace(s[k])) &&
              (forall k :: j <= k < |s| ==> IsSpace(s[k]))
  {
    var d := DropSpaces(s);
    var r := Trim(s);
    DropSpacesSuffix(s);
    DropTrailingSpacesTail(d);
    var i := |s| - |d|;
    var j := i + |r|;
    assert r == d[..|r|];
    assert s[i..j] == r;
    forall k | j <= k < |s| ensures IsSpace(s[k]) {
      assert s[k] == d[k - i];
    }
  }

  /** A string with no whitespace at either end is its own trim. */
  lemma {:induction false} TrimIdentity(s: string)
    requires |s| > 0 ==> !IsSpace(s[0]) && !IsSpace(s[|s| - 1])
    ensures Trim(s) == s
  {
    assert DropSpaces(s) == s;
  }

  /** The title made from a label (sync-laws.mjs:49). */
  function CleanLabel(text: string): string {
    Trim(RemoveZeroWidth(ReplaceSpaceRuns(text, ' ')))
  }

  /** The characters of `s` that cleaning cannot remove: neither whitespace nor zero-width. */
  function Visible(s: string): string
    decreases |s|
  {
    if |s| == 0 then []
    else (if IsSpace(s[0]) || IsZeroWidth(s[0]) then [] else [s[0]]) + Visible(s[1..])
  }

  lemma {:induction false} VisibleAppend(a: string, b: string)
    ensures Visible(a + b) == Visible(a) + Visible(b)
    decreases |a|
  {
    if |a| == 0 {
      assert a + b == b;
    } else {
      assert (a + b)[0] == a[0] && (a + b)[1..] == a[1..] + b;
      VisibleAppend(a[1..], b);
    }
  }

  lemma {:induction false} DropSpacesVisible(s: string)
    ensures Visible(DropSpaces(s)) == Visible(s)
    decreases |s|
  {
    if |s| > 0 && IsSpace(s[0]) {
      DropSpacesVisible(s[1..]);
    }
  }

  lemma {:induction false} DropTrailingSpacesVisible(s: string)
    ensures Visible(DropTrailingSpaces(s)) == Visible(s)
    decreases |s|
  {
    if |s| > 0 && IsSpace(s[|s| - 1]) {
      var init := s[..|s| - 1];
      DropTrailingSpacesVisible(init);
      assert s == init + [s[|s| - 1]];
      VisibleAppend(init, [s[|s| - 1]]);
    }
  }

  lemma {:induction false} ReplaceSpaceRunsVisible(s: string)
    ensures Visible(ReplaceSpaceRuns(s, ' ')) == Visible(s)
    decreases |s|
  {
    if s == [] {
    } else if IsSpace(s[0]) {
      DropSpacesVisible(s);
      ReplaceSpaceRunsVisible(DropSpaces(s));
      VisibleAppend([' '], ReplaceSpaceRuns(DropSpaces(s), ' '));
    } else {
      ReplaceSpaceRunsVisible(s[1..]);
      VisibleAppend([s[0]], ReplaceSpaceRuns(s[1..], ' '));
    }
  }

  lemma {:induction false} RemoveZeroWidthVisible(s: string)
    ensures Visible(RemoveZeroWidth(s)) == Visible(s)
    decreases |s|
  {
    if |s| > 0 {
      RemoveZeroWidthVisible(s[1..]);
      VisibleAppend(if IsZeroWidth(s[0]) then [] else [s[0]], RemoveZeroWidth(s[1..]));
    }
  }

  /** Cleaning a label keeps every character that is neither whitespace nor zero-width, in
      order; the title it gives has no whitespace at either end, no zero-width character and
      no whitespace other than plain spaces; and the title is empty exactly when the label
      has nothing but whitespace and zero-width characters. */
  lemma CleanLabelFacts(text: string)
    ensures Visible(CleanLabel(text)) == Visible(text)
    ensures |CleanLabel(text)| > 0 ==>
      !IsSpace(CleanLabel(text)[0]) && !IsSpace(CleanLabel(text)[|CleanLabel(text)| - 1])
    ensures forall i :: 0 <= i < |CleanLabel(text)| ==>
      !IsZeroWidth(CleanLabel(text)[i]) && (IsSpace(CleanLabel(text)[i]) ==> CleanLabel(text)[i] == ' ')
    ensures CleanLabel(text) == "" <==> Visible(text) == ""
  {
    var a := ReplaceSpaceRuns(text, ' ');
    var b := RemoveZeroWidth(a);
    var t := CleanLabel(text);
    ReplaceSpaceRunsVisible(text);
    RemoveZeroWidthVisible(a);
    DropSpacesVisible(b);
    DropTrailingSpacesVisible(DropSpaces(b));
    if |t| > 0 {
      assert t == [t[0]] + t[1..];
      VisibleAppend([t[0]], t[1..]);
    }
  }

  /** A label of visible characters only is its own title. */
  lemma {:induction false} CleanLabelOfVisible(a: string)
    requires forall i :: 0 <= i < |a| ==> !IsSpace(a[i]) && !IsZeroWidth(a[i])
    ensures CleanLabel(a) == a
  {
    ReplaceSpaceRunsIdentity(a, ' ');
    TrimIdentity(a);
  }

  /** Whitespace between two visible words becomes exactly one space in the title. */
  lemma {:induction false} CleanLabelJoinsWords(a: string, w: string, b: string)
    requires |a| > 0 && forall i :: 0 <= i < |a| ==> !IsSpace(a[i]) && !IsZeroWidth(a[i])
    requires |b| > 0 && forall i :: 0 <= i < |b| ==> !IsSpace(b[i]) && !IsZeroWidth(b[i])
    requires |w| > 0 && forall i :: 0 <= i < |w| ==> IsSpace(w[i])
    ensures CleanLabel(a + w + b) == a + " " + b
  {
    ReplaceSpaceRunsSplit(a, w, b, ' ');
    ReplaceSpaceRunsIdentity(a, ' ');
    ReplaceSpaceRunsIdentity(b, ' ');
    var t := a + " " + b;
    assert ReplaceSpaceRuns(a + w + b, ' ') == t;
    assert forall i :: 0 <= i < |t| ==> !IsZeroWidth(t[i]);
    assert t[0] == a[0] && t[|t| - 1] == b[|b| - 1];
    TrimIdentity(t);
  }

  /** The record discovery makes for a kept link (sync-laws.mjs:51). */
  function ItemOf(url: string, l: Link, absolute: (string, string) -> string): Instrument {
    var t := CleanLabel(l.text);
    NewInstrument(SlugFromTitle(t), Some(t), Some(absolute(url, l.href)))
  }

  /** `items` after the loop at sync-laws.mjs:48-52 over the links `ls`. */
  function IndexItems(url: string, ls: seq<Link>, absolute: (string, string) -> string): seq<Instrument>
    decreases |ls|
  {
    if |ls| == 0 then []
    else
      var rest := IndexItems(url, ls[..|ls| - 1], absolute);
      var l := ls[|ls| - 1];
      if CleanLabel(l.text) == "" then rest else rest + [ItemOf(url, l, absolute)]
  }

  /** What `parseMohreIndex(url)` returns for the extracted links `links`. */
  function Discovered(url: string, links: seq<Link>, absolute: (string, string) -> string): seq<Instrument> {
    KeyedBy(IndexItems(url, InstrumentLinks(links), absolute))
  }

  lemma LinksInitLast(ls: seq<Link>)
    requires |ls| > 0
    ensures forall l :: l in ls <==> l in ls[..|ls| - 1] || l == ls[|ls| - 1]
  {
    assert ls == ls[..|ls| - 1] + [ls[|ls| - 1]];
  }

  lemma {:induction false} IndexItemsMembers(url: string, ls: seq<Link>, absolute: (string, string) -> string)
    ensures forall x :: x in IndexItems(url, ls, absolute) <==>
      exists l :: l in ls && CleanLabel(l.text) != "" && x == ItemOf(url, l, absolute)
    decreases |ls|
  {
    if |ls| > 0 {
      var init, last := ls[..|ls| - 1], ls[|ls| - 1];
      var rest := IndexItems(url, init, absolute);
      IndexItemsMembers(url, init, absolute);
      LinksInitLast(ls);
      if CleanLabel(last.text) == "" {
        assert IndexItems(url, ls, absolute) == rest;
      } else {
        assert IndexItems(url, ls, absolute) == rest + [ItemOf(url, last, absolute)];
      }
    }
  }

  /** The discovered records have distinct ids, and each is the record of a link whose label
      names an instrument and cleans to a non-empty title, keyed by that title's slug. */
  lemma DiscoveredRecords(url: string, links: seq<Link>, absolute: (string, string) -> string)
    ensures DistinctIds(Discovered(url, links, absolute))
    ensures forall x :: x in Discovered(url, links, absolute) ==>
      exists l :: l in links && IsInstrumentLabel(l.text) && CleanLabel(l.text) != "" &&
        x == ItemOf(url, l, absolute)
    ensures forall x :: x in Discovered(url, links, absolute) ==>
      x.title.Some? && x.title.value != "" && x.id == SlugFromTitle(x.title.value)
  {
    var items := IndexItems(url, InstrumentLinks(links), absolute);
    var out := Discovered(url, links, absolute);
    KeyedByContents(items);
    IndexItemsMembers(url, InstrumentLinks(links), absolute);
    forall x | x in out
      ensures exists l :: (l in links && IsInstrumentLabel(l.text) && CleanLabel(l.text) != "" &&
                           x == ItemOf(url, l, absolute))
    {
      LookupMember(out, x);
      assert x in items;
    }
  }

  /** Every link whose label names an instrument and cleans to a non-empty title has its slug
      discovered, holding the record of the last such link with that slug. */
  lemma DiscoveredComplete(url: string, links: seq<Link>, absolute: (string, string) -> string)
    ensures forall l :: l in links && IsInstrumentLabel(l.text) && CleanLabel(l.text) != "" ==>
      SlugFromTitle(CleanLabel(l.text)) in IdSet(Discovered(url, links, absolute))
    ensures forall id :: id in IdSet(Discovered(url, links, absolute)) ==>
      id in IdSet(IndexItems(url, InstrumentLinks(links), absolute)) &&
      Lookup(Discovered(url, links, absolute), id) ==
        Some(LastWith(IndexItems(url, InstrumentLinks(links), absolute), id))
  {
    var items := IndexItems(url, InstrumentLinks(links), absolute);
    KeyedByContents(items);
    IndexItemsMembers(url, InstrumentLinks(links), absolute);
    forall l | l in links && IsInstrumentLabel(l.text) && CleanLabel(l.text) != ""
      ensures SlugFromTitle(CleanLabel(l.text)) in IdSet(items)
    {
      assert ItemOf(url, l, absolute) in items;
    }
  }

  /** The loop at sync-laws.mjs:48-52 that builds `items` from the kept links. */
  method CollectItems(url: string, kept: seq<Link>, absolute: (string, string) -> string)
    returns (items: seq<Instrument>)
    ensures items == IndexItems(url, kept, absolute)
  {
    items := [];
    for i := 0 to |kept|
      invariant items == IndexItems(url, kept[..i], absolute)
    {
      assert kept[..i + 1][..i] == kept[..i];
      var t := CleanLabel(kept[i].text);
      if t != "" {
        items := items + [NewInstrument(SlugFromTitle(t), Some(t), Some(absolute(url, kept[i].href)))];
      }
    }
    assert kept[..|kept|] == kept;
  }

  /** `parseMohreIndex` after the fetch (sync-laws.mjs:44-55): the keyword filter, the loop
      that builds `items`, then the loop that keys them in the plain object `uniq`. */
  method ParseIndex(url: string, links: seq<Link>, absolute: (string, string) -> string)
    returns (out: seq<Instrument>)
    ensures out == Discovered(url, links, absolute)
  {
    var items := CollectItems(url, InstrumentLinks(links), absolute);
    out := KeyBy(items);
  }
}
