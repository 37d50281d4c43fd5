/**
 * Instrument identity: the slug a discovered title is keyed by
 * (`slugFromTitle`: lower-case, keep `[a-z0-9/ ]`, whitespace runs to `-`,
 * hyphen runs to one `-`, first 60 characters).
 */
module Slug {
  import opened Text

  const MaxSlugLength: nat := 60

  /** The characters the second step keeps: `[a-z0-9/ ]`. */
  predicate IsKeptChar(c: char) {
    ('a' <= c <= 'z') || IsDigit(c) || c == '/' || c == ' '
  }

  /** The characters a slug is made of: `[a-z0-9/-]`. */
  predicate IsSlugChar(c: char) {
    ('a' <= c <= 'z') || IsDigit(c) || c == '/' || c == '-'
  }

  /** The characters that carry a title's content into its slug: `[a-z0-9/]`. */
  predicate IsWordPart(c: char) {
    ('a' <= c <= 'z') || IsDigit(c) || c == '/'
  }

  predicate NoDoubleHyphen(s: string) {
    forall i :: 0 <= i < |s| - 1 ==> s[i] != '-' || s[i + 1] != '-'
  }

  /** `replace(/[^a-z0-9/ ]+/g, "")`. */
  function KeepSlugChars(s: string): (r: string)
    ensures forall i :: 0 <= i < |r| ==> IsKeptChar(r[i]) && r[i] in s
    ensures (forall i :: 0 <= i < |s| ==> IsKeptChar(s[i])) ==> r == s
  {
    if s == [] then []
    else (if IsKeptChar(s[0]) then [s[0]] else []) + KeepSlugChars(s[1..])
  }

  /** `replace(/\s+/g, "-")`. */
  function HyphenateSpaces(s: string): (r: string)
    ensures (forall i :: 0 <= i < |s| ==> IsKeptChar(s[i])) ==> forall i :: 0 <= i < |r| ==> IsSlugChar(r[i])
  {
    ReplaceSpaceRuns(s, '-')
  }

  /** The whitespace between two words becomes one hyphen. */
  lemma {:induction false} HyphenateSpacesJoinsWords(a: string, w: string, b: string)
    requires forall i :: 0 <= i < |a| ==> !IsSpace(a[i])
    requires forall i :: 0 <= i < |b| ==> !IsSpace(b[i])
    requires |w| > 0 && forall i :: 0 <= i < |w| ==> IsSpace(w[i])
    ensures HyphenateSpaces(a + w + b) == a + "-" + b
  {
    ReplaceSpaceRunsSplit(a, w, b, '-');
    ReplaceSpaceRunsIdentity(a, '-');
    ReplaceSpaceRunsIdentity(b, '-');
  }

  function DropHyphens(s: string): (r: string)
    ensures |r| <= |s|
    ensures |s| > 0 && s[0] == '-' ==> |r| < |s|
    ensures |r| > 0 ==> r[0] != '-'
  {
    if |s| > 0 && s[0] == '-' then DropHyphens(s[1..]) else s
  }

  lemma {:induction false} DropHyphensSuffix(s: string)
    ensures DropHyphens(s) == s[|s| - |DropHyphens(s)|..]
    ensures forall i :: 0 <= i < |s| - |DropHyphens(s)| ==> s[i] == '-'
    decreases |s|
  {
    if |s| > 0 && s[0] == '-' {
      DropHyphensSuffix(s[1..]);
      var r := DropHyphens(s[1..]);
      assert s[1..][|s| - 1 - |r|..] == s[|s| - |r|..];
      forall i | 1 <= i < |s| - |r| ensures s[i] == '-' {
        assert s[1..][i - 1] == s[i];
      }
    }
  }

  lemma {:induction false} DropHyphensAppend(a: string, b: string)
    ensures DropHyphens(a + b) == if |DropHyphens(a)| > 0 then DropHyphens(a) + b else DropHyphens(b)
    decreases |a|
  {
    if |a| == 0 {
      assert a + b == b;
    } else if a[0] == '-' {
      assert (a + b)[0] == a[0] && (a + b)[1..] == a[1..] + b;
      DropHyphensAppend(a[1..], b);
    }
  }

  /** `replace(/-+/g, "-")`. */
  function CollapseHyphens(s: string): string
    decreases |s|
  {
    if s == [] then []
    else if s[0] == '-' then "-" + CollapseHyphens(DropHyphens(s))
    else [s[0]] + CollapseHyphens(s[1..])
  }

  /** After collapsing, no two hyphens are adjacent, the result starts with a hyphen exactly
      when the input does, and it holds only characters of the input. */
  lemma {:induction false} CollapseHyphensShape(s: string)
    ensures NoDoubleHyphen(CollapseHyphens(s))
    ensures |s| > 0 ==> |CollapseHyphens(s)| > 0 && (CollapseHyphens(s)[0] == '-' <==> s[0] == '-')
    ensures forall i :: 0 <= i < |CollapseHyphens(s)| ==> CollapseHyphens(s)[i] in s
    decreases |s|
  {
    if s == [] {
    } else if s[0] == '-' {
      var d := DropHyphens(s);
      var c := CollapseHyphens(d);
      var r := "-" + c;
      DropHyphensSuffix(s);
      CollapseHyphensShape(d);
      forall i | 0 <= i < |r| - 1 ensures r[i] != '-' || r[i + 1] != '-' {
        if i > 0 {
          assert r[i] == c[i - 1] && r[i + 1] == c[i];
        }
      }
      forall i | 0 <= i < |r| ensures r[i] in s {
        if i > 0 {
          assert r[i] == c[i - 1];
          assert c[i - 1] in d;
        }
      }
    } else {
      var c := CollapseHyphens(s[1..]);
      var r := [s[0]] + c;
      CollapseHyphensShape(s[1..]);
      forall i | 0 <= i < |r| - 1 ensures r[i] != '-' || r[i + 1] != '-' {
        if i > 0 {
          assert r[i] == c[i - 1] && r[i + 1] == c[i];
        }
      }
      forall i | 0 <= i < |r| ensures r[i] in s {
        if i > 0 {
          assert r[i] == c[i - 1];
        }
      }
    }
  }

  /** Two parts that do not meet in hyphens are collapsed separately. */
  lemma {:induction false} CollapseHyphensAppend(a: string, b: string)
    requires |a| == 0 || |b| == 0 || a[|a| - 1] != '-' || b[0] != '-'
    ensures CollapseHyphens(a + b) == CollapseHyphens(a) + CollapseHyphens(b)
    decreases |a|
  {
    if |a| == 0 {
      assert a + b == b;
    } else if a[0] != '-' {
      assert (a + b)[0] == a[0] && (a + b)[1..] == a[1..] + b;
      CollapseHyphensAppend(a[1..], b);
      assert [a[0]] + (CollapseHyphens(a[1..]) + CollapseHyphens(b))
          == ([a[0]] + CollapseHyphens(a[1..])) + CollapseHyphens(b);
    } else {
      var d := DropHyphens(a);
      assert CollapseHyphens(a + b) == "-" + CollapseHyphens(DropHyphens(a + b)) by {
        assert (a + b)[0] == a[0];
      }
      assert CollapseHyphens(a) == "-" + CollapseHyphens(d);
      DropHyphensAppend(a, b);
      DropHyphensSuffix(a);
      if |d| > 0 {
        assert CollapseHyphens(d + b) == CollapseHyphens(d) + CollapseHyphens(b) by {
          assert d[|d| - 1] == a[|a| - 1];
          CollapseHyphensAppend(d, b);
        }
        assert DropHyphens(a + b) == d + b;
        assert "-" + (CollapseHyphens(d) + CollapseHyphens(b))
            == ("-" + CollapseHyphens(d)) + CollapseHyphens(b);
      } else {
        assert DropHyphens(a + b) == b by {
          assert a[|a| - 1] == '-';
        }
        assert CollapseHyphens(d) == [];
      }
    }
  }

  /** A non-empty run of hyphens becomes one hyphen. */
  lemma {:induction false} CollapseHyphensOfHyphens(w: string)
    requires |w| > 0 && forall i :: 0 <= i < |w| ==> w[i] == '-'
    ensures CollapseHyphens(w) == "-"
  {
    DropHyphensSuffix(w);
    assert DropHyphens(w) == [];
  }

  /** A run of hyphens between two parts becomes exactly one hyphen. */
  lemma {:induction false} CollapseHyphensSplit(a: string, w: string, b: string)
    requires |w| > 0 && forall i :: 0 <= i < |w| ==> w[i] == '-'
    requires |a| == 0 || a[|a| - 1] != '-'
    requires |b| == 0 || b[0] != '-'
    ensures CollapseHyphens(a + w + b) == CollapseHyphens(a) + "-" + CollapseHyphens(b)
  {
    var wb := w + b;
    assert CollapseHyphens(wb) == "-" + CollapseHyphens(b) by {
      assert w[|w| - 1] == '-';
      CollapseHyphensAppend(w, b);
      CollapseHyphensOfHyphens(w);
    }
    assert CollapseHyphens(a + wb) == CollapseHyphens(a) + CollapseHyphens(wb) by {
      assert wb[0] == w[0];
      CollapseHyphensAppend(a, wb);
    }
    assert a + w + b == a + wb;
  }

  /** Deleting characters outside `[a-z0-9/ ]` works character by character. */
  lemma {:induction false} KeepSlugCharsAppend(a: string, b: string)
    ensures KeepSlugChars(a + b) == KeepSlugChars(a) + KeepSlugChars(b)
    decreases |a|
  {
    if a == [] {
      assert a + b == b;
    } else {
      var head := if IsKeptChar(a[0]) then [a[0]] else [];
      assert (a + b)[0] == a[0] && (a + b)[1..] == a[1..] + b;
      KeepSlugCharsAppend(a[1..], b);
      assert head + (KeepSlugChars(a[1..]) + KeepSlugChars(b)) == (head + KeepSlugChars(a[1..])) + KeepSlugChars(b);
    }
  }

  /** `slugFromTitle`: at most 60 characters from `[a-z0-9/-]`, never two hyphens in a row. */
  function SlugFromTitle(t: string): (r: string)
    ensures |r| <= MaxSlugLength
    ensures forall i :: 0 <= i < |r| ==> IsSlugChar(r[i])
    ensures NoDoubleHyphen(r)
  {
    var hyphenated := HyphenateSpaces(KeepSlugChars(Lower(t)));
    var collapsed := CollapseHyphens(hyphenated);
    CollapseHyphensShape(hyphenated);
    if |collapsed| <= MaxSlugLength then collapsed else collapsed[..MaxSlugLength]
  }

  /** The content characters of `s`, in order. */
  function WordParts(s: string): (r: string)
  {
    if s == [] then [] else (if IsWordPart(s[0]) then [s[0]] else []) + WordParts(s[1..])
  }

  lemma {:induction false} WordPartsAppend(a: string, b: string)
    ensures WordParts(a + b) == WordParts(a) + WordParts(b)
    decreases |a|
  {
    if a == [] {
      assert a + b == b;
    } else {
      var head := if IsWordPart(a[0]) then [a[0]] else [];
      assert (a + b)[0] == a[0] && (a + b)[1..] == a[1..] + b;
      assert WordParts(a + b) == head + WordParts(a[1..] + b);
      WordPartsAppend(a[1..], b);
      assert WordParts(a) == head + WordParts(a[1..]);
      assert head + (WordParts(a[1..]) + WordParts(b)) == (head + WordParts(a[1..])) + WordParts(b);
    }
  }

  lemma {:induction false} KeepSlugCharsKeepsWords(s: string)
    ensures WordParts(KeepSlugChars(s)) == WordParts(s)
    decreases |s|
  {
    if s != [] {
      KeepSlugCharsKeepsWords(s[1..]);
      WordPartsAppend(if IsKeptChar(s[0]) then [s[0]] else [], KeepSlugChars(s[1..]));
    }
  }

  lemma {:induction false} DropSpacesKeepsWords(s: string)
    ensures WordParts(DropSpaces(s)) == WordParts(s)
    decreases |s|
  {
    if |s| > 0 && IsSpace(s[0]) {
      assert !IsWordPart(s[0]);
      assert WordParts(s) == WordParts(s[1..]);
      assert DropSpaces(s) == DropSpaces(s[1..]);
      DropSpacesKeepsWords(s[1..]);
    }
  }

  lemma {:induction false} HyphenateSpacesKeepsWords(s: string)
    ensures WordParts(HyphenateSpaces(s)) == WordParts(s)
    decreases |s|
  {
    if s == [] {
    } else if IsSpace(s[0]) {
      DropSpacesKeepsWords(s);
      HyphenateSpacesKeepsWords(DropSpaces(s));
      WordPartsAppend("-", ReplaceSpaceRuns(DropSpaces(s), '-'));
    } else {
      HyphenateSpacesKeepsWords(s[1..]);
      WordPartsAppend([s[0]], ReplaceSpaceRuns(s[1..], '-'));
    }
  }

  lemma {:induction false} DropHyphensKeepsWords(s: string)
    ensures WordParts(DropHyphens(s)) == WordParts(s)
    decreases |s|
  {
    if |s| > 0 && s[0] == '-' {
      DropHyphensKeepsWords(s[1..]);
    }
  }

  lemma {:induction false} CollapseHyphensKeepsWords(s: string)
    ensures WordParts(CollapseHyphens(s)) == WordParts(s)
    decreases |s|
  {
    if s == [] {
    } else if s[0] == '-' {
      DropHyphensKeepsWords(s);
      CollapseHyphensKeepsWords(DropHyphens(s));
      WordPartsAppend("-", CollapseHyphens(DropHyphens(s)));
    } else {
      CollapseHyphensKeepsWords(s[1..]);
      WordPartsAppend([s[0]], CollapseHyphens(s[1..]));
    }
  }

  /** The slug keeps the title's letters, digits and slashes in order: what it holds
      besides hyphens is a prefix of them, and all of them when nothing was cut off. */
  lemma SlugKeepsTitleWords(t: string)
    ensures WordParts(SlugFromTitle(t)) <= WordParts(Lower(t))
    ensures |SlugFromTitle(t)| < MaxSlugLength ==> WordParts(SlugFromTitle(t)) == WordParts(Lower(t))
  {
    var kept := KeepSlugChars(Lower(t));
    var collapsed := CollapseHyphens(HyphenateSpaces(kept));
    KeepSlugCharsKeepsWords(Lower(t));
    HyphenateSpacesKeepsWords(kept);
    CollapseHyphensKeepsWords(HyphenateSpaces(kept));
    if |collapsed| > MaxSlugLength {
      assert collapsed == collapsed[..MaxSlugLength] + collapsed[MaxSlugLength..];
      WordPartsAppend(collapsed[..MaxSlugLength], collapsed[MaxSlugLength..]);
    }
  }

  /** Re-slugging a slug is not the identity: the hyphens a slug contains are deleted. */
  lemma SlugIsNotIdempotent()
    ensures SlugFromTitle("a b") == "a-b"
    ensures SlugFromTitle("a-b") == "ab"
  {
    SlugOfSpaced();
    SlugOfHyphenated();
  }

  /** Slugging a slug deletes every hyphen, so a slug with a hyphen is not its own slug. */
  lemma SlugTwiceHasNoHyphen(t: string)
    ensures forall i :: 0 <= i < |SlugFromTitle(SlugFromTitle(t))| ==> SlugFromTitle(SlugFromTitle(t))[i] != '-'
    ensures '-' in SlugFromTitle(t) ==> SlugFromTitle(SlugFromTitle(t)) != SlugFromTitle(t)
  {
    var slug := SlugFromTitle(t);
    LowerIdentity(slug);
    var kept := KeepSlugChars(slug);
    KeepSlugCharsNoSpace(slug);
    ReplaceSpaceRunsIdentity(kept, '-');
    CollapseHyphensIdentity(kept);
  }

  /** `toLowerCase` leaves a string without capitals alone. */
  lemma LowerIdentity(t: string)
    requires forall i :: 0 <= i < |t| ==> !('A' <= t[i] <= 'Z')
    ensures Lower(t) == t
  {
  }

  lemma {:induction false} KeepSlugCharsNoSpace(s: string)
    requires forall i :: 0 <= i < |s| ==> !IsSpace(s[i])
    ensures forall i :: 0 <= i < |KeepSlugChars(s)| ==> !IsSpace(KeepSlugChars(s)[i]) && KeepSlugChars(s)[i] != '-'
    decreases |s|
  {
    if s != [] {
      KeepSlugCharsNoSpace(s[1..]);
    }
  }

  /** Collapsing hyphen runs changes nothing in a string without two hyphens in a row. */
  lemma {:induction false} CollapseHyphensIdentity(s: string)
    requires NoDoubleHyphen(s)
    ensures CollapseHyphens(s) == s
    decreases |s|
  {
    if s != [] {
      assert NoDoubleHyphen(s[1..]) by {
        forall i | 0 <= i < |s[1..]| - 1 ensures s[1..][i] != '-' || s[1..][i + 1] != '-' {
          assert s[1..][i] == s[i + 1] && s[1..][i + 1] == s[i + 2];
        }
      }
      CollapseHyphensIdentity(s[1..]);
      if s[0] == '-' {
        assert |s| == 1 || s[1] != '-';
        assert DropHyphens(s) == s[1..];
      }
      assert s == [s[0]] + s[1..];
    }
  }

  lemma SlugOfSpaced()
    ensures SlugFromTitle("a b") == "a-b"
  {
    SpacedSteps();
  }

  lemma SpacedSteps()
    ensures CollapseHyphens(HyphenateSpaces(KeepSlugChars(Lower("a b")))) == "a-b"
  {
    var t, h := "a b", "a-b";
    forall i | 0 <= i < |t| ensures !('A' <= t[i] <= 'Z') {
      if i == 0 {} else if i == 1 {} else {}
    }
    LowerIdentity(t);
    KeepOfSpaced();
    HyphenateOneSpace();
    forall i | 0 <= i < |h| - 1 ensures h[i] != '-' || h[i + 1] != '-' {
      if i == 0 {} else {}
    }
    CollapseHyphensIdentity(h);
  }

  lemma KeepOfSpaced()
    ensures KeepSlugChars("a b") == "a b"
  {
    var t := "a b";
    assert t[1..] == " b" && t[1..][1..] == "b" && t[1..][1..][1..] == [];
    assert KeepSlugChars("b") == "b";
    assert KeepSlugChars(" b") == " b";
  }

  lemma HyphenateOneSpace()
    ensures HyphenateSpaces("a b") == "a-b"
  {
    assert IsSpace(' ') && !IsSpace('a') && !IsSpace('b');
    assert DropSpaces(" b") == "b" by {
      assert " b"[1..] == "b";
    }
    ReplaceSpaceRunsIdentity("b", '-');
    assert ReplaceSpaceRuns(" b", '-') == "-b";
    assert "a b"[1..] == " b";
  }

  lemma SlugOfHyphenated()
    ensures SlugFromTitle("a-b") == "ab"
  {
    HyphenatedSteps();
  }

  lemma HyphenatedSteps()
    ensures CollapseHyphens(HyphenateSpaces(KeepSlugChars(Lower("a-b")))) == "ab"
  {
    var t, k := "a-b", "ab";
    forall i | 0 <= i < |t| ensures !('A' <= t[i] <= 'Z') {
      if i == 0 {} else if i == 1 {} else {}
    }
    LowerIdentity(t);
    KeepOfHyphenated();
    forall i | 0 <= i < |k| ensures !IsSpace(k[i]) {
      if i == 0 {} else {}
    }
    ReplaceSpaceRunsIdentity(k, '-');
    forall i | 0 <= i < |k| - 1 ensures k[i] != '-' || k[i + 1] != '-' {
    }
    CollapseHyphensIdentity(k);
  }

  lemma KeepOfHyphenated()
    ensures KeepSlugChars("a-b") == "ab"
  {
    var t := "a-b";
    assert t[1..] == "-b" && t[1..][1..] == "b" && t[1..][1..][1..] == [];
    assert KeepSlugChars("b") == "b";
    assert KeepSlugChars("-b") == "b";
  }
}
