/**
 * Character classes and string searches of the JavaScript regular expressions
 * and string methods the pipeline uses. Strings are sequences of characters;
 * every pattern the pipeline searches for is ASCII.
 */
module Text {
  import opened Wrappers

  /** JavaScript's `\s`: WhiteSpace and LineTerminator, which is also the set `trim()` strips. */
  predicate IsSpace(c: char) {
    var n := c as int;
    (9 <= n <= 13) || n == 0x20 || n == 0xA0 || n == 0x1680 || (0x2000 <= n <= 0x200A)
    || n == 0x2028 || n == 0x2029 || n == 0x202F || n == 0x205F || n == 0x3000 || n == 0xFEFF
  }

  /** JavaScript's `\d`. */
  predicate IsDigit(c: char) {
    '0' <= c <= '9'
  }

  /** JavaScript's `\w`. */
  predicate IsWordChar(c: char) {
    ('a' <= c <= 'z') || ('A' <= c <= 'Z') || IsDigit(c) || c == '_'
  }

  /** `toLowerCase` on one character, over ASCII. */
  function LowerChar(c: char): (d: char)
    ensures 'A' <= c <= 'Z' ==> 'a' <= d <= 'z'
    ensures !('A' <= c <= 'Z') ==> d == c
  {
    if 'A' <= c <= 'Z' then (c as int + 32) as char else c
  }

  function Lower(s: string): (r: string)
    ensures |r| == |s|
    ensures forall i :: 0 <= i < |s| ==> r[i] == LowerChar(s[i])
  {
    seq(|s|, i requires 0 <= i < |s| => LowerChar(s[i]))
  }

  /** `s` without its leading whitespace. */
  function DropSpaces(s: string): (r: string)
    ensures |r| <= |s|
    ensures |s| > 0 && IsSpace(s[0]) ==> |r| < |s|
    ensures |r| > 0 ==> !IsSpace(r[0])
  {
    if |s| > 0 && IsSpace(s[0]) then DropSpaces(s[1..]) else s
  }

  /** What is left after the leading whitespace is the end of `s`, and what was dropped is
      all whitespace. */
  lemma {:induction false} DropSpacesSuffix(s: string)
    ensures DropSpaces(s) == s[|s| - |DropSpaces(s)|..]
    ensures forall i :: 0 <= i < |s| - |DropSpaces(s)| ==> IsSpace(s[i])
    ensures forall c :: c in DropSpaces(s) ==> c in s
    decreases |s|
  {
    if |s| > 0 && IsSpace(s[0]) {
      DropSpacesSuffix(s[1..]);
      var r := DropSpaces(s[1..]);
      assert s[1..][|s| - 1 - |r|..] == s[|s| - |r|..];
      forall i | 1 <= i < |s| - |r| ensures IsSpace(s[i]) {
        assert s[1..][i - 1] == s[i];
      }
    }
  }

  /** Dropping the leading whitespace of `a + b` stops inside `a` unless `a` is all whitespace. */
  lemma {:induction false} DropSpacesAppend(a: string, b: string)
    ensures DropSpaces(a + b) == if |DropSpaces(a)| > 0 then DropSpaces(a) + b else DropSpaces(b)
    decreases |a|
  {
    if |a| == 0 {
      assert a + b == b;
    } else if IsSpace(a[0]) {
      assert (a + b)[0] == a[0] && (a + b)[1..] == a[1..] + b;
      DropSpacesAppend(a[1..], b);
    }
  }

  /** `replace(/\s+/g, sep)`: each run of whitespace becomes the one character `sep`. */
  function ReplaceSpaceRuns(s: string, sep: char): (r: string)
    ensures forall i :: 0 <= i < |r| ==> r[i] == sep || (!IsSpace(r[i]) && r[i] in s)
    decreases |s|
  {
    if s == [] then []
    else if IsSpace(s[0]) then
      DropSpacesSuffix(s);
      [sep] + ReplaceSpaceRuns(DropSpaces(s), sep)
    else [s[0]] + ReplaceSpaceRuns(s[1..], sep)
  }

  /** Two parts that do not meet in whitespace are replaced separately. */
  lemma {:induction false} ReplaceSpaceRunsAppend(a: string, b: string, sep: char)
    requires |a| == 0 || |b| == 0 || !IsSpace(a[|a| - 1]) || !IsSpace(b[0])
    ensures ReplaceSpaceRuns(a + b, sep) == ReplaceSpaceRuns(a, sep) + ReplaceSpaceRuns(b, sep)
    decreases |a|
  {
    if |a| == 0 {
      assert a + b == b;
    } else if !IsSpace(a[0]) {
      assert (a + b)[0] == a[0] && (a + b)[1..] == a[1..] + b;
      ReplaceSpaceRunsAppend(a[1..], b, sep);
      assert [a[0]] + (ReplaceSpaceRuns(a[1..], sep) + ReplaceSpaceRuns(b, sep))
          == ([a[0]] + ReplaceSpaceRuns(a[1..], sep)) + ReplaceSpaceRuns(b, sep);
    } else {
      var d := DropSpaces(a);
      DropSpacesAppend(a, b);
      DropSpacesSuffix(a);
      assert (a + b)[0] == a[0];
      if |d| > 0 {
        assert d[|d| - 1] == a[|a| - 1];
        ReplaceSpaceRunsAppend(d, b, sep);
        assert [sep] + (ReplaceSpaceRuns(d, sep) + ReplaceSpaceRuns(b, sep))
            == ([sep] + ReplaceSpaceRuns(d, sep)) + ReplaceSpaceRuns(b, sep);
      } else {
        assert IsSpace(a[|a| - 1]);
        assert DropSpaces(b) == b;
      }
    }
  }

  /** A non-empty run of whitespace becomes the one separator. */
  lemma {:induction false} ReplaceSpaceRunsOfSpaces(w: string, sep: char)
    requires |w| > 0 && forall i :: 0 <= i < |w| ==> IsSpace(w[i])
    ensures ReplaceSpaceRuns(w, sep) == [sep]
  {
    DropSpacesSuffix(w);
    assert DropSpaces(w) == [];
  }

  /** Replacing whitespace runs changes nothing in a string without whitespace. */
  lemma {:induction false} ReplaceSpaceRunsIdentity(s: string, sep: char)
    requires forall i :: 0 <= i < |s| ==> !IsSpace(s[i])
    ensures ReplaceSpaceRuns(s, sep) == s
    decreases |s|
  {
    if s != [] {
      ReplaceSpaceRunsIdentity(s[1..], sep);
      assert s == [s[0]] + s[1..];
    }
  }

  /** A whitespace run between two parts becomes exactly one separator. */
  lemma {:induction false} ReplaceSpaceRunsSplit(a: string, w: string, b: string, sep: char)
    requires |w| > 0 && forall i :: 0 <= i < |w| ==> IsSpace(w[i])
    requires |a| == 0 || !IsSpace(a[|a| - 1])
    requires |b| == 0 || !IsSpace(b[0])
    ensures ReplaceSpaceRuns(a + w + b, sep) == ReplaceSpaceRuns(a, sep) + [sep] + ReplaceSpaceRuns(b, sep)
  {
    var wb := w + b;
    ReplaceSpaceRunsLead(w, b, sep);
    assert ReplaceSpaceRuns(a + wb, sep) == ReplaceSpaceRuns(a, sep) + ReplaceSpaceRuns(wb, sep) by {
      assert wb[0] == w[0];
      ReplaceSpaceRunsAppend(a, wb, sep);
    }
    assert a + w + b == a + wb;
  }

  lemma {:induction false} ReplaceSpaceRunsLead(w: string, b: string, sep: char)
    requires |w| > 0 && forall i :: 0 <= i < |w| ==> IsSpace(w[i])
    requires |b| == 0 || !IsSpace(b[0])
    ensures ReplaceSpaceRuns(w + b, sep) == [sep] + ReplaceSpaceRuns(b, sep)
  {
    assert IsSpace(w[|w| - 1]);
    ReplaceSpaceRunsAppend(w, b, sep);
    ReplaceSpaceRunsOfSpaces(w, sep);
  }

  predicate StartsWith(s: string, p: string) {
    |p| <= |s| && s[..|p|] == p
  }

  /** `p` occurs in `s` at position `k`. */
  predicate MatchAt(s: string, p: string, k: nat) {
    k + |p| <= |s| && s[k..k + |p|] == p
  }

  /** `p` occurs somewhere in `s` (a regular expression that is a plain literal). */
  predicate Contains(s: string, p: string)
    decreases |s|
  {
    StartsWith(s, p) || (|s| > 0 && Contains(s[1..], p))
  }

  lemma {:induction false} ContainsIffMatchAt(s: string, p: string)
    ensures Contains(s, p) <==> exists k: nat :: MatchAt(s, p, k)
    decreases |s|
  {
    if StartsWith(s, p) {
      assert MatchAt(s, p, 0);
    }
    if |s| > 0 {
      ContainsIffMatchAt(s[1..], p);
      forall k: nat | MatchAt(s[1..], p, k) ensures MatchAt(s, p, k + 1) {
        assert s[1..][k..k + |p|] == s[k + 1..k + 1 + |p|];
      }
      if exists k: nat :: MatchAt(s, p, k) {
        var k: nat :| MatchAt(s, p, k);
        if k > 0 {
          assert s[1..][k - 1..k - 1 + |p|] == s[k..k + |p|];
          assert MatchAt(s[1..], p, k - 1);
        }
      }
    }
  }

  /** Whatever contains `a + p + b` contains `p`. */
  lemma ContainsPart(s: string, a: string, p: string, b: string)
    requires Contains(s, a + p + b)
    ensures Contains(s, p)
  {
    ContainsIffMatchAt(s, a + p + b);
    var k: nat :| MatchAt(s, a + p + b, k);
    var w := a + p + b;
    assert s[k..k + |w|] == w;
    forall i | 0 <= i < |p| ensures s[k + |a| + i] == p[i] {
      assert s[k..k + |w|][|a| + i] == w[|a| + i];
    }
    assert s[k + |a|..k + |a| + |p|] == p;
    assert MatchAt(s, p, k + |a|);
    ContainsIffMatchAt(s, p);
  }

  /** A literal regular expression with the `i` flag; `p` is lower-case ASCII. Without the
      `u` flag JavaScript folds case only between ASCII characters for ASCII patterns. */
  predicate ContainsIgnoringCase(s: string, p: string)
    ensures ContainsIgnoringCase(s, p) <==> exists k: nat :: MatchAt(Lower(s), p, k)
  {
    ContainsIffMatchAt(Lower(s), p);
    Contains(Lower(s), p)
  }

  /** Some alternative of `ps` occurs in `s`, ignoring case (`/a|b|c/i`). */
  predicate ContainsAnyIgnoringCase(s: string, ps: seq<string>) {
    exists k :: 0 <= k < |ps| && ContainsIgnoringCase(s, ps[k])
  }

  /** `s` starts with `parts[0]`, then `\s*`, then `parts[1]`, and so on. */
  predicate SpacedAt(s: string, parts: seq<string>)
    decreases |parts|, |s|, 0
  {
    |parts| == 0 ||
    (StartsWith(s, parts[0]) && (|parts| == 1 || SpacedAfter(s[|parts[0]|..], parts[1..])))
  }

  /** `s` starts with some whitespace (possibly none) followed by a SpacedAt match. */
  predicate SpacedAfter(s: string, parts: seq<string>)
    decreases |parts|, |s|, 1
  {
    SpacedAt(s, parts) || (|s| > 0 && IsSpace(s[0]) && SpacedAfter(s[1..], parts))
  }

  /** `/a\s*b\s*c/` occurs in `s`. */
  predicate ContainsSpaced(s: string, parts: seq<string>)
    decreases |s|
  {
    SpacedAt(s, parts) || (|s| > 0 && ContainsSpaced(s[1..], parts))
  }

  /** `\s*` before the next part: some whitespace characters, possibly none, then a match. */
  lemma {:induction false} SpacedAfterSkipsSpaces(s: string, parts: seq<string>)
    ensures SpacedAfter(s, parts) <==>
      exists j :: 0 <= j <= |s| && (forall i :: 0 <= i < j ==> IsSpace(s[i])) && SpacedAt(s[j..], parts)
    decreases |s|
  {
    assert s[0..] == s;
    if |s| > 0 {
      SpacedAfterSkipsSpaces(s[1..], parts);
      if SpacedAfter(s, parts) && !SpacedAt(s, parts) {
        var j :| 0 <= j <= |s| - 1 && (forall i :: 0 <= i < j ==> IsSpace(s[1..][i])) && SpacedAt(s[1..][j..], parts);
        assert s[1..][j..] == s[j + 1..];
        assert forall i :: 0 <= i < j + 1 ==> IsSpace(s[i]) by {
          forall i | 1 <= i < j + 1 ensures IsSpace(s[i]) {
            assert s[1..][i - 1] == s[i];
          }
        }
      }
      if exists j :: 0 <= j <= |s| && (forall i :: 0 <= i < j ==> IsSpace(s[i])) && SpacedAt(s[j..], parts) {
        var j :| 0 <= j <= |s| && (forall i :: 0 <= i < j ==> IsSpace(s[i])) && SpacedAt(s[j..], parts);
        if j > 0 {
          assert s[1..][j - 1..] == s[j..];
          assert forall i :: 0 <= i < j - 1 ==> IsSpace(s[1..][i]) by {
            forall i | 0 <= i < j - 1 ensures IsSpace(s[1..][i]) {
              assert s[1..][i] == s[i + 1];
            }
          }
        }
      }
    }
  }

  /** The spaced pattern occurs in `s` when it matches from some position of `s`. */
  lemma {:induction false} ContainsSpacedSomewhere(s: string, parts: seq<string>)
    ensures ContainsSpaced(s, parts) <==> exists k :: 0 <= k <= |s| && SpacedAt(s[k..], parts)
    decreases |s|
  {
    assert s[0..] == s;
    if |s| > 0 {
      ContainsSpacedSomewhere(s[1..], parts);
      if ContainsSpaced(s, parts) && !SpacedAt(s, parts) {
        var k :| 0 <= k <= |s| - 1 && SpacedAt(s[1..][k..], parts);
        assert s[1..][k..] == s[k + 1..];
      }
      if exists k :: 0 <= k <= |s| && SpacedAt(s[k..], parts) {
        var k :| 0 <= k <= |s| && SpacedAt(s[k..], parts);
        if k > 0 {
          assert s[1..][k - 1..] == s[k..];
        }
      }
    }
  }

  /** `s.indexOf(p, from)`: the first occurrence of `p` at or after `from`. */
  function IndexOf(s: string, p: string, from: nat): (r: Option<nat>)
    requires from <= |s|
    ensures r.Some? ==> from <= r.value && MatchAt(s, p, r.value)
    ensures r.Some? ==> forall k :: from <= k < r.value ==> !MatchAt(s, p, k)
    ensures r.None? ==> forall k :: from <= k ==> !MatchAt(s, p, k)
    decreases |s| - from
  {
    if from + |p| > |s| then None
    else if s[from..from + |p|] == p then Some(from)
    else IndexOf(s, p, from + 1)
  }

  /** JavaScript's `<` on strings: lexicographic order of the characters. */
  predicate LexLess(a: string, b: string)
    decreases |a|
  {
    |b| > 0 && (|a| == 0 || a[0] < b[0] || (a[0] == b[0] && LexLess(a[1..], b[1..])))
  }

  lemma {:induction false} LexLessIrreflexive(a: string)
    ensures !LexLess(a, a)
    decreases |a|
  {
    if |a| > 0 {
      LexLessIrreflexive(a[1..]);
    }
  }

  lemma {:induction false} LexLessTransitive(a: string, b: string, c: string)
    requires LexLess(a, b) && LexLess(b, c)
    ensures LexLess(a, c)
    decreases |a|
  {
    if |a| > 0 && a[0] == b[0] && b[0] == c[0] {
      LexLessTransitive(a[1..], b[1..], c[1..]);
    }
  }

  lemma {:induction false} LexLessTotal(a: string, b: string)
    ensures a == b || LexLess(a, b) || LexLess(b, a)
    decreases |a|
  {
    if |a| > 0 && |b| > 0 && a[0] == b[0] {
      LexLessTotal(a[1..], b[1..]);
      if a[1..] == b[1..] {
        assert a == [a[0]] + a[1..] && b == [b[0]] + b[1..];
      }
    }
  }
}
