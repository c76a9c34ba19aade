/** The Python `str` operations the router and the handlers rely on:
    `lower()` (ASCII case folding), the substring test `p in s`,
    `replace(old, new)` (one left-to-right pass over non-overlapping
    occurrences) and `strip()` (Python whitespace at both ends). A
    leftmost-occurrence search serves to state what `replace` does. */
module Text {
  import opened Wrappers

  // ---------------------------------------------------------------------------
  // Characters
  // ---------------------------------------------------------------------------

  /** Python's `str.isspace`: the 29 code points `strip()` removes. */
  predicate IsSpace(c: char) {
    var n := c as int;
    || (0x09 <= n <= 0x0D) || (0x1C <= n <= 0x20)
    || n == 0x85 || n == 0xA0 || n == 0x1680
    || (0x2000 <= n <= 0x200A)
    || n == 0x2028 || n == 0x2029 || n == 0x202F || n == 0x205F || n == 0x3000
  }

  predicate IsUpper(c: char) {
    'A' <= c <= 'Z'
  }

  /** `c.lower()` restricted to ASCII letters. */
  function LowerChar(c: char): (d: char)
    ensures !IsUpper(d)
  {
    if IsUpper(c) then (c as int + 32) as char else c
  }

  predicate NoUpper(s: string) {
    forall i :: 0 <= i < |s| ==> !IsUpper(s[i])
  }

  // ---------------------------------------------------------------------------
  // lower()
  // ---------------------------------------------------------------------------

  function Lower(s: string): (r: string)
    ensures |r| == |s|
  {
    seq(|s|, i requires 0 <= i < |s| => LowerChar(s[i]))
  }

  /** Lowering leaves no upper-case letter behind, and a string is its own
      lower-case form exactly when it has none. */
  lemma LowerFixedIff(s: string)
    ensures NoUpper(Lower(s))
    ensures Lower(s) == s <==> NoUpper(s)
  {
    if NoUpper(s) {
      assert forall i :: 0 <= i < |s| ==> Lower(s)[i] == s[i];
    }
  }

  lemma LowerIdempotent(s: string)
    ensures Lower(Lower(s)) == Lower(s)
  {
    LowerFixedIff(s);
    LowerFixedIff(Lower(s));
  }

  /** Lowering commutes with slicing. */
  lemma LowerSlice(s: string, i: int, j: int)
    requires 0 <= i <= j <= |s|
    ensures Lower(s)[i..j] == Lower(s[i..j])
  {
  }

  /** Lowering works character by character, so it distributes over concatenation. */
  lemma LowerConcat(a: string, b: string)
    ensures Lower(a + b) == Lower(a) + Lower(b)
  {
  }

  // ---------------------------------------------------------------------------
  // Substring test `p in s`
  // ---------------------------------------------------------------------------

  predicate IsPrefix(p: string, s: string) {
    |p| <= |s| && s[..|p|] == p
  }

  /** `p` occurs in `s` starting at index `i`. */
  predicate OccursAt(s: string, p: string, i: int) {
    0 <= i && i + |p| <= |s| && s[i..i + |p|] == p
  }

  /** Python's `p in s`: some suffix of `s` starts with `p`. */
  predicate Contains(s: string, p: string)
    decreases |s|
  {
    IsPrefix(p, s) || (|s| > 0 && Contains(s[1..], p))
  }

  lemma OccursAtShift(s: string, p: string, j: int)
    requires |s| > 0 && 0 <= j
    ensures OccursAt(s, p, j + 1) <==> OccursAt(s[1..], p, j)
  {
    if j + 1 + |p| <= |s| {
      assert s[j + 1..j + 1 + |p|] == s[1..][j..j + |p|];
    }
  }

  lemma {:induction false} OccursImpliesContains(s: string, p: string, i: int)
    requires OccursAt(s, p, i)
    ensures Contains(s, p)
    decreases i
  {
    if i == 0 {
      assert IsPrefix(p, s);
    } else {
      OccursAtShift(s, p, i - 1);
      OccursImpliesContains(s[1..], p, i - 1);
    }
  }

  lemma {:induction false} ContainsImpliesOccurs(s: string, p: string)
    requires Contains(s, p)
    ensures exists i :: OccursAt(s, p, i)
    decreases |s|
  {
    if IsPrefix(p, s) {
      assert OccursAt(s, p, 0);
    } else {
      ContainsImpliesOccurs(s[1..], p);
      var j :| OccursAt(s[1..], p, j);
      OccursAtShift(s, p, j);
    }
  }

  /** The recursive test agrees with the positional definition. */
  lemma ContainsIff(s: string, p: string)
    ensures Contains(s, p) <==> exists i :: OccursAt(s, p, i)
  {
    if Contains(s, p) {
      ContainsImpliesOccurs(s, p);
    }
    forall i | OccursAt(s, p, i) ensures Contains(s, p) {
      OccursImpliesContains(s, p, i);
    }
  }

  /** A pattern with a character that the text lacks does not occur in it. */
  lemma MissingCharNotContained(s: string, p: string, c: char)
    requires c in p && c !in s
    ensures !Contains(s, p)
  {
    var k :| 0 <= k < |p| && p[k] == c;
    forall i ensures !OccursAt(s, p, i) {
      if 0 <= i && i + |p| <= |s| {
        assert s[i..i + |p|][k] == s[i + k] != c;
      }
    }
    ContainsIff(s, p);
  }

  /** A single-character pattern occurs exactly when the character does. */
  lemma ContainsCharIff(s: string, c: char)
    ensures Contains(s, [c]) <==> c in s
  {
    ContainsIff(s, [c]);
    if c in s {
      var i :| 0 <= i < |s| && s[i] == c;
      assert OccursAt(s, [c], i);
    }
    if Contains(s, [c]) {
      var i :| OccursAt(s, [c], i);
      assert s[i] == s[i..i + 1][0];
    }
  }

  /** An occurrence in a piece is an occurrence in any string built around it. */
  lemma ContainsInfix(pre: string, m: string, post: string, p: string)
    requires Contains(m, p)
    ensures Contains(pre + m + post, p)
  {
    ContainsIff(m, p);
    var i :| OccursAt(m, p, i);
    var s := pre + m + post;
    assert s[|pre| + i..|pre| + i + |p|] == m[i..i + |p|];
    assert OccursAt(s, p, |pre| + i);
    ContainsIff(s, p);
  }

  /** An occurrence survives lowering, as an occurrence of the lowered pattern. */
  lemma LowerContains(s: string, p: string)
    requires Contains(s, p)
    ensures Contains(Lower(s), Lower(p))
  {
    ContainsIff(s, p);
    var i :| OccursAt(s, p, i);
    LowerSlice(s, i, i + |p|);
    assert OccursAt(Lower(s), Lower(p), i);
    ContainsIff(Lower(s), Lower(p));
  }

  // ---------------------------------------------------------------------------
  // Leftmost occurrence
  // ---------------------------------------------------------------------------

  /** The index of the leftmost occurrence of `p` in `s`, if any. The
      program does not search itself; the reference definition of
      `replace` below is stated with this search. */
  function Find(s: string, p: string): (r: Option<nat>)
    ensures r.Some? ==> OccursAt(s, p, r.value)
    ensures r.Some? ==> forall j :: 0 <= j < r.value ==> !OccursAt(s, p, j)
    ensures r.None? ==> forall j :: !OccursAt(s, p, j)
    decreases |s|
  {
    if IsPrefix(p, s) then Some(0)
    else if |s| == 0 then None
    else
      var rest := Find(s[1..], p);
      assert !OccursAt(s, p, 0);
      assert forall j :: 0 <= j ==> (OccursAt(s, p, j + 1) <==> OccursAt(s[1..], p, j)) by {
        forall j | 0 <= j ensures OccursAt(s, p, j + 1) <==> OccursAt(s[1..], p, j) {
          OccursAtShift(s, p, j);
        }
      }
      match rest
      case None =>
        assert forall j :: !OccursAt(s, p, j) by {
          forall j ensures !OccursAt(s, p, j) {
            if j > 0 {
              OccursAtShift(s, p, j - 1);
            }
          }
        }
        None
      case Some(i) =>
        assert forall j :: 0 <= j < i + 1 ==> !OccursAt(s, p, j) by {
          forall j | 0 <= j < i + 1 ensures !OccursAt(s, p, j) {
            if j > 0 {
              OccursAtShift(s, p, j - 1);
            }
          }
        }
        Some(i + 1)
  }

  // ---------------------------------------------------------------------------
  // replace(old, new)
  // ---------------------------------------------------------------------------

  /** Python's `s.replace(p, rep)` with no count: every non-overlapping
      occurrence of a non-empty `p`, found left to right, is replaced in a
      single pass; an empty `p` puts `rep` before every character and at
      the end. */
  function ReplaceAll(s: string, p: string, rep: string): string
    decreases |s|
  {
    if |p| == 0 then
      if |s| == 0 then rep else rep + [s[0]] + ReplaceAll(s[1..], p, rep)
    else if IsPrefix(p, s) then rep + ReplaceAll(s[|p|..], p, rep)
    else if |s| == 0 then s
    else [s[0]] + ReplaceAll(s[1..], p, rep)
  }

  /** A leading occurrence is replaced and the scan resumes after it. */
  lemma ReplaceLeading(p: string, s: string, rep: string)
    requires |p| > 0
    ensures ReplaceAll(p + s, p, rep) == rep + ReplaceAll(s, p, rep)
  {
    assert IsPrefix(p, p + s);
    assert (p + s)[|p|..] == s;
  }

  /** Where no occurrence starts, one character is copied and the scan moves on. */
  lemma ReplaceStep(s: string, p: string, rep: string)
    requires |p| > 0 && |s| > 0 && !IsPrefix(p, s)
    ensures ReplaceAll(s, p, rep) == [s[0]] + ReplaceAll(s[1..], p, rep)
  {
  }

  /** Text before the first occurrence is copied unchanged. */
  lemma {:induction false} ReplaceSkips(a: string, s: string, p: string, rep: string)
    requires |p| > 0
    requires forall i :: 0 <= i < |a| ==> !OccursAt(a + s, p, i)
    ensures ReplaceAll(a + s, p, rep) == a + ReplaceAll(s, p, rep)
    decreases |a|
  {
    if |a| > 0 {
      var t := a + s;
      assert !IsPrefix(p, t) by {
        assert !OccursAt(t, p, 0);
        if |p| <= |t| {
          assert t[0..|p|] == t[..|p|];
        }
      }
      ReplaceStep(t, p, rep);
      assert t[1..] == a[1..] + s;
      forall i | 0 <= i < |a| - 1 ensures !OccursAt(a[1..] + s, p, i) {
        OccursAtShift(t, p, i);
        assert !OccursAt(t, p, i + 1);
      }
      ReplaceSkips(a[1..], s, p, rep);
      var tail := ReplaceAll(s, p, rep);
      calc {
        ReplaceAll(t, p, rep);
        [t[0]] + ReplaceAll(t[1..], p, rep);
        [a[0]] + ReplaceAll(a[1..] + s, p, rep);
        [a[0]] + (a[1..] + tail);
        { assert [a[0]] + a[1..] == a; }
        a + tail;
      }
    } else {
      assert a + s == s;
    }
  }

  /** Reference definition of `replace` for a non-empty pattern: find the
      leftmost occurrence, keep the text before it, put `rep` in its place
      and carry on after its end; with no occurrence the text is kept. */
  function ReplaceRef(s: string, p: string, rep: string): string
    requires |p| > 0
    decreases |s|
  {
    match Find(s, p)
    case None => s
    case Some(i) => s[..i] + rep + ReplaceRef(s[i + |p|..], p, rep)
  }

  /** The single-pass scan agrees with the reference definition. */
  lemma {:induction false} ReplaceAllViaFind(s: string, p: string, rep: string)
    requires |p| > 0
    ensures ReplaceAll(s, p, rep) == ReplaceRef(s, p, rep)
    decreases |s|
  {
    match Find(s, p)
    case None =>
      assert !Contains(s, p) by { ContainsIff(s, p); }
      ReplaceAllAbsent(s, p, rep);
    case Some(i) =>
      ReplaceAtFirst(s, p, rep, i);
      ReplaceAllViaFind(s[i + |p|..], p, rep);
  }

  /** Replacing from the first occurrence at `i` on. */
  lemma {:induction false} ReplaceAtFirst(s: string, p: string, rep: string, i: nat)
    requires |p| > 0 && OccursAt(s, p, i)
    requires forall j :: 0 <= j < i ==> !OccursAt(s, p, j)
    ensures ReplaceAll(s, p, rep) == s[..i] + rep + ReplaceAll(s[i + |p|..], p, rep)
  {
    var before, after := s[..i], s[i + |p|..];
    assert s == before + (p + after);
    ReplaceAround(before, p, after, rep);
  }

  /** Text free of occurrences, then one occurrence: the text is copied
      and the occurrence replaced. */
  lemma {:induction false} ReplaceAround(before: string, p: string, after: string, rep: string)
    requires |p| > 0
    requires forall j :: 0 <= j < |before| ==> !OccursAt(before + (p + after), p, j)
    ensures ReplaceAll(before + (p + after), p, rep) == before + rep + ReplaceAll(after, p, rep)
  {
    ReplaceSkips(before, p + after, p, rep);
    ReplaceLeading(p, after, rep);
  }

  /** Text without the pattern comes back unchanged. */
  lemma {:induction false} ReplaceAllAbsent(s: string, p: string, rep: string)
    requires |p| > 0 && !Contains(s, p)
    ensures ReplaceAll(s, p, rep) == s
    decreases |s|
  {
    if |s| > 0 {
      ReplaceAllAbsent(s[1..], p, rep);
      assert [s[0]] + s[1..] == s;
    }
  }

  /** Removing a non-empty pattern never lengthens the text, and shortens it
      whenever the pattern occurs. */
  lemma {:induction false} RemoveLength(s: string, p: string)
    requires |p| > 0
    ensures |ReplaceAll(s, p, "")| <= |s|
    ensures Contains(s, p) ==> |ReplaceAll(s, p, "")| < |s|
    decreases |s|
  {
    if IsPrefix(p, s) {
      RemoveLength(s[|p|..], p);
    } else if |s| > 0 {
      RemoveLength(s[1..], p);
    }
  }

  /** Removing a non-empty pattern is the identity exactly on text that
      does not contain it. */
  lemma RemoveIdentityIff(s: string, p: string)
    requires |p| > 0
    ensures ReplaceAll(s, p, "") == s <==> !Contains(s, p)
  {
    RemoveLength(s, p);
    if !Contains(s, p) {
      ReplaceAllAbsent(s, p, "");
    }
  }

  /** An empty pattern matches before every character and at the end, so
      the result always begins with `rep`, ... */
  lemma ReplaceEmptyPrefix(s: string, rep: string)
    ensures |rep| <= |ReplaceAll(s, "", rep)| && ReplaceAll(s, "", rep)[..|rep|] == rep
  {
  }

  /** ... a single character comes out framed by two copies of `rep`, ... */
  lemma ReplaceEmptyChar(c: char, rep: string)
    ensures ReplaceAll([c], "", rep) == rep + [c] + rep
  {
    assert [c][1..] == [];
  }

  /** ... and the two halves of a concatenation are treated on their own,
      sharing the copy of `rep` between them. Together with the two facts
      above this determines the result for every input. */
  lemma {:induction false} ReplaceEmptyConcat(a: string, b: string, rep: string)
    ensures ReplaceAll(a + b, "", rep) == ReplaceAll(a, "", rep) + ReplaceAll(b, "", rep)[|rep|..]
    decreases |a|
  {
    var tail := ReplaceAll(b, "", rep)[|rep|..];
    if |a| == 0 {
      ReplaceEmptyPrefix(b, rep);
      assert a + b == b;
      assert ReplaceAll(b, "", rep) == rep + tail;
    } else {
      var ab := a + b;
      assert ab[0] == a[0] && ab[1..] == a[1..] + b;
      ReplaceEmptyConcat(a[1..], b, rep);
      calc {
        ReplaceAll(ab, "", rep);
        rep + [a[0]] + ReplaceAll(a[1..] + b, "", rep);
        rep + [a[0]] + (ReplaceAll(a[1..], "", rep) + tail);
        (rep + [a[0]] + ReplaceAll(a[1..], "", rep)) + tail;
        ReplaceAll(a, "", rep) + tail;
      }
    }
  }

  /** With an empty pattern and an empty replacement nothing changes. */
  lemma {:induction false} ReplaceEmptyByEmpty(s: string)
    ensures ReplaceAll(s, "", "") == s
    decreases |s|
  {
    if |s| > 0 {
      ReplaceEmptyByEmpty(s[1..]);
      assert [s[0]] + s[1..] == s;
    }
  }

  // ---------------------------------------------------------------------------
  // strip()
  // ---------------------------------------------------------------------------

  predicate AllSpace(s: string) {
    forall i :: 0 <= i < |s| ==> IsSpace(s[i])
  }

  /** Neither end of `s` is whitespace. */
  predicate Trimmed(s: string) {
    |s| == 0 || (!IsSpace(s[0]) && !IsSpace(s[|s| - 1]))
  }

  /** Python's `lstrip()`: drops the leading whitespace. */
  function StripStart(s: string): (r: string)
    ensures |r| <= |s| && r == s[|s| - |r|..]
    ensures AllSpace(s[..|s| - |r|])
    ensures |r| == 0 || !IsSpace(r[0])
    decreases |s|
  {
    if |s| > 0 && IsSpace(s[0]) then
      var r := StripStart(s[1..]);
      assert s[..|s| - |r|] == [s[0]] + s[1..][..|s| - 1 - |r|];
      r
    else s
  }

  /** Python's `rstrip()`: drops the trailing whitespace. */
  function StripEnd(s: string): (r: string)
    ensures |r| <= |s| && r == s[..|r|]
    ensures AllSpace(s[|r|..])
    ensures |r| == 0 || !IsSpace(r[|r| - 1])
    decreases |s|
  {
    if |s| > 0 && IsSpace(s[|s| - 1]) then
      var r := StripEnd(s[..|s| - 1]);
      assert s[|r|..] == s[..|s| - 1][|r|..] + [s[|s| - 1]];
      r
    else s
  }

  /** Number of leading whitespace characters: the run `lstrip()` drops. */
  function Lead(s: string): (n: nat)
    ensures n <= |s| && AllSpace(s[..n])
    ensures n == |s| || !IsSpace(s[n])
  {
    |s| - |StripStart(s)|
  }

  /** Python's `strip()`: the infix left after dropping whitespace at both
      ends; what lies before and after it is all whitespace. */
  function Strip(s: string): (r: string)
    ensures Trimmed(r)
    ensures Lead(s) + |r| <= |s| && r == s[Lead(s)..Lead(s) + |r|]
    ensures AllSpace(s[Lead(s) + |r|..])
  {
    var m := StripStart(s);
    var r := StripEnd(m);
    StripEndTrimmed(m);
    InfixOfSuffix(s, m, r, |s| - |m|);
    r
  }

  /** `rstrip()` after `lstrip()`: both ends are now non-whitespace. */
  lemma {:induction false} StripEndTrimmed(m: string)
    requires |m| == 0 || !IsSpace(m[0])
    ensures Trimmed(StripEnd(m))
  {
    var r := StripEnd(m);
    if |r| > 0 {
      assert r[0] == m[0];
    }
  }

  /** A prefix of a suffix of `s` is an infix of `s`, and what follows it
      in the suffix is what follows it in `s`. */
  lemma {:induction false} InfixOfSuffix(s: string, m: string, r: string, i: nat)
    requires i <= |s| && m == s[i..]
    requires |r| <= |m| && r == m[..|r|] && AllSpace(m[|r|..])
    ensures i + |r| <= |s| && r == s[i..i + |r|] && AllSpace(s[i + |r|..])
  {
    SuffixSlices(s, i, |r|);
  }

  /** Slicing a suffix is slicing the whole string at shifted bounds. */
  lemma SuffixSlices(s: string, i: nat, k: nat)
    requires i + k <= |s|
    ensures s[i..][..k] == s[i..i + k] && s[i..][k..] == s[i + k..]
  {
  }

  lemma {:induction false} StripStartAllSpace(s: string)
    requires AllSpace(s)
    ensures StripStart(s) == ""
    decreases |s|
  {
    if |s| > 0 {
      StripStartAllSpace(s[1..]);
    }
  }

  lemma {:induction false} StripStartSkips(pre: string, rest: string)
    requires AllSpace(pre)
    requires |rest| > 0 && !IsSpace(rest[0])
    ensures StripStart(pre + rest) == rest
    decreases |pre|
  {
    if |pre| > 0 {
      assert (pre + rest)[1..] == pre[1..] + rest;
      StripStartSkips(pre[1..], rest);
    } else {
      assert pre + rest == rest;
    }
  }

  lemma {:induction false} StripEndSkips(rest: string, post: string)
    requires AllSpace(post)
    requires |rest| == 0 || !IsSpace(rest[|rest| - 1])
    ensures StripEnd(rest + post) == rest
    decreases |post|
  {
    if |post| > 0 {
      assert (rest + post)[..|rest + post| - 1] == rest + post[..|post| - 1];
      StripEndSkips(rest, post[..|post| - 1]);
    } else {
      assert rest + post == rest;
    }
  }

  /** Reference definition of `strip()`: whatever whitespace surrounds a
      trimmed middle, stripping yields exactly that middle. Together with
      the contract of `Strip` this pins its result down uniquely. */
  lemma {:induction false} StripUnique(pre: string, m: string, post: string)
    requires AllSpace(pre) && AllSpace(post) && Trimmed(m)
    ensures Strip(pre + m + post) == m
  {
    if |m| == 0 {
      var s := pre + m + post;
      assert AllSpace(s) by {
        forall i | 0 <= i < |s| ensures IsSpace(s[i]) {
          if i < |pre| {
            assert s[i] == pre[i];
          } else {
            assert s[i] == post[i - |pre|];
          }
        }
      }
      StripStartAllSpace(s);
    } else {
      assert pre + m + post == pre + (m + post);
      StripStartSkips(pre, m + post);
      StripEndSkips(m, post);
    }
  }

  /** Text with no whitespace at either end is left alone. */
  lemma {:induction false} StripTrimmed(m: string)
    requires Trimmed(m)
    ensures Strip(m) == m
  {
    var none := "";
    assert AllSpace(none);
    assert none + m + none == m;
    StripUnique(none, m, none);
  }

  lemma {:induction false} StripIdempotent(s: string)
    ensures Strip(Strip(s)) == Strip(s)
  {
    StripTrimmed(Strip(s));
  }

  /** What `strip()` returns is a piece of its argument, so any pattern it
      contains, its argument contains too. */
  lemma {:induction false} StripContains(s: string, p: string)
    ensures Contains(Strip(s), p) ==> Contains(s, p)
  {
    var r, i := Strip(s), Lead(s);
    SplitAround(s, i, |r|);
    if Contains(r, p) {
      ContainsInfix(s[..i], r, s[i + |r|..], p);
    }
  }

  /** A string is what comes before an infix, the infix, and what follows. */
  lemma SplitAround(s: string, i: nat, k: nat)
    requires i + k <= |s|
    ensures s == s[..i] + s[i..i + k] + s[i + k..]
  {
  }
}
