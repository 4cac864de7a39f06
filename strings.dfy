/**
 * Text helpers shared by the model: substring search (Python's `in`),
 * `str.replace`, `str.strip` and an ASCII `str.lower`.
 */
module Strings {
  import opened Wrappers

  /** `p` occurs in `s` starting at index `i`. */
  predicate OccursAt(s: string, p: string, i: int) {
    0 <= i && i + |p| <= |s| && s[i..i + |p|] == p
  }

  /** Python's `p in s`. */
  predicate Contains(s: string, p: string) {
    exists i | 0 <= i <= |s| - |p| :: OccursAt(s, p, i)
  }

  /** No character of `q` is a character of `r`. */
  predicate CharsDisjoint(q: string, r: string) {
    forall k :: 0 <= k < |q| ==> q[k] !in r
  }

  lemma ContainsInSuffix(s: string, p: string, k: nat)
    requires k <= |s| && Contains(s[k..], p)
    ensures Contains(s, p)
  {
    var i :| 0 <= i <= |s[k..]| - |p| && OccursAt(s[k..], p, i);
    assert s[k..][i..i + |p|] == s[k + i..k + i + |p|];
    assert OccursAt(s, p, k + i);
  }

  lemma ContainsInPrefix(s: string, p: string, k: nat)
    requires k <= |s| && Contains(s[..k], p)
    ensures Contains(s, p)
  {
    var i :| 0 <= i <= |s[..k]| - |p| && OccursAt(s[..k], p, i);
    assert s[..k][i..i + |p|] == s[i..i + |p|];
    assert OccursAt(s, p, i);
  }

  /** An occurrence in `[c] + x` is either at the front or inside `x`. */
  lemma ContainsCons(c: char, x: string, q: string)
    requires q != [] && Contains([c] + x, q)
    ensures q <= [c] + x || Contains(x, q)
  {
    var s := [c] + x;
    var i :| 0 <= i <= |s| - |q| && OccursAt(s, q, i);
    if i > 0 {
      assert s[i..i + |q|] == x[i - 1..i - 1 + |q|];
      assert OccursAt(x, q, i - 1);
    }
  }

  /** An occurrence in `a + b` cannot start inside `a` when `a` has none of `q`'s characters. */
  lemma ContainsSkipsDisjoint(a: string, b: string, q: string)
    requires q != [] && CharsDisjoint(q, a) && Contains(a + b, q)
    ensures Contains(b, q)
  {
    var s := a + b;
    var i :| 0 <= i <= |s| - |q| && OccursAt(s, q, i);
    assert q[0] !in a;
    if i < |a| {
      assert false;
    }
    assert s[i..i + |q|] == b[i - |a|..i - |a| + |q|];
    assert OccursAt(b, q, i - |a|);
  }

  /** No occurrence in `a + b` when none can start in `a` and none is in `b`. */
  lemma NotContainedAfter(a: string, b: string, q: string)
    requires q != [] && q[0] !in a && !Contains(b, q)
    ensures !Contains(a + b, q)
  {
    var s := a + b;
    forall i | 0 <= i <= |s| - |q| ensures !OccursAt(s, q, i) {
      if i < |a| {
        assert s[i..i + |q|][0] == a[i];
      } else {
        assert s[i..i + |q|] == b[i - |a|..i - |a| + |q|];
        assert !OccursAt(b, q, i - |a|);
      }
    }
  }

  /** No occurrence in `[c] + x` when `q` is not a prefix of it and is not in `x`. */
  lemma NotContainedCons(c: char, x: string, q: string)
    requires !(q <= [c] + x) && !Contains(x, q)
    ensures !Contains([c] + x, q)
  {
    var s := [c] + x;
    forall i | 0 <= i <= |s| - |q| ensures !OccursAt(s, q, i) {
      if i > 0 {
        assert s[i..i + |q|] == x[i - 1..i - 1 + |q|];
        assert !OccursAt(x, q, i - 1);
      }
    }
  }

  lemma ContainsOfAppend(a: string, b: string, q: string)
    requires Contains(a, q)
    ensures Contains(a + b, q)
  {
    var i :| 0 <= i <= |a| - |q| && OccursAt(a, q, i);
    assert (a + b)[i..i + |q|] == a[i..i + |q|];
    assert OccursAt(a + b, q, i);
  }

  lemma OccursAtShift(s: string, p: string)
    requires s != []
    ensures forall j :: 1 <= j ==> (OccursAt(s, p, j) <==> OccursAt(s[1..], p, j - 1))
  {
    forall j | 1 <= j
      ensures OccursAt(s, p, j) <==> OccursAt(s[1..], p, j - 1)
    {
      if j + |p| <= |s| {
        forall k | j <= k < j + |p| ensures s[k] == s[1..][k - 1] { }
        assert s[j..j + |p|] == s[1..][j - 1..j - 1 + |p|];
      }
    }
  }

  /** A non-empty text is its first character followed by the rest, in front of anything. */
  lemma ConsSplit(pre: string, x: string)
    requires pre != []
    ensures [pre[0]] + (pre[1..] + x) == pre + x
  {
    assert pre == [pre[0]] + pre[1..];
  }

  /** First index at which `p` occurs in `s`. */
  function IndexOf(s: string, p: string): (r: Option<nat>)
    ensures r.Some? ==> OccursAt(s, p, r.value)
    ensures r.Some? ==> forall j :: 0 <= j < r.value ==> !OccursAt(s, p, j)
    ensures r.None? <==> !Contains(s, p)
    decreases |s|
  {
    if p <= s then
      assert OccursAt(s, p, 0);
      Some(0)
    else if s == [] then
      None
    else
      var t := IndexOf(s[1..], p);
      OccursAtShift(s, p);
      if t.Some? then Some(t.value + 1) else None
  }

  /** `IndexOf` finds an occurrence exactly when nothing occurs before it. */
  lemma IndexOfIsFirst(s: string, p: string, k: nat)
    requires OccursAt(s, p, k)
    requires forall j :: 0 <= j < k ==> !OccursAt(s, p, j)
    ensures IndexOf(s, p) == Some(k)
  {
    assert Contains(s, p);
  }

  /**
   * Python's `s.replace(pat, rep)`: every occurrence of `pat`, scanned from the
   * left and never overlapping, is replaced by `rep`.
   */
  function ReplaceAll(s: string, pat: string, rep: string): (r: string)
    requires pat != []
    ensures rep == pat ==> r == s
    ensures |rep| == |pat| ==> |r| == |s|
    decreases |s|
  {
    if s == [] then []
    else if pat <= s then rep + ReplaceAll(s[|pat|..], pat, rep)
    else [s[0]] + ReplaceAll(s[1..], pat, rep)
  }

  /** Every character of the result comes from the text or from the replacement. */
  lemma {:induction false} ReplaceAllChars(s: string, pat: string, rep: string)
    requires pat != []
    ensures forall c :: c in ReplaceAll(s, pat, rep) ==> c in s || c in rep
    decreases |s|
  {
    if s != [] {
      if pat <= s {
        ReplaceAllChars(s[|pat|..], pat, rep);
      } else {
        ReplaceAllChars(s[1..], pat, rep);
      }
    }
  }

  /** Replacing a pattern that does not occur changes nothing. */
  lemma {:induction false} ReplaceAllAbsent(s: string, pat: string, rep: string)
    requires pat != [] && !Contains(s, pat)
    ensures ReplaceAll(s, pat, rep) == s
    decreases |s|
  {
    if s != [] {
      if pat <= s {
        assert OccursAt(s, pat, 0);
      } else {
        if Contains(s[1..], pat) {
          ContainsInSuffix(s, pat, 1);
        }
        ReplaceAllAbsent(s[1..], pat, rep);
      }
    }
  }

  /**
   * A prefix of the replaced text made only of characters foreign to `rep`
   * was already a prefix of the original text.
   */
  lemma {:induction false} PrefixThroughReplace(t: string, pat: string, rep: string, q: string)
    requires pat != [] && rep != [] && CharsDisjoint(q, rep)
    requires q <= ReplaceAll(t, pat, rep)
    ensures q <= t
    decreases |t|
  {
    if q != [] && t != [] {
      assert q[0] !in rep;
      if pat <= t {
        assert false;
      } else {
        var rest := ReplaceAll(t[1..], pat, rep);
        assert ReplaceAll(t, pat, rep) == [t[0]] + rest;
        assert q[1..] <= rest;
        PrefixThroughReplace(t[1..], pat, rep, q[1..]);
      }
    }
  }

  /** After `ReplaceAll`, the pattern no longer occurs, provided `rep` shares no character with it. */
  lemma {:induction false} ReplaceAllRemoves(s: string, pat: string, rep: string)
    requires pat != [] && rep != [] && CharsDisjoint(pat, rep)
    ensures !Contains(ReplaceAll(s, pat, rep), pat)
    decreases |s|
  {
    if s != [] {
      if pat <= s {
        ReplaceAllRemoves(s[|pat|..], pat, rep);
        if Contains(rep + ReplaceAll(s[|pat|..], pat, rep), pat) {
          ContainsSkipsDisjoint(rep, ReplaceAll(s[|pat|..], pat, rep), pat);
        }
      } else {
        var rest := ReplaceAll(s[1..], pat, rep);
        ReplaceAllRemoves(s[1..], pat, rep);
        if Contains([s[0]] + rest, pat) {
          ContainsCons(s[0], rest, pat);
          assert pat[1..] <= rest;
          PrefixThroughReplace(s[1..], pat, rep, pat[1..]);
          assert false;
        }
      }
    }
  }

  /** `ReplaceAll` creates no occurrence of a text that shares no character with `rep`. */
  lemma {:induction false} ReplaceAllKeepsAbsent(s: string, pat: string, rep: string, q: string)
    requires pat != [] && rep != [] && q != [] && CharsDisjoint(q, rep)
    requires !Contains(s, q)
    ensures !Contains(ReplaceAll(s, pat, rep), q)
    decreases |s|
  {
    if s != [] {
      if pat <= s {
        var rest := ReplaceAll(s[|pat|..], pat, rep);
        if Contains(s[|pat|..], q) {
          ContainsInSuffix(s, q, |pat|);
        }
        ReplaceAllKeepsAbsent(s[|pat|..], pat, rep, q);
        if Contains(rep + rest, q) {
          ContainsSkipsDisjoint(rep, rest, q);
        }
      } else {
        var rest := ReplaceAll(s[1..], pat, rep);
        if Contains(s[1..], q) {
          ContainsInSuffix(s, q, 1);
        }
        ReplaceAllKeepsAbsent(s[1..], pat, rep, q);
        if Contains([s[0]] + rest, q) {
          ContainsCons(s[0], rest, q);
          assert q[1..] <= rest;
          PrefixThroughReplace(s[1..], pat, rep, q[1..]);
          assert OccursAt(s, q, 0);
        }
      }
    }
  }

  /** Python's `str.isspace` for one character. */
  predicate IsSpace(c: char) {
    c == ' ' || ('\t' <= c <= '\r') || ('\U{1C}' <= c <= '\U{1F}') || c == '\U{85}' || c == '\U{A0}'
    || c == '\U{1680}' || ('\U{2000}' <= c <= '\U{200A}') || c == '\U{2028}' || c == '\U{2029}'
    || c == '\U{202F}' || c == '\U{205F}' || c == '\U{3000}'
  }

  /** Every character of `s` is whitespace (Python's `s.isspace() or s == ""`). */
  predicate AllSpace(s: string) {
    forall k :: 0 <= k < |s| ==> IsSpace(s[k])
  }

  /** `s.lstrip()`: the suffix of `s` that starts at its first non-space character. */
  function StripLeft(s: string): (r: string)
    ensures |r| <= |s| && r == s[|s| - |r|..]
    ensures r == [] || !IsSpace(r[0])
    ensures forall c :: c in r ==> c in s
  {
    if s != [] && IsSpace(s[0]) then StripLeft(s[1..]) else s
  }

  /** What `StripLeft` cuts off is whitespace. */
  lemma {:induction false} StripLeftCutsSpace(s: string)
    ensures AllSpace(s[..|s| - |StripLeft(s)|])
    decreases |s|
  {
    if s != [] && IsSpace(s[0]) {
      StripLeftCutsSpace(s[1..]);
      var n := |StripLeft(s)|;
      assert s[..|s| - n] == [s[0]] + s[1..][..|s| - 1 - n];
    }
  }

  /** `s.rstrip()`: the prefix of `s` that ends at its last non-space character. */
  function StripRight(s: string): (r: string)
    ensures r <= s
    ensures r == [] || !IsSpace(r[|r| - 1])
    ensures forall c :: c in r ==> c in s
  {
    if s != [] && IsSpace(s[|s| - 1]) then StripRight(s[..|s| - 1]) else s
  }

  /** What `StripRight` cuts off is whitespace. */
  lemma {:induction false} StripRightCutsSpace(s: string)
    ensures AllSpace(s[|StripRight(s)|..])
    decreases |s|
  {
    if s != [] && IsSpace(s[|s| - 1]) {
      StripRightCutsSpace(s[..|s| - 1]);
      var n := |StripRight(s)|;
      assert s[n..] == s[..|s| - 1][n..] + [s[|s| - 1]];
    }
  }

  /** `s.strip()`. */
  function Strip(s: string): (r: string)
    ensures r == [] || (!IsSpace(r[0]) && !IsSpace(r[|r| - 1]))
    ensures forall c :: c in r ==> c in s
  {
    StripRight(StripLeft(s))
  }

  /**
   * `Strip(s)` is the slice of `s` left once the whitespace before its first
   * and after its last non-space character is cut off.
   */
  lemma StripIsSlice(s: string)
    ensures exists i, j :: 0 <= i <= j <= |s| && Strip(s) == s[i..j] && AllSpace(s[..i]) && AllSpace(s[j..])
  {
    var u := StripLeft(s);
    var r := StripRight(u);
    var i := |s| - |u|;
    StripLeftCutsSpace(s);
    StripRightCutsSpace(u);
    StripSlice(s, i, u, r);
    assert r == s[i..i + |r|] && AllSpace(s[..i]) && AllSpace(s[i + |r|..]);
  }

  /**
   * A prefix `r` of the suffix `u == s[i..]` is the slice `s[i..i + |r|]`, and
   * whitespace after it in `u` is whitespace after it in `s`.
   */
  lemma StripSlice(s: string, i: nat, u: string, r: string)
    requires i <= |s| && u == s[i..] && r <= u && AllSpace(u[|r|..])
    ensures i + |r| <= |s| && r == s[i..i + |r|] && AllSpace(s[i + |r|..])
  {
    assert u[|r|..] == s[i + |r|..];
  }

  lemma {:induction false} StripLeftEmptyIff(s: string)
    ensures StripLeft(s) == [] <==> AllSpace(s)
    decreases |s|
  {
    if s != [] {
      StripLeftEmptyIff(s[1..]);
      assert forall k :: 1 <= k < |s| ==> s[k] == s[1..][k - 1];
    }
  }

  lemma {:induction false} StripRightEmptyIff(s: string)
    ensures StripRight(s) == [] <==> AllSpace(s)
    decreases |s|
  {
    if s != [] {
      StripRightEmptyIff(s[..|s| - 1]);
    }
  }

  /** `s.strip()` is empty exactly when `s` is all whitespace. */
  lemma StripEmptyIff(s: string)
    ensures Strip(s) == [] <==> AllSpace(s)
  {
    var u := StripLeft(s);
    StripLeftEmptyIff(s);
    StripRightEmptyIff(u);
  }

  function LowerChar(c: char): char {
    if 'A' <= c <= 'Z' then (c as int + 32) as char else c
  }

  /**
   * `s.lower()` restricted to ASCII letters: no capital is left, each capital
   * becomes the small letter 32 code points above it, and every other
   * character stays where it was.
   */
  function Lower(s: string): (r: string)
    ensures |r| == |s|
    ensures forall i :: 0 <= i < |r| ==> !('A' <= r[i] <= 'Z')
    ensures forall i :: 0 <= i < |s| && 'A' <= s[i] <= 'Z' ==> r[i] as int == s[i] as int + 32
    ensures forall i :: 0 <= i < |s| && !('A' <= s[i] <= 'Z') ==> r[i] == s[i]
  {
    seq(|s|, i requires 0 <= i < |s| => LowerChar(s[i]))
  }

  /** Lower-casing twice is lower-casing once. */
  lemma LowerIdempotent(s: string)
    ensures Lower(Lower(s)) == Lower(s)
  {
    assert forall i :: 0 <= i < |s| ==> LowerChar(LowerChar(s[i])) == LowerChar(s[i]);
  }

  /** A text that lacks one of the characters of `p` does not contain `p`. */
  lemma MissingCharNotContained(s: string, p: string, k: nat)
    requires k < |p| && p[k] !in s
    ensures !Contains(s, p)
  {
    forall i | 0 <= i <= |s| - |p|
      ensures !OccursAt(s, p, i)
    {
      assert s[i..i + |p|][k] == s[i + k];
    }
  }
}
