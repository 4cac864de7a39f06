/**
 * Rewriting a note's markup once its attachments are saved: for every
 * resolved id, five passes replace the markup that mentions it by the
 * Obsidian embed on a line of its own.
 */
module Substitute {
  import opened Wrappers
  import opened Strings
  import opened Extract

  /** The first index at or after `from` holding `c`, or `|s|` when there is none. */
  function NextChar(s: string, c: char, from: nat): (k: nat)
    requires from <= |s|
    ensures from <= k <= |s|
    ensures k < |s| ==> s[k] == c
    ensures forall j :: from <= j < k ==> s[j] != c
    decreases |s| - from
  {
    if from == |s| || s[from] == c then from else NextChar(s, c, from + 1)
  }

  /**
   * `fid` occurs at `q` and, for a tag, a `>` follows it: the point where
   * the regex's leading `[^>]*` (or `\s*`) can stop and the rest still match.
   */
  predicate Anchors(s: string, fid: string, q: nat, tag: bool) {
    OccursAt(s, fid, q) && (tag ==> NextChar(s, '>', q + |fid|) < |s|)
  }

  /** The largest anchor in `[lo, hi)`: greedy repetition backs off from the right. */
  function LastAnchor(s: string, fid: string, lo: nat, hi: nat, tag: bool): (r: Option<nat>)
    ensures r.Some? ==> lo <= r.value < hi && Anchors(s, fid, r.value, tag)
    ensures r.Some? ==> forall q :: r.value < q < hi ==> !Anchors(s, fid, q, tag)
    ensures r.None? ==> forall q :: lo <= q < hi ==> !Anchors(s, fid, q, tag)
    decreases hi
  {
    if hi <= lo then None
    else if Anchors(s, fid, hi - 1, tag) then Some(hi - 1)
    else LastAnchor(s, fid, lo, hi - 1, tag)
  }

  /** The three regular-expression passes. */
  datatype SubPattern =
    | SoundElement  // <sound[^>]*FID[^>]*\/?>
    | AnyTag        // <[^>]*FID[^>]*>
    | SmileyLine    // ☺\s*FID.*

  /** `prefix[^>]*FID[^>]*>` at the front of `s` (an optional `/` before `>` changes nothing). */
  function TagMatch(s: string, prefix: string, fid: string): (e: Option<nat>)
    ensures e.Some? ==> |prefix| < e.value <= |s| && prefix <= s && Contains(s[..e.value], fid)
    ensures e.Some? ==> s[e.value - 1] == '>'
  {
    if !(prefix <= s) then None
    else
      var g := NextChar(s, '>', |prefix|);
      match LastAnchor(s, fid, |prefix|, g + 1, true)
      case None => None
      case Some(q) =>
        var e := NextChar(s, '>', q + |fid|) + 1;
        assert OccursAt(s[..e], fid, q);
        Some(e)
  }

  /** Where a match of the pass starting at the front of `s` ends. */
  function SubMatch(p: SubPattern, s: string, fid: string): (e: Option<nat>)
    requires fid != []
    ensures e.Some? ==> 0 < e.value <= |s| && Contains(s[..e.value], fid)
  {
    match p
    case SoundElement => TagMatch(s, "<sound", fid)
    case AnyTag => TagMatch(s, "<", fid)
    case SmileyLine =>
      if s == [] || s[0] != '☺' then None
      else
        match LastAnchor(s, fid, 1, 2 + SpaceRun(s[1..]), false)
        case None => None
        case Some(q) =>
          var e := NextChar(s, '\n', q + |fid|);
          assert OccursAt(s[..e], fid, q);
          Some(e)
  }

  /** `re.sub`: matches are taken from the left and never overlap. */
  function Sub(p: SubPattern, s: string, fid: string, rep: string): (r: string)
    requires fid != []
    ensures forall c :: c in r ==> c in s || c in rep
    decreases |s|
  {
    if s == [] then []
    else match SubMatch(p, s, fid)
      case Some(e) => rep + Sub(p, s[e..], fid, rep)
      case None => [s[0]] + Sub(p, s[1..], fid, rep)
  }

  /** The five passes for one resolved id and its embed `link`. */
  function SubstituteOne(content: string, fid: string, link: string): (r: string)
    requires fid != []
    ensures forall c :: c in r ==> c in content || c in link || c == '\n'
  {
    var rep := "\n" + link + "\n";
    var c1 := Sub(SoundElement, content, fid, rep);
    var c2 := Sub(AnyTag, c1, fid, rep);
    var c3 := Sub(SmileyLine, c2, fid, rep);
    var c4 := ReplaceAll(c3, "<fileId:" + fid + ">", rep);
    ReplaceAllChars(c3, "<fileId:" + fid + ">", rep);
    ReplaceAllChars(c4, "<fileId:" + fid + "/>", rep);
    ReplaceAll(c4, "<fileId:" + fid + "/>", rep)
  }

  /** The passes for every id of `order`, in that order (the iteration order of `replacements`). */
  function SubstituteAll(content: string, order: seq<string>, replacements: map<string, string>): (r: string)
    requires forall fid :: fid in order ==> fid in replacements && fid != []
    ensures (forall fid :: fid in order ==> !Contains(content, fid)) ==> r == content
    decreases |order|
  {
    if order == [] then content
    else
      assert forall fid :: fid in order[1..] ==> fid in order;
      var next := SubstituteOne(content, order[0], replacements[order[0]]);
      assert !Contains(content, order[0]) ==> next == content by {
        if !Contains(content, order[0]) {
          SubstituteOneAbsent(content, order[0], replacements[order[0]]);
        }
      }
      SubstituteAll(next, order[1..], replacements)
  }

  lemma ContainsInfix(s: string, a: string, p: string, b: string)
    requires Contains(s, a + p + b)
    ensures Contains(s, p)
  {
    var i :| 0 <= i <= |s| - |a + p + b| && OccursAt(s, a + p + b, i);
    var w := s[i..i + |a + p + b|];
    assert w[|a|..|a| + |p|] == p;
    forall k | 0 <= k < |p| ensures s[i + |a| + k] == p[k] {
      assert s[i + |a| + k] == w[|a| + k];
    }
    assert s[i + |a|..i + |a| + |p|] == p;
    assert OccursAt(s, p, i + |a|);
  }

  /** A pass leaves a text that does not mention the id as it is. */
  lemma {:induction false} SubAbsent(p: SubPattern, s: string, fid: string, rep: string)
    requires fid != [] && !Contains(s, fid)
    ensures Sub(p, s, fid, rep) == s
    decreases |s|
  {
    if s != [] {
      match SubMatch(p, s, fid)
      case Some(e) =>
        ContainsInPrefix(s, fid, e);
        assert false;
      case None =>
        if Contains(s[1..], fid) {
          ContainsInSuffix(s, fid, 1);
        }
        SubAbsent(p, s[1..], fid, rep);
    }
  }

  /** The five passes leave a text that does not mention the id as it is. */
  lemma SubstituteOneAbsent(content: string, fid: string, link: string)
    requires fid != [] && !Contains(content, fid)
    ensures SubstituteOne(content, fid, link) == content
  {
    var rep := "\n" + link + "\n";
    SubAbsent(SoundElement, content, fid, rep);
    SubAbsent(AnyTag, content, fid, rep);
    SubAbsent(SmileyLine, content, fid, rep);
    if Contains(content, "<fileId:" + fid + ">") {
      ContainsInfix(content, "<fileId:", fid, ">");
    }
    ReplaceAllAbsent(content, "<fileId:" + fid + ">", rep);
    if Contains(content, "<fileId:" + fid + "/>") {
      ContainsInfix(content, "<fileId:", fid, "/>");
    }
    ReplaceAllAbsent(content, "<fileId:" + fid + "/>", rep);
  }

  /** The character every match of the pass starts with. */
  function StartChar(p: SubPattern): char {
    match p
    case SoundElement => '<'
    case AnyTag => '<'
    case SmileyLine => '☺'
  }

  /** A pass leaves a text without its start character as it is. */
  lemma {:induction false} SubWithoutStart(p: SubPattern, s: string, fid: string, rep: string)
    requires fid != [] && StartChar(p) !in s
    ensures Sub(p, s, fid, rep) == s
    decreases |s|
  {
    if s != [] {
      assert s[0] != StartChar(p);
      assert SubMatch(p, s, fid) == None;
      SubWithoutStart(p, s[1..], fid, rep);
    }
  }

  /** The tag's only `>` is its last character. */
  lemma OnlyCloseAtEnd(prefix: string, a: string, fid: string, b: string)
    requires '>' !in prefix && '>' !in a && '>' !in fid && '>' !in b
    ensures var s := prefix + a + fid + b + ">";
            s[|s| - 1] == '>' && forall j :: 0 <= j < |s| - 1 ==> s[j] != '>'
  {
    var s := prefix + a + fid + b + ">";
    var n := |prefix|;
    forall j | 0 <= j < |s| - 1 ensures s[j] != '>' {
      if j < n {
        assert s[j] == prefix[j];
      } else if j < n + |a| {
        assert s[j] == a[j - n];
      } else if j < n + |a| + |fid| {
        assert s[j] == fid[j - n - |a|];
      } else {
        assert s[j] == b[j - n - |a| - |fid|];
      }
    }
  }

  /** A tag that starts with `prefix`, mentions the id and whose only `>` closes it is matched whole. */
  lemma WholeTagMatched(prefix: string, a: string, fid: string, b: string)
    requires fid != [] && '>' !in prefix && '>' !in a && '>' !in fid && '>' !in b
    ensures var s := prefix + a + fid + b + ">"; TagMatch(s, prefix, fid) == Some(|s|)
  {
    var s := prefix + a + fid + b + ">";
    OnlyCloseAtEnd(prefix, a, fid, b);
    var q0 := |prefix| + |a|;
    assert s[q0..q0 + |fid|] == fid;
    assert prefix <= s;
    TagMatchAtEnd(s, prefix, fid, q0);
  }

  /** With its only `>` last and the id between the prefix and it, a text is one whole tag match. */
  lemma TagMatchAtEnd(s: string, prefix: string, fid: string, q0: nat)
    requires fid != [] && prefix <= s && |prefix| <= q0 && q0 + |fid| < |s|
    requires OccursAt(s, fid, q0)
    requires s[|s| - 1] == '>' && forall j :: 0 <= j < |s| - 1 ==> s[j] != '>'
    ensures TagMatch(s, prefix, fid) == Some(|s|)
  {
    CloseIsLast(s, q0 + |fid|);
    assert Anchors(s, fid, q0, true);
    CloseIsLast(s, |prefix|);
    var r := LastAnchor(s, fid, |prefix|, NextChar(s, '>', |prefix|) + 1, true);
    assert r.Some?;
    var q := r.value;
    TagMatchFound(s, prefix, fid, q);
    CloseIsLast(s, q + |fid|);
  }

  /** When the only `>` is last, the search for `>` from anywhere before it finds it. */
  lemma CloseIsLast(s: string, from: nat)
    requires from < |s| && s[|s| - 1] == '>' && forall j :: 0 <= j < |s| - 1 ==> s[j] != '>'
    ensures NextChar(s, '>', from) == |s| - 1
  {
  }

  /** The tag match ends after the first `>` that follows the last anchor. */
  lemma TagMatchFound(s: string, prefix: string, fid: string, q: nat)
    requires prefix <= s && NextChar(s, '>', |prefix|) < |s|
    requires LastAnchor(s, fid, |prefix|, NextChar(s, '>', |prefix|) + 1, true) == Some(q)
    ensures q + |fid| <= |s|
    ensures TagMatch(s, prefix, fid) == Some(NextChar(s, '>', q + |fid|) + 1)
  {
  }

  /** A `<sound` element whose only `>` closes it is matched whole by the first pass. */
  lemma SoundElementMatched(a: string, fid: string, b: string)
    requires fid != [] && '>' !in a && '>' !in fid && '>' !in b
    ensures var s := "<sound" + a + fid + b + ">"; SubMatch(SoundElement, s, fid) == Some(|s|)
  {
    WholeTagMatched("<sound", a, fid, b);
  }

  /**
   * `re.sub` scans on past text where no match starts: such a prefix is
   * copied and the rest is rewritten as if it stood alone.
   */
  lemma {:induction false} SubSkipsPrefix(p: SubPattern, pre: string, s: string, fid: string, rep: string)
    requires fid != []
    requires forall k :: 0 <= k < |pre| ==> SubMatch(p, (pre + s)[k..], fid).None?
    ensures Sub(p, pre + s, fid, rep) == pre + Sub(p, s, fid, rep)
    decreases |pre|
  {
    if pre == [] {
      assert pre + s == s;
    } else {
      var t := pre + s;
      assert t[0..] == t;
      assert t[1..] == pre[1..] + s;
      assert Sub(p, t, fid, rep) == [pre[0]] + Sub(p, pre[1..] + s, fid, rep);
      forall k | 0 <= k < |pre| - 1 ensures SubMatch(p, (pre[1..] + s)[k..], fid).None? {
        assert (pre[1..] + s)[k..] == t[k + 1..];
      }
      SubSkipsPrefix(p, pre[1..], s, fid, rep);
      ConsSplit(pre, Sub(p, s, fid, rep));
    }
  }

  /** Text without the pass's start character starts no match. */
  lemma StartFreeNoMatch(p: SubPattern, pre: string, s: string, fid: string)
    requires fid != [] && StartChar(p) !in pre
    ensures forall k :: 0 <= k < |pre| ==> SubMatch(p, (pre + s)[k..], fid).None?
  {
    forall k | 0 <= k < |pre| ensures SubMatch(p, (pre + s)[k..], fid).None? {
      assert (pre + s)[k..][0] == pre[k];
      NoMatchWithoutStart(p, (pre + s)[k..], fid);
    }
  }

  /** After a match, `re.sub` writes the replacement and goes on where the match ended. */
  lemma SubAfterMatch(p: SubPattern, e: string, t: string, fid: string, rep: string)
    requires fid != [] && e != [] && SubMatch(p, e + t, fid) == Some(|e|)
    ensures Sub(p, e + t, fid, rep) == rep + Sub(p, t, fid, rep)
  {
    assert (e + t)[|e|..] == t;
  }

  /** No match of a pass begins at a character other than its start character. */
  lemma NoMatchWithoutStart(p: SubPattern, s: string, fid: string)
    requires fid != [] && s != [] && s[0] != StartChar(p)
    ensures SubMatch(p, s, fid) == None
  {
    match p {
      case SoundElement => assert !("<sound" <= s);
      case AnyTag => assert !("<" <= s);
      case SmileyLine =>
    }
  }

  /**
   * A `<sound … fid … >` element after text without `<` or `☺` becomes the
   * embed on a line of its own, and the text before it is kept.
   */
  lemma SoundElementReplaced(pre: string, a: string, fid: string, b: string, link: string)
    requires fid != [] && '>' !in a && '>' !in fid && '>' !in b
    requires '<' !in pre && '☺' !in pre
    requires '<' !in link && '☺' !in link
    ensures SubstituteOne(pre + ("<sound" + a + fid + b + ">"), fid, link) == pre + ("\n" + link + "\n")
  {
    var e := "<sound" + a + fid + b + ">";
    SoundElementMatched(a, fid, b);
    WholeMatchReplaced(SoundElement, pre, e, fid, "\n" + link + "\n");
    LaterPassesKeep(pre, fid, link);
  }

  /** A match covering all of `e`, after a prefix where none can start, leaves the prefix and the replacement. */
  lemma WholeMatchReplaced(p: SubPattern, pre: string, e: string, fid: string, rep: string)
    requires fid != [] && StartChar(p) !in pre && e != [] && SubMatch(p, e, fid) == Some(|e|)
    ensures Sub(p, pre + e, fid, rep) == pre + rep
  {
    assert e[|e|..] == [];
    assert Sub(p, e, fid, rep) == rep + [];
    assert rep + [] == rep;
    StartFreeNoMatch(p, pre, e, fid);
    SubSkipsPrefix(p, pre, e, fid, rep);
  }

  /** The passes after the first leave text and embed lines without `<` and `☺` as they are. */
  lemma LaterPassesKeep(pre: string, fid: string, link: string)
    requires fid != [] && '<' !in pre && '☺' !in pre && '<' !in link && '☺' !in link
    ensures var rep := "\n" + link + "\n";
            var r := pre + rep;
            var c2 := Sub(AnyTag, r, fid, rep);
            var c3 := Sub(SmileyLine, c2, fid, rep);
            var c4 := ReplaceAll(c3, "<fileId:" + fid + ">", rep);
            ReplaceAll(c4, "<fileId:" + fid + "/>", rep) == r
  {
    var rep := "\n" + link + "\n";
    var r := pre + rep;
    assert '<' !in r && '☺' !in r;
    SubWithoutStart(AnyTag, r, fid, rep);
    FinalPassesKeep(r, fid, rep);
  }

  /** The smiley pass and the two `<fileId:` replacements leave a text without `<` and `☺` as it is. */
  lemma FinalPassesKeep(r: string, fid: string, rep: string)
    requires fid != [] && '<' !in r && '☺' !in r
    ensures var c3 := Sub(SmileyLine, r, fid, rep);
            var c4 := ReplaceAll(c3, "<fileId:" + fid + ">", rep);
            ReplaceAll(c4, "<fileId:" + fid + "/>", rep) == r
  {
    SubWithoutStart(SmileyLine, r, fid, rep);
    MissingCharNotContained(r, "<fileId:" + fid + ">", 0);
    ReplaceAllAbsent(r, "<fileId:" + fid + ">", rep);
    MissingCharNotContained(r, "<fileId:" + fid + "/>", 0);
    ReplaceAllAbsent(r, "<fileId:" + fid + "/>", rep);
  }

  /**
   * A tag other than `<sound…` that mentions the id, such as
   * `<img fileid="…"/>`, is left by the first pass and replaced whole by
   * the second.
   */
  lemma TagReplaced(a: string, fid: string, b: string, link: string)
    requires fid != [] && a != [] && a[0] != 's'
    requires '>' !in a && '>' !in fid && '>' !in b
    requires '<' !in a && '<' !in fid && '<' !in b
    requires '<' !in link && '☺' !in link
    ensures SubstituteOne("<" + a + fid + b + ">", fid, link) == "\n" + link + "\n"
  {
    var s := "<" + a + fid + b + ">";
    var rep := "\n" + link + "\n";
    SoundPassKeepsTag(a, fid, b, rep);
    TagPassReplaces(a, fid, b, rep);
    KeptThenReplaced(s, fid, link);
  }

  /** A text the sound pass keeps and the tag pass replaces whole ends as the embed alone. */
  lemma KeptThenReplaced(s: string, fid: string, link: string)
    requires fid != [] && '<' !in link && '☺' !in link
    requires Sub(SoundElement, s, fid, "\n" + link + "\n") == s
    requires Sub(AnyTag, s, fid, "\n" + link + "\n") == "\n" + link + "\n"
    ensures SubstituteOne(s, fid, link) == "\n" + link + "\n"
  {
    EmbedLineFree(link);
    FinalPassesKeep("\n" + link + "\n", fid, "\n" + link + "\n");
  }

  /** The embed line holds `<` or `☺` only when the link does. */
  lemma EmbedLineFree(link: string)
    requires '<' !in link && '☺' !in link
    ensures '<' !in "\n" + link + "\n" && '☺' !in "\n" + link + "\n"
  {
    var rep := "\n" + link + "\n";
    forall k | 0 <= k < |rep| ensures rep[k] != '<' && rep[k] != '☺' {
      if 0 < k < |rep| - 1 {
        assert rep[k] == link[k - 1];
      }
    }
  }

  /** The tag pass replaces a whole tag that mentions the id and has no other `>`. */
  lemma TagPassReplaces(a: string, fid: string, b: string, rep: string)
    requires fid != [] && '>' !in a && '>' !in fid && '>' !in b
    ensures Sub(AnyTag, "<" + a + fid + b + ">", fid, rep) == rep
  {
    var s := "<" + a + fid + b + ">";
    WholeTagMatched("<", a, fid, b);
    assert [] + s == s;
    WholeMatchReplaced(AnyTag, [], s, fid, rep);
    assert [] + rep == rep;
  }

  /** The sound pass leaves a tag whose name does not start with `s` and that holds no other `<`. */
  lemma SoundPassKeepsTag(a: string, fid: string, b: string, rep: string)
    requires fid != [] && a != [] && a[0] != 's' && '<' !in a && '<' !in fid && '<' !in b
    ensures var s := "<" + a + fid + b + ">"; Sub(SoundElement, s, fid, rep) == s
  {
    var s := "<" + a + fid + b + ">";
    assert s[1] == a[0];
    assert !("<sound" <= s);
    assert s[1..] == a + fid + b + ">";
    assert '<' !in s[1..];
    SubWithoutStart(SoundElement, s[1..], fid, rep);
    assert [s[0]] + s[1..] == s;
  }

  /**
   * A `☺` line naming the id, `☺`, whitespace, the id and the rest of the
   * line, becomes the embed; the newline that ended it and what follows are
   * kept.
   */
  lemma SmileyLineReplaced(sp: string, fid: string, tail: string, rest: string, link: string)
    requires fid != [] && AllSpace(sp) && !IsSpace(fid[0]) && '\n' !in tail
    requires '<' !in fid && '<' !in tail && '<' !in rest && '☺' !in rest
    requires '<' !in link && '☺' !in link
    ensures SubstituteOne("☺" + sp + fid + tail + "\n" + rest, fid, link) == ("\n" + link + "\n") + ("\n" + rest)
  {
    var line := "☺" + sp + fid + tail;
    var s := "☺" + sp + fid + tail + "\n" + rest;
    var rep := "\n" + link + "\n";
    assert s == line + ("\n" + rest);
    assert '<' !in sp by {
      forall k | 0 <= k < |sp| ensures sp[k] != '<' {
        assert IsSpace(sp[k]);
      }
    }
    assert '<' !in s;
    SubWithoutStart(SoundElement, s, fid, rep);
    SubWithoutStart(AnyTag, s, fid, rep);
    SmileyLineMatched(sp, fid, tail, rest);
    SubAfterMatch(SmileyLine, line, "\n" + rest, fid, rep);
    SubWithoutStart(SmileyLine, "\n" + rest, fid, rep);
    var r := rep + ("\n" + rest);
    assert '<' !in r;
    MissingCharNotContained(r, "<fileId:" + fid + ">", 0);
    ReplaceAllAbsent(r, "<fileId:" + fid + ">", rep);
    MissingCharNotContained(r, "<fileId:" + fid + "/>", 0);
    ReplaceAllAbsent(r, "<fileId:" + fid + "/>", rep);
  }

  /** The smiley pass matches `☺`, the whitespace, the id and the rest of the line, up to the newline. */
  lemma SmileyLineMatched(sp: string, fid: string, tail: string, rest: string)
    requires fid != [] && AllSpace(sp) && !IsSpace(fid[0]) && '\n' !in tail
    ensures var line := "☺" + sp + fid + tail;
            SubMatch(SmileyLine, line + ("\n" + rest), fid) == Some(|line|)
  {
    var line := "☺" + sp + fid + tail;
    var s := line + ("\n" + rest);
    var q := 1 + |sp|;
    assert s[1..] == sp + (fid + tail + "\n" + rest);
    SpaceRunOf(sp, fid + tail + "\n" + rest);
    assert s[q..q + |fid|] == fid;
    assert Anchors(s, fid, q, false);
    assert LastAnchor(s, fid, 1, 2 + |sp|, false) == Some(q);
    var e := NextChar(s, '\n', q + |fid|);
    assert s[|line|] == '\n';
    forall j | q + |fid| <= j < |line| ensures s[j] != '\n' {
      assert s[j] == tail[j - q - |fid|];
    }
    assert e == |line|;
  }
}
