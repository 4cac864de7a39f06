/**
 * `sanitize_filename`: makes a note title or folder name safe to use as a
 * path component. Characters that Windows refuses in file names are
 * dropped, newlines become spaces, surrounding whitespace is stripped and
 * the result is cut to 50 characters.
 */
module Sanitize {
  import opened Strings

  // The nine characters that the name pattern deletes: backslash, slash,
  // star, question mark, colon, double quote, angle brackets and bar.
  const Forbidden: set<char> := {'\\', '/', '*', '?', ':', '"', '<', '>', '|'}

  /** The slice `[:50]`. */
  const MaxNameLength: nat := 50

  /** The `re.sub` step: keeps exactly the characters that are not forbidden, in order. */
  function DropForbidden(s: string): (r: string)
    ensures |r| <= |s|
    ensures forall c :: c in r <==> c in s && c !in Forbidden
    ensures (forall k :: 0 <= k < |s| ==> s[k] !in Forbidden) ==> r == s
  {
    if s == [] then []
    else if s[0] in Forbidden then DropForbidden(s[1..])
    else [s[0]] + DropForbidden(s[1..])
  }

  /** One character is kept exactly when it is not forbidden. */
  lemma DropForbiddenChar(c: char)
    ensures c in Forbidden ==> DropForbidden([c]) == []
    ensures c !in Forbidden ==> DropForbidden([c]) == [c]
  {
  }

  /**
   * The pattern works character by character: dropping from a concatenation
   * is dropping from each part, so kept characters keep their order and count.
   */
  lemma {:induction false} DropForbiddenAppend(a: string, b: string)
    ensures DropForbidden(a + b) == DropForbidden(a) + DropForbidden(b)
    decreases |a|
  {
    if a != [] {
      assert (a + b)[0] == a[0] && (a + b)[1..] == a[1..] + b;
      DropForbiddenAppend(a[1..], b);
      if a[0] !in Forbidden {
        assert [a[0]] + (DropForbidden(a[1..]) + DropForbidden(b)) == ([a[0]] + DropForbidden(a[1..])) + DropForbidden(b);
      }
    } else {
      assert a + b == b;
    }
  }

  /** `s.replace('\n', ' ')`. */
  function NewlinesToSpaces(s: string): (r: string)
    ensures |r| == |s|
    ensures forall c :: c in r ==> c == ' ' || (c in s && c != '\n')
  {
    seq(|s|, k requires 0 <= k < |s| => if s[k] == '\n' then ' ' else s[k])
  }

  /** Replacing newlines one character at a time is `str.replace` with the one-character pattern. */
  lemma {:induction false} NewlinesToSpacesIsReplace(s: string)
    ensures NewlinesToSpaces(s) == ReplaceAll(s, "\n", " ")
    decreases |s|
  {
    if s != [] {
      NewlinesToSpacesIsReplace(s[1..]);
      assert NewlinesToSpaces(s) == [if s[0] == '\n' then ' ' else s[0]] + NewlinesToSpaces(s[1..]);
      assert ("\n" <= s) <==> s[0] == '\n';
      assert s[|"\n"|..] == s[1..];
    }
  }

  /** Python's `sanitize_filename(name)`. */
  function SanitizeFilename(name: string): (r: string)
    ensures |r| <= MaxNameLength
    ensures forall k :: 0 <= k < |r| ==> r[k] !in Forbidden && r[k] != '\n'
    ensures r == [] || !IsSpace(r[0])
  {
    var t := Strip(NewlinesToSpaces(DropForbidden(name)));
    PassesKeepSafeChars(name);
    var r := if |t| <= MaxNameLength then t else t[..MaxNameLength];
    CutKeepsSafe(t, r);
    r
  }

  /** Cutting a safe text to a prefix keeps it safe. */
  lemma CutKeepsSafe(t: string, r: string)
    requires r <= t
    requires forall k :: 0 <= k < |t| ==> t[k] !in Forbidden && t[k] != '\n'
    requires t == [] || !IsSpace(t[0])
    ensures forall k :: 0 <= k < |r| ==> r[k] !in Forbidden && r[k] != '\n'
    ensures r == [] || !IsSpace(r[0])
  {
  }

  /** The stripped text has no forbidden character and no newline, and does not start with a space. */
  lemma PassesKeepSafeChars(name: string)
    ensures var t := Strip(NewlinesToSpaces(DropForbidden(name)));
            && (forall k :: 0 <= k < |t| ==> t[k] !in Forbidden && t[k] != '\n')
            && (t == [] || !IsSpace(t[0]))
  {
    var d := DropForbidden(name);
    var n := NewlinesToSpaces(d);
    var t := Strip(n);
    forall k | 0 <= k < |t| ensures t[k] !in Forbidden && t[k] != '\n' {
      assert t[k] in t;
      assert t[k] in n;
      assert t[k] == ' ' || (t[k] in d && t[k] != '\n');
    }
  }

  /** A name that is already safe, stripped and short enough comes back unchanged. */
  lemma SanitizeKeepsSafeName(name: string)
    requires |name| <= MaxNameLength
    requires forall k :: 0 <= k < |name| ==> name[k] !in Forbidden && name[k] != '\n'
    requires name == [] || (!IsSpace(name[0]) && !IsSpace(name[|name| - 1]))
    ensures SanitizeFilename(name) == name
  {
    assert NewlinesToSpaces(name) == name;
  }

  /** Every character of `name` is forbidden or whitespace. */
  predicate NothingKept(name: string) {
    forall k :: 0 <= k < |name| ==> name[k] in Forbidden || IsSpace(name[k])
  }

  /** Whitespace-only after the two character passes exactly when only forbidden or whitespace characters went in. */
  lemma BlankAfterPasses(name: string)
    ensures AllSpace(NewlinesToSpaces(DropForbidden(name))) <==> NothingKept(name)
  {
    var d := DropForbidden(name);
    var n := NewlinesToSpaces(d);
    if NothingKept(name) {
      forall j | 0 <= j < |n| ensures IsSpace(n[j]) {
        assert n[j] in n;
        if n[j] != ' ' {
          assert n[j] in d;
          var k :| 0 <= k < |name| && name[k] == n[j];
        }
      }
    } else {
      var k :| 0 <= k < |name| && name[k] !in Forbidden && !IsSpace(name[k]);
      assert name[k] in name;
      assert name[k] in d;
      var j :| 0 <= j < |d| && d[j] == name[k];
      assert n[j] == d[j] && !IsSpace(n[j]);
    }
  }

  /**
   * The sanitised name is empty exactly when every character of the input is
   * forbidden or whitespace; this is when the caller falls back to a generated title.
   */
  lemma SanitizeEmptyIff(name: string)
    ensures SanitizeFilename(name) == [] <==> NothingKept(name)
  {
    StripEmptyIff(NewlinesToSpaces(DropForbidden(name)));
    BlankAfterPasses(name);
  }
}
