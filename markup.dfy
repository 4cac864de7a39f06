/**
 * `clean_content`: the body of a note arrives as the note service's markup.
 * Two kinds of element, `<text ...>` and `<background ...>`, are unwrapped
 * (their inner text is kept, the tags dropped) and three HTML entities are
 * decoded. Everything else, other tags included, is left as it is.
 */
module Markup {
  import opened Wrappers
  import opened Strings

  const TextOpen := "<text"
  const TextClose := "</text>"
  const BackgroundOpen := "<background"
  const BackgroundClose := "</background>"

  /** A match of `open[^>]*>(.*?)close` at the front of a text: the attributes, the kept inner text and what follows. */
  datatype Element = Element(attrs: string, inner: string, rest: string)

  lemma OccursAtChar(s: string, c: char, j: int)
    requires 0 <= j < |s|
    ensures OccursAt(s, [c], j) <==> s[j] == c
  {
    assert s[j..j + 1] == [s[j]];
  }

  /** Nothing occurs before the first occurrence. */
  lemma NoneBeforeFirst(body: string, p: string, j: nat)
    requires p != [] && IndexOf(body, p) == Some(j)
    ensures !Contains(body[..j], p)
  {
    var pre := body[..j];
    forall i | 0 <= i <= |pre| - |p| ensures !OccursAt(pre, p, i) {
      assert pre[i..i + |p|] == body[i..i + |p|];
      assert i < j && !OccursAt(body, p, i);
    }
  }

  /** Splitting at the first `>` leaves no `>` in front of it. */
  lemma SplitAtFirstClose(t: string, k: nat)
    requires IndexOf(t, ">") == Some(k)
    ensures t == t[..k] + ">" + t[k + 1..] && '>' !in t[..k]
  {
    forall i | 0 <= i < k ensures t[i] != '>' {
      OccursAtChar(t, '>', i);
    }
    OccursAtChar(t, '>', k);
  }

  /** Splitting at the first occurrence of `close` leaves none in front of it. */
  lemma SplitAtFirst(body: string, close: string, j: nat)
    requires close != [] && IndexOf(body, close) == Some(j)
    ensures body == body[..j] + close + body[j + |close|..] && !Contains(body[..j], close)
  {
    assert OccursAt(body, close, j);
    SplitAround(body, j, |close|);
    NoneBeforeFirst(body, close, j);
  }

  /** A text is the part before a slice, the slice, and the part after it. */
  lemma SplitAround(s: string, i: nat, n: nat)
    requires i + n <= |s|
    ensures s == s[..i] + s[i..i + n] + s[i + n..]
  {
  }

  lemma Reassemble(s: string, open: string, t: string, attrs: string, body: string, inner: string, close: string, rest: string)
    requires open <= s && t == s[|open|..]
    requires t == attrs + ">" + body && body == inner + close + rest
    ensures s == open + attrs + ">" + inner + close + rest
  {
    assert s == open + t;
  }

  /**
   * One attempt of the pattern `open[^>]*>(.*?)close` (flag `re.S`) at the
   * front of `s`: the attributes run to the first `>`, the lazy body to the
   * first `close` after it.
   */
  function MatchElement(s: string, open: string, close: string): (m: Option<Element>)
    requires close != []
    ensures m.Some? ==> |m.value.inner| + |m.value.rest| < |s|
  {
    if !(open <= s) then None
    else
      var t := s[|open|..];
      match IndexOf(t, ">")
      case None => None
      case Some(k) =>
        var body := t[k + 1..];
        match IndexOf(body, close)
        case None => None
        case Some(j) => Some(Element(t[..k], body[..j], body[j + |close|..]))
  }

  /** A match is the opening tag, attributes without `>`, `>`, an inner text without the closing tag, the closing tag and the rest. */
  lemma MatchElementSpec(s: string, open: string, close: string)
    requires close != []
    ensures var m := MatchElement(s, open, close);
            m.Some? ==> && s == open + m.value.attrs + ">" + m.value.inner + close + m.value.rest
                        && '>' !in m.value.attrs && !Contains(m.value.inner, close)
  {
    if open <= s {
      var t := s[|open|..];
      if IndexOf(t, ">").Some? {
        var k := IndexOf(t, ">").value;
        var body := t[k + 1..];
        if IndexOf(body, close).Some? {
          var j := IndexOf(body, close).value;
          SplitAtFirstClose(t, k);
          SplitAtFirst(body, close, j);
          Reassemble(s, open, t, t[..k], body, body[..j], close, body[j + |close|..]);
        }
      }
    }
  }

  /**
   * `re.sub(open + r'[^>]*>(.*?)' + close, r'\1', s, flags=re.S)`: scanning
   * from the left, every element that matches is replaced by its inner text;
   * where no match starts, one character is copied and the scan moves on.
   */
  function Unwrap(s: string, open: string, close: string): (r: string)
    requires close != []
    ensures |r| <= |s|
    ensures s != [] && MatchElement(s, open, close).Some? ==> |r| < |s|
    decreases |s|
  {
    if s == [] then []
    else match MatchElement(s, open, close)
      case Some(e) => e.inner + Unwrap(e.rest, open, close)
      case None => [s[0]] + Unwrap(s[1..], open, close)
  }

  /** The three entity replacements, in the source's order. */
  function DecodeEntities(s: string): (r: string)
    ensures !Contains(r, "&nbsp;") && !Contains(r, "&lt;") && !Contains(r, "&gt;")
  {
    var a := ReplaceAll(s, "&nbsp;", " ");
    var b := ReplaceAll(a, "&lt;", "<");
    var c := ReplaceAll(b, "&gt;", ">");
    ReplaceAllRemoves(s, "&nbsp;", " ");
    ReplaceAllKeepsAbsent(a, "&lt;", "<", "&nbsp;");
    ReplaceAllKeepsAbsent(b, "&gt;", ">", "&nbsp;");
    ReplaceAllRemoves(a, "&lt;", "<");
    ReplaceAllKeepsAbsent(b, "&gt;", ">", "&lt;");
    ReplaceAllRemoves(b, "&gt;", ">");
    c
  }

  /** Python's `clean_content(content)`. */
  function CleanContent(content: string): (r: string)
    ensures content == [] ==> r == []
    ensures !Contains(r, "&nbsp;") && !Contains(r, "&lt;") && !Contains(r, "&gt;")
  {
    if content == [] then []
    else DecodeEntities(Unwrap(Unwrap(content, TextOpen, TextClose), BackgroundOpen, BackgroundClose))
  }

  lemma FirstGreaterThan(attrs: string, body: string)
    requires '>' !in attrs
    ensures IndexOf(attrs + ">" + body, ">") == Some(|attrs|)
  {
    var t := attrs + ">" + body;
    forall j | 0 <= j < |attrs| ensures !OccursAt(t, ">", j) {
      OccursAtChar(t, '>', j);
      assert t[j] == attrs[j];
    }
    OccursAtChar(t, '>', |attrs|);
    IndexOfIsFirst(t, ">", |attrs|);
  }

  lemma FirstCloseAfter(inner: string, close: string, rest: string)
    requires close != [] && !Contains(inner + close[..|close| - 1], close)
    ensures IndexOf(inner + close + rest, close) == Some(|inner|)
  {
    var body := inner + close + rest;
    var u := inner + close[..|close| - 1];
    assert body[|inner|..|inner| + |close|] == close;
    forall j | 0 <= j < |inner| ensures !OccursAt(body, close, j) {
      if OccursAt(body, close, j) {
        assert body[j..j + |close|] == u[j..j + |close|];
        assert OccursAt(u, close, j);
      }
    }
    IndexOfIsFirst(body, close, |inner|);
  }

  /**
   * The lazy body stops at the first `close`: an element whose inner text
   * holds no `close`, even one running into the closing tag, is matched
   * whole, and its parts come back unchanged.
   */
  lemma MatchElementFinds(open: string, attrs: string, inner: string, close: string, rest: string)
    requires close != [] && '>' !in attrs
    requires !Contains(inner + close[..|close| - 1], close)
    ensures MatchElement(open + attrs + ">" + inner + close + rest, open, close)
      == Some(Element(attrs, inner, rest))
  {
    var body := inner + close + rest;
    var t := attrs + ">" + body;
    ElementParts(open, attrs, inner, close, rest);
    FirstGreaterThan(attrs, body);
    FirstCloseAfter(inner, close, rest);
  }

  /** The slices the matcher takes of an element written out in full. */
  lemma ElementParts(open: string, attrs: string, inner: string, close: string, rest: string)
    ensures var s := open + attrs + ">" + inner + close + rest;
            var body := inner + close + rest;
            var t := attrs + ">" + body;
            && open <= s && s[|open|..] == t
            && t[..|attrs|] == attrs && t[|attrs| + 1..] == body
            && body[..|inner|] == inner && body[|inner| + |close|..] == rest
  {
    var s := open + attrs + ">" + inner + close + rest;
    var body := inner + close + rest;
    var t := attrs + ">" + body;
    assert s == open + t;
    assert t[..|attrs|] == attrs;
    assert body[..|inner|] == inner;
  }

  /** Unwrapping an element keeps its inner text and goes on after it. */
  lemma UnwrapElement(open: string, attrs: string, inner: string, close: string, rest: string)
    requires close != [] && '>' !in attrs
    requires !Contains(inner + close[..|close| - 1], close)
    ensures Unwrap(open + attrs + ">" + inner + close + rest, open, close)
      == inner + Unwrap(rest, open, close)
  {
    MatchElementFinds(open, attrs, inner, close, rest);
  }

  /**
   * The substitution scans on past text where no element starts: such a
   * prefix is copied and the rest is unwrapped as if it stood alone.
   */
  lemma {:induction false} UnwrapSkipsPrefix(pre: string, s: string, open: string, close: string)
    requires close != []
    requires forall k :: 0 <= k < |pre| ==> MatchElement((pre + s)[k..], open, close).None?
    ensures Unwrap(pre + s, open, close) == pre + Unwrap(s, open, close)
    decreases |pre|
  {
    if pre == [] {
      assert pre + s == s;
    } else {
      var t := pre + s;
      assert t[0..] == t;
      assert t[0] == pre[0] && t[1..] == pre[1..] + s;
      assert Unwrap(t, open, close) == [pre[0]] + Unwrap(pre[1..] + s, open, close);
      forall k | 0 <= k < |pre| - 1 ensures MatchElement((pre[1..] + s)[k..], open, close).None? {
        assert (pre[1..] + s)[k..] == t[k + 1..];
      }
      UnwrapSkipsPrefix(pre[1..], s, open, close);
      ConsSplit(pre, Unwrap(s, open, close));
    }
  }

  /** No element starts inside text that lacks the opening tag's first character. */
  lemma OpenFreeNoElement(pre: string, s: string, open: string, close: string)
    requires close != [] && open != [] && open[0] !in pre
    ensures forall k :: 0 <= k < |pre| ==> MatchElement((pre + s)[k..], open, close).None?
  {
    forall k | 0 <= k < |pre| ensures MatchElement((pre + s)[k..], open, close).None? {
      assert (pre + s)[k..][0] == pre[k];
      assert !(open <= (pre + s)[k..]);
    }
  }

  /** An element after ordinary text is unwrapped, and the scan goes on after it. */
  lemma UnwrapElementAfter(pre: string, open: string, attrs: string, inner: string, close: string, rest: string)
    requires close != [] && open != [] && open[0] !in pre && '>' !in attrs
    requires !Contains(inner + close[..|close| - 1], close)
    ensures Unwrap(pre + open + attrs + ">" + inner + close + rest, open, close)
      == pre + inner + Unwrap(rest, open, close)
  {
    var e := open + attrs + ">" + inner + close + rest;
    assert pre + open + attrs + ">" + inner + close + rest == pre + e;
    OpenFreeNoElement(pre, e, open, close);
    UnwrapSkipsPrefix(pre, e, open, close);
    UnwrapElement(open, attrs, inner, close, rest);
  }

  /** Text in which no opening tag occurs is not changed by unwrapping. */
  lemma {:induction false} UnwrapWithoutOpenTag(s: string, open: string, close: string)
    requires close != [] && !Contains(s, open)
    ensures Unwrap(s, open, close) == s
    decreases |s|
  {
    if s != [] {
      if open <= s {
        assert OccursAt(s, open, 0);
      }
      if Contains(s[1..], open) {
        ContainsInSuffix(s, open, 1);
      }
      UnwrapWithoutOpenTag(s[1..], open, close);
    }
  }

  /**
   * Text with no `<text` or `<background` tag and none of the three
   * entities comes out of the cleaner unchanged.
   */
  lemma CleanKeepsPlainText(s: string)
    requires !Contains(s, TextOpen) && !Contains(s, BackgroundOpen)
    requires !Contains(s, "&nbsp;") && !Contains(s, "&lt;") && !Contains(s, "&gt;")
    ensures CleanContent(s) == s
  {
    UnwrapWithoutOpenTag(s, TextOpen, TextClose);
    UnwrapWithoutOpenTag(s, BackgroundOpen, BackgroundClose);
    ReplaceAllAbsent(s, "&nbsp;", " ");
    ReplaceAllAbsent(s, "&lt;", "<");
    ReplaceAllAbsent(s, "&gt;", ">");
  }

  /**
   * Cleaning is not idempotent: an escaped `<text>` element is decoded into
   * a real one, which a second pass then unwraps.
   */
  lemma CleanContentNotIdempotent(a: string)
    requires '<' !in a && '&' !in a
    ensures CleanContent("&lt;text>" + a + "</text>") == "<text>" + a + "</text>"
    ensures CleanContent(CleanContent("&lt;text>" + a + "</text>")) == a
  {
    CleanDecodesEscapedTag(a);
    CleanUnwrapsTag(a);
  }

  lemma CleanDecodesEscapedTag(a: string)
    requires '<' !in a && '&' !in a
    ensures CleanContent("&lt;text>" + a + "</text>") == "<text>" + a + "</text>"
  {
    var body := "text>" + a + "</text>";
    assert '&' !in body;
    NoOpenTagInEscaped(a);
    assert "&lt;" + body == "&lt;text>" + a + "</text>";
    assert "<" + body == "<text>" + a + "</text>";
    CleanDecodesEscapedLt(body);
  }

  /** The only `<` of an escaped element is the one of its closing tag. */
  lemma NoOpenTagInEscaped(a: string)
    requires '<' !in a
    ensures !Contains("&lt;text>" + a + "</text>", TextOpen)
    ensures !Contains("&lt;text>" + a + "</text>", BackgroundOpen)
  {
    var front := "&lt;text>" + a;
    var close := ['<'] + "/text>";
    assert '<' !in front;
    assert "&lt;text>" + a + "</text>" == front + close;
    assert TextOpen[1] != close[1] && BackgroundOpen[1] != close[1];
    MissingCharNotContained("/text>", TextOpen, 0);
    NotContainedCons('<', "/text>", TextOpen);
    NotContainedAfter(front, close, TextOpen);
    MissingCharNotContained("/text>", BackgroundOpen, 0);
    NotContainedCons('<', "/text>", BackgroundOpen);
    NotContainedAfter(front, close, BackgroundOpen);
  }

  /** An escaped `<` in front of text with no tag to unwrap and no `&` is decoded and nothing else changes. */
  lemma CleanDecodesEscapedLt(body: string)
    requires '&' !in body
    requires !Contains("&lt;" + body, TextOpen) && !Contains("&lt;" + body, BackgroundOpen)
    ensures CleanContent("&lt;" + body) == "<" + body
  {
    UnwrapWithoutOpenTag("&lt;" + body, TextOpen, TextClose);
    UnwrapWithoutOpenTag("&lt;" + body, BackgroundOpen, BackgroundClose);
    DecodeLeadingLt(body);
  }

  /** A leading escaped `<` is decoded; text without `&` is left alone. */
  lemma DecodeLeadingLt(body: string)
    requires '&' !in body
    ensures DecodeEntities("&lt;" + body) == "<" + body
  {
    var s := "&lt;" + body;
    assert s[1..] == "lt;" + body;
    MissingCharNotContained(s[1..], "&nbsp;", 0);
    assert s == ['&'] + s[1..];
    assert !("&nbsp;" <= s) by {
      assert s[1] == 'l';
    }
    NotContainedCons('&', s[1..], "&nbsp;");
    ReplaceAllAbsent(s, "&nbsp;", " ");
    assert "&lt;" <= s && s[4..] == body;
    MissingCharNotContained(body, "&lt;", 0);
    ReplaceAllAbsent(body, "&lt;", "<");
    MissingCharNotContained("<" + body, "&gt;", 0);
    ReplaceAllAbsent("<" + body, "&gt;", ">");
  }

  /** A `<text>` element around text with no `<` and no `&` is cleaned down to that text. */
  lemma CleanUnwrapsTag(a: string)
    requires '<' !in a && '&' !in a
    ensures CleanContent("<text>" + a + "</text>") == a
  {
    UnwrapTextElement(a);
    MissingCharNotContained(a, BackgroundOpen, 0);
    UnwrapWithoutOpenTag(a, BackgroundOpen, BackgroundClose);
    DecodeWithoutAmpersand(a);
  }

  lemma UnwrapTextElement(a: string)
    requires '<' !in a
    ensures Unwrap("<text>" + a + "</text>", TextOpen, TextClose) == a
  {
    var partial := TextClose[..|TextClose| - 1];
    assert !Contains(partial, TextClose);
    NotContainedAfter(a, partial, TextClose);
    UnwrapElement(TextOpen, "", a, TextClose, "");
    assert TextOpen + "" + ">" + a + TextClose + "" == "<text>" + a + "</text>";
  }

  /** Text without `&` holds no entity and is not changed by decoding. */
  lemma DecodeWithoutAmpersand(a: string)
    requires '&' !in a
    ensures DecodeEntities(a) == a
  {
    MissingCharNotContained(a, "&nbsp;", 0);
    MissingCharNotContained(a, "&lt;", 0);
    MissingCharNotContained(a, "&gt;", 0);
    ReplaceAllAbsent(a, "&nbsp;", " ");
    ReplaceAllAbsent(a, "&lt;", "<");
    ReplaceAllAbsent(a, "&gt;", ">");
  }
}
