/**
 * Attachment ids of a note: the captures of four patterns run over the raw
 * markup with `re.findall`, the file ids of the note's voice (or else audio)
 * list and the file ids of its setting blob.
 */
module Extract {
  import opened Wrappers
  import opened Strings
  import opened Notes

  /** `[\w\.\-]` on ASCII text. */
  predicate IsIdChar(c: char) {
    ('a' <= c <= 'z') || ('A' <= c <= 'Z') || ('0' <= c <= '9') || c == '_' || c == '.' || c == '-'
  }

  /** `\d` on ASCII text. */
  predicate IsDigit(c: char) {
    '0' <= c <= '9'
  }

  predicate IsQuote(c: char) {
    c == '"' || c == '\''
  }

  /** A capture of `[\w\.\-]+`. */
  predicate IsIdText(id: string) {
    id != [] && forall k :: 0 <= k < |id| ==> IsIdChar(id[k])
  }

  /** Length of the longest front run of id characters (digits only when `digits`). */
  function Run(s: string, digits: bool): (n: nat)
    ensures n <= |s|
    ensures forall k :: 0 <= k < n ==> IsIdChar(s[k]) && (digits ==> IsDigit(s[k]))
    ensures n < |s| ==> !(IsIdChar(s[n]) && (digits ==> IsDigit(s[n])))
  {
    if s != [] && IsIdChar(s[0]) && (digits ==> IsDigit(s[0])) then 1 + Run(s[1..], digits) else 0
  }

  /** Length of the longest front run of whitespace (`\s*`). */
  function SpaceRun(s: string): (n: nat)
    ensures n <= |s|
    ensures forall k :: 0 <= k < n ==> IsSpace(s[k])
  {
    if s != [] && IsSpace(s[0]) then 1 + SpaceRun(s[1..]) else 0
  }

  /** The four patterns. */
  datatype Pattern =
    | FileidParam   // fileid=["']?([\w\.\-]+)["']?   with re.I
    | Smiley        // ☺\s*([\w\.\-]+)
    | FileIdTag     // <fileId:(\d+)
    | SoundTag      // <sound[^>]+fileid=["']?([\w\.\-]+)["']?   with re.I

  /** A match at the front of a text: where the captured id starts, the id, and where the match ends. */
  datatype Capture = Capture(start: nat, id: string, end: nat)

  /** The capture is an id occurring in `s` inside a non-empty match. */
  predicate ValidCapture(s: string, c: Capture) {
    OccursAt(s, c.id, c.start) && c.start + |c.id| <= c.end <= |s| && 0 < c.end && IsIdText(c.id)
  }

  /** A run of id characters starting at `at`, taken as a capture ending at `end`. */
  function RunCapture(s: string, at: nat, n: nat, end: nat): (c: Capture)
    requires at + n <= end <= |s| && 0 < end && n > 0
    requires forall k :: at <= k < at + n ==> IsIdChar(s[k])
    ensures ValidCapture(s, c)
  {
    Capture(at, s[at..at + n], end)
  }

  /** `fileid=["']?([\w\.\-]+)["']?` (case-insensitive) at the front of `s`. */
  function MatchFileid(s: string): (m: Option<Capture>)
    ensures m.Some? ==> ValidCapture(s, m.value)
  {
    if |s| < 7 || Lower(s[..7]) != "fileid=" then None
    else
      var at := if 7 < |s| && IsQuote(s[7]) then 8 else 7;
      var n := Run(s[at..], false);
      if n == 0 then None
      else
        var end := if at + n < |s| && IsQuote(s[at + n]) then at + n + 1 else at + n;
        Some(RunCapture(s, at, n, end))
  }

  /** The last position `p` in `[lo, hi)` at which `fileid=` matches: what the greedy `[^>]+` backs off to. */
  function LastFileid(s: string, lo: nat, hi: nat): (p: Option<nat>)
    requires hi <= |s|
    ensures p.Some? ==> lo <= p.value < hi && MatchFileid(s[p.value..]).Some?
    decreases hi
  {
    if hi <= lo then None
    else if MatchFileid(s[hi - 1..]).Some? then Some(hi - 1)
    else LastFileid(s, lo, hi - 1)
  }

  /** No position after the one found, and none at all when nothing is found, matches `fileid=`. */
  lemma LastFileidIsLast(s: string, lo: nat, hi: nat)
    requires hi <= |s|
    ensures var p := LastFileid(s, lo, hi);
      && (p.Some? ==> forall q :: p.value < q < hi ==> MatchFileid(s[q..]).None?)
      && (p.None? ==> forall q :: lo <= q < hi ==> MatchFileid(s[q..]).None?)
  {
    forall q | lo <= q < hi && (LastFileid(s, lo, hi).None? || LastFileid(s, lo, hi).value < q)
      ensures MatchFileid(s[q..]).None?
    {
      NoFileidAbove(s, lo, hi, q);
    }
  }

  /** One position above the last match found, or in a range with none, does not match. */
  lemma {:induction false} NoFileidAbove(s: string, lo: nat, hi: nat, q: nat)
    requires hi <= |s| && lo <= q < hi
    requires LastFileid(s, lo, hi).None? || LastFileid(s, lo, hi).value < q
    ensures MatchFileid(s[q..]).None?
    decreases hi
  {
    if q < hi - 1 {
      if MatchFileid(s[hi - 1..]).None? {
        NoFileidAbove(s, lo, hi - 1, q);
      }
    }
  }

  /** One attempt of a pattern at the front of `s`. */
  function MatchAt(p: Pattern, s: string): (m: Option<Capture>)
    ensures m.Some? ==> ValidCapture(s, m.value)
  {
    match p
    case FileidParam => MatchFileid(s)
    case Smiley =>
      if s == [] || s[0] != '☺' then None
      else
        var at := 1 + SpaceRun(s[1..]);
        var n := Run(s[at..], false);
        if n == 0 then None else Some(RunCapture(s, at, n, at + n))
    case FileIdTag =>
      if !("<fileId:" <= s) then None
      else
        var n := Run(s[8..], true);
        if n == 0 then None else Some(RunCapture(s, 8, n, 8 + n))
    case SoundTag => MatchSound(s)
  }

  /** `<sound[^>]+fileid=["']?([\w\.\-]+)["']?` (case-insensitive) at the front of `s`. */
  function MatchSound(s: string): (m: Option<Capture>)
    ensures m.Some? ==> ValidCapture(s, m.value)
  {
    if |s| < 6 || Lower(s[..6]) != "<sound" then None
    else
      var hi := match IndexOf(s[6..], ">") case Some(k) => 6 + k case None => |s|;
      match LastFileid(s, 7, hi)
      case None => None
      case Some(q) =>
        var c := MatchFileid(s[q..]).value;
        ShiftCapture(s, q, c);
        Some(Capture(q + c.start, c.id, q + c.end))
  }

  /** A capture in a suffix is a capture in the whole text, shifted. */
  lemma ShiftCapture(s: string, q: nat, c: Capture)
    requires q <= |s| && ValidCapture(s[q..], c)
    ensures ValidCapture(s, Capture(q + c.start, c.id, q + c.end))
  {
    assert s[q..][c.start..c.start + |c.id|] == s[q + c.start..q + c.start + |c.id|];
  }

  /** `set(re.findall(pattern, s))`: scanning from the left, matches never overlap. */
  function Scan(p: Pattern, s: string): (ids: set<string>)
    ensures forall id :: id in ids ==> IsIdText(id) && Contains(s, id)
    ensures s != [] && MatchAt(p, s).Some? ==> MatchAt(p, s).value.id in ids
    decreases |s|
  {
    if s == [] then {}
    else match MatchAt(p, s)
      case Some(c) =>
        var rest := Scan(p, s[c.end..]);
        LiftContains(s, c.end, rest);
        assert Contains(s, c.id) by { assert OccursAt(s, c.id, c.start); }
        {c.id} + rest
      case None =>
        var rest := Scan(p, s[1..]);
        LiftContains(s, 1, rest);
        rest
  }

  lemma LiftContains(s: string, k: nat, ids: set<string>)
    requires k <= |s| && forall id :: id in ids ==> Contains(s[k..], id)
    ensures forall id :: id in ids ==> Contains(s, id)
  {
    forall id | id in ids ensures Contains(s, id) {
      ContainsInSuffix(s, id, k);
    }
  }

  /** The truthy file ids of a list, in order (`[v['fileId'] for v in l if v.get('fileId')]`). */
  function PresentIds(l: seq<Attachment>): (ids: seq<string>)
    ensures forall id :: id in ids ==> id != [] && Attachment(Some(id)) in l
    ensures forall k :: 0 <= k < |l| && l[k].fileId.Some? && l[k].fileId.value != [] ==> l[k].fileId.value in ids
    decreases |l|
  {
    if l == [] then []
    else if l[0].fileId.Some? && l[0].fileId.value != [] then [l[0].fileId.value] + PresentIds(l[1..])
    else PresentIds(l[1..])
  }

  /**
   * `extra.get('voice_list') or extra.get('audio_list') or []`, then its
   * truthy file ids: those of the voice list, or of the audio list only when
   * the voice list is empty.
   */
  function VoiceIds(extra: ExtraInfo): (ids: seq<string>)
    ensures forall id :: id in ids ==>
      && id != []
      && (if extra.voiceList != [] then Attachment(Some(id)) in extra.voiceList else Attachment(Some(id)) in extra.audioList)
    ensures var l := if extra.voiceList != [] then extra.voiceList else extra.audioList;
            forall k :: 0 <= k < |l| && l[k].fileId.Some? && l[k].fileId.value != [] ==> l[k].fileId.value in ids
  {
    PresentIds(if extra.voiceList != [] then extra.voiceList else extra.audioList)
  }

  /** The set `ids` of `process_single_note`. */
  function ExtractIds(content: string, extra: ExtraInfo, setting: seq<Attachment>): (ids: set<string>)
    ensures forall id :: id in ids ==> id != []
    ensures forall id :: id in ids ==>
      (IsIdText(id) && Contains(content, id)) || id in VoiceIds(extra) || id in PresentIds(setting)
    ensures forall id :: id in VoiceIds(extra) ==> id in ids
    ensures forall id :: id in PresentIds(setting) ==> id in ids
    ensures Scan(FileidParam, content) + Scan(Smiley, content) + Scan(FileIdTag, content) + Scan(SoundTag, content) <= ids
  {
    var found := Scan(FileidParam, content) + Scan(Smiley, content) + Scan(FileIdTag, content) + Scan(SoundTag, content);
    assert forall id :: id in found ==> IsIdText(id) && Contains(content, id);
    var voices := set id | id in VoiceIds(extra);
    var settings := set id | id in PresentIds(setting);
    found + voices + settings
  }

  /** The id written in the canonical form each pattern looks for. */
  function Encode(p: Pattern, id: string): string {
    match p
    case FileidParam => "fileid=\"" + id + "\""
    case Smiley => "☺" + id
    case FileIdTag => "<fileId:" + id + ">"
    case SoundTag => "<sound fileid=\"" + id + "\">"
  }

  /** The ids each pattern can capture (`<fileId:` takes digits only). */
  predicate Encodable(p: Pattern, id: string) {
    IsIdText(id) && (p == FileIdTag ==> forall k :: 0 <= k < |id| ==> IsDigit(id[k]))
  }

  /** A single element contributes its file id exactly once when it is truthy, and nothing otherwise. */
  lemma PresentIdsOne(a: Attachment)
    ensures PresentIds([a]) == if a.fileId.Some? && a.fileId.value != [] then [a.fileId.value] else []
  {
    assert [a][1..] == [];
  }

  /** Dropping truthy file ids works element by element, so their order is the list's. */
  lemma {:induction false} PresentIdsAppend(a: seq<Attachment>, b: seq<Attachment>)
    ensures PresentIds(a + b) == PresentIds(a) + PresentIds(b)
    decreases |a|
  {
    if a == [] {
      assert a + b == b;
    } else {
      assert (a + b)[0] == a[0] && (a + b)[1..] == a[1..] + b;
      PresentIdsAppend(a[1..], b);
    }
  }

  lemma {:induction false} RunOfId(id: string, t: string, digits: bool)
    requires forall k :: 0 <= k < |id| ==> IsIdChar(id[k]) && (digits ==> IsDigit(id[k]))
    requires t == [] || !IsIdChar(t[0])
    ensures Run(id + t, digits) == |id|
  {
    if id != [] {
      assert (id + t)[1..] == id[1..] + t;
      RunOfId(id[1..], t, digits);
    } else {
      assert id + t == t;
    }
  }

  /** The whitespace run of a text is exactly its leading spaces when a non-space follows them. */
  lemma {:induction false} SpaceRunOf(sp: string, t: string)
    requires AllSpace(sp) && (t == [] || !IsSpace(t[0]))
    ensures SpaceRun(sp + t) == |sp|
    decreases |sp|
  {
    if sp != [] {
      assert (sp + t)[0] == sp[0] && (sp + t)[1..] == sp[1..] + t;
      SpaceRunOf(sp[1..], t);
    } else {
      assert sp + t == t;
    }
  }

  /** With no match in `[m, hi)`, the search falls through to `m`. */
  lemma {:induction false} LastFileidSkips(s: string, lo: nat, m: nat, hi: nat)
    requires m <= hi <= |s| && forall q :: m <= q < hi ==> MatchFileid(s[q..]).None?
    ensures LastFileid(s, lo, hi) == LastFileid(s, lo, m)
    decreases hi
  {
    if m < hi {
      assert MatchFileid(s[hi - 1..]).None?;
      LastFileidSkips(s, lo, m, hi - 1);
    }
  }

  /** A quoted id after `fileid=` is captured, quotes excluded. */
  lemma FileidQuoted(id: string, rest: string)
    requires IsIdText(id)
    ensures MatchFileid("fileid=\"" + id + "\"" + rest) == Some(Capture(8, id, 9 + |id|))
  {
    var t := "fileid=\"" + id + "\"" + rest;
    assert t[..7] == "fileid=";
    assert t[7] == '"';
    assert t[8..] == id + ("\"" + rest);
    RunOfId(id, "\"" + rest, false);
    assert t[8 + |id|] == '"';
    assert t[8..8 + |id|] == id;
  }

  /** The capture at the front of the text, and nothing after it, is all a scan finds. */
  lemma ScanOnlyFront(p: Pattern, s: string, c: Capture)
    requires s != [] && MatchAt(p, s) == Some(c) && Scan(p, s[c.end..]) == {}
    ensures Scan(p, s) == {c.id}
  {
  }

  /** Writing an id in a pattern's form and scanning the text recovers exactly that id. */
  lemma ScanRecoversId(p: Pattern, id: string)
    requires Encodable(p, id)
    ensures Scan(p, Encode(p, id)) == {id}
  {
    match p {
      case FileidParam => FileidParamRecovers(id);
      case Smiley => SmileyRecovers(id);
      case FileIdTag => FileIdTagRecovers(id);
      case SoundTag => SoundTagRecovers(id);
    }
  }

  lemma FileidParamRecovers(id: string)
    requires IsIdText(id)
    ensures Scan(FileidParam, Encode(FileidParam, id)) == {id}
  {
    var s := Encode(FileidParam, id);
    FileidQuoted(id, []);
    assert s == "fileid=\"" + id + "\"" + [];
    assert s[|s|..] == [];
    ScanOnlyFront(FileidParam, s, Capture(8, id, |s|));
  }

  lemma SmileyRecovers(id: string)
    requires IsIdText(id)
    ensures Scan(Smiley, Encode(Smiley, id)) == {id}
  {
    var s := Encode(Smiley, id);
    assert s + [] == s;
    SmileyMatches(id, []);
    assert s[|s|..] == [];
    ScanOnlyFront(Smiley, s, Capture(1, id, |s|));
  }

  lemma FileIdTagRecovers(id: string)
    requires Encodable(FileIdTag, id)
    ensures Scan(FileIdTag, Encode(FileIdTag, id)) == {id}
  {
    var s := Encode(FileIdTag, id);
    assert s + [] == s;
    FileIdTagMatches(id, []);
    var r := s[|s| - 1..];
    assert r == ">";
    assert MatchAt(FileIdTag, r) == None;
    assert r[1..] == [];
    ScanOnlyFront(FileIdTag, s, Capture(8, id, |s| - 1));
  }

  lemma SoundTagRecovers(id: string)
    requires IsIdText(id)
    ensures Scan(SoundTag, Encode(SoundTag, id)) == {id}
  {
    var s := Encode(SoundTag, id);
    assert s + [] == s;
    SoundTagMatches(id, []);
    assert MatchAt(SoundTag, s) == MatchSound(s);
    var r := s[|s| - 1..];
    assert r == ">";
    assert MatchAt(SoundTag, r) == None;
    assert r[1..] == [];
    ScanOnlyFront(SoundTag, s, Capture(15, id, |s| - 1));
  }

  /** The tag is matched whole, whatever follows it, and captures the id. */
  lemma SoundTagMatches(id: string, post: string)
    requires IsIdText(id)
    ensures var e := Encode(SoundTag, id);
            MatchSound(e + post) == Some(Capture(15, id, |e| - 1))
  {
    SoundTagOpens(id, post);
    SoundTagEnd(id, post);
    SoundTagLastFileid(id, post);
    SoundTagFileid(id, post);
  }

  /** The tag opens with `<sound`, in any case. */
  lemma SoundTagOpens(id: string, post: string)
    ensures var s := Encode(SoundTag, id) + post; |s| >= 6 && Lower(s[..6]) == "<sound"
  {
    var s := Encode(SoundTag, id) + post;
    assert s[..6] == "<sound";
  }

  /** The attribute at position 7 captures the id, quotes excluded. */
  lemma SoundTagFileid(id: string, post: string)
    requires IsIdText(id)
    ensures var s := Encode(SoundTag, id) + post; MatchFileid(s[7..]) == Some(Capture(8, id, 9 + |id|))
  {
    var s := Encode(SoundTag, id) + post;
    assert s[7..] == "fileid=\"" + id + "\"" + (">" + post);
    FileidQuoted(id, ">" + post);
  }

  /** The tag's `[^>]+` stops at its closing `>`. */
  lemma SoundTagEnd(id: string, post: string)
    requires IsIdText(id)
    ensures var e := Encode(SoundTag, id); IndexOf((e + post)[6..], ">") == Some(|e| - 7)
  {
    var e := Encode(SoundTag, id);
    var tail := (e + post)[6..];
    assert tail == " fileid=\"" + id + "\">" + post;
    assert OccursAt(tail, ">", |e| - 7);
    forall j | 0 <= j < |e| - 7 ensures !OccursAt(tail, ">", j) {
      assert tail[j..j + 1] == [tail[j]];
      if 9 <= j < 9 + |id| {
        assert tail[j] == id[j - 9];
      }
    }
    IndexOfIsFirst(tail, ">", |e| - 7);
  }

  /** The only `fileid=` inside the tag is the one at position 7. */
  lemma SoundTagLastFileid(id: string, post: string)
    requires IsIdText(id)
    ensures var e := Encode(SoundTag, id); LastFileid(e + post, 7, |e| - 1) == Some(7)
  {
    var e := Encode(SoundTag, id);
    var s := e + post;
    forall q | 8 <= q < |e| - 1 ensures MatchFileid(s[q..]).None? {
      NoFileidInTag(id, post, q);
    }
    LastFileidSkips(s, 7, 8, |e| - 1);
    SoundTagFileid(id, post);
    LastFileidAt(s, 7);
  }

  /**
   * No `fileid=` starts after position 7 inside the tag: its `=` would fall
   * on the opening quote or the id, or the closing quote would fall among
   * the letters.
   */
  lemma NoFileidInTag(id: string, post: string, q: nat)
    requires IsIdText(id)
    requires 8 <= q < |Encode(SoundTag, id)| - 1
    ensures MatchFileid((Encode(SoundTag, id) + post)[q..]).None?
  {
    var e := Encode(SoundTag, id);
    var s := e + post;
    var t := s[q..];
    if |t| >= 7 {
      var w := t[..7];
      assert e == "<sound fileid=\"" + id + "\">";
      if q + 6 < |e| - 2 {
        assert w[6] == s[q + 6] == e[q + 6];
        if q + 6 > 14 {
          assert e[q + 6] == id[q + 6 - 15];
        }
        assert Lower(w)[6] != '=';
      } else {
        var d := |e| - 2 - q;
        assert w[d] == s[|e| - 2] == '"';
        assert Lower(w)[d] == '"';
        assert '"' !in "fileid=";
        assert "fileid="[d] in "fileid=";
      }
    }
  }

  /** A match at `q` is the last one in `[q, q + 1)`. */
  lemma LastFileidAt(s: string, q: nat)
    requires q < |s| && MatchFileid(s[q..]).Some?
    ensures LastFileid(s, q, q + 1) == Some(q)
  {
  }

  /** The character every match of the pattern starts with. */
  predicate Leads(p: Pattern, c: char) {
    match p
    case FileidParam => c == 'f' || c == 'F'
    case Smiley => c == '☺'
    case FileIdTag => c == '<'
    case SoundTag => c == '<'
  }

  /** No match starts at a character that does not lead the pattern. */
  lemma NoLeadNoMatch(p: Pattern, s: string)
    requires s != [] && !Leads(p, s[0])
    ensures MatchAt(p, s).None?
  {
    match p {
      case FileidParam =>
        if |s| >= 7 {
          assert s[..7][0] == s[0];
          assert Lower(s[..7])[0] != 'f';
        }
      case Smiley =>
      case FileIdTag =>
        if |s| >= 8 {
          assert s[..8][0] == s[0];
        }
      case SoundTag =>
        if |s| >= 6 {
          assert s[..6][0] == s[0];
          assert Lower(s[..6])[0] != '<';
        }
    }
  }

  /**
   * `re.findall` scans on past text where no match starts: such a prefix
   * adds nothing to a scan of what follows it.
   */
  lemma {:induction false} ScanSkipsPrefix(p: Pattern, pre: string, t: string)
    requires forall k :: 0 <= k < |pre| ==> MatchAt(p, (pre + t)[k..]).None?
    ensures Scan(p, pre + t) == Scan(p, t)
    decreases |pre|
  {
    if pre == [] {
      assert pre + t == t;
    } else {
      var s := pre + t;
      assert s[0..] == s;
      assert s[1..] == pre[1..] + t;
      forall k | 0 <= k < |pre| - 1 ensures MatchAt(p, (pre[1..] + t)[k..]).None? {
        assert (pre[1..] + t)[k..] == s[k + 1..];
      }
      ScanSkipsPrefix(p, pre[1..], t);
    }
  }

  /** Text in which nothing leads the pattern starts no match. */
  lemma LeadFreeNoMatch(p: Pattern, pre: string, t: string)
    requires forall k :: 0 <= k < |pre| ==> !Leads(p, pre[k])
    ensures forall k :: 0 <= k < |pre| ==> MatchAt(p, (pre + t)[k..]).None?
  {
    forall k | 0 <= k < |pre| ensures MatchAt(p, (pre + t)[k..]).None? {
      assert (pre + t)[k..][0] == pre[k];
      NoLeadNoMatch(p, (pre + t)[k..]);
    }
  }

  /** After a match, `re.findall` goes on where the match ended. */
  lemma ScanAfterMatch(p: Pattern, e: string, t: string)
    requires e + t != [] && MatchAt(p, e + t).Some? && MatchAt(p, e + t).value.end == |e|
    ensures Scan(p, e + t) == {MatchAt(p, e + t).value.id} + Scan(p, t)
  {
    assert (e + t)[|e|..] == t;
  }

  /**
   * An id written in a pattern's form is matched there, whatever follows;
   * after a smiley the id must end where the text's id characters end.
   */
  lemma EncodedMatches(p: Pattern, id: string, post: string)
    requires Encodable(p, id)
    requires p == Smiley ==> post == [] || !IsIdChar(post[0])
    ensures MatchAt(p, Encode(p, id) + post).Some?
    ensures MatchAt(p, Encode(p, id) + post).value.id == id
  {
    match p {
      case FileidParam =>
        assert Encode(p, id) + post == "fileid=\"" + id + "\"" + post;
        FileidQuoted(id, post);
      case Smiley => SmileyMatches(id, post);
      case FileIdTag => FileIdTagMatches(id, post);
      case SoundTag => SoundTagMatches(id, post);
    }
  }

  lemma SmileyMatches(id: string, post: string)
    requires IsIdText(id) && (post == [] || !IsIdChar(post[0]))
    ensures var s := Encode(Smiley, id) + post; MatchAt(Smiley, s) == Some(Capture(1, id, 1 + |id|))
  {
    var s := Encode(Smiley, id) + post;
    assert s[0] == '☺' && s[1..] == id + post;
    assert IsIdChar(id[0]) && (id + post)[0] == id[0];
    assert SpaceRun(s[1..]) == 0;
    RunOfId(id, post, false);
    assert s[1..1 + |id|] == id;
  }

  lemma FileIdTagMatches(id: string, post: string)
    requires Encodable(FileIdTag, id)
    ensures var s := Encode(FileIdTag, id) + post; MatchAt(FileIdTag, s) == Some(Capture(8, id, 8 + |id|))
  {
    var s := Encode(FileIdTag, id) + post;
    assert "<fileId:" <= s;
    assert s[8..] == id + (">" + post);
    RunOfId(id, ">" + post, true);
    assert s[8..8 + |id|] == id;
  }

  /**
   * `re.findall` finds every id written in a pattern's form: the text before
   * it holds nothing that could start a match, so no earlier match swallows it.
   */
  lemma ScanFindsEncoded(p: Pattern, id: string, pre: string, post: string)
    requires Encodable(p, id)
    requires forall k :: 0 <= k < |pre| ==> !Leads(p, pre[k])
    requires p == Smiley ==> post == [] || !IsIdChar(post[0])
    ensures id in Scan(p, pre + Encode(p, id) + post)
  {
    EncodedMatches(p, id, post);
    ScanFindsAfter(p, pre, Encode(p, id), post);
  }

  /** A match at the start of `e + post` is found after a prefix that starts none. */
  lemma ScanFindsAfter(p: Pattern, pre: string, e: string, post: string)
    requires forall k :: 0 <= k < |pre| ==> !Leads(p, pre[k])
    requires e + post != [] && MatchAt(p, e + post).Some?
    ensures MatchAt(p, e + post).value.id in Scan(p, pre + e + post)
  {
    assert pre + e + post == pre + (e + post);
    LeadFreeNoMatch(p, pre, e + post);
    ScanSkipsPrefix(p, pre, e + post);
  }
  /** A character that cannot be in an id is not in one. */
  lemma NotInId(id: string, ch: char)
    requires IsIdText(id) && !IsIdChar(ch)
    ensures ch !in id
  {
    forall k | 0 <= k < |id| ensures id[k] != ch {
      assert IsIdChar(id[k]);
    }
  }

  /** The four encodings written one after another, separated by spaces. */
  function FourEncodings(a: string, b: string, c: string, d: string): string {
    Encode(FileidParam, a) + " " + Encode(Smiley, b) + " " + Encode(FileIdTag, c) + " " + Encode(SoundTag, d)
  }

  /**
   * All four encodings in one text and a voice id: every one of them is in
   * the note's id set, each pattern's scan reaching its own encoding past
   * the others.
   */
  lemma ExtractsAllEncodings(a: string, b: string, c: string, d: string, v: string, setting: seq<Attachment>)
    requires Encodable(FileidParam, a) && Encodable(Smiley, b) && Encodable(FileIdTag, c) && Encodable(SoundTag, d)
    requires v != []
    ensures var ids := ExtractIds(FourEncodings(a, b, c, d), ExtraInfo(None, [Attachment(Some(v))], []), setting);
            a in ids && b in ids && c in ids && d in ids && v in ids
  {
    var content := FourEncodings(a, b, c, d);
    var extra := ExtraInfo(None, [Attachment(Some(v))], []);
    var ids := ExtractIds(content, extra, setting);
    FileidInFour(a, b, c, d);
    ScannedIsExtracted(content, extra, setting, a);
    SmileyInFour(a, b, c, d);
    ScannedIsExtracted(content, extra, setting, b);
    FileIdTagInFour(a, b, c, d);
    ScannedIsExtracted(content, extra, setting, c);
    SoundTagInFour(a, b, c, d);
    ScannedIsExtracted(content, extra, setting, d);
    PresentIdsOne(Attachment(Some(v)));
    assert v in VoiceIds(extra);
  }

  /** Whatever one of the four scans finds is in the id set. */
  lemma ScannedIsExtracted(content: string, extra: ExtraInfo, setting: seq<Attachment>, id: string)
    requires id in Scan(FileidParam, content) || id in Scan(Smiley, content)
             || id in Scan(FileIdTag, content) || id in Scan(SoundTag, content)
    ensures id in ExtractIds(content, extra, setting)
  {
  }

  lemma FileidInFour(a: string, b: string, c: string, d: string)
    requires Encodable(FileidParam, a)
    ensures a in Scan(FileidParam, FourEncodings(a, b, c, d))
  {
    var post := " " + Encode(Smiley, b) + " " + Encode(FileIdTag, c) + " " + Encode(SoundTag, d);
    assert FourEncodings(a, b, c, d) == Encode(FileidParam, a) + post;
    EncodedMatches(FileidParam, a, post);
  }

  lemma SmileyInFour(a: string, b: string, c: string, d: string)
    requires Encodable(FileidParam, a) && Encodable(Smiley, b)
    ensures b in Scan(Smiley, FourEncodings(a, b, c, d))
  {
    var pre := Encode(FileidParam, a) + " ";
    var post := " " + Encode(FileIdTag, c) + " " + Encode(SoundTag, d);
    assert FourEncodings(a, b, c, d) == pre + Encode(Smiley, b) + post;
    NotInId(a, '☺');
    assert '☺' !in pre;
    ScanFindsEncoded(Smiley, b, pre, post);
  }

  lemma FileIdTagInFour(a: string, b: string, c: string, d: string)
    requires Encodable(FileidParam, a) && Encodable(Smiley, b) && Encodable(FileIdTag, c)
    ensures c in Scan(FileIdTag, FourEncodings(a, b, c, d))
  {
    var pre := Encode(FileidParam, a) + " " + Encode(Smiley, b) + " ";
    var post := " " + Encode(SoundTag, d);
    assert FourEncodings(a, b, c, d) == pre + Encode(FileIdTag, c) + post;
    NotInId(a, '<');
    NotInId(b, '<');
    assert '<' !in pre;
    ScanFindsEncoded(FileIdTag, c, pre, post);
  }

  lemma SoundTagInFour(a: string, b: string, c: string, d: string)
    requires Encodable(FileidParam, a) && Encodable(Smiley, b) && Encodable(FileIdTag, c) && Encodable(SoundTag, d)
    ensures d in Scan(SoundTag, FourEncodings(a, b, c, d))
  {
    var pre := Encode(FileidParam, a) + " " + Encode(Smiley, b) + " ";
    var t := Encode(FileIdTag, c) + " " + Encode(SoundTag, d);
    assert FourEncodings(a, b, c, d) == pre + t;
    NotInId(a, '<');
    NotInId(b, '<');
    assert '<' !in pre;
    LeadFreeNoMatch(SoundTag, pre, t);
    ScanSkipsPrefix(SoundTag, pre, t);
    SoundScanPastFileIdTag(c, d);
  }

  /** A sound scan steps over a `<fileId:` tag and a space and finds the sound tag after them. */
  lemma SoundScanPastFileIdTag(c: string, d: string)
    requires Encodable(FileIdTag, c) && IsIdText(d)
    ensures d in Scan(SoundTag, Encode(FileIdTag, c) + " " + Encode(SoundTag, d))
  {
    var rest := "fileId:" + c + "> ";
    var e4 := Encode(SoundTag, d);
    var t := Encode(FileIdTag, c) + " " + e4;
    assert t == "<" + (rest + e4);
    NotSoundAfterLt(rest + e4);
    assert t[1..] == rest + e4;
    NotInId(c, '<');
    assert '<' !in rest;
    LeadFreeNoMatch(SoundTag, rest, e4);
    ScanSkipsPrefix(SoundTag, rest, e4);
    ScanRecoversId(SoundTag, d);
  }

  /** `<` followed by an `f` starts no sound tag. */
  lemma NotSoundAfterLt(x: string)
    requires x != [] && x[0] == 'f'
    ensures MatchAt(SoundTag, "<" + x).None?
  {
    var s := "<" + x;
    if |s| >= 6 {
      assert s[..6][1] == 'f';
      assert Lower(s[..6])[1] == 'f';
    }
  }
}
