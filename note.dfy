/**
 * `process_single_note`: where a note goes in the vault, the skip of notes
 * already written, the download of every attachment, the rewriting of the
 * markup and the Markdown file written.
 */
module NoteSync {
  import opened Wrappers
  import opened Strings
  import opened Notes
  import opened Sanitize
  import opened Markup
  import opened Extension
  import opened Resolver
  import opened Lister
  import opened Extract
  import opened Substitute

  /** The title used when a note has neither an extra-info title nor a snippet. */
  const NoTitle := "无标题"

  /** The prefix of the title given to a note whose title sanitizes to nothing. */
  const NoTitlePrefix := "无标题_"

  /** A note file in the vault: its folder directory and its file name. */
  datatype NotePath = NotePath(dir: string, file: string)

  /** `folder_map.get(str(entry.get('folderId', '0')), "未分类")`. */
  function FolderName(entry: Entry, folders: map<string, string>): (name: string)
    ensures entry.folderId.GetOr(UnclassifiedId) in folders ==> name == folders[entry.folderId.GetOr(UnclassifiedId)]
    ensures entry.folderId.GetOr(UnclassifiedId) !in folders ==> name == UnclassifiedName
  {
    var id := entry.folderId.GetOr(UnclassifiedId);
    if id in folders then folders[id] else UnclassifiedName
  }

  /**
   * The folder name a listing gives a note: the unclassified name when no
   * folder read defines the note's folder id (the id `'0'` included, unless
   * a page redefines it), and otherwise the name of the last definition read.
   */
  lemma FolderNameOfListing(entry: Entry, pages: seq<PageResponse>)
    ensures var l := Walk(pages, [], InitialFolders);
            var fs := FoldersIn(pages[..PagesRead(pages)]);
            var id := entry.folderId.GetOr(UnclassifiedId);
            l.Listed? ==>
              && ((forall k :: 0 <= k < |fs| ==> fs[k].id != id) ==> FolderName(entry, l.folders) == UnclassifiedName)
              && (forall k :: 0 <= k < |fs| && fs[k].id == id && IsLast(fs, k) ==> FolderName(entry, l.folders) == fs[k].subject)
  {
    var fs := FoldersIn(pages[..PagesRead(pages)]);
    ListingIsMerge(pages);
    MergeFoldersSpec(InitialFolders, fs);
  }

  /**
   * `extra.get('title') or entry.get('snippet', '无标题')`: a non-empty title
   * wins, then the snippet (even an empty one), then the placeholder; the
   * result is empty only for an empty snippet behind a missing or empty title.
   */
  function RawTitle(entry: Entry): (t: string)
    ensures entry.extra.title.Some? && entry.extra.title.value != [] ==> t == entry.extra.title.value
    ensures t == entry.extra.title.GetOr([]) || t == entry.snippet.GetOr(NoTitle)
    ensures t == [] <==> entry.extra.title.GetOr([]) == [] && entry.snippet == Some([])
  {
    match entry.extra.title
    case Some(t) => if t != [] then t else entry.snippet.GetOr(NoTitle)
    case None => entry.snippet.GetOr(NoTitle)
  }

  /** The sanitized title, or `无标题_<id>` when sanitizing leaves nothing. */
  function NoteTitle(entry: Entry): (title: string)
    ensures title != []
  {
    var t := SanitizeFilename(RawTitle(entry));
    if t == [] then NoTitlePrefix + entry.id else t
  }

  /**
   * A note's title is its sanitized raw title (a safe file name of at most 50
   * characters) unless nothing of the raw title survives sanitizing, and only
   * then the id-based fallback.
   */
  lemma NoteTitleCases(entry: Entry)
    ensures NothingKept(RawTitle(entry)) ==> NoteTitle(entry) == NoTitlePrefix + entry.id
    ensures !NothingKept(RawTitle(entry)) ==>
      var t := NoteTitle(entry);
      t == SanitizeFilename(RawTitle(entry)) && |t| <= MaxNameLength
      && (forall k :: 0 <= k < |t| ==> t[k] !in Forbidden && t[k] != '\n')
  {
    SanitizeEmptyIff(RawTitle(entry));
  }

  /** `os.path.join(VAULT_ROOT, sanitize_filename(folder_name))` and `f"{date_str}_{title}.md"`; `day` formats a millisecond time as `%Y%m%d`. */
  function PathOf(entry: Entry, folders: map<string, string>, day: int -> string): (p: NotePath)
    ensures |p.dir| <= MaxNameLength && forall k :: 0 <= k < |p.dir| ==> p.dir[k] !in Forbidden && p.dir[k] != '\n'
    ensures day(entry.createDate) + "_" <= p.file && |p.file| > |day(entry.createDate)| + 4
    ensures p.file[|p.file| - 3..] == ".md"
  {
    var d := day(entry.createDate);
    var t := NoteTitle(entry);
    MarkdownFileShape(d, t);
    NotePath(SanitizeFilename(FolderName(entry, folders)), d + "_" + t + ".md")
  }

  /** `f"{day}_{title}.md"` starts with the day and `_`, and ends with `.md`. */
  lemma MarkdownFileShape(d: string, t: string)
    requires t != []
    ensures var f := d + "_" + t + ".md";
            d + "_" <= f && |f| > |d| + 4 && f[|f| - 3..] == ".md"
  {
    var f := d + "_" + t + ".md";
    assert f == (d + "_") + (t + ".md");
    assert f[|f| - 3..] == ".md";
  }

  /**
   * The id is not part of the path: two different notes of one folder and one
   * day whose snippets agree share a file, so the second is taken as already
   * synced.
   */
  lemma SameSnippetSamePath(e1: Entry, e2: Entry, folders: map<string, string>, day: int -> string)
    requires e1.extra == e2.extra == NoExtraInfo && e1.snippet == e2.snippet == Some("Shopping list")
    requires e1.folderId == e2.folderId && day(e1.createDate) == day(e2.createDate)
    ensures PathOf(e1, folders, day) == PathOf(e2, folders, day)
  {
    assert SanitizeFilename("Shopping list") != [] by {
      assert "Shopping list"[0] !in Forbidden && "Shopping list"[0] != '\n' && !IsSpace("Shopping list"[0]);
      SanitizeEmptyIff("Shopping list");
    }
  }

  /** The two disks hold the same files, with the same sizes, among `names`. */
  predicate AgreeOn(d1: Disk, d2: Disk, names: set<string>) {
    forall n :: n in names ==> (n in d1 <==> n in d2) && (n in d1 ==> d1[n] == d2[n])
  }

  /** `f"![[{fname}]]"`. */
  function Embed(name: string): string {
    "![[" + name + "]]"
  }

  /** The name each id resolves to, against one assets directory. */
  function NameFn(assets: Disk, server: Server): string -> Option<string> {
    fid => Resolve(fid, assets, server).name
  }

  /** Every id of `ids` that has a name, to its embed. */
  function Embeds(ids: set<string>, resolved: string -> Option<string>): (reps: map<string, string>)
    ensures forall fid :: fid in reps <==> fid in ids && resolved(fid).Some?
    ensures forall fid :: fid in reps ==> reps[fid] == Embed(resolved(fid).value)
  {
    map fid | fid in ids && resolved(fid).Some? :: Embed(resolved(fid).value)
  }

  /**
   * `replacements`: every id that resolves, against the assets directory
   * before the loop, to the embed of its file, whose name starts with the id.
   */
  function Replacements(ids: set<string>, assets: Disk, server: Server): (reps: map<string, string>)
    ensures forall fid :: fid in reps <==> fid in ids && Resolve(fid, assets, server).name.Some?
    ensures forall fid :: fid in reps ==> "![[" + fid <= reps[fid]
  {
    var reps := Embeds(ids, NameFn(assets, server));
    assert forall fid :: fid in reps ==> "![[" + fid <= reps[fid] by {
      forall fid | fid in reps ensures "![[" + fid <= reps[fid] {
        ResolveCases(fid, assets, server);
        EmbedStartsWith(fid, Resolve(fid, assets, server).name.value);
      }
    }
    reps
  }

  /** The embed of a name starts with every prefix of the name. */
  lemma EmbedStartsWith(v: string, name: string)
    requires v <= name
    ensures "![[" + v <= Embed(name)
  {
    assert Embed(name)[..3 + |v|] == "![[" + v;
  }

  /** A name some id of `ids` owns. */
  predicate Owned(ids: set<string>, n: string) {
    exists fid :: fid in ids && n in OwnNames(fid)
  }

  /**
   * The assets directory after resolving every id of `ids`: each id's own
   * names as resolving it alone would leave them, every other file untouched.
   */
  ghost predicate AssetsAfter(ids: set<string>, assets: Disk, server: Server, d: Disk) {
    (forall fid :: fid in ids ==> AgreeOn(d, Resolve(fid, assets, server).disk, OwnNames(fid)))
    && (forall n :: !Owned(ids, n) ==> ((n in d <==> n in assets) && (n in d ==> d[n] == assets[n])))
  }

  /** What resolving one id leaves on its own names depends only on those names. */
  lemma ResolveOwnNamesLocal(fid: string, d1: Disk, d2: Disk, server: Server)
    requires AgreeOn(d1, d2, OwnNames(fid))
    ensures Resolve(fid, d1, server).name == Resolve(fid, d2, server).name
    ensures AgreeOn(Resolve(fid, d1, server).disk, Resolve(fid, d2, server).disk, OwnNames(fid))
  {
    ResolveReadsOwnNamesOnly(fid, d1, d2, server);
    forall i | 0 <= i < |CacheExtensions|
      ensures Cached(d1, fid + CacheExtensions[i]) == Cached(d2, fid + CacheExtensions[i])
    {
      assert fid + CacheExtensions[i] in OwnNames(fid);
    }
    CacheIndexSame(fid, d1, d2, 0);
    var k := AcceptIndex(fid, server);
    if CacheIndex(fid, d1) == |CacheExtensions| && k < |Kinds| {
      var r := server(Kinds[k], fid);
      var n := fid + RealExtension(r.contentType);
      assert Resolve(fid, d1, server).disk == d1[n := r.length.value];
      assert Resolve(fid, d2, server).disk == d2[n := r.length.value];
    }
  }

  /**
   * The download loop of `process_single_note`: every id of the set, in the
   * set's own iteration order (returned as `order`), is resolved against the
   * assets directory as the earlier ids left it. Since ids never share a file
   * name, each id's embed is the one resolving it against the directory before
   * the loop gives, whatever the order.
   */
  method DownloadAll(ids: set<string>, assets: Disk, server: Server)
    returns (order: seq<string>, replacements: map<string, string>, assets': Disk)
    ensures |order| == |ids| && (forall fid :: fid in order <==> fid in ids)
    ensures forall i, j :: 0 <= i < j < |order| ==> order[i] != order[j]
    ensures replacements == Replacements(ids, assets, server)
    ensures AssetsAfter(ids, assets, server, assets')
  {
    var remaining := ids;
    ghost var done: set<string> := {};
    order, replacements, assets' := [], map[], assets;
    while remaining != {}
      invariant remaining !! done && remaining + done == ids
      invariant Lists(order, done)
      invariant replacements == Replacements(done, assets, server)
      invariant AssetsAfter(done, assets, server, assets')
      decreases |remaining|
    {
      var fid :| fid in remaining;
      replacements, assets' := DownloadNext(done, fid, assets, server, replacements, assets');
      OrderStep(remaining, done, ids, order, fid);
      order := order + [fid];
      done := done + {fid};
      remaining := remaining - {fid};
    }
  }

  /** One turn of the download loop: `fid` is resolved against the directory as the ids of `done` left it. */
  method DownloadNext(ghost done: set<string>, fid: string, assets: Disk, server: Server,
                      replacements: map<string, string>, cur: Disk)
    returns (replacements': map<string, string>, cur': Disk)
    requires fid !in done
    requires replacements == Replacements(done, assets, server)
    requires AssetsAfter(done, assets, server, cur)
    ensures replacements' == Replacements(done + {fid}, assets, server)
    ensures AssetsAfter(done + {fid}, assets, server, cur')
  {
    NotYetTouched(done, fid, assets, server, cur);
    ResolveOwnNamesLocal(fid, cur, assets, server);
    var name, probed, d := DownloadResource(fid, cur, server);
    EmbedsStep(done, fid, NameFn(assets, server));
    replacements' := replacements;
    if name.Some? {
      replacements' := replacements[fid := Embed(name.value)];
    }
    DownloadStep(done, fid, assets, server, cur, d);
    cur' := d;
  }

  /** `order` lists the ids of `s`, each once. */
  ghost predicate Lists(order: seq<string>, s: set<string>) {
    && |order| == |s|
    && (forall f :: f in order <==> f in s)
    && (forall i, j :: 0 <= i < j < |order| ==> order[i] != order[j])
  }

  /** Moving one id from the remaining ids to the visited ones keeps the visiting order a listing of the visited ids. */
  lemma OrderStep(remaining: set<string>, done: set<string>, ids: set<string>, order: seq<string>, fid: string)
    requires fid in remaining && remaining !! done && remaining + done == ids
    requires Lists(order, done)
    ensures remaining - {fid} !! done + {fid} && (remaining - {fid}) + (done + {fid}) == ids
    ensures Lists(order + [fid], done + {fid})
  {
  }

  /** An id not resolved yet finds its own names as they were before the loop. */
  lemma NotYetTouched(done: set<string>, fid: string, assets: Disk, server: Server, cur: Disk)
    requires fid !in done && AssetsAfter(done, assets, server, cur)
    ensures AgreeOn(cur, assets, OwnNames(fid))
  {
    forall n | n in OwnNames(fid) ensures !Owned(done, n) {
      if Owned(done, n) {
        var f :| f in done && n in OwnNames(f);
        OwnNamesDisjoint(fid, f);
      }
    }
  }

  /** One more id adds its embed, if it has a name, and nothing else. */
  lemma EmbedsStep(done: set<string>, fid: string, resolved: string -> Option<string>)
    ensures Embeds(done + {fid}, resolved)
      == if resolved(fid).Some? then Embeds(done, resolved)[fid := Embed(resolved(fid).value)]
         else Embeds(done, resolved)
  {
  }

  /** One more id resolved keeps `AssetsAfter`. */
  lemma DownloadStep(done: set<string>, fid: string, assets: Disk, server: Server, before: Disk, after: Disk)
    requires fid !in done && AssetsAfter(done, assets, server, before)
    requires AgreeOn(before, assets, OwnNames(fid))
    requires after == Resolve(fid, before, server).disk
    ensures AssetsAfter(done + {fid}, assets, server, after)
  {
    ResolveOwnNamesLocal(fid, before, assets, server);
    forall n | n !in OwnNames(fid)
      ensures (n in after <==> n in before) && (n in after ==> after[n] == before[n])
    {
      ResolveWritesOwnNamesOnly(fid, before, server, n);
    }
    forall f | f in done ensures AgreeOn(after, Resolve(f, assets, server).disk, OwnNames(f)) {
      OwnNamesDisjoint(fid, f);
    }
    forall n | !Owned(done + {fid}, n)
      ensures (n in after <==> n in assets) && (n in after ==> after[n] == assets[n])
    {
      assert n !in OwnNames(fid);
      assert !Owned(done, n);
    }
  }

  /** The heading put before the first recording appended. */
  const VoiceHeading := "\n\n---\n**\U{1F399}\U{FE0F} 附件录音：**\n"

  /**
   * The voice appendix, as a value: each voice id that resolved and that the
   * text (as appended so far) does not mention gets its embed on a line, the
   * heading going first once; `headed` says the heading is already there.
   */
  function WithVoices(content: string, vids: seq<string>, reps: map<string, string>, headed: bool): string
    decreases |vids|
  {
    if vids == [] then content
    else
      var v := vids[0];
      if !Contains(content, v) && v in reps then
        WithVoices((if headed then content else content + VoiceHeading) + reps[v] + "\n", vids[1..], reps, true)
      else WithVoices(content, vids[1..], reps, headed)
  }

  /** The ids whose embeds `WithVoices` appends, in order. */
  function Picks(content: string, vids: seq<string>, reps: map<string, string>, headed: bool): (p: seq<string>)
    ensures forall v :: v in p ==> v in vids && v in reps && !Contains(content, v)
    decreases |vids|
  {
    if vids == [] then []
    else
      var v := vids[0];
      if !Contains(content, v) && v in reps then
        var c := (if headed then content else content + VoiceHeading) + reps[v] + "\n";
        var rest := Picks(c, vids[1..], reps, true);
        NoneInPrefix(content, c, rest);
        [v] + rest
      else Picks(content, vids[1..], reps, headed)
  }

  lemma NoneInPrefix(a: string, b: string, ws: seq<string>)
    requires a <= b && forall w :: w in ws ==> !Contains(b, w)
    ensures forall w :: w in ws ==> !Contains(a, w)
  {
    forall w | w in ws ensures !Contains(a, w) {
      if Contains(a, w) {
        ContainsOfPrefix(a, b, w);
      }
    }
  }

  /** The embeds of `picked`, one per line. */
  function Lines(picked: seq<string>, reps: map<string, string>): string
    requires forall v :: v in picked ==> v in reps
  {
    if picked == [] then [] else reps[picked[0]] + "\n" + Lines(picked[1..], reps)
  }

  /**
   * The appendix is one block at the end of the text: the heading, once and
   * only if something is appended, then the embeds of the picked ids, each
   * picked id being a voice id that resolved and that the text did not
   * mention.
   */
  lemma {:induction false} WithVoicesShape(content: string, vids: seq<string>, reps: map<string, string>, headed: bool)
    ensures var p := Picks(content, vids, reps, headed);
      WithVoices(content, vids, reps, headed)
      == content + (if headed || p == [] then [] else VoiceHeading) + Lines(p, reps)
    decreases |vids|
  {
    if vids != [] {
      var v := vids[0];
      if !Contains(content, v) && v in reps {
        var h := if headed then [] else VoiceHeading;
        var c := (if headed then content else content + VoiceHeading) + reps[v] + "\n";
        assert c == content + h + (reps[v] + "\n");
        WithVoicesShape(c, vids[1..], reps, true);
        var rest := Picks(c, vids[1..], reps, true);
        assert Lines([v] + rest, reps) == reps[v] + "\n" + Lines(rest, reps) by {
          assert ([v] + rest)[1..] == rest;
        }
      } else {
        WithVoicesShape(content, vids[1..], reps, headed);
      }
    }
  }

  /**
   * The appendix only adds to the text: what was there stays a prefix, and
   * with no heading yet either nothing is added or the heading comes first.
   */
  lemma WithVoicesExtends(content: string, vids: seq<string>, reps: map<string, string>, headed: bool)
    ensures var r := WithVoices(content, vids, reps, headed);
      && content <= r
      && (!headed ==> r == content || content + VoiceHeading <= r)
  {
    WithVoicesShape(content, vids, reps, headed);
    var p := Picks(content, vids, reps, headed);
    var h := if headed || p == [] then [] else VoiceHeading;
    var r := WithVoices(content, vids, reps, headed);
    var ch := content + h;
    assert r == ch + Lines(p, reps);
    assert content <= ch && ch <= r;
    if !headed && p != [] {
      assert ch == content + VoiceHeading;
    }
  }

  /** The loop under `if voice_ids:` in `process_single_note`. */
  method AppendVoices(content: string, vids: seq<string>, reps: map<string, string>) returns (out: string)
    ensures out == WithVoices(content, vids, reps, false)
  {
    out := content;
    if vids != [] {
      var appended := false;
      for i := 0 to |vids|
        invariant WithVoices(content, vids, reps, false) == WithVoices(out, vids[i..], reps, appended)
      {
        assert vids[i..][1..] == vids[i + 1..];
        var v := vids[i];
        if !Contains(out, v) && v in reps {
          if !appended {
            out := out + VoiceHeading;
            appended := true;
          }
          out := out + reps[v] + "\n";
        }
      }
      assert vids[|vids|..] == [];
    }
  }

  lemma ContainsOfPrefix(a: string, b: string, p: string)
    requires a <= b && Contains(a, p)
    ensures Contains(b, p)
  {
    assert b[..|a|] == a;
    ContainsInPrefix(b, p, |a|);
  }

  /**
   * Every voice id that resolved to an embed mentioning it is mentioned by
   * the text afterwards: already there, or appended.
   */
  lemma {:induction false} WithVoicesMentions(content: string, vids: seq<string>, reps: map<string, string>, headed: bool)
    ensures forall v :: v in vids && v in reps && Contains(reps[v], v) ==> Contains(WithVoices(content, vids, reps, headed), v)
    decreases |vids|
  {
    if vids != [] {
      var v := vids[0];
      var r := WithVoices(content, vids, reps, headed);
      if !Contains(content, v) && v in reps {
        var c0 := if headed then content else content + VoiceHeading;
        var c := c0 + reps[v] + "\n";
        WithVoicesMentions(c, vids[1..], reps, true);
        if Contains(reps[v], v) {
          ContainsInSuffix(c0 + reps[v], v, |c0|);
          ContainsOfPrefix(c0 + reps[v], c, v);
          WithVoicesExtends(c, vids[1..], reps, true);
          ContainsOfPrefix(c, r, v);
        }
      } else {
        WithVoicesMentions(content, vids[1..], reps, headed);
        if v in reps {
          WithVoicesExtends(content, vids[1..], reps, headed);
          ContainsOfPrefix(content, r, v);
        }
      }
    }
  }

  /** Nothing is appended exactly when the text already mentions every voice id that resolved. */
  lemma {:induction false} WithVoicesUnchangedIff(content: string, vids: seq<string>, reps: map<string, string>, headed: bool)
    ensures WithVoices(content, vids, reps, headed) == content <==>
      forall v :: v in vids && v in reps ==> Contains(content, v)
    decreases |vids|
  {
    if vids != [] {
      var v := vids[0];
      if !Contains(content, v) && v in reps {
        var c := (if headed then content else content + VoiceHeading) + reps[v] + "\n";
        WithVoicesExtends(c, vids[1..], reps, true);
        assert |WithVoices(content, vids, reps, headed)| >= |c| > |content|;
      } else {
        WithVoicesUnchangedIff(content, vids[1..], reps, headed);
        assert forall w :: w in vids <==> w == v || w in vids[1..];
      }
    }
  }

  /** `md_text`: the front matter, the title as a heading, then the text and a final newline. */
  function Render(nid: string, created: string, updated: string, title: string, folder: string, content: string): (md: string)
    ensures "---\nid: " + nid + "\n" <= md
    ensures |md| > |content| && md[|md| - |content| - 1..] == content + "\n"
    ensures var tail := "\n---\n\n# " + title + "\n\n" + content + "\n"; |tail| <= |md| && md[|md| - |tail|..] == tail
  {
    var first := "---\nid: " + nid + "\n";
    var fields := "created: " + created + "\nupdated: " + updated + "\ntitle: \"" + title + "\"\nfolder: \"" + folder + "\"\nauthor: Ning";
    var heading := "\n---\n\n# " + title + "\n\n";
    var tail := heading + (content + "\n");
    Parts(first, fields, tail);
    Parts(first + fields, heading, content + "\n");
    assert first + fields + tail == first + fields + heading + (content + "\n");
    first + fields + tail
  }

  /** In `a + b + c`, `a` is a prefix and `c` the suffix of its length. */
  lemma Parts(a: string, b: string, c: string)
    ensures a <= a + b + c
    ensures (a + b + c)[|a + b + c| - |c|..] == c
  {
    assert (a + b + c)[..|a|] == a;
  }

  /** The ids of `order` that have an embed, in that order: the iteration order of `replacements`. */
  function Resolved(order: seq<string>, reps: map<string, string>): (r: seq<string>)
    ensures forall fid :: fid in r <==> fid in order && fid in reps
    decreases |order|
  {
    if order == [] then []
    else if order[0] in reps then [order[0]] + Resolved(order[1..], reps)
    else Resolved(order[1..], reps)
  }

  /** A single visited id is kept exactly once when it has an embed, and dropped otherwise. */
  lemma ResolvedOne(x: string, reps: map<string, string>)
    ensures Resolved([x], reps) == if x in reps then [x] else []
  {
    assert [x][1..] == [];
  }

  /** Keeping the ids with an embed works id by id, so their order is the visiting order. */
  lemma {:induction false} ResolvedAppend(a: seq<string>, b: seq<string>, reps: map<string, string>)
    ensures Resolved(a + b, reps) == Resolved(a, reps) + Resolved(b, reps)
    decreases |a|
  {
    if a == [] {
      assert a + b == b;
    } else {
      assert (a + b)[0] == a[0] && (a + b)[1..] == a[1..] + b;
      ResolvedAppend(a[1..], b, reps);
    }
  }

  /** The Markdown written for a fetched note, given the order its ids were visited in. */
  function NoteText(entry: Entry, folders: map<string, string>, detail: Detail, order: seq<string>,
                    reps: map<string, string>, stamp: int -> string): string
    requires forall fid :: fid in reps ==> fid != []
  {
    var content := SubstituteAll(CleanContent(detail.content), Resolved(order, reps), reps);
    var content' := WithVoices(content, VoiceIds(entry.extra), reps, false);
    Render(entry.id, stamp(detail.createDate), stamp(detail.modifyDate), NoteTitle(entry), FolderName(entry, folders), content')
  }

  /**
   * The front matter opens a note's text, and a note that mentions none of
   * its resolved ids and has no recordings ends with its cleaned text.
   */
  lemma NoteTextShape(entry: Entry, folders: map<string, string>, detail: Detail, order: seq<string>,
                      reps: map<string, string>, stamp: int -> string)
    requires forall fid :: fid in reps ==> fid != []
    ensures var md := NoteText(entry, folders, detail, order, reps, stamp);
      && "---\nid: " + entry.id + "\n" <= md
      && ((forall fid :: fid in reps ==> !Contains(CleanContent(detail.content), fid)) && VoiceIds(entry.extra) == [] ==>
            var c := CleanContent(detail.content) + "\n"; |c| <= |md| && md[|md| - |c|..] == c)
  {
    var cleaned := CleanContent(detail.content);
    var content := SubstituteAll(cleaned, Resolved(order, reps), reps);
    var content' := WithVoices(content, VoiceIds(entry.extra), reps, false);
    var md := Render(entry.id, stamp(detail.createDate), stamp(detail.modifyDate), NoteTitle(entry), FolderName(entry, folders), content');
    assert NoteText(entry, folders, detail, order, reps, stamp) == md;
    if (forall fid :: fid in reps ==> !Contains(cleaned, fid)) && VoiceIds(entry.extra) == [] {
      assert content' == cleaned;
      LineAtEnd(md, cleaned);
    }
  }

  /** A text ending in `content` and a newline ends with `content + "\n"`. */
  lemma LineAtEnd(md: string, content: string)
    requires |md| > |content| && md[|md| - |content| - 1..] == content + "\n"
    ensures var c := content + "\n"; |c| <= |md| && md[|md| - |c|..] == c
  {
  }

  /** The note files of the vault, by path, with their text. */
  type Vault = map<NotePath, string>

  /**
   * `process_single_note(entry, folder_map)`. The note file's path is worked
   * out first; when the vault already has it the note is skipped without
   * asking for its detail (`fetched` is false) and nothing changes. Otherwise
   * the detail is requested (`fetch`, None for a failed request or an empty
   * answer, in which case nothing changes either); then every attachment id is
   * resolved (`order` is the set's iteration order), the markup rewritten, the
   * voice appendix added and the file written. `day` and `stamp` format a
   * millisecond time as `%Y%m%d` and `%Y-%m-%d %H:%M:%S` in local time.
   */
  method ProcessSingleNote(entry: Entry, folders: map<string, string>, vault: Vault, assets: Disk,
                           fetch: string -> Option<Detail>, server: Server, day: int -> string, stamp: int -> string)
    returns (vault': Vault, assets': Disk, fetched: bool, order: seq<string>)
    ensures fetched <==> PathOf(entry, folders, day) !in vault
    ensures fetched && fetch(entry.id).Some? ==> PathOf(entry, folders, day) in vault'
    ensures !fetched || fetch(entry.id).None? ==> vault' == vault && assets' == assets
    ensures fetched && fetch(entry.id).Some? ==>
      var path := PathOf(entry, folders, day);
      && path in vault'
      && Synced(entry, folders, fetch(entry.id).value, assets, server, stamp, vault'[path], assets', order)
      && vault' == vault[path := vault'[path]]
  {
    vault', assets', order := vault, assets, [];
    var path := PathOf(entry, folders, day);
    fetched := path !in vault;
    if !fetched {
      return;
    }
    var full := fetch(entry.id);
    if full.None? {
      return;
    }
    var md;
    md, assets', order := SyncDetail(entry, folders, full.value, assets, server, stamp);
    vault' := vault[path := md];
  }

  /**
   * What syncing one detail produces: `order` visits each extracted id once,
   * `assets'` is the assets directory after downloading them, and `md` is the
   * note's Markdown text.
   */
  ghost predicate Synced(entry: Entry, folders: map<string, string>, detail: Detail, assets: Disk, server: Server,
                   stamp: int -> string, md: string, assets': Disk, order: seq<string>)
  {
    var ids := ExtractIds(detail.content, entry.extra, detail.setting);
    (forall fid :: fid in order <==> fid in ids) && |order| == |ids|
    && AssetsAfter(ids, assets, server, assets')
    && md == NoteText(entry, folders, detail, order, Replacements(ids, assets, server), stamp)
  }

  /** The part of `process_single_note` after the detail arrives: the Markdown text, the assets directory afterwards and the order the ids were visited in. */
  method SyncDetail(entry: Entry, folders: map<string, string>, detail: Detail, assets: Disk, server: Server, stamp: int -> string)
    returns (md: string, assets': Disk, order: seq<string>)
    ensures Synced(entry, folders, detail, assets, server, stamp, md, assets', order)
  {
    var ids := ExtractIds(detail.content, entry.extra, detail.setting);
    var reps;
    order, reps, assets' := DownloadAll(ids, assets, server);
    var content := CleanContent(detail.content);
    content := SubstituteAll(content, Resolved(order, reps), reps);
    content := AppendVoices(content, VoiceIds(entry.extra), reps);
    md := Render(entry.id, stamp(detail.createDate), stamp(detail.modifyDate), NoteTitle(entry), FolderName(entry, folders), content);
    SyncedIntro(entry, folders, detail, assets, server, stamp, md, assets', order);
  }

  /** `Synced` holds once each of its parts does. */
  lemma SyncedIntro(entry: Entry, folders: map<string, string>, detail: Detail, assets: Disk, server: Server,
                    stamp: int -> string, md: string, assets': Disk, order: seq<string>)
    requires var ids := ExtractIds(detail.content, entry.extra, detail.setting);
      (forall fid :: fid in order <==> fid in ids) && |order| == |ids|
      && AssetsAfter(ids, assets, server, assets')
      && md == NoteText(entry, folders, detail, order, Replacements(ids, assets, server), stamp)
    ensures Synced(entry, folders, detail, assets, server, stamp, md, assets', order)
  {
  }

  /**
   * Two runs over the same note: once the first has written it, the second
   * finds its path in the vault, asks for nothing and changes nothing.
   */
  method SyncTwice(entry: Entry, folders: map<string, string>, vault: Vault, assets: Disk,
                   fetch: string -> Option<Detail>, server: Server, day: int -> string, stamp: int -> string)
    returns (vault': Vault, assets': Disk, fetchedAgain: bool, vault'': Vault, assets'': Disk)
    ensures fetch(entry.id).Some? ==> PathOf(entry, folders, day) in vault' && !fetchedAgain
    ensures vault'' == vault' && assets'' == assets'
  {
    var fetched, order, order';
    vault', assets', fetched, order := ProcessSingleNote(entry, folders, vault, assets, fetch, server, day, stamp);
    vault'', assets'', fetchedAgain, order' := ProcessSingleNote(entry, folders, vault', assets', fetch, server, day, stamp);
  }

  /** An embed mentions every name it wraps, and so every prefix of it. */
  lemma EmbedMentions(v: string, name: string)
    requires v <= name
    ensures Contains(Embed(name), v)
  {
    assert Embed(name)[3..3 + |v|] == v;
    assert OccursAt(Embed(name), v, 3);
  }

  /** Every embed of `replacements` mentions its id. */
  lemma ReplacementsMentionIds(ids: set<string>, assets: Disk, server: Server)
    ensures var reps := Replacements(ids, assets, server);
            forall v :: v in reps ==> Contains(reps[v], v)
  {
    var reps := Replacements(ids, assets, server);
    forall v | v in reps ensures Contains(reps[v], v) {
      ResolveCases(v, assets, server);
      EmbedMentions(v, Resolve(v, assets, server).name.value);
    }
  }

  /** What the rendered text mentions, the file mentions. */
  lemma RenderMentions(nid: string, created: string, updated: string, title: string, folder: string, content: string, v: string)
    requires Contains(content, v)
    ensures Contains(Render(nid, created, updated, title, folder, content), v)
  {
    var md := Render(nid, created, updated, title, folder, content);
    ContainsOfPrefix(content, content + "\n", v);
    ContainsInSuffix(md, v, |md| - |content| - 1);
  }

  /** With embeds that mention their ids, every resolved voice id is mentioned by the note written. */
  lemma NoteTextMentions(entry: Entry, folders: map<string, string>, detail: Detail, order: seq<string>,
                         reps: map<string, string>, stamp: int -> string)
    requires forall fid :: fid in reps ==> fid != [] && Contains(reps[fid], fid)
    ensures forall v :: v in VoiceIds(entry.extra) && v in reps ==> Contains(NoteText(entry, folders, detail, order, reps, stamp), v)
  {
    var content := SubstituteAll(CleanContent(detail.content), Resolved(order, reps), reps);
    var vids := VoiceIds(entry.extra);
    WithVoicesMentions(content, vids, reps, false);
    var body := WithVoices(content, vids, reps, false);
    forall v | v in vids && v in reps ensures Contains(NoteText(entry, folders, detail, order, reps, stamp), v) {
      RenderMentions(entry.id, stamp(detail.createDate), stamp(detail.modifyDate), NoteTitle(entry), FolderName(entry, folders), body, v);
    }
  }

  /**
   * Every voice recording of a note that resolved is mentioned by the note
   * written: through its embed, placed inline or in the appendix.
   */
  lemma NoteMentionsResolvedVoices(entry: Entry, folders: map<string, string>, detail: Detail, order: seq<string>,
                                   assets: Disk, server: Server, stamp: int -> string)
    ensures var ids := ExtractIds(detail.content, entry.extra, detail.setting);
            var reps := Replacements(ids, assets, server);
            var md := NoteText(entry, folders, detail, order, reps, stamp);
            forall v :: v in VoiceIds(entry.extra) && Resolve(v, assets, server).name.Some? ==> Contains(md, v)
  {
    var ids := ExtractIds(detail.content, entry.extra, detail.setting);
    var reps := Replacements(ids, assets, server);
    ReplacementsMentionIds(ids, assets, server);
    NoteTextMentions(entry, folders, detail, order, reps, stamp);
  }
}
