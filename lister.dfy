/**
 * `fetch_note_list`: walks the paginated listing. Each page's folders are
 * merged into a folder map that starts with the unclassified folder, each
 * page's entries are appended, and the walk stops at a page without a sync
 * tag. A 401 aborts the whole listing; any other failure ends it with what
 * has been gathered so far.
 */
module Lister {
  import opened Notes

  /** A folder definition from a page: its id as text and its name. */
  datatype Folder = Folder(id: string, subject: string)

  /** One page request's outcome; a missing sync tag is the empty text. */
  datatype PageResponse =
    | Unauthorized
    | Failed
    | Page(folders: seq<Folder>, entries: seq<Entry>, syncTag: string)

  /** `(None, None)` or `(all_entries, folders_map)`. */
  datatype Listing = Denied | Listed(entries: seq<Entry>, folders: map<string, string>)

  const UnclassifiedId := "0"
  const UnclassifiedName := "未分类"

  /** The folder map before the first page. */
  const InitialFolders: map<string, string> := map[UnclassifiedId := UnclassifiedName]

  /**
   * `r` is `m` after `folders_map[f.id] = f.subject` for every `f` of `fs`:
   * the keys gained are the folder ids, the last definition of an id wins,
   * and the other ids keep their names.
   */
  predicate MergedFrom(m: map<string, string>, fs: seq<Folder>, r: map<string, string>) {
    KeysFrom(m, fs, r) && LastWins(fs, r) && OthersKept(m, fs, r)
  }

  /** The keys of `r` are those of `m` and the folder ids. */
  predicate KeysFrom(m: map<string, string>, fs: seq<Folder>, r: map<string, string>) {
    r.Keys == m.Keys + (set k | 0 <= k < |fs| :: fs[k].id)
  }

  /** Each folder id maps to the subject of its last definition in `fs`. */
  predicate LastWins(fs: seq<Folder>, r: map<string, string>) {
    forall k :: 0 <= k < |fs| && IsLast(fs, k) ==> fs[k].id in r && r[fs[k].id] == fs[k].subject
  }

  /** No later folder of `fs` has the id of `fs[k]`. */
  predicate IsLast(fs: seq<Folder>, k: nat)
    requires k < |fs|
  {
    forall k2 :: k < k2 < |fs| ==> fs[k2].id != fs[k].id
  }

  /** Ids of `m` that no folder defines keep their names. */
  predicate OthersKept(m: map<string, string>, fs: seq<Folder>, r: map<string, string>) {
    forall id :: id in m && (forall k :: 0 <= k < |fs| ==> fs[k].id != id) ==> id in r && r[id] == m[id]
  }

  /** `for f in folders: folders_map[f.id] = f.subject`, in list order. */
  function MergeFolders(m: map<string, string>, fs: seq<Folder>): (r: map<string, string>)
    ensures m.Keys <= r.Keys
    ensures forall k :: 0 <= k < |fs| ==> fs[k].id in r
    decreases |fs|
  {
    if fs == [] then m
    else MergeFolders(m, fs[..|fs| - 1])[fs[|fs| - 1].id := fs[|fs| - 1].subject]
  }

  /** Merging gains the folder ids, lets the last definition of an id win and keeps the other names. */
  lemma {:induction false} MergeFoldersSpec(m: map<string, string>, fs: seq<Folder>)
    ensures MergedFrom(m, fs, MergeFolders(m, fs))
    decreases |fs|
  {
    if fs != [] {
      MergeFoldersSpec(m, fs[..|fs| - 1]);
      MergeStep(m, fs, MergeFolders(m, fs[..|fs| - 1]));
    }
  }

  /** One more folder assigned keeps `MergedFrom`. */
  lemma MergeStep(m: map<string, string>, fs: seq<Folder>, prev: map<string, string>)
    requires fs != [] && MergedFrom(m, fs[..|fs| - 1], prev)
    ensures MergedFrom(m, fs, prev[fs[|fs| - 1].id := fs[|fs| - 1].subject])
  {
    KeysStep(m, fs, prev);
    LastWinsStep(fs, prev);
    OthersKeptStep(m, fs, prev);
  }

  lemma KeysStep(m: map<string, string>, fs: seq<Folder>, prev: map<string, string>)
    requires fs != [] && KeysFrom(m, fs[..|fs| - 1], prev)
    ensures KeysFrom(m, fs, prev[fs[|fs| - 1].id := fs[|fs| - 1].subject])
  {
    var init := fs[..|fs| - 1];
    var last := fs[|fs| - 1];
    var ids := set k | 0 <= k < |fs| :: fs[k].id;
    var initIds := set k | 0 <= k < |init| :: init[k].id;
    forall id | id in ids ensures id in initIds + {last.id} {
      var k :| 0 <= k < |fs| && fs[k].id == id;
      if k < |init| {
        assert init[k].id == id;
      }
    }
    forall id | id in initIds ensures id in ids {
      var k :| 0 <= k < |init| && init[k].id == id;
      assert fs[k] == init[k];
    }
    assert last.id in ids;
    assert ids == initIds + {last.id};
  }

  lemma LastWinsStep(fs: seq<Folder>, prev: map<string, string>)
    requires fs != [] && LastWins(fs[..|fs| - 1], prev)
    ensures LastWins(fs, prev[fs[|fs| - 1].id := fs[|fs| - 1].subject])
  {
    var init := fs[..|fs| - 1];
    var last := fs[|fs| - 1];
    var r := prev[last.id := last.subject];
    forall k | 0 <= k < |fs| && IsLast(fs, k)
      ensures fs[k].id in r && r[fs[k].id] == fs[k].subject
    {
      if k < |init| {
        IsLastInInit(fs, k);
        assert init[k] == fs[k];
      }
    }
  }

  /** A folder that is last in `fs`, and not `fs`'s final one, is last in the shorter list too. */
  lemma IsLastInInit(fs: seq<Folder>, k: nat)
    requires k < |fs| - 1 && IsLast(fs, k)
    ensures IsLast(fs[..|fs| - 1], k) && fs[|fs| - 1].id != fs[k].id
  {
    var init := fs[..|fs| - 1];
    forall k2 | k < k2 < |init| ensures init[k2].id != init[k].id {
      assert init[k2] == fs[k2];
    }
  }

  lemma OthersKeptStep(m: map<string, string>, fs: seq<Folder>, prev: map<string, string>)
    requires fs != [] && OthersKept(m, fs[..|fs| - 1], prev)
    ensures OthersKept(m, fs, prev[fs[|fs| - 1].id := fs[|fs| - 1].subject])
  {
    var init := fs[..|fs| - 1];
    forall id | id in m && (forall k :: 0 <= k < |fs| ==> fs[k].id != id)
      ensures id in prev && prev[id] == m[id]
    {
      forall k | 0 <= k < |init| ensures init[k].id != id {
        assert init[k] == fs[k];
      }
    }
  }

  /** The walk the loop performs over the pages still to come, with what has been gathered so far. */
  function Walk(pages: seq<PageResponse>, entries: seq<Entry>, folders: map<string, string>): (r: Listing)
    ensures r.Listed? ==> entries <= r.entries && folders.Keys <= r.folders.Keys
    decreases |pages|
  {
    if pages == [] then Listed(entries, folders)
    else match pages[0]
      case Unauthorized => Denied
      case Failed => Listed(entries, folders)
      case Page(fs, es, tag) =>
        if tag == "" then Listed(entries + es, MergeFolders(folders, fs))
        else Walk(pages[1..], entries + es, MergeFolders(folders, fs))
  }

  /**
   * Python's `fetch_note_list()`, the server's answers given in order. The
   * source loops for as long as the server hands out sync tags; here the
   * walk also ends when the given answers run out.
   */
  method FetchNoteList(pages: seq<PageResponse>) returns (result: Listing)
    ensures result == Walk(pages, [], InitialFolders)
  {
    var all: seq<Entry> := [];
    var folders := InitialFolders;
    var i := 0;
    while i < |pages|
      invariant 0 <= i <= |pages|
      invariant Walk(pages, [], InitialFolders) == Walk(pages[i..], all, folders)
    {
      assert pages[i..][1..] == pages[i + 1..];
      match pages[i]
      case Unauthorized =>
        return Denied;
      case Failed =>
        break;
      case Page(fs, es, tag) =>
        var merged := folders;
        for j := 0 to |fs|
          invariant merged == MergeFolders(folders, fs[..j])
        {
          assert fs[..j + 1][..j] == fs[..j];
          merged := merged[fs[j].id := fs[j].subject];
        }
        assert fs[..|fs|] == fs;
        folders := merged;
        all := all + es;
        if tag == "" {
          return Listed(all, folders);
        }
        i := i + 1;
    }
    return Listed(all, folders);
  }

  /** The walk goes on after this answer: a page that carries a sync tag. */
  predicate Continues(p: PageResponse) {
    p.Page? && p.syncTag != ""
  }

  /** How many answers the walk reads: every one up to and including the first that does not continue. */
  function PagesRead(pages: seq<PageResponse>): (n: nat)
    ensures n <= |pages| && (pages != [] ==> n > 0)
    ensures forall i :: 0 <= i < n - 1 ==> Continues(pages[i])
    ensures 0 < n < |pages| ==> !Continues(pages[n - 1])
    decreases |pages|
  {
    if pages == [] then 0
    else if Continues(pages[0]) then 1 + PagesRead(pages[1..])
    else 1
  }

  /** The entries of the pages among `pages`, concatenated in order. */
  function EntriesOf(pages: seq<PageResponse>): seq<Entry>
    decreases |pages|
  {
    if pages == [] then []
    else (if pages[0].Page? then pages[0].entries else []) + EntriesOf(pages[1..])
  }

  /** `m` with the folders of the pages among `pages` merged in, in order. */
  function FoldersOf(m: map<string, string>, pages: seq<PageResponse>): map<string, string>
    decreases |pages|
  {
    if pages == [] then m
    else FoldersOf(if pages[0].Page? then MergeFolders(m, pages[0].folders) else m, pages[1..])
  }

  /**
   * The walk reads a prefix of the answers: it is refused when the last one
   * read is a 401, and otherwise yields the in-order concatenation of those
   * pages' entries and their folders merged into the map it started with.
   */
  lemma {:induction false} WalkReadsPrefix(pages: seq<PageResponse>, acc: seq<Entry>, folders: map<string, string>)
    ensures var n := PagesRead(pages);
            Walk(pages, acc, folders) ==
              if n > 0 && pages[n - 1].Unauthorized? then Denied
              else Listed(acc + EntriesOf(pages[..n]), FoldersOf(folders, pages[..n]))
    decreases |pages|
  {
    var n := PagesRead(pages);
    if pages != [] {
      if Continues(pages[0]) {
        var rest := pages[1..];
        var acc' := acc + pages[0].entries;
        var folders' := MergeFolders(folders, pages[0].folders);
        WalkReadsPrefix(rest, acc', folders');
        assert pages[..n][1..] == rest[..n - 1];
        if n > 1 {
          assert pages[n - 1] == rest[n - 2];
        }
        assert EntriesOf(pages[..n]) == pages[0].entries + EntriesOf(rest[..n - 1]);
        assert acc + EntriesOf(pages[..n]) == acc' + EntriesOf(rest[..n - 1]);
      } else {
        assert pages[..n] == [pages[0]];
        assert EntriesOf(pages[..1]) == (if pages[0].Page? then pages[0].entries else []) + EntriesOf([]);
      }
    }
  }

  /** Nothing after the first page without a sync tag is ever read. */
  lemma {:induction false} WalkStopsAtEmptyTag(pages: seq<PageResponse>, k: nat, acc: seq<Entry>, folders: map<string, string>)
    requires k < |pages| && pages[k].Page? && pages[k].syncTag == ""
    requires forall j :: 0 <= j < k ==> Continues(pages[j])
    ensures Walk(pages, acc, folders) == Walk(pages[..k + 1], acc, folders)
    decreases k
  {
    if k > 0 {
      var p := pages[0];
      assert pages[..k + 1][1..] == pages[1..][..k];
      WalkStopsAtEmptyTag(pages[1..], k - 1, acc + p.entries, MergeFolders(folders, p.folders));
    }
  }

  /** The answer at `k` is a 401 and every answer before it is a page with a sync tag. */
  predicate RefusedAt(pages: seq<PageResponse>, k: nat) {
    k < |pages| && pages[k].Unauthorized? && forall j :: 0 <= j < k ==> Continues(pages[j])
  }

  /** Listing is refused exactly when a 401 answers before any page without a sync tag or failure. */
  lemma {:induction false} WalkDeniedIff(pages: seq<PageResponse>, acc: seq<Entry>, folders: map<string, string>)
    ensures Walk(pages, acc, folders) == Denied <==> exists k: nat :: RefusedAt(pages, k)
    decreases |pages|
  {
    if pages != [] && Continues(pages[0]) {
      var p := pages[0];
      WalkDeniedIff(pages[1..], acc + p.entries, MergeFolders(folders, p.folders));
      if exists k: nat :: RefusedAt(pages[1..], k) {
        var k: nat :| RefusedAt(pages[1..], k);
        RefusedShift(pages, k);
      }
      if exists k: nat :: RefusedAt(pages, k) {
        var k: nat :| RefusedAt(pages, k);
        assert k > 0;
        RefusedShift(pages, k - 1);
      }
    } else if pages != [] && !pages[0].Unauthorized? {
      forall k: nat ensures !RefusedAt(pages, k) {
        if 0 < k < |pages| {
          assert !Continues(pages[0]);
        }
      }
    } else if pages != [] {
      assert RefusedAt(pages, 0);
    }
  }

  /** Past a page with a sync tag, a refusal at `k + 1` is a refusal at `k` of the rest. */
  lemma RefusedShift(pages: seq<PageResponse>, k: nat)
    requires pages != [] && Continues(pages[0])
    ensures RefusedAt(pages, k + 1) <==> RefusedAt(pages[1..], k)
  {
    if RefusedAt(pages[1..], k) {
      forall j | 0 <= j < k + 1 ensures Continues(pages[j]) {
        if j > 0 {
          assert pages[j] == pages[1..][j - 1];
        }
      }
    }
    if RefusedAt(pages, k + 1) {
      forall j | 0 <= j < k ensures Continues(pages[1..][j]) {
        assert pages[1..][j] == pages[j + 1];
      }
    }
  }

  /** The folders of the pages among `pages`, concatenated in order. */
  function FoldersIn(pages: seq<PageResponse>): seq<Folder>
    decreases |pages|
  {
    if pages == [] then []
    else (if pages[0].Page? then pages[0].folders else []) + FoldersIn(pages[1..])
  }

  /** Merging two lists one after the other is merging their concatenation. */
  lemma {:induction false} MergeFoldersAppend(m: map<string, string>, a: seq<Folder>, b: seq<Folder>)
    ensures MergeFolders(MergeFolders(m, a), b) == MergeFolders(m, a + b)
    decreases |b|
  {
    if b == [] {
      assert a + b == a;
    } else {
      MergeFoldersAppend(m, a, b[..|b| - 1]);
      assert (a + b)[..|a + b| - 1] == a + b[..|b| - 1];
      assert (a + b)[|a + b| - 1] == b[|b| - 1];
    }
  }

  /** Merging page after page is merging all their folders at once. */
  lemma {:induction false} FoldersOfIsMerge(m: map<string, string>, pages: seq<PageResponse>)
    ensures FoldersOf(m, pages) == MergeFolders(m, FoldersIn(pages))
    decreases |pages|
  {
    if pages != [] {
      var fs := if pages[0].Page? then pages[0].folders else [];
      var m' := if pages[0].Page? then MergeFolders(m, pages[0].folders) else m;
      assert m' == MergeFolders(m, fs);
      FoldersOfIsMerge(m', pages[1..]);
      MergeFoldersAppend(m, fs, FoldersIn(pages[1..]));
    }
  }

  /**
   * A listing's folder map is the unclassified folder with every folder of
   * the pages read assigned in order, and its entries are those pages'
   * entries in order.
   */
  lemma ListingIsMerge(pages: seq<PageResponse>)
    ensures var n := PagesRead(pages);
            var l := Walk(pages, [], InitialFolders);
            l.Listed? ==> l.entries == EntriesOf(pages[..n]) && l.folders == MergeFolders(InitialFolders, FoldersIn(pages[..n]))
  {
    WalkReadsPrefix(pages, [], InitialFolders);
    FoldersOfIsMerge(InitialFolders, pages[..PagesRead(pages)]);
  }

  /** A single page holding two notes and the folder `5` named `Work` lists both notes and both folders. */
  lemma OnePageTwoFolders(e1: Entry, e2: Entry)
    ensures Walk([Page([Folder("5", "Work")], [e1, e2], "")], [], InitialFolders)
      == Listed([e1, e2], map[UnclassifiedId := UnclassifiedName, "5" := "Work"])
  {
    var fs := [Folder("5", "Work")];
    assert MergeFolders(InitialFolders, fs) == MergeFolders(InitialFolders, fs[..0])["5" := "Work"];
  }
}
