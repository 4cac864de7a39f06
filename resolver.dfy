/**
 * `download_resource`: turns an attachment id into the name of a local file
 * in the assets directory. A file left by an earlier run is reused when it
 * is larger than 1000 bytes; otherwise four resource kinds are asked for in
 * turn and the first answer that is accepted is written to disk under the
 * extension sniffed from its Content-Type.
 */
module Resolver {
  import opened Wrappers
  import opened Extension

  /** The assets directory as the program sees it: file name to size in bytes. */
  type Disk = map<string, nat>

  /**
   * What one GET of `/file/full?type=<kind>&fileid=<fid>` gives: a status, the
   * Content-Length header read as an integer (`Some(0)` when it is missing,
   * `None` when `int()` raises on it) and the Content-Type header (empty
   * when missing); or an exception raised by the request itself.
   */
  datatype Response =
    | Answered(status: int, length: Option<int>, contentType: string)
    | Raised

  /** The server, as a function of the resource kind and the attachment id. */
  type Server = (string, string) -> Response

  /** Extensions probed in the assets directory, in this order. */
  const CacheExtensions: seq<string> := [".jpg", ".png", ".gif", ".mp3", ".amr", ".wav", ".m4a", ".webp"]

  /** Resource kinds asked of the server, in this order. */
  const Kinds: seq<string> := ["note_img", "file", "note_voice", "note_audio"]

  /** The size threshold shared by both checks. */
  const Threshold: nat := 1000

  /** A cached file is reused only when it is strictly larger than the threshold. */
  predicate Cached(disk: Disk, name: string) {
    name in disk && disk[name] > Threshold
  }

  /** An answer is accepted when it is a 200 whose length is not below the threshold. */
  predicate Accepted(r: Response) {
    r.Answered? && r.status == 200 && r.length.Some? && r.length.value >= Threshold
  }

  /** Index of the first cache extension, from `i` on, under which a reusable file exists; `|CacheExtensions|` if none. */
  function CacheIndexFrom(fid: string, disk: Disk, i: nat): (k: nat)
    requires i <= |CacheExtensions|
    ensures i <= k <= |CacheExtensions|
    ensures k < |CacheExtensions| ==> Cached(disk, fid + CacheExtensions[k])
    ensures forall j :: i <= j < k ==> !Cached(disk, fid + CacheExtensions[j])
    decreases |CacheExtensions| - i
  {
    if i == |CacheExtensions| then i
    else if Cached(disk, fid + CacheExtensions[i]) then i
    else CacheIndexFrom(fid, disk, i + 1)
  }

  function CacheIndex(fid: string, disk: Disk): nat {
    CacheIndexFrom(fid, disk, 0)
  }

  /** Index of the first kind, from `i` on, whose answer is accepted; `|Kinds|` if none. */
  function AcceptIndexFrom(fid: string, server: Server, i: nat): (k: nat)
    requires i <= |Kinds|
    ensures i <= k <= |Kinds|
    ensures k < |Kinds| ==> Accepted(server(Kinds[k], fid))
    ensures forall j :: i <= j < k ==> !Accepted(server(Kinds[j], fid))
    decreases |Kinds| - i
  {
    if i == |Kinds| then i
    else if Accepted(server(Kinds[i], fid)) then i
    else AcceptIndexFrom(fid, server, i + 1)
  }

  function AcceptIndex(fid: string, server: Server): nat {
    AcceptIndexFrom(fid, server, 0)
  }

  /** The outcome of resolving one id: the file name returned, the kinds requested in order, and the assets directory afterwards. */
  datatype Resolution = Resolution(name: Option<string>, probed: seq<string>, disk: Disk)

  /**
   * What `download_resource(fid)` does, as a value: the name found, the
   * kinds asked for and the assets directory afterwards.
   */
  function Resolve(fid: string, disk: Disk, server: Server): Resolution {
    var i := CacheIndex(fid, disk);
    if i < |CacheExtensions| then
      Resolution(Some(fid + CacheExtensions[i]), [], disk)
    else
      var k := AcceptIndex(fid, server);
      if k < |Kinds| then
        var name := fid + RealExtension(server(Kinds[k], fid).contentType);
        Resolution(Some(name), Kinds[..k + 1], disk[name := server(Kinds[k], fid).length.value])
      else
        Resolution(None, Kinds, disk)
  }

  /**
   * A name is the id and one of the cache extensions; a reused file is one
   * larger than the threshold and costs no request; a downloaded one is
   * written under its name with the accepted length, and nothing else on
   * disk changes. With no name, every kind was asked and nothing was written.
   */
  lemma ResolveCases(fid: string, disk: Disk, server: Server)
    ensures var r := Resolve(fid, disk, server);
      && r.probed <= Kinds
      && (r.name.Some? ==> fid <= r.name.value && r.name.value[|fid|..] in CacheExtensions)
      && (r.name.Some? && r.probed == [] ==> Cached(disk, r.name.value) && r.disk == disk)
      && (r.name.Some? && r.probed != [] ==>
            && Accepted(server(r.probed[|r.probed| - 1], fid))
            && r.disk == disk[r.name.value := server(r.probed[|r.probed| - 1], fid).length.value])
      && (r.name.None? ==> r.probed == Kinds && r.disk == disk)
  {
    var i := CacheIndex(fid, disk);
    if i < |CacheExtensions| {
      assert (fid + CacheExtensions[i])[|fid|..] == CacheExtensions[i];
    } else {
      var k := AcceptIndex(fid, server);
      if k < |Kinds| {
        var name := fid + RealExtension(server(Kinds[k], fid).contentType);
        assert name[|fid|..] == RealExtension(server(Kinds[k], fid).contentType);
      }
    }
  }

  /**
   * Python's `download_resource(fid)`: the cache loop, then the probe loop,
   * each left early on success.
   */
  method DownloadResource(fid: string, disk: Disk, server: Server)
    returns (name: Option<string>, probed: seq<string>, disk': Disk)
    ensures Resolution(name, probed, disk') == Resolve(fid, disk, server)
  {
    for i := 0 to |CacheExtensions|
      invariant forall j :: 0 <= j < i ==> !Cached(disk, fid + CacheExtensions[j])
    {
      var fname := fid + CacheExtensions[i];
      if fname in disk && disk[fname] > Threshold {
        assert CacheIndexFrom(fid, disk, i) == i;
        CacheIndexSkips(fid, disk, 0, i);
        return Some(fname), [], disk;
      }
    }
    CacheIndexSkips(fid, disk, 0, |CacheExtensions|);
    probed := [];
    for k := 0 to |Kinds|
      invariant probed == Kinds[..k]
      invariant forall j :: 0 <= j < k ==> !Accepted(server(Kinds[j], fid))
    {
      probed := probed + [Kinds[k]];
      var r := server(Kinds[k], fid);
      if r.Answered? && r.status == 200 {
        if r.length.None? || r.length.value < Threshold {
          continue;
        }
        var ext := RealExtension(r.contentType);
        var fname := fid + ext;
        AcceptIndexSkips(fid, server, 0, k);
        return Some(fname), probed, disk[fname := r.length.value];
      }
    }
    AcceptIndexSkips(fid, server, 0, |Kinds|);
    return None, probed, disk;
  }

  /** Skipping extensions known to miss does not change the first hit. */
  lemma {:induction false} CacheIndexSkips(fid: string, disk: Disk, i: nat, m: nat)
    requires i <= m <= |CacheExtensions|
    requires forall j :: i <= j < m ==> !Cached(disk, fid + CacheExtensions[j])
    ensures CacheIndexFrom(fid, disk, i) == CacheIndexFrom(fid, disk, m)
    decreases m - i
  {
    if i < m {
      CacheIndexSkips(fid, disk, i + 1, m);
    }
  }

  /** Skipping kinds known to be refused does not change the first accepted one. */
  lemma {:induction false} AcceptIndexSkips(fid: string, server: Server, i: nat, m: nat)
    requires i <= m <= |Kinds|
    requires forall j :: i <= j < m ==> !Accepted(server(Kinds[j], fid))
    ensures AcceptIndexFrom(fid, server, i) == AcceptIndexFrom(fid, server, m)
    decreases m - i
  {
    if i < m {
      AcceptIndexSkips(fid, server, i + 1, m);
    }
  }

  /** The names under which an id's attachment can be found or stored. */
  function OwnNames(fid: string): set<string> {
    set e | e in CacheExtensions :: fid + e
  }

  /** Every extension the sniffer produces is one the cache probe looks for. */
  lemma SniffedAreCached()
    ensures forall e :: e in SniffedExtensions ==> e in CacheExtensions
  {
  }

  /**
   * When some `fid + ext` (in list order) is a file larger than the threshold,
   * the first such name is returned, nothing is requested and nothing written.
   */
  lemma ResolveReusesCache(fid: string, disk: Disk, server: Server, j: nat)
    requires j < |CacheExtensions| && Cached(disk, fid + CacheExtensions[j])
    requires forall i :: 0 <= i < j ==> !Cached(disk, fid + CacheExtensions[i])
    ensures Resolve(fid, disk, server) == Resolution(Some(fid + CacheExtensions[j]), [], disk)
  {
    CacheIndexSkips(fid, disk, 0, j);
  }

  /**
   * Otherwise the kinds are requested in order up to the first accepted
   * answer, which alone is written, under the sniffed extension.
   */
  lemma ResolveProbesInOrder(fid: string, disk: Disk, server: Server, k: nat)
    requires forall i :: 0 <= i < |CacheExtensions| ==> !Cached(disk, fid + CacheExtensions[i])
    requires k < |Kinds| && Accepted(server(Kinds[k], fid))
    requires forall i :: 0 <= i < k ==> !Accepted(server(Kinds[i], fid))
    ensures var r := server(Kinds[k], fid);
            var name := fid + RealExtension(r.contentType);
            Resolve(fid, disk, server) == Resolution(Some(name), Kinds[..k + 1], disk[name := r.length.value])
  {
    CacheIndexSkips(fid, disk, 0, |CacheExtensions|);
    AcceptIndexSkips(fid, server, 0, k);
  }

  /** No name comes back exactly when nothing is cached and no kind is accepted; then every kind was asked and nothing written. */
  lemma ResolveNoneIff(fid: string, disk: Disk, server: Server)
    ensures Resolve(fid, disk, server).name.None? <==>
      (forall i :: 0 <= i < |CacheExtensions| ==> !Cached(disk, fid + CacheExtensions[i]))
      && (forall k :: 0 <= k < |Kinds| ==> !Accepted(server(Kinds[k], fid)))
    ensures Resolve(fid, disk, server).name.None? ==>
      Resolve(fid, disk, server).probed == Kinds && Resolve(fid, disk, server).disk == disk
  {
    if forall i :: 0 <= i < |CacheExtensions| ==> !Cached(disk, fid + CacheExtensions[i]) {
      CacheIndexSkips(fid, disk, 0, |CacheExtensions|);
      if forall k :: 0 <= k < |Kinds| ==> !Accepted(server(Kinds[k], fid)) {
        AcceptIndexSkips(fid, server, 0, |Kinds|);
      }
    }
  }

  /** Only one of the id's own names can be written; every other file is left as it was. */
  lemma ResolveWritesOwnNamesOnly(fid: string, disk: Disk, server: Server, n: string)
    requires n !in OwnNames(fid)
    ensures var d := Resolve(fid, disk, server).disk;
            (n in d <==> n in disk) && (n in disk ==> d[n] == disk[n])
  {
    var r := Resolve(fid, disk, server);
    if r.disk != disk {
      var e := RealExtension(server(Kinds[AcceptIndex(fid, server)], fid).contentType);
      assert e in CacheExtensions;
      assert fid + e in OwnNames(fid);
    }
  }

  /** Resolving an id looks only at the id's own names on disk. */
  lemma ResolveReadsOwnNamesOnly(fid: string, disk1: Disk, disk2: Disk, server: Server)
    requires forall n :: n in OwnNames(fid) ==> (n in disk1 <==> n in disk2) && (n in disk1 ==> disk1[n] == disk2[n])
    ensures Resolve(fid, disk1, server).name == Resolve(fid, disk2, server).name
    ensures Resolve(fid, disk1, server).probed == Resolve(fid, disk2, server).probed
  {
    forall i | 0 <= i < |CacheExtensions|
      ensures Cached(disk1, fid + CacheExtensions[i]) == Cached(disk2, fid + CacheExtensions[i])
    {
      assert fid + CacheExtensions[i] in OwnNames(fid);
    }
    CacheIndexSame(fid, disk1, disk2, 0);
  }

  lemma {:induction false} CacheIndexSame(fid: string, disk1: Disk, disk2: Disk, i: nat)
    requires i <= |CacheExtensions|
    requires forall j :: 0 <= j < |CacheExtensions| ==>
      Cached(disk1, fid + CacheExtensions[j]) == Cached(disk2, fid + CacheExtensions[j])
    ensures CacheIndexFrom(fid, disk1, i) == CacheIndexFrom(fid, disk2, i)
    decreases |CacheExtensions| - i
  {
    if i < |CacheExtensions| {
      CacheIndexSame(fid, disk1, disk2, i + 1);
    }
  }

  /** Every cache extension is a dot and three letters, or `.webp`. */
  lemma ExtensionShapes(e: string)
    requires e in CacheExtensions
    ensures (|e| == 4 && e[0] == '.') || (|e| == 5 && e[1] == 'w')
  {
  }

  /** An id plus a known extension determines the id. */
  lemma SameNameSameId(fid1: string, e1: string, fid2: string, e2: string)
    requires e1 in CacheExtensions && e2 in CacheExtensions && fid1 + e1 == fid2 + e2
    ensures fid1 == fid2
  {
    var n := fid1 + e1;
    ExtensionShapes(e1);
    ExtensionShapes(e2);
    assert n[|n| - 4] == e1[|e1| - 4];
    assert n[|n| - 4] == e2[|e2| - 4];
    assert |e1| == |e2|;
    assert fid1 == n[..|fid1|];
    assert fid2 == n[..|fid2|];
  }

  /** Two different ids never share a file name. */
  lemma OwnNamesDisjoint(fid1: string, fid2: string)
    requires fid1 != fid2
    ensures OwnNames(fid1) !! OwnNames(fid2)
  {
    forall e1, e2 | e1 in CacheExtensions && e2 in CacheExtensions
      ensures fid1 + e1 != fid2 + e2
    {
      if fid1 + e1 == fid2 + e2 {
        SameNameSameId(fid1, e1, fid2, e2);
      }
    }
  }

  /**
   * A second resolution after a successful one is free: it finds the file the
   * first one returned, asks nothing of the server and writes nothing, as long
   * as a downloaded file is larger than the threshold.
   */
  lemma ResolveAgainIsCached(fid: string, disk: Disk, server: Server, later: Server)
    requires CacheIndex(fid, disk) == |CacheExtensions| && AcceptIndex(fid, server) < |Kinds| ==>
      server(Kinds[AcceptIndex(fid, server)], fid).length.value > Threshold
    ensures var r := Resolve(fid, disk, server);
            r.name.Some? ==> Resolve(fid, r.disk, later) == Resolution(r.name, [], r.disk)
  {
    var r := Resolve(fid, disk, server);
    if r.name.Some? {
      var i := CacheIndex(fid, disk);
      if i < |CacheExtensions| {
        CacheIndexSkips(fid, disk, 0, i);
        ResolveReusesCache(fid, r.disk, later, i);
      } else {
        CacheIndexSkips(fid, disk, 0, |CacheExtensions|);
        var e := RealExtension(server(Kinds[AcceptIndex(fid, server)], fid).contentType);
        assert e in CacheExtensions;
        var idx :| 0 <= idx < |CacheExtensions| && CacheExtensions[idx] == e;
        WrittenIsFirstHit(fid, disk, idx, r.disk[fid + e]);
        ResolveReusesCache(fid, r.disk, later, idx);
      }
    }
  }

  /** Writing one of an id's names into a directory that had none of them makes it the first hit. */
  lemma WrittenIsFirstHit(fid: string, disk: Disk, idx: nat, size: nat)
    requires idx < |CacheExtensions| && size > Threshold
    requires forall j :: 0 <= j < |CacheExtensions| ==> !Cached(disk, fid + CacheExtensions[j])
    ensures var d := disk[fid + CacheExtensions[idx] := size];
            Cached(d, fid + CacheExtensions[idx]) && forall j :: 0 <= j < idx ==> !Cached(d, fid + CacheExtensions[j])
  {
    var e := CacheExtensions[idx];
    forall j | 0 <= j < idx
      ensures fid + CacheExtensions[j] != fid + e
    {
      assert CacheExtensions[j] != e;
      assert (fid + CacheExtensions[j])[|fid|..] == CacheExtensions[j];
      assert (fid + e)[|fid|..] == e;
    }
  }

  /**
   * The two checks do not agree on exactly 1000 bytes: such an answer is
   * accepted and written, but the file is not reused, so every run fetches it
   * again.
   */
  lemma ThousandByteFileIsFetchedAgain()
    ensures var server: Server := (kind, id) => Answered(200, Some(1000), "image/gif");
            var first := Resolve("f", map[], server);
            first.name == Some("f.gif") && Resolve("f", first.disk, server).probed == ["note_img"]
  {
    var server: Server := (kind, id) => Answered(200, Some(1000), "image/gif");
    GifIsGif();
    CacheIndexSkips("f", map[], 0, |CacheExtensions|);
    assert CacheIndex("f", map[]) == |CacheExtensions|;
    assert "f" + ".gif" == "f.gif";
    assert Accepted(server(Kinds[0], "f"));
    assert AcceptIndex("f", server) == 0;
    assert RealExtension(server(Kinds[0], "f").contentType) == ".gif";
    var first := Resolve("f", map[], server);
    assert first.disk == map["f.gif" := 1000];
    CacheIndexSkips("f", first.disk, 0, |CacheExtensions|);
  }
}
