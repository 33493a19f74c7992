/**
 * The request handler: the favicon short-circuit, resolution of the request URL
 * against the server root, and dispatch on what `stat` reports for the result.
 * Every exception the handler leaves uncaught (a malformed URL escape, a failed
 * stat, a failed `readdir`, a failed template) is recorded as a `Fail` with no
 * response written: the rejection goes unhandled and the client gets no answer.
 * The handler never chooses an error status itself.
 */
module Router {
  import opened Wrappers
  import opened Http
  import ETag
  import opened FileResponder
  import opened DirResponder

  const FaviconUrl := "/favicon.ico"
  const FaviconCacheControl := "max-age=31536000"

  /** The bundled icon, cacheable for a year. */
  function Favicon(srv: Server): (r: Response) {
    SetHeader(Initial, CacheControlHeader, FaviconCacheControl).(body := srv.icon)
  }

  /** The filesystem path a decoded request path names: the server root joined with it. */
  function CurrentPath(srv: Server, decoded: string): (path: string) {
    srv.join([srv.runAddress, decoded])
  }

  /** The request names a regular file: it is not the favicon URL, it decodes, and a regular file is at the resolved path. */
  predicate ServesFile(srv: Server, fs: FileSystem, req: Request) {
    && req.url != FaviconUrl
    && srv.decode(req.url).Some?
    && CurrentPath(srv, srv.decode(req.url).value) in fs
    && fs[CurrentPath(srv, srv.decode(req.url).value)].File?
  }

  /** The handler as written: the listing stats each entry under the root and the raw URL. */
  function Handle(srv: Server, fs: FileSystem, req: Request): (r: Outcome) {
    if req.url == FaviconUrl then Ok(Favicon(srv))
    else
      match srv.decode(req.url)
      case None => Fail(DecodeFailed(req.url))
      case Some(decoded) =>
        var currentPath := CurrentPath(srv, decoded);
        match Stat(fs, currentPath)
        case None => Fail(StatFailed(currentPath))
        case Some(File(mtimeMs, size, bytes)) => Ok(RenderFile(srv, req, currentPath, mtimeMs, size, bytes))
        case Some(_) => ListDir(srv, fs, [srv.runAddress, req.url], currentPath)
  }

  /**
   * The favicon URL is answered from the bundled icon alone, whatever the filesystem
   * holds: status 200, a one-year `Cache-Control`, no `Etag`, and no decoding or stat
   * of the request path (the result does not depend on `fs`, `decode` or `join`).
   */
  lemma FaviconShortCircuit(srv: Server, fs: FileSystem, req: Request,
                            decode: string -> Option<string>, join: seq<string> -> string, other: FileSystem)
    requires req.url == FaviconUrl
    ensures Handle(srv, fs, req).Ok?
    ensures
      var r := Handle(srv, fs, req).value;
      && r.status == 200
      && r.headers == map[CacheControlHeader := FaviconCacheControl]
      && EtagHeader !in r.headers
      && r.body == srv.icon
    ensures Handle(srv.(decode := decode, join := join), other, req) == Handle(srv, fs, req)
  {
  }

  /**
   * Any other URL is decoded and joined onto the server root; a regular file there goes
   * to the file responder and every other stat result (directory or special file) to
   * the directory responder, with the entries stat'ed under the raw URL.
   */
  lemma Dispatch(srv: Server, fs: FileSystem, req: Request)
    requires req.url != FaviconUrl
    ensures srv.decode(req.url).None? ==> Handle(srv, fs, req) == Fail(DecodeFailed(req.url))
    ensures srv.decode(req.url).Some? ==>
      var currentPath := CurrentPath(srv, srv.decode(req.url).value);
      && (currentPath !in fs ==> Handle(srv, fs, req) == Fail(StatFailed(currentPath)))
      && (currentPath in fs && fs[currentPath].File? ==>
            var f := fs[currentPath];
            Handle(srv, fs, req) == Ok(RenderFile(srv, req, currentPath, f.mtimeMs, f.size, f.bytes)))
      && (currentPath in fs && !fs[currentPath].File? ==>
            Handle(srv, fs, req) == ListDir(srv, fs, [srv.runAddress, req.url], currentPath))
  {
  }

  /**
   * The only statuses the handler produces are 200 and 304; 304 only for a regular file
   * whose tag equals the request's `If-None-Match`, and then with an empty body.
   * An `Etag` header appears exactly on file responses.
   */
  lemma StatusesAndTags(srv: Server, fs: FileSystem, req: Request)
    requires Handle(srv, fs, req).Ok?
    ensures
      var r := Handle(srv, fs, req).value;
      && (r.status == 200 || r.status == 304)
      && (EtagHeader in r.headers <==> ServesFile(srv, fs, req))
      && (r.status == 304 ==>
            && ServesFile(srv, fs, req)
            && var f := fs[CurrentPath(srv, srv.decode(req.url).value)];
            && req.ifNoneMatch == Some(ETag.Make(f.mtimeMs, f.size))
            && r.body == [])
  {
    var r := Handle(srv, fs, req).value;
    if req.url != FaviconUrl {
      var currentPath := CurrentPath(srv, srv.decode(req.url).value);
      if !fs[currentPath].File? {
        var entries := ReadDir(fs, currentPath).value;
        var paths := Partition(srv, fs, [srv.runAddress, req.url], entries).value;
        assert r == Initial.(body := srv.render(Payload(srv.runAddress, srv.srcPath, paths)).value);
      }
    }
  }

  /**
   * Conditional GET round trip: re-requesting a file with the tag the server just
   * returned, the filesystem unchanged, yields 304 with an empty body and no
   * `Content-Type`.
   */
  lemma ConditionalGetRoundTrip(srv: Server, fs: FileSystem, req: Request)
    requires Handle(srv, fs, req).Ok?
    requires EtagHeader in Handle(srv, fs, req).value.headers
    ensures
      var tag := Handle(srv, fs, req).value.headers[EtagHeader];
      var again := Handle(srv, fs, req.(ifNoneMatch := Some(tag)));
      && again.Ok?
      && again.value.status == 304
      && again.value.body == []
      && ContentTypeHeader !in again.value.headers
      && again.value.headers[EtagHeader] == tag
  {
    StatusesAndTags(srv, fs, req);
  }

  /**
   * A tag obtained before the file's modification time or size changed no longer
   * matches: the new version is sent in full with status 200 and its own tag.
   */
  lemma StaleTagAfterChange(srv: Server, before: FileSystem, after: FileSystem, req: Request)
    requires ServesFile(srv, before, req) && ServesFile(srv, after, req)
    requires
      var currentPath := CurrentPath(srv, srv.decode(req.url).value);
      (after[currentPath].mtimeMs != before[currentPath].mtimeMs
          || after[currentPath].size != before[currentPath].size)
    ensures
      var currentPath := CurrentPath(srv, srv.decode(req.url).value);
      var tag := Handle(srv, before, req).value.headers[EtagHeader];
      var r := Handle(srv, after, req.(ifNoneMatch := Some(tag)));
      && r.Ok?
      && r.value.status == 200
      && r.value.body == after[currentPath].bytes
      && r.value.headers[EtagHeader] != tag
  {
    var currentPath := CurrentPath(srv, srv.decode(req.url).value);
    var b, a := before[currentPath], after[currentPath];
    ETag.MakeInjective(b.mtimeMs, b.size, a.mtimeMs, a.size);
  }

  /**
   * A directory page is the template rendered from the entries of the resolved path,
   * partitioned under the raw URL: files holds exactly the regular-file entries, dirs
   * exactly the others, together every entry once, both in `readdir` order. The page
   * is sent with status 200 and no headers.
   */
  lemma DirectoryListing(srv: Server, fs: FileSystem, req: Request)
    requires req.url != FaviconUrl && srv.decode(req.url).Some?
    requires
      var currentPath := CurrentPath(srv, srv.decode(req.url).value);
      currentPath in fs && fs[currentPath].Dir?
    requires Handle(srv, fs, req).Ok?
    ensures
      var currentPath := CurrentPath(srv, srv.decode(req.url).value);
      var parent := [srv.runAddress, req.url];
      var entries := fs[currentPath].entries;
      var r := Handle(srv, fs, req).value;
      && Partition(srv, fs, parent, entries).Ok?
      && var l := Partition(srv, fs, parent, entries).value;
      && srv.render(Payload(srv.runAddress, srv.srcPath, l)) == Some(r.body)
      && r.status == 200 && r.headers == map[]
      && multiset(l.files) + multiset(l.dirs) == multiset(entries)
      && (forall x :: x in l.files <==> x in entries && IsFileEntry(srv, fs, parent, x))
      && (forall x :: x in l.dirs <==> x in entries && !IsFileEntry(srv, fs, parent, x))
      && IsSubsequence(l.files, entries) && IsSubsequence(l.dirs, entries)
  {
    var currentPath := CurrentPath(srv, srv.decode(req.url).value);
    var parent := [srv.runAddress, req.url];
    var entries := fs[currentPath].entries;
    PartitionCovers(srv, fs, parent, entries);
    PartitionExact(srv, fs, parent, entries);
    PartitionKeepsOrder(srv, fs, parent, entries);
  }

  /**
   * The listing of a directory fails, with no page sent, exactly when one of its
   * entries cannot be stat'ed under the root and the raw URL; the failure names the
   * first such entry.
   */
  lemma DirectoryListingFails(srv: Server, fs: FileSystem, req: Request)
    requires req.url != FaviconUrl && srv.decode(req.url).Some?
    requires
      var currentPath := CurrentPath(srv, srv.decode(req.url).value);
      currentPath in fs && fs[currentPath].Dir?
    ensures
      var currentPath := CurrentPath(srv, srv.decode(req.url).value);
      var parent := [srv.runAddress, req.url];
      var entries := fs[currentPath].entries;
      (exists x :: x in entries && EntryPath(srv, parent, x) !in fs) <==>
        Handle(srv, fs, req).Fail? && Handle(srv, fs, req).error.EntryStatFailed?
  {
    var currentPath := CurrentPath(srv, srv.decode(req.url).value);
    var parent := [srv.runAddress, req.url];
    PartitionOkIffAllExist(srv, fs, parent, fs[currentPath].entries);
    if Partition(srv, fs, parent, fs[currentPath].entries).Fail? {
      PartitionFailsAtFirstMissing(srv, fs, parent, fs[currentPath].entries);
    }
  }

  /** A special file (neither regular file nor directory) goes to the directory responder, whose `readdir` fails. */
  lemma SpecialFileFails(srv: Server, fs: FileSystem, req: Request)
    requires req.url != FaviconUrl && srv.decode(req.url).Some?
    requires
      var currentPath := CurrentPath(srv, srv.decode(req.url).value);
      currentPath in fs && fs[currentPath].Special?
    ensures Handle(srv, fs, req) == Fail(ReadDirFailed(CurrentPath(srv, srv.decode(req.url).value)))
  {
  }

  /**
   * The handler with the listing's entries stat'ed under the decoded request path,
   * that is, next to the directory that was actually read. It differs from `Handle`
   * only there.
   */
  function HandleIntended(srv: Server, fs: FileSystem, req: Request): (r: Outcome) {
    if req.url != FaviconUrl && srv.decode(req.url).Some? then
      var decoded := srv.decode(req.url).value;
      var currentPath := CurrentPath(srv, decoded);
      if currentPath in fs && !fs[currentPath].File? then
        ListDir(srv, fs, [srv.runAddress, decoded], currentPath)
      else Handle(srv, fs, req)
    else Handle(srv, fs, req)
  }

  /**
   * With entries stat'ed next to the directory that was read, a directory whose
   * entries all exist is always listed (when the template renders), whatever
   * escapes its URL contains; the page lists exactly its regular files under files.
   */
  lemma IntendedListsConsistentDirectory(srv: Server, fs: FileSystem, req: Request)
    requires req.url != FaviconUrl && srv.decode(req.url).Some?
    requires
      var decoded := srv.decode(req.url).value;
      var currentPath := CurrentPath(srv, decoded);
      && currentPath in fs && fs[currentPath].Dir?
      && forall x :: x in fs[currentPath].entries ==> srv.join([srv.runAddress, decoded, x]) in fs
    requires forall p :: srv.render(p).Some?
    ensures HandleIntended(srv, fs, req).Ok?
    ensures
      var decoded := srv.decode(req.url).value;
      var entries := fs[CurrentPath(srv, decoded)].entries;
      var l := Partition(srv, fs, [srv.runAddress, decoded], entries).value;
      && HandleIntended(srv, fs, req).value.status == 200
      && Some(HandleIntended(srv, fs, req).value.body) == srv.render(Payload(srv.runAddress, srv.srcPath, l))
      && forall x :: x in l.files <==> x in entries && IsFileEntry(srv, fs, [srv.runAddress, decoded], x)
  {
    var decoded := srv.decode(req.url).value;
    var parent := [srv.runAddress, decoded];
    var entries := fs[CurrentPath(srv, decoded)].entries;
    forall x | x in entries
      ensures EntryPath(srv, parent, x) in fs
    {
      assert parent + [x] == [srv.runAddress, decoded, x];
    }
    PartitionOkIffAllExist(srv, fs, parent, entries);
    PartitionExact(srv, fs, parent, entries);
  }

  /**
   * As written, a directory whose URL needs an escape cannot be listed: for the
   * directory "a b" under "/srv", requested as "/a%20b", `readdir` succeeds on
   * "/srv/a b" but the entry "x" is stat'ed at "/srv/a%20b/x", which does not
   * exist, and the request aborts; the intended handler lists it.
   */
  lemma EncodedDirectoryUrlAborts()
    ensures
      var srv := Server("/srv", "/app", [],
                        s => if s == "/a%20b" then Some("/a b") else Some(s),
                        segs => if |segs| == 3 then segs[0] + segs[1] + "/" + segs[2]
                                else if |segs| == 2 then segs[0] + segs[1] else "",
                        path => None,
                        payload => Some([]));
      var fs := map["/srv/a b" := Dir(["x"]), "/srv/a b/x" := File(1, 0, [])];
      var req := Request("/a%20b", None);
      && Handle(srv, fs, req) == Fail(EntryStatFailed("/srv/a%20b/x"))
      && HandleIntended(srv, fs, req).Ok?
  {
    var srv := Server("/srv", "/app", [],
                      s => if s == "/a%20b" then Some("/a b") else Some(s),
                      segs => if |segs| == 3 then segs[0] + segs[1] + "/" + segs[2]
                              else if |segs| == 2 then segs[0] + segs[1] else "",
                      path => None,
                      payload => Some([]));
    var fs := map["/srv/a b" := Dir(["x"]), "/srv/a b/x" := File(1, 0, [])];
    var req := Request("/a%20b", None);
    assert req.url != FaviconUrl by { assert req.url[1] != FaviconUrl[1]; }
    assert CurrentPath(srv, "/a b") == "/srv/a b";
    var raw := EntryPath(srv, [srv.runAddress, req.url], "x");
    assert raw == "/srv/a%20b/x";
    assert raw !in fs by {
      assert raw[6] != "/srv/a b"[6];
      assert |raw| != |"/srv/a b/x"|;
    }
    assert Partition(srv, fs, [srv.runAddress, req.url], ["x"]) == Fail(EntryStatFailed(raw)) by {
      assert ["x"][..0] == [];
    }
    assert EntryPath(srv, [srv.runAddress, "/a b"], "x") == "/srv/a b/x";
    assert Partition(srv, fs, [srv.runAddress, "/a b"], ["x"]).Ok? by {
      assert ["x"][..0] == [];
    }
  }
}
