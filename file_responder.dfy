/**
 * The file responder: tags the response with the file's entity tag, answers
 * 304 with an empty body when the request's `If-None-Match` is exactly that tag,
 * and otherwise sends the file's bytes with a content type derived from its path.
 */
module FileResponder {
  import opened Wrappers
  import opened Http
  import ETag

  /** The `Content-Type` value: the MIME type with a charset suffix; an unknown type is the string "null". */
  function ContentType(mime: Option<string>): (value: string) {
    (match mime case Some(m) => m case None => "null") + ";charset=utf-8"
  }

  /** The response for the regular file at `currentPath` whose stat gave `mtimeMs` and `size`. */
  function RenderFile(srv: Server, req: Request, currentPath: string, mtimeMs: nat, size: nat, bytes: seq<Byte>): (r: Response)
    ensures EtagHeader in r.headers && r.headers[EtagHeader] == ETag.Make(mtimeMs, size)
    ensures r.status == 304 <==> req.ifNoneMatch == Some(ETag.Make(mtimeMs, size))
    ensures r.status == 304 ==> r.body == [] && r.headers.Keys == {EtagHeader}
    ensures r.status != 304 ==>
      && r.status == 200
      && r.body == bytes
      && r.headers.Keys == {EtagHeader, ContentTypeHeader}
      && r.headers[ContentTypeHeader] == ContentType(srv.mimeOf(currentPath))
  {
    var eTag := ETag.Make(mtimeMs, size);
    var res := SetHeader(Initial, EtagHeader, eTag);
    if req.ifNoneMatch == Some(eTag) then
      res.(status := 304)
    else
      SetHeader(res, ContentTypeHeader, ContentType(srv.mimeOf(currentPath))).(body := bytes)
  }

  /** A request without `If-None-Match` always receives the whole file. */
  lemma AbsentValidatorNeverMatches(srv: Server, url: string, currentPath: string, mtimeMs: nat, size: nat, bytes: seq<Byte>)
    ensures RenderFile(srv, Request(url, None), currentPath, mtimeMs, size, bytes).status == 200
    ensures RenderFile(srv, Request(url, None), currentPath, mtimeMs, size, bytes).body == bytes
  {
  }

  /**
   * Revalidation: sending back the tag of a response for an unchanged file yields
   * 304 with an empty body and no `Content-Type`, and the same tag again.
   */
  lemma RevalidateUnchanged(srv: Server, req: Request, currentPath: string, mtimeMs: nat, size: nat, bytes: seq<Byte>)
    ensures
      var first := RenderFile(srv, req, currentPath, mtimeMs, size, bytes);
      var again := RenderFile(srv, req.(ifNoneMatch := Some(first.headers[EtagHeader])), currentPath, mtimeMs, size, bytes);
      && again.status == 304 && again.body == []
      && ContentTypeHeader !in again.headers
      && again.headers[EtagHeader] == first.headers[EtagHeader]
  {
  }

  /**
   * A tag taken from a version of the file with a different modification time or size
   * never produces 304: the new version is sent in full, with its own tag.
   */
  lemma StaleValidatorRefetches(srv: Server, req: Request, currentPath: string,
                                oldMtime: nat, oldSize: nat, oldBytes: seq<Byte>,
                                mtimeMs: nat, size: nat, bytes: seq<Byte>)
    requires oldMtime != mtimeMs || oldSize != size
    ensures
      var stale := RenderFile(srv, req, currentPath, oldMtime, oldSize, oldBytes).headers[EtagHeader];
      var r := RenderFile(srv, req.(ifNoneMatch := Some(stale)), currentPath, mtimeMs, size, bytes);
      && r.status == 200 && r.body == bytes
      && r.headers[EtagHeader] != stale
  {
    ETag.MakeInjective(oldMtime, oldSize, mtimeMs, size);
  }
}
