/**
 * The values a request handler of the server works with: the request and the
 * response it builds, the filesystem it stats and reads, the server's fixed
 * configuration, and the foreign calls it makes (URL decoding, path joining,
 * MIME lookup and template rendering), which are left uninterpreted.
 */
module Http {
  import opened Wrappers

  newtype Byte = x: int | 0 <= x < 256

  /** The parts of an incoming request the handler reads: the raw URL and the `If-None-Match` header. */
  datatype Request = Request(url: string, ifNoneMatch: Option<string>)

  /** What the handler has written to the response when it ends it. */
  datatype Response = Response(status: nat, headers: map<string, string>, body: seq<Byte>)

  const EtagHeader := "Etag"
  const ContentTypeHeader := "Content-Type"
  const CacheControlHeader := "Cache-Control"

  /** A response before the handler touches it: status 200, no headers, nothing written. */
  const Initial := Response(200, map[], [])

  function SetHeader(res: Response, name: string, value: string): (r: Response)
    ensures r.status == res.status && r.body == res.body
    ensures r.headers.Keys == res.headers.Keys + {name} && r.headers[name] == value
    ensures forall h :: h in res.headers && h != name ==> r.headers[h] == res.headers[h]
  {
    res.(headers := res.headers[name := value])
  }

  /**
   * What `stat` reports for a path, followed through links: a regular file with its
   * modification time in milliseconds, its size and its bytes; a directory with its
   * entries in the order `readdir` returns them; or anything else (a socket, a FIFO,
   * a device), which is neither a regular file nor listable.
   */
  datatype Node = File(mtimeMs: nat, size: nat, bytes: seq<Byte>) | Dir(entries: seq<string>) | Special

  /** The filesystem as the handler sees it during one request: absolute path to node. */
  type FileSystem = map<string, Node>

  /** `fs.stat`: fails when nothing is at the path. */
  function Stat(fs: FileSystem, path: string): (r: Option<Node>)
    ensures r.Some? <==> path in fs
  {
    if path in fs then Some(fs[path]) else None
  }

  /** `fs.readdir`: fails unless the path is a directory. */
  function ReadDir(fs: FileSystem, path: string): (r: Option<seq<string>>)
    ensures r.Some? <==> path in fs && fs[path].Dir?
  {
    if path in fs && fs[path].Dir? then Some(fs[path].entries) else None
  }

  /** A directory's entries split by what their stat reported. */
  datatype Listing = Listing(files: seq<string>, dirs: seq<string>)

  /** The data handed to the listing template. */
  datatype Payload = Payload(runAddress: string, srcPath: string, paths: Listing)

  /**
   * The server's configuration, fixed at start-up, with the foreign calls it makes:
   * - `runAddress`: the working directory captured when the server is constructed;
   * - `srcPath`: the directory of the server's own assets and templates;
   * - `icon`: the bytes of the bundled favicon;
   * - `decode`: `decodeURIComponent`, `None` where it throws;
   * - `join`: `path.join` over its arguments;
   * - `mimeOf`: `mime.getType`, `None` where it returns null;
   * - `render`: the listing template applied to a payload, as the bytes of the page,
   *   `None` where the template engine reports an error.
   */
  datatype Server = Server(
    runAddress: string,
    srcPath: string,
    icon: seq<Byte>,
    decode: string -> Option<string>,
    join: seq<string> -> string,
    mimeOf: string -> Option<string>,
    render: Payload -> Option<seq<Byte>>)

  /** Why a request got no response: each is an exception the handler does not catch, left as an unhandled rejection. */
  datatype Failure =
    | DecodeFailed(url: string)
    | StatFailed(path: string)
    | ReadDirFailed(path: string)
    | EntryStatFailed(path: string)
    | RenderFailed

  type Outcome = Result<Response, Failure>
}
