# http-server request handling, modelled in Dafny

This project models the per-request behaviour of `HttpServer` in `src/index.js`, a small
local file server. For each request it handles three things:

- the favicon short-circuit;
- resolving the URL against the working directory captured at start-up (`runAddress`),
  then dispatching on what `stat` reports;
- the two responders. The file responder builds an entity tag from the file's
  modification time and size and answers a matching `If-None-Match` with 304. The
  directory responder splits the entries into files and other entries and renders them
  through a template.

Modules, leaf to root:

- `Wrappers` (`wrappers.dfy`): `Option` and `Result`.
- `Hex` (`hex.dfy`): `ToHex`, which gives `Number.prototype.toString(16)` for non-negative
  integers, and its inverse `FromHex`.
- `ETag` (`etag.dfy`): the tag `hex(mtimeMs) + "-" + hex(size)`, plus a `Parse` used to
  prove that the tag determines the pair.
- `Http` (`http.dfy`): requests and responses, the filesystem as a map from path to
  `File`, `Dir` or `Special` node, and `Server`. `Server` holds the fixed configuration
  and the foreign calls as function-valued fields:
  - `decode` is `decodeURIComponent` (partial);
  - `join` is `path.join`;
  - `mimeOf` is `mime.getType` (`None` for null);
  - `render` is the EJS template (partial).
- `FileResponder` (`file_responder.dfy`): `renderFile`.
- `DirResponder` (`dir_responder.dfy`): `renderDir`. Its loop is the method `RenderDir`,
  proved equal to the function `ListDir`, which is built on `Partition`.
- `Router` (`router.dfy`): the handler passed to `http.createServer`, as the function
  `Handle`.

On these paths the code behaves as follows:

- A request is never answered with 400, 403, 404 or 500. The handler catches none of its
  exceptions, and the model records each one as `Fail(...)`, with no status and no
  headers written. These failures are: a malformed escape, a failed stat of the target, a
  failed `readdir`, a failed stat of an entry, and a template error. In the running
  server nothing answers such a request: the handler's promise (or the promise of
  `renderDir`, which the handler does not await) is rejected and nobody handles it. The
  client is left waiting, and under Node 15 and later, with the default
  unhandled-rejection mode, the whole process exits.
- A directory page gets status 200 and no `Content-Type` header, because the code sets
  none.
- When `mime.getType` returns null, the `Content-Type` is the string `null;charset=utf-8`.
  This is how JavaScript concatenates null with a string.
- Any non-regular target goes to the directory responder. For a special file (a socket or
  a FIFO), `readdir` then fails.

## Model

| member | source | states |
|---|---|---|
| Hex.ToHex | src/index.js:91 | the hex text of a number is non-empty, uses only `0-9a-f`, has no leading zero, and starts with `0` only for zero |
| Hex.FromToHex | src/index.js:91 | reading back the hex text of `n` gives `n` |
| Hex.ToFromHex | src/index.js:91 | every canonical hex string is exactly the hex text of the number it denotes |
| Hex.ToHexInjective | src/index.js:91 | distinct numbers have distinct hex texts |
| ETag.Make | src/index.js:91 | the tag is the mtime's hex, a hyphen at position `|hex(mtime)|`, then the size's hex |
| ETag.ParseMake | src/index.js:91 | splitting a tag at its hyphen and parsing both halves recovers `(mtimeMs, size)` |
| ETag.MakeParse | src/index.js:91 | any string that parses to `(m, s)` is exactly the tag of `(m, s)` |
| ETag.MakeInjective | src/index.js:91 | two tags are equal if and only if both the mtimes and the sizes are equal |
| Http.SetHeader | src/index.js:92 | `setHeader` adds or overwrites one header and leaves the status, the body and every other header unchanged |
| FileResponder.RenderFile | src/index.js:90-100 | `Etag` is always set to the file's tag. The status is 304 exactly when `If-None-Match` equals the tag; a 304 has an empty body and only `Etag`. Otherwise the status is 200, `Content-Type` is the MIME type plus `;charset=utf-8`, and the body is the file's bytes |
| FileResponder.AbsentValidatorNeverMatches | src/index.js:93-99 | a request without `If-None-Match` always gets 200 and the whole file |
| FileResponder.RevalidateUnchanged | src/index.js:91-97 | sending back the returned tag for an unchanged file gives 304, an empty body, no `Content-Type`, and the same tag |
| FileResponder.StaleValidatorRefetches | src/index.js:91-99 | a tag from a version with a different mtime or size gives 200 with the new bytes and a different tag |
| DirResponder.FailurePersists | src/index.js:71 | once an entry stat fails, the whole listing fails with that failure |
| DirResponder.PartitionCovers | src/index.js:70-77 | `files` and `dirs` together hold the entries exactly once (multiset equality), so `|files| + |dirs| = |entries|` |
| DirResponder.PartitionClassifies | src/index.js:71-76 | every name in `files` stat'ed as a regular file, and every name in `dirs` as something else |
| DirResponder.PartitionKeepsOrder | src/index.js:70-77 | `files` and `dirs` are both subsequences of the `readdir` order |
| DirResponder.PartitionExact | src/index.js:70-77 | a name is in `files` if and only if it is an entry whose stat is a regular file; likewise `dirs` for the other entries |
| DirResponder.PartitionOkIffAllExist | src/index.js:71 | the listing succeeds if and only if every entry can be stat'ed under the root and the raw URL |
| DirResponder.PartitionFailsAtFirstMissing | src/index.js:71 | a failed listing names the first entry, in `readdir` order, whose stat fails |
| DirResponder.RenderDir | src/index.js:66-88 | the loop that stats and appends entry by entry returns exactly `ListDir`: the `readdir` failure, the first entry-stat failure, the template failure, or 200 with the rendered page |
| Router.FaviconShortCircuit | src/index.js:104-108 | `/favicon.ico` always gets 200, exactly `Cache-Control: max-age=31536000`, no `Etag`, and the icon bytes, whatever the filesystem, `decode` and `join` are |
| Router.Dispatch | src/index.js:110-116 | any other URL: a decode failure or a failed stat of `join(root, decoded)` aborts; a regular file goes to `RenderFile`; every other stat result goes to the directory responder, with entries stat'ed under `[root, raw URL]` |
| Router.StatusesAndTags | src/index.js:90-116 | the only statuses produced are 200 and 304. `Etag` is present exactly on regular-file responses. A 304 requires a regular file whose tag equals `If-None-Match`, and has an empty body |
| Router.ConditionalGetRoundTrip | src/index.js:91-97 | re-requesting with the `Etag` just returned, on an unchanged filesystem, gives 304, an empty body and no `Content-Type` |
| Router.StaleTagAfterChange | src/index.js:91-99 | after the file's mtime or size changes, the old tag gives 200 with the new bytes and a new tag |
| Router.DirectoryListing | src/index.js:66-88 | a directory page is the template applied to `{runAddress, srcPath, paths}`, sent with 200 and no headers. `paths` partitions the entries exactly, by regular-file stat, in `readdir` order |
| Router.DirectoryListingFails | src/index.js:71 | a directory request aborts with an entry-stat failure if and only if some entry is missing under the root and the raw URL |
| Router.SpecialFileFails | src/index.js:112-116 | a target that is neither a regular file nor a directory goes to the directory responder, and its `readdir` fails |
| Router.EncodedDirectoryUrlAborts | src/index.js:71 | a concrete case: the directory `/srv/a b`, requested as `/a%20b`, aborts in `Handle` but is listed by `HandleIntended` |
| Router.IntendedListsConsistentDirectory | src/index.js:71 | with entries stat'ed under the decoded path, a directory whose entries all exist is always listed (when the template renders), with `files` exactly its regular files |

## Left out

- Command-line and start-up glue is not modelled: `start`, version printing, `getAddress`,
  `openLink`, `printNetwork`, `server.listen` and console output (src/index.js:26-53,
  119-124). The constructor's `process.cwd()` becomes the fixed field `runAddress`.
- The HTTP server, sockets and the request method are not modelled. Every request is
  treated as a read, as the handler does.
- Streaming is not modelled. `createReadStream(...).pipe(res)` becomes the file's bytes as
  the body: backpressure, client disconnects and the order of header and body writes are
  I/O concerns. The file is read from the same filesystem snapshot that was stat'ed.
- The internals of `decodeURIComponent`, `path.join`, `mime.getType` and the EJS template
  are not modelled. They are uninterpreted fields of `Server`. As a consequence, nothing
  is claimed about path traversal: the code does no containment check, and the model
  claims none.
- The favicon file read (src/index.js:106) is not modelled: the icon is a constant byte
  sequence, and a failed read is not represented.
- A failed read after a successful stat is not modelled. In the model a `Dir` node can
  always be read and a `File` node always yields its bytes. In the source,
  `fs.readdir(currentPath)` (src/index.js:67) can reject on a directory without read
  permission, which the model does not represent as `ReadDirFailed`. Likewise
  `createReadStream(currentPath)` (src/index.js:99) can emit an unhandled `'error'` on an
  unreadable file after `Etag` and `Content-Type` have been set. `RenderFile` then still
  reports status 200 with the file's bytes, while the real response is never completed.
- Hex.ToHex: takes `mtimeMs` as a natural number. Node reports it as a float, and for a
  fractional value `toString(16)` also emits a base-16 fraction. Integers above 2^53,
  where floats lose precision, are not modelled either.
- Concurrency between requests is not modelled. The requests share no mutable state.
- Directory listing order is kept as `readdir` returns it; the model does not sort.
- Repeated `If-None-Match` headers, which Node joins into one value, are not modelled:
  the request carries the header as a single optional string.

## Findings

| source | as written | input that shows it | evidently intended | confidence | as-written member | corrected member |
|---|---|---|---|---|---|---|
| src/index.js:71 | each directory entry is stat'ed at `path.join(runAddress, req.url, name)`, using the raw, still percent-encoded URL, while the directory itself was read at the decoded path | the directory `a b` under root `/srv`, holding the file `x`, requested as `/a%20b`: `readdir("/srv/a b")` succeeds, but `stat("/srv/a%20b/x")` fails and the request aborts without a response | stat each entry next to the directory that was read, `path.join(runAddress, decodeURIComponent(req.url), name)` | high, not executed | Router.EncodedDirectoryUrlAborts | Router.IntendedListsConsistentDirectory |

`Router.Handle` models the code as written and is what every other lemma describes.
`Router.HandleIntended` differs from it only in the parent path used for entry stats.
