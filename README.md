# otus_server request pipeline in Dafny

This project models the request pipeline of the Otus static-file HTTP/1.1
server (`htttpd.py`, `httpcls.py`) and proves properties of it. One
connection goes through these stages:

- **Frame reader** (`read_request`). An imperative loop appends received
  chunks to a buffer. It stops at the first chunk that is empty or that
  itself holds `\r\n\r\n`. This is `FrameReader.ReadRequest`, a method whose
  loop invariants tie the buffer to the function `FrameReader.Received`.
- **Request-line parser** (`parse_request`). Latin-1 decoding, Python's
  `str.strip()` and `str.split()`, the first CRLF-separated line, and
  exactly three tokens. Any other count is the `ValueError` that the handler
  turns into 400. The target is then percent-decoded.
- **Traversal check** (`check_safe_url`). The model includes `os.path.abspath`,
  `normpath` and `commonpath` (module `PosixPath`). The check holds exactly
  when the components of the safe directory are a prefix of the components
  of the normalised target.
- **Target resolution**. The target is cut to the text between the first `/`
  and the first `?`. It is joined to the document root with `os.path.join`
  and parsed by `pathlib` (module `PurePaths`). `%20` is replaced by a space.
  A directory gets `index.html` appended. A trailing `/` on a non-directory
  gives 404, and so does a path that is not a regular file. The file system
  is a map from locations (lists of components) to nodes: a file with its
  bytes, or a directory. `is_dir` and `is_file` look a path up one component
  at a time, as `stat` does (`PathResolver.Walk`). A `..` goes to the parent.
  A missing component, or a file with more components after it, makes the
  lookup fail.
- **Outcome selection** (`handle_connection`). A fixed chain of checks:
  parse (400), then method (405), then safety (403), then resolution (404),
  then success (200). An unknown suffix raises a `KeyError` that nothing
  catches. It is its own outcome, `UncaughtKeyError`: no reply is sent,
  `handle_connection` never reaches `close`, and the worker thread ends.
- **Response serialisation** (`send_error`, `send_response`). A status line
  and five header lines are joined by CRLF and encoded as UTF-8. Then come
  CRLF CRLF and the body. The reply parser `ResponseWriter.ParseReply` is the
  partner these are proved against.
- **Status registry** (`HTTPStatus`). Six `(code, reason)` pairs, rendered as
  `"<code> <reason>"`. The request and response records are datatypes.

`Handler.Handle` is the decision chain as written. `Confinement.ConfinedHandle`
is the same chain with the traversal guard the code evidently intends (see
"## Findings").

`SAFE_DIR` is the constant `/httptest`. It is compared with the raw request
target, not with the path under the document root. So `GET /index.html` is
answered with 403, whatever the document root holds (`SafeUrl.SafeDirCheck`,
`Handler.ForbiddenIff`).

## Model

| member | source | states |
|---|---|---|
| FrameReader.ReadRequest | htttpd.py:52-66 | the buffer returned is `Received(chunks)`: the chunks appended in order up to and including the first one that is empty or holds CRLF CRLF |
| FrameReader.ReceivedUpToFirstStop | htttpd.py:57-66 | when chunk k is the first stopping chunk, the result is exactly the concatenation of chunks 0..k |
| FrameReader.ReceivedWithoutStop | htttpd.py:60-64 | when no chunk stops the loop, every chunk is concatenated |
| FrameReader.SplitTerminatorDoesNotStop | htttpd.py:63 | a CRLF CRLF split across two chunks does not stop the loop; reading goes on into the following chunks |
| RequestParser.ParseRequest | htttpd.py:79-95 | empty data fails with a zero token count; a parsed method is a non-empty token without whitespace |
| RequestParser.ParseRequestLine | htttpd.py:85-95 | for a line of well-formed tokens followed by CRLF and any rest, parsing succeeds iff there are exactly three tokens |
| RequestParser.ParseBareRequestLine | htttpd.py:85-95 | a request line sent alone, without CRLF, also parses iff it has exactly three tokens |
| RequestParser.ParseThreeTokens | htttpd.py:85-95 | `m t v CRLF rest` parses to `Request(m, unquote(t))` |
| RequestParser.WordsJoin | htttpd.py:91 | splitting on whitespace recovers the tokens joined by single spaces |
| RequestParser.FirstLineOfStripped | htttpd.py:85-86 | after `strip()`, the first CRLF-separated piece is the request line itself |
| RequestParser.EmptyRequestFails | htttpd.py:85-91 | empty data fails to parse |
| RequestParser.GarbageFails | htttpd.py:85-91 | `garbage\r\n\r\n` fails with one token |
| RequestParser.Unquote | htttpd.py:93 | decoding never lengthens the text, and text without `%` is unchanged |
| RequestParser.UnquoteQuote | htttpd.py:93 | percent-decoding undoes percent-encoding of any Latin-1 text |
| RequestParser.EncodedDotDot | htttpd.py:93 | `%2e%2E` decodes to `..`, so the decoded target is what the traversal check sees |
| PosixPath.Join | htttpd.py:176 | an absolute second argument replaces the root; otherwise the result starts with the root and ends with the argument |
| PosixPath.NormPathComponents | htttpd.py:75 | the components of `normpath(p)` are those of `p` with empty and `.` parts dropped and `..` resolved, where the parent of `/` is `/` |
| PosixPath.NormPathIdempotent | htttpd.py:75 | normalising twice is normalising once |
| PosixPath.CommonPrefix | htttpd.py:76 | the result is a prefix of both lists, and it is the longest one |
| SafeUrl.CheckSafeUrlIffPrefix | htttpd.py:69-76 | the check holds iff the safe directory's components are a prefix of the normalised target's components |
| SafeUrl.SafeDirCheck | htttpd.py:69-76 | on an absolute target the check holds iff `httptest` is the first normalised component |
| SafeUrl.TraversalRefused | htttpd.py:69-76 | `/httptest/../../etc/passwd` is refused |
| SafeUrl.InnerDotDotAccepted | htttpd.py:69-76 | `/httptest/a/../b` is accepted |
| SafeUrl.SiblingPrefixRefused | htttpd.py:69-76 | `/httptestx` is refused: components are compared, not characters |
| SafeUrl.PlainTargetIsSafe | htttpd.py:69-76 | a target of proper components starting with `httptest` is accepted |
| SafeUrl.QueryTraversalAccepted | htttpd.py:69-76 | `/httptest/../../a.txt?/../httptest` is accepted, because the query takes part in normalisation |
| PurePaths.Parse | htttpd.py:176 | `Path(s)` is well formed, and it is relative iff `s` is not absolute |
| PurePaths.ParseToString | htttpd.py:176-178 | `Path(str(p)) == p` for every well-formed path |
| PurePaths.ParseIdempotent | htttpd.py:178 | parsing a rendered path again gives the same path |
| PurePaths.Child | htttpd.py:181 | `p / name` keeps the root and the parts and appends `name` |
| PurePaths.Suffix | htttpd.py:199 | a non-empty suffix starts at the name's last `.`, which is neither its first nor its last character; an empty one means every inner `.` of the name (one neither first nor last) has another `.` after it |
| PurePaths.IndexSuffix | htttpd.py:181 | a directory's `index.html` has suffix `.html` |
| PathResolver.StripTarget | htttpd.py:174 | the stripped target holds no `?` and is empty when the target has no `/` |
| PathResolver.StripTargetAfterSlash | htttpd.py:174 | the stripped target is exactly the text after the first `/` up to the first `?` or the end |
| PathResolver.StripPlainTarget | htttpd.py:174 | `"/" + path + query` strips to `path` |
| PathResolver.ReplaceEncodedSpaces | htttpd.py:178 | no `%20` is left, the text never grows, and text without `%` is unchanged |
| PathResolver.ReplaceIsSplitJoin | htttpd.py:178 | the result is the text split at each `%20`, taken left to right without overlap, and joined with single spaces: each `%20` becomes one space and every other character is kept in order |
| PathResolver.Walk | htttpd.py:180-189 | the `stat` lookup behind `is_dir` and `is_file`: where it succeeds, it lands on the location that normalising the text of the path gives |
| PathResolver.DotDotThroughNonDirectory | htttpd.py:180-189 | a `..` after a missing component or a non-directory makes the lookup fail, although normalising the text removes the pair |
| PathResolver.LookupRooted | htttpd.py:180-189 | in a file system where every entry's parent is a directory, a rooted path of proper components is found at exactly those components |
| PathResolver.LookupLocates | htttpd.py:180-189 | a lookup that succeeds reaches the location that `abspath` of the path names |
| PathResolver.ResolveTarget | htttpd.py:180-190 | a found path passes `is_file`, and it is the target path or that path's `index.html` |
| PathResolver.ResolvesFile | htttpd.py:180-190 | a path that passes `is_file`, reached without a trailing `/`, is found as it is |
| PathResolver.ResolvesIndex | htttpd.py:180-190 | a path that passes `is_dir`, whose `index.html` passes `is_file`, resolves to that `index.html` |
| PathResolver.ResolvesSlashOnFile | htttpd.py:180-183 | a path that fails `is_dir`, reached with a trailing `/`, is missing |
| PathResolver.LocateChild | htttpd.py:181 | `p / name` denotes the location one component below `p` |
| PathResolver.PlainTargetPath | htttpd.py:174-178 | a plain target under a normalised root becomes the path root + target components, located at those components |
| ResponseWriter.ErrorBody | htttpd.py:100 | the error body is as long as the rendered status |
| ResponseWriter.ParseSendResponse | htttpd.py:117-135 | the reply parses back into its status, date, content type, content length and body, with the fixed server and connection lines |
| ResponseWriter.ParseSendError | htttpd.py:98-112 | an error reply parses back with content type `text/plain`, content length equal to the body's length, and body the UTF-8 `"<code> <reason>"` |
| ResponseWriter.StatusLineFirst | htttpd.py:125-135 | the bytes start with `HTTP/1.1 <code> <reason>` and CRLF |
| HttpCls.Status.ToString | httpcls.py:13-15 | the rendering is as long as the code's digits, one space and the reason |
| HttpCls.ExactlySixMembers | httpcls.py:5-11 | there are exactly six distinct members, with the six listed (code, reason) pairs |
| HttpCls.CodesDistinct | httpcls.py:6-11 | members with the same code are the same member |
| HttpCls.FromCode | httpcls.py:5-11 | the lookup by code finds a member with that code whenever one exists |
| HttpCls.ToStringShape | httpcls.py:6-15 | a rendering is three digits, a space and a printable reason, with no CR or LF |
| HttpCls.ParseToString | httpcls.py:13-15 | the rendering reads back as the same member, through a reader that looks up the code and then compares the reason phrase |
| HttpCls.ToStringInjective | httpcls.py:6-15 | distinct members render differently |
| Decimal.ReadShow | httpcls.py:15 | reading back a decimal rendering gives the number |
| Bytes.Utf8RoundTrip | htttpd.py:111 | UTF-8 decoding undoes UTF-8 encoding |
| Bytes.Latin1RoundTrip | htttpd.py:85 | Latin-1 decoding undoes Latin-1 encoding |
| Handler.Answer | htttpd.py:167-201 | after a successful parse, an error outcome is only 405, 403 or 404 |
| Handler.HandleConnection | htttpd.py:147-211 | the bytes sent are the serialised outcome of handling the received data, and the connection is closed iff something was sent |
| Handler.Respond | htttpd.py:165-208 | the connection is closed iff bytes are written, which happens iff the outcome is not the `KeyError`; with a one-line date, the bytes of an error read back as that status, `text/plain`, the length of the rendered status and that text as body, and the bytes of a served response read back as its status, content type, length and body |
| Handler.BadRequestIff | htttpd.py:160-165 | the outcome is 400 iff parsing fails |
| Handler.MethodNotAllowedIff | htttpd.py:167-168 | the outcome is 405 iff parsing succeeds and the method is neither `GET` nor `HEAD`, whatever the target |
| Handler.ForbiddenIff | htttpd.py:170-172 | the outcome is 403 iff the method is allowed and the traversal check fails |
| Handler.NotFoundIff | htttpd.py:174-190 | the outcome is 404 iff the request passes both checks and the target does not resolve |
| Handler.ServedReply | htttpd.py:192-201 | a served reply is 200, its length is the file size, its body is the file for GET and empty for HEAD, and its type is the table entry for the suffix |
| Handler.UncaughtKeyErrorIff | htttpd.py:199 | the `KeyError` escapes iff the file is found and its suffix is not in the table; then no reply is sent, `handle_connection` never reaches `close`, and the worker thread ends |
| Handler.HeadIsGetWithoutBody | htttpd.py:192-201 | a HEAD request is the GET request with the body emptied |
| Handler.ServesFile | htttpd.py:158-201 | in a file system where every entry's parent is a directory, a plain request for a file under `httptest` is served with the file's bytes (none for HEAD), its size and its type, or hits the `KeyError` |
| Handler.ServesDirectoryIndex | htttpd.py:176-201 | in such a file system, a plain request for a directory serves its `index.html` as `text/html` |
| Handler.TrailingSlashOnFile | htttpd.py:180-183 | a trailing `/` on a file is answered 404, whatever the file system holds above it |
| Handler.MissingFileNotFound | htttpd.py:189-190 | a plain request for nothing is answered 404 |
| Confinement.ConfinedServesOnlyInside | htttpd.py:170-190 | with the corrected guard, the lookup of every served file reaches a location inside the document root's `httptest` directory |
| Confinement.PlainTargetConfined | htttpd.py:170-176 | a plain target under `httptest` passes the corrected guard |
| Confinement.ConfinedAgreesOnPlainRequests | htttpd.py:158-201 | on plain requests the corrected handler answers exactly as the original |
| Confinement.QueryTraversalServed | htttpd.py:170-201 | on a file system that holds the directories `/www` and `/www/httptest` and the file `/a.txt`, the original serves `/a.txt` for the escaping request under document root `/www`, outside both directories |
| Confinement.QueryTraversalRefused | htttpd.py:170-172 | the corrected handler answers that request with 403 |

## Left out

- Sockets, `accept`/`recv`/`sendall`/`close`, worker threads and the accept loop (htttpd.py:214-254). `recv` is a given sequence of chunks, and chunks past its end are empty (the peer closed). Sending and closing are the values `HandleConnection` returns.
- The 1024-byte bound on each `recv`: chunks may have any length.
- Command-line parsing, the global overrides and all logging (htttpd.py:33-49, 257-264): they do not affect a reply.
- `datetime.now()` (htttpd.py:99, 123): the date text is a parameter.
- `os.getcwd()` inside `abspath`: the working directory is a parameter `cwd`, required to be absolute.
- Real file-system access. The file system is a map from locations to nodes, and the lookup walks it one component at a time. Not modelled: symbolic links (after a link, `..` goes to the parent of the link's target), permissions, `stat` failures other than a missing entry or a non-directory, and races between `is_dir`, `is_file` and `read_bytes`. A file's size is the length of its bytes.
- RequestParser.Unquote: decodes `%XX` to the Latin-1 character with that code. It does not UTF-8-decode escapes of 0x80 and above, as `urllib.parse.unquote` does.
- Only the POSIX flavour of `os.path` and `pathlib` is modelled.
- The 408 status is in the registry, but nothing in the core produces it.
- The findings below are shown on one input. Other escapes, such as a target whose stripped part starts with `/` and so replaces the document root, are not proved.

## Findings

| source | as written | input that shows it | evidently intended | confidence | as-written member | corrected member |
|---|---|---|---|---|---|---|
| htttpd.py:170-176 | the traversal check normalises the whole target, query included; the server then opens only the text between the first `/` and the first `?`, joined under the document root | `GET /httptest/../../a.txt?/../httptest HTTP/1.1` with document root `/www` passes the check and serves `/a.txt` | only files inside the document root's `httptest` directory are served | high; not executed | Confinement.QueryTraversalServed | Confinement.ConfinedServesOnlyInside |

The corrected guard, `Confinement.Confined`, checks the location actually
opened: the path under the document root with the query already dropped. It
must lie under the document root's `httptest` directory.
`Confinement.ConfinedHandle` is `Handler.Answer` with that guard, and
`Confinement.ConfinedAgreesOnPlainRequests` shows that it changes no answer
to a plain request. `Handler.HandleConnection` keeps the behaviour as
written.
