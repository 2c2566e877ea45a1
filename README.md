# A verified model of HttpServer.py's request handling

`HttpServer.py` is a small static-file HTTP server. It handles one connection at a time in `handle_client`:

1. It receives bytes until the request head is complete.
2. It decodes them as ISO-8859-1 and splits the text into a request line and header field lines.
3. It requires a three-token request line and answers any method other than `GET` with a fixed 405.
4. It percent-decodes the target, normalises it and joins it onto the root directory.
5. It serves the file only if the normalised path stays inside the root.
6. It maps the exceptions raised on the way to 404 and 500 replies, built by `send_error_response`.
7. It closes the connection on every path.

This project models that pipeline in Dafny and proves what each step guarantees. The modules are:

- `Wrappers`: `Option`.
- `Latin1`: bytes and ISO-8859-1 text, both directions.
- `Text`: the Python `str` operations used.
  - `find` and `split(sep)`.
  - `sep.join`.
  - `strip`, `lstrip` and `rstrip` with Python's whitespace set.
  - `split()` with no argument.
  - `str(n)` for naturals.
- `Request`: the receive loop (a method), the CRLF split, the header loop (a method filling a dictionary), `ParseField` and the request line.
- `Paths`: the path pipeline, each step a pure function.
  - `unquote` is percent-decoding at the byte level (section 2.1 of RFC 3986).
  - `posixpath.normpath`, `lstrip('/\\')`, `os.path.join` and `os.path.commonpath`.
  - The containment theorem, and worked traversal examples.
- `Response`: the exact bytes of the 405, 200, 404 and 500 replies. The error replies use the root's `404.html`/`500.html` or the generated HTML body.
- `Reader`: a client's reading of an HTTP/1.1 message (section 2.1 of RFC 9112). It is the partner of the writers: each error and 405 reply, and the 200 reply when the guessed type is a well-formed field value, is proved to read back as its status line, its fields and its body. `Content-Length` always equals the body length (section 8.6 of RFC 9110).
- `Server`:
  - `Route`, the decision that stands for the `try` block up to line 96.
  - `Attempt`, how the `try` block ends.
  - `Handler` and `Handle`, the `except` handlers.
  - A `Connection` class with `SendAll` and `Close`.
  - The `SendErrorResponse` method, which builds its head by successive `+=` and is proved to send exactly `ErrorResponse`, or to raise where that is `None`.
  - The `HandleClient` method, proved to send exactly `Handle(Framed(chunks), env).sent` and to close the connection.

The environment is a parameter (`Server.Env`):

- The root, given by its segments as a normalised absolute path with one leading slash.
- A file map from normalised absolute path to `RegularFile(bytes)` or `Unreadable`. `Unreadable` is a file whose `open`/`read` raises.
- `mimetypes.guess_type`, as a function.
- The UTF-8 decoder with replacement that `unquote` applies to the decoded bytes, as a function.

The headline properties:

- **Containment.** A file is served only when its path is absolute, the root's segments start its normalised segments, and the file map has it (`Server.ServedInsideRoot`). The check at line 93 accepts exactly those paths (`Paths.ContainedIff`).
- **The relative path.** After `normpath` and `lstrip('/\\')`, the path handed to `join` never starts with `/` or `\`. It has no empty segment, `..` appears only in a leading run, and `.` appears only as the whole first segment (`Paths.RequestedPathForm`).
  - The stronger claim "no `.` segment at all" does not hold for this code. `normpath` on POSIX does not treat `\` as a separator, so the target `\./x` is normalised to itself and the `lstrip` then leaves `./x` (`Paths.DotAfterBackslash`).
  - `a/..` normalises to `.`.
  - Neither leads out of the root, so this is not a defect.
- **Framing.** The receive loop stops exactly where the specification function says, and its buffer is the concatenation of the chunks consumed.
- **Headers.** A repeated header name keeps its last value (`Request.HeaderLastWins`).
- **Replies.** Every error reply and the 405 reply read back as the intended message. The 200 reply does too when the guessed content type is a well-formed field value: ISO-8859-1, no carriage return, and no surrounding whitespace (`Reader.OkReadBack`). A type from the table that breaks this is sent as it is, but a client reads it back differently.

## Model

| member | source | states |
|---|---|---|
| Request.ReadRequest | HttpServer.py:36-43 | The loop appends exactly the chunks up to its stopping point: each appended chunk is non-empty, and none was appended to a buffer that already held CRLF CRLF. It stops at the first empty chunk (or the end of the chunks), or right after the chunk that makes the buffer hold CRLF CRLF. The buffer is the concatenation of the chunks appended. |
| Request.ReadStopIsUnique | HttpServer.py:36-43 | The stopping point is determined by the chunks alone. |
| Request.ReadRequestIsFramed | HttpServer.py:36-43 | What the loop collects is `Framed(chunks)`, the function the rest of the model uses. |
| Request.Framed | HttpServer.py:36-43 | Some stopping point exists, and the framed bytes are the concatenation up to it. |
| Latin1.Decode | HttpServer.py:45 | Decoding keeps the length and maps every byte to the character with the same code. |
| Latin1.DecodeEncode | HttpServer.py:45 | Re-encoding the decoded text gives back the bytes. |
| Latin1.EncodeDecode | HttpServer.py:113 | Encoding ISO-8859-1 text and decoding it gives back the text. |
| Latin1.EncodeAppend | HttpServer.py:113 | The encoding of a concatenation is the concatenation of the encodings. |
| Latin1.Latin1Append | HttpServer.py:113 | A concatenation can be encoded exactly when both parts can. |
| Text.FindFirst | HttpServer.py:42 | The result is an occurrence of the pattern, and no occurrence lies before it; `None` means there is no occurrence at all. |
| Text.Split | HttpServer.py:49 | `s.split(sep)`: the pieces between the occurrences of `sep`, found left to right, never fewer than one. |
| Request.Lines | HttpServer.py:45-49 | The request bytes decoded as ISO-8859-1 and split at each CRLF; there is always a first line, the request line. |
| Text.SplitThenJoin | HttpServer.py:49 | Joining the pieces of `split(sep)` with `sep` gives back the text. |
| Text.SplitPiecesFree | HttpServer.py:49 | No piece of `split(sep)` contains `sep`. |
| Text.JoinThenSplitSep | HttpServer.py:49 | Splitting a join of pieces that do not contain the separator's first element gives back the pieces. |
| Request.FieldLines | HttpServer.py:53-55 | The examined lines are those after the request line, up to and excluding the first empty line. No examined line is empty. |
| Request.FieldRunIsUnique | HttpServer.py:53-55 | There is only one such run of lines. |
| Request.ParseField | HttpServer.py:56-59 | `line.split(':', 1)` with both parts stripped: the name before the first `:` and the value after it; `None` for a line without `:`. |
| Request.ParseFieldColon | HttpServer.py:56-57 | A line is ignored exactly when it has no `:`. Otherwise it is split at its first `:`, so the name holds no `:`. |
| Request.ParseFieldOfLine | HttpServer.py:56-60 | The line `name: value` is read as that name and value, for trimmed `name` and `value` and `name` free of `:`. |
| Text.Strip | HttpServer.py:58-59 | `str.strip()` with Python's whitespace set: leading whitespace dropped one character at a time, then the trailing run. |
| Text.StripIsTrim | HttpServer.py:58-59 | `strip()` returns a contiguous part of its input with only whitespace before and after it, and its first and last characters are not whitespace. |
| Text.StripIsBothTrims | HttpServer.py:58-59 | `strip()` is `lstrip()` followed by `rstrip()`. |
| Text.TrimStart | HttpServer.py:58-59 | `lstrip()` removes exactly the leading run of whitespace. |
| Text.TrimEnd | HttpServer.py:58-59 | `rstrip()` removes exactly the trailing run of whitespace. |
| Request.HeaderMap | HttpServer.py:51-60 | The dictionary after the field lines were read in order: each line with a `:` assigns its name its value, later lines overwriting earlier ones. |
| Request.ParseHeaders | HttpServer.py:51-60 | The dictionary the loop builds is `HeaderMap` of the examined field lines. |
| Request.HeaderLastWins | HttpServer.py:51-60 | A name is in the dictionary exactly when some examined line assigns it. Its value comes from the last such line. |
| Request.StoreLastWins | HttpServer.py:60 | For any sequence of dictionary assignments, a key is present exactly when some assignment sets it, and its value is the last one assigned. |
| Request.HeaderMapIsStore | HttpServer.py:51-60 | The header dictionary is the dictionary of the parsed lines assigned in order. |
| Request.ParseRequestLine | HttpServer.py:63-67 | A request line is accepted exactly when `split()` gives three tokens, and the fields are those tokens in order. |
| Request.ParseRequestLineOf | HttpServer.py:63-67 | `method SP target SP version`, each a non-empty word without whitespace, is read back as those three. |
| Request.EmptyRequestLineRefused | HttpServer.py:63-65 | The empty request line is refused. |
| Text.Tokens | HttpServer.py:63 | `split()` with no argument: the maximal runs of non-whitespace characters, in order. |
| Text.TokensAreWords | HttpServer.py:63 | Every token of `split()` is non-empty and free of whitespace. |
| Text.TokensOfJoin | HttpServer.py:63 | `split()` of words joined with single spaces gives back the words. |
| Text.TokensSkipSpace | HttpServer.py:63 | Leading whitespace does not change the tokens. |
| Server.MalformedGets500 | HttpServer.py:64-65 | A request line that is not three tokens gets the 500 handler's reply. |
| Server.EmptyRequestGets500 | HttpServer.py:36-65 | An empty request (the peer closed at once) gets the 500 handler's reply. |
| Server.OtherMethodGets405 | HttpServer.py:72-76 | Any method other than `GET` gets exactly `HTTP/1.1 405 Method Not Allowed` CRLF CRLF, whatever the files are, and nothing escapes. |
| Reader.MethodNotAllowedReadBack | HttpServer.py:74-75 | The 405 reply reads back as that status line alone, with no fields and an empty body. |
| Paths.PercentDecode | HttpServer.py:80 | Each `%` followed by two hex digits becomes the byte they spell; every other byte, a malformed `%` included, is kept. |
| Paths.UnquoteRuns | HttpServer.py:80 | Each maximal ASCII run is percent-decoded to bytes and read as UTF-8 with replacement; other characters are kept. |
| Paths.PercentRoundTrip | HttpServer.py:80 | Percent-decoding undoes percent-encoding, for every byte string. |
| Paths.PercentDecodeWithoutPercent | HttpServer.py:80 | Bytes without `%` are left unchanged. |
| Paths.MalformedEscapeKept | HttpServer.py:80 | A `%` not followed by two hex digits stays a literal `%`, and decoding goes on after it. |
| Paths.Unquote | HttpServer.py:80 | A target without `%` is returned unchanged. |
| Paths.UnquoteAscii | HttpServer.py:80 | An ASCII target with `%` is the UTF-8 reading of its percent-decoded bytes. |
| Paths.NormStep | HttpServer.py:83 | One turn of `normpath`'s loop: empty and `.` components are dropped; `..` removes the last kept component unless there is none or it is `..`, and is kept in a relative path and dropped in an absolute one when there is none. |
| Paths.NormFold | HttpServer.py:83 | `normpath`'s loop over all the components, left to right. |
| Paths.NormPath | HttpServer.py:83 | `posixpath.normpath`: the leading slashes it keeps (two for exactly two, else one or none), then the kept components joined with `/`; `.` when nothing is left. |
| Paths.NormComponentsNormal | HttpServer.py:83 | The components `normpath` keeps are non-empty, not `.` and free of `/`. `..` occurs only in a leading run, and not at all in an absolute path. |
| Paths.NormPathAbsoluteSegments | HttpServer.py:83 | A normalised absolute path has only child segments (none empty, `.` or `..`), namely the kept components. |
| Paths.RequestedPathForm | HttpServer.py:83-85 | After `normpath` and `lstrip('/\\')`, the path does not start with `/` or `\`. It has no empty segment, `.` at most as its first segment, and `..` only in a leading run. |
| Paths.RequestedPathIsRelative | HttpServer.py:80-85 | The same, for the percent-decoded target of any request. |
| Paths.StripLeading | HttpServer.py:85 | `lstrip('/\\')` removes exactly the leading run of `/` and `\`. |
| Paths.ParentOfTopDropped | HttpServer.py:80-85 | `/../x` is requested as `x`. |
| Paths.TopIsEmpty | HttpServer.py:80-85 | `/` is requested as the empty path. |
| Paths.DotAfterBackslash | HttpServer.py:80-85 | `\./x` is requested as `./x`. |
| Paths.ClimbRequested | HttpServer.py:80-85 | `a/../../x` is requested as `../x`. |
| Paths.JoinPath | HttpServer.py:86 | `os.path.join(a, b)`: `b` alone if it is absolute, else `a` and `b` with one `/` between them unless `a` is empty or ends in `/`. |
| Paths.FullPathExtendsRoot | HttpServer.py:86 | The joined path starts with the root and is absolute: `join` never discards the root. |
| Paths.CommonPath | HttpServer.py:93 | `os.path.commonpath` of two absolute paths: `/` followed by their longest common run of segments, empty and `.` segments ignored. |
| Paths.Contained | HttpServer.py:93 | The test `commonpath([abspath(full), root]) == root`, with `abspath` of an absolute path being its `normpath`. |
| Paths.ContainedIff | HttpServer.py:93 | `commonpath([abspath(full), root]) == root` holds exactly when the root's segments start the normalised segments of `full`. |
| Paths.RootSegments | HttpServer.py:93 | The root's segments are the ones it is built from. |
| Paths.ClimbOutRejected | HttpServer.py:80-94 | `a/../../x` lands beside the root's last directory and fails the containment check, unless `x` is that directory's own name. |
| Server.Route | HttpServer.py:45-96 | What the request asks for: a 500 for a request line that is not three tokens, 405 for a method other than `GET`, 404 outside the root, the file if the path is a file, and 404 otherwise. |
| Response.Lookup | HttpServer.py:96-99 | `os.path.isfile` and the read: no file for a path containing NUL or whose last `/`-separated segment is empty, `.` or `..`; otherwise the entry of the file map at the normalised path. |
| Server.RouteOfGet | HttpServer.py:80-96 | For a `GET`, the joined path is absolute. It is refused as outside the root exactly when the root's segments do not start its normalised segments. It is served exactly when they do and it is a file. It gets the not-a-file 404 exactly when they do and it is not a file. |
| Server.ServedInsideRoot | HttpServer.py:93-98 | A served path is absolute, lies inside the root by segments, and is a file. |
| Response.OkHead | HttpServer.py:107-110 | The 200 head: the status line `HTTP/1.1 200 OK`, `Content-Type`, `Content-Length` as the length in decimal, each ended by CRLF, then CRLF. |
| Response.OkResponse | HttpServer.py:102-113 | The 200 reply: the head for the guessed type (`application/octet-stream` when there is none) encoded as ISO-8859-1, then the content; `None` when the head cannot be encoded, where line 113 raises. |
| Reader.OkReadBack | HttpServer.py:98-113 | When the content type is a well-formed field value (ISO-8859-1, no carriage return, no surrounding whitespace), a 200 reply reads back with status line `HTTP/1.1 200 OK`. Its fields are `Content-Type` (the guessed type, or `application/octet-stream`) and `Content-Length`, which declares exactly the content's length. Its body is the content unchanged. |
| Reader.OkResponseEncodable | HttpServer.py:102-113 | The 200 reply can be built exactly when the content type is ISO-8859-1 text. Otherwise line 113 raises. |
| Reader.OkHeadLines | HttpServer.py:107-110 | The head built by the four `+=` steps is the three lines, each ended by CRLF, and then a blank line. |
| Text.DecimalRoundTrip | HttpServer.py:109 | A length written in decimal reads back as the same number. |
| Server.ServedReply | HttpServer.py:96-113 | A served regular file whose type is a well-formed field value is sent, without escaping, as the 200 reply read back above. |
| Server.Attempt | HttpServer.py:72-116 | How the `try` block ends for a decision: the 405 reply; `FileNotFoundError` outside the root; the 404 reply for a path that is not a file; the 200 reply for a regular file; any other exception otherwise. |
| Server.AttemptCompleted | HttpServer.py:72-116 | A `try` block that completes has sent one of three replies: the 405 bytes, the not-a-file 404 reply, or the 200 reply for a regular file. |
| Server.CompletedReplies | HttpServer.py:72-116 | The same for a received request; in the 200 case the path also lies inside the root. |
| Response.StatusMessage | HttpServer.py:130-138 | `Not Found` for 404, `Internal Server Error` for 500, `Error` for any other code. |
| Response.ErrorPage | HttpServer.py:130-138 | `404.html` for 404, `500.html` for 500, and no page for any other code. |
| Response.FallbackBody | HttpServer.py:147-149 | The generated body `<html><body><h1>{code} {message}</h1></body></html>`. |
| Response.ErrorContent | HttpServer.py:140-149 | The error body: the page's bytes if the page is a file, the generated body if there is no page or it is not a file, and `None` where reading the page raises. |
| Response.ErrorHead | HttpServer.py:152-155 | The error head: `HTTP/1.1 {code} {message}`, `Content-Type: text/html`, `Content-Length` as the body length in decimal, each ended by CRLF, then CRLF. |
| Response.ErrorResponse | HttpServer.py:129-158 | What `send_error_response` sends: the encoded head followed by the body, or `None` where it raises. |
| Response.FallbackBodyAscii | HttpServer.py:147-149 | The generated HTML body is ASCII, so its UTF-8 bytes are its ISO-8859-1 bytes. |
| Reader.ErrorContentChoice | HttpServer.py:130-149 | There is no body exactly when the code's page is a file that cannot be read. The body is the generated HTML when the code has no page or the page is not a file, and otherwise the page's bytes. |
| Reader.ErrorResponseSent | HttpServer.py:141-158 | An error reply is sent exactly when its body could be read: its head can always be encoded. |
| Reader.ErrorHeadLines | HttpServer.py:152-155 | The head built by the four `+=` steps is its three lines and a blank line, and is always ISO-8859-1. |
| Reader.ErrorReadBack | HttpServer.py:129-158 | An error reply reads back as `HTTP/1.1 {code} {message}`, with `Content-Type: text/html`, a `Content-Length` equal to the body's length, and the body. |
| Reader.StatusCodeReadBack | HttpServer.py:152 | The status line's first token is `HTTP/1.1`, and its second reads back as the code. |
| Reader.ReadMessageOf | HttpServer.py:113 | A head of plain lines whose field lines all parse, followed by any body, reads back as those lines and that body. |
| Server.Handler | HttpServer.py:118-124 | An `except` handler: the error reply for its code, or nothing sent and an escaping exception when `send_error_response` raises. |
| Server.Handle | HttpServer.py:34-126 | The whole of `handle_client`: a completed `try` block's reply, the 404 handler after `FileNotFoundError`, and the 500 handler after any other exception. |
| Server.OutsideRootGets404 | HttpServer.py:93-94 | A path outside the root gets the 404 handler's reply. |
| Server.NotAFileGets404 | HttpServer.py:114-124 | A contained path that is not a file gets the 404 reply. If sending it raises, the `except Exception` handler sends the 500 reply instead. |
| Server.HandlerEscapes | HttpServer.py:118-124 | An `except` handler lets an exception escape exactly when the code's page is a file that cannot be read. |
| Server.HandlerReadBack | HttpServer.py:118-124 | Otherwise the client reads the handler's status with an HTML body whose declared length is its length. |
| Server.EscapesOnlyOnUnreadablePage | HttpServer.py:116-126 | An exception escapes `handle_client` only when `404.html` or `500.html` in the root is a file that cannot be read. |
| Server.SendErrorResponse | HttpServer.py:129-158 | The method appends exactly the error reply to what was sent. It raises, sending nothing, exactly when the reply cannot be built. It does not close the connection. |
| Server.Connection.SendAll | HttpServer.py:113 | `sendall` appends its bytes to what was sent. |
| Server.Connection.Close | HttpServer.py:126 | `close` marks the connection closed and sends nothing. |
| Server.HandleClient | HttpServer.py:34-126 | The connection is closed on every path. What is sent is exactly the reply `Handle` gives for the framed request, and an exception escapes exactly when `Handle` says so. |

## Left out

- `main` (lines 12-31) is not part of this model. This covers argument handling, the listening socket, the accept loop and the `abspath` of the root. The root is given by its segments, as a normalised absolute path.
- Sockets are replaced:
  - `recv` becomes a sequence of chunks. Running out of chunks is read as the peer closing.
  - `sendall` and `close` become a `Connection` with a byte sequence and a flag. A failing `sendall` is not modelled.
- The `print` diagnostics (lines 46-47, 68-70, 89-90, 122) are left out.
- `mimetypes.guess_type` is a function in `Env`, because its table is not visible.
- The UTF-8 decoding with replacement inside `urllib.parse.unquote` is also a function in `Env`. Percent-decoding itself is modelled at the byte level.
- Filesystem semantics beyond a map are left out: symbolic links, permissions, and changes between `isfile` and `open`.
  - A path is looked up by its lexical `normpath`, so `..` is resolved without following links.
  - `isfile` is false for a path containing NUL, or whose last `/`-separated segment is empty, `.` or `..`. An `Unreadable` entry stands for a file whose `open`/`read` raises.
- A root with exactly two leading slashes is not modelled. `abspath("//srv")` keeps both slashes, and the root is written with one. With such a root, `commonpath` returns `/srv`, which differs from the root, so the source answers every `GET` with 404.
- Windows path semantics are left out: `\` is an ordinary character, as in `posixpath`.
- The header dictionary built at lines 51-60 is never used by the server. The model builds it (`Request.ParseHeaders`) and proves its properties, and `Server.HandleClient` discards it as the source does.
