/** One connection handled end to end (HttpServer.py, `handle_client`,
    lines 34-126): read the request, parse it, decide what it asks for,
    build the reply, and map the exceptions raised on the way to 404 or 500
    replies, closing the connection on every path. */
module Server {
  import opened Wrappers
  import opened Latin1
  import opened Text
  import opened Request
  import opened Paths
  import opened Response
  import opened Reader

  /** What the server sees besides the request: the root directory (a
      normalised absolute path, given by its segments), the regular files,
      the type table of `mimetypes.guess_type` and the UTF-8 decoder with
      replacement that `unquote` applies to percent-decoded bytes. */
  datatype Env = Env(
    rootSegs: seq<string>,
    files: Files,
    guessType: string -> Option<string>,
    utf8: seq<byte> -> string)
  {
    function Root(): string {
      RootText(rootSegs)
    }
  }

  /** What the request asks for, as decided inside the `try` block before
      any reply is built. */
  datatype Decision =
    | Serve(path: string)
      // a regular file inside the root
    | NotFound(outsideRoot: bool)
      // outside the root (`FileNotFoundError` at line 94), or not a file
    | InternalError
      // the request line is not three tokens (`ValueError` at line 65)
    | MethodNotAllowed
      // any method other than `GET`

  /** The decision for a received request (lines 45-96). */
  function Route(buf: seq<byte>, env: Env): Decision
    requires ValidRoot(env.rootSegs)
  {
    match ParseRequestLine(Lines(buf)[0])
    case None => InternalError
    case Some(rl) =>
      if rl.httpMethod != "GET" then MethodNotAllowed
      else
        var root := env.Root();
        var full := FullPath(root, rl.target, env.utf8);
        FullPathExtendsRoot(root, rl.target, env.utf8);
        if !Contained(full, root) then NotFound(true)
        else if Lookup(env.files, full).Some? then Serve(full)
        else NotFound(false)
  }

  /** How the `try` block ends: with a reply sent, or with an exception
      that is a `FileNotFoundError` or some other one. */
  datatype TryResult = Completed(reply: seq<byte>) | RaisedNotFound | RaisedOther

  /** The `try` block after the decision (lines 72-116): the 405 reply; the
      200 reply, which raises when the file cannot be read or its head
      cannot be encoded; the 404 reply for a path that is not a file, which
      raises when the error page cannot be read. */
  function Attempt(d: Decision, env: Env): TryResult {
    match d
    case MethodNotAllowed => Completed(MethodNotAllowedResponse())
    case InternalError => RaisedOther
    case NotFound(outside) =>
      if outside then RaisedNotFound
      else
        (match ErrorResponse(404, env.Root(), env.files)
         case Some(b) => Completed(b)
         case None => RaisedOther)
    case Serve(path) =>
      match Lookup(env.files, path)
      case Some(RegularFile(content)) =>
        (match OkResponse(env.guessType(path), content)
         case Some(b) => Completed(b)
         case None => RaisedOther)
      case _ => RaisedOther
  }

  /** What the client receives, and whether an exception escapes
      `handle_client` (after `finally` has closed the connection). */
  datatype Reply = Reply(sent: seq<byte>, escaped: bool)

  /** An `except` handler (lines 118-124): the error reply for `code`; if
      `send_error_response` raises there, nothing is sent and the exception
      escapes. */
  function Handler(code: nat, env: Env): Reply {
    match ErrorResponse(code, env.Root(), env.files)
    case Some(b) => Reply(b, false)
    case None => Reply([], true)
  }

  /** The whole of `handle_client` for a received request. */
  function Handle(buf: seq<byte>, env: Env): Reply
    requires ValidRoot(env.rootSegs)
  {
    match Attempt(Route(buf, env), env)
    case Completed(b) => Reply(b, false)
    case RaisedNotFound => Handler(404, env)
    case RaisedOther => Handler(500, env)
  }

  // ----- What the decisions guarantee -----

  /** For a `GET`, the containment check alone decides between 404 and the
      file lookup: a path is served exactly when the root's segments start
      its normalised segments and it names a file. */
  lemma RouteOfGet(buf: seq<byte>, env: Env)
    requires ValidRoot(env.rootSegs)
    requires ParseRequestLine(Lines(buf)[0]).Some? && ParseRequestLine(Lines(buf)[0]).value.httpMethod == "GET"
    ensures var full := FullPath(env.Root(), ParseRequestLine(Lines(buf)[0]).value.target, env.utf8);
      IsAbsolute(full) &&
      (Route(buf, env) == NotFound(true) <==> !IsPrefix(env.rootSegs, Segments(NormPath(full)))) &&
      (Route(buf, env) == Serve(full) <==>
         IsPrefix(env.rootSegs, Segments(NormPath(full))) && Lookup(env.files, full).Some?) &&
      (Route(buf, env) == NotFound(false) <==>
         IsPrefix(env.rootSegs, Segments(NormPath(full))) && Lookup(env.files, full).None?)
  {
    var full := FullPath(env.Root(), ParseRequestLine(Lines(buf)[0]).value.target, env.utf8);
    FullPathExtendsRoot(env.Root(), ParseRequestLine(Lines(buf)[0]).value.target, env.utf8);
    ContainedIff(full, env.rootSegs);
  }

  /** Nothing outside the root is ever served: a served path is absolute,
      its normalised segments start with the root's, and it names a file. */
  lemma ServedInsideRoot(buf: seq<byte>, env: Env)
    requires ValidRoot(env.rootSegs) && Route(buf, env).Serve?
    ensures var path := Route(buf, env).path;
      IsAbsolute(path) && IsPrefix(env.rootSegs, Segments(NormPath(path))) && Lookup(env.files, path).Some?
  {
    RouteOfGet(buf, env);
  }

  /** A path outside the root raises `FileNotFoundError` (line 94), so the
      client gets the 404 handler's reply. */
  lemma OutsideRootGets404(buf: seq<byte>, env: Env)
    requires ValidRoot(env.rootSegs) && Route(buf, env) == NotFound(true)
    ensures Handle(buf, env) == Handler(404, env)
  {
  }

  /** A contained path that is not a file gets the 404 reply from inside the
      `try` block (line 116); if that reply raises, the `except Exception`
      handler sends the 500 reply instead. */
  lemma NotAFileGets404(buf: seq<byte>, env: Env)
    requires ValidRoot(env.rootSegs) && Route(buf, env) == NotFound(false)
    ensures ErrorResponse(404, env.Root(), env.files).Some? ==>
      Handle(buf, env) == Reply(ErrorResponse(404, env.Root(), env.files).value, false)
    ensures ErrorResponse(404, env.Root(), env.files).None? ==> Handle(buf, env) == Handler(500, env)
  {
  }

  /** Any method other than `GET` gets exactly the 405 bytes, whatever the
      files are, and the client reads a bare 405 with no fields and no body. */
  lemma OtherMethodGets405(buf: seq<byte>, env: Env)
    requires ValidRoot(env.rootSegs)
    requires ParseRequestLine(Lines(buf)[0]).Some? && ParseRequestLine(Lines(buf)[0]).value.httpMethod != "GET"
    ensures Handle(buf, env) == Reply(MethodNotAllowedResponse(), false)
    ensures ReadMessage(Handle(buf, env).sent) == Some(Message("HTTP/1.1 405 Method Not Allowed", [], []))
  {
    var r := Handle(buf, env);
    assert r == Reply(MethodNotAllowedResponse(), false);
    MethodNotAllowedReadBack();
  }

  /** A request line that is not three tokens gets the 500 reply. */
  lemma MalformedGets500(buf: seq<byte>, env: Env)
    requires ValidRoot(env.rootSegs) && |Tokens(Lines(buf)[0])| != 3
    ensures Handle(buf, env) == Handler(500, env)
  {
  }

  /** So does an empty request (the peer closed without sending). */
  lemma EmptyRequestGets500(env: Env)
    requires ValidRoot(env.rootSegs)
    ensures Handle([], env) == Handler(500, env)
  {
    assert Decode([]) == "";
    assert Split("", Request.CRLF) == [""];
    EmptyRequestLineRefused();
  }

  /** A served regular file is sent as a 200 whose declared length is the
      content's length and whose body is the content unchanged, provided the
      content type can go in a header field. */
  lemma ServedReply(buf: seq<byte>, env: Env, content: seq<byte>)
    requires ValidRoot(env.rootSegs) && Route(buf, env).Serve?
    requires Lookup(env.files, Route(buf, env).path) == Some(RegularFile(content))
    requires FieldValueText(env.guessType(Route(buf, env).path).GetOr(DefaultContentType))
    ensures var ct := env.guessType(Route(buf, env).path).GetOr(DefaultContentType);
      !Handle(buf, env).escaped &&
      ReadMessage(Handle(buf, env).sent)
        == Some(Message("HTTP/1.1 200 OK", [("Content-Type", ct), ("Content-Length", Decimal(|content|))], content))
  {
    OkReadBack(env.guessType(Route(buf, env).path), content);
  }

  /** An error reply escapes exactly when its page is a file that cannot be
      read. */
  lemma HandlerEscapes(code: nat, env: Env)
    ensures Handler(code, env).escaped <==>
      ErrorPage(code).Some? && Lookup(env.files, JoinPath(env.Root(), ErrorPage(code).value)) == Some(Unreadable)
  {
    ErrorContentChoice(code, env.Root(), env.files);
    ErrorResponseSent(code, env.Root(), env.files);
  }

  /** Otherwise the client reads that status with an HTML body of the
      declared length. */
  lemma HandlerReadBack(code: nat, env: Env)
    requires !Handler(code, env).escaped
    ensures var m := ReadMessage(Handler(code, env).sent);
      m.Some? && m.value.statusLine == StatusLine(code) &&
      m.value.fields == [("Content-Type", "text/html"), ("Content-Length", Decimal(|m.value.body|))] &&
      DeclaredLength(m.value) == Some(|m.value.body|)
  {
    ErrorContentChoice(code, env.Root(), env.files);
    if ErrorContent(code, env.Root(), env.files).Some? {
      ErrorReadBack(code, env.Root(), env.files);
    }
  }

  /** An escaping reply comes from one of the two `except` handlers. */
  lemma EscapedFromHandler(buf: seq<byte>, env: Env)
    requires ValidRoot(env.rootSegs) && Handle(buf, env).escaped
    ensures Handler(404, env).escaped || Handler(500, env).escaped
  {
  }

  /** An exception escapes `handle_client` only when the 404 or 500 page
      is a file that cannot be read. */
  lemma EscapesOnlyOnUnreadablePage(buf: seq<byte>, env: Env)
    requires ValidRoot(env.rootSegs) && Handle(buf, env).escaped
    ensures Lookup(env.files, JoinPath(env.Root(), "404.html")) == Some(Unreadable)
         || Lookup(env.files, JoinPath(env.Root(), "500.html")) == Some(Unreadable)
  {
    EscapedFromHandler(buf, env);
    HandlerEscapes(404, env);
    HandlerEscapes(500, env);
  }

  /** The replies the `try` block completes with, for any decision. */
  lemma AttemptCompleted(d: Decision, env: Env)
    requires Attempt(d, env).Completed?
    ensures var b := Attempt(d, env).reply;
      (d == MethodNotAllowed && b == MethodNotAllowedResponse()) ||
      (d == NotFound(false) && Some(b) == ErrorResponse(404, env.Root(), env.files)) ||
      (d.Serve? && Lookup(env.files, d.path).Some? && Lookup(env.files, d.path).value.RegularFile? &&
       Some(b) == OkResponse(env.guessType(d.path), Lookup(env.files, d.path).value.content))
  {
  }

  /** Every reply sent from inside the `try` block is one of three: the 405
      bytes for another method, the 404 reply for a contained path that is
      not a file, or the 200 reply for a file inside the root. */
  lemma CompletedReplies(buf: seq<byte>, env: Env)
    requires ValidRoot(env.rootSegs) && Attempt(Route(buf, env), env).Completed?
    ensures var b := Attempt(Route(buf, env), env).reply;
      (Route(buf, env) == MethodNotAllowed && b == MethodNotAllowedResponse()) ||
      (Route(buf, env) == NotFound(false) && Some(b) == ErrorResponse(404, env.Root(), env.files)) ||
      (Route(buf, env).Serve? &&
       IsPrefix(env.rootSegs, Segments(NormPath(Route(buf, env).path))) &&
       Lookup(env.files, Route(buf, env).path).Some? &&
       Lookup(env.files, Route(buf, env).path).value.RegularFile? &&
       Some(b) == OkResponse(env.guessType(Route(buf, env).path),
                             Lookup(env.files, Route(buf, env).path).value.content))
  {
    var d := Route(buf, env);
    AttemptCompleted(d, env);
    if d.Serve? {
      ServedInsideRoot(buf, env);
    }
  }

  // ----- The connection -----

  /** The client socket as the server uses it: bytes sent so far and
      whether it is closed. */
  class Connection {
    var sent: seq<byte>
    var closed: bool

    constructor()
      ensures sent == [] && !closed
    {
      sent := [];
      closed := false;
    }

    /** `sendall`. */
    method SendAll(b: seq<byte>)
      modifies this
      ensures sent == old(sent) + b && closed == old(closed)
    {
      sent := sent + b;
    }

    /** `close`. */
    method Close()
      modifies this
      ensures closed && sent == old(sent)
    {
      closed := true;
    }
  }

  /** `send_error_response` (lines 129-158): the head is built field by
      field; `raised` when the error page is a file that cannot be read, in
      which case nothing is sent. */
  method SendErrorResponse(conn: Connection, code: nat, env: Env) returns (raised: bool)
    modifies conn
    ensures raised <==> ErrorResponse(code, env.Root(), env.files).None?
    ensures conn.sent == old(conn.sent) + (if raised then [] else ErrorResponse(code, env.Root(), env.files).value)
    ensures conn.closed == old(conn.closed)
  {
    var content: seq<byte>;
    match ErrorContent(code, env.Root(), env.files) {
      case None =>
        return true;
      case Some(c) =>
        content := c;
    }
    var header := "HTTP/1.1 " + Decimal(code) + " " + StatusMessage(code) + "\r\n";
    header := header + "Content-Type: text/html\r\n";
    header := header + "Content-Length: " + Decimal(|content|) + "\r\n";
    header := header + "\r\n";
    assert header == ErrorHead(code, |content|);
    ErrorHeadLines(code, |content|);
    conn.SendAll(Encode(header) + content);
    raised := false;
  }

  /** `handle_client`: read, parse, decide, reply, and close. The header
      dictionary is built and, as in the source, never used. */
  method HandleClient(conn: Connection, chunks: seq<seq<byte>>, env: Env) returns (escaped: bool)
    requires ValidRoot(env.rootSegs)
    modifies conn
    ensures conn.closed
    ensures conn.sent == old(conn.sent) + Handle(Framed(chunks), env).sent
    ensures escaped == Handle(Framed(chunks), env).escaped
  {
    var buf, n := ReadRequest(chunks);
    ReadRequestIsFramed(chunks, n);
    var lines := Lines(buf);
    var headers := ParseHeaders(lines);
    match Attempt(Route(buf, env), env) {
      case Completed(b) =>
        conn.SendAll(b);
        escaped := false;
      case RaisedNotFound =>
        escaped := SendErrorResponse(conn, 404, env);
      case RaisedOther =>
        escaped := SendErrorResponse(conn, 500, env);
    }
    conn.Close();
  }
}
