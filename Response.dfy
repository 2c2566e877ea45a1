/** The bytes the server writes back (HttpServer.py lines 72-76, 98-113,
    129-158): the fixed 405 reply, the 200 reply with `Content-Type` and
    `Content-Length`, and the 404/500 replies with an error page from the
    root or a generated HTML body. Each reply is an HTTP/1.1 message as in
    section 2.1 of RFC 9112: a status line, field lines, a blank line, the
    body. */
module Response {
  import opened Wrappers
  import opened Latin1
  import opened Text
  import opened Paths
  import Request

  // ----- The files the server can see -----

  /** What `os.path.isfile` and `open(path, 'rb').read()` find at a path:
      a regular file's bytes, or a regular file whose reading fails. */
  datatype Entry = RegularFile(content: seq<byte>) | Unreadable

  /** Regular files by normalised absolute path. */
  type Files = map<string, Entry>

  /** The last `/`-separated segment of `path` names a directory (`x/`,
      `x/.`, `x/..`), so `isfile` is false whatever the file map holds. */
  predicate EndsAsDirectory(path: string) {
    var segs := Split(path, "/");
    var last := segs[|segs| - 1];
    last == "" || last == "." || last == ".."
  }

  /** `os.path.isfile(path)`, and when true, the entry there; a path with a
      NUL character is never a file. */
  function Lookup(fs: Files, path: string): Option<Entry> {
    if '\0' in path || EndsAsDirectory(path) then None
    else if NormPath(path) in fs then Some(fs[NormPath(path)])
    else None
  }

  // ----- Writing messages -----

  const CRLF: string := Request.CRLF

  /** A head made of the given lines, each ended by CRLF, then a blank line. */
  function HeadText(lines: seq<string>): string {
    JoinWith(lines, CRLF) + CRLF + CRLF
  }

  /** The whole 405 reply; it has no fields and no body. */
  const MethodNotAllowedText: string := "HTTP/1.1 405 Method Not Allowed\r\n\r\n"

  function MethodNotAllowedResponse(): (r: seq<byte>)
    ensures |r| == |MethodNotAllowedText|
  {
    assert IsAscii(MethodNotAllowedText);
    AsciiIsLatin1(MethodNotAllowedText);
    Encode(MethodNotAllowedText)
  }

  const DefaultContentType: string := "application/octet-stream"

  /** The head of a 200 reply, built field by field as at lines 107-110. */
  function OkHead(contentType: string, length: nat): string {
    "HTTP/1.1 200 OK\r\n" + "Content-Type: " + contentType + "\r\n"
      + "Content-Length: " + Decimal(length) + "\r\n" + "\r\n"
  }

  /** The 200 reply for a file's content and the guessed type
      (`application/octet-stream` when none); `None` when the head cannot be
      encoded as ISO-8859-1, where the server raises. */
  function OkResponse(guessed: Option<string>, content: seq<byte>): Option<seq<byte>> {
    var head := OkHead(guessed.GetOr(DefaultContentType), |content|);
    if IsLatin1(head) then Some(Encode(head) + content) else None
  }

  /** The reason phrase and error page for a status code. */
  function StatusMessage(code: nat): string {
    if code == 404 then "Not Found"
    else if code == 500 then "Internal Server Error"
    else "Error"
  }

  function ErrorPage(code: nat): Option<string> {
    if code == 404 then Some("404.html")
    else if code == 500 then Some("500.html")
    else None
  }

  /** The HTML body used when there is no error page. */
  function FallbackBody(code: nat): string {
    "<html><body><h1>" + Decimal(code) + " " + StatusMessage(code) + "</h1></body></html>"
  }

  lemma DigitsAscii(s: string)
    requires IsDigits(s)
    ensures IsAscii(s)
  {
  }

  lemma AsciiAppend(a: string, b: string)
    requires IsAscii(a) && IsAscii(b)
    ensures IsAscii(a + b)
  {
  }

  lemma FallbackBodyAscii(code: nat)
    ensures IsAscii(FallbackBody(code))
  {
    DigitsAscii(Decimal(code));
    OpeningAscii();
    ClosingAscii();
    SpaceAscii();
    StatusMessageAscii(code);
    var p := "<html><body><h1>" + Decimal(code);
    AsciiAppend("<html><body><h1>", Decimal(code));
    AsciiAppend(p, " ");
    AsciiAppend(p + " ", StatusMessage(code));
    AsciiAppend(p + " " + StatusMessage(code), "</h1></body></html>");
  }

  lemma StatusMessageAscii(code: nat)
    ensures IsAscii(StatusMessage(code))
  {
    if code == 404 {
      assert IsAscii("Not Found");
    } else if code == 500 {
      InternalServerErrorAscii();
    } else {
      assert IsAscii("Error");
    }
  }

  /** The fallback body's UTF-8 bytes, which for this ASCII text are its
      ISO-8859-1 bytes. */
  function FallbackBytes(code: nat): (b: seq<byte>)
    ensures |b| == |FallbackBody(code)|
  {
    FallbackBodyAscii(code);
    AsciiIsLatin1(FallbackBody(code));
    Encode(FallbackBody(code))
  }

  /** The body of an error reply: the page file in the root if it is a
      file, else the fallback body; `None` when the page is a file that
      cannot be read, where the server raises. */
  function ErrorContent(code: nat, root: string, fs: Files): Option<seq<byte>> {
    match ErrorPage(code)
    case None => Some(FallbackBytes(code))
    case Some(page) =>
      match Lookup(fs, JoinPath(root, page))
      case None => Some(FallbackBytes(code))
      case Some(RegularFile(c)) => Some(c)
      case Some(Unreadable) => None
  }

  /** The head of an error reply, built field by field as at lines 152-155. */
  function ErrorHead(code: nat, length: nat): string {
    "HTTP/1.1 " + Decimal(code) + " " + StatusMessage(code) + "\r\n"
      + "Content-Type: text/html\r\n" + "Content-Length: " + Decimal(length) + "\r\n" + "\r\n"
  }

  /** `send_error_response(code)`: the bytes sent, or `None` when it raises
      (the page cannot be read, or the head cannot be encoded as ISO-8859-1,
      which never happens). */
  function ErrorResponse(code: nat, root: string, fs: Files): Option<seq<byte>> {
    match ErrorContent(code, root, fs)
    case None => None
    case Some(c) =>
      var head := ErrorHead(code, |c|);
      if IsLatin1(head) then Some(Encode(head) + c) else None
  }

  // ----- Facts about fixed texts -----
  // These only spare the solver from unfolding long literals; each states
  // one property of one fixed piece of text.

  lemma OpeningAscii()
    ensures IsAscii("<html><body><h1>")
  {
  }

  lemma ClosingAscii()
    ensures IsAscii("</h1></body></html>")
  {
  }

  lemma SpaceAscii()
    ensures IsAscii(" ")
  {
  }

  lemma InternalServerErrorAscii()
    ensures IsAscii("Internal Server Error")
  {
  }
}
