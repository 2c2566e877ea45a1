/** A client's reading of the replies the server writes: a reader of
    HTTP/1.1 messages (section 2.1 of RFC 9112: a status line, field lines,
    a blank line, the body), and the proof that each reply reads back as
    what was meant. */
module Reader {
  import opened Wrappers
  import opened Latin1
  import opened Text
  import opened Paths
  import opened Response
  import Request

  // ----- Reading messages -----

  /** A message as a client reads it. */
  datatype Message = Message(statusLine: string, fields: seq<(string, string)>, body: seq<byte>)

  /** All the values, if none is missing. */
  function AllPresent<T>(ps: seq<Option<T>>): (r: Option<seq<T>>)
    ensures r.Some? ==> |r.value| == |ps|
  {
    if ps == [] then Some([])
    else
      var rest := AllPresent(ps[1..]);
      if ps[0].Some? && rest.Some? then Some([ps[0].value] + rest.value) else None
  }

  /** Every field line parsed; `None` if one has no `:`. */
  function FieldList(lines: seq<string>): Option<seq<(string, string)>> {
    AllPresent(Request.ParsedFields(lines))
  }

  /** How a client reads a reply: the head runs to the first CRLF CRLF, its
      first line is the status line and the others are field lines; all
      that follows is the body. */
  function ReadMessage(b: seq<byte>): Option<Message> {
    match FindFirst(b, Request.Terminator)
    case None => None
    case Some(i) =>
      var lines := Split(Decode(b[..i]), CRLF);
      match FieldList(lines[1..])
      case None => None
      case Some(fs) => Some(Message(lines[0], fs, b[i + 4..]))
  }

  /** The value of the first field with the given name. */
  function FieldValue(fields: seq<(string, string)>, name: string): Option<string> {
    if fields == [] then None
    else if fields[0].0 == name then Some(fields[0].1)
    else FieldValue(fields[1..], name)
  }

  /** The body length a message declares in `Content-Length`. */
  function DeclaredLength(m: Message): Option<nat> {
    match FieldValue(m.fields, "Content-Length")
    case None => None
    case Some(v) => ParseDecimal(v)
  }

  // ----- Reading back what was written -----

  /** A head line: non-empty, no carriage return, ISO-8859-1. */
  predicate PlainLine(l: string) {
    l != [] && '\r' !in l && IsLatin1(l)
  }

  /** Every carriage return is followed by one more character and then by
      a character that is not a carriage return. */
  ghost predicate LoneCarriageReturns(j: string) {
    forall p :: 0 <= p < |j| && j[p] == '\r' ==> p + 2 < |j| && j[p + 2] != '\r'
  }

  /** Joined plain lines have only lone carriage returns. */
  lemma {:induction false} JoinedCarriageReturns(lines: seq<string>)
    requires |lines| >= 1 && forall k :: 0 <= k < |lines| ==> PlainLine(lines[k])
    ensures LoneCarriageReturns(JoinWith(lines, CRLF))
    ensures IsLatin1(JoinWith(lines, CRLF))
    decreases |lines|
  {
    if |lines| > 1 {
      var a := lines[0];
      var t := JoinWith(lines[1..], CRLF);
      JoinWithCons(lines, CRLF);
      JoinedCarriageReturns(lines[1..]);
      JoinHeadChar(lines[1..]);
      var j := a + (CRLF + t);
      forall p | 0 <= p < |j| && j[p] == '\r' ensures p + 2 < |j| && j[p + 2] != '\r' {
        if p >= |a| + 2 {
          assert j[p] == t[p - |a| - 2];
          assert j[p + 2] == t[p + 2 - |a| - 2];
        }
      }
    }
  }

  lemma JoinHeadChar(lines: seq<string>)
    requires |lines| >= 1 && lines[0] != []
    ensures |JoinWith(lines, CRLF)| >= 1 && JoinWith(lines, CRLF)[0] == lines[0][0]
  {
    if |lines| > 1 {
      JoinWithCons(lines, CRLF);
    }
  }

  lemma HeadLatin1(j: string)
    requires IsLatin1(j)
    ensures IsLatin1(j + CRLF + CRLF)
  {
  }

  /** After text whose carriage returns are all lone, the first CRLF CRLF
      is the one that follows it. */
  lemma TerminatorAfter(j: string, body: seq<byte>)
    requires LoneCarriageReturns(j) && IsLatin1(j)
    ensures IsLatin1(j + CRLF + CRLF)
    ensures FindFirst(Encode(j + CRLF + CRLF) + body, Request.Terminator) == Some(|j|)
  {
    HeadLatin1(j);
    var h := j + CRLF + CRLF;
    var b := Encode(h) + body;
    var n := |j|;
    var t := Request.Terminator;
    assert OccursAt(b, t, n) by {
      assert b[n..n + 4] == t;
    }
    forall p | 0 <= p < n ensures !OccursAt(b, t, p) {
      if j[p] == '\r' {
        assert h[p + 2] == j[p + 2];
        assert b[p..p + 4][2] == b[p + 2];
      } else {
        assert h[p] == j[p];
        assert b[p..p + 4][0] == b[p];
      }
    }
  }

  /** A head of plain lines followed by any body reads back as those lines
      and that body: the first CRLF CRLF is the one that ends the head. */
  lemma HeadReadBack(lines: seq<string>, body: seq<byte>)
    requires |lines| >= 1 && forall k :: 0 <= k < |lines| ==> PlainLine(lines[k])
    ensures IsLatin1(HeadText(lines))
    ensures var b := Encode(HeadText(lines)) + body;
      var n := |JoinWith(lines, CRLF)|;
      && FindFirst(b, Request.Terminator) == Some(n)
      && Split(Decode(b[..n]), CRLF) == lines
      && b[n + 4..] == body
  {
    var j := JoinWith(lines, CRLF);
    JoinedCarriageReturns(lines);
    TerminatorAfter(j, body);
    assert HeadText(lines) == j + CRLF + CRLF;
    EncodePrefix(j, body);
    EncodeDecode(j);
    JoinThenSplitSep(lines, CRLF);
  }

  /** The encoded head's first part and what follows the head. */
  lemma EncodePrefix(j: string, body: seq<byte>)
    requires IsLatin1(j + CRLF + CRLF)
    ensures IsLatin1(j)
    ensures (Encode(j + CRLF + CRLF) + body)[..|j|] == Encode(j)
    ensures (Encode(j + CRLF + CRLF) + body)[|j| + 4..] == body
  {
    assert forall i :: 0 <= i < |j| ==> (j + CRLF + CRLF)[i] == j[i];
  }

  /** A written head of plain lines, whose field lines all parse, reads
      back as its status line, its fields and the body. */
  lemma ReadMessageOf(lines: seq<string>, fields: seq<(string, string)>, body: seq<byte>)
    requires |lines| >= 1 && forall k :: 0 <= k < |lines| ==> PlainLine(lines[k])
    requires FieldList(lines[1..]) == Some(fields)
    ensures IsLatin1(HeadText(lines))
    ensures ReadMessage(Encode(HeadText(lines)) + body) == Some(Message(lines[0], fields, body))
  {
    HeadReadBack(lines, body);
  }

  /** The 405 reply reads back as its status line alone, with no fields
      and no body. */
  lemma MethodNotAllowedReadBack()
    ensures ReadMessage(MethodNotAllowedResponse()) == Some(Message("HTTP/1.1 405 Method Not Allowed", [], []))
  {
    MethodNotAllowedLine();
    MethodNotAllowedPlain();
    BareHeadReadBack("HTTP/1.1 405 Method Not Allowed");
  }

  /** A head of one line and no body reads back as that line alone. */
  lemma BareHeadReadBack(line: string)
    requires PlainLine(line)
    ensures IsLatin1(HeadText([line]))
    ensures ReadMessage(Encode(HeadText([line]))) == Some(Message(line, [], []))
  {
    assert [line][1..] == [];
    FieldListEmpty();
    ReadMessageOf([line], [], []);
    assert Encode(HeadText([line])) + [] == Encode(HeadText([line]));
  }

  // ----- The replies, line by line -----

  /** Plain text pieces make plain text. */
  lemma PlainAppend(a: string, b: string)
    requires '\r' !in a && '\r' !in b && IsLatin1(a) && IsLatin1(b)
    ensures '\r' !in a + b && IsLatin1(a + b)
  {
    EncodeAppend(a, b);
  }

  lemma DigitsPlain(s: string)
    requires IsDigits(s)
    ensures '\r' !in s && IsLatin1(s)
  {
  }

  /** A field value as a well-behaved type table gives it: no carriage
      return, ISO-8859-1, no surrounding whitespace. */
  predicate FieldValueText(v: string) {
    '\r' !in v && IsLatin1(v) && Trimmed(v)
  }

  function OkLines(contentType: string, length: nat): seq<string> {
    ["HTTP/1.1 200 OK", "Content-Type" + ": " + contentType, "Content-Length" + ": " + Decimal(length)]
  }

  function StatusLine(code: nat): string {
    "HTTP/1.1 " + Decimal(code) + " " + StatusMessage(code)
  }

  function ErrorLines(code: nat, length: nat): seq<string> {
    [StatusLine(code), "Content-Type" + ": " + "text/html", "Content-Length" + ": " + Decimal(length)]
  }

  lemma JoinThree(a: string, b: string, c: string)
    ensures HeadText([a, b, c]) == a + CRLF + b + CRLF + c + CRLF + CRLF
  {
    JoinWithCons([a, b, c], CRLF);
    assert [a, b, c][1..] == [b, c];
    JoinWithCons([b, c], CRLF);
    assert [b, c][1..] == [c];
  }

  /** The 200 head is the head of its three lines. */
  lemma OkHeadLines(contentType: string, length: nat)
    ensures OkHead(contentType, length) == HeadText(OkLines(contentType, length))
  {
    JoinThree("HTTP/1.1 200 OK", "Content-Type" + ": " + contentType, "Content-Length" + ": " + Decimal(length));
  }

  lemma LinesPlainHead(lines: seq<string>)
    requires |lines| >= 1 && forall k :: 0 <= k < |lines| ==> PlainLine(lines[k])
    ensures IsLatin1(HeadText(lines))
  {
    JoinedCarriageReturns(lines);
    HeadLatin1(JoinWith(lines, CRLF));
  }

  lemma StatusLinePlain(code: nat)
    ensures PlainLine(StatusLine(code))
  {
    VersionPlain();
    DigitsPlain(Decimal(code));
    SpacePlain();
    StatusMessagePlain(code);
    PlainAppend("HTTP/1.1 ", Decimal(code));
    PlainAppend("HTTP/1.1 " + Decimal(code), " ");
    PlainAppend("HTTP/1.1 " + Decimal(code) + " ", StatusMessage(code));
  }

  lemma StatusMessagePlain(code: nat)
    ensures '\r' !in StatusMessage(code) && IsLatin1(StatusMessage(code))
  {
    if code == 404 {
      NotFoundPlain();
    } else if code == 500 {
      InternalErrorPlain();
    } else {
      ErrorWordPlain();
    }
  }

  lemma ErrorLinesPlain(code: nat, length: nat)
    ensures forall k :: 0 <= k < 3 ==> PlainLine(ErrorLines(code, length)[k])
  {
    StatusLinePlain(code);
    DigitsPlain(Decimal(length));
    ContentTypePlain();
    ContentLengthPlain();
    TextHtmlPlain();
    PlainAppend("Content-Type" + ": ", "text/html");
    PlainAppend("Content-Length" + ": ", Decimal(length));
  }

  /** The error head is the head of its three lines, all plain, so it can
      always be encoded. */
  lemma ErrorHeadLines(code: nat, length: nat)
    ensures ErrorHead(code, length) == HeadText(ErrorLines(code, length))
    ensures IsLatin1(ErrorHead(code, length))
  {
    ErrorHeadIsLines(code, length);
    ErrorLinesPlain(code, length);
    LinesPlainHead(ErrorLines(code, length));
  }

  lemma ErrorHeadIsLines(code: nat, length: nat)
    ensures ErrorHead(code, length) == HeadText(ErrorLines(code, length))
  {
    var a := StatusLine(code);
    var b := "Content-Type" + ": " + "text/html";
    var c := "Content-Length" + ": " + Decimal(length);
    HtmlTypeLine();
    LengthName();
    JoinThree(a, b, c);
    Reassociate(a, b, "Content-Length: ", Decimal(length), CRLF);
  }

  lemma Reassociate(a: string, b: string, c1: string, c2: string, n: string)
    ensures a + n + (b + n) + c1 + c2 + n + n == a + n + b + n + (c1 + c2) + n + n
  {
  }

  lemma OkLinesPlain(contentType: string, length: nat)
    requires '\r' !in contentType && IsLatin1(contentType)
    ensures forall k :: 0 <= k < 3 ==> PlainLine(OkLines(contentType, length)[k])
  {
    DigitsPlain(Decimal(length));
    ContentTypePlain();
    ContentLengthPlain();
    PlainAppend("Content-Type" + ": ", contentType);
    PlainAppend("Content-Length" + ": ", Decimal(length));
  }

  lemma AllPresentPair<T>(ps: seq<Option<T>>, a: T, b: T)
    requires |ps| == 2 && ps[0] == Some(a) && ps[1] == Some(b)
    ensures AllPresent(ps) == Some([a, b])
  {
    var t := ps[1..];
    assert t[1..] == [];
    assert AllPresent(t[1..]) == Some([]);
    assert t[0] == Some(b);
    assert [b] + [] == [b];
    assert AllPresent(t) == Some([b]);
    assert [a] + [b] == [a, b];
  }

  lemma FieldListTwo(l1: string, l2: string, f1: (string, string), f2: (string, string))
    requires Request.ParseField(l1) == Some(f1) && Request.ParseField(l2) == Some(f2)
    ensures FieldList([l1, l2]) == Some([f1, f2])
  {
    var p := Request.ParsedFields([l1, l2]);
    assert p[0] == Some(f1);
    assert p[1] == Some(f2);
    AllPresentPair(p, f1, f2);
  }

  lemma DecimalTrimmed(n: nat)
    ensures var d := Decimal(n); !IsSpace(d[0]) && !IsSpace(d[|d| - 1])
  {
  }

  /** Two written field lines read back as the two fields. */
  lemma FieldPairRead(n1: string, v1: string, n2: string, v2: string)
    requires ':' !in n1 && ':' !in n2
    requires Trimmed(n1) && Trimmed(v1) && Trimmed(n2) && Trimmed(v2)
    ensures FieldList([n1 + ": " + v1, n2 + ": " + v2]) == Some([(n1, v1), (n2, v2)])
  {
    Request.ParseFieldOfLine(n1, v1);
    Request.ParseFieldOfLine(n2, v2);
    FieldListTwo(n1 + ": " + v1, n2 + ": " + v2, (n1, v1), (n2, v2));
  }

  /** The two fields both replies carry, as read back. */
  lemma TwoFieldsRead(typeValue: string, length: nat)
    requires FieldValueText(typeValue)
    ensures FieldList(["Content-Type" + ": " + typeValue, "Content-Length" + ": " + Decimal(length)])
         == Some([("Content-Type", typeValue), ("Content-Length", Decimal(length))])
  {
    DecimalTrimmed(length);
    assert Trimmed("Content-Type") && Trimmed("Content-Length");
    FieldPairRead("Content-Type", typeValue, "Content-Length", Decimal(length));
  }

  /** The length declared by the two fields is the given one. */
  lemma TwoFieldsLength(typeValue: string, length: nat)
    ensures DeclaredLength(Message([], [("Content-Type", typeValue), ("Content-Length", Decimal(length))], [])) == Some(length)
  {
    var fs := [("Content-Type", typeValue), ("Content-Length", Decimal(length))];
    assert fs[1..] == [("Content-Length", Decimal(length))];
    assert FieldValue(fs, "Content-Length") == Some(Decimal(length));
    DecimalRoundTrip(length);
  }

  lemma FieldListEmpty()
    ensures FieldList([]) == Some([])
  {
    assert Request.ParsedFields([]) == [];
  }

  /** A 200 reply whose content type is a plain field value reads back as
      status 200, that content type, a `Content-Length` equal to the
      content's length, and the content unchanged. */
  lemma OkReadBack(guessed: Option<string>, content: seq<byte>)
    requires FieldValueText(guessed.GetOr(DefaultContentType))
    ensures OkResponse(guessed, content).Some?
    ensures var ct := guessed.GetOr(DefaultContentType);
      ReadMessage(OkResponse(guessed, content).value)
        == Some(Message("HTTP/1.1 200 OK", [("Content-Type", ct), ("Content-Length", Decimal(|content|))], content))
    ensures DeclaredLength(ReadMessage(OkResponse(guessed, content).value).value) == Some(|content|)
  {
    var ct := guessed.GetOr(DefaultContentType);
    var lines := OkLines(ct, |content|);
    OkHeadLines(ct, |content|);
    OkLinesPlain(ct, |content|);
    TwoFieldsRead(ct, |content|);
    assert lines[1..] == ["Content-Type" + ": " + ct, "Content-Length" + ": " + Decimal(|content|)];
    ReadMessageOf(lines, [("Content-Type", ct), ("Content-Length", Decimal(|content|))], content);
    TwoFieldsLength(ct, |content|);
  }

  /** An error reply, when it is sent, reads back as the status line for
      its code, `Content-Type: text/html`, a `Content-Length` equal to the
      body's length, and the body: the page file's bytes or the fallback. */
  lemma ErrorReadBack(code: nat, root: string, fs: Files)
    requires ErrorContent(code, root, fs).Some?
    ensures ErrorResponse(code, root, fs).Some?
    ensures var c := ErrorContent(code, root, fs).value;
      ReadMessage(ErrorResponse(code, root, fs).value)
        == Some(Message(StatusLine(code), [("Content-Type", "text/html"), ("Content-Length", Decimal(|c|))], c))
    ensures var c := ErrorContent(code, root, fs).value;
      DeclaredLength(ReadMessage(ErrorResponse(code, root, fs).value).value) == Some(|c|)
  {
    var c := ErrorContent(code, root, fs).value;
    var lines := ErrorLines(code, |c|);
    ErrorHeadLines(code, |c|);
    ErrorLinesPlain(code, |c|);
    HtmlFieldValue();
    TwoFieldsRead("text/html", |c|);
    assert lines[1..] == ["Content-Type" + ": " + "text/html", "Content-Length" + ": " + Decimal(|c|)];
    ReadMessageOf(lines, [("Content-Type", "text/html"), ("Content-Length", Decimal(|c|))], c);
    TwoFieldsLength("text/html", |c|);
  }

  lemma HtmlFieldValue()
    ensures FieldValueText("text/html")
  {
    TextHtmlPlain();
    assert "text/html"[0] == 't' && "text/html"[|"text/html"| - 1] == 'l';
  }

  /** An error reply is sent exactly when its body can be read. */
  lemma ErrorResponseSent(code: nat, root: string, fs: Files)
    ensures ErrorResponse(code, root, fs).Some? <==> ErrorContent(code, root, fs).Some?
  {
    if ErrorContent(code, root, fs).Some? {
      ErrorHeadLines(code, |ErrorContent(code, root, fs).value|);
    }
  }

  /** The body of an error reply: exactly when the code has a page and the
      page is a readable file, its bytes; when the code has no page or the
      page is not a file, the fallback HTML; and no reply at all exactly
      when the page is a file that cannot be read. */
  lemma ErrorContentChoice(code: nat, root: string, fs: Files)
    ensures ErrorContent(code, root, fs).None? <==>
      (ErrorPage(code).Some? && Lookup(fs, JoinPath(root, ErrorPage(code).value)) == Some(Unreadable))
    ensures ErrorPage(code).None? || Lookup(fs, JoinPath(root, ErrorPage(code).value)).None?
      ==> ErrorContent(code, root, fs) == Some(FallbackBytes(code))
    ensures ErrorContent(code, root, fs).Some? && ErrorContent(code, root, fs) != Some(FallbackBytes(code))
      ==> Lookup(fs, JoinPath(root, ErrorPage(code).value)) == Some(RegularFile(ErrorContent(code, root, fs).value))
  {
    var fallback := FallbackBytes(code);
    match ErrorPage(code) {
      case None =>
        assert ErrorContent(code, root, fs) == Some(fallback);
      case Some(page) =>
        match Lookup(fs, JoinPath(root, page)) {
          case None =>
            assert ErrorContent(code, root, fs) == Some(fallback);
          case Some(e) =>
        }
    }
  }

  /** Two words and a rest separated by single spaces: the first two
      tokens are the two words. */
  lemma TwoWordsFirst(a: string, b: string, rest: string)
    requires a != [] && NoSpace(a) && b != [] && NoSpace(b)
    ensures |Tokens(a + " " + b + " " + rest)| >= 2
    ensures Tokens(a + " " + b + " " + rest)[..2] == [a, b]
  {
    assert a + " " + b + " " + rest == a + (" " + (b + (" " + rest)));
    TokensOfJoinStep(a, b + (" " + rest));
    TokensOfJoinStep(b, rest);
  }

  /** The status code written in an error reply's status line reads back as
      that code. */
  lemma StatusCodeReadBack(code: nat)
    ensures |Tokens(StatusLine(code))| >= 2
    ensures Tokens(StatusLine(code))[0] == "HTTP/1.1"
    ensures ParseDecimal(Tokens(StatusLine(code))[1]) == Some(code)
  {
    StatusLineWords(code);
    VersionNoSpace();
    CodeAfterWord("HTTP/1.1", code, StatusMessage(code));
  }

  /** A word, a space and a number: the second token reads back as the
      number. */
  lemma CodeAfterWord(a: string, code: nat, rest: string)
    requires a != [] && NoSpace(a)
    ensures var t := Tokens(a + " " + Decimal(code) + " " + rest);
      |t| >= 2 && t[0] == a && ParseDecimal(t[1]) == Some(code)
  {
    var d := Decimal(code);
    TwoWordsFirst(a, d, rest);
    var t := Tokens(a + " " + d + " " + rest);
    assert t[..2][0] == t[0] && t[..2][1] == t[1];
    DecimalRoundTrip(code);
  }

  /** The 200 head can be encoded exactly when the content type can: every
      other character of the head is ASCII. */
  lemma OkResponseEncodable(guessed: Option<string>, content: seq<byte>)
    ensures OkResponse(guessed, content).Some? <==> IsLatin1(guessed.GetOr(DefaultContentType))
  {
    var ct := guessed.GetOr(DefaultContentType);
    var d := Decimal(|content|);
    var p1 := "HTTP/1.1 200 OK\r\n" + "Content-Type: ";
    var p2 := p1 + ct;
    var p3 := p2 + "\r\n" + "Content-Length: ";
    var p4 := p3 + d;
    assert OkHead(ct, |content|) == p4 + "\r\n" + "\r\n";
    assert IsLatin1(p1);
    Latin1Append(p1, ct);
    Latin1Append(p2, "\r\n");
    Latin1Append(p2 + "\r\n", "Content-Length: ");
    DigitsAscii(d);
    AsciiIsLatin1(d);
    Latin1Append(p3, d);
    Latin1Append(p4, "\r\n");
    Latin1Append(p4 + "\r\n", "\r\n");
  }

  // ----- Facts about fixed texts -----
  // These only spare the solver from unfolding long literals inside the
  // proofs above; each states one property of one fixed piece of text.

  lemma MethodNotAllowedLine()
    ensures HeadText(["HTTP/1.1 405 Method Not Allowed"]) == MethodNotAllowedText
  {
  }

  lemma StatusLineWords(code: nat)
    ensures StatusLine(code) == "HTTP/1.1" + " " + Decimal(code) + " " + StatusMessage(code)
  {
  }

  lemma VersionNoSpace()
    ensures NoSpace("HTTP/1.1")
  {
  }

  lemma MethodNotAllowedPlain()
    ensures PlainLine("HTTP/1.1 405 Method Not Allowed")
  {
    VersionPlain();
    PiecePlain405();
    PiecePlainNotAllowed();
    PlainAppend("HTTP/1.1 ", "405 Method");
    PlainAppend("HTTP/1.1 " + "405 Method", " Not Allowed");
    assert "HTTP/1.1 " + "405 Method" + " Not Allowed" == "HTTP/1.1 405 Method Not Allowed";
  }

  lemma VersionPlain()
    ensures '\r' !in "HTTP/1.1 " && IsLatin1("HTTP/1.1 ")
  {
  }

  lemma PiecePlain405()
    ensures '\r' !in "405 Method" && IsLatin1("405 Method")
  {
  }

  lemma PiecePlainNotAllowed()
    ensures '\r' !in " Not Allowed" && IsLatin1(" Not Allowed")
  {
  }

  lemma SpacePlain()
    ensures '\r' !in " " && IsLatin1(" ")
  {
  }

  lemma NotFoundPlain()
    ensures '\r' !in "Not Found" && IsLatin1("Not Found")
  {
  }

  lemma InternalErrorPlain()
    ensures '\r' !in "Internal Server Error" && IsLatin1("Internal Server Error")
  {
    assert "Internal Server Error" == "Internal " + "Server Error";
    InternalPlain();
    ServerErrorPlain();
    PlainAppend("Internal ", "Server Error");
  }

  lemma InternalPlain()
    ensures '\r' !in "Internal " && IsLatin1("Internal ")
  {
  }

  lemma ServerErrorPlain()
    ensures '\r' !in "Server Error" && IsLatin1("Server Error")
  {
  }

  lemma ErrorWordPlain()
    ensures '\r' !in "Error" && IsLatin1("Error")
  {
  }

  lemma ContentTypePlain()
    ensures '\r' !in "Content-Type" + ": " && IsLatin1("Content-Type" + ": ")
  {
  }

  lemma ContentLengthPlain()
    ensures '\r' !in "Content-Length" + ": " && IsLatin1("Content-Length" + ": ")
  {
  }

  lemma TextHtmlPlain()
    ensures '\r' !in "text/html" && IsLatin1("text/html")
  {
  }

  lemma HtmlTypeLine()
    ensures "Content-Type: text/html\r\n" == "Content-Type" + ": " + "text/html" + "\r\n"
  {
  }

  lemma LengthName()
    ensures "Content-Length: " == "Content-Length" + ": "
  {
  }
}
