/** Reading and parsing one request (HttpServer.py, handle_client, lines
    36-67): the receive loop that frames the request head, the ISO-8859-1
    decode, the split into a request line and header field lines (section 2.1
    of RFC 9112), the field-line parsing (section 5 of RFC 9112) and the
    three-token request line (section 3 of RFC 9112). */
module Request {
  import opened Wrappers
  import opened Latin1
  import opened Text

  /** The blank line that ends a request head: `b'\r\n\r\n'`. */
  const Terminator: seq<byte> := [13, 10, 13, 10]

  /** The line separator the request text is split on. */
  const CRLF: string := "\r\n"

  /** The bytes of the chunks, in order. */
  function Concat(chunks: seq<seq<byte>>): seq<byte> {
    if chunks == [] then [] else Concat(chunks[..|chunks| - 1]) + chunks[|chunks| - 1]
  }

  /** `b'\r\n\r\n' in buf`. */
  predicate HasTerminator(buf: seq<byte>) {
    FindFirst(buf, Terminator).Some?
  }

  /** The receive loop appends exactly the first `n` chunks: each of them is
      non-empty and none was appended to a buffer that already held the
      terminator; it stops because the peer closed (an empty chunk, or no
      chunk left) or because the buffer now holds the terminator. */
  ghost predicate ReadStopsAt(chunks: seq<seq<byte>>, n: nat) {
    && n <= |chunks|
    && (forall k :: 0 <= k < n ==> chunks[k] != [] && !HasTerminator(Concat(chunks[..k])))
    && (n == |chunks| || chunks[n] == [] || HasTerminator(Concat(chunks[..n])))
  }

  /** The stopping point of the receive loop is determined by the chunks. */
  lemma ReadStopIsUnique(chunks: seq<seq<byte>>, n1: nat, n2: nat)
    requires ReadStopsAt(chunks, n1) && ReadStopsAt(chunks, n2)
    ensures n1 == n2
  {
  }

  /** Number of chunks the receive loop appends, searched from `i` on. */
  function FrameLengthFrom(chunks: seq<seq<byte>>, i: nat): (n: nat)
    requires i <= |chunks|
    requires forall k :: 0 <= k < i ==> chunks[k] != [] && !HasTerminator(Concat(chunks[..k]))
    ensures ReadStopsAt(chunks, n)
    decreases |chunks| - i
  {
    if i == |chunks| || chunks[i] == [] || HasTerminator(Concat(chunks[..i])) then i
    else FrameLengthFrom(chunks, i + 1)
  }

  /** The request bytes the receive loop collects from `chunks`. */
  function Framed(chunks: seq<seq<byte>>): (buf: seq<byte>)
    ensures exists n: nat :: ReadStopsAt(chunks, n) && buf == Concat(chunks[..n])
  {
    var n := FrameLengthFrom(chunks, 0);
    Concat(chunks[..n])
  }

  /** The receive loop of lines 36-43. `chunks` are the successive results
      of `recv`; an empty chunk means the peer closed, and running out of
      chunks is read the same way. Returns the buffer and how many chunks
      were appended to it. */
  method ReadRequest(chunks: seq<seq<byte>>) returns (buf: seq<byte>, n: nat)
    ensures ReadStopsAt(chunks, n)
    ensures buf == Concat(chunks[..n])
  {
    buf, n := [], 0;
    while true
      invariant n <= |chunks|
      invariant buf == Concat(chunks[..n])
      invariant !HasTerminator(buf)
      invariant forall k :: 0 <= k < n ==> chunks[k] != [] && !HasTerminator(Concat(chunks[..k]))
      decreases |chunks| - n
    {
      var data := if n < |chunks| then chunks[n] else [];
      if data == [] {
        break;
      }
      ConcatSnoc(chunks, n);
      buf, n := buf + data, n + 1;
      if HasTerminator(buf) {
        break;
      }
    }
  }

  lemma ConcatSnoc(chunks: seq<seq<byte>>, n: nat)
    requires n < |chunks|
    ensures Concat(chunks[..n + 1]) == Concat(chunks[..n]) + chunks[n]
  {
    assert chunks[..n + 1][..n] == chunks[..n];
  }

  /** The method computes the function. */
  lemma ReadRequestIsFramed(chunks: seq<seq<byte>>, n: nat)
    requires ReadStopsAt(chunks, n)
    ensures Framed(chunks) == Concat(chunks[..n])
  {
    ReadStopIsUnique(chunks, n, FrameLengthFrom(chunks, 0));
  }

  /** The lines of the request text: `request_text.split('\r\n')`. */
  function Lines(buf: seq<byte>): (lines: seq<string>)
    ensures |lines| >= 1
  {
    Split(Decode(buf), CRLF)
  }

  /** The lines examined as header fields: those after the request line, up
      to and excluding the first empty line. */
  function FieldLines(lines: seq<string>): (fs: seq<string>)
    ensures FieldRun(if |lines| == 0 then [] else lines[1..], fs)
  {
    if |lines| == 0 then [] else UntilBlank(lines[1..])
  }

  /** `fs` is the longest prefix of `ls` without an empty line. */
  ghost predicate FieldRun(ls: seq<string>, fs: seq<string>) {
    && |fs| <= |ls| && fs == ls[..|fs|]
    && (forall k :: 0 <= k < |fs| ==> fs[k] != "")
    && (|fs| == |ls| || ls[|fs|] == "")
  }

  function UntilBlank(ls: seq<string>): (fs: seq<string>)
    ensures |fs| <= |ls| && FieldRun(ls, fs)
  {
    if ls == [] || ls[0] == "" then [] else [ls[0]] + UntilBlank(ls[1..])
  }

  /** One header field line split at its first `:`, name and value with
      surrounding whitespace stripped; `None` for a line without `:`, which
      the server ignores. */
  function ParseField(line: string): Option<(string, string)> {
    match FindFirst(line, ":")
    case None => None
    case Some(i) => Some((Strip(line[..i]), Strip(line[i + 1..])))
  }

  /** A line is ignored exactly when it has no `:`; otherwise it is split at
      its first `:`, so the name never contains one (the value may). */
  lemma ParseFieldColon(line: string)
    ensures ParseField(line).None? <==> ':' !in line
    ensures ParseField(line).Some? ==> ':' !in ParseField(line).value.0
  {
    match FindFirst(line, ":")
    case None =>
      forall i | 0 <= i < |line| ensures line[i] != ':' {
        assert !OccursAt(line, ":", i);
        assert line[i..i + 1] == [line[i]];
      }
    case Some(i) =>
      assert line[i..i + 1] == ":";
      assert line[i] == ':';
      forall j | 0 <= j < i ensures line[..i][j] != ':' {
        assert !OccursAt(line, ":", j);
        assert line[j..j + 1] == [line[j]];
      }
      StripInside(line[..i], ':');
  }

  lemma StripInside(s: string, c: char)
    requires c !in s
    ensures c !in Strip(s)
  {
    StripIsTrim(s);
    var i :| StrippedAt(s, Strip(s), i);
    assert Strip(s) == s[i..i + |Strip(s)|];
  }

  /** The line `name: value` is read back as that name and value. */
  lemma ParseFieldOfLine(name: string, value: string)
    requires ':' !in name
    requires Trimmed(name) && Trimmed(value)
    ensures ParseField(name + ": " + value) == Some((name, value))
  {
    var line := name + ": " + value;
    FirstColonAfter(name, " " + value);
    assert line == name + ":" + (" " + value);
    assert line[..|name|] == name;
    assert line[|name| + 1..] == " " + value;
    StripTrimmed(name);
    StripTrimmed(value);
    StripSkipsSpace(" ", value);
  }

  lemma FirstColonAfter(name: string, rest: string)
    requires ':' !in name
    ensures FindFirst(name + ":" + rest, ":") == Some(|name|)
  {
    var line := name + ":" + rest;
    assert OccursAt(line, ":", |name|) by { assert line[|name|..|name| + 1] == ":"; }
    forall j | 0 <= j < |name| ensures !OccursAt(line, ":", j) {
      assert line[j..j + 1] == [name[j]];
    }
  }

  /** Stripping a string that neither starts nor ends with whitespace
      changes nothing. */
  lemma StripTrimmed(s: string)
    requires Trimmed(s)
    ensures Strip(s) == s
  {
  }

  lemma {:induction false} StripSkipsSpace(pad: string, s: string)
    requires AllSpace(pad)
    ensures Strip(pad + s) == Strip(s)
    decreases |pad|
  {
    if pad == [] {
      assert pad + s == s;
    } else {
      assert (pad + s)[0] == pad[0];
      assert (pad + s)[1..] == pad[1..] + s;
      StripSkipsSpace(pad[1..], s);
    }
  }

  /** The parsed form of each field line, in order. */
  function ParsedFields(fs: seq<string>): (ps: seq<Option<(string, string)>>)
    ensures |ps| == |fs|
    ensures forall i :: 0 <= i < |fs| ==> ps[i] == ParseField(fs[i])
  {
    seq(|fs|, i requires 0 <= i < |fs| => ParseField(fs[i]))
  }

  /** A dictionary filled by assigning the pairs of `ps` in order
      (`d[k] = v`), skipping the `None`s. */
  function Store<K(==), V>(ps: seq<Option<(K, V)>>): map<K, V> {
    if ps == [] then map[]
    else
      StoreOne(Store(ps[..|ps| - 1]), ps[|ps| - 1])
  }

  /** Entry `p` assigns key `k`. */
  predicate Assigns<K(==), V>(p: Option<(K, V)>, k: K) {
    p.Some? && p.value.0 == k
  }

  /** A key is in the dictionary exactly when some entry assigns it, and its
      value is the one from the last entry that does. */
  lemma StoreLastWins<K, V>(ps: seq<Option<(K, V)>>, k: K)
    ensures k in Store(ps) <==> exists i :: 0 <= i < |ps| && Assigns(ps[i], k)
    ensures k in Store(ps) ==>
      exists i :: 0 <= i < |ps| && ps[i] == Some((k, Store(ps)[k]))
                  && forall j :: i < j < |ps| ==> !Assigns(ps[j], k)
  {
    StoreHas(ps, k);
    if k in Store(ps) {
      StoreLast(ps, k);
    }
  }

  lemma {:induction false} StoreHas<K, V>(ps: seq<Option<(K, V)>>, k: K)
    ensures k in Store(ps) <==> exists i :: 0 <= i < |ps| && Assigns(ps[i], k)
    decreases |ps|
  {
    if ps != [] {
      var n := |ps| - 1;
      var init := ps[..n];
      StoreHas(init, k);
      if Assigns(ps[n], k) {
        assert k in Store(ps);
      } else {
        assert k in Store(ps) <==> k in Store(init);
        if k in Store(init) {
          var i :| 0 <= i < |init| && Assigns(init[i], k);
          assert ps[i] == init[i];
        }
        if exists i :: 0 <= i < |ps| && Assigns(ps[i], k) {
          var i :| 0 <= i < |ps| && Assigns(ps[i], k);
          assert i < n && init[i] == ps[i];
        }
      }
    }
  }

  lemma {:induction false} StoreLast<K, V>(ps: seq<Option<(K, V)>>, k: K)
    requires k in Store(ps)
    ensures exists i :: 0 <= i < |ps| && ps[i] == Some((k, Store(ps)[k]))
                        && forall j :: i < j < |ps| ==> !Assigns(ps[j], k)
    decreases |ps|
  {
    var n := |ps| - 1;
    var init := ps[..n];
    if Assigns(ps[n], k) {
      assert ps[n] == Some((k, Store(ps)[k]));
    } else {
      assert Store(ps)[k] == Store(init)[k];
      StoreLast(init, k);
      var i :| 0 <= i < |init| && init[i] == Some((k, Store(init)[k]))
               && forall j :: i < j < |init| ==> !Assigns(init[j], k);
      assert ps[i] == init[i];
      forall j | i < j < |ps| ensures !Assigns(ps[j], k) {
        if j < n {
          assert ps[j] == init[j];
        }
      }
    }
  }

  /** The header dictionary after the field lines `fs` were read in order:
      each line with a `:` assigns its name, later lines overwriting. */
  function HeaderMap(fs: seq<string>): map<string, string> {
    if fs == [] then map[]
    else StoreOne(HeaderMap(fs[..|fs| - 1]), ParseField(fs[|fs| - 1]))
  }

  /** Reading one more field line performs one more dictionary assignment. */
  lemma HeaderMapSnoc(fs: seq<string>, line: string)
    ensures HeaderMap(fs + [line]) == StoreOne(HeaderMap(fs), ParseField(line))
  {
    assert (fs + [line])[..|fs|] == fs;
  }

  /** The header dictionary is the dictionary of the parsed lines. */
  lemma {:induction false} HeaderMapIsStore(fs: seq<string>)
    ensures HeaderMap(fs) == Store(ParsedFields(fs))
    decreases |fs|
  {
    if fs != [] {
      var init := fs[..|fs| - 1];
      HeaderMapIsStore(init);
      var ps := ParsedFields(fs);
      assert ps[..|ps| - 1] == ParsedFields(init);
    }
  }

  /** A header name is in the dictionary exactly when some field line
      assigns it, and its value is the one from the last such line. */
  lemma HeaderLastWins(fs: seq<string>, name: string)
    ensures name in HeaderMap(fs) <==> exists i :: 0 <= i < |fs| && Assigns(ParseField(fs[i]), name)
    ensures name in HeaderMap(fs) ==>
      exists i :: 0 <= i < |fs| && ParseField(fs[i]) == Some((name, HeaderMap(fs)[name]))
        && forall j :: i < j < |fs| ==> !Assigns(ParseField(fs[j]), name)
  {
    var ps := ParsedFields(fs);
    HeaderMapIsStore(fs);
    StoreLastWins(ps, name);
    if name in HeaderMap(fs) {
      var i :| 0 <= i < |ps| && ps[i] == Some((name, Store(ps)[name]))
        && forall j :: i < j < |ps| ==> !Assigns(ps[j], name);
      assert ParseField(fs[i]) == Some((name, HeaderMap(fs)[name]));
      assert forall j :: i < j < |fs| ==> !Assigns(ParseField(fs[j]), name) by {
        forall j | i < j < |fs| ensures !Assigns(ParseField(fs[j]), name) {
          assert ps[j] == ParseField(fs[j]);
        }
      }
    } else {
      forall i | 0 <= i < |fs| ensures !Assigns(ParseField(fs[i]), name) {
        assert ps[i] == ParseField(fs[i]);
      }
    }
  }

  /** One dictionary assignment, or none. */
  function StoreOne<K, V>(m: map<K, V>, p: Option<(K, V)>): map<K, V> {
    match p
    case None => m
    case Some((k, v)) => m[k := v]
  }

  /** The header loop of lines 51-60. */
  method ParseHeaders(lines: seq<string>) returns (headers: map<string, string>)
    ensures headers == HeaderMap(FieldLines(lines))
  {
    headers := map[];
    var rest := if |lines| == 0 then [] else lines[1..];
    var j := 0;
    while j < |rest|
      invariant 0 <= j <= |rest|
      invariant forall k :: 0 <= k < j ==> rest[k] != ""
      invariant headers == HeaderMap(rest[..j])
    {
      var line := rest[j];
      if line == "" {
        break;
      }
      HeaderMapSnoc(rest[..j], line);
      match ParseField(line) {
        case None =>
        case Some((name, value)) =>
          headers := headers[name := value];
      }
      assert rest[..j + 1] == rest[..j] + [line];
      j := j + 1;
    }
    assert FieldRun(rest, rest[..j]);
    FieldRunIsUnique(rest, rest[..j], FieldLines(lines));
  }

  lemma FieldRunIsUnique(ls: seq<string>, a: seq<string>, b: seq<string>)
    requires FieldRun(ls, a) && FieldRun(ls, b)
    ensures a == b
  {
  }

  /** The request line's three tokens. */
  datatype RequestLine = RequestLine(httpMethod: string, target: string, version: string)

  /** `request_line.split()` must give exactly three tokens; otherwise the
      server raises ValueError. */
  function ParseRequestLine(line: string): (r: Option<RequestLine>)
    ensures r.Some? <==> |Tokens(line)| == 3
    ensures r.Some? ==> [r.value.httpMethod, r.value.target, r.value.version] == Tokens(line)
  {
    var parts := Tokens(line);
    if |parts| != 3 then None else Some(RequestLine(parts[0], parts[1], parts[2]))
  }

  /** A request line written as `method SP target SP version` is read back. */
  lemma ParseRequestLineOf(httpMethod: string, target: string, version: string)
    requires Words([httpMethod, target, version])
    ensures ParseRequestLine(httpMethod + " " + target + " " + version)
         == Some(RequestLine(httpMethod, target, version))
  {
    var ts := [httpMethod, target, version];
    TokensOfJoin(ts);
    JoinWithCons(ts, " ");
    JoinWithCons(ts[1..], " ");
    assert ts[1..][1..] == [version];
    assert httpMethod + " " + target + " " + version == JoinWith(ts, " ");
  }

  /** A request line with any other number of tokens is refused, the empty
      request included. */
  lemma EmptyRequestLineRefused()
    ensures ParseRequestLine("") == None
  {
  }
}
