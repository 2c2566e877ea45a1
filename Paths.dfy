/** Path resolution (HttpServer.py, handle_client, lines 80-96): the
    request target is percent-decoded (`urllib.parse.unquote`, section 2.1
    of RFC 3986), normalised (`os.path.normpath`), stripped of leading `/`
    and `\` (`lstrip('/\\')`), joined onto the root (`os.path.join`) and
    accepted only if `os.path.commonpath([os.path.abspath(full), root])` is
    the root. POSIX path semantics: only `/` separates segments. */
module Paths {
  import opened Wrappers
  import opened Latin1
  import opened Text

  // ----- Percent-decoding -----

  /** An ASCII hex digit, upper or lower case. */
  predicate IsHexDigit(b: byte) {
    (48 <= b <= 57) || (65 <= b <= 70) || (97 <= b <= 102)
  }

  function HexValue(b: byte): (v: nat)
    requires IsHexDigit(b)
    ensures v < 16
  {
    if b <= 57 then (b - 48) as nat else if b <= 70 then (b - 55) as nat else (b - 87) as nat
  }

  /** The upper-case hex digit for `v`. */
  function HexDigit(v: nat): (b: byte)
    requires v < 16
    ensures IsHexDigit(b) && HexValue(b) == v
  {
    if v < 10 then (48 + v) as byte else (55 + v) as byte
  }

  const Percent: byte := 37

  /** The byte-level decoding of an ASCII run: each `%` followed by two hex
      digits becomes the byte they spell; any other `%` is kept as it is. */
  function PercentDecode(b: seq<byte>): (r: seq<byte>)
    ensures |r| <= |b|
    decreases |b|
  {
    if b == [] then []
    else if b[0] == Percent && |b| >= 3 && IsHexDigit(b[1]) && IsHexDigit(b[2]) then
      [(HexValue(b[1]) * 16 + HexValue(b[2])) as byte] + PercentDecode(b[3..])
    else [b[0]] + PercentDecode(b[1..])
  }

  /** Every byte written as `%XX`. */
  function PercentEncode(b: seq<byte>): (r: seq<byte>)
    ensures |r| == 3 * |b|
  {
    if b == [] then []
    else [Percent, HexDigit(b[0] as nat / 16), HexDigit(b[0] as nat % 16)] + PercentEncode(b[1..])
  }

  /** Decoding undoes encoding, for every byte string. */
  lemma {:induction false} PercentRoundTrip(b: seq<byte>)
    ensures PercentDecode(PercentEncode(b)) == b
  {
    if b != [] {
      var e := PercentEncode(b);
      assert e[3..] == PercentEncode(b[1..]);
      PercentRoundTrip(b[1..]);
      assert (HexValue(e[1]) * 16 + HexValue(e[2])) as byte == b[0];
    }
  }

  /** Bytes without `%` are left unchanged, malformed escapes included. */
  lemma {:induction false} PercentDecodeWithoutPercent(b: seq<byte>)
    requires Percent !in b
    ensures PercentDecode(b) == b
  {
    if b != [] {
      PercentDecodeWithoutPercent(b[1..]);
    }
  }

  /** A `%` not followed by two hex digits stays a literal `%`. */
  lemma MalformedEscapeKept(b: seq<byte>)
    requires |b| >= 1 && b[0] == Percent
    requires !(|b| >= 3 && IsHexDigit(b[1]) && IsHexDigit(b[2]))
    ensures PercentDecode(b)[0] == Percent
    ensures PercentDecode(b)[1..] == PercentDecode(b[1..])
  {
  }

  /** Length of the leading run of ASCII characters of `s`. */
  function AsciiRunLength(s: string): (n: nat)
    ensures n <= |s|
    ensures IsAscii(s[..n])
    ensures n == |s| || s[n] as int >= 128
    decreases |s|
  {
    if s == [] || s[0] as int >= 128 then 0
    else
      var n := 1 + AsciiRunLength(s[1..]);
      assert s[..n] == [s[0]] + s[1..][..n - 1];
      n
  }

  /** `urllib.parse.unquote(s)`: a target without `%` is returned as it is;
      otherwise each maximal ASCII run is percent-decoded to bytes and those
      bytes are decoded as UTF-8 with replacement (`utf8`), and every other
      character is kept. */
  function Unquote(s: string, utf8: seq<byte> -> string): (r: string)
    ensures '%' !in s ==> r == s
  {
    if '%' !in s then s else UnquoteRuns(s, utf8)
  }

  function UnquoteRuns(s: string, utf8: seq<byte> -> string): string
    decreases |s|
  {
    if s == [] then []
    else if s[0] as int < 128 then
      var n := AsciiRunLength(s);
      AsciiIsLatin1(s[..n]);
      utf8(PercentDecode(Encode(s[..n]))) + UnquoteRuns(s[n..], utf8)
    else [s[0]] + UnquoteRuns(s[1..], utf8)
  }

  /** An all-ASCII target containing `%` is decoded in one piece: its
      percent-decoded bytes, read as UTF-8. */
  lemma UnquoteAscii(s: string, utf8: seq<byte> -> string)
    requires IsAscii(s) && '%' in s
    ensures Unquote(s, utf8) == utf8(PercentDecode(Encode(s)))
  {
    var n := AsciiRunLength(s);
    assert n == |s|;
    assert s[..n] == s;
    assert UnquoteRuns(s[n..], utf8) == [];
  }

  // ----- Normalisation -----

  /** A path segment without the separator. */
  predicate NoSlash(x: string) {
    '/' !in x
  }

  /** Segments as `normpath` leaves them: none empty, none `.`, none
      containing `/`, every `..` in a leading run, and no `..` at all in an
      absolute path. */
  ghost predicate NormalSegments(xs: seq<string>, absolute: bool) {
    && (forall k :: 0 <= k < |xs| ==> xs[k] != "" && xs[k] != "." && NoSlash(xs[k]))
    && (forall i, j :: 0 <= i < j < |xs| && xs[j] == ".." ==> xs[i] == "..")
    && (absolute ==> forall k :: 0 <= k < |xs| ==> xs[k] != "..")
  }

  /** One turn of `normpath`'s loop over the components: drop empty and `.`
      components; a `..` removes the last kept component unless there is none
      (then it is kept in a relative path and dropped in an absolute one) or
      the last one is itself `..`. */
  function NormStep(acc: seq<string>, comp: string, absolute: bool): seq<string> {
    if comp == "" || comp == "." then acc
    else if comp != ".." || (!absolute && acc == []) || (acc != [] && acc[|acc| - 1] == "..") then acc + [comp]
    else if acc != [] then acc[..|acc| - 1]
    else acc
  }

  function NormFold(comps: seq<string>, absolute: bool, acc: seq<string>): seq<string>
    decreases |comps|
  {
    if comps == [] then acc else NormFold(comps[1..], absolute, NormStep(acc, comps[0], absolute))
  }

  /** One step keeps the kept components normal. */
  lemma NormStepNormal(acc: seq<string>, comp: string, absolute: bool)
    requires NormalSegments(acc, absolute) && NoSlash(comp)
    ensures NormalSegments(NormStep(acc, comp, absolute), absolute)
  {
    var r := NormStep(acc, comp, absolute);
    if comp == "" || comp == "." {
    } else if comp != ".." || (!absolute && acc == []) || (acc != [] && acc[|acc| - 1] == "..") {
      assert r == acc + [comp];
      if comp == ".." && acc != [] {
        assert forall i :: 0 <= i < |acc| ==> acc[i] == "..";
      }
    } else if acc != [] {
      assert r == acc[..|acc| - 1];
    }
  }

  lemma {:induction false} NormFoldNormal(comps: seq<string>, absolute: bool, acc: seq<string>)
    requires NormalSegments(acc, absolute)
    requires forall k :: 0 <= k < |comps| ==> NoSlash(comps[k])
    ensures NormalSegments(NormFold(comps, absolute, acc), absolute)
    decreases |comps|
  {
    if comps != [] {
      NormStepNormal(acc, comps[0], absolute);
      NormFoldNormal(comps[1..], absolute, NormStep(acc, comps[0], absolute));
    }
  }

  /** How many leading slashes `normpath` keeps: two for exactly two (POSIX
      leaves their meaning to the implementation), one for one or three or
      more, none for a relative path. */
  function InitialSlashes(path: string): nat {
    if path == [] || path[0] != '/' then 0
    else if |path| >= 2 && path[1] == '/' && !(|path| >= 3 && path[2] == '/') then 2
    else 1
  }

  function Slashes(k: nat): (r: string)
    ensures |r| == k && forall i :: 0 <= i < k ==> r[i] == '/'
  {
    seq(k, _ => '/')
  }

  /** The components `normpath` keeps. */
  function NormComponents(path: string): seq<string> {
    NormFold(Split(path, "/"), InitialSlashes(path) > 0, [])
  }

  /** `os.path.normpath` (posixpath). */
  function NormPath(path: string): string {
    if path == "" then "."
    else
      var p := Slashes(InitialSlashes(path)) + JoinWith(NormComponents(path), "/");
      if p == "" then "." else p
  }

  lemma SplitPiecesNoSlash(s: string)
    ensures forall k :: 0 <= k < |Split(s, "/")| ==> NoSlash(Split(s, "/")[k])
  {
    SplitPiecesFree(s, "/");
    forall k | 0 <= k < |Split(s, "/")| ensures NoSlash(Split(s, "/")[k]) {
      var x := Split(s, "/")[k];
      forall i | 0 <= i < |x| ensures x[i] != '/' {
        assert !OccursAt(x, "/", i);
        assert x[i..i + 1] == [x[i]];
      }
    }
  }

  /** The kept components are normal. */
  lemma NormComponentsNormal(path: string)
    ensures NormalSegments(NormComponents(path), InitialSlashes(path) > 0)
  {
    SplitPiecesNoSlash(path);
    NormFoldNormal(Split(path, "/"), InitialSlashes(path) > 0, []);
  }

  // ----- Leading separators, join -----

  predicate IsStripChar(c: char) {
    c == '/' || c == '\\'
  }

  /** `s.lstrip('/\\')`. */
  function StripLeading(s: string): (r: string)
    ensures |r| <= |s| && r == s[|s| - |r|..]
    ensures forall i :: 0 <= i < |s| - |r| ==> IsStripChar(s[i])
    ensures r == [] || !IsStripChar(r[0])
    decreases |s|
  {
    if s != [] && IsStripChar(s[0]) then StripLeading(s[1..]) else s
  }

  predicate IsAbsolute(p: string) {
    |p| > 0 && p[0] == '/'
  }

  /** `os.path.join(a, b)` for two components. */
  function JoinPath(a: string, b: string): string {
    if b != [] && b[0] == '/' then b
    else if a == [] || a[|a| - 1] == '/' then a + b
    else a + "/" + b
  }

  /** The relative path `normpath(unquote(target)).lstrip('/\\')`. */
  function RequestedPath(target: string, utf8: seq<byte> -> string): string {
    StripLeading(NormPath(Unquote(target, utf8)))
  }

  /** `os.path.join(root, requested_path)`. */
  function FullPath(root: string, target: string, utf8: seq<byte> -> string): string {
    JoinPath(root, RequestedPath(target, utf8))
  }

  /** Joining keeps the root in front: the stripped path never starts with
      `/`, so `join` cannot discard the root. */
  lemma FullPathExtendsRoot(root: string, target: string, utf8: seq<byte> -> string)
    requires IsAbsolute(root)
    ensures |root| <= |FullPath(root, target, utf8)|
    ensures FullPath(root, target, utf8)[..|root|] == root
    ensures IsAbsolute(FullPath(root, target, utf8))
  {
  }

  // ----- Containment -----

  /** The segments `commonpath` compares: empty and `.` segments dropped. */
  function Significant(xs: seq<string>): (r: seq<string>)
    ensures forall k :: 0 <= k < |r| ==> r[k] != "" && r[k] != "."
  {
    if xs == [] then []
    else (if xs[0] == "" || xs[0] == "." then [] else [xs[0]]) + Significant(xs[1..])
  }

  function Segments(p: string): seq<string> {
    Significant(Split(p, "/"))
  }

  /** Longest common prefix of two segment lists. */
  function CommonPrefix(a: seq<string>, b: seq<string>): (r: seq<string>)
    ensures |r| <= |a| && |r| <= |b| && r == a[..|r|] && r == b[..|r|]
    ensures |r| == |a| || |r| == |b| || a[|r|] != b[|r|]
  {
    if a == [] || b == [] || a[0] != b[0] then []
    else [a[0]] + CommonPrefix(a[1..], b[1..])
  }

  /** `os.path.commonpath([a, b])` for two absolute paths (with a relative
      path among them it raises). */
  function CommonPath(a: string, b: string): string
    requires IsAbsolute(a) && IsAbsolute(b)
  {
    "/" + JoinWith(CommonPrefix(Segments(a), Segments(b)), "/")
  }

  /** The check of line 93: `commonpath([abspath(full), root]) == root`;
      `abspath` of an absolute path is its `normpath`. */
  predicate Contained(full: string, root: string)
    requires IsAbsolute(full) && IsAbsolute(root)
  {
    NormPathAbsolute(full);
    CommonPath(NormPath(full), root) == root
  }

  lemma NormPathAbsolute(p: string)
    requires IsAbsolute(p)
    ensures IsAbsolute(NormPath(p))
  {
  }

  /** A segment that names a child: not empty, not `.` or `..`, no `/`. */
  predicate ValidSegment(x: string) {
    x != "" && x != "." && x != ".." && NoSlash(x)
  }

  /** A normalised absolute root given by its segments. */
  predicate ValidRoot(rootSegs: seq<string>) {
    forall k :: 0 <= k < |rootSegs| ==> ValidSegment(rootSegs[k])
  }

  function RootText(rootSegs: seq<string>): (r: string)
    ensures IsAbsolute(r)
  {
    "/" + JoinWith(rootSegs, "/")
  }

  predicate IsPrefix(a: seq<string>, b: seq<string>) {
    |a| <= |b| && b[..|a|] == a
  }

  /** The containment check accepts exactly the paths whose normalised
      segments start with the root's segments. */
  lemma ContainedIff(full: string, rootSegs: seq<string>)
    requires IsAbsolute(full) && ValidRoot(rootSegs)
    ensures Contained(full, RootText(rootSegs)) <==> IsPrefix(rootSegs, Segments(NormPath(full)))
  {
    var root := RootText(rootSegs);
    NormPathAbsolute(full);
    RootSegments(rootSegs);
    var segs := Segments(NormPath(full));
    var c := CommonPrefix(segs, rootSegs);
    if Contained(full, root) {
      assert "/" + JoinWith(c, "/") == "/" + JoinWith(rootSegs, "/");
      assert JoinWith(c, "/") == JoinWith(rootSegs, "/") by {
        assert JoinWith(c, "/") == ("/" + JoinWith(c, "/"))[1..];
      }
      assert forall k :: 0 <= k < |c| ==> c[k] == rootSegs[k];
      JoinInjective(c, rootSegs);
    }
    if IsPrefix(rootSegs, segs) {
      assert c == rootSegs;
    }
  }

  /** The root's own segments are the ones it was built from. */
  lemma RootSegments(rootSegs: seq<string>)
    requires ValidRoot(rootSegs)
    ensures Segments(RootText(rootSegs)) == rootSegs
  {
    assert Slashes(1) == "/";
    assert forall k :: 0 <= k < |rootSegs| ==> ValidSegment(rootSegs[k]);
    SlashedSegments(1, rootSegs);
    SignificantOfValid(rootSegs);
  }

  lemma {:induction false} SignificantOfValid(xs: seq<string>)
    requires forall k :: 0 <= k < |xs| ==> xs[k] != "" && xs[k] != "."
    ensures Significant(xs) == xs
  {
    if xs != [] {
      SignificantOfValid(xs[1..]);
    }
  }

  /** Distinct segment lists (segments non-empty and free of `/`) join to
      distinct texts. */
  lemma JoinInjective(a: seq<string>, b: seq<string>)
    requires forall k :: 0 <= k < |a| ==> a[k] != "" && NoSlash(a[k])
    requires forall k :: 0 <= k < |b| ==> b[k] != "" && NoSlash(b[k])
    requires JoinWith(a, "/") == JoinWith(b, "/")
    ensures a == b
  {
    if a == [] || b == [] {
      if a != [] { JoinNonEmpty(a); }
      if b != [] { JoinNonEmpty(b); }
    } else {
      JoinThenSplit(a, '/');
      JoinThenSplit(b, '/');
    }
  }

  lemma JoinNonEmpty(a: seq<string>)
    requires |a| >= 1 && a[0] != ""
    ensures JoinWith(a, "/") != ""
  {
    if |a| > 1 {
      JoinWithCons(a, "/");
    }
  }

  // ----- What normalisation guarantees -----

  lemma JoinAfterEmpty(xs: seq<string>)
    requires |xs| >= 1
    ensures JoinWith([""] + xs, "/") == "/" + JoinWith(xs, "/")
  {
    JoinWithPrepend("", xs, "/");
  }

  lemma SignificantSkipsEmpty(xs: seq<string>)
    ensures Significant([""] + xs) == Significant(xs)
  {
    assert ([""] + xs)[1..] == xs;
  }

  /** The text `normpath` builds from its kept components. */
  lemma NormPathShape(path: string)
    ensures var n := NormPath(path);
      n == "." || n == Slashes(InitialSlashes(path)) + JoinWith(NormComponents(path), "/")
  {
  }

  /** Leading slashes contribute only empty segments. */
  lemma {:induction false} SlashedSegments(k: nat, comps: seq<string>)
    requires k == 1 || k == 2
    requires forall i :: 0 <= i < |comps| ==> NoSlash(comps[i])
    ensures Segments(Slashes(k) + JoinWith(comps, "/")) == Significant(comps)
  {
    var rest := if comps == [] then [""] else comps;
    assert JoinWith(rest, "/") == JoinWith(comps, "/");
    JoinAfterEmpty(rest);
    SignificantSkipsEmpty(rest);
    var xs;
    if k == 1 {
      xs := [""] + rest;
      assert Slashes(1) == "/";
    } else {
      xs := [""] + ([""] + rest);
      JoinAfterEmpty([""] + rest);
      SignificantSkipsEmpty([""] + rest);
      assert Slashes(2) == "/" + "/";
    }
    assert Slashes(k) + JoinWith(comps, "/") == JoinWith(xs, "/");
    JoinThenSplit(xs, '/');
    if comps == [] {
      SignificantSkipsEmpty([]);
    }
  }

  /** A normalised absolute path consists of child segments only: its
      segments are the kept components and none is empty, `.` or `..`. */
  lemma NormPathAbsoluteSegments(p: string)
    requires IsAbsolute(p)
    ensures Segments(NormPath(p)) == NormComponents(p)
    ensures forall k :: 0 <= k < |Segments(NormPath(p))| ==> ValidSegment(Segments(NormPath(p))[k])
  {
    var comps := NormComponents(p);
    NormComponentsNormal(p);
    NormPathShape(p);
    SlashedSegments(InitialSlashes(p), comps);
    SignificantOfValid(comps);
  }

  /** Segments as they reach `join`: none empty, a `.` at most first, and
      `..` only in a leading run. */
  ghost predicate RelativeSegments(segs: seq<string>) {
    && (forall k :: 0 <= k < |segs| ==> segs[k] != "")
    && (forall k :: 0 < k < |segs| ==> segs[k] != ".")
    && (forall i, j :: 0 <= i < j < |segs| && segs[j] == ".." ==> segs[i] == "..")
  }

  /** The shape of the relative path handed to `join`: it does not start
      with `/` or `\`, and unless empty its `/`-separated segments are
      relative segments. */
  ghost predicate RelativeForm(rel: string) {
    rel == [] || (!IsStripChar(rel[0]) && RelativeSegments(Split(rel, "/")))
  }

  lemma {:induction false} StripLeadingAppend(x: string, y: string)
    ensures StripLeading(x) != [] ==> StripLeading(x + y) == StripLeading(x) + y
    ensures StripLeading(x) == [] ==> StripLeading(x + y) == StripLeading(y)
    decreases |x|
  {
    if x == [] {
      assert x + y == y;
    } else {
      assert (x + y)[1..] == x[1..] + y;
      if IsStripChar(x[0]) {
        StripLeadingAppend(x[1..], y);
      }
    }
  }

  lemma StripLeadingSlashes(k: nat)
    ensures StripLeading(Slashes(k)) == []
  {
  }

  lemma JoinHead(comps: seq<string>)
    requires |comps| >= 1 && comps[0] != ""
    ensures |JoinWith(comps, "/")| >= 1 && JoinWith(comps, "/")[0] == comps[0][0]
  {
    if |comps| > 1 {
      JoinWithCons(comps, "/");
    }
  }

  /** Components whose first does not start with `\` pass unchanged. */
  lemma StripJoinPlain(comps: seq<string>)
    requires |comps| >= 1 && NormalSegments(comps, false)
    requires !IsStripChar(comps[0][0])
    ensures RelativeForm(StripLeading(JoinWith(comps, "/")))
  {
    JoinHead(comps);
    JoinThenSplit(comps, '/');
  }

  /** A first component made of backslashes followed by a non-empty `s`
      loses its backslashes. */
  lemma StripJoinHeadText(comps: seq<string>)
    requires |comps| >= 1 && StripLeading(comps[0]) != []
    ensures StripLeading(JoinWith(comps, "/")) == JoinWith([StripLeading(comps[0])] + comps[1..], "/")
  {
    var s := StripLeading(comps[0]);
    if |comps| == 1 {
      assert JoinWith(comps, "/") == comps[0];
      assert JoinWith([s], "/") == s;
    } else {
      JoinWithCons(comps, "/");
      StripLeadingAppend(comps[0], "/" + JoinWith(comps[1..], "/"));
      JoinWithPrepend(s, comps[1..], "/");
    }
  }

  /** The rest of such a first component, with the other components, is a
      list of relative segments free of `/`: no `..` follows a component that
      starts with `\`. */
  lemma HeadStrippedSegments(comps: seq<string>)
    requires |comps| >= 1 && NormalSegments(comps, false)
    requires IsStripChar(comps[0][0]) && StripLeading(comps[0]) != []
    ensures var ys := [StripLeading(comps[0])] + comps[1..];
      RelativeSegments(ys) && forall k :: 0 <= k < |ys| ==> '/' !in ys[k]
  {
    var c := comps[0];
    var s := StripLeading(c);
    StripLeadingKeepsNoSlash(c);
    NoParentAfter(comps);
    var ys := [s] + comps[1..];
    forall k | 0 < k < |ys|
      ensures ys[k] != "" && ys[k] != "." && ys[k] != ".." && '/' !in ys[k]
    {
      assert ys[k] == comps[k];
    }
  }

  lemma {:induction false} StripLeadingKeepsNoSlash(c: string)
    requires NoSlash(c)
    ensures '/' !in StripLeading(c)
    decreases |c|
  {
    if c != [] && IsStripChar(c[0]) {
      assert c == [c[0]] + c[1..];
      StripLeadingKeepsNoSlash(c[1..]);
    }
  }

  /** In normal components whose first is not `..`, no `..` occurs. */
  lemma NoParentAfter(comps: seq<string>)
    requires |comps| >= 1 && NormalSegments(comps, false) && comps[0] != ".."
    ensures forall i :: 0 <= i < |comps| ==> comps[i] != ".."
  {
  }

  lemma StripJoinHead(comps: seq<string>)
    requires |comps| >= 1 && NormalSegments(comps, false)
    requires StripLeading(comps[0]) != []
    requires IsStripChar(comps[0][0])
    ensures RelativeForm(StripLeading(JoinWith(comps, "/")))
  {
    var ys := [StripLeading(comps[0])] + comps[1..];
    StripJoinHeadText(comps);
    HeadStrippedSegments(comps);
    JoinThenSplit(ys, '/');
  }

  /** A first component made only of backslashes vanishes with its `/`. */
  lemma StripJoinSkip(comps: seq<string>)
    requires |comps| > 1 && StripLeading(comps[0]) == []
    ensures StripLeading(JoinWith(comps, "/")) == StripLeading(JoinWith(comps[1..], "/"))
  {
    var tail := JoinWith(comps[1..], "/");
    JoinWithCons(comps, "/");
    StripLeadingAppend(comps[0], "/" + tail);
    StripLeadingAppend("/", tail);
  }

  lemma NormalTail(comps: seq<string>)
    requires |comps| >= 1 && NormalSegments(comps, false)
    ensures NormalSegments(comps[1..], false)
  {
  }

  /** Stripping leading separators from joined normal components gives the
      relative form. */
  lemma {:induction false} StripJoinRelative(comps: seq<string>)
    requires NormalSegments(comps, false)
    ensures RelativeForm(StripLeading(JoinWith(comps, "/")))
    decreases |comps|
  {
    if comps == [] {
    } else if !IsStripChar(comps[0][0]) {
      StripJoinPlain(comps);
    } else if StripLeading(comps[0]) != [] {
      StripJoinHead(comps);
    } else if |comps| > 1 {
      StripJoinSkip(comps);
      NormalTail(comps);
      StripJoinRelative(comps[1..]);
    } else {
      assert JoinWith(comps, "/") == comps[0];
    }
  }

  /** `normpath(p).lstrip('/\\')` is in relative form, whatever `p`. */
  lemma RequestedPathForm(path: string)
    ensures RelativeForm(StripLeading(NormPath(path)))
  {
    NormPathShape(path);
    if NormPath(path) == "." {
      DotRelative();
    } else {
      var k := InitialSlashes(path);
      var comps := NormComponents(path);
      NormComponentsNormal(path);
      SlashedJoinRelative(k, comps);
    }
  }

  lemma DotRelative()
    ensures RelativeForm(StripLeading("."))
  {
    assert JoinWith(["."], "/") == ".";
    JoinThenSplit(["."], '/');
  }

  lemma SlashedJoinRelative(k: nat, comps: seq<string>)
    requires NormalSegments(comps, k > 0)
    ensures RelativeForm(StripLeading(Slashes(k) + JoinWith(comps, "/")))
  {
    StripLeadingSlashes(k);
    StripLeadingAppend(Slashes(k), JoinWith(comps, "/"));
    StripJoinRelative(comps);
  }

  /** The relative path that is joined onto the root, for every target. */
  lemma RequestedPathIsRelative(target: string, utf8: seq<byte> -> string)
    ensures RelativeForm(RequestedPath(target, utf8))
  {
    RequestedPathForm(Unquote(target, utf8));
  }

  // ----- Traversal examples -----

  lemma {:induction false} NormFoldAppend(a: seq<string>, b: seq<string>, absolute: bool, acc: seq<string>)
    ensures NormFold(a + b, absolute, acc) == NormFold(b, absolute, NormFold(a, absolute, acc))
    decreases |a|
  {
    if a != [] {
      assert (a + b)[1..] == a[1..] + b;
      NormFoldAppend(a[1..], b, absolute, NormStep(acc, a[0], absolute));
    } else {
      assert a + b == b;
    }
  }

  /** Child segments are all kept. */
  lemma {:induction false} NormFoldChildren(segs: seq<string>, absolute: bool, acc: seq<string>)
    requires ValidRoot(segs)
    ensures NormFold(segs, absolute, acc) == acc + segs
    decreases |segs|
  {
    if segs != [] {
      assert ValidSegment(segs[0]);
      NormFoldChildren(segs[1..], absolute, acc + [segs[0]]);
      assert acc + [segs[0]] + segs[1..] == acc + segs;
    }
  }

  lemma NormFoldCons(c: string, rest: seq<string>, absolute: bool, acc: seq<string>)
    ensures NormFold([c] + rest, absolute, acc) == NormFold(rest, absolute, NormStep(acc, c, absolute))
  {
    assert ([c] + rest)[1..] == rest;
  }

  lemma SplitOfJoin(xs: seq<string>, s: string)
    requires |xs| >= 1 && forall k :: 0 <= k < |xs| ==> '/' !in xs[k]
    requires JoinWith(xs, "/") == s
    ensures Split(s, "/") == xs
  {
    JoinThenSplit(xs, '/');
  }

  lemma JoinTwo(a: string, b: string)
    ensures JoinWith([a, b], "/") == a + "/" + b
  {
    assert [a, b][1..] == [b];
  }

  lemma ParentOfTopSplit(x: string)
    requires ValidSegment(x)
    ensures Split("/../" + x, "/") == ["", "..", x]
  {
    var xs := ["", "..", x];
    JoinWithPrepend("", ["..", x], "/");
    assert xs == [""] + ["..", x];
    JoinTwo("..", x);
    assert "" + ("/" + (".." + "/" + x)) == "/../" + x;
    SplitOfJoin(xs, "/../" + x);
  }

  lemma ParentOfTopNorm(x: string)
    requires ValidSegment(x)
    ensures NormPath("/../" + x) == "/" + x
  {
    var p := "/../" + x;
    ParentOfTopSplit(x);
    assert InitialSlashes(p) == 1 by {
      assert p[0] == '/' && p[1] == '.';
    }
    assert ["", "..", x] == [""] + ([".."] + ([x] + []));
    NormFoldCons("", [".."] + ([x] + []), true, []);
    NormFoldCons("..", [x] + [], true, []);
    NormFoldCons(x, [], true, []);
    assert NormComponents(p) == [x];
  }

  /** A `..` above the top of an absolute target is dropped: `/../x`
      is requested as `x`. */
  lemma ParentOfTopDropped(x: string, utf8: seq<byte> -> string)
    requires ValidSegment(x) && x[0] != '\\' && '%' !in x
    ensures RequestedPath("/../" + x, utf8) == x
  {
    assert '%' !in "/../" + x;
    ParentOfTopNorm(x);
    StripLeadingAppend("/", x);
  }

  /** The target `/` is requested as the empty path, which joins to the
      root itself. */
  lemma TopIsEmpty(utf8: seq<byte> -> string)
    ensures RequestedPath("/", utf8) == ""
  {
  }

  /** `\` is not a separator, so a segment `\.` survives normalisation and
      loses its `\` only afterwards: `\./x` is requested as `./x`, whose
      first segment is `.`. */
  lemma DotAfterBackslash(x: string, utf8: seq<byte> -> string)
    requires ValidSegment(x) && '%' !in x
    ensures RequestedPath("\\./" + x, utf8) == "./" + x
  {
    var t := "\\./" + x;
    assert '%' !in t;
    BackslashDotNorm(x);
    BackslashDotStrip(x);
  }

  lemma BackslashDotNorm(x: string)
    requires ValidSegment(x)
    ensures NormPath("\\./" + x) == "\\./" + x
  {
    var t := "\\./" + x;
    JoinTwo("\\.", x);
    assert "\\." + "/" + x == t;
    SplitOfJoin(["\\.", x], t);
    assert InitialSlashes(t) == 0;
    assert ["\\.", x] == ["\\."] + ([x] + []);
    NormFoldCons("\\.", [x] + [], false, []);
    NormFoldCons(x, [], false, ["\\."]);
    assert NormComponents(t) == ["\\.", x];
  }

  lemma BackslashDotStrip(x: string)
    ensures StripLeading("\\./" + x) == "./" + x
  {
    assert StripLeading("\\.") == ".";
    StripLeadingAppend("\\.", "/" + x);
    assert "\\./" + x == "\\." + ("/" + x);
    assert "." + ("/" + x) == "./" + x;
  }

  lemma ClimbSplit(x: string)
    requires ValidSegment(x)
    ensures Split("a/../../" + x, "/") == ["a", "..", "..", x]
  {
    JoinTwo("..", x);
    JoinWithPrepend("..", ["..", x], "/");
    JoinWithPrepend("a", ["..", "..", x], "/");
    assert ["a", "..", "..", x] == ["a"] + ["..", "..", x];
    assert ["..", "..", x] == [".."] + ["..", x];
    assert "a" + ("/" + (".." + ("/" + (".." + "/" + x)))) == "a/../../" + x;
    SplitOfJoin(["a", "..", "..", x], "a/../../" + x);
  }

  /** `a/../../x` normalises to `../x`. */
  lemma ClimbRequested(x: string, utf8: seq<byte> -> string)
    requires ValidSegment(x) && '%' !in x
    ensures RequestedPath("a/../../" + x, utf8) == "../" + x
  {
    var t := "a/../../" + x;
    assert '%' !in t;
    ClimbSplit(x);
    assert InitialSlashes(t) == 0;
    assert ["a", "..", "..", x] == ["a"] + ([".."] + ([".."] + ([x] + [])));
    NormFoldCons("a", [".."] + ([".."] + ([x] + [])), false, []);
    NormFoldCons("..", [".."] + ([x] + []), false, ["a"]);
    NormFoldCons("..", [x] + [], false, []);
    NormFoldCons(x, [], false, [".."]);
    assert NormComponents(t) == ["..", x];
    JoinTwo("..", x);
    assert NormPath(t) == "../" + x;
  }

  lemma RootTextLast(rootSegs: seq<string>)
    requires |rootSegs| >= 1 && ValidRoot(rootSegs)
    ensures RootText(rootSegs)[|RootText(rootSegs)| - 1] != '/'
  {
    var n := |rootSegs|;
    assert ValidSegment(rootSegs[n - 1]);
    if n > 1 {
      JoinWithAppend(rootSegs[..n - 1], [rootSegs[n - 1]], "/");
      assert rootSegs[..n - 1] + [rootSegs[n - 1]] == rootSegs;
    }
  }

  lemma ClimbOutSplit(rootSegs: seq<string>, x: string)
    requires |rootSegs| >= 1 && ValidRoot(rootSegs) && ValidSegment(x)
    ensures Split(RootText(rootSegs) + "/" + ("../" + x), "/") == [""] + rootSegs + ["..", x]
  {
    var xs := [""] + rootSegs + ["..", x];
    JoinWithAppend([""] + rootSegs, ["..", x], "/");
    JoinAfterEmpty(rootSegs);
    JoinTwo("..", x);
    assert JoinWith(xs, "/") == RootText(rootSegs) + "/" + ("../" + x);
    forall k | 0 <= k < |xs|
      ensures '/' !in xs[k]
    {
      if 1 <= k <= |rootSegs| {
        assert xs[k] == rootSegs[k - 1];
        assert ValidSegment(rootSegs[k - 1]);
      }
    }
    SplitOfJoin(xs, RootText(rootSegs) + "/" + ("../" + x));
  }

  lemma RootTextInitial(rootSegs: seq<string>, tail: string)
    requires |rootSegs| >= 1 && ValidRoot(rootSegs)
    ensures InitialSlashes(RootText(rootSegs) + tail) == 1
  {
    var full := RootText(rootSegs) + tail;
    assert ValidSegment(rootSegs[0]);
    if |rootSegs| > 1 {
      JoinWithPrepend(rootSegs[0], rootSegs[1..], "/");
      assert [rootSegs[0]] + rootSegs[1..] == rootSegs;
    }
    assert full[1] == rootSegs[0][0];
  }

  lemma RootFold(rootSegs: seq<string>)
    requires ValidRoot(rootSegs)
    ensures NormFold([""] + rootSegs, true, []) == rootSegs
  {
    NormFoldCons("", rootSegs, true, []);
    NormFoldChildren(rootSegs, true, []);
    assert [] + rootSegs == rootSegs;
  }

  lemma ClimbStepFold(kept: seq<string>, x: string)
    requires |kept| >= 1 && kept[|kept| - 1] != ".." && ValidSegment(x)
    ensures NormFold(["..", x], true, kept) == kept[..|kept| - 1] + [x]
  {
    assert ["..", x] == [".."] + ([x] + []);
    NormFoldCons("..", [x] + [], true, kept);
    NormFoldCons(x, [], true, kept[..|kept| - 1]);
  }

  lemma ClimbOutFold(rootSegs: seq<string>, x: string)
    requires |rootSegs| >= 1 && ValidRoot(rootSegs) && ValidSegment(x)
    ensures NormFold([""] + rootSegs + ["..", x], true, []) == rootSegs[..|rootSegs| - 1] + [x]
  {
    NormFoldAppend([""] + rootSegs, ["..", x], true, []);
    RootFold(rootSegs);
    assert ValidSegment(rootSegs[|rootSegs| - 1]);
    ClimbStepFold(rootSegs, x);
  }

  lemma ClimbOutComponents(rootSegs: seq<string>, x: string)
    requires |rootSegs| >= 1 && ValidRoot(rootSegs) && ValidSegment(x)
    ensures var full := RootText(rootSegs) + "/" + ("../" + x);
      IsAbsolute(full) && NormComponents(full) == rootSegs[..|rootSegs| - 1] + [x]
  {
    var tail := "/" + ("../" + x);
    assert RootText(rootSegs) + "/" + ("../" + x) == RootText(rootSegs) + tail;
    ClimbOutSplit(rootSegs, x);
    RootTextInitial(rootSegs, tail);
    ClimbOutFold(rootSegs, x);
  }

  /** A relative target that climbs one level above where it starts,
      `a/../../x`, comes out one level above the root and is rejected,
      unless `x` is the root's own last segment. */
  lemma ClimbOutRejected(rootSegs: seq<string>, x: string, utf8: seq<byte> -> string)
    requires |rootSegs| >= 1 && ValidRoot(rootSegs)
    requires ValidSegment(x) && '%' !in x && x != rootSegs[|rootSegs| - 1]
    ensures var full := FullPath(RootText(rootSegs), "a/../../" + x, utf8);
      IsAbsolute(full) && !Contained(full, RootText(rootSegs))
  {
    var n := |rootSegs|;
    var full := RootText(rootSegs) + "/" + ("../" + x);
    ClimbRequested(x, utf8);
    RootTextLast(rootSegs);
    assert FullPath(RootText(rootSegs), "a/../../" + x, utf8) == full;
    ClimbOutComponents(rootSegs, x);
    NormPathAbsoluteSegments(full);
    ContainedIff(full, rootSegs);
    var segs := rootSegs[..n - 1] + [x];
    assert segs[n - 1] != rootSegs[n - 1];
  }
}
