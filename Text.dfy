/** The handful of Python `str`/`bytes` operations the server relies on:
    substring search (`in`, `find`), `split(sep)`, `sep.join`, `strip()`,
    `split()` with no argument, and `str(n)` for a natural number. */
module Text {
  import opened Wrappers

  /** `pat` occurs in `s` starting at index `j`. */
  predicate OccursAt<T(==)>(s: seq<T>, pat: seq<T>, j: int) {
    0 <= j && j + |pat| <= |s| && s[j..j + |pat|] == pat
  }

  /** `pat` occurs nowhere in `s`. */
  ghost predicate Free<T>(s: seq<T>, pat: seq<T>) {
    forall j :: !OccursAt(s, pat, j)
  }

  /** Index of the leftmost occurrence of `pat` in `s` (`s.find(pat)`),
      `None` when there is none (`pat in s` is false). */
  function FindFirst<T(==)>(s: seq<T>, pat: seq<T>): (r: Option<nat>)
    requires |pat| > 0
    ensures r.Some? ==> OccursAt(s, pat, r.value)
    ensures forall j :: (r.None? || j < r.value) ==> !OccursAt(s, pat, j)
    decreases |s|
  {
    if |s| < |pat| then None
    else if s[..|pat|] == pat then Some(0)
    else
      var rest := FindFirst(s[1..], pat);
      assert forall j :: 1 <= j ==> (OccursAt(s, pat, j) <==> OccursAt(s[1..], pat, j - 1)) by {
        forall j | 1 <= j ensures OccursAt(s, pat, j) <==> OccursAt(s[1..], pat, j - 1) {
          OccursShift(s, pat, j - 1);
        }
      }
      assert !OccursAt(s, pat, 0);
      match rest
      case None => None
      case Some(k) => Some(k + 1)
  }

  lemma OccursShift<T>(s: seq<T>, pat: seq<T>, j: nat)
    requires |s| >= 1
    ensures OccursAt(s, pat, j + 1) <==> OccursAt(s[1..], pat, j)
  {
    if j + 1 + |pat| <= |s| {
      var a, b := s[j + 1..j + 1 + |pat|], s[1..][j..j + |pat|];
      assert |a| == |b|;
      forall k | 0 <= k < |a| ensures a[k] == b[k] {
        assert a[k] == s[j + 1 + k];
        assert b[k] == s[1..][j + k];
      }
    }
  }

  /** `s.split(sep)`: the pieces between the occurrences of `sep`, found left
      to right without overlap. Never empty: `"".split(sep) == [""]`. */
  function Split<T(==)>(s: seq<T>, sep: seq<T>): (r: seq<seq<T>>)
    requires |sep| > 0
    ensures |r| >= 1
    decreases |s|
  {
    match FindFirst(s, sep)
    case None => [s]
    case Some(i) => [s[..i]] + Split(s[i + |sep|..], sep)
  }

  /** `sep.join(xs)`. */
  function JoinWith<T>(xs: seq<seq<T>>, sep: seq<T>): seq<T> {
    if |xs| == 0 then []
    else if |xs| == 1 then xs[0]
    else xs[0] + sep + JoinWith(xs[1..], sep)
  }

  /** Joining the pieces of a split with the separator gives back the input. */
  lemma {:induction false} SplitThenJoin<T>(s: seq<T>, sep: seq<T>)
    requires |sep| > 0
    ensures JoinWith(Split(s, sep), sep) == s
    decreases |s|
  {
    match FindFirst(s, sep)
    case None =>
    case Some(i) =>
      var rest := s[i + |sep|..];
      var tail := Split(rest, sep);
      SplitThenJoin(rest, sep);
      JoinWithPrepend(s[..i], tail, sep);
      SliceAround(s, sep, i);
  }

  lemma JoinWithPrepend<T>(a: seq<T>, xs: seq<seq<T>>, sep: seq<T>)
    requires |xs| >= 1
    ensures JoinWith([a] + xs, sep) == a + (sep + JoinWith(xs, sep))
  {
    assert ([a] + xs)[1..] == xs;
  }

  lemma SliceAround<T>(s: seq<T>, pat: seq<T>, i: int)
    requires OccursAt(s, pat, i)
    ensures s == s[..i] + (pat + s[i + |pat|..])
  {
    assert s == s[..i] + s[i..i + |pat|] + s[i + |pat|..];
  }

  /** No piece of a split contains the separator. */
  lemma {:induction false} SplitPiecesFree<T>(s: seq<T>, sep: seq<T>)
    requires |sep| > 0
    ensures forall k :: 0 <= k < |Split(s, sep)| ==> Free(Split(s, sep)[k], sep)
    decreases |s|
  {
    match FindFirst(s, sep)
    case None =>
    case Some(i) =>
      var rest := s[i + |sep|..];
      SplitPiecesFree(rest, sep);
      forall j | OccursAt(s[..i], sep, j) ensures false {
        assert s[..i][j..j + |sep|] == s[j..j + |sep|];
        assert OccursAt(s, sep, j);
      }
      assert Split(s, sep) == [s[..i]] + Split(rest, sep);
  }

  /** A piece without the separator's first element is split off whole. */
  lemma SplitNoSep<T>(a: seq<T>, sep: seq<T>)
    requires |sep| > 0 && sep[0] !in a
    ensures Split(a, sep) == [a]
  {
    forall j ensures !OccursAt(a, sep, j) {
      if 0 <= j && j + |sep| <= |a| {
        assert a[j..j + |sep|][0] == a[j];
      }
    }
  }

  lemma SplitFirstPiece<T>(a: seq<T>, sep: seq<T>, t: seq<T>)
    requires |sep| > 0 && sep[0] !in a
    ensures Split(a + sep + t, sep) == [a] + Split(t, sep)
  {
    var s := a + sep + t;
    assert OccursAt(s, sep, |a|) by { assert s[|a|..|a| + |sep|] == sep; }
    forall j | 0 <= j < |a| ensures !OccursAt(s, sep, j) {
      assert s[j..j + |sep|][0] == a[j];
    }
    assert FindFirst(s, sep) == Some(|a|);
    assert s[..|a|] == a;
    assert s[|a| + |sep|..] == t;
  }

  /** Splitting a join gives back the pieces when none of them contains the
      separator's first element. */
  lemma {:induction false} JoinThenSplitSep<T>(xs: seq<seq<T>>, sep: seq<T>)
    requires |xs| >= 1 && |sep| > 0
    requires forall k :: 0 <= k < |xs| ==> sep[0] !in xs[k]
    ensures Split(JoinWith(xs, sep), sep) == xs
    decreases |xs|
  {
    if |xs| == 1 {
      SplitNoSep(xs[0], sep);
    } else {
      SplitFirstPiece(xs[0], sep, JoinWith(xs[1..], sep));
      JoinThenSplitSep(xs[1..], sep);
    }
  }

  /** With a one-element separator: no piece may contain it. */
  lemma JoinThenSplit<T>(xs: seq<seq<T>>, c: T)
    requires |xs| >= 1
    requires forall k :: 0 <= k < |xs| ==> c !in xs[k]
    ensures Split(JoinWith(xs, [c]), [c]) == xs
  {
    JoinThenSplitSep(xs, [c]);
  }

  /** Python's `str.isspace()` for one character: the characters `str.strip()`
      and `str.split()` treat as whitespace. */
  predicate IsSpace(c: char) {
    || ('\t' <= c <= '\r')
    || ('\U{1C}' <= c <= ' ')
    || c == '\U{85}' || c == '\U{A0}' || c == '\U{1680}'
    || ('\U{2000}' <= c <= '\U{200A}')
    || c == '\U{2028}' || c == '\U{2029}' || c == '\U{202F}' || c == '\U{205F}' || c == '\U{3000}'
  }

  predicate AllSpace(s: string) {
    forall i :: 0 <= i < |s| ==> IsSpace(s[i])
  }

  predicate NoSpace(s: string) {
    forall i :: 0 <= i < |s| ==> !IsSpace(s[i])
  }

  /** Neither starts nor ends with whitespace, as a field name or value
      after `strip()`. */
  predicate Trimmed(s: string) {
    s == [] || (!IsSpace(s[0]) && !IsSpace(s[|s| - 1]))
  }

  /** `s.lstrip()`. */
  function TrimStart(s: string): (r: string)
    ensures |r| <= |s| && r == s[|s| - |r|..]
    ensures AllSpace(s[..|s| - |r|])
    ensures r == [] || !IsSpace(r[0])
    decreases |s|
  {
    if s != [] && IsSpace(s[0]) then TrimStart(s[1..]) else s
  }

  /** `s.rstrip()`. */
  function TrimEnd(s: string): (r: string)
    ensures |r| <= |s| && r == s[..|r|]
    ensures AllSpace(s[|r|..])
    ensures r == [] || !IsSpace(r[|r| - 1])
    decreases |s|
  {
    if s != [] && IsSpace(s[|s| - 1]) then
      var r := TrimEnd(s[..|s| - 1]);
      assert s[|r|..] == s[..|s| - 1][|r|..] + [s[|s| - 1]];
      r
    else s
  }

  /** `r` is `s` with the whitespace run `s[..i]` in front of it and a
      whitespace run behind it. */
  predicate StrippedAt(s: string, r: string, i: int) {
    0 <= i && i + |r| <= |s| && r == s[i..i + |r|] && AllSpace(s[..i]) && AllSpace(s[i + |r|..])
  }

  /** `s.strip()`: the middle of `s` with leading and trailing whitespace
      removed, itself neither starting nor ending with whitespace. */
  function Strip(s: string): string
    decreases |s|
  {
    if s != [] && IsSpace(s[0]) then Strip(s[1..]) else TrimEnd(s)
  }

  /** `strip()` is `lstrip()` followed by `rstrip()`. */
  lemma {:induction false} StripIsBothTrims(s: string)
    ensures Strip(s) == TrimEnd(TrimStart(s))
    decreases |s|
  {
    if s != [] && IsSpace(s[0]) {
      StripIsBothTrims(s[1..]);
    }
  }

  /** What `strip()` leaves: the middle of `s` with leading and trailing
      whitespace removed, itself neither starting nor ending with
      whitespace. */
  lemma StripIsTrim(s: string)
    ensures exists i :: StrippedAt(s, Strip(s), i)
    ensures Trimmed(Strip(s))
  {
    StripStrippedAt(s);
    StripIsBothTrims(s);
    TrimsEnds(s);
  }

  lemma {:induction false} StripStrippedAt(s: string)
    ensures StrippedAt(s, Strip(s), |s| - |TrimStart(s)|)
    decreases |s|
  {
    if s != [] && IsSpace(s[0]) {
      StripStrippedAt(s[1..]);
      StrippedCons(s, Strip(s[1..]), |s| - 1 - |TrimStart(s[1..])|);
    } else {
      TrimEndStripped(s);
    }
  }

  lemma StrippedCons(s: string, r: string, i: int)
    requires |s| >= 1 && IsSpace(s[0]) && StrippedAt(s[1..], r, i)
    ensures StrippedAt(s, r, i + 1)
  {
    assert s[i + 1..i + 1 + |r|] == s[1..][i..i + |r|];
    assert s[i + 1 + |r|..] == s[1..][i + |r|..];
    assert s[..i + 1] == [s[0]] + s[1..][..i];
  }

  lemma TrimEndStripped(s: string)
    ensures StrippedAt(s, TrimEnd(s), 0)
  {
    assert s[..0] == [];
  }

  lemma TrimsEnds(s: string)
    ensures Trimmed(TrimEnd(TrimStart(s)))
  {
    var t := TrimStart(s);
    var r := TrimEnd(t);
    if r != [] {
      assert r[0] == t[0];
    }
  }

  /** Length of the leading run of non-whitespace characters of `s`. */
  function WordLength(s: string): (n: nat)
    ensures n <= |s|
    ensures NoSpace(s[..n])
    ensures n == |s| || IsSpace(s[n])
    decreases |s|
  {
    if s == [] || IsSpace(s[0]) then 0 else 1 + WordLength(s[1..])
  }

  /** `s.split()` with no argument: the maximal runs of non-whitespace
      characters, in order; `[]` for an empty or all-blank `s`. */
  function Tokens(s: string): (ts: seq<string>)
    decreases |s|
  {
    if s == [] then []
    else if IsSpace(s[0]) then Tokens(s[1..])
    else
      var n := WordLength(s);
      [s[..n]] + Tokens(s[n..])
  }

  /** Every token is a non-empty run without whitespace. */
  lemma {:induction false} TokensAreWords(s: string)
    ensures forall k :: 0 <= k < |Tokens(s)| ==> Tokens(s)[k] != [] && NoSpace(Tokens(s)[k])
    decreases |s|
  {
    if s != [] {
      if IsSpace(s[0]) {
        TokensAreWords(s[1..]);
      } else {
        TokensAreWords(s[WordLength(s)..]);
      }
    }
  }

  /** Whitespace in front of a string changes nothing about its tokens. */
  lemma {:induction false} TokensSkipSpace(pad: string, s: string)
    requires AllSpace(pad)
    ensures Tokens(pad + s) == Tokens(s)
    decreases |pad|
  {
    if pad == [] {
      assert pad + s == s;
    } else {
      assert (pad + s)[0] == pad[0];
      assert (pad + s)[1..] == pad[1..] + s;
      TokensSkipSpace(pad[1..], s);
    }
  }

  /** A word followed by nothing or by whitespace is the first token. */
  lemma TokensOfWord(a: string, rest: string)
    requires a != [] && NoSpace(a)
    requires rest == [] || IsSpace(rest[0])
    ensures Tokens(a + rest) == [a] + Tokens(rest)
  {
    var s := a + rest;
    assert s[0] == a[0];
    WordLengthOfWord(a, rest);
    assert s[..|a|] == a;
    assert s[|a|..] == rest;
  }

  lemma TokensOfJoinStep(a: string, rest: string)
    requires a != [] && NoSpace(a)
    ensures Tokens(a + (" " + rest)) == [a] + Tokens(rest)
  {
    TokensOfWord(a, " " + rest);
    TokensSkipSpace(" ", rest);
  }

  lemma JoinWithCons<T>(xs: seq<seq<T>>, sep: seq<T>)
    requires |xs| > 1
    ensures JoinWith(xs, sep) == xs[0] + (sep + JoinWith(xs[1..], sep))
  {
  }

  /** Joining two non-empty lists puts one separator between their joins. */
  lemma {:induction false} JoinWithAppend<T>(a: seq<seq<T>>, b: seq<seq<T>>, sep: seq<T>)
    requires |a| >= 1 && |b| >= 1
    ensures JoinWith(a + b, sep) == JoinWith(a, sep) + (sep + JoinWith(b, sep))
    decreases |a|
  {
    assert a + b == [a[0]] + (a[1..] + b);
    JoinWithPrepend(a[0], a[1..] + b, sep);
    if |a| > 1 {
      JoinWithAppend(a[1..], b, sep);
      JoinWithCons(a, sep);
    }
  }

  /** Tokens without whitespace, each non-empty. */
  predicate Words(ts: seq<string>) {
    forall k :: 0 <= k < |ts| ==> ts[k] != [] && NoSpace(ts[k])
  }

  /** `" ".join(ts).split() == ts` for non-empty tokens free of whitespace. */
  lemma {:induction false} TokensOfJoin(ts: seq<string>)
    requires Words(ts)
    ensures Tokens(JoinWith(ts, " ")) == ts
    decreases |ts|
  {
    if |ts| == 1 {
      TokensOfWord(ts[0], []);
      assert ts[0] + [] == ts[0];
    } else if |ts| > 1 {
      var tail := ts[1..];
      JoinWithCons(ts, " ");
      TokensOfJoinStep(ts[0], JoinWith(tail, " "));
      assert Words(tail);
      TokensOfJoin(tail);
      assert ts == [ts[0]] + tail;
    }
  }

  lemma {:induction false} WordLengthOfWord(a: string, tail: string)
    requires NoSpace(a)
    requires tail == [] || IsSpace(tail[0])
    ensures WordLength(a + tail) == |a|
    decreases |a|
  {
    if a != [] {
      assert (a + tail)[1..] == a[1..] + tail;
      WordLengthOfWord(a[1..], tail);
    }
  }

  predicate IsDigit(c: char) {
    '0' <= c <= '9'
  }

  predicate IsDigits(s: string) {
    forall i :: 0 <= i < |s| ==> IsDigit(s[i])
  }

  function DigitChar(d: nat): (c: char)
    requires d < 10
    ensures IsDigit(c) && c as int - '0' as int == d
  {
    ('0' as int + d) as char
  }

  /** `str(n)` for a natural number: decimal digits without leading zeros. */
  function Decimal(n: nat): (s: string)
    ensures |s| >= 1 && IsDigits(s)
    ensures s[0] == '0' ==> s == "0"
    decreases n
  {
    if n < 10 then [DigitChar(n)] else Decimal(n / 10) + [DigitChar(n % 10)]
  }

  /** The number a string of decimal digits denotes. */
  function DigitsValue(s: string): nat
    requires IsDigits(s)
  {
    if s == [] then 0 else DigitsValue(s[..|s| - 1]) * 10 + (s[|s| - 1] as int - '0' as int)
  }

  /** Reads a decimal field value such as a `Content-Length`. */
  function ParseDecimal(s: string): Option<nat> {
    if s != [] && IsDigits(s) then Some(DigitsValue(s)) else None
  }

  /** Reading back a number written by `Decimal` gives the number. */
  lemma {:induction false} DecimalRoundTrip(n: nat)
    ensures ParseDecimal(Decimal(n)) == Some(n)
    decreases n
  {
    if n >= 10 {
      DecimalRoundTrip(n / 10);
      var s := Decimal(n);
      assert s[..|s| - 1] == Decimal(n / 10);
      assert s[|s| - 1] as int - '0' as int == n % 10;
      assert DigitsValue(s) == DigitsValue(Decimal(n / 10)) * 10 + n % 10;
    }
  }
}
