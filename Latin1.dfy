/** ISO-8859-1, the single-byte text encoding the server uses in both
    directions: every byte 0..255 is the character with the same code. */
module Latin1 {

  /** An octet. */
  newtype byte = x: int | 0 <= x < 256

  /** Characters that ISO-8859-1 can encode. */
  predicate IsLatin1(s: string) {
    forall i :: 0 <= i < |s| ==> s[i] as int < 256
  }

  /** Characters below 128; for these UTF-8 and ISO-8859-1 give the same bytes. */
  predicate IsAscii(s: string) {
    forall i :: 0 <= i < |s| ==> s[i] as int < 128
  }

  /** `bytes.decode('iso-8859-1')`: never fails, one character per byte. */
  function Decode(b: seq<byte>): (s: string)
    ensures |s| == |b|
    ensures forall i :: 0 <= i < |b| ==> s[i] as int == b[i] as int
    ensures IsLatin1(s)
  {
    seq(|b|, i requires 0 <= i < |b| => (b[i] as int) as char)
  }

  /** `str.encode('iso-8859-1')` for text it can encode (the caller checks
      `IsLatin1`; the server raises otherwise). */
  function Encode(s: string): (b: seq<byte>)
    requires IsLatin1(s)
    ensures |b| == |s|
    ensures forall i :: 0 <= i < |s| ==> b[i] as int == s[i] as int
  {
    seq(|s|, i requires 0 <= i < |s| => (s[i] as int) as byte)
  }

  lemma DecodeEncode(b: seq<byte>)
    ensures Encode(Decode(b)) == b
  {
    var r := Encode(Decode(b));
    assert forall i :: 0 <= i < |b| ==> r[i] as int == b[i] as int;
  }

  lemma EncodeDecode(s: string)
    requires IsLatin1(s)
    ensures Decode(Encode(s)) == s
  {
    var r := Decode(Encode(s));
    assert forall i :: 0 <= i < |s| ==> r[i] as int == s[i] as int;
  }

  lemma EncodeAppend(a: string, b: string)
    requires IsLatin1(a) && IsLatin1(b)
    ensures IsLatin1(a + b)
    ensures Encode(a + b) == Encode(a) + Encode(b)
  {
    var l, r := Encode(a + b), Encode(a) + Encode(b);
    assert |l| == |r|;
    forall i | 0 <= i < |l| ensures l[i] == r[i] {
      if i < |a| { assert (a + b)[i] == a[i]; } else { assert (a + b)[i] == b[i - |a|]; }
    }
  }

  lemma AsciiIsLatin1(s: string)
    requires IsAscii(s)
    ensures IsLatin1(s)
  {
  }

  /** A text is encodable exactly when both its parts are. */
  lemma Latin1Append(a: string, b: string)
    ensures IsLatin1(a + b) <==> IsLatin1(a) && IsLatin1(b)
  {
    if IsLatin1(a + b) {
      forall i | 0 <= i < |a|
        ensures a[i] as int < 256
      {
        assert (a + b)[i] == a[i];
      }
      forall i | 0 <= i < |b|
        ensures b[i] as int < 256
      {
        assert (a + b)[|a| + i] == b[i];
      }
    }
    if IsLatin1(a) && IsLatin1(b) {
      forall i | 0 <= i < |a + b|
        ensures (a + b)[i] as int < 256
      {
        if i >= |a| {
          assert (a + b)[i] == b[i - |a|];
        }
      }
    }
  }
}
