/** UTF-16, and transcoding between it and UTF-8. */
module Utf16 {
  import opened Bytes
  import StringRoundTrip
  import Utf8

  type unit = x: int | 0 <= x < 0x10000

  /** `UTF16::Encode`. */
  function Encode(cp: nat): (t: seq<unit>)
    requires Utf8.Scalar(cp)
    ensures 1 <= |t| <= 2
  {
    if cp <= 0xFFFF then [cp]
    else
      var v := cp - 0x10000;
      [v / 0x400 + 0xD800, v % 0x400 + 0xDC00]
  }

  /** Section 2.1 of RFC 2781: a high and a low surrogate hold ten bits each of the value less 0x10000. */
  lemma PairFormula(cp: nat)
    requires Utf8.Scalar(cp)
    ensures cp <= 0xFFFF ==> Encode(cp) == [cp]
    ensures cp > 0xFFFF ==>
      var t := Encode(cp);
      && |t| == 2 && 0xD800 <= t[0] <= 0xDBFF && 0xDC00 <= t[1] <= 0xDFFF
      && (t[0] as int - 0xD800) * 0x400 + (t[1] as int - 0xDC00) + 0x10000 == cp
  {
  }

  function Peek(s: seq<unit>, p: nat): unit {
    if p < |s| then s[p] else 0
  }

  datatype Decoded = Decoded(ok: bool, cp: nat, length: nat)

  /** `UTF16::Decode`: a high surrogate takes the next unit with it, whatever that is. */
  function Decode(s: seq<unit>, p: nat): (r: Decoded)
    requires p < |s|
    ensures r.length >= 1
    ensures r.ok ==> p + r.length <= |s| && Utf8.Scalar(r.cp)
  {
    var c := s[p];
    if c < 0xD800 || c > 0xDFFF then Decoded(true, c, 1)
    else if c <= 0xDBFF then
      var d := Peek(s, p + 1);
      Decoded(0xDC00 <= d <= 0xDFFF, c % 0x400 * 0x400 + d % 0x400 + 0x10000, 2)
    else Decoded(false, 0, 1)
  }

  /** Decoding undoes encoding. */
  lemma DecodeEncode(s: seq<unit>, p: nat, cp: nat)
    requires Utf8.Scalar(cp) && p + |Encode(cp)| <= |s| && s[p..p + |Encode(cp)|] == Encode(cp)
    ensures Decode(s, p) == Decoded(true, cp, |Encode(cp)|)
  {
    var t := s[p..p + |Encode(cp)|];
    assert t[0] == s[p];
    if cp > 0xFFFF {
      assert t[1] == s[p + 1];
    }
  }

  /** What decodes is the encoding of what it decodes to. */
  lemma EncodeDecode(s: seq<unit>, p: nat)
    requires p < |s| && Decode(s, p).ok
    ensures Encode(Decode(s, p).cp) == s[p..p + Decode(s, p).length]
  {
    var d := Decode(s, p);
    if d.length == 2 {
      assert s[p..p + 2] == [s[p], s[p + 1]];
    }
  }

  /** `Transcoder<UTF8, UTF16>::Transcode` to the end of a text. */
  function FromUtf8(t: Text, p: nat): Option<seq<unit>>
    requires p <= |t|
    decreases |t| - p
  {
    if p == |t| then Some([])
    else if Utf8.Decode(t, p).None? then None
    else
      Utf8.EncodeDecode(t, p);
      match FromUtf8(t, p + Utf8.Validate(t, p).length)
      case None => None
      case Some(rest) => Some(Encode(Utf8.Decode(t, p).value) + rest)
  }

  /** `Transcoder<UTF16, UTF8>::Transcode` to the end of a text. */
  function ToUtf8(s: seq<unit>, p: nat): Option<Text>
    requires p <= |s|
    decreases |s| - p
  {
    if p == |s| then Some([])
    else if !Decode(s, p).ok then None
    else
      match ToUtf8(s, p + Decode(s, p).length)
      case None => None
      case Some(rest) => Some(Utf8.Encode(Decode(s, p).cp) + rest)
  }

  /** Exactly the valid UTF-8 texts can be transcoded. */
  lemma {:induction false} FromUtf8Iff(t: Text, p: nat)
    requires p <= |t|
    ensures FromUtf8(t, p).Some? <==> Utf8.ValidText(t[p..])
    decreases |t| - p
  {
    hide Utf8.Validate, Utf8.ValidText;
    if p == |t| {
      assert t[p..] == [];
      StringRoundTrip.EmptyValid();
    } else {
      StringRoundTrip.ValidGreedy(t, p);
      if Utf8.Decode(t, p).Some? {
        FromUtf8Iff(t, p + Utf8.Validate(t, p).length);
      }
    }
  }

  /** Transcoding there and back restores the bytes. */
  lemma {:induction false} ThereAndBack(t: Text, p: nat, s: seq<unit>, q: nat)
    requires p <= |t| && q <= |s| && FromUtf8(t, p) == Some(s[q..])
    ensures ToUtf8(s, q) == Some(t[p..])
    decreases |t| - p
  {
    hide Utf8.Validate, Utf8.Encode, Utf8.Accumulate, Encode, Decode;
    if p == |t| {
      assert s[q..] == [] && t[p..] == [];
    } else {
      var cp := Utf8.Decode(t, p).value;
      Utf8.EncodeDecode(t, p);
      var n, m := Utf8.Validate(t, p).length, |Encode(cp)|;
      var rest := FromUtf8(t, p + n).value;
      var tail := s[q..];
      assert tail == Encode(cp) + rest;
      assert |tail| == m + |rest| && |tail| == |s| - q;
      assert s[q..q + m] == tail[..m] == Encode(cp);
      assert s[q + m..] == tail[m..] == rest;
      DecodeEncode(s, q, cp);
      ThereAndBack(t, p + n, s, q + m);
      assert t[p..] == t[p..p + n] + t[p + n..];
    }
  }

  /** UTF-8 to UTF-16 and back is the identity on valid UTF-8, and refuses everything else. */
  lemma TranscodeRoundTrip(t: Text)
    ensures FromUtf8(t, 0).Some? <==> Utf8.ValidText(t)
    ensures Utf8.ValidText(t) ==> ToUtf8(FromUtf8(t, 0).value, 0) == Some(t)
  {
    hide Utf8.ValidText, FromUtf8, ToUtf8;
    assert t[0..] == t;
    FromUtf8Iff(t, 0);
    if Utf8.ValidText(t) {
      var s := FromUtf8(t, 0).value;
      assert s[0..] == s;
      ThereAndBack(t, 0, s, 0);
    }
  }
}
