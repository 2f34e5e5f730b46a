/** DER as the approval check reads it: elements, the ECDSA signature's two integers, and
    the SubjectPublicKeyInfo of a P-256 key. */
module Der {
  import opened Common

  datatype Element = Element(contents: seq<byte>, end: nat)

  function Contents(data: seq<byte>, start: nat, length: nat): Option<Element> {
    if start + length > |data| then None
    else Some(Element(data[start..start + length], start + length))
  }

  /** `_der_read`; None is its ValueError. */
  function DerRead(data: seq<byte>, offset: nat, tag: byte): Option<Element> {
    if offset + 2 > |data| || data[offset] != tag then None
    else
      var length := data[offset + 1];
      if length < 0x80 then Contents(data, offset + 2, length)
      else
        var count := length - 0x80;
        if count !in {1, 2} || offset + 2 + count > |data| then None
        else Contents(data, offset + 2 + count, FromBytes(data[offset + 2..offset + 2 + count]))
  }

  // ----- one element --------------------------------------------------------------------

  /** The three encodings of an element the reader takes; it does not ask for the shortest. */
  ghost predicate Encodes(tag: byte, contents: seq<byte>, enc: seq<byte>) {
    var n := |contents|;
    || (n < 0x80 && enc == [tag, n] + contents)
    || (n < 0x100 && enc == [tag, 0x81, n] + contents)
    || (n < 0x1_0000 && enc == [tag, 0x82, n / 256, n % 256] + contents)
  }

  /** DER's own, shortest encoding (section 10.1 of X.690). */
  function DerWrite(tag: byte, contents: seq<byte>): seq<byte>
    requires |contents| < 0x1_0000
  {
    var n := |contents|;
    if n < 0x80 then [tag, n] + contents
    else if n < 0x100 then [tag, 0x81, n] + contents
    else [tag, 0x82, n / 256, n % 256] + contents
  }

  lemma {:induction false} OneByte(b: seq<byte>)
    requires |b| == 1
    ensures FromBytes(b) == b[0]
  {
    assert FromBytes(b[..0]) == 0;
  }

  lemma {:induction false} TwoBytes(b: seq<byte>)
    requires |b| == 2
    ensures FromBytes(b) == 256 * (b[0] as int) + b[1]
  {
    OneByte(b[..1]);
  }

  lemma {:induction false} LongFormIsEncoded(data: seq<byte>, offset: nat, contents: seq<byte>)
    requires offset + 4 + |contents| <= |data| && data[offset + 1] == 0x82
    requires |contents| == FromBytes(data[offset + 2..offset + 4])
    requires contents == data[offset + 4..offset + 4 + |contents|]
    ensures Encodes(data[offset], contents, data[offset..offset + 4 + |contents|])
  {
    var b := data[offset + 2..offset + 4];
    TwoBytes(b);
    assert data[offset..offset + 4 + |contents|] == [data[offset], 0x82, b[0], b[1]] + contents;
  }

  lemma {:induction false} MiddleFormIsEncoded(data: seq<byte>, offset: nat, contents: seq<byte>)
    requires offset + 3 + |contents| <= |data| && data[offset + 1] == 0x81
    requires |contents| == FromBytes(data[offset + 2..offset + 3])
    requires contents == data[offset + 3..offset + 3 + |contents|]
    ensures Encodes(data[offset], contents, data[offset..offset + 3 + |contents|])
  {
    OneByte(data[offset + 2..offset + 3]);
    assert data[offset..offset + 3 + |contents|] == [data[offset], 0x81, |contents|] + contents;
  }

  lemma {:induction false} ShortFormIsEncoded(data: seq<byte>, offset: nat, contents: seq<byte>)
    requires offset + 2 + |contents| <= |data| && |contents| == data[offset + 1] < 0x80
    requires contents == data[offset + 2..offset + 2 + |contents|]
    ensures Encodes(data[offset], contents, data[offset..offset + 2 + |contents|])
  {
    assert data[offset..offset + 2 + |contents|] == [data[offset], |contents|] + contents;
  }

  /** Whatever the reader returns, the bytes it stepped over encode it. */
  lemma {:induction false} ReadIsEncoded(data: seq<byte>, offset: nat, tag: byte, e: Element)
    requires DerRead(data, offset, tag) == Some(e)
    ensures offset <= e.end <= |data| && Encodes(tag, e.contents, data[offset..e.end])
  {
    if data[offset + 1] < 0x80 {
      ShortFormIsEncoded(data, offset, e.contents);
    } else if data[offset + 1] == 0x81 {
      MiddleFormIsEncoded(data, offset, e.contents);
    } else {
      LongFormIsEncoded(data, offset, e.contents);
    }
  }

  /** Each of the three encodings, anywhere in the data, reads back. */
  lemma {:induction false} EncodedIsRead(data: seq<byte>, offset: nat, tag: byte, contents: seq<byte>, end: nat)
    requires offset <= end <= |data| && Encodes(tag, contents, data[offset..end])
    ensures DerRead(data, offset, tag) == Some(Element(contents, end))
  {
    var enc := data[offset..end];
    var n := |contents|;
    assert data[offset] == enc[0] && data[offset + 1] == enc[1];
    if n < 0x80 && enc == [tag, n] + contents {
      assert data[offset + 2..end] == contents;
    } else if n < 0x100 && enc == [tag, 0x81, n] + contents {
      OneByte(data[offset + 2..offset + 3]);
      assert data[offset + 2] == enc[2];
      assert data[offset + 3..end] == contents;
    } else {
      TwoBytes(data[offset + 2..offset + 4]);
      assert data[offset + 2] == enc[2] && data[offset + 3] == enc[3];
      assert data[offset + 4..end] == contents;
    }
  }

  /** The reader accepts exactly the three encodings, and what it returns is the contents. */
  lemma {:induction false} ReadExactly(data: seq<byte>, offset: nat, tag: byte, contents: seq<byte>, end: nat)
    ensures DerRead(data, offset, tag) == Some(Element(contents, end))
       <==> offset <= end <= |data| && Encodes(tag, contents, data[offset..end])
  {
    var r := DerRead(data, offset, tag);
    if r == Some(Element(contents, end)) {
      ReadIsEncoded(data, offset, tag, r.value);
    }
    if offset <= end <= |data| && Encodes(tag, contents, data[offset..end]) {
      EncodedIsRead(data, offset, tag, contents, end);
    }
  }

  /** The reader undoes the writer, wherever the element stands. */
  lemma {:induction false} ReadUndoesWrite(before: seq<byte>, tag: byte, contents: seq<byte>, after: seq<byte>)
    requires |contents| < 0x1_0000
    ensures var enc := DerWrite(tag, contents);
            DerRead(before + enc + after, |before|, tag) == Some(Element(contents, |before| + |enc|))
  {
    var enc := DerWrite(tag, contents);
    var data := before + enc + after;
    assert data[|before|..|before| + |enc|] == enc;
    EncodedIsRead(data, |before|, tag, contents, |before| + |enc|);
  }

  // ----- integers -----------------------------------------------------------------------

  /** A non-negative INTEGER's contents: no longer than needed, and a zero first when the
      top bit would read as a sign (section 8.3 of X.690). */
  function IntBytes(v: nat): (b: seq<byte>)
    ensures |b| > 0
  {
    if v < 0x80 then [v]
    else if v < 0x100 then [0, v]
    else IntBytes(v / 256) + [v % 256]
  }

  lemma {:induction false} IntReadsBack(v: nat)
    ensures FromBytes(IntBytes(v)) == v
  {
    if v < 0x80 {
      OneByte(IntBytes(v));
    } else if v < 0x100 {
      TwoBytes(IntBytes(v));
    } else {
      IntReadsBack(v / 256);
      assert IntBytes(v)[..|IntBytes(v)| - 1] == IntBytes(v / 256);
    }
  }

  lemma {:induction false} IntIsShort(v: nat, n: nat)
    requires n > 0 && v < Pow256(n)
    ensures |IntBytes(v)| <= n + 1
  {
    if v >= 0x100 {
      assert n > 1 by {
        assert Pow256(1) == 256 * Pow256(0);
      }
      IntIsShort(v / 256, n - 1);
    }
  }

  // ----- a signature --------------------------------------------------------------------

  /** `p256_verify`'s reading of a signature: a SEQUENCE of two INTEGERs, nothing after
      either; the integers are read unsigned. */
  function ReadSignature(signature: seq<byte>): Option<(nat, nat)> {
    match DerRead(signature, 0, 0x30)
    case None => None
    case Some(body) =>
      match DerRead(body.contents, 0, 0x02)
      case None => None
      case Some(r) =>
        match DerRead(body.contents, r.end, 0x02)
        case None => None
        case Some(s) =>
          if body.end != |signature| || s.end != |body.contents| then None
          else Some((FromBytes(r.contents), FromBytes(s.contents)))
  }

  function WriteSignature(r: nat, s: nat): seq<byte>
    requires |IntBytes(r)| <= 33 && |IntBytes(s)| <= 33
  {
    DerWrite(0x30, DerWrite(0x02, IntBytes(r)) + DerWrite(0x02, IntBytes(s)))
  }

  /** The bytes of a signature are a sequence of encoded integers r and s. */
  ghost predicate SignatureOf(signature: seq<byte>, r: nat, s: nat,
      rb: seq<byte>, sb: seq<byte>, re: seq<byte>, se: seq<byte>)
  {
    Encodes(0x30, re + se, signature)
    && Encodes(0x02, rb, re) && FromBytes(rb) == r
    && Encodes(0x02, sb, se) && FromBytes(sb) == s
  }

  lemma {:induction false} SignatureOfIsRead(signature: seq<byte>, r: nat, s: nat,
      rb: seq<byte>, sb: seq<byte>, re: seq<byte>, se: seq<byte>)
    requires SignatureOf(signature, r, s, rb, sb, re, se)
    ensures ReadSignature(signature) == Some((r, s))
  {
    var body := re + se;
    assert signature[0..|signature|] == signature;
    EncodedIsRead(signature, 0, 0x30, body, |signature|);
    assert body[0..|re|] == re;
    EncodedIsRead(body, 0, 0x02, rb, |re|);
    assert body[|re|..|body|] == se;
    EncodedIsRead(body, |re|, 0x02, sb, |body|);
  }

  lemma {:induction false} SignatureIsEncoded(signature: seq<byte>, r: nat, s: nat)
    returns (rb: seq<byte>, sb: seq<byte>, re: seq<byte>, se: seq<byte>)
    requires ReadSignature(signature) == Some((r, s))
    ensures SignatureOf(signature, r, s, rb, sb, re, se)
  {
    var body := DerRead(signature, 0, 0x30).value;
    var first := DerRead(body.contents, 0, 0x02).value;
    var second := DerRead(body.contents, first.end, 0x02).value;
    rb, sb := first.contents, second.contents;
    re, se := ElementsFillBody(body.contents, first, second);
    ReadIsEncoded(signature, 0, 0x30, body);
    assert signature[0..|signature|] == signature;
  }

  lemma {:induction false} ElementsFillBody(body: seq<byte>, first: Element, second: Element)
    returns (re: seq<byte>, se: seq<byte>)
    requires DerRead(body, 0, 0x02) == Some(first) && DerRead(body, first.end, 0x02) == Some(second)
    requires second.end == |body|
    ensures re + se == body && Encodes(0x02, first.contents, re) && Encodes(0x02, second.contents, se)
  {
    ReadIsEncoded(body, 0, 0x02, first);
    ReadIsEncoded(body, first.end, 0x02, second);
    re, se := body[0..first.end], body[first.end..second.end];
    assert re + se == body;
  }

  /** A signature reads as (r, s) exactly when it is a sequence of encodings of them. */
  lemma {:induction false} SignatureReadExactly(signature: seq<byte>, r: nat, s: nat)
    ensures ReadSignature(signature) == Some((r, s))
       <==> exists rb, sb, re, se :: SignatureOf(signature, r, s, rb, sb, re, se)
  {
    if ReadSignature(signature) == Some((r, s)) {
      var rb, sb, re, se := SignatureIsEncoded(signature, r, s);
    }
    if rb, sb, re, se :| SignatureOf(signature, r, s, rb, sb, re, se) {
      SignatureOfIsRead(signature, r, s, rb, sb, re, se);
    }
  }

  lemma {:induction false} SignatureRoundTrip(r: nat, s: nat)
    requires r < Pow256(32) && s < Pow256(32)
    ensures |IntBytes(r)| <= 33 && |IntBytes(s)| <= 33
    ensures ReadSignature(WriteSignature(r, s)) == Some((r, s))
  {
    IntIsShort(r, 32);
    IntIsShort(s, 32);
    IntReadsBack(r);
    IntReadsBack(s);
    var rb, sb := IntBytes(r), IntBytes(s);
    SignatureOfIsRead(WriteSignature(r, s), r, s, rb, sb, DerWrite(0x02, rb), DerWrite(0x02, sb));
  }
}
