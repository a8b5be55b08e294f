/**
 * What the decoder makes of the encoder's output. Bulk values and "Array"
 * values built from them (at any depth) come back, with arrays renamed
 * "array"; the other encodings are not understood by Read.
 */
module RespFrames {
  import opened Bytes
  import opened Decimal
  import opened Wrappers
  import opened Resp
  import opened RespReader

  /** The bytes m occur in d at position p. */
  ghost predicate At(d: seq<byte>, p: nat, m: seq<byte>) {
    p + |m| <= |d| && d[p..p + |m|] == m
  }

  lemma AtConcat(d: seq<byte>, p: nat, a: seq<byte>, b: seq<byte>)
    requires At(d, p, a + b)
    ensures At(d, p, a) && At(d, p + |a|, b)
  {
    assert d[p..p + |a|] == d[p..p + |a + b|][..|a|];
    assert d[p + |a|..p + |a| + |b|] == d[p..p + |a + b|][|a|..];
  }

  /** Values whose frames Read decodes: bulk strings, and "Array"s of such values. */
  ghost predicate Decodable(v: Value)
    decreases v
  {
    if v.typ == "Bulk" then |v.bulk| <= MaxInt64
    else v.typ == "Array" && |v.elems| <= MaxInt64 && forall i :: 0 <= i < |v.elems| ==> Decodable(v.elems[i])
  }

  /** What Read returns for the frame of a decodable value. */
  function Decoded(v: Value): (read: Value)
    decreases v, 1
  {
    if v.typ == "Bulk" then Empty.(typ := "Bulk", bulk := v.bulk)
    else Empty.(typ := "array", elems := DecodedAll(v.elems))
  }

  function DecodedAll(vs: seq<Value>): (ws: seq<Value>)
    ensures |ws| == |vs|
    decreases vs
  {
    if vs == [] then [] else [Decoded(vs[0])] + DecodedAll(vs[1..])
  }

  lemma {:induction false} DecodedAllAt(vs: seq<Value>, i: nat)
    requires i < |vs|
    ensures DecodedAll(vs)[i] == Decoded(vs[i])
    decreases vs
  {
    if i > 0 {
      DecodedAllAt(vs[1..], i - 1);
    }
  }

  /**
   * readLine on the bytes s, a CR and any byte x: the line s, with n counting
   * the two terminator bytes, whether or not x is LF.
   */
  lemma LineAt(d: seq<byte>, p: nat, s: seq<byte>, x: byte)
    requires At(d, p, s + [CR, x])
    requires forall i :: 0 <= i < |s| ==> s[i] != CR
    ensures LineSpec(d, p) == LineResult(s, |s| + 2, None, p + |s| + 2)
  {
    var k := LineEnd(d, p);
    assert d[p + |s|] == (s + [CR, x])[|s|] == CR;
    assert p + |s| + 1 < |d|;
    forall j | p <= j < p + |s|
      ensures d[j] != CR
    {
      assert d[j] == (s + [CR, x])[j - p];
    }
    assert k == p + |s|;
    assert d[p..k] == (s + [CR, x])[..|s|] == s;
  }

  /** readInteger on a canonical decimal line: the number back. */
  lemma IntAt(d: seq<byte>, p: nat, n: nat)
    requires n <= MaxInt64 && At(d, p, Itoa(n) + CRLF)
    ensures IntSpec(d, p) == IntResult(n, |Itoa(n)| + 2, None, p + |Itoa(n)| + 2)
  {
    LineAt(d, p, Itoa(n), LF);
    ParseItoa(n);
  }

  /**
   * Round trip: Read on the frame of a decodable value, followed by any
   * bytes, yields its decoded form with no error and stops right after the
   * frame.
   */
  lemma {:induction false} ReadMarshalled(d: seq<byte>, p: nat, v: Value)
    requires Decodable(v) && At(d, p, Marshal(v))
    ensures ReadAt(d, p) == ReadResult(Decoded(v), None, p + |Marshal(v)|)
    decreases v, 2
  {
    if v.typ == "Bulk" {
      ReadBulkFrame(d, p, v);
    } else {
      ReadArrayFrameOf(d, p, v);
    }
  }

  /** The array case of the round trip. */
  lemma {:induction false} ReadArrayFrameOf(d: seq<byte>, p: nat, v: Value)
    requires Decodable(v) && v.typ != "Bulk" && At(d, p, Marshal(v))
    ensures ReadAt(d, p) == ReadResult(Decoded(v), None, p + |Marshal(v)|)
    decreases v, 1
  {
    var n := |v.elems|;
    var q := p + 1 + |Itoa(n)| + 2;
    ArrayFrameParts(d, p, v);
    ReadMarshalledAll(d, q, v.elems, n);
    ArrayAt(d, p, n, q, DecodedAll(v.elems), q + |MarshalAll(v.elems)|);
  }

  /** Where the pieces of an "Array" frame lie. */
  lemma ArrayFrameParts(d: seq<byte>, p: nat, v: Value)
    requires v.typ == "Array" && At(d, p, Marshal(v))
    ensures var q := p + 1 + |Itoa(|v.elems|)| + 2;
            At(d, p, [ArrayTag]) && At(d, p + 1, Itoa(|v.elems|) + CRLF) && At(d, q, MarshalAll(v.elems))
            && p + |Marshal(v)| == q + |MarshalAll(v.elems)|
  {
    var header := Itoa(|v.elems|) + CRLF;
    assert Marshal(v) == [ArrayTag] + header + MarshalAll(v.elems);
    AtConcat(d, p, [ArrayTag] + header, MarshalAll(v.elems));
    AtConcat(d, p, [ArrayTag], header);
  }

  /** Read on '*' and a canonical length line for n, once the n elements read without error. */
  lemma ArrayAt(d: seq<byte>, p: nat, n: nat, q: nat, es: seq<Value>, end: nat)
    requires n <= MaxInt64 && At(d, p, [ArrayTag]) && At(d, p + 1, Itoa(n) + CRLF)
    requires q == p + 1 + |Itoa(n)| + 2 && q <= |d| && ElemsSpec(d, q, n) == ElemsResult(es, None, end)
    ensures ReadAt(d, p) == ReadResult(Empty.(typ := "array", elems := es), None, end)
  {
    assert d[p] == d[p..p + 1][0] == ArrayTag;
    IntAt(d, p + 1, n);
    ReadArrayFrame(d, p, n, q, es, end);
  }

  /** The bulk case of the round trip. */
  lemma ReadBulkFrame(d: seq<byte>, p: nat, v: Value)
    requires v.typ == "Bulk" && |v.bulk| <= MaxInt64 && At(d, p, Marshal(v))
    ensures ReadAt(d, p) == ReadResult(Empty.(typ := "Bulk", bulk := v.bulk), None, p + |Marshal(v)|)
  {
    var header := Itoa(|v.bulk|) + CRLF;
    assert Marshal(v) == [BulkTag] + header + (v.bulk + CRLF);
    AtConcat(d, p, [BulkTag] + header, v.bulk + CRLF);
    AtConcat(d, p, [BulkTag], header);
    BulkAt(d, p, v.bulk);
  }

  /** Read on '$', a canonical length line for s, then s and two more bytes. */
  lemma BulkAt(d: seq<byte>, p: nat, s: seq<byte>)
    requires |s| <= MaxInt64 && At(d, p, [BulkTag]) && At(d, p + 1, Itoa(|s|) + CRLF)
    requires At(d, p + 1 + |Itoa(|s|)| + 2, s + CRLF)
    ensures ReadAt(d, p) == ReadResult(Empty.(typ := "Bulk", bulk := s), None, p + 1 + |Itoa(|s|)| + 2 + |s| + 2)
  {
    var q := p + 1 + |Itoa(|s|)| + 2;
    assert d[p] == d[p..p + 1][0] == BulkTag;
    IntAt(d, p + 1, |s|);
    BulkBody(d, p, s, q);
  }

  /** BulkAt once the length line has been read: the payload, then the trailing line. */
  lemma BulkBody(d: seq<byte>, p: nat, s: seq<byte>, q: nat)
    requires p < |d| && d[p] == BulkTag
    requires IntSpec(d, p + 1).err.None? && IntSpec(d, p + 1).x == |s| && IntSpec(d, p + 1).pos == q
    requires At(d, q, s + CRLF)
    ensures ReadAt(d, p) == ReadResult(Empty.(typ := "Bulk", bulk := s), None, q + |s| + 2)
  {
    AtConcat(d, q, s, CRLF);
    BulkPayload(d, p, |s|, q);
    assert d[q..q + |s|] + Zeros(0) == s;
    LineAt(d, q + |s|, [], LF);
  }

  /** readBulk once the length line at p + 1 gave n >= 0 and ended at q. */
  lemma BulkPayload(d: seq<byte>, p: nat, n: nat, q: nat)
    requires p < |d| && d[p] == BulkTag
    requires IntSpec(d, p + 1).err.None? && IntSpec(d, p + 1).x == n && IntSpec(d, p + 1).pos == q
    ensures var m := Min(n, |d| - q);
            ReadAt(d, p) == ReadResult(Empty.(typ := "Bulk", bulk := d[q..q + m] + Zeros(n - m)), None, LineSpec(d, q + m).pos)
  {
  }

  /** Read on '*' once the length line gave n and the n elements were read without error. */
  lemma ReadArrayFrame(d: seq<byte>, p: nat, n: nat, q: nat, es: seq<Value>, end: nat)
    requires p < |d| && d[p] == ArrayTag
    requires IntSpec(d, p + 1).err.None? && IntSpec(d, p + 1).x == n && IntSpec(d, p + 1).pos == q
    requires ElemsSpec(d, q, n) == ElemsResult(es, None, end)
    ensures ReadAt(d, p) == ReadResult(Empty.(typ := "array", elems := es), None, end)
  {
    assert es + EmptyValues(0) == es;
  }

  /** readArray's loop over the concatenated frames of decodable values. */
  lemma {:induction false} ReadMarshalledAll(d: seq<byte>, p: nat, vs: seq<Value>, k: nat)
    requires forall i :: 0 <= i < |vs| ==> Decodable(vs[i])
    requires At(d, p, MarshalAll(vs)) && k == |vs|
    ensures ElemsSpec(d, p, k) == ElemsResult(DecodedAll(vs), None, p + |MarshalAll(vs)|)
    decreases vs
  {
    if vs != [] {
      var head, others := vs[0], vs[1..];
      var mid := p + |Marshal(head)|;
      FramesSplit(d, p, vs);
      ElemsFrame(d, p, head, k, mid);
      ReadMarshalledAll(d, mid, others, k - 1);
      ghost var first, next := ElemsSpec(d, p, k), ElemsSpec(d, mid, k - 1);
      PrefixedResult(first, next, Decoded(head), DecodedAll(others), mid + |MarshalAll(others)|);
    }
  }

  lemma PrefixedResult(a: ElemsResult, b: ElemsResult, x: Value, ws: seq<Value>, end: nat)
    requires a == Prefixed([x], b) && b == ElemsResult(ws, None, end)
    ensures a == ElemsResult([x] + ws, None, end)
  {
  }

  /** A run of frames is its first frame followed by the run of the others. */
  lemma FramesSplit(d: seq<byte>, p: nat, vs: seq<Value>)
    requires vs != [] && At(d, p, MarshalAll(vs))
    ensures At(d, p, Marshal(vs[0])) && At(d, p + |Marshal(vs[0])|, MarshalAll(vs[1..]))
    ensures p + |Marshal(vs[0])| + |MarshalAll(vs[1..])| == p + |MarshalAll(vs)|
    ensures DecodedAll(vs) == [Decoded(vs[0])] + DecodedAll(vs[1..])
  {
    assert MarshalAll(vs) == Marshal(vs[0]) + MarshalAll(vs[1..]);
    AtConcat(d, p, Marshal(vs[0]), MarshalAll(vs[1..]));
  }

  /** One frame of a decodable value is one turn of readArray's loop. */
  lemma ElemsFrame(d: seq<byte>, p: nat, v: Value, k: nat, q: nat)
    requires Decodable(v) && At(d, p, Marshal(v)) && q == p + |Marshal(v)| && k > 0
    ensures ElemsSpec(d, p, k) == Prefixed([Decoded(v)], ElemsSpec(d, q, k - 1))
    decreases v, 3
  {
    ReadMarshalled(d, p, v);
    ElemsStep(d, p, k, ReadResult(Decoded(v), None, q));
  }

  /**
   * A request as a client sends it, an "Array" of "Bulk" values, decodes to
   * an "array" of "Bulk" values with the same payloads in the same order.
   */
  lemma BulkArrayRoundTrip(d: seq<byte>, p: nat, v: Value)
    requires v.typ == "Array" && |v.elems| <= MaxInt64
    requires forall i :: 0 <= i < |v.elems| ==> v.elems[i].typ == "Bulk" && |v.elems[i].bulk| <= MaxInt64
    requires At(d, p, Marshal(v))
    ensures ReadAt(d, p).err.None? && ReadAt(d, p).pos == p + |Marshal(v)|
    ensures ReadAt(d, p).value.typ == "array" && |ReadAt(d, p).value.elems| == |v.elems|
    ensures forall i :: 0 <= i < |v.elems| ==>
              ReadAt(d, p).value.elems[i] == Empty.(typ := "Bulk", bulk := v.elems[i].bulk)
  {
    ReadMarshalled(d, p, v);
    forall i | 0 <= i < |v.elems|
      ensures ReadAt(d, p).value.elems[i] == Empty.(typ := "Bulk", bulk := v.elems[i].bulk)
    {
      DecodedAllAt(v.elems, i);
    }
  }

  /** The frames of "string" and "error" values: Read consumes the tag byte and returns an empty Value. */
  lemma SimpleFrameSkipped(d: seq<byte>, p: nat, v: Value)
    requires v.typ == "string" || v.typ == "error"
    requires At(d, p, Marshal(v))
    ensures ReadAt(d, p) == ReadResult(Empty, None, p + 1)
  {
    MarshalTagByte(v);
    assert d[p] == Marshal(v)[0];
  }

  /** The frame of a "null" value, `$-1\r\n`, makes readBulk allocate a negative length. */
  lemma NullFramePanics(d: seq<byte>, p: nat, v: Value)
    requires v.typ == "null" && At(d, p, Marshal(v))
    ensures ReadAt(d, p) == ReadResult(Empty.(typ := "Bulk"), Some(NegativeLength), p + 5)
  {
    var m := Marshal(v);
    assert m == [BulkTag] + ([Minus, 49] + [CR, LF]);
    AtConcat(d, p, [BulkTag], [Minus, 49] + [CR, LF]);
    assert d[p] == BulkTag;
    LineAt(d, p + 1, [Minus, 49], LF);
    assert DecimalValue([49]) == 1 by {
      assert [49][..0] == [];
    }
    ParseIntIff([Minus, 49], -1);
  }

  /**
   * A bulk frame cut short inside its payload: readBulk still succeeds, with
   * the missing bytes left zero, and the reader ends at the end of the data.
   */
  lemma TruncatedBulk(d: seq<byte>, p: nat, len: nat, s: seq<byte>)
    requires len <= MaxInt64 && |s| < len
    requires At(d, p, [BulkTag] + (Itoa(len) + CRLF) + s)
    requires p + 1 + |Itoa(len)| + 2 + |s| == |d|
    ensures ReadAt(d, p) == ReadResult(Empty.(typ := "Bulk", bulk := s + Zeros(len - |s|)), None, |d|)
  {
    AtConcat(d, p, [BulkTag] + (Itoa(len) + CRLF), s);
    AtConcat(d, p, [BulkTag], Itoa(len) + CRLF);
    assert d[p] == BulkTag;
    IntAt(d, p + 1, len);
    var q := p + 1 + |Itoa(len)| + 2;
    BulkPayload(d, p, len, q);
    assert d[q..q + |s|] == s;
  }

  /** A value the decoder built as an array does not re-encode: Marshal knows only "Array". */
  lemma DecodedArrayNotReencoded(d: seq<byte>, p: nat)
    requires p <= |d|
    ensures ReadAt(d, p).value.typ == "array" ==> Marshal(ReadAt(d, p).value) == []
    ensures ReadAt(d, p).value.typ == "Bulk" ==> Marshal(ReadAt(d, p).value) == MarshalBulk(ReadAt(d, p).value)
  {
  }
}
