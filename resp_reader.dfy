/**
 * The decoding half of the RESP codec: resp.Resp, a reader over a byte
 * source. The source is the byte sequence `data`; everything the Go reader
 * consumed so far is `data[..pos]`.
 *
 * Each reader method is specified by a function of (data, pos) that returns
 * the method's results together with the position it leaves the reader at:
 * LineSpec for readLine, IntSpec for readInteger, ReadAt for Read, ArraySpec
 * for readArray, BulkSpec for readBulk and ElemsSpec for readArray's loop.
 */
module RespReader {
  import opened Bytes
  import opened Decimal
  import opened Wrappers
  import opened Resp

  datatype LineResult = LineResult(line: seq<byte>, n: nat, err: Option<Error>, pos: nat)
  datatype IntResult = IntResult(x: int, n: nat, err: Option<Error>, pos: nat)
  datatype ReadResult = ReadResult(value: Value, err: Option<Error>, pos: nat)
  datatype ElemsResult = ElemsResult(elems: seq<Value>, err: Option<Error>, pos: nat)

  function Min(a: int, b: int): (m: int) {
    if a <= b then a else b
  }

  /** n copies of the zero Value, what `make([]Value, n)` holds. */
  function EmptyValues(n: nat): (vs: seq<Value>)
    ensures |vs| == n
  {
    seq(n, _ => Empty)
  }

  // ---- Specification functions -------------------------------------------

  /**
   * The first index from i on holding a CR that has a byte after it, or |d|
   * when there is none: where readLine's scan stops.
   */
  function LineEnd(d: seq<byte>, i: nat): (k: nat)
    requires i <= |d|
    ensures i <= k <= |d|
    ensures k < |d| ==> k + 1 < |d| && d[k] == CR
    ensures forall j :: i <= j < k && j + 1 < |d| ==> d[j] != CR
    decreases |d| - i
  {
    if i + 1 >= |d| then |d| else if d[i] == CR then i else LineEnd(d, i + 1)
  }

  /**
   * readLine from position p: the bytes before the first CR, which must be
   * followed by one more byte. That byte is consumed but never checked to be
   * LF. Without such a CR the whole rest is consumed and the result is EOF.
   */
  function LineSpec(d: seq<byte>, p: nat): (r: LineResult)
    requires p <= |d|
    ensures p <= r.pos <= |d|
    ensures r.err.None? ==> r.pos >= p + 2
  {
    var k := LineEnd(d, p);
    if k == |d| then LineResult([], 0, Some(EOF), |d|)
    else LineResult(d[p..k], k - p + 2, None, k + 2)
  }

  /**
   * readInteger from position p: readLine's error with n = 0, or a
   * ParseError with n = the line's size, or the int64 the line denotes.
   */
  function IntSpec(d: seq<byte>, p: nat): (r: IntResult)
    requires p <= |d|
    ensures p <= r.pos <= |d|
    ensures r.err.None? ==> r.pos >= p + 2
  {
    var l := LineSpec(d, p);
    if l.err.Some? then IntResult(0, 0, l.err, l.pos)
    else
      match ParseInt(l.line)
      case Failure(e) => IntResult(0, l.n, Some(ParseError(e)), l.pos)
      case Success(x) => IntResult(x, l.n, None, l.pos)
  }

  /**
   * Read from position p: one tag byte, then readArray for '*', readBulk for
   * '$', and for any other byte the zero Value with no error.
   */
  function ReadAt(d: seq<byte>, p: nat): (r: ReadResult)
    requires p <= |d|
    ensures p <= r.pos <= |d|
    ensures r.err.None? ==> p < r.pos
    ensures r.value.typ in {"", "array", "Bulk"}
    decreases |d| - p, 2
  {
    if p == |d| then ReadResult(Empty, Some(EOF), p)
    else if d[p] == ArrayTag then ArraySpec(d, p + 1)
    else if d[p] == BulkTag then BulkSpec(d, p + 1)
    else ReadResult(Empty, None, p + 1)
  }

  /**
   * readArray after its tag byte: the length line, then that many values
   * read in order into a fresh slice; the first error stops the loop and is
   * returned with the slots filled so far.
   */
  function ArraySpec(d: seq<byte>, p: nat): (r: ReadResult)
    requires p <= |d|
    ensures p <= r.pos <= |d|
    ensures r.value.typ == "array"
    decreases |d| - p, 1
  {
    var v := Empty.(typ := "array");
    var h := IntSpec(d, p);
    if h.err.Some? then ReadResult(v, h.err, h.pos)
    else if h.x < 0 then ReadResult(v, Some(NegativeLength), h.pos)
    else
      var e := ElemsSpec(d, h.pos, h.x);
      ReadResult(v.(elems := e.elems + EmptyValues(h.x - |e.elems|)), e.err, e.pos)
  }

  /** readArray's loop: k successive Reads from p, stopping at the first error. */
  function ElemsSpec(d: seq<byte>, p: nat, k: nat): (r: ElemsResult)
    requires p <= |d|
    ensures p <= r.pos <= |d|
    ensures r.err.None? ==> |r.elems| == k
    ensures r.err.Some? ==> |r.elems| < k
    decreases |d| - p, 3
  {
    if k == 0 then ElemsResult([], None, p)
    else
      var x := ReadAt(d, p);
      if x.err.Some? then ElemsResult([], x.err, x.pos)
      else
        var rest := ElemsSpec(d, x.pos, k - 1);
        ElemsResult([x.value] + rest.elems, rest.err, rest.pos)
  }

  /**
   * readBulk after its tag byte: the length line, then the payload (as many
   * of the declared bytes as remain, the rest of the buffer left zero), then
   * one more line whose content and error are ignored.
   */
  function BulkSpec(d: seq<byte>, p: nat): (r: ReadResult)
    requires p <= |d|
    ensures p <= r.pos <= |d|
    ensures r.value.typ == "Bulk"
  {
    var v := Empty.(typ := "Bulk");
    var h := IntSpec(d, p);
    if h.err.Some? then ReadResult(v, h.err, h.pos)
    else if h.x < 0 then ReadResult(v, Some(NegativeLength), h.pos)
    else
      var m := Min(h.x, |d| - h.pos);
      var payload := d[h.pos..h.pos + m] + Zeros(h.x - m);
      var t := LineSpec(d, h.pos + m);
      ReadResult(v.(bulk := payload), None, t.pos)
  }

  // ---- The reader -----------------------------------------------------------

  /** resp.Resp over the byte source `data`, positioned at `pos`. */
  class Reader {
    const data: seq<byte>
    var pos: nat

    ghost predicate Valid()
      reads this
    {
      pos <= |data|
    }

    /** NewResp. */
    constructor (source: seq<byte>)
      ensures Valid() && data == source && pos == 0
    {
      data := source;
      pos := 0;
    }

    /** bufio.Reader.ReadByte: the next byte, or EOF at the end of the source. */
    method ReadByte() returns (b: byte, err: Option<Error>)
      requires Valid()
      modifies this
      ensures Valid()
      ensures old(pos) < |data| ==> b == data[old(pos)] && err.None? && pos == old(pos) + 1
      ensures old(pos) == |data| ==> b == 0 && err == Some(EOF) && pos == old(pos)
    {
      if pos == |data| {
        return 0, Some(EOF);
      }
      b := data[pos];
      pos := pos + 1;
      err := None;
    }

    /**
     * bufio.Reader.Read into a buffer p: copies as many of |p| bytes as
     * remain, leaves the rest of p as it was, and reports EOF when it
     * copied nothing into a non-empty p.
     */
    method ReadInto(p: seq<byte>) returns (q: seq<byte>, n: nat, err: Option<Error>)
      requires Valid()
      modifies this
      ensures Valid()
      ensures n == Min(|p|, |data| - old(pos)) && pos == old(pos) + n
      ensures q == data[old(pos)..pos] + p[n..]
      ensures err == if n == 0 && |p| > 0 then Some(EOF) else None
    {
      n := Min(|p|, |data| - pos);
      q := data[pos..pos + n] + p[n..];
      pos := pos + n;
      err := if n == 0 && |p| > 0 then Some(EOF) else None;
    }

    /** readLine: reads one byte at a time until the byte after a CR. */
    method ReadLine() returns (line: seq<byte>, n: nat, err: Option<Error>)
      requires Valid()
      modifies this
      ensures Valid()
      ensures LineSpec(data, old(pos)) == LineResult(line, n, err, pos)
    {
      line, n := [], 0;
      while true
        invariant Valid() && old(pos) <= pos
        invariant line == data[old(pos)..pos] && n == |line|
        invariant forall j :: old(pos) <= j && j + 1 < pos ==> data[j] != CR
        decreases |data| - pos
      {
        var b, e := ReadByte();
        if e.Some? {
          return [], 0, e;
        }
        n := n + 1;
        line := line + [b];
        if |line| >= 2 && line[|line| - 2] == CR {
          break;
        }
      }
      line := line[..|line| - 2];
      err := None;
    }

    /** readInteger: a line parsed by strconv.ParseInt(line, 10, 64). */
    method ReadInteger() returns (x: int, n: nat, err: Option<Error>)
      requires Valid()
      modifies this
      ensures Valid()
      ensures IntSpec(data, old(pos)) == IntResult(x, n, err, pos)
    {
      var line, m, e := ReadLine();
      if e.Some? {
        return 0, 0, e;
      }
      match ParseInt(line)
      case Failure(ne) =>
        return 0, m, Some(ParseError(ne));
      case Success(i64) =>
        return i64, m, None;
    }

    /** Read: one value from the source. */
    method Read() returns (v: Value, err: Option<Error>)
      requires Valid()
      modifies this
      ensures Valid()
      ensures ReadAt(data, old(pos)) == ReadResult(v, err, pos)
      decreases |data| - pos, 2
    {
      var tag, e := ReadByte();
      if e.Some? {
        return Empty, e;
      }
      if tag == ArrayTag {
        v, err := ReadArray();
      } else if tag == BulkTag {
        v, err := ReadBulk();
      } else {
        v, err := Empty, None;
      }
    }

    /** readArray: the length line, then that many recursive Reads. */
    method ReadArray() returns (v: Value, err: Option<Error>)
      requires Valid()
      modifies this
      ensures Valid()
      ensures ArraySpec(data, old(pos)) == ReadResult(v, err, pos)
      decreases |data| - pos, 1
    {
      v := Empty.(typ := "array");
      ghost var p0 := pos;
      var length, n, e := ReadInteger();
      if e.Some? {
        return v, e;
      }
      if length < 0 {
        // make([]Value, length) panics
        return v, Some(NegativeLength);
      }
      ghost var start := pos;
      ghost var whole := ElemsSpec(data, start, length);
      ArrayOfElems(data, p0, IntResult(length, n, e, pos), whole);
      var slots := EmptyValues(length);
      var i := 0;
      ghost var k: nat := length;
      ghost var rest := whole;
      while i < length
        invariant Valid() && p0 < start <= pos
        invariant 0 <= i <= length && |slots| == length && k == length - i
        invariant forall j :: i <= j < length ==> slots[j] == Empty
        invariant rest == ElemsSpec(data, pos, k)
        invariant whole == Prefixed(slots[..i], rest)
        decreases k
      {
        ghost var before := pos;
        var val, e' := Read();
        ElemsStep(data, before, k, ReadResult(val, e', pos));
        if e'.Some? {
          SlotsResult(whole, slots, i, e', pos);
          return v.(elems := slots), e';
        }
        ghost var filled := slots[..i];
        ghost var next := ElemsSpec(data, pos, k - 1);
        PrefixedTwice(filled, [val], next);
        slots := slots[i := val];
        assert slots[..i + 1] == filled + [val];
        i := i + 1;
        k := k - 1;
        rest := next;
      }
      SlotsResult(whole, slots, i, None, pos);
      v := v.(elems := slots);
      err := None;
    }

    /** readBulk: the length line, the payload, then one ignored line. */
    method ReadBulk() returns (v: Value, err: Option<Error>)
      requires Valid()
      modifies this
      ensures Valid()
      ensures BulkSpec(data, old(pos)) == ReadResult(v, err, pos)
    {
      v := Empty.(typ := "Bulk");
      var length, _, e := ReadInteger();
      if e.Some? {
        return v, e;
      }
      if length < 0 {
        // make([]byte, length) panics
        return v, Some(NegativeLength);
      }
      var buf, _, _ := ReadInto(Zeros(length));
      v := v.(bulk := buf);
      var _, _, _ := ReadLine();
      err := None;
    }
  }

  /** `xs` in front of the elements of `r`. */
  function Prefixed(xs: seq<Value>, r: ElemsResult): (joined: ElemsResult) {
    r.(elems := xs + r.elems)
  }

  /** One turn of readArray's loop, as ElemsSpec sees it: x is the Read of that turn. */
  lemma ElemsStep(d: seq<byte>, p: nat, k: nat, x: ReadResult)
    requires p <= |d| && k > 0 && x == ReadAt(d, p)
    ensures x.err.Some? ==> ElemsSpec(d, p, k) == ElemsResult([], x.err, x.pos)
    ensures x.err.None? ==> ElemsSpec(d, p, k) == Prefixed([x.value], ElemsSpec(d, x.pos, k - 1))
  {
  }

  /** readArray once its length line gave a length >= 0 and its loop gave e. */
  lemma ArrayOfElems(d: seq<byte>, p: nat, h: IntResult, e: ElemsResult)
    requires p <= |d| && h == IntSpec(d, p) && h.err.None? && h.x >= 0 && e == ElemsSpec(d, h.pos, h.x)
    ensures ArraySpec(d, p) == ReadResult(Empty.(typ := "array", elems := e.elems + EmptyValues(h.x - |e.elems|)), e.err, e.pos)
  {
  }

  /** readArray's slots once its loop stopped after i Reads, with all later slots still zero. */
  lemma SlotsResult(whole: ElemsResult, slots: seq<Value>, i: nat, err: Option<Error>, q: nat)
    requires i <= |slots| && forall j :: i <= j < |slots| ==> slots[j] == Empty
    requires whole == Prefixed(slots[..i], ElemsResult([], err, q))
    ensures whole.elems + EmptyValues(|slots| - |whole.elems|) == slots && whole.err == err && whole.pos == q
  {
    assert whole.elems == slots[..i];
    assert slots == slots[..i] + EmptyValues(|slots| - i);
  }

  lemma PrefixedTwice(xs: seq<Value>, ys: seq<Value>, r: ElemsResult)
    ensures Prefixed(xs, Prefixed(ys, r)) == Prefixed(xs + ys, r)
  {
    assert xs + (ys + r.elems) == (xs + ys) + r.elems;
  }

  // ---- What the specification functions mean ------------------------------

  /**
   * readLine succeeds exactly when a CR with a byte after it lies ahead; it
   * then returns the CR-free bytes before the first such CR and n = |line| + 2,
   * and otherwise consumes everything and returns EOF with no line.
   */
  lemma LineSpecMeaning(d: seq<byte>, p: nat)
    requires p <= |d|
    ensures LineSpec(d, p).err.None? <==> exists j :: p <= j && j + 1 < |d| && d[j] == CR
    ensures var r := LineSpec(d, p);
            r.err.None? ==> && r.n == |r.line| + 2 && r.pos == p + r.n
                            && d[p..p + |r.line|] == r.line && d[p + |r.line|] == CR
                            && forall i :: 0 <= i < |r.line| ==> r.line[i] != CR
    ensures LineSpec(d, p).err.Some? ==> LineSpec(d, p) == LineResult([], 0, Some(EOF), |d|)
  {
    var k := LineEnd(d, p);
    if k < |d| {
      assert forall i :: 0 <= i < k - p ==> d[p..k][i] == d[p + i];
    }
  }

  /**
   * readInteger: EOF exactly when readLine hits EOF, in which case n = 0; a
   * parse error when the line is not a base-10 int64; otherwise the number
   * the line denotes. The reader ends where readLine ended.
   */
  lemma IntSpecMeaning(d: seq<byte>, p: nat)
    requires p <= |d|
    ensures var r, l := IntSpec(d, p), LineSpec(d, p);
            && r.pos == l.pos
            && (r.err == Some(EOF) <==> l.err.Some?)
            && (l.err.Some? ==> r == IntResult(0, 0, Some(EOF), |d|))
            && (l.err.None? ==> r.n == l.n)
            && (l.err.None? && r.err.Some? ==> r.x == 0 && r.err.value.ParseError?)
            && (l.err.None? ==> (r.err.None? <==> exists x :: IsInt64Text(l.line, x)))
            && (r.err.None? ==> IsInt64Text(l.line, r.x))
  {
    LineSpecMeaning(d, p);
    var l := LineSpec(d, p);
    if l.err.None? {
      match ParseInt(l.line)
      case Success(x) =>
        ParseIntIff(l.line, x);
      case Failure(_) =>
        forall x | IsInt64Text(l.line, x)
          ensures false
        {
          ParseIntIff(l.line, x);
        }
    }
  }

  /**
   * Once its length line parses to a non-negative n, readBulk returns a
   * "Bulk" value of exactly n bytes and no error, however much of the
   * payload and of the trailing line were really there.
   */
  lemma BulkSpecMeaning(d: seq<byte>, p: nat)
    requires p <= |d|
    ensures var r, h := BulkSpec(d, p), IntSpec(d, p);
            && (r.err.None? <==> h.err.None? && h.x >= 0)
            && (r.err.None? ==> |r.value.bulk| == h.x)
            && (h.err.Some? ==> r.err == h.err)
            && (h.err.None? && h.x < 0 ==> r.err == Some(NegativeLength))
  {
  }

  /**
   * readArray returns an "array" whose slot count is the parsed length, the
   * length line's error, or the negative-length failure; the slots hold the
   * elements read before the first element error, then zero Values.
   */
  lemma ArraySpecMeaning(d: seq<byte>, p: nat)
    requires p <= |d|
    ensures var r, h := ArraySpec(d, p), IntSpec(d, p);
            && (h.err.Some? ==> r.err == h.err)
            && (h.err.None? && h.x < 0 ==> r.err == Some(NegativeLength))
            && (h.err.None? && h.x >= 0 ==>
                  var e := ElemsSpec(d, h.pos, h.x);
                  && |r.value.elems| == h.x
                  && r.err == e.err
                  && r.value.elems[..|e.elems|] == e.elems
                  && forall i :: |e.elems| <= i < h.x ==> r.value.elems[i] == Empty)
  {
  }
}
