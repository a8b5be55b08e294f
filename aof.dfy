/**
 * The append-only command log (package aof). The log file is a byte sequence
 * opened for appending; Read replays it from the start through the RESP
 * reader and hands each decoded value to a consumer, which the model
 * records as the sequence of values it was called with.
 */
module Aof {
  import opened Bytes
  import opened Wrappers
  import opened Resp
  import opened RespReader
  import opened RespFrames

  /** The values handed to the consumer, in order, and Read's error. */
  datatype ReplayResult = ReplayResult(calls: seq<Value>, err: Option<Error>)

  /** `xs` handed to the consumer before the calls of `r`. */
  function Preceded(xs: seq<Value>, r: ReplayResult): (joined: ReplayResult) {
    r.(calls := xs + r.calls)
  }

  /**
   * Aof.Read's loop from position p: decode, stop quietly at EOF, stop with
   * any other error before calling the consumer, otherwise call it and go on.
   */
  function Replay(d: seq<byte>, p: nat): (r: ReplayResult)
    requires p <= |d|
    ensures r.err != Some(EOF)
    decreases |d| - p
  {
    var x := ReadAt(d, p);
    if x.err == Some(EOF) then ReplayResult([], None)
    else if x.err.Some? then ReplayResult([], x.err)
    else Preceded([x.value], Replay(d, x.pos))
  }

  /** aof.Aof: the contents of its file. */
  class Aof {
    var file: seq<byte>

    /** NewAof on a file that holds `existing` (empty for a new file). */
    constructor (existing: seq<byte>)
      ensures file == existing
    {
      file := existing;
    }

    /**
     * Aof.Write: appends Marshal(value) at the end of the file whatever the
     * file offset (O_APPEND), and returns the file's write error if it
     * reports one. The file's behaviour is the parameter `fault`.
     */
    method Write(value: Value, fault: Option<nat>) returns (err: Option<Error>)
      modifies this
      ensures file == old(file) + Delivered(Marshal(value), fault)
      ensures err == if fault.None? then None else Some(IoError)
    {
      var data := Marshal(value);
      file := file + Delivered(data, fault);
      if fault.Some? {
        return Some(IoError);
      }
      return None;
    }

    /**
     * Aof.Read: seeks to offset 0 and replays the whole file, returning the
     * values passed to the consumer and the error Read returns.
     */
    method Read() returns (calls: seq<Value>, err: Option<Error>)
      ensures Replay(file, 0) == ReplayResult(calls, err)
    {
      var reader := new Reader(file);
      calls := [];
      while true
        invariant reader.Valid() && reader.data == file
        invariant Replay(file, 0) == Preceded(calls, Replay(file, reader.pos))
        decreases |file| - reader.pos
      {
        ghost var before := reader.pos;
        var value, e := reader.Read();
        if e.Some? {
          if e == Some(EOF) {
            break;
          }
          return calls, e;
        }
        PrecededTwice(calls, [value], Replay(file, reader.pos));
        calls := calls + [value];
      }
      err := None;
    }
  }

  /** One turn of Aof.Read's loop, as Replay sees it: x is the Read of that turn. */
  lemma ReplayStep(d: seq<byte>, p: nat, x: ReadResult)
    requires p <= |d| && x == ReadAt(d, p)
    ensures x.err == Some(EOF) ==> Replay(d, p) == ReplayResult([], None)
    ensures x.err.Some? && x.err != Some(EOF) ==> Replay(d, p) == ReplayResult([], x.err)
    ensures x.err.None? ==> Replay(d, p) == Preceded([x.value], Replay(d, x.pos))
  {
  }

  lemma ReplayAtEnd(d: seq<byte>)
    ensures Replay(d, |d|) == ReplayResult([], None)
  {
    ReplayStep(d, |d|, ReadResult(Empty, Some(EOF), |d|));
  }

  lemma PrecededTwice(xs: seq<Value>, ys: seq<Value>, r: ReplayResult)
    ensures Preceded(xs, Preceded(ys, r)) == Preceded(xs + ys, r)
  {
    assert xs + (ys + r.calls) == (xs + ys) + r.calls;
  }

  lemma PrecededChain(a: ReplayResult, b: ReplayResult, c: ReplayResult, xs: seq<Value>, ys: seq<Value>)
    requires a == Preceded(xs, b) && b == Preceded(ys, c)
    ensures a == Preceded(xs + ys, c)
  {
    PrecededTwice(xs, ys, c);
  }

  /**
   * Records laid down by Write are read back one for one: replaying from the
   * start of a run of frames of decodable values hands their decoded forms
   * to the consumer in order, then carries on with whatever follows.
   */
  lemma {:induction false} ReplayFrames(d: seq<byte>, p: nat, vs: seq<Value>, q: nat)
    requires forall i :: 0 <= i < |vs| ==> Decodable(vs[i])
    requires At(d, p, MarshalAll(vs)) && q == p + |MarshalAll(vs)|
    ensures Replay(d, p) == Preceded(DecodedAll(vs), Replay(d, q))
    decreases vs
  {
    if vs == [] {
      assert Preceded([], Replay(d, p)) == Replay(d, p);
    } else {
      var head, others := vs[0], vs[1..];
      var mid := p + |Marshal(head)|;
      FramesSplit(d, p, vs);
      ReplayFrame(d, p, head, mid);
      ReplayFrames(d, mid, others, q);
      ghost var first, next, last := Replay(d, p), Replay(d, mid), Replay(d, q);
      PrecededChain(first, next, last, [Decoded(head)], DecodedAll(others));
    }
  }


  /** One frame of a decodable value is one call of the consumer. */
  lemma ReplayFrame(d: seq<byte>, p: nat, v: Value, q: nat)
    requires Decodable(v) && At(d, p, Marshal(v)) && q == p + |Marshal(v)|
    ensures Replay(d, p) == Preceded([Decoded(v)], Replay(d, q))
  {
    ReadMarshalled(d, p, v);
    ReplayStep(d, p, ReadResult(Decoded(v), None, q));
  }

  /**
   * A log written only by successful Writes of requests (decodable values)
   * replays into exactly those requests, as the decoder sees them, in order,
   * and Read returns no error.
   */
  lemma ReplayOfWrites(vs: seq<Value>)
    requires forall i :: 0 <= i < |vs| ==> Decodable(vs[i])
    ensures Replay(MarshalAll(vs), 0) == ReplayResult(DecodedAll(vs), None)
  {
    var d := MarshalAll(vs);
    assert d[0..|d|] == d;
    ReplayWhole(d, vs);
  }

  /** ReplayOfWrites over any d that holds exactly the frames of vs. */
  lemma ReplayWhole(d: seq<byte>, vs: seq<Value>)
    requires forall i :: 0 <= i < |vs| ==> Decodable(vs[i])
    requires At(d, 0, MarshalAll(vs)) && |d| == |MarshalAll(vs)|
    ensures Replay(d, 0) == ReplayResult(DecodedAll(vs), None)
  {
    ReplayFrames(d, 0, vs, |d|);
    ReplayAtEnd(d);
    assert DecodedAll(vs) + [] == DecodedAll(vs);
  }

  /** One more successful Write adds one more record to the replay. */
  lemma ReplayAfterWrite(vs: seq<Value>, v: Value)
    requires forall i :: 0 <= i < |vs| ==> Decodable(vs[i])
    requires Decodable(v)
    ensures Replay(MarshalAll(vs) + Delivered(Marshal(v), None), 0)
            == ReplayResult(DecodedAll(vs) + [Decoded(v)], None)
  {
    MarshalAllAppend(vs, v);
    ReplayOfWrites(vs + [v]);
    DecodedAllAppend(vs, v);
  }

  lemma {:induction false} DecodedAllAppend(vs: seq<Value>, v: Value)
    ensures DecodedAll(vs + [v]) == DecodedAll(vs) + [Decoded(v)]
  {
    if vs == [] {
      assert [] + [v] == [v];
    } else {
      assert (vs + [v])[1..] == vs[1..] + [v];
      DecodedAllAppend(vs[1..], v);
    }
  }

  /**
   * A record torn inside its first line (a tag byte and no complete line
   * after it, as a crash mid-Write leaves it) is EOF to the decoder, so Read
   * hands over the complete records before it and returns no error.
   */
  lemma TornHeaderIgnored(vs: seq<Value>, tag: byte, rest: seq<byte>)
    requires forall i :: 0 <= i < |vs| ==> Decodable(vs[i])
    requires tag == ArrayTag || tag == BulkTag
    requires forall i :: 0 <= i < |rest| ==> rest[i] != CR
    ensures Replay(MarshalAll(vs) + [tag] + rest, 0) == ReplayResult(DecodedAll(vs), None)
  {
    var m := MarshalAll(vs);
    var d := m + [tag] + rest;
    assert d[0..|m|] == m;
    assert d[|m|] == tag;
    forall j | |m| + 1 <= j < |d|
      ensures d[j] != CR
    {
      assert d[j] == rest[j - |m| - 1];
    }
    TornAfterFrames(d, vs, |m|);
  }

  /** TornHeaderIgnored over any d that holds the frames of vs and then a torn header at q. */
  lemma TornAfterFrames(d: seq<byte>, vs: seq<Value>, q: nat)
    requires forall i :: 0 <= i < |vs| ==> Decodable(vs[i])
    requires At(d, 0, MarshalAll(vs)) && q == |MarshalAll(vs)|
    requires q < |d| && (d[q] == ArrayTag || d[q] == BulkTag)
    requires forall j :: q + 1 <= j < |d| ==> d[j] != CR
    ensures Replay(d, 0) == ReplayResult(DecodedAll(vs), None)
  {
    ReplayFrames(d, 0, vs, q);
    TornHeaderIsEof(d, q);
    ReplayStep(d, q, ReadAt(d, q));
    assert DecodedAll(vs) + [] == DecodedAll(vs);
  }

  /** An array or bulk tag with no complete line after it reads as EOF. */
  lemma TornHeaderIsEof(d: seq<byte>, q: nat)
    requires q < |d| && (d[q] == ArrayTag || d[q] == BulkTag)
    requires forall j :: q + 1 <= j < |d| ==> d[j] != CR
    ensures ReadAt(d, q).err == Some(EOF)
  {
    var k := LineEnd(d, q + 1);
    assert k == |d|;
  }

  /**
   * A record whose length line is not a base-10 int64 stops the replay with
   * that parse error after the records before it; the consumer is not
   * called for it.
   */
  lemma BadLengthStopsReplay(vs: seq<Value>, tag: byte, line: seq<byte>, x: byte, rest: seq<byte>)
    requires forall i :: 0 <= i < |vs| ==> Decodable(vs[i])
    requires tag == ArrayTag || tag == BulkTag
    requires forall i :: 0 <= i < |line| ==> line[i] != CR
    requires forall n :: !Decimal.IsInt64Text(line, n)
    ensures var r := Replay(MarshalAll(vs) + [tag] + line + [CR, x] + rest, 0);
            r.calls == DecodedAll(vs) && r.err.Some? && r.err.value.ParseError?
  {
    var m := MarshalAll(vs);
    var d := m + [tag] + line + [CR, x] + rest;
    assert d[0..|m|] == m;
    assert d[|m|] == tag;
    assert d[|m| + 1..|m| + 1 + |line| + 2] == line + [CR, x];
    BadLengthAfterFrames(d, vs, |m|, line, x);
  }

  /** BadLengthStopsReplay over any d that holds the frames of vs and then the bad header at q. */
  lemma BadLengthAfterFrames(d: seq<byte>, vs: seq<Value>, q: nat, line: seq<byte>, x: byte)
    requires forall i :: 0 <= i < |vs| ==> Decodable(vs[i])
    requires At(d, 0, MarshalAll(vs)) && q == |MarshalAll(vs)|
    requires q < |d| && (d[q] == ArrayTag || d[q] == BulkTag)
    requires At(d, q + 1, line + [CR, x]) && forall i :: 0 <= i < |line| ==> line[i] != CR
    requires forall n :: !Decimal.IsInt64Text(line, n)
    ensures Replay(d, 0).calls == DecodedAll(vs) && Replay(d, 0).err.Some? && Replay(d, 0).err.value.ParseError?
  {
    ReplayFrames(d, 0, vs, q);
    BadLengthIsParseError(d, q, line, x);
    ReplayStep(d, q, ReadAt(d, q));
    assert DecodedAll(vs) + [] == DecodedAll(vs);
  }

  /** An array or bulk tag whose length line is not an int64 reads as a ParseError. */
  lemma BadLengthIsParseError(d: seq<byte>, q: nat, line: seq<byte>, x: byte)
    requires q < |d| && (d[q] == ArrayTag || d[q] == BulkTag)
    requires At(d, q + 1, line + [CR, x]) && forall i :: 0 <= i < |line| ==> line[i] != CR
    requires forall n :: !Decimal.IsInt64Text(line, n)
    ensures ReadAt(d, q).err.Some? && ReadAt(d, q).err.value.ParseError?
  {
    LineAt(d, q + 1, line, x);
    IntSpecMeaning(d, q + 1);
  }
}
