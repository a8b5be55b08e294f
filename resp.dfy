/**
 * The value model and the encoder of the RESP codec (package resp), plus the
 * Writer that sends an encoded value to a byte sink.
 */
module Resp {
  import opened Bytes
  import opened Decimal
  import opened Wrappers

  // The tag bytes of the wire format.
  const StringTag: byte := 43   // '+'
  const ErrorTag: byte := 45    // '-'
  const IntegerTag: byte := 58  // ':'
  const BulkTag: byte := 36     // '$'
  const ArrayTag: byte := 42    // '*'

  /**
   * resp.Value. `typ` is a free-form string (Go Typ; `elems` is Go Array): the decoder writes "array" and
   * "Bulk", the encoder recognises "Array", "Bulk", "string", "error" and
   * "null". `str` and `bulk` are Go strings, that is bytes.
   */
  datatype Value = Value(typ: string, str: seq<byte>, num: int, bulk: seq<byte>, elems: seq<Value>)

  /** Go's zero value `Value{}`. */
  const Empty: Value := Value("", [], 0, [], [])

  /** The tags Marshal has a case for. */
  const MarshalledTags: set<string> := {"Array", "Bulk", "string", "error", "null"}

  /**
   * The errors a read or a write can end with: io.EOF from the byte source,
   * a strconv error on a length line, the panic of `make` on a negative
   * length, and a failure reported by a byte sink.
   */
  datatype Error = EOF | ParseError(cause: NumError) | NegativeLength | IoError

  // ---- Marshal ----------------------------------------------------------

  /** Value.Marshal: the wire form selected by the tag string, empty for any other tag. */
  function Marshal(v: Value): (wire: seq<byte>)
    decreases v, 1
  {
    if v.typ == "Array" then MarshalArray(v)
    else if v.typ == "Bulk" then MarshalBulk(v)
    else if v.typ == "string" then MarshalString(v)
    else if v.typ == "null" then MarshalNull(v)
    else if v.typ == "error" then MarshalError(v)
    else []
  }

  /** `+<str>\r\n` */
  function MarshalString(v: Value): (wire: seq<byte>) {
    [StringTag] + v.str + CRLF
  }

  /** `$<len>\r\n<bulk>\r\n` */
  function MarshalBulk(v: Value): (wire: seq<byte>) {
    [BulkTag] + Itoa(|v.bulk|) + CRLF + v.bulk + CRLF
  }

  /** `*<count>\r\n` followed by the elements' encodings. */
  function MarshalArray(v: Value): (wire: seq<byte>)
    decreases v, 0
  {
    [ArrayTag] + Itoa(|v.elems|) + CRLF + MarshalAll(v.elems)
  }

  /** The concatenated encodings of a sequence of values, in order. */
  function MarshalAll(vs: seq<Value>): (wire: seq<byte>)
    decreases vs
  {
    if vs == [] then [] else Marshal(vs[0]) + MarshalAll(vs[1..])
  }

  /** `-<str>\r\n` */
  function MarshalError(v: Value): (wire: seq<byte>) {
    [ErrorTag] + v.str + CRLF
  }

  /** `$-1\r\n`, whatever the other fields hold. */
  function MarshalNull(v: Value): (wire: seq<byte>) {
    [BulkTag, Minus, 49, CR, LF]
  }

  /** Marshal produces no bytes exactly for the tags it has no case for. */
  lemma MarshalEmptyIff(v: Value)
    ensures Marshal(v) == [] <==> v.typ !in MarshalledTags
  {
    if v.typ in MarshalledTags {
      MarshalTagByte(v);
    }
  }

  /** Every non-empty encoding begins with the tag byte of its kind. */
  lemma MarshalTagByte(v: Value)
    requires v.typ in MarshalledTags
    ensures |Marshal(v)| >= 3
    ensures Marshal(v)[0] == (if v.typ == "Array" then ArrayTag
                              else if v.typ == "Bulk" || v.typ == "null" then BulkTag
                              else if v.typ == "string" then StringTag
                              else ErrorTag)
  {
  }

  /** Encoding a sequence one more value at a time appends that value's encoding. */
  lemma {:induction false} MarshalAllAppend(vs: seq<Value>, v: Value)
    ensures MarshalAll(vs + [v]) == MarshalAll(vs) + Marshal(v)
  {
    if vs == [] {
      assert [] + [v] == [v];
    } else {
      assert (vs + [v])[1..] == vs[1..] + [v];
      MarshalAllAppend(vs[1..], v);
    }
  }

  // ---- Writer -------------------------------------------------------------

  /**
   * The bytes an io.Writer keeps of `p`: all of them, or, when it fails, the
   * first `accepted` of them (`fault == Some(accepted)`).
   */
  function Delivered(p: seq<byte>, fault: Option<nat>): (q: seq<byte>)
    ensures q <= p
    ensures fault.None? ==> q == p
  {
    match fault
    case None => p
    case Some(accepted) => if accepted < |p| then p[..accepted] else p
  }

  /** resp.Writer over an abstract sink whose received bytes are `sent`. */
  class Writer {
    var sent: seq<byte>

    constructor ()
      ensures sent == []
    {
      sent := [];
    }

    /**
     * Writer.Write: hands exactly Marshal(v) to the sink, and returns the
     * sink's error if it reports one. The sink's behaviour is the parameter
     * `fault`.
     */
    method Write(v: Value, fault: Option<nat>) returns (err: Option<Error>)
      modifies this
      ensures sent == old(sent) + Delivered(Marshal(v), fault)
      ensures err == if fault.None? then None else Some(IoError)
    {
      var bytes := Marshal(v);
      sent := sent + Delivered(bytes, fault);
      if fault.Some? {
        return Some(IoError);
      }
      return None;
    }
  }
}
