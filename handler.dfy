/** The command table (package handler): the PING handler and the map that registers it. */
module Handler {
  import opened Bytes
  import opened Resp

  const Pong: seq<byte> := Ascii("PONG")

  /**
   * ping: a simple-string reply with PONG when called without arguments and
   * with the first argument's bulk payload otherwise; later arguments do not
   * matter.
   */
  function Ping(args: seq<Value>): (r: Value)
    ensures r.typ == "string"
    ensures Marshal(r) == [StringTag] + (if |args| == 0 then Pong else args[0].bulk) + CRLF
  {
    if |args| == 0 then Empty.(typ := "string", str := Pong)
    else Empty.(typ := "string", str := args[0].bulk)
  }

  /** Handlers: one command, PING. */
  const Handlers: map<string, seq<Value> -> Value> := map["PING" := Ping]

  lemma HandlersTable()
    ensures Handlers.Keys == {"PING"}
    ensures forall args :: Handlers["PING"](args) == Ping(args)
  {
  }

  /** The reply to a bare PING on the wire is exactly `+PONG\r\n`. */
  lemma PingReply()
    ensures Marshal(Ping([])) == Ascii("+PONG\r\n")
  {
    assert Marshal(Ping([])) == [StringTag] + Pong + CRLF;
    assert Ascii("+PONG\r\n") == [43, 80, 79, 78, 71, 13, 10];
  }

  /** Only the first argument of PING is used. */
  lemma PingEchoesFirst(x: Value, rest: seq<Value>)
    ensures Ping([x] + rest) == Ping([x])
    ensures Ping([x]).str == x.bulk
  {
  }
}
