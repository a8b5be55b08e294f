# SwiftDB core: the RESP codec, the append-only log and PING

SwiftDB is a small Redis clone written in Go. This project models its core in Dafny and proves properties of the model. The core has three parts:

- the RESP codec in `resp/resp.go`:
  - `Value`;
  - the reader `Resp`, with `readLine`, `readInteger`, `Read`, `readArray` and `readBulk`;
  - the encoder `Marshal` and its helpers;
  - `Writer.Write`;
- the append-only command log in `aof/aof.go` (`Aof.Write` and `Aof.Read`);
- the command table in `handler/handler.go` (`ping` and `Handlers`).

The modules, one per concern:

- `Bytes` (`bytes.dfy`): bytes and CR/LF. Go strings and `[]byte` are both `seq<byte>`, except `Value.typ`, which is a Dafny `string` because it only ever holds the tag names.
- `Decimal` (`decimal.dfy`): `strconv.Itoa`, and `strconv.ParseInt(s, 10, 64)` written as Go implements it. There is an optional sign. The digits are scanned left to right. A non-digit is a syntax error. A running value above 2^64 - 1 is a range error, whichever of the two comes first. The int64 bound is checked last.
- `Resp` (`resp.dfy`):
  - the `Value` datatype (Go's `Array` field is `elems`, because `array` is a Dafny keyword);
  - `Marshal` and its helpers, as recursive functions;
  - `Writer`, a class over the bytes its sink received.
- `RespReader` (`resp_reader.dfy`): the class `Reader`, with a constant `data` and a position `pos`. Its methods are the Go reader methods. `ReadLine` and `ReadArray` keep Go's loops. The bufio calls are `ReadByte` and `ReadInto`. Each method is proved equal to a specification function of `(data, old(pos))` that also returns the final position:

  | function | specifies |
  |---|---|
  | `LineSpec` | `readLine` |
  | `IntSpec` | `readInteger` |
  | `ReadAt` | `Read` |
  | `ArraySpec` | `readArray` |
  | `ElemsSpec` | `readArray`'s loop |
  | `BulkSpec` | `readBulk` |

  The `*Meaning` lemmas state what these functions promise.
- `RespFrames` (`resp_frames.dfy`): what `Read` makes of `Marshal`'s output. These are the round trips, and the cases where there is none.
- `Aof` (`aof.dfy`): the log file as a byte sequence. `Write` appends to it. `Read` replays it from offset 0 and records, in order, the values handed to the consumer. `Replay` is the specification of that loop.
- `Handler` (`handler.dfy`): `Ping` and the one-entry `Handlers` map.

Where `resp.go` departs from the RESP protocol, the model follows `resp.go`:

- **Dispatch.** `Read` dispatches only on `*` and `$`. Any other tag byte gives the zero `Value` and no error.
- **Lengths.**
  - A negative length in a `*` or `$` header reaches `make` and panics. The model returns the error `NegativeLength`; there is no null decoding.
  - A bulk payload cut short is zero-padded, and no error is reported.
- **Lines.** The byte after a CR is consumed without being checked to be LF. The comments at resp/resp.go:52 and resp/resp.go:144 say that this byte is the LF of a CRLF.
- **Array tags.**
  - The decoder tags arrays `"array"`, but `Marshal` only knows `"Array"`. So a decoded array encodes to no bytes.
  - `Marshal` has no integer case and no null array.

## Model

| member | source | states |
|---|---|---|
| `Decimal.Itoa` | resp/resp.go:184 | `strconv.Itoa` of a length is non-empty, all digits, with no leading zero |
| `Decimal.ItoaValue` | resp/resp.go:184 | the digits of `Itoa(n)` denote n |
| `Decimal.ParseInt` | resp/resp.go:74 | a successful `ParseInt(s, 10, 64)` lies within the int64 range |
| `Decimal.ParseIntIff` | resp/resp.go:74 | `ParseInt` returns x exactly when the text is an optional sign and one or more digits denoting x, with x in the int64 range (both directions) |
| `Decimal.ScanDigitsIff` | resp/resp.go:74 | Go's digit loop succeeds with u exactly when the rest is all digits and the value u fits in 64 unsigned bits |
| `Decimal.ParseItoa` | resp/resp.go:184-197 | `ParseInt` inverts `Itoa` on every non-negative int64, the length headers' round trip |
| `Resp.MarshalEmptyIff` | resp/resp.go:153-168 | `Marshal` gives no bytes exactly when the tag is none of "Array", "Bulk", "string", "error", "null" (both directions) |
| `Resp.MarshalTagByte` | resp/resp.go:153-218 | every encoding Marshal emits has at least 3 bytes and starts with its kind's tag byte: `*`, `$` (Bulk and null), `+` or `-` |
| `Resp.MarshalAllAppend` | resp/resp.go:200-202 | encoding one more element appends exactly that element's encoding |
| `Resp.Delivered` | resp/resp.go:235 | what a sink keeps of a write is a prefix of the bytes, and all of them when it does not fail |
| `Resp.Writer.constructor` | resp/resp.go:226-228 | a new Writer's sink has received nothing |
| `Resp.Writer.Write` | resp/resp.go:232-240 | the sink receives `Marshal(v)`, or the prefix it accepted before failing; the sink's error is returned, and no error otherwise |
| `RespReader.LineEnd` | resp/resp.go:54-65 | where readLine's scan stops: the first CR that has a byte after it, with no such CR before it, or the end of the data |
| `RespReader.LineSpec` | resp/resp.go:53-67 | readLine never moves backwards, and a successful line consumes at least its two terminator bytes |
| `RespReader.IntSpec` | resp/resp.go:69-80 | readInteger never moves backwards, and a success consumes at least a terminated line |
| `RespReader.ReadAt` | resp/resp.go:83-99 | Read never moves backwards, advances on success, and returns a value tagged "", "array" or "Bulk" |
| `RespReader.ArraySpec` | resp/resp.go:102-125 | readArray always returns a value tagged "array" |
| `RespReader.ElemsSpec` | resp/resp.go:115-123 | readArray's loop yields all k elements when no Read fails, and fewer than k on the first error |
| `RespReader.BulkSpec` | resp/resp.go:128-149 | readBulk always returns a value tagged "Bulk" |
| `RespReader.Reader.constructor` | resp/resp.go:45-47 | NewResp starts at the beginning of its source |
| `RespReader.Reader.ReadByte` | resp/resp.go:55 | the next byte and one step forward, or EOF at the end with no move |
| `RespReader.Reader.ReadInto` | resp/resp.go:139 | the read fills the buffer's first min(len, remaining) bytes from the source, leaves the rest as it was, and advances by that much |
| `RespReader.Reader.ReadLine` | resp/resp.go:53-67 | the byte-at-a-time loop returns what `LineSpec` says and leaves the reader where it says |
| `RespReader.Reader.ReadInteger` | resp/resp.go:69-80 | results and new position are those of `IntSpec` |
| `RespReader.Reader.Read` | resp/resp.go:83-99 | results and new position are those of `ReadAt` |
| `RespReader.Reader.ReadArray` | resp/resp.go:102-125 | the counted loop over a slice of `length` zero Values returns what `ArraySpec` says, including the slots filled before an element error |
| `RespReader.Reader.ReadBulk` | resp/resp.go:128-149 | results and new position are those of `BulkSpec`; the payload read and the trailing readLine never produce an error |
| `RespReader.ElemsStep` | resp/resp.go:115-123 | one turn of readArray's loop: an element error ends it with that error, otherwise the element goes in front of the remaining turns |
| `RespReader.LineSpecMeaning` | resp/resp.go:53-67 | readLine succeeds iff a CR with a byte after it lies ahead; the line then holds the CR-free bytes before the first such CR, with n = len(line) + 2; otherwise EOF, consuming everything |
| `RespReader.IntSpecMeaning` | resp/resp.go:69-80 | EOF (with n = 0) exactly when readLine fails; otherwise a ParseError when the line is not a base-10 int64 text, else the number it denotes, with n the line's size |
| `RespReader.BulkSpecMeaning` | resp/resp.go:128-149 | readBulk succeeds iff its length line parses to a length ≥ 0, and then returns exactly that many bytes; otherwise the line's error or NegativeLength |
| `RespReader.ArraySpecMeaning` | resp/resp.go:102-125 | readArray returns exactly `length` slots: the elements read before the first element error, then zero Values; otherwise the length line's error or NegativeLength |
| `RespFrames.LineAt` | resp/resp.go:53-67 | readLine over CR-free bytes, a CR and any byte returns those bytes, with n counting the terminator, whether or not the last byte is LF |
| `RespFrames.IntAt` | resp/resp.go:69-80 | readInteger over `Itoa(n)` CRLF returns n |
| `RespFrames.ReadMarshalled` | resp/resp.go:83-218 | Read on the frame of a bulk value, or of an "Array" of such values at any depth, followed by anything, returns the value as decoded with no error and stops right after the frame |
| `RespFrames.ReadBulkFrame` | resp/resp.go:128-149 | Read on a "Bulk" frame returns a "Bulk" value with the same payload and stops after the trailing CRLF |
| `RespFrames.ReadArrayFrameOf` | resp/resp.go:102-125 | Read on an "Array" frame returns an "array" of the decoded elements and stops after the last element |
| `RespFrames.ReadMarshalledAll` | resp/resp.go:115-123 | readArray's loop over consecutive frames decodes them in order and stops after the last one |
| `RespFrames.BulkArrayRoundTrip` | resp/resp.go:102-149 | a client request (an "Array" of "Bulk" values) decodes to an "array" with the same count and the same payloads in order |
| `RespFrames.SimpleFrameSkipped` | resp/resp.go:90-98 | on a "string" or "error" frame, Read consumes only the tag byte and returns the zero Value with no error |
| `RespFrames.NullFramePanics` | resp/resp.go:132-137 | the null frame `$-1\r\n` is not decoded as a null: readBulk reaches `make` with length -1 |
| `RespFrames.TruncatedBulk` | resp/resp.go:137-148 | a bulk frame cut inside its payload still decodes without error, with the missing bytes zero, and the reader ends at the end of the data |
| `RespFrames.DecodedArrayNotReencoded` | resp/resp.go:153-168 | an array that Read produced (tag "array") encodes to no bytes, while a decoded "Bulk" encodes as a bulk string |
| `Aof.Replay` | aof/aof.go:93-104 | the replay loop never ends with EOF: EOF ends it without error |
| `Aof.Aof.constructor` | aof/aof.go:19-28 | NewAof on an existing file starts with its contents |
| `Aof.Aof.Write` | aof/aof.go:68-82 | the file becomes its old contents followed by `Marshal(value)` (or the prefix written before a failure); the write error is returned, no error otherwise |
| `Aof.Aof.Read` | aof/aof.go:85-107 | Read decodes from offset 0 whatever came before: the consumer's calls and the returned error are those of `Replay(file, 0)` |
| `Aof.ReplayStep` | aof/aof.go:94-103 | EOF stops the replay with no error; any other error stops it with that error and no call; a value is handed over before the rest |
| `Aof.ReplayAtEnd` | aof/aof.go:94-98 | replay at the end of the file calls nothing and returns no error |
| `Aof.ReplayFrames` | aof/aof.go:93-104 | a run of frames of decodable values is handed to the consumer one call per frame, in file order, before whatever follows |
| `Aof.ReplayOfWrites` | aof/aof.go:68-107 | a log built only by successful Writes of requests replays into exactly those requests as decoded, in order, with no error |
| `Aof.ReplayAfterWrite` | aof/aof.go:68-82 | one more successful Write adds exactly one more call at the end of the replay |
| `Aof.TornHeaderIgnored` | aof/aof.go:94-98 | a record torn inside its header line ends the replay at EOF: the complete records before it are handed over and no error is returned |
| `Aof.BadLengthStopsReplay` | aof/aof.go:98-101 | a record whose length line is not an int64 stops replay with that ParseError after the earlier records; it is not handed over |
| `Handler.Ping` | handler/handler.go:8-14 | ping replies with a simple string: `+PONG\r\n` on the wire with no arguments, otherwise `+` followed by the first argument's bulk payload and CRLF |
| `Handler.HandlersTable` | handler/handler.go:16-18 | the table has exactly the key "PING", bound to ping |
| `Handler.PingReply` | handler/handler.go:9-10 | the reply to a bare PING encodes to exactly `+PONG\r\n` |
| `Handler.PingEchoesFirst` | handler/handler.go:13 | ping with arguments echoes the first argument's bulk payload and ignores the others |

## Left out

- `main/main.go` (the TCP accept loop and the raw `+OK` reply) and `resp/read_resp.go` (a demo `main`) are not part of this model.
- The `Aof` mutex and the goroutine that calls `file.Sync` every second: these are concurrency and timing, with no effect on the file's contents.
- `Aof.Close`, and the open error of `NewAof`: plain file-handle management.
- All `fmt.Print*` logging, including `Read`'s "Unknown type" message.
- File offsets. `Write` always appends because of `O_APPEND`. `Read` always starts at offset 0 because of its `Seek`. So no offset is kept.
- The consumer `fn` of `Aof.Read` is not called. The model returns the sequence of values it would have been called with.
- `RespReader.Reader.ReadInto`: the model always copies min(len, remaining) bytes. bufio's `Read` does not: when its 4096-byte buffer already holds some bytes, it copies only those and makes no new read. In the program, a payload that runs past the buffered bytes comes back short and zero-padded, and the trailing `readLine` then starts inside the payload. `ReadMarshalled`, `BulkArrayRoundTrip` and `ReplayOfWrites` therefore describe the program only while each payload is already buffered. `readBulk` ignores the result and error of this read either way.
- Sinks (the `io.Writer` behind `resp.Writer`, the log file) are not modelled. Their behaviour is the parameter `fault`: None for success, or Some(k) for a failure after accepting k bytes. Any other I/O error of the byte source is not modelled. The source is a byte sequence that ends in EOF.
- `RespReader.Reader.ReadArray` and `RespReader.Reader.ReadBulk`: a negative length makes Go's `make` panic and crash the process. In the model it is the error `NegativeLength`, which `Aof.Read` returns like any other error. A length too large to allocate (out of memory) is not modelled.
- `Decimal.ParseInt`: the error is only its cause (`ErrSyntax` or `ErrRange`). The `*strconv.NumError` wrapper, which also carries the function name and the input, is not modelled.
- `Value.Num` and Go's `int` are unbounded integers here. The codec never reads or writes `Num`. Lengths pass through int64-checked `ParseInt`, and `Itoa` is only applied to lengths of actual sequences.
