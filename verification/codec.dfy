/** The frames of the QUIC streams: encoders, the incremental reader and the decoders. */
module Codec {
  import opened Common

  type Byte = b: int | 0 <= b < 256
  type Bytes = seq<Byte>

  const STREAM_INIT: Byte := 1
  const DATA: Byte := 2
  const REQUEST: Byte := 3
  const RESPONSE: Byte := 4

  const TWO_16: nat := 0x1_0000
  const TWO_32: nat := 0x1_0000_0000

  datatype Request = Request(correlationId: Bytes, payload: Bytes)
  datatype Response = Response(correlationId: Bytes, error: Bytes, payload: Bytes)

  /** What may follow the init frame on a stream. */
  datatype Frame = DataFrame(payload: Bytes) | RequestFrame(req: Request) | ResponseFrame(resp: Response)

  datatype IoError = EOF | UnexpectedEOF

  // ----- big-endian lengths; a longer length is cut to its low bits

  function U16(n: nat): (b: Bytes)
    ensures |b| == 2
  {
    var m := n % TWO_16;
    [m / 256, m % 256]
  }

  function U32(n: nat): (b: Bytes)
    ensures |b| == 4
  {
    var m := n % TWO_32;
    U16(m / TWO_16) + U16(m % TWO_16)
  }

  function ReadU16(b: Bytes): nat
    requires |b| == 2
  {
    (b[0] as int) * 256 + b[1] as int
  }

  function ReadU32(b: Bytes): nat
    requires |b| == 4
  {
    ReadU16(b[..2]) * TWO_16 + ReadU16(b[2..])
  }

  lemma U16Inverse(n: nat)
    ensures ReadU16(U16(n)) == n % TWO_16
  {
  }

  lemma ReadU16Inverse(b: Bytes)
    requires |b| == 2
    ensures U16(ReadU16(b)) == b && ReadU16(b) < TWO_16
  {
  }

  lemma U32Inverse(n: nat)
    ensures ReadU32(U32(n)) == n % TWO_32
  {
    var m := n % TWO_32;
    U16Inverse(m / TWO_16);
    U16Inverse(m % TWO_16);
    assert U32(n)[..2] == U16(m / TWO_16) && U32(n)[2..] == U16(m % TWO_16);
  }

  lemma Halves(hi: nat, lo: nat)
    requires hi < TWO_16 && lo < TWO_16
    ensures (hi * TWO_16 + lo) / TWO_16 == hi && (hi * TWO_16 + lo) % TWO_16 == lo && hi * TWO_16 + lo < TWO_32
  {
  }

  lemma ReadU32Inverse(b: Bytes)
    requires |b| == 4
    ensures U32(ReadU32(b)) == b && ReadU32(b) < TWO_32
  {
    hide U16, ReadU16;
    ReadU16Inverse(b[..2]);
    ReadU16Inverse(b[2..]);
    Halves(ReadU16(b[..2]), ReadU16(b[2..]));
    assert b == b[..2] + b[2..];
  }

  // ----- the wire format

  function Field16(v: Bytes): Bytes { U16(|v|) + v }

  function Field32(v: Bytes): Bytes { U32(|v|) + v }

  function StreamInitBytes(nodeId: Bytes, appId: Bytes, streamName: Bytes): Bytes {
    [STREAM_INIT] + Field16(nodeId) + Field16(appId) + Field16(streamName)
  }

  /** A frame without its type byte. */
  function Body(f: Frame): Bytes {
    match f
    case DataFrame(payload) => Field32(payload)
    case RequestFrame(Request(id, payload)) => Field16(id) + Field32(payload)
    case ResponseFrame(Response(id, error, payload)) => Field16(id) + Field16(error) + Field32(payload)
  }

  function FrameType(f: Frame): Byte {
    match f
    case DataFrame(_) => DATA
    case RequestFrame(_) => REQUEST
    case ResponseFrame(_) => RESPONSE
  }

  function Encode(f: Frame): Bytes {
    [FrameType(f)] + Body(f)
  }

  /** The lengths that the length fields can carry. */
  predicate InBounds(f: Frame) {
    match f
    case DataFrame(payload) => |payload| < TWO_32
    case RequestFrame(Request(id, payload)) => |id| < TWO_16 && |payload| < TWO_32
    case ResponseFrame(Response(id, error, payload)) => |id| < TWO_16 && |error| < TWO_16 && |payload| < TWO_32
  }

  // ----- the wire format in numbers

  /** The two bytes at a place hold a number below 2^16, high byte first. */
  predicate Holds16(b: Bytes, at: nat, n: nat) {
    at + 2 <= |b| && n == 256 * b[at] as int + b[at + 1] as int
  }

  predicate Holds32(b: Bytes, at: nat, n: nat) {
    at + 4 <= |b| &&
    n == 16777216 * b[at] as int + 65536 * b[at + 1] as int + 256 * b[at + 2] as int + b[at + 3] as int
  }

  lemma U16InNumbers(n: nat)
    requires n < 65536
    ensures U16(n)[0] as int * 256 + U16(n)[1] as int == n
  {
  }

  lemma U32InNumbers(n: nat)
    requires n < 4294967296
    ensures 16777216 * U32(n)[0] as int + 65536 * U32(n)[1] as int + 256 * U32(n)[2] as int + U32(n)[3] as int == n
  {
    var m := n % TWO_32;
    U16InNumbers(m / TWO_16);
    U16InNumbers(m % TWO_16);
    assert U32(n)[0] == U16(m / TWO_16)[0] && U32(n)[1] == U16(m / TWO_16)[1];
    assert U32(n)[2] == U16(m % TWO_16)[0] && U32(n)[3] == U16(m % TWO_16)[1];
  }

  /** A field inside a longer byte string. */
  lemma Field16Within(b: Bytes, before: Bytes, v: Bytes, after: Bytes)
    requires |v| < 65536 && b == before + Field16(v) + after
    ensures var at := |before|;
            |b| == at + 2 + |v| + |after| && Holds16(b, at, |v|) && b[at + 2..at + 2 + |v|] == v && b[at + 2 + |v|..] == after
  {
    hide U16;
    U16InNumbers(|v|);
    assert b == before + U16(|v|) + v + after;
  }

  lemma Field32Last(b: Bytes, before: Bytes, v: Bytes)
    requires |v| < 4294967296 && b == before + Field32(v)
    ensures |b| == |before| + 4 + |v| && Holds32(b, |before|, |v|) && b[|before| + 4..] == v
  {
    hide U32;
    U32InNumbers(|v|);
    assert b == before + U32(|v|) + v;
  }

  /** A DATA frame: the byte 2, four bytes of length, the payload. */
  lemma DataInNumbers(payload: Bytes)
    requires |payload| < 4294967296
    ensures var b := Encode(DataFrame(payload));
            |b| == 5 + |payload| && b[0] == 2 && Holds32(b, 1, |payload|) && b[5..] == payload
  {
    hide Field32, Holds32;
    Field32Last(Encode(DataFrame(payload)), [2], payload);
  }

  /** A REQUEST frame: the byte 3, two bytes of length and the correlation id, four bytes of
      length and the payload. */
  lemma RequestInNumbers(req: Request)
    requires |req.correlationId| < 65536 && |req.payload| < 4294967296
    ensures var b, n := Encode(RequestFrame(req)), |req.correlationId|;
            |b| == 7 + n + |req.payload| && b[0] == 3 && Holds16(b, 1, n) && b[3..3 + n] == req.correlationId &&
            Holds32(b, 3 + n, |req.payload|) && b[7 + n..] == req.payload
  {
    hide Field16, Field32, Holds16, Holds32;
    var Request(id, payload) := req;
    var b := Encode(RequestFrame(req));
    FieldSizes(id, payload);
    assert b == [3] + Field16(id) + Field32(payload);
    Field16Within(b, [3], id, Field32(payload));
    Field32Last(b, [3] + Field16(id), payload);
  }

  /** A RESPONSE frame: the byte 4, then correlation id, error and payload in the same way. */
  lemma ResponseInNumbers(resp: Response)
    requires |resp.correlationId| < 65536 && |resp.error| < 65536 && |resp.payload| < 4294967296
    ensures var b, n, e := Encode(ResponseFrame(resp)), |resp.correlationId|, |resp.error|;
            |b| == 9 + n + e + |resp.payload| && b[0] == 4 && Holds16(b, 1, n) && b[3..3 + n] == resp.correlationId &&
            Holds16(b, 3 + n, e) && b[5 + n..5 + n + e] == resp.error &&
            Holds32(b, 5 + n + e, |resp.payload|) && b[9 + n + e..] == resp.payload
  {
    hide Field16, Field32, Holds16, Holds32;
    var Response(id, error, payload) := resp;
    var b := Encode(ResponseFrame(resp));
    FieldSizes(id, payload);
    FieldSizes(error, payload);
    assert b == [4] + Field16(id) + (Field16(error) + Field32(payload));
    Field16Within(b, [4], id, Field16(error) + Field32(payload));
    assert b == ([4] + Field16(id)) + Field16(error) + Field32(payload);
    Field16Within(b, [4] + Field16(id), error, Field32(payload));
    Field32Last(b, [4] + Field16(id) + Field16(error), payload);
  }

  /** The init frame: the byte 1 and three names, each after two bytes of length. */
  lemma InitInNumbers(nodeId: Bytes, appId: Bytes, name: Bytes)
    requires |nodeId| < 65536 && |appId| < 65536 && |name| < 65536
    ensures var b, n, a := StreamInitBytes(nodeId, appId, name), |nodeId|, |appId|;
            |b| == 7 + n + a + |name| && b[0] == 1 && Holds16(b, 1, n) && b[3..3 + n] == nodeId &&
            Holds16(b, 3 + n, a) && b[5 + n..5 + n + a] == appId && Holds16(b, 5 + n + a, |name|) && b[7 + n + a..] == name
  {
    hide Field16, Holds16;
    var b := StreamInitBytes(nodeId, appId, name);
    FieldSizes(nodeId, []);
    FieldSizes(appId, []);
    assert b == [1] + Field16(nodeId) + (Field16(appId) + Field16(name));
    Field16Within(b, [1], nodeId, Field16(appId) + Field16(name));
    assert b == ([1] + Field16(nodeId)) + Field16(appId) + Field16(name);
    Field16Within(b, [1] + Field16(nodeId), appId, Field16(name));
    assert b == ([1] + Field16(nodeId) + Field16(appId)) + Field16(name) + [];
    Field16Within(b, [1] + Field16(nodeId) + Field16(appId), name, []);
  }

  // ----- reading, as a function of the bytes that are left

  datatype Parsed<T> = Parsed(value: T, rest: Bytes) | Broken(error: IoError)

  /** Fill a buffer of n bytes: an empty stream is EOF, a short one is an unexpected EOF. */
  function ReadFull(b: Bytes, n: nat): Parsed<Bytes> {
    if n <= |b| then Parsed(b[..n], b[n..])
    else if |b| == 0 then Broken(EOF)
    else Broken(UnexpectedEOF)
  }

  function ReadField16(b: Bytes): Parsed<Bytes> {
    match ReadFull(b, 2)
    case Broken(e) => Broken(e)
    case Parsed(len, rest) => ReadFull(rest, ReadU16(len))
  }

  function ReadField32(b: Bytes): Parsed<Bytes> {
    match ReadFull(b, 4)
    case Broken(e) => Broken(e)
    case Parsed(len, rest) => ReadFull(rest, ReadU32(len))
  }

  /** A length-prefixed field is read back exactly when it was written within its bound. */
  lemma Field16Exact(b: Bytes, v: Bytes, rest: Bytes)
    ensures ReadField16(b) == Parsed(v, rest) <==> |v| < TWO_16 && b == Field16(v) + rest
  {
    U16Inverse(|v|);
    if |b| >= 2 {
      ReadU16Inverse(b[..2]);
    }
    if |v| < TWO_16 && b == Field16(v) + rest {
      assert b[..2] == U16(|v|) && b[2..] == v + rest;
    }
    if ReadField16(b) == Parsed(v, rest) {
      assert b == b[..2] + (b[2..][..|v|] + b[2..][|v|..]);
    }
  }

  lemma Field32Reads(v: Bytes, rest: Bytes)
    requires |v| < TWO_32
    ensures ReadField32(Field32(v) + rest) == Parsed(v, rest)
  {
    U32Inverse(|v|);
    hide U32, ReadU32;
    var b := Field32(v) + rest;
    assert b[..4] == U32(|v|) && b[4..] == v + rest;
    assert ReadFull(b[4..], |v|) == Parsed(v, rest);
  }

  lemma Field32Read(b: Bytes, v: Bytes, rest: Bytes)
    requires ReadField32(b) == Parsed(v, rest)
    ensures |v| < TWO_32 && b == Field32(v) + rest
  {
    ReadU32Inverse(b[..4]);
    hide U32, ReadU32;
    assert b == b[..4] + b[4..] && b[4..] == v + rest;
  }

  lemma Field32Exact(b: Bytes, v: Bytes, rest: Bytes)
    ensures ReadField32(b) == Parsed(v, rest) <==> |v| < TWO_32 && b == Field32(v) + rest
  {
    hide ReadField32, Field32;
    if |v| < TWO_32 {
      Field32Reads(v, rest);
    }
    if ReadField32(b) == Parsed(v, rest) {
      Field32Read(b, v, rest);
    }
  }

  /** What the frame reader hands over: the type and the raw bytes after it (for a DATA frame
      the payload alone). */
  datatype Raw = Raw(frameType: Byte, payload: Bytes)

  function ReadRequestBody(b: Bytes): Parsed<Request> {
    match ReadField16(b)
    case Broken(e) => Broken(e)
    case Parsed(id, rest) =>
      match ReadField32(rest)
      case Broken(e) => Broken(e)
      case Parsed(payload, rest') => Parsed(Request(id, payload), rest')
  }

  function ReadResponseBody(b: Bytes): Parsed<Response> {
    match ReadField16(b)
    case Broken(e) => Broken(e)
    case Parsed(id, rest) =>
      match ReadField16(rest)
      case Broken(e) => Broken(e)
      case Parsed(error, rest') =>
        match ReadField32(rest')
        case Broken(e) => Broken(e)
        case Parsed(payload, rest'') => Parsed(Response(id, error, payload), rest'')
  }

  function ReadRaw(b: Bytes): Parsed<Raw> {
    match ReadFull(b, 1)
    case Broken(e) => Broken(e)
    case Parsed(t, rest) =>
      if t[0] == DATA then
        match ReadField32(rest)
        case Broken(e) => Broken(e)
        case Parsed(payload, rest') => Parsed(Raw(DATA, payload), rest')
      else if t[0] == REQUEST then
        match ReadRequestBody(rest)
        case Broken(e) => Broken(e)
        case Parsed(req, rest') => Parsed(Raw(REQUEST, Body(RequestFrame(req))), rest')
      else if t[0] == RESPONSE then
        match ReadResponseBody(rest)
        case Broken(e) => Broken(e)
        case Parsed(resp, rest') => Parsed(Raw(RESPONSE, Body(ResponseFrame(resp))), rest')
      else Parsed(Raw(t[0], []), rest)
  }

  /** The decoders work on a byte string of their own; whatever follows the payload is ignored. */
  function DecodeRequest(data: Bytes): Option<Request> {
    match ReadRequestBody(data)
    case Broken(_) => None
    case Parsed(req, _) => Some(req)
  }

  function DecodeResponse(data: Bytes): Option<Response> {
    match ReadResponseBody(data)
    case Broken(_) => None
    case Parsed(resp, _) => Some(resp)
  }

  /** A decoder accepts exactly the encodings, followed by anything. */
  lemma RequestBodyExact(b: Bytes, req: Request, rest: Bytes)
    ensures ReadRequestBody(b) == Parsed(req, rest) <==>
            InBounds(RequestFrame(req)) && b == Body(RequestFrame(req)) + rest
  {
    var Request(id, payload) := req;
    var tail := Field32(payload) + rest;
    Field16Exact(b, id, tail);
    Field32Exact(tail, payload, rest);
    assert Field16(id) + tail == Body(RequestFrame(req)) + rest;
    match ReadField16(b)
    case Broken(_) =>
    case Parsed(id', rest') =>
      Field16Exact(b, id', rest');
      Field32Exact(rest', payload, rest);
  }

  lemma ResponseBodyExact(b: Bytes, resp: Response, rest: Bytes)
    ensures ReadResponseBody(b) == Parsed(resp, rest) <==>
            InBounds(ResponseFrame(resp)) && b == Body(ResponseFrame(resp)) + rest
  {
    hide ReadField16, ReadField32, Field16, Field32;
    var Response(id, error, payload) := resp;
    var tail := Request(error, payload);  // laid out as the rest of a response
    var more := Body(RequestFrame(tail)) + rest;
    Field16Exact(b, id, more);
    RequestBodyExact(more, tail, rest);
    assert Field16(id) + more == Body(ResponseFrame(resp)) + rest;
    match ReadField16(b)
    case Broken(_) =>
    case Parsed(id', rest') =>
      Field16Exact(b, id', rest');
      RequestBodyExact(rest', tail, rest);
  }

  lemma DecodeRequestExact(data: Bytes, req: Request)
    ensures DecodeRequest(data) == Some(req) <==> InBounds(RequestFrame(req)) && Body(RequestFrame(req)) <= data
  {
    hide ReadRequestBody, Field16, Field32;
    var body := Body(RequestFrame(req));
    if body <= data {
      RequestBodyExact(data, req, data[|body|..]);
    }
    match ReadRequestBody(data)
    case Broken(_) =>
    case Parsed(req', rest) => RequestBodyExact(data, req', rest);
  }

  lemma DecodeResponseExact(data: Bytes, resp: Response)
    ensures DecodeResponse(data) == Some(resp) <==> InBounds(ResponseFrame(resp)) && Body(ResponseFrame(resp)) <= data
  {
    hide ReadResponseBody, Field16, Field32;
    var body := Body(ResponseFrame(resp));
    if body <= data {
      ResponseBodyExact(data, resp, data[|body|..]);
    }
    match ReadResponseBody(data)
    case Broken(_) =>
    case Parsed(resp', rest) => ResponseBodyExact(data, resp', rest);
  }

  // ----- messages: a frame read from the stream and decoded

  datatype Message = Got(frame: Frame) | Ignored(frameType: Byte) | Malformed

  /** What the read loop makes of a raw frame. */
  function Interpret(raw: Raw): Message {
    if raw.frameType == DATA then Got(DataFrame(raw.payload))
    else if raw.frameType == REQUEST then
      match DecodeRequest(raw.payload)
      case None => Malformed
      case Some(req) => Got(RequestFrame(req))
    else if raw.frameType == RESPONSE then
      match DecodeResponse(raw.payload)
      case None => Malformed
      case Some(resp) => Got(ResponseFrame(resp))
    else Ignored(raw.frameType)
  }

  function ReadMessage(b: Bytes): Parsed<Message> {
    match ReadRaw(b)
    case Broken(e) => Broken(e)
    case Parsed(raw, rest) => Parsed(Interpret(raw), rest)
  }

  /** Reading and decoding gives back a frame, and leaves what follows it, exactly when the
      bytes begin with the encoding of that frame and its lengths fit their fields. */
  lemma MessageExact(b: Bytes, f: Frame, rest: Bytes)
    ensures ReadMessage(b) == Parsed(Got(f), rest) <==> InBounds(f) && b == Encode(f) + rest
  {
    hide ReadField16, ReadField32, ReadRequestBody, ReadResponseBody, Field16, Field32;
    if |b| > 0 {
      var tail := b[1..];
      assert b == [b[0]] + tail;
      BodyRead(tail, b[0]);
      match f
      case DataFrame(payload) =>
        Field32Exact(tail, payload, rest);
      case RequestFrame(req) =>
        RequestBodyExact(tail, req, rest);
      case ResponseFrame(resp) =>
        ResponseBodyExact(tail, resp, rest);
      assert b == Encode(f) + rest <==> b[0] == FrameType(f) && tail == Body(f) + rest by {
        assert (Encode(f) + rest)[0] == FrameType(f) && (Encode(f) + rest)[1..] == Body(f) + rest;
        assert [FrameType(f)] + (Body(f) + rest) == Encode(f) + rest;
      }
    }
  }

  /** A frame of any other type has no body: the reader takes its type byte alone and the read
      loop ignores it. */
  lemma OtherTypesIgnored(t: Byte, rest: Bytes)
    ensures ReadMessage([t] + rest) == Parsed(Ignored(t), rest) <==> t != 2 && t != 3 && t != 4
  {
    assert ([t] + rest)[..1] == [t] && ([t] + rest)[1..] == rest;
  }

  /** The raw bytes of a request or response that was read always decode, to what was read. */
  lemma BodyRead(tail: Bytes, t: Byte)
    ensures ReadRequestBody(tail).Parsed? ==>
              DecodeRequest(Body(RequestFrame(ReadRequestBody(tail).value))) == Some(ReadRequestBody(tail).value)
    ensures ReadResponseBody(tail).Parsed? ==>
              DecodeResponse(Body(ResponseFrame(ReadResponseBody(tail).value))) == Some(ReadResponseBody(tail).value)
  {
    match ReadRequestBody(tail) {
      case Broken(_) =>
      case Parsed(req, rest) =>
        RequestBodyExact(tail, req, rest);
        DecodeRequestExact(Body(RequestFrame(req)), req);
    }
    match ReadResponseBody(tail) {
      case Broken(_) =>
      case Parsed(resp, rest) =>
        ResponseBodyExact(tail, resp, rest);
        DecodeResponseExact(Body(ResponseFrame(resp)), resp);
    }
  }

  // ----- more bytes do not change what was read

  lemma ReadFullExtends(b: Bytes, n: nat, more: Bytes)
    requires ReadFull(b, n).Parsed?
    ensures ReadFull(b + more, n) == Parsed(ReadFull(b, n).value, ReadFull(b, n).rest + more)
  {
    assert (b + more)[..n] == b[..n] && (b + more)[n..] == b[n..] + more;
  }

  lemma ReadField16Extends(b: Bytes, more: Bytes)
    requires ReadField16(b).Parsed?
    ensures ReadField16(b + more) == Parsed(ReadField16(b).value, ReadField16(b).rest + more)
  {
    ReadFullExtends(b, 2, more);
    ReadFullExtends(b[2..], ReadU16(b[..2]), more);
  }

  lemma ReadField32Extends(b: Bytes, more: Bytes)
    requires ReadField32(b).Parsed?
    ensures ReadField32(b + more) == Parsed(ReadField32(b).value, ReadField32(b).rest + more)
  {
    ReadFullExtends(b, 4, more);
    ReadFullExtends(b[4..], ReadU32(b[..4]), more);
  }

  lemma ReadMessageExtends(b: Bytes, more: Bytes)
    requires ReadMessage(b).Parsed?
    ensures ReadMessage(b + more) == Parsed(ReadMessage(b).value, ReadMessage(b).rest + more)
  {
    hide ReadField16, ReadField32, Interpret;
    var t, tail := b[0], b[1..];
    ReadFullExtends(b, 1, more);
    assert (b + more)[..1] == [t];
    if t == DATA {
      ReadField32Extends(tail, more);
    } else if t == REQUEST {
      ReadField16Extends(tail, more);
      ReadField32Extends(ReadField16(tail).rest, more);
    } else if t == RESPONSE {
      ReadField16Extends(tail, more);
      ReadField16Extends(ReadField16(tail).rest, more);
      ReadField32Extends(ReadField16(ReadField16(tail).rest).rest, more);
    }
  }

  /** A frame that is cut short is never mistaken for a message. */
  lemma CutFrameBreaks(f: Frame, n: nat)
    requires InBounds(f) && n < |Encode(f)|
    ensures ReadMessage(Encode(f)[..n]).Broken?
  {
    hide ReadMessage, InBounds;
    var cut, more := Encode(f)[..n], Encode(f)[n..];
    if ReadMessage(cut).Parsed? {
      ReadMessageExtends(cut, more);
      assert cut + more == Encode(f) == Encode(f) + [];
      MessageExact(Encode(f), f, []);
    }
  }

  // ----- whole streams

  function EncodeAll(fs: seq<Frame>): Bytes {
    if fs == [] then [] else Encode(fs[0]) + EncodeAll(fs[1..])
  }

  lemma ReadMessageShrinks(b: Bytes)
    requires ReadMessage(b).Parsed?
    ensures |ReadMessage(b).rest| < |b|
  {
    hide ReadU16, ReadU32, Interpret;
  }

  /** Read messages until a read fails. */
  function ReadAll(b: Bytes): (seq<Message>, IoError)
    decreases |b|
  {
    match ReadMessage(b)
    case Broken(e) => ([], e)
    case Parsed(m, rest) =>
      ReadMessageShrinks(b);
      var more := ReadAll(rest);
      ([m] + more.0, more.1)
  }

  function AllGot(fs: seq<Frame>): (ms: seq<Message>)
    ensures |ms| == |fs|
  {
    seq(|fs|, i requires 0 <= i < |fs| => Got(fs[i]))
  }

  predicate AllInBounds(fs: seq<Frame>) {
    forall f | f in fs :: InBounds(f)
  }

  /** Whatever frames are written to a stream, in whatever order, are read back as exactly
      those frames, and then the stream ends cleanly. */
  lemma {:induction false} StreamRoundTrip(fs: seq<Frame>)
    requires AllInBounds(fs)
    ensures ReadAll(EncodeAll(fs)) == (AllGot(fs), EOF)
  {
    hide Encode, InBounds, ReadMessage;
    EmptyStreamEnds();
    if fs != [] {
      MessageExact(EncodeAll(fs), fs[0], EncodeAll(fs[1..]));
      StreamRoundTrip(fs[1..]);
      assert AllGot(fs) == [Got(fs[0])] + AllGot(fs[1..]);
    }
  }

  lemma EmptyStreamEnds()
    ensures ReadMessage([]) == Broken(EOF)
  {
  }

  /** A stream that is cut anywhere is read back as the frames that were complete, and no
      other: k of them, where the cut falls inside frame k. The stream seems to end cleanly exactly
      when the cut is at a field boundary of that frame. */
  lemma {:induction false} CutStreamKeepsWholeFrames(fs: seq<Frame>, n: nat) returns (k: nat)
    requires AllInBounds(fs) && n < |EncodeAll(fs)|
    ensures k < |fs| && |EncodeAll(fs[..k])| <= n < |EncodeAll(fs[..k + 1])|
    ensures ReadAll(EncodeAll(fs)[..n]).0 == AllGot(fs[..k])
    ensures ReadAll(EncodeAll(fs)[..n]).1 == CutError(n - |EncodeAll(fs[..k])| in FieldBoundaries(fs[k]))
  {
    hide Encode, InBounds, ReadMessage, FieldBoundaries;
    var first, others := Encode(fs[0]), EncodeAll(fs[1..]);
    assert fs[..1] == [fs[0]] && EncodeAll([fs[0]]) == first + [];
    if n < |first| {
      k := 0;
      CutMessageError(fs[0], n);
      assert EncodeAll(fs)[..n] == first[..n];
    } else {
      var j := CutStreamKeepsWholeFrames(fs[1..], n - |first|);
      k := j + 1;
      assert EncodeAll(fs)[..n] == first + others[..n - |first|];
      MessageExact(EncodeAll(fs)[..n], fs[0], others[..n - |first|]);
      EncodeAllPrefix(fs, j);
      EncodeAllPrefix(fs, j + 1);
      assert AllGot(fs[..k]) == [Got(fs[0])] + AllGot(fs[1..][..j]);
    }
  }

  lemma CutMessageError(f: Frame, n: nat)
    requires InBounds(f) && n < |Encode(f)|
    ensures ReadMessage(Encode(f)[..n]) == Broken(CutError(n in FieldBoundaries(f)))
  {
    hide ReadRaw, FieldBoundaries, Encode, InBounds;
    CutFrameError(f, n);
  }

  lemma EncodeAllPrefix(fs: seq<Frame>, j: nat)
    requires j + 1 <= |fs|
    ensures EncodeAll(fs[..j + 1]) == Encode(fs[0]) + EncodeAll(fs[1..][..j])
  {
    assert fs[..j + 1][1..] == fs[1..][..j];
  }

  // ----- which error a cut frame gives

  /** What is left of a field that is cut, with what follows it, to n bytes. */
  lemma CutField16(v: Bytes, rest: Bytes, n: nat)
    requires |v| < TWO_16 && n <= 2 + |v| + |rest|
    ensures ReadField16((Field16(v) + rest)[..n]) ==
            if n < 2 + |v| then Broken(if n == 0 || n == 2 then EOF else UnexpectedEOF)
            else Parsed(v, rest[..n - 2 - |v|])
  {
    var b := (Field16(v) + rest)[..n];
    if n >= 2 + |v| {
      assert b == Field16(v) + rest[..n - 2 - |v|];
      Field16Exact(b, v, rest[..n - 2 - |v|]);
    } else if n >= 2 {
      assert b[..2] == U16(|v|);
      U16Inverse(|v|);
    }
  }

  lemma CutField32(v: Bytes, rest: Bytes, n: nat)
    requires |v| < TWO_32 && n <= 4 + |v| + |rest|
    ensures ReadField32((Field32(v) + rest)[..n]) ==
            if n < 4 + |v| then Broken(if n == 0 || n == 4 then EOF else UnexpectedEOF)
            else Parsed(v, rest[..n - 4 - |v|])
  {
    hide ReadU32, U32;
    var b := (Field32(v) + rest)[..n];
    if n >= 4 + |v| {
      assert b == Field32(v) + rest[..n - 4 - |v|];
      Field32Exact(b, v, rest[..n - 4 - |v|]);
    } else if n >= 4 {
      assert b[..4] == U32(|v|);
      U32Inverse(|v|);
    }
  }

  /** The places between the parts of a frame: after the type byte, and before and after each
      length-prefixed value. */
  function FieldBoundaries(f: Frame): set<nat> {
    match f
    case DataFrame(_) => {0, 1, 5}
    case RequestFrame(Request(id, _)) => {0, 1, 3, 3 + |id|, 7 + |id|}
    case ResponseFrame(Response(id, error, _)) =>
      {0, 1, 3, 3 + |id|, 5 + |id|, 5 + |id| + |error|, 9 + |id| + |error|}
  }

  function CutError(boundary: bool): IoError {
    if boundary then EOF else UnexpectedEOF
  }

  lemma FieldSizes(v: Bytes, w: Bytes)
    ensures |Field16(v)| == 2 + |v| && |Field32(w)| == 4 + |w|
  {
  }

  lemma CutRequestBody(req: Request, n: nat)
    requires InBounds(RequestFrame(req)) && n < |Body(RequestFrame(req))|
    ensures ReadRequestBody(Body(RequestFrame(req))[..n]) == Broken(CutError(n + 1 in FieldBoundaries(RequestFrame(req))))
  {
    hide ReadField16, ReadField32;
    var Request(id, payload) := req;
    CutField16(id, Field32(payload), n);
    if n >= 2 + |id| {
      assert Field32(payload) + [] == Field32(payload);
      CutField32(payload, [], n - 2 - |id|);
    }
  }

  lemma CutResponseBody(resp: Response, n: nat)
    requires InBounds(ResponseFrame(resp)) && n < |Body(ResponseFrame(resp))|
    ensures ReadResponseBody(Body(ResponseFrame(resp))[..n]) == Broken(CutError(n + 1 in FieldBoundaries(ResponseFrame(resp))))
  {
    hide ReadField16, ReadField32, Field16, Field32;
    var Response(id, error, payload) := resp;
    var tail := RequestFrame(Request(error, payload));  // laid out as the rest of a response
    assert Body(ResponseFrame(resp)) == Field16(id) + Body(tail);
    FieldSizes(id, payload);
    CutField16(id, Body(tail), n);
    if n >= 2 + |id| {
      CutRequestBody(tail.req, n - 2 - |id|);
    }
  }

  /** The reader cannot always tell a cut from a clean end: a frame of any type that is cut at
      a field boundary reads as EOF, the same as a closed stream, and a frame that is cut
      anywhere else as a broken one. */
  lemma CutFrameError(f: Frame, n: nat)
    requires InBounds(f) && n < |Encode(f)|
    ensures ReadRaw(Encode(f)[..n]) == Broken(if n in FieldBoundaries(f) then EOF else UnexpectedEOF)
  {
    hide ReadField16, ReadField32, ReadRequestBody, ReadResponseBody, Field16, Field32;
    if n >= 1 {
      var b := Encode(f)[..n];
      assert b == [FrameType(f)] + Body(f)[..n - 1];
      assert b[..1] == [FrameType(f)] && b[1..] == Body(f)[..n - 1];
      match f
      case DataFrame(payload) =>
        FieldSizes([], payload);
        assert Field32(payload) + [] == Field32(payload);
        CutField32(payload, [], n - 1);
      case RequestFrame(req) => CutRequestBody(req, n - 1);
      case ResponseFrame(resp) => CutResponseBody(resp, n - 1);
    }
  }

  // ----- the init frame

  function ReadInit(b: Bytes): Parsed<(Bytes, Bytes, Bytes)> {
    match ReadField16(b)
    case Broken(e) => Broken(e)
    case Parsed(nodeId, rest) =>
      match ReadField16(rest)
      case Broken(e) => Broken(e)
      case Parsed(appId, rest') =>
        match ReadField16(rest')
        case Broken(e) => Broken(e)
        case Parsed(name, rest'') => Parsed((nodeId, appId, name), rest'')
  }

  lemma ReadInitExact(b: Bytes, nodeId: Bytes, appId: Bytes, name: Bytes, rest: Bytes)
    ensures ReadInit(b) == Parsed((nodeId, appId, name), rest) <==>
            |nodeId| < TWO_16 && |appId| < TWO_16 && |name| < TWO_16 &&
            [STREAM_INIT] + b == StreamInitBytes(nodeId, appId, name) + rest
  {
    hide Field16, ReadFull;
    var body := Field16(nodeId) + (Field16(appId) + (Field16(name) + rest));
    assert StreamInitBytes(nodeId, appId, name) + rest == [STREAM_INIT] + body;
    assert [STREAM_INIT] + b == [STREAM_INIT] + body <==> b == body by {
      assert ([STREAM_INIT] + b)[1..] == b && ([STREAM_INIT] + body)[1..] == body;
    }
    Field16Exact(b, nodeId, Field16(appId) + (Field16(name) + rest));
    Field16Exact(Field16(appId) + (Field16(name) + rest), appId, Field16(name) + rest);
    Field16Exact(Field16(name) + rest, name, rest);
    match ReadField16(b)
    case Broken(_) =>
    case Parsed(x, rest') =>
      Field16Exact(b, x, rest');
      match ReadField16(rest')
      case Broken(_) =>
      case Parsed(y, rest'') =>
        Field16Exact(rest', y, rest'');
        Field16Exact(rest'', name, rest);
  }

  /** What the accepting side gets from a stream: it must open with an init frame. */
  function AcceptStream(b: Bytes): Option<((Bytes, Bytes, Bytes), (seq<Message>, IoError))> {
    match ReadFull(b, 1)
    case Broken(_) => None
    case Parsed(t, rest) =>
      if t[0] != STREAM_INIT then None
      else
        match ReadInit(rest)
        case Broken(_) => None
        case Parsed(names, rest') => Some((names, ReadAll(rest')))
  }

  /** A stream that opens with an init frame and carries any frames is accepted under its
      three names and read back as exactly those frames. */
  lemma OpenedStreamRoundTrip(nodeId: Bytes, appId: Bytes, name: Bytes, fs: seq<Frame>)
    requires |nodeId| < TWO_16 && |appId| < TWO_16 && |name| < TWO_16 && AllInBounds(fs)
    ensures AcceptStream(StreamInitBytes(nodeId, appId, name) + EncodeAll(fs)) ==
            Some(((nodeId, appId, name), (AllGot(fs), EOF)))
  {
    hide ReadInit, ReadAll;
    var b := StreamInitBytes(nodeId, appId, name) + EncodeAll(fs);
    assert b == [STREAM_INIT] + b[1..];
    ReadInitExact(b[1..], nodeId, appId, name, EncodeAll(fs));
    StreamRoundTrip(fs);
  }

  // ----- the code that runs: encoders, reader, decoders

  method AppendUint16(buf: Bytes, n: nat) returns (r: Bytes)
    ensures r == buf + U16(n)
  {
    var low := n % TWO_16;
    r := buf + [low / 256] + [low % 256];
  }

  method AppendUint32(buf: Bytes, n: nat) returns (r: Bytes)
    ensures r == buf + U32(n)
  {
    var low := n % TWO_32;
    r := AppendUint16(buf, low / TWO_16);
    r := AppendUint16(r, low % TWO_16);
  }

  method EncodeStreamInit(nodeId: Bytes, appId: Bytes, streamName: Bytes) returns (buf: Bytes)
    ensures buf == StreamInitBytes(nodeId, appId, streamName)
  {
    buf := [STREAM_INIT];
    buf := AppendUint16(buf, |nodeId|);
    buf := buf + nodeId;
    buf := AppendUint16(buf, |appId|);
    buf := buf + appId;
    buf := AppendUint16(buf, |streamName|);
    buf := buf + streamName;
  }

  method EncodeDataFrame(payload: Bytes) returns (buf: Bytes)
    ensures buf == Encode(DataFrame(payload))
  {
    buf := [DATA];
    buf := AppendUint32(buf, |payload|);
    buf := buf + payload;
  }

  method EncodeRequestFrame(req: Request) returns (buf: Bytes)
    ensures buf == Encode(RequestFrame(req))
  {
    hide U16, U32;
    buf := [REQUEST];
    buf := AppendUint16(buf, |req.correlationId|);
    buf := buf + req.correlationId;
    assert buf == [REQUEST] + Field16(req.correlationId);
    buf := AppendUint32(buf, |req.payload|);
    buf := buf + req.payload;
    assert buf == [REQUEST] + (Field16(req.correlationId) + Field32(req.payload));
  }

  method EncodeResponseFrame(resp: Response) returns (buf: Bytes)
    ensures buf == Encode(ResponseFrame(resp))
  {
    hide U16, U32;
    buf := [RESPONSE];
    buf := AppendUint16(buf, |resp.correlationId|);
    buf := buf + resp.correlationId;
    assert buf == [RESPONSE] + Field16(resp.correlationId);
    buf := AppendUint16(buf, |resp.error|);
    if |resp.error| > 0 {
      buf := buf + resp.error;
    }
    assert buf == [RESPONSE] + (Field16(resp.correlationId) + Field16(resp.error));
    buf := AppendUint32(buf, |resp.payload|);
    buf := buf + resp.payload;
    assert buf == [RESPONSE] + (Field16(resp.correlationId) + Field16(resp.error) + Field32(resp.payload));
  }

  /** A byte stream with a read position. */
  class Stream {
    const data: Bytes
    var pos: nat

    ghost predicate Valid()
      reads this
    {
      pos <= |data|
    }

    /** The bytes not read yet. */
    ghost function Rest(): Bytes
      reads this
      requires Valid()
    {
      data[pos..]
    }

    constructor (data: Bytes)
      ensures Valid() && Rest() == data
    {
      this.data, pos := data, 0;
    }

    /** Fill a buffer of n bytes; a read that fails leaves nothing unread. */
    method Fill(n: nat) returns (r: Result<Bytes, IoError>)
      requires Valid()
      modifies this
      ensures Valid()
      ensures r.Success? ==> ReadFull(old(Rest()), n) == Parsed(r.value, Rest())
      ensures r.Failure? ==> ReadFull(old(Rest()), n) == Broken(r.error) && Rest() == []
    {
      if n == 0 {
        return Success([]);
      }
      if pos == |data| {
        return Failure(EOF);
      }
      if |data| - pos < n {
        pos := |data|;
        return Failure(UnexpectedEOF);
      }
      var buf := data[pos..pos + n];
      assert data[pos..][..n] == buf && data[pos..][n..] == data[pos + n..];
      pos := pos + n;
      return Success(buf);
    }

    /** Read a two-byte length and that many bytes; also give back the raw length. */
    method Fill16() returns (r: Result<(Bytes, Bytes), IoError>)
      requires Valid()
      modifies this
      ensures Valid()
      ensures r.Success? ==> ReadField16(old(Rest())) == Parsed(r.value.1, Rest()) && r.value.0 == U16(|r.value.1|)
      ensures r.Failure? ==> ReadField16(old(Rest())) == Broken(r.error) && Rest() == []
    {
      var lenBuf := Fill(2);
      if lenBuf.Failure? {
        return Failure(lenBuf.error);
      }
      ReadU16Inverse(lenBuf.value);
      var value := Fill(ReadU16(lenBuf.value));
      if value.Failure? {
        return Failure(value.error);
      }
      return Success((lenBuf.value, value.value));
    }

    method Fill32() returns (r: Result<(Bytes, Bytes), IoError>)
      requires Valid()
      modifies this
      ensures Valid()
      ensures r.Success? ==> ReadField32(old(Rest())) == Parsed(r.value.1, Rest()) && r.value.0 == U32(|r.value.1|)
      ensures r.Failure? ==> ReadField32(old(Rest())) == Broken(r.error) && Rest() == []
    {
      var lenBuf := Fill(4);
      if lenBuf.Failure? {
        return Failure(lenBuf.error);
      }
      ReadU32Inverse(lenBuf.value);
      var value := Fill(ReadU32(lenBuf.value));
      if value.Failure? {
        return Failure(value.error);
      }
      return Success((lenBuf.value, value.value));
    }

    /** The frame reader: it consumes exactly one frame, or fails with nothing left unread. */
    method ReadFrame() returns (r: Result<Raw, IoError>)
      requires Valid()
      modifies this
      ensures Valid()
      ensures r.Success? ==> ReadRaw(old(Rest())) == Parsed(r.value, Rest())
      ensures r.Failure? ==> ReadRaw(old(Rest())) == Broken(r.error) && Rest() == []
    {
      hide ReadField16, ReadField32;
      var typeBuf := Fill(1);
      if typeBuf.Failure? {
        return Failure(typeBuf.error);
      }
      var frameType := typeBuf.value[0];
      if frameType == STREAM_INIT {
        return Success(Raw(frameType, []));
      }
      if frameType == DATA {
        var field := Fill32();
        if field.Failure? {
          return Failure(field.error);
        }
        return Success(Raw(frameType, field.value.1));
      }
      if frameType == REQUEST || frameType == RESPONSE {
        var id := Fill16();
        if id.Failure? {
          return Failure(id.error);
        }
        var payload := id.value.0 + id.value.1;
        if frameType == RESPONSE {
          var error := Fill16();
          if error.Failure? {
            return Failure(error.error);
          }
          assert payload + (error.value.0 + error.value.1) == payload + error.value.0 + error.value.1;
          payload := payload + error.value.0 + error.value.1;
        }
        var field := Fill32();
        if field.Failure? {
          return Failure(field.error);
        }
        assert field.value.0 + field.value.1 == Field32(field.value.1);
        assert payload + (field.value.0 + field.value.1) == payload + field.value.0 + field.value.1;
        payload := payload + field.value.0 + field.value.1;
        return Success(Raw(frameType, payload));
      }
      return Success(Raw(frameType, []));
    }

    /** Read the three names of an init frame whose type byte was already read. */
    method DecodeStreamInit() returns (r: Result<(Bytes, Bytes, Bytes), IoError>)
      requires Valid()
      modifies this
      ensures Valid()
      ensures r.Success? ==> ReadInit(old(Rest())) == Parsed(r.value, Rest())
      ensures r.Failure? ==> ReadInit(old(Rest())) == Broken(r.error)
    {
      hide ReadField16;
      var nodeId := Fill16();
      if nodeId.Failure? {
        return Failure(nodeId.error);
      }
      var appId := Fill16();
      if appId.Failure? {
        return Failure(appId.error);
      }
      var streamName := Fill16();
      if streamName.Failure? {
        return Failure(streamName.error);
      }
      return Success((nodeId.value.1, appId.value.1, streamName.value.1));
    }
  }

  /** Reading a field at an offset of a byte string. */
  lemma Field16At(data: Bytes, at: nat)
    requires at <= |data|
    ensures at == 0 ==> data[at..] == data
    ensures at + 2 > |data| ==> ReadField16(data[at..]).Broken?
    ensures at + 2 <= |data| ==>
              var end := at + 2 + ReadU16(data[at..at + 2]);
              if end <= |data| then ReadField16(data[at..]) == Parsed(data[at + 2..end], data[end..])
              else ReadField16(data[at..]).Broken?
  {
    if at + 2 <= |data| {
      assert data[at..][..2] == data[at..at + 2] && data[at..][2..] == data[at + 2..];
      var len := ReadU16(data[at..at + 2]);
      if at + 2 + len <= |data| {
        assert data[at + 2..][..len] == data[at + 2..at + 2 + len];
        assert data[at + 2..][len..] == data[at + 2 + len..];
      }
    }
  }

  lemma Field32At(data: Bytes, at: nat)
    requires at <= |data|
    ensures at + 4 > |data| ==> ReadField32(data[at..]).Broken?
    ensures at + 4 <= |data| ==>
              var end := at + 4 + ReadU32(data[at..at + 4]);
              if end <= |data| then ReadField32(data[at..]) == Parsed(data[at + 4..end], data[end..])
              else ReadField32(data[at..]).Broken?
  {
    if at + 4 <= |data| {
      assert data[at..][..4] == data[at..at + 4] && data[at..][4..] == data[at + 4..];
      var len := ReadU32(data[at..at + 4]);
      if at + 4 + len <= |data| {
        assert data[at + 4..][..len] == data[at + 4..at + 4 + len];
        assert data[at + 4..][len..] == data[at + 4 + len..];
      }
    }
  }

  /** A response the decoder writes through; it may hold an earlier response. */
  class ResponseBuffer {
    var correlationId: Bytes
    var error: Bytes
    var payload: Bytes

    constructor ()
      ensures correlationId == [] && error == [] && payload == []
    {
      correlationId, error, payload := [], [], [];
    }

    /** Decode into this buffer. An empty error field leaves the error as it was, so only a
        fresh buffer is sure to hold the response that was sent. */
    method DecodeFrom(frameData: Bytes) returns (ok: bool)
      modifies this
      ensures ok <==> DecodeResponse(frameData).Some?
      ensures ok ==> var resp := DecodeResponse(frameData).value;
                     correlationId == resp.correlationId && payload == resp.payload &&
                     error == if resp.error == [] then old(error) else resp.error
      ensures ReadField16(frameData).Broken? ==> correlationId == old(correlationId)
    {
      hide ReadField16, ReadField32;
      Field16At(frameData, 0);
      if |frameData| < 2 {
        return false;
      }
      var offset := 0;
      var correlationIdLen := ReadU16(frameData[offset..offset + 2]);
      offset := offset + 2;
      if |frameData| < offset + correlationIdLen {
        return false;
      }
      correlationId := frameData[offset..offset + correlationIdLen];
      offset := offset + correlationIdLen;
      Field16At(frameData, offset);
      if |frameData| < offset + 2 {
        return false;
      }
      var errorLen := ReadU16(frameData[offset..offset + 2]);
      offset := offset + 2;
      if |frameData| < offset + errorLen {
        return false;
      }
      if errorLen > 0 {
        error := frameData[offset..offset + errorLen];
        offset := offset + errorLen;
      }
      Field32At(frameData, offset);
      if |frameData| < offset + 4 {
        return false;
      }
      var payloadLen := ReadU32(frameData[offset..offset + 4]);
      offset := offset + 4;
      if |frameData| < offset + payloadLen {
        return false;
      }
      payload := frameData[offset..offset + payloadLen];
      return true;
    }
  }

  class RequestBuffer {
    var correlationId: Bytes
    var payload: Bytes

    constructor ()
      ensures correlationId == [] && payload == []
    {
      correlationId, payload := [], [];
    }

    method DecodeFrom(frameData: Bytes) returns (ok: bool)
      modifies this
      ensures ok <==> DecodeRequest(frameData).Some?
      ensures ok ==> DecodeRequest(frameData) == Some(Request(correlationId, payload))
    {
      hide ReadField16, ReadField32;
      Field16At(frameData, 0);
      if |frameData| < 2 {
        return false;
      }
      var offset := 0;
      var correlationIdLen := ReadU16(frameData[offset..offset + 2]);
      offset := offset + 2;
      if |frameData| < offset + correlationIdLen {
        return false;
      }
      correlationId := frameData[offset..offset + correlationIdLen];
      offset := offset + correlationIdLen;
      Field32At(frameData, offset);
      if |frameData| < offset + 4 {
        return false;
      }
      var payloadLen := ReadU32(frameData[offset..offset + 4]);
      offset := offset + 4;
      if |frameData| < offset + payloadLen {
        return false;
      }
      payload := frameData[offset..offset + payloadLen];
      return true;
    }
  }
}
