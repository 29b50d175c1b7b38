/** The frames between client and parse daemon (malong-parse/src/protocol.rs, malong/parse-client.js). */
module Protocol {
  import opened Common

  type Byte = b: int | 0 <= b < 256

  /** 16 MiB: the largest payload a frame may announce. */
  const MAX_FRAME := 16 * 1024 * 1024

  const U32 := 0x1_0000_0000

  /** The parameters of a request, as far as the daemon's framing looks into them. */
  datatype Params = Params(sourceLen: Option<nat>, token: Option<string>, rest: string)

  datatype Request = Request(id: string, method_: string, params: Params, priority: Byte) {
    function WithSourceLen(n: Option<nat>): Request {
      this.(params := params.(sourceLen := n))
    }
  }

  datatype Decoded = Decoded(request: Request, rawSource: Option<seq<Byte>>)

  /** JSON text as bytes. */
  datatype Json = Json(stringify: Request -> seq<Byte>, parse: seq<Byte> -> Option<Request>)

  const BRACE: Byte := 0x7B

  /** Parsing undoes printing, and what is printed is an object. */
  ghost predicate Lawful(json: Json) {
    forall r: Request ::
        json.parse(json.stringify(r)) == Some(r) && |json.stringify(r)| >= 2 && json.stringify(r)[0] == BRACE
  }

  // ---- Lengths ----

  /** Four bytes, the most significant first. */
  function ToU32(b: seq<Byte>): (n: nat)
    requires |b| == 4
    ensures n < U32
  {
    (((b[0] as int) * 256 + b[1]) * 256 + b[2]) * 256 + b[3]
  }

  function FromU32(n: nat): (b: seq<Byte>)
    requires n < U32
    ensures |b| == 4 && ToU32(b) == n
  {
    var hi3 := n / 256;
    var hi2 := hi3 / 256;
    var hi1 := hi2 / 256;
    assert hi3 < 0x100_0000 && hi2 < 0x1_0000 && hi1 < 256;
    [hi1, hi2 % 256, hi3 % 256, n % 256]
  }

  // ---- Encoding ----

  /** The frame around a payload. The length is cast to 32 bits. */
  function EncodeFrame(payload: seq<Byte>): seq<Byte> {
    FromU32(|payload| % U32) + payload
  }

  /** _requestOnce without source text: the whole request as JSON. */
  function EncodeLegacy(json: Json, r: Request): seq<Byte> {
    EncodeFrame(json.stringify(r))
  }

  /** _requestOnce with source text: the header announces the length of the source that follows it. */
  function EncodeV2(json: Json, r: Request, source: seq<Byte>): seq<Byte>
    requires |json.stringify(r.WithSourceLen(Some(|source|)))| < U32
  {
    var header := json.stringify(r.WithSourceLen(Some(|source|)));
    EncodeFrame(FromU32(|header|) + header + source)
  }

  // ---- Decoding ----

  datatype DecodeResult =
    | Incomplete
    | Frame(decoded: Decoded, consumed: nat)
    | Skip(consumed: nat)

  /** The attempt to read a payload as header length, header and raw source. */
  function DecodeV2(json: Json, payload: seq<Byte>): Option<Decoded> {
    if |payload| < 4 then None
    else
      var headerLen := ToU32(payload[..4]);
      if headerLen == 0 || headerLen > |payload| - 4 then None
      else
        match json.parse(payload[4..4+headerLen])
        case None => None
        case Some(r) =>
          var raw := payload[4+headerLen..];
          var sourceLen := if r.params.sourceLen.Some? then r.params.sourceLen.value else 0;
          if sourceLen > 0 && |raw| >= sourceLen then Some(Decoded(r.WithSourceLen(None), Some(raw[..sourceLen])))
          else Some(Decoded(r, None))
  }

  /** decode_frame. Whatever it takes off the buffer is at least four bytes and no more than there are. */
  function DecodeFrame(json: Json, buf: seq<Byte>): (result: DecodeResult)
    ensures !result.Incomplete? ==> 4 <= result.consumed <= |buf|
  {
    if |buf| < 4 then Incomplete
    else
      var total := ToU32(buf[..4]);
      if total > MAX_FRAME then Skip(4)
      else if |buf| < 4 + total then Incomplete
      else if total == 0 then Skip(4)
      else
        var payload := buf[4..4+total];
        match DecodeV2(json, payload)
        case Some(decoded) => Frame(decoded, 4 + total)
        case None =>
          match json.parse(payload)
          case Some(r) => Frame(Decoded(r, None), 4 + total)
          case None => Skip(4 + total)
  }

  /** A decision once made does not depend on the bytes that arrive later. */
  lemma {:induction false} DecisionIsFinal(json: Json, buf: seq<Byte>, more: seq<Byte>)
    requires !DecodeFrame(json, buf).Incomplete?
    ensures DecodeFrame(json, buf + more) == DecodeFrame(json, buf)
  {
    assert (buf + more)[..4] == buf[..4];
    var total := ToU32(buf[..4]);
    if total <= MAX_FRAME {
      assert (buf + more)[4..4+total] == buf[4..4+total];
    }
  }

  /** What a frame is decoded to, in terms of its payload. */
  lemma {:induction false} FrameOfPayload(json: Json, payload: seq<Byte>, more: seq<Byte>)
    requires 0 < |payload| <= MAX_FRAME
    ensures var result := DecodeFrame(json, EncodeFrame(payload) + more);
            var n := |EncodeFrame(payload)|;
            match DecodeV2(json, payload)
            case Some(d) => result == Frame(d, n)
            case None => match json.parse(payload)
                         case Some(r) => result == Frame(Decoded(r, None), n)
                         case None => result == Skip(n)
  {
    var buf := EncodeFrame(payload) + more;
    assert |payload| % U32 == |payload|;
    assert buf[..4] == FromU32(|payload|);
    assert |EncodeFrame(payload)| == 4 + |payload|;
    assert buf[4..4+|payload|] == payload;
  }

  lemma {:induction false} Oversized(json: Json, payload: seq<Byte>, more: seq<Byte>)
    requires MAX_FRAME < |payload| < U32
    ensures DecodeFrame(json, EncodeFrame(payload) + more) == Skip(4)
  {
    assert |payload| % U32 == |payload|;
    assert (EncodeFrame(payload) + more)[..4] == FromU32(|payload|);
  }

  /** The first four bytes of a JSON object, read as a length, exceed every legal length. */
  lemma {:induction false} ObjectIsNoV2(json: Json, payload: seq<Byte>)
    requires |payload| > 0 && payload[0] == BRACE && |payload| <= MAX_FRAME
    ensures DecodeV2(json, payload) == None
  {
    if |payload| >= 4 {
      assert payload[..4][0] == BRACE;
    }
  }

  /** A request sent as plain JSON is decoded to itself if it fits, and is not recognised at all otherwise. */
  lemma {:induction false} LegacyRoundTrip(json: Json, r: Request, more: seq<Byte>)
    requires Lawful(json) && |json.stringify(r)| < U32
    ensures var frame := EncodeLegacy(json, r);
            DecodeFrame(json, frame + more) == if |json.stringify(r)| <= MAX_FRAME then
                Frame(Decoded(r, None), |frame|) else Skip(4)
  {
    if |json.stringify(r)| <= MAX_FRAME {
      ObjectIsNoV2(json, json.stringify(r));
      FrameOfPayload(json, json.stringify(r), more);
    } else {
      Oversized(json, json.stringify(r), more);
    }
  }

  /** A payload that holds a header says with it what comes behind: as many bytes as it announces are the source, and
      the length is taken out of the header; if it announces none, or more than there are, there is no source. */
  lemma {:induction false} HeaderDecides(json: Json, r: Request, raw: seq<Byte>, more: seq<Byte>)
    requires Lawful(json) && 4 + |json.stringify(r)| + |raw| <= MAX_FRAME
    ensures var payload := FromU32(|json.stringify(r)|) + json.stringify(r) + raw;
            var announced := if r.params.sourceLen.Some? then r.params.sourceLen.value else 0;
            DecodeFrame(json, EncodeFrame(payload) + more) ==
              Frame(if 0 < announced <= |raw| then Decoded(r.WithSourceLen(None), Some(raw[..announced]))
                  else Decoded(r, None),
                    4 + |payload|)
  {
    var header := json.stringify(r);
    var payload := FromU32(|header|) + header + raw;
    assert payload[..4] == FromU32(|header|);
    assert payload[4..4+|header|] == header;
    assert payload[4+|header|..] == raw;
    FrameOfPayload(json, payload, more);
  }

  /** A payload without a readable header is plain JSON, or skipped. */
  lemma {:induction false} NoHeader(json: Json, payload: seq<Byte>, more: seq<Byte>)
    requires 0 < |payload| <= MAX_FRAME
    requires |payload| >= 4 && 0 < ToU32(payload[..4]) <= |payload| - 4 ==>
               json.parse(payload[4..4+ToU32(payload[..4])]).None?
    ensures DecodeFrame(json, EncodeFrame(payload) + more) ==
              match json.parse(payload)
              case Some(r) => Frame(Decoded(r, None), 4 + |payload|)
              case None => Skip(4 + |payload|)
  {
    FrameOfPayload(json, payload, more);
  }

  /** An empty frame is skipped, and does not hold the reader up. */
  lemma {:induction false} EmptyFrameSkipped(json: Json, more: seq<Byte>)
    ensures DecodeFrame(json, EncodeFrame([]) + more) == Skip(4)
  {
    assert (EncodeFrame([]) + more)[..4] == FromU32(0);
  }

  /** A request sent with source text is decoded to the same header, without the length it announced, and to
      the same source. */
  lemma {:induction false} V2RoundTrip(json: Json, r: Request, source: seq<Byte>, more: seq<Byte>)
    requires Lawful(json) && source != []
    requires 4 + |json.stringify(r.WithSourceLen(Some(|source|)))| + |source| < U32
    ensures var frame := EncodeV2(json, r, source);
            DecodeFrame(json, frame + more)
            == if |frame| - 4 <= MAX_FRAME then Frame(Decoded(r.WithSourceLen(None), Some(source)), |frame|)
                else Skip(4)
  {
    var header := json.stringify(r.WithSourceLen(Some(|source|)));
    var payload := FromU32(|header|) + header + source;
    if |payload| <= MAX_FRAME {
      assert source[..|source|] == source;
      HeaderDecides(json, r.WithSourceLen(Some(|source|)), source, more);
    } else {
      Oversized(json, payload, more);
    }
  }
}
