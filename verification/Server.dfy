/** One connection of the parse daemon: the decode loop over a stream that arrives in arbitrary pieces, and the
    queue from which requests are served (malong-parse/src/server.rs). */
module Server {
  import opened Common
  import opened Protocol

  // ---- What a stream means ----

  /** The requests in a stream, the bytes left over, whether the client has said hello, and whether the
      connection was closed because it did not. */
  datatype Reading = Reading(requests: seq<Decoded>, rest: seq<Byte>, authed: bool, closed: bool)

  predicate Greets(token: Option<string>, d: Decoded) {
    d.request.method_ == "__hello" && d.request.params.token == token
  }

  /** The stream decoded frame by frame. */
  ghost function Read(json: Json, token: Option<string>, authed: bool, data: seq<Byte>): Reading
    decreases |data|
  {
    match DecodeFrame(json, data)
    case Incomplete => Reading([], data, authed, false)
    case Skip(n) => Read(json, token, authed, data[n..])
    case Frame(d, n) =>
      if authed then Before([d], Read(json, token, true, data[n..]))
      else if Greets(token, d) then Read(json, token, true, data[n..])
      else Reading([], [], false, true)
  }

  ghost function Before(requests: seq<Decoded>, r: Reading): Reading {
    r.(requests := requests + r.requests)
  }

  /** Reading a stream in two pieces. */
  lemma {:induction false} ReadInPieces(json: Json, token: Option<string>, authed: bool, a: seq<Byte>, b: seq<Byte>)
    ensures var first := Read(json, token, authed, a);
            Read(json, token, authed, a + b)
            == if first.closed then first else Before(first.requests, Read(json, token, first.authed, first.rest + b))
    decreases |a|
  {
    var d := DecodeFrame(json, a);
    if d.Incomplete? {
      BeforeNothing(Read(json, token, authed, a + b));
    } else {
      DecisionIsFinal(json, a, b);
      var tail := a[d.consumed..];
      assert (a + b)[d.consumed..] == tail + b;
      var authed' := authed || (d.Frame? && Greets(token, d.decoded));
      ReadInPieces(json, token, authed', tail, b);
      if authed && d.Frame? {
        var first := Read(json, token, true, tail);
        BeforeTwice([d.decoded], first.requests, Read(json, token, first.authed, first.rest + b));
      }
    }
  }

  lemma {:induction false} BeforeNothing(r: Reading)
    ensures Before([], r) == r
  {
  }

  lemma {:induction false} BeforeTwice(a: seq<Decoded>, b: seq<Decoded>, r: Reading)
    ensures Before(a, Before(b, r)) == Before(a + b, r)
  {
    assert a + (b + r.requests) == (a + b) + r.requests;
  }

  lemma {:induction false} BeforeEnd(requests: seq<Decoded>, data: seq<Byte>, authed: bool, closed: bool)
    ensures Before(requests, Reading([], data, authed, closed)) == Reading(requests, data, authed, closed)
  {
    assert requests + [] == requests;
  }

  // ---- Whole sessions ----

  /** What a client sends: a request, with or without source text. */
  datatype Message = Plain(request: Request) | WithSource(request: Request, source: seq<Byte>)

  ghost predicate Sendable(json: Json, m: Message) {
    match m
    case Plain(r) => |json.stringify(r)| <= MAX_FRAME
    case WithSource(r, source) =>
        source != [] && 4 + |json.stringify(r.WithSourceLen(Some(|source|)))| + |source| <= MAX_FRAME
  }

  ghost function FrameOf(json: Json, m: Message): seq<Byte>
    requires Sendable(json, m)
  {
    match m
    case Plain(r) => EncodeLegacy(json, r)
    case WithSource(r, source) => EncodeV2(json, r, source)
  }

  ghost function Received(m: Message): Decoded {
    match m
    case Plain(r) => Decoded(r, None)
    case WithSource(r, source) => Decoded(r.WithSourceLen(None), Some(source))
  }

  ghost function Stream(json: Json, ms: seq<Message>): seq<Byte>
    requires forall m :: m in ms ==> Sendable(json, m)
  {
    if ms == [] then [] else FrameOf(json, ms[0]) + Stream(json, ms[1..])
  }

  ghost function AllReceived(ms: seq<Message>): seq<Decoded> {
    seq(|ms|, i requires 0 <= i < |ms| => Received(ms[i]))
  }

  /** A greeted daemon reads from a client's stream exactly the messages the client sent. */
  lemma {:induction false} SessionRoundTrip(json: Json, token: Option<string>, ms: seq<Message>)
    requires Lawful(json) && forall m :: m in ms ==> Sendable(json, m)
    ensures Read(json, token, true, Stream(json, ms)) == Reading(AllReceived(ms), [], true, false)
  {
    if ms != [] {
      var frame, rest := FrameOf(json, ms[0]), Stream(json, ms[1..]);
      SessionRoundTrip(json, token, ms[1..]);
      FrameReceived(json, ms[0], rest);
      assert (frame + rest)[|frame|..] == rest;
      AllReceivedStep(ms);
    }
  }

  lemma {:induction false} FrameReceived(json: Json, m: Message, rest: seq<Byte>)
    requires Lawful(json) && Sendable(json, m)
    ensures DecodeFrame(json, FrameOf(json, m) + rest) == Frame(Received(m), |FrameOf(json, m)|)
  {
    match m
    case Plain(r) => LegacyRoundTrip(json, r, rest);
    case WithSource(r, source) => V2RoundTrip(json, r, source, rest);
  }

  lemma {:induction false} AllReceivedStep(ms: seq<Message>)
    requires ms != []
    ensures AllReceived(ms) == [Received(ms[0])] + AllReceived(ms[1..])
  {
  }

  /** A daemon that wants a greeting takes nothing from a client before it: if the first message is the greeting with
      its token, the rest is read as by a greeted daemon; if it is anything else, nothing is read at all and the
      connection is closed. */
  lemma {:induction false} GreetingComesFirst(json: Json, token: string, ms: seq<Message>)
    requires Lawful(json) && ms != [] && forall m :: m in ms ==> Sendable(json, m)
    ensures var first := ms[0].request;
            Read(json, Some(token), false, Stream(json, ms)) ==
              if first.method_ == "__hello" && first.params.token == Some(token) then
                  Reading(AllReceived(ms[1..]), [], true, false)
              else Reading([], [], false, true)
  {
    var frame, rest := FrameOf(json, ms[0]), Stream(json, ms[1..]);
    FrameReceived(json, ms[0], rest);
    assert (frame + rest)[|frame|..] == rest;
    SessionRoundTrip(json, Some(token), ms[1..]);
  }

  // ---- The queue ----

  datatype Prioritized = Prioritized(decoded: Decoded, sequence: nat)

  /** The order of the heap: the higher priority, then the earlier arrival. */
  predicate Precedes(a: Prioritized, b: Prioritized) {
    || a.decoded.request.priority > b.decoded.request.priority
    || (a.decoded.request.priority == b.decoded.request.priority && a.sequence < b.sequence)
  }

  /** Answered before: of higher priority, or of the same and earlier. */
  ghost predicate Ahead(a: Prioritized, b: Prioritized) {
    var p, q := a.decoded.request.priority, b.decoded.request.priority;
    q < p || (p == q && a.sequence < b.sequence)
  }

  ghost predicate InOrder(q: seq<Prioritized>) {
    forall i, j :: 0 <= i < j < |q| ==> Ahead(q[i], q[j])
  }

  /** There is only one order in which a queue can be served. */
  lemma {:induction false} OneOrder(p: seq<Prioritized>, q: seq<Prioritized>)
    requires InOrder(p) && InOrder(q) && multiset(p) == multiset(q)
    ensures p == q
  {
    assert |p| == |multiset(p)| == |multiset(q)| == |q|;
    if p != [] {
      SameFirst(p, q);
      var p1, q1 := p[1..], q[1..];
      assert p == [p[0]] + p1 && q == [p[0]] + q1;
      assert multiset(p1) == multiset(p) - multiset{p[0]};
      assert multiset(q1) == multiset(q) - multiset{p[0]};
      assert InOrder(p1) && InOrder(q1);
      OneOrder(p1, q1);
    }
  }

  lemma {:induction false} SameFirst(p: seq<Prioritized>, q: seq<Prioritized>)
    requires p != [] && q != [] && InOrder(p) && InOrder(q) && multiset(p) == multiset(q)
    ensures p[0] == q[0]
  {
    assert p[0] in multiset(q) && q[0] in multiset(p);
    var i :| 0 <= i < |q| && q[i] == p[0];
    var j :| 0 <= j < |p| && p[j] == q[0];
  }

  ghost predicate Numbered(q: seq<Prioritized>, below: nat) {
    && (forall i :: 0 <= i < |q| ==> q[i].sequence < below)
    && (forall i, j :: 0 <= i < j < |q| ==> q[i].sequence != q[j].sequence)
  }

  lemma {:induction false} Taken(queue: seq<Prioritized>, best: nat)
    requires best < |queue|
    ensures multiset(queue) == multiset(queue[..best] + queue[best+1..]) + multiset{queue[best]}
  {
    assert queue == queue[..best] + [queue[best]] + queue[best+1..];
  }

  /** pop on the heap: the request before all others. */
  method Pop(queue: seq<Prioritized>, ghost below: nat) returns (top: Prioritized, rest: seq<Prioritized>)
    requires queue != [] && Numbered(queue, below)
    ensures multiset(queue) == multiset(rest) + multiset{top} && |rest| == |queue| - 1
    ensures forall i :: 0 <= i < |rest| ==> Precedes(top, rest[i])
    ensures Numbered(rest, below)
  {
    var best := 0;
    for i := 1 to |queue|
      invariant 0 <= best < i <= |queue|
      invariant forall j :: 0 <= j < i && j != best ==> Precedes(queue[best], queue[j])
    {
      if Precedes(queue[i], queue[best]) {
        best := i;
      }
    }
    top, rest := queue[best], queue[..best] + queue[best+1..];
    Taken(queue, best);
    assert forall i :: 0 <= i < |rest| ==> rest[i] == queue[if i < best then i else i + 1];
  }

  class Connection {
    const json: Json
    const token: Option<string>
    var data: seq<Byte>
    var authed: bool
    var closed: bool
    var sequence: nat
    /** The requests in the order in which they were answered. */
    var served: seq<Prioritized>
    /** Everything read so far, and every request decoded from it. */
    ghost var stream: seq<Byte>
    ghost var decoded: seq<Decoded>

    /** The decoded requests and what is left of the data are what the whole stream means. */
    ghost predicate Valid()
      reads this
    {
      && Read(json, token, token.None?, stream) == Reading(decoded, data, authed, closed)
      && (!closed ==> DecodeFrame(json, data).Incomplete?)
      && sequence == |decoded|
    }

    constructor (json: Json, token: Option<string>)
      ensures Valid() && stream == [] && decoded == [] && served == [] && this.json == json && this.token == token &&
                !closed
    {
      this.json, this.token := json, token;
      data, authed, closed, sequence, served := [], token.None?, false, 0, [];
      stream, decoded := [], [];
    }

    /** The loop that decodes whatever the data hold. */
    method DecodeAvailable() returns (queue: seq<Prioritized>)
      requires !closed
      requires Read(json, token, token.None?, stream) == Before(decoded, Read(json, token, authed, data))
      requires sequence == |decoded|
      modifies this`data, this`authed, this`closed, this`sequence, this`decoded
      ensures Valid()
      ensures decoded == old(decoded) + Requests(queue)
      ensures Numbered(queue, sequence)
      ensures forall i :: 0 <= i < |queue| ==> queue[i].sequence == old(sequence) + i
    {
      queue := [];
      while true
        invariant !closed && sequence == |decoded| == old(sequence) + |queue|
        invariant Read(json, token, token.None?, stream) == Before(decoded, Read(json, token, authed, data))
        invariant decoded == old(decoded) + Requests(queue)
        invariant forall i :: 0 <= i < |queue| ==> queue[i].sequence == old(sequence) + i
        decreases |data|
      {
        match DecodeFrame(json, data)
        case Incomplete => break;
        case Skip(n) => data := data[n..];
        case Frame(d, n) =>
          data := data[n..];
          if authed {
            BeforeTwice(decoded, [d], Read(json, token, true, data));
            assert Requests(queue + [Prioritized(d, sequence)]) == Requests(queue) + [d];
            queue := queue + [Prioritized(d, sequence)];
            sequence := sequence + 1;
            decoded := decoded + [d];
          } else if Greets(token, d) {
            authed := true;
          } else {
            closed, data := true, [];
            break;
          }
      }
      BeforeEnd(decoded, data, authed, closed);
    }

    /** The loop that answers what was decoded, best first. */
    method ServeAll(batch: seq<Prioritized>) returns (ghost answers: seq<Prioritized>)
      requires Numbered(batch, sequence)
      modifies this`served
      ensures served == old(served) + answers && InOrder(answers) && multiset(answers) == multiset(batch)
    {
      var queue := batch;
      answers := [];
      while queue != []
        invariant Numbered(queue, sequence)
        invariant served == old(served) + answers && InOrder(answers)
        invariant multiset(answers) + multiset(queue) == multiset(batch)
        invariant forall i, j :: 0 <= i < |answers| && 0 <= j < |queue| ==> Precedes(answers[i], queue[j])
        decreases |queue|
      {
        var top;
        ghost var before := queue;
        top, queue := Pop(queue, sequence);
        assert top in multiset(before);
        forall j | 0 <= j < |queue| ensures queue[j] in before {
          assert queue[j] in multiset(before);
        }
        served := served + [top];
        answers := answers + [top];
      }
    }

    /** One turn of the outer loop: some bytes arrive. Whatever the pieces, what has been decoded is what the
        stream as a whole means; what this piece completed is answered by priority, then by arrival. */
    method OnRead(chunk: seq<Byte>) returns (ghost queue: seq<Prioritized>, ghost answers: seq<Prioritized>)
      requires Valid() && !closed
      modifies this
      ensures Valid() && stream == old(stream) + chunk
      ensures decoded == old(decoded) + Requests(queue) &&
                forall i :: 0 <= i < |queue| ==> queue[i].sequence == |old(decoded)| + i
      ensures !closed ==> served == old(served) + answers && InOrder(answers) && multiset(answers) == multiset(queue)
      ensures closed ==> served == old(served)
    {
      ReadInPieces(json, token, token.None?, stream, chunk);
      data := data + chunk;
      stream := stream + chunk;
      var q := DecodeAvailable();
      queue, answers := q, [];
      if !closed {
        answers := ServeAll(q);
      }
    }
  }

  ghost function Requests(queue: seq<Prioritized>): seq<Decoded> {
    seq(|queue|, i requires 0 <= i < |queue| => queue[i].decoded)
  }

  /** However a stream is cut into reads, the same requests are decoded from it. */
  method ReadAll(json: Json, token: Option<string>, chunks: seq<seq<Byte>>) returns (c: Connection)
    ensures c.Valid() && c.json == json && c.token == token
    ensures !c.closed ==> c.decoded == Read(json, token, token.None?, Concat(chunks, |chunks|)).requests
    ensures c.closed <==> Read(json, token, token.None?, Concat(chunks, |chunks|)).closed
  {
    c := new Connection(json, token);
    var i := 0;
    while i < |chunks| && !c.closed
      invariant 0 <= i <= |chunks| && c.Valid() && c.stream == Concat(chunks, i) && fresh(c)
      invariant c.json == json && c.token == token
    {
      var _, _ := c.OnRead(chunks[i]);
      i := i + 1;
    }
    if c.closed {
      ClosedStays(json, token, chunks, i, |chunks|);
    }
  }

  lemma {:induction false} ClosedStays(json: Json, token: Option<string>, chunks: seq<seq<Byte>>, i: nat, n: nat)
    requires i <= n <= |chunks| && Read(json, token, token.None?, Concat(chunks, i)).closed
    ensures Read(json, token, token.None?, Concat(chunks, n)).closed
  {
    if i < n {
      ClosedStays(json, token, chunks, i, n - 1);
      ReadInPieces(json, token, token.None?, Concat(chunks, n - 1), chunks[n-1]);
    }
  }

  ghost function Concat(chunks: seq<seq<Byte>>, n: nat): seq<Byte>
    requires n <= |chunks|
  {
    if n == 0 then [] else Concat(chunks, n - 1) + chunks[n-1]
  }
}
