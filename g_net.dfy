/**
 * The request path of servers/g_net.go: decoding one request from the
 * connection's buffered bytes, routing it, and the OnTraffic loop that
 * answers every complete request in the buffer in turn.
 *
 * The buffer is the byte sequence gnet's Peek(-1) returns; a Discard(n) is
 * modelled by dropping min(n, |buffer|) bytes from its front. Responses are
 * collected in the order they are written.
 */
module GNet {
  import opened Wrappers
  import opened ByteStrings
  import opened HttpCodec
  import opened Models

  // ---------------------------------------------------------------------------
  // The consumed-byte count

  /**
   * The sum, over every stored header, of len(key) + len(value) + 4: what the
   * for-range over the header map adds to totalConsumed. Map iteration order
   * does not matter to a sum, so one key is picked at a time.
   */
  ghost function HeaderBytes(h: map<Bytes, Bytes>): nat
    decreases |h|
  {
    if h == map[] then 0
    else
      var k :| k in h;
      assert |h - {k}| < |h| by {
        assert h.Keys == (h - {k}).Keys + {k};
      }
      |k| + |h[k]| + 4 + HeaderBytes(h - {k})
  }

  /** Taking a stored key out of a map leaves one entry fewer. */
  lemma RemoveShrinks(h: map<Bytes, Bytes>, k: Bytes)
    requires k in h
    ensures |h - {k}| == |h| - 1
  {
    assert h.Keys == (h - {k}).Keys + {k};
  }

  /** Any stored header may be taken out of the sum first. */
  lemma {:induction false} HeaderBytesRemove(h: map<Bytes, Bytes>, k: Bytes)
    requires k in h
    ensures HeaderBytes(h) == |k| + |h[k]| + 4 + HeaderBytes(h - {k})
    decreases |h|
  {
    var j :| j in h && HeaderBytes(h) == |j| + |h[j]| + 4 + HeaderBytes(h - {j});
    if j != k {
      var withoutJ, withoutK := h - {j}, h - {k};
      RemoveShrinks(h, j);
      RemoveShrinks(h, k);
      assert k in withoutJ && withoutJ[k] == h[k];
      assert j in withoutK && withoutK[j] == h[j];
      HeaderBytesRemove(withoutJ, k);
      HeaderBytesRemove(withoutK, j);
      assert withoutJ - {k} == withoutK - {j};
    }
  }

  /** Storing a header under a new key adds len(key) + len(value) + 4. */
  lemma HeaderBytesInsert(h: map<Bytes, Bytes>, k: Bytes, v: Bytes)
    requires k !in h
    ensures HeaderBytes(h[k := v]) == HeaderBytes(h) + |k| + |v| + 4
  {
    HeaderBytesRemove(h[k := v], k);
    assert h[k := v] - {k} == h;
  }

  /**
   * totalConsumed as OnTraffic computes it: the request line and its CRLF,
   * len(key) + len(value) + 4 for every stored header, the blank line, and
   * the Content-Length.
   */
  method ConsumedLength(reqLine: Bytes, headers: map<Bytes, Bytes>, cl: nat) returns (total: nat)
    ensures total == |reqLine| + 2 + HeaderBytes(headers) + 2 + cl
  {
    total := |reqLine| + 2;
    var left := headers;
    while left != map[]
      invariant total + HeaderBytes(left) == |reqLine| + 2 + HeaderBytes(headers)
      decreases |left|
    {
      var k :| k in left;
      HeaderBytesRemove(left, k);
      assert |left - {k}| < |left| by {
        assert left.Keys == (left - {k}).Keys + {k};
      }
      total := total + |k| + |left[k]| + 4;
      left := left - {k};
    }
    total := total + 2 + cl;
  }

  // ---------------------------------------------------------------------------
  // Decoding one request

  const BadRequest: Bytes := "{\"error\":\"bad request\"}"
  const BadContentLength: Bytes := "{\"error\":\"bad content-length\"}"

  /** A complete request: its method (verb), path, stored headers and the Content-Length bytes of body. */
  datatype Request = Request(verb: Bytes, path: Bytes, headers: map<Bytes, Bytes>, body: Bytes)

  /** What one pass of OnTraffic's loop makes of the buffered bytes. */
  datatype Decoded =
    | Incomplete                                   // wait for more bytes; nothing discarded, nothing written
    | Malformed(message: Bytes)                    // answer 400 with this body and close
    | Complete(request: Request, consumed: nat)    // handle the request, then discard `consumed` bytes

  /** The request framing: the request with its request line, its Content-Length and its length in bytes. */
  datatype Framing =
    | NeedMore
    | Reject(message: Bytes)
    | Framed(request: Request, reqLine: Bytes, contentLength: nat, length: nat)

  /** The Content-Length of a request: 0 when absent, None when it is not a non-negative integer. */
  function ContentLength(headers: map<Bytes, Bytes>): (r: Option<nat>)
    ensures "content-length" !in headers ==> r == Some(0)
    ensures r.Some? && "content-length" in headers ==> Atoi(headers["content-length"]) == Some(r.value)
    ensures r.None? <==> "content-length" in headers && (Atoi(headers["content-length"]).None? || Atoi(headers["content-length"]).value < 0)
  {
    if "content-length" !in headers then Some(0)
    else
      match Atoi(headers["content-length"])
      case None => None
      case Some(v) => if v < 0 then None else Some(v)
  }

  /** Reading a buffered request: the request line, the header block, then Content-Length body bytes. */
  function Frame(buf: Bytes): (f: Framing)
    ensures f.Framed? ==> |f.reqLine| + 4 + f.contentLength <= f.length <= |buf|
  {
    var l := ReadLine(buf);
    if !l.ok then NeedMore else FrameAfterLine(buf, l.line, l.rest)
  }

  /** Reading once the request line has been cut off; rest is what follows it. */
  function FrameAfterLine(buf: Bytes, reqLine: Bytes, rest: Bytes): (f: Framing)
    requires buf == reqLine + CRLF + rest
    ensures f.Framed? ==> f.reqLine == reqLine && |reqLine| + 4 + f.contentLength <= f.length <= |buf|
  {
    var parts := Split(reqLine, ' ');
    if |parts| < 3 then Reject(BadRequest)
    else
      var h := ReadHeaders(rest);
      FrameRequest(buf, reqLine, parts[0], parts[1], h, if h.ok then ContentLength(h.headers) else None)
  }

  /** Reading once the header block has been read (or found unfinished). */
  function FrameRequest(buf: Bytes, reqLine: Bytes, verb: Bytes, path: Bytes, h: HeaderRead, contentLength: Option<nat>): (f: Framing)
    requires h.ok ==> |reqLine| + 4 + |h.rest| <= |buf|
    ensures f.Framed? ==> f.reqLine == reqLine && |reqLine| + 4 + f.contentLength <= f.length <= |buf|
  {
    if !h.ok then NeedMore
    else
      match contentLength
      case None => Reject(BadContentLength)
      case Some(cl) =>
        if |h.rest| < cl then NeedMore
        else
          var bodyStart := |buf| - |h.rest|;
          Framed(Request(verb, path, h.headers, buf[bodyStart..bodyStart + cl]), reqLine, cl, bodyStart + cl)
  }

  /**
   * One request decoded, consuming exactly its own bytes: everything up to
   * the end of the header block (where OnTraffic takes the body from) and
   * Content-Length bytes of body.
   */
  function Decode(buf: Bytes): (d: Decoded)
    ensures d.Complete? ==> 4 <= d.consumed <= |buf|
  {
    match Frame(buf)
    case NeedMore => Incomplete
    case Reject(message) => Malformed(message)
    case Framed(req, _, _, length) => Complete(req, length)
  }

  /**
   * One request decoded with totalConsumed as OnTraffic adds it up: the
   * request line, len(key) + len(value) + 4 per stored header, the blank line
   * and the Content-Length. This agrees with Decode only for canonically
   * written headers (see GNetProperties).
   */
  ghost function DecodeAsWritten(buf: Bytes): (d: Decoded)
    ensures d.Complete? ==> 4 <= d.consumed && 4 <= |buf|
  {
    match Frame(buf)
    case NeedMore => Incomplete
    case Reject(message) => Malformed(message)
    case Framed(req, reqLine, cl, _) => Complete(req, |reqLine| + 2 + HeaderBytes(req.headers) + 2 + cl)
  }

  /**
   * The two byte counts a pass of the loop can discard: totalConsumed as
   * OnTraffic adds it up, and the request's exact length.
   */
  datatype Counting = AsWritten | Exact

  /** Decoding with the given count. */
  ghost function DecodeBy(count: Counting, buf: Bytes): (d: Decoded)
    ensures d.Complete? ==> 4 <= d.consumed && 4 <= |buf|
  {
    if count == Exact then Decode(buf) else DecodeAsWritten(buf)
  }

  // ---------------------------------------------------------------------------
  // Routing

  const MissingQuery: Bytes := "{\"error\":\"missing query\"}"
  const InvalidQuery: Bytes := "{\"error\":\"invalid query\"}"
  const InvalidFrom: Bytes := "{\"error\":\"invalid 'from' timestamp format\"}"
  const InvalidTo: Bytes := "{\"error\":\"invalid 'to' timestamp format\"}"
  const NotFound: Bytes := "{\"error\":\"not found\"}"
  const MethodNotAllowed: Bytes := "{\"error\":\"method not allowed\"}"

  /** The error body for an error's text: {"error":"<text>"}. */
  function ErrorBody(text: Bytes): Bytes {
    "{\"error\":\"" + text + "\"}"
  }

  /**
   * What the summary endpoint needs from outside the server: time.Parse with
   * the RFC 3339 layout (None for a parse error), and PaymentService's
   * GetPaymentSummary followed by MarshalJSON for optional from/to bounds
   * (the JSON, or the text of whichever error came first).
   */
  datatype SummaryEnv = SummaryEnv(
    parseTime: Bytes -> Option<Instant>,
    summary: (Option<Instant>, Option<Instant>) -> Result<Bytes, Bytes>)

  /** What the router does with a complete request: write a response, or acknowledge and hand the body on. */
  datatype RouteOutcome = Respond(code: int, body: Bytes) | Accept(payment: Bytes)

  /** bytes.SplitN(path, "?", 2): the route before the first '?', and the query after it if there is one. */
  function SplitQuery(path: Bytes): (r: (Bytes, Option<Bytes>))
    ensures r.1.None? <==> '?' !in path
    ensures r.1.None? ==> r.0 == path
    ensures r.1.Some? ==> r.0 + "?" + r.1.value == path && '?' !in r.0
  {
    var i := IndexByte(path, '?');
    if i < 0 then (path, None)
    else
      assert path == path[..i] + "?" + path[i + 1..];
      (path[..i], Some(path[i + 1..]))
  }

  /** A query map's value for key, or "" when the key is absent (Go's zero value). */
  function Lookup(q: map<Bytes, Bytes>, key: Bytes): Bytes {
    if key in q then q[key] else []
  }

  /** GET /payments-summary: the reply for the part of the path after '?', if any. */
  function SummaryReply(query: Option<Bytes>, env: SummaryEnv): (r: RouteOutcome)
    ensures r.Respond?
    ensures r.code == 200 || r.code == 400
  {
    if query.None? then Respond(400, MissingQuery)
    else
      match ParseQueryString(query.value)
      case None => Respond(400, InvalidQuery)
      case Some(q) => SummaryOfBounds(Lookup(q, "from"), Lookup(q, "to"), env)
  }

  /** The summary reply for the from and to query values ("" when absent). */
  function SummaryOfBounds(from: Bytes, to: Bytes, env: SummaryEnv): (r: RouteOutcome)
    ensures r.Respond? && (r.code == 200 || r.code == 400)
  {
    var toTrimmed := TrimTrailing(to, '\\');
    if from != [] && env.parseTime(from).None? then Respond(400, InvalidFrom)
    else if to != [] && env.parseTime(toTrimmed).None? then Respond(400, InvalidTo)
    else
      var fromBound := if from == [] then None else env.parseTime(from);
      var toBound := if to == [] then None else env.parseTime(toTrimmed);
      match env.summary(fromBound, toBound)
      case Ok(json) => Respond(200, json)
      case Err(text) => Respond(400, ErrorBody(text))
  }

  /** OnTraffic's routing of a complete request. */
  function Route(req: Request, env: SummaryEnv): RouteOutcome {
    if req.verb == "GET" then
      var (route, query) := SplitQuery(req.path);
      if route == "/payments-summary" then SummaryReply(query, env)
      else Respond(400, NotFound)
    else if req.verb == "POST" then
      if req.path != "/payments" then Respond(404, NotFound)
      else Accept(req.body)
    else Respond(405, MethodNotAllowed)
  }

  /**
   * The routing table: only POST /payments is accepted, and it hands on the
   * body; other POST paths get 404, other methods 405, GET routes other than
   * /payments-summary 400, and only the summary route can answer 200.
   */
  lemma RouteTable(req: Request, env: SummaryEnv)
    ensures var r := Route(req, env);
      && (r.Accept? <==> req.verb == "POST" && req.path == "/payments")
      && (r.Accept? ==> r.payment == req.body)
      && (req.verb == "POST" && req.path != "/payments" ==> r == Respond(404, NotFound))
      && (req.verb != "GET" && req.verb != "POST" ==> r == Respond(405, MethodNotAllowed))
      && (req.verb == "GET" && SplitQuery(req.path).0 != "/payments-summary" ==> r == Respond(400, NotFound))
      && (r.Respond? && r.code == 200 ==> req.verb == "GET" && SplitQuery(req.path).0 == "/payments-summary")
  {
  }

  // ---------------------------------------------------------------------------
  // The OnTraffic loop

  /** gnet.None (keep the connection, wait for more bytes) and gnet.Close. */
  datatype Action = NoAction | Close

  /**
   * Everything one OnTraffic call does: the action it returns, the responses
   * it writes in order, the bodies it hands to RunQueue in order, the bytes
   * left in the connection buffer, and the server's keepAlive afterwards.
   */
  datatype TrafficResult = TrafficResult(
    action: Action, written: seq<Bytes>, dispatched: seq<Bytes>, remaining: Bytes, keepAlive: bool)

  /** A Connection header equal to "close" under Unicode case folding. */
  predicate CloseRequested(headers: map<Bytes, Bytes>) {
    "connection" in headers && EqualFoldClose(headers["connection"])
  }

  /** The bytes written for a routed request: writeResponse's output, or the fixed acknowledgement. */
  function Answer(outcome: RouteOutcome, keepAlive: bool): Bytes {
    match outcome
    case Respond(code, body) => WriteResponse(code, body, keepAlive)
    case Accept(_) => AckPrefix
  }

  /** The bodies a routed request hands to RunQueue: the accepted payment, if any. */
  function Handed(outcome: RouteOutcome): seq<Bytes> {
    if outcome.Accept? then [outcome.payment] else []
  }

  /** gnet's Discard(n): drop n bytes from the front of the buffer, or all of it when fewer are buffered. */
  function Discard(buf: Bytes, n: nat): (r: Bytes)
    ensures |r| <= |buf| && r == buf[|buf| - |r|..]
    ensures n <= |buf| ==> |r| == |buf| - n
    ensures n >= |buf| ==> r == []
  {
    buf[if n < |buf| then n else |buf|..]
  }

  /** Earlier responses and dispatched bodies put in front of what the rest of the loop does. */
  function Prepend(written: seq<Bytes>, dispatched: seq<Bytes>, t: TrafficResult): TrafficResult {
    t.(written := written + t.written, dispatched := dispatched + t.dispatched)
  }

  /** The end of one pass of OnTraffic's loop: return with a result, or go round again. */
  datatype Pass =
    | Stop(result: TrafficResult)
    | Continue(written: seq<Bytes>, dispatched: seq<Bytes>, left: Bytes, keepAlive: bool)

  /**
   * One pass of OnTraffic's loop over the buffered bytes, given how the
   * request at their front decodes: wait on an empty buffer or a partial
   * request; answer 400 and close on a malformed one; otherwise clear
   * keepAlive on "Connection: close", discard the bytes counted for the
   * request, route it and write the answer, and go round again unless
   * keepAlive is off.
   */
  function Step(d: Decoded, buf: Bytes, keepAlive: bool, env: SummaryEnv): (p: Pass)
    requires d.Complete? ==> d.consumed > 0
    ensures p.Continue? ==> |p.left| < |buf|
  {
    if |buf| == 0 then Stop(TrafficResult(NoAction, [], [], buf, keepAlive))
    else
      match d
      case Incomplete => Stop(TrafficResult(NoAction, [], [], buf, keepAlive))
      case Malformed(message) => Stop(TrafficResult(Close, [WriteResponse(400, message, false)], [], buf, keepAlive))
      case Complete(req, consumed) =>
        var ka := keepAlive && !CloseRequested(req.headers);
        var outcome := Route(req, env);
        var left := Discard(buf, consumed);
        if !ka then Stop(TrafficResult(Close, [Answer(outcome, ka)], Handed(outcome), left, ka))
        else Continue([Answer(outcome, ka)], Handed(outcome), left, ka)
  }

  /**
   * What the loop does with the buffered bytes, starting from the server's
   * keepAlive and discarding count's bytes per request: passes until one
   * stops. OnTraffic itself discards AsWritten.
   */
  ghost function Traffic(count: Counting, buf: Bytes, keepAlive: bool, env: SummaryEnv): TrafficResult
    decreases |buf|
  {
    match Step(DecodeBy(count, buf), buf, keepAlive, env)
    case Stop(t) => t
    case Continue(w, d, left, ka) => Prepend(w, d, Traffic(count, left, ka, env))
  }

  /** A pass of OnTraffic over bytes that do not frame a request: wait, or answer 400 and close. */
  lemma StepUnframed(buf: Bytes, keepAlive: bool, env: SummaryEnv)
    requires |buf| == 0 || !Frame(buf).Framed?
    ensures Step(DecodeBy(AsWritten, buf), buf, keepAlive, env) ==
      if |buf| == 0 || Frame(buf).NeedMore? then Stop(TrafficResult(NoAction, [], [], buf, keepAlive))
      else Stop(TrafficResult(Close, [WriteResponse(400, Frame(buf).message, false)], [], buf, keepAlive))
  {
  }

  /** A pass of OnTraffic over a framed request: discard total bytes, then route and answer it. */
  lemma StepFramed(buf: Bytes, keepAlive: bool, env: SummaryEnv, req: Request, reqLine: Bytes, cl: nat, length: nat, total: nat)
    requires Frame(buf) == Framed(req, reqLine, cl, length)
    requires total == |reqLine| + 2 + HeaderBytes(req.headers) + 2 + cl
    ensures var ka := keepAlive && !CloseRequested(req.headers);
      var outcome := Route(req, env);
      Step(DecodeBy(AsWritten, buf), buf, keepAlive, env) ==
        if ka then Continue([Answer(outcome, ka)], Handed(outcome), Discard(buf, total), ka)
        else Stop(TrafficResult(Close, [Answer(outcome, ka)], Handed(outcome), Discard(buf, total), ka))
  {
    assert DecodeBy(AsWritten, buf) == Complete(req, total);
  }

  lemma PrependNothing(t: TrafficResult)
    ensures Prepend([], [], t) == t
  {
    assert [] + t.written == t.written && [] + t.dispatched == t.dispatched;
  }

  lemma PrependTwice(w1: seq<Bytes>, d1: seq<Bytes>, w2: seq<Bytes>, d2: seq<Bytes>, t: TrafficResult)
    ensures Prepend(w1, d1, Prepend(w2, d2, t)) == Prepend(w1 + w2, d1 + d2, t)
  {
    assert w1 + (w2 + t.written) == w1 + w2 + t.written;
    assert d1 + (d2 + t.dispatched) == d1 + d2 + t.dispatched;
  }

  /** The server: a single keepAlive flag shared by every connection. */
  class GNetServer {
    var keepAlive: bool

    /** NewGNetServer; the payment service it keeps is represented by the dispatched bodies. */
    constructor (keepAlive: bool)
      ensures this.keepAlive == keepAlive
    {
      this.keepAlive := keepAlive;
    }

    /**
     * One pass of OnTraffic's loop over the buffered bytes: frame the first
     * request, add up totalConsumed, clear keepAlive on "Connection: close",
     * discard totalConsumed bytes, then route the request and answer it.
     */
    method Serve(remaining: Bytes, env: SummaryEnv) returns (p: Pass)
      modifies this
      ensures p == Step(DecodeBy(AsWritten, remaining), remaining, old(keepAlive), env)
      ensures keepAlive == if p.Stop? then p.result.keepAlive else p.keepAlive
    {
      if |remaining| == 0 {
        StepUnframed(remaining, keepAlive, env);
        return Stop(TrafficResult(NoAction, [], [], remaining, keepAlive));
      }
      var f := Frame(remaining);
      if !f.Framed? {
        StepUnframed(remaining, keepAlive, env);
        if f.NeedMore? {
          return Stop(TrafficResult(NoAction, [], [], remaining, keepAlive));
        }
        return Stop(TrafficResult(Close, [WriteResponse(400, f.message, false)], [], remaining, keepAlive));
      }
      var total := ConsumedLength(f.reqLine, f.request.headers, f.contentLength);
      StepFramed(remaining, keepAlive, env, f.request, f.reqLine, f.contentLength, f.length, total);
      if CloseRequested(f.request.headers) {
        keepAlive := false;
      }
      var left := Discard(remaining, total);
      var outcome := Route(f.request, env);
      if !keepAlive {
        return Stop(TrafficResult(Close, [Answer(outcome, false)], Handed(outcome), left, false));
      }
      return Continue([Answer(outcome, true)], Handed(outcome), left, true);
    }

    /**
     * OnTraffic: serve requests from the front of the buffered bytes until one
     * is incomplete or malformed or keepAlive is off, returning the action, the
     * responses written, the payment bodies handed to RunQueue, and the bytes
     * left buffered.
     */
    method OnTraffic(buf: Bytes, env: SummaryEnv)
      returns (action: Action, written: seq<Bytes>, dispatched: seq<Bytes>, remaining: Bytes)
      modifies this
      ensures TrafficResult(action, written, dispatched, remaining, keepAlive) == Traffic(AsWritten, buf, old(keepAlive), env)
    {
      written, dispatched, remaining := [], [], buf;
      PrependNothing(Traffic(AsWritten, buf, keepAlive, env));
      while true
        invariant Traffic(AsWritten, buf, old(keepAlive), env) == Prepend(written, dispatched, Traffic(AsWritten, remaining, keepAlive, env))
        decreases |remaining|
      {
        var p := Serve(remaining, env);
        match p
        case Stop(t) =>
          return t.action, written + t.written, dispatched + t.dispatched, t.remaining;
        case Continue(w, d, left, _) =>
          PrependTwice(written, dispatched, w, d, Traffic(AsWritten, left, keepAlive, env));
          written, dispatched, remaining := written + w, dispatched + d, left;
      }
    }
  }
}
