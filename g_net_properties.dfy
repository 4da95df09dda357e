/**
 * What OnTraffic guarantees a client: how a request written out in the usual
 * way is decoded, that a decoded request depends on its own bytes only (so
 * pipelined requests are answered one by one, in order), how the loop ends,
 * and where OnTraffic's own byte count (DecodeAsWritten) goes wrong.
 */
module GNetProperties {
  import opened Wrappers
  import opened ByteStrings
  import opened HttpCodec
  import opened GNet

  // ---------------------------------------------------------------------------
  // A decoded request depends on its own bytes only

  /** Regrouping a request's bytes around the end of its body. */
  lemma Reframe(u: Bytes, v: Bytes, w: Bytes, p: Bytes, r: Bytes, cl: nat, x: Bytes)
    requires p + r == u + CRLF + (v + CRLF + w) && |w| == cl + |r|
    ensures |p| == |u| + 2 + |v| + 2 + cl && w == w[..cl] + r
    ensures p + x == u + CRLF + (v + CRLF + (w[..cl] + x))
    ensures (p + r)[|p| - cl..|p|] == w[..cl] && (p + x)[|p| - cl..|p|] == w[..cl]
  {
    var a := u + CRLF + v + CRLF;
    assert p + r == a + w;
    assert p == a + w[..cl] by {
      assert |p| == |a| + cl;
      assert (p + r)[..|p|] == p;
      assert (a + w)[..|a| + cl] == a + w[..cl];
    }
    assert (a + w[..cl]) + x == u + CRLF + (v + CRLF + (w[..cl] + x));
    assert w[cl..] == r by {
      assert (p + r)[|p|..] == r;
      assert (a + w)[|a| + cl..] == w[cl..];
    }
    assert w == w[..cl] + w[cl..];
  }

  /**
   * A request that ends at byte |p| is framed the same whatever follows it:
   * bytes arriving later, or none at all.
   */
  lemma FrameRebase(p: Bytes, r: Bytes, x: Bytes)
    requires Frame(p + r).Framed? && Frame(p + r).length == |p|
    ensures Frame(p + x) == Frame(p + r)
  {
    var buf := p + r;
    var l, h, cl := FramedParts(buf);
    var lines := HeaderBlockLines(l.rest, map[]);
    var joined := JoinLines(lines);
    var body := h.rest[..cl];
    Reframe(l.line, joined, h.rest, p, r, cl, x);
    ReadLineRebase(buf, joined + CRLF + (body + x));
    ReadHeadersOfLines(lines, body + x, map[]);
    assert l.rest == (joined + CRLF) + (body + r);
    FramedWith(buf, l.line, l.rest, joined + CRLF, h.headers, body, r);
    var rest' := joined + CRLF + (body + x);
    assert ReadLine(p + x) == LineRead(l.line, rest', true);
    FramedWith(p + x, l.line, rest', joined + CRLF, h.headers, body, x);
  }

  /** What Frame has read on its way to a framed request. */
  lemma FramedParts(buf: Bytes) returns (l: LineRead, h: HeaderRead, cl: nat)
    requires Frame(buf).Framed?
    ensures l == ReadLine(buf) && l.ok && |Split(l.line, ' ')| >= 3
    ensures h == ReadHeaders(l.rest) && h.ok && ContentLength(h.headers) == Some(cl) && cl <= |h.rest|
    ensures |buf| == |l.line| + 2 + |l.rest| && Frame(buf).length == |buf| - |h.rest| + cl
  {
    l := ReadLine(buf);
    h := ReadHeaders(l.rest);
    cl := ContentLength(h.headers).value;
  }

  /** Frame on a request line, a header block read to headers, and a body of exactly Content-Length bytes. */
  lemma FramedWith(buf: Bytes, reqLine: Bytes, rest: Bytes, head: Bytes, headers: map<Bytes, Bytes>, body: Bytes, after: Bytes)
    requires ReadLine(buf) == LineRead(reqLine, rest, true) && |Split(reqLine, ' ')| >= 3
    requires rest == head + (body + after) && ReadHeaders(rest) == HeaderRead(headers, body + after, true)
    requires ContentLength(headers) == Some(|body|)
    ensures var parts := Split(reqLine, ' ');
      Frame(buf) == Framed(Request(parts[0], parts[1], headers, body), reqLine, |body|, |buf| - |after|)
  {
    var front := reqLine + CRLF + head;
    ConcatAssoc(reqLine + CRLF, head, body + after);
    assert buf == front + (body + after);
    var parts := Split(reqLine, ' ');
    var h := HeaderRead(headers, body + after, true);
    FrameRequestOf(buf, front, reqLine, parts[0], parts[1], headers, body, after);
    assert FrameAfterLine(buf, reqLine, rest) == FrameRequest(buf, reqLine, parts[0], parts[1], h, Some(|body|));
  }

  /** The last stage of Frame, once the body is known to follow the head of the buffer. */
  lemma FrameRequestOf(buf: Bytes, front: Bytes, reqLine: Bytes, verb: Bytes, path: Bytes, headers: map<Bytes, Bytes>, body: Bytes, after: Bytes)
    requires buf == front + (body + after) && |reqLine| + 4 <= |front|
    ensures FrameRequest(buf, reqLine, verb, path, HeaderRead(headers, body + after, true), Some(|body|))
      == Framed(Request(verb, path, headers, body), reqLine, |body|, |buf| - |after|)
  {
    SliceOfMiddle(front, body, after);
  }

  lemma SliceOfMiddle(a: Bytes, b: Bytes, c: Bytes)
    ensures (a + (b + c))[|a|..|a| + |b|] == b
  {
  }

  /**
   * The decoding of a complete request does not depend on what follows it in
   * the buffer: a request is answered the same whether the next one has
   * arrived, has partly arrived, or has not.
   */
  lemma DecodeRebase(p: Bytes, r: Bytes, x: Bytes)
    requires Decode(p + r).Complete? && Decode(p + r).consumed == |p|
    ensures Decode(p + x) == Decode(p + r)
  {
    FrameRebase(p, r, x);
  }

  /** The same for the byte count OnTraffic adds up: it too depends on the request's own bytes only. */
  lemma DecodeByRebase(count: Counting, p: Bytes, r: Bytes, x: Bytes)
    requires Decode(p + r).Complete? && Decode(p + r).consumed == |p|
    ensures DecodeBy(count, p + x) == DecodeBy(count, p + r)
  {
    FrameRebase(p, r, x);
  }

  // ---------------------------------------------------------------------------
  // Requests as a client writes them

  /**
   * What a request whose header block has been read should decode to, rest
   * being the bytes after the block and size the whole buffer's length:
   * rejected when Content-Length is not a non-negative number, left waiting
   * while the body is short, and otherwise complete with exactly
   * Content-Length body bytes.
   */
  function DecodedAs(verb: Bytes, path: Bytes, headers: map<Bytes, Bytes>, rest: Bytes, size: nat): (d: Decoded)
    requires |rest| <= size
    ensures d.Complete? ==> d.request.body <= rest && size - |rest| <= d.consumed <= size
  {
    match ContentLength(headers)
    case None => Malformed(BadContentLength)
    case Some(cl) =>
      if |rest| < cl then Incomplete
      else Complete(Request(verb, path, headers, rest[..cl]), size - |rest| + cl)
  }

  /**
   * A request written as a request line, header fields and a blank line is
   * decoded to its verb, its path and the fields keyed as readHeaders keys
   * them, with the body as DecodedAs says.
   */
  lemma DecodeCanonical(reqLine: Bytes, fs: seq<Field>, rest: Bytes)
    requires NoCRLF(reqLine) && |Split(reqLine, ' ')| >= 3
    requires forall f <- fs :: Spellable(f)
    ensures var buf := reqLine + CRLF + (JoinLines(FieldLines(fs)) + CRLF + rest);
      var parts := Split(reqLine, ' ');
      var headers := FieldMap(map[], fs);
      Decode(buf) == DecodedAs(parts[0], parts[1], headers, rest, |buf|)
  {
    var head := JoinLines(FieldLines(fs)) + CRLF;
    ReadLineOf(reqLine, head + rest);
    ReadHeadersOfFields(fs, rest);
    ConcatAssoc(reqLine + CRLF, head, rest);
    var buf := reqLine + CRLF + (head + rest);
    var parts := Split(reqLine, ' ');
    FrameOfHeaders(buf, reqLine, head + rest, FieldMap(map[], fs), rest);
    DecodeOfHeaders(buf, reqLine, parts[0], parts[1], reqLine + CRLF + head, FieldMap(map[], fs), rest);
  }

  /** Decode once the request line and the header block have been read; rest follows the block. */
  lemma DecodeOfHeaders(buf: Bytes, reqLine: Bytes, verb: Bytes, path: Bytes, front: Bytes, headers: map<Bytes, Bytes>, rest: Bytes)
    requires buf == front + rest && |reqLine| + 4 <= |front|
    requires Frame(buf) == FrameRequest(buf, reqLine, verb, path, HeaderRead(headers, rest, true), ContentLength(headers))
    ensures Decode(buf) == DecodedAs(verb, path, headers, rest, |buf|)
  {
    FrameRequestCases(buf, front, reqLine, verb, path, headers, rest);
  }

  /** Frame once the request line and the header block have been read. */
  lemma FrameOfHeaders(buf: Bytes, reqLine: Bytes, rest: Bytes, headers: map<Bytes, Bytes>, after: Bytes)
    requires ReadLine(buf) == LineRead(reqLine, rest, true) && |Split(reqLine, ' ')| >= 3
    requires ReadHeaders(rest) == HeaderRead(headers, after, true)
    ensures var parts := Split(reqLine, ' ');
      Frame(buf) == FrameRequest(buf, reqLine, parts[0], parts[1], HeaderRead(headers, after, true), ContentLength(headers))
  {
  }

  /** The last stage of Frame on its three outcomes, the header block being followed by rest. */
  lemma FrameRequestCases(buf: Bytes, front: Bytes, reqLine: Bytes, verb: Bytes, path: Bytes, headers: map<Bytes, Bytes>, rest: Bytes)
    requires buf == front + rest && |reqLine| + 4 <= |front|
    ensures FrameRequest(buf, reqLine, verb, path, HeaderRead(headers, rest, true), ContentLength(headers)) ==
      match ContentLength(headers)
      case None => Reject(BadContentLength)
      case Some(cl) =>
        if |rest| < cl then NeedMore
        else Framed(Request(verb, path, headers, rest[..cl]), reqLine, cl, |buf| - |rest| + cl)
  {
    if ContentLength(headers).Some? && ContentLength(headers).value <= |rest| {
      var cl := ContentLength(headers).value;
      assert rest == rest[..cl] + rest[cl..];
      FrameRequestOf(buf, front, reqLine, verb, path, headers, rest[..cl], rest[cl..]);
    }
  }

  /** A request line without two spaces is answered 400 and the connection closed, whatever follows. */
  lemma BadRequestLineCloses(count: Counting, reqLine: Bytes, rest: Bytes, keepAlive: bool, env: SummaryEnv)
    requires NoCRLF(reqLine) && Count(reqLine, ' ') < 2
    ensures var buf := reqLine + CRLF + rest;
      && DecodeBy(count, buf) == Malformed(BadRequest)
      && Traffic(count, buf, keepAlive, env) == TrafficResult(Close, [WriteResponse(400, BadRequest, false)], [], buf, keepAlive)
  {
    var buf := reqLine + CRLF + rest;
    ReadLineOf(reqLine, rest);
    assert FrameAfterLine(buf, reqLine, rest) == Reject(BadRequest);
  }

  /**
   * A header line without a ':' leaves readHeaders unfinished however many
   * bytes follow: the request is never decoded, nothing is written and the
   * bytes stay buffered.
   */
  lemma NoColonWaits(count: Counting, reqLine: Bytes, line: Bytes, rest: Bytes, keepAlive: bool, env: SummaryEnv)
    requires NoCRLF(reqLine) && |Split(reqLine, ' ')| >= 3
    requires line != [] && NoCRLF(line) && ':' !in line
    ensures var buf := reqLine + CRLF + (line + CRLF + rest);
      && DecodeBy(count, buf) == Incomplete
      && Traffic(count, buf, keepAlive, env) == TrafficResult(NoAction, [], [], buf, keepAlive)
  {
    var buf := reqLine + CRLF + (line + CRLF + rest);
    ReadLineOf(reqLine, line + CRLF + rest);
    ReadHeadersNoColon(line, rest);
    assert FrameAfterLine(buf, reqLine, line + CRLF + rest) == NeedMore;
  }

  /** For an ASCII Connection value, a close is requested exactly when the value lower-cases to "close". */
  lemma CloseRequestedAscii(headers: map<Bytes, Bytes>)
    requires "connection" in headers ==> Ascii(headers["connection"])
    ensures CloseRequested(headers) <==> "connection" in headers && ToLower(headers["connection"]) == "close"
  {
    if "connection" in headers {
      EqualFoldCloseAscii(headers["connection"]);
    }
  }

  // ---------------------------------------------------------------------------
  // Pipelined requests

  /**
   * A buffer holding one complete request p and then anything else, where
   * the count discarded is p's own length: p is answered first, its payment
   * (if any) dispatched first, and the loop goes on with exactly the bytes
   * after p, unless p (or an earlier request) turned keep-alive off, in which
   * case those bytes are left buffered. The exact count always qualifies;
   * OnTraffic's own count does for canonically written requests
   * (TrafficPipelinedCanonical).
   */
  lemma TrafficPipelined(count: Counting, p: Bytes, next: Bytes, keepAlive: bool, env: SummaryEnv)
    requires Decode(p).Complete? && Decode(p).consumed == |p| && DecodeBy(count, p) == Decode(p)
    ensures var req := Decode(p).request;
      var ka := keepAlive && !CloseRequested(req.headers);
      var outcome := Route(req, env);
      Traffic(count, p + next, keepAlive, env) ==
        if ka then Prepend([Answer(outcome, true)], Handed(outcome), Traffic(count, next, true, env))
        else TrafficResult(Close, [Answer(outcome, false)], Handed(outcome), next, false)
  {
    var req := Decode(p).request;
    assert p + [] == p;
    DecodeByRebase(count, p, [], next);
    assert Discard(p + next, |p|) == next;
    TrafficComplete(count, p + next, keepAlive, env, req, |p|);
  }

  /**
   * OnTraffic on a request written as a request line, ASCII "Name: value" fields
   * with distinct names, a blank line and a Content-Length body, followed by
   * anything: the request is answered first and the loop goes on with exactly
   * the bytes after it.
   */
  lemma TrafficPipelinedCanonical(reqLine: Bytes, fs: seq<Field>, body: Bytes, next: Bytes, keepAlive: bool, env: SummaryEnv)
    requires NoCRLF(reqLine) && |Split(reqLine, ' ')| >= 3
    requires forall f <- fs :: Spellable(f) && AsciiField(f)
    requires forall i, j :: 0 <= i < j < |fs| ==> ToLower(fs[i].name) != ToLower(fs[j].name)
    requires ContentLength(FieldMap(map[], fs)) == Some(|body|)
    ensures var p := reqLine + CRLF + (JoinLines(FieldLines(fs)) + CRLF + body);
      var parts := Split(reqLine, ' ');
      var req := Request(parts[0], parts[1], FieldMap(map[], fs), body);
      var ka := keepAlive && !CloseRequested(req.headers);
      var outcome := Route(req, env);
      Traffic(AsWritten, p + next, keepAlive, env) ==
        if ka then Prepend([Answer(outcome, true)], Handed(outcome), Traffic(AsWritten, next, true, env))
        else TrafficResult(Close, [Answer(outcome, false)], Handed(outcome), next, false)
  {
    var p := reqLine + CRLF + (JoinLines(FieldLines(fs)) + CRLF + body);
    DecodeCanonical(reqLine, fs, body);
    assert body[..|body|] == body;
    AsWrittenAgrees(reqLine, fs, body);
    TrafficPipelined(AsWritten, p, next, keepAlive, env);
  }

  /**
   * The loop over a buffer that starts with a complete request: answer it,
   * then go on with the bytes left once the count is discarded, unless
   * keep-alive is off.
   */
  lemma TrafficComplete(count: Counting, buf: Bytes, keepAlive: bool, env: SummaryEnv, req: Request, consumed: nat)
    requires DecodeBy(count, buf) == Complete(req, consumed)
    ensures var ka := keepAlive && !CloseRequested(req.headers);
      var outcome := Route(req, env);
      var left := Discard(buf, consumed);
      Traffic(count, buf, keepAlive, env) ==
        if ka then Prepend([Answer(outcome, true)], Handed(outcome), Traffic(count, left, true, env))
        else TrafficResult(Close, [Answer(outcome, false)], Handed(outcome), left, false)
  {
  }

  /** The same with keep-alive on and left the bytes after the count: answer the request, then serve left. */
  lemma TrafficKeptAlive(count: Counting, buf: Bytes, env: SummaryEnv, req: Request, consumed: nat, left: Bytes)
    requires DecodeBy(count, buf) == Complete(req, consumed) && Discard(buf, consumed) == left
    requires "connection" !in req.headers
    ensures var outcome := Route(req, env);
      Traffic(count, buf, true, env) == Prepend([Answer(outcome, true)], Handed(outcome), Traffic(count, left, true, env))
  {
    TrafficComplete(count, buf, true, env, req, consumed);
  }

  /** r is what is left of buf once some bytes are dropped from its front. */
  ghost predicate SuffixOf(r: Bytes, buf: Bytes) {
    |r| <= |buf| && r == buf[|buf| - |r|..]
  }

  lemma SuffixOfSuffix(r: Bytes, s: Bytes, buf: Bytes)
    requires SuffixOf(r, s) && SuffixOf(s, buf)
    ensures SuffixOf(r, buf)
  {
    assert buf[|buf| - |s|..][|s| - |r|..] == buf[|buf| - |r|..];
  }

  /**
   * What an OnTraffic call starting from keepAlive may leave: a suffix of the
   * buffer; no more bodies dispatched than responses written; keepAlive never
   * switched back on; when it keeps the connection, keepAlive unchanged and
   * nothing decodable left at the front of the buffer; and a response
   * written before any close.
   */
  ghost predicate Leaves(buf: Bytes, keepAlive: bool, t: TrafficResult) {
    && SuffixOf(t.remaining, buf)
    && |t.dispatched| <= |t.written|
    && (t.keepAlive ==> keepAlive)
    && (t.action == NoAction ==> t.keepAlive == keepAlive && (t.remaining == [] || Decode(t.remaining).Incomplete?))
    && (t.action == Close ==> t.written != [])
  }

  /** Every OnTraffic call leaves what Leaves allows, whatever the buffer. */
  lemma {:induction false} TrafficShape(count: Counting, buf: Bytes, keepAlive: bool, env: SummaryEnv)
    ensures Leaves(buf, keepAlive, Traffic(count, buf, keepAlive, env))
    decreases |buf|
  {
    match Step(DecodeBy(count, buf), buf, keepAlive, env)
    case Stop(t) =>
      StepStops(count, buf, keepAlive, env, t);
    case Continue(w, d, left, ka) =>
      StepGoesOn(count, buf, keepAlive, env, w, d, left, ka);
      TrafficShape(count, left, ka, env);
      SuffixOfSuffix(Traffic(count, left, ka, env).remaining, left, buf);
  }

  /** The same facts about a single pass that returns; one that waits leaves the buffer as it was. */
  lemma StepStops(count: Counting, buf: Bytes, keepAlive: bool, env: SummaryEnv, t: TrafficResult)
    requires Step(DecodeBy(count, buf), buf, keepAlive, env) == Stop(t)
    ensures Leaves(buf, keepAlive, t) && (t.action == NoAction ==> t.remaining == buf)
  {
    if |buf| == 0 || !DecodeBy(count, buf).Complete? {
      assert buf[0..] == buf;
    } else {
      var d := DecodeBy(count, buf);
      assert |Handed(Route(d.request, env))| <= 1;
    }
  }

  /** A pass that goes round again dispatches at most one body per response, leaves a suffix and keeps keep-alive on. */
  lemma StepGoesOn(count: Counting, buf: Bytes, keepAlive: bool, env: SummaryEnv, written: seq<Bytes>, dispatched: seq<Bytes>, left: Bytes, ka: bool)
    requires Step(DecodeBy(count, buf), buf, keepAlive, env) == Continue(written, dispatched, left, ka)
    ensures SuffixOf(left, buf) && |dispatched| <= |written| && ka && keepAlive
  {
    var d := DecodeBy(count, buf);
    assert |Handed(Route(d.request, env))| <= 1;
  }

  // ---------------------------------------------------------------------------
  // OnTraffic's own byte count

  /**
   * OnTraffic's count is right for a canonically written request: one whose
   * fields are ASCII, written "Name: value" with distinct names (ignoring
   * case). Outside ASCII Go's ToLower and TrimSpace may change their length.
   */
  lemma AsWrittenAgrees(reqLine: Bytes, fs: seq<Field>, rest: Bytes)
    requires NoCRLF(reqLine) && |Split(reqLine, ' ')| >= 3
    requires forall f <- fs :: Spellable(f) && AsciiField(f)
    requires forall i, j :: 0 <= i < j < |fs| ==> ToLower(fs[i].name) != ToLower(fs[j].name)
    ensures var buf := reqLine + CRLF + (JoinLines(FieldLines(fs)) + CRLF + rest);
      DecodeAsWritten(buf) == Decode(buf)
  {
    var head := JoinLines(FieldLines(fs)) + CRLF;
    var buf := reqLine + CRLF + (head + rest);
    var parts := Split(reqLine, ' ');
    var headers := FieldMap(map[], fs);
    ReadLineOf(reqLine, head + rest);
    ReadHeadersOfFields(fs, rest);
    FrameOfHeaders(buf, reqLine, head + rest, headers, rest);
    ConcatAssoc(reqLine + CRLF, head, rest);
    FrameRequestCases(buf, reqLine + CRLF + head, reqLine, parts[0], parts[1], headers, rest);
    FieldBytes(map[], fs);
    assert HeaderBytes(map[]) == 0;
  }

  /**
   * The bytes OnTraffic adds up for ASCII fields stored under distinct new
   * keys: exactly the length of their lines "Name: value" and CRLFs.
   */
  lemma {:induction false} FieldBytes(acc: map<Bytes, Bytes>, fs: seq<Field>)
    requires forall i, j :: 0 <= i < j < |fs| ==> ToLower(fs[i].name) != ToLower(fs[j].name)
    requires forall f <- fs :: ToLower(f.name) !in acc
    requires forall f <- fs :: AsciiField(f)
    ensures HeaderBytes(FieldMap(acc, fs)) == HeaderBytes(acc) + |JoinLines(FieldLines(fs))|
    decreases |fs|
  {
    if fs != [] {
      var f := fs[0];
      var acc' := acc[ToLower(f.name) := f.value];
      assert fs[0] in fs;
      HeaderBytesInsert(acc, ToLower(f.name), f.value);
      forall g <- fs[1..]
        ensures ToLower(g.name) !in acc'
      {
        var j :| 0 <= j < |fs[1..]| && fs[1..][j] == g;
        assert fs[j + 1] == g && fs[j + 1] in fs;
      }
      forall i, j | 0 <= i < j < |fs[1..]|
        ensures ToLower(fs[1..][i].name) != ToLower(fs[1..][j].name)
      {
        assert fs[1..][i] == fs[i + 1] && fs[1..][j] == fs[j + 1];
      }
      FieldBytes(acc', fs[1..]);
      FieldLinesCons(fs);
      assert FieldLines(fs)[1..] == FieldLines(fs[1..]);
      assert JoinLines(FieldLines(fs)) == FieldLine(f) + CRLF + JoinLines(FieldLines(fs[1..]));
    }
  }

  /**
   * The overcount: a header written without the space after its colon
   * ("Host:x") adds one more byte to OnTraffic's count than it occupies. With
   * a second request pipelined behind the first, OnTraffic then discards the
   * first byte of the second request, which the exact count leaves intact.
   */
  lemma TightHeaderOvercount(reqLine: Bytes, name: Bytes, value: Bytes, req: Bytes, next: Bytes)
    requires NoCRLF(reqLine) && |Split(reqLine, ' ')| >= 3
    requires Spellable(Field(name, value)) && AsciiField(Field(name, value)) && ToLower(name) != "content-length"
    requires req == reqLine + CRLF + (name + ":" + value + CRLF + CRLF)
    ensures var parts := Split(reqLine, ' ');
      var d := DecodeBy(AsWritten, req + next);
      && d.Complete?
      && d.request == Request(parts[0], parts[1], map[ToLower(name) := value], [])
      && d.consumed == |req| + 1
  {
    var key := ToLower(name);
    var parts := Split(reqLine, ' ');
    var request := Request(parts[0], parts[1], map[key := value], []);
    TightLength(reqLine, name, value, req);
    TightFrame(reqLine, name, value, next);
    OneHeaderCount(req + next, request, reqLine, key, value, |req|, |req| + 1);
  }

  /** The same request under the exact count: exactly its own bytes. */
  lemma TightHeaderExact(reqLine: Bytes, name: Bytes, value: Bytes, req: Bytes, next: Bytes)
    requires NoCRLF(reqLine) && |Split(reqLine, ' ')| >= 3
    requires Spellable(Field(name, value)) && ToLower(name) != "content-length"
    requires req == reqLine + CRLF + (name + ":" + value + CRLF + CRLF)
    ensures var parts := Split(reqLine, ' ');
      DecodeBy(Exact, req + next) == Complete(Request(parts[0], parts[1], map[ToLower(name) := value], []), |req|)
  {
    var parts := Split(reqLine, ' ');
    var request := Request(parts[0], parts[1], map[ToLower(name) := value], []);
    TightFrame(reqLine, name, value, next);
    DecodesOfFrame(req + next, request, reqLine, 0, |req|);
  }

  /** A frame without a body and with one stored header is counted as its request line, that header plus 4, and two CRLFs. */
  lemma OneHeaderCount(buf: Bytes, req: Request, reqLine: Bytes, key: Bytes, value: Bytes, length: nat, count: nat)
    requires Frame(buf) == Framed(req, reqLine, 0, length)
    requires req.headers == map[key := value]
    requires count == |reqLine| + |key| + |value| + 8
    ensures DecodeBy(AsWritten, buf) == Complete(req, count)
  {
    OneHeaderBytes(key, value);
    DecodesOfFrame(buf, req, reqLine, 0, length);
  }

  /** A request with one header written "name:value" is one byte shorter than the count of its header line. */
  lemma TightLength(reqLine: Bytes, name: Bytes, value: Bytes, req: Bytes)
    requires req == reqLine + CRLF + (name + ":" + value + CRLF + CRLF)
    ensures |req| + 1 == |reqLine| + |ToLower(name)| + |value| + 8
  {
  }

  /** One stored header counts len(key) + len(value) + 4. */
  lemma OneHeaderBytes(key: Bytes, value: Bytes)
    ensures HeaderBytes(map[key := value]) == |key| + |value| + 4
  {
    HeaderBytesInsert(map[], key, value);
    assert HeaderBytes(map[]) == 0;
  }

  /** Discarding exactly a request leaves what follows it; one byte more loses the first byte of it. */
  lemma DiscardPast(req: Bytes, next: Bytes)
    ensures Discard(req + next, |req|) == next
    ensures next != [] ==> Discard(req + next, |req| + 1) == next[1..]
  {
    assert (req + next)[|req|..] == next;
    assert next != [] ==> (req + next)[|req| + 1..] == next[1..];
  }

  lemma TightHeaderLosesByte(reqLine: Bytes, name: Bytes, value: Bytes, next: Bytes, env: SummaryEnv)
    requires NoCRLF(reqLine) && |Split(reqLine, ' ')| >= 3
    requires Spellable(Field(name, value)) && AsciiField(Field(name, value)) && ToLower(name) != "content-length" && ToLower(name) != "connection"
    requires next != []
    ensures var req := reqLine + CRLF + (name + ":" + value + CRLF + CRLF);
      var parts := Split(reqLine, ' ');
      var outcome := Route(Request(parts[0], parts[1], map[ToLower(name) := value], []), env);
      Traffic(AsWritten, req + next, true, env) == Prepend([Answer(outcome, true)], Handed(outcome), Traffic(AsWritten, next[1..], true, env))
  {
    var req := reqLine + CRLF + (name + ":" + value + CRLF + CRLF);
    var parts := Split(reqLine, ' ');
    var request := Request(parts[0], parts[1], map[ToLower(name) := value], []);
    TightHeaderOvercount(reqLine, name, value, req, next);
    DiscardPast(req, next);
    TrafficKeptAlive(AsWritten, req + next, env, request, |req| + 1, next[1..]);
  }

  /** The same request under the exact count: the loop goes on with all of the next request's bytes. */
  lemma TightHeaderKeepsNext(reqLine: Bytes, name: Bytes, value: Bytes, next: Bytes, env: SummaryEnv)
    requires NoCRLF(reqLine) && |Split(reqLine, ' ')| >= 3
    requires Spellable(Field(name, value)) && ToLower(name) != "content-length" && ToLower(name) != "connection"
    ensures var req := reqLine + CRLF + (name + ":" + value + CRLF + CRLF);
      var parts := Split(reqLine, ' ');
      var outcome := Route(Request(parts[0], parts[1], map[ToLower(name) := value], []), env);
      Traffic(Exact, req + next, true, env) == Prepend([Answer(outcome, true)], Handed(outcome), Traffic(Exact, next, true, env))
  {
    var req := reqLine + CRLF + (name + ":" + value + CRLF + CRLF);
    var parts := Split(reqLine, ' ');
    var request := Request(parts[0], parts[1], map[ToLower(name) := value], []);
    TightHeaderExact(reqLine, name, value, req, next);
    DiscardPast(req, next);
    TrafficKeptAlive(Exact, req + next, env, request, |req|, next);
  }

  /** Both decodings of a framed request: they differ in the count only. */
  lemma DecodesOfFrame(buf: Bytes, req: Request, reqLine: Bytes, cl: nat, length: nat)
    requires Frame(buf) == Framed(req, reqLine, cl, length)
    ensures DecodeBy(Exact, buf) == Complete(req, length)
    ensures DecodeBy(AsWritten, buf) == Complete(req, |reqLine| + 2 + HeaderBytes(req.headers) + 2 + cl)
  {
    var f := Frame(buf);
    assert f.Framed? && f.request == req && f.reqLine == reqLine && f.contentLength == cl && f.length == length;
  }

  /** How a request with one header written "name:value" is framed, whatever follows it. */
  lemma TightFrame(reqLine: Bytes, name: Bytes, value: Bytes, next: Bytes)
    requires NoCRLF(reqLine) && |Split(reqLine, ' ')| >= 3
    requires Spellable(Field(name, value)) && ToLower(name) != "content-length"
    ensures var req := reqLine + CRLF + (name + ":" + value + CRLF + CRLF);
      var parts := Split(reqLine, ' ');
      Frame(req + next) == Framed(Request(parts[0], parts[1], map[ToLower(name) := value], []), reqLine, 0, |req|)
  {
    TightLine(name, value);
    OneHeaderFrame(reqLine, name + ":" + value, next);
  }

  /** How a request with a single header line and no body is framed, whatever follows it. */
  lemma OneHeaderFrame(reqLine: Bytes, line: Bytes, next: Bytes)
    requires NoCRLF(reqLine) && |Split(reqLine, ' ')| >= 3
    requires IsHeaderLine(line) && HeaderKey(line) != "content-length"
    ensures var req := reqLine + CRLF + (line + CRLF + CRLF);
      var parts := Split(reqLine, ' ');
      Frame(req + next) == Framed(Request(parts[0], parts[1], map[HeaderKey(line) := HeaderValue(line)], []), reqLine, 0, |req|)
  {
    var head := line + CRLF + CRLF;
    var req := reqLine + CRLF + head;
    var buf := req + next;
    var parts := Split(reqLine, ' ');
    var headers := map[HeaderKey(line) := HeaderValue(line)];
    JoinOneLine(line);
    ReadHeadersOfLines([line], next, map[]);
    ApplyOneLine(map[], line);
    NoContentLength(HeaderKey(line), HeaderValue(line));
    ConcatAssoc(reqLine + CRLF, head, next);
    ReadLineOf(reqLine, head + next);
    FrameOfHeaders(buf, reqLine, head + next, headers, next);
    FrameNoBody(buf, req, reqLine, parts[0], parts[1], headers, next);
  }

  /** The last stage of Frame for a request without Content-Length. */
  lemma FrameNoBody(buf: Bytes, front: Bytes, reqLine: Bytes, verb: Bytes, path: Bytes, headers: map<Bytes, Bytes>, next: Bytes)
    requires buf == front + next && |reqLine| + 4 <= |front| && ContentLength(headers) == Some(0)
    ensures FrameRequest(buf, reqLine, verb, path, HeaderRead(headers, next, true), ContentLength(headers))
      == Framed(Request(verb, path, headers, []), reqLine, 0, |front|)
  {
    FrameRequestCases(buf, front, reqLine, verb, path, headers, next);
  }

  lemma NoContentLength(key: Bytes, value: Bytes)
    requires key != "content-length"
    ensures ContentLength(map[key := value]) == Some(0)
  {
  }

  /** A header line written "name:value" is stored under the lower-cased name with the value. */
  lemma TightLine(name: Bytes, value: Bytes)
    requires Spellable(Field(name, value))
    ensures var line := name + ":" + value;
      IsHeaderLine(line) && HeaderKey(line) == ToLower(name) && HeaderValue(line) == value
  {
    var line := name + ":" + value;
    FirstColon(name, value);
    HeaderKeyOf(name, value);
    assert line[|name| + 1..] == value;
    assert '\r' !in line;
    NoCRLFWithoutCR(line);
  }

  lemma JoinOneLine(line: Bytes)
    ensures JoinLines([line]) == line + CRLF
  {
    assert [line][1..] == [];
  }

  // ---------------------------------------------------------------------------
  // Routing

  /**
   * POST /payments is acknowledged with the fixed 200 response, which always
   * says keep-alive (even when the request asked to close), and its body is
   * handed on unchanged.
   */
  lemma PaymentsAccepted(req: Request, keepAlive: bool, env: SummaryEnv)
    requires req.verb == "POST" && req.path == "/payments"
    ensures Route(req, env) == Accept(req.body)
    ensures Answer(Route(req, env), keepAlive) == WriteResponse(200, [], true)
    ensures Handed(Route(req, env)) == [req.body]
  {
    RouteTable(req, env);
    AckPrefixIsResponse();
  }

  /** A summary query that is not exactly two key=value pairs is answered 400 "invalid query". */
  lemma SummaryInvalidQuery(qs: Bytes, env: SummaryEnv)
    requires !(Count(qs, '&') == 1 && forall p <- Split(qs, '&') :: '=' in p)
    ensures SummaryReply(Some(qs), env) == Respond(400, InvalidQuery)
  {
  }

  /**
   * The query "from=F&to=T" reaches the summary with F and T as its bounds,
   * and the reply is 200 only when both bounds given parse and the summary
   * succeeds: then its JSON is the body.
   */
  lemma SummaryOfQuery(from: Bytes, to: Bytes, env: SummaryEnv)
    requires '&' !in from && '&' !in to
    ensures SummaryReply(Some("from=" + from + "&to=" + to), env) == SummaryOfBounds(from, to, env)
  {
    var qs := "from=" + from + "&to=" + to;
    assert qs == "from" + "=" + from + "&" + "to" + "=" + to;
    assert '=' !in "from" && '&' !in "from" && '=' !in "to" && '&' !in "to";
    ParseQueryStringOf("from", from, "to", to);
    var q := map["from" := from]["to" := to];
    assert "from" != "to";
    assert Lookup(q, "from") == from && Lookup(q, "to") == to;
  }

  /**
   * A non-empty bound that does not parse is answered 400 naming it, from
   * first; trailing backslashes of to are ignored; an empty bound is left
   * open; a 200 carries the summary's JSON.
   */
  lemma SummaryBounds(from: Bytes, to: Bytes, env: SummaryEnv)
    ensures var r := SummaryOfBounds(from, to, env);
      var fromOk := from == [] || env.parseTime(from).Some?;
      var toOk := to == [] || env.parseTime(TrimTrailing(to, '\\')).Some?;
      var fromBound := if from == [] then None else env.parseTime(from);
      var toBound := if to == [] then None else env.parseTime(TrimTrailing(to, '\\'));
      && (!fromOk ==> r == Respond(400, InvalidFrom))
      && (fromOk && !toOk ==> r == Respond(400, InvalidTo))
      && (r.code == 200 <==> fromOk && toOk && env.summary(fromBound, toBound).Ok?)
      && (r.code == 200 ==> r.body == env.summary(fromBound, toBound).value)
      && (fromOk && toOk && env.summary(fromBound, toBound).Err? ==> r == Respond(400, ErrorBody(env.summary(fromBound, toBound).error)))
  {
  }
}
