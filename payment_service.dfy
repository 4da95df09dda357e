/**
 * The dispatch policy of internal/services/payment.go: a queued payment is
 * posted to the default processor, then to the fallback processor if the
 * default one failed, and put back on the queue if both failed. A 2xx reply
 * stores a record of the payment; a 422 is accepted without one.
 *
 * The processors are the two HTTP clients, each a function from the posted
 * body to its reply; the repository is the sequence of records handed to it
 * for insertion; the queue is the QueueWorker of the Workers module.
 */
module Payments {
  import opened Wrappers
  import opened ByteStrings
  import opened Models
  import opened Workers

  /** What postPayment gets back from a processor: a transport error, or an HTTP status code. */
  datatype Reply = TransportError(err: Bytes) | Status(code: int)

  /** The two processor clients: defaultFast and fallbackFast. */
  datatype Processors = Processors(defaultClient: PaymentRequest -> Reply, fallbackClient: PaymentRequest -> Reply)

  /** One processor call: which client, and the body posted. */
  datatype Posted = Posted(fallback: bool, request: PaymentRequest)

  /** What execute makes of a reply: an error, a stored payment, or an accepted payment with no record. */
  datatype Verdict = Failed(err: Bytes) | Stored | Unprocessable

  const StatusErrorPrefix: Bytes := "HTTP status fora da faixa 2xx: "

  /**
   * execute's decision on a reply: a transport error is returned as is; a 2xx
   * status stores the payment; 422 is accepted without a record; any other
   * status is an error naming it.
   */
  function Classify(reply: Reply): (v: Verdict)
    ensures v.Stored? <==> reply.Status? && 200 <= reply.code < 300
    ensures v.Unprocessable? <==> reply == Status(422)
    ensures reply.TransportError? ==> v == Failed(reply.err)
    ensures reply.Status? && v.Failed? ==> v.err == StatusErrorPrefix + Itoa(reply.code)
  {
    match reply
    case TransportError(err) => Failed(err)
    case Status(code) =>
      if 200 <= code < 300 then Stored
      else if code == 422 then Unprocessable
      else Failed(StatusErrorPrefix + Itoa(code))
  }

  /** Only a transport error or a status outside 2xx and 422 is an error. */
  lemma ClassifyFails(reply: Reply)
    ensures Classify(reply).Failed? <==> reply.TransportError? || !(200 <= reply.code < 300 || reply.code == 422)
  {
  }

  /** postPayment's choice of client: the fallback one exactly when asked for. */
  function Post(processors: Processors, fallback: bool, request: PaymentRequest): Reply {
    if fallback then processors.fallbackClient(request) else processors.defaultClient(request)
  }

  /** The record execute stores for a payment accepted by one processor. */
  function Record(request: PaymentRequest, fallback: bool): PaymentDb {
    PaymentDb(request.correlationId, request.amount, fallback, request.requestedAt)
  }

  /** Everything RunQueue does with one parsed payment: the calls made, the records stored, and whether msg is queued again. */
  datatype Dispatched = Dispatched(posted: seq<Posted>, stored: seq<PaymentDb>, queued: bool)

  /**
   * RunQueue's policy for a payment taken at createdAt: try the default
   * processor; on an error try the fallback one; on a second error queue the
   * message again. One timestamp serves both calls and the record.
   */
  function Dispatch(processors: Processors, payment: PaymentBasic, createdAt: Instant): (d: Dispatched)
    ensures var request := PaymentRequest(payment.correlationId, payment.amount, createdAt);
      var first := Classify(Post(processors, false, request));
      && 1 <= |d.posted| <= 2 && d.posted[0] == Posted(false, request)
      && (|d.posted| == 2 <==> first.Failed?)
      && (|d.posted| == 2 ==> d.posted[1] == Posted(true, request))
      && (d.queued <==> |d.posted| == 2 && Classify(Post(processors, true, request)).Failed?)
      && |d.stored| <= 1
      && (d.stored != [] <==> Classify(Post(processors, |d.posted| == 2, request)).Stored?)
      && (d.stored != [] ==> d.stored[0] == Record(request, |d.posted| == 2))
      && (d.queued ==> d.stored == [])
  {
    var request := PaymentRequest(payment.correlationId, payment.amount, createdAt);
    var first := Classify(Post(processors, false, request));
    if !first.Failed? then
      Dispatched([Posted(false, request)], if first.Stored? then [Record(request, false)] else [], false)
    else
      var second := Classify(Post(processors, true, request));
      Dispatched([Posted(false, request), Posted(true, request)], if second.Stored? then [Record(request, true)] else [], second.Failed?)
  }

  /** A default processor that answers 2xx or 422 is never followed by a fallback call, and nothing is queued. */
  lemma DefaultAnswerFinal(processors: Processors, payment: PaymentBasic, createdAt: Instant)
    requires var request := PaymentRequest(payment.correlationId, payment.amount, createdAt);
      !Classify(processors.defaultClient(request)).Failed?
    ensures var d := Dispatch(processors, payment, createdAt);
      |d.posted| == 1 && !d.queued
  {
  }

  /** Every payment ends in exactly one place: stored, accepted without a record (422), or queued again. */
  lemma DispatchAccountsForPayment(processors: Processors, payment: PaymentBasic, createdAt: Instant)
    ensures var d := Dispatch(processors, payment, createdAt);
      var request := PaymentRequest(payment.correlationId, payment.amount, createdAt);
      var last := Classify(Post(processors, |d.posted| == 2, request));
      (d.stored != [] && last.Stored?) || (d.stored == [] && !d.queued && last.Unprocessable?) || (d.stored == [] && d.queued && last.Failed?)
  {
  }

  class PaymentService {
    /** The queue failed payments go back to. */
    const queue: QueueWorker
    /** The default and fallback processor clients. */
    const processors: Processors
    /** The records handed to the repository for insertion, in order. */
    var records: seq<PaymentDb>
    /** The processor calls made, in order. */
    var posted: seq<Posted>

    ghost predicate Valid()
      reads this, queue
    {
      queue.Valid()
    }

    /** NewPaymentService: a service over the queue and the two clients, with nothing posted or stored yet. */
    constructor (queue: QueueWorker, processors: Processors)
      requires queue.Valid()
      ensures Valid() && this.queue == queue && this.processors == processors
      ensures records == [] && posted == []
    {
      this.queue := queue;
      this.processors := processors;
      records := [];
      posted := [];
    }

    /** postPayment: post the payment to the fallback client if asked, else to the default one. */
    method PostPayment(fallback: bool, correlationId: Bytes, amount: Amount, createdAt: Instant) returns (reply: Reply)
      modifies this
      ensures var request := PaymentRequest(correlationId, amount, createdAt);
        && reply == Post(processors, fallback, request)
        && posted == old(posted) + [Posted(fallback, request)]
        && records == old(records)
    {
      var request := PaymentRequest(correlationId, amount, createdAt);
      if fallback {
        reply := processors.fallbackClient(request);
      } else {
        reply := processors.defaultClient(request);
      }
      posted := posted + [Posted(fallback, request)];
    }

    /** execute: post, then store the payment on a 2xx; the error, if any, is returned. */
    method Execute(correlationId: Bytes, amount: Amount, createdAt: Instant, fallback: bool) returns (err: Option<Bytes>)
      modifies this
      ensures var request := PaymentRequest(correlationId, amount, createdAt);
        var v := Classify(Post(processors, fallback, request));
        && posted == old(posted) + [Posted(fallback, request)]
        && records == old(records) + (if v.Stored? then [Record(request, fallback)] else [])
        && err == (if v.Failed? then Some(v.err) else None)
    {
      var reply := PostPayment(fallback, correlationId, amount, createdAt);
      match reply
      case TransportError(e) =>
        return Some(e);
      case Status(code) =>
        if 200 <= code < 300 {
          records := records + [PaymentDb(correlationId, amount, fallback, createdAt)];
          return None;
        } else if code == 422 {
          return None;
        }
        return Some(StatusErrorPrefix + Itoa(code));
    }

    /**
     * RunQueue: parse msg (its parse is given, with the clock's now as the
     * payment's time), then dispatch it; only a parse error is returned.
     */
    method RunQueue(msg: Bytes, parsed: Result<PaymentBasic, Bytes>, now: Instant) returns (err: Option<Bytes>)
      requires Valid()
      modifies this, queue
      ensures Valid()
      ensures parsed.Err? ==>
        && err == Some(parsed.error)
        && posted == old(posted) && records == old(records)
        && queue.channel == old(queue.channel) && queue.fallback == old(queue.fallback)
      ensures parsed.Ok? ==>
        var d := Dispatch(processors, parsed.value, now);
        && err == None
        && posted == old(posted) + d.posted
        && records == old(records) + d.stored
        && (queue.channel, queue.fallback) ==
             if d.queued then Sent(old(queue.channel), old(queue.fallback), queue.capacity, msg)
             else (old(queue.channel), old(queue.fallback))
    {
      if parsed.Err? {
        return Some(parsed.error);
      }
      var correlationId, amount := parsed.value.correlationId, parsed.value.amount;
      var createdAt := now;
      var e := Execute(correlationId, amount, createdAt, false);
      if e.Some? {
        e := Execute(correlationId, amount, createdAt, true);
        if e.Some? {
          queue.Send(msg);
        }
      }
      return None;
    }
  }
}
