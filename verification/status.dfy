/** Status bookkeeping: `healthzHandler`, the `LoggingResponseWriter` that
    captures a status code, and the handler wrapper that logs it.

    The underlying `http.ResponseWriter` is seen only through the calls made
    on it, recorded in order; whether a body write succeeds is an input. */
module Status {
  import opened Optional
  import opened Header
  import ClientIP
  import RootHandler

  const StatusOK: int := 200
  const StatusInternalServerError: int := 500

  /** Body of the health check. */
  const HealthBody: string := "ok\n"

  /** Body the logging wrapper writes after the inner handler returns. */
  const TrailerBody: string := "Http Server Normal Response\n"

  /** A call on the underlying response writer. */
  datatype Call = WriteHeader(code: int) | WriteString(body: string)

  /** The status codes passed to `WriteHeader`, in call order. */
  function StatusWrites(calls: seq<Call>): seq<int>
  {
    if |calls| == 0 then []
    else (if calls[0].WriteHeader? then [calls[0].code] else []) + StatusWrites(calls[1..])
  }

  /** The bodies passed to writes, in call order. */
  function Bodies(calls: seq<Call>): seq<string>
  {
    if |calls| == 0 then []
    else (if calls[0].WriteString? then [calls[0].body] else []) + Bodies(calls[1..])
  }

  /** `healthzHandler`: writes "ok\n" and, only when that write fails, sets
      status 500. */
  function Healthz(writeOk: bool): (calls: seq<Call>)
    ensures |calls| >= 1 && calls[0] == WriteString(HealthBody)
    ensures Bodies(calls) == [HealthBody]
    ensures StatusWrites(calls) == if writeOk then [] else [StatusInternalServerError]
  {
    WriteThenRecover(HealthBody, writeOk);
    WriteThenRecoverCalls(HealthBody, writeOk)
  }

  /** A body write followed, only when it failed, by `WriteHeader(500)`:
      the pattern both `healthzHandler` and the logging wrapper follow. */
  function WriteThenRecoverCalls(body: string, writeOk: bool): seq<Call>
  {
    [WriteString(body)] + (if writeOk then [] else [WriteHeader(StatusInternalServerError)])
  }

  lemma WriteThenRecover(body: string, writeOk: bool)
    ensures Bodies(WriteThenRecoverCalls(body, writeOk)) == [body]
    ensures StatusWrites(WriteThenRecoverCalls(body, writeOk))
            == if writeOk then [] else [StatusInternalServerError]
  {
    var calls := WriteThenRecoverCalls(body, writeOk);
    if writeOk {
      assert calls == [WriteString(body)];
      assert calls[1..] == [];
    } else {
      assert calls == [WriteString(body), WriteHeader(StatusInternalServerError)];
      assert calls[1..] == [WriteHeader(StatusInternalServerError)];
      var rest := calls[1..];
      assert rest[1..] == [];
      assert Bodies(rest) == [];
      assert StatusWrites(rest) == [StatusInternalServerError];
    }
  }

  /** The wrapper around the response writer: the calls that reached the
      embedded writer and the captured status code. */
  datatype LoggingResponseWriter = LoggingResponseWriter(calls: seq<Call>, statusCode: int)

  /** `NewLoggingResponseWriter`: nothing written yet, status 200. */
  function NewLoggingResponseWriter(): (w: LoggingResponseWriter)
    ensures w.statusCode == StatusOK && w.calls == []
  {
    LoggingResponseWriter([], StatusOK)
  }

  /** What can happen to a `LoggingResponseWriter`: a call the inner handler
      makes, which goes straight to the embedded writer, or one of the
      wrapper's own `WriterHeader` and `WriterString` methods. */
  datatype Op = Passthrough(call: Call) | WriterHeader(code: int) | WriterString(msg: string)

  function Step(w: LoggingResponseWriter, op: Op): LoggingResponseWriter
  {
    match op
    case Passthrough(c) => w.(calls := w.calls + [c])
    case WriterHeader(code) => LoggingResponseWriter(w.calls + [WriteHeader(code)], code)
    case WriterString(msg) => w.(calls := w.calls + [WriteString(msg)])
  }

  /** The writer after the operations, first to last. */
  function Run(w: LoggingResponseWriter, ops: seq<Op>): LoggingResponseWriter
    decreases |ops|
  {
    if |ops| == 0 then w else Run(Step(w, ops[0]), ops[1..])
  }

  /** Reference for the captured code: the argument of the last
      `WriterHeader`, or `initial` when there was none. */
  function LastWriterHeader(ops: seq<Op>, initial: int): int
  {
    if |ops| == 0 then initial
    else if ops[|ops| - 1].WriterHeader? then ops[|ops| - 1].code
    else LastWriterHeader(ops[..|ops| - 1], initial)
  }

  /** Reference for the calls that reach the embedded writer. */
  function EmbeddedCalls(ops: seq<Op>): seq<Call>
  {
    if |ops| == 0 then []
    else
      var c := match ops[0]
        case Passthrough(c) => c
        case WriterHeader(code) => WriteHeader(code)
        case WriterString(msg) => WriteString(msg);
      [c] + EmbeddedCalls(ops[1..])
  }

  lemma {:induction false} RunSnoc(w: LoggingResponseWriter, ops: seq<Op>, op: Op)
    ensures Run(w, ops + [op]) == Step(Run(w, ops), op)
    decreases |ops|
  {
    if |ops| > 0 {
      assert (ops + [op])[1..] == ops[1..] + [op];
      RunSnoc(Step(w, ops[0]), ops[1..], op);
    }
  }

  lemma {:induction false} EmbeddedCallsSnoc(ops: seq<Op>, op: Op)
    ensures EmbeddedCalls(ops + [op]) == EmbeddedCalls(ops) + EmbeddedCalls([op])
  {
    if |ops| > 0 {
      assert (ops + [op])[1..] == ops[1..] + [op];
      EmbeddedCallsSnoc(ops[1..], op);
    }
  }

  /** The captured status changes only through `WriterHeader`: it is the
      last code given to it, and every operation reaches the embedded
      writer as one call. */
  lemma {:induction false} RunCapturesLastWriterHeader(w: LoggingResponseWriter, ops: seq<Op>)
    ensures Run(w, ops).statusCode == LastWriterHeader(ops, w.statusCode)
    ensures Run(w, ops).calls == w.calls + EmbeddedCalls(ops)
    decreases |ops|
  {
    if |ops| > 0 {
      var front := ops[..|ops| - 1];
      var last := ops[|ops| - 1];
      assert ops == front + [last];
      RunCapturesLastWriterHeader(w, front);
      RunSnoc(w, front, last);
      EmbeddedCallsSnoc(front, last);
    }
  }

  /** The line the wrapper logs: the client address when GetIP found one,
      and the captured response code. */
  datatype LogRecord = LogRecord(userIP: Option<string>, responseCode: int)

  /** One request through `wrapHandlerWithLogging`. */
  datatype Served = Served(calls: seq<Call>, log: LogRecord)

  function Passthroughs(calls: seq<Call>): (ops: seq<Op>)
    ensures |ops| == |calls|
    ensures forall i :: 0 <= i < |ops| ==> ops[i] == Passthrough(calls[i])
  {
    if |calls| == 0 then [] else [Passthrough(calls[0])] + Passthroughs(calls[1..])
  }

  /** What the wrapper does to the writer: the inner handler's calls, the
      trailer write, and `WriterHeader(500)` when that write failed. */
  function WrapperOps(inner: seq<Call>, trailerOk: bool): seq<Op>
  {
    Passthroughs(inner) + [WriterString(TrailerBody)]
      + (if trailerOk then [] else [WriterHeader(StatusInternalServerError)])
  }

  lemma NoWriterHeaderInPassthroughs(calls: seq<Call>, initial: int)
    ensures LastWriterHeader(Passthroughs(calls) + [WriterString(TrailerBody)], initial) == initial
  {
    var ops := Passthroughs(calls) + [WriterString(TrailerBody)];
    forall n | 0 <= n <= |ops|
      ensures LastWriterHeader(ops[..n], initial) == initial
    {
      PrefixHasNoWriterHeader(ops, n, initial);
    }
    assert ops[..|ops|] == ops;
  }

  lemma {:induction false} PrefixHasNoWriterHeader(ops: seq<Op>, n: nat, initial: int)
    requires n <= |ops|
    requires forall i :: 0 <= i < |ops| ==> !ops[i].WriterHeader?
    ensures LastWriterHeader(ops[..n], initial) == initial
  {
    if n > 0 {
      assert ops[..n][..n - 1] == ops[..n - 1];
      PrefixHasNoWriterHeader(ops, n - 1, initial);
    }
  }

  lemma EmbeddedPassthroughs(calls: seq<Call>)
    ensures EmbeddedCalls(Passthroughs(calls)) == calls
  {
  }

  lemma TrailerCalls(inner: seq<Call>, trailerOk: bool)
    ensures EmbeddedCalls(WrapperOps(inner, trailerOk))
            == inner + WriteThenRecoverCalls(TrailerBody, trailerOk)
  {
    var ops := WrapperOps(inner, trailerOk);
    var mid := Passthroughs(inner) + [WriterString(TrailerBody)];
    EmbeddedCallsSnoc(Passthroughs(inner), WriterString(TrailerBody));
    EmbeddedPassthroughs(inner);
    if !trailerOk {
      EmbeddedCallsSnoc(mid, WriterHeader(StatusInternalServerError));
    } else {
      assert ops == mid;
    }
  }

  /** The writer the wrapper ends with: status 200 unless the trailer write
      failed, and on the embedded writer the inner handler's calls followed
      by the trailer write and, on failure, `WriteHeader(500)`. */
  lemma WrapperWriter(inner: seq<Call>, trailerOk: bool)
    ensures Run(NewLoggingResponseWriter(), WrapperOps(inner, trailerOk)).statusCode
            == if trailerOk then StatusOK else StatusInternalServerError
    ensures Run(NewLoggingResponseWriter(), WrapperOps(inner, trailerOk)).calls
            == inner + WriteThenRecoverCalls(TrailerBody, trailerOk)
  {
    var ops := WrapperOps(inner, trailerOk);
    RunCapturesLastWriterHeader(NewLoggingResponseWriter(), ops);
    NoWriterHeaderInPassthroughs(inner, StatusOK);
    TrailerCalls(inner, trailerOk);
    var mid := Passthroughs(inner) + [WriterString(TrailerBody)];
    if trailerOk {
      assert ops == mid;
    } else {
      assert ops == mid + [WriterHeader(StatusInternalServerError)];
    }
  }

  /** `wrapHandlerWithLogging` around an inner handler that made `inner`
      calls, with `trailerOk` telling whether the trailer write succeeded. */
  function WrapHandlerWithLogging(req: ClientIP.Request, validIP: string -> bool,
                                  hostOf: string -> Option<string>,
                                  inner: seq<Call>, trailerOk: bool): (s: Served)
    ensures s.log.responseCode == if trailerOk then StatusOK else StatusInternalServerError
    ensures s.log.userIP.Some? ==> validIP(s.log.userIP.value)
    ensures s.log.userIP.None? <==> ClientIP.GetIP(req, validIP, hostOf).err.Some?
    ensures s.log.userIP.Some? ==> s.log.userIP.value == ClientIP.GetIP(req, validIP, hostOf).ip
    ensures s.calls == inner + WriteThenRecoverCalls(TrailerBody, trailerOk)
    ensures |s.calls| >= |inner| && s.calls[..|inner|] == inner
    ensures Bodies(s.calls[|inner|..]) == [TrailerBody]
    ensures StatusWrites(s.calls[|inner|..])
            == if trailerOk then [] else [StatusInternalServerError]
  {
    var found := ClientIP.GetIP(req, validIP, hostOf);
    var userIP := if found.err.None? then Some(found.ip) else None;
    var w := Run(NewLoggingResponseWriter(), WrapperOps(inner, trailerOk));
    WrapperWriter(inner, trailerOk);
    WriteThenRecover(TrailerBody, trailerOk);
    var tail := WriteThenRecoverCalls(TrailerBody, trailerOk);
    assert w.calls[..|inner|] == inner && w.calls[|inner|..] == tail;
    Served(w.calls, LogRecord(userIP, w.statusCode))
  }

  /** The logged code is 200 or 500, and the inner handler's own
      `WriteHeader` calls never reach the captured status. */
  lemma LoggedCodeIgnoresInnerHandler(req: ClientIP.Request, validIP: string -> bool,
                                      hostOf: string -> Option<string>,
                                      inner1: seq<Call>, inner2: seq<Call>, trailerOk: bool)
    ensures WrapHandlerWithLogging(req, validIP, hostOf, inner1, trailerOk).log.responseCode
            == WrapHandlerWithLogging(req, validIP, hostOf, inner2, trailerOk).log.responseCode
    ensures WrapHandlerWithLogging(req, validIP, hostOf, inner1, trailerOk).log.responseCode
            in {StatusOK, StatusInternalServerError}
  {
  }

  /** An inner `WriteHeader(404)` is not what the wrapper logs. */
  lemma InnerWriteHeaderNotCaptured(req: ClientIP.Request, validIP: string -> bool,
                                    hostOf: string -> Option<string>)
    ensures WrapHandlerWithLogging(req, validIP, hostOf, [WriteHeader(404)], true).log.responseCode
            == StatusOK
  {
  }

  /** A request to "/hello": `rootHandler` only sets response headers, then
      the wrapper writes its trailer and logs. */
  datatype HelloResponse = HelloResponse(header: Headers, served: Served)

  function Hello(req: ClientIP.Request, order: seq<string>, version: string,
                 validIP: string -> bool, hostOf: string -> Option<string>,
                 trailerOk: bool): (r: HelloResponse)
    requires RootHandler.Enumerates(order, req.header.Keys)
    ensures forall k :: |k| > 0 && k != RootHandler.VersionKey ==>
              Values(r.header, k) == Values(req.header, k)
    ensures Values(r.header, RootHandler.VersionKey)
            == Values(req.header, RootHandler.VersionKey) + (if |version| > 0 then [version] else [])
    ensures Bodies(r.served.calls) == [TrailerBody]
    ensures r.served.log.responseCode == if trailerOk then StatusOK else StatusInternalServerError
  {
    RootHandler.RootHandlerFromEmpty(req.header, order, version);
    var s := WrapHandlerWithLogging(req, validIP, hostOf, [], trailerOk);
    assert s.calls[0..] == s.calls;
    HelloResponse(RootHandler.RootHandlerHeaders(req.header, order, map[], version), s)
  }
}
