/**
 * The access gate: the `app.all("*", ...)` middleware installed by
 * `attachHttpsAccessHandler` (app.js:47-81). For every request it checks the
 * socket's remote address against the allow-list, logs the decision, and
 * then either passes the request on (`next()`), answers 403, or, when the
 * check itself failed, answers 500.
 */
module Gate {
  import opened Results
  import opened AllowList

  /** The parts of an Express request the gate looks at. */
  datatype Request = Request(remoteAddress: Address, verb: string, url: string)

  /** What the gate does with a request: call `next()`, or end it with a status. */
  datatype Action = Forward | Respond(status: int)

  /**
   * The one log line per request: a decision line (app.js:62, without its
   * timestamp) when the check settled, the error (app.js:74) when it did not.
   */
  datatype LogLine =
    | Decision(verdict: string, verb: string, address: Address, url: string)
    | Failure(error: Error)

  const Forbidden: int := 403
  const ServerError: int := 500

  const AdmittedLabel: string := "Whitelisted"
  const RejectedLabel: string := "Not whitelisted"

  /**
   * The gate's answer to a settled check (app.js:64-76). It fails closed:
   * only a check that resolved with `true` lets the request through.
   */
  function Decide(outcome: Result<bool>): (a: Action)
    ensures a.Forward? <==> outcome == Ok(true)
    ensures a == Respond(Forbidden) <==> outcome == Ok(false)
    ensures a == Respond(ServerError) <==> outcome.Err?
  {
    match outcome
    case Ok(allowed) => if allowed then Forward else Respond(Forbidden)
    case Err(_) => Respond(ServerError)
  }

  /** The log line written for a settled check (app.js:56-62, app.js:74). */
  function LogFor(req: Request, outcome: Result<bool>): (log: LogLine)
    ensures log.Decision? <==> outcome.Ok?
    ensures log.Failure? ==> outcome.Err? && log.error == outcome.error
    ensures log.Decision? ==> log.verb == req.verb && log.address == req.remoteAddress && log.url == req.url
    ensures log.Decision? ==> (log.verdict == AdmittedLabel <==> outcome == Ok(true))
    ensures log.Decision? ==> (log.verdict == RejectedLabel <==> outcome == Ok(false))
  {
    match outcome
    case Ok(allowed) =>
      Decision(if allowed then AdmittedLabel else RejectedLabel, req.verb, req.remoteAddress, req.url)
    case Err(e) => Failure(e)
  }

  /**
   * One request through the gate, given the allow-list file as it reads at
   * that moment. The address checked is the one logged, the label says
   * "Whitelisted" exactly when the request is forwarded, and the request is
   * forwarded exactly when its address is a whole line of a readable file.
   */
  method HandleRequest(req: Request, allowList: ReadResult) returns (action: Action, log: LogLine, consulted: bool)
    ensures action == Decide(Check(req.remoteAddress, allowList))
    ensures log == LogFor(req, Check(req.remoteAddress, allowList))
    ensures consulted <==> WellFormed(req.remoteAddress)
    ensures action.Forward? <==> Listed(req.remoteAddress, allowList)
    ensures action == Respond(ServerError) <==> WellFormed(req.remoteAddress) && allowList.Err?
    ensures action == Respond(Forbidden) <==>
              !Listed(req.remoteAddress, allowList) && !(WellFormed(req.remoteAddress) && allowList.Err?)
    ensures log.Decision? <==> action != Respond(ServerError)
    ensures log.Decision? ==> log.address == req.remoteAddress && log.verb == req.verb && log.url == req.url
    ensures log.Decision? ==> (log.verdict == AdmittedLabel <==> action.Forward?)
  {
    var addr := req.remoteAddress;
    var allowed;
    allowed, consulted := IsWhitelisted(addr, allowList);
    CheckAdmitsExactlyListed(addr, allowList);
    match allowed
    case Ok(b) =>
      var verdict := if b then AdmittedLabel else RejectedLabel;
      log := Decision(verdict, req.verb, addr, req.url);
      if b {
        action := Forward;
      } else {
        action := Respond(Forbidden);
      }
    case Err(e) =>
      log := Failure(e);
      action := Respond(ServerError);
  }
}
