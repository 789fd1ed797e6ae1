/**
 * Server bootstrap: `setupServer` (app.js:23-36) chains `startHttpsServer`
 * (app.js:96-115), `attachHttpsAccessHandler` (app.js:47-81),
 * `attachHttpsViewHandler` (app.js:39-44) and `attachHttpsRouteHandler`
 * (app.js:84-93); the top-level call (app.js:15-20) exits with status 1 when
 * any of them rejects. Requests are then dispatched through the handlers in
 * the order they were registered.
 */
module Bootstrap {
  import opened Results
  import opened AllowList
  import opened Credentials
  import opened Gate

  /** The listening port (app.js:4, with no `PORT` in the environment). */
  const Port: int := 443

  /** A handler registered on the Express app. */
  datatype Handler =
    | AccessHandler  // app.all("*", ...): the access gate, for every method and path
    | RootRoute      // app.get('/', ...): answers "hello"

  /** The Express app: its handlers in registration order, and its settings. */
  datatype App = App(handlers: seq<Handler>, settings: map<string, string>)

  const ViewEngineKey: string := "view engine"
  const ViewEngine: string := "ejs"

  /** The effects of startup that outlive a step, in the order they happen. */
  datatype Event =
    | ServerCreated              // https.createServer(creds, app)
    | ListenRequested(port: int) // httpsApp.listen(PORT, ...)
    | AccessHandlerAttached
    | ViewEngineSet
    | RouteHandlerAttached

  /**
   * What startup depends on outside app.js: the two credential reads, which
   * of them settles first, and whether each library call completes or throws
   * (`https.createServer` throws on malformed credentials; each `attach*`
   * rejects if its registration throws).
   */
  datatype Environment = Environment(
    certRead: ReadResult,
    keyRead: ReadResult,
    certSettlesFirst: bool,
    createServer: Outcome,
    attachAccess: Outcome,
    attachView: Outcome,
    attachRoute: Outcome)

  /** How far startup got, and what `setupServer`'s promise settled with. */
  datatype Startup = Startup(events: seq<Event>, result: Result<App>)

  /** The effects of a startup in which every step succeeds, in order. */
  const CompleteStartup: seq<Event> :=
    [ServerCreated, ListenRequested(Port), AccessHandlerAttached, ViewEngineSet, RouteHandlerAttached]

  /** The app once every step has succeeded: the gate first, then the root route. */
  const ReadyApp: App := App([AccessHandler, RootRoute], map[ViewEngineKey := ViewEngine])

  /**
   * `startHttpsServer`: load the credentials; only then create the server
   * and ask it to listen, and hand on a fresh app with no handlers.
   */
  function StartHttpsServer(env: Environment): (s: Startup)
    ensures s.result.Ok? <==> env.certRead.Ok? && env.keyRead.Ok? && env.createServer.Pass?
    ensures s.result.Ok? ==> s.events == [ServerCreated, ListenRequested(Port)] && s.result == Ok(App([], map[]))
    ensures s.result.Err? ==> s.events == []
    ensures env.certRead.Err? || env.keyRead.Err? ==>
              s.result.Err? && ((env.certRead.Err? && s.result.error == env.certRead.error)
                                || (env.keyRead.Err? && s.result.error == env.keyRead.error))
    ensures env.certRead.Ok? && env.keyRead.Ok? && env.createServer.Fail? ==>
              s.result == Err(env.createServer.error)
    ensures LoadCredentials(env.certRead, env.keyRead, env.certSettlesFirst).Err? ==>
              s.result == Err(LoadCredentials(env.certRead, env.keyRead, env.certSettlesFirst).error)
  {
    match LoadCredentials(env.certRead, env.keyRead, env.certSettlesFirst)
    case Err(e) => Startup([], Err(e))
    case Ok(_) =>
      match env.createServer
      case Fail(e) => Startup([], Err(e))
      case Pass => Startup([ServerCreated, ListenRequested(Port)], Ok(App([], map[])))
  }

  /** `attachHttpsAccessHandler`: append the access gate, unless registering it throws. */
  function AttachHttpsAccessHandler(app: App, outcome: Outcome): (r: Result<App>)
    ensures r.Ok? <==> outcome.Pass?
    ensures r.Err? ==> outcome.Fail? && r.error == outcome.error
    ensures r.Ok? ==> r.value.handlers == app.handlers + [AccessHandler] && r.value.settings == app.settings
  {
    match outcome
    case Fail(e) => Err(e)
    case Pass => Ok(app.(handlers := app.handlers + [AccessHandler]))
  }

  /** `attachHttpsViewHandler`: set the view engine to `ejs`, unless that throws. */
  function AttachHttpsViewHandler(app: App, outcome: Outcome): (r: Result<App>)
    ensures r.Ok? <==> outcome.Pass?
    ensures r.Err? ==> outcome.Fail? && r.error == outcome.error
    ensures r.Ok? ==> r.value.handlers == app.handlers
    ensures r.Ok? ==> r.value.settings.Keys == app.settings.Keys + {ViewEngineKey}
    ensures r.Ok? ==> r.value.settings[ViewEngineKey] == ViewEngine
    ensures r.Ok? ==> forall k :: k in app.settings && k != ViewEngineKey ==> r.value.settings[k] == app.settings[k]
  {
    match outcome
    case Fail(e) => Err(e)
    case Pass => Ok(app.(settings := app.settings[ViewEngineKey := ViewEngine]))
  }

  /** `attachHttpsRouteHandler`: append the root route, unless registering it throws. */
  function AttachHttpsRouteHandler(app: App, outcome: Outcome): (r: Result<App>)
    ensures r.Ok? <==> outcome.Pass?
    ensures r.Err? ==> outcome.Fail? && r.error == outcome.error
    ensures r.Ok? ==> r.value.handlers == app.handlers + [RootRoute] && r.value.settings == app.settings
  {
    match outcome
    case Fail(e) => Err(e)
    case Pass => Ok(app.(handlers := app.handlers + [RootRoute]))
  }

  /** Every step of startup succeeds. */
  predicate AllStepsPass(env: Environment)
  {
    && LoadCredentials(env.certRead, env.keyRead, env.certSettlesFirst).Ok?
    && env.createServer.Pass?
    && env.attachAccess.Pass?
    && env.attachView.Pass?
    && env.attachRoute.Pass?
  }

  /**
   * `setupServer`: the steps run strictly in order and the first rejection
   * ends the chain. What happened is always a prefix of the complete
   * startup; the step that failed is the one right after the last effect,
   * and its error is the one setup rejects with.
   */
  function SetupServer(env: Environment): (s: Startup)
    ensures s.events <= CompleteStartup
    ensures s.result.Ok? <==> AllStepsPass(env)
    ensures s.result.Ok? ==> s.events == CompleteStartup && s.result.value == ReadyApp
    ensures LoadCredentials(env.certRead, env.keyRead, env.certSettlesFirst).Err? ==>
              s.events == [] && s.result == Err(LoadCredentials(env.certRead, env.keyRead, env.certSettlesFirst).error)
    ensures LoadCredentials(env.certRead, env.keyRead, env.certSettlesFirst).Ok? && env.createServer.Fail? ==>
              s.events == [] && s.result == Err(env.createServer.error)
    ensures s.result.Err? && |s.events| == 2 ==> env.attachAccess == Fail(s.result.error)
    ensures s.result.Err? && |s.events| == 3 ==> env.attachView == Fail(s.result.error)
    ensures s.result.Err? && |s.events| == 4 ==> env.attachRoute == Fail(s.result.error)
    ensures s.result.Err? ==> |s.events| != 1 && |s.events| != 5
    ensures |s.events| >= 2 <==>
              LoadCredentials(env.certRead, env.keyRead, env.certSettlesFirst).Ok? && env.createServer.Pass?
    ensures |s.events| >= 3 <==> |s.events| >= 2 && env.attachAccess.Pass?
    ensures |s.events| >= 4 <==> |s.events| >= 3 && env.attachView.Pass?
  {
    var started := StartHttpsServer(env);
    match started.result
    case Err(_) => started
    case Ok(app) =>
      match AttachHttpsAccessHandler(app, env.attachAccess)
      case Err(e) => Startup(started.events, Err(e))
      case Ok(app) =>
        var events := started.events + [AccessHandlerAttached];
        match AttachHttpsViewHandler(app, env.attachView)
        case Err(e) => Startup(events, Err(e))
        case Ok(app) =>
          var events := events + [ViewEngineSet];
          match AttachHttpsRouteHandler(app, env.attachRoute)
          case Err(e) => Startup(events, Err(e))
          case Ok(app) => Startup(events + [RouteHandlerAttached], Ok(app))
  }

  /** The process after startup: still serving, or exited with a status. */
  datatype Process = Serving(app: App) | Exited(status: int)

  /** The top-level call: a rejected setup ends the process with status 1. */
  function Run(env: Environment): (p: Process)
    ensures p.Exited? <==> SetupServer(env).result.Err?
    ensures p.Exited? ==> p.status == 1
    ensures p.Serving? ==> p.app == ReadyApp
  {
    match SetupServer(env).result
    case Ok(app) => Serving(app)
    case Err(_) => Exited(1)
  }

  /**
   * Credentials are both-or-neither: if either read fails, no server is
   * created, nothing listens, and the process exits with status 1.
   */
  lemma CredentialFailureNeverListens(env: Environment)
    requires env.certRead.Err? || env.keyRead.Err?
    ensures SetupServer(env).events == []
    ensures SetupServer(env).result.Err?
    ensures (env.certRead.Err? && SetupServer(env).result.error == env.certRead.error)
            || (env.keyRead.Err? && SetupServer(env).result.error == env.keyRead.error)
    ensures Run(env) == Exited(1)
  {
  }

  // ---------------------------------------------------------------------
  // Requests through the registered handlers

  /** The routing answer to a request. */
  datatype Reply =
    | Refused(status: int)  // the gate ended the request with this status
    | Hello                 // the root route: status 200, body "hello"
    | Unhandled             // no handler answered; Express's final handler takes over

  /** The requests the root route answers. */
  predicate RouteMatches(req: Request)
  {
    req.verb == "GET" && req.url == "/"
  }

  /**
   * Express's dispatch: try the handlers in registration order. Only the
   * root route says "hello", only a gate refuses (with the status the gate
   * decides), and a request the gate admits passes every gate: it gets
   * "hello" exactly when a root route is registered and matches.
   */
  function Dispatch(handlers: seq<Handler>, req: Request, allowList: ReadResult): (reply: Reply)
    ensures reply == Hello ==> RootRoute in handlers && RouteMatches(req)
    ensures reply.Refused? ==>
              AccessHandler in handlers && Decide(Check(req.remoteAddress, allowList)) == Respond(reply.status)
    ensures Check(req.remoteAddress, allowList) == Ok(true) && RouteMatches(req) ==>
              (reply == Hello <==> RootRoute in handlers)
    ensures Check(req.remoteAddress, allowList) == Ok(true) && !RouteMatches(req) ==> reply == Unhandled
    decreases |handlers|
  {
    if handlers == [] then Unhandled
    else match handlers[0]
      case AccessHandler =>
        (match Decide(Check(req.remoteAddress, allowList))
         case Forward => Dispatch(handlers[1..], req, allowList)
         case Respond(status) => Refused(status))
      case RootRoute =>
        if RouteMatches(req) then Hello else Dispatch(handlers[1..], req, allowList)
  }

  /** Every route is registered after some access gate. */
  ghost predicate GateBeforeRoutes(handlers: seq<Handler>)
  {
    forall j :: 0 <= j < |handlers| && handlers[j] == RootRoute ==> AccessHandler in handlers[..j]
  }

  /**
   * With the gate registered before every route, a request reaches the root
   * route only if its address is on the allow-list.
   */
  lemma RouteReachedOnlyAfterAdmission(handlers: seq<Handler>, req: Request, allowList: ReadResult)
    requires GateBeforeRoutes(handlers)
    ensures Dispatch(handlers, req, allowList) == Hello ==> Listed(req.remoteAddress, allowList)
  {
    if handlers != [] && handlers[0] == AccessHandler {
      CheckAdmitsExactlyListed(req.remoteAddress, allowList);
    }
  }

  /**
   * What a running server answers: "hello" to a listed client asking for the
   * root, 403 to a client not on a readable list, 500 to a well-formed
   * address when the list cannot be read, and a listed client asking for
   * any other path falls through to Express's final handler.
   */
  lemma ServingServerAnswers(env: Environment, req: Request, allowList: ReadResult)
    requires Run(env).Serving?
    ensures GateBeforeRoutes(Run(env).app.handlers)
    ensures Dispatch(Run(env).app.handlers, req, allowList) == Hello <==>
              Listed(req.remoteAddress, allowList) && RouteMatches(req)
    ensures Dispatch(Run(env).app.handlers, req, allowList) == Refused(Forbidden) <==>
              !Listed(req.remoteAddress, allowList) && !(WellFormed(req.remoteAddress) && allowList.Err?)
    ensures Dispatch(Run(env).app.handlers, req, allowList) == Refused(ServerError) <==>
              WellFormed(req.remoteAddress) && allowList.Err?
    ensures Dispatch(Run(env).app.handlers, req, allowList) == Unhandled <==>
              Listed(req.remoteAddress, allowList) && !RouteMatches(req)
  {
    var handlers := Run(env).app.handlers;
    assert handlers == [AccessHandler, RootRoute];
    assert handlers[1..] == [RootRoute] && handlers[1..][1..] == [];
    assert handlers[..1] == [AccessHandler];
    CheckAdmitsExactlyListed(req.remoteAddress, allowList);
  }
}
