# Allow-list–gated HTTPS server, modelled in Dafny

The system is a small Node.js server (`app.js`). It loads a TLS certificate and key, starts an HTTPS listener, and installs a middleware on every request. The middleware checks the client's socket address against a newline-separated allow-list file, then logs the decision. A listed client is passed on to the one route, `GET /`, which answers `hello`. Any other client gets 403. A client whose address is a non-empty string gets 500 if the allow-list cannot be read. A non-string or empty address gets 403 without any read.

The model covers the decision logic inside that wiring:

- `lines.dfy` (module `Lines`): JavaScript's `split` with a one-character separator, its inverse `Join`, and a proof that the pieces of a split are exactly the whole lines of the text.
- `allow_list.dfy` (module `AllowList`): `isWhitelisted`. It has the typeof/empty guard, the scan over `data.split('\n')` that stops at the first match, and error propagation. `IsWhitelisted` is a method with the source's loop. `Check` is the function that specifies it.
- `credentials.dfy` (module `Credentials`): `getHttpsCredentials`, which fills the `credentials` object field by field and resolves only when both reads succeed.
- `gate.dfy` (module `Gate`): the `app.all("*")` callback. It maps the checker's outcome to forward / 403 / 500 and writes one log line.
- `bootstrap.dfy` (module `Bootstrap`): the promise chain of `setupServer` and `startHttpsServer`, the top-level exit with status 1, and the dispatch of a request through the handlers in registration order.
- `results.dfy` (module `Results`): settled promises as `Result` / `Outcome` values, and the outcome of `readFilePromise`.

Every file read is a parameter of type `ReadResult`: it is the value the read settled with. The allow-list read is a parameter of each call, so the model re-reads the file on every request and caches nothing, as the source does. The same holds for other outside effects, each given as a parameter: whether `https.createServer` or an `attach*` registration throws, and which of the two credential reads settles first.

Some behaviour of the code worth stating plainly:

- `res.sendStatus(403)` and `res.sendStatus(500)` send Express's status text as the body. The model keeps only the status code.
- An empty certificate or key file reads as `""` and is accepted like any other text. The model does the same.
- A view-engine step (`app.set('view engine', 'ejs')`) runs between installing the gate and installing the route. The model keeps it in that order.

## Model

| member | source | states |
|---|---|---|
| `Lines.Split` | app.js:128 | `data.split('\n')` always has exactly one more piece than the text has newlines, so even an empty file has one (empty) piece. |
| `Lines.PiecesAvoidSeparator` | app.js:128 | No piece of the split contains a newline. |
| `Lines.SplitThenJoin` | app.js:128 | Joining the pieces with the separator gives back the exact text. |
| `Lines.JoinThenSplit` | app.js:128 | Splitting a join of separator-free pieces gives back those pieces. With `SplitThenJoin`, split and join are inverse. |
| `Lines.SplitConcat` | app.js:128 | Splitting `a + "\n" + b` gives the pieces of `a` followed by the pieces of `b`. |
| `Lines.SplitMembership` | app.js:128-133 | A string is one of the pieces if and only if it stands in the text as a whole line, delimited by newlines or by the text's ends (an index-based definition written independently of `split`). |
| `AllowList.Check` | app.js:118-141 | What the `isWhitelisted` promise settles with. A non-string or empty address resolves `false`. The promise rejects exactly when a well-formed address meets an unreadable file, and it passes on that read's error. It resolves `true` exactly when the address is well-formed, the file is readable and the address is one of the file's newline-separated pieces. |
| `AllowList.IsWhitelisted` | app.js:118-141 | An address that is not a string, or is empty, gives `false` without reading the file. For a well-formed address, a read error is passed on as the rejection. On a successful read, the loop returns `true` exactly when the address equals one of the pieces. |
| `AllowList.CheckAdmitsExactlyListed` | app.js:121-139 | The check resolves `true` exactly when the address is a non-empty string and a whole line of the readable file. It resolves `false` for every other address it can decide. It rejects exactly when a well-formed address meets an unreadable file. |
| `AllowList.TrailingNewlineAddsEmptyEntry` | app.js:128 | A trailing newline adds the empty string as a final entry, and the pieces before it are unchanged. The empty address is still never admitted, because of the guard. |
| `AllowList.ExactLinesDecide` | app.js:128-129 | For a file written as lines joined by newlines, the result is exact, case-sensitive membership among those lines as written. Nothing is trimmed. |
| `AllowList.ResidueBlocksMatch` | app.js:128-129 | A line made of the address plus a non-empty residue (`"\r"`, spaces) does not admit the address when no other line matches. This holds wherever the line stands: first, last, the only line or in between. |
| `AllowList.CrLfFileAdmitsNoCleanAddress` | app.js:128-129 | A file saved with `"\r\n"` line endings on every line, the last one included, admits no address that does not itself end in `"\r"`. |
| `AllowList.CrLfFileAdmitsUnterminatedLastLine` | app.js:128-129 | In a `"\r\n"` file whose last line has no line ending, that last line is admitted as written. |
| `Credentials.LoadCredentials` | app.js:144-168 | The settled value of the loader. It resolves exactly when both reads succeed, and then with exactly the `cert` and `key` fields holding the texts read. Otherwise it rejects with the error of a failing read. When both reads fail, the error is that of the read that settles first. |
| `Credentials.Settle` | app.js:151-157 | A successful read stores its text under its field. A failed read leaves the object unchanged and becomes the `Promise.all` rejection only if no earlier read failed. |
| `Credentials.GetHttpsCredentials` | app.js:144-168 | The object resolves only when both reads succeed, and then it holds exactly the `cert` and `key` fields with the texts read. Otherwise the method rejects with the error of the earliest failing read and exposes no partial object. |
| `Gate.Decide` | app.js:64-76 | The gate fails closed. It forwards exactly when the check resolved `true`, answers 403 exactly when it resolved `false`, and answers 500 exactly when it rejected. Exactly one of the three happens. |
| `Gate.LogFor` | app.js:55-74 | A settled check logs a decision line carrying the request's method, socket address and URL. Its label is `Whitelisted` exactly when the check resolved `true`, and `Not whitelisted` exactly when it resolved `false`. A rejected check logs its error instead. |
| `Gate.HandleRequest` | app.js:50-77 | The address checked is the socket's remote address, which is also the address logged. The request is forwarded exactly when that address is listed in a readable file, and `next` is never called on a read error. The label is `Whitelisted` exactly when the request is forwarded. A read error is logged as the error, with no decision line. |
| `Bootstrap.StartHttpsServer` | app.js:96-115 | The server is created and asked to listen only after both credential reads succeed, and a fresh app with no handlers and no settings is handed on. If either read fails, nothing is created and the rejection is the error of the failing read that settles first, as `Promise.all` rejects. If `https.createServer` throws, its error is the rejection. |
| `Bootstrap.AttachHttpsAccessHandler` | app.js:47-81 | Resolves exactly when registering the gate does not throw. It then appends the gate to the app's handlers and leaves the settings alone. Otherwise it rejects with the thrown error. |
| `Bootstrap.AttachHttpsViewHandler` | app.js:39-44 | Resolves exactly when setting the view engine does not throw. It then sets `view engine` to `ejs`, keeps every other setting and leaves the handlers alone. Otherwise it rejects with the thrown error. |
| `Bootstrap.AttachHttpsRouteHandler` | app.js:84-93 | Resolves exactly when registering the route does not throw. It then appends the root route to the handlers and leaves the settings alone. Otherwise it rejects with the thrown error. |
| `Bootstrap.SetupServer` | app.js:23-36 | The steps run in order: server, access handler, view engine, route. What happened is always a prefix of that order. A step's effects are recorded exactly when it and every step before it passed. Setup succeeds exactly when every step passes, and the gate is then registered before the `/` route. On failure, the failing step is the first one that did not pass, right after the last effect, and its error is the one setup rejects with. |
| `Bootstrap.Run` | app.js:15-20 | The process keeps serving the ready app exactly when setup resolves. Otherwise it exits with status 1. |
| `Bootstrap.CredentialFailureNeverListens` | app.js:99-113 | If either credential read fails, no server is created, nothing listens, and the process exits with status 1. |
| `Bootstrap.Dispatch` | app.js:50-89 | Handlers are tried in registration order. Only a registered root route that matches says `hello`. Only a gate refuses, and always with the status the gate decides. A request the gate admits says `hello` exactly when a root route is registered and matches. An admitted request the route does not match falls through unhandled. |
| `Bootstrap.RouteReachedOnlyAfterAdmission` | app.js:47-93 | In any handler list where an access gate comes before every route, a request reaches the root route only if its address is listed. |
| `Bootstrap.ServingServerAnswers` | app.js:50-89 | A running server answers `hello` to a listed client asking for `GET /`. It answers 403 to a client that is not listed, when the check did not fail. It answers 500 to a well-formed address when the list is unreadable. A listed client asking for anything else falls through to Express's final handler. |

## Left out

- Express, `https.createServer`, `listen` and `fs.readFile` themselves are library and I/O calls. They appear only as their outcomes: the text or error a read settled with, and whether a call threw.
- Errors that `listen` reports later, as an `'error'` event (for example a port already in use), are not part of the promise chain in `app.js`. They are not modelled.
- The concurrency of `Promise.all` is reduced to one parameter: which credential read settles first, which decides the rejection when both fail. Requests in flight at the same time are independent calls, each with its own allow-list read.
- Between `listen` and the registration of the gate, the app has no handlers. The model does not simulate a connection arriving in that window.
- Timestamps, `Date.toLocaleString()`, the formatting of the log line, `console.clear()` and the startup messages are left out. The log line keeps its label, method, address and URL.
- Environment variables are not read. The port is the default 443, and the three file paths appear only through the reads' results.
- Response bodies written by `res.sendStatus` (Express's status text) are not modelled. Only the status is kept.
- Route matching (`Bootstrap.RouteMatches`): Express's route matching is narrowed to method `GET` with URL exactly `/`. Express also answers `HEAD`, ignores a query string and a trailing slash, and matches paths case-insensitively.
- The address is either a string or "not a string": every non-string value of `remoteAddress` (in practice `undefined`) is one case.
- Strings are sequences of characters. The UTF-8 decoding of the file and JavaScript's UTF-16 string lengths are not modelled. Neither changes equality or emptiness.
- TLS certificate validity is not checked by the code and is not modelled.
