/**
 * The credential loader, `getHttpsCredentials(certPath, keyPath)`
 * (app.js:144-168): read the certificate and the private key, store each in
 * the `credentials` object as it arrives, and resolve with that object once
 * both reads have succeeded.
 */
module Credentials {
  import opened Results

  /** The property names of the credentials object handed to `https.createServer`. */
  const CertField: string := "cert"
  const KeyField: string := "key"

  /** The object the loader resolves with: both fields, holding the text each read returned. */
  function Bundle(cert: string, key: string): map<string, string>
  {
    map[CertField := cert, KeyField := key]
  }

  /**
   * The settled value of the loader. `Promise.all` rejects with the error of
   * the first read to fail in time; which read settles first is a matter of
   * scheduling and is the parameter `certSettlesFirst`.
   */
  function LoadCredentials(certRead: ReadResult, keyRead: ReadResult, certSettlesFirst: bool): (r: Result<map<string, string>>)
    ensures r.Ok? <==> certRead.Ok? && keyRead.Ok?
    ensures r.Ok? ==> r.value.Keys == {CertField, KeyField}
    ensures r.Ok? ==> r.value[CertField] == certRead.value && r.value[KeyField] == keyRead.value
    ensures r.Err? ==> (certRead.Err? && r.error == certRead.error) || (keyRead.Err? && r.error == keyRead.error)
    ensures certRead.Err? && keyRead.Err? ==> r.error == (if certSettlesFirst then certRead.error else keyRead.error)
  {
    if certRead.Ok? && keyRead.Ok? then Ok(Bundle(certRead.value, keyRead.value))
    else if certRead.Err? && (certSettlesFirst || keyRead.Ok?) then Err(certRead.error)
    else Err(keyRead.error)
  }

  /**
   * One read settling: on success its `.then` callback stores the text under
   * `field` (app.js:152, app.js:155); on failure the rejection is recorded
   * unless an earlier one already decided `Promise.all`.
   */
  method Settle(credentials: map<string, string>, firstError: Outcome, field: string, read: ReadResult)
    returns (credentials': map<string, string>, firstError': Outcome)
    ensures read.Ok? ==> credentials' == credentials[field := read.value] && firstError' == firstError
    ensures read.Err? ==> credentials' == credentials
    ensures read.Err? && firstError.Pass? ==> firstError' == Fail(read.error)
    ensures firstError.Fail? ==> firstError' == firstError
  {
    credentials', firstError' := credentials, firstError;
    match read
    case Ok(data) =>
      credentials' := credentials'[field := data];
    case Err(e) =>
      if firstError.Pass? {
        firstError' := Fail(e);
      }
  }

  /**
   * The loader itself: resolves only when both reads succeed, and then with
   * both fields set; otherwise rejects with the error of the earliest failing
   * read and exposes no partly filled object.
   */
  method GetHttpsCredentials(certRead: ReadResult, keyRead: ReadResult, certSettlesFirst: bool)
    returns (r: Result<map<string, string>>)
    ensures r.Ok? <==> certRead.Ok? && keyRead.Ok?
    ensures r.Ok? ==> r.value.Keys == {CertField, KeyField}
    ensures r.Ok? ==> r.value[CertField] == certRead.value && r.value[KeyField] == keyRead.value
    ensures certRead.Err? && (certSettlesFirst || keyRead.Ok?) ==> r == Err(certRead.error)
    ensures keyRead.Err? && (!certSettlesFirst || certRead.Ok?) ==> r == Err(keyRead.error)
    ensures r == LoadCredentials(certRead, keyRead, certSettlesFirst)
  {
    var credentials: map<string, string> := map[];
    var firstError: Outcome := Pass;
    if certSettlesFirst {
      credentials, firstError := Settle(credentials, firstError, CertField, certRead);
      credentials, firstError := Settle(credentials, firstError, KeyField, keyRead);
    } else {
      credentials, firstError := Settle(credentials, firstError, KeyField, keyRead);
      credentials, firstError := Settle(credentials, firstError, CertField, certRead);
    }
    if firstError.Fail? {
      r := Err(firstError.error);
    } else {
      assert credentials == Bundle(certRead.value, keyRead.value);
      r := Ok(credentials);
    }
  }
}
