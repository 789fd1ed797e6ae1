/**
 * The allow-list checker, `isWhitelisted(addr)` (app.js:118-141). The
 * allow-list file is read afresh on every call; the model receives the
 * settled read as a parameter, so nothing is cached between calls.
 */
module AllowList {
  import opened Results
  import opened Lines

  /** The separator the allow-list file is split on. */
  const Newline: char := '\n'

  /**
   * The client address handed to the checker: Node's
   * `req.socket.remoteAddress`, a string, or `undefined` once the socket is
   * gone.
   */
  datatype Address = Str(text: string) | NotAString

  /** The guard of app.js:121: a string of non-zero length. */
  predicate WellFormed(addr: Address)
  {
    addr.Str? && |addr.text| != 0
  }

  /**
   * What the promise returned by `isWhitelisted` settles with: `false` for
   * an address that is not a non-empty string, the read error if the file
   * cannot be read, and otherwise whether the address is one of the
   * newline-separated pieces of the file.
   */
  function Check(addr: Address, allowList: ReadResult): (r: Result<bool>)
    ensures !WellFormed(addr) ==> r == Ok(false)
    ensures r.Err? <==> WellFormed(addr) && allowList.Err?
    ensures r.Err? ==> r.error == allowList.error
    ensures r == Ok(true) <==> WellFormed(addr) && allowList.Ok? && addr.text in Split(allowList.value, Newline)
  {
    if !WellFormed(addr) then Ok(false)
    else match allowList
      case Err(e) => Err(e)
      case Ok(data) => Ok(addr.text in Split(data, Newline))
  }

  /** The address stands, verbatim, as one whole line of the readable allow-list file. */
  ghost predicate Listed(addr: Address, allowList: ReadResult)
  {
    WellFormed(addr) && allowList.Ok? && OccursAsLine(allowList.value, addr.text, Newline)
  }

  /**
   * The loop of app.js:128-136: scan the pieces of the file for one equal to
   * the address, stopping at the first match. `consulted` says whether the
   * allow-list file was read at all.
   */
  method IsWhitelisted(addr: Address, allowList: ReadResult) returns (r: Result<bool>, consulted: bool)
    ensures consulted <==> WellFormed(addr)
    ensures !WellFormed(addr) ==> r == Ok(false)
    ensures WellFormed(addr) && allowList.Err? ==> r == Err(allowList.error)
    ensures WellFormed(addr) && allowList.Ok? ==> r == Ok(addr.text in Split(allowList.value, Newline))
    ensures r == Check(addr, allowList)
  {
    if !addr.Str? || |addr.text| == 0 {
      return Ok(false), false;
    }
    consulted := true;
    match allowList
    case Err(e) =>
      r := Err(e);
    case Ok(data) =>
      var lines := Split(data, Newline);
      for i := 0 to |lines|
        invariant forall j :: 0 <= j < i ==> lines[j] != addr.text
      {
        if lines[i] == addr.text {
          return Ok(true), true;
        }
      }
      r := Ok(false);
  }

  /**
   * The checker admits exactly the listed addresses, rejects every other
   * address when it can decide, and fails only when a well-formed address
   * meets an unreadable file.
   */
  lemma CheckAdmitsExactlyListed(addr: Address, allowList: ReadResult)
    ensures Check(addr, allowList) == Ok(true) <==> Listed(addr, allowList)
    ensures Check(addr, allowList) == Ok(false) <==> !Listed(addr, allowList) && (WellFormed(addr) ==> allowList.Ok?)
    ensures Check(addr, allowList).Err? <==> WellFormed(addr) && allowList.Err?
  {
    if WellFormed(addr) && allowList.Ok? {
      SplitMembership(allowList.value, addr.text, Newline);
    }
  }

  /**
   * A trailing newline adds one entry, the empty string, to the allow-list;
   * the guard still keeps the empty address from matching it.
   */
  lemma TrailingNewlineAddsEmptyEntry(data: string)
    ensures Split(data + [Newline], Newline) == Split(data, Newline) + [[]]
    ensures [] in Split(data + [Newline], Newline)
    ensures Check(Str([]), Ok(data + [Newline])) == Ok(false)
  {
    SplitConcat(data, [], Newline);
    assert data + [Newline] + [] == data + [Newline];
  }

  /**
   * For a file written as newline-joined lines, the decision is exact
   * membership among those lines as written: nothing is trimmed and nothing
   * is normalised.
   */
  lemma ExactLinesDecide(lines: seq<string>, addr: string)
    requires |lines| >= 1
    requires forall i :: 0 <= i < |lines| ==> Newline !in lines[i]
    requires addr != []
    ensures Check(Str(addr), Ok(Join(lines, Newline))) == Ok(addr in lines)
  {
    JoinThenSplit(lines, Newline);
  }

  /**
   * A line holding the address followed by any residue (a carriage return,
   * trailing spaces) does not admit the address, wherever the line stands:
   * first, last, only or in between.
   */
  lemma ResidueBlocksMatch(p: seq<string>, addr: string, residue: string, q: seq<string>)
    requires addr != [] && residue != []
    requires Newline !in addr + residue
    requires forall i :: 0 <= i < |p| ==> Newline !in p[i]
    requires forall i :: 0 <= i < |q| ==> Newline !in q[i]
    requires addr !in p + q
    ensures Check(Str(addr), Ok(Join(p + [addr + residue] + q, Newline))) == Ok(false)
  {
    var line := addr + residue;
    var lines := p + [line] + q;
    forall k | 0 <= k < |lines|
      ensures Newline !in lines[k]
      ensures lines[k] != addr
    {
      if k < |p| {
        assert lines[k] == p[k] == (p + q)[k];
      } else if k == |p| {
        assert lines[k] == line && |line| > |addr|;
      } else {
        assert lines[k] == q[k - |p| - 1] == (p + q)[k - 1];
      }
    }
    JoinThenSplit(lines, Newline);
  }

  /** The entries of a file saved with Windows line endings, as `split('\n')` leaves them. */
  function WithCarriageReturns(entries: seq<string>): (lines: seq<string>)
    ensures |lines| == |entries|
    ensures forall i :: 0 <= i < |entries| ==> lines[i] == entries[i] + "\r"
  {
    seq(|entries|, i requires 0 <= i < |entries| => entries[i] + "\r")
  }

  /**
   * A file saved with "\r\n" line endings, the last line included, admits no
   * address that does not itself end in a carriage return: every entry keeps
   * its "\r".
   */
  lemma CrLfFileAdmitsNoCleanAddress(entries: seq<string>, addr: string)
    requires forall i :: 0 <= i < |entries| ==> Newline !in entries[i]
    requires addr == [] || addr[|addr| - 1] != '\r'
    ensures Check(Str(addr), Ok(Join(WithCarriageReturns(entries) + [[]], Newline))) == Ok(false)
  {
    var lines := WithCarriageReturns(entries) + [[]];
    forall i | 0 <= i < |lines|
      ensures Newline !in lines[i]
    {
      if i < |entries| {
        assert lines[i] == entries[i] + "\r";
      }
    }
    JoinThenSplit(lines, Newline);
  }

  /**
   * In a "\r\n" file whose last line has no line ending, that last line is
   * matched as written, while the earlier entries still keep their "\r".
   */
  lemma CrLfFileAdmitsUnterminatedLastLine(entries: seq<string>, last: string)
    requires forall i :: 0 <= i < |entries| ==> Newline !in entries[i]
    requires last != [] && Newline !in last
    ensures Check(Str(last), Ok(Join(WithCarriageReturns(entries) + [last], Newline))) == Ok(true)
  {
    var lines := WithCarriageReturns(entries) + [last];
    forall i | 0 <= i < |lines|
      ensures Newline !in lines[i]
    {
      if i < |entries| {
        assert lines[i] == entries[i] + "\r";
      }
    }
    JoinThenSplit(lines, Newline);
    assert lines[|entries|] == last;
  }
}
