/** The token gate in front of the review-changing routes of server.js: the token is the second
    space-separated part of the `Authorization` header, and the signature check is a parameter. */
module Auth {
  import opened Wrappers
  import opened Find

  /** `s.split(' ')`: the maximal space-free pieces between single spaces, empty ones included. */
  function Split(s: string): (parts: seq<string>)
    ensures |parts| >= 1
    decreases |s|
  {
    var i := IndexOf(s, ' ');
    if i == -1 then [s] else [s[..i]] + Split(s[i + 1..])
  }

  /** `parts.join(' ')`. */
  function Join(parts: seq<string>): string
    requires |parts| >= 1
    decreases |parts|
  {
    if |parts| == 1 then parts[0] else parts[0] + " " + Join(parts[1..])
  }

  /** Splitting loses nothing: joining the parts with single spaces gives the header back. */
  lemma {:induction false} JoinSplit(s: string)
    ensures Join(Split(s)) == s
    decreases |s|
  {
    var i := IndexOf(s, ' ');
    if i != -1 {
      var rest := s[i + 1..];
      var parts := Split(s);
      assert parts[0] == s[..i] && parts[1..] == Split(rest) by {
        assert parts == [s[..i]] + Split(rest);
      }
      JoinSplit(rest);
      assert Join(parts) == parts[0] + " " + Join(parts[1..]);
      RejoinAt(s, i);
    }
  }

  /** A header without a space is its own single part; one with a space has at least two. */
  lemma SplitCount(s: string)
    ensures ' ' !in s ==> Split(s) == [s]
    ensures ' ' in s ==> |Split(s)| >= 2
  {
  }

  /** No part of a split contains the separator. */
  lemma {:induction false} SplitPartsHaveNoSpace(s: string)
    ensures forall k :: 0 <= k < |Split(s)| ==> ' ' !in Split(s)[k]
    decreases |s|
  {
    var i := IndexOf(s, ' ');
    if i != -1 {
      SplitPartsHaveNoSpace(s[i + 1..]);
      assert ' ' !in s[..i];
    }
  }

  /** Cutting out a space and putting it back gives the string back. */
  lemma RejoinAt(s: string, i: int)
    requires 0 <= i < |s| && s[i] == ' '
    ensures s[..i] + " " + s[i + 1..] == s
  {
  }

  /** `authHeader && authHeader.split(' ')[1]`, where a missing header is the empty string and an
      empty second part counts as no token. */
  function BearerToken(header: string): (r: Option<string>)
    ensures r.Some? ==> r.value != "" && ' ' !in r.value
  {
    var parts := Split(header);
    SplitPartsHaveNoSpace(header);
    if |parts| >= 2 && parts[1] != "" then Some(parts[1]) else None
  }

  /** A header `<scheme> <token>` yields the token, and a header without a space yields none. */
  lemma BearerTokenOfHeader(scheme: string, token: string)
    requires ' ' !in scheme && ' ' !in token && token != ""
    ensures BearerToken(scheme + " " + token) == Some(token)
    ensures BearerToken(scheme) == None
  {
    var h := scheme + " " + token;
    assert h[|scheme|] == ' ';
    forall j | 0 <= j < |scheme|
      ensures h[j] != ' '
    {
      assert h[j] == scheme[j];
    }
    assert ' ' in h;
    assert IndexOf(h, ' ') == |scheme|;
    assert h[..|scheme|] == scheme;
    assert h[|scheme| + 1..] == token;
    assert Split(token) == [token];
    assert Split(h) == [scheme, token];
  }

  /** What the gate lets through: the username claimed by a verified token. */
  datatype Gate = MissingToken | InvalidToken | Authorized(username: string)
  {
    /** The status the gate answers with when it stops the request. */
    function StatusCode(): int {
      match this
      case MissingToken => 401
      case InvalidToken => 403
      case Authorized(_) => 200
    }
  }

  /** `authenticateToken`: `verify` stands for the token library's signature and expiry check
      and yields the username the token was issued for. */
  function AuthenticateToken(header: string, verify: string -> Option<string>): (g: Gate)
    ensures g == MissingToken <==> BearerToken(header).None?
    ensures g == InvalidToken <==> BearerToken(header).Some? && verify(BearerToken(header).value).None?
    ensures g.Authorized? ==> Some(g.username) == verify(BearerToken(header).value)
  {
    match BearerToken(header)
    case None => MissingToken
    case Some(token) =>
      match verify(token)
      case None => InvalidToken
      case Some(username) => Authorized(username)
  }
}
