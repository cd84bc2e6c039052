/**
 Refresh-token rotation. A token's `jti` is put on a blacklist whose entries live as long as
 the token still would; the clock is read anew at every step of a request, so a request is
 given by four times that do not go backwards.
 */
module RefreshTokens {
  import opened Outcomes

  datatype TokenType = Access | Refresh

  /**
   The claims of a signed token; `exp` is in whole seconds. `login` is the sign-in its chain of
   rotations began with.
   */
  datatype Token = Token(jti: int, kind: TokenType, exp: int, login: int)

  /** When a request decoded the token, asked the blacklist, read the clock and wrote the blacklist. */
  datatype Times = Times(decode: real, check: real, read: real, write: real)

  predicate Forward(t: Times) {
    t.decode <= t.check <= t.read <= t.write
  }

  /** Every token ever signed, and for each blacklisted `jti` when its entry lapses. */
  datatype Server = Server(signed: map<int, Token>, blacklist: map<int, real>, nextJti: int)

  datatype AuthError = InvalidToken | Revoked

  // ---------------------------------------------------------------- the checks

  /** The signature is ours, the type is as expected, and the token has not expired. */
  predicate Decodes(s: Server, token: Token, expected: TokenType, now: real) {
    && token.jti in s.signed && s.signed[token.jti] == token
    && now < token.exp as real && token.kind == expected
  }

  predicate Blacklisted(s: Server, jti: int, now: real) {
    jti in s.blacklist && now < s.blacklist[jti]
  }

  /** Writes the entry with the remaining whole seconds, or nothing when none remain. */
  function Blacklist(s: Server, token: Token, t: Times): Server {
    var ttl := token.exp - t.read.Floor;
    if ttl <= 0 then s else s.(blacklist := s.blacklist[token.jti := t.write + ttl as real])
  }

  /** A fresh pair: an access token and the next refresh token of the chain. */
  function Issue(s: Server, login: int, accessExp: int, refreshExp: int): Server {
    s.(signed := s.signed[s.nextJti := Token(s.nextJti, Access, accessExp, login)]
                         [s.nextJti + 1 := Token(s.nextJti + 1, Refresh, refreshExp, login)],
       nextJti := s.nextJti + 2)
  }

  datatype Request =
    | Login(login: int, accessExp: int, refreshExp: int, times: Times)
    | Rotate(token: Token, accessExp: int, refreshExp: int, times: Times)
    | Logout(token: Token, times: Times)

  function Outcome(s: Server, r: Request): Option<AuthError> {
    match r
    case Login(_, _, _, _) => None
    case Rotate(token, _, _, times) =>
      if !Decodes(s, token, Refresh, times.decode) then Some(InvalidToken)
      else if Blacklisted(s, token.jti, times.check) then Some(Revoked)
      else None
    case Logout(token, times) => if Decodes(s, token, Refresh, times.decode) then None else Some(InvalidToken)
  }

  function Serve(s: Server, r: Request): Server {
    if Outcome(s, r).Some? then s
    else
      match r
      case Login(login, accessExp, refreshExp, _) => Issue(s, login, accessExp, refreshExp)
      case Rotate(token, accessExp, refreshExp, times) => Issue(Blacklist(s, token, times), token.login, accessExp,
        refreshExp)
      case Logout(token, times) => Blacklist(s, token, times)
  }

  class AuthService {
    var server: Server

    method DecodeRefresh(token: Token, now: real) returns (ok: bool)
      ensures ok == Decodes(server, token, Refresh, now)
    {
      if token.jti !in server.signed || server.signed[token.jti] != token { return false; }
      if token.exp as real <= now { return false; }
      ok := token.kind == Refresh;
    }

    method Revoke(token: Token, t: Times)
      modifies this
      ensures server == Blacklist(old(server), token, t)
    {
      var ttl := token.exp - t.read.Floor;
      if ttl <= 0 { return; }
      server := server.(blacklist := server.blacklist[token.jti := t.write + ttl as real]);
    }

    method RefreshPair(token: Token, accessExp: int, refreshExp: int, t: Times) returns (r: Result<Token, AuthError>)
      modifies this
      ensures server == Serve(old(server), Rotate(token, accessExp, refreshExp, t))
      ensures match Outcome(old(server), Rotate(token, accessExp, refreshExp, t))
              case Some(e) => r == Err(e)
              case None => r == Ok(Token(old(server).nextJti + 1, Refresh, refreshExp, token.login))
    {
      var ok := DecodeRefresh(token, t.decode);
      if !ok { return Err(InvalidToken); }
      if Blacklisted(server, token.jti, t.check) { return Err(Revoked); }
      Revoke(token, t);
      var next := Token(server.nextJti + 1, Refresh, refreshExp, token.login);
      server := Issue(server, token.login, accessExp, refreshExp);
      r := Ok(next);
    }

    method LogOut(token: Token, t: Times) returns (error: Option<AuthError>)
      modifies this
      ensures server == Serve(old(server), Logout(token, t))
      ensures error == Outcome(old(server), Logout(token, t))
    {
      var ok := DecodeRefresh(token, t.decode);
      if !ok { return Some(InvalidToken); }
      Revoke(token, t);
      error := None;
    }
  }

  // ---------------------------------------------------------------- revocation lasts

  /** Nothing can be done with the token from this time on: its entry outlives it, or it has expired. */
  predicate Spent(s: Server, token: Token, now: real) {
    (token.jti in s.blacklist && token.exp as real <= s.blacklist[token.jti]) || token.exp as real <= now
  }

  /** The entry lapses no earlier than the token; when none is written the token has expired already. */
  lemma EntryOutlivesToken(s: Server, token: Token, t: Times)
    requires Forward(t)
    ensures Spent(Blacklist(s, token, t), token, t.write)
  {
    assert t.read.Floor as real <= t.read;
  }

  /**
   For a revoked token still named by the blacklist, the request slips through exactly when it
   decoded in time but asked too late.
   */
  lemma SpentIsRefusedIff(s: Server, r: Request)
    requires r.Rotate? && Forward(r.times) && Spent(s, r.token, r.times.decode)
    ensures Outcome(s, r).None? <==>
              && Decodes(s, r.token, Refresh, r.times.decode)
              && r.token.jti in s.blacklist && s.blacklist[r.token.jti] <= r.times.check
    ensures r.times.check < r.token.exp as real ==> Outcome(s, r).Some?
  {}

  /**
   In the two requests' own times: a token revoked by one is accepted by another that looks it
   up later, whenever it decoded it, exactly in this window.
   */
  lemma SlipsThroughIff(s: Server, token: Token, t: Times, r: Request)
    requires token.jti in s.signed && s.signed[token.jti] == token && token.kind == Refresh
    requires r.Rotate? && r.token == token && Forward(t) && Forward(r.times) && t.write <= r.times.check
    requires token.jti !in s.blacklist || t.read.Floor < token.exp || t.write <= r.times.decode
    ensures Outcome(Blacklist(s, token, t), r).None? <==>
              && r.times.decode < token.exp as real
              && t.write + (token.exp - t.read.Floor) as real <= r.times.check
  {
    assert t.read.Floor as real <= t.read < (t.read.Floor + 1) as real;
  }

  /** A revoked token is exchanged: decoded just before it expires, looked up just after its entry has lapsed. */
  lemma RevokedTokenCanSlipThrough()
    ensures var token := Token(1, Refresh, 100, 1);
            var s := Server(map[1 := token], map[], 2);
            var revoked := Serve(s, Logout(token, Times(50.0, 50.0, 50.0, 50.0)));
            Spent(revoked, token, 50.0) && Outcome(revoked,
              Rotate(token, 101, 200, Times(99.9, 100.1, 100.1, 100.1))).None?
  {}

  // ---------------------------------------------------------------- serial runs

  /** The blacklist is asked before the token's expiry whenever the token was decoded before it. */
  predicate Prompt(r: Request) {
    r.Rotate? && r.times.decode < r.token.exp as real ==> r.times.check < r.token.exp as real
  }

  ghost predicate SerialRequests(requests: seq<Request>) {
    && (forall i :: 0 <= i < |requests| ==> Forward(requests[i].times) && Prompt(requests[i]))
    && forall i, j :: 0 <= i < j < |requests| ==> requests[i].times.write <= requests[j].times.decode
  }

  function Run(s: Server, requests: seq<Request>): Server {
    if requests == [] then s else Serve(Run(s, requests[..|requests| - 1]), requests[|requests| - 1])
  }

  ghost predicate Sound(s: Server) {
    && (forall j :: j in s.signed ==> s.signed[j].jti == j && j < s.nextJti)
    && forall j :: j in s.blacklist ==> j in s.signed && s.signed[j].exp as real <= s.blacklist[j]
  }

  lemma ServeKeepsSound(s: Server, r: Request)
    requires Sound(s) && Forward(r.times)
    ensures Sound(Serve(s, r))
  {
    if r.Rotate? || r.Logout? {
      assert r.times.read.Floor as real <= r.times.read;
    }
  }

  lemma {:induction false} RunKeepsSound(s: Server, requests: seq<Request>)
    requires Sound(s) && forall i :: 0 <= i < |requests| ==> Forward(requests[i].times)
    ensures Sound(Run(s, requests))
  {
    if requests != [] {
      RunKeepsSound(s, requests[..|requests| - 1]);
      ServeKeepsSound(Run(s, requests[..|requests| - 1]), requests[|requests| - 1]);
    }
  }

  lemma SpentStaysSpent(s: Server, token: Token, now: real, r: Request)
    requires Sound(s) && Forward(r.times) && now <= r.times.decode
    requires token.jti in s.signed && s.signed[token.jti] == token && Spent(s, token, now)
    ensures token.jti in Serve(s, r).signed && Serve(s, r).signed[token.jti] == token
    ensures Spent(Serve(s, r), token, r.times.write)
  {
    if r.Rotate? || r.Logout? {
      assert r.times.read.Floor as real <= r.times.read;
    }
  }

  /** Whether the request at this place exchanges the token. */
  predicate Exchanges(s: Server, requests: seq<Request>, i: nat, token: Token)
    requires i < |requests|
  {
    requests[i].Rotate? && requests[i].token == token && Outcome(Run(s, requests[..i]), requests[i]).None?
  }

  predicate Revokes(s: Server, requests: seq<Request>, i: nat, token: Token)
    requires i < |requests|
  {
    || Exchanges(s, requests, i, token)
    || (requests[i].Logout? && requests[i].token == token && Outcome(Run(s, requests[..i]), requests[i]).None?)
  }

  lemma {:induction false} SpentEverAfter(s: Server, requests: seq<Request>, i: nat, j: nat, token: Token)
    requires Sound(s) && SerialRequests(requests) && i < j <= |requests| && Revokes(s, requests, i, token)
    ensures var now := Run(s, requests[..j]);
            && token.jti in now.signed && now.signed[token.jti] == token
                 && Spent(now, token, requests[j - 1].times.write)
  {
    var before := Run(s, requests[..j - 1]);
    assert requests[..j][..j - 1] == requests[..j - 1];
    RunKeepsSound(s, requests[..j - 1]);
    if i == j - 1 {
      EntryOutlivesToken(before, token, requests[i].times);
      ServeKeepsSound(before, requests[i]);
      RevokedStaysSigned(before, requests[i], token);
    } else {
      SpentEverAfter(s, requests, i, j - 1, token);
      SpentStaysSpent(before, token, requests[j - 2].times.write, requests[j - 1]);
    }
  }

  lemma RevokedStaysSigned(s: Server, r: Request, token: Token)
    requires Sound(s) && Forward(r.times) && (r.Rotate? || r.Logout?) && r.token == token && Outcome(s, r).None?
    ensures token.jti in Serve(s, r).signed && Serve(s, r).signed[token.jti] == token
    ensures Spent(Serve(s, r), token, r.times.write)
  {
    EntryOutlivesToken(s, token, r.times);
  }

  /** Once exchanged or logged out, a token is never exchanged again: each is exchanged at most once. */
  lemma RevocationIsPermanent(s: Server, requests: seq<Request>, i: nat, j: nat, token: Token)
    requires Sound(s) && SerialRequests(requests) && i < j < |requests| && Revokes(s, requests, i, token)
    ensures !Exchanges(s, requests, j, token)
  {
    SpentEverAfter(s, requests, i, j, token);
    if requests[j].Rotate? && requests[j].token == token {
      SpentIsRefusedIff(Run(s, requests[..j]), requests[j]);
    }
  }

  // ---------------------------------------------------------------- one usable token per sign-in

  ghost predicate Usable(s: Server, j: int, now: real) {
    j in s.signed && s.signed[j].kind == Refresh && !Spent(s, s.signed[j], now)
  }

  ghost predicate OnePerLogin(s: Server, now: real) {
    forall a, b :: Usable(s, a, now) && Usable(s, b, now) && s.signed[a].login == s.signed[b].login ==> a == b
  }

  ghost predicate NewLogin(s: Server, r: Request) {
    r.Login? ==> forall j :: j in s.signed ==> s.signed[j].login != r.login
  }

  lemma ServeKeepsOnePerLogin(s: Server, now: real, r: Request)
    requires Sound(s) && OnePerLogin(s, now) && Forward(r.times) && Prompt(r) && now <= r.times.decode && NewLogin(s, r)
    ensures OnePerLogin(Serve(s, r), r.times.write)
  {
    var s' := Serve(s, r);
    forall j | j in s.signed && Usable(s', j, r.times.write)
      ensures Usable(s, j, now)
    {
      SpentCarries(s, s.signed[j], now, r);
    }
    if r.Rotate? && Outcome(s, r).None? {
      RevokedStaysSigned(s, r, r.token);
      RotatedWasUsable(s, now, r);
    }
    forall a, b | Usable(s', a, r.times.write) && Usable(s', b, r.times.write)
      && s'.signed[a].login == s'.signed[b].login
      ensures a == b
    {
      assert a !in s.signed ==> a == s.nextJti + 1;
      assert b !in s.signed ==> b == s.nextJti + 1;
    }
  }

  lemma SpentCarries(s: Server, token: Token, now: real, r: Request)
    requires Sound(s) && Forward(r.times) && now <= r.times.decode
    requires token.jti in s.signed && s.signed[token.jti] == token
    ensures Spent(s, token, now) ==> Spent(Serve(s, r), token, r.times.write)
  {
    if Spent(s, token, now) {
      SpentStaysSpent(s, token, now, r);
    }
  }

  /** Only a usable token can be exchanged. */
  lemma RotatedWasUsable(s: Server, now: real, r: Request)
    requires Sound(s) && r.Rotate? && Forward(r.times) && Prompt(r) && now <= r.times.decode && Outcome(s, r).None?
    ensures Usable(s, r.token.jti, now)
  {
    if Spent(s, r.token, now) {
      SpentIsRefusedIff(s, r);
    }
  }

  function LastWrite(start: real, requests: seq<Request>): real {
    if requests == [] then start else requests[|requests| - 1].times.write
  }

  /** Every request comes after `start`, and a login starts a chain of its own. */
  ghost predicate FreshLogins(s: Server, start: real, requests: seq<Request>) {
    requests != [] ==>
      var n := |requests| - 1;
      && FreshLogins(s, start, requests[..n])
      && start <= requests[n].times.decode && NewLogin(Run(s, requests[..n]), requests[n])
  }

  lemma SerialPrefix(start: real, requests: seq<Request>)
    requires SerialRequests(requests) && requests != [] && start <= requests[|requests| - 1].times.decode
    ensures var n := |requests| - 1;
            SerialRequests(requests[..n]) && LastWrite(start, requests[..n]) <= requests[n].times.decode
  {
  }

  /** Over any serial run every sign-in has at most one refresh token that can still be exchanged. */
  lemma {:induction false} OneUsableTokenPerLogin(s: Server, start: real, requests: seq<Request>)
    requires Sound(s) && OnePerLogin(s, start) && SerialRequests(requests) && FreshLogins(s, start, requests)
    ensures OnePerLogin(Run(s, requests), LastWrite(start, requests))
  {
    if requests != [] {
      var n := |requests| - 1;
      SerialPrefix(start, requests);
      OneUsableTokenPerLogin(s, start, requests[..n]);
      RunKeepsSound(s, requests[..n]);
      ServeKeepsOnePerLogin(Run(s, requests[..n]), LastWrite(start, requests[..n]), requests[n]);
    }
  }

  // ---------------------------------------------------------------- what is issued works

  /**
   A sign-in gives an access and a refresh token that decode as such until they expire, and leaves
   every other token alone.
   */
  lemma LoginIssuesWorkingPair(s: Server, r: Request, now: real)
    requires Sound(s) && r.Login?
    ensures var s' := Serve(s, r);
            var access := Token(s.nextJti, Access, r.accessExp, r.login);
            var refresh := Token(s.nextJti + 1, Refresh, r.refreshExp, r.login);
            && access.jti !in s.signed && refresh.jti !in s.signed && access.jti != refresh.jti
            && (Decodes(s', access, Access, now) <==> now < r.accessExp as real)
            && (Decodes(s', refresh, Refresh, now) <==> now < r.refreshExp as real)
            && refresh.jti !in s'.blacklist
            && s'.signed.Keys == s.signed.Keys + {access.jti, refresh.jti}
            && (forall j :: j in s.signed ==> s'.signed[j] == s.signed[j]) && s'.blacklist == s.blacklist
  {
  }

  /** So does an exchange, for the same sign-in; of the blacklist it touches the exchanged token's entry only. */
  lemma RotationIssuesWorkingPair(s: Server, r: Request, now: real)
    requires Sound(s) && r.Rotate? && Outcome(s, r).None?
    ensures var s' := Serve(s, r);
            var access := Token(s.nextJti, Access, r.accessExp, r.token.login);
            var refresh := Token(s.nextJti + 1, Refresh, r.refreshExp, r.token.login);
            && access.jti !in s.signed && refresh.jti !in s.signed && access.jti != refresh.jti
            && (Decodes(s', access, Access, now) <==> now < r.accessExp as real)
            && (Decodes(s', refresh, Refresh, now) <==> now < r.refreshExp as real)
            && refresh.jti !in s'.blacklist
            && s'.signed.Keys == s.signed.Keys + {access.jti, refresh.jti}
            && (forall j :: j in s.signed ==> s'.signed[j] == s.signed[j])
            && forall j :: j != r.token.jti ==>
                 (j in s'.blacklist <==> j in s.blacklist) && (j in s.blacklist ==> s'.blacklist[j] == s.blacklist[j])
  {
  }

  /** The token an exchange answers with is accepted by the next exchange, if that decodes it before it expires. */
  lemma NextRotationSucceeds(s: Server, r: Request, next: Request)
    requires Sound(s) && r.Rotate? && Outcome(s, r).None?
    requires next.Rotate? && next.token == Token(s.nextJti + 1, Refresh, r.refreshExp, r.token.login)
    ensures Outcome(Serve(s, r), next).None? <==> next.times.decode < r.refreshExp as real
  {
    RotationIssuesWorkingPair(s, r, next.times.decode);
  }

  /** The same after a sign-in. */
  lemma RotationAfterLoginSucceeds(s: Server, r: Request, next: Request)
    requires Sound(s) && r.Login?
    requires next.Rotate? && next.token == Token(s.nextJti + 1, Refresh, r.refreshExp, r.login)
    ensures Outcome(Serve(s, r), next).None? <==> next.times.decode < r.refreshExp as real
  {
    LoginIssuesWorkingPair(s, r, next.times.decode);
  }

  predicate Carries(r: Request, token: Token) {
    !r.Login? && r.token.jti == token.jti
  }

  /**
   A logout of a token that decodes blacklists it; nothing else about any token changes, and a
   refused request changes nothing.
   */
  lemma LogoutTouchesOneToken(s: Server, r: Request)
    requires r.Logout?
    ensures Outcome(s, r).None? <==>
              && r.token.jti in s.signed && s.signed[r.token.jti] == r.token && r.token.kind == Refresh
              && r.times.decode < r.token.exp as real
    ensures Serve(s, r).signed == s.signed && Serve(s, r).nextJti == s.nextJti
    ensures Outcome(s, r).None? && r.times.read < r.token.exp as real && Forward(r.times) ==>
              r.token.jti in Serve(s, r).blacklist && r.token.exp as real <= Serve(s, r).blacklist[r.token.jti]
    ensures forall j :: j != r.token.jti ==>
              (j in Serve(s, r).blacklist <==> j in s.blacklist)
              && (j in s.blacklist ==> Serve(s, r).blacklist[j] == s.blacklist[j])
  {
    assert r.times.read.Floor as real <= r.times.read;
  }

  /** A token nobody uses keeps working: after any requests that do not carry it, it is accepted until it expires. */
  lemma {:induction false} UnusedTokenKeepsWorking(s: Server, requests: seq<Request>, token: Token, next: Request)
    requires Sound(s) && token.jti in s.signed && s.signed[token.jti] == token && token.kind == Refresh
    requires token.jti !in s.blacklist
    requires forall i :: 0 <= i < |requests| ==> Forward(requests[i].times) && !Carries(requests[i], token)
    ensures token.jti in Run(s, requests).signed && Run(s, requests).signed[token.jti] == token
    ensures token.jti !in Run(s, requests).blacklist
    ensures next.Rotate? && next.token == token ==>
              (Outcome(Run(s, requests), next).None? <==> next.times.decode < token.exp as real)
  {
    if requests != [] {
      var n := |requests| - 1;
      UnusedTokenKeepsWorking(s, requests[..n], token, next);
      RunKeepsSound(s, requests[..n]);
    }
  }
}
