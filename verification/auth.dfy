/** Authentication: password login with a role gate, refresh tokens that are
    revoked when used or on logout, and single-use magic login links. Access
    tokens (signed JWTs) are not modelled; a login's lasting effect is the
    refresh token it stores. */
module Authentication {
  import opened Wrappers
  import opened Text
  import opened Schema

  /** How long a refresh token lives: seven days. */
  const RefreshTokenLifetime: int := 7 * SecondsPerDay
  /** How long a magic link lives: fifteen minutes. */
  const MagicLinkLifetime: int := 15 * SecondsPerMinute

  /** `UserLoginResponse` without the access token. */
  datatype LoginResponse = LoginResponse(userId: Id, username: string, role: string, refreshToken: string)

  // ---------------------------------------------------------------------
  // Refresh-token issue (`TokenService.GenerateTokensAsync`)

  /** A refresh token row id and token string not in use. */
  ghost predicate FreshRefreshToken(s: Store, tokenId: Id, token: string) {
    tokenId !in s.refreshTokens && forall id :: id in s.refreshTokens ==> s.refreshTokens[id].token != token
  }

  /** Stores a new refresh token for `username`, valid for seven days. The
      row id is a new Guid and the token string is random, so both are unused. */
  function IssueRefreshToken(s: Store, username: string, tokenId: Id, token: string, now: Instant): (t: Store)
    requires FreshRefreshToken(s, tokenId, token)
    ensures t == s.(refreshTokens := t.refreshTokens)
    ensures t.refreshTokens.Keys == s.refreshTokens.Keys + {tokenId}
    ensures |t.refreshTokens| == |s.refreshTokens| + 1
    ensures forall id :: id in s.refreshTokens && id != tokenId ==> t.refreshTokens[id] == s.refreshTokens[id]
    ensures var r := t.refreshTokens[tokenId];
      r.id == tokenId && r.username == username && r.token == token && !r.isRevoked
      && r.expiresAt - now == RefreshTokenLifetime
  {
    s.(refreshTokens := s.refreshTokens[tokenId := RefreshToken(tokenId, username, token, now + RefreshTokenLifetime, false)])
  }

  lemma IssuePreservesValid(s: Store, username: string, tokenId: Id, token: string, now: Instant)
    requires Valid(s) && FreshRefreshToken(s, tokenId, token)
    ensures Valid(IssueRefreshToken(s, username, tokenId, token, now))
  {
    var t := IssueRefreshToken(s, username, tokenId, token, now);
    assert RefreshTokensKeyed(t.refreshTokens);
    assert RefreshTokensUnique(t.refreshTokens);
  }

  /** A freshly issued token is accepted by a refresh at any instant before its
      seven days are up, and by a logout at any time until it is revoked. */
  lemma IssuedTokenIsLive(s: Store, username: string, tokenId: Id, token: string, now: Instant, at: Instant)
    requires FreshRefreshToken(s, tokenId, token)
    requires at < now + RefreshTokenLifetime
    ensures var t := IssueRefreshToken(s, username, tokenId, token, now);
      HasLiveToken(t.refreshTokens, token, Some(at)) && HasLiveToken(t.refreshTokens, token, None)
  {
    var t := IssueRefreshToken(s, username, tokenId, token, now);
    assert Live(t.refreshTokens[tokenId], token, Some(at));
    assert Live(t.refreshTokens[tokenId], token, None);
  }

  // ---------------------------------------------------------------------
  // Login

  /** The role gate: a voter's or moderator's account (role compared without
      case) must lead to an existing row that is not soft-deleted; an admin
      passes; any other role is refused. */
  function RoleGate(s: Store, u: User): (r: Result<()>)
    ensures r.Ok? <==>
      || Lower(u.role) == "admin"
      || (Lower(u.role) == "voter" && u.userId in s.voters && !s.voters[u.userId].isDeleted)
      || (Lower(u.role) == "moderator" && u.userId in s.moderators && !s.moderators[u.userId].isDeleted)
    ensures r.Err? && Lower(u.role) != "voter" && Lower(u.role) != "moderator" ==> r.error == UnknownRole
    ensures r.Err? && (Lower(u.role) == "voter" || Lower(u.role) == "moderator") ==>
      r.error == NotFound || r.error == AccountDisabled
    ensures || (Lower(u.role) == "voter" && u.userId !in s.voters)
            || (Lower(u.role) == "moderator" && u.userId !in s.moderators)
      ==> r == Err(NotFound)
  {
    var role := Lower(u.role);
    if role == "voter" then
      if u.userId !in s.voters then Err(NotFound)
      else if s.voters[u.userId].isDeleted then Err(AccountDisabled)
      else Ok(())
    else if role == "moderator" then
      if u.userId !in s.moderators then Err(NotFound)
      else if s.moderators[u.userId].isDeleted then Err(AccountDisabled)
      else Ok(())
    else if role == "admin" then Ok(())
    else Err(UnknownRole)
  }

  /** `Login`. `verify(password, hash)` stands for the BCrypt check;
      `tokenId` and `token` are the new refresh token's row id and string. */
  function Login(s: Store, username: string, password: string, verify: (string, string) -> bool,
                 tokenId: Id, token: string, now: Instant): (st: Step<LoginResponse>)
    requires FreshRefreshToken(s, tokenId, token)
    ensures username !in s.users ==> st == Step(s, Err(NotFound))
    ensures st.result.Ok? <==>
      username in s.users && RoleGate(s, s.users[username]).Ok? && verify(password, s.users[username].passwordHash)
    ensures username in s.users && RoleGate(s, s.users[username]).Err? ==>
      st == Step(s, Err(RoleGate(s, s.users[username]).error))
    ensures username in s.users && RoleGate(s, s.users[username]).Ok? && !verify(password, s.users[username].passwordHash)
      ==> st == Step(s, Err(InvalidPassword))
    ensures st.result.Err? ==> st.store == s
    ensures st.result.Ok? ==>
      var u := s.users[username];
      && st.result.value == LoginResponse(u.userId, u.username, u.role, token)
      && st.store == IssueRefreshToken(s, u.username, tokenId, token, now)
  {
    if username !in s.users then Step(s, Err(NotFound))
    else
      var u := s.users[username];
      var gate := RoleGate(s, u);
      if gate.Err? then Step(s, Err(gate.error))
      else if !verify(password, u.passwordHash) then Step(s, Err(InvalidPassword))
      else Step(IssueRefreshToken(s, u.username, tokenId, token, now), Ok(LoginResponse(u.userId, u.username, u.role, token)))
  }

  /** A soft-deleted voter or moderator cannot log in, whatever the password. */
  lemma DeletedAccountCannotLogIn(s: Store, username: string, password: string, verify: (string, string) -> bool,
                                  tokenId: Id, token: string, now: Instant)
    requires username in s.users && FreshRefreshToken(s, tokenId, token)
    requires var u := s.users[username];
      || (u.userId in s.voters && s.voters[u.userId].isDeleted && Lower(u.role) == "voter")
      || (u.userId in s.moderators && s.moderators[u.userId].isDeleted && Lower(u.role) == "moderator")
    ensures Login(s, username, password, verify, tokenId, token, now) == Step(s, Err(AccountDisabled))
  {
  }

  // ---------------------------------------------------------------------
  // RefreshLogin, LogoutAsync

  /** A stored refresh token with this string that is not revoked and, if
      `now` is given, has not expired. */
  ghost predicate HasLiveToken(tokens: map<Id, RefreshToken>, token: string, now: Option<Instant>) {
    exists id :: id in tokens && Live(tokens[id], token, now)
  }

  predicate Live(r: RefreshToken, token: string, now: Option<Instant>) {
    r.token == token && !r.isRevoked && (now.None? || r.expiresAt > now.value)
  }

  ghost function LiveToken(tokens: map<Id, RefreshToken>, token: string, now: Option<Instant>): (id: Id)
    requires HasLiveToken(tokens, token, now)
    ensures id in tokens && Live(tokens[id], token, now)
  {
    var id :| id in tokens && Live(tokens[id], token, now); id
  }

  /** Marks refresh token `id` revoked. */
  function Revoke(s: Store, id: Id): Store
    requires id in s.refreshTokens
  {
    s.(refreshTokens := s.refreshTokens[id := s.refreshTokens[id].(isRevoked := true)])
  }

  /** `RefreshLogin`: trades a live refresh token for a new one. The old token
      is revoked only once its user is found. The response carries no user id
      (`Guid.Empty`). */
  ghost function RefreshLogin(s: Store, token: string, tokenId: Id, newToken: string, now: Instant): (st: Step<LoginResponse>)
    requires FreshRefreshToken(s, tokenId, newToken)
    ensures !HasLiveToken(s.refreshTokens, token, Some(now)) ==> st == Step(s, Err(Unauthorized))
    ensures st.result.Ok? <==>
      HasLiveToken(s.refreshTokens, token, Some(now))
      && s.refreshTokens[LiveToken(s.refreshTokens, token, Some(now))].username in s.users
    ensures st.result.Err? ==> st == Step(s, Err(Unauthorized))
    ensures st.result.Ok? ==>
      var id := LiveToken(s.refreshTokens, token, Some(now));
      var u := s.users[s.refreshTokens[id].username];
      && st.result.value == LoginResponse(EmptyId, u.username, u.role, newToken)
      && st.store == IssueRefreshToken(Revoke(s, id), u.username, tokenId, newToken, now)
  {
    if !HasLiveToken(s.refreshTokens, token, Some(now)) then Step(s, Err(Unauthorized))
    else
      var id := LiveToken(s.refreshTokens, token, Some(now));
      var username := s.refreshTokens[id].username;
      if username !in s.users then Step(s, Err(Unauthorized))
      else
        var u := s.users[username];
        Step(IssueRefreshToken(Revoke(s, id), u.username, tokenId, newToken, now),
             Ok(LoginResponse(EmptyId, u.username, u.role, newToken)))
  }

  /** A refresh token works once: after a successful refresh the same string
      is refused. */
  lemma RefreshTokenSingleUse(s: Store, token: string, tokenId: Id, newToken: string, now: Instant,
                              tokenId2: Id, newToken2: string, later: Instant)
    requires RefreshTokensUnique(s.refreshTokens) && FreshRefreshToken(s, tokenId, newToken)
    requires RefreshLogin(s, token, tokenId, newToken, now).result.Ok?
    requires FreshRefreshToken(RefreshLogin(s, token, tokenId, newToken, now).store, tokenId2, newToken2)
    ensures var t := RefreshLogin(s, token, tokenId, newToken, now).store;
      RefreshLogin(t, token, tokenId2, newToken2, later).result == Err(Unauthorized)
  {
    var id := LiveToken(s.refreshTokens, token, Some(now));
    var t := RefreshLogin(s, token, tokenId, newToken, now).store;
    forall k | k in t.refreshTokens ensures !Live(t.refreshTokens[k], token, Some(later)) {
      if k != id && k != tokenId {
        assert t.refreshTokens[k] == s.refreshTokens[k];
      }
    }
  }

  /** `LogoutAsync`: revokes a stored, unrevoked token with this string and
      answers true; answers false, changing nothing, when there is none.
      Expiry is not looked at. */
  ghost function Logout(s: Store, token: string): (st: Step<bool>)
    ensures st.result.Ok?
    ensures st.result.value <==> HasLiveToken(s.refreshTokens, token, None)
    ensures !st.result.value ==> st.store == s
    ensures st.result.value ==> st.store == Revoke(s, LiveToken(s.refreshTokens, token, None))
  {
    if !HasLiveToken(s.refreshTokens, token, None) then Step(s, Ok(false))
    else Step(Revoke(s, LiveToken(s.refreshTokens, token, None)), Ok(true))
  }

  /** Logging out twice with the same token answers false the second time. */
  lemma SecondLogoutFails(s: Store, token: string)
    requires RefreshTokensUnique(s.refreshTokens)
    ensures var t := Logout(s, token).store;
      Logout(t, token) == Step(t, Ok(false))
  {
    var t := Logout(s, token).store;
    if HasLiveToken(s.refreshTokens, token, None) {
      var id := LiveToken(s.refreshTokens, token, None);
      forall k | k in t.refreshTokens ensures !Live(t.refreshTokens[k], token, None) {
        if k != id {
          assert t.refreshTokens[k] == s.refreshTokens[k];
        }
      }
    }
  }

  lemma RevokePreservesValid(s: Store, id: Id)
    requires Valid(s) && id in s.refreshTokens
    ensures Valid(Revoke(s, id))
  {
    var t := Revoke(s, id);
    assert RefreshTokensKeyed(t.refreshTokens);
    assert RefreshTokensUnique(t.refreshTokens);
  }

  lemma LoginPreservesValid(s: Store, username: string, password: string, verify: (string, string) -> bool,
                            tokenId: Id, token: string, now: Instant)
    requires Valid(s) && FreshRefreshToken(s, tokenId, token)
    ensures Valid(Login(s, username, password, verify, tokenId, token, now).store)
  {
    if username in s.users {
      IssuePreservesValid(s, s.users[username].username, tokenId, token, now);
    }
  }

  lemma RefreshLoginPreservesValid(s: Store, token: string, tokenId: Id, newToken: string, now: Instant)
    requires Valid(s) && FreshRefreshToken(s, tokenId, newToken)
    ensures Valid(RefreshLogin(s, token, tokenId, newToken, now).store)
  {
    if HasLiveToken(s.refreshTokens, token, Some(now)) {
      var id := LiveToken(s.refreshTokens, token, Some(now));
      RevokePreservesValid(s, id);
      var r := Revoke(s, id);
      assert FreshRefreshToken(r, tokenId, newToken);
      if s.refreshTokens[id].username in s.users {
        IssuePreservesValid(r, s.users[s.refreshTokens[id].username].username, tokenId, newToken, now);
      }
    }
  }

  lemma LogoutPreservesValid(s: Store, token: string)
    requires Valid(s)
    ensures Valid(Logout(s, token).store)
  {
    if HasLiveToken(s.refreshTokens, token, None) {
      RevokePreservesValid(s, LiveToken(s.refreshTokens, token, None));
    }
  }

  // ---------------------------------------------------------------------
  // Magic links

  /** `SendMagicLinkAsync`: for a known e-mail, stores an unused token that
      expires in fifteen minutes (the e-mail itself is not modelled); for an
      unknown one, does nothing. The row id is a new Guid. */
  function SendMagicLink(s: Store, email: string, tokenId: Id, token: string, now: Instant): (t: Store)
    requires tokenId !in s.magicTokens
    ensures email !in s.users ==> t == s
    // A known e-mail adds exactly one token row and leaves every other row as it was.
    ensures email in s.users ==>
      && t.magicTokens.Keys == s.magicTokens.Keys + {tokenId}
      && |t.magicTokens| == |s.magicTokens| + 1
      && forall id :: id in s.magicTokens ==> t.magicTokens[id] == s.magicTokens[id]
    ensures email in s.users ==>
      t == s.(magicTokens := s.magicTokens[tokenId := MagicToken(tokenId, s.users[email].username, token,
                                                                  now + MagicLinkLifetime, false)])
  {
    if email !in s.users then s
    else s.(magicTokens := s.magicTokens[tokenId := MagicToken(tokenId, s.users[email].username, token,
                                                                now + MagicLinkLifetime, false)])
  }

  predicate Redeemable(m: MagicToken, email: string, token: string, now: Instant) {
    m.email == email && m.token == token && !m.isUsed && m.expiresAt > now
  }

  ghost predicate HasRedeemable(tokens: map<Id, MagicToken>, email: string, token: string, now: Instant) {
    exists id :: id in tokens && Redeemable(tokens[id], email, token, now)
  }

  ghost function RedeemableToken(tokens: map<Id, MagicToken>, email: string, token: string, now: Instant): (id: Id)
    requires HasRedeemable(tokens, email, token, now)
    ensures id in tokens && Redeemable(tokens[id], email, token, now)
  {
    var id :| id in tokens && Redeemable(tokens[id], email, token, now); id
  }

  /** `VerifyMagicLinkAsync`: redeems an unused, unexpired token for this
      e-mail. The token is marked used before the account is looked up, so it
      is spent even when that lookup fails. */
  ghost function VerifyMagicLink(s: Store, email: string, token: string, tokenId: Id, refresh: string,
                                 now: Instant): (st: Step<LoginResponse>)
    requires FreshRefreshToken(s, tokenId, refresh)
    ensures !HasRedeemable(s.magicTokens, email, token, now) ==> st == Step(s, Err(Unauthorized))
    ensures st.result.Ok? <==> HasRedeemable(s.magicTokens, email, token, now) && email in s.users
    ensures st.result.Err? ==> st.result.error == Unauthorized
    ensures HasRedeemable(s.magicTokens, email, token, now) ==>
      var id := RedeemableToken(s.magicTokens, email, token, now);
      var spent := s.(magicTokens := s.magicTokens[id := s.magicTokens[id].(isUsed := true)]);
      && (email !in s.users ==> st.store == spent)
      && (email in s.users ==>
           && st.store == IssueRefreshToken(spent, s.users[email].username, tokenId, refresh, now)
           && st.result.value == LoginResponse(s.users[email].userId, s.users[email].username, s.users[email].role, refresh))
  {
    if !HasRedeemable(s.magicTokens, email, token, now) then Step(s, Err(Unauthorized))
    else
      var id := RedeemableToken(s.magicTokens, email, token, now);
      var spent := s.(magicTokens := s.magicTokens[id := s.magicTokens[id].(isUsed := true)]);
      if email !in s.users then Step(spent, Err(Unauthorized))
      else
        var u := s.users[email];
        Step(IssueRefreshToken(spent, u.username, tokenId, refresh, now),
             Ok(LoginResponse(u.userId, u.username, u.role, refresh)))
  }

  /** A magic link works once: once redeemed, successfully or not, the same
      e-mail and token are refused, as long as no other stored token carries
      the same pair. */
  lemma MagicLinkSingleUse(s: Store, email: string, token: string, tokenId: Id, refresh: string, now: Instant,
                           tokenId2: Id, refresh2: string, later: Instant)
    requires FreshRefreshToken(s, tokenId, refresh)
    requires forall a, b ::
      (a in s.magicTokens && b in s.magicTokens && s.magicTokens[a].email == email && s.magicTokens[a].token == token
       && s.magicTokens[b].email == email && s.magicTokens[b].token == token) ==> a == b
    requires HasRedeemable(s.magicTokens, email, token, now)
    requires FreshRefreshToken(VerifyMagicLink(s, email, token, tokenId, refresh, now).store, tokenId2, refresh2)
    ensures var t := VerifyMagicLink(s, email, token, tokenId, refresh, now).store;
      VerifyMagicLink(t, email, token, tokenId2, refresh2, later).result == Err(Unauthorized)
  {
    var id := RedeemableToken(s.magicTokens, email, token, now);
    var t := VerifyMagicLink(s, email, token, tokenId, refresh, now).store;
    assert t.magicTokens == s.magicTokens[id := s.magicTokens[id].(isUsed := true)];
    forall k | k in t.magicTokens ensures !Redeemable(t.magicTokens[k], email, token, later) {
      if k != id {
        assert t.magicTokens[k] == s.magicTokens[k];
      }
    }
  }

  /** A link sent to a known e-mail redeems within its fifteen minutes. */
  lemma SentLinkRedeems(s: Store, email: string, tokenId: Id, token: string, now: Instant, at: Instant)
    requires email in s.users && s.users[email].username == email && tokenId !in s.magicTokens
    requires now <= at < now + MagicLinkLifetime
    ensures HasRedeemable(SendMagicLink(s, email, tokenId, token, now).magicTokens, email, token, at)
  {
    var t := SendMagicLink(s, email, tokenId, token, now);
    assert Redeemable(t.magicTokens[tokenId], email, token, at);
  }

  lemma SendMagicLinkPreservesValid(s: Store, email: string, tokenId: Id, token: string, now: Instant)
    requires Valid(s) && tokenId !in s.magicTokens
    ensures Valid(SendMagicLink(s, email, tokenId, token, now))
  {
    var sent := SendMagicLink(s, email, tokenId, token, now);
    assert MagicTokensKeyed(sent.magicTokens);
  }

  lemma VerifyMagicLinkPreservesValid(s: Store, email: string, token: string, tokenId: Id, refresh: string, now: Instant)
    requires Valid(s) && FreshRefreshToken(s, tokenId, refresh)
    ensures Valid(VerifyMagicLink(s, email, token, tokenId, refresh, now).store)
  {
    if HasRedeemable(s.magicTokens, email, token, now) {
      var id := RedeemableToken(s.magicTokens, email, token, now);
      var spent := s.(magicTokens := s.magicTokens[id := s.magicTokens[id].(isUsed := true)]);
      assert MagicTokensKeyed(spent.magicTokens);
      assert Valid(spent);
      if email in s.users {
        IssuePreservesValid(spent, s.users[email].username, tokenId, refresh, now);
      }
    }
  }
}
