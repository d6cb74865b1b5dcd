/** The admin service: creating an admin and its login account, guarded by
    the configured secret admin key. */
module Admins {
  import opened Wrappers
  import opened Text
  import opened Schema
  import Authentication

  /** `AddAdminRequestDto`. A key left out of the request is `None`. */
  datatype NewAdminRequest = NewAdminRequest(name: string, email: string, password: string, secretKey: Option<string>)

  /** The role name stored on an admin's account. */
  const AdminRole: string := "Admin"

  ghost function AdminEmails(admins: map<Id, Admin>): set<string> {
    set a | a in admins :: admins[a].email
  }

  /** `AddAdmin`. `configuredKey` is the `AdminSettings:SecretAdminKey` setting
      (`None` when it is not configured); the two keys are compared as nullable
      strings, so a request without a key passes only when no key is configured.
      `passwordHash` is what the encryption service returns for the password and
      `adminId` the id the database assigns. The admin row is saved before the
      account, so an e-mail already on an admin fails at the unique index with
      nothing stored. */
  function AddAdmin(s: Store, request: Option<NewAdminRequest>, configuredKey: Option<string>,
                    passwordHash: string, adminId: Id): (st: Step<Admin>)
    requires adminId !in s.admins
    ensures st.result.Err? ==> st.store == s
    ensures request.None? ==> st.result == Err(InvalidArgument)
    ensures request.Some? && request.value.secretKey != configuredKey ==> st.result == Err(Unauthorized)
    ensures request.Some? && request.value.secretKey == configuredKey && request.value.email in s.users
      ==> st.result == Err(AlreadyExists)
    ensures st.result.Ok? <==>
      && request.Some? && request.value.secretKey == configuredKey
      && request.value.email !in s.users
      && request.value.email !in AdminEmails(s.admins)
    ensures st.result.Ok? ==>
      var req := request.value;
      && st.result.value == Admin(adminId, req.name, req.email)
      && st.store == s.(admins := s.admins[adminId := st.result.value],
                        users := s.users[req.email := User(req.email, passwordHash, AdminRole, adminId)])
  {
    if request.None? then Step(s, Err(InvalidArgument))
    else
      var req := request.value;
      if req.secretKey != configuredKey then Step(s, Err(Unauthorized))
      else if req.email in s.users then Step(s, Err(AlreadyExists))
      else if exists a :: a in s.admins && s.admins[a].email == req.email then Step(s, Err(ConstraintViolation))
      else
        var a := Admin(adminId, req.name, req.email);
        Step(s.(admins := s.admins[adminId := a],
                users := s.users[req.email := User(req.email, passwordHash, AdminRole, adminId)]), Ok(a))
  }

  /** In a valid store every admin e-mail has an account, so the unique index on
      admin e-mails is never what stops `AddAdmin`. */
  lemma AddAdminNeverViolatesConstraints(s: Store, request: Option<NewAdminRequest>, configuredKey: Option<string>,
                                         passwordHash: string, adminId: Id)
    requires Valid(s) && adminId !in s.admins
    ensures AddAdmin(s, request, configuredKey, passwordHash, adminId).result != Err(ConstraintViolation)
  {
    if request.Some? && request.value.email in AdminEmails(s.admins) {
      var a :| a in s.admins && s.admins[a].email == request.value.email;
      assert AdminsHaveUsers(s.admins, s.users);
    }
  }

  /** An admin with a new id and a new e-mail keeps admin e-mails unique. */
  lemma AdminEmailsAfterAdd(admins: map<Id, Admin>, a: Admin)
    requires a.id !in admins && a.email !in AdminEmails(admins) && AdminEmailsUnique(admins)
    ensures AdminEmailsUnique(admins[a.id := a])
  {
    var after := admins[a.id := a];
    forall k | k in admins ensures admins[k].email != a.email {
      assert admins[k].email in AdminEmails(admins);
    }
    forall x, y | x in after && y in after && after[x].email == after[y].email ensures x == y {
      if x != a.id && y != a.id {
        assert after[x] == admins[x] && after[y] == admins[y];
      }
    }
  }

  /** An admin with a new id, a new e-mail and an account under it keeps the store valid. */
  lemma ValidAfterNewAdmin(s: Store, t: Store, a: Admin, u: User)
    requires Valid(s)
    requires a.id !in s.admins && a.email !in AdminEmails(s.admins) && a.email !in s.users
    requires u.username == a.email
    requires t == s.(admins := s.admins[a.id := a], users := s.users[a.email := u])
    ensures Valid(t)
  {
    AdminEmailsAfterAdd(s.admins, a);
    assert AdminsHaveUsers(t.admins, t.users);
    assert ModeratorsHaveUsers(t.moderators, t.users);
    assert VotersHaveUsers(t.voters, t.users);
    assert AccountIntegrity(t);
  }

  lemma AddAdminPreservesValid(s: Store, request: Option<NewAdminRequest>, configuredKey: Option<string>,
                               passwordHash: string, adminId: Id)
    requires Valid(s) && adminId !in s.admins
    ensures Valid(AddAdmin(s, request, configuredKey, passwordHash, adminId).store)
  {
    var st := AddAdmin(s, request, configuredKey, passwordHash, adminId);
    if st.result.Ok? {
      var req := request.value;
      ValidAfterNewAdmin(s, st.store, Admin(adminId, req.name, req.email), User(req.email, passwordHash, AdminRole, adminId));
    }
  }

  /** A new admin can log in with a password that matches the stored hash: the
      role gate lets the `Admin` role through without looking for a row. */
  lemma NewAdminCanLogIn(s: Store, request: Option<NewAdminRequest>, configuredKey: Option<string>,
                         passwordHash: string, adminId: Id,
                         password: string, verify: (string, string) -> bool, tokenId: Id, token: string, now: Instant)
    requires adminId !in s.admins
    requires AddAdmin(s, request, configuredKey, passwordHash, adminId).result.Ok?
    requires verify(password, passwordHash)
    requires Authentication.FreshRefreshToken(s, tokenId, token)
    ensures
      var t := AddAdmin(s, request, configuredKey, passwordHash, adminId).store;
      Authentication.Login(t, request.value.email, password, verify, tokenId, token, now).result
        == Ok(Authentication.LoginResponse(adminId, request.value.email, AdminRole, token))
  {
    var t := AddAdmin(s, request, configuredKey, passwordHash, adminId).store;
    var u := t.users[request.value.email];
    assert Lower(u.role) == "admin" by {
      assert Lower(AdminRole)[0] == 'a';
    }
  }
}
