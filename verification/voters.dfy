/** The voter service: moderators whitelist e-mails, voters sign up against
    the whitelist, and voters are updated or soft-deleted by their moderator
    or by themselves. */
module Voters {
  import opened Wrappers
  import opened Text
  import opened Lists
  import opened Schema
  import Audit

  /** The role name stored on a voter's account. */
  const VoterRole: string := "Voter"

  /** The youngest age a voter may have. */
  const MinimumAge: int := 18

  // ---------------------------------------------------------------------
  // GetAllVoters, GetVotersByModeratorId

  predicate IsLiveVoter(v: Voter) { !v.isDeleted }

  /** Live voters whitelisted by moderator `m`. */
  function OwnedLive(m: Id): Voter -> bool {
    (v: Voter) => v.moderatorId == m && !v.isDeleted
  }

  function OwnedBy(m: Id): Voter -> bool {
    (v: Voter) => v.moderatorId == m
  }

  /** `GetAllVoters`: the rows of the voter table that are not soft-deleted. */
  function GetAllVoters(rows: seq<Voter>): (r: seq<Voter>)
    ensures forall v :: v in r <==> v in rows && !v.isDeleted
    ensures forall v: Voter :: !v.isDeleted ==> multiset(r)[v] == multiset(rows)[v]
  {
    var r := Filter(rows, IsLiveVoter);
    forall v ensures v in r <==> v in rows && !v.isDeleted {
      FilterMembership(rows, IsLiveVoter, v);
    }
    r
  }

  /** `GetVotersByModeratorId`: the live voters whose moderator is `m`. */
  function GetVotersByModeratorId(rows: seq<Voter>, m: Id): (r: seq<Voter>)
    ensures forall v :: v in r <==> v in rows && !v.isDeleted && v.moderatorId == m
  {
    var r := Filter(rows, OwnedLive(m));
    forall v ensures v in r <==> v in rows && !v.isDeleted && v.moderatorId == m {
      FilterMembership(rows, OwnedLive(m), v);
    }
    r
  }

  /** A moderator's voters are exactly that moderator's share of all live
      voters, in the same order. */
  lemma VotersByModeratorAreAllVotersOfIt(rows: seq<Voter>, m: Id)
    ensures GetVotersByModeratorId(rows, m) == Filter(GetAllVoters(rows), OwnedBy(m))
  {
    FilterTwice(rows, IsLiveVoter, OwnedBy(m), OwnedLive(m));
  }

  // ---------------------------------------------------------------------
  // WhitelistVoterEmails

  /** The entries the loop stores: not blank, and a well-formed address.
      `validEmail` stands for `EmailAddressAttribute.IsValid`. */
  function Acceptable(validEmail: string -> bool): string -> bool {
    (e: string) => !IsBlank(e) && validEmail(e)
  }

  /** The e-mails of `emails` the loop stores, in order. */
  function AcceptedEmails(emails: seq<string>, validEmail: string -> bool): seq<string>
    decreases |emails|
  {
    if emails == [] then []
    else (if !IsBlank(emails[0]) && validEmail(emails[0]) then [emails[0]] else []) + AcceptedEmails(emails[1..], validEmail)
  }

  /** The accepted e-mails are the list filtered by the acceptance test. */
  lemma {:induction false} AcceptedEmailsFilter(emails: seq<string>, validEmail: string -> bool)
    ensures AcceptedEmails(emails, validEmail) == Filter(emails, Acceptable(validEmail))
    decreases |emails|
  {
    if emails != [] {
      AcceptedEmailsFilter(emails[1..], validEmail);
    }
  }

  /** The rows the whitelist stores for `accepted`, in order. */
  predicate WhitelistRows(rows: seq<VoterEmail>, accepted: seq<string>, moderatorId: Id, now: Instant) {
    |rows| == |accepted| && forall i :: 0 <= i < |rows| ==> rows[i] == VoterEmail(accepted[i], moderatorId, false, now)
  }

  /** The whitelist after the loop, and the loop's outcome. */
  datatype Whitelisting = Whitelisting(whitelist: map<string, VoterEmail>, result: Result<seq<VoterEmail>>)

  /** The loop of `WhitelistVoterEmails`, one e-mail at a time, each saved as
      it is accepted. An entry already on the whitelist (stored before the call
      or earlier in the same list) aborts the call with the entries before it
      kept; an owner that is not a moderator (`ownerExists` false) is refused
      by the foreign key at the first insert. */
  function WhitelistEach(whitelist: map<string, VoterEmail>, moderatorId: Id, ownerExists: bool,
                         emails: seq<string>, validEmail: string -> bool, now: Instant): (w: Whitelisting)
    ensures forall e :: e in whitelist ==> e in w.whitelist && w.whitelist[e] == whitelist[e]
    ensures forall e :: e in w.whitelist && e !in whitelist ==>
      && w.whitelist[e] == VoterEmail(e, moderatorId, false, now)
      && e in emails && !IsBlank(e) && validEmail(e)
      && ownerExists
    ensures w.result.Err? ==> w.result.error == AlreadyExists || w.result.error == ConstraintViolation
    ensures w.result.Ok? ==>
      && WhitelistRows(w.result.value, AcceptedEmails(emails, validEmail), moderatorId, now)
      && forall i :: 0 <= i < |w.result.value| ==> w.result.value[i].email in w.whitelist
    decreases |emails|
  {
    if emails == [] then Whitelisting(whitelist, Ok([]))
    else
      var e := emails[0];
      assert emails == [e] + emails[1..];
      if IsBlank(e) || !validEmail(e) then
        WhitelistEach(whitelist, moderatorId, ownerExists, emails[1..], validEmail, now)
      else if e in whitelist then Whitelisting(whitelist, Err(AlreadyExists))
      else if !ownerExists then Whitelisting(whitelist, Err(ConstraintViolation))
      else
        var row := VoterEmail(e, moderatorId, false, now);
        var rest := WhitelistEach(whitelist[e := row], moderatorId, ownerExists, emails[1..], validEmail, now);
        if rest.result.Ok? then Whitelisting(rest.whitelist, Ok([row] + rest.result.value))
        else rest
  }

  /** `WhitelistVoterEmails`: an absent or empty list is refused, and so is a
      caller with no `UserId` claim; then the e-mails are stored one by one and
      only the whitelist changes. */
  function WhitelistVoterEmails(s: Store, claim: Option<IdClaim>, emails: Option<seq<string>>,
                                validEmail: string -> bool, now: Instant): (st: Step<seq<VoterEmail>>)
    ensures emails.None? || emails.value == [] ==> st == Step(s, Err(InvalidArgument))
    ensures emails.Some? && emails.value != [] && claim.None? ==> st == Step(s, Err(Unauthorized))
    ensures st.store == s.(whitelist := st.store.whitelist)
    ensures emails.Some? && emails.value != [] && claim.Some? ==>
      var w := WhitelistEach(s.whitelist, claim.value.id, claim.value.id in s.moderators, emails.value, validEmail, now);
      st == Step(s.(whitelist := w.whitelist), w.result)
  {
    if emails.None? || emails.value == [] then Step(s, Err(InvalidArgument))
    else if claim.None? then Step(s, Err(Unauthorized))
    else
      var w := WhitelistEach(s.whitelist, claim.value.id, claim.value.id in s.moderators, emails.value, validEmail, now);
      Step(s.(whitelist := w.whitelist), w.result)
  }

  /** The loop succeeds exactly when the accepted e-mails are distinct, none is
      whitelisted already, and (if there are any) the owner is a moderator. */
  lemma {:induction false} WhitelistSucceedsIff(whitelist: map<string, VoterEmail>, moderatorId: Id, ownerExists: bool,
                                                 emails: seq<string>, validEmail: string -> bool, now: Instant)
    ensures var acc := AcceptedEmails(emails, validEmail);
      WhitelistEach(whitelist, moderatorId, ownerExists, emails, validEmail, now).result.Ok? <==>
        && Distinct(acc)
        && (forall i :: 0 <= i < |acc| ==> acc[i] !in whitelist)
        && (|acc| > 0 ==> ownerExists)
    decreases |emails|
  {
    if emails != [] {
      var e := emails[0];
      assert emails == [e] + emails[1..];
      var acc := AcceptedEmails(emails, validEmail);
      var tail := AcceptedEmails(emails[1..], validEmail);
      if IsBlank(e) || !validEmail(e) {
        assert acc == tail;
        WhitelistSucceedsIff(whitelist, moderatorId, ownerExists, emails[1..], validEmail, now);
      } else {
        assert acc == [e] + tail;
        DistinctCons(e, tail);
        if e !in whitelist && ownerExists {
          var after := whitelist[e := VoterEmail(e, moderatorId, false, now)];
          WhitelistSucceedsIff(after, moderatorId, ownerExists, emails[1..], validEmail, now);
          NoneWhitelistedAfter(whitelist, e, VoterEmail(e, moderatorId, false, now), tail);
        } else {
          assert acc[0] == e;
        }
      }
    }
  }

  /** Storing `e` makes the rest of the list meet an entry exactly when `e`
      recurs in it. */
  lemma NoneWhitelistedAfter(whitelist: map<string, VoterEmail>, e: string, row: VoterEmail, tail: seq<string>)
    requires e !in whitelist
    ensures (forall i :: 0 <= i < |tail| ==> tail[i] !in whitelist[e := row])
      <==> e !in tail && (forall i :: 0 <= i < |tail| ==> tail[i] !in whitelist)
    ensures (forall i :: 0 <= i < |[e] + tail| ==> ([e] + tail)[i] !in whitelist)
      <==> (forall i :: 0 <= i < |tail| ==> tail[i] !in whitelist)
  {
    assert forall i :: 0 <= i < |tail| ==> ([e] + tail)[i + 1] == tail[i];
  }

  /** An e-mail given twice is stored by its first occurrence and then aborts
      the call: the whitelist is not all-or-nothing. */
  lemma RepeatedEmailAbortsAfterStoring(s: Store, claim: IdClaim, e: string, validEmail: string -> bool, now: Instant)
    requires Acceptable(validEmail)(e) && e !in s.whitelist && claim.id in s.moderators
    ensures var st := WhitelistVoterEmails(s, Some(claim), Some([e, e]), validEmail, now);
      && st.result == Err(AlreadyExists)
      && e in st.store.whitelist
  {
    assert [e, e][1..] == [e];
    var row := VoterEmail(e, claim.id, false, now);
    var w := WhitelistEach(s.whitelist[e := row], claim.id, true, [e], validEmail, now);
    assert w == Whitelisting(s.whitelist[e := row], Err(AlreadyExists));
  }

  /** Whitelisting keeps the store valid: each new entry is keyed by its
      e-mail and owned by an existing moderator. */
  lemma WhitelistPreservesValid(s: Store, claim: Option<IdClaim>, emails: Option<seq<string>>,
                                validEmail: string -> bool, now: Instant)
    requires Valid(s)
    ensures Valid(WhitelistVoterEmails(s, claim, emails, validEmail, now).store)
  {
    var t := WhitelistVoterEmails(s, claim, emails, validEmail, now).store;
    assert WhitelistKeyed(t.whitelist);
    assert WhitelistOwnersExist(t.whitelist, t.moderators);
  }

  // ---------------------------------------------------------------------
  // AddVoter

  /** `AddVoterRequestDto`. */
  datatype NewVoterRequest = NewVoterRequest(name: string, email: string, password: string, age: int)

  /** `AddVoter`: sign-up against the whitelist. `passwordHash` is what the
      encryption service returns for the password and `voterId` the id the
      database assigns. The whitelist entry is marked used and saved before the
      voter row is inserted, so an insert refused by the voter e-mail index or
      the moderator foreign key leaves the mark behind. */
  ghost function AddVoter(s: Store, request: Option<NewVoterRequest>, passwordHash: string, voterId: Id): (st: Step<Voter>)
    requires voterId !in s.voters
    ensures request.None? ==> st == Step(s, Err(InvalidArgument))
    ensures request.Some? ==>
      var req := request.value;
      && (req.email == [] || req.password == [] ==> st == Step(s, Err(InvalidArgument)))
      && (req.email != [] && req.password != [] && req.email !in s.whitelist ==> st == Step(s, Err(Unauthorized)))
      && (req.email != [] && req.password != [] && req.email in s.whitelist && req.age < MinimumAge
          ==> st == Step(s, Err(InvalidArgument)))
      && ((req.email != [] && req.password != [] && req.email in s.whitelist && req.age >= MinimumAge
           && req.email in s.users) ==> st == Step(s, Err(AlreadyExists)))
    // A whitelisted adult with no account signs up, unless the database refuses the rows.
    ensures st.result.Ok? <==>
      && request.Some?
      && request.value.email != [] && request.value.password != []
      && request.value.email in s.whitelist && request.value.age >= MinimumAge
      && request.value.email !in s.users
      && !HasVoterWithEmail(s.voters, request.value.email)
      && s.whitelist[request.value.email].moderatorId in s.moderators
    ensures st.result.Ok? ==>
      var req := request.value;
      var owner := s.whitelist[req.email].moderatorId;
      && st.result.value == Voter(voterId, req.name, req.email, req.age, owner, false)
      && st.store.voters == s.voters[voterId := st.result.value]
      && st.store.users == s.users[req.email := User(req.email, passwordHash, VoterRole, voterId)]
      && st.store.whitelist == s.whitelist[req.email := s.whitelist[req.email].(isUsed := true)]
      && st.store == s.(voters := st.store.voters, users := st.store.users, whitelist := st.store.whitelist)
    ensures st.result.Err? && st.store != s ==>
      && st.result.error == ConstraintViolation
      && st.store == s.(whitelist := s.whitelist[request.value.email := s.whitelist[request.value.email].(isUsed := true)])
  {
    if request.None? then Step(s, Err(InvalidArgument))
    else
      var req := request.value;
      if req.email == [] || req.password == [] then Step(s, Err(InvalidArgument))
      else if req.email !in s.whitelist then Step(s, Err(Unauthorized))
      else
        var entry := s.whitelist[req.email];
        if req.age < MinimumAge then Step(s, Err(InvalidArgument))
        else if req.email in s.users then Step(s, Err(AlreadyExists))
        else
          var marked := s.(whitelist := s.whitelist[req.email := entry.(isUsed := true)]);
          if HasVoterWithEmail(s.voters, req.email) || entry.moderatorId !in s.moderators then
            Step(marked, Err(ConstraintViolation))
          else
            var v := Voter(voterId, req.name, req.email, req.age, entry.moderatorId, false);
            Step(marked.(voters := s.voters[voterId := v],
                         users := s.users[req.email := User(req.email, passwordHash, VoterRole, voterId)]),
                 Ok(v))
  }

  /** In a valid store the database never refuses the sign-up: a voter with
      the e-mail would already have an account, and the whitelisting
      moderator exists. */
  lemma AddVoterNeverViolatesConstraints(s: Store, request: Option<NewVoterRequest>, passwordHash: string, voterId: Id)
    requires Valid(s) && voterId !in s.voters
    ensures AddVoter(s, request, passwordHash, voterId).result != Err(ConstraintViolation)
    ensures AddVoter(s, request, passwordHash, voterId).result.Err? ==>
      AddVoter(s, request, passwordHash, voterId).store == s
  {
    if request.Some? && HasVoterWithEmail(s.voters, request.value.email) {
      var v := VoterWithEmail(s.voters, request.value.email);
      assert s.voters[v].email in s.users;
    }
  }

  /** A voter whose e-mail has no account yet keeps voter e-mails unique, since
      every stored voter has an account. */
  lemma VoterEmailsAfterAdd(voters: map<Id, Voter>, users: map<string, User>, v: Voter)
    requires VoterEmailsUnique(voters) && VotersHaveUsers(voters, users) && v.email !in users
    ensures VoterEmailsUnique(voters[v.id := v])
  {
    var after := voters[v.id := v];
    forall k | k in voters ensures voters[k].email != v.email {
      assert voters[k].email in users;
    }
    forall a, b | a in after && b in after && after[a].email == after[b].email ensures a == b {
      if a != v.id && b != v.id {
        assert after[a] == voters[a] && after[b] == voters[b];
      }
    }
  }

  /** A new voter with a new account under its e-mail, and its whitelist entry
      marked used, keeps the store valid. */
  lemma ValidAfterNewVoter(s: Store, t: Store, v: Voter, u: User)
    requires Valid(s)
    requires v.id !in s.voters && v.email !in s.users && v.moderatorId in s.moderators
    requires v.email in s.whitelist && u.username == v.email
    requires t.voters == s.voters[v.id := v] && t.users == s.users[v.email := u]
    requires t.whitelist == s.whitelist[v.email := s.whitelist[v.email].(isUsed := true)]
    requires t == s.(voters := t.voters, users := t.users, whitelist := t.whitelist)
    ensures Valid(t)
  {
    VoterEmailsAfterAdd(s.voters, s.users, v);
    assert ChecksReference(t.polls, t.voters, t.checks);
    assert AccountIntegrity(t);
  }

  lemma AddVoterPreservesValid(s: Store, request: Option<NewVoterRequest>, passwordHash: string, voterId: Id)
    requires Valid(s) && voterId !in s.voters
    ensures Valid(AddVoter(s, request, passwordHash, voterId).store)
  {
    AddVoterNeverViolatesConstraints(s, request, passwordHash, voterId);
    var st := AddVoter(s, request, passwordHash, voterId);
    if st.result.Ok? {
      var req := request.value;
      var v := st.result.value;
      assert v.id == voterId && v.email == req.email && v.moderatorId in s.moderators;
      assert v.email in s.whitelist && v.email !in s.users;
      ValidAfterNewVoter(s, st.store, v, User(req.email, passwordHash, VoterRole, voterId));
    } else {
      assert st.store == s;
    }
  }

  // ---------------------------------------------------------------------
  // Updating a voter

  /** The optional fields of an update; `None` means the field was not sent. */
  datatype VoterPatch = VoterPatch(name: Option<string>, age: Option<int>, isDeleted: Option<bool>)

  /** An age in the patch that is under the minimum is refused. */
  predicate AgeAcceptable(patch: VoterPatch) {
    patch.age.None? || patch.age.value >= MinimumAge
  }

  /** The field rules both updates share: a blank name keeps the old one, and
      only the fields sent change. */
  function ApplyVoterPatch(v: Voter, patch: VoterPatch): (r: Voter)
    ensures r.id == v.id && r.email == v.email && r.moderatorId == v.moderatorId
    ensures r.name == v.name || (patch.name.Some? && r.name == patch.name.value && !IsBlank(r.name))
    ensures patch.name.None? || IsBlank(patch.name.value) ==> r.name == v.name
    ensures patch.age.None? ==> r.age == v.age
    ensures patch.isDeleted.None? ==> r.isDeleted == v.isDeleted
    ensures patch.name.Some? && !IsBlank(patch.name.value) ==> r.name == patch.name.value
    ensures patch.age.Some? ==> r.age == patch.age.value
    ensures patch.isDeleted.Some? ==> r.isDeleted == patch.isDeleted.value
  {
    var named := if patch.name.Some? && !IsBlank(patch.name.value) then v.(name := patch.name.value) else v;
    var aged := if patch.age.Some? then named.(age := patch.age.value) else named;
    if patch.isDeleted.Some? then aged.(isDeleted := patch.isDeleted.value) else aged
  }

  /** Sending the same update twice has the effect of sending it once, and an
      update with no fields changes nothing. */
  lemma ApplyVoterPatchIdempotent(v: Voter, patch: VoterPatch)
    ensures ApplyVoterPatch(ApplyVoterPatch(v, patch), patch) == ApplyVoterPatch(v, patch)
    ensures ApplyVoterPatch(v, VoterPatch(None, None, None)) == v
  {
  }

  /** `UpdateVoterAsModerator`: only the voter's own moderator may update it;
      the change is logged with the moderator's claim as the updater. */
  function UpdateVoterAsModerator(s: Store, claim: Option<IdClaim>, voterId: Id, patch: VoterPatch,
                                  now: Instant): (st: Step<Voter>)
    ensures voterId !in s.voters ==> st == Step(s, Err(NotFound))
    ensures voterId in s.voters && claim.None? ==> st == Step(s, Err(Unauthenticated))
    ensures voterId in s.voters && claim.Some? && s.voters[voterId].moderatorId != claim.value.id
      ==> st == Step(s, Err(Unauthorized))
    ensures st.result.Ok? <==>
      voterId in s.voters && claim.Some? && s.voters[voterId].moderatorId == claim.value.id && AgeAcceptable(patch)
    ensures st.result.Err? ==> st.store == s
    ensures st.result.Ok? ==>
      && st.result.value == ApplyVoterPatch(s.voters[voterId], patch)
      && st.store.voters == s.voters[voterId := st.result.value]
      && st.store == s.(voters := st.store.voters, audit := st.store.audit)
      && |st.store.audit| == |s.audit| + 1
      && st.store.audit[|s.audit|].entityId == voterId
      && st.store.audit[|s.audit|].updatedBy == Some(claim.value.text)
  {
    if voterId !in s.voters then Step(s, Err(NotFound))
    else if claim.None? then Step(s, Err(Unauthenticated))
    else
      var v := s.voters[voterId];
      if v.moderatorId != claim.value.id then Step(s, Err(Unauthorized))
      else if !AgeAcceptable(patch) then Step(s, Err(InvalidArgument))
      else
        var updated := ApplyVoterPatch(v, patch);
        var logged := Audit.Log(s, "Voter updated by moderator: " + v.email, voterId, None, Some(claim.value.text), now);
        Step(logged.(voters := s.voters[voterId := updated]), Ok(updated))
  }

  /** `UpdateVoter`: a voter updates itself. A new password is saved on the
      account before the age is checked, so an update refused for its age
      still changes the password. `passwordHash` is the encryption of the new
      password. */
  ghost function UpdateVoter(s: Store, claim: Option<IdClaim>, newPassword: Option<string>, patch: VoterPatch,
                             passwordHash: string): (st: Step<Voter>)
    ensures claim.None? ==> st == Step(s, Err(Unauthorized))
    ensures claim.Some? && (claim.value.id !in s.voters || s.voters[claim.value.id].email !in s.users)
      ==> st == Step(s, Err(NotFound))
    ensures st.result.Ok? <==>
      claim.Some? && claim.value.id in s.voters && s.voters[claim.value.id].email in s.users && AgeAcceptable(patch)
    ensures st.store == s.(voters := st.store.voters, users := st.store.users)
    ensures st.store.users.Keys == s.users.Keys
    ensures forall u :: u in s.users ==>
      st.store.users[u] == s.users[u] || st.store.users[u] == s.users[u].(passwordHash := passwordHash)
    ensures st.result.Err? ==> st.store.voters == s.voters
    ensures st.result.Ok? ==>
      && st.result.value == ApplyVoterPatch(s.voters[claim.value.id], patch)
      && st.store.voters == s.voters[claim.value.id := st.result.value]
    ensures st.store.users != s.users ==> newPassword.Some? && !IsBlank(newPassword.value)
    // Once the account is found, a new non-blank password is saved on it, whatever the voter fields hold.
    ensures claim.Some? && claim.value.id in s.voters && s.voters[claim.value.id].email in s.users
            && newPassword.Some? && !IsBlank(newPassword.value) ==>
      var e := s.voters[claim.value.id].email;
      st.store.users == s.users[e := s.users[e].(passwordHash := passwordHash)]
  {
    if claim.None? then Step(s, Err(Unauthorized))
    else if claim.value.id !in s.voters then Step(s, Err(NotFound))
    else
      var v := s.voters[claim.value.id];
      if v.email !in s.users then Step(s, Err(NotFound))
      else
        var rehashed :=
          if newPassword.Some? && !IsBlank(newPassword.value)
          then s.(users := s.users[v.email := s.users[v.email].(passwordHash := passwordHash)])
          else s;
        if !AgeAcceptable(patch) then Step(rehashed, Err(InvalidArgument))
        else
          var updated := ApplyVoterPatch(v, patch);
          Step(rehashed.(voters := s.voters[claim.value.id := updated]), Ok(updated))
  }

  /** An update refused for its age still stores a new password. */
  lemma UnderAgeUpdateKeepsNewPassword(s: Store, claim: IdClaim, password: string, patch: VoterPatch,
                                       passwordHash: string)
    requires claim.id in s.voters && s.voters[claim.id].email in s.users
    requires !IsBlank(password) && !AgeAcceptable(patch)
    ensures var st := UpdateVoter(s, Some(claim), Some(password), patch, passwordHash);
      && st.result == Err(InvalidArgument)
      && st.store.users[s.voters[claim.id].email].passwordHash == passwordHash
  {
  }

  /** Updating a voter changes neither its e-mail nor its moderator, so the
      store stays valid. */
  lemma ValidAfterVoterEdit(s: Store, t: Store, voterId: Id, r: Voter)
    requires Valid(s) && voterId in s.voters
    requires r.id == voterId && r.email == s.voters[voterId].email && r.moderatorId == s.voters[voterId].moderatorId
    requires t.voters == s.voters[voterId := r]
    requires t.users.Keys == s.users.Keys && forall u :: u in s.users ==> t.users[u].username == u
    requires t == s.(voters := t.voters, users := t.users, audit := t.audit)
    ensures Valid(t)
  {
    assert VoterEmailsUnique(t.voters);
    assert ChecksReference(t.polls, t.voters, t.checks);
    assert AccountIntegrity(t);
  }

  lemma UpdateVoterAsModeratorPreservesValid(s: Store, claim: Option<IdClaim>, voterId: Id, patch: VoterPatch,
                                             now: Instant)
    requires Valid(s)
    ensures Valid(UpdateVoterAsModerator(s, claim, voterId, patch, now).store)
  {
    var st := UpdateVoterAsModerator(s, claim, voterId, patch, now);
    if st.result.Ok? {
      ValidAfterVoterEdit(s, st.store, voterId, st.result.value);
    }
  }

  lemma UpdateVoterPreservesValid(s: Store, claim: Option<IdClaim>, newPassword: Option<string>, patch: VoterPatch,
                                  passwordHash: string)
    requires Valid(s)
    ensures Valid(UpdateVoter(s, claim, newPassword, patch, passwordHash).store)
  {
    var st := UpdateVoter(s, claim, newPassword, patch, passwordHash);
    if st.result.Ok? {
      ValidAfterVoterEdit(s, st.store, claim.value.id, st.result.value);
    } else {
      assert UsersKeyed(st.store.users);
      assert IdsAreKeys(st.store);
    }
  }

  // ---------------------------------------------------------------------
  // DeleteVoter

  /** `DeleteVoter`: the voter's own moderator marks it deleted; nothing else
      changes (the action goes to the diagnostic log only). */
  function DeleteVoter(s: Store, claim: Option<IdClaim>, voterId: Id): (st: Step<Voter>)
    ensures voterId !in s.voters ==> st.result == Err(NotFound)
    ensures voterId in s.voters && claim.None? ==> st.result == Err(Unauthorized)
    ensures st.result.Ok? <==> voterId in s.voters && claim.Some? && s.voters[voterId].moderatorId == claim.value.id
    ensures st.result.Err? ==> st.store == s
    ensures st.result.Ok? ==>
      && st.result.value == s.voters[voterId].(isDeleted := true)
      && st.store == s.(voters := s.voters[voterId := st.result.value])
  {
    if voterId !in s.voters then Step(s, Err(NotFound))
    else if claim.None? then Step(s, Err(Unauthorized))
    else
      var v := s.voters[voterId];
      if v.moderatorId != claim.value.id then Step(s, Err(Unauthorized))
      else
        var gone := v.(isDeleted := true);
        Step(s.(voters := s.voters[voterId := gone]), Ok(gone))
  }

  /** Deleting twice leaves the store as deleting once, and afterwards the
      voter is in no listing of the voter table. */
  lemma DeleteVoterHides(s: Store, claim: Option<IdClaim>, voterId: Id, rows: seq<Voter>)
    requires DeleteVoter(s, claim, voterId).result.Ok?
    requires var t := DeleteVoter(s, claim, voterId).store; forall v :: v in rows ==> v.id in t.voters && t.voters[v.id] == v
    ensures var t := DeleteVoter(s, claim, voterId).store;
      && DeleteVoter(t, claim, voterId).store == t
      && forall v :: v in GetAllVoters(rows) ==> v.id != voterId
  {
  }

  lemma DeleteVoterPreservesValid(s: Store, claim: Option<IdClaim>, voterId: Id)
    requires Valid(s)
    ensures Valid(DeleteVoter(s, claim, voterId).store)
  {
    var st := DeleteVoter(s, claim, voterId);
    if st.result.Ok? {
      ValidAfterVoterEdit(s, st.store, voterId, st.result.value);
    }
  }
}
