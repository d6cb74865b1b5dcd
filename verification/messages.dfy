/** The message service: messages between users, delivered through inbox
    links (`UserMessage`), which readers clear and a cleanup job expires. */
module Messages {
  import opened Wrappers
  import opened Text
  import opened Lists
  import opened Schema

  const VoterRoleName: string := "Voter"
  const ModeratorRoleName: string := "Moderator"

  /** `MessageRequestDto`: the text, the poll it is about, and the recipient's
      user id (`None` for a broadcast to every voter). */
  datatype MessageRequest = MessageRequest(text: string, pollId: Option<Id>, to: Option<Id>)

  /** The accounts whose `UserId` is `id`. */
  function AccountsWithId(users: map<string, User>, id: Id): set<string> {
    set u | u in users && users[u].userId == id
  }

  /** One inbox link per voter of the table, for message `messageId`. */
  function BroadcastLinks(voters: map<Id, Voter>, messageId: Id, now: Instant): (links: map<LinkKey, UserMessage>)
    ensures forall k :: k in links <==> k.0 == messageId && k.1 in voters
    ensures forall k :: k in links ==> links[k] == UserMessage(messageId, k.1, now)
  {
    var keys := set v | v in voters :: (messageId, v);
    forall k: LinkKey | k.0 == messageId && k.1 in voters ensures k in keys {
      var v := k.1;
      assert (messageId, v) in keys;
      assert k == (messageId, v);
    }
    map k | k in keys :: UserMessage(messageId, k.1, now)
  }

  /** A new message id: no message has it and no inbox link names it. */
  ghost predicate FreshMessageId(s: Store, messageId: Id) {
    messageId !in s.messages && forall k :: k in s.inbox ==> k.0 != messageId
  }

  // ---------------------------------------------------------------------
  // AddMessage

  /** `AddMessage`. `email` is the caller's name claim and `messageId` the id
      the database assigns. A voter may not broadcast. The message is saved
      before its recipient is looked up, so a missing or ambiguous recipient,
      or a voter writing to anyone but a moderator, fails with the message
      stored and no inbox link. */
  ghost function AddMessage(s: Store, email: Option<string>, request: MessageRequest, messageId: Id,
                            now: Instant): (st: Step<Message>)
    requires FreshMessageId(s, messageId)
    ensures IsBlank(request.text) ==> st == Step(s, Err(InvalidArgument))
    ensures !IsBlank(request.text) && email.None? ==> st == Step(s, Err(Unauthenticated))
    ensures !IsBlank(request.text) && email.Some? && email.value !in s.users ==> st == Step(s, Err(NotFound))
    ensures (!IsBlank(request.text) && email.Some? && email.value in s.users
             && s.users[email.value].role == VoterRoleName && request.to.None?) ==> st == Step(s, Err(Unauthorized))
    ensures st.store != s ==>
      && email.Some? && email.value in s.users
      && st.store.messages == s.messages[messageId := Message(messageId, request.text,
                                           s.users[email.value].userId, request.pollId, request.to, now)]
      && st.store == s.(messages := st.store.messages, inbox := st.store.inbox)
      && (forall k :: k in s.inbox ==> k in st.store.inbox && st.store.inbox[k] == s.inbox[k])
      && (forall k :: k in st.store.inbox && k !in s.inbox ==>
            k.0 == messageId && st.store.inbox[k] == UserMessage(messageId, k.1, now))
    // Once the four checks pass, the message is stored, whatever happens to its recipient.
    ensures (!IsBlank(request.text) && email.Some? && email.value in s.users
             && (s.users[email.value].role != VoterRoleName || request.to.Some?)) ==>
      && messageId in st.store.messages
      && st.store.messages[messageId]
         == Message(messageId, request.text, s.users[email.value].userId, request.pollId, request.to, now)
    // It is delivered to every voter, or to its one recipient, which a voter may address only when it is a moderator.
    ensures st.result.Ok? <==>
      && !IsBlank(request.text) && email.Some? && email.value in s.users
      && (|| (request.to.None? && s.users[email.value].role != VoterRoleName)
          || (&& request.to.Some? && |AccountsWithId(s.users, request.to.value)| == 1
              && (s.users[email.value].role == VoterRoleName ==>
                    forall u :: u in AccountsWithId(s.users, request.to.value) ==> s.users[u].role == ModeratorRoleName)))
    ensures st.result.Ok? ==> messageId in st.store.messages && st.result.value == st.store.messages[messageId]
    ensures st.result.Ok? && request.to.None? ==>
      && s.users[email.value].role != VoterRoleName
      && forall k :: k in st.store.inbox && k !in s.inbox ==> k.0 == messageId && k.1 in s.voters
    ensures st.result.Ok? && request.to.None? ==>
      forall v :: v in s.voters ==>
        (messageId, v) in st.store.inbox && st.store.inbox[(messageId, v)] == UserMessage(messageId, v, now)
    ensures st.result.Ok? && request.to.Some? ==>
      && |AccountsWithId(s.users, request.to.value)| == 1
      && st.store.inbox == s.inbox[(messageId, request.to.value) := UserMessage(messageId, request.to.value, now)]
    ensures st.result.Err? && st.store != s ==>
      && request.to.Some?
      && st.store.inbox == s.inbox
      && (st.result.error == NotFound <==> AccountsWithId(s.users, request.to.value) == {})
      && (st.result.error == Ambiguous <==> |AccountsWithId(s.users, request.to.value)| > 1)
  {
    if IsBlank(request.text) then Step(s, Err(InvalidArgument))
    else if email.None? then Step(s, Err(Unauthenticated))
    else if email.value !in s.users then Step(s, Err(NotFound))
    else
      var sender := s.users[email.value];
      if sender.role == VoterRoleName && request.to.None? then Step(s, Err(Unauthorized))
      else
        var m := Message(messageId, request.text, sender.userId, request.pollId, request.to, now);
        var stored := s.(messages := s.messages[messageId := m]);
        match request.to
        case None =>
          Step(stored.(inbox := s.inbox + BroadcastLinks(s.voters, messageId, now)), Ok(m))
        case Some(to) =>
          var accounts := AccountsWithId(s.users, to);
          if accounts == {} then Step(stored, Err(NotFound))
          else if |accounts| > 1 then Step(stored, Err(Ambiguous))
          else
            var u :| u in accounts;
            assert accounts == {u} by { assert |accounts - {u}| == |accounts| - 1; }
            if sender.role == VoterRoleName && s.users[u].role != ModeratorRoleName then Step(stored, Err(Unauthorized))
            else Step(stored.(inbox := s.inbox[(messageId, to) := UserMessage(messageId, to, now)]), Ok(m))
  }

  /** A voter may write only to a moderator: a successful message from a voter
      went to exactly one account, and that account is a moderator's. */
  lemma VoterWritesOnlyToModerators(s: Store, email: Option<string>, request: MessageRequest, messageId: Id,
                                    now: Instant)
    requires FreshMessageId(s, messageId)
    requires AddMessage(s, email, request, messageId, now).result.Ok?
    requires s.users[email.value].role == VoterRoleName
    ensures request.to.Some?
    ensures forall u :: u in s.users && s.users[u].userId == request.to.value ==> s.users[u].role == ModeratorRoleName
  {
    var accounts := AccountsWithId(s.users, request.to.value);
    forall u | u in s.users && s.users[u].userId == request.to.value ensures s.users[u].role == ModeratorRoleName {
      assert u in accounts;
      assert accounts == (accounts - {u}) + {u};
      assert accounts == {u};
    }
  }

  // ---------------------------------------------------------------------
  // Reading: GetMessageForVoter, GetMessagesForModerator

  /** `rows` is the message table read in some order: each stored message
      once, and nothing else. */
  ghost predicate TableRows(rows: seq<Message>, messages: map<Id, Message>) {
    forall m :: multiset(rows)[m] == if m.id in messages && messages[m.id] == m then 1 else 0
  }

  /** The ids of the messages linked to user `u`. */
  function InboxIds(inbox: map<LinkKey, UserMessage>, u: Id): set<Id> {
    set k | k in inbox && inbox[k].userId == u :: inbox[k].messageId
  }

  function IdIn(ids: set<Id>): Message -> bool {
    (m: Message) => m.id in ids
  }

  function SentBy(u: Id): Message -> bool {
    (m: Message) => m.from == u
  }

  function SentLe(a: Message, b: Message): bool { a.sentAt <= b.sentAt }

  /** `OrderByDescending(m => m.SentAt)`: a stable sort, newest first. */
  function NewestFirst(ms: seq<Message>): (r: seq<Message>)
    ensures multiset(r) == multiset(ms)
    ensures forall i, j :: 0 <= i < j < |r| ==> r[i].sentAt >= r[j].sentAt
  {
    assert TotalPreorder(SentLe);
    ReversedTotalPreorder(SentLe);
    SortBySorted(ms, Reversed(SentLe));
    SortBy(ms, Reversed(SentLe))
  }

  /** Messages sent at the same instant keep the order of the table. */
  lemma NewestFirstStable(ms: seq<Message>, c: Message)
    ensures Ties(NewestFirst(ms), Reversed(SentLe), c) == Ties(ms, Reversed(SentLe), c)
  {
    assert TotalPreorder(SentLe);
    ReversedTotalPreorder(SentLe);
    SortByStable(ms, Reversed(SentLe), c);
  }

  /** `GetMessageForVoter`: the messages of the table (`rows`, in table order)
      linked to the caller, newest first. */
  function GetMessageForVoter(s: Store, claim: Option<IdClaim>, rows: seq<Message>): (r: Result<seq<Message>>)
    requires TableRows(rows, s.messages)
    ensures r.Ok? <==> claim.Some?
    ensures r.Err? ==> r.error == Unauthorized
    ensures r.Ok? ==>
      forall m :: multiset(r.value)[m] ==
        if m.id in s.messages && s.messages[m.id] == m && m.id in InboxIds(s.inbox, claim.value.id) then 1 else 0
    ensures r.Ok? ==> forall i, j :: 0 <= i < j < |r.value| ==> r.value[i].sentAt >= r.value[j].sentAt
  {
    if claim.None? then Err(Unauthorized)
    else Ok(NewestFirst(Filter(rows, IdIn(InboxIds(s.inbox, claim.value.id)))))
  }

  /** `GetMessagesForModerator`: the messages the caller sent, newest first. */
  function GetMessagesForModerator(s: Store, email: Option<string>, rows: seq<Message>): (r: Result<seq<Message>>)
    requires TableRows(rows, s.messages)
    ensures r.Ok? <==> email.Some? && email.value in s.users
    ensures email.None? ==> r == Err(Unauthenticated)
    ensures email.Some? && email.value !in s.users ==> r == Err(NotFound)
    ensures r.Ok? ==>
      forall m :: multiset(r.value)[m] ==
        if m.id in s.messages && s.messages[m.id] == m && m.from == s.users[email.value].userId then 1 else 0
    ensures r.Ok? ==> forall i, j :: 0 <= i < j < |r.value| ==> r.value[i].sentAt >= r.value[j].sentAt
  {
    if email.None? then Err(Unauthenticated)
    else if email.value !in s.users then Err(NotFound)
    else Ok(NewestFirst(Filter(rows, SentBy(s.users[email.value].userId))))
  }


  /** A broadcast reaches every voter: each of them then reads it. */
  lemma BroadcastReachesEveryVoter(s: Store, email: Option<string>, request: MessageRequest, messageId: Id,
                                   now: Instant, voter: IdClaim, rows: seq<Message>)
    requires FreshMessageId(s, messageId)
    requires request.to.None? && voter.id in s.voters
    requires var st := AddMessage(s, email, request, messageId, now); st.result.Ok? && TableRows(rows, st.store.messages)
    ensures var st := AddMessage(s, email, request, messageId, now);
      st.result.value in GetMessageForVoter(st.store, Some(voter), rows).value
  {
    var st := AddMessage(s, email, request, messageId, now);
    var m := st.result.value;
    assert st.store.inbox[(messageId, voter.id)].userId == voter.id;
    assert m.id in InboxIds(st.store.inbox, voter.id);
    var r := GetMessageForVoter(st.store, Some(voter), rows).value;
    assert multiset(r)[m] == 1;
  }

  /** A message that was sent shows in its sender's list of sent messages. */
  lemma SentMessageListedForSender(s: Store, email: Option<string>, request: MessageRequest, messageId: Id,
                                   now: Instant, rows: seq<Message>)
    requires FreshMessageId(s, messageId)
    requires var st := AddMessage(s, email, request, messageId, now); st.result.Ok? && TableRows(rows, st.store.messages)
    ensures var st := AddMessage(s, email, request, messageId, now);
      st.result.value in GetMessagesForModerator(st.store, email, rows).value
  {
    var st := AddMessage(s, email, request, messageId, now);
    var m := st.result.value;
    assert st.store.users == s.users;
    assert m.from == s.users[email.value].userId;
    var r := GetMessagesForModerator(st.store, email, rows).value;
    assert multiset(r)[m] == 1;
  }

  // ---------------------------------------------------------------------
  // DeleteMessage

  /** The inbox without the links to message `messageId`. */
  function Unlinked(inbox: map<LinkKey, UserMessage>, messageId: Id): (r: map<LinkKey, UserMessage>)
    ensures forall k :: k in r <==> k in inbox && inbox[k].messageId != messageId
    ensures forall k :: k in r ==> r[k] == inbox[k]
  {
    map k | k in inbox && inbox[k].messageId != messageId :: inbox[k]
  }

  /** `DeleteMessage`: only the sender may delete a message; its inbox links
      go with it. */
  function DeleteMessage(s: Store, email: Option<string>, messageId: Id): (st: Step<Message>)
    ensures email.None? ==> st == Step(s, Err(Unauthenticated))
    ensures email.Some? && (email.value !in s.users || messageId !in s.messages) ==> st == Step(s, Err(NotFound))
    ensures st.result.Ok? <==>
      email.Some? && email.value in s.users && messageId in s.messages
      && s.messages[messageId].from == s.users[email.value].userId
    ensures st.result.Err? ==> st.store == s
    ensures st.result.Ok? ==>
      && st.result.value == s.messages[messageId]
      && st.store.messages.Keys == s.messages.Keys - {messageId}
      && (forall id :: id in st.store.messages ==> st.store.messages[id] == s.messages[id])
      && (forall k :: k in st.store.inbox <==> k in s.inbox && s.inbox[k].messageId != messageId)
      && (forall k :: k in st.store.inbox ==> st.store.inbox[k] == s.inbox[k])
      && st.store == s.(messages := st.store.messages, inbox := st.store.inbox)
  {
    if email.None? then Step(s, Err(Unauthenticated))
    else if email.value !in s.users || messageId !in s.messages then Step(s, Err(NotFound))
    else if s.messages[messageId].from != s.users[email.value].userId then Step(s, Err(Unauthorized))
    else Step(s.(messages := s.messages - {messageId}, inbox := Unlinked(s.inbox, messageId)), Ok(s.messages[messageId]))
  }

  // ---------------------------------------------------------------------
  // ClearUserMessage, ClearAllMessages, CleanupOldUserMessagesAsync

  /** `ClearUserMessage`: removes the caller's link to one message. */
  function ClearUserMessage(s: Store, claim: Option<IdClaim>, messageId: Id): (st: Step<UserMessage>)
    ensures claim.None? ==> st == Step(s, Err(Unauthorized))
    ensures st.result.Ok? <==> claim.Some? && (messageId, claim.value.id) in s.inbox
    ensures st.result.Err? ==> st.store == s
    ensures st.result.Ok? ==>
      && st.result.value == s.inbox[(messageId, claim.value.id)]
      && st.store.inbox.Keys == s.inbox.Keys - {(messageId, claim.value.id)}
      && (forall k :: k in st.store.inbox ==> st.store.inbox[k] == s.inbox[k])
      && st.store == s.(inbox := st.store.inbox)
  {
    if claim.None? then Step(s, Err(Unauthorized))
    else
      var key := (messageId, claim.value.id);
      if key !in s.inbox then Step(s, Err(NotFound))
      else Step(s.(inbox := s.inbox - {key}), Ok(s.inbox[key]))
  }

  /** The inbox without user `u`'s links. */
  function WithoutUser(inbox: map<LinkKey, UserMessage>, u: Id): (r: map<LinkKey, UserMessage>)
    ensures forall k :: k in r <==> k in inbox && inbox[k].userId != u
    ensures forall k :: k in r ==> r[k] == inbox[k]
  {
    map k | k in inbox && inbox[k].userId != u :: inbox[k]
  }

  /** `ClearAllMessages`: removes every link of the caller and no other. */
  function ClearAllMessages(s: Store, claim: Option<IdClaim>): (st: Step<()>)
    ensures claim.None? ==> st == Step(s, Err(Unauthorized))
    ensures st.result.Ok? <==> claim.Some?
    ensures st.store == s.(inbox := st.store.inbox)
    ensures claim.Some? ==>
      && (forall k :: k in st.store.inbox <==> k in s.inbox && s.inbox[k].userId != claim.value.id)
      && (forall k :: k in st.store.inbox ==> st.store.inbox[k] == s.inbox[k])
  {
    if claim.None? then Step(s, Err(Unauthorized))
    else Step(s.(inbox := WithoutUser(s.inbox, claim.value.id)), Ok(()))
  }

  /** After clearing one message the caller no longer reads it, and every
      other user's inbox is as it was. */
  lemma ClearUserMessageHidesIt(s: Store, claim: IdClaim, messageId: Id, other: Id)
    requires InboxKeyed(s.inbox)
    requires ClearUserMessage(s, Some(claim), messageId).result.Ok?
    requires other != claim.id
    ensures var t := ClearUserMessage(s, Some(claim), messageId).store;
      && InboxIds(t.inbox, claim.id) == InboxIds(s.inbox, claim.id) - {messageId}
      && InboxIds(t.inbox, other) == InboxIds(s.inbox, other)
  {
    var t := ClearUserMessage(s, Some(claim), messageId).store;
    var key := (messageId, claim.id);
    forall id ensures id in InboxIds(t.inbox, claim.id) <==> id in InboxIds(s.inbox, claim.id) - {messageId} {
      if id in InboxIds(s.inbox, claim.id) && id != messageId {
        var k :| k in s.inbox && s.inbox[k].userId == claim.id && s.inbox[k].messageId == id;
        assert k != key;
        assert k in t.inbox;
      }
      if id in InboxIds(t.inbox, claim.id) {
        var k :| k in t.inbox && t.inbox[k].userId == claim.id && t.inbox[k].messageId == id;
        assert k != key && k in s.inbox;
      }
    }
    forall id ensures id in InboxIds(t.inbox, other) <==> id in InboxIds(s.inbox, other) {
      if id in InboxIds(s.inbox, other) {
        var k :| k in s.inbox && s.inbox[k].userId == other && s.inbox[k].messageId == id;
        assert k != key;
        assert k in t.inbox;
      }
      if id in InboxIds(t.inbox, other) {
        var k :| k in t.inbox && t.inbox[k].userId == other && t.inbox[k].messageId == id;
        assert k in s.inbox;
      }
    }
  }

  /** After clearing everything the caller reads no messages. */
  lemma ClearAllEmptiesInbox(s: Store, claim: IdClaim, rows: seq<Message>)
    requires TableRows(rows, s.messages)
    ensures var t := ClearAllMessages(s, Some(claim)).store;
      GetMessageForVoter(t, Some(claim), rows) == Ok([])
  {
    var t := ClearAllMessages(s, Some(claim)).store;
    assert InboxIds(t.inbox, claim.id) == {};
  }

  /** The instant `expiryDays` days before `now`. */
  function Cutoff(now: Instant, expiryDays: int): Instant {
    now - expiryDays * SecondsPerDay
  }

  /** The inbox without the links created before `cutoff`. */
  function Unexpired(inbox: map<LinkKey, UserMessage>, cutoff: Instant): (r: map<LinkKey, UserMessage>)
    ensures forall k :: k in r <==> k in inbox && inbox[k].createdAt >= cutoff
    ensures forall k :: k in r ==> r[k] == inbox[k]
  {
    map k | k in inbox && inbox[k].createdAt >= cutoff :: inbox[k]
  }

  /** `CleanupOldUserMessagesAsync`: drops the links older than the configured
      number of days (`MessageCleanupDays`); messages stay. */
  function CleanupOldUserMessages(s: Store, now: Instant, expiryDays: int): (t: Store)
    ensures t == s.(inbox := t.inbox)
    ensures forall k :: k in t.inbox <==> k in s.inbox && s.inbox[k].createdAt >= now - expiryDays * SecondsPerDay
    ensures forall k :: k in t.inbox ==> t.inbox[k] == s.inbox[k]
  {
    s.(inbox := Unexpired(s.inbox, Cutoff(now, expiryDays)))
  }

  /** A cleanup at a later instant subsumes an earlier one: cleaning at `now`
      and then at `later` is cleaning at `later` alone. */
  lemma CleanupSubsumed(s: Store, now: Instant, later: Instant, expiryDays: int)
    requires now <= later
    ensures CleanupOldUserMessages(CleanupOldUserMessages(s, now, expiryDays), later, expiryDays)
         == CleanupOldUserMessages(s, later, expiryDays)
  {
    var a := CleanupOldUserMessages(CleanupOldUserMessages(s, now, expiryDays), later, expiryDays);
    var b := CleanupOldUserMessages(s, later, expiryDays);
    assert a.inbox.Keys == b.inbox.Keys;
  }

  // ---------------------------------------------------------------------
  // Validity

  /** Links keyed by their pair and pointing at stored messages keep the
      store valid whatever else the message operations change. */
  lemma ValidAfterMessaging(s: Store, t: Store)
    requires Valid(s)
    requires t == s.(messages := t.messages, inbox := t.inbox)
    requires MessagesKeyed(t.messages) && InboxKeyed(t.inbox) && LinksReferenceMessages(t.messages, t.inbox)
    ensures Valid(t)
  {
  }

  /** A new message and new links to it, keyed by their pair, keep the store valid. */
  lemma ValidAfterNewLinks(s: Store, t: Store, messageId: Id, now: Instant)
    requires Valid(s)
    requires t == s.(messages := t.messages, inbox := t.inbox)
    requires messageId in t.messages && t.messages[messageId].id == messageId
    requires forall id :: id in s.messages ==> id in t.messages && t.messages[id] == s.messages[id]
    requires forall id :: id in t.messages ==> id in s.messages || id == messageId
    requires forall k :: k in s.inbox ==> k in t.inbox && t.inbox[k] == s.inbox[k]
    requires forall k :: k in t.inbox && k !in s.inbox ==> k.0 == messageId && t.inbox[k] == UserMessage(messageId, k.1, now)
    ensures Valid(t)
  {
    assert MessagesKeyed(t.messages);
    assert InboxKeyed(t.inbox);
    assert LinksReferenceMessages(t.messages, t.inbox);
    ValidAfterMessaging(s, t);
  }

  lemma AddMessagePreservesValid(s: Store, email: Option<string>, request: MessageRequest, messageId: Id, now: Instant)
    requires Valid(s) && FreshMessageId(s, messageId)
    ensures Valid(AddMessage(s, email, request, messageId, now).store)
  {
    var t := AddMessage(s, email, request, messageId, now).store;
    if t != s {
      ValidAfterNewLinks(s, t, messageId, now);
    }
  }

  lemma DeleteMessagePreservesValid(s: Store, email: Option<string>, messageId: Id)
    requires Valid(s)
    ensures Valid(DeleteMessage(s, email, messageId).store)
  {
    var t := DeleteMessage(s, email, messageId).store;
    assert LinksReferenceMessages(t.messages, t.inbox);
    ValidAfterMessaging(s, t);
  }

  lemma ClearingPreservesValid(s: Store, claim: Option<IdClaim>, messageId: Id, now: Instant, expiryDays: int)
    requires Valid(s)
    ensures Valid(ClearUserMessage(s, claim, messageId).store)
    ensures Valid(ClearAllMessages(s, claim).store)
    ensures Valid(CleanupOldUserMessages(s, now, expiryDays))
  {
    ValidAfterMessaging(s, ClearUserMessage(s, claim, messageId).store);
    ValidAfterMessaging(s, ClearAllMessages(s, claim).store);
    ValidAfterMessaging(s, CleanupOldUserMessages(s, now, expiryDays));
  }
}
