# TrueVote election store, modelled in Dafny

TrueVote is an election backend. Moderators create polls and whitelist voter
e-mails. Voters sign up against that whitelist and cast one vote per poll.
Users exchange messages. Logins use passwords, refresh tokens and one-time
magic links. Admins are created with a secret key.

This project models the services that change or read that state:

- vote casting;
- the poll lifecycle, and the poll and moderator list queries;
- moderator statistics;
- voter sign-up, whitelisting and updates;
- message fan-out and inbox clearing;
- login, refresh and logout, and magic links;
- admin creation;
- the audit log;
- file download defaulting.

**The store.** The database is one immutable record of keyed tables
(`Schema.Store`). Its unique indexes, foreign keys and cascades are the
validity predicate `Schema.Valid`.

**Operations.** Every service call is a function from a store to a
`Step(store, result)`. The store is returned on failure as well, because
several services save step by step. A failure in the middle leaves the
earlier writes in place, and the model keeps them.

**Parameters.** The signed-in caller's claims, the clock ("now", "today"),
the ids the database assigns, password hashes and token strings are all
parameters.

**Whole-system result.** `Lifecycle` puts every state-changing call into one
operation type. It proves that any sequence of calls keeps a valid store
valid.

Modules, one per file:

| module | file | models |
|---|---|---|
| `Wrappers` | wrappers.dfy | `Option`, `Result`, and the service errors |
| `Text` | text.dfy | `string.IsNullOrWhiteSpace`, `ToLower`, `Contains`, ordinal order |
| `Lists` | lists.dfy | LINQ `Where`, stable `OrderBy`, `Skip`/`Take` paging |
| `Schema` | schema.dfy | the entities, the store, and the rules from `OnModelCreating` |
| `Audit` | audit.dfy | `AuditService.LogAsync` |
| `Votes` | votes.dfy | `VoteService.AddVoteAsync` |
| `Polls` | polls.dfy | `PollService` add, update, delete and read |
| `PollQueries` | poll_query.dfy | `PollService.QueryPollsPaged` and its filter, search and sort |
| `Moderators` | moderators.dfy | `ModeratorService` statistics, query, read, delete and add |
| `Voters` | voters.dfy | `VoterService` |
| `Messages` | messages.dfy | `MessageService` |
| `Authentication` | auth.dfy | `AuthenticationService`, and refresh-token issue from `TokenService` |
| `Admins` | admins.dfy | `AdminService.AddAdmin` |
| `Files` | files.dfy | `PollFileService.DownloadFileAsync` |
| `Lifecycle` | lifecycle.dfy | all state-changing calls together |

## Model

| member | source | states |
|---|---|---|
| Schema.EmptyStoreValid | TrueVote/Contexts/AppDbContext.cs:28-144 | An empty database meets every index, key and cascade rule of the schema, so the validity predicate can be satisfied. |
| Audit.Log | TrueVote/Service/AuditService.cs:15-29 | Logging appends exactly one entry and keeps the old entries as a prefix. The description, entity id and both user fields are copied verbatim. CreatedAt is now. UpdatedAt is present, and equal to now, exactly when an updater is named. Nothing outside the log changes. |
| Votes.CastVote | TrueVote/Service/VoteService.cs:30-80 | A missing caller, a caller matching no voter and an unknown option each fail in that order, with the store unchanged. A voter who already has a check for the option's poll is refused with AlreadyVoted, whichever option of that poll was chosen. The call succeeds if and only if the caller is a voter, the option exists, and that voter has no check for its poll. On success, exactly one check (voter, poll, voted) is added, the chosen option's tally rises by one, one vote for that option is added and returned, and nothing else changes. |
| Votes.SecondVoteInPollRefused | TrueVote/Service/VoteService.cs:52-58 | After a successful vote, a second vote by the same caller for any option of the same poll fails with AlreadyVoted and leaves the store as it was. |
| Votes.TalliesAfterVote | TrueVote/Service/VoteService.cs:70-79 | Adding a vote and raising its option's tally by one keeps every option's tally equal to the number of votes that reference it. |
| Votes.OneCheckAfterVote | TrueVote/Service/VoteService.cs:52-68 | A check added for a (voter, poll) pair that had none keeps checks unique per (voter, poll), as the unique index requires. |
| Votes.WithinChecksAfterVote | TrueVote/Service/VoteService.cs:60-79 | A vote and a check stored together for the same poll keep every poll's votes at or below its checks. |
| Votes.CastVotePreservesValid | TrueVote/Service/VoteService.cs:30-80 | Casting a vote, whether it succeeds or fails, keeps every rule of a valid store. |
| Polls.AddPoll | TrueVote/Service/PollService.cs:130-199 | The request is refused, with nothing stored, in this case: it is missing, its title is blank, it has fewer than two option texts, or its end date is not after today. A missing caller is refused as well. A creator who is not a moderator e-mail fails at the foreign key. On success, the poll is stored with the caller as creator and IsDeleted false, and one audit entry is made. |
| Polls.AddPollCreatesOptions | TrueVote/Service/PollService.cs:172-179 | A new poll has exactly one fresh, unvoted option per supplied text. No other poll's options change. |
| Polls.UpdatePoll | TrueVote/Service/PollService.cs:41-127 | The update succeeds exactly when all of the following hold: the poll exists; the caller is its creator, compared exactly and non-empty; and the patch passes its rules. The rules are a non-blank title, an end date after today, a start not after the end when both are given, and at least two option texts. A missing or empty caller is Unauthenticated. A caller who matches the creator only when case is ignored passes the first check and is refused as Unauthorized by the second. Any failure leaves the store unchanged. On success, the poll takes exactly the fields the patch carries, one audit entry names the caller as updater, and nothing else but the options and votes below changes. |
| Polls.UpdatePollReplacesOptions | TrueVote/Service/PollService.cs:97-116 | A new option list becomes exactly the poll's options, fresh and unvoted. Other polls' options stay as they were. Only the votes for the removed options are deleted. |
| Polls.DeletePollAsWritten | TrueVote/Service/PollService.cs:201-234 | Deletion as the code stands. The repository's blank poll stands in for a missing id. Its empty creator matches an empty caller claim. On success, two audit entries follow: "Poll deleted" and then "Deleted Poll updated", each with the poll's title and id and the caller as updater. |
| Polls.DeleteMissingPollReportsSuccess | TrueVote/Service/PollService.cs:201-234 | For a poll id that does not exist, with an empty caller claim, deletion as written reports success. |
| Polls.DeletePoll | TrueVote/Service/PollService.cs:201-234 | Only the creator may delete. Deleting sets IsDeleted, returns true and removes no options. It logs "Poll deleted" and then "Deleted Poll updated", each with the poll's title and id and the caller as updater. A missing poll is refused. |
| Polls.DeletePollIdempotent | TrueVote/Service/PollService.cs:212-218 | Deleting a second time succeeds again and leaves the poll table as the first delete left it. |
| Polls.GetPollByIdAsWritten | TrueVote/Service/PollService.cs:235-252 | Reading as the code stands: a missing id is not refused, because the repository's blank poll is not marked deleted. |
| Polls.GetMissingPollReturnsBlank | TrueVote/Service/PollService.cs:235-252 | Reading a poll id that does not exist returns a blank poll instead of an error. |
| Polls.GetPollById | TrueVote/Service/PollService.cs:235-252 | A stored, undeleted poll comes back together with exactly its option rows. A missing or deleted poll is NotFound. |
| Polls.DeletedPollNotFound | TrueVote/Service/PollService.cs:217-239 | After a successful delete, reading the poll fails with NotFound, while its options remain stored. |
| Polls.AddPollPreservesValid | TrueVote/Contexts/AppDbContext.cs:48-71 | Creating a poll with distinct option texts keeps the store valid. |
| Polls.UpdatePollPreservesValid | TrueVote/Service/PollService.cs:41-127 | Updating a poll keeps the store valid. Replaced options take their votes with them (cascade) while the voter checks stay, so votes never exceed checks. |
| Polls.DeletePollPreservesValid | TrueVote/Service/PollService.cs:217-218 | Soft-deleting a poll keeps the store valid. |
| PollQueries.FilterPolls | TrueVote/Service/PollService.cs:308-320 | Each poll is kept, as often as the input holds it, exactly when all three hold: it matches the creator e-mail (if one is given and non-empty), its start date is on or after the lower bound (if given), and it is on or before the upper bound (if given). |
| PollQueries.FilterPollsIsOnePass | TrueVote/Service/PollService.cs:308-320 | The three-stage filter equals a single order-preserving pass with the combined test. |
| PollQueries.SearchPolls | TrueVote/Service/PollService.cs:322-333 | An absent or empty term returns the input. Otherwise the result keeps exactly the polls whose non-empty title or description, lower-cased, contains the lower-cased term. |
| PollQueries.SearchIgnoresCase | TrueVote/Service/PollService.cs:324-330 | Two terms that lower-case alike find the same polls. |
| PollQueries.SortPolls | TrueVote/Service/PollService.cs:335-347 | Sorting permutes its input. An unknown sort key leaves the list unchanged. |
| PollQueries.SortPollsOrdered | TrueVote/Service/PollService.cs:335-347 | With a known key (title, startdate or enddate, either direction, or the default) the result is ordered by that key. Polls the key cannot tell apart keep their input order. |
| PollQueries.DefaultSortNewestFirst | TrueVote/Service/PollService.cs:337-338 | With no sort key, start dates never increase along the result. |
| PollQueries.ListPolls | TrueVote/Service/PollService.cs:258-265 | The listing holds exactly the polls that pass both the filter and the search, each as often as the table holds it. |
| PollQueries.PageResponse | TrueVote/Service/PollService.cs:267-304 | TotalRecords counts the whole listing, deleted polls included. TotalPages is its ceiling division by the page size. The page has at most pageSize rows. The rows are the live polls of the slice at (page-1)·pageSize, in slice order, each as often as the slice holds it, and each with exactly its own option rows. |
| PollQueries.QueryPollsPaged | TrueVote/Service/PollService.cs:256-305 | The rows read are exactly the poll table, and the options are the option table. TotalRecords counts every stored poll that passes the filter and the search, deleted ones included. The page and page size are echoed. The page has at most pageSize rows. Every row is a live poll stored under its id that passes both tests. Order and completeness are stated by PollQueries.PageResponse and PollQueries.QueryShowsEveryLivePoll. |
| PollQueries.QueryShowsEveryLivePoll | TrueVote/Service/PollService.cs:256-305 | Every live poll the filter and search let through appears on the page its position in the sorted listing names, and that page is within the page count. |
| PollQueries.QueryIgnoresVoterFields | TrueVote/Service/PollService.cs:308-320 | The query's result does not depend on VoterId or ForVoting. |
| Moderators.GetModeratorStats | TrueVote/Service/ModeratorService.cs:45-81 | An unknown moderator is NotFound. Otherwise the four counts are computed as follows: polls created under the moderator's e-mail (deleted ones included); whitelist entries it made; those that are used; and voted checks on its polls. Used is at most created. |
| Moderators.CastVoteCountsForCreator | TrueVote/Service/ModeratorService.cs:59-72 | A successful vote raises TotalVotesReceived by one for the moderator who created the poll and for no one else. The other counts do not change. |
| Moderators.FilterModerators | TrueVote/Service/ModeratorService.cs:313-333 | A moderator is kept exactly when two conditions hold. First, its e-mail equals the requested one, ignoring case, if one is given. Second, it is not deleted, unless IsDeleted = true was asked for. |
| Moderators.SearchModerators | TrueVote/Service/ModeratorService.cs:337-348 | An absent or empty term returns the input unchanged. Otherwise the result keeps exactly the moderators whose non-empty name or e-mail, lower-cased, contains the lower-cased term. |
| Moderators.SortModerators | TrueVote/Service/ModeratorService.cs:350-372 | Sorting permutes its input. |
| Moderators.SortModeratorsOrdered | TrueVote/Service/ModeratorService.cs:350-372 | Non-deleted moderators come before deleted ones. Within the same status, the order follows the key: name by default, or name or e-mail in either direction. Moderators the order cannot tell apart keep their input order (an unknown key orders by IsDeleted only). |
| Moderators.QueryModeratorsPagedAsWritten | TrueVote/Service/ModeratorService.cs:279-312 | The query as written, over a repository that drops deleted moderators first. It fails when no live moderator exists. |
| Moderators.DeletedModeratorNeverListed | TrueVote/Repositories/CandidateRepository.cs:25-35 | Under the query as written, a deleted moderator is never listed, even when IsDeleted = true asks for deleted ones. |
| Moderators.QueryModeratorsPaged | TrueVote/Service/ModeratorService.cs:279-312 | The query over every moderator row. TotalRecords and TotalPages count the whole filtered listing before slicing, and the page is the slice at (page-1)·pageSize. |
| Moderators.DeletedModeratorListed | TrueVote/Service/ModeratorService.cs:318-321 | With IsDeleted = true and no e-mail or term, every moderator, deleted ones included, is on the page its listing position names. |
| Moderators.GetModeratorById | TrueVote/Service/ModeratorService.cs:256-264 | A missing or soft-deleted moderator is NotFound. Otherwise the stored row is returned. |
| Moderators.DeleteModerator | TrueVote/Service/ModeratorService.cs:83-107 | A missing moderator is NotFound and a missing caller fails, both with the store unchanged. On success, the only change to the moderator table is that this moderator's IsDeleted is set. One audit entry names the caller as updater. |
| Moderators.DeleteModeratorHides | TrueVote/Service/ModeratorService.cs:83-107 | After a delete the moderator is no longer found by id, and deleting it again changes no moderator. |
| Moderators.DeleteModeratorPreservesValid | TrueVote/Service/ModeratorService.cs:83-107 | Soft-deleting a moderator keeps the store valid. |
| Moderators.AddModerator | TrueVote/Service/ModeratorService.cs:203-253 | A missing request is refused. An existing account under the e-mail gives AlreadyExists, and an e-mail already on a moderator fails at the unique index; both leave the store unchanged. Otherwise the moderator and its "Moderator" account are saved. With no caller the call then fails, with both rows kept. With a caller, one audit entry is added. |
| Moderators.AddModeratorPreservesValid | TrueVote/Contexts/AppDbContext.cs:43-46 | Adding a moderator keeps the store valid, whether or not a caller is signed in. |
| Voters.GetAllVoters | TrueVote/Service/VoterService.cs:39-43 | A voter is listed exactly when it is a stored, non-deleted row. Each such row is listed as often as it is stored. |
| Voters.GetVotersByModeratorId | TrueVote/Service/VoterService.cs:45-49 | A voter is listed exactly when it is stored, not deleted, and owned by the moderator. |
| Voters.VotersByModeratorAreAllVotersOfIt | TrueVote/Service/VoterService.cs:39-49 | A moderator's voters are exactly that moderator's share of all live voters, in the same order. |
| Voters.AcceptedEmailsFilter | TrueVote/Service/VoterService.cs:226-229 | The e-mails the loop does not skip are exactly the non-blank, well-formed ones, in input order. |
| Voters.WhitelistEach | TrueVote/Service/VoterService.cs:226-246 | Existing entries are kept. Every new entry is (e-mail, caller, unused, now) for a non-blank, well-formed e-mail of the list. A failure is AlreadyExists or ConstraintViolation (an owner that is not a moderator). On success, the result lists the accepted e-mails in input order, and all of them are stored. |
| Voters.WhitelistVoterEmails | TrueVote/Service/VoterService.cs:215-247 | A missing or empty list is InvalidArgument, and a missing caller id is Unauthorized, both with nothing stored. Otherwise the e-mails are stored one by one, and only the whitelist changes. |
| Voters.WhitelistSucceedsIff | TrueVote/Service/VoterService.cs:231-243 | The loop succeeds if and only if three conditions hold: the accepted e-mails are distinct, none is already whitelisted, and the owner is a moderator when there is anything to store. |
| Voters.RepeatedEmailAbortsAfterStoring | TrueVote/Service/VoterService.cs:231-243 | An e-mail given twice is stored by its first occurrence and then aborts the call with AlreadyExists. The call is not all-or-nothing. |
| Voters.WhitelistPreservesValid | TrueVote/Contexts/AppDbContext.cs:121-128 | Whitelisting keeps the store valid: each stored entry is keyed by its e-mail and owned by an existing moderator. |
| Voters.AddVoter | TrueVote/Service/VoterService.cs:251-306 | Checks run in this order: a missing request, an empty e-mail or password, an e-mail that is not whitelisted, an age under 18, and an existing account. Each fails with nothing stored. Then the whitelist entry is marked used. The call succeeds if and only if all these checks pass, no voter row has the e-mail yet, and the whitelisting moderator exists. On success, the voter (owned by the whitelisting moderator) and one "Voter" account under the e-mail, carrying the voter's id, are added. |
| Voters.AddVoterNeverViolatesConstraints | TrueVote/Contexts/AppDbContext.cs:81-91 | In a valid store, sign-up never fails at the voter e-mail index or the moderator foreign key. |
| Voters.AddVoterPreservesValid | TrueVote/Service/VoterService.cs:286-305 | Signing up keeps the store valid. |
| Voters.ApplyVoterPatch | TrueVote/Service/VoterService.cs:103-114 | A blank or absent name leaves the name unchanged. An absent age or IsDeleted leaves that field unchanged. A non-blank name, an age or an IsDeleted that is sent replaces the field. The id, e-mail and owner never change. |
| Voters.UpdateVoterAsModerator | TrueVote/Service/VoterService.cs:82-126 | Checks run in this order: a missing voter is NotFound, a missing caller id fails, and a caller who is not the voter's moderator is Unauthorized. An age under 18 is then refused, with nothing stored. On success, the patched voter is saved and one audit entry names the caller's id as updater. |
| Voters.UpdateVoter | TrueVote/Service/VoterService.cs:129-183 | A missing caller id is Unauthorized. A missing voter or account is NotFound. Once the account is found, a new non-blank password is saved on it, and no other change is made to the accounts, before the voter fields are checked. On success, only the voter row and that account change. |
| Voters.UnderAgeUpdateKeepsNewPassword | TrueVote/Service/VoterService.cs:149-174 | An update with a new password and an under-age age fails, yet the new password hash stays saved. |
| Voters.UpdateVoterAsModeratorPreservesValid | TrueVote/Service/VoterService.cs:82-126 | A moderator's update keeps the store valid. |
| Voters.UpdateVoterPreservesValid | TrueVote/Service/VoterService.cs:129-183 | A voter's own update keeps the store valid. |
| Voters.DeleteVoter | TrueVote/Service/VoterService.cs:185-212 | A missing voter is NotFound. A missing caller id, or a caller who is not the voter's moderator, is Unauthorized. On success, only IsDeleted is set, and no audit entry is made. |
| Voters.DeleteVoterHides | TrueVote/Service/VoterService.cs:39-43 | After a delete the voter is no longer listed by GetAllVoters, and deleting it again changes nothing further. |
| Voters.DeleteVoterPreservesValid | TrueVote/Service/VoterService.cs:206-211 | Soft-deleting a voter keeps the store valid. |
| Messages.BroadcastLinks | TrueVote/Service/MessageService.cs:88-100 | The broadcast creates one inbox link per voter, and no others. |
| Messages.AddMessage | TrueVote/Service/MessageService.cs:38-102 | Each of the following fails with nothing stored: a blank text, a missing caller, an unknown caller, and a Voter with no recipient. Otherwise the message is stored with its text, poll, recipient and time, sent from the caller's user id, whatever then happens to its recipient. A broadcast then links it to every voter. For a directed message, a recipient id matching no account (NotFound) or several (Ambiguous), and a Voter writing to a non-Moderator (Unauthorized), fail with the message kept and no link. Otherwise exactly one link, for the recipient, is added. The call succeeds if and only if none of these failures occurs. |
| Messages.VoterWritesOnlyToModerators | TrueVote/Service/MessageService.cs:59-79 | Every successful message from a Voter is directed to a Moderator account. |
| Messages.NewestFirst | TrueVote/Service/MessageService.cs:187-190 | Sorting by SentAt descending permutes its input, and sent times never increase along the result. |
| Messages.NewestFirstStable | TrueVote/Service/MessageService.cs:187-190 | Messages sent at the same instant keep their table order. |
| Messages.GetMessageForVoter | TrueVote/Service/MessageService.cs:172-193 | A missing caller id is Unauthorized. Otherwise the result holds each stored message linked to the caller exactly once and nothing else, newest first. |
| Messages.GetMessagesForModerator | TrueVote/Service/MessageService.cs:195-211 | A missing caller fails and an unknown one is NotFound. Otherwise the result holds each stored message the caller sent exactly once and nothing else, newest first. |
| Messages.SentMessageListedForSender | TrueVote/Service/MessageService.cs:81-100 | After a successful send, the sender's own listing holds the message. |
| Messages.BroadcastReachesEveryVoter | TrueVote/Service/MessageService.cs:88-100 | After a successful broadcast, every voter reads the message. |
| Messages.DeleteMessage | TrueVote/Service/MessageService.cs:104-138 | A missing caller, an unknown caller or message, and a caller who is not the sender each fail with nothing changed. On success, exactly that message and all its links are removed, and nothing else changes. |
| Messages.ClearUserMessage | TrueVote/Service/MessageService.cs:140-155 | A missing caller id is Unauthorized. The call succeeds exactly when the caller has a link to the message, and then removes only that link. |
| Messages.ClearAllMessages | TrueVote/Service/MessageService.cs:157-171 | A missing caller id is Unauthorized. Otherwise exactly the caller's links are removed, and every other link is kept. |
| Messages.ClearUserMessageHidesIt | TrueVote/Service/MessageService.cs:140-155 | After clearing, the caller's inbox lacks exactly that message, and every other user's inbox is unchanged. |
| Messages.ClearAllEmptiesInbox | TrueVote/Service/MessageService.cs:157-193 | After clearing all, reading the caller's messages returns nothing. |
| Messages.CleanupOldUserMessages | TrueVote/Service/MessageService.cs:213-228 | Exactly the links created before now minus expiryDays days are removed. All other links are kept, and nothing else changes. |
| Messages.CleanupSubsumed | TrueVote/Service/MessageService.cs:213-228 | Cleaning at one instant and then at a later instant equals cleaning once at the later instant. |
| Messages.AddMessagePreservesValid | TrueVote/Contexts/AppDbContext.cs:130-141 | Sending a message keeps the store valid: links are unique per (message, user) and reference stored messages. |
| Messages.DeleteMessagePreservesValid | TrueVote/Contexts/AppDbContext.cs:135-141 | Deleting a message together with its links keeps the store valid. |
| Messages.ClearingPreservesValid | TrueVote/Service/MessageService.cs:140-228 | Clearing one link, clearing all of a user's links, and cleanup each keep the store valid. |
| Authentication.IssueRefreshToken | TrueVote/Service/TokenService.cs:43-58 | Issuing requires an unused row id and token string. It stores one new refresh token under that id, so the table grows by one, for the user's name and the given string, not revoked and expiring seven days after now. Every other token and every other table is unchanged. |
| Authentication.IssuedTokenIsLive | TrueVote/Service/TokenService.cs:43-58 | A refresh token just issued is live until its seven days are up. |
| Authentication.IssuePreservesValid | TrueVote/Contexts/AppDbContext.cs:117-119 | Storing a refresh token with an unused string keeps token strings unique. |
| Authentication.RoleGate | TrueVote/Service/AuthenticationService.cs:122-140 | The gate passes exactly in these cases: the role, lower-cased, is admin; or it is voter or moderator with an existing, non-deleted row. A missing row is NotFound and a deleted one AccountDisabled. Any other role is UnknownRole. |
| Authentication.Login | TrueVote/Service/AuthenticationService.cs:114-173 | An unknown username is NotFound, then the gate's error applies, then a password the verifier rejects is InvalidPassword; every failure leaves the store unchanged. On success, the stored UserId, Username and Role are returned and exactly one refresh token is issued. |
| Authentication.DeletedAccountCannotLogIn | TrueVote/Service/AuthenticationService.cs:123-135 | A soft-deleted voter or moderator cannot log in, whatever the password. |
| Authentication.RefreshLogin | TrueVote/Service/AuthenticationService.cs:175-199 | A request is Unauthorized with nothing changed unless its token matches the given string, is not revoked, and expires after now. It is also Unauthorized, without revoking, when the token's user is missing. On success, that token is revoked, a new one is issued, and the response carries the user's name and role with an empty UserId. |
| Authentication.RefreshTokenSingleUse | TrueVote/Service/AuthenticationService.cs:183-188 | A refresh token that was used once is refused when presented again. |
| Authentication.Logout | TrueVote/Service/AuthenticationService.cs:203-214 | With no non-revoked token matching the string, logout returns false and changes nothing. Otherwise it revokes that token only and returns true. |
| Authentication.SecondLogoutFails | TrueVote/Service/AuthenticationService.cs:203-214 | Logging out twice with the same token returns false the second time. |
| Authentication.LoginPreservesValid | TrueVote/Service/AuthenticationService.cs:114-173 | Logging in keeps the store valid. |
| Authentication.RefreshLoginPreservesValid | TrueVote/Service/AuthenticationService.cs:175-199 | Refreshing keeps the store valid. |
| Authentication.LogoutPreservesValid | TrueVote/Service/AuthenticationService.cs:203-214 | Logging out keeps the store valid. |
| Authentication.SendMagicLink | TrueVote/Service/AuthenticationService.cs:85-112 | An unknown e-mail changes nothing. Otherwise, under a row id not yet in use, exactly one unused token for the account's username is added, expiring 15 minutes after now. Every other token row is kept. |
| Authentication.VerifyMagicLink | TrueVote/Service/AuthenticationService.cs:54-83 | Only an unused, unexpired token matching both e-mail and token is accepted; otherwise the call is Unauthorized with nothing changed. The token is marked used before the account lookup, so a missing account fails with the token spent. On success, the account's id, name and role are returned and one refresh token is issued. |
| Authentication.MagicLinkSingleUse | TrueVote/Service/AuthenticationService.cs:67-72 | A magic link that was redeemed, or spent on a failed lookup, is refused the next time. |
| Authentication.SentLinkRedeems | TrueVote/Service/AuthenticationService.cs:85-102 | A link just sent to a known e-mail is redeemable until it expires. |
| Authentication.SendMagicLinkPreservesValid | TrueVote/Service/AuthenticationService.cs:85-112 | Sending a magic link keeps the store valid. |
| Authentication.VerifyMagicLinkPreservesValid | TrueVote/Service/AuthenticationService.cs:54-83 | Redeeming a magic link keeps the store valid. |
| Admins.AddAdmin | TrueVote/Service/AdminService.cs:24-67 | Failures come in this order, and each leaves the store unchanged: a missing request is InvalidArgument; a secret key different from the configured one (both compared as nullable strings) is Unauthorized; an existing account under the e-mail is AlreadyExists; an e-mail already on an admin fails at the unique index. On success, exactly one Admin(name, e-mail) and one "Admin" account under the e-mail carrying the admin's id are added. |
| Admins.AddAdminNeverViolatesConstraints | TrueVote/Contexts/AppDbContext.cs:38-41 | In a valid store, admin creation never fails at the admin e-mail index, because every admin already has an account. |
| Admins.AddAdminPreservesValid | TrueVote/Service/AdminService.cs:61-64 | Creating an admin keeps the store valid. |
| Admins.NewAdminCanLogIn | TrueVote/Service/AuthenticationService.cs:136-137 | A new admin can log in with a password matching the stored hash, and gets back its id, e-mail and the Admin role. |
| Files.DownloadFile | TrueVote/Service/PollFileService.cs:17-38 | A missing file and a file with null content are both NotFound. Otherwise the bytes returned are exactly the stored content, with the content type and file name chosen below. |
| Files.ContentTypeOf | TrueVote/Service/PollFileService.cs:26-28 | A blank file type gives "application/octet-stream". Any other type is used unchanged. The result is never blank. |
| Files.FileNameOf | TrueVote/Service/PollFileService.cs:30-32 | A non-blank name is returned unchanged. A blank name becomes "file.png" exactly when the content type contains "image", and "file" exactly when it does not. |
| Files.UntypedUnnamedFile | TrueVote/Service/PollFileService.cs:26-32 | A file stored with neither type nor name downloads as an octet stream called "file", with its content untouched. |
| Files.UnnamedImageIsPng | TrueVote/Service/PollFileService.cs:26-32 | An unnamed file whose type mentions "image" keeps its type and is named "file.png". |
| Lists.CeilDiv | TrueVote/Service/PollService.cs:270 | The page count is the least whole number of pages that holds every record: enough pages for all of them, one page fewer would not do, and no records give zero pages. |
| Lists.PageOf | TrueVote/Service/PollService.cs:272-273 | A page holds at most pageSize rows. It holds the rows that follow the first (page-1)·pageSize, in order, and as many as remain up to pageSize. A page past the end is empty. |
| Lists.PagesCover | TrueVote/Service/PollService.cs:267-273 | Every row of a listing lies on exactly the page its position names, at its position within that page, and that page is within the page count. |
| Lists.PagesBeyondCountEmpty | TrueVote/Service/PollService.cs:267-273 | A page number above the page count shows no rows. |
| Lists.SortByStable | TrueVote/Service/PollService.cs:335-347 | The stable sort behind `OrderBy` keeps rows that compare equal in their input order. |
| Lists.FilterTwice | TrueVote/Service/PollService.cs:308-320 | Two successive `Where` passes equal one pass with both tests. |
| Lifecycle.ApplyPreservesValid | TrueVote/Contexts/AppDbContext.cs:28-144 | Every state-changing call of every service keeps a valid store valid, whether it succeeds or fails. Poll deletion is included both as the code stands and as corrected. |
| Polls.DeletePollAsWrittenPreservesValid | TrueVote/Service/PollService.cs:201-234 | Deletion as the code stands keeps the store valid; for a missing id it only appends to the audit log. |
| Lifecycle.RunPreservesValid | TrueVote/Contexts/AppDbContext.cs:28-144 | Any sequence of calls, each with fresh database ids, keeps a valid store valid. |
| Lifecycle.ReachableStoresAreValid | TrueVote/Contexts/AppDbContext.cs:28-144 | Every store the services can build from an empty database is valid. |

## Left out

- Controllers, SignalR hubs, `Program.cs` and status-code mapping are not modelled. They are HTTP plumbing, and errors are kept as the `Error` kinds.
- Password hashing, encryption and BCrypt are not modelled. A new password's hash is a parameter, and the password check is a verifier parameter. An encryption service that returns null (AddVoter, AddModerator, AddAdmin, UpdateVoter, Login) is not modelled.
- Access tokens (signed JWTs) are not modelled. A login's lasting effect is the refresh token row it stores, and token strings are fresh parameters.
- E-mail sending in `SendMagicLinkAsync` is not modelled. SMTP has no effect on the store.
- `EmailAddressAttribute` is a predicate parameter, `validEmail`, and is not modelled.
- Concurrency is not modelled. Calls run one after another, and the unique indexes are store invariants.
- Culture-sensitive string handling is narrowed: `ToLower` lowers ASCII letters only, and string order is ordinal.
- Null elements inside request lists are not modelled, nor null strings other than those the services test for.
- `Math.Ceiling` on doubles becomes exact integer ceiling division. PollQueries.PageResponse, PollQueries.QueryPollsPaged, Moderators.ModeratorPageOf, Moderators.QueryModeratorsPaged and Moderators.QueryModeratorsPagedAsWritten require `pageSize >= 1`. The source does not throw for a page size of zero or less: it returns an empty page with a meaningless TotalPages. The model excludes that input.
- 32-bit overflow of page arithmetic is not modelled. Integers are unbounded.
- Base64 poll images in query responses are not modelled.
- Polls.AddPoll, Polls.UpdatePoll: the file-attachment branch is not modelled; both keep `files` unchanged. With a file, each call also inserts a `PollFile` row. In UpdatePoll that branch marks the poll entity Unchanged after the title, description, date and IsDeleted patch has been written onto it, so the patch may never be persisted while the options and the audit row still are.
- `VoterService.GetWhiteListedEmailsByModerator`, `GetVoterByEmail`, `ModeratorService.UpdateModerator`, `UpdateModeratorAsAdmin` and `GetModeratorByEmailAsync` are outside the modelled core.
- `UserService` is role dispatch over the other services and is not modelled.
- A `DeleteVoteAsync` path appears only in the test project and has no implementation, so it is not modelled.
- The diagnostic action logger (`_auditLogger.LogAction`) is not modelled. It writes no table.
- `PollQueryDto.VoterId` and `ForVoting` are never read by `FilterPolls`, so the model ignores them too; `PollQueries.QueryIgnoresVoterFields` states this.
- `FirstOrDefault` over a table with no ordering picks an arbitrary match. This covers the voter with the caller's e-mail, the live refresh token, and the redeemable magic token. Under the unique indexes the voter is unique.
- Polls.AddPoll, Polls.UpdatePoll: require distinct option texts (in AddPoll's requires and in `PatchIdsFresh`), and so do Polls.AddPollPreservesValid and Lifecycle.Admissible. The source accepts duplicate texts and fails part-way through its inserts at the unique index on (PollId, OptionText). That partial failure is not modelled.
- The ids the database assigns are parameters that must be new to their table, and a new message id must have no inbox link. The model does not generate them.

## Findings

| source | as written | input that shows it | evidently intended | confidence | as-written member | corrected member |
|---|---|---|---|---|---|---|
| TrueVote/Service/PollService.cs:235-239 with TrueVote/Repositories/PollRepository.cs:11-16 | `GetPollByIdAsync` checks `poll == null`, but the repository returns `new Poll()` for a missing id, which is not deleted | any poll id that is not in the table | a missing poll is "Poll not found" | not executed | Polls.GetPollByIdAsWritten, Polls.GetMissingPollReturnsBlank | Polls.GetPollById, Polls.DeletedPollNotFound |
| TrueVote/Service/PollService.cs:201-234 with TrueVote/Repositories/PollRepository.cs:11-16 | `DeletePollAsync` gets a blank poll for a missing id; with an empty caller claim, its empty creator matches and the call returns true | a missing poll id and a NameIdentifier claim that is the empty string | a missing poll is "Poll not found" | not executed | Polls.DeletePollAsWritten, Polls.DeleteMissingPollReportsSuccess | Polls.DeletePoll, Polls.DeletePollIdempotent |
| TrueVote/Service/ModeratorService.cs:318-321 with TrueVote/Repositories/CandidateRepository.cs:25-35 | `FilterModerators` keeps deleted moderators for `IsDeleted = true`, but `GetAll` has already dropped them | a deleted moderator and a query with `IsDeleted = true` | the deleted moderator is listed | not executed | Moderators.QueryModeratorsPagedAsWritten, Moderators.DeletedModeratorNeverListed | Moderators.QueryModeratorsPaged, Moderators.DeletedModeratorListed |
