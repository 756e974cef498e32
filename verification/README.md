# Two-person chat server, modelled in Dafny

This project models the server of a private two-account chat: the accounts
"Pavi" and "Manu", each the other's fixed partner. It covers:

- the HTTP login endpoint with its per-address rate limiter;
- the socket events a client sends (user-join, chat/image/voice messages,
  messages-read, edit-message, delete-message, clear-chat, disconnect);
- the in-memory state those events change: the message log, the table of
  disappearing-message timers, the active session of each account, and the
  user record of each socket;
- the timers that remove disappearing messages and mark messages delivered.

Modules:

- `ChatTypes` (types.dfy): message records, users, events, the parsed
  disappear setting, and setTimeout's clamp.
- `DisappearTime` (disappear_time.dfy): how a `disappearTime` value is read,
  including `parseInt`, `Number(...)` and `split('_')[1]`.
- `MessageLog` (message_log.dfy): `deleteMessage`, edit and read, as functions
  on the log and the timer table.
- `Reconcile` (reconcile.dfy): the timer restart that runs on every join.
  It has two versions: the loop as the server writes it, and a corrected pass.
- `RateLimit` (rate_limit.dfy): `checkRateLimit` and `recordLoginAttempt`.
- `Login` (login.dfy): the account test, the room limit, the
  case-insensitive username match, partners and join names.
- `Sessions` (sessions.dfy): the disconnect handler, eviction of an older
  socket, and registration of a join.
- `ChatServer` (chat_server.dfy): the class `ChatServer`. Its fields are the
  server's maps and arrays, and its methods are the handlers. Each method
  updates the fields in place and is specified by the functions above.

`ChatServer.Valid` is the invariant every handler keeps. It says:

- ids are increasing and below the counter;
- every removal timer belongs to a message in the log;
- session keys are account names;
- no rate-limit count exceeds 5;
- the log is settled: each message that disappears and is not deleted either has its timer or is a "read_N" message nobody has read yet.

Time is the field `now`, in milliseconds. A pending `setTimeout` is a deadline
in `timers` (removal) or `deliveries` (the delivered mark). `Fire` and
`Deliver` run one that is due. What the server emits is appended to
`events`.

Behaviours of the code worth noting, which the model keeps:

- A soft delete keeps the text and payload in place, sets `deleted` and `deletedAt`, and drops the message's removal timer.
- A second read overwrites `readAt` and re-arms the timer.
- The read update echoes every id sent, found or not.
- Authorship is decided by socket id, not by account name.
- Edit, delete and clear-chat do not check that the socket has joined.
- Clear-chat leaves the delivered timers running.

## Model

| member | source | states |
|---|---|---|
| RateLimit.CheckVerdict | server.js:83-98 | The request is refused exactly when the address has a stored record with at least 5 failures whose 15-minute cooldown has not run out. The minutes announced are the ceiling of the remaining milliseconds over 60000. |
| RateLimit.CeilDiv | server.js:93 | `Math.ceil(x / d)`: the least q with x <= d*q. |
| RateLimit.AfterCheck | server.js:84-90 | The rate-limit check resets to 0 the count of a stored record whose cooldown has run out, keeping its time. The default record for an unknown address is not stored. Other addresses are unchanged. |
| RateLimit.AfterAttempt | server.js:100-113 | A success deletes the address. A failure stores count + 1 stamped with the current time. Other addresses are unchanged. |
| RateLimit.Round | server.js:129-190 | Definition of one request as the limiter sees it when nothing overlaps: the rate-limit check, then the record unless refused; its properties are stated by `RefusalKeepsRecord`, `RoundKeepsCountBounded` and `SuccessForgets`. |
| RateLimit.FailuresAccumulate | server.js:100-113 | Up to 5 failures from a fresh address, each within the cooldown of the previous one, give a record counting them, stamped with the last time. |
| RateLimit.LockedOutAfterFailures | server.js:83-113 | After 5 such failures the address is refused exactly until 15 minutes after the last one. |
| RateLimit.RefusalKeepsRecord | server.js:128-136 | A refused request changes nothing, so retrying does not extend the lockout. |
| RateLimit.RoundKeepsCountBounded | server.js:83-113 | No stored count ever exceeds 5. |
| RateLimit.RecordFailures | server.js:146-187 | Definition of failures recorded one after another, with no check between them. |
| RateLimit.OverlappingFailuresPassLimit | server.js:129-187 | Requests that all pass the rate-limit check before their password comparisons finish each add one failure. From a count of 4, two of them leave a count above 5. |
| RateLimit.SuccessForgets | server.js:104-106 | After an allowed successful login the address is forgotten and allowed at any later time. |
| RateLimit.MinutesLeftBounded | server.js:92-94 | The announced wait is between 0 and 15 minutes. |
| Login.PrototypeNameAdmitted | server.js:232 | The join test `validUsers[username]` admits "toString", which is not an account. |
| Login.CorrectedTestIsStricter | server.js:232 | The corrected test admits a subset of the written one, and differs only on inherited property names. |
| Login.IsValidUser | server.js:232 | Definition of the corrected account test: only "Pavi" and "Manu" pass. |
| Login.IsValidUserAsWritten | server.js:232 | Definition of the test as written: the account names and the inherited property names pass. |
| Login.RoomFullUnreachable | server.js:238-243 | With only account names as session keys, an account is never refused as "room full". |
| Login.RoomFullReachableAsWritten | server.js:231-243 | Under the written test, sessions "toString" and "valueOf" fill the room against "Pavi". |
| Login.Lower | server.js:141 | `toLowerCase`: same length, each ASCII capital lowered, other characters kept. |
| Login.FindLower | server.js:140-142 | `find`: the first name equal to the typed one up to case, and None exactly when no name matches. |
| Login.MatchUsername | server.js:140-142 | Definition of the username lookup over the account names in key order; its properties are stated by `MatchUsernameCases` and `MatchIsCaseInsensitive`. |
| Login.MatchUsernameCases | server.js:140-142 | The match tries "Pavi", then "Manu". |
| Login.MatchIsCaseInsensitive | server.js:140-144 | A typed name resolves to an account exactly when it equals that account's name up to case. |
| Login.MatchIgnoresCase | server.js:140-142 | Names equal up to case resolve alike. |
| Login.Partner | server.js:52-55 | Exactly the accounts have a partner, which is the other account. |
| Login.PartnerInvolution | server.js:52-55 | The partner of one's partner is oneself. |
| Login.JoinName | server.js:228 | The requested name when one is given; otherwise "User_" followed by a prefix of the socket id of length min(6, its length). |
| Login.DefaultNameRefused | server.js:228-236 | The generated default name fails even the written account test, so a join without a name is refused. |
| DisappearTime.SecondField | server.js:283 | `split('_')[1]` is undefined exactly when the string holds no `_`. |
| DisappearTime.ParseInt | server.js:283 | Definition of `parseInt` on an optional sign followed by digits, NaN when no digit comes first; its properties are stated by `ParseIntDecimal`. |
| DisappearTime.ToNumber | server.js:303 | Definition of the numeric coercion in `message.disappearTime - messageAge` and `disappearTime * 1000`; its properties are stated by `DecimalStringIsFixed`. |
| DisappearTime.ParseDisappear | server.js:342-362 | A falsy `disappearTime` means no timer. A string starting "read_" means after reading. Anything else is a delay from sending. |
| DisappearTime.SecondFieldAfterPrefix | server.js:283 | `split('_')[1]` of `p + "_" + f`, where neither has `_`, is f. |
| DisappearTime.ParseIntDecimal | server.js:283 | `parseInt` reads back the decimal text of a natural number. |
| DisappearTime.ReadTagRoundTrip | server.js:280-283 | "read_N" is read back as N seconds after reading. |
| DisappearTime.DecimalStringIsFixed | server.js:353-362 | A decimal string, "0" included, is truthy and is a delay of that many seconds. |
| MessageLog.IndexOf | server.js:615 | `find` by id: the first index holding the id, and None exactly when the id is absent. |
| MessageLog.DeleteMessage | server.js:614-637 | Definition of `deleteMessage(id, hard)` on the log and the timer table; its properties are stated by `DeleteUnknownIsNoop`, `HardDeleteRemovesExactly`, `SoftDeleteKeepsInPlace` and `DeleteKeepsConsistent`. |
| MessageLog.FindOwned | server.js:539 | `find` by id and author socket: the index of a message with both, and None only when no message has both. |
| MessageLog.FindOwnedIsAuthorCheck | server.js:538-543 | With unique ids, the owned lookup is the id lookup plus an author check. |
| MessageLog.DeleteUnknownIsNoop | server.js:614-616 | Deleting an unknown id changes nothing and emits nothing. |
| MessageLog.RemoveAtKeepsOthers | server.js:619-622 | `splice(k, 1)` shortens the log by one, keeps ids increasing, and leaves exactly the messages whose id differs from the removed one. |
| MessageLog.HardDeleteRemovesExactly | server.js:617-636 | The disappearing path removes exactly that message and keeps the others in order. The timer table loses that id and nothing else. It emits message-disappeared. |
| MessageLog.SoftDeleteKeepsInPlace | server.js:624-636 | The manual path keeps the message where it is with text and payload, and only sets `deleted`/`deletedAt`. The timer table loses that id and nothing else. It emits message-deleted. |
| MessageLog.DeleteKeepsConsistent | server.js:614-637 | Either path keeps ids increasing and every timer attached to a message in the log. |
| MessageLog.AppendNextId | server.js:331-347 | A message appended with the next id is new to the log and keeps ids increasing. |
| MessageLog.Edit | server.js:522-535 | Definition of the edit-message change; its properties are stated by `EditOnlyByAuthor`. |
| MessageLog.EditOnlyByAuthor | server.js:522-535 | An edit happens exactly when the socket authored a non-deleted message with that id. It then changes only that message's text, `edited` and `editedAt`. |
| MessageLog.ReadOne | server.js:483-513 | Definition of one callback of the messages-read `forEach`; its properties are stated by `ReadOneMessages` and `ReadOneTimers`. |
| MessageLog.ReadAll | server.js:482-515 | Definition of the whole `forEach`, one id after another; its properties are stated by `ReadAllStep` and `ReadAllEffect`. |
| MessageLog.ReadTimers | server.js:492-510 | Definition of the timers a read request arms, the last listing of an id winning; its properties are stated by `ReadTimersKeys`. |
| MessageLog.ReadAllStep | server.js:482-515 | One more id of a read request is one more single-id step. |
| MessageLog.ReadTimersKeys | server.js:492-510 | A read arms a timer exactly for the listed "read_N" messages by someone else, N seconds from now. |
| MessageLog.ReadOneMessages | server.js:485-489 | One more id marks read exactly the message with that id, if someone else wrote it. |
| MessageLog.ReadAllMessages | server.js:482-515 | The messages a whole read request leaves are those of marking each listed message by someone else. |
| MessageLog.ReadOneTimers | server.js:492-510 | One more id adds exactly its read-anchored timer, if any. |
| MessageLog.ReadAllTimers | server.js:482-515 | The timers a whole read request leaves are the old ones overridden by `ReadTimers`. |
| MessageLog.ReadAllEffect | server.js:482-515 | A read request marks read exactly the listed messages by someone else and leaves the others. The timer table gains exactly the read-anchored timers, replacing older ones. |
| Reconcile.FixedKeepsSendDeadline | server.js:300-317 | A fixed-delay message is re-armed at its original send deadline, or removed once that has passed. |
| Reconcile.AfterReadKeepsReadDeadline | server.js:280-298 | A read "read_N" message is re-armed at read time + N s, or removed once that has passed. |
| Reconcile.OnlyPendingTouched | server.js:279-299 | Only pending messages are acted on. An unread "read_N" message or one with a timer is left alone. |
| Reconcile.ReconcileAction | server.js:279-317 | Definition of what the restart does with one message: keep it, arm it for the rest of its budget, or remove it; its properties are stated by `FixedKeepsSendDeadline`, `AfterReadKeepsReadDeadline` and `OnlyPendingTouched`. |
| Reconcile.Reconciled | server.js:278-320 | Definition of the corrected restart, visiting each message once; its properties are stated by `ReconciledKeeps`, `ReconciledArms`, `ReconciledSettles` and `ReconcileIdempotent`. |
| Reconcile.ActionDependsOnOwnTimer | server.js:279 | A message's treatment depends on the timer table only through its own id. |
| Reconcile.ReconciledTimers | server.js:278-320 | The pass keeps every existing timer and adds timers only for ids in the log. |
| Reconcile.ReconciledKeeps | server.js:278-320 | The corrected pass keeps exactly the unexpired messages, in order. |
| Reconcile.ReconciledArms | server.js:278-320 | It arms exactly the messages whose action is Arm, at that deadline, and keeps existing timers. |
| Reconcile.ReconciledSettles | server.js:278-320 | Afterwards no kept message is left to schedule. |
| Reconcile.SettledIsFixpoint | server.js:278-320 | A pass over a settled log changes nothing. |
| Reconcile.ReconcileIdempotent | server.js:278-320 | Reconciling twice at one instant is reconciling once. |
| Reconcile.SettledLogUntouched | server.js:278-320 | On a settled log (nothing left to arm or remove) the restart changes nothing, at any instant. |
| Reconcile.SettledWalkUntouched | server.js:278-320 | On a settled log the loop as written changes nothing either, so its skip cannot show there. |
| Reconcile.SettledBySchedule | server.js:522-535 | Changing only text, edit or delivery marks keeps a log settled. |
| Reconcile.SettledAfterDelete | server.js:614-637 | Both paths of deleteMessage keep a log settled. |
| Reconcile.ReadEffectSettled | server.js:483-510 | A message marked by a read request stays settled when the timers only grow and a marked "read_N" message gets its timer. |
| Reconcile.ArmedByRead | server.js:492-510 | With unique ids, every listed "read_N" message by someone else is armed by the read request. |
| Reconcile.SettledAfterRead | server.js:482-515 | A read request keeps a log settled. |
| Reconcile.ReconciledConsistent | server.js:278-320 | The pass keeps ids increasing and bounded. |
| Reconcile.ReconciledTimersInLog | server.js:278-320 | Every timer left by the pass belongs to a kept message. |
| Reconcile.ExpireInPlace | server.js:313-317 | In the middle of the pass, deleteMessage removes exactly the visited message, touches no timer, and emits message-disappeared. |
| Reconcile.PassUpToIsReconciled | server.js:278-320 | The counted pass over the first n messages is the pass over that prefix. |
| Reconcile.PassUpToAll | server.js:278-320 | The counted pass over the whole log is the corrected pass. |
| Reconcile.PassInPlace | server.js:278-320 | One in-place step: a kept message advances the index, and an expired one is spliced out and the index stays. |
| Reconcile.WalkAsWritten | server.js:278-320 | Definition of the loop as written: `forEach` over the starting length, the callback at each index of the current log; its properties are stated by `WalkKeepsVisitedPrefix`, `WalkSkipsSuccessor` and `SettledWalkUntouched`. |
| Reconcile.VisitAt | server.js:279-317 | Definition of one callback of that loop at an index; its properties are stated by `VisitKeepsPrefix`. |
| Reconcile.VisitKeepsPrefix | server.js:278-320 | One callback of the written loop leaves the log before its index alone. |
| Reconcile.WalkKeepsVisitedPrefix | server.js:278-320 | The written loop never changes the part of the log it has passed. |
| Reconcile.HardDeleteAt | server.js:619-622 | With unique ids, the hard delete of the message at k removes index k. |
| Reconcile.WalkSkipsSuccessor | server.js:278-320 | When the message at any visited index expires during the written loop, the one after it is skipped and stays in the log. |
| Reconcile.SkipExampleDiffers | server.js:278-320 | Two expired messages: the corrected pass removes both, and the written loop keeps the second, still expired and without a timer. |
| Sessions.Disconnected | server.js:585-600 | The socket's user record goes. Its account's session goes only if it still points at this socket. |
| Sessions.DisconnectIsStaleSafe | server.js:590-595 | A late disconnect never ends a session held by another socket. |
| Sessions.DisconnectIdempotent | server.js:585-600 | A second disconnect changes and emits nothing. |
| Sessions.Evicted | server.js:246-258 | Replacing a socket drops its user record. A live socket is also disconnected. |
| Sessions.EvictingClosedSocketKeepsSessions | server.js:246-258 | Evicting a closed socket leaves its stale session entry in place. |
| Sessions.JoinRefusalFor | server.js:231-243 | A join is refused as "invalid user" exactly when the name test fails. It is refused as "room full" exactly when the name passes, two sessions exist, and the name holds none of them. |
| Sessions.Displaced | server.js:246-248 | Definition of the socket a join replaces: another socket holding the name. |
| Sessions.Joined | server.js:245-269 | Definition of an accepted join's presence; its properties are stated by `JoinedRegisters` and `RejoinKeepsSession`. |
| Sessions.OnlyInvalidNamesRefused | server.js:231-243 | With only account names as session keys, only invalid names are refused. |
| Sessions.JoinedRegisters | server.js:245-269 | After a join, the account's session is the joining socket and its user record names the account. Other sessions survive unless the evicted socket held them. |
| Sessions.RejoinKeepsSession | server.js:246-261 | A socket joining again under its own session evicts nobody. |
| ChatTypes.DelayMs | server.js:360 | setTimeout's delay: inside 1..2^31-1 ms it is the given delay, otherwise (NaN included) 1 ms. |
| ChatServer.ArmOnSend | server.js:352-366 | A fixed-delay send arms a removal timer at send time + `DelayMs` of the delay in milliseconds, so within 1..2^31-1 ms. Other timers are kept, and a "read_N" send arms none. |
| ChatServer.SendDeadlineMatchesRestart | server.js:353-364 | A send with a delay of d seconds arms removal at send time + d·1000 ms. A later restart that finds the message without a timer before then arms it for the same deadline. |
| ChatServer.SendKeepsLog | server.js:331-364 | A send keeps ids increasing and below the counter, every timer attached to a message, and the log settled. |
| ChatServer.EditKeepsLog | server.js:522-535 | An edit keeps ids, their bound, the timers' attachment and the settled log. |
| ChatServer.DeliveredKeepsLog | server.js:369-372 | The delivered mark keeps ids, their bound, the timers' attachment and the settled log. |
| ChatServer.NewMessage | server.js:331-345 | Definition of the record a send stores: not delivered, read, edited or deleted, with `replyTo` defaulted to null. |
| ChatServer.MarkDelivered | server.js:369-372 | Definition of the delivered mark; its properties are stated by `MarkDeliveredOnlyFlag`. |
| ChatServer.MarkDeliveredOnlyFlag | server.js:368-372 | The delivered step sets one flag on that message and nothing else. |
| ChatServer.ChatServer.constructor | server.js:26-30 | The server starts with empty maps and an empty log. |
| ChatServer.ChatServer.Tick | server.js:84 | `Date.now()` advances by the given amount, and nothing else changes. |
| ChatServer.ChatServer.Connect | server.js:223 | A new connection is open, and no session, user or message changes. |
| ChatServer.ChatServer.CheckRateLimit | server.js:83-98 | Returns the verdict, and updates the table as `AfterCheck` says. |
| ChatServer.ChatServer.RecordLoginAttempt | server.js:100-113 | Updates the table as `AfterAttempt` says. |
| ChatServer.ChatServer.Login | server.js:116-202 | 400 on a missing field and 429 while locked out. Otherwise success exactly when the typed name matches an account and the password matches, else 401. The table takes one rate-limit round. A successful login evicts the account's previous socket. |
| ChatServer.ChatServer.Disconnect | server.js:585-600 | Presence becomes `Disconnected`, and the user list is broadcast if the socket had joined. |
| ChatServer.ChatServer.Evict | server.js:154-166 | Presence becomes `Evicted`, with force-logout for a live socket. |
| ChatServer.ChatServer.DeleteMessage | server.js:614-637 | The log, timers and events become those of `MessageLog.DeleteMessage`. |
| ChatServer.ChatServer.Fire | server.js:360-362 | A due removal timer hard-deletes its message and removes exactly that id. |
| ChatServer.ChatServer.Deliver | server.js:368-372 | A due delivered timer sets the flag if the message is still there, and always emits the status. |
| ChatServer.ChatServer.Send | server.js:327-373 | A joined socket appends a fresh message, broadcasts it, arms its timer as `ArmOnSend` says, and schedules delivery 100 ms on. A socket that has not joined changes nothing. The same holds for image (376-416) and voice (419-458). |
| ChatServer.ChatServer.MarkOneRead | server.js:482-515 | One id of a read request, as `MessageLog.ReadOne` says. |
| ChatServer.ChatServer.MessagesRead | server.js:473-519 | The log and timers become `ReadAll` of the ids, then every id is echoed. A socket that has not joined changes nothing. |
| ChatServer.ChatServer.EditMessage | server.js:522-535 | The log becomes `Edit`'s result, with message-edited, when the edit applies. Otherwise nothing changes. |
| ChatServer.ChatServer.DeleteRequest | server.js:538-543 | The author soft-deletes. Anyone else changes nothing. |
| ChatServer.ChatServer.ClearChat | server.js:546-553 | Empties the log and the removal timers and emits chat-cleared. |
| ChatServer.ChatServer.Visit | server.js:278-320 | One callback of the restart loop, done in place, equals one step of the corrected pass. |
| ChatServer.ChatServer.RestartTimers | server.js:278-320 | The log, timers and events become those of the corrected pass `Reconciled`. On a settled log they are unchanged. |
| ChatServer.ChatServer.Join | server.js:227-324 | A refused join gets an error and is disconnected. An accepted one evicts another socket of the account, registers, gets the log, and has timers restarted as `Reconciled` says, which leaves the settled log and timers unchanged. Then the user list is broadcast. |
| ChatServer.ChatServer.Refuse | server.js:231-243 | The error is sent and the socket disconnected. |
| ChatServer.ChatServer.Register | server.js:245-269 | Presence becomes `Joined`, with the eviction's events. |

## Left out

- Express routes, static files, CORS, multer and the upload endpoint are not modelled: they carry no chat state.
- bcrypt is not modelled. The password check is the parameter `passwordMatches` of `Login`. A missing hash and bcrypt throwing (the 500 response) are not modelled.
- The socket.io transport is not modelled. Events are appended to one list, whether broadcast or sent to one socket.
- Timers run only when `Fire` or `Deliver` is called. The order in which due timers fire is not modelled.
- Times are whole milliseconds and delays whole seconds. Fractional seconds and floating-point rounding in remaining times are not modelled.
- Message ids come from a counter, not `Date.now() + Math.random()`. This makes them unique and increasing. `parseFloat` of string ids in messages-read is not modelled.
- The typing, profile-picture and disappearing-settings relays are not modelled: they only forward data.
- Logging, environment-variable overrides of the constants, and the startup check of the hashes are not modelled.
- `toLowerCase` is modelled on ASCII letters only.
- `parseInt` and `Number` are modelled on optional-sign-then-digits strings. Other strings give NaN; whitespace, decimals and exponents are not modelled.
- ChatServer.ChatServer.Login: one login is one atomic step, check then record. The server awaits `bcrypt.compare` (server.js:146) between `checkRateLimit` (129) and `recordLoginAttempt` (150, 177). Requests from one address that overlap across that await are not modelled; `RateLimit.OverlappingFailuresPassLimit` shows what they do to the count.
- RateLimit.RoundKeepsCountBounded: the bound of 5 holds only for requests that do not overlap across the await. With k requests in flight the count can reach 4 + k.
- ChatServer.ChatServer.Join: uses the corrected account test `Login.IsValidUser`, so a join under an inherited property name such as "toString" is refused, where server.js:232 admits and registers it (first row of Findings).
- Sessions.JoinRefusalFor: refuses with the corrected test for the same reason, so it states the refusals of the corrected server, not of server.js:231-243 as written.
- The handlers do not require the socket to be in `connected`. socket.io only delivers events from open sockets; the model does not state this.
- Sessions.UserList: the broadcast user list is a set, so the insertion order of `users` is not modelled.
- public/script.js and git-setup.js are not part of this model.

## Findings

| source | as written | input that shows it | evidently intended | confidence | as-written member | corrected member |
|---|---|---|---|---|---|---|
| server.js:232 | `validUsers[username]` is a property read on a plain object, so inherited names such as "toString" pass as accounts. Two such sockets then fill the room against a real account. | user-join with username "toString", then "valueOf", then "Pavi" | only "Pavi" and "Manu" may join | not executed | Login.IsValidUserAsWritten | Login.IsValidUser |
| server.js:278-320 | `messages.forEach` with `deleteMessage(id, true)` splicing the current element shifts the next message into the visited slot, so it is skipped. An expired successor stays in the log without a timer. | two "read_1" messages from Pavi; Manu sends messages-read with each id wrapped in an array (`[[a], [b]]`) at time 0, so `==` (485) marks both read while the timers are keyed by the arrays (509) and their `deleteMessage` never matches; a join at 5000 ms finds both pending and expired. With number or string ids the log stays settled and the skip cannot show | every message visited once, all expired ones removed | not executed | Reconcile.WalkAsWritten | Reconcile.Reconciled |
| server.js:129-187 | The login route checks the limit, then awaits the password comparison, then records the outcome. Failures that overlap across the await all pass the rate-limit check, so the count passes 5 and more guesses get through. | an address with 4 failures sends two logins with the right username and wrong passwords before either comparison finishes | at most 5 failed guesses per cooldown | not executed | RateLimit.RecordFailures | RateLimit.Round |

For the first row, `Login.PrototypeNameAdmitted` and `Login.RoomFullReachableAsWritten` exhibit the defect, and `Login.RoomFullUnreachable` proves the corrected test. For the second row, `Reconcile.WalkSkipsSuccessor` and `Reconcile.SkipExampleDiffers` exhibit it, and `Reconcile.ReconciledSettles` and `Reconcile.ReconcileIdempotent` prove the corrected pass. The defect is latent under the handlers modelled here, which keep ids as numbers: `Reconcile.SettledAfterRead`, `Reconcile.SettledAfterDelete` and `ChatServer.SendKeepsLog` keep the log settled, and `Reconcile.SettledWalkUntouched` shows the written loop changes nothing on a settled log. For the third row, `RateLimit.OverlappingFailuresPassLimit` exhibits the defect, and `RateLimit.RoundKeepsCountBounded` proves the bound for a round that checks and records in one step. The server model uses the corrected members.
