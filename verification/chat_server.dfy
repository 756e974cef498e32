/**
 * The chat server's state and its handlers: the login endpoint, the
 * socket events (user-join, chat/image/voice messages, messages-read,
 * edit-message, delete-message, clear-chat, disconnect) and the timers that
 * remove disappearing messages and mark messages delivered.
 *
 * Time is the field `now` (milliseconds), advanced by Tick. A timer is an
 * entry of `timers` (removal) or `deliveries` (the delivered mark) holding
 * its deadline; Fire and Deliver run one that is due. What the server
 * emits is appended to `events`.
 */
module ChatServer {
  import opened ChatTypes
  import opened DisappearTime
  import opened MessageLog
  import opened Reconcile
  import opened RateLimit
  import opened Login
  import opened Sessions

  /** The answer of the login endpoint: 400, 429, 401 or success. */
  datatype LoginResult =
    | BadRequest
    | TooManyAttempts(minutesLeft: int)
    | Unauthorized
    | LoggedIn(username: string, chatPartner: string)

  datatype JoinOutcome = JoinAccepted | JoinDenied(reason: JoinRefusal)

  /** The body of a chat-message, image-message or voice-message event. */
  datatype Outgoing =
    | TextMsg(text: Option<string>, replyTo: Option<string>)
    | ImageMsg(imageData: string, imageName: string)
    | VoiceMsg(voiceData: string, duration: int)

  /** `data.replyTo || null`. */
  function OrNull(s: Option<string>): Option<string> {
    if s == Some("") then None else s
  }

  /** The record a send event stores, before any delivery, read, edit or
      deletion. */
  function NewMessage(id: Id, author: string, sid: SocketId, now: int, o: Outgoing,
                      disappearing: bool, d: Disappear): Message {
    var text := if o.TextMsg? then o.text else None;
    var payload := match o
      case TextMsg(_, r) => TextBody(OrNull(r))
      case ImageMsg(data, name) => ImageBody(data, name)
      case VoiceMsg(data, secs) => VoiceBody(data, secs)
    ;
    Message(id, author, sid, now, text, payload, false, false, None, false, None, false, None, disappearing, d)
  }

  /** A message sent to disappear a fixed time after sending gets its
      removal timer at once, clamped as setTimeout clamps it; a "read_N"
      one waits for its read. */
  function ArmOnSend(tm: map<Id, int>, m: Message, now: int): (r: map<Id, int>)
    ensures r.Keys == if m.disappearing && m.disappear.Fixed? then tm.Keys + {m.id} else tm.Keys
    ensures forall x :: x in tm && x != m.id ==> r[x] == tm[x]
    ensures m.id in r && m.id !in tm ==> now + 1 <= r[m.id] <= now + 0x7FFF_FFFF
    ensures m.disappearing && m.disappear.Fixed? ==> r[m.id] == now + DelayMs(ToMs(m.disappear.secs))
  {
    if m.disappearing && m.disappear.Fixed? then tm[m.id := now + DelayMs(ToMs(m.disappear.secs))] else tm
  }

  /** A message sent at `now` with a delay of `d` seconds is removed at
      `now + d * 1000`, and the timer restart of a later join, finding it
      without a timer before that moment, arms it for the same deadline. */
  lemma SendDeadlineMatchesRestart(tm: map<Id, int>, m: Message, now: int, d: int, later: int)
    requires m.disappearing && m.disappear == Fixed(Num(d)) && m.timestamp == now
    requires 1 <= d * 1000 <= 0x7FFF_FFFF
    ensures ArmOnSend(tm, m, now)[m.id] == m.timestamp + d * 1000
    ensures !m.deleted && m.id !in tm && now <= later < m.timestamp + d * 1000 ==>
      ReconcileAction(m, later, tm) == Arm(ArmOnSend(tm, m, now)[m.id])
  {
  }

  /** A send keeps the log's bookkeeping. Ids stay increasing and below the
      advanced counter, and every timer belongs to a message. The log stays
      settled: a message that disappears a fixed time after sending is armed
      at once, and a "read_N" one is not read yet. */
  lemma SendKeepsLog(ms: seq<Message>, tm: map<Id, int>, m: Message, next: Id, now: int)
    requires IdsIncreasing(ms) && forall i :: 0 <= i < |ms| ==> ms[i].id < next
    requires tm.Keys <= IdSet(ms) && LogSettled(ms, tm)
    requires m.id == next && !m.read
    ensures var r, tr := ms + [m], ArmOnSend(tm, m, now);
      && IdsIncreasing(r) && m.id !in IdSet(ms)
      && (forall i :: 0 <= i < |r| ==> r[i].id < next + 1)
      && tr.Keys <= IdSet(r) && LogSettled(r, tr)
  {
    AppendNextId(ms, m, next);
    var tr := ArmOnSend(tm, m, now);
    forall x | x in ms + [m] ensures Settled(x, tr) {
      if x != m {
        assert x in ms;
      }
    }
  }

  /** The 100 ms step of a send: `message.delivered = true` on the record,
      if it is still in the log. */
  function MarkDelivered(ms: seq<Message>, id: Id): seq<Message> {
    match IndexOf(ms, id)
    case Some(k) => ms[k := ms[k].(delivered := true)]
    case None => ms
  }

  /** The delivered step sets one flag on the message with that id and
      changes nothing else. */
  lemma MarkDeliveredOnlyFlag(ms: seq<Message>, id: Id)
    requires IdsIncreasing(ms)
    ensures var r := MarkDelivered(ms, id);
      && |r| == |ms| && IdsIncreasing(r) && IdSet(r) == IdSet(ms)
      && forall j :: 0 <= j < |ms| ==>
           r[j] == if ms[j].id == id then ms[j].(delivered := true) else ms[j]
  {
    match IndexOf(ms, id)
    case Some(k) =>
      IdSetUpdate(ms, k, ms[k].(delivered := true));
    case None =>
      assert forall j :: 0 <= j < |ms| ==> ms[j].id in IdSet(ms);
  }

  /** The delivered mark keeps the log's bookkeeping: ids, their bound,
      the timers' attachment and nothing left to schedule. */
  lemma DeliveredKeepsLog(ms: seq<Message>, tm: map<Id, int>, id: Id, bound: int)
    requires IdsIncreasing(ms) && tm.Keys <= IdSet(ms) && LogSettled(ms, tm)
    requires forall i :: 0 <= i < |ms| ==> ms[i].id < bound
    ensures var r := MarkDelivered(ms, id);
      && IdsIncreasing(r) && tm.Keys <= IdSet(r) && LogSettled(r, tm)
      && forall i :: 0 <= i < |r| ==> r[i].id < bound
  {
    MarkDeliveredOnlyFlag(ms, id);
    var r := MarkDelivered(ms, id);
    assert forall i :: 0 <= i < |r| ==> r[i].id == ms[i].id;
    SettledBySchedule(ms, r, tm);
  }

  /** An edit keeps the log's bookkeeping: ids, their bound, the timers'
      attachment and the settled log. */
  lemma EditKeepsLog(ms: seq<Message>, tm: map<Id, int>, sid: SocketId, id: Id, newText: string, now: int, bound: int)
    requires IdsIncreasing(ms) && tm.Keys <= IdSet(ms) && LogSettled(ms, tm)
    requires forall i :: 0 <= i < |ms| ==> ms[i].id < bound
    requires Edit(ms, sid, id, newText, now).Some?
    ensures var r := Edit(ms, sid, id, newText, now).value;
      && IdsIncreasing(r) && tm.Keys <= IdSet(r) && LogSettled(r, tm)
      && forall i :: 0 <= i < |r| ==> r[i].id < bound
  {
    EditOnlyByAuthor(ms, sid, id, newText, now);
    var r := Edit(ms, sid, id, newText, now).value;
    var k := FindOwned(ms, id, sid).value;
    IdSetUpdate(ms, k, r[k]);
    assert r == ms[k := r[k]];
    SettledBySchedule(ms, r, tm);
  }

  class ChatServer {
    var now: int
    var nextId: nat
    var messages: seq<Message>
    /** `disappearingMessages`: message id to the deadline of its removal. */
    var timers: map<Id, int>
    /** Message id to the deadline of its delivered mark. */
    var deliveries: map<Id, int>
    var events: seq<Event>
    var activeSessions: map<string, SocketId>
    var users: map<SocketId, User>
    /** The sockets socket.io holds open. */
    var connected: set<SocketId>
    var loginAttempts: map<string, Attempt>

    ghost predicate Valid()
      reads this
    {
      && IdsIncreasing(messages)
      && (forall i :: 0 <= i < |messages| ==> messages[i].id < nextId)
      && timers.Keys <= IdSet(messages)
      && LogSettled(messages, timers)
      && activeSessions.Keys <= ValidNameSet
      && (forall ip :: ip in loginAttempts ==> loginAttempts[ip].count <= MaxLoginAttempts)
    }

    ghost function CurrentPresence(): Presence
      reads this
    {
      Presence(activeSessions, users, connected)
    }

    /** Only the message log, the timers and the events may have changed. */
    twostate predicate OnlyLogChanged()
      reads this
    {
      && now == old(now) && nextId == old(nextId) && deliveries == old(deliveries)
      && activeSessions == old(activeSessions) && users == old(users)
      && connected == old(connected) && loginAttempts == old(loginAttempts)
    }

    /** Only who is present and the events may have changed. */
    twostate predicate OnlyPresenceChanged()
      reads this
    {
      && now == old(now) && nextId == old(nextId) && messages == old(messages)
      && timers == old(timers) && deliveries == old(deliveries) && loginAttempts == old(loginAttempts)
    }

    constructor(t0: int)
      ensures Valid()
      ensures now == t0 && nextId == 0 && messages == [] && timers == map[] && deliveries == map[]
      ensures events == [] && activeSessions == map[] && users == map[] && connected == {}
      ensures loginAttempts == map[]
    {
      now, nextId, messages, timers, deliveries := t0, 0, [], map[], map[];
      events, activeSessions, users, connected, loginAttempts := [], map[], map[], {}, map[];
    }

    /** The clock advances. */
    method Tick(dt: nat)
      requires Valid()
      modifies this
      ensures Valid()
      ensures now == old(now) + dt
      ensures messages == old(messages) && timers == old(timers) && events == old(events)
      ensures nextId == old(nextId) && deliveries == old(deliveries)
      ensures CurrentPresence() == old(CurrentPresence()) && loginAttempts == old(loginAttempts)
    {
      now := now + dt;
    }

    /** socket.io accepts a connection. */
    method Connect(sid: SocketId)
      requires Valid()
      modifies this
      ensures Valid()
      ensures connected == old(connected) + {sid}
      ensures activeSessions == old(activeSessions) && users == old(users)
      ensures OnlyPresenceChanged() && events == old(events)
    {
      connected := connected + {sid};
    }

    /** checkRateLimit: the verdict, and the in-place reset of a stored
        record whose cooldown has run out. */
    method CheckRateLimit(ip: string) returns (v: Verdict)
      modifies this
      ensures v == CheckVerdict(old(loginAttempts), ip, now)
      ensures loginAttempts == AfterCheck(old(loginAttempts), ip, now)
      ensures now == old(now) && nextId == old(nextId) && messages == old(messages)
      ensures timers == old(timers) && deliveries == old(deliveries) && events == old(events)
      ensures CurrentPresence() == old(CurrentPresence())
    {
      var a := if ip in loginAttempts then loginAttempts[ip] else Attempt(0, 0);
      if now - a.lastAttempt > LoginCooldown {
        a := a.(count := 0);
        if ip in loginAttempts {
          loginAttempts := loginAttempts[ip := a];
        }
      }
      if a.count >= MaxLoginAttempts {
        v := Refused(CeilDiv(LoginCooldown - (now - a.lastAttempt), 60000));
      } else {
        v := Allowed;
      }
    }

    /** recordLoginAttempt. */
    method RecordLoginAttempt(ip: string, success: bool)
      modifies this
      ensures loginAttempts == AfterAttempt(old(loginAttempts), ip, success, now)
      ensures now == old(now) && nextId == old(nextId) && messages == old(messages)
      ensures timers == old(timers) && deliveries == old(deliveries) && events == old(events)
      ensures CurrentPresence() == old(CurrentPresence())
    {
      if success {
        loginAttempts := loginAttempts - {ip};
      } else {
        var a := if ip in loginAttempts then loginAttempts[ip] else Attempt(0, 0);
        loginAttempts := loginAttempts[ip := Attempt(a.count + 1, now)];
      }
    }

    /** The 'disconnect' handler of `sid`, with the socket closed. */
    method Disconnect(sid: SocketId)
      requires Valid()
      modifies this
      ensures Valid()
      ensures CurrentPresence() == Disconnected(old(CurrentPresence()), sid)
      ensures events == old(events) + DisconnectEvents(old(CurrentPresence()), sid)
      ensures OnlyPresenceChanged()
    {
      connected := connected - {sid};
      if sid in users {
        var user := users[sid];
        if user.username in activeSessions && activeSessions[user.username] == sid {
          activeSessions := activeSessions - {user.username};
        }
        users := users - {sid};
        events := events + [UserListUpdate(UserList(users))];
      }
    }

    /** Replace the socket `gone` of an account that logs in or joins again:
        a live socket is sent force-logout and disconnected, and its user
        record is dropped. */
    method Evict(gone: SocketId)
      requires Valid()
      modifies this
      ensures Valid()
      ensures CurrentPresence() == Evicted(old(CurrentPresence()), gone)
      ensures events == old(events) + EvictEvents(old(CurrentPresence()), gone)
      ensures OnlyPresenceChanged()
    {
      if gone in connected {
        events := events + [ForceLogout(gone)];
        Disconnect(gone);
      }
      users := users - {gone};
    }

    /** POST /login. `passwordMatches(password, name)` stands for comparing
        the password with the stored hash of account `name`. */
    method Login(username: string, password: string, ip: string,
                 passwordMatches: (string, string) -> bool) returns (result: LoginResult)
      requires Valid()
      modifies this
      ensures Valid()
      ensures username == [] || password == [] ==>
        result == BadRequest && loginAttempts == old(loginAttempts)
        && CurrentPresence() == old(CurrentPresence()) && events == old(events)
      ensures username != [] && password != [] ==>
        var v := CheckVerdict(old(loginAttempts), ip, now);
        var name := MatchUsername(username);
        var ok := v.Allowed? && name.Some? && passwordMatches(password, name.value);
        && loginAttempts == Round(old(loginAttempts), ip, now, ok)
        && result == (if v.Refused? then TooManyAttempts(v.minutesLeft)
                      else if ok then LoggedIn(name.value, Partner(name.value).value)
                      else Unauthorized)
        && (if ok && name.value in old(activeSessions) then
              && CurrentPresence() == Evicted(old(CurrentPresence()), old(activeSessions)[name.value])
              && events == old(events) + EvictEvents(old(CurrentPresence()), old(activeSessions)[name.value])
            else CurrentPresence() == old(CurrentPresence()) && events == old(events))
      ensures now == old(now) && nextId == old(nextId) && messages == old(messages)
      ensures timers == old(timers) && deliveries == old(deliveries)
    {
      if username == [] || password == [] {
        return BadRequest;
      }
      var v := CheckRateLimit(ip);
      if v.Refused? {
        RefusalKeepsRecord(old(loginAttempts), ip, now, false);
        return TooManyAttempts(v.minutesLeft);
      }
      var name := MatchUsername(username);
      if name.Some? && passwordMatches(password, name.value) {
        RecordLoginAttempt(ip, true);
        var partner := Partner(name.value).value;
        if name.value in activeSessions {
          Evict(activeSessions[name.value]);
        }
        result := LoggedIn(name.value, partner);
      } else {
        RecordLoginAttempt(ip, false);
        result := Unauthorized;
      }
      RoundKeepsCountBounded(old(loginAttempts), ip, now, result.LoggedIn?);
    }

    /** deleteMessage(id, hard). */
    method DeleteMessage(id: Id, hard: bool)
      modifies this
      ensures var r := MessageLog.DeleteMessage(old(messages), old(timers), id, hard, now);
        messages == r.messages && timers == r.timers && events == old(events) + r.emitted
      ensures OnlyLogChanged()
    {
      var k := IndexOf(messages, id);
      if k.Some? {
        var i := k.value;
        if hard {
          messages := messages[..i] + messages[i + 1..];
          events := events + [MessageDisappeared(id)];
        } else {
          messages := messages[i := messages[i].(deleted := true, deletedAt := Some(now))];
          events := events + [MessageDeleted(id)];
        }
        timers := timers - {id};
      }
    }

    /** A removal timer that is due runs `deleteMessage(id, true)`. */
    method Fire(id: Id)
      requires Valid()
      modifies this
      ensures Valid()
      ensures var due := id in old(timers) && old(timers)[id] <= now;
        && (due ==>
              var r := MessageLog.DeleteMessage(old(messages), old(timers), id, true, now);
              messages == r.messages && timers == r.timers && events == old(events) + r.emitted
              && IdSet(messages) == IdSet(old(messages)) - {id})
        && (!due ==> messages == old(messages) && timers == old(timers) && events == old(events))
      ensures OnlyLogChanged()
    {
      if id in timers && timers[id] <= now {
        HardDeleteRemovesExactly(messages, timers, id, now);
        DeleteKeepsConsistent(messages, timers, id, true, now, nextId);
        SettledAfterDelete(messages, timers, id, true, now);
        DeleteMessage(id, true);
      }
    }

    /** The delivered timer of a send that is due: the message, if still
        there, is marked delivered, and the status update is emitted either
        way. */
    method Deliver(id: Id)
      requires Valid()
      modifies this
      ensures Valid()
      ensures var due := id in old(deliveries) && old(deliveries)[id] <= now;
        && (due ==>
              messages == MarkDelivered(old(messages), id) && deliveries == old(deliveries) - {id}
              && events == old(events) + [StatusDelivered(id)])
        && (!due ==> messages == old(messages) && deliveries == old(deliveries) && events == old(events))
      ensures now == old(now) && nextId == old(nextId) && timers == old(timers)
      ensures CurrentPresence() == old(CurrentPresence()) && loginAttempts == old(loginAttempts)
    {
      if id in deliveries && deliveries[id] <= now {
        DeliveredKeepsLog(messages, timers, id, nextId);
        messages := MarkDelivered(messages, id);
        deliveries := deliveries - {id};
        events := events + [StatusDelivered(id)];
      }
    }

    /** chat-message, image-message and voice-message: a sender that has
        joined appends a fresh message, broadcasts it, arms its removal
        timer when it disappears a fixed time after sending, and schedules
        its delivered mark 100 ms on. */
    method Send(sid: SocketId, o: Outgoing, disappearing: bool, disappearTime: DisappearInput)
      requires Valid()
      modifies this
      ensures Valid()
      ensures old(sid !in users) ==>
        messages == old(messages) && timers == old(timers) && events == old(events)
        && nextId == old(nextId) && deliveries == old(deliveries)
      ensures old(sid in users) ==>
        var m := NewMessage(old(nextId), old(users)[sid].username, sid, now, o,
                            disappearing, ParseDisappear(disappearTime));
        && messages == old(messages) + [m]
        && m.id !in IdSet(old(messages))
        && nextId == old(nextId) + 1
        && events == old(events) + [MessageReceived(m)]
        && deliveries == old(deliveries)[m.id := now + 100]
        && timers == ArmOnSend(old(timers), m, now)
      ensures now == old(now) && CurrentPresence() == old(CurrentPresence())
      ensures loginAttempts == old(loginAttempts)
    {
      if sid !in users {
        return;
      }
      var t, id := now, nextId;
      var d := ParseDisappear(disappearTime);
      var m := NewMessage(id, users[sid].username, sid, t, o, disappearing, d);
      SendKeepsLog(messages, timers, m, id, t);
      messages := messages + [m];
      nextId := id + 1;
      events := events + [MessageReceived(m)];
      timers := ArmOnSend(timers, m, t);
      deliveries := deliveries[id := t + 100];
    }

    /** The callback of messages-read for one id: a message by someone else
        is marked read, and a "read_N" one gets a timer N seconds on,
        replacing any it had. */
    method MarkOneRead(sid: SocketId, id: Id)
      modifies this
      ensures Log(messages, timers, []) == ReadOne(old(messages), old(timers), id, sid, now)
      ensures |messages| == |old(messages)| && events == old(events)
      ensures forall j :: 0 <= j < |messages| ==> messages[j].id == old(messages)[j].id
      ensures IdsIncreasing(old(messages)) ==> IdsIncreasing(messages) && IdSet(messages) == IdSet(old(messages))
      ensures timers.Keys <= old(timers).Keys + IdSet(old(messages))
      ensures OnlyLogChanged()
    {
      var k := IndexOf(messages, id);
      if k.Some? && messages[k.value].userId != sid {
        var m := MarkRead(messages[k.value], now);
        IdSetUpdate(messages, k.value, m);
        messages := messages[k.value := m];
        if ArmsOnRead(m, sid) {
          timers := timers[id := ReadDeadline(m, now)];
        }
      }
    }

    /** messages-read from a socket that has joined: each listed message by
        someone else is marked read, and a "read_N" one gets a fresh timer;
        then all the ids are echoed. */
    method MessagesRead(sid: SocketId, ids: seq<Id>)
      requires Valid()
      modifies this
      ensures Valid()
      ensures old(sid !in users) ==>
        messages == old(messages) && timers == old(timers) && events == old(events)
      ensures old(sid in users) ==>
        var r := ReadAll(old(messages), old(timers), ids, sid, now);
        messages == r.messages && timers == r.timers && events == old(events) + [ReadUpdate(ids)]
      ensures OnlyLogChanged()
    {
      if sid !in users {
        return;
      }
      ghost var ms0, tm0 := messages, timers;
      var i := 0;
      while i < |ids|
        invariant 0 <= i <= |ids|
        invariant Log(messages, timers, []) == ReadAll(ms0, tm0, ids[..i], sid, now)
        invariant |messages| == |ms0| && IdsIncreasing(messages) && IdSet(messages) == IdSet(ms0)
        invariant forall j :: 0 <= j < |messages| ==> messages[j].id == ms0[j].id
        invariant timers.Keys <= IdSet(ms0)
        invariant events == old(events)
        invariant OnlyLogChanged()
      {
        MarkOneRead(sid, ids[i]);
        ReadAllStep(ms0, tm0, ids, i, sid, now);
        i := i + 1;
      }
      assert ids[..i] == ids;
      SettledAfterRead(ms0, tm0, ids, sid, now);
      events := events + [ReadUpdate(ids)];
    }

    /** edit-message: only the author's socket may edit, and not a deleted
        message. */
    method EditMessage(sid: SocketId, id: Id, newText: string)
      requires Valid()
      modifies this
      ensures Valid()
      ensures Edit(old(messages), sid, id, newText, now).None? ==>
        messages == old(messages) && events == old(events)
      ensures Edit(old(messages), sid, id, newText, now).Some? ==>
        messages == Edit(old(messages), sid, id, newText, now).value
        && events == old(events) + [MessageEdited(id, newText, now)]
      ensures timers == old(timers) && OnlyLogChanged()
    {
      var e := Edit(messages, sid, id, newText, now);
      if e.Some? {
        EditKeepsLog(messages, timers, sid, id, newText, now, nextId);
        messages := e.value;
        events := events + [MessageEdited(id, newText, now)];
      }
    }

    /** delete-message: the author's socket soft-deletes its message. */
    method DeleteRequest(sid: SocketId, id: Id)
      requires Valid()
      modifies this
      ensures Valid()
      ensures FindOwned(old(messages), id, sid).Some? ==>
        var r := MessageLog.DeleteMessage(old(messages), old(timers), id, false, now);
        messages == r.messages && timers == r.timers && events == old(events) + r.emitted
      ensures FindOwned(old(messages), id, sid).None? ==>
        messages == old(messages) && timers == old(timers) && events == old(events)
      ensures OnlyLogChanged()
    {
      var k := FindOwned(messages, id, sid);
      if k.Some? {
        DeleteKeepsConsistent(messages, timers, id, false, now, nextId);
        SettledAfterDelete(messages, timers, id, false, now);
        DeleteMessage(id, false);
      }
    }

    /** clear-chat: any socket empties the log and cancels every removal
        timer; the delivered timers still run. */
    method ClearChat()
      requires Valid()
      modifies this
      ensures Valid()
      ensures messages == [] && timers == map[] && events == old(events) + [ChatCleared]
      ensures OnlyLogChanged()
    {
      messages := [];
      timers := map[];
      events := events + [ChatCleared];
    }

    /** One visit of the timer restart: the message at index `k` is kept,
        given a timer, or removed in place. */
    method Visit(k: nat, ghost ms0: seq<Message>, ghost tm0: map<Id, int>, ghost e0: seq<Event>,
                 ghost i: nat, ghost done: Log) returns (k': nat, ghost next: Log)
      requires IdsIncreasing(ms0) && i < |ms0| && done == PassUpTo(ms0, tm0, now, i)
      requires k == |done.messages| <= |messages|
      requires messages[..k] == done.messages && messages[k..] == ms0[i..]
      requires timers == done.timers && events == e0 + done.emitted
      modifies this
      ensures next == PassUpTo(ms0, tm0, now, i + 1)
      ensures k' == |next.messages| <= |messages|
      ensures messages[..k'] == next.messages && messages[k'..] == ms0[i + 1..]
      ensures timers == next.timers && events == e0 + next.emitted
      ensures OnlyLogChanged()
    {
      assert messages == done.messages + ms0[i..];
      next := PassInPlace(ms0, tm0, now, i, done);
      var m := messages[k];
      var a := ReconcileAction(m, now, timers);
      if a.Keep? {
        k' := k + 1;
      } else if a.Arm? {
        timers := timers[m.id := a.deadline];
        k' := k + 1;
      } else {
        DeleteMessage(m.id, true);
        k' := k;
      }
      assert messages == next.messages + ms0[i + 1..];
    }

    /** The timer restart of user-join, visiting every message of the log
        once: an expired one is removed where it stands and the next one
        is visited at the same index. */
    method RestartTimers()
      requires IdsIncreasing(messages)
      modifies this
      ensures var r := Reconciled(old(messages), old(timers), now);
        messages == r.messages && timers == r.timers && events == old(events) + r.emitted
      ensures old(LogSettled(messages, timers)) ==>
        messages == old(messages) && timers == old(timers) && events == old(events)
      ensures OnlyLogChanged()
    {
      ghost var ms0, tm0, e0 := messages, timers, events;
      ghost var i := 0;
      ghost var done := PassUpTo(ms0, tm0, now, 0);
      var k := 0;
      while k < |messages|
        invariant 0 <= i <= |ms0|
        invariant done == PassUpTo(ms0, tm0, now, i)
        invariant k == |done.messages| <= |messages|
        invariant messages[..k] == done.messages && messages[k..] == ms0[i..]
        invariant timers == done.timers && events == e0 + done.emitted
        invariant OnlyLogChanged()
        decreases |ms0| - i
      {
        k, done := Visit(k, ms0, tm0, e0, i, done);
        i := i + 1;
      }
      PassUpToAll(ms0, tm0, now);
      if LogSettled(ms0, tm0) {
        SettledLogUntouched(ms0, tm0, now);
      }
    }

    /** user-join. The name is checked, the room limit applied, any other
        socket of the account evicted and the session registered; the
        joining socket gets the log, removal timers are restarted, and the
        user list is broadcast. A refused socket is disconnected. */
    method Join(sid: SocketId, requested: string, requestedPartner: string) returns (outcome: JoinOutcome)
      requires Valid()
      modifies this
      ensures Valid()
      ensures var name := JoinName(requested, sid);
        var p0 := old(CurrentPresence());
        var refusal := JoinRefusalFor(p0, name);
        && (refusal.Some? ==>
              && outcome == JoinDenied(refusal.value)
              && CurrentPresence() == Disconnected(p0, sid)
              && events == old(events) + [JoinError(sid, refusal.value)] + DisconnectEvents(p0, sid)
              && messages == old(messages) && timers == old(timers))
        && (refusal.None? ==>
              var evicted := match Displaced(p0, sid, name)
                case Some(gone) => EvictEvents(p0, gone)
                case None => [];
              var r := Reconciled(old(messages), old(timers), now);
              && outcome == JoinAccepted
              && CurrentPresence() == Joined(p0, sid, name, JoinPartner(requestedPartner), now)
              && messages == r.messages && timers == r.timers
              && messages == old(messages) && timers == old(timers)
              && events == old(events) + evicted + [LoadMessages(sid, old(messages))] + r.emitted
                 + [UserListUpdate(UserList(users))])
      ensures now == old(now) && nextId == old(nextId) && deliveries == old(deliveries)
      ensures loginAttempts == old(loginAttempts)
    {
      var name := JoinName(requested, sid);
      var partner := JoinPartner(requestedPartner);
      if !IsValidUser(name) {
        Refuse(sid, InvalidUser);
        return JoinDenied(InvalidUser);
      }
      if |activeSessions.Keys| >= 2 && name !in activeSessions {
        Refuse(sid, RoomFull);
        return JoinDenied(RoomFull);
      }
      Register(sid, name, partner);
      events := events + [LoadMessages(sid, messages)];
      RestartTimers();
      events := events + [UserListUpdate(UserList(users))];
      outcome := JoinAccepted;
    }

    /** A refused join: the socket gets an error and is disconnected. */
    method Refuse(sid: SocketId, reason: JoinRefusal)
      requires Valid()
      modifies this
      ensures Valid()
      ensures CurrentPresence() == Disconnected(old(CurrentPresence()), sid)
      ensures events == old(events) + [JoinError(sid, reason)] + DisconnectEvents(old(CurrentPresence()), sid)
      ensures OnlyPresenceChanged()
    {
      events := events + [JoinError(sid, reason)];
      Disconnect(sid);
    }

    /** An accepted join's bookkeeping: another socket holding the account
        is evicted, then the session and the user record are set. */
    method Register(sid: SocketId, name: string, partner: Option<string>)
      requires Valid() && IsValidUser(name)
      modifies this
      ensures Valid()
      ensures CurrentPresence() == Joined(old(CurrentPresence()), sid, name, partner, now)
      ensures events == old(events) + match Displaced(old(CurrentPresence()), sid, name)
        case Some(gone) => EvictEvents(old(CurrentPresence()), gone)
        case None => []
      ensures OnlyPresenceChanged()
    {
      JoinedRegisters(CurrentPresence(), sid, name, partner, now);
      if name in activeSessions && activeSessions[name] != sid {
        Evict(activeSessions[name]);
      }
      activeSessions := activeSessions[name := sid];
      users := users[sid := User(sid, name, partner, true, now)];
    }
  }
}
