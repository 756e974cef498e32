/**
 * Join-time reconciliation of disappearing-message timers: every message
 * that should disappear and has no timer yet is either armed for what is
 * left of its budget or, when nothing is left, removed at once.
 *
 * Two passes are defined. WalkAsWritten follows the server's loop, a
 * `messages.forEach` whose callback may `splice` the current element out,
 * so the element after a removed one is never visited in that pass.
 * Reconciled visits every message once; the server model uses it.
 *
 * Every log the handlers leave is settled: nothing in it is left to arm or
 * remove, and on such a log both passes change nothing. The two differ only
 * on a log holding messages left to schedule.
 */
module Reconcile {
  import opened ChatTypes
  import opened MessageLog

  datatype Action = Keep | Arm(deadline: int) | Expire

  /** The message still has to be scheduled: it disappears, is not deleted
      and has no timer. */
  predicate Pending(m: Message, tm: map<Id, int>) {
    m.disappearing && !m.disappear.NoTimer? && !m.deleted && m.id !in tm
  }

  /** Milliseconds left of a budget of `secs` seconds counted from `anchor`
      (`remainingTime * 1000` in the server); NaN stays NaN. */
  function RemainingMs(secs: JsNumber, anchor: int, now: int): JsNumber {
    match secs
    case Num(d) => Num(d * 1000 - (now - anchor))
    case NaN => NaN
  }

  /** `if (remainingTime > 0)` arm a timer for the rest, else remove now. */
  function ArmOrExpire(rem: JsNumber, now: int): Action {
    if rem.Num? && rem.value > 0 then Arm(now + DelayMs(rem)) else Expire
  }

  /** What reconciliation does with one message, given the timers so far. */
  function ReconcileAction(m: Message, now: int, tm: map<Id, int>): Action {
    if !Pending(m, tm) then Keep
    else
      match m.disappear
      case AfterRead(n) =>
        if m.read && m.readAt.Some? then ArmOrExpire(RemainingMs(n, m.readAt.value, now), now)
        else Keep
      case Fixed(d) => ArmOrExpire(RemainingMs(d, m.timestamp, now), now)
  }

  /** A message sent with a delay of `d` seconds is re-armed at the deadline
      it was given when sent, or removed once that deadline has passed. */
  lemma FixedKeepsSendDeadline(m: Message, now: int, tm: map<Id, int>, d: int)
    requires Pending(m, tm) && m.disappear == Fixed(Num(d)) && m.timestamp <= now
    requires d * 1000 <= 0x7FFF_FFFF
    ensures now < m.timestamp + d * 1000 ==>
      ReconcileAction(m, now, tm) == Arm(m.timestamp + DelayMs(Num(d * 1000)))
    ensures m.timestamp + d * 1000 <= now ==> ReconcileAction(m, now, tm) == Expire
  {
  }

  /** A "read_N" message that has been read is re-armed at its read time
      plus N seconds, or removed once that has passed. */
  lemma AfterReadKeepsReadDeadline(m: Message, now: int, tm: map<Id, int>, n: int)
    requires Pending(m, tm) && m.disappear == AfterRead(Num(n)) && m.read && m.readAt.Some?
    requires m.readAt.value <= now && n * 1000 <= 0x7FFF_FFFF
    ensures now < m.readAt.value + n * 1000 ==>
      ReconcileAction(m, now, tm) == Arm(m.readAt.value + DelayMs(Num(n * 1000)))
    ensures m.readAt.value + n * 1000 <= now ==> ReconcileAction(m, now, tm) == Expire
  {
  }

  /** Only pending messages are touched, and an unread "read_N" message is
      left alone however much time has passed. */
  lemma OnlyPendingTouched(m: Message, now: int, tm: map<Id, int>)
    ensures ReconcileAction(m, now, tm) != Keep ==> Pending(m, tm)
    ensures m.disappear.AfterRead? && !m.read ==> ReconcileAction(m, now, tm) == Keep
    ensures m.id in tm ==> ReconcileAction(m, now, tm) == Keep
  {
  }

  /** The corrected pass: each message of the log is visited once, in
      order. Expired messages are removed with a `message-disappeared` event;
      the others are kept, some with a new timer. */
  function Reconciled(ms: seq<Message>, tm: map<Id, int>, now: int): Log {
    if ms == [] then Log([], tm, [])
    else
      var p := Reconciled(ms[..|ms| - 1], tm, now);
      var m := ms[|ms| - 1];
      match ReconcileAction(m, now, p.timers)
      case Keep => Log(p.messages + [m], p.timers, p.emitted)
      case Arm(d) => Log(p.messages + [m], p.timers[m.id := d], p.emitted)
      case Expire => Log(p.messages, p.timers, p.emitted + [MessageDisappeared(m.id)])
  }

  /** The ids the pass has visited are the ids of `ms`; timers it adds are
      for those ids only. */
  lemma {:induction false} ReconciledTimers(ms: seq<Message>, tm: map<Id, int>, now: int)
    ensures var r := Reconciled(ms, tm, now);
      && (forall x :: x in tm ==> x in r.timers && r.timers[x] == tm[x])
      && (forall x :: x in r.timers ==> x in tm || x in IdSet(ms))
  {
    if ms != [] {
      var pre := ms[..|ms| - 1];
      ReconciledTimers(pre, tm, now);
      assert IdSet(pre) <= IdSet(ms) by {
        forall x | x in IdSet(pre) ensures x in IdSet(ms) {
          var i :| 0 <= i < |pre| && pre[i].id == x;
          assert ms[i].id == x;
        }
      }
      assert ms[|ms| - 1].id in IdSet(ms);
    }
  }

  /** The action on a message depends on the timer table only through
      whether it holds the message's id. */
  lemma ActionDependsOnOwnTimer(m: Message, now: int, t1: map<Id, int>, t2: map<Id, int>)
    requires m.id in t1 <==> m.id in t2
    ensures ReconcileAction(m, now, t1) == ReconcileAction(m, now, t2)
  {
  }

  lemma IdSetPrefix(ms: seq<Message>, n: nat)
    requires n <= |ms|
    ensures IdSet(ms[..n]) <= IdSet(ms)
  {
    forall x | x in IdSet(ms[..n]) ensures x in IdSet(ms) {
      var i :| 0 <= i < n && ms[..n][i].id == x;
      assert ms[i].id == x;
    }
  }

  /** With unique ids, the last message of the log is not among the ids the
      pass has already scheduled, so it is handled as the original table says. */
  lemma {:induction false} LastActionUnchanged(ms: seq<Message>, tm: map<Id, int>, now: int)
    requires IdsIncreasing(ms) && ms != []
    ensures var m := ms[|ms| - 1];
      ReconcileAction(m, now, Reconciled(ms[..|ms| - 1], tm, now).timers) == ReconcileAction(m, now, tm)
  {
    var pre, m := ms[..|ms| - 1], ms[|ms| - 1];
    ReconciledTimers(pre, tm, now);
    assert m.id !in IdSet(pre) by {
      forall i | 0 <= i < |pre| ensures pre[i].id != m.id {
        assert ms[i].id < ms[|ms| - 1].id;
      }
    }
    ActionDependsOnOwnTimer(m, now, Reconciled(pre, tm, now).timers, tm);
  }

  /** The pass keeps exactly the messages that have not expired, in order. */
  lemma {:induction false} ReconciledKeeps(ms: seq<Message>, tm: map<Id, int>, now: int)
    requires IdsIncreasing(ms)
    ensures var r := Reconciled(ms, tm, now);
      && (forall m :: m in r.messages <==> m in ms && ReconcileAction(m, now, tm) != Expire)
      && IdsIncreasing(r.messages)
  {
    if ms != [] {
      var pre, m := ms[..|ms| - 1], ms[|ms| - 1];
      ReconciledKeeps(pre, tm, now);
      LastActionUnchanged(ms, tm, now);
      var p := Reconciled(pre, tm, now);
      assert forall x :: x in ms <==> x in pre || x == m;
      forall k | 0 <= k < |p.messages| ensures p.messages[k].id < m.id {
        var x := p.messages[k];
        assert x in p.messages;
        var i :| 0 <= i < |pre| && pre[i] == x;
        assert ms[i].id < ms[|ms| - 1].id;
      }
      if ReconcileAction(m, now, tm) == Expire {
        assert m !in p.messages;
      }
    }
  }

  /** The pass arms exactly the messages whose action is Arm, at that
      deadline, and keeps every timer that was there. */
  lemma {:induction false} ReconciledArms(ms: seq<Message>, tm: map<Id, int>, now: int)
    requires IdsIncreasing(ms)
    ensures var r := Reconciled(ms, tm, now);
      && (forall i :: 0 <= i < |ms| && ReconcileAction(ms[i], now, tm).Arm? ==>
            ms[i].id in r.timers && r.timers[ms[i].id] == ReconcileAction(ms[i], now, tm).deadline)
      && (forall x :: x in r.timers ==>
            (x in tm && r.timers[x] == tm[x])
            || (exists i :: 0 <= i < |ms| && ms[i].id == x && ReconcileAction(ms[i], now, tm).Arm?))
  {
    if ms != [] {
      var pre, m := ms[..|ms| - 1], ms[|ms| - 1];
      ReconciledArms(pre, tm, now);
      LastActionUnchanged(ms, tm, now);
      var p := Reconciled(pre, tm, now);
      assert forall i :: 0 <= i < |pre| ==> pre[i] == ms[i];
      forall i | 0 <= i < |pre| ensures pre[i].id != m.id {
        assert ms[i].id < ms[|ms| - 1].id;
      }
    }
  }

  /** After the corrected pass nothing is left to schedule: every kept
      message is either not pending or has a timer, so a second pass at the
      same instant does nothing. */
  lemma {:induction false} ReconciledSettles(ms: seq<Message>, tm: map<Id, int>, now: int)
    requires IdsIncreasing(ms)
    ensures forall m :: m in Reconciled(ms, tm, now).messages ==>
      ReconcileAction(m, now, Reconciled(ms, tm, now).timers) == Keep
  {
    ReconciledKeeps(ms, tm, now);
    ReconciledArms(ms, tm, now);
    ReconciledTimers(ms, tm, now);
    var r := Reconciled(ms, tm, now);
    forall m | m in r.messages ensures ReconcileAction(m, now, r.timers) == Keep {
      var i :| 0 <= i < |ms| && ms[i] == m;
      if ReconcileAction(m, now, tm).Arm? {
        assert m.id in r.timers;
      } else {
        ActionDependsOnOwnTimer(m, now, r.timers, tm);
      }
    }
  }

  /** A pass over a log with nothing left to schedule changes nothing. */
  lemma {:induction false} SettledIsFixpoint(ms: seq<Message>, tm: map<Id, int>, now: int)
    requires forall m :: m in ms ==> ReconcileAction(m, now, tm) == Keep
    ensures Reconciled(ms, tm, now) == Log(ms, tm, [])
  {
    if ms != [] {
      var pre := ms[..|ms| - 1];
      assert forall m :: m in pre ==> m in ms;
      SettledIsFixpoint(pre, tm, now);
      assert pre + [ms[|ms| - 1]] == ms;
    }
  }

  /** Reconciling twice at the same instant is reconciling once. */
  lemma ReconcileIdempotent(ms: seq<Message>, tm: map<Id, int>, now: int)
    requires IdsIncreasing(ms)
    ensures var r := Reconciled(ms, tm, now);
      Reconciled(r.messages, r.timers, now) == Log(r.messages, r.timers, [])
  {
    ReconciledSettles(ms, tm, now);
    var r := Reconciled(ms, tm, now);
    SettledIsFixpoint(r.messages, r.timers, now);
  }

  /** A message the restart leaves alone at every instant: it is not
      pending, or it is a "read_N" message nobody has read yet. */
  predicate Settled(m: Message, tm: map<Id, int>) {
    Pending(m, tm) ==> m.disappear.AfterRead? && !(m.read && m.readAt.Some?)
  }

  /** No message of the log is left for the restart to arm or remove. */
  predicate LogSettled(ms: seq<Message>, tm: map<Id, int>) {
    forall m :: m in ms ==> Settled(m, tm)
  }

  /** On a settled log the restart changes nothing, at any instant. */
  lemma SettledLogUntouched(ms: seq<Message>, tm: map<Id, int>, now: int)
    requires LogSettled(ms, tm)
    ensures Reconciled(ms, tm, now) == Log(ms, tm, [])
  {
    assert forall m :: m in ms ==> ReconcileAction(m, now, tm) == Keep;
    SettledIsFixpoint(ms, tm, now);
  }

  /** On a settled log the loop as written changes nothing either: the skip
      shows only on a log that holds a message left to schedule. */
  lemma {:induction false} SettledWalkUntouched(ms: seq<Message>, tm: map<Id, int>, now: int, k: nat, len0: nat)
    requires LogSettled(ms, tm)
    ensures WalkAsWritten(ms, tm, now, k, len0) == Log(ms, tm, [])
    decreases len0 - k
  {
    if k < len0 {
      if k < |ms| {
        assert ms[k] in ms;
      }
      assert VisitAt(ms, tm, now, k) == Log(ms, tm, []);
      SettledWalkUntouched(ms, tm, now, k + 1, len0);
    }
  }

  /** The fields the restart looks at are the same in both records. */
  predicate SameSchedule(a: Message, b: Message) {
    && a.id == b.id && a.disappearing == b.disappearing && a.disappear == b.disappear
    && a.deleted == b.deleted && a.read == b.read && a.readAt == b.readAt
  }

  /** Changing fields the restart does not look at (text, edit and delivery
      marks) keeps a log settled. */
  lemma SettledBySchedule(a: seq<Message>, b: seq<Message>, tm: map<Id, int>)
    requires LogSettled(a, tm) && |a| == |b|
    requires forall j :: 0 <= j < |a| ==> SameSchedule(a[j], b[j])
    ensures LogSettled(b, tm)
  {
    forall m | m in b ensures Settled(m, tm) {
      var j :| 0 <= j < |b| && b[j] == m;
      assert a[j] in a;
    }
  }

  /** deleteMessage keeps a log settled: the hard path removes a message and
      its timer only, the soft path marks the message deleted. */
  lemma SettledAfterDelete(ms: seq<Message>, tm: map<Id, int>, id: Id, hard: bool, now: int)
    requires IdsIncreasing(ms) && LogSettled(ms, tm)
    ensures var r := DeleteMessage(ms, tm, id, hard, now);
      LogSettled(r.messages, r.timers)
  {
    var r := DeleteMessage(ms, tm, id, hard, now);
    if id in IdSet(ms) {
      var k := IndexOf(ms, id).value;
      if hard {
        HardDeleteRemovesExactly(ms, tm, id, now);
      } else {
        forall m | m in r.messages ensures Settled(m, r.timers) {
          var j :| 0 <= j < |r.messages| && r.messages[j] == m;
          if j != k {
            assert ms[j] in ms;
          }
        }
      }
    }
  }

  /** One message of a read request stays settled when the timers only
      grow and a "read_N" message it marks gets its timer. */
  lemma ReadEffectSettled(m: Message, tm: map<Id, int>, rt: map<Id, int>, ids: seq<Id>, reader: SocketId, now: int)
    requires Settled(m, tm) && tm.Keys <= rt.Keys
    requires m.id in ids && ArmsOnRead(m, reader) ==> m.id in rt
    ensures Settled(ReadEffect(m, ids, reader, now), rt)
  {
  }

  /** With unique ids, a listed "read_N" message by someone else is armed
      by the read request. */
  lemma ArmedByRead(ms: seq<Message>, ids: seq<Id>, reader: SocketId, now: int, j: nat)
    requires IdsIncreasing(ms) && j < |ms| && ms[j].id in ids && ArmsOnRead(ms[j], reader)
    ensures ms[j].id in ReadTimers(ms, ids, reader, now)
  {
    ReadTimersKeys(ms, ids, reader, now);
    assert IndexOf(ms, ms[j].id) == Some(j);
  }

  /** A read request keeps a log settled: every "read_N" message it marks
      read by someone else gets its timer in the same request, and timers
      are only added. */
  lemma SettledAfterRead(ms: seq<Message>, tm: map<Id, int>, ids: seq<Id>, reader: SocketId, now: int)
    requires IdsIncreasing(ms) && LogSettled(ms, tm)
    ensures var r := ReadAll(ms, tm, ids, reader, now);
      LogSettled(r.messages, r.timers)
  {
    var r := ReadAll(ms, tm, ids, reader, now);
    ReadAllEffect(ms, tm, ids, reader, now);
    forall m | m in r.messages ensures Settled(m, r.timers) {
      var j :| 0 <= j < |r.messages| && r.messages[j] == m;
      assert ms[j] in ms;
      if ms[j].id in ids && ArmsOnRead(ms[j], reader) {
        ArmedByRead(ms, ids, reader, now, j);
      }
      ReadEffectSettled(ms[j], tm, r.timers, ids, reader, now);
    }
  }

  /** In the middle of the corrected pass the log is the part already kept
      followed by the part not yet visited; removing the next message there
      removes exactly that message and touches no timer. */
  lemma ExpireInPlace(ms: seq<Message>, tm: map<Id, int>, now: int, i: nat)
    requires IdsIncreasing(ms) && i < |ms|
    requires ReconcileAction(ms[i], now, Reconciled(ms[..i], tm, now).timers) == Expire
    ensures var r := Reconciled(ms[..i], tm, now);
      DeleteMessage(r.messages + ms[i..], r.timers, ms[i].id, true, now)
        == Log(r.messages + ms[i + 1..], r.timers, [MessageDisappeared(ms[i].id)])
  {
    var pre := ms[..i];
    var r := Reconciled(pre, tm, now);
    var s := r.messages + ms[i..];
    var n := |r.messages|;
    ReconciledKeeps(pre, tm, now);
    forall j | 0 <= j < n ensures r.messages[j].id != ms[i].id {
      assert r.messages[j] in r.messages;
      var t :| 0 <= t < |pre| && pre[t] == r.messages[j];
      assert ms[t].id < ms[i].id;
    }
    FoundAfterPrefix(r.messages, ms[i..], ms[i].id);
    assert r.timers - {ms[i].id} == r.timers;
  }

  /** The corrected pass over the first `n` messages, counted rather than
      sliced. */
  function PassUpTo(ms: seq<Message>, tm: map<Id, int>, now: int, n: nat): Log
    requires n <= |ms|
  {
    if n == 0 then Log([], tm, [])
    else
      var p := PassUpTo(ms, tm, now, n - 1);
      var m := ms[n - 1];
      match ReconcileAction(m, now, p.timers)
      case Keep => Log(p.messages + [m], p.timers, p.emitted)
      case Arm(d) => Log(p.messages + [m], p.timers[m.id := d], p.emitted)
      case Expire => Log(p.messages, p.timers, p.emitted + [MessageDisappeared(m.id)])
  }

  /** Counting the first `n` messages is slicing them off. */
  lemma {:induction false} PassUpToIsReconciled(ms: seq<Message>, tm: map<Id, int>, now: int, n: nat)
    requires n <= |ms|
    ensures PassUpTo(ms, tm, now, n) == Reconciled(ms[..n], tm, now)
  {
    if n > 0 {
      PassUpToIsReconciled(ms, tm, now, n - 1);
      assert ms[..n][..n - 1] == ms[..n - 1];
    }
  }

  /** Counted over the whole log, the pass is the corrected reconciliation. */
  lemma PassUpToAll(ms: seq<Message>, tm: map<Id, int>, now: int)
    ensures PassUpTo(ms, tm, now, |ms|) == Reconciled(ms, tm, now)
  {
    PassUpToIsReconciled(ms, tm, now, |ms|);
    assert ms[..|ms|] == ms;
  }

  /** One step of the corrected pass done in place on the log "kept so far,
      then not yet visited": a kept message stays where it is and the index
      moves on, an expired one is removed by deleteMessage and the index
      stays. */
  lemma PassInPlace(ms: seq<Message>, tm: map<Id, int>, now: int, i: nat, p: Log) returns (q: Log)
    requires IdsIncreasing(ms) && i < |ms| && p == PassUpTo(ms, tm, now, i)
    ensures q == PassUpTo(ms, tm, now, i + 1)
    ensures (p.messages + ms[i..])[|p.messages|] == ms[i]
    ensures var m := ms[i];
      var a := ReconcileAction(m, now, p.timers);
      && (!a.Expire? ==>
            && q.messages + ms[i + 1..] == p.messages + ms[i..]
            && |q.messages| == |p.messages| + 1
            && q.emitted == p.emitted
            && q.timers == if a.Arm? then p.timers[m.id := a.deadline] else p.timers)
      && (a.Expire? ==>
            var del := DeleteMessage(p.messages + ms[i..], p.timers, m.id, true, now);
            && q.messages + ms[i + 1..] == del.messages
            && |q.messages| == |p.messages|
            && q.timers == del.timers
            && q.emitted == p.emitted + del.emitted)
  {
    q := PassUpTo(ms, tm, now, i + 1);
    assert ms[i..] == [ms[i]] + ms[i + 1..];
    if ReconcileAction(ms[i], now, p.timers).Expire? {
      PassUpToIsReconciled(ms, tm, now, i);
      ExpireInPlace(ms, tm, now, i);
    } else {
      assert q.messages == p.messages + [ms[i]];
      assert p.messages + ms[i..] == q.messages + ms[i + 1..];
    }
  }

  /** The pass keeps the log's bookkeeping: ids stay increasing and below any
      bound they were below, and every timer belongs to a message still in
      the log. */
  lemma ReconciledConsistent(ms: seq<Message>, tm: map<Id, int>, now: int, bound: int)
    requires IdsIncreasing(ms) && tm.Keys <= IdSet(ms)
    requires forall i :: 0 <= i < |ms| ==> ms[i].id < bound
    ensures var r := Reconciled(ms, tm, now);
      && IdsIncreasing(r.messages)
      && (forall i :: 0 <= i < |r.messages| ==> r.messages[i].id < bound)
      && r.timers.Keys <= IdSet(r.messages)
  {
    ReconciledKeeps(ms, tm, now);
    ReconciledTimersInLog(ms, tm, now);
    var r := Reconciled(ms, tm, now);
    forall i | 0 <= i < |r.messages| ensures r.messages[i].id < bound {
      assert r.messages[i] in r.messages;
    }
  }

  /** Every timer left by the pass belongs to a message it kept. */
  lemma ReconciledTimersInLog(ms: seq<Message>, tm: map<Id, int>, now: int)
    requires IdsIncreasing(ms) && tm.Keys <= IdSet(ms)
    ensures var r := Reconciled(ms, tm, now);
      r.timers.Keys <= IdSet(r.messages)
  {
    ReconciledKeeps(ms, tm, now);
    ReconciledArms(ms, tm, now);
    var r := Reconciled(ms, tm, now);
    forall x | x in r.timers ensures x in IdSet(r.messages) {
      var i: nat;
      if x in tm && r.timers[x] == tm[x] {
        i :| 0 <= i < |ms| && ms[i].id == x;
      } else {
        i :| 0 <= i < |ms| && ms[i].id == x && ReconcileAction(ms[i], now, tm).Arm?;
      }
      assert ReconcileAction(ms[i], now, tm) != Expire;
      assert ms[i] in ms;
      assert ms[i] in r.messages;
      var k :| 0 <= k < |r.messages| && r.messages[k] == ms[i];
    }
  }

  /** The server's loop: `messages.forEach` over the length it had when the
      loop began, where removing the current element with `splice` moves the
      next one into the visited slot. */
  function WalkAsWritten(ms: seq<Message>, tm: map<Id, int>, now: int, k: nat, len0: nat): Log
    decreases len0 - k
  {
    if k >= len0 then Log(ms, tm, [])
    else
      var v := VisitAt(ms, tm, now, k);
      var rest := WalkAsWritten(v.messages, v.timers, now, k + 1, len0);
      Log(rest.messages, rest.timers, v.emitted + rest.emitted)
  }

  /** The callback at index `k`; `forEach` skips an index the log no longer
      reaches. */
  function VisitAt(ms: seq<Message>, tm: map<Id, int>, now: int, k: nat): Log {
    if k >= |ms| then Log(ms, tm, [])
    else
      match ReconcileAction(ms[k], now, tm)
      case Keep => Log(ms, tm, [])
      case Arm(d) => Log(ms, tm[ms[k].id := d], [])
      case Expire => DeleteMessage(ms, tm, ms[k].id, true, now)
  }

  /** One callback keeps ids increasing and leaves the log before `k` alone. */
  lemma VisitKeepsPrefix(ms: seq<Message>, tm: map<Id, int>, now: int, k: nat)
    requires IdsIncreasing(ms)
    ensures var v := VisitAt(ms, tm, now, k).messages;
      && IdsIncreasing(v)
      && (forall j :: 0 <= j < k && j < |ms| ==> j < |v| && v[j] == ms[j])
  {
    if k < |ms| && ReconcileAction(ms[k], now, tm).Expire? {
      HardDeleteAt(ms, tm, now, k);
    }
  }

  /** The walk never changes the part of the log before its index. */
  lemma {:induction false} WalkKeepsVisitedPrefix(ms: seq<Message>, tm: map<Id, int>, now: int, k: nat, len0: nat, j: nat)
    requires IdsIncreasing(ms) && j < k && j < |ms|
    ensures var w := WalkAsWritten(ms, tm, now, k, len0).messages;
      j < |w| && w[j] == ms[j]
    decreases len0 - k
  {
    if k < len0 {
      var v := VisitAt(ms, tm, now, k);
      VisitKeepsPrefix(ms, tm, now, k);
      WalkKeepsVisitedPrefix(v.messages, v.timers, now, k + 1, len0, j);
    }
  }

  /** With unique ids the hard delete of the message at `k` removes index `k`. */
  lemma HardDeleteAt(ms: seq<Message>, tm: map<Id, int>, now: int, k: nat)
    requires IdsIncreasing(ms) && k < |ms|
    ensures var del := DeleteMessage(ms, tm, ms[k].id, true, now).messages;
      && del == RemoveAt(ms, k)
      && IdsIncreasing(del)
      && (forall j :: 0 <= j < k ==> del[j] == ms[j])
  {
    var x := IndexOf(ms, ms[k].id);
    assert x.Some? && x.value <= k;
    assert forall i :: 0 <= i < k ==> ms[i].id < ms[k].id;
    RemoveAtKeepsOthers(ms, k);
  }

  /** The skip: when the message at a visited index k expires, the splice
      moves its successor into slot k and the walk goes on at k + 1, so the
      successor is never visited and stays in the log, even when it has
      expired as well. */
  lemma WalkSkipsSuccessor(ms: seq<Message>, tm: map<Id, int>, now: int, k: nat, len0: nat)
    requires IdsIncreasing(ms) && k + 1 < |ms| && k < len0
    requires ReconcileAction(ms[k], now, tm) == Expire
    ensures ms[k + 1] in WalkAsWritten(ms, tm, now, k, len0).messages
  {
    var v := VisitAt(ms, tm, now, k);
    HardDeleteAt(ms, tm, now, k);
    RemoveAtKeepsOthers(ms, k);
    assert v.messages[k] == ms[k + 1];
    WalkKeepsVisitedPrefix(v.messages, v.timers, now, k + 1, len0, k);
  }

  /** Two "read_1" text messages, both read at time 0, with no timer under
      their ids. The handlers modelled here never leave such a log (a read
      arms the timer under the message's id), but the server reaches it
      when a messages-read request wraps each id in an array: `==` still
      finds the message, while the timer is stored under the array. */
  function SkipExample(): seq<Message> {
    var m := Message(1, "Pavi", "socket-a", 0, Some("hi"), TextBody(None),
                     false, true, Some(0), false, None, false, None, true, AfterRead(Num(1)));
    [m, m.(id := 2)]
  }

  /** At 5 seconds both have expired: the corrected pass removes both, the
      loop as written leaves the second one in the log with no timer. */
  lemma SkipExampleDiffers()
    ensures Reconciled(SkipExample(), map[], 5000).messages == []
    ensures var w := WalkAsWritten(SkipExample(), map[], 5000, 0, 2);
      SkipExample()[1] in w.messages && ReconcileAction(SkipExample()[1], 5000, w.timers) == Expire
  {
    var ms := SkipExample();
    assert ms[..1][..0] == [];
    assert Reconciled(ms[..1], map[], 5000).messages == [];
    WalkSkipsSuccessor(ms, map[], 5000, 0, 2);
    var del := DeleteMessage(ms, map[], 1, true, 5000);
    assert IndexOf(ms, 1) == Some(0);
    assert del.timers == map[];
    assert VisitAt(ms, map[], 5000, 0) == del;
  }
}
