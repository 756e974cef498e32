/**
 * The message log as values: lookups by id, and what deleteMessage, an
 * edit and a read do to the log and to the timer table. The server class
 * performs these steps in place and is specified by these functions.
 */
module MessageLog {
  import opened ChatTypes

  /** Ids grow along the log: messages are appended with fresh, larger ids
      and only ever removed, so the log is ordered by id and ids are unique. */
  predicate IdsIncreasing(ms: seq<Message>) {
    forall i, j :: 0 <= i < j < |ms| ==> ms[i].id < ms[j].id
  }

  function IdSet(ms: seq<Message>): set<Id> {
    set i | 0 <= i < |ms| :: ms[i].id
  }

  /** `messages.find(m => m.id === id)`, as an index. */
  function IndexOf(ms: seq<Message>, id: Id): (r: Option<nat>)
    ensures r.Some? ==> r.value < |ms| && ms[r.value].id == id
    ensures r.Some? ==> forall j :: 0 <= j < r.value ==> ms[j].id != id
    ensures r.None? <==> id !in IdSet(ms)
  {
    if ms == [] then None
    else if ms[0].id == id then Some(0)
    else
      match IndexOf(ms[1..], id)
      case None =>
        assert IdSet(ms) == {ms[0].id} + IdSet(ms[1..]) by {
          forall x | x in IdSet(ms) ensures x in {ms[0].id} + IdSet(ms[1..]) {
            var i :| 0 <= i < |ms| && ms[i].id == x;
            if i > 0 { assert ms[1..][i - 1].id == x; }
          }
        }
        None
      case Some(k) =>
        assert ms[1..][k] == ms[k + 1];
        Some(k + 1)
  }

  /** `messages.find(m => m.id === id && m.userId === sid)`: the lookup that
      edit-message and delete-message use, as an index. */
  function FindOwned(ms: seq<Message>, id: Id, sid: SocketId): (r: Option<nat>)
    ensures r.Some? ==> r.value < |ms| && ms[r.value].id == id && ms[r.value].userId == sid
    ensures r.None? ==> forall j :: 0 <= j < |ms| ==> !(ms[j].id == id && ms[j].userId == sid)
  {
    if ms == [] then None
    else if ms[0].id == id && ms[0].userId == sid then Some(0)
    else
      match FindOwned(ms[1..], id, sid)
      case None =>
        assert forall j :: 1 <= j < |ms| ==> ms[j] == ms[1..][j - 1];
        None
      case Some(k) => Some(k + 1)
  }

  /** With unique ids, the owned lookup is the plain lookup followed by an
      author check on the socket id. */
  lemma FindOwnedIsAuthorCheck(ms: seq<Message>, id: Id, sid: SocketId)
    requires IdsIncreasing(ms)
    ensures FindOwned(ms, id, sid).Some? <==> IndexOf(ms, id).Some? && ms[IndexOf(ms, id).value].userId == sid
    ensures FindOwned(ms, id, sid).Some? ==> FindOwned(ms, id, sid) == IndexOf(ms, id)
  {
    var f := FindOwned(ms, id, sid);
    if f.Some? {
      assert id in IdSet(ms);
    }
  }

  function RemoveAt(ms: seq<Message>, k: nat): seq<Message>
    requires k < |ms|
  {
    ms[..k] + ms[k + 1..]
  }

  /** An id first met right after a prefix that lacks it is found there,
      and removing that entry splices the prefix onto the rest. */
  lemma FoundAfterPrefix(a: seq<Message>, b: seq<Message>, id: Id)
    requires b != [] && b[0].id == id
    requires forall j :: 0 <= j < |a| ==> a[j].id != id
    ensures IndexOf(a + b, id) == Some(|a|)
    ensures RemoveAt(a + b, |a|) == a + b[1..]
  {
    var s := a + b;
    assert s[|a|].id == id;
    assert id in IdSet(s);
    assert forall j :: 0 <= j < |a| ==> s[j] == a[j];
    assert s[..|a|] == a && s[|a| + 1..] == b[1..];
  }

  /** `deleteMessage(id, hard)`: an unknown id does nothing; otherwise the
      hard path removes the message and emits `message-disappeared`, the soft
      path marks it deleted in place and emits `message-deleted`, and both
      drop any timer for the id. */
  function DeleteMessage(ms: seq<Message>, tm: map<Id, int>, id: Id, hard: bool, now: int): Log {
    match IndexOf(ms, id)
    case None => Log(ms, tm, [])
    case Some(k) =>
      if hard then Log(RemoveAt(ms, k), tm - {id}, [MessageDisappeared(id)])
      else Log(ms[k := ms[k].(deleted := true, deletedAt := Some(now))], tm - {id}, [MessageDeleted(id)])
  }

  lemma DeleteUnknownIsNoop(ms: seq<Message>, tm: map<Id, int>, id: Id, hard: bool, now: int)
    requires id !in IdSet(ms)
    ensures DeleteMessage(ms, tm, id, hard, now) == Log(ms, tm, [])
  {
  }

  /** Removing one entry keeps the others, in order. */
  lemma RemoveAtKeepsOthers(ms: seq<Message>, k: nat)
    requires IdsIncreasing(ms) && k < |ms|
    ensures var r := RemoveAt(ms, k);
      && |r| == |ms| - 1
      && IdsIncreasing(r)
      && (forall m :: m in r <==> m in ms && m.id != ms[k].id)
  {
    var r := RemoveAt(ms, k);
    assert forall j :: 0 <= j < k ==> r[j] == ms[j];
    assert forall j :: k <= j < |r| ==> r[j] == ms[j + 1];
    forall m | m in ms && m.id != ms[k].id ensures m in r {
      var j :| 0 <= j < |ms| && ms[j] == m;
      if j < k { assert r[j] == m; } else { assert r[j - 1] == m; }
    }
  }

  lemma RemoveAtIdSet(ms: seq<Message>, k: nat)
    requires IdsIncreasing(ms) && k < |ms|
    ensures IdSet(RemoveAt(ms, k)) == IdSet(ms) - {ms[k].id}
  {
    var r := RemoveAt(ms, k);
    assert forall j :: 0 <= j < k ==> r[j] == ms[j];
    assert forall j :: k <= j < |r| ==> r[j] == ms[j + 1];
    forall x | x in IdSet(ms) - {ms[k].id} ensures x in IdSet(r) {
      var j :| 0 <= j < |ms| && ms[j].id == x;
      if j < k { assert r[j].id == x; } else { assert r[j - 1].id == x; }
    }
  }

  /** The hard path removes exactly the message with that id and keeps the
      others; since the log stays ordered by id, their order is kept too. */
  lemma HardDeleteRemovesExactly(ms: seq<Message>, tm: map<Id, int>, id: Id, now: int)
    requires IdsIncreasing(ms) && id in IdSet(ms)
    ensures var r := DeleteMessage(ms, tm, id, true, now);
      && |r.messages| == |ms| - 1
      && IdsIncreasing(r.messages)
      && (forall m :: m in r.messages <==> m in ms && m.id != id)
      && IdSet(r.messages) == IdSet(ms) - {id}
      && r.timers == tm - {id}
      && r.emitted == [MessageDisappeared(id)]
  {
    var k := IndexOf(ms, id).value;
    RemoveAtKeepsOthers(ms, k);
    RemoveAtIdSet(ms, k);
  }

  /** The soft path keeps the message in place, payload and text included,
      and only sets its deleted flag and time; it does not refuse a message
      that is already deleted. */
  lemma SoftDeleteKeepsInPlace(ms: seq<Message>, tm: map<Id, int>, id: Id, now: int)
    requires id in IdSet(ms)
    ensures var r := DeleteMessage(ms, tm, id, false, now);
      && |r.messages| == |ms|
      && (forall j :: 0 <= j < |ms| && ms[j].id != id ==> r.messages[j] == ms[j])
      && (forall j :: 0 <= j < |ms| && ms[j].id == id && j == IndexOf(ms, id).value ==>
            r.messages[j].deleted && r.messages[j].deletedAt == Some(now)
            && r.messages[j].payload == ms[j].payload && r.messages[j].text == ms[j].text
            && r.messages[j] == ms[j].(deleted := true, deletedAt := Some(now)))
      && IdSet(r.messages) == IdSet(ms)
      && r.timers == tm - {id}
      && r.emitted == [MessageDeleted(id)]
  {
    var k := IndexOf(ms, id).value;
    IdSetUpdate(ms, k, ms[k].(deleted := true, deletedAt := Some(now)));
  }

  lemma IdSetUpdate(ms: seq<Message>, k: nat, m: Message)
    requires k < |ms| && m.id == ms[k].id
    ensures IdSet(ms[k := m]) == IdSet(ms)
    ensures IdsIncreasing(ms) ==> IdsIncreasing(ms[k := m])
  {
    var r := ms[k := m];
    assert forall j :: 0 <= j < |ms| ==> r[j].id == ms[j].id;
    assert IdSet(r) == IdSet(ms) by {
      forall x | x in IdSet(ms) ensures x in IdSet(r) {
        var j :| 0 <= j < |ms| && ms[j].id == x;
        assert r[j].id == x;
      }
    }
  }

  /** Appending a message with the next id keeps ids increasing and below
      the advanced counter, and the new id was not in the log before. */
  lemma AppendNextId(ms: seq<Message>, m: Message, next: Id)
    requires IdsIncreasing(ms) && forall i :: 0 <= i < |ms| ==> ms[i].id < next
    requires m.id == next
    ensures IdsIncreasing(ms + [m]) && m.id !in IdSet(ms)
    ensures forall i :: 0 <= i < |ms + [m]| ==> (ms + [m])[i].id < next + 1
    ensures IdSet(ms + [m]) == IdSet(ms) + {m.id}
  {
    IdSetAppend(ms, m);
  }

  lemma IdSetAppend(ms: seq<Message>, m: Message)
    ensures IdSet(ms + [m]) == IdSet(ms) + {m.id}
  {
    var r := ms + [m];
    assert r[|ms|].id == m.id;
    forall x | x in IdSet(ms) ensures x in IdSet(r) {
      var j :| 0 <= j < |ms| && ms[j].id == x;
      assert r[j].id == x;
    }
  }

  /** deleteMessage keeps the log's bookkeeping: ids stay increasing and
      below any bound they were below, and every timer belongs to a message
      in the log. */
  lemma DeleteKeepsConsistent(ms: seq<Message>, tm: map<Id, int>, id: Id, hard: bool, now: int, bound: int)
    requires IdsIncreasing(ms) && tm.Keys <= IdSet(ms)
    requires forall i :: 0 <= i < |ms| ==> ms[i].id < bound
    ensures var r := DeleteMessage(ms, tm, id, hard, now);
      && IdsIncreasing(r.messages)
      && (forall i :: 0 <= i < |r.messages| ==> r.messages[i].id < bound)
      && r.timers.Keys <= IdSet(r.messages)
  {
    var r := DeleteMessage(ms, tm, id, hard, now);
    if id in IdSet(ms) {
      if hard {
        HardDeleteRemovesExactly(ms, tm, id, now);
        forall i | 0 <= i < |r.messages| ensures r.messages[i].id < bound {
          assert r.messages[i] in r.messages;
        }
      } else {
        var k := IndexOf(ms, id).value;
        IdSetUpdate(ms, k, ms[k].(deleted := true, deletedAt := Some(now)));
      }
    }
  }

  /** edit-message: the text changes only when the requesting socket
      authored a message with that id and it is not deleted; None means no
      change and no `message-edited` event. */
  function Edit(ms: seq<Message>, sid: SocketId, id: Id, newText: string, now: int): Option<seq<Message>> {
    match FindOwned(ms, id, sid)
    case None => None
    case Some(k) =>
      if ms[k].deleted then None
      else Some(ms[k := ms[k].(text := Some(newText), edited := true, editedAt := Some(now))])
  }

  lemma EditOnlyByAuthor(ms: seq<Message>, sid: SocketId, id: Id, newText: string, now: int)
    requires IdsIncreasing(ms)
    ensures var r := Edit(ms, sid, id, newText, now);
      && (r.Some? <==> exists k :: 0 <= k < |ms| && ms[k].id == id && ms[k].userId == sid && !ms[k].deleted)
      && (r.Some? ==>
            |r.value| == |ms| && IdSet(r.value) == IdSet(ms)
            && forall j :: 0 <= j < |ms| ==>
                 r.value[j] == if ms[j].id == id
                               then ms[j].(text := Some(newText), edited := true, editedAt := Some(now))
                               else ms[j])
  {
    var f := FindOwned(ms, id, sid);
    if f.Some? {
      var k := f.value;
      IdSetUpdate(ms, k, ms[k].(text := Some(newText), edited := true, editedAt := Some(now)));
    }
  }

  /** A read by `reader` sets `read` and `readAt`, and for a "read_N"
      message by someone else replaces any timer by one N seconds on. */
  predicate ArmsOnRead(m: Message, reader: SocketId) {
    m.userId != reader && m.disappearing && m.disappear.AfterRead?
  }

  function ReadDeadline(m: Message, now: int): int
    requires m.disappear.AfterRead?
  {
    now + DelayMs(ToMs(m.disappear.secs))
  }

  function MarkRead(m: Message, now: int): Message {
    m.(read := true, readAt := Some(now))
  }

  /** One id of a messages-read request. */
  function ReadOne(ms: seq<Message>, tm: map<Id, int>, id: Id, reader: SocketId, now: int): Log {
    match IndexOf(ms, id)
    case None => Log(ms, tm, [])
    case Some(k) =>
      if ms[k].userId == reader then Log(ms, tm, [])
      else
        var m := MarkRead(ms[k], now);
        Log(ms[k := m], if ArmsOnRead(m, reader) then tm[id := ReadDeadline(m, now)] else tm, [])
  }

  /** The `messageIds.forEach` of a messages-read request, in order. */
  function ReadAll(ms: seq<Message>, tm: map<Id, int>, ids: seq<Id>, reader: SocketId, now: int): Log {
    if ids == [] then Log(ms, tm, [])
    else
      var p := ReadAll(ms, tm, ids[..|ids| - 1], reader, now);
      ReadOne(p.messages, p.timers, ids[|ids| - 1], reader, now)
  }

  /** One more id of a read request is one more ReadOne. */
  lemma ReadAllStep(ms: seq<Message>, tm: map<Id, int>, ids: seq<Id>, i: nat, reader: SocketId, now: int)
    requires i < |ids|
    ensures var p := ReadAll(ms, tm, ids[..i], reader, now);
      ReadAll(ms, tm, ids[..i + 1], reader, now) == ReadOne(p.messages, p.timers, ids[i], reader, now)
  {
    assert ids[..i + 1][..i] == ids[..i];
  }

  /** The message a read request would mark, if `ids` names it. */
  function ReadEffect(m: Message, ids: seq<Id>, reader: SocketId, now: int): Message {
    if m.id in ids && m.userId != reader then MarkRead(m, now) else m
  }

  /** The timers a read request arms: one per listed id whose message is
      a "read_N" message by someone else, the last listing winning. */
  function ReadTimers(ms: seq<Message>, ids: seq<Id>, reader: SocketId, now: int): map<Id, int> {
    if ids == [] then map[]
    else
      var a := ReadTimers(ms, ids[..|ids| - 1], reader, now);
      var id := ids[|ids| - 1];
      match IndexOf(ms, id)
      case Some(k) => if ArmsOnRead(ms[k], reader) then a[id := ReadDeadline(ms[k], now)] else a
      case None => a
  }

  /** Key by key: a read request arms a timer exactly for the listed ids of
      "read_N" messages written by someone else, at N seconds from now. */
  lemma {:induction false} ReadTimersKeys(ms: seq<Message>, ids: seq<Id>, reader: SocketId, now: int)
    ensures forall x :: x in ReadTimers(ms, ids, reader, now) ==>
      && x in ids && IndexOf(ms, x).Some? && ArmsOnRead(ms[IndexOf(ms, x).value], reader)
      && ReadTimers(ms, ids, reader, now)[x] == ReadDeadline(ms[IndexOf(ms, x).value], now)
    ensures forall x :: x in ids && IndexOf(ms, x).Some? && ArmsOnRead(ms[IndexOf(ms, x).value], reader) ==>
      x in ReadTimers(ms, ids, reader, now)
  {
    if ids != [] {
      var pre := ids[..|ids| - 1];
      assert ids == pre + [ids[|ids| - 1]];
      ReadTimersKeys(ms, pre, reader, now);
      assert forall x :: x in ids <==> x in pre || x == ids[|ids| - 1];
    }
  }

  /** Marking one message read keeps its id, author and disappear setting. */
  predicate SameShape(a: seq<Message>, b: seq<Message>) {
    |a| == |b| && forall i :: 0 <= i < |a| ==>
      a[i].id == b[i].id && a[i].userId == b[i].userId
      && a[i].disappearing == b[i].disappearing && a[i].disappear == b[i].disappear
  }

  lemma SameShapeIndexOf(a: seq<Message>, b: seq<Message>, id: Id)
    requires SameShape(a, b)
    ensures IndexOf(a, id) == IndexOf(b, id)
  {
    assert forall i :: 0 <= i < |a| ==> a[i].id == b[i].id;
  }

  /** The messages a read request leaves, one id at a time. */
  lemma ReadOneMessages(ms: seq<Message>, ps: seq<Message>, tm: map<Id, int>, pre: seq<Id>, id: Id, reader: SocketId, now: int)
    requires IdsIncreasing(ms) && |ps| == |ms|
    requires forall i :: 0 <= i < |ms| ==> ps[i] == ReadEffect(ms[i], pre, reader, now)
    ensures var r := ReadOne(ps, tm, id, reader, now).messages;
      |r| == |ms| && forall i :: 0 <= i < |ms| ==> r[i] == ReadEffect(ms[i], pre + [id], reader, now)
  {
    assert SameShape(ms, ps);
    SameShapeIndexOf(ms, ps, id);
    assert forall x :: x in pre + [id] <==> x in pre || x == id;
  }

  lemma {:induction false} ReadAllMessages(ms: seq<Message>, tm: map<Id, int>, ids: seq<Id>, reader: SocketId, now: int)
    requires IdsIncreasing(ms)
    ensures var r := ReadAll(ms, tm, ids, reader, now);
      && |r.messages| == |ms| && r.emitted == []
      && forall i :: 0 <= i < |ms| ==> r.messages[i] == ReadEffect(ms[i], ids, reader, now)
  {
    if ids != [] {
      var pre, id := ids[..|ids| - 1], ids[|ids| - 1];
      assert ids == pre + [id];
      ReadAllMessages(ms, tm, pre, reader, now);
      var p := ReadAll(ms, tm, pre, reader, now);
      ReadOneMessages(ms, p.messages, p.timers, pre, id, reader, now);
    }
  }

  /** The timers a read request leaves, one id at a time. */
  lemma ReadOneTimers(ms: seq<Message>, ps: seq<Message>, tm: map<Id, int>, pre: seq<Id>, id: Id, reader: SocketId, now: int)
    requires IdsIncreasing(ms) && |ps| == |ms|
    requires forall i :: 0 <= i < |ms| ==> ps[i] == ReadEffect(ms[i], pre, reader, now)
    ensures ReadOne(ps, tm + ReadTimers(ms, pre, reader, now), id, reader, now).timers
         == tm + ReadTimers(ms, pre + [id], reader, now)
  {
    assert SameShape(ms, ps);
    SameShapeIndexOf(ms, ps, id);
    assert (pre + [id])[..|pre + [id]| - 1] == pre;
    var A := ReadTimers(ms, pre, reader, now);
    var k := IndexOf(ms, id);
    if k.Some? {
      var j := k.value;
      assert IndexOf(ps, id) == Some(j);
      assert ps[j].userId == ms[j].userId && ps[j].disappearing == ms[j].disappearing;
      assert ps[j].disappear == ms[j].disappear;
      if ArmsOnRead(ms[j], reader) {
        var d := ReadDeadline(ms[j], now);
        assert ArmsOnRead(MarkRead(ps[j], now), reader);
        assert ReadDeadline(MarkRead(ps[j], now), now) == d;
        assert ReadTimers(ms, pre + [id], reader, now) == A[id := d];
        assert ReadOne(ps, tm + A, id, reader, now).timers == (tm + A)[id := d];
        assert (tm + A)[id := d] == tm + A[id := d];
      } else {
        assert ReadTimers(ms, pre + [id], reader, now) == A;
      }
    } else {
      assert IndexOf(ps, id).None?;
    }
  }

  lemma {:induction false} ReadAllTimers(ms: seq<Message>, tm: map<Id, int>, ids: seq<Id>, reader: SocketId, now: int)
    requires IdsIncreasing(ms)
    ensures ReadAll(ms, tm, ids, reader, now).timers == tm + ReadTimers(ms, ids, reader, now)
  {
    if ids == [] {
      assert ReadTimers(ms, ids, reader, now) == map[];
    } else {
      var pre, id := ids[..|ids| - 1], ids[|ids| - 1];
      assert ids == pre + [id];
      ReadAllTimers(ms, tm, pre, reader, now);
      ReadAllMessages(ms, tm, pre, reader, now);
      var p := ReadAll(ms, tm, pre, reader, now);
      ReadOneTimers(ms, p.messages, tm, pre, id, reader, now);
    }
  }

  /** What a whole messages-read request does: every listed message by
      someone else is marked read (readAt overwritten on every read), every
      other message is untouched, and the timer table gains exactly the
      read-anchored timers, replacing older ones for those ids. */
  lemma ReadAllEffect(ms: seq<Message>, tm: map<Id, int>, ids: seq<Id>, reader: SocketId, now: int)
    requires IdsIncreasing(ms)
    ensures var r := ReadAll(ms, tm, ids, reader, now);
      && |r.messages| == |ms|
      && (forall i :: 0 <= i < |ms| ==> r.messages[i] == ReadEffect(ms[i], ids, reader, now))
      && r.timers == tm + ReadTimers(ms, ids, reader, now)
      && r.emitted == []
  {
    ReadAllMessages(ms, tm, ids, reader, now);
    ReadAllTimers(ms, tm, ids, reader, now);
  }
}
