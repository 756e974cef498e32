/**
 * Who may use the chat: the two account names, the case-insensitive match
 * of the login form, the fixed partner of each account, and the name a
 * socket joins under.
 */
module Login {
  import opened ChatTypes

  /** The own keys of `validUsers`, in `Object.keys` order. */
  const ValidNames: seq<string> := ["Pavi", "Manu"]

  const ValidNameSet: set<string> := {"Pavi", "Manu"}

  /** The user-join test `validUsers[username]` as it should be: only the
      account names pass. */
  predicate IsValidUser(name: string) {
    name in ValidNameSet
  }

  /** Properties every plain object inherits from Object.prototype. Reading
      any of them from `validUsers` yields a function, which is truthy. */
  const PrototypeKeys: set<string> := {
    "constructor", "hasOwnProperty", "isPrototypeOf", "propertyIsEnumerable",
    "toLocaleString", "toString", "valueOf", "__proto__",
    "__defineGetter__", "__defineSetter__", "__lookupGetter__", "__lookupSetter__"
  }

  /** The user-join test as the server writes it: a property read on a plain
      object, so inherited names pass as well as the account names. */
  predicate IsValidUserAsWritten(name: string) {
    name in ValidNameSet || name in PrototypeKeys
  }

  /** "toString" is not an account, yet the server lets a socket join under it. */
  lemma PrototypeNameAdmitted()
    ensures IsValidUserAsWritten("toString") && !IsValidUser("toString")
  {
  }

  /** The corrected test admits fewer names than the written one, never more. */
  lemma CorrectedTestIsStricter(name: string)
    ensures IsValidUser(name) ==> IsValidUserAsWritten(name)
    ensures IsValidUserAsWritten(name) && name !in PrototypeKeys ==> IsValidUser(name)
  {
  }

  /** Join refusals: `activeSessions.size >= 2 && !activeSessions.has(name)`. */
  predicate IsRoomFull(sessions: set<string>, name: string) {
    |sessions| >= 2 && name !in sessions
  }

  /** Two distinct members of a set of names of at most two elements are all of it. */
  lemma AtMostTwoNames(s: set<string>)
    requires s <= ValidNameSet
    ensures |s| <= 2
    ensures |s| >= 2 ==> s == ValidNameSet
  {
    if "Pavi" in s && "Manu" in s {
      assert s == ValidNameSet;
    } else if "Pavi" in s {
      assert s == {"Pavi"};
    } else if "Manu" in s {
      assert s == {"Manu"};
    } else {
      assert s == {};
    }
  }

  /** With only account names as session keys, a valid user is never turned
      away as "room full": the room test can only fire for names the corrected
      test already refuses. */
  lemma RoomFullUnreachable(sessions: set<string>, name: string)
    requires sessions <= ValidNameSet && IsValidUser(name)
    ensures !IsRoomFull(sessions, name)
  {
    AtMostTwoNames(sessions);
  }

  /** With the written test, two inherited names fill the room and lock out
      an account holder. */
  lemma RoomFullReachableAsWritten()
    ensures IsValidUserAsWritten("toString") && IsValidUserAsWritten("valueOf")
    ensures IsValidUser("Pavi") && IsRoomFull({"toString", "valueOf"}, "Pavi")
  {
    assert {"toString", "valueOf"} == {"toString"} + {"valueOf"};
  }

  /** `toLowerCase` on ASCII letters. */
  function LowerChar(c: char): (r: char)
    ensures 'A' <= c <= 'Z' ==> r as int == c as int + 32
    ensures !('A' <= c <= 'Z') ==> r == c
  {
    if 'A' <= c <= 'Z' then (c as int + 32) as char else c
  }

  function Lower(s: string): (r: string)
    ensures |r| == |s| && forall i :: 0 <= i < |s| ==> r[i] == LowerChar(s[i])
  {
    if s == [] then [] else [LowerChar(s[0])] + Lower(s[1..])
  }

  /** `names.find(n => n.toLowerCase() === typed.toLowerCase())`. */
  function FindLower(names: seq<string>, typed: string): (r: Option<string>)
    ensures r.Some? ==> r.value in names && Lower(r.value) == Lower(typed)
    ensures r.None? <==> forall n :: n in names ==> Lower(n) != Lower(typed)
    ensures r.Some? ==>
      exists k :: 0 <= k < |names| && names[k] == r.value && forall j :: 0 <= j < k ==> Lower(names[j]) != Lower(typed)
  {
    if names == [] then None
    else if Lower(names[0]) == Lower(typed) then Some(names[0])
    else
      var r := FindLower(names[1..], typed);
      assert forall n :: n in names ==> n == names[0] || n in names[1..];
      if r.Some? then
        var k :| 0 <= k < |names[1..]| && names[1..][k] == r.value
          && forall j :: 0 <= j < k ==> Lower(names[1..][j]) != Lower(typed);
        assert names[k + 1] == r.value;
        assert forall j :: 1 <= j < k + 1 ==> names[j] == names[1..][j - 1];
        r
      else r
  }

  /** The account name a login form's username resolves to, spelled as the
      account is. */
  function MatchUsername(typed: string): Option<string> {
    FindLower(ValidNames, typed)
  }

  /** The search tries "Pavi", then "Manu". */
  lemma MatchUsernameCases(typed: string)
    ensures Lower("Pavi") == "pavi" && Lower("Manu") == "manu"
    ensures MatchUsername(typed) ==
      if Lower(typed) == "pavi" then Some("Pavi")
      else if Lower(typed) == "manu" then Some("Manu")
      else None
  {
    assert Lower("Pavi") == "pavi" && Lower("Manu") == "manu";
    assert ValidNames[1..] == ["Manu"] && ValidNames[1..][1..] == [];
  }

  lemma MatchesPavi(typed: string)
    ensures MatchUsername(typed) == Some("Pavi") <==> Lower(typed) == Lower("Pavi")
  {
    MatchUsernameCases(typed);
  }

  lemma MatchesManu(typed: string)
    ensures MatchUsername(typed) == Some("Manu") <==> Lower(typed) == Lower("Manu")
  {
    MatchUsernameCases(typed);
    assert "pavi"[0] != "manu"[0];
  }

  /** Any spelling of an account name, in any letter case, resolves to that
      account, and nothing else resolves. */
  lemma MatchIsCaseInsensitive(typed: string, name: string)
    requires name in ValidNameSet
    ensures MatchUsername(typed) == Some(name) <==> Lower(typed) == Lower(name)
  {
    if name == "Pavi" {
      MatchesPavi(typed);
    } else {
      MatchesManu(typed);
    }
  }

  /** Typed names that agree up to letter case resolve alike. */
  lemma MatchIgnoresCase(a: string, b: string)
    requires Lower(a) == Lower(b)
    ensures MatchUsername(a) == MatchUsername(b)
  {
  }

  /** `chatPartners`: each account's fixed partner. */
  const ChatPartners: map<string, string> := map["Pavi" := "Manu", "Manu" := "Pavi"]

  function Partner(name: string): (p: Option<string>)
    ensures p.Some? <==> name in ValidNameSet
    ensures p.Some? ==> p.value in ValidNameSet && p.value != name
  {
    if name in ChatPartners then Some(ChatPartners[name]) else None
  }

  /** The partner relation is an involution without fixed points. */
  lemma PartnerInvolution(name: string)
    requires name in ValidNameSet
    ensures Partner(Partner(name).value) == Some(name)
  {
  }

  /** `userData.username || "User_" + socket.id.substring(0, 6)`. */
  function JoinName(requested: string, sid: SocketId): (n: string)
    ensures requested != [] ==> n == requested
    ensures requested == [] ==> |n| >= 5 && n[..5] == "User_"
    ensures requested == [] ==> n[5..] <= sid && |n| == 5 + (if |sid| < 6 then |sid| else 6)
  {
    if requested != [] then requested
    else "User_" + sid[..if |sid| < 6 then |sid| else 6]
  }

  /** The generated default name is never an account name, not even for the
      written test: a join without a name is always refused. */
  lemma DefaultNameRefused(sid: SocketId)
    ensures !IsValidUserAsWritten(JoinName("", sid))
  {
    var n := JoinName("", sid);
    assert n[..5] == "User_";
    assert n[0] == 'U';
  }

  /** `userData.chatPartner || null`. */
  function JoinPartner(requested: string): Option<string> {
    if requested == [] then None else Some(requested)
  }
}
