/**
 * The backend's write handlers as methods of a store object whose four
 * tables are sequences the methods reassign. Each method returns the HTTP
 * status the handler sends and states the new contents of every table.
 */
module Store {
  import opened Wrappers
  import opened Tables
  import opened Seqs
  import opened Queries

  /** `UPDATE users SET password = ? WHERE id = ?` */
  function SetPassword(users: seq<User>, id: int, password: Option<string>): (r: seq<User>)
    ensures |r| == |users|
    ensures forall k :: 0 <= k < |r| ==>
      r[k] == if users[k].id == id then users[k].(password := password) else users[k]
  {
    seq(|users|, k requires 0 <= k < |users| =>
      if users[k].id == id then users[k].(password := password) else users[k])
  }

  /** `UPDATE users SET username = ?, …, phone = ? WHERE id = ?` */
  function SetProfile(users: seq<User>, id: int, profile: Profile): (r: seq<User>)
    ensures |r| == |users|
    ensures forall k :: 0 <= k < |r| ==>
      r[k] == if users[k].id == id then users[k].(profile := profile) else users[k]
  {
    seq(|users|, k requires 0 <= k < |users| =>
      if users[k].id == id then users[k].(profile := profile) else users[k])
  }

  /** Rows a `DELETE FROM participants WHERE event_id = ? AND user_id = ?` keeps. */
  function Keeps(eventId: int, userId: int): Participant -> bool
  {
    (p: Participant) => !(p.eventId == eventId && p.userId == userId)
  }

  function UserIdIs(id: int): User -> bool
  {
    (u: User) => u.id == id
  }

  /** Column updates keep ids, so auto-increment order survives them. */
  lemma UpdatesKeepIds(users: seq<User>, id: int, password: Option<string>, profile: Profile)
    requires IncreasingUserIds(users)
    ensures IncreasingUserIds(SetPassword(users, id, password))
    ensures IncreasingUserIds(SetProfile(users, id, profile))
  {
  }

  class Database {
    var users: seq<User>
    var events: seq<Event>
    var participants: seq<Participant>
    var chats: seq<ChatRow>
    /** The next auto-increment ids of `users` and `events`. */
    var nextUserId: int
    var nextEventId: int

    ghost predicate Valid()
      reads this
    {
      && IncreasingUserIds(users)
      && IncreasingEventIds(events)
      && 1 <= nextUserId && 1 <= nextEventId
      && (forall k :: 0 <= k < |users| ==> 1 <= users[k].id < nextUserId)
      && (forall k :: 0 <= k < |events| ==> 1 <= events[k].id < nextEventId)
    }

    constructor ()
      ensures Valid()
      ensures users == [] && events == [] && participants == [] && chats == []
    {
      users, events, participants, chats := [], [], [], [];
      nextUserId, nextEventId := 1, 1;
    }

    /** `POST /api/register`: inserts the user as given, password in clear text. */
    method Register(profile: Profile, password: Option<string>, profilePic: Option<seq<bv8>>) returns (status: nat, id: int)
      requires Valid()
      modifies this
      ensures Valid()
      ensures status == 201
      ensures id == old(nextUserId)
      ensures nextUserId == old(nextUserId) + 1 && nextEventId == old(nextEventId)
      ensures users == old(users) + [User(id, profile, password, profilePic)]
      ensures forall k :: 0 <= k < |old(users)| ==> old(users)[k].id != id
      ensures events == old(events) && participants == old(participants) && chats == old(chats)
    {
      id := nextUserId;
      users := users + [User(id, profile, password, profilePic)];
      nextUserId := nextUserId + 1;
      status := 201;
    }

    /**
     * `POST /api/change-password`: 400 unless all three fields are given,
     * 404 for an unknown id, 401 when the current password differs from the
     * stored one; otherwise only that user's password changes.
     */
    method ChangePassword(currentPassword: Option<string>, newPassword: Option<string>, userId: Option<int>) returns (status: nat)
      requires Valid()
      modifies this
      ensures Valid()
      ensures events == old(events) && participants == old(participants) && chats == old(chats)
      ensures nextUserId == old(nextUserId) && nextEventId == old(nextEventId)
      ensures status in {200, 400, 401, 404}
      ensures status == 400 <==> !(TextGiven(currentPassword) && TextGiven(newPassword) && IdGiven(userId))
      ensures status == 404 <==> status != 400 && forall k :: 0 <= k < |old(users)| ==> old(users)[k].id != userId.value
      ensures status == 401 <==>
        status != 400 &&
        exists k :: 0 <= k < |old(users)| && old(users)[k].id == userId.value && old(users)[k].password != currentPassword
      ensures status == 200 ==> users == SetPassword(old(users), userId.value, newPassword)
      ensures status != 200 ==> users == old(users)
    {
      if !(TextGiven(currentPassword) && TextGiven(newPassword) && IdGiven(userId)) {
        return 400;
      }
      var id := userId.value;
      FilterHead(users, UserIdIs(id));
      var found := Filter(users, UserIdIs(id));
      if found == [] {
        return 404;
      }
      var k :| 0 <= k < |users| && users[k] == found[0] && users[k].id == id;
      forall j | 0 <= j < |users| && j != k ensures users[j].id != id {
        if j < k { assert users[j].id < users[k].id; }
        else { assert users[k].id < users[j].id; }
      }
      if found[0].password != currentPassword {
        return 401;
      }
      UpdatesKeepIds(users, id, newPassword, found[0].profile);
      users := SetPassword(users, id, newPassword);
      status := 200;
    }

    /**
     * `PUT /api/update-user`: 400 without a user id; otherwise the nine profile
     * columns of that user are overwritten (absent fields become NULL) and 200
     * is sent whether or not a row matched.
     */
    method UpdateUser(profile: Profile, userId: Option<int>) returns (status: nat)
      requires Valid()
      modifies this
      ensures Valid()
      ensures events == old(events) && participants == old(participants) && chats == old(chats)
      ensures nextUserId == old(nextUserId) && nextEventId == old(nextEventId)
      ensures status == 400 <==> !IdGiven(userId)
      ensures status != 400 ==> status == 200 && users == SetProfile(old(users), userId.value, profile)
      ensures status == 400 ==> users == old(users)
    {
      if !IdGiven(userId) {
        return 400;
      }
      UpdatesKeepIds(users, userId.value, None, profile);
      users := SetProfile(users, userId.value, profile);
      status := 200;
    }

    /** `POST /api/add-events`: inserts the event; its location is the text `"<lat>, <lng>"`. */
    method AddEvent(name: Option<string>, description: Option<string>, date: Option<string>,
                    time: Option<string>, duration: Option<string>, category: Option<string>,
                    lat: Option<string>, lng: Option<string>, createdBy: Option<string>,
                    image: Option<seq<bv8>>) returns (status: nat, id: int)
      requires Valid()
      modifies this
      ensures Valid()
      ensures status == 201
      ensures id == old(nextEventId)
      ensures nextEventId == old(nextEventId) + 1 && nextUserId == old(nextUserId)
      ensures events == old(events) + [Event(id, name, description, date, time, duration, category,
                                             JsText(lat) + ", " + JsText(lng), createdBy, image)]
      ensures forall k :: 0 <= k < |old(events)| ==> old(events)[k].id != id
      ensures users == old(users) && participants == old(participants) && chats == old(chats)
    {
      id := nextEventId;
      events := events + [Event(id, name, description, date, time, duration, category,
                                JsText(lat) + ", " + JsText(lng), createdBy, image)];
      nextEventId := nextEventId + 1;
      status := 201;
    }

    /**
     * `POST /api/participants`: 400 unless both ids are given; otherwise one
     * row is appended, even when the same pair is already present.
     */
    method Attend(userId: Option<int>, eventId: Option<int>) returns (status: nat)
      requires Valid()
      modifies this
      ensures Valid()
      ensures users == old(users) && events == old(events) && chats == old(chats)
      ensures nextUserId == old(nextUserId) && nextEventId == old(nextEventId)
      ensures status == 400 <==> !(IdGiven(userId) && IdGiven(eventId))
      ensures status == 400 ==> participants == old(participants)
      ensures status != 400 ==>
        status == 201 && participants == old(participants) + [Participant(userId.value, eventId.value)]
    {
      if !(IdGiven(userId) && IdGiven(eventId)) {
        return 400;
      }
      participants := participants + [Participant(userId.value, eventId.value)];
      status := 201;
    }

    /**
     * `POST /api/delete-event`: 400 unless both ids are given; every row with
     * that event and user is deleted and no other; 404 when none matched.
     */
    method RemoveAttendance(eventId: Option<int>, userId: Option<int>) returns (status: nat)
      requires Valid()
      modifies this
      ensures Valid()
      ensures users == old(users) && events == old(events) && chats == old(chats)
      ensures nextUserId == old(nextUserId) && nextEventId == old(nextEventId)
      ensures status in {200, 400, 404}
      ensures status == 400 <==> !(IdGiven(eventId) && IdGiven(userId))
      ensures status == 404 <==>
        status != 400 && Participant(userId.value, eventId.value) !in old(participants)
      ensures status == 200 ==> participants == Filter(old(participants), Keeps(eventId.value, userId.value))
      ensures status != 200 ==> participants == old(participants)
    {
      if !(IdGiven(eventId) && IdGiven(userId)) {
        return 400;
      }
      var kept := Filter(participants, Keeps(eventId.value, userId.value));
      FilterKeepsAll(participants, Keeps(eventId.value, userId.value));
      if |kept| == |participants| {
        return 404;
      }
      participants := kept;
      status := 200;
    }

    /**
     * `POST /api/chats`: 401 without a token, 403 when `verify` rejects it;
     * otherwise the row (event id, the token's user id, message) is appended.
     */
    method PostChat(header: Option<string>, verify: string -> Option<int>,
                    eventId: Option<int>, message: Option<string>) returns (status: nat)
      requires Valid()
      modifies this
      ensures Valid()
      ensures users == old(users) && events == old(events) && participants == old(participants)
      ensures nextUserId == old(nextUserId) && nextEventId == old(nextEventId)
      ensures Authenticate(header, verify).Err? ==>
        status == Authenticate(header, verify).status && chats == old(chats)
      ensures Authenticate(header, verify).Ok? ==>
        status == 201 && chats == old(chats) + [ChatRow(eventId, Authenticate(header, verify).value, message)]
    {
      match Authenticate(header, verify)
      case Err(code, _) =>
        status := code;
      case Ok(id) =>
        chats := chats + [ChatRow(eventId, id, message)];
        status := 201;
    }
  }

  /** Attending an event makes a later check at its date and time report a conflict. */
  lemma AttendThenConflict(participants: seq<Participant>, events: seq<Event>, uid: int, e: Event)
    requires uid != 0 && e in events && e.date.Some? && e.time.Some?
    ensures var dateTime := e.date.value + "T" + e.time.value;
      CheckConflict(participants + [Participant(uid, e.id)], events, Some(uid), Some(dateTime)) == Ok(true)
  {
    var ps := participants + [Participant(uid, e.id)];
    var j :| 0 <= j < |events| && events[j] == e;
    assert ps[|ps| - 1].userId == uid && events[j].id == ps[|ps| - 1].eventId;
  }

  /** Attending twice stores two rows: attendance is never de-duplicated. */
  lemma AttendTwice(participants: seq<Participant>, row: Participant)
    ensures Count(participants + [row] + [row], row) == Count(participants, row) + 2
  {
    CountAppend(participants, [row], row);
    CountAppend(participants + [row], [row], row);
  }

  /** After a removal no row of that pair remains and every other row keeps its count. */
  lemma RemoveExact(participants: seq<Participant>, eventId: int, userId: int, row: Participant)
    ensures Count(Filter(participants, Keeps(eventId, userId)), row) ==
      if row == Participant(userId, eventId) then 0 else Count(participants, row)
    ensures IsSubsequence(Filter(participants, Keeps(eventId, userId)), participants)
  {
    FilterCount(participants, Keeps(eventId, userId), row);
    FilterSubsequence(participants, Keeps(eventId, userId));
  }

  /** A posted message is listed last under its own event and is invisible under any other. */
  lemma PostThenList(chats: seq<ChatRow>, header: Option<string>, verify: string -> Option<int>,
                     eventId: int, message: Option<string>, other: int)
    requires Authenticate(header, verify).Ok?
    requires other != eventId
    ensures var row := ChatRow(Some(eventId), Authenticate(header, verify).value, message);
      && ListChats(chats + [row], header, verify, eventId) ==
           Ok(ListChats(chats, header, verify, eventId).value + [row])
      && ListChats(chats + [row], header, verify, other) == ListChats(chats, header, verify, other)
  {
    var row := ChatRow(Some(eventId), Authenticate(header, verify).value, message);
    FilterAppend(chats, [row], ChatOf(eventId));
    FilterAppend(chats, [row], ChatOf(other));
    assert Filter([row], ChatOf(eventId)) == [row];
    assert Filter([row], ChatOf(other)) == [];
    assert Filter(chats, ChatOf(other)) + [] == Filter(chats, ChatOf(other));
  }
}
