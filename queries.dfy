/**
 * The backend's read-only handlers: each is one SELECT over the tables, so each
 * is a function of the tables and the request fields. Missing or falsy
 * required fields give the handler's error status before any query runs.
 */
module Queries {
  import opened Wrappers
  import opened Tables
  import opened Seqs

  /** The `authenticateToken` middleware; `verify` stands for JWT verification. */
  function Authenticate(header: Option<string>, verify: string -> Option<int>): (r: Result<int>)
    ensures r.Err? ==> r.status == 401 || r.status == 403
    ensures (r.Err? && r.status == 401) <==> !TextGiven(header)
    ensures (r.Err? && r.status == 403) <==> TextGiven(header) && verify(header.value).None?
    ensures r.Ok? ==> TextGiven(header) && verify(header.value) == Some(r.value)
  {
    if !TextGiven(header) then Err(401, "Access Denied")
    else
      match verify(header.value)
      case None => Err(403, "Invalid Token")
      case Some(id) => Ok(id)
  }

  function UsernameIs(username: Option<string>): User -> bool
  {
    (u: User) => SqlEq(u.profile.username, username)
  }

  /**
   * `POST /api/login`: the first user row with that username, if its stored
   * password is strictly equal to the one given. A NULL stored password never
   * equals an absent one (`null !== undefined`), the same rule as SqlEq.
   * The signed token (bound to the user's id) is not modelled.
   */
  function Login(users: seq<User>, username: Option<string>, password: Option<string>): (r: Result<User>)
    ensures r.Err? ==> r.status == 404 || r.status == 400
    ensures (r.Err? && r.status == 404) <==>
      forall k :: 0 <= k < |users| ==> !SqlEq(users[k].profile.username, username)
    ensures r.Ok? ==> SqlEq(r.value.password, password)
    ensures r.Err? && r.status == 400 ==>
      exists k :: 0 <= k < |users| && SqlEq(users[k].profile.username, username) &&
        !SqlEq(users[k].password, password) &&
        forall j :: 0 <= j < k ==> !SqlEq(users[j].profile.username, username)
    ensures r.Ok? ==>
      exists k :: 0 <= k < |users| && users[k] == r.value &&
        SqlEq(users[k].profile.username, username) &&
        forall j :: 0 <= j < k ==> !SqlEq(users[j].profile.username, username)
  {
    FilterHead(users, UsernameIs(username));
    var found := Filter(users, UsernameIs(username));
    if found == [] then Err(404, "User not found")
    else if !SqlEq(found[0].password, password) then Err(400, "Invalid credentials")
    else Ok(found[0])
  }

  function EventIdIs(id: int): Event -> bool
  {
    (e: Event) => e.id == id
  }

  /** `GET /api/events/:id`: the event with that id, or 404. */
  function GetEvent(events: seq<Event>, id: int): (r: Result<Event>)
    ensures r.Err? <==> forall k :: 0 <= k < |events| ==> events[k].id != id
    ensures r.Err? ==> r.status == 404
    ensures r.Ok? ==> r.value in events && r.value.id == id
  {
    FilterHead(events, EventIdIs(id));
    var found := Filter(events, EventIdIs(id));
    if found == [] then Err(404, "Event not found") else Ok(found[0])
  }

  /** With auto-increment ids there is at most one event per id. */
  lemma GetEventUnique(events: seq<Event>, k: nat)
    requires IncreasingEventIds(events) && k < |events|
    ensures GetEvent(events, events[k].id) == Ok(events[k])
  {
    var e := GetEvent(events, events[k].id).value;
    forall j | 0 <= j < |events| && j != k ensures events[j].id != events[k].id {
      if j < k { assert events[j].id < events[k].id; }
      else { assert events[k].id < events[j].id; }
    }
  }

  /**
   * `participants JOIN events ON participants.event_id = events.id
   *  WHERE participants.user_id = uid`, one joined event per matching pair,
   * in participant-row order.
   */
  function Joined(participants: seq<Participant>, events: seq<Event>, uid: int): (r: seq<Event>)
    ensures forall x :: x in r ==> x in events
    decreases |participants|
  {
    if participants == [] then []
    else
      (if participants[0].userId == uid then Filter(events, EventIdIs(participants[0].eventId)) else [])
      + Joined(participants[1..], events, uid)
  }

  /** An event is joined exactly when it exists and some row pairs the user with its id. */
  lemma {:induction false} JoinedMember(participants: seq<Participant>, events: seq<Event>, uid: int, e: Event)
    ensures e in Joined(participants, events, uid) <==>
      e in events && exists k :: 0 <= k < |participants| && participants[k] == Participant(uid, e.id)
    decreases |participants|
  {
    if participants != [] {
      var ps := participants;
      JoinedMember(ps[1..], events, uid, e);
      var head := if ps[0].userId == uid then Filter(events, EventIdIs(ps[0].eventId)) else [];
      assert Joined(ps, events, uid) == head + Joined(ps[1..], events, uid);
      if ps[0] == Participant(uid, e.id) && e in events {
        FilterComplete(events, EventIdIs(e.id), e);
      }
      if exists k :: 0 <= k < |ps[1..]| && ps[1..][k] == Participant(uid, e.id) {
        var k :| 0 <= k < |ps[1..]| && ps[1..][k] == Participant(uid, e.id);
        assert ps[k + 1] == Participant(uid, e.id);
      }
      if exists k :: 0 <= k < |ps| && ps[k] == Participant(uid, e.id) {
        var k :| 0 <= k < |ps| && ps[k] == Participant(uid, e.id);
        if k > 0 { assert ps[1..][k - 1] == Participant(uid, e.id); }
      }
    }
  }

  /** The conflict test: the stored date and time, joined by "T", equal the given text exactly. */
  predicate StartsAt(e: Event, dateTime: string)
  {
    e.date.Some? && e.time.Some? && e.date.value + "T" + e.time.value == dateTime
  }

  function StartsAtFn(dateTime: string): Event -> bool
  {
    (e: Event) => StartsAt(e, dateTime)
  }

  /**
   * `POST /api/check-event-conflict`: true exactly when the user has a
   * participant row for an event whose date "T" time is the given text,
   * character for character; no overlap or duration is considered.
   */
  function CheckConflict(participants: seq<Participant>, events: seq<Event>,
                         userId: Option<int>, dateTime: Option<string>): (r: Result<bool>)
    ensures r.Err? <==> !(IdGiven(userId) && TextGiven(dateTime))
    ensures r.Err? ==> r.status == 400
    ensures r.Ok? ==> (r.value <==>
      exists k, j :: 0 <= k < |participants| && 0 <= j < |events| &&
        participants[k].userId == userId.value && events[j].id == participants[k].eventId &&
        StartsAt(events[j], dateTime.value))
  {
    if !(IdGiven(userId) && TextGiven(dateTime)) then
      Err(400, "User ID and event date/time are required")
    else
      var rows := Joined(participants, events, userId.value);
      ConflictWitness(participants, events, userId.value, dateTime.value);
      Ok(Filter(rows, StartsAtFn(dateTime.value)) != [])
  }

  lemma ConflictWitness(participants: seq<Participant>, events: seq<Event>, uid: int, dateTime: string)
    ensures Filter(Joined(participants, events, uid), StartsAtFn(dateTime)) != [] <==>
      exists k, j :: 0 <= k < |participants| && 0 <= j < |events| &&
        participants[k].userId == uid && events[j].id == participants[k].eventId &&
        StartsAt(events[j], dateTime)
  {
    var rows := Joined(participants, events, uid);
    FilterHead(rows, StartsAtFn(dateTime));
    if Filter(rows, StartsAtFn(dateTime)) != [] {
      var i :| 0 <= i < |rows| && StartsAt(rows[i], dateTime);
      JoinedMember(participants, events, uid, rows[i]);
      var k :| 0 <= k < |participants| && participants[k] == Participant(uid, rows[i].id);
      var j :| 0 <= j < |events| && events[j] == rows[i];
      assert participants[k].userId == uid && events[j].id == participants[k].eventId;
    }
    if exists k, j :: 0 <= k < |participants| && 0 <= j < |events| &&
        participants[k].userId == uid && events[j].id == participants[k].eventId &&
        StartsAt(events[j], dateTime) {
      var k, j :| 0 <= k < |participants| && 0 <= j < |events| &&
        participants[k].userId == uid && events[j].id == participants[k].eventId &&
        StartsAt(events[j], dateTime);
      JoinedMember(participants, events, uid, events[j]);
      var i :| 0 <= i < |rows| && rows[i] == events[j];
      assert StartsAtFn(dateTime)(rows[i]);
    }
  }

  function Summarize(e: Event): EventSummary
  {
    EventSummary(e.id, e.name, e.date, e.time, e.duration)
  }

  function Summaries(s: seq<Event>): (r: seq<EventSummary>)
    ensures |r| == |s|
    decreases |s|
  {
    if s == [] then [] else [Summarize(s[0])] + Summaries(s[1..])
  }

  /**
   * `POST /api/user-events`: a summary of the joined event for every
   * participant row of the user; 401 when no user id is given.
   */
  function UserEvents(participants: seq<Participant>, events: seq<Event>, userId: Option<int>): (r: Result<seq<EventSummary>>)
    ensures r.Err? <==> !IdGiven(userId)
    ensures r.Err? ==> r.status == 401
    ensures r.Ok? ==> forall x :: x in r.value ==>
      exists j :: 0 <= j < |events| && x == Summarize(events[j]) &&
        Participant(userId.value, events[j].id) in participants
    ensures r.Ok? ==> |r.value| == JoinSize(participants, events, userId.value)
  {
    if !IdGiven(userId) then Err(401, "User not logged in")
    else
      var uid := userId.value;
      var rows := Joined(participants, events, uid);
      forall x | x in Summaries(rows)
        ensures exists j ::
          0 <= j < |events| && x == Summarize(events[j]) && Participant(uid, events[j].id) in participants
      {
        SummariesMember(rows, x);
        var i :| 0 <= i < |rows| && x == Summarize(rows[i]);
        JoinedMember(participants, events, uid, rows[i]);
        var j :| 0 <= j < |events| && events[j] == rows[i];
        var k :| 0 <= k < |participants| && participants[k] == Participant(uid, rows[i].id);
        assert Participant(uid, events[j].id) in participants;
      }
      JoinedLength(participants, events, uid);
      Ok(Summaries(rows))
  }

  /**
   * The number of rows the join produces: for each participant row of the
   * user, the number of events carrying its event id.
   */
  function JoinSize(participants: seq<Participant>, events: seq<Event>, uid: int): nat
    decreases |participants|
  {
    if participants == [] then 0
    else
      (if participants[0].userId == uid then CountIf(events, EventIdIs(participants[0].eventId)) else 0)
      + JoinSize(participants[1..], events, uid)
  }

  /** Every summary is the summary of an element of the summarised sequence. */
  lemma {:induction false} SummariesMember(s: seq<Event>, x: EventSummary)
    requires x in Summaries(s)
    ensures exists i :: 0 <= i < |s| && x == Summarize(s[i])
    decreases |s|
  {
    if x != Summarize(s[0]) {
      SummariesMember(s[1..], x);
      var i :| 0 <= i < |s[1..]| && x == Summarize(s[1..][i]);
      assert x == Summarize(s[i + 1]);
    }
  }

  /** The join has one row per (participant row of the user, event with its id) match. */
  lemma {:induction false} JoinedLength(participants: seq<Participant>, events: seq<Event>, uid: int)
    ensures |Joined(participants, events, uid)| == JoinSize(participants, events, uid)
    decreases |participants|
  {
    if participants != [] {
      JoinedLength(participants[1..], events, uid);
      FilterSize(events, EventIdIs(participants[0].eventId));
    }
  }

  /** Summaries count like the events they summarise when no other event shares the id. */
  lemma {:induction false} SummariesCount(s: seq<Event>, e: Event)
    requires forall x :: x in s && x.id == e.id ==> x == e
    ensures Count(Summaries(s), Summarize(e)) == Count(s, e)
    decreases |s|
  {
    if s != [] {
      SummariesCount(s[1..], e);
    }
  }

  /** Exactly one event per id in a table with increasing ids. */
  lemma {:induction false} UniqueIdCount(events: seq<Event>, e: Event)
    requires IncreasingEventIds(events) && e in events
    ensures Count(Filter(events, EventIdIs(e.id)), e) == 1
    decreases |events|
  {
    FilterCount(events, EventIdIs(e.id), e);
    if events[0] == e {
      CountPositive(events[1..], e);
      forall j | 0 <= j < |events[1..]| ensures events[1..][j] != e {
        assert events[0].id < events[j + 1].id;
      }
    } else {
      UniqueIdCount(events[1..], e);
      FilterCount(events[1..], EventIdIs(e.id), e);
    }
  }

  /**
   * No de-duplication: with event ids unique, an event appears in the join as
   * many times as the user has participant rows for it.
   */
  lemma {:induction false} JoinedCount(participants: seq<Participant>, events: seq<Event>, uid: int, e: Event)
    requires IncreasingEventIds(events) && e in events
    ensures Count(Joined(participants, events, uid), e) == Count(participants, Participant(uid, e.id))
    decreases |participants|
  {
    if participants != [] {
      var ps := participants;
      JoinedCount(ps[1..], events, uid, e);
      var head := if ps[0].userId == uid then Filter(events, EventIdIs(ps[0].eventId)) else [];
      CountAppend(head, Joined(ps[1..], events, uid), e);
      if ps[0].userId == uid {
        if ps[0].eventId == e.id {
          UniqueIdCount(events, e);
        } else {
          FilterCount(events, EventIdIs(ps[0].eventId), e);
        }
      }
    }
  }

  /** An event attended n times is listed n times in `user-events`. */
  lemma UserEventsCount(participants: seq<Participant>, events: seq<Event>, uid: int, e: Event)
    requires IncreasingEventIds(events) && e in events && uid != 0
    ensures UserEvents(participants, events, Some(uid)).Ok?
    ensures Count(UserEvents(participants, events, Some(uid)).value, Summarize(e)) ==
            Count(participants, Participant(uid, e.id))
  {
    var rows := Joined(participants, events, uid);
    forall x | x in rows && x.id == e.id ensures x == e {
      var i :| 0 <= i < |events| && events[i] == x;
      var j :| 0 <= j < |events| && events[j] == e;
      if i < j { assert events[i].id < events[j].id; }
      if j < i { assert events[j].id < events[i].id; }
    }
    SummariesCount(rows, e);
    JoinedCount(participants, events, uid, e);
  }

  /**
   * `GET /api/events?page&limit`: `LIMIT limit OFFSET (page-1)*limit` with
   * defaults page 1 and limit 20; a negative limit or offset is rejected by
   * the database (500).
   */
  function EventsPage(events: seq<Event>, page: Option<int>, limit: Option<int>): (r: Result<seq<Event>>)
    ensures var p := if page.Some? then page.value else 1;
            var l := if limit.Some? then limit.value else 20;
            var offset := (p - 1) * l;
            && (r.Err? <==> l < 0 || offset < 0)
            && (r.Err? ==> r.status == 500)
            && (r.Ok? ==>
                 && |r.value| <= l
                 && (forall k :: 0 <= k < |r.value| ==> offset + k < |events| && r.value[k] == events[offset + k])
                 && (|r.value| < l ==> offset + |r.value| >= |events|))
  {
    var p := if page.Some? then page.value else 1;
    var l := if limit.Some? then limit.value else 20;
    var offset := (p - 1) * l;
    if l < 0 || offset < 0 then Err(500, "invalid LIMIT or OFFSET")
    else
      var from := if offset <= |events| then offset else |events|;
      var to := if offset + l <= |events| then offset + l else |events|;
      Ok(events[from..to])
  }

  /** Paging covers the table: row i is at position i mod limit of page i div limit + 1. */
  lemma EventOnPage(events: seq<Event>, i: nat, limit: int)
    requires i < |events| && limit > 0
    ensures var r := EventsPage(events, Some(i / limit + 1), Some(limit));
            r.Ok? && i % limit < |r.value| && r.value[i % limit] == events[i]
  {
    var p := i / limit + 1;
    assert (p - 1) * limit + i % limit == i;
    assert (p - 1) * limit >= 0;
  }

  /** `GET /api/events-names-for-search-bar`: every event's id and name, in table order. */
  function SearchNames(events: seq<Event>): (r: seq<EventName>)
    ensures |r| == |events|
    ensures forall k :: 0 <= k < |r| ==> r[k].id == events[k].id && r[k].name == events[k].name
    ensures IncreasingEventIds(events) ==> forall i, j :: 0 <= i < j < |r| ==> r[i].id < r[j].id
  {
    seq(|events|, k requires 0 <= k < |events| => EventName(events[k].id, events[k].name))
  }

  function ChatOf(eventId: int): ChatRow -> bool
  {
    (c: ChatRow) => c.eventId == Some(eventId)
  }

  /**
   * `GET /api/chats/:eventId`: after authentication, exactly the chat rows of
   * that event, in storage order.
   */
  function ListChats(chats: seq<ChatRow>, header: Option<string>, verify: string -> Option<int>, eventId: int): (r: Result<seq<ChatRow>>)
    ensures r.Err? <==> Authenticate(header, verify).Err?
    ensures r.Err? ==> r.status == Authenticate(header, verify).status
    ensures r.Ok? ==> forall k :: 0 <= k < |r.value| ==> r.value[k] in chats && r.value[k].eventId == Some(eventId)
    ensures r.Ok? ==> forall c :: c in chats && c.eventId == Some(eventId) ==> c in r.value
    ensures r.Ok? ==> IsSubsequence(r.value, chats)
    ensures r.Ok? ==> forall c :: Count(r.value, c) == if c.eventId == Some(eventId) then Count(chats, c) else 0
  {
    match Authenticate(header, verify)
    case Err(status, error) => Err(status, error)
    case Ok(_) =>
      FilterSubsequence(chats, ChatOf(eventId));
      var rows := Filter(chats, ChatOf(eventId));
      forall c ensures Count(rows, c) == if c.eventId == Some(eventId) then Count(chats, c) else 0 {
        FilterCount(chats, ChatOf(eventId), c);
      }
      assert forall c :: c in chats && c.eventId == Some(eventId) ==> c in rows by {
        forall c | c in chats && c.eventId == Some(eventId) ensures c in rows {
          FilterComplete(chats, ChatOf(eventId), c);
        }
      }
      Ok(rows)
  }
}
