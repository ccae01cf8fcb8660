/**
 * The four tables of the backend's relational store as records, and the two
 * notions of "equal" and "present" the request handlers rely on: JavaScript
 * truthiness of request-body fields, and SQL equality, under which a NULL
 * column matches nothing.
 */
module Tables {
  import opened Wrappers

  /** The nine user columns that a profile update overwrites (NULL = None). */
  datatype Profile = Profile(
    username: Option<string>,
    email: Option<string>,
    location: Option<string>,
    interests: Option<string>,
    firstName: Option<string>,
    lastName: Option<string>,
    dob: Option<string>,
    gender: Option<string>,
    phone: Option<string>)

  /** A row of `users`; `id` is assigned by auto-increment. */
  datatype User = User(
    id: int,
    profile: Profile,
    password: Option<string>,
    profilePic: Option<seq<bv8>>)

  /** A row of `events`; `location` is the text `"<lat>, <lng>"`. */
  datatype Event = Event(
    id: int,
    name: Option<string>,
    description: Option<string>,
    date: Option<string>,
    time: Option<string>,
    duration: Option<string>,
    category: Option<string>,
    location: string,
    createdBy: Option<string>,
    image: Option<seq<bv8>>)

  /** A row of `participants`: no key, so the same pair may occur many times. */
  datatype Participant = Participant(userId: int, eventId: int)

  /** A row of `chats`. */
  datatype ChatRow = ChatRow(eventId: Option<int>, userId: int, message: Option<string>)

  /** The columns `user-events` selects from each joined event. */
  datatype EventSummary = EventSummary(
    id: int,
    name: Option<string>,
    date: Option<string>,
    time: Option<string>,
    duration: Option<string>)

  /** The `{id, name}` pairs served to the search bar. */
  datatype EventName = EventName(id: int, name: Option<string>)

  /** A handler's answer: a value sent with a success status, or an error status and message. */
  datatype Result<T> = Ok(value: T) | Err(status: nat, error: string)

  /** JavaScript truthiness of an id in a request body: present and not 0. */
  predicate IdGiven(x: Option<int>)
  {
    x.Some? && x.value != 0
  }

  /** JavaScript truthiness of a text field in a request body: present and not "". */
  predicate TextGiven(x: Option<string>)
  {
    x.Some? && x.value != ""
  }

  /** SQL `column = ?`: a NULL column, or a NULL parameter, matches nothing. */
  predicate SqlEq<T(==)>(column: Option<T>, param: Option<T>)
  {
    column.Some? && param.Some? && column.value == param.value
  }

  /** Template-literal rendering of a possibly absent request field. */
  function JsText(x: Option<string>): string
  {
    if x.Some? then x.value else "undefined"
  }

  /** Ids strictly increase along the table, as auto-increment assigns them. */
  predicate IncreasingUserIds(users: seq<User>)
  {
    forall i, j :: 0 <= i < j < |users| ==> users[i].id < users[j].id
  }

  predicate IncreasingEventIds(events: seq<Event>)
  {
    forall i, j :: 0 <= i < j < |events| ==> events[i].id < events[j].id
  }
}
