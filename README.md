# Venari event app — a verified model of its core logic

Venari is an event-discovery web app. It has two halves:

- an Express/MySQL backend (`Backend/server.js`) that keeps users, events, attendance rows (`participants`) and per-event chat messages;
- a React front end.

This project models in Dafny the parts of both halves that are sequential logic:

- **Backend handlers.**
  - The four tables are sequences of records.
  - The read-only handlers (login, event by id, paging, the schedule-conflict check, the user's events, the search-name list, listing chats) are functions of the tables (module `Queries`).
  - The write handlers (register, change password, update profile, add event, attend, un-attend, post chat) are methods of a `Database` class whose table fields they reassign (module `Store`).
  - Request fields are `Option` values; `None` means the field is absent.
  - JavaScript truthiness is written out: `IdGiven` is a present, non-zero id and `TextGiven` a present, non-empty string.
  - SQL `col = ?` never matches NULL (`SqlEq`).
- **The encoded-polyline decoder** of the map view (module `Polyline`).
  - It is the Encoded Polyline Algorithm Format, decoded over integer coordinates in 1e-5 degree units.
  - An imperative method with the source's nested loops is proved equal to a recursive specification, `Decode`.
  - `Decode` is proved to be a running sum of zigzag-decoded deltas.
  - `Decode` is proved to invert a model-side encoder.
- **The search bar's filter** (module `SearchBar`):
  - the search text is lower-cased and split on runs of white space;
  - an event is kept when its lower-cased name contains every word;
  - clearing or selecting resets the search.
- **The chat window's message list**: a class with the message sequence and the draft (module `ChatWindow`).
- **The suggestion card's title truncation** (module `SuggestionCard`).

Shared pieces:

- `Wrappers` (`Option`);
- `Seqs` (filter, counting and subsequence lemmas);
- `Tables` (record types, request-field truthiness, SQL NULL equality, the auto-increment order of ids).

## Model

| member | source | states |
|---|---|---|
| Queries.Authenticate | Backend/server.js:40-51 | 401 exactly when no token is sent, 403 exactly when a token is sent but verification rejects it, otherwise the verified user id |
| Queries.Login | Backend/server.js:121-173 | 404 exactly when no user has that username; otherwise the first user with that username: 400 when its stored password differs, success with that user row when it is strictly equal |
| Queries.GetEvent | Backend/server.js:317-340 | 404 exactly when no event has the id; otherwise an event of the table with that id |
| Queries.GetEventUnique | Backend/server.js:317-340 | with auto-increment ids, fetching any event's id returns that event |
| Queries.Joined | Backend/server.js:352-355 | the participants-events join yields only events of the table |
| Queries.JoinedMember | Backend/server.js:352-355 | an event is in the join exactly when it is in the table and some participant row pairs the user with its id |
| Queries.CheckConflict | Backend/server.js:344-372 | 400 exactly when the user id or date-time is missing or falsy; otherwise the conflict flag is true exactly when some participant row of the user joins an event whose date + "T" + time equals the given text |
| Queries.ConflictWitness | Backend/server.js:352-366 | the join filtered by start text is non-empty exactly when such a participant row and event exist |
| Queries.UserEvents | Backend/server.js:377-399 | 401 exactly when no user id is given; otherwise every listed summary is the summary of a table event the user has a participant row for, and the list has one entry per (participant row of the user, event with that id) match |
| Queries.SummariesMember | Backend/server.js:386 | every summary comes from one of the summarised events |
| Queries.JoinedLength | Backend/server.js:385-390 | the join has one row per match of a participant row of the user with an event carrying its id |
| Queries.SummariesCount | Backend/server.js:386 | summarising keeps multiplicities when the summarised event is the only one with its id |
| Queries.UniqueIdCount | Backend/server.js:388 | in a table of increasing ids, filtering by an event's id yields that event exactly once |
| Queries.JoinedCount | Backend/server.js:385-390 | an event occurs in the join as many times as the user's participant rows for it |
| Queries.UserEventsCount | Backend/server.js:377-399 | an event attended n times appears n times in the user's events: no de-duplication |
| Queries.EventsPage | Backend/server.js:292-313 | page defaults to 1 and limit to 20, offset is (page-1)*limit; 500 exactly when limit or offset is negative; otherwise at most limit rows, row k being the table row at offset + k, and fewer than limit only when the table runs out |
| Queries.EventOnPage | Backend/server.js:292-298 | every table row i is found at position i mod limit of page i div limit + 1 |
| Queries.SearchNames | Backend/server.js:426-436 | one (id, name) record per event, in table order; with auto-increment ids the listed ids strictly increase, so every entry has its own key |
| Queries.ListChats | Backend/server.js:454-463 | authentication errors pass through unchanged; otherwise exactly the chat rows of that event, each as many times as it is stored (equal rows posted twice are listed twice) and none of another event, in storage order |
| Store.UpdatesKeepIds | Backend/server.js:205-233 | password and profile updates keep every id, so ids stay increasing |
| Store.Database.Register | Backend/server.js:61-115 | 201; one user row with the next auto-increment id is appended, and no earlier row has that id; the user counter advances by one, the event counter and other tables are unchanged |
| Store.Database.ChangePassword | Backend/server.js:178-215 | 400 exactly when a field is missing; 404 exactly when no user has the id; 401 exactly when the stored password differs; on 200 only that user's password changes; on any error no table changes |
| Store.Database.UpdateUser | Backend/server.js:218-242 | 400 exactly when no user id is given; otherwise 200, and exactly the nine profile fields of that user are overwritten (absent ones become NULL); password, picture and other users are kept |
| Store.Database.AddEvent | Backend/server.js:250-287 | 201; one event with the next id and location "lat, lng" is appended; the event counter advances by one, the user counter and other tables are unchanged |
| Store.Database.Attend | Backend/server.js:465-481 | 400 exactly when an id is missing, table unchanged; otherwise 201 and exactly one row is appended, even for a pair already present |
| Store.Database.RemoveAttendance | Backend/server.js:400-421 | 400 exactly when an id is missing; 404 exactly when no row has that pair, table unchanged; on 200 the table is the old one without that pair's rows |
| Store.Database.PostChat | Backend/server.js:439-451 | authentication errors give their status and leave chats unchanged; otherwise 201 and the row (event id, the token's user id, message) is appended |
| Store.AttendThenConflict | Backend/server.js:344-372 | after attending an event, the conflict check at its date and time reports true |
| Store.AttendTwice | Backend/server.js:472 | attending twice adds two rows of the pair |
| Store.RemoveExact | Backend/server.js:407 | after removal no row of the pair remains, every other row keeps its count, and the order is kept |
| Store.PostThenList | Backend/server.js:442-457 | a posted message is listed last under its event and changes no other event's list |
| Polyline.DecodePolyline | src/components/Map/Map.tsx:128-161 | the imperative decoder returns exactly the specification `Decode` of its input, and its loop index ends where `EndOf` says, at or past the end of the input (exactly at it on an encoding, by `EncodingIsShort`) |
| Polyline.ReadValue | src/components/Map/Map.tsx:139-143 | one value is read chunk by chunk: chunk i contributes its 5 low bits times 2^(5i), reading stops after the first character without the 0x20 bit, and it returns where reading stopped |
| Polyline.ReadRaw | src/components/Map/Map.tsx:139-143 | reading a value consumes at least one character, so the loop index strictly increases |
| Polyline.ReadStep | src/components/Map/Map.tsx:139-143 | one inner-loop iteration keeps the partial value below 2^shift and consistent with the full value read from the start |
| Polyline.Accumulate | src/components/Map/Map.tsx:146-158 | one point per delta pair |
| Polyline.AccumulateAt | src/components/Map/Map.tsx:146-158 | point k is the start plus the sums of the first k + 1 lat and lng deltas |
| Polyline.DecodeIsRunningSum | src/components/Map/Map.tsx:134-158 | decoding gives one point per value pair, and point k is the running sum of the decoded deltas up to k |
| Polyline.DecodeStep | src/components/Map/Map.tsx:134-158 | one outer iteration reads a (lat, lng) pair of zigzag values, and decoding and the loop's end continue from where the pair ends |
| Polyline.ReadPair | src/components/Map/Map.tsx:139-155 | reading the first pair of an encoded delta list gives its two zigzagged values and leaves exactly the encoding of the remaining deltas |
| Polyline.DecodeEmpty | src/components/Map/Map.tsx:134 | the empty string decodes to no points |
| Polyline.EndOf | src/components/Map/Map.tsx:134 | the outer loop stops at or past the end of the input |
| Polyline.ZigUnzig | src/components/Map/Map.tsx:145-155 | zigzag decoding (odd r to -(r>>1)-1, even r to r>>1) inverts zigzag encoding |
| Polyline.ReadEncoded | src/components/Map/Map.tsx:139-143 | reading an encoded value gives the value back and stops right after its last character |
| Polyline.DeltasOfEncoding | src/components/Map/Map.tsx:134-157 | parsing an encoded delta list gives back exactly those deltas |
| Polyline.AccumulateDifferences | src/components/Map/Map.tsx:146-156 | the running sum of consecutive differences gives back the points |
| Polyline.DecodeEncode | src/components/Map/Map.tsx:128-161 | decoding the standard encoding of any integer point list returns that list |
| Polyline.EncodingEndsAtLength | src/components/Map/Map.tsx:134 | on an encoding, the outer loop ends exactly at the end of the input |
| Polyline.ZigRange | src/components/Map/Map.tsx:145-155 | a zigzag value fits in 30 bits exactly when the delta lies in -2^29 .. 2^29 - 1 |
| Polyline.CoordinateDeltasSmall | src/components/Map/Map.tsx:146-156 | deltas between real coordinates, at most 360 degrees, all zigzag below 2^30 |
| Polyline.EncodeRawLength | src/components/Map/Map.tsx:139-143 | a value below 2^(5m) takes at most m characters |
| Polyline.EncodingIsShort | src/components/Map/Map.tsx:139-143 | an encoding of deltas whose zigzag value is below 2^30, that is -2^29 <= delta < 2^29, never has more than five continuation characters in a row, so the decoder's 32-bit shifts stay exact on it, and it is read to exactly its end |
| SearchBar.LowerString | src/components/SearchBar.tsx:57-62 | lower-casing keeps the length, leaves no upper-case ASCII letter, moves each upper-case letter to its lower-case partner and keeps every other character |
| SearchBar.LowerIdempotent | src/components/SearchBar.tsx:57-62 | lower-casing twice is lower-casing once |
| SearchBar.FilterEvents | src/components/SearchBar.tsx:55-68 | an empty search text gives no results; otherwise every result is a fetched event whose lower-cased name contains every search word, every such event is a result, and results keep their fetched order |
| SearchBar.SplitWordsHaveNoSpace | src/components/SearchBar.tsx:57 | no word of the split contains white space |
| SearchBar.SplitEndsEmpty | src/components/SearchBar.tsx:57 | text ending in white space splits with an empty last piece |
| SearchBar.SplitAppendWord | src/components/SearchBar.tsx:57 | appending non-white-space characters extends the last piece of the split |
| SearchBar.AddWordNarrows | src/components/SearchBar.tsx:57-63 | typing a space and another word after non-empty text never adds a result |
| SearchBar.MoreWordsNarrow | src/components/SearchBar.tsx:62 | requiring more words gives a subsequence of the results |
| SearchBar.Initial | src/components/SearchBar.tsx:55-68 | the initial state has no text and no results, and the shown list agrees with the filter |
| SearchBar.EventsFetched | src/components/SearchBar.tsx:54-68 | once events arrive, the shown list is the filter of the new events |
| SearchBar.SearchChanged | src/components/SearchBar.tsx:54-72 | after typing, the shown list is the filter of the new text |
| SearchBar.ClearSearch | src/components/SearchBar.tsx:74-77 | clearing empties both the text and the results, keeps the events, and agrees with the filter |
| SearchBar.SelectEvent | src/components/SearchBar.tsx:79-83 | selecting navigates to that event id and resets exactly as clearing does |
| ChatWindow.Window.constructor | src/components/Chat/ChatWindow.tsx:6-7 | the window opens with only "Hello, welcome!" and an empty draft |
| ChatWindow.Window.SetDraft | src/components/Chat/ChatWindow.tsx:26 | typing replaces the draft and leaves the messages alone |
| ChatWindow.Window.SendMessage | src/components/Chat/ChatWindow.tsx:9-14 | an empty draft changes nothing; otherwise the draft, untrimmed, is appended after all earlier messages in their order and the draft is cleared; the greeting stays first and no message is empty |
| SuggestionCard.DisplayTitle | src/components/Suggestion/SuggestionCard.tsx:25 | a title of at most 30 characters is shown whole; a longer one shows its first 27 characters followed by "...", exactly 30 characters; never more than 30 |
| SuggestionCard.DisplayTitleIdempotent | src/components/Suggestion/SuggestionCard.tsx:25 | shortening a shown title again changes nothing |

## Left out

- JWT signing and verification (`jsonwebtoken`): `verify` is a parameter from token to an optional user id. Login's token is not modelled.
- Uploads and images:
  - multer uploads are not modelled;
  - profile pictures and event images are byte sequences;
  - base64 data-URL encoding of BLOBs in responses is not modelled.
- Database and server failures other than the paging 500 (connection errors, constraint violations such as a duplicate username) are not modelled. Every other query is assumed to succeed.
- Store.Database.Register: the table schema is not part of this model. Register always inserts, so a uniqueness constraint on usernames, and the 500 it would cause, is not modelled.
- The race between separate conflict-check and attend requests is not modelled: each handler runs atomically on the tables.
- JSON `null` request fields are not distinguished from absent ones.
- Paging takes the query parameters as integers. Non-numeric or fractional `page` and `limit` strings, and what `parseInt` makes of them, are not modelled.
- Queries.CheckConflict: the comparison is exact string equality, as the handler's design intends. Case-, accent- or trailing-space-insensitive collations, which MySQL may apply depending on version and column, are not modelled. How a DATE/TIME column is rendered by CONCAT is not modelled either: the stored date and time are kept as text.
- Polyline.DecodePolyline:
  - requires no run of more than five continuation characters (`ShortValues`), so every value stays below 2^30, where JavaScript's 32-bit `<<`, `|`, `>>` and `~` agree with integer arithmetic;
  - longer runs, where shifts wrap, are not modelled;
  - every encoding of deltas whose zigzag value is below 2^30, that is -2^29 <= delta < 2^29, meets this requirement (`EncodingIsShort`); this covers every real coordinate delta, at most 360 degrees or 36,000,000 units (`CoordinateDeltasSmall`); larger deltas, which the 32-bit format itself still carries, are not covered;
  - the final division by 1e5 into floating point is not modelled: points are integer 1e-5 units;
  - a character past the end reads as NaN in the source; it is modelled as the final chunk 0;
  - a Dafny `char` is a Unicode scalar value, not a UTF-16 code unit: lone surrogate code units (0xD800-0xDFFF), which `charCodeAt` can return, cannot appear in the input, and a character above 0xFFFF stands for one value where JavaScript would read two code units;
  - the method also returns its final loop index, which the source discards.
- Queries.Login: `WHERE username = ?` compares under the column's collation; case-, accent- or trailing-space-insensitive collations (MySQL's defaults ignore at least case, so the source finds "alice" for "ALICE") are not modelled. The model compares usernames exactly.
- Queries.GetEvent: the `:id` path parameter is a string that MySQL converts to a number ("5abc" matches 5); the model takes the id as an integer.
- Queries.ListChats: the same holds for the `:eventId` path parameter, taken as an integer.
- SearchBar.LowerString lower-cases ASCII letters only; JavaScript's full Unicode `toLowerCase` is not modelled.
- SearchBar.FilterEvents:
  - the fetched event names are assumed non-NULL;
  - string lengths and indices count Unicode code points, not UTF-16 code units.
- `highlightMatchedText` (building a regular expression from the search text) is not modelled, and neither is any rendering.
- SelectEvent returns the event id to navigate to instead of performing the route change.
- SuggestionCard.DisplayTitle counts code points, whereas JavaScript's `length` and `substring` count UTF-16 code units (so a cut may split a surrogate pair there).
- Date formatting, geocoding and directions calls, and the forum chat component's network calls are not modelled.
