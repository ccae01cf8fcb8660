/**
 * The search bar's event filter: the search text is lower-cased and split on
 * runs of white space, and an event is listed when its lower-cased name
 * contains every word. Lower-casing covers ASCII letters only.
 */
module SearchBar {
  import opened Seqs

  /** The `{id, name}` records fetched from `/api/events-names-for-search-bar`. */
  datatype Entry = Entry(id: int, name: string)

  /** The component's state after its effects have run. */
  datatype State = State(searchText: string, filtered: seq<Entry>, events: seq<Entry>)

  /** ASCII `toLowerCase` of one character. */
  function Lower(c: char): char
  {
    if 'A' <= c <= 'Z' then (c as int + 32) as char else c
  }

  /**
   * Lower-casing leaves no upper-case ASCII letter, moves each upper-case
   * letter to its lower-case partner and keeps every other character.
   */
  function LowerString(s: string): (r: string)
    ensures |r| == |s|
    ensures forall k :: 0 <= k < |r| ==> !('A' <= r[k] <= 'Z')
    ensures forall k :: 0 <= k < |s| && 'A' <= s[k] <= 'Z' ==> r[k] as int == s[k] as int + 32
    ensures forall k :: 0 <= k < |s| && !('A' <= s[k] <= 'Z') ==> r[k] == s[k]
  {
    seq(|s|, k requires 0 <= k < |s| => Lower(s[k]))
  }

  /** Lower-casing twice is lower-casing once. */
  lemma LowerIdempotent(s: string)
    ensures LowerString(LowerString(s)) == LowerString(s)
  {
  }

  /** JavaScript's `\s`: white space and line terminators. */
  predicate IsSpace(c: char)
  {
    var n := c as int;
    n == 0x20 || 0x09 <= n <= 0x0D || n == 0xA0 || n == 0x1680 || 0x2000 <= n <= 0x200A ||
    n == 0x2028 || n == 0x2029 || n == 0x202F || n == 0x205F || n == 0x3000 || n == 0xFEFF
  }

  predicate NoSpace(w: string)
  {
    forall k :: 0 <= k < |w| ==> !IsSpace(w[k])
  }

  /**
   * `s.split(/\s+/)`: the pieces between maximal runs of white space, with an
   * empty first (last) piece when `s` starts (ends) with white space.
   */
  function Split(s: string): (r: seq<string>)
    ensures |r| >= 1
    decreases |s|
  {
    if s == [] then [""]
    else
      var init := Split(s[..|s| - 1]);
      var c := s[|s| - 1];
      if !IsSpace(c) then init[..|init| - 1] + [init[|init| - 1] + [c]]
      else if |s| > 1 && IsSpace(s[|s| - 2]) then init
      else init + [""]
  }

  /** `name.includes(word)` */
  predicate Includes(name: string, word: string)
  {
    exists k :: 0 <= k <= |name| && word <= name[k..]
  }

  /** `searchWords.every((word) => event.name.toLowerCase().includes(word))` */
  predicate MatchesAll(e: Entry, words: seq<string>)
  {
    forall w :: w in words ==> Includes(LowerString(e.name), w)
  }

  function Matches(words: seq<string>): Entry -> bool
  {
    (e: Entry) => MatchesAll(e, words)
  }

  function SearchWords(searchText: string): seq<string>
  {
    Split(LowerString(searchText))
  }

  /**
   * The filtering effect: nothing for an empty search text; otherwise the
   * events that match every search word, in their fetched order.
   */
  function FilterEvents(events: seq<Entry>, searchText: string): (r: seq<Entry>)
    ensures searchText == "" ==> r == []
    ensures forall k :: 0 <= k < |r| ==> r[k] in events && MatchesAll(r[k], SearchWords(searchText))
    ensures searchText != "" ==>
      forall e :: e in events && MatchesAll(e, SearchWords(searchText)) ==> e in r
    ensures IsSubsequence(r, events)
  {
    if searchText == "" then []
    else
      var words := SearchWords(searchText);
      FilterSubsequence(events, Matches(words));
      assert forall e :: e in events && MatchesAll(e, words) ==> e in Filter(events, Matches(words)) by {
        forall e | e in events && MatchesAll(e, words) ensures e in Filter(events, Matches(words)) {
          FilterComplete(events, Matches(words), e);
        }
      }
      Filter(events, Matches(words))
  }

  // ---------------------------------------------------------------------------
  // Properties of the word split

  /** No search word contains white space. */
  lemma {:induction false} SplitWordsHaveNoSpace(s: string)
    ensures forall k :: 0 <= k < |Split(s)| ==> NoSpace(Split(s)[k])
    decreases |s|
  {
    if s != [] {
      SplitWordsHaveNoSpace(s[..|s| - 1]);
    }
  }

  /** Text ending in white space splits with an empty last piece. */
  lemma SplitEndsEmpty(s: string)
    requires s != [] && IsSpace(s[|s| - 1])
    ensures Split(s)[|Split(s)| - 1] == ""
    decreases |s|
  {
    if |s| > 1 && IsSpace(s[|s| - 2]) {
      SplitEndsEmpty(s[..|s| - 1]);
    }
  }

  /** Appending characters without white space extends the last piece. */
  lemma {:induction false} SplitAppendWord(s: string, t: string)
    requires NoSpace(t)
    ensures var w := Split(s);
      Split(s + t) == w[..|w| - 1] + [w[|w| - 1] + t]
    decreases |t|
  {
    var w := Split(s);
    if t == [] {
      assert s + t == s;
      assert w[|w| - 1] + t == w[|w| - 1];
      assert w[..|w| - 1] + [w[|w| - 1] + t] == w;
    } else {
      var t' := t[..|t| - 1];
      SplitAppendWord(s, t');
      assert (s + t)[..|s + t| - 1] == s + t';
      assert (s + t)[|s + t| - 1] == t[|t| - 1];
      assert t' + [t[|t| - 1]] == t;
      var init := Split(s + t');
      assert init == w[..|w| - 1] + [w[|w| - 1] + t'];
      assert !IsSpace(t[|t| - 1]);
      assert Split(s + t) == init[..|init| - 1] + [init[|init| - 1] + [t[|t| - 1]]];
      assert init[..|init| - 1] == w[..|w| - 1];
      assert init[|init| - 1] + [t[|t| - 1]] == w[|w| - 1] + t;
    }
  }

  /** Lower-casing distributes over concatenation, keeps spaces and non-spaces. */
  lemma LowerAppend(a: string, b: string)
    ensures LowerString(a + b) == LowerString(a) + LowerString(b)
  {
  }

  lemma LowerNoSpace(w: string)
    requires NoSpace(w)
    ensures NoSpace(LowerString(w))
  {
  }

  /** Lower-casing the text with an added word lower-cases each part. */
  lemma LowerQuery(searchText: string, word: string)
    requires NoSpace(word)
    ensures LowerString(searchText + " " + word) == LowerString(searchText) + " " + LowerString(word)
    ensures NoSpace(LowerString(word))
  {
    LowerAppend(searchText + " ", word);
    LowerAppend(searchText, " ");
    assert LowerString(" ") == " ";
    LowerNoSpace(word);
  }

  /** Every name includes the empty word. */
  lemma IncludesEmpty(name: string)
    ensures Includes(name, "")
  {
    assert "" <= name[0..];
  }

  /**
   * Typing one more word after a space never adds results: each earlier word
   * is still required, except an empty trailing piece, which every name
   * includes.
   */
  lemma AddWordNarrows(events: seq<Entry>, searchText: string, word: string)
    requires searchText != "" && NoSpace(word)
    ensures IsSubsequence(FilterEvents(events, searchText + " " + word), FilterEvents(events, searchText))
  {
    var text' := searchText + " " + word;
    var lt, lw := LowerString(searchText), LowerString(word);
    LowerQuery(searchText, word);
    var s := lt + " ";
    SplitAppendWord(s, lw);
    var w, ws, w' := Split(lt), Split(s), Split(s + lw);
    assert s[..|s| - 1] == lt;
    if lt != [] && IsSpace(lt[|lt| - 1]) {
      assert ws == w;
      SplitEndsEmpty(lt);
    } else {
      assert ws == w + [""];
    }
    assert w' == ws[..|ws| - 1] + [ws[|ws| - 1] + lw];
    forall e | MatchesAll(e, w') ensures MatchesAll(e, w) {
      forall x | x in w ensures Includes(LowerString(e.name), x) {
        var k :| 0 <= k < |w| && w[k] == x;
        if k < |ws| - 1 {
          assert w'[k] == ws[k] == x;
        } else {
          assert x == "";
          IncludesEmpty(LowerString(e.name));
        }
      }
    }
    FilterStronger(events, Matches(w), Matches(w'));
  }

  /** Requiring more words never adds results. */
  lemma MoreWordsNarrow(events: seq<Entry>, words: seq<string>, more: seq<string>)
    ensures IsSubsequence(Filter(events, Matches(words + more)), Filter(events, Matches(words)))
  {
    FilterStronger(events, Matches(words), Matches(words + more));
  }

  // ---------------------------------------------------------------------------
  // The component's state

  /** After its effects, the list shown is the filter of the fetched events. */
  predicate Consistent(st: State)
  {
    st.filtered == FilterEvents(st.events, st.searchText)
  }

  /** Initial state: no text, no results, no events yet. */
  function Initial(): (st: State)
    ensures Consistent(st) && st.searchText == "" && st.filtered == []
  {
    State("", [], [])
  }

  /** The fetch resolves: `setEvents(data)`, then the effect re-filters. */
  function EventsFetched(st: State, data: seq<Entry>): (r: State)
    ensures Consistent(r) && r.events == data && r.searchText == st.searchText
  {
    State(st.searchText, FilterEvents(data, st.searchText), data)
  }

  /** `handleSearchChange`: `setSearchText`, then the effect re-filters. */
  function SearchChanged(st: State, text: string): (r: State)
    ensures Consistent(r) && r.searchText == text && r.events == st.events
  {
    State(text, FilterEvents(st.events, text), st.events)
  }

  /** `handleClearSearch`: both the text and the results become empty. */
  function ClearSearch(st: State): (r: State)
    ensures r.searchText == "" && r.filtered == [] && r.events == st.events
    ensures Consistent(r)
  {
    State("", [], st.events)
  }

  /** `handleEventSelect`: navigates to the event and resets like a clear. */
  function SelectEvent(st: State, eventId: int): (r: (State, int))
    ensures r.0 == ClearSearch(st) && r.1 == eventId
  {
    (State("", [], st.events), eventId)
  }
}
