/** The home screen (screens/HomeScreen.js): it fetches the character list on request and
    narrows it, on every keystroke in the search bar, to the characters whose name contains the
    query, ignoring case. */
module Home {
  import opened Wrappers
  import opened Seqs
  import opened Characters

  // ----- String.prototype.trim -----

  /** The characters `trim` removes: ECMAScript WhiteSpace (tab, vertical tab, form feed,
      space, no-break space, the byte order mark and the other space separators) and
      LineTerminator (line feed, carriage return, line and paragraph separators). */
  predicate IsTrimmable(ch: char) {
    ch == '\t' || ch == '\n' || ch == '\U{000B}' || ch == '\U{000C}' || ch == '\r' ||
    ch == ' ' || ch == '\U{00A0}' || ch == '\U{1680}' || ('\U{2000}' <= ch <= '\U{200A}') ||
    ch == '\U{2028}' || ch == '\U{2029}' || ch == '\U{202F}' || ch == '\U{205F}' ||
    ch == '\U{3000}' || ch == '\U{FEFF}'
  }

  function TrimStart(s: string): string {
    if s != [] && IsTrimmable(s[0]) then TrimStart(s[1..]) else s
  }

  function TrimEnd(s: string): (r: string)
    ensures r != [] ==> !IsTrimmable(r[|r| - 1])
  {
    if s != [] && IsTrimmable(s[|s| - 1]) then TrimEnd(s[..|s| - 1]) else s
  }

  /** `s.trim()`: empty exactly for a blank string, and otherwise neither starting nor ending
      with a trimmable character. */
  function Trim(s: string): (r: string)
    ensures r == [] <==> IsBlank(s)
    ensures r != [] ==> !IsTrimmable(r[0]) && !IsTrimmable(r[|r| - 1])
  {
    TrimStartEmpty(s);
    var t := TrimStart(s);
    if t == [] then TrimEnd(t)
    else TrimEndKeepsHead(t); TrimEnd(t)
  }

  /** The query consists of trimmable characters only, the empty query included. */
  predicate IsBlank(s: string) {
    forall i :: 0 <= i < |s| ==> IsTrimmable(s[i])
  }

  lemma {:induction false} TrimStartEmpty(s: string)
    ensures TrimStart(s) == [] <==> IsBlank(s)
    ensures TrimStart(s) != [] ==> !IsTrimmable(TrimStart(s)[0])
  {
    if s != [] && IsTrimmable(s[0]) {
      TrimStartEmpty(s[1..]);
      assert forall i :: 1 <= i < |s| ==> s[i] == s[1..][i - 1];
    }
  }

  lemma {:induction false} TrimEndKeepsHead(s: string)
    requires s != [] && !IsTrimmable(s[0])
    ensures TrimEnd(s) != [] && TrimEnd(s)[0] == s[0]
  {
    if IsTrimmable(s[|s| - 1]) {
      TrimEndKeepsHead(s[..|s| - 1]);
    }
  }

  // ----- String.prototype.toLowerCase, restricted to ASCII -----

  function LowerChar(ch: char): char {
    if 'A' <= ch <= 'Z' then (ch as int + 32) as char else ch
  }

  function UpperChar(ch: char): char {
    if 'a' <= ch <= 'z' then (ch as int - 32) as char else ch
  }

  /** `s.toLowerCase()` on ASCII letters; every other character is kept. */
  function ToLower(s: string): (r: string)
    ensures |r| == |s|
    ensures forall i :: 0 <= i < |s| ==> r[i] == LowerChar(s[i])
  {
    if s == [] then [] else [LowerChar(s[0])] + ToLower(s[1..])
  }

  /** `s.toUpperCase()` on ASCII letters, used to state that matching ignores case. */
  function ToUpper(s: string): (r: string)
    ensures |r| == |s|
    ensures forall i :: 0 <= i < |s| ==> r[i] == UpperChar(s[i])
  {
    if s == [] then [] else [UpperChar(s[0])] + ToUpper(s[1..])
  }

  // ----- String.prototype.includes -----

  /** `sub` occurs in `s` starting at index `i`. */
  predicate OccursAt(s: string, sub: string, i: nat) {
    i + |sub| <= |s| && s[i..i + |sub|] == sub
  }

  /** `s.includes(sub)`, by trying every start position from the left. */
  predicate Contains(s: string, sub: string)
    ensures Contains(s, sub) ==> |sub| <= |s|
    decreases |s|
  {
    sub <= s || (s != [] && Contains(s[1..], sub))
  }

  /** The recursive search agrees with the definition of a substring occurrence. */
  lemma {:induction false} ContainsIff(s: string, sub: string)
    ensures Contains(s, sub) <==> exists i: nat :: OccursAt(s, sub, i)
    decreases |s|
  {
    if sub <= s {
      assert OccursAt(s, sub, 0);
    } else if s == [] {
      // sub is not a prefix of the empty string, so it is too long to occur anywhere
    } else {
      ContainsIff(s[1..], sub);
      if exists i: nat :: OccursAt(s, sub, i) {
        var i: nat :| OccursAt(s, sub, i);
        assert i != 0;
        assert s[1..][i - 1..i - 1 + |sub|] == s[i..i + |sub|];
        assert OccursAt(s[1..], sub, i - 1);
      }
      if exists i: nat :: OccursAt(s[1..], sub, i) {
        var i: nat :| OccursAt(s[1..], sub, i);
        assert s[1..][i..i + |sub|] == s[i + 1..i + 1 + |sub|];
        assert OccursAt(s, sub, i + 1);
      }
    }
  }

  // ----- the search filter -----

  /** `char.name.toLowerCase().includes(query.toLowerCase())`; a name can only match a query
      no longer than itself. */
  predicate NameMatches(c: Character, query: string)
    ensures NameMatches(c, query) ==> |query| <= |c.name|
  {
    Contains(ToLower(c.name), ToLower(query))
  }

  /** `characters.filter(...)` with the name match: only matching characters of the list. */
  function FilterByName(characters: seq<Character>, query: string): (r: seq<Character>)
    ensures |r| <= |characters|
    ensures forall c :: c in r ==> c in characters && NameMatches(c, query)
  {
    Filter(characters, (c: Character) => NameMatches(c, query))
  }

  /** The list `onChangeSearch(query)` shows: everything for a blank query, otherwise the
      matching characters. The query is trimmed only for the blank test. */
  function SearchResult(characters: seq<Character>, query: string): (r: seq<Character>)
    ensures IsBlank(query) ==> r == characters
    ensures forall c :: c in r ==> c in characters
    ensures !IsBlank(query) ==> forall c :: c in r ==> NameMatches(c, query)
  {
    if Trim(query) == "" then characters else FilterByName(characters, query)
  }

  /** A blank query shows the whole list, in order. */
  lemma SearchBlank(characters: seq<Character>, query: string)
    requires IsBlank(query)
    ensures SearchResult(characters, query) == characters
  {
  }

  /** A non-blank query shows exactly the characters whose lowercased name has the lowercased
      query, untrimmed, as a substring. */
  lemma SearchMembership(characters: seq<Character>, query: string, c: Character)
    requires !IsBlank(query)
    ensures c in SearchResult(characters, query) <==>
            c in characters && exists i: nat :: OccursAt(ToLower(c.name), ToLower(query), i)
  {
    assert SearchResult(characters, query) == FilterByName(characters, query);
    FilterMembership(characters, (c: Character) => NameMatches(c, query), c);
    assert c in FilterByName(characters, query) <==> c in characters && NameMatches(c, query);
    ContainsIff(ToLower(c.name), ToLower(query));
  }

  /** The search result is a subsequence of the list, so never longer than it. */
  lemma SearchIsSubsequence(characters: seq<Character>, query: string)
    ensures IsSubsequence(SearchResult(characters, query), characters)
    ensures |SearchResult(characters, query)| <= |characters|
  {
    if Trim(query) == "" {
      SubsequenceReflexive(characters);
    } else {
      FilterIsSubsequence(characters, (c: Character) => NameMatches(c, query));
    }
    SubsequenceLength(SearchResult(characters, query), characters);
  }

  /** Lowercasing neither creates nor removes trimmable characters. */
  lemma BlankIffLowerBlank(s: string)
    ensures IsBlank(s) <==> IsBlank(ToLower(s))
  {
    forall i | 0 <= i < |s| ensures IsTrimmable(s[i]) <==> IsTrimmable(ToLower(s)[i]) {
      assert ToLower(s)[i] == LowerChar(s[i]);
    }
  }

  /** Two queries with the same lowercase form show the same list. */
  lemma SearchSameLower(characters: seq<Character>, q1: string, q2: string)
    requires ToLower(q1) == ToLower(q2)
    ensures SearchResult(characters, q1) == SearchResult(characters, q2)
  {
    BlankIffLowerBlank(q1);
    BlankIffLowerBlank(q2);
    if Trim(q1) != "" {
      FilterCongruent(characters, (c: Character) => NameMatches(c, q1),
                                  (c: Character) => NameMatches(c, q2));
    }
  }

  lemma LowerOfUpper(s: string)
    ensures ToLower(ToUpper(s)) == ToLower(s)
  {
    forall i | 0 <= i < |s| ensures ToLower(ToUpper(s))[i] == ToLower(s)[i] {
      assert ToUpper(s)[i] == UpperChar(s[i]);
    }
  }

  lemma LowerOfLower(s: string)
    ensures ToLower(ToLower(s)) == ToLower(s)
  {
    forall i | 0 <= i < |s| ensures ToLower(ToLower(s))[i] == ToLower(s)[i] {
      assert ToLower(s)[i] == LowerChar(s[i]);
    }
  }

  /** Matching ignores case: an all-uppercase or all-lowercase spelling of the query shows the
      same list as the query itself ("ERE" and "ere" alike). */
  lemma SearchIgnoresCase(characters: seq<Character>, query: string)
    ensures SearchResult(characters, ToUpper(query)) == SearchResult(characters, query)
    ensures SearchResult(characters, ToLower(query)) == SearchResult(characters, query)
  {
    LowerOfUpper(query);
    LowerOfLower(query);
    SearchSameLower(characters, ToUpper(query), query);
    SearchSameLower(characters, ToLower(query), query);
  }

  /** Surrounding spaces of a non-blank query take part in the match: with a leading space,
      only names that contain a space can match. */
  lemma SearchKeepsLeadingSpace(characters: seq<Character>, query: string, c: Character)
    requires !IsBlank(query)
    requires c in SearchResult(characters, " " + query)
    ensures ' ' in c.name
  {
    var padded := " " + query;
    assert !IsTrimmable(query[0]) || !IsBlank(padded) by {
      var k :| 0 <= k < |query| && !IsTrimmable(query[k]);
      assert padded[k + 1] == query[k];
    }
    SearchMembership(characters, padded, c);
    var name := ToLower(c.name);
    var i: nat :| OccursAt(name, ToLower(padded), i);
    assert name[i] == ToLower(padded)[0] == ' ';
    assert LowerChar(c.name[i]) == ' ';
    assert c.name[i] == ' ';
  }

  /** The home screen's state: the fetched list, the list on display, the loading flag and
      the text of the search bar. */
  class HomeScreen {
    var characters: seq<Character>
    var filteredCharacters: seq<Character>
    var loading: bool
    var searchQuery: string

    /** The displayed list is what the search bar's text selects from the fetched list. */
    ghost predicate ShowsSearch()
      reads this
    {
      filteredCharacters == SearchResult(characters, searchQuery)
    }

    constructor ()
      ensures characters == [] && filteredCharacters == [] && !loading && searchQuery == ""
      ensures ShowsSearch()
    {
      characters, filteredCharacters := [], [];
      loading, searchQuery := false, "";
    }

    /** `fetchCharacters` with the request's `results` as input (`None` when the request
        fails): on success both lists become the fetched list whatever the search bar holds; a
        failure is caught and keeps both lists; in every case loading ends. */
    method FetchCharacters(response: Option<seq<Character>>)
      modifies this`characters, this`filteredCharacters, this`loading
      ensures !loading
      ensures response.Some? ==>
              characters == response.value && filteredCharacters == response.value
      ensures response.None? ==>
              characters == old(characters) && filteredCharacters == old(filteredCharacters)
      ensures response.Some? && IsBlank(searchQuery) ==> ShowsSearch()
    {
      loading := true;
      if response.Some? {
        characters := response.value;
        filteredCharacters := response.value;
      }
      loading := false;
      if response.Some? && IsBlank(searchQuery) {
        SearchBlank(characters, searchQuery);
      }
    }

    /** `onChangeSearch`: record the query, then show the whole list for a blank query and the
        name matches otherwise. The fetched list is not touched. */
    method OnChangeSearch(query: string)
      modifies this`searchQuery, this`filteredCharacters
      ensures searchQuery == query
      ensures filteredCharacters == SearchResult(characters, query)
      ensures ShowsSearch()
    {
      searchQuery := query;
      if Trim(query) == "" {
        filteredCharacters := characters;
      } else {
        var filtered := FilterByName(characters, query);
        filteredCharacters := filtered;
      }
    }
  }
}
