/** The client-side search of `src/screens/HomeScreen.js`: the list the home
    screen shows is the notes loaded by `getNotes`, filtered by the text in
    the search box, and a "Заметок не найдено" line appears under the box
    when that filter leaves nothing. `String.prototype.toLowerCase` is the
    parameter `lower`, a function from strings to strings that the model
    does not look inside. */
module HomeScreen {
  import opened Seqs
  import opened Text
  import opened SqlLike
  import opened Notes

  /** The callback given to `notes.filter`: the lower-cased title or the
      lower-cased content includes the lower-cased search text. */
  predicate Shows(n: Note, searchText: string, lower: string -> string)
  {
    Contains(lower(n.title), lower(searchText)) || Contains(lower(n.content), lower(searchText))
  }

  /** `filteredNotes`: exactly the shown notes, each as often as in `notes`,
      in their original order. */
  function FilteredNotes(notes: seq<Note>, searchText: string, lower: string -> string): (r: seq<Note>)
    ensures |r| <= |notes|
    ensures forall n :: n in r <==> n in notes && Shows(n, searchText, lower)
    ensures forall n :: multiset(r)[n] == if Shows(n, searchText, lower) then multiset(notes)[n] else 0
    ensures IsSubsequence(r, notes)
  {
    var keep := (n: Note) => Shows(n, searchText, lower);
    FilterIsSubsequence(notes, keep);
    Filter(notes, keep)
  }

  /** The condition under which "Заметок не найдено" is rendered: the search
      text is non-empty (JavaScript truthiness of a string) and the filtered
      list is empty. */
  predicate ShowsNothingFound(searchText: string, filtered: seq<Note>)
  {
    searchText != "" && |filtered| == 0
  }

  /** With an empty search box every note is shown, in order, since every
      string includes "" (and `"".toLowerCase()` is ""). */
  lemma EmptySearchShowsAll(notes: seq<Note>, lower: string -> string)
    requires lower("") == ""
    ensures FilteredNotes(notes, "", lower) == notes
  {
    forall n | n in notes ensures Shows(n, "", lower) {
      ContainsEmpty(lower(n.title));
    }
    IdenticalCountsAndOrder(FilteredNotes(notes, "", lower), notes);
  }

  /** Two subsequences of `s` with the same multiset are the same sequence. */
  lemma {:induction false} IdenticalCountsAndOrder(r: seq<Note>, s: seq<Note>)
    requires IsSubsequence(r, s) && multiset(r) == multiset(s)
    ensures r == s
  {
    if r != [] {
      assert s != [];
      if r[0] == s[0] && IsSubsequence(r[1..], s[1..]) {
        assert r == [r[0]] + r[1..] && s == [s[0]] + s[1..];
        assert multiset(r) == multiset{r[0]} + multiset(r[1..]);
        assert multiset(s) == multiset{s[0]} + multiset(s[1..]);
        forall x ensures multiset(r[1..])[x] == multiset(s[1..])[x] {
          assert multiset(r)[x] == multiset(s)[x];
        }
        assert multiset(r[1..]) == multiset(s[1..]);
        IdenticalCountsAndOrder(r[1..], s[1..]);
      } else {
        // r would fit in s[1..], yet has as many elements as s
        SubsequenceShrinks(r, s[1..]);
        assert false;
      }
    } else {
      assert |multiset(s)| == 0;
    }
  }

  lemma {:induction false} SubsequenceShrinks(r: seq<Note>, s: seq<Note>)
    requires IsSubsequence(r, s)
    ensures |r| <= |s|
  {
    if r != [] {
      if r[0] == s[0] && IsSubsequence(r[1..], s[1..]) {
        SubsequenceShrinks(r[1..], s[1..]);
      } else {
        SubsequenceShrinks(r, s[1..]);
      }
    }
  }

  /** The search text matters only through its lower-case form. */
  lemma {:induction false} SameLowerSameResult(notes: seq<Note>, a: string, b: string, lower: string -> string)
    requires lower(a) == lower(b)
    ensures FilteredNotes(notes, a, lower) == FilteredNotes(notes, b, lower)
  {
    if notes != [] {
      SameLowerSameResult(notes[1..], a, b, lower);
    }
  }

  /** The message shows exactly when the search text is non-empty and no
      loaded note matches it. */
  lemma NothingFoundIff(notes: seq<Note>, searchText: string, lower: string -> string)
    ensures ShowsNothingFound(searchText, FilteredNotes(notes, searchText, lower))
        <==> searchText != "" && forall n :: n in notes ==> !Shows(n, searchText, lower)
  {
    var r := FilteredNotes(notes, searchText, lower);
    if |r| != 0 {
      assert r[0] in r;
    }
  }

  /** Where `toLowerCase` acts on the note's title and content and on the
      term as SQLite's ASCII folding does (ASCII-only text, say) and the term
      holds no `%` or `_`, the screen's filter keeps the note exactly when
      `searchNotes` would select it. */
  lemma AgreesWithSearchNotes(notes: seq<Note>, term: string, lower: string -> string, n: Note)
    requires lower(n.title) == Lower(n.title) && lower(n.content) == Lower(n.content)
    requires lower(term) == Lower(term)
    requires WildcardFree(term)
    ensures n in FilteredNotes(notes, term, lower) <==> n in Search(notes, term)
  {
    SearchIsFoldedSubstring(notes, term, n);
  }
}
