/** The values the note client works with and the pure computations it performs on
    its list of notes: the form check, the three list updates that follow a
    successful request, the search filter, and which cards are in edit mode. */
module NoteList {
  import opened Text
  import opened Seqs

  /** The identifier the store assigns to a note (`_id`). */
  type Id = string

  datatype Note = Note(id: Id, title: string, content: string)

  /** The title/content pair a form holds before it is sent (`newNote`, `editNote`). */
  datatype Draft = Draft(title: string, content: string)

  const EmptyDraft := Draft("", "")

  datatype Option<T> = None | Some(value: T)

  /** The form check that guards create and update: neither field is empty after
      trimming, that is, each holds at least one non-whitespace character. */
  function Filled(d: Draft): (ok: bool)
    ensures ok <==> !AllWhitespace(d.title) && !AllWhitespace(d.content)
    ensures ok ==> d.title != [] && d.content != []
  {
    !IsBlank(d.title) && !IsBlank(d.content)
  }

  /** The draft a card's edit form starts from. */
  function DraftOf(n: Note): Draft {
    Draft(n.title, n.content)
  }

  predicate HasId(s: seq<Note>, id: Id) {
    exists i :: 0 <= i < |s| && s[i].id == id
  }

  /** No two positions of the list hold notes with the same identifier. */
  predicate UniqueIds(s: seq<Note>) {
    forall i, j :: 0 <= i < j < |s| ==> s[i].id != s[j].id
  }

  // ----- create: `[response.data, ...notes]` -----

  /** The created note goes first and the old list follows it unchanged. */
  function Prepend(n: Note, s: seq<Note>): (r: seq<Note>)
    ensures |r| == |s| + 1
    ensures r[0] == n && r[1..] == s
    ensures forall x :: x in r <==> x == n || x in s
  {
    [n] + s
  }

  /** Prepending keeps identifiers unique exactly when the new identifier is fresh. */
  lemma PrependUnique(n: Note, s: seq<Note>)
    requires UniqueIds(s)
    ensures UniqueIds(Prepend(n, s)) <==> !HasId(s, n.id)
  {
  }

  // ----- update: `notes.map(note => note._id === id ? response.data : note)` -----

  /** Every position holding identifier `id` now holds `n`; every other position is
      untouched, and the length stays the same. */
  function ReplaceById(s: seq<Note>, id: Id, n: Note): (r: seq<Note>)
    ensures |r| == |s|
    ensures forall i :: 0 <= i < |s| ==> r[i] == if s[i].id == id then n else s[i]
  {
    if s == [] then []
    else [if s[0].id == id then n else s[0]] + ReplaceById(s[1..], id, n)
  }

  /** Replacing an identifier that is not in the list changes nothing. */
  lemma ReplaceAbsent(s: seq<Note>, id: Id, n: Note)
    requires !HasId(s, id)
    ensures ReplaceById(s, id, n) == s
  {
  }

  /** With unique identifiers, an update touches exactly the one position of `id`. */
  lemma ReplaceExactlyOne(s: seq<Note>, id: Id, n: Note, k: nat)
    requires UniqueIds(s) && k < |s| && s[k].id == id
    ensures ReplaceById(s, id, n) == s[k := n]
  {
  }

  /** When the reply keeps the identifier, every position keeps its identifier, so
      unique identifiers stay unique. */
  lemma ReplaceKeepsUnique(s: seq<Note>, id: Id, n: Note)
    requires n.id == id && UniqueIds(s)
    ensures UniqueIds(ReplaceById(s, id, n))
  {
  }

  /** Applying the same successful update twice gives what applying it once gives. */
  lemma ReplaceIdempotent(s: seq<Note>, id: Id, n: Note)
    ensures ReplaceById(ReplaceById(s, id, n), id, n) == ReplaceById(s, id, n)
  {
  }

  // ----- delete: `notes.filter(note => note._id !== id)` -----

  function NotId(id: Id): Note -> bool {
    (n: Note) => n.id != id
  }

  /** The list without the notes whose identifier is `id`. */
  function RemoveById(s: seq<Note>, id: Id): (r: seq<Note>)
    ensures !HasId(r, id)
    ensures |r| <= |s|
  {
    Filter(s, NotId(id))
  }

  /** What remains is exactly the old notes with other identifiers, each as often as
      before and in the same relative order. */
  lemma RemoveByIdKeepsOthers(s: seq<Note>, id: Id)
    ensures IsSubsequence(RemoveById(s, id), s)
    ensures forall x :: multiset(RemoveById(s, id))[x] == if x.id == id then 0 else multiset(s)[x]
  {
    FilterIsSubsequence(s, NotId(id));
    forall x ensures multiset(RemoveById(s, id))[x] == if x.id == id then 0 else multiset(s)[x] {
      FilterCount(s, NotId(id), x);
    }
  }

  /** Removing an identifier that is not in the list changes nothing; in particular a
      second removal of the same identifier is a no-op. */
  lemma RemoveAbsent(s: seq<Note>, id: Id)
    requires !HasId(s, id)
    ensures RemoveById(s, id) == s
  {
    FilterKeepsAll(s, NotId(id));
  }

  lemma RemoveTwice(s: seq<Note>, id: Id)
    ensures RemoveById(RemoveById(s, id), id) == RemoveById(s, id)
  {
    RemoveAbsent(RemoveById(s, id), id);
  }

  /** With unique identifiers, deleting a present identifier shortens the list by one. */
  lemma {:induction false} RemovePresentShortens(s: seq<Note>, id: Id)
    requires UniqueIds(s) && HasId(s, id)
    ensures |RemoveById(s, id)| == |s| - 1
  {
    if s[0].id == id {
      assert !HasId(s[1..], id);
      RemoveAbsent(s[1..], id);
    } else {
      assert UniqueIds(s[1..]);
      var j :| 0 <= j < |s| && s[j].id == id;
      assert s[1..][j - 1].id == id;
      RemovePresentShortens(s[1..], id);
    }
  }

  /** Any filter of a list with unique identifiers has unique identifiers. */
  lemma {:induction false} FilterKeepsUnique(s: seq<Note>, keep: Note -> bool)
    requires UniqueIds(s)
    ensures UniqueIds(Filter(s, keep))
  {
    if s != [] {
      assert UniqueIds(s[1..]);
      FilterKeepsUnique(s[1..], keep);
      if keep(s[0]) {
        var rest := Filter(s[1..], keep);
        forall j | 0 <= j < |rest| ensures s[0].id != rest[j].id {
          var k :| 0 <= k < |s[1..]| && s[1..][k] == rest[j];
          assert s[k + 1] == rest[j];
        }
      }
    }
  }

  lemma RemoveKeepsUnique(s: seq<Note>, id: Id)
    requires UniqueIds(s)
    ensures UniqueIds(RemoveById(s, id))
  {
    FilterKeepsUnique(s, NotId(id));
  }

  // ----- search: case-insensitive substring over title or content -----

  /** `note.title.toLowerCase().includes(term.toLowerCase()) ||
      note.content.toLowerCase().includes(term.toLowerCase())` */
  predicate MatchesSearch(n: Note, term: string) {
    Contains(ToLower(n.title), ToLower(term)) || Contains(ToLower(n.content), ToLower(term))
  }

  function SearchTest(term: string): Note -> bool {
    (n: Note) => MatchesSearch(n, term)
  }

  /** The notes shown for a search term. */
  function Search(s: seq<Note>, term: string): (r: seq<Note>)
    ensures |r| <= |s|
    ensures forall i :: 0 <= i < |r| ==> r[i] in s && MatchesSearch(r[i], term)
  {
    Filter(s, SearchTest(term))
  }

  /** The shown notes are the matching notes of the list, each as often as in the
      list, in the list's order; nothing that does not match is shown. */
  lemma SearchKeepsMatches(s: seq<Note>, term: string)
    ensures IsSubsequence(Search(s, term), s)
    ensures forall x :: multiset(Search(s, term))[x] == if MatchesSearch(x, term) then multiset(s)[x] else 0
  {
    FilterIsSubsequence(s, SearchTest(term));
    forall x ensures multiset(Search(s, term))[x] == if MatchesSearch(x, term) then multiset(s)[x] else 0 {
      FilterCount(s, SearchTest(term), x);
    }
  }

  /** When every note matches, the search shows the whole list. */
  lemma SearchAllMatch(s: seq<Note>, term: string)
    requires forall i :: 0 <= i < |s| ==> MatchesSearch(s[i], term)
    ensures Search(s, term) == s
  {
    FilterKeepsAll(s, SearchTest(term));
  }

  /** When no note matches, the search shows nothing. */
  lemma SearchNoneMatch(s: seq<Note>, term: string)
    requires forall i :: 0 <= i < |s| ==> !MatchesSearch(s[i], term)
    ensures Search(s, term) == []
  {
    FilterKeepsNone(s, SearchTest(term));
  }

  /** The empty term shows every note, in order. */
  lemma SearchEmptyTerm(s: seq<Note>)
    ensures Search(s, "") == s
  {
    forall i | 0 <= i < |s| ensures MatchesSearch(s[i], "") {
      assert OccursAt(ToLower(s[i].title), ToLower(""), 0);
    }
    SearchAllMatch(s, "");
  }

  /** Terms that differ only in the case of letters show the same notes. */
  lemma SearchIgnoresCase(s: seq<Note>, t1: string, t2: string)
    requires ToLower(t1) == ToLower(t2)
    ensures Search(s, t1) == Search(s, t2)
  {
    FilterCongruent(s, SearchTest(t1), SearchTest(t2));
  }

  /** Searching the shown notes again with the same term shows the same notes. */
  lemma SearchIdempotent(s: seq<Note>, term: string)
    ensures Search(Search(s, term), term) == Search(s, term)
  {
    FilterIdempotent(s, SearchTest(term));
  }

  lemma SearchKeepsUnique(s: seq<Note>, term: string)
    requires UniqueIds(s)
    ensures UniqueIds(Search(s, term))
  {
    FilterKeepsUnique(s, SearchTest(term));
  }

  /** The two-note example: "shop" finds "Shopping"/"milk" by its title and
      "Work"/"shopping list" by its content. */
  lemma SearchExampleFindsBoth(shopping: Note, work: Note)
    requires shopping == Note("1", "Shopping", "milk")
    requires work == Note("2", "Work", "shopping list")
    ensures Search([shopping, work], "shop") == [shopping, work]
  {
    assert MatchesSearch(shopping, "shop") by {
      assert ToLower("shop") == "shop";
      assert ToLower(shopping.title)[..4] == "shop";
      assert OccursAt(ToLower(shopping.title), "shop", 0);
    }
    assert MatchesSearch(work, "shop") by {
      assert ToLower("shop") == "shop";
      assert ToLower(work.content)[..4] == "shop";
      assert OccursAt(ToLower(work.content), "shop", 0);
    }
    SearchAllMatch([shopping, work], "shop");
  }

  /** In the same example "xyz" finds neither note, since no field holds an 'x'. */
  lemma SearchExampleFindsNone(shopping: Note, work: Note)
    requires shopping == Note("1", "Shopping", "milk")
    requires work == Note("2", "Work", "shopping list")
    ensures Search([shopping, work], "xyz") == []
  {
    assert ToLower("xyz") == "xyz";
    forall f | f in {shopping.title, shopping.content, work.title, work.content}
      ensures !Contains(ToLower(f), "xyz")
    {
      assert 'x' !in ToLower(f);
      if Contains(ToLower(f), "xyz") {
        ContainsHasFirst(ToLower(f), "xyz");
      }
    }
    SearchNoneMatch([shopping, work], "xyz");
  }

  // ----- edit mode: `editingId === note._id` -----

  /** The positions of `cards` rendered as edit forms. */
  function EditingCards(cards: seq<Note>, editingId: Option<Id>): set<int> {
    set i | 0 <= i < |cards| && editingId == Some(cards[i].id)
  }

  /** Because a single identifier selects the card being edited, at most one card of
      a list with unique identifiers is in edit mode, and none when nothing is edited. */
  lemma AtMostOneEditing(cards: seq<Note>, editingId: Option<Id>)
    requires UniqueIds(cards)
    ensures |EditingCards(cards, editingId)| <= 1
    ensures editingId == None ==> EditingCards(cards, editingId) == {}
  {
    var e := EditingCards(cards, editingId);
    if e != {} {
      var k :| k in e;
      assert e == {k};
    }
  }
}
