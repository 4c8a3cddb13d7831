/** The collections screen: the searchable list of collections, the dialog
    that adds a collection by name, and the delete buttons shown while
    editing. */
module CollectionsView {
  import opened SwiftSeq
  import opened Store

  /** `haystack.contains(needle)`: `needle` occurs as a contiguous run of `haystack`. */
  predicate Contains(haystack: string, needle: string) {
    exists i :: 0 <= i <= |haystack| && needle <= haystack[i..]
  }

  /** The search closure: everything matches an empty search text; otherwise a
      record matches when its lowercased name contains the lowercased text.
      `lowercased` stands for `String.lowercased()`. */
  function MatchesSearch(searchText: string, lowercased: string -> string): CollectionModel -> bool {
    (m: CollectionModel) => searchText == [] || Contains(lowercased(m.name), lowercased(searchText))
  }

  /** `filteredCollections`: the records the list shows for a search text. */
  function FilteredCollections(s: seq<CollectionModel>, searchText: string,
                               lowercased: string -> string): (r: seq<CollectionModel>)
    ensures |r| <= |s|
  {
    Filter(s, MatchesSearch(searchText, lowercased))
  }

  /** An empty search shows the whole list, in its order. */
  lemma EmptySearchShowsAll(s: seq<CollectionModel>, lowercased: string -> string)
    ensures FilteredCollections(s, [], lowercased) == s
  {
    FilterKeepsAll(s, MatchesSearch([], lowercased));
  }

  /** A non-empty search shows exactly the records whose lowercased name
      contains the lowercased search text, each as often as it is stored. */
  lemma SearchShowsMatches(s: seq<CollectionModel>, searchText: string, lowercased: string -> string)
    requires searchText != []
    ensures forall m :: m in FilteredCollections(s, searchText, lowercased)
                        <==> m in s && Contains(lowercased(m.name), lowercased(searchText))
    ensures forall m :: multiset(FilteredCollections(s, searchText, lowercased))[m]
                        == if Contains(lowercased(m.name), lowercased(searchText)) then multiset(s)[m] else 0
  {
    var p := MatchesSearch(searchText, lowercased);
    forall m ensures m in Filter(s, p) <==> m in s && Contains(lowercased(m.name), lowercased(searchText)) {
      FilterMembers(s, p, m);
    }
    forall m ensures multiset(Filter(s, p))[m]
                     == if Contains(lowercased(m.name), lowercased(searchText)) then multiset(s)[m] else 0 {
      FilterCounts(s, p, m);
    }
  }

  /** The list shown is the stored list with some records left out, in order. */
  lemma SearchKeepsOrder(s: seq<CollectionModel>, searchText: string, lowercased: string -> string)
    ensures IsSubsequence(FilteredCollections(s, searchText, lowercased), s)
  {
    FilterIsSubsequence(s, MatchesSearch(searchText, lowercased));
  }

  /** With unique ids, the delete button of a shown record removes that record
      and nothing else. */
  lemma DeleteShownRecord(s: seq<CollectionModel>, searchText: string, lowercased: string -> string,
                          m: CollectionModel)
    requires UniqueIds(s)
    requires m in FilteredCollections(s, searchText, lowercased)
    ensures |WithoutId(s, m.id)| == |s| - 1
    ensures forall x :: x in WithoutId(s, m.id) <==> x in s && x != m
  {
    FilterMembers(s, MatchesSearch(searchText, lowercased), m);
    assert m.id in Ids(s);
    WithoutIdRemovesOne(s, m.id);
    WithoutIdRemovesExactly(s, m.id);
    forall x | x in s ensures x.id == m.id <==> x == m {
      var i :| 0 <= i < |s| && s[i] == x;
      var j :| 0 <= j < |s| && s[j] == m;
      assert s[i].id == s[j].id ==> i == j;
    }
  }

  class CollectionsView {
    const store: CollectionStore
    var searchText: string
    var showNewCollectionDialog: bool
    var newCollectionName: string
    var isEditing: bool

    constructor (store: CollectionStore)
      ensures this.store == store
      ensures searchText == [] && newCollectionName == []
      ensures !showNewCollectionDialog && !isEditing
    {
      this.store := store;
      searchText := [];
      showNewCollectionDialog := false;
      newCollectionName := [];
      isEditing := false;
    }

    /** The "+ Add Collection" button opens the dialog. */
    method AddCollectionTapped()
      modifies this
      ensures showNewCollectionDialog
      ensures searchText == old(searchText) && newCollectionName == old(newCollectionName)
      ensures isEditing == old(isEditing)
    {
      showNewCollectionDialog := true;
    }

    /** The trash / checkmark button switches editing on and off. */
    method EditTapped()
      modifies this
      ensures isEditing == !old(isEditing)
      ensures searchText == old(searchText) && newCollectionName == old(newCollectionName)
      ensures showNewCollectionDialog == old(showNewCollectionDialog)
    {
      isEditing := !isEditing;
    }

    /** Cancel closes the dialog and clears the name. */
    method CancelTapped()
      modifies this
      ensures !showNewCollectionDialog && newCollectionName == []
      ensures searchText == old(searchText) && isEditing == old(isEditing)
    {
      showNewCollectionDialog := false;
      newCollectionName := [];
    }

    /** Save adds a collection with the entered name, an empty note and no
        images, but only when the name is not empty; either way it closes the
        dialog and clears the name. `id` stands for the new `UUID()`. */
    method SaveTapped(id: Uuid)
      modifies this, store
      ensures store.collections ==
                if old(newCollectionName) == [] then old(store.collections)
                else old(store.collections) + [CollectionModel(id, old(newCollectionName), [], [], false)]
      ensures old(store.Valid()) && id !in Ids(old(store.collections)) ==> store.Valid()
      ensures !showNewCollectionDialog && newCollectionName == []
      ensures searchText == old(searchText) && isEditing == old(isEditing)
    {
      if newCollectionName != [] {
        store.AddCollection(id, newCollectionName, [], [], (img: UIImage) => None);
      }
      showNewCollectionDialog := false;
      newCollectionName := [];
    }

    /** The delete button of a shown record deletes by that record's id. */
    method DeleteTapped(model: CollectionModel)
      modifies store
      ensures store.collections == WithoutId(old(store.collections), model.id)
      ensures old(store.Valid()) ==> store.Valid()
    {
      store.DeleteCollection(model.id);
    }
  }
}
