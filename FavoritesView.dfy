/** The favourites screen: the stored collections whose favourite flag is on. */
module FavoritesView {
  import opened SwiftSeq
  import opened Store

  function IsFavorite(m: CollectionModel): bool {
    m.isFavorite
  }

  /** `favorites`: the favourite records, in the store's order. */
  function Favorites(s: seq<CollectionModel>): (r: seq<CollectionModel>)
    ensures |r| <= |s|
    ensures forall k :: 0 <= k < |r| ==> r[k].isFavorite
  {
    Filter(s, IsFavorite)
  }

  /** The favourites are exactly the stored records with the flag on, each as
      often as it is stored, in the store's order. */
  lemma FavoritesExactly(s: seq<CollectionModel>)
    ensures forall m :: m in Favorites(s) <==> m in s && m.isFavorite
    ensures forall m :: multiset(Favorites(s))[m] == if m.isFavorite then multiset(s)[m] else 0
    ensures IsSubsequence(Favorites(s), s)
  {
    forall m ensures m in Favorites(s) <==> m in s && m.isFavorite {
      FilterMembers(s, IsFavorite, m);
    }
    forall m ensures multiset(Favorites(s))[m] == if m.isFavorite then multiset(s)[m] else 0 {
      FilterCounts(s, IsFavorite, m);
    }
    FilterIsSubsequence(s, IsFavorite);
  }
}
