/** The collection store: an ordered, in-memory list of collection records
    owned by one object, changed in place by adding, deleting, reordering and
    toggling the favourite flag. Persistence to disk is not part of this model. */
module Store {
  import opened SwiftSeq

  newtype byte = b: int | 0 <= b < 256

  /** Encoded bytes, such as the JPEG form of one image. */
  type Data = seq<byte>

  /** A 128-bit UUID. */
  newtype Uuid = u: int | 0 <= u < 0x1_0000_0000_0000_0000_0000_0000_0000_0000

  /** A decoded image, as far as this model needs one: its pixels. */
  datatype UIImage = UIImage(pixels: seq<int>)

  datatype CollectionModel = CollectionModel(
    id: Uuid,
    name: string,
    note: string,
    imagesData: seq<Data>,
    isFavorite: bool)

  /** The ids of the records of `s`. */
  function Ids(s: seq<CollectionModel>): set<Uuid> {
    set m: CollectionModel | m in s :: m.id
  }

  /** No two records share an id. */
  predicate UniqueIds(s: seq<CollectionModel>) {
    forall i, j :: 0 <= i < j < |s| ==> s[i].id != s[j].id
  }

  /** The closure `{ $0.id == id }`. */
  function HasId(id: Uuid): CollectionModel -> bool {
    (m: CollectionModel) => m.id == id
  }

  /** `collections.firstIndex(where: { $0.id == id })`. */
  function IndexOfId(s: seq<CollectionModel>, id: Uuid): (r: Option<nat>)
    ensures r.Some? ==> r.value < |s| && s[r.value].id == id
    ensures r.Some? ==> forall j :: 0 <= j < r.value ==> s[j].id != id
    ensures r.None? <==> id !in Ids(s)
  {
    var r := FirstIndex(s, HasId(id));
    if r.None? then
      assert forall m :: m in s ==> m.id != id by {
        forall m | m in s ensures m.id != id {
          var j :| 0 <= j < |s| && s[j] == m;
          assert !HasId(id)(s[j]);
        }
      }
      r
    else
      assert HasId(id)(s[r.value]);
      r
  }

  // ---------------------------------------------------------------------------
  // The new list after each operation

  /** `deleteCollection(id:)`: without the first record with `id`, if any. */
  function WithoutId(s: seq<CollectionModel>, id: Uuid): seq<CollectionModel> {
    match IndexOfId(s, id)
    case None => s
    case Some(i) => RemoveAt(s, i)
  }

  /** `toggleFavorite(on:)`: the first record with `id`, if any, with its
      favourite flag flipped. */
  function WithFavoriteToggled(s: seq<CollectionModel>, id: Uuid): seq<CollectionModel> {
    match IndexOfId(s, id)
    case None => s
    case Some(i) => s[i := s[i].(isFavorite := !s[i].isFavorite)]
  }

  // ---------------------------------------------------------------------------
  // The store object

  class CollectionStore {
    var collections: seq<CollectionModel>

    /** Every record has its own id. */
    ghost predicate Valid()
      reads this
    {
      UniqueIds(collections)
    }

    /** Starts from the loaded list when loading succeeded, empty otherwise. */
    constructor (loaded: Option<seq<CollectionModel>>)
      ensures collections == if loaded.Some? then loaded.value else []
      ensures (loaded.None? || UniqueIds(loaded.value)) ==> Valid()
    {
      match loaded
      case Some(list) => collections := list;
      case None => collections := [];
    }

    /** Appends a record with a new id, the given name and note, the images
        that encode, and the favourite flag off. `id` stands for `UUID()`. */
    method AddCollection(id: Uuid, name: string, note: string, uiImages: seq<UIImage>,
                         jpegData: UIImage -> Option<Data>)
      modifies this
      ensures collections == old(collections) + [CollectionModel(id, name, note, CompactMap(uiImages, jpegData), false)]
      ensures old(Valid()) && id !in Ids(old(collections)) ==> Valid()
    {
      var datas := CompactMap(uiImages, jpegData);
      var model := CollectionModel(id, name, note, datas, false);
      if UniqueIds(collections) && id !in Ids(collections) {
        AppendFreshKeepsUniqueIds(collections, model);
      }
      collections := collections + [model];
    }

    method DeleteCollectionAt(offsets: set<nat>)
      requires OffsetsIn(offsets, |collections|)
      modifies this
      ensures collections == RemoveAtOffsets(old(collections), offsets)
      ensures old(Valid()) ==> Valid()
    {
      RemoveAtOffsetsKeepsUniqueIds(collections, offsets);
      collections := RemoveAtOffsets(collections, offsets);
    }

    method DeleteCollection(id: Uuid)
      modifies this
      ensures collections == WithoutId(old(collections), id)
      ensures old(Valid()) ==> Valid()
    {
      WithoutIdKeepsUniqueIds(collections, id);
      match IndexOfId(collections, id)
      case Some(idx) =>
        collections := RemoveAt(collections, idx);
      case None =>
    }

    method MoveCollection(source: set<nat>, destination: nat)
      requires OffsetsIn(source, |collections|) && destination <= |collections|
      modifies this
      ensures collections == Move(old(collections), source, destination)
      ensures old(Valid()) ==> Valid()
    {
      MoveKeepsUniqueIds(collections, source, destination);
      collections := Move(collections, source, destination);
    }

    method ToggleFavorite(id: Uuid)
      modifies this
      ensures collections == WithFavoriteToggled(old(collections), id)
      ensures old(Valid()) ==> Valid()
    {
      ToggleKeepsIds(collections, id);
      match IndexOfId(collections, id)
      case None =>
      case Some(idx) =>
        collections := collections[idx := collections[idx].(isFavorite := !collections[idx].isFavorite)];
    }
  }

  // ---------------------------------------------------------------------------
  // Unique ids

  /** Appending a record whose id is not yet used keeps the ids unique. */
  lemma AppendFreshKeepsUniqueIds(s: seq<CollectionModel>, m: CollectionModel)
    requires UniqueIds(s) && m.id !in Ids(s)
    ensures UniqueIds(s + [m])
    ensures Ids(s + [m]) == Ids(s) + {m.id}
  {
    var r := s + [m];
    forall i, j | 0 <= i < j < |r| ensures r[i].id != r[j].id {
      if j == |s| {
        assert r[i] in s;
      }
    }
  }

  /** Reading each position at most once keeps the ids unique. */
  lemma PickKeepsUniqueIds(s: seq<CollectionModel>, idx: seq<nat>)
    requires Below(idx, |s|) && Distinct(idx) && UniqueIds(s)
    ensures UniqueIds(Pick(s, idx))
  {
    PickAt(s, idx);
  }

  lemma RemoveAtOffsetsKeepsUniqueIds(s: seq<CollectionModel>, offsets: set<nat>)
    requires OffsetsIn(offsets, |s|)
    ensures UniqueIds(s) ==> UniqueIds(RemoveAtOffsets(s, offsets))
  {
    PositionsSpec(0, |s|, Outside(|s|, offsets));
    if UniqueIds(s) {
      PickKeepsUniqueIds(s, Positions(0, |s|, Outside(|s|, offsets)));
    }
  }

  lemma MoveKeepsUniqueIds(s: seq<CollectionModel>, offsets: set<nat>, destination: nat)
    requires OffsetsIn(offsets, |s|) && destination <= |s|
    ensures UniqueIds(s) ==> UniqueIds(Move(s, offsets, destination))
  {
    MoveOrderDistinct(|s|, offsets, destination);
    if UniqueIds(s) {
      PickKeepsUniqueIds(s, MoveOrder(|s|, offsets, destination));
    }
  }

  lemma WithoutIdKeepsUniqueIds(s: seq<CollectionModel>, id: Uuid)
    ensures UniqueIds(s) ==> UniqueIds(WithoutId(s, id))
  {
    match IndexOfId(s, id)
    case None =>
    case Some(i) =>
      RemoveAtIsRemoveAtOffsets(s, i);
      RemoveAtOffsetsKeepsUniqueIds(s, {i});
  }

  /** With unique ids, looking up a record's own id finds that record. */
  lemma IndexOfOwnId(s: seq<CollectionModel>, i: nat)
    requires UniqueIds(s) && i < |s|
    ensures IndexOfId(s, s[i].id) == Some(i)
  {
    assert s[i] in s;
  }

  // ---------------------------------------------------------------------------
  // deleteCollection(id:)

  /** Deleting by id is deleting at the offset of the first record with that id. */
  lemma WithoutIdIsRemoveAtOffsets(s: seq<CollectionModel>, id: Uuid)
    requires id in Ids(s)
    ensures IndexOfId(s, id).Some?
    ensures WithoutId(s, id) == RemoveAtOffsets(s, {IndexOfId(s, id).value})
  {
    RemoveAtIsRemoveAtOffsets(s, IndexOfId(s, id).value);
  }

  /** Deleting an id no record has changes nothing; otherwise exactly one
      record with that id goes, and the others stay in their order. */
  lemma WithoutIdRemovesOne(s: seq<CollectionModel>, id: Uuid)
    ensures id !in Ids(s) ==> WithoutId(s, id) == s
    ensures id in Ids(s) ==>
              |WithoutId(s, id)| == |s| - 1
              && exists m :: m in s && m.id == id && multiset(WithoutId(s, id)) + multiset{m} == multiset(s)
    ensures IsSubsequence(WithoutId(s, id), s)
  {
    match IndexOfId(s, id)
    case None =>
      RemoveAtOffsetsKeepsOrder(s, {});
      assert s == RemoveAtOffsets(s, {}) by {
        PickEverything(s, 0, |s|, Outside(|s|, {}));
        assert s[0..|s|] == s;
      }
    case Some(i) =>
      WithoutIdIsRemoveAtOffsets(s, id);
      RemoveAtOffsetsCounts(s, {i});
      RemoveAtOffsetsKeepsOrder(s, {i});
      SingleOffset(s, i);
      assert multiset(WithoutId(s, id)) + multiset{s[i]} == multiset(s);
  }

  /** With unique ids, deleting by id removes exactly the record with that id. */
  lemma WithoutIdRemovesExactly(s: seq<CollectionModel>, id: Uuid)
    requires UniqueIds(s)
    ensures forall m :: m in WithoutId(s, id) <==> m in s && m.id != id
  {
    match IndexOfId(s, id)
    case None =>
    case Some(i) =>
      var r := WithoutId(s, id);
      assert r == s[..i] + s[i + 1..];
      forall m ensures m in r <==> m in s && m.id != id {
        if m in r {
          var k :| 0 <= k < |r| && r[k] == m;
          if k < i {
            assert r[k] == s[k];
          } else {
            assert r[k] == s[k + 1];
          }
        }
        if m in s && m.id != id {
          var j :| 0 <= j < |s| && s[j] == m;
          if j < i {
            assert r[j] == m;
          } else {
            assert r[j - 1] == m;
          }
        }
      }
  }

  // ---------------------------------------------------------------------------
  // toggleFavorite(on:)

  /** Toggling keeps the list's length, every id, name, note and image list,
      and so the ids. */
  lemma ToggleKeepsIds(s: seq<CollectionModel>, id: Uuid)
    ensures |WithFavoriteToggled(s, id)| == |s|
    ensures forall k :: 0 <= k < |s| ==>
              var m, m' := s[k], WithFavoriteToggled(s, id)[k];
              m'.id == m.id && m'.name == m.name && m'.note == m.note && m'.imagesData == m.imagesData
    ensures UniqueIds(s) ==> UniqueIds(WithFavoriteToggled(s, id))
  {
  }

  /** With unique ids, toggling flips the flag of the record with that id and
      of no other; an unknown id changes nothing. */
  lemma ToggleFlipsExactly(s: seq<CollectionModel>, id: Uuid)
    requires UniqueIds(s)
    ensures forall k :: 0 <= k < |s| ==>
              WithFavoriteToggled(s, id)[k].isFavorite == (s[k].isFavorite != (s[k].id == id))
    ensures id !in Ids(s) ==> WithFavoriteToggled(s, id) == s
  {
    ToggleKeepsIds(s, id);
  }

  /** Toggling twice restores the list. */
  lemma ToggleTwice(s: seq<CollectionModel>, id: Uuid)
    ensures WithFavoriteToggled(WithFavoriteToggled(s, id), id) == s
  {
    var t := WithFavoriteToggled(s, id);
    ToggleKeepsIds(s, id);
    FirstIndexRespectsAgreement(s, t, HasId(id));
  }

  // ---------------------------------------------------------------------------
  // A session

  /** Starting from no saved file, adding "Winter" and then toggling its
      favourite flag leaves one record: "Winter", with an empty note, no
      images and the flag on. */
  method WinterScenario(id: Uuid, jpegData: UIImage -> Option<Data>) returns (collections: seq<CollectionModel>)
    ensures collections == [CollectionModel(id, "Winter", "", [], true)]
  {
    var store := new CollectionStore(None);
    store.AddCollection(id, "Winter", "", [], jpegData);
    assert store.collections == [CollectionModel(id, "Winter", "", [], false)];
    store.ToggleFavorite(id);
    collections := store.collections;
  }
}
