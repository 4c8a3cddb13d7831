/** The screen of one collection, opened by name: its favourite button, its
    note and images, and saving the edits back into the store. */
module CollectionItemView {
  import opened SwiftSeq
  import opened Store

  /** The closure `{ $0.name == collectionName }`. */
  function HasName(name: string): CollectionModel -> bool {
    (m: CollectionModel) => m.name == name
  }

  /** `modelIndex`: the position of the first record named `name`, if any. */
  function ModelIndex(s: seq<CollectionModel>, name: string): (r: Option<nat>)
    ensures r.Some? ==> r.value < |s| && s[r.value].name == name
    ensures r.Some? ==> forall j :: 0 <= j < r.value ==> s[j].name != name
    ensures r.None? <==> forall m :: m in s ==> m.name != name
  {
    var r := FirstIndex(s, HasName(name));
    if r.None? then
      assert forall m :: m in s ==> m.name != name by {
        forall m | m in s ensures m.name != name {
          var j :| 0 <= j < |s| && s[j] == m;
          assert !HasName(name)(s[j]);
        }
      }
      r
    else
      assert HasName(name)(s[r.value]);
      r
  }

  /** The list after `saveChanges`: the first record named `name`, if any, with
      the given note and image data. */
  function WithEdits(s: seq<CollectionModel>, name: string, note: string, imagesData: seq<Data>)
    : seq<CollectionModel>
  {
    match ModelIndex(s, name)
    case None => s
    case Some(i) => s[i := s[i].(note := note, imagesData := imagesData)]
  }

  /** Saving changes only the note and image data of the first record with the
      name, and nothing when no record has it: the length, every id, name and
      favourite flag, and every other record stay as they were. */
  lemma EditsLandOnFirstNamed(s: seq<CollectionModel>, name: string, note: string, imagesData: seq<Data>)
    ensures |WithEdits(s, name, note, imagesData)| == |s|
    ensures forall k :: 0 <= k < |s| ==>
              var m, m' := s[k], WithEdits(s, name, note, imagesData)[k];
              m'.id == m.id && m'.name == m.name && m'.isFavorite == m.isFavorite
    ensures forall k :: 0 <= k < |s| && WithEdits(s, name, note, imagesData)[k] != s[k] ==>
              s[k].name == name && forall j :: 0 <= j < k ==> s[j].name != name
    ensures forall k :: 0 <= k < |s| && s[k].name == name ==>
              var m' := WithEdits(s, name, note, imagesData)[k];
              (m'.note == note && m'.imagesData == imagesData) || exists j :: 0 <= j < k && s[j].name == name
    ensures (forall m :: m in s ==> m.name != name) ==> WithEdits(s, name, note, imagesData) == s
  {
    match ModelIndex(s, name)
    case None =>
    case Some(i) =>
      var r := WithEdits(s, name, note, imagesData);
      forall k | 0 <= k < |s| && s[k].name == name
        ensures (r[k].note == note && r[k].imagesData == imagesData) || exists j :: 0 <= j < k && s[j].name == name
      {
        if k != i {
          assert i < k;
        }
      }
  }

  /** Saving keeps the ids, so it keeps them unique. */
  lemma EditsKeepUniqueIds(s: seq<CollectionModel>, name: string, note: string, imagesData: seq<Data>)
    ensures UniqueIds(s) ==> UniqueIds(WithEdits(s, name, note, imagesData))
  {
    EditsLandOnFirstNamed(s, name, note, imagesData);
  }

  /** With unique ids, the favourite button flips the flag of the first record
      with the screen's name and of no other record. */
  lemma FavoriteLandsOnFirstNamed(s: seq<CollectionModel>, name: string)
    requires UniqueIds(s) && ModelIndex(s, name).Some?
    ensures var i := ModelIndex(s, name).value;
            forall k :: 0 <= k < |s| ==>
              WithFavoriteToggled(s, s[i].id)[k].isFavorite == (s[k].isFavorite != (k == i))
  {
    var i := ModelIndex(s, name).value;
    IndexOfOwnId(s, i);
  }

  /** Re-encoding decoded images gives back the stored bytes when decoding
      succeeds on each of them and encoding reproduces its input. */
  lemma {:induction false} ReencodeRoundTrip(datas: seq<Data>, decode: Data -> Option<UIImage>,
                                            jpegData: UIImage -> Option<Data>)
    requires forall d :: d in datas ==> decode(d).Some? && jpegData(decode(d).value) == Some(d)
    ensures CompactMap(CompactMap(datas, decode), jpegData) == datas
  {
    if datas != [] {
      var d, rest := datas[0], datas[1..];
      assert d in datas;
      var image := decode(d).value;
      ReencodeRoundTrip(rest, decode, jpegData);
      CompactMapCons(datas, decode);
      var images := [image] + CompactMap(rest, decode);
      CompactMapCons(images, jpegData);
      assert images[1..] == CompactMap(rest, decode);
      assert datas == [d] + rest;
    }
  }

  /** Saving right after loading, with image codecs that reproduce their bytes,
      leaves the store as it was. */
  lemma SaveAfterLoadChangesNothing(s: seq<CollectionModel>, name: string, decode: Data -> Option<UIImage>,
                                    jpegData: UIImage -> Option<Data>)
    requires ModelIndex(s, name).Some?
    requires var m := s[ModelIndex(s, name).value];
             forall d :: d in m.imagesData ==> decode(d).Some? && jpegData(decode(d).value) == Some(d)
    ensures var m := s[ModelIndex(s, name).value];
            WithEdits(s, name, m.note, CompactMap(CompactMap(m.imagesData, decode), jpegData)) == s
  {
    var m := s[ModelIndex(s, name).value];
    ReencodeRoundTrip(m.imagesData, decode, jpegData);
  }

  class CollectionItemView {
    const collectionName: string
    const store: CollectionStore
    var uiImages: seq<UIImage>
    var noteText: string
    var isFavorite: bool

    constructor (collectionName: string, store: CollectionStore)
      ensures this.collectionName == collectionName && this.store == store
      ensures uiImages == [] && noteText == [] && !isFavorite
    {
      this.collectionName := collectionName;
      this.store := store;
      uiImages := [];
      noteText := [];
      isFavorite := false;
    }

    /** The heart shows the flag of the record the screen edits. */
    ghost predicate FavoriteInSync()
      reads this, store
    {
      match ModelIndex(store.collections, collectionName)
      case None => true
      case Some(i) => isFavorite == store.collections[i].isFavorite
    }

    /** The heart button flips the screen's own flag and, when a record has the
        screen's name, toggles that record in the store by its id. */
    method FavoriteTapped()
      modifies this, store
      ensures isFavorite == !old(isFavorite)
      ensures noteText == old(noteText) && uiImages == old(uiImages)
      ensures store.collections ==
                match ModelIndex(old(store.collections), collectionName)
                case None => old(store.collections)
                case Some(i) => WithFavoriteToggled(old(store.collections), old(store.collections)[i].id)
      ensures old(store.Valid()) ==> store.Valid()
      ensures old(store.Valid()) && old(FavoriteInSync()) ==> FavoriteInSync()
    {
      isFavorite := !isFavorite;
      ghost var s := store.collections;
      match ModelIndex(store.collections, collectionName)
      case None =>
      case Some(idx) =>
        var id := store.collections[idx].id;
        store.ToggleFavorite(id);
        ToggleKeepsIds(s, id);
        if UniqueIds(s) {
          FavoriteLandsOnFirstNamed(s, collectionName);
          ModelIndexKept(s, store.collections, collectionName);
        }
    }

    /** Copies the note, the decodable images and the favourite flag of the
        record with the screen's name; does nothing when there is none.
        `decode` stands for `UIImage(data:)`. */
    method LoadExistingData(decode: Data -> Option<UIImage>)
      modifies this
      ensures match ModelIndex(store.collections, collectionName)
              case None =>
                noteText == old(noteText) && uiImages == old(uiImages) && isFavorite == old(isFavorite)
              case Some(i) =>
                var m := store.collections[i];
                noteText == m.note && uiImages == CompactMap(m.imagesData, decode) && isFavorite == m.isFavorite
      ensures FavoriteInSync()
    {
      match ModelIndex(store.collections, collectionName)
      case None =>
      case Some(idx) =>
        var model := store.collections[idx];
        noteText := model.note;
        uiImages := CompactMap(model.imagesData, decode);
        isFavorite := model.isFavorite;
    }

    /** Writes the screen's note and the images that encode into the record
        with the screen's name; does nothing when there is none. */
    method SaveChanges(jpegData: UIImage -> Option<Data>)
      modifies store
      ensures store.collections == WithEdits(old(store.collections), collectionName, noteText, CompactMap(uiImages, jpegData))
      ensures old(store.Valid()) ==> store.Valid()
      ensures old(FavoriteInSync()) ==> FavoriteInSync()
    {
      ghost var s := store.collections;
      EditsKeepUniqueIds(s, collectionName, noteText, CompactMap(uiImages, jpegData));
      match ModelIndex(store.collections, collectionName)
      case None =>
      case Some(idx) =>
        store.collections := store.collections[idx := store.collections[idx].(note := noteText)];
        store.collections := store.collections[idx := store.collections[idx].(imagesData := CompactMap(uiImages, jpegData))];
        EditsLandOnFirstNamed(s, collectionName, noteText, CompactMap(uiImages, jpegData));
        ModelIndexKept(s, store.collections, collectionName);
    }
  }

  /** Changes that keep every name keep the first match by name. */
  lemma ModelIndexKept(s: seq<CollectionModel>, t: seq<CollectionModel>, name: string)
    requires |s| == |t|
    requires forall k :: 0 <= k < |s| ==> s[k].name == t[k].name
    ensures ModelIndex(s, name) == ModelIndex(t, name)
  {
    FirstIndexRespectsAgreement(s, t, HasName(name));
  }
}
