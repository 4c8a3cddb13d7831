# The Fusion Collective: collection store and its views

The Fusion Collective is an iOS app. It keeps an ordered list of photo
collections. Each collection record has an id, a name, a note, a list of
encoded images and a favourite flag. One `CollectionStore` object owns the
list, and the screens change it in place:

- **Collections screen**: filters the list by a case-insensitive search on
  the name. It adds collections by name and deletes them by id while editing.
- **Collection screen**: opened by name. It edits the note and images of the
  first record with that name, and toggles its favourite flag.
- **Favourites screen**: shows the favourite records.

The model is in five modules:

- `SwiftSeq` models the Swift array operations the app relies on, as functions
  on sequences:
  - `firstIndex(where:)`, `filter`, `compactMap`, `remove(at:)`,
    `remove(atOffsets:)` and `move(fromOffsets:toOffset:)`;
  - an `IndexSet` is a `set<nat>`.

  Every offset-based operation is `Pick`: the elements read at a list of
  positions. `Positions` is the ascending list of positions in a range that a
  set selects. `move` reads three blocks in turn: the unmoved positions before
  the destination, the moved positions, then the remaining unmoved positions.
  So `[A, B, C]` moved from `{0}` to offset 2 gives `[B, A, C]`, and moving to
  offset 3 gives `[B, C, A]`.
- `Store` models the `CollectionModel` record and the `CollectionStore` class.
  - Its `collections` field is a `seq` that each method reassigns.
  - Each method states the new list as a function of the old one.
  - The invariant `Valid` (no two records share an id) is preserved by every
    method. For `AddCollection`, the new id must also be unused; `UUID()` is
    modelled as a parameter.
- `CollectionsView` models the search filter, and the Add, Edit, Cancel, Save
  and Delete button handlers.
- `CollectionItemView` models the name lookup and the three handlers:
  - the favourite button;
  - loading a record into the screen;
  - saving the screen's note and images back into the record.

  The screen finds its record by name. So when names repeat, every edit and
  every favourite toggle lands on the first record with that name; this is
  proved. The "update a record" operation exists only here: the screen writes
  the store's list directly rather than through a store method.
- `FavoritesView` models the favourites filter.

The model follows Swift's `move(fromOffsets:toOffset:)` semantics. Moving the
first of three records to offset 2 gives `[B, A, C]`; moving it to the end
needs offset 3 and gives `[B, C, A]`. `MoveFirstToTwo`, `MoveFirstToEnd` and
`MoveLastToFront` prove these cases.

## Model

| member | source | states |
|---|---|---|
| `SwiftSeq.FirstIndex` | TheFusionCollective/CollectionStore.swift:62-64 | `firstIndex(where:)` returns a position whose element satisfies the closure, and no earlier element does. It returns nothing exactly when no element satisfies it. |
| `SwiftSeq.CompactMap` | TheFusionCollective/CollectionStore.swift:42-44 | `compactMap` is never longer than its input. Every value comes from some input element. When the closure succeeds on every element, the result is the closure's values, position by position. |
| `SwiftSeq.CompactMapSingle` | TheFusionCollective/CollectionStore.swift:42-44 | `compactMap` of one element is its value when the closure succeeds and nothing when it fails. |
| `SwiftSeq.CompactMapAppend` | TheFusionCollective/CollectionStore.swift:42-44 | `compactMap` of a concatenation is the concatenation of the two results. With the one-element case, this fixes the result: every value the closure produces, in input order. |
| `SwiftSeq.RemoveAtIsRemoveAtOffsets` | TheFusionCollective/CollectionStore.swift:65 | `remove(at: i)` equals `remove(atOffsets: [i])`. |
| `SwiftSeq.RemoveAtOffsetsCounts` | TheFusionCollective/CollectionStore.swift:57 | `remove(atOffsets:)` shortens the list by the number of offsets. The survivors plus the elements at the offsets are exactly the original elements, as a multiset. |
| `SwiftSeq.RemoveAtOffsetsKeepsOrder` | TheFusionCollective/CollectionStore.swift:57 | The survivors of `remove(atOffsets:)` are a subsequence of the input. Every element at a position outside the offsets survives. |
| `SwiftSeq.RemoveAtOffsetsPositions` | TheFusionCollective/CollectionStore.swift:57 | After `remove(atOffsets:)`, the element from each position `i` outside the offsets sits at `i` minus the number of offsets below `i`. This fixes which copy of a repeated element survives. |
| `SwiftSeq.MoveIsPermutation` | TheFusionCollective/CollectionStore.swift:71 | `move(fromOffsets:toOffset:)` keeps the length and the multiset of elements. |
| `SwiftSeq.MoveShape` | TheFusionCollective/CollectionStore.swift:71 | After `move`, the moved elements form one block in their original order. Taking the block out leaves `remove(atOffsets:)` of the input, so the other elements keep their relative order. The element that was at the destination, if it was not moved, comes right after the block. |
| `SwiftSeq.MoveOne` | TheFusionCollective/CollectionStore.swift:71 | Moving one element, written with slices: forward it lands just before the old destination element; backward it lands at the destination. |
| `SwiftSeq.MoveFirstToTwo` | TheFusionCollective/CollectionStore.swift:71 | `[a, b, c]` moved from `{0}` to 2 is `[b, a, c]`. |
| `SwiftSeq.MoveFirstToEnd` | TheFusionCollective/CollectionStore.swift:71 | `[a, b, c]` moved from `{0}` to 3 is `[b, c, a]`. |
| `SwiftSeq.MoveLastToFront` | TheFusionCollective/CollectionStore.swift:71 | `[a, b, c]` moved from `{2}` to 0 is `[c, a, b]`. |
| `SwiftSeq.MoveOrderDistinct` | TheFusionCollective/CollectionStore.swift:71 | `move` reads each position at most once, so it never duplicates an element. |
| `SwiftSeq.FilterMembers` | TheFusionCollective/FavoritesView.swift:14 | An element is in `filter`'s result exactly when it is in the input and satisfies the closure. |
| `SwiftSeq.FilterCounts` | TheFusionCollective/FavoritesView.swift:14 | `filter` keeps every occurrence of a satisfying element and no occurrence of any other element. |
| `SwiftSeq.FilterIsSubsequence` | TheFusionCollective/FavoritesView.swift:14 | `filter`'s result is a subsequence of its input. |
| `SwiftSeq.FilterKeepsAll` | TheFusionCollective/CollectionsView.swift:26-27 | A closure that holds on every element makes `filter` return the input unchanged. |
| `Store.IndexOfId` | TheFusionCollective/CollectionStore.swift:75-76 | The lookup by id finds the first record with the id, and finds nothing exactly when no record has it. |
| `Store.IndexOfOwnId` | TheFusionCollective/CollectionStore.swift:75-76 | With unique ids, looking up a record's own id finds that record's position. |
| `Store.CollectionStore.constructor` | TheFusionCollective/CollectionStore.swift:34-38 | The store starts with the loaded list when loading succeeded and with the empty list otherwise. It is valid when the loaded ids are unique. |
| `Store.CollectionStore.AddCollection` | TheFusionCollective/CollectionStore.swift:41-52 | The new list is the old list plus one record at the end. That record has the new id, the given name and note, the images that encode, and the flag off. The invariant holds when the id is new. |
| `Store.CollectionStore.DeleteCollectionAt` | TheFusionCollective/CollectionStore.swift:56-59 | The new list is `remove(atOffsets:)` of the old one. The invariant is kept. |
| `Store.CollectionStore.DeleteCollection` | TheFusionCollective/CollectionStore.swift:61-68 | The new list is the old one without its first record with the id, or unchanged when there is none. The invariant is kept. |
| `Store.CollectionStore.MoveCollection` | TheFusionCollective/CollectionStore.swift:70-73 | The new list is `move(fromOffsets:toOffset:)` of the old one. The invariant is kept. |
| `Store.CollectionStore.ToggleFavorite` | TheFusionCollective/CollectionStore.swift:75-79 | The new list is the old one with the flag of the first record with the id flipped, or unchanged when there is none. The invariant is kept. |
| `Store.AppendFreshKeepsUniqueIds` | TheFusionCollective/CollectionStore.swift:45-52 | Appending a record whose id is unused keeps ids unique, and adds exactly that id to the set of ids. Names are not checked, so duplicate names are allowed. |
| `Store.RemoveAtOffsetsKeepsUniqueIds` | TheFusionCollective/CollectionStore.swift:56-57 | Deleting at offsets keeps ids unique. |
| `Store.MoveKeepsUniqueIds` | TheFusionCollective/CollectionStore.swift:70-71 | Moving keeps ids unique. |
| `Store.WithoutIdKeepsUniqueIds` | TheFusionCollective/CollectionStore.swift:61-65 | Deleting by id keeps ids unique. |
| `Store.WithoutIdIsRemoveAtOffsets` | TheFusionCollective/CollectionStore.swift:61-65 | Deleting an id that is present is deleting at the one offset of its first record. |
| `Store.WithoutIdRemovesOne` | TheFusionCollective/CollectionStore.swift:61-68 | Deleting an unknown id changes nothing. Otherwise the list shrinks by one and loses exactly one record with that id, as a multiset. The result is always a subsequence of the old list. |
| `Store.WithoutIdRemovesExactly` | TheFusionCollective/CollectionStore.swift:61-65 | With unique ids, a record survives deletion by id exactly when its id is a different one. |
| `Store.ToggleKeepsIds` | TheFusionCollective/CollectionStore.swift:75-77 | Toggling keeps the length and every record's id, name, note and images. So it keeps ids unique. |
| `Store.ToggleFlipsExactly` | TheFusionCollective/CollectionStore.swift:75-77 | With unique ids, toggling flips the flag of the record with the id and no other. An unknown id changes nothing. |
| `Store.ToggleTwice` | TheFusionCollective/CollectionStore.swift:75-77 | Toggling the same id twice restores the list. |
| `Store.WinterScenario` | TheFusionCollective/CollectionStore.swift:41-79 | Starting with no saved file, adding "Winter" and toggling its id leaves exactly one record: "Winter", an empty note, no images, the flag on. |
| `CollectionsView.FilteredCollections` | TheFusionCollective/CollectionsView.swift:25-29 | The filtered list is never longer than the stored list. |
| `CollectionsView.EmptySearchShowsAll` | TheFusionCollective/CollectionsView.swift:25-28 | With empty search text, the filtered list is the stored list, order included. |
| `CollectionsView.SearchShowsMatches` | TheFusionCollective/CollectionsView.swift:26-27 | With non-empty search text, a record is shown exactly when it is stored and its lowercased name contains the lowercased text. It is shown as many times as it is stored. |
| `CollectionsView.SearchKeepsOrder` | TheFusionCollective/CollectionsView.swift:25-29 | The filtered list is a subsequence of the stored list. |
| `CollectionsView.DeleteShownRecord` | TheFusionCollective/CollectionsView.swift:164-168 | With unique ids, deleting a shown record by its id shortens the list by one and removes that record and nothing else. |
| `CollectionsView.CollectionsView.constructor` | TheFusionCollective/CollectionsView.swift:16-19 | The screen starts with empty search text and name, the dialog closed and editing off. |
| `CollectionsView.CollectionsView.AddCollectionTapped` | TheFusionCollective/CollectionsView.swift:43-45 | The add button opens the dialog and changes nothing else. |
| `CollectionsView.CollectionsView.EditTapped` | TheFusionCollective/CollectionsView.swift:69-73 | The edit button switches editing and changes nothing else. |
| `CollectionsView.CollectionsView.CancelTapped` | TheFusionCollective/CollectionsView.swift:119-122 | Cancel closes the dialog and clears the name. |
| `CollectionsView.CollectionsView.SaveTapped` | TheFusionCollective/CollectionsView.swift:125-135 | Save appends a record only when the entered name is non-empty. The record has that name, an empty note, no images and the flag off. Either way the dialog closes and the name is cleared. |
| `CollectionsView.CollectionsView.DeleteTapped` | TheFusionCollective/CollectionsView.swift:165-168 | The delete button deletes by the shown record's id, never by position. The invariant is kept. |
| `CollectionItemView.ModelIndex` | TheFusionCollective/CollectionItemView.swift:24-26 | `modelIndex` is the position of the first record with the screen's name, and is absent exactly when no record has that name. |
| `CollectionItemView.ModelIndexKept` | TheFusionCollective/CollectionItemView.swift:24-26 | Changes that keep every name keep `modelIndex`. |
| `CollectionItemView.EditsLandOnFirstNamed` | TheFusionCollective/CollectionItemView.swift:162-169 | Saving keeps the length and every id, name and flag. It changes only a record that is the first with the name, and gives it the new note and images. With no record of that name, nothing changes. |
| `CollectionItemView.EditsKeepUniqueIds` | TheFusionCollective/CollectionItemView.swift:166-169 | Saving keeps ids unique. |
| `CollectionItemView.FavoriteLandsOnFirstNamed` | TheFusionCollective/CollectionItemView.swift:43-45 | With unique ids, the heart button toggles the flag of the first record with the screen's name and no other. |
| `CollectionItemView.ReencodeRoundTrip` | TheFusionCollective/CollectionItemView.swift:136-169 | Decoding stored images and re-encoding them gives back the stored bytes, when every image decodes and encoding reproduces its input. |
| `CollectionItemView.SaveAfterLoadChangesNothing` | TheFusionCollective/CollectionItemView.swift:130-171 | Saving right after loading, with such codecs, leaves the store unchanged. |
| `CollectionItemView.CollectionItemView.constructor` | TheFusionCollective/CollectionItemView.swift:13-22 | The screen starts with its name, the shared store, no images, an empty note and the flag off. |
| `CollectionItemView.CollectionItemView.FavoriteTapped` | TheFusionCollective/CollectionItemView.swift:41-46 | The heart always flips the screen's own flag. It toggles the store only when a record has the screen's name, and then by that record's id. It keeps the invariant and keeps the heart in step with the record. |
| `CollectionItemView.CollectionItemView.LoadExistingData` | TheFusionCollective/CollectionItemView.swift:130-143 | Loading copies the record's note, its decodable images and its flag, or does nothing when no record has the name. Afterwards the heart shows the record's flag. |
| `CollectionItemView.CollectionItemView.SaveChanges` | TheFusionCollective/CollectionItemView.swift:162-171 | The new list is the old one with the first record of that name given the screen's note and the images that encode, or unchanged when there is none. It keeps the invariant and keeps the heart in step. |
| `FavoritesView.Favorites` | TheFusionCollective/FavoritesView.swift:13-15 | Every shown record is a favourite, and the list is never longer than the store's. |
| `FavoritesView.FavoritesExactly` | TheFusionCollective/FavoritesView.swift:13-15 | The favourites are exactly the stored records with the flag on, each as often as it is stored, in the store's order. |

## Left out

- Persistence is not modelled:
  - `documentsURL`, `load` and `save` (property-list coding and the atomic file write);
  - the `try? save` after each mutation;
  - the DEBUG-only removal of the saved file and of the first-run flag.

  These are file I/O. Loading is a constructor parameter that may be absent. The save-then-load round trip is therefore not stated.
- `UUID()` is not modelled. The new id is a parameter, and id uniqueness is kept on the condition that the id is unused.
- JPEG encoding (`jpegData(compressionQuality: 0.8)`) and `UIImage(data:)` are function parameters: image codecs are foreign code. Real JPEG re-encoding is lossy, so `SaveAfterLoadChangesNothing` holds only for codecs that reproduce their bytes.
- `String.lowercased()` is a function parameter, since Unicode case mapping is foreign code.
- `CollectionsView.Contains` is containment of a run of Unicode scalars, and an empty needle is contained in every name. Swift's `contains` matches whole characters (grapheme clusters) up to canonical equivalence. So a search for `"e"` finds `"cafe\u{301}"` here but not in Swift, and `"caf\u{e9}"` is not found by `"cafe\u{301}"` here although Swift finds it.
- `CollectionItemView.ModelIndex` compares names scalar by scalar, where Swift's `String ==` compares up to canonical equivalence. With records named `"cafe\u{301}"` then `"caf\u{e9}"`, a screen opened with the second name finds record 1 here and record 0 in Swift. The two agree when all names are in one normal form, such as NFC. The same holds for `EditsLandOnFirstNamed`, `FavoriteLandsOnFirstNamed`, `CollectionsView.SearchShowsMatches` and the screen's handlers, which build on these comparisons.
- `loadPickedImages` and the photo picker are not modelled: they are asynchronous loads that append in completion order.
- The `images` array of SwiftUI `Image` values is not modelled: it only mirrors `uiImages` for display.
- Not modelled because they are presentation only:
  - layout, the grid/list choice, navigation, sheets, colours and the greeting;
  - the Save button's `disabled` state (the guard inside the handler is modelled);
  - the `EnvironmentKey` that shares one store;
  - `ContentView` and `LoginView`.
- Offsets and destinations are required to be in range for `DeleteCollectionAt` and `MoveCollection`, as Swift's array operations demand. Out-of-range arguments trap in Swift and are not modelled.
- `CollectionsView.CollectionsView.DeleteTapped` does not require editing to be on. The button that calls it exists only while editing, and the handler itself does not check.
