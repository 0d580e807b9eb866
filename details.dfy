/** The details screen (screens/DetailsScreen.js): it shows one fetched character and offers
    "add to favorites", a read-modify-write of the whole stored array. */
module Details {
  import opened Wrappers
  import opened Characters
  import opened Storage
  import Favorites

  /** How `favorites.some(fav => fav.id === character.id)` ends: true, false, or a TypeError
      thrown when the scan reaches a `null` entry before any match. */
  datatype Scan = Found | NotFound | NullEntry

  /** What the add action reports to the user. */
  datatype AddResult = Added | AlreadyExists | Failed

  datatype AddOutcome = AddOutcome(result: AddResult, blob: Blob)

  /** The left-to-right scan of `Array.prototype.some`, which stops at the first entry that
      either matches or throws. A "found" answer is witnessed by an entry with the id, and the
      scan throws only on an array holding a `null` entry. */
  function FindById(entries: seq<Option<Character>>, id: Id): (scan: Scan)
    ensures scan == Found ==> exists i :: 0 <= i < |entries| && Matches(entries[i], id)
    ensures scan == NullEntry ==> None in entries
  {
    if entries == [] then NotFound
    else match entries[0]
      case None => NullEntry
      case Some(fav) =>
        if fav.id == id then Found
        else
          var rest := FindById(entries[1..], id);
          assert rest == Found ==> exists i :: 1 <= i < |entries| && Matches(entries[i], id) by {
            if rest == Found {
              var i :| 0 <= i < |entries[1..]| && Matches(entries[1..][i], id);
              assert Matches(entries[i + 1], id);
            }
          }
          rest
  }

  /** The stored entry is a character whose id is strictly equal to `id`. */
  predicate Matches(entry: Option<Character>, id: Id) {
    entry.Some? && entry.value.id == id
  }

  predicate NoNullEntries(entries: seq<Option<Character>>) {
    forall i :: 0 <= i < |entries| ==> entries[i].Some?
  }

  /** No two present entries share an id. */
  predicate DistinctIds(entries: seq<Option<Character>>) {
    forall i, j :: 0 <= i < j < |entries| && entries[i].Some? && entries[j].Some? ==>
      entries[i].value.id != entries[j].value.id
  }

  /** The array an add starts from: `getItem(...) || '[]'`, parsed. */
  function StartEntries(blob: Blob): seq<Option<Character>>
    requires !blob.Malformed?
  {
    if blob.Absent? then [] else blob.entries
  }

  /** `addToFavorites` as one atomic step: the blob it reads (absent counts as `[]`), the
      character shown, and whether the final `setItem` succeeds. Storage changes only when the
      character is added, and then holds an array; a malformed blob always fails. */
  function AddFavorite(blob: Blob, character: Character, writeOk: bool): (outcome: AddOutcome)
    ensures outcome.result != Added ==> outcome.blob == blob
    ensures outcome.result == Added ==> outcome.blob.Stored? && writeOk
    ensures blob.Malformed? ==> outcome.result == Failed
  {
    if blob.Malformed? then AddOutcome(Failed, blob)
    else
      var entries := StartEntries(blob);
      match FindById(entries, character.id)
      case Found => AddOutcome(AlreadyExists, blob)
      case NullEntry => AddOutcome(Failed, blob)
      case NotFound =>
        if writeOk then AddOutcome(Added, Stored(entries + [Some(character)]))
        else AddOutcome(Failed, blob)
  }

  // ----- the membership scan -----

  /** The scan answers "not found" exactly when every entry is present and none has the id. */
  lemma {:induction false} FindByIdNotFound(entries: seq<Option<Character>>, id: Id)
    ensures FindById(entries, id) == NotFound <==>
            forall i :: 0 <= i < |entries| ==> entries[i].Some? && !Matches(entries[i], id)
  {
    if entries != [] {
      FindByIdNotFound(entries[1..], id);
      assert forall i :: 1 <= i < |entries| ==> entries[i] == entries[1..][i - 1];
    }
  }

  /** On an array without `null` entries the scan is plain membership by id. */
  lemma {:induction false} FindByIdNullFree(entries: seq<Option<Character>>, id: Id)
    requires NoNullEntries(entries)
    ensures FindById(entries, id) == Found <==>
            exists i :: 0 <= i < |entries| && Matches(entries[i], id)
    ensures FindById(entries, id) != NullEntry
  {
    if entries != [] {
      FindByIdNullFree(entries[1..], id);
      if !Matches(entries[0], id) {
        assert forall i :: 1 <= i < |entries| ==> entries[i] == entries[1..][i - 1];
        if exists i :: 0 <= i < |entries| && Matches(entries[i], id) {
          var i :| 0 <= i < |entries| && Matches(entries[i], id);
          assert Matches(entries[1..][i - 1], id);
        }
      }
    }
  }

  /** Appending to an array the scan ran through without result continues the scan on the new
      entry. */
  lemma {:induction false} FindByIdAppend(entries: seq<Option<Character>>, id: Id,
                                          entry: Option<Character>)
    requires FindById(entries, id) == NotFound
    ensures FindById(entries + [entry], id) == FindById([entry], id)
  {
    if entries == [] {
      assert entries + [entry] == [entry];
    } else {
      assert (entries + [entry])[1..] == entries[1..] + [entry];
      FindByIdAppend(entries[1..], id, entry);
    }
  }

  /** `favorites.some(fav => fav.id === id)` as a loop over the array. */
  method ScanForId(entries: seq<Option<Character>>, id: Id) returns (scan: Scan)
    ensures scan == FindById(entries, id)
  {
    var i := 0;
    while i < |entries|
      invariant 0 <= i <= |entries|
      invariant FindById(entries[i..], id) == FindById(entries, id)
    {
      assert entries[i..][1..] == entries[i + 1..];
      match entries[i] {
        case None =>
          return NullEntry;
        case Some(fav) =>
          if fav.id == id {
            return Found;
          }
      }
      i := i + 1;
    }
    return NotFound;
  }

  // ----- the add action -----

  /** An absent blob behaves as an empty array: the add succeeds exactly when the write does,
      and stores the one-element array. */
  lemma AddToAbsent(character: Character, writeOk: bool)
    ensures AddFavorite(Absent, character, writeOk).result == (if writeOk then Added else Failed)
    ensures writeOk ==> AddFavorite(Absent, character, writeOk).blob == Stored([Some(character)])
  {
  }

  /** When the add succeeds the new array is the old one with the character appended: one
      longer, the old entries unchanged and in order, the new entry last. It succeeds exactly
      when every entry is present, none has the character's id, and the write goes through. */
  lemma AddAppends(blob: Blob, character: Character, writeOk: bool)
    requires !blob.Malformed?
    ensures AddFavorite(blob, character, writeOk).result == Added <==>
            writeOk && forall i :: 0 <= i < |StartEntries(blob)| ==>
              StartEntries(blob)[i].Some? && !Matches(StartEntries(blob)[i], character.id)
    ensures AddFavorite(blob, character, writeOk).result == Added ==>
            var after := AddFavorite(blob, character, writeOk).blob;
            after.Stored? && |after.entries| == |StartEntries(blob)| + 1 &&
            after.entries[..|StartEntries(blob)|] == StartEntries(blob) &&
            after.entries[|StartEntries(blob)|] == Some(character)
  {
    FindByIdNotFound(StartEntries(blob), character.id);
    var entries := StartEntries(blob);
    assert (entries + [Some(character)])[..|entries|] == entries;
  }

  /** If the scan reaches an entry with the character's id before any `null` entry, nothing is
      written and the user is told it already exists; entries after the match, `null` or not,
      play no part. */
  lemma AddDuplicate(entries: seq<Option<Character>>, character: Character, writeOk: bool,
                     k: nat)
    requires k < |entries| && Matches(entries[k], character.id)
    requires forall j :: 0 <= j < k ==> entries[j].Some?
    ensures AddFavorite(Stored(entries), character, writeOk)
         == AddOutcome(AlreadyExists, Stored(entries))
  {
    FindByIdMatchPrefix(entries, character.id, k);
  }

  lemma {:induction false} FindByIdMatchPrefix(entries: seq<Option<Character>>, id: Id, k: nat)
    requires k < |entries| && Matches(entries[k], id)
    requires forall j :: 0 <= j < k ==> entries[j].Some?
    ensures FindById(entries, id) == Found
  {
    if k > 0 && !Matches(entries[0], id) {
      assert forall j :: 0 <= j < k - 1 ==> entries[1..][j] == entries[j + 1];
      FindByIdMatchPrefix(entries[1..], id, k - 1);
    }
  }

  /** A `null` entry reached by the scan before any match makes the add fail without a
      write. */
  lemma AddNullEntryFails(entries: seq<Option<Character>>, character: Character, writeOk: bool,
                          k: nat)
    requires k < |entries| && entries[k] == None
    requires forall j :: 0 <= j < k ==> entries[j].Some? && !Matches(entries[j], character.id)
    ensures AddFavorite(Stored(entries), character, writeOk) == AddOutcome(Failed, Stored(entries))
  {
    FindByIdNullPrefix(entries, character.id, k);
  }

  lemma {:induction false} FindByIdNullPrefix(entries: seq<Option<Character>>, id: Id, k: nat)
    requires k < |entries| && entries[k] == None
    requires forall j :: 0 <= j < k ==> entries[j].Some? && !Matches(entries[j], id)
    ensures FindById(entries, id) == NullEntry
  {
    if k > 0 {
      assert forall j :: 0 <= j < k - 1 ==> entries[1..][j] == entries[j + 1];
      FindByIdNullPrefix(entries[1..], id, k - 1);
    }
  }

  /** An add never creates two present entries with the same id. */
  lemma AddKeepsIdsDistinct(blob: Blob, character: Character, writeOk: bool)
    requires !blob.Malformed? && DistinctIds(StartEntries(blob))
    ensures AddFavorite(blob, character, writeOk).blob.Stored? ==>
            DistinctIds(AddFavorite(blob, character, writeOk).blob.entries)
  {
    var entries := StartEntries(blob);
    FindByIdNotFound(entries, character.id);
    var after := entries + [Some(character)];
    if AddFavorite(blob, character, writeOk).result == Added {
      forall i, j | 0 <= i < j < |after| && after[i].Some? && after[j].Some?
        ensures after[i].value.id != after[j].value.id
      {
        if j == |entries| {
          assert !Matches(entries[i], character.id);
        }
      }
    }
  }

  /** Tapping "add" twice in a row: once the first tap has added the character, the second
      reports that it already exists and leaves the stored array as the first left it. */
  lemma AddTwice(blob: Blob, character: Character, writeOk: bool)
    requires AddFavorite(blob, character, true).result == Added
    ensures var first := AddFavorite(blob, character, true);
            AddFavorite(first.blob, character, writeOk) == AddOutcome(AlreadyExists, first.blob)
  {
    var entries := StartEntries(blob);
    FindByIdAppend(entries, character.id, Some(character));
  }

  /** After a successful add of a character with a usable id, the favorites screen's next load
      shows what it would have shown before the add, followed by the character. */
  lemma AddThenLoad(blob: Blob, character: Character, current: seq<Character>)
    requires HasValidId(character)
    requires AddFavorite(blob, character, true).result == Added
    ensures Favorites.Loaded(current, AddFavorite(blob, character, true).blob)
         == Favorites.ValidEntries(StartEntries(blob)) + [character]
  {
    var entries := StartEntries(blob);
    assert AddFavorite(blob, character, true).blob == Stored(entries + [Some(character)]);
    Favorites.ValidEntriesAppend(entries, [Some(character)]);
  }

  /** The add action does not check the character's own id: a character without a usable id
      is stored all the same, and only the favorites screen's load hides it. */
  lemma AddStoresIdLessCharacter(blob: Blob, character: Character)
    requires !HasValidId(character)
    requires AddFavorite(blob, character, true).result == Added
    ensures var after := AddFavorite(blob, character, true).blob;
            after.Stored? && Some(character) in after.entries &&
            character !in Favorites.ValidEntries(after.entries)
  {
    AddAppends(blob, character, true);
    var after := AddFavorite(blob, character, true).blob;
    assert after.entries[|StartEntries(blob)|] == Some(character);
    Favorites.ValidEntriesMembership(after.entries, character);
  }

  /** The details screen: the fetched `character` (`null` until a fetch succeeds), the
      `loading` flag, and the device storage. */
  class DetailsScreen {
    const characterId: Id
    var character: Option<Character>
    var loading: bool
    const storage: Store

    constructor (characterId: Id, storage: Store)
      ensures this.characterId == characterId && this.storage == storage
      ensures character == None && loading
    {
      this.characterId := characterId;
      this.storage := storage;
      character := None;
      loading := true;
    }

    /** `fetchCharacterDetails` with the response of the request for `characterId` as input
        (`None` when the request fails): a failure is caught and keeps the character as it
        was; in every case loading ends. */
    method FetchCharacterDetails(response: Option<Character>)
      modifies this`character, this`loading
      ensures character == if response.Some? then response else old(character)
      ensures !loading
    {
      if response.Some? {
        character := response;
      }
      loading := false;
    }

    /** `addToFavorites`, offered only once a character is shown. */
    method AddToFavorites(writeOk: bool) returns (result: AddResult)
      requires character.Some?
      modifies storage
      ensures AddOutcome(result, storage.favorites)
           == AddFavorite(old(storage.favorites), character.value, writeOk)
    {
      var favorites: seq<Option<Character>>;
      match storage.favorites {
        case Absent =>
          favorites := [];
        case Malformed =>
          return Failed;
        case Stored(entries) =>
          favorites := entries;
      }
      var scan := ScanForId(favorites, character.value.id);
      if scan == Found {
        return AlreadyExists;
      } else if scan == NullEntry {
        return Failed;
      }
      favorites := favorites + [Some(character.value)];
      if !writeOk {
        return Failed;
      }
      storage.favorites := Stored(favorites);
      return Added;
    }
  }
}
