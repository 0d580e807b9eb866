/** The favorites screen (screens/FavoritesScreen.js): it reloads the stored favorites whenever
    it gains focus, keeping only entries with a usable `id`, and removes one favorite at a time,
    writing its own list back to storage. */
module Favorites {
  import opened Wrappers
  import opened Seqs
  import opened Characters
  import opened Storage

  /** `item && item.id !== undefined && item.id !== null`: a stored entry worth showing. */
  predicate IsValidEntry(e: Option<Character>)
    ensures IsValidEntry(e) <==> e != None && e.value.id != Undefined && e.value.id != Null
  {
    e.Some? && HasValidId(e.value)
  }

  /** The characters of the stored entries that pass `IsValidEntry`, in stored order. */
  function ValidEntries(entries: seq<Option<Character>>): (r: seq<Character>)
    ensures |r| <= |entries|
    ensures forall c :: c in r ==> HasValidId(c) && Some(c) in entries
  {
    if entries == [] then []
    else if IsValidEntry(entries[0]) then [entries[0].value] + ValidEntries(entries[1..])
    else ValidEntries(entries[1..])
  }

  /** The screen list after a load, given the list before it and what storage holds: nothing
      for an absent blob, the old list for a malformed one, and otherwise characters stored as
      present entries with usable ids. */
  function Loaded(current: seq<Character>, blob: Blob): (r: seq<Character>)
    ensures blob.Absent? ==> r == []
    ensures blob.Malformed? ==> r == current
    ensures blob.Stored? ==> |r| <= |blob.entries|
    ensures blob.Stored? ==> forall c :: c in r ==> HasValidId(c) && Some(c) in blob.entries
  {
    match blob
    case Absent => []
    case Malformed => current
    case Stored(entries) => ValidEntries(entries)
  }

  /** `favorites.filter((char) => char.id !== characterId)`: never longer than the list, and
      only characters of the list without that id. */
  function WithoutId(favorites: seq<Character>, characterId: Id): (r: seq<Character>)
    ensures |r| <= |favorites|
    ensures forall c :: c in r ==> c in favorites && c.id != characterId
  {
    Filter(favorites, (c: Character) => c.id != characterId)
  }

  /** Every character on the list has a usable identifier. */
  predicate AllValid(favorites: seq<Character>) {
    forall c :: c in favorites ==> HasValidId(c)
  }

  // ----- loading -----

  /** A character is loaded exactly when it is stored as a present entry with a usable id:
      entries that are `null`, or whose `id` is missing or `null`, are dropped, and nothing else
      is (an id of 0 is kept). */
  lemma {:induction false} ValidEntriesMembership(entries: seq<Option<Character>>, c: Character)
    ensures c in ValidEntries(entries) <==> Some(c) in entries && HasValidId(c)
  {
    if entries != [] && entries[0] != Some(c) {
      ValidEntriesMembership(entries[1..], c);
    }
  }

  /** Loading keeps the stored order: the loaded list, written back as entries, is a
      subsequence of the stored array. */
  lemma {:induction false} ValidEntriesOrder(entries: seq<Option<Character>>)
    ensures IsSubsequence(Entries(ValidEntries(entries)), entries)
  {
    if entries != [] {
      ValidEntriesOrder(entries[1..]);
      var rest := ValidEntries(entries[1..]);
      if IsValidEntry(entries[0]) {
        assert ValidEntries(entries) == [entries[0].value] + rest;
        assert Entries([entries[0].value] + rest)[1..] == Entries(rest);
      } else if ValidEntries(entries) != [] {
        var r := ValidEntries(entries);
        assert r[0] in r;
        assert Entries(r)[0] == Some(r[0]);
      }
    }
  }

  /** Loading agrees with the generic order-preserving filter by `IsValidEntry`: it keeps
      exactly the valid entries, each exactly as often and in the same order as stored. */
  lemma {:induction false} ValidEntriesIsFilter(entries: seq<Option<Character>>)
    ensures Entries(ValidEntries(entries)) == Filter(entries, IsValidEntry)
  {
    if entries != [] {
      ValidEntriesIsFilter(entries[1..]);
      if IsValidEntry(entries[0]) {
        var rest := ValidEntries(entries[1..]);
        assert Entries([entries[0].value] + rest) == [entries[0]] + Entries(rest);
      }
    }
  }

  /** Loading a concatenation loads each part in turn: entries keep their stored order. */
  lemma {:induction false} ValidEntriesAppend(a: seq<Option<Character>>, b: seq<Option<Character>>)
    ensures ValidEntries(a + b) == ValidEntries(a) + ValidEntries(b)
  {
    if a == [] {
      assert a + b == b;
    } else {
      assert (a + b)[1..] == a[1..] + b;
      ValidEntriesAppend(a[1..], b);
    }
  }

  /** A list written by this app's remove, whose entries all have usable ids, loads back
      unchanged. */
  lemma {:induction false} ValidEntriesRoundTrip(favorites: seq<Character>)
    requires AllValid(favorites)
    ensures ValidEntries(Entries(favorites)) == favorites
  {
    if favorites != [] {
      assert Entries(favorites)[1..] == Entries(favorites[1..]);
      ValidEntriesRoundTrip(favorites[1..]);
      assert [favorites[0]] + favorites[1..] == favorites;
    }
  }

  /** After any load the screen list holds only characters with usable ids, provided it did
      before (a malformed blob leaves the list as it was). */
  lemma LoadedAllValid(current: seq<Character>, blob: Blob)
    requires AllValid(current)
    ensures AllValid(Loaded(current, blob))
  {
  }

  // ----- removing -----

  /** After removing `characterId`, no character with that id remains, and every other
      character of the list is still there. */
  lemma WithoutIdMembership(favorites: seq<Character>, characterId: Id, c: Character)
    ensures c in WithoutId(favorites, characterId) <==> c in favorites && c.id != characterId
  {
    FilterMembership(favorites, (c: Character) => c.id != characterId, c);
  }

  /** Removing keeps the relative order of the remaining characters. */
  lemma WithoutIdOrder(favorites: seq<Character>, characterId: Id)
    ensures IsSubsequence(WithoutId(favorites, characterId), favorites)
  {
    FilterIsSubsequence(favorites, (c: Character) => c.id != characterId);
  }

  /** Removing an id that no character has leaves the list unchanged. */
  lemma WithoutIdAbsent(favorites: seq<Character>, characterId: Id)
    requires forall c :: c in favorites ==> c.id != characterId
    ensures WithoutId(favorites, characterId) == favorites
  {
    FilterAllKept(favorites, (c: Character) => c.id != characterId);
  }

  /** Removing the same id twice is removing it once. */
  lemma WithoutIdTwice(favorites: seq<Character>, characterId: Id)
    ensures WithoutId(WithoutId(favorites, characterId), characterId)
         == WithoutId(favorites, characterId)
  {
    FilterIdempotent(favorites, (c: Character) => c.id != characterId);
  }

  /** A remove whose write succeeds stores a list that the next load shows unchanged. */
  lemma RemoveThenLoad(favorites: seq<Character>, characterId: Id, current: seq<Character>)
    requires AllValid(favorites)
    ensures Loaded(current, Stored(Entries(WithoutId(favorites, characterId))))
         == WithoutId(favorites, characterId)
  {
    ValidEntriesRoundTrip(WithoutId(favorites, characterId));
  }

  /** The favorites screen: `favorites` is its list state, `storage` the device storage. */
  class FavoritesScreen {
    var favorites: seq<Character>
    const storage: Store

    /** The list state only ever holds characters with usable ids. */
    ghost predicate Valid()
      reads this
    {
      AllValid(favorites)
    }

    constructor (storage: Store)
      ensures Valid()
      ensures favorites == [] && this.storage == storage
    {
      favorites := [];
      this.storage := storage;
    }

    /** `loadFavorites`: an absent blob empties the list, a malformed one is caught and leaves
        the list as it was, a stored array is filtered to its valid entries. Storage is only
        read. */
    method LoadFavorites()
      requires Valid()
      modifies this`favorites
      ensures Valid()
      ensures favorites == Loaded(old(favorites), storage.favorites)
    {
      match storage.favorites {
        case Absent =>
          favorites := [];
        case Malformed =>
        case Stored(entries) =>
          favorites := ValidEntries(entries);
      }
    }

    /** `removeFavorite` after the user confirms: the list state is updated first, then it is
        written to storage; a failed write (`writeOk` false) is caught and leaves storage as it
        was, while the list state keeps the removal. */
    method RemoveFavorite(characterId: Id, writeOk: bool)
      requires Valid()
      modifies this`favorites, storage
      ensures Valid()
      ensures favorites == WithoutId(old(favorites), characterId)
      ensures storage.favorites == if writeOk then Stored(Entries(favorites))
                                   else old(storage.favorites)
    {
      var updated := WithoutId(favorites, characterId);
      favorites := updated;
      if writeOk {
        storage.favorites := Stored(Entries(updated));
      }
    }
  }
}
