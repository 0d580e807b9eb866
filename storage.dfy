/** The device's key-value storage, restricted to the one key the app uses, `'favorites'`. */
module Storage {
  import opened Wrappers
  import opened Characters

  /** What reading the key and parsing it yields: nothing stored (`getItem` gives `null`),
      text that `JSON.parse` rejects or that is not an array, or an array whose entries are
      character objects or `null`. */
  datatype Blob = Absent | Malformed | Stored(entries: seq<Option<Character>>)

  /** The array that `JSON.stringify` writes for a list of characters: every entry present. */
  function Entries(cs: seq<Character>): (r: seq<Option<Character>>)
    ensures |r| == |cs|
    ensures forall i :: 0 <= i < |cs| ==> r[i] == Some(cs[i])
  {
    if cs == [] then [] else [Some(cs[0])] + Entries(cs[1..])
  }

  /** The storage shared by the screens; `favorites` is the value under the `'favorites'` key. */
  class Store {
    var favorites: Blob

    constructor (initial: Blob)
      ensures favorites == initial
    {
      favorites := initial;
    }
  }
}
