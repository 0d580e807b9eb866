/** A character record as the remote API returns it, reduced to the two fields the app's logic
    reads: the identifier (`id`) and the display name (`name`). */
module Characters {

  /** A JavaScript `id` field: missing (`undefined`), `null`, or a number. Structural equality
      on this type is JavaScript's strict equality `===` on these values. */
  datatype Id = Undefined | Null | Num(n: int)

  datatype Character = Character(id: Id, name: string)

  /** `item.id !== undefined && item.id !== null`. */
  predicate HasValidId(c: Character)
    ensures HasValidId(c) <==> c.id != Undefined && c.id != Null
  {
    c.id.Num?
  }
}
