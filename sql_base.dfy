/**
  What the repositories rely on from the shared SQL base (`sqlRepository`),
  whose code is not part of this model.
*/
module SqlBase {

  /** The id `put` writes under: the given one, or a freshly generated one when it is empty. */
  function PutKey(id: string, generated: string): (key: string)
    ensures id != "" ==> key == id
    ensures id == "" ==> key == generated
  {
    if id == "" then generated else id
  }
}
