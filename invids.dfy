// Object handles: an object is named by the id of its base (its type) and
// its number within that base.
module Invids {
  datatype Invid = Invid(typeId: int, num: int)
}
