// A permission entry (PermEntry): four independent rights on an object
// type or a field.  PermEntry.java is not part of this model; it is taken
// to be the record of four booleans that the server and the client combine
// bit by bit.
module PermEntries {
  datatype PermEntry = PermEntry(view: bool, edit: bool, create: bool, delete: bool)

  const NoPerms := PermEntry(false, false, false, false)
  const FullPerms := PermEntry(true, true, true, true)
  /** PermEntry.viewPerms: view only. */
  const ViewPerms := PermEntry(true, false, false, false)
  /** PermEntry.createPerms: create only. */
  const CreatePerms := PermEntry(false, false, true, false)

  /** union: a right held by either side. */
  function Union(a: PermEntry, b: PermEntry): (r: PermEntry)
    ensures Within(a, r) && Within(b, r)
    ensures forall c :: Within(a, c) && Within(b, c) ==> Within(r, c)
  {
    PermEntry(a.view || b.view, a.edit || b.edit, a.create || b.create, a.delete || b.delete)
  }

  /** intersection: a right held by both sides. */
  function Intersection(a: PermEntry, b: PermEntry): (r: PermEntry)
    ensures Within(r, a) && Within(r, b)
    ensures forall c :: Within(c, a) && Within(c, b) ==> Within(c, r)
  {
    PermEntry(a.view && b.view, a.edit && b.edit, a.create && b.create, a.delete && b.delete)
  }

  /** Every right of a is a right of b. */
  predicate Within(a: PermEntry, b: PermEntry) {
    (a.view ==> b.view) && (a.edit ==> b.edit) && (a.create ==> b.create) && (a.delete ==> b.delete)
  }
}
