// The DBStore session of the old server tree (src/server/DBSession.java):
// the lock a session holds, its open transaction (the edit set) and the
// objects it views, creates, checks out and deletes.  Lock establishment
// blocks on other sessions in the source; here a lock is established as
// soon as it is asked for.
module DBSessions {
  import opened Wrappers
  import opened Invids
  import opened JavaLang

  /** DBEditObject's CREATING, EDITING, DELETING and DROPPING. */
  datatype Status = Creating | Editing | Deleting | Dropping

  /**
   * The status deleteDBObject leaves behind: a created object is dropped,
   * an edited one is deleted, and one already on its way out is left as it is.
   */
  function DeletedStatus(s: Status): (t: Status)
    ensures t == Deleting || t == Dropping
    ensures s == Creating <==> t == Dropping && s != Dropping
    ensures s == Editing ==> t == Deleting
    ensures s == Deleting || s == Dropping ==> t == s
  {
    match s
    case Creating => Dropping
    case Editing => Deleting
    case Deleting => Deleting
    case Dropping => Dropping
  }

  /** Deleting twice is deleting once. */
  lemma DeleteIdempotent(s: Status)
    ensures DeletedStatus(DeletedStatus(s)) == DeletedStatus(s)
  {
  }

  /** An object checked out into the transaction; its status changes in place. */
  class EditObject {
    const invid: Invid
    var status: Status

    constructor(invid: Invid, status: Status)
      ensures this.invid == invid && this.status == status
    {
      this.invid := invid;
      this.status := status;
    }
  }

  /** An object base as the session uses it: the last object number handed out and the numbers in its object table. */
  datatype Base = Base(maxid: JInt, objects: set<int>)

  /** A read or write lock on a set of object bases, identified by base type. */
  datatype DBLock = DBLock(write: bool, bases: set<int>)

  /** DBLock.isLocked(base) on an established lock: the lock covers the base. */
  predicate Covers(l: DBLock, base: int) {
    base in l.bases
  }

  /** What viewDBObject hands back: the transaction's copy, or the stored object of that Invid. */
  datatype Viewed = Checked(e: EditObject) | Stored(invid: Invid)

  class DBSession {
    /** The DBStore's object bases by type; None once the session has logged out. */
    var store: Option<map<int, Base>>
    var lock: Option<DBLock>
    /** The open transaction's objects by Invid; None when no transaction is open. */
    var editSet: Option<map<Invid, EditObject>>
    var lastError: Option<string>

    constructor(bases: map<int, Base>)
      ensures store == Some(bases) && lock.None? && editSet.None? && lastError.None?
    {
      store := Some(bases);
      lock := None;
      editSet := None;
      lastError := None;
    }

    predicate IsTransactionOpen()
      reads this
    {
      editSet.Some?
    }

    method SetLastError(error: string)
      modifies this
      ensures lastError == Some(error)
      ensures store == old(store) && lock == old(lock) && editSet == old(editSet)
    {
      lastError := Some(error);
    }

    /** openTransaction: a new, empty edit set, replacing any open one. */
    method OpenTransaction()
      modifies this
      ensures editSet == Some(map[]) && IsTransactionOpen()
      ensures store == old(store) && lock == old(lock) && lastError == old(lastError)
    {
      editSet := Some(map[]);
    }

    /** abortTransaction: releases the edit set; outside a transaction it throws. Locks are untouched. */
    method AbortTransaction() returns (r: Outcome<Reply>)
      modifies this
      ensures old(editSet).None? ==> r == Threw(Runtime)
      ensures old(editSet).Some? ==> r == Returned(Done)
      ensures !IsTransactionOpen()
      ensures store == old(store) && lock == old(lock) && lastError == old(lastError)
    {
      if editSet.None? {
        return Threw(Runtime);
      }
      editSet := None;
      r := Returned(Done);
    }

    /**
     * commitTransaction: outside a transaction it throws; otherwise a read
     * lock is released and the edit set is committed and dropped.  What
     * the commit writes to the store is DBEditSet's, which is not part of
     * this model.
     */
    method CommitTransaction() returns (r: Outcome<Reply>)
      modifies this
      ensures old(editSet).None? ==> r == Threw(Runtime)
      ensures old(editSet).Some? ==> r == Returned(Done)
      ensures r.Returned? && old(lock).Some? && !old(lock).value.write ==> lock.None?
      ensures r.Threw? || old(lock).None? || old(lock).value.write ==> lock == old(lock)
      ensures !IsTransactionOpen() && store == old(store) && lastError == old(lastError)
    {
      if editSet.None? {
        return Threw(Runtime);
      }
      if lock.Some? && !lock.value.write {
        lock := None;
      }
      editSet := None;
      r := Returned(Done);
    }

    /** logout: an open transaction is aborted, then the store is let go. */
    method Logout()
      modifies this
      ensures !IsTransactionOpen() && store.None?
      ensures lock == old(lock) && lastError == old(lastError)
    {
      if editSet.Some? {
        var aborted := AbortTransaction();
      }
      store := None;
    }

    /** releaseReadLock: drops a read lock; a write lock or no lock is left alone. */
    method ReleaseReadLock()
      modifies this
      ensures old(lock).Some? && !old(lock).value.write ==> lock.None?
      ensures old(lock).None? || old(lock).value.write ==> lock == old(lock)
      ensures store == old(store) && editSet == old(editSet) && lastError == old(lastError)
    {
      if lock.Some? && !lock.value.write {
        lock := None;
      }
    }

    /**
     * openReadLock(bases), or of the whole store when bases is None: the
     * new lock replaces whatever lock the session held.  After logout the
     * store is null: the whole-store constructor reads it and throws
     * NullPointerException, leaving the old lock; the subset constructor
     * only stores its arguments, so the unestablished lock is assigned
     * before establish throws NullPointerException.
     */
    method OpenReadLock(bases: Option<set<int>>) returns (r: Outcome<Reply>)
      modifies this
      ensures old(store).None? && bases.None? ==> r == Threw(NullPointer) && lock == old(lock)
      ensures old(store).None? && bases.Some? ==> r == Threw(NullPointer) && lock == Some(DBLock(false, bases.value))
      ensures old(store).Some? ==>
        r == Returned(Done) &&
        lock == Some(DBLock(false, if bases.Some? then bases.value else old(store).value.Keys))
      ensures store == old(store) && editSet == old(editSet) && lastError == old(lastError)
    {
      if store.None? {
        if bases.Some? {
          lock := Some(DBLock(false, bases.value));
        }
        return Threw(NullPointer);
      }
      lock := Some(DBLock(false, if bases.Some? then bases.value else store.value.Keys));
      r := Returned(Done);
    }

    /**
     * openWriteLock(bases), or of the whole store: refused with a
     * RuntimeException while a write lock is held; otherwise any read lock
     * is released and the write lock taken.  After logout the whole-store
     * constructor throws NullPointerException on the null store, leaving no
     * lock; the subset constructor only stores its arguments, so the session
     * keeps the unestablished write lock when establish throws, and a second
     * call is refused as if a write lock were held.
     */
    method OpenWriteLock(bases: Option<set<int>>) returns (r: Outcome<Reply>)
      modifies this
      ensures old(lock).Some? && old(lock).value.write ==> r == Threw(Runtime) && lock == old(lock)
      ensures (old(lock).None? || !old(lock).value.write) && old(store).None? && bases.None? ==>
        r == Threw(NullPointer) && lock.None?
      ensures (old(lock).None? || !old(lock).value.write) && old(store).None? && bases.Some? ==>
        r == Threw(NullPointer) && lock == Some(DBLock(true, bases.value))
      ensures (old(lock).None? || !old(lock).value.write) && old(store).Some? ==>
        r == Returned(Done) &&
        lock == Some(DBLock(true, if bases.Some? then bases.value else old(store).value.Keys))
      ensures store == old(store) && editSet == old(editSet) && lastError == old(lastError)
    {
      if lock.Some? && lock.value.write {
        return Threw(Runtime);
      }
      ReleaseReadLock();
      if store.None? {
        if bases.Some? {
          lock := Some(DBLock(true, bases.value));
        }
        return Threw(NullPointer);
      }
      lock := Some(DBLock(true, if bases.Some? then bases.value else store.value.Keys));
      r := Returned(Done);
    }

    /**
     * viewDBObject as written: the transaction's copy when it holds one;
     * nothing for an unknown base; then a RuntimeException when the session
     * holds no lock or when its lock covers the base.  The second test is
     * inverted: a session may only read the bases its lock does not cover.
     */
    function ViewDBObject(invid: Invid): (r: Outcome<Option<Viewed>>)
      reads this
      ensures editSet.Some? && invid in editSet.value ==> r == Returned(Some(Checked(editSet.value[invid])))
      ensures !(editSet.Some? && invid in editSet.value) && store.Some? && invid.typeId in store.value ==>
        (r.Threw? <==> lock.None? || Covers(lock.value, invid.typeId))
    {
      if editSet.Some? && invid in editSet.value then Returned(Some(Checked(editSet.value[invid])))
      else if store.None? then Threw(NullPointer)
      else if invid.typeId !in store.value then Returned(None)
      else if lock.None? || Covers(lock.value, invid.typeId) then Threw(Runtime)
      else Returned(if invid.num in store.value[invid.typeId].objects then Some(Stored(invid)) else None)
    }

    /**
     * viewDBObject as intended: with a transaction copy first, then stored
     * objects of the bases the session's lock covers, and a
     * RuntimeException for a base outside its lock.
     */
    function ViewDBObjectCorrected(invid: Invid): (r: Outcome<Option<Viewed>>)
      reads this
      ensures editSet.Some? && invid in editSet.value ==> r == Returned(Some(Checked(editSet.value[invid])))
      ensures !(editSet.Some? && invid in editSet.value) ==>
        (r == Threw(NullPointer) <==> store.None?) &&
        (store.Some? && invid.typeId !in store.value ==> r == Returned(None)) &&
        (store.Some? && invid.typeId in store.value ==>
           (r == Threw(Runtime) <==> lock.None? || !Covers(lock.value, invid.typeId)) &&
           (r.Returned? ==> (r.value.Some? <==> invid.num in store.value[invid.typeId].objects)))
      ensures r.Returned? && r.value.Some? && r.value.value.Stored? ==> r.value.value.invid == invid
    {
      if editSet.Some? && invid in editSet.value then Returned(Some(Checked(editSet.value[invid])))
      else if store.None? then Threw(NullPointer)
      else if invid.typeId !in store.value then Returned(None)
      else if lock.None? || !Covers(lock.value, invid.typeId) then Threw(Runtime)
      else Returned(if invid.num in store.value[invid.typeId].objects then Some(Stored(invid)) else None)
    }

    /**
     * createDBObject: outside a transaction a RuntimeException; an unknown
     * type a NullPointerException; otherwise the base hands out the next
     * object number (maxid is a Java int) and the new object joins the
     * transaction with status CREATING.  When the customization class
     * cannot be constructed (constructed is false) the number is used up
     * and null comes back.
     */
    method CreateDBObject(objectType: int, constructed: bool) returns (r: Outcome<Option<EditObject>>)
      modifies this
      ensures old(editSet).None? ==> r == Threw(Runtime) && store == old(store) && editSet == old(editSet)
      ensures old(editSet).Some? && (old(store).None? || objectType !in old(store).value) ==>
        r == Threw(NullPointer) && store == old(store) && editSet == old(editSet)
      ensures old(editSet).Some? && old(store).Some? && objectType in old(store).value ==>
        var b := old(store).value[objectType];
        var id := IntCast(b.maxid + 1);
        store == Some(old(store).value[objectType := b.(maxid := id)]) &&
        (constructed ==>
           r.Returned? && r.value.Some? && fresh(r.value.value) &&
           r.value.value.invid == Invid(objectType, id) && r.value.value.status == Creating &&
           editSet == Some(old(editSet).value[Invid(objectType, id) := r.value.value])) &&
        (!constructed ==> r == Returned(None) && editSet == old(editSet))
      ensures lock == old(lock) && lastError == old(lastError)
    {
      if editSet.None? {
        return Threw(Runtime);
      }
      if store.None? || objectType !in store.value {
        return Threw(NullPointer);
      }
      var b := store.value[objectType];
      var id := IntCast(b.maxid + 1);
      store := Some(store.value[objectType := b.(maxid := id)]);
      if !constructed {
        return Returned(None);
      }
      var e := new EditObject(Invid(objectType, id), Creating);
      editSet := Some(editSet.value[e.invid := e]);
      r := Returned(Some(e));
    }

    /**
     * editDBObject: outside a transaction a RuntimeException; otherwise the
     * object is viewed through viewDBObject as written and checked out by
     * CheckOut.
     */
    method EditDBObject(invid: Invid) returns (r: Outcome<EditObject>)
      modifies this
      ensures old(editSet).None? ==> r == Threw(Runtime) && editSet == old(editSet)
      ensures old(editSet).Some? ==>
        var v := old(ViewDBObject(invid));
        (v.Threw? ==> r == Threw(v.exc) && editSet == old(editSet)) &&
        (v == Returned(None) ==> r == Threw(NullPointer) && editSet == old(editSet)) &&
        (v.Returned? && v.value.Some? && v.value.value.Checked? ==>
           r == Returned(v.value.value.e) && editSet == old(editSet)) &&
        (v.Returned? && v.value.Some? && v.value.value.Stored? ==>
           r.Returned? && fresh(r.value) &&
           r.value.invid == invid && r.value.status == Editing &&
           editSet == Some(old(editSet).value[invid := r.value]))
      ensures store == old(store) && lock == old(lock) && lastError == old(lastError)
    {
      if editSet.None? {
        return Threw(Runtime);
      }
      r := CheckOut(invid, ViewDBObject(invid));
    }

    /** editDBObject as intended: the same, viewing through ViewDBObjectCorrected. */
    method EditDBObjectCorrected(invid: Invid) returns (r: Outcome<EditObject>)
      modifies this
      ensures old(editSet).None? ==> r == Threw(Runtime) && editSet == old(editSet)
      ensures old(editSet).Some? ==>
        var v := old(ViewDBObjectCorrected(invid));
        (v.Threw? ==> r == Threw(v.exc) && editSet == old(editSet)) &&
        (v == Returned(None) ==> r == Threw(NullPointer) && editSet == old(editSet)) &&
        (v.Returned? && v.value.Some? && v.value.value.Checked? ==>
           r == Returned(v.value.value.e) && editSet == old(editSet)) &&
        (v.Returned? && v.value.Some? && v.value.value.Stored? ==>
           r.Returned? && fresh(r.value) &&
           r.value.invid == invid && r.value.status == Editing &&
           editSet == Some(old(editSet).value[invid := r.value]))
      ensures store == old(store) && lock == old(lock) && lastError == old(lastError)
    {
      if editSet.None? {
        return Threw(Runtime);
      }
      r := CheckOut(invid, ViewDBObjectCorrected(invid));
    }

    /**
     * The rest of editDBObject, given the view v of invid: an exception
     * passes through and a null view is a NullPointerException.  A stored
     * object is shadowed into the transaction with status EDITING; a copy
     * the transaction already holds is handed back as it is.
     */
    method CheckOut(invid: Invid, v: Outcome<Option<Viewed>>) returns (r: Outcome<EditObject>)
      requires editSet.Some?
      modifies this
      ensures v.Threw? ==> r == Threw(v.exc) && editSet == old(editSet)
      ensures v == Returned(None) ==> r == Threw(NullPointer) && editSet == old(editSet)
      ensures v.Returned? && v.value.Some? && v.value.value.Checked? ==>
        r == Returned(v.value.value.e) && editSet == old(editSet)
      ensures v.Returned? && v.value.Some? && v.value.value.Stored? ==>
        r.Returned? && fresh(r.value) &&
        r.value.invid == invid && r.value.status == Editing &&
        editSet == Some(old(editSet).value[invid := r.value])
      ensures store == old(store) && lock == old(lock) && lastError == old(lastError)
    {
      if v.Threw? {
        return Threw(v.exc);
      }
      if v.value.None? {
        return Threw(NullPointer);
      }
      match v.value.value
      case Checked(e) =>
        r := Returned(e);
      case Stored(i) =>
        var e := new EditObject(invid, Editing);
        editSet := Some(editSet.value[invid := e]);
        r := Returned(e);
    }

    /** deleteDBObject(eObj): moves the object to the status DeletedStatus gives. */
    method DeleteEdited(e: EditObject)
      modifies e
      ensures e.status == DeletedStatus(old(e.status))
    {
      match e.status
      case Creating => e.status := Dropping;
      case Editing => e.status := Deleting;
      case Deleting => return;
      case Dropping => return;
    }

    /**
     * deleteDBObject(invid): outside a transaction a RuntimeException;
     * otherwise the object is viewed through viewDBObject as written and
     * marked by DeleteViewed.
     */
    method DeleteDBObject(invid: Invid) returns (r: Outcome<Reply>)
      modifies this, if editSet.Some? && invid in editSet.value then {editSet.value[invid]} else {}
      ensures old(editSet).None? ==> r == Threw(Runtime) && editSet == old(editSet)
      ensures old(editSet).Some? ==>
        var v := old(ViewDBObject(invid));
        (v.Threw? ==> r == Threw(v.exc) && editSet == old(editSet)) &&
        (v == Returned(None) ==> r == Threw(NullPointer) && editSet == old(editSet)) &&
        (v.Returned? && v.value.Some? && v.value.value.Checked? ==>
           r == Returned(Done) && editSet == old(editSet) &&
           v.value.value.e.status == DeletedStatus(old(v.value.value.e.status))) &&
        (v.Returned? && v.value.Some? && v.value.value.Stored? ==>
           r == Returned(Done) && editSet.Some? && invid in editSet.value &&
           editSet.value == old(editSet).value[invid := editSet.value[invid]] &&
           fresh(editSet.value[invid]) && editSet.value[invid].status == Deleting)
      ensures store == old(store) && lock == old(lock) && lastError == old(lastError)
    {
      if editSet.None? {
        return Threw(Runtime);
      }
      r := DeleteViewed(invid, ViewDBObject(invid));
    }

    /** deleteDBObject(invid) as intended: the same, viewing through ViewDBObjectCorrected. */
    method DeleteDBObjectCorrected(invid: Invid) returns (r: Outcome<Reply>)
      modifies this, if editSet.Some? && invid in editSet.value then {editSet.value[invid]} else {}
      ensures old(editSet).None? ==> r == Threw(Runtime) && editSet == old(editSet)
      ensures old(editSet).Some? ==>
        var v := old(ViewDBObjectCorrected(invid));
        (v.Threw? ==> r == Threw(v.exc) && editSet == old(editSet)) &&
        (v == Returned(None) ==> r == Threw(NullPointer) && editSet == old(editSet)) &&
        (v.Returned? && v.value.Some? && v.value.value.Checked? ==>
           r == Returned(Done) && editSet == old(editSet) &&
           v.value.value.e.status == DeletedStatus(old(v.value.value.e.status))) &&
        (v.Returned? && v.value.Some? && v.value.value.Stored? ==>
           r == Returned(Done) && editSet.Some? && invid in editSet.value &&
           editSet.value == old(editSet).value[invid := editSet.value[invid]] &&
           fresh(editSet.value[invid]) && editSet.value[invid].status == Deleting)
      ensures store == old(store) && lock == old(lock) && lastError == old(lastError)
    {
      if editSet.None? {
        return Threw(Runtime);
      }
      r := DeleteViewed(invid, ViewDBObjectCorrected(invid));
    }

    /**
     * The rest of deleteDBObject(invid), given the view v of invid: the
     * object is checked out when the transaction does not hold it yet and
     * marked by DeleteEdited.  A view the transaction holds is its own copy.
     */
    method DeleteViewed(invid: Invid, v: Outcome<Option<Viewed>>) returns (r: Outcome<Reply>)
      requires editSet.Some?
      requires v.Returned? && v.value.Some? && v.value.value.Checked? ==>
        invid in editSet.value && v.value.value.e == editSet.value[invid]
      modifies this, if invid in editSet.value then {editSet.value[invid]} else {}
      ensures v.Threw? ==> r == Threw(v.exc) && editSet == old(editSet)
      ensures v == Returned(None) ==> r == Threw(NullPointer) && editSet == old(editSet)
      ensures v.Returned? && v.value.Some? && v.value.value.Checked? ==>
        r == Returned(Done) && editSet == old(editSet) &&
        v.value.value.e.status == DeletedStatus(old(v.value.value.e.status))
      ensures v.Returned? && v.value.Some? && v.value.value.Stored? ==>
        r == Returned(Done) && editSet.Some? && invid in editSet.value &&
        editSet.value == old(editSet).value[invid := editSet.value[invid]] &&
        fresh(editSet.value[invid]) && editSet.value[invid].status == Deleting
      ensures store == old(store) && lock == old(lock) && lastError == old(lastError)
    {
      if v.Threw? {
        return Threw(v.exc);
      }
      if v.value.None? {
        return Threw(NullPointer);
      }
      r := Returned(Done);
      match v.value.value
      case Checked(e) =>
        DeleteEdited(e);
      case Stored(i) =>
        var e := new EditObject(invid, Editing);
        editSet := Some(editSet.value[invid := e]);
        DeleteEdited(e);
    }
  }

  /**
   * After logout a write lock on some bases cannot be established, yet it
   * stays with the session, so asking again is refused as a second write lock.
   */
  method WriteLockAfterLogoutSticks() returns (s: DBSession, first: Outcome<Reply>, second: Outcome<Reply>)
    ensures first == Threw(NullPointer) && second == Threw(Runtime)
    ensures s.lock == Some(DBLock(true, {1}))
  {
    s := new DBSession(map[1 := Base(7, {7})]);
    s.Logout();
    first := s.OpenWriteLock(Some({1}));
    second := s.OpenWriteLock(Some({1}));
  }

  /** As written, a session holding a read lock on a base cannot view that base's objects. */
  method LockedBaseRefused() returns (s: DBSession, r: Outcome<Option<Viewed>>, fixed: Outcome<Option<Viewed>>)
    ensures s.lock == Some(DBLock(false, {1})) && r == Threw(Runtime)
    ensures fixed == Returned(Some(Stored(Invid(1, 7))))
  {
    s := new DBSession(map[1 := Base(7, {7})]);
    var locked := s.OpenReadLock(Some({1}));
    assert s.store == Some(map[1 := Base(7, {7})]) && s.editSet.None?;
    r := s.ViewDBObject(Invid(1, 7));
    fixed := s.ViewDBObjectCorrected(Invid(1, 7));
  }
}
