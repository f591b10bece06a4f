// The permission manager of a session (DBPermissionManager): whether the
// active persona belongs to an owner group, directly or through the groups
// that own it; the owner groups given to new objects; the visibility
// filter; whether an object counts as owned by the session; and the
// permissions on a field.
module PermissionManager {
  import opened Wrappers
  import opened Invids
  import opened Ownership
  import opened PermEntries

  // ---------------------------------------------------------------- membership

  /**
   * isMemberOfOwnerGroup(owner, alreadySeen): a non-OwnerBase Invid is an
   * IllegalArgumentException, an owner group already seen answers false,
   * and otherwise the group is marked seen, its member list is searched and
   * the search goes on up its owner list.  The seen set is shared by the
   * whole search, so it is threaded through and returned.
   */
  function MemberOf(g: Store, persona: Option<Invid>, owner: Invid, seen: set<Invid>)
    : (r: Outcome<(bool, set<Invid>)>)
    ensures r.Returned? ==> seen <= r.value.1
    decreases |g.Keys - seen|, 0
  {
    if !IsOwnerGroup(owner) then Threw(IllegalArgument)
    else if owner in seen then Returned((false, seen))
    else if owner !in g || g[owner].members.None? then Threw(NullPointer)
    else if persona.Some? && persona.value in g[owner].members.value then Returned((true, seen + {owner}))
    else
      SeenOneMore(g.Keys, seen, owner);
      AnyOf(g, persona, g[owner].owners, seen + {owner})
  }

  /** isMemberOfAnyOwnerGroups(owners, alreadySeen): false for null, else the search of the list. */
  function AnyOf(g: Store, persona: Option<Invid>, owners: Option<seq<Invid>>, seen: set<Invid>)
    : (r: Outcome<(bool, set<Invid>)>)
    ensures r.Returned? ==> seen <= r.value.1
    decreases |g.Keys - seen|, 2
  {
    if owners.None? then Returned((false, seen)) else AnyList(g, persona, owners.value, seen)
  }

  /** The loop of isMemberOfAnyOwnerGroups: the first group of the list that answers true. */
  function AnyList(g: Store, persona: Option<Invid>, owners: seq<Invid>, seen: set<Invid>)
    : (r: Outcome<(bool, set<Invid>)>)
    ensures r.Returned? ==> seen <= r.value.1
    decreases |g.Keys - seen|, 1, |owners|
  {
    if owners == [] then Returned((false, seen))
    else
      var first :- MemberOf(g, persona, owners[0], seen);
      if first.0 then Returned((true, first.1))
      else
        SeenMore(g.Keys, seen, first.1);
        AnyList(g, persona, owners[1..], first.1)
  }

  /** isMemberOfOwnerGroup(owner): a fresh search from one group; null is an IllegalArgumentException. */
  function IsMemberOfOwnerGroup(g: Store, persona: Option<Invid>, owner: Option<Invid>): (r: Outcome<bool>)
    ensures owner.None? || !IsOwnerGroup(owner.value) ==> r == Threw(IllegalArgument)
  {
    if owner.None? then Threw(IllegalArgument)
    else
      var m :- MemberOf(g, persona, owner.value, {});
      Returned(m.0)
  }

  /** isMemberOfAnyOwnerGroups(owners): false for null, else one search shared by the whole list. */
  function IsMemberOfAnyOwnerGroups(g: Store, persona: Option<Invid>, owners: Option<seq<Invid>>): (r: Outcome<bool>)
    ensures owners.None? ==> r == Returned(false)
  {
    var m :- AnyOf(g, persona, owners, {});
    Returned(m.0)
  }

  /** isMemberOfAllOwnerGroups(owners): false for null, else a fresh search for each group in turn. */
  function IsMemberOfAllOwnerGroups(g: Store, persona: Option<Invid>, owners: Option<seq<Invid>>): (r: Outcome<bool>)
    ensures owners.None? ==> r == Returned(false)
  {
    if owners.None? then Returned(false) else AllList(g, persona, owners.value)
  }

  function AllList(g: Store, persona: Option<Invid>, owners: seq<Invid>): (r: Outcome<bool>)
    ensures owners == [] ==> r == Returned(true)
  {
    if owners == [] then Returned(true)
    else
      var first :- IsMemberOfOwnerGroup(g, persona, Some(owners[0]));
      if !first then Returned(false) else AllList(g, persona, owners[1..])
  }

  // ---------------------------------------------------------------- what the search finds

  /**
   * The groups a search saw beyond the ones seen before it were all looked
   * at in full: each is in the store, has no such member, and every group
   * that owns it was seen too.
   */
  ghost predicate Explored(g: Store, persona: Option<Invid>, seen: set<Invid>, seen': set<Invid>) {
    seen <= seen' &&
    forall x :: x in seen' && x !in seen ==>
      x in g && !DirectMember(g, persona, x) && forall y :: OwnedBy(g, x, y) ==> y in seen'
  }

  /** A true answer is always backed by a chain up to a group the persona belongs to. */
  lemma {:induction false} MemberOfSound(g: Store, persona: Option<Invid>, owner: Invid, seen: set<Invid>)
    requires MemberOf(g, persona, owner, seen).Returned? && MemberOf(g, persona, owner, seen).value.0
    ensures ReachesMember(g, persona, owner)
    decreases |g.Keys - seen|, 0
  {
    if persona.Some? && persona.value in g[owner].members.value {
      DirectReaches(g, persona, owner);
    } else {
      SeenOneMore(g.Keys, seen, owner);
      var y := AnyListSound(g, persona, g[owner].owners.value, seen + {owner});
      UpReaches(g, persona, owner, y);
    }
  }

  lemma {:induction false} AnyListSound(g: Store, persona: Option<Invid>, owners: seq<Invid>, seen: set<Invid>)
    returns (y: Invid)
    requires AnyList(g, persona, owners, seen).Returned? && AnyList(g, persona, owners, seen).value.0
    ensures y in owners && ReachesMember(g, persona, y)
    decreases |g.Keys - seen|, 1, |owners|
  {
    var first := MemberOf(g, persona, owners[0], seen);
    if first.value.0 {
      MemberOfSound(g, persona, owners[0], seen);
      y := owners[0];
    } else {
      SeenMore(g.Keys, seen, first.value.1);
      y := AnyListSound(g, persona, owners[1..], first.value.1);
    }
  }

  /** A false answer leaves the group seen and everything newly seen explored. */
  lemma {:induction false} MemberOfExplores(g: Store, persona: Option<Invid>, owner: Invid, seen: set<Invid>)
    requires MemberOf(g, persona, owner, seen).Returned? && !MemberOf(g, persona, owner, seen).value.0
    ensures owner in MemberOf(g, persona, owner, seen).value.1
    ensures Explored(g, persona, seen, MemberOf(g, persona, owner, seen).value.1)
    decreases |g.Keys - seen|, 0
  {
    if owner !in seen {
      var s1 := seen + {owner};
      SeenOneMore(g.Keys, seen, owner);
      var owners := g[owner].owners;
      if owners.Some? {
        AnyListExplores(g, persona, owners.value, s1);
      }
    }
  }

  lemma ExploredTrans(g: Store, persona: Option<Invid>, s0: set<Invid>, s1: set<Invid>, s2: set<Invid>)
    requires Explored(g, persona, s0, s1) && Explored(g, persona, s1, s2)
    ensures Explored(g, persona, s0, s2)
  {
  }

  lemma {:induction false} AnyListExplores(g: Store, persona: Option<Invid>, owners: seq<Invid>, seen: set<Invid>)
    requires AnyList(g, persona, owners, seen).Returned? && !AnyList(g, persona, owners, seen).value.0
    ensures forall y :: y in owners ==> y in AnyList(g, persona, owners, seen).value.1
    ensures Explored(g, persona, seen, AnyList(g, persona, owners, seen).value.1)
    decreases |g.Keys - seen|, 1, |owners|
  {
    if owners != [] {
      var s1 := MemberOf(g, persona, owners[0], seen).value.1;
      MemberOfExplores(g, persona, owners[0], seen);
      SeenMore(g.Keys, seen, s1);
      var s2 := AnyList(g, persona, owners[1..], s1).value.1;
      assert AnyList(g, persona, owners, seen).value.1 == s2;
      AnyListExplores(g, persona, owners[1..], s1);
      ExploredTrans(g, persona, seen, s1, s2);
      forall y | y in owners
        ensures y in s2
      {
        if y != owners[0] {
          assert y in owners[1..];
        }
      }
    }
  }

  /** In a closed store the search never throws. */
  lemma {:induction false} MemberOfReturns(g: Store, persona: Option<Invid>, owner: Invid, seen: set<Invid>)
    requires Closed(g) && owner in g
    ensures MemberOf(g, persona, owner, seen).Returned?
    decreases |g.Keys - seen|, 0
  {
    if owner !in seen && !(persona.Some? && persona.value in g[owner].members.value) {
      SeenOneMore(g.Keys, seen, owner);
      if g[owner].owners.Some? {
        AnyListReturns(g, persona, g[owner].owners.value, seen + {owner});
      }
    }
  }

  lemma {:induction false} AnyListReturns(g: Store, persona: Option<Invid>, owners: seq<Invid>, seen: set<Invid>)
    requires Closed(g) && forall y :: y in owners ==> y in g
    ensures AnyList(g, persona, owners, seen).Returned?
    decreases |g.Keys - seen|, 1, |owners|
  {
    if owners != [] {
      MemberOfReturns(g, persona, owners[0], seen);
      var first := MemberOf(g, persona, owners[0], seen);
      if !first.value.0 {
        SeenMore(g.Keys, seen, first.value.1);
        AnyListReturns(g, persona, owners[1..], first.value.1);
      }
    }
  }

  /**
   * In a closed store, isMemberOfOwnerGroup answers exactly whether the
   * persona belongs to the group or to one of the groups above it.
   */
  lemma MembershipIsReachability(g: Store, persona: Option<Invid>, owner: Invid)
    requires Closed(g) && owner in g
    ensures IsMemberOfOwnerGroup(g, persona, Some(owner)) == Returned(ReachesMember(g, persona, owner))
  {
    MemberOfReturns(g, persona, owner, {});
    var m := MemberOf(g, persona, owner, {});
    if m.value.0 {
      MemberOfSound(g, persona, owner, {});
    } else {
      MemberOfExplores(g, persona, owner, {});
      ClosedSetBlocks(g, persona, m.value.1, owner);
    }
  }

  /** Whatever the store, a true answer is backed by a chain of owner groups. */
  lemma MembershipSound(g: Store, persona: Option<Invid>, owner: Invid)
    requires IsMemberOfOwnerGroup(g, persona, Some(owner)) == Returned(true)
    ensures ReachesMember(g, persona, owner)
  {
    MemberOfSound(g, persona, owner, {});
  }

  /** In a closed store, isMemberOfAnyOwnerGroups is "some group of the list". */
  lemma AnyIsExists(g: Store, persona: Option<Invid>, owners: seq<Invid>)
    requires Closed(g) && forall y :: y in owners ==> y in g
    ensures IsMemberOfAnyOwnerGroups(g, persona, Some(owners)) ==
      Returned(exists y :: y in owners && ReachesMember(g, persona, y))
  {
    AnyListReturns(g, persona, owners, {});
    var m := AnyList(g, persona, owners, {});
    if m.value.0 {
      var y := AnyListSound(g, persona, owners, {});
    } else {
      AnyListExplores(g, persona, owners, {});
      forall y | y in owners
        ensures !ReachesMember(g, persona, y)
      {
        ClosedSetBlocks(g, persona, m.value.1, y);
      }
    }
  }

  /** In a closed store, isMemberOfAllOwnerGroups is "every group of the list". */
  lemma {:induction false} AllIsForall(g: Store, persona: Option<Invid>, owners: seq<Invid>)
    requires Closed(g) && forall y :: y in owners ==> y in g
    ensures IsMemberOfAllOwnerGroups(g, persona, Some(owners)) ==
      Returned(forall y :: y in owners ==> ReachesMember(g, persona, y))
  {
    if owners != [] {
      MembershipIsReachability(g, persona, owners[0]);
      AllIsForall(g, persona, owners[1..]);
      assert owners == [owners[0]] + owners[1..];
    }
  }

  // ---------------------------------------------------------------- default owners

  /**
   * The owner list setDefaultOwner keeps: None when some Invid is not an
   * owner group (the error dialog), otherwise the list with the supergash
   * group dropped.
   */
  function WithoutSupergash(owners: seq<Invid>): (r: Option<seq<Invid>>)
    ensures r.None? <==> exists i :: 0 <= i < |owners| && !IsOwnerGroup(owners[i])
    ensures r.Some? ==> forall x :: x in r.value <==> x in owners && x.num != OwnerSupergash
    ensures r.Some? ==> |r.value| <= |owners|
  {
    if owners == [] then Some([])
    else if !IsOwnerGroup(owners[0]) then None
    else
      var rest := WithoutSupergash(owners[1..]);
      assert forall i :: 1 <= i < |owners| ==> owners[i] == owners[1..][i - 1];
      if rest.None? then None
      else if owners[0].num == OwnerSupergash then rest
      else Some([owners[0]] + rest.value)
  }

  /** t placed in front of a list that may be missing. */
  function Prefixed(t: seq<Invid>, r: Option<seq<Invid>>): Option<seq<Invid>> {
    if r.None? then None else Some(t + r.value)
  }

  /** The loop of setDefaultOwner that builds tmpInvids. */
  method FilterOwnerList(owners: seq<Invid>) returns (r: Option<seq<Invid>>)
    ensures r == WithoutSupergash(owners)
  {
    var tmp: seq<Invid> := [];
    var i := 0;
    assert owners[0..] == owners;
    if WithoutSupergash(owners).Some? {
      assert [] + WithoutSupergash(owners).value == WithoutSupergash(owners).value;
    }
    while i < |owners|
      invariant 0 <= i <= |owners|
      invariant WithoutSupergash(owners) == Prefixed(tmp, WithoutSupergash(owners[i..]))
    {
      var item := owners[i];
      assert owners[i..][0] == item && owners[i..][1..] == owners[i + 1..];
      if !IsOwnerGroup(item) {
        return None;
      }
      if item.num != OwnerSupergash {
        if WithoutSupergash(owners[i + 1..]).Some? {
          assert tmp + ([item] + WithoutSupergash(owners[i + 1..]).value)
              == (tmp + [item]) + WithoutSupergash(owners[i + 1..]).value;
        }
        tmp := tmp + [item];
      }
      i := i + 1;
    }
    assert owners[i..] == [] && tmp + [] == tmp;
    r := Some(tmp);
  }

  // ---------------------------------------------------------------- containment

  /** What climbing ContainerField links ends in: a grant by the hook, or the top-level object. */
  datatype Climbed = Granted | Top(obj: DBObj)

  /**
   * The containers of embedded objects are ranked below what they contain,
   * so that climbing ContainerField links ends.  The session's objects are
   * a map from Invid; a missing key is an Invid viewDBObject cannot find.
   */
  predicate Ranked(objects: map<Invid, DBObj>, rank: map<Invid, nat>) {
    (forall i :: i in objects ==> i in rank) &&
    forall i ::
      i in objects && objects[i].embedded && objects[i].container.Some? && objects[i].container.value in objects
      ==> rank[objects[i].container.value] < rank[i]
  }

  function Height(objects: map<Invid, DBObj>, rank: map<Invid, nat>, o: DBObj): nat
    requires Ranked(objects, rank)
  {
    if o.embedded && o.container.Some? && o.container.value in objects then 1 + rank[o.container.value] else 0
  }

  /**
   * The loop of isOwnedByUs: while the object is embedded, the hook may
   * grant ownership, a missing ContainerField is an
   * IntegrityConstraintException and a container that cannot be seen is a
   * NullPointerException; at the top the hook is asked once more.  The
   * grantOwnership hook's answers are given as the Invids it grants.
   */
  function Climb(objects: map<Invid, DBObj>, rank: map<Invid, nat>, granted: set<Invid>, o: DBObj)
    : (r: Outcome<Climbed>)
    requires Ranked(objects, rank)
    ensures r == Returned(Granted) ==> o.invid in granted || exists x :: x in objects.Values && x.invid in granted
    ensures r.Returned? && r.value.Top? ==>
      !r.value.obj.embedded && r.value.obj.invid !in granted && (r.value.obj == o || r.value.obj in objects.Values)
    ensures r.Threw? ==> o.embedded && (r.exc == IntegrityConstraint || r.exc == NullPointer)
    decreases Height(objects, rank, o)
  {
    if !o.embedded then (if o.invid in granted then Returned(Granted) else Returned(Top(o)))
    else if o.invid in granted then Returned(Granted)
    else if o.container.None? then Threw(IntegrityConstraint)
    else if o.container.value !in objects then Threw(NullPointer)
    else
      var c := objects[o.container.value];
      var r := Climb(objects, rank, granted, c);
      assert r.Returned? && r.value.Top? ==> r.value.obj == c || r.value.obj in objects.Values;
      r
  }

  /** getContainingObj: the top-level object above o, with no hook consulted. */
  function ContainingObj(objects: map<Invid, DBObj>, rank: map<Invid, nat>, o: DBObj): (r: Outcome<DBObj>)
    requires Ranked(objects, rank)
    ensures r.Returned? ==> !r.value.embedded
    ensures !o.embedded ==> r == Returned(o)
  {
    var c :- Climb(objects, rank, {}, o);
    if c.Granted? then assert false; Returned(o) else Returned(c.obj)
  }

  /** VectorUtils.union: the first list, then what the second adds; null counts as empty. */
  function ListUnion(a: Option<seq<Invid>>, b: Option<seq<Invid>>): (r: seq<Invid>)
    ensures forall x :: x in r <==> (a.Some? && x in a.value) || (b.Some? && x in b.value)
  {
    var first := if a.None? then [] else a.value;
    var second := if b.None? then [] else b.value;
    first + Missing(first, second)
  }

  /** The elements of b not in a, in order. */
  function Missing(a: seq<Invid>, b: seq<Invid>): (r: seq<Invid>)
    ensures forall x :: x in r <==> x in b && x !in a
  {
    if b == [] then []
    else if b[0] in a then Missing(a, b[1..])
    else [b[0]] + Missing(a, b[1..])
  }

  /** An owner group owns itself: its Invid is added to its owner list when missing. */
  function SelfOwned(owners: seq<Invid>, self: Invid): (r: seq<Invid>)
    ensures self in r && forall x :: x in owners ==> x in r
  {
    if self in owners then owners else owners + [self]
  }

  // ---------------------------------------------------------------- permissions

  /** The fields getPerm treats specially; every other field is Ordinary. */
  datatype FieldKind = OwnerList | CreationDate | Creator | ModificationDate | Modifier | Ordinary

  /** The visibility filter: the object's owners share an Invid with the filter. */
  predicate Overlaps(filter: seq<Invid>, owners: Option<seq<Invid>>) {
    owners.Some? && exists x :: x in filter && x in owners.value
  }

  class DBPermissionManager {
    const supergashMode: bool
    /** The active admin persona, null for an end user. */
    const personaInvid: Option<Invid>
    /** The user the session logged in as, null for an internal session. */
    const userInvid: Option<Invid>
    var newObjectOwnerInvids: Option<seq<Invid>>
    var visibilityFilterInvids: Option<seq<Invid>>

    constructor(supergashMode: bool, personaInvid: Option<Invid>, userInvid: Option<Invid>)
      ensures this.supergashMode == supergashMode && this.personaInvid == personaInvid
      ensures this.userInvid == userInvid
      ensures newObjectOwnerInvids.None? && visibilityFilterInvids.None?
    {
      this.supergashMode := supergashMode;
      this.personaInvid := personaInvid;
      this.userInvid := userInvid;
      newObjectOwnerInvids := None;
      visibilityFilterInvids := None;
    }

    /** isPrivileged: an admin persona or supergash. */
    predicate Privileged() {
      personaInvid.Some? || supergashMode
    }

    /** isEndUser: a user who has not taken up an admin persona. */
    predicate EndUser() {
      !supergashMode && userInvid.Some? && personaInvid.None?
    }

    /**
     * setDefaultOwner: null clears the setting; an Invid that is no owner
     * group is refused; the supergash group is dropped; outside supergash
     * mode the persona must belong to every group left.
     */
    method SetDefaultOwner(g: Store, ownerInvids: Option<seq<Invid>>) returns (r: Outcome<Reply>)
      modifies this
      ensures visibilityFilterInvids == old(visibilityFilterInvids)
      ensures ownerInvids.None? ==> r == Returned(Done) && newObjectOwnerInvids.None?
      ensures ownerInvids.Some? && WithoutSupergash(ownerInvids.value).None? ==>
        r == Returned(Refused) && newObjectOwnerInvids == old(newObjectOwnerInvids)
      ensures ownerInvids.Some? && WithoutSupergash(ownerInvids.value).Some? ==>
        var kept := WithoutSupergash(ownerInvids.value);
        var member := IsMemberOfAllOwnerGroups(g, personaInvid, kept);
        if supergashMode || member == Returned(true) then
          r == Returned(Done) && newObjectOwnerInvids == kept
        else
          r == (if member.Threw? then Threw(member.exc) else Returned(Refused)) &&
          newObjectOwnerInvids == old(newObjectOwnerInvids)
    {
      if ownerInvids.None? {
        newObjectOwnerInvids := None;
        return Returned(Done);
      }
      var kept := FilterOwnerList(ownerInvids.value);
      if kept.None? {
        return Returned(Refused);
      }
      if !supergashMode {
        var member := IsMemberOfAllOwnerGroups(g, personaInvid, kept);
        if member.Threw? {
          return Threw(member.exc);
        }
        if !member.value {
          return Returned(Refused);
        }
      }
      newObjectOwnerInvids := kept;
      r := Returned(Done);
    }

    /**
     * getNewOwnerInvids: the list setDefaultOwner set, else nothing for
     * supergash, else the first owner group available to the session.
     */
    function GetNewOwnerInvids(available: seq<Invid>): (r: seq<Invid>)
      reads this
      ensures newObjectOwnerInvids.Some? ==> r == newObjectOwnerInvids.value
      ensures newObjectOwnerInvids.None? && supergashMode ==> r == []
      ensures newObjectOwnerInvids.None? && !supergashMode ==>
        |r| <= 1 && (r == [] <==> available == []) && forall x :: x in r ==> x == available[0]
    {
      if newObjectOwnerInvids.Some? then newObjectOwnerInvids.value
      else if supergashMode then []
      else if |available| > 0 then [available[0]]
      else []
    }

    /**
     * filterQueries: null or empty turns the filter off; otherwise the
     * filter is set when in supergash mode or when the persona belongs to
     * every group named.
     */
    method FilterQueries(g: Store, ownerInvids: Option<seq<Invid>>) returns (r: Outcome<Reply>)
      modifies this
      ensures newObjectOwnerInvids == old(newObjectOwnerInvids)
      ensures ownerInvids.None? || ownerInvids.value == [] ==>
        r == Returned(Done) && visibilityFilterInvids.None?
      ensures ownerInvids.Some? && ownerInvids.value != [] ==>
        var member := IsMemberOfAllOwnerGroups(g, personaInvid, ownerInvids);
        if supergashMode || member == Returned(true) then
          r == Returned(Done) && visibilityFilterInvids == ownerInvids
        else
          r == (if member.Threw? then Threw(member.exc) else Returned(Refused)) &&
          visibilityFilterInvids == old(visibilityFilterInvids)
    {
      if ownerInvids.None? || |ownerInvids.value| == 0 {
        visibilityFilterInvids := None;
        return Returned(Done);
      }
      var copyList := ownerInvids.value;
      if !supergashMode {
        var member := IsMemberOfAllOwnerGroups(g, personaInvid, Some(copyList));
        if member.Threw? {
          return Threw(member.exc);
        }
        if !member.value {
          return Returned(Refused);
        }
      }
      visibilityFilterInvids := Some(copyList);
      r := Returned(Done);
    }

    /**
     * filterMatch: a null object never matches, everything matches while no
     * filter is set, and otherwise the object's own owner list must name a
     * group of the filter (no climbing up the owner groups).
     */
    function FilterMatch(obj: Option<DBObj>): (r: bool)
      reads this
      ensures r <==>
        obj.Some? &&
        (visibilityFilterInvids.None? || visibilityFilterInvids.value == [] ||
         (obj.value.owners.Some? &&
          exists x :: x in visibilityFilterInvids.value && x in obj.value.owners.value))
    {
      if obj.None? then false
      else if visibilityFilterInvids.None? || |visibilityFilterInvids.value| == 0 then true
      else Overlaps(visibilityFilterInvids.value, obj.value.owners)
    }

    /**
     * personaMatch: ownership through owner-group membership alone.  An end
     * user owns only their own user object; an owner group owns itself; an
     * admin persona is owned by the groups it belongs to.  The answer only;
     * what the call writes into an owner group is OwnersAfterMatch.
     */
    function PersonaMatch(obj: Option<DBObj>, objects: map<Invid, DBObj>, rank: map<Invid, nat>, g: Store)
      : (r: Outcome<bool>)
      requires Ranked(objects, rank)
      ensures obj.None? ==> r == Returned(false)
      ensures obj.Some? && supergashMode ==> r == Returned(true)
      ensures obj.Some? && !obj.value.embedded && !Privileged() ==> r == Returned(userInvid == Some(obj.value.invid))
    {
      if obj.None? then Returned(false)
      else if supergashMode then Returned(true)
      else
        var top :- ContainingObj(objects, rank, obj.value);
        if !Privileged() then Returned(userInvid == Some(top.invid))
        else if top.invid.typeId == OwnerBase then
          if top.owners.None? then Threw(NullPointer)
          else IsMemberOfAnyOwnerGroups(g, personaInvid, Some(SelfOwned(top.owners.value, top.invid)))
        else if top.invid.typeId == PersonaBase then
          IsMemberOfAnyOwnerGroups(g, personaInvid, Some(ListUnion(top.owners, top.personaGroups)))
        else IsMemberOfAnyOwnerGroups(g, personaInvid, top.owners)
    }

    /**
     * The owner list a top-level object holds once personaMatch has read it.
     * The list getFieldValuesLocal hands out is the field's own vector, so
     * the self-ownership personaMatch adds to an owner group is stored in
     * the group.
     */
    function OwnersAfterMatch(top: DBObj): (r: Option<seq<Invid>>)
      reads this
      ensures top.owners.None? ==> r == top.owners
      ensures top.owners.Some? ==> r.Some? && (forall x :: x in top.owners.value ==> x in r.value)
      ensures r.Some? ==> forall x :: x in r.value ==> (top.owners.Some? && x in top.owners.value) || x == top.invid
      ensures r != top.owners <==>
        !supergashMode && Privileged() && top.invid.typeId == OwnerBase && top.owners.Some? &&
        top.invid !in top.owners.value
    {
      if !supergashMode && Privileged() && top.invid.typeId == OwnerBase && top.owners.Some? then
        Some(SelfOwned(top.owners.value, top.invid))
      else top.owners
    }

    /** Asking again after the owner list was written back gives the same answer. */
    lemma {:induction false} PersonaMatchRepeatable(top: DBObj, objects: map<Invid, DBObj>, rank: map<Invid, nat>, g: Store)
      requires Ranked(objects, rank) && !top.embedded
      ensures var after := top.(owners := OwnersAfterMatch(top));
        OwnersAfterMatch(after) == after.owners &&
        PersonaMatch(Some(after), objects, rank, g) == PersonaMatch(Some(top), objects, rank, g)
    {
      var after := top.(owners := OwnersAfterMatch(top));
      if !supergashMode && Privileged() && top.invid.typeId == OwnerBase && top.owners.Some? {
        assert SelfOwned(after.owners.value, top.invid) == after.owners.value;
      }
    }

    /**
     * The write-back shows in later answers: an owner group with no owners
     * is outside a filter naming only itself until personaMatch has run on it.
     */
    lemma SelfOwnershipStored(top: DBObj)
      requires !supergashMode && personaInvid.Some? && top.invid.typeId == OwnerBase
      requires top.owners == Some([]) && visibilityFilterInvids == Some([top.invid])
      ensures !FilterMatch(Some(top))
      ensures FilterMatch(Some(top.(owners := OwnersAfterMatch(top))))
    {
      assert top.invid in OwnersAfterMatch(top).value;
    }

    /** In a closed store, an owner group the persona belongs to is owned by the persona. */
    lemma PersonaMatchSelfOwned(obj: DBObj, objects: map<Invid, DBObj>, rank: map<Invid, nat>, g: Store)
      requires Ranked(objects, rank) && Closed(g)
      requires !supergashMode && personaInvid.Some? && !obj.embedded
      requires IsOwnerGroup(obj.invid) && obj.invid in g && obj.owners.Some?
      requires forall y :: y in obj.owners.value ==> y in g
      ensures PersonaMatch(Some(obj), objects, rank, g) == Returned(ReachesMember(g, personaInvid, obj.invid) ||
        exists y :: y in obj.owners.value && ReachesMember(g, personaInvid, y))
    {
      var list := SelfOwned(obj.owners.value, obj.invid);
      AnyIsExists(g, personaInvid, list);
    }

    /** In a closed store, an admin persona is owned by whoever belongs to one of its groups. */
    lemma PersonaOwnedThroughGroups(obj: DBObj, objects: map<Invid, DBObj>, rank: map<Invid, nat>, g: Store)
      requires Ranked(objects, rank) && Closed(g)
      requires !supergashMode && personaInvid.Some? && !obj.embedded && obj.invid.typeId == PersonaBase
      requires obj.owners.Some? ==> forall y :: y in obj.owners.value ==> y in g
      requires obj.personaGroups.Some? ==> forall y :: y in obj.personaGroups.value ==> y in g
      ensures PersonaMatch(Some(obj), objects, rank, g) == Returned(
        exists y :: y in ListUnion(obj.owners, obj.personaGroups) && ReachesMember(g, personaInvid, y))
    {
      AnyIsExists(g, personaInvid, ListUnion(obj.owners, obj.personaGroups));
    }

    /**
     * isOwnedByUs: supergash owns everything; an end user owns their own
     * object; otherwise the container chain is climbed, the hook may grant
     * ownership, and an admin persona falls back on personaMatch.
     */
    method IsOwnedByUs(obj: Option<DBObj>, objects: map<Invid, DBObj>, rank: map<Invid, nat>,
                       granted: set<Invid>, g: Store) returns (r: Outcome<bool>)
      requires Ranked(objects, rank)
      ensures obj.None? ==> r == Returned(false)
      ensures obj.Some? && (supergashMode || (!Privileged() && userInvid == Some(obj.value.invid))) ==>
        r == Returned(true)
      ensures obj.Some? && !supergashMode && !(!Privileged() && userInvid == Some(obj.value.invid)) ==>
        r == match Climb(objects, rank, granted, obj.value)
             case Threw(e) => Threw(e)
             case Returned(Granted) => Returned(true)
             case Returned(Top(t)) => if !Privileged() then Returned(false) else PersonaMatch(Some(t), objects, rank, g)
    {
      if obj.None? {
        return Returned(false);
      }
      if supergashMode {
        return Returned(true);
      }
      var cur := obj.value;
      if !Privileged() && userInvid == Some(cur.invid) {
        return Returned(true);
      }
      while cur.embedded
        invariant Climb(objects, rank, granted, cur) == Climb(objects, rank, granted, obj.value)
        decreases Height(objects, rank, cur)
      {
        if cur.invid in granted {
          return Returned(true);
        }
        if cur.container.None? {
          return Threw(IntegrityConstraint);
        }
        if cur.container.value !in objects {
          return Threw(NullPointer);
        }
        cur := objects[cur.container.value];
      }
      if cur.invid in granted {
        return Returned(true);
      }
      if !Privileged() {
        return Returned(false);
      }
      r := PersonaMatch(Some(cur), objects, rank, g);
    }

    /**
     * getPerm(object, fieldID): with no permission on the field it is the
     * object permission; otherwise it is what field and object both allow,
     * plus create when the field allows it.  The metadata fields, and the
     * owner list of an object not owned or of an end user, are capped to
     * view.  The owned flag and the object and field permissions are what
     * isOwnedByUs, getObjectPerm and getFieldPerm give.
     */
    function GetPerm(obj: Option<DBObj>, loggedIn: bool, owned: bool,
                     objectPerm: PermEntry, fieldPerm: Option<PermEntry>, field: FieldKind)
      : (r: Outcome<PermEntry>)
      ensures obj.None? <==> r == Threw(NullPointer)
      ensures obj.Some? && !loggedIn ==> r == Returned(NoPerms)
      ensures obj.Some? && loggedIn ==>
        var capped := field == CreationDate || field == Creator || field == ModificationDate || field == Modifier ||
          (field == OwnerList && (!owned || EndUser()));
        r.Returned? &&
        (r.value.view <==> objectPerm.view && (fieldPerm.None? || fieldPerm.value.view)) &&
        (r.value.edit <==> !capped && objectPerm.edit && (fieldPerm.None? || fieldPerm.value.edit)) &&
        (r.value.delete <==> !capped && objectPerm.delete && (fieldPerm.None? || fieldPerm.value.delete)) &&
        (r.value.create <==> !capped && (if fieldPerm.Some? then fieldPerm.value.create else objectPerm.create))
      ensures r.Returned? ==> Within(r.value.(create := false), objectPerm)
    {
      if obj.None? then Threw(NullPointer)
      else if !loggedIn then Returned(NoPerms)
      else
        var result :=
          if fieldPerm.None? then objectPerm
          else
            var both := Intersection(fieldPerm.value, objectPerm);
            if fieldPerm.value.create then Union(both, CreatePerms) else both;
        if (field == OwnerList && (!owned || EndUser())) ||
           field == CreationDate || field == Creator || field == ModificationDate || field == Modifier
        then Returned(Intersection(ViewPerms, result))
        else Returned(result)
    }
  }

  /** What setDefaultOwner keeps, outside supergash mode, are groups the persona belongs to. */
  lemma DefaultOwnersAreMine(g: Store, persona: Option<Invid>, owners: seq<Invid>, kept: seq<Invid>)
    requires Closed(g) && forall y :: y in owners ==> y in g
    requires WithoutSupergash(owners) == Some(kept)
    requires IsMemberOfAllOwnerGroups(g, persona, Some(kept)) == Returned(true)
    ensures forall y :: y in kept ==> y.num != OwnerSupergash && ReachesMember(g, persona, y)
  {
    AllIsForall(g, persona, kept);
  }
}
