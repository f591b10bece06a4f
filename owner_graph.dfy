// The owner groups of the database as the permission code sees them: each
// owner group lists its member personae, the owner groups that own it
// (upward) and the objects it owns (downward).  The session's view of the
// store is a map from an owner group's Invid to its record; a missing key is
// an Invid that viewDBObject cannot find.
module Ownership {
  import opened Wrappers
  import opened Invids

  /** SchemaConstants.OwnerBase, PersonaBase and OwnerSupergash; only their distinctness matters. */
  const OwnerBase := 0
  const PersonaBase := 1
  const OwnerSupergash := 1

  predicate IsOwnerGroup(i: Invid) {
    i.typeId == OwnerBase
  }

  /**
   * An owner group: the OwnerMembersField, OwnerListField and
   * OwnerObjectsOwned fields, None where the object has no such field.
   */
  datatype OwnerGroup = OwnerGroup(
    name: string,
    members: Option<seq<Invid>>,
    owners: Option<seq<Invid>>,
    ownedObjects: Option<seq<Invid>>)

  type Store = map<Invid, OwnerGroup>

  /**
   * An object as the ownership checks read it: its Invid, whether it is
   * embedded and the ContainerField that points to its container, its
   * OwnerListField, and, for an admin persona, its PersonaGroupsField.
   */
  datatype DBObj = DBObj(
    invid: Invid,
    embedded: bool,
    container: Option<Invid>,
    owners: Option<seq<Invid>>,
    personaGroups: Option<seq<Invid>>)

  /** The persona is listed among the members of group x. */
  predicate DirectMember(g: Store, persona: Option<Invid>, x: Invid) {
    x in g && g[x].members.Some? && persona.Some? && persona.value in g[x].members.value
  }

  /** Group y is among the owners of group x: one step up. */
  predicate OwnedBy(g: Store, x: Invid, y: Invid) {
    x in g && g[x].owners.Some? && y in g[x].owners.value
  }

  /** A chain of groups, each owned by the one after it. */
  ghost predicate UpPath(g: Store, p: seq<Invid>) {
    |p| >= 1 && forall i :: 0 <= i < |p| - 1 ==> OwnedBy(g, p[i], p[i + 1])
  }

  /** The persona belongs to group o or to a group that owns it, transitively. */
  ghost predicate ReachesMember(g: Store, persona: Option<Invid>, o: Invid) {
    exists p :: UpPath(g, p) && p[0] == o && DirectMember(g, persona, p[|p| - 1])
  }

  /**
   * A store in which the membership search cannot fail: every group is an
   * owner group with a member list, and every owner it names is in the store.
   */
  predicate Closed(g: Store) {
    forall x :: x in g ==>
      IsOwnerGroup(x) && g[x].members.Some? &&
      (g[x].owners.Some? ==> forall y :: y in g[x].owners.value ==> y in g)
  }

  // ---------------------------------------------------------------- set sizes

  lemma {:induction false} SubsetSmaller(a: set<Invid>, b: set<Invid>)
    requires a <= b
    ensures |a| <= |b|
  {
    if a != {} {
      var x :| x in a;
      SubsetSmaller(a - {x}, b - {x});
    }
  }

  /** Seeing more groups leaves no more of the store unseen. */
  lemma SeenMore(keys: set<Invid>, seen: set<Invid>, seen': set<Invid>)
    requires seen <= seen'
    ensures |keys - seen'| <= |keys - seen|
  {
    SubsetSmaller(keys - seen', keys - seen);
  }

  /** Seeing a group of the store that was unseen leaves strictly fewer unseen. */
  lemma SeenOneMore(keys: set<Invid>, seen: set<Invid>, o: Invid)
    requires o in keys && o !in seen
    ensures |keys - (seen + {o})| < |keys - seen|
  {
    assert keys - (seen + {o}) == (keys - seen) - {o};
  }

  // ---------------------------------------------------------------- chains

  lemma DirectReaches(g: Store, persona: Option<Invid>, o: Invid)
    requires DirectMember(g, persona, o)
    ensures ReachesMember(g, persona, o)
  {
    assert UpPath(g, [o]);
  }

  /** Membership of an owning group carries down to the group it owns. */
  lemma UpReaches(g: Store, persona: Option<Invid>, o: Invid, y: Invid)
    requires OwnedBy(g, o, y) && ReachesMember(g, persona, y)
    ensures ReachesMember(g, persona, o)
  {
    var p :| UpPath(g, p) && p[0] == y && DirectMember(g, persona, p[|p| - 1]);
    var q := [o] + p;
    assert forall i :: 1 <= i < |q| - 1 ==> q[i] == p[i - 1] && q[i + 1] == p[i];
    assert UpPath(g, q);
  }

  /** A group reached but not a direct member is reached through one of its owners. */
  lemma ReachesStep(g: Store, persona: Option<Invid>, o: Invid) returns (y: Invid)
    requires ReachesMember(g, persona, o) && !DirectMember(g, persona, o)
    ensures OwnedBy(g, o, y) && ReachesMember(g, persona, y)
  {
    var p :| UpPath(g, p) && p[0] == o && DirectMember(g, persona, p[|p| - 1]);
    y := p[1];
    var q := p[1..];
    forall i | 0 <= i < |q| - 1
      ensures OwnedBy(g, q[i], q[i + 1])
    {
      assert OwnedBy(g, p[i + 1], p[i + 2]);
    }
    assert UpPath(g, q);
  }

  /** Some group of the list is reached. */
  ghost predicate AnyReaches(g: Store, persona: Option<Invid>, owners: seq<Invid>) {
    exists y :: y in owners && ReachesMember(g, persona, y)
  }

  /** A group is reached when the persona is a member of it or a group owning it is reached. */
  lemma ReachesUnfold(g: Store, persona: Option<Invid>, o: Invid)
    ensures ReachesMember(g, persona, o) <==>
      DirectMember(g, persona, o) ||
      (o in g && g[o].owners.Some? && AnyReaches(g, persona, g[o].owners.value))
  {
    if DirectMember(g, persona, o) {
      DirectReaches(g, persona, o);
    } else if ReachesMember(g, persona, o) {
      var y := ReachesStep(g, persona, o);
    }
    if o in g && g[o].owners.Some? && exists y :: y in g[o].owners.value && ReachesMember(g, persona, y) {
      var y :| y in g[o].owners.value && ReachesMember(g, persona, y);
      UpReaches(g, persona, o, y);
    }
  }

  /**
   * Every chain that starts in a set closed under the owner step stays in it.
   * With no member in the set, no chain from it reaches a member.
   */
  lemma {:induction false} ClosedSetBlocks(g: Store, persona: Option<Invid>, s: set<Invid>, o: Invid)
    requires o in s
    requires forall x :: x in s ==> !DirectMember(g, persona, x)
    requires forall x, y :: x in s && OwnedBy(g, x, y) ==> y in s
    ensures !ReachesMember(g, persona, o)
  {
    if ReachesMember(g, persona, o) {
      var p :| UpPath(g, p) && p[0] == o && DirectMember(g, persona, p[|p| - 1]);
      PathStaysIn(g, s, p, |p| - 1);
      assert false;
    }
  }

  lemma {:induction false} PathStaysIn(g: Store, s: set<Invid>, p: seq<Invid>, k: nat)
    requires UpPath(g, p) && p[0] in s && k < |p|
    requires forall x, y :: x in s && OwnedBy(g, x, y) ==> y in s
    ensures p[k] in s
  {
    if k > 0 {
      PathStaysIn(g, s, p, k - 1);
      assert OwnedBy(g, p[k - 1], p[k]);
    }
  }
}
