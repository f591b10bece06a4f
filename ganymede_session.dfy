// The older server session (GanymedeSession): the owner groups a persona
// can act for, ownership by owner-group membership without a seen set, the
// visibility filter, field permissions, the error text handed to the client,
// the return address of mail the session sends, and the wizard slot.
module GanymedeSessions {
  import opened Wrappers
  import opened Invids
  import opened Seqs
  import opened Ownership
  import opened PermEntries
  import PermissionManager

  // ---------------------------------------------------------------- owner groups below a persona

  /** Group x owns the owner group y: one step down the OwnerObjectsOwned links. */
  predicate Down(g: Store, x: Invid, y: Invid) {
    x in g && g[x].ownedObjects.Some? && y in g[x].ownedObjects.value && IsOwnerGroup(y)
  }

  /** A chain of groups that can all be seen, each owning the next. */
  ghost predicate DownPath(g: Store, p: seq<Invid>) {
    |p| >= 1 && (forall i :: 0 <= i < |p| ==> p[i] in g) &&
    forall i :: 0 <= i < |p| - 1 ==> Down(g, p[i], p[i + 1])
  }

  /** y is a seed group, or a group owned, transitively, by one. */
  ghost predicate Below(g: Store, seeds: seq<Invid>, y: Invid) {
    exists p :: DownPath(g, p) && p[0] in seeds && p[|p| - 1] == y
  }

  /** What may sit in the queue: a seed, or a group owned by one already taken. */
  ghost predicate Candidate(g: Store, seeds: seq<Invid>, seen: set<Invid>, y: Invid) {
    y in seeds || exists x :: x in seen && Down(g, x, y)
  }

  lemma SeedBelow(g: Store, seeds: seq<Invid>, y: Invid)
    requires y in seeds && y in g
    ensures Below(g, seeds, y)
  {
    assert DownPath(g, [y]);
  }

  lemma StepBelow(g: Store, seeds: seq<Invid>, x: Invid, y: Invid)
    requires Below(g, seeds, x) && Down(g, x, y) && y in g
    ensures Below(g, seeds, y)
  {
    var p :| DownPath(g, p) && p[0] in seeds && p[|p| - 1] == x;
    var q := p + [y];
    assert forall i :: 0 <= i < |p| ==> q[i] == p[i];
    assert DownPath(g, q);
  }

  /** A set holding the seeds it can see and closed under the step down holds everything below them. */
  lemma {:induction false} BelowInClosed(g: Store, seeds: seq<Invid>, s: set<Invid>, y: Invid)
    requires forall x :: x in seeds && x in g ==> x in s
    requires forall x, z :: x in s && Down(g, x, z) && z in g ==> z in s
    requires Below(g, seeds, y)
    ensures y in s
  {
    var p :| DownPath(g, p) && p[0] in seeds && p[|p| - 1] == y;
    DownPathIn(g, seeds, s, p, |p| - 1);
  }

  lemma {:induction false} DownPathIn(g: Store, seeds: seq<Invid>, s: set<Invid>, p: seq<Invid>, k: nat)
    requires forall x :: x in seeds && x in g ==> x in s
    requires forall x, z :: x in s && Down(g, x, z) && z in g ==> z in s
    requires DownPath(g, p) && p[0] in seeds && k < |p|
    ensures p[k] in s
  {
    if k > 0 {
      DownPathIn(g, seeds, s, p, k - 1);
      assert Down(g, p[k - 1], p[k]);
    }
  }

  /** The OwnerBase Invids of a list, in order. */
  function OwnerGroupsIn(s: seq<Invid>): (r: seq<Invid>)
    ensures forall x :: x in r <==> x in s && IsOwnerGroup(x)
  {
    if s == [] then []
    else (if IsOwnerGroup(s[0]) then [s[0]] else []) + OwnerGroupsIn(s[1..])
  }

  /** The inner loop of getOwnerGroups: the owner groups a group owns join the next level. */
  method AddOwnerGroups(children: seq<Invid>, owned: seq<Invid>) returns (r: seq<Invid>)
    ensures r == children + OwnerGroupsIn(owned)
  {
    r := children;
    var j := 0;
    while j < |owned|
      invariant 0 <= j <= |owned|
      invariant r + OwnerGroupsIn(owned[j..]) == children + OwnerGroupsIn(owned)
    {
      assert owned[j..][0] == owned[j] && owned[j..][1..] == owned[j + 1..];
      if IsOwnerGroup(owned[j]) {
        r := r + [owned[j]];
      }
      j := j + 1;
    }
    assert owned[j..] == [];
  }

  /** What the search has taken: each group once, each below the seeds and with a list of owned objects. */
  ghost predicate Taken(g: Store, seeds: seq<Invid>, result: seq<Invid>, seen: set<Invid>) {
    (forall x :: x in seen <==> x in result) && seen <= g.Keys && Distinct(result) &&
    forall y :: y in seen ==> Below(g, seeds, y) && g[y].ownedObjects.Some?
  }

  /**
   * The queue, what is left of this level (a) and the next level so far
   * (b), holds only candidates, and nothing the search must still take is
   * outside it.
   */
  ghost predicate Frontier(g: Store, seeds: seq<Invid>, seen: set<Invid>, a: seq<Invid>, b: seq<Invid>) {
    (forall y :: y in a ==> Candidate(g, seeds, seen, y)) &&
    (forall y :: y in b ==> Candidate(g, seeds, seen, y)) &&
    (forall x :: x in seeds && x in g ==> x in seen || x in a || x in b) &&
    forall x, z :: x in seen && Down(g, x, z) && z in g ==> z in seen || z in a || z in b
  }

  /** A group that is a candidate and can be seen lies below the seeds. */
  lemma CandidateBelow(g: Store, seeds: seq<Invid>, seen: set<Invid>, y: Invid)
    requires Candidate(g, seeds, seen, y) && y in g
    requires forall x :: x in seen ==> Below(g, seeds, x)
    ensures Below(g, seeds, y)
  {
    if y in seeds {
      SeedBelow(g, seeds, y);
    } else {
      var x :| x in seen && Down(g, x, y);
      StepBelow(g, seeds, x, y);
    }
  }

  /**
   * One group of a level, groups[i]: skipped when already seen or not
   * visible; otherwise taken, and the owner groups it owns join the next
   * level.
   */
  method VisitOne(g: Store, seeds: seq<Invid>, result: seq<Invid>, seen: set<Invid>, children: seq<Invid>,
                  groups: seq<Invid>, i: nat)
    returns (thrown: bool, result': seq<Invid>, seen': set<Invid>, children': seq<Invid>)
    requires i < |groups|
    requires Taken(g, seeds, result, seen) && Frontier(g, seeds, seen, groups[i..], children)
    ensures thrown ==> exists y :: Below(g, seeds, y) && g[y].ownedObjects.None?
    ensures !thrown ==> Taken(g, seeds, result', seen') && seen <= seen'
    ensures !thrown ==> Frontier(g, seeds, seen', groups[i + 1..], children')
    ensures !thrown ==> |g.Keys - seen'| <= |g.Keys - seen|
    ensures !thrown && children' != children ==> |g.Keys - seen'| < |g.Keys - seen|
  {
    var inv := groups[i];
    assert groups[i..] == [inv] + groups[i + 1..];
    if inv in seen || inv !in g {
      SkipKeepsFrontier(g, seeds, seen, inv, groups[i + 1..], children);
      return false, result, seen, children;
    }
    CandidateBelow(g, seeds, seen, inv);
    if g[inv].ownedObjects.None? {
      return true, result, seen, children;
    }
    SeenOneMore(g.Keys, seen, inv);
    DistinctAppend(result, inv);
    result' := result + [inv];
    seen' := seen + {inv};
    children' := AddOwnerGroups(children, g[inv].ownedObjects.value);
    TakeKeepsFrontier(g, seeds, seen, inv, groups[i + 1..], children, children');
    thrown := false;
  }

  lemma SkipKeepsFrontier(g: Store, seeds: seq<Invid>, seen: set<Invid>, inv: Invid, rest: seq<Invid>,
                          children: seq<Invid>)
    requires Frontier(g, seeds, seen, [inv] + rest, children) && (inv in seen || inv !in g)
    ensures Frontier(g, seeds, seen, rest, children)
  {
  }

  lemma TakeKeepsFrontier(g: Store, seeds: seq<Invid>, seen: set<Invid>, inv: Invid, rest: seq<Invid>,
                          children: seq<Invid>, children': seq<Invid>)
    requires Frontier(g, seeds, seen, [inv] + rest, children) && inv in g && g[inv].ownedObjects.Some?
    requires children' == children + OwnerGroupsIn(g[inv].ownedObjects.value)
    ensures Frontier(g, seeds, seen + {inv}, rest, children')
  {
    var seen' := seen + {inv};
    forall y | y in rest
      ensures Candidate(g, seeds, seen', y)
    {
      assert y in [inv] + rest;
    }
    forall y | y in children'
      ensures Candidate(g, seeds, seen', y)
    {
      if y !in children {
        assert Down(g, inv, y);
      }
    }
    forall x, z | x in seen' && Down(g, x, z) && z in g
      ensures z in seen' || z in rest || z in children'
    {
      if x == inv {
        assert z in OwnerGroupsIn(g[inv].ownedObjects.value);
      }
    }
  }

  /**
   * One level of the search: every group of the level not yet seen and
   * that can be seen is taken, and the owner groups it owns make up the
   * next level.
   */
  method VisitLevel(g: Store, seeds: seq<Invid>, result: seq<Invid>, seen: set<Invid>, groups: seq<Invid>)
    returns (thrown: bool, result': seq<Invid>, seen': set<Invid>, children: seq<Invid>)
    requires Taken(g, seeds, result, seen) && Frontier(g, seeds, seen, groups, [])
    ensures thrown ==> exists y :: Below(g, seeds, y) && g[y].ownedObjects.None?
    ensures !thrown ==> Taken(g, seeds, result', seen') && Frontier(g, seeds, seen', [], children)
    ensures !thrown ==> seen <= seen' && |g.Keys - seen'| <= |g.Keys - seen|
    ensures !thrown && children != [] ==> |g.Keys - seen'| < |g.Keys - seen|
  {
    thrown, result', seen', children := false, result, seen, [];
    var i := 0;
    assert groups[i..] == groups;
    while i < |groups|
      invariant 0 <= i <= |groups| && !thrown
      invariant Taken(g, seeds, result', seen') && seen <= seen'
      invariant Frontier(g, seeds, seen', groups[i..], children)
      invariant children != [] ==> |g.Keys - seen'| < |g.Keys - seen|
      invariant |g.Keys - seen'| <= |g.Keys - seen|
    {
      thrown, result', seen', children := VisitOne(g, seeds, result', seen', children, groups, i);
      if thrown {
        return;
      }
      i := i + 1;
    }
    assert groups[i..] == [];
  }

  /** The next level becomes the current one. */
  lemma NextLevel(g: Store, seeds: seq<Invid>, seen: set<Invid>, children: seq<Invid>)
    requires Frontier(g, seeds, seen, [], children)
    ensures Frontier(g, seeds, seen, children, [])
  {
  }

  /**
   * The breadth-first search of getOwnerGroups: level by level from the
   * persona's groups down the OwnerObjectsOwned links, each group that can
   * be seen taken once; a group without an OwnerObjectsOwned list is a
   * NullPointerException.
   */
  method GroupsBelow(g: Store, seeds: seq<Invid>) returns (r: Outcome<seq<Invid>>)
    ensures r.Returned? ==> Distinct(r.value) && forall y :: y in r.value <==> Below(g, seeds, y)
    ensures r.Threw? ==> r.exc == NullPointer && exists y :: Below(g, seeds, y) && g[y].ownedObjects.None?
  {
    var result: seq<Invid> := [];
    var seen: set<Invid> := {};
    var groups := seeds;
    while groups != []
      invariant Taken(g, seeds, result, seen) && Frontier(g, seeds, seen, groups, [])
      decreases |g.Keys - seen| + (if groups == [] then 0 else 1)
    {
      var thrown, children;
      thrown, result, seen, children := VisitLevel(g, seeds, result, seen, groups);
      if thrown {
        return Threw(NullPointer);
      }
      NextLevel(g, seeds, seen, children);
      groups := children;
    }
    forall y | Below(g, seeds, y)
      ensures y in seen
    {
      BelowInClosed(g, seeds, seen, y);
    }
    r := Returned(result);
  }

  lemma DistinctAppend(s: seq<Invid>, x: Invid)
    requires Distinct(s) && x !in s
    ensures Distinct(s + [x])
  {
  }

  // ---------------------------------------------------------------- membership without a seen set

  /**
   * Owner links lead from a group to groups of lower rank: the ownership
   * graph has no cycle.  recursePersonaMatch keeps no record of the groups
   * it has visited, so on a cycle it would not end.
   */
  predicate UpRanked(g: Store, rank: map<Invid, nat>) {
    (forall x :: x in g ==> x in rank) &&
    forall x, y :: x in g && y in g && OwnedBy(g, x, y) ==> rank[y] < rank[x]
  }

  /** One more than the highest rank of a visible group of the list. */
  function Ceiling(g: Store, rank: map<Invid, nat>, owners: seq<Invid>): (c: nat)
    requires UpRanked(g, rank)
    ensures owners != [] && owners[0] in g ==> rank[owners[0]] < c
  {
    if owners == [] then 0
    else
      var head := if owners[0] in g then rank[owners[0]] + 1 else 0;
      var tail := Ceiling(g, rank, owners[1..]);
      if head < tail then tail else head
  }

  /** Dropping the head of a list does not raise its ceiling. */
  lemma CeilingTail(g: Store, rank: map<Invid, nat>, owners: seq<Invid>)
    requires UpRanked(g, rank) && owners != []
    ensures Ceiling(g, rank, owners[1..]) <= Ceiling(g, rank, owners)
  {
  }

  /** Every visible group of the list is ranked below its ceiling. */
  lemma {:induction false} CeilingAbove(g: Store, rank: map<Invid, nat>, owners: seq<Invid>, y: Invid)
    requires UpRanked(g, rank) && y in owners && y in g
    ensures rank[y] < Ceiling(g, rank, owners)
  {
    if y != owners[0] {
      CeilingAbove(g, rank, owners[1..], y);
    }
  }

  /** A list whose visible groups are all ranked below bound has a ceiling no higher. */
  lemma {:induction false} CeilingBelow(g: Store, rank: map<Invid, nat>, owners: seq<Invid>, bound: nat)
    requires UpRanked(g, rank)
    requires forall y :: y in owners && y in g ==> rank[y] < bound
    ensures Ceiling(g, rank, owners) <= bound
  {
    if owners != [] {
      assert forall y :: y in owners[1..] ==> y in owners;
      CeilingBelow(g, rank, owners[1..], bound);
    }
  }

  /** The member loop: personaInvid.equals on each member, so a null persona throws on a non-empty list. */
  function MemberMatch(persona: Option<Invid>, members: seq<Invid>): (r: Outcome<bool>)
    ensures persona.Some? ==> r == Returned(persona.value in members)
    ensures persona.None? ==> (r.Threw? <==> members != [])
  {
    if persona.None? then (if members == [] then Returned(false) else Threw(NullPointer))
    else Returned(persona.value in members)
  }

  /**
   * recursePersonaMatch: a group that cannot be seen, or that has no
   * member field, is skipped; otherwise the persona is looked for among its
   * members and then, depth first, up its owner list.
   */
  function RecurseMatch(g: Store, rank: map<Invid, nat>, persona: Option<Invid>, owners: seq<Invid>)
    : (r: Outcome<bool>)
    requires UpRanked(g, rank)
    ensures persona.Some? ==> r.Returned?
    decreases Ceiling(g, rank, owners), |owners|
  {
    if owners == [] then Returned(false)
    else
      var o := owners[0];
      CeilingTail(g, rank, owners);
      if o !in g || g[o].members.None? then RecurseMatch(g, rank, persona, owners[1..])
      else
        var direct :- MemberMatch(persona, g[o].members.value);
        if direct then Returned(true)
        else if g[o].owners.None? then RecurseMatch(g, rank, persona, owners[1..])
        else
          CeilingBelow(g, rank, g[o].owners.value, rank[o]);
          var up :- RecurseMatch(g, rank, persona, g[o].owners.value);
          if up then Returned(true) else RecurseMatch(g, rank, persona, owners[1..])
  }

  /**
   * On a closed store without ownership cycles, recursePersonaMatch answers
   * whether the persona belongs to a listed group or to one above it.
   */
  lemma {:induction false} RecurseMatchIff(g: Store, rank: map<Invid, nat>, persona: Option<Invid>, owners: seq<Invid>)
    requires Closed(g) && UpRanked(g, rank) && persona.Some?
    requires forall y :: y in owners ==> y in g
    ensures RecurseMatch(g, rank, persona, owners) == Returned(AnyReaches(g, persona, owners))
    decreases Ceiling(g, rank, owners), |owners|
  {
    if owners != [] {
      var o := owners[0];
      CeilingTail(g, rank, owners);
      assert forall y :: y in owners[1..] ==> y in owners;
      RecurseMatchIff(g, rank, persona, owners[1..]);
      if g[o].owners.Some? {
        CeilingBelow(g, rank, g[o].owners.value, rank[o]);
        RecurseMatchIff(g, rank, persona, g[o].owners.value);
      }
      RecurseMatchStep(g, rank, persona, owners);
    }
  }

  /** The induction step of RecurseMatchIff: one group, given the answers for its owners and the rest. */
  lemma RecurseMatchStep(g: Store, rank: map<Invid, nat>, persona: Option<Invid>, owners: seq<Invid>)
    requires Closed(g) && UpRanked(g, rank) && persona.Some?
    requires owners != [] && owners[0] in g
    requires RecurseMatch(g, rank, persona, owners[1..]) == Returned(AnyReaches(g, persona, owners[1..]))
    requires g[owners[0]].owners.Some? ==>
      RecurseMatch(g, rank, persona, g[owners[0]].owners.value) ==
      Returned(AnyReaches(g, persona, g[owners[0]].owners.value))
    ensures RecurseMatch(g, rank, persona, owners) == Returned(AnyReaches(g, persona, owners))
  {
    ExistsSplit(g, persona, owners);
    ReachesUnfold(g, persona, owners[0]);
    RecurseMatchUnfold(g, rank, persona, owners);
  }

  /** One step of recursePersonaMatch over a closed store, as a truth value. */
  lemma RecurseMatchUnfold(g: Store, rank: map<Invid, nat>, persona: Option<Invid>, owners: seq<Invid>)
    requires Closed(g) && UpRanked(g, rank) && persona.Some?
    requires owners != [] && owners[0] in g
    ensures RecurseMatch(g, rank, persona, owners).value <==>
      DirectMember(g, persona, owners[0]) ||
      (g[owners[0]].owners.Some? && RecurseMatch(g, rank, persona, g[owners[0]].owners.value).value) ||
      RecurseMatch(g, rank, persona, owners[1..]).value
  {
  }

  lemma ExistsSplit(g: Store, persona: Option<Invid>, owners: seq<Invid>)
    requires owners != []
    ensures AnyReaches(g, persona, owners) <==>
      ReachesMember(g, persona, owners[0]) || AnyReaches(g, persona, owners[1..])
  {
    assert forall y :: y in owners <==> y == owners[0] || y in owners[1..];
  }

  /**
   * On such a store the old session and the permission manager, which
   * keeps a seen set, agree on membership of any of a list of groups.
   */
  lemma AgreesWithSeenSetSearch(g: Store, rank: map<Invid, nat>, persona: Option<Invid>, owners: seq<Invid>)
    requires Closed(g) && UpRanked(g, rank) && persona.Some?
    requires forall y :: y in owners ==> y in g
    ensures RecurseMatch(g, rank, persona, owners) ==
      PermissionManager.IsMemberOfAnyOwnerGroups(g, persona, Some(owners))
  {
    RecurseMatchIff(g, rank, persona, owners);
    PermissionManager.AnyIsExists(g, persona, owners);
  }

  /**
   * The loop of isMemberAll: every group must be visible and have a member
   * field, and the persona must be a member of it or, through
   * recursePersonaMatch, of a group above it; the owner list is searched
   * even when the persona is a direct member.
   */
  function AllMatch(g: Store, rank: map<Invid, nat>, persona: Option<Invid>, owners: seq<Invid>)
    : (r: Outcome<bool>)
    requires UpRanked(g, rank)
    ensures owners == [] ==> r == Returned(true)
    ensures (exists y :: y in owners && y !in g) && persona.Some? ==> r == Returned(false)
  {
    if owners == [] then Returned(true)
    else
      var o := owners[0];
      assert forall y :: y in owners ==> y == o || y in owners[1..];
      if o !in g || g[o].members.None? then Returned(false)
      else
        var direct :- MemberMatch(persona, g[o].members.value);
        var up :- if g[o].owners.None? then Returned(false) else RecurseMatch(g, rank, persona, g[o].owners.value);
        if !(direct || up) then Returned(false) else AllMatch(g, rank, persona, owners[1..])
  }

  /** On a closed store without cycles, isMemberAll is "every listed group". */
  lemma {:induction false} AllMatchIff(g: Store, rank: map<Invid, nat>, persona: Option<Invid>, owners: seq<Invid>)
    requires Closed(g) && UpRanked(g, rank) && persona.Some?
    requires forall y :: y in owners ==> y in g
    ensures AllMatch(g, rank, persona, owners) ==
      Returned(forall y :: y in owners ==> ReachesMember(g, persona, y))
  {
    if owners != [] {
      var o := owners[0];
      assert forall y :: y in owners <==> y == o || y in owners[1..];
      AllMatchIff(g, rank, persona, owners[1..]);
      ReachesUnfold(g, persona, o);
      if g[o].owners.Some? {
        RecurseMatchIff(g, rank, persona, g[o].owners.value);
      }
    }
  }

  // ---------------------------------------------------------------- mail

  /** The user part of a login name: everything before the first ':' of a persona name. */
  function UserPart(username: string): (p: string)
    ensures ':' !in p && |p| <= |username| && p == username[..|p|]
    ensures |p| < |username| ==> username[|p|] == ':'
    ensures ':' !in username ==> p == username
  {
    var i := FirstIndex(username, ':');
    if i == -1 then username else username[..i]
  }

  /**
   * The return address of mail the session sends: the configured address
   * for the root user, otherwise the user part of the login name followed
   * by the default mail suffix when one is set.
   */
  function ReturnAddress(username: string, rootname: string, returnaddr: Option<string>, mailsuffix: Option<string>)
    : (r: Option<string>)
    ensures username == rootname ==> r == returnaddr
    ensures username != rootname ==>
      r == Some(UserPart(username) + (if mailsuffix.Some? then mailsuffix.value else ""))
  {
    if username == rootname then returnaddr
    else
      var addr := UserPart(username);
      assert addr + "" == addr;
      Some(if mailsuffix.Some? then addr + mailsuffix.value else addr)
  }

  // ---------------------------------------------------------------- the session

  /** A wizard: an object identified by reference that may be running. */
  class Wizard {
    var active: bool

    constructor(active: bool)
      ensures this.active == active
    {
      this.active := active;
    }
  }

  class GanymedeSession {
    const loggedIn: bool
    const supergashMode: bool
    const personaInvid: Option<Invid>
    /** Whether the session holds a DBSession whose last error it can pass on. */
    const hasSession: bool
    var ownerList: Option<seq<Invid>>
    var lastError: Option<string>
    var sessionLastError: Option<string>
    var visibilityFilterInvids: Option<seq<Invid>>
    var wizard: Wizard?

    constructor(loggedIn: bool, supergashMode: bool, personaInvid: Option<Invid>, hasSession: bool)
      ensures this.loggedIn == loggedIn && this.supergashMode == supergashMode
      ensures this.personaInvid == personaInvid && this.hasSession == hasSession
      ensures ownerList.None? && lastError.None? && sessionLastError.None?
      ensures visibilityFilterInvids.None? && wizard == null
    {
      this.loggedIn := loggedIn;
      this.supergashMode := supergashMode;
      this.personaInvid := personaInvid;
      this.hasSession := hasSession;
      ownerList := None;
      lastError := None;
      sessionLastError := None;
      visibilityFilterInvids := None;
      wizard := null;
    }

    /**
     * getLastError: the session's own error text, which is then cleared;
     * failing that the DBSession's, which is then cleared.
     */
    method GetLastError() returns (r: Option<string>)
      modifies this
      ensures old(lastError).Some? ==>
        r == old(lastError) && lastError.None? && sessionLastError == old(sessionLastError)
      ensures old(lastError).None? && hasSession ==> r == old(sessionLastError) && sessionLastError.None?
      ensures old(lastError).None? && !hasSession ==> r.None? && sessionLastError == old(sessionLastError)
      ensures lastError.None?
      ensures ownerList == old(ownerList) && visibilityFilterInvids == old(visibilityFilterInvids)
      ensures wizard == old(wizard)
    {
      r := None;
      if lastError.Some? {
        r := lastError;
        lastError := None;
      } else if hasSession {
        r := sessionLastError;
        sessionLastError := None;
      }
    }

    /**
     * getOwnerGroups: the cached list when there is one; nothing for an end
     * user or for a persona without a group field; every owner group in
     * supergash mode; otherwise the groups below the persona's groups.  A
     * computed list is cached.
     */
    method GetOwnerGroups(g: Store, allGroups: seq<Invid>, personaGroups: Option<seq<Invid>>)
      returns (r: Outcome<seq<Invid>>)
      modifies this
      ensures lastError == old(lastError) && sessionLastError == old(sessionLastError)
      ensures visibilityFilterInvids == old(visibilityFilterInvids) && wizard == old(wizard)
      ensures !loggedIn ==> r == Threw(IllegalArgument) && ownerList == old(ownerList)
      ensures loggedIn && old(ownerList).Some? ==> r == Returned(old(ownerList).value) && ownerList == old(ownerList)
      ensures loggedIn && old(ownerList).None? && personaInvid.None? ==> r == Returned([]) && ownerList.None?
      ensures loggedIn && old(ownerList).None? && personaInvid.Some? && supergashMode ==>
        r == Returned(allGroups) && ownerList == Some(allGroups)
      ensures loggedIn && old(ownerList).None? && personaInvid.Some? && !supergashMode && personaGroups.None? ==>
        r == Returned([]) && ownerList.None?
      ensures loggedIn && old(ownerList).None? && personaInvid.Some? && !supergashMode && personaGroups.Some? ==>
        (r.Returned? ==>
           ownerList == Some(r.value) && Distinct(r.value) &&
           forall y :: y in r.value <==> Below(g, personaGroups.value, y)) &&
        (r.Threw? ==> r.exc == NullPointer && ownerList.None?)
    {
      if !loggedIn {
        return Threw(IllegalArgument);
      }
      if ownerList.Some? {
        return Returned(ownerList.value);
      }
      if personaInvid.None? {
        return Returned([]);
      }
      if supergashMode {
        ownerList := Some(allGroups);
        return Returned(allGroups);
      }
      if personaGroups.None? {
        return Returned([]);
      }
      r := GroupsBelow(g, personaGroups.value);
      if r.Returned? {
        ownerList := Some(r.value);
      }
    }

    /**
     * personaMatch: no persona, no object or no owner list means no match;
     * otherwise recursePersonaMatch on the object's owner list.
     */
    function PersonaMatch(g: Store, rank: map<Invid, nat>, obj: Option<DBObj>): (r: Outcome<bool>)
      requires UpRanked(g, rank)
      ensures obj.None? || personaInvid.None? || obj.value.owners.None? ==> r == Returned(false)
      ensures r.Returned?
    {
      if obj.None? || personaInvid.None? || obj.value.owners.None? then Returned(false)
      else RecurseMatch(g, rank, personaInvid, obj.value.owners.value)
    }

    /** isMemberAll: false for null; otherwise the search over every group of the list. */
    method IsMemberAll(g: Store, rank: map<Invid, nat>, owners: Option<seq<Invid>>) returns (r: Outcome<bool>)
      requires UpRanked(g, rank)
      ensures owners.None? ==> r == Returned(false)
      ensures owners.Some? ==> r == AllMatch(g, rank, personaInvid, owners.value)
    {
      if owners.None? {
        return Returned(false);
      }
      var list := owners.value;
      var i := 0;
      while i < |list|
        invariant 0 <= i <= |list|
        invariant AllMatch(g, rank, personaInvid, list) == AllMatch(g, rank, personaInvid, list[i..])
      {
        var o := list[i];
        assert list[i..][0] == o && list[i..][1..] == list[i + 1..];
        if o !in g || g[o].members.None? {
          return Returned(false);
        }
        var found := MemberMatch(personaInvid, g[o].members.value);
        if found.Threw? {
          return found;
        }
        if g[o].owners.Some? {
          var up := RecurseMatch(g, rank, personaInvid, g[o].owners.value);
          if up.Threw? {
            return up;
          }
          if up.value {
            found := Returned(true);
          }
        }
        if !found.value {
          return Returned(false);
        }
        i := i + 1;
      }
      r := Returned(true);
    }

    /**
     * filterMatch: a null object never matches; everything matches while no
     * filter is set; an object without an owner list does not; otherwise
     * some filter group must be one of its owners.  An empty filter lets
     * nothing through.
     */
    function FilterMatch(obj: Option<DBObj>): (r: bool)
      reads this
      ensures r <==>
        obj.Some? &&
        (visibilityFilterInvids.None? ||
         (obj.value.owners.Some? &&
          exists x :: x in visibilityFilterInvids.value && x in obj.value.owners.value))
    {
      if obj.None? then false
      else if visibilityFilterInvids.None? then true
      else if obj.value.owners.None? then false
      else exists x :: x in visibilityFilterInvids.value && x in obj.value.owners.value
    }

    /**
     * getPerm(object, fieldId): null for a null object; everything in
     * supergash mode; the hook's override when it gives one; otherwise the
     * field permission within the object permission, or the object
     * permission when the field has none.  The combination of hook
     * expansions with the session's permission matrices that yields the
     * object and field permissions is an input here.
     */
    function GetPerm(obj: Option<DBObj>, fieldOverride: Option<PermEntry>, objPerm: Option<PermEntry>,
                     fieldPerm: Option<PermEntry>): (r: Option<PermEntry>)
      ensures obj.None? <==> r.None?
      ensures obj.Some? && supergashMode ==> r == Some(FullPerms)
      ensures obj.Some? && !supergashMode && fieldOverride.Some? ==> r == fieldOverride
      ensures obj.Some? && !supergashMode && fieldOverride.None? && objPerm.None? ==> r == Some(NoPerms)
      ensures obj.Some? && !supergashMode && fieldOverride.None? && objPerm.Some? ==>
        if fieldPerm.None? then r == objPerm
        else Within(r.value, objPerm.value) && Within(r.value, fieldPerm.value) &&
             forall c :: Within(c, objPerm.value) && Within(c, fieldPerm.value) ==> Within(c, r.value)
    {
      if obj.None? then None
      else if supergashMode then Some(FullPerms)
      else if fieldOverride.Some? then fieldOverride
      else if objPerm.None? then Some(NoPerms)
      else if fieldPerm.None? then objPerm
      else Some(Intersection(fieldPerm.value, objPerm.value))
    }

    /**
     * registerWizard as written: the test reads the wizard passed in, which
     * shadows the session's field, so an active wizard already registered
     * is replaced and a wizard that is itself active is refused.
     */
    method RegisterWizard(w: Wizard?) returns (ok: bool)
      modifies this
      ensures ok <==> !(w != null && w.active)
      ensures ok ==> wizard == w
      ensures !ok ==> wizard == old(wizard)
      ensures ownerList == old(ownerList) && lastError == old(lastError)
      ensures sessionLastError == old(sessionLastError) && visibilityFilterInvids == old(visibilityFilterInvids)
    {
      if w != null && w.active {
        return false;
      }
      wizard := w;
      ok := true;
    }

    /**
     * registerWizard as its documentation describes it: refused while the
     * wizard already registered is active, so a running wizard is never
     * displaced.
     */
    method RegisterWizardCorrected(w: Wizard?) returns (ok: bool)
      modifies this
      ensures ok <==> !(old(wizard) != null && old(wizard).active)
      ensures ok ==> wizard == w
      ensures !ok ==> wizard == old(wizard)
      ensures old(wizard) != null && old(wizard).active ==> wizard == old(wizard)
      ensures ownerList == old(ownerList) && lastError == old(lastError)
      ensures sessionLastError == old(sessionLastError) && visibilityFilterInvids == old(visibilityFilterInvids)
    {
      if wizard != null && wizard.active {
        return false;
      }
      wizard := w;
      ok := true;
    }

    /** unregisterWizard: only the wizard registered can be removed; any other is an IllegalArgumentException. */
    method UnregisterWizard(w: Wizard?) returns (r: Outcome<Reply>)
      modifies this
      ensures old(wizard) == w ==> r == Returned(Done) && wizard == null
      ensures old(wizard) != w ==> r == Threw(IllegalArgument) && wizard == old(wizard)
      ensures ownerList == old(ownerList) && lastError == old(lastError)
      ensures sessionLastError == old(sessionLastError) && visibilityFilterInvids == old(visibilityFilterInvids)
    {
      if wizard == w {
        wizard := null;
        return Returned(Done);
      }
      r := Threw(IllegalArgument);
    }
  }

  /** registerWizard as written lets a second wizard displace a running one. */
  method ActiveWizardDisplaced() returns (running: Wizard, second: Wizard, ok: bool, s: GanymedeSession)
    ensures running.active && running != second && ok && s.wizard == second
  {
    s := new GanymedeSession(true, false, None, false);
    running := new Wizard(true);
    second := new Wizard(false);
    s.wizard := running;
    ok := s.RegisterWizard(second);
  }
}
