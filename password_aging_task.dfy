// The password aging task (PasswordAgingTask.handlePasswords): every
// active user with a password-change time is classified by how far that
// time lies from now, and gets at most one of an upcoming-expiry warning,
// a real-soon warning, an overtime warning, or inactivation.  Times are
// milliseconds since the epoch, as java.util.Date holds them; a calendar
// day is taken as 86,400,000 ms.
module PasswordAging {
  import opened Wrappers
  import opened Invids

  const DayMillis: int := 86400000

  /** What the task does for one user. */
  datatype Action = WarnUpcoming | WarnRealSoon | WarnOvertime | Inactivate | Nothing

  /** Date.after(now + lo days) && Date.before(now + hi days): strictly inside the window. */
  predicate Within(now: int, t: int, lo: int, hi: int) {
    now + lo * DayMillis < t < now + hi * DayMillis
  }

  /** The windows in the order the loop body tests them, each ending in continue. */
  function Classify(now: int, t: int): (a: Action)
    ensures a == Inactivate <==> t < now - 3 * DayMillis
    ensures a != Nothing ==> t != now
  {
    if Within(now, t, 27, 28) then WarnUpcoming
    else if Within(now, t, 13, 14) then WarnUpcoming
    else if Within(now, t, 6, 7) then WarnUpcoming
    else if Within(now, t, 0, 1) then WarnRealSoon
    else if Within(now, t, -1, 0) then WarnOvertime
    else if Within(now, t, -2, -1) then WarnOvertime
    else if Within(now, t, -3, -2) then WarnOvertime
    else if t < now - 3 * DayMillis then Inactivate
    else Nothing
  }

  /** One warning window and the action it triggers. */
  datatype Window = Window(lo: int, hi: int, action: Action)

  /** The windows, listed independently of the order they are tested in. */
  const Windows: seq<Window> := [
    Window(-3, -2, WarnOvertime), Window(-2, -1, WarnOvertime), Window(-1, 0, WarnOvertime),
    Window(0, 1, WarnRealSoon),
    Window(6, 7, WarnUpcoming), Window(13, 14, WarnUpcoming), Window(27, 28, WarnUpcoming)]

  /** No time lies in two windows. */
  lemma WindowsDisjoint(now: int, t: int)
    ensures forall i, j :: 0 <= i < j < |Windows| && Within(now, t, Windows[i].lo, Windows[i].hi) ==>
      !Within(now, t, Windows[j].lo, Windows[j].hi)
  {
  }

  /**
   * The ordered tests agree with the independent description: a time in a
   * window gets that window's action, a time before the last grace day is
   * inactivated, and any other time (a boundary or a gap) gets nothing.
   */
  lemma ClassifyByWindows(now: int, t: int)
    ensures forall w :: w in Windows && Within(now, t, w.lo, w.hi) ==> Classify(now, t) == w.action
    ensures Classify(now, t) == Nothing <==>
      t >= now - 3 * DayMillis && forall w :: w in Windows ==> !Within(now, t, w.lo, w.hi)
  {
    assert forall w :: w in Windows <==>
      w == Windows[0] || w == Windows[1] || w == Windows[2] || w == Windows[3] ||
      w == Windows[4] || w == Windows[5] || w == Windows[6];
  }

  /** Each action's exact set of times. */
  lemma ClassifyIff(now: int, t: int)
    ensures Classify(now, t) == WarnUpcoming <==>
      Within(now, t, 6, 7) || Within(now, t, 13, 14) || Within(now, t, 27, 28)
    ensures Classify(now, t) == WarnRealSoon <==> Within(now, t, 0, 1)
    ensures Classify(now, t) == WarnOvertime <==>
      Within(now, t, -3, -2) || Within(now, t, -2, -1) || Within(now, t, -1, 0)
  {
  }

  /** Whole days away from now on the day boundaries get nothing, except those three days or more overdue. */
  lemma BoundariesGetNothing(now: int, k: int)
    requires -3 <= k
    ensures Classify(now, now + k * DayMillis) == Nothing
  {
  }

  /** A user as the query returns it: inactivated or not, and its PASSWORDCHANGETIME, if any. */
  datatype User = User(invid: Invid, inactivated: bool, passwordTime: Option<int>)

  /** A warning sent or an inactivation requested. */
  datatype Notice = Notice(invid: Invid, action: Action)

  /** What the task should do for one user: nothing for an inactivated user or one with no time. */
  function ActionFor(now: int, u: User): Action {
    if u.inactivated || u.passwordTime.None? then Nothing else Classify(now, u.passwordTime.value)
  }

  /** What the task does over the query's results, in their order. */
  function Plan(now: int, users: seq<User>): (p: seq<Notice>)
    ensures |p| <= |users|
  {
    if users == [] then []
    else
      var a := ActionFor(now, users[0]);
      (if a == Nothing then [] else [Notice(users[0].invid, a)]) + Plan(now, users[1..])
  }

  /** A notice goes out for a user iff some result is that user with an action due. */
  lemma {:induction false} PlanMembers(now: int, users: seq<User>)
    ensures forall n :: n in Plan(now, users) <==>
      exists u :: u in users && n == Notice(u.invid, ActionFor(now, u)) && ActionFor(now, u) != Nothing
  {
    if users != [] {
      PlanMembers(now, users[1..]);
      assert forall u :: u in users <==> u == users[0] || u in users[1..];
    }
  }

  /** Users with distinct Invids each receive at most one notice. */
  lemma {:induction false} PlanOncePerUser(now: int, users: seq<User>)
    requires forall i, j :: 0 <= i < j < |users| ==> users[i].invid != users[j].invid
    ensures forall i, j :: 0 <= i < j < |Plan(now, users)| ==> Plan(now, users)[i].invid != Plan(now, users)[j].invid
  {
    if users != [] {
      PlanOncePerUser(now, users[1..]);
      PlanMembers(now, users[1..]);
      var rest := Plan(now, users[1..]);
      forall n | n in rest
        ensures n.invid != users[0].invid
      {
        var u :| u in users[1..] && n == Notice(u.invid, ActionFor(now, u)) && ActionFor(now, u) != Nothing;
        var k :| 0 <= k < |users[1..]| && users[1..][k] == u;
        assert users[k + 1] == u;
      }
    }
  }

  /** Handling result i extends the notices by its notice, if any. */
  lemma PlanAdvance(now: int, users: seq<User>, i: int, notices: seq<Notice>)
    requires 0 <= i < |users| && notices + Plan(now, users[i..]) == Plan(now, users)
    ensures var a := ActionFor(now, users[i]);
      (if a == Nothing then notices else notices + [Notice(users[i].invid, a)]) + Plan(now, users[i + 1..]) ==
      Plan(now, users)
  {
    assert users[i..][0] == users[i] && users[i..][1..] == users[i + 1..];
    var a := ActionFor(now, users[i]);
    var rest := Plan(now, users[i + 1..]);
    if a != Nothing {
      assert (notices + [Notice(users[i].invid, a)]) + rest == notices + ([Notice(users[i].invid, a)] + rest);
    } else {
      assert [] + rest == rest;
    }
  }

  /**
   * handlePasswords: the enumeration over the users, with each warning or
   * inactivation recorded in order.
   */
  method HandlePasswords(now: int, users: seq<User>) returns (notices: seq<Notice>)
    ensures notices == Plan(now, users)
  {
    notices := [];
    var i := 0;
    while i < |users|
      invariant 0 <= i <= |users|
      invariant notices + Plan(now, users[i..]) == Plan(now, users)
    {
      var u := users[i];
      PlanAdvance(now, users, i, notices);
      if u.inactivated || u.passwordTime.None? {
        i := i + 1;
        continue;
      }
      var action := Classify(now, u.passwordTime.value);
      if action != Nothing {
        notices := notices + [Notice(u.invid, action)];
      }
      i := i + 1;
    }
    assert users[i..] == [];
    assert notices + [] == notices;
  }
}
