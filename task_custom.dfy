// The customization of the server's task objects (taskCustom): which fields
// a task must have, how its two run-mode checkboxes exclude each other,
// which fields are shown, and what the scheduler is told when a task
// commits.  The scheduler and the generic DBEditObject behaviour the hooks
// defer to are not part of this model; what they would answer is passed in.
module TaskCustom {
  import opened Wrappers
  import opened Invids
  import DBSessions

  /** The task object's fields; any other field id is Other. */
  datatype TaskField =
    | TaskName | TaskClass | TaskRunOnCommit | TaskRunPeriodically
    | TaskPeriodUnit | TaskPeriodCount | TaskPeriodAnchor
    | Other(id: int)

  /** GanymedeScheduler's unit strings, in the order of the choice list. */
  datatype PeriodUnit = Minutes | Hours | Days | Weeks

  /** The static choice list offered for TaskPeriodUnit. */
  const UnitChoices: seq<PeriodUnit> := [Minutes, Hours, Days, Weeks]

  /** The unit list holds every unit, each once. */
  lemma UnitChoicesComplete()
    ensures |UnitChoices| == 4
    ensures forall u: PeriodUnit :: u in UnitChoices
    ensures forall i, j :: 0 <= i < j < |UnitChoices| ==> UnitChoices[i] != UnitChoices[j]
  {
    forall u: PeriodUnit
      ensures u in UnitChoices
    {
      match u
      case Minutes => assert UnitChoices[0] == u;
      case Hours => assert UnitChoices[1] == u;
      case Days => assert UnitChoices[2] == u;
      case Weeks => assert UnitChoices[3] == u;
    }
  }

  /** fieldRequired: name and class always, the period unit when the task runs periodically, nothing else. */
  function FieldRequired(runPeriodically: bool, f: TaskField): (r: bool)
    ensures f == TaskName || f == TaskClass ==> r
    ensures f == TaskPeriodUnit ==> (r <==> runPeriodically)
    ensures r ==> f == TaskName || f == TaskClass || f == TaskPeriodUnit
  {
    f == TaskName || f == TaskClass || (f == TaskPeriodUnit && runPeriodically)
  }

  /** A field that shows only while the task runs periodically. */
  predicate PeriodField(f: TaskField) {
    f == TaskPeriodUnit || f == TaskPeriodCount || f == TaskPeriodAnchor
  }

  /** mustChoose: the period unit must come from the choice list; other fields as the default hook says. */
  function MustChoose(f: TaskField, byDefault: bool): (r: bool)
    ensures f == TaskPeriodUnit ==> r
    ensures f != TaskPeriodUnit ==> r == byDefault
  {
    f == TaskPeriodUnit || byDefault
  }

  /** obtainChoiceList: the four units for the period unit field, the default hook's list otherwise. */
  function ObtainChoiceList(f: TaskField, byDefault: Option<seq<PeriodUnit>>): (r: Option<seq<PeriodUnit>>)
    ensures f == TaskPeriodUnit ==> r == Some(UnitChoices)
    ensures f != TaskPeriodUnit ==> r == byDefault
  {
    if f == TaskPeriodUnit then Some(UnitChoices) else byDefault
  }

  /** isIntLimited: the period count is limited; other fields as the default hook says. */
  function IsIntLimited(f: TaskField, byDefault: bool): (r: bool)
    ensures f == TaskPeriodCount ==> r
    ensures f != TaskPeriodCount ==> r == byDefault
  {
    f == TaskPeriodCount || byDefault
  }

  /** minInt: the period count may not go below zero; other fields as the default hook says. */
  function MinInt(f: TaskField, byDefault: int): (r: int)
    ensures f == TaskPeriodCount ==> r == 0
    ensures f != TaskPeriodCount ==> r == byDefault
  {
    if f == TaskPeriodCount then 0 else byDefault
  }

  /** What finalizeSetValue answers: success, and a request to rescan every field of the object. */
  datatype ReturnVal = ReturnVal(success: bool, rescanAll: Option<Invid>)

  /**
   * canSeeField: a field from another base is an IllegalArgumentException;
   * on an object being edited the period fields show iff the task runs
   * periodically; otherwise the field definition's visibility decides.
   */
  function CanSeeField(sameBase: bool, ownerEditable: bool, runPeriodically: bool, f: TaskField,
                       defaultVisible: bool): (r: Outcome<bool>)
    ensures !sameBase <==> r == Threw(IllegalArgument)
    ensures sameBase && ownerEditable && PeriodField(f) ==> r == Returned(runPeriodically)
    ensures sameBase && !(ownerEditable && PeriodField(f)) ==> r == Returned(defaultVisible)
  {
    if !sameBase then Threw(IllegalArgument)
    else if ownerEditable && PeriodField(f) then Returned(runPeriodically)
    else Returned(defaultVisible)
  }

  /** What commitPhase2 asks of the scheduler. */
  datatype SchedulerCall = Unregister(name: Option<string>) | Register

  /**
   * commitPhase2: nothing for a dropped task; a deleted task is
   * unregistered under its original name; an edited task drops its old
   * record first when it was renamed, and is registered again either way;
   * a new task is registered.  An edited task without an original name is
   * a NullPointerException.
   */
  function CommitPhase2(status: DBSessions.Status, origName: Option<string>, taskName: Option<string>)
    : (r: Outcome<seq<SchedulerCall>>)
    ensures status == DBSessions.Dropping ==> r == Returned([])
    ensures status == DBSessions.Deleting ==> r == Returned([Unregister(origName)])
    ensures status == DBSessions.Creating ==> r == Returned([Register])
    ensures status == DBSessions.Editing ==>
      (origName.None? <==> r == Threw(NullPointer)) &&
      (origName.Some? ==>
         r.Returned? && |r.value| >= 1 && r.value[|r.value| - 1] == Register &&
         (Some(origName.value) == taskName <==> r.value == [Register]) &&
         (Some(origName.value) != taskName <==> r.value == [Unregister(origName), Register]))
  {
    match status
    case Dropping => Returned([])
    case Deleting => Returned([Unregister(origName)])
    case Editing =>
      if origName.None? then Threw(NullPointer)
      else if Some(origName.value) != taskName then Returned([Unregister(origName), Register])
      else Returned([Register])
    case Creating => Returned([Register])
  }

  /** Every committed task that is not going away ends up registered with the scheduler, and no task is registered twice. */
  lemma CommitRegistersLiveTasks(status: DBSessions.Status, origName: Option<string>, taskName: Option<string>)
    requires status == DBSessions.Creating || (status == DBSessions.Editing && origName.Some?)
    ensures CommitPhase2(status, origName, taskName).Returned?
    ensures multiset(CommitPhase2(status, origName, taskName).value)[Register] == 1
  {
  }

  /** A task object being edited: the two run-mode checkboxes. */
  class TaskObject {
    const invid: Invid
    var runOnCommit: bool
    var runPeriodically: bool

    constructor(invid: Invid, runOnCommit: bool, runPeriodically: bool)
      ensures this.invid == invid && this.runOnCommit == runOnCommit && this.runPeriodically == runPeriodically
    {
      this.invid := invid;
      this.runOnCommit := runOnCommit;
      this.runPeriodically := runPeriodically;
    }

    /** At most one run mode is chosen. */
    predicate OneMode()
      reads this
    {
      !(runOnCommit && runPeriodically)
    }

    /**
     * finalizeSetValue: setting one checkbox to true clears the other;
     * a change to either asks for a rescan of the object; any other field
     * is approved with no feedback (null).  A null value for a checkbox is
     * a NullPointerException.
     */
    method FinalizeSetValue(f: TaskField, value: Option<bool>) returns (r: Outcome<Option<ReturnVal>>)
      modifies this
      ensures f != TaskRunOnCommit && f != TaskRunPeriodically ==>
        r == Returned(None) && runOnCommit == old(runOnCommit) && runPeriodically == old(runPeriodically)
      ensures (f == TaskRunOnCommit || f == TaskRunPeriodically) && value.None? ==>
        r == Threw(NullPointer) && runOnCommit == old(runOnCommit) && runPeriodically == old(runPeriodically)
      ensures f == TaskRunOnCommit && value.Some? ==>
        r == Returned(Some(ReturnVal(true, Some(invid)))) && runOnCommit == old(runOnCommit) &&
        runPeriodically == (old(runPeriodically) && !value.value)
      ensures f == TaskRunPeriodically && value.Some? ==>
        r == Returned(Some(ReturnVal(true, Some(invid)))) && runPeriodically == old(runPeriodically) &&
        runOnCommit == (old(runOnCommit) && !value.value)
    {
      if f == TaskRunOnCommit {
        if value.None? {
          return Threw(NullPointer);
        }
        if value.value {
          runPeriodically := false;
        }
        return Returned(Some(ReturnVal(true, Some(invid))));
      }
      if f == TaskRunPeriodically {
        if value.None? {
          return Threw(NullPointer);
        }
        if value.value {
          runOnCommit := false;
        }
        return Returned(Some(ReturnVal(true, Some(invid))));
      }
      r := Returned(None);
    }

    /**
     * A checkbox set the way a boolean field sets itself: the value is
     * stored once finalizeSetValue approves it.  The two modes then never
     * hold together.
     */
    method SetCheckbox(f: TaskField, value: bool) returns (r: Outcome<Option<ReturnVal>>)
      requires f == TaskRunOnCommit || f == TaskRunPeriodically
      requires OneMode()
      modifies this
      ensures OneMode()
      ensures f == TaskRunOnCommit ==> runOnCommit == value && (value ==> !runPeriodically)
      ensures f == TaskRunPeriodically ==> runPeriodically == value && (value ==> !runOnCommit)
      ensures r.Returned? && r.value.Some? && r.value.value.success
    {
      r := FinalizeSetValue(f, Some(value));
      if f == TaskRunOnCommit {
        runOnCommit := value;
      } else {
        runPeriodically := value;
      }
    }
  }
}
