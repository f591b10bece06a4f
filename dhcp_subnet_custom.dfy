// The customization of DHCP subnet objects in the gasharl schema
// (dhcpSubnetCustom): the required and visible fields, which fields a clone
// copies, how clearing the registered-guests checkbox clears the guest
// fields under a checkpoint, and how a clone copies the embedded option
// objects.  The field operations it calls (setValueLocal,
// deleteAllElements, createNewEmbedded, cloneFromObject) are not part of
// this model; their answers are passed in.
module DhcpSubnet {
  import opened Wrappers
  import opened Invids

  /** dhcpSubnetSchema's fields; any other field id is Other. */
  datatype SubnetField =
    | Name | NetworkNumber | NetworkMask | Options
    | AllowRegisteredGuests | GuestRange | GuestOptions
    | Other(id: int)

  /** fieldRequired: name, network number and mask always; the guest range iff guests are allowed. */
  function FieldRequired(allowGuests: bool, f: SubnetField): (r: bool)
    ensures f == Name || f == NetworkNumber || f == NetworkMask ==> r
    ensures f == GuestRange ==> (r <==> allowGuests)
    ensures r ==> f == Name || f == NetworkNumber || f == NetworkMask || f == GuestRange
  {
    f == Name || f == NetworkNumber || f == NetworkMask || (f == GuestRange && allowGuests)
  }

  /** canSeeField: the guest fields show iff guests are allowed; others as the default hook says. */
  function CanSeeField(allowGuests: bool, f: SubnetField, byDefault: bool): (r: bool)
    ensures f == GuestRange || f == GuestOptions ==> r == allowGuests
    ensures f != GuestRange && f != GuestOptions ==> r == byDefault
  {
    if f == GuestRange || f == GuestOptions then allowGuests else byDefault
  }

  /** canCloneField: the network number is never cloned; others as the default hook says. */
  function CanCloneField(f: SubnetField, byDefault: bool): (r: bool)
    ensures f == NetworkNumber ==> !r
    ensures f != NetworkNumber ==> r == byDefault
  {
    f != NetworkNumber && byDefault
  }

  /** The parts of a ReturnVal used here: success, the fields to rescan, and a dialog text. */
  datatype ReturnVal = ReturnVal(success: bool, rescan: set<SubnetField>, dialog: Option<string>)

  /** ReturnVal.didSucceed: null counts as success. */
  predicate DidSucceed(r: Option<ReturnVal>) {
    r.None? || r.value.success
  }

  /**
   * ReturnVal.merge: null is the neutral element; otherwise the merge
   * succeeds iff both do and carries both rescan requests.
   */
  function Merge(a: Option<ReturnVal>, b: Option<ReturnVal>): (r: Option<ReturnVal>)
    ensures DidSucceed(r) <==> DidSucceed(a) && DidSucceed(b)
    ensures a.None? ==> r == b
    ensures b.None? ==> r == a
    ensures a.Some? && b.Some? ==> r.Some? && r.value.rescan == a.value.rescan + b.value.rescan
  {
    if a.None? then b
    else if b.None? then a
    else Some(ReturnVal(a.value.success && b.value.success, a.value.rescan + b.value.rescan,
                        if a.value.dialog.Some? then a.value.dialog else b.value.dialog))
  }

  /**
   * What one option object of the original gives while a clone copies it:
   * the new embedded object (None when createNewEmbedded fails) with the
   * dialog text of that failure, and whether cloning into it succeeded
   * with the dialog text of a failure.
   */
  datatype CopyStep = CopyStep(made: Option<Invid>, createDialog: Option<string>, cloneOk: bool, cloneDialog: Option<string>)

  /** A step reports a problem: its creation or its clone failed with a dialog. */
  predicate Reports(s: CopyStep) {
    (s.made.None? && s.createDialog.Some?) || (s.made.Some? && !s.cloneOk && s.cloneDialog.Some?)
  }

  /** The problem text one step adds to the buffer. */
  function StepProblem(s: CopyStep): (t: string)
    ensures t != [] ==> s.made.None? || !s.cloneOk
  {
    if s.made.None? then (if s.createDialog.Some? then "\n\n" + s.createDialog.value else "")
    else if !s.cloneOk && s.cloneDialog.Some? then "\n\n" + s.cloneDialog.value
    else ""
  }

  /** The problem text of a whole copy. */
  function Problems(steps: seq<CopyStep>): string {
    if steps == [] then ""
    else Problems(steps[..|steps| - 1]) + StepProblem(steps[|steps| - 1])
  }

  /** The embedded objects a copy creates, in order. */
  function Created(steps: seq<CopyStep>): seq<Invid> {
    if steps == [] then []
    else
      var last := steps[|steps| - 1];
      Created(steps[..|steps| - 1]) + (if last.made.Some? then [last.made.value] else [])
  }

  /** A step adds problem text exactly when it reports a problem. */
  lemma StepProblemReports(s: CopyStep)
    ensures StepProblem(s) != [] <==> Reports(s)
  {
    if s.made.None? && s.createDialog.Some? {
      assert |StepProblem(s)| >= 2;
    } else if s.made.Some? && !s.cloneOk && s.cloneDialog.Some? {
      assert |StepProblem(s)| >= 2;
    }
  }

  /** The problem text is empty exactly when no step reports a problem. */
  lemma {:induction false} ProblemsEmptyIff(steps: seq<CopyStep>)
    ensures Problems(steps) == [] <==> forall i :: 0 <= i < |steps| ==> !Reports(steps[i])
  {
    if steps != [] {
      var init := steps[..|steps| - 1];
      ProblemsEmptyIff(init);
      var last := StepProblem(steps[|steps| - 1]);
      StepProblemReports(steps[|steps| - 1]);
      assert Problems(steps) == [] <==> Problems(init) == [] && last == [] by {
        assert |Problems(steps)| == |Problems(init)| + |last|;
      }
      if forall i :: 0 <= i < |steps| ==> !Reports(steps[i]) {
        forall i | 0 <= i < |init| ensures !Reports(init[i]) {
          assert init[i] == steps[i];
        }
      } else {
        var k :| 0 <= k < |steps| && Reports(steps[k]);
        if k < |init| {
          assert init[k] == steps[k];
        }
      }
    }
  }

  /** Every object a copy creates was made by one of its steps, and there are no more of them than steps. */
  lemma {:induction false} CreatedFromSteps(steps: seq<CopyStep>)
    ensures |Created(steps)| <= |steps|
    ensures forall x :: x in Created(steps) ==> exists i :: 0 <= i < |steps| && steps[i].made == Some(x)
  {
    if steps != [] {
      var init := steps[..|steps| - 1];
      CreatedFromSteps(init);
      assert forall i :: 0 <= i < |init| ==> init[i] == steps[i];
    }
  }

  /** One more step of a copy adds its problem text and its object. */
  lemma PrefixStep(steps: seq<CopyStep>, i: nat)
    requires i < |steps|
    ensures Problems(steps[..i + 1]) == Problems(steps[..i]) + StepProblem(steps[i])
    ensures Created(steps[..i + 1]) ==
      Created(steps[..i]) + (if steps[i].made.Some? then [steps[i].made.value] else [])
  {
    assert steps[..i + 1][..i] == steps[..i];
  }

  /** A copy in which every creation and every clone succeeds reports no problem and creates one object per original. */
  lemma {:induction false} CleanCopy(steps: seq<CopyStep>)
    requires forall i :: 0 <= i < |steps| ==> steps[i].made.Some? && steps[i].cloneOk
    ensures Problems(steps) == [] && |Created(steps)| == |steps|
  {
    if steps != [] {
      CleanCopy(steps[..|steps| - 1]);
    }
  }

  /** A DHCP subnet object being edited: the guest checkbox, the guest fields and the embedded options. */
  class SubnetObject {
    var allowGuests: bool
    var guestRange: Option<string>
    var guestOptions: seq<Invid>
    var options: seq<Invid>

    constructor(allowGuests: bool, guestRange: Option<string>, guestOptions: seq<Invid>, options: seq<Invid>)
      ensures this.allowGuests == allowGuests && this.guestRange == guestRange
      ensures this.guestOptions == guestOptions && this.options == options
    {
      this.allowGuests := allowGuests;
      this.guestRange := guestRange;
      this.guestOptions := guestOptions;
      this.options := options;
    }

    /**
     * finalizeSetValue as written.  Setting the guest checkbox to false or
     * null clears the guest range and deletes every guest option under a
     * checkpoint: when the merged result fails, the checkpoint is rolled
     * back.  Either way both guest fields are rescanned.  rangeCleared is
     * whether setValueLocal(null) succeeded; optionsDeleted whether
     * deleteAllElements did, None for a GanyPermissionsException, which
     * returns an error at once.  The rollback test in the finally block then
     * reads the result from before the exception, so a cleared range stays
     * cleared although the change is refused.  Other fields are approved
     * with no feedback.
     */
    method FinalizeSetValue(f: SubnetField, value: Option<bool>, rangeCleared: bool, optionsDeleted: Option<bool>)
      returns (r: Option<ReturnVal>)
      modifies this
      ensures allowGuests == old(allowGuests) && options == old(options)
      ensures f != AllowRegisteredGuests ==>
        r.None? && guestRange == old(guestRange) && guestOptions == old(guestOptions)
      ensures f == AllowRegisteredGuests && value.Some? && value.value ==>
        r == Some(ReturnVal(true, {GuestRange, GuestOptions}, None)) &&
        guestRange == old(guestRange) && guestOptions == old(guestOptions)
      ensures f == AllowRegisteredGuests && (value.None? || !value.value) && optionsDeleted.Some? ==>
        r.Some? && r.value.rescan == {GuestRange, GuestOptions} &&
        (r.value.success <==> rangeCleared && optionsDeleted.value) &&
        (r.value.success ==> guestRange.None? && guestOptions == []) &&
        (!r.value.success ==> guestRange == old(guestRange) && guestOptions == old(guestOptions))
      ensures f == AllowRegisteredGuests && (value.None? || !value.value) && optionsDeleted.None? ==>
        r.Some? && !r.value.success && guestOptions == old(guestOptions) &&
        guestRange == (if rangeCleared then None else old(guestRange))
    {
      if f != AllowRegisteredGuests {
        return None;
      }
      var success := true;
      if value.None? || !value.value {
        var savedRange, savedOptions := guestRange, guestOptions;
        if rangeCleared {
          guestRange := None;
        }
        if optionsDeleted.None? {
          if !rangeCleared {
            guestRange, guestOptions := savedRange, savedOptions;
          }
          return Some(ReturnVal(false, {}, Some("permissions")));
        }
        if optionsDeleted.value {
          guestOptions := [];
        }
        success := rangeCleared && optionsDeleted.value;
        if !success {
          guestRange, guestOptions := savedRange, savedOptions;
        }
      }
      r := Some(ReturnVal(success, {GuestRange, GuestOptions}, None));
    }

    /**
     * finalizeSetValue with the rollback it evidently intends: any refused
     * change, including a permissions failure while deleting the guest
     * options, leaves both guest fields as they were.
     */
    method FinalizeSetValueCorrected(f: SubnetField, value: Option<bool>, rangeCleared: bool, optionsDeleted: Option<bool>)
      returns (r: Option<ReturnVal>)
      modifies this
      ensures allowGuests == old(allowGuests) && options == old(options)
      ensures !DidSucceed(r) ==> guestRange == old(guestRange) && guestOptions == old(guestOptions)
      ensures f != AllowRegisteredGuests ==>
        r.None? && guestRange == old(guestRange) && guestOptions == old(guestOptions)
      ensures f == AllowRegisteredGuests && value.Some? && value.value ==>
        r == Some(ReturnVal(true, {GuestRange, GuestOptions}, None)) &&
        guestRange == old(guestRange) && guestOptions == old(guestOptions)
      ensures f == AllowRegisteredGuests && (value.None? || !value.value) ==>
        r.Some? &&
        (r.value.success <==> rangeCleared && optionsDeleted == Some(true)) &&
        (r.value.success ==> guestRange.None? && guestOptions == [])
    {
      if f != AllowRegisteredGuests {
        return None;
      }
      var success := true;
      if value.None? || !value.value {
        var savedRange, savedOptions := guestRange, guestOptions;
        if rangeCleared {
          guestRange := None;
        }
        if optionsDeleted.None? {
          guestRange, guestOptions := savedRange, savedOptions;
          return Some(ReturnVal(false, {}, Some("permissions")));
        }
        if optionsDeleted.value {
          guestOptions := [];
        }
        success := rangeCleared && optionsDeleted.value;
        if !success {
          guestRange, guestOptions := savedRange, savedOptions;
        }
      }
      r := Some(ReturnVal(success, {GuestRange, GuestOptions}, None));
    }

    /**
     * The loop of copyObjects: each option object of the original yields a
     * new embedded object, which is appended to the options field and
     * cloned; failures add their dialog text to the problem buffer.
     */
    method CopyOptions(steps: seq<CopyStep>) returns (buf: string)
      modifies this
      ensures buf == Problems(steps)
      ensures options == old(options) + Created(steps)
      ensures allowGuests == old(allowGuests) && guestRange == old(guestRange) && guestOptions == old(guestOptions)
    {
      buf := "";
      var i := 0;
      while i < |steps|
        invariant 0 <= i <= |steps|
        invariant buf == Problems(steps[..i])
        invariant options == old(options) + Created(steps[..i])
        invariant allowGuests == old(allowGuests) && guestRange == old(guestRange) && guestOptions == old(guestOptions)
      {
        var s := steps[i];
        PrefixStep(steps, i);
        var text := "";
        if s.made.None? {
          if s.createDialog.Some? {
            text := "\n\n" + s.createDialog.value;
          }
        } else {
          assert old(options) + Created(steps[..i + 1]) == options + [s.made.value];
          options := options + [s.made.value];
          if !s.cloneOk && s.cloneDialog.Some? {
            text := "\n\n" + s.cloneDialog.value;
          }
        }
        assert text == StepProblem(s);
        buf := buf + text;
        assert buf == Problems(steps[..i + 1]);
        i := i + 1;
      }
      assert steps[..|steps|] == steps;
    }

    /**
     * copyObjects as written: nothing to do when the original has no
     * options; otherwise the options are copied, and although a dialog is
     * built from a non-empty problem buffer, null is returned in every case.
     */
    method CopyObjects(origDefined: bool, steps: seq<CopyStep>) returns (r: Option<ReturnVal>)
      modifies this
      ensures r.None?
      ensures options == (if origDefined then old(options) + Created(steps) else old(options))
      ensures allowGuests == old(allowGuests) && guestRange == old(guestRange) && guestOptions == old(guestOptions)
    {
      if !origDefined {
        return None;
      }
      var buf := CopyOptions(steps);
      if buf != [] {
        var lost := Some(ReturnVal(true, {}, Some(buf)));
      }
      r := None;
    }

    /** copyObjects as intended: a non-empty problem buffer comes back as a successful result carrying the dialog. */
    method CopyObjectsCorrected(origDefined: bool, steps: seq<CopyStep>) returns (r: Option<ReturnVal>)
      modifies this
      ensures r == (if origDefined && Problems(steps) != [] then Some(ReturnVal(true, {}, Some(Problems(steps)))) else None)
      ensures DidSucceed(r)
      ensures options == (if origDefined then old(options) + Created(steps) else old(options))
      ensures allowGuests == old(allowGuests) && guestRange == old(guestRange) && guestOptions == old(guestOptions)
    {
      if !origDefined {
        return None;
      }
      var buf := CopyOptions(steps);
      if buf != [] {
        return Some(ReturnVal(true, {}, Some(buf)));
      }
      r := None;
    }

    /**
     * cloneFromObject: a failure of the default cloning is returned as it
     * is; otherwise the option objects are copied and the two results
     * merged.  Since copyObjects returns null, the merge always gives back
     * the default cloning's result, and the copy's problems are lost.
     */
    method CloneFromObject(superResult: Option<ReturnVal>, origDefined: bool, steps: seq<CopyStep>)
      returns (r: Option<ReturnVal>)
      modifies this
      ensures r == superResult
      ensures !DidSucceed(superResult) ==> options == old(options)
      ensures DidSucceed(superResult) ==>
        options == (if origDefined then old(options) + Created(steps) else old(options))
      ensures allowGuests == old(allowGuests) && guestRange == old(guestRange) && guestOptions == old(guestOptions)
    {
      if !DidSucceed(superResult) {
        return superResult;
      }
      var copied := CopyObjects(origDefined, steps);
      r := Merge(superResult, copied);
    }

    /**
     * cloneFromObject as intended: merging with CopyObjectsCorrected, so a
     * copy's problems reach the caller as a dialog.
     */
    method CloneFromObjectCorrected(superResult: Option<ReturnVal>, origDefined: bool, steps: seq<CopyStep>)
      returns (r: Option<ReturnVal>)
      modifies this
      ensures !DidSucceed(superResult) ==> r == superResult && options == old(options)
      ensures DidSucceed(superResult) ==>
        DidSucceed(r) &&
        options == (if origDefined then old(options) + Created(steps) else old(options)) &&
        (origDefined && Problems(steps) != [] ==> r.Some? && (superResult.None? ==> r.value.dialog == Some(Problems(steps))))
      ensures allowGuests == old(allowGuests) && guestRange == old(guestRange) && guestOptions == old(guestOptions)
    {
      if !DidSucceed(superResult) {
        return superResult;
      }
      var copied := CopyObjectsCorrected(origDefined, steps);
      r := Merge(superResult, copied);
    }
  }

  /** As written, a copy whose embedded-object creation fails with a message loses that message. */
  method CloneProblemsLost() returns (s: SubnetObject, r: Option<ReturnVal>, fixed: Option<ReturnVal>)
    ensures r.None? && fixed == Some(ReturnVal(true, {}, Some("\n\nno room")))
  {
    s := new SubnetObject(false, None, [], []);
    var steps := [CopyStep(None, Some("no room"), false, None)];
    assert steps[..0] == [];
    assert Problems(steps) == "\n\nno room";
    r := s.CopyObjects(true, steps);
    fixed := s.CopyObjectsCorrected(true, steps);
  }

  /** As written, a permissions failure deleting the guest options refuses the change yet keeps the cleared range. */
  method RangeClearedOnRefusal() returns (s: SubnetObject, r: Option<ReturnVal>)
    ensures r.Some? && !r.value.success && s.allowGuests && s.guestRange.None?
  {
    s := new SubnetObject(true, Some("10.0.0.10-10.0.0.20"), [], []);
    r := s.FinalizeSetValue(AllowRegisteredGuests, Some(false), true, None);
  }
}
