// A field of an object in the server's store (DBField): one value, or a
// vector of values kept free of duplicates, edited only through calls that
// consult the owning object's hooks and keep the field's namespace marks in
// step with the values.
module DBField {
  import opened Wrappers
  import opened Invids
  import opened Seqs

  /** A field value; Null stands for Java's null reference. */
  datatype Value = Null | Text(s: string) | Ref(invid: Invid) | Number(n: int)

  /** A field of an object, as named in a rescan request. */
  datatype FieldRef = FieldRef(object: Invid, field: int)

  /** Why this class refused an operation (the dialogs it builds itself). */
  datatype Reason =
    | DuplicateValue(v: Value)
    | DuplicateValues(vs: set<Value>)
    | Conflict(v: Value)
    | EmptyVector
    | SizeLimit
    | NullValue
    | NotPresent(vs: set<Value>)
    | NoneApproved(refused: seq<Dialog>)

  /**
   * A dialog carried back to the client: none, a refusal built here, text
   * from a hook, or the warning that lists the refusals a copy skipped.
   */
  datatype Dialog = NoDialog | Refusal(reason: Reason) | Message(text: string) | Warning(refused: seq<Dialog>)

  /**
   * A ReturnVal: whether the call succeeded, whether normal processing goes
   * on (the wizard's say), the fields the client must rescan, and a dialog.
   */
  datatype ReturnVal = ReturnVal(success: bool, normalProcessing: bool, rescan: set<FieldRef>, dialog: Dialog)

  function Refuse(reason: Reason): ReturnVal {
    ReturnVal(false, true, {}, Refusal(reason))
  }

  /** `r == null || r.didSucceed()`. */
  predicate Succeeded(r: Option<ReturnVal>) {
    r.None? || r.value.success
  }

  /** A wizard's answer that takes the operation over. */
  predicate TakesOver(r: Option<ReturnVal>) {
    r.Some? && !r.value.normalProcessing
  }

  /** ReturnVal.unionRescan: `a` with the rescan requests of `b` added. */
  function UnionRescan(a: ReturnVal, b: Option<ReturnVal>): ReturnVal {
    a.(rescan := a.rescan + (if b.Some? then b.value.rescan else {}))
  }

  /** The answer of a successful edit: the earlier answer, if any, merged with the hook's. */
  function Combine(earlier: Option<ReturnVal>, answer: Option<ReturnVal>): Option<ReturnVal> {
    if earlier.Some? then Some(UnionRescan(earlier.value, answer)) else answer
  }

  /**
   * The answers of the collaborators an edit consults: whether the field may
   * be edited (isEditable), whether a wizard is asked (oversight on, a
   * non-local call, wizards allowed), verifyNewValue, the wizard's and the
   * owner's finalize answers, and which values another field already holds
   * in the namespace.
   */
  datatype Hooks = Hooks(
    editable: bool,
    consultWizard: bool,
    verify: Value -> Option<ReturnVal>,
    wizard: Option<ReturnVal>,
    finalize: Option<ReturnVal>,
    heldElsewhere: Value -> bool)

  /** Whether the wizard takes this edit over. */
  predicate WizardStops(h: Hooks) {
    h.consultWizard && TakesOver(h.wizard)
  }

  /** The answer an edit carries into the finalize step: the wizard's when asked, else `verified`. */
  function Earlier(h: Hooks, verified: Option<ReturnVal>): Option<ReturnVal> {
    if h.consultWizard then h.wizard else verified
  }

  /** The namespace lets this field mark v: v is not null and no other field holds it. */
  predicate CanMark(v: Value, h: Hooks) {
    v != Null && !h.heldElsewhere(v)
  }

  // ---------------------------------------------------------------- bulk steps

  /** The values of s that verifyNewValue accepts, in order. */
  function Passing(s: seq<Value>, verify: Value -> Option<ReturnVal>): (r: seq<Value>)
    ensures |r| <= |s|
  {
    if s == [] then [] else Passing(s[..|s| - 1], verify) + (if Succeeded(verify(s[|s| - 1])) then [s[|s| - 1]] else [])
  }

  /** Passing keeps exactly the accepted values. */
  lemma {:induction false} PassingMembers(s: seq<Value>, verify: Value -> Option<ReturnVal>)
    ensures forall x :: x in Passing(s, verify) <==> x in s && Succeeded(verify(x))
  {
    if s != [] {
      var init, x := s[..|s| - 1], s[|s| - 1];
      assert s == init + [x];
      PassingMembers(init, verify);
    }
  }

  /** The dialogs of the values of s that verifyNewValue refuses, in order. */
  function RefusedDialogs(s: seq<Value>, verify: Value -> Option<ReturnVal>): seq<Dialog> {
    if s == [] then []
    else
      var answer := verify(s[|s| - 1]);
      RefusedDialogs(s[..|s| - 1], verify)
        + (if !Succeeded(answer) && answer.value.dialog != NoDialog then [answer.value.dialog] else [])
  }

  /** The values addElements goes on with: in copy mode those not already present. */
  function Candidates(submitted: seq<Value>, current: seq<Value>, copyFieldMode: bool): seq<Value> {
    if copyFieldMode then Minus(submitted, current) else submitted
  }

  /** The values both vectors hold (VectorUtils.intersection, as a set). */
  function Common(a: seq<Value>, b: seq<Value>): set<Value> {
    set x | x in a && x in b
  }

  /**
   * The verification pass of addElements: outside copy mode the first
   * refusal ends it; in copy mode refused values are dropped and their
   * dialogs collected.  `last` is the verdict on the last value looked at.
   */
  method Approve(candidates: seq<Value>, verify: Value -> Option<ReturnVal>, copyFieldMode: bool)
    returns (approved: seq<Value>, refusal: Option<ReturnVal>, refused: seq<Dialog>, last: Option<ReturnVal>)
    ensures refusal.Some? ==> !copyFieldMode && !Succeeded(refusal)
    ensures refusal.Some? ==> exists i :: (0 <= i < |candidates| && refusal == verify(candidates[i])
      && forall j :: 0 <= j < i ==> Succeeded(verify(candidates[j])))
    ensures refusal.None? ==> copyFieldMode || forall x :: x in candidates ==> Succeeded(verify(x))
    ensures refusal.None? ==> approved == Passing(candidates, verify) && refused == RefusedDialogs(candidates, verify)
    ensures refusal.None? ==> last == (if candidates == [] then None else verify(candidates[|candidates| - 1]))
  {
    approved, refusal, refused, last := [], None, [], None;
    var i := 0;
    while i < |candidates|
      invariant 0 <= i <= |candidates|
      invariant approved == Passing(candidates[..i], verify) && refused == RefusedDialogs(candidates[..i], verify)
      invariant last == (if i == 0 then None else verify(candidates[i - 1]))
      invariant !copyFieldMode ==> forall j :: 0 <= j < i ==> Succeeded(verify(candidates[j]))
    {
      var x := candidates[i];
      PrefixStep(candidates, i, verify);
      last := verify(x);
      if !Succeeded(last) {
        if !copyFieldMode {
          refusal := last;
          assert refusal == verify(candidates[i]) && forall j :: 0 <= j < i ==> Succeeded(verify(candidates[j]));
          return;
        }
        if last.value.dialog != NoDialog {
          refused := refused + [last.value.dialog];
        }
      } else {
        approved := approved + [x];
      }
      assert !copyFieldMode ==> Succeeded(verify(candidates[i]));
      i := i + 1;
    }
    assert candidates[..i] == candidates;
  }

  lemma PrefixStep(s: seq<Value>, i: int, verify: Value -> Option<ReturnVal>)
    requires 0 <= i < |s|
    ensures Passing(s[..i + 1], verify) == Passing(s[..i], verify) + (if Succeeded(verify(s[i])) then [s[i]] else [])
    ensures RefusedDialogs(s[..i + 1], verify) == RefusedDialogs(s[..i], verify)
      + (if !Succeeded(verify(s[i])) && verify(s[i]).value.dialog != NoDialog then [verify(s[i]).value.dialog] else [])
  {
    var next := s[..i + 1];
    assert next[..|next| - 1] == s[..i] && next[|next| - 1] == s[i];
  }

  /** The testmark pass: the first value the namespace would not let this field mark. */
  method FirstUnmarkable(vs: seq<Value>, h: Hooks) returns (conflict: Option<Value>)
    ensures conflict.None? <==> forall x :: x in vs ==> CanMark(x, h)
    ensures conflict.Some? ==> exists i :: (0 <= i < |vs| && vs[i] == conflict.value && !CanMark(vs[i], h)
      && forall j :: 0 <= j < i ==> CanMark(vs[j], h))
  {
    var i := 0;
    while i < |vs|
      invariant 0 <= i <= |vs|
      invariant forall j :: 0 <= j < i ==> CanMark(vs[j], h)
    {
      if !CanMark(vs[i], h) {
        return Some(vs[i]);
      }
      i := i + 1;
    }
    return None;
  }

  /** The mark pass: every value of vs is marked for this field. */
  method MarkAll(marks: set<Value>, vs: seq<Value>) returns (m: set<Value>)
    ensures m == marks + Elements(vs)
  {
    m := marks;
    var i := 0;
    while i < |vs|
      invariant 0 <= i <= |vs|
      invariant m == marks + Elements(vs[..i])
    {
      assert Elements(vs[..i + 1]) == Elements(vs[..i]) + {vs[i]} by {
        assert vs[..i + 1] == vs[..i] + [vs[i]];
      }
      m := m + {vs[i]};
      i := i + 1;
    }
    assert vs[..i] == vs;
  }

  /** The unmark pass: each value of vs that `left` no longer holds is unmarked. */
  method UnmarkMissing(marks: set<Value>, vs: seq<Value>, left: seq<Value>) returns (m: set<Value>)
    ensures m == marks - (Elements(vs) - Elements(left))
  {
    m := marks;
    var i := 0;
    while i < |vs|
      invariant 0 <= i <= |vs|
      invariant m == marks - (Elements(vs[..i]) - Elements(left))
    {
      assert Elements(vs[..i + 1]) == Elements(vs[..i]) + {vs[i]} by {
        assert vs[..i + 1] == vs[..i] + [vs[i]];
      }
      if vs[i] !in left {
        m := m - {vs[i]};
      }
      i := i + 1;
    }
    assert vs[..i] == vs;
  }

  /** The append pass: each value of vs is added at the end, in order. */
  method AppendAll(current: seq<Value>, vs: seq<Value>) returns (r: seq<Value>)
    ensures r == current + vs
  {
    r := current;
    var i := 0;
    while i < |vs|
      invariant 0 <= i <= |vs|
      invariant r == current + vs[..i]
    {
      assert vs[..i + 1] == vs[..i] + [vs[i]];
      r := r + [vs[i]];
      i := i + 1;
    }
    assert vs[..i] == vs;
  }

  /** The removal pass of deleteElements: removeElement for each value of d in turn. */
  method RemoveAll(current: seq<Value>, d: seq<Value>) returns (r: seq<Value>)
    ensures r == RemoveEach(current, d)
  {
    r := current;
    var i := 0;
    while i < |d|
      invariant 0 <= i <= |d|
      invariant r == RemoveEach(current, d[..i])
    {
      assert d[..i + 1][..i] == d[..i] && d[..i + 1][i] == d[i];
      r := RemoveFirst(r, d[i]);
      i := i + 1;
    }
    assert d[..i] == d;
  }

  /** Every value the vector both held and lost was requested for deletion. */
  lemma ElementsUpdate(s: seq<Value>, i: int, v: Value)
    requires Distinct(s) && 0 <= i < |s| && v !in s
    ensures Elements(s[i := v]) == Elements(s) - {s[i]} + {v}
    ensures Distinct(s[i := v])
  {
    var t := s[i := v];
    forall x | x in Elements(s) - {s[i]} + {v} ensures x in Elements(t) {
      if x != v {
        var k :| 0 <= k < |s| && s[k] == x;
        assert k != i && t[k] == x && t[k] in t;
      } else {
        assert t[i] == v && t[i] in t;
      }
    }
  }

  lemma DistinctAppendOne(s: seq<Value>, v: Value)
    requires Distinct(s) && v !in s
    ensures Distinct(s + [v])
  {
  }

  lemma DistinctConcat(a: seq<Value>, b: seq<Value>)
    requires Distinct(a) && Distinct(b) && forall x :: x in b ==> x !in a
    ensures Distinct(a + b)
  {
    var c := a + b;
    forall i, j | 0 <= i < j < |c| ensures c[i] != c[j] {
      if j >= |a| && i < |a| {
        assert c[j] == b[j - |a|] && c[i] == a[i] && b[j - |a|] in b;
      } else if i >= |a| {
        assert c[i] == b[i - |a|] && c[j] == b[j - |a|];
      }
    }
  }

  lemma DistinctPassing(s: seq<Value>, verify: Value -> Option<ReturnVal>)
    requires Distinct(s)
    ensures Distinct(Passing(s, verify))
  {
    if s != [] {
      var init, x := s[..|s| - 1], s[|s| - 1];
      assert s == init + [x];
      assert x !in init;
      DistinctPassing(init, verify);
      PassingMembers(init, verify);
      if Succeeded(verify(x)) {
        DistinctAppendOne(Passing(init, verify), x);
      }
    }
  }

  /**
   * The old and new vectors and a diff of them: the new elements are the old
   * ones without the deleted and with the added, and the two lists name only
   * values that changed sides.
   */
  lemma DiffRebuilds(oldValues: seq<Value>, newValues: seq<Value>)
    ensures Elements(newValues)
      == (Elements(oldValues) - Elements(Minus(oldValues, newValues))) + Elements(Minus(newValues, oldValues))
    ensures Elements(Minus(newValues, oldValues)) !! Elements(oldValues)
    ensures Elements(Minus(oldValues, newValues)) !! Elements(newValues)
  {
    MinusMembers(oldValues, newValues);
    MinusMembers(newValues, oldValues);
  }

  // ---------------------------------------------------------------- the field

  /** A checkpoint: the vector's copy, or the scalar value. */
  datatype Snapshot = VectorSnapshot(values: seq<Value>) | ScalarSnapshot(value: Value)

  /** A fieldDeltaRec: the field id and the values added and deleted. */
  datatype Delta = Delta(field: int, added: seq<Value>, deleted: seq<Value>)

  class Field {
    const owner: Invid
    const id: int
    /** The concrete field class, which equals compares. */
    const fieldClass: int
    const vector: bool
    const namespaced: bool
    /** The field definition's array limit. */
    const arrayLimit: int
    /** The scalar value. */
    var value: Value
    /** The vector's elements. */
    var values: seq<Value>
    /** The values the namespace has marked for this field. */
    var marks: set<Value>

    constructor (owner: Invid, id: int, fieldClass: int, vector: bool, namespaced: bool, arrayLimit: int)
      ensures this.owner == owner && this.id == id && this.fieldClass == fieldClass
      ensures this.vector == vector && this.namespaced == namespaced && this.arrayLimit == arrayLimit
      ensures value == Null && values == [] && marks == {}
      ensures Valid() && MarksConsistent()
    {
      this.owner, this.id, this.fieldClass := owner, id, fieldClass;
      this.vector, this.namespaced, this.arrayLimit := vector, namespaced, arrayLimit;
      value, values, marks := Null, [], {};
    }

    /** Vector fields hold no duplicates. */
    ghost predicate Valid()
      reads this
    {
      Distinct(values)
    }

    /** The non-null values the field holds. */
    function Keys(): set<Value>
      reads this
    {
      if vector then Elements(values) - {Null} else if value == Null then {} else {value}
    }

    /** The namespace marks exactly the field's non-null values. */
    ghost predicate MarksConsistent()
      reads this
    {
      marks == if namespaced then Keys() else {}
    }

    /** The namespace reports none of this field's marks as held by another field. */
    ghost predicate Coherent(h: Hooks)
      reads this
    {
      forall x :: x in marks ==> !h.heldElsewhere(x)
    }

    function Size(): (n: int)
      reads this
      ensures n >= 0 && (n == if vector then |values| else 1)
    {
      if vector then |values| else 1
    }

    function MaxArraySize(): (n: int)
      ensures n == if vector then arrayLimit else 1
    {
      if vector then arrayLimit else 1
    }

    /** rescanThisField: a failure passes through; otherwise the answer also asks to rescan this field. */
    function RescanThisField(original: Option<ReturnVal>): (r: ReturnVal)
      ensures !Succeeded(original) ==> r == original.value
      ensures Succeeded(original) ==> r.success && FieldRef(owner, id) in r.rescan
      ensures original.Some? ==> r.dialog == original.value.dialog && original.value.rescan <= r.rescan
      ensures original.Some? && original.value.success ==> r.rescan == original.value.rescan + {FieldRef(owner, id)}
    {
      if original.Some? && !original.value.success then original.value
      else
        var base := if original.None? then ReturnVal(true, true, {}, NoDialog) else original.value;
        base.(rescan := base.rescan + {FieldRef(owner, id)})
    }

    // -------------------------------------------------------------- scalar

    /** setValue reaches the owner's finalize hook. */
    ghost predicate SetValueReaches(v: Value, h: Hooks)
      reads this
    {
      && h.editable && !vector && v != value && Succeeded(h.verify(v)) && !WizardStops(h)
      && (namespaced && v != Null ==> CanMark(v, h))
    }

    method SetValue(v: Value, h: Hooks) returns (r: Outcome<Option<ReturnVal>>)
      modifies this
      ensures !h.editable ==> r == Threw(Permissions)
      ensures h.editable && vector ==> r == Threw(IllegalArgument)
      ensures h.editable && !vector && v == old(value) ==> r == Returned(None)
      ensures h.editable && !vector && v != old(value) && !Succeeded(h.verify(v)) ==> r == Returned(h.verify(v))
      ensures h.editable && !vector && v != old(value) && Succeeded(h.verify(v)) && WizardStops(h) ==> r == Returned(h.wizard)
      ensures old(SetValueReaches(v, h)) && !Succeeded(h.finalize) ==> r == Returned(h.finalize)
      ensures old(SetValueReaches(v, h)) && Succeeded(h.finalize) ==> r == Returned(Combine(Earlier(h, h.verify(v)), h.finalize))
      ensures value == if old(SetValueReaches(v, h)) && Succeeded(h.finalize) then v else old(value)
      ensures values == old(values)
      ensures old(MarksConsistent() && Coherent(h)) ==> MarksConsistent()
    {
      if !h.editable {
        return Threw(Permissions);
      }
      if vector {
        return Threw(IllegalArgument);
      }
      if value == v {
        return Returned(None);
      }
      var retVal := h.verify(v);
      if !Succeeded(retVal) {
        return Returned(retVal);
      }
      if h.consultWizard {
        retVal := h.wizard;
        if TakesOver(retVal) {
          return Returned(retVal);
        }
      }
      if namespaced {
        marks := marks - {value};
        if v != Null {
          if !CanMark(v, h) {
            if CanMark(value, h) {
              marks := marks + {value};
            }
            return Returned(Some(Refuse(Conflict(v))));
          }
          marks := marks + {v};
        }
      }
      var answer := h.finalize;
      if Succeeded(answer) {
        value := v;
        return Returned(Combine(retVal, answer));
      }
      if namespaced {
        marks := marks - {v};
        if CanMark(value, h) {
          marks := marks + {value};
        }
      }
      return Returned(answer);
    }

    // -------------------------------------------------------------- vector edits

    /** addElement reaches the owner's finalize hook. */
    ghost predicate AddElementReaches(v: Value, h: Hooks)
      reads this
    {
      && h.editable && vector && v != Null && v !in values && Succeeded(h.verify(v))
      && |values| < arrayLimit && !WizardStops(h) && (namespaced ==> CanMark(v, h))
    }

    method AddElement(v: Value, h: Hooks) returns (r: Outcome<Option<ReturnVal>>)
      modifies this
      ensures !h.editable ==> r == Threw(Permissions)
      ensures h.editable && !vector ==> r == Threw(IllegalArgument)
      ensures h.editable && vector && v == Null ==> r == Threw(IllegalArgument)
      ensures h.editable && vector && v != Null && v in old(values) ==> r == Returned(Some(Refuse(DuplicateValue(v))))
      ensures h.editable && vector && v != Null && v !in old(values) && !Succeeded(h.verify(v)) ==> r == Returned(h.verify(v))
      ensures h.editable && vector && v != Null && v !in old(values) && Succeeded(h.verify(v)) && |old(values)| >= arrayLimit
        ==> r == Returned(Some(Refuse(SizeLimit)))
      ensures (h.editable && vector && v != Null && v !in old(values) && Succeeded(h.verify(v)) && |old(values)| < arrayLimit
        && WizardStops(h)) ==> r == Returned(h.wizard)
      ensures old(AddElementReaches(v, h)) && !Succeeded(h.finalize) ==> r == Returned(h.finalize)
      ensures old(AddElementReaches(v, h) && MarksConsistent()) && !Succeeded(h.finalize) ==> marks == old(marks)
      ensures old(AddElementReaches(v, h)) && Succeeded(h.finalize) ==> r == Returned(Combine(Earlier(h, h.verify(v)), h.finalize))
      ensures values == if old(AddElementReaches(v, h)) && Succeeded(h.finalize) then old(values) + [v] else old(values)
      ensures value == old(value)
      ensures old(Valid()) ==> Valid()
      ensures old(MarksConsistent()) ==> MarksConsistent()
    {
      if !h.editable {
        return Threw(Permissions);
      }
      if !vector {
        return Threw(IllegalArgument);
      }
      if v == Null {
        return Threw(IllegalArgument);
      }
      if v in values {
        return Returned(Some(Refuse(DuplicateValue(v))));
      }
      var retVal := h.verify(v);
      if !Succeeded(retVal) {
        return Returned(retVal);
      }
      if |values| >= arrayLimit {
        return Returned(Some(Refuse(SizeLimit)));
      }
      if h.consultWizard {
        retVal := h.wizard;
        if TakesOver(retVal) {
          return Returned(retVal);
        }
      }
      if namespaced {
        if !CanMark(v, h) {
          return Returned(Some(Refuse(Conflict(v))));
        }
        marks := marks + {v};
      }
      var answer := h.finalize;
      if Succeeded(answer) {
        values := values + [v];
        return Returned(Combine(retVal, answer));
      }
      if namespaced && v !in values {
        marks := marks - {v};
      }
      return Returned(answer);
    }

    /** setElement reaches the owner's finalize hook. */
    ghost predicate SetElementReaches(index: int, v: Value, h: Hooks)
      reads this
    {
      && vector && h.editable && v !in values && index != -1 && Succeeded(h.verify(v)) && !WizardStops(h)
      && (namespaced ==> 0 <= index < |values| && CanMark(v, h))
    }

    method SetElement(index: int, v: Value, h: Hooks) returns (r: Outcome<Option<ReturnVal>>)
      modifies this
      ensures !vector ==> r == Threw(IllegalArgument)
      ensures vector && !h.editable ==> r == Threw(Permissions)
      ensures vector && h.editable && FirstIndex(old(values), v) == index ==> r == Returned(None)
      ensures vector && h.editable && FirstIndex(old(values), v) !in {-1, index} ==> r == Returned(Some(Refuse(DuplicateValue(v))))
      ensures vector && h.editable && v !in old(values) && index != -1 && Succeeded(h.verify(v)) && WizardStops(h)
        ==> r == Returned(h.wizard)
      ensures old(SetElementReaches(index, v, h)) && !Succeeded(h.finalize) ==> r == Returned(h.finalize)
      ensures old(SetElementReaches(index, v, h)) && Succeeded(h.finalize) ==>
        r == if 0 <= index < |old(values)| then Returned(Combine(Earlier(h, h.verify(v)), h.finalize)) else Threw(IndexOutOfBounds)
      ensures values == if old(SetElementReaches(index, v, h)) && Succeeded(h.finalize) && 0 <= index < |old(values)|
        then old(values)[index := v] else old(values)
      ensures value == old(value)
      ensures old(Valid()) ==> Valid()
      ensures old(Valid() && MarksConsistent() && Coherent(h)) ==> MarksConsistent()
    {
      if !vector {
        return Threw(IllegalArgument);
      }
      if !h.editable {
        return Threw(Permissions);
      }
      var oldIndex := FirstIndex(values, v);
      if oldIndex == index {
        return Returned(None);
      } else if oldIndex != -1 {
        return Returned(Some(Refuse(DuplicateValue(v))));
      }
      var retVal := h.verify(v);
      if !Succeeded(retVal) {
        return Returned(retVal);
      }
      if h.consultWizard {
        retVal := h.wizard;
        if TakesOver(retVal) {
          return Returned(retVal);
        }
      }
      ghost var before := marks;
      if namespaced {
        if !(0 <= index < |values|) {
          return Threw(IndexOutOfBounds);
        }
        var current := values[index];
        marks := marks - {current};
        if !CanMark(v, h) {
          if CanMark(current, h) {
            marks := marks + {current};
          }
          return Returned(Some(Refuse(Conflict(v))));
        }
        marks := marks + {v};
      }
      var answer := h.finalize;
      if Succeeded(answer) {
        if !(0 <= index < |values|) {
          return Threw(IndexOutOfBounds);
        }
        if Distinct(values) {
          ElementsUpdate(values, index, v);
        }
        values := values[index := v];
        return Returned(Combine(retVal, answer));
      }
      if namespaced {
        if v !in values {
          marks := marks - {v};
        }
        if CanMark(values[index], h) {
          marks := marks + {values[index]};
        }
      }
      return Returned(answer);
    }

    /** deleteElement(index) reaches the owner's finalize hook. */
    ghost predicate DeleteElementReaches(index: int, h: Hooks)
      reads this
    {
      h.editable && vector && 0 <= index < |values| && !WizardStops(h)
    }

    method DeleteElementAt(index: int, h: Hooks) returns (r: Outcome<Option<ReturnVal>>)
      modifies this
      ensures !h.editable ==> r == Threw(Permissions)
      ensures h.editable && !vector ==> r == Threw(IllegalArgument)
      ensures h.editable && vector && !(0 <= index < |old(values)|) ==> r == Threw(IndexOutOfBounds)
      ensures h.editable && vector && 0 <= index < |old(values)| && WizardStops(h) ==> r == Returned(h.wizard)
      ensures old(DeleteElementReaches(index, h)) && !Succeeded(h.finalize) ==> r == Returned(h.finalize)
      ensures old(DeleteElementReaches(index, h)) && Succeeded(h.finalize) ==> r == Returned(Combine(Earlier(h, None), h.finalize))
      ensures values == if old(DeleteElementReaches(index, h)) && Succeeded(h.finalize)
        then old(values[..index] + values[index + 1..]) else old(values)
      ensures value == old(value)
      ensures old(Valid()) ==> Valid()
      ensures old(Valid() && MarksConsistent()) ==> MarksConsistent()
    {
      if !h.editable {
        return Threw(Permissions);
      }
      if !vector {
        return Threw(IllegalArgument);
      }
      if !(0 <= index < |values|) {
        return Threw(IndexOutOfBounds);
      }
      var retVal: Option<ReturnVal> := None;
      if h.consultWizard {
        retVal := h.wizard;
        if TakesOver(retVal) {
          return Returned(retVal);
        }
      }
      var answer := h.finalize;
      if !Succeeded(answer) {
        return Returned(answer);
      }
      var gone := values[index];
      if Distinct(values) {
        DistinctRemove(values, index);
        GoneAfterRemove(values, index);
      }
      values := values[..index] + values[index + 1..];
      if namespaced && gone !in values {
        marks := marks - {gone};
      }
      return Returned(Combine(retVal, answer));
    }

    method DeleteElement(v: Value, h: Hooks) returns (r: Outcome<Option<ReturnVal>>)
      modifies this
      ensures !h.editable ==> r == Threw(Permissions)
      ensures h.editable && !vector ==> r == Threw(IllegalArgument)
      ensures h.editable && vector && v == Null ==> r == Returned(Some(Refuse(NullValue)))
      ensures h.editable && vector && v != Null && v !in old(values) ==> r == Returned(Some(Refuse(NotPresent({v}))))
      ensures h.editable && vector && v != Null && v in old(values) && WizardStops(h) ==> r == Returned(h.wizard)
      ensures h.editable && vector && v != Null && v in old(values) && !WizardStops(h) ==>
        r == Returned(if Succeeded(h.finalize) then Combine(Earlier(h, None), h.finalize) else h.finalize)
      ensures values == if h.editable && vector && v != Null && v in old(values) && !WizardStops(h) && Succeeded(h.finalize)
        then old(RemoveFirst(values, v)) else old(values)
      ensures old(Valid()) ==> Valid() && (values != old(values) ==> v !in values)
      ensures old(Valid() && MarksConsistent()) ==> MarksConsistent()
    {
      if !h.editable {
        return Threw(Permissions);
      }
      if !vector {
        return Threw(IllegalArgument);
      }
      if v == Null {
        return Returned(Some(Refuse(NullValue)));
      }
      var index := FirstIndex(values, v);
      if index == -1 {
        return Returned(Some(Refuse(NotPresent({v}))));
      }
      ghost var before := values;
      RemoveFirstAt(values, v);
      if Distinct(values) {
        RemoveFirstDistinct(values, v);
      }
      r := DeleteElementAt(index, h);
    }

    /** deleteElements reaches the owner's finalize hook. */
    ghost predicate DeleteElementsReaches(doomed: Option<seq<Value>>, ownVector: bool, h: Hooks)
      reads this
    {
      && h.editable && vector && doomed.Some? && doomed.value != [] && !ownVector
      && (forall x :: x in doomed.value ==> x in values) && !WizardStops(h)
    }

    /**
     * deleteElements(valuesToDelete): ownVector says the argument is the
     * field's own value vector, which is refused with an
     * IllegalArgumentException once the empty-vector test has passed.
     */
    method DeleteElements(doomed: Option<seq<Value>>, ownVector: bool, h: Hooks) returns (r: Outcome<Option<ReturnVal>>)
      requires ownVector ==> doomed == Some(values)
      modifies this
      ensures !h.editable ==> r == Threw(Permissions)
      ensures h.editable && !vector ==> r == Threw(IllegalArgument)
      ensures h.editable && vector && (doomed.None? || doomed.value == []) ==> r == Returned(Some(Refuse(EmptyVector)))
      ensures h.editable && vector && doomed.Some? && doomed.value != [] && ownVector ==>
        r == Threw(IllegalArgument) && values == old(values)
      ensures h.editable && vector && doomed.Some? && doomed.value != [] && !ownVector && (exists x :: x in doomed.value && x !in old(values))
        ==> r == Returned(Some(Refuse(NotPresent(set x | x in doomed.value && x !in old(values)))))
      ensures (h.editable && vector && doomed.Some? && doomed.value != [] && !ownVector
        && (forall x :: x in doomed.value ==> x in old(values)) && WizardStops(h)) ==> r == Returned(h.wizard)
      ensures old(DeleteElementsReaches(doomed, ownVector, h)) ==>
        r == Returned(if Succeeded(h.finalize) then Combine(Earlier(h, None), h.finalize) else h.finalize)
      ensures values == if old(DeleteElementsReaches(doomed, ownVector, h)) && Succeeded(h.finalize)
        then RemoveEach(old(values), doomed.value) else old(values)
      ensures old(Valid()) && old(DeleteElementsReaches(doomed, ownVector, h)) && Succeeded(h.finalize)
        ==> values == Minus(old(values), doomed.value)
      ensures old(Valid()) ==> Valid()
      ensures old(Valid() && MarksConsistent()) ==> MarksConsistent()
    {
      if !h.editable {
        return Threw(Permissions);
      }
      if !vector {
        return Threw(IllegalArgument);
      }
      if doomed.None? || doomed.value == [] {
        return Returned(Some(Refuse(EmptyVector)));
      }
      if ownVector {
        return Threw(IllegalArgument);
      }
      var missing := set x | x in doomed.value && x !in values;
      if missing != {} {
        return Returned(Some(Refuse(NotPresent(missing))));
      }
      forall x | x in doomed.value ensures x in values {
        assert x !in values ==> x in missing;
      }
      var retVal: Option<ReturnVal> := None;
      if h.consultWizard {
        retVal := h.wizard;
        if TakesOver(retVal) {
          return Returned(retVal);
        }
      }
      var answer := h.finalize;
      if !Succeeded(answer) {
        return Returned(answer);
      }
      RemoveValues(doomed.value);
      return Returned(Combine(retVal, answer));
    }

    /** The removal and unmark passes of deleteElements. */
    method RemoveValues(doomed: seq<Value>)
      requires vector
      modifies this
      ensures values == RemoveEach(old(values), doomed) && value == old(value)
      ensures old(Valid()) ==> Valid() && values == Minus(old(values), doomed)
      ensures old(Valid() && MarksConsistent()) ==> MarksConsistent()
    {
      if Distinct(values) {
        RemoveEachDistinct(values, doomed);
        MinusDistinct(values, doomed);
        MinusMembers(values, doomed);
      }
      var left := RemoveAll(values, doomed);
      if namespaced {
        marks := UnmarkMissing(marks, doomed, left);
      }
      values := left;
    }

    /** addElements reaches the owner's finalize hook. */
    ghost predicate AddElementsReaches(submitted: Option<seq<Value>>, ownVector: bool, copyFieldMode: bool, h: Hooks)
      reads this
    {
      && h.editable && vector && submitted.Some? && submitted.value != [] && !ownVector
      && (copyFieldMode || Common(values, submitted.value) == {})
      && |values| + |Candidates(submitted.value, values, copyFieldMode)| <= arrayLimit
      && CandidatesReach(submitted.value, Candidates(submitted.value, values, copyFieldMode), copyFieldMode, h)
    }

    /** The candidates of addElements get past approval, the wizard and the namespace to the finalize hook. */
    predicate CandidatesReach(submitted: seq<Value>, candidates: seq<Value>, copyFieldMode: bool, h: Hooks) {
      && (copyFieldMode || forall x :: x in submitted ==> Succeeded(h.verify(x)))
      && Passing(candidates, h.verify) != []
      && !WizardStops(h)
      && (namespaced ==> forall x :: x in Passing(candidates, h.verify) ==> CanMark(x, h))
    }

    /** What a successful addElements answers: the merged answer, defaulting to success, with a warning listing skipped refusals. */
    static function AddElementsAnswer(earlier: Option<ReturnVal>, answer: Option<ReturnVal>, refused: seq<Dialog>): ReturnVal {
      var merged := Combine(earlier, answer);
      var base := if merged.None? then ReturnVal(true, true, {}, NoDialog) else merged.value;
      if refused != [] then base.(dialog := Warning(refused)) else base
    }

    /**
     * addElements(submittedValues): ownVector says the argument is the
     * field's own value vector, which is refused with an
     * IllegalArgumentException once the empty-vector test has passed.
     */
    method AddElements(submitted: Option<seq<Value>>, ownVector: bool, copyFieldMode: bool, h: Hooks)
      returns (r: Outcome<Option<ReturnVal>>)
      requires ownVector ==> submitted == Some(values)
      modifies this
      ensures !h.editable ==> r == Threw(Permissions)
      ensures h.editable && !vector ==> r == Threw(IllegalArgument)
      ensures h.editable && vector && (submitted.None? || submitted.value == []) ==> r == Returned(Some(Refuse(EmptyVector)))
      ensures h.editable && vector && submitted.Some? && submitted.value != [] && ownVector ==>
        r == Threw(IllegalArgument) && values == old(values)
      ensures h.editable && vector && submitted.Some? && submitted.value != [] && !ownVector && !copyFieldMode
        && Common(old(values), submitted.value) != {}
        ==> r == Returned(Some(Refuse(DuplicateValues(Common(old(values), submitted.value)))))
      ensures h.editable && vector && submitted.Some? && submitted.value != [] && !ownVector
        && (copyFieldMode || Common(old(values), submitted.value) == {})
        && |old(values)| + |Candidates(submitted.value, old(values), copyFieldMode)| > arrayLimit
        ==> r == Returned(Some(Refuse(SizeLimit)))
      ensures old(AddElementsReaches(submitted, ownVector, copyFieldMode, h)) && Succeeded(h.finalize) ==>
        var cands := Candidates(submitted.value, old(values), copyFieldMode);
        r == Returned(Some(AddElementsAnswer(
          Earlier(h, h.verify(cands[|cands| - 1])), h.finalize, RefusedDialogs(cands, h.verify))))
      ensures old(AddElementsReaches(submitted, ownVector, copyFieldMode, h)) && !Succeeded(h.finalize) ==> r == Returned(h.finalize)
      ensures values == if old(AddElementsReaches(submitted, ownVector, copyFieldMode, h)) && Succeeded(h.finalize)
        then old(values) + Passing(Candidates(submitted.value, old(values), copyFieldMode), h.verify) else old(values)
      ensures value == old(value)
      ensures old(Valid()) && submitted.Some? && Distinct(submitted.value) ==> Valid()
      ensures old(MarksConsistent()) ==> MarksConsistent()
    {
      if !h.editable {
        return Threw(Permissions);
      }
      if !vector {
        return Threw(IllegalArgument);
      }
      if submitted.None? || submitted.value == [] {
        return Returned(Some(Refuse(EmptyVector)));
      }
      if ownVector {
        return Threw(IllegalArgument);
      }
      var common := Common(values, submitted.value);
      if common != {} && !copyFieldMode {
        return Returned(Some(Refuse(DuplicateValues(common))));
      }
      var candidates := Candidates(submitted.value, values, copyFieldMode);
      if |values| + |candidates| > arrayLimit {
        return Returned(Some(Refuse(SizeLimit)));
      }
      r := AddCandidates(submitted.value, candidates, copyFieldMode, h);
    }

    /** The approval, wizard and namespace steps of addElements, for the candidates past the guards. */
    method AddCandidates(submitted: seq<Value>, candidates: seq<Value>, copyFieldMode: bool, h: Hooks)
      returns (r: Outcome<Option<ReturnVal>>)
      requires vector && candidates == Candidates(submitted, values, copyFieldMode)
      requires copyFieldMode || Common(values, submitted) == {}
      modifies this
      ensures CandidatesReach(submitted, candidates, copyFieldMode, h) && Succeeded(h.finalize) ==>
        r == Returned(Some(AddElementsAnswer(
          Earlier(h, h.verify(candidates[|candidates| - 1])), h.finalize, RefusedDialogs(candidates, h.verify))))
      ensures CandidatesReach(submitted, candidates, copyFieldMode, h) && !Succeeded(h.finalize) ==> r == Returned(h.finalize)
      ensures values == if CandidatesReach(submitted, candidates, copyFieldMode, h) && Succeeded(h.finalize)
        then old(values) + Passing(candidates, h.verify) else old(values)
      ensures value == old(value)
      ensures old(Valid()) && Distinct(submitted) ==> Valid()
      ensures old(MarksConsistent()) ==> MarksConsistent()
    {
      var approved, refusal, refused, retVal := Approve(candidates, h.verify, copyFieldMode);
      if refusal.Some? {
        return Returned(refusal);
      }
      if approved == [] {
        return Returned(Some(Refuse(NoneApproved(refused))));
      }
      if h.consultWizard {
        retVal := h.wizard;
        if TakesOver(retVal) {
          return Returned(retVal);
        }
      }
      PassingMembers(candidates, h.verify);
      if copyFieldMode {
        MinusMembers(submitted, values);
      }
      assert forall x :: x in approved ==> x !in values by {
        forall x | x in approved ensures x !in values {
          assert x in candidates;
          if !copyFieldMode {
            assert x in submitted;
            assert x !in Common(values, submitted);
          }
        }
      }
      if Distinct(submitted) {
        if copyFieldMode {
          MinusDistinct(submitted, values);
        }
        DistinctPassing(candidates, h.verify);
      }
      r := FinishAddElements(approved, retVal, refused, h);
    }

    /** The namespace and finalize steps of addElements, for the approved values. */
    method FinishAddElements(approved: seq<Value>, earlier: Option<ReturnVal>, refused: seq<Dialog>, h: Hooks)
      returns (r: Outcome<Option<ReturnVal>>)
      requires vector && forall x :: x in approved ==> x !in values
      modifies this
      ensures (namespaced ==> forall x :: x in approved ==> CanMark(x, h)) && Succeeded(h.finalize)
        ==> r == Returned(Some(AddElementsAnswer(earlier, h.finalize, refused))) && values == old(values) + approved
      ensures (namespaced ==> forall x :: x in approved ==> CanMark(x, h)) && !Succeeded(h.finalize)
        ==> r == Returned(h.finalize) && values == old(values)
      ensures namespaced && (exists x :: x in approved && !CanMark(x, h)) ==> values == old(values) && r.Returned? && r.value.Some? && !r.value.value.success
      ensures value == old(value)
      ensures old(Valid()) && Distinct(approved) ==> Valid()
      ensures old(MarksConsistent()) ==> MarksConsistent()
    {
      if namespaced {
        var conflict := FirstUnmarkable(approved, h);
        if conflict.Some? {
          return Returned(Some(Refuse(Conflict(conflict.value))));
        }
        marks := MarkAll(marks, approved);
      }
      var answer := h.finalize;
      if Succeeded(answer) {
        if Distinct(values) && Distinct(approved) {
          DistinctConcat(values, approved);
        }
        ghost var before := values;
        values := AppendAll(values, approved);
        assert Elements(values) == Elements(before) + Elements(approved);
        assert namespaced ==> Null !in Elements(approved);
        return Returned(Some(AddElementsAnswer(earlier, answer, refused)));
      }
      if namespaced {
        assert Elements(approved) !! Elements(values);
        ghost var marked := marks;
        marks := UnmarkMissing(marks, approved, values);
        assert marks == marked - Elements(approved);
        assert old(marks) !! Elements(approved) ==> marks == old(marks);
      }
      return Returned(answer);
    }

    /** addElements with the internal-duplicate check the duplicate-free rule calls for. */
    method AddElementsChecked(submitted: Option<seq<Value>>, ownVector: bool, copyFieldMode: bool, h: Hooks)
      returns (r: Outcome<Option<ReturnVal>>)
      requires ownVector ==> submitted == Some(values)
      modifies this
      ensures submitted.Some? && h.editable && vector && !Distinct(submitted.value) ==>
        r.Returned? && r.value.Some? && !r.value.value.success && values == old(values)
      ensures old(Valid()) ==> Valid()
      ensures old(MarksConsistent()) ==> MarksConsistent()
    {
      if submitted.Some? && h.editable && vector {
        var repeated := FirstRepeat(submitted.value);
        if repeated.Some? {
          return Returned(Some(Refuse(DuplicateValues({repeated.value}))));
        }
      }
      r := AddElements(submitted, ownVector, copyFieldMode, h);
    }

    // -------------------------------------------------------------- comparisons

    /**
     * equals: the same field class and, for a vector, the same size and
     * equal elements in order (key(i).equals on the other field's key, so a
     * null there throws).
     */
    method Equals(other: Field?) returns (r: Outcome<bool>)
      ensures other == null ==> r == Threw(NullPointer)
      ensures r == Returned(true) <==> (other != null && other.fieldClass == fieldClass
        && if vector then other.vector && other.values == values && Null !in values
           else !other.vector && other.value != Null && other.value == value)
      ensures other != null && other.fieldClass == fieldClass && vector && other.vector && Null !in other.values
        ==> r == Returned(|other.values| == |values| && forall i :: 0 <= i < |values| ==> other.values[i] == values[i])
      ensures r.Threw? ==> r.exc in {NullPointer, IllegalArgument}
    {
      if other == null {
        return Threw(NullPointer);
      }
      if other.fieldClass != fieldClass {
        return Returned(false);
      }
      if !vector {
        if other.vector {
          return Threw(IllegalArgument);
        }
        if other.value == Null {
          return Threw(NullPointer);
        }
        return Returned(other.value == value);
      }
      var otherSize := if other.vector then |other.values| else 1;
      if otherSize != |values| {
        return Returned(false);
      }
      var i := 0;
      while i < |values|
        invariant 0 <= i <= |values|
        invariant other.vector ==> forall j :: 0 <= j < i ==> other.values[j] != Null && other.values[j] == values[j]
        invariant !other.vector ==> i == 0
      {
        if !other.vector {
          return Threw(IllegalArgument);
        }
        if other.values[i] == Null {
          return Threw(NullPointer);
        }
        if other.values[i] != values[i] {
          return Returned(false);
        }
        i := i + 1;
      }
      if !other.vector {
        // a scalar other field has size 1, so an empty vector never gets here
        assert false;
        return Threw(IllegalArgument);
      }
      assert other.values == values;
      return Returned(true);
    }

    /**
     * getVectorDiff against an older version of this field: the values only
     * the new version holds, and those only the old one held.
     */
    function VectorDiff(oldField: Field?): (r: Outcome<Delta>)
      reads this, oldField
      ensures r.Returned? <==> (vector && oldField != null && oldField.id == id && oldField.owner.typeId == owner.typeId
        && oldField.vector)
      ensures r.Threw? ==> r.exc in {IllegalArgument, ClassCast}
      ensures r.Returned? ==> (r.value.field == id
        && (forall x :: x in r.value.added <==> x in values && x !in oldField.values)
        && (forall x :: x in r.value.deleted <==> x in oldField.values && x !in values))
    {
      if !vector || oldField == null || oldField.id != id || oldField.owner.typeId != owner.typeId then
        Threw(IllegalArgument)
      else if !oldField.vector then Threw(ClassCast)
      else
        MinusMembers(values, oldField.values);
        MinusMembers(oldField.values, values);
        Returned(Delta(id, Minus(values, oldField.values), Minus(oldField.values, values)))
    }

    function Checkpoint(): (s: Snapshot)
      reads this
      ensures s == if vector then VectorSnapshot(values) else ScalarSnapshot(value)
    {
      if vector then VectorSnapshot(values) else ScalarSnapshot(value)
    }

    /**
     * rollback to a checkpoint; `editContext` says whether the owner is an
     * object being edited and `typeMatch` is verifyTypeMatch.  The namespace
     * keeps its own checkpoints, so the marks are left alone.
     */
    method Rollback(s: Snapshot, editContext: bool, typeMatch: Value -> bool) returns (r: Outcome<()>)
      modifies this
      ensures r.Returned? <==> editContext && if vector then s.VectorSnapshot? else s.ScalarSnapshot? && typeMatch(s.value)
      ensures r.Threw? ==> r.exc == Runtime && value == old(value) && values == old(values)
      ensures r.Returned? ==> Checkpoint() == s
      ensures marks == old(marks)
    {
      if !editContext {
        return Threw(Runtime);
      }
      if vector {
        if !s.VectorSnapshot? {
          return Threw(Runtime);
        }
        values := s.values;
      } else {
        if !(s.ScalarSnapshot? && typeMatch(s.value)) {
          return Threw(Runtime);
        }
        value := s.value;
      }
      return Returned(());
    }
  }

  /** After removing position i of a distinct vector, its value is gone. */
  lemma GoneAfterRemove(s: seq<Value>, i: int)
    requires Distinct(s) && 0 <= i < |s|
    ensures s[i] !in s[..i] + s[i + 1..]
    ensures Elements(s[..i] + s[i + 1..]) == Elements(s) - {s[i]}
  {
    var t := s[..i] + s[i + 1..];
    forall k | 0 <= k < |t| ensures t[k] != s[i] {
      if k < i { assert t[k] == s[k]; } else { assert t[k] == s[k + 1]; }
    }
    forall x | x in Elements(s) - {s[i]} ensures x in Elements(t) {
      var k :| 0 <= k < |s| && s[k] == x;
      if k < i { assert t[k] == x; } else { assert t[k - 1] == x; }
    }
  }

  /** A value that occurs twice in s, scanning pairs in order. */
  method FirstRepeat(s: seq<Value>) returns (repeated: Option<Value>)
    ensures repeated.None? <==> Distinct(s)
  {
    var i := 0;
    while i < |s|
      invariant 0 <= i <= |s|
      invariant forall a, b :: 0 <= a < b < |s| && a < i ==> s[a] != s[b]
    {
      var j := i + 1;
      while j < |s|
        invariant i + 1 <= j <= |s|
        invariant forall b :: i < b < j ==> s[i] != s[b]
      {
        if s[i] == s[j] {
          return Some(s[i]);
        }
        j := j + 1;
      }
      i := i + 1;
    }
    return None;
  }

  /**
   * As written, addElements checks the submitted values only against the
   * field's current values, so a vector naming one value twice is appended
   * whole and the field ends up holding a duplicate.
   */
  lemma InternalDuplicatesAdmitted(a: Value, verify: Value -> Option<ReturnVal>)
    requires Succeeded(verify(a))
    ensures Common([], [a, a]) == {}
    ensures Passing(Candidates([a, a], [], false), verify) == [a, a]
    ensures !Distinct([] + [a, a])
  {
    assert [a, a][..1] == [a];
    assert [a][..0] == [];
    var d := [] + [a, a];
    assert d[0] == d[1];
  }
}
