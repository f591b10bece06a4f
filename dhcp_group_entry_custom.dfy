// The customization of the option entries embedded in a DHCP group
// (dhcpGroupEntryCustom): the required and hidden fields, the TYPE choice
// list that leaves out the types sibling entries already use, the hidden
// label kept up to date at commit, and the label shown inside the group.
// The lookups it makes (lookupInvid, lookupInvidLabel, the default choice
// list) are inputs here.
module DhcpGroupEntry {
  import opened Wrappers
  import opened Invids
  import opened Seqs
  import DBSessions

  /** dhcpGroupEntrySchema's fields; any other field id is Other. */
  datatype EntryField = Label | Type | Value | Other(id: int)

  /** fieldRequired: exactly the label, the type and the value. */
  function FieldRequired(f: EntryField): (r: bool)
    ensures r <==> f == Label || f == Type || f == Value
  {
    match f
    case Label => true
    case Type => true
    case Value => true
    case Other(_) => false
  }

  /** canSeeField: the hidden label is never shown; others as the default hook says. */
  function CanSeeField(f: EntryField, byDefault: bool): (r: bool)
    ensures f == Label ==> !r
    ensures f != Label ==> r == byDefault
  {
    f != Label && byDefault
  }

  /** obtainChoicesKey: no caching key for the type field, so its list is always fetched afresh. */
  function ObtainChoicesKey<K>(f: EntryField, byDefault: Option<K>): (r: Option<K>)
    ensures f == Type ==> r.None?
    ensures f != Type ==> r == byDefault
  {
    if f == Type then None else byDefault
  }

  /**
   * getSiblingInvids: the parent's member list without this entry's own
   * Invid (Vector.removeElement drops the first occurrence).  A parent
   * without a member list is a NullPointerException.
   */
  function Siblings(members: Option<seq<Invid>>, self: Invid): (r: Outcome<seq<Invid>>)
    ensures members.None? <==> r == Threw(NullPointer)
    ensures members.Some? ==> r == Returned(RemoveFirst(members.value, self))
  {
    if members.None? then Threw(NullPointer) else Returned(RemoveFirst(members.value, self))
  }

  /** In a parent whose members are distinct, the siblings are exactly the other members. */
  lemma SiblingsAreOthers(members: seq<Invid>, self: Invid)
    requires Distinct(members)
    ensures Siblings(Some(members), self).Returned?
    ensures forall y :: y in Siblings(Some(members), self).value <==> y in members && y != self
  {
    RemoveFirstGone(members, self);
  }

  /**
   * The types the siblings use, in order: each sibling is looked up and
   * its TYPE read.  A sibling that cannot be found is a
   * NullPointerException; a sibling with no type skips nothing.
   */
  function TypesOf(sibs: seq<Invid>, typeOf: map<Invid, Option<Invid>>): (r: Outcome<seq<Invid>>)
    ensures r.Threw? <==> exists y :: y in sibs && y !in typeOf
    ensures r.Threw? ==> r.exc == NullPointer
  {
    if sibs == [] then Returned([])
    else if sibs[0] !in typeOf then Threw(NullPointer)
    else
      assert forall y :: y in sibs ==> y == sibs[0] || y in sibs[1..];
      var rest :- TypesOf(sibs[1..], typeOf);
      Returned((if typeOf[sibs[0]].Some? then [typeOf[sibs[0]].value] else []) + rest)
  }

  /** A type is skipped iff some sibling has it. */
  lemma {:induction false} TypesOfMembers(sibs: seq<Invid>, typeOf: map<Invid, Option<Invid>>)
    requires TypesOf(sibs, typeOf).Returned?
    ensures forall t :: t in TypesOf(sibs, typeOf).value <==> exists y :: y in sibs && typeOf[y] == Some(t)
  {
    if sibs != [] {
      TypesOfMembers(sibs[1..], typeOf);
      assert forall y :: y in sibs <==> y == sibs[0] || y in sibs[1..];
    }
  }

  /** A type offered to the user, with its label. */
  datatype Row = Row(invid: Invid, text: string)

  function Rows(types: seq<Invid>, labelOf: Invid -> string): (r: seq<Row>)
    ensures |r| == |types| && forall i :: 0 <= i < |r| ==> r[i] == Row(types[i], labelOf(types[i]))
  {
    if types == [] then [] else [Row(types[0], labelOf(types[0]))] + Rows(types[1..], labelOf)
  }

  /** The rows of a list grown by one type grow by that type's row. */
  lemma RowsSnoc(types: seq<Invid>, k: int, labelOf: Invid -> string)
    requires 0 <= k < |types|
    ensures Rows(types[..k + 1], labelOf) == Rows(types[..k], labelOf) + [Row(types[k], labelOf(types[k]))]
  {
    var a := Rows(types[..k + 1], labelOf);
    var b := Rows(types[..k], labelOf) + [Row(types[k], labelOf(types[k]))];
    assert |a| == |b|;
    forall m | 0 <= m < |a| ensures a[m] == b[m] {
      assert types[..k + 1][m] == types[m];
      if m < k {
        assert types[..k][m] == types[m];
      }
    }
  }

  /** The whole TYPE choice list: the suggested types (None when the default list is null) that no sibling uses. */
  function TypeChoiceList(members: Option<seq<Invid>>, self: Invid, typeOf: map<Invid, Option<Invid>>,
                          suggested: Option<seq<Invid>>, labelOf: Invid -> string): Outcome<seq<Row>>
  {
    var sibs :- Siblings(members, self);
    var skip :- TypesOf(sibs, typeOf);
    if suggested.None? then Threw(NullPointer)
    else Returned(Rows(Minus(suggested.value, skip), labelOf))
  }

  /** Prefix what a list-valued outcome holds. */
  function Prefixed(p: seq<Invid>, r: Outcome<seq<Invid>>): Outcome<seq<Invid>> {
    if r.Returned? then Returned(p + r.value) else r
  }

  lemma PrefixedTwice(p: seq<Invid>, q: seq<Invid>, r: Outcome<seq<Invid>>)
    ensures Prefixed(p, Prefixed(q, r)) == Prefixed(p + q, r)
    ensures Prefixed([], r) == r
  {
    if r.Returned? {
      assert p + (q + r.value) == (p + q) + r.value;
      assert [] + r.value == r.value;
    }
  }

  /** One sibling's step of the loop: its type, if any, comes first. */
  lemma TypesOfStep(types: seq<Invid>, i: int, typeOf: map<Invid, Option<Invid>>)
    requires 0 <= i < |types| && types[i] in typeOf
    ensures TypesOf(types[i..], typeOf) ==
      Prefixed(if typeOf[types[i]].Some? then [typeOf[types[i]].value] else [], TypesOf(types[i + 1..], typeOf))
  {
    assert types[i..][0] == types[i] && types[i..][1..] == types[i + 1..];
  }

  /** A sibling that cannot be looked up makes the whole list throw. */
  lemma TypesOfMissing(types: seq<Invid>, i: int, typeOf: map<Invid, Option<Invid>>, skip: seq<Invid>)
    requires 0 <= i < |types| && types[i] !in typeOf
    ensures Prefixed(skip, TypesOf(types[i..], typeOf)) == Threw(NullPointer)
  {
    assert types[i..][0] == types[i];
  }

  /** Once the siblings' types are known, the list is decided by the default list alone. */
  lemma TypeChoiceListFrom(members: Option<seq<Invid>>, self: Invid, typeOf: map<Invid, Option<Invid>>,
                           suggested: Option<seq<Invid>>, labelOf: Invid -> string, skip: Outcome<seq<Invid>>)
    requires Siblings(members, self).Returned?
    requires TypesOf(Siblings(members, self).value, typeOf) == skip
    ensures skip.Threw? ==> TypeChoiceList(members, self, typeOf, suggested, labelOf) == Threw(skip.exc)
    ensures skip.Returned? && suggested.None? ==> TypeChoiceList(members, self, typeOf, suggested, labelOf) == Threw(NullPointer)
    ensures skip.Returned? && suggested.Some? ==>
      TypeChoiceList(members, self, typeOf, suggested, labelOf) == Returned(Rows(Minus(suggested.value, skip.value), labelOf))
  {
  }

  /**
   * obtainChoiceList for the type field: the loop collects the siblings'
   * types, the default list minus those is built into rows.
   */
  method ObtainTypeChoices(members: Option<seq<Invid>>, self: Invid, typeOf: map<Invid, Option<Invid>>,
                           suggested: Option<seq<Invid>>, labelOf: Invid -> string)
    returns (r: Outcome<seq<Row>>)
    ensures r == TypeChoiceList(members, self, typeOf, suggested, labelOf)
  {
    var sibs := Siblings(members, self);
    if sibs.Threw? {
      return Threw(sibs.exc);
    }
    var types := sibs.value;
    var skip: seq<Invid> := [];
    var i := 0;
    assert types[0..] == types;
    PrefixedTwice([], [], TypesOf(types, typeOf));
    while i < |types|
      invariant 0 <= i <= |types|
      invariant TypesOf(types, typeOf) == Prefixed(skip, TypesOf(types[i..], typeOf))
    {
      var y := types[i];
      if y !in typeOf {
        TypesOfMissing(types, i, typeOf, skip);
        TypeChoiceListFrom(members, self, typeOf, suggested, labelOf, TypesOf(types, typeOf));
        return Threw(NullPointer);
      }
      var here := if typeOf[y].Some? then [typeOf[y].value] else [];
      TypesOfStep(types, i, typeOf);
      PrefixedTwice(skip, here, TypesOf(types[i + 1..], typeOf));
      if typeOf[y].Some? {
        skip := skip + [typeOf[y].value];
      }
      i := i + 1;
    }
    assert types[i..] == [];
    assert skip + [] == skip;
    assert TypesOf(types, typeOf) == Returned(skip);
    TypeChoiceListFrom(members, self, typeOf, suggested, labelOf, Returned(skip));
    if suggested.None? {
      return Threw(NullPointer);
    }
    var acceptable := Minus(suggested.value, skip);
    var rows: seq<Row> := [];
    var k := 0;
    while k < |acceptable|
      invariant 0 <= k <= |acceptable|
      invariant rows == Rows(acceptable[..k], labelOf)
    {
      RowsSnoc(acceptable, k, labelOf);
      rows := rows + [Row(acceptable[k], labelOf(acceptable[k]))];
      k := k + 1;
    }
    assert acceptable[..k] == acceptable;
    r := Returned(rows);
  }

  /**
   * What the type choice list offers: exactly the suggested types that no
   * other member of the parent uses.
   */
  lemma ChoicesSkipSiblingTypes(members: seq<Invid>, self: Invid, typeOf: map<Invid, Option<Invid>>,
                                suggested: seq<Invid>, labelOf: Invid -> string)
    requires Distinct(members)
    requires forall y :: y in members && y != self ==> y in typeOf
    ensures TypeChoiceList(Some(members), self, typeOf, Some(suggested), labelOf).Returned?
    ensures forall t ::
      (exists row :: row in TypeChoiceList(Some(members), self, typeOf, Some(suggested), labelOf).value && row.invid == t)
      <==> t in suggested && !(exists y :: y in members && y != self && typeOf[y] == Some(t))
  {
    SiblingsAreOthers(members, self);
    var sibs := RemoveFirst(members, self);
    TypesOfMembers(sibs, typeOf);
    var skip := TypesOf(sibs, typeOf).value;
    MinusMembers(suggested, skip);
    var rows := Rows(Minus(suggested, skip), labelOf);
    forall t
      ensures (exists row :: row in rows && row.invid == t) <==> t in Minus(suggested, skip)
    {
      var acc := Minus(suggested, skip);
      if t in acc {
        var i :| 0 <= i < |acc| && acc[i] == t;
        assert rows[i] in rows && rows[i].invid == t;
      }
    }
  }

  /** Java's string conversion of a possibly null string. */
  function JavaString(s: Option<string>): string {
    if s.None? then "null" else s.value
  }

  /** The hidden label: the parent's label and the type's label joined by ':'. */
  function EntryLabel(parentLabel: Option<string>, typeLabel: Option<string>): (l: string)
    ensures |l| == |JavaString(parentLabel)| + 1 + |JavaString(typeLabel)|
    ensures l[..|JavaString(parentLabel)|] == JavaString(parentLabel)
    ensures l[|JavaString(parentLabel)|] == ':'
    ensures l[|JavaString(parentLabel)| + 1..] == JavaString(typeLabel)
  {
    JavaString(parentLabel) + ":" + JavaString(typeLabel)
  }

  /**
   * getEmbeddedObjectDisplayLabelHook: null for no object or one of
   * another type; otherwise "type:" when there is a type field, then the
   * value when there is a value field.  A getValueString that throws an
   * IllegalArgumentException stops the label there and appends "<?:?>".
   */
  function DisplayLabel(sameType: Option<bool>, typeString: Option<Outcome<string>>,
                        valueString: Option<Outcome<string>>): (r: Option<string>)
    ensures sameType.None? || !sameType.value <==> r.None?
    ensures sameType == Some(true) && typeString.Some? && typeString.value.Returned? &&
            valueString.Some? && valueString.value.Returned? ==>
      r == Some(typeString.value.value + ":" + valueString.value.value)
    ensures sameType == Some(true) && typeString.Some? && typeString.value.Threw? ==> r == Some("<?:?>")
  {
    if sameType.None? || !sameType.value then None
    else if typeString.Some? && typeString.value.Threw? then Some("<?:?>")
    else
      var head := if typeString.Some? then typeString.value.value + ":" else "";
      if valueString.Some? && valueString.value.Threw? then Some(head + "<?:?>")
      else Some(head + if valueString.Some? then valueString.value.value else "")
  }

  /** A group entry being committed: its status and its hidden label (the LABEL field). */
  class GroupEntry {
    const status: DBSessions.Status
    var hiddenLabel: Option<string>

    constructor(status: DBSessions.Status, hiddenLabel: Option<string>)
      ensures this.status == status && this.hiddenLabel == hiddenLabel
    {
      this.status := status;
      this.hiddenLabel := hiddenLabel;
    }

    /**
     * preCommitHook: nothing for an entry being deleted or dropped;
     * otherwise the hidden label is set from the parent's and the type's
     * labels, and setFieldValueLocal's reply is returned.  That reply is
     * the input setter: None is null (success), Some(Done) a successful
     * ReturnVal, and Some(Refused) a failure that keeps the old label and
     * blocks the commit.
     */
    method PreCommitHook(parentLabel: Option<string>, typeLabel: Option<string>, setter: Option<Reply>)
      returns (r: Option<Reply>)
      modifies this
      ensures status == DBSessions.Deleting || status == DBSessions.Dropping ==> r.None? && hiddenLabel == old(hiddenLabel)
      ensures status == DBSessions.Creating || status == DBSessions.Editing ==>
        r == setter &&
        hiddenLabel == (if setter == Some(Refused) then old(hiddenLabel) else Some(EntryLabel(parentLabel, typeLabel)))
    {
      if status == DBSessions.Deleting || status == DBSessions.Dropping {
        return None;
      }
      if setter != Some(Refused) {
        hiddenLabel := Some(JavaString(parentLabel) + ":" + JavaString(typeLabel));
      }
      r := setter;
    }
  }
}
