// The client's permission editor (perm_editor, PermRow, PermEditorModel):
// one row per object type and one per field of it, each holding the four
// permission bits in column order (visible, creatable, editable,
// deletable) and the four "OK" bits that say which of them the editing
// admin may change; the rules for which cells can be edited, how a change
// cascades from an object type's row to its field rows, and what is
// written back when OK is pressed.  The Swing tree, rendering and the
// progress dialog are not part of this model.
module PermEditor {
  import opened Wrappers
  import opened PermEntries

  /** A row's four bits, in the editor's column order V, C, E, D. */
  datatype Bits = Bits(view: bool, create: bool, edit: bool, delete: bool)

  const NoBits := Bits(false, false, false, false)
  const AllBits := Bits(true, true, true, true)

  /** b's bits all held in c. */
  predicate Implies(b: Bits, c: Bits) {
    (b.view ==> c.view) && (b.create ==> c.create) && (b.edit ==> c.edit) && (b.delete ==> c.delete)
  }

  function Or(a: Bits, b: Bits): Bits {
    Bits(a.view || b.view, a.create || b.create, a.edit || b.edit, a.delete || b.delete)
  }

  /** A PermEntry read into column order. */
  function EntryBits(e: PermEntry): (b: Bits)
    ensures b.view == e.view && b.create == e.create && b.edit == e.edit && b.delete == e.delete
  {
    Bits(e.view, e.create, e.edit, e.delete)
  }

  /** The PermEntry written back from a row: the constructor takes view, edit, create, delete. */
  function RowEntry(b: Bits): (e: PermEntry)
    ensures e.view == b.view && e.edit == b.edit && e.create == b.create && e.delete == b.delete
  {
    PermEntry(b.view, b.edit, b.create, b.delete)
  }

  /** Reading a row's bits back from what it writes gives the same bits, and the other way round. */
  lemma EntryRoundTrip(b: Bits, e: PermEntry)
    ensures EntryBits(RowEntry(b)) == b
    ensures RowEntry(EntryBits(e)) == e
  {
  }

  /** An object type's bits: all false when the matrix holds no entry for it. */
  function BaseBits(entry: Option<PermEntry>): (b: Bits)
    ensures entry.None? ==> b == NoBits
    ensures entry.Some? ==> b == EntryBits(entry.value)
  {
    if entry.None? then NoBits else EntryBits(entry.value)
  }

  /** A field's bits: those of its object type when the matrix holds no entry for the field. */
  function FieldBits(entry: Option<PermEntry>, base: Bits): (b: Bits)
    ensures entry.None? ==> b == base
    ensures entry.Some? ==> b == EntryBits(entry.value)
  {
    if entry.None? then base else EntryBits(entry.value)
  }

  /**
   * The OK bits.  template is None when there is no template matrix
   * (everything may be changed), Some(None) when the template has no entry
   * here (only what is already granted may change), and Some(Some(t))
   * otherwise (what the template grants, or what is already granted).
   */
  function OkBits(template: Option<Option<PermEntry>>, bits: Bits): (ok: Bits)
    ensures template.None? ==> ok == AllBits
    ensures template == Some(None) ==> ok == bits
    ensures template.Some? && template.value.Some? ==> ok == Or(EntryBits(template.value.value), bits)
  {
    match template
    case None => AllBits
    case Some(None) => bits
    case Some(Some(t)) => Or(EntryBits(t), bits)
  }

  /**
   * An admin may always reduce a permission that is already granted, and
   * beyond that may only grant what the template grants.
   */
  lemma OkBitsBounds(template: Option<Option<PermEntry>>, bits: Bits)
    ensures Implies(bits, OkBits(template, bits))
    ensures template.Some? ==>
      Implies(OkBits(template, bits), Or(if template.value.Some? then EntryBits(template.value.value) else NoBits, bits))
  {
  }

  /** A field of an object type as the schema and the two matrices describe it. */
  datatype FieldInfo = FieldInfo(id: int, builtIn: bool, entry: Option<PermEntry>, templateEntry: Option<PermEntry>)

  /** A field row as initRowTree creates it. */
  datatype FieldRow = FieldRow(id: int, bits: Bits, ok: Bits, enabled: bool)

  /** The row for one field: enabled iff its object type is visible. */
  function MakeFieldRow(f: FieldInfo, base: Bits, hasTemplate: bool): FieldRow {
    var bits := FieldBits(f.entry, base);
    FieldRow(f.id, bits, OkBits(if hasTemplate then Some(f.templateEntry) else None, bits), base.view)
  }

  /** The field rows of an object type: one per field that is not built in, in schema order. */
  function FieldRows(fields: seq<FieldInfo>, base: Bits, hasTemplate: bool): seq<FieldRow> {
    if fields == [] then []
    else
      var last := fields[|fields| - 1];
      FieldRows(fields[..|fields| - 1], base, hasTemplate) +
        (if last.builtIn then [] else [MakeFieldRow(last, base, hasTemplate)])
  }

  /** Exactly the fields that are not built in get a row, each with its object type's visibility as its enabled flag. */
  lemma {:induction false} FieldRowsMembers(fields: seq<FieldInfo>, base: Bits, hasTemplate: bool)
    ensures forall r :: r in FieldRows(fields, base, hasTemplate) <==>
      exists f :: f in fields && !f.builtIn && r == MakeFieldRow(f, base, hasTemplate)
    ensures forall r :: r in FieldRows(fields, base, hasTemplate) ==> r.enabled == base.view && Implies(r.bits, r.ok)
  {
    if fields != [] {
      var init := fields[..|fields| - 1];
      FieldRowsMembers(init, base, hasTemplate);
      assert forall f :: f in fields <==> f in init || f == fields[|fields| - 1];
      forall f | f in fields
        ensures Implies(MakeFieldRow(f, base, hasTemplate).bits, MakeFieldRow(f, base, hasTemplate).ok)
      {
        OkBitsBounds(if hasTemplate then Some(f.templateEntry) else None, FieldBits(f.entry, base));
      }
    }
  }

  /** The loop of initRowTree over one object type's fields. */
  method BuildFieldRows(fields: seq<FieldInfo>, base: Bits, hasTemplate: bool) returns (rows: seq<FieldRow>)
    ensures rows == FieldRows(fields, base, hasTemplate)
  {
    rows := [];
    var j := 0;
    while j < |fields|
      invariant 0 <= j <= |fields|
      invariant rows == FieldRows(fields[..j], base, hasTemplate)
    {
      assert fields[..j + 1][..j] == fields[..j];
      var f := fields[j];
      if !f.builtIn {
        var bits := if f.entry.None? then base else EntryBits(f.entry.value);
        var ok: Bits;
        if !hasTemplate {
          ok := AllBits;
        } else if f.templateEntry.None? {
          ok := bits;
        } else {
          ok := Or(EntryBits(f.templateEntry.value), bits);
        }
        rows := rows + [FieldRow(f.id, bits, ok, base.view)];
      }
      j := j + 1;
    }
    assert fields[..j] == fields;
  }

  /** The table's columns: the tree column and the four bits. */
  datatype Column = NameCol | VisibleCol | CreatableCol | EditableCol | DeletableCol

  /** The bit a column shows. */
  function Get(b: Bits, col: Column): bool
    requires col != NameCol
  {
    match col
    case VisibleCol => b.view
    case CreatableCol => b.create
    case EditableCol => b.edit
    case DeletableCol => b.delete
  }

  /** The bits with one column's bit replaced. */
  function Set(b: Bits, col: Column, v: bool): (r: Bits)
    requires col != NameCol
    ensures Get(r, col) == v
    ensures forall c :: c != NameCol && c != col ==> Get(r, c) == Get(b, c)
  {
    match col
    case VisibleCol => b.(view := v)
    case CreatableCol => b.(create := v)
    case EditableCol => b.(edit := v)
    case DeletableCol => b.(delete := v)
  }

  /** What a row holds that editing changes. */
  datatype RowState = RowState(bits: Bits, enabled: bool, changed: bool)

  /**
   * isCellEditable: the tree column always is; in a view-only editor
   * nothing else is; a disabled row is not, and neither is any bit but
   * visible of an object type's row that is not visible; otherwise a bit
   * is editable when its OK bit is set, and deletable only on an object
   * type's row.
   */
  function CellEditable(viewOnly: bool, isBase: bool, ok: Bits, s: RowState, col: Column): (r: bool)
    ensures col == NameCol ==> r
    ensures col != NameCol ==>
      (r <==> !viewOnly && s.enabled && (!isBase || s.bits.view || col == VisibleCol) && Get(ok, col) &&
              (col == DeletableCol ==> isBase))
  {
    if col == NameCol then true
    else if viewOnly then false
    else if !s.enabled || (isBase && !s.bits.view && col != VisibleCol) then false
    else
      match col
      case VisibleCol => ok.view
      case CreatableCol => ok.create
      case EditableCol => ok.edit
      case DeletableCol => ok.delete && isBase
  }

  /** A field row's deletable bit can never be edited, whatever else holds. */
  lemma FieldDeleteLocked(viewOnly: bool, ok: Bits, s: RowState)
    ensures !CellEditable(viewOnly, false, ok, s, DeletableCol)
  {
  }

  /**
   * setValueAt on the row itself: the bit is set and the row marked
   * changed; turning visible off also turns off each other bit whose OK bit
   * is set.  The tree column changes nothing.
   */
  function RowAfter(s: RowState, ok: Bits, col: Column, v: bool): (r: RowState)
    ensures col == NameCol ==> r == s
    ensures col != NameCol ==> r.changed && r.enabled == s.enabled && Get(r.bits, col) == v
    ensures col != NameCol && col != VisibleCol ==>
      forall c :: c != NameCol && c != col ==> Get(r.bits, c) == Get(s.bits, c)
    ensures col == VisibleCol && v ==> r.bits == s.bits.(view := true)
    ensures col == VisibleCol && !v ==>
      !r.bits.view &&
      r.bits.create == (s.bits.create && !ok.create) &&
      r.bits.edit == (s.bits.edit && !ok.edit) &&
      r.bits.delete == (s.bits.delete && !ok.delete)
  {
    if col == NameCol then s
    else
      var b := Set(s.bits, col, v);
      var b' :=
        if col == VisibleCol && !v then
          Bits(false, if ok.create then false else b.create, if ok.edit then false else b.edit,
               if ok.delete then false else b.delete)
        else b;
      RowState(b', s.enabled, true)
  }

  /**
   * setBaseChildren for one child row: visible sets the bit and the
   * enabled flag together (and a disabled row loses all four bits); the
   * other columns set their bit.  A child whose OK bit for the column is
   * not set is left alone.
   */
  function ChildAfter(s: RowState, ok: Bits, col: Column, v: bool): (r: RowState)
    ensures col == NameCol || !Get(ok, col) ==> r == s
    ensures col == VisibleCol && ok.view ==>
      r.changed && r.enabled == v && (v ==> r.bits == s.bits.(view := true)) && (!v ==> r.bits == NoBits)
    ensures col != NameCol && col != VisibleCol && Get(ok, col) ==>
      r == RowState(Set(s.bits, col, v), s.enabled, true)
  {
    if col == NameCol || !Get(ok, col) then s
    else if col == VisibleCol then
      if v then RowState(s.bits.(view := true), true, true) else RowState(NoBits, false, true)
    else RowState(Set(s.bits, col, v), s.enabled, true)
  }

  /** The columns setValueAt cascades to a row's children, given the row after its own update. */
  function CascadeCols(isBase: bool, after: RowState, col: Column): (cols: seq<Column>)
    ensures !isBase ==> cols == []
    ensures DeletableCol !in cols && NameCol !in cols
    ensures VisibleCol in cols ==> col == VisibleCol
  {
    if !isBase then []
    else
      match col
      case VisibleCol =>
        [VisibleCol] + (if after.bits.create then [CreatableCol] else []) + (if after.bits.edit then [EditableCol] else [])
      case CreatableCol => if after.bits.view then [CreatableCol] else []
      case EditableCol => if after.bits.view then [EditableCol] else []
      case _ => []
  }

  /** A child row after setBaseChildren has run for each column in turn. */
  function ChildCascade(s: RowState, ok: Bits, cols: seq<Column>, v: bool): RowState
    decreases |cols|
  {
    if cols == [] then s else ChildCascade(ChildAfter(s, ok, cols[0], v), ok, cols[1..], v)
  }

  /**
   * Hiding an object type's row hides, disables and clears every child row
   * that may be made visible, and marks it changed.
   */
  lemma HidingBaseClearsChildren(ok: Bits, rowOk: Bits, row: RowState, child: RowState)
    requires ok.view
    ensures ChildCascade(child, ok, CascadeCols(true, RowAfter(row, rowOk, VisibleCol, false), VisibleCol), false) ==
      RowState(NoBits, false, true)
  {
    var cols := CascadeCols(true, RowAfter(row, rowOk, VisibleCol, false), VisibleCol);
    var c1 := ChildAfter(child, ok, VisibleCol, false);
    assert c1 == RowState(NoBits, false, true);
    assert cols[0] == VisibleCol;
    ClearedStaysCleared(ok, cols[1..]);
  }

  /** A cleared, disabled row stays so under the creatable and editable cascades with false. */
  lemma {:induction false} ClearedStaysCleared(ok: Bits, cols: seq<Column>)
    requires forall i :: 0 <= i < |cols| ==> cols[i] == CreatableCol || cols[i] == EditableCol
    ensures ChildCascade(RowState(NoBits, false, true), ok, cols, false) == RowState(NoBits, false, true)
  {
    if cols != [] {
      assert ChildAfter(RowState(NoBits, false, true), ok, cols[0], false) == RowState(NoBits, false, true);
      ClearedStaysCleared(ok, cols[1..]);
    }
  }

  /** Showing an object type's row makes every child row that may be visible visible and enabled. */
  lemma ShowingBaseShowsChildren(ok: Bits, rowOk: Bits, row: RowState, child: RowState)
    requires ok.view
    ensures var r := ChildCascade(child, ok, CascadeCols(true, RowAfter(row, rowOk, VisibleCol, true), VisibleCol), true);
      r.bits.view && r.enabled && r.changed
  {
    var cols := CascadeCols(true, RowAfter(row, rowOk, VisibleCol, true), VisibleCol);
    ShownStaysShown(ChildAfter(child, ok, VisibleCol, true), ok, cols[1..]);
  }

  /** The creatable and editable cascades keep a row's visible bit and enabled flag. */
  lemma {:induction false} ShownStaysShown(s: RowState, ok: Bits, cols: seq<Column>)
    requires s.bits.view && s.enabled && s.changed
    requires forall i :: 0 <= i < |cols| ==> cols[i] == CreatableCol || cols[i] == EditableCol
    decreases |cols|
    ensures var r := ChildCascade(s, ok, cols, true); r.bits.view && r.enabled && r.changed
  {
    if cols != [] {
      ShownStaysShown(ChildAfter(s, ok, cols[0], true), ok, cols[1..]);
    }
  }

  /** Running the cascade for one more column. */
  lemma {:induction false} CascadeAppend(s: RowState, ok: Bits, cols: seq<Column>, col: Column, v: bool)
    ensures ChildCascade(s, ok, cols + [col], v) == ChildAfter(ChildCascade(s, ok, cols, v), ok, col, v)
    decreases |cols|
  {
    if cols == [] {
      assert [] + [col] == [col];
    } else {
      assert (cols + [col])[1..] == cols[1..] + [col];
      CascadeAppend(ChildAfter(s, ok, cols[0], v), ok, cols[1..], col, v);
    }
  }

  /** A row of the editor. */
  class PermRow {
    const isBase: bool
    const baseId: int
    const fieldId: int
    const ok: Bits
    var bits: Bits
    var enabled: bool
    var changed: bool

    constructor(isBase: bool, baseId: int, fieldId: int, bits: Bits, ok: Bits, enabled: bool)
      ensures this.isBase == isBase && this.baseId == baseId && this.fieldId == fieldId
      ensures this.bits == bits && this.ok == ok && this.enabled == enabled && !changed
    {
      this.isBase := isBase;
      this.baseId := baseId;
      this.fieldId := fieldId;
      this.bits := bits;
      this.ok := ok;
      this.enabled := enabled;
      changed := false;
    }

    function State(): RowState
      reads this
    {
      RowState(bits, enabled, changed)
    }

    method SetState(s: RowState)
      modifies this
      ensures State() == s
    {
      bits := s.bits;
      enabled := s.enabled;
      changed := s.changed;
    }
  }

  /** The tree-table model: whether the editor only shows permissions. */
  class PermEditorModel {
    const viewOnly: bool

    constructor(viewOnly: bool)
      ensures this.viewOnly == viewOnly
    {
      this.viewOnly := viewOnly;
    }

    function IsCellEditable(row: PermRow, col: Column): bool
      reads row
    {
      CellEditable(viewOnly, row.isBase, row.ok, row.State(), col)
    }

    /** setBaseChildren: one column's update applied to each child row in turn. */
    method SetBaseChildren(children: seq<PermRow>, col: Column, v: bool)
      requires forall i, j :: 0 <= i < j < |children| ==> children[i] != children[j]
      modifies set c | c in children
      ensures forall c :: c in children ==> c.State() == ChildAfter(old(c.State()), c.ok, col, v)
    {
      var i := 0;
      while i < |children|
        invariant 0 <= i <= |children|
        invariant forall k :: 0 <= k < i ==> children[k].State() == ChildAfter(old(children[k].State()), children[k].ok, col, v)
        invariant forall k :: i <= k < |children| ==> children[k].State() == old(children[k].State())
      {
        var c := children[i];
        var s := c.State();
        if col == VisibleCol && c.ok.view {
          c.bits := c.bits.(view := v);
          c.enabled := v;
          if !c.enabled {
            c.bits := NoBits;
          }
          c.changed := true;
        } else if col == CreatableCol && c.ok.create {
          c.bits := c.bits.(create := v);
          c.changed := true;
        } else if col == EditableCol && c.ok.edit {
          c.bits := c.bits.(edit := v);
          c.changed := true;
        } else if col == DeletableCol && c.ok.delete {
          c.bits := c.bits.(delete := v);
          c.changed := true;
        }
        assert c.State() == ChildAfter(s, c.ok, col, v);
        i := i + 1;
      }
    }

    /** The row's own part of setValueAt. */
    method UpdateRow(row: PermRow, col: Column, v: bool)
      modifies row
      ensures row.State() == RowAfter(old(row.State()), row.ok, col, v)
    {
      if col == NameCol {
        return;
      }
      row.bits := Set(row.bits, col, v);
      if col == VisibleCol && !v {
        if row.ok.create {
          row.bits := row.bits.(create := false);
        }
        if row.ok.edit {
          row.bits := row.bits.(edit := false);
        }
        if row.ok.delete {
          row.bits := row.bits.(delete := false);
        }
      }
      row.changed := true;
    }

    /** The children's part of setValueAt, given the row as updated. */
    method CascadeToChildren(row: PermRow, children: seq<PermRow>, col: Column, v: bool)
      requires row !in children
      requires forall i, j :: 0 <= i < j < |children| ==> children[i] != children[j]
      modifies set c | c in children
      ensures forall c :: c in children ==>
        c.State() == ChildCascade(old(c.State()), c.ok, CascadeCols(row.isBase, row.State(), col), v)
    {
      ghost var cols := CascadeCols(row.isBase, row.State(), col);
      if !row.isBase || col == NameCol || col == DeletableCol {
        return;
      }
      if col == VisibleCol {
        SetBaseChildren(children, VisibleCol, v);
        ghost var done := [VisibleCol];
        if row.bits.create {
          SetBaseChildren(children, CreatableCol, v);
          forall c | c in children
            ensures c.State() == ChildCascade(old(c.State()), c.ok, done + [CreatableCol], v)
          {
            CascadeAppend(old(c.State()), c.ok, done, CreatableCol, v);
          }
          done := done + [CreatableCol];
        }
        if row.bits.edit {
          SetBaseChildren(children, EditableCol, v);
          forall c | c in children
            ensures c.State() == ChildCascade(old(c.State()), c.ok, done + [EditableCol], v)
          {
            CascadeAppend(old(c.State()), c.ok, done, EditableCol, v);
          }
          done := done + [EditableCol];
        }
        assert done == cols;
      } else if row.bits.view {
        SetBaseChildren(children, col, v);
      }
    }

    /**
     * setValueAt: the row is updated, and an object type's row passes the
     * change on to its field rows.
     */
    method SetValueAt(row: PermRow, children: seq<PermRow>, col: Column, v: bool)
      requires row !in children
      requires forall i, j :: 0 <= i < j < |children| ==> children[i] != children[j]
      modifies row, set c | c in children
      ensures row.State() == RowAfter(old(row.State()), row.ok, col, v)
      ensures forall c :: c in children ==>
        c.State() == ChildCascade(old(c.State()), c.ok, CascadeCols(row.isBase, row.State(), col), v)
    {
      UpdateRow(row, col, v);
      CascadeToChildren(row, children, col, v);
    }
  }

  /** The setPerm call written back for a row. */
  datatype SetPerm = SetBasePerm(base: int, entry: PermEntry) | SetFieldPerm(base: int, field: int, entry: PermEntry)

  function Call(isBase: bool, baseId: int, fieldId: int, bits: Bits): (c: SetPerm)
    ensures c.entry == RowEntry(bits) && c.base == baseId
    ensures isBase <==> c.SetBasePerm?
    ensures !isBase ==> c.field == fieldId
  {
    if isBase then SetBasePerm(baseId, RowEntry(bits)) else SetFieldPerm(baseId, fieldId, RowEntry(bits))
  }

  function RowCall(r: PermRow): SetPerm
    reads r
  {
    Call(r.isBase, r.baseId, r.fieldId, r.bits)
  }

  /** What pressing OK writes back, over the rows in tree order. */
  function WriteBack(rows: seq<PermRow>): seq<SetPerm>
    reads set r | r in rows
  {
    if rows == [] then []
    else
      var last := rows[|rows| - 1];
      WriteBack(rows[..|rows| - 1]) + (if last.changed then [RowCall(last)] else [])
  }

  /** Exactly the changed rows are written back, each as its own PermEntry. */
  lemma {:induction false} WriteBackChangedOnly(rows: seq<PermRow>)
    ensures forall c :: c in WriteBack(rows) <==> exists r :: r in rows && r.changed && c == RowCall(r)
  {
    if rows != [] {
      var init := rows[..|rows| - 1];
      WriteBackChangedOnly(init);
      assert forall r :: r in rows <==> r in init || r == rows[|rows| - 1];
    }
  }

  /**
   * actionPerformed for the OK button: each changed row is written back;
   * somethingChanged reports whether the client was told that anything
   * changed.
   */
  method PressOk(rows: seq<PermRow>) returns (calls: seq<SetPerm>, somethingChanged: bool)
    ensures calls == WriteBack(rows)
    ensures somethingChanged <==> exists r :: r in rows && r.changed
  {
    calls := [];
    somethingChanged := false;
    var i := 0;
    while i < |rows|
      invariant 0 <= i <= |rows|
      invariant calls == WriteBack(rows[..i])
      invariant somethingChanged <==> exists r :: r in rows[..i] && r.changed
    {
      assert rows[..i + 1][..i] == rows[..i];
      assert forall r :: r in rows[..i + 1] <==> r in rows[..i] || r == rows[i];
      var ref := rows[i];
      if ref.changed {
        somethingChanged := true;
        calls := calls + [Call(ref.isBase, ref.baseId, ref.fieldId, ref.bits)];
      }
      i := i + 1;
    }
    assert rows[..i] == rows;
  }
}
