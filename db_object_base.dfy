// An object type of the database (DBObjectBase) as the schema editor sees
// it: the object-id counter, the table of field definitions with the
// display order of the custom fields, the naming of new fields, renaming
// and the choice of label field.
module ObjectBases {
  import opened Wrappers
  import opened JavaLang
  import opened Seqs
  import opened FreshNames
  import VecQuickSort

  /** A field definition (DBObjectBaseField), reduced to its id and name. */
  datatype FieldDef = FieldDef(id: JShort, name: string)

  // ---------------------------------------------------------------- field table

  /** No two entries of the field table share an id: it is a Hashtable keyed by id. */
  ghost predicate UniqueIds(t: seq<FieldDef>) {
    forall i, j :: 0 <= i < j < |t| ==> t[i].id != t[j].id
  }

  /** The names of the table's entries, in its enumeration order. */
  function Names(t: seq<FieldDef>): (r: seq<string>)
    ensures |r| == |t| && forall i :: 0 <= i < |t| ==> r[i] == t[i].name
  {
    if t == [] then [] else Names(t[..|t| - 1]) + [t[|t| - 1].name]
  }

  /** fieldTable.get(id). */
  function LookupId(t: seq<FieldDef>, id: int): (r: Option<FieldDef>)
    ensures r.None? <==> forall g :: g in t ==> g.id != id
    ensures r.Some? ==> r.value in t && r.value.id == id
  {
    if t == [] then None else if t[0].id == id then Some(t[0]) else LookupId(t[1..], id)
  }

  /**
   * getField(name): the first entry of the table's enumeration whose name
   * equals name.
   */
  function LookupName(t: seq<FieldDef>, name: string): (r: Option<FieldDef>)
    ensures r.None? <==> forall g :: g in t ==> g.name != name
    ensures r.Some? ==> r.value in t && r.value.name == name
  {
    if t == [] then None else if t[0].name == name then Some(t[0]) else LookupName(t[1..], name)
  }

  /** fieldTable.put(f): replaces the entry with f's id, or else adds f. */
  function Put(t: seq<FieldDef>, f: FieldDef): (r: seq<FieldDef>)
    ensures f in r
    ensures forall g :: g in r ==> g == f || g in t
    ensures forall g :: g in t && g.id != f.id ==> g in r
  {
    if t == [] then [f] else if t[0].id == f.id then [f] + t[1..] else [t[0]] + Put(t[1..], f)
  }

  lemma {:induction false} PutUnique(t: seq<FieldDef>, f: FieldDef)
    requires UniqueIds(t)
    ensures UniqueIds(Put(t, f))
  {
    if t != [] {
      assert UniqueIds(t[1..]) by {
        forall i, j | 0 <= i < j < |t[1..]| ensures t[1..][i].id != t[1..][j].id {
          assert t[1..][i] == t[i + 1] && t[1..][j] == t[j + 1];
        }
      }
      if t[0].id == f.id {
        var r := [f] + t[1..];
        forall i, j | 0 <= i < j < |r| ensures r[i].id != r[j].id {
          assert r[j] == t[j];
          if i > 0 {
            assert r[i] == t[i];
          }
        }
      } else {
        PutUnique(t[1..], f);
        var r := [t[0]] + Put(t[1..], f);
        forall i, j | 0 <= i < j < |r| ensures r[i].id != r[j].id {
          if i == 0 {
            assert r[j] in Put(t[1..], f);
            if r[j] != f {
              var k :| 0 <= k < |t[1..]| && t[1..][k] == r[j];
              assert t[k + 1] == r[j];
            }
          }
        }
      }
    }
  }

  /** fieldTable.remove(id). */
  function RemoveId(t: seq<FieldDef>, id: int): (r: seq<FieldDef>)
    ensures forall g :: g in r <==> g in t && g.id != id
  {
    if t == [] then [] else (if t[0].id == id then [] else [t[0]]) + RemoveId(t[1..], id)
  }

  lemma {:induction false} RemoveIdUnique(t: seq<FieldDef>, id: int)
    requires UniqueIds(t)
    ensures UniqueIds(RemoveId(t, id))
  {
    if t != [] {
      assert UniqueIds(t[1..]) by {
        forall i, j | 0 <= i < j < |t[1..]| ensures t[1..][i].id != t[1..][j].id {
          assert t[1..][i] == t[i + 1] && t[1..][j] == t[j + 1];
        }
      }
      RemoveIdUnique(t[1..], id);
      var rest := RemoveId(t[1..], id);
      var r := (if t[0].id == id then [] else [t[0]]) + rest;
      if t[0].id != id {
        forall i, j | 0 <= i < j < |r| ensures r[i].id != r[j].id {
          if i == 0 {
            assert r[j] == rest[j - 1] && r[j] in t[1..];
            var k :| 0 <= k < |t[1..]| && t[1..][k] == r[j];
            assert t[k + 1] == r[j];
          } else {
            assert r[i] == rest[i - 1] && r[j] == rest[j - 1];
          }
        }
      }
    }
  }

  /** An entry is taken as a name exactly when getField finds it. */
  lemma TakenIffFound(t: seq<FieldDef>, name: string)
    ensures Taken(name, Names(t), n => n) <==> LookupName(t, name).Some?
  {
    var ns := Names(t);
    if LookupName(t, name).Some? {
      var g := LookupName(t, name).value;
      var k :| 0 <= k < |t| && t[k] == g;
      assert ns[k] in ns && ns[k] == name;
    }
    if Taken(name, ns, n => n) {
      var m :| m in ns && m == name;
      var k :| 0 <= k < |ns| && ns[k] == m;
      assert t[k] in t && t[k].name == name;
    }
  }

  // ---------------------------------------------------------------- field ids

  /**
   * The loop of getNextFieldID over the table's enumeration: start at 256
   * and, whenever an id is at least the current candidate, move to that id
   * plus one, narrowed to a short.
   */
  function NextFieldIdAfter(ids: seq<JShort>): JShort {
    if ids == [] then 256
    else
      var id := NextFieldIdAfter(ids[..|ids| - 1]);
      if ids[|ids| - 1] >= id then ShortCast(ids[|ids| - 1] as int + 1) else id
  }

  function Ids(t: seq<FieldDef>): (r: seq<JShort>)
    ensures |r| == |t| && forall i :: 0 <= i < |t| ==> r[i] == t[i].id
  {
    if t == [] then [] else Ids(t[..|t| - 1]) + [t[|t| - 1].id]
  }

  /** One more pass of the getNextFieldID loop, over entry i of the table. */
  lemma NextFieldIdStep(t: seq<FieldDef>, i: nat)
    requires i < |t|
    ensures var id := NextFieldIdAfter(Ids(t[..i]));
      NextFieldIdAfter(Ids(t[..i + 1])) == if t[i].id >= id then ShortCast(t[i].id as int + 1) else id
  {
    var ids := Ids(t[..i + 1]);
    assert t[..i + 1][..i] == t[..i];
    assert ids[..|ids| - 1] == Ids(t[..i]);
  }

  /**
   * While no id reaches Short.MAX_VALUE, getNextFieldID is the larger of
   * 256 and one more than the largest id.
   */
  lemma {:induction false} NextFieldIdIsMax(ids: seq<JShort>)
    requires forall i :: 0 <= i < |ids| ==> ids[i] < 0x7fff
    ensures NextFieldIdAfter(ids) >= 256
    ensures forall i :: 0 <= i < |ids| ==> ids[i] < NextFieldIdAfter(ids)
    ensures NextFieldIdAfter(ids) == 256 || NextFieldIdAfter(ids) - 1 in ids
  {
    if ids != [] {
      var init := ids[..|ids| - 1];
      NextFieldIdIsMax(init);
      assert forall i :: 0 <= i < |init| ==> init[i] == ids[i];
      if NextFieldIdAfter(init) != 256 {
        assert NextFieldIdAfter(init) - 1 in init;
        var k :| 0 <= k < |init| && init[k] == NextFieldIdAfter(init) - 1;
        assert ids[k] == init[k];
      }
    }
  }

  /** As written, a field with id Short.MAX_VALUE sends the next id round to a negative short. */
  lemma NextFieldIdWraps()
    ensures NextFieldIdAfter([0x7fff]) == -0x8000
  {
    assert [0x7fff as JShort][..0] == [];
  }

  // ---------------------------------------------------------------- display order

  /**
   * The comparator VecQuickSort is given when an old database file is read:
   * as written its second test repeats the first with the operands exchanged,
   * so it answers -1 when a is below b and 0 otherwise.
   */
  function DisplayCompare(a: int, b: int): int {
    if a < b then -1 else if b > a then 1 else 0
  }

  lemma DisplayCompareNeverAbove(a: int, b: int)
    ensures DisplayCompare(a, b) <= 0
    ensures DisplayCompare(a, b) == -1 <==> a < b
  {
  }

  /** So the comparator is not antisymmetric, as the quicksort's contract needs. */
  lemma DisplayCompareNotAntisymmetric()
    ensures !VecQuickSort.Antisymmetric((a: int, b: int) => DisplayCompare(a, b))
  {
    var cmp := (a: int, b: int) => DisplayCompare(a, b);
    assert cmp(0, 1) < 0 && !(cmp(1, 0) > 0);
  }

  /** The comparison evidently intended: -1, 0 or 1 as a is below, equal to or above b. */
  function DisplayOrderCompare(a: int, b: int): (r: int)
    ensures r < 0 <==> a < b
    ensures r > 0 <==> a > b
  {
    if a < b then -1 else if a > b then 1 else 0
  }

  lemma DisplayOrderComparePreorder()
    ensures VecQuickSort.IsTotalPreorder((a: int, b: int) => DisplayOrderCompare(a, b))
  {
  }

  // ---------------------------------------------------------------- names

  /** The characters StringUtils.strip keeps in a base name. */
  predicate NameChar(c: char) {
    ('a' <= c <= 'z') || ('A' <= c <= 'Z') || ('0' <= c <= '9') || c == ' ' || c == '.' || c == '-'
  }

  predicate AllNameChars(s: string) {
    forall k :: 0 <= k < |s| ==> NameChar(s[k])
  }

  /** StringUtils.strip(s, allowed): the characters of s that are allowed, in order. */
  function KeepNameChars(s: string): (r: string)
    ensures |r| <= |s|
    ensures AllNameChars(r)
    ensures forall k :: 0 <= k < |s| && NameChar(s[k]) ==> s[k] in r
  {
    if s == [] then []
    else (if NameChar(s[0]) then [s[0]] else []) + KeepNameChars(s[1..])
  }

  /** Stripping keeps each allowed character as often as the name holds it, and nothing else. */
  lemma {:induction false} KeepNameCharsCounts(s: string)
    ensures forall c :: multiset(KeepNameChars(s))[c] == if NameChar(c) then multiset(s)[c] else 0
  {
    if s != [] {
      assert s == [s[0]] + s[1..];
      KeepNameCharsCounts(s[1..]);
    }
  }

  /**
   * Stripping keeps the order of the name: the kept characters of a + b
   * are those of a followed by those of b.
   */
  lemma {:induction false} KeepNameCharsAppend(a: string, b: string)
    ensures KeepNameChars(a + b) == KeepNameChars(a) + KeepNameChars(b)
  {
    if a == [] {
      assert a + b == b;
    } else {
      var head: string := if NameChar(a[0]) then [a[0]] else [];
      assert (a + b)[0] == a[0] && (a + b)[1..] == a[1..] + b;
      KeepNameCharsAppend(a[1..], b);
      calc {
        KeepNameChars(a + b);
        head + KeepNameChars(a[1..] + b);
        head + (KeepNameChars(a[1..]) + KeepNameChars(b));
        (head + KeepNameChars(a[1..])) + KeepNameChars(b);
        KeepNameChars(a) + KeepNameChars(b);
      }
    }
  }

  /** The name setName tries: stripped, trimmed, and prefixed for an embedded base. */
  function ProposedName(newName: string, embedded: bool): (r: string)
    ensures embedded ==> StartsWith(r, "Embedded ")
  {
    EmbeddedName(Trim(KeepNameChars(newName)), embedded)
  }

  /** An embedded base's name starts with "Embedded ". */
  function EmbeddedName(stripped: string, embedded: bool): (r: string)
    ensures embedded ==> StartsWith(r, EmbeddedPrefix)
    ensures !embedded ==> r == stripped
  {
    if embedded && !StartsWith(stripped, EmbeddedPrefix) then EmbeddedPrefix + stripped else stripped
  }

  const EmbeddedPrefix := "Embedded "


  /** Trimming only drops characters. */
  lemma TrimKeepsNameChars(s: string)
    requires AllNameChars(s)
    ensures AllNameChars(Trim(s))
  {
    var lead := TrimLeading(s);
    var t := TrimTrailing(lead);
    assert Trim(s) == t;
    forall k | 0 <= k < |t| ensures NameChar(t[k]) {
      assert t[k] == lead[k];
      assert lead[k] == s[|s| - |lead| + k];
    }
  }

  /** The proposed name holds only allowed characters. */
  lemma ProposedNameClean(newName: string, embedded: bool)
    ensures AllNameChars(ProposedName(newName, embedded))
  {
    var t := Trim(KeepNameChars(newName));
    TrimKeepsNameChars(KeepNameChars(newName));
    if ProposedName(newName, embedded) != t {
      PrefixKeepsNameChars(t);
    }
  }

  lemma PrefixKeepsNameChars(t: string)
    requires AllNameChars(t)
    ensures AllNameChars("Embedded " + t)
  {
    var e := "Embedded ";
    assert AllNameChars(e);
    var r := e + t;
    forall k | 0 <= k < |r| ensures NameChar(r[k]) {
      if k < |e| {
        assert r[k] == e[k];
      } else {
        assert r[k] == t[k - |e|];
      }
    }
  }

  /** The proposed name of a plain base has no leading or trailing blank. */
  lemma ProposedNameTrimmed(newName: string)
    ensures var r := ProposedName(newName, false);
      r != [] ==> r[0] > ' ' && r[|r| - 1] > ' '
  {
  }

  lemma TrimClean(s: string)
    requires s == [] || (s[0] > ' ' && s[|s| - 1] > ' ')
    ensures Trim(s) == s
  {
  }

  lemma KeepClean(s: string)
    requires AllNameChars(s)
    ensures KeepNameChars(s) == s
  {
    if s != [] {
      KeepClean(s[1..]);
      assert s == [s[0]] + s[1..];
    }
  }

  /** Renaming a plain base to the name it was given leaves that name as it is. */
  lemma ProposedNameIdempotent(newName: string)
    ensures ProposedName(ProposedName(newName, false), false) == ProposedName(newName, false)
  {
    var r := ProposedName(newName, false);
    ProposedNameClean(newName, false);
    ProposedNameTrimmed(newName);
    KeepClean(r);
    TrimClean(r);
  }

  // ---------------------------------------------------------------- display order edits

  /**
   * The display order after moveFieldAfter: the field is taken out
   * (removeElement) and put back at the front, or right after the first
   * remaining occurrence of prev (insertElementAt(indexOf(prev) + 1)).
   */
  function MovedAfter(order: seq<JShort>, id: JShort, prev: Option<JShort>): seq<JShort> {
    var c := RemoveFirst(order, id);
    var k := if prev.None? then 0 else FirstIndex(c, prev.value) + 1;
    c[..k] + [id] + c[k..]
  }

  /**
   * The display order after moveFieldBefore, or None where insertElementAt
   * is handed the index -1 because next is no longer present.
   */
  function MovedBefore(order: seq<JShort>, id: JShort, next: Option<JShort>): Option<seq<JShort>> {
    var c := RemoveFirst(order, id);
    if next.None? then Some(c + [id])
    else
      var k := FirstIndex(c, next.value);
      if k == -1 then None else Some(c[..k] + [id] + c[k..])
  }

  /**
   * The neighbour a move is relative to: Some(None) for a null or empty
   * name, Some(Some(id)) for a custom field found by name, and None (an
   * error dialog) for a name that is not a custom field.
   */
  function Anchor(t: seq<FieldDef>, order: seq<JShort>, neighbour: Option<string>): (a: Option<Option<JShort>>)
    ensures a == Some(None) <==> neighbour.None? || neighbour.value == ""
    ensures a.Some? && a.value.Some? ==> a.value.value in order
  {
    if neighbour.None? || neighbour.value == "" then Some(None)
    else
      var g := LookupName(t, neighbour.value);
      if g.None? || g.value.id !in order then None else Some(Some(g.value.id))
  }

  /** The others keep their relative order and the order stays free of repeats. */
  ghost predicate Reordered(order: seq<JShort>, id: JShort, r: seq<JShort>) {
    RemoveFirst(r, id) == RemoveFirst(order, id) && Distinct(r) && id in r
  }

  lemma {:induction false} PlaceFacts(order: seq<JShort>, id: JShort, k: int)
    requires Distinct(order) && 0 <= k <= |RemoveFirst(order, id)|
    ensures var c := RemoveFirst(order, id);
      Reordered(order, id, c[..k] + [id] + c[k..]) && FirstIndex(c[..k] + [id] + c[k..], id) == k
  {
    var c := RemoveFirst(order, id);
    RemoveFirstGone(order, id);
    InsertFacts(c, id, k);
    InsertDistinct(c, id, k);
  }

  /** moveFieldAfter with no previous field: the field comes first. */
  lemma MovedAfterFront(order: seq<JShort>, id: JShort)
    requires Distinct(order)
    ensures Reordered(order, id, MovedAfter(order, id, None))
    ensures MovedAfter(order, id, None)[0] == id
  {
    PlaceFacts(order, id, 0);
  }

  /** moveFieldAfter(f, p): f comes right after p, the others as they were. */
  lemma MovedAfterPlaced(order: seq<JShort>, id: JShort, p: JShort)
    requires Distinct(order) && p in order && p != id
    ensures var r := MovedAfter(order, id, Some(p));
      Reordered(order, id, r) && FirstIndex(r, id) == FirstIndex(r, p) + 1
  {
    var c := RemoveFirst(order, id);
    RemoveFirstGone(order, id);
    assert p in c;
    var k := FirstIndex(c, p) + 1;
    assert 0 < k <= |c| && c[k - 1] == p;
    PlaceFacts(order, id, k);
    InsertNeighbours(c, id, k);
  }

  /** As written, moving a field after itself moves it to the front. */
  lemma MovedAfterSelf(order: seq<JShort>, id: JShort)
    requires Distinct(order) && id in order
    ensures MovedAfter(order, id, Some(id)) == MovedAfter(order, id, None)
  {
    RemoveFirstGone(order, id);
  }

  /** moveFieldBefore with no next field: the field comes last. */
  lemma MovedBeforeEnd(order: seq<JShort>, id: JShort)
    requires Distinct(order)
    ensures MovedBefore(order, id, None).Some?
    ensures var r := MovedBefore(order, id, None).value;
      Reordered(order, id, r) && r[|r| - 1] == id
  {
    var c := RemoveFirst(order, id);
    PlaceFacts(order, id, |c|);
    assert c[..|c|] + [id] + c[|c|..] == c + [id];
  }

  /** moveFieldBefore(f, n): f comes right before n, the others as they were. */
  lemma MovedBeforePlaced(order: seq<JShort>, id: JShort, n: JShort)
    requires Distinct(order) && n in order && n != id
    ensures MovedBefore(order, id, Some(n)).Some?
    ensures var r := MovedBefore(order, id, Some(n)).value;
      Reordered(order, id, r) && FirstIndex(r, id) + 1 == FirstIndex(r, n)
  {
    var c := RemoveFirst(order, id);
    RemoveFirstGone(order, id);
    assert n in c;
    var k := FirstIndex(c, n);
    assert 0 <= k < |c| && c[k] == n;
    PlaceFacts(order, id, k);
    InsertNeighbours(c, id, k);
    assert MovedBefore(order, id, Some(n)) == Some(c[..k] + [id] + c[k..]);
  }

  /** As written, moving a field before itself finds no place to insert it. */
  lemma MovedBeforeSelf(order: seq<JShort>, id: JShort)
    requires Distinct(order) && id in order
    ensures MovedBefore(order, id, Some(id)).None?
  {
    RemoveFirstGone(order, id);
  }

  /** moveFieldBefore as intended: moving a field before itself changes nothing. */
  function MovedBeforeCorrected(order: seq<JShort>, id: JShort, next: Option<JShort>): (r: seq<JShort>)
    requires Distinct(order) && (next.Some? ==> next.value in order)
    ensures next == Some(id) ==> r == order
    ensures next != Some(id) ==> Some(r) == MovedBefore(order, id, next)
  {
    if next == Some(id) then order
    else if next.None? then
      MovedBeforeEnd(order, id);
      MovedBefore(order, id, next).value
    else
      MovedBeforePlaced(order, id, next.value);
      MovedBefore(order, id, next).value
  }

  /** The corrected move always yields a reordering of the fields. */
  lemma MovedBeforeCorrectedReorders(order: seq<JShort>, id: JShort, next: Option<JShort>)
    requires Distinct(order) && id in order && (next.Some? ==> next.value in order)
    ensures Reordered(order, id, MovedBeforeCorrected(order, id, next))
  {
    if next == Some(id) {
      RemoveFirstGone(order, id);
    } else if next.None? {
      MovedBeforeEnd(order, id);
    } else {
      MovedBeforePlaced(order, id, next.value);
    }
  }

  /** A reordering that only reinserts a field of the table keeps every id naming a field. */
  lemma MovedCoherent(order: seq<JShort>, t: seq<FieldDef>, id: JShort, r: seq<JShort>)
    requires Coherent(order, t) && LookupId(t, id).Some?
    requires forall x :: x in r ==> x in RemoveFirst(order, id) || x == id
    ensures Coherent(r, t)
  {
    RemoveFirstSubset(order, id);
  }

  // ---------------------------------------------------------------- the base

  /** Every id of a display order names a field of the table. */
  ghost predicate Coherent(order: seq<JShort>, t: seq<FieldDef>) {
    forall id :: id in order ==> LookupId(t, id).Some?
  }

  /** After put(f), an order made of old ids and f's own id still names fields only. */
  lemma PutKeepsCoherent(order: seq<JShort>, t: seq<FieldDef>, f: FieldDef, order': seq<JShort>)
    requires Coherent(order, t)
    requires forall id :: id in order' ==> id in order || id == f.id
    ensures Coherent(order', Put(t, f))
  {
    forall id | id in order' ensures LookupId(Put(t, f), id).Some? {
      if id != f.id {
        var g := LookupId(t, id).value;
        assert g in Put(t, f);
      }
    }
  }

  class DBObjectBase {
    /** isEmbedded(). */
    const embedded: bool
    /** SchemaConstants.FinalSystemField: the largest id reserved for system fields. */
    const finalSystemField: int
    /** store.loading || editor != null: the base may be edited. */
    const editable: bool

    var name: string
    var maxid: JInt
    /** fieldTable, in its enumeration order. */
    var fieldTable: seq<FieldDef>
    /** customFields: the ids of the custom fields, in display order. */
    var customFields: seq<JShort>
    var labelId: JShort

    ghost predicate Valid()
      reads this
    {
      UniqueIds(fieldTable)
    }

    /** Every id in the display order names a field of the table. */
    ghost predicate OrderCoherent()
      reads this
    {
      Coherent(customFields, fieldTable)
    }

    constructor (embedded: bool, finalSystemField: int, editable: bool)
      ensures this.embedded == embedded && this.finalSystemField == finalSystemField
      ensures this.editable == editable
      ensures name == "" && maxid == 0 && fieldTable == [] && customFields == [] && labelId == -1
      ensures Valid() && OrderCoherent()
    {
      this.embedded := embedded;
      this.finalSystemField := finalSystemField;
      this.editable := editable;
      name := "";
      maxid := 0;
      fieldTable := [];
      customFields := [];
      labelId := -1;
    }

    // -------------------------------------------------------------- object ids

    /** getNextID: `return ++maxid;` on a 32-bit int. */
    method GetNextID() returns (id: JInt)
      modifies this
      ensures maxid == IntCast(old(maxid) + 1) && id == maxid
      ensures old(maxid) < 0x7fff_ffff ==> id == old(maxid) + 1
      ensures fieldTable == old(fieldTable) && customFields == old(customFields)
      ensures name == old(name) && labelId == old(labelId)
    {
      maxid := IntCast(maxid + 1);
      id := maxid;
    }

    /** releaseId: steps maxid back only when id is the last one handed out. */
    method ReleaseId(id: int)
      modifies this
      ensures maxid == (if id == old(maxid) then IntCast(old(maxid) - 1) else old(maxid))
      ensures fieldTable == old(fieldTable) && customFields == old(customFields)
      ensures name == old(name) && labelId == old(labelId)
    {
      if id == maxid {
        maxid := IntCast(maxid - 1);
      }
    }

    // -------------------------------------------------------------- field ids

    /** getNextFieldID: the loop over the field table. */
    method GetNextFieldID() returns (id: JShort)
      ensures id == NextFieldIdAfter(Ids(fieldTable))
    {
      id := 256;
      var i := 0;
      while i < |fieldTable|
        invariant 0 <= i <= |fieldTable|
        invariant id == NextFieldIdAfter(Ids(fieldTable[..i]))
      {
        NextFieldIdStep(fieldTable, i);
        if fieldTable[i].id >= id {
          id := ShortCast(fieldTable[i].id as int + 1);
        }
        i := i + 1;
      }
      assert fieldTable[..i] == fieldTable;
    }

    // -------------------------------------------------------------- adding fields

    /** addFieldToStart: a custom field goes into the table and to the front of the order. */
    method AddFieldToStart(f: FieldDef) returns (r: Outcome<()>)
      modifies this
      ensures r.Threw? <==> f.id <= finalSystemField
      ensures r.Threw? ==> r.exc == IllegalArgument && fieldTable == old(fieldTable) && customFields == old(customFields)
      ensures r.Returned? ==> fieldTable == Put(old(fieldTable), f) && customFields == [f.id] + old(customFields)
      ensures old(Valid()) ==> Valid()
      ensures old(OrderCoherent()) ==> OrderCoherent()
      ensures name == old(name) && maxid == old(maxid) && labelId == old(labelId)
    {
      if f.id <= finalSystemField {
        return Threw(IllegalArgument);
      }
      if Valid() {
        PutUnique(fieldTable, f);
      }
      if OrderCoherent() {
        PutKeepsCoherent(customFields, fieldTable, f, [f.id] + customFields);
      }
      fieldTable := Put(fieldTable, f);
      customFields := [f.id] + customFields;
      r := Returned(());
    }

    /** addFieldToEnd: a custom field goes into the table and to the end of the order. */
    method AddFieldToEnd(f: FieldDef) returns (r: Outcome<()>)
      modifies this
      ensures r.Threw? <==> f.id <= finalSystemField
      ensures r.Threw? ==> r.exc == IllegalArgument && fieldTable == old(fieldTable) && customFields == old(customFields)
      ensures r.Returned? ==> fieldTable == Put(old(fieldTable), f) && customFields == old(customFields) + [f.id]
      ensures old(Valid()) ==> Valid()
      ensures old(OrderCoherent()) ==> OrderCoherent()
      ensures name == old(name) && maxid == old(maxid) && labelId == old(labelId)
    {
      if f.id <= finalSystemField {
        return Threw(IllegalArgument);
      }
      if Valid() {
        PutUnique(fieldTable, f);
      }
      if OrderCoherent() {
        PutKeepsCoherent(customFields, fieldTable, f, customFields + [f.id]);
      }
      fieldTable := Put(fieldTable, f);
      customFields := customFields + [f.id];
      r := Returned(());
    }

    /** addSystemField: a system field goes into the table only. */
    method AddSystemField(f: FieldDef) returns (r: Outcome<()>)
      modifies this
      ensures r.Threw? <==> f.id > finalSystemField
      ensures r.Threw? ==> r.exc == IllegalArgument && fieldTable == old(fieldTable)
      ensures r.Returned? ==> fieldTable == Put(old(fieldTable), f)
      ensures customFields == old(customFields)
      ensures old(Valid()) ==> Valid()
      ensures old(OrderCoherent()) ==> OrderCoherent()
      ensures name == old(name) && maxid == old(maxid) && labelId == old(labelId)
    {
      if f.id > finalSystemField {
        return Threw(IllegalArgument);
      }
      if Valid() {
        PutUnique(fieldTable, f);
      }
      if OrderCoherent() {
        PutKeepsCoherent(customFields, fieldTable, f, customFields);
      }
      fieldTable := Put(fieldTable, f);
      r := Returned(());
    }

    /**
     * removeField as written: the field leaves the table, but it leaves the
     * display order only when its id is below FinalSystemField, which no
     * custom field's is.
     */
    method RemoveField(f: FieldDef)
      modifies this
      ensures fieldTable == RemoveId(old(fieldTable), f.id)
      ensures customFields == (if f.id < finalSystemField then RemoveFirst(old(customFields), f.id) else old(customFields))
      ensures old(Valid()) ==> Valid()
      ensures f.id > finalSystemField && f.id in old(customFields) ==> !OrderCoherent()
      ensures name == old(name) && maxid == old(maxid) && labelId == old(labelId)
    {
      if Valid() {
        RemoveIdUnique(fieldTable, f.id);
      }
      fieldTable := RemoveId(fieldTable, f.id);
      if f.id < finalSystemField {
        customFields := RemoveFirst(customFields, f.id);
      }
      assert LookupId(fieldTable, f.id).None?;
    }

    /** removeField as intended: the field leaves the display order as well as the table. */
    method RemoveFieldCorrected(f: FieldDef)
      modifies this
      ensures fieldTable == RemoveId(old(fieldTable), f.id)
      ensures customFields == RemoveFirst(old(customFields), f.id)
      ensures old(Valid()) ==> Valid()
      ensures old(OrderCoherent() && Distinct(customFields)) ==> OrderCoherent() && Distinct(customFields)
      ensures name == old(name) && maxid == old(maxid) && labelId == old(labelId)
    {
      if Valid() {
        RemoveIdUnique(fieldTable, f.id);
      }
      ghost var order := customFields;
      fieldTable := RemoveId(fieldTable, f.id);
      customFields := RemoveFirst(customFields, f.id);
      if old(OrderCoherent() && Distinct(customFields)) {
        RemoveFirstGone(order, f.id);
        forall id | id in customFields ensures LookupId(fieldTable, id).Some? {
          var g := LookupId(old(fieldTable), id).value;
          assert g in fieldTable;
        }
      }
    }

    // -------------------------------------------------------------- moving fields

    /**
     * moveFieldAfter(fieldName, previousFieldName): a missing previous name
     * moves the field to the front; otherwise it goes after the named field,
     * which must be a custom field.
     */
    method MoveFieldAfter(fieldName: string, previousFieldName: Option<string>) returns (r: Reply)
      modifies this
      ensures var f := LookupName(fieldTable, fieldName);
        var a := Anchor(fieldTable, old(customFields), previousFieldName);
        (r == Refused <==> f.None? || a.None?) &&
        (r == Refused ==> customFields == old(customFields)) &&
        (r == Done ==> customFields == MovedAfter(old(customFields), f.value.id, a.value))
      ensures old(OrderCoherent()) ==> OrderCoherent()
      ensures fieldTable == old(fieldTable) && name == old(name) && maxid == old(maxid) && labelId == old(labelId)
    {
      var f := LookupName(fieldTable, fieldName);
      if f.None? {
        return Refused;
      }
      var a := Anchor(fieldTable, customFields, previousFieldName);
      if a.None? {
        return Refused;
      }
      var prev := a.value;
      var moved := MovedAfter(customFields, f.value.id, prev);
      InsertMembers(RemoveFirst(customFields, f.value.id), f.value.id, if prev.None? then 0 else FirstIndex(RemoveFirst(customFields, f.value.id), prev.value) + 1);
      if OrderCoherent() {
        MovedCoherent(customFields, fieldTable, f.value.id, moved);
      }
      customFields := moved;
      r := Done;
    }

    /**
     * moveFieldBefore(fieldName, nextFieldName) as written: a missing next
     * name moves the field to the end; otherwise it goes before the named
     * custom field.  When that field is the moved one itself, it has been
     * removed before its index is taken, and insertElementAt(-1) throws with
     * the field already gone from the order.
     */
    method MoveFieldBefore(fieldName: string, nextFieldName: Option<string>) returns (r: Outcome<Reply>)
      modifies this
      ensures var f := LookupName(fieldTable, fieldName);
        var a := Anchor(fieldTable, old(customFields), nextFieldName);
        (r == Returned(Refused) <==> f.None? || a.None?) &&
        (r == Returned(Refused) ==> customFields == old(customFields)) &&
        (r != Returned(Refused) ==>
          var moved := MovedBefore(old(customFields), f.value.id, a.value);
          (r.Threw? <==> moved.None?) &&
          (r.Threw? ==> r.exc == IndexOutOfBounds && customFields == RemoveFirst(old(customFields), f.value.id)) &&
          (r.Returned? ==> r.value == Done && customFields == moved.value))
      ensures old(OrderCoherent()) ==> OrderCoherent()
      ensures fieldTable == old(fieldTable) && name == old(name) && maxid == old(maxid) && labelId == old(labelId)
    {
      var f := LookupName(fieldTable, fieldName);
      if f.None? {
        return Returned(Refused);
      }
      var a := Anchor(fieldTable, customFields, nextFieldName);
      if a.None? {
        return Returned(Refused);
      }
      var next := a.value;
      var c := RemoveFirst(customFields, f.value.id);
      var moved := MovedBefore(customFields, f.value.id, next);
      if moved.None? {
        if OrderCoherent() {
          MovedCoherent(customFields, fieldTable, f.value.id, c);
        }
        customFields := c;
        return Threw(IndexOutOfBounds);
      }
      if next.None? {
        assert moved.value == c[..|c|] + [f.value.id] + c[|c|..];
        InsertMembers(c, f.value.id, |c|);
      } else {
        InsertMembers(c, f.value.id, FirstIndex(c, next.value));
      }
      if OrderCoherent() {
        MovedCoherent(customFields, fieldTable, f.value.id, moved.value);
      }
      customFields := moved.value;
      r := Returned(Done);
    }

    /**
     * moveFieldBefore as intended: moving a field before itself leaves the
     * order as it is.
     */
    method MoveFieldBeforeCorrected(fieldName: string, nextFieldName: Option<string>) returns (r: Reply)
      requires Distinct(customFields)
      modifies this
      ensures var f := LookupName(fieldTable, fieldName);
        var a := Anchor(fieldTable, old(customFields), nextFieldName);
        (r == Refused <==> f.None? || a.None?) &&
        (r == Refused ==> customFields == old(customFields)) &&
        (r == Done ==> customFields == MovedBeforeCorrected(old(customFields), f.value.id, a.value))
      ensures Distinct(customFields)
      ensures old(OrderCoherent()) ==> OrderCoherent()
      ensures fieldTable == old(fieldTable) && name == old(name) && maxid == old(maxid) && labelId == old(labelId)
    {
      var f := LookupName(fieldTable, fieldName);
      if f.None? {
        return Refused;
      }
      var a := Anchor(fieldTable, customFields, nextFieldName);
      if a.None? {
        return Refused;
      }
      var next := a.value;
      if next == Some(f.value.id) {
        return Done;
      }
      var moved := MovedBeforeCorrected(customFields, f.value.id, next);
      var c := RemoveFirst(customFields, f.value.id);
      RemoveFirstGone(customFields, f.value.id);
      InsertMembers(c, f.value.id, if next.None? then |c| else FirstIndex(c, next.value));
      if next.None? {
        assert moved == c[..|c|] + [f.value.id] + c[|c|..];
        MovedBeforeEnd(customFields, f.value.id);
      } else {
        MovedBeforePlaced(customFields, f.value.id, next.value);
      }
      if OrderCoherent() {
        MovedCoherent(customFields, fieldTable, f.value.id, moved);
      }
      customFields := moved;
      r := Done;
    }

    // -------------------------------------------------------------- new fields

    /**
     * createNewField: the next field id, the first free name of "New Field",
     * "New Field 2", ..., and the field added at the end.
     */
    method CreateNewField() returns (r: Outcome<FieldDef>)
      modifies this
      ensures var id := NextFieldIdAfter(Ids(old(fieldTable)));
        (r.Threw? <==> !editable || id <= finalSystemField) &&
        (r.Threw? ==> r.exc == IllegalArgument && fieldTable == old(fieldTable) && customFields == old(customFields)) &&
        (r.Returned? ==>
          r.value.id == id &&
          LookupName(old(fieldTable), r.value.name).None? &&
          fieldTable == Put(old(fieldTable), r.value) &&
          customFields == old(customFields) + [id])
      ensures r.Returned? ==> exists n: nat :: (n >= 1 && r.value.name == Candidate("New Field", n) &&
        forall j :: 1 <= j < n ==> LookupName(old(fieldTable), Candidate("New Field", j)).Some?)
      ensures old(Valid()) ==> Valid()
      ensures old(OrderCoherent()) ==> OrderCoherent()
      ensures name == old(name) && maxid == old(maxid) && labelId == old(labelId)
    {
      if !editable {
        return Threw(IllegalArgument);
      }
      var id := GetNextFieldID();
      ExactSeparated("New Field");
      var newName, n := FirstFree("New Field", Names(fieldTable), x => x);
      TakenIffFound(fieldTable, newName);
      forall j | 1 <= j < n ensures LookupName(fieldTable, Candidate("New Field", j)).Some? {
        TakenIffFound(fieldTable, Candidate("New Field", j));
      }
      var f := FieldDef(id, newName);
      var added := AddFieldToEnd(f);
      if added.Threw? {
        return Threw(added.exc);
      }
      r := Returned(f);
    }

    // -------------------------------------------------------------- names and labels

    /**
     * setName: the cleaned-up name, unless another base already answers to
     * it.  `taken` holds the names that the lookup of the schema editor or,
     * outside one, of the store answers.
     */
    method SetName(newName: string, taken: set<string>) returns (r: Outcome<Reply>)
      modifies this
      ensures !editable ==> r == Threw(IllegalArgument) && name == old(name)
      ensures editable && ProposedName(newName, embedded) in taken ==>
        r == Returned(Refused) && name == old(name)
      ensures editable && ProposedName(newName, embedded) !in taken ==>
        r == Returned(Done) && name == ProposedName(newName, embedded)
      ensures fieldTable == old(fieldTable) && customFields == old(customFields)
      ensures maxid == old(maxid) && labelId == old(labelId)
    {
      r := Rename(ProposedName(newName, embedded), taken);
    }

    /** The guards and the assignment of setName, once the name is cleaned up. */
    method Rename(proposed: string, taken: set<string>) returns (r: Outcome<Reply>)
      modifies this
      ensures !editable ==> r == Threw(IllegalArgument) && name == old(name)
      ensures editable && proposed in taken ==> r == Returned(Refused) && name == old(name)
      ensures editable && proposed !in taken ==> r == Returned(Done) && name == proposed
      ensures fieldTable == old(fieldTable) && customFields == old(customFields)
      ensures maxid == old(maxid) && labelId == old(labelId)
    {
      if !editable {
        r := Threw(IllegalArgument);
      } else if proposed in taken {
        r := Returned(Refused);
      } else {
        name := proposed;
        r := Returned(Done);
      }
    }

    /** setLabelField(String): null clears the label field; an unknown name is refused. */
    method SetLabelField(fieldName: Option<string>) returns (r: Outcome<Reply>)
      modifies this
      ensures r.Threw? <==> !editable
      ensures r.Threw? ==> r.exc == IllegalArgument
      ensures r == Returned(Refused) <==> editable && fieldName.Some? && LookupName(fieldTable, fieldName.value).None?
      ensures r == Returned(Done) ==>
        labelId == (if fieldName.None? then -1 else LookupName(fieldTable, fieldName.value).value.id)
      ensures r != Returned(Done) ==> labelId == old(labelId)
      ensures fieldTable == old(fieldTable) && customFields == old(customFields)
      ensures maxid == old(maxid) && name == old(name)
    {
      if !editable {
        return Threw(IllegalArgument);
      }
      if fieldName.None? {
        labelId := -1;
        return Returned(Done);
      }
      var f := LookupName(fieldTable, fieldName.value);
      if f.None? {
        return Returned(Refused);
      }
      labelId := f.value.id;
      r := Returned(Done);
    }

    /** setLabelField(short): -1 clears the label field; an unknown id is refused. */
    method SetLabelFieldId(fieldID: JShort) returns (r: Outcome<Reply>)
      modifies this
      ensures r.Threw? <==> !editable
      ensures r.Threw? ==> r.exc == IllegalArgument
      ensures r == Returned(Refused) <==> editable && fieldID != -1 && LookupId(fieldTable, fieldID).None?
      ensures labelId == (if r == Returned(Done) then fieldID else old(labelId))
      ensures r == Returned(Done) ==> labelId == -1 || LookupId(fieldTable, labelId).Some?
      ensures fieldTable == old(fieldTable) && customFields == old(customFields)
      ensures maxid == old(maxid) && name == old(name)
    {
      if !editable {
        return Threw(IllegalArgument);
      }
      if fieldID != -1 && LookupId(fieldTable, fieldID).None? {
        return Returned(Refused);
      }
      labelId := fieldID;
      r := Returned(Done);
    }
  }

  /** Releasing the id just handed out gives the counter back its old value. */
  lemma ReleaseUndoesNext(m: JInt)
    ensures IntCast(IntCast(m + 1) - 1) == m
  {
  }
}
