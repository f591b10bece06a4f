// The schema editing session (DBSchemaEdit): a working copy of the object
// bases and the namespaces that the admin console edits while the server is
// locked, and that commit installs in the store or release throws away.
module SchemaEdits {
  import opened Wrappers
  import opened JavaLang
  import opened FreshNames

  /**
   * A working object base: its type id, name, whether it is embedded, the
   * path of its category, how many objects it holds, and the identities of
   * the namespaces its fields are bound to.
   */
  datatype Base = Base(id: JShort, name: string, embedded: bool, category: string, objects: nat, spaces: set<nat>)

  /** A namespace (DBNameSpace), with `ident` standing for its object identity. */
  datatype NameSpace = NameSpace(ident: nat, name: string)

  // ---------------------------------------------------------------- the working bases

  /** newBases is a Hashtable keyed by type id. */
  predicate UniqueIds(bases: seq<Base>) {
    forall i, j :: 0 <= i < j < |bases| ==> bases[i].id != bases[j].id
  }

  /** getBase(short): the working base with that type id, if any. */
  function ById(bases: seq<Base>, id: int): (r: Option<Base>)
    ensures r.None? <==> forall i :: 0 <= i < |bases| ==> bases[i].id != id
    ensures r.Some? ==> r.value in bases && r.value.id == id
  {
    if |bases| == 0 then None
    else if bases[0].id == id then Some(bases[0])
    else ById(bases[1..], id)
  }

  lemma {:induction false} ByIdUnique(bases: seq<Base>, k: nat)
    requires UniqueIds(bases) && k < |bases|
    ensures ById(bases, bases[k].id) == Some(bases[k])
  {
    if k > 0 {
      assert bases[0].id != bases[k].id;
      assert UniqueIds(bases[1..]);
      ByIdUnique(bases[1..], k - 1);
    }
  }

  /** getBase(String): the first working base whose name equals baseName, ignoring case. */
  function FindName(bases: seq<Base>, name: string): (r: Option<Base>)
    ensures r.None? <==> forall i :: 0 <= i < |bases| ==> !EqualsIgnoreCase(bases[i].name, name)
    ensures r.Some? ==> r.value in bases && EqualsIgnoreCase(r.value.name, name)
  {
    if |bases| == 0 then None
    else if EqualsIgnoreCase(bases[0].name, name) then Some(bases[0])
    else FindName(bases[1..], name)
  }

  /** Of several bases answering to the name, the lookup finds the first. */
  lemma {:induction false} FindNameFirst(bases: seq<Base>, name: string, k: nat)
    requires k < |bases| && EqualsIgnoreCase(bases[k].name, name)
    requires forall j :: 0 <= j < k ==> !EqualsIgnoreCase(bases[j].name, name)
    ensures FindName(bases, name) == Some(bases[k])
  {
    if k > 0 {
      FindNameFirst(bases[1..], name, k - 1);
    }
  }

  function Names(bases: seq<Base>): (r: seq<string>)
    ensures |r| == |bases| && forall i :: 0 <= i < |bases| ==> r[i] == bases[i].name
  {
    if |bases| == 0 then [] else [bases[0].name] + Names(bases[1..])
  }

  /** The naming loop's test `getBase(newName) != null` is Taken under lower-casing. */
  lemma TakenIffNamed(bases: seq<Base>, name: string)
    ensures Taken(name, Names(bases), n => ToLower(n)) <==> FindName(bases, name).Some?
  {
    var names := Names(bases);
    if FindName(bases, name).Some? {
      var i :| 0 <= i < |bases| && EqualsIgnoreCase(bases[i].name, name);
      assert names[i] in names;
    }
  }

  /** newBases.put(id, base): replaces the entry with that id, or adds one. */
  function PutBase(bases: seq<Base>, b: Base): (r: seq<Base>)
    ensures b in r
    ensures forall c :: c in r ==> c == b || c in bases
    ensures forall c :: c in bases && c.id != b.id ==> c in r
  {
    if |bases| == 0 then [b]
    else if bases[0].id == b.id then [b] + bases[1..]
    else [bases[0]] + PutBase(bases[1..], b)
  }

  lemma UniqueTail(bases: seq<Base>)
    requires UniqueIds(bases) && |bases| > 0
    ensures UniqueIds(bases[1..])
    ensures forall d :: d in bases[1..] ==> d.id != bases[0].id
  {
    forall d | d in bases[1..] ensures d.id != bases[0].id {
      var j :| 0 <= j < |bases[1..]| && bases[1..][j] == d;
      assert bases[j + 1] == d;
    }
  }

  lemma ConsUnique(c: Base, rest: seq<Base>)
    requires UniqueIds(rest)
    requires forall d :: d in rest ==> d.id != c.id
    ensures UniqueIds([c] + rest)
  {
    var r := [c] + rest;
    forall i, j | 0 <= i < j < |r| ensures r[i].id != r[j].id {
      assert r[j] == rest[j - 1];
      if i == 0 {
        assert rest[j - 1] in rest;
      } else {
        assert r[i] == rest[i - 1];
      }
    }
  }

  lemma {:induction false} PutBaseUnique(bases: seq<Base>, b: Base)
    requires UniqueIds(bases)
    ensures UniqueIds(PutBase(bases, b))
  {
    if |bases| > 0 {
      UniqueTail(bases);
      if bases[0].id == b.id {
        ConsUnique(b, bases[1..]);
      } else {
        PutBaseUnique(bases[1..], b);
        ConsUnique(bases[0], PutBase(bases[1..], b));
      }
    }
  }

  /** After the put, a lookup of the id finds the new base. */
  lemma {:induction false} PutBaseFinds(bases: seq<Base>, b: Base)
    ensures ById(PutBase(bases, b), b.id) == Some(b)
  {
    if |bases| > 0 && bases[0].id != b.id {
      PutBaseFinds(bases[1..], b);
      var r := PutBase(bases, b);
      assert r[1..] == PutBase(bases[1..], b);
    }
  }

  /** newBases.remove(id). */
  function RemoveBase(bases: seq<Base>, id: int): (r: seq<Base>)
    ensures forall c :: c in r <==> c in bases && c.id != id
  {
    if |bases| == 0 then []
    else if bases[0].id == id then RemoveBase(bases[1..], id)
    else [bases[0]] + RemoveBase(bases[1..], id)
  }

  lemma {:induction false} RemoveBaseUnique(bases: seq<Base>, id: int)
    requires UniqueIds(bases)
    ensures UniqueIds(RemoveBase(bases, id))
  {
    if |bases| > 0 {
      UniqueTail(bases);
      RemoveBaseUnique(bases[1..], id);
      if bases[0].id != id {
        ConsUnique(bases[0], RemoveBase(bases[1..], id));
      }
    }
  }

  /** After the removal no working base has the id. */
  lemma RemoveBaseGone(bases: seq<Base>, id: int)
    ensures ById(RemoveBase(bases, id), id).None?
  {
    var r := RemoveBase(bases, id);
    forall i | 0 <= i < |r| ensures r[i].id != id {
      assert r[i] in r;
    }
  }

  /** getBases(embedded): the working bases of that kind, in enumeration order. */
  function Kind(bases: seq<Base>, embedded: bool): seq<Base> {
    if |bases| == 0 then [] else
      var last := bases[|bases| - 1];
      Kind(bases[..|bases| - 1], embedded) + (if last.embedded == embedded then [last] else [])
  }

  lemma {:induction false} KindExact(bases: seq<Base>, embedded: bool, c: Base)
    ensures c in Kind(bases, embedded) <==> c in bases && c.embedded == embedded
  {
    if |bases| > 0 {
      var front := bases[..|bases| - 1];
      KindExact(front, embedded, c);
      assert bases == front + [bases[|bases| - 1]];
    }
  }

  /** Every working base is listed by exactly one of getBases(true) and getBases(false). */
  lemma {:induction false} KindSplit(bases: seq<Base>)
    ensures |Kind(bases, true)| + |Kind(bases, false)| == |bases|
  {
    if |bases| > 0 {
      KindSplit(bases[..|bases| - 1]);
    }
  }

  // ---------------------------------------------------------------- namespaces

  /** The slot of the first namespace called name, or the length when there is none. */
  function SpaceIndex(spaces: seq<NameSpace>, name: string): (k: nat)
    ensures k <= |spaces|
    ensures k < |spaces| ==> spaces[k].name == name
    ensures forall j :: 0 <= j < k ==> spaces[j].name != name
  {
    if |spaces| == 0 then 0
    else if spaces[0].name == name then 0
    else 1 + SpaceIndex(spaces[1..], name)
  }

  /** Some field of some working base is bound to the namespace. */
  predicate Bound(bases: seq<Base>, ident: nat) {
    exists i :: 0 <= i < |bases| && ident in bases[i].spaces
  }

  // ---------------------------------------------------------------- short counter

  /**
   * The id tried at step m of the high-range search, which starts at 256 and
   * counts up in a short: 256, 257, ..., 32767, then -32768, ..., 255.
   */
  function HighId(m: nat): (id: JShort)
    requires m < 0x1_0000
  {
    if m < 0x8000 - 256 then 256 + m else m + 256 - 0x1_0000
  }

  /** One `id++` on the short moves the search one step on. */
  lemma HighIdNext(m: nat)
    requires m + 1 < 0x1_0000
    ensures ShortCast(HighId(m) as int + 1) == HighId(m + 1)
  {
    if m == 0x8000 - 257 {
      assert ShortCast(0x8000) == -0x8000;
    }
  }

  /** The step at which the high-range search tries id: every short is tried once. */
  function HighStep(id: JShort): (m: nat)
    ensures m < 0x1_0000 && HighId(m) == id
  {
    if id >= 256 then id as int - 256 else id as int + 0x1_0000 - 256
  }

  /** What stopping at step n, the first free one, says about the shorts. */
  lemma HighSearchStops(bases: seq<Base>, n: nat)
    requires n < 0x1_0000
    requires forall m :: 0 <= m < n ==> ById(bases, HighId(m)).Some?
    ensures HighId(n) >= 256 ==> forall v: JShort :: 256 <= v < HighId(n) ==> ById(bases, v).Some?
    ensures HighId(n) < 256 ==> forall v: JShort :: v >= 256 || v < HighId(n) ==> ById(bases, v).Some?
  {
    forall v: JShort | (HighId(n) >= 256 && 256 <= v < HighId(n)) || (HighId(n) < 256 && (v >= 256 || v < HighId(n)))
      ensures ById(bases, v).Some?
    {
      assert HighStep(v) < n;
    }
  }

  // ---------------------------------------------------------------- the session

  /**
   * The name createNewBase gives: "New Base" or "New Base i", the first of
   * them (i >= 2 in that order) that no base of the list answers to.
   */
  ghost predicate FirstFreeBaseName(bases: seq<Base>, name: string) {
    exists n: nat ::
      n >= 1 && name == Candidate("New Base", n) &&
      forall j :: 1 <= j < n ==> FindName(bases, Candidate("New Base", j)).Some?
  }

  class DBSchemaEdit {
    /** True from construction until commit or release. */
    var locked: bool
    /** Whether release has dropped the working bases (newBases == null). */
    var dropped: bool
    var newBases: seq<Base>
    /** The paths of the working category tree. */
    var categories: set<string>
    /** store.objectBases. */
    var storeBases: seq<Base>
    /** store.nameSpaces. */
    var nameSpaces: seq<NameSpace>
    var oldNameSpaces: seq<NameSpace>

    predicate Valid()
      reads this
    {
      UniqueIds(newBases) && (dropped ==> !locked)
    }

    /** Copies the store's bases and namespaces and locks the schema. */
    constructor (store: seq<Base>, paths: set<string>, spaces: seq<NameSpace>)
      requires UniqueIds(store)
      ensures Valid() && locked && !dropped
      ensures newBases == store && storeBases == store && categories == paths
      ensures nameSpaces == spaces && oldNameSpaces == spaces
    {
      locked := true;
      dropped := false;
      newBases := store;
      storeBases := store;
      categories := paths;
      nameSpaces := spaces;
      oldNameSpaces := spaces;
    }

    method GetBase(baseName: string) returns (r: Outcome<Option<Base>>)
      ensures r.Threw? <==> dropped
      ensures r.Threw? ==> r.exc == NullPointer
      ensures r.Returned? ==> r.value == FindName(newBases, baseName)
    {
      if dropped {
        return Threw(NullPointer);
      }
      var i := 0;
      while i < |newBases|
        invariant 0 <= i <= |newBases|
        invariant FindName(newBases, baseName) == FindName(newBases[i..], baseName)
      {
        if EqualsIgnoreCase(newBases[i].name, baseName) {
          return Returned(Some(newBases[i]));
        }
        assert newBases[i..][1..] == newBases[i + 1..];
        i := i + 1;
      }
      r := Returned(None);
    }

    /** getBases(embedded): one pass counts the bases of the kind, a second fills the array. */
    method GetBases(embedded: bool) returns (r: Outcome<seq<Base>>)
      ensures r.Threw? <==> dropped
      ensures r.Threw? ==> r.exc == NullPointer
      ensures r.Returned? ==> r.value == Kind(newBases, embedded)
    {
      if dropped {
        return Threw(NullPointer);
      }
      var size := 0;
      var i := 0;
      while i < |newBases|
        invariant 0 <= i <= |newBases|
        invariant size == |Kind(newBases[..i], embedded)|
      {
        assert newBases[..i + 1][..i] == newBases[..i];
        if newBases[i].embedded == embedded {
          size := size + 1;
        }
        i := i + 1;
      }
      assert newBases[..|newBases|] == newBases;
      var bases: seq<Base> := [];
      i := 0;
      while i < |newBases|
        invariant 0 <= i <= |newBases|
        invariant bases == Kind(newBases[..i], embedded)
      {
        assert newBases[..i + 1][..i] == newBases[..i];
        if newBases[i].embedded == embedded {
          bases := bases + [newBases[i]];
        }
        i := i + 1;
      }
      assert |bases| == size;
      r := Returned(bases);
    }

    /** The low-range search: the first id of 0..255 that is not a working base, or 256. */
    method FirstLowId() returns (id: JShort)
      ensures 0 <= id <= 256
      ensures forall j :: 0 <= j < id ==> ById(newBases, j).Some?
      ensures id < 256 ==> ById(newBases, id).None?
    {
      id := 0;
      while id < 256 && ById(newBases, id).Some?
        invariant 0 <= id <= 256
        invariant forall j :: 0 <= j < id ==> ById(newBases, j).Some?
      {
        id := id + 1;
      }
    }

    /**
     * The high-range search `for (id = 256; id <= Short.MAX_VALUE; id++)`:
     * the bound always holds, and id++ wraps from 32767 to -32768, so the
     * loop goes round the shorts until it finds a free one.  The least
     * free id from 256 up, if there is one; otherwise the least free id.
     */
    method FirstHighId() returns (id: JShort)
      requires exists x: JShort :: ById(newBases, x).None?
      ensures ById(newBases, id).None?
      ensures id >= 256 ==> forall v: JShort :: 256 <= v < id ==> ById(newBases, v).Some?
      ensures id < 256 ==> forall v: JShort :: v >= 256 || v < id ==> ById(newBases, v).Some?
    {
      ghost var x: JShort :| ById(newBases, x).None?;
      ghost var mx := HighStep(x);
      id := 256;
      ghost var n := 0;
      while ById(newBases, id).Some?
        invariant n <= mx && id == HighId(n)
        invariant forall m :: 0 <= m < n ==> ById(newBases, HighId(m)).Some?
        decreases mx - n
      {
        HighIdNext(n);
        id := ShortCast(id as int + 1);
        n := n + 1;
      }
      HighSearchStops(newBases, n);
    }

    /** The naming loop of createNewBase: "New Base", then "New Base 2", ... */
    method NewBaseName() returns (newName: string)
      ensures FindName(newBases, newName).None?
      ensures FirstFreeBaseName(newBases, newName)
    {
      LowerSeparated("New Base");
      var n;
      newName, n := FirstFree("New Base", Names(newBases), s => ToLower(s));
      TakenIffNamed(newBases, newName);
      forall j | 1 <= j < n ensures FindName(newBases, Candidate("New Base", j)).Some? {
        TakenIffNamed(newBases, Candidate("New Base", j));
      }
    }

    /**
     * createNewBase(category, embedded, id): refused once the session is
     * over or when the store already has a base with that id; the new base
     * is called "New Base", or "New Base i" for the least i >= 2 that no
     * working base answers to, and is put into newBases under its id.
     */
    method CreateNewBase(category: string, embedded: bool, id: JShort) returns (r: Outcome<Base>)
      requires Valid()
      modifies this
      ensures Valid()
      ensures r.Threw? <==> !old(locked) || ById(storeBases, id).Some? || category !in categories
      ensures r.Threw? ==> r.exc == Runtime && newBases == old(newBases)
      ensures r.Returned? ==>
        r.value.id == id && r.value.embedded == embedded && r.value.category == category &&
        r.value.objects == 0 && r.value.spaces == {} &&
        FindName(old(newBases), r.value.name).None? &&
        newBases == PutBase(old(newBases), r.value)
      ensures r.Returned? ==> FirstFreeBaseName(old(newBases), r.value.name)
      ensures locked == old(locked) && dropped == old(dropped) && storeBases == old(storeBases)
      ensures categories == old(categories) && nameSpaces == old(nameSpaces) && oldNameSpaces == old(oldNameSpaces)
    {
      if !locked {
        return Threw(Runtime);
      }
      if ById(storeBases, id).Some? {
        return Threw(Runtime);
      }
      var newName := NewBaseName();
      if category !in categories {
        return Threw(Runtime);
      }
      var base := Base(id, newName, embedded, category, 0, {});
      PutBaseUnique(newBases, base);
      PutBaseFinds(newBases, base);
      newBases := PutBase(newBases, base);
      r := Returned(base);
    }

    /**
     * createNewBase(category, embedded, lowRange): the first free id of
     * 0..255, or null when all are working bases; or the first free id from
     * 256 on, going round the shorts.  The search needs newBases, which
     * release has dropped.
     */
    method CreateNewBaseInRange(category: string, embedded: bool, lowRange: bool) returns (r: Outcome<Option<Base>>)
      requires Valid()
      requires !dropped && !lowRange ==> exists x: JShort :: ById(newBases, x).None?
      modifies this
      ensures Valid()
      ensures old(dropped) ==> r == Threw(NullPointer) && newBases == old(newBases)
      ensures r == Returned(None) <==>
        !old(dropped) && lowRange && forall j :: 0 <= j < 256 ==> ById(old(newBases), j).Some?
      ensures r.Threw? && !old(dropped) ==> r.exc == Runtime && newBases == old(newBases)
      ensures r.Returned? && r.value.Some? ==>
        var b := r.value.value;
        ById(old(newBases), b.id).None? && ById(storeBases, b.id).None? &&
        newBases == PutBase(old(newBases), b) && b.embedded == embedded && b.category == category &&
        (lowRange ==> 0 <= b.id < 256 && forall j :: 0 <= j < b.id ==> ById(old(newBases), j).Some?) &&
        (!lowRange && b.id >= 256 ==> forall v: JShort :: 256 <= v < b.id ==> ById(old(newBases), v).Some?) &&
        (!lowRange && b.id < 256 ==> forall v: JShort :: v >= 256 ==> ById(old(newBases), v).Some?)
      ensures !old(locked) && !(old(dropped) || r == Returned(None)) ==> r.Threw?
      ensures locked == old(locked) && dropped == old(dropped) && storeBases == old(storeBases)
      ensures categories == old(categories) && nameSpaces == old(nameSpaces) && oldNameSpaces == old(oldNameSpaces)
    {
      if dropped {
        return Threw(NullPointer);
      }
      var id: JShort;
      if lowRange {
        id := FirstLowId();
        if id == 256 {
          return Returned(None);
        }
      } else {
        id := FirstHighId();
      }
      var made := CreateNewBase(category, embedded, id);
      if made.Threw? {
        return Threw(made.exc);
      }
      r := Returned(Some(made.value));
    }

    /**
     * deleteBase: an unknown name is an error dialog, even after the
     * session is over; then a finished session throws; a base that still
     * holds objects is refused; otherwise the base leaves newBases (and so
     * its category).
     */
    method DeleteBase(baseName: string) returns (r: Outcome<Reply>)
      requires Valid()
      modifies this
      ensures Valid()
      ensures old(dropped) ==> r == Threw(NullPointer) && newBases == old(newBases)
      ensures !old(dropped) ==> match old(FindName(newBases, baseName)) {
        case None => r == Returned(Refused) && newBases == old(newBases)
        case Some(b) =>
          if !old(locked) then r == Threw(Runtime) && newBases == old(newBases)
          else if b.objects > 0 then r == Returned(Refused) && newBases == old(newBases)
          else r == Returned(Done) && newBases == RemoveBase(old(newBases), b.id)
      }
      ensures locked == old(locked) && dropped == old(dropped) && storeBases == old(storeBases)
      ensures categories == old(categories) && nameSpaces == old(nameSpaces) && oldNameSpaces == old(oldNameSpaces)
    {
      var found := GetBase(baseName);
      if found.Threw? {
        return Threw(found.exc);
      }
      if found.value.None? {
        return Returned(Refused);
      }
      var base := found.value.value;
      if !locked {
        return Threw(Runtime);
      }
      var k :| 0 <= k < |newBases| && newBases[k] == base;
      ByIdUnique(newBases, k);
      var tmpBase := ById(newBases, base.id).value;
      if tmpBase.objects > 0 {
        return Returned(Refused);
      }
      RemoveBaseUnique(newBases, base.id);
      RemoveBaseGone(newBases, base.id);
      newBases := RemoveBase(newBases, base.id);
      r := Returned(Done);
    }

    /** The search of deleteNameSpace: the slot of the first namespace with that name. */
    method FindNameSpace(name: string) returns (index: nat)
      ensures index == SpaceIndex(nameSpaces, name)
    {
      index := 0;
      while index < |nameSpaces| && nameSpaces[index].name != name
        invariant index <= |nameSpaces|
        invariant SpaceIndex(nameSpaces, name) == index + SpaceIndex(nameSpaces[index..], name)
      {
        assert nameSpaces[index..][1..] == nameSpaces[index + 1..];
        index := index + 1;
      }
    }

    /** The scan of every field of every working base for a binding to the namespace. */
    method InUse(ident: nat) returns (bound: bool)
      ensures bound <==> Bound(newBases, ident)
    {
      var i := 0;
      while i < |newBases|
        invariant 0 <= i <= |newBases|
        invariant forall j :: 0 <= j < i ==> ident !in newBases[j].spaces
      {
        if ident in newBases[i].spaces {
          return true;
        }
        i := i + 1;
      }
      return false;
    }

    /**
     * deleteNameSpace: a finished session throws; an unknown name, or a
     * namespace that a field is still bound to, is an error dialog;
     * otherwise exactly the first namespace of that name is removed.
     */
    method DeleteNameSpace(name: string) returns (r: Outcome<Reply>)
      modifies this
      ensures !old(locked) ==> r == Threw(Runtime) && nameSpaces == old(nameSpaces)
      ensures old(locked) ==>
        var k := SpaceIndex(old(nameSpaces), name);
        if k == |old(nameSpaces)| || Bound(newBases, old(nameSpaces)[k].ident) then
          r == Returned(Refused) && nameSpaces == old(nameSpaces)
        else
          r == Returned(Done) && nameSpaces == old(nameSpaces)[..k] + old(nameSpaces)[k + 1..]
      ensures locked == old(locked) && dropped == old(dropped) && storeBases == old(storeBases)
      ensures newBases == old(newBases) && categories == old(categories) && oldNameSpaces == old(oldNameSpaces)
    {
      if !locked {
        return Threw(Runtime);
      }
      var index := FindNameSpace(name);
      if index == |nameSpaces| {
        return Returned(Refused);
      }
      var bound := InUse(nameSpaces[index].ident);
      if bound {
        return Returned(Refused);
      }
      nameSpaces := nameSpaces[..index] + nameSpaces[index + 1..];
      r := Returned(Done);
    }

    /** checkCommitState: every working base passes its own schema check. */
    method CheckCommitState(check: Base -> bool) returns (ok: bool)
      ensures ok <==> forall i :: 0 <= i < |newBases| ==> check(newBases[i])
    {
      var i := 0;
      while i < |newBases|
        invariant 0 <= i <= |newBases|
        invariant forall j :: 0 <= j < i ==> check(newBases[j])
      {
        if !check(newBases[i]) {
          return false;
        }
        i := i + 1;
      }
      return true;
    }

    /**
     * commit: a finished session throws; a base that fails its schema
     * check refuses the commit and the session stays open; otherwise the
     * working bases become the store's and the session is over.
     */
    method Commit(check: Base -> bool) returns (r: Outcome<Reply>)
      requires Valid()
      modifies this
      ensures Valid()
      ensures !old(locked) ==> r == Threw(Runtime) && storeBases == old(storeBases) && !locked
      ensures old(locked) && (exists i :: 0 <= i < |newBases| && !check(newBases[i])) ==>
        r == Returned(Refused) && locked && storeBases == old(storeBases)
      ensures old(locked) && (forall i :: 0 <= i < |newBases| ==> check(newBases[i])) ==>
        r == Returned(Done) && !locked && storeBases == newBases
      ensures dropped == old(dropped) && newBases == old(newBases) && categories == old(categories)
      ensures nameSpaces == old(nameSpaces) && oldNameSpaces == old(oldNameSpaces)
    {
      if !locked {
        return Threw(Runtime);
      }
      var ok := CheckCommitState(check);
      if !ok {
        return Returned(Refused);
      }
      storeBases := newBases;
      locked := false;
      r := Returned(Done);
    }

    /**
     * release: a finished session throws; otherwise the namespaces go back
     * to those of the start of the session, the working bases are dropped
     * and the session is over.
     */
    method Release() returns (r: Outcome<()>)
      requires Valid()
      modifies this
      ensures Valid()
      ensures !old(locked) ==> r == Threw(Runtime) && nameSpaces == old(nameSpaces) && newBases == old(newBases)
      ensures old(locked) ==>
        r == Returned(()) && !locked && dropped && newBases == [] && nameSpaces == old(oldNameSpaces)
      ensures !locked && storeBases == old(storeBases) && categories == old(categories)
    {
      if !locked {
        return Threw(Runtime);
      }
      nameSpaces := oldNameSpaces;
      locked := false;
      dropped := true;
      newBases := [];
      r := Returned(());
    }
  }
}
