// A hashtable that can treat String keys case-insensitively while keeping the
// capitalisation of the key first stored.  Keys are either strings or other
// (non-string) values; case folding is ASCII.
module GHashtable {
  import opened Wrappers
  import opened JavaLang

  datatype Key = StrKey(s: string) | OtherKey(id: int)

  /** The wrapper stored in place of a key in case-insensitive mode. */
  datatype GKeyVal = GKeyVal(key: Key, orig: Key)

  /** new GKey(k): strings are folded, other keys kept as they are; the original is remembered. */
  function MakeGKey(k: Key): (g: GKeyVal)
    ensures g.orig == k
    ensures k.StrKey? ==> g.key == StrKey(ToLower(k.s))
    ensures !k.StrKey? ==> g.key == k
  {
    match k
    case StrKey(s) => GKeyVal(StrKey(ToLower(s)), k)
    case OtherKey(_) => GKeyVal(k, k)
  }

  /** Either argument of GKey.equals: another GKey or a bare object. */
  datatype Probe = WrappedProbe(g: GKeyVal) | BareProbe(k: Key)

  function GKeyEquals(g: GKeyVal, obj: Probe): bool {
    match obj
    case WrappedProbe(h) => g.key == h.key
    case BareProbe(k) => g.key == k
  }

  /** String.hashCode: s[0]*31^(n-1) + ... + s[n-1], wrapped to a signed 32-bit int. */
  function StringHash(s: string): (h: int)
    ensures -0x8000_0000 <= h < 0x8000_0000
  {
    ToInt32(UnsignedHash(s))
  }

  function UnsignedHash(s: string): (h: nat)
    ensures h < 0x1_0000_0000
  {
    if s == [] then 0 else (UnsignedHash(s[..|s| - 1]) * 31 + s[|s| - 1] as int) % 0x1_0000_0000
  }

  function ToInt32(u: nat): int
    requires u < 0x1_0000_0000
  {
    if u < 0x8000_0000 then u else u - 0x1_0000_0000
  }

  function KeyHash(k: Key): int {
    match k
    case StrKey(s) => StringHash(s)
    case OtherKey(id) => id
  }

  function GKeyHash(g: GKeyVal): int {
    KeyHash(g.key)
  }

  /** equals and hashCode agree: equal wrappers hash alike. */
  lemma {:induction false} GKeyHashConsistent(g: GKeyVal, h: GKeyVal)
    requires GKeyEquals(g, WrappedProbe(h))
    ensures GKeyHash(g) == GKeyHash(h)
  {
  }

  /** Two keys name the same wrapper exactly when they are equal up to case (strings) or equal. */
  lemma {:induction false} WrappersEqualIff(a: Key, b: Key)
    requires a.StrKey? && b.StrKey?
    ensures GKeyEquals(MakeGKey(a), WrappedProbe(MakeGKey(b))) <==> EqualsIgnoreCase(a.s, b.s)
  {
  }

  /** A stored entry: the key object kept by the table and the value. */
  datatype Entry<V> = Entry(stored: Key, value: V)

  /** The equivalence class a key is looked up under. */
  function Slot(caseInsensitive: bool, k: Key): (c: Key)
    ensures !caseInsensitive ==> c == k
    ensures caseInsensitive ==> c == MakeGKey(k).key
  {
    if caseInsensitive then MakeGKey(k).key else k
  }

  /** Hashtable.put keeps the key object already stored and replaces only the value. */
  function PutSpec<V>(ci: bool, t: map<Key, Entry<V>>, k: Key, v: V): map<Key, Entry<V>> {
    var c := Slot(ci, k);
    t[c := Entry(if c in t then t[c].stored else k, v)]
  }

  function GetSpec<V>(ci: bool, t: map<Key, Entry<V>>, k: Key): Option<V> {
    var c := Slot(ci, k);
    if c in t then Some(t[c].value) else None
  }

  function RemoveSpec<V>(ci: bool, t: map<Key, Entry<V>>, k: Key): map<Key, Entry<V>> {
    t - {Slot(ci, k)}
  }

  /** The keys an enumeration yields: the stored, unfolded key objects. */
  function KeysSpec<V>(t: map<Key, Entry<V>>): set<Key> {
    set c | c in t :: t[c].stored
  }

  /** Every stored key sits in its own slot. */
  ghost predicate WellFormed<V>(ci: bool, t: map<Key, Entry<V>>) {
    forall c :: c in t ==> Slot(ci, t[c].stored) == c
  }

  class GHashtable<V> {
    const caseInsensitive: bool
    var table: map<Key, Entry<V>>

    ghost predicate Valid() reads this {
      WellFormed(caseInsensitive, table)
    }

    constructor (caseInsensitive: bool)
      ensures Valid() && this.caseInsensitive == caseInsensitive && table == map[]
    {
      this.caseInsensitive := caseInsensitive;
      table := map[];
    }

    function ContainsKey(key: Key): (b: bool)
      reads this
      ensures b <==> Slot(caseInsensitive, key) in table
    {
      Slot(caseInsensitive, key) in table
    }

    function Get(key: Key): (r: Option<V>)
      reads this
      ensures r.Some? <==> ContainsKey(key)
      ensures r.Some? ==> r.value == table[Slot(caseInsensitive, key)].value
    {
      GetSpec(caseInsensitive, table, key)
    }

    /** Returns the value previously stored under the same slot, if any. */
    method Put(key: Key, value: V) returns (previous: Option<V>)
      requires Valid()
      modifies this
      ensures Valid()
      ensures previous == GetSpec(caseInsensitive, old(table), key)
      ensures table == PutSpec(caseInsensitive, old(table), key, value)
    {
      previous := GetSpec(caseInsensitive, table, key);
      var c := Slot(caseInsensitive, key);
      table := table[c := Entry(if c in table then table[c].stored else key, value)];
      SlotIdempotent(caseInsensitive, key);
    }

    method Remove(key: Key) returns (previous: Option<V>)
      requires Valid()
      modifies this
      ensures Valid()
      ensures previous == GetSpec(caseInsensitive, old(table), key)
      ensures table == RemoveSpec(caseInsensitive, old(table), key)
    {
      previous := GetSpec(caseInsensitive, table, key);
      table := table - {Slot(caseInsensitive, key)};
    }

    /** keys(): unwraps each stored GKey to the key as first submitted. */
    function Keys(): (ks: set<Key>)
      reads this
      ensures forall c :: c in table ==> table[c].stored in ks
      ensures forall k :: k in ks ==> exists c :: c in table && table[c].stored == k
    {
      KeysSpec(table)
    }
  }

  /** Folding an already folded key changes nothing. */
  lemma {:induction false} SlotIdempotent(ci: bool, k: Key)
    ensures Slot(ci, Slot(ci, k)) == Slot(ci, k)
  {
    if k.StrKey? { ToLowerIdempotent(k.s); }
  }

  /** In case-insensitive mode a get with any case variant finds what put stored. */
  lemma {:induction false} GetAfterPutIgnoresCase<V>(t: map<Key, Entry<V>>, k1: string, k2: string, v: V)
    requires EqualsIgnoreCase(k1, k2)
    ensures GetSpec(true, PutSpec(true, t, StrKey(k1), v), StrKey(k2)) == Some(v)
  {
  }

  /** containsKey and remove look up by the folded key, so any case variant removes the entry. */
  lemma {:induction false} RemoveIgnoresCase<V>(t: map<Key, Entry<V>>, k1: string, k2: string)
    requires EqualsIgnoreCase(k1, k2)
    ensures GetSpec(true, RemoveSpec(true, t, StrKey(k2)), StrKey(k1)) == None
  {
  }

  /** A second put under a case variant keeps the first key's spelling. */
  lemma {:induction false} PutKeepsFirstSpelling<V>(t: map<Key, Entry<V>>, k1: string, k2: string, v1: V, v2: V)
    requires EqualsIgnoreCase(k1, k2)
    requires MakeGKey(StrKey(k1)).key !in t
    ensures KeysSpec(PutSpec(true, PutSpec(true, t, StrKey(k1), v1), StrKey(k2), v2)) == KeysSpec(t) + {StrKey(k1)}
  {
    var c := MakeGKey(StrKey(k1)).key;
    var t1 := PutSpec(true, t, StrKey(k1), v1);
    var t2 := PutSpec(true, t1, StrKey(k2), v2);
    assert t2 == t[c := Entry(StrKey(k1), v2)];
    assert t2.Keys == t.Keys + {c};
  }

  /** The plain Hashtable over keys, for comparison with case-sensitive mode. */
  function PlainView<V>(t: map<Key, Entry<V>>): map<Key, V> {
    map c | c in t :: t[c].value
  }

  /** In case-sensitive mode put, get and remove are exactly the plain Hashtable's. */
  lemma {:induction false} CaseSensitiveIsPlain<V>(t: map<Key, Entry<V>>, k: Key, v: V)
    ensures PlainView(PutSpec(false, t, k, v)) == PlainView(t)[k := v]
    ensures PlainView(RemoveSpec(false, t, k)) == PlainView(t) - {k}
    ensures GetSpec(false, t, k) == (if k in PlainView(t) then Some(PlainView(t)[k]) else None)
  {
  }
}
