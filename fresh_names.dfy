// The naming loop shared by the schema editor's "create" operations: try the
// bare prefix ("New Field", "New Base"), then "prefix 2", "prefix 3", and so
// on, until a name is found that no existing entry answers to.
module FreshNames {
  import opened JavaLang

  /** The name tried at step i: the prefix at step 1, "prefix i" after it. */
  function Candidate(prefix: string, i: nat): string {
    if i < 2 then prefix else prefix + " " + NatToString(i)
  }

  /** The keys that the existing names occupy under the lookup's comparison. */
  function Keys(names: seq<string>, key: string -> string): set<string> {
    set n | n in names :: key(n)
  }

  /** Whether a lookup of name finds one of the existing names. */
  predicate Taken(name: string, names: seq<string>, key: string -> string) {
    exists n :: n in names && key(n) == key(name)
  }

  /** No two steps of the search try names that the lookup cannot tell apart. */
  ghost predicate Separated(prefix: string, key: string -> string) {
    forall a: nat, b: nat :: 1 <= a < b ==> key(Candidate(prefix, a)) != key(Candidate(prefix, b))
  }

  /**
   * `newName = prefix; i = 2; while (lookup(newName) != null) newName = prefix + " " + i++;`
   * The result is the first name of the sequence that is not taken, at step n.
   */
  method FirstFree(prefix: string, names: seq<string>, key: string -> string) returns (name: string, n: nat)
    requires Separated(prefix, key)
    ensures n >= 1 && name == Candidate(prefix, n)
    ensures !Taken(name, names, key)
    ensures forall j :: 1 <= j < n ==> Taken(Candidate(prefix, j), names, key)
    ensures n <= |Keys(names, key)| + 1
  {
    name := prefix;
    var i := 2;
    while Taken(name, names, key)
      invariant i >= 2 && name == Candidate(prefix, i - 1)
      invariant forall j :: 1 <= j < i - 1 ==> Taken(Candidate(prefix, j), names, key)
      invariant i - 2 <= |Keys(names, key)|
      decreases |Keys(names, key)| - (i - 2)
    {
      TriedKeys(prefix, names, key, i - 1);
      name := prefix + " " + IntToString(i);
      i := i + 1;
    }
    n := i - 1;
  }

  /** The keys of the names tried in the first k steps. */
  function KeysTried(prefix: string, key: string -> string, k: nat): set<string> {
    if k == 0 then {} else KeysTried(prefix, key, k - 1) + {key(Candidate(prefix, k))}
  }

  /** k taken steps occupy k distinct keys of the existing names, so k cannot pass their number. */
  lemma {:induction false} TriedKeys(prefix: string, names: seq<string>, key: string -> string, k: nat)
    requires Separated(prefix, key)
    requires forall j :: 1 <= j <= k ==> Taken(Candidate(prefix, j), names, key)
    ensures KeysTried(prefix, key, k) <= Keys(names, key)
    ensures |KeysTried(prefix, key, k)| == k
    ensures k <= |Keys(names, key)|
  {
    if k > 0 {
      TriedKeys(prefix, names, key, k - 1);
      var n :| n in names && key(n) == key(Candidate(prefix, k));
      assert key(Candidate(prefix, k)) in Keys(names, key);
      NotTriedYet(prefix, key, k - 1, k);
    }
    SubsetSize(KeysTried(prefix, key, k), Keys(names, key));
  }

  lemma {:induction false} NotTriedYet(prefix: string, key: string -> string, k: nat, b: nat)
    requires Separated(prefix, key)
    requires k < b
    ensures key(Candidate(prefix, b)) !in KeysTried(prefix, key, k)
  {
    if k > 0 {
      NotTriedYet(prefix, key, k - 1, b);
      assert key(Candidate(prefix, k)) != key(Candidate(prefix, b));
    }
  }

  lemma {:induction false} SubsetSize(a: set<string>, b: set<string>)
    requires a <= b
    ensures |a| <= |b|
  {
    if a != {} {
      var x :| x in a;
      SubsetSize(a - {x}, b - {x});
    }
  }

  // ---------------------------------------------------------------- keys

  lemma {:induction false} NatToStringInjective(a: nat, b: nat)
    requires NatToString(a) == NatToString(b)
    ensures a == b
  {
    DigitsOfNat(a);
    DigitsOfNat(b);
  }

  /** With exact lookup (Hashtable of field names), every step tries a new name. */
  lemma ExactSeparated(prefix: string)
    ensures Separated(prefix, n => n)
  {
    forall a: nat, b: nat | 1 <= a < b
      ensures Candidate(prefix, a) != Candidate(prefix, b)
    {
      var s := prefix + " ";
      if a >= 2 && Candidate(prefix, a) == Candidate(prefix, b) {
        assert NatToString(a) == Candidate(prefix, a)[|s|..];
        assert NatToString(b) == Candidate(prefix, b)[|s|..];
        NatToStringInjective(a, b);
      }
    }
  }

  lemma {:induction false} ToLowerConcat(a: string, b: string)
    ensures ToLower(a + b) == ToLower(a) + ToLower(b)
  {
    assert forall k :: 0 <= k < |a + b| ==> ToLower(a + b)[k] == (ToLower(a) + ToLower(b))[k];
  }

  lemma ToLowerDigits(s: string)
    requires forall k :: 0 <= k < |s| ==> IsDigit(s[k])
    ensures ToLower(s) == s
  {
  }

  /** With equalsIgnoreCase lookup (base names), every step tries a new name too. */
  lemma LowerSeparated(prefix: string)
    ensures Separated(prefix, n => ToLower(n))
  {
    var s := prefix + " ";
    forall a: nat, b: nat | 1 <= a < b
      ensures ToLower(Candidate(prefix, a)) != ToLower(Candidate(prefix, b))
    {
      ToLowerConcat(s, NatToString(b));
      ToLowerDigits(NatToString(b));
      if a >= 2 {
        ToLowerConcat(s, NatToString(a));
        ToLowerDigits(NatToString(a));
        if ToLower(Candidate(prefix, a)) == ToLower(Candidate(prefix, b)) {
          assert NatToString(a) == ToLower(Candidate(prefix, a))[|s|..];
          assert NatToString(b) == ToLower(Candidate(prefix, b))[|s|..];
          NatToStringInjective(a, b);
        }
      }
    }
  }
}
