// The query matcher: decides whether one object satisfies a query tree of
// NOT, AND, OR and data nodes.  The data nodes seen here are those of the
// later query classes, with array operators, DEFINED and regular-expression
// comparators; the model gives them their own view.
module DBQueryHandler {
  import opened Wrappers
  import opened JavaLang
  import opened Invids

  datatype Comparator =
    | EQUALS | LESS | LESSEQ | GREAT | GREATEQ
    | NOCASEEQ | STARTSWITH | ENDSWITH
    | DEFINED | MATCHES | NOCASEMATCHES
    | UNDEFINED  // any other comparator code

  datatype ArrayOp = NONE | CONTAINS | LENGTHEQ | LENGTHGR | LENGTHLE

  /** The run-time class of a value held by a field or a query node; VNull is Java's null. */
  datatype Value =
    | VNull
    | VString(s: string)
    | VInvid(invid: Invid)
    | VBytes(bytes: seq<JByte>)
    | VBool(b: bool)
    | VDate(time: JLong)
    | VInt(n: JInt)
    | VOther(tag: int)

  datatype FieldContent = Scalar(value: Value) | Vector(values: seq<Value>)

  datatype Field = Field(defined: bool, content: FieldContent)

  /** An object: its handle, its label, its fields by id, and the ids of its field names. */
  datatype DBObject = DBObject(invid: Invid, objectLabel: Option<string>, fields: map<int, Field>, fieldIds: map<string, int>)

  datatype DataNode = DataNode(fieldname: Option<string>, fieldId: int, comparator: Comparator, arrayOp: ArrayOp, value: Value)

  /** A query tree; NullNode is a null child. */
  datatype QueryNode =
    | NullNode
    | NotNode(child: QueryNode)
    | AndNode(child1: QueryNode, child2: QueryNode)
    | OrNode(child1: QueryNode, child2: QueryNode)
    | Data(node: DataNode)

  datatype Query = Query(root: QueryNode)

  /**
   * What the matcher asks of its surroundings: the session's label lookup,
   * and the regular-expression engine, which answers None when the pattern
   * does not compile and otherwise whether the subject contains a match.
   */
  datatype Session = Session(
    viewObjectLabel: Option<Invid> -> Option<string>,
    regexMatch: (string, string, bool) -> Option<bool>)

  function FieldByName(obj: DBObject, name: string): Option<Field> {
    if name in obj.fieldIds && obj.fieldIds[name] in obj.fields then Some(obj.fields[obj.fieldIds[name]]) else None
  }

  function FieldById(obj: DBObject, id: int): Option<Field> {
    if id in obj.fields then Some(obj.fields[id]) else None
  }

  // ---------------------------------------------------------------- casts

  /** (String) v */
  function AsString(v: Value): (r: Outcome<Option<string>>)
    ensures r.Threw? <==> !(v.VNull? || v.VString?)
    ensures r.Threw? ==> r.exc == ClassCast
  {
    match v
    case VNull => Returned(None)
    case VString(s) => Returned(Some(s))
    case _ => Threw(ClassCast)
  }

  /** (Invid) v */
  function AsInvid(v: Value): (r: Outcome<Option<Invid>>)
    ensures r.Threw? <==> !(v.VNull? || v.VInvid?)
    ensures r.Threw? ==> r.exc == ClassCast
  {
    match v
    case VNull => Returned(None)
    case VInvid(i) => Returned(Some(i))
    case _ => Threw(ClassCast)
  }

  /** (Byte[]) v */
  function AsBytes(v: Value): (r: Outcome<Option<seq<JByte>>>)
    ensures r.Threw? <==> !(v.VNull? || v.VBytes?)
    ensures r.Threw? ==> r.exc == ClassCast
  {
    match v
    case VNull => Returned(None)
    case VBytes(b) => Returned(Some(b))
    case _ => Threw(ClassCast)
  }

  // ---------------------------------------------------------------- strings

  /**
   * compareString: the field value string2 is the subject and the query
   * value string1 the pattern, prefix, suffix or bound.  In every call the
   * query value is the string1 argument, so the regular expression is
   * compiled from it.
   */
  function CompareString(s: Session, c: Comparator, string1: Option<string>, string2: Option<string>): bool {
    if string1.None? || string2.None? then false
    else
      var q := string1.value;
      var f := string2.value;
      match c
      case MATCHES => var m := s.regexMatch(q, f, false); m.Some? && m.value
      case NOCASEMATCHES => var m := s.regexMatch(q, f, true); m.Some? && m.value
      case EQUALS => f == q
      case NOCASEEQ => EqualsIgnoreCase(f, q)
      case STARTSWITH => StartsWith(f, q)
      case ENDSWITH => EndsWith(f, q)
      case LESS => CompareTo(f, q) < 0
      case LESSEQ => CompareTo(f, q) <= 0
      case GREAT => CompareTo(f, q) > 0
      case GREATEQ => CompareTo(f, q) >= 0
      case _ => false
  }

  /** A null on either side never matches. */
  lemma {:induction false} CompareStringNull(s: Session, c: Comparator, a: Option<string>, b: Option<string>)
    requires a.None? || b.None?
    ensures !CompareString(s, c, a, b)
  {
  }

  /** The four ordered comparators are the lexicographic order of field value against query value. */
  lemma {:induction false} CompareStringOrder(s: Session, q: string, f: string)
    ensures CompareString(s, LESS, Some(q), Some(f)) <==> !CompareString(s, GREATEQ, Some(q), Some(f))
    ensures CompareString(s, LESSEQ, Some(q), Some(f)) <==>
      CompareString(s, LESS, Some(q), Some(f)) || CompareString(s, EQUALS, Some(q), Some(f))
    ensures CompareString(s, GREAT, Some(q), Some(f)) <==> CompareString(s, LESS, Some(f), Some(q))
    ensures CompareString(s, EQUALS, Some(q), Some(f)) <==> CompareString(s, EQUALS, Some(f), Some(q))
  {
    CompareToZeroIff(f, q);
    CompareToAntisymmetric(f, q);
  }

  /** The order comparators are transitive along a chain of field values. */
  lemma {:induction false} CompareStringLessTransitive(s: Session, a: string, b: string, c: string)
    requires CompareString(s, LESS, Some(b), Some(a)) && CompareString(s, LESS, Some(c), Some(b))
    ensures CompareString(s, LESS, Some(c), Some(a))
  {
    CompareToTransitive(a, b, c);
  }

  /** Equality ignoring case is weaker than equality, and NOCASEEQ holds between a value and its folding. */
  lemma {:induction false} NoCaseEqualsFolding(s: Session, q: string, f: string)
    ensures CompareString(s, EQUALS, Some(q), Some(f)) ==> CompareString(s, NOCASEEQ, Some(q), Some(f))
    ensures CompareString(s, NOCASEEQ, Some(ToLower(q)), Some(q))
  {
    ToLowerIdempotent(q);
  }

  // ---------------------------------------------------------------- scans

  /** The CONTAINS loops: test each element in order; stop at the first match or exception. */
  function Scan(vs: seq<Value>, test: Value -> Outcome<bool>): Outcome<bool> {
    if vs == [] then Returned(false)
    else
      var t := test(vs[0]);
      if t.Threw? || t.value then t else Scan(vs[1..], test)
  }

  /** A scan succeeds iff some element matches and every element before it fails cleanly. */
  lemma {:induction false} ScanTrueIff(vs: seq<Value>, test: Value -> Outcome<bool>)
    ensures Scan(vs, test) == Returned(true) <==>
      exists i :: 0 <= i < |vs| && test(vs[i]) == Returned(true) &&
        forall j :: 0 <= j < i ==> test(vs[j]) == Returned(false)
  {
    if vs != [] {
      ScanTrueIff(vs[1..], test);
      if Scan(vs, test) == Returned(true) && test(vs[0]) != Returned(true) {
        var i :| 0 <= i < |vs| - 1 && test(vs[1..][i]) == Returned(true) &&
          forall j :: 0 <= j < i ==> test(vs[1..][j]) == Returned(false);
        assert test(vs[i + 1]) == Returned(true);
        assert forall j :: 1 <= j < i + 1 ==> test(vs[j]) == test(vs[1..][j - 1]);
      }
      if exists i :: 0 <= i < |vs| && test(vs[i]) == Returned(true) &&
          forall j :: 0 <= j < i ==> test(vs[j]) == Returned(false) {
        var i :| 0 <= i < |vs| && test(vs[i]) == Returned(true) &&
          forall j :: 0 <= j < i ==> test(vs[j]) == Returned(false);
        if i > 0 {
          assert test(vs[1..][i - 1]) == Returned(true);
          assert forall j :: 0 <= j < i - 1 ==> test(vs[1..][j]) == test(vs[j + 1]);
        }
      }
    }
  }

  /** A scan returns false iff every element fails cleanly. */
  lemma {:induction false} ScanFalseIff(vs: seq<Value>, test: Value -> Outcome<bool>)
    ensures Scan(vs, test) == Returned(false) <==> forall i :: 0 <= i < |vs| ==> test(vs[i]) == Returned(false)
  {
    if vs != [] {
      ScanFalseIff(vs[1..], test);
      assert forall i :: 1 <= i < |vs| ==> test(vs[i]) == test(vs[1..][i - 1]);
    }
  }

  function StringTest(s: Session, c: Comparator, queryValue: string): Value -> Outcome<bool> {
    v => var a := AsString(v); if a.Threw? then Threw(a.exc) else Returned(CompareString(s, c, Some(queryValue), a.value))
  }

  function InvidTest(i1: Invid): Value -> Outcome<bool> {
    v => var a := AsInvid(v); if a.Threw? then Threw(a.exc) else Returned(a.value == Some(i1))
  }

  function LabelTest(s: Session, c: Comparator, queryValue: string): Value -> Outcome<bool> {
    v => var a := AsInvid(v);
      if a.Threw? then Threw(a.exc) else Returned(CompareString(s, c, Some(queryValue), s.viewObjectLabel(a.value)))
  }

  /** compareIPs(query, element): a null element is dereferenced. */
  function BytesTest(query: seq<JByte>): Value -> Outcome<bool> {
    v => var a := AsBytes(v);
      if a.Threw? then Threw(a.exc) else if a.value.None? then Threw(NullPointer) else Returned(a.value.value == query)
  }

  /**
   * compareStringArray: false for a null vector or any array operator but
   * CONTAINS; otherwise whether some element, cast to a string, matches.
   */
  method CompareStringArray(s: Session, c: Comparator, op: ArrayOp, queryValue: string, values: Option<seq<Value>>)
    returns (r: Outcome<bool>)
    ensures r == (if values.None? || op != CONTAINS then Returned(false)
                  else Scan(values.value, StringTest(s, c, queryValue)))
  {
    if values.None? || op != CONTAINS {
      return Returned(false);
    }
    var vs := values.value;
    ghost var test := StringTest(s, c, queryValue);
    var i := 0;
    while i < |vs|
      invariant 0 <= i <= |vs|
      invariant Scan(vs, test) == Scan(vs[i..], test)
    {
      assert vs[i..][1..] == vs[i + 1..];
      var a := AsString(vs[i]);
      if a.Threw? {
        return Threw(a.exc);
      }
      if CompareString(s, c, Some(queryValue), a.value) {
        return Returned(true);
      }
      i := i + 1;
    }
    return Returned(false);
  }

  // ---------------------------------------------------------------- bytes

  /** s2u: a signed byte read as the unsigned value it encodes. */
  function S2U(b: JByte): (u: JShort)
    ensures 0 <= u < 256
  {
    b + 128
  }

  /** u2s: an unsigned value in 0..255 stored as a signed byte. */
  function U2S(x: int): (r: Outcome<JByte>)
    ensures r.Returned? <==> 0 <= x <= 255
    ensures r.Threw? ==> r.exc == IllegalArgument
  {
    if x < 0 || x > 255 then Threw(IllegalArgument) else Returned(x - 128)
  }

  lemma {:induction false} ByteRoundTrips(x: int, b: JByte)
    ensures 0 <= x <= 255 ==> U2S(x).Returned? && S2U(U2S(x).value) == x
    ensures U2S(S2U(b)) == Returned(b)
  {
  }

  /** The longest prefix of an address that does not end in an (unsigned) zero byte. */
  function NoPad(ip: seq<JByte>): (r: seq<JByte>)
    ensures StartsWith(ip, r)
    ensures r == [] || S2U(r[|r| - 1]) != 0
    ensures forall k :: |r| <= k < |ip| ==> S2U(ip[k]) == 0
  {
    if ip != [] && S2U(ip[|ip| - 1]) == 0 then NoPad(ip[..|ip| - 1]) else ip
  }

  /** Padding an address with zero bytes does not change its unpadded form. */
  lemma {:induction false} NoPadIgnoresPadding(ip: seq<JByte>, k: nat)
    ensures NoPad(ip + seq(k, _ => -128)) == NoPad(ip)
  {
    var padded := ip + seq(k, _ => -128);
    if k == 0 {
      assert padded == ip;
    } else {
      assert padded[|padded| - 1] == -128;
      assert padded[..|padded| - 1] == ip + seq(k - 1, _ => -128);
      NoPadIgnoresPadding(ip, k - 1);
    }
  }

  /** A prefix followed only by zero bytes and not itself ending in one is the unpadded form. */
  lemma {:induction false} NoPadIsPrefix(ip: seq<JByte>, i: int)
    requires 0 <= i <= |ip| && (i == 0 || S2U(ip[i - 1]) != 0)
    requires forall k :: i <= k < |ip| ==> S2U(ip[k]) == 0
    ensures NoPad(ip) == ip[..i]
    decreases |ip|
  {
    if |ip| == i {
      assert ip[..i] == ip;
    } else {
      var p := ip[..|ip| - 1];
      assert S2U(ip[|ip| - 1]) == 0;
      assert NoPad(ip) == NoPad(p);
      forall k | i <= k < |p| ensures S2U(p[k]) == 0 {
        assert p[k] == ip[k];
      }
      if i > 0 {
        assert p[i - 1] == ip[i - 1];
      }
      NoPadIsPrefix(p, i);
      assert p[..i] == ip[..i];
    }
  }

  /** ipAddrNoPad: strips the trailing zero bytes, then copies what is left. */
  method IpAddrNoPad(ipaddr: seq<JByte>) returns (result: seq<JByte>)
    ensures result == NoPad(ipaddr)
  {
    var i := |ipaddr|;
    while i > 0 && S2U(ipaddr[i - 1]) == 0
      invariant 0 <= i <= |ipaddr|
      invariant forall k :: i <= k < |ipaddr| ==> S2U(ipaddr[k]) == 0
    {
      i := i - 1;
    }
    NoPadIsPrefix(ipaddr, i);
    result := [];
    var k := 0;
    while k < i
      invariant 0 <= k <= i
      invariant result == ipaddr[..k]
    {
      assert ipaddr[..k + 1] == ipaddr[..k] + [ipaddr[k]];
      result := result + [ipaddr[k]];
      k := k + 1;
    }
  }

  /** compareIPs: same length and the same byte at every position. */
  method CompareIPs(param1: seq<JByte>, param2: seq<JByte>) returns (r: bool)
    ensures r <==> param1 == param2
  {
    if |param1| != |param2| {
      return false;
    }
    var i := 0;
    while i < |param1|
      invariant 0 <= i <= |param1|
      invariant param1[..i] == param2[..i]
    {
      if param1[i] != param2[i] {
        return false;
      }
      assert param1[..i + 1] == param1[..i] + [param1[i]];
      assert param2[..i + 1] == param2[..i] + [param2[i]];
      i := i + 1;
    }
    assert param1 == param1[..i] && param2 == param2[..i];
    return true;
  }

  /** ipBeginsWith: the unpadded second address is a prefix of the first. */
  method IpBeginsWith(param1: seq<JByte>, param2: seq<JByte>) returns (r: bool)
    ensures r <==> StartsWith(param1, NoPad(param2))
  {
    var prefix := IpAddrNoPad(param2);
    if |prefix| > |param1| {
      return false;
    }
    var i := 0;
    while i < |prefix|
      invariant 0 <= i <= |prefix|
      invariant prefix[..i] == param1[..i]
    {
      if prefix[i] != param1[i] {
        return false;
      }
      assert prefix[..i + 1] == prefix[..i] + [prefix[i]];
      assert param1[..i + 1] == param1[..i] + [param1[i]];
      i := i + 1;
    }
    assert prefix == prefix[..i];
    return true;
  }

  /** ipEndsWith: the unpadded second address is a suffix of the first. */
  method IpEndsWith(param1: seq<JByte>, param2: seq<JByte>) returns (r: bool)
    ensures r <==> EndsWith(param1, NoPad(param2))
  {
    var suffix := IpAddrNoPad(param2);
    if |suffix| > |param1| {
      return false;
    }
    var i := |param1| - 1;
    var j := |suffix| - 1;
    while j >= 0
      invariant -1 <= j < |suffix| && i == j + |param1| - |suffix|
      invariant forall m :: j < m < |suffix| ==> suffix[m] == param1[m + |param1| - |suffix|]
    {
      if suffix[j] != param1[i] {
        assert param1[|param1| - |suffix|..][j] == param1[i];
        return false;
      }
      i := i - 1;
      j := j - 1;
    }
    assert param1[|param1| - |suffix|..] == suffix by {
      forall m | 0 <= m < |suffix| ensures param1[|param1| - |suffix|..][m] == suffix[m] {
        assert suffix[m] == param1[m + |param1| - |suffix|];
      }
    }
    return true;
  }

  // ---------------------------------------------------------------- scalars

  /** The five ordered comparators on integers and dates; any other comparator fails. */
  function Ordered(c: Comparator, x: int, y: int): bool {
    match c
    case EQUALS => x == y
    case LESS => x < y
    case LESSEQ => x <= y
    case GREAT => x > y
    case GREATEQ => x >= y
    case _ => false
  }

  // ---------------------------------------------------------------- nodes

  /** The array-length tests; a label or a scalar field cannot be measured. */
  function LengthMatch(n: DataNode, field: Option<Field>): Outcome<bool>
    requires n.arrayOp.LENGTHEQ? || n.arrayOp.LENGTHGR? || n.arrayOp.LENGTHLE?
  {
    if field.None? then Threw(NullPointer)
    else if !field.value.content.Vector? then Threw(Runtime)
    else
      var size := |field.value.content.values|;
      match n.value
      case VInt(k) =>
        (match n.arrayOp
         case LENGTHEQ => Returned(k == size)
         case LENGTHGR => Returned(size > k)
         case LENGTHLE => Returned(size > k))
      case VNull => Threw(NullPointer)
      case _ => Threw(ClassCast)
  }

  /** The type-directed comparisons, given the scalar value (or null) and the vector (or null). */
  function TypedMatch(s: Session, n: DataNode, value: Value, values: Option<seq<Value>>): Outcome<bool> {
    // the first element stands for the class of a vector ("assume type consistent array")
    var first := if values.Some? && |values.value| > 0 then values.value[0] else VNull;
    if n.value.VString? && (value.VString? || first.VString?) then
      if n.arrayOp == NONE then
        var a := AsString(value);
        if a.Threw? then Threw(a.exc) else Returned(CompareString(s, n.comparator, Some(n.value.s), a.value))
      else if values.None? || n.arrayOp != CONTAINS then Returned(false)
      else Scan(values.value, StringTest(s, n.comparator, n.value.s))
    else if n.value.VInvid? && (value.VInvid? || first.VInvid?) then
      if n.comparator != EQUALS then Returned(false)
      else if n.arrayOp == NONE then
        var a := AsInvid(value);
        if a.Threw? then Threw(a.exc) else Returned(a.value == Some(n.value.invid))
      else if n.arrayOp != CONTAINS then Returned(false)
      else if values.None? then Threw(NullPointer)
      else Scan(values.value, InvidTest(n.value.invid))
    else if n.value.VString? && (value.VInvid? || first.VInvid?) then
      if n.arrayOp == NONE then
        var a := AsInvid(value);
        if a.Threw? then Threw(a.exc)
        else Returned(CompareString(s, n.comparator, Some(n.value.s), s.viewObjectLabel(a.value)))
      else if n.arrayOp != CONTAINS then Returned(false)
      else if values.None? then Threw(NullPointer)
      else Scan(values.value, LabelTest(s, n.comparator, n.value.s))
    else if n.value.VBytes? then
      var query := n.value.bytes;
      if n.arrayOp == NONE then
        var a := AsBytes(value);
        if a.Threw? then Threw(a.exc)
        else if !(n.comparator.EQUALS? || n.comparator.STARTSWITH? || n.comparator.ENDSWITH?) then Returned(false)
        else if a.value.None? then Threw(NullPointer)
        else
          var field := a.value.value;
          match n.comparator
          case EQUALS => Returned(field == query)
          case STARTSWITH => Returned(StartsWith(field, NoPad(query)))
          case ENDSWITH => Returned(EndsWith(field, NoPad(query)))
      else if n.comparator != EQUALS || n.arrayOp != CONTAINS then Returned(false)
      else if values.None? then Threw(NullPointer)
      else Scan(values.value, BytesTest(query))
    else if n.arrayOp != NONE then Returned(false)
    else if value.VBool? then Returned(n.comparator == EQUALS && n.value == value)
    else if value.VDate? then
      match n.value
      case VDate(t) => Returned(Ordered(n.comparator, value.time, t))
      case VNull => Threw(NullPointer)
      case _ => Threw(ClassCast)
    else if value.VInt? then
      match n.value
      case VInt(k) => Returned(Ordered(n.comparator, value.n, k))
      case VNull => Threw(NullPointer)
      case _ => Threw(ClassCast)
    else Returned(false)
  }

  /** The data-node case of nodeMatch, before class-cast failures are turned into false. */
  function DataMatch(s: Session, n: DataNode, obj: DBObject): Outcome<bool> {
    if n.fieldId == -2 then Returned(n.comparator == EQUALS && n.value == VInvid(obj.invid))
    else
      // None: the named or numbered field is missing or undefined; Some(None): the label.
      var lookup: Option<Option<Field>> :=
        if n.fieldname.Some? then
          var f := FieldByName(obj, n.fieldname.value); if f.Some? && f.value.defined then Some(f) else None
        else if n.fieldId != -1 then
          var f := FieldById(obj, n.fieldId); if f.Some? && f.value.defined then Some(f) else None
        else Some(None);
      if lookup.None? then Returned(false)
      else
        var field := lookup.value;
        var value :=
          if field.None? then (if obj.objectLabel.Some? then VString(obj.objectLabel.value) else VNull)
          else if field.value.content.Scalar? then field.value.content.value
          else VNull;
        var values := if field.Some? && field.value.content.Vector? then Some(field.value.content.values) else None;
        if n.comparator == DEFINED then
          if field.None? then Threw(NullPointer) else Returned(field.value.defined)
        else if n.arrayOp.LENGTHEQ? || n.arrayOp.LENGTHGR? || n.arrayOp.LENGTHLE? then LengthMatch(n, field)
        else TypedMatch(s, n, value, values)
  }

  /** nodeMatch: a class-cast failure anywhere in a data node makes it false. */
  function NodeMatch(s: Session, q: QueryNode, obj: DBObject): (r: Outcome<bool>)
    ensures r.Threw? ==> r.exc != ClassCast
  {
    match q
    case NullNode => Returned(false)
    case NotNode(c) =>
      var rc := NodeMatch(s, c, obj);
      if rc.Threw? then rc else Returned(!rc.value)
    case AndNode(a, b) =>
      var ra := NodeMatch(s, a, obj);
      if ra.Threw? || !ra.value then ra else NodeMatch(s, b, obj)
    case OrNode(a, b) =>
      var ra := NodeMatch(s, a, obj);
      if ra.Threw? || ra.value then ra else NodeMatch(s, b, obj)
    case Data(n) =>
      var rd := DataMatch(s, n, obj);
      if rd.Threw? && rd.exc == ClassCast then Returned(false) else rd
  }

  /** matches: a null query or object throws; an empty query matches everything. */
  function Matches(s: Session, q: Option<Query>, obj: Option<DBObject>): (r: Outcome<bool>)
    ensures q.None? || obj.None? ==> r == Threw(NullPointer)
    ensures q.Some? && obj.Some? && q.value.root == NullNode ==> r == Returned(true)
    ensures q.Some? && obj.Some? && q.value.root != NullNode ==> r == NodeMatch(s, q.value.root, obj.value)
  {
    if q.None? || obj.None? then Threw(NullPointer)
    else if q.value.root == NullNode then Returned(true)
    else NodeMatch(s, q.value.root, obj.value)
  }

  // ---------------------------------------------------------------- laws

  /** A null node never matches, so its negation matches everything. */
  lemma {:induction false} NullNodeLaws(s: Session, obj: DBObject)
    ensures NodeMatch(s, NullNode, obj) == Returned(false)
    ensures NodeMatch(s, NotNode(NullNode), obj) == Returned(true)
  {
  }

  /** When both children return, NOT, AND and OR are the boolean connectives. */
  lemma {:induction false} ConnectivesWhenTotal(s: Session, a: QueryNode, b: QueryNode, obj: DBObject)
    requires NodeMatch(s, a, obj).Returned? && NodeMatch(s, b, obj).Returned?
    ensures NodeMatch(s, NotNode(a), obj) == Returned(!NodeMatch(s, a, obj).value)
    ensures NodeMatch(s, AndNode(a, b), obj) == Returned(NodeMatch(s, a, obj).value && NodeMatch(s, b, obj).value)
    ensures NodeMatch(s, OrNode(a, b), obj) == Returned(NodeMatch(s, a, obj).value || NodeMatch(s, b, obj).value)
    ensures NodeMatch(s, AndNode(a, b), obj) == NodeMatch(s, AndNode(b, a), obj)
    ensures NodeMatch(s, OrNode(a, b), obj) == NodeMatch(s, OrNode(b, a), obj)
  {
  }

  /** AND and OR evaluate left to right: a failing left child hides the right one. */
  lemma {:induction false} ShortCircuit(s: Session, a: QueryNode, b: QueryNode, obj: DBObject)
    ensures NodeMatch(s, a, obj) == Returned(false) ==> NodeMatch(s, AndNode(a, b), obj) == Returned(false)
    ensures NodeMatch(s, a, obj) == Returned(true) ==> NodeMatch(s, OrNode(a, b), obj) == Returned(true)
    ensures NodeMatch(s, a, obj).Threw? ==>
      NodeMatch(s, AndNode(a, b), obj) == NodeMatch(s, a, obj) == NodeMatch(s, OrNode(a, b), obj)
  {
  }

  /** Double negation and De Morgan's laws hold exactly, exceptions included. */
  lemma {:induction false} NegationLaws(s: Session, a: QueryNode, b: QueryNode, obj: DBObject)
    ensures NodeMatch(s, NotNode(NotNode(a)), obj) == NodeMatch(s, a, obj)
    ensures NodeMatch(s, NotNode(AndNode(a, b)), obj) == NodeMatch(s, OrNode(NotNode(a), NotNode(b)), obj)
    ensures NodeMatch(s, NotNode(OrNode(a, b)), obj) == NodeMatch(s, AndNode(NotNode(a), NotNode(b)), obj)
  {
  }

  /** Field id -2 compares the object's handle, and only EQUALS can match. */
  lemma {:induction false} InvidNode(s: Session, n: DataNode, obj: DBObject)
    requires n.fieldId == -2
    ensures NodeMatch(s, Data(n), obj) == Returned(n.comparator == EQUALS && n.value == VInvid(obj.invid))
  {
  }

  /** A named or numbered field that is missing or undefined never matches. */
  lemma {:induction false} MissingFieldFails(s: Session, n: DataNode, obj: DBObject)
    requires n.fieldId != -2
    requires n.fieldname.Some? ==>
      var f := FieldByName(obj, n.fieldname.value); f.None? || !f.value.defined
    requires n.fieldname.None? ==>
      n.fieldId != -1 && var f := FieldById(obj, n.fieldId); f.None? || !f.value.defined
    ensures NodeMatch(s, Data(n), obj) == Returned(false)
  {
  }

  /** The length operators on a defined vector field; as written LENGTHLE tests the same as LENGTHGR. */
  lemma {:induction false} LengthOperators(s: Session, n: DataNode, obj: DBObject, k: JInt)
    requires n.fieldname.None? && n.fieldId != -1 && n.fieldId != -2 && n.comparator != DEFINED
    requires n.fieldId in obj.fields && obj.fields[n.fieldId].defined
    requires obj.fields[n.fieldId].content.Vector? && n.value == VInt(k)
    ensures var size := |obj.fields[n.fieldId].content.values|;
      && (n.arrayOp == LENGTHEQ ==> NodeMatch(s, Data(n), obj) == Returned(size == k))
      && (n.arrayOp == LENGTHGR ==> NodeMatch(s, Data(n), obj) == Returned(size > k))
      && (n.arrayOp == LENGTHLE ==> NodeMatch(s, Data(n), obj) == Returned(size > k))
  {
  }

  /** A length test on a scalar field throws; on the label it dereferences a null field. */
  lemma {:induction false} LengthOfScalarThrows(s: Session, n: DataNode, obj: DBObject)
    requires n.fieldname.None? && n.comparator != DEFINED
    requires n.arrayOp.LENGTHEQ? || n.arrayOp.LENGTHGR? || n.arrayOp.LENGTHLE?
    requires n.fieldId == -1 || (n.fieldId != -2 && n.fieldId in obj.fields &&
      obj.fields[n.fieldId].defined && obj.fields[n.fieldId].content.Scalar?)
    ensures n.fieldId == -1 ==> NodeMatch(s, Data(n), obj) == Threw(NullPointer)
    ensures n.fieldId != -1 ==> NodeMatch(s, Data(n), obj) == Threw(Runtime)
  {
  }

  /** A scalar integer or date field against a like query value: the five ordered comparators. */
  lemma {:induction false} ScalarOrdered(s: Session, n: DataNode, obj: DBObject)
    requires n.fieldname.None? && n.fieldId != -1 && n.fieldId != -2
    requires n.comparator != DEFINED && n.arrayOp == NONE
    requires n.fieldId in obj.fields && obj.fields[n.fieldId].defined
    requires obj.fields[n.fieldId].content.Scalar?
    ensures var v := obj.fields[n.fieldId].content.value;
      && (v.VInt? && n.value.VInt? ==> NodeMatch(s, Data(n), obj) == Returned(Ordered(n.comparator, v.n, n.value.n)))
      && (v.VDate? && n.value.VDate? ==>
            NodeMatch(s, Data(n), obj) == Returned(Ordered(n.comparator, v.time, n.value.time)))
  {
  }

  /** Only the five ordered comparators can match on integers and dates. */
  lemma {:induction false} OrderedOnlyFive(c: Comparator, x: int, y: int)
    requires !(c.EQUALS? || c.LESS? || c.LESSEQ? || c.GREAT? || c.GREATEQ?)
    ensures !Ordered(c, x, y)
  {
  }

  /** A scalar string field is compared by compareString, with the field value as subject. */
  lemma {:induction false} ScalarString(s: Session, n: DataNode, obj: DBObject)
    requires n.fieldname.None? && n.fieldId != -1 && n.fieldId != -2
    requires n.comparator != DEFINED && n.arrayOp == NONE
    requires n.fieldId in obj.fields && obj.fields[n.fieldId].defined
    requires obj.fields[n.fieldId].content.Scalar? && obj.fields[n.fieldId].content.value.VString?
    requires n.value.VString?
    ensures NodeMatch(s, Data(n), obj) ==
      Returned(CompareString(s, n.comparator, Some(n.value.s), Some(obj.fields[n.fieldId].content.value.s)))
  {
  }

  /** The label node compares the object's label by compareString. */
  lemma {:induction false} LabelString(s: Session, n: DataNode, obj: DBObject)
    requires n.fieldname.None? && n.fieldId == -1
    requires n.comparator != DEFINED && n.arrayOp == NONE
    requires n.value.VString? && obj.objectLabel.Some?
    ensures NodeMatch(s, Data(n), obj) == Returned(CompareString(s, n.comparator, Some(n.value.s), obj.objectLabel))
  {
  }

  /** CONTAINS on a vector field is the scan of its elements. */
  lemma {:induction false} ContainsIsScan(s: Session, n: DataNode, obj: DBObject)
    requires n.fieldname.None? && n.fieldId != -1 && n.fieldId != -2
    requires n.comparator != DEFINED && n.arrayOp == CONTAINS && n.value.VString?
    requires n.fieldId in obj.fields && obj.fields[n.fieldId].defined
    requires obj.fields[n.fieldId].content.Vector?
    requires var vs := obj.fields[n.fieldId].content.values; |vs| > 0 && vs[0].VString?
    ensures DataMatch(s, n, obj) == Scan(obj.fields[n.fieldId].content.values, StringTest(s, n.comparator, n.value.s))
  {
  }

  /** A scan whose test never throws is the existential of the test. */
  lemma {:induction false} ScanOfPredicate(vs: seq<Value>, test: Value -> Outcome<bool>, p: Value -> bool)
    requires forall i :: 0 <= i < |vs| ==> test(vs[i]) == Returned(p(vs[i]))
    ensures Scan(vs, test) == Returned(exists i :: 0 <= i < |vs| && p(vs[i]))
  {
    if vs != [] {
      assert forall i :: 0 <= i < |vs| - 1 ==> vs[1..][i] == vs[i + 1];
      ScanOfPredicate(vs[1..], test, p);
      assert (exists i :: 0 <= i < |vs| && p(vs[i])) <==>
        p(vs[0]) || exists i :: 0 <= i < |vs| - 1 && p(vs[1..][i]);
    }
  }

  /** Scanning strings with compareString finds a match iff some element matches. */
  lemma {:induction false} StringScanIff(s: Session, c: Comparator, q: string, vs: seq<Value>)
    requires forall i :: 0 <= i < |vs| ==> vs[i].VString?
    ensures Scan(vs, StringTest(s, c, q)) ==
      Returned(exists i :: 0 <= i < |vs| && CompareString(s, c, Some(q), Some(vs[i].s)))
  {
    var p := (v: Value) => CompareString(s, c, Some(q), if v.VString? then Some(v.s) else None);
    var test := StringTest(s, c, q);
    forall i | 0 <= i < |vs|
      ensures test(vs[i]) == Returned(p(vs[i]))
    {
      assert AsString(vs[i]) == Returned(Some(vs[i].s));
    }
    ScanOfPredicate(vs, test, p);
    assert forall i :: 0 <= i < |vs| ==> p(vs[i]) == CompareString(s, c, Some(q), Some(vs[i].s));
  }

  /** CONTAINS on a vector of strings matches iff some element matches. */
  lemma {:induction false} ContainsString(s: Session, n: DataNode, obj: DBObject)
    requires n.fieldname.None? && n.fieldId != -1 && n.fieldId != -2
    requires n.comparator != DEFINED && n.arrayOp == CONTAINS && n.value.VString?
    requires n.fieldId in obj.fields && obj.fields[n.fieldId].defined
    requires obj.fields[n.fieldId].content.Vector?
    requires var vs := obj.fields[n.fieldId].content.values;
      |vs| > 0 && forall i :: 0 <= i < |vs| ==> vs[i].VString?
    ensures var vs := obj.fields[n.fieldId].content.values;
      NodeMatch(s, Data(n), obj) == Returned(exists i :: 0 <= i < |vs| && CompareString(s, n.comparator, Some(n.value.s), Some(vs[i].s)))
  {
    ContainsIsScan(s, n, obj);
    StringScanIff(s, n.comparator, n.value.s, obj.fields[n.fieldId].content.values);
  }

  /** A scalar address field: EQUALS, STARTSWITH and ENDSWITH against the unpadded query address. */
  lemma {:induction false} ScalarAddress(s: Session, n: DataNode, obj: DBObject)
    requires n.fieldname.None? && n.fieldId != -1 && n.fieldId != -2
    requires n.comparator != DEFINED && n.arrayOp == NONE && n.value.VBytes?
    requires n.fieldId in obj.fields && obj.fields[n.fieldId].defined
    requires obj.fields[n.fieldId].content.Scalar? && obj.fields[n.fieldId].content.value.VBytes?
    ensures var f := obj.fields[n.fieldId].content.value.bytes;
      && (n.comparator == EQUALS ==> NodeMatch(s, Data(n), obj) == Returned(f == n.value.bytes))
      && (n.comparator == STARTSWITH ==> NodeMatch(s, Data(n), obj) == Returned(StartsWith(f, NoPad(n.value.bytes))))
      && (n.comparator == ENDSWITH ==> NodeMatch(s, Data(n), obj) == Returned(EndsWith(f, NoPad(n.value.bytes))))
      && (!(n.comparator.EQUALS? || n.comparator.STARTSWITH? || n.comparator.ENDSWITH?) ==>
            NodeMatch(s, Data(n), obj) == Returned(false))
  {
  }
}
