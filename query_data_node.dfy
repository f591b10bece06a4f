// A leaf of a query tree: a comparison of one field (named, numbered, or the
// object's label) against a value.  This is the node as the query classes of
// this version define it: nine comparators numbered 1 to 9.
module QueryDataNode {
  import opened Wrappers
  import opened JavaLang

  const FIRST: JByte := 1
  const EQUALS: JByte := 1
  const LESS: JByte := 2
  const LESSEQ: JByte := 3
  const GREAT: JByte := 4
  const GREATEQ: JByte := 5
  const NOCASEEQ: JByte := 6
  const STARTSWITH: JByte := 7
  const ENDSWITH: JByte := 8
  const UNDEFINED: JByte := 9
  const LAST: JByte := 9

  /** A data node; the value is an arbitrary (possibly null) object. */
  datatype DataNode<V> = DataNode(fieldname: Option<string>, fieldId: JShort, comparator: JByte, value: Option<V>)

  /** The field-name constructor: field id -1. */
  function NewByName<V>(fieldname: Option<string>, comparator: JByte, value: Option<V>): (r: Outcome<DataNode<V>>)
    ensures r.Returned? <==> FIRST <= comparator <= LAST
    ensures r.Threw? ==> r.exc == IllegalArgument
    ensures r.Returned? ==> r.value.fieldname == fieldname && r.value.fieldId == -1
    ensures r.Returned? ==> r.value.comparator == comparator && r.value.value == value
  {
    if comparator < FIRST || comparator > LAST then Threw(IllegalArgument)
    else Returned(DataNode(fieldname, -1, comparator, value))
  }

  /** The field-id constructor: no field name; id -1 means the label, -2 the invid. */
  function NewById<V>(fieldId: JShort, comparator: JByte, value: Option<V>): (r: Outcome<DataNode<V>>)
    ensures r.Returned? <==> FIRST <= comparator <= LAST
    ensures r.Threw? ==> r.exc == IllegalArgument
    ensures r.Returned? ==> r.value.fieldname == None && r.value.fieldId == fieldId
    ensures r.Returned? ==> r.value.comparator == comparator && r.value.value == value
  {
    if comparator < FIRST || comparator > LAST then Threw(IllegalArgument)
    else Returned(DataNode(None, fieldId, comparator, value))
  }

  /** The label constructor: no field name and field id -1. */
  function NewOnLabel<V>(comparator: JByte, value: Option<V>): (r: Outcome<DataNode<V>>)
    ensures r.Returned? <==> FIRST <= comparator <= LAST
    ensures r.Threw? ==> r.exc == IllegalArgument
    ensures r.Returned? ==> r.value.fieldname == None && r.value.fieldId == -1
    ensures r.Returned? ==> r.value.comparator == comparator && r.value.value == value
  {
    if comparator < FIRST || comparator > LAST then Threw(IllegalArgument)
    else Returned(DataNode(None, -1, comparator, value))
  }

  /** The label constructor builds the node the id constructor builds for id -1. */
  lemma {:induction false} LabelIsIdMinusOne<V>(comparator: JByte, value: Option<V>)
    ensures NewOnLabel(comparator, value) == NewById(-1, comparator, value)
  {
  }

  const OPERATOR_ERROR := "Error: Operator undefined"

  function OperatorText(c: JByte): string {
    if c == 1 then "="
    else if c == 2 then "<"
    else if c == 3 then "<="
    else if c == 4 then ">"
    else if c == 5 then ">="
    else OPERATOR_ERROR
  }

  function FieldText<V>(n: DataNode<V>): string {
    if n.fieldname.Some? then "(fieldname " + n.fieldname.value + ")"
    else if n.fieldId != -1 then "(fieldname #" + IntToString(n.fieldId) + ")"
    else "(fieldname null)"
  }

  function ValueText<V>(n: DataNode<V>, show: V -> string): string {
    if n.value.None? then "(value undefined)" else "(value " + show(n.value.value) + ")"
  }

  /** dumpToString; `show` is the value's toString. */
  function DumpToString<V>(n: DataNode<V>, show: V -> string): (r: string)
    ensures |r| >= 2 && r[0] == '(' && r[|r| - 1] == ')'
  {
    "(" + OperatorText(n.comparator) + FieldText(n) + ValueText(n, show) + ")"
  }

  /** Reads the comparator back from the operator that follows the opening parenthesis. */
  function ParseOperator(d: string): (c: Option<JByte>)
    ensures c.Some? ==> 1 <= c.value <= 5
  {
    if StartsWith(d, "(<=") then Some(LESSEQ)
    else if StartsWith(d, "(>=") then Some(GREATEQ)
    else if StartsWith(d, "(=") then Some(EQUALS)
    else if StartsWith(d, "(<") then Some(LESS)
    else if StartsWith(d, "(>") then Some(GREAT)
    else None
  }

  /** The field part always opens with "(fieldname". */
  lemma {:induction false} FieldTextOpens<V>(n: DataNode<V>)
    ensures StartsWith(FieldText(n), "(fieldname")
  {
  }

  /**
   * The dump names the comparator: comparators 1 to 5 are read back from
   * it, and any other comparator shows the error text instead.
   */
  lemma {:induction false} DumpShowsComparator<V>(n: DataNode<V>, show: V -> string)
    ensures ParseOperator(DumpToString(n, show)) ==
      (if 1 <= n.comparator <= 5 then Some(n.comparator) else None)
    ensures !(1 <= n.comparator <= 5) ==> StartsWith(DumpToString(n, show), "(" + OPERATOR_ERROR)
  {
    var d := DumpToString(n, show);
    var op := OperatorText(n.comparator);
    var rest := FieldText(n) + ValueText(n, show) + ")";
    FieldTextOpens(n);
    assert d == "(" + op + rest;
    assert rest[0] == '(';
    assert d[1..1 + |op|] == op;
    assert |d| > 3 && d[1 + |op|] == '(';
    assert d[..2] == [d[0], d[1]] && d[..3] == [d[0], d[1], d[2]];
    if 1 <= n.comparator <= 5 {
      assert |op| == 1 ==> d[1] == op[0] && d[2] == '(';
      assert |op| == 2 ==> d[1] == op[0] && d[2] == op[1];
    } else {
      assert d[1] == 'E';
    }
  }

  /** The dump closes with the value part: "(value undefined)" for a null value, and the parenthesis. */
  lemma {:induction false} DumpEndsWithValue<V>(n: DataNode<V>, show: V -> string)
    ensures n.value.None? ==> EndsWith(DumpToString(n, show), "(value undefined))")
    ensures n.value.Some? ==> EndsWith(DumpToString(n, show), "(value " + show(n.value.value) + "))")
  {
    var head := "(" + OperatorText(n.comparator) + FieldText(n);
    var tail := ValueText(n, show) + ")";
    assert DumpToString(n, show) == head + tail;
    assert (head + tail)[|head + tail| - |tail|..] == tail;
    if n.value.None? {
      assert tail == "(value undefined))";
    } else {
      assert tail == "(value " + show(n.value.value) + "))";
    }
  }
}
