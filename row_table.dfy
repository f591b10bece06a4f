// A table whose rows are addressed by hash keys (rowTable): the row
// bookkeeping that keeps a key-indexed handle per row, the column sort, and
// the two-column sort history with its string encoding for saved
// preferences.
module RowTable {
  import opened Wrappers
  import opened JavaLang
  import opened StableSort
  import opened Seqs

  // ---------------------------------------------------------------- cells

  /** The data attached to a cell for numeric or temporal sorting. */
  datatype CellData = NoData | DateData(millis: JLong) | IntData(n: JInt) | OtherData

  datatype TableCell = TableCell(text: Option<string>, data: CellData)

  /** A row of cells; a missing cell is null. */
  datatype TableRow = TableRow(cells: seq<Option<TableCell>>)

  /** The cell of a row in a column (null outside the row). */
  function CellAt(r: TableRow, column: int): Option<TableCell> {
    if 0 <= column < |r.cells| then r.cells[column] else None
  }

  /** The sort data of a cell, NoData when the cell is null. */
  function DataAt(r: TableRow, column: int): CellData {
    var c := CellAt(r, column);
    if c.Some? then c.value.data else NoData
  }

  /** The text of a cell, null when the cell is null. */
  function TextAt(r: TableRow, column: int): Option<string> {
    var c := CellAt(r, column);
    if c.Some? then c.value.text else None
  }

  /** String.compareToIgnoreCase on ASCII letters. */
  function CompareIgnoreCase(a: string, b: string): int {
    CompareTo(ToLower(a), ToLower(b))
  }

  /** Text comparison in which null is less than every string. */
  function CompareText(one: Option<string>, two: Option<string>): (r: int)
    ensures one.None? && two.None? ==> r == 0
    ensures one.None? && two.Some? ==> r < 0
    ensures one.Some? && two.None? ==> r > 0
  {
    if one.None? then (if two.None? then 0 else -1)
    else if two.None? then 1
    else CompareIgnoreCase(one.value, two.value)
  }

  /** -1, 0 or 1 as x is below, equal to or above y. */
  function Order(x: int, y: int): (r: int)
    ensures r < 0 <==> x < y
    ensures r == 0 <==> x == y
  {
    if x < y then -1 else if y < x then 1 else 0
  }

  /**
   * rowSorter.compare: when either row has no data in the column the texts
   * are compared (null least, reversed when sorting backwards); otherwise
   * the data of the first row decides how both are read.  A second row whose
   * data is of another kind throws ClassCastException.
   */
  function CompareRows(a: TableRow, b: TableRow, column: int, forward: bool): (r: Outcome<int>)
    ensures r.Threw? ==> r.exc == ClassCast
  {
    var ad := DataAt(a, column);
    var bd := DataAt(b, column);
    if ad.NoData? || bd.NoData? then
      if forward then Returned(CompareText(TextAt(a, column), TextAt(b, column)))
      else Returned(CompareText(TextAt(b, column), TextAt(a, column)))
    else if ad.DateData? then
      if !bd.DateData? then Threw(ClassCast)
      else if forward then Returned(Order(ad.millis, bd.millis))
      else Returned(Order(bd.millis, ad.millis))
    else if ad.IntData? then
      if !bd.IntData? then Threw(ClassCast)
      else if forward then Returned(Order(ad.n, bd.n))
      else Returned(Order(bd.n, ad.n))
    else Returned(0)
  }

  /** The kind of data a row holds in a column. */
  function Kind(d: CellData): int {
    match d
    case NoData => 0
    case DateData(_) => 1
    case IntData(_) => 2
    case OtherData => 3
  }

  /**
   * Two rows the comparison orders consistently in the column: both hold
   * the same kind of data, or one cell is empty (no data, null text) and
   * the other holds data and text.  An empty cell then sorts before every
   * filled one going forward and after it going backward, as the text
   * branch puts null text first and swaps its operands backward.
   */
  predicate Comparable(a: TableRow, b: TableRow, column: int) {
    var ad, bd := DataAt(a, column), DataAt(b, column);
    Kind(ad) == Kind(bd) ||
    (ad.NoData? && TextAt(a, column).None? && !bd.NoData? && TextAt(b, column).Some?) ||
    (bd.NoData? && TextAt(b, column).None? && !ad.NoData? && TextAt(a, column).Some?)
  }

  /**
   * Every two rows are comparable in the column: the rows with data hold
   * one kind of data, and when some do, the empty cells hold null text.
   */
  ghost predicate ColumnConsistent(rows: seq<TableRow>, column: int) {
    forall i, j :: 0 <= i < |rows| && 0 <= j < |rows| ==> Comparable(rows[i], rows[j], column)
  }

  /** The comparison of two row positions that the sort uses. */
  function PositionCompare(rows: seq<TableRow>, column: int, forward: bool): (int, int) -> int {
    (i: int, j: int) =>
      if 0 <= i < |rows| && 0 <= j < |rows| then
        var r := CompareRows(rows[i], rows[j], column, forward);
        if r.Returned? then r.value else 0
      else 0
  }

  // ---------------------------------------------------------------- order laws

  lemma CompareIgnoreCaseLaws(a: string, b: string, c: string)
    ensures CompareIgnoreCase(a, b) < 0 <==> CompareIgnoreCase(b, a) > 0
    ensures CompareIgnoreCase(a, b) <= 0 && CompareIgnoreCase(b, c) <= 0 ==> CompareIgnoreCase(a, c) <= 0
  {
    var la, lb, lc := ToLower(a), ToLower(b), ToLower(c);
    CompareToAntisymmetric(la, lb);
    CompareToZeroIff(la, lb);
    CompareToZeroIff(lb, lc);
    if CompareTo(la, lb) < 0 && CompareTo(lb, lc) < 0 {
      CompareToTransitive(la, lb, lc);
    }
  }

  lemma CompareTextLaws(x: Option<string>, y: Option<string>, z: Option<string>)
    ensures CompareText(x, y) < 0 <==> CompareText(y, x) > 0
    ensures CompareText(x, y) <= 0 && CompareText(y, z) <= 0 ==> CompareText(x, z) <= 0
  {
    if x.Some? && y.Some? && z.Some? {
      CompareIgnoreCaseLaws(x.value, y.value, z.value);
    } else if x.Some? && y.Some? {
      CompareIgnoreCaseLaws(x.value, y.value, x.value);
    }
  }

  /** Under a consistent column, no comparison throws. */
  lemma ConsistentNeverThrows(rows: seq<TableRow>, column: int, forward: bool, i: int, j: int)
    requires ColumnConsistent(rows, column) && 0 <= i < |rows| && 0 <= j < |rows|
    ensures CompareRows(rows[i], rows[j], column, forward).Returned?
  {
    assert Comparable(rows[i], rows[j], column);
  }

  /** On pairwise comparable rows, the comparison is antisymmetric and transitive. */
  lemma RowLaws(a: TableRow, b: TableRow, c: TableRow, column: int, forward: bool)
    requires Comparable(a, b, column) && Comparable(b, c, column) && Comparable(a, c, column)
    ensures CompareRows(a, b, column, forward).Returned? && CompareRows(b, a, column, forward).Returned?
    ensures CompareRows(b, c, column, forward).Returned? && CompareRows(a, c, column, forward).Returned?
    ensures CompareRows(a, b, column, forward).value < 0 <==> CompareRows(b, a, column, forward).value > 0
    ensures CompareRows(a, b, column, forward).value <= 0 && CompareRows(b, c, column, forward).value <= 0 ==>
      CompareRows(a, c, column, forward).value <= 0
  {
    var ka, kb, kc := Kind(DataAt(a, column)), Kind(DataAt(b, column)), Kind(DataAt(c, column));
    if ka == kb == kc == 0 {
      if forward {
        CompareTextLaws(TextAt(a, column), TextAt(b, column), TextAt(c, column));
      } else {
        CompareTextLaws(TextAt(c, column), TextAt(b, column), TextAt(a, column));
        CompareTextLaws(TextAt(b, column), TextAt(a, column), TextAt(c, column));
      }
    }
  }

  lemma PositionLaws(rows: seq<TableRow>, column: int, forward: bool, i: int, j: int, k: int)
    requires ColumnConsistent(rows, column)
    requires 0 <= i < |rows| && 0 <= j < |rows| && 0 <= k < |rows|
    ensures var cmp := PositionCompare(rows, column, forward);
      && (cmp(i, j) < 0 <==> cmp(j, i) > 0)
      && (cmp(i, j) <= 0 && cmp(j, k) <= 0 ==> cmp(i, k) <= 0)
  {
    assert Comparable(rows[i], rows[j], column) && Comparable(rows[j], rows[k], column);
    assert Comparable(rows[i], rows[k], column);
    RowLaws(rows[i], rows[j], rows[k], column, forward);
  }

  /** On a consistent column the sort comparison is a total preorder. */
  lemma {:induction false} ConsistentIsPreorder(rows: seq<TableRow>, column: int, forward: bool)
    requires ColumnConsistent(rows, column)
    ensures PreorderOn(Positions(|rows|), PositionCompare(rows, column, forward))
  {
    var D := Positions(|rows|);
    var cmp := PositionCompare(rows, column, forward);
    forall i, j | i in D && j in D ensures cmp(i, j) < 0 <==> cmp(j, i) > 0 {
      PositionLaws(rows, column, forward, i, j, j);
    }
    forall i, j, k | i in D && j in D && k in D && cmp(i, j) <= 0 && cmp(j, k) <= 0
      ensures cmp(i, k) <= 0
    {
      PositionLaws(rows, column, forward, i, j, k);
    }
  }

  /** Null text sorts first going forward and last going backward. */
  lemma {:induction false} NullTextLeast(a: TableRow, b: TableRow, column: int)
    requires DataAt(a, column).NoData? || DataAt(b, column).NoData?
    requires TextAt(a, column).None? && TextAt(b, column).Some?
    ensures CompareRows(a, b, column, true) == Returned(-1)
    ensures CompareRows(b, a, column, false) == Returned(-1)
  {
  }

  // ---------------------------------------------------------------- sort order

  /** The order the sort puts the rows in, as positions of the input. */
  function SortOrder(rows: seq<TableRow>, column: int, forward: bool): (p: seq<int>)
    ensures IsPermutation(p, |rows|)
  {
    if |rows| < 2 then RangeIsPermutation(|rows|); Range(|rows|)
    else SortedPositions(|rows|, PositionCompare(rows, column, forward))
  }

  function Permute<T>(xs: seq<T>, p: seq<int>): (r: seq<T>)
    requires IsPermutation(p, |xs|)
    ensures |r| == |xs| && forall i :: 0 <= i < |xs| ==> r[i] == xs[p[i]]
  {
    seq(|xs|, i requires 0 <= i < |xs| => xs[p[i]])
  }

  /** The rows in the order the sort leaves them. */
  function SortedRows(rows: seq<TableRow>, column: int, forward: bool): seq<TableRow> {
    Permute(rows, SortOrder(rows, column, forward))
  }

  /**
   * On a consistent column the sort orders the rows by the comparison and is
   * stable: rows that compare equal keep their relative order.
   */
  lemma {:induction false} SortOrderSpec(rows: seq<TableRow>, column: int, forward: bool)
    requires ColumnConsistent(rows, column)
    ensures var p := SortOrder(rows, column, forward);
      && (forall a, b :: 0 <= a < b < |rows| ==>
            PositionCompare(rows, column, forward)(p[a], p[b]) <= 0)
      && (forall a, b :: 0 <= a < b < |rows| && PositionCompare(rows, column, forward)(p[a], p[b]) == 0 ==>
            p[a] < p[b])
  {
    if |rows| >= 2 {
      ConsistentIsPreorder(rows, column, forward);
      SortedPositionsSpec(|rows|, PositionCompare(rows, column, forward));
    }
  }

  /** Reordering rows keeps every column's consistency. */
  lemma PermuteConsistent(rows: seq<TableRow>, p: seq<int>, column: int)
    requires IsPermutation(p, |rows|) && ColumnConsistent(rows, column)
    ensures ColumnConsistent(Permute(rows, p), column)
  {
  }

  lemma PermuteKeepsColumns(rows: seq<TableRow>, p: seq<int>)
    requires IsPermutation(p, |rows|)
    ensures forall c :: ColumnConsistent(rows, c) ==> ColumnConsistent(Permute(rows, p), c)
  {
    forall c | ColumnConsistent(rows, c) ensures ColumnConsistent(Permute(rows, p), c) {
      PermuteConsistent(rows, p, c);
    }
  }

  lemma PermuteRange<T>(xs: seq<T>)
    ensures IsPermutation(Range(|xs|), |xs|) && Permute(xs, Range(|xs|)) == xs
  {
    RangeIsPermutation(|xs|);
  }

  /**
   * Sorting by one column and then by another orders the rows by the second
   * column, and rows equal in the second column by the first.
   */
  lemma {:induction false} TwoLevelOrder(rows: seq<TableRow>, older: int, olderForward: bool, last: int, lastForward: bool)
    requires ColumnConsistent(rows, older) && ColumnConsistent(rows, last)
    ensures var r1 := SortedRows(rows, older, olderForward);
      var r2 := SortedRows(r1, last, lastForward);
      forall a, b :: 0 <= a < b < |r2| ==>
        var byLast := CompareRows(r2[a], r2[b], last, lastForward);
        var byOlder := CompareRows(r2[a], r2[b], older, olderForward);
        && byLast.Returned? && byOlder.Returned?
        && byLast.value <= 0
        && (byLast.value == 0 ==> byOlder.value <= 0)
  {
    var r1 := SortedRows(rows, older, olderForward);
    var r2 := SortedRows(r1, last, lastForward);
    forall a, b | 0 <= a < b < |r2|
      ensures var byLast := CompareRows(r2[a], r2[b], last, lastForward);
        var byOlder := CompareRows(r2[a], r2[b], older, olderForward);
        && byLast.Returned? && byOlder.Returned?
        && byLast.value <= 0
        && (byLast.value == 0 ==> byOlder.value <= 0)
    {
      TwoLevelPair(rows, older, olderForward, last, lastForward, a, b);
    }
  }

  /** One pair of positions of the two-level order. */
  lemma TwoLevelPair(rows: seq<TableRow>, older: int, olderForward: bool, last: int, lastForward: bool, a: int, b: int)
    requires ColumnConsistent(rows, older) && ColumnConsistent(rows, last)
    requires 0 <= a < b < |rows|
    ensures var r2 := SortedRows(SortedRows(rows, older, olderForward), last, lastForward);
      && CompareRows(r2[a], r2[b], last, lastForward).Returned?
      && CompareRows(r2[a], r2[b], older, olderForward).Returned?
      && CompareRows(r2[a], r2[b], last, lastForward).value <= 0
      && (CompareRows(r2[a], r2[b], last, lastForward).value == 0 ==>
            CompareRows(r2[a], r2[b], older, olderForward).value <= 0)
  {
    var r1 := SortedRows(rows, older, olderForward);
    var p := SortOrder(rows, older, olderForward);
    PermuteConsistent(rows, p, older);
    PermuteConsistent(rows, p, last);
    var r2 := SortedRows(r1, last, lastForward);
    var q := SortOrder(r1, last, lastForward);
    SortOrderSpec(rows, older, olderForward);
    SortOrderSpec(r1, last, lastForward);
    ConsistentNeverThrows(r1, last, lastForward, q[a], q[b]);
    ConsistentNeverThrows(r1, older, olderForward, q[a], q[b]);
    assert r2[a] == r1[q[a]] && r2[b] == r1[q[b]];
    if CompareRows(r2[a], r2[b], last, lastForward).value == 0 {
      assert q[a] < q[b];
      ConsistentNeverThrows(rows, older, olderForward, p[q[a]], p[q[b]]);
      assert r1[q[a]] == rows[p[q[a]]] && r1[q[b]] == rows[p[q[b]]];
    }
  }

  // ---------------------------------------------------------------- sort preferences

  /** The four sort-history fields. */
  datatype SortPrefs = SortPrefs(lastColumn: JInt, lastForward: bool, olderColumn: JInt, olderForward: bool)

  /** A history getSortPref can write: a column or none, and an older column only after a last one. */
  predicate WellFormedPrefs(p: SortPrefs) {
    (p.lastColumn >= 0 && p.olderColumn >= -1) || (p.lastColumn == -1 && p.olderColumn == -1)
  }

  predicate AllDigits(s: string) {
    forall k :: 0 <= k < |s| ==> IsDigit(s[k])
  }

  /** The length of the longest run of digits that s starts with. */
  function DigitRun(s: string): (n: nat)
    ensures n <= |s| && AllDigits(s[..n])
    ensures n < |s| ==> !IsDigit(s[n])
  {
    if s == [] || !IsDigit(s[0]) then 0
    else
      var m := DigitRun(s[1..]);
      assert s[..m + 1] == [s[0]] + s[1..][..m];
      m + 1
  }

  predicate IsOrderChar(c: char) {
    c == 'f' || c == 'r'
  }

  /** The groups of a full match of (\d+)([fr])(:(\d+)([fr]))?. */
  datatype PrefMatch = PrefMatch(lastCol: string, lastOrder: char, older: Option<(string, char)>)

  /** A full match of (\d+)([fr])(:(\d+)([fr]))? against s, with its groups. */
  function MatchSortPref(s: string): (m: Option<PrefMatch>)
    ensures m.Some? ==> m.value.lastCol != [] && AllDigits(m.value.lastCol) && IsOrderChar(m.value.lastOrder)
    ensures m.Some? && m.value.older.Some? ==>
      m.value.older.value.0 != [] && AllDigits(m.value.older.value.0) && IsOrderChar(m.value.older.value.1)
  {
    var n := DigitRun(s);
    if n == 0 || n == |s| || !IsOrderChar(s[n]) then None
    else
      var rest := s[n + 1..];
      if rest == [] then Some(PrefMatch(s[..n], s[n], None))
      else if rest[0] != ':' then None
      else
        var tail := rest[1..];
        var m := DigitRun(tail);
        if m == 0 || m + 1 != |tail| || !IsOrderChar(tail[m]) then None
        else Some(PrefMatch(s[..n], s[n], Some((tail[..m], tail[m]))))
  }

  /** The text a match was made from. */
  function MatchText(m: PrefMatch): string {
    m.lastCol + [m.lastOrder] + (if m.older.Some? then ":" + m.older.value.0 + [m.older.value.1] else "")
  }

  predicate ValidMatch(m: PrefMatch) {
    && m.lastCol != [] && AllDigits(m.lastCol) && IsOrderChar(m.lastOrder)
    && (m.older.Some? ==> m.older.value.0 != [] && AllDigits(m.older.value.0) && IsOrderChar(m.older.value.1))
  }

  lemma DigitRunOf(d: string, rest: string)
    requires AllDigits(d) && (rest != [] ==> !IsDigit(rest[0]))
    ensures DigitRun(d + rest) == |d|
  {
    if d != [] {
      assert (d + rest)[1..] == d[1..] + rest;
      DigitRunOf(d[1..], rest);
    }
  }

  /** Whatever the matcher accepts is the text of the groups it finds. */
  lemma {:induction false} MatchSortPrefSound(s: string)
    requires MatchSortPref(s).Some?
    ensures ValidMatch(MatchSortPref(s).value) && MatchText(MatchSortPref(s).value) == s
  {
    var n := DigitRun(s);
    var mm := MatchSortPref(s).value;
    if mm.older.None? {
      assert s == s[..n] + [s[n]] + s[n + 1..];
    } else {
      var rest := s[n + 1..];
      var tail := rest[1..];
      var k := DigitRun(tail);
      assert tail == tail[..k] + [tail[k]];
      assert rest == ":" + tail;
      assert s == s[..n] + [s[n]] + rest;
    }
  }

  /** The matcher accepts every text of the pattern, with the groups it was made from. */
  lemma {:induction false} MatchSortPrefComplete(m: PrefMatch)
    requires ValidMatch(m)
    ensures MatchSortPref(MatchText(m)) == Some(m)
  {
    var s := MatchText(m);
    var after := [m.lastOrder] + (if m.older.Some? then ":" + m.older.value.0 + [m.older.value.1] else "");
    assert s == m.lastCol + after;
    DigitRunOf(m.lastCol, after);
    var n := DigitRun(s);
    assert s[..n] == m.lastCol && s[n] == m.lastOrder;
    var rest := s[n + 1..];
    assert rest == after[1..];
    if m.older.Some? {
      var d2, c2 := m.older.value.0, m.older.value.1;
      assert rest == ":" + d2 + [c2];
      var tail := rest[1..];
      assert tail == d2 + [c2];
      DigitRunOf(d2, [c2]);
      assert tail[..|d2|] == d2;
    } else {
      assert rest == [];
    }
  }

  /** Integer.parseInt of a digit string: NumberFormatException beyond the int range. */
  function ParseInt(digits: string): (r: Outcome<JInt>)
    requires AllDigits(digits)
    ensures r.Returned? <==> DigitsValue(digits) < 0x8000_0000
    ensures r.Returned? ==> r.value == DigitsValue(digits)
    ensures r.Threw? ==> r.exc == NumberFormat
  {
    var v := DigitsValue(digits);
    if v < 0x8000_0000 then Returned(v) else Threw(NumberFormat)
  }

  /**
   * setSortPref: both columns are cleared first; a null, empty or
   * non-matching preference stops there.  The columns are then parsed in
   * turn, and a column too large for an int throws, keeping what was set
   * before it.
   */
  function ApplySortPref(p: SortPrefs, pref: Option<string>): (r: (SortPrefs, Outcome<()>))
    ensures r.1.Threw? ==> r.1.exc == NumberFormat
    ensures r.0.lastColumn >= -1 && r.0.olderColumn >= -1
    ensures r.0.olderColumn != -1 ==> r.0.lastColumn != -1
  {
    var cleared := p.(lastColumn := -1, olderColumn := -1);
    if pref.None? || pref.value == "" then (cleared, Returned(()))
    else
      var m := MatchSortPref(pref.value);
      if m.None? then (cleared, Returned(()))
      else
        var last := ParseInt(m.value.lastCol);
        if last.Threw? then (cleared, Threw(last.exc))
        else
          var withLast := cleared.(lastColumn := last.value, lastForward := m.value.lastOrder == 'f');
          if m.value.older.None? then (withLast, Returned(()))
          else
            var older := ParseInt(m.value.older.value.0);
            if older.Threw? then (withLast, Threw(older.exc))
            else (withLast.(olderColumn := older.value, olderForward := m.value.older.value.1 == 'f'), Returned(()))
  }

  function OrderText(forward: bool): string {
    if forward then "f" else "r"
  }

  /** getSortPref. */
  function SortPrefText(p: SortPrefs): (s: string)
    ensures p.lastColumn == -1 ==> s == ""
  {
    if p.lastColumn == -1 then ""
    else
      IntToString(p.lastColumn) + OrderText(p.lastForward)
      + (if p.olderColumn != -1 then ":" + IntToString(p.olderColumn) + OrderText(p.olderForward) else "")
  }

  /** A null or empty preference, or a string outside the pattern, clears both columns. */
  lemma {:induction false} UnmatchedPrefClears(p: SortPrefs, pref: Option<string>)
    requires pref.None? || MatchSortPref(pref.value).None?
    ensures ApplySortPref(p, pref) == (p.(lastColumn := -1, olderColumn := -1), Returned(()))
  {
  }

  /** "f" means forward and anything else backward, for both columns. */
  lemma {:induction false} OrderLetters(p: SortPrefs, pref: string)
    requires MatchSortPref(pref).Some? && ApplySortPref(p, Some(pref)).1.Returned?
    ensures ApplySortPref(p, Some(pref)).0.lastForward <==> MatchSortPref(pref).value.lastOrder == 'f'
    ensures MatchSortPref(pref).value.older.Some? ==>
      (ApplySortPref(p, Some(pref)).0.olderForward <==> MatchSortPref(pref).value.older.value.1 == 'f')
  {
    assert pref != "";
  }

  /**
   * Reading back a written preference restores the history exactly: both
   * columns and directions, and the older direction untouched when there is
   * no older column.
   */
  lemma {:induction false} SortPrefRoundTrip(q: SortPrefs, p: SortPrefs)
    requires WellFormedPrefs(p)
    ensures ApplySortPref(q, Some(SortPrefText(p))) == (p.(lastForward := if p.lastColumn == -1 then q.lastForward else p.lastForward,
                                                         olderForward := if p.olderColumn == -1 then q.olderForward else p.olderForward),
                                                        Returned(()))
  {
    if p.lastColumn != -1 {
      var s := SortPrefText(p);
      var d1 := NatToString(p.lastColumn);
      var c1 := OrderText(p.lastForward)[0];
      assert IntToString(p.lastColumn) == d1;
      DigitsOfNat(p.lastColumn);
      assert ParseInt(d1) == Returned(p.lastColumn);
      assert (c1 == 'f') == p.lastForward;
      var cleared := q.(lastColumn := -1, olderColumn := -1);
      var withLast := cleared.(lastColumn := p.lastColumn, lastForward := p.lastForward);
      if p.olderColumn != -1 {
        var d2 := NatToString(p.olderColumn);
        var c2 := OrderText(p.olderForward)[0];
        DigitsOfNat(p.olderColumn);
        assert IntToString(p.olderColumn) == d2;
        assert ParseInt(d2) == Returned(p.olderColumn);
        assert (c2 == 'f') == p.olderForward;
        var m := PrefMatch(d1, c1, Some((d2, c2)));
        assert MatchText(m) == s;
        MatchSortPrefComplete(m);
        assert ApplySortPref(q, Some(s)).0 == withLast.(olderColumn := p.olderColumn, olderForward := p.olderForward);
      } else {
        var m := PrefMatch(d1, c1, None);
        assert MatchText(m) == s;
        MatchSortPrefComplete(m);
        assert ApplySortPref(q, Some(s)).0 == withLast;
      }
    }
  }

  /** In the other direction, a canonical preference string is written back unchanged. */
  lemma {:induction false} SortPrefTextRoundTrip(p: SortPrefs, pref: string)
    requires MatchSortPref(pref).Some?
    requires ApplySortPref(p, Some(pref)).1.Returned?
    requires var m := MatchSortPref(pref).value;
      && (|m.lastCol| > 1 ==> m.lastCol[0] != '0')
      && (m.older.Some? ==> |m.older.value.0| > 1 ==> m.older.value.0[0] != '0')
    ensures SortPrefText(ApplySortPref(p, Some(pref)).0) == pref
  {
    var m := MatchSortPref(pref).value;
    MatchSortPrefSound(pref);
    NatOfDigits(m.lastCol);
    assert pref != "";
    assert [m.lastOrder] == OrderText(m.lastOrder == 'f');
    if m.older.Some? {
      NatOfDigits(m.older.value.0);
      assert [m.older.value.1] == OrderText(m.older.value.1 == 'f');
    }
  }

  // ---------------------------------------------------------------- the table

  /**
   * A row key.  The table accepts any object as a key and compares keys
   * with equals; the model identifies a key with a number.
   */
  type RowKey = int

  /**
   * Every handle is filed in the index under its key, and the index holds
   * nothing else.
   */
  ghost predicate Indexed(hs: seq<RowHandle>, index: map<RowKey, RowHandle>) {
    && (forall i :: 0 <= i < |hs| ==> hs[i].key in index && index[hs[i].key] == hs[i])
    && (forall k :: k in index ==> index[k].key == k && index[k] in hs)
  }

  /** Removing the handle at r keeps the rest distinct, indexed, and in place before r. */
  lemma RemoveHandle(hs: seq<RowHandle>, index: map<RowKey, RowHandle>, r: int)
    requires Indexed(hs, index) && Distinct(hs) && 0 <= r < |hs|
    ensures var hs2 := hs[..r] + hs[r + 1..];
      && Distinct(hs2) && Indexed(hs2, index - {hs[r].key})
      && forall j :: 0 <= j < r ==> hs2[j] == hs[j]
  {
    DistinctRemove(hs, r);
    IndexedRemove(hs, index, r);
  }

  lemma IndexedAppend(hs: seq<RowHandle>, index: map<RowKey, RowHandle>, h: RowHandle)
    requires Indexed(hs, index) && h.key !in index
    ensures Indexed(hs + [h], index[h.key := h])
  {
    var hs2 := hs + [h];
    var index2 := index[h.key := h];
    forall k | k in index2 ensures index2[k] in hs2 {
      if k != h.key {
        var j :| 0 <= j < |hs| && hs[j] == index[k];
        assert hs2[j] == hs[j];
      } else {
        assert hs2[|hs|] == h;
      }
    }
  }

  lemma IndexedRemove(hs: seq<RowHandle>, index: map<RowKey, RowHandle>, r: int)
    requires Indexed(hs, index) && Distinct(hs) && 0 <= r < |hs|
    ensures Indexed(hs[..r] + hs[r + 1..], index - {hs[r].key})
  {
    var hs2 := hs[..r] + hs[r + 1..];
    var index2 := index - {hs[r].key};
    forall i | 0 <= i < |hs2| ensures hs2[i].key in index2 && index2[hs2[i].key] == hs2[i] {
      var j := if i < r then i else i + 1;
      assert hs2[i] == hs[j];
    }
    forall k | k in index2 ensures index2[k] in hs2 {
      var j :| 0 <= j < |hs| && hs[j] == index[k];
      assert j != r;
      if j < r { assert hs2[j] == hs[j]; } else { assert hs2[j - 1] == hs[j]; }
    }
  }

  lemma IndexedPermute(hs: seq<RowHandle>, index: map<RowKey, RowHandle>, p: seq<int>)
    requires Indexed(hs, index) && IsPermutation(p, |hs|)
    ensures Indexed(Permute(hs, p), index)
  {
    var hs2 := Permute(hs, p);
    forall k | k in index ensures index[k] in hs2 {
      var j :| 0 <= j < |hs| && hs[j] == index[k];
      assert j in p;
      var a :| 0 <= a < |p| && p[a] == j;
      assert hs2[a] == hs[j];
    }
  }

  /** Maps a hash key to a row of the table. */
  class RowHandle {
    const key: RowKey
    var rownum: int
    var element: Option<TableRow>

    constructor (key: RowKey, rownum: int)
      ensures this.key == key && this.rownum == rownum && element.None?
    {
      this.key := key;
      this.rownum := rownum;
      element := None;
    }
  }

  /**
   * The handle-list part of deleteRow: the handle at r is removed and the
   * handles after it are renumbered to their new positions.
   */
  method RemoveHandleAt(hs: seq<RowHandle>, r: int) returns (cross: seq<RowHandle>)
    requires Distinct(hs) && 0 <= r < |hs|
    requires forall j :: 0 <= j < |hs| ==> hs[j].rownum == j
    modifies hs
    ensures cross == hs[..r] + hs[r + 1..]
    ensures forall j :: 0 <= j < |cross| ==> cross[j].rownum == j
  {
    cross := hs[..r] + hs[r + 1..];
    DistinctRemove(hs, r);
    assert forall j :: 0 <= j < r ==> cross[j] == hs[j];
    RenumberFrom(cross, r);
  }

  /** The renumbering loop of deleteRow: every handle from `from` on gets its position. */
  method RenumberFrom(hs: seq<RowHandle>, from: int)
    requires 0 <= from <= |hs| && Distinct(hs)
    requires forall j :: 0 <= j < from ==> hs[j].rownum == j
    modifies hs
    ensures forall j :: 0 <= j < |hs| ==> hs[j].rownum == j
  {
    var i := from;
    while i < |hs|
      invariant from <= i <= |hs|
      invariant forall j :: 0 <= j < i ==> hs[j].rownum == j
    {
      hs[i].rownum := i;
      i := i + 1;
    }
  }

  /** The first loop of rowSorter.sort: each handle is given the row at its position. */
  method AttachRows(hs: seq<RowHandle>, rs: seq<TableRow>)
    requires |hs| == |rs| && Distinct(hs)
    modifies hs
    ensures forall j :: 0 <= j < |hs| ==> hs[j].element == Some(rs[j])
    ensures forall j :: 0 <= j < |hs| ==> hs[j].rownum == old(hs[j].rownum)
  {
    var i := 0;
    while i < |hs|
      invariant 0 <= i <= |hs|
      invariant forall j :: 0 <= j < i ==> hs[j].element == Some(rs[j])
      invariant forall j :: 0 <= j < |hs| ==> hs[j].rownum == old(hs[j].rownum)
    {
      hs[i].element := Some(rs[i]);
      i := i + 1;
    }
  }

  /**
   * The write-back loop of rowSorter.sort: the i-th handle of the sorted
   * order is renumbered i, and the handle list and the row list are rebuilt
   * in that order from the handles' rows.
   */
  method WriteBack(hs: seq<RowHandle>, rs: seq<TableRow>, p: seq<int>) returns (cross: seq<RowHandle>, rows: seq<TableRow>)
    requires IsPermutation(p, |hs|) && Distinct(hs) && |rs| == |hs|
    requires forall j :: 0 <= j < |hs| ==> hs[j].element == Some(rs[j])
    modifies hs
    ensures cross == Permute(hs, p) && rows == Permute(rs, p)
    ensures forall j :: 0 <= j < |hs| ==> cross[j].rownum == j
    ensures forall j :: 0 <= j < |hs| ==> hs[j].element == Some(rs[j])
  {
    var n := |hs|;
    cross := hs;
    rows := rs;
    var i := 0;
    while i < n
      invariant 0 <= i <= n && |cross| == |rows| == n
      invariant forall j :: 0 <= j < n ==> hs[j].element == Some(rs[j])
      invariant forall j :: 0 <= j < i ==> cross[j] == hs[p[j]] && rows[j] == rs[p[j]]
      invariant forall j :: 0 <= j < i ==> hs[p[j]].rownum == j
    {
      var row := hs[p[i]];
      row.rownum := i;
      cross := cross[i := row];
      rows := rows[i := row.element.value];
      i := i + 1;
    }
  }

  /**
   * rowSorter.sort on the handle and row lists: with fewer than two rows
   * nothing happens; otherwise the handles are given their rows, put in the
   * stable sort order of the rows and renumbered.
   */
  method SortHandles(hs: seq<RowHandle>, rs: seq<TableRow>, column: int, forward: bool)
    returns (cross: seq<RowHandle>, sorted: seq<TableRow>)
    requires |hs| == |rs| && Distinct(hs)
    requires forall j :: 0 <= j < |hs| ==> hs[j].rownum == j
    modifies hs
    ensures cross == Permute(hs, SortOrder(rs, column, forward))
    ensures sorted == SortedRows(rs, column, forward)
    ensures forall j :: 0 <= j < |cross| ==> cross[j].rownum == j
    ensures |hs| >= 2 ==> forall j :: 0 <= j < |cross| ==> cross[j].element == Some(sorted[j])
  {
    if |hs| < 2 {
      PermuteRange(rs);
      PermuteRange(hs);
      return hs, rs;
    }
    AttachRows(hs, rs);
    var p := SortOrder(rs, column, forward);
    cross, sorted := WriteBack(hs, rs, p);
  }

  class RowTable {
    /** The table's rows, in display order. */
    var rows: seq<TableRow>
    /** The handle of each row, at the row's position. */
    var crossref: seq<RowHandle>
    /** The handle of each key. */
    var index: map<RowKey, RowHandle>
    var rowSelectedKey: Option<RowKey>
    var lastSortColumn: JInt
    var lastSortForward: bool
    var olderSortColumn: JInt
    var olderSortForward: bool

    function Prefs(): SortPrefs
      reads this
    {
      SortPrefs(lastSortColumn, lastSortForward, olderSortColumn, olderSortForward)
    }

    /**
     * The handles line up with the rows, each handle's rownum is its
     * position, and the index holds exactly the handles, under their keys.
     */
    ghost predicate Valid()
      reads this, crossref
    {
      && |crossref| == |rows|
      && (forall i :: 0 <= i < |crossref| ==> crossref[i].rownum == i)
      && Indexed(crossref, index)
    }

    constructor ()
      ensures Valid() && rows == [] && index == map[] && rowSelectedKey.None?
      ensures Prefs() == SortPrefs(-1, true, -1, true)
    {
      rows := [];
      crossref := [];
      index := map[];
      rowSelectedKey := None;
      lastSortColumn := -1;
      lastSortForward := true;
      olderSortColumn := -1;
      olderSortForward := true;
    }

    /**
     * newRow: a key already present throws IllegalArgumentException;
     * otherwise a blank row is appended, with a fresh handle at its position.
     */
    method NewRow(key: RowKey, blank: TableRow) returns (r: Outcome<()>)
      requires Valid()
      modifies this
      ensures Valid()
      ensures r.Threw? <==> key in old(index)
      ensures r.Threw? ==> r.exc == IllegalArgument && rows == old(rows) && crossref == old(crossref) && index == old(index)
      ensures r.Returned? ==>
        && rows == old(rows) + [blank]
        && |crossref| == |rows| && crossref[..|old(crossref)|] == old(crossref)
        && fresh(crossref[|rows| - 1]) && crossref[|rows| - 1].key == key
        && index == old(index)[key := crossref[|rows| - 1]]
      ensures rowSelectedKey == old(rowSelectedKey) && Prefs() == old(Prefs())
    {
      if key in index {
        return Threw(IllegalArgument);
      }
      rows := rows + [blank];
      var element := new RowHandle(key, |rows| - 1);
      IndexedAppend(crossref, index, element);
      crossref := crossref + [element];
      index := index[key := element];
      r := Returned(());
    }

    /**
     * deleteRow: an absent key changes nothing.  Otherwise the selection is
     * cleared if it is that key, the row and its handle are removed, and the
     * handles after it are renumbered.
     */
    method DeleteRow(key: RowKey)
      requires Valid()
      modifies this, crossref
      ensures Valid()
      ensures key !in old(index) ==>
        rows == old(rows) && crossref == old(crossref) && index == old(index) && rowSelectedKey == old(rowSelectedKey)
      ensures key in old(index) ==>
        var r := old(index[key].rownum);
        && 0 <= r < |old(rows)|
        && rows == old(rows[..r] + rows[r + 1..])
        && crossref == old(crossref[..r] + crossref[r + 1..])
        && index == old(index) - {key}
        && rowSelectedKey == (if old(rowSelectedKey) == Some(key) then None else old(rowSelectedKey))
      ensures Prefs() == old(Prefs())
    {
      if key !in index {
        return;
      }
      var element := index[key];
      var r := element.rownum;
      assert element == crossref[r] && Distinct(crossref);
      RemoveHandle(crossref, index, r);
      if rowSelectedKey == Some(key) {
        rowSelectedKey := None;
      }
      index := index - {key};
      rows := rows[..r] + rows[r + 1..];
      crossref := RemoveHandleAt(crossref, r);
    }

    /**
     * rowSorter.sort on a column the comparison can read throughout: with
     * fewer than two rows nothing happens; otherwise rows and handles are
     * put in the stable sort order, each handle renumbered to its position
     * and given its row.
     */
    method Sort(column: int, forward: bool)
      requires Valid() && ColumnConsistent(rows, column)
      modifies this, crossref
      ensures Valid()
      ensures var p := SortOrder(old(rows), column, forward);
        && rows == SortedRows(old(rows), column, forward)
        && crossref == Permute(old(crossref), p)
      ensures |rows| >= 2 ==> forall i :: 0 <= i < |rows| ==> crossref[i].element == Some(rows[i])
      ensures index == old(index) && rowSelectedKey == old(rowSelectedKey) && Prefs() == old(Prefs())
    {
      ghost var hs := crossref;
      assert Distinct(hs);
      IndexedPermute(hs, index, SortOrder(rows, column, forward));
      var cross, sorted := SortHandles(crossref, rows, column, forward);
      assert unchanged(this);
      crossref := cross;
      rows := sorted;
    }

    /**
     * resort(column, forward): a repeated column forgets the older column;
     * a new column pushes the previous one into the older slot.  The rows
     * are then sorted by the new column.
     */
    method ResortBy(column: JInt, forward: bool)
      requires Valid() && ColumnConsistent(rows, column)
      modifies this, crossref
      ensures Valid()
      ensures Prefs() == (if column == old(lastSortColumn)
                          then old(Prefs()).(olderColumn := -1)
                          else old(Prefs()).(olderColumn := old(lastSortColumn), olderForward := old(lastSortForward)))
                           .(lastColumn := column, lastForward := forward)
      ensures rows == SortedRows(old(rows), column, forward)
      ensures index == old(index) && rowSelectedKey == old(rowSelectedKey)
    {
      if column == lastSortColumn {
        olderSortColumn := -1;
      } else {
        olderSortColumn := lastSortColumn;
        olderSortForward := lastSortForward;
      }
      lastSortColumn := column;
      lastSortForward := forward;
      Sort(column, forward);
    }

    /**
     * resort(): nothing without a last column; otherwise a sort by the older
     * column, if any, and then one by the last.
     */
    method Resort()
      requires Valid()
      requires lastSortColumn != -1 ==> ColumnConsistent(rows, lastSortColumn)
      requires lastSortColumn != -1 && olderSortColumn != -1 ==> ColumnConsistent(rows, olderSortColumn)
      modifies this, crossref
      ensures Valid()
      ensures old(lastSortColumn) == -1 ==> rows == old(rows) && crossref == old(crossref)
      ensures old(lastSortColumn) != -1 && old(olderSortColumn) == -1 ==>
        rows == SortedRows(old(rows), lastSortColumn, lastSortForward)
      ensures old(lastSortColumn) != -1 && old(olderSortColumn) != -1 ==>
        rows == SortedRows(SortedRows(old(rows), olderSortColumn, olderSortForward), lastSortColumn, lastSortForward)
      ensures index == old(index) && rowSelectedKey == old(rowSelectedKey) && Prefs() == old(Prefs())
    {
      if lastSortColumn == -1 {
        return;
      }
      if olderSortColumn != -1 {
        PermuteKeepsColumns(rows, SortOrder(rows, olderSortColumn, olderSortForward));
        Sort(olderSortColumn, olderSortForward);
      }
      Sort(lastSortColumn, lastSortForward);
    }

    /** setSortPref. */
    method SetSortPref(sortPref: Option<string>) returns (r: Outcome<()>)
      modifies this
      ensures (Prefs(), r) == ApplySortPref(old(Prefs()), sortPref)
      ensures rows == old(rows) && crossref == old(crossref) && index == old(index)
      ensures rowSelectedKey == old(rowSelectedKey)
    {
      var result := ApplySortPref(Prefs(), sortPref);
      lastSortColumn := result.0.lastColumn;
      lastSortForward := result.0.lastForward;
      olderSortColumn := result.0.olderColumn;
      olderSortForward := result.0.olderForward;
      r := result.1;
    }
  }
}
