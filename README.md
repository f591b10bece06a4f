# A Dafny model of the Ganymede directory-management core

Ganymede is a network directory management system. A Java server keeps an
object store and hands sessions to clients. Each object type is a base, and
each base has typed fields. Ownership of objects and permissions are
expressed through owner groups and personae. The gasharl schema adds
customization hooks for DHCP and task objects. A loader reads GASH netgroup
files, and a swing client edits permission matrices. This project models the
logic at the core of those parts and proves properties of the model.

One `.dfy` file, holding one module, models each core source file:

- **Constants.** `sddl_constants.dfy` holds the Active Directory sync channel's access-right, ACE, descriptor-control, security-information and SID constants, with their bit identities.
- **Query engine.**
  - `query_data_node.dfy`: the leaf node's constructors and its printed form.
  - `db_query_handler.dfy`: the recursive matcher and its string, number, date and IP comparators.
- **Utility structures.**
  - `vec_quick_sort.dfy`: an in-place quicksort on an array.
  - `array_utils.dfy`: null-tolerant array concatenation.
  - `ghashtable.dfy`: a case-folding hashtable class.
  - `row_table.dfy`: the row table with its sort preferences, sort history, row renumbering and a stable column sort. Its sort is specified in `stable_sort.dfy`.
- **Field containers.** `db_field.dfy`, `password_db_field.dfy` and `date_db_field.dfy` model three field classes:
  - duplicate-free vectors with all-or-nothing bulk edits and namespace marks;
  - the three forms of a password;
  - dates, with their binary record (`data_streams.dfy` models DataOutput/DataInput).
- **Schema bookkeeping.**
  - `db_object_base.dfy`: id counters, a field table with the display order of custom fields, new field names, renaming and the label field.
  - `db_schema_edit.dfy`: the schema editing session with its working bases, namespaces, commit and release.
  - `fresh_names.dfy`: the naming loop both files use.
- **Permissions.** The owner-group graph is in `owner_graph.dfy`, and permission entries are in `perm_entries.dfy`.
  - `db_permission_manager.dfy`: group membership with a seen set, default owners, the visibility filter, ownership and field permissions.
  - `ganymede_session.dfy`: the older session's owner-group search, ownership test without a seen set, filter, permissions, error text, mail return address and wizard slot.
  - `perm_editor.dfy`: the client's permission grid.
- **State machines and hooks.**
  - `db_session.dfy`: transactions, locks and object status.
  - `task_custom.dfy`, `dhcp_subnet_custom.dfy`, `dhcp_group_entry_custom.dfy`: the customization hooks.
  - `password_aging_task.dfy`: the password aging classification.
  - `user_netgroup.dfy`: the netgroup line loader.
- **Shared modules.**
  - `wrappers.dfy`: `Option`, the `Outcome` of a Java call (a value or an exception), and `Reply`.
  - `java_lang.dfy`: the integer widths and String operations of java.lang.
  - `invids.dfy`: object handles.
  - `seqs.dfy`: the Vector operations the code relies on.

Code that updates objects in place is modelled as classes. Their methods are
proved against specification functions. Pure code is modelled as functions
and lemmas. Collaborators the model cannot see become inputs. These include
DBEditObject hooks, namespaces, lookups, the regular-expression engine,
crypt hashing and the scheduler. They are given as parameters, as
function-typed fields of a session value, or as the answers the
collaborators would give.

Where the code and its documented behaviour differ, the model follows the code:

- The label constructor of QueryDataNode leaves the field name null and the field id -1. It does not set them to "unset".
- The LENGTHLE operator of DBQueryHandler tests `size > n`, as LENGTHGR does.
- `VectorUtils.difference` is taken to keep the order of its first argument, and `VectorUtils.union` to append the missing elements of the second argument to the first.
- The four permission bits of a row or entry are a record of four booleans, kept in column order.
- After `release`, DBSchemaEdit's working bases are null. `getBase`, `getBases` and `deleteBase` then throw a NullPointerException, and the model says so.
- The mail return address gets its suffix only when the user is not the root.

## Model

| member | source | states |
|---|---|---|
| SddlConstants.StandardCombinationValues | ADSyncChannel/sddl_constants.py:124-140 | the required and all-access standard combinations are 0x000f0000 and 0x001f0000, the execute/read/write aliases are 0x00020000, and STD_RIGHT_ALL_ACCESS is the OR of the five standard rights |
| SddlConstants.UserMappingValues | ADSyncChannel/sddl_constants.py:270-293 | the user generic mappings equal their commented values 0x000f07ff, 0x0002031a, 0x000204e4, 0x00020041 |
| SddlConstants.GroupMappingValues | ADSyncChannel/sddl_constants.py:306-322 | the group generic mappings equal 0x000f001f, 0x00020010, 0x0002000e, 0x00020001 |
| SddlConstants.AliasMappingValues | ADSyncChannel/sddl_constants.py:335-351 | the alias generic mappings equal 0x000f001f, 0x00020004, 0x00020013, 0x00020008 |
| SddlConstants.MaskRegions | ADSyncChannel/sddl_constants.py:108-130 | the specific, standard and generic masks are pairwise disjoint; every GENERIC_RIGHT_* lies in the generic mask and every STD_RIGHT_* in the standard mask |
| SddlConstants.CombinationsUseOnlyStandardAndSpecificBits | ADSyncChannel/sddl_constants.py:112-113 | each of the 24 generic combinations of lines 156-351 uses only standard and specific bits, never generic, system-security or maximum-allowed bits |
| SddlConstants.AllSecurityInformationValue | ADSyncChannel/sddl_constants.py:85-103 | ALL_SECURITY_INFORMATION, the OR of the eight information flags, is 0xF000000F |
| SddlConstants.SidTable | ADSyncChannel/sddl_constants.py:358-382 | ENTERPRISE_CONTROLLERS and SERVER_LOGON are both "S-1-5-9"; every other SID string is distinct |
| ArrayUtils.ArrayCopy | src/ganymede/arlut/csd/Util/ArrayUtils.java:81 | System.arraycopy into a distinct array: the target slice holds the source's elements and the rest of the target is unchanged |
| ArrayUtils.Append | src/ganymede/arlut/csd/Util/ArrayUtils.java:79-88 | a non-null argument is copied at the current length, which then advances by its length; a null argument copies nothing |
| ArrayUtils.Concat2 | src/ganymede/arlut/csd/Util/ArrayUtils.java:73-91 | a fresh array whose length is the sum of the non-null lengths and whose contents are ary1 then ary2, null read as empty (all-null gives an empty array); no input is modified |
| ArrayUtils.Concat3 | src/ganymede/arlut/csd/Util/ArrayUtils.java:93-118 | a fresh array holding the non-null inputs' elements in argument order |
| ArrayUtils.Concat4 | src/ganymede/arlut/csd/Util/ArrayUtils.java:120-152 | a fresh array holding the non-null inputs' elements in argument order |
| ArrayUtils.Concat5 | src/ganymede/arlut/csd/Util/ArrayUtils.java:154-193 | a fresh array holding the non-null inputs' elements in argument order |
| GHashtable.MakeGKey | src/server/GHashtable.java:177-188 | a String key is folded to lower case, any other key is kept as it is, and the original is remembered in orig |
| GHashtable.StringHash | src/server/GHashtable.java:190-193 | the hash of a folded string key, String.hashCode wrapped to a signed 32-bit int |
| GHashtable.GKeyHashConsistent | src/server/GHashtable.java:190-205 | equals and hashCode agree: two GKeys that are equal hash alike |
| GHashtable.WrappersEqualIff | src/server/GHashtable.java:177-205 | two string keys give equal GKeys exactly when they are equal ignoring case |
| GHashtable.Slot | src/server/GHashtable.java:104-156 | the key a mode looks up under: the key itself when case-sensitive, the folded key otherwise |
| GHashtable.GHashtable.constructor | src/server/GHashtable.java:86-90 | an empty table in the requested mode |
| GHashtable.GHashtable.ContainsKey | src/server/GHashtable.java:104-114 | true exactly when the key's slot is stored |
| GHashtable.GHashtable.Get | src/server/GHashtable.java:116-126 | the value stored under the key's slot, absent exactly when containsKey is false |
| GHashtable.GHashtable.Put | src/server/GHashtable.java:128-144 | returns the value previously stored under the same slot and stores the new value there, keeping the table well formed |
| GHashtable.GHashtable.Remove | src/server/GHashtable.java:146-156 | returns the value stored under the key's slot and removes that slot |
| GHashtable.GHashtable.Keys | src/server/GHashtable.java:92-102 | keys() yields exactly the stored original key objects, unwrapped from their GKeys |
| GHashtable.SlotIdempotent | src/server/GHashtable.java:177-188 | folding an already folded key changes nothing |
| GHashtable.GetAfterPutIgnoresCase | src/server/GHashtable.java:116-144 | case-insensitive mode: after put(k1, v), get(k2) returns v for every k2 equal to k1 ignoring case |
| GHashtable.RemoveIgnoresCase | src/server/GHashtable.java:146-156 | case-insensitive mode: remove(k2) removes the entry any case variant k1 stored |
| GHashtable.PutKeepsFirstSpelling | src/server/GHashtable.java:128-144 | a second put under a case variant keeps the first key's spelling in keys() |
| GHashtable.CaseSensitiveIsPlain | src/server/GHashtable.java:110-155 | case-sensitive mode: put, get and remove behave exactly like a plain Hashtable |
| VecQuickSort.Swap | src/Util/VecQuickSort.java:63-73 | the two setElementAt calls exchange two elements and leave the rest alone, so the contents stay a permutation |
| VecQuickSort.ScanUp | src/Util/VecQuickSort.java:53-56 | the upward scan stays in bounds (stops at or before j0, never past last) and passes only elements below the pivot |
| VecQuickSort.ScanDown | src/Util/VecQuickSort.java:58-61 | the downward scan stays at or above first and passes only elements above the pivot |
| VecQuickSort.Partition | src/Util/VecQuickSort.java:50-73 | after partitioning the pivot sits at j in first..last, elements of first..j-1 compare at or below it and those of j+1..last at or above it; the array is a permutation changed only inside the range |
| VecQuickSort.Quick | src/Util/VecQuickSort.java:38-77 | quick(first, last) leaves the range sorted under a total-preorder comparator, permutes only that range, and terminates since both recursive ranges are strictly smaller |
| VecQuickSort.Sort | src/Util/VecQuickSort.java:79-87 | the whole vector ends non-decreasing and a permutation of its old contents; fewer than two elements are left untouched |
| QueryDataNode.NewByName | src/server/QueryDataNode.java:52-64 | throws IllegalArgumentException exactly when the comparator lies outside [1, 9]; otherwise keeps the name, comparator and value and sets the field id to -1 |
| QueryDataNode.NewById | src/server/QueryDataNode.java:80-92 | throws IllegalArgumentException exactly when the comparator lies outside [1, 9]; otherwise keeps the id, comparator and value with no field name |
| QueryDataNode.NewOnLabel | src/server/QueryDataNode.java:102-114 | throws IllegalArgumentException exactly when the comparator lies outside [1, 9]; otherwise no field name and field id -1 (not "unset") |
| QueryDataNode.LabelIsIdMinusOne | src/server/QueryDataNode.java:80-114 | the label constructor builds the same node as the id constructor given -1 |
| QueryDataNode.DumpToString | src/server/QueryDataNode.java:124-194 | the dump starts with "(" and ends with ")" |
| QueryDataNode.ParseOperator | src/server/QueryDataNode.java:133-156 | reading the operator back yields only comparators 1 to 5 |
| QueryDataNode.FieldTextOpens | src/server/QueryDataNode.java:163-174 | each of the three field renderings ("fieldname X", "#id", "null") opens with "(fieldname" |
| QueryDataNode.DumpShowsComparator | src/server/QueryDataNode.java:133-159 | comparators 1..5 are rendered as "=", "<", "<=", ">", ">=" and read back unchanged; any other comparator shows the error text |
| QueryDataNode.DumpEndsWithValue | src/server/QueryDataNode.java:178-190 | a null value is rendered "(value undefined)", any other value as "(value " + its text + ")", followed by the closing parenthesis |
| DBQueryHandler.AsString | src/server/DBQueryHandler.java:288-305 | a cast to String throws ClassCastException exactly when the value is neither null nor a string |
| DBQueryHandler.AsInvid | src/server/DBQueryHandler.java:307-383 | a cast to Invid throws ClassCastException exactly when the value is neither null nor an Invid |
| DBQueryHandler.AsBytes | src/server/DBQueryHandler.java:437-509 | a cast to Byte[] throws ClassCastException exactly when the value is neither null nor a byte array |
| DBQueryHandler.CompareStringNull | src/server/DBQueryHandler.java:645-657 | compareString with a null operand on either side is false |
| DBQueryHandler.CompareStringOrder | src/server/DBQueryHandler.java:756-784 | LESS is the negation of GREATEQ, LESSEQ is LESS or EQUALS, GREAT is LESS with the operands swapped, and EQUALS is symmetric: the ordered comparators are compareTo of the field value against the query value |
| DBQueryHandler.CompareStringLessTransitive | src/server/DBQueryHandler.java:768-771 | LESS is transitive along a chain of field values |
| DBQueryHandler.NoCaseEqualsFolding | src/server/DBQueryHandler.java:756-761 | EQUALS implies NOCASEEQ, and a value is NOCASEEQ to its lower-case folding |
| DBQueryHandler.ScanTrueIff | src/server/DBQueryHandler.java:620-629 | a CONTAINS scan returns true iff some element matches and every element before it fails without throwing |
| DBQueryHandler.ScanFalseIff | src/server/DBQueryHandler.java:620-631 | a CONTAINS scan returns false iff every element fails without throwing |
| DBQueryHandler.CompareStringArray | src/server/DBQueryHandler.java:611-637 | false for a null vector or any array operator but CONTAINS; otherwise the scan of the elements, each cast to String, under compareString |
| DBQueryHandler.S2U | src/server/DBQueryHandler.java:940-943 | s2u reads a signed byte as an unsigned value in 0..255 |
| DBQueryHandler.U2S | src/server/DBQueryHandler.java:923-938 | u2s throws IllegalArgumentException exactly outside 0..255 |
| DBQueryHandler.ByteRoundTrips | src/server/DBQueryHandler.java:923-943 | s2u(u2s(x)) == x for x in 0..255, and u2s(s2u(b)) == b for every byte |
| DBQueryHandler.NoPad | src/server/DBQueryHandler.java:899-921 | the unpadded address is a prefix of the input, does not end in an unsigned zero, and only unsigned zeros follow it |
| DBQueryHandler.NoPadIgnoresPadding | src/server/DBQueryHandler.java:899-921 | appending zero bytes to an address does not change its unpadded form |
| DBQueryHandler.IpAddrNoPad | src/server/DBQueryHandler.java:899-921 | ipAddrNoPad's two loops return exactly the unpadded address |
| DBQueryHandler.CompareIPs | src/server/DBQueryHandler.java:797-824 | true iff both addresses have the same length and the same byte at every position |
| DBQueryHandler.IpBeginsWith | src/server/DBQueryHandler.java:826-857 | true iff the unpadded second address is a prefix of the first |
| DBQueryHandler.IpEndsWith | src/server/DBQueryHandler.java:859-897 | true iff the unpadded second address is a suffix of the first |
| DBQueryHandler.NodeMatch | src/server/DBQueryHandler.java:123-604 | nodeMatch never lets a ClassCastException out: it becomes false |
| DBQueryHandler.Matches | src/server/DBQueryHandler.java:94-108 | a null query or object throws NullPointerException, a query with no root matches, otherwise the result is nodeMatch of the root |
| DBQueryHandler.NullNodeLaws | src/server/DBQueryHandler.java:133-153 | a null node is false, so NOT of a null node is true |
| DBQueryHandler.ConnectivesWhenTotal | src/server/DBQueryHandler.java:138-153 | when both children return, NOT negates, AND is the conjunction and OR the disjunction, each commutative |
| DBQueryHandler.ShortCircuit | src/server/DBQueryHandler.java:143-153 | AND stops at a false left child, OR at a true one, and an exception in the left child is the result of both |
| DBQueryHandler.NegationLaws | src/server/DBQueryHandler.java:138-153 | double negation and De Morgan's laws hold exactly, exceptions included |
| DBQueryHandler.InvidNode | src/server/DBQueryHandler.java:164-176 | field id -2 compares the object's Invid with the value, and only EQUALS can match |
| DBQueryHandler.MissingFieldFails | src/server/DBQueryHandler.java:178-217 | a named or numbered field that is absent or undefined gives false |
| DBQueryHandler.LengthOperators | src/server/DBQueryHandler.java:235-284 | on a defined vector field LENGTHEQ is size == n, LENGTHGR is size > n, and as written LENGTHLE is size > n too |
| DBQueryHandler.LengthOfScalarThrows | src/server/DBQueryHandler.java:235-284 | a length test on a scalar field throws (null vector), and on the label dereferences the null field |
| DBQueryHandler.ScalarOrdered | src/server/DBQueryHandler.java:525-595 | a scalar integer or date field is compared with the five ordered comparators |
| DBQueryHandler.OrderedOnlyFive | src/server/DBQueryHandler.java:525-595 | any comparator but the five ordered ones gives false on integers and dates |
| DBQueryHandler.ScalarString | src/server/DBQueryHandler.java:288-299 | a scalar string field is compared by compareString with the field value as subject |
| DBQueryHandler.LabelString | src/server/DBQueryHandler.java:218-221 | a label node compares the object's label by compareString |
| DBQueryHandler.ContainsIsScan | src/server/DBQueryHandler.java:300-304 | CONTAINS on a string vector field is the element scan |
| DBQueryHandler.ScanOfPredicate | src/server/DBQueryHandler.java:620-631 | a scan whose test never throws is the existential of the test |
| DBQueryHandler.StringScanIff | src/server/DBQueryHandler.java:620-631 | scanning strings finds a match iff some element matches under compareString |
| DBQueryHandler.ContainsString | src/server/DBQueryHandler.java:288-304 | CONTAINS on a vector of strings matches iff some element matches |
| DBQueryHandler.ScalarAddress | src/server/DBQueryHandler.java:437-509 | a scalar address field: EQUALS is compareIPs, STARTSWITH ipBeginsWith and ENDSWITH ipEndsWith against the query address; anything else gives false |
| RowTable.CompareText | src/ganymede/arlut/csd/JTable/rowTable.java:1148-1169 | null text sorts below any text and two nulls are equal |
| RowTable.Order | src/ganymede/arlut/csd/JTable/rowTable.java:1175-1247 | the -1/0/1 answer of the date and integer branches: negative iff below, zero iff equal |
| RowTable.CompareRows | src/ganymede/arlut/csd/JTable/rowTable.java:1075-1289 | rowSorter.compare can fail only with ClassCastException (a second row whose data is of another kind) |
| RowTable.CompareIgnoreCaseLaws | src/ganymede/arlut/csd/JTable/rowTable.java:1169 | compareToIgnoreCase is antisymmetric and transitive |
| RowTable.CompareTextLaws | src/ganymede/arlut/csd/JTable/rowTable.java:1148-1169 | the null-least text comparison is antisymmetric and transitive |
| RowTable.ConsistentNeverThrows | src/ganymede/arlut/csd/JTable/rowTable.java:1175-1247 | on a consistent column no comparison throws: the rows with data hold one kind of data, and empty cells (no data, null text) may sit beside them |
| RowTable.RowLaws | src/ganymede/arlut/csd/JTable/rowTable.java:1075-1289 | on pairwise comparable rows (one kind of data, or an empty cell with null text against a filled cell with text) the comparison is antisymmetric and transitive, in either direction |
| RowTable.PositionLaws | src/ganymede/arlut/csd/JTable/rowTable.java:1075-1289 | the comparison of row positions the sort uses is antisymmetric and transitive on a consistent column |
| RowTable.ConsistentIsPreorder | src/ganymede/arlut/csd/JTable/rowTable.java:1075-1289 | on a consistent column the comparison is a total preorder, as Collections.sort requires |
| RowTable.NullTextLeast | src/ganymede/arlut/csd/JTable/rowTable.java:1148-1165 | when either row has no data, null text sorts first going forward and last going backward: the text row then comes first |
| RowTable.SortOrder | src/ganymede/arlut/csd/JTable/rowTable.java:1313 | the order the sort puts rows in is a permutation of their positions |
| RowTable.SortOrderSpec | src/ganymede/arlut/csd/JTable/rowTable.java:1309-1313 | on a consistent column the sort order is non-decreasing under the comparison and stable: equal rows keep their relative order |
| RowTable.TwoLevelOrder | src/ganymede/arlut/csd/JTable/rowTable.java:952-970 | sorting by the older column and then by the last orders rows by the last column and, among rows equal in it, by the older |
| RowTable.DigitRun | src/ganymede/arlut/csd/JTable/rowTable.java:881-888 | the digits a (\d+) group consumes: the longest digit run at the start |
| RowTable.MatchSortPref | src/ganymede/arlut/csd/JTable/rowTable.java:881-893 | a match of (\d+)([fr])(:(\d+)([fr]))? yields non-empty digit groups and f/r order letters |
| RowTable.DigitRunOf | src/ganymede/arlut/csd/JTable/rowTable.java:881-888 | a digit run followed by a non-digit is consumed exactly |
| RowTable.MatchSortPrefSound | src/ganymede/arlut/csd/JTable/rowTable.java:881-888 | whatever the matcher accepts is exactly the text of the groups it returns |
| RowTable.MatchSortPrefComplete | src/ganymede/arlut/csd/JTable/rowTable.java:881-888 | every text of the pattern is accepted, with the groups it was made from |
| RowTable.ParseInt | src/ganymede/arlut/csd/JTable/rowTable.java:895-902 | Integer.parseInt of a digit group: its value, or NumberFormatException beyond the int range |
| RowTable.ApplySortPref | src/ganymede/arlut/csd/JTable/rowTable.java:871-903 | setSortPref clears both columns first; the only exception is NumberFormatException; an older column is only ever set after a last one |
| RowTable.SortPrefText | src/ganymede/arlut/csd/JTable/rowTable.java:910-946 | getSortPref is "" when there is no last column |
| RowTable.UnmatchedPrefClears | src/ganymede/arlut/csd/JTable/rowTable.java:873-888 | a null, empty or non-matching preference leaves both columns at -1 and throws nothing |
| RowTable.OrderLetters | src/ganymede/arlut/csd/JTable/rowTable.java:895-902 | "f" means forward and the other letter backward, for both columns |
| RowTable.SortPrefRoundTrip | src/ganymede/arlut/csd/JTable/rowTable.java:871-946 | setSortPref(getSortPref()) restores both columns and their directions, leaving the older direction as it was when there is no older column |
| RowTable.SortPrefTextRoundTrip | src/ganymede/arlut/csd/JTable/rowTable.java:871-946 | a canonical preference string (no leading zeros) is written back unchanged after being read |
| RowTable.RemoveHandle | src/ganymede/arlut/csd/JTable/rowTable.java:594-603 | removing a handle keeps the rest distinct, indexed under their keys and in place before it |
| RowTable.RowHandle.constructor | src/ganymede/arlut/csd/JTable/rowTable.java:1033-1050 | a handle with its key and row number and no row attached yet |
| RowTable.RemoveHandleAt | src/ganymede/arlut/csd/JTable/rowTable.java:598-606 | deleteRow's crossref.remove and renumbering loop: the handle is removed and every handle's rownum equals its index |
| RowTable.RenumberFrom | src/ganymede/arlut/csd/JTable/rowTable.java:604-607 | the renumbering loop gives every handle from the start index on its own position |
| RowTable.AttachRows | src/ganymede/arlut/csd/JTable/rowTable.java:1300-1309 | the first sort loop gives each handle the row at its position, leaving the row numbers alone |
| RowTable.WriteBack | src/ganymede/arlut/csd/JTable/rowTable.java:1317-1326 | the write-back loop renumbers the i-th sorted handle i and rebuilds crossref and rows in that order |
| RowTable.SortHandles | src/ganymede/arlut/csd/JTable/rowTable.java:1291-1329 | with fewer than two rows nothing changes; otherwise handles and rows take the stable sort order, each handle renumbered to its position and holding its row |
| RowTable.RowTable.constructor | src/ganymede/arlut/csd/JTable/rowTable.java:119-130 | an empty table whose sort columns start at -1, both directions forward, nothing selected |
| RowTable.RowTable.NewRow | src/ganymede/arlut/csd/JTable/rowTable.java:552-566 | a key already present throws IllegalArgumentException and changes nothing; otherwise a blank row is appended with a fresh handle at its position, filed under the key |
| RowTable.RowTable.DeleteRow | src/ganymede/arlut/csd/JTable/rowTable.java:575-612 | an absent key is a no-op; otherwise the selection is cleared if it is that key, the row, its handle and its index entry are removed, and every handle's rownum equals its index |
| RowTable.RowTable.Sort | src/ganymede/arlut/csd/JTable/rowTable.java:1291-1329 | rows and handles take the stable sort order, each handle renumbered to its position and holding its row; index, selection and preferences unchanged |
| RowTable.RowTable.ResortBy | src/ganymede/arlut/csd/JTable/rowTable.java:976-997 | a repeated column sets older to -1, otherwise older takes the previous last column and direction; last becomes (column, forward) and the rows are sorted by it |
| RowTable.RowTable.Resort | src/ganymede/arlut/csd/JTable/rowTable.java:952-970 | nothing when there is no last column; otherwise a sort by the older column, if any, then by the last |
| RowTable.RowTable.SetSortPref | src/ganymede/arlut/csd/JTable/rowTable.java:871-903 | the sort history after the call and the exception, if any, are those of the parser; rows are untouched |
| StableSort.SortedPositions | src/ganymede/arlut/csd/JTable/rowTable.java:1309-1313 | the reference for Collections.sort on row positions: a permutation of 0..n-1 |
| StableSort.SortedPositionsSpec | src/ganymede/arlut/csd/JTable/rowTable.java:1309-1313 | under a total preorder the sorted positions are ordered by the comparator and equal positions keep their order (the stability Collections.sort promises) |
| StableSort.SortMultiset | src/ganymede/arlut/csd/JTable/rowTable.java:1313 | the reference sort returns the same positions it was given |
| DBField.Passing | src/ganymede/arlut/csd/ganymede/server/DBField.java:1977-2013 | the values verifyNewValue accepts, in order, never more than were submitted |
| DBField.PassingMembers | src/ganymede/arlut/csd/ganymede/server/DBField.java:1977-2013 | a value is approved exactly when it was submitted and verifyNewValue accepted it |
| DBField.Approve | src/ganymede/arlut/csd/ganymede/server/DBField.java:1977-2015 | the verification loop of addElements: outside copy mode the first refusal ends it, returned as the refusal, after only accepted values; otherwise the approved values are those accepted and the refused values' dialogs are collected |
| DBField.PrefixStep | src/ganymede/arlut/csd/ganymede/server/DBField.java:1977-2013 | one more step of the verification loop appends the value or its dialog |
| DBField.FirstUnmarkable | src/ganymede/arlut/csd/ganymede/server/DBField.java:2051-2057 | the testmark loop finds no conflict exactly when the namespace lets every approved value be marked, otherwise the first that cannot |
| DBField.MarkAll | src/ganymede/arlut/csd/ganymede/server/DBField.java:2059-2066 | the mark loop leaves every approved value marked |
| DBField.UnmarkMissing | src/ganymede/arlut/csd/ganymede/server/DBField.java:2128-2146 | the unmark loop unmarks exactly the values the vector no longer holds |
| DBField.AppendAll | src/ganymede/arlut/csd/ganymede/server/DBField.java:2078-2081 | the append loop adds the approved values at the end, in order |
| DBField.RemoveAll | src/ganymede/arlut/csd/ganymede/server/DBField.java:2572-2575 | the removal loop of deleteElements is removeElement of each value in turn |
| DBField.ElementsUpdate | src/ganymede/arlut/csd/ganymede/server/DBField.java:1485 | replacing position i of a duplicate-free vector by a value it does not hold keeps it duplicate-free and swaps one element for the other |
| DBField.DistinctPassing | src/ganymede/arlut/csd/ganymede/server/DBField.java:1977-2013 | the approved values of a duplicate-free submission are duplicate-free |
| DBField.DiffRebuilds | src/ganymede/arlut/csd/ganymede/server/DBField.java:2717-2718 | the new vector's elements are the old ones minus the deleted plus the added, and each list names only values that changed sides |
| DBField.Field.constructor | src/ganymede/arlut/csd/ganymede/server/DBField.java:202-204 | a new field holds no value and marks nothing |
| DBField.Field.Size | src/ganymede/arlut/csd/ganymede/server/DBField.java:274-284 | size() is 1 for a scalar and the vector's length otherwise |
| DBField.Field.MaxArraySize | src/ganymede/arlut/csd/ganymede/server/DBField.java:292-302 | getMaxArraySize() is 1 for a scalar and the field definition's limit otherwise |
| DBField.Field.RescanThisField | src/ganymede/arlut/csd/ganymede/server/DBField.java:3247-3261 | a failed answer passes through unchanged; otherwise (null read as success) the answer also asks to rescan this field, keeping its dialog and other rescans |
| DBField.Field.SetValue | src/ganymede/arlut/csd/ganymede/server/DBField.java:1066-1213 | setValue: no write permission throws, a vector field throws IllegalArgumentException, an unchanged value is a no-op, a refusal by verifyNewValue or the wizard is returned, and only a successful finalize stores the value; the namespace marks stay consistent |
| DBField.Field.AddElement | src/ganymede/arlut/csd/ganymede/server/DBField.java:1612-1738 | addElement: the permission, scalar and null guards throw; a duplicate or a full vector is refused; only a successful finalize appends the value, otherwise the marks are restored |
| DBField.Field.SetElement | src/ganymede/arlut/csd/ganymede/server/DBField.java:1398-1542 | setElement: the guards throw, the same value at the same index is a no-op, a value held elsewhere in the vector is refused, a successful finalize replaces the element (an index outside the vector throws) and duplicates never arise |
| DBField.Field.DeleteElementAt | src/ganymede/arlut/csd/ganymede/server/DBField.java:2215-2304 | deleteElement(index): the guards throw, an index outside the vector throws, and only a successful finalize removes the element, keeping the vector duplicate-free and the marks consistent |
| DBField.Field.DeleteElement | src/ganymede/arlut/csd/ganymede/server/DBField.java:2355-2400 | deleteElement(value): a null or absent value is refused, otherwise the first occurrence goes after a successful finalize and no longer remains |
| DBField.Field.DeleteElements | src/ganymede/arlut/csd/ganymede/server/DBField.java:2492-2633 | deleteElements: an empty or null vector is refused, values not present are refused all together, and after a successful finalize exactly the named values are removed (all or nothing); the field's own vector passed as the argument throws IllegalArgumentException |
| DBField.Field.RemoveValues | src/ganymede/arlut/csd/ganymede/server/DBField.java:2572-2610 | the removal and unmark passes remove exactly the named values and keep the marks consistent |
| DBField.Field.AddElements | src/ganymede/arlut/csd/ganymede/server/DBField.java:1912-2164 | addElements: the guards throw, an empty submission is refused, values already present are refused outside copy mode, an overfull result is refused, and after a successful finalize the answer merges the earlier answer, the hook's and the refused values' dialogs; the field's own vector passed as the argument throws IllegalArgumentException |
| DBField.Field.AddCandidates | src/ganymede/arlut/csd/ganymede/server/DBField.java:1972-2164 | past the guards: a successful finalize appends exactly the accepted values, anything else leaves the vector as it was; duplicate-freedom holds when the submission is duplicate-free |
| DBField.Field.FinishAddElements | src/ganymede/arlut/csd/ganymede/server/DBField.java:2040-2164 | the namespace and finalize steps: a value the namespace will not mark refuses everything; a refused finalize leaves the vector as it was |
| DBField.Field.AddElementsChecked | src/ganymede/arlut/csd/ganymede/server/DBField.java:1947-1958 | the corrected addElements refuses a submission that names a value twice and keeps the vector duplicate-free |
| DBField.Field.Equals | src/ganymede/arlut/csd/ganymede/server/DBField.java:368-409 | equals: true iff same field class and, for vectors, same size and equal elements in order, for scalars equal non-null values; a null other field throws |
| DBField.Field.VectorDiff | src/ganymede/arlut/csd/ganymede/server/DBField.java:2694-2737 | getVectorDiff is defined exactly for two vector versions of the same field; added holds the values only the new version has, deleted those only the old one had |
| DBField.Field.Checkpoint | src/ganymede/arlut/csd/ganymede/server/DBField.java:3142-3174 | checkpoint is a copy of the vector or the scalar value |
| DBField.Field.Rollback | src/ganymede/arlut/csd/ganymede/server/DBField.java:3176-3245 | rollback outside an edit context or to a checkpoint of the wrong shape throws RuntimeException and changes nothing; otherwise the field equals the checkpoint again |
| DBField.GoneAfterRemove | src/ganymede/arlut/csd/ganymede/server/DBField.java:2263 | after removing position i of a duplicate-free vector its value is gone |
| DBField.FirstRepeat | src/ganymede/arlut/csd/ganymede/server/DBField.java:1947-1958 | the corrected duplicate check finds a repeated value exactly when the submission is not duplicate-free |
| DBField.InternalDuplicatesAdmitted | src/ganymede/arlut/csd/ganymede/server/DBField.java:1947-1958 | as written, a submission naming one value twice passes the intersection test against the current values, is approved whole and leaves a duplicate in the vector |
| PasswordFields.NonEmpty | src/server/PasswordDBField.java:1221-1231 | the setters store null for both null and the empty string, and keep any other text |
| PasswordFields.OrEmpty | src/server/PasswordDBField.java:303-313 | emit writes a null form as the empty string, which reading back turns into null again |
| PasswordFields.EncodeHidesPlaintext | src/server/PasswordDBField.java:299-345 | a crypted or md5crypted field writes the same record whatever its plaintext is: the plaintext never reaches the disk |
| PasswordFields.ReadUTF | src/server/PasswordDBField.java:347-428 | each readUTF takes the next string of the record, and an exhausted stream is an EOFException |
| PasswordFields.RoundTrip | src/server/PasswordDBField.java:299-426 | receive, for a file in the current format, reads back exactly what emit wrote: the stored hashes, or the plaintext when the field keeps none, and no more of the stream |
| PasswordFields.CryptRead | src/server/PasswordDBField.java:365-383 | the crypt step of receive reads back the crypt text emit wrote (null for "") and nothing when the field is not crypted |
| PasswordFields.MD5Read | src/server/PasswordDBField.java:385-402 | the md5crypt step of receive reads back the md5crypt text emit wrote, and clears it when the field is not md5crypted |
| PasswordFields.DecodeFailsAtEnd | src/server/PasswordDBField.java:347-426 | the only way receive fails is by running out of input |
| PasswordFields.MD5Salt | src/server/PasswordDBField.java:960-997 | the md5crypt salt has at most 8 characters, no '$', and is a prefix of the text after the "$1$" magic |
| PasswordFields.MD5SaltOfHash | src/server/PasswordDBField.java:826-849 | the salt taken from a hash "$1$salt$hash" is that salt |
| PasswordFields.Allowed | src/server/PasswordDBField.java:634-653 | a character is refused exactly when an allowed set exists without it or a disallowed set exists with it |
| PasswordFields.FirstOutside | src/server/PasswordDBField.java:1316-1329 | the allowed-characters scan finds nothing iff every character is allowed, and otherwise names a character of the text outside the set |
| PasswordFields.FirstInside | src/server/PasswordDBField.java:1334-1347 | the disallowed-characters scan finds nothing iff no character is disallowed, and otherwise names a character of the text inside the set |
| PasswordFields.CheckAccepts | src/server/PasswordDBField.java:1257-1354 | verifyNewValue accepts exactly null, or a string of permitted length whose characters are all allowed and which the owner accepts, and only on an editable field |
| PasswordFields.CheckNamesBadChar | src/server/PasswordDBField.java:1316-1347 | a rejected character is in the submission and is one that allowed() refuses |
| PasswordFields.AsValue | src/server/PasswordDBField.java:1012-1020 | the text handed to verifyNewValue is null exactly when no text was given |
| PasswordFields.PasswordField.constructor | src/server/PasswordDBField.java:166-172 | the no-value constructor gives a field that holds no form of the password, so isDefined is false |
| PasswordFields.PasswordField.Receive | src/server/PasswordDBField.java:146-152 | reading a field from a stream succeeds exactly when the stream decoding does, giving a fresh field of that definition in the decoded state; a short stream is an EOFException (also lines 347-426) |
| PasswordFields.PasswordField.GetSalt | src/server/PasswordDBField.java:936-958 | a crypted field with crypt text reports its first two characters as the salt, one whose text is shorter throws, any other field reports null |
| PasswordFields.PasswordField.MatchCryptText | src/server/PasswordDBField.java:801-824 | without crypt text nothing matches; a submission not starting with the stored salt is an IllegalArgumentException; otherwise it matches iff it equals the stored text |
| PasswordFields.MatchCryptOwnHash | src/server/PasswordDBField.java:801-824 | the stored crypt text matches itself |
| PasswordFields.PasswordField.GetMD5Salt | src/server/PasswordDBField.java:960-997 | an md5crypted field with md5crypt text reports that text's salt, and any other field null |
| PasswordFields.PasswordField.MatchMD5CryptText | src/server/PasswordDBField.java:826-867 | a submission whose salt differs from the stored one is an IllegalArgumentException; otherwise it matches iff it equals the stored md5crypt text |
| PasswordFields.MatchMD5OwnHash | src/server/PasswordDBField.java:826-867 | the stored md5crypt text matches itself |
| PasswordFields.PasswordField.VerifyNewValue | src/server/PasswordDBField.java:1257-1354 | the method with its two character scans returns the verdict of the permission, type, length and character checks in that order |
| PasswordFields.PasswordField.SetPlainTextPass | src/server/PasswordDBField.java:1012-1139 | the field changes iff verifyNewValue and the owner accept; null clears every form; otherwise it stores a fresh hash of each kind it is defined with plus the plaintext |
| PasswordFields.PasswordField.SetCryptPass | src/server/PasswordDBField.java:1141-1189 | the field changes iff it is editable, crypted and the owner accepts; the crypt text is then set (null for "") and the other forms are lost |
| PasswordFields.PasswordField.SetMD5CryptedPass | src/server/PasswordDBField.java:1191-1246 | the field changes iff it is editable, md5crypted, the text is in "$1$...$..." form and the owner accepts; the md5crypt text is then set and the other forms are lost |
| DataStreams.BigEndian | src/server/DateDBField.java:159-167 | the bytes DataOutput writes for an n-byte number are exactly n |
| DataStreams.Unsigned | src/server/DateDBField.java:179-188 | the number DataInput reads from n bytes is below 256^n |
| DataStreams.UnsignedOfBigEndian | src/server/DateDBField.java:155-192 | reading back n written bytes of a number gives that number modulo 256^n |
| DataStreams.WriteShort | src/server/DateDBField.java:159 | writeShort writes two bytes |
| DataStreams.ReadShort | src/server/DateDBField.java:179 | readShort needs two bytes, throws EOFException without them, and consumes exactly two |
| DataStreams.ShortRead | src/server/DateDBField.java:159-179 | readShort after writeShort(v) gives back v truncated to a signed 16-bit number, and leaves what follows |
| DataStreams.ShortCastUnique | src/server/DateDBField.java:159-179 | the signed 16-bit truncation is the one 16-bit number congruent to its argument |
| DataStreams.WriteLong | src/server/DateDBField.java:162-167 | writeLong writes eight bytes |
| DataStreams.ReadLong | src/server/DateDBField.java:182-188 | readLong needs eight bytes, throws EOFException without them, and consumes exactly eight |
| DataStreams.LongRead | src/server/DateDBField.java:162-182 | readLong after writeLong(v) gives back v and leaves what follows |
| DateFields.EncodeDates | src/server/DateDBField.java:160-163 | the dates of a vector take eight bytes each |
| DateFields.Encode | src/server/DateDBField.java:155-169 | a null date or vector is a NullPointerException; a vector writes a two-byte size and eight bytes per date; a scalar writes eight bytes |
| DateFields.DecodeDates | src/server/DateDBField.java:179-184 | count dates take 8*count bytes, and fewer bytes are an EOFException |
| DateFields.Decode | src/server/DateDBField.java:171-192 | a successful read leaves the field defined with a vector or a scalar as the field is; a negative count is an IllegalArgumentException and short input an EOFException |
| DateFields.DatesRoundTrip | src/server/DateDBField.java:160-183 | the dates written one by one read back one by one, leaving what follows |
| DateFields.EncodeDatesFront | src/server/DateDBField.java:160-163 | the record of a run of dates starts with the record of its first date |
| DateFields.VectorRoundTrip | src/server/DateDBField.java:155-192 | a vector of fewer than 32768 dates reads back as the same dates, consuming exactly its record |
| DateFields.ScalarRoundTrip | src/server/DateDBField.java:166-189 | a scalar date reads back with the same getTime() |
| DateFields.OversizedVectorRefused | src/server/DateDBField.java:159-179 | a vector of 32768 dates writes a size that reads back negative, so reloading it throws |
| DateFields.VerifyNewValue | src/server/DateDBField.java:322-372 | a date is accepted iff the field is editable, the value is a Date, it lies within the limits that are set, and the owner accepts it |
| DateFields.BoundariesAccepted | src/server/DateDBField.java:346-367 | both limits are inclusive, and one millisecond beyond either is refused |
| DateFields.ScalarConstructed | src/server/DateDBField.java:96-117 | the scalar value constructor refuses a vector field and is defined iff the date is non-null |
| DateFields.VectorConstructedAsWritten | src/server/DateDBField.java:125-148 | the vector value constructor as written throws for every non-null vector |
| DateFields.VectorConstructorThrows | src/server/DateDBField.java:138-141 | any non-null vector of dates makes the constructor throw a NullPointerException |
| DateFields.VectorConstructed | src/server/DateDBField.java:125-148 | the vector constructor as intended refuses a scalar field and otherwise holds a copy of the dates and is defined |
| DateFields.ConstructedSurvivesReload | src/server/DateDBField.java:125-192 | what the corrected vector constructor builds survives a dump and reload |
| DateFields.DateField.constructor | src/server/DateDBField.java:55-63 | the no-value constructor holds no value and is undefined |
| DateFields.DateField.NewScalar | src/server/DateDBField.java:96-117 | the scalar constructor builds a fresh field holding what ScalarConstructed describes, or throws when that does |
| DateFields.DateField.NewVector | src/server/DateDBField.java:125-148 | the vector constructor (corrected) builds a fresh field holding what VectorConstructed describes |
| DateFields.DateField.Copy | src/server/DateDBField.java:71-88 | the copy constructor holds the other field's dates and is defined; a null vector is a NullPointerException |
| DateFields.DateField.Emit | src/server/DateDBField.java:155-169 | the emit loop writes exactly the record Encode describes |
| DateFields.DateField.Receive | src/server/DateDBField.java:35-41 | the receive constructor gives a fresh field in the state Decode describes, or the same exception (also lines 171-192) |
| DateFields.ReadDates | src/server/DateDBField.java:179-184 | the receive loop reads exactly what DecodeDates describes |
| DateFields.DateField.Value | src/server/DateDBField.java:200-208 | value() on a vector field is an IllegalArgumentException, otherwise the scalar date |
| DateFields.DateField.ValueAt | src/server/DateDBField.java:210-218 | value(i) on a scalar field is an IllegalArgumentException; on a vector it is the i-th date, and an index outside it throws |
| FreshNames.FirstFree | src/server/DBObjectBase.java:2147-2156 | the search ends at the first name of "New Field", "New Field 2", ... that the lookup does not find, every earlier step found one, and it takes at most one step more than there are names |
| FreshNames.TriedKeys | src/server/DBObjectBase.java:2151-2154 | k steps that all hit existing names hit k different ones, so the loop cannot run longer than the table is large |
| FreshNames.ExactSeparated | src/server/DBObjectBase.java:1957-1982 | with getField's exact name comparison every step of the search tries a new name |
| FreshNames.LowerSeparated | src/ganymede/arlut/csd/ganymede/server/DBSchemaEdit.java:562-570 | with the case-insensitive comparison of base names every step of the search tries a new name too |
| ObjectBases.Names | src/server/DBObjectBase.java:1957-1982 | the names getField enumerates are the table's entries' names, in order |
| ObjectBases.LookupId | src/server/DBObjectBase.java:1944-1947 | getField(id) finds nothing iff no entry has that id, and otherwise an entry with that id |
| ObjectBases.LookupName | src/server/DBObjectBase.java:1957-1982 | getField(name) finds nothing iff no entry has that name, and otherwise an entry with that name |
| ObjectBases.Put | src/server/DBObjectBase.java:2684 | fieldTable.put holds the new field, keeps every entry with another id, and adds nothing else (also lines 2701, 2745) |
| ObjectBases.PutUnique | src/server/DBObjectBase.java:2684 | put keeps the table keyed by id: no two entries share one (also lines 2701, 2745) |
| ObjectBases.RemoveId | src/server/DBObjectBase.java:2755 | fieldTable.remove(id) keeps exactly the entries with another id |
| ObjectBases.RemoveIdUnique | src/server/DBObjectBase.java:2755 | remove keeps the table keyed by id |
| ObjectBases.TakenIffFound | src/server/DBObjectBase.java:2151 | the name search counts a name as taken exactly when getField finds it |
| ObjectBases.Ids | src/server/DBObjectBase.java:2315-2325 | the ids the loop visits are the table's entries' ids, in order |
| ObjectBases.NextFieldIdIsMax | src/server/DBObjectBase.java:2308-2328 | while no id reaches Short.MAX_VALUE, the next field id is at least 256, above every id, and either 256 or one past an existing id |
| ObjectBases.NextFieldIdWraps | src/server/DBObjectBase.java:2321-2324 | a field with id Short.MAX_VALUE makes the (short) cast send the next id round to -32768 |
| ObjectBases.DisplayCompareNeverAbove | src/server/DBObjectBase.java:121-141 | the display-order comparator as written answers -1 iff a is below b and never 1 |
| ObjectBases.DisplayCompareNotAntisymmetric | src/server/DBObjectBase.java:121-141 | so it is not antisymmetric, which the quicksort it is handed to needs |
| ObjectBases.DisplayOrderCompare | src/server/DBObjectBase.java:121-141 | the comparator as intended is negative iff a is below b and positive iff a is above b |
| ObjectBases.DisplayOrderComparePreorder | src/server/DBObjectBase.java:796-799 | the corrected comparator is a total preorder, as the sort of old files' custom fields needs |
| ObjectBases.KeepNameChars | src/server/DBObjectBase.java:1552-1553 | StringUtils.strip keeps only allowed characters, keeps every allowed character of the name, and never lengthens it |
| ObjectBases.KeepNameCharsCounts | src/server/DBObjectBase.java:1552-1553 | StringUtils.strip keeps each allowed character as often as the name holds it, and drops every other character |
| ObjectBases.KeepNameCharsAppend | src/server/DBObjectBase.java:1552-1553 | stripping keeps the order of the name: the kept characters of a + b are those of a followed by those of b |
| ObjectBases.ProposedName | src/server/DBObjectBase.java:1552-1563 | the name proposed for an embedded base starts with "Embedded " |
| ObjectBases.EmbeddedName | src/server/DBObjectBase.java:1555-1562 | an embedded base's name gets the "Embedded " prefix unless it already has it; a plain base's name is left alone |
| ObjectBases.TrimKeepsNameChars | src/server/DBObjectBase.java:1552-1553 | trim only drops characters, so the stripped name stays clean |
| ObjectBases.ProposedNameClean | src/server/DBObjectBase.java:1547-1563 | the proposed name holds only letters, digits, space, '.' and '-' |
| ObjectBases.ProposedNameTrimmed | src/server/DBObjectBase.java:1552-1553 | a plain base's proposed name has no leading or trailing blank |
| ObjectBases.ProposedNameIdempotent | src/server/DBObjectBase.java:1547-1563 | renaming a plain base to the name it was given leaves that name as it is |
| ObjectBases.Anchor | src/server/DBObjectBase.java:1709-1724 | a null or empty neighbour name means front or end; a named neighbour must be a custom field in the order (also lines 1757-1772) |
| ObjectBases.PlaceFacts | src/server/DBObjectBase.java:1726-1727 | taking a field out and inserting it at k keeps the others in order, keeps the order free of repeats and puts the field at k (also lines 1774-1775) |
| ObjectBases.MovedAfterFront | src/server/DBObjectBase.java:1709-1714 | moveFieldAfter with no previous field puts the field first and keeps the others in order |
| ObjectBases.MovedAfterPlaced | src/server/DBObjectBase.java:1726-1727 | moveFieldAfter(f, p) puts f right after p and keeps the others in order |
| ObjectBases.MovedAfterSelf | src/server/DBObjectBase.java:1726-1727 | moving a field after itself moves it to the front |
| ObjectBases.MovedBeforeEnd | src/server/DBObjectBase.java:1757-1762 | moveFieldBefore with no next field puts the field last and keeps the others in order |
| ObjectBases.MovedBeforePlaced | src/server/DBObjectBase.java:1774-1775 | moveFieldBefore(f, n) puts f right before n and keeps the others in order |
| ObjectBases.MovedBeforeSelf | src/server/DBObjectBase.java:1774-1775 | as written, moving a field before itself removes it and then asks for index -1 |
| ObjectBases.MovedBeforeCorrected | src/server/DBObjectBase.java:1742-1778 | moveFieldBefore as intended leaves the order alone when a field is moved before itself, and otherwise does what the source does |
| ObjectBases.MovedBeforeCorrectedReorders | src/server/DBObjectBase.java:1742-1778 | the corrected move always gives a reordering that keeps the others in order |
| ObjectBases.MovedCoherent | src/server/DBObjectBase.java:1694-1778 | a move keeps every id of the display order naming a field of the table |
| ObjectBases.PutKeepsCoherent | src/server/DBObjectBase.java:2676-2701 | after put, an order made of old ids and the new field's id still names fields only |
| ObjectBases.DBObjectBase.constructor | src/server/DBObjectBase.java:402-423 | a new base has an empty name, no fields, maxid 0 and no label field |
| ObjectBases.DBObjectBase.GetNextID | src/server/DBObjectBase.java:1388-1396 | getNextID increments maxid with 32-bit wrap-around and returns the new value, changing nothing else |
| ObjectBases.DBObjectBase.ReleaseId | src/server/DBObjectBase.java:1409-1415 | releaseId steps maxid back only when the id is the last handed out |
| ObjectBases.ReleaseUndoesNext | src/server/DBObjectBase.java:1388-1415 | releasing the id just handed out restores the counter |
| ObjectBases.DBObjectBase.GetNextFieldID | src/server/DBObjectBase.java:2308-2328 | the loop over the field table computes the id NextFieldIdAfter describes |
| ObjectBases.DBObjectBase.AddFieldToStart | src/server/DBObjectBase.java:2676-2686 | a system field id is an IllegalArgumentException; otherwise the field is put in the table and at the front of the order |
| ObjectBases.DBObjectBase.AddFieldToEnd | src/server/DBObjectBase.java:2693-2703 | a system field id is an IllegalArgumentException; otherwise the field is put in the table and at the end of the order |
| ObjectBases.DBObjectBase.AddSystemField | src/server/DBObjectBase.java:2738-2746 | a custom field id is an IllegalArgumentException; otherwise the field is put in the table only |
| ObjectBases.DBObjectBase.RemoveField | src/server/DBObjectBase.java:2753-2761 | as written the field leaves the table but stays in the display order, which then names a missing field |
| ObjectBases.DBObjectBase.RemoveFieldCorrected | src/server/DBObjectBase.java:2753-2761 | as intended the field leaves both the table and the display order, which stays coherent |
| ObjectBases.DBObjectBase.MoveFieldAfter | src/server/DBObjectBase.java:1694-1730 | an unknown field or previous field is refused with the order unchanged; otherwise the order becomes MovedAfter's |
| ObjectBases.DBObjectBase.MoveFieldBefore | src/server/DBObjectBase.java:1742-1778 | as written: unknown names are refused; moving a field before itself throws with the field already removed; otherwise the order becomes MovedBefore's |
| ObjectBases.DBObjectBase.MoveFieldBeforeCorrected | src/server/DBObjectBase.java:1742-1778 | as intended the move never throws and keeps the order free of repeats |
| ObjectBases.DBObjectBase.CreateNewField | src/server/DBObjectBase.java:2118-2164 | outside an editing context it throws; otherwise the new field gets the next field id and the first free "New Field" name, and goes at the end of the order |
| ObjectBases.DBObjectBase.SetName | src/server/DBObjectBase.java:1536-1590 | outside an editing context it throws; a cleaned-up name another base already uses is refused; otherwise the base takes that name |
| ObjectBases.DBObjectBase.Rename | src/server/DBObjectBase.java:1566-1590 | the guards and the assignment of setName once the name is cleaned up |
| ObjectBases.DBObjectBase.SetLabelField | src/server/DBObjectBase.java:2000-2036 | null clears the label field; an unknown name is refused; otherwise the label field becomes that field's id |
| ObjectBases.DBObjectBase.SetLabelFieldId | src/server/DBObjectBase.java:2051-2067 | -1 clears the label field; an unknown id is refused; otherwise the label is that id |
| SchemaEdits.ById | src/ganymede/arlut/csd/ganymede/server/DBSchemaEdit.java:439-442 | getBase(id) finds nothing iff no working base has that id, and otherwise one with that id |
| SchemaEdits.ByIdUnique | src/ganymede/arlut/csd/ganymede/server/DBSchemaEdit.java:439-442 | in a table keyed by id, getBase of a base's id finds that base |
| SchemaEdits.FindName | src/ganymede/arlut/csd/ganymede/server/DBSchemaEdit.java:451-470 | getBase(name) finds nothing iff no working base's name equals it ignoring case, and otherwise such a base |
| SchemaEdits.FindNameFirst | src/ganymede/arlut/csd/ganymede/server/DBSchemaEdit.java:456-466 | of several bases answering to the name, the lookup finds the first in enumeration order |
| SchemaEdits.Names | src/ganymede/arlut/csd/ganymede/server/DBSchemaEdit.java:456-466 | the names the lookup enumerates are the working bases' names, in order |
| SchemaEdits.TakenIffNamed | src/ganymede/arlut/csd/ganymede/server/DBSchemaEdit.java:566 | the naming loop's test getBase(newName) != null is a case-insensitive name clash |
| SchemaEdits.PutBase | src/ganymede/arlut/csd/ganymede/server/DBSchemaEdit.java:607 | newBases.put holds the new base, keeps every base with another id, and adds nothing else |
| SchemaEdits.PutBaseUnique | src/ganymede/arlut/csd/ganymede/server/DBSchemaEdit.java:607 | put keeps newBases keyed by id |
| SchemaEdits.PutBaseFinds | src/ganymede/arlut/csd/ganymede/server/DBSchemaEdit.java:607 | after the put, getBase of the id finds the new base |
| SchemaEdits.RemoveBase | src/ganymede/arlut/csd/ganymede/server/DBSchemaEdit.java:671 | newBases.remove(id) keeps exactly the bases with another id |
| SchemaEdits.RemoveBaseUnique | src/ganymede/arlut/csd/ganymede/server/DBSchemaEdit.java:671 | remove keeps newBases keyed by id |
| SchemaEdits.RemoveBaseGone | src/ganymede/arlut/csd/ganymede/server/DBSchemaEdit.java:671 | after the removal no working base has the id |
| SchemaEdits.KindExact | src/ganymede/arlut/csd/ganymede/server/DBSchemaEdit.java:344-406 | getBases(embedded) lists exactly the working bases of that kind |
| SchemaEdits.KindSplit | src/ganymede/arlut/csd/ganymede/server/DBSchemaEdit.java:344-406 | every working base is listed by exactly one of getBases(true) and getBases(false) |
| SchemaEdits.SpaceIndex | src/ganymede/arlut/csd/ganymede/server/DBSchemaEdit.java:790-802 | the search stops at the first namespace with the name, or past the end when there is none |
| SchemaEdits.HighIdNext | src/ganymede/arlut/csd/ganymede/server/DBSchemaEdit.java:502 | one id++ on the short moves the high-range search one step on, wrapping from 32767 to -32768 |
| SchemaEdits.HighStep | src/ganymede/arlut/csd/ganymede/server/DBSchemaEdit.java:502-509 | the high-range search tries every short once |
| SchemaEdits.HighSearchStops | src/ganymede/arlut/csd/ganymede/server/DBSchemaEdit.java:502-509 | stopping at the first free step means every id tried before it is taken |
| SchemaEdits.DBSchemaEdit.constructor | src/ganymede/arlut/csd/ganymede/server/DBSchemaEdit.java:179-239 | the session starts locked, with working copies of the store's bases and namespaces |
| SchemaEdits.DBSchemaEdit.GetBase | src/ganymede/arlut/csd/ganymede/server/DBSchemaEdit.java:451-470 | getBase(name) after release is a NullPointerException, and otherwise the case-insensitive lookup |
| SchemaEdits.DBSchemaEdit.GetBases | src/ganymede/arlut/csd/ganymede/server/DBSchemaEdit.java:344-406 | the counting pass and the filling pass give exactly the working bases of the kind, in order |
| SchemaEdits.DBSchemaEdit.FirstLowId | src/ganymede/arlut/csd/ganymede/server/DBSchemaEdit.java:485-498 | the low-range search returns the first id of 0..255 that no working base has, or 256 |
| SchemaEdits.DBSchemaEdit.FirstHighId | src/ganymede/arlut/csd/ganymede/server/DBSchemaEdit.java:502-509 | the high-range search returns the least free id from 256 up, or else the least free id below 256 after wrapping |
| SchemaEdits.DBSchemaEdit.NewBaseName | src/ganymede/arlut/csd/ganymede/server/DBSchemaEdit.java:562-570 | the new base is named "New Base", or "New Base i" for the first i that no working base answers to |
| SchemaEdits.DBSchemaEdit.CreateNewBase | src/ganymede/arlut/csd/ganymede/server/DBSchemaEdit.java:522-617 | after commit or release, or for an id the store already has, it throws; otherwise a fresh base with the given id, kind, category and first free name goes into newBases |
| SchemaEdits.DBSchemaEdit.CreateNewBaseInRange | src/ganymede/arlut/csd/ganymede/server/DBSchemaEdit.java:481-512 | a full low range returns null; otherwise the new base gets the first free id of the chosen range and is created as with an explicit id |
| SchemaEdits.DBSchemaEdit.DeleteBase | src/ganymede/arlut/csd/ganymede/server/DBSchemaEdit.java:628-674 | an unknown name is refused; a finished session throws; a base still holding objects is refused; otherwise the base leaves newBases |
| SchemaEdits.DBSchemaEdit.FindNameSpace | src/ganymede/arlut/csd/ganymede/server/DBSchemaEdit.java:790-802 | the search loop finds the slot SpaceIndex describes |
| SchemaEdits.DBSchemaEdit.InUse | src/ganymede/arlut/csd/ganymede/server/DBSchemaEdit.java:814-834 | the scan over every field of every working base finds a binding iff some field is bound to the namespace |
| SchemaEdits.DBSchemaEdit.DeleteNameSpace | src/ganymede/arlut/csd/ganymede/server/DBSchemaEdit.java:778-839 | a finished session throws; an unknown or still-bound namespace is refused; otherwise exactly the first namespace of that name is removed |
| SchemaEdits.DBSchemaEdit.CheckCommitState | src/ganymede/arlut/csd/ganymede/server/DBSchemaEdit.java:988-1009 | the commit check passes iff every working base passes its own schema check |
| SchemaEdits.DBSchemaEdit.Commit | src/ganymede/arlut/csd/ganymede/server/DBSchemaEdit.java:848-981 | a finished session throws; a failing base refuses the commit with the session still open; otherwise the working bases become the store's and the session is over |
| SchemaEdits.DBSchemaEdit.Release | src/ganymede/arlut/csd/ganymede/server/DBSchemaEdit.java:1018-1069 | a finished session throws; otherwise the namespaces go back to those at the start, the working bases are dropped and the session is over |
| PermEntries.Union | src/ganymede/arlut/csd/ganymede/server/DBPermissionManager.java:1444-1447 | union is the least entry holding both sides' rights |
| PermEntries.Intersection | src/ganymede/arlut/csd/ganymede/server/DBPermissionManager.java:1440-1464 | intersection is the greatest entry within both sides |
| Ownership.ReachesUnfold | src/ganymede/arlut/csd/ganymede/server/DBPermissionManager.java:2104-2139 | a persona belongs to a group when it is a direct member or belongs to some group among that group's owners |
| Ownership.UpReaches | src/ganymede/arlut/csd/ganymede/server/DBPermissionManager.java:2135-2138 | membership of an owning group carries down to the group it owns |
| Ownership.ClosedSetBlocks | src/ganymede/arlut/csd/ganymede/server/DBPermissionManager.java:2116-2119 | no chain of owners leading out of a set closed under the owner step, with no member in it, reaches a member |
| PermissionManager.MemberOf | src/ganymede/arlut/csd/ganymede/server/DBPermissionManager.java:2104-2139 | the search of one group only ever adds to the set of groups already seen |
| PermissionManager.AnyOf | src/ganymede/arlut/csd/ganymede/server/DBPermissionManager.java:2170-2187 | isMemberOfAnyOwnerGroups with a seen set answers false for null and only adds to the seen set |
| PermissionManager.AnyList | src/ganymede/arlut/csd/ganymede/server/DBPermissionManager.java:2178-2186 | the loop over the list shares one seen set and only adds to it |
| PermissionManager.IsMemberOfOwnerGroup | src/ganymede/arlut/csd/ganymede/server/DBPermissionManager.java:2087-2114 | a null owner or one that is not an owner group is an IllegalArgumentException |
| PermissionManager.IsMemberOfAnyOwnerGroups | src/ganymede/arlut/csd/ganymede/server/DBPermissionManager.java:2152-2176 | a null list answers false |
| PermissionManager.IsMemberOfAllOwnerGroups | src/ganymede/arlut/csd/ganymede/server/DBPermissionManager.java:2196-2201 | a null list answers false |
| PermissionManager.AllList | src/ganymede/arlut/csd/ganymede/server/DBPermissionManager.java:2203-2211 | an empty list answers true |
| PermissionManager.MemberOfSound | src/ganymede/arlut/csd/ganymede/server/DBPermissionManager.java:2104-2139 | a true answer is backed by a chain of owner groups up to one the persona is listed in |
| PermissionManager.AnyListSound | src/ganymede/arlut/csd/ganymede/server/DBPermissionManager.java:2170-2187 | a true answer for a list is backed by a chain from one of its groups |
| PermissionManager.MemberOfExplores | src/ganymede/arlut/csd/ganymede/server/DBPermissionManager.java:2116-2138 | a false answer leaves the group seen and every newly seen group fully explored |
| PermissionManager.AnyListExplores | src/ganymede/arlut/csd/ganymede/server/DBPermissionManager.java:2178-2186 | a false answer for a list leaves every group of it seen and explored |
| PermissionManager.MemberOfReturns | src/ganymede/arlut/csd/ganymede/server/DBPermissionManager.java:2104-2139 | in a store whose groups all exist and are owner groups, the seen set makes the search end without throwing, even on cycles |
| PermissionManager.AnyListReturns | src/ganymede/arlut/csd/ganymede/server/DBPermissionManager.java:2170-2187 | the same for a list of groups |
| PermissionManager.MembershipIsReachability | src/ganymede/arlut/csd/ganymede/server/DBPermissionManager.java:2087-2139 | in such a store isMemberOfOwnerGroup answers exactly whether the persona belongs to the group or to a group above it |
| PermissionManager.MembershipSound | src/ganymede/arlut/csd/ganymede/server/DBPermissionManager.java:2087-2139 | in any store, a true answer from isMemberOfOwnerGroup is backed by a chain of owner groups |
| PermissionManager.AnyIsExists | src/ganymede/arlut/csd/ganymede/server/DBPermissionManager.java:2152-2187 | isMemberOfAnyOwnerGroups is "some group of the list", despite the seen set shared across the list |
| PermissionManager.AllIsForall | src/ganymede/arlut/csd/ganymede/server/DBPermissionManager.java:2196-2212 | isMemberOfAllOwnerGroups is "every group of the list" |
| PermissionManager.WithoutSupergash | src/ganymede/arlut/csd/ganymede/server/DBPermissionManager.java:1078-1110 | the kept list is refused iff some Invid is not an owner group, and otherwise holds exactly the listed groups other than supergash |
| PermissionManager.FilterOwnerList | src/ganymede/arlut/csd/ganymede/server/DBPermissionManager.java:1078-1110 | the loop builds the list WithoutSupergash describes |
| PermissionManager.Climb | src/ganymede/arlut/csd/ganymede/server/DBPermissionManager.java:1985-2007 | climbing the container chain grants only when the hook grants, stops at a top-level object the hook refused, or throws IntegrityConstraintException or NullPointerException on an embedded object |
| PermissionManager.ContainingObj | src/ganymede/arlut/csd/ganymede/server/DBPermissionManager.java:2039-2042 | getContainingObj gives a top-level object, and a top-level object is its own container |
| PermissionManager.ListUnion | src/ganymede/arlut/csd/ganymede/server/DBPermissionManager.java:2072 | VectorUtils.union holds exactly what either list holds, null counting as empty |
| PermissionManager.Missing | src/ganymede/arlut/csd/ganymede/server/DBPermissionManager.java:2072 | what the union appends is exactly what the second list has and the first lacks |
| PermissionManager.SelfOwned | src/ganymede/arlut/csd/ganymede/server/DBPermissionManager.java:2056-2062 | an owner group's owner list, as personaMatch sees it, holds the group itself and its listed owners |
| PermissionManager.DBPermissionManager.constructor | src/ganymede/arlut/csd/ganymede/server/DBPermissionManager.java:427-514 | a new manager has no default owners and no visibility filter |
| PermissionManager.DBPermissionManager.SetDefaultOwner | src/ganymede/arlut/csd/ganymede/server/DBPermissionManager.java:1066-1126 | null clears the setting; a non-owner-group Invid is refused; otherwise the list without supergash is kept when in supergash mode or when the persona belongs to every group of it, and refused otherwise |
| PermissionManager.DefaultOwnersAreMine | src/ganymede/arlut/csd/ganymede/server/DBPermissionManager.java:1104-1123 | outside supergash mode every default owner kept is a group other than supergash that the persona belongs to |
| PermissionManager.DBPermissionManager.GetNewOwnerInvids | src/ganymede/arlut/csd/ganymede/server/DBPermissionManager.java:1139-1174 | the list setDefaultOwner set; else nothing for supergash; else the first available owner group, if any |
| PermissionManager.DBPermissionManager.FilterQueries | src/ganymede/arlut/csd/ganymede/server/DBPermissionManager.java:1199-1222 | null or empty turns the filter off; otherwise the filter is set in supergash mode or when the persona belongs to every group of it, and refused otherwise |
| PermissionManager.DBPermissionManager.FilterMatch | src/ganymede/arlut/csd/ganymede/server/DBPermissionManager.java:1352-1367 | a null object never matches; without a filter everything matches; otherwise the object's owner list must share a group with the filter |
| PermissionManager.DBPermissionManager.PersonaMatch | src/ganymede/arlut/csd/ganymede/server/DBPermissionManager.java:2023-2076 | a null object is not owned; supergash owns everything; an end user owns only their own user object |
| PermissionManager.DBPermissionManager.OwnersAfterMatch | src/ganymede/arlut/csd/ganymede/server/DBPermissionManager.java:2051-2062 | the owner list personaMatch leaves in the object: an owner group missing from its own list gains itself, and nothing else changes |
| PermissionManager.DBPermissionManager.PersonaMatchRepeatable | src/ganymede/arlut/csd/ganymede/server/DBPermissionManager.java:2051-2062 | the write-back is idempotent and a repeated personaMatch gives the same answer |
| PermissionManager.DBPermissionManager.SelfOwnershipStored | src/ganymede/arlut/csd/ganymede/server/DBPermissionManager.java:2051-2062 | the write-back shows in later answers: a group with no owners passes a filter naming itself only after personaMatch |
| PermissionManager.DBPermissionManager.PersonaMatchSelfOwned | src/ganymede/arlut/csd/ganymede/server/DBPermissionManager.java:2051-2075 | an owner group is owned by a persona that belongs to it or to one of its owners |
| PermissionManager.DBPermissionManager.PersonaOwnedThroughGroups | src/ganymede/arlut/csd/ganymede/server/DBPermissionManager.java:2051-2075 | an admin persona is owned by whoever belongs to one of its owners or of the groups it is in |
| PermissionManager.DBPermissionManager.IsOwnedByUs | src/ganymede/arlut/csd/ganymede/server/DBPermissionManager.java:1964-2015 | a null object is not owned; supergash and an end user's own object are; otherwise the container chain decides, and an admin persona falls back on personaMatch at the top |
| PermissionManager.DBPermissionManager.GetPerm | src/ganymede/arlut/csd/ganymede/server/DBPermissionManager.java:1407-1467 | a null object is a NullPointerException; logged out gives no rights; otherwise view, edit and delete need both field and object rights, create follows the field's right when there is one, and metadata fields (and, when not owned or for an end user, the owner list) are capped to view |
| GanymedeSessions.BelowInClosed | src/server/GanymedeSession.java:894-943 | a set holding the visible seed groups and closed under the step down the owned-objects links holds every group below the seeds |
| GanymedeSessions.OwnerGroupsIn | src/server/GanymedeSession.java:931-939 | the inner loop keeps exactly the OwnerBase Invids of the owned list |
| GanymedeSessions.AddOwnerGroups | src/server/GanymedeSession.java:931-939 | the inner loop appends the owned list's owner groups, in order, to the next level |
| GanymedeSessions.VisitOne | src/server/GanymedeSession.java:898-939 | one group of a level is skipped when seen or invisible, and otherwise taken once with its owned owner groups queued for the next level |
| GanymedeSessions.VisitLevel | src/server/GanymedeSession.java:896-942 | one level takes every unseen visible group of it and builds the next level from what they own |
| GanymedeSessions.GroupsBelow | src/server/GanymedeSession.java:892-946 | the breadth-first search lists each group below the persona's groups exactly once, and a visible group with no owned-objects field is a NullPointerException |
| GanymedeSessions.Ceiling | src/server/GanymedeSession.java:4211-4274 | every visible group of an owner list is ranked below the list's ceiling, the measure on which recursePersonaMatch ends |
| GanymedeSessions.MemberMatch | src/server/GanymedeSession.java:4245-4251 | the member loop finds the persona iff it is listed, and a null persona throws on a non-empty member list (also lines 4330-4336) |
| GanymedeSessions.RecurseMatch | src/server/GanymedeSession.java:4211-4274 | with a persona, recursePersonaMatch never throws |
| GanymedeSessions.RecurseMatchIff | src/server/GanymedeSession.java:4211-4274 | on a closed store without ownership cycles, recursePersonaMatch answers whether the persona belongs to a listed group or to one above it |
| GanymedeSessions.AgreesWithSeenSetSearch | src/server/GanymedeSession.java:4211-4274 | on such a store it agrees with the permission manager's search that keeps a seen set |
| GanymedeSessions.AllMatch | src/server/GanymedeSession.java:4286-4364 | an empty list is true, and a group that cannot be seen makes isMemberAll false |
| GanymedeSessions.AllMatchIff | src/server/GanymedeSession.java:4286-4364 | on a closed store without cycles, isMemberAll is "every listed group is one the persona belongs to, directly or above" |
| GanymedeSessions.UserPart | src/server/GanymedeSession.java:1501-1511 | the user part of a login name is everything before its first ':', or the whole name without one |
| GanymedeSessions.ReturnAddress | src/server/GanymedeSession.java:1493-1519 | mail from the root user carries the configured return address; anyone else's the user part of the login name plus the default mail suffix when set (also lines 1591-1617) |
| GanymedeSessions.GanymedeSession.constructor | src/server/GanymedeSession.java:179 | a new session has no cached owner list, no error, no visibility filter and no wizard (also lines 302, 313, 369-428) |
| GanymedeSessions.GanymedeSession.GetLastError | src/server/GanymedeSession.java:532-550 | the session's own error comes first and is cleared; failing that the DBSession's, which is then cleared |
| GanymedeSessions.GanymedeSession.GetOwnerGroups | src/server/GanymedeSession.java:845-947 | the cached list when set; nothing for an end user or a persona without a group field; every owner group in supergash mode; otherwise the groups below the persona's groups; a computed list is cached |
| GanymedeSessions.GanymedeSession.PersonaMatch | src/server/GanymedeSession.java:4177-4198 | no object, no persona or no owner list means no match; otherwise recursePersonaMatch over the owner list, which never throws |
| GanymedeSessions.GanymedeSession.IsMemberAll | src/server/GanymedeSession.java:4286-4364 | null is false; otherwise the loop computes what AllMatch describes |
| GanymedeSessions.GanymedeSession.FilterMatch | src/server/GanymedeSession.java:4375-4425 | a null object never matches; without a filter everything does; an object without an owner list does not; otherwise some filter group must be one of its owners |
| GanymedeSessions.GanymedeSession.GetPerm | src/server/GanymedeSession.java:3480-3622 | null for a null object; everything in supergash mode; the hook's override when it gives one; otherwise within both the field and the object permission, or the object permission when the field has none |
| GanymedeSessions.GanymedeSession.RegisterWizard | src/server/GanymedeSession.java:4133-4144 | as written the test looks at the wizard passed in, so a new wizard replaces a running one and an active one is refused |
| GanymedeSessions.ActiveWizardDisplaced | src/server/GanymedeSession.java:4133-4144 | a second wizard displaces a running one |
| GanymedeSessions.GanymedeSession.RegisterWizardCorrected | src/server/GanymedeSession.java:4133-4144 | as intended a wizard is refused while the registered one is active, so a running wizard is never displaced |
| GanymedeSessions.GanymedeSession.UnregisterWizard | src/server/GanymedeSession.java:4157-4167 | only the registered wizard can be removed; any other is an IllegalArgumentException |
| DBSessions.DeletedStatus | src/server/DBSession.java:365-385 | deleting a created object drops it, an edited one is marked for deletion, and one already being deleted or dropped is left alone |
| DBSessions.DeleteIdempotent | src/server/DBSession.java:365-385 | deleting twice is deleting once |
| DBSessions.DBSession.constructor | src/server/DBSession.java:69-76 | a new session holds the store, no lock, no transaction and no error |
| DBSessions.DBSession.SetLastError | src/server/DBSession.java:658-666 | the error text is recorded and nothing else changes |
| DBSessions.DBSession.OpenTransaction | src/server/DBSession.java:514-517 | a new, empty edit set replaces any open one |
| DBSessions.DBSession.AbortTransaction | src/server/DBSession.java:627-636 | outside a transaction it throws; otherwise the edit set is released; locks are untouched |
| DBSessions.DBSession.CommitTransaction | src/server/DBSession.java:538-612 | outside a transaction it throws; otherwise a read lock is released, a write lock kept, and the edit set committed and dropped |
| DBSessions.DBSession.Logout | src/server/DBSession.java:78-86 | an open transaction is aborted and the store let go |
| DBSessions.DBSession.ReleaseReadLock | src/server/DBSession.java:434-441 | a read lock is dropped; a write lock or no lock is left alone |
| DBSessions.DBSession.OpenReadLock | src/server/DBSession.java:402-427 | the new read lock, on the bases named or the whole store, replaces whatever the session held; after logout it throws NullPointerException, and a lock on named bases is still assigned |
| DBSessions.DBSession.OpenWriteLock | src/server/DBSession.java:462-501 | refused while a write lock is held; otherwise any read lock is released and the write lock taken; after logout it throws NullPointerException, and a lock on named bases stays with the session |
| DBSessions.WriteLockAfterLogoutSticks | src/server/DBSession.java:462-473 | after logout a write lock on named bases fails to establish yet is kept, so a second request is refused as a second write lock |
| DBSessions.DBSession.ViewDBObject | src/server/DBSession.java:237-283 | as written: the transaction's copy first; nothing for an unknown base; a RuntimeException without a lock or when the lock covers the base (the test is inverted) |
| DBSessions.LockedBaseRefused | src/server/DBSession.java:273-276 | a session holding a read lock on a base cannot view that base's objects, which the corrected lookup returns |
| DBSessions.DBSession.ViewDBObjectCorrected | src/server/DBSession.java:237-283 | as intended: the transaction's copy first, then stored objects of bases the lock covers, and a RuntimeException for a base outside the lock |
| DBSessions.DBSession.CreateDBObject | src/server/DBSession.java:111-128 | outside a transaction it throws; an unknown type is a NullPointerException; otherwise a fresh object with the next id joins the transaction with status CREATING |
| DBSessions.DBSession.EditDBObject | src/server/DBSession.java:176-190 | outside a transaction it throws; otherwise the object is viewed through viewDBObject as written (so its inverted lock test decides), a failed view passes its exception on, a null view is a NullPointerException, a stored object is shadowed into the transaction with status EDITING, and a transaction copy is handed back as is |
| DBSessions.DBSession.EditDBObjectCorrected | src/server/DBSession.java:176-190 | the same check-out, viewing through the intended lock test |
| DBSessions.DBSession.CheckOut | src/server/DBSession.java:187-189 | the check-out after the view: exceptions pass on, null is a NullPointerException, a stored object gets a fresh EDITING shadow |
| DBSessions.DBSession.DeleteEdited | src/server/DBSession.java:365-385 | the object gets the status DeletedStatus describes |
| DBSessions.DBSession.DeleteDBObject | src/server/DBSession.java:322-346 | outside a transaction it throws; otherwise the object is viewed through viewDBObject as written, shadowed when the transaction does not hold it, and marked deleted, with every other transaction entry left alone |
| DBSessions.DBSession.DeleteDBObjectCorrected | src/server/DBSession.java:322-346 | the same deletion, viewing through the intended lock test |
| DBSessions.DBSession.DeleteViewed | src/server/DBSession.java:334-345 | the deletion after the view: exceptions pass on, null is a NullPointerException, and the held or newly shadowed object takes the status DeletedStatus gives |
| TaskCustom.UnitChoicesComplete | src/ganymede/arlut/csd/ganymede/server/taskCustom.java:74-82 | the period unit choice list holds every unit, each exactly once |
| TaskCustom.FieldRequired | src/ganymede/arlut/csd/ganymede/server/taskCustom.java:184-197 | name and class are always required, the period unit exactly when the task runs periodically, and nothing else |
| TaskCustom.MustChoose | src/ganymede/arlut/csd/ganymede/server/taskCustom.java:131-139 | the period unit must be chosen from the list; any other field defers to the default hook |
| TaskCustom.ObtainChoiceList | src/ganymede/arlut/csd/ganymede/server/taskCustom.java:156-164 | the period unit field gets the unit list; any other field the default hook's list |
| TaskCustom.IsIntLimited | src/ganymede/arlut/csd/ganymede/server/taskCustom.java:205-213 | the period count is limited; any other field defers to the default hook |
| TaskCustom.MinInt | src/ganymede/arlut/csd/ganymede/server/taskCustom.java:220-228 | the period count's minimum is zero; any other field defers to the default hook |
| TaskCustom.CanSeeField | src/ganymede/arlut/csd/ganymede/server/taskCustom.java:332-356 | a field of another base is an IllegalArgumentException; on an edited object the period fields show exactly when the task runs periodically; otherwise the field definition's visibility |
| TaskCustom.CommitPhase2 | src/ganymede/arlut/csd/ganymede/server/taskCustom.java:394-440 | dropped: nothing; deleted: unregister the old name; created: register; edited: unregister the old name when renamed, then register; an edited task without an old name is a NullPointerException |
| TaskCustom.CommitRegistersLiveTasks | src/ganymede/arlut/csd/ganymede/server/taskCustom.java:394-440 | a created task, or an edited one with an old name, is registered exactly once |
| TaskCustom.TaskObject.constructor | src/ganymede/arlut/csd/ganymede/server/taskCustom.java:100-106 | the new object holds its Invid and both run-mode checkboxes |
| TaskCustom.TaskObject.FinalizeSetValue | src/ganymede/arlut/csd/ganymede/server/taskCustom.java:272-311 | setting one run-mode checkbox to true clears the other and asks for a rescan of the object; a null checkbox value is a NullPointerException; other fields return null and change nothing |
| TaskCustom.TaskObject.SetCheckbox | src/ganymede/arlut/csd/ganymede/server/taskCustom.java:272-311 | a checkbox change is stored and approved, and the two run modes are never both on afterwards |
| DhcpSubnet.FieldRequired | src/schemas/gasharl/src/arlut/csd/ganymede/gasharl/dhcpSubnetCustom.java:125-141 | name, network number and mask are always required, the guest range exactly when guests are allowed, nothing else |
| DhcpSubnet.CanSeeField | src/schemas/gasharl/src/arlut/csd/ganymede/gasharl/dhcpSubnetCustom.java:162-171 | the guest fields show exactly when guests are allowed; others defer to the default hook |
| DhcpSubnet.CanCloneField | src/schemas/gasharl/src/arlut/csd/ganymede/gasharl/dhcpSubnetCustom.java:183-191 | the network number is never cloned; others defer to the default hook |
| DhcpSubnet.Merge | src/schemas/gasharl/src/arlut/csd/ganymede/gasharl/dhcpSubnetCustom.java:248 | merging with null gives the other result; a merge succeeds exactly when both parts do and carries both rescan requests (also lines 379, 385) |
| DhcpSubnet.StepProblem | src/schemas/gasharl/src/arlut/csd/ganymede/gasharl/dhcpSubnetCustom.java:281-301 | a copy step adds problem text only when its creation or its clone failed |
| DhcpSubnet.ProblemsEmptyIff | src/schemas/gasharl/src/arlut/csd/ganymede/gasharl/dhcpSubnetCustom.java:265-311 | the problem buffer stays empty exactly when no step reports a problem |
| DhcpSubnet.CreatedFromSteps | src/schemas/gasharl/src/arlut/csd/ganymede/gasharl/dhcpSubnetCustom.java:265-301 | every embedded object a copy adds was made by one of its steps, and there are no more of them than originals |
| DhcpSubnet.PrefixStep | src/schemas/gasharl/src/arlut/csd/ganymede/gasharl/dhcpSubnetCustom.java:265-301 | each loop round appends its problem text and its new object |
| DhcpSubnet.CleanCopy | src/schemas/gasharl/src/arlut/csd/ganymede/gasharl/dhcpSubnetCustom.java:265-301 | a copy in which every creation and clone succeeds reports nothing and adds one object per original |
| DhcpSubnet.SubnetObject.constructor | src/schemas/gasharl/src/arlut/csd/ganymede/gasharl/dhcpSubnetCustom.java:92-98 | the new object holds the guest checkbox, range, guest options and options given |
| DhcpSubnet.SubnetObject.FinalizeSetValue | src/schemas/gasharl/src/arlut/csd/ganymede/gasharl/dhcpSubnetCustom.java:364-414 | as written: other fields return null; allowing guests only asks for a rescan; disallowing clears the range and guest options, rolled back when the merged result fails, except that a permissions failure returns before the rollback |
| DhcpSubnet.RangeClearedOnRefusal | src/schemas/gasharl/src/arlut/csd/ganymede/gasharl/dhcpSubnetCustom.java:385-390 | a permissions failure deleting the guest options refuses the change yet leaves the guest range cleared |
| DhcpSubnet.SubnetObject.FinalizeSetValueCorrected | src/schemas/gasharl/src/arlut/csd/ganymede/gasharl/dhcpSubnetCustom.java:364-414 | as intended: every refused change, the permissions failure included, leaves both guest fields as they were |
| DhcpSubnet.SubnetObject.CopyOptions | src/schemas/gasharl/src/arlut/csd/ganymede/gasharl/dhcpSubnetCustom.java:260-303 | the loop's problem buffer is the steps' problem text and the options field grows by exactly the objects created, in order |
| DhcpSubnet.SubnetObject.CopyObjects | src/schemas/gasharl/src/arlut/csd/ganymede/gasharl/dhcpSubnetCustom.java:250-320 | as written: the options are copied when the original has them, and null comes back in every case |
| DhcpSubnet.CloneProblemsLost | src/schemas/gasharl/src/arlut/csd/ganymede/gasharl/dhcpSubnetCustom.java:309-319 | a copy whose embedded-object creation fails with a message returns null, so the message is lost |
| DhcpSubnet.SubnetObject.CopyObjectsCorrected | src/schemas/gasharl/src/arlut/csd/ganymede/gasharl/dhcpSubnetCustom.java:250-320 | as intended: a non-empty problem buffer comes back as a successful result carrying its dialog |
| DhcpSubnet.SubnetObject.CloneFromObject | src/schemas/gasharl/src/arlut/csd/ganymede/gasharl/dhcpSubnetCustom.java:238-249 | the default clone's result is always what comes back, since copyObjects returns null; the options are copied when the default clone succeeds |
| DhcpSubnet.SubnetObject.CloneFromObjectCorrected | src/schemas/gasharl/src/arlut/csd/ganymede/gasharl/dhcpSubnetCustom.java:238-249 | as intended: a failed default clone is returned as it is; otherwise the copy's problems are merged into a successful result as a dialog |
| UserNetgroups.Advance | src/schemas/ganymede.old/loader/source/UserNetgroup.java:28-36 | the next token is the first one left, and at the end of the file the tokenizer stays there |
| UserNetgroups.Bit | src/schemas/ganymede.old/loader/source/UserNetgroup.java:167-184 | a word yields its text; the end of a line or of the file yields the empty string |
| UserNetgroups.SkipToEnd | src/schemas/ganymede.old/loader/source/UserNetgroup.java:78-82 | reading on stops at the first end of line or end of file, never reading more than is left (also lines 128-132) |
| UserNetgroups.Classify | src/schemas/ganymede.old/loader/source/UserNetgroup.java:106-120 | a word without '(' names a sub-netgroup; a word with one is a user entry |
| UserNetgroups.ClassifyUser | src/schemas/ganymede.old/loader/source/UserNetgroup.java:114-120 | a user triple yields exactly the text between its first and its last comma |
| UserNetgroups.ClassifyThrowsIff | src/schemas/ganymede.old/loader/source/UserNetgroup.java:118 | a user entry throws StringIndexOutOfBounds exactly when its first comma is also its last, or it has none |
| UserNetgroups.EntryLoop | src/schemas/ganymede.old/loader/source/UserNetgroup.java:95-122 | the intended entry loop either stops at the end of the line or reports the exception that stopped it |
| UserNetgroups.SkipSystem | src/schemas/ganymede.old/loader/source/UserNetgroup.java:76-90 | skipping system netgroups ends at the end of the file or at a name that does not end in "-s" |
| UserNetgroups.EntryLoopLine | src/schemas/ganymede.old/loader/source/UserNetgroup.java:95-122 | over a well-formed line the intended loop adds the line's users and sub-netgroups in order and stops at its end |
| UserNetgroups.EntryLoopStep | src/schemas/ganymede.old/loader/source/UserNetgroup.java:106-120 | one pass over a well-formed word adds its user or its sub-netgroup |
| UserNetgroups.LoadAtEof | src/schemas/ganymede.old/loader/source/UserNetgroup.java:60-65 | at the end of the file loadLine answers true and reads nothing into the netgroup |
| UserNetgroups.LoadUserLine | src/schemas/ganymede.old/loader/source/UserNetgroup.java:52-135 | a user netgroup line sets the name, adds its entries, leaves the next line unread and answers false |
| UserNetgroups.LoadSkipsSystemLine | src/schemas/ganymede.old/loader/source/UserNetgroup.java:76-90 | a system netgroup line followed by another line loads exactly as the next line alone |
| UserNetgroups.SkipWords | src/schemas/ganymede.old/loader/source/UserNetgroup.java:78-82 | skipping to the end of a line passes over all its words |
| UserNetgroups.LoadSystemLineAtEof | src/schemas/ganymede.old/loader/source/UserNetgroup.java:84-87 | a system netgroup on the last line makes loadLine answer false |
| UserNetgroups.Tokenizer.constructor | src/schemas/ganymede.old/loader/source/UserNetgroup.java:28-36 | a new tokenizer has the whole input ahead of it |
| UserNetgroups.Tokenizer.NextToken | src/schemas/ganymede.old/loader/source/UserNetgroup.java:60 | nextToken moves the tokenizer exactly as the token model's step does (also lines 81, 131, 172) |
| UserNetgroups.Tokenizer.PushBack | src/schemas/ganymede.old/loader/source/UserNetgroup.java:68 | pushBack keeps the current token and puts it back in front of the input |
| UserNetgroups.Netgroup.constructor | src/schemas/ganymede.old/loader/source/UserNetgroup.java:46-50 | a new netgroup has no name and empty user and sub-netgroup lists |
| UserNetgroups.Netgroup.GetNextBit | src/schemas/ganymede.old/loader/source/UserNetgroup.java:167-184 | getNextBit reads one token and returns its text, or "" at an end |
| UserNetgroups.Netgroup.SkipLine | src/schemas/ganymede.old/loader/source/UserNetgroup.java:78-82 | the skipping loop leaves the tokenizer where the model's skip does (also lines 128-132) |
| UserNetgroups.Netgroup.EntryStepAsWritten | src/schemas/ganymede.old/loader/source/UserNetgroup.java:95-122 | as written, one pass classifies the current token and adds it, with the name and the tokenizer unchanged |
| UserNetgroups.EntryLoopNeverAdvances | src/schemas/ganymede.old/loader/source/UserNetgroup.java:95-122 | on a line "name entries..." three passes of the loop as written each add the name again and read nothing, so the loop never ends |
| UserNetgroups.Netgroup.LoadLine | src/schemas/ganymede.old/loader/source/UserNetgroup.java:52-135 | loadLine, with the entry loop reading a token on each pass, leaves the fields, the tokenizer and the answer the model's load computes |
| PermEditor.EntryBits | src/client/perm_editor.java:434-439 | a row's bits are the entry's visible, creatable, editable and deletable flags (also lines 522-528) |
| PermEditor.RowEntry | src/client/perm_editor.java:676-705 | the entry written back carries the row's bits, in the constructor's view, edit, create, delete order |
| PermEditor.EntryRoundTrip | src/client/perm_editor.java:434-439 | reading the written entry back gives the row's bits, and writing the read bits gives the entry (also line 676) |
| PermEditor.BaseBits | src/client/perm_editor.java:428-440 | an object type with no entry in the matrix has all four bits off; otherwise the entry's bits |
| PermEditor.FieldBits | src/client/perm_editor.java:511-529 | a field with no entry inherits its object type's bits; otherwise the entry's bits |
| PermEditor.OkBits | src/client/perm_editor.java:442-476 | no template: everything may change; no template entry: only what is granted; otherwise what the template grants or what is granted (also lines 531-565) |
| PermEditor.OkBitsBounds | src/client/perm_editor.java:446-455 | granted bits may always be reduced, and with a template nothing beyond the template's and the granted bits may be set (also lines 536-544) |
| PermEditor.FieldRowsMembers | src/client/perm_editor.java:489-577 | exactly the fields that are not built in get a row, enabled exactly when the object type is visible, with its bits within its OK bits |
| PermEditor.BuildFieldRows | src/client/perm_editor.java:495-577 | the field loop yields the rows the field-row description lists, in schema order |
| PermEditor.Set | src/client/perm_editor.java:1102-1179 | one column's bit takes the new value and every other column keeps its own |
| PermEditor.CellEditable | src/client/perm_editor.java:1055-1100 | the tree column is editable; otherwise only in an editable window, on an enabled row, with the OK bit set, on a visible object type row unless it is the visible bit, and the deletable bit only on object type rows |
| PermEditor.FieldDeleteLocked | src/client/perm_editor.java:1055-1100 | a field row's deletable bit is never editable |
| PermEditor.RowAfter | src/client/perm_editor.java:1102-1179 | the row takes the new bit and is marked changed; hiding it also clears each other bit it may change; the tree column changes nothing |
| PermEditor.ChildAfter | src/client/perm_editor.java:1181-1231 | on a child whose OK bit is set: visible sets the bit and the enabled flag, a hidden child loses all its bits; other columns set their bit; a child that may not change is left alone |
| PermEditor.CascadeCols | src/client/perm_editor.java:1102-1179 | only object type rows cascade, never the deletable or tree column, and the visible column only when visible was set |
| PermEditor.HidingBaseClearsChildren | src/client/perm_editor.java:1102-1231 | hiding an object type hides, disables and clears each field row that may be made visible |
| PermEditor.ClearedStaysCleared | src/client/perm_editor.java:1181-1231 | the creatable and editable cascades with false leave a cleared, disabled row as it is |
| PermEditor.ShowingBaseShowsChildren | src/client/perm_editor.java:1102-1231 | showing an object type makes each field row that may be visible visible, enabled and changed |
| PermEditor.ShownStaysShown | src/client/perm_editor.java:1181-1231 | the creatable and editable cascades keep a row visible, enabled and changed |
| PermEditor.CascadeAppend | src/client/perm_editor.java:1102-1179 | cascading one more column is one more child update |
| PermEditor.PermRow.constructor | src/client/perm_editor.java:863-886 | a new row holds its reference, bits, OK bits and enabled flag, and is unchanged |
| PermEditor.PermRow.SetState | src/client/perm_editor.java:907-983 | the row's bits, enabled flag and changed mark become the ones given |
| PermEditor.PermEditorModel.constructor | src/client/perm_editor.java:1003-1008 | the model records whether the window is view-only |
| PermEditor.PermEditorModel.SetBaseChildren | src/client/perm_editor.java:1181-1231 | every child row ends in the state the child update gives |
| PermEditor.PermEditorModel.UpdateRow | src/client/perm_editor.java:1102-1179 | the row ends in the state the row update gives |
| PermEditor.PermEditorModel.CascadeToChildren | src/client/perm_editor.java:1102-1179 | each child ends in the state the cascade of the updated row's columns gives |
| PermEditor.PermEditorModel.SetValueAt | src/client/perm_editor.java:1102-1179 | the row takes its own update and every child row the cascade |
| PermEditor.Call | src/client/perm_editor.java:664-708 | an object type row calls setPerm for its base, a field row for its base and field, each with the row's entry |
| PermEditor.WriteBackChangedOnly | src/client/perm_editor.java:642-712 | exactly the changed rows are written back, each as its own entry |
| PermEditor.PressOk | src/client/perm_editor.java:642-712 | pressing OK makes the write-back calls in tree order and reports a change exactly when some row changed |
| DhcpGroupEntry.FieldRequired | src/schemas/gasharl/src/arlut/csd/ganymede/gasharl/dhcpGroupEntryCustom.java:135-146 | exactly the label, the type and the value are required |
| DhcpGroupEntry.CanSeeField | src/schemas/gasharl/src/arlut/csd/ganymede/gasharl/dhcpGroupEntryCustom.java:345-355 | the hidden label is never shown; other fields defer to the default hook |
| DhcpGroupEntry.ObtainChoicesKey | src/schemas/gasharl/src/arlut/csd/ganymede/gasharl/dhcpGroupEntryCustom.java:160-173 | the type field has no caching key; other fields defer to the default hook |
| DhcpGroupEntry.Siblings | src/schemas/gasharl/src/arlut/csd/ganymede/gasharl/dhcpGroupEntryCustom.java:236-245 | the siblings are the parent's members without this entry's first occurrence; a parent with no member list is a NullPointerException |
| DhcpGroupEntry.SiblingsAreOthers | src/schemas/gasharl/src/arlut/csd/ganymede/gasharl/dhcpGroupEntryCustom.java:236-245 | with distinct members, the siblings are exactly the members other than this entry |
| DhcpGroupEntry.TypesOf | src/schemas/gasharl/src/arlut/csd/ganymede/gasharl/dhcpGroupEntryCustom.java:207-216 | collecting the siblings' types throws NullPointerException exactly when some sibling cannot be found |
| DhcpGroupEntry.TypesOfMembers | src/schemas/gasharl/src/arlut/csd/ganymede/gasharl/dhcpGroupEntryCustom.java:207-216 | a type is skipped exactly when some sibling has it |
| DhcpGroupEntry.Rows | src/schemas/gasharl/src/arlut/csd/ganymede/gasharl/dhcpGroupEntryCustom.java:224-231 | one row per acceptable type, in order, each with that type's label |
| DhcpGroupEntry.PrefixedTwice | src/schemas/gasharl/src/arlut/csd/ganymede/gasharl/dhcpGroupEntryCustom.java:209-216 | prefixing the collected types twice is prefixing once with both |
| DhcpGroupEntry.ObtainTypeChoices | src/schemas/gasharl/src/arlut/csd/ganymede/gasharl/dhcpGroupEntryCustom.java:187-234 | the choice loops compute the type choice list: the suggested types no sibling uses, as labelled rows, or the NullPointerException met on the way |
| DhcpGroupEntry.ChoicesSkipSiblingTypes | src/schemas/gasharl/src/arlut/csd/ganymede/gasharl/dhcpGroupEntryCustom.java:187-234 | a type is offered exactly when it is suggested and no other member of the group has it |
| DhcpGroupEntry.EntryLabel | src/schemas/gasharl/src/arlut/csd/ganymede/gasharl/dhcpGroupEntryCustom.java:270-273 | the hidden label is the parent's label, a colon, then the type's label, with null written as "null" |
| DhcpGroupEntry.DisplayLabel | src/schemas/gasharl/src/arlut/csd/ganymede/gasharl/dhcpGroupEntryCustom.java:289-323 | null for no object or one of another type; otherwise "type:value"; a failing type string gives "<?:?>" |
| DhcpGroupEntry.GroupEntry.constructor | src/schemas/gasharl/src/arlut/csd/ganymede/gasharl/dhcpGroupEntryCustom.java:262-274 | the entry holds its commit status and hidden label |
| DhcpGroupEntry.GroupEntry.PreCommitHook | src/schemas/gasharl/src/arlut/csd/ganymede/gasharl/dhcpGroupEntryCustom.java:262-274 | nothing happens to an entry being deleted or dropped; otherwise the reply of setFieldValueLocal is returned, the hidden label becomes the joined label when the setter accepts it, and a refusal keeps the old label and blocks the commit |
| PasswordAging.Classify | ddroid/src/schemas/gasharl/src/arlut/csd/ddroid/gasharl/PasswordAgingTask.java:264-381 | a user is inactivated exactly when the password time is more than three days past, and no action is taken at the exact current time |
| PasswordAging.WindowsDisjoint | ddroid/src/schemas/gasharl/src/arlut/csd/ddroid/gasharl/PasswordAgingTask.java:264-360 | no password time lies in two warning windows, so the order of the tests cannot matter |
| PasswordAging.ClassifyByWindows | ddroid/src/schemas/gasharl/src/arlut/csd/ddroid/gasharl/PasswordAgingTask.java:264-381 | a time inside a window gets that window's warning; a time gets nothing exactly when it lies in no window and is not three days past |
| PasswordAging.ClassifyIff | ddroid/src/schemas/gasharl/src/arlut/csd/ddroid/gasharl/PasswordAgingTask.java:264-360 | upcoming warnings go exactly to times 6-7, 13-14 or 27-28 days ahead, the real-soon warning to the next day, overtime warnings to the last three days |
| PasswordAging.BoundariesGetNothing | ddroid/src/schemas/gasharl/src/arlut/csd/ddroid/gasharl/PasswordAgingTask.java:270-367 | a time a whole number of days from now, no more than three days past, gets nothing, since every window is open at both ends |
| PasswordAging.Plan | ddroid/src/schemas/gasharl/src/arlut/csd/ddroid/gasharl/PasswordAgingTask.java:226-382 | no more actions than users |
| PasswordAging.PlanMembers | ddroid/src/schemas/gasharl/src/arlut/csd/ddroid/gasharl/PasswordAgingTask.java:226-382 | an action goes out for a user exactly when the user is active, has a password time and that time is due |
| PasswordAging.PlanOncePerUser | ddroid/src/schemas/gasharl/src/arlut/csd/ddroid/gasharl/PasswordAgingTask.java:226-382 | users with distinct Invids each receive at most one action |
| PasswordAging.HandlePasswords | ddroid/src/schemas/gasharl/src/arlut/csd/ddroid/gasharl/PasswordAgingTask.java:203-383 | the loop over the query's results issues exactly the planned actions, in order, skipping inactivated users and users without a time |

## Left out

- Concurrency is not modelled.
  - This covers the read, write and dump locks, `synchronized`, `wait`, `notifyAll` and thread interruption.
  - A DBSession lock is established as soon as it is asked for.
  - The InterruptedException of the password aging loop is not modelled.
- File and stream I/O and the journal are not modelled, except for the records of the date and password fields.
  - The XML forms of the fields are out.
  - The StreamTokenizer of the netgroup loader is modelled at the level of its tokens.
- RMI, mail delivery, client dialogs and the Swing parts of the permission editor and row table are not modelled. Menus, painting and rendering are out too.
- Only their answers are modelled for foreign calls. These are crypt and md5crypt hashing (hashes are opaque strings), regular-expression matching, reflection, the scheduler, and object creation in a base.
- Floating point is out. The Double branch of the row-table comparison is not modelled, and a column value is an integer, a date or a text.
- Locale-dependent case folding is out. `toLowerCase` and `equalsIgnoreCase` fold ASCII letters only.
- Calendar arithmetic is out. A day is 86,400,000 ms, so daylight-saving transitions are ignored.
- Unseen collaborators are abstract values or inputs: PermEntry, PermMatrix, VectorUtils, Invid, DBNameSpace, DBEditObject hooks and ReturnVal. PermEntry.java, PermMatrix.java and ReturnVal.java are not part of this model.
- SchemaConstants is not part of this model. Field and base ids are datatype tags, and only their distinctness matters.
- DBField.Field.DeleteElement and the other DBField editing methods assume that unmarking a namespace value succeeds. The "bad unmark" RuntimeException path is not modelled.
- RowTable.RowTable.Sort, RowTable.RowTable.ResortBy and RowTable.RowTable.Resort require the sorted columns to be consistent. The rows with data must hold one kind of data, and when some rows have data, the empty cells must hold null text and the filled cells text. Empty cells with null text beside dated or integer cells are covered: they sort first going forward. Two kinds of data in one column make the Java comparison throw a ClassCastException at points that depend on TimSort's internal order. An empty cell with text beside filled cells, or a filled cell with null text, makes the comparison intransitive, and then Collections.sort leaves an unspecified order or throws IllegalArgumentException.
- DBSessions.DBSession.OpenReadLock follows DBWriteLock for the lock constructors, because DBReadLock.java is not part of this model. The subset constructor is taken to only store its arguments, and the whole-store constructor to read the store.
- GHashtable.GHashtable.Put, Get, ContainsKey and Remove take keys and values that are never null. The NullPointerException Hashtable throws on a null key or value is not modelled.
- DateFields.Encode and DateFields.DateField.Emit take date vectors without null elements. The NullPointerException emit throws on a null element is not modelled.
- DBQueryHandler.CompareIPs, IpBeginsWith, IpEndsWith and NoPad take address arrays without null elements. The NullPointerException from unboxing a null Byte is not modelled.
- PermissionManager.DBPermissionManager.SetDefaultOwner takes lists without null elements. The NullPointerException a null element raises in the ownership checks is not modelled.
- RowTable.CompareRows reads a column beyond a row's cells as a null cell. Java's Vector.get throws an ArrayIndexOutOfBoundsException there, which the comparison does not catch. That throw is not modelled, and the same holds for the sorts built on CompareRows.
- SchemaEdits.DBSchemaEdit.CreateNewBaseInRange requires some short id to be free when searching the high range. Otherwise the Java loop, whose bound `id <= Short.MAX_VALUE` always holds, never ends.
- SchemaEdits.DBSchemaEdit.FirstHighId has the same precondition, for the same reason.
- PermissionManager.DBPermissionManager.PersonaMatch returns the answer only. The owner group's self-ownership that the call writes into the group is OwnersAfterMatch, and it is not written back into the object map that IsOwnedByUs, FilterMatch and later calls read. That the list is the field's own vector follows DBField.getValuesLocal; DBObject.getFieldValuesLocal is not part of this model.
- PermissionManager.DBPermissionManager.IsOwnedByUs requires the container links to be ranked (acyclic). The Java loop climbs a cycle forever.
- PermissionManager.Climb has the same precondition, for the same reason.
- GanymedeSessions.RecurseMatch requires the owner lists to be ranked (acyclic), because recursePersonaMatch keeps no seen set and recurses forever on a cycle.
- GanymedeSessions.GanymedeSession.IsMemberAll has the same precondition, for the same reason.
- UserNetgroups.Netgroup.LoadLine reads a token on each pass of the entry loop. The loop as written never ends (see Findings), so the corrected loop is the one the loader's lemmas describe.
- DateFields.DateField.NewVector builds the field as intended. The constructor as written always throws, and is modelled separately (see Findings).
- The DBObjectBase reader/writer/dumper lists, `emit`/`receive`/`emitXML`, `createHook` and object creation are not modelled.
- The ganymede-tree `DBObjectBase.setName` is not part of this model. The schema editor's new bases keep the chosen name as it is.
- GanymedeSession's query dispatch, `dump`, `view_db_object`, `edit_db_object` and `updatePerms` timestamp refresh are not modelled, under the RMI and server plumbing exclusion.
- The ACE-evaluation logic that the SDDL constants would serve does not exist in the code, so only the constants are modelled.

## Findings

| source | as written | input that shows it | evidently intended | confidence | as-written member | corrected member |
|---|---|---|---|---|---|---|
| src/server/DBObjectBase.java:121-141 | The custom-field comparator's second test repeats the first with the operands exchanged, so it answers -1 when a is below b and 0 otherwise. | a = 0, b = 1: compare(0, 1) is -1 but compare(1, 0) is 0, not 1 | -1, 0 or 1 by the display order, an antisymmetric total preorder | not executed | ObjectBases.DisplayCompareNotAntisymmetric | ObjectBases.DisplayOrderComparePreorder |
| src/server/DBObjectBase.java:2753-2761 | removeField drops a field from customFields only when its id is below FinalSystemField, which no custom field's id is. | removing custom field 300 leaves 300 in the display order | a removed custom field leaves the display order too | not executed | ObjectBases.DBObjectBase.RemoveField | ObjectBases.DBObjectBase.RemoveFieldCorrected |
| src/server/DBObjectBase.java:1774-1775 | moveFieldBefore removes the field, then looks up the next field's index; when the next field is the field itself, the index is -1 and insertElementAt throws. | moveFieldBefore(f, f) for any field f in the display order | moving a field before itself leaves the order as it is | not executed | ObjectBases.MovedBeforeSelf | ObjectBases.DBObjectBase.MoveFieldBeforeCorrected |
| src/ganymede/arlut/csd/ganymede/server/DBField.java:1947-1958 | addElements checks the submitted values only against the field's current values, not against each other. | submitting [a, a] to an empty vector field whose hooks approve a | a submission naming a value twice is refused, keeping the vector free of duplicates | not executed | DBField.InternalDuplicatesAdmitted | DBField.Field.AddElementsChecked |
| src/server/DateDBField.java:138-141 | The vector constructor clones the field's own value, which is still null, instead of the values passed in. | new DateDBField(owner, [d], def) on a vector definition: a NullPointerException | the field holds a copy of the dates passed in | not executed | DateFields.VectorConstructorThrows | DateFields.VectorConstructed |
| src/server/GanymedeSession.java:4133-4144 | registerWizard tests whether the wizard passed in is active, because the parameter shadows the field. | with an active wizard registered, registering a second, inactive wizard succeeds and displaces it | a new wizard is refused while the registered one is active | not executed | GanymedeSessions.ActiveWizardDisplaced | GanymedeSessions.GanymedeSession.RegisterWizardCorrected |
| src/server/DBSession.java:273-276 | viewDBObject throws when the session holds no lock or when its lock covers the base; the second test is inverted. editDBObject and deleteDBObject view through it and inherit the inversion (EditDBObject, DeleteDBObject; intended: EditDBObjectCorrected, DeleteDBObjectCorrected). | a session with a read lock on base 1 viewing object 1:7 gets a RuntimeException | an object of a base the lock covers is returned, and a base outside the lock is refused | not executed | DBSessions.LockedBaseRefused | DBSessions.DBSession.ViewDBObjectCorrected |
| src/schemas/gasharl/src/arlut/csd/ganymede/gasharl/dhcpSubnetCustom.java:309-319 | copyObjects builds a result carrying the collected clone problems but returns null in every case, so cloneFromObject only ever returns the default clone's result (CloneFromObject; intended: CloneFromObjectCorrected). | cloning a subnet whose embedded object cannot be created ("no room"): the message is lost | a non-empty problem buffer is returned as a successful result with its dialog | not executed | DhcpSubnet.CloneProblemsLost | DhcpSubnet.SubnetObject.CopyObjectsCorrected |
| src/schemas/gasharl/src/arlut/csd/ganymede/gasharl/dhcpSubnetCustom.java:385-402 | On a permissions failure deleting the guest options, finalizeSetValue returns the error from inside the try. The merged result is still a success, so the finally block pops the checkpoint instead of rolling back, and the cleared guest range stays cleared. | clearing the checkbox on a subnet with a guest range, when deleting the guest options is refused | a refused change leaves both guest fields as they were | not executed | DhcpSubnet.RangeClearedOnRefusal | DhcpSubnet.SubnetObject.FinalizeSetValueCorrected |
| src/schemas/ganymede.old/loader/source/UserNetgroup.java:95-122 | The entry loop never reads another token, so it classifies the netgroup's own name again and again and never ends. | the line "staff (host,alice,dom)": each pass adds "staff" as a sub-netgroup | each pass reads the next token, and the loop stops at the end of the line | not executed | UserNetgroups.EntryLoopNeverAdvances | UserNetgroups.Netgroup.LoadLine |
