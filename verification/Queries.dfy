/** Range query, delete and update over a table of rows: lib/matu.h. */
module Queries {
  import opened Slots
  import opened Blocks
  import opened Trees
  import opened BTrees
  import opened Iterators
  import opened Records
  import opened Conditions
  import Pool
  import Forms
  import Runs

  // Keys along the physical sequence

  ghost predicate Increasing(s: seq<Slot<int>>) {
    forall i, j :: 0 <= i < j < |s| ==> s[i].key < s[j].key
  }

  /** Place `q` is live, and no live key is between those of place `i - 1` and place `q`. */
  lemma NextKeys(s: seq<Slot<int>>, i: int, q: int)
    requires Increasing(s) && 0 <= i && FirstLive(s, i, q)
    ensures s[q].key in LiveKeys(s)
    ensures i > 0 ==> s[i - 1].key < s[q].key
    ensures forall k :: k in LiveKeys(s) ==> (i > 0 && k <= s[i - 1].key) || k >= s[q].key
  {
    forall k | k in LiveKeys(s) ensures (i > 0 && k <= s[i - 1].key) || k >= s[q].key {
      var j :| 0 <= j < |s| && s[j].live && s[j].key == k;
      if j < i - 1 || j > q {
        assert s[j].key < s[if j > q then j else i - 1].key || j > q;
      }
    }
  }

  lemma EndKeys(s: seq<Slot<int>>, i: int)
    requires Increasing(s) && 0 <= i <= |s| && NoneLive(s, i, |s|)
    ensures forall k :: k in LiveKeys(s) ==> i > 0 && k <= s[i - 1].key
  {
    forall k | k in LiveKeys(s) ensures i > 0 && k <= s[i - 1].key {
      var j :| 0 <= j < |s| && s[j].live && s[j].key == k;
    }
  }

  function From(a: int): int -> int {
    (k: int) => k - a
  }

  /** A lookup of the key `a` or the next one. */
  lemma FromKeys(s: seq<Slot<int>>, a: int, q: int)
    requires Increasing(s)
    ensures Found(KEY_OR_NEXT, From(a), s, q) ==>
      s[q].key in LiveKeys(s) && s[q].key >= a && forall k :: k in LiveKeys(s) && k >= a ==> k >= s[q].key
    ensures NotFound(KEY_OR_NEXT, From(a), s) ==> forall k :: k in LiveKeys(s) ==> k < a
  {
    if Found(KEY_OR_NEXT, From(a), s, q) {
      forall k | k in LiveKeys(s) && k >= a ensures k >= s[q].key {
        var j :| 0 <= j < |s| && s[j].live && s[j].key == k;
        assert Wanted(KEY_OR_NEXT, From(a)(s[j].key));
      }
    }
    if NotFound(KEY_OR_NEXT, From(a), s) {
      forall k | k in LiveKeys(s) ensures k < a {
        var j :| 0 <= j < |s| && s[j].live && s[j].key == k;
        assert !Wanted(KEY_OR_NEXT, From(a)(s[j].key));
      }
    }
  }

  lemma FromMonotone(s: seq<Slot<int>>, a: int)
    requires Increasing(s)
    ensures Monotone(From(a), s)
  {
  }

  // Tables

  /** The value stored under `k` is an encoded row with that id. */
  ghost predicate RowOK(k: int, v: seq<Byte>) {
    exists r: RowData :: Encoded(r) == v && r.id == k
  }

  lemma RowReads(k: int, v: seq<Byte>, b: seq<Byte>)
    requires RowOK(k, v) && v <= b
    ensures |v| >= 13 && Decoded(b) == Decoded(v) && Decoded(v).id == k
  {
    var r: RowData :| Encoded(r) == v && r.id == k;
    hide Encoded, Decoded, Plain;
    RoundTrip(r, b);
    RoundTrip(r, v);
    SameStrings(r, v, b);
  }

  /** What decode reads of an encoded row does not depend on what follows it. */
  lemma SameStrings(r: RowData, v: seq<Byte>, b: seq<Byte>)
    requires Encoded(r) <= v <= b
    ensures Decoded(v) == Decoded(b)
  {
    hide Head, Encoded, Text, ReadU16, ReadInt, CString;
    HeadReads(r, v) by { TextPlaces(r, v); }
    HeadReads(r, b) by { TextPlaces(r, b); }
    SameTexts(r, v, b);
  }

  lemma SameTexts(r: RowData, v: seq<Byte>, b: seq<Byte>)
    requires Encoded(r) <= v <= b
    ensures var n, m := U16(|r.name|), U16(|r.number|);
      CString(v, 13) == CString(b, 13) && CString(v, 14 + n) == CString(b, 14 + n) &&
        CString(v, 15 + n + m) == CString(b, 15 + n + m)
  {
    hide Head, Encoded, Text, CString;
    Lengths(r);
    NulPlaces(r, v);
    SameString(v, b, 13, |Text(r.name)|);
    SameString(v, b, 14 + |Text(r.name)|, |Text(r.number)|);
    SameString(v, b, 15 + |Text(r.name)| + |Text(r.number)|, |Text(r.email)|);
  }

  lemma NulPlaces(r: RowData, v: seq<Byte>)
    requires Encoded(r) <= v
    ensures var n, m, k := |Text(r.name)|, |Text(r.number)|, |Text(r.email)|;
      15 + n + m + k < |v| && v[13 + n] == v[14 + n + m] == v[15 + n + m + k] == 0
  {
    TextPlaces(r, v);
  }

  lemma {:induction false} SameString(v: seq<Byte>, b: seq<Byte>, at: nat, n: nat)
    requires v <= b && at + n < |v| && v[at + n] == 0
    ensures CString(v, at) == CString(b, at)
    decreases n
  {
    if v[at] != 0 {
      SameString(v, b, at + 1, n - 1);
    }
  }

  /** The keys are ids and the values encoded rows. */
  ghost predicate HoldsRows(b: BTree<int>)
    reads b`tree, b.data`stored
  {
    && b.Readable() && !b.isConstValueSize
    && (forall x, y :: b.cmp(x, y) == x - y)
    && forall k :: k in b.Contents() ==> RowOK(k, b.Contents()[k])
  }

  /** A tree whose keys are ids and whose values are encoded rows. */
  ghost predicate IsTable(b: BTree<int>)
    reads b, b.pool, b.pool.objs, b.data, b.data.objs
  {
    b.Valid() && HoldsRows(b)
  }

  ghost function RowsOf(m: map<int, seq<Byte>>): map<int, RowData> {
    map k | k in m && |m[k]| >= 13 :: Decoded(m[k])
  }

  /** The rows of the table by id. */
  ghost function Table(b: BTree<int>): map<int, RowData>
    reads b`tree, b.data`stored
  {
    if b.Readable() then RowsOf(b.Contents()) else map[]
  }

  /** The iterator is on an entry of a table, live or removed. */
  ghost predicate OnEntry(it: Iterator<int>)
    reads it, it.btree, it.btree.pool, it.btree.pool.objs, it.btree.data, it.btree.data.objs
  {
    it.Ready() && it.On() && it.Fetched() && IsTable(it.btree) && 0 <= it.Pos() < |it.Places()|
  }

  /** The iterator is on a row. */
  ghost predicate OnRow(it: Iterator<int>)
    reads it, it.btree, it.btree.pool, it.btree.pool.objs, it.btree.data, it.btree.data.objs
  {
    OnEntry(it) && it.Places()[it.Pos()].live
  }

  /** The id of the entry the iterator is on. */
  ghost function IdAt(it: Iterator<int>): int
    reads it, it.btree`tree
  {
    if 0 <= it.Pos() < |it.Places()| then it.Places()[it.Pos()].key else 0
  }

  lemma TableKeys(b: BTree<int>)
    requires IsTable(b)
    ensures Table(b).Keys == LiveKeys(Phys(b.tree)) && Increasing(Phys(b.tree))
  {
    hide BTree.Valid, BTree.Contents, RowOK, Decoded, Phys, LiveKeys;
    b.ContentsKeys();
    SortedKeys(b.cmp, Phys(b.tree));
    forall k | k in b.Contents() ensures |b.Contents()[k]| >= 13 {
      RowReads(k, b.Contents()[k], b.Contents()[k]);
    }
  }

  lemma SortedKeys(cmp: (int, int) -> int, s: seq<Slot<int>>)
    requires Sorted(cmp, s) && forall x, y :: cmp(x, y) == x - y
    ensures Increasing(s)
  {
  }

  /** decode of the bytes the iterator points to. */
  method RowAt(it: Iterator<int>) returns (d: RowData)
    requires OnRow(it)
    ensures d.id == IdAt(it) && d.id in Table(it.btree) && Table(it.btree)[d.id] == d
  {
    hide BTree.Valid, BTree.Contents, BTree.ValueOf, BTree.PayloadOK, Iterator.Ready, Iterator.On, Iterator.Pos,
      RowOK, Decoded, Phys;
    ghost var x := it.Places()[it.Pos()];
    it.btree.EntryInContents(it.Pos());
    var v := it.GetValue();
    RowReads(x.key, it.btree.Contents()[x.key], v.value);
    d := Decoded(v.value);
  }

  // Scans

  /** The iterator is on the first row from `lo` on. */
  ghost predicate OnFirst(it: Iterator<int>, lo: int)
    reads it, it.btree, it.btree.pool, it.btree.pool.objs, it.btree.data, it.btree.data.objs
  {
    OnRow(it) && IdAt(it) in Table(it.btree) && IdAt(it) >= lo && forall k :: k in Table(it.btree) && k >= lo ==>
      k >= IdAt(it)
  }

  /** Iterator::next on a table: to the row with the next id. */
  method NextRow(it: Iterator<int>) returns (r: int)
    requires OnEntry(it)
    modifies it, it.btree.pool`marked
    ensures it.btree == old(it.btree) && IsTable(it.btree) && it.Ready() && it.On() && (r == 0 || r == 1)
    ensures r == 1 ==> OnFirst(it, old(IdAt(it)) + 1)
    ensures r == 1 ==> it.Pos() > old(it.Pos())
    ensures r == 0 ==> forall k :: k in Table(it.btree) ==> k <= old(IdAt(it))
  {
    hide BTree.Valid, BTree.Contents, Iterator.Ready, Iterator.On, Iterator.Pos, RowOK, Decoded, Phys,
      BTree.Readable, NoneLive, Table, LiveKeys;
    ghost var i := it.Pos();
    it.Apart();
    r := it.Next();
    it.Apart();
    TableKeys(it.btree);
    if r == 1 {
      NextKeys(it.Places(), i + 1, it.Pos());
    } else {
      EndKeys(it.Places(), i + 1);
    }
  }

  /** Iterator::first on a table. */
  method FirstRow(it: Iterator<int>) returns (r: int)
    requires it.Ready() && IsTable(it.btree)
    modifies it, it.btree.pool`marked
    ensures it.btree == old(it.btree) && IsTable(it.btree) && it.Ready() && (r == 0 || r == 1)
    ensures r == 1 ==> OnRow(it) && IdAt(it) in Table(it.btree) && forall k :: k in Table(it.btree) ==> k >= IdAt(it)
    ensures r == 0 ==> Table(it.btree) == map[]
  {
    hide BTree.Valid, BTree.Contents, Iterator.Ready, Iterator.On, Iterator.Pos, RowOK, Decoded, Phys,
      BTree.Readable, NoneLive, Table, LiveKeys;
    it.Apart();
    r := it.First();
    it.Apart();
    TableKeys(it.btree);
    if r == 1 {
      NextKeys(it.Places(), 0, it.Pos());
    } else {
      EndKeys(it.Places(), 0);
      assert Table(it.btree).Keys == {} by {
        assert forall k :: k in LiveKeys(it.Places()) ==> false;
      }
    }
  }

  /** Iterator::locate with KEY_OR_NEXT on a table. */
  method LocateRow(it: Iterator<int>, a: int) returns (r: int)
    requires it.Ready() && IsTable(it.btree)
    modifies it, it.btree.pool`marked
    ensures it.btree == old(it.btree) && IsTable(it.btree) && it.Ready() && (r == 0 || r == 1)
    ensures r == 1 ==> OnFirst(it, a)
    ensures r == 0 ==> forall k :: k in Table(it.btree) ==> k < a
  {
    hide BTree.Valid, BTree.Contents, Iterator.Ready, Iterator.On, Iterator.Pos, RowOK, Decoded, Phys,
      BTree.Readable, NotFound, Table, LiveKeys;
    it.Apart();
    TableKeys(it.btree);
    FromMonotone(it.Places(), a);
    r := it.Locate(From(a), KEY_OR_NEXT);
    it.Apart();
    FromKeys(it.Places(), a, it.Pos());
  }

  // Query

  ghost predicate Ascending(rows: seq<RowData>) {
    forall i, j :: 0 <= i < j < |rows| ==> rows[i].id < rows[j].id
  }

  ghost predicate InTable(m: map<int, RowData>, r: RowData) {
    r.id in m && m[r.id] == r
  }

  /** The rows of the table with an id from `lo` on and below `until`, by ascending id. */
  ghost predicate IsRange(rows: seq<RowData>, m: map<int, RowData>, lo: int, until: Option<int>) {
    && Ascending(rows)
    && forall r: RowData :: r in rows <==> InTable(m, r) && lo <= r.id && (until.Some? ==> r.id < until.value)
  }

  lemma RangeNext(rows: seq<RowData>, m: map<int, RowData>, lo: int, d: RowData, next: Option<int>)
    requires IsRange(rows, m, lo, Some(d.id)) && InTable(m, d) && lo <= d.id
    requires forall k :: k in m && k > d.id ==> next.Some? && k >= next.value
    requires next.Some? ==> next.value > d.id
    ensures IsRange(rows + [d], m, lo, next)
  {
    var rows' := rows + [d];
    assert forall i :: 0 <= i < |rows| ==> rows[i] in rows;
    forall r: RowData ensures r in rows' <==> InTable(m, r) && lo <= r.id && (next.Some? ==> r.id < next.value) {
      assert r in rows' <==> r in rows || r == d;
    }
  }

  /** One of the scans of query: the rows from the current one on, up to `bound`. */
  method Collect(it: Iterator<int>, bound: Option<int>) returns (rows: seq<RowData>)
    requires OnRow(it) && IdAt(it) in Table(it.btree)
    modifies it, it.btree.pool`marked
    ensures it.btree == old(it.btree) && IsTable(it.btree) && it.Ready()
    ensures IsRange(rows, Table(it.btree), old(IdAt(it)), if bound.Some? then Some(bound.value + 1) else None)
  {
    hide BTree.Valid, BTree.Contents, Iterator.Ready, Iterator.On, Iterator.Pos, RowOK, Decoded, Phys,
      BTree.Readable, IsTable, Iterator.Places;
    ghost var m, lo := Table(it.btree), IdAt(it);
    it.Apart();
    rows := [];
    var more := true;
    while more
      invariant it.btree == old(it.btree) && IsTable(it.btree) && it.Ready() && Table(it.btree) == m
      invariant more ==> OnRow(it) && lo <= IdAt(it) && IdAt(it) in m && IsRange(rows, m, lo, Some(IdAt(it)))
      invariant !more ==> IsRange(rows, m, lo, None)
      invariant bound.Some? ==> forall r :: r in rows ==> r.id <= bound.value
      decreases more, |it.Places()| - it.Pos()
    {
      it.Apart();
      var d := RowAt(it);
      if bound.Some? && d.id > bound.value {
        break;
      }
      assert d.id == IdAt(it);
      var r := NextRow(it);
      assert Table(it.btree) == m;
      RangeNext(rows, m, lo, d, if r == 1 then Some(IdAt(it)) else None);
      rows := rows + [d];
      more := r == 1;
    }
  }

  /** The rows whose ids the condition selects, by ascending id. */
  ghost predicate IsAnswer(rows: seq<RowData>, m: map<int, RowData>, con: Condition) {
    Ascending(rows) && forall r: RowData :: r in rows <==> InTable(m, r) && con.Selects(r.id)
  }

  /** The first row with an id from `a` on, if there is one. */
  ghost predicate IsFirstFrom(rows: seq<RowData>, m: map<int, RowData>, a: int) {
    if rows == [] then forall k :: k in m ==> k < a
    else |rows| == 1 && InTable(m, rows[0]) && rows[0].id >= a && forall k :: k in m && k >= a ==> k >= rows[0].id
  }

  /** What query returns for a merged condition: for RES_EQ_FIRST the first row from the
      number on, for the kinds it does not know nothing, otherwise the selected rows. */
  ghost predicate Answers(rows: seq<RowData>, m: map<int, RowData>, con: Condition) {
    match con.flag
    case RES_EQ_FIRST => IsFirstFrom(rows, m, con.a)
    case RES_AND => IsAnswer(rows, m, con)
    case RES_OR => IsAnswer(rows, m, con)
    case RES_HI => IsAnswer(rows, m, con)
    case RES_LO => IsAnswer(rows, m, con)
    case _ => rows == []
  }

  lemma RangeAnswers(rows: seq<RowData>, m: map<int, RowData>, lo: int, until: Option<int>, con: Condition)
    requires IsRange(rows, m, lo, until)
    requires forall k :: k in m ==> (lo <= k && (until.Some? ==> k < until.value) <==> con.Selects(k))
    ensures IsAnswer(rows, m, con)
  {
  }

  lemma NothingAnswers(m: map<int, RowData>, con: Condition)
    requires forall k :: k in m ==> !con.Selects(k)
    ensures IsAnswer([], m, con)
  {
  }

  /** The rows of two intervals that do not meet. */
  lemma BothAnswer(rows: seq<RowData>, rows': seq<RowData>, m: map<int, RowData>, con: Condition)
    requires con.flag.RES_OR? && con.a < con.b
    requires IsAnswer(rows, m, Condition(con.a, con.b, RES_HI)) && IsAnswer(rows', m, Condition(con.b, con.b, RES_LO))
    ensures IsAnswer(rows + rows', m, con)
  {
    var all := rows + rows';
    forall i, j | 0 <= i < j < |all| ensures all[i].id < all[j].id {
      assert all[i] in if i < |rows| then rows else rows';
      assert all[j] in if j < |rows| then rows else rows';
    }
  }

  /** The scan for `(-, a]`. */
  method QueryHigh(it: Iterator<int>, a: int) returns (rows: seq<RowData>)
    requires it.Ready() && IsTable(it.btree)
    modifies it, it.btree.pool`marked
    ensures it.btree == old(it.btree) && IsTable(it.btree) && it.Ready()
    ensures IsAnswer(rows, Table(it.btree), Condition(a, a, RES_HI))
  {
    hide BTree.Valid, BTree.Contents, Iterator.On, Iterator.Pos, RowOK, Decoded, Phys, BTree.Readable, Table,
      IsRange, IsAnswer;
    rows := [];
    var r := FirstRow(it);
    NothingAnswers(map[], Condition(a, a, RES_HI));
    if r == 1 {
      ghost var lo := IdAt(it);
      rows := Collect(it, Some(a));
      RangeAnswers(rows, Table(it.btree), lo, Some(a + 1), Condition(a, a, RES_HI));
    }
  }

  /** The scan for `[a, bound]`, or `[a, +)` without a bound. */
  method QueryLow(it: Iterator<int>, a: int, bound: Option<int>, ghost con: Condition) returns (rows: seq<RowData>)
    requires it.Ready() && IsTable(it.btree)
    requires con == if bound.Some? then Condition(a, bound.value, RES_AND) else Condition(a, con.b, RES_LO)
    modifies it, it.btree.pool`marked
    ensures it.btree == old(it.btree) && IsTable(it.btree) && it.Ready()
    ensures IsAnswer(rows, Table(it.btree), con)
  {
    hide BTree.Valid, BTree.Contents, Iterator.On, Iterator.Pos, RowOK, Decoded, Phys, BTree.Readable, Table,
      IsRange, IsAnswer, OnRow;
    rows := [];
    var r := LocateRow(it, a);
    if r == 1 {
      ghost var lo := IdAt(it);
      rows := Collect(it, bound);
      RangeAnswers(rows, Table(it.btree), lo, if bound.Some? then Some(bound.value + 1) else None, con);
    } else {
      NothingAnswers(Table(it.btree), con);
    }
  }

  method QueryFirst(it: Iterator<int>, a: int) returns (rows: seq<RowData>)
    requires it.Ready() && IsTable(it.btree)
    modifies it, it.btree.pool`marked
    ensures it.btree == old(it.btree) && IsTable(it.btree) && it.Ready()
    ensures IsFirstFrom(rows, Table(it.btree), a)
  {
    hide BTree.Valid, BTree.Contents, Iterator.On, Iterator.Pos, RowOK, Decoded, Phys, BTree.Readable, Table;
    rows := [];
    var r := LocateRow(it, a);
    if r == 1 {
      var d := RowAt(it);
      rows := [d];
    }
  }

  /** The scans of query for a merged condition. */
  method QueryMerged(b: BTree<int>, con: Condition) returns (rows: seq<RowData>)
    requires IsTable(b) && (con.flag.RES_OR? ==> con.a < con.b)
    modifies b.pool`marked
    ensures IsTable(b) && Table(b) == old(Table(b))
    ensures Answers(rows, Table(b), con)
  {
    hide BTree.Valid, BTree.Contents, RowOK, Decoded, Phys, BTree.Readable, Table, IsRange, IsAnswer, IsFirstFrom;
    rows := [];
    var it := new Iterator(b);
    match con.flag {
      case RES_AND =>
        rows := QueryLow(it, con.a, Some(con.b), con);
      case RES_OR =>
        rows := QueryHigh(it, con.a);
        var high := QueryLow(it, con.b, None, Condition(con.b, con.b, RES_LO));
        SameAnswer(rows, Table(b), con.a, con.b);
        BothAnswer(rows, high, Table(b), con);
        rows := rows + high;
      case RES_EQ_FIRST =>
        rows := QueryFirst(it, con.a);
      case RES_HI =>
        rows := QueryHigh(it, con.a);
        SameAnswer(rows, Table(b), con.a, con.b);
      case RES_LO =>
        rows := QueryLow(it, con.a, None, con);
      case _ =>
    }
  }

  lemma SameAnswer(rows: seq<RowData>, m: map<int, RowData>, a: int, b: int)
    requires IsAnswer(rows, m, Condition(a, a, RES_HI))
    ensures IsAnswer(rows, m, Condition(a, b, RES_HI))
  {
  }

  // What the where clause itself asks for

  /** Exactly the rows the clause holds of, in ascending order. */
  ghost predicate IsClauseAnswer(rows: seq<RowData>, m: map<int, RowData>, clause: Clause) {
    Ascending(rows) && forall r: RowData :: r in rows <==> InTable(m, r) && clause.Holds(r.id)
  }

  ghost predicate IsLookup(clause: Clause) {
    exists id :: LooksFor(clause, id)
  }

  /** What query returns: for a lookup of one id the first row from that id on, for an id apart
      from other ids, or for all ids, nothing, and otherwise the rows the clause holds of. */
  ghost predicate Gives(rows: seq<RowData>, m: map<int, RowData>, clause: Clause) {
    && (forall id :: LooksFor(clause, id) ==> IsFirstFrom(rows, m, id))
    && (Unlooked(clause) ==> rows == [])
    && (!IsLookup(clause) && !Unlooked(clause) ==> IsClauseAnswer(rows, m, clause))
  }

  /** When query and del do what the clause asks for.  A lookup of a single id goes on to the next
      one, in the wrong arm it is that of another id, and an id apart from other ids, or all ids,
      are not looked up. */
  ghost predicate IsServed(clause: Clause, m: map<int, RowData>) {
    if WrongArm(clause) then clause.second.number !in m && forall k :: k in m ==> clause.first.Holds(k + 1)
    else if Unlooked(clause) then forall k :: k in m ==> !clause.Holds(k)
    else forall id :: IsSingle(clause, id) ==> id in m || forall k :: k in m ==> k < id
  }

  /** A ray, an interval of two ids or more, two rays with a gap, and no id are always served, be
      the comparisons in whatever order. */
  lemma ServedShapes(clause: Clause, m: map<int, RowData>, i: int, j: int)
    ensures !Unlooked(clause) && clause.Holds(i) && clause.Holds(j) && i != j ==> IsServed(clause, m)
    ensures (forall id :: !clause.Holds(id)) ==> IsServed(clause, m)
  {
    hide Unlooked, Comparison.Holds;
    if WrongArm(clause) {
      WrongArmHolds(clause, m);
      assert clause.Holds(clause.second.number);
    } else if forall id :: !clause.Holds(id) {
      assert forall id :: IsSingle(clause, id) ==> clause.Holds(id);
    }
  }

  /** query: the rows of the table that a where clause selects. */
  method Query(b: BTree<int>, clause: Clause) returns (rows: seq<RowData>)
    requires IsTable(b)
    modifies b.pool`marked
    ensures IsTable(b) && Table(b) == old(Table(b))
    ensures Gives(rows, Table(b), clause)
    ensures IsClauseAnswer(rows, Table(b), clause) <==> IsServed(clause, Table(b))
  {
    hide BTree.Valid, BTree.Contents, RowOK, Decoded, Phys, BTree.Readable, Table, Answers, Merge, Gives,
      IsClauseAnswer, IsServed;
    MergeBounds(clause);
    rows := QueryMerged(b, Merge(clause));
    TableIds(b);
    AnswersGive(clause, Table(b), rows);
    QueryExact(clause, Table(b), rows);
  }

  lemma AnswersGive(clause: Clause, m: map<int, RowData>, rows: seq<RowData>)
    requires Answers(rows, m, Merge(clause)) && HasIds(m)
    ensures Gives(rows, m, clause)
  {
    hide Merge, LooksFor, Unlooked, IsFirstFrom;
    MergeKind(clause);
    if !IsLookup(clause) {
      assert !LooksFor(clause, Merge(clause).a);
      if !Unlooked(clause) {
        NoWrongArm(clause);
        SelectsHolds(clause);
        NoneAnswers(clause, m, rows);
      }
    }
  }

  /** The wrong arm is a lookup. */
  lemma NoWrongArm(clause: Clause)
    ensures WrongArm(clause) ==> LooksFor(clause, clause.first.Bound())
  {
  }

  lemma NoneAnswers(clause: Clause, m: map<int, RowData>, rows: seq<RowData>)
    requires Answers(rows, m, Merge(clause)) && forall id :: Merge(clause).Selects(id) <==> clause.Holds(id)
    requires Merge(clause).flag !in {RES_EQ_FIRST, RES_EQ_BOTH, RES_EQ_LO, RES_EQ_HI, RES_ALL}
    ensures IsClauseAnswer(rows, m, clause)
  {
    hide Merge, Clause.Holds;
  }

  lemma SelectsHolds(clause: Clause)
    requires !WrongArm(clause)
    ensures forall id :: Merge(clause).Selects(id) <==> clause.Holds(id)
  {
    hide Merge;
    forall id ensures Merge(clause).Selects(id) <==> clause.Holds(id) {
      MergeSelects(clause, id);
    }
  }

  ghost predicate HasIds(m: map<int, RowData>) {
    forall k :: k in m ==> m[k].id == k
  }

  lemma TableIds(b: BTree<int>)
    requires IsTable(b)
    ensures HasIds(Table(b))
  {
    hide BTree.Valid, BTree.Contents, RowOK, Decoded, BTree.Readable;
    forall k | k in Table(b) ensures Table(b)[k].id == k {
      RowReads(k, b.Contents()[k], b.Contents()[k]);
    }
  }

  /** The answer of query is that of the clause if and only if `IsServed` holds. */
  lemma QueryExact(clause: Clause, m: map<int, RowData>, rows: seq<RowData>)
    requires Gives(rows, m, clause) && HasIds(m)
    ensures IsClauseAnswer(rows, m, clause) <==> IsServed(clause, m)
  {
    hide Unlooked;
    assert forall k :: k in m ==> InTable(m, m[k]);
    assert rows != [] ==> rows[0] in rows;
    if WrongArm(clause) {
      FirstFromWrong(clause, m, rows);
    } else if Unlooked(clause) {
      NotBoth(clause);
    } else if IsLookup(clause) {
      var id :| LooksFor(clause, id);
      assert clause.Holds(id);
      FirstFromExact(clause, id, m, rows);
    } else {
      assert forall x :: IsSingle(clause, x) ==> LooksFor(clause, x);
    }
  }

  /** No clause that is not looked at holds of one id only. */
  lemma NotBoth(clause: Clause)
    ensures Unlooked(clause) ==> !IsLookup(clause)
  {
    hide Merge, LooksFor, Unlooked;
    MergeKind(clause);
  }

  lemma FirstFromExact(clause: Clause, id: int, m: map<int, RowData>, rows: seq<RowData>)
    requires IsSingle(clause, id) && IsFirstFrom(rows, m, id) && HasIds(m)
    ensures IsClauseAnswer(rows, m, clause) <==> id in m || forall k :: k in m ==> k < id
    ensures forall x :: IsSingle(clause, x) <==> x == id
  {
    hide Clause.Holds;
    assert clause.Holds(id);
    assert forall k :: k in m ==> InTable(m, m[k]);
    assert rows != [] ==> rows[0] in rows;
  }

  /** In the wrong arm the clause holds of the number of its equality only. */
  lemma WrongArmHolds(clause: Clause, m: map<int, RowData>)
    requires WrongArm(clause)
    ensures forall id :: clause.Holds(id) <==> id == clause.second.number
    ensures (forall k :: k in m ==> clause.first.Holds(k + 1)) <==> forall k :: k in m ==> k < clause.first.Bound()
    ensures LooksFor(clause, clause.first.Bound()) && clause.second.number < clause.first.Bound()
  {
  }

  lemma FirstFromWrong(clause: Clause, m: map<int, RowData>, rows: seq<RowData>)
    requires WrongArm(clause) && Gives(rows, m, clause) && HasIds(m)
    ensures IsClauseAnswer(rows, m, clause) <==> IsServed(clause, m)
  {
    hide Clause.Holds, Comparison.Holds, WrongArm, LooksFor, Unlooked;
    WrongArmHolds(clause, m);
    assert IsFirstFrom(rows, m, clause.first.Bound());
    assert forall k :: k in m ==> InTable(m, m[k]);
    assert rows != [] ==> rows[0] in rows;
  }

  /** A table with row 5 only, and `id = 3`: query returns row 5. */
  lemma QueryExample(r: RowData, rows: seq<RowData>)
    requires r.id == 5 && Gives(rows, map[5 := r], One(Comparison(EQUAL, false, 3)))
    ensures rows == [r] && !One(Comparison(EQUAL, false, 3)).Holds(5)
  {
    assert LooksFor(One(Comparison(EQUAL, false, 3)), 3);
    assert 5 in map[5 := r];
  }

  // Delete

  /** The table without the rows whose ids are from `lo` on and below `until`. */
  ghost predicate IsCut(m0: map<int, RowData>, m: map<int, RowData>, lo: int, until: Option<int>) {
    m == map k | k in m0 && !(lo <= k && (until.Some? ==> k < until.value)) :: m0[k]
  }

  /** The rows of a table from whose contents a key is gone. */
  lemma TableWithout(b: BTree<int>, m: map<int, seq<Byte>>, key: int)
    requires b.Readable() && !b.isConstValueSize && (forall x, y :: b.cmp(x, y) == x - y)
    requires b.Contents() == m - {key} && forall k :: k in m ==> RowOK(k, m[k])
    ensures HoldsRows(b) && Table(b) == RowsOf(m) - {key}
  {
    hide BTree.Contents, BTree.Readable, RowOK, RowsOf;
    RowsWithout(m, b.Contents(), key);
  }

  /** Iterator::remove on a row. */
  method RemoveRow(it: Iterator<int>)
    requires OnRow(it) && it.cur != null
    modifies it.btree`tree, it.btree.pool`img, it.cur.kv
    ensures it.btree == old(it.btree) && it.btree.pool.objs == old(it.btree.pool.objs)
    ensures OnEntry(it) && IdAt(it) == old(IdAt(it)) && it.Pos() == old(it.Pos()) && |it.Places()| == |old(it.Places())|
    ensures Table(it.btree) == old(Table(it.btree)) - {IdAt(it)}
    ensures it.btree.data.spare == old(it.btree.data.spare)
  {
    hide BTree.Valid, BTree.Sound, Iterator.Ready, Iterator.On, Iterator.Pos, RowOK, RowsOf, Phys, BTree.Contents,
      BTree.Readable;
    hide Forms.SameForm, Runs.IsRemove, BTree.Snapshot;
    ghost var m := it.btree.Contents();
    it.Remove();
    it.Apart();
    TableWithout(it.btree, m, IdAt(it));
  }

  lemma RowsWithout(m: map<int, seq<Byte>>, m': map<int, seq<Byte>>, key: int)
    requires m' == m - {key} && forall k :: k in m ==> RowOK(k, m[k])
    ensures RowsOf(m') == RowsOf(m) - {key} && forall k :: k in m' ==> RowOK(k, m'[k])
  {
    hide RowOK, Decoded;
  }

  lemma CutNext(m0: map<int, RowData>, m: map<int, RowData>, m': map<int, RowData>, lo: int, id: int, next: Option<int>)
    requires IsCut(m0, m, lo, Some(id)) && lo <= id && m' == m - {id}
    requires forall k :: k in m' && k > id ==> next.Some? && k >= next.value
    requires next.Some? ==> next.value > id
    ensures IsCut(m0, m', lo, next)
  {
    forall k | k in m0 ensures k in m' <==> !(lo <= k && (next.Some? ==> k < next.value)) {
      assert k in m <==> !(lo <= k < id);
    }
  }

  /** The rows cut out so far are within the bound. */
  ghost predicate CutBelow(m0: map<int, RowData>, m: map<int, RowData>, bound: Option<int>) {
    bound.Some? ==> forall k :: k in m0 && k !in m ==> k <= bound.value
  }

  lemma CutBound(m0: map<int, RowData>, m: map<int, RowData>, lo: int, until: Option<int>, bound: Option<int>)
    requires IsCut(m0, m, lo, until) && CutBelow(m0, m, bound)
    requires until.Some? ==> bound.Some? && until.value > bound.value
    ensures IsCut(m0, m, lo, if bound.Some? then Some(bound.value + 1) else None)
  {
  }

  /** One of the scans of del: the rows from the current one on, up to `bound`, are removed. */
  method DeleteScan(it: Iterator<int>, bound: Option<int>)
    requires OnRow(it) && IdAt(it) in Table(it.btree)
    modifies it, it.btree`tree, it.btree.pool`img, it.btree.pool`marked, it.btree.pool.objs
    ensures it.btree == old(it.btree) && IsTable(it.btree) && it.Ready()
    ensures IsCut(old(Table(it.btree)), Table(it.btree), old(IdAt(it)),
                  if bound.Some? then Some(bound.value + 1) else None)
  {
    hide BTree.Valid, BTree.Contents, Iterator.Ready, Iterator.On, Iterator.Pos, RowOK, Phys, BTree.Readable,
      IsTable, Iterator.Places, Table, IsCut, CutBelow;
    ghost var m0, lo := Table(it.btree), IdAt(it);
    CutStart(m0, lo, bound);
    var more := true;
    while more
      invariant it.btree == old(it.btree) && it.btree.pool.objs == old(it.btree.pool.objs) && IsTable(it.btree)
      invariant it.Ready()
      invariant more ==>
        OnRow(it) && lo <= IdAt(it) && IdAt(it) in Table(it.btree) && IsCut(m0, Table(it.btree), lo, Some(IdAt(it)))
      invariant !more ==> IsCut(m0, Table(it.btree), lo, None)
      invariant CutBelow(m0, Table(it.btree), bound)
      decreases more, |it.Places()| - it.Pos()
    {
      it.Apart();
      it.CurBlock();
      var d := RowAt(it);
      if bound.Some? && d.id > bound.value {
        CutBound(m0, Table(it.btree), lo, Some(d.id), bound);
        return;
      }
      more := DeleteRow(it, m0, lo, bound);
    }
    CutBound(m0, Table(it.btree), lo, None, bound);
  }

  lemma CutStart(m0: map<int, RowData>, lo: int, bound: Option<int>)
    ensures IsCut(m0, m0, lo, Some(lo)) && CutBelow(m0, m0, bound)
  {
  }

  /** One turn of the scan: the current row is removed, and the iterator moves on. */
  method DeleteRow(it: Iterator<int>, ghost m0: map<int, RowData>, ghost lo: int, ghost bound: Option<int>)
    returns (more: bool)
    requires OnRow(it) && lo <= IdAt(it) && IdAt(it) in Table(it.btree)
    requires IsCut(m0, Table(it.btree), lo, Some(IdAt(it)))
    requires bound.Some? ==> IdAt(it) <= bound.value
    requires CutBelow(m0, Table(it.btree), bound)
    modifies it, it.btree`tree, it.btree.pool`img, it.btree.pool`marked, it.btree.pool.objs
    ensures it.btree == old(it.btree) && it.btree.pool.objs == old(it.btree.pool.objs) && IsTable(it.btree)
    ensures it.Ready()
    ensures CutBelow(m0, Table(it.btree), bound)
    ensures |it.Places()| == |old(it.Places())|
    ensures more ==> OnRow(it) && IdAt(it) > old(IdAt(it)) && IdAt(it) in Table(it.btree) && it.Pos() > old(it.Pos())
    ensures IsCut(m0, Table(it.btree), lo, if more then Some(IdAt(it)) else None)
  {
    hide BTree.Valid, BTree.Contents, Iterator.Ready, Iterator.On, Iterator.Pos, RowOK, Phys, BTree.Readable,
      IsTable, Iterator.Places, Table, IsCut;
    ghost var m, id := Table(it.btree), IdAt(it);
    it.Apart();
    it.CurBlock();
    RemoveRow(it);
    it.Apart();
    var r := NextRow(it);
    more := r == 1;
    CutNext(m0, m, Table(it.btree), lo, id, if more then Some(IdAt(it)) else None);
  }

  // del as a whole

  ghost predicate IsDeleted(m0: map<int, RowData>, m: map<int, RowData>, con: Condition) {
    m == map k | k in m0 && !con.Selects(k) :: m0[k]
  }

  /** The least id from `a` on, if there is one. */
  ghost predicate IsLeast(m: map<int, RowData>, a: int, id: int) {
    id in m && id >= a && forall k :: k in m && k >= a ==> k >= id
  }

  /** The row with the least id from `a` on is gone, if there was one. */
  ghost predicate IsFirstDeleted(m0: map<int, RowData>, m: map<int, RowData>, a: int) {
    if forall k :: k in m0 ==> k < a then m == m0
    else exists id :: IsLeast(m0, a, id) && m == m0 - {id}
  }

  /** What del leaves for a merged condition. */
  ghost predicate Deletes(m0: map<int, RowData>, m: map<int, RowData>, con: Condition) {
    match con.flag
    case RES_EQ_FIRST => IsFirstDeleted(m0, m, con.a)
    case RES_AND => IsDeleted(m0, m, con)
    case RES_OR => IsDeleted(m0, m, con)
    case RES_HI => IsDeleted(m0, m, con)
    case RES_LO => IsDeleted(m0, m, con)
    case _ => m == m0
  }

  lemma CutDeletes(m0: map<int, RowData>, m: map<int, RowData>, lo: int, until: Option<int>, con: Condition)
    requires IsCut(m0, m, lo, until)
    requires forall k :: k in m0 ==> (lo <= k && (until.Some? ==> k < until.value) <==> con.Selects(k))
    ensures IsDeleted(m0, m, con)
  {
  }

  lemma NothingDeleted(m: map<int, RowData>, con: Condition)
    requires forall k :: k in m ==> !con.Selects(k)
    ensures IsDeleted(m, m, con)
  {
  }

  lemma BothDeleted(m0: map<int, RowData>, m1: map<int, RowData>, m2: map<int, RowData>, con: Condition)
    requires con.flag.RES_OR?
    requires IsDeleted(m0, m1, Condition(con.a, con.b, RES_HI)) && IsDeleted(m1, m2, Condition(con.b, con.b, RES_LO))
    ensures IsDeleted(m0, m2, con)
  {
  }

  method DeleteHigh(it: Iterator<int>, a: int, ghost b: int)
    requires it.Ready() && IsTable(it.btree)
    modifies it, it.btree`tree, it.btree.pool`img, it.btree.pool`marked, it.btree.pool.objs
    ensures it.btree == old(it.btree) && it.btree.pool.objs == old(it.btree.pool.objs) && IsTable(it.btree)
    ensures it.Ready()
    ensures IsDeleted(old(Table(it.btree)), Table(it.btree), Condition(a, b, RES_HI))
  {
    hide BTree.Valid, BTree.Contents, Iterator.On, Iterator.Pos, RowOK, Decoded, Phys, BTree.Readable, Table, IsCut,
      IsDeleted, OnRow, IsTable, Iterator.Ready;
    ghost var m0 := Table(it.btree);
    it.Apart();
    var r := FirstRow(it);
    if r == 1 {
      ghost var lo := IdAt(it);
      DeleteScan(it, Some(a));
      CutDeletes(m0, Table(it.btree), lo, Some(a + 1), Condition(a, b, RES_HI));
    } else {
      NothingDeleted(m0, Condition(a, b, RES_HI));
    }
  }

  method DeleteLow(it: Iterator<int>, a: int, bound: Option<int>, ghost con: Condition)
    requires it.Ready() && IsTable(it.btree)
    requires con == if bound.Some? then Condition(a, bound.value, RES_AND) else Condition(a, con.b, RES_LO)
    modifies it, it.btree`tree, it.btree.pool`img, it.btree.pool`marked, it.btree.pool.objs
    ensures it.btree == old(it.btree) && it.btree.pool.objs == old(it.btree.pool.objs) && IsTable(it.btree)
    ensures it.Ready()
    ensures IsDeleted(old(Table(it.btree)), Table(it.btree), con)
  {
    hide BTree.Valid, BTree.Contents, Iterator.On, Iterator.Pos, RowOK, Decoded, Phys, BTree.Readable, Table, IsCut,
      IsDeleted, OnRow, IsTable, Iterator.Ready;
    ghost var m0 := Table(it.btree);
    it.Apart();
    var r := LocateRow(it, a);
    assert Table(it.btree) == m0;
    if r == 1 {
      ghost var lo := IdAt(it);
      DeleteScan(it, bound);
      CutDeletes(m0, Table(it.btree), lo, if bound.Some? then Some(bound.value + 1) else None, con);
    } else {
      NothingDeleted(m0, con);
    }
  }

  method DeleteFirst(it: Iterator<int>, a: int)
    requires it.Ready() && IsTable(it.btree)
    modifies it, it.btree`tree, it.btree.pool`img, it.btree.pool`marked, it.btree.pool.objs
    ensures it.btree == old(it.btree) && it.btree.pool.objs == old(it.btree.pool.objs) && IsTable(it.btree)
    ensures it.Ready()
    ensures IsFirstDeleted(old(Table(it.btree)), Table(it.btree), a)
  {
    hide BTree.Valid, BTree.Contents, Iterator.On, Iterator.Pos, RowOK, Decoded, Phys, BTree.Readable, Table,
      IsTable, Iterator.Ready;
    it.Apart();
    var r := LocateRow(it, a);
    if r == 1 {
      it.CurBlock();
      assert IsLeast(Table(it.btree), a, IdAt(it));
      RemoveRow(it);
      it.Apart();
    }
  }

  /** The scans of del for a merged condition. */
  method DeleteMerged(b: BTree<int>, con: Condition)
    requires IsTable(b) && (con.flag.RES_OR? ==> con.a < con.b)
    modifies b`tree, b.pool`img, b.pool`marked, b.pool.objs
    ensures IsTable(b) && Deletes(old(Table(b)), Table(b), con)
  {
    hide BTree.Valid, BTree.Contents, RowOK, Decoded, Phys, BTree.Readable, Table, IsCut, IsDeleted, IsFirstDeleted;
    var it := new Iterator(b);
    match con.flag {
      case RES_AND =>
        DeleteLow(it, con.a, Some(con.b), con);
      case RES_OR =>
        ghost var m0 := Table(b);
        DeleteHigh(it, con.a, con.b);
        ghost var m1 := Table(b);
        DeleteLow(it, con.b, None, Condition(con.b, con.b, RES_LO));
        BothDeleted(m0, m1, Table(b), con);
      case RES_EQ_FIRST =>
        DeleteFirst(it, con.a);
      case RES_HI =>
        DeleteHigh(it, con.a, con.b);
      case RES_LO =>
        DeleteLow(it, con.a, None, con);
      case _ =>
    }
  }

  /** The rows the clause holds of are gone, and all others are there. */
  ghost predicate IsClauseDeleted(m0: map<int, RowData>, m: map<int, RowData>, clause: Clause) {
    m == map k | k in m0 && !clause.Holds(k) :: m0[k]
  }

  /** What del leaves: a lookup of one id removes the first row from that id on, for an id apart
      from other ids, or for all ids, nothing is removed, and otherwise the rows the clause
      holds of are. */
  ghost predicate Removes(m0: map<int, RowData>, m: map<int, RowData>, clause: Clause) {
    && (forall id :: LooksFor(clause, id) ==> IsFirstDeleted(m0, m, id))
    && (Unlooked(clause) ==> m == m0)
    && (!IsLookup(clause) && !Unlooked(clause) ==> IsClauseDeleted(m0, m, clause))
  }

  /** del: the rows a where clause selects are removed. */
  method Delete(b: BTree<int>, clause: Clause)
    requires IsTable(b)
    modifies b`tree, b.pool`img, b.pool`marked, b.pool.objs
    ensures IsTable(b) && Removes(old(Table(b)), Table(b), clause)
    ensures IsClauseDeleted(old(Table(b)), Table(b), clause) <==> IsServed(clause, old(Table(b)))
  {
    hide BTree.Valid, BTree.Contents, RowOK, Decoded, BTree.Readable, Table, Deletes, Merge, IsClauseDeleted, IsServed,
      Removes;
    MergeBounds(clause);
    DeleteMerged(b, Merge(clause));
    DeletesRemove(clause, old(Table(b)), Table(b));
    DeleteExact(clause, old(Table(b)), Table(b));
  }

  lemma DeletesRemove(clause: Clause, m0: map<int, RowData>, m: map<int, RowData>)
    requires Deletes(m0, m, Merge(clause))
    ensures Removes(m0, m, clause)
  {
    hide Merge, LooksFor, Unlooked, IsFirstDeleted, Clause.Holds;
    MergeKind(clause);
    if !IsLookup(clause) {
      assert !LooksFor(clause, Merge(clause).a);
      if !Unlooked(clause) {
        NoWrongArm(clause);
        SelectsHolds(clause);
      }
    }
  }

  /** After del, query with the same where clause finds nothing, if it does not look up one id. */
  lemma DeletedIsGone(m0: map<int, RowData>, m: map<int, RowData>, clause: Clause, rows: seq<RowData>)
    requires Removes(m0, m, clause) && Gives(rows, m, clause)
    ensures IsLookup(clause) || rows == []
  {
    hide Unlooked, LooksFor;
    assert rows != [] ==> rows[0] in rows;
  }

  /** del removes the rows the clause holds of and no others if and only if `IsServed` holds. */
  lemma DeleteExact(clause: Clause, m0: map<int, RowData>, m: map<int, RowData>)
    requires Removes(m0, m, clause)
    ensures IsClauseDeleted(m0, m, clause) <==> IsServed(clause, m0)
  {
    hide IsFirstDeleted, IsClauseDeleted, Clause.Holds, Comparison.Holds, Unlooked;
    if WrongArm(clause) {
      WrongArmHolds(clause, m0);
      FirstDeletedExact(m0, m, clause.first.Bound(), clause, clause.second.number);
    } else if Unlooked(clause) {
      NoneDeletedExact(m0, clause);
    } else if IsLookup(clause) {
      var id :| LooksFor(clause, id);
      assert clause.Holds(id) && forall x :: IsSingle(clause, x) ==> x == id;
      FirstDeletedExact(m0, m, id, clause, id);
    } else {
      assert forall x :: IsSingle(clause, x) ==> LooksFor(clause, x);
    }
  }

  lemma NoneDeletedExact(m: map<int, RowData>, clause: Clause)
    ensures IsClauseDeleted(m, m, clause) <==> forall k :: k in m ==> !clause.Holds(k)
  {
  }

  /** A clause that holds of one id, and a lookup for `a`. */
  lemma FirstDeletedExact(m0: map<int, RowData>, m: map<int, RowData>, a: int, clause: Clause, x: int)
    requires IsFirstDeleted(m0, m, a)
    requires x <= a && forall id :: clause.Holds(id) <==> id == x
    ensures IsClauseDeleted(m0, m, clause) <==>
      if clause.Holds(a) then a in m0 || forall k :: k in m0 ==> k < a
      else forall k :: k in m0 ==> k < a && !clause.Holds(k)
  {
    if forall k :: k in m0 ==> k < a {
      NoneDeletedExact(m0, clause);
    } else {
      var id :| IsLeast(m0, a, id) && m == m0 - {id};
      if x == id {
        assert m == map k | k in m0 && !clause.Holds(k) :: m0[k];
      } else {
        assert id !in m && id in m0 && !clause.Holds(id);
      }
    }
  }

  /** A table with row 5 only, and `id = 3`: del removes row 5. */
  lemma DeleteExample(r: RowData, m: map<int, RowData>)
    requires r.id == 5 && Removes(map[5 := r], m, One(Comparison(EQUAL, false, 3)))
    ensures m == map[]
  {
    assert LooksFor(One(Comparison(EQUAL, false, 3)), 3);
    assert 5 in map[5 := r];
  }

  // Update

  /** What an update sets: a sex other than -1, and each string that is not empty. */
  datatype Change = Change(sex: int, name: seq<Byte>, number: seq<Byte>, email: seq<Byte>)

  /** up, before the row is encoded. */
  function Changed(t: RowData, c: Change): RowData {
    RowData(t.id,
            if c.sex != -1 then c.sex != 0 else t.sex,
            if c.name != [] then c.name else t.name,
            if c.number != [] then c.number else t.number,
            if c.email != [] then c.email else t.email)
  }

  /** The row `r` is the row `t` after an update: the id is kept, and the sex and each string are
      what was given, as it is read back, or kept if nothing was given. */
  ghost predicate Sets(t: RowData, c: Change, r: RowData) {
    && r.id == t.id
    && r.sex == (if c.sex == -1 then t.sex else c.sex != 0)
    && r.name == (if c.name == [] then t.name else ReadBack(c.name))
    && r.number == (if c.number == [] then t.number else ReadBack(c.number))
    && r.email == (if c.email == [] then t.email else ReadBack(c.email))
  }

  /** A row of a table that is changed, encoded and read back. */
  lemma ChangedSets(t: RowData, c: Change)
    requires Plain(t)
    ensures Changed(t, c).id == t.id && Sets(t, c, Decoded(Encoded(Changed(t, c))))
    ensures FitsWith(t, c) <==> Fits(Changed(t, c))
  {
    hide Encoded, Decoded, ReadBack, NoNul, U16;
    DecodedParts(Changed(t, c), Encoded(Changed(t, c)));
    ReadBackSame(t.name);
    ReadBackSame(t.number);
    ReadBackSame(t.email);
  }

  /** A string without a NUL that fits its length is found as it was given, and one field that
      is set leaves the others alone. */
  lemma SetsGiven(t: RowData, c: Change, r: RowData)
    requires Sets(t, c, r)
    ensures c.name != [] ==> (r.name == c.name <==> NoNul(c.name) && |c.name| < 0x1_0000)
    ensures c.number != [] ==> (r.number == c.number <==> NoNul(c.number) && |c.number| < 0x1_0000)
    ensures c.email != [] ==> (r.email == c.email <==> NoNul(c.email) && |c.email| < 0x1_0000)
    ensures c == Change(c.sex, [], [], []) ==> r == t.(sex := if c.sex == -1 then t.sex else c.sex != 0)
    ensures c == Change(-1, c.name, [], []) ==> r == t.(name := r.name)
    ensures c == Change(-1, [], c.number, []) ==> r == t.(number := r.number)
    ensures c == Change(-1, [], [], c.email) ==> r == t.(email := r.email)
  {
    hide ReadBack, NoNul;
    ReadBackSame(c.name);
    ReadBackSame(c.number);
    ReadBackSame(c.email);
  }

  /** Every row of a table was read back, and is read back as it is when it is stored again. */
  lemma TablePlain(b: BTree<int>)
    requires IsTable(b)
    ensures forall k :: k in Table(b) ==> Plain(Table(b)[k])
  {
    hide BTree.Valid, BTree.Contents, Decoded, BTree.Readable, Plain, Encoded;
    forall k | k in Table(b) ensures Plain(Table(b)[k]) {
      var r: RowData :| Encoded(r) == b.Contents()[k] && r.id == k;
      PlainRead(r);
    }
  }

  lemma PlainRead(r: RowData)
    ensures |Encoded(r)| >= 13 && Plain(Decoded(Encoded(r)))
  {
    hide Encoded, Decoded, ReadBack, NoNul;
    DecodedParts(r, Encoded(r));
    ReadBackSame(r.name);
    ReadBackSame(r.number);
    ReadBackSame(r.email);
  }

  /** The encoded row fits in a data block. */
  predicate Fits(r: RowData) {
    |Encoded(r)| < 4066
  }

  /** The row still fits after the change. */
  predicate FitsWith(t: RowData, c: Change) {
    16 + U16(|if c.name == [] then t.name else c.name|) + U16(|if c.number == [] then t.number else c.number|)
      + U16(|if c.email == [] then t.email else c.email|) < 4066
  }

  lemma EncodedOK(d: RowData)
    ensures RowOK(d.id, Encoded(d)) && |Encoded(d)| >= 13
  {
    hide Head;
  }

  lemma RowsWith(m: map<int, seq<Byte>>, m': map<int, seq<Byte>>, id: int, v: seq<Byte>)
    requires m' == m[id := v] && RowOK(id, v) && |v| >= 13 && forall k :: k in m ==> RowOK(k, m[k])
    ensures RowsOf(m') == RowsOf(m)[id := Decoded(v)] && forall k :: k in m' ==> RowOK(k, m'[k])
  {
    hide Decoded, RowOK;
  }

  /** Puts a row under the id of the removed entry the iterator is on.  The iterator stays
      on that entry. */
  method PutBack(it: Iterator<int>, d: RowData) returns (res: int)
    requires OnEntry(it) && d.id == IdAt(it) && d.id !in Table(it.btree) && Fits(d)
    modifies it.btree, it.btree.pool, it.btree.pool.objs, it.btree.data, it.btree.data.objs
    ensures it.btree == old(it.btree) && OnEntry(it)
    ensures fresh(it.btree.pool.objs - old(it.btree.pool.objs)) && fresh(it.btree.data.objs - old(it.btree.data.objs))
    ensures IdAt(it) == old(IdAt(it)) && it.Pos() == old(it.Pos()) && |it.Places()| == |old(it.Places())|
    ensures res == 1 || res == -1
    ensures old(it.btree.data.spare) > 0 ==> res == 1
    ensures it.btree.data.spare <= old(it.btree.data.spare) <= it.btree.data.spare + 1
    ensures Table(it.btree) == if res == 1 then old(Table(it.btree))[d.id := Decoded(Encoded(d))]
      else old(Table(it.btree))
  {
    hide BTree.Valid, Iterator.Ready, Iterator.On, Iterator.Pos, RowOK, RowsOf, Phys, BTree.Contents, BTree.Readable,
      Encoded, Decoded;
    ghost var m := it.btree.Contents();
    TableKeys(it.btree);
    ValidTable(it.btree);
    var e := Encode(d);
    TotalRead(d);
    assert e[..ReadU16(e[..], 0)] == e[..];
    res := PutUnder(it, d.id, e[..ReadU16(e[..], 0)]);
    it.Apart();
    EncodedOK(d);
    RowsWith(m, m[d.id := Encoded(d)], d.id, Encoded(d));
  }

  lemma ValidTable(b: BTree<int>)
    requires IsTable(b)
    ensures b.Readable() && b.Contents().Keys == Table(b).Keys
  {
    TableKeys(b);
    b.ContentsKeys();
  }

  /** The table with the rows whose ids are from `lo` on and below `until` changed; of those
      the rows in `lost` could not be stored again. */
  ghost predicate IsRevised(m0: map<int, RowData>, m: map<int, RowData>, lo: int, until: Option<int>, c: Change,
          lost: set<int>) {
    && (forall k :: k in lost ==> k in m0 && lo <= k && (until.Some? ==> k < until.value))
    && m.Keys == m0.Keys - lost
    && forall k :: k in m ==>
         if lo <= k && (until.Some? ==> k < until.value) then Sets(m0[k], c, m[k]) else m[k] == m0[k]
  }

  lemma RevisedNext(m0: map<int, RowData>, m: map<int, RowData>, m': map<int, RowData>, lo: int, id: int,
          next: Option<int>, c: Change, lost: set<int>, ok: bool, r: RowData)
    requires IsRevised(m0, m, lo, Some(id), c, lost) && lo <= id && id in m
    requires Sets(m[id], c, r) && m' == if ok then m[id := r] else m - {id}
    requires forall k :: k in m' && k > id ==> next.Some? && k >= next.value
    requires next.Some? ==> next.value > id
    ensures IsRevised(m0, m', lo, next, c, if ok then lost else lost + {id})
  {
    hide Sets;
    assert id in m0 && id !in lost && m[id] == m0[id];
    forall k | k in m0 && k > id ensures k in m' && next.Some? && k >= next.value {
      assert k in m;
    }
  }

  ghost predicate AllFit(m: map<int, RowData>, lo: int, bound: Option<int>, c: Change) {
    forall k :: k in m && lo <= k && (bound.Some? ==> k <= bound.value) ==> FitsWith(m[k], c)
  }

  lemma RevisedRow(m0: map<int, RowData>, m: map<int, RowData>, lo: int, id: int, c: Change, lost: set<int>,
          bound: Option<int>)
    requires IsRevised(m0, m, lo, Some(id), c, lost) && lo <= id && id in m && AllFit(m0, lo, bound, c)
    requires bound.Some? ==> id <= bound.value
    ensures id in m0 && m[id] == m0[id] && FitsWith(m[id], c)
  {
  }

  // Blocks for the values of an update

  /** The ids of the scan that are passed when it comes to `until`. */
  ghost function Passed(m0: map<int, RowData>, lo: int, until: Option<int>): set<int> {
    set k | k in m0 && lo <= k && (until.Some? ==> k < until.value)
  }

  /** Each row put back takes at most one new block; rows are lost only if there were fewer
      blocks to be had than rows to put back. */
  ghost predicate Afforded(rows: set<int>, spare0: nat, spare: nat, lost: set<int>) {
    spare0 <= spare + |rows| && (lost != {} ==> spare0 < |rows|)
  }

  lemma AffordedStart(m0: map<int, RowData>, lo: int, spare0: nat)
    ensures Afforded(Passed(m0, lo, Some(lo)), spare0, spare0, {})
  {
  }

  lemma AffordedNext(m0: map<int, RowData>, lo: int, id: int, next: Option<int>, spare0: nat, spare: nat, spare': nat,
          lost: set<int>, ok: bool)
    requires Afforded(Passed(m0, lo, Some(id)), spare0, spare, lost) && id in m0 && lo <= id
    requires next.Some? ==> next.value > id
    requires spare' <= spare <= spare' + 1 && (spare > 0 ==> ok)
    ensures Afforded(Passed(m0, lo, next), spare0, spare', if ok then lost else lost + {id})
  {
    var s, s' := Passed(m0, lo, Some(id)), Passed(m0, lo, next);
    Fewer(s + {id}, s');
    assert |s + {id}| == |s| + 1;
  }

  lemma {:induction false} Fewer<T>(s: set<T>, s': set<T>)
    requires s <= s'
    ensures |s| <= |s'|
  {
    assert s' == s + (s' - s);
  }

  /** One turn of the scan of update: the current row is removed and put back changed, and
      the iterator moves on. */
  method UpdateRow(it: Iterator<int>, d: RowData, c: Change, ghost m0: map<int, RowData>, ghost lo: int,
          ghost bound: Option<int>, ghost lost: set<int>, ghost spare0: nat)
    returns (more: bool, ghost lost': set<int>)
    requires OnRow(it) && lo <= IdAt(it) == d.id && InTable(Table(it.btree), d)
    requires IsRevised(m0, Table(it.btree), lo, Some(IdAt(it)), c, lost) && AllFit(m0, lo, bound, c)
    requires bound.Some? ==> d.id <= bound.value
    requires PassedBelow(m0, lo, Some(d.id), bound)
    requires Afforded(Passed(m0, lo, Some(d.id)), spare0, it.btree.data.spare, lost)
    modifies it, it.btree, it.btree.pool, it.btree.pool.objs, it.btree.data, it.btree.data.objs
    ensures it.btree == old(it.btree) && IsTable(it.btree) && it.Ready()
    ensures fresh(it.btree.pool.objs - old(it.btree.pool.objs)) && fresh(it.btree.data.objs - old(it.btree.data.objs))
    ensures |it.Places()| == |old(it.Places())|
    ensures more ==> OnRow(it) && IdAt(it) > old(IdAt(it)) && IdAt(it) in Table(it.btree) && it.Pos() > old(it.Pos())
    ensures IsRevised(m0, Table(it.btree), lo, if more then Some(IdAt(it)) else None, c, lost')
    ensures PassedBelow(m0, lo, if more then Some(IdAt(it)) else None, bound)
    ensures
      Afforded(Passed(m0, lo, if more then Some(IdAt(it)) else None), spare0, it.btree.data.spare, lost')
  {
    hide BTree.Valid, BTree.Contents, Iterator.Ready, Iterator.On, Iterator.Pos, RowOK, Phys, BTree.Readable,
      IsTable, Iterator.Places, Table, IsRevised, AllFit, Fits, FitsWith, Encoded, Decoded, Changed, Sets, Plain,
      PassedBelow, Passed, Afforded;
    ghost var m, spare := Table(it.btree), it.btree.data.spare;
    RevisedRow(m0, m, lo, d.id, c, lost, bound);
    TablePlain(it.btree);
    ChangedSets(d, c);
    it.Apart();
    it.CurBlock();
    RemoveRow(it);
    var res := PutBack(it, Changed(d, c));
    lost' := if res == 1 then lost else lost + {d.id};
    it.Apart();
    var r := NextRow(it);
    more := r == 1;
    RevisedNext(m0, m, Table(it.btree), lo, d.id, if more then Some(IdAt(it)) else None, c, lost, res == 1,
      Decoded(Encoded(Changed(d, c))));
    PassedNext(m0, m, Table(it.btree), lo, d.id, if more then Some(IdAt(it)) else None, bound, c, lost, lost');
    AffordedNext(m0, lo, d.id, if more then Some(IdAt(it)) else None, spare0, spare, it.btree.data.spare, lost,
      res == 1);
  }

  lemma RevisedStart(m0: map<int, RowData>, lo: int, c: Change)
    ensures IsRevised(m0, m0, lo, Some(lo), c, {})
  {
  }

  /** Of the ids passed so far none is above the bound. */
  ghost predicate PassedBelow(m0: map<int, RowData>, lo: int, until: Option<int>, bound: Option<int>) {
    bound.Some? ==> forall k :: k in m0 && lo <= k && (until.Some? ==> k < until.value) ==> k <= bound.value
  }

  lemma PassedNext(m0: map<int, RowData>, m: map<int, RowData>, m': map<int, RowData>, lo: int, id: int,
          next: Option<int>, bound: Option<int>, c: Change, lost: set<int>, lost': set<int>)
    requires PassedBelow(m0, lo, Some(id), bound) && (bound.Some? ==> id <= bound.value) && lost' <= lost + {id}
    requires IsRevised(m0, m, lo, Some(id), c, lost) && IsRevised(m0, m', lo, next, c, lost')
    requires forall k :: k in m' && k > id ==> next.Some? && k >= next.value
    ensures PassedBelow(m0, lo, next, bound)
  {
    hide Sets;
    if bound.Some? {
      forall k | k in m0 && lo <= k && (next.Some? ==> k < next.value) ensures k <= bound.value {
        assert k in m' || k in lost';
      }
    }
  }

  /** One of the scans of update: the rows from the current one on, up to `bound`, are
      changed, except those that could not be stored again. */
  method UpdateScan(it: Iterator<int>, bound: Option<int>, c: Change) returns (ghost lost: set<int>)
    requires OnRow(it) && IdAt(it) in Table(it.btree) && AllFit(Table(it.btree), IdAt(it), bound, c)
    modifies it, it.btree, it.btree.pool, it.btree.pool.objs, it.btree.data, it.btree.data.objs
    ensures it.btree == old(it.btree) && IsTable(it.btree) && it.Ready()
    ensures fresh(it.btree.pool.objs - old(it.btree.pool.objs)) && fresh(it.btree.data.objs - old(it.btree.data.objs))
    ensures IsRevised(old(Table(it.btree)), Table(it.btree), old(IdAt(it)),
                      if bound.Some? then Some(bound.value + 1) else None, c, lost)
    ensures Afforded(Passed(old(Table(it.btree)), old(IdAt(it)), if bound.Some? then Some(bound.value + 1) else None),
                     old(it.btree.data.spare), it.btree.data.spare, lost)
  {
    hide BTree.Valid, BTree.Contents, Iterator.Ready, Iterator.On, Iterator.Pos, RowOK, Phys, BTree.Readable,
      IsTable, Iterator.Places, Table, IsRevised, AllFit, PassedBelow, Passed, Afforded;
    ghost var m0, lo, spare0 := Table(it.btree), IdAt(it), it.btree.data.spare;
    AffordedStart(m0, lo, spare0);
    RevisedStart(m0, lo, c);
    PassedStart(m0, lo, bound);
    lost := {};
    var more := true;
    while more
      invariant it.btree == old(it.btree) && IsTable(it.btree) && it.Ready()
      invariant fresh(it.btree.pool.objs - old(it.btree.pool.objs))
      invariant fresh(it.btree.data.objs - old(it.btree.data.objs))
      invariant more ==> OnRow(it) && lo <= IdAt(it) && IdAt(it) in Table(it.btree)
      invariant more ==>
        IsRevised(m0, Table(it.btree), lo, Some(IdAt(it)), c, lost) && PassedBelow(m0, lo, Some(IdAt(it)), bound)
      invariant !more ==> IsRevised(m0, Table(it.btree), lo, None, c, lost) && PassedBelow(m0, lo, None, bound)
      invariant Afforded(Passed(m0, lo, if more then Some(IdAt(it)) else None), spare0, it.btree.data.spare, lost)
      decreases more, |it.Places()| - it.Pos()
    {
      var d := RowAt(it);
      if bound.Some? && d.id > bound.value {
        RevisedStop(m0, Table(it.btree), lo, Some(d.id), bound, c, lost);
        return;
      }
      more, lost := UpdateRow(it, d, c, m0, lo, bound, lost, spare0);
    }
    RevisedStop(m0, Table(it.btree), lo, None, bound, c, lost);
  }

  lemma PassedStart(m0: map<int, RowData>, lo: int, bound: Option<int>)
    ensures PassedBelow(m0, lo, Some(lo), bound)
  {
  }

  lemma RevisedStop(m0: map<int, RowData>, m: map<int, RowData>, lo: int, until: Option<int>, bound: Option<int>,
          c: Change, lost: set<int>)
    requires IsRevised(m0, m, lo, until, c, lost) && PassedBelow(m0, lo, until, bound)
    requires until.Some? ==> bound.Some? && until.value > bound.value
    ensures IsRevised(m0, m, lo, if bound.Some? then Some(bound.value + 1) else None, c, lost)
    ensures Passed(m0, lo, until) == Passed(m0, lo, if bound.Some? then Some(bound.value + 1) else None)
  {
    hide Sets;
    forall k | k in m0 && lo <= k ensures (until.Some? ==> k < until.value) <==> (bound.Some? ==> k < bound.value + 1) {
      if bound.Some? && (until.Some? ==> k < until.value) {
        assert k <= bound.value;
      }
    }
  }

  // update as a whole

  /** The selected rows are changed and the others are as before; of the selected rows those
      in `lost` are gone. */
  ghost predicate IsUpdated(m0: map<int, RowData>, m: map<int, RowData>, con: Condition, c: Change, lost: set<int>) {
    && (forall k :: k in lost ==> k in m0 && con.Selects(k))
    && m.Keys == m0.Keys - lost
    && forall k :: k in m ==> if con.Selects(k) then Sets(m0[k], c, m[k]) else m[k] == m0[k]
  }

  /** The row with the least id from `a` on is changed or lost, if there is one. */
  ghost predicate IsFirstUpdated(m0: map<int, RowData>, m: map<int, RowData>, a: int, c: Change, lost: set<int>) {
    if forall k :: k in m0 ==> k < a then m == m0 && lost == {}
    else exists id :: IsLeast(m0, a, id) && IsOneUpdated(m0, m, id, c, lost)
  }

  ghost predicate IsOneUpdated(m0: map<int, RowData>, m: map<int, RowData>, id: int, c: Change, lost: set<int>) {
    && id in m0 && (lost == {} || lost == {id}) && m.Keys == m0.Keys - lost
    && forall k :: k in m ==> if k == id then Sets(m0[k], c, m[k]) else m[k] == m0[k]
  }

  ghost predicate Updates(m0: map<int, RowData>, m: map<int, RowData>, con: Condition, c: Change, lost: set<int>) {
    match con.flag
    case RES_EQ_FIRST => IsFirstUpdated(m0, m, con.a, c, lost)
    case RES_AND => IsUpdated(m0, m, con, c, lost)
    case RES_OR => IsUpdated(m0, m, con, c, lost)
    case RES_HI => IsUpdated(m0, m, con, c, lost)
    case RES_LO => IsUpdated(m0, m, con, c, lost)
    case _ => m == m0 && lost == {}
  }

  /** Every row that an update of the condition writes fits in a data block. */
  ghost predicate RowsFit(m: map<int, RowData>, con: Condition, c: Change) {
    forall k :: k in m && (if con.flag.RES_EQ_FIRST? then IsLeast(m, con.a, k) else con.Selects(k)) ==>
      FitsWith(m[k], c)
  }

  ghost function Selected(m: map<int, RowData>, con: Condition): set<int> {
    set k | k in m && con.Selects(k)
  }

  lemma PassedSelected(m0: map<int, RowData>, lo: int, until: Option<int>, con: Condition)
    requires forall k :: k in m0 ==> (lo <= k && (until.Some? ==> k < until.value) <==> con.Selects(k))
    ensures Passed(m0, lo, until) == Selected(m0, con)
  {
  }

  /** The two scans of a condition of two intervals. */
  lemma AffordedBoth(m0: map<int, RowData>, m1: map<int, RowData>, con: Condition, spare0: nat, spare1: nat, spare: nat,
          lost: set<int>, lost': set<int>)
    requires con.flag.RES_OR? && con.a < con.b && m1.Keys <= m0.Keys
    requires Afforded(Selected(m0, Condition(con.a, con.b, RES_HI)), spare0, spare1, lost)
    requires Afforded(Selected(m1, Condition(con.b, con.b, RES_LO)), spare1, spare, lost')
    ensures Afforded(Selected(m0, con), spare0, spare, lost + lost')
  {
    var s, s' := Selected(m0, Condition(con.a, con.b, RES_HI)), Selected(m1, Condition(con.b, con.b, RES_LO));
    assert |s + s'| == |s| + |s'|;
    Fewer(s + s', Selected(m0, con));
  }

  lemma UpdatedKeys(m0: map<int, RowData>, m: map<int, RowData>, con: Condition, c: Change, lost: set<int>)
    requires IsUpdated(m0, m, con, c, lost)
    ensures m.Keys <= m0.Keys
  {
  }

  lemma RevisedUpdates(m0: map<int, RowData>, m: map<int, RowData>, lo: int, until: Option<int>, con: Condition,
          c: Change, lost: set<int>)
    requires IsRevised(m0, m, lo, until, c, lost)
    requires forall k :: k in m0 ==> (lo <= k && (until.Some? ==> k < until.value) <==> con.Selects(k))
    ensures IsUpdated(m0, m, con, c, lost)
  {
    hide Sets;
  }

  lemma NothingUpdated(m: map<int, RowData>, con: Condition, c: Change)
    requires forall k :: k in m ==> !con.Selects(k)
    ensures IsUpdated(m, m, con, c, {})
  {
  }

  lemma BothUpdated(m0: map<int, RowData>, m1: map<int, RowData>, m2: map<int, RowData>, con: Condition, c: Change,
          lost: set<int>, lost': set<int>)
    requires con.flag.RES_OR? && con.a < con.b
    requires IsUpdated(m0, m1, Condition(con.a, con.b, RES_HI), c, lost)
    requires IsUpdated(m1, m2, Condition(con.b, con.b, RES_LO), c, lost')
    ensures IsUpdated(m0, m2, con, c, lost + lost')
  {
    hide Sets;
  }

  /** What is left to update after the rows up to `a` were fits as before. */
  lemma HighFits(m0: map<int, RowData>, m1: map<int, RowData>, con: Condition, c: Change, lost: set<int>)
    requires con.flag.RES_OR? && con.a < con.b && RowsFit(m0, con, c)
    requires IsUpdated(m0, m1, Condition(con.a, con.b, RES_HI), c, lost)
    ensures RowsFit(m1, Condition(con.b, con.b, RES_LO), c)
  {
    hide Sets, FitsWith;
  }

  method UpdateHigh(it: Iterator<int>, a: int, ghost b: int, c: Change) returns (ghost lost: set<int>)
    requires it.Ready() && IsTable(it.btree) && RowsFit(Table(it.btree), Condition(a, b, RES_HI), c)
    modifies it, it.btree, it.btree.pool, it.btree.pool.objs, it.btree.data, it.btree.data.objs
    ensures it.btree == old(it.btree) && IsTable(it.btree) && it.Ready()
    ensures fresh(it.btree.pool.objs - old(it.btree.pool.objs)) && fresh(it.btree.data.objs - old(it.btree.data.objs))
    ensures IsUpdated(old(Table(it.btree)), Table(it.btree), Condition(a, b, RES_HI), c, lost)
    ensures Afforded(Selected(old(Table(it.btree)), Condition(a, b, RES_HI)), old(it.btree.data.spare),
                     it.btree.data.spare, lost)
  {
    hide BTree.Valid, BTree.Contents, Iterator.On, Iterator.Pos, RowOK, Decoded, Phys, BTree.Readable, Table,
      IsRevised, IsUpdated, OnRow, IsTable, Iterator.Ready, FitsWith, Passed, Selected;
    ghost var m0 := Table(it.btree);
    lost := {};
    it.Apart();
    var r := FirstRow(it);
    assert Table(it.btree) == m0;
    if r == 1 {
      ghost var lo := IdAt(it);
      lost := UpdateScan(it, Some(a), c);
      RevisedUpdates(m0, Table(it.btree), lo, Some(a + 1), Condition(a, b, RES_HI), c, lost);
      PassedSelected(m0, lo, Some(a + 1), Condition(a, b, RES_HI));
    } else {
      NothingUpdated(m0, Condition(a, b, RES_HI), c);
    }
  }

  method UpdateLow(it: Iterator<int>, a: int, bound: Option<int>, c: Change, ghost con: Condition)
    returns (ghost lost: set<int>)
    requires it.Ready() && IsTable(it.btree) && RowsFit(Table(it.btree), con, c)
    requires con == if bound.Some? then Condition(a, bound.value, RES_AND) else Condition(a, con.b, RES_LO)
    modifies it, it.btree, it.btree.pool, it.btree.pool.objs, it.btree.data, it.btree.data.objs
    ensures it.btree == old(it.btree) && IsTable(it.btree) && it.Ready()
    ensures fresh(it.btree.pool.objs - old(it.btree.pool.objs)) && fresh(it.btree.data.objs - old(it.btree.data.objs))
    ensures IsUpdated(old(Table(it.btree)), Table(it.btree), con, c, lost)
    ensures Afforded(Selected(old(Table(it.btree)), con), old(it.btree.data.spare), it.btree.data.spare, lost)
  {
    hide BTree.Valid, BTree.Contents, Iterator.On, Iterator.Pos, RowOK, Decoded, Phys, BTree.Readable, Table,
      IsRevised, IsUpdated, OnRow, IsTable, Iterator.Ready, FitsWith, Passed, Selected;
    ghost var m0 := Table(it.btree);
    lost := {};
    it.Apart();
    var r := LocateRow(it, a);
    assert Table(it.btree) == m0;
    if r == 1 {
      ghost var lo := IdAt(it);
      lost := UpdateScan(it, bound, c);
      RevisedUpdates(m0, Table(it.btree), lo, if bound.Some? then Some(bound.value + 1) else None, con, c, lost);
      PassedSelected(m0, lo, if bound.Some? then Some(bound.value + 1) else None, con);
    } else {
      NothingUpdated(m0, con, c);
    }
  }

  method UpdateFirst(it: Iterator<int>, c: Change, con: Condition) returns (ghost lost: set<int>)
    requires it.Ready() && IsTable(it.btree) && RowsFit(Table(it.btree), con, c) && con.flag.RES_EQ_FIRST?
    modifies it, it.btree, it.btree.pool, it.btree.pool.objs, it.btree.data, it.btree.data.objs
    ensures it.btree == old(it.btree) && IsTable(it.btree) && it.Ready()
    ensures IsFirstUpdated(old(Table(it.btree)), Table(it.btree), con.a, c, lost)
    ensures old(it.btree.data.spare) > 0 ==> lost == {}
  {
    hide BTree.Valid, BTree.Contents, Iterator.On, Iterator.Pos, RowOK, Decoded, Phys, BTree.Readable, Table,
      IsTable, Iterator.Ready, Fits, FitsWith, Changed, Sets, Encoded, Plain;
    ghost var m0 := Table(it.btree);
    lost := {};
    it.Apart();
    var r := LocateRow(it, con.a);
    assert Table(it.btree) == m0;
    if r == 1 {
      it.CurBlock();
      assert IsLeast(m0, con.a, IdAt(it));
      var d := RowAt(it);
      TablePlain(it.btree);
      ChangedSets(d, c);
      RemoveRow(it);
      var res := PutBack(it, Changed(d, c));
      lost := if res == 1 then {} else {d.id};
      it.Apart();
    }
  }

  lemma AffordedAll(m: map<int, RowData>, con: Condition, spare0: nat, spare: nat, lost: set<int>)
    requires Afforded(Selected(m, con), spare0, spare, lost)
    ensures spare0 >= |m| ==> lost == {}
  {
    Fewer(Selected(m, con), m.Keys);
  }

  lemma NoneLost(m0: map<int, RowData>, m: map<int, RowData>, a: int, c: Change, lost: set<int>)
    requires IsFirstUpdated(m0, m, a, c, lost) && lost != {}
    ensures |m0| > 0
  {
    assert m0 != map[];
  }

  /** The scans of update for a merged condition. */
  method UpdateMerged(b: BTree<int>, con: Condition, c: Change) returns (ghost lost: set<int>)
    requires IsTable(b) && (con.flag.RES_OR? ==> con.a < con.b)
    requires con.flag !in {RES_EQ_BOTH, RES_EQ_LO, RES_EQ_HI, RES_ALL} ==> RowsFit(Table(b), con, c)
    modifies b, b.pool, b.pool.objs, b.data, b.data.objs
    ensures IsTable(b) && Updates(old(Table(b)), Table(b), con, c, lost)
    ensures old(b.data.spare) >= |old(Table(b))| ==> lost == {}
  {
    hide BTree.Valid, BTree.Contents, RowOK, Decoded, Phys, BTree.Readable, Table, IsUpdated, IsFirstUpdated,
      FitsWith, Selected, Afforded;
    ghost var m0, spare0 := Table(b), b.data.spare;
    lost := {};
    var it := new Iterator(b);
    match con.flag {
      case RES_AND =>
        lost := UpdateLow(it, con.a, Some(con.b), c, con);
        AffordedAll(m0, con, spare0, b.data.spare, lost);
      case RES_OR =>
        lost := UpdateOr(it, c, con);
        AffordedAll(m0, con, spare0, b.data.spare, lost);
      case RES_EQ_FIRST =>
        lost := UpdateFirst(it, c, con);
        if lost != {} {
          NoneLost(m0, Table(b), con.a, c, lost);
        }
      case RES_HI =>
        lost := UpdateHigh(it, con.a, con.b, c);
        AffordedAll(m0, con, spare0, b.data.spare, lost);
      case RES_LO =>
        lost := UpdateLow(it, con.a, None, c, con);
        AffordedAll(m0, con, spare0, b.data.spare, lost);
      case _ =>
    }
  }

  method UpdateOr(it: Iterator<int>, c: Change, con: Condition) returns (ghost lost: set<int>)
    requires it.Ready() && IsTable(it.btree) && RowsFit(Table(it.btree), con, c) && con.flag.RES_OR? && con.a < con.b
    modifies it, it.btree, it.btree.pool, it.btree.pool.objs, it.btree.data, it.btree.data.objs
    ensures it.btree == old(it.btree) && IsTable(it.btree) && it.Ready()
    ensures IsUpdated(old(Table(it.btree)), Table(it.btree), con, c, lost)
    ensures Afforded(Selected(old(Table(it.btree)), con), old(it.btree.data.spare), it.btree.data.spare, lost)
  {
    hide BTree.Valid, BTree.Contents, RowOK, Decoded, Phys, BTree.Readable, Table, IsUpdated, IsTable, Iterator.Ready,
      FitsWith, Selected, Afforded;
    ghost var m0, spare0 := Table(it.btree), it.btree.data.spare;
    it.Apart();
    lost := UpdateHigh(it, con.a, con.b, c);
    it.Apart();
    ghost var m1, spare1 := Table(it.btree), it.btree.data.spare;
    UpdatedKeys(m0, m1, Condition(con.a, con.b, RES_HI), c, lost);
    HighFits(m0, m1, con, c, lost);
    ghost var lost' := UpdateLow(it, con.b, None, c, Condition(con.b, con.b, RES_LO));
    BothUpdated(m0, m1, Table(it.btree), con, c, lost, lost');
    AffordedBoth(m0, m1, con, spare0, spare1, it.btree.data.spare, lost, lost');
    lost := lost + lost';
  }

  /** The rows the clause holds of are changed, but for those lost, and all others are as before. */
  ghost predicate IsClauseUpdated(m0: map<int, RowData>, m: map<int, RowData>, clause: Clause, c: Change,
          lost: set<int>) {
    && (forall k :: k in lost ==> k in m0 && clause.Holds(k))
    && m.Keys == m0.Keys - lost
    && forall k :: k in m ==> if clause.Holds(k) then Sets(m0[k], c, m[k]) else m[k] == m0[k]
  }

  /** What update leaves: a lookup of one id changes the first row from that id on, for an id
      apart from other ids, or for all ids, nothing is changed, and otherwise the rows the
      clause holds of are. */
  ghost predicate Revises(m0: map<int, RowData>, m: map<int, RowData>, clause: Clause, c: Change, lost: set<int>) {
    && (forall id :: LooksFor(clause, id) ==> IsFirstUpdated(m0, m, id, c, lost))
    && (Unlooked(clause) ==> m == m0 && lost == {})
    && (!IsLookup(clause) && !Unlooked(clause) ==> IsClauseUpdated(m0, m, clause, c, lost))
  }

  /** The rows the clause holds of, and the row that a lookup of one id comes to. */
  ghost predicate Reached(clause: Clause, m: map<int, RowData>, k: int) {
    k in m && (clause.Holds(k) || exists id :: LooksFor(clause, id) && IsLeast(m, id, k))
  }

  /** Every row that an update with the clause writes fits in a data block. */
  ghost predicate ReachedFit(clause: Clause, m: map<int, RowData>, c: Change) {
    !Unlooked(clause) ==> forall k :: Reached(clause, m, k) ==> FitsWith(m[k], c)
  }

  /** The change is none for the rows it comes to. */
  ghost predicate ChangesNone(clause: Clause, m: map<int, RowData>, c: Change, lost: set<int>) {
    forall k :: Reached(clause, m, k) ==> k !in lost && Sets(m[k], c, m[k])
  }

  /** update: the rows a where clause selects are changed, each once, and no others. */
  method Update(b: BTree<int>, clause: Clause, c: Change) returns (ghost lost: set<int>)
    requires IsTable(b) && ReachedFit(clause, Table(b), c)
    modifies b, b.pool, b.pool.objs, b.data, b.data.objs
    ensures IsTable(b) && Revises(old(Table(b)), Table(b), clause, c, lost)
    ensures IsClauseUpdated(old(Table(b)), Table(b), clause, c, lost) <==>
      IsServed(clause, old(Table(b))) || ChangesNone(clause, old(Table(b)), c, lost)
    ensures old(b.data.spare) >= |old(Table(b))| ==> lost == {}
  {
    hide BTree.Valid, BTree.Contents, RowOK, Table, Merge, FitsWith, IsClauseUpdated, IsServed, ChangesNone, Updates,
      Revises, RowsFit, ReachedFit;
    MergeBounds(clause);
    ghost var m0 := Table(b);
    FitMerged(clause, m0, c);
    lost := UpdateMerged(b, Merge(clause), c);
    UpdatesRevise(clause, m0, Table(b), c, lost);
    UpdateExact(clause, m0, Table(b), c, lost);
  }

  lemma FitMerged(clause: Clause, m: map<int, RowData>, c: Change)
    requires ReachedFit(clause, m, c)
    ensures Merge(clause).flag !in {RES_EQ_BOTH, RES_EQ_LO, RES_EQ_HI, RES_ALL} ==> RowsFit(m, Merge(clause), c)
  {
    hide Merge, LooksFor, Unlooked, Clause.Holds, FitsWith;
    var con := Merge(clause);
    MergeKind(clause);
    if !Unlooked(clause) {
      forall k | k in m && (if con.flag.RES_EQ_FIRST? then IsLeast(m, con.a, k) else con.Selects(k))
        ensures FitsWith(m[k], c)
      {
        if con.flag.RES_EQ_FIRST? {
          assert LooksFor(clause, con.a);
        } else {
          NoWrongArm(clause);
          SelectsHolds(clause);
        }
        assert Reached(clause, m, k);
      }
    }
  }

  lemma UpdatesRevise(clause: Clause, m0: map<int, RowData>, m: map<int, RowData>, c: Change, lost: set<int>)
    requires Updates(m0, m, Merge(clause), c, lost)
    ensures Revises(m0, m, clause, c, lost)
  {
    hide Merge, LooksFor, Unlooked, IsFirstUpdated, Clause.Holds, Sets;
    MergeKind(clause);
    if !IsLookup(clause) {
      assert !LooksFor(clause, Merge(clause).a);
      if !Unlooked(clause) {
        NoWrongArm(clause);
        SelectsHolds(clause);
      }
    }
  }

  /** update changes the rows the clause holds of and no others if and only if `IsServed` holds,
      or nothing is changed at all. */
  lemma UpdateExact(clause: Clause, m0: map<int, RowData>, m: map<int, RowData>, c: Change, lost: set<int>)
    requires Revises(m0, m, clause, c, lost)
    ensures IsClauseUpdated(m0, m, clause, c, lost) <==> IsServed(clause, m0) || ChangesNone(clause, m0, c, lost)
  {
    hide IsFirstUpdated, IsClauseUpdated, Clause.Holds, Comparison.Holds, Unlooked, Sets;
    if WrongArm(clause) {
      WrongArmHolds(clause, m0);
      FirstUpdatedExact(m0, m, clause.first.Bound(), clause, clause.second.number, c, lost);
      OnlyBound(clause);
    } else if Unlooked(clause) {
      NotBoth(clause);
      NoneUpdatedExact(m0, clause, c);
    } else if IsLookup(clause) {
      var id :| LooksFor(clause, id);
      assert clause.Holds(id) && forall x :: IsSingle(clause, x) ==> x == id;
      FirstUpdatedExact(m0, m, id, clause, id, c, lost);
    } else {
      assert forall x :: IsSingle(clause, x) ==> LooksFor(clause, x);
    }
  }

  lemma OnlyBound(clause: Clause)
    requires WrongArm(clause)
    ensures forall id :: LooksFor(clause, id) <==> id == clause.first.Bound()
  {
  }

  lemma NoneUpdatedExact(m: map<int, RowData>, clause: Clause, c: Change)
    ensures IsClauseUpdated(m, m, clause, c, {}) <==> forall k :: k in m && clause.Holds(k) ==> Sets(m[k], c, m[k])
  {
    hide Sets;
  }

  /** A clause that holds of one id, and a lookup for `a`. */
  lemma FirstUpdatedExact(m0: map<int, RowData>, m: map<int, RowData>, a: int, clause: Clause, x: int, c: Change,
          lost: set<int>)
    requires IsFirstUpdated(m0, m, a, c, lost)
    requires x <= a && forall id :: clause.Holds(id) <==> id == x
    ensures IsClauseUpdated(m0, m, clause, c, lost) <==>
      || (if clause.Holds(a) then a in m0 || forall k :: k in m0 ==> k < a
          else forall k :: k in m0 ==> k < a && !clause.Holds(k))
      || forall k :: k in m0 && (clause.Holds(k) || IsLeast(m0, a, k)) ==> k !in lost && Sets(m0[k], c, m0[k])
  {
    hide Sets, Clause.Holds;
    if forall k :: k in m0 ==> k < a {
      NoneUpdatedExact(m0, clause, c);
    } else {
      var id :| IsLeast(m0, a, id) && IsOneUpdated(m0, m, id, c, lost);
      assert forall k :: IsLeast(m0, a, k) <==> k == id;
      if x == id {
        OneUpdatedRight(m0, m, id, clause, c, lost);
      } else {
        OneUpdatedWrong(m0, m, id, clause, x, c, lost);
      }
    }
  }

  lemma OneUpdatedRight(m0: map<int, RowData>, m: map<int, RowData>, id: int, clause: Clause, c: Change, lost: set<int>)
    requires IsOneUpdated(m0, m, id, c, lost) && forall k :: clause.Holds(k) <==> k == id
    ensures IsClauseUpdated(m0, m, clause, c, lost)
  {
    hide Sets;
  }

  lemma OneUpdatedWrong(m0: map<int, RowData>, m: map<int, RowData>, id: int, clause: Clause, x: int, c: Change,
          lost: set<int>)
    requires IsOneUpdated(m0, m, id, c, lost) && id != x && forall k :: clause.Holds(k) <==> k == x
    ensures IsClauseUpdated(m0, m, clause, c, lost) <==>
      forall k :: k in m0 && (k == x || k == id) ==> k !in lost && Sets(m0[k], c, m0[k])
  {
    hide Sets;
    if IsClauseUpdated(m0, m, clause, c, lost) {
      assert id !in lost && id in m && m[id] == m0[id];
      assert x in m0 ==> x in m && Sets(m0[x], c, m[x]) && m[x] == m0[x];
    } else if id !in lost && Sets(m0[id], c, m0[id]) {
      SetsOnce(m0[id], c, m0[id], m[id]);
    }
  }

  lemma SetsOnce(t: RowData, c: Change, r: RowData, r': RowData)
    requires Sets(t, c, r) && Sets(t, c, r')
    ensures r == r'
  {
  }

  /** A table with row 5 only, and `id = 3`: update changes row 5, or loses it. */
  lemma UpdateExample(r: RowData, m: map<int, RowData>, c: Change, lost: set<int>)
    requires r.id == 5 && Revises(map[5 := r], m, One(Comparison(EQUAL, false, 3)), c, lost)
    ensures if lost == {} then m.Keys == {5} && Sets(r, c, m[5]) else m == map[]
  {
    hide Sets;
    assert LooksFor(One(Comparison(EQUAL, false, 3)), 3);
    assert 5 in map[5 := r];
  }

  // Tables and single rows

  /** initial: an empty table, with int keys and values of variable size. */
  method NewTable(spare: nat) returns (b: BTree<int>)
    ensures b.data.spare == spare
    ensures IsTable(b) && Table(b) == map[] && fresh(b) && fresh(b.pool.objs) && fresh(b.data.objs)
  {
    hide RowsOf, PayloadMap;
    IntOrder();
    Capacities();
    b := new BTree(4, (x: int, y: int) => x - y, 0xffff, spare);
    assert RowsOf(map[]) == map[] by { NoRows(); }
  }

  lemma IntOrder()
    ensures TotalOrder((x: int, y: int) => x - y)
  {
  }

  lemma Capacities()
    ensures NodeCapacity(4, LeafValueSize(0xffff)) == 369 && NodeCapacity(4, CHILD_SIZE) == 451
  {
  }

  lemma NoRows()
    ensures RowsOf(map[]) == map[]
  {
  }

  /** insert: 1 when the id was not in the table, 0 when it was. */
  method InsertRow(b: BTree<int>, data: RowData) returns (res: int)
    requires IsTable(b) && Fits(data)
    modifies b, b.pool, b.pool.objs, b.data, b.data.objs
    ensures IsTable(b) && (res == 0 || res == 1 || res == -1)
    ensures res == 0 <==> data.id in old(Table(b))
    ensures old(b.data.spare) > 0 ==> res == if data.id in old(Table(b)) then 0 else 1
    ensures b.data.spare <= old(b.data.spare) <= b.data.spare + 1
    ensures Table(b) == if res == 1 then old(Table(b))[data.id := Decoded(Encoded(data))] else old(Table(b))
    ensures res == 1 && Plain(data) ==> Table(b)[data.id] == data
  {
    hide BTree.Valid, BTree.Contents, BTree.Readable, RowOK, RowsOf, Encoded, Decoded, Plain, Phys, BTree.Snapshot,
      Runs.IsStep, BTree.PutDone, BTree.Kept, BTree.Grown, Present, Forms.SameForm;
    ghost var m := b.Contents();
    ValidTable(b);
    var e := Encode(data);
    TotalRead(data);
    ghost var w, n;
    assert e[..ReadU16(e[..], 0)] == e[..];
    res, w, n := b.Put(data.id, e[..ReadU16(e[..], 0)]);
    EncodedOK(data);
    RowsWith(m, m[data.id := Encoded(data)], data.id, Encoded(data));
    RoundTrip(data, Encoded(data));
  }
}
