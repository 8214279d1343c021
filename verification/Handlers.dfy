/** The table handler: a primary tree of rows and one secondary tree that all other
    indexes share, kept in step: ha_example.cc. */
module Handlers {
  import opened Slots
  import opened Blocks
  import opened Trees
  import opened BTrees
  import opened Iterators
  import opened SecKeys
  import Forms
  import Pool
  import Runs
  import Scans

  /** A row: its primary key, its keys in the other indexes, and the bytes it is packed in. */
  datatype Row<F> = Row(pk: seq<F>, secs: seq<seq<F>>, packed: seq<Byte>)

  datatype Error = HA_OK | HA_ERR_FOUND_DUPP_KEY | HA_ERR_INTERNAL_ERROR | HA_ERR_KEY_NOT_FOUND | HA_ERR_WRONG_COMMAND
    | HA_ERR_END_OF_FILE

  /** `k` is the secondary entry of one of the rows, in one of the indexes 1 to `keys` - 1. */
  ghost predicate IsImage<F>(rows: map<seq<F>, Row<F>>, keys: nat, k: SecKey<F>) {
    k.pk in rows && 1 <= k.idx < keys && k.idx <= |rows[k.pk].secs| && rows[k.pk].secs[k.idx - 1] == k.sec
  }

  /** The secondary entries are exactly the images of the rows. */
  ghost predicate Agree<F(!new)>(rows: map<seq<F>, Row<F>>, keys: nat, entries: set<SecKey<F>>) {
    forall k :: k in entries <==> IsImage(rows, keys, k)
  }

  /** pack_key for index `idx`. */
  function PackKey<F>(row: Row<F>, idx: nat): SecKey<F>
    requires 1 <= idx <= |row.secs|
  {
    SecKey(idx, row.secs[idx - 1], row.pk)
  }

  ghost predicate RowsOK<F>(rows: map<seq<F>, Row<F>>, keys: nat) {
    forall pk :: pk in rows ==> rows[pk].pk == pk && |rows[pk].secs| == keys - 1
  }

  ghost function PackedRows<F>(rows: map<seq<F>, Row<F>>): map<seq<F>, seq<Byte>> {
    map pk | pk in rows :: rows[pk].packed
  }

  /** While a row is written: the entries of the rows before, and those of the new row in the
      indexes below `idx`. */
  ghost predicate Indexed<F(!new)>(rows: map<seq<F>, Row<F>>, keys: nat, row: Row<F>, idx: nat,
          entries: set<SecKey<F>>) {
    forall k :: k in entries <==>
      IsImage(rows, keys, k) || (k.pk == row.pk && 1 <= k.idx < idx && k.idx <= |row.secs| &&
        k.sec == row.secs[k.idx - 1])
  }

  lemma IndexedStart<F(!new)>(rows: map<seq<F>, Row<F>>, keys: nat, row: Row<F>, entries: set<SecKey<F>>)
    requires Agree(rows, keys, entries)
    ensures Indexed(rows, keys, row, 1, entries)
  {
  }

  lemma IndexedNext<F(!new)>(rows: map<seq<F>, Row<F>>, keys: nat, row: Row<F>, idx: nat, entries: set<SecKey<F>>)
    requires Indexed(rows, keys, row, idx, entries) && row.pk !in rows && 1 <= idx <= |row.secs|
    ensures PackKey(row, idx) !in entries && Indexed(rows, keys, row, idx + 1, entries + {PackKey(row, idx)})
  {
    forall k ensures k in entries + {PackKey(row, idx)} <==>
      IsImage(rows, keys, k) || (k.pk == row.pk && 1 <= k.idx < idx + 1 && k.idx <= |row.secs| &&
        k.sec == row.secs[k.idx - 1])
    {
      assert k == PackKey(row, idx) <==> k.pk == row.pk && k.idx == idx && k.sec == row.secs[idx - 1];
    }
  }

  lemma IndexedAll<F(!new)>(rows: map<seq<F>, Row<F>>, keys: nat, row: Row<F>, entries: set<SecKey<F>>)
    requires Indexed(rows, keys, row, keys, entries) && row.pk !in rows && |row.secs| == keys - 1
    ensures Agree(rows[row.pk := row], keys, entries)
  {
  }

  /** While a row is deleted: its entries in the indexes below `idx` are gone. */
  ghost predicate Erased<F(!new)>(rows: map<seq<F>, Row<F>>, keys: nat, pk: seq<F>, idx: nat, entries: set<SecKey<F>>) {
    forall k :: k in entries <==> IsImage(rows, keys, k) && !(k.pk == pk && k.idx < idx)
  }

  lemma ErasedStart<F(!new)>(rows: map<seq<F>, Row<F>>, keys: nat, pk: seq<F>, entries: set<SecKey<F>>)
    requires Agree(rows, keys, entries)
    ensures Erased(rows, keys, pk, 1, entries)
  {
  }

  lemma ErasedNext<F(!new)>(rows: map<seq<F>, Row<F>>, keys: nat, row: Row<F>, idx: nat, entries: set<SecKey<F>>)
    requires Erased(rows, keys, row.pk, idx, entries) && row.pk in rows && rows[row.pk].secs == row.secs
    requires 1 <= idx < keys && |row.secs| == keys - 1
    ensures PackKey(row, idx) in entries && Erased(rows, keys, row.pk, idx + 1, entries - {PackKey(row, idx)})
  {
    forall k ensures k in entries - {PackKey(row, idx)} <==>
      IsImage(rows, keys, k) && !(k.pk == row.pk && k.idx < idx + 1) {
      assert k in entries && k.pk == row.pk && k.idx == idx ==> k == PackKey(row, idx);
    }
  }

  lemma ErasedAll<F(!new)>(rows: map<seq<F>, Row<F>>, keys: nat, pk: seq<F>, entries: set<SecKey<F>>)
    requires Erased(rows, keys, pk, keys, entries)
    ensures Agree(rows - {pk}, keys, entries)
  {
  }

  // Lookups

  datatype FindFlag =
    | HA_READ_KEY_EXACT | HA_READ_KEY_OR_NEXT | HA_READ_KEY_OR_PREV | HA_READ_AFTER_KEY | HA_READ_BEFORE_KEY
    | HA_READ_PREFIX_LAST_OR_PREV | HA_READ_OTHER

  /** How index_read looks up a key of the primary index. */
  function PrimaryFlag(flag: FindFlag): IterFlag
    requires !flag.HA_READ_OTHER?
  {
    match flag
    case HA_READ_KEY_EXACT => EXACT_KEY
    case HA_READ_KEY_OR_NEXT => KEY_OR_NEXT
    case HA_READ_KEY_OR_PREV => KEY_OR_PREV
    case HA_READ_AFTER_KEY => AFTER_KEY
    case HA_READ_BEFORE_KEY => BEFORE_KEY
    case HA_READ_PREFIX_LAST_OR_PREV => KEY_OR_PREV
  }

  /** How it looks up a key of a secondary index, and with which flag bit. */
  function SecondaryFlag(flag: FindFlag): IterFlag
    requires !flag.HA_READ_OTHER?
  {
    if flag.HA_READ_KEY_EXACT? then KEY_OR_NEXT else PrimaryFlag(flag)
  }

  function SecondaryEdge(flag: FindFlag): Edge {
    if flag.HA_READ_PREFIX_LAST_OR_PREV? then AFTER_ALL else BEFORE_ALL
  }

  /** Some row has `key` in index `idx`. */
  ghost predicate HasKey<F(!new)>(rows: map<seq<F>, Row<F>>, idx: nat, key: seq<F>) {
    exists pk :: pk in rows && RowHasKey(rows, idx, key, pk)
  }

  ghost predicate RowHasKey<F>(rows: map<seq<F>, Row<F>>, idx: nat, key: seq<F>, pk: seq<F>) {
    pk in rows && 1 <= idx <= |rows[pk].secs| && rows[pk].secs[idx - 1] == key
  }

  /** The row with `key` in index `idx` that has the least primary key. */
  ghost predicate IsFirstRow<F(!new)>(fcmp: (nat, nat, F, F) -> int, rows: map<seq<F>, Row<F>>, idx: nat, key: seq<F>,
          pk: seq<F>) {
    && RowHasKey(rows, idx, key, pk)
    && forall pk' :: RowHasKey(rows, idx, key, pk') && pk' != pk ==> PrimaryOrder(fcmp)(pk, pk') < 0
  }

  /** A lookup to the right of a key flagged 0x80 accepts every entry with that key. */
  lemma {:induction false} KeyIsWanted<F(!new)>(fcmp: (nat, nat, F, F) -> int, rows: map<seq<F>, Row<F>>, keys: nat,
          entries: set<SecKey<F>>, idx: nat, key: seq<F>, flag: IterFlag, pk: seq<F>)
    requires FieldOrder(fcmp) && Agree(rows, keys, entries) && 1 <= idx < keys && (flag.KEY_OR_NEXT? || flag.AFTER_KEY?)
    requires RowHasKey(rows, idx, key, pk)
    ensures SecKey(idx, key, pk) in entries && Wanted(flag, EdgeProbe(fcmp, idx, key, BEFORE_ALL)(SecKey(idx, key, pk)))
  {
    hide Lex, FieldOrder;
    LexEqual(fcmp, idx, 0, key, key);
    assert IsImage(rows, keys, SecKey(idx, key, pk));
  }

  /** What a lookup with the 0x80 flag says about the rows with that very key. */
  lemma {:induction false} FirstOfKey<F(!new)>(fcmp: (nat, nat, F, F) -> int, rows: map<seq<F>, Row<F>>, keys: nat,
          entries: set<SecKey<F>>, idx: nat, key: seq<F>, flag: IterFlag, k: SecKey<F>)
    requires FieldOrder(fcmp) && Agree(rows, keys, entries) && 1 <= idx < keys && (flag.KEY_OR_NEXT? || flag.AFTER_KEY?)
    requires Nearest(SecOrder(fcmp), flag, EdgeProbe(fcmp, idx, key, BEFORE_ALL), entries, k)
    ensures (k.idx == idx && k.sec == key) <==> HasKey(rows, idx, key)
    ensures HasKey(rows, idx, key) ==> IsFirstRow(fcmp, rows, idx, key, k.pk)
  {
    hide Lex, FieldOrder;
    forall pk | RowHasKey(rows, idx, key, pk)
      ensures k.idx == idx && k.sec == key
      ensures pk != k.pk ==> PrimaryOrder(fcmp)(k.pk, pk) < 0
    {
      KeyIsWanted(fcmp, rows, keys, entries, idx, key, flag, pk);
      LexEqual(fcmp, idx, 0, k.sec, key);
      LexEqual(fcmp, idx, 0, key, key);
    }
    if k.idx == idx && k.sec == key {
      assert IsImage(rows, keys, k) && RowHasKey(rows, idx, key, k.pk);
    }
  }

  lemma {:induction false} NoneOfKey<F(!new)>(fcmp: (nat, nat, F, F) -> int, rows: map<seq<F>, Row<F>>, keys: nat,
          entries: set<SecKey<F>>, idx: nat, key: seq<F>, flag: IterFlag)
    requires FieldOrder(fcmp) && Agree(rows, keys, entries) && 1 <= idx < keys && (flag.KEY_OR_NEXT? || flag.AFTER_KEY?)
    requires forall k :: k in entries ==> !Wanted(flag, EdgeProbe(fcmp, idx, key, BEFORE_ALL)(k))
    ensures !HasKey(rows, idx, key)
  {
    if HasKey(rows, idx, key) {
      var pk :| pk in rows && RowHasKey(rows, idx, key, pk);
      KeyIsWanted(fcmp, rows, keys, entries, idx, key, flag, pk);
    }
  }

  // What index_read finds in a secondary index, and what it should find

  /** The entry found in the tree that all secondary indexes share. */
  ghost predicate Sought<F(!new)>(fcmp: (nat, nat, F, F) -> int, entries: set<SecKey<F>>, idx: nat, key: seq<F>,
          flag: FindFlag, found: bool, k: SecKey<F>)
    requires !flag.HA_READ_OTHER?
  {
    var p := EdgeProbe(fcmp, idx, key, SecondaryEdge(flag));
    if found then Nearest(SecOrder(fcmp), SecondaryFlag(flag), p, entries, k)
    else forall k' :: k' in entries ==> !Wanted(SecondaryFlag(flag), p(k'))
  }

  predicate IsLeft(flag: FindFlag) {
    flag.HA_READ_KEY_OR_PREV? || flag.HA_READ_BEFORE_KEY? || flag.HA_READ_PREFIX_LAST_OR_PREV?
  }

  /** Row `pk` has `sec` in index `idx`, which is one of the keys asked for. */
  ghost predicate AskedFor<F>(fcmp: (nat, nat, F, F) -> int, rows: map<seq<F>, Row<F>>, idx: nat, key: seq<F>,
          flag: FindFlag, sec: seq<F>, pk: seq<F>)
    requires !flag.HA_READ_OTHER?
  {
    RowHasKey(rows, idx, sec, pk) && Wanted(PrimaryFlag(flag), Lex(fcmp, idx, 0, sec, key))
  }

  /** The answer that index `idx` should give: of the rows asked for the one with the nearest key,
      then with the least primary key for a lookup to the right and the greatest to the left; or
      none, exactly when there is none. */
  ghost predicate IsAnswer<F(!new)>(fcmp: (nat, nat, F, F) -> int, rows: map<seq<F>, Row<F>>, idx: nat, key: seq<F>,
          flag: FindFlag, found: bool, k: SecKey<F>)
    requires !flag.HA_READ_OTHER?
  {
    if found then
      && k.idx == idx && AskedFor(fcmp, rows, idx, key, flag, k.sec, k.pk)
      && forall sec, pk :: AskedFor(fcmp, rows, idx, key, flag, sec, pk) && SecKey(idx, sec, pk) != k ==>
           if IsLeft(flag) then SecCompare(fcmp, SecKey(idx, sec, pk), k) < 0
             else SecCompare(fcmp, k, SecKey(idx, sec, pk)) < 0
    else
      forall sec, pk :: !AskedFor(fcmp, rows, idx, key, flag, sec, pk)
  }

  ghost predicate SomeAskedFor<F(!new)>(fcmp: (nat, nat, F, F) -> int, rows: map<seq<F>, Row<F>>, idx: nat, key: seq<F>,
          flag: FindFlag)
    requires !flag.HA_READ_OTHER?
  {
    exists sec, pk :: AskedFor(fcmp, rows, idx, key, flag, sec, pk)
  }

  /** When index_read gives that answer.  The search key is flagged 0x80, that is it stands before
      all entries with the key, so HA_READ_AFTER_KEY and HA_READ_KEY_OR_PREV come out on the wrong
      side if there are such entries; and a search that finds nothing in its own index runs into
      the next one, or the one before. */
  ghost predicate IsRight<F(!new)>(fcmp: (nat, nat, F, F) -> int, rows: map<seq<F>, Row<F>>, keys: nat, idx: nat,
          key: seq<F>, flag: FindFlag)
    requires !flag.HA_READ_OTHER?
  {
    match flag
    case HA_READ_KEY_EXACT => true
    case HA_READ_KEY_OR_NEXT => idx + 1 == keys || rows == map[] || SomeAskedFor(fcmp, rows, idx, key, flag)
    case HA_READ_AFTER_KEY =>
      !HasKey(rows, idx, key) && (idx + 1 == keys || rows == map[] || SomeAskedFor(fcmp, rows, idx, key, flag))
    case HA_READ_KEY_OR_PREV =>
      !HasKey(rows, idx, key) && (idx == 1 || rows == map[] || SomeAskedFor(fcmp, rows, idx, key, flag))
    case HA_READ_BEFORE_KEY => idx == 1 || rows == map[] || SomeAskedFor(fcmp, rows, idx, key, flag)
    case HA_READ_PREFIX_LAST_OR_PREV => idx == 1 || rows == map[] || SomeAskedFor(fcmp, rows, idx, key, flag)
  }

  /** Which entries of the shared tree the search accepts. */
  ghost predicate Accepts<F>(fcmp: (nat, nat, F, F) -> int, idx: nat, key: seq<F>, flag: FindFlag, e: SecKey<F>) {
    if IsLeft(flag) then
      e.idx < idx || (e.idx == idx &&
        if flag.HA_READ_PREFIX_LAST_OR_PREV? then Lex(fcmp, idx, 0, e.sec, key) <= 0
          else Lex(fcmp, idx, 0, e.sec, key) < 0)
    else e.idx > idx || (e.idx == idx && Lex(fcmp, idx, 0, e.sec, key) >= 0)
  }

  lemma SoughtMeans<F(!new)>(fcmp: (nat, nat, F, F) -> int, entries: set<SecKey<F>>, idx: nat, key: seq<F>,
          flag: FindFlag, found: bool, k: SecKey<F>)
    requires !flag.HA_READ_OTHER? && Sought(fcmp, entries, idx, key, flag, found, k)
    ensures found ==> k in entries && Accepts(fcmp, idx, key, flag, k)
    ensures found ==> forall e :: e in entries && Accepts(fcmp, idx, key, flag, e) && e != k ==>
      if IsLeft(flag) then SecCompare(fcmp, e, k) < 0 else SecCompare(fcmp, k, e) < 0
    ensures !found ==> forall e :: e in entries ==> !Accepts(fcmp, idx, key, flag, e)
  {
    hide Lex, SecCompare;
    forall e ensures Accepts(fcmp, idx, key, flag, e) <==>
      Wanted(SecondaryFlag(flag), EdgeProbe(fcmp, idx, key, SecondaryEdge(flag))(e))
    {
    }
  }

  /** Each row has an entry in each index. */
  lemma EntryOf<F(!new)>(rows: map<seq<F>, Row<F>>, keys: nat, entries: set<SecKey<F>>, pk: seq<F>, idx: nat)
    requires RowsOK(rows, keys) && Agree(rows, keys, entries) && pk in rows && 1 <= idx < keys
    ensures SecKey(idx, rows[pk].secs[idx - 1], pk) in entries && RowHasKey(rows, idx, rows[pk].secs[idx - 1], pk)
  {
    assert IsImage(rows, keys, SecKey(idx, rows[pk].secs[idx - 1], pk));
  }

  lemma EntryIff<F(!new)>(rows: map<seq<F>, Row<F>>, keys: nat, entries: set<SecKey<F>>, e: SecKey<F>)
    requires Agree(rows, keys, entries)
    ensures e in entries ==> e.idx < keys && 1 <= e.idx && rows != map[]
    ensures 1 <= e.idx < keys ==> (e in entries <==> RowHasKey(rows, e.idx, e.sec, e.pk))
  {
    assert e in entries <==> IsImage(rows, keys, e);
  }

  /** A row asked for is accepted, unless it has the very key and that is on the wrong side. */
  lemma AskedIsAccepted<F(!new)>(fcmp: (nat, nat, F, F) -> int, rows: map<seq<F>, Row<F>>, keys: nat,
          entries: set<SecKey<F>>, idx: nat, key: seq<F>, flag: FindFlag, sec: seq<F>, pk: seq<F>)
    requires FieldOrder(fcmp) && Agree(rows, keys, entries) && 1 <= idx < keys && !flag.HA_READ_OTHER?
    requires AskedFor(fcmp, rows, idx, key, flag, sec, pk) && (flag.HA_READ_KEY_OR_PREV? ==> sec != key)
    ensures SecKey(idx, sec, pk) in entries && Accepts(fcmp, idx, key, flag, SecKey(idx, sec, pk))
  {
    hide Lex, FieldOrder;
    EntryIff(rows, keys, entries, SecKey(idx, sec, pk));
    LexEqual(fcmp, idx, 0, sec, key);
  }

  /** And an entry of the index that is accepted is asked for, with the same exception. */
  lemma AcceptedIsAsked<F(!new)>(fcmp: (nat, nat, F, F) -> int, rows: map<seq<F>, Row<F>>, keys: nat,
          entries: set<SecKey<F>>, idx: nat, key: seq<F>, flag: FindFlag, e: SecKey<F>)
    requires FieldOrder(fcmp) && Agree(rows, keys, entries) && 1 <= idx < keys
    requires !flag.HA_READ_OTHER? && !flag.HA_READ_KEY_EXACT?
    requires e in entries && e.idx == idx && Accepts(fcmp, idx, key, flag, e)
    requires (flag.HA_READ_AFTER_KEY? ==> e.sec != key)
    ensures AskedFor(fcmp, rows, idx, key, flag, e.sec, e.pk)
  {
    hide Lex, FieldOrder;
    EntryIff(rows, keys, entries, e);
    LexEqual(fcmp, idx, 0, e.sec, key);
  }

  /** An entry with the very key makes a lookup after or before it go wrong. */
  lemma KeyIsWrong<F(!new)>(fcmp: (nat, nat, F, F) -> int, rows: map<seq<F>, Row<F>>, keys: nat,
          entries: set<SecKey<F>>, idx: nat, key: seq<F>, flag: FindFlag, found: bool, k: SecKey<F>)
    requires FieldOrder(fcmp) && Agree(rows, keys, entries) && 1 <= idx < keys && HasKey(rows, idx, key)
    requires (flag.HA_READ_AFTER_KEY? || flag.HA_READ_KEY_OR_PREV?) && Sought(fcmp, entries, idx, key, flag, found, k)
    ensures !IsAnswer(fcmp, rows, idx, key, flag, found, k)
  {
    hide Lex, FieldOrder, Sought;
    SoughtMeans(fcmp, entries, idx, key, flag, found, k);
    var pk :| pk in rows && RowHasKey(rows, idx, key, pk);
    var e := SecKey(idx, key, pk);
    EntryIff(rows, keys, entries, e);
    LexEqual(fcmp, idx, 0, key, key);
    if flag.HA_READ_KEY_OR_PREV? {
      assert AskedFor(fcmp, rows, idx, key, flag, key, pk);
      if found && k.idx == idx {
        LexFlip(fcmp, idx, 0, k.sec, key);
        assert e != k && SecCompare(fcmp, e, k) > 0;
      }
    } else {
      assert Accepts(fcmp, idx, key, flag, e);
      assert found;
      if k.idx == idx && k.sec != key {
        LexEqual(fcmp, idx, 0, k.sec, key);
      }
    }
  }

  /** The search left its index, although the index has an entry it accepts: impossible. */
  lemma StaysInIndex<F(!new)>(fcmp: (nat, nat, F, F) -> int, rows: map<seq<F>, Row<F>>, keys: nat,
          entries: set<SecKey<F>>, idx: nat, key: seq<F>, flag: FindFlag, found: bool, k: SecKey<F>)
    requires FieldOrder(fcmp) && Agree(rows, keys, entries) && 1 <= idx < keys
    requires !flag.HA_READ_OTHER? && !flag.HA_READ_KEY_EXACT? && Sought(fcmp, entries, idx, key, flag, found, k)
    requires IsRight(fcmp, rows, keys, idx, key, flag)
    ensures found ==> k.idx == idx
  {
    hide Lex, FieldOrder, Sought;
    SoughtMeans(fcmp, entries, idx, key, flag, found, k);
    if found && k.idx != idx {
      EntryIff(rows, keys, entries, k);
      assert SomeAskedFor(fcmp, rows, idx, key, flag);
      var sec, pk :| AskedFor(fcmp, rows, idx, key, flag, sec, pk);
      AskedIsAccepted(fcmp, rows, keys, entries, idx, key, flag, sec, pk);
    }
  }

  lemma RightIsAnswer<F(!new)>(fcmp: (nat, nat, F, F) -> int, rows: map<seq<F>, Row<F>>, keys: nat,
          entries: set<SecKey<F>>, idx: nat, key: seq<F>, flag: FindFlag, found: bool, k: SecKey<F>)
    requires FieldOrder(fcmp) && Agree(rows, keys, entries) && 1 <= idx < keys
    requires !flag.HA_READ_OTHER? && !flag.HA_READ_KEY_EXACT? && Sought(fcmp, entries, idx, key, flag, found, k)
    requires IsRight(fcmp, rows, keys, idx, key, flag)
    ensures IsAnswer(fcmp, rows, idx, key, flag, found, k)
  {
    hide Lex, FieldOrder, Sought, AskedFor, Accepts, Wanted, SecCompare;
    SoughtMeans(fcmp, entries, idx, key, flag, found, k);
    StaysInIndex(fcmp, rows, keys, entries, idx, key, flag, found, k);
    forall sec, pk | AskedFor(fcmp, rows, idx, key, flag, sec, pk)
      ensures SecKey(idx, sec, pk) in entries && Accepts(fcmp, idx, key, flag, SecKey(idx, sec, pk))
    {
      AskedNotKey(fcmp, rows, keys, idx, key, flag, sec, pk);
      AskedIsAccepted(fcmp, rows, keys, entries, idx, key, flag, sec, pk);
    }
    if found {
      EntryIff(rows, keys, entries, k);
      AcceptedIsAsked(fcmp, rows, keys, entries, idx, key, flag, k);
    }
  }

  lemma AskedNotKey<F(!new)>(fcmp: (nat, nat, F, F) -> int, rows: map<seq<F>, Row<F>>, keys: nat,
          idx: nat, key: seq<F>, flag: FindFlag, sec: seq<F>, pk: seq<F>)
    requires !flag.HA_READ_OTHER? && IsRight(fcmp, rows, keys, idx, key, flag)
    requires AskedFor(fcmp, rows, idx, key, flag, sec, pk)
    ensures flag.HA_READ_KEY_OR_PREV? ==> sec != key
  {
    hide Lex;
  }

  lemma AnswerIsRight<F(!new)>(fcmp: (nat, nat, F, F) -> int, rows: map<seq<F>, Row<F>>, keys: nat,
          entries: set<SecKey<F>>, idx: nat, key: seq<F>, flag: FindFlag, found: bool, k: SecKey<F>)
    requires FieldOrder(fcmp) && RowsOK(rows, keys) && Agree(rows, keys, entries) && 1 <= idx < keys
    requires !flag.HA_READ_OTHER? && !flag.HA_READ_KEY_EXACT? && Sought(fcmp, entries, idx, key, flag, found, k)
    requires IsAnswer(fcmp, rows, idx, key, flag, found, k)
    ensures IsRight(fcmp, rows, keys, idx, key, flag)
  {
    hide Lex, FieldOrder, Sought, AskedFor, SecCompare, HasKey;
    SoughtMeans(fcmp, entries, idx, key, flag, found, k);
    if (flag.HA_READ_AFTER_KEY? || flag.HA_READ_KEY_OR_PREV?) && HasKey(rows, idx, key) {
      KeyIsWrong(fcmp, rows, keys, entries, idx, key, flag, found, k);
    }
    if found {
      assert AskedFor(fcmp, rows, idx, key, flag, k.sec, k.pk);
    } else if rows != map[] {
      var pk :| pk in rows;
      if IsLeft(flag) && idx > 1 {
        EntryOf(rows, keys, entries, pk, idx - 1);
        assert false;
      } else if !IsLeft(flag) && idx + 1 < keys {
        EntryOf(rows, keys, entries, pk, idx + 1);
        assert false;
      }
    }
  }

  /** index_read on a secondary index gives the right answer if and only if `IsRight` holds. */
  lemma {:induction false} ReadExact<F(!new)>(fcmp: (nat, nat, F, F) -> int, rows: map<seq<F>, Row<F>>, keys: nat,
          entries: set<SecKey<F>>, idx: nat, key: seq<F>, flag: FindFlag, found: bool, k: SecKey<F>)
    requires FieldOrder(fcmp) && RowsOK(rows, keys) && Agree(rows, keys, entries) && 1 <= idx < keys
    requires !flag.HA_READ_OTHER? && !flag.HA_READ_KEY_EXACT? && Sought(fcmp, entries, idx, key, flag, found, k)
    ensures IsAnswer(fcmp, rows, idx, key, flag, found, k) <==> IsRight(fcmp, rows, keys, idx, key, flag)
  {
    hide FieldOrder, Sought, IsAnswer, IsRight, Agree, RowsOK;
    if IsRight(fcmp, rows, keys, idx, key, flag) {
      RightIsAnswer(fcmp, rows, keys, entries, idx, key, flag, found, k);
    }
    if IsAnswer(fcmp, rows, idx, key, flag, found, k) {
      AnswerIsRight(fcmp, rows, keys, entries, idx, key, flag, found, k);
    }
  }

  lemma ExactAnswer<F(!new)>(fcmp: (nat, nat, F, F) -> int, rows: map<seq<F>, Row<F>>, idx: nat, key: seq<F>,
          found: bool, k: SecKey<F>)
    requires FieldOrder(fcmp) && (found <==> HasKey(rows, idx, key))
    requires found ==> k.idx == idx && k.sec == key && IsFirstRow(fcmp, rows, idx, key, k.pk)
    ensures IsAnswer(fcmp, rows, idx, key, HA_READ_KEY_EXACT, found, k)
  {
    hide Lex, FieldOrder;
    forall sec, pk | AskedFor(fcmp, rows, idx, key, HA_READ_KEY_EXACT, sec, pk)
      ensures found && sec == key && (SecKey(idx, sec, pk) != k ==> SecCompare(fcmp, k, SecKey(idx, sec, pk)) < 0)
    {
      LexEqual(fcmp, idx, 0, sec, key);
      LexEqual(fcmp, idx, 0, key, key);
    }
    LexEqual(fcmp, idx, 0, key, key);
  }

  // Inputs for which it does not: one row, and keys of one number each

  function NumberOrder(): (nat, nat, int, int) -> int {
    (n: nat, i: nat, x: int, y: int) => x - y
  }

  function OneRow(secs: seq<seq<int>>): map<seq<int>, Row<int>> {
    map[[0] := Row([0], secs, [])]
  }

  /** HA_READ_AFTER_KEY for [9] in index 1 runs on into index 2, and finds the row, whose key in
      index 1 is less; no row has the key [9]. */
  lemma AfterRunsOn(entries: set<SecKey<int>>)
    requires Agree(OneRow([[5], [1]]), 3, entries)
    ensures Sought(NumberOrder(), entries, 1, [9], HA_READ_AFTER_KEY, true, SecKey(2, [1], [0]))
    ensures !HasKey(OneRow([[5], [1]]), 1, [9])
    ensures !IsAnswer(NumberOrder(), OneRow([[5], [1]]), 1, [9], HA_READ_AFTER_KEY, true, SecKey(2, [1], [0]))
  {
    TwoEntries([5], [1], entries);
  }

  /** HA_READ_KEY_OR_PREV for [5] in index 2 runs back into index 1. */
  lemma PrevRunsBack(entries: set<SecKey<int>>)
    requires Agree(OneRow([[9], [7]]), 3, entries)
    ensures Sought(NumberOrder(), entries, 2, [5], HA_READ_KEY_OR_PREV, true, SecKey(1, [9], [0]))
    ensures !HasKey(OneRow([[9], [7]]), 2, [5])
    ensures !IsAnswer(NumberOrder(), OneRow([[9], [7]]), 2, [5], HA_READ_KEY_OR_PREV, true, SecKey(1, [9], [0]))
  {
    TwoEntries([9], [7], entries);
  }

  lemma TwoEntries(a: seq<int>, b: seq<int>, entries: set<SecKey<int>>)
    requires Agree(OneRow([a, b]), 3, entries)
    ensures forall k :: k in entries <==> k == SecKey(1, a, [0]) || k == SecKey(2, b, [0])
  {
    forall k ensures k in entries <==> k == SecKey(1, a, [0]) || k == SecKey(2, b, [0]) {
      assert k in entries <==> IsImage(OneRow([a, b]), 3, k);
    }
  }

  /** HA_READ_KEY_OR_PREV does not find the one row, which has the very key. */
  lemma PrevMissesKey(entries: set<SecKey<int>>, k: SecKey<int>)
    requires Agree(OneRow([[5]]), 2, entries)
    ensures Sought(NumberOrder(), entries, 1, [5], HA_READ_KEY_OR_PREV, false, k)
    ensures HasKey(OneRow([[5]]), 1, [5])
    ensures !IsAnswer(NumberOrder(), OneRow([[5]]), 1, [5], HA_READ_KEY_OR_PREV, false, k)
  {
    assert RowHasKey(OneRow([[5]]), 1, [5], [0]);
    assert AskedFor(NumberOrder(), OneRow([[5]]), 1, [5], HA_READ_KEY_OR_PREV, [5], [0]);
    forall e | e in entries ensures e == SecKey(1, [5], [0]) {
      assert IsImage(OneRow([[5]]), 2, e);
    }
  }

  /** The next row by the parts of the primary keys: of the rows after `last` the one whose key
      has the lesser value in the first part that differs. */
  lemma NextMeans<F(!new)>(fcmp: (nat, nat, F, F) -> int, keys: set<seq<F>>, last: Option<seq<F>>, pk: seq<F>)
    requires FieldOrder(fcmp)
    ensures IsNext(PrimaryOrder(fcmp), keys, last, pk) <==>
      && pk in keys && (last.Some? ==> KeyBefore(fcmp, 0, last.value, pk))
      && forall k :: k in keys && k != pk && (last.Some? ==> KeyBefore(fcmp, 0, last.value, k)) ==>
           KeyBefore(fcmp, 0, pk, k)
  {
    hide FieldOrder, Lex, KeyBefore;
    forall a, b ensures PrimaryOrder(fcmp)(a, b) < 0 <==> KeyBefore(fcmp, 0, a, b) {
      LexFirst(fcmp, 0, a, b);
    }
  }

  lemma TwoPartsCompare()
    ensures var cmp := PrimaryOrder(NumberOrder());
      && cmp([1, 9], [2, 1]) < 0 < cmp([2, 1], [1, 9])
      && cmp([1, 9], [1, 9]) == 0 == cmp([2, 1], [2, 1])
  {
    LexEqual(NumberOrder(), 0, 0, [1, 9], [1, 9]);
    LexEqual(NumberOrder(), 0, 0, [2, 1], [2, 1]);
  }

  /** Two rows with primary keys of two parts: [1, 9] comes first, and after it, also for
      HA_READ_AFTER_KEY, [2, 1]. */
  lemma TwoParts(pk: seq<int>)
    ensures var cmp, pks := PrimaryOrder(NumberOrder()), {[1, 9], [2, 1]};
      && (IsNext(cmp, pks, None, pk) <==> pk == [1, 9])
      && (IsNext(cmp, pks, Some([1, 9]), pk) <==> pk == [2, 1])
      && (Nearest(cmp, AFTER_KEY, At(cmp, [1, 9]), pks, pk) <==> pk == [2, 1])
  {
    hide PrimaryOrder, Lex;
    TwoPartsCompare();
    var a, b := [1, 9], [2, 1];
    assert a in {a, b} && b in {a, b} && a != b;
  }

  // Moving on in a secondary index

  ghost function OfIndex<F>(entries: set<SecKey<F>>, idx: nat): set<SecKey<F>> {
    set e | e in entries && e.idx == idx
  }

  /** The entry that first or next came to, if any. */
  ghost predicate MovedOn<F(!new)>(fcmp: (nat, nat, F, F) -> int, entries: set<SecKey<F>>, last: Option<SecKey<F>>,
          found: bool, k: SecKey<F>) {
    if found then IsNext(SecOrder(fcmp), entries, last, k) else NoNext(SecOrder(fcmp), entries, last)
  }

  ghost predicate MovedBack<F(!new)>(fcmp: (nat, nat, F, F) -> int, entries: set<SecKey<F>>, last: Option<SecKey<F>>,
          found: bool, k: SecKey<F>) {
    if found then IsPrev(SecOrder(fcmp), entries, last, k) else NoPrev(SecOrder(fcmp), entries, last)
  }

  /** When first and next stay in index `idx`: it comes first of all, or the last of all, or has
      an entry after `last`. */
  ghost predicate StaysOn<F(!new)>(fcmp: (nat, nat, F, F) -> int, rows: map<seq<F>, Row<F>>, keys: nat, idx: nat,
          last: Option<SecKey<F>>) {
    rows == map[] ||
    match last
    case None => idx == 1
    case Some(l) =>
      || idx + 1 == keys
      || exists sec, pk :: RowHasKey(rows, idx, sec, pk) && SecCompare(fcmp, l, SecKey(idx, sec, pk)) < 0
  }

  ghost predicate StaysBack<F(!new)>(fcmp: (nat, nat, F, F) -> int, rows: map<seq<F>, Row<F>>, keys: nat, idx: nat,
          last: Option<SecKey<F>>) {
    rows == map[] ||
    match last
    case None => idx + 1 == keys
    case Some(l) =>
      || idx == 1
      || exists sec, pk :: RowHasKey(rows, idx, sec, pk) && SecCompare(fcmp, SecKey(idx, sec, pk), l) < 0
  }

  /** index_first and index_next find the first or next entry of their own index, or none exactly
      when it has none, if and only if `StaysOn` holds. */
  lemma {:induction false} NextExact<F(!new)>(fcmp: (nat, nat, F, F) -> int, rows: map<seq<F>, Row<F>>, keys: nat,
          entries: set<SecKey<F>>, idx: nat, last: Option<SecKey<F>>, found: bool, k: SecKey<F>)
    requires RowsOK(rows, keys) && Agree(rows, keys, entries) && 1 <= idx < keys
    requires (last.Some? ==> last.value.idx == idx) && MovedOn(fcmp, entries, last, found, k)
    ensures MovedOn(fcmp, OfIndex(entries, idx), last, found, k) <==> StaysOn(fcmp, rows, keys, idx, last)
  {
    hide Lex, Agree, RowsOK;
    forall e | e in entries ensures 1 <= e.idx < keys && RowHasKey(rows, e.idx, e.sec, e.pk) {
      EntryIff(rows, keys, entries, e);
    }
    forall sec, pk | RowHasKey(rows, idx, sec, pk) ensures SecKey(idx, sec, pk) in OfIndex(entries, idx) {
      EntryIff(rows, keys, entries, SecKey(idx, sec, pk));
    }
    if rows != map[] {
      var pk :| pk in rows;
      EntryOf(rows, keys, entries, pk, 1);
      if idx + 1 < keys {
        EntryOf(rows, keys, entries, pk, idx + 1);
      }
    }
    if found && MovedOn(fcmp, OfIndex(entries, idx), last, found, k) {
      assert RowHasKey(rows, idx, k.sec, k.pk) && k == SecKey(idx, k.sec, k.pk);
    }
  }

  lemma {:induction false} PrevExact<F(!new)>(fcmp: (nat, nat, F, F) -> int, rows: map<seq<F>, Row<F>>, keys: nat,
          entries: set<SecKey<F>>, idx: nat, last: Option<SecKey<F>>, found: bool, k: SecKey<F>)
    requires RowsOK(rows, keys) && Agree(rows, keys, entries) && 1 <= idx < keys
    requires (last.Some? ==> last.value.idx == idx) && MovedBack(fcmp, entries, last, found, k)
    ensures MovedBack(fcmp, OfIndex(entries, idx), last, found, k) <==> StaysBack(fcmp, rows, keys, idx, last)
  {
    hide Lex, Agree, RowsOK;
    forall e | e in entries ensures 1 <= e.idx < keys && RowHasKey(rows, e.idx, e.sec, e.pk) {
      EntryIff(rows, keys, entries, e);
    }
    forall sec, pk | RowHasKey(rows, idx, sec, pk) ensures SecKey(idx, sec, pk) in OfIndex(entries, idx) {
      EntryIff(rows, keys, entries, SecKey(idx, sec, pk));
    }
    if rows != map[] {
      var pk :| pk in rows;
      EntryOf(rows, keys, entries, pk, keys - 1);
      if idx > 1 {
        EntryOf(rows, keys, entries, pk, idx - 1);
      }
    }
    if found && MovedBack(fcmp, OfIndex(entries, idx), last, found, k) {
      assert RowHasKey(rows, idx, k.sec, k.pk) && k == SecKey(idx, k.sec, k.pk);
    }
  }

  /** With two secondary indexes, index_first on index 2 comes to an entry of index 1, and
      index_next on index 1 goes on to index 2. */
  lemma FirstAndNextLeave(entries: set<SecKey<int>>)
    requires Agree(OneRow([[5], [1]]), 3, entries)
    ensures MovedOn(NumberOrder(), entries, None, true, SecKey(1, [5], [0]))
    ensures !MovedOn(NumberOrder(), OfIndex(entries, 2), None, true, SecKey(1, [5], [0]))
    ensures MovedOn(NumberOrder(), entries, Some(SecKey(1, [5], [0])), true, SecKey(2, [1], [0]))
    ensures !MovedOn(NumberOrder(), OfIndex(entries, 1), Some(SecKey(1, [5], [0])), true, SecKey(2, [1], [0]))
  {
    TwoEntries([5], [1], entries);
  }

  // Changes of a row

  /** What update_row returns and leaves, given whether the new row's bytes could be stored. */
  ghost function Updated<F>(rows: map<seq<F>, Row<F>>, oldRow: Row<F>, newRow: Row<F>, stored: bool)
    : (Error, map<seq<F>, Row<F>>)
  {
    if oldRow.pk !in rows then (HA_ERR_KEY_NOT_FOUND, rows)
    else if newRow.pk in rows && newRow.pk != oldRow.pk then (HA_ERR_FOUND_DUPP_KEY, rows - {oldRow.pk})
    else if stored then (HA_OK, (rows - {oldRow.pk})[newRow.pk := newRow])
    else (HA_ERR_INTERNAL_ERROR, rows - {oldRow.pk})
  }

  /** A change that is refused leaves the table as it was, and one that is not changes that row
      only, if and only if the old row is not there or the new one can take its place. */
  lemma UpdateExact<F(!new)>(rows: map<seq<F>, Row<F>>, oldRow: Row<F>, newRow: Row<F>, stored: bool)
    ensures var (rc, rows') := Updated(rows, oldRow, newRow, stored);
      (if rc == HA_OK then rows' - {newRow.pk} == rows - {oldRow.pk} && newRow.pk in rows' && rows'[newRow.pk] == newRow
       else rows' == rows)
      <==> oldRow.pk !in rows || (stored && (newRow.pk == oldRow.pk || newRow.pk !in rows))
  {
    if oldRow.pk in rows {
      assert oldRow.pk !in rows - {oldRow.pk};
      if newRow.pk == oldRow.pk || newRow.pk !in rows {
        assert (rows - {oldRow.pk})[newRow.pk := newRow] - {newRow.pk} == rows - {oldRow.pk};
      }
    }
  }

  /** Giving row 0 the primary key of row 1 is refused, and row 0 is gone. */
  lemma UpdateLosesRow(a: Row<int>, b: Row<int>)
    requires a.pk == [0] && b.pk == [1]
    ensures Updated(map[[0] := a, [1] := b], a, a.(pk := [1]), true) == (HA_ERR_FOUND_DUPP_KEY, map[[1] := b])
  {
    assert map[[0] := a, [1] := b] - {[0]} == map[[1] := b];
  }

  // Scans of the table with deletions in between

  function PksOf<F>(rows: seq<Row<F>>): seq<seq<F>> {
    seq(|rows|, i requires 0 <= i < |rows| => rows[i].pk)
  }

  /** Row `pk` was deleted before step `i` of the scan. */
  ghost predicate RowGone<F(!new)>(gone: seq<seq<Row<F>>>, i: nat, pk: seq<F>) {
    exists j :: 0 <= j < i && j < |gone| && pk in PksOf(gone[j])
  }

  function RowsAt<F>(gone: seq<seq<Row<F>>>, i: nat): seq<Row<F>> {
    if i < |gone| then gone[i] else []
  }

  /** What is left of the table: all but the rows deleted before. */
  ghost predicate Remains<F(!new)>(rows0: map<seq<F>, Row<F>>, rows: map<seq<F>, Row<F>>, gone: seq<seq<Row<F>>>,
          i: nat) {
    rows == map pk | pk in rows0 && !RowGone(gone, i, pk) :: rows0[pk]
  }

  lemma RemainsNext<F(!new)>(rows0: map<seq<F>, Row<F>>, rows: map<seq<F>, Row<F>>, rows': map<seq<F>, Row<F>>,
          gone: seq<seq<Row<F>>>, i: nat)
    requires Remains(rows0, rows, gone, i) && rows' == rows - set k | k in PksOf(RowsAt(gone, i))
    ensures Remains(rows0, rows', gone, i + 1)
  {
    forall k ensures RowGone(gone, i + 1, k) <==> RowGone(gone, i, k) || k in PksOf(RowsAt(gone, i)) {
    }
  }

  /** The rows returned so far, by strictly increasing primary key: each was in the table at the start, was
      not deleted before the scan came to it, and its bytes were returned. */
  ghost predicate Returned<F(!new)>(fcmp: (nat, nat, F, F) -> int, rows0: map<seq<F>, Row<F>>, gone: seq<seq<Row<F>>>,
          pks: seq<seq<F>>, bufs: seq<seq<Byte>>) {
    && |bufs| == |pks|
    && Scans.Ascending(PrimaryOrder(fcmp), pks)
    && forall i :: 0 <= i < |pks| ==> pks[i] in rows0 && rows0[pks[i]].packed <= bufs[i] && !RowGone(gone, i, pks[i])
  }

  ghost function LastOf<F>(pks: seq<seq<F>>): Option<seq<F>> {
    if pks == [] then None else Some(pks[|pks| - 1])
  }

  /** The rows left that were not returned yet come after the last one returned. */
  ghost predicate LeftOver<F(!new)>(fcmp: (nat, nat, F, F) -> int, rows: map<seq<F>, Row<F>>, pks: seq<seq<F>>) {
    forall pk :: pk in rows ==> pk in pks || pks == [] || PrimaryOrder(fcmp)(pks[|pks| - 1], pk) < 0
  }

  lemma {:induction false} ReturnedMore<F(!new)>(fcmp: (nat, nat, F, F) -> int, rows0: map<seq<F>, Row<F>>,
          rows: map<seq<F>, Row<F>>,
          gone: seq<seq<Row<F>>>, pks: seq<seq<F>>, bufs: seq<seq<Byte>>, pk: seq<F>, buf: seq<Byte>)
    requires FieldOrder(fcmp) && Returned(fcmp, rows0, gone, pks, bufs) && Remains(rows0, rows, gone, |pks|)
    requires LeftOver(fcmp, rows, pks) && IsNext(PrimaryOrder(fcmp), rows.Keys, LastOf(pks), pk)
    requires rows[pk].packed <= buf
    ensures Returned(fcmp, rows0, gone, pks + [pk], bufs + [buf]) && pk !in pks
  {
    hide FieldOrder, PrimaryOrder, RowGone, Scans.Ascending, TotalOrder;
    PrimaryTotal(fcmp);
    Scans.AscendingMore(PrimaryOrder(fcmp), pks, pk);
  }

  lemma LeftOverMore<F(!new)>(fcmp: (nat, nat, F, F) -> int, rows: map<seq<F>, Row<F>>, rows': map<seq<F>, Row<F>>,
          pks: seq<seq<F>>, pk: seq<F>)
    requires LeftOver(fcmp, rows, pks) && IsNext(PrimaryOrder(fcmp), rows.Keys, LastOf(pks), pk)
    requires rows'.Keys <= rows.Keys
    ensures LeftOver(fcmp, rows', pks + [pk])
  {
    hide PrimaryOrder;
    forall k | k in rows' ensures k in pks + [pk] || PrimaryOrder(fcmp)(pk, k) < 0 {
      if k !in pks && k != pk {
        assert pks != [] ==> PrimaryOrder(fcmp)(pks[|pks| - 1], k) < 0;
      }
    }
  }

  lemma EmptyAgrees<F(!new)>(keys: nat)
    ensures Agree<F>(map[], keys, {}) && PackedRows<F>(map[]) == map[]
  {
  }

  method CreateTrees<F(==, 0, !new)>(fcmp: (nat, nat, F, F) -> int, p: nat, s: nat, spare: nat)
    returns (primary: BTree<seq<F>>, secondary: BTree<SecKey<F>>)
    requires FieldOrder(fcmp)
    requires NodeCapacity(p + s + 1, CHILD_SIZE) >= 3 && NodeCapacity(p, LOCATION_SIZE) >= 3
    ensures primary.Valid() && secondary.Valid() && primary.Repr() !! secondary.Repr()
    ensures fresh(primary.Repr()) && fresh(secondary.Repr())
    ensures !primary.isConstValueSize && secondary.isConstValueSize && secondary.leafValueSize == 0
    ensures primary.data.spare == spare
    ensures primary.cmp == PrimaryOrder(fcmp) && secondary.cmp == SecOrder(fcmp)
    ensures primary.Readable() && primary.Contents() == map[] && secondary.Readable() && secondary.Contents() == map[]
  {
    hide NodeCapacity, TotalOrder, BTree.Valid, BTree.Contents, BTree.Readable, FieldOrder, PrimaryOrder, SecOrder;
    PrimaryTotal(fcmp);
    SecTotal(fcmp);
    EnoughRoom(p, s);
    primary := new BTree(p, PrimaryOrder(fcmp), 0xffff, spare);
    secondary := new BTree(p + s + 1, SecOrder(fcmp), 0, 0);
  }

  lemma EnoughRoom(p: nat, s: nat)
    requires NodeCapacity(p + s + 1, CHILD_SIZE) >= 3 && NodeCapacity(p, LOCATION_SIZE) >= 3
    ensures NodeCapacity(p, LeafValueSize(0xffff)) >= 3 && NodeCapacity(p, CHILD_SIZE) >= 3
    ensures LeafValueSize(0) == 0 && NodeCapacity(p + s + 1, LeafValueSize(0)) >= 3
    ensures NodeCapacity(p + s + 1, CHILD_SIZE) >= 3
  {
    hide NodeCapacity;
    ThreeFit(p, LOCATION_SIZE);
    ThreeFit(p, CHILD_SIZE);
    ThreeFit(p + s + 1, CHILD_SIZE);
    ThreeFit(p + s + 1, 0);
  }

  class Handler<F(==, 0, !new)> {
    const fcmp: (nat, nat, F, F) -> int
    // The number of indexes; index 0 is the primary key.
    const keys: nat
    const primary: BTree<seq<F>>
    const secondary: BTree<SecKey<F>>
    const primaryIt: Iterator<seq<F>>
    const secIt: Iterator<SecKey<F>>
    var activeIndex: nat
    var firstRow: bool

    // The rows of the table by primary key.
    ghost var rows: map<seq<F>, Row<F>>

    /** ha_example::create and open: the primary tree has values of variable size, the
        secondary tree has keys only. */
    constructor (fcmp: (nat, nat, F, F) -> int, keys: nat, primaryKeyLength: nat, maxSecondKeyLength: nat,
                 spare: nat)
      requires FieldOrder(fcmp) && keys >= 1
      requires NodeCapacity(primaryKeyLength + maxSecondKeyLength + 1, CHILD_SIZE) >= 3
      requires NodeCapacity(primaryKeyLength, LOCATION_SIZE) >= 3
      ensures Valid() && rows == map[] && this.keys == keys && this.fcmp == fcmp && primary.data.spare == spare
    {
      hide NodeCapacity, TotalOrder, BTree.Valid, BTree.Contents, BTree.Readable, FieldOrder, Agree, PackedRows,
        PrimaryOrder, SecOrder;
      EmptyAgrees<F>(keys);
      this.fcmp, this.keys := fcmp, keys;
      var p, s := CreateTrees(fcmp, primaryKeyLength, maxSecondKeyLength, spare);
      primary, secondary := p, s;
      primaryIt := new Iterator(p);
      secIt := new Iterator(s);
      activeIndex, firstRow, rows := 0, false, map[];
      new;
      assert Apart();
      assert secondary.Contents().Keys == {};
    }

    /** The two trees have nothing in common, and the iterators are those of the trees. */
    ghost predicate Static()
      reads primary.pool`objs, primary.data`objs, primaryIt`btree, secondary.pool`objs, secondary.data`objs, secIt`btree
    {
      && primary.Repr() !! secondary.Repr()
      && {this, primaryIt, secIt} !! primary.Repr() && {this, primaryIt, secIt} !! secondary.Repr()
      && primaryIt.btree == primary && secIt.btree == secondary
      && !primary.isConstValueSize && secondary.isConstValueSize && secondary.leafValueSize == 0
      && FieldOrder(fcmp) && primary.cmp == PrimaryOrder(fcmp) && secondary.cmp == SecOrder(fcmp)
      && keys >= 1
    }

    /** The two trees are valid and have nothing in common. */
    ghost predicate Apart()
      reads primary, primary.pool, primary.pool.objs, primary.data, primary.data.objs, primaryIt`btree
      reads secondary, secondary.pool, secondary.pool.objs, secondary.data, secondary.data.objs, secIt`btree
    {
      primary.Valid() && secondary.Valid() && Static()
    }

    /** The primary tree holds the packed rows, and the secondary tree exactly their images. */
    ghost predicate InStep()
      reads `rows, primary`tree, primary.data`stored, secondary`tree, secondary.data`stored
    {
      && RowsOK(rows, keys)
      && primary.Readable() && primary.Contents() == PackedRows(rows)
      && secondary.Readable() && Agree(rows, keys, secondary.Contents().Keys)
    }

    lemma ApartFrom()
      requires Apart()
      ensures this !in primary.Repr() && this !in secondary.Repr()
    {
    }

    /** What write_row, delete_row and update_row keep. */
    ghost predicate Valid()
      reads `rows, primary, primary.pool, primary.pool.objs, primary.data, primary.data.objs, primaryIt`btree
      reads secondary, secondary.pool, secondary.pool.objs, secondary.data, secondary.data.objs, secIt`btree
    {
      Apart() && InStep()
    }

    lemma ValidParts()
      ensures Valid() <==> primary.Valid() && secondary.Valid() && Static() && InStep()
    {
      hide BTree.Valid, Static, InStep;
    }

    /** The entries of a new row in the secondary tree: none of these puts finds its key. */
    method WriteIndexes(row: Row<F>)
      requires Apart() && row.pk !in rows && |row.secs| == keys - 1
      requires secondary.Readable() && Indexed(rows, keys, row, 1, secondary.Contents().Keys)
      modifies secondary, secondary.pool, secondary.pool.objs, secondary.data, secondary.data.objs
      ensures Apart() && secondary.Readable() && Indexed(rows, keys, row, keys, secondary.Contents().Keys)
      ensures rows == old(rows)
      ensures fresh(secondary.Repr() - old(secondary.Repr())) && primary.Repr() == old(primary.Repr())
      ensures primary.data.spare == old(primary.data.spare)
      ensures old(primary.Readable()) ==> primary.Readable() && primary.Contents() == old(primary.Contents())
    {
      hide BTree.Valid, BTree.Contents, BTree.Readable, FieldOrder, Indexed, BTree.Snapshot, Runs.IsStep,
        BTree.PutDone, BTree.Kept, Present, Forms.SameForm;
      var idx := 1;
      while idx < keys
        invariant 1 <= idx <= keys && Apart()
        invariant secondary.Readable() && Indexed(rows, keys, row, idx, secondary.Contents().Keys)
        invariant fresh(secondary.Repr() - old(secondary.Repr())) && primary.Repr() == old(primary.Repr())
        invariant primary.data.spare == old(primary.data.spare)
        invariant rows == old(rows)
        invariant old(primary.Readable()) ==> primary.Readable() && primary.Contents() == old(primary.Contents())
      {
        idx := WriteIndex(row, idx);
      }
    }

    method WriteIndex(row: Row<F>, idx: nat) returns (next: nat)
      requires Apart() && row.pk !in rows && |row.secs| == keys - 1 && 1 <= idx < keys
      requires secondary.Readable() && Indexed(rows, keys, row, idx, secondary.Contents().Keys)
      modifies secondary, secondary.pool, secondary.pool.objs, secondary.data, secondary.data.objs
      ensures Apart() && secondary.Readable() && Indexed(rows, keys, row, next, secondary.Contents().Keys)
      ensures next == idx + 1
      ensures fresh(secondary.Repr() - old(secondary.Repr()))
    {
      hide BTree.Valid, BTree.Contents, BTree.Readable, FieldOrder, Indexed, BTree.Snapshot, Runs.IsStep,
        BTree.PutDone, BTree.CanStoreFor, BTree.Idle, BTree.PayloadOK, BTree.ValueOf, Enter, Phys, Present,
        Forms.SameForm;
      ghost var m := secondary.Contents();
      IndexedNext(rows, keys, row, idx, m.Keys);
      var res: int;
      ghost var w, n;
      res, w, n := secondary.Put(PackKey(row, idx), []);
      // the put cannot fail: the key is not there, and no value is stored outside the leaf
      assert res == 1;
      assert secondary.Contents().Keys == m.Keys + {PackKey(row, idx)};
      next := idx + 1;
    }

    /** The put of a row in the primary tree; the secondary tree is not touched. */
    method WritePrimary(row: Row<F>) returns (res: int)
      requires Apart() && primary.Readable() && secondary.Readable() && |row.packed| < 4066
      modifies primary, primary.pool, primary.pool.objs, primary.data, primary.data.objs
      ensures Apart() && primary.Readable() && fresh(primary.Repr() - old(primary.Repr()))
      ensures secondary.Repr() == old(secondary.Repr())
      ensures secondary.pool.objs == old(secondary.pool.objs) && secondary.data.objs == old(secondary.data.objs)
      ensures res == 0 || res == 1 || res == -1
      ensures res == 0 <==> row.pk in old(primary.Contents())
      ensures res == -1 ==> old(primary.data.spare) == 0
      ensures primary.data.spare <= old(primary.data.spare) <= primary.data.spare + 1
      ensures primary.Contents() == if res == 1 then old(primary.Contents())[row.pk := row.packed]
        else old(primary.Contents())
      ensures secondary.Readable() && secondary.Contents() == old(secondary.Contents()) && rows == old(rows)
    {
      hide BTree.Valid, BTree.Contents, BTree.Readable, FieldOrder, BTree.Snapshot, Runs.IsStep, BTree.PutDone,
        Present, Forms.SameForm;
      ghost var w, n;
      res, w, n := primary.Put(row.pk, row.packed);
    }

    /** write_row: enters a new row in both trees; a row whose primary key is there is
        refused, and nothing changes. */
    method WriteRow(row: Row<F>) returns (rc: Error)
      requires Valid() && |row.secs| == keys - 1 && |row.packed| < 4066
      modifies `rows, primary, primary.pool, primary.pool.objs, primary.data, primary.data.objs
      modifies secondary, secondary.pool, secondary.pool.objs, secondary.data, secondary.data.objs
      ensures Valid() && fresh(primary.Repr() - old(primary.Repr())) && fresh(secondary.Repr() - old(secondary.Repr()))
      ensures rc == HA_OK || rc == HA_ERR_FOUND_DUPP_KEY || rc == HA_ERR_INTERNAL_ERROR
      ensures rc == HA_ERR_FOUND_DUPP_KEY <==> row.pk in old(rows)
      ensures old(primary.data.spare) > 0 ==> (rc == HA_OK <==> row.pk !in old(rows))
      ensures primary.data.spare <= old(primary.data.spare) <= primary.data.spare + 1
      ensures rows == if rc == HA_OK then old(rows)[row.pk := row] else old(rows)
    {
      hide BTree.Valid, BTree.Contents, BTree.Readable, FieldOrder, Agree, Indexed, PackedRows, RowsOK, Apart;
      PackedKeys(rows);
      var res := WritePrimary(row);
      if res == -1 {
        return HA_ERR_INTERNAL_ERROR;
      } else if res == 0 {
        return HA_ERR_FOUND_DUPP_KEY;
      }
      IndexedStart(rows, keys, row, secondary.Contents().Keys);
      WriteIndexes(row);
      IndexedAll(rows, keys, row, secondary.Contents().Keys);
      ApartFrom();
      RowAdded(rows, keys, row);
      rows := rows[row.pk := row];
      rc := HA_OK;
    }

    static lemma PackedKeys(rows: map<seq<F>, Row<F>>)
      ensures PackedRows(rows).Keys == rows.Keys
    {
    }

    static lemma RowAdded(rows: map<seq<F>, Row<F>>, keys: nat, row: Row<F>)
      requires RowsOK(rows, keys) && |row.secs| == keys - 1
      ensures RowsOK(rows[row.pk := row], keys)
      ensures PackedRows(rows[row.pk := row]) == PackedRows(rows)[row.pk := row.packed]
    {
    }

    static lemma RowRemoved(rows: map<seq<F>, Row<F>>, keys: nat, pk: seq<F>)
      requires RowsOK(rows, keys)
      ensures RowsOK(rows - {pk}, keys) && PackedRows(rows - {pk}) == PackedRows(rows) - {pk}
    {
    }

    /** The entries of a deleted row in the secondary tree: each is found. */
    method DeleteIndexes(it: Iterator<SecKey<F>>, row: Row<F>)
      requires Apart() && it.btree == secondary && it.Ready() && it != secIt && it !in primary.Repr()
      requires row.pk in rows && rows[row.pk].secs == row.secs && |row.secs| == keys - 1
      requires secondary.Readable() && Erased(rows, keys, row.pk, 1, secondary.Contents().Keys)
      modifies it, secondary`tree, secondary.pool`img, secondary.pool`marked, secondary.pool.objs
      ensures Apart() && secondary.Readable() && Erased(rows, keys, row.pk, keys, secondary.Contents().Keys)
      ensures rows == old(rows)
      ensures secondary.Repr() == old(secondary.Repr()) && primary.Repr() == old(primary.Repr())
      ensures primary.pool.objs == old(primary.pool.objs) && secondary.pool.objs == old(secondary.pool.objs)
      ensures primary.tree == old(primary.tree) && primary.pool.nodes == old(primary.pool.nodes)
      ensures old(primary.Readable()) ==> primary.Readable() && primary.Contents() == old(primary.Contents())
    {
      hide BTree.Valid, BTree.Contents, BTree.Readable, FieldOrder, Erased, Iterator.Ready;
      var idx := 1;
      while idx < keys
        invariant 1 <= idx <= keys && Apart() && it.btree == secondary && it.Ready()
        invariant secondary.Readable() && Erased(rows, keys, row.pk, idx, secondary.Contents().Keys)
        invariant secondary.pool.objs == old(secondary.pool.objs) && secondary.Repr() == old(secondary.Repr())
        invariant rows == old(rows)
        invariant primary.Repr() == old(primary.Repr()) && primary.pool.objs == old(primary.pool.objs)
        invariant primary.tree == old(primary.tree) && primary.pool.nodes == old(primary.pool.nodes)
        invariant old(primary.Readable()) ==> primary.Readable() && primary.Contents() == old(primary.Contents())
      {
        idx := DeleteIndex(it, row, idx);
      }
    }

    method DeleteIndex(it: Iterator<SecKey<F>>, row: Row<F>, idx: nat) returns (next: nat)
      requires Apart() && it.btree == secondary && it.Ready() && it != secIt && it !in primary.Repr()
      requires row.pk in rows && rows[row.pk].secs == row.secs && |row.secs| == keys - 1 && 1 <= idx < keys
      requires secondary.Readable() && Erased(rows, keys, row.pk, idx, secondary.Contents().Keys)
      modifies it, secondary`tree, secondary.pool`img, secondary.pool`marked, secondary.pool.objs
      ensures Apart() && secondary.Readable() && Erased(rows, keys, row.pk, next, secondary.Contents().Keys)
      ensures next == idx + 1
      ensures it.btree == secondary && it.Ready()
      ensures secondary.pool.objs == old(secondary.pool.objs) && secondary.Repr() == old(secondary.Repr())
    {
      hide BTree.Valid, BTree.Contents, BTree.Readable, FieldOrder, Erased, Iterator.Ready;
      ghost var m := secondary.Contents();
      ErasedNext(rows, keys, row, idx, m.Keys);
      it.Apart();
      var r := RemoveKey(it, PackKey(row, idx));
      it.Apart();
      // the lookup cannot miss: the row is stored, so its entry is there
      assert r == 1;
      assert secondary.Contents().Keys == m.Keys - {PackKey(row, idx)};
      next := idx + 1;
    }

    /** The removal of a row from the primary tree; the secondary tree is not touched. */
    method DeletePrimary(pk: seq<F>) returns (r: int)
      requires Apart() && primary.Readable() && secondary.Readable()
      modifies primary`tree, primary.pool`img, primary.pool`marked, primary.pool.objs
      ensures Apart() && primary.Readable() && secondary.Readable() && rows == old(rows)
      ensures primary.Repr() == old(primary.Repr()) && secondary.Repr() == old(secondary.Repr())
      ensures primary.pool.objs == old(primary.pool.objs) && secondary.pool.objs == old(secondary.pool.objs)
      ensures (r == 0 || r == 1) && (r == 1 <==> pk in old(primary.Contents()))
      ensures primary.Contents() == old(primary.Contents()) - {pk} && secondary.Contents() == old(secondary.Contents())
      ensures Forms.SameForm(old(primary.tree), primary.tree) && primary.pool.nodes == old(primary.pool.nodes)
    {
      hide BTree.Valid, BTree.Contents, BTree.Readable, FieldOrder, Iterator.Ready, Forms.SameForm;
      var it := new Iterator(primary);
      it.GetReady();
      r := RemoveKey(it, pk);
      it.Apart();
    }

    /** The removals from the secondary tree, through an iterator of their own. */
    method EraseIndexes(row: Row<F>)
      requires Apart() && row.pk in rows && rows[row.pk].secs == row.secs && |row.secs| == keys - 1
      requires secondary.Readable() && Agree(rows, keys, secondary.Contents().Keys) && primary.Readable()
      modifies secondary`tree, secondary.pool`img, secondary.pool`marked, secondary.pool.objs
      ensures Apart() && secondary.Readable() && Agree(rows - {row.pk}, keys, secondary.Contents().Keys)
      ensures rows == old(rows)
      ensures secondary.Repr() == old(secondary.Repr()) && primary.Repr() == old(primary.Repr())
      ensures primary.pool.objs == old(primary.pool.objs) && secondary.pool.objs == old(secondary.pool.objs)
      ensures primary.tree == old(primary.tree) && primary.pool.nodes == old(primary.pool.nodes)
      ensures primary.Readable() && primary.Contents() == old(primary.Contents())
    {
      hide BTree.Valid, BTree.Contents, BTree.Readable, FieldOrder, Agree, Erased, Apart;
      ErasedStart(rows, keys, row.pk, secondary.Contents().Keys);
      var it := NewSecIterator();
      DeleteIndexes(it, row);
      ErasedAll(rows, keys, row.pk, secondary.Contents().Keys);
    }

    /** The removals of delete_row. */
    method EraseRow(row: Row<F>) returns (rc: Error)
      requires Valid() && |row.secs| == keys - 1
      requires row.pk in rows ==> rows[row.pk].secs == row.secs
      modifies `rows, primary`tree, primary.pool`img, primary.pool`marked, primary.pool.objs
      modifies secondary`tree, secondary.pool`img, secondary.pool`marked, secondary.pool.objs
      ensures Valid() && primary.Repr() == old(primary.Repr()) && secondary.Repr() == old(secondary.Repr())
      ensures primary.pool.objs == old(primary.pool.objs) && secondary.pool.objs == old(secondary.pool.objs)
      ensures rc == if row.pk in old(rows) then HA_OK else HA_ERR_KEY_NOT_FOUND
      ensures rows == old(rows) - {row.pk}
      ensures Forms.SameForm(old(primary.tree), primary.tree) && primary.pool.nodes == old(primary.pool.nodes)
    {
      hide BTree.Valid, BTree.Contents, BTree.Readable, FieldOrder, Agree, Erased, PackedRows, RowsOK, Apart,
        Forms.SameForm;
      PackedKeys(rows);
      RowRemoved(rows, keys, row.pk);
      var r := DeletePrimary(row.pk);
      if r == 0 {
        return HA_ERR_KEY_NOT_FOUND;
      }
      EraseIndexes(row);
      ApartFrom();
      rows := rows - {row.pk};
      rc := HA_OK;
    }

    /** delete_row: a stored row is removed from both trees.  A scan of the table stays
        where it is, even on the row that is removed. */
    method DeleteRow(row: Row<F>) returns (rc: Error)
      requires Valid() && |row.secs| == keys - 1
      requires row.pk in rows ==> rows[row.pk].secs == row.secs
      modifies `rows, primary`tree, primary.pool`img, primary.pool`marked, primary.pool.objs
      modifies secondary`tree, secondary.pool`img, secondary.pool`marked, secondary.pool.objs
      ensures Valid() && primary.Repr() == old(primary.Repr()) && secondary.Repr() == old(secondary.Repr())
      ensures primary.pool.objs == old(primary.pool.objs) && secondary.pool.objs == old(secondary.pool.objs)
      ensures rc == if row.pk in old(rows) then HA_OK else HA_ERR_KEY_NOT_FOUND
      ensures rows == old(rows) - {row.pk}
      ensures forall pk :: old(primaryIt.AtKey(pk)) ==> primaryIt.AtKey(pk)
    {
      hide Valid, Forms.SameForm, Iterator.AtKey, Iterator.OnTree, Iterator.PosIn, Phys, BTree.Valid, BTree.Readable,
        BTree.Contents, Iterator.Ready, Agree, PackedRows, FieldOrder;
      ReadyToRead();
      ghost var t := primary.tree;
      forall pk | primaryIt.AtKey(pk)
        ensures primaryIt.OnTree(t) && primaryIt.cur != null && primary.pool.Owns(primaryIt.cur)
        ensures 0 <= primaryIt.PosIn(t) < |Phys(t)| && Phys(t)[primaryIt.PosIn(t)].key == pk
      {
        primaryIt.AtKeyParts(pk);
      }
      rc := EraseRow(row);
      forall pk | old(primaryIt.AtKey(pk)) ensures primaryIt.AtKey(pk) {
        primaryIt.StaysAtKey(t, pk);
      }
    }

    method NewSecIterator() returns (it: Iterator<SecKey<F>>)
      requires Apart()
      ensures fresh(it) && it.btree == secondary && it.Ready() && it != secIt && it !in primary.Repr()
    {
      hide BTree.Valid;
      it := new Iterator(secondary);
      it.GetReady();
    }

    /** update_row: the old row is deleted and the new one written; a new row whose primary
        key is taken leaves the old one deleted. */
    method UpdateRow(oldRow: Row<F>, newRow: Row<F>) returns (rc: Error)
      requires Valid() && |oldRow.secs| == |newRow.secs| == keys - 1 && |newRow.packed| < 4066
      requires oldRow.pk in rows ==> rows[oldRow.pk].secs == oldRow.secs
      modifies `rows, primary, primary.pool, primary.pool.objs, primary.data, primary.data.objs
      modifies secondary, secondary.pool, secondary.pool.objs, secondary.data, secondary.data.objs
      ensures Valid()
      ensures (rc, rows) == Updated(old(rows), oldRow, newRow, rc != HA_ERR_INTERNAL_ERROR)
      ensures old(primary.data.spare) > 0 ==> rc != HA_ERR_INTERNAL_ERROR
    {
      hide Valid, BTree.Valid, BTree.Readable, BTree.Contents, Static, InStep;
      ReadyToRead();
      primaryIt.Apart();
      rc := DeleteRow(oldRow);
      if rc != HA_OK {
        assert rows == old(rows);
        return;
      }
      rc := WriteRow(newRow);
    }

    // Reading

    /** What the reading methods need of the state, and keep: their iterators are the only
        objects they change. */
    lemma ReadyToRead()
      requires Valid()
      ensures primaryIt.Ready() && secIt.Ready() && primaryIt.btree == primary && secIt.btree == secondary
      ensures primary.Valid() && secondary.Valid() && Static() && InStep() && primary.Repr() !! secondary.Repr()
      ensures {this, primaryIt, secIt} !! primary.Repr() && {this, primaryIt, secIt} !! secondary.Repr()
      ensures primary.Readable() && primary.Contents() == PackedRows(rows) && !primary.isConstValueSize
      ensures secondary.Readable() && Agree(rows, keys, secondary.Contents().Keys)
      ensures FieldOrder(fcmp) && primary.cmp == PrimaryOrder(fcmp) && secondary.cmp == SecOrder(fcmp)
    {
      hide BTree.Valid, BTree.Contents, BTree.Readable, Agree, PackedRows;
      primaryIt.GetReady();
      secIt.GetReady();
    }

    /** get_cur_row on the primary index: the packed bytes of the row the iterator is on. */
    method CurrentRow(ghost pk: seq<F>) returns (buf: seq<Byte>)
      requires Valid() && primaryIt.OnKey(pk)
      ensures pk in rows && rows[pk].packed <= buf
    {
      hide Valid, BTree.Valid, BTree.Contents, BTree.Readable, BTree.ValueOf, BTree.PayloadOK, Iterator.On,
        Iterator.Pos, Phys, Iterator.Ready;
      ReadyToRead();
      primary.EntryInContents(primaryIt.Pos());
      var v := primaryIt.GetValue();
      buf := v.value;
    }

    /** rnd_pos: the row with primary key `pos`. */
    method RndPos(pos: seq<F>) returns (rc: Error, buf: seq<Byte>)
      requires Valid()
      modifies primaryIt, primary.pool`marked
      ensures Valid()
      ensures rc == if pos in rows then HA_OK else HA_ERR_KEY_NOT_FOUND
      ensures rc == HA_OK ==> rows[pos].packed <= buf
    {
      hide Valid, BTree.Valid, BTree.Contents, BTree.Readable, Iterator.OnKey, Iterator.Ready;
      ReadyToRead();
      buf := [];
      var r := LocateKey(primaryIt, pos);
      primaryIt.Apart();
      ValidParts();
      if r == 0 {
        return HA_ERR_KEY_NOT_FOUND, buf;
      }
      buf := CurrentRow(pos);
      rc := HA_OK;
    }

    /** get_cur_row on a secondary index: the row of the entry the iterator is on is fetched
        by its primary key, and is always there. */
    method CurrentSecRow(ghost k: SecKey<F>) returns (buf: seq<Byte>)
      requires Valid() && secIt.OnKey(k)
      modifies primaryIt, primary.pool`marked
      ensures Valid() && IsImage(rows, keys, k) && rows[k.pk].packed <= buf
    {
      hide Valid, BTree.Valid, BTree.Contents, BTree.Readable, Iterator.On, Iterator.Pos, Phys, Iterator.Ready;
      ReadyToRead();
      secondary.EntryInContents(secIt.Pos());
      var secKey := secIt.GetKey();
      assert IsImage(rows, keys, k);
      var rc: Error;
      rc, buf := RndPos(secKey.pk);
    }

    /** The primary key nearest to the one searched for among those accepted, or none. */
    ghost predicate PrimaryFound(key: seq<F>, flag: FindFlag, found: bool, pk: seq<F>)
      reads `rows
    {
      !flag.HA_READ_OTHER? &&
      if found then Nearest(PrimaryOrder(fcmp), PrimaryFlag(flag), At(PrimaryOrder(fcmp), key), rows.Keys, pk)
      else forall pk' :: pk' in rows ==> !Wanted(PrimaryFlag(flag), PrimaryOrder(fcmp)(pk', key))
    }

    /** index_read on the primary index. */
    method ReadPrimary(key: seq<F>, flag: FindFlag) returns (rc: Error, buf: seq<Byte>, ghost pk: seq<F>)
      requires Valid() && !flag.HA_READ_OTHER?
      modifies primaryIt, primary.pool`marked
      ensures Valid() && (rc == HA_OK || rc == HA_ERR_KEY_NOT_FOUND)
      ensures rc == HA_OK ==> RowBytes(pk, buf)
      ensures PrimaryFound(key, flag, rc == HA_OK, pk)
    {
      hide Valid, BTree.Valid, BTree.Contents, BTree.Readable, Iterator.OnKey, Iterator.Ready, Nearest, PrimaryOrder,
        Monotone, Sorted;
      ReadyToRead();
      PackedKeys(rows);
      primary.SearchMonotone(key);
      buf := [];
      var r;
      r, pk := LocateNear(primaryIt, At(primary.cmp, key), PrimaryFlag(flag));
      primaryIt.Apart();
      ValidParts();
      if r == 0 {
        rc := HA_ERR_KEY_NOT_FOUND;
        assert forall pk :: pk in rows ==> !Wanted(PrimaryFlag(flag), At(primary.cmp, key)(pk));
        return;
      }
      buf := CurrentRow(pk);
      rc := HA_OK;
    }

    /** second_key_compare_prefix with a flagged key: the flag does not count. */
    method SamePrefix(k: SecKey<F>, idx: nat, key: seq<F>) returns (same: bool)
      requires k.idx == idx ==> |k.sec| == |key|
      requires FieldOrder(fcmp)
      ensures same <==> k.idx == idx && k.sec == key
    {
      if k.idx != idx {
        return false;
      }
      LexEqual(fcmp, idx, 0, k.sec, key);
      var c := CompareParts(fcmp, idx, k.sec, key, |key|);
      same := c == 0;
    }

    /** The keys of index `idx` all have as many parts as `key`. */
    ghost predicate SameParts(idx: nat, key: seq<F>)
      reads `rows
    {
      forall pk :: pk in rows && idx <= |rows[pk].secs| && 1 <= idx ==> |rows[pk].secs[idx - 1]| == |key|
    }

    /** The keys in the secondary tree. */
    ghost function Entries(): set<SecKey<F>>
      reads secondary`tree, secondary.data`stored
    {
      if secondary.Readable() then secondary.Contents().Keys else {}
    }

    ghost predicate RowBytes(pk: seq<F>, buf: seq<Byte>)
      reads `rows
    {
      pk in rows && rows[pk].packed <= buf
    }

    /** What a lookup of a secondary index finds among the entries. */
    ghost predicate SecFound(idx: nat, key: seq<F>, flag: FindFlag, found: bool, k: SecKey<F>)
      reads secondary`tree, secondary.data`stored
    {
      !flag.HA_READ_OTHER? && Sought(fcmp, Entries(), idx, key, flag, found, k)
    }

    /** The lookup of a flagged key in the secondary tree. */
    method SeekSecondary(idx: nat, key: seq<F>, flag: FindFlag) returns (r: int, ghost k: SecKey<F>)
      requires Valid() && !flag.HA_READ_OTHER?
      modifies secIt, secondary.pool`marked
      ensures Valid() && (r == 0 || r == 1) && (r == 1 ==> secIt.OnKey(k))
      ensures SecFound(idx, key, flag, r == 1, k)
    {
      hide Valid, BTree.Valid, BTree.Contents, Iterator.OnKey, Iterator.Ready, Nearest, EdgeProbe, Monotone, Sorted,
        Agree, FieldOrder;
      ReadyToRead();
      EdgeMonotone(fcmp, Phys(secondary.tree), idx, key, SecondaryEdge(flag));
      r, k := LocateNear(secIt, EdgeProbe(fcmp, idx, key, SecondaryEdge(flag)), SecondaryFlag(flag));
      secIt.Apart();
      ValidParts();
    }

    /** index_read on the secondary index `idx`.  The answer is the one the index should give if
        and only if `IsRight` holds; so is that of the lookup of an exact key, always. */
    method ReadSecondary(idx: nat, key: seq<F>, flag: FindFlag) returns (rc: Error, buf: seq<Byte>, ghost k: SecKey<F>)
      requires Valid() && !flag.HA_READ_OTHER? && 1 <= idx < keys && SameParts(idx, key)
      modifies primaryIt, primary.pool`marked, secIt, secondary.pool`marked
      ensures Valid() && (rc == HA_OK || rc == HA_ERR_KEY_NOT_FOUND)
      ensures rc == HA_OK ==> IsImage(rows, keys, k) && RowBytes(k.pk, buf)
      ensures IsAnswer(fcmp, rows, idx, key, flag, rc == HA_OK, k) <==> IsRight(fcmp, rows, keys, idx, key, flag)
      ensures !flag.HA_READ_KEY_EXACT? ==> SecFound(idx, key, flag, rc == HA_OK, k)
    {
      hide Valid, BTree.Valid, BTree.Contents, BTree.Readable, Iterator.OnKey, Iterator.Ready, SecFound, Agree,
        FieldOrder, HasKey, IsFirstRow, IsAnswer, IsRight;
      buf := [];
      var r;
      r, k := SeekSecondary(idx, key, flag);
      SeekMeans(idx, key, flag, r == 1, k);
      if r == 0 {
        return HA_ERR_KEY_NOT_FOUND, buf, k;
      }
      if flag.HA_READ_KEY_EXACT? {
        OnImage(k);
        var secKey := CurrentKey(k);
        var same := SamePrefix(secKey, idx, key);
        if !same {
          return HA_ERR_KEY_NOT_FOUND, buf, k;
        }
      }
      buf := CurrentSecRow(k);
      rc := HA_OK;
    }

    /** What the search found means for the answer. */
    lemma SeekMeans(idx: nat, key: seq<F>, flag: FindFlag, found: bool, k: SecKey<F>)
      requires Valid() && 1 <= idx < keys && SecFound(idx, key, flag, found, k)
      ensures if flag.HA_READ_KEY_EXACT? then
          IsRight(fcmp, rows, keys, idx, key, flag) &&
          IsAnswer(fcmp, rows, idx, key, flag, found && k.idx == idx && k.sec == key, k)
        else
          IsAnswer(fcmp, rows, idx, key, flag, found, k) <==> IsRight(fcmp, rows, keys, idx, key, flag)
    {
      hide Valid, BTree.Valid, BTree.Contents, BTree.Readable, Agree, FieldOrder, HasKey, IsFirstRow, Sought, IsAnswer,
        RowsOK;
      ReadyToRead();
      if flag.HA_READ_KEY_EXACT? {
        ExactMeans(idx, key, found, k);
        ExactAnswer(fcmp, rows, idx, key, found && k.idx == idx && k.sec == key, k);
      } else {
        ReadExact(fcmp, rows, keys, Entries(), idx, key, flag, found, k);
      }
    }

    method CurrentKey(ghost k: SecKey<F>) returns (secKey: SecKey<F>)
      requires Valid() && secIt.OnKey(k)
      ensures secKey == k
    {
      hide Valid, BTree.Valid, Iterator.On, Iterator.Pos, Phys, Iterator.Ready;
      ReadyToRead();
      secKey := secIt.GetKey();
    }

    /** The iterator is on the entry of a stored row. */
    lemma OnImage(k: SecKey<F>)
      requires Valid() && secIt.OnKey(k)
      ensures IsImage(rows, keys, k) && FieldOrder(fcmp)
    {
      hide Valid, BTree.Valid, BTree.Contents, BTree.Readable, Iterator.On, Iterator.Pos, Phys, Iterator.Ready,
        FieldOrder;
      ReadyToRead();
      secondary.EntryInContents(secIt.Pos());
    }

    lemma ExactMeans(idx: nat, key: seq<F>, found: bool, k: SecKey<F>)
      requires Valid() && 1 <= idx < keys && SecFound(idx, key, HA_READ_KEY_EXACT, found, k)
      ensures found ==> ((k.idx == idx && k.sec == key) <==> HasKey(rows, idx, key))
      ensures found ==> HasKey(rows, idx, key) ==> IsFirstRow(fcmp, rows, idx, key, k.pk)
      ensures !found ==> !HasKey(rows, idx, key)
    {
      hide Valid, BTree.Valid, BTree.Contents, BTree.Readable, Agree, FieldOrder, HasKey, IsFirstRow, Nearest,
        EdgeProbe;
      ReadyToRead();
      if found {
        FirstOfKey(fcmp, rows, keys, Entries(), idx, key, KEY_OR_NEXT, k);
      } else {
        NoneOfKey(fcmp, rows, keys, Entries(), idx, key, KEY_OR_NEXT);
      }
    }

    /** index_read on the active index: on the primary one the nearest row accepted, or none. */
    method IndexRead(key: seq<F>, flag: FindFlag) returns (rc: Error, buf: seq<Byte>, ghost k: SecKey<F>)
      requires Valid() && activeIndex < keys && SameParts(activeIndex, key)
      modifies primaryIt, primary.pool`marked, secIt, secondary.pool`marked
      ensures Valid() && (rc == HA_ERR_WRONG_COMMAND <==> flag.HA_READ_OTHER?)
      ensures rc == HA_OK || rc == HA_ERR_KEY_NOT_FOUND || rc == HA_ERR_WRONG_COMMAND
      ensures rc == HA_OK ==> RowBytes(k.pk, buf)
      ensures rc != HA_ERR_WRONG_COMMAND && activeIndex == 0 ==> PrimaryFound(key, flag, rc == HA_OK, k.pk)
      ensures rc != HA_ERR_WRONG_COMMAND && activeIndex > 0 ==>
        (IsAnswer(fcmp, rows, activeIndex, key, flag, rc == HA_OK, k) <==>
         IsRight(fcmp, rows, keys, activeIndex, key, flag))
      ensures rc != HA_ERR_WRONG_COMMAND && activeIndex > 0 && !flag.HA_READ_KEY_EXACT? ==>
        SecFound(activeIndex, key, flag, rc == HA_OK, k)
    {
      hide Valid, SecFound, PrimaryFound, IsAnswer, IsRight, RowBytes, SameParts;
      k := SecKey(0, [], []);
      if flag.HA_READ_OTHER? {
        return HA_ERR_WRONG_COMMAND, [], k;
      }
      if activeIndex != 0 {
        rc, buf, k := ReadSecondary(activeIndex, key, flag);
      } else {
        ghost var pk;
        rc, buf, pk := ReadPrimary(key, flag);
        k := SecKey(0, [], pk);
      }
    }

    // A scan of the table

    method RndInit()
      modifies `activeIndex, `firstRow
      ensures activeIndex == 0 && firstRow
    {
      activeIndex := 0;
      firstRow := true;
    }

    /** Row `pk` is the first one after `last`, or the first of all. */
    ghost predicate IsNextRow(last: Option<seq<F>>, pk: seq<F>)
      reads `rows
    {
      IsNext(PrimaryOrder(fcmp), rows.Keys, last, pk)
    }

    /** Row `pk` is the last one before `last`, or the last of all. */
    ghost predicate IsPrevRow(last: Option<seq<F>>, pk: seq<F>)
      reads `rows
    {
      IsPrev(PrimaryOrder(fcmp), rows.Keys, last, pk)
    }

    /** No row is after `last`, or there is no row. */
    ghost predicate NoNextRow(last: Option<seq<F>>)
      reads `rows
    {
      NoNext(PrimaryOrder(fcmp), rows.Keys, last)
    }

    ghost predicate NoPrevRow(last: Option<seq<F>>)
      reads `rows
    {
      NoPrev(PrimaryOrder(fcmp), rows.Keys, last)
    }

    /** What a movement on the primary index returned: the iterator is on the next row, if any. */
    ghost predicate Came(rc: Error, buf: seq<Byte>, pk: seq<F>, last: Option<seq<F>>)
      reads `rows, primaryIt, primary`tree, primary.pool`nodes
    {
      if rc == HA_OK then IsNextRow(last, pk) && primaryIt.btree == primary && primaryIt.AtKey(pk) && RowBytes(pk, buf)
      else NoNextRow(last)
    }

    ghost predicate CameBack(rc: Error, buf: seq<Byte>, pk: seq<F>, last: Option<seq<F>>)
      reads `rows, primaryIt, primary`tree, primary.pool`nodes
    {
      if rc == HA_OK then IsPrevRow(last, pk) && primaryIt.btree == primary && primaryIt.AtKey(pk) && RowBytes(pk, buf)
      else NoPrevRow(last)
    }

    /** The row of the secondary entry that a movement came to. */
    ghost predicate OnEntryOf(rc: Error, buf: seq<Byte>, k: SecKey<F>)
      reads `rows, secIt, secondary`tree, secondary.pool`nodes
    {
      rc == HA_OK ==> secIt.btree == secondary && secIt.AtKey(k) && IsImage(rows, keys, k) && RowBytes(k.pk, buf)
    }

    lemma RowKeys()
      requires Valid()
      ensures primary.Contents().Keys == rows.Keys
    {
      hide Valid, BTree.Valid, BTree.Contents, BTree.Readable;
      ReadyToRead();
      PackedKeys(rows);
    }

    // The branches for the primary index

    method PrimaryFirst() returns (rc: Error, buf: seq<Byte>, ghost pk: seq<F>)
      requires Valid()
      modifies primaryIt, primary.pool`marked
      ensures Valid() && (rc == HA_OK || rc == HA_ERR_KEY_NOT_FOUND) && Came(rc, buf, pk, None)
    {
      hide Valid, BTree.Valid, BTree.Contents, BTree.Readable, Iterator.Ready, Iterator.On, Iterator.Pos, Phys, Static,
        InStep, IsNext, NoNext, IsPrev, NoPrev, PrimaryOrder;
      ReadyToRead();
      RowKeys();
      buf := [];
      var r;
      r, pk := FirstKey(primaryIt);
      primaryIt.Apart();
      ValidParts();
      if r == 0 {
        return HA_ERR_KEY_NOT_FOUND, buf, pk;
      }
      buf := CurrentRow(pk);
      rc := HA_OK;
    }

    method PrimaryLast() returns (rc: Error, buf: seq<Byte>, ghost pk: seq<F>)
      requires Valid()
      modifies primaryIt, primary.pool`marked
      ensures Valid() && (rc == HA_OK || rc == HA_ERR_KEY_NOT_FOUND) && CameBack(rc, buf, pk, None)
    {
      hide Valid, BTree.Valid, BTree.Contents, BTree.Readable, Iterator.Ready, Iterator.On, Iterator.Pos, Phys, Static,
        InStep, IsNext, NoNext, IsPrev, NoPrev, PrimaryOrder;
      ReadyToRead();
      RowKeys();
      buf := [];
      var r;
      r, pk := LastKey(primaryIt);
      primaryIt.Apart();
      ValidParts();
      if r == 0 {
        return HA_ERR_KEY_NOT_FOUND, buf, pk;
      }
      buf := CurrentRow(pk);
      rc := HA_OK;
    }

    method PrimaryNext(ghost last: seq<F>) returns (rc: Error, buf: seq<Byte>, ghost pk: seq<F>)
      requires Valid() && primaryIt.AtKey(last)
      modifies primaryIt, primary.pool`marked
      ensures Valid() && (rc == HA_OK || rc == HA_ERR_END_OF_FILE) && Came(rc, buf, pk, Some(last))
    {
      hide Valid, BTree.Valid, BTree.Contents, BTree.Readable, Iterator.Ready, Iterator.On, Iterator.Pos, Phys, Static,
        InStep, IsNext, NoNext, IsPrev, NoPrev, PrimaryOrder;
      ReadyToRead();
      RowKeys();
      buf := [];
      var r;
      r, pk := NextKey(primaryIt, last);
      primaryIt.Apart();
      ValidParts();
      if r == 0 {
        return HA_ERR_END_OF_FILE, buf, pk;
      }
      buf := CurrentRow(pk);
      rc := HA_OK;
    }

    method PrimaryPrev(ghost last: seq<F>) returns (rc: Error, buf: seq<Byte>, ghost pk: seq<F>)
      requires Valid() && primaryIt.AtKey(last)
      modifies primaryIt, primary.pool`marked
      ensures Valid() && (rc == HA_OK || rc == HA_ERR_END_OF_FILE) && CameBack(rc, buf, pk, Some(last))
    {
      hide Valid, BTree.Valid, BTree.Contents, BTree.Readable, Iterator.Ready, Iterator.On, Iterator.Pos, Phys, Static,
        InStep, IsNext, NoNext, IsPrev, NoPrev, PrimaryOrder;
      ReadyToRead();
      RowKeys();
      buf := [];
      var r;
      r, pk := PrevKey(primaryIt, last);
      primaryIt.Apart();
      ValidParts();
      if r == 0 {
        return HA_ERR_END_OF_FILE, buf, pk;
      }
      buf := CurrentRow(pk);
      rc := HA_OK;
    }

    // The branches for the secondary indexes

    method SecondaryFirst() returns (rc: Error, buf: seq<Byte>, ghost k: SecKey<F>)
      requires Valid()
      modifies primaryIt, primary.pool`marked, secIt, secondary.pool`marked
      ensures Valid() && (rc == HA_OK || rc == HA_ERR_KEY_NOT_FOUND)
      ensures OnEntryOf(rc, buf, k) && MovedOn(fcmp, Entries(), None, rc == HA_OK, k)
    {
      hide Valid, BTree.Valid, BTree.Contents, BTree.Readable, Iterator.Ready, Iterator.On, Iterator.Pos, Phys, Static,
        InStep, IsNext, NoNext, IsPrev, NoPrev, SecOrder;
      ReadyToRead();
      buf := [];
      var r;
      r, k := FirstKey(secIt);
      secIt.Apart();
      ValidParts();
      if r == 0 {
        return HA_ERR_KEY_NOT_FOUND, buf, k;
      }
      buf := CurrentSecRow(k);
      rc := HA_OK;
    }

    method SecondaryLast() returns (rc: Error, buf: seq<Byte>, ghost k: SecKey<F>)
      requires Valid()
      modifies primaryIt, primary.pool`marked, secIt, secondary.pool`marked
      ensures Valid() && (rc == HA_OK || rc == HA_ERR_KEY_NOT_FOUND)
      ensures OnEntryOf(rc, buf, k) && MovedBack(fcmp, Entries(), None, rc == HA_OK, k)
    {
      hide Valid, BTree.Valid, BTree.Contents, BTree.Readable, Iterator.Ready, Iterator.On, Iterator.Pos, Phys, Static,
        InStep, IsNext, NoNext, IsPrev, NoPrev, SecOrder;
      ReadyToRead();
      buf := [];
      var r;
      r, k := LastKey(secIt);
      secIt.Apart();
      ValidParts();
      if r == 0 {
        return HA_ERR_KEY_NOT_FOUND, buf, k;
      }
      buf := CurrentSecRow(k);
      rc := HA_OK;
    }

    method SecondaryNext(ghost last: SecKey<F>) returns (rc: Error, buf: seq<Byte>, ghost k: SecKey<F>)
      requires Valid() && secIt.AtKey(last)
      modifies primaryIt, primary.pool`marked, secIt, secondary.pool`marked
      ensures Valid() && (rc == HA_OK || rc == HA_ERR_END_OF_FILE)
      ensures OnEntryOf(rc, buf, k) && MovedOn(fcmp, Entries(), Some(last), rc == HA_OK, k)
    {
      hide Valid, BTree.Valid, BTree.Contents, BTree.Readable, Iterator.Ready, Iterator.On, Iterator.Pos, Phys, Static,
        InStep, IsNext, NoNext, IsPrev, NoPrev, SecOrder;
      ReadyToRead();
      buf := [];
      var r;
      r, k := NextKey(secIt, last);
      secIt.Apart();
      ValidParts();
      if r == 0 {
        return HA_ERR_END_OF_FILE, buf, k;
      }
      buf := CurrentSecRow(k);
      rc := HA_OK;
    }

    method SecondaryPrev(ghost last: SecKey<F>) returns (rc: Error, buf: seq<Byte>, ghost k: SecKey<F>)
      requires Valid() && secIt.AtKey(last)
      modifies primaryIt, primary.pool`marked, secIt, secondary.pool`marked
      ensures Valid() && (rc == HA_OK || rc == HA_ERR_END_OF_FILE)
      ensures OnEntryOf(rc, buf, k) && MovedBack(fcmp, Entries(), Some(last), rc == HA_OK, k)
    {
      hide Valid, BTree.Valid, BTree.Contents, BTree.Readable, Iterator.Ready, Iterator.On, Iterator.Pos, Phys, Static,
        InStep, IsNext, NoNext, IsPrev, NoPrev, SecOrder;
      ReadyToRead();
      buf := [];
      var r;
      r, k := PrevKey(secIt, last);
      secIt.Apart();
      ValidParts();
      if r == 0 {
        return HA_ERR_END_OF_FILE, buf, k;
      }
      buf := CurrentSecRow(k);
      rc := HA_OK;
    }

    lemma ReadyToAgree()
      requires Valid()
      ensures RowsOK(rows, keys) && Agree(rows, keys, Entries()) && FieldOrder(fcmp)
    {
      hide BTree.Valid, BTree.Contents, BTree.Readable, Agree, RowsOK;
    }

    /** index_first: the first row; on a secondary index the first entry of the tree that all share. */
    method IndexFirst() returns (rc: Error, buf: seq<Byte>, ghost k: SecKey<F>)
      requires Valid() && activeIndex < keys
      modifies primaryIt, primary.pool`marked, secIt, secondary.pool`marked
      ensures Valid() && (rc == HA_OK || rc == HA_ERR_KEY_NOT_FOUND)
      ensures activeIndex == 0 ==> Came(rc, buf, k.pk, None)
      ensures activeIndex == 0 && rc == HA_OK ==>
        forall pk :: pk in rows && pk != k.pk ==> KeyBefore(fcmp, 0, k.pk, pk)
      ensures activeIndex > 0 ==> OnEntryOf(rc, buf, k) && MovedOn(fcmp, Entries(), None, rc == HA_OK, k)
      ensures activeIndex > 0 ==>
        (MovedOn(fcmp, OfIndex(Entries(), activeIndex), None, rc == HA_OK, k) <==>
         StaysOn(fcmp, rows, keys, activeIndex, None))
    {
      hide Valid, OnEntryOf, MovedOn, StaysOn, Iterator.AtKey, KeyBefore, FieldOrder, IsNext, NoNext;
      if activeIndex != 0 {
        rc, buf, k := SecondaryFirst();
        ReadyToAgree();
        NextExact(fcmp, rows, keys, Entries(), activeIndex, None, rc == HA_OK, k);
      } else {
        ghost var pk;
        rc, buf, pk := PrimaryFirst();
        k := SecKey(0, [], pk);
        ReadyToAgree();
        NextMeans(fcmp, rows.Keys, None, pk);
      }
    }

    /** index_last */
    method IndexLast() returns (rc: Error, buf: seq<Byte>, ghost k: SecKey<F>)
      requires Valid() && activeIndex < keys
      modifies primaryIt, primary.pool`marked, secIt, secondary.pool`marked
      ensures Valid() && (rc == HA_OK || rc == HA_ERR_KEY_NOT_FOUND)
      ensures activeIndex == 0 ==> CameBack(rc, buf, k.pk, None)
      ensures activeIndex > 0 ==> OnEntryOf(rc, buf, k) && MovedBack(fcmp, Entries(), None, rc == HA_OK, k)
      ensures activeIndex > 0 ==>
        (MovedBack(fcmp, OfIndex(Entries(), activeIndex), None, rc == HA_OK, k) <==>
         StaysBack(fcmp, rows, keys, activeIndex, None))
    {
      hide Valid, CameBack, OnEntryOf, MovedBack, StaysBack, Iterator.AtKey;
      if activeIndex != 0 {
        rc, buf, k := SecondaryLast();
        ReadyToAgree();
        PrevExact(fcmp, rows, keys, Entries(), activeIndex, None, rc == HA_OK, k);
      } else {
        ghost var pk;
        rc, buf, pk := PrimaryLast();
        k := SecKey(0, [], pk);
      }
    }

    /** index_next, from the row or entry `last`, which may have been deleted since. */
    method IndexNext(ghost last: SecKey<F>) returns (rc: Error, buf: seq<Byte>, ghost k: SecKey<F>)
      requires Valid() && activeIndex < keys
      requires if activeIndex == 0 then primaryIt.AtKey(last.pk) else secIt.AtKey(last)
      modifies primaryIt, primary.pool`marked, secIt, secondary.pool`marked
      ensures Valid() && (rc == HA_OK || rc == HA_ERR_END_OF_FILE)
      ensures activeIndex == 0 ==> Came(rc, buf, k.pk, Some(last.pk))
      ensures activeIndex > 0 ==> OnEntryOf(rc, buf, k) && MovedOn(fcmp, Entries(), Some(last), rc == HA_OK, k)
      ensures activeIndex > 0 && last.idx == activeIndex ==>
        (MovedOn(fcmp, OfIndex(Entries(), activeIndex), Some(last), rc == HA_OK, k) <==>
         StaysOn(fcmp, rows, keys, activeIndex, Some(last)))
    {
      hide Valid, Came, OnEntryOf, MovedOn, StaysOn, Iterator.AtKey;
      if activeIndex != 0 {
        rc, buf, k := SecondaryNext(last);
        ReadyToAgree();
        if last.idx == activeIndex {
          NextExact(fcmp, rows, keys, Entries(), activeIndex, Some(last), rc == HA_OK, k);
        }
      } else {
        ghost var pk;
        rc, buf, pk := PrimaryNext(last.pk);
        k := SecKey(0, [], pk);
      }
    }

    /** index_prev */
    method IndexPrev(ghost last: SecKey<F>) returns (rc: Error, buf: seq<Byte>, ghost k: SecKey<F>)
      requires Valid() && activeIndex < keys
      requires if activeIndex == 0 then primaryIt.AtKey(last.pk) else secIt.AtKey(last)
      modifies primaryIt, primary.pool`marked, secIt, secondary.pool`marked
      ensures Valid() && (rc == HA_OK || rc == HA_ERR_END_OF_FILE)
      ensures activeIndex == 0 ==> CameBack(rc, buf, k.pk, Some(last.pk))
      ensures activeIndex > 0 ==> OnEntryOf(rc, buf, k) && MovedBack(fcmp, Entries(), Some(last), rc == HA_OK, k)
      ensures activeIndex > 0 && last.idx == activeIndex ==>
        (MovedBack(fcmp, OfIndex(Entries(), activeIndex), Some(last), rc == HA_OK, k) <==>
         StaysBack(fcmp, rows, keys, activeIndex, Some(last)))
    {
      hide Valid, CameBack, OnEntryOf, MovedBack, StaysBack, Iterator.AtKey;
      if activeIndex != 0 {
        rc, buf, k := SecondaryPrev(last);
        ReadyToAgree();
        if last.idx == activeIndex {
          PrevExact(fcmp, rows, keys, Entries(), activeIndex, Some(last), rc == HA_OK, k);
        }
      } else {
        ghost var pk;
        rc, buf, pk := PrimaryPrev(last.pk);
        k := SecKey(0, [], pk);
      }
    }

    /** rnd_next, by index_first and then index_next on the primary index.  `last` is the row
        returned before, which may have been deleted since. */
    method RndNext(ghost last: Option<seq<F>>) returns (rc: Error, buf: seq<Byte>, ghost pk: seq<F>)
      requires Valid() && activeIndex == 0
      requires if firstRow then last.None? else last.Some? && primaryIt.AtKey(last.value)
      modifies `firstRow, primaryIt, primary.pool`marked, secIt, secondary.pool`marked
      ensures Valid() && !firstRow && Came(rc, buf, pk, last)
      ensures rc == HA_OK || rc == if old(firstRow) then HA_ERR_KEY_NOT_FOUND else HA_ERR_END_OF_FILE
      ensures rc == HA_OK ==> forall k :: k in rows && k != pk && (last.Some? ==> KeyBefore(fcmp, 0, last.value, k)) ==>
        KeyBefore(fcmp, 0, pk, k)
    {
      hide Valid, Iterator.AtKey, KeyBefore, IsNext, NoNext, BTree.Valid, BTree.Readable, BTree.Contents,
        Iterator.Ready, InStep, FieldOrder;
      ReadyToRead();
      ghost var k;
      if firstRow {
        firstRow := false;
        rc, buf, k := IndexFirst();
      } else {
        rc, buf, k := IndexNext(SecKey(0, [], last.value));
      }
      pk := k.pk;
      ReadyToAgree();
      NextMeans(fcmp, rows.Keys, last, pk);
    }

    /** What delete_row asks of its caller: the row has the secondary keys of the stored one. */
    ghost predicate IsStored(row: Row<F>)
      reads `rows
    {
      |row.secs| == keys - 1 && (row.pk in rows ==> rows[row.pk].secs == row.secs)
    }

    method DeleteRows(gone: seq<Row<F>>)
      requires Valid() && forall row :: row in gone ==> IsStored(row)
      modifies `rows, primary`tree, primary.pool`img, primary.pool`marked, primary.pool.objs
      modifies secondary`tree, secondary.pool`img, secondary.pool`marked, secondary.pool.objs
      ensures Valid() && primary.Repr() == old(primary.Repr()) && secondary.Repr() == old(secondary.Repr())
      ensures primary.pool.objs == old(primary.pool.objs) && secondary.pool.objs == old(secondary.pool.objs)
      ensures rows == old(rows) - set k | k in PksOf(gone)
      ensures forall pk :: old(primaryIt.AtKey(pk)) ==> primaryIt.AtKey(pk)
    {
      hide Valid, Iterator.AtKey;
      for i := 0 to |gone|
        invariant Valid() && primary.Repr() == old(primary.Repr()) && secondary.Repr() == old(secondary.Repr())
        invariant primary.pool.objs == old(primary.pool.objs) && secondary.pool.objs == old(secondary.pool.objs)
        invariant rows == old(rows) - set k | k in PksOf(gone[..i])
        invariant forall pk :: old(primaryIt.AtKey(pk)) ==> primaryIt.AtKey(pk)
      {
        assert gone[i] in gone;
        var rc := DeleteRow(gone[i]);
        assert PksOf(gone[..i + 1]) == PksOf(gone[..i]) + [gone[i].pk];
      }
      assert gone[..|gone|] == gone;
    }

    /** What is known between two calls of rnd_next. */
    ghost predicate Scanning(rows0: map<seq<F>, Row<F>>, gone: seq<seq<Row<F>>>, pks: seq<seq<F>>, bufs: seq<seq<Byte>>)
      reads `rows
    {
      Returned(fcmp, rows0, gone, pks, bufs) && Remains(rows0, rows, gone, |pks|) && LeftOver(fcmp, rows, pks)
    }

    /** The deletions of a scan are of rows as they are stored, or of none. */
    ghost predicate AllStored(rows0: map<seq<F>, Row<F>>, gone: seq<seq<Row<F>>>) {
      forall step, row :: step in gone && row in step ==>
        |row.secs| == keys - 1 && (row.pk in rows0 ==> rows0[row.pk].secs == row.secs)
    }

    lemma StepStored(rows0: map<seq<F>, Row<F>>, gone: seq<seq<Row<F>>>, i: nat)
      requires AllStored(rows0, gone) && Remains(rows0, rows, gone, i)
      ensures forall row :: row in RowsAt(gone, i) ==> IsStored(row)
    {
      if i < |gone| {
        assert gone[i] in gone;
      }
    }

    /** A table scan, while after step `i` the rows `gone[i]` are deleted, be they returned already,
        the current one, or still ahead: no row is returned twice or after its deletion, and every
        row that stays is returned. */
    method ScanDeleting(gone: seq<seq<Row<F>>>) returns (bufs: seq<seq<Byte>>, ghost pks: seq<seq<F>>)
      requires Valid() && AllStored(rows, gone)
      modifies `rows, `activeIndex, `firstRow, primaryIt, secIt
      modifies primary`tree, primary.pool`img, primary.pool`marked, primary.pool.objs
      modifies secondary`tree, secondary.pool`img, secondary.pool`marked, secondary.pool.objs
      ensures Valid() && Remains(old(rows), rows, gone, |pks|) && Returned(fcmp, old(rows), gone, pks, bufs)
      ensures forall pk :: pk in rows ==> pk in pks
    {
      hide Valid, Scanning, Came, AllStored, Iterator.AtKey;
      ghost var rows0 := rows;
      bufs, pks := [], [];
      StartScan(gone);
      ghost var seen := {};
      var rc, buf;
      ghost var pk;
      rc, buf, pk := FirstRow();
      while rc == HA_OK
        invariant Valid() && activeIndex == 0 && !firstRow
        invariant primary.pool.objs == old(primary.pool.objs) && secondary.pool.objs == old(secondary.pool.objs)
        invariant Scanning(rows0, gone, pks, bufs) && Came(rc, buf, pk, LastOf(pks))
        invariant |bufs| == |pks| && seen == set k | k in pks
        decreases rc == HA_OK, |rows0.Keys - seen|
      {
        var rc', buf';
        ghost var pk';
        rc', buf', pk' := ScanTurn(rows0, gone, pks, bufs, buf, pk);
        FewerLeft(rows0.Keys, seen, pk);
        pks, bufs, seen := pks + [pk], bufs + [buf], seen + {pk};
        rc, buf, pk := rc', buf', pk';
      }
      EndTableScan(rows0, gone, pks, bufs, rc, buf, pk);
    }

    method FirstRow() returns (rc: Error, buf: seq<Byte>, ghost pk: seq<F>)
      requires Valid()
      modifies `activeIndex, `firstRow, primaryIt, primary.pool`marked, secIt, secondary.pool`marked
      ensures Valid() && activeIndex == 0 && !firstRow && Came(rc, buf, pk, None)
    {
      hide Valid, Came, Iterator.AtKey, BTree.Valid, Static, InStep, BTree.Contents, BTree.Readable;
      ReadyToRead();
      RndInit();
      rc, buf, pk := RndNext(None);
    }

    lemma StartScan(gone: seq<seq<Row<F>>>)
      ensures Scanning(rows, gone, [], [])
    {
    }

    lemma FewerLeft(all: set<seq<F>>, seen: set<seq<F>>, pk: seq<F>)
      requires pk in all && pk !in seen
      ensures |all - (seen + {pk})| < |all - seen|
    {
      assert all - (seen + {pk}) == (all - seen) - {pk};
    }

    lemma EndTableScan(rows0: map<seq<F>, Row<F>>, gone: seq<seq<Row<F>>>, pks: seq<seq<F>>, bufs: seq<seq<Byte>>,
                       rc: Error, buf: seq<Byte>, pk: seq<F>)
      requires Scanning(rows0, gone, pks, bufs) && Came(rc, buf, pk, LastOf(pks)) && rc != HA_OK
      ensures Remains(rows0, rows, gone, |pks|) && Returned(fcmp, rows0, gone, pks, bufs)
      ensures forall k :: k in rows ==> k in pks
    {
      hide PrimaryOrder, RowGone, Returned, Remains;
    }

    /** One turn of the scan: rows are deleted, and the next one is read. */
    method ScanTurn(ghost rows0: map<seq<F>, Row<F>>, gone: seq<seq<Row<F>>>, ghost pks: seq<seq<F>>,
            bufs: seq<seq<Byte>>, buf: seq<Byte>, ghost pk: seq<F>)
      returns (rc: Error, buf': seq<Byte>, ghost pk': seq<F>)
      requires Valid() && activeIndex == 0 && !firstRow && AllStored(rows0, gone)
      requires Scanning(rows0, gone, pks, bufs) && |bufs| == |pks| && Came(HA_OK, buf, pk, LastOf(pks))
      modifies `rows, `firstRow, primaryIt, secIt
      modifies primary`tree, primary.pool`img, primary.pool`marked, primary.pool.objs
      modifies secondary`tree, secondary.pool`img, secondary.pool`marked, secondary.pool.objs
      ensures Valid() && activeIndex == 0 && !firstRow
      ensures primary.pool.objs == old(primary.pool.objs) && secondary.pool.objs == old(secondary.pool.objs)
      ensures Scanning(rows0, gone, pks + [pk], bufs + [buf]) && pk in rows0 && pk !in pks
      ensures Came(rc, buf', pk', Some(pk))
    {
      hide Valid, Scanning, AllStored, Iterator.AtKey, IsNextRow, NoNextRow, RowBytes, Came;
      DeleteStep(rows0, gone, pks, bufs, buf, pk);
      rc, buf', pk' := RndNext(Some(pk));
    }

    method DeleteStep(ghost rows0: map<seq<F>, Row<F>>, gone: seq<seq<Row<F>>>, ghost pks: seq<seq<F>>,
                      bufs: seq<seq<Byte>>, ghost buf: seq<Byte>, ghost pk: seq<F>)
      requires Valid() && AllStored(rows0, gone)
      requires Scanning(rows0, gone, pks, bufs) && |bufs| == |pks| && Came(HA_OK, buf, pk, LastOf(pks))
      modifies `rows, primary`tree, primary.pool`img, primary.pool`marked, primary.pool.objs
      modifies secondary`tree, secondary.pool`img, secondary.pool`marked, secondary.pool.objs
      ensures Valid() && activeIndex == old(activeIndex) && firstRow == old(firstRow) && primaryIt.AtKey(pk)
      ensures primary.pool.objs == old(primary.pool.objs) && secondary.pool.objs == old(secondary.pool.objs)
      ensures Scanning(rows0, gone, pks + [pk], bufs + [buf]) && pk in rows0 && pk !in pks
    {
      hide Valid, Returned, LeftOver, Remains, AllStored, IsStored, Iterator.AtKey, RowsAt, PksOf, BTree.Valid,
        Static, InStep,
        BTree.Contents, BTree.Readable;
      TurnFacts(rows0, gone, pks, bufs, buf, pk);
      StepStored(rows0, gone, |bufs|);
      ReadyToRead();
      ghost var rows1 := rows;
      DeleteRows(RowsAt(gone, |bufs|));
      RemainsNext(rows0, rows1, rows, gone, |pks|);
      LeftOverMore(fcmp, rows1, rows, pks, pk);
    }

    lemma TurnFacts(rows0: map<seq<F>, Row<F>>, gone: seq<seq<Row<F>>>, pks: seq<seq<F>>, bufs: seq<seq<Byte>>,
                    buf: seq<Byte>, pk: seq<F>)
      requires Valid() && Scanning(rows0, gone, pks, bufs) && Came(HA_OK, buf, pk, LastOf(pks))
      ensures IsNext(PrimaryOrder(fcmp), rows.Keys, LastOf(pks), pk) && primaryIt.AtKey(pk)
      ensures Returned(fcmp, rows0, gone, pks + [pk], bufs + [buf]) && pk in rows0 && pk !in pks
      ensures Remains(rows0, rows, gone, |pks|) && LeftOver(fcmp, rows, pks)
    {
      hide Valid, Returned, LeftOver, Iterator.AtKey, FieldOrder, BTree.Valid;
      ReadyToRead();
      ReturnedMore(fcmp, rows0, rows, gone, pks, bufs, pk, buf);
    }
  }
}
