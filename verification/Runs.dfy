/** Whole runs of puts and removals on a tree, from the empty tree on. */
module Runs {
  import opened Slots
  import opened Trees
  import opened Forms

  /** A tree with the next unused block index, the number of interior levels, and the
      number of items counted. */
  datatype State<K> = State(tree: Tree<K>, blocks: nat, height: nat, items: nat)

  /** One call: a put with the bytes it stores in the leaf, where `blocks` is the next
      unused block index once the value is stored; a put whose value could not be stored;
      and the removal of the entry of a live key. */
  datatype Op<K> = Put(key: K, payload: Payload, blocks: nat) | Refused(key: K) | Remove(key: K)

  /** What every operation keeps. */
  ghost predicate WellFormed<K(!new)>(cmp: (K, K) -> int, c: Caps, s: State<K>) {
    && c.leaf >= 3 && c.node >= 3
    && Ordered(cmp, s.tree) && Shape(s.tree, s.height, c)
    && s.tree.Count() < Cap(s.tree, c) && (s.tree.Node? ==> s.tree.Count() >= 2)
  }

  ghost predicate IsPut<K(!new)>(cmp: (K, K) -> int, c: Caps, s: State<K>, op: Op<K>, s': State<K>)
    requires op.Put?
  {
    if Live(Phys(s.tree), At(cmp, op.key)) then s' == s
    else
      && c.leaf >= 3 && c.node >= 3 && Shape(s.tree, s.height, c) && op.blocks >= s.blocks
      && (s'.tree, s'.blocks, s'.height) ==
        Trees.Put(s.tree, At(cmp, op.key), op.key, op.payload, op.blocks, s.height, c)
      && s'.items == s.items + 1
  }

  /** A removal clears the flag of one entry and leaves the rest. */
  ghost predicate IsRemove<K>(cmp: (K, K) -> int, s: State<K>, key: K, s': State<K>) {
    && Live(Phys(s.tree), At(cmp, key)) && SameForm(s.tree, s'.tree)
    && Phys(s'.tree) == Kill(Phys(s.tree), Lub(Phys(s.tree), At(cmp, key)))
    && s' == s.(tree := s'.tree)
  }

  ghost predicate IsStep<K(!new)>(cmp: (K, K) -> int, c: Caps, s: State<K>, op: Op<K>, s': State<K>) {
    match op
    case Put(_, _, _) => IsPut(cmp, c, s, op, s')
    case Refused(_) => s' == s.(blocks := s'.blocks) && s.blocks <= s'.blocks
    case Remove(key) => IsRemove(cmp, s, key, s')
  }

  /** The same step on a map. */
  ghost function MapStep<K>(op: Op<K>, m: map<K, Payload>): map<K, Payload> {
    match op
    case Put(key, w, _) => if key in m then m else m[key := w]
    case Refused(_) => m
    case Remove(key) => m - {key}
  }

  ghost function Map<K(!new)>(cmp: (K, K) -> int, s: State<K>): map<K, Payload>
    requires Ordered(cmp, s.tree)
  {
    PayloadMap(cmp, Phys(s.tree))
  }

  lemma {:induction false} PutStep<K(!new)>(cmp: (K, K) -> int, c: Caps, s: State<K>, op: Op<K>, s': State<K>)
    requires WellFormed(cmp, c, s) && op.Put? && IsPut(cmp, c, s, op, s')
    ensures WellFormed(cmp, c, s') && Map(cmp, s') == MapStep(op, Map(cmp, s))
  {
    hide PayloadMap, Live, Enter, Trees.Put, Shape;
    var phys := Phys(s.tree);
    LiveKeyFound(cmp, phys, op.key);
    MapKeys(cmp, phys);
    if !Live(phys, At(cmp, op.key)) {
      PutKeeps(cmp, s.tree, op.key, op.payload, op.blocks, s.height, c);
      EnterMap(cmp, phys, op.key, op.payload);
    }
  }

  lemma {:induction false} RemoveStep<K(!new)>(cmp: (K, K) -> int, c: Caps, s: State<K>, key: K, s': State<K>)
    requires WellFormed(cmp, c, s) && IsRemove(cmp, s, key, s')
    ensures WellFormed(cmp, c, s') && Map(cmp, s') == Map(cmp, s) - {key} && key in Map(cmp, s)
  {
    hide PayloadMap, Shape, Phys, Lub, SameForm, Kill;
    var phys := Phys(s.tree);
    var i := Lub(phys, At(cmp, key));
    assert phys[i].key == key;
    FormTop(s.tree, s'.tree);
    FormShape(s.tree, s'.tree, s.height, c);
    FormOrdered(cmp, s.tree, s'.tree);
    KillMap(cmp, phys, i);
    LiveKeyFound(cmp, phys, key);
    MapKeys(cmp, phys);
  }

  /** Every step keeps the tree well formed and is that step on the map of live keys. */
  lemma {:induction false} StepKeeps<K(!new)>(cmp: (K, K) -> int, c: Caps, s: State<K>, op: Op<K>, s': State<K>)
    requires WellFormed(cmp, c, s) && IsStep(cmp, c, s, op, s')
    ensures WellFormed(cmp, c, s') && Map(cmp, s') == MapStep(op, Map(cmp, s))
    ensures s'.items == s.items + if op.Put? && op.key !in Map(cmp, s) then 1 else 0
    ensures op.Remove? ==> op.key in Map(cmp, s)
  {
    hide Map, IsRemove, Live, Shape, Trees.Put;
    match op
    case Put(key, _, _) =>
      PutStep(cmp, c, s, op, s');
      LiveIsMapped(cmp, s, key);
    case Refused(_) =>
      SameTree(cmp, c, s, s');
    case Remove(key) =>
      RemoveStep(cmp, c, s, key, s');
      assert s' == s.(tree := s'.tree) by { RemoveRest(cmp, s, key, s'); }
  }

  /** Clearing the flag of a live entry is the removal of its key. */
  lemma {:induction false} EntryRemoved<K(!new)>(cmp: (K, K) -> int, s: State<K>, i: nat, s': State<K>)
    requires Ordered(cmp, s.tree) && i < |Phys(s.tree)| && Phys(s.tree)[i].live
    requires SameForm(s.tree, s'.tree) && Phys(s'.tree) == Kill(Phys(s.tree), i) && s' == s.(tree := s'.tree)
    ensures IsRemove(cmp, s, Phys(s.tree)[i].key, s')
  {
    hide Lub, SameForm;
    FoundAt(cmp, Phys(s.tree), i);
  }

  lemma SameTree<K(!new)>(cmp: (K, K) -> int, c: Caps, s: State<K>, s': State<K>)
    requires WellFormed(cmp, c, s) && s' == s.(blocks := s'.blocks)
    ensures WellFormed(cmp, c, s') && Map(cmp, s') == Map(cmp, s)
  {
  }

  lemma RemoveRest<K>(cmp: (K, K) -> int, s: State<K>, key: K, s': State<K>)
    requires IsRemove(cmp, s, key, s')
    ensures s' == s.(tree := s'.tree)
  {
  }

  lemma LiveIsMapped<K(!new)>(cmp: (K, K) -> int, s: State<K>, key: K)
    requires Ordered(cmp, s.tree)
    ensures key in Map(cmp, s) <==> Live(Phys(s.tree), At(cmp, key))
  {
    hide PayloadMap, Live;
    LiveKeyFound(cmp, Phys(s.tree), key);
    MapKeys(cmp, Phys(s.tree));
  }

  // Runs

  /** BTree::create */
  function Empty<K>(): State<K> {
    State(Leaf(1, []), 2, 0, 0)
  }

  lemma EmptyWellFormed<K(!new)>(cmp: (K, K) -> int, c: Caps)
    requires TotalOrder(cmp) && c.leaf >= 3 && c.node >= 3
    ensures WellFormed(cmp, c, Empty<K>()) && Map(cmp, Empty<K>()) == map[]
  {
  }

  ghost predicate IsRun<K(!new)>(cmp: (K, K) -> int, c: Caps, ss: seq<State<K>>, ops: seq<Op<K>>) {
    && |ss| == |ops| + 1 && ss[0] == Empty()
    && forall i :: 0 <= i < |ops| ==> IsStep(cmp, c, ss[i], ops[i], ss[i + 1])
  }

  /** The map after a run, from the calls alone. */
  ghost function MapAfter<K>(ops: seq<Op<K>>): map<K, Payload> {
    if ops == [] then map[]
    else MapStep(ops[|ops| - 1], MapAfter(ops[..|ops| - 1]))
  }

  /** How many puts of a run entered a key that was not live. */
  ghost function NewPuts<K>(ops: seq<Op<K>>): nat {
    if ops == [] then 0
    else
      var op, before := ops[|ops| - 1], ops[..|ops| - 1];
      NewPuts(before) + if op.Put? && op.key !in MapAfter(before) then 1 else 0
  }

  ghost function Removals<K>(ops: seq<Op<K>>): nat {
    if ops == [] then 0
    else Removals(ops[..|ops| - 1]) + if ops[|ops| - 1].Remove? then 1 else 0
  }

  /** After every run the tree is well formed, its live keys are those of the same run on
      a map, and the item counter is the number of puts that entered a key: the number of
      live keys plus the number of removals. */
  lemma {:induction false} RunKeeps<K(!new)>(cmp: (K, K) -> int, c: Caps, ss: seq<State<K>>, ops: seq<Op<K>>)
    requires TotalOrder(cmp) && c.leaf >= 3 && c.node >= 3 && IsRun(cmp, c, ss, ops)
    ensures var s := ss[|ops|];
      && WellFormed(cmp, c, s) && Map(cmp, s) == MapAfter(ops)
      && s.items == NewPuts(ops) == |MapAfter(ops)| + Removals(ops)
    decreases |ops|
  {
    hide Map, WellFormed, IsStep, MapStep;
    if ops == [] {
      EmptyWellFormed(cmp, c);
    } else {
      var n := |ops| - 1;
      RunKeeps(cmp, c, ss[..n + 1], ops[..n]);
      StepKeeps(cmp, c, ss[n], ops[n], ss[n + 1]);
      CountStep(ops[n], MapAfter(ops[..n]));
    }
  }

  lemma CountStep<K>(op: Op<K>, m: map<K, Payload>)
    requires op.Remove? ==> op.key in m
    ensures |MapStep(op, m)| == |m| + (if op.Put? && op.key !in m then 1 else 0) - if op.Remove? then 1 else 0
  {
    if op.Put? {
      assert m[op.key := op.payload].Keys == m.Keys + {op.key};
      assert |m[op.key := op.payload].Keys| == |m[op.key := op.payload]|;
    } else if op.Remove? {
      assert (m - {op.key}).Keys == m.Keys - {op.key};
      assert |(m - {op.key}).Keys| == |m - {op.key}|;
    }
  }

  /** Removing a live key and putting it back changes its value and nothing else: the nodes,
      their blocks and all keys stay, and no node is split. */
  lemma {:induction false} RemoveThenPut<K(!new)>(cmp: (K, K) -> int, c: Caps, s: State<K>, s1: State<K>,
          s2: State<K>, op: Op<K>)
    requires WellFormed(cmp, c, s) && op.Put?
    requires IsRemove(cmp, s, op.key, s1) && IsPut(cmp, c, s1, op, s2)
    ensures SameForm(s.tree, s2.tree) && s2.height == s.height && s2.blocks == op.blocks
    ensures var i := Lub(Phys(s.tree), At(cmp, op.key));
      && i < |Phys(s.tree)| && Phys(s2.tree) == Phys(s.tree)[i := Slot(op.key, true, op.payload)]
  {
    hide Shape, Phys, SameForm, Trees.Put, Lub, Live, Present, Kill, Enter, PayloadMap, Sorted;
    RemoveStep(cmp, c, s, op.key, s1);
    KilledPlace(cmp, Phys(s.tree), op.key);
    RevivePut(cmp, s1.tree, op.key, op.payload, op.blocks, s1.height, c);
    FormTrans(s.tree, s1.tree, s2.tree);
    PutKeeps(cmp, s1.tree, op.key, op.payload, op.blocks, s1.height, c);
  }

  lemma {:induction false} KilledPlace<K(!new)>(cmp: (K, K) -> int, s: seq<Slot<K>>, key: K)
    requires TotalOrder(cmp) && Sorted(cmp, s) && Live(s, At(cmp, key))
    ensures var i := Lub(s, At(cmp, key));
      && i < |s| && s[i].key == key && Lub(Kill(s, i), At(cmp, key)) == i
      && Present(Kill(s, i), At(cmp, key)) && !Live(Kill(s, i), At(cmp, key))
      && forall w :: Enter(Kill(s, i), At(cmp, key), key, w) == s[i := Slot(key, true, w)]
  {
    hide Lub;
    var i := Lub(s, At(cmp, key));
    LubUnique(Kill(s, i), At(cmp, key), i);
  }

  // How high a tree can be

  function Pow(b: nat, e: nat): nat {
    if e == 0 then 1 else b * Pow(b, e - 1)
  }

  lemma {:induction false} ManyBelow<K>(es: seq<Entry<K>>, b: nat)
    requires forall i :: 0 <= i < |es| ==> |Phys(es[i].kid)| >= b
    ensures |PhysAll(es)| >= |es| * b
  {
    if es != [] {
      ManyBelow(es[1..], b);
      assert |es| * b == b + (|es| - 1) * b;
    }
  }

  lemma {:induction false} HalfFull<K>(t: Tree<K>, h: nat, c: Caps)
    requires Shape(t, h, c) && Cap(t, c) / 2 <= t.Count()
    ensures |Phys(t)| >= Pow(c.node / 2, h) * (c.leaf / 2)
    decreases h
  {
    if h > 0 {
      var b := Pow(c.node / 2, h - 1) * (c.leaf / 2);
      forall i | 0 <= i < |t.entries| ensures |Phys(t.entries[i].kid)| >= b {
        HalfFull(t.entries[i].kid, h - 1, c);
      }
      ManyBelow(t.entries, b);
      Grows(|t.entries|, c.node / 2, Pow(c.node / 2, h - 1), c.leaf / 2);
    }
  }

  lemma Grows(n: nat, m: nat, p: nat, l: nat)
    requires n >= m
    ensures n * (p * l) >= m * p * l
  {
    assert m * p * l == m * (p * l);
  }

  /** A tree with h > 0 interior levels has at least 2 * (node / 2)^(h-1) * (leaf / 2)
      physical keys, whatever was removed from it. */
  lemma {:induction false} HeightBound<K(!new)>(cmp: (K, K) -> int, c: Caps, s: State<K>)
    requires WellFormed(cmp, c, s) && s.height > 0
    ensures |Phys(s.tree)| >= 2 * Pow(c.node / 2, s.height - 1) * (c.leaf / 2)
  {
    var b := Pow(c.node / 2, s.height - 1) * (c.leaf / 2);
    forall i | 0 <= i < |s.tree.entries| ensures |Phys(s.tree.entries[i].kid)| >= b {
      HalfFull(s.tree.entries[i].kid, s.height - 1, c);
    }
    ManyBelow(s.tree.entries, b);
    Grows(|s.tree.entries|, 2, Pow(c.node / 2, s.height - 1), c.leaf / 2);
  }
}
