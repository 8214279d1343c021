/** The where clause of lib/matu.h: one comparison of the id, or two with a connective,
    merged into one interval condition. */
module Conditions {
  datatype Op = GREATER | EQUAL | LESS

  /** A comparison as written: the operator, whether `=` follows it, and the number. */
  datatype Comparison = Comparison(op: Op, orEqual: bool, number: int)
  {
    /** The number after a strict comparison is made a non-strict one. */
    function Bound(): int {
      match op
      case GREATER => number + if orEqual then 0 else 1
      case EQUAL => number
      case LESS => number - if orEqual then 0 else 1
    }

    predicate Holds(id: int) {
      match op
      case GREATER => if orEqual then id >= number else id > number
      case EQUAL => id == number
      case LESS => if orEqual then id <= number else id < number
    }
  }

  datatype Clause =
    | One(first: Comparison)
    | And(first: Comparison, second: Comparison)
    | Or(first: Comparison, second: Comparison)
  {
    predicate Holds(id: int) {
      match this
      case One(c) => c.Holds(id)
      case And(c, d) => c.Holds(id) && d.Holds(id)
      case Or(c, d) => c.Holds(id) || d.Holds(id)
    }
  }

  datatype ResFlag = RES_BAD | RES_EQ_FIRST | RES_HI | RES_LO | RES_EQ_BOTH | RES_AND | RES_OR | RES_EQ_LO | RES_EQ_HI
    | RES_ALL

  datatype Condition = Condition(a: int, b: int, flag: ResFlag)
  {
    /** The ids a condition stands for. */
    predicate Selects(id: int) {
      match flag
      case RES_BAD => false
      case RES_EQ_FIRST => id == a
      case RES_HI => id <= a
      case RES_LO => id >= a
      case RES_EQ_BOTH => id == a || id == b
      case RES_AND => a <= id <= b
      case RES_OR => id <= a || id >= b
      case RES_EQ_LO => id == a || id >= b
      case RES_EQ_HI => id == a || id <= b
      case RES_ALL => true
    }
  }

  function Max(x: int, y: int): int {
    if x < y then y else x
  }

  function Min(x: int, y: int): int {
    if y < x then y else x
  }

  /** The condition of a single comparison. */
  function Start(c: Comparison): Condition {
    Condition(c.Bound(), 0, match c.op case GREATER => RES_LO case EQUAL => RES_EQ_FIRST case LESS => RES_HI)
  }

  /** The part of conditionParse after the comparisons are read: `num` and `x` are their
      bounds, and a field no branch sets keeps its value. */
  function Merge(clause: Clause): Condition {
    var res := Start(clause.first);
    var num := clause.first.Bound();
    match clause
    case One(_) => res
    case And(c, d) =>
      var x := d.Bound();
      (match d.op
       case GREATER =>
         (match c.op
          case GREATER => Condition(Max(num, x), res.b, RES_LO)
          case EQUAL => if num < x then res.(flag := RES_BAD) else Condition(num, res.b, RES_EQ_FIRST)
          case LESS =>
            if x > num then res.(flag := RES_BAD)
            else if x == num then Condition(x, res.b, RES_EQ_FIRST)
            else Condition(x, num, RES_AND))
       case EQUAL =>
         (match c.op
          case EQUAL => if x == num then Condition(x, res.b, RES_EQ_FIRST) else res.(flag := RES_BAD)
          case GREATER => if num > x then res.(flag := RES_BAD) else Condition(x, res.b, RES_EQ_FIRST)
          case LESS => if x > num then res.(flag := RES_BAD) else Condition(num, res.b, RES_EQ_FIRST))
       case LESS =>
         (match c.op
          case GREATER =>
            if x < num then res.(flag := RES_BAD)
            else if x == num then Condition(x, res.b, RES_EQ_FIRST)
            else Condition(num, x, RES_AND)
          case EQUAL => if num > x then res.(flag := RES_BAD) else Condition(num, res.b, RES_EQ_FIRST)
          case LESS => Condition(Min(num, x), res.b, RES_HI)))
    case Or(c, d) =>
      var x := d.Bound();
      (match d.op
       case GREATER =>
         (match c.op
          case GREATER => Condition(Min(num, x), res.b, RES_LO)
          case EQUAL => if num >= x then Condition(x, res.b, RES_LO) else Condition(num, x, RES_EQ_LO)
          case LESS => if x <= num + 1 then res.(flag := RES_ALL) else Condition(num, x, RES_OR))
       case EQUAL =>
         (match c.op
          case EQUAL => if x == num then Condition(x, res.b, RES_EQ_FIRST) else Condition(x, num, RES_EQ_BOTH)
          case GREATER => if x >= num then Condition(num, res.b, RES_LO) else Condition(x, num, RES_EQ_LO)
          case LESS => if x > num then Condition(x, num, RES_EQ_HI) else Condition(num, res.b, RES_HI))
       case LESS =>
         (match c.op
          case GREATER => if x + 1 >= num then res.(flag := RES_ALL) else Condition(x, num, RES_OR)
          case EQUAL => if num > x then Condition(num, x, RES_EQ_HI) else Condition(x, res.b, RES_HI)
          case LESS => Condition(Max(num, x), res.b, RES_HI)))
  }

  // Kinds of clauses, by what is written in them and by the ids they hold of

  /** The one arm that merges wrongly: `<= num and = x` with x below num keeps num. */
  predicate WrongArm(clause: Clause) {
    && clause.And? && clause.first.op.LESS? && clause.second.op.EQUAL?
    && clause.first.Holds(clause.second.number + 1)
  }

  ghost predicate IsSingle(clause: Clause, id: int) {
    forall k :: clause.Holds(k) <==> k == id
  }

  /** The clauses a lookup of one id is made for: the only id there is, and in the wrong arm the
      greatest id the first comparison holds of. */
  ghost predicate LooksFor(clause: Clause, id: int) {
    if WrongArm(clause) then clause.first.Holds(id) && !clause.first.Holds(id + 1) else IsSingle(clause, id)
  }

  /** The number of an equality that stands apart from what the other comparison holds of. */
  predicate StandsApart(equality: Comparison, other: Comparison) {
    equality.op.EQUAL? && !other.Holds(equality.number)
  }

  /** The clauses nothing is looked up for: an id apart from other ids, and all ids. */
  ghost predicate Unlooked(clause: Clause) {
    && clause.Or?
    && (|| StandsApart(clause.first, clause.second) || StandsApart(clause.second, clause.first)
        || forall id :: clause.Holds(id))
  }

  /** The kind a clause is merged into follows from the ids it holds of, and the bounds of a
      condition that is looked up are those of these ids. */
  lemma MergeKind(clause: Clause)
    ensures forall id :: LooksFor(clause, id) <==> Merge(clause).flag.RES_EQ_FIRST? && id == Merge(clause).a
    ensures Unlooked(clause) <==> Merge(clause).flag in {RES_EQ_BOTH, RES_EQ_LO, RES_EQ_HI, RES_ALL}
  {
    hide Merge, Unlooked;
    forall id ensures LooksFor(clause, id) <==> Merge(clause).flag.RES_EQ_FIRST? && id == Merge(clause).a {
      MergeSingle(clause, id);
    }
    MergeUnlooked(clause);
  }

  lemma MergeSingle(clause: Clause, id: int)
    ensures LooksFor(clause, id) <==> Merge(clause).flag.RES_EQ_FIRST? && id == Merge(clause).a
  {
    if !WrongArm(clause) {
      if IsSingle(clause, id) {
        SelectsOne(clause, id);
      }
      forall k ensures Merge(clause).Selects(k) <==> clause.Holds(k) {
        MergeSelects(clause, k);
      }
    }
  }

  /** A condition that selects one id only is of the kind for it. */
  lemma SelectsOne(clause: Clause, id: int)
    requires !WrongArm(clause) && IsSingle(clause, id)
    ensures Merge(clause).flag.RES_EQ_FIRST? && id == Merge(clause).a
  {
    hide Merge, Clause.Holds;
    var con := Merge(clause);
    MergeBounds(clause);
    forall k ensures con.Selects(k) <==> k == id {
      MergeSelects(clause, k);
    }
    assert con.Selects(id) && !con.Selects(id - 1) && !con.Selects(id + 1);
    assert con.Selects(con.a) <==> con.a == id;
    assert con.Selects(con.b) <==> con.b == id;
  }

  lemma MergeUnlooked(clause: Clause)
    ensures Unlooked(clause) <==> Merge(clause).flag in {RES_EQ_BOTH, RES_EQ_LO, RES_EQ_HI, RES_ALL}
  {
    if clause.Or? {
      AllHold(clause);
    }
  }

  /** A condition that selects all ids is of the kind for them. */
  lemma AllHold(clause: Clause)
    requires !WrongArm(clause)
    ensures (forall id :: clause.Holds(id)) <==> Merge(clause).flag.RES_ALL?
  {
    hide Merge, Clause.Holds;
    MergeBounds(clause);
    forall k ensures Merge(clause).Selects(k) <==> clause.Holds(k) {
      MergeSelects(clause, k);
    }
    var con := Merge(clause);
    if forall id :: clause.Holds(id) {
      assert con.Selects(con.a - 1) && con.Selects(con.a + 1) && con.Selects(Max(con.a, con.b) + 1);
    }
  }

  /** The merged condition selects exactly the ids the clause holds of, except in one arm. */
  lemma MergeExact(clause: Clause)
    ensures (forall id :: Merge(clause).Selects(id) <==> clause.Holds(id)) <==> !WrongArm(clause)
  {
    if WrongArm(clause) {
      assert Merge(clause).Selects(clause.first.Bound()) && !clause.Holds(clause.first.Bound());
    } else {
      forall id ensures Merge(clause).Selects(id) <==> clause.Holds(id) {
        MergeSelects(clause, id);
      }
    }
  }

  lemma MergeSelects(clause: Clause, id: int)
    requires !WrongArm(clause)
    ensures Merge(clause).Selects(id) <==> clause.Holds(id)
  {
  }

  /** `id <= 5 and id = 3` is merged into the condition that the id is 5. */
  lemma WrongArmExample()
    ensures var clause := And(Comparison(LESS, true, 5), Comparison(EQUAL, false, 3));
      !Merge(clause).Selects(3) && clause.Holds(3) && Merge(clause).Selects(5) && !clause.Holds(5)
  {
  }

  /** In a merged RES_AND the interval has at least two ids, in a merged RES_OR there is a gap
      between the two intervals, and the id of the other kinds of two parts stands apart. */
  lemma MergeBounds(clause: Clause)
    ensures Merge(clause).flag.RES_AND? ==> Merge(clause).a < Merge(clause).b
    ensures Merge(clause).flag.RES_OR? ==> Merge(clause).a + 1 < Merge(clause).b
    ensures Merge(clause).flag.RES_EQ_BOTH? ==> Merge(clause).a != Merge(clause).b
    ensures Merge(clause).flag.RES_EQ_LO? ==> Merge(clause).a < Merge(clause).b
    ensures Merge(clause).flag.RES_EQ_HI? ==> Merge(clause).a > Merge(clause).b
  {
  }
}
