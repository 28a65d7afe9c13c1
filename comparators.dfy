/**
 * The two three-key comparators the grouped listings sort tasks with: by
 * primary tag, due date and priority, or by due date, primary tag and
 * priority.
 */
module Comparators {
  import opened Text
  import opened Dates
  import opened Tasks
  import Sorting

  /** Rust's `std::cmp::Ordering`. */
  datatype Ordering = Less | Equal | Greater {
    function Reverse(): Ordering {
      match this
      case Less => Greater
      case Equal => Equal
      case Greater => Less
    }

    /** `Ordering::then_with`: the next comparison decides only a tie. */
    function ThenWith(next: Ordering): Ordering {
      if this == Equal then next else this
    }
  }

  /** `String::cmp`. */
  function CompareText(a: string, b: string): (o: Ordering)
    ensures o == Equal <==> a == b
  {
    LexLessIrreflexive(a);
    if LexLess(a, b) then Less else if a == b then Equal else Greater
  }

  /** `NaiveDate::cmp`. */
  function CompareDate(a: Date, b: Date): (o: Ordering)
    ensures o == Equal <==> a == b
  {
    if Before(a, b) then Less else if a == b then Equal else Greater
  }

  /** `Priority::cmp`. */
  function ComparePriority(a: Priority, b: Priority): (o: Ordering)
    ensures o == Equal <==> a == b
  {
    if PriorityLess(a, b) then Less else if a == b then Equal else Greater
  }

  /** Which listing a sort serves. */
  datatype Order = ByTag | ByDue

  /**
   * The `sort_by` closures: by primary tag, due date and priority for the tag
   * listing; by due date, primary tag and priority for the due listing.
   */
  function Compare(order: Order, a: Task, b: Task): (o: Ordering)
    ensures o == Equal <==> PrimaryTag(a) == PrimaryTag(b) && a.due == b.due && a.priority == b.priority
  {
    match order
    case ByTag =>
      CompareText(PrimaryTag(a), PrimaryTag(b))
        .ThenWith(CompareDate(a.due, b.due))
        .ThenWith(ComparePriority(a.priority, b.priority))
    case ByDue =>
      CompareDate(a.due, b.due)
        .ThenWith(CompareText(PrimaryTag(a), PrimaryTag(b)))
        .ThenWith(ComparePriority(a.priority, b.priority))
  }

  lemma CompareTextReverse(a: string, b: string)
    ensures CompareText(b, a) == CompareText(a, b).Reverse()
  {
    if LexLess(a, b) {
      LexLessAsymmetric(a, b);
    } else if a != b {
      LexLessTotal(a, b);
    }
  }

  lemma CompareTextTransitive(a: string, b: string, c: string)
    requires CompareText(a, b) != Greater && CompareText(b, c) != Greater
    ensures CompareText(a, c) != Greater
    ensures CompareText(a, b) == Less || CompareText(b, c) == Less ==> CompareText(a, c) == Less
  {
    if LexLess(a, b) && LexLess(b, c) {
      LexLessTransitive(a, b, c);
    }
  }

  /** Swapping the arguments reverses the comparison. */
  lemma CompareReverse(order: Order, a: Task, b: Task)
    ensures Compare(order, b, a) == Compare(order, a, b).Reverse()
  {
    CompareTextReverse(PrimaryTag(a), PrimaryTag(b));
  }

  /** "Not after" is transitive, so the comparators are total preorders. */
  lemma CompareTransitive(order: Order, a: Task, b: Task, c: Task)
    requires Compare(order, a, b) != Greater && Compare(order, b, c) != Greater
    ensures Compare(order, a, c) != Greater
  {
    var ta, tb, tc := PrimaryTag(a), PrimaryTag(b), PrimaryTag(c);
    CompareTextReverse(ta, tb);
    CompareTextReverse(tb, tc);
    if CompareText(ta, tb) != Greater && CompareText(tb, tc) != Greater {
      CompareTextTransitive(ta, tb, tc);
    }
  }

  /** `a` sorts strictly before `b`: the comparator says `Less`. */
  function Precedes(order: Order): (less: (Task, Task) -> bool)
    ensures forall a, b :: less(a, b) <==> Compare(order, a, b) == Less
  {
    (a, b) => Compare(order, a, b) == Less
  }

  /** Both comparators are strict weak orders, as `sort_by` expects. */
  lemma PrecedesIsStrictWeakOrder(order: Order)
    ensures Sorting.StrictWeakOrder(Precedes(order))
  {
    var less := Precedes(order);
    forall a, b | less(a, b)
      ensures !less(b, a)
    {
      CompareReverse(order, a, b);
    }
    forall a, b, c | !less(a, b) && !less(b, c)
      ensures !less(a, c)
    {
      CompareReverse(order, a, b);
      CompareReverse(order, b, c);
      CompareReverse(order, a, c);
      CompareTransitive(order, c, b, a);
    }
  }
}
