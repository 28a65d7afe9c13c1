/**
 * The filter specification of `list_tasks` and the selection it makes: every
 * criterion is optional, and a task is collected when it meets all the
 * criteria present.
 */
module Filter {
  import opened Options
  import opened Text
  import opened Dates
  import opened Tasks
  import opened Resolve

  /** `ViewFilters`: the optional criteria and the optional view name. */
  datatype ViewFilters = ViewFilters(
    tag: Option<seq<string>>,
    status: Option<seq<string>>,
    due: Option<string>,
    priority: Option<seq<string>>,
    view: Option<string>,
    description: Option<string>)

  /** `ViewFilters::new()`: no criterion and no view. */
  function NewFilters(): (f: ViewFilters)
    ensures f.tag == None && f.status == None && f.due == None
    ensures f.priority == None && f.view == None && f.description == None
  {
    ViewFilters(None, None, None, None, None, None)
  }

  /** The tag criterion: some tag of the filter is one of the task's tags. */
  predicate TagCriterion(t: Task, f: ViewFilters)
    ensures f.tag == None ==> TagCriterion(t, f)
    ensures TagCriterion(t, f) && f.tag.Some? ==> t.tags != [] && f.tag.value != []
  {
    f.tag.Some? ==> exists tag :: tag in f.tag.value && tag in t.tags
  }

  /** The status criterion: the status's text form is in the filter's list. */
  predicate StatusCriterion(t: Task, f: ViewFilters)
    ensures f.status == None ==> StatusCriterion(t, f)
    ensures f.status == Some([]) ==> !StatusCriterion(t, f)
  {
    f.status.Some? ==> StatusName(t.status) in f.status.value
  }

  /** The due criterion: the due day is the day the filter's token resolves to. */
  predicate DueCriterion(t: Task, f: ViewFilters, today: Date)
    ensures f.due == None ==> DueCriterion(t, f, today)
    ensures f.due == Some("today") ==> (DueCriterion(t, f, today) <==> t.due == today)
    ensures f.due == Some("sometime") ==> (DueCriterion(t, f, today) <==> t.due == Sometime)
  {
    f.due.Some? ==> t.due == ResolveFilterDue(f.due.value, today)
  }

  /** The priority criterion: the priority's text form is in the filter's list. */
  predicate PriorityCriterion(t: Task, f: ViewFilters)
    ensures f.priority == None ==> PriorityCriterion(t, f)
    ensures f.priority == Some([]) ==> !PriorityCriterion(t, f)
  {
    f.priority.Some? ==> PriorityName(t.priority) in f.priority.value
  }

  /** The description criterion: a case-sensitive substring of the description. */
  predicate DescriptionCriterion(t: Task, f: ViewFilters)
    ensures f.description == None || f.description == Some("") ==> DescriptionCriterion(t, f)
    ensures DescriptionCriterion(t, f) && f.description.Some? ==> |f.description.value| <= |t.description|
  {
    f.description.Some? ==> Contains(t.description, f.description.value)
  }

  /** The task meets every criterion the filter holds. */
  predicate Matches(t: Task, f: ViewFilters, today: Date)
    ensures NoCriteria(f) ==> Matches(t, f, today)
    ensures Matches(t, f, today) && f.tag.Some? ==> t.tags != []
  {
    TagCriterion(t, f) && StatusCriterion(t, f) && DueCriterion(t, f, today) &&
    PriorityCriterion(t, f) && DescriptionCriterion(t, f)
  }

  /** The tasks of `ts` that match, in store order. */
  function Select(ts: seq<Task>, f: ViewFilters, today: Date): (r: seq<Task>)
    ensures |r| <= |ts|
  {
    if ts == [] then []
    else
      var init := Select(ts[..|ts| - 1], f, today);
      var last := ts[|ts| - 1];
      if Matches(last, f, today) then init + [last] else init
  }

  /** The selection holds exactly the tasks that match. */
  lemma {:induction false} SelectMembers(ts: seq<Task>, f: ViewFilters, today: Date)
    ensures forall t :: t in Select(ts, f, today) <==> t in ts && Matches(t, f, today)
  {
    if ts != [] {
      var init, last := ts[..|ts| - 1], ts[|ts| - 1];
      SelectMembers(init, f, today);
      assert ts == init + [last];
    }
  }

  /** The selection keeps every copy of a matching task and none of the others. */
  lemma {:induction false} SelectCounts(ts: seq<Task>, f: ViewFilters, today: Date, t: Task)
    ensures multiset(Select(ts, f, today))[t] == if Matches(t, f, today) then multiset(ts)[t] else 0
  {
    if ts != [] {
      var init, last := ts[..|ts| - 1], ts[|ts| - 1];
      SelectCounts(init, f, today, t);
      assert ts == init + [last];
      assert multiset(ts) == multiset(init) + multiset{last};
    }
  }

  /** Selecting from a list with one more task adds that task when it matches. */
  lemma {:induction false} SelectSnoc(ts: seq<Task>, t: Task, f: ViewFilters, today: Date)
    ensures Select(ts + [t], f, today) == Select(ts, f, today) + (if Matches(t, f, today) then [t] else [])
  {
    assert (ts + [t])[..|ts + [t]| - 1] == ts;
  }

  /** `a` is `b` with some elements left out, the rest in their order. */
  predicate IsSubsequence<T(==)>(a: seq<T>, b: seq<T>)
    decreases |b|
  {
    if a == [] then true
    else if b == [] then false
    else if a[|a| - 1] == b[|b| - 1] then IsSubsequence(a[..|a| - 1], b[..|b| - 1])
    else IsSubsequence(a, b[..|b| - 1])
  }

  /** Everything is a subsequence of itself. */
  lemma {:induction false} SubsequenceReflexive<T>(a: seq<T>)
    ensures IsSubsequence(a, a)
  {
    if a != [] {
      SubsequenceReflexive(a[..|a| - 1]);
    }
  }

  /** A subsequence stays one when the longer sequence grows at the end. */
  lemma {:induction false} SubsequenceExtend<T>(a: seq<T>, b: seq<T>, x: T)
    requires IsSubsequence(a, b)
    ensures IsSubsequence(a, b + [x])
    decreases |b|, 1
  {
    var bx := b + [x];
    assert bx[..|bx| - 1] == b;
    if a != [] && a[|a| - 1] == x {
      SubsequencePrefix(a, b);
    }
  }

  /** Dropping the last element of a subsequence keeps it a subsequence. */
  lemma {:induction false} SubsequencePrefix<T>(a: seq<T>, b: seq<T>)
    requires a != [] && IsSubsequence(a, b)
    ensures IsSubsequence(a[..|a| - 1], b)
    decreases |b|, 0
  {
    if a[|a| - 1] == b[|b| - 1] {
      SubsequenceExtend(a[..|a| - 1], b[..|b| - 1], b[|b| - 1]);
      assert b[..|b| - 1] + [b[|b| - 1]] == b;
    } else {
      SubsequencePrefix(a, b[..|b| - 1]);
      SubsequenceExtend(a[..|a| - 1], b[..|b| - 1], b[|b| - 1]);
      assert b[..|b| - 1] + [b[|b| - 1]] == b;
    }
  }

  /** The selection keeps the store's order: it is a subsequence of the tasks. */
  lemma {:induction false} SelectIsSubsequence(ts: seq<Task>, f: ViewFilters, today: Date)
    ensures IsSubsequence(Select(ts, f, today), ts)
  {
    if ts != [] {
      var init := ts[..|ts| - 1];
      var last := ts[|ts| - 1];
      SelectIsSubsequence(init, f, today);
      assert init + [last] == ts;
      if Matches(last, f, today) {
        var r := Select(init, f, today) + [last];
        assert r[..|r| - 1] == Select(init, f, today);
      } else {
        SubsequenceExtend(Select(init, f, today), init, last);
      }
    }
  }

  /** `g` holds every criterion of `f`, unchanged, and possibly more. */
  predicate Narrows(g: ViewFilters, f: ViewFilters) {
    (f.tag.Some? ==> g.tag == f.tag) &&
    (f.status.Some? ==> g.status == f.status) &&
    (f.due.Some? ==> g.due == f.due) &&
    (f.priority.Some? ==> g.priority == f.priority) &&
    (f.description.Some? ==> g.description == f.description)
  }

  /** Adding criteria can only turn a match into a non-match. */
  lemma NarrowedMatches(t: Task, g: ViewFilters, f: ViewFilters, today: Date)
    requires Narrows(g, f) && Matches(t, g, today)
    ensures Matches(t, f, today)
  {
  }

  /**
   * Adding criteria never enlarges the result: filtering with the narrower
   * specification is filtering the wider selection again.
   */
  lemma {:induction false} NarrowedSelect(ts: seq<Task>, g: ViewFilters, f: ViewFilters, today: Date)
    requires Narrows(g, f)
    ensures Select(Select(ts, f, today), g, today) == Select(ts, g, today)
    ensures |Select(ts, g, today)| <= |Select(ts, f, today)|
  {
    if ts != [] {
      var init := ts[..|ts| - 1];
      var last := ts[|ts| - 1];
      NarrowedSelect(init, g, f, today);
      var sf := Select(init, f, today);
      if Matches(last, f, today) {
        assert (sf + [last])[..|sf + [last]| - 1] == sf;
      }
    }
  }

  /** The filter holds no criterion, whatever its view. */
  predicate NoCriteria(f: ViewFilters) {
    f.tag == None && f.status == None && f.due == None &&
    f.priority == None && f.description == None
  }

  /** With no criterion every task is selected, in store order. */
  lemma {:induction false} SelectAll(ts: seq<Task>, f: ViewFilters, today: Date)
    requires NoCriteria(f)
    ensures Select(ts, f, today) == ts
  {
    if ts != [] {
      SelectAll(ts[..|ts| - 1], f, today);
      assert ts[..|ts| - 1] + [ts[|ts| - 1]] == ts;
    }
  }
}
