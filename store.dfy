/**
 * `TaskManager`: the in-memory list of tasks and the operations on it, id
 * assignment by `max + 1`, removal by id, the status toggle, lookup, and
 * `list_tasks`, which filters the list and hands the selection to one of the
 * grouped listings.
 */
module Store {
  import opened Options
  import opened Text
  import opened Dates
  import opened Tasks
  import opened Resolve
  import opened Filter
  import opened Render

  // ---------------------------------------------------------------------
  // Ids
  // ---------------------------------------------------------------------

  /** The largest id in the list, 0 for an empty list. */
  function MaxId(ts: seq<Task>): (m: U32)
    ensures forall k :: 0 <= k < |ts| ==> ts[k].id <= m
    ensures ts == [] ==> m == 0
    ensures ts != [] ==> exists k :: 0 <= k < |ts| && ts[k].id == m
  {
    if ts == [] then 0
    else
      var m0 := MaxId(ts[..|ts| - 1]);
      var last := ts[|ts| - 1];
      assert forall k :: 0 <= k < |ts| - 1 ==> ts[k] == ts[..|ts| - 1][k];
      if last.id > m0 then last.id else m0
  }

  /** No two tasks share an id. */
  predicate UniqueIds(ts: seq<Task>) {
    forall i, j :: 0 <= i < j < |ts| ==> ts[i].id != ts[j].id
  }

  /** The id `add_task` hands out is above every id in the list, so ids stay unique. */
  lemma {:induction false} AddKeepsIdsUnique(ts: seq<Task>, t: Task)
    requires UniqueIds(ts) && t.id == MaxId(ts) + 1
    ensures UniqueIds(ts + [t])
    ensures MaxId(ts + [t]) == t.id
  {
    var s := ts + [t];
    assert s[..|s| - 1] == ts;
    forall i, j | 0 <= i < j < |s|
      ensures s[i].id != s[j].id
    {
      if j == |ts| {
        assert s[i] == ts[i];
      } else {
        assert s[i] == ts[i] && s[j] == ts[j];
      }
    }
  }

  // ---------------------------------------------------------------------
  // Adding
  // ---------------------------------------------------------------------

  /** The task `add_task` builds from the answers to its prompts. */
  function NewTask(id: U32, description: string, tagsAnswer: string, dueChoice: string,
                   customDue: string, priorityChoice: string, today: Date): (t: Task)
    ensures t.id == id && t.description == description && t.status == Todo
    ensures |t.tags| >= 1 && Join(t.tags, ",") == tagsAnswer
    ensures priorityChoice !in {"2", "3"} ==> t.priority == Low
    ensures dueChoice == "1" ==> t.due == today
    ensures dueChoice == "4" ==> t.due == Sometime
  {
    JoinSplit(tagsAnswer, ',');
    Task(id, description, Split(tagsAnswer, ','), ResolveAddDue(dueChoice, customDue, today),
         PriorityFromChoice(priorityChoice), Todo)
  }

  // ---------------------------------------------------------------------
  // Removing
  // ---------------------------------------------------------------------

  /** The list without the tasks that have the given id, the rest in order (`retain`). */
  function Without(ts: seq<Task>, id: int): (r: seq<Task>)
    ensures |r| <= |ts|
    ensures forall t :: t in r <==> t in ts && t.id != id
  {
    if ts == [] then []
    else
      var init, last := ts[..|ts| - 1], ts[|ts| - 1];
      assert ts == init + [last];
      Without(init, id) + (if last.id != id then [last] else [])
  }

  /** Removing keeps the other tasks in their order. */
  lemma {:induction false} WithoutIsSubsequence(ts: seq<Task>, id: int)
    ensures IsSubsequence(Without(ts, id), ts)
  {
    if ts != [] {
      var init, last := ts[..|ts| - 1], ts[|ts| - 1];
      WithoutIsSubsequence(init, id);
      var r0 := Without(init, id);
      if last.id != id {
        var r := r0 + [last];
        assert Without(ts, id) == r;
        assert r[..|r| - 1] == r0 && r[|r| - 1] == last;
        assert IsSubsequence(r, ts);
      } else {
        assert Without(ts, id) == r0 + [] == r0;
        SubsequenceExtend(r0, init, last);
        SnocOfInit(ts);
      }
    }
  }

  /** Removing keeps every other task as often as it was there. */
  lemma {:induction false} WithoutKeepsCounts(ts: seq<Task>, id: int, t: Task)
    requires t.id != id
    ensures multiset(Without(ts, id))[t] == multiset(ts)[t]
  {
    if ts != [] {
      var init, last := ts[..|ts| - 1], ts[|ts| - 1];
      WithoutKeepsCounts(init, id, t);
      SnocOfInit(ts);
      assert multiset(ts) == multiset(init) + multiset{last};
    }
  }

  /** Removing an id no task has leaves the list as it is. */
  lemma {:induction false} WithoutAbsent(ts: seq<Task>, id: int)
    requires forall k :: 0 <= k < |ts| ==> ts[k].id != id
    ensures Without(ts, id) == ts
  {
    if ts != [] {
      WithoutAbsent(ts[..|ts| - 1], id);
      SnocOfInit(ts);
    }
  }

  /** Removing keeps ids unique. */
  lemma {:induction false} RemoveKeepsIdsUnique(ts: seq<Task>, id: int)
    requires UniqueIds(ts)
    ensures UniqueIds(Without(ts, id))
  {
    if ts != [] {
      var init, last := ts[..|ts| - 1], ts[|ts| - 1];
      assert UniqueIds(init);
      RemoveKeepsIdsUnique(init, id);
      var r0 := Without(init, id);
      if last.id != id {
        var r := r0 + [last];
        forall i, j | 0 <= i < j < |r|
          ensures r[i].id != r[j].id
        {
          if j == |r0| {
            assert r[i] in init;
            var k :| 0 <= k < |init| && init[k] == r[i];
            assert ts[k] == r[i];
          } else {
            assert r[i] == r0[i] && r[j] == r0[j];
          }
        }
      }
    }
  }

  /**
   * Removing a task below the largest id leaves the next id as it was (ids 1,
   * 2, 3 without 2: the next task gets 4).
   */
  lemma {:induction false} RemoveKeepsMaxId(ts: seq<Task>, id: int)
    requires id != MaxId(ts)
    ensures MaxId(Without(ts, id)) == MaxId(ts)
  {
    if ts != [] {
      var r := Without(ts, id);
      var k :| 0 <= k < |ts| && ts[k].id == MaxId(ts);
      MaxIdAtLeast(r, ts[k]);
      MaxIdOfSublist(r, ts);
    }
  }

  /** The largest id is at least the id of every task in the list. */
  lemma MaxIdAtLeast(ts: seq<Task>, t: Task)
    requires t in ts
    ensures t.id <= MaxId(ts)
  {
    var j :| 0 <= j < |ts| && ts[j] == t;
  }

  /** A list whose tasks all occur in another has no larger id. */
  lemma MaxIdOfSublist(a: seq<Task>, b: seq<Task>)
    requires forall t :: t in a ==> t in b
    ensures MaxId(a) <= MaxId(b)
  {
    if a != [] {
      var i :| 0 <= i < |a| && a[i].id == MaxId(a);
      MaxIdAtLeast(b, a[i]);
    }
  }

  /**
   * The id is `max + 1`, not a counter: removing the task just added hands
   * its id out again to the next task.
   */
  lemma {:induction false} RemovingNewestReusesItsId(ts: seq<Task>, t: Task)
    requires t.id == MaxId(ts) + 1
    ensures MaxId(Without(ts + [t], t.id)) + 1 == t.id
  {
    var s := ts + [t];
    assert Without(s, t.id) == ts by {
      assert s[..|s| - 1] == ts;
      WithoutAbsent(ts, t.id);
    }
  }

  // ---------------------------------------------------------------------
  // The status toggle
  // ---------------------------------------------------------------------

  /**
   * The status `adjust_status` gives a task: the requested one, except that
   * requesting Hold on a task on Hold, or Done on a task Done, sets it back to Todo.
   */
  function NextStatus(current: Status, requested: Status): (s: Status)
    ensures s == requested || s == Todo
    ensures s != requested <==> current == requested && (requested == Hold || requested == Done)
  {
    if current == Hold && requested == Hold then Todo
    else if current == Done && requested == Done then Todo
    else requested
  }

  /** Requesting Hold twice, or Done twice, on a task in another state leaves it Todo. */
  lemma HoldOrDoneTwice(current: Status, requested: Status)
    requires requested == Hold || requested == Done
    requires current != requested
    ensures NextStatus(NextStatus(current, requested), requested) == Todo
  {
  }

  /** Requesting Todo or Blocked is idempotent: the second request changes nothing. */
  lemma TodoOrBlockedTwice(current: Status, requested: Status)
    requires requested == Todo || requested == Blocked
    ensures NextStatus(current, requested) == requested
    ensures NextStatus(NextStatus(current, requested), requested) == NextStatus(current, requested)
  {
  }

  /** Repeating a request toggles with period two: the third request does what the first did. */
  lemma ToggleHasPeriodTwo(current: Status, requested: Status)
    ensures NextStatus(NextStatus(NextStatus(current, requested), requested), requested)
         == NextStatus(current, requested)
  {
  }

  // ---------------------------------------------------------------------
  // Lookup
  // ---------------------------------------------------------------------

  /** The position of the first task with the id (`iter().find`), if any. */
  function FindById(ts: seq<Task>, id: int): (r: Option<nat>)
    ensures r.Some? ==> r.value < |ts| && ts[r.value].id == id
    ensures r.Some? ==> forall k :: 0 <= k < r.value ==> ts[k].id != id
    ensures r.None? <==> forall k :: 0 <= k < |ts| ==> ts[k].id != id
  {
    if ts == [] then None
    else if ts[0].id == id then Some(0)
    else
      match FindById(ts[1..], id)
      case None =>
        assert forall k :: 1 <= k < |ts| ==> ts[k] == ts[1..][k - 1];
        None
      case Some(k) =>
        assert forall j :: 1 <= j < k + 1 ==> ts[j] == ts[1..][j - 1];
        Some(k + 1)
  }

  /** With unique ids the task found is the only one with that id. */
  lemma {:induction false} FindByIdUnique(ts: seq<Task>, id: int, k: nat)
    requires UniqueIds(ts) && k < |ts| && ts[k].id == id
    ensures FindById(ts, id) == Some(k)
  {
    var r := FindById(ts, id);
    assert ts[r.value].id == ts[k].id;
  }

  // ---------------------------------------------------------------------
  // Listing
  // ---------------------------------------------------------------------

  /**
   * The grouped listing `list_tasks` dispatches to: by due date for the view
   * "due", by tag for any other view or none; `None` where the listing would
   * index the first tag of a task that has none.
   */
  function Grouped(ts: seq<Task>, view: Option<string>): (out: Option<seq<Row>>)
    ensures view != Some("due") ==> (out.Some? <==> AllTagged(ts))
    ensures view == Some("due") ==> (out.Some? <==> DueComparable(ts))
    ensures out.Some? ==> multiset(Entries(out.value)) == multiset(ts)
  {
    ListingOrder(ts);
    if view == Some("due") then
      if DueComparable(ts) then Some(DueListing(ts)) else None
    else
      if AllTagged(ts) then Some(TagListing(ts)) else None
  }

  /**
   * What `list_tasks` prints: with no filter at all the raw line of every
   * task; otherwise the grouped listing of the tasks that match.
   */
  function Listing(ts: seq<Task>, f: ViewFilters, today: Date): (out: Option<seq<Row>>)
    ensures f == NewFilters() ==> out == Some(RawRows(ts))
    ensures f != NewFilters() && out.Some? ==>
      multiset(Entries(out.value)) == multiset(Select(ts, f, today))
  {
    if f == NewFilters() then Some(RawRows(ts)) else Grouped(Select(ts, f, today), f.view)
  }

  /** A grouped listing shows exactly the matching tasks, and each once. */
  lemma {:induction false} ListingShowsMatches(ts: seq<Task>, f: ViewFilters, today: Date, t: Task)
    requires f != NewFilters() && Listing(ts, f, today).Some?
    ensures t in Entries(Listing(ts, f, today).value) <==> t in ts && Matches(t, f, today)
  {
    var rows := Listing(ts, f, today).value;
    SelectMembers(ts, f, today);
    assert t in Entries(rows) <==> t in multiset(Entries(rows));
    assert t in Select(ts, f, today) <==> t in multiset(Select(ts, f, today));
  }

  /** The unfiltered listing shows every task once, in store order. */
  lemma {:induction false} UnfilteredListsAll(ts: seq<Task>, today: Date)
    ensures Listing(ts, NewFilters(), today).Some?
    ensures Entries(Listing(ts, NewFilters(), today).value) == ts
  {
    RawRowsEntries(ts);
  }

  /** A filter that only names a view groups every task: only `new()` gives the raw dump. */
  lemma {:induction false} ViewOnlyGroupsAll(ts: seq<Task>, view: string, today: Date)
    ensures Listing(ts, NewFilters().(view := Some(view)), today) == Grouped(ts, Some(view))
  {
    SelectAll(ts, NewFilters().(view := Some(view)), today);
  }

  /** Only a missing first tag makes the listing fail. */
  lemma {:induction false} ListingFailsOnMissingTag(ts: seq<Task>, f: ViewFilters, today: Date)
    requires Listing(ts, f, today).None?
    ensures exists t :: t in Select(ts, f, today) && t.tags == []
  {
    var s := Select(ts, f, today);
    if f.view == Some("due") {
      var i, j :| 0 <= i < |s| && 0 <= j < |s| && i != j && s[i].due == s[j].due && s[i].tags == [];
      assert s[i] in s;
    } else {
      var k :| 0 <= k < |s| && s[k].tags == [];
      assert s[k] in s;
    }
  }

  /** Adding criteria to a filter can only shorten the grouped listing. */
  lemma {:induction false} NarrowerListingIsShorter(ts: seq<Task>, g: ViewFilters, f: ViewFilters, today: Date)
    requires Narrows(g, f) && f != NewFilters() && g != NewFilters()
    requires Listing(ts, f, today).Some? && Listing(ts, g, today).Some?
    ensures |Entries(Listing(ts, g, today).value)| <= |Entries(Listing(ts, f, today).value)|
  {
    NarrowedSelect(ts, g, f, today);
    var ef, eg := Entries(Listing(ts, f, today).value), Entries(Listing(ts, g, today).value);
    assert |multiset(ef)| == |ef| && |multiset(eg)| == |eg|;
  }

  /**
   * The `found` flag of `list_tasks` for one task: cleared by each criterion
   * present that the task fails.
   */
  method IsFound(task: Task, filters: ViewFilters, today: Date) returns (found: bool)
    ensures found <==> Matches(task, filters, today)
  {
    found := true;
    if filters.tag.Some? && !(exists tag :: tag in filters.tag.value && tag in task.tags) {
      found := false;
    }
    if filters.status.Some? && StatusName(task.status) !in filters.status.value {
      found := false;
    }
    if filters.due.Some? {
      var dueDay := ResolveFilterDue(filters.due.value, today);
      if task.due != dueDay {
        found := false;
      }
    }
    if filters.priority.Some? && PriorityName(task.priority) !in filters.priority.value {
      found := false;
    }
    if filters.description.Some? && !Contains(task.description, filters.description.value) {
      found := false;
    }
  }

  /**
   * The walk of `list_tasks` ends with the raw lines and the collected tasks;
   * what it prints, raw lines and then the grouped listing, is `Listing`.
   */
  lemma {:induction false} ListingOfWalk(ts: seq<Task>, f: ViewFilters, today: Date, raw: seq<Row>, found: seq<Task>)
    requires f == NewFilters() ==> raw == RawRows(ts) && found == []
    requires f != NewFilters() ==> raw == [] && found == Select(ts, f, today)
    ensures Listing(ts, f, today) ==
      (match Grouped(found, f.view) case Some(g) => Some(raw + g) case None => None)
  {
    if f == NewFilters() {
      assert Grouped(found, f.view) == Some([]);
      assert raw + [] == raw;
    } else {
      assert Grouped(found, f.view).Some? ==> [] + Grouped(found, f.view).value == Grouped(found, f.view).value;
    }
  }

  /**
   * The loop of `list_tasks`: with no filter at all it prints each task's raw
   * line and collects nothing; otherwise it collects the tasks that match.
   */
  method CollectFound(tasks: seq<Task>, filters: ViewFilters, today: Date) returns (raw: seq<Row>, found: seq<Task>)
    ensures filters == NewFilters() ==> raw == RawRows(tasks) && found == []
    ensures filters != NewFilters() ==> raw == [] && found == Select(tasks, filters, today)
  {
    raw, found := [], [];
    var unfiltered := filters == NewFilters();
    var i := 0;
    while i < |tasks|
      invariant 0 <= i <= |tasks|
      invariant unfiltered ==> raw == RawRows(tasks[..i]) && found == []
      invariant !unfiltered ==> raw == [] && found == Select(tasks[..i], filters, today)
    {
      var task := tasks[i];
      if unfiltered {
        assert raw + [RawLine(task)] == RawRows(tasks[..i + 1]) by {
          assert tasks[..i + 1] == tasks[..i] + [task];
          RawRowsSnoc(tasks[..i], task);
        }
        raw := raw + [RawLine(task)];
        i := i + 1;
        continue;
      }
      var isFound := IsFound(task, filters, today);
      assert Select(tasks[..i + 1], filters, today) == found + (if isFound then [task] else []) by {
        assert tasks[..i + 1] == tasks[..i] + [task];
        SelectSnoc(tasks[..i], task, filters, today);
      }
      if isFound {
        found := found + [task];
      }
      i := i + 1;
    }
    assert tasks[..i] == tasks;
  }

  /** The dispatch on the view name: by due date for "due", by tag otherwise. */
  method PrintGrouped(found: seq<Task>, view: Option<string>) returns (grouped: Option<seq<Row>>)
    ensures grouped == Grouped(found, view)
  {
    if view == Some("due") {
      if DueComparable(found) {
        var rows := PrintByDue(found);
        grouped := Some(rows);
      } else {
        grouped := None;
      }
    } else {
      if AllTagged(found) {
        var rows := PrintByTag(found);
        grouped := Some(rows);
      } else {
        grouped := None;
      }
    }
  }

  // ---------------------------------------------------------------------
  // The store
  // ---------------------------------------------------------------------

  class TaskManager {
    var tasks: seq<Task>

    /** `TaskManager::new()`: an empty store. */
    constructor()
      ensures tasks == []
    {
      tasks := [];
    }

    /** `get_max_id`: a running maximum over the ids, starting from 0. */
    method GetMaxId() returns (maxId: U32)
      ensures maxId == MaxId(tasks)
      ensures forall k :: 0 <= k < |tasks| ==> tasks[k].id <= maxId
      ensures tasks == [] ==> maxId == 0
      ensures tasks != [] ==> exists k :: 0 <= k < |tasks| && tasks[k].id == maxId
    {
      maxId := 0;
      var i := 0;
      while i < |tasks|
        invariant 0 <= i <= |tasks|
        invariant maxId == MaxId(tasks[..i])
      {
        assert tasks[..i + 1][..i] == tasks[..i];
        if tasks[i].id > maxId {
          maxId := tasks[i].id;
        }
        i := i + 1;
      }
      assert tasks[..i] == tasks;
    }

    /**
     * `add_task` with the prompts' answers as parameters: appends a Todo task
     * with the next id. `ok` is false, and nothing changes, when the largest
     * id is already `u32::MAX` and `max + 1` overflows.
     */
    method AddTask(description: string, tagsAnswer: string, dueChoice: string,
                   customDue: string, priorityChoice: string, today: Date) returns (ok: bool)
      modifies this
      ensures ok <==> MaxId(old(tasks)) < U32_MAX
      ensures ok ==> tasks == old(tasks) + [NewTask(MaxId(old(tasks)) + 1, description, tagsAnswer,
                                                    dueChoice, customDue, priorityChoice, today)]
      ensures !ok ==> tasks == old(tasks)
    {
      var maxId := GetMaxId();
      if maxId == U32_MAX {
        return false;
      }
      var tags := Split(tagsAnswer, ',');
      var due := ResolveAddDue(dueChoice, customDue, today);
      var priority := PriorityFromChoice(priorityChoice);
      var task := Task(maxId + 1, description, tags, due, priority, Todo);
      tasks := tasks + [task];
      ok := true;
    }

    /** `remove_task`: keeps the tasks whose id differs, in order. */
    method RemoveTask(id: U32)
      modifies this
      ensures tasks == Without(old(tasks), id)
    {
      var kept: seq<Task> := [];
      var i := 0;
      while i < |tasks|
        invariant 0 <= i <= |tasks|
        invariant kept == Without(tasks[..i], id)
      {
        assert tasks[..i + 1][..i] == tasks[..i] && tasks[..i + 1][i] == tasks[i];
        if tasks[i].id != id {
          kept := kept + [tasks[i]];
        }
        i := i + 1;
      }
      assert tasks[..i] == tasks;
      tasks := kept;
    }

    /**
     * `adjust_status`: toggles the status of the first task with the id.
     * `ok` is false, and nothing changes, when no task has the id (the
     * `unwrap` fails).
     */
    method AdjustStatus(id: U32, status: Status) returns (ok: bool)
      modifies this
      ensures ok <==> FindById(old(tasks), id).Some?
      ensures !ok ==> tasks == old(tasks)
      ensures ok ==> var k := FindById(old(tasks), id).value;
        tasks == old(tasks)[k := old(tasks)[k].(status := NextStatus(old(tasks)[k].status, status))]
    {
      var i := 0;
      while i < |tasks| && tasks[i].id != id
        invariant 0 <= i <= |tasks|
        invariant forall k :: 0 <= k < i ==> tasks[k].id != id
      {
        i := i + 1;
      }
      if i == |tasks| {
        return false;
      }
      var task := tasks[i];
      var next := status;
      if task.status == Hold && status == Hold {
        next := Todo;
      } else if task.status == Done && status == Done {
        next := Todo;
      }
      tasks := tasks[i := task.(status := next)];
      ok := true;
    }

    /** `get_task`: the first task with the id; `None` where the `unwrap` fails. */
    method GetTask(id: U32) returns (r: Option<Task>)
      ensures r.None? <==> forall k :: 0 <= k < |tasks| ==> tasks[k].id != id
      ensures r.Some? ==> r.value.id == id && r.value == tasks[FindById(tasks, id).value]
    {
      var i := 0;
      while i < |tasks|
        invariant 0 <= i <= |tasks|
        invariant forall k :: 0 <= k < i ==> tasks[k].id != id
      {
        if tasks[i].id == id {
          return Some(tasks[i]);
        }
        i := i + 1;
      }
      return None;
    }

    /**
     * `list_tasks`: with no filter at all, the raw line of every task;
     * otherwise the tasks meeting every criterion, grouped by the view.
     * `None` where the grouped listing would fail on a missing first tag.
     */
    method ListTasks(filters: ViewFilters, today: Date) returns (out: Option<seq<Row>>)
      ensures out == Listing(tasks, filters, today)
    {
      var raw, found := CollectFound(tasks, filters, today);
      var grouped := PrintGrouped(found, filters.view);
      ListingOfWalk(tasks, filters, today, raw, found);
      out := if grouped.Some? then Some(raw + grouped.value) else None;
    }
  }
}
