/**
 * The task record and its field types. In the repository these live in
 * `src/task.rs`, which is not part of this model: the shapes below are the
 * ones `src/task_manager.rs` relies on.
 */
module Tasks {
  import opened Dates

  /** Ids are `u32`. */
  const U32_MAX: int := 0xFFFF_FFFF
  type U32 = x: int | 0 <= x <= U32_MAX

  datatype Status = Todo | Hold | Done | Blocked

  /** Declared low to high; the derived `Ord` follows declaration order. */
  datatype Priority = Low | Medium | High

  datatype Task = Task(
    id: U32,
    description: string,
    tags: seq<string>,
    due: Date,
    priority: Priority,
    status: Status)

  /** `status.to_string()`: the canonical text of a status, used by filters and raw listings. */
  function StatusName(s: Status): string {
    match s
    case Todo => "Todo"
    case Hold => "Hold"
    case Done => "Done"
    case Blocked => "Blocked"
  }

  /** `priority.to_string()`: the canonical text of a priority. */
  function PriorityName(p: Priority): string {
    match p
    case Low => "Low"
    case Medium => "Medium"
    case High => "High"
  }

  function PriorityRank(p: Priority): nat {
    match p
    case Low => 0
    case Medium => 1
    case High => 2
  }

  /** `a < b` on priorities: Low < Medium < High. */
  predicate PriorityLess(a: Priority, b: Priority) {
    PriorityRank(a) < PriorityRank(b)
  }

  /** Different statuses have different texts, so filtering by text is filtering by status. */
  lemma StatusNameInjective(a: Status, b: Status)
    requires StatusName(a) == StatusName(b)
    ensures a == b
  {
  }

  lemma PriorityNameInjective(a: Priority, b: Priority)
    requires PriorityName(a) == PriorityName(b)
    ensures a == b
  {
  }

  /** The first tag, which grouping and sorting use; the empty text stands in when there is none. */
  function PrimaryTag(t: Task): (tag: string)
    ensures t.tags != [] ==> tag == t.tags[0]
  {
    if t.tags == [] then "" else t.tags[0]
  }
}
