/**
 * The answers the add flow and the due filter of the listing accept, turned
 * into values: the due-date aliases relative to a reference day ("now"), the
 * fixed fallback days, and the priority shortcut.
 */
module Resolve {
  import opened Options
  import opened Dates
  import opened Tasks

  /** The day the `sometime` alias and `4` stand for, and the filter's fallback. */
  const Sometime: Date := CivilDate(2023, 12, 31)

  /** The day a custom due date that does not parse becomes in the add flow. */
  const AddFallback: Date := CivilDate(2023, 1, 1)

  /**
   * The due filter of `list_tasks`: `today`, `tomorrow`, `thisweek` (seven
   * days on, not the end of the week), `sometime`, or else a `YYYY-MM-DD`
   * date, with `Sometime` for any text that does not parse.
   */
  function ResolveFilterDue(token: string, today: Date): (d: Date)
    ensures token == "today" ==> d == today
    ensures token == "tomorrow" ==> DayNumber(d) == DayNumber(today) + 1
    ensures token == "thisweek" ==> DayNumber(d) == DayNumber(today) + 7
    ensures token == "sometime" ==> d == Sometime
    ensures token !in {"today", "tomorrow", "thisweek", "sometime"} ==>
      d == (match ParseIsoDate(token) case Some(p) => p case None => Sometime)
  {
    match token
    case "today" => today
    case "tomorrow" => AddDays(today, 1)
    case "thisweek" => AddDays(today, 7)
    case "sometime" => Sometime
    case _ =>
      match ParseIsoDate(token)
      case Some(p) => p
      case None => Sometime
  }

  /**
   * The due answer of `add_task`: `1` today, `2` tomorrow, `3` seven days on,
   * `4` the `Sometime` day, and any other answer asks for a custom date, with
   * `AddFallback` when that does not parse.
   */
  function ResolveAddDue(choice: string, custom: string, today: Date): (d: Date)
    ensures choice == "1" ==> d == today
    ensures choice == "2" ==> DayNumber(d) == DayNumber(today) + 1
    ensures choice == "3" ==> DayNumber(d) == DayNumber(today) + 7
    ensures choice == "4" ==> d == Sometime
    ensures choice !in {"1", "2", "3", "4"} ==>
      d == (match ParseIsoDate(custom) case Some(p) => p case None => AddFallback)
  {
    match choice
    case "1" => today
    case "2" => AddDays(today, 1)
    case "3" => AddDays(today, 7)
    case "4" => Sometime
    case _ =>
      match ParseIsoDate(custom)
      case Some(p) => p
      case None => AddFallback
  }

  /** The priority answer of `add_task`: `1` Low, `2` Medium, `3` High, anything else Low. */
  function PriorityFromChoice(choice: string): (p: Priority)
    ensures p == High <==> choice == "3"
    ensures p == Medium <==> choice == "2"
    ensures p == Low <==> choice !in {"2", "3"}
  {
    match choice
    case "1" => Low
    case "2" => Medium
    case "3" => High
    case _ => Low
  }

  /** The add-flow shortcut that stands for the same offset as a filter alias. */
  predicate SameOffset(alias: string, choice: string) {
    (alias == "today" && choice == "1") || (alias == "tomorrow" && choice == "2") ||
    (alias == "thisweek" && choice == "3") || (alias == "sometime" && choice == "4")
  }

  /** The filter alias and the add-flow shortcut for the same offset name the same day. */
  lemma AliasesAgree(alias: string, choice: string, today: Date, custom: string)
    requires SameOffset(alias, choice)
    ensures ResolveFilterDue(alias, today) == ResolveAddDue(choice, custom, today)
  {
    if alias == "today" {
    } else if alias == "tomorrow" {
    } else if alias == "thisweek" {
    } else {
    }
  }

  /**
   * On a custom date the two flows agree exactly when the text parses; on
   * text that does not parse the filter gives `Sometime` and the add flow
   * `AddFallback`, two different days.
   */
  lemma CustomDateFallbacksDiffer(text: string, today: Date, choice: string)
    requires text !in {"today", "tomorrow", "thisweek", "sometime"}
    requires choice !in {"1", "2", "3", "4"}
    ensures ParseIsoDate(text).Some? ==>
      ResolveFilterDue(text, today) == ResolveAddDue(choice, text, today) == ParseIsoDate(text).value
    ensures ParseIsoDate(text).None? ==>
      ResolveFilterDue(text, today) == Sometime && ResolveAddDue(choice, text, today) == AddFallback
    ensures ParseIsoDate(text).None? ==> ResolveFilterDue(text, today) != ResolveAddDue(choice, text, today)
  {
  }

  /** Every day of years 0 to 9999, written as `YYYY-MM-DD`, is a due filter for that day. */
  lemma ResolveFilterDueOfIsoDate(d: Date, today: Date)
    requires 0 <= d.year <= 9999
    ensures ResolveFilterDue(IsoDate(d), today) == d
  {
    ParseIsoDateOfIsoDate(d);
    assert |IsoDate(d)| == 10;
  }

  /** "tomorrow" and "thisweek" are later than the reference day, and "thisweek" is six days after "tomorrow". */
  lemma ResolveFilterDueOrder(today: Date)
    ensures Before(today, ResolveFilterDue("tomorrow", today))
    ensures Before(ResolveFilterDue("tomorrow", today), ResolveFilterDue("thisweek", today))
    ensures DayNumber(ResolveFilterDue("thisweek", today)) - DayNumber(ResolveFilterDue("tomorrow", today)) == 6
  {
    var n := NextDay(today);
    assert ResolveFilterDue("tomorrow", today) == AddDays(today, 1) == AddDays(n, 0) == n;
    assert ResolveFilterDue("thisweek", today) == AddDays(today, 7) == AddDays(n, 6);
  }
}
