/**
 * The listings of `list_tasks`: the raw one-line-per-task dump, and the two
 * grouped listings by primary tag (`print_by_tag`) and by due date
 * (`print_by_due`). Each grouped listing sorts the selected tasks and walks
 * them, printing a section header whenever the key changes from the previous
 * task. A listing is modelled as the sequence of rows it prints; `Lines`
 * gives their text, one string per `println!` (a leading blank line is the
 * "\n" at the head of its string).
 */
module Render {
  import opened Options
  import opened Text
  import opened Dates
  import opened Tasks
  import opened Labels
  import opened Sorting
  import opened Comparators

  // ---------------------------------------------------------------------
  // Rows and their text
  // ---------------------------------------------------------------------

  /** One printed item of a listing. */
  datatype Row =
    | TagHeader(tag: string)      // by tag: a blank line, `# tag` and a divider
    | TagLine(task: Task)         // by tag: one task
    | DueHeader(due: Date)        // by due: a blank line, `Due: date (weekday)` and a divider
    | DueTagHeader(tag: string)   // by due: `# tag`
    | DueLine(task: Task)         // by due: one task
    | RawLine(task: Task)         // unfiltered: one task, comma-separated

  function TagHeaderLines(tag: string): (lines: seq<string>)
    ensures |lines| == 2 && |lines[0]| >= 3 && lines[0][..3] == "\n# " && lines[0][3..] == tag
  {
    var head := "\n# " + tag;
    assert head[..3] == "\n# " && head[3..] == tag;
    [head, "---------------"]
  }

  /** The glyph of a status between brackets, at the head of each grouped task line. */
  function GlyphBox(s: Status): (box: string)
    ensures |box| == 3 && box[0] == '[' && box[1] == TaskSymbol(s)[0] && box[2] == ']'
  {
    "[" + TaskSymbol(s) + "]"
  }

  /** `[glyph][id - label] description (MM-DD)`. */
  function TagTaskLine(t: Task): (line: string)
    ensures |line| > 3 && line[..3] == GlyphBox(t.status) && line[3] == '['
  {
    GlyphBox(t.status) + ("[" + Decimal(t.id) + " - " + PriorityLabel(t.priority) + "] " + t.description
      + " (" + MonthDay(t.due) + ")")
  }

  /** `Due: ` on a line of its own, ahead of the rest of a day header. */
  function DueOpen(rest: string): (s: string)
    ensures |s| == |rest| + 6 && s[..6] == "\nDue: " && s[6..] == rest
  {
    "\nDue: " + rest
  }

  function DueHeaderLines(d: Date): (lines: seq<string>)
    ensures |lines| == 2 && |lines[0]| >= 6 + |IsoDate(d)|
    ensures lines[0][..6] == "\nDue: " && lines[0][6..6 + |IsoDate(d)|] == IsoDate(d)
  {
    var iso := IsoDate(d);
    var rest := iso + (" (" + WeekdayName(d) + ")");
    assert rest[..|iso|] == iso;
    var head := DueOpen(rest);
    assert head[6..6 + |iso|] == rest[..|iso|];
    [head, "--------------------------------"]
  }

  function DueTagLine(tag: string): (line: string)
    ensures |line| >= 2 && line[..2] == "# " && line[2..] == tag
  {
    "# " + tag
  }

  /** `[#` ahead of the rest of a by-due task line. */
  function HashOpen(rest: string): (s: string)
    ensures |s| == |rest| + 2 && s[0] == '[' && s[1] == '#' && s[2..] == rest
  {
    "[#" + rest
  }

  /** `[glyph][#id - label] description`. */
  function DueTaskLine(t: Task): (line: string)
    ensures |line| > 4 && line[..3] == GlyphBox(t.status) && line[3] == '[' && line[4] == '#'
  {
    GlyphBox(t.status) + HashOpen(Decimal(t.id) + " - " + PriorityLabel(t.priority) + "] " + t.description)
  }

  /** The lines a row prints. */
  function RowLines(r: Row): (lines: seq<string>)
    ensures |lines| == if r.TagHeader? || r.DueHeader? then 2 else 1
    ensures lines[0] != ""
  {
    match r
    case TagHeader(tag) => TagHeaderLines(tag)
    case TagLine(t) => [TagTaskLine(t)]
    case DueHeader(d) => DueHeaderLines(d)
    case DueTagHeader(tag) => [DueTagLine(tag)]
    case DueLine(t) => [DueTaskLine(t)]
    case RawLine(t) => [RawTaskLine(t)]
  }

  /** The lines of the items of `s` one after the other, item `x` printing `f(x)`. */
  function Flatten<T>(f: T -> seq<string>, s: seq<T>): seq<string> {
    if s == [] then [] else Flatten(f, s[..|s| - 1]) + f(s[|s| - 1])
  }

  /** One more item adds its lines. */
  lemma {:induction false} FlattenSnoc<T>(f: T -> seq<string>, a: seq<T>, x: T)
    ensures Flatten(f, a + [x]) == Flatten(f, a) + f(x)
  {
    assert (a + [x])[..|a + [x]| - 1] == a;
  }

  /** The lines of two sequences one after the other are their lines one after the other. */
  lemma {:induction false} FlattenAppend<T>(f: T -> seq<string>, a: seq<T>, b: seq<T>)
    ensures Flatten(f, a + b) == Flatten(f, a) + Flatten(f, b)
  {
    if b == [] {
      assert a + b == a;
    } else {
      var init, x := b[..|b| - 1], b[|b| - 1];
      FlattenAppend(f, a, init);
      SnocOfInit(b);
      assert a + b == (a + init) + [x];
      FlattenSnoc(f, a + init, x);
      FlattenSnoc(f, init, x);
    }
  }

  /** The lines a sequence of rows prints, in order. */
  function Lines(rows: seq<Row>): seq<string> {
    Flatten(RowLines, rows)
  }

  /** Every row prints one or two lines. */
  lemma {:induction false} LinesLength(rows: seq<Row>)
    ensures |rows| <= |Lines(rows)| <= 2 * |rows|
  {
    if rows != [] {
      LinesLength(rows[..|rows| - 1]);
      var r := rows[|rows| - 1];
      assert |RowLines(r)| <= 2;
    }
  }

  /** The text of two listings one after the other is their texts one after the other. */
  lemma LinesAppend(a: seq<Row>, b: seq<Row>)
    ensures Lines(a + b) == Lines(a) + Lines(b)
  {
    FlattenAppend(RowLines, a, b);
  }

  /**
   * The first line of a row tells its kind: grouped task lines open with the
   * bracket of the glyph, section headers with a line break, tag sub-headers
   * with `#`, and raw lines with a digit of the id.
   */
  lemma {:induction false} LineOpenings(r: Row)
    ensures (r.TagLine? || r.DueLine?) <==> RowLines(r)[0][0] == '['
    ensures (r.TagHeader? || r.DueHeader?) <==> RowLines(r)[0][0] == '\n'
    ensures r.DueTagHeader? <==> RowLines(r)[0][0] == '#'
    ensures r.RawLine? <==> IsDigit(RowLines(r)[0][0])
  {
    match r
    case TagHeader(tag) => assert TagHeaderLines(tag)[0][..3][0] == '\n';
    case TagLine(t) =>
    case DueHeader(d) => assert DueHeaderLines(d)[0][..6][0] == '\n';
    case DueTagHeader(tag) => assert DueTagLine(tag)[..2][0] == '#';
    case DueLine(t) =>
    case RawLine(t) =>
  }

  /** The tasks of the task rows, in order. */
  function Entries(rows: seq<Row>): seq<Task> {
    if rows == [] then []
    else
      var last := rows[|rows| - 1];
      Entries(rows[..|rows| - 1]) + (if last.TagLine? || last.DueLine? || last.RawLine? then [last.task] else [])
  }

  lemma {:induction false} EntriesAppend(a: seq<Row>, b: seq<Row>)
    ensures Entries(a + b) == Entries(a) + Entries(b)
  {
    if b == [] {
      assert a + b == a;
    } else {
      var ab := a + b;
      assert ab[..|ab| - 1] == a + b[..|b| - 1] && ab[|ab| - 1] == b[|b| - 1];
      EntriesAppend(a, b[..|b| - 1]);
    }
  }

  // ---------------------------------------------------------------------
  // The listing by tag
  // ---------------------------------------------------------------------

  /** Every task has a first tag: `print_by_tag` indexes `tags[0]` of each. */
  predicate AllTagged(ts: seq<Task>) {
    forall k :: 0 <= k < |ts| ==> ts[k].tags != []
  }

  /** `current_tag` after a prefix of the walk: the last task's first tag, "" at the start. */
  function PrevTag(s: seq<Task>): string {
    if s == [] then "" else PrimaryTag(s[|s| - 1])
  }

  /** The rows of the by-tag walk over an already sorted list. */
  function TagRows(s: seq<Task>): seq<Row> {
    if s == [] then []
    else
      var init, t := s[..|s| - 1], s[|s| - 1];
      TagRows(init)
        + (if PrimaryTag(t) != PrevTag(init) then [TagHeader(PrimaryTag(t))] else [])
        + [TagLine(t)]
  }

  /** The by-tag walk prints each task's line and at most one header before it. */
  lemma {:induction false} TagRowsLength(s: seq<Task>)
    ensures |s| <= |TagRows(s)| <= 2 * |s|
  {
    if s != [] {
      TagRowsLength(s[..|s| - 1]);
    }
  }

  /** `print_by_tag`'s output for the selected tasks. */
  function TagListing(tasks: seq<Task>): (rows: seq<Row>)
    ensures |tasks| <= |rows| <= 2 * |tasks|
  {
    TagRowsLength(SortBy(Precedes(ByTag), tasks));
    TagRows(SortBy(Precedes(ByTag), tasks))
  }

  /** A non-empty sequence is its front followed by its last element. */
  lemma SnocOfInit<T>(s: seq<T>)
    requires s != []
    ensures s[..|s| - 1] + [s[|s| - 1]] == s
  {
  }

  /** One more row adds its task, if it is a task row. */
  lemma {:induction false} EntriesSnoc(a: seq<Row>, r: Row)
    ensures Entries(a + [r]) == Entries(a) + (if r.TagLine? || r.DueLine? || r.RawLine? then [r.task] else [])
  {
    assert (a + [r])[..|a + [r]| - 1] == a;
  }

  /** Header rows add no task. */
  lemma {:induction false} EntriesSkipHeader(a: seq<Row>, h: seq<Row>)
    requires h == [] || (|h| == 1 && (h[0].TagHeader? || h[0].DueHeader? || h[0].DueTagHeader?))
    ensures Entries(a + h) == Entries(a)
  {
    if h == [] {
      assert a + h == a;
    } else {
      assert a + h == a + [h[0]];
      EntriesSnoc(a, h[0]);
    }
  }

  /** The by-tag walk prints one line per task, in the order of the list. */
  lemma {:induction false} TagRowsEntries(s: seq<Task>)
    ensures Entries(TagRows(s)) == s
  {
    if s != [] {
      var init, t := s[..|s| - 1], s[|s| - 1];
      var h := if PrimaryTag(t) != PrevTag(init) then [TagHeader(PrimaryTag(t))] else [];
      TagRowsEntries(init);
      EntriesSnoc(TagRows(init) + h, TagLine(t));
      EntriesSkipHeader(TagRows(init), h);
      assert init + [t] == s;
    }
  }

  /** The tag of the last header among the rows, "" when there is none. */
  function SectionTag(rows: seq<Row>): string {
    if rows == [] then ""
    else if rows[|rows| - 1].TagHeader? then rows[|rows| - 1].tag
    else SectionTag(rows[..|rows| - 1])
  }

  lemma {:induction false} SectionTagOfTagRows(s: seq<Task>)
    ensures SectionTag(TagRows(s)) == PrevTag(s)
  {
    if s != [] {
      var init, t := s[..|s| - 1], s[|s| - 1];
      var h := if PrimaryTag(t) != PrevTag(init) then [TagHeader(PrimaryTag(t))] else [];
      var rows := TagRows(init) + h + [TagLine(t)];
      assert rows[..|rows| - 1] == TagRows(init) + h;
      if h == [] {
        assert TagRows(init) + h == TagRows(init);
        SectionTagOfTagRows(init);
      }
    }
  }

  /**
   * Every task line of the by-tag walk stands under the header of its own
   * first tag (or under none, when that tag is "" and no header came before).
   */
  lemma {:induction false} TagLinesUnderOwnHeader(s: seq<Task>)
    ensures forall i :: 0 <= i < |TagRows(s)| && TagRows(s)[i].TagLine? ==>
      SectionTag(TagRows(s)[..i]) == PrimaryTag(TagRows(s)[i].task)
  {
    if s != [] {
      var init, t := s[..|s| - 1], s[|s| - 1];
      var h := if PrimaryTag(t) != PrevTag(init) then [TagHeader(PrimaryTag(t))] else [];
      var r0 := TagRows(init);
      var rows := r0 + h + [TagLine(t)];
      TagLinesUnderOwnHeader(init);
      forall i | 0 <= i < |rows| && rows[i].TagLine?
        ensures SectionTag(rows[..i]) == PrimaryTag(rows[i].task)
      {
        if i < |r0| {
          assert rows[..i] == r0[..i] && rows[i] == r0[i];
        } else {
          assert i == |rows| - 1;
          assert rows[..i] == r0 + h;
          SectionTagOfTagRows(init);
          if h == [] {
            assert r0 + h == r0;
          } else {
            assert (r0 + h)[..|r0 + h| - 1] == r0;
          }
        }
      }
    }
  }

  /** The tags of the headers, in order. */
  function TagHeaders(rows: seq<Row>): seq<string> {
    if rows == [] then []
    else
      var last := rows[|rows| - 1];
      TagHeaders(rows[..|rows| - 1]) + (if last.TagHeader? then [last.tag] else [])
  }

  lemma {:induction false} TagHeadersOfTagRows(s: seq<Task>)
    requires s != []
    ensures TagHeaders(TagRows(s)) == TagHeaders(TagRows(s[..|s| - 1]))
      + (if PrimaryTag(s[|s| - 1]) != PrevTag(s[..|s| - 1]) then [PrimaryTag(s[|s| - 1])] else [])
  {
    var init, t := s[..|s| - 1], s[|s| - 1];
    var h := if PrimaryTag(t) != PrevTag(init) then [TagHeader(PrimaryTag(t))] else [];
    var r0 := TagRows(init);
    var rows := r0 + h + [TagLine(t)];
    assert rows[..|rows| - 1] == r0 + h;
    if h != [] {
      assert (r0 + h)[..|r0 + h| - 1] == r0;
    } else {
      assert r0 + h == r0;
    }
  }

  /** Every header names the first tag of some task. */
  lemma {:induction false} TagHeadersNameTasks(s: seq<Task>)
    ensures forall tag :: tag in TagHeaders(TagRows(s)) ==> exists t :: t in s && PrimaryTag(t) == tag
  {
    if s != [] {
      var init, t := s[..|s| - 1], s[|s| - 1];
      var h0 := TagHeaders(TagRows(init));
      var extra := if PrimaryTag(t) != PrevTag(init) then [PrimaryTag(t)] else [];
      var h := TagHeaders(TagRows(s));
      assert h == h0 + extra by {
        TagHeadersOfTagRows(s);
      }
      assert forall tag :: tag in h0 ==> exists u :: u in init && PrimaryTag(u) == tag by {
        TagHeadersNameTasks(init);
      }
      forall tag | tag in h
        ensures exists u :: u in s && PrimaryTag(u) == tag
      {
        if tag in h0 {
          var u :| u in init && PrimaryTag(u) == tag;
          var k :| 0 <= k < |init| && init[k] == u;
          assert s[k] == u;
        } else {
          assert tag in extra;
          assert s[|s| - 1] == t && PrimaryTag(t) == tag;
        }
      }
    }
  }

  /** Every first tag other than "" heads a section. */
  lemma {:induction false} TagHeadersCoverTags(s: seq<Task>)
    ensures forall t :: t in s && PrimaryTag(t) != "" ==> PrimaryTag(t) in TagHeaders(TagRows(s))
  {
    if s != [] {
      var init, t := s[..|s| - 1], s[|s| - 1];
      TagHeadersCoverTags(init);
      TagHeadersOfTagRows(s);
      var h0 := TagHeaders(TagRows(init));
      forall u | u in s && PrimaryTag(u) != ""
        ensures PrimaryTag(u) in TagHeaders(TagRows(s))
      {
        var k :| 0 <= k < |s| && s[k] == u;
        if k < |init| {
          assert init[k] == u;
        } else if PrimaryTag(t) == PrevTag(init) {
          assert init[|init| - 1] in init;
        }
      }
    }
  }

  /** Strictly increasing texts: no text occurs twice. */
  predicate Increasing(hs: seq<string>) {
    forall i, j :: 0 <= i < j < |hs| ==> LexLess(hs[i], hs[j])
  }

  /** First tags never decrease along the list. */
  predicate TagsInOrder(s: seq<Task>) {
    forall i, j :: 0 <= i < j < |s| ==> PrimaryTag(s[i]) == PrimaryTag(s[j]) || LexLess(PrimaryTag(s[i]), PrimaryTag(s[j]))
  }

  lemma {:induction false} SortedTagsInOrder(s: seq<Task>)
    requires Sorted(Precedes(ByTag), s)
    ensures TagsInOrder(s)
  {
    forall i, j | 0 <= i < j < |s|
      ensures PrimaryTag(s[i]) == PrimaryTag(s[j]) || LexLess(PrimaryTag(s[i]), PrimaryTag(s[j]))
    {
      SortedByTagTags(s[i], s[j]);
    }
  }

  /** In a list sorted by tag, a later first tag is never before an earlier one. */
  lemma {:induction false} SortedByTagTags(a: Task, b: Task)
    requires !Precedes(ByTag)(b, a)
    ensures PrimaryTag(a) == PrimaryTag(b) || LexLess(PrimaryTag(a), PrimaryTag(b))
  {
    CompareReverse(ByTag, a, b);
    CompareTextReverse(PrimaryTag(a), PrimaryTag(b));
    if PrimaryTag(a) != PrimaryTag(b) {
      LexLessTotal(PrimaryTag(a), PrimaryTag(b));
    }
  }

  /**
   * On a list sorted by tag the headers come in strictly increasing order,
   * so each tag heads one section only; the last header is the last task's tag.
   */
  lemma {:induction false} TagHeadersIncreasing(s: seq<Task>)
    requires TagsInOrder(s)
    ensures Increasing(TagHeaders(TagRows(s)))
    ensures forall k :: 0 <= k < |TagHeaders(TagRows(s))| ==>
      TagHeaders(TagRows(s))[k] == PrevTag(s) || LexLess(TagHeaders(TagRows(s))[k], PrevTag(s))
  {
    if s != [] {
      var init, t := s[..|s| - 1], s[|s| - 1];
      var h0 := TagHeaders(TagRows(init));
      var p := PrevTag(init);
      TagHeadersOfTagRows(s);
      if init == [] {
        assert h0 == [];
      } else {
        assert TagsInOrder(init);
        TagHeadersIncreasing(init);
        assert PrimaryTag(init[|init| - 1]) == p && s[|s| - 2] == init[|init| - 1];
        if PrimaryTag(t) != p {
          IncreasingAppend(h0, p, PrimaryTag(t));
        }
      }
    }
  }

  /** On a list sorted by tag the headers are strictly increasing: each tag heads one section only. */
  lemma {:induction false} TagListingHeadersIncreasing(tasks: seq<Task>)
    ensures Increasing(TagHeaders(TagListing(tasks)))
  {
    PrecedesIsStrictWeakOrder(ByTag);
    SortBySpec(Precedes(ByTag), tasks);
    SortedTagsInOrder(SortBy(Precedes(ByTag), tasks));
    TagHeadersIncreasing(SortBy(Precedes(ByTag), tasks));
  }

  /** A text after the last header text extends increasing headers. */
  lemma {:induction false} IncreasingAppend(h: seq<string>, p: string, tag: string)
    requires Increasing(h) && LexLess(p, tag)
    requires forall k :: 0 <= k < |h| ==> h[k] == p || LexLess(h[k], p)
    ensures Increasing(h + [tag])
    ensures forall k :: 0 <= k < |h + [tag]| ==> (h + [tag])[k] == tag || LexLess((h + [tag])[k], tag)
  {
    forall k | 0 <= k < |h|
      ensures LexLess(h[k], tag)
    {
      if h[k] != p {
        LexLessTransitive(h[k], p, tag);
      }
    }
  }

  /** One step of the by-tag walk: the rows and the remembered tag after task `i`. */
  lemma {:induction false} TagWalkStep(s: seq<Task>, i: nat)
    requires i < |s|
    ensures TagRows(s[..i + 1]) == TagRows(s[..i])
      + (if PrimaryTag(s[i]) != PrevTag(s[..i]) then [TagHeader(PrimaryTag(s[i]))] else []) + [TagLine(s[i])]
    ensures PrevTag(s[..i + 1]) == PrimaryTag(s[i])
  {
    assert s[..i + 1][..i] == s[..i] && s[..i + 1][i] == s[i];
  }

  /** `print_by_tag`: sorts a copy of the list, then prints it section by section. */
  method PrintByTag(tasks: seq<Task>) returns (rows: seq<Row>)
    requires AllTagged(tasks)
    ensures rows == TagListing(tasks)
  {
    var sorted := new Task[|tasks|](i requires 0 <= i < |tasks| => tasks[i]);
    assert sorted[..] == tasks;
    SortInPlace(sorted, Precedes(ByTag));
    SortedTagged(tasks);
    ghost var s := sorted[..];
    rows := [];
    var currentTag := "";
    var i := 0;
    while i < sorted.Length
      invariant 0 <= i <= sorted.Length && s == sorted[..]
      invariant rows == TagRows(s[..i])
      invariant currentTag == PrevTag(s[..i])
    {
      var task := sorted[i];
      assert task == s[i] && task.tags != [];
      TagWalkStep(s, i);
      var header: seq<Row> := [];
      if task.tags[0] != currentTag {
        currentTag := task.tags[0];
        header := [TagHeader(currentTag)];
      }
      rows := rows + header + [TagLine(task)];
      i := i + 1;
    }
    assert s[..sorted.Length] == s;
  }

  /** Sorting keeps every task, so a sorted list of tagged tasks is tagged. */
  lemma {:induction false} SortedTagged(tasks: seq<Task>)
    requires AllTagged(tasks)
    ensures AllTagged(SortBy(Precedes(ByTag), tasks))
  {
    PrecedesIsStrictWeakOrder(ByTag);
    SortBySpec(Precedes(ByTag), tasks);
    var s := SortBy(Precedes(ByTag), tasks);
    forall k | 0 <= k < |s|
      ensures s[k].tags != []
    {
      assert s[k] in multiset(tasks);
    }
  }

  // ---------------------------------------------------------------------
  // The listing by due date
  // ---------------------------------------------------------------------

  /**
   * The by-due comparator reads `tags[0]` only to break a tie on the due
   * date, so it is defined on a list in which every task that shares its due
   * day with another has a first tag.
   */
  predicate DueComparable(ts: seq<Task>) {
    forall i, j :: 0 <= i < |ts| && 0 <= j < |ts| && i != j && ts[i].due == ts[j].due ==> ts[i].tags != []
  }

  /**
   * A list the by-tag listing accepts is one the by-due listing accepts, and
   * so is one whose days are all different.
   */
  lemma TaggedIsDueComparable(ts: seq<Task>)
    ensures AllTagged(ts) ==> DueComparable(ts)
    ensures (forall i, j :: 0 <= i < j < |ts| ==> ts[i].due != ts[j].due) ==> DueComparable(ts)
  {
  }

  /** `current_due` after a prefix of the walk: the last task's ISO date, "" at the start. */
  function CurrentDue(s: seq<Task>): string {
    if s == [] then "" else IsoDate(s[|s| - 1].due)
  }

  /** `current_tag` after a prefix of the walk: the first tag of the last task that has tags. */
  function CurrentTag(s: seq<Task>): string {
    if s == [] then ""
    else if s[|s| - 1].tags != [] then s[|s| - 1].tags[0]
    else CurrentTag(s[..|s| - 1])
  }

  /**
   * `current_tag` is "" until a task with tags has been printed, and after
   * that the first tag of the latest such task.
   */
  lemma {:induction false} CurrentTagOfLatestTagged(s: seq<Task>)
    ensures (forall k :: 0 <= k < |s| ==> s[k].tags == []) ==> CurrentTag(s) == ""
    ensures forall k :: 0 <= k < |s| && s[k].tags != [] && (forall j :: k < j < |s| ==> s[j].tags == []) ==>
      CurrentTag(s) == s[k].tags[0]
  {
    if s != [] {
      var init := s[..|s| - 1];
      CurrentTagOfLatestTagged(init);
      assert forall k :: 0 <= k < |init| ==> init[k] == s[k];
    }
  }

  /** The due header before `t`: printed when its day is not the previous task's day. */
  function DueHeaderRows(init: seq<Task>, t: Task): seq<Row> {
    if init == [] || init[|init| - 1].due != t.due then [DueHeader(t.due)] else []
  }

  function DueTagRows(init: seq<Task>, t: Task): seq<Row> {
    if t.tags != [] && t.tags[0] != CurrentTag(init) then [DueTagHeader(t.tags[0])] else []
  }

  /** The rows of the by-due walk over an already sorted list. */
  function DueRows(s: seq<Task>): seq<Row> {
    if s == [] then []
    else
      var init, t := s[..|s| - 1], s[|s| - 1];
      DueRows(init) + DueHeaderRows(init, t) + DueTagRows(init, t) + [DueLine(t)]
  }

  /** The by-due walk prints each task's line and at most two headers before it. */
  lemma {:induction false} DueRowsLength(s: seq<Task>)
    ensures |s| <= |DueRows(s)| <= 3 * |s|
  {
    if s != [] {
      DueRowsLength(s[..|s| - 1]);
    }
  }

  /** `print_by_due`'s output for the selected tasks. */
  function DueListing(tasks: seq<Task>): (rows: seq<Row>)
    ensures |tasks| <= |rows| <= 3 * |tasks|
  {
    DueRowsLength(SortBy(Precedes(ByDue), tasks));
    DueRows(SortBy(Precedes(ByDue), tasks))
  }

  /** The by-due walk prints one line per task, in the order of the list. */
  lemma {:induction false} DueRowsEntries(s: seq<Task>)
    ensures Entries(DueRows(s)) == s
  {
    if s != [] {
      var init, t := s[..|s| - 1], s[|s| - 1];
      var r0, a, b := DueRows(init), DueHeaderRows(init, t), DueTagRows(init, t);
      DueRowsEntries(init);
      EntriesSnoc(r0 + a + b, DueLine(t));
      EntriesSkipHeader(r0 + a, b);
      EntriesSkipHeader(r0, a);
      SnocOfInit(s);
    }
  }

  /** The day of the last due header among the rows. */
  function SectionDue(rows: seq<Row>): Option<Date> {
    if rows == [] then None
    else if rows[|rows| - 1].DueHeader? then Some(rows[|rows| - 1].due)
    else SectionDue(rows[..|rows| - 1])
  }

  /**
   * The walk compares the ISO text of the day with `current_due`; that text
   * differs exactly when the day differs from the previous task's day.
   */
  lemma {:induction false} DueHeaderWhenDayChanges(init: seq<Task>, t: Task)
    ensures IsoDate(t.due) != CurrentDue(init) <==> init == [] || init[|init| - 1].due != t.due
  {
    if init == [] {
      assert |IsoDate(t.due)| >= 10;
    } else if IsoDate(t.due) == CurrentDue(init) {
      IsoDateInjective(t.due, init[|init| - 1].due);
    }
  }

  lemma {:induction false} SectionDueOfDueRows(s: seq<Task>)
    ensures SectionDue(DueRows(s)) == if s == [] then None else Some(s[|s| - 1].due)
  {
    if s != [] {
      var init, t := s[..|s| - 1], s[|s| - 1];
      var r0, a, b := DueRows(init), DueHeaderRows(init, t), DueTagRows(init, t);
      var rows := r0 + a + b + [DueLine(t)];
      assert rows[..|rows| - 1] == r0 + a + b;
      SectionDueSkipsTagRows(r0 + a, b);
      if a == [] {
        assert r0 + a == r0;
        SectionDueOfDueRows(init);
      } else {
        assert (r0 + a)[|r0 + a| - 1] == DueHeader(t.due);
      }
    }
  }

  lemma {:induction false} SectionDueSkipsTagRows(rows: seq<Row>, b: seq<Row>)
    requires b == [] || (|b| == 1 && b[0].DueTagHeader?)
    ensures SectionDue(rows + b) == SectionDue(rows)
  {
    if b != [] {
      assert (rows + b)[..|rows + b| - 1] == rows;
    } else {
      assert rows + b == rows;
    }
  }

  /** Every task line of the by-due walk stands under the header of its own due day. */
  lemma {:induction false} DueLinesUnderOwnHeader(s: seq<Task>)
    ensures forall i :: 0 <= i < |DueRows(s)| && DueRows(s)[i].DueLine? ==>
      SectionDue(DueRows(s)[..i]) == Some(DueRows(s)[i].task.due)
  {
    if s != [] {
      var init, t := s[..|s| - 1], s[|s| - 1];
      var r0, a, b := DueRows(init), DueHeaderRows(init, t), DueTagRows(init, t);
      var rows := r0 + a + b + [DueLine(t)];
      DueLinesUnderOwnHeader(init);
      forall i | 0 <= i < |rows| && rows[i].DueLine?
        ensures SectionDue(rows[..i]) == Some(rows[i].task.due)
      {
        if i < |r0| {
          assert rows[..i] == r0[..i] && rows[i] == r0[i];
        } else {
          assert i == |rows| - 1;
          assert rows[..i] == r0 + a + b;
          SectionDueOfDueRows(s);
          assert DueRows(s)[..|DueRows(s)| - 1] == r0 + a + b;
        }
      }
    }
  }

  /** The first tag of the last tag sub-header among the rows, "" when there is none. */
  function SubSectionTag(rows: seq<Row>): string {
    if rows == [] then ""
    else if rows[|rows| - 1].DueTagHeader? then rows[|rows| - 1].tag
    else SubSectionTag(rows[..|rows| - 1])
  }

  lemma {:induction false} SubSectionTagOfDueRows(s: seq<Task>)
    ensures SubSectionTag(DueRows(s)) == CurrentTag(s)
  {
    if s != [] {
      var init, t := s[..|s| - 1], s[|s| - 1];
      var r0, a, b := DueRows(init), DueHeaderRows(init, t), DueTagRows(init, t);
      var rows := r0 + a + b + [DueLine(t)];
      assert rows[..|rows| - 1] == r0 + a + b;
      SubSectionTagOfDueRows(init);
      if b == [] {
        assert r0 + a + b == r0 + a;
        if a == [] {
          assert r0 + a == r0;
        } else {
          assert (r0 + a)[..|r0 + a| - 1] == r0;
        }
      }
    }
  }

  /**
   * Every task line with tags stands under the sub-header of its own first
   * tag. That sub-header may belong to an earlier due section: `current_tag`
   * is not reset when the day changes.
   */
  lemma {:induction false} DueLinesUnderOwnTag(s: seq<Task>)
    ensures forall i :: 0 <= i < |DueRows(s)| && DueRows(s)[i].DueLine? && DueRows(s)[i].task.tags != [] ==>
      SubSectionTag(DueRows(s)[..i]) == DueRows(s)[i].task.tags[0]
  {
    if s != [] {
      var init, t := s[..|s| - 1], s[|s| - 1];
      var r0, a, b := DueRows(init), DueHeaderRows(init, t), DueTagRows(init, t);
      var rows := r0 + a + b + [DueLine(t)];
      DueLinesUnderOwnTag(init);
      forall i | 0 <= i < |rows| && rows[i].DueLine? && rows[i].task.tags != []
        ensures SubSectionTag(rows[..i]) == rows[i].task.tags[0]
      {
        if i < |r0| {
          assert rows[..i] == r0[..i] && rows[i] == r0[i];
        } else {
          assert i == |rows| - 1;
          assert rows[..i] == r0 + a + b;
          SubSectionTagOfDueRows(init);
          if b == [] {
            assert r0 + a + b == r0 + a;
            if a == [] {
              assert r0 + a == r0;
            } else {
              assert (r0 + a)[..|r0 + a| - 1] == r0;
            }
          }
        }
      }
    }
  }

  /**
   * A new due section whose first task has the same first tag as the task
   * before it prints no tag sub-header: the header is followed directly by
   * the task line.
   */
  lemma {:induction false} SubHeaderCarriesOver(init: seq<Task>, t: Task)
    requires init != [] && init[|init| - 1].due != t.due
    requires init[|init| - 1].tags != [] && t.tags != [] && t.tags[0] == init[|init| - 1].tags[0]
    ensures DueRows(init + [t]) == DueRows(init) + [DueHeader(t.due), DueLine(t)]
  {
    var s := init + [t];
    assert s[..|s| - 1] == init && s[|s| - 1] == t;
  }

  /** The days of the due headers, in order. */
  function DueHeaders(rows: seq<Row>): seq<Date> {
    if rows == [] then []
    else
      var last := rows[|rows| - 1];
      DueHeaders(rows[..|rows| - 1]) + (if last.DueHeader? then [last.due] else [])
  }

  lemma {:induction false} DueHeadersSkipsTagRows(rows: seq<Row>, b: seq<Row>)
    requires b == [] || (|b| == 1 && b[0].DueTagHeader?)
    ensures DueHeaders(rows + b) == DueHeaders(rows)
  {
    if b != [] {
      assert (rows + b)[..|rows + b| - 1] == rows;
    } else {
      assert rows + b == rows;
    }
  }

  lemma {:induction false} DueHeadersOfDueRows(s: seq<Task>)
    requires s != []
    ensures DueHeaders(DueRows(s)) == DueHeaders(DueRows(s[..|s| - 1]))
      + (if s[..|s| - 1] == [] || s[|s| - 2].due != s[|s| - 1].due then [s[|s| - 1].due] else [])
  {
    var init, t := s[..|s| - 1], s[|s| - 1];
    var r0, a, b := DueRows(init), DueHeaderRows(init, t), DueTagRows(init, t);
    var rows := r0 + a + b + [DueLine(t)];
    assert rows[..|rows| - 1] == r0 + a + b;
    DueHeadersSkipsTagRows(r0 + a, b);
    if a != [] {
      assert (r0 + a)[..|r0 + a| - 1] == r0;
    } else {
      assert r0 + a == r0;
    }
  }

  /** Strictly increasing days: no day heads two sections. */
  predicate Chronological(ds: seq<Date>) {
    forall i, j :: 0 <= i < j < |ds| ==> Before(ds[i], ds[j])
  }

  /** Due days never decrease along the list. */
  predicate DaysInOrder(s: seq<Task>) {
    forall i, j :: 0 <= i < j < |s| ==> s[i].due == s[j].due || Before(s[i].due, s[j].due)
  }

  lemma {:induction false} SortedDaysInOrder(s: seq<Task>)
    requires Sorted(Precedes(ByDue), s)
    ensures DaysInOrder(s)
  {
    forall i, j | 0 <= i < j < |s|
      ensures s[i].due == s[j].due || Before(s[i].due, s[j].due)
    {
      SortedByDueDays(s[i], s[j]);
    }
  }

  /** In a list sorted by due date, a later task is never due before an earlier one. */
  lemma {:induction false} SortedByDueDays(a: Task, b: Task)
    requires !Precedes(ByDue)(b, a)
    ensures a.due == b.due || Before(a.due, b.due)
  {
    CompareReverse(ByDue, a, b);
  }

  /**
   * On a list sorted by due date the due headers are in strictly increasing
   * order, and every header day is the day of some task of the list.
   */
  lemma {:induction false} DueHeadersChronological(s: seq<Task>)
    requires DaysInOrder(s)
    ensures Chronological(DueHeaders(DueRows(s)))
    ensures forall k :: 0 <= k < |DueHeaders(DueRows(s))| ==>
      DueHeaders(DueRows(s))[k] == s[|s| - 1].due || Before(DueHeaders(DueRows(s))[k], s[|s| - 1].due)
  {
    if s != [] {
      var init, t := s[..|s| - 1], s[|s| - 1];
      DueHeadersOfDueRows(s);
      if init != [] {
        assert DaysInOrder(init);
        DueHeadersChronological(init);
        var p := init[|init| - 1].due;
        assert s[|s| - 2] == init[|init| - 1];
        if p != t.due {
          ChronologicalAppend(DueHeaders(DueRows(init)), p, t.due);
        }
      }
    }
  }

  /**
   * On a list sorted by due date the due headers are strictly increasing:
   * each day heads one section only.
   */
  lemma {:induction false} DueListingHeadersChronological(tasks: seq<Task>)
    ensures Chronological(DueHeaders(DueListing(tasks)))
  {
    PrecedesIsStrictWeakOrder(ByDue);
    SortBySpec(Precedes(ByDue), tasks);
    SortedDaysInOrder(SortBy(Precedes(ByDue), tasks));
    DueHeadersChronological(SortBy(Precedes(ByDue), tasks));
  }

  /** A day after the last header day extends chronological headers. */
  lemma {:induction false} ChronologicalAppend(h: seq<Date>, p: Date, d: Date)
    requires Chronological(h) && Before(p, d)
    requires forall k :: 0 <= k < |h| ==> h[k] == p || Before(h[k], p)
    ensures Chronological(h + [d])
    ensures forall k :: 0 <= k < |h + [d]| ==> (h + [d])[k] == d || Before((h + [d])[k], d)
  {
    forall k | 0 <= k < |h|
      ensures Before(h[k], d)
    {
      if h[k] != p {
        BeforeTransitive(h[k], p, d);
      }
    }
  }

  /** One step of the by-due walk: the rows and the two remembered keys after task `i`. */
  lemma {:induction false} DueWalkStep(s: seq<Task>, i: nat)
    requires i < |s|
    ensures DueRows(s[..i + 1]) == DueRows(s[..i]) + DueHeaderRows(s[..i], s[i]) + DueTagRows(s[..i], s[i]) + [DueLine(s[i])]
    ensures IsoDate(s[i].due) != CurrentDue(s[..i]) <==> DueHeaderRows(s[..i], s[i]) != []
    ensures CurrentDue(s[..i + 1]) == IsoDate(s[i].due)
    ensures CurrentTag(s[..i + 1]) == if s[i].tags != [] then s[i].tags[0] else CurrentTag(s[..i])
  {
    assert s[..i + 1][..i] == s[..i] && s[..i + 1][i] == s[i];
    DueHeaderWhenDayChanges(s[..i], s[i]);
  }

  /** `print_by_due`: sorts a copy of the list, then prints it day by day, tag by tag. */
  method PrintByDue(tasks: seq<Task>) returns (rows: seq<Row>)
    requires DueComparable(tasks)
    ensures rows == DueListing(tasks)
  {
    var sorted := new Task[|tasks|](i requires 0 <= i < |tasks| => tasks[i]);
    assert sorted[..] == tasks;
    SortInPlace(sorted, Precedes(ByDue));
    ghost var s := sorted[..];
    rows := [];
    var currentDue := "";
    var currentTag := "";
    var i := 0;
    while i < sorted.Length
      invariant 0 <= i <= sorted.Length && s == sorted[..]
      invariant rows == DueRows(s[..i])
      invariant currentDue == CurrentDue(s[..i])
      invariant currentTag == CurrentTag(s[..i])
    {
      var task := sorted[i];
      assert task == s[i];
      DueWalkStep(s, i);
      var header: seq<Row> := [];
      if IsoDate(task.due) != currentDue {
        header := [DueHeader(task.due)];
        currentDue := IsoDate(task.due);
      }
      assert header == DueHeaderRows(s[..i], task);
      var subHeader: seq<Row> := [];
      if task.tags != [] && task.tags[0] != currentTag {
        subHeader := [DueTagHeader(task.tags[0])];
        currentTag := task.tags[0];
      }
      assert subHeader == DueTagRows(s[..i], task);
      rows := rows + header + subHeader + [DueLine(task)];
      i := i + 1;
    }
    assert s[..sorted.Length] == s;
  }

  // ---------------------------------------------------------------------
  // The raw listing
  // ---------------------------------------------------------------------

  /** The unfiltered line: `id, description, status, due, tags joined by ", "`. */
  function RawTaskLine(t: Task): (line: string)
    ensures |line| >= 1 && IsDigit(line[0])
  {
    var id := Decimal(t.id);
    var line := id + ", " + t.description + ", " + StatusName(t.status) + ", "
      + IsoDate(t.due) + ", " + Join(t.tags, ", ");
    assert line[0] == id[0];
    line
  }

  /** Each grouped listing shows the tasks it is given, each once, in the order of its comparator. */
  lemma {:induction false} ListingOrder(tasks: seq<Task>)
    ensures Entries(TagListing(tasks)) == SortBy(Precedes(ByTag), tasks)
    ensures Entries(DueListing(tasks)) == SortBy(Precedes(ByDue), tasks)
    ensures multiset(Entries(TagListing(tasks))) == multiset(tasks)
    ensures multiset(Entries(DueListing(tasks))) == multiset(tasks)
    ensures Sorted(Precedes(ByTag), Entries(TagListing(tasks)))
    ensures Sorted(Precedes(ByDue), Entries(DueListing(tasks)))
  {
    TagRowsEntries(SortBy(Precedes(ByTag), tasks));
    DueRowsEntries(SortBy(Precedes(ByDue), tasks));
    PrecedesIsStrictWeakOrder(ByTag);
    PrecedesIsStrictWeakOrder(ByDue);
    SortBySpec(Precedes(ByTag), tasks);
    SortBySpec(Precedes(ByDue), tasks);
  }

  /** The unfiltered listing: one raw line per task, in store order. */
  function RawRows(ts: seq<Task>): (rows: seq<Row>)
    ensures |rows| == |ts|
    ensures forall k :: 0 <= k < |ts| ==> rows[k] == RawLine(ts[k])
  {
    if ts == [] then [] else RawRows(ts[..|ts| - 1]) + [RawLine(ts[|ts| - 1])]
  }

  /** The raw listing of one more task adds its line. */
  lemma {:induction false} RawRowsSnoc(ts: seq<Task>, t: Task)
    ensures RawRows(ts + [t]) == RawRows(ts) + [RawLine(t)]
  {
    assert (ts + [t])[..|ts + [t]| - 1] == ts;
  }

  /** The raw listing names every task once, in store order. */
  lemma {:induction false} RawRowsEntries(ts: seq<Task>)
    ensures Entries(RawRows(ts)) == ts
  {
    if ts != [] {
      RawRowsEntries(ts[..|ts| - 1]);
      EntriesSnoc(RawRows(ts[..|ts| - 1]), RawLine(ts[|ts| - 1]));
      SnocOfInit(ts);
    }
  }
}
