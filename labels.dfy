/**
 * The status glyphs and colored priority labels of the grouped listings
 * (`get_task_symbol`, `get_priority_color`, `color_string`).
 */
module Labels {
  import opened Options
  import opened Tasks

  /** `get_task_symbol`: the one-character glyph shown between brackets. */
  function TaskSymbol(s: Status): (g: string)
    ensures |g| == 1
  {
    match s
    case Todo => " "
    case Hold => "~"
    case Done => "X"
    case Blocked => "!"
  }

  /** Each status has its own glyph. */
  lemma TaskSymbolInjective(a: Status, b: Status)
    requires TaskSymbol(a) == TaskSymbol(b)
    ensures a == b
  {
  }

  /** The ANSI SGR parameter for a color name; unknown names give the reset code "0". */
  function ColorCode(color: string): (code: string)
    ensures code != "" && 'm' !in code
  {
    match color
    case "red" => "31"
    case "green" => "32"
    case "yellow" => "33"
    case "blue" => "34"
    case "magenta" => "35"
    case "cyan" => "36"
    case "white" => "37"
    case "orange" => "38;5;208"
    case _ => "0"
  }

  const Escape: char := 27 as char
  const Reset: string := [Escape] + "[0m"

  /** `color_string`: the text wrapped in an ANSI color escape and a reset. */
  function ColorString(text: string, color: string): (r: string)
    ensures |r| == |text| + |ColorCode(color)| + 7
    ensures r[..3 + |ColorCode(color)|] == [Escape, '['] + ColorCode(color) + "m"
    ensures Uncolor(r) == Some(text)
  {
    var code := ColorCode(color);
    var r := [Escape, '['] + code + "m" + text + Reset;
    assert r[..3 + |code|] == [Escape, '['] + code + "m";
    assert r[0] == Escape && r[1] == '[';
    assert r[2..] == code + ['m'] + (text + Reset);
    FirstIndexAfter(code, 'm', text + Reset);
    var body := r[2 + |code| + 1..];
    assert body == text + Reset;
    assert body[|body| - |Reset|..] == Reset && body[..|body| - |Reset|] == text;
    r
  }

  /** The position of the first `c` in `s`, or `|s|` when there is none. */
  function FirstIndex(s: string, c: char): (i: nat)
    ensures i <= |s| && c !in s[..i]
    ensures i < |s| ==> s[i] == c
  {
    if s == "" then 0
    else if s[0] == c then 0
    else
      var i := 1 + FirstIndex(s[1..], c);
      assert s[..i] == [s[0]] + s[1..][..i - 1];
      i
  }

  lemma {:induction false} FirstIndexAfter(a: string, c: char, b: string)
    requires c !in a
    ensures FirstIndex(a + [c] + b, c) == |a|
  {
    if a != "" {
      assert (a + [c] + b)[1..] == a[1..] + [c] + b;
      FirstIndexAfter(a[1..], c, b);
    }
  }

  /** The visible text of a colored string: what lies between the color escape and the reset. */
  function Uncolor(r: string): Option<string>
  {
    if |r| >= 2 && r[0] == Escape && r[1] == '[' then
      var k := 2 + FirstIndex(r[2..], 'm');
      if k < |r| then
        var body := r[k + 1..];
        if |body| >= |Reset| && body[|body| - |Reset|..] == Reset
        then Some(body[..|body| - |Reset|])
        else None
      else None
    else None
  }

  /** The color each priority is shown in. */
  function PriorityColor(p: Priority): (color: string)
    ensures ColorCode(color) != "0"
  {
    match p
    case Low => "blue"
    case Medium => "orange"
    case High => "red"
  }

  /** `get_priority_color`: the priority's name in its color. */
  function PriorityLabel(p: Priority): (l: string)
    ensures Uncolor(l) == Some(PriorityName(p))
  {
    ColorString(PriorityName(p), PriorityColor(p))
  }

  /** Each priority has its own label. */
  lemma PriorityLabelInjective(a: Priority, b: Priority)
    requires PriorityLabel(a) == PriorityLabel(b)
    ensures a == b
  {
    assert Some(PriorityName(a)) == Some(PriorityName(b));
    PriorityNameInjective(a, b);
  }
}
