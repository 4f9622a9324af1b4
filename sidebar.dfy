/**
 * The sidebar of app.py (lines 69-78): one button per history record,
 * labelled from the record, and the display of the selected record.
 */
module Sidebar {
  import opened Wrappers
  import opened History

  /** Python's s[:n] on a string: the first n characters, or all of s if shorter. */
  function Prefix(s: string, n: nat): (r: string)
    ensures |r| == Min(|s|, n)
    ensures r == s[..|r|]
    ensures r == s <==> |s| <= n
  {
    if |s| <= n then s else s[..n]
  }

  /** How many characters of the question a button label shows (app.py:70). */
  const LabelWidth: nat := 20

  /** The button text f"{question[:20]}... ({timestamp})" of app.py:70. */
  function Label(r: Record): (l: string)
    ensures |l| == Min(|r.question|, LabelWidth) + |r.timestamp| + 6
    ensures l[..Min(|r.question|, LabelWidth)] == r.question[..Min(|r.question|, LabelWidth)]
    ensures l[|l| - 1] == ')'
  {
    Prefix(r.question, LabelWidth) + "... (" + r.timestamp + ")"
  }

  /**
   * A label shows the first (at most) 20 characters of the question, then
   * "... (" even when nothing was cut off, then the timestamp in brackets.
   */
  lemma LabelLayout(r: Record)
    ensures var l, p := Label(r), Min(|r.question|, LabelWidth);
            |l| == p + |r.timestamp| + 6 &&
            l[..p] == r.question[..p] &&
            l[p..p + 5] == "... (" &&
            l[p + 5..|l| - 1] == r.timestamp &&
            l[|l| - 1] == ')'
  {
    var l, p := Label(r), Min(|r.question|, LabelWidth);
    var pre := Prefix(r.question, LabelWidth);
    assert l == pre + "... (" + r.timestamp + ")";
    assert |pre| == p;
  }

  /**
   * With timestamps of one fixed width (the strftime format gives 19
   * characters), equal labels mean equal timestamps and equal shown
   * question prefixes.
   */
  lemma LabelDeterminesPrefixAndTimestamp(r1: Record, r2: Record)
    requires |r1.timestamp| == |r2.timestamp|
    requires Label(r1) == Label(r2)
    ensures r1.timestamp == r2.timestamp
    ensures Prefix(r1.question, LabelWidth) == Prefix(r2.question, LabelWidth)
  {
    LabelLayout(r1);
    LabelLayout(r2);
    var l := Label(r1);
    var p := Min(|r1.question|, LabelWidth);
    assert p == Min(|r2.question|, LabelWidth);
    assert r1.timestamp == l[p + 5..|l| - 1] == r2.timestamp;
    assert Prefix(r1.question, LabelWidth) == r1.question[..p] == l[..p];
    assert Prefix(r2.question, LabelWidth) == r2.question[..p] == l[..p];
  }

  /**
   * The effect of the sidebar loop on selected_question (app.py:69-71):
   * pressing the button of an existing record stores its index, anything
   * else leaves the old value.
   */
  function Click(selected: Option<nat>, clicked: Option<nat>, n: nat): (r: Option<nat>)
    ensures r == selected || (r == clicked && clicked.Some? && clicked.value < n)
    ensures clicked.Some? && clicked.value < n ==> r == clicked
  {
    if clicked.Some? && clicked.value < n then clicked else selected
  }

  /** What app.py:74-78 shows; IndexError is history[i] raising for i past the end. */
  datatype Shown = NoSelection | Showing(record: Record) | IndexError(index: nat)

  function View(h: seq<Record>, selected: Option<nat>): (v: Shown)
    ensures v == NoSelection <==> selected.None?
    ensures v.Showing? <==> selected.Some? && selected.value < |h|
    ensures v.Showing? ==> v.record == h[selected.value]
    ensures v.IndexError? ==> selected == Some(v.index) && v.index >= |h|
  {
    match selected
    case None => NoSelection
    case Some(i) => if i < |h| then Showing(h[i]) else IndexError(i)
  }

  /**
   * The stored index is not adjusted when an exchange trims the history:
   * once the history is at or over the cap it either points past the end
   * or at a record |h| + 1 - Cap places newer than the one selected.
   */
  lemma SelectionShiftsOnTrim(h: seq<Record>, rec: Record, i: nat)
    requires Cap <= |h| && i < |h|
    ensures var v := View(NextHistory(h, rec), Some(i));
            (i >= Cap ==> v == IndexError(i)) &&
            (i < Cap ==> v == Showing((h + [rec])[i + |h| + 1 - Cap]))
  {
    var r := NextHistory(h, rec);
    EvictionIsOldestFirst(h, rec);
    assert h + [rec] == (h + [rec])[..|h| + 1 - Cap] + r;
  }
}
