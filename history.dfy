/**
 * The bounded conversation history of app.py: records, the retention cap,
 * the trim applied after each exchange, and the JSON file that persists it.
 */
module History {
  import opened Wrappers

  /** One logged exchange: the triple (question, answer, timestamp). */
  datatype Record = Record(question: string, response: string, timestamp: string)

  /** The in-memory history keeps at most this many records. */
  const Cap: nat := 100

  function Min(a: int, b: int): int { if a <= b then a else b }

  /**
   * The trim of app.py:60-61: when there are more than Cap records only
   * the last Cap are kept, otherwise the list is left alone.
   */
  function Trim(s: seq<Record>): (r: seq<Record>)
    ensures |r| == Min(|s|, Cap)
    ensures r == s[|s| - |r|..]
  {
    if |s| > Cap then s[|s| - Cap..] else s
  }

  /** Reference definition of FIFO eviction: drop the oldest record while over the cap. */
  function EvictOldest(s: seq<Record>): (r: seq<Record>)
    ensures |r| <= Cap
    decreases |s|
  {
    if |s| <= Cap then s else EvictOldest(s[1..])
  }

  /** Trimming to the last Cap records is exactly oldest-first eviction. */
  lemma {:induction false} TrimIsFifoEviction(s: seq<Record>)
    ensures Trim(s) == EvictOldest(s)
    decreases |s|
  {
    if |s| > Cap {
      TrimIsFifoEviction(s[1..]);
      assert Trim(s[1..]) == s[1..][|s| - 1 - Min(|s| - 1, Cap)..];
      assert s[1..][|s| - 1 - Min(|s| - 1, Cap)..] == s[|s| - Min(|s| - 1, Cap)..];
    }
  }

  /**
   * The in-memory history after one successful exchange (app.py:56, 60-61):
   * the record goes on the end, then the list is cut to its last Cap entries.
   */
  function NextHistory(h: seq<Record>, rec: Record): (r: seq<Record>)
    ensures |r| == Min(|h| + 1, Cap)
    ensures |r| >= 1 && r[|r| - 1] == rec
    ensures r[..|r| - 1] == h[|h| + 1 - |r|..]
  {
    var s := h + [rec];
    assert s[..|h|] == h;
    Trim(s)
  }

  /**
   * Eviction is strictly oldest-first: the records that leave are a prefix
   * of the old history, and none leave while it is below the cap.
   */
  lemma EvictionIsOldestFirst(h: seq<Record>, rec: Record)
    ensures var d := |h| + 1 - |NextHistory(h, rec)|;
            0 <= d <= |h| && (d == 0 <==> |h| < Cap) &&
            h + [rec] == h[..d] + NextHistory(h, rec)
  {
    var d := |h| + 1 - |NextHistory(h, rec)|;
    TrimDropsPrefix(h + [rec]);
    assert (h + [rec])[..d] == h[..d];
  }

  /** A record that stays moves down by exactly the number evicted. */
  lemma KeptRecordsShift(h: seq<Record>, rec: Record)
    ensures var r := NextHistory(h, rec);
            var d := |h| + 1 - |r|;
            0 <= d <= |h| && forall i :: d <= i < |h| ==> r[i - d] == h[i]
  {
    var r := NextHistory(h, rec);
    var d := |h| + 1 - |r|;
    TrimDropsPrefix(h + [rec]);
    forall i | d <= i < |h| ensures r[i - d] == h[i] {
      assert r[i - d] == (h + [rec])[i];
    }
  }

  /** What the trim removes is a prefix, and every kept record is found d places later in the input. */
  lemma TrimDropsPrefix(s: seq<Record>)
    ensures var d := |s| - |Trim(s)|;
            s == s[..d] + Trim(s) &&
            forall i :: d <= i < |s| ==> Trim(s)[i - d] == s[i]
  {
    var d := |s| - |Trim(s)|;
    assert s == s[..d] + s[d..];
  }

  /** Below the cap an exchange evicts nothing. */
  lemma NoEvictionBelowCap(h: seq<Record>, rec: Record)
    requires |h| < Cap
    ensures NextHistory(h, rec) == h + [rec]
  {
    var r := NextHistory(h, rec);
    assert r == r[..|r| - 1] + [rec];
  }

  /** The scenario of a full history: one more exchange drops exactly the oldest record. */
  lemma FullHistoryDropsOldest(h: seq<Record>, rec: Record)
    requires |h| == Cap
    ensures NextHistory(h, rec) == h[1..] + [rec]
  {
    var r := NextHistory(h, rec);
    assert r == r[..|r| - 1] + [rec];
  }

  /** Trimming before an append does not change the trim after it. */
  lemma TrimAfterAppend(s: seq<Record>, x: Record)
    ensures Trim(Trim(s) + [x]) == Trim(s + [x])
  {
    var t := Trim(s);
    if |s| > Cap {
      assert t == s[|s| - Cap..];
      assert (t + [x])[1..] == s[|s| - Cap + 1..] + [x];
      assert (s + [x])[|s| + 1 - Cap..] == s[|s| + 1 - Cap..] + [x];
    }
  }

  /** The in-memory history after a run of successful exchanges starting from h0. */
  function HistoryAfter(h0: seq<Record>, recs: seq<Record>): (r: seq<Record>)
    ensures recs == [] ==> r == h0
    ensures recs != [] ==> 1 <= |r| <= Cap && r[|r| - 1] == recs[|recs| - 1]
    decreases |recs|
  {
    if recs == [] then h0
    else NextHistory(HistoryAfter(h0, recs[..|recs| - 1]), recs[|recs| - 1])
  }

  /** One more exchange extends the fold by one step, and the save of that step sees the history before it. */
  lemma HistoryAfterStep(h0: seq<Record>, recs: seq<Record>, rec: Record)
    ensures HistoryAfter(h0, recs + [rec]) == NextHistory(HistoryAfter(h0, recs), rec)
    ensures SnapshotAfter(h0, recs + [rec]) == HistoryAfter(h0, recs) + [rec]
  {
    assert (recs + [rec])[..|recs|] == recs;
  }

  /** Two exchanges unfold to two steps, and the second save sees the first step's history. */
  lemma TwoExchanges(h0: seq<Record>, r1: Record, r2: Record)
    ensures HistoryAfter(h0, [r1, r2]) == NextHistory(NextHistory(h0, r1), r2)
    ensures SnapshotAfter(h0, [r1, r2]) == NextHistory(h0, r1) + [r2]
    ensures HistoryAfter(h0, [r1, r2]) == Trim(h0 + [r1, r2])
  {
    assert [] + [r1] == [r1];
    HistoryAfterStep(h0, [], r1);
    assert [r1] + [r2] == [r1, r2];
    HistoryAfterStep(h0, [r1], r2);
    HistoryAfterIsTrim(h0, [r1, r2]);
  }

  /**
   * After at least one exchange the history is the last Cap records of
   * everything loaded and appended, whatever the loaded length was.
   */
  lemma {:induction false} HistoryAfterIsTrim(h0: seq<Record>, recs: seq<Record>)
    requires |recs| > 0
    ensures HistoryAfter(h0, recs) == Trim(h0 + recs)
    decreases |recs|
  {
    var init, x := recs[..|recs| - 1], recs[|recs| - 1];
    assert recs == init + [x];
    if init == [] {
      assert h0 + recs == h0 + [x];
    } else {
      HistoryAfterIsTrim(h0, init);
      TrimStep(h0, init, x);
      AppendAssoc(h0, init, x);
    }
  }

  /** Concatenation regroups: appending to a joined list is appending to its second part. */
  lemma AppendAssoc(a: seq<Record>, b: seq<Record>, x: Record)
    ensures a + b + [x] == a + (b + [x])
  {
  }

  /** The inductive step of HistoryAfterIsTrim: one more exchange keeps the fold equal to the trim. */
  lemma TrimStep(h0: seq<Record>, init: seq<Record>, x: Record)
    requires HistoryAfter(h0, init) == Trim(h0 + init)
    ensures HistoryAfter(h0, init + [x]) == Trim(h0 + init + [x])
  {
    HistoryAfterStep(h0, init, x);
    TrimAfterAppend(h0 + init, x);
  }

  /**
   * The cap: after at least one exchange the history holds exactly the
   * min(|h0| + |recs|, Cap) most recent records, in order.
   */
  lemma CapInvariant(h0: seq<Record>, recs: seq<Record>)
    requires |recs| > 0
    ensures var h := HistoryAfter(h0, recs);
            var all := h0 + recs;
            |h| <= Cap &&
            |h| == Min(|all|, Cap) &&
            h == all[|all| - |h|..] &&
            h[|h| - 1] == recs[|recs| - 1]
  {
    HistoryAfterIsTrim(h0, recs);
  }

  /** What the n-th save of a session writes: the untrimmed history before it plus the new record. */
  function SnapshotAfter(h0: seq<Record>, recs: seq<Record>): (r: seq<Record>)
    requires |recs| > 0
    ensures |r| >= 1 && r[|r| - 1] == recs[|recs| - 1]
    ensures |recs| == 1 ==> r == h0 + recs
  {
    HistoryAfter(h0, recs[..|recs| - 1]) + [recs[|recs| - 1]]
  }

  /**
   * The file is written before the trim, so the persisted log exceeds the
   * cap exactly when more than Cap records were loaded and appended in all;
   * trimming the snapshot gives the in-memory history.
   */
  lemma SnapshotExceedsCap(h0: seq<Record>, recs: seq<Record>)
    requires |recs| > 0
    ensures |SnapshotAfter(h0, recs)| > Cap <==> |h0| + |recs| > Cap
    ensures |SnapshotAfter(h0, recs)| <= Cap + 1 || |recs| == 1
    ensures Trim(SnapshotAfter(h0, recs)) == HistoryAfter(h0, recs)
  {
    var init := recs[..|recs| - 1];
    if |init| > 0 {
      CapInvariant(h0, init);
      assert |h0 + init| == |h0| + |recs| - 1;
    } else {
      assert init == [];
    }
  }

  /** The JSON file chat_history.json: absent, or holding a list of records. */
  class HistoryFile {
    var content: Option<seq<Record>>

    constructor (content: Option<seq<Record>>)
      ensures this.content == content
    {
      this.content := content;
    }

    /** load_history (app.py:28-32): an absent file reads as the empty history. */
    function Load(): (h: seq<Record>)
      reads this
      ensures content.None? ==> h == []
      ensures content.Some? ==> h == content.value
    {
      match content
      case None => []
      case Some(s) => s
    }

    /** save_history (app.py:35-37): the whole list overwrites the file. */
    method Save(h: seq<Record>)
      modifies this
      ensures content == Some(h)
      ensures Load() == h
    {
      content := Some(h);
    }
  }
}
