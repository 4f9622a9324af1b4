/**
 * The session state of app.py and the steps one run of the script takes
 * over it: initialisation, the sidebar, the selected-record display and
 * the exchange with the model.
 */
module App {
  import opened Wrappers
  import opened History
  import opened Transcript
  import opened Sidebar

  /**
   * st.session_state of one browser session. `initialized` stands for the
   * key 'flowmessages' being present; `file` is chat_history.json, which
   * outlives the session.
   */
  class Session {
    const file: HistoryFile
    var initialized: bool
    var flow: seq<Msg>
    var history: seq<Record>
    var selected: Option<nat>
    /** Every call of get_chatmodel_response in this session, in order. */
    ghost var attempts: seq<Attempt>

    ghost predicate Valid()
      reads this
    {
      (initialized ==> flow == FlowOf(attempts)) &&
      (!initialized ==> flow == [] && history == [] && selected == None && attempts == [])
    }

    /** A new session: none of the keys is set yet. */
    constructor (file: HistoryFile)
      ensures Valid() && !initialized && this.file == file
    {
      this.file := file;
      initialized := false;
      flow, history, selected := [], [], None;
      attempts := [];
    }

    /**
     * The initialisation block (app.py:40-45). It runs only while
     * 'flowmessages' is absent; the history is loaded as stored, untrimmed.
     */
    method Init()
      requires Valid()
      modifies this
      ensures Valid() && initialized
      ensures old(initialized) ==>
                flow == old(flow) && history == old(history) &&
                selected == old(selected) && attempts == old(attempts)
      ensures !old(initialized) ==>
                flow == [System(Prompt)] && history == file.Load() &&
                selected == None && attempts == []
    {
      if !initialized {
        flow := [System(Prompt)];
        history := file.Load();
        selected := None;
        initialized := true;
        attempts := [];
      }
    }

    /**
     * The sidebar loop (app.py:69-71): one label per record, in history
     * order; pressing the button with key i stores i.
     */
    method RenderSidebar(clicked: Option<nat>) returns (labels: seq<string>)
      requires Valid() && initialized
      modifies this`selected
      ensures Valid()
      ensures |labels| == |history|
      ensures forall i :: 0 <= i < |history| ==> labels[i] == Label(history[i])
      ensures selected == Click(old(selected), clicked, |history|)
      ensures selected != old(selected) ==> selected.Some? && selected.value < |history|
    {
      labels := [];
      var i := 0;
      while i < |history|
        invariant 0 <= i <= |history|
        invariant |labels| == i
        invariant forall k :: 0 <= k < i ==> labels[k] == Label(history[k])
        invariant selected == Click(old(selected), clicked, i)
      {
        labels := labels + [Label(history[i])];
        if clicked == Some(i) {
          selected := Some(i);
        }
        i := i + 1;
      }
    }

    /**
     * get_chatmodel_response (app.py:51-62) with the model's reply as the
     * input `answer` (None when chat.invoke raises) and the timestamp as
     * `ts`. The file receives the untrimmed history; the trim comes after.
     */
    method Respond(question: string, answer: Option<string>, ts: string) returns (reply: Option<string>)
      requires Valid() && initialized
      modifies this, file
      ensures Valid() && initialized && selected == old(selected)
      ensures attempts == old(attempts) + [Attempt(question, answer)]
      ensures flow == old(flow) + Turn(Attempt(question, answer))
      ensures reply == answer
      ensures answer.None? ==> history == old(history) && file.content == old(file.content)
      ensures answer.Some? ==>
                var rec := Record(question, answer.value, ts);
                file.content == Some(old(history) + [rec]) &&
                history == NextHistory(old(history), rec)
    {
      FlowStep(attempts, Attempt(question, answer));
      flow := flow + [Human(question)];
      if answer.None? {
        attempts := attempts + [Attempt(question, answer)];
        reply := None;
        return;
      }
      var content := answer.value;
      flow := flow + [AI(content)];
      assert flow == old(flow) + [Human(question), AI(content)];
      attempts := attempts + [Attempt(question, answer)];
      var rec := Record(question, content, ts);
      history := history + [rec];
      file.Save(history);
      history := Trim(history);
      reply := Some(content);
    }

    /**
     * One run of the script (app.py:40-89 without the rendering): the
     * initialisation block, the sidebar with the button pressed on this
     * run, the display of the selection, and, when the form was submitted,
     * the exchange. An IndexError in the display ends the run there.
     */
    method Run(clicked: Option<nat>, submitted: Option<string>, answer: Option<string>, ts: string)
      returns (labels: seq<string>, shown: Shown, reply: Option<string>)
      requires Valid()
      modifies this, file
      ensures Valid() && initialized
      ensures var h0 := if old(initialized) then old(history) else old(file.Load());
              var a0 := if old(initialized) then old(attempts) else [];
              var s1 := Click(if old(initialized) then old(selected) else None, clicked, |h0|);
              |labels| == |h0| &&
              (forall i :: 0 <= i < |h0| ==> labels[i] == Label(h0[i])) &&
              selected == s1 && shown == View(h0, s1) &&
              if shown.IndexError? || submitted.None? then
                reply == None && history == h0 && attempts == a0 &&
                file.content == old(file.content)
              else
                reply == answer && attempts == a0 + [Attempt(submitted.value, answer)] &&
                match answer
                case None => history == h0 && file.content == old(file.content)
                case Some(v) =>
                  var rec := Record(submitted.value, v, ts);
                  history == NextHistory(h0, rec) && file.content == Some(h0 + [rec])
    {
      Init();
      labels := RenderSidebar(clicked);
      shown := View(history, selected);
      reply := None;
      if shown.IndexError? {
        return;
      }
      if submitted.Some? {
        reply := Respond(submitted.value, answer, ts);
      }
    }
  }

  /**
   * One answered exchange as a caller sees it: the file receives the old
   * history plus the record, and memory keeps NextHistory of it.
   */
  method Answered(s: Session, r: Record)
    requires s.Valid() && s.initialized
    modifies s, s.file
    ensures s.Valid() && s.initialized
    ensures s.file.content == Some(old(s.history) + [r])
    ensures s.history == NextHistory(old(s.history), r)
  {
    var reply := s.Respond(r.question, Some(r.response), r.timestamp);
  }

  /** Below the cap an answered exchange is a plain append, and the file then holds the whole history. */
  method AnsweredBelowCap(s: Session, r: Record)
    requires s.Valid() && s.initialized && |s.history| < Cap
    modifies s, s.file
    ensures s.Valid() && s.initialized
    ensures s.history == old(s.history) + [r] && s.file.content == Some(s.history)
  {
    NoEvictionBelowCap(s.history, r);
    var reply := s.Respond(r.question, Some(r.response), r.timestamp);
  }

  /** A call whose model request raised: nothing but the transcript changes. */
  method Unanswered(s: Session, q: string)
    requires s.Valid() && s.initialized
    modifies s, s.file
    ensures s.Valid() && s.initialized
    ensures s.history == old(s.history) && s.file.content == old(s.file.content)
  {
    var reply := s.Respond(q, None, "");
  }

  /**
   * Three exchanges in a session that starts without a file, then a new
   * session: it loads exactly those records, in order.
   */
  method ThreeExchangesPersist(r1: Record, r2: Record, r3: Record) returns (loaded: seq<Record>)
    ensures loaded == [r1, r2, r3]
  {
    var file := new HistoryFile(None);
    var s := new Session(file);
    s.Init();
    AnsweredBelowCap(s, r1);
    assert s.history == [r1];
    AnsweredBelowCap(s, r2);
    assert s.history == [r1, r2];
    AnsweredBelowCap(s, r3);
    assert s.history == [r1, r2, r3];
    assert file.content == Some([r1, r2, r3]);
    var next := new Session(file);
    next.Init();
    loaded := next.history;
  }

  /**
   * The session follows the fold over its answered exchanges, whatever the
   * file held: an answered call, a failed call and another answered call
   * leave the last Cap of (stored ++ [r1, r2]) in memory, and the last
   * save wrote the untrimmed snapshot.
   */
  method SessionFollowsFold(stored: seq<Record>, r1: Record, q: string, r2: Record)
    returns (h: seq<Record>, saved: seq<Record>)
    ensures h == HistoryAfter(stored, [r1, r2]) && h == Trim(stored + [r1, r2]) && |h| <= Cap
    ensures saved == SnapshotAfter(stored, [r1, r2])
  {
    var file := new HistoryFile(Some(stored));
    var s := new Session(file);
    s.Init();
    Answered(s, r1);
    Unanswered(s, q);
    Answered(s, r2);
    TwoExchanges(stored, r1, r2);
    h, saved := s.history, file.Load();
  }

  /**
   * Because the file is written before the trim and a loaded history is
   * never trimmed, each single-question session grows the file by one
   * record: from Cap stored records, two sessions leave Cap + 2.
   */
  method FileOutgrowsCap(r: Record) returns (stored: nat, inMemory: nat)
    ensures stored == Cap + 2 && inMemory == Cap
  {
    var file := new HistoryFile(Some(seq(Cap, _ => r)));
    var first := new Session(file);
    var labels, shown, reply;
    labels, shown, reply := first.Run(None, Some("q1"), Some("a1"), "t1");
    assert |file.Load()| == Cap + 1;
    var second := new Session(file);
    labels, shown, reply := second.Run(None, Some("q2"), Some("a2"), "t2");
    stored, inMemory := |file.Load()|, |second.history|;
  }

  /**
   * A session that loads Cap + 1 records and selects the last one: after
   * one exchange the history is trimmed to Cap, the stored index is not,
   * and the next run's display reads past the end.
   */
  method StaleSelection(r: Record) returns (before: Shown, after: Shown)
    ensures before == Showing(r) && after == IndexError(Cap)
  {
    var file := new HistoryFile(Some(seq(Cap + 1, _ => r)));
    var s := new Session(file);
    var labels, reply;
    labels, before, reply := s.Run(Some(Cap), None, None, "");
    assert |s.history| == Cap + 1 && s.selected == Some(Cap);
    var shown;
    labels, shown, reply := s.Run(None, Some("q"), Some("a"), "t");
    assert |s.history| == Cap && s.selected == Some(Cap);
    labels, after, reply := s.Run(None, None, None, "");
  }
}
