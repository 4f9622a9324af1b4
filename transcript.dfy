/**
 * The `flowmessages` list of app.py: one system message, then a human
 * message for every question and an AI message for every answer received.
 */
module Transcript {
  import opened Wrappers

  datatype Msg = System(content: string) | Human(content: string) | AI(content: string)

  /** The system message the list starts with (app.py:42). */
  const Prompt: string := "You are a comedian AI assistant"

  /** One call of get_chatmodel_response; `answer` is None when the model call raised. */
  datatype Attempt = Attempt(question: string, answer: Option<string>)

  /** Messages one attempt leaves behind: the question, and the answer if one came back. */
  function Turn(a: Attempt): (t: seq<Msg>)
    ensures |t| == (if a.answer.Some? then 2 else 1)
    ensures t[0] == Human(a.question)
    ensures a.answer.Some? ==> t[1] == AI(a.answer.value)
  {
    match a.answer
    case None => [Human(a.question)]
    case Some(v) => [Human(a.question), AI(v)]
  }

  function Messages(attempts: seq<Attempt>): (m: seq<Msg>)
    ensures |attempts| <= |m| <= 2 * |attempts|
    decreases |attempts|
  {
    if attempts == [] then []
    else Messages(attempts[..|attempts| - 1]) + Turn(attempts[|attempts| - 1])
  }

  /** The transcript of a session after the given attempts, oldest first. */
  function FlowOf(attempts: seq<Attempt>): (f: seq<Msg>)
    ensures |f| >= 1 && f[0] == System(Prompt)
    ensures f[1..] == Messages(attempts)
  {
    [System(Prompt)] + Messages(attempts)
  }

  /** One more call extends the transcript by exactly the messages of that call. */
  lemma FlowStep(attempts: seq<Attempt>, a: Attempt)
    ensures FlowOf(attempts + [a]) == FlowOf(attempts) + Turn(a)
  {
    assert (attempts + [a])[..|attempts|] == attempts;
  }

  /** Number of attempts whose model call returned. */
  function Succeeded(attempts: seq<Attempt>): (n: nat)
    ensures n <= |attempts|
    ensures n == |attempts| <==> forall i :: 0 <= i < |attempts| ==> attempts[i].answer.Some?
    decreases |attempts|
  {
    if attempts == [] then 0
    else Succeeded(attempts[..|attempts| - 1]) + (if attempts[|attempts| - 1].answer.Some? then 1 else 0)
  }

  lemma {:induction false} MessagesShape(attempts: seq<Attempt>)
    ensures |Messages(attempts)| == |attempts| + Succeeded(attempts)
    ensures forall i :: 0 <= i < |Messages(attempts)| ==> !Messages(attempts)[i].System?
    decreases |attempts|
  {
    if attempts != [] {
      var init := attempts[..|attempts| - 1];
      MessagesShape(init);
      var m: seq<Msg> := Messages(init);
      var t: seq<Msg> := Turn(attempts[|attempts| - 1]);
      var mt: seq<Msg> := m + t;
      assert Messages(attempts) == mt;
      forall i | 0 <= i < |mt| ensures !mt[i].System? {
        if i >= |m| { assert mt[i] == t[i - |m|]; }
      }
    }
  }

  /**
   * The system message stays at index 0 and is the only one; every attempt
   * adds one message and every answered attempt one more.
   */
  lemma FlowShape(attempts: seq<Attempt>)
    ensures FlowOf(attempts)[0] == System(Prompt)
    ensures |FlowOf(attempts)| == 1 + |attempts| + Succeeded(attempts)
    ensures forall i :: 1 <= i < |FlowOf(attempts)| ==> !FlowOf(attempts)[i].System?
  {
    MessagesShape(attempts);
    var m := Messages(attempts);
    forall i | 1 <= i < |FlowOf(attempts)| ensures !FlowOf(attempts)[i].System? {
      assert FlowOf(attempts)[i] == m[i - 1];
    }
  }

  /**
   * After k calls that all returned, the transcript is the system message
   * followed by k question/answer pairs in order: |flow| == 1 + 2k.
   */
  lemma {:induction false} AllAnsweredLayout(attempts: seq<Attempt>)
    requires forall i :: 0 <= i < |attempts| ==> attempts[i].answer.Some?
    ensures |FlowOf(attempts)| == 1 + 2 * |attempts|
    ensures forall i :: 0 <= i < |attempts| ==>
              FlowOf(attempts)[2 * i + 1] == Human(attempts[i].question) &&
              FlowOf(attempts)[2 * i + 2] == AI(attempts[i].answer.value)
    decreases |attempts|
  {
    if attempts != [] {
      var n := |attempts|;
      var init, last := attempts[..n - 1], attempts[n - 1];
      AllAnsweredLayout(init);
      var f := FlowOf(init);
      assert FlowOf(attempts) == f + [Human(last.question), AI(last.answer.value)];
      forall i | 0 <= i < n
        ensures FlowOf(attempts)[2 * i + 1] == Human(attempts[i].question)
        ensures FlowOf(attempts)[2 * i + 2] == AI(attempts[i].answer.value)
      {
        if i < n - 1 { assert attempts[i] == init[i]; }
      }
    }
  }

  /**
   * The transcript ends with an AI message exactly when the last call
   * returned; a failed call leaves its question unanswered at the end.
   */
  lemma LastMessage(attempts: seq<Attempt>)
    requires |attempts| > 0
    ensures var f, a := FlowOf(attempts), attempts[|attempts| - 1];
            f[|f| - 1] == (match a.answer case None => Human(a.question) case Some(v) => AI(v))
  {
  }
}
