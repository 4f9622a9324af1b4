# Conversation history of the ChatbotEVA Streamlit app, in Dafny

`app.py` is a Streamlit chat page backed by a remote language model. The
only state it manages is the session state and one JSON file:

- `history`: a list of `(question, answer, timestamp)` records. It is loaded
  from `chat_history.json` when the session starts, or starts empty if the
  file is absent. After each exchange it gets the new record at the end, is
  written to the file whole, and is then cut to its last 100 records.
- `flowmessages`: the transcript given to the model. It starts with one
  system message. Each call adds a human message, and an AI message once
  the model has answered.
- `selected_question`: the index set by the sidebar button last pressed. It
  is used to show that record.

The model is split into these modules:

- `Wrappers`: `Option`.
- `History`: `Record`, the cap `Cap = 100`, the trim, the multi-exchange
  history, the snapshot written to the file, and the `HistoryFile` class
  (the JSON file, with `Load` and `Save`).
- `Transcript`: the messages, and the transcript as a function `FlowOf` of
  the calls made in a session.
- `Sidebar`: how button labels are built, how a click changes the
  selection, and the display of the selected record.
- `App`: the `Session` class (the session state, whose fields the methods
  update in place) and one run of the script (`Run`). It also holds four
  client scenarios and the calls they make (`Answered`,
  `AnsweredBelowCap`, `Unanswered`).

The model's answer and the timestamp are inputs. The answer is
`Option<string>`, where `None` means `chat.invoke` raised.

Behaviour the model follows from the code:

- **Save before trim.** The file is written before the trim. It can
  therefore hold more than 100 records. A freshly loaded history is not
  trimmed either. So every single-question session grows the file by one
  record (`FileOutgrowsCap`). A capped-log design would trim before
  persisting. This model follows the code as written.
- **Failed model call.** The human message stays in the transcript with no
  answer after it. History and file are unchanged.
- **Stale selection.** The stored selection index is not adjusted when a
  trim shifts the history. It can then point at a different record, or past
  the end. In the second case the display at app.py:75 raises `IndexError`
  and the script run stops there (`SelectionShiftsOnTrim`, `StaleSelection`).

## Model

| member | source | states |
|---|---|---|
| `History.Trim` | app.py:60-61 | the result is the suffix of length min(n, 100) of the list: the newest records, in order |
| `History.EvictOldest` | app.py:60-61 | reference FIFO eviction (drop the oldest while over the cap) never leaves more than 100 records |
| `History.TrimIsFifoEviction` | app.py:60-61 | the slice `[-100:]` under the `> 100` guard is exactly oldest-first eviction |
| `History.NextHistory` | app.py:56-61 | after one exchange the history has min(n+1, 100) records; the new record is last; the others are the newest of the old history, in their old order |
| `History.EvictionIsOldestFirst` | app.py:56-61 | the evicted records are a prefix of the old history, and nothing is evicted iff fewer than 100 were held |
| `History.KeptRecordsShift` | app.py:56-61 | each kept record keeps its relative order and moves down by exactly the number evicted |
| `History.TrimDropsPrefix` | app.py:60-61 | what the trim removes is a prefix of the list, and the kept records are the rest in order |
| `History.NoEvictionBelowCap` | app.py:56-61 | below 100 records an exchange only appends |
| `History.FullHistoryDropsOldest` | app.py:56-61 | from exactly 100 records, one exchange gives the old records without the first, followed by the new one |
| `History.TrimAfterAppend` | app.py:56-61 | trimming before an append does not change the trim after it |
| `History.HistoryAfter` | app.py:56-61 | the history after a run of answered exchanges: the loaded list when there were none; otherwise 1 to 100 records ending with the last record appended |
| `History.HistoryAfterStep` | app.py:56-61 | one more answered exchange is one more NextHistory step, and that step's save writes the history before it plus the new record |
| `History.TwoExchanges` | app.py:56-61 | two answered exchanges are two NextHistory steps; the second save writes NextHistory(loaded, r1) ++ [r2]; the result is the last 100 of loaded ++ [r1, r2] |
| `History.HistoryAfterIsTrim` | app.py:56-61 | after k >= 1 exchanges the history is the last 100 of (loaded ++ appended), even when more than 100 were loaded |
| `History.CapInvariant` | app.py:56-61 | after k >= 1 exchanges the history has exactly min(total, 100) records, the most recent ones in order, and ends with the last record appended |
| `History.SnapshotAfter` | app.py:56-58 | what the k-th save writes ends with the k-th record; the first save writes the loaded list plus that record, untrimmed |
| `History.SnapshotExceedsCap` | app.py:56-61 | the list written to the file exceeds 100 records iff more than 100 were loaded and appended in all; trimming that snapshot gives the in-memory history |
| `History.HistoryFile.Load` | app.py:28-32 | an absent file loads as the empty history; a present file loads as exactly its records, untruncated |
| `History.HistoryFile.Save` | app.py:35-37 | the file is overwritten with the whole list, and loading it gives that list back |
| `Transcript.Turn` | app.py:52-54 | one call leaves Human(question), then AI(answer) only when the model returned; nothing else |
| `Transcript.Messages` | app.py:52-54 | k calls leave between k and 2k messages after the system prompt |
| `Transcript.FlowOf` | app.py:41-54 | the transcript starts with System(prompt) and the rest is the messages of the calls, in call order |
| `Transcript.FlowStep` | app.py:52-54 | each call extends the transcript by exactly its own turn at the end |
| `Transcript.Succeeded` | app.py:53-54 | the number of calls that got an answer is at most the number of calls, and equals it iff every call got one |
| `Transcript.MessagesShape` | app.py:52-54 | each call adds one message, and each answered call a second one; none of them is a system message |
| `Transcript.FlowShape` | app.py:41-54 | the system prompt stays at index 0 and is the only system message; length is 1 + calls + answered calls |
| `Transcript.AllAnsweredLayout` | app.py:52-54 | after k answered calls the transcript has 1 + 2k messages: Human(q_i) at 2i+1 and AI(a_i) at 2i+2 |
| `Transcript.LastMessage` | app.py:52-54 | the transcript ends with the AI answer iff the last call returned, and otherwise with the unanswered question |
| `Sidebar.Prefix` | app.py:70 | `s[:n]` has min(len, n) characters, is a prefix of s, and equals s iff s is not longer than n |
| `Sidebar.Label` | app.py:70 | a button label has min(len, 20) + len(timestamp) + 6 characters, starts with the question's first min(len, 20) characters, and ends with ")" |
| `Sidebar.LabelLayout` | app.py:70 | a label is the first min(len, 20) characters of the question, then "... (" (even when nothing was cut), the timestamp, and ")" |
| `Sidebar.LabelDeterminesPrefixAndTimestamp` | app.py:70 | for timestamps of equal width, equal labels mean equal timestamps and equal shown question prefixes |
| `Sidebar.Click` | app.py:69-71 | the selection either keeps its old value or becomes the index of an existing button; pressing an existing button always selects it |
| `Sidebar.View` | app.py:74-75 | nothing is shown iff nothing is selected; the record at the index is shown iff the index is in range; otherwise IndexError at that index |
| `Sidebar.SelectionShiftsOnTrim` | app.py:60-75 | when history is at or over the cap, an exchange leaves a stored index past the end (IndexError) or pointing at a record n+1-100 places newer (n = old length) |
| `App.Session.constructor` | app.py:40 | a fresh session has none of the keys set |
| `App.Session.Init` | app.py:40-45 | on the first run: transcript = [System(prompt)], history = the file's records untrimmed, selection = None; on later runs nothing changes |
| `App.Session.RenderSidebar` | app.py:69-71 | one label per record in history order; the selection becomes the pressed index if it exists and is otherwise unchanged |
| `App.Session.Respond` | app.py:51-62 | the transcript gains Human(q), then AI(a) if answered; the file receives old history ++ [record]; the history becomes that list trimmed to 100; the answer is returned unchanged; on failure history and file are untouched |
| `App.Session.Run` | app.py:40-89 | a script run: initialise, render the sidebar, show the selection, and exchange if the form was submitted; an IndexError in the display ends the run before the exchange |
| `App.Answered` | app.py:51-62 | an answered call, seen from outside the session: the file receives old history ++ [record], and the history becomes NextHistory of the old one |
| `App.AnsweredBelowCap` | app.py:56-61 | below the cap an answered call appends its record, and the file then holds the whole history |
| `App.Unanswered` | app.py:52-53 | a call whose model request raised leaves history and file unchanged |
| `App.SessionFollowsFold` | app.py:28-61 | from any stored list, an answered call, a failed call and an answered call leave HistoryAfter(stored, [r1, r2]) = last 100 of stored ++ [r1, r2] in memory; the last save wrote SnapshotAfter(stored, [r1, r2]) |
| `App.ThreeExchangesPersist` | app.py:28-61 | three exchanges from an absent file, then a new session loads exactly those three records in order |
| `App.FileOutgrowsCap` | app.py:28-61 | from 100 stored records, two one-question sessions leave 102 records on file and 100 in memory |
| `App.StaleSelection` | app.py:40-89 | after loading 101 records and selecting the last, one exchange makes the next run's display raise IndexError at index 100 |

## Left out

- Streamlit rendering: the title, widgets, form, `st.write`/`st.subheader` and the CSS block (app.py:64-120). They are presentation only. The button pressed on a run and the text submitted are inputs to `Run`.
- The remote model: the `ChatGroq` client and `chat.invoke` (app.py:48, 53). This is a network call. Its answer is an input, and it does not depend on the transcript in this model.
- Environment setup: `.env` loading, the API-key check with `st.stop()`, and `set_verbose` (app.py:11-22).
- The clock: `datetime.now().strftime` (app.py:55). The timestamp is an opaque input string.
- JSON encoding (app.py:31, 37): tuples are stored and come back as lists, and the model does not distinguish them. A corrupt file, where `json.load` raises uncaught, is not modelled.
- Concurrent sessions writing `chat_history.json`, and Streamlit's rerun machinery beyond the order of one script run. These are about concurrency and the framework.
- App.Session.Respond: assumes the file write succeeds. `save_history` opens the file with mode "w" (app.py:36), which empties it before `json.dump` writes. So a write that fails part-way can leave an empty or partial file. At that point `flowmessages` already holds both the human and the AI message, the in-memory history holds the untrimmed list, and no answer is returned. None of this failure path is modelled.
