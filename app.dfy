/** The application state of `App.tsx`: the summary heuristic used when a history record is
    created, and the state the page component keeps together with the transitions its event
    handlers make. */
module App {
  import opened Util
  import opened Strings
  import opened Types

  // ---------------------------------------------------------------------------------------
  // generateSummary

  const SummaryHeading: string := "## Summary"
  const MaxSummary: nat := 150

  /** The capture of `/## Summary\s*([\s\S]*?)\s*##/`, already trimmed. The regular expression
      matches from the leftmost `## Summary` (a later one cannot succeed where the leftmost
      fails) and its lazy group stops at the first `##` at or after the end of the heading;
      the two `\s*` leave out exactly the whitespace that trimming would remove. */
  function SummaryCapture(text: string): (r: Option<string>)
    ensures r.Some? ==>
      exists i, b :: IndexOf(text, SummaryHeading, 0) == Some(i)
        && IndexOf(text, "##", i + |SummaryHeading|) == Some(b)
        && r.value == Trim(text[i + |SummaryHeading|..b])
    ensures r.None? ==>
      IndexOf(text, SummaryHeading, 0).None?
      || IndexOf(text, "##", IndexOf(text, SummaryHeading, 0).value + |SummaryHeading|).None?
  {
    match IndexOf(text, SummaryHeading, 0)
    case None => None
    case Some(i) =>
      match IndexOf(text, "##", i + |SummaryHeading|)
      case None => None
      case Some(b) => Some(Trim(text[i + |SummaryHeading|..b]))
  }

  /** `generateSummary(responseText)` */
  function GenerateSummary(text: string): (r: string)
    ensures |r| <= MaxSummary + 3
  {
    var capture := SummaryCapture(text);
    if capture.Some? && capture.value != "" then
      var c := capture.value;
      if |c| > MaxSummary then c[..MaxSummary - 3] + "..." else c
    else
      Take(text, MaxSummary) + "..."
  }

  /** A found summary section is used as it is when it fits in 150 characters, and is
      otherwise cut to 147 characters plus an ellipsis, exactly 150. */
  lemma SummaryFromSection(text: string)
    requires SummaryCapture(text).Some? && SummaryCapture(text).value != ""
    ensures var c := SummaryCapture(text).value;
            var r := GenerateSummary(text);
            (|c| <= 150 ==> r == c)
            && (|c| > 150 ==> |r| == 150 && r[..147] == c[..147] && r[147..] == "...")
  {
  }

  /** Without a usable section the summary is the first 150 characters (fewer if the text is
      shorter) followed by an ellipsis, which is appended even to a short text. */
  lemma SummaryFallback(text: string)
    requires SummaryCapture(text).None? || SummaryCapture(text).value == ""
    ensures GenerateSummary(text) == Take(text, 150) + "..."
    ensures |GenerateSummary(text)| == (if |text| < 150 then |text| else 150) + 3
  {
  }

  /** A found section holds no `##`, does not begin or end with whitespace, and is the text
      strictly between the first `## Summary` heading and the next `##`, trimmed. */
  lemma {:induction false} SectionShape(text: string)
    requires SummaryCapture(text).Some?
    ensures var c := SummaryCapture(text).value;
            !Includes(c, "##") && (c != "" ==> !IsSpace(c[0]) && !IsSpace(c[|c| - 1]))
  {
    var i := IndexOf(text, SummaryHeading, 0).value;
    var a := i + |SummaryHeading|;
    var b := IndexOf(text, "##", a).value;
    TrimmedSliceExcludes(text, "##", a, b);
  }

  // ---------------------------------------------------------------------------------------
  // History lookup and removal (history.find, history.filter)

  /** `history.find(item => item.id === id)`: the first record with that identifier. */
  function FindById(history: seq<HistoryItem>, id: string): (r: Option<HistoryItem>)
    ensures r.None? <==> !HasId(history, id)
    ensures r.Some? ==> r.value in history && r.value.id == id
    ensures r.Some? ==> exists i :: 0 <= i < |history| && history[i] == r.value
                                    && forall j :: 0 <= j < i ==> history[j].id != id
  {
    if history == [] then None
    else if history[0].id == id then Some(history[0])
    else
      var r := FindById(history[1..], id);
      assert HasId(history, id) ==> HasId(history[1..], id) by {
        if HasId(history, id) {
          var i :| 0 <= i < |history| && history[i].id == id;
          assert history[1..][i - 1].id == id;
        }
      }
      assert r.Some? ==> exists i :: 0 <= i < |history| && history[i] == r.value
                                     && forall j :: 0 <= j < i ==> history[j].id != id by {
        if r.Some? {
          var i :| 0 <= i < |history[1..]| && history[1..][i] == r.value
                   && forall j :: 0 <= j < i ==> history[1..][j].id != id;
          assert history[i + 1] == r.value;
          assert forall j :: 0 <= j < i + 1 ==> history[j].id != id by {
            forall j | 0 <= j < i + 1 ensures history[j].id != id {
              if j > 0 { assert history[j] == history[1..][j - 1]; }
            }
          }
        }
      }
      r
  }

  /** With unique identifiers, the record found is the one record carrying the identifier. */
  lemma FindUnique(history: seq<HistoryItem>, k: nat)
    requires UniqueIds(history) && k < |history|
    ensures FindById(history, history[k].id) == Some(history[k])
  {
    var r := FindById(history, history[k].id);
    var i :| 0 <= i < |history| && history[i] == r.value
             && forall j :: 0 <= j < i ==> history[j].id != history[k].id;
    assert i == k;
  }

  function Keeps(id: string): HistoryItem -> bool {
    (item: HistoryItem) => item.id != id
  }

  /** `history.filter(item => item.id !== id)` */
  function RemoveId(history: seq<HistoryItem>, id: string): (r: seq<HistoryItem>)
    ensures forall x :: x in r <==> x in history && x.id != id
    ensures !HasId(r, id)
    ensures !HasId(history, id) ==> r == history
  {
    var r := Filter(history, Keeps(id));
    assert !HasId(r, id) by {
      forall i | 0 <= i < |r| ensures r[i].id != id {
        assert r[i] in r;
      }
    }
    assert !HasId(history, id) ==> r == history by {
      if !HasId(history, id) {
        assert forall i :: 0 <= i < |history| ==> Keeps(id)(history[i]);
        FilterKeepsAll(history, Keeps(id));
      }
    }
    r
  }

  /** Removal keeps each other record as often as it occurred and in history order. */
  lemma RemoveIdOrder(a: seq<HistoryItem>, b: seq<HistoryItem>, id: string)
    ensures RemoveId(a + b, id) == RemoveId(a, id) + RemoveId(b, id)
  {
    FilterConcat(a, b, Keeps(id));
  }

  /** Removing a present identifier from a history with unique identifiers removes exactly
      one record, and the identifiers stay unique. */
  lemma {:induction false} RemoveIdUnique(history: seq<HistoryItem>, id: string)
    requires UniqueIds(history)
    ensures UniqueIds(RemoveId(history, id))
    ensures |RemoveId(history, id)| == if HasId(history, id) then |history| - 1 else |history|
  {
    if history != [] {
      var head, rest := history[0], history[1..];
      UniqueTail(history);
      RemoveIdUnique(rest, id);
      HasIdCons(history, id);
      var r, t := RemoveId(history, id), RemoveId(rest, id);
      assert r == if head.id != id then [head] + t else t;
      if head.id != id {
        assert forall x :: x in t ==> x.id != head.id;
        UniqueCons(head, t);
      } else {
        assert !HasId(rest, id) by {
          forall k | 0 <= k < |rest| ensures rest[k].id != id {
            assert rest[k] in rest;
          }
        }
      }
    }
  }

  lemma UniqueTail(history: seq<HistoryItem>)
    requires UniqueIds(history) && history != []
    ensures UniqueIds(history[1..])
    ensures forall x :: x in history[1..] ==> x.id != history[0].id
  {
    var rest := history[1..];
    forall i, j | 0 <= i < j < |rest| ensures rest[i].id != rest[j].id {
      assert rest[i] == history[i + 1] && rest[j] == history[j + 1];
    }
    forall x | x in rest ensures x.id != history[0].id {
      var k :| 0 <= k < |rest| && rest[k] == x;
      assert history[k + 1] == x;
    }
  }

  lemma UniqueCons(head: HistoryItem, rest: seq<HistoryItem>)
    requires UniqueIds(rest) && forall x :: x in rest ==> x.id != head.id
    ensures UniqueIds([head] + rest)
  {
    var h := [head] + rest;
    forall i, j | 0 <= i < j < |h| ensures h[i].id != h[j].id {
      assert h[j] == rest[j - 1] && h[j] in rest;
      if i > 0 { assert h[i] == rest[i - 1]; }
    }
  }

  /** A record whose identifier is new keeps the identifiers unique when put in front. */
  lemma PrependUnique(item: HistoryItem, history: seq<HistoryItem>)
    ensures UniqueIds(history) && !HasId(history, item.id) ==> UniqueIds([item] + history)
  {
    if UniqueIds(history) && !HasId(history, item.id) {
      assert forall x :: x in history ==> x.id != item.id;
      UniqueCons(item, history);
    }
  }

  lemma HasIdCons(history: seq<HistoryItem>, id: string)
    requires history != []
    ensures HasId(history, id) <==> history[0].id == id || HasId(history[1..], id)
  {
    if HasId(history, id) && history[0].id != id {
      var k :| 0 <= k < |history| && history[k].id == id;
      assert history[1..][k - 1].id == id;
    }
    if HasId(history[1..], id) {
      var k :| 0 <= k < |history[1..]| && history[1..][k].id == id;
      assert history[k + 1].id == id;
    }
  }

  // ---------------------------------------------------------------------------------------
  // The page component's state and its handlers

  const ValidationMessage: string := "Please enter a topic to analyze."
  const AnalysisFailedMessage: string :=
    "An error occurred while analyzing the topic. Please check your API key and try again."

  /** What the remote completion call gives back: its text, or a failure of any kind. */
  datatype Completion = Success(text: string) | Failure

  /** The state of the `App` component. `stored` is the decoded content of the storage slot
      `eduframe-history`: `None` when it holds nothing a parse could turn into a list. */
  class AppState {
    var topic: string
    var response: string
    var isLoading: bool
    var error: Option<string>
    var history: seq<HistoryItem>
    var historyVisible: bool
    var activeId: Option<string>
    var stored: Option<seq<HistoryItem>>

    /** The storage slot holds exactly the history in memory. */
    ghost predicate Synced()
      reads this
    {
      stored == Some(history)
    }

    /** The initial state followed by the load effect: the stored list if it parses, the empty
        history otherwise; the slot itself is left as it was. */
    constructor (snapshot: Option<seq<HistoryItem>>)
      ensures topic == "" && response == "" && !isLoading && error == None
      ensures !historyVisible && activeId == None
      ensures history == (if snapshot.Some? then snapshot.value else [])
      ensures stored == snapshot
      ensures snapshot.Some? ==> Synced()
    {
      topic := "";
      response := "";
      isLoading := false;
      error := None;
      historyVisible := false;
      activeId := None;
      stored := snapshot;
      history := if snapshot.Some? then snapshot.value else [];
    }

    /** `updateHistory`: the new history is set and written to storage as one snapshot. */
    method UpdateHistory(newHistory: seq<HistoryItem>)
      modifies this`history, this`stored
      ensures history == newHistory && Synced()
    {
      history := newHistory;
      stored := Some(newHistory);
    }

    /** `handleAnalyze(currentTopic)`, with the outcome of the remote call, the fresh
        identifier and the clock reading given as parameters. A blank topic only sets the
        validation message. Otherwise the request runs and ends with `isLoading` false: on
        success the response is shown, a record for it is put in front of the history and
        marked active; on failure the response stays empty, nothing is active and the generic
        message is shown. The topic field and the panel are not touched. */
    method Analyze(currentTopic: string, outcome: Completion, newId: string, now: int)
      modifies this
      ensures topic == old(topic) && historyVisible == old(historyVisible)
      ensures IsBlank(currentTopic) ==>
        && error == Some(ValidationMessage)
        && response == old(response) && isLoading == old(isLoading)
        && history == old(history) && stored == old(stored) && activeId == old(activeId)
      ensures !IsBlank(currentTopic) && outcome.Success? ==>
        && history == [HistoryItem(newId, currentTopic, outcome.text, now,
                                   GenerateSummary(outcome.text))] + old(history)
        && Synced()
        && response == outcome.text && activeId == Some(newId)
        && error == None && !isLoading
      ensures !IsBlank(currentTopic) && outcome.Failure? ==>
        && history == old(history) && stored == old(stored)
        && response == "" && activeId == None
        && error == Some(AnalysisFailedMessage) && !isLoading
      ensures UniqueIds(old(history)) && !HasId(old(history), newId) ==> UniqueIds(history)
    {
      if IsBlank(currentTopic) {
        error := Some(ValidationMessage);
        return;
      }
      isLoading := true;
      match outcome {
      case Success(result) =>
        var summary := GenerateSummary(result);
        Record(HistoryItem(newId, currentTopic, result, now, summary));
      case Failure =>
        response, error, activeId := "", Some(AnalysisFailedMessage), None;
      }
      isLoading := false;
    }

    /** The success path of `handleAnalyze`: the response is shown, its record is put in front
        of the history, written to storage and marked active, and the error is cleared. */
    method Record(item: HistoryItem)
      modifies this
      ensures history == [item] + old(history) && Synced()
      ensures response == item.response && activeId == Some(item.id) && error == None
      ensures topic == old(topic) && historyVisible == old(historyVisible)
      ensures isLoading == old(isLoading)
      ensures UniqueIds(old(history)) && !HasId(old(history), item.id) ==> UniqueIds(history)
    {
      PrependUnique(item, history);
      UpdateHistory([item] + history);
      response, error, activeId := item.response, None, Some(item.id);
    }

    /** `handleSelectHistory(id)`: a record with the identifier is shown again, with its topic
        and response, marked active, with no error, and the panel closes; an unknown
        identifier changes nothing. The history itself is never changed. */
    method Select(id: string)
      modifies this
      ensures history == old(history) && stored == old(stored) && isLoading == old(isLoading)
      ensures FindById(old(history), id).Some? ==>
        var item := FindById(old(history), id).value;
        && topic == item.topic && response == item.response
        && activeId == Some(id) && error == None && !historyVisible
      ensures FindById(old(history), id).None? ==>
        && topic == old(topic) && response == old(response) && activeId == old(activeId)
        && error == old(error) && historyVisible == old(historyVisible)
    {
      var found := FindById(history, id);
      if found.Some? {
        var item := found.value;
        topic := item.topic;
        response := item.response;
        activeId := Some(id);
        error := None;
        historyVisible := false;
      }
    }

    /** `handleDeleteHistory(id)`: every record with the identifier is removed and the rest
        stored; if it was the active one, the display is cleared as well. */
    method Delete(id: string)
      modifies this
      ensures history == RemoveId(old(history), id) && Synced()
      ensures isLoading == old(isLoading) && error == old(error)
      ensures historyVisible == old(historyVisible)
      ensures old(activeId) == Some(id) ==> activeId == None && response == "" && topic == ""
      ensures old(activeId) != Some(id) ==>
        activeId == old(activeId) && response == old(response) && topic == old(topic)
      ensures UniqueIds(old(history)) ==> UniqueIds(history)
    {
      if UniqueIds(history) { RemoveIdUnique(history, id); }
      UpdateHistory(RemoveId(history, id));
      if activeId == Some(id) {
        activeId := None;
        response := "";
        topic := "";
      }
    }

    /** `handleClearHistory()`: the history and its stored copy become empty and the display
        is cleared. */
    method Clear()
      modifies this
      ensures history == [] && Synced()
      ensures activeId == None && response == "" && topic == ""
      ensures isLoading == old(isLoading) && error == old(error)
      ensures historyVisible == old(historyVisible)
    {
      UpdateHistory([]);
      activeId := None;
      response := "";
      topic := "";
    }

    /** `onTopicChange`: the form edits the topic. */
    method SetTopic(text: string)
      modifies this`topic
      ensures topic == text
    {
      topic := text;
    }

    /** The header's history button shows or hides the panel. */
    method ToggleHistory()
      modifies this`historyVisible
      ensures historyVisible == !old(historyVisible)
    {
      historyVisible := !historyVisible;
    }

    /** The panel's close button and overlay hide it. */
    method CloseHistory()
      modifies this`historyVisible
      ensures !historyVisible
    {
      historyVisible := false;
    }
  }

  /** Whatever has been written is what a fresh page load restores, in the same order. */
  method Reload(app: AppState) returns (restored: AppState)
    requires app.Synced()
    ensures restored.history == app.history && restored.activeId == None && restored.response == ""
  {
    restored := new AppState(app.stored);
  }

  /** A successful analysis followed by selecting the new record shows that record's topic
      and response again, whatever the history held before. */
  method AnalyzeThenSelect(app: AppState, topic: string, result: string, id: string, now: int)
    requires !IsBlank(topic)
    modifies app
    ensures app.topic == topic && app.response == result && app.activeId == Some(id)
    ensures |app.history| == |old(app.history)| + 1 && app.history[0].id == id
  {
    app.Analyze(topic, Success(result), id, now);
    app.Select(id);
  }

  /** Deleting the record an analysis has just added restores the history and its stored
      copy as they were, provided the new identifier was not in use. */
  method AnalyzeThenDelete(app: AppState, topic: string, result: string, id: string, now: int)
    requires !IsBlank(topic) && !HasId(app.history, id)
    modifies app
    ensures app.history == old(app.history) && app.Synced()
    ensures app.activeId == None && app.response == "" && app.topic == ""
  {
    ghost var before := app.history;
    app.Analyze(topic, Success(result), id, now);
    var item := app.history[0];
    assert app.history == [item] + before;
    RemoveIdOrder([item], before, id);
    assert RemoveId([item], id) == [];
    app.Delete(id);
  }
}
