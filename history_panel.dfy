/** The search filter and the display choices of `components/HistoryPanel.tsx`. */
module HistoryPanel {
  import opened Util
  import opened Strings
  import opened Types

  /** The record's topic, lowercased, contains the lowercased term. Only the topic is
      consulted, never the summary or the response, and the term is not trimmed. */
  predicate Matches(item: HistoryItem, term: string) {
    Includes(Lower(item.topic), Lower(term))
  }

  function MatchesTerm(term: string): HistoryItem -> bool {
    item => Matches(item, term)
  }

  /** `filteredHistory`: the whole history for a blank term, otherwise the records whose topic
      matches, in history order. */
  function FilterHistory(history: seq<HistoryItem>, term: string): (r: seq<HistoryItem>)
    ensures IsBlank(term) ==> r == history
    ensures !IsBlank(term) ==> r == Filter(history, MatchesTerm(term))
    ensures |r| <= |history|
    ensures forall x :: x in r ==> x in history
    ensures !IsBlank(term) ==> forall x :: x in r <==> x in history && Matches(x, term)
  {
    if IsBlank(term) then history else Filter(history, MatchesTerm(term))
  }

  /** A non-blank term keeps each matching record as often as it occurs and drops the rest. */
  lemma FilterHistoryCount(history: seq<HistoryItem>, term: string, x: HistoryItem)
    requires !IsBlank(term)
    ensures multiset(FilterHistory(history, term))[x] ==
              if Matches(x, term) then multiset(history)[x] else 0
  {
    FilterCount(history, MatchesTerm(term), x);
  }

  /** The filter keeps history order: filtering two stretches of history and concatenating
      the results is filtering their concatenation. */
  lemma FilterHistoryOrder(a: seq<HistoryItem>, b: seq<HistoryItem>, term: string)
    ensures FilterHistory(a + b, term) == FilterHistory(a, term) + FilterHistory(b, term)
  {
    if !IsBlank(term) {
      FilterConcat(a, b, MatchesTerm(term));
    }
  }

  /** What the panel's list area shows. */
  datatype PanelBody =
    | EmptyHistory               // "Your analysis history will appear here."
    | NoResults(term: string)    // "No results found for ..."
    | Listing(items: seq<HistoryItem>)

  /** The empty-history message wins over the no-results message; otherwise the filtered
      records are listed. */
  function Body(history: seq<HistoryItem>, term: string): (b: PanelBody)
    ensures b == EmptyHistory <==> history == []
    ensures b.NoResults? <==> history != [] && FilterHistory(history, term) == []
    ensures b.NoResults? ==> b.term == term && !IsBlank(term)
    ensures b.Listing? ==> b.items == FilterHistory(history, term) && b.items != []
  {
    if |history| == 0 then EmptyHistory
    else if |FilterHistory(history, term)| == 0 then NoResults(term)
    else Listing(FilterHistory(history, term))
  }

  /** The Clear History button is disabled exactly when there is no history. */
  function ClearEnabled(history: seq<HistoryItem>): (enabled: bool)
    ensures enabled <==> history != []
  {
    |history| != 0
  }
}
