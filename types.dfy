/** The history record the application stores and shows. Its declaration (`types.ts`) is not
    part of this model; the fields are the ones `App.tsx` builds and `HistoryPanel.tsx` reads. */
module Types {

  /** One past analysis: an opaque identifier, the topic as submitted, the full response, its
      creation time in milliseconds and the short preview made from the response. */
  datatype HistoryItem = HistoryItem(
    id: string,
    topic: string,
    response: string,
    timestamp: int,
    summary: string)

  /** No two records share an identifier. */
  predicate UniqueIds(history: seq<HistoryItem>) {
    forall i, j :: 0 <= i < j < |history| ==> history[i].id != history[j].id
  }

  predicate HasId(history: seq<HistoryItem>, id: string) {
    exists i :: 0 <= i < |history| && history[i].id == id
  }
}
