/** The retrieval configuration built in `setup_rag_chain`: the search
    arguments handed to the vector store's retriever. The retriever itself,
    the embeddings and the language model are not part of this model. */
module Retrieval {
  import opened Wrappers

  /** `RETRIEVAL_K`: how many chunks each search returns. */
  const RetrievalK: nat := 3

  /** The `search_kwargs` dict: the result count `k` and, when present, the
      equality filter `{"course_lower": ...}` on chunk metadata. */
  datatype SearchConfig = SearchConfig(k: nat, courseLower: Option<string>)

  /** The filter construction: `k` is always `RETRIEVAL_K`; the metadata filter
      is added only for a truthy course filter, i.e. neither `None` nor `""`,
      and then holds exactly that string. */
  function BuildFilter(courseFilter: Option<string>): (c: SearchConfig)
    ensures c.k == 3
    ensures c.courseLower.Some? <==> courseFilter.Some? && courseFilter.value != ""
    ensures c.courseLower.Some? ==> c.courseLower == courseFilter
  {
    match courseFilter
    case Some(course) =>
      if course != "" then SearchConfig(RetrievalK, Some(course)) else SearchConfig(RetrievalK, None)
    case None => SearchConfig(RetrievalK, None)
  }

  /** Whether a search under `c` may return a chunk whose `course_lower`
      metadata is `courseLower`: exact, case-sensitive equality, or anything
      when there is no filter. */
  predicate Admits(c: SearchConfig, courseLower: string) {
    c.courseLower.None? || c.courseLower.value == courseLower
  }

  /** A built filter admits exactly the chunks of the requested course, or every
      chunk when no (or an empty) course was requested. */
  lemma BuildFilterAdmits(courseFilter: Option<string>, courseLower: string)
    ensures Admits(BuildFilter(courseFilter), courseLower)
      <==> courseFilter.None? || courseFilter.value == "" || courseFilter.value == courseLower
  {
  }
}
