/** The plain data declarations of src/search.rs that carry no behaviour
    of their own: the request, the query and the result-position
    selector. */
module Search {
  import opened Results
  import SortOptionsCodec
  import LanguageCodec
  import YearRanges
  import opened Primitives

  /** `SearchOffset`: results addressed by offset or by page, each with a
      limit. */
  datatype SearchOffset =
    | Offset(offset: Usize, limit: Usize)
    | Page(page: Usize, limit: Usize)

  /** `SearchQuery`: the free-text term, the field-scoped terms, the
      language filters and the two year ranges. */
  datatype SearchQuery = SearchQuery(
    generic: Option<string>,
    title: seq<string>,
    author: seq<string>,
    place: seq<string>,
    person: seq<string>,
    language: seq<LanguageCodec.Language>,
    publisher: seq<string>,
    publishYear: YearRanges.YearRange,
    firstPublishYear: YearRanges.YearRange,
    titleSuggest: Option<string>,
    birthDate: Usize
  )

  /** `SearchRequest`: a query with its optional projection, sort order,
      language and position. */
  datatype SearchRequest = SearchRequest(
    query: SearchQuery,
    fields: Option<string>,
    sort: Option<SortOptionsCodec.SortOptions>,
    language: Option<LanguageCodec.Language>,
    offset: Option<SearchOffset>
  )
}
