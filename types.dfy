/** The records exchanged by the pipeline, the registry and the cache. */
module Types {
  import opened Wrappers

  /** A resolved company; `search_date` is unset until the pipeline stamps it. */
  datatype CompanyInfo = CompanyInfo(
    company_name: string,
    company_uid: string,
    company_cantonal_exerpt_link: string,
    search_date: Option<string>)

  /**
   * One entry of the registry's `list`. `Malformed` stands for an entry whose
   * `name` cannot be read or lower-cased (a `null` entry, a missing or
   * non-string name): reading it throws.
   */
  datatype Candidate =
    | Candidate(name: string, uid: string, cantonalExcerptWeb: string)
    | Malformed

  /** The registry's answer body; `list` may be missing. */
  datatype ZefixResponse = ZefixResponse(list: Option<seq<Candidate>>)

  /** Company name to record, or to `None` for "looked up, confirmed absent". */
  type CacheData = map<string, Option<CompanyInfo>>
}
