/** internal/repositories/common/paginate.go: cutting an over-fetched batch into a page and a token. */
module Pagination {
  import opened Wrappers
  import opened Models
  import opened Convert

  function Min(a: int, b: int): int
  {
    if a <= b then a else b
  }

  /**
   * `Paginate`: a batch longer than `limit` loses its tail, and the first
   * row cut off becomes the next page's inclusive lower bound. A negative
   * limit would make Go's slice and index panic, hence the precondition.
   */
  function Paginate(results: seq<User>, limit: int): (r: (seq<User>, string))
    requires limit >= 0
    ensures |r.0| == Min(|results|, limit) && r.0 == results[..|r.0|]
    ensures r.1 != "" <==> |results| > limit
    ensures |results| > limit ==> r.1 == EncodeUuidToBase64(results[limit].id)
    ensures r.1 != "" ==> DecodeBase64ToUuid(r.1) == Success(results[limit].id)
  {
    if |results| > limit then
      var last := results[limit];
      DecodeEncode(last.id);
      (results[..limit], EncodeUuidToBase64(last.id))
    else
      (results, "")
  }
}
