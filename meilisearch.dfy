/** `send_notes_to_meilisearch`: one upsert request per non-empty batch. */
module Meilisearch {
  import opened Notes

  datatype Delivery = Skipped | Accepted | Rejected(status: int)

  predicate IsSuccessStatus(status: int) {
    status == 200 || status == 202
  }

  /** `respond` stands for the index service: the HTTP status it answers a
      request carrying `docs` with. An empty batch makes no request; a
      non-empty one is accepted or rejected as a whole. */
  function Send(docs: seq<Document>, respond: seq<Document> -> int): (d: Delivery)
    ensures d.Skipped? <==> docs == []
    ensures d.Accepted? <==> docs != [] && IsSuccessStatus(respond(docs))
    ensures d.Rejected? ==> d.status == respond(docs) && !IsSuccessStatus(d.status)
  {
    if docs == [] then Skipped
    else if IsSuccessStatus(respond(docs)) then Accepted
    else Rejected(respond(docs))
  }
}
