/** The parts of an HTTP response the handlers decide: status, the headers they set, and the body. */
module Http {
  import opened Json

  datatype Body = TextBody(text: string) | JsonBody(json: Value)

  datatype Response = Response(status: nat, headers: map<string, string>, body: Body)

  /** What `res.json(v)` sends: status 200 with `v` as the JSON body. */
  function JsonOk(v: Value): Response
  {
    Response(200, map[], JsonBody(v))
  }
}
