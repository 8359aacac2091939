/** `handleStatus` (app.js:1-7, repeated as options.js:1-7): a fetch
    response passes on when its status is in the 2xx range and becomes a
    rejection carrying the status text otherwise. */
module Http {
  import opened Wrappers

  datatype Response = Response(status: int, statusText: string, body: string)

  function HandleStatus(r: Response): (res: Result<Response, string>)
    ensures res.Success? <==> 200 <= r.status < 300
    ensures res.Success? ==> res.value == r
    ensures res.Failure? ==> res.error == r.statusText
  {
    if 200 <= r.status && r.status < 300 then Success(r) else Failure(r.statusText)
  }

  /** Accepted statuses are exactly those of the "Successful" class,
      whose first digit is 2 (section 15 of RFC 9110). */
  lemma AcceptsSuccessClass(r: Response)
    requires r.status >= 0
    ensures HandleStatus(r).Success? <==> r.status / 100 == 2
  {
    var q, m := r.status / 100, r.status % 100;
    assert r.status == 100 * q + m;
  }
}
