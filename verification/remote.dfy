/** The cross-service existence check and the exception handling around it.

    The outbound `requests.get(..., timeout=10)` is not modelled; its
    observable result is a parameter: a response with some status code, or
    an exception (timeout, refused connection, DNS failure, ...).
 */
module Remote {
  import opened Wrappers

  datatype Probe = Responded(status: int) | Failed

  /** `verify_user_exists` / `verify_post_exists`: the response status is
      compared with 200 inside a `try`, and any exception yields False. */
  function VerifyExists(p: Probe): bool {
    match p
    case Responded(status) => status == 200
    case Failed => false
  }

  /** Only a 200 response counts as "exists": every other status and every
      transport failure reads as "does not exist". */
  lemma VerifyExistsOnlyOn200(p: Probe)
    ensures VerifyExists(p) <==> p == Responded(200)
    ensures p.Failed? ==> !VerifyExists(p)
  {
  }

  /** `if not ok: raise HTTPException(status_code=400, detail=detail)` */
  function RequireOr400(ok: bool, detail: string): (o: Outcome)
    ensures o.Pass? <==> ok
    ensures o.Fail? ==> o.error == HttpError(BadRequest, detail)
  {
    if ok then Pass else Fail(HttpError(BadRequest, detail))
  }

  /** Two statements in sequence: the second runs only when the first
      finished normally, so the first exception is the one that escapes. */
  function Then(first: Outcome, second: Outcome): (o: Outcome)
    ensures first.Fail? ==> o == first
    ensures first.Pass? ==> o == second
  {
    if first.Fail? then first else second
  }

  /** `try: <body> except: pass` — the bare `except` catches every
      exception, the handler's own `HTTPException` included, and discards
      it. */
  function SwallowAll(body: Outcome): (o: Outcome)
    ensures o.Pass?
  {
    match body
    case Pass => Pass
    case Fail(_) => Pass
  }
}
