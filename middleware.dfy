/**
 * `Talkable::Middleware#call`: resolve the visitor UUID, let the wrapped
 * application answer, append the UUID cookie to every response, then
 * rewrite the body of an eligible response (`modify_response_content`).
 */
module Middleware {
  import opened Wrappers
  import opened Headers
  import opened Gate
  import opened Bodies
  import opened Markup
  import opened Injection

  /** What the middleware reads from the request: the request parameters and the cookies. */
  datatype Request = Request(params: map<string, string>, cookies: map<string, string>)

  /** A Rack response `[status, headers, body]`. */
  datatype Triple = Triple(status: int, headers: HeaderHash, body: ResponseBody)

  /**
   * `talkable_visitor_uuid`: the parameter named `key` if present, else the
   * cookie named `key` if present, else `generated` (the value the identity
   * resolver produces). `key` is the constant `UUID`, defined outside this
   * model. Presence is all that counts: an empty value still wins.
   */
  function TalkableVisitorUuid(key: string, req: Request, generated: string): (uuid: string)
    ensures key in req.params ==> uuid == req.params[key]
    ensures key !in req.params && key in req.cookies ==> uuid == req.cookies[key]
    ensures key !in req.params && key !in req.cookies ==> uuid == generated
  {
    if key in req.params then req.params[key]
    else if key in req.cookies then req.cookies[key]
    else generated
  }

  /**
   * `modify_response_content`: an ineligible response comes back as it was,
   * its body untouched. An eligible one has its body collected, then closed,
   * and `block` applied to the collected text; `nil` from the block returns
   * the original response, anything else is built into a new one with the
   * same status and headers.
   */
  method ModifyResponseContent(result: Triple, block: Option<string> -> Option<string>) returns (r: Triple)
    modifies result.body
    ensures !Modifiable(result.status, result.headers.entries) ==>
              r == result && result.body.events == old(result.body.events)
    ensures Modifiable(result.status, result.headers.entries) ==>
              result.body.events == old(result.body.events) +
                                    (if result.body.payload.Chunks? then [Iterated] else []) +
                                    (if result.body.closeable then [Closed] else [])
    ensures Modifiable(result.status, result.headers.entries) ==>
              var content := block(Collected(result.body.payload));
              (content.None? ==> r == result) &&
              (content.Some? ==>
                 r.status == result.status && r.headers == result.headers && fresh(r.body) &&
                 r.body.payload == Buffered(content.value) && !r.body.closeable && r.body.events == [])
  {
    if !Modifiable(result.status, result.headers.entries) {
      return result;
    }
    var content := CollectAndClose(result.body);
    content := block(content);
    if content.Some? {
      var body := new ResponseBody(Buffered(content.value), false);
      r := Triple(result.status, result.headers, body);
    } else {
      r := result;
    }
  }

  /**
   * `call`, given the application's response `result`, the time `now` in
   * seconds, what the identity resolver would generate, and the value `key`
   * of the constant `UUID`. The UUID cookie
   * is appended whether or not the body is rewritten, and the gate sees the
   * application's own headers, since the cookie changes no named field.
   */
  method Call(lib: Library, cfg: Configuration, key: string, req: Request, generated: string, now: int, result: Triple)
    returns (r: Triple)
    modifies result.headers, result.body
    ensures result.headers.entries ==
            old(result.headers.entries) + [SetCookie(UuidCookie(key, TalkableVisitorUuid(key, req, generated), now))]
    ensures !Modifiable(result.status, old(result.headers.entries)) ==>
              r == result && result.body.events == old(result.body.events)
    ensures Modifiable(result.status, old(result.headers.entries)) ==>
              result.body.events == old(result.body.events) +
                                    (if result.body.payload.Chunks? then [Iterated] else []) +
                                    (if result.body.closeable then [Closed] else [])
    ensures Modifiable(result.status, old(result.headers.entries)) ==>
              match Collected(result.body.payload)
              case None => r == result
              case Some(text) =>
                r.status == result.status && r.headers == result.headers && fresh(r.body) &&
                r.body.payload == Buffered(Rewrite(lib, cfg, TalkableVisitorUuid(key, req, generated), text))
  {
    var uuid := TalkableVisitorUuid(key, req, generated);
    result.headers.SetCookieHeader(UuidCookie(key, uuid, now));
    assert Modifiable(result.status, result.headers.entries) == Modifiable(result.status, old(result.headers.entries));
    r := ModifyResponseContent(result, c => RewriteContent(lib, cfg, uuid, c));
  }
}
