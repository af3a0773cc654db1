/**
 * The response header collection. Rack hands the middleware a header Hash
 * that it reads by name and that `Rack::Utils.set_cookie_header!` updates in
 * place; here it is an ordered list of entries: named fields, and the
 * abstract cookie entries the cookie writer appends.
 */
module Headers {
  import opened Wrappers

  /** Twenty years of 365 days, in seconds: the lifetime of the identity cookie. */
  const CookieLifetime: int := 20 * 365 * 24 * 60 * 60

  datatype Cookie = Cookie(name: string, value: string, path: string, expires: int)

  datatype Entry = Field(name: string, value: string) | SetCookie(cookie: Cookie)

  predicate IsField(e: Entry, name: string) {
    e.Field? && e.name == name
  }

  /** Entry `k` is the first field named `name`. */
  predicate FirstField(entries: seq<Entry>, name: string, k: int) {
    0 <= k < |entries| && IsField(entries[k], name) &&
    forall k' :: 0 <= k' < k ==> !IsField(entries[k'], name)
  }

  /** `headers[name]`: the value of the first field with that name, or `nil`. */
  function Lookup(entries: seq<Entry>, name: string): (r: Option<string>)
    ensures r.None? <==> forall k :: 0 <= k < |entries| ==> !IsField(entries[k], name)
    ensures r.Some? ==> exists k :: 0 <= k < |entries| && entries[k] == Field(name, r.value) &&
                                    forall k' :: 0 <= k' < k ==> !IsField(entries[k'], name)
    decreases |entries|
  {
    if entries == [] then None
    else if IsField(entries[0], name) then Some(entries[0].value)
    else
      var r := Lookup(entries[1..], name);
      assert forall k :: 0 < k < |entries| ==> entries[k] == entries[1..][k - 1];
      assert r.Some? ==> exists k :: 0 <= k < |entries| && entries[k] == Field(name, r.value) &&
                                     forall k' :: 0 <= k' < k ==> !IsField(entries[k'], name) by {
        if r.Some? {
          var k :| 0 <= k < |entries[1..]| && entries[1..][k] == Field(name, r.value) &&
                   forall k' :: 0 <= k' < k ==> !IsField(entries[1..][k'], name);
          assert entries[k + 1] == Field(name, r.value);
          assert forall k' :: 0 <= k' < k + 1 ==> !IsField(entries[k'], name) by {
            forall k' | 0 < k' < k + 1 ensures !IsField(entries[k'], name) {
              assert entries[k'] == entries[1..][k' - 1];
            }
          }
        }
      }
      r
  }

  /**
   * The entry the cookie writer appends: named `key` (the constant `UUID`,
   * whose value is defined outside this model), holding the visitor UUID,
   * path `/`, expiring twenty years after `now`.
   */
  function UuidCookie(key: string, uuid: string, now: int): (c: Cookie)
    ensures c.name == key && c.value == uuid && c.path == "/"
    ensures c.expires == now + 630720000
  {
    Cookie(key, uuid, "/", now + CookieLifetime)
  }

  /** A cookie entry appended at the end is invisible to every by-name lookup. */
  lemma {:induction false} LookupIgnoresCookie(entries: seq<Entry>, c: Cookie, name: string)
    ensures Lookup(entries + [SetCookie(c)], name) == Lookup(entries, name)
    decreases |entries|
  {
    if entries == [] {
      assert Lookup([SetCookie(c)], name) == Lookup([SetCookie(c)][1..], name);
    } else {
      assert (entries + [SetCookie(c)])[1..] == entries[1..] + [SetCookie(c)];
      LookupIgnoresCookie(entries[1..], c, name);
    }
  }

  /** The header Hash of one response, which the cookie writer updates in place. */
  class HeaderHash {
    var entries: seq<Entry>

    constructor (entries: seq<Entry>)
      ensures this.entries == entries
    {
      this.entries := entries;
    }

    /** `Rack::Utils.set_cookie_header!`: appends the cookie, replacing nothing. */
    method SetCookieHeader(c: Cookie)
      modifies this
      ensures entries == old(entries) + [SetCookie(c)]
      ensures forall name :: Lookup(entries, name) == Lookup(old(entries), name)
    {
      entries := entries + [SetCookie(c)];
      forall name ensures Lookup(entries, name) == Lookup(old(entries), name) {
        LookupIgnoresCookie(old(entries), c, name);
      }
    }
  }
}
