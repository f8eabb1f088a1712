/**
 * The conditional-request decorator that both request variants apply to the
 * outgoing headers before the request is sent: stored validators become
 * `If-None-Match` / `If-Modified-Since`, and without a stored record both
 * conditional headers are removed.
 */
module Conditional {
  import opened Wrappers
  import opened Http

  /** Header names as the `request` library delivers them: lower-cased. */
  const ETAG := "etag"
  const LAST_MODIFIED := "last-modified"
  const IF_NONE_MATCH := "if-none-match"
  const IF_MODIFIED_SINCE := "if-modified-since"

  /**
   * The outgoing headers once `stored` (the validator record in effect, `None`
   * when there is none) has been applied to `outgoing`. Each validator present
   * sets its conditional header, independently of the other; with no record
   * both conditional headers are gone; no other header changes.
   */
  function Decorate(outgoing: Headers, stored: Option<Headers>): (r: Headers)
    ensures forall k :: k != IF_NONE_MATCH && k != IF_MODIFIED_SINCE ==> Lookup(r, k) == Lookup(outgoing, k)
    ensures Lookup(r, IF_NONE_MATCH) ==
      match stored
      case None => None
      case Some(v) => if ETAG in v then Some(v[ETAG]) else Lookup(outgoing, IF_NONE_MATCH)
    ensures Lookup(r, IF_MODIFIED_SINCE) ==
      match stored
      case None => None
      case Some(v) => if LAST_MODIFIED in v then Some(v[LAST_MODIFIED]) else Lookup(outgoing, IF_MODIFIED_SINCE)
  {
    match stored
    case None => outgoing - {IF_NONE_MATCH, IF_MODIFIED_SINCE}
    case Some(v) =>
      var h := if ETAG in v then outgoing[IF_NONE_MATCH := v[ETAG]] else outgoing;
      if LAST_MODIFIED in v then h[IF_MODIFIED_SINCE := v[LAST_MODIFIED]] else h
  }

  /** Two header maps that answer every lookup alike are equal. */
  lemma HeadersExt(a: Headers, b: Headers)
    requires forall k :: Lookup(a, k) == Lookup(b, k)
    ensures a == b
  {
    forall k ensures k in a <==> k in b { assert Lookup(a, k) == Lookup(b, k); }
    forall k | k in a ensures a[k] == b[k] { assert Lookup(a, k) == Lookup(b, k); }
  }

  /** Decorating twice with the same record is decorating once; in particular deleting is idempotent. */
  lemma DecorateIdempotent(outgoing: Headers, stored: Option<Headers>)
    ensures Decorate(Decorate(outgoing, stored), stored) == Decorate(outgoing, stored)
  {
    var once := Decorate(outgoing, stored);
    var twice := Decorate(once, stored);
    forall k ensures Lookup(twice, k) == Lookup(once, k) {
      if k != IF_NONE_MATCH && k != IF_MODIFIED_SINCE {
        assert Lookup(twice, k) == Lookup(once, k);
      }
    }
    HeadersExt(twice, once);
  }

  /**
   * A present but empty record (`{}` is truthy) leaves every header the
   * caller supplied in place, conditional ones included.
   */
  lemma EmptyRecordKeepsHeaders(outgoing: Headers)
    ensures Decorate(outgoing, Some(map[])) == outgoing
  {
    var r := Decorate(outgoing, Some(map[]));
    forall k ensures Lookup(r, k) == Lookup(outgoing, k) {
      if k != IF_NONE_MATCH && k != IF_MODIFIED_SINCE {
        assert Lookup(r, k) == Lookup(outgoing, k);
      }
    }
    HeadersExt(r, outgoing);
  }

  /**
   * An origin whose current ETag is `etag`: 304 with an empty body when the
   * request carries that ETag in `If-None-Match`, the full response otherwise.
   */
  function RevalidatingOrigin(r: Request, etag: string, notModified: Response, ok: Response,
                              full: Body): Transport
  {
    if Lookup(HeadersOf(r.headers), IF_NONE_MATCH) == Some(etag) then Replied(notModified, Text(""))
    else Replied(ok, full)
  }

  /**
   * `_request` / `request` editing `options.headers` in place: the headers
   * become `Decorate(options.headers || {}, stored)`; nothing else in the
   * options object changes.
   */
  method DecorateOptions(o: Options, stored: Option<Headers>)
    modifies o`headers
    ensures o.headers == Some(Decorate(HeadersOf(old(o.headers)), stored))
  {
    if o.headers.None? {
      o.headers := Some(map[]);
    }
    match stored
    case Some(v) =>
      if ETAG in v {
        o.headers := Some(o.headers.value[IF_NONE_MATCH := v[ETAG]]);
      }
      if LAST_MODIFIED in v {
        o.headers := Some(o.headers.value[IF_MODIFIED_SINCE := v[LAST_MODIFIED]]);
      }
    case None =>
      o.headers := Some(o.headers.value - {IF_NONE_MATCH});
      o.headers := Some(o.headers.value - {IF_MODIFIED_SINCE});
      assert o.headers.value == HeadersOf(old(o.headers)) - {IF_NONE_MATCH, IF_MODIFIED_SINCE};
  }
}
