/**
 * lib/modified.js: the `Modified` request object. Its constructor copies the
 * `cacheMapper` option and defaults the method; `_request` resolves the cache
 * location, decorates the outgoing headers, classifies the response and
 * updates the cache; `_cacheMapper` is the default home-directory mapping.
 */
module LibModified {
  import opened Wrappers
  import opened Http
  import opened Disk
  import opened NodePath
  import opened UriComponent
  import opened Conditional
  import opened LibCache

  // ---------------------------------------------------------------------------
  // The default cache mapper

  const CACHE_DIR := ".node_modified"
  const UNKNOWN_PROTOCOL := "unknown"

  /**
   * `url.protocol && url.protocol.replace(/:$/, '') || 'unknown'`: the
   * protocol without its one trailing colon, "unknown" when nothing is left.
   */
  function ProtocolSegment(protocol: string): (r: string)
    ensures r != ""
    ensures protocol == "" || protocol == ":" ==> r == UNKNOWN_PROTOCOL
    ensures protocol != "" && protocol[|protocol| - 1] != ':' ==> r == protocol
    ensures |protocol| >= 2 && protocol[|protocol| - 1] == ':' ==> r == protocol[..|protocol| - 1]
  {
    var stripped := if protocol != "" && protocol[|protocol| - 1] == ':' then protocol[..|protocol| - 1] else protocol;
    if protocol != "" && stripped != "" then stripped else UNKNOWN_PROTOCOL
  }

  /** `.filter(Boolean)` over strings: the non-empty ones, in order. */
  function NonEmpty(xs: seq<string>): (r: seq<string>)
    ensures |r| <= |xs|
    ensures forall i :: 0 <= i < |r| ==> r[i] != ""
    ensures forall s :: s in r <==> s in xs && s != ""
    ensures (forall i :: 0 <= i < |xs| ==> xs[i] != "") ==> r == xs
  {
    if xs == [] then []
    else if xs[0] == "" then NonEmpty(xs[1..])
    else [xs[0]] + NonEmpty(xs[1..])
  }

  /** `.map(encodeURIComponent)`. */
  function EncodeAll(xs: seq<string>): seq<string>
  {
    seq(|xs|, i requires 0 <= i < |xs| => EncodeUriComponent(xs[i]))
  }

  /** The candidate path components, before empty ones are dropped. */
  function Components(url: Url): seq<string>
  {
    [CACHE_DIR, ProtocolSegment(url.protocol), url.auth, url.hostname, url.port, url.pathname, url.query]
  }

  function CacheSegments(url: Url): seq<string>
  {
    EncodeAll(NonEmpty(Components(url)))
  }

  /** `_cacheMapper`: `HOME/.node_modified/proto/auth/host/port/pathname/query`. */
  function DefaultCachePath(home: string, url: Url): (r: Path)
    ensures r != ""
    ensures home != "" && home[0] == '/' ==> r[0] == '/'
  {
    JoinPath(home, JoinSegments(CacheSegments(url)))
  }

  /** Every character of `s` is unreserved. */
  predicate AllUnreserved(s: string)
  {
    forall i :: 0 <= i < |s| ==> Unreserved(s[i])
  }

  /** Filtering keeps a non-empty head. */
  lemma NonEmptyCons(x: string, xs: seq<string>)
    requires x != ""
    ensures NonEmpty([x] + xs) == [x] + NonEmpty(xs)
  {
    assert ([x] + xs)[1..] == xs;
  }

  /** The filter keeps every non-empty entry as often as it occurs, and no empty one. */
  lemma {:induction false} NonEmptyMultiset(xs: seq<string>)
    ensures multiset(NonEmpty(xs)) == multiset(xs)["" := 0]
    decreases |xs|
  {
    if xs != [] {
      assert xs == [xs[0]] + xs[1..];
      NonEmptyMultiset(xs[1..]);
    }
  }

  /** Filtering distributes over concatenation, so the filter keeps the order of what it keeps. */
  lemma {:induction false} NonEmptyAppend(a: seq<string>, b: seq<string>)
    ensures NonEmpty(a + b) == NonEmpty(a) + NonEmpty(b)
    decreases |a|
  {
    if a != [] {
      assert (a + b)[0] == a[0] && (a + b)[1..] == a[1..] + b;
      NonEmptyAppend(a[1..], b);
    } else {
      assert a + b == b;
    }
  }

  /** Encoding distributes over concatenation. */
  lemma EncodeAllAppend(a: seq<string>, b: seq<string>)
    ensures EncodeAll(a + b) == EncodeAll(a) + EncodeAll(b)
  {
  }

  /** Encoding non-empty strings gives non-empty strings free of separators. */
  lemma EncodeAllWellFormed(xs: seq<string>)
    requires forall i :: 0 <= i < |xs| ==> xs[i] != ""
    ensures |EncodeAll(xs)| == |xs|
    ensures forall i :: 0 <= i < |xs| ==> EncodeAll(xs)[i] != "" && '/' !in EncodeAll(xs)[i]
  {
    assert !Unreserved('/');
  }

  /** ".node_modified" is made of unreserved characters only, so encoding leaves it as it is. */
  lemma CacheDirUnencoded()
    ensures EncodeUriComponent(CACHE_DIR) == CACHE_DIR
  {
    assert AllUnreserved(CACHE_DIR);
    EncodeUnreservedIdentity(CACHE_DIR);
  }

  /**
   * Filtering and encoding a list that starts with two non-empty entries, the
   * first of which encodes to itself.
   */
  lemma EncodedPrefix(root: string, p: string, rest: seq<string>)
    requires root != "" && p != "" && EncodeUriComponent(root) == root
    ensures EncodeAll(NonEmpty([root, p] + rest)) == [root, EncodeUriComponent(p)] + EncodeAll(NonEmpty(rest))
  {
    assert [root, p] + rest == [root] + ([p] + rest);
    NonEmptyCons(p, rest);
    NonEmptyCons(root, [p] + rest);
    EncodeAllAppend([root, p], NonEmpty(rest));
  }

  /**
   * The segments of the default path: ".node_modified", the protocol, then
   * exactly the non-empty ones of auth, host, port, path and query, each
   * percent-encoded.
   */
  lemma CacheSegmentsShape(url: Url)
    ensures CacheSegments(url) ==
      [CACHE_DIR, EncodeUriComponent(ProtocolSegment(url.protocol))]
      + EncodeAll(NonEmpty([url.auth, url.hostname, url.port, url.pathname, url.query]))
  {
    var rest := [url.auth, url.hostname, url.port, url.pathname, url.query];
    assert Components(url) == [CACHE_DIR, ProtocolSegment(url.protocol)] + rest;
    CacheDirUnencoded();
    EncodedPrefix(CACHE_DIR, ProtocolSegment(url.protocol), rest);
  }

  /** No segment of the default path is empty and none contains a separator. */
  lemma CacheSegmentsWellFormed(url: Url)
    ensures |CacheSegments(url)| >= 2
    ensures forall i :: 0 <= i < |CacheSegments(url)| ==> CacheSegments(url)[i] != "" && '/' !in CacheSegments(url)[i]
  {
    CacheSegmentsShape(url);
    EncodeAllWellFormed(NonEmpty(Components(url)));
  }

  /** No component kept by the filter is `.` or `..`, the two names that `path.join` resolves. */
  predicate DotFree(url: Url)
  {
    forall i :: 0 <= i < |NonEmpty(Components(url))| ==>
      NonEmpty(Components(url))[i] != "." && NonEmpty(Components(url))[i] != ".."
  }

  /** Without `.` and `..` components, every segment is one that normalisation keeps. */
  lemma CacheSegmentsPlain(url: Url)
    requires DotFree(url)
    ensures PlainSegments(CacheSegments(url))
  {
    CacheSegmentsWellFormed(url);
    EncodeUnreservedIdentity(".");
    EncodeUnreservedIdentity("..");
    var kept := NonEmpty(Components(url));
    forall i | 0 <= i < |kept| ensures PlainSegment(CacheSegments(url)[i]) {
      EncodeUriComponentInjective(kept[i], ".");
      EncodeUriComponentInjective(kept[i], "..");
    }
  }

  /**
   * Below a plain home directory and without `.` and `..` components,
   * normalisation changes nothing: the default path is the home directory,
   * a separator, and the joined segments.
   */
  lemma DefaultPathLayout(home: string, homeSegs: seq<string>, url: Url)
    requires AbsolutePlain(home, homeSegs) && DotFree(url)
    ensures DefaultCachePath(home, url) == home + "/" + JoinSegments(CacheSegments(url))
    ensures DefaultCachePath(home, url) == "/" + JoinSegments(homeSegs + CacheSegments(url))
  {
    CacheSegmentsWellFormed(url);
    CacheSegmentsPlain(url);
    JoinBelowPlain(home, homeSegs, CacheSegments(url));
  }

  /**
   * The default path determines the components it was built from: splitting
   * its part below the home directory gives the segments back, each of which
   * decodes to its component (and percent-decodes to that component's UTF-8).
   */
  lemma DefaultPathRecoverable(home: string, homeSegs: seq<string>, url: Url)
    requires AbsolutePlain(home, homeSegs) && DotFree(url)
    ensures DefaultCachePath(home, url) == home + "/" + JoinSegments(CacheSegments(url))
    ensures SplitSegments(JoinSegments(CacheSegments(url))) == CacheSegments(url)
    ensures |CacheSegments(url)| == |NonEmpty(Components(url))|
    ensures forall i :: 0 <= i < |CacheSegments(url)| ==>
      && DecodeComponent(CacheSegments(url)[i]) == Some(NonEmpty(Components(url))[i])
      && PercentDecode(CacheSegments(url)[i]) == Some(Utf8String(NonEmpty(Components(url))[i]))
  {
    DefaultPathLayout(home, homeSegs, url);
    CacheSegmentsWellFormed(url);
    SplitJoin(CacheSegments(url));
    forall i | 0 <= i < |CacheSegments(url)|
      ensures DecodeComponent(CacheSegments(url)[i]) == Some(NonEmpty(Components(url))[i])
      ensures PercentDecode(CacheSegments(url)[i]) == Some(Utf8String(NonEmpty(Components(url))[i]))
    {
      DecodeComponentEncode(NonEmpty(Components(url))[i]);
      DecodeEncode(NonEmpty(Components(url))[i]);
    }
  }

  /** A list without its last entry; the whole list when it is empty. */
  function DropLast(segs: seq<string>): (r: seq<string>)
    ensures |segs| >= 1 ==> segs == r + [segs[|segs| - 1]]
  {
    if segs == [] then [] else segs[..|segs| - 1]
  }

  /** Percent-encoding a list loses nothing: different lists encode differently. */
  lemma EncodeAllInjective(a: seq<string>, b: seq<string>)
    ensures EncodeAll(a) == EncodeAll(b) ==> a == b
  {
    if EncodeAll(a) == EncodeAll(b) {
      assert |a| == |EncodeAll(a)| == |b|;
      forall i | 0 <= i < |a| ensures a[i] == b[i] {
        assert EncodeAll(a)[i] == EncodeUriComponent(a[i]);
        assert EncodeAll(b)[i] == EncodeUriComponent(b[i]);
        EncodeUriComponentInjective(a[i], b[i]);
      }
    }
  }

  /** Two paths below the same directory are equal only when their parts below it are. */
  lemma BelowInjective(dir: string, x: string, y: string)
    ensures dir + "/" + x == dir + "/" + y ==> x == y
  {
    if dir + "/" + x == dir + "/" + y {
      assert x == (dir + "/" + x)[|dir| + 1..];
      assert y == (dir + "/" + y)[|dir| + 1..];
    }
  }

  /**
   * Two URLs without `.` and `..` components share a default path only when
   * they have the same non-empty components, in the same order.
   */
  lemma DefaultPathInjective(home: string, homeSegs: seq<string>, u: Url, v: Url)
    requires AbsolutePlain(home, homeSegs) && DotFree(u) && DotFree(v)
    ensures DefaultCachePath(home, u) == DefaultCachePath(home, v) ==> NonEmpty(Components(u)) == NonEmpty(Components(v))
  {
    if DefaultCachePath(home, u) == DefaultCachePath(home, v) {
      DefaultPathLayout(home, homeSegs, u);
      DefaultPathLayout(home, homeSegs, v);
      BelowInjective(home, JoinSegments(CacheSegments(u)), JoinSegments(CacheSegments(v)));
      CacheSegmentsWellFormed(u);
      CacheSegmentsWellFormed(v);
      SplitJoin(CacheSegments(u));
      SplitJoin(CacheSegments(v));
      EncodeAllInjective(NonEmpty(Components(u)), NonEmpty(Components(v)));
    }
  }

  /** Filtering and encoding a list whose last entry is replaced: empty, or a name encoding to itself. */
  lemma LastEntryReplaced(init: seq<string>, x: string)
    requires x != "" && EncodeUriComponent(x) == x
    ensures EncodeAll(NonEmpty(init + [x])) == EncodeAll(NonEmpty(init + [""])) + [x]
  {
    NonEmptyAppend(init, [x]);
    NonEmptyAppend(init, [""]);
    assert [x][1..] == [] && [""][1..] == [];
    assert NonEmpty([x]) == [x] && NonEmpty([""]) == [];
    assert NonEmpty(init) + [] == NonEmpty(init);
    EncodeAllAppend(NonEmpty(init), [x]);
  }

  /** Setting the empty query of a URL to `x` adds the segment `x` at the end. */
  lemma QuerySegment(url: Url, x: string)
    requires url.query == "" && x != "" && EncodeUriComponent(x) == x
    ensures CacheSegments(url.(query := x)) == CacheSegments(url) + [x]
  {
    var init := [CACHE_DIR, ProtocolSegment(url.protocol), url.auth, url.hostname, url.port, url.pathname];
    assert Components(url) == init + [""];
    assert Components(url.(query := x)) == init + [x];
    LastEntryReplaced(init, x);
  }

  /**
   * `path.join` resolves `.`: a URL with the query `.` is cached in the very
   * file of the same URL without a query.
   */
  lemma DotQueryMergesLocations(home: string, homeSegs: seq<string>, url: Url)
    requires AbsolutePlain(home, homeSegs) && DotFree(url) && url.query == ""
    ensures DefaultCachePath(home, url.(query := ".")) == DefaultCachePath(home, url)
  {
    EncodeUnreservedIdentity(".");
    QuerySegment(url, ".");
    CacheSegmentsWellFormed(url);
    CacheSegmentsPlain(url);
    JoinBelowPlainDot(home, homeSegs, CacheSegments(url));
  }

  /**
   * `path.join` resolves `..`: a URL with the query `..` has as its data
   * file the cache directory of the same URL without a query, the directory
   * that holds the files of every sibling location.
   */
  lemma DotDotQueryClimbs(home: string, homeSegs: seq<string>, url: Url)
    requires AbsolutePlain(home, homeSegs) && DotFree(url) && url.query == ""
    ensures DefaultCachePath(home, url.(query := "..")) == Dirname(DefaultCachePath(home, url))
  {
    EncodeUnreservedIdentity("..");
    QuerySegment(url, "..");
    CacheSegmentsWellFormed(url);
    CacheSegmentsPlain(url);
    JoinBelowPlainDotDot(home, homeSegs, CacheSegments(url));
  }

  /**
   * The cache directory of a default path is the path without its last
   * segment, and the header file lies in it beside the data file.
   */
  lemma DefaultCacheDirectory(home: string, homeSegs: seq<string>, url: Url)
    requires AbsolutePlain(home, homeSegs) && DotFree(url)
    ensures Dirname(DefaultCachePath(home, url)) == home + "/" + JoinSegments(DropLast(CacheSegments(url)))
    ensures Dirname(HeaderPath(DefaultCachePath(home, url))) == Dirname(DefaultCachePath(home, url))
  {
    var segs := CacheSegments(url);
    CacheSegmentsWellFormed(url);
    CacheSegmentsPlain(url);
    DirectoryBelow(home, homeSegs, segs);
    assert DefaultCachePath(home, url) == JoinPath(home, JoinSegments(segs));
  }

  /** The cache directory of a path below a plain home directory, for any plain segments. */
  lemma DirectoryBelow(home: string, homeSegs: seq<string>, segs: seq<string>)
    requires AbsolutePlain(home, homeSegs) && |segs| >= 2 && PlainSegments(segs)
    ensures Dirname(JoinPath(home, JoinSegments(segs))) == home + "/" + JoinSegments(DropLast(segs))
    ensures Dirname(HeaderPath(JoinPath(home, JoinSegments(segs)))) == Dirname(JoinPath(home, JoinSegments(segs)))
  {
    DirnameBelowPlain(home, homeSegs, segs);
    HeaderFileBesideData(JoinPath(home, JoinSegments(segs)));
  }

  /**
   * Dropping empty components can make two different URLs share a cache
   * location: user "h" at host "8080" and host "h" at port "8080".
   */
  lemma OmissionMergesLocations()
    ensures CacheSegments(Url("http:", "h", "8080", "", "/", "")) ==
            CacheSegments(Url("http:", "", "h", "8080", "/", ""))
  {
    CacheSegmentsShape(Url("http:", "h", "8080", "", "/", ""));
    CacheSegmentsShape(Url("http:", "", "h", "8080", "/", ""));
    EmptyEntryMoves("h", "8080", "/", "");
  }

  /** Where an empty entry sits among the others does not matter to the filter. */
  lemma EmptyEntryMoves(x: string, y: string, p: string, q: string)
    ensures NonEmpty([x, y, "", p, q]) == NonEmpty(["", x, y, p, q])
  {
    assert [x, y, "", p, q][1..] == [y, "", p, q];
    assert [y, "", p, q][1..] == ["", p, q];
    assert ["", p, q][1..] == [p, q];
    assert ["", x, y, p, q][1..] == [x, y, p, q];
    assert [x, y, p, q][1..] == [y, p, q];
    assert [y, p, q][1..] == [p, q];
    assert NonEmpty(["", p, q]) == NonEmpty([p, q]);
    assert NonEmpty([y, "", p, q]) == NonEmpty([y, p, q]);
    assert NonEmpty([x, y, "", p, q]) == NonEmpty([x, y, p, q]);
  }

  // ---------------------------------------------------------------------------
  // Choosing the mapper

  /** The `_cacheMapper` in effect: disabled, the home-directory mapping, or the caller's function. */
  datatype Mapper = Disabled | HomeDirectory(home: string) | Custom(mapper: Request -> Mapped)

  /**
   * The constructor's option copying: a `cacheMapper` key present in the
   * options replaces the prototype's mapping even when it is `null`.
   */
  function MapperFor(option: MapperOption, home: string): (r: Mapper)
    ensures r.Disabled? <==> option.NullMapper?
    ensures r.HomeDirectory? <==> option.Absent?
    ensures r.HomeDirectory? ==> r.home == home
    ensures option.Given? ==> r == Custom(option.mapper)
  {
    match option
    case Absent => HomeDirectory(home)
    case NullMapper => Disabled
    case Given(f) => Custom(f)
  }

  /** `_mapCache`: a falsy mapper disables the cache (no file). */
  function MapCache(m: Mapper, req: Request): (r: Mapped)
    ensures r.MapFailed? ==> m.Custom?
    ensures m.Disabled? ==> FileOf(r).None?
    ensures m.HomeDirectory? ==> FileOf(r).Some?
    ensures m.Custom? ==> r == m.mapper(req)
  {
    match m
    case Disabled => MappedTo(None)
    case HomeDirectory(home) => MappedTo(Some(DefaultCachePath(home, req.url)))
    case Custom(f) => f(req)
  }

  /**
   * Without a `cacheMapper` option every request is cached under the home
   * directory; `cacheMapper: null` turns caching off.
   */
  lemma MapperOptions(home: string, req: Request)
    ensures FileOf(MapCache(MapperFor(Absent, home), req)) == Some(DefaultCachePath(home, req.url))
    ensures FileOf(MapCache(MapperFor(NullMapper, home), req)) == None
  {
    assert DefaultCachePath(home, req.url) != "";
  }

  // ---------------------------------------------------------------------------
  // The request pipeline

  /** The request as sent, the file system afterwards, and the callback's arguments. */
  datatype Run = Run(sent: Option<Request>, files: Files, outcome: Outcome)

  /**
   * `_request` from start to callback: resolve the cache info (a mapper error
   * ends the request before anything is sent), decorate the headers with the
   * validators in effect, send, then handle the reply. With no location the
   * reply passes through and the cache is not touched.
   */
  function RunRequest(mapper: Mapper, req: Request, files: Files, send: Request -> Transport,
                      codec: Codec, faults: Faults): (r: Run)
    ensures r.sent.None? <==> MapCache(mapper, req).MapFailed?
    ensures r.sent.None? ==> r.files == files && r.outcome == Outcome(Some(MapCache(mapper, req).err), None, None)
    ensures r.sent.Some? ==> r.sent.value.httpMethod == req.httpMethod && r.sent.value.url == req.url
    ensures r.sent.Some? && send(r.sent.value).TransportFailed? ==>
      r.files == files && r.outcome == Outcome(Some(send(r.sent.value).err), None, None)
    ensures r.sent.Some? && send(r.sent.value).Replied? ==> r.outcome.res == Some(send(r.sent.value).res)
  {
    match CacheInfoOf(MapCache(mapper, req), files, codec)
    case Failure(e) => Run(None, files, Outcome(Some(e), None, None))
    case Success(info) =>
      var sent := req.(headers := Some(Decorate(HeadersOf(req.headers), StoredValidators(info))));
      var reply := send(sent);
      if info.NoCache? then Run(Some(sent), files, PassThrough(reply))
      else
        var step := ResponseOutcome(info, reply, files, codec, faults);
        Run(Some(sent), step.files, step.outcome)
  }

  /**
   * No-cache bypass: when the mapper yields no file, no file changes, the
   * conditional headers are removed and every other header is sent as the
   * caller gave it, and the reply reaches the callback unmodified.
   */
  lemma NoLocationBypassesCache(mapper: Mapper, req: Request, files: Files, send: Request -> Transport,
                                codec: Codec, faults: Faults)
    requires MapCache(mapper, req).MappedTo? && FileOf(MapCache(mapper, req)).None?
    ensures var run := RunRequest(mapper, req, files, send, codec, faults);
      && run.files == files
      && run.sent == Some(req.(headers := Some(HeadersOf(req.headers) - {IF_NONE_MATCH, IF_MODIFIED_SINCE})))
      && run.outcome == PassThrough(send(run.sent.value))
  {
  }

  /**
   * A header file that does not parse is treated as an empty record: the
   * request goes out with exactly the caller's headers and no error arises.
   */
  lemma CorruptValidatorsTolerated(mapper: Mapper, req: Request, files: Files, send: Request -> Transport,
                                   codec: Codec, faults: Faults, f: Path)
    requires FileOf(MapCache(mapper, req)) == Some(f)
    requires HeaderPath(f) in files && codec.parseHeaders(files[HeaderPath(f)]).None?
    ensures var run := RunRequest(mapper, req, files, send, codec, faults);
      run.sent == Some(req.(headers := Some(HeadersOf(req.headers))))
  {
    EmptyRecordKeepsHeaders(HeadersOf(req.headers));
  }

  /**
   * Cold start followed by revalidation, against an origin that answers 304
   * exactly when `If-None-Match` carries its current ETag: the first request
   * gets the fresh response and stores it; the second sends the stored ETag,
   * gets 304, and its callback sees the body stored by the first.
   */
  lemma {:induction false} ColdStartThenRevalidate(
      mapper: Mapper, req: Request, files: Files, codec: Codec, faults: Faults, f: Path,
      send: Request -> Transport, ok: Response, text: string, notModified: Response, etag: string)
    requires FileOf(MapCache(mapper, req)) == Some(f)
    requires HeaderPath(f) !in files
    requires HeadersRoundTrip(codec)
    requires !faults.mkdirFails && f !in faults.unwritable && HeaderPath(f) !in faults.unwritable
    requires ok.statusCode != 304 && ETAG in ok.headers && ok.headers[ETAG] == etag
    requires notModified.statusCode == 304
    requires Lookup(HeadersOf(req.headers), IF_NONE_MATCH) != Some(etag)
    requires forall r: Request :: send(r) == RevalidatingOrigin(r, etag, notModified, ok, Text(text))
    ensures var first := RunRequest(mapper, req, files, send, codec, faults);
      var second := RunRequest(mapper, req, first.files, send, codec, faults);
      && first.outcome == Outcome(None, Some(ok), Some(Text(text)))
      && second.sent.Some? && Lookup(HeadersOf(second.sent.value.headers), IF_NONE_MATCH) == Some(etag)
      && second.outcome == Outcome(None, Some(notModified), Some(Buffer(text)))
  {
    var located := Located(map[], f, HeaderPath(f), Dirname(f));
    var sent1 := req.(headers := Some(HeadersOf(req.headers)));
    LocatedRequest(mapper, req, files, send, codec, faults, located);
    EmptyRecordKeepsHeaders(HeadersOf(req.headers));
    assert send(sent1) == Replied(ok, Text(text));
    var first := RunRequest(mapper, req, files, send, codec, faults);
    assert Step(first.files, first.outcome) == SaveOutcome(ok, Text(text), located, files, codec, faults);
    SaveThenRead(ok, Text(text), f, files, codec, faults, notModified);
    var revalidating := Located(ok.headers, f, HeaderPath(f), Dirname(f));
    LocatedRequest(mapper, req, first.files, send, codec, faults, revalidating);
    var sent2 := req.(headers := Some(Decorate(HeadersOf(req.headers), Some(ok.headers))));
    assert Lookup(HeadersOf(sent2.headers), IF_NONE_MATCH) == Some(etag);
    assert send(sent2) == Replied(notModified, Text(""));
  }

  /** With a cache location, the request goes out decorated with its validators and the reply is handled against the cache. */
  lemma LocatedRequest(mapper: Mapper, req: Request, files: Files, send: Request -> Transport,
                       codec: Codec, faults: Faults, info: CacheInfo)
    requires info.Located? && CacheInfoOf(MapCache(mapper, req), files, codec) == Success(info)
    ensures var run := RunRequest(mapper, req, files, send, codec, faults);
      var sent := req.(headers := Some(Decorate(HeadersOf(req.headers), Some(info.validators))));
      && run.sent == Some(sent)
      && Step(run.files, run.outcome) == ResponseOutcome(info, send(sent), files, codec, faults)
  {
  }

  // ---------------------------------------------------------------------------
  // Finding: lib/modified.js:103-107 uses the cache even when there is none

  /**
   * What the request callback of lib/modified.js:98-108 does, verbatim:
   * it consults `info.data_file` on 304 and `info.dir` otherwise, also when
   * `info` is `{}`, so `fs.readFile` / `mkdirp` receive `undefined` and throw.
   * `None` stands for that thrown `TypeError`.
   */
  function ResponseAsWritten(info: CacheInfo, reply: Transport, files: Files, codec: Codec,
                             faults: Faults): (r: Option<Step>)
    ensures r.None? <==> info.NoCache? && reply.Replied?
    ensures info.Located? ==> r == Some(ResponseOutcome(info, reply, files, codec, faults))
  {
    match reply
    case TransportFailed(e) => Some(Step(files, Outcome(Some(e), None, None)))
    case Replied(_, _) => if info.NoCache? then None else Some(ResponseOutcome(info, reply, files, codec, faults))
  }

  /**
   * With `cacheMapper: null` and any reply, the code as written throws, while
   * the corrected pipeline passes the reply to the callback unchanged and
   * writes nothing.
   */
  lemma DisabledCacheThrowsAsWritten(home: string, req: Request, files: Files, codec: Codec, faults: Faults,
                                     send: Request -> Transport, res: Response, body: Body)
    requires forall r: Request :: send(r) == Replied(res, body)
    ensures CacheInfoOf(MapCache(MapperFor(NullMapper, home), req), files, codec) == Success(NoCache)
    ensures ResponseAsWritten(NoCache, Replied(res, body), files, codec, faults) == None
    ensures var run := RunRequest(MapperFor(NullMapper, home), req, files, send, codec, faults);
      run.files == files && run.outcome == Outcome(None, Some(res), Some(body))
  {
  }

  // ---------------------------------------------------------------------------
  // The request object

  class Modified {
    /** `this._cacheMapper`. */
    var cacheMapper: Mapper
    /** Whether the options carried a callback (the constructor takes it out). */
    var hasCallback: bool
    /** `self.req`: the request as handed to the transport. */
    var req: Option<Request>
    /** `self._response`, set once a response has arrived. */
    var response: Option<Response>
    /** The arguments the callback is called with. */
    var result: Option<Outcome>

    /**
     * `new Modified(options)`: copy `cacheMapper`, take the callback out of the
     * options, default the method to GET, then run `_request`.
     */
    constructor (o: Options, home: string, disk: Disk, send: Request -> Transport, codec: Codec,
                 faults: Faults)
      modifies o, disk
      ensures cacheMapper == MapperFor(old(o.cacheMapper), home)
      ensures hasCallback == old(o.hasCallback) && !o.hasCallback
      ensures o.httpMethod == (if old(o.httpMethod) == "" then "GET" else old(o.httpMethod))
      ensures o.url == old(o.url) && o.cacheMapper == old(o.cacheMapper)
      ensures var run := RunRequest(cacheMapper, Request(o.httpMethod, o.url, old(o.headers)),
                                    old(disk.files), send, codec, faults);
        && disk.files == run.files && result == Some(run.outcome) && req == run.sent
        && o.headers == (if run.sent.Some? then run.sent.value.headers else old(o.headers))
        && response == (if run.sent.Some? && send(run.sent.value).Replied? then Some(send(run.sent.value).res) else None)
    {
      cacheMapper := MapperFor(o.cacheMapper, home);
      hasCallback := o.hasCallback;
      req := None;
      response := None;
      result := None;
      new;
      o.hasCallback := false;
      if o.httpMethod == "" {
        o.httpMethod := "GET";
      }
      IssueRequest(o, disk, send, codec, faults);
    }

    /** `_request(options, callback)`. */
    method IssueRequest(o: Options, disk: Disk, send: Request -> Transport, codec: Codec, faults: Faults)
      modifies this`req, this`response, this`result, o`headers, disk
      ensures var run := RunRequest(cacheMapper, old(o.Snapshot()), old(disk.files), send, codec, faults);
        && disk.files == run.files && result == Some(run.outcome)
        && req == (if run.sent.Some? then run.sent else old(req))
        && o.headers == (if run.sent.Some? then run.sent.value.headers else old(o.headers))
        && response == (if run.sent.Some? && send(run.sent.value).Replied? then Some(send(run.sent.value).res)
                        else old(response))
    {
      var info := ReadCacheInfo(o.Snapshot(), disk, codec);
      if info.Failure? {
        result := Some(Outcome(Some(info.error), None, None));
        return;
      }
      ghost var before := o.Snapshot();
      DecorateOptions(o, StoredValidators(info.value));
      var sent := o.Snapshot();
      assert sent == before.(headers := Some(Decorate(HeadersOf(before.headers), StoredValidators(info.value))));
      ghost var run := RunRequest(cacheMapper, before, disk.files, send, codec, faults);
      assert run.sent == Some(sent);
      req := Some(sent);
      var reply := send(sent);
      var out: Outcome;
      match reply {
        case TransportFailed(e) =>
          out := Outcome(Some(e), None, None);
        case Replied(res, body) =>
          response := Some(res);
          if info.value.NoCache? {
            out := Outcome(None, Some(res), Some(body));
          } else if res.statusCode == 304 {
            out := SendResponseBody(res, info.value.dataFile, disk);
          } else {
            out := SaveResponse(res, body, info.value, disk, codec, faults);
          }
      }
      result := Some(out);
    }

    /**
     * `_readCacheInfo`: map the request to its file, read the header file
     * into a local and test the data file, then settle the record in effect.
     */
    method ReadCacheInfo(request: Request, disk: Disk, codec: Codec) returns (r: Result<CacheInfo, Error>)
      ensures r == CacheInfoOf(MapCache(cacheMapper, request), disk.files, codec)
    {
      var mapped := MapCache(cacheMapper, request);
      if mapped.MapFailed? {
        return Failure(mapped.err);
      }
      var file := FileOf(mapped);
      if file.None? {
        return Success(NoCache);
      }
      var headerFile := HeaderPath(file.value);
      var fileContent := disk.ReadFile(headerFile);
      var present := disk.Exists(file.value);
      var failed := fileContent.None? || !present;
      var headers: Headers := map[];
      if !failed {
        match codec.parseHeaders(fileContent.value)
        case Some(h) => headers := h;
        case None =>
      }
      r := Success(Located(headers, file.value, headerFile, Dirname(file.value)));
    }

    /** `_sendResponseBody`: the callback gets a null error and whatever the data file read gave. */
    method SendResponseBody(res: Response, file: Path, disk: Disk) returns (out: Outcome)
      ensures out == NotModifiedOutcome(res, file, disk.files)
    {
      var content := disk.ReadFile(file);
      out := Outcome(None, Some(res), match content case Some(c) => Some(Buffer(c)) case None => None);
    }

    /** `_saveResponse`: `mkdirp`, then the two writes one after the other. */
    method SaveResponse(res: Response, body: Body, info: CacheInfo, disk: Disk, codec: Codec, faults: Faults)
      returns (out: Outcome)
      requires info.Located?
      modifies disk
      ensures Step(disk.files, out) == SaveOutcome(res, body, info, old(disk.files), codec, faults)
    {
      if faults.mkdirFails {
        return Outcome(Some(IoError(info.dir)), Some(res), Some(body));
      }
      var dataErr := disk.WriteFile(info.dataFile, StoredBody(body, codec), faults.unwritable);
      var headerErr := disk.WriteFile(info.headerFile, codec.stringifyHeaders(res.headers), faults.unwritable);
      out := Outcome(if dataErr.Some? then dataErr else headerErr, Some(res), Some(body));
    }
  }
}
