/**
 * Values exchanged between the cache layer, its caller and the collaborators it
 * does not implement: the HTTP transport, the file system and the JSON codec.
 */
module Http {
  import opened Wrappers

  /** A header mapping with lower-cased field names, as the `request` library delivers them. */
  type Headers = map<string, string>

  /** A file-system path (POSIX). */
  type Path = string

  /** The file system: every existing regular file and its whole content. */
  type Files = map<Path, string>

  /** A parsed JSON document, for bodies that the transport delivered already decoded. */
  datatype Json =
    | JNull
    | JBool(b: bool)
    | JNumber(n: int)
    | JString(s: string)
    | JArray(items: seq<Json>)
    | JObject(members: seq<(string, Json)>)

  /**
   * A response body as a callback receives it: a string, the raw content of a
   * file read back from the cache (a Node `Buffer`), or a decoded JSON value.
   */
  datatype Body = Text(text: string) | Buffer(content: string) | Value(json: Json)

  /**
   * The components of a parsed URL that the default cache mapper uses. The
   * empty string stands for a component `url.parse` leaves `null`: both are
   * falsy and are treated alike everywhere in the source.
   */
  datatype Url = Url(protocol: string, auth: string, hostname: string, port: string,
                     pathname: string, query: string)

  /** The part of a request options object that the core reads; `headers` is `None` while unset. */
  datatype Request = Request(httpMethod: string, url: Url, headers: Option<Headers>)

  datatype Response = Response(statusCode: int, headers: Headers)

  datatype Error = Failed(reason: string) | IoError(path: Path)

  /** What the HTTP transport hands to its callback. */
  datatype Transport = TransportFailed(err: Error) | Replied(res: Response, body: Body)

  /** The `(err, res, body)` triple a request callback is called with. */
  datatype Outcome = Outcome(err: Option<Error>, res: Option<Response>, body: Option<Body>)

  /** What a cache mapper reports: an error, or a file (absent or falsy when caching is off). */
  datatype Mapped = MapFailed(err: Error) | MappedTo(file: Option<Path>)

  /** The `cacheMapper` property of an options object: missing, explicitly `null`, or a function. */
  datatype MapperOption = Absent | NullMapper | Given(mapper: Request -> Mapped)

  /** The cache file a mapper result designates; `None` when `!file` holds in the source. */
  function FileOf(m: Mapped): (r: Option<Path>)
    ensures r.Some? <==> m.MappedTo? && m.file.Some? && m.file.value != ""
    ensures r.Some? ==> r.value == m.file.value
  {
    match m
    case MappedTo(Some(f)) => if f == "" then None else Some(f)
    case _ => None
  }

  /** `options.headers || {}`. */
  function HeadersOf(h: Option<Headers>): Headers
  {
    match h
    case Some(m) => m
    case None => map[]
  }

  /** The value under a key: a header's value, or a file's content; `None` when the key is absent. */
  function Lookup(m: map<string, string>, k: string): Option<string>
  {
    if k in m then Some(m[k]) else None
  }

  predicate JsonTruthy(j: Json)
  {
    match j
    case JNull => false
    case JBool(b) => b
    case JNumber(n) => n != 0
    case JString(s) => s != ""
    case _ => true
  }

  /** The response passed on untouched, as when no cache location exists. */
  function PassThrough(reply: Transport): Outcome
  {
    match reply
    case TransportFailed(e) => Outcome(Some(e), None, None)
    case Replied(res, body) => Outcome(None, Some(res), Some(body))
  }

  /** JavaScript truthiness of a possibly undefined body: `""`, `null`, `false` and `0` are falsy. */
  predicate Truthy(b: Option<Body>)
  {
    match b
    case None => false
    case Some(Text(t)) => t != ""
    case Some(Buffer(_)) => true
    case Some(Value(j)) => JsonTruthy(j)
  }

  /** A caller-owned request options object that the core edits in place. */
  class Options {
    var httpMethod: string
    var url: Url
    var headers: Option<Headers>
    var hasCallback: bool
    var cacheMapper: MapperOption

    constructor (httpMethod: string, url: Url, headers: Option<Headers>, hasCallback: bool,
                 cacheMapper: MapperOption)
      ensures this.httpMethod == httpMethod && this.url == url && this.headers == headers
      ensures this.hasCallback == hasCallback && this.cacheMapper == cacheMapper
    {
      this.httpMethod := httpMethod;
      this.url := url;
      this.headers := headers;
      this.hasCallback := hasCallback;
      this.cacheMapper := cacheMapper;
    }

    /** The request that these options currently describe. */
    function Snapshot(): Request
      reads this
    {
      Request(httpMethod, url, headers)
    }
  }
}
