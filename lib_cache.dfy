/**
 * The cache store of lib/modified.js: where the two cache artifacts of a
 * location live, which validator record is in effect, and what a response
 * does to the files.
 */
module LibCache {
  import opened Wrappers
  import opened Http
  import opened Disk
  import opened NodePath

  const HEADER_SUFFIX := ".modified-headers.json"

  /** `_getHeaderPath`: the validators artifact sits next to the data file. */
  function HeaderPath(dataPath: Path): (r: Path)
    ensures |r| == |dataPath| + |HEADER_SUFFIX|
    ensures r[..|dataPath|] == dataPath && r[|dataPath|..] == HEADER_SUFFIX
  {
    dataPath + HEADER_SUFFIX
  }

  /** Distinct data files have distinct header files, and no header file is its own data file. */
  lemma HeaderPathInjective(a: Path, b: Path)
    ensures HeaderPath(a) != a
    ensures HeaderPath(a) == HeaderPath(b) ==> a == b
  {
    if HeaderPath(a) == HeaderPath(b) {
      assert |a| == |b|;
      assert a == HeaderPath(a)[..|a|] == HeaderPath(b)[..|b|] == b;
    }
  }

  /** The header file lies in the same directory as a data file whose path does not end in a separator. */
  lemma HeaderFileBesideData(dataPath: Path)
    requires dataPath != "" && dataPath[|dataPath| - 1] != '/'
    ensures Dirname(HeaderPath(dataPath)) == Dirname(dataPath)
  {
    assert '/' !in HEADER_SUFFIX;
    DirnameOfExtension(dataPath, HEADER_SUFFIX);
  }

  /**
   * The `info` object `_readCacheInfo` produces: `{}` when the mapper gave no
   * file, otherwise the validators in effect and the three derived paths.
   */
  datatype CacheInfo =
    | NoCache
    | Located(validators: Headers, dataFile: Path, headerFile: Path, dir: Path)

  /** `info.headers`: undefined for `{}`, the record (possibly empty) otherwise. */
  function StoredValidators(info: CacheInfo): Option<Headers>
  {
    match info
    case NoCache => None
    case Located(v, _, _, _) => Some(v)
  }

  /**
   * The JSON codec, taken as given: `JSON.stringify` of a non-string body and
   * of a header object, and `JSON.parse` of a header file, `None` when it throws.
   */
  datatype Codec = Codec(stringifyBody: Body -> string, stringifyHeaders: Headers -> string,
                         parseHeaders: string -> Option<Headers>)

  /** Parsing what was stringified gives the header object back. */
  ghost predicate HeadersRoundTrip(codec: Codec)
  {
    forall h :: codec.parseHeaders(codec.stringifyHeaders(h)) == Some(h)
  }

  /**
   * `_readCacheInfo`: a mapper error is passed on; no file means `{}`;
   * otherwise the stored record is in effect only when the header file could
   * be read, the data file exists and the header file parses; in every other
   * case the record is `{}`, never an error.
   */
  function CacheInfoOf(mapped: Mapped, files: Files, codec: Codec): (r: Result<CacheInfo, Error>)
    ensures r.Failure? <==> mapped.MapFailed?
    ensures r.Failure? ==> r.error == mapped.err
    ensures r.Success? ==> (r.value.NoCache? <==> FileOf(mapped).None?)
    ensures r.Success? && r.value.Located? ==>
      var f := FileOf(mapped).value;
      && r.value.dataFile == f
      && r.value.headerFile == HeaderPath(f)
      && r.value.dir == Dirname(f)
      && (if HeaderPath(f) in files && f in files && codec.parseHeaders(files[HeaderPath(f)]).Some?
          then r.value.validators == codec.parseHeaders(files[HeaderPath(f)]).value
          else r.value.validators == map[])
  {
    match mapped
    case MapFailed(e) => Failure(e)
    case MappedTo(_) =>
      match FileOf(mapped)
      case None => Success(NoCache)
      case Some(f) =>
        var headerFile := HeaderPath(f);
        var readOk := headerFile in files && f in files;
        var validators :=
          if readOk then
            match codec.parseHeaders(files[headerFile])
            case Some(h) => h
            case None => map[]
          else map[];
        Success(Located(validators, f, headerFile, Dirname(f)))
  }

  /** The file system and the callback's arguments after a response has been handled. */
  datatype Step = Step(files: Files, outcome: Outcome)

  /** What the data file receives: a string body verbatim, anything else as `JSON.stringify(body)`. */
  function StoredBody(body: Body, codec: Codec): (r: string)
    ensures body.Text? ==> r == body.text
    ensures !body.Text? ==> r == codec.stringifyBody(body)
  {
    if body.Text? then body.text else codec.stringifyBody(body)
  }

  /**
   * `_saveResponse`: create the cache directory, then write the data file and
   * the header file (the full response headers). A `mkdirp` failure is
   * reported with `res` and `body` and nothing is written; a failed write
   * leaves its file as it was and is reported; the other write still happens.
   */
  function SaveOutcome(res: Response, body: Body, info: CacheInfo, files: Files, codec: Codec,
                       faults: Faults): (r: Step)
    requires info.Located?
    ensures r.outcome.res == Some(res) && r.outcome.body == Some(body)
    ensures faults.mkdirFails ==> r.files == files && r.outcome.err == Some(IoError(info.dir))
    ensures !faults.mkdirFails ==>
      && (forall p :: p != info.dataFile && p != info.headerFile ==> Lookup(r.files, p) == Lookup(files, p))
      && Lookup(r.files, info.headerFile) ==
         (if info.headerFile in faults.unwritable then Lookup(files, info.headerFile)
          else Some(codec.stringifyHeaders(res.headers)))
      && (info.dataFile != info.headerFile ==>
            Lookup(r.files, info.dataFile) ==
            (if info.dataFile in faults.unwritable then Lookup(files, info.dataFile)
             else Some(StoredBody(body, codec))))
      && (r.outcome.err.None? <==> info.dataFile !in faults.unwritable && info.headerFile !in faults.unwritable)
  {
    if faults.mkdirFails then Step(files, Outcome(Some(IoError(info.dir)), Some(res), Some(body)))
    else
      var (afterData, dataErr) := WriteResult(files, info.dataFile, StoredBody(body, codec), faults.unwritable);
      var (afterHeaders, headerErr) :=
        WriteResult(afterData, info.headerFile, codec.stringifyHeaders(res.headers), faults.unwritable);
      Step(afterHeaders, Outcome(if dataErr.Some? then dataErr else headerErr, Some(res), Some(body)))
  }

  /** `_sendResponseBody`: a null error and the data file's content, undefined when the read failed. */
  function NotModifiedOutcome(res: Response, dataFile: Path, files: Files): (r: Outcome)
    ensures r.err.None? && r.res == Some(res)
    ensures r.body.Some? <==> dataFile in files
    ensures dataFile in files ==> r.body == Some(Buffer(files[dataFile]))
  {
    Outcome(None, Some(res), match Lookup(files, dataFile) case Some(c) => Some(Buffer(c)) case None => None)
  }

  /**
   * The request callback of `_request` once a location is known: a transport
   * error is passed on, a 304 takes its body from the data file and writes
   * nothing, any other status saves the response.
   */
  function ResponseOutcome(info: CacheInfo, reply: Transport, files: Files, codec: Codec,
                           faults: Faults): (r: Step)
    requires info.Located?
    ensures reply.TransportFailed? ==> r == Step(files, Outcome(Some(reply.err), None, None))
    ensures reply.Replied? && reply.res.statusCode == 304 ==>
      && r.files == files
      && r.outcome.err.None? && r.outcome.res == Some(reply.res)
      && (info.dataFile in files <==> r.outcome.body.Some?)
      && (info.dataFile in files ==> r.outcome.body == Some(Buffer(files[info.dataFile])))
    ensures reply.Replied? && reply.res.statusCode != 304 ==>
      r == SaveOutcome(reply.res, reply.body, info, files, codec, faults)
  {
    match reply
    case TransportFailed(e) => Step(files, Outcome(Some(e), None, None))
    case Replied(res, body) =>
      if res.statusCode == 304 then Step(files, NotModifiedOutcome(res, info.dataFile, files))
      else SaveOutcome(res, body, info, files, codec, faults)
  }

  /**
   * Round trip of the cache store: after a response is saved without
   * failures, reading the location back puts that response's headers in
   * effect and a later 304 yields the saved body.
   */
  lemma {:induction false} SaveThenRead(res: Response, body: Body, f: Path, files: Files, codec: Codec,
                                        faults: Faults, notModified: Response)
    requires f != "" && HeadersRoundTrip(codec)
    requires !faults.mkdirFails && f !in faults.unwritable && HeaderPath(f) !in faults.unwritable
    requires notModified.statusCode == 304
    ensures
      var info := CacheInfoOf(MappedTo(Some(f)), files, codec).value;
      var saved := SaveOutcome(res, body, info, files, codec, faults);
      && saved.outcome == Outcome(None, Some(res), Some(body))
      && CacheInfoOf(MappedTo(Some(f)), saved.files, codec) ==
         Success(Located(res.headers, f, HeaderPath(f), Dirname(f)))
      && NotModifiedOutcome(notModified, f, saved.files) ==
         Outcome(None, Some(notModified), Some(Buffer(StoredBody(body, codec))))
  {
    var info := CacheInfoOf(MappedTo(Some(f)), files, codec).value;
    HeaderPathInjective(f, f);
    var saved := SaveOutcome(res, body, info, files, codec, faults);
    assert Lookup(saved.files, HeaderPath(f)) == Some(codec.stringifyHeaders(res.headers));
    assert Lookup(saved.files, f) == Some(StoredBody(body, codec));
    assert codec.parseHeaders(codec.stringifyHeaders(res.headers)) == Some(res.headers);
  }
}
