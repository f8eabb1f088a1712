/**
 * index.js: the stream-flavoured `Modified`. Its constructor lets truthy
 * `read`, `save` and `cacheMapper` options replace the prototype's methods;
 * `request` reads the cache record, decorates the outgoing headers, sends,
 * and on a reply either substitutes the cached data (304) or saves the fresh
 * response; `pipe` queues stream attachments until a response is known.
 */
module IndexModified {
  import opened Wrappers
  import opened Http
  import opened Disk
  import opened NodePath
  import opened Conditional

  // ---------------------------------------------------------------------------
  // Reading and saving the cache record

  /** The arguments `_read` hands its callback: `(read_err, headers, data)`. */
  datatype ReadReply = ReadReply(err: Option<Error>, headers: Option<Headers>, data: Option<Body>)

  /** A parsed cache file: `info.headers` and `info.data`, either possibly undefined. */
  datatype CacheRecord = CacheRecord(headers: Option<Headers>, data: Option<Body>)

  /** `modified.parse` and `modified.stringify`, taken as given. */
  datatype RecordCodec = RecordCodec(parse: string -> CacheRecord, stringify: (Headers, Body) -> string)

  /** `this._read`: the prototype's, or a `read` option. */
  datatype Reader = DefaultRead | CustomRead(read: Request -> ReadReply)

  /** `this._save`: the prototype's, or a `save` option reporting its error. */
  datatype Saver = DefaultSave | CustomSave(save: (Request, Headers, Body) -> Option<Error>)

  /** `this._cacheMapper`: the prototype's, which yields no file, or a `cacheMapper` option. */
  datatype IndexMapper = NoFileMapper | CustomMapper(mapper: Request -> Mapped)

  /** `_mapCache`: ask the mapper in effect; the prototype's answers `callback(null)`. */
  function MapCacheIndex(m: IndexMapper, req: Request): (r: Mapped)
    ensures r.MapFailed? ==> m.CustomMapper?
    ensures m.NoFileMapper? ==> FileOf(r).None?
    ensures m.CustomMapper? ==> r == m.mapper(req)
  {
    match m
    case NoFileMapper => MappedTo(None)
    case CustomMapper(f) => f(req)
  }

  /**
   * `_read`: a mapper error is passed on, no file means no record, a file
   * that cannot be read is an error, and otherwise the parsed record's
   * headers and data are reported.
   */
  function ReadCache(reader: Reader, mapper: IndexMapper, req: Request, files: Files,
                     codec: RecordCodec): (r: ReadReply)
    ensures reader.CustomRead? ==> r == reader.read(req)
    ensures reader.DefaultRead? && r.err.Some? ==> r.headers.None? && r.data.None?
    ensures reader.DefaultRead? && MapCacheIndex(mapper, req).MapFailed? ==>
      r.err == Some(MapCacheIndex(mapper, req).err)
    ensures reader.DefaultRead? && MapCacheIndex(mapper, req).MappedTo? ==>
      match FileOf(MapCacheIndex(mapper, req))
      case None => r == ReadReply(None, None, None)
      case Some(f) =>
        && (f !in files ==> r.err == Some(IoError(f)))
        && (f in files ==> r == ReadReply(None, codec.parse(files[f]).headers, codec.parse(files[f]).data))
  {
    match reader
    case CustomRead(read) => read(req)
    case DefaultRead =>
      var mapped := MapCacheIndex(mapper, req);
      if mapped.MapFailed? then ReadReply(Some(mapped.err), None, None)
      else
        match FileOf(mapped)
        case None => ReadReply(None, None, None)
        case Some(f) =>
          match Lookup(files, f)
          case None => ReadReply(Some(IoError(f)), None, None)
          case Some(content) =>
            var info := codec.parse(content);
            ReadReply(None, info.headers, info.data)
  }

  /**
   * `_save`: a mapper error is reported, no file means success without a
   * write, and otherwise the record is written to the file, which may fail.
   * A custom `save` reports its own error and does not touch the model's files.
   */
  function SaveCache(saver: Saver, mapper: IndexMapper, req: Request, headers: Headers, body: Body,
                     files: Files, codec: RecordCodec, unwritable: set<Path>): (r: (Files, Option<Error>))
    ensures saver.CustomSave? ==> r == (files, saver.save(req, headers, body))
    ensures saver.DefaultSave? && MapCacheIndex(mapper, req).MapFailed? ==>
      r == (files, Some(MapCacheIndex(mapper, req).err))
    ensures saver.DefaultSave? && MapCacheIndex(mapper, req).MappedTo? ==>
      match FileOf(MapCacheIndex(mapper, req))
      case None => r == (files, None)
      case Some(f) =>
        && (f in unwritable <==> r.1.Some?)
        && (f in unwritable ==> r.0 == files)
        && (f !in unwritable ==> r.0 == files[f := codec.stringify(headers, body)])
  {
    match saver
    case CustomSave(save) => (files, save(req, headers, body))
    case DefaultSave =>
      var mapped := MapCacheIndex(mapper, req);
      if mapped.MapFailed? then (files, Some(mapped.err))
      else
        match FileOf(mapped)
        case None => (files, None)
        case Some(f) => WriteResult(files, f, codec.stringify(headers, body), unwritable)
  }

  // ---------------------------------------------------------------------------
  // The request pipeline

  /** The request as sent, the file system afterwards, and the callback's arguments if there is a callback. */
  datatype IndexRun = IndexRun(sent: Request, files: Files, outcome: Option<Outcome>)

  /** The overridable parts of a `Modified` instance. */
  datatype Methods = Methods(reader: Reader, saver: Saver, mapper: IndexMapper)

  /** `data || body`: the cached data when it is truthy, the response body otherwise. */
  function CachedOr(data: Option<Body>, body: Body): (r: Body)
    ensures Some(r) == data || r == body
    ensures Truthy(data) ==> Some(r) == data
    ensures !Truthy(data) ==> r == body
  {
    if Truthy(data) then data.value else body
  }

  /**
   * `request(options, callback)`: read (ignoring `read_err`), decorate with
   * the record's headers, send; with a callback, a transport error is passed
   * on, 304 gives `data || body`, and anything else is saved before the
   * callback gets the original reply, whatever the save reported.
   */
  function RunIndexRequest(m: Methods, req: Request, hasCallback: bool, files: Files,
                           send: Request -> Transport, codec: RecordCodec, unwritable: set<Path>): (r: IndexRun)
    ensures r.sent.httpMethod == req.httpMethod && r.sent.url == req.url
    ensures !hasCallback <==> r.outcome.None?
    ensures !hasCallback || send(r.sent).TransportFailed? || send(r.sent).res.statusCode == 304 ==> r.files == files
    ensures hasCallback && send(r.sent).TransportFailed? ==> r.outcome == Some(Outcome(Some(send(r.sent).err), None, None))
    ensures hasCallback && send(r.sent).Replied? ==>
      r.outcome.value.err.None? && r.outcome.value.res == Some(send(r.sent).res)
  {
    var read := ReadCache(m.reader, m.mapper, req, files, codec);
    var sent := req.(headers := Some(Decorate(HeadersOf(req.headers), read.headers)));
    if !hasCallback then IndexRun(sent, files, None)
    else
      match send(sent)
      case TransportFailed(e) => IndexRun(sent, files, Some(Outcome(Some(e), None, None)))
      case Replied(res, body) =>
        if res.statusCode == 304 then
          IndexRun(sent, files, Some(Outcome(None, Some(res), Some(CachedOr(read.data, body)))))
        else
          var saved := SaveCache(m.saver, m.mapper, sent, res.headers, body, files, codec, unwritable);
          IndexRun(sent, saved.0, Some(Outcome(None, Some(res), Some(body))))
  }

  /**
   * The save error never reaches the callback: whichever files can be
   * written, the request sent and the callback's arguments are the same,
   * and for a fresh response they are the reply itself.
   */
  lemma SaveErrorDiscarded(m: Methods, req: Request, files: Files, send: Request -> Transport,
                           codec: RecordCodec, u1: set<Path>, u2: set<Path>)
    ensures var r1 := RunIndexRequest(m, req, true, files, send, codec, u1);
      var r2 := RunIndexRequest(m, req, true, files, send, codec, u2);
      && r1.sent == r2.sent && r1.outcome == r2.outcome
      && (send(r1.sent).Replied? && send(r1.sent).res.statusCode != 304 ==>
            r1.outcome == Some(PassThrough(send(r1.sent))))
  {
  }

  /**
   * A 304 changes no file and gives the callback the cached data when that
   * is truthy, and the response body (typically empty) when it is not.
   */
  lemma NotModifiedAnswer(m: Methods, req: Request, files: Files, send: Request -> Transport,
                          codec: RecordCodec, unwritable: set<Path>)
    ensures var run := RunIndexRequest(m, req, true, files, send, codec, unwritable);
      var data := ReadCache(m.reader, m.mapper, req, files, codec).data;
      send(run.sent).Replied? && send(run.sent).res.statusCode == 304 ==>
        && run.files == files
        && run.outcome.Some? && run.outcome.value.err.None? && run.outcome.value.res == Some(send(run.sent).res)
        && (Truthy(data) ==> run.outcome.value.body == data)
        && (!Truthy(data) ==> run.outcome.value.body == Some(send(run.sent).body))
  {
  }

  /**
   * The request is decorated with whatever headers the read reported, its
   * error notwithstanding; with the default read, a failed read therefore
   * strips both conditional headers and leaves every other header alone.
   */
  lemma ReadErrorIgnored(m: Methods, req: Request, hasCallback: bool, files: Files,
                         send: Request -> Transport, codec: RecordCodec, unwritable: set<Path>)
    requires m.reader.DefaultRead? && ReadCache(m.reader, m.mapper, req, files, codec).err.Some?
    ensures var run := RunIndexRequest(m, req, hasCallback, files, send, codec, unwritable);
      && run.sent.headers == Some(HeadersOf(req.headers) - {IF_NONE_MATCH, IF_MODIFIED_SINCE})
      && (hasCallback && send(run.sent).Replied? && send(run.sent).res.statusCode == 304 ==>
            run.outcome == Some(PassThrough(send(run.sent))))
  {
  }

  /**
   * When the mapper yields no file for any request, the cache is bypassed:
   * the conditional headers are removed, no file changes and the reply
   * reaches the callback as it came.
   */
  lemma NoFileBypassesCache(m: Methods, req: Request, hasCallback: bool, files: Files,
                            send: Request -> Transport, codec: RecordCodec, unwritable: set<Path>)
    requires m.reader.DefaultRead? && m.saver.DefaultSave?
    requires forall r: Request :: MapCacheIndex(m.mapper, r).MappedTo? && FileOf(MapCacheIndex(m.mapper, r)).None?
    ensures var run := RunIndexRequest(m, req, hasCallback, files, send, codec, unwritable);
      && run.files == files
      && run.sent.headers == Some(HeadersOf(req.headers) - {IF_NONE_MATCH, IF_MODIFIED_SINCE})
      && run.outcome == (if hasCallback then Some(PassThrough(send(run.sent))) else None)
  {
    var sent := RunIndexRequest(m, req, hasCallback, files, send, codec, unwritable).sent;
    assert FileOf(MapCacheIndex(m.mapper, sent)).None?;
  }

  /** The prototype's mapper yields no file, so an instance without options caches nothing. */
  lemma DefaultMapperCachesNothing(r: Request)
    ensures MapCacheIndex(NoFileMapper, r).MappedTo? && FileOf(MapCacheIndex(NoFileMapper, r)).None?
  {
  }

  /**
   * A cache file whose record holds `etag` and truthy data, behind a mapper
   * that always names it: the request goes out with `If-None-Match: etag`,
   * the origin answers 304, and the callback receives the cached data.
   */
  lemma {:induction false} CachedRecordRevalidated(
      f: Path, files: Files, codec: RecordCodec, req: Request, etag: string, data: Body,
      notModified: Response, ok: Response, full: Body, send: Request -> Transport, unwritable: set<Path>)
    requires f != "" && f in files
    requires codec.parse(files[f]) == CacheRecord(Some(map[ETAG := etag]), Some(data)) && Truthy(Some(data))
    requires notModified.statusCode == 304
    requires forall r: Request :: send(r) == RevalidatingOrigin(r, etag, notModified, ok, full)
    ensures var m := Methods(DefaultRead, DefaultSave, CustomMapper((r: Request) => MappedTo(Some(f))));
      var run := RunIndexRequest(m, req, true, files, send, codec, unwritable);
      && Lookup(HeadersOf(run.sent.headers), IF_NONE_MATCH) == Some(etag)
      && run.files == files
      && run.outcome == Some(Outcome(None, Some(notModified), Some(data)))
  {
    var m := Methods(DefaultRead, DefaultSave, CustomMapper((r: Request) => MappedTo(Some(f))));
    var read := ReadCache(m.reader, m.mapper, req, files, codec);
    assert read == ReadReply(None, Some(map[ETAG := etag]), Some(data));
    var sent := req.(headers := Some(Decorate(HeadersOf(req.headers), read.headers)));
    assert Lookup(HeadersOf(sent.headers), IF_NONE_MATCH) == Some(etag);
    assert send(sent) == Replied(notModified, Text(""));
  }

  /**
   * A fresh response behind a mapper that always names `f` is stored in `f`
   * as the record of the response headers and body, when `f` can be written.
   */
  lemma FreshResponseStored(f: Path, files: Files, codec: RecordCodec, req: Request, res: Response, body: Body,
                            send: Request -> Transport, unwritable: set<Path>)
    requires f != "" && f !in unwritable
    requires res.statusCode != 304
    requires forall r: Request :: send(r) == Replied(res, body)
    ensures var m := Methods(DefaultRead, DefaultSave, CustomMapper((r: Request) => MappedTo(Some(f))));
      var run := RunIndexRequest(m, req, true, files, send, codec, unwritable);
      && run.files == files[f := codec.stringify(res.headers, body)]
      && run.outcome == Some(Outcome(None, Some(res), Some(body)))
  {
  }

  // ---------------------------------------------------------------------------
  // Finding: the default `_read` and `_save` of index.js never reach the cache file

  /** What `fs.read(file)` throws: its first argument must be a file descriptor, not a path. */
  const BAD_DESCRIPTOR := Failed("ERR_INVALID_ARG_TYPE")

  /**
   * `_read` as written (index.js:107-111): `fs.read(file)` throws for every
   * path, so the callback gets that error and never a record.
   */
  function ReadAsWritten(reader: Reader, mapper: IndexMapper, req: Request, files: Files,
                         codec: RecordCodec): (r: ReadReply)
    ensures reader.CustomRead? ==> r == reader.read(req)
    ensures reader.DefaultRead? ==> r.headers.None? && r.data.None?
    ensures reader.DefaultRead? && FileOf(MapCacheIndex(mapper, req)).Some? ==> r.err == Some(BAD_DESCRIPTOR)
    ensures reader.DefaultRead? && FileOf(MapCacheIndex(mapper, req)).None? ==>
      r == ReadCache(reader, mapper, req, files, codec)
  {
    if reader.DefaultRead? && FileOf(MapCacheIndex(mapper, req)).Some? then ReadReply(Some(BAD_DESCRIPTOR), None, None)
    else ReadCache(reader, mapper, req, files, codec)
  }

  /**
   * `_save` as written (index.js:134-141): with a file, `modified.stringify`
   * names nothing index.js defines, so a `ReferenceError` escapes before the
   * write (`None`); were it defined, `fs.write(file, cache)` would throw for
   * the path just as `fs.read` does. Nothing is ever written.
   */
  function SaveAsWritten(saver: Saver, mapper: IndexMapper, req: Request, headers: Headers, body: Body,
                         files: Files, codec: RecordCodec, unwritable: set<Path>): (r: Option<(Files, Option<Error>)>)
    ensures r.None? <==> saver.DefaultSave? && FileOf(MapCacheIndex(mapper, req)).Some?
    ensures r.Some? ==> r.value.0 == files
    ensures r.Some? ==> r.value == SaveCache(saver, mapper, req, headers, body, files, codec, unwritable)
  {
    if saver.DefaultSave? && FileOf(MapCacheIndex(mapper, req)).Some? then None
    else Some(SaveCache(saver, mapper, req, headers, body, files, codec, unwritable))
  }

  /**
   * `request` over the `_read` and `_save` as written; `None` when the save
   * throws inside the request callback, so that the callback is never called.
   */
  function RunIndexAsWritten(m: Methods, req: Request, hasCallback: bool, files: Files,
                             send: Request -> Transport, codec: RecordCodec, unwritable: set<Path>): (r: Option<IndexRun>)
    ensures r.Some? ==> r.value.sent.httpMethod == req.httpMethod && r.value.sent.url == req.url
    ensures r.Some? ==> (!hasCallback <==> r.value.outcome.None?)
    ensures !hasCallback ==> r.Some?
  {
    var read := ReadAsWritten(m.reader, m.mapper, req, files, codec);
    var sent := req.(headers := Some(Decorate(HeadersOf(req.headers), read.headers)));
    if !hasCallback then Some(IndexRun(sent, files, None))
    else
      match send(sent)
      case TransportFailed(e) => Some(IndexRun(sent, files, Some(Outcome(Some(e), None, None))))
      case Replied(res, body) =>
        if res.statusCode == 304 then
          Some(IndexRun(sent, files, Some(Outcome(None, Some(res), Some(CachedOr(read.data, body))))))
        else
          match SaveAsWritten(m.saver, m.mapper, sent, res.headers, body, files, codec, unwritable)
          case None => None
          case Some(saved) => Some(IndexRun(sent, saved.0, Some(Outcome(None, Some(res), Some(body)))))
  }

  /**
   * With the built-in `_read` and `_save` as written, the cache never takes
   * part: every request goes out without conditional headers and no file
   * changes. The reply reaches the callback as it came, except that a fresh
   * response for a request with a cache file throws instead.
   */
  lemma DescriptorCallsNeverCache(m: Methods, req: Request, hasCallback: bool, files: Files,
                                  send: Request -> Transport, codec: RecordCodec, unwritable: set<Path>)
    requires m.reader.DefaultRead? && m.saver.DefaultSave?
    ensures var sent := req.(headers := Some(HeadersOf(req.headers) - {IF_NONE_MATCH, IF_MODIFIED_SINCE}));
      var run := RunIndexAsWritten(m, req, hasCallback, files, send, codec, unwritable);
      && (run.None? <==> hasCallback && send(sent).Replied? && send(sent).res.statusCode != 304
                         && FileOf(MapCacheIndex(m.mapper, sent)).Some?)
      && (run.Some? ==> run.value == IndexRun(sent, files, if hasCallback then Some(PassThrough(send(sent))) else None))
  {
    var read := ReadAsWritten(m.reader, m.mapper, req, files, codec);
    assert read.headers.None? && read.data.None?;
  }

  /**
   * The cached record of `CachedRecordRevalidated`, under the code as
   * written: the request goes out without `If-None-Match`, so the origin
   * sends the full response, and saving it throws before the callback.
   */
  lemma CachedRecordIgnoredAsWritten(
      f: Path, files: Files, codec: RecordCodec, req: Request, etag: string, data: Body,
      notModified: Response, ok: Response, full: Body, send: Request -> Transport, unwritable: set<Path>)
    requires f != "" && f in files
    requires codec.parse(files[f]) == CacheRecord(Some(map[ETAG := etag]), Some(data)) && Truthy(Some(data))
    requires notModified.statusCode == 304 && ok.statusCode != 304
    requires forall r: Request :: send(r) == RevalidatingOrigin(r, etag, notModified, ok, full)
    ensures var sent := req.(headers := Some(HeadersOf(req.headers) - {IF_NONE_MATCH, IF_MODIFIED_SINCE}));
      send(sent) == Replied(ok, full)
    ensures var m := Methods(DefaultRead, DefaultSave, CustomMapper((r: Request) => MappedTo(Some(f))));
      RunIndexAsWritten(m, req, true, files, send, codec, unwritable).None?
  {
    var m := Methods(DefaultRead, DefaultSave, CustomMapper((r: Request) => MappedTo(Some(f))));
    var sent := req.(headers := Some(HeadersOf(req.headers) - {IF_NONE_MATCH, IF_MODIFIED_SINCE}));
    assert Lookup(HeadersOf(sent.headers), IF_NONE_MATCH) == None;
    assert send(sent) == Replied(ok, full);
    DescriptorCallsNeverCache(m, req, true, files, send, codec, unwritable);
  }

  // ---------------------------------------------------------------------------
  // The cached binary file

  /** `_getFilePath`: the URL's last path part, placed in the cache file's directory. */
  function FilePath(filepath: Path, url: string): (r: Path)
    ensures r != ""
    ensures Dirname(filepath)[0] == '/' ==> r[0] == '/'
  {
    JoinPath(Dirname(filepath), Basename(url))
  }

  /**
   * The binary file keeps the URL's base name when that is a plain name, and
   * when the cache file's directory is an absolute plain path it lies in
   * that directory.
   */
  lemma FilePathPlacement(filepath: Path, url: string, dirSegs: seq<string>)
    requires PlainSegment(Basename(url))
    ensures Basename(FilePath(filepath, url)) == Basename(url)
    ensures |dirSegs| >= 1 && PlainSegments(dirSegs) && Dirname(filepath) == "/" + JoinSegments(dirSegs) ==>
      Dirname(FilePath(filepath, url)) == Dirname(filepath)
  {
    var dir := Dirname(filepath);
    var name := Basename(url);
    BasenameOfJoinPath(dir, name);
    if |dirSegs| >= 1 && PlainSegments(dirSegs) && dir == "/" + JoinSegments(dirSegs) {
      JoinPathPlain(dirSegs, name);
      JoinSegmentsLast(dirSegs);
      var last := dirSegs[|dirSegs| - 1];
      assert dir[|dir| - 1] == last[|last| - 1] && last[|last| - 1] in last;
      DirnameOfChild(dir, name);
    }
  }

  // ---------------------------------------------------------------------------
  // The stream object

  /** A destination stream. */
  datatype Sink = Sink(id: nat)

  /** The options of `Stream.prototype.pipe`. */
  datatype PipeOptions = PipeOptions(endDest: bool)

  /** One `{dest, options}` entry of `_pipeQueue`, or one attachment made. */
  datatype PipeEntry = PipeEntry(dest: Sink, options: Option<PipeOptions>)

  /** The constructor's options; `None` stands for an option that is absent or falsy. */
  datatype Settings = Settings(read: Option<Request -> ReadReply>,
                               save: Option<(Request, Headers, Body) -> Option<Error>>,
                               cacheMapper: Option<Request -> Mapped>)

  const NO_SETTINGS := Settings(None, None, None)

  class Modified {
    var reader: Reader
    var saver: Saver
    var cacheMapper: IndexMapper
    /** `this.options`. */
    var options: Settings
    /** `this._pipeQueue`: attachments waiting for a response. */
    var pipeQueue: seq<PipeEntry>
    /** `this._response`. */
    var response: Option<Response>
    /** The attachments `_pipe` has made so far, in order. */
    var attached: seq<PipeEntry>

    /**
     * `new Modified(options)`: `options || {}`; each of `read`, `save` and
     * `cacheMapper` replaces the prototype's method only when it is truthy;
     * the queue starts empty.
     */
    constructor (settings: Option<Settings>)
      ensures options == (if settings.Some? then settings.value else NO_SETTINGS)
      ensures reader == (if options.read.Some? then CustomRead(options.read.value) else DefaultRead)
      ensures saver == (if options.save.Some? then CustomSave(options.save.value) else DefaultSave)
      ensures cacheMapper == (if options.cacheMapper.Some? then CustomMapper(options.cacheMapper.value)
                              else NoFileMapper)
      ensures pipeQueue == [] && response == None && attached == []
    {
      var given := if settings.Some? then settings.value else NO_SETTINGS;
      reader := DefaultRead;
      saver := DefaultSave;
      cacheMapper := NoFileMapper;
      if given.read.Some? {
        reader := CustomRead(given.read.value);
      }
      if given.save.Some? {
        saver := CustomSave(given.save.value);
      }
      if given.cacheMapper.Some? {
        cacheMapper := CustomMapper(given.cacheMapper.value);
      }
      options := given;
      pipeQueue := [];
      response := None;
      attached := [];
    }

    /** The methods in effect. */
    function Current(): Methods
      reads this
    {
      Methods(reader, saver, cacheMapper)
    }

    /** `request(options, callback)`; `hasCallback` says whether a callback was given. */
    method IssueRequest(o: Options, hasCallback: bool, disk: Disk, send: Request -> Transport,
                        codec: RecordCodec, unwritable: set<Path>) returns (out: Option<Outcome>)
      modifies o`headers, disk
      ensures var run := RunIndexRequest(Current(), old(o.Snapshot()), hasCallback, old(disk.files), send,
                                         codec, unwritable);
        && o.headers == run.sent.headers && disk.files == run.files && out == run.outcome
    {
      var read := Read(o.Snapshot(), disk, codec);
      DecorateOptions(o, read.headers);
      var sent := o.Snapshot();
      if !hasCallback {
        return None;
      }
      var reply := send(sent);
      match reply {
        case TransportFailed(e) =>
          out := Some(Outcome(Some(e), None, None));
        case Replied(res, body) =>
          if res.statusCode == 304 {
            out := Some(Outcome(None, Some(res), Some(CachedOr(read.data, body))));
          } else {
            var _ := Save(sent, res.headers, body, disk, codec, unwritable);
            out := Some(Outcome(None, Some(res), Some(body)));
          }
      }
    }

    /** `_read`, with the file read as a whole. */
    method Read(req: Request, disk: Disk, codec: RecordCodec) returns (r: ReadReply)
      ensures r == ReadCache(reader, cacheMapper, req, disk.files, codec)
    {
      if reader.CustomRead? {
        return reader.read(req);
      }
      var mapped := MapCacheIndex(cacheMapper, req);
      if mapped.MapFailed? {
        return ReadReply(Some(mapped.err), None, None);
      }
      var file := FileOf(mapped);
      if file.None? {
        return ReadReply(None, None, None);
      }
      var content := disk.ReadFile(file.value);
      if content.None? {
        return ReadReply(Some(IoError(file.value)), None, None);
      }
      var info := codec.parse(content.value);
      r := ReadReply(None, info.headers, info.data);
    }

    /** `_save`, with the file written as a whole. */
    method Save(req: Request, headers: Headers, body: Body, disk: Disk, codec: RecordCodec,
                unwritable: set<Path>) returns (err: Option<Error>)
      modifies disk
      ensures (disk.files, err) == SaveCache(saver, cacheMapper, req, headers, body, old(disk.files), codec,
                                             unwritable)
    {
      if saver.CustomSave? {
        return saver.save(req, headers, body);
      }
      var mapped := MapCacheIndex(cacheMapper, req);
      if mapped.MapFailed? {
        return Some(mapped.err);
      }
      var file := FileOf(mapped);
      if file.None? {
        return None;
      }
      err := disk.WriteFile(file.value, codec.stringify(headers, body), unwritable);
    }

    /**
     * `pipe(dest, options)`: attach at once when a response is known,
     * otherwise queue `{dest, options}` at the end; either way return `dest`.
     */
    method Pipe(dest: Sink, pipeOptions: Option<PipeOptions>) returns (r: Sink)
      modifies this`pipeQueue, this`attached
      ensures r == dest
      ensures response.Some? ==> attached == old(attached) + [PipeEntry(dest, pipeOptions)] && pipeQueue == old(pipeQueue)
      ensures response.None? ==> pipeQueue == old(pipeQueue) + [PipeEntry(dest, pipeOptions)] && attached == old(attached)
    {
      if response.Some? {
        Attach(dest, pipeOptions);
      } else {
        pipeQueue := pipeQueue + [PipeEntry(dest, pipeOptions)];
      }
      r := dest;
    }

    /** `_pipe`: `Stream.prototype.pipe`, recorded as one attachment. */
    method Attach(dest: Sink, pipeOptions: Option<PipeOptions>)
      modifies this`attached
      ensures attached == old(attached) + [PipeEntry(dest, pipeOptions)]
    {
      attached := attached + [PipeEntry(dest, pipeOptions)];
    }

    /** `_applyQueue`: attach every queued entry once, first queued first; the queue stays as it is. */
    method ApplyQueue()
      modifies this`attached
      ensures attached == old(attached) + pipeQueue
    {
      var i := 0;
      while i < |pipeQueue|
        invariant 0 <= i <= |pipeQueue|
        invariant attached == old(attached) + pipeQueue[..i]
      {
        Attach(pipeQueue[i].dest, pipeQueue[i].options);
        assert pipeQueue[..i + 1] == pipeQueue[..i] + [pipeQueue[i]];
        i := i + 1;
      }
      assert pipeQueue[..i] == pipeQueue;
    }
  }

  /**
   * Two pipes made before any response are queued, not attached; applying
   * the queue then attaches them in the order they were made.
   */
  method PipesBeforeResponse(a: Sink, b: Sink, opts: Option<PipeOptions>) returns (m: Modified)
    ensures m.pipeQueue == [PipeEntry(a, opts), PipeEntry(b, None)]
    ensures m.attached == [PipeEntry(a, opts), PipeEntry(b, None)]
  {
    m := new Modified(None);
    var ra := m.Pipe(a, opts);
    var rb := m.Pipe(b, None);
    assert ra == a && rb == b && m.attached == [];
    m.ApplyQueue();
  }
}
