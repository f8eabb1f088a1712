# node-modified in Dafny

A model of the conditional-request HTTP cache `node-modified`. A request is
mapped to a cache location. The validators stored there (`etag`,
`last-modified`) become `If-None-Match` / `If-Modified-Since` on the
outgoing request. A 304 reply is answered from the cached body. Any other
reply is written to the cache.

The repository holds two variants of this pipeline, and both are modelled:

- `lib/modified.js`:
  - a header file `<data>.modified-headers.json` stored beside the data file;
  - a default mapper to `HOME/.node_modified/…`;
  - a request that starts from the constructor.
- `index.js`:
  - one record file per location, read and written through an abstract record codec;
  - `read`, `save` and `cacheMapper` that can be overridden;
  - a pipe queue.

Modules:

- `Wrappers`: `Option` and `Result`.
- `Http`:
  - requests, responses, bodies, transport replies, mapper results;
  - JavaScript truthiness of bodies;
  - the `Options` object that the core edits in place.
- `Disk`: the file system as a map from path to content, with failing paths given as a parameter.
- `NodePath`: POSIX `path.dirname` and `path.basename`; `path.join` with the normalisation of `path.normalize` (empty segments and `.` dropped, `..` resolved); joining and splitting on the separator.
- `UriComponent`: `encodeURIComponent` over Unicode scalar values, with a percent-decoder and a UTF-8 decoder as its partners.
- `Conditional`: the header decorator shared by both variants, as a map function and as an in-place method; the revalidating origin of the repository's tests.
- `LibCache`: `_readCacheInfo`, `_getHeaderPath`, `_sendResponseBody` and `_saveResponse` of `lib/modified.js`.
- `LibModified`: of `lib/modified.js`:
  - the default `_cacheMapper` and `_mapCache`;
  - the `_request` pipeline;
  - the class `Modified`.
- `IndexModified`: `index.js`:
  - `_read` and `_save`;
  - `request`;
  - `_getFilePath`;
  - the class `Modified` with `pipe`, `_pipe` and `_applyQueue`.

The effects are modelled as follows:

- **The HTTP transport** is a function `send: Request -> Transport` passed in.
- **`JSON.parse`, `JSON.stringify`, `modified.parse` and `modified.stringify`** are codecs: datatypes of functions passed in.
- **The file system** is the `Disk` class (a `files` map), which the methods update.
- **Write failures** are a `Faults` value: a failing `mkdirp` and a set of unwritable paths.
- **`USER_HOME` and the parsed URL** are parameters.
- **"Absent or falsy".** An empty string stands for an absent or falsy string: a URL component, or a mapper's file. `None` stands for an absent object.

Three behaviours of the code that a reader might expect to be otherwise are
modelled as the code has them:

- When the stored record holds both validators, `lib/modified.js:83-91` and
  `index.js:49-57` set both conditional headers. No ETag alone takes priority.
- In `lib/modified.js:143-166`, a failing `mkdirp` or a failing write is passed
  to the callback as its error, together with the response and the body.
- On a 304, `lib/modified.js:135-139` gives the callback a null error and
  whatever the read of the data file gave. When the data file is missing, the
  body is undefined rather than an error.

## Model

| member | source | states |
|---|---|---|
| Http.FileOf | lib/modified.js:183-185 | A mapper result names a cache file exactly when it succeeded with a truthy (non-empty) path, and then it is that path. |
| Disk.WriteResult | lib/modified.js:152-158 | A write to an unwritable path fails with an I/O error and changes nothing; otherwise exactly that path gets the content. |
| Disk.Disk.ReadFile | lib/modified.js:192-195 | Reading gives the file's content, or nothing when it does not exist. |
| Disk.Disk.Exists | lib/modified.js:199-201 | `fs.exists` holds exactly for the paths present. |
| Disk.Disk.WriteFile | lib/modified.js:152-158 | The new file system and the error are those of `WriteResult`. |
| NodePath.Dirname | lib/modified.js:226 | The directory of a path is `.`, `/`, or a proper prefix of the path. |
| NodePath.Basename | index.js:149 | The base name never contains a separator. |
| NodePath.Normalize | lib/modified.js:285 | Normalising never gives the empty path, and it keeps a leading and a trailing separator. |
| NodePath.JoinPath | lib/modified.js:285 | `path.join` never gives the empty path, and it is absolute when its first operand is. |
| NodePath.JoinSegmentsAppend | lib/modified.js:283 | Joining two non-empty lists of segments is joining each, with one separator between them. |
| NodePath.JoinSegmentsLast | lib/modified.js:283 | A join whose last segment is non-empty is non-empty and ends in that segment's last character. |
| NodePath.SplitJoin | lib/modified.js:283 | Splitting a separator-join of separator-free segments gives the segments back. |
| NodePath.NormalizeAbsolutePlain | lib/modified.js:285 | An absolute path of plain segments (non-empty, separator-free, neither `.` nor `..`) is unchanged by normalisation. |
| NodePath.JoinBelowPlain | lib/modified.js:285 | `path.join` of an absolute plain directory and plain segments is the directory, a separator and the segments, and is itself an absolute plain path. |
| NodePath.JoinBelowPlainDot | lib/modified.js:285 | A last segment `.` below an absolute plain directory resolves away. |
| NodePath.JoinBelowPlainDotDot | lib/modified.js:285 | A last segment `..` below an absolute plain directory gives the directory of the path without it. |
| NodePath.DirnameBelowPlain | lib/modified.js:226 | Below an absolute plain directory, the directory of two or more plain segments drops the last one, and the path does not end in a separator. |
| NodePath.DirnameOfExtension | lib/modified.js:222-236 | Appending a separator-free suffix to a path that does not end in a separator keeps its directory. |
| NodePath.DirnameOfChild | index.js:148-151 | A separator-free name below a directory that does not end in a separator has that directory. |
| NodePath.BasenameOfJoinPath | index.js:149-151 | `path.join` of any non-empty directory with a plain name has that name as its base name, whatever normalisation does to the directory. |
| UriComponent.Utf8 | lib/modified.js:282 | Every code point encodes to 1 to 4 bytes, and ASCII to its own code. |
| UriComponent.Utf8DecodeFirst | lib/modified.js:282 | A decoded first character takes between 1 and 4 bytes, never more than there are. |
| UriComponent.Utf8DecodeEncode | lib/modified.js:282 | UTF-8-decoding the encoding of any string gives the string back. |
| UriComponent.Utf8StringInjective | lib/modified.js:282 | Distinct strings have distinct UTF-8 encodings. |
| UriComponent.EncodeUriComponent | lib/modified.js:282 | The encoding consists of unreserved characters and `%` only, so it never contains `/`, and it is never shorter than the input. |
| UriComponent.EncodeUnreservedIdentity | lib/modified.js:282 | A string of unreserved characters is its own encoding. |
| UriComponent.DecodeEscape | lib/modified.js:282 | The `%XY` escapes of a byte string decode back to those bytes, in front of whatever follows. |
| UriComponent.DecodeEncode | lib/modified.js:282 | Percent-decoding the encoding of any string gives exactly its UTF-8 bytes. |
| UriComponent.DecodeComponentEncode | lib/modified.js:282 | Percent-decoding and then UTF-8-decoding the encoding of any string gives the string back. |
| UriComponent.EncodeUriComponentInjective | lib/modified.js:282 | Distinct strings have distinct encodings. |
| Conditional.Decorate | lib/modified.js:80-96 | With a record, `etag` sets `if-none-match` and `last-modified` sets `if-modified-since`, each independently, and a missing validator keeps the caller's value. Without a record both conditional headers are removed. No other header changes. |
| Conditional.DecorateIdempotent | lib/modified.js:93-96 | Decorating twice with the same record is decorating once; in particular, deleting is idempotent. |
| Conditional.EmptyRecordKeepsHeaders | lib/modified.js:83-91 | An empty record, which is truthy, leaves every caller header in place, conditional ones included. |
| Conditional.DecorateOptions | lib/modified.js:81-96 | `options.headers` becomes the decoration of `options.headers \|\| {}`, and nothing else in the options changes. |
| LibCache.HeaderPath | lib/modified.js:234-236 | The header path is the data path followed by `.modified-headers.json`. |
| LibCache.HeaderPathInjective | lib/modified.js:234-236 | A header path is never its own data path, and distinct data paths have distinct header paths. |
| LibCache.HeaderFileBesideData | lib/modified.js:222-236 | The header file lies in the same directory as its data file. |
| LibCache.CacheInfoOf | lib/modified.js:175-230 | A mapper error fails the lookup. No file gives `{}`. Otherwise the paths are the file, the file plus the header suffix, and the file's dirname. The stored record is in effect only if the header file was read, the data file exists and the JSON parses; in every other case the record is `{}`, never an error. |
| LibCache.StoredBody | lib/modified.js:151-154 | A string body is stored verbatim, any other body as its JSON. |
| LibCache.SaveOutcome | lib/modified.js:143-166 | The callback always gets the response and the body. On a mkdir failure, no file changes and the error is reported. Otherwise the data file gets the string body verbatim or its JSON, the header file gets the JSON of the response headers, no other path changes, and the error is absent exactly when both writes succeed. |
| LibCache.NotModifiedOutcome | lib/modified.js:135-139 | A 304 gives a null error and the response; the body is the data file's content when that file exists, and undefined exactly when it does not. |
| LibCache.ResponseOutcome | lib/modified.js:98-108 | A transport error is passed on with no cache change. On 304 nothing is written, the error is null, and the body is the data file's content exactly when that file exists. Any other status is saved. |
| LibCache.SaveThenRead | lib/modified.js:135-230 | After a save without failures, reading the location back puts the response's headers in effect, and a 304 then yields the stored body. |
| LibModified.ProtocolSegment | lib/modified.js:273 | The protocol loses one trailing `:`, and becomes `unknown` when empty. |
| LibModified.NonEmpty | lib/modified.js:281 | `filter(Boolean)` keeps exactly the non-empty components (membership both ways), never more than there were, and leaves a list without empty entries unchanged. |
| LibModified.NonEmptyMultiset | lib/modified.js:281 | The filter keeps every non-empty component as often as it occurs and drops every empty one. |
| LibModified.NonEmptyAppend | lib/modified.js:281 | Filtering a concatenation is concatenating the filtered parts. |
| LibModified.CacheSegmentsShape | lib/modified.js:270-283 | The segments are `.node_modified`, the encoded protocol, then the encoded non-empty ones of auth, host, port, path and query. |
| LibModified.CacheSegmentsWellFormed | lib/modified.js:279-283 | There are at least two segments, and none is empty or contains a separator. |
| LibModified.CacheSegmentsPlain | lib/modified.js:279-283 | When no kept component is `.` or `..`, every segment is plain, so normalisation keeps it. |
| LibModified.DefaultCachePath | lib/modified.js:268-286 | The default path is never empty, and it is absolute when the home directory is. |
| LibModified.DefaultPathLayout | lib/modified.js:283-285 | Below an absolute plain home directory, and when no kept component is `.` or `..`, the default path is `HOME/` followed by the joined segments. |
| LibModified.DefaultPathRecoverable | lib/modified.js:268-286 | Under the hypotheses of `DefaultPathLayout`, splitting the part below `HOME` gives the segments back, one per non-empty component; each decodes to its component and percent-decodes to that component's UTF-8. |
| LibModified.EncodeAllInjective | lib/modified.js:282 | Encoding a list of components one by one is injective. |
| LibModified.DefaultPathInjective | lib/modified.js:268-286 | Under the same hypotheses, two URLs share a default path only when they have the same non-empty components in the same order. |
| LibModified.DotQueryMergesLocations | lib/modified.js:279-285 | Because `path.join` resolves `.`, a URL with the query `.` is cached in the very file of the same URL without a query. |
| LibModified.DotDotQueryClimbs | lib/modified.js:279-285 | Because `path.join` resolves `..`, the data file of a URL with the query `..` is the cache directory of the same URL without a query. |
| LibModified.DefaultCacheDirectory | lib/modified.js:222-227 | Under the hypotheses of `DefaultPathLayout`, the cache directory of a default path is the path without its last segment, and the header file lies there too. |
| LibModified.OmissionMergesLocations | lib/modified.js:274-281 | Because empty components are dropped, user `h` at host `8080` and host `h` at port `8080` share a location. |
| LibModified.MapperFor | lib/modified.js:27-32 | Without a `cacheMapper` key the home-directory mapping stays; a `cacheMapper: null` key disables the cache; a given function replaces the mapping. |
| LibModified.MapCache | lib/modified.js:251-265 | Only a custom mapper can fail; a disabled mapping yields no file, the home-directory one always a file, a custom one its own answer. |
| LibModified.MapperOptions | lib/modified.js:27-32 | Without a `cacheMapper` option the request is cached at the default path; `cacheMapper: null` means no file. |
| LibModified.RunRequest | lib/modified.js:62-108 | A mapper error ends the request before anything is sent, with no file change. A sent request keeps the caller's method and URL. A transport error reaches the callback with no file change, and otherwise the callback gets the response that arrived. With no location the reply passes through: the corrected branch of the Findings table. |
| LibModified.NoLocationBypassesCache | lib/modified.js:183-185 | With no file, no file changes, both conditional headers are removed, the other headers are kept, and the reply reaches the callback unchanged. |
| LibModified.CorruptValidatorsTolerated | lib/modified.js:205-220 | A header file that does not parse is an empty record: the request goes out with exactly the caller's headers. |
| LibModified.LocatedRequest | lib/modified.js:98-108 | With a cache location, the request is sent decorated with its validators, and the reply is handled against the cache. |
| LibModified.ColdStartThenRevalidate | lib/modified.js:62-166 | Against an origin that answers 304 to its current ETag: a first request stores the fresh response, and a second sends that ETag, gets 304 and receives the body the first stored. |
| LibModified.ResponseAsWritten | lib/modified.js:98-108 | The request callback as written throws exactly when there is no cache location and a reply arrived; with a location it agrees with `ResponseOutcome`. |
| LibModified.DisabledCacheThrowsAsWritten | lib/modified.js:103-107 | With `cacheMapper: null`, the callback as written throws for every reply, while the corrected pipeline passes the reply through. |
| LibModified.Modified.constructor | lib/modified.js:18-42 | The constructor copies `cacheMapper`, takes out the callback, defaults the method to `GET`, then runs the request pipeline, with the state that `RunRequest` describes, including its corrected no-location branch. |
| LibModified.Modified.IssueRequest | lib/modified.js:62-108 | `_request` leaves `options.headers`, `self.req`, `self._response`, the file system and the callback's arguments as `RunRequest` describes them. With no location it passes the reply through (the corrected branch of the Findings table), where the code as written throws. |
| LibModified.Modified.ReadCacheInfo | lib/modified.js:175-230 | The method computes exactly `CacheInfoOf` for the mapper in effect over the current files. |
| LibModified.Modified.SendResponseBody | lib/modified.js:135-139 | The callback gets a null error, the response, and the data file's content if the read succeeded. |
| LibModified.Modified.SaveResponse | lib/modified.js:143-166 | mkdir, then the two writes, leave the files and the callback's arguments as `SaveOutcome` describes them. |
| IndexModified.ReadCache | index.js:93-116 | A custom `read` answers for itself. With the default read, a mapper error is passed on, no file means no record, an unreadable file is an error with no headers or data, and otherwise the parsed record's headers and data are reported. This is the corrected read of the Findings table. |
| IndexModified.SaveCache | index.js:122-143 | A custom `save` reports its own error. With the default save, a mapper error is reported, no file means success without a write, and otherwise the record is written to that file. The error is present exactly when the write fails. This is the corrected save of the Findings table. |
| IndexModified.MapCacheIndex | index.js:185-199 | Only a custom mapper can fail; the prototype's mapper yields no file; a custom one gives its own answer. |
| IndexModified.CachedOr | index.js:71 | `data \|\| body` is one of the two: the cached data when that is truthy, the body otherwise. |
| IndexModified.RunIndexRequest | index.js:41-86 | A sent request keeps the caller's method and URL. The callback's arguments exist exactly when there is a callback. Without a callback, after a transport error or on 304, no file changes. A transport error is passed on; any reply reaches the callback with a null error and its own response. |
| IndexModified.NotModifiedAnswer | index.js:70-71 | A 304 changes no file and gives the callback `data \|\| body`. |
| IndexModified.SaveErrorDiscarded | index.js:74-76 | Whichever files can be written, the request and the callback's arguments are the same; for a fresh response they are the reply itself. |
| IndexModified.ReadErrorIgnored | index.js:44-62 | `read_err` is ignored: under the default read, a failed read strips both conditional headers, and a 304 then passes on the response body. |
| IndexModified.NoFileBypassesCache | index.js:93-143 | A mapper that yields no file bypasses the cache: the conditional headers are removed, no file changes, and the reply reaches the callback as it came. |
| IndexModified.DefaultMapperCachesNothing | index.js:202-205 | The prototype's `_cacheMapper` yields no file. |
| IndexModified.CachedRecordRevalidated | test/modified.js:93-124 | A cached record with an `etag` and truthy data gives a request carrying that ETag, an answer of 304, and the cached data as the body. |
| IndexModified.FreshResponseStored | index.js:65-77 | A fresh response is stored as the record of its headers and body, and the callback gets the reply. |
| IndexModified.ReadAsWritten | index.js:99-115 | The built-in read as written never reports a record: with a cache file it always fails, because `fs.read` is given a path; without one it agrees with `ReadCache`. |
| IndexModified.SaveAsWritten | index.js:125-142 | The built-in save as written never writes: with a cache file it throws, and otherwise it agrees with `SaveCache`. |
| IndexModified.RunIndexAsWritten | index.js:41-86 | The request as written keeps the caller's method and URL, has callback arguments exactly when there is a callback, and always completes without a callback. |
| IndexModified.DescriptorCallsNeverCache | index.js:41-143 | With the built-in read and save as written, every request goes out without conditional headers and no file changes. The reply reaches the callback unchanged, except that a fresh response, with a callback and a cache file, throws. |
| IndexModified.CachedRecordIgnoredAsWritten | test/modified.js:93-124 | For the cached record of `CachedRecordRevalidated`, the code as written sends no ETag, receives the full response, and throws while saving it. |
| IndexModified.FilePath | index.js:147-152 | The binary file's path is never empty, and it is absolute when the cache file's directory is. |
| IndexModified.FilePathPlacement | index.js:147-152 | The binary file keeps the URL's base name when that is a plain name; when the cache file's directory is an absolute plain path, the binary file lies in that directory. |
| IndexModified.Modified.constructor | index.js:13-27 | Only truthy `read`, `save` and `cacheMapper` options replace the defaults; `options \|\| {}` is kept; the queue starts empty. |
| IndexModified.Modified.IssueRequest | index.js:41-86 | `request` leaves `options.headers`, the files and the callback's arguments as `RunIndexRequest` describes them, over the corrected read and save. |
| IndexModified.Modified.Read | index.js:93-116 | The method computes exactly `ReadCache` for the methods in effect. |
| IndexModified.Modified.Save | index.js:122-143 | The new files and the error are those of `SaveCache`. |
| IndexModified.Modified.Pipe | index.js:155-169 | `pipe` returns `dest`. With a known response it attaches at once and leaves the queue alone; otherwise it appends exactly one `{dest, options}` to the queue and attaches nothing. |
| IndexModified.Modified.Attach | index.js:172-174 | `_pipe` adds exactly one attachment. |
| IndexModified.Modified.ApplyQueue | index.js:177-181 | Every queued entry is attached exactly once, in FIFO order, and the queue is not modified. |
| IndexModified.PipesBeforeResponse | index.js:155-181 | Two pipes made before a response are queued in order, and applying the queue attaches them in that order. |

## Left out

- Streams and events are not modelled:
  - the `data`, `response`, `end`, `complete` and `error` emissions;
  - `Stream.prototype.pipe` itself;
  - the streaming of a 304 body from the data file;
  - lib's `pipe`, `write` and `end` forwarding (lib/modified.js:65-73, 110-127, 239-246, 289-300).

  They are runtime behaviour of Node streams. `_pipe` is modelled as one entry in an attachment log.
- `async.parallel` scheduling is not modelled. The two reads and the two writes run one after the other, data file first. When both writes fail, the model reports the data file's error, whereas Node reports whichever fails first.
- `LibCache.SaveOutcome`: `mkdirp` is one success-or-failure flag. The creation of intermediate directories is not modelled.
- The HTTP transport, `node_url.parse` and the `USER_HOME` lookup are parameters: `send`, a parsed `Url` and `home`.
- `JSON.parse` and `JSON.stringify` are abstract codecs. So are `modified.parse` and `modified.stringify` (index.js:113, 134), whose format cannot be checked because `modified` is not defined in index.js. JSON that parses into something other than an object is not distinguished.
- `IndexModified.ReadCache`, `IndexModified.SaveCache` and the methods `Modified.Read` and `Modified.Save` read and write whole files, as the `fs-sync` module used by test/modified.js does. The code as written is `ReadAsWritten` and `SaveAsWritten` (see Findings).
- Custom `read` and `save` options are pure functions of their arguments. Any file effects they have are not modelled.
- `NodePath.JoinPath`: only POSIX `path.join` is modelled; Windows separators and `USERPROFILE` are left out.
- `LibModified.DefaultPathLayout`, `LibModified.DefaultPathRecoverable`, `LibModified.DefaultPathInjective` and `LibModified.DefaultCacheDirectory` assume a home directory that is an absolute path of plain segments (`AbsolutePlain`), and a URL none of whose kept components is `.` or `..` (`DotFree`). `path.join` resolves those two names, so without that hypothesis the layout does not hold; `DotQueryMergesLocations` and `DotDotQueryClimbs` state what happens then. An unset or relative `USER_HOME` is not covered.
- `NodePath.JoinSegments` carries no contract of its own; its properties are the lemmas `JoinSegmentsAppend`, `JoinSegmentsLast` and `SplitJoin`.
- `UriComponent.EncodeUriComponent`: strings are sequences of Unicode scalar values, so the `URIError` that JavaScript raises for a lone surrogate cannot arise.
- `LibModified.Modified.IssueRequest`: it records the arguments the callback receives whether or not a callback was given. Without a callback, lib/modified.js:76-78 calls `undefined` on a mapper error and throws; the model does not represent that throw.
- A `_cacheMapper` set to a falsy value on an instance after construction is not modelled separately. Such a mapper hits index.js:189-198 and lib/modified.js:254-263, where it yields no file. The model's `IndexModified.NoFileMapper` and `LibModified.Disabled` have the same effect.
- `return this` and `return dest` chaining only matter in JavaScript and are not modelled beyond `Pipe`'s result. Nothing in index.js assigns `_response` or calls `_applyQueue`; the model keeps both so that their behaviour can be stated.
- The constructors' `forEach` over option names is written out key by key: in lib, over the single name `cacheMapper`; in index.js, over `read`, `save` and `cacheMapper`.

## Findings

| source | as written | input that shows it | evidently intended | confidence | as-written member | corrected member |
|---|---|---|---|---|---|---|
| lib/modified.js:103-107 | The request callback uses `info.data_file` on 304 and `info.dir` otherwise, even when the mapper gave no file and `info` is `{}`. `fs.readFile(undefined)` and `mkdirp(undefined)` then throw a `TypeError`. | `new Modified({cacheMapper: null, url: …})`, with any reply from the server | With no cache location, pass the reply to the callback untouched. The comment at lib/modified.js:257-262 gives `Modified({cacheMapper: null})` as the way to disable the cache, and `_readCacheInfo` answers `{}` for that case (lib/modified.js:183-185) | high, not executed | LibModified.ResponseAsWritten (shown by LibModified.DisabledCacheThrowsAsWritten) | LibModified.RunRequest (proved by LibModified.NoLocationBypassesCache) |
| index.js:108, index.js:134-137 | `_read` passes a path to Node's `fs.read(file)` and `_save` passes one to `fs.write(file, cache)`, both of which take a file descriptor; `fs.read` throws and its error is handed on, so no record is ever read. Before the write, `modified.stringify` names something index.js never defines, so `_save` throws a `ReferenceError` out of the request callback. | any `cacheMapper` that names a file, such as the one of test/modified.js:94-98 with the record written at test/modified.js:100-108 | Read and write the whole cache file, as test/modified.js does with `fs-sync`, so that a stored ETag goes out as `If-None-Match` and a 304 yields the cached data (test/modified.js:110-123) | medium, not executed | IndexModified.ReadAsWritten, IndexModified.SaveAsWritten, IndexModified.RunIndexAsWritten (shown by IndexModified.DescriptorCallsNeverCache and IndexModified.CachedRecordIgnoredAsWritten) | IndexModified.ReadCache, IndexModified.SaveCache, IndexModified.RunIndexRequest (proved by IndexModified.CachedRecordRevalidated) |
