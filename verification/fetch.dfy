/**
  One fetch task (fetchOne in main.go) as a pure transition on the store:
  look up the stored validators, send a conditional GET, and on a 200 save
  the body under the dated file name and replace the URL's metadata entry.
  The network, the disk and the foreign parsers are inputs.
 */
module Fetch {
  import opened Http
  import opened Paths

  /** The validators remembered for one URL; "" means "none known". */
  datatype MetadataEntry = MetadataEntry(lastModified: string, etag: string)

  /** The metadata store, keyed by URL. */
  type Metadata = map<string, MetadataEntry>

  /** The zero value a lookup of a missing URL yields. */
  const NoEntry: MetadataEntry := MetadataEntry("", "")

  /** metadata[url] on a Go map: the stored entry, or the zero value with
      no validators when the URL has never been fetched successfully. */
  function Lookup(m: Metadata, url: string): (e: MetadataEntry)
    ensures url in m ==> e == m[url]
    ensures url !in m ==> e.lastModified == "" && e.etag == ""
  {
    if url in m then m[url] else NoEntry
  }

  /** `m1` and `m2` agree on `k`: both lack it or both map it alike. */
  predicate SameEntry<K, V(==)>(m1: map<K, V>, m2: map<K, V>, k: K)
  {
    (k in m1 <==> k in m2) && (k in m1 ==> m1[k] == m2[k])
  }

  /** One (directory, URL) pair of the catalog. */
  datatype Task = Task(dir: string, url: string)

  /** What is fixed for a whole run: the date stamp, and the two library
      parsers the step consults (URL parsing inside http.NewRequest and
      http.ParseTime, which accepts the HTTP-date formats of section
      7.1.1.1 of RFC 7231). */
  datatype Context = Context(
    today: string,
    parsesAsUrl: string -> bool,
    isHttpDate: string -> bool)

  /** How saving the body went: temp file creation, copy, rename. The
      error of closing the temporary file is discarded by fetchOne, so
      `Written` stands for a close that kept the whole body. */
  datatype DiskOutcome = Written | CreateTempFailed | CopyFailed | RenameFailed

  /** The world as one task sees it: the reply the server gives to the
      request actually sent, and how the disk behaves. */
  datatype TaskIO = TaskIO(server: Request -> Reply, disk: DiskOutcome)

  datatype FetchError =
    | BadRequest
    | TransportError
    | UnexpectedStatus(status: int)
    | CreateTempError
    | CopyError
    | RenameError

  /** fetchOne's return value: nil or an error. */
  datatype Outcome = Ok | Failed(error: FetchError)

  /** Everything a task can change: the metadata map and the saved files. */
  datatype Store = Store(metadata: Metadata, files: map<string, seq<bv8>>)

  datatype StepResult = StepResult(outcome: Outcome, store: Store)

  /** The precondition headers sent for a stored entry: If-Modified-Since
      (section 3.3 of RFC 7232) and If-None-Match (section 3.2 of RFC 7232),
      each only when the stored value is non-empty, carrying exactly it. */
  function ConditionalHeaders(e: MetadataEntry): (h: Headers)
    ensures IfModifiedSince in h <==> e.lastModified != ""
    ensures IfModifiedSince in h ==> h[IfModifiedSince] == e.lastModified
    ensures IfNoneMatch in h <==> e.etag != ""
    ensures IfNoneMatch in h ==> h[IfNoneMatch] == e.etag
    ensures h.Keys <= {IfModifiedSince, IfNoneMatch}
  {
    var none: Headers := map[];
    var withDate := if e.lastModified != "" then none[IfModifiedSince := e.lastModified] else none;
    if e.etag != "" then withDate[IfNoneMatch := e.etag] else withDate
  }

  /** The validators a request carries, read back from its headers. */
  function ValidatorsOf(h: Headers): MetadataEntry
  {
    MetadataEntry(Get(h, IfModifiedSince), Get(h, IfNoneMatch))
  }

  /** The conditional headers lose nothing: the stored entry can be read
      back from the request exactly. */
  lemma ValidatorsRoundTrip(e: MetadataEntry)
    ensures ValidatorsOf(ConditionalHeaders(e)) == e
  {
  }

  /** The GET request sent for `url` given its stored entry. */
  function BuildRequest(url: string, e: MetadataEntry): Request
  {
    Request("GET", url, ConditionalHeaders(e))
  }

  /** The request is a GET of exactly `url` whose only headers are the
      conditional ones, and the stored entry can be read back from it. */
  lemma BuildRequestShape(url: string, e: MetadataEntry)
    ensures var req := BuildRequest(url, e);
      && req.verb == "GET" && req.url == url
      && req.header.Keys <= {IfModifiedSince, IfNoneMatch}
      && ValidatorsOf(req.header) == e
  {
    ValidatorsRoundTrip(e);
  }

  /** A URL with no stored entry is fetched unconditionally: its request
      carries no header at all. */
  lemma FirstFetchUnconditional(m: Metadata, url: string)
    requires url !in m
    ensures BuildRequest(url, Lookup(m, url)).header == map[]
  {
    var h := BuildRequest(url, Lookup(m, url)).header;
    assert IfModifiedSince !in h && IfNoneMatch !in h;
  }

  /** The entry recorded after a 200: Last-Modified only when it is
      non-empty and parses as an HTTP-date, ETag when non-empty; nothing is
      carried over from the previous entry. */
  function NewEntry(ctx: Context, h: Headers): (e: MetadataEntry)
    ensures e.lastModified != "" <==> Get(h, LastModified) != "" && ctx.isHttpDate(Get(h, LastModified))
    ensures e.lastModified != "" ==> e.lastModified == Get(h, LastModified)
    ensures e.etag != "" <==> Get(h, ETag) != ""
    ensures e.etag != "" ==> e.etag == Get(h, ETag)
  {
    var lm := Get(h, LastModified);
    var etag := Get(h, ETag);
    MetadataEntry(
      if lm != "" && ctx.isHttpDate(lm) then lm else "",
      if etag != "" then etag else "")
  }

  /** The reply the task receives, given what the store holds for its URL. */
  function ReplyFor(task: Task, io: TaskIO, st: Store): Reply
  {
    io.server(BuildRequest(task.url, Lookup(st.metadata, task.url)))
  }

  /** The server answered 304 Not Modified. */
  predicate NotModified(ctx: Context, task: Task, io: TaskIO, st: Store)
  {
    && ctx.parsesAsUrl(task.url)
    && ReplyFor(task, io, st).Answered?
    && ReplyFor(task, io, st).response.status == StatusNotModified
  }

  /** The server answered 200 OK and the body reached its final file. */
  predicate Downloaded(ctx: Context, task: Task, io: TaskIO, st: Store)
  {
    && ctx.parsesAsUrl(task.url)
    && ReplyFor(task, io, st).Answered?
    && ReplyFor(task, io, st).response.status == StatusOK
    && io.disk == Written
  }

  /** fetchOne: one conditional fetch of `task.url` into `task.dir`. */
  function FetchOne(ctx: Context, task: Task, io: TaskIO, st: Store): (r: StepResult)
    // Success means a 304, or a 200 whose body was saved; all else is an error.
    ensures r.outcome.Ok? <==> NotModified(ctx, task, io, st) || Downloaded(ctx, task, io, st)
    // Only a completed download changes anything; a 304 and every error
    // leave both the metadata and the files exactly as they were.
    ensures !Downloaded(ctx, task, io, st) ==> r.store == st
    // A download replaces the URL's entry wholesale and puts exactly the
    // response body at the dated output path.
    ensures Downloaded(ctx, task, io, st) ==>
      var resp := ReplyFor(task, io, st).response;
      && r.store.metadata == st.metadata[task.url := NewEntry(ctx, resp.header)]
      && r.store.files == st.files[OutputPath(task.dir, task.url, ctx.today) := resp.body]
    // The task touches no other URL's entry and no other file.
    ensures forall url :: url != task.url ==> SameEntry(st.metadata, r.store.metadata, url)
    ensures forall path :: path != OutputPath(task.dir, task.url, ctx.today) ==>
      SameEntry(st.files, r.store.files, path)
    // Which error is reported.
    ensures !ctx.parsesAsUrl(task.url) ==> r.outcome == Failed(BadRequest)
    ensures ctx.parsesAsUrl(task.url) && ReplyFor(task, io, st).TransportFailure? ==>
      r.outcome == Failed(TransportError)
    ensures ctx.parsesAsUrl(task.url) && ReplyFor(task, io, st).Answered? ==>
      var status := ReplyFor(task, io, st).response.status;
      && (status != StatusOK && status != StatusNotModified ==> r.outcome == Failed(UnexpectedStatus(status)))
      && (status == StatusOK && io.disk == CreateTempFailed ==> r.outcome == Failed(CreateTempError))
      && (status == StatusOK && io.disk == CopyFailed ==> r.outcome == Failed(CopyError))
      && (status == StatusOK && io.disk == RenameFailed ==> r.outcome == Failed(RenameError))
  {
    if !ctx.parsesAsUrl(task.url) then
      StepResult(Failed(BadRequest), st)
    else
      match ReplyFor(task, io, st)
      case TransportFailure => StepResult(Failed(TransportError), st)
      case Answered(resp) =>
        if resp.status == StatusNotModified then
          StepResult(Ok, st)
        else if resp.status != StatusOK then
          StepResult(Failed(UnexpectedStatus(resp.status)), st)
        else
          match io.disk
          case CreateTempFailed => StepResult(Failed(CreateTempError), st)
          case CopyFailed => StepResult(Failed(CopyError), st)
          case RenameFailed => StepResult(Failed(RenameError), st)
          case Written =>
            var path := OutputPath(task.dir, task.url, ctx.today);
            StepResult(Ok, Store(
              st.metadata[task.url := NewEntry(ctx, resp.header)],
              st.files[path := resp.body]))
  }

  /** A task reads nothing of the metadata but its own URL's entry: two
      stores that agree there give the same outcome, and still agree there
      afterwards. */
  lemma FetchOneReadsOnlyOwnEntry(ctx: Context, task: Task, io: TaskIO, st1: Store, st2: Store)
    requires SameEntry(st1.metadata, st2.metadata, task.url)
    ensures FetchOne(ctx, task, io, st1).outcome == FetchOne(ctx, task, io, st2).outcome
    ensures SameEntry(FetchOne(ctx, task, io, st1).store.metadata,
                      FetchOne(ctx, task, io, st2).store.metadata, task.url)
  {
    assert Lookup(st1.metadata, task.url) == Lookup(st2.metadata, task.url);
    assert ReplyFor(task, io, st1) == ReplyFor(task, io, st2);
  }

  /** After a download, the next request for the URL carries the response's
      ETag as If-None-Match and its Last-Modified as If-Modified-Since, each
      exactly when it was recorded. */
  lemma NextRequestCarriesValidators(ctx: Context, task: Task, io: TaskIO, st: Store)
    requires Downloaded(ctx, task, io, st)
    ensures var h := ReplyFor(task, io, st).response.header;
      var next := FetchOne(ctx, task, io, st).store.metadata;
      var sent := BuildRequest(task.url, Lookup(next, task.url)).header;
      && (IfNoneMatch in sent <==> Get(h, ETag) != "")
      && (IfNoneMatch in sent ==> sent[IfNoneMatch] == Get(h, ETag))
      && (IfModifiedSince in sent <==> Get(h, LastModified) != "" && ctx.isHttpDate(Get(h, LastModified)))
      && (IfModifiedSince in sent ==> sent[IfModifiedSince] == Get(h, LastModified))
  {
  }

  /** The server honours If-None-Match for `url` and `etag` (section 3.2 of
      RFC 7232): any GET of `url` carrying that tag gets 304. */
  ghost predicate HonoursETag(server: Request -> Reply, url: string, etag: string)
  {
    forall req: Request :: req.url == url && Get(req.header, IfNoneMatch) == etag ==>
      server(req).Answered? && server(req).response.status == StatusNotModified
  }

  /** With a stored ETag the server still matches, the task succeeds and
      changes nothing. */
  lemma UnchangedWhenETagMatches(ctx: Context, task: Task, io: TaskIO, st: Store)
    requires ctx.parsesAsUrl(task.url)
    requires Lookup(st.metadata, task.url).etag != ""
    requires HonoursETag(io.server, task.url, Lookup(st.metadata, task.url).etag)
    ensures FetchOne(ctx, task, io, st) == StepResult(Ok, st)
  {
    var req := BuildRequest(task.url, Lookup(st.metadata, task.url));
    assert Get(req.header, IfNoneMatch) == Lookup(st.metadata, task.url).etag;
    assert NotModified(ctx, task, io, st);
  }

  /** Idempotent re-runs: after a download whose response had an ETag, a
      second run against a server that honours that ETag reports success,
      writes no file and leaves the metadata as the first run left it. */
  lemma SecondRunUnchanged(ctx: Context, task: Task, first: TaskIO, second: TaskIO, st: Store)
    requires Downloaded(ctx, task, first, st)
    requires Get(ReplyFor(task, first, st).response.header, ETag) != ""
    requires HonoursETag(second.server, task.url, Get(ReplyFor(task, first, st).response.header, ETag))
    ensures var after := FetchOne(ctx, task, first, st).store;
      FetchOne(ctx, task, second, after) == StepResult(Ok, after)
  {
    var after := FetchOne(ctx, task, first, st).store;
    assert Lookup(after.metadata, task.url).etag == Get(ReplyFor(task, first, st).response.header, ETag);
    UnchangedWhenETagMatches(ctx, task, second, after);
  }

  /** A hypothesis on the server: any GET of `url` whose If-Modified-Since
      is `date` gets 304, whatever other headers it carries. Section 3.3 of
      RFC 7232 only asks this of a request without If-None-Match. */
  ghost predicate HonoursLastModified(server: Request -> Reply, url: string, date: string)
  {
    forall req: Request :: req.url == url && Get(req.header, IfModifiedSince) == date ==>
      server(req).Answered? && server(req).response.status == StatusNotModified
  }

  /** The date-based counterpart of SecondRunUnchanged: after a download
      whose response carried a valid Last-Modified, a second run against a
      server that answers 304 to that date reports success and changes
      nothing. */
  lemma SecondRunUnchangedByDate(ctx: Context, task: Task, first: TaskIO, second: TaskIO, st: Store)
    requires Downloaded(ctx, task, first, st)
    requires Get(ReplyFor(task, first, st).response.header, LastModified) != ""
    requires ctx.isHttpDate(Get(ReplyFor(task, first, st).response.header, LastModified))
    requires HonoursLastModified(second.server, task.url,
                                 Get(ReplyFor(task, first, st).response.header, LastModified))
    ensures var after := FetchOne(ctx, task, first, st).store;
      FetchOne(ctx, task, second, after) == StepResult(Ok, after)
  {
    var after := FetchOne(ctx, task, first, st).store;
    var date := Get(ReplyFor(task, first, st).response.header, LastModified);
    assert Lookup(after.metadata, task.url).lastModified == date;
    var req := BuildRequest(task.url, Lookup(after.metadata, task.url));
    assert Get(req.header, IfModifiedSince) == date;
    assert NotModified(ctx, task, second, after);
  }
}
