/**
  The `/fetch` handler `download_route`: run yt-dlp once to learn the file
  name, then spawn it again to stream the media, and turn every outcome of
  the two runs into a response. The runs themselves are not modelled: their
  outcomes are inputs, and the handler's result records which runs it
  attempted (whether or not the process could be started), in order.
 */
module Handlers {
  import opened Wrappers
  import opened Utf8
  import opened Text
  import opened Validator
  import opened Dto
  import opened Http
  import opened Process
  import ValidatedQuery

  /** The configuration record the handler reads (only `maxFileSize` is used). */
  datatype ApiConfig = ApiConfig(serverUrl: string, maxFileSize: string, ytDlpPath: string)

  /** The query of `/fetch`. */
  datatype CreateFigureRequest = CreateFigureRequest(url: string)

  const YT_DLP := "yt-dlp"
  const FORMAT := "bestvideo[ext=mp4]+bestaudio[ext=m4a]/best[ext=mp4]/best"
  const CANNOT_DOWNLOAD := "sorry, cannot download this"
  const VIDEO_MP4 := "video/mp4"
  const DISPOSITION_PREFIX := "attachment; filename=\""

  /**
    The derived `validate()` of `CreateFigureRequest`: the one `url` check.
    `isUrl` stands for the validator crate's URL test.
   */
  function ValidateRequest(req: CreateFigureRequest, isUrl: string -> bool): (r: Result<(), ValidationErrors>)
    ensures r.Ok? <==> isUrl(req.url)
    ensures r.Err? ==> r.error.fields.Keys == {"url"} && r.error.fields["url"] == [FieldError("url")]
  {
    if isUrl(req.url) then Ok(()) else Err(ValidationErrors(map["url" := [FieldError("url")]]))
  }

  /** `ValidateRequest` with the URL test fixed, as `ValidatedQuery` calls it. */
  function RequestValidator(isUrl: string -> bool): CreateFigureRequest -> Result<(), ValidationErrors> {
    req => ValidateRequest(req, isUrl)
  }

  // ---------------------------------------------------------------------
  // The two argument vectors
  // ---------------------------------------------------------------------

  /** The arguments of the filename run. */
  function FilenameArgs(maxFileSize: string, url: string): (args: seq<string>)
    ensures |args| == 8 && args[|args| - 1] == url
  {
    ["--print", "filename", "--restrict-filenames", "-f", FORMAT, "--max-filesize", maxFileSize, url]
  }

  /** The arguments of the media run. */
  function MediaArgs(maxFileSize: string, url: string): (args: seq<string>)
    ensures |args| == 7 && args[|args| - 1] == url
  {
    ["-o", "-", "-f", FORMAT, "--max-filesize", maxFileSize, url]
  }

  /**
    Both runs pick the same format and the same size limit and name the same
    URL: the filename run only prefixes its print-the-name options, and the
    media run only prefixes "write the media to standard output".
   */
  lemma PhasesShareSelectorAndLimit(maxFileSize: string, url: string)
    ensures FilenameArgs(maxFileSize, url)[..3] == ["--print", "filename", "--restrict-filenames"]
    ensures MediaArgs(maxFileSize, url)[..2] == ["-o", "-"]
    ensures FilenameArgs(maxFileSize, url)[3..] == MediaArgs(maxFileSize, url)[2..]
      == ["-f", FORMAT, "--max-filesize", maxFileSize, url]
  {
  }

  /**
    Each value taken from outside is exactly one argument: distinct size
    limits or URLs always give distinct argument vectors, so no value can
    spill into another argument.
   */
  lemma ArgsSeparateValues(m1: string, u1: string, m2: string, u2: string)
    ensures FilenameArgs(m1, u1) == FilenameArgs(m2, u2) <==> m1 == m2 && u1 == u2
    ensures MediaArgs(m1, u1) == MediaArgs(m2, u2) <==> m1 == m2 && u1 == u2
  {
    if FilenameArgs(m1, u1) == FilenameArgs(m2, u2) {
      assert FilenameArgs(m1, u1)[6] == m1 && FilenameArgs(m2, u2)[6] == m2;
    }
    if MediaArgs(m1, u1) == MediaArgs(m2, u2) {
      assert MediaArgs(m1, u1)[5] == m1 && MediaArgs(m2, u2)[5] == m2;
    }
  }

  /**
    The filename command, built one `.arg()` at a time. Its standard output
    is left unset, so `.output()` pipes it and collects what yt-dlp prints.
   */
  method FilenameCommand(maxFileSize: string, url: string) returns (c: Command)
    ensures fresh(c)
    ensures c.ToInvocation() == Invocation(YT_DLP, FilenameArgs(maxFileSize, url))
    ensures c.stdout == None && c.ChildStdout(Output) == Piped
  {
    c := new Command(YT_DLP);
    c.Arg("--print");
    c.Arg("filename");
    c.Arg("--restrict-filenames");
    c.Arg("-f");
    c.Arg(FORMAT);
    c.Arg("--max-filesize");
    c.Arg(maxFileSize);
    c.Arg(url);
  }

  /** The media command, built one `.arg()` at a time, with its standard output piped. */
  method MediaCommand(maxFileSize: string, url: string) returns (c: Command)
    ensures fresh(c)
    ensures c.ToInvocation() == Invocation(YT_DLP, MediaArgs(maxFileSize, url))
    ensures c.stdout == Some(Piped) && c.ChildStdout(Spawn) == Piped
  {
    c := new Command(YT_DLP);
    c.Arg("-o");
    c.Arg("-");
    c.Arg("-f");
    c.Arg(FORMAT);
    c.Arg("--max-filesize");
    c.Arg(maxFileSize);
    c.Arg(url);
    c.Stdout(Piped);
  }

  // ---------------------------------------------------------------------
  // The filename phase
  // ---------------------------------------------------------------------

  /** What `.output().await` gave: an I/O error, or the finished run's exit status and standard output. */
  datatype FilenameRun =
    | CouldNotRun
    | Ran(exitSuccess: bool, stdout: seq<Byte>)

  /**
    The filename the media phase gets: the run's standard output, strictly
    decoded as UTF-8 and trimmed, when that leaves something.
   */
  function ResolveFilename(run: FilenameRun): (r: Option<string>)
    ensures r.Some? <==> run.Ran? && Decode(run.stdout).Some? && !AllWhitespace(Decode(run.stdout).value)
    ensures r.Some? ==> r.value != [] && !IsWhitespace(r.value[0]) && !IsWhitespace(r.value[|r.value| - 1])
  {
    if run.CouldNotRun? then None else NameFromOutput(run.stdout)
  }

  /** `String::from_utf8(stdout)`, then `trim()`, then the emptiness check. */
  function NameFromOutput(stdout: seq<Byte>): (r: Option<string>)
    ensures r.Some? <==> Decode(stdout).Some? && !AllWhitespace(Decode(stdout).value)
    ensures r.Some? ==> r.value == Trim(Decode(stdout).value)
  {
    match Decode(stdout)
    case None => None
    case Some(text) => if Trim(text) == [] then None else Some(Trim(text))
  }

  /** Output that is not well-formed UTF-8 never names a file, however the run ended. */
  lemma MalformedOutputIsRejected(run: FilenameRun)
    requires run.Ran? && !WellFormed(run.stdout)
    ensures ResolveFilename(run).None?
  {
    DecodeSucceedsIffWellFormed(run.stdout);
  }

  /**
    The resolved name is the standard output with its leading and trailing
    whitespace cut off, byte for byte: the output is the encoding of some
    whitespace, then of the name, then of more whitespace.
   */
  lemma FilenameIsTrimmedStdout(run: FilenameRun)
    requires ResolveFilename(run).Some?
    ensures var name := ResolveFilename(run).value;
            exists lead: string, trail: string ::
              && AllWhitespace(lead) && AllWhitespace(trail)
              && run.stdout == Encode(lead) + Encode(name) + Encode(trail)
  {
    var name := ResolveFilename(run).value;
    var text := Decode(run.stdout).value;
    var lead, trail := TrimSplit(text, IsWhitespace);
    EncodeAppend(lead + name, trail);
    EncodeAppend(lead, name);
    assert run.stdout == Encode(lead) + Encode(name) + Encode(trail);
  }

  /**
    The check is strict: "v" followed by the stray byte 0xFF would decode
    lossily to a non-empty name, but it resolves to nothing.
   */
  lemma InvalidUtf8IsRejected(success: bool)
    ensures ResolveFilename(Ran(success, [0x76, 0xFF])) == None
  {
    var b: seq<Byte> := [0x76, 0xFF];
    assert b[1..] == [0xFF];
    assert Decode(b[1..]) == None;
  }

  // ---------------------------------------------------------------------
  // The media phase and the response
  // ---------------------------------------------------------------------

  /** What `.spawn()` gave: an I/O error, or a child whose piped standard output yields these bytes. */
  datatype MediaSpawn =
    | SpawnFailed
    | Spawned(stdout: seq<Byte>)

  /** `format!("attachment; filename=\"{}\"", filename)`: the name verbatim between the quotes, unescaped. */
  function ContentDisposition(filename: string): (v: string)
    ensures |v| == |DISPOSITION_PREFIX| + |filename| + 1
    ensures v[..|DISPOSITION_PREFIX|] == DISPOSITION_PREFIX
    ensures v[|DISPOSITION_PREFIX|..|v| - 1] == filename && v[|v| - 1] == '"'
  {
    DISPOSITION_PREFIX + filename + "\""
  }

  /** The characters an HTTP header value may hold: everything but the ASCII control characters other than tab. */
  predicate IsFieldValueChar(c: char) {
    c == '\t' || (' ' <= c && c != '\U{7F}')
  }

  /**
    The Content-Disposition value is a well-formed header value exactly when
    the name is; a name with a control character in its middle (such as the
    newline between two names printed for a playlist) carries it into the header.
   */
  lemma DispositionValidIffFilenameValid(filename: string)
    ensures (forall k :: 0 <= k < |ContentDisposition(filename)| ==> IsFieldValueChar(ContentDisposition(filename)[k]))
        <==> (forall k :: 0 <= k < |filename| ==> IsFieldValueChar(filename[k]))
  {
    var v := ContentDisposition(filename);
    var n := |DISPOSITION_PREFIX|;
    forall k | 0 <= k < |filename| ensures v[n + k] == filename[k] {
      assert v[n..|v| - 1][k] == filename[k];
    }
  }

  /** The result of the handler: the response, and the runs of yt-dlp it attempted, in order. */
  datatype Handled = Handled(response: Response, invocations: seq<Invocation>)

  /** The error response of every failed download: `(status, Json(ErrorDTO::new("sorry, cannot download this")))`. */
  function CannotDownload(status: StatusCode): (r: Response)
    ensures r.status == status && r.headers == []
    ensures r.body == Json(ErrorDTO("sorry, cannot download this"))
    ensures JsonKeys(r.body.dto) == {"message"}
  {
    JsonResponse(status, NewErrorDTO(CANNOT_DOWNLOAD))
  }

  /** The two headers of a successful download. */
  function DownloadHeaders(filename: string): (hs: seq<Header>)
    ensures |hs| == 2
    ensures hs[0] == Header("content-type", "video/mp4")
    ensures hs[1].name == "content-disposition" && hs[1].value == ContentDisposition(filename)
  {
    [Header(CONTENT_TYPE, VIDEO_MP4), Header(CONTENT_DISPOSITION, ContentDisposition(filename))]
  }

  /** The run is of this program and is given this last argument. */
  predicate IsRunOf(inv: Invocation, program: string, arg: string) {
    inv.program == program && inv.args != [] && inv.args[|inv.args| - 1] == arg
  }

  /**
    The runs `download_route` attempts, in order: the filename run, then the
    media run once a name has resolved. Each is of yt-dlp, with the URL last.
   */
  function Attempts(maxFileSize: string, url: string, nameResolved: bool): (runs: seq<Invocation>)
    ensures 1 <= |runs| <= 2 && (|runs| == 2 <==> nameResolved)
    ensures runs[0] == Invocation(YT_DLP, FilenameArgs(maxFileSize, url))
    ensures |runs| == 2 ==> runs[1] == Invocation(YT_DLP, MediaArgs(maxFileSize, url))
    ensures forall i :: 0 <= i < |runs| ==> IsRunOf(runs[i], YT_DLP, url)
  {
    var first := Invocation(YT_DLP, FilenameArgs(maxFileSize, url));
    if nameResolved then [first, Invocation(YT_DLP, MediaArgs(maxFileSize, url))] else [first]
  }

  /** `download_route`, once its query has been extracted and validated. */
  function DownloadRoute(config: ApiConfig, payload: CreateFigureRequest, filenameRun: FilenameRun, mediaSpawn: MediaSpawn): (h: Handled)
    // The filename run is always attempted first, and the media run only after a usable name.
    ensures 1 <= |h.invocations| <= 2
    ensures h.invocations[0] == Invocation(YT_DLP, FilenameArgs(config.maxFileSize, payload.url))
    ensures |h.invocations| == 2 <==> ResolveFilename(filenameRun).Some?
    ensures |h.invocations| == 2 ==> h.invocations[1] == Invocation(YT_DLP, MediaArgs(config.maxFileSize, payload.url))
    // Three statuses, each with a fixed cause.
    ensures h.response.status in {OK, BAD_REQUEST, INTERNAL_SERVER_ERROR}
    ensures h.response.status == BAD_REQUEST <==> ResolveFilename(filenameRun).None?
    ensures h.response.status == INTERNAL_SERVER_ERROR <==> ResolveFilename(filenameRun).Some? && mediaSpawn.SpawnFailed?
    ensures h.response.status != OK ==> h.response == CannotDownload(h.response.status)
    ensures h.response.status == OK ==>
      && mediaSpawn.Spawned?
      && h.response.headers == DownloadHeaders(ResolveFilename(filenameRun).value)
      && h.response.body == Stream(mediaSpawn.stdout)
    ensures h.invocations == Attempts(config.maxFileSize, payload.url, ResolveFilename(filenameRun).Some?)
  {
    var runs := Attempts(config.maxFileSize, payload.url, ResolveFilename(filenameRun).Some?);
    match ResolveFilename(filenameRun)
    case None => Handled(CannotDownload(BAD_REQUEST), runs)
    case Some(filename) =>
      match mediaSpawn
      case SpawnFailed => Handled(CannotDownload(INTERNAL_SERVER_ERROR), runs)
      case Spawned(bytes) => Handled(StreamResponse(DownloadHeaders(filename), bytes), runs)
  }

  /**
    The three early returns of the filename phase, in terms of the inputs:
    yt-dlp could not be run, its output is not UTF-8, or the output is only
    whitespace. Each answers 400 "sorry, cannot download this", and the
    media run is never attempted.
   */
  lemma FilenamePhaseFailures(config: ApiConfig, payload: CreateFigureRequest, filenameRun: FilenameRun, mediaSpawn: MediaSpawn)
    requires || filenameRun.CouldNotRun?
             || (filenameRun.Ran? && !WellFormed(filenameRun.stdout))
             || (filenameRun.Ran? && Decode(filenameRun.stdout).Some? && AllWhitespace(Decode(filenameRun.stdout).value))
    ensures var h := DownloadRoute(config, payload, filenameRun, mediaSpawn);
            && h.response == JsonResponse(BAD_REQUEST, ErrorDTO("sorry, cannot download this"))
            && h.invocations == [Invocation(YT_DLP, FilenameArgs(config.maxFileSize, payload.url))]
  {
    if filenameRun.Ran? && !WellFormed(filenameRun.stdout) {
      MalformedOutputIsRejected(filenameRun);
    }
  }

  /** The filename run's exit status is never looked at: only its output counts. */
  lemma ExitStatusIgnored(config: ApiConfig, payload: CreateFigureRequest, stdout: seq<Byte>, mediaSpawn: MediaSpawn)
    ensures DownloadRoute(config, payload, Ran(true, stdout), mediaSpawn)
         == DownloadRoute(config, payload, Ran(false, stdout), mediaSpawn)
  {
  }

  /** Of the configuration only the size limit matters: `serverUrl` and `ytDlpPath` are never read. */
  lemma OnlyMaxFileSizeMatters(c1: ApiConfig, c2: ApiConfig, payload: CreateFigureRequest, filenameRun: FilenameRun, mediaSpawn: MediaSpawn)
    requires c1.maxFileSize == c2.maxFileSize
    ensures DownloadRoute(c1, payload, filenameRun, mediaSpawn) == DownloadRoute(c2, payload, filenameRun, mediaSpawn)
  {
  }

  /** Every run is of the literal program "yt-dlp", whatever `ytDlpPath` says. */
  lemma AlwaysYtDlp(config: ApiConfig, payload: CreateFigureRequest, filenameRun: FilenameRun, mediaSpawn: MediaSpawn)
    ensures forall inv :: inv in DownloadRoute(config, payload, filenameRun, mediaSpawn).invocations ==> inv.program == YT_DLP
  {
    EachRunOf(DownloadRoute(config, payload, filenameRun, mediaSpawn).invocations, YT_DLP, payload.url);
  }

  /**
    yt-dlp prints the name and a newline; the handler serves under exactly
    that name, whatever exit status the run had.
   */
  lemma PrintedLineIsName(success: bool, name: string)
    requires name != [] && !IsWhitespace(name[0]) && !IsWhitespace(name[|name| - 1])
    ensures ResolveFilename(Ran(success, Encode(name + "\n"))) == Some(name)
  {
    DecodeEncode(name + "\n");
    TrimmedLine(name);
  }

  /** Trimming a line with no whitespace at either end of its text gives the text. */
  lemma TrimmedLine(name: string)
    requires name != [] && !IsWhitespace(name[0]) && !IsWhitespace(name[|name| - 1])
    ensures Trim(name + "\n") == name
  {
    var text := name + "\n";
    assert text[0..|name|] == name;
    assert text[|name|] == '\n';
    assert IsTrimming(text, IsWhitespace, 0, |name|);
    TrimmingIsUnique(text, IsWhitespace, 0, |name|);
  }

  /** For a name such as "video.mp4": status 200, type video/mp4, and the name quoted in an attachment disposition. */
  lemma ServedUnderPrintedName(config: ApiConfig, payload: CreateFigureRequest, name: string, media: seq<Byte>)
    requires name != [] && !IsWhitespace(name[0]) && !IsWhitespace(name[|name| - 1])
    ensures var h := DownloadRoute(config, payload, Ran(true, Encode(name + "\n")), Spawned(media));
            && h.response.status == OK
            && h.response.headers == [Header("content-type", "video/mp4"),
                                      Header("content-disposition", "attachment; filename=\"" + name + "\"")]
            && h.response.body == Stream(media)
  {
    PrintedLineIsName(true, name);
  }

  // ---------------------------------------------------------------------
  // The whole request
  // ---------------------------------------------------------------------

  /**
    A request to `/fetch`: the `ValidatedQuery` extractor runs, and only a
    request it accepts reaches `download_route`.
   */
  function Fetch(config: ApiConfig, query: Result<CreateFigureRequest, QueryRejection>, isUrl: string -> bool,
                 filenameRun: FilenameRun, mediaSpawn: MediaSpawn): (h: Handled)
    ensures h.invocations == [] <==> query.Err? || !isUrl(query.value.url)
    ensures h.invocations == [] ==> h.response.status == BAD_REQUEST
    ensures query.Err? ==> h.response.body == Json(ErrorDTO(query.error.bodyText))
    ensures query.Ok? && !isUrl(query.value.url) ==>
      h.response.body == Json(ErrorWithValidationErrorsDTO("validation errors ocurred", ValidationErrors(map["url" := [FieldError("url")]])))
    ensures query.Ok? && isUrl(query.value.url) ==> h == DownloadRoute(config, query.value, filenameRun, mediaSpawn)
  {
    match ValidatedQuery.FromRequestParts(query, RequestValidator(isUrl))
    case Err(e) => Handled(ValidatedQuery.ServerErrorResponse(e), [])
    case Ok(payload) => DownloadRoute(config, payload, filenameRun, mediaSpawn)
  }

  /**
    What a URL check built on WHATWG URL parsing accepts: after any leading
    spaces or control characters that the parser skips, a scheme, which
    starts with an ASCII letter. No such string starts with '-'.
   */
  predicate StartsLikeUrl(u: string) {
    u != [] && (u[0] <= ' ' || ('a' <= u[0] <= 'z') || ('A' <= u[0] <= 'Z'))
  }

  /** How yt-dlp tells an option from a positional argument. */
  predicate StartsWithDash(arg: string) {
    arg != [] && arg[0] == '-'
  }

  /**
    A URL that passes validation can never be read by yt-dlp as an option:
    every run is given it as its last argument, and it does not start with '-'.
   */
  lemma UrlNeverAnOption(config: ApiConfig, query: Result<CreateFigureRequest, QueryRejection>, isUrl: string -> bool,
                         filenameRun: FilenameRun, mediaSpawn: MediaSpawn)
    requires forall u :: isUrl(u) ==> StartsLikeUrl(u)
    ensures forall inv :: inv in Fetch(config, query, isUrl, filenameRun, mediaSpawn).invocations ==>
      && inv.args != []
      && inv.args[|inv.args| - 1] == query.value.url
      && !StartsWithDash(inv.args[|inv.args| - 1])
  {
    var h := Fetch(config, query, isUrl, filenameRun, mediaSpawn);
    if h.invocations != [] {
      assert StartsLikeUrl(query.value.url);
      RunsEndWithUrl(config, query.value, filenameRun, mediaSpawn);
    }
  }

  /** Every run `download_route` attempts is given the requested URL as its last argument. */
  lemma RunsEndWithUrl(config: ApiConfig, payload: CreateFigureRequest, filenameRun: FilenameRun, mediaSpawn: MediaSpawn)
    ensures forall inv :: inv in DownloadRoute(config, payload, filenameRun, mediaSpawn).invocations ==>
      inv.args != [] && inv.args[|inv.args| - 1] == payload.url
  {
    EachRunOf(DownloadRoute(config, payload, filenameRun, mediaSpawn).invocations, YT_DLP, payload.url);
  }

  /** What holds at every index of a sequence holds of every element. */
  lemma EachRunOf(runs: seq<Invocation>, program: string, arg: string)
    requires forall i :: 0 <= i < |runs| ==> IsRunOf(runs[i], program, arg)
    ensures forall inv :: inv in runs ==> inv.program == program && inv.args != [] && inv.args[|inv.args| - 1] == arg
  {
    forall inv | inv in runs ensures IsRunOf(inv, program, arg) {
      var i :| 0 <= i < |runs| && runs[i] == inv;
    }
  }
}
