# yt-dlp-api in Dafny

A model of the request path of yt-dlp-api, a small axum web service with one route, `GET /fetch?url=…`. The route runs `yt-dlp` twice:

1. It first runs `yt-dlp` to learn the name of the file it would download.
2. It then spawns `yt-dlp` again and streams the media from the child's standard output, as an attachment under that name.

The model covers:

- the `ValidatedQuery` extractor, which deserializes the query and then validates it;
- the handler `download_route`, with its ordered early returns;
- the two argument vectors given to `yt-dlp`;
- the `Content-Disposition` value;
- strict UTF-8 decoding of the first run's output, following RFC 3629;
- `str::trim`;
- the two error enums (`ServerError`, `ApiError`) and their translations into HTTP responses.

Processes and the network are not modelled. What the two runs of `yt-dlp` produced is an input to the handler. The handler's result records the response and the runs it attempted, in order, whether or not the process could be started. A "the media run is never attempted" property then reads as "only one invocation".

Modules, one per file:

- `Wrappers`: `Option` and `Result`.
- `Utf8`: the UTF8-char grammar of section 4 of RFC 3629, the encoder, and the strict decoder behind `String::from_utf8`. Its lemmas prove that decoding inverts encoding and succeeds exactly on well-formed input.
- `Text`: `char::is_whitespace` (the Unicode White_Space property) and `str::trim`. Trimming is written for any character pattern, as Rust's `trim_matches` is, and `Trim` is the whitespace instance. Its lemmas prove that `Trim` is the unique trimming, that a string is the trimmed part between two runs of whitespace, and that trimming is idempotent.
- `Validator`: the shape of the `validator` crate's `ValidationErrors`.
- `Dto`: the two JSON error bodies.
- `Http`: the response record (status, headers, JSON body or byte stream).
- `Process`: the `Command` builder as a class whose `.arg()` appends to its argument sequence.
- `ValidatedQuery` and `Errors`: the two extraction and error paths.
- `Handlers`: `download_route`, `Fetch` (the extractor followed by the handler), and the properties of the whole request.

## Model

| member | source | states |
|---|---|---|
| Handlers.ValidateRequest | src/handlers.rs:15-19 | validation fails exactly when the URL check rejects `url`; the errors then name the field `url` with the one code `url` |
| Handlers.FilenameArgs | src/handlers.rs:29-37 | the filename run has eight arguments, ending with the URL |
| Handlers.MediaArgs | src/handlers.rs:87-94 | the media run has seven arguments, ending with the URL |
| Handlers.PhasesShareSelectorAndLimit | src/handlers.rs:87-94 | the filename run's argument vector is `--print filename --restrict-filenames`, then `-f FORMAT --max-filesize <limit> <url>`. The media run's is `-o -` followed by the same five arguments. So both runs choose the same format and size limit |
| Handlers.ArgsSeparateValues | src/handlers.rs:36-37 | two argument vectors are equal if and only if their size limits and URLs are equal: the size limit and the URL can both be read back from the argument vector |
| Handlers.FilenameCommand | src/handlers.rs:29-38 | building the first command one `.arg()` at a time yields a fresh command running `yt-dlp` with exactly `FilenameArgs`. Its standard output is left unset, so `.output()` pipes it back to the handler |
| Handlers.MediaCommand | src/handlers.rs:87-96 | building the second command yields a fresh command running `yt-dlp` with exactly `MediaArgs`. Its standard output is set to piped, so `.spawn()` pipes it too |
| Process.Command.constructor | src/handlers.rs:29 | `Command::new` records the program with no arguments and standard output unset |
| Process.Command.Arg | src/handlers.rs:30-37 | `.arg(a)` appends `a` as one element and changes nothing else |
| Process.Command.Stdout | src/handlers.rs:95 | `.stdout(cfg)` sets the output mode and changes nothing else |
| Process.Command.ChildStdout | src/handlers.rs:38 | an explicit `.stdout(…)` setting decides where the child's output goes. Left unset, it is piped under `.output()` (line 38) and inherited under `.spawn()` |
| Handlers.ResolveFilename | src/handlers.rs:56-84 | a name results if and only if the run happened, its output decodes as UTF-8, and the text is not all whitespace. A resulting name is non-empty and has no whitespace at either end |
| Handlers.NameFromOutput | src/handlers.rs:56-70 | a name results if and only if the output decodes and is not all whitespace; the name is then the trimmed text |
| Handlers.MalformedOutputIsRejected | src/handlers.rs:72-83 | output that is not well-formed UTF-8 never yields a name, whatever the exit status |
| Handlers.InvalidUtf8IsRejected | src/handlers.rs:56 | the bytes `76 FF` yield no name: decoding is strict, not lossy |
| Handlers.FilenameIsTrimmedStdout | src/handlers.rs:58-70 | a resolved name sits in the output between two encoded runs of whitespace: the output is `Encode(lead) + Encode(name) + Encode(trail)` |
| Handlers.PrintedLineIsName | src/handlers.rs:56-70 | when yt-dlp prints a name (no whitespace at either end) and a newline, that name is the one used, whatever the exit status |
| Handlers.TrimmedLine | src/handlers.rs:58 | trimming such a name followed by a newline gives the name |
| Handlers.ContentDisposition | src/handlers.rs:102 | the value is `attachment; filename="`, then the name verbatim (unescaped), then `"` |
| Handlers.DispositionValidIffFilenameValid | src/handlers.rs:102-108 | the disposition value holds only characters allowed in a header value if and only if the name does |
| Handlers.Attempts | src/handlers.rs:29-96 | the runs attempted, in order: the filename run, then the media run if and only if a name resolved. Each is of `yt-dlp` with the URL as its last argument |
| Handlers.CannotDownload | src/handlers.rs:48-51 | every failed download answers with the given status, no headers, and the body `ErrorDTO("sorry, cannot download this")`, which serializes with the key `message` alone. The same response is built at lines 63-66, 78-81 and 119-122 |
| Handlers.DownloadHeaders | src/handlers.rs:105-108 | a successful download has exactly two headers: `content-type: video/mp4`, then `content-disposition` with the `ContentDisposition` value |
| Handlers.DownloadRoute | src/handlers.rs:22-126 | the filename run is always attempted first. The media run is attempted if and only if a name resolved. The status is 200, 400 or 500: 400 if and only if no name resolved, 500 if and only if a name resolved but the spawn failed. Every failure carries `ErrorDTO("sorry, cannot download this")`. A 200 response has the two download headers and streams the child's output |
| Handlers.FilenamePhaseFailures | src/handlers.rs:42-83 | an unrunnable `yt-dlp`, non-UTF-8 output, or whitespace-only output gives 400 with the fixed message, and only the filename run is attempted |
| Handlers.ServedUnderPrintedName | src/handlers.rs:98-111 | after a printed name and a successful spawn: status 200, `content-type: video/mp4`, `content-disposition: attachment; filename="<name>"`, body the child's output |
| Handlers.ExitStatusIgnored | src/handlers.rs:38-56 | the filename run's exit status never changes the outcome |
| Handlers.OnlyMaxFileSizeMatters | src/handlers.rs:36 | configurations with the same size limit give the same outcome |
| Handlers.AlwaysYtDlp | src/handlers.rs:29 | every attempted run is of the literal program `yt-dlp`, whatever the configuration says |
| Handlers.Fetch | src/handlers.rs:22-25 | no run is attempted if and only if the query fails to deserialize or the URL fails validation. Either failure answers 400 with the extractor's body. Otherwise the result is that of `download_route` |
| Handlers.RunsEndWithUrl | src/handlers.rs:29-37 | every attempted run is given the requested URL as its last argument |
| Handlers.UrlNeverAnOption | src/handlers.rs:26-37 | when the URL check admits only strings that start like a URL, every run's last argument is the URL and does not start with `-`, so yt-dlp cannot read it as an option |
| Utf8.EncodeChar | src/handlers.rs:56 | a character's encoding is one UTF8-char of RFC 3629 |
| Utf8.Encode | src/handlers.rs:56 | a string's encoding is well-formed UTF-8 |
| Utf8.CodePoint | src/handlers.rs:56 | a UTF8-char denotes a Unicode scalar value |
| Utf8.SequenceLength | src/handlers.rs:56 | a lead byte announces at most four octets |
| Utf8.EncodeCodePoint | src/handlers.rs:56 | re-encoding the code point of a UTF8-char gives back the same octets |
| Utf8.CodePointEncode | src/handlers.rs:56 | the code point of a character's encoding is that character |
| Utf8.LeadFixesLength | src/handlers.rs:56 | the lead byte of a UTF8-char announces its length |
| Utf8.Decode | src/handlers.rs:56 | when decoding succeeds, encoding the text gives back the input bytes |
| Utf8.DecodeEncode | src/handlers.rs:56 | decoding the encoding of any string gives back that string |
| Utf8.DecodeSucceedsIffWellFormed | src/handlers.rs:56 | decoding succeeds if and only if the bytes are well-formed UTF-8 |
| Utf8.WellFormedIffEncoding | src/handlers.rs:56 | the well-formed byte sequences are exactly the encodings of strings |
| Utf8.EncodeAppend | src/handlers.rs:56 | encoding distributes over concatenation |
| Text.WhitespaceCharacters | src/handlers.rs:58 | the ASCII whitespace that `char::is_whitespace` accepts is tab, line feed, vertical tab, form feed, carriage return and space. U+200B and U+FEFF are not whitespace |
| Text.TrimStartMatches | src/handlers.rs:58 | the result is a suffix of the input; everything dropped matches; the result does not start with a match |
| Text.TrimEndMatches | src/handlers.rs:58 | the result is a prefix of the input; everything dropped matches; the result does not end with a match |
| Text.TrimMatches | src/handlers.rs:58 | the result is empty if and only if every character matches; otherwise it neither starts nor ends with a match |
| Text.Trim | src/handlers.rs:58 | the result is empty if and only if the input is all whitespace; otherwise it has no whitespace at either end |
| Text.TrimIsSlice | src/handlers.rs:58 | the trimmed string is a contiguous slice of the input |
| Text.TrimIsTrimming | src/handlers.rs:58 | that slice has only matches outside it and no match at its ends |
| Text.TrimmingIsUnique | src/handlers.rs:58 | any slice with that property is the trimmed string, so `trim` is fixed by the property alone |
| Text.TrimSplit | src/handlers.rs:58 | every string is a run of matches, the trimmed string, and another run of matches |
| Text.TrimIdempotent | src/handlers.rs:58 | trimming twice is trimming once |
| Http.JsonResponse | src/handlers.rs:48-52 | `(status, Json(dto)).into_response()` has the given status, no headers set by the handler, and the body as given |
| Http.StreamResponse | src/handlers.rs:104-111 | `(headers, body).into_response()` has the default status 200, the headers as given, and the byte stream as its body |
| Dto.NewErrorDTO | src/errors.rs:16-22 | `ErrorDTO::new` stores the message verbatim |
| Dto.NewErrorWithValidationErrorsDTO | src/errors.rs:30-34 | the constructor stores the message and the errors verbatim |
| Dto.JsonKeys | src/errors.rs:11-28 | every body serializes with a `message` key; it has an `errors` key if and only if it is the validation body |
| ValidatedQuery.FromRequestParts | src/validated_query.rs:24-28 | extraction succeeds if and only if deserialization and then validation succeed, and it yields the deserialized value unchanged. A deserialization failure gives `AxumFormRejection` with that rejection. A validation failure gives `ValidationError` with the validator's errors |
| ValidatedQuery.RejectionIgnoresValidator | src/validated_query.rs:25-26 | when deserialization fails, the validator does not affect the outcome |
| ValidatedQuery.ServerErrorResponse | src/validated_query.rs:40-57 | every `ServerError` answers 400 with a JSON body and no headers. The body is the validation body if and only if the error is `ValidationError` |
| ValidatedQuery.ServerErrorBodies | src/validated_query.rs:43-53 | `ValidationError(e)` carries "validation errors ocurred" and `e`; `AxumFormRejection(r)` carries `r`'s body text |
| ValidatedQuery.OnlyValidationCarriesErrors | src/validated_query.rs:43-53 | only the validation body serializes with an `errors` key |
| Errors.ApiErrorResponse | src/errors.rs:51-86 | every `ApiError` answers 400 or 500, with a JSON body and no headers. It is 500 if and only if the error is `CannotDownloadInternal`. The body is the validation body if and only if the error is `ValidationError` |
| Errors.ApiErrorBodies | src/errors.rs:54-82 | the message each variant carries: "validation errors ocurred" with the errors, the rejection's body text, and the two fixed "sorry, cannot download this (…)" messages |
| Errors.OnlyValidationCarriesErrors | src/errors.rs:53-83 | only `ValidationError`'s body has an `errors` key; every other body has `message` alone |
| Errors.FromServerError | src/errors.rs:38-42 | the two `#[from]` conversions keep the variant and its payload, and never produce a `CannotDownload…` variant |
| Errors.SharedVariantsAgree | src/errors.rs:54-64 | on the two variants the enums share, `ApiError` and `ServerError` give the same response |

## Left out

- Running `yt-dlp`. `.output().await` and `.spawn()` are not modelled; their outcomes (could not run / exit status and output; spawn failed / the child's output) are inputs.
- Streaming. `child.stdout.take().unwrap()`, `ReaderStream` and `Body::from_stream` are abstracted to "the body is the bytes the child writes". Backpressure, partial streams and a child that fails after spawning are not modelled. The media child's exit status is never read by the handler, so it is not an input.
- The framework's conversion of header values. axum answers 500 when a header value holds an ASCII control character other than tab; the model returns the headers the handler builds. `Handlers.DispositionValidIffFilenameValid` characterises when the disposition value is acceptable.
- The `content-type: application/json` header that axum's `Json` adds. Error responses are modelled with the headers the handler sets, none.
- JSON serialization itself. Only the set of keys (`Dto.JsonKeys`) is modelled.
- Logging.
- Process start-up (`src/main.rs`: environment, logger, router, listener) and configuration loading (`src/config.rs`). `ApiConfig` is a plain record.
- `src/dto.rs`. It declares the same two bodies as `src/errors.rs`, and both are modelled by the one `Dto` module.
- The `validator` crate's error details. `Validator.FieldError` keeps only the code; the crate's error also carries a `message` and `params`, and `params` echoes the rejected URL in the 400 body.
- The `validator` crate's URL check and serde's deserialization. They are inputs: `isUrl` is an uninterpreted predicate and the query is an already-decided `Result`.
- Handlers.UrlNeverAnOption: proved under the stated hypothesis that the URL check only admits strings that start like a URL (`Handlers.StartsLikeUrl`), because the check itself is not modelled.
- `ApiError` is not reachable from the handler. `src/main.rs` declares no `errors` module, so the crate never compiles `src/errors.rs`; its mapping is modelled on its own.
- The code has no timeout or 504 answer, no https-only check, no `--` end-of-options marker, no quiet flag and no MIME type guessing, and it never reads the configured `yt_dlp_path`. The model has none of them either; the program is the literal `yt-dlp`.
- Output decoding is strict `String::from_utf8`, not lossy. A filename run that cannot start answers 400. The content type is always `video/mp4`.
