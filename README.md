# ZIPPOCAPI: bundling downloaded files into one ZIP archive

This project models the POST action `api/Zip/download-multiple-files`, which is
`ZipController.DownloadMultipleFiles`. The action takes an array of file URLs
and downloads every file in parallel. It then answers with one ZIP archive
holding an entry per downloaded file. The Dafny model covers:

- the rejection of a missing or empty URL array: `BadRequest("No file URLs provided.")`;
- the download task per URL, where an `HttpRequestException` is caught and
  leaves the file's content null, and any other exception escapes;
- `Task.WhenAll`, which returns the records in task order (the order of the
  URLs), or throws when some task faulted;
- the `foreach` loop, which skips records without content and creates one
  entry per record with content, in input order. The entry is named
  `Path.GetFileName(url).Split('?')[0]` and holds the downloaded bytes;
- `ZipArchive.CreateEntry` rejecting an empty entry name, so the exception
  escapes the action.

The network is not modelled. Each URL comes with the already settled outcome
of its download (`FetchOutcome`: bytes, an HTTP failure or any other
failure). An exception that escapes the action is the response
`Unhandled(error)`.

Modules:

- `Sequences`: `Positions`, the indices of the elements passing a test, used
  as the reference for which entries the archive holds and in what order.
- `FileNames`: `FileName` (`Path.GetFileName`), `BeforeQuery`
  (`Split('?')[0]`), `DeriveName`, and `NamedAt`, an independent description
  of the derived name with lemmas proving that the two agree.
- `ZipController`: the data types, the task body `Capture`, `Settle`
  (tasks plus `Task.WhenAll`), `PlanEntries`/`AddFile` (the `foreach` loop as a
  function), `Respond` (the whole action as a function), the `ZipArchive`
  class, and the imperative method `DownloadMultipleFiles`, which is proved
  equal to `Respond`.
- `ZipControllerProperties`: what the action promises, stated over `Respond`.

Where the documentation and the code disagree, the model follows the code:

- The doc comment at `Controllers/ZipController.cs:25` says duplicate file
  names get a numeric suffix. The code at line 71 passes the derived name to
  `CreateEntry` unchanged, so two URLs with the same last segment give two
  entries with the same name (`ZipControllerProperties.DuplicateNamesKept`).
- The doc comment at line 26 says files that fail "due to network issues or
  invalid URLs" are skipped. The code at line 50 catches only
  `HttpRequestException`. A malformed URL or a timeout raises another
  exception type, which escapes `Task.WhenAll` and the action
  (`ZipController.Settle`, `ZipControllerProperties.RespondSpec`).

Only `/` is a directory separator for `Path.GetFileName`, as on Unix. The
separator cut comes before the query cut, so a `/` inside the query string
still cuts the name (`FileNames.SeparatorCutBeforeQuery`).

## Model

| member | source | states |
|---|---|---|
| FileNames.FileName | Controllers/ZipController.cs:68 | `Path.GetFileName`; its own contract only bounds the length by the URL's, and `FileNameIsLastSegment` with `FileNameUnique` pin down the exact value |
| FileNames.BeforeQuery | Controllers/ZipController.cs:68 | `Split('?')[0]`; its own contract only bounds the length by the input's, and `BeforeQueryIsFirstPart` with `BeforeQueryUnique` pin down the exact value |
| FileNames.FileNameIsLastSegment | Controllers/ZipController.cs:68 | `Path.GetFileName` yields the longest separator-free suffix of the URL: it is a suffix, holds no `/`, and is preceded by `/` unless it is the whole URL |
| FileNames.BeforeQueryIsFirstPart | Controllers/ZipController.cs:68 | `Split('?')[0]` yields the longest `?`-free prefix: a prefix with no `?`, followed by `?` unless it is the whole string |
| FileNames.DeriveName | Controllers/ZipController.cs:68 | the entry name holds neither `/` nor `?` and is no longer than the URL |
| FileNames.DeriveNameLocated | Controllers/ZipController.cs:68 | the derived name sits in the URL right after the last `/` and runs to the first `?` after it, or to the end |
| FileNames.DeriveNameDetermined | Controllers/ZipController.cs:68 | any start and name meeting that description are the derived name and its start, so the description is exact |
| FileNames.FileNameUnique | Controllers/ZipController.cs:68 | a separator-free suffix preceded by `/` (or the start) is the file name |
| FileNames.BeforeQueryUnique | Controllers/ZipController.cs:68 | a `?`-free prefix followed by `?` (or the end) is the part before the query |
| FileNames.SeparatorCutBeforeQuery | Controllers/ZipController.cs:68 | `http://h/a.txt?x=1/b` names its entry `b`: the separator cut happens before the query cut |
| FileNames.QueryDropped | Controllers/ZipController.cs:68 | `http://h/r.pdf?sig=1` names its entry `r.pdf` |
| FileNames.EmptyNames | Controllers/ZipController.cs:68-71 | a URL ending in `/`, or whose last segment starts with `?`, derives the empty name |
| ZipController.Capture | Controllers/ZipController.cs:42-56 | a download task fails exactly on a non-HTTP exception; otherwise it keeps its URL and has content exactly when the GET returned bytes, which it keeps |
| ZipController.Settle | Controllers/ZipController.cs:42-60 | `Task.WhenAll` throws exactly when some download threw a non-HTTP exception; otherwise it returns one record per URL, in URL order, with the URL and its content or null |
| ZipController.PlanEntries | Controllers/ZipController.cs:63-77 | the only way the `foreach` loop fails is `CreateEntry` rejecting an empty name |
| ZipController.AddFile | Controllers/ZipController.cs:63-77 | one loop iteration fails exactly when an earlier one did or the record has content and an empty derived name; otherwise it appends that record's entry when it has content and nothing when it has none |
| ZipController.Respond | Controllers/ZipController.cs:31-85 | the action answers `BadRequest("No file URLs provided.")` exactly when the URL array is null or empty |
| ZipController.Archive | Controllers/ZipController.cs:39-84 | after the URL check the action never answers BadRequest, and a `Task.WhenAll` exception escapes unchanged |
| ZipController.PlanFailurePersists | Controllers/ZipController.cs:63-77 | once `CreateEntry` throws, the loop's outcome is that exception, whatever records follow |
| ZipController.ZipArchive.constructor | Controllers/ZipController.cs:39 | a new archive has no entries |
| ZipController.ZipArchive.CreateEntry | Controllers/ZipController.cs:71-75 | an entry is created exactly when its name is non-empty, and it is appended after the existing entries with the given bytes; otherwise the archive is unchanged |
| ZipController.DownloadMultipleFiles | Controllers/ZipController.cs:31-85 | the imperative action (early return, archive, settle, loop over the records with `CreateEntry`) answers exactly what `Respond` specifies |
| ZipControllerProperties.PlanSucceedsIffNamed | Controllers/ZipController.cs:63-77 | the loop runs to the end exactly when every record with content derives a non-empty name |
| ZipControllerProperties.PlanEntriesInOrder | Controllers/ZipController.cs:63-77 | when the loop runs to the end, its k-th entry is the entry (`EntryFor`: derived name, downloaded bytes) of the k-th record with content: one entry per such record, in input order, nothing else |
| ZipControllerProperties.PlanSkipsNoContent | Controllers/ZipController.cs:65 | a record without content changes nothing, wherever it stands |
| ZipControllerProperties.FaultsUnaffected | Controllers/ZipController.cs:50-60 | an added HTTP failure (with its URL) does not change whether `Settle`, i.e. `Task.WhenAll`, throws |
| ZipControllerProperties.SettleInsertsHttpFailure | Controllers/ZipController.cs:42-60 | an added HTTP failure adds exactly one record without content, at its own position |
| ZipControllerProperties.HttpFailureSkipped | Controllers/ZipController.cs:46-65 | a URL whose download fails with an HTTP error leaves the response what it would be without that URL (when some URL is left) |
| ZipControllerProperties.EmptyRequestRejected | Controllers/ZipController.cs:33-36 | corollary of `Respond`'s contract with the message spelled out: a null or empty URL array is rejected with "No file URLs provided.", whatever the downloads would do |
| ZipControllerProperties.RespondSpec | Controllers/ZipController.cs:31-85 | a non-empty request faults exactly when some download threw a non-HTTP exception; it yields an archive exactly when no download did and every download with bytes derives a non-empty name; the archive's k-th entry holds the derived name and bytes of the k-th successful download, in URL order |
| ZipControllerProperties.AllHttpFailuresGiveEmptyArchive | Controllers/ZipController.cs:46-84 | when every download fails with an HTTP error, the answer is an empty archive, not an error |
| ZipControllerProperties.DuplicateNamesKept | Controllers/ZipController.cs:68-71 | two successful downloads deriving the same name give two entries that carry that same name; no suffix is added |
| ZipControllerProperties.MixedRequest | Controllers/ZipController.cs:31-85 | a worked request: the HTTP failure is skipped, an empty download still gets an entry, the order is the URL order and both `a.txt` entries keep their name |

## Left out

- HTTP I/O: `HttpClient.GetByteArrayAsync` is replaced by the settled outcome of each download, given as input.
- Concurrency: the downloads run in parallel in the source. Only the result of `Task.WhenAll` matters, and that is in task order, so completion order is not modelled.
- ZIP encoding and compression (`CompressionLevel.Fastest`), the `MemoryStream`, `Seek`, and the `File(...)` result with content type `application/zip` and download name `Files.zip`: an archive is modelled as its sequence of entries (name, bytes).
- Routing, model binding and the HTTP status codes of ASP.NET Core are not modelled; a response is `BadRequest`, `Zip` or `Unhandled`.
- The injected `HttpClient` and the controller's constructor (lines 17-20) are not modelled.
- `FileInfo.cs` is not used by the action and is not part of this model.
- `null` elements inside the URL array are not modelled; every URL is a string.
- `\` is not treated as a directory separator; the model follows `Path.GetFileName` on Unix, where only `/` is.
- The numeric-suffix renaming of duplicate names promised by the doc comment at line 25 is absent from the code, so it is absent from the model.
- Escaping exceptions carry no message, URL or exact type; `Unhandled` records only whether a download or `CreateEntry` threw. `CreateEntry` may also throw for names .NET rejects for other reasons; only the empty name is modelled.
- `Task.WhenAll` aggregates several faults into one exception; the model does not record which or how many downloads faulted.
