/**
 * The POST action that bundles downloaded files into one ZIP archive
 * (Controllers/ZipController.cs:31-85).
 *
 * The action rejects a missing or empty URL array, starts one download per
 * URL, waits for all of them, and then walks the results in input order,
 * adding one archive entry per download that returned content. A download
 * that fails with an HTTP error yields no content and is skipped; any other
 * failure escapes the action and no archive is returned. The network is not
 * modelled: each URL comes with the already settled outcome of its download.
 */
module ZipController {
  import opened FileNames

  newtype byte = x: int | 0 <= x < 256

  datatype Option<T> = None | Some(value: T)

  datatype Result<T> = Success(value: T) | Failure(error: Error)

  /** Why the action ends with an exception instead of a response. */
  datatype Error =
    | FetchFaulted    // a download threw something other than HttpRequestException
    | EmptyEntryName  // ZipArchive.CreateEntry rejected an empty entry name

  /** How the download of one URL settled. */
  datatype FetchOutcome =
    | Ok(content: seq<byte>)  // GetByteArrayAsync returned these bytes
    | HttpFail                // it threw HttpRequestException, which the action catches
    | OtherFail               // it threw anything else (timeout, invalid URI, ...)

  /** The record each download task returns: its URL and its content, null on an HTTP failure. */
  datatype Downloaded = Downloaded(fileUrl: string, fileContent: Option<seq<byte>>)

  /** One entry of the produced archive. */
  datatype Entry = Entry(name: string, content: seq<byte>)

  /** What the action answers. */
  datatype Response =
    | BadRequest(message: string)
    | Zip(entries: seq<Entry>)
    | Unhandled(error: Error)   // the exception escaped the action

  const NoUrlsMessage: string := "No file URLs provided."

  predicate Fetched(o: FetchOutcome) { o.Ok? }

  predicate HasContent(f: Downloaded) { f.fileContent.Some? }

  /** The entry a download with content becomes. */
  function EntryFor(f: Downloaded): Entry
    requires HasContent(f)
  {
    Entry(DeriveName(f.fileUrl), f.fileContent.value)
  }

  /** The content a settled download leaves in its record: its bytes, or null. */
  function ContentOf(outcome: FetchOutcome): Option<seq<byte>>
  {
    if outcome.Ok? then Some(outcome.content) else None
  }

  /** The body of one download task: an HTTP failure is caught and becomes null content. */
  function Capture(url: string, outcome: FetchOutcome): (r: Result<Downloaded>)
    ensures r.Failure? <==> outcome == OtherFail
    ensures r.Success? ==> r.value.fileUrl == url && (HasContent(r.value) <==> Fetched(outcome))
    ensures r.Success? && Fetched(outcome) ==> r.value.fileContent.value == outcome.content
  {
    match outcome
    case Ok(bytes) => Success(Downloaded(url, Some(bytes)))
    case HttpFail => Success(Downloaded(url, None))
    case OtherFail => Failure(FetchFaulted)
  }

  /**
   * The download tasks (one Capture per URL) followed by Task.WhenAll: the
   * records in task order, or the exception when some task faulted.
   */
  function Settle(urls: seq<string>, outcomes: seq<FetchOutcome>): (r: Result<seq<Downloaded>>)
    requires |urls| == |outcomes|
    ensures r.Failure? <==> OtherFail in outcomes
    ensures r.Failure? ==> r.error == FetchFaulted
    ensures r.Success? ==> |r.value| == |urls|
    ensures r.Success? ==> forall i :: 0 <= i < |urls| ==> r.value[i] == Downloaded(urls[i], ContentOf(outcomes[i]))
  {
    if exists i :: 0 <= i < |urls| && Capture(urls[i], outcomes[i]).Failure? then Failure(FetchFaulted)
    else Success(seq(|urls|, i requires 0 <= i < |urls| => Capture(urls[i], outcomes[i]).value))
  }

  /**
   * The entries the foreach loop writes, in input order, or the exception
   * CreateEntry throws at the first download with content whose derived
   * name is empty.
   */
  function PlanEntries(files: seq<Downloaded>): (r: Result<seq<Entry>>)
    ensures r.Failure? ==> r.error == EmptyEntryName
    decreases |files|
  {
    if files == [] then Success([])
    else AddFile(PlanEntries(files[..|files| - 1]), files[|files| - 1])
  }

  /** One iteration of the foreach loop, applied to the entries written so far. */
  function AddFile(before: Result<seq<Entry>>, file: Downloaded): (r: Result<seq<Entry>>)
    ensures r.Failure? <==> before.Failure? || (HasContent(file) && DeriveName(file.fileUrl) == [])
    ensures r.Success? ==> r.value == before.value + (if HasContent(file) then [EntryFor(file)] else [])
  {
    if before.Failure? || !HasContent(file) then before
    else if DeriveName(file.fileUrl) == [] then Failure(EmptyEntryName)
    else Success(before.value + [EntryFor(file)])
  }

  /** The whole action, as a function of the request and of how each download settled. */
  function Respond(fileUrls: Option<seq<string>>, outcomes: seq<FetchOutcome>): (r: Response)
    requires fileUrls.Some? ==> |outcomes| == |fileUrls.value|
    ensures r.BadRequest? <==> fileUrls == None || fileUrls == Some([])
    ensures r.BadRequest? ==> r.message == NoUrlsMessage
  {
    if fileUrls.None? || |fileUrls.value| == 0 then BadRequest(NoUrlsMessage)
    else Archive(Settle(fileUrls.value, outcomes))
  }

  /** What follows Task.WhenAll: its exception, or the archive the foreach loop writes, or the loop's exception. */
  function Archive(settled: Result<seq<Downloaded>>): (r: Response)
    ensures !r.BadRequest?
    ensures settled.Failure? ==> r == Unhandled(settled.error)
  {
    if settled.Failure? then Unhandled(settled.error)
    else
      match PlanEntries(settled.value)
      case Failure(e) => Unhandled(e)
      case Success(entries) => Zip(entries)
  }

  /** A failure in a prefix of the downloads is the failure of the whole loop. */
  lemma {:induction false} PlanFailurePersists(files: seq<Downloaded>, n: nat)
    requires n <= |files|
    requires PlanEntries(files[..n]).Failure?
    ensures PlanEntries(files) == PlanEntries(files[..n])
    decreases |files| - n
  {
    if n < |files| {
      assert files[..n + 1][..n] == files[..n];
      PlanFailurePersists(files, n + 1);
    } else {
      assert files[..n] == files;
    }
  }

  /** The in-memory archive: the entries created so far, in order. */
  class ZipArchive {
    var entries: seq<Entry>

    constructor ()
      ensures entries == []
    {
      entries := [];
    }

    /**
     * CreateEntry followed by writing the content into the entry's stream.
     * An empty name is rejected with an exception (created is false) and
     * nothing is added.
     */
    method CreateEntry(entryName: string, content: seq<byte>) returns (created: bool)
      modifies this
      ensures created <==> entryName != []
      ensures entries == if created then old(entries) + [Entry(entryName, content)] else old(entries)
    {
      created := entryName != [];
      if created {
        entries := entries + [Entry(entryName, content)];
      }
    }
  }

  /**
   * DownloadMultipleFiles: reject an empty request, settle all downloads,
   * then add one entry per download with content, in input order.
   */
  method DownloadMultipleFiles(fileUrls: Option<seq<string>>, outcomes: seq<FetchOutcome>)
    returns (response: Response)
    requires fileUrls.Some? ==> |outcomes| == |fileUrls.value|
    ensures response == Respond(fileUrls, outcomes)
  {
    if fileUrls.None? || |fileUrls.value| == 0 {
      return BadRequest(NoUrlsMessage);
    }
    var archive := new ZipArchive();
    var settled := Settle(fileUrls.value, outcomes);
    if settled.Failure? {
      return Unhandled(settled.error);
    }
    var files := settled.value;
    var i := 0;
    while i < |files|
      invariant 0 <= i <= |files|
      invariant PlanEntries(files[..i]).Success?
      invariant archive.entries == PlanEntries(files[..i]).value
    {
      var file := files[i];
      assert files[..i + 1][..i] == files[..i];
      assert PlanEntries(files[..i + 1]) == AddFile(PlanEntries(files[..i]), file);
      if file.fileContent.Some? {
        var fileName := DeriveName(file.fileUrl);
        var created := archive.CreateEntry(fileName, file.fileContent.value);
        if !created {
          PlanFailurePersists(files, i + 1);
          return Unhandled(EmptyEntryName);
        }
      }
      i := i + 1;
    }
    assert files[..i] == files;
    response := Zip(archive.entries);
  }
}
