/**
 * HttpClientWithProgress (UpdateManager/HttpClientWithProgress.cs): the file-name lookup
 * from the Content-Disposition header and the download that streams a response body to a
 * file in 8192-byte reads while raising progress events. A response is given as a value;
 * issuing the request is not part of this model.
 */
module Transport {
  import opened Wrappers
  import opened Domain
  import opened FileStore
  import opened Progress

  datatype ContentDisposition = ContentDisposition(fileName: Option<string>)

  /**
   * An HTTP response as the client sees it after reading the headers: status, the optional
   * Content-Length and Content-Disposition headers, and the results of the successive reads
   * of the body stream.
   */
  datatype HttpResponse = HttpResponse(
    statusCode: int,
    contentLength: Option<nat>,
    contentDisposition: Option<ContentDisposition>,
    body: seq<ReadResult>)

  /** HttpResponseMessage.IsSuccessStatusCode. */
  predicate IsSuccessStatusCode(statusCode: int): (ok: bool)
    ensures ok <==> statusCode / 100 == 2
  {
    200 <= statusCode <= 299
  }

  /** string.Replace("\"", ""): every double quote removed, everything else kept in order. */
  function StripQuotes(s: string): (r: string)
    ensures '"' !in r
    ensures forall c :: c != '"' ==> multiset(r)[c] == multiset(s)[c]
  {
    if s == [] then []
    else
      assert s == [s[0]] + s[1..];
      (if s[0] == '"' then [] else [s[0]]) + StripQuotes(s[1..])
  }

  /**
   * GetFileNameForDownload: null without a Content-Disposition header, otherwise the header's
   * file name without quotes; a header without a file name makes `.Replace` throw.
   */
  function FileNameForDownload(response: HttpResponse): (r: Result<Option<string>, Error>)
    ensures response.contentDisposition.None? <==> r == Success(None)
    ensures r.Failure? <==> response.contentDisposition.Some? && response.contentDisposition.value.fileName.None?
    ensures r.Success? && r.value.Some? ==>
              '"' !in r.value.value &&
              r.value.value == StripQuotes(response.contentDisposition.value.fileName.value)
  {
    match response.contentDisposition
    case None => Success(None)
    case Some(header) =>
      match header.fileName
      case None => Failure(NullReference)
      case Some(name) => Success(Some(StripQuotes(name)))
  }

  /** Removing quotes works piecewise: it distributes over concatenation. */
  lemma {:induction false} StripQuotesAppend(a: string, b: string)
    ensures StripQuotes(a + b) == StripQuotes(a) + StripQuotes(b)
  {
    if a == [] {
      assert a + b == b;
    } else {
      assert (a + b)[0] == a[0];
      assert (a + b)[1..] == a[1..] + b;
      StripQuotesAppend(a[1..], b);
    }
  }

  /** A name without quotes is returned unchanged, so stripping twice equals stripping once. */
  lemma {:induction false} StripQuotesKeepsQuoteFree(s: string)
    requires '"' !in s
    ensures StripQuotes(s) == s
  {
    if s != [] {
      StripQuotesKeepsQuoteFree(s[1..]);
    }
  }

  lemma StripQuotesIdempotent(s: string)
    ensures StripQuotes(StripQuotes(s)) == StripQuotes(s)
  {
    StripQuotesKeepsQuoteFree(StripQuotes(s));
  }

  /**
   * ReadAsync(buffer, 0, buffer.Length) on the body stream: the `position`-th read result is
   * copied into the buffer; past the listed reads the stream is at its end and yields 0.
   */
  method ReadAsync(body: seq<ReadResult>, position: nat, buffer: array<byte>) returns (bytesRead: nat)
    requires buffer.Length == BUFFER_SIZE
    modifies buffer
    ensures position < |body| ==> bytesRead == |body[position]| && buffer[..bytesRead] == body[position]
    ensures position >= |body| ==> bytesRead == 0
  {
    if position >= |body| {
      return 0;
    }
    var chunk := body[position];
    bytesRead := |chunk|;
    for k := 0 to bytesRead
      invariant buffer[..k] == chunk[..k]
    {
      buffer[k] := chunk[k];
    }
  }

  class HttpClientWithProgress {
    /** Whether a handler is subscribed to ProgressChanged (the event is non-null). */
    var hasProgressHandler: bool

    /** A fresh client has no subscriber. */
    constructor ()
      ensures !hasProgressHandler
    {
      hasProgressHandler := false;
    }

    /** `ProgressChanged += handler`. */
    method AddProgressHandler()
      modifies this
      ensures hasProgressHandler
    {
      hasProgressHandler := true;
    }

    /** The events TriggerProgressChanged delivers: none without a subscriber, else one. */
    function TriggerProgressChanged(totalDownloadSize: Option<nat>, totalBytesRead: nat): (r: seq<ProgressEvent>)
      reads this
      ensures |r| == (if hasProgressHandler then 1 else 0)
      ensures forall e :: e in r ==> e.bytesDownloaded == totalBytesRead
      ensures totalDownloadSize.None? ==> forall e :: e in r ==> e.totalBytesToDownload == 0 && e.progressPercentage == 0
    {
      if hasProgressHandler then [EventFor(totalDownloadSize, totalBytesRead)] else []
    }

    /**
     * The copy loop: the destination is created (or truncated), each non-empty read is
     * appended to it, and the first empty read ends the loop. Returns the events delivered to
     * the subscriber, in order.
     */
    method ProcessContentStream(totalDownloadSize: Option<nat>, contentStream: seq<ReadResult>,
                                fs: FileSystem, destinationFilePath: string)
      returns (events: seq<ProgressEvent>)
      modifies fs
      ensures fs.files == old(fs.files)[destinationFilePath := Bytes(Concat(Received(contentStream)))]
      ensures events == if hasProgressHandler then ExpectedEvents(totalDownloadSize, contentStream) else []
    {
      var totalBytesRead: nat := 0;
      var readCount: nat := 0;
      var buffer := new byte[BUFFER_SIZE];
      var isMoreToRead := true;
      ghost var written: seq<byte> := [];
      events := [];
      fs.Create(destinationFilePath);
      while isMoreToRead
        invariant readCount <= FirstEmptyRead(contentStream)
        invariant !isMoreToRead ==> readCount == FirstEmptyRead(contentStream)
        invariant totalBytesRead == ByteCount(contentStream[..readCount])
        invariant written == Concat(contentStream[..readCount])
        invariant fs.files == old(fs.files)[destinationFilePath := Bytes(written)]
        invariant hasProgressHandler ==> events == Checkpoints(totalDownloadSize, contentStream, readCount)
        invariant !hasProgressHandler ==> events == []
        decreases |contentStream| - readCount, isMoreToRead
      {
        var bytesRead := ReadAsync(contentStream, readCount, buffer);
        if bytesRead == 0 {
          isMoreToRead := false;
          continue;
        }
        assert readCount < FirstEmptyRead(contentStream);
        assert buffer[..bytesRead] == contentStream[readCount];
        fs.Append(destinationFilePath, buffer[..bytesRead]);
        PrefixStep(contentStream, readCount);
        CheckpointsStep(totalDownloadSize, contentStream, readCount);
        written := written + contentStream[readCount];
        totalBytesRead := totalBytesRead + bytesRead;
        readCount := readCount + 1;
        if readCount % REPORT_INTERVAL == 0 {
          events := events + TriggerProgressChanged(totalDownloadSize, totalBytesRead);
        }
      }
      assert contentStream[..readCount] == Received(contentStream);
      events := events + TriggerProgressChanged(totalDownloadSize, totalBytesRead);
    }

    /**
     * StartDownload / DownloadFileFromHttpResponseMessage on an already received response:
     * a non-success status throws before the destination is opened; a destination that is a
     * directory (one of `directories`, the directories the caller knows to exist) cannot be
     * opened as a file and throws; otherwise the body is copied by ProcessContentStream.
     */
    method StartDownload(response: HttpResponse, fs: FileSystem, destinationFilePath: string, directories: set<string>)
      returns (r: Result<seq<ProgressEvent>, Error>)
      modifies fs
      ensures !IsSuccessStatusCode(response.statusCode) ==>
                r == Failure(HttpRequestError(response.statusCode)) && fs.files == old(fs.files)
      ensures IsSuccessStatusCode(response.statusCode) && destinationFilePath in directories ==>
                r == Failure(UnauthorizedAccess) && fs.files == old(fs.files)
      ensures IsSuccessStatusCode(response.statusCode) && destinationFilePath !in directories ==>
                r.Success? &&
                r.value == (if hasProgressHandler then ExpectedEvents(response.contentLength, response.body) else []) &&
                fs.files == old(fs.files)[destinationFilePath := Bytes(Concat(Received(response.body)))]
    {
      if !IsSuccessStatusCode(response.statusCode) {
        return Failure(HttpRequestError(response.statusCode));
      }
      if destinationFilePath in directories {
        return Failure(UnauthorizedAccess);
      }
      var events := ProcessContentStream(response.contentLength, response.body, fs, destinationFilePath);
      r := Success(events);
    }
  }
}
