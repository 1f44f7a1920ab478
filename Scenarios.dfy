/** Concrete inputs: an invalid UTF-8 escape, and the completion events
    of a finished, a failed and a metadata-less job. */
module Scenarios {
  import opened Wrappers
  import opened UriCoding
  import opened PosixPath
  import opened JobSpec
  import opened Invocation
  import opened UploadDispatch
  import opened CompletionDispatch
  import opened Correlation

  /** A lone continuation octet is not UTF-8: the key throws. */
  lemma LoneContinuationThrows()
    ensures DecodeKey("%80.mp4") == Err(URIError)
  {
    var s := "%80.mp4";
    assert ReplacePlus(s) == s;
    assert LeadingOnes(0x80) == 1;
  }

  /** A COMPLETE event for `a.mp4` tells the backend the key and
      `processed/a/index.m3u8`; an ERROR event tells it nothing. */
  lemma CompleteAndErrorEvents()
    ensures var meta := Metadata(Some("a.mp4"), Some("processed/a/"));
      Completion(CompletionEvent(None, Some(Detail(Some("COMPLETE"), Some(meta)))), Some("index.m3u8"))
        == ([Notification(Some("a.mp4"), "processed/a/" + "index.m3u8")], Returned(CompletionResponse))
    ensures var meta := Metadata(Some("a.mp4"), Some("processed/a/"));
      Completion(CompletionEvent(None, Some(Detail(Some("ERROR"), Some(meta)))), Some("index.m3u8"))
        == ([], Returned(CompletionResponse))
  {
    var job := JobRequest(None, "", "", HlsProfile, UserMetadata("a.mp4", "processed/a/"));
    CompletedJobNotified(job, "index.m3u8");
    FailedJobNotNotified(job, "ERROR", Some("index.m3u8"));
  }

  /** A COMPLETE event without metadata is still posted: the prefix
      renders as `undefined` and the body has no `originalKey`. */
  lemma MissingMetadataStillPosted()
    ensures Completion(CompletionEvent(None, Some(Detail(Some("COMPLETE"), None))), Some("index.m3u8"))
         == ([Notification(None, "undefinedindex.m3u8")], Returned(CompletionResponse))
  {
    var event := CompletionEvent(None, Some(Detail(Some("COMPLETE"), None)));
    var n := Notification(None, "undefinedindex.m3u8");
    var asks := Asks(Batch(event), event.detail, Some("index.m3u8"));
    assert "undefined" + "index.m3u8" == "undefinedindex.m3u8";
    assert asks == [Some(n)];
    assert CompletionRun(asks, None, []) == CompletionRun(asks[1..], None, [] + [n]);
    assert asks[1..] == [] && [] + [n] == [n];
  }
}
