/** The two handlers share no state: the output prefix chosen at
    submission reaches the completion handler only through the job's
    `UserMetadata`, which MediaConvert echoes back. These lemmas follow one
    upload through both handlers. */
module Correlation {
  import opened Wrappers
  import opened UriCoding
  import opened PosixPath
  import opened JobSpec
  import opened Invocation
  import opened UploadDispatch
  import opened CompletionDispatch

  /** The metadata of a job as its completion event carries it back. */
  function Echo(m: UserMetadata): Metadata {
    Metadata(Some(m.originalKey), Some(m.outPrefix))
  }

  /** The state-change event MediaConvert sends for `job`. */
  function CompletionOf(job: JobRequest, status: string): CompletionEvent {
    CompletionEvent(None, Some(Detail(Some(status), Some(Echo(job.userMetadata)))))
  }

  /** The completion run for `event` when no POST throws. */
  function Completion(event: CompletionEvent, playlistName: Option<string>)
    : (seq<Notification>, Outcome<NotifyError>)
  {
    CompletionRun(Asks(Batch(event), event.detail, playlistName), None, [])
  }

  /** A completed job's echoed metadata yields one notification: the key
      it carries, and the prefix it carries followed by the playlist name. */
  lemma CompletedJobNotified(job: JobRequest, playlistName: string)
    ensures Completion(CompletionOf(job, CompleteStatus), Some(playlistName))
         == ([Notification(Some(job.userMetadata.originalKey), job.userMetadata.outPrefix + playlistName)],
             Returned(CompletionResponse))
  {
    var event := CompletionOf(job, CompleteStatus);
    var n := Notification(Some(job.userMetadata.originalKey), job.userMetadata.outPrefix + playlistName);
    assert NotificationFor(CompletionRecord(event.detail), event.detail, Some(playlistName)) == Some(n);
    var asks := Asks(Batch(event), event.detail, Some(playlistName));
    assert asks == [Some(n)];
    assert CompletionRun(asks, None, []) == CompletionRun(asks[1..], None, [] + [n]);
    assert asks[1..] == [] && [] + [n] == [n];
  }

  /** Round trip: when the job submitted for a record completes, the
      backend is told the decoded key and a playlist path made of the very
      prefix the job was told to write to, so the playlist lies under the
      job's HLS destination. */
  lemma PrefixComesBack(rec: UploadRecord, role: Option<string>, playlistName: string, job: JobRequest)
    requires '/' !in rec.bucket
    requires DeriveJob(rec, role) == Ok(Some(job))
    ensures Completion(CompletionOf(job, CompleteStatus), Some(playlistName))
         == ([Notification(Some(DecodeKey(rec.rawKey).value), job.userMetadata.outPrefix + playlistName)],
             Returned(CompletionResponse))
    ensures ParseS3Uri(job.destination) == Some((rec.bucket, job.userMetadata.outPrefix))
    ensures S3Uri(rec.bucket, job.userMetadata.outPrefix + playlistName) == job.destination + playlistName
  {
    var key := DecodeKey(rec.rawKey).value;
    assert job == BuildRequest(rec.bucket, key, role);
    BuiltJobComesBack(rec.bucket, key, role, playlistName);
  }

  lemma BuiltJobComesBack(bucket: string, key: string, role: Option<string>, playlistName: string)
    requires '/' !in bucket && EndsWith(key, ".mp4")
    ensures var job := BuildRequest(bucket, key, role);
      && Completion(CompletionOf(job, CompleteStatus), Some(playlistName))
         == ([Notification(Some(key), job.userMetadata.outPrefix + playlistName)], Returned(CompletionResponse))
      && ParseS3Uri(job.destination) == Some((bucket, job.userMetadata.outPrefix))
      && S3Uri(bucket, job.userMetadata.outPrefix + playlistName) == job.destination + playlistName
  {
    var job := BuildRequest(bucket, key, role);
    var p := job.userMetadata.outPrefix;
    ParseS3UriInverse(bucket, p);
    CompletedJobNotified(job, playlistName);
    assert S3Uri(bucket, p + playlistName) == S3Uri(bucket, p) + playlistName;
  }

  /** A job that ends in any other status than `COMPLETE` (ERROR, say)
      leads to no notification; the handler still returns its response. */
  lemma FailedJobNotNotified(job: JobRequest, status: string, playlistName: Option<string>)
    requires status != CompleteStatus
    ensures Completion(CompletionOf(job, status), playlistName) == ([], Returned(CompletionResponse))
  {
    var event := CompletionOf(job, status);
    var asks := Asks(Batch(event), event.detail, playlistName);
    assert asks == [None];
    assert CompletionRun(asks, None, []) == CompletionRun(asks[1..], None, []);
    assert asks[1..] == [];
  }

  /** End to end from the storage key: S3 form-encodes the key of an
      uploaded `.mp4` object into its event record; the upload handler
      submits exactly one job, whose metadata holds the stored key and the
      prefix `processed/<name>/`; and when that job completes the backend
      receives the stored key and `processed/<name>/<playlist>`. */
  lemma StoredKeyReachesBackend(keep: char -> bool, bucket: string, key: string,
                                role: Option<string>, playlistName: string)
    requires forall x :: keep(x) ==> x != '%' && x != '+'
    requires '/' !in bucket && EndsWith(key, ".mp4")
    ensures var rec := UploadRecord(bucket, FormEncode(keep, key));
      var (sent, outcome) := UploadRun(Steps([rec], role), None, []);
      && outcome == Returned(UploadResponse)
      && |sent| == 1
      && sent[0].userMetadata == UserMetadata(key, OutputRoot + ParseName(key) + "/")
      && Completion(CompletionOf(sent[0], CompleteStatus), Some(playlistName))
         == ([Notification(Some(key), OutputRoot + ParseName(key) + "/" + playlistName)],
             Returned(CompletionResponse))
  {
    var rec := UploadRecord(bucket, FormEncode(keep, key));
    DecodeKeyRoundTrip(keep, key);
    var job := BuildRequest(bucket, key, role);
    assert DeriveJob(rec, role) == Ok(Some(job));
    var steps := Steps([rec], role);
    assert steps == [Ok(Some(job))];
    assert UploadRun(steps, None, []) == UploadRun(steps[1..], None, [] + [job]);
    assert steps[1..] == [] && [] + [job] == [job];
    CompletedJobNotified(job, playlistName);
  }
}
