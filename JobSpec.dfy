/** The per-record part of `transcodeOnUpload`: from one S3 upload record,
    the decoded key, the `.mp4` filter and the MediaConvert job request
    (input location, HLS destination, fixed encoding profile and the
    correlation metadata that the completion event echoes back). */
module JobSpec {
  import opened Wrappers
  import opened UriCoding
  import opened PosixPath

  /** One S3 event record, as far as the handler reads it:
      `rec.s3.bucket.name` and the still-encoded `rec.s3.object.key`. */
  datatype UploadRecord = UploadRecord(bucket: string, rawKey: string)

  /** The job's `UserMetadata`, which MediaConvert passes through unchanged. */
  datatype UserMetadata = UserMetadata(originalKey: string, outPrefix: string)

  datatype HlsGroupSettings = HlsGroupSettings(
    segmentLength: nat, minSegmentLength: nat, manifestDurationFormat: string,
    outputSelection: string, directoryStructure: string,
    manifestCompression: string, manifestEncoding: string)

  datatype H264Settings = H264Settings(
    rateControlMode: string, sceneChangeDetect: string, maxBitrate: nat,
    qvbrQualityLevel: nat, codecProfile: string, framerateControl: string,
    gopSize: nat, gopBReference: string, adaptiveQuantization: string,
    entropyEncoding: string, numberBFramesBetweenReferenceFrames: nat,
    interlaceMode: string, parControl: string)

  datatype AacSettings = AacSettings(bitrate: nat, codingMode: string, sampleRate: nat)

  /** Everything in the job's `Settings` except the input location and the
      HLS destination: configuration that no input changes. */
  datatype EncodingProfile = EncodingProfile(
    audioSelectorName: string, audioDefaultSelection: string,
    outputGroupName: string, outputGroupType: string, hls: HlsGroupSettings,
    nameModifier: string, container: string,
    videoCodec: string, h264: H264Settings,
    audioSourceName: string, audioCodec: string, aac: AacSettings)

  const HlsProfile: EncodingProfile := EncodingProfile(
    "Audio Selector 1", "DEFAULT",
    "HLS Group", "HLS_GROUP_SETTINGS",
    HlsGroupSettings(6, 0, "INTEGER", "MANIFESTS_AND_SEGMENTS", "SINGLE_DIRECTORY", "NONE", "UTF8"),
    "_hls", "M3U8",
    "H_264",
    H264Settings("QVBR", "TRANSITION_DETECTION", 5000000, 8, "MAIN", "INITIALIZE_FROM_SOURCE",
                 90, "ENABLED", "HIGH", "CABAC", 2, "PROGRESSIVE", "INITIALIZE_FROM_SOURCE"),
    "Audio Selector 1", "AAC",
    AacSettings(96000, "CODING_MODE_2_0", 48000))

  /** The `CreateJobCommand` parameters. `role` is the environment's
      `MEDIACONVERT_ROLE_ARN`, which may be unset. */
  datatype JobRequest = JobRequest(
    role: Option<string>, fileInput: string, destination: string,
    profile: EncodingProfile, userMetadata: UserMetadata)

  const OutputRoot := "processed/"

  function S3Uri(bucket: string, key: string): string {
    "s3://" + bucket + "/" + key
  }

  /** The output prefix of a decoded `.mp4` key: `processed/<name>/`. */
  function OutPrefix(key: string): (p: string)
    requires EndsWith(key, ".mp4")
  {
    OutputRoot + ParseName(key) + "/"
  }

  /** The request for a decoded key that passed the filter. */
  function BuildRequest(bucket: string, key: string, role: Option<string>): JobRequest
    requires EndsWith(key, ".mp4")
  {
    var outPrefix := OutPrefix(key);
    JobRequest(role, S3Uri(bucket, key), S3Uri(bucket, outPrefix), HlsProfile,
               UserMetadata(key, outPrefix))
  }

  /** What one record yields: the URIError its key throws, no request when
      the decoded key does not end with `.mp4`, or the request to submit. */
  function DeriveJob(rec: UploadRecord, role: Option<string>): (r: Result<Option<JobRequest>, UriError>)
    ensures r.Err? <==> DecodeKey(rec.rawKey).Err?
    ensures r.Ok? ==> (r.value.Some? <==> EndsWith(DecodeKey(rec.rawKey).value, ".mp4"))
    ensures r.Ok? && r.value.Some? ==>
      r.value.value == BuildRequest(rec.bucket, DecodeKey(rec.rawKey).value, role)
  {
    match DecodeKey(rec.rawKey)
    case Err(e) => Err(e)
    case Ok(key) =>
      if EndsWith(key, ".mp4") then Ok(Some(BuildRequest(rec.bucket, key, role))) else Ok(None)
  }

  // ---------------------------------------------------------------------
  // Reading the request back
  // ---------------------------------------------------------------------

  /** Splits `s3://<bucket>/<key>` at the first `/` after the scheme, as a
      consumer of the URI does. */
  function ParseS3Uri(u: string): (r: Option<(string, string)>)
  {
    if |u| < 5 || u[..5] != "s3://" then None
    else
      var rest := u[5..];
      var i := FirstSlash(rest);
      if i == |rest| then None else Some((rest[..i], rest[i + 1..]))
  }

  function FirstSlash(s: string): (i: nat)
    ensures i <= |s|
    ensures i < |s| ==> s[i] == '/'
    ensures forall j :: 0 <= j < i ==> s[j] != '/'
  {
    if s == [] || s[0] == '/' then 0 else 1 + FirstSlash(s[1..])
  }

  /** An S3 URI built from a bucket name (which never holds `/`) parses back
      into that bucket and key. */
  lemma ParseS3UriInverse(bucket: string, key: string)
    requires '/' !in bucket
    ensures ParseS3Uri(S3Uri(bucket, key)) == Some((bucket, key))
  {
    var u := S3Uri(bucket, key);
    assert u[..5] == "s3://";
    var rest := u[5..];
    assert rest == bucket + "/" + key;
    FirstSlashAt(bucket, key);
    assert rest[..|bucket|] == bucket;
    assert rest[|bucket| + 1..] == key;
  }

  lemma {:induction false} FirstSlashAt(a: string, b: string)
    requires '/' !in a
    ensures FirstSlash(a + "/" + b) == |a|
  {
    if a != [] {
      assert (a + "/" + b)[1..] == a[1..] + "/" + b;
      FirstSlashAt(a[1..], b);
    }
  }

  /** The request is internally consistent: MediaConvert reads the object
      the record named and writes under the prefix the metadata carries,
      in the same bucket; the metadata carries the decoded key; the role
      and the profile are passed through. */
  lemma RequestConsistent(bucket: string, key: string, role: Option<string>)
    requires '/' !in bucket && EndsWith(key, ".mp4")
    ensures var j := BuildRequest(bucket, key, role);
      && ParseS3Uri(j.fileInput) == Some((bucket, j.userMetadata.originalKey))
      && ParseS3Uri(j.destination) == Some((bucket, j.userMetadata.outPrefix))
      && j.userMetadata.originalKey == key
      && j.role == role && j.profile == HlsProfile
  {
    ParseS3UriInverse(bucket, key);
    ParseS3UriInverse(bucket, OutPrefix(key));
  }

  /** Every output prefix is one non-empty folder directly under
      `processed/`, named after the key's base name. */
  lemma PrefixIsOneFolder(key: string)
    requires EndsWith(key, ".mp4")
    ensures var p := OutPrefix(key);
      && |p| > |OutputRoot| + 1 && p[..|OutputRoot|] == OutputRoot && p[|p| - 1] == '/'
      && p[|OutputRoot|..|p| - 1] == ParseName(key) && '/' !in p[|OutputRoot|..|p| - 1]
  {
    var p := OutPrefix(key);
    assert p[|OutputRoot|..|p| - 1] == ParseName(key);
  }

  /** The output prefix depends on the base name only: `<dir>/<stem>.mp4`
      is written under `processed/<stem>/` whatever the folder, so the same
      file name uploaded under two folders shares one prefix. */
  lemma {:induction false} SameNameSamePrefix(dir1: string, dir2: string, stem: string)
    requires '/' !in stem && stem != []
    ensures OutPrefix(dir1 + "/" + stem + ".mp4") == OutputRoot + stem + "/"
    ensures OutPrefix(dir1 + "/" + stem + ".mp4") == OutPrefix(dir2 + "/" + stem + ".mp4")
  {
    BaseNameOf(dir1, stem);
    BaseNameOf(dir2, stem);
  }

  /** A key without folder, `<stem>.mp4`, is written under
      `processed/<stem>/` in the bucket it came from. */
  lemma TopLevelPrefix(bucket: string, stem: string, role: Option<string>)
    requires '/' !in stem && stem != []
    ensures EndsWith(stem + ".mp4", ".mp4")
    ensures BuildRequest(bucket, stem + ".mp4", role).destination
      == S3Uri(bucket, OutputRoot + stem + "/")
  {
    TopLevelName(stem);
  }
}
