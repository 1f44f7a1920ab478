# Lambda video transcoding: a Dafny model of the two handlers

The repository is two AWS Lambda handlers in `handler.js`. This project models both and proves properties of the model.

- `transcodeOnUpload` receives an S3 upload event. For each record it:
  - decodes the object key: every `+` becomes a space, then `decodeURIComponent` runs;
  - skips any key that does not end with `.mp4` (the check is case-sensitive);
  - submits one MediaConvert job that transcodes `s3://<bucket>/<key>` into HLS under `s3://<bucket>/processed/<name>/`;
  - records the decoded key and the output prefix in the job's `UserMetadata`.
- `onConvertComplete` receives MediaConvert state-change events, either one event or a `Records` batch. For every record whose status is exactly `COMPLETE` it posts `{originalKey, playlistPath}` to a backend. The playlist path is the echoed prefix followed by the playlist name.

Modules:

- `Wrappers` holds `Option` and `Result`.
- `Invocation` holds the Lambda response and the invocation outcome: it returns a response or it throws.
- `UriCoding` models the key decoding.
  - It follows the abstract operation Decode of ECMA-262 (section 19.2.6.6 of the 2024 edition) and RFC 3629 (UTF-8).
  - It also holds the form encoding that S3 applies to keys in event records. The decoding is proved to invert it.
- `PosixPath` models `path.parse(key).name` of Node's POSIX path module, for keys ending with `.mp4`.
- `JobSpec` models what one upload record yields: the decoding error, no job, or the `CreateJobCommand` request with its fixed encoding profile.
- `UploadDispatch` models the upload handler's loop and proves it against a fold, and the fold against a plan.
- `CompletionDispatch` does the same for the completion handler.
- `Correlation` follows one upload through both handlers.
- `Scenarios` checks a few concrete events.

External calls are abstracted.

- `mc.send(...)` and `fetch(...)` followed by `response.json()` are modelled as a failure point.
- A method is told which submission or post, counted from 0, throws (`failAt`).
- It returns every request it handed over, including the one that threw, together with the outcome.

## Model

| member | source | states |
|---|---|---|
| UriCoding.ReplacePlus | handler.js:18 | every `+` becomes a space, every other character is kept in place, and no `+` remains |
| UriCoding.PercentDecode | handler.js:18 | `decodeURIComponent`: text without `%` is returned unchanged, and a decoded text is never longer than its input |
| UriCoding.DecodeEscape | handler.js:18 | one escape group consumes between 3 characters and the rest of the input |
| UriCoding.Utf8RoundTrip | handler.js:18 | the UTF-8 octets of any scalar value decode back to it, and the lead octet's leading ones give the sequence length as ECMA-262 reads it |
| UriCoding.Utf8Unique | handler.js:18 | only the shortest-form encoding of a character decodes to it: overlong forms are rejected |
| UriCoding.DecodeEscapedChar | handler.js:18 | the escapes of a character's UTF-8 octets form one group that decodes to that character |
| UriCoding.DecodeAppend | handler.js:18 | decoding a well-formed prefix followed by anything equals the prefix's decoding concatenated with the rest's |
| UriCoding.MalformedEscapeThrows | handler.js:18 | a `%` that is not followed by two hex digits throws URIError, whatever text precedes it: no group that decodes can swallow it |
| UriCoding.PlusGroup | handler.js:18 | the only escape groups that decode to `+` are `%2B` and `%2b` |
| UriCoding.NoPlusDecoded | handler.js:18 | decoding text that holds neither `+` nor an escape of `+` yields no `+` |
| UriCoding.NoPlusInDecodedKey | handler.js:18 | for every raw key that decodes, a `+` in the decoded key comes only from a `%2B` or `%2b` escape: no literal `+` survives |
| UriCoding.DecodeKey | handler.js:18 | a key without `%` decodes to the key with `+` replaced by spaces, and the result holds no `+` |
| UriCoding.DecodeKeyRoundTrip | handler.js:18 | decoding inverts S3's form encoding of any key, for any choice of literal characters that excludes `%` and `+` |
| UriCoding.PlainKeyUnchanged | handler.js:18 | a key with neither `%` nor `+` decodes to itself |
| UriCoding.GroupInKey | handler.js:18 | in a key whose only escape is one group, the group decodes to its character and each literal `+` to a space |
| UriCoding.EscapedPlusDecodes | handler.js:18 | `%2B` decodes to `+`, while a literal `+` becomes a space |
| PosixPath.ParseName | handler.js:21 | the base name of a `.mp4` key is non-empty and contains no `/` |
| PosixPath.DotFileName | handler.js:21 | a last segment that is exactly `.mp4` is a dot-file and is its own name |
| PosixPath.StemName | handler.js:21 | otherwise the key ends with `<name>.mp4`, and the name starts the key or follows a `/` |
| PosixPath.BaseNameOf | handler.js:21 | the name of `<dir>/<stem>.mp4` is `stem` |
| PosixPath.TopLevelName | handler.js:21 | the name of `<stem>.mp4` is `stem` |
| JobSpec.DeriveJob | handler.js:17-101 | a record throws exactly when its key's decoding throws; it yields a job exactly when the decoded key ends with `.mp4`, and that job is the request for the decoded key |
| JobSpec.ParseS3UriInverse | handler.js:30 | an `s3://` URI over a bucket name without `/` parses back into that bucket and key |
| JobSpec.RequestConsistent | handler.js:25-100 | the input URI names the record's bucket and the key in the metadata; the destination names the same bucket and the prefix in the metadata; the metadata key is the decoded key; role and profile are passed through |
| JobSpec.PrefixIsOneFolder | handler.js:21-22 | every output prefix is `processed/`, then one non-empty folder name without `/` (the base name), then `/` |
| JobSpec.SameNameSamePrefix | handler.js:21-22 | `<dir>/<stem>.mp4` goes to `processed/<stem>/` whatever the folder, so equal file names in different folders share one prefix |
| JobSpec.TopLevelPrefix | handler.js:21-23 | `<stem>.mp4` has destination `s3://<bucket>/processed/<stem>/` |
| UploadDispatch.TranscodeOnUpload | handler.js:16-107 | the handler's loop returns the requests and the outcome of the upload fold over its records |
| UploadDispatch.UploadRunFollowsPlan | handler.js:16-107 | the planned requests are submitted in record order. A throwing submission keeps the earlier ones and stops. A throwing key stops after the requests before it. Otherwise the handler returns 200 "Started MediaConvert job(s)" |
| UploadDispatch.SkippedRecordChangesNothing | handler.js:19 | a record whose decoded key does not end with `.mp4` changes nothing in the plan, wherever it stands |
| UploadDispatch.UpperCaseExtensionSkipped | handler.js:19 | a key that decodes to `<stem>.MP4` yields no job |
| UploadDispatch.PlanAppend | handler.js:16 | the plan of concatenated records is the concatenation of their plans, with no deduplication, unless a key of the first part throws |
| UploadDispatch.MalformedKeyAborts | handler.js:18 | a malformed key ends the invocation with URIError after the requests of the earlier records, whatever its extension and whatever follows |
| UploadDispatch.DuplicateRecordsTwoJobs | handler.js:16-104 | two records for the same `.mp4` object start two identical jobs |
| CompletionDispatch.NotificationFor | handler.js:114-115 | a record leads to a notification exactly when its own detail, or else the event's detail, has status exactly `COMPLETE` |
| CompletionDispatch.OnConvertComplete | handler.js:113-133 | the handler's loop returns the bodies and the outcome of the completion fold over `Records`, or over the event itself |
| CompletionDispatch.CompletionRunFollowsNotices | handler.js:113-133 | the notices are posted in order. A throwing post keeps the earlier ones and stops. Otherwise the handler returns 200 "Backend updated" |
| CompletionDispatch.NoticesAppend | handler.js:113 | records are notified independently and in order: a concatenated batch's notices are the concatenation of its parts' notices |
| CompletionDispatch.SkippedRecordNotifiesNothing | handler.js:115 | a record without a detail, or with any other status, changes no notice, wherever it stands |
| CompletionDispatch.NothingUnlessComplete | handler.js:115 | a batch posts nothing exactly when none of its records is COMPLETE |
| CompletionDispatch.ShapesAgree | handler.js:113-114 | a single event is handled like a one-record batch with the same detail, or with no detail of its own that falls back to the event's |
| CompletionDispatch.EmptyRecordsNotifyNothing | handler.js:113 | an empty `Records` array posts nothing, even when the event carries a COMPLETE detail |
| Correlation.CompletedJobNotified | handler.js:117-128 | a completed job's echoed metadata yields one body: its key, and its prefix followed by the playlist name |
| Correlation.PrefixComesBack | handler.js:97-120 | when the job submitted for a record completes, the backend receives the decoded key and a playlist path under the job's own HLS destination |
| Correlation.FailedJobNotNotified | handler.js:115 | a job that ends in any status other than COMPLETE leads to no post, and the handler still returns its response |
| Correlation.StoredKeyReachesBackend | handler.js:18-128 | for a form-encoded `.mp4` key, one job is submitted with the stored key and `processed/<name>/`; on completion the backend receives the stored key and `processed/<name>/<playlist>` |
| Scenarios.LoneContinuationThrows | handler.js:18 | the key `%80.mp4` throws URIError |
| Scenarios.CompleteAndErrorEvents | handler.js:113-133 | a COMPLETE event for `a.mp4` posts `processed/a/index.m3u8`, and an ERROR event posts nothing |
| Scenarios.MissingMetadataStillPosted | handler.js:117-128 | a COMPLETE event without metadata is still posted, with path `undefinedindex.m3u8` and no key |

The model follows these details of the code:

- The HLS `Destination` includes the `s3://` scheme (handler.js:23).
- `fetch` does not throw on a non-2xx response, so a backend error status is not a failure of the invocation. Only a throw at the call, or at `response.json()`, is one.
- A COMPLETE event without `userMetadata` is still posted. Its path starts with `undefined`, and its body has no `originalKey`, because `JSON.stringify` drops undefined fields.
- An empty `Records` array is truthy, so such an event posts nothing even when it carries its own detail.

## Left out

- The MediaConvert client and its region (handler.js:6-10, 14) are left out: they only configure the external service.
- The `console.log` calls (handler.js:13, 103, 111, 130) are left out. Only the throw of `response.json()` is kept, as part of the failure point.
- The backend URL, the headers, the `secret` value and the HTTP method of the post are left out. The model keeps only the JSON body and whether the call throws.
- Environment variables are parameters: `MEDIACONVERT_ROLE_ARN` is `role` and `PLAYLIST_NAME` is `playlistName`. Both are optional because either may be unset.
- The handlers are `async` and await each call before the next. The model is sequential, which matches the order of effects.
- Events whose shape does not match are left out. A missing `Records` array or a missing `s3` field in the upload event would throw a TypeError. Non-string statuses and metadata values are not modelled.
- `null` and `undefined` are both modelled as absent. The template literal would render `null` as `null`.
- UriCoding.PercentDecode: JavaScript strings are UTF-16, and a Dafny `char` is a Unicode scalar value. A four-octet escape therefore decodes to one character here, where JavaScript holds a surrogate pair. The set of accepted inputs and the errors are the same.
- PosixPath.ParseName: modelled only for keys ending with `.mp4`, the only keys the handler parses. Trailing slashes and other extensions never reach it.
- JobSpec.HlsProfile: the encoding settings of handler.js:27-96 are one constant. MediaConvert's interpretation of them is not modelled.
