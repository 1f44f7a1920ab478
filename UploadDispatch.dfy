/** `transcodeOnUpload`: the records of one S3 event, in order, each decoded,
    filtered and, when it names an `.mp4` object, submitted as one job. The
    MediaConvert call is external: the run is told which submission, counted
    from 0, throws (`failAt`), and records every request it submits, the one
    that throws included. */
module UploadDispatch {
  import opened Wrappers
  import opened UriCoding
  import opened JobSpec
  import opened Invocation

  /** What the handler can throw: the URIError of a key, or the error of a
      submission. */
  datatype UploadError = KeyMalformed(e: UriError) | SubmitFailed

  const UploadResponse := Response(200, "Started MediaConvert job(s)")

  /** What each record yields, in record order. */
  function Steps(records: seq<UploadRecord>, role: Option<string>): (steps: seq<Result<Option<JobRequest>, UriError>>)
    ensures |steps| == |records|
    ensures forall i :: 0 <= i < |records| ==> steps[i] == DeriveJob(records[i], role)
  {
    seq(|records|, i requires 0 <= i < |records| => DeriveJob(records[i], role))
  }

  lemma StepsAppend(xs: seq<UploadRecord>, ys: seq<UploadRecord>, role: Option<string>)
    ensures Steps(xs + ys, role) == Steps(xs, role) + Steps(ys, role)
  {
    var l, r := Steps(xs + ys, role), Steps(xs, role) + Steps(ys, role);
    forall i | 0 <= i < |l| ensures l[i] == r[i] {
      if i < |xs| {
        assert (xs + ys)[i] == xs[i];
      } else {
        assert (xs + ys)[i] == ys[i - |xs|];
      }
    }
  }

  /** The run, as a fold over what the remaining records yield, from the
      requests `sent` so far. */
  function UploadRun(steps: seq<Result<Option<JobRequest>, UriError>>, failAt: Option<nat>,
                     sent: seq<JobRequest>): (seq<JobRequest>, Outcome<UploadError>)
    decreases |steps|
  {
    if steps == [] then (sent, Returned(UploadResponse))
    else
      match steps[0]
      case Err(e) => (sent, Threw(KeyMalformed(e)))
      case Ok(None) => UploadRun(steps[1..], failAt, sent)
      case Ok(Some(job)) =>
        if failAt == Some(|sent|) then (sent + [job], Threw(SubmitFailed))
        else UploadRun(steps[1..], failAt, sent + [job])
  }

  /** The handler's loop. */
  method TranscodeOnUpload(records: seq<UploadRecord>, role: Option<string>, failAt: Option<nat>)
    returns (sent: seq<JobRequest>, outcome: Outcome<UploadError>)
    ensures (sent, outcome) == UploadRun(Steps(records, role), failAt, [])
  {
    ghost var steps := Steps(records, role);
    sent := [];
    var i := 0;
    while i < |records|
      invariant 0 <= i <= |records|
      invariant UploadRun(steps, failAt, []) == UploadRun(steps[i..], failAt, sent)
    {
      var derived := DeriveJob(records[i], role);
      if derived.Err? {
        outcome := Threw(KeyMalformed(derived.error));
        return;
      }
      if derived.value.Some? {
        var job := derived.value.value;
        var attempt := |sent|;
        if failAt == Some(attempt) {
          sent := sent + [job];
          outcome := Threw(SubmitFailed);
          return;
        }
        UploadRunStep(steps, i, failAt, sent);
        sent := sent + [job];
      } else {
        UploadRunStep(steps, i, failAt, sent);
      }
      i := i + 1;
    }
    outcome := Returned(UploadResponse);
  }

  /** One record of the fold: a record that asks for nothing leaves the
      requests as they are; one whose submission does not throw adds its
      request. */
  lemma UploadRunStep(steps: seq<Result<Option<JobRequest>, UriError>>, i: nat, failAt: Option<nat>,
                      sent: seq<JobRequest>)
    requires i < |steps| && steps[i].Ok?
    requires steps[i].value.Some? ==> failAt != Some(|sent|)
    ensures UploadRun(steps[i..], failAt, sent)
         == UploadRun(steps[i + 1..], failAt, if steps[i].value.Some? then sent + [steps[i].value.value] else sent)
  {
    assert steps[i..][0] == steps[i];
    assert steps[i..][1..] == steps[i + 1..];
  }

  // ---------------------------------------------------------------------
  // What the records ask for
  // ---------------------------------------------------------------------

  /** The requests the records ask for, in order, up to the first key that
      throws; and whether one does. */
  datatype Plan = Plan(jobs: seq<JobRequest>, keyError: bool)

  function PlanOf(steps: seq<Result<Option<JobRequest>, UriError>>): Plan
    decreases |steps|
  {
    if steps == [] then Plan([], false)
    else
      match steps[0]
      case Err(_) => Plan([], true)
      case Ok(None) => PlanOf(steps[1..])
      case Ok(Some(job)) =>
        var rest := PlanOf(steps[1..]);
        Plan([job] + rest.jobs, rest.keyError)
  }

  /** The outcome of a run that planned `plan` and whose submission number
      `failAt` throws. */
  function Expected(plan: Plan, failAt: Option<nat>): (seq<JobRequest>, Outcome<UploadError>) {
    if failAt.Some? && failAt.value < |plan.jobs| then
      (plan.jobs[..failAt.value + 1], Threw(SubmitFailed))
    else if plan.keyError then
      (plan.jobs, Threw(KeyMalformed(URIError)))
    else
      (plan.jobs, Returned(UploadResponse))
  }

  /** A run submits the planned requests in order, one per qualifying
      record; a throwing submission keeps the earlier ones and stops the
      rest; a key that throws stops the rest once the requests before it
      are in; otherwise the handler returns its fixed response, however
      many jobs it started. */
  lemma UploadRunFollowsPlan(records: seq<UploadRecord>, role: Option<string>, failAt: Option<nat>)
    ensures UploadRun(Steps(records, role), failAt, []) == Expected(PlanOf(Steps(records, role)), failAt)
  {
    UploadRunFromStart(Steps(records, role), failAt);
  }

  lemma UploadRunFromStart(steps: seq<Result<Option<JobRequest>, UriError>>, failAt: Option<nat>)
    ensures UploadRun(steps, failAt, []) == Expected(PlanOf(steps), failAt)
  {
    var expected := Expected(PlanOf(steps), failAt);
    UploadRunFrom(steps, failAt, []);
    assert (if failAt.Some? then Some(failAt.value - 0) else None) == failAt;
    assert [] + expected.0 == expected.0;
  }

  lemma {:induction false} UploadRunFrom(steps: seq<Result<Option<JobRequest>, UriError>>,
                                         failAt: Option<nat>, sent: seq<JobRequest>)
    requires failAt.Some? ==> failAt.value >= |sent|
    ensures var shifted := if failAt.Some? then Some(failAt.value - |sent|) else None;
      var expected := Expected(PlanOf(steps), shifted);
      UploadRun(steps, failAt, sent) == (sent + expected.0, expected.1)
    decreases |steps|
  {
    var shifted := if failAt.Some? then Some(failAt.value - |sent|) else None;
    if steps == [] {
      assert sent + [] == sent;
    } else {
      match steps[0]
      case Err(e) =>
        assert e == URIError;
        assert sent + [] == sent;
      case Ok(None) =>
        UploadRunFrom(steps[1..], failAt, sent);
      case Ok(Some(job)) =>
        var rest := PlanOf(steps[1..]);
        if failAt == Some(|sent|) {
          assert ([job] + rest.jobs)[..1] == [job];
        } else {
          UploadRunFrom(steps[1..], failAt, sent + [job]);
          var shifted' := if failAt.Some? then Some(failAt.value - |sent| - 1) else None;
          var e' := Expected(rest, shifted');
          assert sent + [job] + e'.0 == sent + ([job] + e'.0);
          if failAt.Some? && failAt.value - |sent| < 1 + |rest.jobs| {
            assert ([job] + rest.jobs)[..failAt.value - |sent| + 1]
                == [job] + rest.jobs[..failAt.value - |sent| - 1 + 1];
          }
        }
    }
  }

  /** A record whose key decodes to a name not ending with `.mp4` (the
      check is case-sensitive) asks for nothing, wherever it stands. */
  lemma SkippedRecordChangesNothing(xs: seq<UploadRecord>, r: UploadRecord,
                                    ys: seq<UploadRecord>, role: Option<string>)
    requires DeriveJob(r, role) == Ok(None)
    ensures PlanOf(Steps(xs + [r] + ys, role)) == PlanOf(Steps(xs + ys, role))
  {
    StepsAppend(xs + [r], ys, role);
    StepsAppend(xs, [r], role);
    StepsAppend(xs, ys, role);
    assert Steps([r], role) == [Ok(None)];
    SkipStep(Steps(xs, role), Steps(ys, role));
  }

  lemma {:induction false} SkipStep(xs: seq<Result<Option<JobRequest>, UriError>>,
                                    ys: seq<Result<Option<JobRequest>, UriError>>)
    ensures PlanOf(xs + [Ok(None)] + ys) == PlanOf(xs + ys)
    decreases |xs|
  {
    if xs == [] {
      var s := xs + [Ok(None)] + ys;
      assert s[0] == Ok(None) && s[1..] == ys;
      assert xs + ys == ys;
    } else {
      assert (xs + [Ok(None)] + ys)[0] == xs[0] && (xs + ys)[0] == xs[0];
      assert (xs + [Ok(None)] + ys)[1..] == xs[1..] + [Ok(None)] + ys;
      assert (xs + ys)[1..] == xs[1..] + ys;
      SkipStep(xs[1..], ys);
    }
  }

  /** Records are planned in order with no deduplication: the plan of a
      concatenation is the concatenation of the plans, unless a key of the
      first part throws. */
  lemma PlanAppend(xs: seq<UploadRecord>, ys: seq<UploadRecord>, role: Option<string>)
    ensures var p, q := PlanOf(Steps(xs, role)), PlanOf(Steps(ys, role));
      PlanOf(Steps(xs + ys, role)) == if p.keyError then p else Plan(p.jobs + q.jobs, q.keyError)
  {
    StepsAppend(xs, ys, role);
    PlanConcat(Steps(xs, role), Steps(ys, role));
  }

  lemma {:induction false} PlanConcat(xs: seq<Result<Option<JobRequest>, UriError>>,
                                      ys: seq<Result<Option<JobRequest>, UriError>>)
    ensures var p, q := PlanOf(xs), PlanOf(ys);
      PlanOf(xs + ys) == if p.keyError then p else Plan(p.jobs + q.jobs, q.keyError)
    decreases |xs|
  {
    if xs == [] {
      assert xs + ys == ys;
    } else {
      assert (xs + ys)[0] == xs[0];
      assert (xs + ys)[1..] == xs[1..] + ys;
      PlanConcat(xs[1..], ys);
      match xs[0]
      case Err(_) =>
      case Ok(None) =>
      case Ok(Some(job)) =>
        var p1, q := PlanOf(xs[1..]), PlanOf(ys);
        if !p1.keyError {
          assert [job] + (p1.jobs + q.jobs) == ([job] + p1.jobs) + q.jobs;
        }
    }
  }

  /** A key with a malformed escape throws while decoding, before the
      `.mp4` filter sees it: the invocation ends with the requests of the
      records before it, whatever its extension and whatever follows. */
  lemma MalformedKeyAborts(xs: seq<UploadRecord>, r: UploadRecord, ys: seq<UploadRecord>, role: Option<string>)
    requires DecodeKey(r.rawKey).Err?
    requires !PlanOf(Steps(xs, role)).keyError
    ensures UploadRun(Steps(xs + [r] + ys, role), None, [])
         == (PlanOf(Steps(xs, role)).jobs, Threw(KeyMalformed(URIError)))
  {
    PlanAppend(xs + [r], ys, role);
    PlanAppend(xs, [r], role);
    var one := Steps([r], role);
    assert one[0].Err? && one[1..] == [];
    assert PlanOf(Steps(xs, role)).jobs + [] == PlanOf(Steps(xs, role)).jobs;
    UploadRunFollowsPlan(xs + [r] + ys, role, None);
  }

  /** The extension check is case-sensitive: a key that decodes to
      `<stem>.MP4` asks for nothing. */
  lemma UpperCaseExtensionSkipped(r: UploadRecord, role: Option<string>, stem: string)
    requires DecodeKey(r.rawKey) == Ok(stem + ".MP4")
    ensures DeriveJob(r, role) == Ok(None)
  {
    var k := stem + ".MP4";
    assert k[|k| - 3] == 'M';
  }

  /** Two records for the same `.mp4` object start two identical jobs. */
  lemma DuplicateRecordsTwoJobs(r: UploadRecord, role: Option<string>)
    requires DeriveJob(r, role).Ok? && DeriveJob(r, role).value.Some?
    ensures var job := DeriveJob(r, role).value.value;
      UploadRun(Steps([r, r], role), None, []) == ([job, job], Returned(UploadResponse))
  {
    var job := DeriveJob(r, role).value.value;
    var steps := Steps([r, r], role);
    var tail := steps[1..];
    assert steps[0] == Ok(Some(job)) && tail[0] == Ok(Some(job)) && tail[1..] == [];
    assert [] + [job] == [job] && [job] + [job] == [job, job];
    calc {
      UploadRun(steps, None, []);
      UploadRun(tail, None, [job]);
      UploadRun([], None, [job, job]);
    }
  }
}
