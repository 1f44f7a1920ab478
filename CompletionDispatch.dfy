/** `onConvertComplete`: a MediaConvert state-change event, alone or in a
    batch, becomes one backend notification per record whose status is
    exactly `COMPLETE`. The POST to the backend is external: the run is
    told which notification, counted from 0, throws (`failAt`), and records
    every body it posts, the one that throws included. */
module CompletionDispatch {
  import opened Wrappers
  import opened Invocation

  /** The job's `userMetadata` as it comes back; either field may be absent. */
  datatype Metadata = Metadata(originalKey: Option<string>, outPrefix: Option<string>)

  /** An event's `detail`: the job status and the echoed metadata. */
  datatype Detail = Detail(status: Option<string>, userMetadata: Option<Metadata>)

  datatype CompletionRecord = CompletionRecord(detail: Option<Detail>)

  /** The handler's argument: a batch when `Records` is present (an empty
      array included, since it is truthy), otherwise a single event. */
  datatype CompletionEvent = CompletionEvent(records: Option<seq<CompletionRecord>>, detail: Option<Detail>)

  /** The JSON body posted to the backend. `JSON.stringify` leaves out a
      field whose value is undefined, so a missing `originalKey` is absent
      from the body. */
  datatype Notification = Notification(originalKey: Option<string>, playlistPath: string)

  datatype NotifyError = PostFailed

  const CompleteStatus := "COMPLETE"

  const CompletionResponse := Response(200, "Backend updated")

  /** `event.Records || [event]`. */
  function Batch(event: CompletionEvent): (batch: seq<CompletionRecord>)
  {
    if event.records.Some? then event.records.value else [CompletionRecord(event.detail)]
  }

  /** `rec.detail || event.detail`. */
  function DetailOf(rec: CompletionRecord, fallback: Option<Detail>): Option<Detail> {
    if rec.detail.Some? then rec.detail else fallback
  }

  predicate IsComplete(detail: Option<Detail>) {
    detail.Some? && detail.value.status == Some(CompleteStatus)
  }

  /** A template literal renders an undefined value as `undefined`. */
  function Interpolate(v: Option<string>): (s: string)
    ensures v.Some? ==> s == v.value
    ensures v.None? ==> s == "undefined"
  {
    match v
    case Some(text) => text
    case None => "undefined"
  }

  /** The notification a record leads to, if any. `playlistName` is the
      environment's `PLAYLIST_NAME`, which may be unset. */
  function NotificationFor(rec: CompletionRecord, fallback: Option<Detail>, playlistName: Option<string>)
    : (n: Option<Notification>)
    ensures n.Some? <==> IsComplete(DetailOf(rec, fallback))
  {
    var detail := DetailOf(rec, fallback);
    if !IsComplete(detail) then None
    else
      var meta := if detail.value.userMetadata.Some? then detail.value.userMetadata.value else Metadata(None, None);
      Some(Notification(meta.originalKey, Interpolate(meta.outPrefix) + Interpolate(playlistName)))
  }

  /** What each record of the batch leads to, in batch order. */
  function Asks(batch: seq<CompletionRecord>, fallback: Option<Detail>, playlistName: Option<string>)
    : (asks: seq<Option<Notification>>)
    ensures |asks| == |batch|
    ensures forall i :: 0 <= i < |batch| ==> asks[i] == NotificationFor(batch[i], fallback, playlistName)
  {
    seq(|batch|, i requires 0 <= i < |batch| => NotificationFor(batch[i], fallback, playlistName))
  }

  /** The run, as a fold over what the remaining records lead to, from the
      bodies `posted` so far. */
  function CompletionRun(asks: seq<Option<Notification>>, failAt: Option<nat>, posted: seq<Notification>)
    : (seq<Notification>, Outcome<NotifyError>)
    decreases |asks|
  {
    if asks == [] then (posted, Returned(CompletionResponse))
    else
      match asks[0]
      case None => CompletionRun(asks[1..], failAt, posted)
      case Some(n) =>
        if failAt == Some(|posted|) then (posted + [n], Threw(PostFailed))
        else CompletionRun(asks[1..], failAt, posted + [n])
  }

  /** The handler's loop. */
  method OnConvertComplete(event: CompletionEvent, playlistName: Option<string>, failAt: Option<nat>)
    returns (posted: seq<Notification>, outcome: Outcome<NotifyError>)
    ensures (posted, outcome) == CompletionRun(Asks(Batch(event), event.detail, playlistName), failAt, [])
  {
    var batch := Batch(event);
    ghost var asks := Asks(batch, event.detail, playlistName);
    posted := [];
    var i := 0;
    while i < |batch|
      invariant 0 <= i <= |batch|
      invariant CompletionRun(asks, failAt, []) == CompletionRun(asks[i..], failAt, posted)
    {
      var ask := NotificationFor(batch[i], event.detail, playlistName);
      assert asks[i] == ask;
      ghost var before := posted;
      if ask.Some? {
        var attempt := |posted|;
        if failAt == Some(attempt) {
          posted := posted + [ask.value];
          outcome := Threw(PostFailed);
          return;
        }
        posted := posted + [ask.value];
      }
      CompletionRunStep(asks, i, failAt, before);
      assert CompletionRun(asks[i..], failAt, before) == CompletionRun(asks[i + 1..], failAt, posted);
      i := i + 1;
    }
    outcome := Returned(CompletionResponse);
  }

  /** One record of the fold: a record that asks for nothing leaves the
      bodies as they are; one whose post does not throw adds its body. */
  lemma CompletionRunStep(asks: seq<Option<Notification>>, i: nat, failAt: Option<nat>, posted: seq<Notification>)
    requires i < |asks|
    requires asks[i].Some? ==> failAt != Some(|posted|)
    ensures CompletionRun(asks[i..], failAt, posted)
         == CompletionRun(asks[i + 1..], failAt, if asks[i].Some? then posted + [asks[i].value] else posted)
  {
    assert asks[i..][0] == asks[i];
    assert asks[i..][1..] == asks[i + 1..];
  }

  // ---------------------------------------------------------------------
  // What the records ask for
  // ---------------------------------------------------------------------

  /** The notifications the records ask for, in order. */
  function Notices(asks: seq<Option<Notification>>): seq<Notification>
    decreases |asks|
  {
    if asks == [] then []
    else
      match asks[0]
      case None => Notices(asks[1..])
      case Some(n) => [n] + Notices(asks[1..])
  }

  /** A run posts the notifications the records ask for, in order, one
      per COMPLETE record; a throwing POST keeps the earlier ones and stops
      the rest; otherwise the handler returns its fixed response, however
      many it posted. */
  lemma CompletionRunFollowsNotices(event: CompletionEvent, playlistName: Option<string>, failAt: Option<nat>)
    ensures var ns := Notices(Asks(Batch(event), event.detail, playlistName));
      CompletionRun(Asks(Batch(event), event.detail, playlistName), failAt, []) ==
        if failAt.Some? && failAt.value < |ns| then (ns[..failAt.value + 1], Threw(PostFailed))
        else (ns, Returned(CompletionResponse))
  {
    var asks := Asks(Batch(event), event.detail, playlistName);
    var ns := Notices(asks);
    CompletionRunFrom(asks, failAt, []);
    assert [] + ns == ns;
    if failAt.Some? && failAt.value < |ns| {
      assert [] + ns[..failAt.value + 1] == ns[..failAt.value + 1];
    }
  }

  lemma {:induction false} CompletionRunFrom(asks: seq<Option<Notification>>, failAt: Option<nat>,
                                             posted: seq<Notification>)
    requires failAt.Some? ==> failAt.value >= |posted|
    ensures var ns := Notices(asks);
      CompletionRun(asks, failAt, posted) ==
        if failAt.Some? && failAt.value - |posted| < |ns|
        then (posted + ns[..failAt.value - |posted| + 1], Threw(PostFailed))
        else (posted + ns, Returned(CompletionResponse))
    decreases |asks|
  {
    if asks == [] {
      assert posted + [] == posted;
    } else {
      var rest := Notices(asks[1..]);
      match asks[0]
      case None =>
        assert Notices(asks) == rest;
        CompletionRunFrom(asks[1..], failAt, posted);
      case Some(n) =>
        assert Notices(asks) == [n] + rest;
        if failAt == Some(|posted|) {
          assert ([n] + rest)[..1] == [n];
        } else {
          assert CompletionRun(asks, failAt, posted) == CompletionRun(asks[1..], failAt, posted + [n]);
          CompletionRunFrom(asks[1..], failAt, posted + [n]);
          PostedShift(posted, n, rest, failAt);
        }
    }
  }

  /** The outcome of posting `rest` after `posted + [n]` is that of posting
      `[n] + rest` after `posted`. */
  lemma PostedShift(posted: seq<Notification>, n: Notification, rest: seq<Notification>, failAt: Option<nat>)
    requires failAt.Some? ==> failAt.value > |posted|
    ensures var before := posted + [n];
      var ns := [n] + rest;
      (if failAt.Some? && failAt.value - |before| < |rest|
       then (before + rest[..failAt.value - |before| + 1], Threw(PostFailed))
       else (before + rest, Returned(CompletionResponse)))
      == (if failAt.Some? && failAt.value - |posted| < |ns|
          then (posted + ns[..failAt.value - |posted| + 1], Threw(PostFailed))
          else (posted + ns, Returned(CompletionResponse)))
  {
    var ns := [n] + rest;
    if failAt.Some? && failAt.value - |posted| < |ns| {
      var k := failAt.value - |posted|;
      assert posted + [n] + rest[..k] == posted + ns[..k + 1];
    } else {
      assert posted + [n] + rest == posted + ns;
    }
  }

  lemma AsksAppend(xs: seq<CompletionRecord>, ys: seq<CompletionRecord>,
                   fallback: Option<Detail>, playlistName: Option<string>)
    ensures Asks(xs + ys, fallback, playlistName) == Asks(xs, fallback, playlistName) + Asks(ys, fallback, playlistName)
  {
    var l, r := Asks(xs + ys, fallback, playlistName), Asks(xs, fallback, playlistName) + Asks(ys, fallback, playlistName);
    forall i | 0 <= i < |l| ensures l[i] == r[i] {
      if i < |xs| {
        assert (xs + ys)[i] == xs[i];
      } else {
        assert (xs + ys)[i] == ys[i - |xs|];
      }
    }
  }

  lemma {:induction false} NoticesConcat(xs: seq<Option<Notification>>, ys: seq<Option<Notification>>)
    ensures Notices(xs + ys) == Notices(xs) + Notices(ys)
    decreases |xs|
  {
    if xs == [] {
      assert xs + ys == ys;
    } else {
      assert (xs + ys)[0] == xs[0];
      assert (xs + ys)[1..] == xs[1..] + ys;
      NoticesConcat(xs[1..], ys);
      match xs[0]
      case None =>
      case Some(n) =>
        assert [n] + (Notices(xs[1..]) + Notices(ys)) == ([n] + Notices(xs[1..])) + Notices(ys);
    }
  }

  /** Records are notified in order and independently of each other: the
      notifications of a concatenated batch are those of its parts, with
      no deduplication. */
  lemma NoticesAppend(xs: seq<CompletionRecord>, ys: seq<CompletionRecord>,
                      fallback: Option<Detail>, playlistName: Option<string>)
    ensures Notices(Asks(xs + ys, fallback, playlistName))
         == Notices(Asks(xs, fallback, playlistName)) + Notices(Asks(ys, fallback, playlistName))
  {
    AsksAppend(xs, ys, fallback, playlistName);
    NoticesConcat(Asks(xs, fallback, playlistName), Asks(ys, fallback, playlistName));
  }

  /** A record without a detail, or whose status is anything but exactly
      `COMPLETE`, leads to no notification wherever it stands. */
  lemma SkippedRecordNotifiesNothing(xs: seq<CompletionRecord>, r: CompletionRecord, ys: seq<CompletionRecord>,
                                     fallback: Option<Detail>, playlistName: Option<string>)
    requires !IsComplete(DetailOf(r, fallback))
    ensures Notices(Asks(xs + [r] + ys, fallback, playlistName)) == Notices(Asks(xs + ys, fallback, playlistName))
  {
    NoticesAppend(xs + [r], ys, fallback, playlistName);
    NoticesAppend(xs, [r], fallback, playlistName);
    NoticesAppend(xs, ys, fallback, playlistName);
    var one := Asks([r], fallback, playlistName);
    assert one[0] == None && one[1..] == [];
    assert Notices(Asks(xs, fallback, playlistName)) + [] == Notices(Asks(xs, fallback, playlistName));
  }

  /** A batch leads to no notification exactly when none of its records is
      COMPLETE. */
  lemma NothingUnlessComplete(batch: seq<CompletionRecord>, fallback: Option<Detail>, playlistName: Option<string>)
    ensures Notices(Asks(batch, fallback, playlistName)) == []
        <==> forall i :: 0 <= i < |batch| ==> !IsComplete(DetailOf(batch[i], fallback))
  {
    NoticesEmpty(Asks(batch, fallback, playlistName));
  }

  lemma {:induction false} NoticesEmpty(asks: seq<Option<Notification>>)
    ensures Notices(asks) == [] <==> forall i :: 0 <= i < |asks| ==> asks[i].None?
    decreases |asks|
  {
    if asks != [] {
      NoticesEmpty(asks[1..]);
      if asks[0].None? {
        assert forall i :: 1 <= i < |asks| ==> asks[i] == asks[1..][i - 1];
      }
    }
  }

  /** A single event and a one-record batch carrying the same detail are
      handled alike; so is a one-record batch whose record has no detail
      of its own, through the fallback to `event.detail`. */
  lemma ShapesAgree(d: Option<Detail>, other: Option<Detail>, playlistName: Option<string>)
    ensures var single := CompletionEvent(None, d);
      d.Some? ==>
        Asks(Batch(single), single.detail, playlistName)
          == Asks(Batch(CompletionEvent(Some([CompletionRecord(d)]), other)), other, playlistName)
    ensures var single := CompletionEvent(None, d);
      Asks(Batch(single), single.detail, playlistName)
        == Asks(Batch(CompletionEvent(Some([CompletionRecord(None)]), d)), d, playlistName)
  {
  }

  /** A batch with an empty `Records` array leads to no notification, even
      when the event itself carries a COMPLETE detail. */
  lemma EmptyRecordsNotifyNothing(d: Option<Detail>, playlistName: Option<string>)
    ensures Notices(Asks(Batch(CompletionEvent(Some([]), d)), d, playlistName)) == []
  {
  }
}
