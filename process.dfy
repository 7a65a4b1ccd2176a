/**
 * The per-segment worker: it starts a session with the layout, then for
 * every message of the log moves the timeline to the message's monotonic
 * time and plots it, either as the thumbnail image or by flattening its
 * payload with the walker. The messages are handed back in order.
 */
module Process {
  import opened Wrappers
  import opened Payload
  import opened Recording
  import opened Walker
  import opened WalkProperties

  const Application := "rerun_test"
  const Timeline := "TIMELINE"
  const ThumbnailTopic := "thumbnail"
  const ThumbnailPath := "/thumbnail"

  /** A log message: its monotonic time in nanoseconds, the name of the
      union member it carries (`msg.which()`), and that member's payload
      as a plain dict (`msg.to_dict()[msg.which()]`). */
  datatype Message = Message(logMonoTime: nat, which: string, body: Value)

  /** What a run of `process` has recorded so far, and the exception that
      stopped it, if one did. */
  datatype Outcome = Outcome(events: seq<Event>, failure: Option<PyError>)

  /** Events that leave the timeline alone. */
  predicate KeepsTime(events: seq<Event>) {
    forall e :: e in events ==> !e.SetTime?
  }

  /** `log_thumbnail`: the payload's `thumbnail` entry, or None when it has
      none, is logged as an encoded image at `/thumbnail`. A payload that
      is not a dict has no `get` and raises. */
  function LogThumbnail(body: Value): (r: Result<Event, PyError>)
    ensures r.Ok? <==> body.Dict?
    ensures r.Err? ==> r.error == AttributeError("get")
    ensures r.Ok? ==> r.value.Image? && r.value.path == ThumbnailPath
    ensures body.Dict? && (exists i :: 0 <= i < |body.fields| && body.fields[i].key == "thumbnail") ==>
      Field("thumbnail", r.value.contents) in body.fields
    ensures body.Dict? && (forall i :: 0 <= i < |body.fields| ==> body.fields[i].key != "thumbnail") ==>
      r.value.contents == Null
  {
    match body
    case Dict(fields) =>
      var bytesImgData := match DictGet(fields, "thumbnail")
        case Some(v) => v
        case None => Null;
      Ok(Image(ThumbnailPath, bytesImgData))
    case _ => Err(AttributeError("get"))
  }

  /** The events one message produces after the timeline is set: one image
      for a thumbnail, otherwise the payload's walk below the member's
      name. */
  function MessageEvents(m: Message): Result<seq<Event>, PyError> {
    if m.which != ThumbnailTopic then Ok(Walk(m.body, m.which))
    else
      match LogThumbnail(m.body)
      case Ok(e) => Ok([e])
      case Err(x) => Err(x)
  }

  /** A thumbnail message gives exactly one image at `/thumbnail`, any other
      message only numbers below its member's name; neither moves the
      timeline, and only a thumbnail whose payload is not a dict fails. */
  lemma MessageEventsShape(m: Message)
    ensures MessageEvents(m).Err? <==> m.which == ThumbnailTopic && !m.body.Dict?
    ensures MessageEvents(m).Ok? ==> KeepsTime(MessageEvents(m).value)
    ensures MessageEvents(m).Ok? && m.which == ThumbnailTopic ==>
      |MessageEvents(m).value| == 1 && MessageEvents(m).value[0].Image? &&
      MessageEvents(m).value[0].path == ThumbnailPath
    ensures m.which != ThumbnailTopic ==>
      forall e :: e in MessageEvents(m).value ==> PointBelow(e, m.which)
  {
    if m.which != ThumbnailTopic {
      WalkBelow(m.body, m.which);
    }
  }

  /** One message handled after `before`: unless an earlier message raised,
      the timeline is set to the message's time and its events follow; a
      message that raises leaves only the timeline change behind. */
  function Next(before: Outcome, m: Message): Outcome {
    if before.failure.Some? then before
    else
      var stamped := before.events + [SetTime(Timeline, m.logMonoTime)];
      match MessageEvents(m)
      case Ok(evs) => Outcome(stamped + evs, None)
      case Err(x) => Outcome(stamped, Some(x))
  }

  /** The events recorded after the session start for the messages `lr`,
      handled in order; the first message that raises ends the run. */
  function Processed(lr: seq<Message>): Outcome
    decreases |lr|
  {
    if lr == [] then Outcome([], None)
    else Next(Processed(lr[..|lr| - 1]), lr[|lr| - 1])
  }

  /** Once a message has raised, later messages change nothing. */
  lemma {:induction false} FailurePersists(lr: seq<Message>, k: nat)
    requires k <= |lr|
    requires Processed(lr[..k]).failure.Some?
    ensures Processed(lr) == Processed(lr[..k])
    decreases |lr| - k
  {
    if k < |lr| {
      var n := |lr| - 1;
      assert lr[..n][..k] == lr[..k];
      FailurePersists(lr[..n], k);
    } else {
      assert lr[..k] == lr;
    }
  }

  lemma ProcessedStep(lr: seq<Message>, i: nat)
    requires i < |lr|
    ensures Processed(lr[..i + 1]) == Next(Processed(lr[..i]), lr[i])
  {
    assert lr[..i + 1][..i] == lr[..i];
  }

  lemma PrefixSnoc<T>(s: seq<T>, i: nat)
    requires i < |s|
    ensures s[..i + 1] == s[..i] + [s[i]]
  {
  }

  /** Events recorded before do not change how a message is handled. */
  lemma NextAfter(init: seq<Event>, before: Outcome, m: Message)
    requires before.failure.None?
    ensures Next(Outcome(init + before.events, None), m) ==
      Outcome(init + Next(before, m).events, Next(before, m).failure)
  {
    var t := [SetTime(Timeline, m.logMonoTime)];
    SeqAssoc3(init, before.events, t);
    if MessageEvents(m).Ok? {
      SeqAssoc3(init, before.events + t, MessageEvents(m).value);
    }
  }

  /** One turn of the loop in `process`: set the timeline to the message's
      time, then hand a thumbnail to `log_thumbnail` and anything else to
      `log_msg` under its member's name. */
  method Handle(msg: Message, events: seq<Event>) returns (events': seq<Event>, failure: Option<PyError>)
    ensures Outcome(events', failure) == Next(Outcome(events, None), msg)
  {
    events' := events + [SetTime(Timeline, msg.logMonoTime)];
    failure := None;
    if msg.which != ThumbnailTopic {
      var emitted := LogMsg(msg.body, msg.which);
      events' := events' + emitted;
    } else {
      match LogThumbnail(msg.body) {
        case Ok(e) => events' := events' + [e];
        case Err(x) => failure := Some(x);
      }
    }
  }

  /** `process`: start the session with the layout, then handle every
      message in order; the messages come back unchanged, unless a handler
      raises, in which case the exception is all the caller gets. */
  method Process(blueprint: Blueprint, lr: seq<Message>)
    returns (ret: Result<seq<Message>, PyError>, events: seq<Event>)
    ensures events == [Init(Application, blueprint)] + Processed(lr).events
    ensures ret == match Processed(lr).failure
      case None => Ok(lr)
      case Some(x) => Err(x)
  {
    var kept: seq<Message> := [];
    events := [Init(Application, blueprint)];
    var i := 0;
    while i < |lr|
      invariant i <= |lr|
      invariant kept == lr[..i]
      invariant Processed(lr[..i]).failure.None?
      invariant events == [Init(Application, blueprint)] + Processed(lr[..i]).events
    {
      var msg := lr[i];
      ghost var prior := Processed(lr[..i]);
      ProcessedStep(lr, i);
      NextAfter([Init(Application, blueprint)], prior, msg);
      PrefixSnoc(lr, i);
      kept := kept + [msg];
      var failure;
      events, failure := Handle(msg, events);
      if failure.Some? {
        FailurePersists(lr, i + 1);
        ret := Err(failure.value);
        return;
      }
      i := i + 1;
    }
    assert lr[..i] == lr;
    ret := Ok(kept);
  }

  // ---------------------------------------------------------------------
  // Properties of a run

  /** A thumbnail message whose payload has no `get`. */
  predicate BadThumbnail(m: Message) {
    m.which == ThumbnailTopic && !m.body.Dict?
  }

  predicate HasBadThumbnail(lr: seq<Message>) {
    exists i :: 0 <= i < |lr| && BadThumbnail(lr[i])
  }

  lemma HasBadThumbnailSnoc(lr: seq<Message>)
    requires lr != []
    ensures HasBadThumbnail(lr) <==> HasBadThumbnail(lr[..|lr| - 1]) || BadThumbnail(lr[|lr| - 1])
  {
    var n := |lr| - 1;
    if i :| 0 <= i < |lr| && BadThumbnail(lr[i]) {
      if i < n {
        assert lr[..n][i] == lr[i];
      }
    }
    if i :| 0 <= i < n && BadThumbnail(lr[..n][i]) {
      assert lr[i] == lr[..n][i];
    }
  }

  /** A run fails exactly when one of its messages is a thumbnail whose
      payload is not a dict, and the failure is then the missing `get`. */
  lemma {:induction false} FailsOnlyOnBadThumbnail(lr: seq<Message>)
    ensures Processed(lr).failure.Some? <==> HasBadThumbnail(lr)
    ensures Processed(lr).failure.Some? ==> Processed(lr).failure.value == AttributeError("get")
  {
    if lr != [] {
      var n := |lr| - 1;
      FailsOnlyOnBadThumbnail(lr[..n]);
      HasBadThumbnailSnoc(lr);
      MessageEventsShape(lr[n]);
    }
  }

  /** The timeline values set by a sequence of events, in order. */
  function Times(events: seq<Event>): seq<nat>
    decreases |events|
  {
    if events == [] then []
    else
      var n := |events| - 1;
      Times(events[..n]) + (if events[n].SetTime? then [events[n].nanos] else [])
  }

  lemma {:induction false} TimesAppend(a: seq<Event>, b: seq<Event>)
    ensures Times(a + b) == Times(a) + Times(b)
    decreases |b|
  {
    if b == [] {
      assert a + b == a;
    } else {
      var n := |b| - 1;
      assert (a + b)[..|a| + n] == a + b[..n];
      assert (a + b)[|a| + n] == b[n];
      TimesAppend(a, b[..n]);
    }
  }

  lemma {:induction false} TimesKept(events: seq<Event>)
    requires KeepsTime(events)
    ensures Times(events) == []
    decreases |events|
  {
    if events != [] {
      var n := |events| - 1;
      assert events[n] in events;
      assert KeepsTime(events[..n]) by {
        forall e | e in events[..n] ensures !e.SetTime? {
          assert e in events;
        }
      }
      TimesKept(events[..n]);
    }
  }

  /** The monotonic times of the messages, in log order. */
  function MonoTimes(lr: seq<Message>): (t: seq<nat>)
    ensures |t| == |lr|
    decreases |lr|
  {
    if lr == [] then []
    else MonoTimes(lr[..|lr| - 1]) + [lr[|lr| - 1].logMonoTime]
  }

  /** Handling one message sets the timeline exactly once, to its time. */
  lemma TimelineStep(before: Outcome, m: Message)
    requires before.failure.None?
    ensures Times(Next(before, m).events) == Times(before.events) + [m.logMonoTime]
    ensures Next(before, m).failure.Some? <==> MessageEvents(m).Err?
  {
    var t := [SetTime(Timeline, m.logMonoTime)];
    var stamped := before.events + t;
    MessageEventsShape(m);
    TimesAppend(before.events, t);
    assert t[..0] == [];
    assert Times(t) == [m.logMonoTime];
    if MessageEvents(m).Ok? {
      TimesAppend(stamped, MessageEvents(m).value);
      TimesKept(MessageEvents(m).value);
    }
  }

  /** The timeline is set once per handled message, in log order, to that
      message's monotonic time: for every message on a clean run, and up to
      and including the one that raised otherwise, which is then the message
      that fails. */
  lemma {:induction false} TimelineFollowsLog(lr: seq<Message>)
    ensures |Times(Processed(lr).events)| <= |lr|
    ensures Times(Processed(lr).events) == MonoTimes(lr[..|Times(Processed(lr).events)|])
    ensures Processed(lr).failure.None? ==> |Times(Processed(lr).events)| == |lr|
    ensures Processed(lr).failure.Some? ==>
      var k := |Times(Processed(lr).events)|;
      k >= 1 && MessageEvents(lr[k - 1]).Err?
  {
    if lr != [] {
      var n := |lr| - 1;
      var before := Processed(lr[..n]);
      TimelineFollowsLog(lr[..n]);
      var k := |Times(before.events)|;
      assert lr[..n][..k] == lr[..k];
      if before.failure.None? {
        TimelineStep(before, lr[n]);
        assert lr[..n + 1] == lr;
      } else {
        assert lr[..n][k - 1] == lr[k - 1];
      }
    }
  }

  /** The timeline value in force after `events`: the last value set. */
  function Clock(events: seq<Event>): Option<nat>
    decreases |events|
  {
    if events == [] then None
    else
      var n := |events| - 1;
      if events[n].SetTime? then Some(events[n].nanos) else Clock(events[..n])
  }

  lemma {:induction false} ClockAfter(a: seq<Event>, t: nat, b: seq<Event>)
    requires KeepsTime(b)
    ensures Clock(a + [SetTime(Timeline, t)] + b) == Some(t)
    decreases |b|
  {
    var s := a + [SetTime(Timeline, t)];
    if b == [] {
      assert s + b == s;
    } else {
      var n := |b| - 1;
      assert (s + b)[..|s| + n] == s + b[..n];
      assert (s + b)[|s| + n] == b[n];
      assert b[n] in b;
      assert KeepsTime(b[..n]) by {
        forall e | e in b[..n] ensures !e.SetTime? {
          assert e in b;
        }
      }
      ClockAfter(a, t, b[..n]);
    }
  }

  /** Every plotted event belongs to one message of the log, and when it is
      logged the timeline reads that message's monotonic time. */
  ghost predicate StampedBy(events: seq<Event>, j: nat, lr: seq<Message>, i: nat)
    requires j < |events| && i < |lr|
  {
    MessageEvents(lr[i]).Ok? && events[j] in MessageEvents(lr[i]).value &&
    Clock(events[..j]) == Some(lr[i].logMonoTime)
  }

  /** Handling a message only appends to what was recorded. */
  lemma NextExtends(before: Outcome, m: Message)
    ensures |before.events| <= |Next(before, m).events|
    ensures Next(before, m).events[..|before.events|] == before.events
  {
    var after := Next(before, m).events;
    if before.failure.None? {
      var stamped := before.events + [SetTime(Timeline, m.logMonoTime)];
      assert stamped[..|before.events|] == before.events;
      if MessageEvents(m).Ok? {
        assert after[..|stamped|] == stamped;
      }
    }
  }

  /** An event a message adds is one of its own events, logged while the
      timeline reads the message's time. */
  lemma NewPointTimed(before: Outcome, m: Message, j: nat)
    requires |before.events| <= j < |Next(before, m).events|
    requires !Next(before, m).events[j].SetTime?
    ensures MessageEvents(m).Ok? && Next(before, m).events[j] in MessageEvents(m).value
    ensures Clock(Next(before, m).events[..j]) == Some(m.logMonoTime)
  {
    var after := Next(before, m).events;
    var stamped := before.events + [SetTime(Timeline, m.logMonoTime)];
    MessageEventsShape(m);
    var evs := MessageEvents(m).value;
    assert after == stamped + evs;
    var k := j - |stamped|;
    assert after[..j] == stamped + evs[..k];
    assert KeepsTime(evs[..k]) by {
      forall e | e in evs[..k] ensures !e.SetTime? {
        assert e in evs;
      }
    }
    ClockAfter(before.events, m.logMonoTime, evs[..k]);
    assert after[j] == evs[k];
  }

  lemma {:induction false} EveryPointTimed(lr: seq<Message>, j: nat)
    requires j < |Processed(lr).events| && !Processed(lr).events[j].SetTime?
    ensures exists i: nat :: i < |lr| && StampedBy(Processed(lr).events, j, lr, i)
  {
    var n := |lr| - 1;
    var before := Processed(lr[..n]);
    var events := Processed(lr).events;
    assert events == Next(before, lr[n]).events;
    NextExtends(before, lr[n]);
    if j < |before.events| {
      EveryPointTimed(lr[..n], j);
      var i: nat :| i < n && StampedBy(before.events, j, lr[..n], i);
      assert lr[..n][i] == lr[i];
      assert events[..j] == before.events[..j];
      assert events[j] == before.events[j];
      assert StampedBy(events, j, lr, i);
    } else {
      NewPointTimed(before, lr[n], j);
      assert StampedBy(events, j, lr, n);
    }
  }

}
