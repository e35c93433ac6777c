/** The registry of model streams in flight: starting, cancelling, client aborts and finishing, in any order. */
module StreamRegistry {
  import opened Texts
  import opened Wrappers

  /** The number of a stream stands for its abort controller. */
  datatype Entry = Entry(ctrl: nat, workspaceId: Text)

  /** `Stuck` is a stream whose route could not be resolved after it was registered: its handler never runs. */
  datatype Phase = Running | Stuck | Finished

  datatype Stream = Stream(id: Text, workspaceId: Text, phase: Phase, canceled: bool, aborted: bool)

  datatype World = World(inflight: map<Text, Entry>, streams: seq<Stream>)

  datatype Event =
    | Start(workspaceId: Text, streamId: Text, resolves: bool)
    | Cancel(workspaceId: Text, streamId: Text)
    | ClientAbort(ctrl: nat)
    | Finish(ctrl: nat)

  const EMPTY := World(map[], [])

  predicate Unfinished(w: World, c: nat) { c < |w.streams| && w.streams[c].phase != Finished }

  function Step(w: World, e: Event): World {
    match e
    case Start(workspaceId, id, resolves) =>
      if id in w.inflight then w
      else
        World(w.inflight[id := Entry(|w.streams|, workspaceId)],
              w.streams + [Stream(id, workspaceId, if resolves then Running else Stuck, false, false)])
    case Cancel(workspaceId, id) =>
      if id in w.inflight && w.inflight[id].workspaceId == workspaceId && w.inflight[id].ctrl < |w.streams| then
        var c := w.inflight[id].ctrl;
        World(w.inflight - {id}, w.streams[c := w.streams[c].(canceled := true, aborted := true)])
      else w
    case ClientAbort(c) =>
      if Unfinished(w, c) then w.(streams := w.streams[c := w.streams[c].(aborted := true)]) else w
    case Finish(c) =>
      if c < |w.streams| && w.streams[c].phase == Running then
        World(w.inflight - {w.streams[c].id}, w.streams[c := w.streams[c].(phase := Finished)])
      else w
  }

  function Run(events: seq<Event>): World {
    if events == [] then EMPTY else Step(Run(events[..|events| - 1]), events[|events| - 1])
  }

  // ----- the registry of the original

  datatype StartReply = Streaming(ctrl: nat) | Refused(status: nat)

  class Registry {
    var inflight: map<Text, Entry>
    var streams: seq<Stream>

    ghost function State(): World
      reads this
    {
      World(inflight, streams)
    }

    /** Whether every registered controller is one that was made. */
    ghost predicate Valid()
      reads this
    {
      forall id :: id in inflight ==> inflight[id].ctrl < |streams|
    }

    constructor ()
      ensures Valid() && State() == EMPTY
    {
      inflight := map[];
      streams := [];
    }

    method Start(workspaceId: Text, streamId: Text, resolves: bool) returns (reply: StartReply)
      requires Valid()
      modifies this
      ensures Valid() && State() == Step(old(State()), Event.Start(workspaceId, streamId, resolves))
      ensures streamId in old(inflight) ==>
                && State() == old(State())
                && reply == Refused(if old(inflight)[streamId].workspaceId == workspaceId then 409 else 403)
      ensures streamId !in old(inflight) ==> reply == if resolves then Streaming(|old(streams)|) else Refused(500)
    {
      if streamId in inflight {
        var existing := inflight[streamId];
        return Refused(if existing.workspaceId == workspaceId then 409 else 403);
      }
      var abortCtrl := |streams|;
      inflight := inflight[streamId := Entry(abortCtrl, workspaceId)];
      streams := streams + [Stream(streamId, workspaceId, if resolves then Running else Stuck, false, false)];
      if !resolves {
        return Refused(500);
      }
      return Streaming(abortCtrl);
    }

    /** A stream of another workspace is told apart from an unknown one neither by the reply nor by the effect. */
    method Cancel(workspaceId: Text, streamId: Text) returns (canceled: bool)
      requires Valid()
      modifies this
      ensures Valid() && State() == Step(old(State()), Event.Cancel(workspaceId, streamId))
      ensures canceled <==> streamId in old(inflight) && old(inflight)[streamId].workspaceId == workspaceId
      ensures !canceled ==> State() == old(State())
      ensures canceled ==> streamId !in inflight && streams[old(inflight)[streamId].ctrl].aborted
    {
      if streamId in inflight && inflight[streamId].workspaceId == workspaceId {
        var c := inflight[streamId].ctrl;
        streams := streams[c := streams[c].(canceled := true, aborted := true)];
        inflight := inflight - {streamId};
        return true;
      }
      return false;
    }

    /** The client closes its request: the listener aborts the stream's own controller. */
    method ClientAbort(ctrl: nat)
      requires Valid()
      modifies this
      ensures Valid() && State() == Step(old(State()), Event.ClientAbort(ctrl)) && inflight == old(inflight)
    {
      if ctrl < |streams| && streams[ctrl].phase != Finished {
        streams := streams[ctrl := streams[ctrl].(aborted := true)];
      }
    }

    /** The handler's `finally`: the entry is deleted by id, whoever's it is. */
    method Finish(ctrl: nat)
      requires Valid() && ctrl < |streams| && streams[ctrl].phase == Running
      modifies this
      ensures Valid() && State() == Step(old(State()), Event.Finish(ctrl))
      ensures streams[ctrl].phase == Finished && streams[ctrl].id !in inflight
    {
      inflight := inflight - {streams[ctrl].id};
      streams := streams[ctrl := streams[ctrl].(phase := Finished)];
    }
  }

  // ----- what every step keeps

  /** Each entry is that of a started, unfinished stream that was not cancelled, under its own id and workspace. */
  ghost predicate Registered(w: World) {
    forall id :: id in w.inflight ==>
      var e := w.inflight[id];
      && Unfinished(w, e.ctrl) && !w.streams[e.ctrl].canceled
      && w.streams[e.ctrl].id == id && w.streams[e.ctrl].workspaceId == e.workspaceId
  }

  lemma {:induction false} StepRegistered(w: World, e: Event)
    requires Registered(w)
    ensures Registered(Step(w, e))
  {
    var w' := Step(w, e);
    forall id | id in w'.inflight
      ensures var x := w'.inflight[id];
              && Unfinished(w', x.ctrl) && !w'.streams[x.ctrl].canceled
              && w'.streams[x.ctrl].id == id && w'.streams[x.ctrl].workspaceId == x.workspaceId
    {
      if id in w.inflight {
        var x := w.inflight[id];
        assert Unfinished(w, x.ctrl) && w.streams[x.ctrl].id == id;
      }
    }
  }

  /** In every run, whatever the interleaving. */
  lemma {:induction false} RunRegistered(events: seq<Event>)
    ensures Registered(Run(events))
  {
    if events != [] {
      RunRegistered(events[..|events| - 1]);
      StepRegistered(Run(events[..|events| - 1]), events[|events| - 1]);
    }
  }

  /** A start leaves every present entry as it is; only a cancel of the entry's workspace or a finish removes one. */
  lemma {:induction false} EntriesSurvive(w: World, e: Event, id: Text)
    requires Registered(w) && id in w.inflight
    ensures id in Step(w, e).inflight ==> Step(w, e).inflight[id] == w.inflight[id]
    ensures id !in Step(w, e).inflight <==>
            || e == Cancel(w.inflight[id].workspaceId, id)
            || (e.Finish? && e.ctrl < |w.streams| && w.streams[e.ctrl].phase == Running && w.streams[e.ctrl].id == id)
  {
    assert Unfinished(w, w.inflight[id].ctrl);
  }

  lemma {:induction false} StepKeepsStreams(w: World, e: Event, c: nat)
    requires Registered(w) && c < |w.streams|
    ensures var s, s' := w.streams[c], (if c < |Step(w, e).streams| then Step(w, e).streams[c] else w.streams[c]);
            && |w.streams| <= |Step(w, e).streams|
            && s'.id == s.id && s'.workspaceId == s.workspaceId
            && (s.aborted ==> s'.aborted) && (s.canceled ==> s'.canceled)
            && (s'.aborted && !s.aborted ==> e == Cancel(s.workspaceId, s.id) || e == ClientAbort(c))
  {
    if e.Cancel? && e.streamId in w.inflight {
      assert Unfinished(w, w.inflight[e.streamId].ctrl);
    }
  }

  /** A stream is aborted only by a cancel of its own workspace for its own id, or by its own client. */
  lemma {:induction false} AbortedByOwner(events: seq<Event>, c: nat)
    requires c < |Run(events).streams| && Run(events).streams[c].aborted
    ensures var s := Run(events).streams[c];
            Cancel(s.workspaceId, s.id) in events || ClientAbort(c) in events
  {
    if events != [] {
      var before, e := events[..|events| - 1], events[|events| - 1];
      RunRegistered(before);
      assert forall x :: x in before ==> x in events;
      assert e in events;
      if c < |Run(before).streams| {
        StepKeepsStreams(Run(before), e, c);
        if Run(before).streams[c].aborted {
          AbortedByOwner(before, c);
        }
      }
    }
  }

  /** Once no stream is left unfinished, nothing is left registered. */
  lemma {:induction false} NothingLeftBehind(events: seq<Event>)
    requires forall c :: 0 <= c < |Run(events).streams| ==> Run(events).streams[c].phase == Finished
    ensures Run(events).inflight == map[]
  {
    var w := Run(events);
    RunRegistered(events);
    assert forall id :: id in w.inflight ==> Unfinished(w, w.inflight[id].ctrl);
  }

  // ----- whether running streams stay registered

  predicate IsRegistered(w: World, c: nat)
    requires c < |w.streams|
  {
    var s := w.streams[c];
    s.id in w.inflight && w.inflight[s.id] == Entry(c, s.workspaceId)
  }

  /** Every unfinished stream that was not cancelled is registered. */
  ghost predicate AllRegistered(w: World) {
    forall c: nat :: Unfinished(w, c) && !w.streams[c].canceled ==> IsRegistered(w, c)
  }

  /** A finish that deletes the entry of another stream. */
  predicate DeletesOther(w: World, e: Event) {
    && e.Finish? && e.ctrl < |w.streams| && w.streams[e.ctrl].phase == Running
    && w.streams[e.ctrl].id in w.inflight && w.inflight[w.streams[e.ctrl].id].ctrl != e.ctrl
  }

  lemma {:induction false} StepAllRegistered(w: World, e: Event)
    requires Registered(w) && AllRegistered(w)
    ensures AllRegistered(Step(w, e)) <==> !DeletesOther(w, e)
  {
    var w' := Step(w, e);
    if DeletesOther(w, e) {
      var d := w.inflight[w.streams[e.ctrl].id].ctrl;
      assert Unfinished(w, d);
      assert Unfinished(w', d) && !w'.streams[d].canceled && !IsRegistered(w', d);
    } else {
      forall c: nat | Unfinished(w', c) && !w'.streams[c].canceled ensures IsRegistered(w', c) {
        if c < |w.streams| {
          assert Unfinished(w, c) && IsRegistered(w, c);
        }
      }
    }
  }

  ghost predicate AlwaysAllRegistered(events: seq<Event>) {
    forall n :: 0 <= n <= |events| ==> AllRegistered(Run(events[..n]))
  }

  ghost predicate NeverDeletesOther(events: seq<Event>) {
    forall n :: 0 <= n < |events| ==> !DeletesOther(Run(events[..n]), events[n])
  }

  lemma {:induction false} RunPrefix(events: seq<Event>, n: nat)
    requires n < |events|
    ensures Run(events[..n + 1]) == Step(Run(events[..n]), events[n])
  {
    assert events[..n + 1][..n] == events[..n];
  }

  lemma {:induction false} PrefixAllRegistered(events: seq<Event>, n: nat)
    requires NeverDeletesOther(events) && n <= |events|
    ensures AllRegistered(Run(events[..n]))
    decreases n
  {
    if n > 0 {
      PrefixAllRegistered(events, n - 1);
      RunRegistered(events[..n - 1]);
      RunPrefix(events, n - 1);
      StepAllRegistered(Run(events[..n - 1]), events[n - 1]);
    }
  }

  /** Over a whole run, running streams that were not cancelled stay registered exactly if no finish deletes another's entry. */
  lemma {:induction false} StayRegisteredExactly(events: seq<Event>)
    ensures AlwaysAllRegistered(events) <==> NeverDeletesOther(events)
  {
    if NeverDeletesOther(events) {
      forall n | 0 <= n <= |events| ensures AllRegistered(Run(events[..n])) {
        PrefixAllRegistered(events, n);
      }
    }
    if AlwaysAllRegistered(events) {
      forall n | 0 <= n < |events| ensures !DeletesOther(Run(events[..n]), events[n]) {
        RunRegistered(events[..n]);
        RunPrefix(events, n);
        assert AllRegistered(Run(events[..n])) && AllRegistered(Run(events[..n + 1]));
        StepAllRegistered(Run(events[..n]), events[n]);
      }
    }
  }

  // ----- the discipline on ids

  /** A stream with the id was cancelled and has not come to its end. */
  ghost predicate StillRunning(w: World, id: Text) {
    exists c :: 0 <= c < |w.streams| && w.streams[c].phase == Running && w.streams[c].canceled && w.streams[c].id == id
  }

  /** A start that takes an id whose cancelled stream still runs. */
  ghost predicate ReusesEarly(w: World, e: Event) {
    e.Start? && e.streamId !in w.inflight && StillRunning(w, e.streamId)
  }

  ghost predicate NeverReusesEarly(events: seq<Event>) {
    forall n :: 0 <= n < |events| ==> !ReusesEarly(Run(events[..n]), events[n])
  }

  /** No registered id has a cancelled stream that still runs. */
  ghost predicate NoneStillRunning(w: World) {
    forall id :: id in w.inflight ==> !StillRunning(w, id)
  }

  lemma {:induction false} OtherStillRuns(w: World, e: Event)
    requires Registered(w) && AllRegistered(w) && DeletesOther(w, e)
    ensures StillRunning(w, w.streams[e.ctrl].id)
  {
    var s := w.streams[e.ctrl];
    assert Unfinished(w, e.ctrl);
    assert s.canceled;
  }

  lemma {:induction false} StepNoneStillRunning(w: World, e: Event)
    requires Registered(w) && AllRegistered(w) && NoneStillRunning(w) && !ReusesEarly(w, e)
    ensures NoneStillRunning(Step(w, e)) && !DeletesOther(w, e)
  {
    var w' := Step(w, e);
    if DeletesOther(w, e) {
      OtherStillRuns(w, e);
      assert false;
    }
    assert e.Cancel? && e.streamId in w.inflight ==> Unfinished(w, w.inflight[e.streamId].ctrl);
    forall id | id in w'.inflight ensures !StillRunning(w', id) {
      if c :| 0 <= c < |w'.streams| && w'.streams[c].phase == Running && w'.streams[c].canceled && w'.streams[c].id == id {
        assert StillRunning(w, id);
        assert false;
      }
    }
  }

  lemma {:induction false} PrefixNoneStillRunning(events: seq<Event>, n: nat)
    requires NeverReusesEarly(events) && n <= |events|
    ensures AllRegistered(Run(events[..n])) && NoneStillRunning(Run(events[..n]))
    decreases n
  {
    if n > 0 {
      PrefixNoneStillRunning(events, n - 1);
      RunRegistered(events[..n - 1]);
      RunPrefix(events, n - 1);
      StepNoneStillRunning(Run(events[..n - 1]), events[n - 1]);
      StepAllRegistered(Run(events[..n - 1]), events[n - 1]);
    }
  }

  /** If no id is reused before its cancelled stream has finished, running streams stay registered. */
  lemma {:induction false} DisciplineSuffices(events: seq<Event>)
    requires NeverReusesEarly(events)
    ensures AlwaysAllRegistered(events)
  {
    forall n | 0 <= n <= |events| ensures AllRegistered(Run(events[..n])) {
      PrefixNoneStillRunning(events, n);
    }
  }

  /** And nothing weaker will do: after an early reuse, the finish of the cancelled stream orphans the new one. */
  lemma {:induction false} DisciplineIsNeeded(events: seq<Event>, e: Event) returns (late: Event)
    requires AlwaysAllRegistered(events) && ReusesEarly(Run(events), e)
    ensures late.Finish? && DeletesOther(Run(events + [e]), late)
    ensures var w := Run(events + [e, late]);
            Unfinished(w, |Run(events).streams|) && !w.streams[|Run(events).streams|].canceled
            && !IsRegistered(w, |Run(events).streams|)
  {
    var w := Run(events);
    var c :| 0 <= c < |w.streams| && w.streams[c].phase == Running && w.streams[c].canceled
             && w.streams[c].id == e.streamId;
    late := Finish(c);
    assert (events + [e])[..|events|] == events;
    assert (events + [e, late])[..|events| + 1] == events + [e];
  }

  // ----- a route that cannot be resolved

  /** The id is taken by stream `c`. */
  predicate Taken(w: World, id: Text, c: nat, workspaceId: Text) {
    id in w.inflight && w.inflight[id] == Entry(c, workspaceId)
  }

  predicate RunsUnder(w: World, id: Text, d: nat) {
    d < |w.streams| && w.streams[d].phase == Running && w.streams[d].id == id
  }

  /** While the id is taken by a stuck stream, an event frees it or leaves the running streams with the id alone. */
  lemma {:induction false} StepWhileTaken(w: World, e: Event, id: Text, c: nat, workspaceId: Text)
    requires Registered(w) && Taken(w, id, c, workspaceId)
    ensures var frees := e == Cancel(workspaceId, id) || (e.Finish? && RunsUnder(w, id, e.ctrl));
            && (Taken(Step(w, e), id, c, workspaceId) <==> !frees)
            && (!frees ==> forall d :: RunsUnder(Step(w, e), id, d) <==> RunsUnder(w, id, d))
  {
    EntriesSurvive(w, e, id);
    if e.Cancel? && e.streamId in w.inflight {
      assert Unfinished(w, w.inflight[e.streamId].ctrl);
    }
  }

  /** What no longer takes an id never takes it again. */
  lemma {:induction false} StaysFreed(w: World, e: Event, id: Text, c: nat, workspaceId: Text)
    requires c < |w.streams|
    ensures c < |Step(w, e).streams|
    ensures !Taken(w, id, c, workspaceId) ==> !Taken(Step(w, e), id, c, workspaceId)
  {
  }

  lemma {:induction false} StuckAtFirst(w: World, id: Text, workspaceId: Text)
    requires id !in w.inflight
    ensures var now := Step(w, Start(workspaceId, id, false));
            && |w.streams| < |now.streams| && Taken(now, id, |w.streams|, workspaceId)
            && forall d: nat :: RunsUnder(now, id, d) <==> RunsUnder(w, id, d)
  {
  }

  /**
   A stream whose route cannot be resolved keeps its id taken, through any run,
   exactly until its workspace cancels it or a stream with the id finishes that
   was still running when it started.
   */
  lemma {:induction false} StuckExactly(events: seq<Event>, workspaceId: Text, id: Text, more: seq<Event>)
    requires id !in Run(events).inflight
    ensures var w, now := Run(events), Run(events + [Start(workspaceId, id, false)] + more);
            && |w.streams| < |now.streams|
            && (Taken(now, id, |w.streams|, workspaceId) <==>
                Cancel(workspaceId, id) !in more && forall d: nat :: RunsUnder(w, id, d) ==> Finish(d) !in more)
            && (Taken(now, id, |w.streams|, workspaceId) ==> forall d: nat :: RunsUnder(now, id, d) <==> RunsUnder(w, id, d))
  {
    hide Step;
    hide RunsUnder;
    hide Registered;
    hide Taken;
    var start := Start(workspaceId, id, false);
    var w := Run(events);
    assert (events + [start])[..|events|] == events;
    if more == [] {
      assert events + [start] + more == events + [start];
      StuckAtFirst(w, id, workspaceId);
    } else {
      var n := |more| - 1;
      var before := events + [start] + more[..n];
      var all := events + [start] + more;
      assert all[..|all| - 1] == before && all[|all| - 1] == more[n];
      assert more == more[..n] + [more[n]];
      StuckExactly(events, workspaceId, id, more[..n]);
      RunRegistered(before);
      StaysFreed(Run(before), more[n], id, |w.streams|, workspaceId);
      if Taken(Run(before), id, |w.streams|, workspaceId) {
        StepWhileTaken(Run(before), more[n], id, |w.streams|, workspaceId);
      }
    }
  }
}
