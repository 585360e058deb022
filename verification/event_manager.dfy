/** `EventManager`: a FIFO of pending events, each with a remaining delay.
    A dispatch visits every event that was queued when it started exactly
    once: a due event goes to the game, any other goes back to the queue with
    its delay reduced. Event pointers are modelled as events with distinct
    ids; the game's `OnEvent` is a parameter that may queue new events. */
module EventManager {
  import GameObjects

  datatype InputDevice = Keyboard
  datatype InputState = Pressed | Released

  /** The payload of each event class. */
  datatype EventKind =
    | InputEvent(device: InputDevice, state: InputState, keyCode: nat)
    | OnCharEvent(value: nat)
    | WindowResizeEvent(width: nat, height: nat)
    | RemoveFromGameEvent(target: GameObjects.GameObject)

  /** One heap-allocated event; `id` stands for its address. */
  datatype Event = Event(id: nat, kind: EventKind)

  /** A queued event and its remaining delay (`m_Delay`). */
  datatype Pending = Pending(event: Event, delay: real)

  /** `AddEvent(pEvent, delay)`: sets the delay and pushes at the back. */
  function AddEvent(queue: seq<Pending>, ev: Event, delay: real): (r: seq<Pending>)
    ensures |r| == |queue| + 1
    ensures r[..|queue|] == queue
    ensures r[|queue|].event == ev && r[|queue|].delay == delay
  {
    queue + [Pending(ev, delay)]
  }

  predicate DistinctIds(q: seq<Pending>) {
    forall i, j :: 0 <= i < j < |q| ==> q[i].event.id != q[j].event.id
  }

  /** The state a dispatch threads through: the queue behind the events still
      to visit, the game, the events delivered so far, and the events the game
      queued while handling them. */
  datatype Outcome<S> = Outcome(queue: seq<Pending>, game: S, delivered: seq<Event>, added: seq<Pending>)

  /** The outcome of handling one event on its own. */
  function Step<S>(p: Pending, deltaTime: real, onEvent: (S, Event) -> (S, seq<Pending>), game: S): (r: Outcome<S>)
    ensures r.delivered == [] <==> p.delay - deltaTime > 0.0
    ensures r.delivered != [] ==> r.delivered == [p.event] && r.queue == r.added && (r.game, r.added) == onEvent(game, p.event)
    ensures r.delivered == [] ==> r.queue == [Pending(p.event, p.delay - deltaTime)] && r.game == game && r.added == []
  {
    var delay := p.delay - deltaTime;
    if delay <= 0.0 then
      var (game', queued) := onEvent(game, p.event);
      Outcome(queued, game', [p.event], queued)
    else Outcome([Pending(p.event, delay)], game, [], [])
  }

  /** Visiting the events of `rest` in order, starting from `acc`. */
  function Visit<S>(rest: seq<Pending>, deltaTime: real, onEvent: (S, Event) -> (S, seq<Pending>), acc: Outcome<S>): (r: Outcome<S>)
    ensures |acc.delivered| <= |r.delivered| <= |acc.delivered| + |rest|
    decreases |rest|
  {
    if rest == [] then acc
    else
      var st := Step(rest[0], deltaTime, onEvent, acc.game);
      Visit(rest[1..], deltaTime, onEvent, Outcome(acc.queue + st.queue, st.game, acc.delivered + st.delivered, acc.added + st.added))
  }

  /** The reference meaning of one dispatch of `queue`. */
  function Dispatch<S>(queue: seq<Pending>, deltaTime: real, game: S, onEvent: (S, Event) -> (S, seq<Pending>)): (r: Outcome<S>)
    ensures |r.delivered| <= |queue|
    ensures queue == [] ==> r == Outcome([], game, [], [])
  {
    Visit(queue, deltaTime, onEvent, Outcome([], game, [], []))
  }

  /** `DispatchAllEvents`: pops from the front until it has popped the event
      that was last when it started. Event addresses in the queue are
      distinct, which the comparison with the last event relies on. */
  method DispatchAllEvents<S>(q: seq<Pending>, deltaTime: real, game: S, onEvent: (S, Event) -> (S, seq<Pending>))
    returns (queue: seq<Pending>, state: S, delivered: seq<Event>)
    requires DistinctIds(q)
    ensures queue == Dispatch(q, deltaTime, game, onEvent).queue
    ensures state == Dispatch(q, deltaTime, game, onEvent).game
    ensures delivered == Dispatch(q, deltaTime, game, onEvent).delivered
  {
    queue, state, delivered := q, game, [];
    if |queue| == 0 {
      return;
    }
    var lastId := queue[|queue| - 1].event.id;
    ghost var back: seq<Pending> := [];
    ghost var added: seq<Pending> := [];
    ghost var k := 0;
    while |queue| > 0
      invariant 0 <= k < |q|
      invariant queue == q[k..] + back
      invariant Visit(q[k..], deltaTime, onEvent, Outcome(back, state, delivered, added)) == Dispatch(q, deltaTime, game, onEvent)
      decreases |q| - k
    {
      var p := queue[0];
      queue := queue[1..];
      ghost var st := Step(p, deltaTime, onEvent, state);
      ghost var before := Outcome(back, state, delivered, added);
      assert p == q[k] && q[k..][1..] == q[k + 1..];
      var delay := p.delay - deltaTime;
      if delay <= 0.0 {
        var (game', queued) := onEvent(state, p.event);
        state := game';
        queue := queue + queued;
        delivered := delivered + [p.event];
        back := back + queued;
        added := added + queued;
      } else {
        queue := queue + [Pending(p.event, delay)];
        back := back + [Pending(p.event, delay)];
      }
      assert Outcome(back, state, delivered, added)
        == Outcome(before.queue + st.queue, st.game, before.delivered + st.delivered, before.added + st.added);
      if p.event.id == lastId {
        assert k == |q| - 1;
        break;
      }
      k := k + 1;
    }
  }

  /** The events of `q` that fall due after `deltaTime` more seconds. */
  function Due(q: seq<Pending>, deltaTime: real): (r: seq<Event>)
    ensures |r| <= |q|
    ensures forall ev :: ev in r ==> exists p :: p in q && p.event == ev
  {
    if q == [] then []
    else (if q[0].delay - deltaTime <= 0.0 then [q[0].event] else []) + Due(q[1..], deltaTime)
  }

  /** The events of `q` still waiting after `deltaTime`, with reduced delays. */
  function Waiting(q: seq<Pending>, deltaTime: real): (r: seq<Pending>)
    ensures |r| <= |q|
    ensures forall w :: w in r ==> w.delay > 0.0 && exists p :: p in q && p.event == w.event && w.delay == p.delay - deltaTime
  {
    if q == [] then []
    else (if q[0].delay - deltaTime > 0.0 then [Pending(q[0].event, q[0].delay - deltaTime)] else []) + Waiting(q[1..], deltaTime)
  }

  function Ids(q: seq<Pending>): set<nat> {
    set p | p in q :: p.event.id
  }

  /** The entries of `q` whose event id is in `ids`, in queue order. */
  function KeepIds(q: seq<Pending>, ids: set<nat>): (r: seq<Pending>)
    ensures |r| <= |q|
  {
    if q == [] then []
    else (if q[0].event.id in ids then [q[0]] else []) + KeepIds(q[1..], ids)
  }

  lemma {:induction false} KeepIdsAppend(a: seq<Pending>, b: seq<Pending>, ids: set<nat>)
    ensures KeepIds(a + b, ids) == KeepIds(a, ids) + KeepIds(b, ids)
    decreases |a|
  {
    if a == [] {
      assert a + b == b;
    } else {
      var head := if a[0].event.id in ids then [a[0]] else [];
      assert (a + b)[0] == a[0] && (a + b)[1..] == a[1..] + b;
      assert KeepIds(a + b, ids) == head + KeepIds(a[1..] + b, ids);
      KeepIdsAppend(a[1..], b, ids);
      assert KeepIds(a, ids) == head + KeepIds(a[1..], ids);
    }
  }

  lemma {:induction false} KeepIdsNone(q: seq<Pending>, ids: set<nat>)
    requires forall p :: p in q ==> p.event.id !in ids
    ensures KeepIds(q, ids) == []
    decreases |q|
  {
    if q != [] {
      KeepIdsNone(q[1..], ids);
    }
  }

  /** Visiting from a non-empty outcome extends the outcome of visiting from
      an empty one. */
  lemma {:induction false} VisitShift<S>(rest: seq<Pending>, deltaTime: real, onEvent: (S, Event) -> (S, seq<Pending>), acc: Outcome<S>)
    ensures
      var r := Dispatch(rest, deltaTime, acc.game, onEvent);
      Visit(rest, deltaTime, onEvent, acc) == Outcome(acc.queue + r.queue, r.game, acc.delivered + r.delivered, acc.added + r.added)
    decreases |rest|
  {
    if rest != [] {
      var st := Step(rest[0], deltaTime, onEvent, acc.game);
      var next := Outcome(acc.queue + st.queue, st.game, acc.delivered + st.delivered, acc.added + st.added);
      assert Outcome([] + st.queue, st.game, [] + st.delivered, [] + st.added) == st;
      VisitShift(rest[1..], deltaTime, onEvent, next);
      VisitShift(rest[1..], deltaTime, onEvent, st);
      var r1 := Dispatch(rest[1..], deltaTime, st.game, onEvent);
      assert Visit(rest, deltaTime, onEvent, acc) == Visit(rest[1..], deltaTime, onEvent, next);
      assert Dispatch(rest, deltaTime, acc.game, onEvent) == Visit(rest[1..], deltaTime, onEvent, st);
      assert (acc.queue + st.queue) + r1.queue == acc.queue + (st.queue + r1.queue);
      assert (acc.delivered + st.delivered) + r1.delivered == acc.delivered + (st.delivered + r1.delivered);
      assert (acc.added + st.added) + r1.added == acc.added + (st.added + r1.added);
    }
  }

  /** A dispatch is its first event's step followed by the dispatch of the rest. */
  lemma DispatchStep<S>(q: seq<Pending>, deltaTime: real, game: S, onEvent: (S, Event) -> (S, seq<Pending>))
    requires q != []
    ensures
      var st := Step(q[0], deltaTime, onEvent, game);
      var r := Dispatch(q[1..], deltaTime, st.game, onEvent);
      Dispatch(q, deltaTime, game, onEvent) == Outcome(st.queue + r.queue, r.game, st.delivered + r.delivered, st.added + r.added)
  {
    var st := Step(q[0], deltaTime, onEvent, game);
    assert Outcome([] + st.queue, st.game, [] + st.delivered, [] + st.added) == st;
    VisitShift(q[1..], deltaTime, onEvent, st);
  }

  /** Dispatching an empty queue changes nothing. */
  lemma DispatchEmpty<S>(deltaTime: real, game: S, onEvent: (S, Event) -> (S, seq<Pending>))
    ensures Dispatch([], deltaTime, game, onEvent) == Outcome([], game, [], [])
  {
  }

  /** An event is due exactly when some entry of `q` carries it and runs out
      of delay. */
  lemma {:induction false} DueMembers(q: seq<Pending>, deltaTime: real)
    ensures forall ev :: ev in Due(q, deltaTime) <==> exists p :: p in q && p.event == ev && p.delay - deltaTime <= 0.0
    decreases |q|
  {
    if q != [] {
      DueMembers(q[1..], deltaTime);
      assert forall p :: p in q <==> p == q[0] || p in q[1..];
    }
  }

  lemma IdsAppend(a: seq<Pending>, b: seq<Pending>)
    ensures Ids(a + b) == Ids(a) + Ids(b)
  {
    forall id | id in Ids(a + b)
      ensures id in Ids(a) + Ids(b)
    {
      var p :| p in a + b && p.event.id == id;
    }
    forall id | id in Ids(a) + Ids(b)
      ensures id in Ids(a + b)
    {
      if id in Ids(a) {
        var p :| p in a && p.event.id == id;
        assert p in a + b;
      } else {
        var p :| p in b && p.event.id == id;
        assert p in a + b;
      }
    }
  }

  /** With distinct ids, the entry at `i` is delivered exactly when its delay
      runs out. */
  lemma DueAt(q: seq<Pending>, deltaTime: real, i: nat)
    requires DistinctIds(q) && i < |q|
    ensures q[i].event in Due(q, deltaTime) <==> q[i].delay - deltaTime <= 0.0
  {
    DueMembers(q, deltaTime);
    if q[i].event in Due(q, deltaTime) {
      var p :| p in q && p.event == q[i].event && p.delay - deltaTime <= 0.0;
      var j :| 0 <= j < |q| && q[j] == p;
      assert q[j].event.id == q[i].event.id;
    }
  }

  /** Only ids of `q` can be waiting. */
  lemma WaitingIdsWithin(q: seq<Pending>, deltaTime: real)
    ensures Ids(Waiting(q, deltaTime)) <= Ids(q)
  {
    forall id | id in Ids(Waiting(q, deltaTime))
      ensures id in Ids(q)
    {
      var w :| w in Waiting(q, deltaTime) && w.event.id == id;
      var p :| p in q && p.event == w.event && w.delay == p.delay - deltaTime;
    }
  }

  /** With distinct ids, the id of the entry at `i` stays queued exactly when
      its delay does not run out. */
  lemma {:induction false} WaitingAt(q: seq<Pending>, deltaTime: real, i: nat)
    requires DistinctIds(q) && i < |q|
    ensures q[i].event.id in Ids(Waiting(q, deltaTime)) <==> q[i].delay - deltaTime > 0.0
    decreases |q|
  {
    var head := if q[0].delay - deltaTime > 0.0 then [Pending(q[0].event, q[0].delay - deltaTime)] else [];
    var tail := Waiting(q[1..], deltaTime);
    assert Waiting(q, deltaTime) == head + tail;
    IdsAppend(head, tail);
    assert q[i].event.id in Ids(head) <==> i == 0 && q[0].delay - deltaTime > 0.0 by {
      if head != [] {
        assert head[0] in head;
        assert forall p :: p in head ==> p == head[0];
      }
    }
    if i == 0 {
      assert q[0].event.id !in Ids(q[1..]) by {
        forall p | p in q[1..]
          ensures p.event.id != q[0].event.id
        {
          var j :| 0 <= j < |q[1..]| && q[1..][j] == p;
          assert q[j + 1] == p;
        }
      }
      WaitingIdsWithin(q[1..], deltaTime);
    } else {
      assert DistinctIds(q[1..]) by {
        forall a, b | 0 <= a < b < |q[1..]| ensures q[1..][a].event.id != q[1..][b].event.id {
          assert q[1..][a] == q[a + 1] && q[1..][b] == q[b + 1];
        }
      }
      assert q[1..][i - 1] == q[i];
      WaitingAt(q[1..], deltaTime, i - 1);
    }
  }

  /** Every event queued at the start is visited exactly once: it is either
      delivered or waiting, never both and never twice. */
  lemma {:induction false} VisitedOnce(q: seq<Pending>, deltaTime: real)
    ensures |Due(q, deltaTime)| + |Waiting(q, deltaTime)| == |q|
    ensures DistinctIds(q) ==> forall i :: 0 <= i < |q| ==>
      && (q[i].event in Due(q, deltaTime) <==> q[i].delay - deltaTime <= 0.0)
      && (q[i].event.id in Ids(Waiting(q, deltaTime)) <==> q[i].delay - deltaTime > 0.0)
    decreases |q|
  {
    if q != [] {
      VisitedOnce(q[1..], deltaTime);
    }
    if DistinctIds(q) {
      forall i | 0 <= i < |q|
        ensures q[i].event in Due(q, deltaTime) <==> q[i].delay - deltaTime <= 0.0
        ensures q[i].event.id in Ids(Waiting(q, deltaTime)) <==> q[i].delay - deltaTime > 0.0
      {
        DueAt(q, deltaTime, i);
        WaitingAt(q, deltaTime, i);
      }
    }
  }

  /** The due events are delivered in queue order, and only those: an event
      the game queues during the dispatch is not delivered by it. */
  lemma {:induction false} DeliveredInQueueOrder<S>(q: seq<Pending>, deltaTime: real, game: S, onEvent: (S, Event) -> (S, seq<Pending>))
    ensures Dispatch(q, deltaTime, game, onEvent).delivered == Due(q, deltaTime)
    decreases |q|
  {
    if q != [] {
      DispatchStep(q, deltaTime, game, onEvent);
      DeliveredInQueueOrder(q[1..], deltaTime, Step(q[0], deltaTime, onEvent, game).game, onEvent);
    }
  }

  /** The final queue holds the waiting events plus everything queued during
      the dispatch. */
  lemma {:induction false} QueueHoldsWaitingAndAdded<S>(q: seq<Pending>, deltaTime: real, game: S, onEvent: (S, Event) -> (S, seq<Pending>))
    ensures
      var r := Dispatch(q, deltaTime, game, onEvent);
      && multiset(r.queue) == multiset(Waiting(q, deltaTime)) + multiset(r.added)
      && |r.queue| == |Waiting(q, deltaTime)| + |r.added|
    decreases |q|
  {
    if q != [] {
      DispatchStep(q, deltaTime, game, onEvent);
      var st := Step(q[0], deltaTime, onEvent, game);
      QueueHoldsWaitingAndAdded(q[1..], deltaTime, st.game, onEvent);
      var head := if q[0].delay - deltaTime > 0.0 then [Pending(q[0].event, q[0].delay - deltaTime)] else [];
      assert Waiting(q, deltaTime) == head + Waiting(q[1..], deltaTime);
      assert multiset(st.queue) == multiset(head) + multiset(st.added);
    }
  }

  /** The queue ends up as long as it started, less the delivered events, plus
      the events queued during the dispatch. */
  lemma QueueLengthBalance<S>(q: seq<Pending>, deltaTime: real, game: S, onEvent: (S, Event) -> (S, seq<Pending>))
    ensures
      var r := Dispatch(q, deltaTime, game, onEvent);
      |r.queue| == |q| - |r.delivered| + |r.added|
  {
    QueueHoldsWaitingAndAdded(q, deltaTime, game, onEvent);
    DeliveredInQueueOrder(q, deltaTime, game, onEvent);
    VisitedOnce(q, deltaTime);
  }

  /** Restricted to ids in `ids` that the queued events avoid, the final queue
      is the waiting events in order. */
  lemma {:induction false} WaitingKeepOrderFor<S>(q: seq<Pending>, deltaTime: real, game: S, onEvent: (S, Event) -> (S, seq<Pending>), ids: set<nat>)
    requires forall p :: p in q ==> p.event.id in ids
    requires forall p :: p in Dispatch(q, deltaTime, game, onEvent).added ==> p.event.id !in ids
    ensures KeepIds(Dispatch(q, deltaTime, game, onEvent).queue, ids) == Waiting(q, deltaTime)
    decreases |q|
  {
    if q != [] {
      DispatchStep(q, deltaTime, game, onEvent);
      var st := Step(q[0], deltaTime, onEvent, game);
      var r := Dispatch(q[1..], deltaTime, st.game, onEvent);
      assert forall p :: p in r.added ==> p in st.added + r.added;
      assert forall p :: p in q[1..] ==> p in q;
      WaitingKeepOrderFor(q[1..], deltaTime, st.game, onEvent, ids);
      KeepIdsAppend(st.queue, r.queue, ids);
      if q[0].delay - deltaTime <= 0.0 {
        assert forall p :: p in st.added ==> p in st.added + r.added;
        KeepIdsNone(st.queue, ids);
      } else {
        assert KeepIds(st.queue, ids) == st.queue;
      }
    }
  }

  /** The events that are not yet due stay queued, with their delays reduced
      by `deltaTime` and in their original relative order, when the game
      queues only new events during the dispatch. */
  lemma WaitingKeepOrder<S>(q: seq<Pending>, deltaTime: real, game: S, onEvent: (S, Event) -> (S, seq<Pending>))
    requires forall p :: p in Dispatch(q, deltaTime, game, onEvent).added ==> p.event.id !in Ids(q)
    ensures KeepIds(Dispatch(q, deltaTime, game, onEvent).queue, Ids(q)) == Waiting(q, deltaTime)
  {
    WaitingKeepOrderFor(q, deltaTime, game, onEvent, Ids(q));
  }
}
