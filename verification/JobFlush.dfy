/**
 What flushing a job queue manager puts into Redis: the messages built for the pending jobs,
 grouped by queue, in batches, as the list of commands sent.
 */
module JobFlush {
  import opened Prelude
  import opened DebounceProtocol
  import DebounceMiddleware

  datatype Json = Null | Text(text: string) | Number(number: int) | List(items: seq<Json>) | Object(fields: map<string, Json>)

  datatype Job = Job(actor: string, args: seq<Json>, kwargs: map<string, Json>, delay: Option<int>)

  /** `keyFactory` is the actor's `debounce_key` option. */
  datatype Actor = Actor(queue: string, keyFactory: Option<(seq<Json>, map<string, Json>) -> Option<string>>, minThreshold: Option<int>)

  type Broker = map<string, Actor>

  /**
   How building and encoding one message goes: creating it or the key factory may raise, Redis may
   refuse the debounce transaction or run it without answering, and the encoder may raise.
   */
  datatype Course = Smooth | RaisesBeforeKey | KeyRefused | KeyUnanswered | EncoderRaises

  /** The random ids drawn for one message, the clocks read while building it, and how that goes. */
  datatype Draw = Draw(rid: string, messageId: string, dispatchedAt: int, etaFrom: int, course: Course)

  datatype Message = Message(id: string, rid: string, actor: string, args: seq<Json>, kwargs: map<string, Json>,
                             queue: string, debounceKey: Option<string>, eta: Option<int>)

  const BATCH_SIZE := 50
  const INGESTED := "event.ingested"

  // ----- building messages --------------------------------------------------------------

  /** The name of the delayed twin of a queue. */
  function DelayedName(queue: string): string {
    if |queue| >= 3 && queue[|queue| - 3..] == ".DQ" then queue else queue + ".DQ"
  }

  /** It ends in `.DQ`, and is the queue itself if that does already. */
  lemma DelayedNameIs(queue: string)
    ensures var name := DelayedName(queue);
            && |name| >= 3 && name[|name| - 3..] == ".DQ"
            && (name == queue || name[..|name| - 3] == queue)
            && (|queue| >= 3 && queue[|queue| - 3..] == ".DQ" ==> name == queue)
  {
  }

  function DebounceValue(actor: Actor, job: Job): Option<string> {
    if actor.keyFactory.None? then None else actor.keyFactory.value(job.args, job.kwargs)
  }

  function DebounceName(actor: Actor, job: Job): Option<string> {
    var value := DebounceValue(actor, job);
    if value.None? then None else Some(DebounceMiddleware.KEY_PREFIX + value.value)
  }

  function EffectiveDelay(actor: Actor, job: Job): Option<int> {
    if DebounceValue(actor, job).None? then job.delay
    else
      var least := DebounceMiddleware.DebounceDelay(actor.minThreshold);
      Some(if job.delay.Some? then Max(job.delay.value, least) else least)
  }

  function Built(actor: Actor, job: Job, draw: Draw): Message {
    var delay := EffectiveDelay(actor, job);
    var delayed := delay.Some? && 0 < delay.value;
    Message(draw.messageId, draw.rid, job.actor, job.args, job.kwargs,
            if delayed then DelayedName(actor.queue) else actor.queue,
            DebounceName(actor, job),
            if delayed then Some(draw.etaFrom + delay.value) else None)
  }

  /** The message is built: only a debounced one needs Redis. */
  predicate Builds(broker: Broker, job: Job, draw: Draw) {
    job.actor in broker &&
    match draw.course
    case RaisesBeforeKey => false
    case KeyRefused => DebounceName(broker[job.actor], job).None?
    case KeyUnanswered => DebounceName(broker[job.actor], job).None?
    case _ => true
  }

  /** The message is built and encoded. */
  predicate Ready(broker: Broker, job: Job, draw: Draw) {
    Builds(broker, job, draw) && draw.course != EncoderRaises
  }

  /** The messages of `jobs`, the i-th built with the i-th draw. */
  function BuiltAll(broker: Broker, jobs: seq<Job>, draws: nat -> Draw): (ms: seq<Message>)
    requires forall i :: 0 <= i < |jobs| ==> jobs[i].actor in broker
    ensures |ms| == |jobs|
  {
    if jobs == [] then []
    else
      var n := |jobs| - 1;
      BuiltAll(broker, jobs[..n], draws) + [Built(broker[jobs[n].actor], jobs[n], draws(n))]
  }

  /** What a message says: the job's actor and arguments, the ids drawn, where it goes and when. */
  lemma BuiltIs(actor: Actor, job: Job, draw: Draw)
    ensures var m := Built(actor, job, draw);
            var value := if actor.keyFactory.None? then None else actor.keyFactory.value(job.args, job.kwargs);
            var least := 1000 * (if actor.minThreshold.Some? then actor.minThreshold.value else 15);
            var own := if job.delay.Some? then job.delay.value else 0;
            var delay := if value.None? then own else if job.delay.Some? && least < own then own else least;
            && m.id == draw.messageId && m.rid == draw.rid
            && m.actor == job.actor && m.args == job.args && m.kwargs == job.kwargs
            && m.debounceKey == (if value.None? then None else Some(DebounceMiddleware.KEY_PREFIX + value.value))
            && m.queue == (if delay <= 0 then actor.queue else DelayedName(actor.queue))
            && m.eta == (if delay <= 0 then None else Some(draw.etaFrom + delay))
  {
  }

  /** The i-th message is the i-th job's, with the i-th ids. */
  lemma BuiltAt(broker: Broker, jobs: seq<Job>, draws: nat -> Draw, i: nat)
    requires forall i :: 0 <= i < |jobs| ==> jobs[i].actor in broker
    requires i < |jobs|
    ensures var m, job, draw := BuiltAll(broker, jobs, draws)[i], jobs[i], draws(i);
            var actor := broker[job.actor];
            var value := if actor.keyFactory.None? then None else actor.keyFactory.value(job.args, job.kwargs);
            var least := 1000 * (if actor.minThreshold.Some? then actor.minThreshold.value else 15);
            var own := if job.delay.Some? then job.delay.value else 0;
            var delay := if value.None? then own else if job.delay.Some? && least < own then own else least;
            && m.id == draw.messageId && m.rid == draw.rid
            && m.actor == job.actor && m.args == job.args && m.kwargs == job.kwargs
            && m.debounceKey == (if value.None? then None else Some(DebounceMiddleware.KEY_PREFIX + value.value))
            && m.queue == (if delay <= 0 then actor.queue else DelayedName(actor.queue))
            && m.eta == (if delay <= 0 then None else Some(draw.etaFrom + delay))
  {
    BuiltFrom(broker, jobs, draws, i);
    BuiltIs(broker[jobs[i].actor], jobs[i], draws(i));
  }

  lemma {:induction false} BuiltFrom(broker: Broker, jobs: seq<Job>, draws: nat -> Draw, i: nat)
    requires forall i :: 0 <= i < |jobs| ==> jobs[i].actor in broker
    requires i < |jobs|
    ensures BuiltAll(broker, jobs, draws)[i] == Built(broker[jobs[i].actor], jobs[i], draws(i))
  {
    if i < |jobs| - 1 {
      BuiltFrom(broker, jobs[..|jobs| - 1], draws, i);
    }
  }

  function AsTexts(ids: seq<string>): seq<Json> {
    seq(|ids|, i requires 0 <= i < |ids| => Text(ids[i]))
  }

  /** The pending jobs of a flush: one job, behind the others, carries all pending events in order. */
  function WithEvents(jobs: seq<Job>, events: seq<string>): (all: seq<Job>)
    ensures |all| == if events == [] then |jobs| else |jobs| + 1
    ensures forall i :: 0 <= i < |jobs| ==> all[i] == jobs[i]
    ensures events != [] ==>
              var job := all[|jobs|];
              && job.actor == "event.ingested" && job.kwargs == map[] && job.delay == None
              && |job.args| == 1 && job.args[0].List? && |job.args[0].items| == |events|
              && forall i :: 0 <= i < |events| ==> job.args[0].items[i] == Text(events[i])
  {
    if events == [] then jobs
    else jobs + [Job(INGESTED, [List(AsTexts(events))], map[], None)]
  }

  /**
   The messages of a flush: those of the pending jobs in order, and behind them, if events are
   pending, one message that carries the ids of all of them in order.
   */
  lemma FlushedMessages(broker: Broker, jobs: seq<Job>, events: seq<string>, draws: nat -> Draw)
    requires forall i :: 0 <= i < |jobs| ==> jobs[i].actor in broker
    requires events != [] ==> "event.ingested" in broker
    ensures forall i :: 0 <= i < |WithEvents(jobs, events)| ==> WithEvents(jobs, events)[i].actor in broker
    ensures var ms := BuiltAll(broker, WithEvents(jobs, events), draws);
            && |ms| == (if events == [] then |jobs| else |jobs| + 1)
            && ms[..|jobs|] == BuiltAll(broker, jobs, draws)
            && (events != [] ==>
                  var m := ms[|jobs|];
                  && m.actor == "event.ingested" && m.kwargs == map[]
                  && |m.args| == 1 && m.args[0].List? && |m.args[0].items| == |events|
                  && forall i :: 0 <= i < |events| ==> m.args[0].items[i] == Text(events[i]))
  {
    var all := WithEvents(jobs, events);
    if events == [] {
      assert all == jobs;
    } else {
      assert all[..|jobs|] == jobs;
      BuiltAt(broker, all, draws, |jobs|);
    }
  }

  // ----- grouping and batching ----------------------------------------------------------

  /** The messages routed to one queue, in order. */
  function Routed(ms: seq<Message>, queue: string): seq<Message> {
    if ms == [] then []
    else
      var n := |ms| - 1;
      Routed(ms[..n], queue) + if ms[n].queue == queue then [ms[n]] else []
  }

  predicate Distinct(order: seq<string>) {
    order == [] || (Distinct(order[..|order| - 1]) && order[|order| - 1] !in order[..|order| - 1])
  }

  /** The queues in order of first use, as a Python dict keeps them. */
  function QueueOrder(ms: seq<Message>): (order: seq<string>)
    ensures Distinct(order)
  {
    if ms == [] then []
    else
      var n := |ms| - 1;
      var before := QueueOrder(ms[..n]);
      assert (before + [ms[n].queue])[..|before|] == before;
      if ms[n].queue in before then before else before + [ms[n].queue]
  }

  /** The position of the first message of a queue, or the number of messages if there is none. */
  function FirstUse(ms: seq<Message>, queue: string): (i: nat)
    ensures i <= |ms| && (i < |ms| ==> ms[i].queue == queue)
    ensures forall j :: 0 <= j < i ==> ms[j].queue != queue
  {
    if ms == [] then 0
    else
      var n := |ms| - 1;
      var before := FirstUse(ms[..n], queue);
      if before < n || ms[n].queue == queue then before else n + 1
  }

  /** The queues are those of the messages. */
  lemma {:induction false} QueuesUsed(ms: seq<Message>, queue: string)
    ensures queue in QueueOrder(ms) <==> FirstUse(ms, queue) < |ms|
  {
    if ms != [] {
      QueuesUsed(ms[..|ms| - 1], queue);
    }
  }

  /** They come in the order of their first messages. */
  lemma {:induction false} QueueOrderIs(ms: seq<Message>, a: nat, b: nat)
    requires a < b < |QueueOrder(ms)|
    ensures FirstUse(ms, QueueOrder(ms)[a]) < FirstUse(ms, QueueOrder(ms)[b]) < |ms|
  {
    var n := |ms| - 1;
    var before := QueueOrder(ms[..n]);
    QueuesUsed(ms[..n], before[a]);
    if b < |before| {
      QueueOrderIs(ms[..n], a, b);
    } else {
      QueuesUsed(ms[..n], ms[n].queue);
    }
  }

  function Batches<T>(items: seq<T>): (batches: seq<seq<T>>) {
    if |items| == 0 then []
    else if |items| <= BATCH_SIZE then [items]
    else [items[..BATCH_SIZE]] + Batches(items[BATCH_SIZE..])
  }

  function Ids(ms: seq<Message>): (ids: seq<string>)
    ensures |ids| == |ms|
    ensures forall i :: 0 <= i < |ms| ==> ids[i] == ms[i].rid
  {
    seq(|ms|, i requires 0 <= i < |ms| => ms[i].rid)
  }

  // ----- Redis --------------------------------------------------------------------------

  /** The two commands of `_push_batch`. */
  datatype Command = HSet(queue: string, batch: seq<Message>) | RPush(queue: string, ids: seq<string>)

  /** The ids listed in a queue after some commands. */
  function Listed(cs: seq<Command>, queue: string): seq<string> {
    if cs == [] then []
    else
      var c := cs[|cs| - 1];
      Listed(cs[..|cs| - 1], queue) + if c.RPush? && c.queue == queue then c.ids else []
  }

  function Stored(batch: seq<Message>): (payloads: map<string, Message>)
    ensures forall i :: 0 <= i < |batch| ==> batch[i].rid in payloads
  {
    if batch == [] then map[]
    else
      var n := |batch| - 1;
      Stored(batch[..n])[batch[n].rid := batch[n]]
  }

  /** The payloads stored for a queue after some commands. */
  function Payloads(cs: seq<Command>, queue: string): map<string, Message> {
    if cs == [] then map[]
    else
      var c := cs[|cs| - 1];
      var before := Payloads(cs[..|cs| - 1], queue);
      if c.HSet? && c.queue == queue then before + Stored(c.batch) else before
  }

  function PushBatch(queue: string, batch: seq<Message>): seq<Command> {
    [HSet(queue, batch), RPush(queue, Ids(batch))]
  }

  function PushAll(queue: string, batches: seq<seq<Message>>): seq<Command> {
    if batches == [] then []
    else PushAll(queue, batches[..|batches| - 1]) + PushBatch(queue, batches[|batches| - 1])
  }

  function PushQueues(ms: seq<Message>, order: seq<string>): seq<Command> {
    if order == [] then []
    else
      var q := order[|order| - 1];
      PushQueues(ms, order[..|order| - 1]) + PushAll(q, Batches(Routed(ms, q)))
  }

  /** Everything one flush sends to Redis. */
  function FlushCommands(ms: seq<Message>): seq<Command> {
    PushQueues(ms, QueueOrder(ms))
  }

  /**
   What Redis carries out when it answers only so many commands: after the first one it does not
   answer, which it may or may not still carry out, nothing more is sent.
   */
  function CarriedOut(cs: seq<Command>, answers: nat, oneMore: bool): seq<Command> {
    if |cs| <= answers then cs else cs[..if oneMore then answers + 1 else answers]
  }

  // ----- conservation and order ---------------------------------------------------------

  function Concat<T>(batches: seq<seq<T>>): seq<T> {
    if batches == [] then [] else Concat(batches[..|batches| - 1]) + batches[|batches| - 1]
  }

  lemma {:induction false} ConcatFirst<T>(first: seq<T>, rest: seq<seq<T>>)
    ensures Concat([first] + rest) == first + Concat(rest)
  {
    var all := [first] + rest;
    if rest == [] {
      assert all[..0] == [];
    } else {
      ConcatFirst(first, rest[..|rest| - 1]);
      assert all[..|all| - 1] == [first] + rest[..|rest| - 1];
    }
  }

  /** Batching loses nothing, keeps the order and never exceeds the batch size. */
  lemma {:induction false} BatchesConserve<T>(items: seq<T>)
    ensures Concat(Batches(items)) == items
    ensures forall i :: 0 <= i < |Batches(items)| ==> 0 < |Batches(items)[i]| <= 50
    ensures forall i :: 0 <= i < |Batches(items)| - 1 ==> |Batches(items)[i]| == 50
  {
    if |items| == 0 {
    } else if |items| <= BATCH_SIZE {
      assert [items][..0] == [];
    } else {
      BatchesConserve(items[BATCH_SIZE..]);
      ConcatFirst(items[..BATCH_SIZE], Batches(items[BATCH_SIZE..]));
    }
  }

  lemma {:induction false} ListedApp(cs: seq<Command>, more: seq<Command>, queue: string)
    ensures Listed(cs + more, queue) == Listed(cs, queue) + Listed(more, queue)
  {
    if more == [] {
      assert cs + more == cs;
    } else {
      var n := |more| - 1;
      var c := more[n];
      ListedApp(cs, more[..n], queue);
      assert (cs + more)[..|cs + more| - 1] == cs + more[..n];
      assert (cs + more)[|cs + more| - 1] == c;
      var last := if c.RPush? && c.queue == queue then c.ids else [];
      assert Listed(cs + more, queue) == Listed(cs, queue) + Listed(more[..n], queue) + last;
    }
  }

  lemma IdsApp(first: seq<Message>, more: seq<Message>)
    ensures Ids(first + more) == Ids(first) + Ids(more)
  {
  }

  lemma ListedPushBatch(q: string, batch: seq<Message>, queue: string)
    ensures Listed(PushBatch(q, batch), queue) == if q == queue then Ids(batch) else []
  {
    var cs := PushBatch(q, batch);
    assert cs[..1] == [HSet(q, batch)] && cs[..1][..0] == [];
    assert Listed(cs[..1], queue) == [];
  }

  lemma {:induction false} ListedPushAll(q: string, batches: seq<seq<Message>>, queue: string)
    ensures Listed(PushAll(q, batches), queue) == if q == queue then Ids(Concat(batches)) else []
  {
    if batches != [] {
      var n := |batches| - 1;
      ListedPushAll(q, batches[..n], queue);
      ListedApp(PushAll(q, batches[..n]), PushBatch(q, batches[n]), queue);
      ListedPushBatch(q, batches[n], queue);
      IdsApp(Concat(batches[..n]), batches[n]);
    }
  }

  lemma ListedPushQueue(ms: seq<Message>, q: string, queue: string)
    ensures Listed(PushAll(q, Batches(Routed(ms, q))), queue) == if q == queue then Ids(Routed(ms, q)) else []
  {
    ListedPushAll(q, Batches(Routed(ms, q)), queue);
    BatchesConserve(Routed(ms, q));
  }

  lemma InLonger(order: seq<string>, queue: string)
    requires order != []
    ensures queue in order <==> queue in order[..|order| - 1] || queue == order[|order| - 1]
  {
  }

  lemma {:induction false} ListedPushQueues(ms: seq<Message>, order: seq<string>, queue: string)
    requires Distinct(order)
    ensures Listed(PushQueues(ms, order), queue) == if queue in order then Ids(Routed(ms, queue)) else []
  {
    if order != [] {
      var n := |order| - 1;
      var q := order[n];
      ListedPushQueues(ms, order[..n], queue);
      ListedApp(PushQueues(ms, order[..n]), PushAll(q, Batches(Routed(ms, q))), queue);
      ListedPushQueue(ms, q, queue);
      InLonger(order, queue);
    }
  }

  lemma {:induction false} RoutedNowhere(ms: seq<Message>, queue: string)
    requires queue !in QueueOrder(ms)
    ensures Routed(ms, queue) == []
  {
    if ms != [] {
      RoutedNowhere(ms[..|ms| - 1], queue);
    }
  }

  /** A flush appends to every queue exactly the ids of the messages routed to it, in order. */
  lemma FlushConserves(cs: seq<Command>, ms: seq<Message>, queue: string)
    ensures Listed(cs + FlushCommands(ms), queue) == Listed(cs, queue) + Ids(Routed(ms, queue))
  {
    ListedApp(cs, FlushCommands(ms), queue);
    ListedPushQueues(ms, QueueOrder(ms), queue);
    if queue !in QueueOrder(ms) {
      RoutedNowhere(ms, queue);
    }
  }

  /** Message i is routed to its queue, behind those of its queue before it, and nowhere else. */
  lemma {:induction false} RoutedOnce(ms: seq<Message>, i: nat)
    requires i < |ms|
    ensures var at := |Routed(ms[..i], ms[i].queue)|;
            at < |Routed(ms, ms[i].queue)| && Routed(ms, ms[i].queue)[at] == ms[i]
    ensures forall q, k :: 0 <= k < |Routed(ms, q)| ==> Routed(ms, q)[k].queue == q
    decreases |ms|
  {
    var n := |ms| - 1;
    RoutedAgree(ms);
    if i < n {
      RoutedOnce(ms[..n], i);
      assert ms[..n][..i] == ms[..i] && ms[..n][i] == ms[i];
    }
  }

  lemma {:induction false} RoutedAgree(ms: seq<Message>)
    ensures forall q, k :: 0 <= k < |Routed(ms, q)| ==> Routed(ms, q)[k].queue == q
  {
    if ms != [] {
      RoutedAgree(ms[..|ms| - 1]);
    }
  }

  // ----- payloads -----------------------------------------------------------------------

  lemma {:induction false} PayloadsApp(cs: seq<Command>, more: seq<Command>, queue: string)
    ensures Payloads(cs + more, queue) == Payloads(cs, queue) + Payloads(more, queue)
  {
    if more == [] {
      assert cs + more == cs;
    } else {
      var n := |more| - 1;
      PayloadsApp(cs, more[..n], queue);
      assert (cs + more)[..|cs + more| - 1] == cs + more[..n];
    }
  }

  lemma PayloadsPushBatch(q: string, batch: seq<Message>, queue: string)
    ensures Payloads(PushBatch(q, batch), queue) == if q == queue then Stored(batch) else map[]
  {
    var cs := PushBatch(q, batch);
    assert cs[..1] == [HSet(q, batch)] && cs[..1][..0] == [];
    assert Payloads(cs[..1], queue) == if q == queue then Stored(batch) else map[];
  }

  lemma {:induction false} StoredApp(first: seq<Message>, more: seq<Message>)
    ensures Stored(first + more) == Stored(first) + Stored(more)
  {
    if more == [] {
      assert first + more == first;
    } else {
      var n := |more| - 1;
      StoredApp(first, more[..n]);
      assert (first + more)[..|first + more| - 1] == first + more[..n];
    }
  }

  lemma {:induction false} PayloadsPushAll(q: string, batches: seq<seq<Message>>, queue: string)
    ensures Payloads(PushAll(q, batches), queue) == if q == queue then Stored(Concat(batches)) else map[]
  {
    if batches != [] {
      var n := |batches| - 1;
      PayloadsPushAll(q, batches[..n], queue);
      PayloadsApp(PushAll(q, batches[..n]), PushBatch(q, batches[n]), queue);
      PayloadsPushBatch(q, batches[n], queue);
      StoredApp(Concat(batches[..n]), batches[n]);
    }
  }

  lemma PayloadsPushQueue(ms: seq<Message>, q: string, queue: string)
    ensures Payloads(PushAll(q, Batches(Routed(ms, q))), queue) == if q == queue then Stored(Routed(ms, q)) else map[]
  {
    PayloadsPushAll(q, Batches(Routed(ms, q)), queue);
    BatchesConserve(Routed(ms, q));
  }

  lemma {:induction false} PayloadsPushQueues(ms: seq<Message>, order: seq<string>, queue: string)
    requires Distinct(order)
    ensures Payloads(PushQueues(ms, order), queue) == if queue in order then Stored(Routed(ms, queue)) else map[]
  {
    if order != [] {
      var n := |order| - 1;
      PayloadsPushQueues(ms, order[..n], queue);
      PayloadsApp(PushQueues(ms, order[..n]), PushAll(order[n], Batches(Routed(ms, order[n]))), queue);
      PayloadsPushQueue(ms, order[n], queue);
      InLonger(order, queue);
    }
  }

  /** A flush stores for every queue exactly the messages routed to it. */
  lemma FlushStores(cs: seq<Command>, ms: seq<Message>, queue: string)
    ensures Payloads(cs + FlushCommands(ms), queue) == Payloads(cs, queue) + Stored(Routed(ms, queue))
  {
    PayloadsApp(cs, FlushCommands(ms), queue);
    PayloadsPushQueues(ms, QueueOrder(ms), queue);
    if queue !in QueueOrder(ms) {
      RoutedNowhere(ms, queue);
    }
  }

  ghost predicate DistinctRids(ms: seq<Message>) {
    forall i, j :: 0 <= i < j < |ms| ==> ms[i].rid != ms[j].rid
  }

  lemma {:induction false} StoredAt(ms: seq<Message>, i: nat)
    requires DistinctRids(ms) && i < |ms|
    ensures ms[i].rid in Stored(ms) && Stored(ms)[ms[i].rid] == ms[i]
  {
    var n := |ms| - 1;
    if i < n {
      StoredAt(ms[..n], i);
    }
  }

  lemma {:induction false} RoutedFrom(ms: seq<Message>, q: string, k: nat) returns (i: nat)
    requires k < |Routed(ms, q)|
    ensures i < |ms| && Routed(ms, q)[k] == ms[i] && |Routed(ms[..i], q)| == k
  {
    var n := |ms| - 1;
    if k == |Routed(ms[..n], q)| {
      i := n;
    } else {
      i := RoutedFrom(ms[..n], q, k);
      assert ms[..n][..i] == ms[..i];
    }
  }

  lemma RoutedDistinct(ms: seq<Message>, q: string)
    requires DistinctRids(ms)
    ensures DistinctRids(Routed(ms, q))
  {
    var routed := Routed(ms, q);
    forall k, l | 0 <= k < l < |routed| ensures routed[k].rid != routed[l].rid {
      var i := RoutedFrom(ms, q, k);
      var j := RoutedFrom(ms, q, l);
      assert i != j;
    }
  }

  /**
   Delivery: message i ends up listed in its queue, after what was there and after the messages
   of that queue built before it, and its payload is the message itself.
   */
  lemma EveryMessageDelivered(cs: seq<Command>, ms: seq<Message>, i: nat)
    requires DistinctRids(ms) && i < |ms|
    ensures var q := ms[i].queue;
            var all := cs + FlushCommands(ms);
            var at := |Listed(cs, q)| + |Routed(ms[..i], q)|;
            && at < |Listed(all, q)| && Listed(all, q)[at] == ms[i].rid
            && ms[i].rid in Payloads(all, q) && Payloads(all, q)[ms[i].rid] == ms[i]
  {
    var q := ms[i].queue;
    FlushConserves(cs, ms, q);
    FlushStores(cs, ms, q);
    RoutedOnce(ms, i);
    RoutedDistinct(ms, q);
    StoredAt(Routed(ms, q), |Routed(ms[..i], q)|);
  }

  // ----- intermediate states ------------------------------------------------------------

  /** Every id listed in a queue from position `from` on has its payload stored. */
  ghost predicate Backed(cs: seq<Command>, queue: string, from: nat) {
    forall i :: from <= i < |Listed(cs, queue)| ==> Listed(cs, queue)[i] in Payloads(cs, queue)
  }

  ghost predicate AlwaysBacked(cs: seq<Command>, start: nat, queue: string)
    requires start <= |cs|
  {
    forall n :: start <= n <= |cs| ==> Backed(cs[..n], queue, |Listed(cs[..start], queue)|)
  }

  lemma BackedByBatch(cs: seq<Command>, q: string, batch: seq<Message>, start: nat, queue: string)
    requires start <= |cs| && AlwaysBacked(cs, start, queue)
    ensures AlwaysBacked(cs + PushBatch(q, batch), start, queue)
  {
    var stored := cs + [HSet(q, batch)];
    var pushed := stored + [RPush(q, Ids(batch))];
    assert cs[..|cs|] == cs && stored[..|cs|] == cs && pushed[..|cs| + 1] == stored;
    assert Backed(cs, queue, |Listed(cs[..start], queue)|);
    assert Listed(stored, queue) == Listed(cs, queue);
    assert Backed(stored, queue, |Listed(cs[..start], queue)|);
    assert Payloads(pushed, queue) == Payloads(stored, queue);
    assert Backed(pushed, queue, |Listed(cs[..start], queue)|);
    var all := cs + PushBatch(q, batch);
    assert all == pushed && all[..start] == cs[..start];
    forall n | start <= n <= |all| ensures Backed(all[..n], queue, |Listed(all[..start], queue)|) {
      if n <= |cs| {
        assert all[..n] == cs[..n];
      } else if n == |cs| + 1 {
        assert all[..n] == stored;
      } else {
        assert all[..n] == pushed;
      }
    }
  }

  lemma Associative(a: seq<Command>, b: seq<Command>, c: seq<Command>)
    ensures a + (b + c) == a + b + c
  {
  }

  lemma {:induction false} BackedByAll(cs: seq<Command>, q: string, batches: seq<seq<Message>>, start: nat, queue: string)
    requires start <= |cs| && AlwaysBacked(cs, start, queue)
    ensures AlwaysBacked(cs + PushAll(q, batches), start, queue)
  {
    if batches == [] {
      assert cs + PushAll(q, batches) == cs;
    } else {
      var n := |batches| - 1;
      BackedByAll(cs, q, batches[..n], start, queue);
      BackedByBatch(cs + PushAll(q, batches[..n]), q, batches[n], start, queue);
      Associative(cs, PushAll(q, batches[..n]), PushBatch(q, batches[n]));
    }
  }

  lemma {:induction false} BackedByQueues(cs: seq<Command>, ms: seq<Message>, order: seq<string>, start: nat, queue: string)
    requires start <= |cs| && AlwaysBacked(cs, start, queue)
    ensures AlwaysBacked(cs + PushQueues(ms, order), start, queue)
  {
    if order == [] {
      assert cs + PushQueues(ms, order) == cs;
    } else {
      var n := |order| - 1;
      var batches := Batches(Routed(ms, order[n]));
      BackedByQueues(cs, ms, order[..n], start, queue);
      BackedByAll(cs + PushQueues(ms, order[..n]), order[n], batches, start, queue);
      Associative(cs, PushQueues(ms, order[..n]), PushAll(order[n], batches));
    }
  }

  /** However far a flush gets, every id it has listed so far has its payload. */
  lemma FlushAlwaysBacked(cs: seq<Command>, ms: seq<Message>, queue: string)
    ensures AlwaysBacked(cs + FlushCommands(ms), |cs|, queue)
  {
    assert cs[..|cs|] == cs;
    assert AlwaysBacked(cs, |cs|, queue);
    BackedByQueues(cs, ms, QueueOrder(ms), |cs|, queue);
  }

  /** So a flush that Redis cuts short anywhere lists no id without its payload. */
  lemma CutShortBacked(cs: seq<Command>, ms: seq<Message>, answers: nat, oneMore: bool, queue: string)
    ensures Backed(cs + CarriedOut(FlushCommands(ms), answers, oneMore), queue, |Listed(cs, queue)|)
  {
    var all, done := cs + FlushCommands(ms), cs + CarriedOut(FlushCommands(ms), answers, oneMore);
    FlushAlwaysBacked(cs, ms, queue);
    assert all[..|cs|] == cs && all[..|done|] == done;
  }

  lemma CarriedOutApp(first: seq<Command>, more: seq<Command>, answers: nat, oneMore: bool)
    ensures |first| <= answers ==>
              CarriedOut(first + more, answers, oneMore) == first + CarriedOut(more, answers - |first|, oneMore)
    ensures answers < |first| ==> CarriedOut(first + more, answers, oneMore) == CarriedOut(first, answers, oneMore)
  {
  }

  // ----- debounced messages -------------------------------------------------------------

  /**
   A debounced message is due no earlier than the actor's threshold of `t` seconds after its
   dispatch, on the clock in seconds as well; by that much exactly, if the job has no delay.
   */
  lemma EtaCoversDebounce(actor: Actor, job: Job, draw: Draw, t: int)
    requires draw.dispatchedAt <= draw.etaFrom
    requires actor.keyFactory.Some? && actor.keyFactory.value(job.args, job.kwargs).Some?
    requires 0 < t && t == if actor.minThreshold.Some? then actor.minThreshold.value else 15
    ensures var m := Built(actor, job, draw);
            && m.eta.Some?
            && draw.dispatchedAt + 1000 * t <= m.eta.value
            && Seconds(draw.dispatchedAt) + t <= Seconds(m.eta.value)
            && (job.delay.None? ==> m.eta.value - draw.etaFrom == 1000 * t)
  {
    BuiltIs(actor, job, draw);
  }
}
