/** The job queue manager of server/rapidly/worker/_enqueue.py. */
module JobQueue {
  import opened Prelude
  import opened DebounceProtocol
  import DebounceMiddleware
  import opened JobFlush

  /** `answers` is how many more queue commands Redis answers, `oneMore` whether it carries out the next. */
  class Redis {
    const debounce: DebounceMiddleware.DebounceKeys
    var commands: seq<Command>
    var answers: nat
    const oneMore: bool

    constructor (answers: nat, oneMore: bool)
      ensures fresh(debounce) && debounce.keys == map[] && commands == []
      ensures this.answers == answers && this.oneMore == oneMore
    {
      debounce := new DebounceMiddleware.DebounceKeys();
      commands := [];
      this.answers, this.oneMore := answers, oneMore;
    }

    method Send(c: Command) returns (ok: bool)
      modifies this`commands, this`answers
      ensures ok <==> 1 <= old(answers)
      ensures commands == old(commands) + if 1 <= old(answers) || oneMore then [c] else []
      ensures ok ==> answers == old(answers) - 1
    {
      ok := 0 < answers;
      if ok || oneMore {
        commands := commands + [c];
      }
      if ok {
        answers := answers - 1;
      }
    }
  }

  /** How many jobs precede the first one whose message is not built and encoded. */
  function ReadyPrefix(broker: Broker, jobs: seq<Job>, draws: nat -> Draw): (n: nat)
    ensures n <= |jobs|
    ensures forall i :: 0 <= i < n ==> Ready(broker, jobs[i], draws(i))
    ensures n < |jobs| ==> !Ready(broker, jobs[n], draws(n))
  {
    if jobs == [] then 0
    else
      var m := |jobs| - 1;
      var before := ReadyPrefix(broker, jobs[..m], draws);
      if before == m && Ready(broker, jobs[m], draws(m)) then m + 1 else before
  }

  /** How many jobs a flush tries to build. */
  function Tried(broker: Broker, jobs: seq<Job>, draws: nat -> Draw): (n: nat)
    ensures n <= |jobs|
  {
    var n := ReadyPrefix(broker, jobs, draws);
    if n < |jobs| then n + 1 else n
  }

  type Keys = map<string, Key>

  /** The debounce keys after trying to build one message. */
  function KeysAfter(keys: Keys, broker: Broker, job: Job, draw: Draw): Keys {
    if job.actor !in broker || draw.course in {RaisesBeforeKey, KeyRefused} then keys
    else
      var name := DebounceName(broker[job.actor], job);
      if name.None? then keys
      else keys[name.value := Dispatched(DebounceMiddleware.Lookup(keys, name.value), draw.messageId, draw.dispatchedAt)]
  }

  /** The debounce keys after trying to build messages for some jobs. */
  function DispatchAll(keys: Keys, broker: Broker, jobs: seq<Job>, draws: nat -> Draw): Keys {
    if jobs == [] then keys
    else
      var n := |jobs| - 1;
      KeysAfter(DispatchAll(keys, broker, jobs[..n], draws), broker, jobs[n], draws(n))
  }

  lemma ReadyPrefixUpTo(broker: Broker, jobs: seq<Job>, draws: nat -> Draw, i: nat)
    requires i <= |jobs| && AllReady(broker, jobs[..i], draws)
    requires i < |jobs| ==> !Ready(broker, jobs[i], draws(i))
    ensures ReadyPrefix(broker, jobs, draws) == i
  {
    assert forall k :: 0 <= k < i ==> jobs[..i][k] == jobs[k];
  }

  lemma KeysNext(keys: Keys, broker: Broker, jobs: seq<Job>, draws: nat -> Draw, i: nat)
    requires i < |jobs|
    ensures DispatchAll(keys, broker, jobs[..i + 1], draws) ==
            KeysAfter(DispatchAll(keys, broker, jobs[..i], draws), broker, jobs[i], draws(i))
  {
    assert jobs[..i + 1][..i] == jobs[..i] && jobs[..i + 1][i] == jobs[i];
  }

  ghost predicate AllReady(broker: Broker, jobs: seq<Job>, draws: nat -> Draw) {
    forall k :: 0 <= k < |jobs| ==> Ready(broker, jobs[k], draws(k))
  }

  lemma BuiltNext(broker: Broker, jobs: seq<Job>, draws: nat -> Draw, i: nat)
    requires i < |jobs| && AllReady(broker, jobs[..i], draws) && Ready(broker, jobs[i], draws(i))
    ensures AllReady(broker, jobs[..i + 1], draws)
    ensures BuiltAll(broker, jobs[..i + 1], draws) ==
            BuiltAll(broker, jobs[..i], draws) + [Built(broker[jobs[i].actor], jobs[i], draws(i))]
  {
    var longer := jobs[..i + 1];
    assert longer[..i] == jobs[..i] && longer[i] == jobs[i];
    forall k | 0 <= k < |longer| ensures Ready(broker, longer[k], draws(k)) {
      assert k < i ==> longer[k] == jobs[..i][k];
    }
  }

  /**
   `_build_message`.  The debounce key is set by the time it is known whether Redis answered.
   The delay of a debounced message is at least its actor's threshold.
   */
  method BuildMessage(broker: Broker, redis: Redis, job: Job, draw: Draw) returns (r: Result<Message, string>)
    modifies redis.debounce
    ensures r.Ok? <==> Builds(broker, job, draw)
    ensures r.Ok? ==> r.value == Built(broker[job.actor], job, draw)
    ensures redis.debounce.keys == KeysAfter(old(redis.debounce.keys), broker, job, draw)
    ensures job.actor !in broker ==> r.Err? && redis.debounce.keys == old(redis.debounce.keys)
    ensures job.actor in broker ==>
              var actor := broker[job.actor];
              var value := if actor.keyFactory.None? then None else actor.keyFactory.value(job.args, job.kwargs);
              && (r.Ok? <==> draw.course != RaisesBeforeKey && (value.Some? ==> draw.course !in {KeyRefused, KeyUnanswered}))
              && redis.debounce.keys ==
                 (if value.None? || draw.course in {RaisesBeforeKey, KeyRefused} then old(redis.debounce.keys)
                  else old(redis.debounce.keys)[DebounceMiddleware.KEY_PREFIX + value.value :=
                         Dispatched(old(redis.debounce.Get(DebounceMiddleware.KEY_PREFIX + value.value)), draw.messageId, draw.dispatchedAt)])
    ensures r.Ok? ==>
              var m, actor := r.value, broker[job.actor];
              var value := if actor.keyFactory.None? then None else actor.keyFactory.value(job.args, job.kwargs);
              var least := 1000 * (if actor.minThreshold.Some? then actor.minThreshold.value else 15);
              var own := if job.delay.Some? then job.delay.value else 0;
              var delay := if value.None? then own else if job.delay.Some? && least < own then own else least;
              && m.id == draw.messageId && m.rid == draw.rid
              && m.actor == job.actor && m.args == job.args && m.kwargs == job.kwargs
              && m.debounceKey == (if value.None? then None else Some(DebounceMiddleware.KEY_PREFIX + value.value))
              && m.queue == (if delay <= 0 then actor.queue else DelayedName(actor.queue))
              && m.eta == (if delay <= 0 then None else Some(draw.etaFrom + delay))
  {
    r := Build(broker, redis, job, draw);
    if job.actor in broker {
      BuiltIs(broker[job.actor], job, draw);
    }
  }

  method Build(broker: Broker, redis: Redis, job: Job, draw: Draw) returns (r: Result<Message, string>)
    modifies redis.debounce
    ensures r.Ok? <==> Builds(broker, job, draw)
    ensures r.Ok? ==> r.value == Built(broker[job.actor], job, draw)
    ensures redis.debounce.keys == KeysAfter(old(redis.debounce.keys), broker, job, draw)
  {
    if job.actor !in broker {
      return Err("actor not found");
    }
    if draw.course == RaisesBeforeKey {
      return Err("message or key factory");
    }
    var actor := broker[job.actor];
    var message := Message(draw.messageId, draw.rid, job.actor, job.args, job.kwargs, actor.queue, None, None);
    var delay := job.delay;
    var value := if actor.keyFactory.None? then None else actor.keyFactory.value(job.args, job.kwargs);
    if value.Some? && draw.course == KeyRefused {
      return Err("debounce transaction");
    }
    var debounce := DebounceMiddleware.SetDebounceKey(redis.debounce, value, actor.minThreshold, draw.messageId, draw.dispatchedAt);
    if value.Some? && draw.course == KeyUnanswered {
      return Err("debounce transaction");
    }
    if debounce.Some? {
      message := message.(debounceKey := Some(debounce.value.0));
      delay := Some(if delay.Some? then Max(delay.value, debounce.value.1) else debounce.value.1);
    }
    if delay.Some? && 0 < delay.value {
      message := message.(queue := DelayedName(message.queue), eta := Some(draw.etaFrom + delay.value));
    }
    return Ok(message);
  }

  method PushBatch(redis: Redis, queue: string, batch: seq<Message>) returns (ok: bool)
    modifies redis`commands, redis`answers
    ensures ok <==> |JobFlush.PushBatch(queue, batch)| <= old(redis.answers)
    ensures redis.commands == old(redis.commands) + CarriedOut(JobFlush.PushBatch(queue, batch), old(redis.answers), redis.oneMore)
    ensures ok ==> redis.answers == old(redis.answers) - |JobFlush.PushBatch(queue, batch)|
  {
    var payloads, ids := HSet(queue, batch), RPush(queue, Ids(batch));
    assert JobFlush.PushBatch(queue, batch) == [payloads] + [ids];
    CarriedOutApp([payloads], [ids], redis.answers, redis.oneMore);
    ok := redis.Send(payloads);
    if ok {
      ok := redis.Send(ids);
    }
  }

  /** One batch of a queue, when the batches before it have been pushed since `was`. */
  method PushNextBatch(redis: Redis, queue: string, batch: seq<Message>, ghost batches: seq<seq<Message>>,
                       ghost was: seq<Command>, ghost answers: nat) returns (ok: bool)
    requires batches != [] && batch == batches[|batches| - 1]
    requires var before := PushAll(queue, batches[..|batches| - 1]);
             redis.commands == was + before && redis.answers + |before| == answers
    modifies redis`commands, redis`answers
    ensures ok <==> |PushAll(queue, batches)| <= answers
    ensures redis.commands == was + CarriedOut(PushAll(queue, batches), answers, redis.oneMore)
    ensures ok ==> redis.answers + |PushAll(queue, batches)| == answers
  {
    ghost var before, cs := PushAll(queue, batches[..|batches| - 1]), JobFlush.PushBatch(queue, batch);
    CarriedOutApp(before, cs, answers, redis.oneMore);
    ok := PushBatch(redis, queue, batch);
    Associative(was, before, CarriedOut(cs, answers - |before|, redis.oneMore));
  }

  method PushQueue(redis: Redis, queue: string, messages: seq<Message>) returns (ok: bool)
    modifies redis`commands, redis`answers
    ensures var cs := PushAll(queue, Batches(messages));
            && (ok <==> |cs| <= old(redis.answers))
            && redis.commands == old(redis.commands) + CarriedOut(cs, old(redis.answers), redis.oneMore)
            && (ok ==> redis.answers == old(redis.answers) - |cs|)
  {
    var batches := Batches(messages);
    ghost var was, answers := redis.commands, redis.answers;
    for i := 0 to |batches|
      invariant redis.commands == was + PushAll(queue, batches[..i])
      invariant redis.answers + |PushAll(queue, batches[..i])| == answers
    {
      assert batches[..i + 1][..i] == batches[..i];
      ok := PushNextBatch(redis, queue, batches[i], batches[..i + 1], was, answers);
      if !ok {
        StopsAll(queue, batches, i + 1, answers, redis.oneMore);
        return;
      }
    }
    assert batches[..|batches|] == batches;
    ok := true;
  }

  lemma PushAllNext(queue: string, batches: seq<seq<Message>>, i: nat)
    requires i < |batches|
    ensures PushAll(queue, batches[..i + 1]) == PushAll(queue, batches[..i]) + JobFlush.PushBatch(queue, batches[i])
  {
    assert batches[..i + 1][..i] == batches[..i];
  }

  /** What does not get through within the first batches does not get through with all of them. */
  lemma {:induction false} StopsAll(queue: string, batches: seq<seq<Message>>, n: nat, answers: nat, oneMore: bool)
    requires n <= |batches| && answers < |PushAll(queue, batches[..n])|
    ensures answers < |PushAll(queue, batches)|
    ensures CarriedOut(PushAll(queue, batches), answers, oneMore) == CarriedOut(PushAll(queue, batches[..n]), answers, oneMore)
    decreases |batches| - n
  {
    if n < |batches| {
      PushAllNext(queue, batches, n);
      CarriedOutApp(PushAll(queue, batches[..n]), JobFlush.PushBatch(queue, batches[n]), answers, oneMore);
      StopsAll(queue, batches, n + 1, answers, oneMore);
    } else {
      assert batches[..n] == batches;
    }
  }

  method Group(ms: seq<Message>) returns (order: seq<string>, perQueue: map<string, seq<Message>>)
    ensures order == QueueOrder(ms)
    ensures forall q :: q in order ==> q in perQueue && perQueue[q] == Routed(ms, q)
  {
    order, perQueue := [], map[];
    for i := 0 to |ms|
      invariant order == QueueOrder(ms[..i])
      invariant forall q :: q in order <==> q in perQueue
      invariant forall q :: q in perQueue ==> perQueue[q] == Routed(ms[..i], q)
    {
      var q := ms[i].queue;
      if q !in perQueue {
        assert Routed(ms[..i], q) == [] by {
          RoutedNowhere(ms[..i], q);
        }
        perQueue := perQueue[q := []];
        order := order + [q];
      }
      perQueue := perQueue[q := perQueue[q] + [ms[i]]];
      assert ms[..i + 1][..i] == ms[..i];
    }
    assert ms[..|ms|] == ms;
  }

  /** One queue of a flush, when the queues before it have been pushed since `was`. */
  method PushNext(redis: Redis, messages: seq<Message>, ghost ms: seq<Message>, ghost order: seq<string>, queue: string,
                  ghost was: seq<Command>, ghost answers: nat) returns (ok: bool)
    requires order != [] && queue == order[|order| - 1] && messages == Routed(ms, queue)
    requires var before := PushQueues(ms, order[..|order| - 1]);
             redis.commands == was + before && redis.answers + |before| == answers
    modifies redis`commands, redis`answers
    ensures ok <==> |PushQueues(ms, order)| <= answers
    ensures redis.commands == was + CarriedOut(PushQueues(ms, order), answers, redis.oneMore)
    ensures ok ==> redis.answers + |PushQueues(ms, order)| == answers
  {
    ghost var before, cs := PushQueues(ms, order[..|order| - 1]), PushAll(queue, Batches(messages));
    assert PushQueues(ms, order) == before + cs;
    CarriedOutApp(before, cs, answers, redis.oneMore);
    ok := PushQueue(redis, queue, messages);
    Associative(was, before, CarriedOut(cs, answers - |before|, redis.oneMore));
  }

  method PushGroups(redis: Redis, ms: seq<Message>, order: seq<string>, perQueue: map<string, seq<Message>>)
    returns (ok: bool)
    requires forall q :: q in order ==> q in perQueue && perQueue[q] == Routed(ms, q)
    modifies redis`commands, redis`answers
    ensures var cs := PushQueues(ms, order);
            && (ok <==> |cs| <= old(redis.answers))
            && redis.commands == old(redis.commands) + CarriedOut(cs, old(redis.answers), redis.oneMore)
  {
    ghost var was, answers := redis.commands, redis.answers;
    for i := 0 to |order|
      invariant redis.commands == was + PushQueues(ms, order[..i])
      invariant redis.answers + |PushQueues(ms, order[..i])| == answers
    {
      assert order[..i + 1][..i] == order[..i];
      ok := PushNext(redis, perQueue[order[i]], ms, order[..i + 1], order[i], was, answers);
      if !ok {
        StopsQueues(ms, order, i + 1, answers, redis.oneMore);
        return;
      }
    }
    assert order[..|order|] == order;
    ok := true;
  }

  lemma PushQueuesNext(ms: seq<Message>, order: seq<string>, i: nat)
    requires i < |order|
    ensures PushQueues(ms, order[..i + 1]) == PushQueues(ms, order[..i]) + PushAll(order[i], Batches(Routed(ms, order[i])))
  {
    assert order[..i + 1][..i] == order[..i];
  }

  lemma {:induction false} StopsQueues(ms: seq<Message>, order: seq<string>, n: nat, answers: nat, oneMore: bool)
    requires n <= |order| && answers < |PushQueues(ms, order[..n])|
    ensures answers < |PushQueues(ms, order)|
    ensures CarriedOut(PushQueues(ms, order), answers, oneMore) == CarriedOut(PushQueues(ms, order[..n]), answers, oneMore)
    decreases |order| - n
  {
    if n < |order| {
      PushQueuesNext(ms, order, n);
      CarriedOutApp(PushQueues(ms, order[..n]), PushAll(order[n], Batches(Routed(ms, order[n]))), answers, oneMore);
      StopsQueues(ms, order, n + 1, answers, oneMore);
    } else {
      assert order[..n] == order;
    }
  }

  class JobQueueManager {
    var pendingJobs: seq<Job>
    var pendingEvents: seq<string>

    constructor ()
      ensures pendingJobs == [] && pendingEvents == []
    {
      pendingJobs, pendingEvents := [], [];
    }

    method DispatchTask(job: Job)
      modifies this
      ensures pendingJobs == old(pendingJobs) + [job] && pendingEvents == old(pendingEvents)
    {
      pendingJobs := pendingJobs + [job];
    }

    method EnqueueEvents(ids: seq<string>)
      modifies this
      ensures pendingEvents == old(pendingEvents) + ids && pendingJobs == old(pendingJobs)
    {
      pendingEvents := pendingEvents + ids;
    }

    method Reset()
      modifies this
      ensures pendingJobs == [] && pendingEvents == []
    {
      pendingJobs, pendingEvents := [], [];
    }

    /** Builds all messages before pushing any: a failure leaves the queues untouched. */
    method BuildAll(broker: Broker, redis: Redis, draws: nat -> Draw) returns (r: Result<seq<Message>, string>)
      modifies redis.debounce
      ensures r.Ok? <==> ReadyPrefix(broker, pendingJobs, draws) == |pendingJobs|
      ensures r.Ok? ==> forall i :: 0 <= i < |pendingJobs| ==>
                                      && pendingJobs[i].actor in broker
                                      && draws(i).course !in {RaisesBeforeKey, EncoderRaises}
      ensures (forall i :: 0 <= i < |pendingJobs| ==> pendingJobs[i].actor in broker && draws(i).course == Smooth) ==> r.Ok?
      ensures r.Ok? ==> r.value == BuiltAll(broker, pendingJobs, draws)
      ensures redis.debounce.keys ==
              DispatchAll(old(redis.debounce.keys), broker, pendingJobs[..Tried(broker, pendingJobs, draws)], draws)
    {
      var messages := [];
      ghost var jobs := pendingJobs;
      for i := 0 to |pendingJobs|
        invariant AllReady(broker, jobs[..i], draws)
        invariant messages == BuiltAll(broker, jobs[..i], draws)
        invariant redis.debounce.keys == DispatchAll(old(redis.debounce.keys), broker, jobs[..i], draws)
      {
        KeysNext(old(redis.debounce.keys), broker, jobs, draws, i);
        var built := BuildMessage(broker, redis, pendingJobs[i], draws(i));
        if built.Err? || draws(i).course == EncoderRaises {
          ReadyPrefixUpTo(broker, jobs, draws, i);
          return Err("message not built");
        }
        BuiltNext(broker, jobs, draws, i);
        messages := messages + [built.value];
      }
      ReadyPrefixUpTo(broker, jobs, draws, |jobs|);
      assert jobs[..|jobs|] == jobs;
      return Ok(messages);
    }

    /** Fails when a message is not built and encoded, or when Redis does not answer all commands. */
    method Flush(broker: Broker, redis: Redis, draws: nat -> Draw) returns (ok: bool)
      modifies this, redis`commands, redis`answers, redis.debounce
      ensures var jobs := WithEvents(old(pendingJobs), old(pendingEvents));
              && redis.debounce.keys == DispatchAll(old(redis.debounce.keys), broker, jobs[..Tried(broker, jobs, draws)], draws)
              && (if ReadyPrefix(broker, jobs, draws) < |jobs| then !ok && redis.commands == old(redis.commands)
                  else
                    var cs := FlushCommands(BuiltAll(broker, jobs, draws));
                    && (ok <==> |cs| <= old(redis.answers))
                    && redis.commands == old(redis.commands) + CarriedOut(cs, old(redis.answers), redis.oneMore))
              && (if ok then pendingJobs == [] && pendingEvents == [] else pendingJobs == jobs)
    {
      if pendingEvents != [] {
        DispatchTask(Job(INGESTED, [List(AsTexts(pendingEvents))], map[], None));
      }
      assert pendingJobs == WithEvents(old(pendingJobs), old(pendingEvents));
      if pendingJobs == [] {
        Reset();
        return true;
      }
      var built := BuildAll(broker, redis, draws);
      if built.Err? {
        return false;
      }
      var ms := built.value;
      var order, perQueue := Group(ms);
      ok := PushGroups(redis, ms, order, perQueue);
      if ok {
        Reset();
      }
    }
  }

  /** The context variable that holds the manager of the current request. */
  class Context {
    var manager: JobQueueManager?

    constructor ()
      ensures manager == null
    {
      manager := null;
    }

    method Get() returns (r: Result<JobQueueManager, string>)
      ensures r.Err? <==> manager == null
      ensures r.Ok? ==> r.value == manager
    {
      if manager == null {
        return Err("JobQueueManager not initialized");
      }
      return Ok(manager);
    }

    /**
     `open` around a body that dispatches some jobs, enqueues some events and then may raise.
     Nothing reaches the queues unless the body returns and every message is built.
     */
    method Open(broker: Broker, redis: Redis, draws: nat -> Draw, jobs: seq<Job>, events: seq<string>, raises: bool)
      returns (ok: bool)
      modifies this, redis`commands, redis`answers, redis.debounce
      ensures manager == null
      ensures var all := WithEvents(jobs, events);
              if raises || ReadyPrefix(broker, all, draws) < |all| then !ok && redis.commands == old(redis.commands)
              else
                var cs := FlushCommands(BuiltAll(broker, all, draws));
                && (ok <==> |cs| <= old(redis.answers))
                && redis.commands == old(redis.commands) + CarriedOut(cs, old(redis.answers), redis.oneMore)
      ensures raises ==> redis.debounce.keys == old(redis.debounce.keys)
    {
      var mgr := new JobQueueManager();
      manager := mgr;
      for i := 0 to |jobs|
        invariant fresh(mgr) && manager == mgr
        invariant mgr.pendingJobs == jobs[..i] && mgr.pendingEvents == []
        invariant redis.commands == old(redis.commands) && redis.debounce.keys == old(redis.debounce.keys)
        invariant redis.answers == old(redis.answers)
      {
        mgr.DispatchTask(jobs[i]);
      }
      mgr.EnqueueEvents(events);
      assert mgr.pendingJobs == jobs && mgr.pendingEvents == events;
      ok := !raises;
      if !raises {
        ok := mgr.Flush(broker, redis, draws);
      }
      mgr.Reset();
      manager := null;
    }
  }
}
