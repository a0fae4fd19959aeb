/**
 The debounce protocol of server/rapidly/worker/_debounce.py, seen as steps on one Redis key.

 Any number of dispatchers and workers act on the key.  What Redis runs as one transaction
 is one step.  The clock is in milliseconds; the code reads it in whole seconds.
 */
module DebounceProtocol {
  import opened Prelude

  type MessageId = string

  const KEY_TTL_MS := 3_600_000

  /** The Redis hash.  Every field is optional: `hsetnx`, `hdel` and partial writes see to that. */
  datatype Hash = Hash(timestamp: Option<int>, owner: Option<MessageId>, executed: Option<int>)

  /** A hash with the moment it may expire; a key without fields does not exist in Redis. */
  datatype Key = Key(hash: Hash, deadline: Option<int>)

  const NO_HASH := Hash(None, None, None)
  const NO_KEY := Key(NO_HASH, None)

  function Seconds(ms: int): int {
    ms / 1000
  }

  /** What `before_process_message` decides about one delivery. */
  datatype Verdict =
    | RunBare
    | RunOwner(timestamp: int)
    | RunPastThreshold(timestamp: int)
    | SkipExecuted
    | SkipNotOwner(timestamp: int)
    | Fault  // `message_id` or `enqueue_timestamp` is missing: the hook raises KeyError
  {
    predicate Skips() {
      SkipExecuted? || SkipNotOwner?
    }
  }

  function Judge(hash: Hash, id: MessageId, threshold: int, now: int): Verdict {
    if hash == NO_HASH then RunBare
    else if hash.executed.Some? && hash.executed.value != 0 then SkipExecuted
    else if hash.owner.None? || hash.timestamp.None? then Fault
    else if hash.owner.value == id then RunOwner(hash.timestamp.value)
    else if hash.timestamp.value + threshold < Seconds(now) then RunPastThreshold(hash.timestamp.value)
    else SkipNotOwner(hash.timestamp.value)
  }

  /** The transaction of `set_debounce_key`. */
  function Dispatched(key: Key, id: MessageId, now: int): Key {
    var first := if key.hash.timestamp.Some? then key.hash.timestamp else Some(Seconds(now));
    Key(Hash(first, Some(id), Some(0)), Some(now + KEY_TTL_MS))
  }

  /** What `after_process_message` does to the key. */
  datatype Effect = Raised | Bump | Mark | Silent

  /** The message options a delivery holds while it executes. */
  datatype Delivery = Delivery(id: MessageId, timestamp: Option<int>, pastThreshold: bool)

  function EffectOf(delivery: Delivery, failed: bool): Effect {
    if delivery.timestamp.None? then Raised  // `options.pop` without a default
    else if delivery.pastThreshold then Bump
    else if failed then Silent
    else Mark
  }

  function Finished(key: Key, effect: Effect, now: int): Key {
    match effect
    case Raised => key
    case Silent => key
    case Bump => Key(key.hash.(timestamp := Some(Seconds(now))), Some(now + KEY_TTL_MS))
    case Mark => key.(hash := key.hash.(executed := Some(1), timestamp := None))
  }

  /**
   One step, labelled with its outcome.  `flag` of a pick-up says that the delivered copy
   already carries `debounce_max_threshold_execution`: that option is not among the ephemeral
   ones, so a retry of a past-threshold execution may bring it back.
   */
  datatype Step =
    | Dispatch(at: int, id: MessageId)
    | PickUp(at: int, run: nat, id: MessageId, threshold: int, flag: bool, verdict: Verdict)
    | Finish(at: int, run: nat, failed: bool, effect: Effect)
    | Expire(at: int)

  /** The key, the executions in flight, and the messages that once ran past the threshold. */
  datatype State = State(now: int, key: Key, running: map<nat, Delivery>, carriers: set<MessageId>)

  const INIT := State(0, NO_KEY, map[], {})

  predicate Enabled(s: State, e: Step) {
    && s.now <= e.at
    && match e
       case Dispatch(_, _) => true
       case PickUp(at, run, id, threshold, flag, verdict) =>
         && run !in s.running
         && (flag ==> id in s.carriers)
         && verdict == Judge(s.key.hash, id, threshold, at)
       case Finish(at, run, failed, effect) =>
         run in s.running && effect == EffectOf(s.running[run], failed)
       case Expire(at) =>
         s.key.deadline.Some? && s.key.deadline.value <= at
  }

  /** The options after a pick-up that is not skipped. */
  function Taken(id: MessageId, flag: bool, verdict: Verdict): Delivery {
    match verdict
    case RunOwner(timestamp) => Delivery(id, Some(timestamp), flag)
    case RunPastThreshold(timestamp) => Delivery(id, Some(timestamp), true)
    case _ => Delivery(id, None, flag)
  }

  function Next(s: State, e: Step): State {
    match e
    case Dispatch(at, id) =>
      s.(now := at, key := Dispatched(s.key, id, at))
    case PickUp(at, run, id, threshold, flag, verdict) =>
      if verdict.Skips() then s.(now := at)
      else
        var taken := Taken(id, flag, verdict);
        s.(now := at,
        running := s.running[run := taken],
        carriers := if taken.pastThreshold then s.carriers + {id} else s.carriers)
    case Finish(at, run, failed, effect) =>
      s.(now := at, key := Finished(s.key, effect, at), running := s.running - {run})
    case Expire(at) =>
      s.(now := at, key := NO_KEY)
  }

  function After(es: seq<Step>): State {
    if es == [] then INIT else Next(After(es[..|es| - 1]), es[|es| - 1])
  }

  /** `es` is a possible history of the key, from the moment it first exists. */
  predicate Behaviour(es: seq<Step>) {
    es == [] || (Behaviour(es[..|es| - 1]) && Enabled(After(es[..|es| - 1]), es[|es| - 1]))
  }

  lemma {:induction false} BehaviourAt(es: seq<Step>, k: nat)
    requires Behaviour(es) && k <= |es|
    ensures Behaviour(es[..k])
    ensures k < |es| ==>
              && Enabled(After(es[..k]), es[k])
              && es[..k + 1][..k] == es[..k]
              && After(es[..k + 1]) == Next(After(es[..k]), es[k])
    decreases |es| - k
  {
    if k == |es| {
      assert es[..k] == es;
    } else {
      BehaviourAt(es, k + 1);
      assert es[..k + 1][..k] == es[..k];
    }
  }

  lemma {:induction false} ClockMonotone(es: seq<Step>, i: nat, j: nat)
    requires Behaviour(es) && i <= j < |es|
    ensures es[i].at <= es[j].at
    decreases j - i
  {
    if i < j {
      ClockMonotone(es, i, j - 1);
      BehaviourAt(es, j - 1);
      BehaviourAt(es, j);
    }
  }
}
