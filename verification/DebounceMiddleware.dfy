/**
 The hooks of server/rapidly/worker/_debounce.py on a mutable Redis and mutable messages.
 Each is proved against the step of the protocol it performs, for its key and no other.
 */
module DebounceMiddleware {
  import opened Prelude
  import opened DebounceProtocol

  const KEY_PREFIX := "debounce:"
  const DEFAULT_MIN_THRESHOLD := 15
  const DEFAULT_MAX_THRESHOLD := 900

  /** A key that is not in the map does not exist. */
  function Lookup(keys: map<string, Key>, name: string): Key {
    if name in keys then keys[name] else NO_KEY
  }

  /** The debounce keys of one Redis server. */
  class DebounceKeys {
    var keys: map<string, Key>

    constructor ()
      ensures keys == map[]
    {
      keys := map[];
    }

    function Get(name: string): Key
      reads this
    {
      Lookup(keys, name)
    }

    method HSetNxTimestamp(name: string, timestamp: int)
      modifies this
      ensures var was := old(Get(name));
              keys == old(keys)[name := was.(hash := was.hash.(timestamp :=
                                          if was.hash.timestamp.Some? then was.hash.timestamp else Some(timestamp)))]
    {
      var key := Get(name);
      if key.hash.timestamp.None? {
        key := key.(hash := key.hash.(timestamp := Some(timestamp)));
      }
      keys := keys[name := key];
    }

    method HSet(name: string, hash: Hash)
      modifies this
      ensures keys == old(keys)[name := old(Get(name)).(hash := hash)]
    {
      keys := keys[name := Get(name).(hash := hash)];
    }

    method Expire(name: string, deadline: int)
      requires name in keys
      modifies this
      ensures keys == old(keys)[name := old(keys)[name].(deadline := Some(deadline))]
    {
      keys := keys[name := keys[name].(deadline := Some(deadline))];
    }
  }

  /** The delay, in milliseconds, that a debounced actor asks for. */
  function DebounceDelay(minThreshold: Option<int>): (delay: int)
    ensures minThreshold.Some? ==> delay == 1000 * minThreshold.value
    ensures minThreshold.None? ==> delay == 15_000
  {
    (if minThreshold.Some? then minThreshold.value else DEFAULT_MIN_THRESHOLD) * 1000
  }

  /**
   `keyValue` is what the actor's factory returns, None also when there is no factory.  The delay
   is the actor's threshold of so many seconds, fifteen by default, in milliseconds.
   */
  method SetDebounceKey(redis: DebounceKeys, keyValue: Option<string>, minThreshold: Option<int>, id: MessageId, now: int)
    returns (r: Option<(string, int)>)
    modifies redis
    ensures keyValue.None? ==> r == None && redis.keys == old(redis.keys)
    ensures keyValue.Some? ==>
              var name := KEY_PREFIX + keyValue.value;
              && r == Some((name, DebounceDelay(minThreshold)))
              && r.value.1 == 1000 * (if minThreshold.Some? then minThreshold.value else 15)
              && redis.keys == old(redis.keys)[name := Dispatched(old(redis.Get(name)), id, now)]
  {
    if keyValue.None? {
      return None;
    }
    var name := KEY_PREFIX + keyValue.value;
    redis.HSetNxTimestamp(name, Seconds(now));
    redis.HSet(name, redis.Get(name).hash.(owner := Some(id)));
    redis.HSet(name, redis.Get(name).hash.(executed := Some(0)));
    redis.Expire(name, now + KEY_TTL_MS);
    return Some((name, DebounceDelay(minThreshold)));
  }

  /** One delivery of a message, with the options the hooks set and pop. */
  class Message {
    const id: MessageId
    const debounceKey: Option<string>
    const maxThreshold: Option<int>
    var timestamp: Option<int>
    var pastThreshold: bool

    constructor (id: MessageId, debounceKey: Option<string>, maxThreshold: Option<int>, flag: bool)
      ensures this.id == id && this.debounceKey == debounceKey && this.maxThreshold == maxThreshold
      ensures timestamp == None && pastThreshold == flag
    {
      this.id, this.debounceKey, this.maxThreshold := id, debounceKey, maxThreshold;
      timestamp, pastThreshold := None, flag;
    }

    function AsDelivery(): Delivery
      reads this
    {
      Delivery(id, timestamp, pastThreshold)
    }
  }

  /** The message's own threshold in seconds, else its actor's, else the default. */
  function MaxThreshold(ofMessage: Option<int>, ofActor: Option<int>): int {
    if ofMessage.Some? then ofMessage.value
    else if ofActor.Some? then ofActor.value
    else DEFAULT_MAX_THRESHOLD
  }

  datatype Outcome = Proceed | SkipMessage | KeyError

  class Middleware {
    const redis: DebounceKeys

    constructor (redis: DebounceKeys)
      ensures this.redis == redis
    {
      this.redis := redis;
    }

    method BeforeProcessMessage(message: Message, actorThreshold: Option<int>, now: int) returns (outcome: Outcome)
      modifies message
      ensures message.debounceKey.None? ==> outcome == Proceed && message.AsDelivery() == old(message.AsDelivery())
      ensures message.debounceKey.Some? ==>
                var threshold := if message.maxThreshold.Some? then message.maxThreshold.value
                                 else if actorThreshold.Some? then actorThreshold.value
                                 else 900;
                var hash := redis.Get(message.debounceKey.value).hash;
                var verdict := Judge(hash, message.id, threshold, now);
                && (outcome == SkipMessage <==> verdict.Skips())
                && (outcome == KeyError <==> verdict == Fault)
                && (outcome == Proceed ==>
                      && message.timestamp == (if hash == NO_HASH then old(message.timestamp) else hash.timestamp)
                      && message.pastThreshold == (old(message.pastThreshold) || verdict.RunPastThreshold?))
                && (!verdict.Skips() && old(message.timestamp) == None ==>
                      message.AsDelivery() == Taken(message.id, old(message.pastThreshold), verdict))
    {
      if message.debounceKey.None? {
        return Proceed;
      }
      var hash := redis.Get(message.debounceKey.value).hash;
      if hash == NO_HASH {
        return Proceed;
      }
      if hash.executed.Some? && hash.executed.value != 0 {
        return SkipMessage;
      }
      if hash.owner.None? || hash.timestamp.None? {
        return KeyError;
      }
      var since := hash.timestamp.value;
      message.timestamp := Some(since);
      if hash.owner.value == message.id {
        return Proceed;
      }
      if since + MaxThreshold(message.maxThreshold, actorThreshold) < Seconds(now) {
        message.pastThreshold := true;
        return Proceed;
      }
      return SkipMessage;
    }

    method AfterSkipMessage(message: Message)
      modifies message
      ensures message.AsDelivery() == Delivery(message.id, None, false)
    {
      message.timestamp := None;
      message.pastThreshold := false;
    }

    /** `raised` says that the hook failed on a delivery without a timestamp. */
    method AfterProcessMessage(message: Message, failed: bool, now: int) returns (raised: bool)
      modifies message, redis
      ensures message.debounceKey.None? ==>
                !raised && redis.keys == old(redis.keys) && message.AsDelivery() == old(message.AsDelivery())
      ensures message.debounceKey.Some? ==>
                var name := message.debounceKey.value;
                var effect := EffectOf(old(message.AsDelivery()), failed);
                && (raised <==> old(message.timestamp).None?)
                && (raised <==> effect == Raised)
                && redis.Get(name) == Finished(old(redis.Get(name)), effect, now)
                && redis.keys - {name} == old(redis.keys) - {name}
                && (effect == Raised || effect == Silent ==> redis.keys == old(redis.keys))
                && message.AsDelivery() == if raised then old(message.AsDelivery()) else Delivery(message.id, None, false)
    {
      raised := false;
      if message.debounceKey.None? {
        return;
      }
      if message.timestamp.None? {
        raised := true;
        return;
      }
      message.timestamp := None;
      var wasPastThreshold := message.pastThreshold;
      message.pastThreshold := false;
      var name := message.debounceKey.value;
      if wasPastThreshold {
        redis.HSet(name, redis.Get(name).hash.(timestamp := Some(Seconds(now))));
        redis.Expire(name, now + KEY_TTL_MS);
      } else if !failed {
        redis.HSet(name, redis.Get(name).hash.(executed := Some(1)));
        redis.HSet(name, redis.Get(name).hash.(timestamp := None));
      }
    }
  }
}
