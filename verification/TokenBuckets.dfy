/** Token buckets in process memory (src/utils/shared-tokens.ts:61-106). Tokens are reals: the rounding of
    floating point is not modelled. Times are whole milliseconds. */
module TokenBuckets {

  datatype TokenRate = TokenRate(capacity: int, perMinute: real)

  datatype Grant = Grant(granted: int, waitMs: int)

  datatype Bucket = Bucket(tokens: real, at: int, rate: TokenRate)

  type Buckets = map<string, Bucket>

  const MAX_IDLE_BUCKETS := 1000

  function PerMs(rate: TokenRate): real {
    rate.perMinute / 60000.0
  }

  function Ceil(x: real): int {
    -(-x).Floor
  }

  /** Whole milliseconds until `missing` more tokens have come. */
  function MsUntil(missing: real, perMs: real): int
    requires perMs > 0.0
  {
    Ceil(missing / perMs)
  }

  function Min(a: real, b: real): real {
    if a <= b then a else b
  }

  function Elapsed(at: int, since: int): real {
    if at <= since then 0.0 else (at - since) as real
  }

  /** Tokens left at `since`, as they are at `at`. */
  function Refilled(tokens: real, since: int, at: int, rate: TokenRate): real {
    Min(rate.capacity as real, tokens + Elapsed(at, since) * PerMs(rate))
  }

  /** `refill`: a missing bucket is full. */
  function Level(entries: Buckets, key: string, at: int, rate: TokenRate): real {
    if key !in entries then rate.capacity as real else Refilled(entries[key].tokens, entries[key].at, at, rate)
  }

  predicate IsFull(entries: Buckets, key: string, at: int)
    requires key in entries
  {
    Level(entries, key, at, entries[key].rate) >= entries[key].rate.capacity as real
  }

  /** `sweep`. */
  function Swept(entries: Buckets, at: int): Buckets {
    if |entries| <= MAX_IDLE_BUCKETS then entries
    else map key | key in entries && !IsFull(entries, key, at) :: entries[key]
  }

  /** Up to 1000 buckets nothing is swept; past that exactly the full ones go. */
  lemma SweptWhen(entries: Buckets, at: int)
    ensures |entries| <= 1000 ==> Swept(entries, at) == entries
    ensures |entries| > 1000 ==> forall key :: key in Swept(entries, at) <==>
              key in entries && Refilled(entries[key].tokens, entries[key].at, at, entries[key].rate) < entries[key].rate.capacity as real
  {
  }

  /** Whole tokens only, and no more than there are. */
  function GrantedOf(count: nat, level: real): int {
    var most := if count <= level.Floor then count else level.Floor;
    if most <= 0 then 0 else most
  }

  function WaitOf(count: nat, granted: int, tokens: real, rate: TokenRate): int
    requires rate.perMinute > 0.0
  {
    if granted == count then 0 else MsUntil(1.0 - tokens, PerMs(rate))
  }

  /** `takeNow`. */
  function TakeOn(entries: Buckets, key: string, count: nat, rate: TokenRate, at: int): (Buckets, Grant)
    requires rate.perMinute > 0.0
  {
    var swept := Swept(entries, at);
    var before := Level(swept, key, at, rate);
    var granted := GrantedOf(count, before);
    var tokens := before - granted as real;
    (swept[key := Bucket(tokens, at, rate)], Grant(granted, WaitOf(count, granted, tokens, rate)))
  }

  /** The in-memory buckets. */
  class MemoryTokenBuckets {
    var entries: Buckets

    constructor ()
      ensures entries == map[]
    {
      entries := map[];
    }

    method Sweep(at: int)
      modifies this
      ensures entries == Swept(old(entries), at)
    {
      if |entries| <= MAX_IDLE_BUCKETS {
        return;
      }
      var todo := entries.Keys;
      while todo != {}
        invariant todo <= entries.Keys <= old(entries).Keys
        invariant forall key :: key in entries ==> entries[key] == old(entries)[key]
        invariant forall key :: key in old(entries) && key !in todo ==> (key in entries <==> !IsFull(old(entries), key, at))
        decreases todo
      {
        var key :| key in todo;
        todo := todo - {key};
        if Level(entries, key, at, entries[key].rate) >= entries[key].rate.capacity as real {
          entries := entries - {key};
        }
      }
    }

    method TakeNow(key: string, count: nat, rate: TokenRate, at: int) returns (g: Grant)
      requires rate.perMinute > 0.0
      modifies this
      ensures (entries, g) == TakeOn(old(entries), key, count, rate, at)
    {
      Sweep(at);
      var perMs := PerMs(rate);
      var before := Level(entries, key, at, rate);
      var granted := if count <= before.Floor then count else before.Floor;
      if granted < 0 {
        granted := 0;
      }
      var tokens := before - granted as real;
      entries := entries[key := Bucket(tokens, at, rate)];
      if granted == count {
        return Grant(granted, 0);
      }
      return Grant(granted, MsUntil(1.0 - tokens, perMs));
    }
  }
}
