/** The cache with expiring entries whose items are recycled through a pool. Times
    are nanoseconds; every operation is atomic, as the cache's lock makes it. */
module TtlCache {
  import opened Results

  const DEFAULT_TTL := 0
  const NO_TTL := -1

  /** An entry as a value. */
  datatype Slot<V> = Slot(value: V, expireAt: int)

  predicate Expired(expireAt: int, now: int) {
    expireAt > 0 && expireAt < now
  }

  function ExpireAt(defaultTtl: int, ttl: int, now: int): int {
    if ttl < 0 then NO_TTL else now + (if ttl == DEFAULT_TTL then defaultTtl else ttl)
  }

  /** The plain map that the cache stands for. */
  type Table<V> = map<string, Slot<V>>

  function LiveValue<V>(t: Table<V>, key: string, now: int): Option<V> {
    if key in t && !Expired(t[key].expireAt, now) then Some(t[key].value) else None
  }

  function AfterAdd<V>(t: Table<V>, key: string, slot: Slot<V>, now: int): (Table<V>, bool) {
    if LiveValue(t, key, now).Some? then (t, false) else (t[key := slot], true)
  }

  function AfterClean<V>(t: Table<V>, now: int): Table<V> {
    map k | k in t && !Expired(t[k].expireAt, now) :: t[k]
  }

  /** The values that a cleaning pass hands to the eviction callback. */
  function EvictedBy<V>(t: Table<V>, now: int): map<string, V> {
    map k | k in t && Expired(t[k].expireAt, now) :: t[k].value
  }

  /** The same two in the middle of a pass: the keys in todo were not looked at. */
  function CleanedSoFar<V>(t: Table<V>, now: int, todo: set<string>): Table<V> {
    map k | k in t && (k in todo || !Expired(t[k].expireAt, now)) :: t[k]
  }

  function EvictedSoFar<V>(t: Table<V>, now: int, todo: set<string>): map<string, V> {
    map k | k in t && k !in todo && Expired(t[k].expireAt, now) :: t[k].value
  }

  lemma CleanStep<V>(t: Table<V>, now: int, todo: set<string>, key: string)
    requires key in todo && key in t
    ensures CleanedSoFar(t, now, todo - {key})
         == if Expired(t[key].expireAt, now) then CleanedSoFar(t, now, todo) - {key} else CleanedSoFar(t, now, todo)
    ensures EvictedSoFar(t, now, todo - {key})
         == if Expired(t[key].expireAt, now) then EvictedSoFar(t, now, todo)[key := t[key].value]
            else EvictedSoFar(t, now, todo)
    ensures key in CleanedSoFar(t, now, todo) && CleanedSoFar(t, now, todo)[key] == t[key]
  {
  }

  lemma CleanEnds<V>(t: Table<V>, now: int)
    ensures CleanedSoFar(t, now, t.Keys) == t && EvictedSoFar(t, now, t.Keys) == map[]
    ensures CleanedSoFar(t, now, {}) == AfterClean(t, now) && EvictedSoFar(t, now, {}) == EvictedBy(t, now)
  {
  }

  class Item<V> {
    var value: V
    var expireAt: int

    constructor (value: V)
      ensures this.value == value && expireAt == 0
    {
      this.value, expireAt := value, 0;
    }
  }

  class Cache<V(0)> {
    var items: map<string, Item<V>>
    var pool: seq<Item<V>>
    const defaultTtl: int
    const blank: V

    ghost function Footprint(): set<object>
      reads this
    {
      {this} + (set k | k in items :: items[k]) + (set o | o in pool)
    }

    /** No item serves two keys, none is both live and pooled, none is pooled
        twice. */
    ghost predicate Valid()
      reads this
    {
      && (forall k, l :: k in items && l in items && k != l ==> items[k] != items[l])
      && (forall k :: k in items ==> items[k] !in pool)
      && (forall i, j :: 0 <= i < j < |pool| ==> pool[i] != pool[j])
    }

    ghost function Contents(): Table<V>
      reads Footprint()
    {
      map k | k in items :: Slot(items[k].value, items[k].expireAt)
    }

    constructor (defaultTtl: int)
      ensures Valid() && Contents() == map[] && this.defaultTtl == defaultTtl && fresh(Footprint())
    {
      this.defaultTtl := defaultTtl;
      items, pool := map[], [];
    }

    /** Taking an item: any pooled one, or a new one. */
    method TakeItem() returns (item: Item<V>)
      requires Valid()
      modifies this`pool
      ensures Valid() && items == old(items) && Contents() == old(Contents())
      ensures item !in pool && forall k :: k in items ==> items[k] != item
      ensures item in old(pool) || fresh(item)
      ensures forall i :: 0 <= i < |pool| ==> pool[i] in old(pool)
    {
      if |pool| > 0 {
        var reuse: bool := *;
        if reuse {
          item := pool[|pool| - 1];
          pool := pool[..|pool| - 1];
          return;
        }
      }
      item := new Item(blank);
    }

    /** Overwrites an item that is not pooled and serves no key but this one. */
    method Store(item: Item<V>, key: string, value: V, at: int)
      requires Valid() && item !in pool && forall k :: k in items && items[k] == item ==> k == key
      modifies this`items, item
      ensures Valid() && pool == old(pool) && items == old(items)[key := item]
      ensures Contents() == old(Contents())[key := Slot(value, at)]
    {
      item.value := value;
      item.expireAt := at;
      items := items[key := item];
      assert forall k :: k in items && k != key ==> items[k] == old(items[k]) && items[k] != item;
    }

    method Add(key: string, value: V, ttl: int, now: int, later: int) returns (ok: bool)
      requires Valid()
      modifies Footprint()
      ensures Valid() && fresh(Footprint() - old(Footprint()))
      ensures (Contents(), ok) == AfterAdd(old(Contents()), key, Slot(value, ExpireAt(defaultTtl, ttl, later)), now)
      ensures (Contents(), [Added(ok)]) == Apply(old(Contents()), defaultTtl, Op.Add(key, value, ttl, now, later))
    {
      var item: Item<V>;
      if key in items {
        item := items[key];
        if !Expired(item.expireAt, now) {
          return false;
        }
      } else {
        item := TakeItem();
      }
      Store(item, key, value, ExpireAt(defaultTtl, ttl, later));
      return true;
    }

    method Set(key: string, value: V, ttl: int, now: int)
      requires Valid()
      modifies Footprint()
      ensures Valid() && fresh(Footprint() - old(Footprint()))
      ensures (Contents(), []) == Apply(old(Contents()), defaultTtl, Op.Set(key, value, ttl, now))
      ensures Contents() == old(Contents())[key := Slot(value, ExpireAt(defaultTtl, ttl, now))]
    {
      var item := TakeItem();
      Store(item, key, value, ExpireAt(defaultTtl, ttl, now));
    }

    method Get(key: string, now: int) returns (r: Option<V>)
      requires Valid()
      ensures r == LiveValue(Contents(), key, now)
      ensures (Contents(), [Found(r)]) == Apply(Contents(), defaultTtl, Op.Get(key, now))
    {
      if key !in items || Expired(items[key].expireAt, now) {
        return None;
      }
      return Some(items[key].value);
    }

    /** Takes a key out and its item into the pool; nobody has overwritten the
        item yet when the caller reads what it held. */
    method Release(key: string) returns (held: Slot<V>)
      requires Valid() && key in items
      modifies this`items, this`pool
      ensures Valid() && Footprint() == old(Footprint())
      ensures items == old(items) - {key}
      ensures Contents() == old(Contents()) - {key} && held == old(Contents())[key]
    {
      var item := items[key];
      items := items - {key};
      pool := pool + [item];
      held := Slot(item.value, item.expireAt);
      assert forall o: Item<V> :: o in pool <==> o in old(pool) || o == item;
      assert forall k :: k in old(items) ==> k == key || (k in items && items[k] == old(items)[k]);
    }

    method Pop(key: string, now: int) returns (r: Option<V>)
      requires Valid()
      modifies Footprint()
      ensures Valid() && Footprint() == old(Footprint())
      ensures Contents() == old(Contents()) - {key} && r == LiveValue(old(Contents()), key, now)
      ensures (Contents(), [Found(r)]) == Apply(old(Contents()), defaultTtl, Op.Pop(key, now))
    {
      if key !in items {
        return None;
      }
      var held := Release(key);
      if Expired(held.expireAt, now) {
        return None;
      }
      return Some(held.value);
    }

    /** The evicted value goes to the callback. */
    method Delete(key: string) returns (evicted: Option<V>)
      requires Valid()
      modifies Footprint()
      ensures Valid() && Footprint() == old(Footprint())
      ensures Contents() == old(Contents()) - {key}
      ensures evicted == if key in old(Contents()) then Some(old(Contents())[key].value) else None
      ensures forall now :: (Contents(), []) == Apply(old(Contents()), defaultTtl, Op.Delete(key, now))
    {
      if key !in items {
        return None;
      }
      var held := Release(key);
      evicted := Some(held.value);
    }

    /** One pass of the cleaning loop, in any order of the keys; the evicted values
        go to the callback afterwards. */
    method Clean(now: int) returns (evicted: map<string, V>)
      requires Valid()
      modifies Footprint()
      ensures Valid() && Footprint() == old(Footprint())
      ensures Contents() == AfterClean(old(Contents()), now) && evicted == EvictedBy(old(Contents()), now)
      ensures (Contents(), []) == Apply(old(Contents()), defaultTtl, Op.Clean(now))
    {
      evicted := map[];
      ghost var before := Contents();
      var todo := items.Keys;
      CleanEnds(before, now);
      while todo != {}
        invariant Valid() && Footprint() == old(Footprint()) && todo <= before.Keys
        invariant Contents() == CleanedSoFar(before, now, todo) && evicted == EvictedSoFar(before, now, todo)
        decreases |todo|
      {
        var key :| key in todo;
        CleanStep(before, now, todo, key);
        todo := todo - {key};
        assert key in Contents();
        if Expired(items[key].expireAt, now) {
          var held := Release(key);
          evicted := evicted[key := held.value];
        }
      }
    }
  }

  /** One operation with its clock readings. */
  datatype Op<V> =
    | Add(key: string, value: V, ttl: int, now: int, later: int)
    | Set(key: string, value: V, ttl: int, now: int)
    | Get(key: string, now: int)
    | Pop(key: string, now: int)
    | Delete(key: string, now: int)
    | Clean(now: int)

  /** What the caller sees. */
  datatype Seen<V> = Added(ok: bool) | Found(value: Option<V>)

  function Apply<V>(t: Table<V>, defaultTtl: int, op: Op<V>): (Table<V>, seq<Seen<V>>) {
    match op
    case Add(key, value, ttl, now, later) =>
      var (t', ok) := AfterAdd(t, key, Slot(value, ExpireAt(defaultTtl, ttl, later)), now);
      (t', [Added(ok)])
    case Set(key, value, ttl, now) => (t[key := Slot(value, ExpireAt(defaultTtl, ttl, now))], [])
    case Get(key, now) => (t, [Found(LiveValue(t, key, now))])
    case Pop(key, now) => (t - {key}, [Found(LiveValue(t, key, now))])
    case Delete(key, now) => (t - {key}, [])
    case Clean(now) => (AfterClean(t, now), [])
  }

  function Run<V>(t: Table<V>, defaultTtl: int, ops: seq<Op<V>>): seq<Seen<V>>
    decreases |ops|
  {
    if ops == [] then [] else
      var (t', seen) := Apply(t, defaultTtl, ops[0]);
      seen + Run(t', defaultTtl, ops[1..])
  }

  function WithoutCleans<V>(ops: seq<Op<V>>): seq<Op<V>> {
    if ops == [] then []
    else if ops[0].Clean? then WithoutCleans(ops[1..])
    else [ops[0]] + WithoutCleans(ops[1..])
  }

  /** The clock never runs backwards. */
  predicate Monotone<V>(ops: seq<Op<V>>, since: int)
    decreases |ops|
  {
    ops == [] || (since <= ops[0].now && Monotone(ops[1..], ops[0].now))
  }

  /** From now on no reader can tell the tables apart. */
  ghost predicate Alike<V>(t: Table<V>, u: Table<V>, now: int) {
    (forall k :: k in t && !Expired(t[k].expireAt, now) ==> k in u && u[k] == t[k]) &&
    (forall k :: k in u && !Expired(u[k].expireAt, now) ==> k in t && t[k] == u[k])
  }

  lemma ApplyKeepsAlike<V>(t: Table<V>, u: Table<V>, since: int, defaultTtl: int, op: Op<V>)
    requires Alike(t, u, since) && since <= op.now
    ensures Alike(Apply(t, defaultTtl, op).0, Apply(u, defaultTtl, op).0, op.now)
    ensures Apply(t, defaultTtl, op).1 == Apply(u, defaultTtl, op).1
    ensures op.Clean? ==> Alike(Apply(t, defaultTtl, op).0, u, op.now)
  {
  }

  /** Cleaning passes never show: whenever they run, every Add, Get and Pop answers
      as if nothing had ever been cleaned. */
  lemma {:induction false} CleaningIsInvisible<V>(
    t: Table<V>, u: Table<V>, since: int, defaultTtl: int, ops: seq<Op<V>>)
    requires Alike(t, u, since) && Monotone(ops, since)
    ensures Run(t, defaultTtl, ops) == Run(u, defaultTtl, WithoutCleans(ops))
    decreases |ops|
  {
    if ops != [] {
      ApplyKeepsAlike(t, u, since, defaultTtl, ops[0]);
      var t' := Apply(t, defaultTtl, ops[0]).0;
      if ops[0].Clean? {
        CleaningIsInvisible(t', u, ops[0].now, defaultTtl, ops[1..]);
        assert [] + Run(t', defaultTtl, ops[1..]) == Run(t', defaultTtl, ops[1..]);
      } else {
        CleaningIsInvisible(t', Apply(u, defaultTtl, ops[0]).0, ops[0].now, defaultTtl, ops[1..]);
        assert WithoutCleans(ops)[1..] == WithoutCleans(ops[1..]);
      }
    }
  }

  /** A stored value is found until it expires, and only a negative TTL argument
      makes it stay: a negative default does not. */
  lemma StoredValueIsFoundIff<V>(t: Table<V>, defaultTtl: int, key: string, value: V, ttl: int, now: int, then': int)
    requires now <= then' && 0 <= now
    ensures var t' := Apply(t, defaultTtl, Set(key, value, ttl, now)).0;
            LiveValue(t', key, then') == Some(value) <==>
              ttl < 0 || now + (if ttl == DEFAULT_TTL then defaultTtl else ttl) <= 0
                      || then' <= now + (if ttl == DEFAULT_TTL then defaultTtl else ttl)
  {
  }

  /** It happens: stored under a negative default, a value is gone at once, though
      the negative argument keeps it for ever. */
  lemma NegativeDefaultExpiresAtOnce(then': int)
    requires then' >= 10
    ensures LiveValue(Apply(map[], -1, Set("k", 'v', DEFAULT_TTL, 10)).0, "k", then') == None
    ensures LiveValue(Apply(map[], -1, Set("k", 'v', NO_TTL, 10)).0, "k", then') == Some('v')
  {
  }

  /** Add refuses exactly a key that is found at that moment, and then keeps its value;
      otherwise the new one is found, until it expires. No other key is touched. */
  lemma AddMeaning<V>(
    t: Table<V>, defaultTtl: int, key: string, value: V, ttl: int, now: int, later: int, other: string, then': int)
    ensures var (t', seen) := Apply(t, defaultTtl, Add(key, value, ttl, now, later));
            var live := key in t && !(0 < t[key].expireAt < now);
            var expireAt := if ttl < 0 then -1 else if ttl == 0 then later + defaultTtl else later + ttl;
            && seen == [Added(!live)]
            && t' == (if live then t else t[key := Slot(value, expireAt)])
            && (other != key ==> LiveValue(t', other, then') == LiveValue(t, other, then'))
  {
  }

  /** What is found is what was stored and has no expiry in the past. */
  lemma FoundIff<V>(t: Table<V>, key: string, value: V, now: int)
    ensures LiveValue(t, key, now) == Some(value) <==>
              key in t && t[key].value == value && (t[key].expireAt <= 0 || now <= t[key].expireAt)
  {
  }

  /** A cleaning pass divides the table: what is expired goes to the callback with its
      value, and everything else stays as it is. */
  lemma CleanDivides<V>(t: Table<V>, now: int, key: string)
    ensures key in AfterClean(t, now) <==> key in t && (t[key].expireAt <= 0 || now <= t[key].expireAt)
    ensures key in EvictedBy(t, now) <==> key in t && 0 < t[key].expireAt < now
    ensures key in AfterClean(t, now) ==> AfterClean(t, now)[key] == t[key]
    ensures key in EvictedBy(t, now) ==> EvictedBy(t, now)[key] == t[key].value
  {
  }
}
