/** The bounded table of rate buckets: a map and a recency list that share their
    entries, against the whole access history. */
module RateLimiter {
  import opened Lists

  /** A tracked key with its bucket. The bucket stands for a token bucket object;
      its number tells when it was created, so equal numbers mean the same object. */
  datatype Tracked = Tracked(key: string, bucket: nat)

  function Keys(order: seq<Tracked>): (keys: seq<string>)
    ensures |keys| == |order| && forall i :: 0 <= i < |order| ==> keys[i] == order[i].key
  {
    seq(|order|, i requires 0 <= i < |order| => order[i].key)
  }

  function Without(keys: seq<string>, key: string): (r: seq<string>)
    ensures forall k :: k in r <==> k in keys && k != key
    ensures key !in keys ==> r == keys
  {
    if keys == [] then []
    else if keys[0] == key then Without(keys[1..], key)
    else [keys[0]] + Without(keys[1..], key)
  }

  /** The distinct keys of a history, the most recently used first. */
  function Recent(history: seq<string>): (r: seq<string>)
    ensures forall k :: k in r <==> k in history
  {
    if history == [] then []
    else
      var n := |history| - 1;
      assert history == history[..n] + [history[n]];
      [history[n]] + Without(Recent(history[..n]), history[n])
  }

  /** The list with element i moved to the front. */
  function Front<T>(s: seq<T>, i: nat): (r: seq<T>)
    requires i < |s|
    ensures |r| == |s|
  {
    [s[i]] + s[..i] + s[i + 1..]
  }

  /** The element that moves to place j. */
  function Source(i: nat, j: nat): nat {
    if j == 0 then i else if j <= i then j - 1 else j
  }

  lemma FrontAt<T>(s: seq<T>, i: nat, j: nat)
    requires i < |s| && j < |s|
    ensures Front(s, i)[j] == s[Source(i, j)]
  {
  }

  function Take(keys: seq<string>, n: nat): (r: seq<string>)
    ensures forall k :: k in r ==> k in keys
  {
    if |keys| <= n then keys else keys[..n]
  }

  function Find(order: seq<Tracked>, key: string): (i: nat)
    ensures i <= |order| && forall j :: 0 <= j < i ==> order[j].key != key
    ensures i < |order| ==> order[i].key == key
  {
    if order == [] || order[0].key == key then 0 else 1 + Find(order[1..], key)
  }

  /** What one call of Allow does to the recency list; created counts the buckets
      made so far. */
  function Use(order: seq<Tracked>, created: nat, max: nat, key: string): (seq<Tracked>, nat)
    requires max > 0
  {
    var i := Find(order, key);
    if i < |order| then (Front(order, i), created)
    else ([Tracked(key, created)] + Kept(order, max), created + 1)
  }

  /** What stays of a list when a new element needs room. */
  function Kept<T>(order: seq<T>, max: nat): seq<T>
    requires max > 0
  {
    if |order| >= max then order[..|order| - 1] else order
  }

  function Run(max: nat, history: seq<string>): (seq<Tracked>, nat)
    requires max > 0
  {
    if history == [] then ([], 0) else
      var (order, created) := Run(max, history[..|history| - 1]);
      Use(order, created, max, history[|history| - 1])
  }

  /** An element of the list; the map refers to the same objects. */
  class Element {
    const entry: Tracked

    constructor (entry: Tracked)
      ensures this.entry == entry
    {
      this.entry := entry;
    }
  }

  /** A recency list as values. */
  function Values(order: seq<Element>): (l: seq<Tracked>)
    ensures |l| == |order| && forall i :: 0 <= i < |order| ==> l[i] == order[i].entry
  {
    seq(|order|, i requires 0 <= i < |order| => order[i].entry)
  }

  /** Map and list hold the same objects, one for each key. */
  ghost predicate Agree(entries: map<string, Element>, order: seq<Element>) {
    && (forall i, j :: 0 <= i < j < |order| ==> order[i].entry.key != order[j].entry.key)
    && (forall i :: 0 <= i < |order| ==> order[i].entry.key in entries && entries[order[i].entry.key] == order[i])
    && (forall k :: k in entries ==> entries[k] in order && entries[k].entry.key == k)
  }

  lemma ValuesOfFront(order: seq<Element>, i: nat)
    requires i < |order|
    ensures Values(Front(order, i)) == Front(Values(order), i)
  {
  }

  lemma FrontAgrees(entries: map<string, Element>, order: seq<Element>, i: nat)
    requires Agree(entries, order) && i < |order|
    ensures Agree(entries, Front(order, i))
  {
  }

  lemma NewAgrees(entries: map<string, Element>, order: seq<Element>, el: Element)
    requires Agree(entries, order) && el.entry.key !in entries
    ensures Agree(entries[el.entry.key := el], [el] + order)
  {
  }

  lemma BackAgrees(entries: map<string, Element>, order: seq<Element>)
    requires Agree(entries, order) && order != []
    ensures Agree(entries - {order[|order| - 1].entry.key}, order[..|order| - 1])
  {
  }

  lemma ValuesOfNew(order: seq<Element>, el: Element)
    ensures Values([el] + order) == [el.entry] + Values(order)
  {
  }

  /** What the table holds after a new key was put in front of what was kept. */
  lemma UseOfNewKey(
    before: seq<Element>, kept: seq<Element>, el: Element, created: nat, max: nat, key: string)
    requires max > 0 && forall i :: 0 <= i < |before| ==> before[i].entry.key != key
    requires kept == Kept(before, max) && el.entry == Tracked(key, created)
    ensures (Values([el] + kept), created + 1) == Use(Values(before), created, max, key)
  {
    FindMisses(Values(before), key);
    ValuesOfNew(kept, el);
    assert Values(kept) == Kept(Values(before), max);
  }

  class Limiter {
    const max: nat
    var entries: map<string, Element>
    var order: seq<Element>
    var created: nat

    ghost predicate Valid()
      reads this
    {
      0 < max && |order| <= max && Agree(entries, order)
    }

    constructor (max: int)
      ensures Valid() && order == [] && created == 0
      ensures this.max == if max <= 0 then 10000 else max
    {
      this.max := if max <= 0 then 10000 else max;
      entries, order, created := map[], [], 0;
    }

    /** The bookkeeping of Allow; the caller then draws from the returned bucket. */
    method Allow(key: string) returns (bucket: nat)
      requires Valid()
      modifies this
      ensures Valid() && (Values(order), created) == Use(Values(old(order)), old(created), max, key)
      ensures order[0].entry == Tracked(key, bucket)
    {
      var el: Element;
      if key in entries {
        el := entries[key];
        MoveToFront(el);
      } else {
        el := Track(key);
      }
      bucket := el.entry.bucket;
    }

    /** When the list is full, its last element goes. */
    method MakeRoom()
      requires Valid()
      modifies this`order, this`entries
      ensures Agree(entries, order) && order == Kept(old(order), max) && entries.Keys <= old(entries).Keys
    {
      if |order| >= max {
        BackAgrees(entries, order);
        var back := order[|order| - 1];
        order := order[..|order| - 1];
        entries := entries - {back.entry.key};
      }
    }

    /** The branch for a new key: the least recently used one makes room. */
    method Track(key: string) returns (el: Element)
      requires Valid() && key !in entries
      modifies this
      ensures Valid() && |order| > 0 && order[0] == el
      ensures (Values(order), created) == Use(Values(old(order)), old(created), max, key)
      ensures el.entry.key == key
    {
      ghost var before := order;
      MakeRoom();
      el := new Element(Tracked(key, created));
      UseOfNewKey(before, order, el, created, max, key);
      NewAgrees(entries, order, el);
      order := [el] + order;
      entries := entries[key := el];
      created := created + 1;
    }

    /** The list operation of the same name: it finds the element by identity. */
    method MoveToFront(el: Element)
      requires Valid() && el in order
      modifies this`order
      ensures Valid() && |order| > 0 && order[0] == el
      ensures (Values(order), created) == Use(Values(old(order)), created, max, el.entry.key)
    {
      var i := 0;
      while order[i] != el
        invariant 0 <= i < |order| && el !in order[..i]
        decreases |order| - i
      {
        i := i + 1;
      }
      FindIs(Values(order), i);
      FrontAgrees(entries, order, i);
      ValuesOfFront(order, i);
      order := Front(order, i);
    }
  }

  lemma {:induction false} FindMisses(order: seq<Tracked>, key: string)
    requires forall i :: 0 <= i < |order| ==> order[i].key != key
    ensures Find(order, key) == |order|
  {
  }

  lemma {:induction false} FindIs(order: seq<Tracked>, i: nat)
    requires i < |order| && forall j :: 0 <= j < i ==> order[j].key != order[i].key
    ensures Find(order, order[i].key) == i
  {
  }

  lemma {:induction false} WithoutAt(keys: seq<string>, i: nat)
    requires Distinct(keys) && i < |keys|
    ensures Without(keys, keys[i]) == keys[..i] + keys[i + 1..]
  {
    var k := keys[i];
    if i == 0 {
      assert k !in keys[1..];
    } else {
      WithoutAt(keys[1..], i - 1);
      assert keys == [keys[0]] + keys[1..];
      assert keys[..i] == [keys[0]] + keys[1..][..i - 1] && keys[i + 1..] == keys[1..][i..];
    }
  }

  lemma {:induction false} RecentIsUnique(history: seq<string>)
    ensures Distinct(Recent(history))
  {
    if history != [] {
      var n := |history| - 1;
      RecentIsUnique(history[..n]);
      var older := Recent(history[..n]);
      if i :| 0 <= i < |older| && older[i] == history[n] {
        WithoutAt(older, i);
      }
    }
  }

  lemma HitKeepsRecent(keys: seq<string>, max: nat, i: nat, recent: seq<string>)
    requires max > 0 && Distinct(recent) && keys == Take(recent, max) && i < |keys|
    ensures Front(keys, i) == Take([keys[i]] + Without(recent, keys[i]), max)
  {
    WithoutAt(recent, i);
  }

  lemma MissKeepsRecent(keys: seq<string>, max: nat, key: string, recent: seq<string>)
    requires max > 0 && Distinct(recent) && keys == Take(recent, max) && key !in keys
    ensures [key] + Kept(keys, max) == Take([key] + Without(recent, key), max)
  {
    if p :| 0 <= p < |recent| && recent[p] == key {
      assert forall j :: 0 <= j < |keys| ==> keys[j] == recent[j];
      WithoutAt(recent, p);
    }
  }

  lemma KeysOfFront(order: seq<Tracked>, i: nat)
    requires i < |order|
    ensures Keys(Front(order, i)) == Front(Keys(order), i)
  {
  }

  lemma KeysOfNew(order: seq<Tracked>, max: nat, new': Tracked)
    requires max > 0
    ensures Keys([new'] + Kept(order, max)) == [new'.key] + Kept(Keys(order), max)
  {
  }

  /** One use of a key keeps the list the most recent part of the history. */
  lemma UseKeepsRecent(order: seq<Tracked>, created: nat, max: nat, key: string, recent: seq<string>)
    requires max > 0 && Distinct(recent) && Keys(order) == Take(recent, max)
    ensures Keys(Use(order, created, max, key).0) == Take([key] + Without(recent, key), max)
  {
    var i := Find(order, key);
    var keys := Keys(order);
    if i < |order| {
      KeysOfFront(order, i);
      HitKeepsRecent(keys, max, i, recent);
    } else {
      KeysOfNew(order, max, Tracked(key, created));
      MissKeepsRecent(keys, max, key, recent);
    }
  }

  /** After any sequence of calls the list is exactly the max most recently used
      distinct keys of the whole history, the most recent one first. */
  lemma {:induction false} ListIsMostRecent(max: nat, history: seq<string>)
    requires max > 0
    ensures Keys(Run(max, history).0) == Take(Recent(history), max) && Distinct(Recent(history))
  {
    RecentIsUnique(history);
    if history != [] {
      var n := |history| - 1;
      ListIsMostRecent(max, history[..n]);
      var (order, created) := Run(max, history[..n]);
      UseKeepsRecent(order, created, max, history[n], Recent(history[..n]));
    }
  }

  /** key stands behind nothing but keys of later, and, unless it is one of them,
      behind all of these. */
  ghost predicate StandsAt(recent: seq<string>, key: string, later: seq<string>, p: nat) {
    && p < |recent| && recent[p] == key
    && (forall j :: 0 <= j < p ==> recent[j] in later && recent[j] != key)
    && (key !in later ==> forall x :: x in later ==> x in recent[..p])
  }

  lemma PositionStep(older: seq<string>, key: string, later: seq<string>, x: string, q: nat) returns (p: nat)
    requires Distinct(older) && StandsAt(older, key, later, q)
    ensures StandsAt([x] + Without(older, x), key, later + [x], p)
  {
    if x == key {
      p := 0;
    } else if i :| 0 <= i < |older| && older[i] == x {
      WithoutAt(older, i);
      assert [x] + Without(older, x) == Front(older, i);
      p := PositionAfterMove(older, key, later, i, q);
    } else {
      WithoutMissing(older, x);
      PositionAfterMiss(older, key, later, x, q);
      p := q + 1;
    }
  }

  lemma {:induction false} WithoutMissing(keys: seq<string>, key: string)
    requires key !in keys
    ensures Without(keys, key) == keys
  {
    if keys != [] { WithoutMissing(keys[1..], key); }
  }

  lemma PositionAfterMiss(older: seq<string>, key: string, later: seq<string>, x: string, q: nat)
    requires StandsAt(older, key, later, q) && x != key
    ensures StandsAt([x] + older, key, later + [x], q + 1)
  {
    var now := [x] + older;
    assert now[..q + 1] == [x] + older[..q];
    assert forall j :: 0 < j <= q ==> now[j] == older[j - 1];
  }

  lemma PositionAfterMove(older: seq<string>, key: string, later: seq<string>, i: nat, q: nat) returns (p: nat)
    requires Distinct(older) && StandsAt(older, key, later, q) && i < |older| && older[i] != key
    ensures StandsAt(Front(older, i), key, later + [older[i]], p)
  {
    var now := Front(older, i);
    p := if i < q then q else q + 1;
    FrontAt(older, i, p);
    forall j | 0 <= j < p ensures now[j] in later + [older[i]] && now[j] != key {
      FrontAt(older, i, j);
    }
    forall y | key !in later && y in later + [older[i]] ensures y in now[..p] {
      if y == older[i] {
        assert now[..p][0] == y;
      } else {
        var j :| 0 <= j < q && older[j] == y;
        var k := if j < i then j + 1 else j;
        FrontAt(older, i, k);
        assert now[..p][k] == y;
      }
    }
  }

  /** Where a key stands in the recency order after it and then later were used. */
  lemma {:induction false} Position(before: seq<string>, key: string, later: seq<string>) returns (p: nat)
    ensures StandsAt(Recent(before + [key] + later), key, later, p)
  {
    if later == [] {
      assert before + [key] + later == before + [key];
      RecentSnoc(before, key);
      p := 0;
    } else {
      var n := |later| - 1;
      var used := before + [key] + later[..n];
      assert before + [key] + later == used + [later[n]] && later == later[..n] + [later[n]];
      RecentSnoc(used, later[n]);
      RecentIsUnique(used);
      var q := Position(before, key, later[..n]);
      p := PositionStep(Recent(used), key, later[..n], later[n], q);
    }
  }

  lemma RecentSnoc(history: seq<string>, x: string)
    ensures Recent(history + [x]) == [x] + Without(Recent(history), x)
  {
  }

  lemma DistinctCount(keys: seq<string>, others: set<string>)
    requires Distinct(keys)
    ensures (forall k :: k in keys ==> k in others) ==> |keys| <= |others|
    ensures (forall k :: k in others ==> k in keys) ==> |others| <= |keys|
  {
    DistinctSize(keys);
    if Elements(keys) <= others { SubsetSize(Elements(keys), others); }
    if others <= Elements(keys) { SubsetSize(others, Elements(keys)); }
  }

  ghost function Others(keys: seq<string>, key: string): set<string> {
    set k | k in keys && k != key
  }

  /** A key is still tracked as long as fewer than max other keys were used since
      its use, and it is forgotten once max of them were. */
  lemma TrackedUntilMaxOthers(max: nat, before: seq<string>, key: string, later: seq<string>)
    requires max > 0
    ensures var tracked := Keys(Run(max, before + [key] + later).0);
            && (|Others(later, key)| < max ==> key in tracked)
            && (key !in later && |Others(later, key)| >= max ==> key !in tracked)
  {
    var history := before + [key] + later;
    ListIsMostRecent(max, history);
    var r := Recent(history);
    var p := Position(before, key, later);
    DistinctCount(r[..p], Others(later, key));
    if p < max {
      assert Take(r, max)[p] == key;
    }
  }

  predicate Holds(order: seq<Tracked>, key: string, bucket: nat) {
    exists i :: 0 <= i < |order| && order[i] == Tracked(key, bucket)
  }

  /** Until max other keys were used, a key keeps the very same bucket. */
  lemma {:induction false} BucketIsKept(max: nat, before: seq<string>, key: string, later: seq<string>, bucket: nat)
    requires max > 0 && |Others(later, key)| < max
    requires Holds(Run(max, before + [key]).0, key, bucket)
    ensures Holds(Run(max, before + [key] + later).0, key, bucket)
    decreases |later|
  {
    if later == [] {
      assert before + [key] + later == before + [key];
    } else {
      var n := |later| - 1;
      SubsetSize(Others(later[..n], key), Others(later, key));
      BucketIsKept(max, before, key, later[..n], bucket);
      assert later[..n] + [later[n]] == later;
      BucketIsKeptOnce(max, before, key, later[..n], later[n], bucket);
    }
  }

  lemma BucketIsKeptOnce(max: nat, before: seq<string>, key: string, later: seq<string>, x: string, bucket: nat)
    requires max > 0 && |Others(later + [x], key)| < max
    requires Holds(Run(max, before + [key] + later).0, key, bucket)
    ensures Holds(Run(max, before + [key] + (later + [x])).0, key, bucket)
  {
    TrackedUntilMaxOthers(max, before, key, later + [x]);
    Associates(before + [key], later, [x]);
    RunStepKeepsBuckets(max, before + [key] + later, x, key, bucket);
  }

  lemma RunStepKeepsBuckets(max: nat, history: seq<string>, used: string, key: string, bucket: nat)
    requires max > 0 && Holds(Run(max, history).0, key, bucket)
    requires key in Keys(Run(max, history + [used]).0)
    ensures Holds(Run(max, history + [used]).0, key, bucket)
  {
    var all := history + [used];
    assert all[..|all| - 1] == history && all[|all| - 1] == used;
    ListIsMostRecent(max, history);
    var (order, created) := Run(max, history);
    assert Distinct(Keys(order));
    UseKeepsBuckets(order, created, max, used, key, bucket);
  }

  /** One call changes no bucket of a key that stays tracked. */
  lemma UseKeepsBuckets(order: seq<Tracked>, created: nat, max: nat, used: string, key: string, bucket: nat)
    requires max > 0 && Holds(order, key, bucket) && Distinct(Keys(order))
    requires key in Keys(Use(order, created, max, used).0)
    ensures Holds(Use(order, created, max, used).0, key, bucket)
  {
    var i :| 0 <= i < |order| && order[i] == Tracked(key, bucket);
    var p := Find(order, used);
    var after := Use(order, created, max, used).0;
    if p < |order| {
      FrontAt(order, p, if i == p then 0 else if i < p then i + 1 else i);
    } else {
      var kept := Kept(order, max);
      var j :| 0 <= j < |after| && Keys(after)[j] == key;
      assert after == [Tracked(used, created)] + kept;
      assert order[i].key != used;
      assert after[j] == kept[j - 1] == order[j - 1];
      assert Keys(order)[j - 1] == key == Keys(order)[i];
      assert i == j - 1;
    }
  }

  /** All tracked buckets were created, each for one key. */
  ghost predicate OwnBuckets(order: seq<Tracked>, created: nat) {
    && (forall i :: 0 <= i < |order| ==> order[i].bucket < created)
    && (forall i, j :: 0 <= i < j < |order| ==> order[i].bucket != order[j].bucket)
  }

  lemma FrontKeepsBuckets(order: seq<Tracked>, i: nat, created: nat)
    requires OwnBuckets(order, created) && i < |order|
    ensures OwnBuckets(Front(order, i), created)
  {
    var r := Front(order, i);
    forall a | 0 <= a < |r| ensures r[a] == order[Source(i, a)] {
      FrontAt(order, i, a);
    }
  }

  /** Over every history no two keys share a bucket, and a key that is not tracked
      gets one that nobody had before. */
  lemma {:induction false} BucketsAreOwn(max: nat, history: seq<string>)
    requires max > 0
    ensures var (order, created) := Run(max, history); OwnBuckets(order, created)
  {
    if history != [] {
      var n := |history| - 1;
      var (order, created) := Run(max, history[..n]);
      BucketsAreOwn(max, history[..n]);
      UseKeepsOwn(order, created, max, history[n]);
    }
  }

  lemma UseKeepsOwn(order: seq<Tracked>, created: nat, max: nat, key: string)
    requires max > 0 && OwnBuckets(order, created)
    ensures var (order', created') := Use(order, created, max, key); OwnBuckets(order', created')
  {
    var i := Find(order, key);
    if i < |order| {
      FrontKeepsBuckets(order, i, created);
    } else {
      var kept := Kept(order, max);
      assert forall j :: 0 <= j < |kept| ==> kept[j] == order[j];
    }
  }

  lemma NewKeyGetsNewBucket(max: nat, history: seq<string>, key: string)
    requires max > 0 && key !in Keys(Run(max, history).0)
    ensures var (order, created) := Run(max, history + [key]);
            order != [] && order[0] == Tracked(key, Run(max, history).1) && created == Run(max, history).1 + 1
  {
    var order := Run(max, history).0;
    assert (history + [key])[..|history|] == history;
    forall i | 0 <= i < |order| ensures order[i].key != key {
      assert Keys(order)[i] == order[i].key;
    }
    FindMisses(order, key);
  }
}
