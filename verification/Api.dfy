/** The link handlers: the loops over a batch and over the pages of a listing,
    and the calls they make on the store. */
module Api {
  import opened Results
  import opened KeyOrder
  import opened KeyScan
  import opened LinkStore
  import opened Access
  import opened AccessList

  function PrepareAll(svc: Service, c: Client, items: seq<Item>): (ps: seq<Prepared>)
    ensures |ps| == |items|
  {
    if items == [] then [] else [Prepare(svc, items[0].seen, c, items[0])] + PrepareAll(svc, c, items[1..])
  }

  lemma {:induction false} PreparedAt(svc: Service, c: Client, items: seq<Item>, i: nat)
    requires i < |items|
    ensures PrepareAll(svc, c, items)[i] == Prepare(svc, items[i].seen, c, items[i])
  {
    if i > 0 {
      PreparedAt(svc, c, items[1..], i - 1);
    }
  }

  /** The store requests among prepared items, in order. */
  function Requests(ps: seq<Prepared>): seq<CreateRequest> {
    if ps == [] then []
    else if ps[0].Request? then [ps[0].req] + Requests(ps[1..])
    else Requests(ps[1..])
  }

  /** The number of store requests in front of item i. */
  function Rank(ps: seq<Prepared>, i: nat): nat
    requires i <= |ps|
  {
    if i == 0 then 0 else Rank(ps, i - 1) + if ps[i - 1].Request? then 1 else 0
  }

  lemma {:induction false} RankOfRest(ps: seq<Prepared>, i: nat)
    requires 0 < i <= |ps|
    ensures Rank(ps, i) == Rank(ps[1..], i - 1) + if ps[0].Request? then 1 else 0
  {
    if i > 1 {
      RankOfRest(ps, i - 1);
    }
  }

  lemma {:induction false} RankCounts(ps: seq<Prepared>, i: nat)
    requires i <= |ps|
    ensures Rank(ps, i) == |Requests(ps[..i])|
  {
    if i > 0 {
      RankCounts(ps, i - 1);
      RequestsOfPrefix(ps, i - 1);
    }
  }

  lemma {:induction false} RequestsOfPrefix(ps: seq<Prepared>, i: nat)
    requires i < |ps|
    ensures Requests(ps[..i + 1]) == Requests(ps[..i]) + if ps[i].Request? then [ps[i].req] else []
  {
    if i == 0 {
      assert ps[..1][1..] == [] && ps[..0] == [];
    } else {
      RequestsOfPrefix(ps[1..], i - 1);
      assert ps[..i + 1][1..] == ps[1..][..i] && ps[..i][1..] == ps[1..][..i - 1];
    }
  }

  function Blank(item: Item): ItemResult {
    ItemResult(item.target, false, None, None)
  }

  /** What the preparation alone makes of an item; a store request stays blank. */
  function AtOnce(item: Item, p: Prepared): ItemResult {
    match p
    case Rejected(e) => Refused(item, e)
    case Existing(entry) => ItemResult(item.target, false, Some(entry), None)
    case Request(_) => Blank(item)
  }

  /** Prepared items taken in turn on the evolving store. */
  function CarryAll(db: Db, items: seq<Item>, ps: seq<Prepared>): (r: (Db, seq<ItemResult>))
    requires |items| == |ps|
    ensures |r.1| == |items|
    decreases |items|
  {
    if items == [] then (db, []) else
      var (d, first) := Carry(db, items[0], ps[0]);
      var (d', rest) := CarryAll(d, items[1..], ps[1..]);
      (d', [first] + rest)
  }

  function Carry(db: Db, item: Item, p: Prepared): (Db, ItemResult) {
    if p.Request? then (db.CreateInTx(p.req).0, Answer(item, db.CreateInTx(p.req).1)) else (db, AtOnce(item, p))
  }

  lemma {:induction false} BatchIsCarried(svc: Service, db: Db, c: Client, items: seq<Item>)
    ensures BatchAll(svc, db, c, items) == CarryAll(db, items, PrepareAll(svc, c, items))
    decreases |items|
  {
    if items != [] {
      assert PrepareAll(svc, c, items)[1..] == PrepareAll(svc, c, items[1..]);
      BatchIsCarried(svc, BatchStep(svc, db, c, items[0]).0, c, items[1..]);
    }
  }

  /** The two phases of the handler - prepare everything, then run the prepared
      requests in one transaction - change the store as if the items were taken
      in turn, and answer each of them the same. */
  lemma {:induction false} TwoPhasesChangeAlike(db: Db, items: seq<Item>, ps: seq<Prepared>)
    requires |items| == |ps|
    ensures db.CreateAll(Requests(ps)).0 == CarryAll(db, items, ps).0
    decreases |items|
  {
    if items != [] {
      TwoPhasesChangeAlike(Carry(db, items[0], ps[0]).0, items[1..], ps[1..]);
      if ps[0].Request? {
        assert Requests(ps)[1..] == Requests(ps[1..]);
      }
    }
  }

  lemma {:induction false} TwoPhasesAnswerAlike(db: Db, items: seq<Item>, ps: seq<Prepared>, i: nat)
    requires i < |items| == |ps|
    ensures var stored := db.CreateAll(Requests(ps)).1;
            && (ps[i].Request? ==> Rank(ps, i) < |stored|)
            && CarryAll(db, items, ps).1[i]
            == if ps[i].Request? then Answer(items[i], stored[Rank(ps, i)]) else AtOnce(items[i], ps[i])
    decreases |items|
  {
    var d := Carry(db, items[0], ps[0]).0;
    CreateAllSteps(db, ps);
    if i > 0 {
      TwoPhasesAnswerAlike(d, items[1..], ps[1..], i - 1);
      RankOfRest(ps, i);
    }
  }

  lemma CreateAllSteps(db: Db, ps: seq<Prepared>)
    requires ps != []
    ensures var stored := db.CreateAll(Requests(ps)).1;
            if ps[0].Request?
            then stored == [db.CreateInTx(ps[0].req).1] + db.CreateInTx(ps[0].req).0.CreateAll(Requests(ps[1..])).1
            else stored == db.CreateAll(Requests(ps[1..])).1
  {
  }

  /** Those of the first i items that wait for the store, in order. */
  function Waiting(ps: seq<Prepared>, i: nat): (indexes: seq<nat>)
    requires i <= |ps|
    ensures |indexes| == Rank(ps, i)
    ensures forall j :: 0 <= j < |indexes| ==> indexes[j] < i && ps[indexes[j]].Request?
    ensures forall j, k :: 0 <= j < k < |indexes| ==> indexes[j] < indexes[k]
  {
    if i == 0 then [] else Waiting(ps, i - 1) + if ps[i - 1].Request? then [i - 1] else []
  }

  lemma {:induction false} WaitingAt(ps: seq<Prepared>, i: nat, k: nat)
    requires k < i <= |ps| && ps[k].Request?
    ensures Rank(ps, k) < |Waiting(ps, i)| && Waiting(ps, i)[Rank(ps, k)] == k
  {
    if k < i - 1 {
      WaitingAt(ps, i - 1, k);
    }
  }

  ghost predicate WaitInOrder(ps: seq<Prepared>, indexes: seq<nat>) {
    (forall j :: 0 <= j < |indexes| ==> indexes[j] < |ps| && ps[indexes[j]].Request?) &&
    (forall j, k :: 0 <= j < k < |indexes| ==> indexes[j] < indexes[k])
  }

  /** The results while the answers of the store are filled in: the first done of
      those that wait have theirs. */
  ghost predicate FilledUpTo(items: seq<Item>, ps: seq<Prepared>, indexes: seq<nat>, results: seq<ItemResult>,
                             stored: seq<Result<Created>>, done: nat)
  {
    && |results| == |items| == |ps| && done <= |stored| == |indexes|
    && (forall j :: 0 <= j < |indexes| ==> indexes[j] < |items|)
    && (forall j :: 0 <= j < done ==> results[indexes[j]] == Answer(items[indexes[j]], stored[j]))
    && (forall k :: 0 <= k < |items| && k !in indexes[..done] ==> results[k] == AtOnce(items[k], ps[k]))
  }

  lemma FillStep(items: seq<Item>, ps: seq<Prepared>, indexes: seq<nat>, results: seq<ItemResult>,
                 stored: seq<Result<Created>>, j: nat)
    requires WaitInOrder(ps, indexes) && j < |stored| && FilledUpTo(items, ps, indexes, results, stored, j)
    ensures indexes[j] < |items| && results[indexes[j]] == Blank(items[indexes[j]])
    ensures FilledUpTo(items, ps, indexes, results[indexes[j] := Answer(items[indexes[j]], stored[j])], stored, j + 1)
  {
  }

  /** Filled in completely, the results are what the items get one by one. */
  lemma FilledIsCarried(db: Db, items: seq<Item>, ps: seq<Prepared>, results: seq<ItemResult>)
    requires |ps| == |items|
    requires var stored := db.CreateAll(Requests(ps)).1;
             FilledUpTo(items, ps, Waiting(ps, |ps|), results, stored, |stored|)
    ensures results == CarryAll(db, items, ps).1
  {
    var indexes := Waiting(ps, |ps|);
    forall k | 0 <= k < |items| ensures results[k] == CarryAll(db, items, ps).1[k] {
      TwoPhasesAnswerAlike(db, items, ps, k);
      if ps[k].Request? {
        WaitingAt(ps, |ps|, k);
      } else {
        assert k !in indexes;
      }
    }
  }

  lemma {:induction false} SomeRequestIsPrepared(svc: Service, c: Client, items: seq<Item>)
    ensures SomeRequest(svc, c, items) <==> Requests(PrepareAll(svc, c, items)) != []
  {
    if items != [] {
      SomeRequestIsPrepared(svc, c, items[1..]);
      if i :| 0 <= i < |items| - 1 && Prepare(svc, items[1..][i].seen, c, items[1..][i]).Request? {
        assert Prepare(svc, items[i + 1].seen, c, items[i + 1]).Request?;
      }
      if i :| 0 <= i < |items| && Prepare(svc, items[i].seen, c, items[i]).Request? {
        assert i > 0 ==> Prepare(svc, items[1..][i - 1].seen, c, items[1..][i - 1]).Request?;
      }
    }
  }

  /** Every listed link is the stored one. */
  predicate AsStored(links: map<string, Link>, page: seq<Entry>) {
    forall e :: e in page ==> e.key in links && e.link == links[e.key]
  }

  /** The handlers. Other requests may commit between the reads of a creation and
      its write, so what it reads is part of the item. */
  class Handlers {
    const svc: Service
    const store: BoltStore

    constructor (svc: Service, store: BoltStore)
      ensures this.svc == svc && this.store == store
    {
      this.svc, this.store := svc, store;
    }

    method CreateLink(c: Client, item: Item, commits: bool) returns (r: Result<Created>)
      modifies store
      ensures (store.Contents(), r) == old(DoPost(svc, item.seen, store.Contents(), c, item, commits))
      ensures store.Contents() == old(Serve(svc, store.Contents(), c, Post(item, commits)))
    {
      var p := Prepare(svc, item.seen, c, item);
      match p
      case Rejected(e) => return Err(e);
      case Existing(entry) => return Ok(Created(entry, false));
      case Request(req) => r := store.Create(req, commits);
    }

    method UpdateLink(c: Client, key: string, raw: string, now: int, commits: bool) returns (r: Result<Entry>)
      modifies store
      ensures (store.Contents(), r) == old(DoPut(svc, store.Contents(), c, key, raw, now, commits))
      ensures store.Contents() == old(Serve(svc, store.Contents(), c, Put(key, raw, now, commits)))
    {
      var target := svc.canonicalize(raw);
      if target.None? || key == "" {
        return Err(BadRequest);
      }
      var ok := CheckAccess(c, key);
      if !ok {
        return Err(Forbidden);
      }
      r := store.Update(key, target.value, now, commits);
    }

    method DeleteLink(c: Client, key: string, commits: bool) returns (r: Result<()>)
      modifies store
      ensures (store.Contents(), r) == old(DoRemove(store.Contents(), c, key, commits))
      ensures store.Contents() == old(Serve(svc, store.Contents(), c, Remove(key, commits)))
    {
      if key == "" {
        return Err(BadRequest);
      }
      var ok := CheckAccess(c, key);
      if !ok {
        return Err(Forbidden);
      }
      r := store.Delete(key, commits);
    }

    /** handleLinksBatch: indexes[j] remembers which item store request j is for. */
    method CreateLinks(c: Client, items: seq<Item>, commits: bool) returns (r: Result<seq<ItemResult>>)
      modifies store
      ensures (store.Contents(), r) == old(DoBatch(svc, store.Contents(), c, items, commits))
      ensures store.Contents() == old(Serve(svc, store.Contents(), c, PostBatch(items, commits)))
    {
      if items == [] || |items| > MAX_BATCH {
        return Err(BadRequest);
      }
      ghost var db := store.Contents();
      ghost var ps := PrepareAll(svc, c, items);
      var results, reqs, indexes := PrepareItems(c, items);
      ghost var answers := db.CreateAll(reqs).1;
      SomeRequestIsPrepared(svc, c, items);
      BatchIsCarried(svc, db, c, items);
      TwoPhasesChangeAlike(db, items, ps);
      RankCounts(ps, |items|);
      assert ps[..|items|] == ps;
      if reqs != [] {
        var answer := store.CreateBatch(reqs, commits);
        if answer.Err? {
          return Err(answer.error);
        }
        results := FillIn(items, results, indexes, answer.value, ps);
      }
      FilledIsCarried(db, items, ps, results);
      return Ok(results);
    }

    /** The first loop: what needs no store access is answered at once. */
    method PrepareItems(c: Client, items: seq<Item>)
      returns (results: seq<ItemResult>, reqs: seq<CreateRequest>, indexes: seq<nat>)
      ensures var ps := PrepareAll(svc, c, items);
              && reqs == Requests(ps) && indexes == Waiting(ps, |items|)
              && |results| == |items| && forall k :: 0 <= k < |items| ==> results[k] == AtOnce(items[k], ps[k])
    {
      ghost var ps := PrepareAll(svc, c, items);
      results, reqs, indexes := [], [], [];
      assert ps[..0] == [];
      for i := 0 to |items|
        invariant reqs == Requests(ps[..i]) && indexes == Waiting(ps, i)
        invariant |results| == i && forall k :: 0 <= k < i ==> results[k] == AtOnce(items[k], ps[k])
      {
        var p := PrepareOne(c, items, i, ps);
        results, reqs, indexes := Dispatch(items[i], p, i, results, reqs, indexes, ps);
      }
      assert ps[..|items|] == ps;
    }

    method PrepareOne(c: Client, items: seq<Item>, i: nat, ghost ps: seq<Prepared>) returns (p: Prepared)
      requires i < |items| && ps == PrepareAll(svc, c, items)
      ensures p == ps[i]
    {
      PreparedAt(svc, c, items, i);
      p := Prepare(svc, items[i].seen, c, items[i]);
    }

    /** The switch of the first loop. */
    static method Dispatch(item: Item, p: Prepared, i: nat, results: seq<ItemResult>, reqs: seq<CreateRequest>,
                           indexes: seq<nat>, ghost ps: seq<Prepared>)
      returns (results': seq<ItemResult>, reqs': seq<CreateRequest>, indexes': seq<nat>)
      requires i < |ps| && p == ps[i] && |results| == i
      requires reqs == Requests(ps[..i]) && indexes == Waiting(ps, i)
      ensures results' == results + [AtOnce(item, p)]
      ensures reqs' == Requests(ps[..i + 1]) && indexes' == Waiting(ps, i + 1)
    {
      RequestsOfPrefix(ps, i);
      results', reqs', indexes' := results, reqs, indexes;
      match p {
        case Rejected(e) => results' := results + [ItemResult(item.target, false, None, Some(e))];
        case Existing(entry) => results' := results + [ItemResult(item.target, false, Some(entry), None)];
        case Request(req) =>
          results' := results + [ItemResult(item.target, false, None, None)];
          reqs' := reqs + [req];
          indexes' := indexes + [i];
      }
    }

    /** The second loop: the answers of the store go to the items that wait. */
    static method FillIn(items: seq<Item>, results: seq<ItemResult>, indexes: seq<nat>,
                         stored: seq<Result<Created>>, ghost ps: seq<Prepared>) returns (filled: seq<ItemResult>)
      requires |ps| == |items| && indexes == Waiting(ps, |ps|)
      requires FilledUpTo(items, ps, indexes, results, stored, 0)
      ensures FilledUpTo(items, ps, indexes, filled, stored, |stored|)
    {
      filled := results;
      for j := 0 to |stored|
        invariant FilledUpTo(items, ps, indexes, filled, stored, j)
      {
        var i := indexes[j];
        FillStep(items, ps, indexes, filled, stored, j);
        if stored[j].Err? {
          filled := filled[i := filled[i].(error := Some(stored[j].error))];
        } else {
          var done := stored[j].value;
          filled := filled[i := filled[i].(link := Some(done.entry), created := done.created)];
        }
      }
    }

    /** listFiltered: a page over several namespaces. */
    method ListFiltered(c: Client, limit: nat, cursor: string) returns (page: seq<Entry>, next: string)
      requires 0 < limit && "" !in store.links
      ensures AsStored(store.links, page)
      ensures (Keys(page), next) == FirstPage(Reachable(c, store.links.Keys, cursor), limit)
    {
      ghost var walk := SortedSeq(Beyond(store.links.Keys, cursor));
      ghost var m: nat := 0;
      var done := false;
      page, next := [], cursor;
      while !done
        invariant m <= |walk| && Keys(page) == Filter(c, walk[..m]) && AsStored(store.links, page)
        invariant if done then Final(walk, m, limit, Keys(page), next)
                  else |page| < limit && At(walk, cursor, m, next)
        decreases !done, |walk| - m
      {
        page, next, done, m := FilterBatch(c, limit, page, next, cursor, walk, m);
      }
      FilteredPage(c, store.links.Keys, cursor, limit, m, Keys(page), next);
    }

    /** One round of the loop: reads the next page of all links. */
    method FilterBatch(c: Client, limit: nat, before: seq<Entry>, from: string,
                       ghost cursor: string, ghost walk: seq<string>, ghost m: nat)
      returns (page: seq<Entry>, next: string, done: bool, ghost upTo: nat)
      requires "" !in store.links && walk == SortedSeq(Beyond(store.links.Keys, cursor))
      requires |before| < limit && At(walk, cursor, m, from) && Keys(before) == Filter(c, walk[..m])
      requires AsStored(store.links, before)
      ensures AsStored(store.links, page)
      ensures upTo <= |walk| && Keys(page) == Filter(c, walk[..upTo])
      ensures done ==> Final(walk, upTo, limit, Keys(page), next)
      ensures !done ==> |page| < limit && m < upTo && At(walk, cursor, upTo, next)
    {
      var batch, n := store.List("", limit, from);
      ghost var end := m + |batch|;
      PageOfWalk(store.links.Keys, cursor, walk, m, from, PageSize(limit), Keys(batch), n, end);
      var used: nat;
      page, used, upTo := TakeAccessible(c, batch, before, limit, walk, m, end);
      if |page| >= limit {
        return page, batch[used - 1].key, true, upTo;
      }
      return page, n, n == "", upTo;
    }

    /** The inner loop of listFiltered; used counts the links of the batch it has
        looked at. */
    method TakeAccessible(c: Client, batch: seq<Entry>, before: seq<Entry>, limit: nat,
                          ghost walk: seq<string>, ghost m: nat, ghost end: nat)
      returns (page: seq<Entry>, used: nat, ghost upTo: nat)
      requires |before| < limit && end == m + |batch| <= |walk| && Keys(batch) == walk[m..end]
      requires Keys(before) == Filter(c, walk[..m])
      requires AsStored(store.links, batch) && AsStored(store.links, before)
      ensures AsStored(store.links, page)
      ensures used <= |batch| && upTo == m + used && Keys(page) == Filter(c, walk[..upTo])
      ensures |page| < limit ==> used == |batch| && upTo == end
      ensures |page| >= limit ==> |page| == limit && used > 0 && batch[used - 1].key == Keys(page)[limit - 1]
    {
      page, used, upTo := before, 0, m;
      while used < |batch|
        invariant used <= |batch| && upTo == m + used && |page| < limit && Keys(page) == Filter(c, walk[..upTo])
        invariant AsStored(store.links, page)
      {
        var l := batch[used];
        assert Keys(batch)[used] == walk[upTo];
        assert walk[..upTo + 1][..upTo] == walk[..upTo];
        used, upTo := used + 1, upTo + 1;
        var ok := CheckAccess(c, l.key);
        if ok {
          assert Keys(page + [l]) == Keys(page) + [l.key];
          page := page + [l];
        }
        if |page| >= limit {
          break;
        }
      }
    }

    /** listLinks; a limit that does not parse counts as a non-positive one. */
    method ListLinks(c: Client, namespace: string, limit: Option<int>, cursor: string)
      returns (r: Result<(seq<Entry>, string)>)
      requires "" !in store.links
      ensures r == Err(BadRequest) <==> limit.Some? && limit.value <= 0
      ensures r == Err(Forbidden) <==>
                !(limit.Some? && limit.value <= 0) && namespace != "" && !c.CanAccess(namespace)
      ensures r.Err? ==> r.error in {BadRequest, Forbidden}
      ensures r.Ok? ==>
                var size := if limit.None? then 100 else if limit.value > 1000 then 1000 else limit.value;
                size > 0 &&
                AsStored(store.links, r.value.0) &&
                (Keys(r.value.0), r.value.1) == FirstPage(Selected(c, store.links.Keys, namespace, cursor), size)
    {
      var size := 100;
      if limit.Some? {
        if limit.value <= 0 {
          return Err(BadRequest);
        }
        size := limit.value;
      }
      if size > 1000 {
        size := 1000;
      }
      var page, next;
      if namespace != "" {
        var ok := CheckAccess(c, namespace);
        if !ok {
          return Err(Forbidden);
        }
        page, next := store.List(namespace, size, cursor);
      } else if c.isAdmin {
        page, next := store.List("", size, cursor);
      } else if |c.namespaces| == 1 {
        page, next := store.List(c.namespaces[0], size, cursor);
      } else {
        page, next := ListFiltered(c, size, cursor);
      }
      return Ok((page, next));
    }
  }
}
