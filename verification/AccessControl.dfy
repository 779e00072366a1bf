/** Namespace confinement over whole runs, and how a batch relates to single
    requests. */
module AccessControl {
  import opened Results
  import opened LinkStore
  import opened LinkInvariants
  import opened KeyRules
  import opened Access

  /** The keys that a prepared request of this client may end up under. */
  predicate PickedKeyIsAccessible(c: Client, db: Db, req: CreateRequest) {
    db.PickKey(req).Ok? ==> c.CanAccess(db.PickKey(req).value)
  }

  /** However its key is chosen - explicit, by a rule, by extending a hash, or at
      random - it lies in the client's namespaces. */
  lemma PreparedKeysAreAccessible(svc: Service, seen: Db, db: Db, c: Client, item: Item)
    requires Prepare(svc, seen, c, item).Request?
    ensures PickedKeyIsAccessible(c, db, Prepare(svc, seen, c, item).req)
  {
    var req := Prepare(svc, seen, c, item).req;
    if item.key == "" && FirstMatch(svc.rules, req.target).None? && db.PickKey(req).Ok? {
      FirstFreeIdMeaning(c.FirstNamespace(), item.ids, k => db.Free(k), 0);
      assert c.FirstNamespace() <= db.PickKey(req).value;
    }
  }

  /** key is stored in both, with the same link, or in neither. */
  predicate SameAt(a: Db, b: Db, key: string) {
    (key in a.links <==> key in b.links) && (key in a.links ==> a.links[key] == b.links[key])
  }

  lemma {:induction false} BatchIsConfined(svc: Service, db: Db, c: Client, items: seq<Item>, key: string)
    requires !c.CanAccess(key)
    ensures SameAt(db, BatchAll(svc, db, c, items).0, key)
    decreases |items|
  {
    if items != [] {
      if Prepare(svc, items[0].seen, c, items[0]).Request? {
        PreparedKeysAreAccessible(svc, items[0].seen, db, c, items[0]);
      }
      BatchIsConfined(svc, BatchStep(svc, db, c, items[0]).0, c, items[1..], key);
    }
  }

  lemma RequestIsConfined(svc: Service, db: Db, c: Client, w: WriteRequest, key: string)
    requires !c.CanAccess(key)
    ensures SameAt(db, Serve(svc, db, c, w), key)
  {
    match w
    case Post(item, _) =>
      if Prepare(svc, item.seen, c, item).Request? {
        PreparedKeysAreAccessible(svc, item.seen, db, c, item);
      }
    case PostBatch(items, _) => BatchIsConfined(svc, db, c, items, key);
    case Put(_, _, _, _) =>
    case Remove(_, _) =>
  }

  /** Over every run, a link is created, retargeted or deleted only by a client
      that may access its key. */
  lemma {:induction false} RunIsConfined(svc: Service, db: Db, visits: seq<Visit>, key: string)
    requires forall i :: 0 <= i < |visits| ==> !visits[i].client.CanAccess(key)
    ensures SameAt(db, Run(svc, db, visits), key)
    decreases |visits|
  {
    if visits != [] {
      RequestIsConfined(svc, db, visits[0].client, visits[0].w, key);
      RunIsConfined(svc, Serve(svc, db, visits[0].client, visits[0].w), visits[1..], key);
    }
  }

  /** The links of a are all in b, and so are their index entries. */
  predicate Extends(a: Db, b: Db) {
    (forall k :: k in a.links ==> k in b.links && a.links[k] == b.links[k]) &&
    (forall t :: t in a.targets ==> t in b.targets && a.targets[t] == b.targets[t])
  }

  /** One of a link and an error, for the item's own target; new links were free. */
  predicate Exclusive(db: Db, item: Item, r: ItemResult) {
    && r.target == item.target
    && (r.link.Some? <==> r.error.None?)
    && (r.created ==> r.link.Some? && db.Free(r.link.value.key))
  }

  lemma BatchItemIsExclusive(svc: Service, db: Db, c: Client, item: Item)
    ensures Exclusive(db, item, BatchStep(svc, db, c, item).1)
    ensures forall k :: BatchStep(svc, db, c, item).0.Free(k) ==> db.Free(k)
  {
  }

  /** Every answer of a batch carries exactly one of a link and an error, names
      the target of its own item, and a link only claims to be new if it is. */
  lemma {:induction false} BatchAnswersAreExclusive(svc: Service, db: Db, c: Client, items: seq<Item>)
    ensures forall i :: 0 <= i < |items| ==> Exclusive(db, items[i], BatchAll(svc, db, c, items).1[i])
    decreases |items|
  {
    if items != [] {
      var (d, first) := BatchStep(svc, db, c, items[0]);
      BatchItemIsExclusive(svc, db, c, items[0]);
      BatchAnswersAreExclusive(svc, d, c, items[1..]);
      var rest := BatchAll(svc, d, c, items[1..]).1;
      forall i | 0 <= i < |items| ensures Exclusive(db, items[i], ([first] + rest)[i]) {
        if i > 0 { assert Exclusive(d, items[1..][i - 1], rest[i - 1]); }
      }
    }
  }

  /** The case in which a batch treats an item worse than a request of its own:
      an earlier item mapped its target meanwhile, but the preparation had
      already rejected it. */
  predicate Overtaken(svc: Service, db: Db, c: Client, item: Item) {
    && item.key == "" && svc.canonicalize(item.target).Some?
    && svc.canonicalize(item.target).value !in item.seen.targets
    && svc.canonicalize(item.target).value in db.targets
    && Prepare(svc, item.seen, c, item).Rejected?
  }

  /** The case in which a batch keeps what a request of its own would roll back:
      the bucket refuses the canonical target after the link was written. */
  predicate ItemHalfWrite(svc: Service, db: Db, c: Client, item: Item) {
    Prepare(svc, item.seen, c, item).Request? && HalfWrite(db, Prepare(svc, item.seen, c, item).req)
  }

  predicate SomeItemHalfWrite(svc: Service, db: Db, c: Client, items: seq<Item>)
    decreases |items|
  {
    items != [] &&
    (ItemHalfWrite(svc, db, c, items[0]) || SomeItemHalfWrite(svc, BatchStep(svc, db, c, items[0]).0, c, items[1..]))
  }

  lemma CreationKeeps(db: Db, req: CreateRequest)
    requires db.Sound() && !HalfWrite(db, req)
    ensures db.CreateInTx(req).0.Sound() && Extends(db, db.CreateInTx(req).0)
    ensures db.CreateInTx(req).1.Err? ==> db.CreateInTx(req).0 == db
  {
    CreateIsAtomicIff(db, req);
    CreateMeaning(db, req);
  }

  /** What one item leaves: an orphan after a half write, or else a sound store. */
  lemma ItemKeepsSoundUnless(svc: Service, db: Db, c: Client, item: Item)
    requires db.Sound()
    ensures var d := BatchStep(svc, db, c, item).0;
            if ItemHalfWrite(svc, db, c, item)
            then Orphan(d, db.PickKey(Prepare(svc, item.seen, c, item).req).value)
            else d.Sound() && Extends(db, d)
  {
    if Prepare(svc, item.seen, c, item).Request? && !ItemHalfWrite(svc, db, c, item) {
      CreationKeeps(db, Prepare(svc, item.seen, c, item).req);
    }
  }

  lemma {:induction false} OrphanStaysInBatch(svc: Service, db: Db, c: Client, items: seq<Item>, key: string)
    requires Orphan(db, key)
    ensures Orphan(BatchAll(svc, db, c, items).0, key)
    decreases |items|
  {
    if items != [] {
      if Prepare(svc, items[0].seen, c, items[0]).Request? {
        OrphanStaysOnce(db, Prepare(svc, items[0].seen, c, items[0]).req, key);
      }
      OrphanStaysInBatch(svc, BatchStep(svc, db, c, items[0]).0, c, items[1..], key);
    }
  }

  lemma OrphanStaysOnce(db: Db, req: CreateRequest, key: string)
    requires Orphan(db, key)
    ensures Orphan(db.CreateInTx(req).0, key)
  {
  }

  lemma OrphanBreaks(db: Db, key: string)
    requires Orphan(db, key)
    ensures !db.Inverse()
  {
  }

  lemma {:induction false} HalfWriteIsRequested(svc: Service, db: Db, c: Client, items: seq<Item>)
    requires SomeItemHalfWrite(svc, db, c, items)
    ensures SomeRequest(svc, c, items)
    decreases |items|
  {
    if !ItemHalfWrite(svc, db, c, items[0]) {
      HalfWriteIsRequested(svc, BatchStep(svc, db, c, items[0]).0, c, items[1..]);
      var i :| 0 <= i < |items| - 1 && Prepare(svc, items[1..][i].seen, c, items[1..][i]).Request?;
      assert Prepare(svc, items[i + 1].seen, c, items[i + 1]).Request?;
    }
  }

  /** A batch keeps the buckets inverse exactly when no item is a half write. */
  lemma {:induction false} BatchKeepsSoundIff(svc: Service, db: Db, c: Client, items: seq<Item>)
    requires db.Sound()
    ensures var d := BatchAll(svc, db, c, items).0;
            if SomeItemHalfWrite(svc, db, c, items) then !d.Inverse() else d.Sound()
    decreases |items|
  {
    if items != [] {
      var d := BatchStep(svc, db, c, items[0]).0;
      ItemKeepsSoundUnless(svc, db, c, items[0]);
      if ItemHalfWrite(svc, db, c, items[0]) {
        var key := db.PickKey(Prepare(svc, items[0].seen, c, items[0]).req).value;
        OrphanStaysInBatch(svc, d, c, items[1..], key);
        OrphanBreaks(BatchAll(svc, db, c, items).0, key);
      } else {
        BatchKeepsSoundIff(svc, d, c, items[1..]);
      }
    }
  }

  /** The one request that breaks the store: a committed batch of an allowed size
      with a half write. */
  predicate Breaks(svc: Service, db: Db, visit: Visit) {
    var w := visit.w;
    w.PostBatch? && w.commits && |w.items| <= MAX_BATCH && SomeItemHalfWrite(svc, db, visit.client, w.items)
  }

  lemma SingleKeepsSound(svc: Service, seen: Db, db: Db, c: Client, item: Item, commits: bool)
    requires db.Sound()
    ensures DoPost(svc, seen, db, c, item, commits).0.Sound() && Extends(db, DoPost(svc, seen, db, c, item, commits).0)
  {
    var p := Prepare(svc, seen, c, item);
    if p.Request? {
      CreateIsAtomicIff(db, p.req);
      CreateMeaning(db, p.req);
    }
  }

  /** Every other request keeps the buckets inverse, whatever its preparation has
      seen and whether it commits or not. */
  lemma RequestKeepsSoundIff(svc: Service, db: Db, visit: Visit)
    requires db.Sound()
    ensures Serve(svc, db, visit.client, visit.w).Sound() <==> !Breaks(svc, db, visit)
    ensures Serve(svc, db, visit.client, visit.w).Inverse() <==> !Breaks(svc, db, visit)
  {
    match visit.w
    case Post(item, commits) => SingleKeepsSound(svc, item.seen, db, visit.client, item, commits);
    case PostBatch(items, _) =>
      BatchKeepsSoundIff(svc, db, visit.client, items);
      if SomeItemHalfWrite(svc, db, visit.client, items) { HalfWriteIsRequested(svc, db, visit.client, items); }
    case Put(key, raw, now, commits) => PutKeepsSound(svc, db, visit.client, key, raw, now, commits);
    case Remove(key, _) => DeleteMeaning(db, key);
  }

  lemma PutKeepsSound(svc: Service, db: Db, c: Client, key: string, raw: string, now: int, commits: bool)
    requires db.Sound()
    ensures DoPut(svc, db, c, key, raw, now, commits).0.Sound()
  {
    if svc.canonicalize(raw).Some? { UpdateMeaning(db, key, svc.canonicalize(raw).value, now); }
  }

  /** The store is sound at the start of a run and after every visit. */
  ghost predicate AlwaysSound(svc: Service, db: Db, visits: seq<Visit>)
    decreases |visits|
  {
    db.Sound() && (visits == [] || AlwaysSound(svc, Serve(svc, db, visits[0].client, visits[0].w), visits[1..]))
  }

  predicate NothingBreaks(svc: Service, db: Db, visits: seq<Visit>)
    decreases |visits|
  {
    visits == [] ||
    (!Breaks(svc, db, visits[0]) && NothingBreaks(svc, Serve(svc, db, visits[0].client, visits[0].w), visits[1..]))
  }

  /** Over every run of requests the two buckets are inverse all the time exactly
      when no visit is such a batch; in that case they are at the end. */
  lemma {:induction false} RunKeepsSoundIff(svc: Service, db: Db, visits: seq<Visit>)
    requires db.Sound()
    ensures AlwaysSound(svc, db, visits) <==> NothingBreaks(svc, db, visits)
    ensures NothingBreaks(svc, db, visits) ==> Run(svc, db, visits).Sound()
    decreases |visits|
  {
    if visits != [] {
      RequestKeepsSoundIff(svc, db, visits[0]);
      if !Breaks(svc, db, visits[0]) {
        RunKeepsSoundIff(svc, Serve(svc, db, visits[0].client, visits[0].w), visits[1..]);
      }
    }
  }

  /** Canonical targets may be longer than raw ones: percent-encoding and letters
      whose lower case takes more bytes add to them. */
  function LongTarget(): string {
    seq(MAX_KEY_SIZE + 1, _ => 'a')
  }

  lemma ExplicitKeyIsPrepared(svc: Service, c: Client, item: Item)
    requires c.CanAccess("/a/x") && item.key == "/a/x" && svc.canonicalize(item.target).Some?
    ensures Prepare(svc, item.seen, c, item)
         == Request(CreateRequest(svc.canonicalize(item.target).value, "", c.name, "/a/x", None, item.now))
  {
    TwoPieces("/a/x");
  }

  /** It happens: a batch of one item whose canonical target is too long leaves a
      link without index entry; the same item alone leaves nothing. */
  lemma BatchCanKeepAHalfWrite()
    ensures var svc := Service(raw => Some(LongTarget()), []);
            var c := Client("c", false, ["/a/"]);
            var empty := Db(map[], map[]);
            var items := [Item("http://a", "/a/x", [], 0, empty)];
            && empty.Sound() && Breaks(svc, empty, Visit(c, PostBatch(items, true)))
            && !Serve(svc, empty, c, PostBatch(items, true)).Inverse()
            && "/a/x" in BatchAll(svc, empty, c, items).0.links
            && Singles(svc, empty, c, items).0 == empty
  {
    var svc := Service(raw => Some(LongTarget()), []);
    var c := Client("c", false, ["/a/"]);
    var empty := Db(map[], map[]);
    var item := Item("http://a", "/a/x", [], 0, empty);
    assert c.CanAccess("/a/x") by { assert c.namespaces[0] <= "/a/x"; }
    ExplicitKeyIsPrepared(svc, c, item);
    assert !Puttable(LongTarget());
    assert ItemHalfWrite(svc, empty, c, item);
    RequestKeepsSoundIff(svc, empty, Visit(c, PostBatch([item], true)));
    assert [item][1..] == [];
    assert DoPost(svc, empty, empty, c, item, true).0 == empty;
  }

  /** A request that was prepared on one store would be prepared alike on another,
      unless its target is published there. */
  lemma PreparedElsewhere(svc: Service, db: Db, c: Client, item: Item)
    requires db.Sound() && Prepare(svc, item.seen, c, item).Request?
    ensures var req := Prepare(svc, item.seen, c, item).req;
            var published := item.key == "" && req.target in db.targets;
            if published then Prepare(svc, db, c, item) == Existing(db.Get(db.targets[req.target]).value)
            else Prepare(svc, db, c, item) == Request(req)
  {
  }

  lemma RequestVersusSingle(svc: Service, db: Db, c: Client, item: Item)
    requires db.Sound() && Prepare(svc, item.seen, c, item).Request?
    ensures var (d, r) := BatchStep(svc, db, c, item);
            var (d', r') := DoPost(svc, db, db, c, item, true);
            && (!ItemHalfWrite(svc, db, c, item) ==> d == d') && r == Answer(item, r')
  {
    var req := Prepare(svc, item.seen, c, item).req;
    assert item.key == "" ==> req.explicitKey == "";
    PreparedElsewhere(svc, db, c, item);
    CreateIsAtomicIff(db, req);
  }

  /** An item of a batch changes the store like a request of its own exactly if it
      is no half write, and is answered alike exactly if it was not overtaken. */
  lemma BatchItemVersusSingle(svc: Service, db: Db, c: Client, item: Item)
    requires item.seen.Sound() && db.Sound() && Extends(item.seen, db)
    ensures var (d, r) := BatchStep(svc, db, c, item);
            var (d', r') := DoPost(svc, db, db, c, item, true);
            && (d == d' <==> !ItemHalfWrite(svc, db, c, item))
            && (r == Answer(item, r') <==> !Overtaken(svc, db, c, item))
  {
    ItemKeepsSoundUnless(svc, db, c, item);
    SingleKeepsSound(svc, db, db, c, item, true);
    if Prepare(svc, item.seen, c, item).Request? {
      RequestVersusSingle(svc, db, c, item);
    } else {
      AtOnceVersusSingle(svc, db, c, item);
    }
  }

  lemma AtOnceVersusSingle(svc: Service, db: Db, c: Client, item: Item)
    requires item.seen.Sound() && db.Sound() && Extends(item.seen, db)
    requires !Prepare(svc, item.seen, c, item).Request?
    ensures var r := BatchStep(svc, db, c, item).1;
            var (d', r') := DoPost(svc, db, db, c, item, true);
            d' == db && (r == Answer(item, r') <==> !Overtaken(svc, db, c, item))
  {
    if svc.canonicalize(item.target).Some? && item.key == "" {
      var target := svc.canonicalize(item.target).value;
      assert target in db.targets ==> db.targets[target] in db.links;
      assert target in item.seen.targets ==> item.seen.targets[target] in item.seen.links;
    }
  }

  /** The single requests that a batch stands for, one after the other. */
  function Singles(svc: Service, db: Db, c: Client, items: seq<Item>): (r: (Db, seq<ItemResult>))
    ensures |r.1| == |items|
    decreases |items|
  {
    if items == [] then (db, []) else
      var (d, r) := DoPost(svc, db, db, c, items[0], true);
      var (d', rest) := Singles(svc, d, c, items[1..]);
      (d', [Answer(items[0], r)] + rest)
  }

  lemma {:induction false} SinglesKeepSound(svc: Service, db: Db, c: Client, items: seq<Item>)
    requires db.Sound()
    ensures Singles(svc, db, c, items).0.Sound()
    decreases |items|
  {
    if items != [] {
      SingleKeepsSound(svc, db, db, c, items[0], true);
      SinglesKeepSound(svc, DoPost(svc, db, db, c, items[0], true).0, c, items[1..]);
    }
  }

  /** Answer i of a batch is that of the single request exactly when item i was
      not overtaken. */
  ghost predicate AgreeAt(svc: Service, db: Db, c: Client, items: seq<Item>, i: nat)
    requires i < |items|
  {
    var alike := BatchAll(svc, db, c, items).1[i] == Singles(svc, db, c, items).1[i];
    alike <==> !Overtaken(svc, Singles(svc, db, c, items[..i]).0, c, items[i])
  }

  lemma AgreeStep(svc: Service, db: Db, c: Client, items: seq<Item>, i: nat)
    requires 0 < i < |items|
    requires BatchStep(svc, db, c, items[0]).0 == DoPost(svc, db, db, c, items[0], true).0
    requires AgreeAt(svc, BatchStep(svc, db, c, items[0]).0, c, items[1..], i - 1)
    ensures AgreeAt(svc, db, c, items, i)
  {
    assert items[..i][1..] == items[1..][..i - 1] && items[i] == items[1..][i - 1];
  }

  /** What the items of a batch saw were sound stores, and nothing was retargeted or
      deleted since. */
  ghost predicate SeenBefore(db: Db, items: seq<Item>) {
    forall item :: item in items ==> item.seen.Sound() && Extends(item.seen, db)
  }

  lemma SeenBeforeStays(db: Db, d: Db, items: seq<Item>)
    requires SeenBefore(db, items) && items != [] && Extends(db, d)
    ensures SeenBefore(d, items[1..])
  {
    assert forall item :: item in items[1..] ==> item in items;
  }

  /** A batch leaves the same store as its items sent one by one exactly when none
      is a half write; as long as there was none, each item is answered alike
      exactly when it was not overtaken. */
  lemma {:induction false} BatchVersusSingles(svc: Service, db: Db, c: Client, items: seq<Item>)
    requires db.Sound() && SeenBefore(db, items)
    ensures BatchAll(svc, db, c, items).0 == Singles(svc, db, c, items).0 <==> !SomeItemHalfWrite(svc, db, c, items)
    ensures forall i :: 0 <= i < |items| && !SomeItemHalfWrite(svc, db, c, items[..i]) ==> AgreeAt(svc, db, c, items, i)
    decreases |items|
  {
    if items != [] {
      assert items[0] in items;
      BatchItemVersusSingle(svc, db, c, items[0]);
      BatchKeepsSoundIff(svc, db, c, items);
      SinglesKeepSound(svc, db, c, items);
      var d := BatchStep(svc, db, c, items[0]).0;
      if !ItemHalfWrite(svc, db, c, items[0]) {
        ItemKeepsSoundUnless(svc, db, c, items[0]);
        SeenBeforeStays(db, d, items);
        BatchVersusSingles(svc, d, c, items[1..]);
      }
      forall i | 0 <= i < |items| && !SomeItemHalfWrite(svc, db, c, items[..i]) ensures AgreeAt(svc, db, c, items, i) {
        if i > 0 {
          NoHalfWriteBefore(svc, db, c, items, i);
          AgreeStep(svc, db, c, items, i);
        }
      }
    }
  }

  lemma NoHalfWriteBefore(svc: Service, db: Db, c: Client, items: seq<Item>, i: nat)
    requires 0 < i <= |items| && !SomeItemHalfWrite(svc, db, c, items[..i])
    ensures !ItemHalfWrite(svc, db, c, items[0])
    ensures !SomeItemHalfWrite(svc, BatchStep(svc, db, c, items[0]).0, c, items[1..][..i - 1])
  {
    assert items[..i][1..] == items[1..][..i - 1];
  }

  /** Whoever asks again for a target that a successful request was about, naming
      no key, gets the very same link, and nothing changes. */
  lemma RepeatedPostResolves(svc: Service, db: Db, c: Client, item: Item, c2: Client, again: Item, commits: bool)
    requires db.Sound() && DoPost(svc, db, db, c, item, true).1.Ok?
    requires again.key == "" && svc.canonicalize(again.target) == svc.canonicalize(item.target)
    ensures var (d, r) := DoPost(svc, db, db, c, item, true);
            DoPost(svc, d, d, c2, again, commits) == (d, Ok(r.value.(created := false)))
  {
    var p := Prepare(svc, db, c, item);
    if p.Request? {
      CreateMeaning(db, p.req);
    }
  }

  lemma TwoPieces(key: string)
    requires key in {"/a/x", "/b/x"}
    ensures ValidKey(key)
  {
    assert key[1..][1..] == "/x" && key[1..][1..][1..] == "x" && key[1..][1..][1..][1..] == "";
    assert "x"[1..] == "" && [""][1..] == [] && ['x'] + "" == "x";
    assert Segments("x") == ["x"];
    assert Segments("/x") == ["", "x"];
    assert ["", "x"][1..] == ["x"] && [key[1]] + "" == [key[1]];
    assert Segments(key[1..]) == [[key[1]], "x"];
    assert Segments(key) == ["", [key[1]], "x"];
  }

  /** It happens: the second item is refused, because the rule for its target
      points outside the namespace; alone, it would get the link that the first
      item has published. */
  lemma BatchCanRefuseWhatASingleResolves()
    ensures var svc := Service(raw => Some("t"), [Rule("r", t => Some(map[]), v => Some("/b/x"), "", 0)]);
            var c := Client("c", false, ["/a/"]);
            var empty := Db(map[], map[]);
            var items := [Item("t", "/a/x", [], 0, empty), Item("t", "", [], 1, empty)];
            && BatchAll(svc, empty, c, items).1[1].error == Some(Forbidden)
            && Singles(svc, empty, c, items).1[1].link == Some(Entry("/a/x", Link("t", "", "c", 0, 0)))
  {
    var svc := Service(raw => Some("t"), [Rule("r", t => Some(map[]), v => Some("/b/x"), "", 0)]);
    var c := Client("c", false, ["/a/"]);
    var empty := Db(map[], map[]);
    var items := [Item("t", "/a/x", [], 0, empty), Item("t", "", [], 1, empty)];
    TwoPieces("/a/x");
    TwoPieces("/b/x");
    assert c.CanAccess("/a/x") by { assert c.namespaces[0] <= "/a/x"; }
    assert !c.CanAccess("/b/x") by { assert "/b/x"[1] == 'b'; }
    var d := Db(map["/a/x" := Link("t", "", "c", 0, 0)], map["t" := "/a/x"]);
    assert BatchStep(svc, empty, c, items[0]).0 == d;
    SecondOfTwo(svc, empty, c, items[0], items[1]);
  }

  lemma SecondOfTwo(svc: Service, db: Db, c: Client, a: Item, b: Item)
    ensures BatchAll(svc, db, c, [a, b]).1[1] == BatchStep(svc, BatchStep(svc, db, c, a).0, c, b).1
    ensures var d := DoPost(svc, db, db, c, a, true).0;
            Singles(svc, db, c, [a, b]).1[1] == Answer(b, DoPost(svc, d, d, c, b, true).1)
  {
  }
}
