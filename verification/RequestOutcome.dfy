/** What a client is answered, said from its request, the rules and the store alone. */
module RequestOutcome {
  import opened Results
  import opened LinkStore
  import opened LinkInvariants
  import opened KeyRules
  import opened Access
  import opened AccessControl

  /** The store and the answer after a link was created. */
  function WithLink(db: Db, key: string, link: Link): (Db, Result<Created>) {
    (Db(db.links[key := link], db.targets[link.target := key]), Ok(Created(Entry(key, link), true)))
  }

  /** A link is created under a free key, if the buckets accept it. */
  function Publish(db: Db, c: Client, rule: string, key: string, target: string, now: int): (Db, Result<Created>) {
    if 0 < |key| <= 32768 && 0 < |target| <= 32768 then WithLink(db, key, Link(target, rule, c.name, now, now))
    else (db, Err(Internal))
  }

  predicate Uncovered(svc: Service, target: string) {
    forall i :: 0 <= i < |svc.rules| ==> svc.rules[i].pattern(target).None?
  }

  /** Rule i is the first that covers the target. */
  predicate CoveredBy(svc: Service, target: string, i: nat, vars: map<string, string>) {
    && i < |svc.rules| && svc.rules[i].pattern(target) == Some(vars)
    && forall j :: 0 <= j < i ==> svc.rules[j].pattern(target).None?
  }

  lemma UncoveredMatchesNothing(svc: Service, target: string)
    requires Uncovered(svc, target)
    ensures FirstMatch(svc.rules, target).None?
  {
    FirstMatchMeaning(svc.rules, target);
  }

  lemma CoveredMatches(svc: Service, target: string, i: nat, vars: map<string, string>)
    requires CoveredBy(svc, target, i, vars)
    ensures FirstMatch(svc.rules, target) == Some((svc.rules[i], vars))
  {
    FirstMatchMeaning(svc.rules, target);
  }

  /** An admin, or one whose namespace starts the key. */
  predicate Owns(c: Client, key: string) {
    c.isAdmin || exists i :: 0 <= i < |c.namespaces| && c.namespaces[i] <= key
  }

  /** A target that is not accepted is refused. */
  lemma BadTargetPost(svc: Service, db: Db, c: Client, item: Item)
    requires svc.canonicalize(item.target).None?
    ensures DoPost(svc, db, db, c, item, true) == (db, Err(BadRequest))
  {
  }

  /** A request that names its key: refused if the key is not valid or not the
      client's, answered with the link if the target has this key already, a conflict
      if the target has another key or the key another target, and else carried out. */
  lemma ExplicitPost(svc: Service, db: Db, c: Client, item: Item, target: string)
    requires db.Sound() && svc.canonicalize(item.target) == Some(target) && item.key != ""
    ensures DoPost(svc, db, db, c, item, true) ==
            if !ValidKey(item.key) then (db, Err(BadRequest))
            else if !Owns(c, item.key) then (db, Err(Forbidden))
            else if target in db.targets then
              if db.targets[target] != item.key then (db, Err(Conflict))
              else (db, Ok(Created(Entry(item.key, db.links[item.key]), false)))
            else if item.key in db.links then (db, Err(Conflict))
            else Publish(db, c, "", item.key, target, item.now)
  {
    CreateIsAtomicIff(db, CreateRequest(target, "", c.name, item.key, None, item.now));
  }

  /** Without a key of its own, a request for a published target gets the link, whoever
      owns it. */
  lemma PublishedPost(svc: Service, db: Db, c: Client, item: Item, target: string)
    requires db.Sound() && svc.canonicalize(item.target) == Some(target) && item.key == "" && target in db.targets
    ensures var key := db.targets[target];
            DoPost(svc, db, db, c, item, true) == (db, Ok(Created(Entry(key, db.links[key]), false)))
  {
  }

  /** The namespace of a client for random keys. */
  function HomeOf(c: Client): string {
    if c.namespaces == [] then if c.isAdmin then "/" else "" else c.namespaces[0]
  }

  /** Of the first ten ids, i is the first whose key is free. */
  predicate FirstFreeAt(db: Db, home: string, ids: seq<string>, i: nat) {
    && i < 10 && i < |ids| && home + "~" + ids[i] !in db.links
    && forall j :: 0 <= j < i ==> home + "~" + ids[j] in db.links
  }

  /** An unpublished target that no rule covers is created in the client's first
      namespace, under the first free random key; it is refused for lack of a
      namespace, of a free id among ten, or of a target that fits the bucket. */
  lemma UncoveredPost(svc: Service, db: Db, c: Client, item: Item, target: string)
    requires db.Sound() && svc.canonicalize(item.target) == Some(target) && item.key == ""
    requires target !in db.targets && Uncovered(svc, target)
    ensures var home := HomeOf(c);
            var answer := DoPost(svc, db, db, c, item, true);
            if home == "" then answer == (db, Err(BadRequest))
            else if home[|home| - 1] != '/' then answer == (db, Err(Internal))
            else
              && (forall i: nat :: FirstFreeAt(db, home, item.ids, i) ==>
                    answer == Publish(db, c, "", home + "~" + item.ids[i], target, item.now))
              && ((forall i: nat :: !FirstFreeAt(db, home, item.ids, i)) ==> answer == (db, Err(Internal)))
  {
    UncoveredMatchesNothing(svc, target);
    var home := HomeOf(c);
    if home != "" {
      var req := CreateRequest(target, "", c.name, "", Some(RandomGen(home, item.ids)), item.now);
      assert Prepare(svc, db, c, item).Request? && Prepare(svc, db, c, item).req == req;
      CreateIsAtomicIff(db, req);
      if home[|home| - 1] == '/' { FreeIdIsUsed(db, home, item.ids); }
      assert db.PickKey(req) == RandomKeyFor(home, item.ids, k => db.Free(k));
    }
  }

  lemma FreeIdIsUsed(db: Db, home: string, ids: seq<string>)
    requires home != "" && home[|home| - 1] == '/'
    ensures var r := RandomKeyFor(home, ids, k => db.Free(k));
            && (forall i: nat :: FirstFreeAt(db, home, ids, i) ==> r == Ok(home + "~" + ids[i]))
            && ((forall i: nat :: !FirstFreeAt(db, home, ids, i)) ==> r == Err(Internal))
  {
    FirstFreeIdMeaning(home, ids, k => db.Free(k), 0);
  }

  /** What follows once a rule has made a free key. */
  function PublishOwned(db: Db, c: Client, rule: string, key: string, target: string, now: int): (Db, Result<Created>) {
    if Owns(c, key) then Publish(db, c, rule, key, target, now) else (db, Err(Forbidden))
  }

  lemma RulePick(svc: Service, db: Db, c: Client, item: Item, target: string, i: nat, vars: map<string, string>)
    requires db.Sound() && svc.canonicalize(item.target) == Some(target) && item.key == ""
    requires target !in db.targets && CoveredBy(svc, target, i, vars)
    ensures var answer := DoPost(svc, db, db, c, item, true);
            match Rendered(svc.rules[i], vars)
            case None => answer == (db, Err(Internal))
            case Some(full) =>
              if !Owns(c, full) then answer == (db, Err(Forbidden))
              else match svc.rules[i].KeyFor(vars, k => db.Free(k))
                case Err(e) => answer == (db, Err(e))
                case Ok(key) => answer == PublishOwned(db, c, svc.rules[i].name, key, target, item.now)
  {
    CoveredMatches(svc, target, i, vars);
    KeyForIsFree(svc.rules[i], vars, k => db.Free(k));
    var gen := NamespacedRuleGen(c, svc.rules[i], vars);
    var req := CreateRequest(target, svc.rules[i].name, c.name, "", Some(gen), item.now);
    if Rendered(svc.rules[i], vars).Some? && Owns(c, Rendered(svc.rules[i], vars).value) {
      assert Prepare(svc, db, c, item) == Request(req);
      CreateIsAtomicIff(db, req);
    }
  }

  /** A rule without hash: its key, if that is valid, the client's, and free. */
  lemma PlainRulePost(svc: Service, db: Db, c: Client, item: Item, target: string, i: nat, vars: map<string, string>)
    requires db.Sound() && svc.canonicalize(item.target) == Some(target) && item.key == ""
    requires target !in db.targets && CoveredBy(svc, target, i, vars) && svc.rules[i].hash == ""
    ensures DoPost(svc, db, db, c, item, true) ==
            match Rendered(svc.rules[i], vars)
            case None => (db, Err(Internal))
            case Some(key) =>
              if !Owns(c, key) then (db, Err(Forbidden))
              else if key in db.links then (db, Err(Conflict))
              else Publish(db, c, svc.rules[i].name, key, target, item.now)
  {
    RulePick(svc, db, c, item, target, i, vars);
    PlainKeyMeaning(svc.rules[i], vars, k => db.Free(k));
  }

  /** A hash rule: the client must own the key with the whole hash; then it gets the
      first key that is not valid and taken, from the configured number of hash
      characters on, if it owns that one too. */
  lemma HashRulePost(svc: Service, db: Db, c: Client, item: Item, target: string, i: nat, vars: map<string, string>)
    requires db.Sound() && svc.canonicalize(item.target) == Some(target) && item.key == ""
    requires target !in db.targets && CoveredBy(svc, target, i, vars) && svc.rules[i].hash != ""
    requires Rendered(svc.rules[i], vars).Some? && Owns(c, Rendered(svc.rules[i], vars).value)
    ensures var rule := svc.rules[i];
            var answer := DoPost(svc, db, db, c, item, true);
            if rule.hash !in vars || vars[rule.hash] == "" then answer == (db, Err(Internal))
            else
              var size := |vars[rule.hash]|;
              var least := if rule.hashMinlen > size then size else rule.hashMinlen;
              if TakenFrom(rule, vars, k => db.Free(k), least, size + 1) then answer == (db, Err(Conflict))
              else exists m ::
                && least <= m <= size && TakenFrom(rule, vars, k => db.Free(k), least, m)
                && answer == match Rendered(rule, WithHash(rule, vars, m))
                             case None => (db, Err(Internal))
                             case Some(key) => PublishOwned(db, c, rule.name, key, target, item.now)
  {
    var rule := svc.rules[i];
    RulePick(svc, db, c, item, target, i, vars);
    HashKeyMeaning(rule, vars, k => db.Free(k));
  }

  /** A rule whose whole key is not valid or not the client's refuses at once. */
  lemma ForeignRulePost(svc: Service, db: Db, c: Client, item: Item, target: string, i: nat, vars: map<string, string>)
    requires db.Sound() && svc.canonicalize(item.target) == Some(target) && item.key == ""
    requires target !in db.targets && CoveredBy(svc, target, i, vars)
    ensures Rendered(svc.rules[i], vars).None? ==> DoPost(svc, db, db, c, item, true) == (db, Err(Internal))
    ensures Rendered(svc.rules[i], vars).Some? && !Owns(c, Rendered(svc.rules[i], vars).value) ==>
              DoPost(svc, db, db, c, item, true) == (db, Err(Forbidden))
  {
    RulePick(svc, db, c, item, target, i, vars);
  }

  /** Retargeting: refused for a bad target, no key, or a foreign one; not found; a
      conflict with another key of the target; nothing to do; or done. */
  lemma PutMeaning(svc: Service, db: Db, c: Client, key: string, raw: string, now: int)
    requires db.Sound()
    ensures DoPut(svc, db, c, key, raw, now, true) ==
            match svc.canonicalize(raw)
            case None => (db, Err(BadRequest))
            case Some(target) =>
              if key == "" then (db, Err(BadRequest))
              else if !Owns(c, key) then (db, Err(Forbidden))
              else if key !in db.links then (db, Err(NotFound))
              else
                var link := db.links[key];
                if target in db.targets && db.targets[target] != key then (db, Err(Conflict))
                else if link.target == target then (db, Ok(Entry(key, link)))
                else if !(0 < |target| <= 32768) then (db, Err(Internal))
                else
                  var moved := Link(target, link.rule, link.owner, link.createdAt, now);
                  (Db(db.links[key := moved], (db.targets - {link.target})[target := key]), Ok(Entry(key, moved)))
  {
  }

  /** Deletion: refused for no key or a foreign one, not found, or done. */
  lemma RemoveMeaning(db: Db, c: Client, key: string)
    requires db.Sound()
    ensures DoRemove(db, c, key, true) ==
            if key == "" then (db, Err(BadRequest))
            else if !Owns(c, key) then (db, Err(Forbidden))
            else if key !in db.links then (db, Err(NotFound))
            else (Db(db.links - {key}, db.targets - {db.links[key].target}), Ok(()))
  {
  }

  /** Batches of one to a hundred items are carried out. */
  lemma BatchSizes(svc: Service, db: Db, c: Client, items: seq<Item>, commits: bool)
    ensures var (d, r) := DoBatch(svc, db, c, items, commits);
            && (r == Err(BadRequest) <==> |items| == 0 || |items| > 100)
            && (r.Err? ==> d == db)
            && (commits && 0 < |items| <= 100 ==> r.Ok? && |r.value| == |items|)
  {
  }

  /** Item i of a batch is carried out on the store that the items before it left. */
  lemma {:induction false} BatchItemAt(svc: Service, db: Db, c: Client, items: seq<Item>, i: nat)
    requires i < |items|
    ensures var before := BatchAll(svc, db, c, items[..i]).0;
            && BatchAll(svc, db, c, items).1[i] == BatchStep(svc, before, c, items[i]).1
            && BatchAll(svc, db, c, items[..i + 1]).0 == BatchStep(svc, before, c, items[i]).0
    decreases |items|
  {
    if i == 0 {
      assert items[..1][1..] == [];
    } else {
      BatchItemAt(svc, BatchStep(svc, db, c, items[0]).0, c, items[1..], i - 1);
      assert items[..i][1..] == items[1..][..i - 1] && items[..i + 1][1..] == items[1..][..i];
    }
  }

  /** An item says created exactly if its link is new to the store. */
  lemma CreatedIff(svc: Service, db: Db, c: Client, item: Item)
    ensures var (d, r) := BatchStep(svc, db, c, item);
            r.created <==> r.link.Some? && r.link.value.key !in db.links && r.link.value.key in d.links
  {
  }

  /** Without its commit no request changes anything, and none says that it did. */
  lemma UncommittedChangesNothing(svc: Service, db: Db, c: Client, w: WriteRequest)
    requires !w.commits
    ensures Serve(svc, db, c, w) == db
  {
    if w.PostBatch? && !SomeRequest(svc, c, w.items) {
      UnrequestedChangesNothing(svc, db, c, w.items);
    }
  }

  lemma {:induction false} UnrequestedChangesNothing(svc: Service, db: Db, c: Client, items: seq<Item>)
    requires !SomeRequest(svc, c, items)
    ensures BatchAll(svc, db, c, items).0 == db
    decreases |items|
  {
    if items != [] {
      assert !Prepare(svc, items[0].seen, c, items[0]).Request?;
      forall i | 0 <= i < |items| - 1 ensures !Prepare(svc, items[1..][i].seen, c, items[1..][i]).Request? {
        assert items[1..][i] == items[i + 1];
      }
      UnrequestedChangesNothing(svc, db, c, items[1..]);
    }
  }

  lemma UncommittedAnswers(svc: Service, seen: Db, db: Db, c: Client, item: Item)
    ensures var (_, r) := DoPost(svc, seen, db, c, item, true);
            var (_, r') := DoPost(svc, seen, db, c, item, false);
            && (r.Err? ==> r' == r)
            && (r.Ok? && r.value.created ==> r' == Err(Internal))
  {
  }
}
