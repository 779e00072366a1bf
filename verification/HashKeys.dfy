/** A hash rule over the life of the store: new links get the shortest free
    prefix, and different hashes never conflict. */
module HashKeys {
  import opened Results
  import opened LinkStore
  import opened KeyRules
  import opened Access

  /** The keys that a rule can make for one setting of its other groups: the raw
      hash, cut to some length, between a fixed prefix and suffix. All hashes
      have the same size, and no key uses fewer than minlen characters, which is the
      configured minimum or the whole hash. */
  datatype Space = Space(prefix: string, suffix: string, size: nat, minlen: nat) {

    predicate Contains(key: string) {
      |key| >= |prefix| + |suffix| && prefix <= key && key[|key| - |suffix|..] == suffix
    }

    function Key(part: string): (key: string)
      ensures Contains(key)
    {
      prefix + part + suffix
    }

    function Middle(key: string): (part: string)
      requires Contains(key)
      ensures Key(part) == key
    {
      key[|prefix|..|key| - |suffix|]
    }

    lemma MiddleOfKey(part: string)
      ensures Middle(Key(part)) == part
    {
    }

    /** key is a prefix of hash that the rule may have chosen. */
    predicate MadeFrom(key: string, hash: string) {
      Contains(key) && |hash| == size && minlen <= |Middle(key)| && Middle(key) <= hash
    }

    /** made records, for each stored key of the space, the hash it came from. */
    predicate Holds(db: Db, made: map<string, string>) {
      (forall k :: k in db.links && Contains(k) ==> k in made) &&
      (forall k :: k in made ==> k in db.links && MadeFrom(k, made[k]))
    }

    /** The request asks rule for a key, and its template puts the hash unmodified
        between the prefix and the suffix. */
    ghost predicate Asks(rule: Rule, vars: map<string, string>, hash: string) {
      rule.hash != "" && rule.hash in vars && vars[rule.hash] == hash &&
      |hash| == size && minlen == (if rule.hashMinlen > size then size else rule.hashMinlen) &&
      forall l :: 0 <= l <= size ==> rule.template(vars[rule.hash := hash[..l]]) == Some(Key(hash[..l]))
    }
  }

  /** The store request that the preparation of an item for a hash rule builds. */
  function HashRequest(c: Client, rule: Rule, vars: map<string, string>, target: string, now: int): CreateRequest {
    CreateRequest(target, rule.name, c.name, "", Some(NamespacedRuleGen(c, rule, vars)), now)
  }

  lemma PreparedHashRequest(svc: Service, seen: Db, c: Client, item: Item)
    requires Prepare(svc, seen, c, item).Request? && item.key == ""
    requires var target := svc.canonicalize(item.target).value; FirstMatch(svc.rules, target).Some?
    ensures var target := svc.canonicalize(item.target).value;
            var (rule, vars) := FirstMatch(svc.rules, target).value;
            Prepare(svc, seen, c, item).req == HashRequest(c, rule, vars, target, item.now)
  {
  }

  /** A creation that never stores a key of the space. */
  ghost predicate Elsewhere(sp: Space, req: CreateRequest) {
    !sp.Contains(req.explicitKey) &&
    (req.gen.Some? ==> forall free :: req.gen.value(free).Ok? ==> !sp.Contains(req.gen.value(free).value))
  }

  /** Of the prefixes of hash that are long enough, the one of length l is the
      shortest whose key is free. */
  predicate ShortestFree(sp: Space, hash: string, isFree: string -> bool, l: nat) {
    && sp.minlen <= l <= sp.size == |hash| && isFree(sp.Key(hash[..l]))
    && forall m :: sp.minlen <= m < l ==> !isFree(sp.Key(hash[..m]))
  }

  predicate AllTaken(sp: Space, hash: string, isFree: string -> bool) {
    sp.size == |hash| && forall l :: sp.minlen <= l <= sp.size ==> !isFree(sp.Key(hash[..l]))
  }

  /** The extension stops at length l, because that key is not valid. */
  predicate FirstInvalid(sp: Space, hash: string, isFree: string -> bool, l: nat) {
    && sp.minlen <= l <= sp.size == |hash| && !ValidKey(sp.Key(hash[..l]))
    && forall m :: sp.minlen <= m < l ==> ValidKey(sp.Key(hash[..m])) && !isFree(sp.Key(hash[..m]))
  }

  lemma CandidateOfSpace(sp: Space, rule: Rule, vars: map<string, string>, hash: string, l: nat)
    requires sp.Asks(rule, vars, hash) && l <= sp.size
    ensures rule.Candidate(vars, l) == if ValidKey(sp.Key(hash[..l])) then Ok(sp.Key(hash[..l])) else Err(Internal)
  {
  }

  lemma ShortestFreeKey(sp: Space, rule: Rule, vars: map<string, string>, hash: string, isFree: string -> bool)
    requires sp.Asks(rule, vars, hash) && hash != ""
    ensures match rule.KeyFor(vars, isFree)
            case Ok(key) => exists l: nat :: ShortestFree(sp, hash, isFree, l) && key == sp.Key(hash[..l])
            case Err(e) => if e == Conflict then AllTaken(sp, hash, isFree)
                           else e == Internal && exists l: nat :: FirstInvalid(sp, hash, isFree, l)
  {
    var r := rule.KeyFor(vars, isFree);
    ExtendMeaning(rule, vars, isFree, sp.minlen);
    if r == Err(Conflict) {
      TakenUpTo(sp, rule, vars, hash, isFree, sp.size + 1);
    } else {
      var m :| && sp.minlen <= m <= sp.size
               && (forall j :: sp.minlen <= j < m ==> Taken(rule, vars, isFree, j))
               && !Taken(rule, vars, isFree, m) && r == rule.Candidate(vars, m);
      CandidateOfSpace(sp, rule, vars, hash, m);
      TakenUpTo(sp, rule, vars, hash, isFree, m);
      assert if r.Ok? then ShortestFree(sp, hash, isFree, m) else FirstInvalid(sp, hash, isFree, m);
    }
  }

  lemma TakenUpTo(sp: Space, rule: Rule, vars: map<string, string>, hash: string, isFree: string -> bool, m: nat)
    requires sp.Asks(rule, vars, hash) && m <= sp.size + 1
    requires forall j :: sp.minlen <= j < m ==> Taken(rule, vars, isFree, j)
    ensures forall j :: sp.minlen <= j < m ==> ValidKey(sp.Key(hash[..j])) && !isFree(sp.Key(hash[..j]))
  {
    forall j | sp.minlen <= j < m ensures ValidKey(sp.Key(hash[..j])) && !isFree(sp.Key(hash[..j])) {
      CandidateOfSpace(sp, rule, vars, hash, j);
      assert Taken(rule, vars, isFree, j);
    }
  }

  /** For a new target, the request that was prepared for a hash rule creates the
      link under the shortest free prefix of at least the minimum length, if the
      client may access it. Otherwise the error tells why: all lengths are taken;
      the shortest free key is not accessible; there is no hash, a target that the
      bucket refuses, or a key that is not valid before any free one. */
  lemma NewLinkGetsShortestFreePrefix(
    sp: Space, db: Db, c: Client, rule: Rule, vars: map<string, string>, hash: string, target: string, now: int)
    requires sp.Asks(rule, vars, hash) && target !in db.targets
    ensures var free := (k: string) => db.Free(k);
            match db.CreateInTx(HashRequest(c, rule, vars, target, now)).1
            case Ok(r) =>
              && c.CanAccess(r.entry.key)
              && exists l: nat :: ShortestFree(sp, hash, free, l) && r.entry.key == sp.Key(hash[..l])
            case Err(e) =>
              if e == Conflict then AllTaken(sp, hash, free)
              else if e == Forbidden then
                exists l: nat :: ShortestFree(sp, hash, free, l) && !c.CanAccess(sp.Key(hash[..l]))
              else e == Internal &&
                   (hash == "" || !Puttable(target) || exists l: nat :: FirstInvalid(sp, hash, free, l))
  {
    var free := (k: string) => db.Free(k);
    KeyForIsFree(rule, vars, free);
    PickedByRule(db, c, rule, vars, target, now);
    if hash != "" {
      ShortestFreeKey(sp, rule, vars, hash, free);
    }
  }

  /** The key that is picked for such a request. */
  lemma PickedByRule(db: Db, c: Client, rule: Rule, vars: map<string, string>, target: string, now: int)
    ensures db.PickKey(HashRequest(c, rule, vars, target, now))
         == match rule.KeyFor(vars, k => db.Free(k))
            case Err(e) => Err(e)
            case Ok(key) => if c.CanAccess(key) then Ok(key) else Err(Forbidden)
  {
    KeyForIsFree(rule, vars, k => db.Free(k));
  }

  /** Distinct hashes never exhaust each other's prefixes: a conflict means that
      a link made from the very same hash is still stored. */
  lemma ConflictMeansSameHashStored(
    sp: Space, db: Db, made: map<string, string>, c: Client,
    rule: Rule, vars: map<string, string>, hash: string, target: string, now: int)
    requires sp.Holds(db, made) && sp.Asks(rule, vars, hash) && target !in db.targets
    requires db.CreateInTx(HashRequest(c, rule, vars, target, now)).1 == Err(Conflict)
    ensures exists k :: k in made && made[k] == hash
  {
    PickedByRule(db, c, rule, vars, target, now);
    ShortestFreeKey(sp, rule, vars, hash, k => db.Free(k));
    var full := sp.Key(hash[..sp.size]);
    assert full in db.links && hash[..sp.size] == hash;
    sp.MiddleOfKey(hash);
    assert made[full] == hash;
  }

  /** A creation request: one for the rule, with its hash, or any other. */
  datatype Ask =
    | Hashed(client: Client, rule: Rule, vars: map<string, string>, hash: string, target: string, now: int)
    | Other(request: CreateRequest)

  function RequestOf(ask: Ask): CreateRequest {
    match ask
    case Hashed(c, rule, vars, _, target, now) => HashRequest(c, rule, vars, target, now)
    case Other(req) => req
  }

  function RequestsOf(asks: seq<Ask>): (reqs: seq<CreateRequest>)
    ensures |reqs| == |asks|
  {
    if asks == [] then [] else [RequestOf(asks[0])] + RequestsOf(asks[1..])
  }

  /** Any write transaction; commits says whether its commit succeeds. */
  datatype Tx =
    | Create(ask: Ask, commits: bool)
    | CreateBatch(asks: seq<Ask>, commits: bool)
    | Retarget(key: string, target: string, at: int, commits: bool)
    | Remove(key: string, commits: bool)

  function OpOf(tx: Tx): Op {
    match tx
    case Create(ask, commits) => CreateOp(RequestOf(ask), commits)
    case CreateBatch(asks, commits) => BatchOp(RequestsOf(asks), commits)
    case Retarget(key, target, at, commits) => UpdateOp(key, target, at, commits)
    case Remove(key, commits) => DeleteOp(key, commits)
  }

  ghost predicate LegalAsk(sp: Space, ask: Ask) {
    match ask
    case Hashed(_, rule, vars, hash, _, _) => sp.Asks(rule, vars, hash)
    case Other(req) => Elsewhere(sp, req)
  }

  /** Requests to the rule are of the space; nobody else stores keys of it. */
  ghost predicate Legal(sp: Space, tx: Tx) {
    match tx
    case Create(ask, _) => LegalAsk(sp, ask)
    case CreateBatch(asks, _) => forall ask :: ask in asks ==> LegalAsk(sp, ask)
    case Retarget(_, _, _, _) => true
    case Remove(_, _) => true
  }

  /** The record after a creation: a new key of the space came from its hash. */
  function Recorded(sp: Space, after: Db, made: map<string, string>, ask: Ask): map<string, string> {
    if ask.Hashed? then map k | k in after.links && sp.Contains(k) :: if k in made then made[k] else ask.hash
    else made
  }

  function RecordedAll(sp: Space, db: Db, made: map<string, string>, asks: seq<Ask>): map<string, string>
    decreases |asks|
  {
    if asks == [] then made else
      var after := db.CreateInTx(RequestOf(asks[0])).0;
      RecordedAll(sp, after, Recorded(sp, after, made, asks[0]), asks[1..])
  }

  function RecordedBy(sp: Space, db: Db, made: map<string, string>, tx: Tx): map<string, string> {
    match tx
    case Create(ask, _) => Recorded(sp, db.Apply(OpOf(tx)), made, ask)
    case CreateBatch(asks, commits) => if commits then RecordedAll(sp, db, made, asks) else made
    case Retarget(_, _, _, _) => made
    case Remove(key, commits) => if commits then made - {key} else made
  }

  function Run(sp: Space, db: Db, made: map<string, string>, txs: seq<Tx>): (Db, map<string, string>)
    decreases |txs|
  {
    if txs == [] then (db, made)
    else Run(sp, db.Apply(OpOf(txs[0])), RecordedBy(sp, db, made, txs[0]), txs[1..])
  }

  /** The only key that a request to the rule can add is made from its hash. */
  lemma MakeAddsOwnKey(
    sp: Space, db: Db, c: Client, rule: Rule, vars: map<string, string>, hash: string, target: string, now: int,
    key: string)
    requires sp.Asks(rule, vars, hash) && key !in db.links
    requires key in db.CreateInTx(HashRequest(c, rule, vars, target, now)).0.links
    ensures sp.MadeFrom(key, hash)
  {
    var free := (k: string) => db.Free(k);
    PickedByRule(db, c, rule, vars, target, now);
    assert rule.KeyFor(vars, free) == Ok(key);
    ShortestFreeKey(sp, rule, vars, hash, free);
    var l: nat :| ShortestFree(sp, hash, free, l) && key == sp.Key(hash[..l]);
    sp.MiddleOfKey(hash[..l]);
  }

  lemma AskHolds(sp: Space, db: Db, made: map<string, string>, ask: Ask)
    requires sp.Holds(db, made) && LegalAsk(sp, ask)
    ensures var after := db.CreateInTx(RequestOf(ask)).0; sp.Holds(after, Recorded(sp, after, made, ask))
  {
    CreationAddsAtMostOne(db, RequestOf(ask));
    if ask.Hashed? {
      var after := db.CreateInTx(RequestOf(ask)).0;
      forall k | k in after.links && sp.Contains(k) && k !in made ensures sp.MadeFrom(k, ask.hash) {
        MakeAddsOwnKey(sp, db, ask.client, ask.rule, ask.vars, ask.hash, ask.target, ask.now, k);
      }
    }
  }

  lemma {:induction false} AsksHold(sp: Space, db: Db, made: map<string, string>, asks: seq<Ask>)
    requires sp.Holds(db, made) && forall ask :: ask in asks ==> LegalAsk(sp, ask)
    ensures sp.Holds(db.CreateAll(RequestsOf(asks)).0, RecordedAll(sp, db, made, asks))
    decreases |asks|
  {
    if asks != [] {
      var after := db.CreateInTx(RequestOf(asks[0])).0;
      AskHolds(sp, db, made, asks[0]);
      AsksHold(sp, after, Recorded(sp, after, made, asks[0]), asks[1..]);
      assert RequestsOf(asks)[1..] == RequestsOf(asks[1..]);
    }
  }

  lemma TxHolds(sp: Space, db: Db, made: map<string, string>, tx: Tx)
    requires sp.Holds(db, made) && Legal(sp, tx)
    ensures sp.Holds(db.Apply(OpOf(tx)), RecordedBy(sp, db, made, tx))
  {
    match tx
    case Create(ask, commits) =>
      AskHolds(sp, db, made, ask);
      Unrecorded(sp, db, made, ask);
    case CreateBatch(asks, commits) => AsksHold(sp, db, made, asks);
    case Retarget(_, _, _, _) =>
    case Remove(_, _) =>
  }

  /** A creation that leaves no effect leaves the record. */
  lemma Unrecorded(sp: Space, db: Db, made: map<string, string>, ask: Ask)
    requires sp.Holds(db, made)
    ensures Recorded(sp, db, made, ask) == made
  {
  }

  /** A creation leaves every link as it is and adds none but the one it picked. */
  lemma CreationAddsAtMostOne(db: Db, req: CreateRequest)
    ensures var d := db.CreateInTx(req).0;
            && (forall k :: k in db.links ==> k in d.links && d.links[k] == db.links[k])
            && (forall k :: k in d.links && k !in db.links ==> db.PickKey(req) == Ok(k))
  {
  }

  /** Over every run of transactions, batches and failing commits included, in
      which nobody else stores keys of the space, it holds only keys made by the
      rule. */
  lemma {:induction false} RunHolds(sp: Space, db: Db, made: map<string, string>, txs: seq<Tx>)
    requires sp.Holds(db, made) && forall i :: 0 <= i < |txs| ==> Legal(sp, txs[i])
    ensures var (d, m) := Run(sp, db, made, txs); sp.Holds(d, m)
    decreases |txs|
  {
    if txs != [] {
      TxHolds(sp, db, made, txs[0]);
      RunHolds(sp, db.Apply(OpOf(txs[0])), RecordedBy(sp, db, made, txs[0]), txs[1..]);
    }
  }

  /** Whatever happened before, a new target whose hash is not stored at that
      moment never gets a conflict from the request that is prepared for it. */
  lemma UnstoredHashNeverConflicts(
    sp: Space, txs: seq<Tx>, svc: Service, seen: Db, c: Client, item: Item, hash: string)
    requires forall i :: 0 <= i < |txs| ==> Legal(sp, txs[i])
    requires Prepare(svc, seen, c, item).Request? && item.key == ""
    requires var target := svc.canonicalize(item.target).value;
             && FirstMatch(svc.rules, target).Some?
             && var (rule, vars) := FirstMatch(svc.rules, target).value; sp.Asks(rule, vars, hash)
    ensures var req := Prepare(svc, seen, c, item).req;
            var (db, made) := Run(sp, Db(map[], map[]), map[], txs);
            req.target !in db.targets && (forall k :: k in made ==> made[k] != hash) ==>
              db.CreateInTx(req).1 != Err(Conflict)
  {
    RunHolds(sp, Db(map[], map[]), map[], txs);
    PreparedHashRequest(svc, seen, c, item);
    var target := svc.canonicalize(item.target).value;
    var (rule, vars) := FirstMatch(svc.rules, target).value;
    var (db, made) := Run(sp, Db(map[], map[]), map[], txs);
    if target !in db.targets && db.CreateInTx(Prepare(svc, seen, c, item).req).1 == Err(Conflict) {
      ConflictMeansSameHashStored(sp, db, made, c, rule, vars, hash, target, item.now);
    }
  }
}
