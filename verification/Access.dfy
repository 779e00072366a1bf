/** Clients, their namespaces, and what one authenticated request does to the
    store. Reading a request, rate limits and HTTP are not part of this model. */
module Access {
  import opened Results
  import opened LinkStore
  import opened KeyRules

  datatype Client = Client(name: string, isAdmin: bool, namespaces: seq<string>) {

    predicate CanAccess(key: string) {
      isAdmin || exists i :: 0 <= i < |namespaces| && namespaces[i] <= key
    }

    /** Where a random key goes; "" when the client has no namespace. */
    function FirstNamespace(): string {
      if namespaces != [] then namespaces[0] else if isAdmin then "/" else ""
    }
  }

  method CheckAccess(c: Client, key: string) returns (ok: bool)
    ensures ok <==> c.CanAccess(key)
    ensures ok <==> c.isAdmin || exists i :: 0 <= i < |c.namespaces| && c.namespaces[i] <= key
  {
    if c.isAdmin {
      return true;
    }
    for i := 0 to |c.namespaces|
      invariant forall j :: 0 <= j < i ==> !(c.namespaces[j] <= key)
    {
      if c.namespaces[i] <= key {
        return true;
      }
    }
    return false;
  }

  /** The configuration that creation consults: canonicalizeTarget as an
      arbitrary partial function, and the ordered rules. */
  datatype Service = Service(canonicalize: string -> Option<string>, rules: seq<Rule>)

  /** One creation as a client sends it, with what its preparation and its key get
      to see: the random ids, the clock reading, and the store - the index bucket
      when Resolve reads it, the links when Get does, both perhaps outdated when
      the request is carried out. */
  datatype Item = Item(target: string, key: string, ids: seq<string>, now: int, seen: Db)

  datatype Prepared =
    | Rejected(error: Error)
    | Existing(entry: Entry)
    | Request(req: CreateRequest)

  function RandomGen(namespace: string, ids: seq<string>): KeyFunc {
    (isFree: string -> bool) => RandomKeyFor(namespace, ids, isFree)
  }

  function NamespacedRuleGen(c: Client, rule: Rule, vars: map<string, string>): KeyFunc {
    (isFree: string -> bool) =>
      match rule.KeyFor(vars, isFree)
      case Err(e) => Err(e)
      case Ok(key) => if c.CanAccess(key) then Ok(key) else Err(Forbidden)
  }

  /** prepareCreate: validates one creation against the store it sees, and
      decides how the key will be chosen. */
  function Prepare(svc: Service, db: Db, c: Client, item: Item): Prepared {
    match svc.canonicalize(item.target)
    case None => Rejected(BadRequest)
    case Some(target) =>
      if item.key != "" then
        if !ValidKey(item.key) then Rejected(BadRequest)
        else if !c.CanAccess(item.key) then Rejected(Forbidden)
        else Request(CreateRequest(target, "", c.name, item.key, None, item.now))
      else if db.Resolve(target).Ok? && db.Get(db.Resolve(target).value).Ok? then
        Existing(db.Get(db.Resolve(target).value).value)
      else match FirstMatch(svc.rules, target)
        case None =>
          if c.FirstNamespace() == "" then Rejected(BadRequest)
          else Request(CreateRequest(target, "", c.name, "", Some(RandomGen(c.FirstNamespace(), item.ids)), item.now))
        case Some((rule, vars)) =>
          match rule.Render(vars)
          case Err(_) => Rejected(Internal)
          case Ok(full) =>
            if !c.CanAccess(full) then Rejected(Forbidden)
            else Request(CreateRequest(target, rule.name, c.name, "", Some(NamespacedRuleGen(c, rule, vars)), item.now))
  }

  /** One line of a batch answer. */
  datatype ItemResult = ItemResult(target: string, created: bool, link: Option<Entry>, error: Option<Error>)

  function Refused(item: Item, e: Error): ItemResult {
    ItemResult(item.target, false, None, Some(e))
  }

  function Answer(item: Item, r: Result<Created>): ItemResult {
    match r
    case Err(e) => Refused(item, e)
    case Ok(Created(entry, created)) => ItemResult(item.target, created, Some(entry), None)
  }

  /** One item of a batch: prepared on the store that it saw at first, carried out on
      the store its predecessors left. */
  function BatchStep(svc: Service, db: Db, c: Client, item: Item): (Db, ItemResult) {
    match Prepare(svc, item.seen, c, item)
    case Rejected(e) => (db, Refused(item, e))
    case Existing(entry) => (db, ItemResult(item.target, false, Some(entry), None))
    case Request(req) => (db.CreateInTx(req).0, Answer(item, db.CreateInTx(req).1))
  }

  function BatchAll(svc: Service, db: Db, c: Client, items: seq<Item>): (r: (Db, seq<ItemResult>))
    ensures |r.1| == |items|
    decreases |items|
  {
    if items == [] then (db, []) else
      var (d, first) := BatchStep(svc, db, c, items[0]);
      var (d', rest) := BatchAll(svc, d, c, items[1..]);
      (d', [first] + rest)
  }

  /** A request that can change the store; commits says whether the transaction's
      commit succeeds. */
  datatype WriteRequest =
    | Post(item: Item, commits: bool)
    | PostBatch(items: seq<Item>, commits: bool)
    | Put(key: string, target: string, now: int, commits: bool)
    | Remove(key: string, commits: bool)

  const MAX_BATCH := 100

  /** A single request; seen is the store its preparation reads. */
  function DoPost(svc: Service, seen: Db, db: Db, c: Client, item: Item, commits: bool): (Db, Result<Created>) {
    match Prepare(svc, seen, c, item)
    case Rejected(e) => (db, Err(e))
    case Existing(entry) => (db, Ok(Created(entry, false)))
    case Request(req) => db.Commit(commits, db.CreateInTx(req))
  }

  predicate SomeRequest(svc: Service, c: Client, items: seq<Item>) {
    exists i :: 0 <= i < |items| && Prepare(svc, items[i].seen, c, items[i]).Request?
  }

  function DoBatch(
    svc: Service, db: Db, c: Client, items: seq<Item>, commits: bool): (Db, Result<seq<ItemResult>>)
  {
    if items == [] || |items| > MAX_BATCH then (db, Err(BadRequest))
    else if !commits && SomeRequest(svc, c, items) then (db, Err(Internal))
    else (BatchAll(svc, db, c, items).0, Ok(BatchAll(svc, db, c, items).1))
  }

  function DoPut(
    svc: Service, db: Db, c: Client, key: string, raw: string, now: int, commits: bool): (Db, Result<Entry>)
  {
    match svc.canonicalize(raw)
    case None => (db, Err(BadRequest))
    case Some(target) =>
      if key == "" then (db, Err(BadRequest))
      else if !c.CanAccess(key) then (db, Err(Forbidden))
      else db.Commit(commits, db.UpdateInTx(key, target, now))
  }

  function DoRemove(db: Db, c: Client, key: string, commits: bool): (Db, Result<()>) {
    if key == "" then (db, Err(BadRequest))
    else if !c.CanAccess(key) then (db, Err(Forbidden))
    else db.Commit(commits, db.DeleteInTx(key))
  }

  /** The store after a request. */
  function Serve(svc: Service, db: Db, c: Client, w: WriteRequest): Db {
    match w
    case Post(item, commits) => DoPost(svc, item.seen, db, c, item, commits).0
    case PostBatch(items, commits) => DoBatch(svc, db, c, items, commits).0
    case Put(key, target, now, commits) => DoPut(svc, db, c, key, target, now, commits).0
    case Remove(key, commits) => DoRemove(db, c, key, commits).0
  }

  datatype Visit = Visit(client: Client, w: WriteRequest)

  function Run(svc: Service, db: Db, visits: seq<Visit>): Db
    decreases |visits|
  {
    if visits == [] then db
    else Run(svc, Serve(svc, db, visits[0].client, visits[0].w), visits[1..])
  }
}
