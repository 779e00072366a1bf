/** The link store: two buckets that must stay inverse to each other, and the
    write transactions that change them. */
module LinkStore {
  import opened Results
  import opened KeyOrder
  import opened KeyScan

  /** The largest key that a bbolt bucket accepts. */
  const MAX_KEY_SIZE := 32768

  /** Put refuses an empty key and one that is too large. */
  predicate Puttable(key: string) {
    0 < |key| <= MAX_KEY_SIZE
  }

  datatype Link = Link(target: string, rule: string, owner: string, createdAt: int, updatedAt: int)

  /** A link together with its bucket key, as the operations return it. */
  datatype Entry = Entry(key: string, link: Link)

  datatype Created = Created(entry: Entry, created: bool)

  /** Chooses a key; the argument tells which keys are free. */
  type KeyFunc = (string -> bool) -> Result<string>

  /** One creation, with the clock reading it is stamped with. */
  datatype CreateRequest = CreateRequest(
    target: string, rule: string, owner: string, explicitKey: string, gen: Option<KeyFunc>, now: int)

  /** One call of a write operation; commits says whether its commit succeeds. */
  datatype Op =
    | CreateOp(req: CreateRequest, commits: bool)
    | BatchOp(reqs: seq<CreateRequest>, commits: bool)
    | UpdateOp(key: string, target: string, now: int, commits: bool)
    | DeleteOp(key: string, commits: bool)

  /** The contents of the buckets. */
  datatype Db = Db(links: map<string, Link>, targets: map<string, string>) {

    predicate Free(key: string) {
      key !in links
    }

    function Resolve(target: string): Result<string> {
      if target in targets then Ok(targets[target]) else Err(NotFound)
    }

    function Get(key: string): Result<Entry> {
      if key in links then Ok(Entry(key, links[key])) else Err(NotFound)
    }

    /** The key that a request for a new target asks for. */
    function PickKey(req: CreateRequest): Result<string> {
      if req.explicitKey != "" then
        if Free(req.explicitKey) then Ok(req.explicitKey) else Err(Conflict)
      else if req.gen.None? then Err(Internal)
      else match req.gen.value(k => Free(k))
        case Err(e) => Err(e)
        case Ok(k) => if k == "" then Err(Internal) else if Free(k) then Ok(k) else Err(Conflict)
    }

    /** The body of a creation, inside a transaction that somebody else commits. */
    function CreateInTx(req: CreateRequest): (Db, Result<Created>) {
      if req.target in targets then
        var k := targets[req.target];
        if req.explicitKey != "" && req.explicitKey != k then (this, Err(Conflict))
        else if k !in links then (this, Err(Internal))
        else (this, Ok(Created(Entry(k, links[k]), false)))
      else match PickKey(req)
        case Err(e) => (this, Err(e))
        case Ok(k) =>
          var link := Link(req.target, req.rule, req.owner, req.now, req.now);
          if !Puttable(k) then (this, Err(Internal))
          else if !Puttable(req.target) then (this.(links := links[k := link]), Err(Internal))
          else (Db(links[k := link], targets[req.target := k]), Ok(Created(Entry(k, link), true)))
    }

    /** The creations of one batch, one after the other on the evolving buckets. */
    function CreateAll(reqs: seq<CreateRequest>): (r: (Db, seq<Result<Created>>))
      ensures |r.1| == |reqs|
      decreases |reqs|
    {
      if reqs == [] then (this, []) else
        var (d, first) := CreateInTx(reqs[0]);
        var (d', rest) := d.CreateAll(reqs[1..]);
        (d', [first] + rest)
    }

    function UpdateInTx(key: string, target: string, now: int): (Db, Result<Entry>) {
      if key !in links then (this, Err(NotFound))
      else if target in targets && targets[target] != key then (this, Err(Conflict))
      else if links[key].target == target then (this, Ok(Entry(key, links[key])))
      else if !Puttable(target) then (Db(links, targets - {links[key].target}), Err(Internal))
      else
        var link := links[key].(target := target, updatedAt := now);
        (Db(links[key := link], (targets - {links[key].target})[target := key]), Ok(Entry(key, link)))
    }

    function DeleteInTx(key: string): (Db, Result<()>) {
      if key !in links then (this, Err(NotFound))
      else (Db(links - {key}, targets - {links[key].target}), Ok(()))
    }

    /** A transaction leaves its effect only if its body succeeds and it commits. */
    function Commit<T>(commits: bool, tx: (Db, Result<T>)): (Db, Result<T>) {
      if tx.1.Err? then (this, tx.1) else if commits then tx else (this, Err(Internal))
    }

    function Apply(op: Op): Db {
      match op
      case CreateOp(req, commits) => Commit(commits, CreateInTx(req)).0
      case BatchOp(reqs, commits) => if commits then CreateAll(reqs).0 else this
      case UpdateOp(key, target, now, commits) => Commit(commits, UpdateInTx(key, target, now)).0
      case DeleteOp(key, commits) => Commit(commits, DeleteInTx(key)).0
    }

    function Run(ops: seq<Op>): Db
      decreases |ops|
    {
      if ops == [] then this else Apply(ops[0]).Run(ops[1..])
    }

    /** targets[t] == k exactly when links[k].target == t. */
    predicate Inverse() {
      (forall k :: k in links ==> links[k].target in targets && targets[links[k].target] == k) &&
      (forall t :: t in targets ==> targets[t] in links && links[targets[t]].target == t)
    }

    /** The invariant of the service: inverse buckets, holding keys bbolt accepts. */
    predicate Sound() {
      Inverse() && (forall k :: k in links ==> Puttable(k)) && (forall t :: t in targets ==> Puttable(t))
    }
  }

  /** The page size that List uses for a requested one. */
  function PageSize(limit: int): (n: nat)
    ensures 0 < n <= 1000
  {
    if limit <= 0 then 100 else if limit > 1000 then 1000 else limit
  }

  function Keys(entries: seq<Entry>): (keys: seq<string>)
    ensures |keys| == |entries|
  {
    seq(|entries|, i requires 0 <= i < |entries| => entries[i].key)
  }

  const SCHEMA_VERSION := 1

  /** A database file: the stored schema version, as the bytes of the record, and
      the two buckets, as far as they exist. */
  datatype BoltFile = BoltFile(
    schema: Option<seq<nat>>, links: Option<map<string, Link>>, targets: Option<map<string, string>>)
  {
    /** The version in big-endian order. */
    function Version(): int
      requires schema.Some? && |schema.value| == 4
    {
      var b := schema.value;
      ((b[0] * 256 + b[1]) * 256 + b[2]) * 256 + b[3]
    }

    /** Neither corrupt nor of a newer version than supported. */
    predicate Readable() {
      schema.None? || (|schema.value| == 4 && Version() <= SCHEMA_VERSION)
    }
  }

  /** The store object; the buckets are its only state. */
  class BoltStore {
    var links: map<string, Link>
    var targets: map<string, string>

    function Contents(): Db
      reads this
    {
      Db(links, targets)
    }

    constructor (db: Db)
      ensures Contents() == db
    {
      links, targets := db.links, db.targets;
    }

    /** OpenBoltStore: missing buckets are created empty, and a file without version
        gets the current one; a corrupt or newer file is refused and stays as it is. */
    static method Open(file: BoltFile) returns (r: Result<BoltStore>, after: BoltFile)
      ensures r.Ok? <==> file.Readable()
      ensures r.Ok? ==>
                var links := if file.links.Some? then file.links.value else map[];
                var targets := if file.targets.Some? then file.targets.value else map[];
                var schema := if file.schema.Some? then file.schema.value else [0, 0, 0, SCHEMA_VERSION];
                && fresh(r.value) && r.value.Contents() == Db(links, targets)
                && after == BoltFile(Some(schema), Some(links), Some(targets))
      ensures r.Err? ==> after == file
      ensures after.Readable() <==> file.Readable()
    {
      var ready := file;
      if ready.links.None? {
        ready := ready.(links := Some(map[]));
      }
      if ready.targets.None? {
        ready := ready.(targets := Some(map[]));
      }
      if ready.schema.None? {
        ready := ready.(schema := Some([0, 0, 0, SCHEMA_VERSION]));
      } else if |ready.schema.value| != 4 {
        return Err(Internal), file;
      } else if ready.Version() > SCHEMA_VERSION {
        return Err(Internal), file;
      }
      var store := new BoltStore(Db(ready.links.value, ready.targets.value));
      return Ok(store), ready;
    }

    method Resolve(target: string) returns (r: Result<string>)
      ensures r == Contents().Resolve(target)
    {
      if target !in targets {
        return Err(NotFound);
      }
      return Ok(targets[target]);
    }

    method Get(key: string) returns (r: Result<Entry>)
      ensures r == Contents().Get(key)
    {
      if key !in links {
        return Err(NotFound);
      }
      return Ok(Entry(key, links[key]));
    }

    method CreateInTx(req: CreateRequest) returns (r: Result<Created>)
      modifies this
      ensures (Contents(), r) == old(Contents()).CreateInTx(req)
    {
      if req.target in targets {
        var k := targets[req.target];
        if req.explicitKey != "" && req.explicitKey != k {
          return Err(Conflict);
        }
        if k !in links {
          return Err(Internal);
        }
        return Ok(Created(Entry(k, links[k]), false));
      }

      var key: string;
      if req.explicitKey != "" {
        if req.explicitKey in links {
          return Err(Conflict);
        }
        key := req.explicitKey;
      } else {
        if req.gen.None? {
          return Err(Internal);
        }
        var db := Contents();
        var picked := req.gen.value(k => db.Free(k));
        if picked.Err? {
          return Err(picked.error);
        }
        if picked.value == "" {
          return Err(Internal);
        }
        if picked.value in links {
          return Err(Conflict);
        }
        key := picked.value;
      }

      var link := Link(req.target, req.rule, req.owner, req.now, req.now);
      if !Puttable(key) {
        return Err(Internal);
      }
      links := links[key := link];
      if !Puttable(req.target) {
        return Err(Internal);
      }
      targets := targets[req.target := key];
      return Ok(Created(Entry(key, link), true));
    }

    method Create(req: CreateRequest, commits: bool) returns (r: Result<Created>)
      modifies this
      ensures Contents() == old(Contents()).Apply(CreateOp(req, commits))
      ensures r == old(Contents()).Commit(commits, old(Contents()).CreateInTx(req)).1
    {
      var before := Contents();
      r := CreateInTx(req);
      if r.Ok? && !commits {
        r := Err(Internal);
      }
      if r.Err? {
        links, targets := before.links, before.targets;
      }
    }

    /** A failing item does not undo the transaction: its error only goes into
        its own result. */
    method CreateBatch(reqs: seq<CreateRequest>, commits: bool) returns (r: Result<seq<Result<Created>>>)
      modifies this
      ensures Contents() == old(Contents()).Apply(BatchOp(reqs, commits))
      ensures r == if commits || reqs == [] then Ok(old(Contents()).CreateAll(reqs).1) else Err(Internal)
    {
      var before := Contents();
      if reqs == [] {
        return Ok([]);
      }
      var results := [];
      assert reqs[0..] == reqs;
      assert results + before.CreateAll(reqs).1 == before.CreateAll(reqs).1;
      for i := 0 to |reqs|
        invariant |results| == i
        invariant var rest := Contents().CreateAll(reqs[i..]);
                  before.CreateAll(reqs) == (rest.0, results + rest.1)
      {
        var now := Contents();
        var one := CreateInTx(reqs[i]);
        assert reqs[i..][1..] == reqs[i + 1..];
        assert results + now.CreateAll(reqs[i..]).1
            == results + [one] + Contents().CreateAll(reqs[i + 1..]).1;
        results := results + [one];
      }
      assert reqs[|reqs|..] == [] && results + [] == results;
      if !commits {
        links, targets := before.links, before.targets;
        return Err(Internal);
      }
      return Ok(results);
    }

    method Update(key: string, target: string, now: int, commits: bool) returns (r: Result<Entry>)
      modifies this
      ensures Contents() == old(Contents()).Apply(UpdateOp(key, target, now, commits))
      ensures r == old(Contents()).Commit(commits, old(Contents()).UpdateInTx(key, target, now)).1
    {
      var before := Contents();
      if key !in links {
        return Err(NotFound);
      }
      var link := links[key];
      if target in targets && targets[target] != key {
        return Err(Conflict);
      }
      if link.target != target {
        targets := targets - {link.target};
        if !Puttable(target) {
          targets := before.targets;
          return Err(Internal);
        }
        targets := targets[target := key];
        link := link.(target := target, updatedAt := now);
        links := links[key := link];
      }
      if !commits {
        links, targets := before.links, before.targets;
        return Err(Internal);
      }
      return Ok(Entry(key, link));
    }

    method Delete(key: string, commits: bool) returns (r: Result<()>)
      modifies this
      ensures Contents() == old(Contents()).Apply(DeleteOp(key, commits))
      ensures r == old(Contents()).Commit(commits, old(Contents()).DeleteInTx(key)).1
    {
      var before := Contents();
      if key !in links {
        return Err(NotFound);
      }
      targets := targets - {links[key].target};
      links := links - {key};
      if !commits {
        links, targets := before.links, before.targets;
        return Err(Internal);
      }
      return Ok(());
    }

    /** The scan loop of List, from a cursor position on. */
    method ScanLinks(s: seq<string>, start: nat, prefix: string, size: nat) returns (page: seq<Entry>, next: string)
      requires start <= |s| && size > 0 && forall k :: k in s ==> k in links
      ensures StopsWith(s, start, RunEnd(s, prefix, start), size, Keys(page), next)
      ensures forall e :: e in page ==> e.key in links && e.link == links[e.key]
    {
      var i := start;
      page, next := [], "";
      while i < |s| && prefix <= s[i]
        invariant start <= i <= RunEnd(s, prefix, start)
        invariant |page| == i - start < size && next == ""
        invariant Keys(page) == s[start..i]
        invariant forall e :: e in page ==> e.key in links && e.link == links[e.key]
      {
        assert s[start..i + 1] == s[start..i] + [s[i]];
        assert Keys(page + [Entry(s[i], links[s[i]])]) == Keys(page) + [s[i]];
        page := page + [Entry(s[i], links[s[i]])];
        if |page| >= size {
          next := s[i];
          break;
        }
        i := i + 1;
      }
    }

    /** One page of the links with a prefix, and the cursor for the next one. */
    method List(prefix: string, limit: int, cursor: string) returns (page: seq<Entry>, next: string)
      ensures (Keys(page), next) == FirstPage(Scan(links.Keys, prefix, cursor), PageSize(limit))
      ensures forall e :: e in page ==> e.key in links && e.link == links[e.key]
      ensures var size := if limit <= 0 then 100 else if limit > 1000 then 1000 else limit;
              var found := |Scan(links.Keys, prefix, cursor)|;
              |page| == if found < size then found else size
    {
      var s := SortedSeq(links.Keys);
      var start := Start(s, prefix, cursor);
      page, next := ScanLinks(s, start, prefix, PageSize(limit));
      PageOfRun(links.Keys, prefix, cursor, PageSize(limit), Keys(page), next);
      PageLength(Scan(links.Keys, prefix, cursor), PageSize(limit));
    }

    /** The counting loop of CountPrefix, from a cursor position on. */
    method CountRun(s: seq<string>, start: nat, prefix: string) returns (n: nat)
      requires start <= |s|
      ensures start + n == RunEnd(s, prefix, start)
    {
      var i := start;
      n := 0;
      while i < |s| && prefix <= s[i]
        invariant start <= i <= RunEnd(s, prefix, start) && n == i - start
      {
        n := n + 1;
        i := i + 1;
      }
    }

    method CountPrefix(prefix: string) returns (n: nat)
      ensures n == |Matching(links.Keys, prefix, "")|
    {
      var s := SortedSeq(links.Keys);
      n := CountRun(s, Start(s, prefix, ""), prefix);
      RunLength(links.Keys, prefix);
    }
  }
}
