/** What every write operation keeps, and what it does to single links. */
module LinkInvariants {
  import opened Results
  import opened LinkStore

  /** The one way a creation writes only one of its two records: the key is
      picked and accepted, and then the bucket refuses the target. */
  predicate HalfWrite(db: Db, req: CreateRequest) {
    !Puttable(req.target) &&
    db.PickKey(req).Ok? && Puttable(db.PickKey(req).value)
  }

  /** A creation keeps the buckets inverse, and a failing one keeps them
      unchanged, exactly when it is not a half write. */
  lemma CreateIsAtomicIff(db: Db, req: CreateRequest)
    requires db.Sound()
    ensures db.CreateInTx(req).0.Sound() <==> !HalfWrite(db, req)
    ensures db.CreateInTx(req).0.Inverse() <==> !HalfWrite(db, req)
    ensures db.CreateInTx(req).1.Err? ==> (db.CreateInTx(req).0 == db <==> !HalfWrite(db, req))
  {
    var d := db.CreateInTx(req).0;
    if HalfWrite(db, req) {
      var k := db.PickKey(req).value;
      assert k in d.links && d.links[k].target == req.target;
      assert k !in db.links;
    }
  }

  /** In a batch the transaction survives the failing item, so the half write
      is committed. */
  lemma BatchCanLoseTheIndexEntry()
    ensures var req := CreateRequest("", "", "", "/a", None, 0);
            var r := Db(map[], map[]).CreateAll([req]);
            Db(map[], map[]).Sound() && r.1 == [Err(Internal)] &&
            !Db(map[], map[]).Apply(BatchOp([req], true)).Inverse()
  {
  }

  /** What a successful creation means, and what no creation ever does. */
  lemma CreateMeaning(db: Db, req: CreateRequest)
    requires db.Sound()
    ensures var (d, r) := db.CreateInTx(req);
            && (forall k :: k in db.links ==> k in d.links && d.links[k] == db.links[k])
            && (r.Ok? ==>
              var e := r.value.entry;
              && d.Resolve(req.target) == Ok(e.key) && d.Get(e.key) == Ok(e) && e.link.target == req.target
              && (req.explicitKey != "" ==> e.key == req.explicitKey)
              && r.value.created == (req.target !in db.targets) == (e.key !in db.links)
              && (r.value.created ==> e.link == Link(req.target, req.rule, req.owner, req.now, req.now))
              && d.links.Keys == db.links.Keys + {e.key})
  {
  }

  /** An explicit key is granted exactly if it is already the target's, or free and
      the buckets accept both; taken keys and mapped targets are conflicts. */
  lemma ExplicitKeyIsGrantedIff(db: Db, req: CreateRequest)
    requires db.Sound() && req.explicitKey != ""
    ensures var r := db.CreateInTx(req).1;
            if db.Resolve(req.target).Ok? then
              if db.Resolve(req.target).value == req.explicitKey then r.Ok? else r == Err(Conflict)
            else if db.Get(req.explicitKey).Ok? then r == Err(Conflict)
            else if Puttable(req.explicitKey) && Puttable(req.target) then r.Ok? else r == Err(Internal)
  {
  }

  /** Without an explicit key, an unmapped target gets the key that the generator
      gives on being told the free ones; its errors, an empty key, a taken one and
      what the buckets refuse are errors. */
  lemma GeneratedKeyIsUsedIff(db: Db, req: CreateRequest)
    requires db.Sound() && req.explicitKey == "" && req.target !in db.targets
    ensures var (d, r) := db.CreateInTx(req);
            match req.gen
            case None => (d, r) == (db, Err(Internal))
            case Some(gen) =>
              match gen((k: string) => db.Free(k))
              case Err(e) => (d, r) == (db, Err(e))
              case Ok(key) =>
                if key == "" then r == Err(Internal)
                else if key in db.links then r == Err(Conflict)
                else if Puttable(key) && Puttable(req.target) then r.Ok? && r.value.created && r.value.entry.key == key
                else r == Err(Internal)
  {
  }

  /** An operation that fails, in its body or in its commit, changes nothing; a batch
      only fails in its commit. */
  lemma FailedOpChangesNothing(db: Db, op: Op)
    ensures !op.commits ==> db.Apply(op) == db
    ensures op.CreateOp? && db.CreateInTx(op.req).1.Err? ==> db.Apply(op) == db
    ensures op.UpdateOp? && db.UpdateInTx(op.key, op.target, op.now).1.Err? ==> db.Apply(op) == db
    ensures op.DeleteOp? && db.DeleteInTx(op.key).1.Err? ==> db.Apply(op) == db
  {
  }

  /** A request for a target that is already mapped answers with its key or
      reports a conflict, and writes nothing. */
  lemma CreateIsIdempotent(db: Db, req: CreateRequest, again: CreateRequest)
    requires db.Sound() && db.CreateInTx(req).1.Ok? && again.target == req.target
    ensures var d := db.CreateInTx(req).0;
            var key := db.CreateInTx(req).1.value.entry.key;
            d.CreateInTx(again) ==
              (d, if again.explicitKey in {"", key} then Ok(Created(d.Get(key).value, false)) else Err(Conflict))
  {
  }

  /** Retargeting moves one link, frees its old target and touches no other. */
  lemma UpdateMeaning(db: Db, key: string, target: string, now: int)
    requires db.Sound()
    ensures var (d, r) := db.Commit(true, db.UpdateInTx(key, target, now));
            && d.Sound()
            && (r.Err? <==>
                 key !in db.links || (target in db.targets && db.targets[target] != key) || !Puttable(target))
            && (r.Err? ==> d == db)
            && (r.Ok? ==>
              && d.Resolve(target) == Ok(key) && d.Get(key) == r && r.value.link.target == target
              && r.value.link.(target := db.links[key].target, updatedAt := db.links[key].updatedAt) == db.links[key]
              && (db.links[key].target != target ==> d.Resolve(db.links[key].target) == Err(NotFound)
                                                     && r.value.link.updatedAt == now)
              && (db.links[key].target == target ==> d == db)
              && d.links.Keys == db.links.Keys
              && (forall k :: k in db.links && k != key ==> d.links[k] == db.links[k]))
  {
  }

  /** Deleting removes one link, frees its target and touches no other. */
  lemma DeleteMeaning(db: Db, key: string)
    requires db.Sound()
    ensures var (d, r) := db.DeleteInTx(key);
            && d.Sound()
            && (r.Err? <==> key !in db.links) && (r.Err? ==> d == db)
            && (r.Ok? ==>
              && d.Resolve(db.links[key].target) == Err(NotFound) && d.Get(key) == Err(NotFound)
              && d.links.Keys == db.links.Keys - {key}
              && (forall k :: k in db.links && k != key ==> d.links[k] == db.links[k]))
  {
  }

  /** In inverse buckets, Resolve and Get invert each other. */
  lemma ResolveInvertsGet(db: Db, target: string, key: string)
    requires db.Inverse()
    ensures db.Resolve(target) == Ok(key) <==> db.Get(key).Ok? && db.Get(key).value.link.target == target
  {
  }

  /** Result i answers request i, on the buckets its predecessors left. */
  lemma {:induction false} BatchResultBelongsToRequest(db: Db, reqs: seq<CreateRequest>, i: nat)
    requires i < |reqs|
    ensures db.CreateAll(reqs).1[i] == db.CreateAll(reqs[..i]).0.CreateInTx(reqs[i]).1
    ensures db.CreateAll(reqs[..i + 1]).0 == db.CreateAll(reqs[..i]).0.CreateInTx(reqs[i]).0
    decreases |reqs|
  {
    var d := db.CreateInTx(reqs[0]).0;
    if i == 0 {
      assert reqs[..1][1..] == [];
    } else {
      BatchResultBelongsToRequest(d, reqs[1..], i - 1);
      assert reqs[..i][1..] == reqs[1..][..i - 1];
      assert reqs[..i + 1][1..] == reqs[1..][..i];
    }
  }

  /** Some item of a batch, on the buckets its predecessors left, is a half write. */
  predicate SomeHalfWrite(db: Db, reqs: seq<CreateRequest>)
    decreases |reqs|
  {
    reqs != [] && (HalfWrite(db, reqs[0]) || SomeHalfWrite(db.CreateInTx(reqs[0]).0, reqs[1..]))
  }

  /** A link without index entry, whose target can never get one. */
  predicate Orphan(db: Db, key: string) {
    key in db.links && db.links[key].target !in db.targets && !Puttable(db.links[key].target)
  }

  lemma {:induction false} OrphanStays(db: Db, reqs: seq<CreateRequest>, key: string)
    requires Orphan(db, key)
    ensures Orphan(db.CreateAll(reqs).0, key)
    decreases |reqs|
  {
    if reqs != [] {
      OrphanStays(db.CreateInTx(reqs[0]).0, reqs[1..], key);
    }
  }

  /** A batch keeps the buckets inverse exactly when no item is a half write: no
      later item of it can repair what one has broken. */
  lemma {:induction false} BatchKeepsInverseIff(db: Db, reqs: seq<CreateRequest>)
    requires db.Sound()
    ensures db.CreateAll(reqs).0.Sound() <==> !SomeHalfWrite(db, reqs)
    ensures db.CreateAll(reqs).0.Inverse() <==> !SomeHalfWrite(db, reqs)
    decreases |reqs|
  {
    if reqs != [] {
      var d := db.CreateInTx(reqs[0]).0;
      CreateIsAtomicIff(db, reqs[0]);
      if HalfWrite(db, reqs[0]) {
        var key := db.PickKey(reqs[0]).value;
        OrphanStays(d, reqs[1..], key);
        assert Orphan(db.CreateAll(reqs).0, key);
      } else {
        BatchKeepsInverseIff(d, reqs[1..]);
      }
    }
  }

  predicate BreaksInverse(db: Db, op: Op) {
    op.BatchOp? && op.commits && SomeHalfWrite(db, op.reqs)
  }

  /** Every operation, succeeding or not, keeps the buckets inverse, except exactly
      a committed batch with a half write. */
  lemma ApplyKeepsInverseIff(db: Db, op: Op)
    requires db.Sound()
    ensures db.Apply(op).Sound() <==> !BreaksInverse(db, op)
    ensures db.Apply(op).Inverse() <==> !BreaksInverse(db, op)
  {
    match op
    case CreateOp(req, _) => CreateIsAtomicIff(db, req);
    case BatchOp(reqs, _) => BatchKeepsInverseIff(db, reqs);
    case UpdateOp(key, target, now, _) => UpdateMeaning(db, key, target, now);
    case DeleteOp(key, _) => DeleteMeaning(db, key);
  }

  /** The buckets are inverse at the start of a run and after every operation. */
  ghost predicate InverseThroughout(db: Db, ops: seq<Op>)
    decreases |ops|
  {
    db.Sound() && (ops == [] || InverseThroughout(db.Apply(ops[0]), ops[1..]))
  }

  predicate NoOpBreaks(db: Db, ops: seq<Op>)
    decreases |ops|
  {
    ops == [] || (!BreaksInverse(db, ops[0]) && NoOpBreaks(db.Apply(ops[0]), ops[1..]))
  }

  /** Over every run, with any mix of failures, the buckets are inverse all the time
      exactly when no operation is a committed batch with a half write. */
  lemma {:induction false} RunKeepsInverseIff(db: Db, ops: seq<Op>)
    requires db.Sound()
    ensures InverseThroughout(db, ops) <==> NoOpBreaks(db, ops)
    ensures NoOpBreaks(db, ops) ==> db.Run(ops).Sound()
    decreases |ops|
  {
    if ops != [] {
      ApplyKeepsInverseIff(db, ops[0]);
      if !BreaksInverse(db, ops[0]) {
        RunKeepsInverseIff(db.Apply(ops[0]), ops[1..]);
      }
    }
  }

  predicate Touches(op: Op, key: string) {
    (op.UpdateOp? || op.DeleteOp?) && op.key == key
  }

  /** key is linked as before. */
  predicate Unchanged(db: Db, after: Db, key: string) {
    key in db.links && key in after.links && after.links[key] == db.links[key]
  }

  lemma {:induction false} CreateAllChangesNothing(db: Db, reqs: seq<CreateRequest>, key: string)
    requires key in db.links
    ensures Unchanged(db, db.CreateAll(reqs).0, key)
    decreases |reqs|
  {
    if reqs != [] {
      assert Unchanged(db, db.CreateInTx(reqs[0]).0, key);
      CreateAllChangesNothing(db.CreateInTx(reqs[0]).0, reqs[1..], key);
    }
  }

  lemma ApplyChangesOnlyNamed(db: Db, op: Op, key: string)
    requires key in db.links && !Touches(op, key)
    ensures Unchanged(db, db.Apply(op), key)
  {
    if op.BatchOp? { CreateAllChangesNothing(db, op.reqs, key); }
  }

  /** Over every run, from any buckets, a published link changes only by an update or
      a deletion that names it. */
  lemma {:induction false} RunChangesOnlyNamed(db: Db, ops: seq<Op>, key: string)
    requires key in db.links && forall op :: op in ops ==> !Touches(op, key)
    ensures Unchanged(db, db.Run(ops), key)
    decreases |ops|
  {
    if ops != [] {
      ApplyChangesOnlyNamed(db, ops[0], key);
      RunChangesOnlyNamed(db.Apply(ops[0]), ops[1..], key);
    }
  }
}
