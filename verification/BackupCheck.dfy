/** The semantic part of the check a compacted backup passes before it is
    published: equal counts, and for small databases one pass over the links. */
module BackupCheck {
  import opened KeyOrder
  import opened Lists
  import opened LinkStore

  const FULL_CHECK_MAX := 100000

  /** A bucket read as Go's string(Get(..)): a missing record reads as "". */
  function Lookup(bucket: map<string, string>, key: string): string {
    if key in bucket then bucket[key] else ""
  }

  predicate Accepts(db: Db) {
    |db.links| == |db.targets| &&
    (|db.links| <= FULL_CHECK_MAX ==> forall k :: k in db.links ==> Lookup(db.targets, db.links[k].target) == k)
  }

  method Verify(db: Db) returns (linksN: nat, targetsN: nat, ok: bool)
    ensures linksN == |db.links| && targetsN == |db.targets|
    ensures ok <==> Accepts(db)
  {
    linksN, targetsN := |db.links|, |db.targets|;
    if linksN != targetsN {
      return linksN, targetsN, false;
    }
    if linksN <= FULL_CHECK_MAX {
      var keys := SortedSeq(db.links.Keys);
      for i := 0 to |keys|
        invariant forall j :: 0 <= j < i ==> Lookup(db.targets, db.links[keys[j]].target) == keys[j]
      {
        assert keys[i] in db.links;
        if Lookup(db.targets, db.links[keys[i]].target) != keys[i] {
          return linksN, targetsN, false;
        }
      }
      assert forall k :: k in db.links ==> k in keys;
    }
    return linksN, targetsN, true;
  }

  ghost function TargetsOf(links: map<string, Link>): set<string> {
    set k | k in links :: links[k].target
  }

  /** Links that the index maps back to their own keys have distinct targets. */
  lemma {:induction false} DistinctTargets(links: map<string, Link>, targets: map<string, string>)
    requires forall k :: k in links ==> links[k].target in targets && targets[links[k].target] == k
    ensures |TargetsOf(links)| == |links|
    decreases |links|
  {
    if links != map[] {
      var k :| k in links;
      var rest := links - {k};
      DistinctTargets(rest, targets);
      assert forall j :: j in links ==> j == k || (j in rest && rest[j] == links[j]);
      assert TargetsOf(links) == TargetsOf(rest) + {links[k].target};
      assert |rest| == |links| - 1 by {
        assert rest.Keys == links.Keys - {k};
      }
    }
  }

  lemma SubsetOfSameSize(a: set<string>, b: set<string>)
    requires a <= b && |a| == |b|
    ensures a == b
  {
    if x :| x in b && x !in a {
      assert a <= b - {x};
      SubsetSize(a, b - {x});
    }
  }

  /** Up to the full-check bound, equal counts and the one direction over the
      links are enough: the check accepts exactly the inverse buckets. */
  lemma AcceptsExactlyInverse(db: Db)
    requires |db.links| <= FULL_CHECK_MAX && "" !in db.links
    ensures Accepts(db) <==> db.Inverse()
  {
    if (forall k :: k in db.links ==> Lookup(db.targets, db.links[k].target) == k) {
      forall k | k in db.links ensures db.links[k].target in db.targets && db.targets[db.links[k].target] == k {
        assert Lookup(db.targets, db.links[k].target) == k;
      }
      DistinctTargets(db.links, db.targets);
      if Accepts(db) {
        SubsetOfSameSize(TargetsOf(db.links), db.targets.Keys);
        forall t | t in db.targets ensures db.targets[t] in db.links && db.links[db.targets[t]].target == t {
          assert t in TargetsOf(db.links);
        }
      }
    }
    if db.Inverse() {
      DistinctTargets(db.links, db.targets);
      assert TargetsOf(db.links) == db.targets.Keys by {
        forall t | t in db.targets ensures t in TargetsOf(db.links) {
          assert db.links[db.targets[t]].target == t;
        }
      }
    }
  }

  ghost function Numbered(n: nat): (s: set<string>)
    ensures |s| == n
    ensures forall x :: x in s ==> 0 < |x| <= n && x[0] == 'a'
  {
    if n == 0 then {} else Numbered(n - 1) + {seq(n, _ => 'a')}
  }

  /** Above the bound only the counts are compared, and at every such size some
      accepted database has no index entry for any of its links. */
  lemma LargeDatabasesAreOnlyCounted(n: nat)
    requires n > FULL_CHECK_MAX
    ensures exists db: Db :: |db.links| == n && "" !in db.links && Accepts(db) &&
                             forall k :: k in db.links ==> db.links[k].target !in db.targets
  {
    var keys := Numbered(n);
    var db := Db(map k | k in keys :: Link("t", "", "", 0, 0), map k | k in keys :: k);
    assert db.links.Keys == keys && db.targets.Keys == keys;
    assert "t" !in keys;
    assert Accepts(db);
  }

  /** The check is exact for all databases of n links exactly up to the bound. */
  lemma CheckIsExactIff(n: nat)
    ensures (forall db: Db :: |db.links| == n && "" !in db.links ==> (Accepts(db) <==> db.Inverse()))
       <==> n <= FULL_CHECK_MAX
  {
    if n <= FULL_CHECK_MAX {
      forall db: Db | |db.links| == n && "" !in db.links ensures Accepts(db) <==> db.Inverse() {
        AcceptsExactlyInverse(db);
      }
    } else {
      LargeDatabasesAreOnlyCounted(n);
      var db: Db :| |db.links| == n && "" !in db.links && Accepts(db) &&
                    forall k :: k in db.links ==> db.links[k].target !in db.targets;
      assert db.links.Keys != {};
      var k :| k in db.links;
    }
  }

  /** Above the bound the counts alone decide. */
  lemma LargeNeedsOnlyCounts(db: Db)
    requires |db.links| > 100000
    ensures Accepts(db) <==> |db.links| == |db.targets|
  {
  }
}
