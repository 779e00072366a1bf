/** listFiltered on a store that changes between the reads of one call: each inner
    page of unfiltered links is a transaction of its own. */
module MovingList {
  import opened KeyOrder
  import opened KeyScan
  import opened Lists
  import opened Access
  import opened AccessList

  /** One inner read with room left on the page: the accessible keys it adds, the
      cursor to go on from ("" when the links are exhausted), and whether the page
      is full now. */
  function ReadPage(c: Client, s: set<string>, room: nat, size: nat, from: string): (seq<string>, string, bool)
    requires room > 0 && size > 0
  {
    var (batch, n) := FirstPage(Scan(s, "", from), size);
    var wanted := Filter(c, batch);
    if |wanted| >= room then (wanted[..room], wanted[room - 1], true) else (wanted, n, false)
  }

  /** One call; stores[i] holds the keys that inner read i sees. The result is the
      page, the next cursor, the reads that are left, and whether there were
      enough of them. */
  function CallFiltered(c: Client, stores: seq<set<string>>, room: nat, size: nat, from: string)
    : (r: (seq<string>, string, seq<set<string>>, bool))
    requires room > 0 && size > 0
    ensures |r.2| <= |stores| && r.2 == stores[|stores| - |r.2|..] && (r.3 ==> |r.2| < |stores|)
    decreases |stores|
  {
    if stores == [] then ([], from, [], false) else
      var (keys, next, full) := ReadPage(c, stores[0], room, size, from);
      if full || next == "" then (keys, next, stores[1..], true) else
        var (more, last, rest, ended) := CallFiltered(c, stores[1..], room - |keys|, size, next);
        (keys + more, last, rest, ended)
  }

  /** A client that follows the cursors of listFiltered. A call that does not come
      to its end gives the client nothing. */
  function FollowFiltered(c: Client, stores: seq<set<string>>, limit: nat, size: nat, cursor: string)
    : (seq<string>, string, bool)
    requires limit > 0 && size > 0
    decreases |stores|
  {
    var (page, next, rest, ended) := CallFiltered(c, stores, limit, size, cursor);
    if !ended then ([], cursor, false)
    else if next == "" then (page, "", true)
    else
      var (more, last, done) := FollowFiltered(c, rest, limit, size, next);
      (page + more, last, done)
  }

  predicate Upto(k: string, last: string) {
    last != "" && (k == last || Less(k, last))
  }

  /** keys is what an honest listing of the accessible keys after a cursor gives, up
      to last, or to the end if it is done: in order, each stored when it was read,
      and none skipped that was stored throughout. */
  ghost predicate Covers(
    c: Client, stores: seq<set<string>>, from: string, keys: seq<string>, last: string, done: bool)
  {
    && Increasing(keys)
    && (forall k :: k in keys ==> c.CanAccess(k) && AfterCursor(k, from) && StoredOnce(stores, k))
    && (!done ==> (last == from || AfterCursor(last, from)) && forall k :: k in keys ==> Upto(k, last))
    && (forall k :: StoredThroughout(stores, k) && c.CanAccess(k) && AfterCursor(k, from) ==>
          k in keys || (!done && AfterCursor(k, last)))
  }

  lemma UptoThenAfter(k: string, mid: string, l: string)
    requires Upto(k, mid) && AfterCursor(l, mid)
    ensures Less(k, l)
  {
    if k != mid { LessIsTransitive(k, mid, l); }
  }

  lemma AfterTwice(from: string, mid: string, k: string)
    requires mid != "" && (mid == from || AfterCursor(mid, from)) && AfterCursor(k, mid)
    ensures AfterCursor(k, from)
  {
    if from != "" && mid != from { LessIsTransitive(from, mid, k); }
  }

  lemma UptoLater(k: string, mid: string, last: string)
    requires Upto(k, mid) && (last == mid || AfterCursor(last, mid))
    ensures Upto(k, last)
  {
    if last != mid { UptoThenAfter(k, mid, last); }
  }

  /** Two listings, the second from the cursor of the first. */
  lemma CoversJoin(c: Client, stores: seq<set<string>>, rest: seq<set<string>>, from: string,
                   keys: seq<string>, mid: string, more: seq<string>, last: string, done: bool)
    requires mid != "" && Covers(c, stores, from, keys, mid, false) && Covers(c, rest, mid, more, last, done)
    requires |rest| <= |stores| && rest == stores[|stores| - |rest|..]
    ensures Covers(c, stores, from, keys + more, last, done)
  {
    var all := keys + more;
    forall i, j | 0 <= i < j < |all| ensures Less(all[i], all[j]) {
      if i < |keys| <= j {
        assert all[i] in keys && all[j] in more;
        UptoThenAfter(all[i], mid, all[j]);
      }
    }
    forall k | k in more ensures AfterCursor(k, from) && StoredOnce(stores, k) {
      AfterTwice(from, mid, k);
      var i :| 0 <= i < |rest| && k in rest[i];
      assert k in stores[|stores| - |rest| + i];
    }
    if !done {
      forall k | k in keys ensures Upto(k, last) {
        UptoLater(k, mid, last);
      }
      if last != mid { AfterTwice(from, mid, last); }
    }
    forall k | StoredThroughout(stores, k) && c.CanAccess(k) && AfterCursor(k, from)
      ensures k in all || (!done && AfterCursor(k, last))
    {
      assert StoredThroughout(rest, k);
    }
  }

  /** A page of unfiltered keys, and the cursor to go on from. */
  ghost predicate IsBatch(s: set<string>, from: string, batch: seq<string>, n: string) {
    && Increasing(batch) && (forall k :: k in batch ==> k in s && AfterCursor(k, from))
    && (n != "" ==> batch != [] && n == batch[|batch| - 1])
    && (forall k :: k in s && AfterCursor(k, from) ==> k in batch || (n != "" && Less(n, k)))
  }

  lemma ScanGivesBatch(s: set<string>, size: nat, from: string)
    requires size > 0 && "" !in s
    ensures var (batch, n) := FirstPage(Scan(s, "", from), size); IsBatch(s, from, batch, n)
  {
    CursorWithPrefixHasNoGap(s, "", from);
    FirstPageMeaning(Scan(s, "", from), size);
  }

  /** The same for the keys of one read. */
  ghost predicate CoversOne(c: Client, s: set<string>, from: string, keys: seq<string>, last: string, done: bool) {
    && Increasing(keys)
    && (forall k :: k in keys ==> c.CanAccess(k) && AfterCursor(k, from) && k in s)
    && (!done ==> (last == from || AfterCursor(last, from)) && forall k :: k in keys ==> Upto(k, last))
    && (forall k :: k in s && c.CanAccess(k) && AfterCursor(k, from) ==> k in keys || (!done && AfterCursor(k, last)))
  }

  lemma CoversFirst(c: Client, stores: seq<set<string>>, from: string, keys: seq<string>, last: string, done: bool)
    requires stores != [] && CoversOne(c, stores[0], from, keys, last, done)
    ensures Covers(c, stores, from, keys, last, done)
  {
  }

  /** One inner read covers what it passes. */
  lemma ReadCovers(c: Client, s: set<string>, room: nat, size: nat, from: string)
    requires room > 0 && size > 0 && "" !in s
    ensures var (keys, next, full) := ReadPage(c, s, room, size, from);
            && |keys| <= room && (full <==> |keys| == room) && (full ==> next == keys[room - 1] != "")
            && CoversOne(c, s, from, keys, next, next == "")
  {
    var (batch, n) := FirstPage(Scan(s, "", from), size);
    ScanGivesBatch(s, size, from);
    FilterMembers(c, batch);
    var wanted := Filter(c, batch);
    if |wanted| >= room {
      FullReadCovers(c, s, from, batch, n, wanted, room);
    } else {
      PartReadCovers(c, s, from, batch, n, wanted);
    }
  }

  ghost predicate Accepts(c: Client, batch: seq<string>, wanted: seq<string>) {
    Increasing(wanted) && forall k :: k in wanted <==> k in batch && c.CanAccess(k)
  }

  lemma FullReadCovers(
    c: Client, s: set<string>, from: string, batch: seq<string>, n: string, wanted: seq<string>, room: nat)
    requires "" !in s && IsBatch(s, from, batch, n) && Accepts(c, batch, wanted) && 0 < room <= |wanted|
    ensures wanted[room - 1] != "" && CoversOne(c, s, from, wanted[..room], wanted[room - 1], false)
  {
    FullPage(wanted, room, batch, n);
    assert wanted[room - 1] in wanted;
    assert forall k :: k in wanted[..room] ==> k in wanted;
  }

  lemma PartReadCovers(c: Client, s: set<string>, from: string, batch: seq<string>, n: string, wanted: seq<string>)
    requires "" !in s && IsBatch(s, from, batch, n) && Accepts(c, batch, wanted)
    ensures CoversOne(c, s, from, wanted, n, n == "")
  {
    if n != "" {
      assert n in batch;
      forall k | k in wanted ensures Upto(k, n) {
        var i :| 0 <= i < |batch| && batch[i] == k;
      }
    }
  }

  /** The first keys of what a read accepts. */
  lemma FullPage(wanted: seq<string>, room: nat, batch: seq<string>, n: string)
    requires Increasing(wanted) && 0 < room <= |wanted| && Increasing(batch) && forall k :: k in wanted ==> k in batch
    requires n != "" ==> batch != [] && n == batch[|batch| - 1]
    ensures Increasing(wanted[..room])
    ensures forall k :: k in wanted[..room] ==> k == wanted[room - 1] || Less(k, wanted[room - 1])
    ensures forall k :: k in wanted ==> k in wanted[..room] || Less(wanted[room - 1], k)
    ensures forall k :: n != "" && Less(n, k) ==> Less(wanted[room - 1], k)
  {
    forall k | k in wanted ensures k in wanted[..room] || Less(wanted[room - 1], k) {
      var i :| 0 <= i < |wanted| && wanted[i] == k;
      assert i < room ==> wanted[..room][i] == k;
    }
    assert wanted[room - 1] in wanted;
    var i :| 0 <= i < |batch| && batch[i] == wanted[room - 1];
    forall k | n != "" && Less(n, k) ensures Less(wanted[room - 1], k) {
      if i < |batch| - 1 { LessIsTransitive(wanted[room - 1], n, k); }
    }
  }

  /** A page is full, or the last one. */
  lemma {:induction false} CallFits(c: Client, stores: seq<set<string>>, room: nat, size: nat, from: string)
    requires room > 0 && size > 0 && NoEmptyKey(stores)
    ensures var (page, next, _, ended) := CallFiltered(c, stores, room, size, from);
            ended ==> |page| <= room && (next == "" <==> |page| < room) && (next != "" ==> next == page[room - 1])
    decreases |stores|
  {
    if stores != [] {
      var (keys, next, full) := ReadPage(c, stores[0], room, size, from);
      ReadCovers(c, stores[0], room, size, from);
      if !full && next != "" {
        CallFits(c, stores[1..], room - |keys|, size, next);
      }
    }
  }

  /** A call that comes to its end covers what it has passed. */
  lemma {:induction false} CallCovers(c: Client, stores: seq<set<string>>, room: nat, size: nat, from: string)
    requires room > 0 && size > 0 && NoEmptyKey(stores)
    ensures var (page, next, rest, ended) := CallFiltered(c, stores, room, size, from);
            ended ==> Covers(c, stores, from, page, next, next == "")
    decreases |stores|
  {
    if stores != [] {
      var (keys, next, full) := ReadPage(c, stores[0], room, size, from);
      ReadCovers(c, stores[0], room, size, from);
      CoversFirst(c, stores, from, keys, next, next == "");
      if !full && next != "" {
        CallCovers(c, stores[1..], room - |keys|, size, next);
        var (more, last, rest, ended) := CallFiltered(c, stores[1..], room - |keys|, size, next);
        if ended {
          CoversJoin(c, stores, stores[1..], from, keys, next, more, last, last == "");
        }
      }
    }
  }

  /** Whatever is created and deleted between any two reads: a client that follows
      listFiltered gets accessible keys in increasing order, each stored when it was
      read, and every accessible key that was stored throughout, before the end. */
  lemma {:induction false} FollowFilteredCovers(
    c: Client, stores: seq<set<string>>, limit: nat, size: nat, cursor: string)
    requires limit > 0 && size > 0 && NoEmptyKey(stores)
    ensures var (keys, last, done) := FollowFiltered(c, stores, limit, size, cursor);
            Covers(c, stores, cursor, keys, last, done)
    decreases |stores|
  {
    var (page, next, rest, ended) := CallFiltered(c, stores, limit, size, cursor);
    CallCovers(c, stores, limit, size, cursor);
    if ended && next != "" {
      FollowFilteredCovers(c, rest, limit, size, next);
      var (more, last, done) := FollowFiltered(c, rest, limit, size, next);
      CoversJoin(c, stores, rest, cursor, page, next, more, last, done);
    }
  }

  /** While the store does not change, a call ends, and its page is that of the
      accessible keys after the cursor. */
  lemma CallOnFixedStore(c: Client, s: set<string>, stores: seq<set<string>>, room: nat, size: nat, from: string)
    requires room > 0 && size > 0 && "" !in s && forall i :: 0 <= i < |stores| ==> stores[i] == s
    requires |Beyond(s, from)| < |stores|
    ensures var (page, next, _, ended) := CallFiltered(c, stores, room, size, from);
            ended && (page, next) == FirstPage(Reachable(c, s, from), room)
  {
    CallEnds(c, s, stores, room, size, from);
    CallFits(c, stores, room, size, from);
    CallCovers(c, stores, room, size, from);
    var (page, next, _, _) := CallFiltered(c, stores, room, size, from);
    forall k ensures (StoredOnce(stores, k) <==> k in s) && (StoredThroughout(stores, k) <==> k in s) {
      assert stores[0] == s;
    }
    CoveredIsFirstPage(Reachable(c, s, from), room, page, next);
  }

  lemma {:induction false} CallEnds(
    c: Client, s: set<string>, stores: seq<set<string>>, room: nat, size: nat, from: string)
    requires room > 0 && size > 0 && "" !in s && forall i :: 0 <= i < |stores| ==> stores[i] == s
    requires |Beyond(s, from)| < |stores|
    ensures CallFiltered(c, stores, room, size, from).3
    decreases |stores|
  {
    var (keys, next, full) := ReadPage(c, s, room, size, from);
    if !full && next != "" {
      var (batch, n) := FirstPage(Scan(s, "", from), size);
      ScanGivesBatch(s, size, from);
      assert n in batch;
      LessBeyond(s, from, next);
      CallEnds(c, s, stores[1..], room - |keys|, size, next);
    }
  }

  lemma LessBeyond(s: set<string>, from: string, next: string)
    requires next in Beyond(s, from) && next != ""
    ensures |Beyond(s, next)| < |Beyond(s, from)|
  {
    LessIsTotal(next, next);
    forall k | k in Beyond(s, next) ensures k in Beyond(s, from) - {next} {
      AfterTwice(from, next, k);
    }
    SubsetSize(Beyond(s, next), Beyond(s, from) - {next});
  }

  /** A page that covers a set up to its cursor is the first page of it. */
  lemma CoveredIsFirstPage(all: set<string>, room: nat, page: seq<string>, next: string)
    requires room > 0 && Increasing(page) && |page| <= room && forall k :: k in page ==> k in all
    requires if next == "" then |page| < room && forall k :: k in all ==> k in page
             else |page| == room && next == page[room - 1] && forall k :: k in all ==> k in page || Less(next, k)
    ensures (page, next) == FirstPage(all, room)
  {
    if next == "" {
      IncreasingIsSortedSeq(page, all);
    } else {
      var later := set k | k in all && Less(next, k);
      var rest := SortedSeq(later);
      SortedSeqIncreases(later);
      FollowJoins(page, next, rest);
      forall k ensures k in page + rest <==> k in all {
        assert k in rest <==> k in later;
      }
      IncreasingIsSortedSeq(page + rest, all);
      assert (page + rest)[..room] == page;
    }
  }
}
