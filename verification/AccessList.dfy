/** Listing: what a client sees, page by page. */
module AccessList {
  import opened KeyOrder
  import opened KeyScan
  import opened Access

  /** The keys a listing with these parameters selects after the cursor. */
  function Selected(c: Client, keys: set<string>, namespace: string, cursor: string): set<string> {
    if namespace != "" then Scan(keys, namespace, cursor)
    else if c.isAdmin then Scan(keys, "", cursor)
    else if |c.namespaces| == 1 then Scan(keys, c.namespaces[0], cursor)
    else Reachable(c, keys, cursor)
  }

  /** The keys after the cursor that the client may access. */
  function Reachable(c: Client, keys: set<string>, cursor: string): set<string> {
    set k | k in keys && AfterCursor(k, cursor) && c.CanAccess(k)
  }

  /** A listing never selects a key outside the client's namespaces. */
  lemma ListingIsConfined(c: Client, keys: set<string>, namespace: string, cursor: string)
    requires namespace != "" ==> c.CanAccess(namespace)
    ensures forall k :: k in Selected(c, keys, namespace, cursor) ==> c.CanAccess(k)
  {
  }

  /** Without a namespace parameter, and with a cursor from the same listing, it
      selects exactly the accessible keys. */
  lemma ListingIsComplete(c: Client, keys: set<string>, cursor: string)
    requires cursor == "" || c.CanAccess(cursor)
    ensures Selected(c, keys, "", cursor) == Reachable(c, keys, cursor)
         == Beyond((set k | k in keys && c.CanAccess(k)), cursor)
  {
    CursorWithPrefixHasNoGap(keys, "", cursor);
    if !c.isAdmin && |c.namespaces| == 1 {
      CursorWithPrefixHasNoGap(keys, c.namespaces[0], cursor);
    }
  }

  /** What a listing is about: a namespace parameter, or whatever the client may access. */
  predicate Wants(c: Client, namespace: string, key: string) {
    if namespace != "" then namespace <= key else c.CanAccess(key)
  }

  function Wanted(c: Client, namespace: string): string -> bool {
    (k: string) => Wants(c, namespace, k)
  }

  lemma SelectedAreWanted(c: Client, keys: set<string>, namespace: string, cursor: string)
    requires cursor == "" || Wants(c, namespace, cursor)
    ensures Selected(c, keys, namespace, cursor) == Beyond(Kept(keys, Wanted(c, namespace)), cursor)
  {
    if namespace != "" {
      CursorWithPrefixHasNoGap(keys, namespace, cursor);
    } else {
      ListingIsComplete(c, keys, cursor);
    }
  }

  /** A client that follows the cursors of listLinks; stores[i] holds the keys at
      the time of request i. */
  function FollowListing(c: Client, stores: seq<set<string>>, namespace: string, limit: nat, cursor: string)
    : (seq<string>, string, bool)
    requires limit > 0
  {
    if stores == [] then ([], cursor, false) else
      var (page, next) := FirstPage(Selected(c, stores[0], namespace, cursor), limit);
      if next == "" then (page, "", true) else
        var (rest, last, done) := FollowListing(c, stores[1..], namespace, limit, next);
        (page + rest, last, done)
  }

  lemma {:induction false} ListingIsFollow(
    c: Client, stores: seq<set<string>>, namespace: string, limit: nat, cursor: string)
    requires limit > 0 && (cursor == "" || Wants(c, namespace, cursor)) && NoEmptyKey(stores)
    ensures FollowListing(c, stores, namespace, limit, cursor)
         == Follow(Restrict(stores, Wanted(c, namespace)), limit, cursor)
    decreases |stores|
  {
    if stores != [] {
      SelectedAreWanted(c, stores[0], namespace, cursor);
      var s := Selected(c, stores[0], namespace, cursor);
      FirstPageMeaning(s, limit);
      var (page, next) := FirstPage(s, limit);
      if next != "" {
        assert next in page;
        ListingIsFollow(c, stores[1..], namespace, limit, next);
      }
    }
  }

  /** Following a listing under arbitrary creations and deletions gives increasing
      keys, so none twice, all wanted, each stored when it was read. */
  lemma ListingNeverRepeats(c: Client, stores: seq<set<string>>, namespace: string, limit: nat, cursor: string)
    requires limit > 0 && (cursor == "" || Wants(c, namespace, cursor)) && NoEmptyKey(stores)
    ensures Collected(stores, Wanted(c, namespace), cursor, FollowListing(c, stores, namespace, limit, cursor).0)
  {
    ListingIsFollow(c, stores, namespace, limit, cursor);
    RestrictedNeverRepeats(stores, Wanted(c, namespace), limit, cursor);
  }

  /** A wanted key that is stored throughout is listed before the listing ends. */
  lemma ListingMissesNothing(
    c: Client, stores: seq<set<string>>, namespace: string, limit: nat, cursor: string, key: string)
    requires limit > 0 && (cursor == "" || Wants(c, namespace, cursor)) && NoEmptyKey(stores)
    requires StoredThroughout(stores, key) && Wants(c, namespace, key) && AfterCursor(key, cursor)
    ensures var (keys, last, done) := FollowListing(c, stores, namespace, limit, cursor);
            key in keys || (!done && AfterCursor(key, last))
  {
    ListingIsFollow(c, stores, namespace, limit, cursor);
    RestrictedMissesNothing(stores, Wanted(c, namespace), limit, cursor, key);
  }

  /** On a store that does not change, the listing ends with exactly the wanted keys. */
  lemma ListingEnds(
    c: Client, s: set<string>, stores: seq<set<string>>, namespace: string, limit: nat, cursor: string)
    requires limit > 0 && "" !in s && (cursor == "" || Wants(c, namespace, cursor))
    requires forall i :: 0 <= i < |stores| ==> stores[i] == s
    requires |Selected(c, s, namespace, cursor)| < |stores|
    ensures var (keys, _, done) := FollowListing(c, stores, namespace, limit, cursor);
            done && keys == SortedSeq(Selected(c, s, namespace, cursor))
  {
    ListingIsFollow(c, stores, namespace, limit, cursor);
    SelectedAreWanted(c, s, namespace, cursor);
    RestrictedEnds(s, stores, Wanted(c, namespace), limit, cursor);
  }

  function Filter(c: Client, keys: seq<string>): seq<string> {
    if keys == [] then []
    else
      var last := keys[|keys| - 1];
      Filter(c, keys[..|keys| - 1]) + (if c.CanAccess(last) then [last] else [])
  }

  lemma {:induction false} FilterMembers(c: Client, keys: seq<string>)
    requires Increasing(keys)
    ensures Increasing(Filter(c, keys))
    ensures forall k :: k in Filter(c, keys) <==> k in keys && c.CanAccess(k)
  {
    if keys != [] {
      var n := |keys| - 1;
      FilterMembers(c, keys[..n]);
      assert keys == keys[..n] + [keys[n]];
      forall k | k in Filter(c, keys[..n]) ensures Less(k, keys[n]) {
        var i :| 0 <= i < n && keys[i] == k;
      }
    }
  }

  lemma {:induction false} FilterSplits(c: Client, a: seq<string>, b: seq<string>)
    ensures Filter(c, a + b) == Filter(c, a) + Filter(c, b)
  {
    if b == [] {
      assert a + b == a;
    } else {
      var n := |b| - 1;
      FilterSplits(c, a, b[..n]);
      assert (a + b)[..|a + b| - 1] == a + b[..n];
    }
  }

  /** The accessible keys after the cursor are the filtered walk. */
  lemma ReachableIsFilteredWalk(c: Client, keys: set<string>, cursor: string)
    ensures SortedSeq(Reachable(c, keys, cursor)) == Filter(c, SortedSeq(Beyond(keys, cursor)))
  {
    var walk := SortedSeq(Beyond(keys, cursor));
    SortedSeqIncreases(Beyond(keys, cursor));
    FilterMembers(c, walk);
    IncreasingIsSortedSeq(Filter(c, walk), Reachable(c, keys, cursor));
  }

  /** next is the cursor after the first m keys of a walk from cursor. */
  ghost predicate At(walk: seq<string>, cursor: string, m: nat, next: string) {
    m <= |walk| && next == if m == 0 then cursor else walk[m - 1]
  }

  lemma SuffixOfWalk(walk: seq<string>, m: nat, rest: set<string>)
    requires Increasing(walk) && 0 < m <= |walk|
    requires rest == set k | k in walk && Less(walk[m - 1], k)
    ensures walk[m..] == SortedSeq(rest)
  {
    forall j | 0 <= j < |walk| ensures m <= j < |walk| <==> Less(walk[m - 1], walk[j]) {
      LessIsTotal(walk[j], walk[m - 1]);
      if j < m - 1 {
        assert Less(walk[j], walk[m - 1]);
      }
    }
    assert forall j :: 0 <= j < |walk| ==> (walk[j] in rest <==> Less(walk[m - 1], walk[j]));
    SliceIsSortedSeq(walk, m, |walk|, rest);
    assert walk[m..|walk|] == walk[m..];
  }

  lemma BeyondBeyond(keys: set<string>, cursor: string, next: string)
    requires next in Beyond(keys, cursor) && next != ""
    ensures Matching(keys, "", next) == set k | k in Beyond(keys, cursor) && Less(next, k)
  {
    forall k | k in keys && Less(next, k) ensures AfterCursor(k, cursor) {
      if cursor != "" { LessIsTransitive(cursor, next, k); }
    }
  }

  /** The next page of the unfiltered list continues the walk. */
  lemma PageContinuesWalk(keys: set<string>, cursor: string, m: nat, next: string, size: nat)
    requires "" !in keys && size > 0 && At(SortedSeq(Beyond(keys, cursor)), cursor, m, next)
    ensures FirstPage(Scan(keys, "", next), size) == Cut(SortedSeq(Beyond(keys, cursor))[m..], size)
  {
    CursorWithPrefixHasNoGap(keys, "", next);
    var walk := SortedSeq(Beyond(keys, cursor));
    if m == 0 {
      assert Matching(keys, "", cursor) == Beyond(keys, cursor) && walk[0..] == walk;
    } else {
      SortedSeqIncreases(Beyond(keys, cursor));
      assert next in walk;
      BeyondBeyond(keys, cursor, next);
      SuffixOfWalk(walk, m, Matching(keys, "", next));
    }
  }

  /** What one unfiltered page contributes to the walk. */
  lemma PageOfWalk(keys: set<string>, cursor: string, walk: seq<string>, m: nat, next: string,
                   size: nat, batch: seq<string>, n: string, end: nat)
    requires "" !in keys && size > 0 && end == m + |batch|
    requires walk == SortedSeq(Beyond(keys, cursor)) && At(walk, cursor, m, next)
    requires (batch, n) == FirstPage(Scan(keys, "", next), size)
    ensures end <= |walk| && batch == walk[m..end]
    ensures if n == "" then end == |walk| else m < end && At(walk, cursor, end, n)
  {
    PageContinuesWalk(keys, cursor, m, next, size);
    NoEmptyInWalk(keys, cursor);
    CutOfWalk(walk, cursor, m, size, batch, n, end);
  }

  lemma NoEmptyInWalk(keys: set<string>, cursor: string)
    requires "" !in keys
    ensures "" !in SortedSeq(Beyond(keys, cursor))
  {
  }

  lemma CutOfWalk(walk: seq<string>, cursor: string, m: nat, size: nat, batch: seq<string>, n: string, end: nat)
    requires size > 0 && m <= |walk| && "" !in walk && (batch, n) == Cut(walk[m..], size) && end == m + |batch|
    ensures end <= |walk| && batch == walk[m..end]
    ensures if n == "" then end == |walk| else m < end && At(walk, cursor, end, n)
  {
  }

  /** The loop of listFiltered is over: the page is full after m keys, or the walk
      is. */
  ghost predicate Final(walk: seq<string>, m: nat, limit: nat, page: seq<string>, next: string) {
    m <= |walk| && 0 < limit &&
    if |page| < limit then m == |walk| && next == "" else |page| == limit && next == page[limit - 1]
  }

  lemma CutOfFiltered(c: Client, walk: seq<string>, limit: nat, m: nat, page: seq<string>, next: string)
    requires Final(walk, m, limit, page, next) && page == Filter(c, walk[..m])
    ensures Cut(Filter(c, walk), limit) == (page, next)
  {
    FilterSplits(c, walk[..m], walk[m..]);
    assert walk == walk[..m] + walk[m..];
    if m == |walk| {
      assert walk[..m] == walk;
    } else {
      assert Filter(c, walk)[..limit] == page;
    }
  }

  /** Either way it has the page of accessible keys. */
  lemma FilteredPage(c: Client, keys: set<string>, cursor: string, limit: nat, m: nat, page: seq<string>, next: string)
    requires var walk := SortedSeq(Beyond(keys, cursor));
             Final(walk, m, limit, page, next) && page == Filter(c, walk[..m])
    ensures limit > 0 && (page, next) == FirstPage(Reachable(c, keys, cursor), limit)
  {
    ReachableIsFilteredWalk(c, keys, cursor);
    CutOfFiltered(c, SortedSeq(Beyond(keys, cursor)), limit, m, page, next);
  }
}
