/** Cursor scans over a bucket: what one page holds, and what a client gets that
    follows cursors while the bucket changes between pages. */
module KeyScan {
  import opened KeyOrder
  import opened Lists

  /** Where a bbolt cursor lands: the first key that does not sort before from. */
  function Seek(s: seq<string>, from: string): (i: nat)
    ensures i <= |s|
  {
    if s == [] || !Less(s[0], from) then 0 else 1 + Seek(s[1..], from)
  }

  lemma {:induction false} SeekSplits(s: seq<string>, from: string)
    requires Increasing(s)
    ensures forall j :: 0 <= j < |s| ==> (j < Seek(s, from) <==> Less(s[j], from))
  {
    if s != [] {
      forall j | 0 <= j < |s| ensures j < Seek(s, from) <==> Less(s[j], from) {
        if Less(s[0], from) {
          SeekSplits(s[1..], from);
          assert j > 0 ==> s[j] == s[1..][j - 1];
        } else if j > 0 && Less(s[j], from) {
          LessIsTransitive(s[0], s[j], from);
        }
      }
    }
  }

  predicate AfterCursor(key: string, cursor: string) {
    cursor == "" || Less(cursor, key)
  }

  /** The keys of s that are still to come. */
  function Beyond(s: set<string>, cursor: string): set<string> {
    set k | k in s && AfterCursor(k, cursor)
  }

  /** The keys with the prefix that come after the cursor; an empty cursor means
      the start. */
  function Matching(keys: set<string>, prefix: string, cursor: string): set<string> {
    set k | k in keys && prefix <= k && AfterCursor(k, cursor)
  }

  /** A non-empty cursor and a prefix with a key strictly in between. */
  predicate GapKey(keys: set<string>, prefix: string, cursor: string) {
    cursor != "" && exists k :: k in keys && Less(cursor, k) && Less(k, prefix)
  }

  /** What List scans: it stops at the first key without the prefix, even when
      that key is in front of the prefix. */
  function Scan(keys: set<string>, prefix: string, cursor: string): set<string> {
    if GapKey(keys, prefix, cursor) then {} else Matching(keys, prefix, cursor)
  }

  /** List looks for the right keys exactly when no stored key separates the
      cursor from the prefix, or there is nothing with the prefix. */
  lemma ScanIsCompleteIff(keys: set<string>, prefix: string, cursor: string)
    ensures Scan(keys, prefix, cursor) == Matching(keys, prefix, cursor)
        <==> !GapKey(keys, prefix, cursor) || forall k :: k in keys ==> !(prefix <= k)
  {
    if GapKey(keys, prefix, cursor) {
      var g :| g in keys && Less(cursor, g) && Less(g, prefix);
      if k :| k in keys && prefix <= k {
        PrefixNotAfter(prefix, k);
        LessIsTotal(k, prefix);
        if k != prefix { LessIsTransitive(g, prefix, k); }
        LessIsTransitive(cursor, g, k);
        assert k in Matching(keys, prefix, cursor);
      }
    }
  }

  /** It happens: with a cursor in front of the prefix, a key of another prefix
      hides the one that matches. */
  lemma ForeignCursorHidesKeys()
    ensures Scan({"/a/x", "/b/y"}, "/b/", "/") == {}
    ensures "/b/y" in Matching({"/a/x", "/b/y"}, "/b/", "/")
  {
    var keys := {"/a/x", "/b/y"};
    assert Less("/", "/a/x") && Less("/", "/b/y") by {
      assert "/"[1..] == "" && "/a/x"[1..] == "a/x" && "/b/y"[1..] == "b/y";
    }
    assert Less("/a/x", "/b/") by {
      assert "/a/x"[1..] == "a/x" && "/b/"[1..] == "b/";
    }
    assert GapKey(keys, "/b/", "/");
  }

  /** A cursor that a page of this prefix returned never causes a gap, so List
      continues among the keys with the prefix. */
  lemma CursorWithPrefixHasNoGap(keys: set<string>, prefix: string, cursor: string)
    requires cursor == "" || prefix <= cursor
    ensures Scan(keys, prefix, cursor) == Matching(keys, prefix, cursor)
         == Beyond((set k | k in keys && prefix <= k), cursor)
  {
    if GapKey(keys, prefix, cursor) {
      var g :| g in keys && Less(cursor, g) && Less(g, prefix);
      LessIsTransitive(cursor, g, prefix);
      PrefixNotAfter(prefix, cursor);
    }
  }

  /** The first position of a scan. */
  function Start(s: seq<string>, prefix: string, cursor: string): (i: nat)
    ensures i <= |s|
  {
    var i := Seek(s, if cursor == "" then prefix else cursor);
    if cursor != "" && i < |s| && s[i] == cursor then i + 1 else i
  }

  lemma StartSplits(s: seq<string>, prefix: string, cursor: string)
    requires Increasing(s)
    ensures forall j :: 0 <= j < |s| ==>
              (j >= Start(s, prefix, cursor) <==> if cursor == "" then !Less(s[j], prefix) else Less(cursor, s[j]))
  {
    var i := Start(s, prefix, cursor);
    SeekSplits(s, if cursor == "" then prefix else cursor);
    forall j | 0 <= j < |s|
      ensures j >= i <==> if cursor == "" then !Less(s[j], prefix) else Less(cursor, s[j])
    {
      LessIsTotal(s[j], cursor);
    }
  }

  /** The end of the run of keys with the prefix that starts at i. */
  function RunEnd(s: seq<string>, prefix: string, i: nat): (e: nat)
    requires i <= |s|
    ensures i <= e <= |s|
    ensures forall j :: i <= j < e ==> prefix <= s[j]
    ensures e < |s| ==> !(prefix <= s[e])
    decreases |s| - i
  {
    if i < |s| && prefix <= s[i] then RunEnd(s, prefix, i + 1) else i
  }

  lemma GapStopsRun(s: seq<string>, prefix: string, cursor: string)
    requires Increasing(s) && GapKey((set k | k in s), prefix, cursor)
    ensures var i := Start(s, prefix, cursor); RunEnd(s, prefix, i) == i
  {
    var i := Start(s, prefix, cursor);
    StartSplits(s, prefix, cursor);
    var g :| g in s && Less(cursor, g) && Less(g, prefix);
    var j :| 0 <= j < |s| && s[j] == g;
    if prefix <= s[i] {
      PrefixNotAfter(prefix, s[i]);
      if i < j { LessIsTransitive(s[i], g, prefix); }
    }
  }

  lemma NothingAfterRun(s: seq<string>, prefix: string, cursor: string, j: nat)
    requires Increasing(s) && !GapKey((set k | k in s), prefix, cursor)
    requires RunEnd(s, prefix, Start(s, prefix, cursor)) <= j < |s|
    ensures !(prefix <= s[j])
  {
    var i := Start(s, prefix, cursor);
    var e := RunEnd(s, prefix, i);
    StartSplits(s, prefix, cursor);
    if prefix <= s[j] {
      assert s[e] in s;
      assert cursor != "" ==> !Less(s[e], prefix);
      PrefixIsInterval(prefix, s[e], s[j]);
      LessIsTotal(s[e], s[j]);
    }
  }

  /** The first limit keys of a set and the cursor to continue from: empty when
      the set is exhausted before the limit. */
  function FirstPage(s: set<string>, limit: nat): (page: (seq<string>, string))
    requires limit > 0
  {
    Cut(SortedSeq(s), limit)
  }

  function Cut(all: seq<string>, limit: nat): (page: (seq<string>, string))
    requires limit > 0
  {
    if |all| < limit then (all, "") else (all[..limit], all[limit - 1])
  }

  /** The order in which a cursor walks a bucket. */
  ghost predicate Walks(s: seq<string>, keys: set<string>) {
    Increasing(s) && forall x :: x in s <==> x in keys
  }

  lemma RunMembers(s: seq<string>, keys: set<string>, prefix: string, cursor: string, j: nat)
    requires Walks(s, keys) && j < |s|
    ensures var i := Start(s, prefix, cursor);
            i <= j < RunEnd(s, prefix, i) <==> s[j] in Scan(keys, prefix, cursor)
  {
    var i := Start(s, prefix, cursor);
    StartSplits(s, prefix, cursor);
    assert keys == set k | k in s;
    if GapKey(keys, prefix, cursor) {
      GapStopsRun(s, prefix, cursor);
    } else if RunEnd(s, prefix, i) <= j {
      NothingAfterRun(s, prefix, cursor, j);
    } else if cursor == "" && prefix <= s[j] {
      PrefixNotAfter(prefix, s[j]);
    }
  }

  /** The run of keys that a cursor walks is exactly the scanned set, in order. */
  lemma ScanIsRun(s: seq<string>, keys: set<string>, prefix: string, cursor: string)
    requires Walks(s, keys)
    ensures var i := Start(s, prefix, cursor);
            s[i..RunEnd(s, prefix, i)] == SortedSeq(Scan(keys, prefix, cursor))
  {
    var i := Start(s, prefix, cursor);
    forall j | 0 <= j < |s|
      ensures i <= j < RunEnd(s, prefix, i) <==> s[j] in Scan(keys, prefix, cursor)
    {
      RunMembers(s, keys, prefix, cursor, j);
    }
    SliceIsSortedSeq(s, i, RunEnd(s, prefix, i), Scan(keys, prefix, cursor));
  }

  /** What a scan loop holds when it stops: at the page size or at the end. */
  ghost predicate StopsWith(s: seq<string>, start: nat, end: nat, size: nat, page: seq<string>, next: string) {
    && start + |page| <= end <= |s| && 0 < size && |page| <= size
    && (|page| < size ==> start + |page| == end)
    && page == s[start..start + |page|]
    && next == if |page| == size then s[start + size - 1] else ""
  }

  lemma PageOfRun(keys: set<string>, prefix: string, cursor: string, size: nat, page: seq<string>, next: string)
    requires var s := SortedSeq(keys);
             var start := Start(s, prefix, cursor);
             StopsWith(s, start, RunEnd(s, prefix, start), size, page, next)
    ensures size > 0 && (page, next) == FirstPage(Scan(keys, prefix, cursor), size)
  {
    var s := SortedSeq(keys);
    SortedSeqIncreases(keys);
    ScanIsRun(s, keys, prefix, cursor);
    var start := Start(s, prefix, cursor);
    CutOfSlice(s, start, RunEnd(s, prefix, start), size, page, next);
  }

  lemma CutOfSlice(s: seq<string>, start: nat, end: nat, size: nat, page: seq<string>, next: string)
    requires StopsWith(s, start, end, size, page, next)
    ensures Cut(s[start..end], size) == (page, next)
  {
    if |page| == size {
      assert s[start..end][..size] == page;
    }
  }

  lemma RunLength(keys: set<string>, prefix: string)
    ensures var s := SortedSeq(keys);
            RunEnd(s, prefix, Start(s, prefix, "")) == Start(s, prefix, "") + |Matching(keys, prefix, "")|
  {
    SortedSeqIncreases(keys);
    ScanIsRun(SortedSeq(keys), keys, prefix, "");
  }

  lemma FirstPageMeaning(s: set<string>, limit: nat)
    requires limit > 0 && "" !in s
    ensures var (page, next) := FirstPage(s, limit);
            && Increasing(page) && |page| <= limit && (forall k :: k in page ==> k in s)
            && (next == "" <==> |s| < limit)
            && (next == "" ==> forall k :: k in s ==> k in page)
            && (next != "" ==> |page| == limit && next == page[limit - 1])
            && (next != "" ==> forall k :: k in s ==> k in page || Less(next, k))
  {
    SortedSeqIncreases(s);
    var all := SortedSeq(s);
    var (page, next) := FirstPage(s, limit);
    if |s| >= limit {
      assert all[limit - 1] in s;
      forall k | k in s ensures k in page || Less(next, k) {
        var i :| 0 <= i < |all| && all[i] == k;
        if i < limit { assert page[i] == k; }
      }
    }
  }

  /** A page has as many keys as there are, up to the limit. */
  lemma PageLength(s: set<string>, limit: nat)
    requires limit > 0
    ensures |FirstPage(s, limit).0| == if |s| < limit then |s| else limit
  {
  }

  /** What a client collects that follows cursors: page i is taken from the keys
      available at that moment. done tells whether the cursor came back empty. */
  function Follow(available: seq<set<string>>, limit: nat, cursor: string): (r: (seq<string>, string, bool))
    requires limit > 0
  {
    if available == [] then ([], cursor, false) else
      var (page, next) := FirstPage(Beyond(available[0], cursor), limit);
      if next == "" then (page, "", true) else
        var (rest, last, done) := Follow(available[1..], limit, next);
        (page + rest, last, done)
  }

  lemma FollowJoins(page: seq<string>, next: string, more: seq<string>)
    requires Increasing(page) && page != [] && next == page[|page| - 1] && next != ""
    requires Increasing(more) && forall k :: k in more ==> AfterCursor(k, next)
    ensures Increasing(page + more)
  {
    var all := page + more;
    forall i, j | 0 <= i < j < |all| ensures Less(all[i], all[j]) {
      if i < |page| <= j {
        assert all[j] in more;
        if i < |page| - 1 { LessIsTransitive(all[i], next, all[j]); }
      }
    }
  }

  /** Whatever is created and deleted between the pages, the keys come in order,
      so none comes twice, and each was there when its page was read. */
  lemma {:induction false} FollowNeverRepeats(available: seq<set<string>>, limit: nat, cursor: string)
    requires limit > 0 && forall i :: 0 <= i < |available| ==> "" !in available[i]
    ensures var keys := Follow(available, limit, cursor).0;
            && Increasing(keys)
            && forall k :: k in keys ==>
                 AfterCursor(k, cursor) && exists i :: 0 <= i < |available| && k in available[i]
    decreases |available|
  {
    if available != [] {
      var s := Beyond(available[0], cursor);
      var (page, next) := FirstPage(s, limit);
      FirstPageMeaning(s, limit);
      if next != "" {
        var rest := available[1..];
        FollowNeverRepeats(rest, limit, next);
        var more := Follow(rest, limit, next).0;
        FollowJoins(page, next, more);
        assert next in page;
        forall k | k in more ensures AfterCursor(k, cursor) && exists i :: 0 <= i < |available| && k in available[i] {
          var i :| 0 <= i < |rest| && k in rest[i];
          assert k in available[i + 1];
          if cursor != "" { LessIsTransitive(cursor, next, k); }
        }
      }
    }
  }

  /** A key that was there all the time is not skipped: it has come, or the
      client stopped in front of it. */
  lemma {:induction false} FollowMissesNothing(available: seq<set<string>>, limit: nat, cursor: string, key: string)
    requires limit > 0 && AfterCursor(key, cursor)
    requires forall i :: 0 <= i < |available| ==> "" !in available[i] && key in available[i]
    ensures var (keys, last, done) := Follow(available, limit, cursor);
            key in keys || (!done && AfterCursor(key, last))
    decreases |available|
  {
    if available != [] {
      var s := Beyond(available[0], cursor);
      FirstPageMeaning(s, limit);
      var (page, next) := FirstPage(s, limit);
      assert key in s;
      if next != "" && key !in page {
        FollowMissesNothing(available[1..], limit, next, key);
      }
    }
  }

  /** On a store that does not change, the client ends after at most one page
      more than there are keys, with every key. */
  lemma {:induction false} FollowEnds(s: set<string>, pages: seq<set<string>>, limit: nat, cursor: string)
    requires limit > 0 && "" !in s
    requires forall i :: 0 <= i < |pages| ==> pages[i] == s
    requires |Beyond(s, cursor)| < |pages|
    ensures var (keys, _, done) := Follow(pages, limit, cursor);
            done && keys == SortedSeq(Beyond(s, cursor))
    decreases |pages|
  {
    var now := Beyond(s, cursor);
    var (page, next) := FirstPage(now, limit);
    FirstPageMeaning(now, limit);
    if next != "" {
      var later := Beyond(s, next);
      assert next in now && next !in later by { LessIsTotal(next, next); assert next in page; }
      forall k | k in later ensures k in now {
        if cursor != "" { LessIsTransitive(cursor, next, k); }
      }
      assert later <= now - {next};
      SubsetSize(later, now - {next});
      FollowEnds(s, pages[1..], limit, next);
      FollowNeverRepeats(pages, limit, cursor);
      var keys := Follow(pages, limit, cursor).0;
      forall k ensures k in keys <==> k in now {
        if k in now { FollowMissesNothing(pages, limit, cursor, k); }
      }
      IncreasingIsSortedSeq(keys, now);
    }
  }

  function Kept(s: set<string>, keep: string -> bool): set<string> {
    set k | k in s && keep(k)
  }

  /** What is left of each key set. */
  function Restrict(stores: seq<set<string>>, keep: string -> bool): (r: seq<set<string>>)
    ensures |r| == |stores|
    ensures forall i :: 0 <= i < |r| ==> r[i] == Kept(stores[i], keep)
  {
    if stores == [] then [] else [Kept(stores[0], keep)] + Restrict(stores[1..], keep)
  }

  /** bbolt stores no empty key. */
  predicate NoEmptyKey(stores: seq<set<string>>) {
    forall i :: 0 <= i < |stores| ==> "" !in stores[i]
  }

  predicate StoredOnce(stores: seq<set<string>>, key: string) {
    exists i :: 0 <= i < |stores| && key in stores[i]
  }

  predicate StoredThroughout(stores: seq<set<string>>, key: string) {
    forall i :: 0 <= i < |stores| ==> key in stores[i]
  }

  /** Keys in order that may come after a cursor, each kept, and stored in one of
      the states that were read. */
  ghost predicate Collected(stores: seq<set<string>>, keep: string -> bool, cursor: string, keys: seq<string>) {
    Increasing(keys) && forall k :: k in keys ==> keep(k) && AfterCursor(k, cursor) && StoredOnce(stores, k)
  }

  lemma RestrictedNeverRepeats(stores: seq<set<string>>, keep: string -> bool, limit: nat, cursor: string)
    requires limit > 0 && NoEmptyKey(stores)
    ensures Collected(stores, keep, cursor, Follow(Restrict(stores, keep), limit, cursor).0)
  {
    var available := Restrict(stores, keep);
    FollowNeverRepeats(available, limit, cursor);
    forall k | StoredOnce(available, k) ensures keep(k) && StoredOnce(stores, k) {
      var i :| 0 <= i < |available| && k in available[i];
      assert k in stores[i];
    }
    assert forall k :: k in Follow(available, limit, cursor).0 ==> StoredOnce(available, k);
  }

  lemma RestrictedMissesNothing(
    stores: seq<set<string>>, keep: string -> bool, limit: nat, cursor: string, key: string)
    requires limit > 0 && NoEmptyKey(stores) && StoredThroughout(stores, key) && keep(key) && AfterCursor(key, cursor)
    ensures var (keys, last, done) := Follow(Restrict(stores, keep), limit, cursor);
            key in keys || (!done && AfterCursor(key, last))
  {
    FollowMissesNothing(Restrict(stores, keep), limit, cursor, key);
  }

  lemma RestrictedEnds(s: set<string>, stores: seq<set<string>>, keep: string -> bool, limit: nat, cursor: string)
    requires limit > 0 && "" !in s && forall i :: 0 <= i < |stores| ==> stores[i] == s
    requires |Beyond(Kept(s, keep), cursor)| < |stores|
    ensures var (keys, _, done) := Follow(Restrict(stores, keep), limit, cursor);
            done && keys == SortedSeq(Beyond(Kept(s, keep), cursor))
  {
    FollowEnds(Kept(s, keep), Restrict(stores, keep), limit, cursor);
  }

  /** A client that follows the cursors of List through the links with a prefix;
      stores[i] holds the keys at the time of call i. */
  function FollowList(stores: seq<set<string>>, prefix: string, limit: nat, cursor: string): (seq<string>, string, bool)
    requires limit > 0
  {
    if stores == [] then ([], cursor, false) else
      var (page, next) := FirstPage(Scan(stores[0], prefix, cursor), limit);
      if next == "" then (page, "", true) else
        var (rest, last, done) := FollowList(stores[1..], prefix, limit, next);
        (page + rest, last, done)
  }

  function WithPrefix(prefix: string): string -> bool {
    (k: string) => prefix <= k
  }

  lemma ScanIsKept(keys: set<string>, prefix: string, cursor: string)
    requires cursor == "" || prefix <= cursor
    ensures Scan(keys, prefix, cursor) == Matching(keys, prefix, cursor)
         == Beyond(Kept(keys, WithPrefix(prefix)), cursor)
  {
    CursorWithPrefixHasNoGap(keys, prefix, cursor);
  }

  /** Every cursor on the way has the prefix, so no call hides a key. */
  lemma {:induction false} ListIsFollow(stores: seq<set<string>>, prefix: string, limit: nat, cursor: string)
    requires limit > 0 && (cursor == "" || prefix <= cursor) && NoEmptyKey(stores)
    ensures FollowList(stores, prefix, limit, cursor) == Follow(Restrict(stores, WithPrefix(prefix)), limit, cursor)
    decreases |stores|
  {
    if stores != [] {
      ScanIsKept(stores[0], prefix, cursor);
      var s := Scan(stores[0], prefix, cursor);
      FirstPageMeaning(s, limit);
      var (page, next) := FirstPage(s, limit);
      if next != "" {
        assert next in page;
        ListIsFollow(stores[1..], prefix, limit, next);
      }
    }
  }

  /** Following List under arbitrary creations and deletions gives keys with the
      prefix in increasing order, so none twice, each stored when it was read. */
  lemma ListNeverRepeats(stores: seq<set<string>>, prefix: string, limit: nat, cursor: string)
    requires limit > 0 && (cursor == "" || prefix <= cursor) && NoEmptyKey(stores)
    ensures Collected(stores, WithPrefix(prefix), cursor, FollowList(stores, prefix, limit, cursor).0)
  {
    ListIsFollow(stores, prefix, limit, cursor);
    RestrictedNeverRepeats(stores, WithPrefix(prefix), limit, cursor);
  }

  /** A key with the prefix that is stored throughout is returned before the
      cursor comes back empty. */
  lemma ListMissesNothing(stores: seq<set<string>>, prefix: string, limit: nat, cursor: string, key: string)
    requires limit > 0 && (cursor == "" || prefix <= cursor) && NoEmptyKey(stores)
    requires StoredThroughout(stores, key) && prefix <= key && AfterCursor(key, cursor)
    ensures var (keys, last, done) := FollowList(stores, prefix, limit, cursor);
            key in keys || (!done && AfterCursor(key, last))
  {
    ListIsFollow(stores, prefix, limit, cursor);
    RestrictedMissesNothing(stores, WithPrefix(prefix), limit, cursor, key);
  }

  /** On a store that does not change, one call more than there are keys is enough
      to get exactly the keys with the prefix. */
  lemma ListEnds(s: set<string>, stores: seq<set<string>>, prefix: string, limit: nat, cursor: string)
    requires limit > 0 && "" !in s && (cursor == "" || prefix <= cursor)
    requires forall i :: 0 <= i < |stores| ==> stores[i] == s
    requires |Matching(s, prefix, cursor)| < |stores|
    ensures var (keys, _, done) := FollowList(stores, prefix, limit, cursor);
            done && keys == SortedSeq(Matching(s, prefix, cursor))
  {
    ListIsFollow(stores, prefix, limit, cursor);
    ScanIsKept(s, prefix, cursor);
    RestrictedEnds(s, stores, WithPrefix(prefix), limit, cursor);
  }
}
