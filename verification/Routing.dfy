/** Where a request path goes, and why every key that can be stored is reached by
    its own path. */
module Routing {
  import opened Results
  import opened LinkStore
  import opened KeyRules
  import opened Access
  import opened AccessControl

  const API_BASE := "/.api/v1"
  const WELL_KNOWN := "/.well-known/"
  const RESERVED_PREFIXES := ["/.api/", "/.well-known/"]

  datatype Route = ToApi | ToWellKnown | ToHome | ToRobots | ToFavicon | ToRedirect

  predicate IsApiPath(p: string) {
    p == API_BASE || API_BASE + "/" <= p
  }

  function RouteMain(p: string): Route {
    if IsApiPath(p) then ToApi
    else if WELL_KNOWN <= p then ToWellKnown
    else if p == "/" then ToHome
    else if p == "/robots.txt" then ToRobots
    else if p == "/favicon.ico" then ToFavicon
    else ToRedirect
  }

  /** What a GET on a path answers when it reaches the redirect handler. */
  function Redirect(db: Db, path: string): Result<string> {
    if RouteMain(path) == ToRedirect && path in db.links then Ok(db.links[path].target) else Err(NotFound)
  }

  predicate NamespaceStart(c: char) {
    Alphanumeric(c) || c == '_' || c == '-'
  }

  predicate NamespaceSegment(seg: string) {
    seg != "" && NamespaceStart(seg[0]) && forall c :: c in seg ==> Alphanumeric(c) || c in "._~-"
  }

  /** The namespace pattern: one or more segments, each after a slash, and a slash
      at the end. */
  predicate NamespacePattern(ns: string) {
    var segs := Segments(ns);
    |segs| >= 3 && segs[0] == "" && segs[|segs| - 1] == "" &&
    forall i :: 0 < i < |segs| - 1 ==> NamespaceSegment(segs[i])
  }

  predicate ValidNamespace(ns: string) {
    NamespacePattern(ns) &&
    (forall p :: p in RESERVED_PREFIXES ==> !(p <= ns)) &&
    (forall k :: k in RESERVED_KEYS ==> ns != k + "/" && ns != k)
  }

  /** A key as random generation makes it. */
  predicate RandomKey(key: string) {
    exists n :: 0 < n < |key| && key[n] == '~' && key[n - 1] == '/' && (n == 1 || ValidNamespace(key[..n]))
  }

  predicate Storable(key: string) {
    ValidKey(key) || RandomKey(key)
  }

  /** What does not reach the redirect handler. */
  lemma RoutesMeaning(p: string)
    ensures RouteMain(p) == ToApi <==> p == "/.api/v1" || "/.api/v1/" <= p
    ensures RouteMain(p) == ToRedirect <==>
              && p != "/.api/v1" && !("/.api/v1/" <= p) && !("/.well-known/" <= p)
              && p !in ["/", "/robots.txt", "/favicon.ico"]
  {
    assert API_BASE + "/" == "/.api/v1/";
  }

  /** A path whose first segment does not start with a dot is never reserved,
      except for the three exact keys. */
  lemma PlainPathsAreRedirected(p: string)
    requires |p| >= 2 && p[0] == '/' && p[1] != '.' && p !in RESERVED_KEYS
    ensures RouteMain(p) == ToRedirect
  {
  }

  lemma ValidKeyIsPlain(key: string)
    requires ValidKey(key)
    ensures |key| >= 2 && key[1] != '.' && key[1] != '~'
  {
    assert RESERVED_KEYS[0] == "/";
    assert key != "/";
    var first := Segments(key[1..])[0];
    assert Segments(key)[1] == first;
    assert ValidSegment(first);
  }

  lemma NamespaceStartsPlain(ns: string)
    requires ValidNamespace(ns)
    ensures |ns| >= 2 && ns[0] == '/' && NamespaceStart(ns[1])
  {
    var rest := Segments(ns[1..]);
    assert Segments(ns)[1] == rest[0] && NamespaceSegment(rest[0]);
  }

  /** Every key that creation can store is routed to the redirect handler. */
  lemma StorableKeysAreRedirected(key: string)
    requires Storable(key)
    ensures RouteMain(key) == ToRedirect
  {
    if ValidKey(key) {
      ValidKeyIsPlain(key);
    } else {
      var n :| 0 < n < |key| && key[n] == '~' && key[n - 1] == '/' && (n == 1 || ValidNamespace(key[..n]));
      if n > 1 { NamespaceStartsPlain(key[..n]); }
      assert '~' !in "/" && '~' !in "/robots.txt" && '~' !in "/favicon.ico";
      assert RESERVED_KEYS[0] == "/" && RESERVED_KEYS[1] == "/robots.txt" && RESERVED_KEYS[2] == "/favicon.ico";
      assert '~' in key;
    }
    PlainPathsAreRedirected(key);
  }

  /** Namespaces of configured clients are valid. */
  ghost predicate Configured(c: Client) {
    forall i :: 0 <= i < |c.namespaces| ==> ValidNamespace(c.namespaces[i])
  }

  ghost predicate AllStorable(db: Db) {
    forall k :: k in db.links ==> Storable(k)
  }

  /** So the namespace check of random key generation never fails. */
  lemma PatternEndsWithSlash(ns: string)
    requires ValidNamespace(ns)
    ensures EndsWithSlash(ns)
  {
    if ns != "" && ns[|ns| - 1] != '/' {
      LastSegment(ns);
    }
  }

  lemma {:induction false} LastSegment(s: string)
    requires s != "" && s[|s| - 1] != '/'
    ensures Segments(s)[|Segments(s)| - 1] != ""
  {
    if |s| > 1 {
      LastSegment(s[1..]);
    }
  }

  lemma PickedKeysAreStorable(svc: Service, seen: Db, db: Db, c: Client, item: Item)
    requires Configured(c) && Prepare(svc, seen, c, item).Request?
    ensures var req := Prepare(svc, seen, c, item).req; db.PickKey(req).Ok? ==> Storable(db.PickKey(req).value)
  {
    var req := Prepare(svc, seen, c, item).req;
    if item.key == "" && db.PickKey(req).Ok? {
      var key := db.PickKey(req).value;
      match FirstMatch(svc.rules, req.target)
      case Some((rule, vars)) => KeyForIsFree(rule, vars, k => db.Free(k));
      case None =>
        var ns := c.FirstNamespace();
        FirstFreeIdMeaning(ns, item.ids, k => db.Free(k), 0);
        assert EndsWithSlash(ns);
        assert key[..|ns|] == ns && key[|ns|] == '~';
        assert ns == "/" || ValidNamespace(ns);
    }
  }

  lemma {:induction false} BatchKeepsStorable(svc: Service, db: Db, c: Client, items: seq<Item>)
    requires Configured(c) && AllStorable(db)
    ensures AllStorable(BatchAll(svc, db, c, items).0)
    decreases |items|
  {
    if items != [] {
      if Prepare(svc, items[0].seen, c, items[0]).Request? {
        PickedKeysAreStorable(svc, items[0].seen, db, c, items[0]);
      }
      BatchKeepsStorable(svc, BatchStep(svc, db, c, items[0]).0, c, items[1..]);
    }
  }

  lemma ServeKeepsStorable(svc: Service, db: Db, c: Client, w: WriteRequest)
    requires Configured(c) && AllStorable(db)
    ensures AllStorable(Serve(svc, db, c, w))
  {
    match w
    case Post(item, _) =>
      if Prepare(svc, item.seen, c, item).Request? {
        PickedKeysAreStorable(svc, item.seen, db, c, item);
      }
    case PostBatch(items, _) => BatchKeepsStorable(svc, db, c, items);
    case Put(_, _, _, _) =>
    case Remove(_, _) =>
  }

  lemma {:induction false} RunKeepsStorable(svc: Service, db: Db, visits: seq<Visit>)
    requires AllStorable(db) && forall i :: 0 <= i < |visits| ==> Configured(visits[i].client)
    ensures AllStorable(Run(svc, db, visits))
    decreases |visits|
  {
    if visits != [] {
      ServeKeepsStorable(svc, db, visits[0].client, visits[0].w);
      RunKeepsStorable(svc, Serve(svc, db, visits[0].client, visits[0].w), visits[1..]);
    }
  }

  /** Over every run of configured clients on a new store, a request for the path
      of a key answers with exactly the link that is stored under it. */
  lemma EveryStoredKeyIsReached(svc: Service, visits: seq<Visit>)
    requires forall i :: 0 <= i < |visits| ==> Configured(visits[i].client)
    ensures var db := Run(svc, Db(map[], map[]), visits);
            forall path :: Redirect(db, path) == if path in db.links then Ok(db.links[path].target) else Err(NotFound)
  {
    RunKeepsStorable(svc, Db(map[], map[]), visits);
    var db := Run(svc, Db(map[], map[]), visits);
    forall k | k in db.links ensures Redirect(db, k) == Ok(db.links[k].target) {
      StorableKeysAreRedirected(k);
    }
  }

  /** The path of the short URL that linkView builds: joining a key to the base
      URL merges runs of slashes. */
  function ShortPath(key: string): string {
    if |key| < 2 then key
    else if key[0] == '/' && key[1] == '/' then ShortPath(key[1..])
    else [key[0]] + ShortPath(key[1..])
  }

  predicate HasEmptySegment(key: string) {
    exists i :: 0 <= i < |key| - 1 && key[i] == '/' && key[i + 1] == '/'
  }

  lemma {:induction false} ShortPathIsNotLonger(key: string)
    ensures |ShortPath(key)| <= |key|
  {
    if |key| >= 2 {
      ShortPathIsNotLonger(key[1..]);
    }
  }

  /** The non-empty segments of a path. */
  function Parts(pieces: seq<string>): seq<string> {
    if pieces == [] then []
    else if pieces[0] == "" then Parts(pieces[1..])
    else [pieces[0]] + Parts(pieces[1..])
  }

  /** The short path has the same non-empty segments, in the same order, and no empty
      inner one: only the runs of slashes are merged. */
  lemma {:induction false} ShortPathMergesRuns(key: string)
    ensures !HasEmptySegment(ShortPath(key)) && Parts(Segments(ShortPath(key))) == Parts(Segments(key))
    ensures key != "" ==> ShortPath(key) != "" && ShortPath(key)[0] == key[0]
    ensures Segments(ShortPath(key))[0] == Segments(key)[0]
  {
    if |key| >= 2 {
      var rest := key[1..];
      ShortPathMergesRuns(rest);
      var short := ShortPath(rest);
      if key[0] == '/' && key[1] == '/' {
        FirstPiece(key);
        assert Segments(key) == [""] + Segments(rest);
      } else {
        ShortStep(key[0], rest, short);
      }
    }
  }

  lemma ShortStep(c: char, rest: string, short: string)
    requires !HasEmptySegment(short) && Parts(Segments(short)) == Parts(Segments(rest)) && rest != "" && short != ""
    requires short[0] == rest[0] && Segments(short)[0] == Segments(rest)[0] && !(c == '/' && rest[0] == '/')
    ensures !HasEmptySegment([c] + short) && Parts(Segments([c] + short)) == Parts(Segments([c] + rest))
    ensures Segments([c] + short)[0] == Segments([c] + rest)[0]
  {
    assert ([c] + short)[1..] == short && ([c] + rest)[1..] == rest;
    if i :| 0 <= i < |short| && ([c] + short)[i] == '/' && ([c] + short)[i + 1] == '/' {
      assert i > 0 ==> short[i - 1] == '/' && short[i] == '/';
    }
    PartsTail(Segments(short), Segments(rest), c);
  }

  lemma PartsTail(a: seq<string>, b: seq<string>, c: char)
    requires |a| >= 1 && |b| >= 1 && a[0] == b[0] && Parts(a) == Parts(b)
    ensures Parts(Prepend(c, a)) == Parts(Prepend(c, b)) && Prepend(c, a)[0] == Prepend(c, b)[0]
  {
    assert Parts(a) == (if a[0] == "" then [] else [a[0]]) + Parts(a[1..]);
    assert Parts(b) == (if b[0] == "" then [] else [b[0]]) + Parts(b[1..]);
    assert Parts(a[1..]) == Parts(b[1..]) by {
      var n := if a[0] == "" then 0 else 1;
      assert Parts(a)[n..] == Parts(a[1..]) && Parts(b)[n..] == Parts(b[1..]);
    }
    assert ([""] + a)[1..] == a && ([""] + b)[1..] == b;
    assert ([[c] + a[0]] + a[1..])[1..] == a[1..] && ([[c] + b[0]] + b[1..])[1..] == b[1..];
  }

  /** The short URL leads back to the key exactly when the key has no two slashes
      in a row. */
  lemma {:induction false} ShortPathRoundTripsIff(key: string)
    ensures ShortPath(key) == key <==> !HasEmptySegment(key)
  {
    if |key| >= 2 {
      var rest := key[1..];
      if key[0] == '/' && key[1] == '/' {
        ShortPathIsNotLonger(rest);
      } else {
        ShortPathRoundTripsIff(rest);
        assert key == [key[0]] + rest;
        if i :| 0 <= i < |key| - 1 && key[i] == '/' && key[i + 1] == '/' {
          assert rest[i - 1] == '/' && rest[i] == '/';
        }
        if i :| 0 <= i < |rest| - 1 && rest[i] == '/' && rest[i + 1] == '/' {
          assert key[i + 1] == '/' && key[i + 2] == '/';
        }
      }
    }
  }

  /** The short URL of a stored link answers with its target exactly when the key
      has no empty segment; otherwise it misses, or finds another link. */
  lemma ShortUrlReachesLinkIff(db: Db, key: string)
    requires db.Inverse() && key in db.links && Storable(key)
    ensures Redirect(db, ShortPath(key)) == Ok(db.links[key].target) <==> !HasEmptySegment(key)
  {
    ShortPathRoundTripsIff(key);
    StorableKeysAreRedirected(key);
  }

  /** Over every run of configured clients in which no request breaks the store: the
      short URL of a stored link answers with its target exactly when its key has
      no empty segment. */
  lemma StoredShortUrlsReachIff(svc: Service, visits: seq<Visit>, key: string)
    requires NothingBreaks(svc, Db(map[], map[]), visits)
    requires forall i :: 0 <= i < |visits| ==> Configured(visits[i].client)
    ensures var db := Run(svc, Db(map[], map[]), visits);
            key in db.links ==> (Redirect(db, ShortPath(key)) == Ok(db.links[key].target) <==> !HasEmptySegment(key))
  {
    var db := Run(svc, Db(map[], map[]), visits);
    RunKeepsSoundIff(svc, Db(map[], map[]), visits);
    RunKeepsStorable(svc, Db(map[], map[]), visits);
    if key in db.links {
      ShortUrlReachesLinkIff(db, key);
    }
  }

  /** Such keys can be chosen. */
  lemma EmptySegmentsAreValid()
    ensures ValidKey("//") && HasEmptySegment("//") && RouteMain(ShortPath("//")) == ToHome
  {
    assert ""[..] == "" && "/"[1..] == "" && "//"[1..] == "/";
    assert Segments("/") == ["", ""] && Segments("//") == ["", "", ""];
    assert "//"[0] == '/' && "//"[1] == '/';
  }

  predicate NamespaceChar(c: char) {
    'A' <= c <= 'Z' || 'a' <= c <= 'z' || '0' <= c <= '9' || c in "._~-"
  }

  /** Position by position: it ends with a slash, has no other characters than those of
      a segment, and every slash but the last is followed by a proper start. */
  predicate EndsProperly(t: string) {
    && t != "" && t[|t| - 1] == '/' && (forall i :: 0 <= i < |t| ==> t[i] == '/' || NamespaceChar(t[i]))
    && (forall i :: 0 <= i < |t| - 1 && t[i] == '/' ==> NamespaceStart(t[i + 1]))
  }

  /** The same of the pieces; the first one may go on from anywhere. */
  predicate GoodPieces(pieces: seq<string>) {
    && |pieces| >= 2 && pieces[|pieces| - 1] == "" && (forall i :: 0 <= i < |pieces[0]| ==> NamespaceChar(pieces[0][i]))
    && (forall i :: 0 < i < |pieces| - 1 ==> NamespaceSegment(pieces[i]))
  }

  lemma SegmentOfChars(seg: string)
    ensures NamespaceSegment(seg) <==>
              seg != "" && NamespaceStart(seg[0]) && forall i :: 0 <= i < |seg| ==> NamespaceChar(seg[i])
  {
    assert forall i :: 0 <= i < |seg| ==> seg[i] in seg;
  }

  lemma EndsStep(c: char, u: string)
    ensures c == '/' ==> (EndsProperly([c] + u) <==> u == "" || (EndsProperly(u) && NamespaceStart(u[0])))
    ensures c != '/' ==> (EndsProperly([c] + u) <==> NamespaceChar(c) && EndsProperly(u))
  {
    var t := [c] + u;
    assert forall i :: 0 <= i < |u| ==> t[i + 1] == u[i];
    assert t[0] == c;
    if EndsProperly(t) && u != "" {
      forall i | 0 <= i < |u| ensures u[i] == '/' || NamespaceChar(u[i]) {
        assert t[i + 1] == u[i];
      }
      forall i | 0 <= i < |u| - 1 && u[i] == '/' ensures NamespaceStart(u[i + 1]) {
        assert t[i + 1] == u[i] && t[i + 2] == u[i + 1];
      }
    }
  }

  lemma SlashInFront(rest: seq<string>)
    requires |rest| >= 1
    ensures GoodPieces([""] + rest) <==> rest == [""] || (GoodPieces(rest) && NamespaceSegment(rest[0]))
  {
    var pieces := [""] + rest;
    assert forall i :: 0 <= i < |rest| ==> pieces[i + 1] == rest[i];
    SegmentOfChars(rest[0]);
    if GoodPieces(pieces) && |rest| > 1 {
      assert pieces[1] == rest[0];
      forall i | 0 < i < |rest| - 1 ensures NamespaceSegment(rest[i]) {
        assert pieces[i + 1] == rest[i];
      }
    }
  }

  lemma CharInFront(c: char, rest: seq<string>)
    requires |rest| >= 1
    ensures GoodPieces([[c] + rest[0]] + rest[1..]) <==> |rest| > 1 && NamespaceChar(c) && GoodPieces(rest)
  {
    var pieces := [[c] + rest[0]] + rest[1..];
    assert forall i :: 0 < i < |rest| ==> pieces[i] == rest[i];
    assert forall i :: 0 <= i < |rest[0]| ==> pieces[0][i + 1] == rest[0][i];
    assert pieces[0][0] == c;
    if GoodPieces(pieces) {
      forall i | 0 <= i < |rest[0]| ensures NamespaceChar(rest[0][i]) {
        assert pieces[0][i + 1] == rest[0][i];
      }
    }
  }

  lemma PiecesStep(c: char, u: string)
    ensures c == '/' ==>
              (GoodPieces(Segments([c] + u)) <==> u == "" || (GoodPieces(Segments(u)) && NamespaceStart(u[0])))
    ensures c != '/' ==> (GoodPieces(Segments([c] + u)) <==> NamespaceChar(c) && GoodPieces(Segments(u)))
  {
    var rest := Segments(u);
    assert ([c] + u)[1..] == u;
    FirstPiece(u);
    SegmentOfChars(rest[0]);
    SlashInFront(rest);
    CharInFront(c, rest);
  }

  lemma {:induction false} PiecesEndProperly(t: string)
    ensures GoodPieces(Segments(t)) <==> EndsProperly(t)
  {
    if t != "" {
      assert t == [t[0]] + t[1..];
      PiecesEndProperly(t[1..]);
      PiecesStep(t[0], t[1..]);
      EndsStep(t[0], t[1..]);
    }
  }

  lemma PatternIsGood(ns: string)
    ensures NamespacePattern(ns) <==> |ns| >= 2 && ns[0] == '/' && GoodPieces(Segments(ns))
  {
    FirstPiece(ns);
    if ns != "" && ns[0] == '/' {
      FirstPiece(ns[1..]);
      assert Segments(ns) == [""] + Segments(ns[1..]);
    }
  }

  /** Valid namespaces, said without segments. */
  lemma ValidNamespaceIff(ns: string)
    ensures ValidNamespace(ns) <==>
              |ns| >= 2 && ns[0] == '/' && EndsProperly(ns) && ns != "/robots.txt/" && ns != "/favicon.ico/"
  {
    PatternIsGood(ns);
    PiecesEndProperly(ns);
    assert RESERVED_KEYS == ["/", "/robots.txt", "/favicon.ico"] && RESERVED_PREFIXES == ["/.api/", "/.well-known/"];
    assert "/robots.txt" + "/" == "/robots.txt/" && "/favicon.ico" + "/" == "/favicon.ico/" && "/" + "/" == "//";
    assert "/.api/"[1] == '.' && "/.well-known/"[1] == '.' && "//"[1] == '/';
    assert "/robots.txt"[|"/robots.txt"| - 1] == 't' && "/favicon.ico"[|"/favicon.ico"| - 1] == 'o';
  }
}
