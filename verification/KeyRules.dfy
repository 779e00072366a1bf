/** Mapping rules: which keys are valid, and how a key is generated for a target. */
module KeyRules {
  import opened Results

  const MAX_KEY_LEN := 256
  const RESERVED_KEYS := ["/", "/robots.txt", "/favicon.ico"]
  const RANDOM_ATTEMPTS := 10

  /** The pieces of s between its slashes. */
  function Segments(s: string): (r: seq<string>)
    ensures |r| >= 1
  {
    if s == "" then [""] else Prepend(s[0], Segments(s[1..]))
  }

  /** The pieces with one more character in front. */
  function Prepend(c: char, pieces: seq<string>): (r: seq<string>)
    requires |pieces| >= 1
    ensures |r| >= 1
  {
    if c == '/' then [""] + pieces else [[c] + pieces[0]] + pieces[1..]
  }

  predicate Alphanumeric(c: char) {
    'A' <= c <= 'Z' || 'a' <= c <= 'z' || '0' <= c <= '9'
  }

  predicate KeyChar(c: char) {
    Alphanumeric(c) || c in "/._~-"
  }

  predicate ValidSegment(seg: string) {
    seg != ".." && (seg != "" ==> seg[0] != '.' && seg[0] != '~')
  }

  /** ValidateKey: what a rule or a client may choose as a key. */
  predicate ValidKey(key: string) {
    key != "" && key[0] == '/' && |key| <= MAX_KEY_LEN &&
    (forall c :: c in key ==> KeyChar(c)) &&
    (forall seg :: seg in Segments(key) ==> ValidSegment(seg)) &&
    key !in RESERVED_KEYS
  }

  /** One compiled rule: match gives the named groups when the pattern covers the
      whole target, template executes the key template. */
  datatype Rule = Rule(
    name: string,
    pattern: string -> Option<map<string, string>>,
    template: map<string, string> -> Option<string>,
    hash: string,
    hashMinlen: nat)
  {
    function Render(vars: map<string, string>): (r: Result<string>)
      ensures r.Ok? ==> ValidKey(r.value)
    {
      match template(vars)
      case None => Err(Internal)
      case Some(key) => if ValidKey(key) then Ok(key) else Err(Internal)
    }

    /** The candidate that uses the first l characters of the hash. */
    function Candidate(vars: map<string, string>, l: nat): (r: Result<string>)
      requires hash in vars && l <= |vars[hash]|
      ensures r.Ok? ==> ValidKey(r.value)
    {
      Render(vars[hash := vars[hash][..l]])
    }

    function ShortestLength(vars: map<string, string>): (l: nat)
      requires hash in vars
      ensures l <= |vars[hash]| && l <= hashMinlen
    {
      if hashMinlen > |vars[hash]| then |vars[hash]| else hashMinlen
    }

    function Extend(vars: map<string, string>, isFree: string -> bool, l: nat): Result<string>
      requires hash in vars && l <= |vars[hash]| + 1
      decreases |vars[hash]| + 1 - l
    {
      if l > |vars[hash]| then Err(Conflict)
      else match Candidate(vars, l)
        case Err(e) => Err(e)
        case Ok(key) => if isFree(key) then Ok(key) else Extend(vars, isFree, l + 1)
    }

    /** What GenerateKey computes. */
    function KeyFor(vars: map<string, string>, isFree: string -> bool): Result<string> {
      if hash == "" then
        match Render(vars)
        case Err(e) => Err(e)
        case Ok(key) => if isFree(key) then Ok(key) else Err(Conflict)
      else if hash !in vars || vars[hash] == "" then Err(Internal)
      else Extend(vars, isFree, ShortestLength(vars))
    }
  }

  method GenerateKey(rule: Rule, vars: map<string, string>, isFree: string -> bool) returns (r: Result<string>)
    ensures r == rule.KeyFor(vars, isFree)
  {
    if rule.hash == "" {
      var key := rule.Render(vars);
      if key.Err? {
        return key;
      }
      return if isFree(key.value) then key else Err(Conflict);
    }
    if rule.hash !in vars || vars[rule.hash] == "" {
      return Err(Internal);
    }
    var hashVal := vars[rule.hash];
    var v := vars;
    var minlen := rule.hashMinlen;
    if minlen > |hashVal| {
      minlen := |hashVal|;
    }
    var l := minlen;
    while l <= |hashVal|
      invariant minlen <= l <= |hashVal| + 1
      invariant v[rule.hash := ""] == vars[rule.hash := ""]
      invariant rule.KeyFor(vars, isFree) == rule.Extend(vars, isFree, l)
    {
      v := v[rule.hash := hashVal[..l]];
      assert v == vars[rule.hash := ""][rule.hash := hashVal[..l]] == vars[rule.hash := hashVal[..l]];
      var key := rule.Render(v);
      if key.Err? {
        return key;
      }
      if isFree(key.value) {
        return key;
      }
      l := l + 1;
    }
    return Err(Conflict);
  }

  /** A candidate renders and is taken. */
  predicate Taken(rule: Rule, vars: map<string, string>, isFree: string -> bool, l: nat)
    requires rule.hash in vars && l <= |vars[rule.hash]|
  {
    rule.Candidate(vars, l).Ok? && !isFree(rule.Candidate(vars, l).value)
  }

  /** The result of the extension loop from length l on: the candidate of the
      first length that is not taken, and a conflict exactly when all are taken. */
  lemma {:induction false} ExtendMeaning(rule: Rule, vars: map<string, string>, isFree: string -> bool, l: nat)
    requires rule.hash in vars && l <= |vars[rule.hash]| + 1
    ensures var r := rule.Extend(vars, isFree, l);
            if (forall m :: l <= m <= |vars[rule.hash]| ==> Taken(rule, vars, isFree, m)) then r == Err(Conflict)
            else exists m :: && l <= m <= |vars[rule.hash]|
                             && (forall j :: l <= j < m ==> Taken(rule, vars, isFree, j))
                             && !Taken(rule, vars, isFree, m) && r == rule.Candidate(vars, m)
    decreases |vars[rule.hash]| + 1 - l
  {
    if l <= |vars[rule.hash]| {
      if Taken(rule, vars, isFree, l) {
        ExtendMeaning(rule, vars, isFree, l + 1);
        assert rule.Extend(vars, isFree, l) == rule.Extend(vars, isFree, l + 1);
        if !(forall m :: l + 1 <= m <= |vars[rule.hash]| ==> Taken(rule, vars, isFree, m)) {
          var m :| && l + 1 <= m <= |vars[rule.hash]|
                   && (forall j :: l + 1 <= j < m ==> Taken(rule, vars, isFree, j))
                   && !Taken(rule, vars, isFree, m) && rule.Extend(vars, isFree, l + 1) == rule.Candidate(vars, m);
          assert forall j :: l <= j < m ==> Taken(rule, vars, isFree, j);
        }
      } else {
        assert rule.Extend(vars, isFree, l) == rule.Candidate(vars, l);
      }
    }
  }

  /** What the template gives for a setting of the groups, as far as it is a valid key. */
  function Rendered(rule: Rule, vars: map<string, string>): Option<string> {
    match rule.template(vars)
    case None => None
    case Some(key) => if ValidKey(key) then Some(key) else None
  }

  /** The groups with the hash cut to l characters. */
  function WithHash(rule: Rule, vars: map<string, string>, l: nat): map<string, string>
    requires rule.hash in vars && l <= |vars[rule.hash]|
  {
    vars[rule.hash := vars[rule.hash][..l]]
  }

  predicate TakenAt(rule: Rule, vars: map<string, string>, isFree: string -> bool, l: nat)
    requires rule.hash in vars && l <= |vars[rule.hash]|
  {
    var key := Rendered(rule, WithHash(rule, vars, l));
    key.Some? && !isFree(key.value)
  }

  /** From length least up to m, m excluded, every key is valid and taken. */
  predicate TakenFrom(rule: Rule, vars: map<string, string>, isFree: string -> bool, least: nat, m: nat)
    requires rule.hash in vars && m <= |vars[rule.hash]| + 1
  {
    forall l :: least <= l < m ==> TakenAt(rule, vars, isFree, l)
  }

  lemma CandidateIsRendered(rule: Rule, vars: map<string, string>, isFree: string -> bool, l: nat)
    requires rule.hash in vars && l <= |vars[rule.hash]|
    ensures rule.Candidate(vars, l) ==
            match Rendered(rule, WithHash(rule, vars, l)) case None => Err(Internal) case Some(key) => Ok(key)
    ensures Taken(rule, vars, isFree, l) <==> TakenAt(rule, vars, isFree, l)
  {
  }

  /** The key of a rule without hash is the rendered one, if it is valid and free. */
  lemma PlainKeyMeaning(rule: Rule, vars: map<string, string>, isFree: string -> bool)
    requires rule.hash == ""
    ensures rule.KeyFor(vars, isFree) ==
            match Rendered(rule, vars)
            case None => Err(Internal)
            case Some(key) => if isFree(key) then Ok(key) else Err(Conflict)
  {
  }

  /** The key of a hash rule uses at least the configured number of hash characters,
      or all of them if there are fewer; it is the first one from there on that is
      not valid and taken, and a conflict if there is none up to the whole hash. */
  lemma HashKeyMeaning(rule: Rule, vars: map<string, string>, isFree: string -> bool)
    requires rule.hash != ""
    ensures var r := rule.KeyFor(vars, isFree);
            if rule.hash !in vars || vars[rule.hash] == "" then r == Err(Internal)
            else
              var size := |vars[rule.hash]|;
              var least := if rule.hashMinlen > size then size else rule.hashMinlen;
              if TakenFrom(rule, vars, isFree, least, size + 1) then r == Err(Conflict)
              else exists m ::
                && least <= m <= size && TakenFrom(rule, vars, isFree, least, m)
                && match Rendered(rule, WithHash(rule, vars, m))
                   case None => r == Err(Internal)
                   case Some(key) => isFree(key) && r == Ok(key)
  {
    if rule.hash in vars && vars[rule.hash] != "" {
      var size := |vars[rule.hash]|;
      var least := if rule.hashMinlen > size then size else rule.hashMinlen;
      ExtendMeaning(rule, vars, isFree, least);
      assert rule.KeyFor(vars, isFree) == rule.Extend(vars, isFree, least);
      forall l | least <= l <= size ensures Taken(rule, vars, isFree, l) <==> TakenAt(rule, vars, isFree, l) {
        CandidateIsRendered(rule, vars, isFree, l);
      }
      if !TakenFrom(rule, vars, isFree, least, size + 1) {
        var m :| && least <= m <= size && (forall j :: least <= j < m ==> Taken(rule, vars, isFree, j))
                 && !Taken(rule, vars, isFree, m) && rule.KeyFor(vars, isFree) == rule.Candidate(vars, m);
        CandidateIsRendered(rule, vars, isFree, m);
        assert TakenFrom(rule, vars, isFree, least, m);
      }
    }
  }

  /** A generated key is always one that the caller reported free. */
  lemma KeyForIsFree(rule: Rule, vars: map<string, string>, isFree: string -> bool)
    ensures var r := rule.KeyFor(vars, isFree); r.Ok? ==> isFree(r.value) && ValidKey(r.value)
  {
    if rule.hash != "" && rule.hash in vars && vars[rule.hash] != "" {
      ExtendMeaning(rule, vars, isFree, rule.ShortestLength(vars));
    }
  }

  /** The first rule whose pattern covers the target. */
  function FirstMatch(rules: seq<Rule>, target: string): Option<(Rule, map<string, string>)> {
    if rules == [] then None
    else match rules[0].pattern(target)
      case Some(vars) => Some((rules[0], vars))
      case None => FirstMatch(rules[1..], target)
  }

  method Match(rules: seq<Rule>, target: string) returns (r: Option<(Rule, map<string, string>)>)
    ensures r == FirstMatch(rules, target)
  {
    assert rules[0..] == rules;
    for i := 0 to |rules|
      invariant FirstMatch(rules, target) == FirstMatch(rules[i..], target)
    {
      assert rules[i..][1..] == rules[i + 1..];
      var vars := rules[i].pattern(target);
      if vars.Some? {
        return Some((rules[i], vars.value));
      }
    }
    return None;
  }

  lemma {:induction false} FirstMatchMeaning(rules: seq<Rule>, target: string)
    ensures match FirstMatch(rules, target)
            case None => forall i :: 0 <= i < |rules| ==> rules[i].pattern(target).None?
            case Some((rule, vars)) =>
              exists i :: 0 <= i < |rules| && rules[i] == rule && rule.pattern(target) == Some(vars) &&
                          forall j :: 0 <= j < i ==> rules[j].pattern(target).None?
  {
    if rules != [] {
      if rules[0].pattern(target).None? {
        FirstMatchMeaning(rules[1..], target);
        if FirstMatch(rules, target).Some? {
          var rule, vars := FirstMatch(rules, target).value.0, FirstMatch(rules, target).value.1;
          var i :| 0 <= i < |rules| - 1 && rules[1..][i] == rule && rule.pattern(target) == Some(vars) &&
                   forall j :: 0 <= j < i ==> rules[1..][j].pattern(target).None?;
          forall j | 0 <= j < i + 1 ensures rules[j].pattern(target).None? {
            if j > 0 { assert rules[1..][j - 1].pattern(target).None?; }
          }
          assert rules[i + 1] == rule;
        }
      }
    }
  }

  predicate EndsWithSlash(s: string) {
    s != "" && s[|s| - 1] == '/'
  }

  /** The random ids that the attempts draw are given by ids; a source that runs
      dry is a read error. */
  function FirstFreeId(namespace: string, ids: seq<string>, isFree: string -> bool, attempt: nat): Result<string>
    decreases RANDOM_ATTEMPTS - attempt
  {
    if attempt >= RANDOM_ATTEMPTS || attempt >= |ids| then Err(Internal)
    else if isFree(namespace + "~" + ids[attempt]) then Ok(namespace + "~" + ids[attempt])
    else FirstFreeId(namespace, ids, isFree, attempt + 1)
  }

  function RandomKeyFor(namespace: string, ids: seq<string>, isFree: string -> bool): Result<string> {
    if EndsWithSlash(namespace) then FirstFreeId(namespace, ids, isFree, 0) else Err(Internal)
  }

  method GenerateRandomKey(namespace: string, ids: seq<string>, isFree: string -> bool) returns (r: Result<string>)
    ensures r == RandomKeyFor(namespace, ids, isFree)
  {
    if !EndsWithSlash(namespace) {
      return Err(Internal);
    }
    for attempt := 0 to RANDOM_ATTEMPTS
      invariant RandomKeyFor(namespace, ids, isFree) == FirstFreeId(namespace, ids, isFree, attempt)
    {
      if attempt >= |ids| {
        return Err(Internal);
      }
      var key := namespace + "~" + ids[attempt];
      if isFree(key) {
        return Ok(key);
      }
    }
    return Err(Internal);
  }

  /** A random key is the first free one of the namespace and the drawn ids; it
      fails exactly when every one of the ten attempts is taken or missing. */
  lemma {:induction false} FirstFreeIdMeaning(namespace: string, ids: seq<string>, isFree: string -> bool, attempt: nat)
    ensures match FirstFreeId(namespace, ids, isFree, attempt)
            case Ok(key) =>
              isFree(key) && exists i ::
                && attempt <= i < RANDOM_ATTEMPTS && i < |ids| && key == namespace + "~" + ids[i]
                && forall j :: attempt <= j < i ==> !isFree(namespace + "~" + ids[j])
            case Err(e) =>
              && e == Internal
              && forall i :: attempt <= i < RANDOM_ATTEMPTS && i < |ids| ==> !isFree(namespace + "~" + ids[i])
    decreases RANDOM_ATTEMPTS - attempt
  {
    if attempt < RANDOM_ATTEMPTS && attempt < |ids| {
      FirstFreeIdMeaning(namespace, ids, isFree, attempt + 1);
      if isFree(namespace + "~" + ids[attempt]) {
        assert FirstFreeId(namespace, ids, isFree, attempt) == Ok(namespace + "~" + ids[attempt]);
      }
    }
  }

  /** A slash cuts the segments. */
  lemma {:induction false} SegmentsAfterSlash(a: string, b: string)
    ensures Segments(a + "/" + b) == Segments(a) + Segments(b)
  {
    if a == "" {
      assert "" + "/" + b == "/" + b;
    } else {
      SegmentsAfterSlash(a[1..], b);
      assert (a + "/" + b)[1..] == a[1..] + "/" + b;
      PrependJoins(a[0], Segments(a[1..]), Segments(b));
    }
  }

  lemma PrependJoins(c: char, x: seq<string>, y: seq<string>)
    requires |x| >= 1
    ensures Prepend(c, x + y) == Prepend(c, x) + y
  {
  }

  /** Random keys are never valid keys, so they cannot collide with a key that a
      rule or a client chose. */
  lemma RandomKeysAreNotValidKeys(namespace: string, id: string)
    requires EndsWithSlash(namespace)
    ensures !ValidKey(namespace + "~" + id)
  {
    var a := namespace[..|namespace| - 1];
    assert namespace + "~" + id == a + "/" + ("~" + id);
    SegmentsAfterSlash(a, "~" + id);
    var seg := Segments("~" + id)[0];
    assert seg[0] == '~';
    assert Segments(namespace + "~" + id)[|Segments(a)|] == seg;
    assert seg in Segments(namespace + "~" + id) && !ValidSegment(seg);
  }

  /** No segment of s starts with a dot or a tilde, said position by position. */
  predicate SlashesWell(s: string) {
    forall i :: 0 <= i < |s| - 1 && s[i] == '/' ==> s[i + 1] != '.' && s[i + 1] != '~'
  }

  lemma FirstPiece(u: string)
    ensures Segments(u) == [""] <==> u == ""
    ensures Segments(u)[0] == "" <==> u == "" || u[0] == '/'
    ensures Segments(u)[0] != "" ==> Segments(u)[0][0] == u[0]
  {
  }

  lemma HeadSegment(s: string)
    ensures ValidSegment(Segments(s)[0]) <==> s == "" || (s[0] != '.' && s[0] != '~')
  {
    FirstPiece(s);
  }

  predicate AllValid(pieces: seq<string>) {
    forall piece :: piece in pieces ==> ValidSegment(piece)
  }

  lemma AllValidSplits(pieces: seq<string>)
    requires pieces != []
    ensures AllValid(pieces) <==> ValidSegment(pieces[0]) && AllValid(pieces[1..])
  {
    assert forall piece :: piece in pieces <==> piece == pieces[0] || piece in pieces[1..];
  }

  lemma {:induction false} TailSegments(s: string)
    ensures AllValid(Segments(s)[1..]) <==> SlashesWell(s)
  {
    if s != "" {
      var t := s[1..];
      TailSegments(t);
      HeadSegment(t);
      AllValidSplits(Segments(t));
      assert Segments(s)[1..] == if s[0] == '/' then Segments(t) else Segments(t)[1..];
      assert SlashesWell(s) <==> SlashesWell(t) && (s[0] == '/' && t != "" ==> t[0] != '.' && t[0] != '~') by {
        assert forall i :: 0 <= i < |t| ==> t[i] == s[i + 1];
      }
    }
  }

  /** Valid keys, said without segments: one to 256 unreserved characters and slashes,
      a slash in front, no dot or tilde behind a slash, and none of three names. */
  lemma ValidKeyIff(key: string)
    ensures ValidKey(key) <==>
              && 0 < |key| <= 256 && key[0] == '/'
              && (forall i :: 0 <= i < |key| ==>
                    'A' <= key[i] <= 'Z' || 'a' <= key[i] <= 'z' || '0' <= key[i] <= '9' || key[i] in "/._~-")
              && SlashesWell(key) && key != "/" && key != "/robots.txt" && key != "/favicon.ico"
  {
    TailSegments(key);
    HeadSegment(key);
    AllValidSplits(Segments(key));
    assert RESERVED_KEYS == ["/", "/robots.txt", "/favicon.ico"];
    assert forall i :: 0 <= i < |key| ==> key[i] in key;
  }
}
