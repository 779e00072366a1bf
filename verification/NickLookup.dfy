/** Resolving a query against the records of a channel and the present nicks. */
module NickLookup {
  import opened KeyOrder
  import opened Lists
  import opened Nicks

  /** A nick that the query starts; candidates are indexed by lower-case nick. */
  datatype Match = Match(nick: string, entry: Entry, present: bool)

  type Candidates = map<string, Match>

  /** One nick, several to choose from, or nothing found. */
  datatype Seen = Seen(query: string, found: bool, present: bool, nick: string, entry: Entry, others: seq<string>)

  lemma LowerTwice(s: string)
    ensures Lower(Lower(s)) == Lower(s)
  {
  }

  ghost function EntryOf(m: Records, nick: string): Entry
    requires OneSpelling(m)
  {
    if KeyOf(m, nick) == "" then UNSEEN else m[KeyOf(m, nick)]
  }

  /** The first spelling of every present nick, by lower-case nick. */
  function Shown(present: seq<string>): (r: map<string, string>)
    ensures forall ln :: ln in r ==> Lower(r[ln]) == ln && r[ln] in present
    ensures forall n :: n in present ==> Lower(n) in r
  {
    if present == [] then map[] else
      var last := |present| - 1;
      var r := Shown(present[..last]);
      if Lower(present[last]) in r then r else r[Lower(present[last]) := present[last]]
  }

  predicate Hit(lq: string, ln: string) {
    ln != lq && lq <= ln
  }

  function Lowers(m: Records): set<string> {
    set k | k in m :: Lower(k)
  }

  /** The lower-case nicks that the query starts, present or recorded. */
  function Reached(m: Records, shown: map<string, string>, lq: string): set<string> {
    set ln | ln in shown.Keys + Lowers(m) && Hit(lq, ln)
  }

  ghost function MatchAt(m: Records, shown: map<string, string>, ln: string): Match
    requires OneSpelling(m)
  {
    Match(if ln in shown then shown[ln] else KeyOf(m, ln), EntryOf(m, ln), ln in shown)
  }

  /** Whatever the query starts: the present spelling wins, the times are recorded ones. */
  ghost function Matching(m: Records, shown: map<string, string>, lq: string): Candidates
    requires OneSpelling(m)
  {
    map ln | ln in Reached(m, shown, lq) :: MatchAt(m, shown, ln)
  }

  /** The candidates among which to choose: the present ones if there are any. */
  function Eligible(c: Candidates): set<string> {
    var here := set ln | ln in c && c[ln].present;
    if here == {} then c.Keys else here
  }

  ghost function Resolve(query: string, c: Candidates): Seen {
    var among := Eligible(c);
    if among == {} then Seen(query, false, false, "", UNSEEN, [])
    else if ln :| ln in among && among == {ln} then
      Seen(query, true, c[ln].present, c[ln].nick, c[ln].entry, [])
    else Seen(query, true, false, "", UNSEEN, SortedSeq(Spellings(c, among)))
  }

  function Spellings(c: Candidates, among: set<string>): set<string>
    requires among <= c.Keys
  {
    set ln | ln in among :: c[ln].nick
  }

  ghost function Answer(m: Records, query: string, present: seq<string>): Seen
    requires OneSpelling(m)
  {
    var shown, lq := Shown(present), Lower(query);
    if lq in shown then Seen(query, true, true, shown[lq], EntryOf(m, shown[lq]), [])
    else if KeyOf(m, query) != "" then Seen(query, true, false, query, EntryOf(m, query), [])
    else Resolve(query, Matching(m, shown, lq))
  }

  method Index(present: seq<string>) returns (shown: map<string, string>)
    ensures shown == Shown(present)
  {
    shown := map[];
    for i := 0 to |present|
      invariant shown == Shown(present[..i])
    {
      assert present[..i + 1][..i] == present[..i];
      if Lower(present[i]) !in shown {
        shown := shown[Lower(present[i]) := present[i]];
      }
    }
    assert present[..|present|] == present;
  }

  function Added(c: Candidates, lq: string, nick: string, entry: Entry, present: bool): Candidates {
    var ln := Lower(nick);
    if !Hit(lq, ln) then c
    else
      var known := if ln in c then c[ln] else Match(nick, UNSEEN, false);
      c[ln := Match(known.nick, if known.entry.Last() == 0 then entry else known.entry, known.present || present)]
  }

  lemma AddedPresent(shown: map<string, string>, lq: string, ln: string, nick: string)
    requires ln !in shown && Lower(nick) == ln
    ensures Added(Matching(map[], shown, lq), lq, nick, UNSEEN, true) == Matching(map[], shown[ln := nick], lq)
  {
  }

  /** A new record changes what is found for its own nick only. */
  lemma RecordGrows(m: Records, m': Records, k: string, ln: string)
    requires OneSpelling(m) && OneSpelling(m') && k in m' && k !in m && m == m' - {k}
    ensures EqualFold(k, ln) ==> KeyOf(m, ln) == "" && KeyOf(m', ln) == k
    ensures !EqualFold(k, ln) ==> KeyOf(m, ln) == KeyOf(m', ln)
  {
  }

  lemma MatchGrows(m: Records, m': Records, shown: map<string, string>, k: string, ln: string)
    requires OneSpelling(m) && OneSpelling(m') && k in m' && k !in m && m == m' - {k}
    requires Lower(ln) == ln
    ensures ln != Lower(k) ==> MatchAt(m', shown, ln) == MatchAt(m, shown, ln)
    ensures ln == Lower(k) ==>
              MatchAt(m', shown, ln) == Match(if ln in shown then shown[ln] else k, m'[k], ln in shown)
    ensures ln == Lower(k) ==> MatchAt(m, shown, ln).entry == UNSEEN
  {
    RecordGrows(m, m', k, ln);
  }

  lemma MatchingGrows(m: Records, m': Records, shown: map<string, string>, lq: string, k: string)
    requires OneSpelling(m) && OneSpelling(m') && k in m' && k !in m && m == m' - {k}
    requires forall ln :: ln in shown ==> Lower(ln) == ln
    ensures forall ln :: ln in Reached(m', shown, lq) && ln != Lower(k) ==>
              MatchAt(m', shown, ln) == MatchAt(m, shown, ln)
  {
    ReachedIsLower(m', shown, lq);
    forall ln | ln in Reached(m', shown, lq) && ln != Lower(k)
      ensures MatchAt(m', shown, ln) == MatchAt(m, shown, ln)
    {
      MatchGrows(m, m', shown, k, ln);
    }
  }

  lemma AddedRecord(m: Records, m': Records, shown: map<string, string>, lq: string, k: string)
    requires OneSpelling(m) && OneSpelling(m') && k in m' && k !in m && m == m' - {k}
    requires forall ln :: ln in shown ==> Lower(ln) == ln
    ensures Added(Matching(m, shown, lq), lq, k, m'[k], false) == Matching(m', shown, lq)
  {
    MoreReached(m, m', shown, lq, k);
    MatchingGrows(m, m', shown, lq, k);
    MatchingHere(m, m', shown, lq, k);
    AddedIs(Matching(m, shown, lq), Matching(m', shown, lq), shown, lq, k, m'[k]);
  }

  lemma MatchingHere(m: Records, m': Records, shown: map<string, string>, lq: string, k: string)
    requires OneSpelling(m) && OneSpelling(m') && k in m' && k !in m && m == m' - {k}
    ensures var c, lk := Matching(m, shown, lq), Lower(k);
            && (lk in c <==> Hit(lq, lk) && lk in shown)
            && (lk in c ==> c[lk] == Match(shown[lk], UNSEEN, true))
            && MatchAt(m', shown, lk) == Match(if lk in shown then shown[lk] else k, m'[k], lk in shown)
  {
    NotRecorded(m, m', k);
    LowerTwice(k);
    MatchGrows(m, m', shown, k, Lower(k));
  }

  lemma AddedIs(c: Candidates, c': Candidates, shown: map<string, string>, lq: string, k: string, entry: Entry)
    requires c'.Keys == c.Keys + if Hit(lq, Lower(k)) then {Lower(k)} else {}
    requires forall ln :: ln in c' && ln != Lower(k) ==> c'[ln] == c[ln]
    requires Lower(k) in c ==>
               Hit(lq, Lower(k)) && Lower(k) in shown && c[Lower(k)] == Match(shown[Lower(k)], UNSEEN, true)
    requires Lower(k) in shown && Hit(lq, Lower(k)) ==> Lower(k) in c
    requires Hit(lq, Lower(k)) ==>
               c'[Lower(k)] == Match(if Lower(k) in shown then shown[Lower(k)] else k, entry, Lower(k) in shown)
    ensures Added(c, lq, k, entry, false) == c'
  {
  }

  lemma NotRecorded(m: Records, m': Records, k: string)
    requires OneSpelling(m') && k in m' && k !in m && m == m' - {k}
    ensures Lower(k) !in Lowers(m)
  {
  }

  lemma SubRecords(m: Records, part: Records)
    requires OneSpelling(m) && forall k :: k in part ==> k in m
    ensures OneSpelling(part)
  {
  }

  lemma MoreReached(m: Records, m': Records, shown: map<string, string>, lq: string, k: string)
    requires k in m' && m == m' - {k}
    ensures Reached(m', shown, lq) == Reached(m, shown, lq) + if Hit(lq, Lower(k)) then {Lower(k)} else {}
  {
  }

  lemma ReachedIsLower(m: Records, shown: map<string, string>, lq: string)
    requires forall ln :: ln in shown ==> Lower(ln) == ln
    ensures forall ln :: ln in Reached(m, shown, lq) ==> Lower(ln) == ln
  {
    forall j | j in m ensures Lower(Lower(j)) == Lower(j) {
      LowerTwice(j);
    }
  }

  /** The order of the maps does not matter: the candidates are a function of their contents. */
  method Collect(m: Records, shown: map<string, string>, lq: string) returns (c: Candidates)
    requires OneSpelling(m)
    requires forall ln :: ln in shown ==> Lower(ln) == ln && Lower(shown[ln]) == ln
    ensures c == Matching(m, shown, lq)
  {
    c := CollectPresent(shown, lq);
    c := CollectRecords(m, shown, lq, c);
  }

  method CollectPresent(shown: map<string, string>, lq: string) returns (c: Candidates)
    requires forall ln :: ln in shown ==> Lower(shown[ln]) == ln
    ensures c == Matching(map[], shown, lq)
  {
    c := map[];
    var todo: set<string>, done: map<string, string> := shown.Keys, map[];
    while todo != {}
      invariant todo <= shown.Keys && done == shown - todo
      invariant c == Matching(map[], done, lq)
      decreases |todo|
    {
      var ln :| ln in todo;
      AddedPresent(done, lq, ln, shown[ln]);
      c := Added(c, lq, shown[ln], UNSEEN, true);
      todo, done := todo - {ln}, done[ln := shown[ln]];
    }
    assert done == shown;
  }

  method CollectRecords(m: Records, shown: map<string, string>, lq: string, from: Candidates) returns (c: Candidates)
    requires OneSpelling(m)
    requires forall ln :: ln in shown ==> Lower(ln) == ln
    requires from == Matching(map[], shown, lq)
    ensures c == Matching(m, shown, lq)
  {
    c := from;
    var todo: set<string>, done: Records := m.Keys, map[];
    while todo != {}
      invariant todo <= m.Keys && done == m - todo
      invariant OneSpelling(done) && c == Matching(done, shown, lq)
      decreases |todo|
    {
      var k :| k in todo;
      SubRecords(m, done[k := m[k]]);
      AddedRecord(done, done[k := m[k]], shown, lq, k);
      c := Added(c, lq, k, m[k], false);
      todo, done := todo - {k}, done[k := m[k]];
    }
    assert done == m;
  }

  /** The lower-case nicks of the present candidates, in the order of the map. */
  method PresentOnes(c: Candidates) returns (r: seq<string>)
    ensures forall ln :: ln in r <==> ln in c && c[ln].present
    ensures Distinct(r)
  {
    r := [];
    var todo := c.Keys;
    while todo != {}
      invariant todo <= c.Keys && Distinct(r)
      invariant forall ln :: ln in r <==> ln in c && ln !in todo && c[ln].present
      decreases |todo|
    {
      var ln :| ln in todo;
      r, todo := if c[ln].present then r + [ln] else r, todo - {ln};
    }
  }

  /** All the lower-case nicks, in the order of the map. */
  method Ones(c: Candidates) returns (r: seq<string>)
    ensures forall ln :: ln in r <==> ln in c
    ensures Distinct(r)
  {
    r := [];
    var todo := c.Keys;
    while todo != {}
      invariant todo <= c.Keys && Distinct(r)
      invariant forall ln :: ln in r <==> ln in c && ln !in todo
      decreases |todo|
    {
      var ln :| ln in todo;
      r, todo := r + [ln], todo - {ln};
    }
  }

  /** Candidates are shown under their own nick, so two are never shown alike. */
  ghost predicate Spelled(c: Candidates) {
    forall ln :: ln in c ==> Lower(c[ln].nick) == ln
  }

  lemma MatchingIsSpelled(m: Records, shown: map<string, string>, lq: string)
    requires OneSpelling(m)
    requires forall ln :: ln in shown ==> Lower(ln) == ln && Lower(shown[ln]) == ln
    ensures Spelled(Matching(m, shown, lq))
  {
    var c := Matching(m, shown, lq);
    forall ln | ln in c ensures Lower(c[ln].nick) == ln {
      if ln !in shown {
        var k :| k in m && Lower(k) == ln;
        LowerTwice(k);
      }
    }
  }

  /** The nicks to choose from, sorted. */
  method List(c: Candidates, which: seq<string>) returns (others: seq<string>)
    requires Spelled(c) && Distinct(which) && forall ln :: ln in which ==> ln in c
    ensures Elements(which) <= c.Keys && others == SortedSeq(Spellings(c, Elements(which)))
  {
    var list := [];
    for i := 0 to |which|
      invariant |list| == i && forall j :: 0 <= j < i ==> list[j] == c[which[j]].nick
    {
      list := list + [c[which[i]].nick];
    }
    assert (set x | x in list) == Spellings(c, Elements(which)) by {
      assert forall j :: 0 <= j < |which| ==> list[j] == c[which[j]].nick && which[j] in which;
      assert forall ln :: ln in which ==> c[ln].nick in list;
    }
    assert forall i, j :: 0 <= i < j < |list| ==> Lower(list[i]) == which[i] && Lower(list[j]) == which[j];
    others := SortedSeq(set x | x in list);
  }

  /** Whatever the order of the maps, the same answer. */
  method Lookup(m: Records, query: string, present: seq<string>) returns (r: Seen)
    requires OneSpelling(m)
    ensures r == Answer(m, query, present)
  {
    var lq := Lower(query);
    var shown := Index(present);
    if lq in shown {
      var key := CiKey(m, shown[lq]);
      return Seen(query, true, true, shown[lq], if key == "" then UNSEEN else m[key], []);
    }
    var key := CiKey(m, query);
    if key != "" {
      return Seen(query, true, false, query, m[key], []);
    }
    forall ln | ln in shown ensures Lower(ln) == ln {
      LowerTwice(shown[ln]);
    }
    var c := Collect(m, shown, lq);
    MatchingIsSpelled(m, shown, lq);
    r := Choose(query, c);
  }

  lemma EligibleAre(c: Candidates, here: seq<string>, all: seq<string>)
    requires Distinct(all) && Distinct(here)
    requires forall ln :: ln in here <==> ln in c && c[ln].present
    requires forall ln :: ln in all <==> ln in c
    ensures |all| == |c| && |here| <= |all|
    ensures Eligible(c) == Elements(if here == [] then all else here)
  {
    var shown := set ln | ln in c && c[ln].present;
    assert shown == Elements(here);
    assert c.Keys == Elements(all);
    DistinctSize(all);
    DistinctSize(here);
    SubsetSize(shown, c.Keys);
    assert here != [] ==> here[0] in shown;
  }

  method Choose(query: string, c: Candidates) returns (r: Seen)
    requires Spelled(c)
    ensures r == Resolve(query, c)
  {
    if |c| == 0 {
      assert Eligible(c) == {};
      return Seen(query, false, false, "", UNSEEN, []);
    }
    var here := PresentOnes(c);
    ghost var all := Ones(c);
    EligibleAre(c, here, all);
    if |here| == 1 {
      assert Eligible(c) == {here[0]};
      return Seen(query, true, true, c[here[0]].nick, c[here[0]].entry, []);
    }
    if |c| == 1 {
      assert here == [] && Eligible(c) == {all[0]};
      var ln :| ln in c;
      return Seen(query, true, false, c[ln].nick, c[ln].entry, []);
    }
    r := Several(query, c, here);
  }

  lemma MoreThanOne(c: Candidates, which: seq<string>)
    requires Distinct(which) && |which| > 1 && Eligible(c) == Elements(which)
    ensures Eligible(c) != {} && forall ln :: Eligible(c) != {ln}
  {
    DistinctSize(which);
    forall ln: string ensures |{ln}| == 1 {
    }
  }

  method Several(query: string, c: Candidates, here: seq<string>) returns (r: Seen)
    requires Spelled(c) && |c| > 1 && |here| != 1 && Distinct(here)
    requires forall ln :: ln in here <==> ln in c && c[ln].present
    ensures r == Resolve(query, c)
  {
    var all := Ones(c);
    EligibleAre(c, here, all);
    var which := if |here| > 0 then here else all;
    MoreThanOne(c, which);
    var others := List(c, which);
    r := Seen(query, true, false, "", UNSEEN, others);
  }

  /** A nick that the query names or starts. */
  ghost predicate Candidate(m: Records, query: string, present: seq<string>, nick: string) {
    (nick in m || nick in present) && Lower(query) <= Lower(nick)
  }

  /** What the candidates are, said without the order of the maps. */
  ghost predicate Describes(m: Records, query: string, present: seq<string>, c: Candidates)
    requires OneSpelling(m)
  {
    && (forall nick :: Candidate(m, query, present, nick) && !EqualFold(nick, query) ==> Lower(nick) in c)
    && (forall ln :: ln in c ==>
          && Candidate(m, query, present, c[ln].nick) && Lower(c[ln].nick) == ln && ln != Lower(query)
          && c[ln].entry == EntryOf(m, c[ln].nick)
          && (c[ln].present <==> HasNick(present, ln)))
  }

  ghost predicate HasNick(present: seq<string>, ln: string) {
    exists n :: n in present && Lower(n) == ln
  }

  lemma MatchingDescribes(m: Records, query: string, present: seq<string>)
    requires OneSpelling(m)
    ensures Describes(m, query, present, Matching(m, Shown(present), Lower(query)))
  {
    var shown, lq := Shown(present), Lower(query);
    forall nick | Candidate(m, query, present, nick) && !EqualFold(nick, query)
      ensures Lower(nick) in Reached(m, shown, lq)
    {
    }
    forall ln | ln in Reached(m, shown, lq)
      ensures var n := MatchAt(m, shown, ln);
              && Candidate(m, query, present, n.nick) && Lower(n.nick) == ln
              && n.entry == EntryOf(m, n.nick) && (n.present <==> HasNick(present, ln))
    {
      MatchDescribes(m, query, present, ln);
    }
  }

  lemma MatchDescribes(m: Records, query: string, present: seq<string>, ln: string)
    requires OneSpelling(m) && ln in Reached(m, Shown(present), Lower(query))
    ensures var n := MatchAt(m, Shown(present), ln);
            && Candidate(m, query, present, n.nick) && Lower(n.nick) == ln
            && n.entry == EntryOf(m, n.nick) && (n.present <==> HasNick(present, ln))
  {
    if ln in Shown(present) {
      PresentDescribes(m, present, ln);
    } else {
      var k :| k in m && Lower(k) == ln;
      LowerTwice(k);
      RecordDescribes(m, k, ln);
      assert forall n :: n in present ==> Lower(n) in Shown(present);
    }
  }

  lemma PresentDescribes(m: Records, present: seq<string>, ln: string)
    requires OneSpelling(m) && ln in Shown(present)
    ensures MatchAt(m, Shown(present), ln).entry == EntryOf(m, Shown(present)[ln])
    ensures HasNick(present, ln)
  {
    var nick := Shown(present)[ln];
    LowerTwice(nick);
    SameNick(m, ln, nick);
  }

  lemma RecordDescribes(m: Records, k: string, ln: string)
    requires OneSpelling(m) && k in m && Lower(k) == ln && Lower(ln) == ln
    ensures KeyOf(m, ln) == k && KeyOf(m, k) == k
  {
  }

  lemma SameNick(m: Records, a: string, b: string)
    requires OneSpelling(m) && EqualFold(a, b)
    ensures KeyOf(m, a) == KeyOf(m, b) && EntryOf(m, a) == EntryOf(m, b)
  {
  }

  lemma ResolveMeaning(query: string, c: Candidates)
    requires Spelled(c)
    ensures var r := Resolve(query, c);
            && (r.found <==> c != map[])
            && (r.others != [] ==> |r.others| >= 2 && Increasing(r.others) && r.nick == "")
            && (r.others != [] ==> forall nick :: nick in r.others <==>
                  Lower(nick) in Eligible(c) && nick == c[Lower(nick)].nick)
            && (r.found && r.others == [] ==>
                  && Eligible(c) == {Lower(r.nick)}
                  && c[Lower(r.nick)] == Match(r.nick, r.entry, r.present))
  {
    var among := Eligible(c);
    if ln :| ln in among && among == {ln} {
    } else if among != {} {
      var nicks := Spellings(c, among);
      SortedSeqIncreases(nicks);
      var a :| a in among;
      assert among - {a} != {};
      var b :| b in among - {a};
      assert c[a].nick in nicks && c[b].nick in nicks && c[a].nick != c[b].nick;
      assert forall nick :: Lower(nick) in among && nick == c[Lower(nick)].nick ==> nick in nicks;
      SubsetSize({c[a].nick, c[b].nick}, nicks);
    }
  }

  /** Something is found exactly if some nick starts with the query, in any case. A
      list of others has at least two sorted nicks, each spelled as present or
      recorded and each longer than the query. */
  lemma AnswerMeaning(m: Records, query: string, present: seq<string>)
    requires OneSpelling(m)
    ensures var r := Answer(m, query, present);
            && (r.found <==> exists nick :: Candidate(m, query, present, nick))
            && (r.others != [] ==> |r.others| >= 2 && Increasing(r.others))
            && (forall nick :: nick in r.others ==> Candidate(m, query, present, nick) && !EqualFold(nick, query))
  {
    var shown, lq := Shown(present), Lower(query);
    if lq in shown {
      assert Candidate(m, query, present, shown[lq]);
    } else if KeyOf(m, query) != "" {
      assert Candidate(m, query, present, KeyOf(m, query));
    } else {
      var c := Matching(m, shown, lq);
      MatchingDescribes(m, query, present);
      NobodyIsNamed(m, query, present);
      ResolveMeaning(query, c);
      if c != map[] {
        var ln :| ln in c;
        assert Candidate(m, query, present, c[ln].nick);
      }
    }
  }

  lemma NobodyIsNamed(m: Records, query: string, present: seq<string>)
    requires OneSpelling(m) && Lower(query) !in Shown(present) && KeyOf(m, query) == ""
    ensures forall nick :: nick in m || nick in present ==> !EqualFold(nick, query)
  {
  }

  /** A single nick is the query itself; or else a candidate, and every other candidate
      is one that is not present while this one is. Its times are the recorded ones. */
  lemma SingleAnswerIsForced(m: Records, query: string, present: seq<string>)
    requires OneSpelling(m)
    ensures var r := Answer(m, query, present);
            r.found && r.others == [] ==>
              && r.entry == EntryOf(m, r.nick)
              && (r.present <==> HasNick(present, Lower(r.nick)))
              && (EqualFold(r.nick, query)
                  || (&& Candidate(m, query, present, r.nick)
                      && forall nick :: Candidate(m, query, present, nick) ==>
                           EqualFold(nick, r.nick) || (r.present && !HasNick(present, Lower(nick)))))
  {
    var shown, lq := Shown(present), Lower(query);
    if lq !in shown && KeyOf(m, query) == "" {
      var c, r := Matching(m, shown, lq), Answer(m, query, present);
      MatchingDescribes(m, query, present);
      NobodyIsNamed(m, query, present);
      ResolveMeaning(query, c);
      if r.found && r.others == [] {
        forall nick | Candidate(m, query, present, nick) && !EqualFold(nick, r.nick)
          ensures r.present && !HasNick(present, Lower(nick))
        {
          OnlyEligible(c, Lower(r.nick), Lower(nick));
        }
      }
    }
  }

  lemma OnlyEligible(c: Candidates, one: string, ln: string)
    requires Eligible(c) == {one} && ln in c && ln != one
    ensures c[one].present && !c[ln].present
  {
    assert c[ln].present ==> ln in Eligible(c);
  }

  /** x is how a nick is shown: as the first present spelling of it, or as recorded
      when it is not present. */
  ghost predicate ShownAs(m: Records, present: seq<string>, x: string) {
    || FirstSpelling(present, x)
    || (x in m && forall n :: n in present ==> !EqualFold(n, x))
  }

  ghost predicate FirstSpelling(present: seq<string>, x: string) {
    exists i :: 0 <= i < |present| && present[i] == x && forall j :: 0 <= j < i ==> !EqualFold(present[j], x)
  }

  lemma FirstStays(front: seq<string>, last: string, x: string)
    requires FirstSpelling(front, x)
    ensures FirstSpelling(front + [last], x)
  {
    var i :| 0 <= i < |front| && front[i] == x && forall j :: 0 <= j < i ==> !EqualFold(front[j], x);
    var all := front + [last];
    assert all[i] == x && forall j :: 0 <= j < i ==> all[j] == front[j];
  }

  lemma FirstComes(front: seq<string>, x: string)
    requires forall n :: n in front ==> !EqualFold(n, x)
    ensures FirstSpelling(front + [x], x)
  {
    var all := front + [x];
    assert all[|front|] == x && forall j :: 0 <= j < |front| ==> all[j] in front;
  }

  lemma {:induction false} ShownIsFirst(present: seq<string>, ln: string)
    requires ln in Shown(present)
    ensures FirstSpelling(present, Shown(present)[ln])
  {
    var n := |present| - 1;
    var front := present[..n];
    assert present == front + [present[n]];
    if ln in Shown(front) {
      ShownIsFirst(front, ln);
      FirstStays(front, present[n], Shown(front)[ln]);
    } else {
      FirstComes(front, present[n]);
    }
  }

  lemma FirstIsPresent(present: seq<string>, x: string)
    ensures FirstSpelling(present, x) ==> x in present
  {
  }

  /** A nick is shown in one spelling only. */
  lemma ShownOneWay(m: Records, present: seq<string>, x: string, y: string)
    requires OneSpelling(m) && ShownAs(m, present, x) && ShownAs(m, present, y) && EqualFold(x, y)
    ensures x == y
  {
    FirstIsPresent(present, x);
    FirstIsPresent(present, y);
    if FirstSpelling(present, x) && FirstSpelling(present, y) {
      var i :| 0 <= i < |present| && present[i] == x && forall j :: 0 <= j < i ==> !EqualFold(present[j], x);
      var k :| 0 <= k < |present| && present[k] == y && forall j :: 0 <= j < k ==> !EqualFold(present[j], y);
      assert i == k;
    }
  }

  lemma MatchIsShown(m: Records, present: seq<string>, query: string, ln: string)
    requires OneSpelling(m) && ln in Matching(m, Shown(present), Lower(query))
    ensures ShownAs(m, present, Matching(m, Shown(present), Lower(query))[ln].nick)
  {
    if ln in Shown(present) {
      ShownIsFirst(present, ln);
    } else {
      var k :| k in m && Lower(k) == ln;
      LowerTwice(k);
      RecordDescribes(m, k, ln);
    }
  }

  /** Whoever is named in full, in any case, is the answer: in the present spelling,
      or else in that of the query. */
  lemma NamedNickWins(m: Records, query: string, present: seq<string>)
    requires OneSpelling(m) && exists nick :: (nick in m || nick in present) && EqualFold(nick, query)
    ensures var r := Answer(m, query, present);
            && r.found && r.others == [] && EqualFold(r.nick, query)
            && if HasNick(present, Lower(query)) then r.present && FirstSpelling(present, r.nick)
               else !r.present && r.nick == query
  {
    if HasNick(present, Lower(query)) {
      var n :| n in present && Lower(n) == Lower(query);
      assert Lower(n) in Shown(present);
      ShownIsFirst(present, Lower(n));
    }
  }

  ghost predicate NamesNobody(m: Records, query: string, present: seq<string>) {
    forall nick :: nick in m || nick in present ==> !EqualFold(nick, query)
  }

  lemma NamesNobodyMeaning(m: Records, query: string, present: seq<string>)
    requires OneSpelling(m)
    ensures NamesNobody(m, query, present) <==> Lower(query) !in Shown(present) && KeyOf(m, query) == ""
  {
    if Lower(query) in Shown(present) {
      assert Shown(present)[Lower(query)] in present;
    }
  }

  /** What an ambiguous answer lists: of those that the query starts, every one that
      is present, or every one at all if none is present, as it is shown. */
  ghost predicate Listed(m: Records, query: string, present: seq<string>, x: string) {
    && ShownAs(m, present, x) && Lower(query) <= Lower(x) && !EqualFold(x, query)
    && (HasNick(present, Lower(x)) || NoneStarted(query, present))
  }

  /** An ambiguous answer lists all of them and nobody else. */
  lemma AmbiguousListIsComplete(m: Records, query: string, present: seq<string>)
    requires OneSpelling(m)
    ensures Answer(m, query, present).others != [] ==>
              && NamesNobody(m, query, present)
              && forall x :: x in Answer(m, query, present).others <==> Listed(m, query, present, x)
  {
    if Answer(m, query, present).others != [] {
      var c := Matching(m, Shown(present), Lower(query));
      NamesNobodyMeaning(m, query, present);
      MatchingDescribes(m, query, present);
      ResolveMeaning(query, c);
      forall x ensures Lower(x) in Eligible(c) && x == c[Lower(x)].nick <==> Listed(m, query, present, x) {
        EligibleIffListed(m, query, present, x);
      }
    }
  }

  lemma EligibleIffListed(m: Records, query: string, present: seq<string>, x: string)
    requires OneSpelling(m) && NamesNobody(m, query, present)
    ensures var c := Matching(m, Shown(present), Lower(query));
            Lower(x) in Eligible(c) && x == c[Lower(x)].nick <==> Listed(m, query, present, x)
  {
    var c, ln := Matching(m, Shown(present), Lower(query)), Lower(x);
    MatchingDescribes(m, query, present);
    PresentFirst(m, query, present);
    if ln in c {
      MatchIsShown(m, present, query, ln);
      if ShownAs(m, present, x) {
        ShownOneWay(m, present, x, c[ln].nick);
      }
    }
    if ShownAs(m, present, x) {
      assert x in m || x in present;
    }
  }

  lemma PresentFirst(m: Records, query: string, present: seq<string>)
    requires OneSpelling(m) && NamesNobody(m, query, present)
    ensures var c := Matching(m, Shown(present), Lower(query));
            forall ln :: ln in Eligible(c) <==> ln in c && (HasNick(present, ln) || NoneStarted(query, present))
  {
    var c := Matching(m, Shown(present), Lower(query));
    MatchingDescribes(m, query, present);
    forall n | n in present && Lower(query) <= Lower(n) ensures Lower(n) in c {
      assert Candidate(m, query, present, n);
    }
    forall ln | ln in c ensures Lower(query) <= ln && (c[ln].present <==> HasNick(present, ln)) {
    }
    EligibleMeaning(c, query, present);
  }

  /** Nobody present is one that the query starts. */
  ghost predicate NoneStarted(query: string, present: seq<string>) {
    forall n :: n in present ==> !(Lower(query) <= Lower(n))
  }

  lemma EligibleMeaning(c: Candidates, query: string, present: seq<string>)
    requires forall n :: n in present && Lower(query) <= Lower(n) ==> Lower(n) in c
    requires forall ln :: ln in c ==> Lower(query) <= ln && (c[ln].present <==> HasNick(present, ln))
    ensures forall ln :: ln in Eligible(c) <==> ln in c && (HasNick(present, ln) || NoneStarted(query, present))
  {
    var here := set ln | ln in c && c[ln].present;
    forall n | n in present && Lower(query) <= Lower(n) ensures Lower(n) in here {
      assert HasNick(present, Lower(n));
    }
    forall ln | ln in here ensures !NoneStarted(query, present) {
      var n :| n in present && Lower(n) == ln;
    }
  }

  /** Nothing but these answers: without a single nick no other field is set, and a
      nick that the query only starts is given as it is shown. */
  lemma AnswerFields(m: Records, query: string, present: seq<string>)
    requires OneSpelling(m)
    ensures var r := Answer(m, query, present);
            && r.query == query
            && (!r.found || r.others != [] ==> r.nick == "" && !r.present && r.entry == Entry(0, 0, 0))
            && (!r.found ==> r.others == [])
  {
  }

  lemma StartedNickIsShown(m: Records, query: string, present: seq<string>)
    requires OneSpelling(m)
    ensures var r := Answer(m, query, present);
            NamesNobody(m, query, present) && r.found && r.others == [] ==> ShownAs(m, present, r.nick)
  {
    var c, r := Matching(m, Shown(present), Lower(query)), Answer(m, query, present);
    if NamesNobody(m, query, present) && r.found && r.others == [] {
      NamesNobodyMeaning(m, query, present);
      MatchingDescribes(m, query, present);
      ResolveMeaning(query, c);
      MatchIsShown(m, present, query, Lower(r.nick));
    }
  }
}
