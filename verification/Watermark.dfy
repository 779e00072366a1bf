/** The watermark that the feed monitors keep: the time of the newest processed
    event, and the ids already processed at exactly that time. */
module Watermark {
  import opened Results
  import opened Lists

  /** Times are nanoseconds since Go's zero time, so the zero time is 0. */
  const SECOND := 1_000_000_000
  const ZERO_TIME := 0

  /** RFC 3339 without a fraction (section 5.6) drops what is below a second. */
  function Truncate(t: int): int {
    t - t % SECOND
  }

  datatype Event<Id, P> = Event(id: Id, at: int, payload: P)

  /** at is None until the first event was processed. */
  datatype Mark<Id(==)> = Mark(at: Option<int>, ids: seq<Id>) {
    function LastAt(): int {
      if at.Some? then at.value else ZERO_TIME
    }

    /** Newer than the watermark, or of its second and not processed yet. */
    predicate IsNew<P>(e: Event<Id, P>) {
      e.at > LastAt() || (e.at == LastAt() && e.id !in ids)
    }

    /** The new events of an oldest-first list. */
    function News<P>(es: seq<Event<Id, P>>): seq<Event<Id, P>> {
      if es == [] then []
      else News(es[..|es| - 1]) + (if IsNew(es[|es| - 1]) then [es[|es| - 1]] else [])
    }

    /** The watermark after the accepted events of one poll. */
    function Advance<P>(accepted: seq<Event<Id, P>>): Mark<Id> {
      if accepted == [] then this else
        var newest := Newest(accepted);
        Mark(Some(Truncate(newest)), (if newest == LastAt() then ids else []) + IdsAt(accepted, newest))
    }
  }

  function Newest<Id, P>(es: seq<Event<Id, P>>): (t: int)
    requires es != []
    ensures forall e :: e in es ==> e.at <= t
    ensures exists e :: e in es && e.at == t
  {
    if |es| == 1 then es[0].at
    else
      var t := Newest(es[..|es| - 1]);
      var last := es[|es| - 1];
      assert es == es[..|es| - 1] + [last];
      if last.at > t then assert last in es; last.at else t
  }

  function IdsAt<Id, P>(es: seq<Event<Id, P>>, t: int): (ids: seq<Id>)
    ensures forall e :: e in es && e.at == t ==> e.id in ids
  {
    if es == [] then []
    else
      var last := es[|es| - 1];
      assert es == es[..|es| - 1] + [last];
      IdsAt(es[..|es| - 1], t) + (if last.at == t then [last.id] else [])
  }

  /** The loop that both monitors use to find the newest time. */
  method NewestOf<Id, P>(events: seq<Event<Id, P>>) returns (maxT: int)
    requires events != []
    ensures maxT == Newest(events)
  {
    maxT := events[0].at;
    assert events[..1] == [events[0]];
    for i := 1 to |events|
      invariant maxT == Newest(events[..i])
    {
      assert events[..i + 1][..i] == events[..i];
      if events[i].at > maxT {
        maxT := events[i].at;
      }
    }
    assert events[..|events|] == events;
  }

  /** And the loop that collects the ids of that time. */
  method IdsOf<Id, P>(events: seq<Event<Id, P>>, at: int) returns (ids: seq<Id>)
    ensures ids == IdsAt(events, at)
  {
    ids := [];
    for i := 0 to |events|
      invariant ids == IdsAt(events[..i], at)
    {
      assert events[..i + 1][..i] == events[..i];
      if events[i].at == at {
        ids := ids + [events[i].id];
      }
    }
    assert events[..|events|] == events;
  }

  function Reverse<T>(s: seq<T>): (r: seq<T>)
    ensures |r| == |s| && forall i :: 0 <= i < |s| ==> r[i] == s[|s| - 1 - i]
  {
    seq(|s|, i requires 0 <= i < |s| => s[|s| - 1 - i])
  }

  lemma ReverseMember<T>(s: seq<T>, e: T)
    requires e in s
    ensures e in Reverse(s)
  {
    var i :| 0 <= i < |s| && s[i] == e;
    assert Reverse(s)[|s| - 1 - i] == e;
  }

  /** The watermark of a first, silent poll: as if no event had been processed. */
  function Seed<Id(==), P>(es: seq<Event<Id, P>>): Mark<Id>
    requires es != []
  {
    Mark(Some(Truncate(Newest(es))), IdsAt(es, Newest(es)))
  }

  ghost predicate WholeSeconds<Id, P>(es: seq<Event<Id, P>>) {
    forall e :: e in es ==> e.at % SECOND == 0
  }

  predicate DistinctIds<Id(==), P>(es: seq<Event<Id, P>>) {
    forall i, j :: 0 <= i < j < |es| ==> es[i].id != es[j].id
  }

  ghost predicate Chronological<Id, P>(es: seq<Event<Id, P>>) {
    forall i, j :: 0 <= i <= j < |es| ==> es[i].at <= es[j].at
  }

  lemma {:induction false} NewsMembers<Id, P>(m: Mark<Id>, es: seq<Event<Id, P>>)
    ensures forall e {:trigger e in m.News(es)} :: e in m.News(es) ==> e in es && m.IsNew(e)
    ensures forall e {:trigger e in es} :: e in es && m.IsNew(e) ==> e in m.News(es)
  {
    if es != [] {
      NewsMembers(m, es[..|es| - 1]);
      assert es == es[..|es| - 1] + [es[|es| - 1]];
    }
  }

  lemma {:induction false} NewsSplits<Id, P>(m: Mark<Id>, a: seq<Event<Id, P>>, b: seq<Event<Id, P>>)
    ensures m.News(a + b) == m.News(a) + m.News(b)
  {
    if b == [] {
      assert a + b == a;
    } else {
      NewsSplits(m, a, b[..|b| - 1]);
      assert (a + b)[..|a + b| - 1] == a + b[..|b| - 1];
    }
  }

  /** e is neither one of the events of es nor older than one of them. */
  ghost predicate Outlives<Id, P>(es: seq<Event<Id, P>>, e: Event<Id, P>) {
    forall x :: x in es ==> x.at <= e.at && (x.at == e.at ==> x.id != e.id)
  }

  /** With whole seconds, an event is new after an advance exactly if it was new
      before and neither accepted nor older than an accepted one. */
  lemma AdvanceIsExact<Id, P>(m: Mark<Id>, accepted: seq<Event<Id, P>>, e: Event<Id, P>)
    requires WholeSeconds(accepted) && forall x :: x in accepted ==> m.IsNew(x)
    ensures m.Advance(accepted).IsNew(e) <==> m.IsNew(e) && Outlives(accepted, e)
  {
    if accepted != [] {
      var newest := Newest(accepted);
      assert newest % SECOND == 0 && newest >= m.LastAt();
      IdsAtMembers(accepted, newest);
    }
  }

  /** It happens: half a second is enough. */
  lemma FractionIsNewAgain()
    ensures var e := Event(1, SECOND + SECOND / 2, ());
            var m := Mark(Some(0), []);
            m.News([e]) == [e] && m.Advance(m.News([e])).News([e]) == [e]
  {
    var e := Event(1, SECOND + SECOND / 2, ());
    var m := Mark(Some(0), []);
    assert [e][..0] == [] && m.News([e]) == [] + [e] == [e];
    assert Newest([e]) == e.at && Truncate(e.at) == SECOND;
    assert m.Advance([e]).News([e]) == [] + [e];
  }

  /** After seeding, exactly the events are new that are not in the seeding list
      and not older than one of it. */
  lemma SeedIsExact<Id, P>(es: seq<Event<Id, P>>, e: Event<Id, P>)
    requires WholeSeconds(es) && es != []
    ensures Seed(es).IsNew(e) <==> Outlives(es, e)
  {
    IdsAtMembers(es, Newest(es));
  }

  /** A poll makes every event of its list processed, and no processed one new. */
  lemma AdvanceForgetsNothing<Id, P>(m: Mark<Id>, es: seq<Event<Id, P>>, e: Event<Id, P>)
    requires WholeSeconds(es) && (e in es || !m.IsNew(e))
    ensures !m.Advance(m.News(es)).IsNew(e)
  {
    NewsMembers(m, es);
    AdvanceIsExact(m, m.News(es), e);
  }

  /** Polling the same list twice accepts nothing the second time exactly when the
      newest accepted event carries a whole second: the stored time is truncated,
      so a fraction makes the event look new for ever. */
  lemma RedeliveryIsSilentIff<Id, P>(m: Mark<Id>, es: seq<Event<Id, P>>)
    requires m.News(es) != []
    ensures m.Advance(m.News(es)).News(es) == [] <==> Newest(m.News(es)) % 1_000_000_000 == 0
  {
    var news := m.News(es);
    var newest := Newest(news);
    var after := m.Advance(news);
    NewsMembers(m, es);
    NewsMembers(after, es);
    if newest % SECOND == 0 {
      forall e | e in es ensures !after.IsNew(e) {
        assert m.IsNew(e) ==> e in news;
      }
      NothingNew(after, es);
    } else {
      var e :| e in news && e.at == newest;
      assert e in after.News(es);
    }
  }

  /** Two events of the list are new and carry the same id. */
  predicate RepeatsNew<Id(==), P>(m: Mark<Id>, es: seq<Event<Id, P>>) {
    exists i, j :: 0 <= i < j < |es| && m.IsNew(es[i]) && m.IsNew(es[j]) && es[i].id == es[j].id
  }

  lemma RepeatsSnoc<Id, P>(m: Mark<Id>, front: seq<Event<Id, P>>, last: Event<Id, P>)
    ensures RepeatsNew(m, front + [last]) <==>
              RepeatsNew(m, front) || (m.IsNew(last) && exists x :: x in front && m.IsNew(x) && x.id == last.id)
  {
    var es, n := front + [last], |front|;
    if i, j :| 0 <= i < j < n && m.IsNew(front[i]) && m.IsNew(front[j]) && front[i].id == front[j].id {
      assert es[i] == front[i] && es[j] == front[j];
    }
    if x :| m.IsNew(last) && x in front && m.IsNew(x) && x.id == last.id {
      var k :| 0 <= k < n && front[k] == x;
      assert es[k] == x && es[n] == last;
    }
    if i, j :| 0 <= i < j < |es| && m.IsNew(es[i]) && m.IsNew(es[j]) && es[i].id == es[j].id {
      assert front[i] == es[i] && front[i] in front && (j < n ==> front[j] == es[j]);
    }
  }

  /** A list is not compared with itself: an id is accepted twice from it exactly if
      two new events of it carry that id. */
  lemma {:induction false} NewsDistinctIff<Id, P>(m: Mark<Id>, es: seq<Event<Id, P>>)
    ensures DistinctIds(m.News(es)) <==> !RepeatsNew(m, es)
  {
    if es != [] {
      var front, last := es[..|es| - 1], es[|es| - 1];
      NewsDistinctIff(m, front);
      NewsMembers(m, front);
      assert es == front + [last];
      RepeatsSnoc(m, front, last);
      if m.IsNew(last) {
        DistinctSnoc(m.News(front), last);
      } else {
        assert m.News(es) == m.News(front) + [] == m.News(front);
      }
    }
  }

  lemma DistinctSnoc<Id, P>(news: seq<Event<Id, P>>, e: Event<Id, P>)
    ensures DistinctIds(news + [e]) <==> DistinctIds(news) && forall x :: x in news ==> x.id != e.id
  {
    var all := news + [e];
    if DistinctIds(all) {
      forall x | x in news ensures x.id != e.id {
        var i :| 0 <= i < |news| && news[i] == x;
        assert all[i] == x && all[|news|] == e;
      }
      forall i, j | 0 <= i < j < |news| ensures news[i].id != news[j].id {
        assert all[i] == news[i] && all[j] == news[j];
      }
    }
  }

  lemma NewsAreUnique<Id, P>(m: Mark<Id>, es: seq<Event<Id, P>>)
    requires DistinctIds(es)
    ensures DistinctIds(m.News(es))
  {
    NewsDistinctIff(m, es);
  }

  /** The order of the list does not matter for that. */
  lemma RepeatsBackwards<Id, P>(m: Mark<Id>, es: seq<Event<Id, P>>)
    ensures RepeatsNew(m, Reverse(es)) <==> RepeatsNew(m, es)
  {
    var n, r := |es|, Reverse(es);
    if i, j :| 0 <= i < j < n && m.IsNew(es[i]) && m.IsNew(es[j]) && es[i].id == es[j].id {
      assert r[n - 1 - j] == es[j] && r[n - 1 - i] == es[i];
    }
    if i, j :| 0 <= i < j < n && m.IsNew(r[i]) && m.IsNew(r[j]) && r[i].id == r[j].id {
      assert es[n - 1 - j] == r[j] && es[n - 1 - i] == r[i];
    }
  }

  /** Several polls, each over an oldest-first page. */
  function Polls<Id(==), P>(m: Mark<Id>, pages: seq<seq<Event<Id, P>>>): (Mark<Id>, seq<Event<Id, P>>)
    decreases |pages|
  {
    if pages == [] then (m, []) else
      var news := m.News(pages[0]);
      var (m', rest) := Polls(m.Advance(news), pages[1..]);
      (m', news + rest)
  }

  function Concat<T>(parts: seq<seq<T>>): seq<T> {
    if parts == [] then [] else parts[0] + Concat(parts[1..])
  }

  /** Page i shows the i-th part of a chronological history, perhaps after events
      of earlier parts that it repeats. */
  ghost predicate Shows<Id, P>(before: seq<Event<Id, P>>, parts: seq<seq<Event<Id, P>>>, pages: seq<seq<Event<Id, P>>>)
    decreases |parts|
  {
    |parts| == |pages| &&
    (parts == [] ||
     (&& |pages[0]| >= |parts[0]| && pages[0][|pages[0]| - |parts[0]|..] == parts[0]
      && (forall e :: e in pages[0][..|pages[0]| - |parts[0]|] ==> e in before)
      && Shows(before + parts[0], parts[1..], pages[1..])))
  }

  lemma {:induction false} NothingNew<Id, P>(m: Mark<Id>, es: seq<Event<Id, P>>)
    requires forall e :: e in es ==> !m.IsNew(e)
    ensures m.News(es) == []
  {
    if es != [] {
      assert es[|es| - 1] in es;
      NothingNew(m, es[..|es| - 1]);
    }
  }

  /** An event is new to an advanced watermark exactly if it was new before, as
      long as it comes later in a chronological list. */
  lemma LaterNewsStayNews<Id, P>(m: Mark<Id>, part: seq<Event<Id, P>>, e: Event<Id, P>)
    requires WholeSeconds(part)
    requires forall x :: x in part ==> x.at <= e.at && x.id != e.id
    ensures m.Advance(m.News(part)).IsNew(e) <==> m.IsNew(e)
  {
    NewsMembers(m, part);
    AdvanceIsExact(m, m.News(part), e);
  }

  lemma {:induction false} IdsAtMembers<Id, P>(es: seq<Event<Id, P>>, t: int)
    ensures forall id :: id in IdsAt(es, t) ==> exists e :: e in es && e.at == t && e.id == id
  {
    if es != [] {
      var front := es[..|es| - 1];
      IdsAtMembers(front, t);
      assert es == front + [es[|es| - 1]];
      forall id | id in IdsAt(es, t) ensures exists e :: e in es && e.at == t && e.id == id {
        if id in IdsAt(front, t) {
          var e :| e in front && e.at == t && e.id == id;
          assert e in es;
        } else {
          assert es[|es| - 1] in es;
        }
      }
    }
  }

  lemma {:induction false} IdsAtSplits<Id, P>(a: seq<Event<Id, P>>, b: seq<Event<Id, P>>, t: int)
    ensures IdsAt(a + b, t) == IdsAt(a, t) + IdsAt(b, t)
  {
    if b == [] {
      assert a + b == a;
    } else {
      IdsAtSplits(a, b[..|b| - 1], t);
      assert (a + b)[..|a + b| - 1] == a + b[..|b| - 1];
    }
  }

  lemma {:induction false} NoIdsAt<Id, P>(es: seq<Event<Id, P>>, t: int)
    requires forall e :: e in es ==> e.at != t
    ensures IdsAt(es, t) == []
  {
    if es != [] {
      NoIdsAt(es[..|es| - 1], t);
    }
  }

  lemma NewestOfBoth<Id, P>(a: seq<Event<Id, P>>, b: seq<Event<Id, P>>)
    requires a != [] && b != [] && forall x, y :: x in a && y in b ==> x.at <= y.at
    ensures Newest(a) <= Newest(b) == Newest(a + b)
  {
  }

  lemma ComposedIds<Id, P>(m: Mark<Id>, a: seq<Event<Id, P>>, b: seq<Event<Id, P>>, t: int)
    requires a != [] && Newest(a) <= t && m.LastAt() <= Newest(a)
    ensures (if t == Newest(a) then (if t == m.LastAt() then m.ids else []) + IdsAt(a, t) else []) + IdsAt(b, t)
         == (if t == m.LastAt() then m.ids else []) + IdsAt(a + b, t)
  {
    IdsAtSplits(a, b, t);
    if t == Newest(a) {
      Associates(if t == m.LastAt() then m.ids else [], IdsAt(a, t), IdsAt(b, t));
    } else {
      NoIdsAt(a, t);
    }
  }

  /** Two advances in a row are one advance over both lists. */
  lemma AdvanceComposes<Id, P>(m: Mark<Id>, a: seq<Event<Id, P>>, b: seq<Event<Id, P>>)
    requires WholeSeconds(a) && WholeSeconds(b)
    requires forall x :: x in a ==> x.at >= m.LastAt()
    requires forall x, y :: x in a && y in b ==> x.at <= y.at
    ensures m.Advance(a).Advance(b) == m.Advance(a + b)
  {
    if a == [] {
      assert a + b == b;
    } else if b == [] {
      assert a + b == a;
    } else {
      NewestOfBoth(a, b);
      assert Truncate(Newest(a)) == Newest(a);
      ComposedIds(m, a, b, Newest(b));
    }
  }

  lemma {:induction false} NewsAgree<Id, P>(m: Mark<Id>, n: Mark<Id>, es: seq<Event<Id, P>>)
    requires forall e :: e in es ==> (m.IsNew(e) <==> n.IsNew(e))
    ensures m.News(es) == n.News(es)
  {
    if es != [] {
      assert es[|es| - 1] in es;
      NewsAgree(m, n, es[..|es| - 1]);
    }
  }

  lemma ChronologicalSplits<Id, P>(a: seq<Event<Id, P>>, b: seq<Event<Id, P>>)
    requires Chronological(a + b) && DistinctIds(a + b)
    ensures forall x, y :: x in a && y in b ==> x.at <= y.at && x.id != y.id
  {
    forall x, y | x in a && y in b ensures x.at <= y.at && x.id != y.id {
      var i :| 0 <= i < |a| && a[i] == x;
      var j :| 0 <= j < |b| && b[j] == y;
      assert (a + b)[i] == x && (a + b)[|a| + j] == y;
    }
  }

  /** Where the poll boundaries fall makes no difference: polls that see every
      part of a chronological history, each with any repetition of processed
      events, accept together what one poll over the whole history accepts, in
      the same order, and leave the same watermark. */
  lemma {:induction false} PollsAreOnePoll<Id, P>(
    m: Mark<Id>, before: seq<Event<Id, P>>, parts: seq<seq<Event<Id, P>>>, pages: seq<seq<Event<Id, P>>>)
    requires var all := before + Concat(parts); WholeSeconds(all) && DistinctIds(all) && Chronological(all)
    requires forall e :: e in before ==> !m.IsNew(e)
    requires Shows(before, parts, pages)
    ensures Polls(m, pages) == (m.Advance(m.News(Concat(parts))), m.News(Concat(parts)))
    decreases |parts|
  {
    if parts != [] {
      var part, rest := parts[0], Concat(parts[1..]);
      var seen := pages[0][..|pages[0]| - |part|];
      assert pages[0] == seen + part;
      assert before + Concat(parts) == (before + part) + rest;
      NewsSplits(m, seen, part);
      NothingNew(m, seen);
      assert m.News(pages[0]) == m.News(part);
      var m1 := m.Advance(m.News(part));
      assert forall e :: e in part || e in rest ==> e in (before + part) + rest;
      PartIsProcessed(m, before, part);
      ChronologicalSplits(before + part, rest);
      assert forall x :: x in part ==> x in before + part;
      OnePollStep(m, part, rest);
      PollsAreOnePoll(m1, before + part, parts[1..], pages[1..]);
    }
  }

  lemma PartIsProcessed<Id, P>(m: Mark<Id>, before: seq<Event<Id, P>>, part: seq<Event<Id, P>>)
    requires WholeSeconds(part) && forall e :: e in before ==> !m.IsNew(e)
    ensures forall e :: e in before + part ==> !m.Advance(m.News(part)).IsNew(e)
  {
    forall e | e in before + part ensures !m.Advance(m.News(part)).IsNew(e) {
      AdvanceForgetsNothing(m, part, e);
    }
  }

  lemma RestStaysNews<Id, P>(m: Mark<Id>, part: seq<Event<Id, P>>, rest: seq<Event<Id, P>>)
    requires WholeSeconds(part) && forall x, y :: x in part && y in rest ==> x.at <= y.at && x.id != y.id
    ensures m.Advance(m.News(part)).News(rest) == m.News(rest)
  {
    var m1 := m.Advance(m.News(part));
    forall e | e in rest ensures m.IsNew(e) <==> m1.IsNew(e) {
      LaterNewsStayNews(m, part, e);
    }
    NewsAgree(m, m1, rest);
  }

  lemma OnePollStep<Id, P>(m: Mark<Id>, part: seq<Event<Id, P>>, rest: seq<Event<Id, P>>)
    requires WholeSeconds(part) && WholeSeconds(rest)
    requires forall x, y :: x in part && y in rest ==> x.at <= y.at && x.id != y.id
    ensures var m1 := m.Advance(m.News(part));
            && m.News(part + rest) == m.News(part) + m1.News(rest)
            && m.Advance(m.News(part + rest)) == m1.Advance(m1.News(rest))
  {
    RestStaysNews(m, part, rest);
    NewsSplits(m, part, rest);
    var a, b := m.News(part), m.News(rest);
    NewsMembers(m, part);
    NewsMembers(m, rest);
    assert WholeSeconds(a) && WholeSeconds(b);
    assert forall x :: x in a ==> x.at >= m.LastAt();
    assert forall x, y :: x in a && y in b ==> x.at <= y.at;
    AdvanceComposes(m, a, b);
  }

  /** An id always comes with the same whole second. */
  ghost predicate Timely<Id(!new), P>(events: seq<Event<Id, P>>, time: Id -> int) {
    WholeSeconds(events) && forall e :: e in events ==> e.at == time(e.id)
  }

  /** Everything handled is older than the watermark, or of its second and among
      the recorded ids. */
  ghost predicate Remembers<Id(!new)>(m: Mark<Id>, handled: set<Id>, time: Id -> int) {
    (handled != {} ==> m.at.Some?) &&
    forall id :: id in handled ==> time(id) < m.LastAt() || (time(id) == m.LastAt() && id in m.ids)
  }

  ghost function IdSet<Id, P>(events: seq<Event<Id, P>>): set<Id> {
    set e | e in events :: e.id
  }

  lemma ReverseIsTimely<Id(!new), P>(events: seq<Event<Id, P>>, time: Id -> int)
    requires Timely(events, time)
    ensures Timely(Reverse(events), time)
  {
  }

  lemma NewsAreUnhandled<Id(!new), P>(m: Mark<Id>, oldest: seq<Event<Id, P>>, handled: set<Id>, time: Id -> int)
    requires Remembers(m, handled, time) && Timely(oldest, time)
    ensures WholeSeconds(m.News(oldest))
    ensures forall e :: e in m.News(oldest) ==> m.IsNew(e) && e.id !in handled && e.at == time(e.id)
  {
  }

  lemma AdvanceRemembers<Id(!new), P>(m: Mark<Id>, news: seq<Event<Id, P>>, handled: set<Id>, time: Id -> int)
    requires Remembers(m, handled, time) && WholeSeconds(news)
    requires forall e :: e in news ==> e.at == time(e.id) && m.IsNew(e)
    ensures Remembers(m.Advance(news), handled + IdSet(news), time)
  {
  }

  /** A seeding list is remembered as handled. */
  lemma SeedRemembers<Id(!new), P>(es: seq<Event<Id, P>>, time: Id -> int)
    requires Timely(es, time)
    ensures es != [] ==> Remembers(Seed(es), IdSet(es), time)
  {
    if es != [] {
      assert Newest(es) % SECOND == 0;
    }
  }

  /** What is accepted was not handled before, and is remembered afterwards. */
  lemma AcceptRemembers<Id(!new), P>(m: Mark<Id>, oldest: seq<Event<Id, P>>, handled: set<Id>, time: Id -> int)
    requires Remembers(m, handled, time) && Timely(oldest, time)
    ensures var news := m.News(oldest);
            && Remembers(m.Advance(news), handled + IdSet(news), time)
            && forall e :: e in news ==> e.id !in handled
  {
    NewsAreUnhandled(m, oldest, handled, time);
    AdvanceRemembers(m, m.News(oldest), handled, time);
  }
}
