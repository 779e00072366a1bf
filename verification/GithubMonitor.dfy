/** The GitHub event monitor: paging through the feed, accepting what is new, and
    keeping the watermark across polls and restarts. */
module GithubMonitor {
  import opened Results
  import opened Lists
  import opened Watermark

  const MAX_PAGES := 10

  /** An event with everything that classification needs as its payload. */
  type GhEvent<P> = Event<int, P>

  /** The reply to one page request. */
  datatype PageReply<P> = PageFailure | PageUnchanged | Page(events: seq<GhEvent<P>>, etag: string)

  /** The outcome of fetching: events come newest first. */
  datatype Reply<P> = Failure | Unchanged | Changed(events: seq<GhEvent<P>>, etag: string)

  /** The chain of pages that the server offers: page i links to page i + 1 while
      there is one. */
  function PageAt<P>(pages: seq<PageReply<P>>, i: nat): PageReply<P> {
    if i < |pages| then pages[i] else PageFailure
  }

  predicate HasNext<P>(pages: seq<PageReply<P>>, i: nat) {
    PageAt(pages, i).Page? && i + 1 < |pages|
  }

  predicate ReachesBack<P>(events: seq<GhEvent<P>>, since: int) {
    events != [] && events[|events| - 1].at <= since
  }

  /** The number of pages that are read from page i on, when all of them succeed. */
  function PagesRead<P>(pages: seq<PageReply<P>>, since: int, i: nat): (n: nat)
    requires forall j :: 0 <= j < |pages| ==> pages[j].Page?
    requires i < |pages| && i < MAX_PAGES
    ensures i < n <= |pages| && n <= MAX_PAGES
    ensures forall j :: i <= j < n - 1 ==> !ReachesBack(pages[j].events, since)
    ensures n == |pages| || n == MAX_PAGES || ReachesBack(pages[n - 1].events, since)
    decreases MAX_PAGES - i
  {
    if i + 1 == MAX_PAGES || i + 1 == |pages| || ReachesBack(pages[i].events, since) then i + 1
    else PagesRead(pages, since, i + 1)
  }

  function Events<P>(pages: seq<PageReply<P>>): seq<GhEvent<P>> {
    if pages == [] then []
    else Events(pages[..|pages| - 1]) +
         EventsOf(pages[|pages| - 1])
  }

  function EventsOf<P>(p: PageReply<P>): seq<GhEvent<P>> {
    if p.Page? then p.events else []
  }

  /** The events collected from page i on, if no request fails. */
  function FetchFrom<P>(pages: seq<PageReply<P>>, since: int, i: nat): Result<seq<GhEvent<P>>>
    requires i < MAX_PAGES
    decreases MAX_PAGES - i
  {
    var got := PageAt(pages, i);
    if got.PageFailure? then Err(Internal)
    else if i + 1 == MAX_PAGES || !HasNext(pages, i) || ReachesBack(EventsOf(got), since) then Ok(EventsOf(got))
    else match FetchFrom(pages, since, i + 1)
      case Err(e) => Err(e)
      case Ok(more) => Ok(EventsOf(got) + more)
  }

  /** The events collected so far, continued by the rest. */
  function Resume<P>(events: seq<GhEvent<P>>, rest: Result<seq<GhEvent<P>>>): Result<seq<GhEvent<P>>> {
    if rest.Ok? then Ok(events + rest.value) else rest
  }

  lemma ResumeSteps<P>(pages: seq<PageReply<P>>, since: int, i: nat, events: seq<GhEvent<P>>)
    requires i < MAX_PAGES && !PageAt(pages, i).PageFailure?
    ensures var got := EventsOf(PageAt(pages, i));
            Resume(events, FetchFrom(pages, since, i)) ==
              if i + 1 == MAX_PAGES || !HasNext(pages, i) || ReachesBack(got, since) then Ok(events + got)
              else Resume(events + got, FetchFrom(pages, since, i + 1))
  {
    var got := EventsOf(PageAt(pages, i));
    if i + 1 < MAX_PAGES && FetchFrom(pages, since, i + 1).Ok? {
      var more := FetchFrom(pages, since, i + 1).value;
      assert events + (got + more) == (events + got) + more;
    }
  }

  /** What fetching comes to. */
  function Fetch<P>(pages: seq<PageReply<P>>, since: int): Reply<P> {
    if PageAt(pages, 0).PageUnchanged? then Unchanged
    else match FetchFrom(pages, since, 0)
      case Err(_) => Failure
      case Ok(events) => Changed(events, PageAt(pages, 0).etag)
  }

  /** The paging loop; only the first request is conditional on the stored etag. */
  method FetchEvents<P>(pages: seq<PageReply<P>>, since: int) returns (r: Reply<P>)
    ensures r == Fetch(pages, since)
  {
    ghost var all := FetchFrom(pages, since, 0);
    var events: seq<GhEvent<P>> := [];
    var newEtag := "";
    assert all.Ok? ==> events + all.value == all.value;
    for page := 1 to MAX_PAGES + 1
      invariant page > 1 ==> PageAt(pages, 0).Page? && newEtag == PageAt(pages, 0).etag
      invariant all == if page <= MAX_PAGES then Resume(events, FetchFrom(pages, since, page - 1)) else Ok(events)
    {
      var got := PageAt(pages, page - 1);
      if got.PageFailure? {
        return Failure;
      }
      if page == 1 {
        if got.PageUnchanged? {
          return Unchanged;
        }
        newEtag := got.etag;
      }
      ResumeSteps(pages, since, page - 1, events);
      events := events + EventsOf(got);
      if !HasNext(pages, page - 1) {
        return Changed(events, newEtag);
      }
      if ReachesBack(EventsOf(got), since) {
        return Changed(events, newEtag);
      }
    }
    return Changed(events, newEtag);
  }

  /** Page n is asked for: all pages in front of it have arrived, link on, and do not
      reach back to the watermark. */
  ghost predicate Asked<P>(pages: seq<PageReply<P>>, since: int, n: nat) {
    n < 10 && (n == 0 || n < |pages|) &&
    forall j :: 0 <= j < n ==>
      pages[j].Page? && (pages[j].events == [] || pages[j].events[|pages[j].events| - 1].at > since)
  }

  /** Page n is asked for and does not arrive. */
  ghost predicate FailsAt<P>(pages: seq<PageReply<P>>, since: int, n: nat) {
    Asked(pages, since, n) && (n >= |pages| || pages[n].PageFailure?)
  }

  /** Page n is asked for and arrives, and is the last one that is linked, the tenth,
      or one that reaches back. */
  ghost predicate EndsAt<P>(pages: seq<PageReply<P>>, since: int, n: nat) {
    Asked(pages, since, n) && n < |pages| && !pages[n].PageFailure? &&
    (|| n == 9 || pages[n].PageUnchanged? || n + 1 == |pages|
     || (pages[n].events != [] && pages[n].events[|pages[n].events| - 1].at <= since))
  }

  lemma FetchGoesOn<P>(pages: seq<PageReply<P>>, since: int, i: nat)
    requires Asked(pages, since, i) && !FailsAt(pages, since, i)
    ensures if EndsAt(pages, since, i) then FetchFrom(pages, since, i) == Ok(EventsOf(pages[i]))
            else i + 1 < MAX_PAGES && Asked(pages, since, i + 1) &&
                 FetchFrom(pages, since, i) == Resume(EventsOf(pages[i]), FetchFrom(pages, since, i + 1))
  {
  }

  /** Fetching fails exactly if a page that is asked for does not arrive, however many
      have arrived before; otherwise it gives all events of the pages up to the end. */
  lemma {:induction false} FetchFromMeaning<P>(pages: seq<PageReply<P>>, since: int, i: nat)
    requires Asked(pages, since, i)
    ensures FetchFrom(pages, since, i).Err? ==> exists n :: i <= n && FailsAt(pages, since, n)
    ensures FetchFrom(pages, since, i).Ok? ==>
              exists n :: EndsAt(pages, since, n) && HoldsPages(pages, i, n, FetchFrom(pages, since, i).value)
    decreases MAX_PAGES - i
  {
    if !FailsAt(pages, since, i) {
      FetchGoesOn(pages, since, i);
      if EndsAt(pages, since, i) {
        OnePage(pages, i);
      } else {
        FetchFromMeaning(pages, since, i + 1);
        if FetchFrom(pages, since, i + 1).Ok? {
          var more := FetchFrom(pages, since, i + 1).value;
          var n :| EndsAt(pages, since, n) && HoldsPages(pages, i + 1, n, more);
          OnePageMore(pages, i, n, more);
        }
      }
    }
  }

  /** All events of pages i to n, in order. */
  ghost predicate HoldsPages<P>(pages: seq<PageReply<P>>, i: nat, n: nat, events: seq<GhEvent<P>>) {
    i <= n < |pages| && events == Events(pages[i..n + 1])
  }

  lemma OnePageMore<P>(pages: seq<PageReply<P>>, i: nat, n: nat, more: seq<GhEvent<P>>)
    requires HoldsPages(pages, i + 1, n, more)
    ensures HoldsPages(pages, i, n, EventsOf(pages[i]) + more)
  {
    EventsOfSlice(pages, i, n + 1);
  }

  lemma OnePage<P>(pages: seq<PageReply<P>>, i: nat)
    requires i < |pages|
    ensures HoldsPages(pages, i, i, EventsOf(pages[i]))
  {
    EventsOfSlice(pages, i, i + 1);
    assert pages[i + 1..i + 1] == [] && EventsOf(pages[i]) + [] == EventsOf(pages[i]);
  }

  /** A fetch either fails or ends, and that at one page only. */
  lemma OneEnd<P>(pages: seq<PageReply<P>>, since: int, n: nat, m: nat)
    requires FailsAt(pages, since, n) || EndsAt(pages, since, n)
    requires FailsAt(pages, since, m) || EndsAt(pages, since, m)
    ensures n == m
  {
  }

  /** The reply of a fetch, for any mix of pages that arrive or fail: a failure exactly
      if a page that is asked for does not arrive, and otherwise, unless the first
      page is unchanged, all events up to the end with the first page's etag. */
  lemma FetchMeaning<P>(pages: seq<PageReply<P>>, since: int)
    ensures Fetch(pages, since).Failure? <==> exists n :: FailsAt(pages, since, n)
    ensures Fetch(pages, since).Unchanged? <==> pages != [] && pages[0].PageUnchanged?
    ensures Fetch(pages, since).Changed? ==>
              exists n :: EndsAt(pages, since, n) && pages[0].Page?
                          && Fetch(pages, since) == Changed(Events(pages[..n + 1]), pages[0].etag)
  {
    FetchFromMeaning(pages, since, 0);
    if n :| FailsAt(pages, since, n) {
      if m :| EndsAt(pages, since, m) {
        OneEnd(pages, since, n, m);
      }
    }
    if Fetch(pages, since).Changed? {
      var n :| EndsAt(pages, since, n) && HoldsPages(pages, 0, n, FetchFrom(pages, since, 0).value);
      assert pages[0..n + 1] == pages[..n + 1];
    }
  }

  lemma FetchStep<P>(pages: seq<PageReply<P>>, since: int, i: nat)
    requires (forall j :: 0 <= j < |pages| ==> pages[j].Page?) && i < |pages| && i < MAX_PAGES
    ensures var n := PagesRead(pages, since, i);
            if n == i + 1 then FetchFrom(pages, since, i) == Ok(pages[i].events)
            else i + 1 < MAX_PAGES && n == PagesRead(pages, since, i + 1)
                 && FetchFrom(pages, since, i) == Resume(pages[i].events, FetchFrom(pages, since, i + 1))
  {
  }

  lemma EventsOfSlice<P>(pages: seq<PageReply<P>>, i: nat, n: nat)
    requires i < n <= |pages|
    ensures Events(pages[i..n]) == EventsOf(pages[i]) + Events(pages[i + 1..n])
  {
    EventsSplit([pages[i]], pages[i + 1..n]);
    EventsSnoc([], pages[i]);
    assert [] + [pages[i]] == [pages[i]] && [] + EventsOf(pages[i]) == EventsOf(pages[i]);
    assert pages[i..n] == [pages[i]] + pages[i + 1..n];
  }

  /** When every page arrives, what is fetched are the first pages of the feed. */
  lemma {:induction false} FetchReadsPages<P>(pages: seq<PageReply<P>>, since: int, i: nat)
    requires (forall j :: 0 <= j < |pages| ==> pages[j].Page?) && i < |pages| && i < MAX_PAGES
    ensures FetchFrom(pages, since, i) == Ok(Events(pages[i..PagesRead(pages, since, i)]))
    decreases MAX_PAGES - i
  {
    var n := PagesRead(pages, since, i);
    FetchStep(pages, since, i);
    EventsOfSlice(pages, i, n);
    if n != i + 1 {
      FetchReadsPages(pages, since, i + 1);
    } else {
      assert pages[i + 1..n] == [] && Events(pages[i + 1..n]) == [];
      assert pages[i].events + [] == pages[i].events;
    }
  }

  /** A feed whose pages all arrive, newest event first. */
  ghost predicate NewestFirst<P>(pages: seq<PageReply<P>>) {
    pages != [] && (forall j :: 0 <= j < |pages| ==> pages[j].Page?) &&
    (var all := Events(pages); forall i, j :: 0 <= i <= j < |all| ==> all[i].at >= all[j].at)
  }

  lemma EventsSnoc<P>(front: seq<PageReply<P>>, page: PageReply<P>)
    ensures Events(front + [page]) == Events(front) + EventsOf(page)
  {
  }

  lemma {:induction false} EventsSplit<P>(a: seq<PageReply<P>>, b: seq<PageReply<P>>)
    ensures Events(a + b) == Events(a) + Events(b)
  {
    if b == [] {
      assert a + b == a;
    } else {
      var front, page := b[..|b| - 1], b[|b| - 1];
      EventsSplit(a, front);
      EventsSnoc(a + front, page);
      assert a + b == (a + front) + [page];
      Associates(Events(a), Events(front), EventsOf(page));
    }
  }

  lemma EventsFrom<P>(pages: seq<PageReply<P>>, n: nat, m: nat)
    requires n <= m <= |pages|
    ensures Events(pages[n..]) == Events(pages[n..m]) + Events(pages[m..])
  {
    EventsSplit(pages[n..m], pages[m..]);
    assert pages[n..] == pages[n..m] + pages[m..];
  }

  ghost predicate NothingNewer<P>(events: seq<GhEvent<P>>, since: int) {
    forall e :: e in events ==> e.at <= since
  }

  lemma RestIsNotNewer<P>(pages: seq<PageReply<P>>, since: int, n: nat)
    requires NewestFirst(pages) && 0 < n <= |pages| && ReachesBack(pages[n - 1].events, since)
    ensures NothingNewer(Events(pages[n..]), since)
  {
    assert pages == pages[..n] + pages[n..];
    EventsSplit(pages[..n], pages[n..]);
    var head, rest, all := Events(pages[..n]), Events(pages[n..]), Events(pages);
    assert head[|head| - 1].at <= since;
    forall e | e in rest ensures e.at <= since {
      var k :| 0 <= k < |rest| && rest[k] == e;
      assert all[|head| - 1].at >= all[|head| + k].at;
    }
  }

  /** Paging stops early only where the rest of the feed is not newer. */
  lemma {:induction false} StopsSafely<P>(pages: seq<PageReply<P>>, since: int, i: nat)
    requires NewestFirst(pages) && i < |pages| && i < MAX_PAGES
    ensures var n := PagesRead(pages, since, i); n == MAX_PAGES || NothingNewer(Events(pages[n..]), since)
    decreases MAX_PAGES - i
  {
    if i + 1 == MAX_PAGES {
    } else if i + 1 == |pages| {
      assert pages[i + 1..] == [];
    } else if ReachesBack(pages[i].events, since) {
      RestIsNotNewer(pages, since, i + 1);
    } else {
      StopsSafely(pages, since, i + 1);
    }
  }

  /** Of a newest-first feed, every event that is strictly newer than the watermark
      is fetched exactly when none of them lies beyond the page cap. */
  lemma FetchMissesNothingNewerIff<P>(pages: seq<PageReply<P>>, since: int)
    requires NewestFirst(pages)
    ensures var n := PagesRead(pages, since, 0);
            var cap := if |pages| < MAX_PAGES then |pages| else MAX_PAGES;
            && Events(pages) == Events(pages[..n]) + Events(pages[n..])
            && (NothingNewer(Events(pages[n..]), since) <==> NothingNewer(Events(pages[cap..]), since))
  {
    var n := PagesRead(pages, since, 0);
    var cap := if |pages| < MAX_PAGES then |pages| else MAX_PAGES;
    EventsFrom(pages, 0, n);
    assert pages[0..] == pages && pages[0..n] == pages[..n];
    StopsSafely(pages, since, 0);
    EventsFrom(pages, n, cap);
  }

  /** So of all new events, those of the watermark's second included, none is
      missed exactly when nothing newer lies beyond the page cap and every event
      of that second behind the page where paging stopped is recorded already. */
  lemma FetchMissesNothingNewIff<P>(pages: seq<PageReply<P>>, m: Mark<int>)
    requires NewestFirst(pages)
    ensures var n := PagesRead(pages, m.LastAt(), 0);
            (forall e :: e in Events(pages[n..]) ==> !m.IsNew(e)) <==> NothingNewIsHidden(pages, m)
  {
    FetchMissesNothingNewerIff(pages, m.LastAt());
  }

  ghost predicate NothingNewIsHidden<P>(pages: seq<PageReply<P>>, m: Mark<int>)
    requires NewestFirst(pages)
  {
    var n := PagesRead(pages, m.LastAt(), 0);
    var cap := if |pages| < MAX_PAGES then |pages| else MAX_PAGES;
    && NothingNewer(Events(pages[cap..]), m.LastAt())
    && forall e :: e in Events(pages[n..]) && e.at == m.LastAt() ==> e.id in m.ids
  }

  /** Events of the watermark's own second carry no such promise: paging stops at a
      page that ends in that second, before the next page shows another one. */
  lemma SameSecondCanBeMissed()
    ensures var a, b := Event(1, 5 * SECOND, ()), Event(2, 5 * SECOND, ());
            var pages := [Page([a], "x"), Page([b], "")];
            && NewestFirst(pages)
            && Mark(Some(5 * SECOND), [1]).IsNew(b)
            && !NothingNewIsHidden(pages, Mark(Some(5 * SECOND), [1]))
            && Events(pages[..PagesRead(pages, 5 * SECOND, 0)]) == [a]
  {
    var a, b := Event(1, 5 * SECOND, ()), Event(2, 5 * SECOND, ());
    var pages := [Page([a], "x"), Page([b], "")];
    EventsOfSlice(pages, 0, 1);
    EventsOfSlice(pages, 1, 2);
    EventsFrom(pages, 0, 1);
    assert pages[..] == pages[0..] == pages && pages[1..2] == pages[1..] && pages[..1] == pages[0..1];
    assert ReachesBack(pages[0].events, 5 * SECOND);
  }

  /** The persisted state of one repository. */
  datatype RepoState = RepoState(etag: string, mark: Mark<int>) {

    predicate Unseeded() {
      mark.at.None? && etag == ""
    }

    /** One poll: the new state and the events accepted, oldest first. */
    function Poll<P>(reply: Reply<P>): (RepoState, seq<GhEvent<P>>) {
      match reply
      case Failure => (this, [])
      case Unchanged => (this, [])
      case Changed(events, newEtag) =>
        if Unseeded() then
          (RepoState(newEtag, if events == [] then mark else Seed(events)), [])
        else
          var news := mark.News(Reverse(events));
          (RepoState(newEtag, mark.Advance(news)), news)
    }

    function Run<P>(replies: seq<Reply<P>>): (RepoState, seq<GhEvent<P>>)
      decreases |replies|
    {
      if replies == [] then (this, []) else
        var (st, news) := Poll(replies[0]);
        var (st', rest) := st.Run(replies[1..]);
        (st', news + rest)
    }
  }

  /** What one poll makes of a reply. Only a changed list moves the state, and it
      always takes over the etag. */
  lemma PollMeaning<P>(st: RepoState, reply: Reply<P>)
    ensures var (st', news) := st.Poll(reply);
            && (!reply.Changed? ==> st' == st && news == [])
            && (reply.Changed? ==> st'.etag == reply.etag)
            && (reply.Changed? && st.mark.at.None? && st.etag == "" ==> news == [])
            && (reply.Changed? && (st.mark.at.Some? || st.etag != "") ==>
                  var last := if st.mark.at.Some? then st.mark.at.value else 0;
                  forall e :: e in news <==>
                    e in reply.events && (e.at > last || (e.at == last && e.id !in st.mark.ids)))
  {
    if reply.Changed? {
      NewsMembers(st.mark, Reverse(reply.events));
      assert forall e: GhEvent<P> :: st.mark.IsNew(e) <==>
          e.at > st.mark.LastAt() || (e.at == st.mark.LastAt() && e.id !in st.mark.ids);
      forall e | e in reply.events ensures e in Reverse(reply.events) {
        ReverseMember(reply.events, e);
      }
      assert forall e :: e in Reverse(reply.events) ==> e in reply.events;
    }
  }

  /** So nothing is lost when a later page fails: the poll accepts nothing and keeps
      the state, and what was new stays new. */
  lemma FailingPageLosesNothing<P>(st: RepoState, pages: seq<PageReply<P>>, n: nat)
    requires FailsAt(pages, st.mark.LastAt(), n)
    ensures st.Poll(Fetch(pages, st.mark.LastAt())) == (st, [])
  {
    FetchMeaning(pages, st.mark.LastAt());
  }

  /** What a start finds in the state file. */
  function Load(disk: Option<RepoState>): RepoState {
    if disk.Some? then disk.value else RepoState("", Mark(None, []))
  }

  /** A poll, with the outcome of writing the state file, or a restart. */
  datatype Round<P> = Polled(reply: Reply<P>, saves: bool) | Restarted

  /** The state in memory and in the file. */
  datatype Durable = Durable(mem: RepoState, disk: Option<RepoState>) {

    function Live<P>(round: Round<P>): (Durable, seq<GhEvent<P>>) {
      match round
      case Restarted => (Durable(Load(disk), disk), [])
      case Polled(reply, saves) =>
        var (st, news) := mem.Poll(reply);
        (Durable(st, if reply.Changed? && saves then Some(st) else disk), news)
    }

    function Lives<P>(rounds: seq<Round<P>>): (Durable, seq<GhEvent<P>>)
      decreases |rounds|
    {
      if rounds == [] then (this, []) else
        var (d, news) := Live(rounds[0]);
        var (d', rest) := d.Lives(rounds[1..]);
        (d', news + rest)
    }
  }

  class RepoMonitor {
    var etag: string
    var lastAt: Option<int>
    var lastIds: seq<int>
    var disk: Option<RepoState>

    function State(): RepoState
      reads this
    {
      RepoState(etag, Mark(lastAt, lastIds))
    }

    function Contents(): Durable
      reads this
    {
      Durable(State(), disk)
    }

    /** loadState at a start. */
    constructor (disk: Option<RepoState>)
      ensures Contents() == Durable(Load(disk), disk)
    {
      var st := Load(disk);
      this.disk, etag, lastAt, lastIds := disk, st.etag, st.mark.at, st.mark.ids;
    }

    /** A failing write leaves the file as it is, and is only logged. */
    method SaveState(ok: bool)
      modifies this`disk
      ensures disk == if ok then Some(State()) else old(disk)
    {
      if ok {
        disk := Some(State());
      }
    }

    method SetLast(at: int, ids: seq<int>)
      modifies this`lastAt, this`lastIds
      ensures lastAt == Some(Truncate(at)) && lastIds == ids
    {
      lastAt, lastIds := Some(Truncate(at)), ids;
    }

    method Poll<P>(reply: Reply<P>, saves: bool) returns (accepted: seq<GhEvent<P>>)
      modifies this
      ensures (Contents(), accepted) == old(Contents()).Live(Polled(reply, saves))
    {
      if !reply.Changed? {
        return [];
      }
      if lastAt.None? && etag == "" {
        accepted := [];
        if |reply.events| > 0 {
          var maxT := NewestOf(reply.events);
          var ids := IdsOf(reply.events, maxT);
          SetLast(maxT, ids);
        }
      } else {
        accepted := NewEvents(reply.events);
        if |accepted| > 0 {
          var maxT := NewestOf(accepted);
          var boundary := IdsOf(accepted, maxT);
          assert [] + boundary == boundary;
          if maxT == State().mark.LastAt() {
            boundary := lastIds + boundary;
          }
          SetLast(maxT, boundary);
        }
      }
      etag := reply.etag;
      SaveState(saves);
    }

    /** Collects what is newer than the watermark, or of its second and not
        recorded, scanning the list from its oldest end. */
    method NewEvents<P>(events: seq<GhEvent<P>>) returns (accepted: seq<GhEvent<P>>)
      ensures accepted == State().mark.News(Reverse(events))
    {
      var cur := if lastAt.Some? then lastAt.value else ZERO_TIME;
      ghost var oldest := Reverse(events);
      accepted := [];
      var i := |events|;
      while i > 0
        invariant 0 <= i <= |events| && accepted == State().mark.News(oldest[..|events| - i])
      {
        i := i - 1;
        var e := events[i];
        assert oldest[..|events| - i][..|events| - i - 1] == oldest[..|events| - i - 1];
        if e.at > cur || (e.at == cur && e.id !in lastIds) {
          accepted := accepted + [e];
        }
      }
      assert oldest[..|events|] == oldest;
    }
  }

  /** An id always comes with the same whole second. */
  ghost predicate Truthful<P>(replies: seq<Reply<P>>, time: int -> int) {
    forall i :: 0 <= i < |replies| && replies[i].Changed? ==> Timely(replies[i].events, time)
  }

  /** What a poll takes over: the events it accepts, or those it seeds with. */
  ghost function TakenOver<P>(st: RepoState, reply: Reply<P>): set<int> {
    if reply.Changed? && st.Unseeded() then IdSet(reply.events) else IdSet(st.Poll(reply).1)
  }

  /** One poll accepts nothing that was handled, and afterwards remembers what it
      has taken over as well. It accepts an id twice exactly if its list repeats a
      new one. */
  lemma PollRemembers<P>(st: RepoState, reply: Reply<P>, handled: set<int>, time: int -> int)
    requires Remembers(st.mark, handled, time) && (reply.Changed? ==> Timely(reply.events, time))
    ensures var (st', news) := st.Poll(reply);
            && Remembers(st'.mark, handled + TakenOver(st, reply), time)
            && (DistinctIds(news) <==> !Repeats(st, reply)) && IdSet(news) <= TakenOver(st, reply)
            && forall e :: e in news ==> e.id !in handled
  {
    if reply.Changed? {
      if st.Unseeded() {
        SeedRemembers(reply.events, time);
      } else {
        ReverseIsTimely(reply.events, time);
        AcceptRemembers(st.mark, Reverse(reply.events), handled, time);
        NewsDistinctIff(st.mark, Reverse(reply.events));
        RepeatsBackwards(st.mark, reply.events);
      }
    }
  }

  /** The list of a poll that is not for seeding repeats a new event. */
  predicate Repeats<P>(st: RepoState, reply: Reply<P>) {
    reply.Changed? && !st.Unseeded() && RepeatsNew(st.mark, reply.events)
  }

  predicate NoPollRepeats<P>(st: RepoState, replies: seq<Reply<P>>)
    decreases |replies|
  {
    replies == [] || (!Repeats(st, replies[0]) && NoPollRepeats(st.Poll(replies[0]).0, replies[1..]))
  }

  /** Over every sequence of polls - the silent first one, unchanged and failed
      replies, redelivered lists - no event that was handled before is accepted,
      and one is accepted twice exactly if some list repeats it while it is new. */
  lemma {:induction false} NoEventIsAcceptedTwiceIff<P>(
    st: RepoState, replies: seq<Reply<P>>, handled: set<int>, time: int -> int)
    requires Remembers(st.mark, handled, time) && Truthful(replies, time)
    ensures var news := st.Run(replies).1;
            && (DistinctIds(news) <==> NoPollRepeats(st, replies))
            && forall e :: e in news ==> e.id !in handled
    decreases |replies|
  {
    if replies != [] {
      PollRemembers(st, replies[0], handled, time);
      var (st', news) := st.Poll(replies[0]);
      NoEventIsAcceptedTwiceIff(st', replies[1..], handled + TakenOver(st, replies[0]), time);
      var rest := st'.Run(replies[1..]).1;
      forall e | e in news ensures e.id in IdSet(news) {
      }
      DistinctJoin(news, rest);
    }
  }

  lemma DistinctJoin<P>(a: seq<GhEvent<P>>, b: seq<GhEvent<P>>)
    requires forall x, y :: x in a && y in b ==> x.id != y.id
    ensures DistinctIds(a + b) <==> DistinctIds(a) && DistinctIds(b)
  {
    var all := a + b;
    if DistinctIds(all) {
      forall i, j | 0 <= i < j < |a| ensures a[i].id != a[j].id {
        assert all[i] == a[i] && all[j] == a[j];
      }
      forall i, j | 0 <= i < j < |b| ensures b[i].id != b[j].id {
        assert all[|a| + i] == b[i] && all[|a| + j] == b[j];
      }
    }
    if DistinctIds(a) && DistinctIds(b) {
      forall i, j | 0 <= i < j < |all| ensures all[i].id != all[j].id {
        if i < |a| <= j { assert a[i] in a && b[j - |a|] in b; }
      }
    }
  }

  lemma {:induction false} DistinctListsDoNotRepeat<P>(st: RepoState, replies: seq<Reply<P>>)
    requires forall i :: 0 <= i < |replies| && replies[i].Changed? ==> DistinctIds(replies[i].events)
    ensures NoPollRepeats(st, replies)
    decreases |replies|
  {
    if replies != [] {
      DistinctListsDoNotRepeat(st.Poll(replies[0]).0, replies[1..]);
    }
  }

  /** It happens: the feed grows between two page requests, so that an event ends
      one page and starts the next, and it is accepted twice. */
  lemma GrowingFeedIsAcceptedTwice<P>(a: GhEvent<P>, b: GhEvent<P>, c: GhEvent<P>)
    requires a.at >= b.at >= c.at > 0
    ensures var pages := [Page([a, b], "x"), Page([b, c], "")];
            var st := RepoState("", Mark(Some(0), []));
            var fetched := [a, b, b, c];
            && NewestFirst(pages) && FetchFrom(pages, 0, 0) == Ok(fetched)
            && st.Poll(Changed(fetched, "x")).1 == [c, b, b, a] && Repeats(st, Changed(fetched, "x"))
  {
    var fetched := [a, b, b, c];
    assert [a, b] + [b, c] == fetched;
    TwoPagesFetched([a, b], [b, c], "x", "", 0);
    AcceptedFromUnread(fetched, "x");
    BackwardsFour(a, b, b, c);
    assert fetched[1] == fetched[2] == b && Mark(Some(0), []).IsNew(b);
  }

  lemma BackwardsFour<T>(a: T, b: T, c: T, d: T)
    ensures Reverse([a, b, c, d]) == [d, c, b, a]
  {
  }

  lemma TwoPagesFetched<P>(p: seq<GhEvent<P>>, q: seq<GhEvent<P>>, etag: string, etag': string, since: int)
    requires !ReachesBack(p, since) && forall i, j :: 0 <= i <= j < |p + q| ==> (p + q)[i].at >= (p + q)[j].at
    ensures var pages := [Page(p, etag), Page(q, etag')];
            NewestFirst(pages) && FetchFrom(pages, since, 0) == Ok(p + q)
  {
    var pages := [Page(p, etag), Page(q, etag')];
    EventsOfTwo(Page(p, etag), Page(q, etag'));
    FetchReadsPages(pages, since, 0);
    FetchStep(pages, since, 0);
    assert pages[0..2] == pages;
  }

  lemma EventsOfTwo<P>(first: PageReply<P>, second: PageReply<P>)
    ensures Events([first, second]) == EventsOf(first) + EventsOf(second)
  {
    EventsSnoc([], first);
    EventsSnoc([first], second);
    assert [] + [first] == [first] && [first] + [second] == [first, second];
    assert [] + EventsOf(first) == EventsOf(first);
  }

  lemma AcceptedFromUnread<P>(events: seq<GhEvent<P>>, etag: string)
    requires forall e :: e in events ==> e.at > 0
    ensures RepoState("", Mark(Some(0), [])).Poll(Changed(events, etag)).1 == Reverse(events)
  {
    assert forall e :: e in Reverse(events) ==> e in events;
    AllAreNews(Mark(Some(0), []), Reverse(events));
  }

  lemma {:induction false} AllAreNews<P>(m: Mark<int>, es: seq<GhEvent<P>>)
    requires forall e :: e in es ==> m.IsNew(e)
    ensures m.News(es) == es
  {
    if es != [] {
      var n := |es| - 1;
      assert es == es[..n] + [es[n]];
      AllAreNews(m, es[..n]);
    }
  }

  /** The events of the list that a monitor is seeded with are never accepted, in
      that poll or any later one. */
  lemma SeedingListStaysSilent<P>(st: RepoState, replies: seq<Reply<P>>, time: int -> int)
    requires st.Unseeded() && Truthful(replies, time) && replies != [] && replies[0].Changed?
    ensures forall e :: e in st.Run(replies).1 ==> e.id !in IdSet(replies[0].events)
  {
    PollRemembers(st, replies[0], {}, time);
    NoEventIsAcceptedTwiceIff(st.Poll(replies[0]).0, replies[1..], {} + IdSet(replies[0].events), time);
    assert [] + st.Poll(replies[0]).0.Run(replies[1..]).1 == st.Poll(replies[0]).0.Run(replies[1..]).1;
  }

  /** The replies among rounds. */
  function RepliesOf<P>(rounds: seq<Round<P>>): seq<Reply<P>> {
    if rounds == [] then []
    else if rounds[0].Polled? then [rounds[0].reply] + RepliesOf(rounds[1..])
    else RepliesOf(rounds[1..])
  }

  /** As long as the state file can be written, restarts between polls make no
      difference. */
  lemma {:induction false} RestartsAreInvisible<P>(d: Durable, rounds: seq<Round<P>>)
    requires Load(d.disk) == d.mem && forall i :: 0 <= i < |rounds| && rounds[i].Polled? ==> rounds[i].saves
    ensures var (d', news) := d.Lives(rounds); Load(d'.disk) == d'.mem && (d'.mem, news) == d.mem.Run(RepliesOf(rounds))
    decreases |rounds|
  {
    if rounds != [] {
      var (d', news) := d.Live(rounds[0]);
      RestartsAreInvisible(d', rounds[1..]);
      if rounds[0].Restarted? {
        assert [] + d'.Lives(rounds[1..]).1 == d'.Lives(rounds[1..]).1;
      }
    }
  }

  /** A seeded monitor that reads a whole newest-first feed accepts every strictly
      newer event, unless one lies beyond the page cap. */
  lemma NewerEventsAreAccepted<P>(st: RepoState, pages: seq<PageReply<P>>, e: GhEvent<P>)
    requires NewestFirst(pages) && !st.Unseeded()
    requires NothingNewer(Events(if |pages| < MAX_PAGES then [] else pages[MAX_PAGES..]), st.mark.LastAt())
    requires e in Events(pages) && e.at > st.mark.LastAt()
    ensures FetchFrom(pages, st.mark.LastAt(), 0).Ok?
    ensures e in st.Poll(Changed(FetchFrom(pages, st.mark.LastAt(), 0).value, pages[0].etag)).1
  {
    var since := st.mark.LastAt();
    FetchMissesNothingNewerIff(pages, since);
    FetchReadsPages(pages, since, 0);
    var n := PagesRead(pages, since, 0);
    assert pages[0..n] == pages[..n];
    if |pages| < MAX_PAGES {
      assert pages[|pages|..] == [];
    }
    assert e in Events(pages[..n]);
    NewerIsAccepted(st.mark, Events(pages[..n]), e);
  }

  /** More precisely: every new event of the feed is accepted if nothing new is
      hidden, and, where the feed names every event once, only then. */
  lemma NewEventsAreAcceptedIff<P>(st: RepoState, pages: seq<PageReply<P>>)
    requires NewestFirst(pages) && !st.Unseeded()
    ensures var fetched := FetchFrom(pages, st.mark.LastAt(), 0);
            && fetched.Ok?
            && var accepted := st.Poll(Changed(fetched.value, pages[0].etag)).1;
               && (NothingNewIsHidden(pages, st.mark) ==> AllNewIn(Events(pages), st.mark, accepted))
               && (DistinctIds(Events(pages)) && AllNewIn(Events(pages), st.mark, accepted) ==>
                     NothingNewIsHidden(pages, st.mark))
  {
    var n := PagesRead(pages, st.mark.LastAt(), 0);
    FetchReadsPages(pages, st.mark.LastAt(), 0);
    FetchMissesNothingNewerIff(pages, st.mark.LastAt());
    FetchMissesNothingNewIff(pages, st.mark);
    assert pages[0..n] == pages[..n];
    AllNewInIff(Events(pages[..n]), Events(pages[n..]), st.mark);
  }

  ghost predicate AllNewIn<P>(events: seq<GhEvent<P>>, m: Mark<int>, accepted: seq<GhEvent<P>>) {
    forall e :: e in events && m.IsNew(e) ==> e in accepted
  }

  /** Of the two parts of a list, the first of which is read. */
  lemma AllNewInIff<P>(head: seq<GhEvent<P>>, rest: seq<GhEvent<P>>, m: Mark<int>)
    ensures (forall e :: e in rest ==> !m.IsNew(e)) ==> AllNewIn(head + rest, m, m.News(Reverse(head)))
    ensures DistinctIds(head + rest) && AllNewIn(head + rest, m, m.News(Reverse(head))) ==>
              forall e :: e in rest ==> !m.IsNew(e)
  {
    NewsMembers(m, Reverse(head));
    forall e | e in head ensures e in Reverse(head) {
      ReverseMember(head, e);
    }
    assert forall e :: e in m.News(Reverse(head)) ==> e in head;
    if DistinctIds(head + rest) {
      forall e | e in rest ensures e !in head && e in head + rest {
        DistinctHalves(head, rest, e);
      }
    }
  }

  lemma DistinctHalves<P>(a: seq<GhEvent<P>>, b: seq<GhEvent<P>>, e: GhEvent<P>)
    requires DistinctIds(a + b) && e in b
    ensures e !in a
  {
    var j :| 0 <= j < |b| && b[j] == e;
    assert (a + b)[|a| + j] == e;
    forall i | 0 <= i < |a| ensures a[i] != e {
      assert (a + b)[i] == a[i];
    }
  }

  lemma NewerIsAccepted<P>(m: Mark<int>, events: seq<GhEvent<P>>, e: GhEvent<P>)
    requires e in events && e.at > m.LastAt()
    ensures e in m.News(Reverse(events))
  {
    ReverseMember(events, e);
    NewsMembers(m, Reverse(events));
  }
}
