/** The Redmine activity monitor: accepting new activities, following the state of
    every issue, and announcing. */
module RedmineMonitor {
  import opened Results
  import opened Watermark

  const FEED_LIMIT := 15
  const ANUBIS_WARN_AFTER := 3
  const SUBJECT_MAX := 100
  const NOTE_MAX := 120
  const SUPPORTED_ACTIONS := ["create", "comment", "close", "resolve", "reopen", "update"]
  const CLOSED_STATUSES := {"Closed", "Resolved", "Rejected"}

  datatype Title = Title(tracker: string, number: int, status: string, subject: string)

  /** What one feed entry says: title is None when it does not parse, journal
      tells a change of an issue from its creation. */
  datatype Entry = Entry(isIssue: bool, journal: bool, title: Option<Title>, note: string, actor: string, url: string)

  type Activity = Event<string, Announcement>

  datatype Announcement = Announcement(
    action: string, number: int, actor: string, tracker: string, subject: string, note: string, status: string,
    url: string)

  type Feed = seq<Event<string, Entry>>

  datatype IssueState = IssueState(tracker: string, subject: string, status: string)

  type Issues = map<int, IssueState>

  /** The configured actions, and the function that shortens texts. */
  datatype Config = Config(actions: seq<string>, snippet: (string, nat) -> string) {

    predicate Wanted(action: string) {
      if actions == [] then action in SUPPORTED_ACTIONS else action in actions
    }

    /** The announcement for an entry, given the known state of the issues. */
    function Classify(issues: Issues, e: Event<string, Entry>): Option<Announcement> {
      if !e.payload.isIssue || e.payload.title.None? then None
      else
        var it := e.payload.title.value;
        var creation := !e.payload.journal;
        var status := if creation && it.status == "" then "New" else it.status;
        var note := if creation then "" else e.payload.note;
        Some(Announcement(Action(issues, e.payload, it), it.number, e.payload.actor, it.tracker,
                          snippet(it.subject, SUBJECT_MAX), snippet(note, NOTE_MAX), status, e.payload.url))
    }

    function Action(issues: Issues, entry: Entry, it: Title): string {
      if !entry.journal then "create"
      else if it.status == "Resolved" then "resolve"
      else if it.status == "Closed" || it.status == "Rejected" then "close"
      else if it.status != "" && it.number in issues && issues[it.number].status in CLOSED_STATUSES then "reopen"
      else if it.status != "" then "update"
      else if entry.note != "" then "comment"
      else "update"
    }

    function DigestOne(issues: Issues, e: Event<string, Entry>): (Issues, seq<Activity>) {
      match Classify(issues, e)
      case None => (issues, [])
      case Some(a) =>
        (Remember(issues, Title(a.tracker, a.number, a.status, a.subject)),
         if Wanted(a.action) then [Event(e.id, e.at, a)] else [])
    }

    /** The entries of one poll, classified and remembered one after the other. */
    function Digest(issues: Issues, news: Feed): (Issues, seq<Activity>) {
      if news == [] then (issues, []) else
        var (before, acts) := Digest(issues, news[..|news| - 1]);
        var (after, more) := DigestOne(before, news[|news| - 1]);
        (after, acts + more)
    }
  }

  /** An empty field leaves the known one untouched. */
  function Remember(issues: Issues, it: Title): Issues {
    var known := if it.number in issues then issues[it.number] else IssueState("", "", "");
    issues[it.number := IssueState(
      if it.tracker != "" then it.tracker else known.tracker,
      if it.subject != "" then it.subject else known.subject,
      if it.status != "" then it.status else known.status)]
  }

  function RememberAll(issues: Issues, entries: Feed): Issues {
    if entries == [] then issues
    else
      var before := RememberAll(issues, entries[..|entries| - 1]);
      var title := entries[|entries| - 1].payload.title;
      if title.Some? then Remember(before, title.value) else before
  }

  /** The entries with a time. */
  function Timed(es: Feed): Feed {
    if es == [] then []
    else Timed(es[..|es| - 1]) + (if es[|es| - 1].at != ZERO_TIME then [es[|es| - 1]] else [])
  }

  /** The outcome of fetching; Blocked means that Anubis intercepted the request. */
  datatype Reply = Failure | Blocked | Unchanged | Changed(entries: Feed, etag: string)

  datatype ProjState = ProjState(etag: string, mark: Mark<string>, issues: Issues, streak: nat, warned: bool) {

    predicate Unseeded() {
      mark.at.None? && etag == ""
    }

    function Poll(cfg: Config, reply: Reply): (ProjState, seq<Activity>) {
      match reply
      case Failure => (this, [])
      case Blocked => (this.(streak := streak + 1, warned := warned || streak + 1 >= ANUBIS_WARN_AFTER), [])
      case Unchanged => (this.(streak := 0, warned := false), [])
      case Changed(entries, newEtag) =>
        if Unseeded() then
          var seeded := if entries == [] then mark else Seed(entries);
          (ProjState(newEtag, seeded, RememberAll(issues, entries), 0, false), [])
        else
          var news := mark.News(Timed(Reverse(entries)));
          var (known, acts) := cfg.Digest(issues, news);
          (ProjState(newEtag, mark.Advance(news), known, 0, false), acts)
    }

    /** Whether a poll posts the warning about being blocked. */
    predicate Warns(reply: Reply) {
      reply.Blocked? && streak + 1 >= ANUBIS_WARN_AFTER && !warned
    }

    function Run(cfg: Config, replies: seq<Reply>): (ProjState, seq<Activity>)
      decreases |replies|
    {
      if replies == [] then (this, []) else
        var (st, acts) := Poll(cfg, replies[0]);
        var (st', rest) := st.Run(cfg, replies[1..]);
        (st', acts + rest)
    }
  }

  /** The overflow warning of a poll: a full page that does not reach back to a
      known watermark. */
  predicate Overflows(entries: Feed, cur: int) {
    |entries| >= FEED_LIMIT && cur != ZERO_TIME && entries[|entries| - 1].at > cur
  }

  /** What a start finds in the state file. */
  function Load(disk: Option<ProjState>): ProjState {
    if disk.Some? then disk.value else ProjState("", Mark(None, []), map[], 0, false)
  }

  /** A poll, with the outcome of writing the state file, or a restart. */
  datatype Round = Polled(reply: Reply, saves: bool) | Restarted

  /** The state in memory and in the file. */
  datatype Durable = Durable(mem: ProjState, disk: Option<ProjState>) {

    function Live(cfg: Config, round: Round): (Durable, seq<Activity>) {
      match round
      case Restarted => (Durable(Load(disk), disk), [])
      case Polled(reply, saves) =>
        var (st, acts) := mem.Poll(cfg, reply);
        (Durable(st, if saves && !reply.Failure? then Some(st) else disk), acts)
    }

    function Lives(cfg: Config, rounds: seq<Round>): (Durable, seq<Activity>)
      decreases |rounds|
    {
      if rounds == [] then (this, []) else
        var (d, acts) := Live(cfg, rounds[0]);
        var (d', rest) := d.Lives(cfg, rounds[1..]);
        (d', acts + rest)
    }
  }

  /** What one more entry adds to the news. */
  lemma NewsOfNext(m: Mark<string>, before: Feed, e: Event<string, Entry>)
    ensures m.News(Timed(before + [e])) ==
            m.News(Timed(before)) + (if e.at != ZERO_TIME && m.IsNew(e) then [e] else [])
  {
    assert (before + [e])[..|before|] == before;
    assert (Timed(before) + [e])[..|Timed(before)|] == Timed(before);
    assert Timed(before) + [] == Timed(before) && m.News(Timed(before)) + [] == m.News(Timed(before));
  }

  class ProjectMonitor {
    const cfg: Config
    var etag: string
    var lastAt: Option<int>
    var lastIds: seq<string>
    var issues: Issues
    var streak: nat
    var warned: bool
    var disk: Option<ProjState>

    function State(): ProjState
      reads this
    {
      ProjState(etag, Mark(lastAt, lastIds), issues, streak, warned)
    }

    function Contents(): Durable
      reads this
    {
      Durable(State(), disk)
    }

    /** loadState at a start. */
    constructor (cfg: Config, disk: Option<ProjState>)
      ensures this.cfg == cfg && Contents() == Durable(Load(disk), disk)
    {
      this.cfg, this.disk := cfg, disk;
      var st := Load(disk);
      etag, lastAt, lastIds, issues := st.etag, st.mark.at, st.mark.ids, st.issues;
      streak, warned := st.streak, st.warned;
    }

    /** A failing write leaves the file as it is, and is only logged. */
    method SaveState(ok: bool)
      modifies this`disk
      ensures disk == if ok then Some(State()) else old(disk)
    {
      if ok {
        disk := Some(State());
      }
    }

    /** blocked tells whether the warning of a block streak is posted. */
    method Poll(reply: Reply, saves: bool) returns (acts: seq<Activity>, overflow: bool, blocked: bool)
      modifies this
      ensures (Contents(), acts) == old(Contents()).Live(cfg, Polled(reply, saves))
      ensures overflow <==> reply.Changed? && !old(State()).Unseeded() &&
                            Overflows(reply.entries, old(State()).mark.LastAt())
      ensures blocked <==> old(State()).Warns(reply)
    {
      acts, overflow, blocked := [], false, false;
      if reply.Failure? {
        return;
      }
      if reply.Blocked? {
        blocked := HandleAnubis();
        SaveState(saves);
        return;
      }
      streak, warned := 0, false;
      if reply.Unchanged? {
        SaveState(saves);
        return;
      }
      acts, overflow := PollEntries(reply.entries, reply.etag);
      SaveState(saves);
    }

    method HandleAnubis() returns (posts: bool)
      modifies this`streak, this`warned
      ensures State() == old(State()).Poll(cfg, Blocked).0 && posts == old(State()).Warns(Blocked)
    {
      streak := streak + 1;
      posts := streak >= ANUBIS_WARN_AFTER && !warned;
      if posts {
        warned := true;
      }
    }

    /** The part of poll that a changed feed reaches. */
    method PollEntries(entries: Feed, newEtag: string) returns (acts: seq<Activity>, overflow: bool)
      requires streak == 0 && !warned
      modifies this`etag, this`lastAt, this`lastIds, this`issues
      ensures (State(), acts) == old(State()).Poll(cfg, Changed(entries, newEtag))
      ensures overflow <==> !old(State()).Unseeded() && Overflows(entries, old(State()).mark.LastAt())
    {
      if lastAt.None? && etag == "" {
        SeedState(entries);
        etag := newEtag;
        return [], false;
      }
      var cur := State().mark.LastAt();
      overflow := WarnIfOverflow(entries, cur);
      var accepted := NewEntries(entries);
      acts := ClassifyAll(accepted);
      AdvanceMark(accepted, cur);
      etag := newEtag;
    }

    method AdvanceMark(accepted: Feed, cur: int)
      requires cur == State().mark.LastAt()
      modifies this`lastAt, this`lastIds
      ensures State().mark == old(State().mark).Advance(accepted)
    {
      if |accepted| > 0 {
        var maxT := NewestOf(accepted);
        var boundary := IdsOf(accepted, maxT);
        assert [] + boundary == boundary;
        if maxT == cur {
          boundary := lastIds + boundary;
        }
        lastAt, lastIds := Some(Truncate(maxT)), boundary;
      }
    }

    static method WarnIfOverflow(entries: Feed, cur: int) returns (warned: bool)
      ensures warned <==> Overflows(entries, cur)
      ensures warned <==> |entries| >= 15 && cur != ZERO_TIME && entries[|entries| - 1].at > cur
    {
      if |entries| < FEED_LIMIT || cur == ZERO_TIME {
        return false;
      }
      var oldest := entries[|entries| - 1].at;
      return oldest > cur;
    }

    method SeedState(entries: Feed)
      modifies this`lastAt, this`lastIds, this`issues
      ensures etag == old(etag) && issues == RememberAll(old(issues), entries)
      ensures Mark(lastAt, lastIds) == if entries == [] then old(Mark(lastAt, lastIds)) else Seed(entries)
    {
      if |entries| == 0 {
        return;
      }
      assert entries[..|entries|] == entries;
      for i := 0 to |entries|
        invariant issues == RememberAll(old(issues), entries[..i])
        invariant etag == old(etag) && lastAt == old(lastAt) && lastIds == old(lastIds)
      {
        assert entries[..i + 1][..i] == entries[..i];
        if entries[i].payload.title.Some? {
          issues := Remember(issues, entries[i].payload.title.value);
        }
      }
      var maxT := NewestOf(entries);
      var ids := IdsOf(entries, maxT);
      lastAt, lastIds := Some(Truncate(maxT)), ids;
    }

    /** The acceptance loop, from the oldest entry on. */
    method NewEntries(entries: Feed) returns (accepted: Feed)
      ensures accepted == State().mark.News(Timed(Reverse(entries)))
    {
      var cur := State().mark.LastAt();
      ghost var oldest := Reverse(entries);
      accepted := [];
      var i := |entries|;
      while i > 0
        invariant 0 <= i <= |entries| && accepted == State().mark.News(Timed(oldest[..|entries| - i]))
      {
        i := i - 1;
        var e := entries[i];
        ghost var before := oldest[..|entries| - i - 1];
        assert oldest[..|entries| - i] == before + [e];
        NewsOfNext(State().mark, before, e);
        if e.at == ZERO_TIME {
          continue;
        }
        if e.at > cur || (e.at == cur && e.id !in lastIds) {
          accepted := accepted + [e];
        }
      }
      assert oldest[..|entries|] == oldest;
    }

    /** The classification loop; the issue states are updated even for actions that
        are not announced. */
    method ClassifyAll(accepted: Feed) returns (acts: seq<Activity>)
      modifies this`issues
      ensures (issues, acts) == cfg.Digest(old(issues), accepted)
    {
      acts := [];
      for i := 0 to |accepted|
        invariant (issues, acts) == cfg.Digest(old(issues), accepted[..i])
      {
        assert accepted[..i + 1][..i] == accepted[..i];
        assert acts + [] == acts;
        var a := cfg.Classify(issues, accepted[i]);
        if a.Some? {
          issues := Remember(issues, Title(a.value.tracker, a.value.number, a.value.status, a.value.subject));
          if cfg.Wanted(a.value.action) {
            acts := acts + [Event(accepted[i].id, accepted[i].at, a.value)];
          }
        }
      }
      assert accepted[..|accepted|] == accepted;
    }
  }

  /** Digesting in two pieces is digesting at once. */
  lemma {:induction false} DigestSplits(cfg: Config, issues: Issues, a: Feed, b: Feed)
    ensures var (i1, acts1) := cfg.Digest(issues, a);
            var (i2, acts2) := cfg.Digest(i1, b);
            cfg.Digest(issues, a + b) == (i2, acts1 + acts2)
  {
    if b == [] {
      assert a + b == a && cfg.Digest(issues, a).1 + [] == cfg.Digest(issues, a).1;
    } else {
      var n := |b| - 1;
      DigestSplits(cfg, issues, a, b[..n]);
      assert (a + b)[..|a + b| - 1] == a + b[..n];
      var (i1, acts1) := cfg.Digest(issues, a);
      var (i2, acts2) := cfg.Digest(i1, b[..n]);
      var (i3, more) := cfg.DigestOne(i2, b[n]);
      assert (acts1 + acts2) + more == acts1 + (acts2 + more);
    }
  }

  lemma {:induction false} TimedIsAll(es: Feed)
    requires forall e :: e in es ==> e.at != ZERO_TIME
    ensures Timed(es) == es
  {
    if es != [] {
      TimedIsAll(es[..|es| - 1]);
      assert es == es[..|es| - 1] + [es[|es| - 1]];
    }
  }

  /** The replies that show the given oldest-first pages, each with its own etag. */
  function Replies(pages: seq<Feed>, etags: seq<string>): seq<Reply>
    requires |pages| == |etags|
  {
    if pages == [] then [] else [Changed(Reverse(pages[0]), etags[0])] + Replies(pages[1..], etags[1..])
  }

  /** Seeded, and not to be forgotten by a reply without an etag: that takes a
      watermark, or an etag in every reply. */
  ghost predicate StaysSeeded(st: ProjState, etags: seq<string>) {
    !st.Unseeded() && (st.mark.at.Some? || forall e :: e in etags ==> e != "")
  }

  lemma ReverseTwice<T>(s: seq<T>)
    ensures Reverse(Reverse(s)) == s
  {
  }

  lemma NewsOfPage(m: Mark<string>, page: Feed)
    requires forall e :: e in page ==> e.at != ZERO_TIME
    ensures m.News(Timed(Reverse(Reverse(page)))) == m.News(page)
  {
    ReverseTwice(page);
    TimedIsAll(page);
  }

  /** What a poll over one oldest-first page comes to. */
  function PagePolled(cfg: Config, st: ProjState, page: Feed, etag: string): (ProjState, seq<Activity>) {
    var news := st.mark.News(page);
    var (issues, acts) := cfg.Digest(st.issues, news);
    (ProjState(etag, st.mark.Advance(news), issues, 0, false), acts)
  }

  lemma PollOfPage(cfg: Config, st: ProjState, page: Feed, etag: string)
    requires !st.Unseeded() && forall e :: e in page ==> e.at != ZERO_TIME
    ensures st.Poll(cfg, Changed(Reverse(page), etag)) == PagePolled(cfg, st, page, etag)
  {
    NewsOfPage(st.mark, page);
  }

  lemma SeededNext(cfg: Config, st: ProjState, page: Feed, etags: seq<string>)
    requires etags != [] && StaysSeeded(st, etags)
    ensures StaysSeeded(PagePolled(cfg, st, page, etags[0]).0, etags[1..])
  {
    assert etags[0] in etags && forall e :: e in etags[1..] ==> e in etags;
  }

  /** What the polls over pages come to: what the watermark accepts, digested. */
  function PagesPolled(cfg: Config, st: ProjState, pages: seq<Feed>, etags: seq<string>): (ProjState, seq<Activity>)
    requires |pages| == |etags|
  {
    if pages == [] then (st, []) else
      var (m, news) := Polls(st.mark, pages);
      var (issues, acts) := cfg.Digest(st.issues, news);
      (ProjState(etags[|etags| - 1], m, issues, 0, false), acts)
  }

  lemma PagesPolledStep(cfg: Config, st: ProjState, pages: seq<Feed>, etags: seq<string>)
    requires |pages| == |etags| > 0
    ensures var (st1, acts) := PagePolled(cfg, st, pages[0], etags[0]);
            var (st2, more) := PagesPolled(cfg, st1, pages[1..], etags[1..]);
            PagesPolled(cfg, st, pages, etags) == (st2, acts + more)
  {
    var news := st.mark.News(pages[0]);
    var rest := Polls(st.mark.Advance(news), pages[1..]).1;
    if |pages| == 1 {
      var acts := cfg.Digest(st.issues, news).1;
      assert pages[1..] == [] && news + [] == news && acts + [] == acts;
    } else {
      DigestSplits(cfg, st.issues, news, rest);
    }
  }

  lemma {:induction false} RunDigestsPolls(cfg: Config, st: ProjState, pages: seq<Feed>, etags: seq<string>)
    requires |pages| == |etags| && StaysSeeded(st, etags)
    requires forall i :: 0 <= i < |pages| ==> forall e :: e in pages[i] ==> e.at != ZERO_TIME
    ensures st.Run(cfg, Replies(pages, etags)) == PagesPolled(cfg, st, pages, etags)
    decreases |pages|
  {
    if pages != [] {
      PollOfPage(cfg, st, pages[0], etags[0]);
      SeededNext(cfg, st, pages[0], etags);
      RunDigestsPolls(cfg, PagePolled(cfg, st, pages[0], etags[0]).0, pages[1..], etags[1..]);
      PagesPolledStep(cfg, st, pages, etags);
    }
  }

  /** Once seeded, the announcements and the final state do not depend on where the
      poll boundaries cut the activity history: consecutive polls that see every
      part of it, with any repetitions of processed entries, do what a single poll
      over all of it does. */
  lemma PollBoundariesDoNotMatter(
    cfg: Config, st: ProjState, before: Feed, parts: seq<Feed>, pages: seq<Feed>, etags: seq<string>)
    requires parts != [] && |etags| == |pages| && StaysSeeded(st, etags) && Shows(before, parts, pages)
    requires var all := before + Concat(parts);
             && WholeSeconds(all) && DistinctIds(all) && Chronological(all)
             && forall e :: e in all ==> e.at != ZERO_TIME
    requires forall e :: e in before ==> !st.mark.IsNew(e)
    ensures st.Run(cfg, Replies(pages, etags))
         == st.Poll(cfg, Changed(Reverse(Concat(parts)), etags[|etags| - 1]))
  {
    var all := Concat(parts);
    PollsAreOnePoll(st.mark, before, parts, pages);
    PagesAreTimed(before, parts, pages);
    RunDigestsPolls(cfg, st, pages, etags);
    forall e | e in all ensures e.at != ZERO_TIME {
      assert e in before + all;
    }
    PollOfPage(cfg, st, all, etags[|etags| - 1]);
  }

  lemma {:induction false} PagesAreTimed(before: Feed, parts: seq<Feed>, pages: seq<Feed>)
    requires Shows(before, parts, pages)
    requires forall e :: e in before + Concat(parts) ==> e.at != ZERO_TIME
    ensures forall i :: 0 <= i < |pages| ==> forall e :: e in pages[i] ==> e.at != ZERO_TIME
    decreases |parts|
  {
    if parts != [] {
      var n := |pages[0]| - |parts[0]|;
      assert pages[0] == pages[0][..n] + parts[0];
      assert before + Concat(parts) == (before + parts[0]) + Concat(parts[1..]);
      assert forall e :: e in before || e in parts[0] ==> e in before + Concat(parts);
      PagesAreTimed(before + parts[0], parts[1..], pages[1..]);
      assert forall i :: 0 < i < |pages| ==> pages[i] == pages[1..][i - 1];
    }
  }

  /** The feed shows the newest entries of the project. */
  function Shown(project: Feed): Feed {
    if |project| < 15 then project else project[..15]
  }

  /** With a known watermark, an activity that is strictly newer never drops out
      of the feed without a warning; with an unknown one there is no warning. */
  lemma DroppedNewsAreReported(project: Feed, cur: int)
    requires forall i, j :: 0 <= i <= j < |project| ==> project[i].at >= project[j].at
    ensures cur != ZERO_TIME && !Overflows(Shown(project), cur) ==>
              forall e :: e in project && e.at > cur ==> e in Shown(project)
    ensures cur == ZERO_TIME ==> !Overflows(Shown(project), cur)
    ensures Overflows(Shown(project), cur) ==> forall e :: e in Shown(project) ==> e.at > cur
  {
  }

  /** Fetching and accepting together: with a known watermark and no warning, every
      strictly newer activity with a time is accepted. */
  lemma NewerActivitiesAreAccepted(m: Mark<string>, project: Feed, e: Event<string, Entry>)
    requires forall i, j :: 0 <= i <= j < |project| ==> project[i].at >= project[j].at
    requires m.LastAt() != ZERO_TIME && !Overflows(Shown(project), m.LastAt())
    requires e in project && e.at > m.LastAt() && e.at != ZERO_TIME
    ensures e in m.News(Timed(Reverse(Shown(project))))
  {
    DroppedNewsAreReported(project, m.LastAt());
    ReverseMember(Shown(project), e);
    TimedMember(Reverse(Shown(project)), e);
    NewsMembers(m, Timed(Reverse(Shown(project))));
  }

  lemma {:induction false} TimedMember(es: Feed, e: Event<string, Entry>)
    requires e in es && e.at != ZERO_TIME
    ensures e in Timed(es)
  {
    var n := |es| - 1;
    assert es == es[..n] + [es[n]];
    if e != es[n] {
      TimedMember(es[..n], e);
    }
  }

  /** The replies among rounds. */
  function RepliesOf(rounds: seq<Round>): seq<Reply> {
    if rounds == [] then []
    else if rounds[0].Polled? then [rounds[0].reply] + RepliesOf(rounds[1..])
    else RepliesOf(rounds[1..])
  }

  /** As long as the state file can be written, restarts between polls make no
      difference. */
  lemma {:induction false} RestartsAreInvisible(cfg: Config, d: Durable, rounds: seq<Round>)
    requires Load(d.disk) == d.mem && forall i :: 0 <= i < |rounds| && rounds[i].Polled? ==> rounds[i].saves
    ensures var (d', acts) := d.Lives(cfg, rounds);
            Load(d'.disk) == d'.mem && (d'.mem, acts) == d.mem.Run(cfg, RepliesOf(rounds))
    decreases |rounds|
  {
    if rounds != [] {
      var (d', acts) := d.Live(cfg, rounds[0]);
      RestartsAreInvisible(cfg, d', rounds[1..]);
      if rounds[0].Restarted? {
        assert [] + d'.Lives(cfg, rounds[1..]).1 == d'.Lives(cfg, rounds[1..]).1;
      }
    }
  }

  /** A page names an activity once, and an id always comes with the same whole
      second. */
  ghost predicate Faithful(entries: Feed, time: string -> int) {
    DistinctIds(entries) && Timely(entries, time)
  }

  ghost predicate Truthful(replies: seq<Reply>, time: string -> int) {
    forall i :: 0 <= i < |replies| && replies[i].Changed? ==> Faithful(replies[i].entries, time)
  }

  lemma {:induction false} TimedIsFaithful(es: Feed, time: string -> int)
    requires Faithful(es, time)
    ensures Faithful(Timed(es), time) && forall e :: e in Timed(es) ==> e in es
  {
    if es != [] {
      var front, last := es[..|es| - 1], es[|es| - 1];
      assert es == front + [last];
      TimedIsFaithful(front, time);
      var timed := Timed(front);
      forall i | 0 <= i < |timed| ensures timed[i].id != last.id {
        assert timed[i] in timed && timed[i] in front;
        var j :| 0 <= j < |front| && front[j] == timed[i];
        assert es[j].id != es[|es| - 1].id;
      }
    }
  }

  lemma {:induction false} DigestKeepsIds(cfg: Config, issues: Issues, news: Feed)
    requires DistinctIds(news)
    ensures var acts := cfg.Digest(issues, news).1;
            DistinctIds(acts) && forall a :: a in acts ==> a.id in IdSet(news)
  {
    if news != [] {
      var front, last := news[..|news| - 1], news[|news| - 1];
      assert news == front + [last];
      DigestKeepsIds(cfg, issues, front);
      var acts := cfg.Digest(issues, front).1;
      forall i | 0 <= i < |acts| ensures acts[i].id in IdSet(front) && acts[i].id != last.id {
        assert acts[i] in acts;
      }
    }
  }

  /** Over every sequence of polls no activity is announced twice. */
  lemma {:induction false} NoActivityIsAnnouncedTwice(
    cfg: Config, st: ProjState, replies: seq<Reply>, handled: set<string>, time: string -> int)
    requires Remembers(st.mark, handled, time) && Truthful(replies, time)
    ensures var acts := st.Run(cfg, replies).1;
            DistinctIds(acts) && forall a :: a in acts ==> a.id !in handled
    decreases |replies|
  {
    if replies != [] {
      var (st', acts) := st.Poll(cfg, replies[0]);
      var reached := AfterPoll(cfg, st, replies[0], handled, time);
      NoActivityIsAnnouncedTwice(cfg, st', replies[1..], reached, time);
      var rest := st'.Run(cfg, replies[1..]).1;
      forall i, j | 0 <= i < |acts| && 0 <= j < |rest| ensures acts[i].id != rest[j].id {
        assert acts[i] in acts && rest[j] in rest;
      }
    }
  }

  /** The ids handled after a poll. */
  lemma AfterPoll(cfg: Config, st: ProjState, reply: Reply, handled: set<string>, time: string -> int)
    returns (reached: set<string>)
    requires Remembers(st.mark, handled, time) && (reply.Changed? ==> Faithful(reply.entries, time))
    ensures var (st', acts) := st.Poll(cfg, reply);
            && handled <= reached && (reply.Changed? && st.Unseeded() ==> IdSet(reply.entries) <= reached)
            && Remembers(st'.mark, reached, time) && DistinctIds(acts)
            && forall a :: a in acts ==> a.id in reached && a.id !in handled
  {
    reached := handled;
    if reply.Changed? {
      if st.Unseeded() {
        SeedRemembers(reply.entries, time);
        reached := handled + IdSet(reply.entries);
      } else {
        var oldest := Timed(Reverse(reply.entries));
        ReverseIsTimely(reply.entries, time);
        TimedIsFaithful(Reverse(reply.entries), time);
        AcceptRemembers(st.mark, oldest, handled, time);
        NewsAreUnique(st.mark, oldest);
        var news := st.mark.News(oldest);
        DigestKeepsIds(cfg, st.issues, news);
        reached := handled + IdSet(news);
      }
    }
  }

  /** The activities of the page that a monitor is seeded with are never announced. */
  lemma SeedingPageStaysSilent(cfg: Config, st: ProjState, replies: seq<Reply>, time: string -> int)
    requires st.Unseeded() && Truthful(replies, time) && replies != [] && replies[0].Changed?
    ensures forall a :: a in st.Run(cfg, replies).1 ==> a.id !in IdSet(replies[0].entries)
  {
    var reached := AfterPoll(cfg, st, replies[0], {}, time);
    var st' := st.Poll(cfg, replies[0]).0;
    NoActivityIsAnnouncedTwice(cfg, st', replies[1..], reached, time);
    assert [] + st'.Run(cfg, replies[1..]).1 == st'.Run(cfg, replies[1..]).1;
  }

  /** The blocked polls since the last answer of the server; other failures neither
      count nor end the streak. */
  function Blocks(replies: seq<Reply>): nat {
    if replies == [] then 0
    else match replies[|replies| - 1]
      case Failure => Blocks(replies[..|replies| - 1])
      case Blocked => 1 + Blocks(replies[..|replies| - 1])
      case Unchanged => 0
      case Changed(_, _) => 0
  }

  lemma {:induction false} RunSnoc(cfg: Config, st: ProjState, replies: seq<Reply>, reply: Reply)
    ensures st.Run(cfg, replies + [reply]).0 == st.Run(cfg, replies).0.Poll(cfg, reply).0
    decreases |replies|
  {
    if replies == [] {
      assert [] + [reply] == [reply] && [reply][1..] == [];
    } else {
      RunSnoc(cfg, st.Poll(cfg, replies[0]).0, replies[1..], reply);
      assert (replies + [reply])[1..] == replies[1..] + [reply];
    }
  }

  lemma {:induction false} StreakCountsBlocks(cfg: Config, st: ProjState, replies: seq<Reply>)
    requires st.streak == 0 && !st.warned
    ensures var after := st.Run(cfg, replies).0;
            after.streak == Blocks(replies) && (after.warned <==> Blocks(replies) >= ANUBIS_WARN_AFTER)
  {
    if replies != [] {
      var n := |replies| - 1;
      StreakCountsBlocks(cfg, st, replies[..n]);
      RunSnoc(cfg, st, replies[..n], replies[n]);
      assert replies == replies[..n] + [replies[n]];
    }
  }

  /** Over every run, the warning is posted exactly once in a block streak: at its
      third blocked poll. */
  lemma WarnsOncePerStreak(cfg: Config, st: ProjState, replies: seq<Reply>, i: nat)
    requires st.streak == 0 && !st.warned && i < |replies|
    ensures st.Run(cfg, replies[..i]).0.Warns(replies[i]) <==>
              replies[i].Blocked? && Blocks(replies[..i + 1]) == 3
  {
    StreakCountsBlocks(cfg, st, replies[..i]);
    assert replies[..i + 1][..i] == replies[..i];
  }

  function StatusOf(issues: Issues, n: int): string {
    if n in issues then issues[n].status else ""
  }

  /** The status that an entry states for issue n; "" when it states none. */
  function StatedStatus(e: Entry, n: int): string {
    if !e.isIssue || e.title.None? || e.title.value.number != n then ""
    else if !e.journal && e.title.value.status == "" then "New"
    else e.title.value.status
  }

  /** The last status stated in a list, or else the one known before. */
  function LastStatus(news: Feed, n: int, known: string): string {
    if news == [] then known
    else if StatedStatus(news[|news| - 1].payload, n) != "" then StatedStatus(news[|news| - 1].payload, n)
    else LastStatus(news[..|news| - 1], n, known)
  }

  /** The remembered status of every issue is the last stated one. */
  lemma {:induction false} StatusIsLastStated(cfg: Config, issues: Issues, news: Feed, n: int)
    ensures StatusOf(cfg.Digest(issues, news).0, n) == LastStatus(news, n, StatusOf(issues, n))
  {
    if news != [] {
      StatusIsLastStated(cfg, issues, news[..|news| - 1], n);
    }
  }

  /** A change of an issue is a reopening exactly when it states an open status and
      the last status stated before, in any earlier poll, was a closed one. */
  lemma ReopenedIff(cfg: Config, issues: Issues, news: Feed, e: Event<string, Entry>)
    requires e.payload.isIssue && e.payload.title.Some?
    ensures var it := e.payload.title.value;
            cfg.Classify(cfg.Digest(issues, news).0, e).value.action == "reopen" <==>
              && e.payload.journal && it.status != "" && it.status !in CLOSED_STATUSES
              && LastStatus(news, it.number, StatusOf(issues, it.number)) in CLOSED_STATUSES
  {
    StatusIsLastStated(cfg, issues, news, e.payload.title.value.number);
    assert "reopen" !in ["create", "resolve", "close", "update", "comment"];
  }

  /** The entry e, classified as c, is announced so if the action is wanted, and
      otherwise not at all. */
  ghost predicate AnnouncedAs(cfg: Config, acts: seq<Activity>, e: Event<string, Entry>, c: Option<Announcement>) {
    if c.Some? && cfg.Wanted(c.value.action) then Event(e.id, e.at, c.value) in acts
    else forall a :: a in acts ==> a.id != e.id
  }

  lemma AnnouncedEarlier(cfg: Config, issues: Issues, news: Feed, e: Event<string, Entry>, c: Option<Announcement>)
    requires news != [] && e.id != news[|news| - 1].id
    requires AnnouncedAs(cfg, cfg.Digest(issues, news[..|news| - 1]).1, e, c)
    ensures AnnouncedAs(cfg, cfg.Digest(issues, news).1, e, c)
  {
  }

  lemma AnnouncedLast(cfg: Config, issues: Issues, news: Feed)
    requires news != [] && DistinctIds(news)
    ensures var e := news[|news| - 1];
            AnnouncedAs(cfg, cfg.Digest(issues, news).1, e, cfg.Classify(cfg.Digest(issues, news[..|news| - 1]).0, e))
  {
    var front, e := news[..|news| - 1], news[|news| - 1];
    DigestKeepsIds(cfg, issues, front);
    assert forall x :: x in front ==> x.id != e.id;
    assert e.id !in IdSet(front);
  }

  /** Every accepted entry is announced as it classifies at its moment, if that is
      wanted, and nothing else is. */
  lemma {:induction false} AnnouncedIff(cfg: Config, issues: Issues, news: Feed, i: nat)
    requires DistinctIds(news) && i < |news|
    ensures var c := cfg.Classify(cfg.Digest(issues, news[..i]).0, news[i]);
            AnnouncedAs(cfg, cfg.Digest(issues, news).1, news[i], c)
  {
    var n := |news| - 1;
    if i < n {
      AnnouncedIff(cfg, issues, news[..n], i);
      assert news[..n][..i] == news[..i];
      AnnouncedEarlier(cfg, issues, news, news[i], cfg.Classify(cfg.Digest(issues, news[..i]).0, news[i]));
    } else {
      AnnouncedLast(cfg, issues, news);
    }
  }

  predicate Open(status: string) {
    status !in ["", "Closed", "Resolved", "Rejected"]
  }

  predicate WasClosed(issues: Issues, n: int) {
    StatusOf(issues, n) in ["Closed", "Resolved", "Rejected"]
  }

  predicate PlainChange(issues: Issues, it: Title, note: string) {
    if it.status == "" then note == "" else Open(it.status) && !WasClosed(issues, it.number)
  }

  /** What an entry is announced as: only issue entries with a readable title count;
      a creation without status is new and announced without note; a change is named
      after the status it states, or else after its note. */
  lemma ClassifyMeaning(cfg: Config, issues: Issues, e: Event<string, Entry>)
    ensures var p := e.payload;
            cfg.Classify(issues, e).Some? <==> p.isIssue && p.title.Some?
    ensures cfg.Classify(issues, e).Some? ==>
              var p, it, a := e.payload, e.payload.title.value, cfg.Classify(issues, e).value;
              && a.number == it.number && a.actor == p.actor && a.tracker == it.tracker && a.url == p.url
              && a.subject == cfg.snippet(it.subject, 100)
              && a.note == cfg.snippet(if p.journal then p.note else "", 120)
              && a.status == (if !p.journal && it.status == "" then "New" else it.status)
              && (a.action == "create" <==> !p.journal)
              && (a.action == "resolve" <==> p.journal && it.status == "Resolved")
              && (a.action == "close" <==> p.journal && it.status in ["Closed", "Rejected"])
              && (a.action == "reopen" <==> p.journal && Open(it.status) && WasClosed(issues, it.number))
              && (a.action == "comment" <==> p.journal && it.status == "" && p.note != "")
              && (a.action == "update" <==> p.journal && PlainChange(issues, it, p.note))
  {
    assert "reopen" !in ["create", "resolve", "close", "update", "comment"];
    assert "update" !in ["create", "resolve", "close", "reopen", "comment"];
    assert "create" !in ["resolve", "close", "comment"] && "resolve" !in ["close", "comment"] && "close" != "comment";
  }

  /** Without a filter the six actions are wanted, with one exactly those it names. */
  lemma WantedMeaning(cfg: Config, action: string)
    ensures cfg.Wanted(action) <==>
              if cfg.actions == [] then action in {"create", "comment", "close", "resolve", "reopen", "update"}
              else action in cfg.actions
  {
  }

  lemma ClassifiedIsSupported(cfg: Config, issues: Issues, e: Event<string, Entry>)
    requires cfg.Classify(issues, e).Some?
    ensures cfg.Classify(issues, e).value.action in {"create", "comment", "close", "resolve", "reopen", "update"}
  {
  }

  /** Of distinct accepted entries, without a filter, one is announced exactly if it is
      an issue entry with a readable title. */
  lemma UnfilteredDigest(cfg: Config, issues: Issues, news: Feed, e: Event<string, Entry>)
    requires cfg.actions == [] && DistinctIds(news) && e in news
    ensures Announced(cfg.Digest(issues, news).1, e) <==> e.payload.isIssue && e.payload.title.Some?
  {
    var i :| 0 <= i < |news| && news[i] == e;
    AnnouncedIff(cfg, issues, news, i);
    var before := cfg.Digest(issues, news[..i]).0;
    var c := cfg.Classify(before, e);
    if c.Some? {
      ClassifiedIsSupported(cfg, before, e);
      WantedMeaning(cfg, c.value.action);
    }
  }

  /** An activity with the id and time of an entry. */
  ghost predicate Announced(acts: seq<Activity>, e: Event<string, Entry>) {
    exists a :: a in acts && a.id == e.id && a.at == e.at
  }

  /** What a poll accepts of a page. */
  lemma AcceptedOfPage(m: Mark<string>, entries: Feed)
    requires DistinctIds(entries)
    ensures var news := m.News(Timed(Reverse(entries)));
            DistinctIds(news) && forall e :: e in news <==> e in entries && e.at != ZERO_TIME && m.IsNew(e)
  {
    var oldest := Timed(Reverse(entries));
    ReverseIsDistinct(entries);
    TimedMembers(Reverse(entries));
    NewsAreUnique(m, oldest);
    NewsMembers(m, oldest);
    forall e | e in entries ensures e in Reverse(entries) {
      ReverseMember(entries, e);
    }
    assert forall e :: e in Reverse(entries) ==> e in entries;
  }

  /** One poll of a seeded monitor that filters no action: an entry of the page is
      announced, with its time, exactly if it is new to the watermark, has a time, and
      is an issue entry with a readable title. */
  lemma UnfilteredPollAnnounces(cfg: Config, st: ProjState, entries: Feed, etag: string, e: Event<string, Entry>)
    requires cfg.actions == [] && !st.Unseeded() && DistinctIds(entries) && e in entries
    ensures var last := if st.mark.at.Some? then st.mark.at.value else 0;
            var isNew := e.at > last || (e.at == last && e.id !in st.mark.ids);
            Announced(st.Poll(cfg, Changed(entries, etag)).1, e) <==>
              e.at != 0 && isNew && e.payload.isIssue && e.payload.title.Some?
  {
    var news := st.mark.News(Timed(Reverse(entries)));
    AcceptedOfPage(st.mark, entries);
    if e in news {
      UnfilteredDigest(cfg, st.issues, news, e);
    } else {
      DigestKeepsIds(cfg, st.issues, news);
      forall x | x in news ensures x.id != e.id {
        OneEntryPerId(entries, x, e);
      }
      assert e.id !in IdSet(news);
    }
  }

  lemma ReverseIsDistinct(es: Feed)
    requires DistinctIds(es)
    ensures DistinctIds(Reverse(es))
  {
  }

  lemma OneEntryPerId(es: Feed, x: Event<string, Entry>, y: Event<string, Entry>)
    requires DistinctIds(es) && x in es && y in es && x != y
    ensures x.id != y.id
  {
    var i :| 0 <= i < |es| && es[i] == x;
    var j :| 0 <= j < |es| && es[j] == y;
  }

  lemma {:induction false} TimedMembers(es: Feed)
    ensures forall e :: e in Timed(es) <==> e in es && e.at != ZERO_TIME
    ensures DistinctIds(es) ==> DistinctIds(Timed(es))
  {
    if es != [] {
      var front, last := es[..|es| - 1], es[|es| - 1];
      TimedMembers(front);
      assert es == front + [last];
      if DistinctIds(es) {
        DistinctSnoc(front, last);
        DistinctSnoc(Timed(front), last);
      }
    }
  }

  /** What a poll leaves: a failed one nothing, any answer an ended block streak, and a
      changed feed the new etag; a first one announces nothing. */
  lemma PollMeaning(cfg: Config, st: ProjState, reply: Reply)
    ensures var (after, acts) := st.Poll(cfg, reply);
            && (!reply.Changed? ==>
                  acts == [] && after.etag == st.etag && after.mark == st.mark && after.issues == st.issues)
            && (reply.Failure? ==> after == st)
            && (reply.Unchanged? || reply.Changed? ==> after.streak == 0 && !after.warned)
            && (reply.Changed? ==> after.etag == reply.etag)
            && (reply.Changed? && st.mark.at.None? && st.etag == "" ==>
                  acts == [] && (reply.entries == [] ==> after.mark == st.mark && after.issues == st.issues))
  {
  }

  /** The last status that the titles of a page state for issue n. */
  function LastRead(entries: Feed, n: int, known: string): string {
    if entries == [] then known
    else
      var title := entries[|entries| - 1].payload.title;
      if title.Some? && title.value.number == n && title.value.status != "" then title.value.status
      else LastRead(entries[..|entries| - 1], n, known)
  }

  /** Seeding reads the page newest first, so the oldest stated status stays. */
  lemma {:induction false} SeedingKeepsLastRead(issues: Issues, entries: Feed, n: int)
    ensures StatusOf(RememberAll(issues, entries), n) == LastRead(entries, n, StatusOf(issues, n))
  {
    if entries != [] {
      SeedingKeepsLastRead(issues, entries[..|entries| - 1], n);
    }
  }

  /** Remembering: empty fields keep what is known, and no other issue changes. */
  lemma RememberMeaning(issues: Issues, it: Title, n: int)
    ensures var after := Remember(issues, it);
            && after.Keys == issues.Keys + {it.number}
            && (n != it.number && n in issues ==> after[n] == issues[n])
            && after[it.number].status == (if it.status == "" then StatusOf(issues, it.number) else it.status)
            && (it.tracker != "" ==> after[it.number].tracker == it.tracker)
            && (it.subject != "" ==> after[it.number].subject == it.subject)
            && (it.number in issues ==>
                  && (it.tracker == "" ==> after[it.number].tracker == issues[it.number].tracker)
                  && (it.subject == "" ==> after[it.number].subject == issues[it.number].subject))
            && (it.number !in issues ==>
                  && (it.tracker == "" ==> after[it.number].tracker == "")
                  && (it.subject == "" ==> after[it.number].subject == ""))
  {
  }
}
