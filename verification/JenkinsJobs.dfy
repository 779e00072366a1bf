/** The per-job tracking of the Jenkins monitor: which builds are announced, and
    what the announcements count. */
module JenkinsJobs {
  import opened Results
  import opened Lists

  const MAX_NEW_BUILDS := 20

  /** The result of a build; every other result is ignored. */
  datatype Outcome = Success | Failed | Ignored

  datatype Build = Build(number: int, result: string, url: string) {
    function Kind(): Outcome {
      if result == "SUCCESS" then Success
      else if result == "FAILURE" || result == "UNSTABLE" then Failed
      else Ignored
    }
  }

  datatype BuildReply = Found(build: Build) | Missing | TransientError

  datatype Health = Healthy | Broken | Unknown

  /** The last failing build is recorded as announced. */
  datatype Job = Job(
    health: Health, lastResult: string, lastBuild: int, announced: int, consecutive: nat, lastUrl: string,
    lastSeen: int)

  const FRESH := Job(Unknown, "", 0, 0, 0, "", 0)

  /** What happens to a job, in order: messages, and silently adopted successes. */
  datatype Event =
    | FailedMessage(build: int, count: nat)
    | RecoveredMessage(build: int, count: nat)
    | QuietSuccess(build: int)

  /** What one poll of a job sees: the latest completed build - none, or an error -
      the replies to requests for single builds, and the clock. */
  datatype View = View(latest: Result<Option<Build>>, builds: int -> BuildReply, now: int)

  function Collapse(job: Job, cur: Build): (Job, seq<Event>) {
    var adopted := job.(lastResult := cur.result, lastBuild := cur.number, lastUrl := cur.url);
    match cur.Kind()
    case Failed =>
      (adopted.(health := Broken, announced := cur.number, consecutive := job.consecutive + 1),
       [FailedMessage(cur.number, job.consecutive + 1)])
    case Success => (adopted.(health := Healthy, consecutive := 0), [QuietSuccess(cur.number)])
    case Ignored => (adopted, [])
  }

  function Process(job: Job, b: Build): (Job, seq<Event>) {
    var adopted := job.(lastResult := b.result, lastUrl := b.url);
    match b.Kind()
    case Success =>
      (adopted.(health := Healthy, consecutive := 0),
       [if job.health == Broken then RecoveredMessage(b.number, job.consecutive) else QuietSuccess(b.number)])
    case Failed =>
      (adopted.(health := Broken, announced := b.number, consecutive := job.consecutive + 1),
       [FailedMessage(b.number, job.consecutive + 1)])
    case Ignored => (job, [])
  }

  /** The builds n..last, one after the other; missing ones are passed over, and a
      transient error ends the round. */
  function ProcessRange(job: Job, builds: int -> BuildReply, n: int, last: int): (Job, seq<Event>, bool)
    decreases last - n
  {
    if n > last then (job, [], true)
    else match builds(n)
      case TransientError => (job, [], false)
      case Missing => ProcessRange(job, builds, n + 1, last)
      case Found(b) =>
        var (job1, events) := Process(job, b);
        var (job2, more, ok) := ProcessRange(job1, builds, n + 1, last);
        (job2, events + more, ok)
  }

  function Poll(job: Job, firstPoll: bool, view: View): (Job, seq<Event>) {
    if view.latest.Err? || view.latest.value.None? then (job, [])
    else
      var cur := view.latest.value.value;
      var seen := job.(lastSeen := view.now);
      if job.lastBuild == cur.number then (seen, [])
      else if firstPoll || job.lastBuild == 0 || cur.number - job.lastBuild > MAX_NEW_BUILDS then Collapse(seen, cur)
      else
        var (after, events, ok) := ProcessRange(seen, view.builds, job.lastBuild + 1, cur.number);
        (if ok then after.(lastBuild := cur.number) else after, events)
  }

  /** Whether a poll of a job ends without an error. */
  predicate Succeeds(job: Job, firstPoll: bool, view: View) {
    view.latest.Ok? &&
    (view.latest.value.None? ||
     var cur := view.latest.value.value;
     || job.lastBuild == cur.number || firstPoll || job.lastBuild == 0
     || cur.number - job.lastBuild > MAX_NEW_BUILDS
     || ProcessRange(job.(lastSeen := view.now), view.builds, job.lastBuild + 1, cur.number).2)
  }

  /** One poll, or an orderly restart, after which the next poll counts as a first
      one. */
  datatype Round = Round(firstPoll: bool, view: View)

  function Run(job: Job, rounds: seq<Round>): (Job, seq<Event>)
    decreases |rounds|
  {
    if rounds == [] then (job, []) else
      var (job1, events) := Poll(job, rounds[0].firstPoll, rounds[0].view);
      var (job2, more) := Run(job1, rounds[1..]);
      (job2, events + more)
  }

  class JobMonitor {
    var job: Job
    var log: seq<Event>

    constructor (job: Job)
      ensures this.job == job && log == []
    {
      this.job, log := job, [];
    }

    /** pollJob; ok is false when it returns an error. */
    method PollJob(firstPoll: bool, view: View) returns (ok: bool)
      modifies this
      ensures job == Poll(old(job), firstPoll, view).0 && log == old(log) + Poll(old(job), firstPoll, view).1
      ensures ok <==> Succeeds(old(job), firstPoll, view)
    {
      if view.latest.Err? {
        return false;
      }
      if view.latest.value.None? {
        return true;
      }
      var cur := view.latest.value.value;
      job := job.(lastSeen := view.now);
      if job.lastBuild == cur.number {
        return true;
      }
      if firstPoll || job.lastBuild == 0 {
        CollapseCurrent(cur);
        return true;
      }
      if cur.number - job.lastBuild > MAX_NEW_BUILDS {
        CollapseCurrent(cur);
        return true;
      }
      var n := job.lastBuild + 1;
      ghost var all := ProcessRange(job, view.builds, n, cur.number);
      assert log + all.1 == old(log) + all.1;
      while n <= cur.number
        invariant var rest := ProcessRange(job, view.builds, n, cur.number);
                  all.0 == rest.0 && all.2 == rest.2 && old(log) + all.1 == log + rest.1
        decreases cur.number - n
      {
        var b := view.builds(n);
        n := n + 1;
        if b.Missing? {
          continue;
        }
        if b.TransientError? {
          assert log + [] == log;
          return false;
        }
        ghost var events := Process(job, b.build).1;
        ghost var before, more := log, ProcessRange(Process(job, b.build).0, view.builds, n, cur.number).1;
        assert before + (events + more) == (before + events) + more;
        ProcessBuild(b.build);
      }
      assert log + [] == log;
      job := job.(lastBuild := cur.number);
      return true;
    }

    method CollapseCurrent(cur: Build)
      modifies this
      ensures job == Collapse(old(job), cur).0 && log == old(log) + Collapse(old(job), cur).1
    {
      match cur.Kind() {
        case Failed =>
          job := job.(consecutive := job.consecutive + 1, health := Broken, announced := cur.number);
          log := log + [FailedMessage(cur.number, job.consecutive)];
        case Success =>
          job := job.(health := Healthy, consecutive := 0);
          log := log + [QuietSuccess(cur.number)];
        case Ignored =>
      }
      job := job.(lastResult := cur.result, lastBuild := cur.number, lastUrl := cur.url);
    }

    method ProcessBuild(b: Build)
      modifies this
      ensures job == Process(old(job), b).0 && log == old(log) + Process(old(job), b).1
    {
      match b.Kind() {
        case Success =>
          if job.health == Broken {
            log := log + [RecoveredMessage(b.number, job.consecutive)];
          } else {
            log := log + [QuietSuccess(b.number)];
          }
          job := job.(health := Healthy, consecutive := 0);
        case Failed =>
          job := job.(consecutive := job.consecutive + 1, health := Broken, announced := b.number);
          log := log + [FailedMessage(b.number, job.consecutive)];
        case Ignored => return;
      }
      job := job.(lastResult := b.result, lastUrl := b.url);
    }
  }

  /** The failure messages since the last success, counted from the end. */
  function Streak(events: seq<Event>): nat {
    if events == [] || !events[|events| - 1].FailedMessage? then 0 else 1 + Streak(events[..|events| - 1])
  }

  /** The invariant of every history: a job is failed exactly while its count is
      positive, the count is the failure messages since the last success, the build
      of the last one is recorded, and
      every message told the truth when it was sent. */
  ghost predicate Consistent(job: Job, history: seq<Event>) {
    && (job.health == Broken <==> job.consecutive > 0) && job.consecutive == Streak(history) && Truthful(history)
    && job.announced == LastFailed(history)
  }

  /** The build of the last failure message. */
  function LastFailed(events: seq<Event>): int {
    if events == [] then 0
    else if events[|events| - 1].FailedMessage? then events[|events| - 1].build
    else LastFailed(events[..|events| - 1])
  }

  ghost predicate Truthful(history: seq<Event>) {
    forall i :: 0 <= i < |history| ==>
      (history[i].FailedMessage? ==> history[i].count == Streak(history[..i]) + 1) &&
      (history[i].RecoveredMessage? ==> history[i].count == Streak(history[..i]) > 0)
  }

  lemma AppendKeeps(history: seq<Event>, e: Event)
    requires Truthful(history)
    requires e.FailedMessage? ==> e.count == Streak(history) + 1
    requires e.RecoveredMessage? ==> e.count == Streak(history) > 0
    ensures Truthful(history + [e]) && Streak(history + [e]) == if e.FailedMessage? then Streak(history) + 1 else 0
    ensures LastFailed(history + [e]) == if e.FailedMessage? then e.build else LastFailed(history)
  {
    var after := history + [e];
    assert after[..|history|] == history;
    assert forall i :: 0 <= i < |history| ==> after[i] == history[i] && after[..i] == history[..i];
  }

  lemma ProcessKeeps(job: Job, b: Build, history: seq<Event>)
    requires Consistent(job, history)
    ensures Consistent(Process(job, b).0, history + Process(job, b).1)
  {
    var events := Process(job, b).1;
    if events == [] { assert history + events == history; } else { AppendKeeps(history, events[0]); }
  }

  lemma CollapseKeeps(job: Job, cur: Build, history: seq<Event>)
    requires Consistent(job, history)
    ensures Consistent(Collapse(job, cur).0, history + Collapse(job, cur).1)
  {
    var events := Collapse(job, cur).1;
    if events == [] { assert history + events == history; } else { AppendKeeps(history, events[0]); }
  }

  lemma {:induction false} RangeKeeps(job: Job, builds: int -> BuildReply, n: int, last: int, history: seq<Event>)
    requires Consistent(job, history)
    ensures var (after, events, _) := ProcessRange(job, builds, n, last); Consistent(after, history + events)
    decreases last - n
  {
    if n > last || builds(n).TransientError? {
      assert history + [] == history;
    } else if builds(n).Missing? {
      RangeKeeps(job, builds, n + 1, last, history);
    } else {
      var (job1, events) := Process(job, builds(n).build);
      var more := ProcessRange(job1, builds, n + 1, last).1;
      ProcessKeeps(job, builds(n).build, history);
      RangeKeeps(job1, builds, n + 1, last, history + events);
      Associates(history, events, more);
    }
  }

  /** Over every run - restarts, collapses, missing builds, ignored results, errors
      and retries - a recovery message names exactly the failure messages since
      the last success. */
  lemma {:induction false} RunIsConsistent(job: Job, rounds: seq<Round>, history: seq<Event>)
    requires Consistent(job, history)
    ensures var (after, events) := Run(job, rounds); Consistent(after, history + events)
    decreases |rounds|
  {
    if rounds == [] {
      assert history + [] == history;
    } else {
      var (job1, events) := Poll(job, rounds[0].firstPoll, rounds[0].view);
      PollIsConsistent(job, rounds[0].firstPoll, rounds[0].view, history);
      RunIsConsistent(job1, rounds[1..], history + events);
      Associates(history, events, Run(job1, rounds[1..]).1);
    }
  }

  /** In particular the whole history of a job that was never seen before. */
  lemma WholeHistoryIsConsistent(rounds: seq<Round>)
    ensures var (job, events) := Run(FRESH, rounds); Consistent(job, events)
  {
    RunIsConsistent(FRESH, rounds, []);
    assert [] + Run(FRESH, rounds).1 == Run(FRESH, rounds).1;
  }

  lemma PollIsConsistent(job: Job, firstPoll: bool, view: View, history: seq<Event>)
    requires Consistent(job, history)
    ensures var (after, events) := Poll(job, firstPoll, view); Consistent(after, history + events)
  {
    if view.latest.Err? || view.latest.value.None? || view.latest.value.value.number == job.lastBuild {
      assert history + [] == history;
    } else {
      var cur, seen := view.latest.value.value, job.(lastSeen := view.now);
      if firstPoll || job.lastBuild == 0 || cur.number - job.lastBuild > MAX_NEW_BUILDS {
        CollapseKeeps(seen, cur, history);
      } else {
        RangeKeeps(seen, view.builds, job.lastBuild + 1, cur.number, history);
      }
    }
  }

  /** The messages have rising build numbers, all above low and at most high. */
  ghost predicate Rising(events: seq<Event>, low: int, high: int) {
    (forall i :: 0 <= i < |events| ==> low < events[i].build <= high) &&
    (forall i, j :: 0 <= i < j < |events| ==> events[i].build < events[j].build)
  }

  lemma RisingJoins(a: seq<Event>, b: seq<Event>, low: int, mid: int, high: int)
    requires Rising(a, low, mid) && Rising(b, mid, high) && low <= mid <= high
    ensures Rising(a + b, low, high)
  {
  }

  /** A view whose build replies carry the number that was asked for, and whose
      latest build is not older than the job's. */
  ghost predicate Sane(job: Job, view: View) {
    (forall n :: view.builds(n).Found? ==> view.builds(n).build.number == n) &&
    (view.latest.Ok? && view.latest.value.Some? ==> view.latest.value.value.number >= job.lastBuild)
  }

  ghost predicate NoTransientError(view: View) {
    forall n :: !view.builds(n).TransientError?
  }

  lemma {:induction false} RangeRises(job: Job, view: View, n: int, last: int)
    requires forall i :: view.builds(i).Found? ==> view.builds(i).build.number == i
    requires n <= last + 1
    ensures var (after, events, ok) := ProcessRange(job, view.builds, n, last);
            Rising(events, n - 1, last) && after.lastBuild == job.lastBuild && (NoTransientError(view) ==> ok)
    decreases last - n
  {
    if n <= last && !view.builds(n).TransientError? {
      if view.builds(n).Missing? {
        RangeRises(job, view, n + 1, last);
      } else {
        var (job1, events) := Process(job, view.builds(n).build);
        RangeRises(job1, view, n + 1, last);
        RisingJoins(events, ProcessRange(job1, view.builds, n + 1, last).1, n - 1, n, last);
      }
    }
  }

  ghost predicate AllSane(job: Job, rounds: seq<Round>)
    decreases |rounds|
  {
    rounds == [] ||
    (Sane(job, rounds[0].view) && NoTransientError(rounds[0].view) &&
     AllSane(Poll(job, rounds[0].firstPoll, rounds[0].view).0, rounds[1..]))
  }

  lemma PollRises(job: Job, firstPoll: bool, view: View)
    requires Sane(job, view) && NoTransientError(view)
    ensures var (after, events) := Poll(job, firstPoll, view);
            after.lastBuild >= job.lastBuild && Rising(events, job.lastBuild, after.lastBuild)
  {
    if view.latest.Ok? && view.latest.value.Some? {
      RangeRises(job.(lastSeen := view.now), view, job.lastBuild + 1, view.latest.value.value.number);
    }
  }

  /** With rising build numbers and no transient build error, no build is announced
      twice: over the whole run the announced numbers strictly increase. */
  lemma {:induction false} AnnouncedNumbersRise(job: Job, rounds: seq<Round>)
    requires AllSane(job, rounds)
    ensures var (after, events) := Run(job, rounds);
            after.lastBuild >= job.lastBuild && Rising(events, job.lastBuild, after.lastBuild)
    decreases |rounds|
  {
    if rounds != [] {
      PollRises(job, rounds[0].firstPoll, rounds[0].view);
      var (job1, events) := Poll(job, rounds[0].firstPoll, rounds[0].view);
      AnnouncedNumbersRise(job1, rounds[1..]);
      var (after, more) := Run(job1, rounds[1..]);
      RisingJoins(events, more, job.lastBuild, job1.lastBuild, after.lastBuild);
    }
  }

  /** Some event says that a build failed, or that it succeeded. */
  predicate Announces(events: seq<Event>, build: int, failed: bool) {
    exists i :: 0 <= i < |events| && events[i].build == build && (events[i].FailedMessage? <==> failed)
  }

  predicate Ends(reply: BuildReply, outcome: Outcome) {
    reply.Found? && reply.build.Kind() == outcome
  }

  lemma AnnouncesEither(a: seq<Event>, b: seq<Event>, build: int, failed: bool)
    ensures Announces(a + b, build, failed) <==> Announces(a, build, failed) || Announces(b, build, failed)
  {
    if i :| 0 <= i < |b| && b[i].build == build && (b[i].FailedMessage? <==> failed) {
      assert (a + b)[|a| + i] == b[i];
    }
    if i :| 0 <= i < |a| && a[i].build == build && (a[i].FailedMessage? <==> failed) {
      assert (a + b)[i] == a[i];
    }
  }

  /** A round reports exactly the failing and the succeeding builds it gets to. */
  lemma {:induction false} RangeAnnounces(job: Job, builds: int -> BuildReply, n: int, last: int, k: int, failed: bool)
    requires forall i :: builds(i).Found? ==> builds(i).build.number == i
    ensures Announces(ProcessRange(job, builds, n, last).1, k, failed) <==>
              && n <= k <= last && Ends(builds(k), if failed then Failed else Success)
              && forall j :: n <= j < k ==> !builds(j).TransientError?
    decreases last - n
  {
    if n <= last && !builds(n).TransientError? {
      if builds(n).Missing? {
        RangeAnnounces(job, builds, n + 1, last, k, failed);
      } else {
        var (job1, events) := Process(job, builds(n).build);
        RangeAnnounces(job1, builds, n + 1, last, k, failed);
        AnnouncesEither(events, ProcessRange(job1, builds, n + 1, last).1, k, failed);
        ProcessAnnounces(job, builds(n).build, k, failed);
      }
    }
  }

  lemma ProcessAnnounces(job: Job, b: Build, k: int, failed: bool)
    ensures Announces(Process(job, b).1, k, failed) <==> k == b.number && b.Kind() == if failed then Failed else Success
  {
    var events := Process(job, b).1;
    assert events != [] ==> events[0].build == b.number;
  }

  /** Events that continue a history: a success in them is silent only when no
      failure message is open. */
  ghost predicate QuietWithoutFailures(history: seq<Event>, events: seq<Event>) {
    forall i :: 0 <= i < |events| && events[i].QuietSuccess? ==> Streak(history + events[..i]) == 0
  }

  lemma QuietJoins(history: seq<Event>, a: seq<Event>, b: seq<Event>)
    requires QuietWithoutFailures(history, a) && QuietWithoutFailures(history + a, b)
    ensures QuietWithoutFailures(history, a + b)
  {
    forall i | 0 <= i < |a + b| && (a + b)[i].QuietSuccess? ensures Streak(history + (a + b)[..i]) == 0 {
      if i < |a| {
        assert (a + b)[..i] == a[..i];
      } else {
        assert history + (a + b)[..i] == (history + a) + b[..i - |a|];
      }
    }
  }

  /** Build by build, every success after open failure messages is announced as a
      recovery. */
  lemma {:induction false} RecoveriesAreAnnounced(
    job: Job, builds: int -> BuildReply, n: int, last: int, history: seq<Event>)
    requires Consistent(job, history)
    ensures QuietWithoutFailures(history, ProcessRange(job, builds, n, last).1)
    decreases last - n
  {
    if n <= last && builds(n).Missing? {
      RecoveriesAreAnnounced(job, builds, n + 1, last, history);
    } else if n <= last && builds(n).Found? {
      var (job1, events) := Process(job, builds(n).build);
      ProcessKeeps(job, builds(n).build, history);
      ProcessIsQuiet(job, builds(n).build, history);
      RecoveriesAreAnnounced(job1, builds, n + 1, last, history + events);
      QuietJoins(history, events, ProcessRange(job1, builds, n + 1, last).1);
    }
  }

  lemma ProcessIsQuiet(job: Job, b: Build, history: seq<Event>)
    requires Consistent(job, history)
    ensures QuietWithoutFailures(history, Process(job, b).1)
  {
    assert history + [] == history;
  }

  /** A round that a transient error ends at build m leaves the last build where it
      was, so the next round processes the same builds again: a failing build is
      announced twice exactly if it was among those before the error. */
  lemma RetryRepeatsFailures(job: Job, first: View, second: View, m: int, cur: Build, k: int)
    requires job.lastBuild != 0 && job.lastBuild < m <= cur.number <= job.lastBuild + MAX_NEW_BUILDS
    requires first.latest == second.latest == Ok(Some(cur))
    requires Sane(job, first) && Sane(job, second) && NoTransientError(second)
    requires first.builds(m).TransientError?
    requires forall n :: job.lastBuild < n < m ==> first.builds(n) == second.builds(n)
    ensures var (job1, events1) := Poll(job, false, first);
            var events2 := Poll(job1, false, second).1;
            Announces(events1, k, true) && Announces(events2, k, true) <==>
              job.lastBuild < k < m && Ends(first.builds(k), Failed)
  {
    var n, last := job.lastBuild + 1, cur.number;
    var seen := job.(lastSeen := first.now);
    RangeAnnounces(seen, first.builds, n, last, k, true);
    RangeRises(seen, first, n, last);
    RangeStops(seen, first.builds, n, m, last);
    var again := Poll(job, false, first).0.(lastSeen := second.now);
    RangeAnnounces(again, second.builds, n, last, k, true);
    assert forall j :: job.lastBuild < j < m ==> first.builds(j) == second.builds(j);
  }

  lemma {:induction false} RangeStops(job: Job, builds: int -> BuildReply, n: int, m: int, last: int)
    requires n <= m <= last && builds(m).TransientError?
    ensures !ProcessRange(job, builds, n, last).2
    decreases last - n
  {
    if !builds(n).TransientError? {
      RangeStops(if builds(n).Missing? then job else Process(job, builds(n).build).0, builds, n + 1, m, last);
    }
  }

  /** It happens: build 2 fails, build 3 cannot be read at first, and the failure of
      build 2 is announced in both rounds. */
  lemma FailureCanBeAnnouncedTwice()
    ensures var job := FRESH.(health := Healthy, lastBuild := 1);
            var cur := Build(3, "SUCCESS", "");
            var bad := Build(2, "FAILURE", "");
            var first := View(Ok(Some(cur)), n => if n == 2 then Found(bad) else TransientError, 10);
            var second := View(Ok(Some(cur)), n => if n == 2 then Found(bad) else Missing, 20);
            var (job1, events1) := Poll(job, false, first);
            Announces(events1, 2, true) && Announces(Poll(job1, false, second).1, 2, true)
  {
    var job := FRESH.(health := Healthy, lastBuild := 1);
    var cur := Build(3, "SUCCESS", "");
    var bad := Build(2, "FAILURE", "");
    var first := View(Ok(Some(cur)), n => if n == 2 then Found(bad) else TransientError, 10);
    var second := View(Ok(Some(cur)), n => if n == 2 then Found(bad) else Missing, 20);
    RetryRepeatsFailures(job, first, second, 3, cur, 2);
  }

  /** The builds that a regular poll goes through: all after the last one, up to the
      latest, at most twenty. */
  ghost predicate Regular(job: Job, firstPoll: bool, view: View, cur: Build) {
    && view.latest == Ok(Some(cur)) && !firstPoll && job.lastBuild != 0
    && cur.number != job.lastBuild && cur.number - job.lastBuild <= 20
    && forall i :: view.builds(i).Found? ==> view.builds(i).build.number == i
  }

  /** Such a poll reports build k exactly if it lies in the gap and failed, or
      succeeded, and no transient error comes in front of it. */
  lemma RegularPollAnnounces(job: Job, firstPoll: bool, view: View, cur: Build, k: int, failed: bool)
    requires Regular(job, firstPoll, view, cur)
    ensures Announces(Poll(job, firstPoll, view).1, k, failed) <==>
              && job.lastBuild < k <= cur.number
              && view.builds(k).Found? && view.builds(k).build.Kind() == (if failed then Failed else Success)
              && forall j :: job.lastBuild < j < k ==> !view.builds(j).TransientError?
  {
    RangeAnnounces(job.(lastSeen := view.now), view.builds, job.lastBuild + 1, cur.number, k, failed);
  }

  /** It announces a success as a recovery exactly if failure messages are open then,
      naming their number, and counts its failure messages on. */
  lemma RegularPollRecovers(job: Job, firstPoll: bool, view: View, cur: Build, history: seq<Event>, i: nat)
    requires Regular(job, firstPoll, view, cur) && Consistent(job, history)
    requires i < |Poll(job, firstPoll, view).1|
    ensures var events := Poll(job, firstPoll, view).1;
            var open := Streak(history + events[..i]);
            if events[i].FailedMessage? then events[i].count == open + 1
            else if open > 0 then events[i].RecoveredMessage? && events[i].count == open
            else events[i].QuietSuccess?
  {
    var seen, events := job.(lastSeen := view.now), Poll(job, firstPoll, view).1;
    RecoveriesAreAnnounced(seen, view.builds, job.lastBuild + 1, cur.number, history);
    PollIsConsistent(job, firstPoll, view, history);
    TruthAt(history, events, i);
  }

  lemma TruthAt(history: seq<Event>, events: seq<Event>, i: nat)
    requires Truthful(history + events) && i < |events|
    ensures events[i].FailedMessage? ==> events[i].count == Streak(history + events[..i]) + 1
    ensures events[i].RecoveredMessage? ==> events[i].count == Streak(history + events[..i]) > 0
  {
    var all := history + events;
    assert all[|history| + i] == events[i] && all[..|history| + i] == history + events[..i];
  }

  /** It moves on to the latest build exactly if no transient error came up, and it
      succeeds exactly then. */
  lemma RegularPollMovesOn(job: Job, firstPoll: bool, view: View, cur: Build)
    requires Regular(job, firstPoll, view, cur)
    ensures var clean := forall j :: job.lastBuild < j <= cur.number ==> !view.builds(j).TransientError?;
            var after := Poll(job, firstPoll, view).0;
            && after.lastBuild == (if clean then cur.number else job.lastBuild) && after.lastSeen == view.now
            && (Succeeds(job, firstPoll, view) <==> clean)
            && (cur.number > job.lastBuild ==> Rising(Poll(job, firstPoll, view).1, job.lastBuild, cur.number))
  {
    var seen := job.(lastSeen := view.now);
    RangeEnds(seen, view.builds, job.lastBuild + 1, cur.number);
    if cur.number > job.lastBuild {
      RangeRises(seen, view, job.lastBuild + 1, cur.number);
    }
  }

  /** Build k counts: it failed or succeeded, and no transient error comes in front. */
  ghost predicate Counts(builds: int -> BuildReply, n: int, k: int) {
    && n <= k && builds(k).Found? && builds(k).build.Kind() != Ignored
    && forall j :: n <= j < k ==> !builds(j).TransientError?
  }

  /** No build behind k does. */
  ghost predicate NoneCounts(builds: int -> BuildReply, n: int, k: int, last: int) {
    forall j :: k < j <= last ==> !Counts(builds, n, j)
  }

  lemma CountsLater(builds: int -> BuildReply, n: int, n': int, k: int, last: int)
    requires n' == n + 1 && !builds(n).TransientError? && NoneCounts(builds, n, k, last)
    ensures NoneCounts(builds, n', k, last)
  {
    forall j | k < j <= last ensures !Counts(builds, n', j) {
      assert Counts(builds, n', j) ==> Counts(builds, n, j);
    }
  }

  /** The job shows the last build that counts, or stays as it is if none does. */
  lemma RegularPollShowsLast(job: Job, firstPoll: bool, view: View, cur: Build, k: int)
    requires Regular(job, firstPoll, view, cur)
    requires NoneCounts(view.builds, job.lastBuild + 1, k, cur.number)
    ensures var after := Poll(job, firstPoll, view).0;
            if k == job.lastBuild then after.(lastBuild := job.lastBuild, lastSeen := job.lastSeen) == job
            else k <= cur.number && Counts(view.builds, job.lastBuild + 1, k) ==>
              var b := view.builds(k).build;
              && after.lastResult == b.result && after.lastUrl == b.url
              && after.health == (if b.Kind() == Failed then Broken else Healthy)
  {
    RangeShowsLast(job.(lastSeen := view.now), view.builds, job.lastBuild + 1, cur.number, k);
  }

  lemma {:induction false} RangeShowsLast(job: Job, builds: int -> BuildReply, n: int, last: int, k: int)
    requires NoneCounts(builds, n, k, last)
    ensures var after := ProcessRange(job, builds, n, last).0;
            && (k < n ==> after == job)
            && (k <= last && Counts(builds, n, k) ==>
                  var b := builds(k).build;
                  && after.lastResult == b.result && after.lastUrl == b.url
                  && after.health == (if b.Kind() == Failed then Broken else Healthy))
    decreases last - n
  {
    if n <= last && !builds(n).TransientError? {
      var job1 := if builds(n).Missing? then job else Process(job, builds(n).build).0;
      CountsLater(builds, n, n + 1, k, last);
      assert k > n && Counts(builds, n, k) ==> Counts(builds, n + 1, k);
      assert k < n ==> !Counts(builds, n, n);
      RangeShowsLast(job1, builds, n + 1, last, k);
    }
  }

  lemma {:induction false} RangeEnds(job: Job, builds: int -> BuildReply, n: int, last: int)
    ensures var (after, _, ok) := ProcessRange(job, builds, n, last);
            && (ok <==> forall j :: n <= j <= last ==> !builds(j).TransientError?)
            && after.lastBuild == job.lastBuild && after.lastSeen == job.lastSeen
    decreases last - n
  {
    if n <= last && !builds(n).TransientError? {
      RangeEnds(if builds(n).Missing? then job else Process(job, builds(n).build).0, builds, n + 1, last);
    }
  }

  /** A first poll, a job without a last build, or a gap of more than twenty builds:
      only the latest build counts. It is announced exactly if it failed, with the
      count raised by one; a success is adopted silently; any other result only
      moves the job on. */
  lemma CollapsingPollMeaning(job: Job, firstPoll: bool, view: View, cur: Build)
    requires view.latest == Ok(Some(cur)) && cur.number != job.lastBuild
    requires firstPoll || job.lastBuild == 0 || cur.number - job.lastBuild > 20
    ensures var (after, events) := Poll(job, firstPoll, view);
            var failed, fine := cur.result in {"FAILURE", "UNSTABLE"}, cur.result == "SUCCESS";
            && Succeeds(job, firstPoll, view)
            && events == (if failed then [FailedMessage(cur.number, job.consecutive + 1)]
                          else if fine then [QuietSuccess(cur.number)] else [])
            && after.lastBuild == cur.number && after.lastResult == cur.result && after.lastUrl == cur.url
            && after.lastSeen == view.now && after.announced == (if failed then cur.number else job.announced)
            && after.consecutive == (if failed then job.consecutive + 1 else if fine then 0 else job.consecutive)
            && after.health == (if failed then Broken else if fine then Healthy else job.health)
  {
  }

  /** One build of a regular poll, with all it leaves in the job. */
  lemma ProcessMeaning(job: Job, b: Build)
    ensures var (after, events) := Process(job, b);
            if b.result in {"FAILURE", "UNSTABLE"} then
              && events == [FailedMessage(b.number, job.consecutive + 1)]
              && after == Job(Broken, b.result, job.lastBuild, b.number, job.consecutive + 1, b.url, job.lastSeen)
            else if b.result == "SUCCESS" then
              && events == [if job.health == Broken then RecoveredMessage(b.number, job.consecutive)
                            else QuietSuccess(b.number)]
              && after == Job(Healthy, b.result, job.lastBuild, job.announced, 0, b.url, job.lastSeen)
            else events == [] && after == job
  {
  }

  /** Without a new build, or without an answer, a poll announces nothing and leaves
      everything but the time it was seen. */
  lemma IdlePollMeaning(job: Job, firstPoll: bool, view: View)
    requires view.latest.Err? || view.latest.value.None? || view.latest.value.value.number == job.lastBuild
    ensures var (after, events) := Poll(job, firstPoll, view);
            && events == [] && after.(lastSeen := job.lastSeen) == job
            && after.lastSeen == (if view.latest.Ok? && view.latest.value.Some? then view.now else job.lastSeen)
            && (Succeeds(job, firstPoll, view) <==> view.latest.Ok?)
  {
  }
}
