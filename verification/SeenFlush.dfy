/** How record updates interleave with the flusher: it takes a snapshot of one
    channel under the lock, and writes it to the channel's file without it. */
module SeenFlush {
  import opened Results
  import opened Nicks

  /** The shared state between two steps. dirty holds the channels whose flag is
      set; pending is the snapshot the flusher is writing; lost remembers the
      channels whose latest write failed. */
  datatype State = State(
    data: map<string, Records>,
    dirty: set<string>,
    disk: map<string, Records>,
    pending: Option<(string, Records)>,
    lost: set<string>)

  datatype Step =
    | Update(data: map<string, Records>, touched: set<string>)
    | Snapshot(ch: string)
    | Finish(ok: bool)

  /** An update changes only channels that it marks; only loaded channels are
      snapshot; there is a single flusher. */
  predicate Enabled(s: State, step: Step) {
    match step
    case Update(data, touched) =>
      && s.data.Keys <= data.Keys && touched <= data.Keys
      && forall ch :: ch in data && ch !in touched ==> ch in s.data && data[ch] == s.data[ch]
    case Snapshot(ch) => s.pending.None? && ch in s.data
    case Finish(_) => s.pending.Some?
  }

  function Next(s: State, step: Step): State
    requires Enabled(s, step)
  {
    match step
    case Update(data, touched) => s.(data := data, dirty := s.dirty + touched)
    case Snapshot(ch) => s.(dirty := s.dirty - {ch}, pending := Some((ch, s.data[ch])), lost := s.lost - {ch})
    case Finish(ok) =>
      var (ch, snap) := s.pending.value;
      if ok then s.(disk := s.disk[ch := snap], pending := None)
      else s.(pending := None, lost := s.lost + {ch})
  }

  /** A channel that is not dirty has its contents in the pending snapshot or on
      disk, unless its latest write failed; dirty channels are loaded. */
  ghost predicate Safe(s: State) {
    && s.dirty <= s.data.Keys
    && (forall ch :: ch in s.data && ch !in s.dirty && ch !in s.lost ==>
          if s.pending.Some? && s.pending.value.0 == ch then s.pending.value.1 == s.data[ch]
          else ch in s.disk && s.disk[ch] == s.data[ch])
  }

  lemma StepKeepsSafe(s: State, step: Step)
    requires Safe(s) && Enabled(s, step)
    ensures Safe(Next(s, step))
  {
  }

  /** A run is a sequence of states, each an enabled step after the one before. */
  ghost predicate IsRun(states: seq<State>, steps: seq<Step>) {
    |states| == |steps| + 1 &&
    forall i :: 0 <= i < |steps| ==> Enabled(states[i], steps[i]) && states[i + 1] == Next(states[i], steps[i])
  }

  /** Every run from a safe state stays safe; without a failed write no channel is
      ever lost. */
  lemma {:induction false} RunIsSafe(states: seq<State>, steps: seq<Step>)
    requires IsRun(states, steps) && Safe(states[0])
    ensures Safe(states[|steps|])
    ensures states[0].lost == {} && (forall i :: 0 <= i < |steps| ==> steps[i] != Finish(false)) ==>
              states[|steps|].lost == {}
  {
    if steps != [] {
      var n := |steps| - 1;
      RunIsSafe(states[..n + 1], steps[..n]);
      assert Enabled(states[n], steps[n]);
      StepKeepsSafe(states[n], steps[n]);
    }
  }

  /** snap is what the channel held in one of the states up to n. */
  ghost predicate WasHeld(states: seq<State>, n: nat, ch: string, snap: Records)
    requires n < |states|
  {
    exists i :: 0 <= i <= n && ch in states[i].data && states[i].data[ch] == snap
  }

  /** The file of a channel always holds one whole snapshot: contents that the
      memory had at one moment, never a mixture. */
  lemma {:induction false} DiskHoldsASnapshot(states: seq<State>, steps: seq<Step>, ch: string)
    requires IsRun(states, steps) && states[0].pending.None?
    ensures var last := states[|steps|];
            && (last.pending.Some? && last.pending.value.0 == ch ==> WasHeld(states, |steps|, ch, last.pending.value.1))
            && (ch in last.disk ==>
                 || WasHeld(states, |steps|, ch, last.disk[ch])
                 || (ch in states[0].disk && last.disk[ch] == states[0].disk[ch]))
  {
    if steps != [] {
      var n := |steps| - 1;
      var front := states[..n + 1];
      DiskHoldsASnapshot(front, steps[..n], ch);
      assert Enabled(states[n], steps[n]) && states[n + 1] == Next(states[n], steps[n]);
      forall snap | WasHeld(front, n, ch, snap) ensures WasHeld(states, n + 1, ch, snap) {
        var i :| 0 <= i <= n && ch in front[i].data && front[i].data[ch] == snap;
        assert states[i].data[ch] == snap;
      }
      if steps[n].Snapshot? && steps[n].ch == ch {
        assert ch in states[n].data && states[n].data[ch] == states[n + 1].pending.value.1;
      }
    }
  }

  /** A failed write is not retried by itself: the flag is already cleared, so the
      flusher finds nothing to do and the file stays old. */
  lemma FailedWriteIsForgotten()
    ensures var recs := map["bob" := Entry(1, 0, 0)];
            var s0 := State(map[], {}, map[], None, {});
            var u := Update(map["#c" := recs], {"#c"});
            && Enabled(s0, u) && Enabled(Next(s0, u), Snapshot("#c"))
            && var s2 := Next(Next(s0, u), Snapshot("#c"));
               Enabled(s2, Finish(false)) &&
               var s3 := Next(s2, Finish(false)); s3.dirty == {} && s3.pending.None? && "#c" !in s3.disk
  {
  }

  /** Whatever is updated while a snapshot is written: afterwards a channel that was
      not touched is on disk exactly if the write succeeded, or the file held these
      records before. */
  lemma WrittenIff(s: State, ch: string, update: Step, ok: bool)
    requires Enabled(s, Snapshot(ch)) && update.Update? && Enabled(Next(s, Snapshot(ch)), update)
    requires ch !in update.touched && ch in update.data
    ensures var s' := Next(Next(Next(s, Snapshot(ch)), update), Finish(ok));
            OnDisk(s', ch) <==> ok || OnDisk(s, ch)
  {
  }

  /** The files after the given channels were written as they are in memory. */
  function Flushed(s: State, written: set<string>): map<string, Records>
    requires written <= s.data.Keys
  {
    map ch | ch in s.disk.Keys + written :: if ch in written then s.data[ch] else s.disk[ch]
  }

  /** A loop that writes the given channels has todo of them in front of it. */
  predicate Writing(before: State, now: State, channels: set<string>, todo: set<string>, failing: set<string>) {
    && todo <= channels <= before.data.Keys && now.data == before.data && now.pending.None?
    && now.dirty == before.dirty - (channels - todo)
    && now.disk == Flushed(before, channels - todo - failing)
  }

  lemma WritingStarts(before: State, channels: set<string>, failing: set<string>)
    requires channels <= before.data.Keys && before.pending.None?
    ensures Writing(before, before, channels, channels, failing)
  {
    assert channels - channels - failing == {};
  }

  lemma WritingStep(
    before: State, now: State, channels: set<string>, todo: set<string>, failing: set<string>, ch: string)
    requires Writing(before, now, channels, todo, failing) && ch in todo
    ensures Enabled(now, Snapshot(ch))
    ensures Writing(before, Next(Next(now, Snapshot(ch)), Finish(ch !in failing)), channels, todo - {ch}, failing)
  {
    assert channels - (todo - {ch}) == (channels - todo) + {ch};
    assert channels - (todo - {ch}) - failing
        == if ch in failing then channels - todo - failing else (channels - todo - failing) + {ch};
  }

  lemma WritingEnds(before: State, now: State, channels: set<string>, failing: set<string>)
    requires Writing(before, now, channels, {}, failing)
    ensures now.dirty == before.dirty - channels && now.disk == Flushed(before, channels - failing)
    ensures forall ch :: ch in channels ==> (OnDisk(now, ch) <==> ch !in failing || OnDisk(before, ch))
  {
    assert channels - {} - failing == channels - failing;
  }

  predicate OnDisk(s: State, ch: string)
    requires ch in s.data
  {
    ch in s.disk && s.disk[ch] == s.data[ch]
  }

  /** A loop over the channels has replaced the records of all but those in todo,
      and marked the ones it had to. */
  ghost predicate Replacing(
    data: map<string, Records>, before: map<string, Records>, goal: map<string, Records>,
    dirty: set<string>, dirtyBefore: set<string>, marked: set<string>, todo: set<string>)
  {
    && data.Keys == before.Keys == goal.Keys && todo <= data.Keys
    && (forall ch :: ch in data ==> data[ch] == if ch in todo then before[ch] else goal[ch])
    && dirty == dirtyBefore + (marked - todo)
  }

  lemma ReplacingStep(
    data: map<string, Records>, before: map<string, Records>, goal: map<string, Records>,
    dirty: set<string>, dirtyBefore: set<string>, marked: set<string>, todo: set<string>, ch: string)
    requires Replacing(data, before, goal, dirty, dirtyBefore, marked, todo) && ch in todo
    ensures Replacing(data[ch := goal[ch]], before, goal, dirty + if ch in marked then {ch} else {},
                      dirtyBefore, marked, todo - {ch})
  {
  }

  ghost predicate OneSpellingEach(data: map<string, Records>) {
    forall ch :: ch in data ==> OneSpelling(data[ch])
  }

  /** The channels with a record of a nick. */
  ghost function Knowing(data: map<string, Records>, nick: string): set<string>
    requires OneSpellingEach(data)
  {
    set ch | ch in data && KeyOf(data[ch], nick) != ""
  }

  ghost function QuitEverywhere(data: map<string, Records>, nick: string, t: int): map<string, Records>
    requires OneSpellingEach(data)
  {
    map ch | ch in data :: Quit(data[ch], nick, t)
  }

  ghost function RenameEverywhere(data: map<string, Records>, from: string, to: string): map<string, Records>
    requires OneSpellingEach(data)
  {
    map ch | ch in data :: Rename(data[ch], from, to)
  }

  /** What the lock protects is well formed: dirty channels are loaded, and every
      nick has one spelling in each of them. */
  ghost predicate Good(s: State) {
    s.dirty <= s.data.Keys && "" !in s.data && OneSpellingEach(s.data)
  }

  /** The calls of the store, write being two: the snapshot and the file. */
  datatype Call =
    | SetCall(ch: string, nick: string, kind: Kind, t: int)
    | QuitCall(nick: string, t: int)
    | RenameCall(from: string, to: string)
    | TakeCall(ch: string)
    | FileCall(ok: bool)

  /** The single flusher finishes one write before it starts another. */
  predicate Allowed(s: State, call: Call) {
    (call.TakeCall? ==> s.pending.None?) && (call.FileCall? ==> s.pending.Some?)
  }

  /** The step of the protocol that a call takes. */
  ghost function StepOf(s: State, call: Call): Step
    requires OneSpellingEach(s.data)
  {
    match call
    case SetCall(ch, nick, kind, t) =>
      if ch == "" || nick == "" then Update(s.data, {})
      else Update(s.data[ch := Record(if ch in s.data then s.data[ch] else map[], nick, kind, t)], {ch})
    case QuitCall(nick, t) =>
      if nick == "" then Update(s.data, {}) else Update(QuitEverywhere(s.data, nick, t), Knowing(s.data, nick))
    case RenameCall(from, to) =>
      if from == "" || to == "" || EqualFold(from, to) then Update(s.data, {})
      else Update(RenameEverywhere(s.data, from, to), Knowing(s.data, from))
    case TakeCall(ch) => if ch in s.data then Snapshot(ch) else Update(s.data, {})
    case FileCall(ok) => Finish(ok)
  }

  /** Every call is an enabled step, and keeps what the lock protects well formed. */
  lemma CallIsAStep(s: State, call: Call)
    requires Good(s) && Allowed(s, call)
    ensures Enabled(s, StepOf(s, call)) && Good(Next(s, StepOf(s, call)))
  {
    match call
    case SetCall(ch, nick, kind, t) =>
      if ch != "" && nick != "" {
        UpdatesKeepOneSpelling(if ch in s.data then s.data[ch] else map[], nick, nick, kind, t);
      }
    case QuitCall(nick, t) => if nick != "" { QuitKeepsOneSpelling(s.data, nick, t); }
    case RenameCall(from, to) => if from != "" && to != "" { RenameKeepsOneSpelling(s.data, from, to); }
    case TakeCall(ch) =>
    case FileCall(ok) =>
  }

  ghost function After(s: State, call: Call): (s': State)
    requires Good(s) && Allowed(s, call)
    ensures Good(s')
  {
    CallIsAStep(s, call);
    Next(s, StepOf(s, call))
  }

  /** An event changes one time of one record, in its own channel only, and marks it. */
  lemma SetMeaning(s: State, ch: string, nick: string, kind: Kind, t: int)
    requires Good(s) && ch != "" && nick != ""
    ensures var s' := After(s, SetCall(ch, nick, kind, t));
            && s'.data.Keys == s.data.Keys + {ch} && s'.dirty == s.dirty + {ch}
            && forall c :: c in s.data && c != ch ==> s'.data[c] == s.data[c]
    ensures var was := if ch in s.data then s.data[ch] else map[];
            var now := After(s, SetCall(ch, nick, kind, t)).data[ch];
            var prior := if KeyOf(was, nick) == "" then Entry(0, 0, 0) else was[KeyOf(was, nick)];
            && (forall k :: k in now || k in was ==> EqualFold(k, nick) || (k in now && k in was && now[k] == was[k]))
            && KeyOf(now, nick) != ""
            && now[KeyOf(now, nick)] == Entry(if kind == Joined then t else prior.join,
                                             if kind == Left then t else prior.exit,
                                             if kind == Spoke then t else prior.message)
  {
    RecordedIsFound(if ch in s.data then s.data[ch] else map[], nick, kind, t, nick);
  }

  /** A quit sets the exit time of the nick, in every spelling and every channel that
      knows it, marks exactly these channels, and changes nothing else. */
  lemma QuitMeaning(s: State, nick: string, t: int)
    requires Good(s) && nick != ""
    ensures var s' := After(s, QuitCall(nick, t));
            && s'.data.Keys == s.data.Keys
            && (forall ch :: ch in s.data ==> s'.data[ch].Keys == s.data[ch].Keys)
            && (forall ch, k :: ch in s.data && k in s.data[ch] ==>
                  s'.data[ch][k] == if EqualFold(k, nick) then s.data[ch][k].(exit := t) else s.data[ch][k])
            && (forall ch :: ch in s'.dirty <==>
                  ch in s.dirty || (ch in s.data && exists k :: k in s.data[ch] && EqualFold(k, nick)))
  {
    forall ch | ch in s.data {
      QuitIsRecorded(s.data[ch], nick, t);
    }
  }

  /** A rename moves the record in every channel that knows the nick, marks exactly
      these channels, and leaves all others as they are. */
  lemma RenameMeaning(s: State, nick: string, to: string, ch: string)
    requires Good(s) && nick != "" && to != "" && !EqualFold(nick, to) && ch in s.data
    ensures var s' := After(s, RenameCall(nick, to));
            var knows := exists k :: k in s.data[ch] && EqualFold(k, nick);
            && s'.data.Keys == s.data.Keys && (ch in s'.dirty <==> ch in s.dirty || knows)
            && (!knows ==> s'.data[ch] == s.data[ch])
            && (knows ==> KeyOf(s'.data[ch], nick) == "" && KeyOf(s'.data[ch], to) != ""
                          && s'.data[ch] == Rename(s.data[ch], nick, to))
  {
    if KeyOf(s.data[ch], nick) != "" {
      RenamedIsFound(s.data[ch], nick, to, nick);
    }
  }

  ghost predicate AllAllowed(s: State, calls: seq<Call>)
    requires Good(s)
    decreases |calls|
  {
    calls == [] || (Allowed(s, calls[0]) && AllAllowed(After(s, calls[0]), calls[1..]))
  }

  /** The states that a sequence of calls goes through, the first one included. */
  ghost function StatesOf(s: State, calls: seq<Call>): (states: seq<State>)
    requires Good(s) && AllAllowed(s, calls)
    ensures |states| == |calls| + 1 && states[0] == s
    decreases |calls|
  {
    if calls == [] then [s] else [s] + StatesOf(After(s, calls[0]), calls[1..])
  }

  ghost function StepsOf(s: State, calls: seq<Call>): (steps: seq<Step>)
    requires Good(s) && AllAllowed(s, calls)
    ensures |steps| == |calls|
    ensures forall i :: 0 <= i < |calls| ==> (steps[i].Finish? ==> calls[i] == FileCall(steps[i].ok))
    decreases |calls|
  {
    if calls == [] then [] else [StepOf(s, calls[0])] + StepsOf(After(s, calls[0]), calls[1..])
  }

  /** Every sequence of calls, in any interleaving of updates and flusher, is a run
      of the protocol. */
  lemma {:induction false} CallsAreARun(s: State, calls: seq<Call>)
    requires Good(s) && AllAllowed(s, calls)
    ensures IsRun(StatesOf(s, calls), StepsOf(s, calls))
    decreases |calls|
  {
    if calls != [] {
      var s', step := After(s, calls[0]), StepOf(s, calls[0]);
      CallIsAStep(s, calls[0]);
      CallsAreARun(s', calls[1..]);
      RunFrom(s, step, StatesOf(s', calls[1..]), StepsOf(s', calls[1..]));
    }
  }

  lemma RunFrom(s: State, step: Step, states: seq<State>, steps: seq<Step>)
    requires IsRun(states, steps) && Enabled(s, step) && states[0] == Next(s, step)
    ensures IsRun([s] + states, [step] + steps)
  {
    forall i | 0 <= i < |steps| + 1
      ensures Enabled(([s] + states)[i], ([step] + steps)[i])
           && ([s] + states)[i + 1] == Next(([s] + states)[i], ([step] + steps)[i])
    {
      if i > 0 { assert Enabled(states[i - 1], steps[i - 1]); }
    }
  }

  /** The state of a store that has just loaded its files. */
  function Loaded(files: map<string, Records>): State {
    State(files, {}, files, None, {})
  }

  /** So whatever calls a store gets: a clean channel is in the pending snapshot or on
      disk unless its latest write failed, nothing is lost when no write fails, and
      every file is one whole state that its channel had. */
  lemma StoreIsSafe(files: map<string, Records>, calls: seq<Call>)
    requires Good(Loaded(files)) && AllAllowed(Loaded(files), calls)
    ensures var states := StatesOf(Loaded(files), calls);
            var last := states[|calls|];
            && Safe(last)
            && ((forall i :: 0 <= i < |calls| ==> calls[i] != FileCall(false)) ==> last.lost == {})
            && (forall ch :: ch in last.disk ==> WasHeld(states, |calls|, ch, last.disk[ch]))
  {
    var states, steps := StatesOf(Loaded(files), calls), StepsOf(Loaded(files), calls);
    CallsAreARun(Loaded(files), calls);
    RunIsSafe(states, steps);
    forall ch | ch in states[|calls|].disk ensures WasHeld(states, |calls|, ch, states[|calls|].disk[ch]) {
      DiskHoldsASnapshot(states, steps, ch);
      assert ch in files ==> ch in states[0].data && states[0].data[ch] == files[ch];
    }
  }

  lemma QuitKeepsOneSpelling(data: map<string, Records>, nick: string, t: int)
    requires OneSpellingEach(data) && nick != ""
    ensures OneSpellingEach(QuitEverywhere(data, nick, t))
  {
  }

  lemma RenameKeepsOneSpelling(data: map<string, Records>, from: string, to: string)
    requires OneSpellingEach(data) && from != "" && to != ""
    ensures OneSpellingEach(RenameEverywhere(data, from, to))
  {
    forall ch | ch in data ensures OneSpelling(Rename(data[ch], from, to)) {
      UpdatesKeepOneSpelling(data[ch], from, to, Left, 0);
    }
  }

  /** The loop is over. */
  lemma ReplacedAll(
    data: map<string, Records>, before: map<string, Records>, goal: map<string, Records>,
    dirty: set<string>, dirtyBefore: set<string>, marked: set<string>)
    requires Replacing(data, before, goal, dirty, dirtyBefore, marked, {})
    ensures data == goal && dirty == dirtyBefore + marked
  {
  }

  /** The store. Methods run under its lock, so each is one step; only the file is
      written without it. */
  class SeenStore {
    var data: map<string, Records>
    var dirty: set<string>
    var disk: map<string, Records>

    /** What write holds between the snapshot and the file. */
    var pending: Option<(string, Records)>
    ghost var lost: set<string>

    ghost function View(): State
      reads this
    {
      State(data, dirty, disk, pending, lost)
    }

    ghost predicate Valid()
      reads this
    {
      Good(View())
    }

    /** loadAll on the given files. */
    constructor (files: map<string, Records>)
      requires "" !in files && OneSpellingEach(files)
      ensures Valid() && View() == Loaded(files)
    {
      data, disk, dirty, pending, lost := files, files, {}, None, {};
    }

    /** Join, Leave and Message. */
    method Set(ch: string, nick: string, kind: Kind, t: int)
      requires Valid()
      modifies this`data, this`dirty
      ensures Valid() && View() == After(old(View()), SetCall(ch, nick, kind, t))
    {
      if ch == "" || nick == "" {
        return;
      }
      var d: Records := if ch in data then data[ch] else map[];
      var key := CiKey(d, nick);
      if key == "" {
        key := nick;
      }
      var e := if key in d then d[key] else UNSEEN;
      UpdatesKeepOneSpelling(d, nick, nick, kind, t);
      data := data[ch := d[key := Stamp(e, kind, t)]];
      dirty := dirty + {ch};
    }

    /** Puts the new records of one channel, and marks it. */
    method Replace(ch: string, records: Records)
      modifies this`data, this`dirty
      ensures data == old(data)[ch := records] && dirty == old(dirty) + {ch}
    {
      data := data[ch := records];
      dirty := dirty + {ch};
    }

    method QuitOne(ch: string, nick: string, t: int)
      requires ch in data && OneSpelling(data[ch])
      modifies this`data, this`dirty
      ensures data == old(data)[ch := Quit(old(data)[ch], nick, t)]
      ensures dirty == old(dirty) + if KeyOf(old(data)[ch], nick) != "" then {ch} else {}
    {
      var d := data[ch];
      var key := CiKey(d, nick);
      if key != "" {
        Replace(ch, d[key := d[key].(exit := t)]);
      }
    }

    /** The exit of a nick from every channel it was seen in. */
    method QuitAll(nick: string, t: int)
      requires Valid()
      modifies this`data, this`dirty
      ensures Valid() && View() == After(old(View()), QuitCall(nick, t))
    {
      if nick == "" {
        return;
      }
      ghost var goal, marked := QuitEverywhere(data, nick, t), Knowing(data, nick);
      var todo := data.Keys;
      while todo != {}
        invariant Replacing(data, old(data), goal, dirty, old(dirty), marked, todo)
        decreases |todo|
      {
        var ch :| ch in todo;
        ReplacingStep(data, old(data), goal, dirty, old(dirty), marked, todo, ch);
        QuitOne(ch, nick, t);
        todo := todo - {ch};
      }
      ReplacedAll(data, old(data), goal, dirty, old(dirty), marked);
      QuitKeepsOneSpelling(old(data), nick, t);
    }

    method RenameOne(ch: string, from: string, to: string)
      requires ch in data && OneSpelling(data[ch]) && !EqualFold(from, to)
      modifies this`data, this`dirty
      ensures data == old(data)[ch := Rename(old(data)[ch], from, to)]
      ensures dirty == old(dirty) + if KeyOf(old(data)[ch], from) != "" then {ch} else {}
    {
      var d := data[ch];
      var key := CiKey(d, from);
      if key == "" {
        return;
      }
      var e := d[key];
      d := d - {key};
      var dest := CiKey(d, to);
      if dest == "" {
        dest := to;
      }
      var ne := if dest in d then d[dest] else UNSEEN;
      Replace(ch, d[dest := Merge(ne, e)]);
    }

    /** A nick change, in every channel. */
    method RenameAll(from: string, to: string)
      requires Valid()
      modifies this`data, this`dirty
      ensures Valid() && View() == After(old(View()), RenameCall(from, to))
    {
      if from == "" || to == "" || EqualFold(from, to) {
        return;
      }
      ghost var goal, marked := RenameEverywhere(data, from, to), Knowing(data, from);
      var todo := data.Keys;
      while todo != {}
        invariant Replacing(data, old(data), goal, dirty, old(dirty), marked, todo)
        decreases |todo|
      {
        var ch :| ch in todo;
        ReplacingStep(data, old(data), goal, dirty, old(dirty), marked, todo, ch);
        RenameOne(ch, from, to);
        todo := todo - {ch};
      }
      ReplacedAll(data, old(data), goal, dirty, old(dirty), marked);
      RenameKeepsOneSpelling(old(data), from, to);
    }

    /** The first half of write, under the lock. */
    method TakeSnapshot(ch: string)
      requires Valid() && pending.None?
      modifies this`dirty, this`pending, this`lost
      ensures Valid() && View() == After(old(View()), TakeCall(ch))
    {
      if ch in data {
        pending := Some((ch, data[ch]));
        dirty := dirty - {ch};
        lost := lost - {ch};
      }
    }

    /** The second half, without the lock: the whole snapshot replaces the file, or
        the write fails and the file stays. */
    method WriteFile(ok: bool)
      requires Valid() && pending.Some?
      modifies this`disk, this`pending, this`lost
      ensures Valid() && View() == After(old(View()), FileCall(ok))
    {
      var (ch, snap) := pending.value;
      if ok {
        disk := disk[ch := snap];
      } else {
        lost := lost + {ch};
      }
      pending := None;
    }

    /** write without an update in between; it fails for the given channels. */
    method Write(ch: string, failing: set<string>)
      requires Valid() && pending.None?
      modifies this`dirty, this`disk, this`pending, this`lost
      ensures Valid() && pending.None?
      ensures ch in data ==> View() == Next(Next(old(View()), Snapshot(ch)), Finish(ch !in failing))
      ensures ch !in data ==> View() == old(View())
    {
      TakeSnapshot(ch);
      if pending.Some? {
        WriteFile(ch !in failing);
      }
    }

    /** Writes dirty channels until there is none: this ends because every dirty
        channel is loaded. What was dirty is on disk afterwards exactly if its write
        succeeded, or the file held it before. */
    method FlushDirty(failing: set<string>)
      requires Valid() && pending.None?
      modifies this`dirty, this`disk, this`pending, this`lost
      ensures Valid() && pending.None? && dirty == {}
      ensures disk == Flushed(old(View()), old(dirty) - failing)
      ensures forall ch :: ch in old(dirty) ==>
                (OnDisk(View(), ch) <==> ch !in failing || OnDisk(old(View()), ch))
    {
      ghost var before, channels := View(), dirty;
      WritingStarts(before, channels, failing);
      while dirty != {}
        invariant Valid() && Writing(before, View(), channels, dirty, failing)
        decreases |dirty|
      {
        var ch :| ch in dirty;
        ghost var todo := dirty;
        WritingStep(before, View(), channels, todo, failing, ch);
        Write(ch, failing);
        assert dirty == todo - {ch};
      }
      WritingEnds(before, View(), channels, failing);
    }

    /** The final save after the flusher has stopped: everything whose write
        succeeds is on disk. */
    method SaveAll(failing: set<string>)
      requires Valid() && pending.None?
      modifies this`dirty, this`disk, this`pending, this`lost
      ensures Valid() && pending.None? && dirty == {}
      ensures disk == Flushed(old(View()), data.Keys - failing)
    {
      var todo := data.Keys;
      ghost var before := View();
      WritingStarts(before, todo, failing);
      while todo != {}
        invariant Valid() && Writing(before, View(), before.data.Keys, todo, failing)
        decreases |todo|
      {
        var ch :| ch in todo;
        WritingStep(before, View(), before.data.Keys, todo, failing, ch);
        Write(ch, failing);
        todo := todo - {ch};
      }
      WritingEnds(before, View(), before.data.Keys, failing);
    }
  }
}
