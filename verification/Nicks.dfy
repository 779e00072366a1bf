/** The records of one channel, keyed by nick spelling but found without regard to
    case. Nicks are ASCII. */
module Nicks {

  /** Unix seconds of the last events; 0 means never seen. */
  datatype Entry = Entry(join: int, exit: int, message: int) {
    /** The latest of the three. */
    function Last(): (t: int)
      ensures t in {join, exit, message} && t >= join && t >= exit && t >= message
    {
      if join >= exit && join >= message then join else if exit >= message then exit else message
    }
  }

  const UNSEEN := Entry(0, 0, 0)

  type Records = map<string, Entry>

  function LowerChar(c: char): char {
    if 'A' <= c <= 'Z' then c - 'A' + 'a' else c
  }

  function Lower(s: string): (r: string)
    ensures |r| == |s|
  {
    if s == "" then "" else [LowerChar(s[0])] + Lower(s[1..])
  }

  predicate EqualFold(a: string, b: string) {
    Lower(a) == Lower(b)
  }

  /** At most one spelling of a nick, and none that is empty. */
  predicate OneSpelling(m: Records) {
    "" !in m && forall a, b :: a in m && b in m && EqualFold(a, b) ==> a == b
  }

  /** The spelling under which a nick is recorded, or "". */
  ghost function KeyOf(m: Records, nick: string): (key: string)
    requires OneSpelling(m)
    ensures key != "" ==> key in m && EqualFold(key, nick)
    ensures key == "" ==> forall k :: k in m ==> !EqualFold(k, nick)
  {
    if k :| k in m && EqualFold(k, nick) then k else ""
  }

  /** Any order of the map finds the same spelling. */
  method CiKey(m: Records, nick: string) returns (key: string)
    requires OneSpelling(m)
    ensures key == KeyOf(m, nick)
  {
    var todo := m.Keys;
    while todo != {}
      invariant todo <= m.Keys && forall k :: k in m && k !in todo ==> !EqualFold(k, nick)
      decreases |todo|
    {
      var k :| k in todo;
      if EqualFold(k, nick) {
        return k;
      }
      todo := todo - {k};
    }
    return "";
  }

  /** What an event record does. */
  datatype Kind = Joined | Left | Spoke

  function Stamp(e: Entry, kind: Kind, t: int): Entry {
    match kind
    case Joined => e.(join := t)
    case Left => e.(exit := t)
    case Spoke => e.(message := t)
  }

  ghost function Record(m: Records, nick: string, kind: Kind, t: int): Records
    requires OneSpelling(m)
  {
    var key := if KeyOf(m, nick) == "" then nick else KeyOf(m, nick);
    m[key := Stamp(if key in m then m[key] else UNSEEN, kind, t)]
  }

  ghost function Quit(m: Records, nick: string, t: int): Records
    requires OneSpelling(m)
  {
    var key := KeyOf(m, nick);
    if key == "" then m else m[key := m[key].(exit := t)]
  }

  /** The times of an entry, completed from another one. */
  function Merge(into: Entry, from: Entry): Entry {
    Entry(if into.join == 0 then from.join else into.join,
          if into.exit == 0 then from.exit else into.exit,
          if into.message == 0 then from.message else into.message)
  }

  ghost function Rename(m: Records, from: string, to: string): Records
    requires OneSpelling(m)
  {
    var key := KeyOf(m, from);
    if EqualFold(from, to) || key == "" then m
    else
      var rest := m - {key};
      var dest := if KeyOf(rest, to) == "" then to else KeyOf(rest, to);
      rest[dest := Merge(if dest in rest then rest[dest] else UNSEEN, m[key])]
  }

  /** Recording, quitting and renaming keep one spelling per nick. */
  lemma UpdatesKeepOneSpelling(m: Records, nick: string, to: string, kind: Kind, t: int)
    requires OneSpelling(m) && nick != "" && to != ""
    ensures OneSpelling(Record(m, nick, kind, t)) && OneSpelling(Quit(m, nick, t)) && OneSpelling(Rename(m, nick, to))
  {
  }

  /** Taking a nick's record out leaves the spellings of all others. */
  lemma TakenOut(m: Records, nick: string, other: string)
    requires OneSpelling(m)
    ensures var rest := m - {KeyOf(m, nick)};
            && OneSpelling(rest) && KeyOf(rest, nick) == ""
            && (!EqualFold(nick, other) ==> KeyOf(rest, other) == KeyOf(m, other))
  {
  }

  /** Where a nick's record goes. */
  ghost function Place(m: Records, nick: string): string
    requires OneSpelling(m)
  {
    if KeyOf(m, nick) == "" then nick else KeyOf(m, nick)
  }

  /** Putting a nick's record leaves the spellings of all others. */
  lemma PutIn(m: Records, nick: string, e: Entry, other: string)
    requires OneSpelling(m) && nick != ""
    ensures var m' := m[Place(m, nick) := e];
            && OneSpelling(m') && KeyOf(m', nick) == Place(m, nick)
            && (!EqualFold(nick, other) ==> KeyOf(m', other) == KeyOf(m, other))
  {
    var m' := m[Place(m, nick) := e];
    assert OneSpelling(m') && EqualFold(Place(m, nick), nick) && Place(m, nick) in m';
  }

  /** A record is found again under every spelling, and touches no other nick. */
  lemma RecordedIsFound(m: Records, nick: string, kind: Kind, t: int, other: string)
    requires OneSpelling(m) && nick != ""
    ensures var m' := Record(m, nick, kind, t);
            && OneSpelling(m')
            && KeyOf(m', nick) != ""
            && (!EqualFold(other, nick) ==>
                 && KeyOf(m', other) == KeyOf(m, other)
                 && (KeyOf(m, other) != "" ==> m'[KeyOf(m, other)] == m[KeyOf(m, other)]))
    ensures var m' := Record(m, nick, kind, t);
            var was := if KeyOf(m, nick) == "" then Entry(0, 0, 0) else m[KeyOf(m, nick)];
            var now := m'[KeyOf(m', nick)];
            && now.join == (if kind == Joined then t else was.join)
            && now.exit == (if kind == Left then t else was.exit)
            && now.message == (if kind == Spoke then t else was.message)
  {
    var e := Stamp(if KeyOf(m, nick) == "" then UNSEEN else m[KeyOf(m, nick)], kind, t);
    assert Record(m, nick, kind, t) == m[Place(m, nick) := e];
    PutIn(m, nick, e, other);
  }

  /** A quit changes the exit time of that nick, if it is recorded, and no other. */
  lemma QuitIsRecorded(m: Records, nick: string, t: int)
    requires OneSpelling(m)
    ensures var m' := Quit(m, nick, t);
            && m'.Keys == m.Keys && OneSpelling(m')
            && forall k :: k in m ==> m'[k] == if EqualFold(k, nick) then m[k].(exit := t) else m[k]
  {
  }

  /** After a rename the old nick is not recorded; the new one has its times, where
      it has none of its own; no other record changes. */
  lemma RenamedIsFound(m: Records, nick: string, to: string, other: string)
    requires OneSpelling(m) && nick != "" && to != "" && !EqualFold(nick, to) && KeyOf(m, nick) != ""
    ensures var m' := Rename(m, nick, to);
            && OneSpelling(m') && KeyOf(m', nick) == "" && KeyOf(m', to) != ""
            && (other in m && !EqualFold(other, nick) && !EqualFold(other, to) ==> other in m' && m'[other] == m[other])
    ensures var m' := Rename(m, nick, to);
            var was := if KeyOf(m, to) == "" then Entry(0, 0, 0) else m[KeyOf(m, to)];
            var moved := m[KeyOf(m, nick)];
            var now := m'[KeyOf(m', to)];
            && now.join == (if was.join != 0 then was.join else moved.join)
            && now.exit == (if was.exit != 0 then was.exit else moved.exit)
            && now.message == (if was.message != 0 then was.message else moved.message)
  {
    var rest := m - {KeyOf(m, nick)};
    TakenOut(m, nick, to);
    var e := Merge(if KeyOf(rest, to) == "" then UNSEEN else rest[KeyOf(rest, to)], m[KeyOf(m, nick)]);
    assert Rename(m, nick, to) == rest[Place(rest, to) := e];
    PutIn(rest, to, e, nick);
  }

  /** Renaming to a nick that is not recorded and back keeps the entry, under the
      spelling of the second rename; all the records are as before exactly if that
      is the spelling they had. */
  lemma RenameAndBack(m: Records, nick: string, to: string)
    requires OneSpelling(m) && nick != "" && to != ""
    requires !EqualFold(nick, to) && KeyOf(m, nick) != "" && KeyOf(m, to) == ""
    ensures OneSpelling(Rename(m, nick, to))
    ensures var back := Rename(Rename(m, nick, to), to, nick);
            && back == (m - {KeyOf(m, nick)})[nick := m[KeyOf(m, nick)]]
            && (back == m <==> KeyOf(m, nick) == nick)
  {
    var key := KeyOf(m, nick);
    var there := Rename(m, nick, to);
    TakenOut(m, nick, to);
    PutIn(m - {key}, to, m[key], nick);
    assert there == (m - {key})[to := m[key]];
    assert there - {to} == m - {key};
    var back := Rename(there, to, nick);
    assert back == (m - {key})[nick := m[key]];
    if key != nick {
      assert key !in back;
    }
  }

  /** It happens: the spelling of the second rename replaces the recorded one. */
  lemma RenameBackCanRespell()
    ensures var m := map["Bob" := Entry(1, 0, 0)];
            && OneSpelling(m) && OneSpelling(Rename(m, "bob", "al"))
            && Rename(Rename(m, "bob", "al"), "al", "bob") == map["bob" := Entry(1, 0, 0)] != m
  {
    var m := map["Bob" := Entry(1, 0, 0)];
    assert EqualFold("Bob", "bob") && !EqualFold("Bob", "al") by {
      assert "Bob"[1..] == "bob"[1..] == "ob" && |Lower("al")| == 2 && |Lower("Bob")| == 3;
    }
    assert "Bob" in m && KeyOf(m, "bob") == "Bob";
    RenameAndBack(m, "bob", "al");
    assert m - {"Bob"} == map[];
    assert "Bob" != "bob" by { assert "Bob"[0] != "bob"[0]; }
  }
}
