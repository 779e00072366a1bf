/** Announcing: lines are packed, in order, into as few messages as possible. */
module MessageBatcher {
  import opened Lists

  const SEP := " || "

  function Join(lines: seq<string>): string {
    if lines == [] then ""
    else if |lines| == 1 then lines[0]
    else Join(lines[..|lines| - 1]) + SEP + lines[|lines| - 1]
  }

  function Flatten(messages: seq<seq<string>>): seq<string> {
    if messages == [] then [] else messages[0] + Flatten(messages[1..])
  }

  /** A message is not empty, and fits unless it is a single line. */
  predicate ValidMessage(m: seq<string>, maxLen: int) {
    m != [] && (|m| == 1 || |Join(m)| <= maxLen)
  }

  predicate Splits(messages: seq<seq<string>>, lines: seq<string>, maxLen: int) {
    Flatten(messages) == lines && forall m :: m in messages ==> ValidMessage(m, maxLen)
  }

  /** No message could have taken the first line of its successor. */
  predicate Greedy(messages: seq<seq<string>>, maxLen: int) {
    forall i :: 0 < i < |messages| ==>
      messages[i] != [] && |Join(messages[i - 1] + [messages[i][0]])| > maxLen
  }

  lemma JoinAppends(a: seq<string>, x: string)
    ensures |Join(a + [x])| == |Join(a)| + (if a == [] then 0 else |SEP|) + |x|
  {
  }

  lemma {:induction false} FlattenAppends(a: seq<seq<string>>, b: seq<seq<string>>)
    ensures Flatten(a + b) == Flatten(a) + Flatten(b)
  {
    if a == [] {
      assert a + b == b;
    } else {
      FlattenAppends(a[1..], b);
      assert (a + b)[0] == a[0] && (a + b)[1..] == a[1..] + b;
      Associates(a[0], Flatten(a[1..]), Flatten(b));
    }
  }

  /** The posted messages and the one being collected. */
  function Pending(messages: seq<seq<string>>, texts: seq<string>): seq<seq<string>> {
    if texts == [] then messages else messages + [texts]
  }

  /** The batching loop of announce; maxLen is what the prompt leaves of the
      poster's limit, and may be negative. */
  method Batch(lines: seq<string>, maxLen: int) returns (messages: seq<seq<string>>)
    ensures Splits(messages, lines, maxLen) && Greedy(messages, maxLen)
  {
    messages := [];
    var texts: seq<string> := [];
    var curLen := 0;
    for i := 0 to |lines|
      invariant curLen == |Join(texts)| && (texts == [] ==> messages == [])
      invariant Splits(Pending(messages, texts), lines[..i], maxLen) && Greedy(Pending(messages, texts), maxLen)
    {
      var line := lines[i];
      var sepLen := if |texts| > 0 then |SEP| else 0;
      JoinAppends(texts, line);
      assert lines[..i + 1] == lines[..i] + [line];
      if curLen + sepLen + |line| <= maxLen {
        LastMessageGrows(messages, texts, line, lines[..i], maxLen);
        texts := texts + [line];
        curLen := curLen + sepLen + |line|;
      } else {
        NewMessageStarts(messages, texts, line, lines[..i], maxLen);
        if |texts| > 0 {
          messages := messages + [texts];
        }
        texts := [line];
        curLen := |line|;
      }
    }
    assert lines[..|lines|] == lines;
    if |texts| > 0 {
      messages := messages + [texts];
    }
  }

  lemma LastMessageGrows(messages: seq<seq<string>>, texts: seq<string>, line: string, lines: seq<string>, maxLen: int)
    requires Splits(Pending(messages, texts), lines, maxLen) && Greedy(Pending(messages, texts), maxLen)
    requires texts == [] ==> messages == []
    requires |Join(texts + [line])| <= maxLen
    ensures var after := messages + [texts + [line]]; Splits(after, lines + [line], maxLen) && Greedy(after, maxLen)
  {
    FlattenAppends(messages, [texts]);
    FlattenAppends(messages, [texts + [line]]);
    assert [texts][1..] == [] && [texts + [line]][1..] == [];
    var before, after := Pending(messages, texts), messages + [texts + [line]];
    forall i | 0 < i < |after| ensures after[i] != [] && |Join(after[i - 1] + [after[i][0]])| > maxLen {
      assert before[i] in before;
      assert before[i - 1] == after[i - 1] && before[i][0] == after[i][0];
    }
  }

  lemma NewMessageStarts(messages: seq<seq<string>>, texts: seq<string>, line: string, lines: seq<string>, maxLen: int)
    requires Splits(Pending(messages, texts), lines, maxLen) && Greedy(Pending(messages, texts), maxLen)
    requires texts == [] ==> messages == []
    requires |Join(texts + [line])| > maxLen
    ensures var after := Pending(messages, texts) + [[line]];
            Splits(after, lines + [line], maxLen) && Greedy(after, maxLen)
  {
    FlattenAppends(Pending(messages, texts), [[line]]);
    assert [[line]][1..] == [];
  }

  lemma {:induction false} JoinGrows(a: seq<string>, b: seq<string>)
    ensures |Join(a)| <= |Join(a + b)|
  {
    if b == [] {
      assert a + b == a;
    } else {
      var n := |b| - 1;
      JoinGrows(a, b[..n]);
      JoinAppends(a + b[..n], b[n]);
      assert a + b == a + b[..n] + [b[n]];
    }
  }

  /** A suffix of a message is shorter than the message. */
  lemma {:induction false} JoinShrinks(a: seq<string>, b: seq<string>)
    ensures |Join(b)| <= |Join(a + b)|
  {
    if b != [] {
      var n := |b| - 1;
      var rest, last := b[..n], b[n];
      assert b == rest + [last];
      assert a + b == (a + rest) + [last];
      JoinShrinks(a, rest);
      JoinAppends(rest, last);
      JoinAppends(a + rest, last);
    }
  }

  /** Without its first k lines, a split needs no more messages. */
  function Drop(messages: seq<seq<string>>, k: nat): (r: seq<seq<string>>)
    ensures |r| <= |messages|
  {
    if messages == [] || k == 0 then messages
    else if k < |messages[0]| then [messages[0][k..]] + messages[1..]
    else Drop(messages[1..], k - |messages[0]|)
  }

  lemma {:induction false} DropSplits(messages: seq<seq<string>>, lines: seq<string>, maxLen: int, k: nat)
    requires Splits(messages, lines, maxLen) && k <= |lines|
    ensures Splits(Drop(messages, k), lines[k..], maxLen)
  {
    if messages != [] && k > 0 {
      var first, rest := messages[0], messages[1..];
      assert lines == first + Flatten(rest);
      if k < |first| {
        JoinShrinks(first[..k], first[k..]);
        assert first == first[..k] + first[k..];
        assert lines[k..] == first[k..] + Flatten(rest);
        assert first in messages && forall m :: m in rest ==> m in messages;
      } else {
        assert lines[|first|..] == Flatten(rest);
        DropSplits(rest, lines[|first|..], maxLen, k - |first|);
        assert lines[|first|..][k - |first|..] == lines[k..];
      }
    }
  }

  /** The lines of g's first message and the first line of its second one start a
      longer first message of another split. */
  lemma LongerFirstMessage(g: seq<seq<string>>, p: seq<seq<string>>)
    requires g != [] && p != [] && Flatten(g) == Flatten(p) && |p[0]| > |g[0]|
    requires forall m :: m in g ==> m != []
    ensures |g| > 1 && g[1] != [] && g[0] + [g[1][0]] <= p[0]
  {
    var n := |g[0]|;
    var lines := Flatten(g);
    assert lines[..n] == g[0] && lines[n..] == Flatten(g[1..]);
    assert lines[..|p[0]|] == p[0];
    assert |g| > 1 && g[1] in g && g[1..][0] == g[1];
    assert lines[n] == g[1][0];
  }

  /** No message of any valid split reaches further than a greedy one that starts
      at the same line. */
  lemma FirstGreedyIsLongest(g: seq<seq<string>>, p: seq<seq<string>>, lines: seq<string>, maxLen: int)
    requires Splits(g, lines, maxLen) && Greedy(g, maxLen) && Splits(p, lines, maxLen)
    requires g != [] && p != []
    ensures |p[0]| <= |g[0]|
  {
    assert p[0] in p && g[0] in g;
    if |p[0]| > |g[0]| {
      LongerFirstMessage(g, p);
      var head := g[0] + [g[1][0]];
      assert head + p[0][|head|..] == p[0];
      JoinGrows(head, p[0][|head|..]);
    }
  }

  /** A greedy split is optimal: no valid split that keeps the order uses fewer
      messages. */
  lemma {:induction false} GreedyIsOptimal(g: seq<seq<string>>, p: seq<seq<string>>, lines: seq<string>, maxLen: int)
    requires Splits(g, lines, maxLen) && Greedy(g, maxLen) && Splits(p, lines, maxLen)
    ensures |g| <= |p|
    decreases |g|
  {
    if g != [] {
      assert g[0] in g && lines == g[0] + Flatten(g[1..]);
      assert p != [];
      FirstGreedyIsLongest(g, p, lines, maxLen);
      var n := |g[0]|;
      DropSplits(p, lines, maxLen, n);
      assert lines[n..] == Flatten(g[1..]);
      assert |Drop(p, n)| < |p|;
      GreedyIsOptimal(g[1..], Drop(p, n), lines[n..], maxLen);
    }
  }

  /** The posted text, prompt included, exceeds the poster's limit only for a
      single line that is too long by itself. */
  lemma PostsFit(messages: seq<seq<string>>, lines: seq<string>, prompt: string, limit: int)
    requires Splits(messages, lines, limit - |prompt|)
    ensures forall m :: m in messages ==> |prompt + Join(m)| <= limit || (|m| == 1 && |prompt + m[0]| > limit)
  {
  }

  /** The text of a message: its lines, with a separator between any two. */
  lemma JoinMeaning(lines: seq<string>, x: string)
    ensures Join([]) == "" && Join([x]) == x
    ensures lines != [] ==> Join(lines + [x]) == Join(lines) + " || " + x
  {
    assert (lines + [x])[..|lines|] == lines;
  }
}
