/** Byte strings in the order of a bbolt cursor, and sets of them as sorted lists.
    A Go string is a sequence of bytes; here every byte is one character. */
module KeyOrder {

  predicate Less(a: string, b: string) {
    b != "" && (a == "" || a[0] < b[0] || (a[0] == b[0] && Less(a[1..], b[1..])))
  }

  lemma LessIsTotal(a: string, b: string)
    ensures a == b || Less(a, b) || Less(b, a)
    ensures !(Less(a, b) && Less(b, a))
    ensures a == b ==> !Less(a, b)
  {
  }

  lemma {:induction false} LessIsTransitive(a: string, b: string, c: string)
    requires Less(a, b) && Less(b, c)
    ensures Less(a, c)
  {
    if a != "" && a[0] == b[0] && b[0] == c[0] {
      LessIsTransitive(a[1..], b[1..], c[1..]);
    }
  }

  /** A prefix never sorts after the string it starts. */
  lemma {:induction false} PrefixNotAfter(p: string, s: string)
    requires p <= s
    ensures !Less(s, p)
  {
    if p != "" {
      PrefixNotAfter(p[1..], s[1..]);
    }
  }

  /** The keys that share a prefix are contiguous: once a key at or after the
      prefix lacks it, every key that has the prefix sorts before that key. */
  lemma {:induction false} PrefixIsInterval(p: string, k: string, s: string)
    requires !Less(k, p) && !(p <= k)
    requires p <= s
    ensures Less(s, k)
  {
    if k != "" && p[0] == k[0] {
      assert p == [p[0]] + p[1..] && k == [k[0]] + k[1..];
      assert !(p[1..] <= k[1..]);
      PrefixIsInterval(p[1..], k[1..], s[1..]);
    }
  }

  predicate IsLeast(m: string, s: set<string>) {
    m in s && forall x :: x in s && x != m ==> Less(m, x)
  }

  lemma {:induction false} LeastExists(s: set<string>)
    requires s != {}
    ensures exists m :: IsLeast(m, s)
  {
    var y :| y in s;
    var rest := s - {y};
    if rest == {} {
      assert forall x :: x in s ==> x == y || x in rest;
      assert IsLeast(y, s);
    } else {
      LeastExists(rest);
      var m :| IsLeast(m, rest);
      LessIsTotal(m, y);
      if Less(y, m) {
        forall x | x in s && x != y ensures Less(y, x) {
          if x != m { LessIsTransitive(y, m, x); }
        }
        assert IsLeast(y, s);
      } else {
        assert IsLeast(m, s);
      }
    }
  }

  lemma LeastIsUnique(s: set<string>)
    ensures forall a, b :: IsLeast(a, s) && IsLeast(b, s) ==> a == b
  {
    forall a, b | IsLeast(a, s) && IsLeast(b, s) ensures a == b {
      LessIsTotal(a, b);
    }
  }

  function Least(s: set<string>): (m: string)
    requires s != {}
    ensures IsLeast(m, s)
  {
    LeastExists(s);
    LeastIsUnique(s);
    var m :| m in s && IsLeast(m, s);
    m
  }

  /** The elements of s, in increasing order. */
  function SortedSeq(s: set<string>): (r: seq<string>)
    ensures |r| == |s|
    ensures forall x :: x in r <==> x in s
  {
    if s == {} then [] else
      var m := Least(s);
      [m] + SortedSeq(s - {m})
  }

  predicate Increasing(r: seq<string>) {
    forall i, j :: 0 <= i < j < |r| ==> Less(r[i], r[j])
  }

  lemma {:induction false} SortedSeqIncreases(s: set<string>)
    ensures Increasing(SortedSeq(s))
  {
    if s != {} {
      var m := Least(s);
      SortedSeqIncreases(s - {m});
      var rest := SortedSeq(s - {m});
      forall i, j | 0 <= i < j < |s| ensures Less(([m] + rest)[i], ([m] + rest)[j]) {
        assert rest[j - 1] in rest;
      }
    }
  }

  lemma FirstIsLeast(r: seq<string>, s: set<string>)
    requires Increasing(r) && r != [] && s == set x | x in r
    ensures IsLeast(r[0], s)
    ensures s - {r[0]} == set x | x in r[1..]
    ensures Increasing(r[1..]) && r == [r[0]] + r[1..]
  {
    forall i | 0 < i < |r| ensures r[i] != r[0] {
      LessIsTotal(r[0], r[i]);
    }
    assert r == [r[0]] + r[1..];
  }

  /** An increasing list is the sorted list of its elements. */
  lemma {:induction false} IncreasingIsSortedSeq(r: seq<string>, s: set<string>)
    requires Increasing(r) && s == set x | x in r
    ensures r == SortedSeq(s)
  {
    if r != [] {
      FirstIsLeast(r, s);
      LeastIsUnique(s);
      assert Least(s) == r[0];
      IncreasingIsSortedSeq(r[1..], s - {r[0]});
    }
  }

  /** A slice of an increasing list is the sorted list of what it holds. */
  lemma SliceIsSortedSeq(s: seq<string>, a: nat, b: nat, part: set<string>)
    requires Increasing(s) && a <= b <= |s|
    requires forall j :: 0 <= j < |s| ==> (a <= j < b <==> s[j] in part)
    requires forall x :: x in part ==> x in s
    ensures s[a..b] == SortedSeq(part)
  {
    var slice := s[a..b];
    forall x ensures x in slice <==> x in part {
      if x in part {
        var j :| 0 <= j < |s| && s[j] == x;
        assert slice[j - a] == x;
      }
    }
    IncreasingIsSortedSeq(slice, part);
  }
}
