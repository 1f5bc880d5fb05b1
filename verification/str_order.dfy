/**
 Python's ordering of `str` values, which is lexicographic on code points
 with a proper prefix first, and `sorted` on a list of distinct strings.
 */
module StrOrder {
  import opened Seqs

  /** `a < b` on Python strings. */
  predicate StrLt(a: string, b: string)
  {
    if |a| == 0 then |b| > 0
    else if |b| == 0 then false
    else a[0] < b[0] || (a[0] == b[0] && StrLt(a[1..], b[1..]))
  }

  lemma {:induction false} StrLtIrreflexive(a: string)
    ensures !StrLt(a, a)
  {
    if |a| > 0 {
      StrLtIrreflexive(a[1..]);
    }
  }

  lemma {:induction false} StrLtTransitive(a: string, b: string, c: string)
    requires StrLt(a, b) && StrLt(b, c)
    ensures StrLt(a, c)
  {
    if |a| > 0 && a[0] == b[0] && b[0] == c[0] {
      StrLtTransitive(a[1..], b[1..], c[1..]);
    }
  }

  lemma {:induction false} StrLtTotal(a: string, b: string)
    ensures a == b || StrLt(a, b) || StrLt(b, a)
  {
    if |a| > 0 && |b| > 0 && a[0] == b[0] {
      StrLtTotal(a[1..], b[1..]);
      if a[1..] == b[1..] {
        assert a == [a[0]] + a[1..] && b == [b[0]] + b[1..];
      }
    }
  }

  lemma StrLtAsymmetric(a: string, b: string)
    requires StrLt(a, b)
    ensures !StrLt(b, a)
  {
    if StrLt(b, a) {
      StrLtTransitive(a, b, a);
      StrLtIrreflexive(a);
    }
  }

  /** Strictly ascending, hence without repeats. */
  predicate Ascending(s: seq<string>)
  {
    forall i, j | 0 <= i < j < |s| :: StrLt(s[i], s[j])
  }

  lemma AscendingNoDup(s: seq<string>)
    requires Ascending(s)
    ensures NoDup(s)
  {
    forall i, j | 0 <= i < j < |s| ensures s[i] != s[j] {
      StrLtIrreflexive(s[i]);
    }
    DistinctNoDup(s);
  }

  /** Insertion of a string absent from an ascending list. */
  function Insert(x: string, s: seq<string>): (r: seq<string>)
    requires Ascending(s) && x !in s
    ensures Ascending(r)
    ensures multiset(r) == multiset(s) + multiset{x}
  {
    if |s| == 0 then [x]
    else if StrLt(x, s[0]) then
      forall j | 0 < j < |s| ensures StrLt(x, s[j]) {
        StrLtTransitive(x, s[0], s[j]);
      }
      [x] + s
    else
      var rest := Insert(x, s[1..]);
      StrLtTotal(x, s[0]);
      assert s == [s[0]] + s[1..];
      forall j | 0 <= j < |rest| ensures StrLt(s[0], rest[j]) {
        assert rest[j] in multiset(rest);
      }
      [s[0]] + rest
  }

  /**
   `sorted(xs)` for a list of distinct strings: the same strings, ascending.
   */
  function Sort(xs: seq<string>): (r: seq<string>)
    requires NoDup(xs)
    ensures Ascending(r)
    ensures multiset(r) == multiset(xs)
  {
    if |xs| == 0 then []
    else
      var front := xs[..|xs| - 1];
      var x := xs[|xs| - 1];
      assert xs == front + [x];
      NoDupConcat(front, [x]);
      var r := Sort(front);
      assert x !in front;
      assert x !in multiset(r);
      Insert(x, r)
  }

  /** An ascending list is determined by the strings it holds. */
  lemma {:induction false} AscendingUnique(a: seq<string>, b: seq<string>)
    requires Ascending(a) && Ascending(b)
    requires forall x :: x in a <==> x in b
    ensures a == b
    decreases |a|
  {
    assert |a| > 0 ==> a[0] in b;
    assert |b| > 0 ==> b[0] in a;
    if |a| > 0 && |b| > 0 {
      assert a[0] in b;
      assert b[0] in a;
      if a[0] != b[0] {
        var i :| 0 <= i < |b| && b[i] == a[0];
        var j :| 0 <= j < |a| && a[j] == b[0];
        StrLtAsymmetric(b[0], a[0]);
      }
      forall x ensures x in a[1..] <==> x in b[1..] {
        if x in a[1..] {
          var i :| 1 <= i < |a| && a[i] == x;
          StrLtIrreflexive(a[0]);
          assert x in a;
          var j :| 0 <= j < |b| && b[j] == x;
          assert j != 0;
          assert b[1..][j - 1] == x;
        }
        if x in b[1..] {
          var i :| 1 <= i < |b| && b[i] == x;
          StrLtIrreflexive(b[0]);
          assert x in b;
          var j :| 0 <= j < |a| && a[j] == x;
          assert j != 0;
          assert a[1..][j - 1] == x;
        }
      }
      AscendingUnique(a[1..], b[1..]);
      assert a == [a[0]] + a[1..] && b == [b[0]] + b[1..];
    }
  }
}
