/**
 Sequence vocabulary shared by the model: sums and concatenations built the
 way the Python loops build them (appending at the end), duplicate-freedom
 stated through multisets, and the positions `np.where(a == x)[0]` returns.
 */
module Seqs {

  /** Sum of a sequence of naturals. */
  function Sum(s: seq<nat>): nat
  {
    if |s| == 0 then 0 else Sum(s[..|s| - 1]) + s[|s| - 1]
  }

  lemma SumAppend(s: seq<nat>, x: nat)
    ensures Sum(s + [x]) == Sum(s) + x
  {
    assert (s + [x])[..|s|] == s;
  }

  /** Concatenation of a sequence of sequences, in order. */
  function Flatten<T>(ss: seq<seq<T>>): seq<T>
  {
    if |ss| == 0 then [] else Flatten(ss[..|ss| - 1]) + ss[|ss| - 1]
  }

  lemma {:induction false} FlattenConcat<T>(a: seq<seq<T>>, b: seq<seq<T>>)
    ensures Flatten(a + b) == Flatten(a) + Flatten(b)
    decreases |b|
  {
    if |b| == 0 {
      assert a + b == a;
    } else {
      var b' := b[..|b| - 1];
      assert (a + b)[..|a + b| - 1] == a + b';
      FlattenConcat(a, b');
    }
  }

  lemma FlattenCons<T>(x: seq<T>, rest: seq<seq<T>>)
    ensures Flatten([x] + rest) == x + Flatten(rest)
  {
    FlattenConcat([x], rest);
    assert Flatten([x]) == Flatten([x][..0]) + x;
  }

  lemma FlattenSnoc<T>(ss: seq<seq<T>>, x: seq<T>)
    ensures Flatten(ss + [x]) == Flatten(ss) + x
  {
    assert (ss + [x])[..|ss|] == ss;
  }

  /** An element is in the concatenation iff it is in one of the parts. */
  lemma {:induction false} FlattenMember<T>(ss: seq<seq<T>>, x: T)
    ensures x in Flatten(ss) <==> exists j :: 0 <= j < |ss| && x in ss[j]
    decreases |ss|
  {
    if |ss| > 0 {
      var ss' := ss[..|ss| - 1];
      FlattenMember(ss', x);
      assert forall j :: 0 <= j < |ss'| ==> ss'[j] == ss[j];
    }
  }

  /** Every element occurs exactly once. */
  predicate NoDup<T(==)>(s: seq<T>)
  {
    forall x | x in s :: multiset(s)[x] == 1
  }

  lemma NoDupConcat<T>(a: seq<T>, b: seq<T>)
    ensures NoDup(a + b) <==> NoDup(a) && NoDup(b) && forall x | x in a :: x !in b
  {
    assert multiset(a + b) == multiset(a) + multiset(b);
    if NoDup(a + b) {
      forall x | x in a ensures x !in b && multiset(a)[x] == 1 {
        assert x in a + b;
      }
      forall x | x in b ensures multiset(b)[x] == 1 {
        assert x in a + b;
      }
    }
  }

  lemma NoDupPrefix<T>(s: seq<T>, k: nat)
    requires NoDup(s) && k <= |s|
    ensures NoDup(s[..k])
  {
    assert s == s[..k] + s[k..];
    NoDupConcat(s[..k], s[k..]);
  }

  lemma NoDupPermutation<T>(a: seq<T>, b: seq<T>)
    requires multiset(a) == multiset(b) && NoDup(a)
    ensures NoDup(b)
  {
    forall x | x in b ensures multiset(b)[x] == 1 {
      assert x in multiset(b);
      assert x in a;
    }
  }

  /** Strictly increasing, so every element is different from the others. */
  predicate Increasing(s: seq<nat>)
  {
    forall i, j | 0 <= i < j < |s| :: s[i] < s[j]
  }

  /** A permutation keeps the multiset of every concatenated part. */
  lemma {:induction false} FlattenPermutation<T>(a: seq<seq<T>>, b: seq<seq<T>>)
    requires multiset(a) == multiset(b)
    ensures multiset(Flatten(a)) == multiset(Flatten(b))
    decreases |a|
  {
    if |a| == 0 {
      assert |b| == |multiset(b)| == 0;
    } else {
      var x := a[|a| - 1];
      var a' := a[..|a| - 1];
      assert a == a' + [x];
      assert multiset(a') == multiset(a) - multiset{x};
      assert x in multiset(b);
      var j :| 0 <= j < |b| && b[j] == x;
      var b' := b[..j] + b[j + 1..];
      FlattenRemove(b, j);
      FlattenPermutation(a', b');
    }
  }

  /** Taking part `j` out of a list of parts removes its elements from the concatenation. */
  lemma FlattenRemove<T>(b: seq<seq<T>>, j: nat)
    requires j < |b|
    ensures multiset(b[..j] + b[j + 1..]) == multiset(b) - multiset{b[j]}
    ensures multiset(Flatten(b)) == multiset(Flatten(b[..j] + b[j + 1..])) + multiset(b[j])
  {
    var x, left, right := b[j], b[..j], b[j + 1..];
    SplitAt(b, j);
    FlattenAround(left, x, right);
    FlattenConcat(left, right);
    var fl, fr := Flatten(left), Flatten(right);
    assert multiset(fl + x + fr) == multiset(fl) + multiset(x) + multiset(fr);
  }

  lemma SplitLast<T>(s: seq<T>)
    requires |s| > 0
    ensures s == s[..|s| - 1] + [s[|s| - 1]]
  {
  }

  lemma SplitAt<T>(b: seq<T>, j: nat)
    requires j < |b|
    ensures b == b[..j] + [b[j]] + b[j + 1..]
  {
    assert b[j..] == [b[j]] + b[j + 1..];
    assert b == b[..j] + b[j..];
  }

  /** Removing one occurrence of `x` from the middle removes it from the multiset. */
  lemma MultisetWithout<T>(left: seq<T>, x: T, right: seq<T>)
    ensures multiset(left + right) == multiset(left + [x] + right) - multiset{x}
  {
    assert multiset(left + [x] + right) == multiset(left) + multiset{x} + multiset(right);
  }

  lemma MultisetLast<T>(s: seq<T>)
    requires |s| > 0
    ensures multiset(s[..|s| - 1]) == multiset(s) - multiset{s[|s| - 1]}
  {
    SplitLast(s);
  }

  lemma MultisetAt<T>(s: seq<T>, j: nat)
    requires j < |s|
    ensures multiset(s[..j] + s[j + 1..]) == multiset(s) - multiset{s[j]}
  {
    SplitAt(s, j);
    MultisetWithout(s[..j], s[j], s[j + 1..]);
  }

  lemma FlattenAround<T>(left: seq<seq<T>>, x: seq<T>, right: seq<seq<T>>)
    ensures Flatten(left + [x] + right) == Flatten(left) + x + Flatten(right)
  {
    FlattenConcat(left + [x], right);
    FlattenConcat(left, [x]);
    assert Flatten([x]) == Flatten([x][..0]) + x;
  }

  /**
   The positions of `x` in `s`, ascending: the model of
   `np.where(s == x)[0]`.
   */
  function Positions<T(==)>(s: seq<T>, x: T): (p: seq<nat>)
    ensures forall k | 0 <= k < |p| :: p[k] < |s| && s[p[k]] == x
    ensures |p| == multiset(s)[x]
  {
    if |s| == 0 then []
    else
      var s' := s[..|s| - 1];
      assert s == s' + [s[|s| - 1]];
      Positions(s', x) + (if s[|s| - 1] == x then [|s| - 1] else [])
  }

  /** The positions come out in ascending order. */
  lemma {:induction false} PositionsIncreasing<T>(s: seq<T>, x: T)
    ensures Increasing(Positions(s, x))
    decreases |s|
  {
    if |s| > 0 {
      PositionsIncreasing(s[..|s| - 1], x);
    }
  }

  /** The rank of position `i`: how many earlier positions hold the same value. */
  function Rank<T(==)>(s: seq<T>, i: nat): nat
    requires i < |s|
  {
    multiset(s[..i])[s[i]]
  }

  /** The k-th position of `x` has exactly k earlier occurrences of `x`. */
  lemma {:induction false} PositionsRank<T>(s: seq<T>, x: T, k: nat)
    requires k < |Positions(s, x)|
    ensures Rank(s, Positions(s, x)[k]) == k
    decreases |s|
  {
    var s' := s[..|s| - 1];
    var p' := Positions(s', x);
    if k < |p'| {
      PositionsRank(s', x, k);
      assert s[..p'[k]] == s'[..p'[k]];
    } else {
      assert Positions(s, x)[k] == |s| - 1;
      assert s[..|s| - 1] == s';
    }
  }

  /** Every occurrence of `x` is listed, at the index given by its rank. */
  lemma {:induction false} PositionsComplete<T>(s: seq<T>, i: nat)
    requires i < |s|
    ensures Rank(s, i) < |Positions(s, s[i])| && Positions(s, s[i])[Rank(s, i)] == i
    decreases |s|
  {
    var s' := s[..|s| - 1];
    var x := s[i];
    if i < |s| - 1 {
      PositionsComplete(s', i);
      assert s'[i] == x;
      assert s[..i] == s'[..i];
    } else {
      assert s[..i] == s';
    }
  }

  /**
   Membership in a window of the positions list: position `i` lies in
   `Positions(s, x)[a..b]` exactly when it holds `x` with rank in [a, b).
   */
  lemma PositionsWindow<T>(s: seq<T>, x: T, a: nat, b: nat, i: nat)
    requires a <= b <= |Positions(s, x)|
    ensures i in Positions(s, x)[a..b] <==> i < |s| && s[i] == x && a <= Rank(s, i) < b
  {
    var p := Positions(s, x);
    if i in p[a..b] {
      var k :| a <= k < b && p[k] == i;
      PositionsRank(s, x, k);
    }
    if i < |s| && s[i] == x && a <= Rank(s, i) < b {
      PositionsComplete(s, i);
      assert p[Rank(s, i)] == i;
      assert p[a..b][Rank(s, i) - a] == i;
    }
  }

  /** Python's slice `s[a:b]` for non-negative bounds, clamped to the length. */
  function PySlice<T>(s: seq<T>, a: nat, b: nat): (r: seq<T>)
    requires a <= b
  {
    var lo := if a < |s| then a else |s|;
    var hi := if b < |s| then b else |s|;
    s[lo..hi]
  }

  /** The distinct elements of `s`, in order of first occurrence. */
  function Dedup<T(==)>(s: seq<T>): (r: seq<T>)
    ensures NoDup(r)
    ensures forall x | x in r :: x in s
    ensures forall x | x in s :: x in r
  {
    if |s| == 0 then []
    else
      var s' := s[..|s| - 1];
      var last := s[|s| - 1];
      assert s == s' + [last];
      var r' := Dedup(s');
      if last in s' then r'
      else
        NoDupConcat(r', [last]);
        r' + [last]
  }

  /**
   `[l for l in range(n) if l not in excluded]`: the ascending list of the
   indices below `n` that `excluded` does not mention.
   */
  function Complement(n: nat, excluded: seq<nat>): (r: seq<nat>)
    ensures forall x :: x in r <==> 0 <= x < n && x !in excluded
    ensures Increasing(r)
    ensures forall k | 0 <= k < |r| :: r[k] < n
  {
    if n == 0 then []
    else Complement(n - 1, excluded) + (if n - 1 in excluded then [] else [n - 1])
  }

  /** No repeats, stated by positions. */
  predicate Distinct<T(==)>(s: seq<T>)
  {
    forall i, j | 0 <= i < j < |s| :: s[i] != s[j]
  }

  lemma {:induction false} DistinctNoDup<T>(s: seq<T>)
    ensures Distinct(s) <==> NoDup(s)
    decreases |s|
  {
    if |s| > 0 {
      var s' := s[..|s| - 1];
      var x := s[|s| - 1];
      assert s == s' + [x];
      DistinctNoDup(s');
      NoDupConcat(s', [x]);
      if Distinct(s) {
        forall y | y in s' ensures y !in [x] {
          var i :| 0 <= i < |s'| && s'[i] == y;
          assert s[i] == y;
        }
      }
      if Distinct(s') && x !in s' {
        forall i, j | 0 <= i < j < |s| ensures s[i] != s[j] {
          if j == |s| - 1 {
            assert s[i] in s';
          } else {
            assert s[i] == s'[i] && s[j] == s'[j];
          }
        }
      }
    }
  }

  lemma IncreasingNoDup(s: seq<nat>)
    requires Increasing(s)
    ensures NoDup(s)
  {
    if |s| > 0 {
      var s' := s[..|s| - 1];
      assert s == s' + [s[|s| - 1]];
      IncreasingNoDup(s');
      NoDupConcat(s', [s[|s| - 1]]);
    }
  }

  /**
   A sequence made of `n` blocks of `w` elements each, element `k` of block
   `b` being `f(b, k)`: the shape of a table built by appending one block
   per repetition.
   */
  ghost predicate Blocked<T>(rows: seq<T>, n: nat, w: nat, f: (nat, nat) -> T)
  {
    |rows| == w * n && forall b, k | 0 <= b < n && 0 <= k < w :: BlockIndex(b, k, w) < |rows| && rows[BlockIndex(b, k, w)] == f(b, k)
  }

  function BlockIndex(b: nat, k: nat, w: nat): nat
  {
    b * w + k
  }

  lemma BlockedAppend<T>(rows: seq<T>, n: nat, w: nat, f: (nat, nat) -> T, block: seq<T>)
    requires Blocked(rows, n, w, f)
    requires |block| == w && forall k | 0 <= k < w :: block[k] == f(n, k)
    ensures Blocked(rows + block, n + 1, w, f)
  {
    var all := rows + block;
    assert |all| == w * (n + 1);
    forall b, k | 0 <= b < n + 1 && 0 <= k < w
      ensures BlockIndex(b, k, w) < |all| && all[BlockIndex(b, k, w)] == f(b, k)
    {
      if b < n {
        assert BlockIndex(b, k, w) < |rows|;
        assert all[BlockIndex(b, k, w)] == rows[BlockIndex(b, k, w)];
      } else {
        assert BlockIndex(b, k, w) == |rows| + k;
      }
    }
  }
}
