/**
 The selection that follows the activation table: count the affected
 genesets of every knockout, keep the knockouts with at least seven,
 list them by name and by decreasing count, keep their rows, and pair each
 knockout's unaffected box with its affected one for the statistical test.
 `sort_values` uses an unstable sort, so knockouts with equal counts may
 come in any order; the model allows every such order.
 */
module DaFilter {
  import opened Seqs
  import opened StrOrder
  import opened DaTable

  /** `th_genes`. */
  const ThGenes: nat := 7

  /** The knockout of every affected row, in table order. */
  function AffectedKnockouts(rows: seq<Row>): seq<string>
  {
    if |rows| == 0 then []
    else
      var row := rows[|rows| - 1];
      AffectedKnockouts(rows[..|rows| - 1]) + if row.affected then [row.knockout] else []
  }

  /** `groupby(['knockout'])['affected'].sum()` at `k`: how many of its rows are affected. */
  function AffectedCount(rows: seq<Row>, k: string): nat
  {
    multiset(AffectedKnockouts(rows))[k]
  }

  /** The knockout column. */
  function Knockouts(rows: seq<Row>): (ks: seq<string>)
    ensures |ks| == |rows|
  {
    seq(|rows|, j requires 0 <= j < |rows| => rows[j].knockout)
  }

  /** A knockout with an affected row is one of the table's knockouts. */
  lemma {:induction false} CountedKnockout(rows: seq<Row>, k: string)
    requires AffectedCount(rows, k) > 0
    ensures k in Knockouts(rows)
    decreases |rows|
  {
    var n := |rows| - 1;
    if AffectedCount(rows[..n], k) > 0 {
      CountedKnockout(rows[..n], k);
      var j :| 0 <= j < n && Knockouts(rows[..n])[j] == k;
      assert Knockouts(rows)[j] == k;
    } else {
      assert Knockouts(rows)[n] == k;
    }
  }

  /** The group keys whose count reaches the threshold, in the order given. */
  function AtThreshold(rows: seq<Row>, ks: seq<string>): (r: seq<string>)
    ensures forall k :: k in r <==> k in ks && AffectedCount(rows, k) >= ThGenes
    ensures NoDup(ks) ==> NoDup(r)
  {
    if |ks| == 0 then []
    else
      var front := ks[..|ks| - 1];
      var k := ks[|ks| - 1];
      assert ks == front + [k];
      NoDupConcat(front, [k]);
      var r := AtThreshold(rows, front);
      if AffectedCount(rows, k) >= ThGenes then
        NoDupConcat(r, [k]);
        r + [k]
      else r
  }

  /**
   `relevant_knockouts`: the knockouts with at least `th_genes` affected
   rows, ascending by name.
   */
  function Relevant(rows: seq<Row>): (r: seq<string>)
    ensures Ascending(r)
    ensures forall k :: k in r <==> AffectedCount(rows, k) >= ThGenes
  {
    var r := Sort(AtThreshold(rows, Dedup(Knockouts(rows))));
    forall k | AffectedCount(rows, k) >= ThGenes ensures k in r {
      CountedKnockout(rows, k);
      assert k in multiset(r);
    }
    forall k | k in r ensures AffectedCount(rows, k) >= ThGenes {
      assert k in multiset(AtThreshold(rows, Dedup(Knockouts(rows))));
    }
    r
  }

  /** Any ascending list of exactly the relevant knockouts is `relevant_knockouts`. */
  lemma RelevantUnique(rows: seq<Row>, s: seq<string>)
    requires Ascending(s)
    requires forall k :: k in s <==> AffectedCount(rows, k) >= ThGenes
    ensures s == Relevant(rows)
  {
    AscendingUnique(s, Relevant(rows));
  }

  /**
   A possible `sorted_knockouts`: the relevant knockouts, each once, by
   non-increasing affected count.
   */
  predicate ByCount(rows: seq<Row>, relevant: seq<string>, sorted: seq<string>)
  {
    && multiset(sorted) == multiset(relevant)
    && forall i, j | 0 <= i < j < |sorted| :: AffectedCount(rows, sorted[i]) >= AffectedCount(rows, sorted[j])
  }

  predicate Descending(rows: seq<Row>, s: seq<string>)
  {
    forall i, j | 0 <= i < j < |s| :: AffectedCount(rows, s[i]) >= AffectedCount(rows, s[j])
  }

  function InsertByCount(rows: seq<Row>, x: string, s: seq<string>): (r: seq<string>)
    requires Descending(rows, s)
    ensures Descending(rows, r)
    ensures multiset(r) == multiset(s) + multiset{x}
  {
    if |s| == 0 || AffectedCount(rows, x) >= AffectedCount(rows, s[0]) then [x] + s
    else
      var rest := InsertByCount(rows, x, s[1..]);
      InsertBehindHead(rows, x, s, rest);
      [s[0]] + rest
  }

  /** The head of `s` still leads once `x`, which counts less, is inserted into the tail. */
  lemma InsertBehindHead(rows: seq<Row>, x: string, s: seq<string>, rest: seq<string>)
    requires |s| > 0 && Descending(rows, s) && AffectedCount(rows, x) < AffectedCount(rows, s[0])
    requires Descending(rows, rest) && multiset(rest) == multiset(s[1..]) + multiset{x}
    ensures Descending(rows, [s[0]] + rest)
    ensures multiset([s[0]] + rest) == multiset(s) + multiset{x}
  {
    assert s == [s[0]] + s[1..];
    forall j | 0 <= j < |rest| ensures AffectedCount(rows, s[0]) >= AffectedCount(rows, rest[j]) {
      assert rest[j] in multiset(rest);
      if rest[j] != x {
        assert rest[j] in multiset(s[1..]);
        var q :| 0 <= q < |s[1..]| && s[1..][q] == rest[j];
        assert s[q + 1] == rest[j];
      }
    }
    ConsDescending(rows, s[0], rest);
  }

  lemma ConsDescending(rows: seq<Row>, h: string, rest: seq<string>)
    requires Descending(rows, rest)
    requires forall j | 0 <= j < |rest| :: AffectedCount(rows, h) >= AffectedCount(rows, rest[j])
    ensures Descending(rows, [h] + rest)
  {
    var r := [h] + rest;
    forall i, j | 0 <= i < j < |r| ensures AffectedCount(rows, r[i]) >= AffectedCount(rows, r[j]) {
      assert r[j] == rest[j - 1];
      if i > 0 {
        assert r[i] == rest[i - 1];
      }
    }
  }

  /** An insertion sort by count: one order `sort_values(ascending=False)` may produce. */
  function SortByCount(rows: seq<Row>, ks: seq<string>): (r: seq<string>)
    ensures Descending(rows, r)
    ensures multiset(r) == multiset(ks)
  {
    if |ks| == 0 then []
    else
      var front := ks[..|ks| - 1];
      assert ks == front + [ks[|ks| - 1]];
      InsertByCount(rows, ks[|ks| - 1], SortByCount(rows, front))
  }

  /**
   `sorted_knockouts` exists for every table, and whichever order it takes
   it lists every relevant knockout exactly once.
   */
  lemma SortedKnockouts(rows: seq<Row>, sorted: seq<string>)
    ensures ByCount(rows, Relevant(rows), SortByCount(rows, Relevant(rows)))
    ensures ByCount(rows, Relevant(rows), sorted) ==>
      && NoDup(sorted)
      && forall k :: k in sorted <==> AffectedCount(rows, k) >= ThGenes
  {
    var relevant := Relevant(rows);
    if ByCount(rows, relevant, sorted) {
      AscendingNoDup(relevant);
      NoDupPermutation(relevant, sorted);
      forall k ensures k in sorted <==> k in relevant {
        assert k in sorted <==> k in multiset(sorted);
        assert k in relevant <==> k in multiset(relevant);
      }
    }
  }

  /** `df[df['knockout'].isin(relevant_knockouts)]`: the rows of the listed knockouts, in table order. */
  function Filtered(rows: seq<Row>, keep: seq<string>): (r: seq<Row>)
    ensures forall row :: multiset(r)[row] == if row.knockout in keep then multiset(rows)[row] else 0
  {
    if |rows| == 0 then []
    else
      var front := rows[..|rows| - 1];
      var row := rows[|rows| - 1];
      assert rows == front + [row];
      var r := Filtered(front, keep);
      if row.knockout in keep then r + [row] else r
  }

  /** Filtering keeps the table order: it distributes over concatenation. */
  lemma {:induction false} FilteredConcat(a: seq<Row>, b: seq<Row>, keep: seq<string>)
    ensures Filtered(a + b, keep) == Filtered(a, keep) + Filtered(b, keep)
    decreases |b|
  {
    if |b| > 0 {
      var front := b[..|b| - 1];
      var last := b[|b| - 1];
      assert (a + b)[..|a + b| - 1] == a + front;
      assert (a + b)[|a + b| - 1] == last;
      FilteredConcat(a, front, keep);
      var tail := if last.knockout in keep then [last] else [];
      assert Filtered(a + b, keep) == Filtered(a + front, keep) + tail;
      assert Filtered(b, keep) == Filtered(front, keep) + tail;
    } else {
      assert a + b == a;
    }
  }

  /** Every kept row's knockout is one of the categories `sorted_knockouts` declares. */
  lemma FilteredCategories(rows: seq<Row>, sorted: seq<string>)
    requires ByCount(rows, Relevant(rows), sorted)
    ensures forall row | row in Filtered(rows, Relevant(rows)) ::
      row.knockout in sorted && AffectedCount(rows, row.knockout) >= ThGenes
  {
    SortedKnockouts(rows, sorted);
    forall row | row in Filtered(rows, Relevant(rows))
      ensures row.knockout in sorted && AffectedCount(rows, row.knockout) >= ThGenes
    {
      assert row in multiset(Filtered(rows, Relevant(rows)));
    }
  }

  /** `pairs`: the unaffected and the affected box of each sorted knockout. */
  function Pairs(sorted: seq<string>): (p: seq<((string, bool), (string, bool))>)
    ensures |p| == |sorted|
  {
    seq(|sorted|, j requires 0 <= j < |sorted| => ((sorted[j], false), (sorted[j], true)))
  }

  /**
   The pairs compare, for every knockout of `sorted_knockouts` in that
   order, its unaffected box against its affected one; every kept row lies
   in one box of exactly one pair, and no pair is repeated.
   */
  lemma PairsCoverBoxes(rows: seq<Row>, sorted: seq<string>)
    requires ByCount(rows, Relevant(rows), sorted)
    ensures var p := Pairs(sorted);
      && NoDup(p)
      && (forall j | 0 <= j < |p| :: p[j].0 == (sorted[j], false) && p[j].1 == (sorted[j], true))
      && forall row | row in Filtered(rows, Relevant(rows)) ::
           exists j | 0 <= j < |p| :: p[j].0 == (row.knockout, row.affected) || p[j].1 == (row.knockout, row.affected)
  {
    SortedKnockouts(rows, sorted);
    FilteredCategories(rows, sorted);
    PairsCover(sorted, Filtered(rows, Relevant(rows)));
  }

  lemma PairsCover(sorted: seq<string>, kept: seq<Row>)
    requires NoDup(sorted)
    requires forall row | row in kept :: row.knockout in sorted
    ensures var p := Pairs(sorted);
      && NoDup(p)
      && (forall j | 0 <= j < |p| :: p[j].0 == (sorted[j], false) && p[j].1 == (sorted[j], true))
      && forall row | row in kept ::
           exists j | 0 <= j < |p| :: p[j].0 == (row.knockout, row.affected) || p[j].1 == (row.knockout, row.affected)
  {
    PairsDistinct(sorted);
    var p := Pairs(sorted);
    forall row | row in kept
      ensures exists j | 0 <= j < |p| :: p[j].0 == (row.knockout, row.affected) || p[j].1 == (row.knockout, row.affected)
    {
      var j :| 0 <= j < |sorted| && sorted[j] == row.knockout;
      assert p[j].0 == (row.knockout, false) && p[j].1 == (row.knockout, true);
    }
  }

  lemma PairsDistinct(sorted: seq<string>)
    requires NoDup(sorted)
    ensures NoDup(Pairs(sorted))
  {
    var p := Pairs(sorted);
    DistinctNoDup(sorted);
    forall i, j | 0 <= i < j < |p| ensures p[i] != p[j] {
      assert p[i].0.0 == sorted[i] && p[j].0.0 == sorted[j];
    }
    DistinctNoDup(p);
  }

  /**
   The selection step end to end: the relevant knockouts by name, one
   admissible `sorted_knockouts`, the kept rows and the pairs.
   */
  method Select(rows: seq<Row>) returns (relevant: seq<string>, sorted: seq<string>,
                                         kept: seq<Row>, pairs: seq<((string, bool), (string, bool))>)
    ensures Ascending(relevant) && forall k :: k in relevant <==> AffectedCount(rows, k) >= ThGenes
    ensures ByCount(rows, relevant, sorted) && NoDup(sorted)
    ensures forall row :: multiset(kept)[row] == if AffectedCount(rows, row.knockout) >= ThGenes then multiset(rows)[row] else 0
    ensures |pairs| == |sorted| && NoDup(pairs)
    ensures forall row | row in kept :: exists j | 0 <= j < |pairs| ::
      pairs[j].0 == (row.knockout, row.affected) || pairs[j].1 == (row.knockout, row.affected)
  {
    relevant := Relevant(rows);
    SortedKnockouts(rows, SortByCount(rows, relevant));
    sorted :| ByCount(rows, relevant, sorted);
    SortedKnockouts(rows, sorted);
    kept := Filtered(rows, relevant);
    pairs := Pairs(sorted);
    PairsCoverBoxes(rows, sorted);
  }
}
