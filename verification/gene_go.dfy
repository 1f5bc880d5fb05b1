/**
 The relation builders of the data utilities. Each returns a
 `defaultdict(list)` from an input (or geneset) index to the list of latent
 (or GO) indices it feeds, built by appending one value at a time. The CSV
 tables the builders read are parameters here: sequences of rows in file
 order.
 */
module GeneGo {
  import opened Failures
  import opened NatArith

  // ---------------------------------------------------------------------
  // defaultdict(list) built by appends
  // ---------------------------------------------------------------------

  /** A `defaultdict(list)` lookup: a missing key reads as the empty list. */
  function Get<K, V>(d: map<K, seq<V>>, k: K): seq<V>
  {
    if k in d then d[k] else []
  }

  /** `d[k].append(v)` on a `defaultdict(list)`. */
  function AppendTo<K, V>(d: map<K, seq<V>>, k: K, v: V): map<K, seq<V>>
  {
    d[k := Get(d, k) + [v]]
  }

  /** Reference reading of a list of appends: the values appended under `k`, in order. */
  function ValuesFor<K(==), V>(entries: seq<(K, V)>, k: K): seq<V>
  {
    if |entries| == 0 then []
    else
      var last := entries[|entries| - 1];
      ValuesFor(entries[..|entries| - 1], k) + (if last.0 == k then [last.1] else [])
  }

  lemma {:induction false} ValuesForMember<K, V>(entries: seq<(K, V)>, k: K, v: V)
    ensures v in ValuesFor(entries, k) <==> (k, v) in entries
    decreases |entries|
  {
    if |entries| > 0 {
      var prefix := entries[..|entries| - 1];
      ValuesForMember(prefix, k, v);
      assert entries == prefix + [entries[|entries| - 1]];
    }
  }

  /**
   The dictionary a sequence of `rel_dict[k].append(v)` calls leaves behind:
   every key's list holds exactly the values appended under it, in append
   order, and only keys that received a value are present.
   */
  function FromEntries<K(==,!new), V>(entries: seq<(K, V)>): (d: map<K, seq<V>>)
    ensures forall k :: Get(d, k) == ValuesFor(entries, k)
    ensures forall k | k in d :: d[k] != []
  {
    if |entries| == 0 then map[]
    else
      var last := entries[|entries| - 1];
      AppendTo(FromEntries(entries[..|entries| - 1]), last.0, last.1)
  }

  // ---------------------------------------------------------------------
  // dict(zip(xs, range(len(xs))))
  // ---------------------------------------------------------------------

  /**
   `dict(zip(xs, range(len(xs))))`: each distinct element to an index where it
   occurs; a repeated element keeps its last index, as later pairs overwrite
   earlier ones.
   */
  function IndexMap<T(==,!new)>(xs: seq<T>): (m: map<T, nat>)
    ensures forall x :: x in m <==> x in xs
    ensures forall x | x in m :: m[x] < |xs| && xs[m[x]] == x
    ensures forall x, j | x in m && m[x] < j < |xs| :: xs[j] != x
  {
    if |xs| == 0 then map[]
    else
      var prefix := xs[..|xs| - 1];
      assert forall x | x in prefix :: x in xs;
      assert xs == prefix + [xs[|xs| - 1]];
      IndexMap(prefix)[xs[|xs| - 1] := |xs| - 1]
  }

  /** `xs.index(x)`: the first position holding `x`. */
  function FirstIndex<T(==)>(xs: seq<T>, x: T): (i: nat)
    requires x in xs
    ensures i < |xs| && xs[i] == x
    ensures forall j | 0 <= j < i :: xs[j] != x
  {
    if xs[0] == x then 0 else 1 + FirstIndex(xs[1..], x)
  }

  // ---------------------------------------------------------------------
  // build_gene_go_relationships_latent
  // ---------------------------------------------------------------------

  /** `(mult * i + j) // mult == i` for `j < mult`. */
  lemma BlockQuotient(mult: nat, i: nat, j: nat)
    requires j < mult
    ensures (mult * i + j) / mult == i
  {
    DivModUnique(mult * i + j, mult, i, j);
  }

  /**
   The fixed block mapping between two latent layers: with
   `mult = in_dim // out_dim`, inputs `mult*i .. mult*i + mult - 1` all feed
   output `i`, and inputs past `mult * out_dim` feed nothing. Integer
   division by a zero `out_dim` raises.
   */
  method BuildLatent(inDim: nat, outDim: nat) returns (r: Result<map<nat, seq<nat>>>)
    ensures r.Failure? <==> outDim == 0
    ensures r.Failure? ==> r.error == ZeroDivisionError
    ensures r.Success? ==>
      var mult := inDim / outDim;
      && (forall k: nat :: k in r.value <==> k < mult * outDim)
      && (forall k | k in r.value :: r.value[k] == [k / mult])
  {
    if outDim == 0 {
      return Failure(ZeroDivisionError);
    }
    var mult := inDim / outDim;
    var rel: map<nat, seq<nat>> := map[];
    var i, base := 0, 0;
    while i < outDim
      invariant 0 <= i <= outDim && base == mult * i
      invariant forall k: nat :: k in rel <==> k < base
      invariant forall k | k in rel :: mult > 0 && rel[k] == [k / mult]
    {
      rel := FillBlock(mult, i, base, rel);
      NextBlock(mult, i);
      i, base := i + 1, base + mult;
    }
    return Success(rel);
  }

  /** The inner loop of the block mapping: inputs `base .. base + mult - 1` all feed output `i`. */
  method FillBlock(mult: nat, i: nat, base: nat, rel: map<nat, seq<nat>>) returns (r: map<nat, seq<nat>>)
    requires base == mult * i
    requires forall k: nat :: k in rel <==> k < base
    requires forall k | k in rel :: mult > 0 && rel[k] == [k / mult]
    ensures forall k: nat :: k in r <==> k < base + mult
    ensures forall k | k in r :: mult > 0 && r[k] == [k / mult]
  {
    r := rel;
    var j := 0;
    while j < mult
      invariant 0 <= j <= mult
      invariant forall k: nat :: k in r <==> k < base + j
      invariant forall k | k in r :: mult > 0 && r[k] == [k / mult]
    {
      FillStep(mult, i, j, base, r);
      r := AppendTo(r, base + j, i);
      j := j + 1;
    }
  }

  /** Adding input `base + j` of block `i` keeps the map's two invariants. */
  lemma FillStep(mult: nat, i: nat, j: nat, base: nat, rel: map<nat, seq<nat>>)
    requires j < mult && base == mult * i
    requires forall k: nat :: k in rel <==> k < base + j
    requires forall k | k in rel :: rel[k] == [k / mult]
    ensures var next := AppendTo(rel, base + j, i);
      && (forall k: nat :: k in next <==> k < base + j + 1)
      && forall k | k in next :: next[k] == [k / mult]
  {
    BlockQuotient(mult, i, j);
    assert base + j !in rel;
  }

  lemma NextBlock(mult: nat, i: nat)
    ensures mult * i + mult == mult * (i + 1)
  {
  }

  /** The inputs whose list is `[i]`: those feeding output `i`. */
  function FanIn(rel: map<nat, seq<nat>>, i: nat): set<nat>
  {
    set k | k in rel && rel[k] == [i]
  }

  /** The integers `a .. a + n - 1`. */
  function Range(a: nat, n: nat): (r: set<nat>)
    ensures forall k: nat :: k in r <==> a <= k < a + n
    ensures |r| == n
  {
    if n == 0 then {} else Range(a, n - 1) + {a + n - 1}
  }

  /**
   Every output of the block mapping receives exactly `mult` inputs, namely
   the block `mult*i .. mult*i + mult - 1`.
   */
  lemma LatentFanIn(mult: nat, outDim: nat, rel: map<nat, seq<nat>>, i: nat)
    requires i < outDim
    requires forall k: nat :: k in rel <==> k < mult * outDim
    requires forall k | k in rel :: mult > 0 && rel[k] == [k / mult]
    ensures FanIn(rel, i) == Range(mult * i, mult)
    ensures |FanIn(rel, i)| == mult
  {
    forall k: nat | mult * i <= k < mult * i + mult ensures k in rel && rel[k] == [i] {
      BlockFeeds(mult, outDim, rel, i, k);
    }
    forall k | k in rel && rel[k] == [i] ensures mult * i <= k < mult * i + mult {
      FeedsBlock(mult, rel, i, k);
    }
  }

  lemma BlockFeeds(mult: nat, outDim: nat, rel: map<nat, seq<nat>>, i: nat, k: nat)
    requires i < outDim
    requires forall k: nat :: k in rel <==> k < mult * outDim
    requires forall k | k in rel :: mult > 0 && rel[k] == [k / mult]
    requires mult * i <= k < mult * i + mult
    ensures k in rel && rel[k] == [i]
  {
    MulMonotone(i + 1, outDim, mult);
    assert mult * i + mult == (i + 1) * mult;
    BlockQuotient(mult, i, k - mult * i);
  }

  lemma FeedsBlock(mult: nat, rel: map<nat, seq<nat>>, i: nat, k: nat)
    requires forall k | k in rel :: mult > 0 && rel[k] == [k / mult]
    requires k in rel && rel[k] == [i]
    ensures mult * i <= k < mult * i + mult
  {
    assert k / mult == i;
    DivModUnique(k, mult, k / mult, k % mult);
  }

  /** A narrower input layer than output layer gets no connections at all. */
  lemma LatentEmptyWhenNarrower(inDim: nat, outDim: nat, rel: map<nat, seq<nat>>)
    requires inDim < outDim
    requires forall k: nat :: k in rel <==> k < inDim / outDim * outDim
    ensures rel == map[]
  {
    assert inDim / outDim == 0;
  }

  // ---------------------------------------------------------------------
  // build_gene_go_relationships
  // ---------------------------------------------------------------------

  /** One row of the GO-to-gene assignment table: a GO term and an Ensembl gene id. */
  datatype Assignment = Assignment(go: string, gene: string)

  /** Does a row name a gene of the dataset and a selected GO term? */
  predicate Known(genes: seq<string>, gos: seq<string>, a: Assignment)
  {
    a.gene in genes && a.go in gos
  }

  /** The `(gene index, GO index)` append a known row performs, through the two index dictionaries. */
  function Entry(genes: seq<string>, gos: seq<string>, a: Assignment): (e: (nat, nat))
    requires Known(genes, gos, a)
    ensures e.0 < |genes| && genes[e.0] == a.gene
    ensures e.1 < |gos| && gos[e.1] == a.go
  {
    (IndexMap(genes)[a.gene], IndexMap(gos)[a.go])
  }

  /** The appends the join loop performs, in table order. */
  function GeneGoEntries(genes: seq<string>, gos: seq<string>, table: seq<Assignment>): seq<(nat, nat)>
  {
    if |table| == 0 then []
    else
      var a := table[|table| - 1];
      GeneGoEntries(genes, gos, table[..|table| - 1]) + (if Known(genes, gos, a) then [Entry(genes, gos, a)] else [])
  }

  /** The gene-to-GO relation: for every row naming a known gene and GO, append the GO's index to the gene's list. */
  function GeneGoRelation(genes: seq<string>, gos: seq<string>, table: seq<Assignment>): map<nat, seq<nat>>
  {
    FromEntries(GeneGoEntries(genes, gos, table))
  }

  /** A row that contributes an append. */
  predicate Contributes(genes: seq<string>, gos: seq<string>, a: Assignment, k: nat, v: nat)
  {
    Known(genes, gos, a) && Entry(genes, gos, a) == (k, v)
  }

  /** Some row of the table contributes the append `(k, v)`. */
  predicate SomeRowContributes(genes: seq<string>, gos: seq<string>, table: seq<Assignment>, k: nat, v: nat)
  {
    exists p :: 0 <= p < |table| && Contributes(genes, gos, table[p], k, v)
  }

  lemma SomeRowStep(genes: seq<string>, gos: seq<string>, table: seq<Assignment>, k: nat, v: nat)
    requires |table| > 0
    ensures SomeRowContributes(genes, gos, table, k, v)
        <==> SomeRowContributes(genes, gos, table[..|table| - 1], k, v) || Contributes(genes, gos, table[|table| - 1], k, v)
  {
    var prefix := table[..|table| - 1];
    if SomeRowContributes(genes, gos, table, k, v) {
      var p :| 0 <= p < |table| && Contributes(genes, gos, table[p], k, v);
      if p < |prefix| {
        assert prefix[p] == table[p];
      }
    }
    if SomeRowContributes(genes, gos, prefix, k, v) {
      var p :| 0 <= p < |prefix| && Contributes(genes, gos, prefix[p], k, v);
      assert table[p] == prefix[p];
    }
  }

  lemma {:induction false} GeneGoEntriesMember(genes: seq<string>, gos: seq<string>, table: seq<Assignment>, k: nat, v: nat)
    ensures (k, v) in GeneGoEntries(genes, gos, table) <==> SomeRowContributes(genes, gos, table, k, v)
    decreases |table|
  {
    if |table| > 0 {
      var prefix := table[..|table| - 1];
      var a := table[|table| - 1];
      var tail := if Known(genes, gos, a) then [Entry(genes, gos, a)] else [];
      assert GeneGoEntries(genes, gos, table) == GeneGoEntries(genes, gos, prefix) + tail;
      assert (k, v) in tail <==> Contributes(genes, gos, a, k, v);
      GeneGoEntriesMember(genes, gos, prefix, k, v);
      SomeRowStep(genes, gos, table, k, v);
    }
  }

  /**
   A value sits in a gene's list iff some row names a known gene and a
   known GO term that the two index dictionaries send to that key and that
   value; so keys are gene indices and values GO indices.
   */
  lemma GeneGoJoin(genes: seq<string>, gos: seq<string>, table: seq<Assignment>, k: nat, v: nat)
    ensures v in Get(GeneGoRelation(genes, gos, table), k)
        <==> exists p :: 0 <= p < |table| && Contributes(genes, gos, table[p], k, v)
    ensures v in Get(GeneGoRelation(genes, gos, table), k) ==> k < |genes| && v < |gos|
  {
    ValuesForMember(GeneGoEntries(genes, gos, table), k, v);
    GeneGoEntriesMember(genes, gos, table, k, v);
  }

  /** A row with an unknown gene or an unknown GO term changes nothing. */
  lemma GeneGoSkipsUnknown(genes: seq<string>, gos: seq<string>, table: seq<Assignment>, a: Assignment)
    requires !Known(genes, gos, a)
    ensures GeneGoRelation(genes, gos, table + [a]) == GeneGoRelation(genes, gos, table)
  {
    assert (table + [a])[..|table|] == table;
    assert GeneGoEntries(genes, gos, table + [a]) == GeneGoEntries(genes, gos, table);
  }

  /** A known row appends its GO index at the end of its gene's list. */
  lemma GeneGoAppendsInOrder(genes: seq<string>, gos: seq<string>, table: seq<Assignment>, a: Assignment)
    requires Known(genes, gos, a)
    ensures Get(GeneGoRelation(genes, gos, table + [a]), Entry(genes, gos, a).0)
         == Get(GeneGoRelation(genes, gos, table), Entry(genes, gos, a).0) + [Entry(genes, gos, a).1]
  {
    assert (table + [a])[..|table|] == table;
  }

  // ---------------------------------------------------------------------
  // build_gene_go_relationships_latent_deltas
  // ---------------------------------------------------------------------

  /** One row of the GO-to-latent table: a GO term and its one-based latent factor. */
  datatype GoFactor = GoFactor(go: string, z: int)

  /**
   The `(gos.index(go), z - 1)` appends of the delta join, in table order;
   `list.index` of a GO term missing from `gos` raises `ValueError`.
   */
  function DeltaEntries(gos: seq<string>, table: seq<GoFactor>): (r: Result<seq<(nat, int)>>)
    ensures r.Success? <==> forall p | 0 <= p < |table| :: table[p].go in gos
    ensures r.Failure? ==> r.error == ValueError
    ensures r.Success? ==>
      && |r.value| == |table|
      && forall p | 0 <= p < |table| :: r.value[p] == (FirstIndex(gos, table[p].go), table[p].z - 1)
  {
    if |table| == 0 then Success([])
    else
      var prefix := table[..|table| - 1];
      var row := table[|table| - 1];
      assert forall p | 0 <= p < |prefix| :: prefix[p] == table[p];
      var e :- DeltaEntries(gos, prefix);
      if row.go !in gos then Failure(ValueError)
      else Success(e + [(FirstIndex(gos, row.go), row.z - 1)])
  }

  /** The GO-to-latent relation: GO index (first occurrence) to the zero-based factors of its rows. */
  function DeltaRelation(gos: seq<string>, table: seq<GoFactor>): Result<map<nat, seq<int>>>
  {
    var e :- DeltaEntries(gos, table);
    Success(FromEntries(e))
  }

  /**
   The delta join succeeds iff every row's GO term is in `gos`; then a
   factor sits in a GO index's list iff some row names the GO term first
   found at that index and carries that factor plus one.
   */
  lemma DeltaJoin(gos: seq<string>, table: seq<GoFactor>, k: nat, v: int)
    ensures DeltaRelation(gos, table).Success? <==> forall p | 0 <= p < |table| :: table[p].go in gos
    ensures DeltaRelation(gos, table).Failure? ==> DeltaRelation(gos, table).error == ValueError
    ensures DeltaRelation(gos, table).Success? ==>
      (v in Get(DeltaRelation(gos, table).value, k) <==>
         exists p :: 0 <= p < |table| && FirstIndex(gos, table[p].go) == k && table[p].z - 1 == v)
  {
    if DeltaRelation(gos, table).Success? {
      var e := DeltaEntries(gos, table).value;
      ValuesForMember(e, k, v);
      if exists p :: 0 <= p < |table| && FirstIndex(gos, table[p].go) == k && table[p].z - 1 == v {
        var p :| 0 <= p < |table| && FirstIndex(gos, table[p].go) == k && table[p].z - 1 == v;
        assert e[p] == (k, v);
      }
    }
  }

  /** Every key of the delta relation is a valid index of `gos`. */
  lemma DeltaKeys(gos: seq<string>, table: seq<GoFactor>, k: nat)
    requires DeltaRelation(gos, table).Success? && k in DeltaRelation(gos, table).value
    ensures k < |gos|
  {
    var e := DeltaEntries(gos, table).value;
    var v := DeltaRelation(gos, table).value[k][0];
    ValuesForMember(e, k, v);
  }
}
