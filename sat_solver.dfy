/**
 * The SAT encoding of a sudoku (`SudokuCNF`): propositions "cell `coords`
 * holds `val`", each with a numeric identifier, and a conjunctive normal form
 * over those identifiers as a list of clauses. Building the object appends the
 * clause groups to the formula; `decode` turns the identifiers a SAT solver
 * reports as true back into a grid.
 *
 * A literal is an identifier (the proposition holds) or its negation (it does
 * not). An assignment is modelled as the set of identifiers that are true.
 */
module SatSolver {
  import opened Wrappers
  import opened Grid
  import opened GroupBy

  /** `Coordinates`: a cell and the index of its block. */
  datatype Coordinates = Coordinates(row: nat, col: nat, block: nat)

  /** `Proposition`: "the cell at `coords` holds `val`", known to the formula as `id`. */
  datatype Proposition = Proposition(coords: Coordinates, val: int, id: int)

  type Clause = seq<int>

  /* ---------------------------------------------------------------------- */
  /* Satisfaction                                                           */
  /* ---------------------------------------------------------------------- */

  predicate LiteralHolds(t: set<int>, l: int) {
    if l > 0 then l in t else l < 0 && -l !in t
  }

  predicate ClauseHolds(t: set<int>, c: Clause) {
    exists i :: 0 <= i < |c| && LiteralHolds(t, c[i])
  }

  predicate CnfHolds(t: set<int>, cs: seq<Clause>) {
    forall i :: 0 <= i < |cs| ==> ClauseHolds(t, cs[i])
  }

  predicate PositiveIds(ps: seq<Proposition>) {
    forall i :: 0 <= i < |ps| ==> ps[i].id > 0
  }

  /** No two of the propositions (at different positions) are both true. */
  predicate AtMostOneTrue(t: set<int>, ps: seq<Proposition>) {
    forall a, b :: 0 <= a < b < |ps| ==> !(ps[a].id in t && ps[b].id in t)
  }

  /** Exactly one position holds a true proposition. */
  predicate ExactlyOneTrue(t: set<int>, ps: seq<Proposition>) {
    exists a :: 0 <= a < |ps| && ps[a].id in t && forall b :: 0 <= b < |ps| && b != a ==> ps[b].id !in t
  }

  lemma CnfHoldsConcat(t: set<int>, a: seq<Clause>, b: seq<Clause>)
    ensures CnfHolds(t, a + b) <==> CnfHolds(t, a) && CnfHolds(t, b)
  {
    if CnfHolds(t, a) && CnfHolds(t, b) {
      forall i | 0 <= i < |a + b| ensures ClauseHolds(t, (a + b)[i]) {
        if i < |a| {
          assert (a + b)[i] == a[i];
        } else {
          assert (a + b)[i] == b[i - |a|];
        }
      }
    }
    if CnfHolds(t, a + b) {
      forall i | 0 <= i < |a| ensures ClauseHolds(t, a[i]) {
        assert (a + b)[i] == a[i];
      }
      forall i | 0 <= i < |b| ensures ClauseHolds(t, b[i]) {
        assert (a + b)[|a| + i] == b[i];
      }
    }
  }

  /* ---------------------------------------------------------------------- */
  /* The clause combinators                                                 */
  /* ---------------------------------------------------------------------- */

  /** The identifiers of the propositions, in order. */
  function Ids(ps: seq<Proposition>): (ids: Clause)
    ensures |ids| == |ps|
  {
    seq(|ps|, i requires 0 <= i < |ps| => ps[i].id)
  }

  /** The pair clauses `[-ps[i].id, -ps[j].id]` for every `j > i`, in order of `j`. */
  function PairRow(ps: seq<Proposition>, i: nat): (cs: seq<Clause>)
    requires i < |ps|
    ensures |cs| == |ps| - i - 1
  {
    seq(|ps| - i - 1, k requires 0 <= k < |ps| - i - 1 => [-ps[i].id, -ps[i + 1 + k].id])
  }

  /** The pair clauses whose first proposition is one of the first `i`. */
  function PairsUpTo(ps: seq<Proposition>, i: nat): seq<Clause>
    requires i <= |ps|
  {
    if i == 0 then [] else PairsUpTo(ps, i - 1) + PairRow(ps, i - 1)
  }

  /** What `_at_most_one` appends: one clause per pair, in `itertools.combinations` order. */
  function AtMostOneClauses(ps: seq<Proposition>): seq<Clause>
  {
    PairsUpTo(ps, |ps|)
  }

  /** What `_exactly_one` appends: the pair clauses, then the clause of all identifiers. */
  function ExactlyOneClauses(ps: seq<Proposition>): seq<Clause>
  {
    AtMostOneClauses(ps) + [Ids(ps)]
  }

  /** `_at_least_one`'s clause holds exactly when one of the propositions is true. */
  lemma AtLeastOneMeaning(t: set<int>, ps: seq<Proposition>)
    requires PositiveIds(ps)
    ensures ClauseHolds(t, Ids(ps)) <==> exists a :: 0 <= a < |ps| && ps[a].id in t
  {
    var c := Ids(ps);
    if ClauseHolds(t, c) {
      var i :| 0 <= i < |c| && LiteralHolds(t, c[i]);
      assert ps[i].id in t;
    }
    if exists a :: 0 <= a < |ps| && ps[a].id in t {
      var a :| 0 <= a < |ps| && ps[a].id in t;
      assert LiteralHolds(t, c[a]);
    }
  }

  /** One pair clause holds exactly when one of its two propositions is false. */
  lemma PairClauseMeaning(t: set<int>, x: int, y: int)
    requires x > 0 && y > 0
    ensures ClauseHolds(t, [-x, -y]) <==> !(x in t && y in t)
  {
    var c := [-x, -y];
    if !(x in t && y in t) {
      if x !in t {
        assert LiteralHolds(t, c[0]);
      } else {
        assert LiteralHolds(t, c[1]);
      }
    }
  }

  /** The clauses of one row of pairs hold exactly when no later proposition is true beside `ps[i]`. */
  lemma PairRowMeaning(t: set<int>, ps: seq<Proposition>, i: nat)
    requires PositiveIds(ps) && i < |ps|
    ensures CnfHolds(t, PairRow(ps, i)) <==> forall b :: i < b < |ps| ==> !(ps[i].id in t && ps[b].id in t)
  {
    var row := PairRow(ps, i);
    forall k | 0 <= k < |row| ensures ClauseHolds(t, row[k]) <==> !(ps[i].id in t && ps[i + 1 + k].id in t) {
      PairClauseMeaning(t, ps[i].id, ps[i + 1 + k].id);
    }
    if CnfHolds(t, row) {
      forall b | i < b < |ps| ensures !(ps[i].id in t && ps[b].id in t) {
        assert ClauseHolds(t, row[b - i - 1]);
      }
    }
  }

  lemma {:induction false} PairsUpToMeaning(t: set<int>, ps: seq<Proposition>, i: nat)
    requires PositiveIds(ps) && i <= |ps|
    ensures CnfHolds(t, PairsUpTo(ps, i)) <==> forall a, b :: 0 <= a < i && a < b < |ps| ==> !(ps[a].id in t && ps[b].id in t)
  {
    if i > 0 {
      PairsUpToMeaning(t, ps, i - 1);
      PairRowMeaning(t, ps, i - 1);
      CnfHoldsConcat(t, PairsUpTo(ps, i - 1), PairRow(ps, i - 1));
    }
  }

  /** `_at_most_one`'s clauses hold exactly when at most one of the propositions is true. */
  lemma AtMostOneMeaning(t: set<int>, ps: seq<Proposition>)
    requires PositiveIds(ps)
    ensures CnfHolds(t, AtMostOneClauses(ps)) <==> AtMostOneTrue(t, ps)
  {
    PairsUpToMeaning(t, ps, |ps|);
  }

  /** `_exactly_one`'s clauses hold exactly when exactly one of the propositions is true. */
  lemma ExactlyOneMeaning(t: set<int>, ps: seq<Proposition>)
    requires PositiveIds(ps)
    ensures CnfHolds(t, ExactlyOneClauses(ps)) <==> ExactlyOneTrue(t, ps)
  {
    AtMostOneMeaning(t, ps);
    AtLeastOneMeaning(t, ps);
    CnfHoldsConcat(t, AtMostOneClauses(ps), [Ids(ps)]);
    var last := [Ids(ps)];
    assert last[0] == Ids(ps);
    assert CnfHolds(t, last) <==> ClauseHolds(t, Ids(ps));
    if AtMostOneTrue(t, ps) && exists a :: 0 <= a < |ps| && ps[a].id in t {
      var a :| 0 <= a < |ps| && ps[a].id in t;
      assert forall b :: 0 <= b < |ps| && b != a ==> ps[b].id !in t;
    }
    if ExactlyOneTrue(t, ps) {
      var a :| 0 <= a < |ps| && ps[a].id in t && forall b :: 0 <= b < |ps| && b != a ==> ps[b].id !in t;
      assert AtMostOneTrue(t, ps);
    }
  }

  /** `_at_most_one` yields k·(k−1)/2 clauses for k propositions. */
  lemma AtMostOneCount(ps: seq<Proposition>)
    ensures 2 * |AtMostOneClauses(ps)| == |ps| * (|ps| - 1)
  {
    PairsUpToCount(ps, |ps|);
  }

  lemma {:induction false} PairsUpToCount(ps: seq<Proposition>, i: nat)
    requires i <= |ps|
    ensures 2 * |PairsUpTo(ps, i)| == i * (2 * |ps| - i - 1)
  {
    if i > 0 {
      PairsUpToCount(ps, i - 1);
      var n := |ps|;
      assert 2 * |PairsUpTo(ps, i)| == (i - 1) * (2 * n - i) + 2 * (n - i);
      assert (i - 1) * (2 * n - i) + 2 * (n - i) == i * (2 * n - i - 1) by {
        assert (i - 1) * (2 * n - i) == i * (2 * n - i) - (2 * n - i);
        assert i * (2 * n - i) == i * (2 * n - i - 1) + i;
      }
    }
  }

  /* ---------------------------------------------------------------------- */
  /* The clause groups                                                      */
  /* ---------------------------------------------------------------------- */

  /** The at-most-one clauses of each group, group after group. */
  function EachAtMostOne(gs: seq<seq<Proposition>>): seq<Clause>
  {
    if |gs| == 0 then [] else EachAtMostOne(gs[..|gs| - 1]) + AtMostOneClauses(gs[|gs| - 1])
  }

  /** The exactly-one clauses of each group, group after group. */
  function EachExactlyOne(gs: seq<seq<Proposition>>): seq<Clause>
  {
    if |gs| == 0 then [] else EachExactlyOne(gs[..|gs| - 1]) + ExactlyOneClauses(gs[|gs| - 1])
  }

  lemma {:induction false} EachAtMostOneMeaning(t: set<int>, gs: seq<seq<Proposition>>)
    requires forall i :: 0 <= i < |gs| ==> PositiveIds(gs[i])
    ensures CnfHolds(t, EachAtMostOne(gs)) <==> forall i :: 0 <= i < |gs| ==> AtMostOneTrue(t, gs[i])
  {
    if |gs| > 0 {
      var init, last := gs[..|gs| - 1], gs[|gs| - 1];
      EachAtMostOneMeaning(t, init);
      AtMostOneMeaning(t, last);
      CnfHoldsConcat(t, EachAtMostOne(init), AtMostOneClauses(last));
    }
  }

  /** Every listed group has exactly one true proposition. */
  predicate EveryExactlyOneTrue(t: set<int>, gs: seq<seq<Proposition>>) {
    forall i :: 0 <= i < |gs| ==> ExactlyOneTrue(t, gs[i])
  }

  lemma {:induction false} EachExactlyOneMeaning(t: set<int>, gs: seq<seq<Proposition>>)
    requires forall i :: 0 <= i < |gs| ==> PositiveIds(gs[i])
    ensures CnfHolds(t, EachExactlyOne(gs)) <==> EveryExactlyOneTrue(t, gs)
  {
    if |gs| > 0 {
      var init, last := gs[..|gs| - 1], gs[|gs| - 1];
      EachExactlyOneMeaning(t, init);
      ExactlyOneMeaning(t, last);
      CnfHoldsConcat(t, EachExactlyOne(init), ExactlyOneClauses(last));
    }
  }

  /** The grouping keys of the four clause groups. */
  function CellKey(p: Proposition): Coordinates { p.coords }
  function RowKey(p: Proposition): (int, int) { (p.coords.row, p.val) }
  function ColKey(p: Proposition): (int, int) { (p.coords.col, p.val) }

  type BlockSide = b: nat | b > 0 witness 1

  /** The block key uses `puzzle.block_index(row, col)`, not the `block` field. */
  function BlockKey(b: BlockSide): Proposition -> (int, int)
  {
    (p: Proposition) => (BlockIndex(b, p.coords.row, p.coords.col), p.val)
  }

  /**
   * The block groups. `block_index` divides by the block side, so on the
   * empty grid they exist only when there is nothing to group.
   */
  function BlockGroups(vs: seq<Proposition>, b: nat): seq<seq<Proposition>>
    requires b > 0 || |vs| == 0
  {
    if |vs| == 0 then [] else Groups(vs, BlockKey(b))
  }

  /** The clauses of each of the four groups. */
  function CellClauses(vs: seq<Proposition>): seq<Clause> { EachExactlyOne(Groups(vs, CellKey)) }
  function RowClauses(vs: seq<Proposition>): seq<Clause> { EachAtMostOne(Groups(vs, RowKey)) }
  function ColClauses(vs: seq<Proposition>): seq<Clause> { EachAtMostOne(Groups(vs, ColKey)) }
  function BlockClauses(vs: seq<Proposition>, b: nat): seq<Clause>
    requires b > 0 || |vs| == 0
  {
    EachAtMostOne(BlockGroups(vs, b))
  }

  /**
   * Everything `__post_init__` appends, in its order. Every literal of the
   * formula names one of the propositions, so a SAT solver's answer never
   * mentions anything else.
   */
  function EncodingClauses(vs: seq<Proposition>, b: nat): (cs: seq<Clause>)
    requires b > 0 || |vs| == 0
    ensures NamesOnly(vs, cs)
  {
    EncodingNames(vs, b);
    CellClauses(vs) + RowClauses(vs) + ColClauses(vs) + BlockClauses(vs, b)
  }

  /** Literal `l` is `p.id` or `-p.id` for some proposition `p` of `ps`. */
  ghost predicate Names(ps: seq<Proposition>, l: int) {
    exists p :: p in ps && (l == p.id || l == -p.id)
  }

  /** Every literal of every clause names a proposition of `ps`. */
  ghost predicate NamesOnly(ps: seq<Proposition>, cs: seq<Clause>) {
    forall i, j :: 0 <= i < |cs| && 0 <= j < |cs[i]| ==> Names(ps, cs[i][j])
  }

  /** Every group is made of propositions of `vs`. */
  ghost predicate GroupsOf(vs: seq<Proposition>, gs: seq<seq<Proposition>>) {
    forall i, p :: 0 <= i < |gs| && p in gs[i] ==> p in vs
  }

  lemma NamesOnlyConcat(ps: seq<Proposition>, a: seq<Clause>, b: seq<Clause>)
    requires NamesOnly(ps, a) && NamesOnly(ps, b)
    ensures NamesOnly(ps, a + b)
  {
    forall i, j | 0 <= i < |a + b| && 0 <= j < |(a + b)[i]| ensures Names(ps, (a + b)[i][j]) {
      if i < |a| {
        assert (a + b)[i] == a[i];
      } else {
        assert (a + b)[i] == b[i - |a|];
      }
    }
  }

  lemma NamesOnlyWiden(g: seq<Proposition>, vs: seq<Proposition>, cs: seq<Clause>)
    requires forall p :: p in g ==> p in vs
    requires NamesOnly(g, cs)
    ensures NamesOnly(vs, cs)
  {
    forall i, j | 0 <= i < |cs| && 0 <= j < |cs[i]| ensures Names(vs, cs[i][j]) {
      assert Names(g, cs[i][j]);
      var p :| p in g && (cs[i][j] == p.id || cs[i][j] == -p.id);
      assert p in vs;
    }
  }

  lemma {:induction false} PairsUpToNames(ps: seq<Proposition>, i: nat)
    requires i <= |ps|
    ensures NamesOnly(ps, PairsUpTo(ps, i))
  {
    if i > 0 {
      PairsUpToNames(ps, i - 1);
      var row := PairRow(ps, i - 1);
      forall k, j | 0 <= k < |row| && 0 <= j < |row[k]| ensures Names(ps, row[k][j]) {
        assert row[k] == [-ps[i - 1].id, -ps[i + k].id];
        if j == 0 {
          assert ps[i - 1] in ps;
        } else {
          assert ps[i + k] in ps;
        }
      }
      NamesOnlyConcat(ps, PairsUpTo(ps, i - 1), row);
    }
  }

  /** The clauses of `_at_most_one` and `_exactly_one` name only their own propositions. */
  lemma OneClausesNames(ps: seq<Proposition>)
    ensures NamesOnly(ps, AtMostOneClauses(ps)) && NamesOnly(ps, ExactlyOneClauses(ps))
  {
    PairsUpToNames(ps, |ps|);
    var last := [Ids(ps)];
    forall i, j | 0 <= i < |last| && 0 <= j < |last[i]| ensures Names(ps, last[i][j]) {
      assert ps[j] in ps;
    }
    NamesOnlyConcat(ps, AtMostOneClauses(ps), last);
  }

  lemma {:induction false} EachNames(vs: seq<Proposition>, gs: seq<seq<Proposition>>)
    requires GroupsOf(vs, gs)
    ensures NamesOnly(vs, EachAtMostOne(gs)) && NamesOnly(vs, EachExactlyOne(gs))
  {
    if |gs| > 0 {
      var init, last := gs[..|gs| - 1], gs[|gs| - 1];
      assert forall i :: 0 <= i < |init| ==> init[i] == gs[i];
      EachNames(vs, init);
      OneClausesNames(last);
      assert forall p :: p in last ==> p in vs;
      NamesOnlyWiden(last, vs, AtMostOneClauses(last));
      NamesOnlyWiden(last, vs, ExactlyOneClauses(last));
      NamesOnlyConcat(vs, EachAtMostOne(init), AtMostOneClauses(last));
      NamesOnlyConcat(vs, EachExactlyOne(init), ExactlyOneClauses(last));
    }
  }

  lemma GroupsOfItems<K(!new)>(vs: seq<Proposition>, key: Proposition -> K)
    ensures GroupsOf(vs, Groups(vs, key))
  {
    var gs: seq<seq<Proposition>> := Groups(vs, key);
    forall i, p | 0 <= i < |gs| && p in gs[i] ensures p in vs {
      FilterMembership(vs, key, KeyOrder(vs, key)[i], p);
    }
  }

  lemma EncodingNames(vs: seq<Proposition>, b: nat)
    requires b > 0 || |vs| == 0
    ensures NamesOnly(vs, CellClauses(vs) + RowClauses(vs) + ColClauses(vs) + BlockClauses(vs, b))
  {
    GroupsOfItems(vs, CellKey);
    GroupsOfItems(vs, RowKey);
    GroupsOfItems(vs, ColKey);
    if |vs| > 0 {
      GroupsOfItems(vs, BlockKey(b));
    }
    EachNames(vs, Groups(vs, CellKey));
    EachNames(vs, Groups(vs, RowKey));
    EachNames(vs, Groups(vs, ColKey));
    EachNames(vs, BlockGroups(vs, b));
    NamesOnlyConcat(vs, CellClauses(vs), RowClauses(vs));
    NamesOnlyConcat(vs, CellClauses(vs) + RowClauses(vs), ColClauses(vs));
    NamesOnlyConcat(vs, CellClauses(vs) + RowClauses(vs) + ColClauses(vs), BlockClauses(vs, b));
  }

  /** Every group of `group_by(vs, key).values()` is made of propositions of `vs`. */
  lemma GroupsPositive<K(!new)>(vs: seq<Proposition>, key: Proposition -> K)
    requires PositiveIds(vs)
    ensures forall i :: 0 <= i < |Groups(vs, key)| ==> PositiveIds(Groups(vs, key)[i])
  {
    var gs: seq<seq<Proposition>> := Groups(vs, key);
    forall i, j | 0 <= i < |gs| && 0 <= j < |gs[i]| ensures gs[i][j].id > 0 {
      FilterMembership(vs, key, KeyOrder(vs, key)[i], gs[i][j]);
    }
  }

  /** `group_by(vs, key).values()` lists the dictionary's entries: one per key. */
  lemma GroupsAreEntries<K(!new)>(vs: seq<Proposition>, key: Proposition -> K)
    ensures |Groups(vs, key)| == |KeyOrder(vs, key)|
    ensures forall i :: 0 <= i < |KeyOrder(vs, key)| ==>
      KeyOrder(vs, key)[i] in GroupBy.GroupBy(vs, key) && Groups(vs, key)[i] == GroupBy.GroupBy(vs, key)[KeyOrder(vs, key)[i]]
    ensures forall k :: k in GroupBy.GroupBy(vs, key) ==> k in KeyOrder(vs, key)
  {
  }

  /** Every entry of the dictionary has exactly one true proposition. */
  predicate EveryEntryExactlyOneTrue<K>(t: set<int>, groups: map<K, seq<Proposition>>) {
    forall k :: k in groups ==> ExactlyOneTrue(t, groups[k])
  }

  /** A condition holds of every listed group exactly when it holds of every entry. */
  lemma EntriesExactlyOne<K>(t: set<int>, gs: seq<seq<Proposition>>, keys: seq<K>, groups: map<K, seq<Proposition>>)
    requires |gs| == |keys| && forall i :: 0 <= i < |keys| ==> keys[i] in groups && gs[i] == groups[keys[i]]
    requires forall k :: k in groups ==> k in keys
    ensures EveryExactlyOneTrue(t, gs) <==> EveryEntryExactlyOneTrue(t, groups)
  {
    if EveryExactlyOneTrue(t, gs) {
      forall k | k in groups ensures ExactlyOneTrue(t, groups[k]) {
        var i :| 0 <= i < |keys| && keys[i] == k;
        assert gs[i] == groups[k];
      }
    }
  }

  lemma EntriesAtMostOne<K>(t: set<int>, gs: seq<seq<Proposition>>, keys: seq<K>, groups: map<K, seq<Proposition>>)
    requires |gs| == |keys| && forall i :: 0 <= i < |keys| ==> keys[i] in groups && gs[i] == groups[keys[i]]
    requires forall k :: k in groups ==> k in keys
    ensures (forall i :: 0 <= i < |gs| ==> AtMostOneTrue(t, gs[i])) <==> forall k :: k in groups ==> AtMostOneTrue(t, groups[k])
  {
    if forall i :: 0 <= i < |gs| ==> AtMostOneTrue(t, gs[i]) {
      forall k | k in groups ensures AtMostOneTrue(t, groups[k]) {
        var i :| 0 <= i < |keys| && keys[i] == k;
        assert gs[i] == groups[k];
      }
    }
  }

  /** An exactly-one group per key: the clauses hold exactly when every dictionary entry has one true proposition. */
  lemma ExactlyOneGroupsMeaning<K(!new)>(t: set<int>, vs: seq<Proposition>, key: Proposition -> K)
    requires PositiveIds(vs)
    ensures CnfHolds(t, EachExactlyOne(Groups(vs, key))) <==> EveryEntryExactlyOneTrue(t, GroupBy.GroupBy(vs, key))
  {
    GroupsPositive(vs, key);
    EachExactlyOneMeaning(t, Groups(vs, key));
    GroupsAreEntries(vs, key);
    EntriesExactlyOne(t, Groups(vs, key), KeyOrder(vs, key), GroupBy.GroupBy(vs, key));
  }

  /** An at-most-one group per key: the clauses hold exactly when no dictionary entry has two true propositions. */
  lemma AtMostOneGroupsMeaning<K(!new)>(t: set<int>, vs: seq<Proposition>, key: Proposition -> K)
    requires PositiveIds(vs)
    ensures CnfHolds(t, EachAtMostOne(Groups(vs, key)))
        <==> forall k :: k in GroupBy.GroupBy(vs, key) ==> AtMostOneTrue(t, GroupBy.GroupBy(vs, key)[k])
  {
    GroupsPositive(vs, key);
    EachAtMostOneMeaning(t, Groups(vs, key));
    GroupsAreEntries(vs, key);
    EntriesAtMostOne(t, Groups(vs, key), KeyOrder(vs, key), GroupBy.GroupBy(vs, key));
  }

  /**
   * An assignment satisfies everything `__post_init__` appends exactly when
   * every cell has exactly one true value and no row, column or block holds
   * a value twice among the true propositions.
   */
  lemma EncodingMeaning(t: set<int>, vs: seq<Proposition>, b: BlockSide)
    requires PositiveIds(vs)
    ensures CnfHolds(t, EncodingClauses(vs, b)) <==>
      EveryEntryExactlyOneTrue(t, GroupBy.GroupBy(vs, CellKey))
      && (forall k :: k in GroupBy.GroupBy(vs, RowKey) ==> AtMostOneTrue(t, GroupBy.GroupBy(vs, RowKey)[k]))
      && (forall k :: k in GroupBy.GroupBy(vs, ColKey) ==> AtMostOneTrue(t, GroupBy.GroupBy(vs, ColKey)[k]))
      && (forall k :: k in GroupBy.GroupBy(vs, BlockKey(b)) ==> AtMostOneTrue(t, GroupBy.GroupBy(vs, BlockKey(b))[k]))
  {
    ExactlyOneGroupsMeaning(t, vs, CellKey);
    AtMostOneGroupsMeaning(t, vs, RowKey);
    AtMostOneGroupsMeaning(t, vs, ColKey);
    AtMostOneGroupsMeaning(t, vs, BlockKey(b));
    if |vs| == 0 {
      assert Groups(vs, BlockKey(b)) == [];
    }
    var e1, e2, e3, e4 := CellClauses(vs), RowClauses(vs), ColClauses(vs), BlockClauses(vs, b);
    CnfHoldsConcat(t, e1, e2);
    CnfHoldsConcat(t, e1 + e2, e3);
    CnfHoldsConcat(t, e1 + e2 + e3, e4);
  }

  /* ---------------------------------------------------------------------- */
  /* Decoding                                                               */
  /* ---------------------------------------------------------------------- */

  /** `[prop_id for prop_id in results if prop_id >= 0]`. */
  function NonNegative(results: seq<int>): (ids: seq<int>)
    ensures |ids| <= |results|
    ensures forall x :: x in ids <==> x in results && x >= 0
  {
    if |results| == 0 then []
    else (if results[0] >= 0 then [results[0]] else []) + NonNegative(results[1..])
  }

  /**
   * `[self.propositions[i] for i in ids]`: the first identifier missing from
   * the dictionary raises `KeyError`.
   */
  function Lookup(props: map<int, Proposition>, ids: seq<int>): (r: Result<seq<Proposition>, Error>)
    ensures r.Ok? <==> forall i :: 0 <= i < |ids| ==> ids[i] in props
    ensures r.Ok? ==> |r.value| == |ids| && forall i :: 0 <= i < |ids| ==> r.value[i] == props[ids[i]]
    ensures r.Err? ==> r.error.KeyError?
    ensures r.Err? ==> exists i :: (0 <= i < |ids| && ids[i] == r.error.key && ids[i] !in props
      && forall j :: 0 <= j < i ==> ids[j] in props)
  {
    if |ids| == 0 then Ok([])
    else if ids[0] !in props then Err(KeyError(ids[0]))
    else
      var rest := Lookup(props, ids[1..]);
      if rest.Err? then
        var i :| 0 <= i < |ids[1..]| && ids[1..][i] == rest.error.key && ids[1..][i] !in props
          && forall j :: 0 <= j < i ==> ids[1..][j] in props;
        assert ids[i + 1] == rest.error.key;
        rest
      else
        Ok([props[ids[0]]] + rest.value)
  }

  /**
   * Writing each proposition's value into its cell, in order, as
   * `solved_puzzle[row, col] = val` does: a cell outside the grid raises
   * `IndexError`, a value the unsigned cells cannot hold `OverflowError`.
   */
  function Writes(m: Matrix, n: nat, ps: seq<Proposition>): (r: Result<Matrix, Error>)
    requires IsSquare(m, n)
    ensures r.Ok? ==> IsSquare(r.value, n)
    ensures r.Err? ==> r.error == IndexError || r.error == OverflowError
    decreases |ps|
  {
    if |ps| == 0 then Ok(m)
    else
      var p := ps[0];
      if !(p.coords.row < n && p.coords.col < n) then Err(IndexError)
      else if !(0 <= p.val < UIntLimit) then Err(OverflowError)
      else Writes(Update(m, p.coords.row, p.coords.col, p.val as nat), n, ps[1..])
  }

  /** A proposition that can be written into a grid of side `n`. */
  predicate Writable(p: Proposition, n: nat) {
    p.coords.row < n && p.coords.col < n && 0 <= p.val < UIntLimit
  }

  /** The writes succeed exactly when every proposition fits the grid. */
  lemma {:induction false} WritesSucceed(m: Matrix, n: nat, ps: seq<Proposition>)
    requires IsSquare(m, n)
    ensures Writes(m, n, ps).Ok? <==> forall i :: 0 <= i < |ps| ==> Writable(ps[i], n)
    decreases |ps|
  {
    if |ps| > 0 && Writable(ps[0], n) {
      WritesSucceed(Update(m, ps[0].coords.row, ps[0].coords.col, ps[0].val as nat), n, ps[1..]);
      assert forall i :: 1 <= i < |ps| ==> ps[i] == ps[1..][i - 1];
    }
  }

  /** A cell that no proposition names keeps its value. */
  lemma {:induction false} WritesKeepUnnamed(m: Matrix, n: nat, ps: seq<Proposition>, r: nat, c: nat)
    requires IsSquare(m, n) && r < n && c < n && Writes(m, n, ps).Ok?
    requires forall i :: 0 <= i < |ps| ==> (ps[i].coords.row, ps[i].coords.col) != (r, c)
    ensures Writes(m, n, ps).value[r][c] == m[r][c]
    decreases |ps|
  {
    if |ps| > 0 {
      var p := ps[0];
      var m1 := Update(m, p.coords.row, p.coords.col, p.val as nat);
      assert forall i :: 0 <= i < |ps[1..]| ==> ps[1..][i] == ps[i + 1];
      WritesKeepUnnamed(m1, n, ps[1..], r, c);
    }
  }

  /** A named cell ends with the value of the last proposition naming it. */
  lemma {:induction false} WritesLastWins(m: Matrix, n: nat, ps: seq<Proposition>, i: nat)
    requires IsSquare(m, n) && i < |ps| && Writes(m, n, ps).Ok?
    requires forall j :: i < j < |ps| ==> (ps[j].coords.row, ps[j].coords.col) != (ps[i].coords.row, ps[i].coords.col)
    ensures ps[i].coords.row < n && ps[i].coords.col < n
    ensures Writes(m, n, ps).value[ps[i].coords.row][ps[i].coords.col] == ps[i].val
    decreases |ps|
  {
    var p := ps[0];
    var m1 := Update(m, p.coords.row, p.coords.col, p.val as nat);
    assert forall j :: 0 <= j < |ps[1..]| ==> ps[1..][j] == ps[j + 1];
    if i == 0 {
      WritesKeepUnnamed(m1, n, ps[1..], p.coords.row, p.coords.col);
    } else {
      WritesLastWins(m1, n, ps[1..], i - 1);
    }
  }

  /** What `decode(results)` returns, as a value. */
  function DecodeSpec(m: Matrix, n: nat, props: map<int, Proposition>, results: seq<int>): (r: Result<Matrix, Error>)
    requires IsSquare(m, n)
    ensures r.Ok? ==> IsSquare(r.value, n)
    ensures r.Err? ==> r.error.KeyError? || r.error == IndexError || r.error == OverflowError
  {
    var found := Lookup(props, NonNegative(results));
    if found.Err? then Err(found.error) else Writes(m, n, found.value)
  }

  lemma AppendFour(x: seq<Clause>, a: seq<Clause>, b: seq<Clause>, c: seq<Clause>, d: seq<Clause>)
    ensures x + a + b + c + d == x + (a + b + c + d)
  {
    assert x + a + b == x + (a + b);
    assert x + a + b + c == x + (a + b + c);
  }

  /* ---------------------------------------------------------------------- */
  /* The encoding object                                                     */
  /* ---------------------------------------------------------------------- */

  /**
   * `SudokuCNF`: `cnf` is the formula, whose list of clauses grows in place;
   * `propositions` is a dictionary, kept as its entries (`propositions`) and
   * its keys in insertion order (`ids`).
   */
  class SudokuCNF {
    var cnf: seq<Clause>
    const ids: seq<int>
    const propositions: map<int, Proposition>
    const puzzle: SudokuGrid

    /** What makes `ids` and `propositions` one Python dictionary. */
    ghost predicate IsDictionary()
    {
      (forall i, j :: 0 <= i < j < |ids| ==> ids[i] != ids[j])
      && (forall i :: 0 <= i < |ids| ==> ids[i] in propositions)
      && forall k :: k in propositions ==> k in ids
    }

    /** `propositions.values()`, in insertion order. */
    function Values(): (vs: seq<Proposition>)
      requires IsDictionary()
      ensures |vs| == |ids|
      ensures forall i :: 0 <= i < |ids| ==> vs[i] == propositions[ids[i]]
    {
      seq(|ids|, i requires 0 <= i < |ids| => propositions[ids[i]])
    }

    constructor Wrap(cnf: seq<Clause>, ids: seq<int>, propositions: map<int, Proposition>, puzzle: SudokuGrid)
      ensures this.cnf == cnf && this.ids == ids && this.propositions == propositions && this.puzzle == puzzle
    {
      this.cnf := cnf;
      this.ids := ids;
      this.propositions := propositions;
      this.puzzle := puzzle;
    }

    /**
     * `SudokuCNF(cnf, propositions, puzzle)`: the dataclass constructor and
     * its `__post_init__`, which appends the cell, row, column and block
     * groups in that order. On the empty grid `block_index` divides by zero
     * as soon as there is a proposition to group.
     */
    static method New(cnf: seq<Clause>, ids: seq<int>, propositions: map<int, Proposition>, puzzle: SudokuGrid)
      returns (r: Result<SudokuCNF, Error>)
      requires puzzle.Valid()
      requires forall i, j :: 0 <= i < j < |ids| ==> ids[i] != ids[j]
      requires forall i :: 0 <= i < |ids| ==> ids[i] in propositions
      requires forall k :: k in propositions ==> k in ids
      ensures r.Ok? <==> puzzle.blockSize > 0 || |ids| == 0
      ensures r.Err? ==> r.error == ZeroDivisionError
      ensures r.Ok? ==> fresh(r.value) && r.value.ids == ids && r.value.propositions == propositions
      ensures r.Ok? ==> r.value.puzzle == puzzle && r.value.IsDictionary()
      ensures r.Ok? ==> r.value.cnf == cnf + EncodingClauses(r.value.Values(), puzzle.blockSize)
    {
      var encoding := new SudokuCNF.Wrap(cnf, ids, propositions, puzzle);
      ghost var vs := encoding.Values();
      encoding.EveryCellHasASingleValue();
      encoding.EveryRowContainsUniqueValues();
      encoding.EveryColContainsUniqueValues();
      var err := encoding.EveryBlockContainsUniqueValues();
      if err.Some? {
        return Err(err.value);
      }
      AppendFour(cnf, CellClauses(vs), RowClauses(vs), ColClauses(vs), BlockClauses(vs, puzzle.blockSize));
      return Ok(encoding);
    }

    /** `_at_least_one(ps)`: one clause listing the identifiers in order. */
    method AtLeastOne(ps: seq<Proposition>)
      modifies this
      ensures cnf == old(cnf) + [Ids(ps)]
    {
      var clause := seq(|ps|, i requires 0 <= i < |ps| => ps[i].id);
      cnf := cnf + [clause];
    }

    /** `_at_most_one(ps)`: a clause `[-p.id, -q.id]` per pair, as `itertools.combinations` lists them. */
    method AtMostOne(ps: seq<Proposition>)
      modifies this
      ensures cnf == old(cnf) + AtMostOneClauses(ps)
    {
      for i := 0 to |ps|
        invariant cnf == old(cnf) + PairsUpTo(ps, i)
      {
        for j := i + 1 to |ps|
          invariant cnf == old(cnf) + PairsUpTo(ps, i) + PairRow(ps, i)[..j - i - 1]
        {
          assert PairRow(ps, i)[..j - i] == PairRow(ps, i)[..j - i - 1] + [[-ps[i].id, -ps[j].id]];
          cnf := cnf + [[-ps[i].id, -ps[j].id]];
        }
        assert PairRow(ps, i)[..|ps| - i - 1] == PairRow(ps, i);
      }
    }

    /** `_exactly_one(ps)`: the at-most-one clauses, then the at-least-one clause. */
    method ExactlyOne(ps: seq<Proposition>)
      modifies this
      ensures cnf == old(cnf) + ExactlyOneClauses(ps)
    {
      AtMostOne(ps);
      AtLeastOne(ps);
    }

    /** `_every_cell_has_a_single_value()`: exactly one value per cell coordinates. */
    method EveryCellHasASingleValue()
      requires IsDictionary()
      modifies this
      ensures cnf == old(cnf) + CellClauses(Values())
    {
      AllExactlyOne(Groups(Values(), CellKey));
    }

    /** `_every_row_contains_unique_values()`: at most one proposition per (row, value). */
    method EveryRowContainsUniqueValues()
      requires IsDictionary()
      modifies this
      ensures cnf == old(cnf) + RowClauses(Values())
    {
      AllAtMostOne(Groups(Values(), RowKey));
    }

    /** `_every_col_contains_unique_values()`: at most one proposition per (column, value). */
    method EveryColContainsUniqueValues()
      requires IsDictionary()
      modifies this
      ensures cnf == old(cnf) + ColClauses(Values())
    {
      AllAtMostOne(Groups(Values(), ColKey));
    }

    /** `_every_block_contains_unique_values()`: at most one proposition per (block, value). */
    method EveryBlockContainsUniqueValues() returns (err: Option<Error>)
      requires IsDictionary() && puzzle.Valid()
      modifies this
      ensures err.None? <==> puzzle.blockSize > 0 || |ids| == 0
      ensures err.Some? ==> err.value == ZeroDivisionError && cnf == old(cnf)
      ensures err.None? ==> cnf == old(cnf) + BlockClauses(Values(), puzzle.blockSize)
    {
      var vs := Values();
      if |vs| == 0 {
        return None;
      }
      if puzzle.blockSize == 0 {
        return Some(ZeroDivisionError);
      }
      AllAtMostOne(Groups(vs, BlockKey(puzzle.blockSize)));
      return None;
    }

    /** The loop of `_every_cell_has_a_single_value`: `_exactly_one` on each group in turn. */
    method AllExactlyOne(groups: seq<seq<Proposition>>)
      modifies this
      ensures cnf == old(cnf) + EachExactlyOne(groups)
    {
      for i := 0 to |groups|
        invariant cnf == old(cnf) + EachExactlyOne(groups[..i])
      {
        assert groups[..i + 1][..i] == groups[..i];
        ExactlyOne(groups[i]);
      }
      assert groups[..|groups|] == groups;
    }

    /** The loop the three at-most-one groups share: `_at_most_one` on each group in turn. */
    method AllAtMostOne(groups: seq<seq<Proposition>>)
      modifies this
      ensures cnf == old(cnf) + EachAtMostOne(groups)
    {
      for i := 0 to |groups|
        invariant cnf == old(cnf) + EachAtMostOne(groups[..i])
      {
        assert groups[..i + 1][..i] == groups[..i];
        AtMostOne(groups[i]);
      }
      assert groups[..|groups|] == groups;
    }

    /**
     * `decode(results)`: the non-negative identifiers name the true
     * propositions; each one's value is written into its cell of a copy of
     * the puzzle. The puzzle and the formula are left alone.
     */
    method Decode(results: seq<int>) returns (r: Result<SudokuGrid, Error>)
      requires puzzle.Valid()
      ensures r.Ok? <==> DecodeSpec(puzzle.ToList(), puzzle.size, propositions, results).Ok?
      ensures r.Err? ==> r.error == DecodeSpec(puzzle.ToList(), puzzle.size, propositions, results).error
      ensures r.Ok? ==> fresh(r.value) && fresh(r.value.cells) && r.value.Valid() && r.value.size == puzzle.size
      ensures r.Ok? ==> r.value.ToList() == DecodeSpec(puzzle.ToList(), puzzle.size, propositions, results).value
    {
      var n := puzzle.size;
      var validIds := NonNegative(results);
      var found := Lookup(propositions, validIds);
      if found.Err? {
        return Err(found.error);
      }
      var ps := found.value;
      var solved := puzzle.Copy();
      for i := 0 to |ps|
        invariant fresh(solved) && fresh(solved.cells) && solved.Valid() && solved.size == n
        invariant Writes(puzzle.ToList(), n, ps) == Writes(solved.ToList(), n, ps[i..])
      {
        var p := ps[i];
        assert ps[i..][1..] == ps[i + 1..];
        var err := solved.Set(p.coords.row, p.coords.col, p.val);
        if err.Some? {
          return Err(err.value);
        }
      }
      return Ok(solved);
    }
  }

  /** The propositions `decode` writes: those the non-negative identifiers name, in order. */
  function TrueNamed(props: map<int, Proposition>, results: seq<int>): seq<Proposition>
    requires Lookup(props, NonNegative(results)).Ok?
  {
    Lookup(props, NonNegative(results)).value
  }

  /** A decoded grid keeps every cell no true proposition names. */
  lemma DecodeKeepsUnnamed(m: Matrix, n: nat, props: map<int, Proposition>, results: seq<int>, r: nat, c: nat)
    requires IsSquare(m, n) && r < n && c < n && DecodeSpec(m, n, props, results).Ok?
    requires forall i :: 0 <= i < |TrueNamed(props, results)| ==>
      (TrueNamed(props, results)[i].coords.row, TrueNamed(props, results)[i].coords.col) != (r, c)
    ensures DecodeSpec(m, n, props, results).value[r][c] == m[r][c]
  {
    WritesKeepUnnamed(m, n, TrueNamed(props, results), r, c);
  }

  /** A named cell of a decoded grid holds the value of the last true proposition naming it. */
  lemma DecodeLastWins(m: Matrix, n: nat, props: map<int, Proposition>, results: seq<int>, i: nat)
    requires IsSquare(m, n) && DecodeSpec(m, n, props, results).Ok? && i < |TrueNamed(props, results)|
    requires var named := TrueNamed(props, results);
      forall j :: i < j < |named| ==> (named[j].coords.row, named[j].coords.col) != (named[i].coords.row, named[i].coords.col)
    ensures var p := TrueNamed(props, results)[i];
      p.coords.row < n && p.coords.col < n && DecodeSpec(m, n, props, results).value[p.coords.row][p.coords.col] == p.val
  {
    WritesLastWins(m, n, TrueNamed(props, results), i);
  }

  /** `decode` fails with `KeyError` exactly when a non-negative identifier is not a proposition. */
  lemma DecodeKeyError(m: Matrix, n: nat, props: map<int, Proposition>, results: seq<int>)
    requires IsSquare(m, n)
    ensures (exists x :: x in results && x >= 0 && x !in props) ==>
      DecodeSpec(m, n, props, results).Err? && DecodeSpec(m, n, props, results).error.KeyError?
    ensures DecodeSpec(m, n, props, results).Err? && DecodeSpec(m, n, props, results).error.KeyError? ==>
      exists x :: x in results && x >= 0 && x !in props
  {
    var ids := NonNegative(results);
    if exists x :: x in results && x >= 0 && x !in props {
      var x :| x in results && x >= 0 && x !in props;
      assert x in ids;
      var i :| 0 <= i < |ids| && ids[i] == x;
    }
    var found := Lookup(props, ids);
    if found.Err? {
      var i :| 0 <= i < |ids| && ids[i] == found.error.key && ids[i] !in props;
      assert ids[i] in ids;
    }
  }
}
