/** The expense ledger: find the entries at two (or three) distinct
    positions whose sum is 2020 and answer with their product. */
module Ledger {
  import opened Wrappers

  const TARGET: nat := 2020

  /** Strictly increasing positions, `k` of them, all in `[start, n)`: one
      k-element combination of the ledger's positions. */
  predicate IsCombination(c: seq<nat>, start: nat, n: nat, k: nat) {
    && |c| == k
    && (forall i :: 0 <= i < |c| ==> start <= c[i] < n)
    && (forall i, j :: 0 <= i < j < |c| ==> c[i] < c[j])
  }

  function PrependAll(x: nat, cs: seq<seq<nat>>): (r: seq<seq<nat>>)
    ensures |r| == |cs| && forall i :: 0 <= i < |cs| ==> r[i] == [x] + cs[i]
  {
    seq(|cs|, i requires 0 <= i < |cs| => [x] + cs[i])
  }

  /** The k-element combinations of positions in `[start, n)`; the
      enumeration order is not part of the contract (the order of the
      `combinations` crate is not modelled; it matters only for which match
      is reported first). */
  function Combinations(start: nat, n: nat, k: nat): (cs: seq<seq<nat>>)
    ensures forall i :: 0 <= i < |cs| ==> IsCombination(cs[i], start, n, k)
    decreases n - start
  {
    if k == 0 then [[]]
    else if start >= n then []
    else
      var with := PrependAll(start, Combinations(start + 1, n, k - 1));
      var without := Combinations(start + 1, n, k);
      assert forall i :: 0 <= i < |with| ==> IsCombination(with[i], start, n, k);
      with + without
  }

  /** A combination starting at `start` continues with one of the next
      size from `start + 1`. */
  lemma CombinationTail(c: seq<nat>, start: nat, n: nat, k: nat)
    requires IsCombination(c, start, n, k) && k > 0 && c[0] == start
    ensures IsCombination(c[1..], start + 1, n, k - 1)
  {
    var tail := c[1..];
    forall i | 0 <= i < |tail| ensures start + 1 <= tail[i] < n {
      assert c[0] < c[i + 1];
    }
  }

  /** A combination that does not use `start` lies within `[start + 1, n)`. */
  lemma CombinationSkip(c: seq<nat>, start: nat, n: nat, k: nat)
    requires IsCombination(c, start, n, k) && k > 0 && c[0] != start
    ensures IsCombination(c, start + 1, n, k)
  {
    forall i | 0 <= i < |c| ensures start + 1 <= c[i] {
      if i > 0 { assert c[0] < c[i]; }
    }
  }

  lemma PrependAllHas(x: nat, cs: seq<seq<nat>>, t: seq<nat>)
    requires t in cs
    ensures [x] + t in PrependAll(x, cs)
  {
    var idx :| 0 <= idx < |cs| && cs[idx] == t;
    assert PrependAll(x, cs)[idx] == [x] + t;
  }

  /** Every combination is enumerated. */
  lemma {:induction false} CombinationsComplete(c: seq<nat>, start: nat, n: nat, k: nat)
    requires IsCombination(c, start, n, k)
    ensures c in Combinations(start, n, k)
    decreases n - start
  {
    if k > 0 {
      assert start < n by { assert start <= c[0] < n; }
      var rest := Combinations(start + 1, n, k - 1);
      assert Combinations(start, n, k) == PrependAll(start, rest) + Combinations(start + 1, n, k);
      if c[0] == start {
        CombinationTail(c, start, n, k);
        CombinationsComplete(c[1..], start + 1, n, k - 1);
        PrependAllHas(start, rest, c[1..]);
        assert [start] + c[1..] == c;
      } else {
        CombinationSkip(c, start, n, k);
        CombinationsComplete(c, start + 1, n, k);
      }
    }
  }

  predicate InLedger(ledger: seq<nat>, c: seq<nat>) {
    forall i :: 0 <= i < |c| ==> c[i] < |ledger|
  }

  function Sum(ledger: seq<nat>, c: seq<nat>): nat
    requires InLedger(ledger, c)
    decreases |c|
  {
    if c == [] then 0 else ledger[c[0]] + Sum(ledger, c[1..])
  }

  function Product(ledger: seq<nat>, c: seq<nat>): nat
    requires InLedger(ledger, c)
    decreases |c|
  {
    if c == [] then 1 else ledger[c[0]] * Product(ledger, c[1..])
  }

  /** A combination of entries that are each at most `m` sums to at most
      its size times `m`. */
  lemma {:induction false} SumBound(ledger: seq<nat>, c: seq<nat>, m: nat)
    requires InLedger(ledger, c)
    requires forall i :: 0 <= i < |ledger| ==> ledger[i] <= m
    ensures Sum(ledger, c) <= |c| * m
    decreases |c|
  {
    if c != [] {
      SumBound(ledger, c[1..], m);
      assert |c| * m == m + |c[1..]| * m;
    }
  }

  /** The entries are u32 and so is their sum: for pairs and triples of
      entries below 2^32 / 3 the sum stays below 2^32, so neither the
      overflow panic nor a wrapped sum can occur and the unbounded `Sum`
      is the u32 one. */
  lemma SumFitsU32(ledger: seq<nat>, c: seq<nat>)
    requires InLedger(ledger, c) && |c| <= 3
    requires forall i :: 0 <= i < |ledger| ==> ledger[i] <= 0x5555_5555
    ensures Sum(ledger, c) < 0x1_0000_0000
  {
    SumBound(ledger, c, 0x5555_5555);
  }

  /** The loop over the combinations with its early return: the product of
      the first combination whose entries sum to the target, or nothing. */
  function FirstMatch(ledger: seq<nat>, cs: seq<seq<nat>>): (r: Option<nat>)
    requires forall i :: 0 <= i < |cs| ==> InLedger(ledger, cs[i])
    ensures r.None? <==> forall i :: 0 <= i < |cs| ==> Sum(ledger, cs[i]) != TARGET
    ensures r.Some? ==>
      (exists i :: 0 <= i < |cs| && Sum(ledger, cs[i]) == TARGET
        && r.value == Product(ledger, cs[i])
        && forall j :: 0 <= j < i ==> Sum(ledger, cs[j]) != TARGET)
    decreases |cs|
  {
    if cs == [] then None
    else if Sum(ledger, cs[0]) == TARGET then Some(Product(ledger, cs[0]))
    else
      var r := FirstMatch(ledger, cs[1..]);
      assert forall i :: 1 <= i < |cs| ==> cs[i] == cs[1..][i - 1];
      if r.Some? then
        var i :| 0 <= i < |cs[1..]| && Sum(ledger, cs[1..][i]) == TARGET
          && r.value == Product(ledger, cs[1..][i])
          && forall j :: 0 <= j < i ==> Sum(ledger, cs[1..][j]) != TARGET;
        assert Sum(ledger, cs[i + 1]) == TARGET && forall j :: 0 <= j < i + 1 ==> Sum(ledger, cs[j]) != TARGET;
        r
      else r
  }

  /** Search the k-element combinations of the ledger's positions. */
  function Search(ledger: seq<nat>, k: nat): Option<nat> {
    FirstMatch(ledger, Combinations(0, |ledger|, k))
  }

  /** `task_1`: two entries at distinct positions. */
  function Task1(ledger: seq<nat>): Option<nat> {
    Search(ledger, 2)
  }

  /** `task_2`: three entries at distinct positions. */
  function Task2(ledger: seq<nat>): Option<nat> {
    Search(ledger, 3)
  }

  /** The search answers with the product of a matching combination, and
      answers exactly when some combination matches. */
  lemma {:induction false} SearchSpec(ledger: seq<nat>, k: nat)
    ensures Search(ledger, k).Some? ==>
      (exists c :: IsCombination(c, 0, |ledger|, k)
        && Sum(ledger, c) == TARGET && Search(ledger, k).value == Product(ledger, c))
    ensures Search(ledger, k).None? <==>
      forall c :: IsCombination(c, 0, |ledger|, k) ==> Sum(ledger, c) != TARGET
  {
    var cs := Combinations(0, |ledger|, k);
    if Search(ledger, k).None? {
      forall c | IsCombination(c, 0, |ledger|, k) ensures Sum(ledger, c) != TARGET {
        CombinationsComplete(c, 0, |ledger|, k);
      }
    } else {
      var i :| 0 <= i < |cs| && Sum(ledger, cs[i]) == TARGET && Search(ledger, k).value == Product(ledger, cs[i]);
      assert IsCombination(cs[i], 0, |ledger|, k);
    }
  }

  /** Sum and product of a two-position combination. */
  lemma PairSumProduct(ledger: seq<nat>, c: seq<nat>)
    requires |c| == 2 && InLedger(ledger, c)
    ensures Sum(ledger, c) == ledger[c[0]] + ledger[c[1]]
    ensures Product(ledger, c) == (ledger[c[0]] as int) * ledger[c[1]]
  {
    var last := c[1..];
    assert last[1..] == [];
    assert Sum(ledger, last) == ledger[c[1]] + Sum(ledger, []);
    assert Product(ledger, last) == ledger[c[1]] * Product(ledger, []);
  }

  /** Sum and product of a three-position combination. */
  lemma TripleSumProduct(ledger: seq<nat>, c: seq<nat>)
    requires |c| == 3 && InLedger(ledger, c)
    ensures Sum(ledger, c) == ledger[c[0]] + ledger[c[1]] + ledger[c[2]]
    ensures Product(ledger, c) == (ledger[c[0]] as int) * ledger[c[1]] * ledger[c[2]]
  {
    PairSumProduct(ledger, c[1..]);
  }

  /** `task_1` answers `a * b` for two entries at distinct positions summing
      to 2020. */
  lemma Task1Found(ledger: seq<nat>)
    requires Task1(ledger).Some?
    ensures exists i, j ::
      && 0 <= i < j < |ledger|
      && ledger[i] + ledger[j] == TARGET
      && Task1(ledger).value == (ledger[i] as int) * ledger[j]
  {
    SearchSpec(ledger, 2);
    var c :| IsCombination(c, 0, |ledger|, 2) && Sum(ledger, c) == TARGET && Task1(ledger).value == Product(ledger, c);
    PairSumProduct(ledger, c);
    assert c[0] < c[1];
  }

  /** `task_1` answers nothing exactly when no two entries at distinct
      positions sum to 2020. */
  lemma Task1None(ledger: seq<nat>)
    ensures Task1(ledger).None? <==>
      forall i, j :: 0 <= i < j < |ledger| ==> ledger[i] + ledger[j] != TARGET
  {
    if Task1(ledger).Some? {
      Task1Found(ledger);
    } else {
      SearchSpec(ledger, 2);
      forall i, j | 0 <= i < j < |ledger| ensures ledger[i] + ledger[j] != TARGET {
        assert IsCombination([i, j], 0, |ledger|, 2);
        PairSumProduct(ledger, [i, j]);
      }
    }
  }

  /** `task_2` answers `a * b * c` for three entries at distinct positions
      summing to 2020. */
  lemma Task2Found(ledger: seq<nat>)
    requires Task2(ledger).Some?
    ensures exists i, j, l ::
      && 0 <= i < j < l < |ledger|
      && ledger[i] + ledger[j] + ledger[l] == TARGET
      && Task2(ledger).value == (ledger[i] as int) * ledger[j] * ledger[l]
  {
    SearchSpec(ledger, 3);
    var c :| IsCombination(c, 0, |ledger|, 3) && Sum(ledger, c) == TARGET && Task2(ledger).value == Product(ledger, c);
    TripleSumProduct(ledger, c);
    var i, j, l := c[0], c[1], c[2];
    assert 0 <= i < j < l < |ledger|;
    assert ledger[i] + ledger[j] + ledger[l] == TARGET;
    assert Task2(ledger).value == (ledger[i] as int) * ledger[j] * ledger[l];
  }

  /** `task_2` answers nothing exactly when no three entries at distinct
      positions sum to 2020. */
  lemma Task2None(ledger: seq<nat>)
    ensures Task2(ledger).None? <==>
      forall i, j, l :: 0 <= i < j < l < |ledger| ==> ledger[i] + ledger[j] + ledger[l] != TARGET
  {
    if Task2(ledger).Some? {
      Task2Found(ledger);
    } else {
      SearchSpec(ledger, 3);
      forall i, j, l | 0 <= i < j < l < |ledger| ensures ledger[i] + ledger[j] + ledger[l] != TARGET {
        assert IsCombination([i, j, l], 0, |ledger|, 3);
        TripleSumProduct(ledger, [i, j, l]);
      }
    }
  }

  // ---------------------------------------------------------------------
  // The example in the tests

  function ExampleLedger(): seq<nat> {
    [1721, 979, 366, 299, 675, 1456]
  }

  /** 1721 + 299 is the only pair of the example that sums to 2020. */
  lemma ExamplePairs(i: nat, j: nat)
    requires i < j < |ExampleLedger()| && ExampleLedger()[i] + ExampleLedger()[j] == TARGET
    ensures i == 0 && j == 3
  {
  }

  /** `task_1` answers the product of the only pair that sums to 2020. */
  lemma Task1Unique(ledger: seq<nat>, i: nat, j: nat)
    requires i < j < |ledger| && ledger[i] + ledger[j] == TARGET
    requires forall i', j' :: 0 <= i' < j' < |ledger| && ledger[i'] + ledger[j'] == TARGET ==> i' == i && j' == j
    ensures Task1(ledger) == Some((ledger[i] as int) * ledger[j])
  {
    Task1None(ledger);
    Task1Found(ledger);
  }

  /** `task_2` answers the product of the only triple that sums to 2020. */
  lemma Task2Unique(ledger: seq<nat>, i: nat, j: nat, m: nat)
    requires i < j < m < |ledger| && ledger[i] + ledger[j] + ledger[m] == TARGET
    requires forall i', j', m' ::
      0 <= i' < j' < m' < |ledger| && ledger[i'] + ledger[j'] + ledger[m'] == TARGET ==> i' == i && j' == j && m' == m
    ensures Task2(ledger) == Some((ledger[i] as int) * ledger[j] * ledger[m])
  {
    Task2None(ledger);
    Task2Found(ledger);
  }

  lemma ExampleTask1()
    ensures Task1(ExampleLedger()) == Some(514579)
  {
    var l := ExampleLedger();
    forall i, j | 0 <= i < j < |l| && l[i] + l[j] == TARGET ensures i == 0 && j == 3 {
      ExamplePairs(i, j);
    }
    Task1Unique(l, 0, 3);
  }

  /** 979 + 366 + 675 is the only triple of the example that sums to 2020. */
  lemma ExampleTriples(i: nat, j: nat, m: nat)
    requires i < j < m < |ExampleLedger()|
    requires ExampleLedger()[i] + ExampleLedger()[j] + ExampleLedger()[m] == TARGET
    ensures i == 1 && j == 2 && m == 4
  {
  }

  lemma ExampleTask2()
    ensures Task2(ExampleLedger()) == Some(241861950)
  {
    var l := ExampleLedger();
    forall i, j, m | 0 <= i < j < m < |l| && l[i] + l[j] + l[m] == TARGET ensures i == 1 && j == 2 && m == 4 {
      ExampleTriples(i, j, m);
    }
    Task2Unique(l, 1, 2, 4);
  }

}
