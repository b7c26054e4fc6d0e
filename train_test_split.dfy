/** The script's two ways of holding out a test set: `split_train_test`,
    which cuts a shuffled list of row positions, and
    `split_train_test_by_id`, which sends a row to the test set when the
    checksum of its identifier is small enough. A table is the sequence of
    its rows; the shuffle is given rather than drawn. */
module TrainTestSplit {

  import opened Bytes
  import opened Int64Bytes
  import Crc32
  import opened Frames

  // ---------------------------------------------------------------------
  // split_train_test: a cut through a permutation of the row positions
  // ---------------------------------------------------------------------

  /** Python's `int()` on a number: truncation toward zero. */
  function Truncate(x: real): (r: int)
    ensures 0.0 <= x ==> r as real <= x < r as real + 1.0
    ensures x < 0.0 ==> x <= r as real < x + 1.0
  {
    if x >= 0.0 then x.Floor else -((-x).Floor)
  }

  /** How Python reads a slice bound `t` on a sequence of length `n`: a
      negative bound counts back from the end, and the result is clamped
      to the sequence. */
  function SliceBound(t: int, n: nat): (k: nat)
    ensures k <= n
    ensures 0 <= t <= n ==> k == t
  {
    if t < 0 then (if n + t < 0 then 0 else n + t)
    else if t > n then n
    else t
  }

  /** `int(len(data) * test_ratio)`: for a ratio between 0 and 1, a size
      between 0 and `n`. */
  function TestSetSize(n: nat, testRatio: real): (size: int)
    ensures 0.0 <= testRatio <= 1.0 ==> 0 <= size <= n
  {
    var scaled := n as real * testRatio;
    if 0.0 <= testRatio <= 1.0 then
      ScaledBetween(n as real, testRatio);
      FloorBetween(scaled, n);
      Truncate(scaled)
    else
      Truncate(scaled)
  }

  /** `shuffled_indices[test_set_size:]` and `shuffled_indices[:test_set_size]`:
      the training positions, then the test positions. */
  function SplitPositions(shuffled: seq<nat>, n: nat, testRatio: real): (split: (seq<nat>, seq<nat>))
    ensures split.1 + split.0 == shuffled
  {
    var cut := SliceBound(TestSetSize(n, testRatio), |shuffled|);
    (shuffled[cut..], shuffled[..cut])
  }

  /** `split_train_test(data, test_ratio)`, with the permutation that
      `np.random.permutation(len(data))` drew given as `shuffled`: the
      training rows, then the test rows. */
  function SplitTrainTest<R>(data: seq<R>, shuffled: seq<nat>, testRatio: real): (split: (seq<R>, seq<R>))
    requires IsPermutation(shuffled, |data|)
    ensures |split.0| + |split.1| == |data|
  {
    var (trainPositions, testPositions) := SplitPositions(shuffled, |data|, testRatio);
    assert InBounds(trainPositions, |data|) by {
      forall i | 0 <= i < |trainPositions|
        ensures trainPositions[i] < |data|
      {
        assert trainPositions[i] == shuffled[|testPositions| + i];
      }
    }
    (Select(data, trainPositions), Select(data, testPositions))
  }

  /** For a ratio between 0 and 1 the test set holds floor(n * ratio) rows
      and the training set the rest. */
  lemma SplitTrainTestSizes<R>(data: seq<R>, shuffled: seq<nat>, testRatio: real)
    requires IsPermutation(shuffled, |data|)
    requires 0.0 <= testRatio <= 1.0
    ensures |SplitTrainTest(data, shuffled, testRatio).1| == (|data| as real * testRatio).Floor
    ensures |SplitTrainTest(data, shuffled, testRatio).0| == |data| - (|data| as real * testRatio).Floor
  {
    var scaled := |data| as real * testRatio;
    ScaledBetween(|data| as real, testRatio);
    FloorBetween(scaled, |data|);
    assert TestSetSize(|data|, testRatio) == scaled.Floor;
  }

  lemma ScaledBetween(n: real, r: real)
    requires 0.0 <= n && 0.0 <= r <= 1.0
    ensures 0.0 <= n * r <= n
  {
    assert n * r <= n * 1.0;
  }

  lemma FloorBetween(x: real, n: nat)
    requires 0.0 <= x <= n as real
    ensures 0 <= x.Floor <= n
  {
  }

  /** The test positions are the front of the permutation and the training
      positions the rest, in permutation order; no position is on both
      sides and every row position is on one. */
  lemma SplitPositionsPartition(shuffled: seq<nat>, n: nat, testRatio: real)
    requires IsPermutation(shuffled, n)
    ensures var (train, test) := SplitPositions(shuffled, n, testRatio);
      && test == shuffled[..|test|]
      && train == shuffled[|test|..]
      && Elements(train) * Elements(test) == {}
      && Elements(train) + Elements(test) == Positions(n)
      && multiset(train) + multiset(test) == multiset(Range(n))
  {
    var (train, test) := SplitPositions(shuffled, n, testRatio);
    DistinctHalves(shuffled, |test|);
    PermutationCovers(shuffled, n);
    assert Elements(train) + Elements(test) == Elements(shuffled) by {
      assert shuffled == test + train;
    }
    assert Select(Range(n), shuffled) == shuffled;
    SelectPermutation(Range(n), shuffled);
    assert shuffled == test + train;
  }

  /** Together the two sides hold the rows of the table, each as often as
      it occurs there. */
  lemma SplitTrainTestKeepsRows<R>(data: seq<R>, shuffled: seq<nat>, testRatio: real)
    requires IsPermutation(shuffled, |data|)
    ensures var (train, test) := SplitTrainTest(data, shuffled, testRatio);
      multiset(train) + multiset(test) == multiset(data)
  {
    var (trainPositions, testPositions) := SplitPositions(shuffled, |data|, testRatio);
    assert shuffled == testPositions + trainPositions;
    SelectAppend(data, testPositions, trainPositions);
    SelectPermutation(data, shuffled);
  }

  // ---------------------------------------------------------------------
  // split_train_test_by_id: a per-row checksum test
  // ---------------------------------------------------------------------

  const TwoPow32: int := 0x1_0000_0000

  /** `crc32(np.int64(identifier))`: the checksum of the identifier's eight
      bytes, as the unsigned Python integer zlib returns. */
  function IdChecksum(identifier: int64): (c: nat)
    ensures c < TwoPow32
  {
    Crc32.Checksum(ToLeBytes(identifier)) as nat
  }

  /** `test_set_check(identifier, test_ratio)`. Python's `&` binds tighter
      than `<`, so the checksum is masked to 32 bits and then compared;
      `x & 0xffffffff` is `x` modulo 2^32 for every Python integer. */
  function TestSetCheck(identifier: int64, testRatio: real): (inTest: bool)
    ensures testRatio <= 0.0 ==> !inTest
    ensures 1.0 <= testRatio ==> inTest
  {
    var masked := IdChecksum(identifier) % TwoPow32;
    (masked as real) < testRatio * (TwoPow32 as real)
  }

  /** The mask changes nothing: a row is in the test set exactly when the
      checksum of its identifier is below ratio * 2^32. */
  lemma TestSetCheckThreshold(identifier: int64, testRatio: real)
    ensures TestSetCheck(identifier, testRatio) <==> (IdChecksum(identifier) as real) < testRatio * (TwoPow32 as real)
  {
    MaskKeepsChecksum(IdChecksum(identifier));
  }

  lemma MaskKeepsChecksum(c: nat)
    requires c < TwoPow32
    ensures c % TwoPow32 == c
  {
  }

  /** Raising the ratio never takes a row out of the test set. */
  lemma TestSetCheckMonotone(identifier: int64, lower: real, higher: real)
    requires lower <= higher
    requires TestSetCheck(identifier, lower)
    ensures TestSetCheck(identifier, higher)
  {
  }

  /** The identifier 0 (the first row once `reset_index` numbers the rows)
      has checksum 0x6522DF69, above 0.2 * 2^32: it is a training row at
      the ratio the script uses. */
  lemma IdentifierZero()
    ensures IdChecksum(0) == 0x6522_DF69
    ensures !TestSetCheck(0, 0.2)
  {
    Examples();
    assert ToLeBytes(0) == [0, 0, 0, 0, 0, 0, 0, 0];
    Crc32.EightZeroBytes();
  }

  /** `ids.apply(lambda id_: test_set_check(id_, test_ratio))`. */
  function InTestSet<R>(data: seq<R>, testRatio: real, idColumn: R -> int64): (mask: seq<bool>)
    ensures |mask| == |data|
  {
    MaskOf(data, row => TestSetCheck(idColumn(row), testRatio))
  }

  /** `split_train_test_by_id(data, test_ratio, id_column)`: the rows
      outside the mask, then the rows inside it. */
  function SplitTrainTestById<R>(data: seq<R>, testRatio: real, idColumn: R -> int64): (split: (seq<R>, seq<R>))
    ensures |split.0| + |split.1| == |data|
    ensures multiset(split.0) + multiset(split.1) == multiset(data)
  {
    var inTestSet := InTestSet(data, testRatio, idColumn);
    WhereNegateSplits(data, inTestSet);
    (Where(data, Negate(inTestSet)), Where(data, inTestSet))
  }

  /** Every row goes to exactly one side: the test set is the rows whose
      identifier passes the check and the training set the others, each
      side in table order. */
  lemma SplitByIdSides<R>(data: seq<R>, testRatio: real, idColumn: R -> int64)
    ensures var (train, test) := SplitTrainTestById(data, testRatio, idColumn);
      var inTestSet := InTestSet(data, testRatio, idColumn);
      && test == Select(data, TrueIndices(inTestSet))
      && train == Select(data, TrueIndices(Negate(inTestSet)))
      && (forall k :: 0 <= k < |data| ==>
            (k in TrueIndices(inTestSet) <==> TestSetCheck(idColumn(data[k]), testRatio)))
      && (forall k :: 0 <= k < |data| ==>
            (k in TrueIndices(Negate(inTestSet)) <==> !TestSetCheck(idColumn(data[k]), testRatio)))
      && |train| + |test| == |data|
      && multiset(train) + multiset(test) == multiset(data)
  {
    var inTestSet := InTestSet(data, testRatio, idColumn);
    WhereIsSelect(data, inTestSet);
    WhereIsSelect(data, Negate(inTestSet));
    WhereNegateSplits(data, inTestSet);
  }

  /** Every test row passes the check and no training row does. */
  lemma SplitByIdMembers<R>(data: seq<R>, testRatio: real, idColumn: R -> int64)
    ensures var (train, test) := SplitTrainTestById(data, testRatio, idColumn);
      && (forall row :: row in test ==> TestSetCheck(idColumn(row), testRatio))
      && (forall row :: row in train ==> !TestSetCheck(idColumn(row), testRatio))
  {
    var (train, test) := SplitTrainTestById(data, testRatio, idColumn);
    var passes := row => TestSetCheck(idColumn(row), testRatio);
    var fails := row => !TestSetCheck(idColumn(row), testRatio);
    assert Negate(InTestSet(data, testRatio, idColumn)) == MaskOf(data, fails);
    forall row | row in test
      ensures passes(row)
    {
      WhereMaskOfCount(data, passes, row);
    }
    forall row | row in train
      ensures fails(row)
    {
      WhereMaskOfCount(data, fails, row);
    }
  }

  /** Ratio 0 (or less) puts no row in the test set; ratio 1 (or more)
      puts every row there. */
  lemma SplitByIdExtremes<R>(data: seq<R>, testRatio: real, idColumn: R -> int64)
    ensures testRatio <= 0.0 ==> SplitTrainTestById(data, testRatio, idColumn) == (data, [])
    ensures 1.0 <= testRatio ==> SplitTrainTestById(data, testRatio, idColumn) == ([], data)
  {
    var inTestSet := InTestSet(data, testRatio, idColumn);
    if testRatio <= 0.0 {
      WhereNone(data, inTestSet);
      WhereAll(data, Negate(inTestSet));
    } else if 1.0 <= testRatio {
      WhereAll(data, inTestSet);
      WhereNone(data, Negate(inTestSet));
    }
  }

  /** Raising the ratio only moves rows from the training set to the test
      set. */
  lemma SplitByIdMonotone<R>(data: seq<R>, lower: real, higher: real, idColumn: R -> int64)
    requires lower <= higher
    ensures multiset(SplitTrainTestById(data, lower, idColumn).1) <= multiset(SplitTrainTestById(data, higher, idColumn).1)
    ensures multiset(SplitTrainTestById(data, higher, idColumn).0) <= multiset(SplitTrainTestById(data, lower, idColumn).0)
  {
    TrainMask(data, lower, idColumn);
    TrainMask(data, higher, idColumn);
    forall row
      ensures TestSetCheck(idColumn(row), lower) ==> TestSetCheck(idColumn(row), higher)
    {
      if TestSetCheck(idColumn(row), lower) {
        TestSetCheckMonotone(idColumn(row), lower, higher);
      }
    }
    WhereMaskOfWeaker(data, Passes(lower, idColumn), Passes(higher, idColumn));
    WhereMaskOfWeaker(data, Fails(higher, idColumn), Fails(lower, idColumn));
  }

  /** Adding rows never moves an existing row: splitting a table with more
      rows appended gives the old split with the new rows' split
      appended. */
  lemma SplitByIdAppend<R>(data: seq<R>, added: seq<R>, testRatio: real, idColumn: R -> int64)
    ensures var (train, test) := SplitTrainTestById(data, testRatio, idColumn);
      var (addedTrain, addedTest) := SplitTrainTestById(added, testRatio, idColumn);
      SplitTrainTestById(data + added, testRatio, idColumn) == (train + addedTrain, test + addedTest)
  {
    var mask, addedMask := InTestSet(data, testRatio, idColumn), InTestSet(added, testRatio, idColumn);
    TrainMask(data, testRatio, idColumn);
    TrainMask(added, testRatio, idColumn);
    TrainMask(data + added, testRatio, idColumn);
    MaskOfAppend(data, added, Passes(testRatio, idColumn));
    NegateAppend(mask, addedMask);
    WhereAppend(data, mask, added, addedMask);
    WhereAppend(data, Negate(mask), added, Negate(addedMask));
  }

  /** Reordering the table never moves a row: the two sides hold the same
      rows, as often, whatever the order of the table. */
  lemma SplitByIdReorder<R>(data: seq<R>, reordered: seq<R>, testRatio: real, idColumn: R -> int64)
    requires multiset(reordered) == multiset(data)
    ensures multiset(SplitTrainTestById(reordered, testRatio, idColumn).0) == multiset(SplitTrainTestById(data, testRatio, idColumn).0)
    ensures multiset(SplitTrainTestById(reordered, testRatio, idColumn).1) == multiset(SplitTrainTestById(data, testRatio, idColumn).1)
  {
    TrainMask(data, testRatio, idColumn);
    TrainMask(reordered, testRatio, idColumn);
    WhereMaskOfReorder(data, reordered, Passes(testRatio, idColumn));
    WhereMaskOfReorder(data, reordered, Fails(testRatio, idColumn));
  }

  /** The test of a row, as a predicate on rows. */
  function Passes<R>(testRatio: real, idColumn: R -> int64): R -> bool {
    row => TestSetCheck(idColumn(row), testRatio)
  }

  function Fails<R>(testRatio: real, idColumn: R -> int64): R -> bool {
    row => !TestSetCheck(idColumn(row), testRatio)
  }

  /** The two masks of a split, as predicate masks. */
  lemma TrainMask<R>(data: seq<R>, testRatio: real, idColumn: R -> int64)
    ensures InTestSet(data, testRatio, idColumn) == MaskOf(data, Passes(testRatio, idColumn))
    ensures Negate(InTestSet(data, testRatio, idColumn)) == MaskOf(data, Fails(testRatio, idColumn))
  {
  }

  /** The side of a row depends on its identifier alone: rows with equal
      identifiers, in this table or any other, land on the same side. */
  lemma SplitByIdSameIdentifier<R>(data: seq<R>, i: nat, other: seq<R>, j: nat, testRatio: real, idColumn: R -> int64)
    requires i < |data| && j < |other|
    requires idColumn(data[i]) == idColumn(other[j])
    ensures InTestSet(data, testRatio, idColumn)[i] == InTestSet(other, testRatio, idColumn)[j]
  {
  }
}
