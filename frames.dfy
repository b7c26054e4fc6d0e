/** Row selection on a table whose rows keep their order, as pandas does it:
    `iloc` with an array of positions, `loc` with a boolean mask, and `~`
    on a mask. A table is the sequence of its rows. */
module Frames {

  /** Every position is a row of a table with `n` rows. */
  ghost predicate InBounds(positions: seq<nat>, n: nat) {
    forall i :: 0 <= i < |positions| ==> positions[i] < n
  }

  ghost predicate Distinct(s: seq<nat>) {
    forall i, j :: 0 <= i < j < |s| ==> s[i] != s[j]
  }

  ghost predicate StrictlyIncreasing(s: seq<nat>) {
    forall i, j :: 0 <= i < j < |s| ==> s[i] < s[j]
  }

  /** `p` is an ordering of the row positions 0 .. n - 1, as
      `np.random.permutation(n)` returns. */
  ghost predicate IsPermutation(p: seq<nat>, n: nat) {
    |p| == n && InBounds(p, n) && Distinct(p)
  }

  /** The row positions of a table with `n` rows, in order
      (`np.arange(n)`). */
  function Range(n: nat): (r: seq<nat>)
    ensures |r| == n
    ensures forall i :: 0 <= i < n ==> r[i] == i
  {
    seq(n, i requires 0 <= i < n => i as nat)
  }

  /** The distinct entries of a sequence. */
  ghost function Elements(s: seq<nat>): set<nat> {
    set x | x in s
  }

  /** The row positions of a table with `n` rows. */
  ghost function Positions(n: nat): set<nat> {
    set k | k in Range(n)
  }

  lemma InPositions(n: nat, k: nat)
    ensures k in Positions(n) <==> k < n
  {
    if k < n {
      assert Range(n)[k] == k;
    }
  }

  /** `data.iloc[positions]`: the rows at the given positions, in the order
      the positions are given. */
  function Select<R>(data: seq<R>, positions: seq<nat>): (rows: seq<R>)
    requires InBounds(positions, |data|)
    ensures |rows| == |positions|
    ensures forall i :: 0 <= i < |positions| ==> rows[i] == data[positions[i]]
  {
    seq(|positions|, i requires 0 <= i < |positions| => data[positions[i]])
  }

  /** `~mask`. */
  function Negate(mask: seq<bool>): (r: seq<bool>)
    ensures |r| == |mask|
    ensures forall i :: 0 <= i < |mask| ==> r[i] == !mask[i]
  {
    seq(|mask|, i requires 0 <= i < |mask| => !mask[i])
  }

  /** `data.apply(p)`: the mask of the rows `p` holds of. */
  function MaskOf<R>(data: seq<R>, p: R -> bool): (mask: seq<bool>)
    ensures |mask| == |data|
    ensures forall i :: 0 <= i < |data| ==> mask[i] == p(data[i])
  {
    seq(|data|, i requires 0 <= i < |data| => p(data[i]))
  }

  /** `data.loc[mask]`: the rows whose mask entry is set, in table order.
      It keeps at most the table's rows, and only rows of the table. */
  function Where<R>(data: seq<R>, mask: seq<bool>): (rows: seq<R>)
    requires |mask| == |data|
    ensures |rows| <= |data|
    ensures forall x :: x in rows ==> x in data
    decreases |data|
  {
    if data == [] then []
    else
      var n := |data| - 1;
      assert data == data[..n] + [data[n]];
      Where(data[..n], mask[..n]) + (if mask[n] then [data[n]] else [])
  }

  /** The positions whose mask entry is set, in increasing order. */
  function TrueIndices(mask: seq<bool>): (positions: seq<nat>)
    ensures InBounds(positions, |mask|)
    ensures StrictlyIncreasing(positions)
    ensures forall k :: 0 <= k < |mask| ==> (k in positions <==> mask[k])
    decreases |mask|
  {
    if mask == [] then []
    else
      var n := |mask| - 1;
      TrueIndices(mask[..n]) + (if mask[n] then [n] else [])
  }

  /** Selecting by a mask is selecting the set positions, in order: the
      result is a subsequence of the table. */
  lemma {:induction false} WhereIsSelect<R>(data: seq<R>, mask: seq<bool>)
    requires |mask| == |data|
    ensures Where(data, mask) == Select(data, TrueIndices(mask))
    decreases |data|
  {
    if data != [] {
      var n := |data| - 1;
      WhereIsSelect(data[..n], mask[..n]);
      var front := TrueIndices(mask[..n]);
      assert Select(data, front) == Select(data[..n], front);
      if mask[n] {
        assert Select(data, front + [n]) == Select(data, front) + [data[n]];
      } else {
        assert front + [] == front;
      }
    }
  }

  /** A mask and its negation split the table: every row goes to exactly
      one side, so the two sides together hold the rows of the table. */
  lemma {:induction false} WhereNegateSplits<R>(data: seq<R>, mask: seq<bool>)
    requires |mask| == |data|
    ensures |Where(data, mask)| + |Where(data, Negate(mask))| == |data|
    ensures multiset(Where(data, mask)) + multiset(Where(data, Negate(mask))) == multiset(data)
    decreases |data|
  {
    if data != [] {
      var n := |data| - 1;
      assert Negate(mask)[..n] == Negate(mask[..n]);
      WhereNegateSplits(data[..n], mask[..n]);
      assert data == data[..n] + [data[n]];
    }
  }

  /** How many copies of a row a predicate mask keeps: all of them where
      the predicate holds of the row, none elsewhere. */
  lemma {:induction false} WhereMaskOfCount<R>(data: seq<R>, p: R -> bool, x: R)
    ensures multiset(Where(data, MaskOf(data, p)))[x] == if p(x) then multiset(data)[x] else 0
    decreases |data|
  {
    if data != [] {
      var n := |data| - 1;
      var mask := MaskOf(data, p);
      var front := Where(data[..n], mask[..n]);
      var last := if mask[n] then [data[n]] else [];
      assert Where(data, mask) == front + last;
      assert mask[..n] == MaskOf(data[..n], p);
      WhereMaskOfCount(data[..n], p, x);
      assert multiset(front)[x] == if p(x) then multiset(data[..n])[x] else 0;
      assert multiset(last)[x] == if p(x) then multiset([data[n]])[x] else 0;
      assert data == data[..n] + [data[n]];
    }
  }

  /** A weaker predicate keeps at least the rows a stronger one keeps. */
  lemma WhereMaskOfWeaker<R>(data: seq<R>, stronger: R -> bool, weaker: R -> bool)
    requires forall x :: stronger(x) ==> weaker(x)
    ensures multiset(Where(data, MaskOf(data, stronger))) <= multiset(Where(data, MaskOf(data, weaker)))
  {
    var kept, keptWeaker := multiset(Where(data, MaskOf(data, stronger))), multiset(Where(data, MaskOf(data, weaker)));
    forall x
      ensures kept[x] <= keptWeaker[x]
    {
      WhereMaskOfCount(data, stronger, x);
      WhereMaskOfCount(data, weaker, x);
    }
    MultisetIncluded(kept, keptWeaker);
  }

  lemma MultisetIncluded<R>(a: multiset<R>, b: multiset<R>)
    requires forall x: R :: a[x] <= b[x]
    ensures a <= b
  {
  }

  lemma MultisetEqual<R>(a: multiset<R>, b: multiset<R>)
    requires forall x: R :: a[x] == b[x]
    ensures a == b
  {
  }

  /** What a predicate mask keeps does not depend on the order of the
      table. */
  lemma WhereMaskOfReorder<R>(data: seq<R>, reordered: seq<R>, p: R -> bool)
    requires multiset(reordered) == multiset(data)
    ensures multiset(Where(reordered, MaskOf(reordered, p))) == multiset(Where(data, MaskOf(data, p)))
  {
    var kept, keptReordered := multiset(Where(data, MaskOf(data, p))), multiset(Where(reordered, MaskOf(reordered, p)));
    forall x
      ensures keptReordered[x] == kept[x]
    {
      WhereMaskOfCount(data, p, x);
      WhereMaskOfCount(reordered, p, x);
    }
    MultisetEqual(keptReordered, kept);
  }

  lemma MaskOfAppend<R>(front: seq<R>, back: seq<R>, p: R -> bool)
    ensures MaskOf(front + back, p) == MaskOf(front, p) + MaskOf(back, p)
  {
  }

  lemma NegateAppend(front: seq<bool>, back: seq<bool>)
    ensures Negate(front + back) == Negate(front) + Negate(back)
  {
  }

  /** Selecting from a longer table one mask at a time: the rows kept from
      the front and from the back, in that order. */
  lemma {:induction false} WhereAppend<R>(front: seq<R>, frontMask: seq<bool>, back: seq<R>, backMask: seq<bool>)
    requires |frontMask| == |front| && |backMask| == |back|
    ensures Where(front + back, frontMask + backMask) == Where(front, frontMask) + Where(back, backMask)
    decreases |back|
  {
    if back == [] {
      assert front + back == front;
      assert frontMask + backMask == frontMask;
    } else {
      var n := |back| - 1;
      assert (front + back)[..|front| + n] == front + back[..n];
      assert (frontMask + backMask)[..|front| + n] == frontMask + backMask[..n];
      WhereAppend(front, frontMask, back[..n], backMask[..n]);
    }
  }

  lemma {:induction false} WhereAll<R>(data: seq<R>, mask: seq<bool>)
    requires |mask| == |data|
    requires forall i :: 0 <= i < |mask| ==> mask[i]
    ensures Where(data, mask) == data
    decreases |data|
  {
    if data != [] {
      var n := |data| - 1;
      WhereAll(data[..n], mask[..n]);
      assert data == data[..n] + [data[n]];
    }
  }

  lemma {:induction false} WhereNone<R>(data: seq<R>, mask: seq<bool>)
    requires |mask| == |data|
    requires forall i :: 0 <= i < |mask| ==> !mask[i]
    ensures Where(data, mask) == []
    decreases |data|
  {
    if data != [] {
      var n := |data| - 1;
      WhereNone(data[..n], mask[..n]);
    }
  }

  /** Distinct entries: the set of a sequence is as large as the sequence. */
  lemma {:induction false} DistinctCardinality(s: seq<nat>)
    requires Distinct(s)
    ensures |Elements(s)| == |s|
    decreases |s|
  {
    if s != [] {
      var rest := s[1..];
      assert Distinct(rest) by {
        forall a, b | 0 <= a < b < |rest|
          ensures rest[a] != rest[b]
        {
          assert rest[a] == s[a + 1] && rest[b] == s[b + 1];
        }
      }
      DistinctCardinality(rest);
      assert s == [s[0]] + rest;
      assert Elements(s) == Elements(rest) + {s[0]};
      assert s[0] !in rest by {
        forall i | 0 <= i < |rest|
          ensures rest[i] != s[0]
        {
          assert rest[i] == s[i + 1];
        }
      }
      assert Elements(rest) * {s[0]} == {};
    }
  }

  lemma {:induction false} PositionsCardinality(n: nat)
    ensures |Positions(n)| == n
    decreases n
  {
    if n > 0 {
      PositionsCardinality(n - 1);
      forall k: nat
        ensures k in Positions(n) <==> k in Positions(n - 1) + {n - 1}
      {
        InPositions(n, k);
        InPositions(n - 1, k);
      }
      assert Positions(n) == Positions(n - 1) + {n - 1};
      InPositions(n - 1, n - 1);
    }
  }

  /** The front and the back of a sequence without repetitions share no
      entry. */
  lemma DistinctHalves(s: seq<nat>, cut: nat)
    requires Distinct(s) && cut <= |s|
    ensures Elements(s[cut..]) * Elements(s[..cut]) == {}
  {
    forall x | x in Elements(s[cut..])
      ensures x !in Elements(s[..cut])
    {
      var i :| 0 <= i < |s[cut..]| && s[cut..][i] == x;
      assert s[cut + i] == x;
    }
  }

  /** Pigeonhole: a permutation of 0 .. n - 1 lists every row position. */
  lemma PermutationCovers(p: seq<nat>, n: nat)
    requires IsPermutation(p, n)
    ensures Elements(p) == Positions(n)
  {
    var listed := Elements(p);
    DistinctCardinality(p);
    PositionsCardinality(n);
    forall x | x in listed
      ensures x in Positions(n)
    {
      InPositions(n, x);
    }
    var missing := Positions(n) - listed;
    assert Positions(n) == listed + missing;
    assert listed * missing == {};
    assert |missing| == 0;
  }

  lemma SelectAppend<R>(data: seq<R>, a: seq<nat>, b: seq<nat>)
    requires InBounds(a, |data|) && InBounds(b, |data|)
    ensures Select(data, a + b) == Select(data, a) + Select(data, b)
  {
  }

  /** Taking the last position out of a permutation of 0 .. n leaves a
      permutation of 0 .. n - 1. */
  lemma PermutationRemoveLast(p: seq<nat>, n: nat, j: nat)
    requires IsPermutation(p, n + 1) && j < |p| && p[j] == n
    ensures IsPermutation(p[..j] + p[j + 1..], n)
  {
    var rest := p[..j] + p[j + 1..];
    forall i | 0 <= i < |rest|
      ensures rest[i] < n
    {
      if i < j {
        assert rest[i] == p[i];
      } else {
        assert rest[i] == p[i + 1];
      }
    }
    forall a, b | 0 <= a < b < |rest|
      ensures rest[a] != rest[b]
    {
      var a', b' := if a < j then a else a + 1, if b < j then b else b + 1;
      assert rest[a] == p[a'] && rest[b] == p[b'];
    }
  }

  /** Taking one position out of a selection takes one copy of its row out
      of the result. */
  lemma SelectWithout<R>(data: seq<R>, before: seq<nat>, k: nat, after: seq<nat>)
    requires InBounds(before, |data|) && InBounds(after, |data|) && k < |data|
    ensures multiset(Select(data, before + [k] + after)) == multiset(Select(data, before + after)) + multiset{data[k]}
  {
    SelectAppend(data, before + [k], after);
    SelectAppend(data, before, [k]);
    SelectAppend(data, before, after);
    assert Select(data, [k]) == [data[k]];
  }

  /** Where the last row position sits in a permutation. */
  lemma PositionOfLast(p: seq<nat>, n: nat) returns (j: nat)
    requires IsPermutation(p, n + 1)
    ensures j < |p| && p[j] == n
  {
    PermutationCovers(p, n + 1);
    InPositions(n + 1, n);
    assert n in p;
    j :| 0 <= j < |p| && p[j] == n;
  }

  /** Reordering the rows by a permutation keeps every row, as often as it
      occurs. */
  lemma {:induction false} SelectPermutation<R>(data: seq<R>, p: seq<nat>)
    requires IsPermutation(p, |data|)
    ensures multiset(Select(data, p)) == multiset(data)
    decreases |data|
  {
    if data != [] {
      var n := |data| - 1;
      var j := PositionOfLast(p, n);
      var before, after := p[..j], p[j + 1..];
      assert IsPermutation(before + after, n) by {
        PermutationRemoveLast(p, n, j);
      }
      assert multiset(Select(data, p)) == multiset(Select(data[..n], before + after)) + multiset{data[n]} by {
        assert p == before + [n] + after;
        SelectWithout(data, before, n, after);
        assert Select(data, before + after) == Select(data[..n], before + after);
      }
      SelectPermutation(data[..n], before + after);
      assert data == data[..n] + [data[n]];
    }
  }
}
