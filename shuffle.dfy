/** The two option shufflers: `shuffleOptions` (Fisher–Yates over caller-given
    draws) and `shuffleOptionsSeeded` (a stable sort of the positions by a
    seeded key). Both rearrange a list of positions `0 .. n - 1`, read the
    options off in that order, and report where the correct option went. */
module Shuffle {

  /** The positions `0 .. n - 1` in order (`options.map((_, i) => i)`). */
  function Range(n: nat): (r: seq<int>)
    ensures |r| == n
    ensures forall k | 0 <= k < n :: r[k] == k
  {
    seq(n, k => k)
  }

  lemma RangeMembers(n: nat, x: int)
    ensures x in multiset(Range(n)) <==> 0 <= x < n
  {
    if 0 <= x < n {
      assert Range(n)[x] == x;
    }
  }

  /** `p` lists every position of a list of length `n` exactly once. */
  ghost predicate IsPermutation(p: seq<int>, n: nat) {
    multiset(p) == multiset(Range(n))
  }

  lemma PermutationInRange(p: seq<int>, n: nat)
    requires IsPermutation(p, n)
    ensures |p| == n && InRange(p, n)
  {
    assert |multiset(p)| == |multiset(Range(n))|;
    forall k | 0 <= k < |p|
      ensures 0 <= p[k] < n
    {
      assert p[k] in multiset(p);
      RangeMembers(n, p[k]);
    }
  }

  /** Every entry of `p` is a position of a list of length `n`. */
  predicate InRange(p: seq<int>, n: nat) {
    forall k | 0 <= k < |p| :: 0 <= p[k] < n
  }

  /** The options read off in the order `p` lists their positions
      (`indices.map(i => options[i])`). */
  function Permute<T>(options: seq<T>, p: seq<int>): (r: seq<T>)
    requires InRange(p, |options|)
    ensures |r| == |p|
    ensures forall k | 0 <= k < |p| :: r[k] == options[p[k]]
  {
    if p == [] then [] else [options[p[0]]] + Permute(options, p[1..])
  }

  lemma {:induction false} PermuteAppend<T>(options: seq<T>, p: seq<int>, q: seq<int>)
    requires InRange(p, |options|) && InRange(q, |options|)
    ensures InRange(p + q, |options|)
    ensures Permute(options, p + q) == Permute(options, p) + Permute(options, q)
  {
    if p != [] {
      assert (p + q)[0] == p[0] && (p + q)[1..] == p[1..] + q;
      PermuteAppend(options, p[1..], q);
      assert Permute(options, p + q) == [options[p[0]]] + Permute(options, p[1..] + q);
    } else {
      assert p + q == q;
    }
  }

  lemma RemoveSame(p: seq<int>, q: seq<int>, k: nat)
    requires multiset(p) == multiset(q) && p != [] && k < |q| && q[k] == p[0]
    ensures multiset(p[1..]) == multiset(q[..k] + q[k + 1..])
  {
    assert p == [p[0]] + p[1..];
    assert q == q[..k] + [q[k]] + q[k + 1..];
    assert multiset(p[1..]) == multiset(p) - multiset{p[0]};
    assert multiset(q[..k] + q[k + 1..]) == multiset(q) - multiset{q[k]};
  }

  lemma MultisetSplice<T>(a: seq<T>, b: seq<T>, x: T)
    ensures multiset(a + ([x] + b)) == multiset{x} + multiset(a + b)
  {
  }

  /** Taking one position out of `q` takes its option out of the result. */
  lemma PermuteSplice<T>(options: seq<T>, q: seq<int>, k: nat)
    requires InRange(q, |options|) && k < |q|
    ensures InRange(q[..k] + q[k + 1..], |options|)
    ensures multiset(Permute(options, q))
            == multiset{options[q[k]]} + multiset(Permute(options, q[..k] + q[k + 1..]))
  {
    var front, back := q[..k], q[k + 1..];
    assert q == front + ([q[k]] + back);
    assert InRange(front, |options|) && InRange(back, |options|);
    PermuteAppend(options, front, [q[k]] + back);
    PermuteAppend(options, front, back);
    var pf, pb := Permute(options, front), Permute(options, back);
    assert Permute(options, [q[k]] + back) == [options[q[k]]] + pb;
    MultisetSplice(pf, pb, options[q[k]]);
  }

  /** Reading the options off two lists of positions with the same elements
      gives two lists of options with the same elements. */
  lemma {:induction false} PermuteSameMultiset<T>(options: seq<T>, p: seq<int>, q: seq<int>)
    requires InRange(p, |options|) && InRange(q, |options|)
    requires multiset(p) == multiset(q)
    ensures multiset(Permute(options, p)) == multiset(Permute(options, q))
  {
    if p == [] {
      assert |q| == |multiset(q)| == 0;
    } else {
      assert p[0] in multiset(q);
      var k :| 0 <= k < |q| && q[k] == p[0];
      RemoveSame(p, q, k);
      PermuteSplice(options, q, k);
      PermuteSplice(options, p, 0);
      assert p[..0] + p[1..] == p[1..];
      PermuteSameMultiset(options, p[1..], q[..k] + q[k + 1..]);
    }
  }

  /** `indexOf` / `findIndex`: the first position holding `x`, or -1. */
  function IndexOf(s: seq<int>, x: int): (r: int)
    ensures -1 <= r < |s|
    ensures r == -1 <==> x !in s
    ensures 0 <= r ==> s[r] == x && x !in s[..r]
  {
    if s == [] then -1
    else if s[0] == x then 0
    else
      var k := IndexOf(s[1..], x);
      assert x in s[1..] ==> x in s;
      if k == -1 then -1
      else
        assert s[..k + 1] == [s[0]] + s[1..][..k];
        k + 1
  }

  /** What both shufflers promise about their result, given that the order
      they produce is a permutation of the positions: the options are
      rearranged, none is lost or repeated, and `newCorrectIndex` points at the
      option `correctIndex` pointed at, or is -1 when `correctIndex` is not a
      position. */
  lemma PermutationTracks(options: seq<string>, p: seq<int>, correctIndex: int)
    requires IsPermutation(p, |options|)
    ensures InRange(p, |options|)
    ensures |Permute(options, p)| == |options|
    ensures multiset(Permute(options, p)) == multiset(options)
    ensures 0 <= correctIndex < |options| ==>
              0 <= IndexOf(p, correctIndex) < |options|
              && Permute(options, p)[IndexOf(p, correctIndex)] == options[correctIndex]
    ensures !(0 <= correctIndex < |options|) ==> IndexOf(p, correctIndex) == -1
  {
    var n := |options|;
    PermutationInRange(p, n);
    PermuteSameMultiset(options, p, Range(n));
    assert Permute(options, Range(n)) == options;
    RangeMembers(n, correctIndex);
    assert correctIndex in p <==> correctIndex in multiset(p);
  }

  /** `p` with the entries at `i` and `j` exchanged
      (`[indices[i], indices[j]] = [indices[j], indices[i]]`). */
  function Swap(p: seq<int>, i: nat, j: nat): (r: seq<int>)
    requires i < |p| && j < |p|
    ensures |r| == |p| && multiset(r) == multiset(p)
    ensures r[i] == p[j] && r[j] == p[i]
    ensures forall k | 0 <= k < |p| && k != i && k != j :: r[k] == p[k]
  {
    var q := p[i := p[j]];
    assert multiset(q) == multiset(p) - multiset{p[i]} + multiset{p[j]};
    q[j := p[i]]
  }

  /** The draws for the rounds `1 .. i` exist, and the one for round `k` lies
      in `[0, k]`, as `Math.floor(Math.random() * (k + 1))` does. */
  predicate DrawsFit(draws: seq<nat>, i: int) {
    i < |draws| && forall k | 0 < k <= i :: draws[k] <= k
  }

  /** The Fisher–Yates rounds `i`, `i - 1`, …, `1` applied to `p`, the round
      with loop index `k` swapping positions `k` and `draws[k]`. */
  function SwapRounds(p: seq<int>, draws: seq<nat>, i: int): (r: seq<int>)
    requires i < |p| && DrawsFit(draws, i)
    ensures multiset(r) == multiset(p)
    decreases i
  {
    if i <= 0 then p else SwapRounds(Swap(p, i, draws[i]), draws, i - 1)
  }

  lemma SwapRoundsStep(p: seq<int>, q: seq<int>, draws: seq<nat>, i: int, next: int, target: seq<int>)
    requires 0 < i < |p| && next == i - 1 && DrawsFit(draws, i) && q == Swap(p, i, draws[i])
    requires SwapRounds(p, draws, i) == target
    ensures DrawsFit(draws, next)
    ensures SwapRounds(q, draws, next) == target
  {
  }

  /** The order `shuffleOptions` leaves the positions in, given its draws: a
      permutation of `0 .. n - 1` whatever the draws are. */
  function FisherYates(draws: seq<nat>, n: nat): (r: seq<int>)
    requires |draws| == n && DrawsFit(draws, n - 1)
    ensures IsPermutation(r, n) && |r| == n && InRange(r, n)
  {
    var r := SwapRounds(Range(n), draws, n - 1);
    PermutationInRange(r, n);
    r
  }

  /** One Fisher–Yates round on the array itself. */
  method SwapInPlace(a: array<int>, i: nat, j: nat)
    requires i < a.Length && j < a.Length
    modifies a
    ensures a[..] == Swap(old(a[..]), i, j)
  {
    a[i], a[j] := a[j], a[i];
  }

  /** `shuffleOptions`: Fisher–Yates on the positions. `Math.random()` is
      replaced by `draws`: in the round whose loop index is `i` the swap
      partner is `draws[i]`, which lies in `[0, i]` as
      `Math.floor(Math.random() * (i + 1))` does. `draws[0]` is never used. */
  method ShuffleOptions(options: seq<string>, correctIndex: int, draws: seq<nat>)
    returns (shuffledOptions: seq<string>, newCorrectIndex: int)
    requires |draws| == |options| && DrawsFit(draws, |draws| - 1)
    ensures |shuffledOptions| == |options|
    ensures multiset(shuffledOptions) == multiset(options)
    ensures 0 <= correctIndex < |options| ==>
              0 <= newCorrectIndex < |options|
              && shuffledOptions[newCorrectIndex] == options[correctIndex]
    ensures !(0 <= correctIndex < |options|) ==> newCorrectIndex == -1
    ensures shuffledOptions == Permute(options, FisherYates(draws, |options|))
    ensures newCorrectIndex == IndexOf(FisherYates(draws, |options|), correctIndex)
  {
    var n := |options|;
    var indices := new int[n](k => k);
    assert indices[..] == Range(n);
    FisherYatesInPlace(indices, draws);
    PermutationTracks(options, indices[..], correctIndex);
    shuffledOptions := Permute(options, indices[..]);
    newCorrectIndex := IndexOf(indices[..], correctIndex);
  }

  /** The loop of `shuffleOptions`, from the last position down to 1, on the
      array of positions. */
  method FisherYatesInPlace(indices: array<int>, draws: seq<nat>)
    requires indices[..] == Range(indices.Length)
    requires |draws| == indices.Length && DrawsFit(draws, |draws| - 1)
    modifies indices
    ensures indices[..] == FisherYates(draws, indices.Length)
  {
    var n := indices.Length;
    ghost var target := FisherYates(draws, n);
    var i := n - 1;
    while i > 0
      invariant -1 <= i < n && DrawsFit(draws, i)
      invariant SwapRounds(indices[..], draws, i) == target
    {
      ghost var before := indices[..];
      SwapInPlace(indices, i, draws[i]);
      var next := i - 1;
      SwapRoundsStep(before, indices[..], draws, i, next, target);
      i := next;
    }
  }

  /** `a.sort - b.sort` orders the entries by key; a stable sort keeps entries
      with equal keys in position order. Together: by key, then by position. */
  predicate Before(key: nat -> real, x: nat, y: nat) {
    key(x) < key(y) || (key(x) == key(y) && x < y)
  }

  /** Every entry of `p` comes `Before` every later one. */
  predicate KeyOrdered(key: nat -> real, p: seq<nat>) {
    forall a, b | 0 <= a < b < |p| :: Before(key, p[a], p[b])
  }

  lemma KeyOrderedTail(key: nat -> real, s: seq<nat>)
    requires s != [] && KeyOrdered(key, s)
    ensures KeyOrdered(key, s[1..])
  {
    forall a, b | 0 <= a < b < |s| - 1
      ensures Before(key, s[1..][a], s[1..][b])
    {
      assert s[1..][a] == s[a + 1] && s[1..][b] == s[b + 1];
    }
  }

  /** Two key-ordered lists with the same elements start alike: neither first
      entry can come `Before` the other. */
  lemma KeyOrderedFirst(key: nat -> real, p: seq<nat>, q: seq<nat>)
    requires p != [] && multiset(p) == multiset(q)
    requires KeyOrdered(key, p) && KeyOrdered(key, q)
    ensures q != [] && p[0] == q[0]
  {
    assert p[0] in multiset(q);
    var k :| 0 <= k < |q| && q[k] == p[0];
    assert q[0] in multiset(p);
    var m :| 0 <= m < |p| && p[m] == q[0];
    if k != 0 {
      assert false;
    }
  }

  lemma RemoveFirst(p: seq<int>, q: seq<int>)
    requires multiset(p) == multiset(q) && p != [] && q != [] && p[0] == q[0]
    ensures multiset(p[1..]) == multiset(q[1..])
  {
    RemoveSame(p, q, 0);
    assert q[..0] + q[1..] == q[1..];
  }

  /** Two key-ordered lists with the same elements are equal: every stable
      sort by key yields the same order. */
  lemma {:induction false} KeyOrderedUnique(key: nat -> real, p: seq<nat>, q: seq<nat>)
    requires multiset(p) == multiset(q)
    requires KeyOrdered(key, p) && KeyOrdered(key, q)
    ensures p == q
  {
    if p == [] {
      assert |q| == |multiset(q)| == 0;
    } else {
      KeyOrderedFirst(key, p, q);
      RemoveFirst(p, q);
      KeyOrderedTail(key, p);
      KeyOrderedTail(key, q);
      KeyOrderedUnique(key, p[1..], q[1..]);
      assert p == [p[0]] + p[1..] && q == [q[0]] + q[1..];
    }
  }

  /** Every entry of `s` comes after `y`. */
  predicate AllAfter(key: nat -> real, y: nat, s: seq<nat>) {
    forall k | 0 <= k < |s| :: Before(key, y, s[k])
  }

  /** Inserts position `x` into a list ahead of the first entry it comes
      `Before`. */
  function InsertByKey(key: nat -> real, x: nat, s: seq<nat>): (r: seq<nat>)
    ensures multiset(r) == multiset(s) + multiset{x}
  {
    if s == [] then [x]
    else if Before(key, x, s[0]) then [x] + s
    else
      assert s == [s[0]] + s[1..];
      [s[0]] + InsertByKey(key, x, s[1..])
  }

  lemma {:induction false} InsertAllAfter(key: nat -> real, y: nat, x: nat, s: seq<nat>)
    requires AllAfter(key, y, s) && Before(key, y, x)
    ensures AllAfter(key, y, InsertByKey(key, x, s))
  {
    if s != [] && !Before(key, x, s[0]) {
      InsertAllAfter(key, y, x, s[1..]);
    }
  }

  /** Inserting a new position into a key-ordered list keeps it key-ordered. */
  lemma {:induction false} InsertKeyOrdered(key: nat -> real, x: nat, s: seq<nat>)
    requires KeyOrdered(key, s) && x !in s
    ensures KeyOrdered(key, InsertByKey(key, x, s))
  {
    if s == [] {
    } else if Before(key, x, s[0]) {
      assert AllAfter(key, x, s);
    } else {
      assert Before(key, s[0], x);
      assert AllAfter(key, s[0], s[1..]);
      InsertAllAfter(key, s[0], x, s[1..]);
      InsertKeyOrdered(key, x, s[1..]);
    }
  }

  /** The order `shuffleOptionsSeeded` puts the positions `0 .. n - 1` in:
      sorted by `key`, equal keys kept in position order. */
  function SortedPositions(key: nat -> real, n: nat): (r: seq<nat>)
    ensures multiset(r) == multiset(Range(n))
    ensures |r| == n && InRange(r, n)
  {
    if n == 0 then []
    else
      assert Range(n) == Range(n - 1) + [n - 1];
      var r := InsertByKey(key, n - 1, SortedPositions(key, n - 1));
      PermutationInRange(r, n);
      r
  }

  /** The sorted positions are a permutation of `0 .. n - 1` in key order. */
  lemma {:induction false} SortedPositionsOrdered(key: nat -> real, n: nat)
    ensures KeyOrdered(key, SortedPositions(key, n))
  {
    if n > 0 {
      var s := SortedPositions(key, n - 1);
      SortedPositionsOrdered(key, n - 1);
      RangeMembers(n - 1, n - 1);
      assert n - 1 !in multiset(s);
      InsertKeyOrdered(key, n - 1, s);
      assert SortedPositions(key, n) == InsertByKey(key, n - 1, s);
    }
  }

  /** Midway through one round of the insertion sort: position `i` sits at
      `j`, the other entries up to `i` are key-ordered and smaller than `i`,
      and those it has already passed have a strictly larger key. */
  predicate Inserting(key: nat -> real, s: seq<nat>, j: nat, i: nat) {
    j <= i < |s| && s[j] == i
    && (forall k | 0 <= k <= i && k != j :: s[k] < i)
    && (forall p, q | 0 <= p < q <= i && p != j && q != j :: Before(key, s[p], s[q]))
    && (forall q | j < q <= i :: key(s[q]) > key(i))
  }

  lemma InsertingStart(key: nat -> real, s: seq<nat>, i: nat)
    requires i < |s| && s[i] == i && KeyOrdered(key, s[..i])
    requires forall k | 0 <= k < i :: s[k] < i
    ensures Inserting(key, s, i, i)
  {
    forall p, q | 0 <= p < q < i
      ensures Before(key, s[p], s[q])
    {
      assert s[..i][p] == s[p] && s[..i][q] == s[q];
    }
  }

  /** Swapping position `i` one place to the left, past a larger key. */
  lemma InsertingStep(key: nat -> real, s: seq<nat>, j: nat, i: nat)
    requires Inserting(key, s, j, i) && 0 < j && key(s[j - 1]) > key(s[j])
    ensures Inserting(key, s[j - 1 := s[j]][j := s[j - 1]], j - 1, i)
  {
  }

  /** Once position `i` meets a key no larger than its own, the round is done. */
  lemma InsertingDone(key: nat -> real, s: seq<nat>, j: nat, i: nat)
    requires Inserting(key, s, j, i) && (j == 0 || key(s[j - 1]) <= key(s[j]))
    ensures KeyOrdered(key, s[..i + 1])
    ensures forall k | 0 <= k <= i :: s[k] <= i
  {
    forall p, q | 0 <= p < q <= i
      ensures Before(key, s[p], s[q])
    {
      if q == j {
        assert Before(key, s[p], s[j - 1]) || p == j - 1;
      }
    }
  }

  /** Swaps the entries at `j - 1` and `j`. */
  method SwapAdjacent(a: array<nat>, j: nat)
    requires 0 < j < a.Length
    modifies a
    ensures a[..] == old(a[..])[j - 1 := old(a[j])][j := old(a[j - 1])]
    ensures multiset(a[..]) == multiset(old(a[..]))
  {
    a[j - 1], a[j] := a[j], a[j - 1];
  }

  /** One round of the insertion sort: the entry at `i` (position `i`, not yet
      moved) travels left past the entries whose key is strictly larger. */
  method InsertLast(a: array<nat>, key: nat -> real, i: nat)
    requires i < a.Length && a[i] == i
    requires KeyOrdered(key, a[..i])
    requires forall k | 0 <= k < i :: a[k] < i
    modifies a
    ensures KeyOrdered(key, a[..i + 1])
    ensures forall k | 0 <= k <= i :: a[k] <= i
    ensures forall k | i < k < a.Length :: a[k] == old(a[k])
    ensures multiset(a[..]) == multiset(old(a[..]))
  {
    var j: nat := i;
    InsertingStart(key, a[..], i);
    while j > 0 && key(a[j - 1]) > key(a[j])
      invariant Inserting(key, a[..], j, i)
      invariant forall k | i < k < a.Length :: a[k] == old(a[k])
      invariant multiset(a[..]) == multiset(old(a[..]))
    {
      InsertingStep(key, a[..], j, i);
      SwapAdjacent(a, j);
      j := j - 1;
    }
    InsertingDone(key, a[..], j, i);
  }

  /** `indices.sort((a, b) => a.sort - b.sort)` on the fresh list of
      positions, done as an insertion sort: an entry moves left past the
      entries whose key is strictly larger, so equal keys keep their order. */
  method SortByKey(a: array<nat>, key: nat -> real)
    requires forall k | 0 <= k < a.Length :: a[k] == k
    modifies a
    ensures KeyOrdered(key, a[..])
    ensures multiset(a[..]) == multiset(old(a[..]))
  {
    for i := 0 to a.Length
      invariant KeyOrdered(key, a[..i])
      invariant forall k | 0 <= k < i :: a[k] < i
      invariant forall k | i <= k < a.Length :: a[k] == k
      invariant multiset(a[..]) == multiset(old(a[..]))
    {
      InsertLast(a, key, i);
    }
    assert a[..a.Length] == a[..];
  }

  /** The sort key of position `i`: the seeded hash of `seed + i * 1000`. The
      sine-based hash itself is the parameter `hash`. */
  function SeededKey(hash: int -> real, seed: int): nat -> real {
    i => hash(seed + i * 1000)
  }

  /** `shuffleOptionsSeeded`. */
  method ShuffleOptionsSeeded(options: seq<string>, correctIndex: int, seed: int, hash: int -> real)
    returns (shuffledOptions: seq<string>, newCorrectIndex: int)
    ensures shuffledOptions == Permute(options, SortedPositions(SeededKey(hash, seed), |options|))
    ensures newCorrectIndex == IndexOf(SortedPositions(SeededKey(hash, seed), |options|), correctIndex)
    ensures |shuffledOptions| == |options|
    ensures multiset(shuffledOptions) == multiset(options)
    ensures 0 <= correctIndex < |options| ==>
              0 <= newCorrectIndex < |options|
              && shuffledOptions[newCorrectIndex] == options[correctIndex]
    ensures !(0 <= correctIndex < |options|) ==> newCorrectIndex == -1
  {
    var n := |options|;
    var key := SeededKey(hash, seed);
    var indices := new nat[n](k => k);
    assert indices[..] == Range(n);
    SortByKey(indices, key);
    ghost var order := SortedPositions(key, n);
    SortedPositionsOrdered(key, n);
    KeyOrderedUnique(key, indices[..], order);
    PermutationTracks(options, indices[..], correctIndex);
    shuffledOptions := Permute(options, indices[..]);
    newCorrectIndex := IndexOf(indices[..], correctIndex);
  }
}
