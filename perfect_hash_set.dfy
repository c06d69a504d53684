/** The two-level static perfect-hash set of perfect_hashing/main.cpp: a
    FixedSet routes each key to one of n buckets, and each Bucket stores its
    keys collision-free in |keys|^2 optional cells. */
module PerfectHashSet {
  import opened Optionals
  import opened HashFunctions

  /** kMaxSizeRatio: the top-level hash is accepted when the squared bucket
      sizes sum to at most this multiple of the key count. */
  const MaxSizeRatio: int := 2

  /** No false positives: every occupied cell holds one of the keys, at the
      cell its own hash selects. */
  ghost predicate CellsSound(cells: seq<Option<int>>, h: LinearHash, keys: seq<int>)
    requires h.modulus > 0
  {
    forall i :: 0 <= i < |cells| && cells[i].Some? ==>
      cells[i].value in keys && Slot(h, cells[i].value, |cells|) == i
  }

  /** No false negatives: every key sits in the cell its hash selects. */
  ghost predicate CellsComplete(cells: seq<Option<int>>, h: LinearHash, keys: seq<int>)
    requires h.modulus > 0
  {
    forall k :: k in keys ==> |cells| > 0 && cells[Slot(h, k, |cells|)] == Some(k)
  }

  /** The second-level table: |Keys|^2 cells filled through a hash that is
      injective on the bucket's keys. */
  class Bucket {
    var cells: seq<Option<int>>
    var hash: LinearHash
    /** The keys routed to this bucket. */
    ghost var Keys: seq<int>

    ghost predicate Valid()
      reads this
    {
      hash.modulus > 0 &&
      |cells| == |Keys| * |Keys| &&
      CellsSound(cells, hash, Keys) &&
      CellsComplete(cells, hash, Keys)
    }

    constructor ()
      ensures Valid() && Keys == [] && cells == [] && hash == DefaultHash()
    {
      cells := [];
      hash := DefaultHash();
      Keys := [];
    }

    /** Bucket::Initialize: an empty list leaves the bucket empty; otherwise
        the first draw from position start on passing the bucket-level test
        becomes the hash and the cells are filled. Running out of draws is the
        model's construction failure. */
    method Initialize(numbers: seq<int>, draws: seq<LinearHash>, start: nat) returns (ok: bool, next: nat)
      requires Valid() && Keys == [] && start <= |draws|
      requires forall k {:trigger draws[k]} :: 0 <= k < |draws| ==> IsRandomDraw(draws[k])
      modifies this
      ensures Valid() && start <= next <= |draws|
      ensures ok ==> Keys == numbers && NoDuplicates(numbers)
      ensures ok && numbers != [] ==> InjectiveOn(numbers, hash, |numbers|)
      ensures numbers == [] ==> ok && next == start
      ensures !ok ==>
        Keys == [] && next == |draws| &&
        forall k :: start <= k < |draws| ==> IsRandomDraw(draws[k]) && !Acceptable(numbers, draws[k], 1, |numbers|)
      ensures BucketDraws(numbers, draws, start) == if ok then Some(next) else None
    {
      if numbers == [] {
        return true, start;
      }
      var found;
      found, next := GenerateHashFunction(numbers, 1, |numbers|, draws, start);
      if found.None? {
        return false, next;
      }
      hash := found.value;
      BucketAcceptance(numbers, hash);
      InjectiveModSquare(numbers, hash, |numbers|);
      InjectiveNoDuplicates(numbers, hash, |numbers|);
      FillBucket(numbers);
      Keys := numbers;
      ok := true;
    }

    /** Bucket::FillBucket: |numbers|^2 empty cells, then each key written at
        its cell. Soundness holds whatever the hash; completeness needs the
        hash to be injective on the keys modulo the cell count. */
    method FillBucket(numbers: seq<int>)
      requires hash.modulus > 0 && cells == []
      modifies this`cells
      ensures |cells| == |numbers| * |numbers|
      ensures CellsSound(cells, hash, numbers)
      ensures 0 < |cells| && InjectiveOn(numbers, hash, |cells|) ==> CellsComplete(cells, hash, numbers)
    {
      var size := |numbers| * |numbers|;
      if |numbers| > 0 {
        MultiplyBounds(|numbers|, |numbers|);
      }
      cells := seq(size, _ => None);
      for j := 0 to |numbers|
        invariant |cells| == size
        invariant CellsSound(cells, hash, numbers)
        invariant 0 < size && InjectiveOn(numbers, hash, size) ==>
          forall k :: 0 <= k < j ==> cells[Slot(hash, numbers[k], size)] == Some(numbers[k])
      {
        var slot := Slot(hash, numbers[j], size);
        cells := cells[slot := Some(numbers[j])];
      }
    }

    /** Bucket::Contains: an empty bucket answers false; otherwise compare
        the key with the content of its cell. */
    function Contains(x: int): (r: bool)
      requires Valid()
      reads this
      ensures r <==> x in Keys
    {
      if |cells| == 0 then false else cells[Slot(hash, x, |cells|)] == Some(x)
    }
  }

  /** The position of the draws after Bucket::Initialize on group g, started
      at position from: unchanged for an empty group, else one past the first
      draw passing the bucket-level test, or None when none does. */
  function BucketDraws(g: seq<int>, draws: seq<LinearHash>, from: nat): (r: Option<nat>)
    requires from <= |draws|
    ensures r.Some? ==> from <= r.value <= |draws|
    ensures g == [] ==> r == Some(from)
  {
    if g == [] then Some(from) else FirstAccepted(Verdicts(g, 1, |g|, draws), from)
  }

  /** The position of the draws after the buckets of groups[index..] are
      initialised in order, each starting where the previous one stopped;
      None as soon as one bucket runs out of draws. */
  function BucketsDraws(groups: seq<seq<int>>, index: nat, draws: seq<LinearHash>, from: nat): (r: Option<nat>)
    requires index <= |groups| && from <= |draws|
    ensures r.Some? ==> from <= r.value <= |draws|
    ensures index == |groups| ==> r == Some(from)
    decreases |groups| - index
  {
    if index == |groups| then Some(from)
    else match BucketDraws(groups[index], draws, from)
      case None => None
      case Some(next) => BucketsDraws(groups, index + 1, draws, next)
  }

  /** The n groups a top-level hash splits the keys into. */
  function Groups(numbers: seq<int>, h: LinearHash): (groups: seq<seq<int>>)
    requires h.modulus > 0
    ensures |groups| == |numbers|
    ensures forall i :: 0 <= i < |numbers| ==> groups[i] == Group(numbers, h, |numbers|, i)
  {
    seq(|numbers|, i requires 0 <= i < |numbers| => Group(numbers, h, |numbers|, i))
  }

  /** The number of draws FixedSet::Initialize consumes from position 0:
      the top-level search, then the buckets of its groups in order; None
      when some search runs out of draws. */
  function ConstructionDraws(numbers: seq<int>, draws: seq<LinearHash>): (r: Option<nat>)
    ensures r.Some? ==> 0 < r.value <= |draws|
  {
    match FirstAccepted(Verdicts(numbers, MaxSizeRatio, 1, draws), 0)
    case None => None
    case Some(t) =>
      FirstAcceptedMeaning(Verdicts(numbers, MaxSizeRatio, 1, draws), 0);
      VerdictsAt(numbers, MaxSizeRatio, 1, draws, t - 1);
      BucketsDraws(Groups(numbers, draws[t - 1]), 0, draws, t)
  }

  /** The groups partition the keys: each key occurs in the group of its own
      slot exactly as often as in the keys, and in no other group. */
  lemma GroupsPartition(numbers: seq<int>, h: LinearHash)
    requires h.modulus > 0
    ensures forall i, x :: 0 <= i < |numbers| ==>
      multiset(Groups(numbers, h)[i])[x] == if Slot(h, x, |numbers|) == i then multiset(numbers)[x] else 0
  {
    var n := |numbers|;
    forall i, x | 0 <= i < n
      ensures multiset(Groups(numbers, h)[i])[x] == if Slot(h, x, n) == i then multiset(numbers)[x] else 0
    {
      GroupMultiplicity(numbers, h, n, i, x);
    }
  }

  /** Once the top-level search stops at position t, the rest of the
      construction is the bucket loop over the groups of draw t - 1. */
  lemma ConstructionAfterTopLevel(numbers: seq<int>, draws: seq<LinearHash>, t: nat)
    requires FirstAccepted(Verdicts(numbers, MaxSizeRatio, 1, draws), 0) == Some(t)
    ensures 0 < t <= |draws| && draws[t - 1].modulus > 0
    ensures ConstructionDraws(numbers, draws) == BucketsDraws(Groups(numbers, draws[t - 1]), 0, draws, t)
  {
    FirstAcceptedMeaning(Verdicts(numbers, MaxSizeRatio, 1, draws), 0);
    VerdictsAt(numbers, MaxSizeRatio, 1, draws, t - 1);
  }

  /** The number of cells of all the buckets together. */
  ghost function TotalCells(bs: seq<Bucket>): int
    reads bs
  {
    if bs == [] then 0 else TotalCells(bs[..|bs| - 1]) + |bs[|bs| - 1].cells|
  }

  lemma {:induction false} TotalCellsOfSquares(bs: seq<Bucket>, t: seq<int>)
    requires |bs| == |t|
    requires forall i :: 0 <= i < |bs| ==> |bs[i].cells| == t[i] * t[i]
    ensures TotalCells(bs) == SquaredSizesSum(t)
  {
    if bs != [] {
      TotalCellsOfSquares(bs[..|bs| - 1], t[..|t| - 1]);
    }
  }

  /** Buckets built from the groups of an accepted top-level hash have at
      most MaxSizeRatio * n cells in total. */
  lemma CellsWithinBound(bs: seq<Bucket>, numbers: seq<int>, h: LinearHash, groups: seq<seq<int>>)
    requires h.modulus > 0 && |bs| == |numbers| == |groups|
    requires Acceptable(numbers, h, 2, 1)
    requires forall i :: 0 <= i < |groups| ==> groups[i] == Group(numbers, h, |numbers|, i)
    requires forall i :: 0 <= i < |bs| ==> bs[i].Valid() && bs[i].Keys == groups[i]
    ensures TotalCells(bs) <= 2 * |numbers|
  {
    var n := |numbers|;
    var sizes := Tally(numbers, h, n, n);
    forall i | 0 <= i < n ensures |bs[i].cells| == sizes[i] * sizes[i] {
      assert sizes[i] == |bs[i].Keys|;
    }
    TotalCellsOfSquares(bs, sizes);
    assert n * 1 == n;
  }

  /** vector<Bucket>::resize(n) on an empty vector: n distinct
      default-constructed buckets. */
  method NewBuckets(n: nat) returns (bs: seq<Bucket>)
    ensures |bs| == n
    ensures forall i :: 0 <= i < n ==> fresh(bs[i]) && bs[i].Valid() && bs[i].Keys == []
    ensures forall i, j :: 0 <= i < j < n ==> bs[i] != bs[j]
  {
    bs := [];
    while |bs| < n
      invariant |bs| <= n
      invariant forall i :: 0 <= i < |bs| ==> fresh(bs[i]) && bs[i].Valid() && bs[i].Keys == []
      invariant forall i, j :: 0 <= i < j < |bs| ==> bs[i] != bs[j]
    {
      var b := new Bucket();
      bs := bs + [b];
    }
  }

  /** The loop of FixedSet::Initialize: bucket i is initialised from group
      i, each bucket drawing from where the previous one stopped. */
  method BuildBuckets(bs: seq<Bucket>, groups: seq<seq<int>>, draws: seq<LinearHash>, start: nat)
    returns (ok: bool, next: nat)
    requires |bs| == |groups| && start <= |draws|
    requires forall i :: 0 <= i < |bs| ==> bs[i].Valid() && bs[i].Keys == []
    requires forall i, j :: 0 <= i < j < |bs| ==> bs[i] != bs[j]
    requires forall k {:trigger draws[k]} :: 0 <= k < |draws| ==> IsRandomDraw(draws[k])
    modifies set i | 0 <= i < |bs| :: bs[i]
    ensures start <= next <= |draws|
    ensures !ok ==> next == |draws|
    ensures ok ==> forall i :: 0 <= i < |bs| ==> bs[i].Valid() && bs[i].Keys == groups[i]
    ensures ok ==> forall i :: 0 <= i < |bs| ==> NoDuplicates(groups[i])
    ensures BucketsDraws(groups, 0, draws, start) == if ok then Some(next) else None
  {
    next := start;
    for index := 0 to |bs|
      invariant start <= next <= |draws|
      invariant forall i :: 0 <= i < |bs| ==> bs[i].Valid()
      invariant forall i :: 0 <= i < index ==> bs[i].Keys == groups[i] && NoDuplicates(groups[i])
      invariant forall i :: index <= i < |bs| ==> bs[i].Keys == []
      invariant BucketsDraws(groups, 0, draws, start) == BucketsDraws(groups, index, draws, next)
    {
      var bucketOk, after := BuildStep(bs, groups, draws, start, index, next);
      if !bucketOk {
        return false, after;
      }
      next := after;
    }
    ok := true;
  }

  /** One iteration of BuildBuckets: initialise bucket index from group
      index, starting at draw position next. */
  method BuildStep(bs: seq<Bucket>, groups: seq<seq<int>>, draws: seq<LinearHash>, start: nat,
                   index: nat, next: nat) returns (ok: bool, after: nat)
    requires |bs| == |groups| && index < |bs| && start <= next <= |draws|
    requires forall i, j :: 0 <= i < j < |bs| ==> bs[i] != bs[j]
    requires forall k {:trigger draws[k]} :: 0 <= k < |draws| ==> IsRandomDraw(draws[k])
    requires forall i :: 0 <= i < |bs| ==> bs[i].Valid()
    requires forall i :: 0 <= i < index ==> bs[i].Keys == groups[i] && NoDuplicates(groups[i])
    requires forall i :: index <= i < |bs| ==> bs[i].Keys == []
    requires BucketsDraws(groups, 0, draws, start) == BucketsDraws(groups, index, draws, next)
    modifies bs[index]
    ensures next <= after <= |draws|
    ensures !ok ==> after == |draws| && BucketsDraws(groups, 0, draws, start) == None
    ensures ok ==> forall i :: 0 <= i < |bs| ==> bs[i].Valid()
    ensures ok ==> forall i :: 0 <= i <= index ==> bs[i].Keys == groups[i] && NoDuplicates(groups[i])
    ensures ok ==> forall i :: index < i < |bs| ==> bs[i].Keys == []
    ensures ok ==> BucketsDraws(groups, 0, draws, start) == BucketsDraws(groups, index + 1, draws, after)
  {
    assert forall i :: 0 <= i < |bs| && i != index ==> bs[i] != bs[index];
    ok, after := bs[index].Initialize(groups[index], draws, next);
  }

  /** When every group is free of repeated keys, so is the whole input: all
      occurrences of a key land in the same group. */
  lemma GroupsWithoutDuplicates(numbers: seq<int>, h: LinearHash, groups: seq<seq<int>>)
    requires h.modulus > 0 && |groups| == |numbers|
    requires forall i :: 0 <= i < |groups| ==> groups[i] == Group(numbers, h, |numbers|, i)
    requires forall i :: 0 <= i < |groups| ==> NoDuplicates(groups[i])
    ensures NoDuplicates(numbers)
  {
    var n := |numbers|;
    forall x ensures multiset(numbers)[x] <= 1 {
      if n > 0 {
        var i := Slot(h, x, n);
        GroupMultiplicity(numbers, h, n, i, x);
        assert multiset(groups[i])[x] <= 1;
      }
    }
  }

  /** The top-level table: n buckets, where n is the number of keys, and a
      hash whose bucket sizes have a sum of squares of at most
      MaxSizeRatio * n. */
  class FixedSet {
    var hash: LinearHash
    var buckets: seq<Bucket>
    ghost var Elements: seq<int>

    ghost predicate Valid()
      reads this, buckets
    {
      hash.modulus > 0 &&
      |buckets| == |Elements| &&
      (forall i :: 0 <= i < |buckets| ==>
        buckets[i].Valid() && buckets[i].Keys == Group(Elements, hash, |buckets|, i)) &&
      TotalCells(buckets) <= MaxSizeRatio * |Elements|
    }

    constructor ()
      ensures Valid() && buckets == [] && Elements == [] && hash == DefaultHash()
    {
      hash := DefaultHash();
      buckets := [];
      Elements := [];
    }

    /** FixedSet::Initialize: choose the top-level hash, group the keys, then
        create n buckets and initialise each from its group. */
    method Initialize(numbers: seq<int>, draws: seq<LinearHash>) returns (ok: bool, used: nat)
      requires Valid() && buckets == []
      requires forall k {:trigger draws[k]} :: 0 <= k < |draws| ==> IsRandomDraw(draws[k])
      modifies this
      ensures Valid() && forall i :: 0 <= i < |buckets| ==> fresh(buckets[i])
      ensures used <= |draws|
      ensures ok ==> Elements == numbers && NoDuplicates(numbers)
      ensures !ok ==> Elements == [] && buckets == [] && used == |draws|
      ensures ConstructionDraws(numbers, draws) == if ok then Some(used) else None
    {
      var found;
      found, used := GenerateHashFunction(numbers, MaxSizeRatio, 1, draws, 0);
      if found.None? {
        return false, used;
      }
      hash := found.value;
      ConstructionAfterTopLevel(numbers, draws, used);
      ok, used := InitializeBuckets(numbers, draws, used);
    }

    /** The rest of FixedSet::Initialize once the top-level hash is chosen:
        group the keys, create n buckets and initialise each from its group,
        reading the draws from position start on. */
    method InitializeBuckets(numbers: seq<int>, draws: seq<LinearHash>, start: nat) returns (ok: bool, next: nat)
      requires hash.modulus > 0 && buckets == [] && Elements == [] && start <= |draws|
      requires Acceptable(numbers, hash, MaxSizeRatio, 1)
      requires forall k {:trigger draws[k]} :: 0 <= k < |draws| ==> IsRandomDraw(draws[k])
      modifies this
      ensures hash == old(hash)
      ensures Valid() && forall i :: 0 <= i < |buckets| ==> fresh(buckets[i])
      ensures start <= next <= |draws|
      ensures ok ==> Elements == numbers && NoDuplicates(numbers)
      ensures !ok ==> Elements == [] && buckets == [] && next == |draws|
      ensures BucketsDraws(Groups(numbers, hash), 0, draws, start) == if ok then Some(next) else None
    {
      var groups := GroupToBuckets(numbers);
      assert groups == Groups(numbers, hash);
      var bs := NewBuckets(|numbers|);
      ok, next := BuildBuckets(bs, groups, draws, start);
      if !ok {
        return;
      }
      buckets, Elements := bs, numbers;
      CellsWithinBound(bs, numbers, hash, groups);
      GroupsWithoutDuplicates(numbers, hash, groups);
    }

    /** FixedSet::GroupToBuckets: n lists, key appended to list
        Slot(hash, key, n) in input order. */
    method GroupToBuckets(numbers: seq<int>) returns (groups: seq<seq<int>>)
      requires hash.modulus > 0
      ensures |groups| == |numbers|
      ensures forall i :: 0 <= i < |groups| ==> groups[i] == Group(numbers, hash, |numbers|, i)
    {
      var n := |numbers|;
      groups := seq(n, _ => []);
      for j := 0 to n
        invariant |groups| == n
        invariant forall i :: 0 <= i < n ==> groups[i] == Group(numbers[..j], hash, n, i)
      {
        var slot := Slot(hash, numbers[j], n);
        assert numbers[..j + 1] == numbers[..j] + [numbers[j]];
        groups := groups[slot := groups[slot] + [numbers[j]]];
        forall i | 0 <= i < n ensures groups[i] == Group(numbers[..j + 1], hash, n, i) {
          GroupSnoc(numbers[..j], numbers[j], hash, n, i);
        }
      }
      assert numbers[..n] == numbers;
    }

    /** The query loop of GetQueryAnswers: one membership answer per query,
        in order. */
    method AnswerQueries(queries: seq<int>) returns (answers: seq<bool>)
      requires Valid() && (|buckets| > 0 || queries == [])
      ensures |answers| == |queries|
      ensures forall i :: 0 <= i < |queries| ==> answers[i] == (queries[i] in Elements)
    {
      answers := [];
      for i := 0 to |queries|
        invariant |answers| == i
        invariant forall k :: 0 <= k < i ==> answers[k] == (queries[k] in Elements)
      {
        answers := answers + [Contains(queries[i])];
      }
    }

    /** FixedSet::Contains: delegate to the bucket the key is routed to. The
        set must be non-empty: the source reduces modulo the bucket count. */
    function Contains(x: int): (r: bool)
      requires Valid() && |buckets| > 0
      reads this, buckets
      ensures r <==> x in Elements
    {
      buckets[Slot(hash, x, |buckets|)].Contains(x)
    }
  }

  /** GetQueryAnswers: build a FixedSet over numbers and answer each query in
      order. */
  method GetQueryAnswers(numbers: seq<int>, queries: seq<int>, draws: seq<LinearHash>)
    returns (ok: bool, answers: seq<bool>, used: nat)
    requires forall k {:trigger draws[k]} :: 0 <= k < |draws| ==> IsRandomDraw(draws[k])
    requires numbers != [] || queries == []
    ensures ok ==> NoDuplicates(numbers)
    ensures ok ==> |answers| == |queries|
    ensures ok ==> forall i :: 0 <= i < |queries| ==> answers[i] == (queries[i] in numbers)
    ensures used <= |draws|
    ensures !ok ==> answers == [] && used == |draws|
    ensures ConstructionDraws(numbers, draws) == if ok then Some(used) else None
  {
    var fixedSet := new FixedSet();
    ok, used := fixedSet.Initialize(numbers, draws);
    if !ok {
      return false, [], used;
    }
    answers := fixedSet.AnswerQueries(queries);
  }
}
