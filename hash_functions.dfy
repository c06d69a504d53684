/** The hash functions of the two-level perfect-hash set in
    perfect_hashing/main.cpp: the modular reduction `Mod`, the linear hash
    `(coeff * key + intercept) mod p`, the collision counter used as a load
    oracle, and the generate-and-test search for an acceptable hash. */
module HashFunctions {
  import opened Optionals

  /** kDefaultPrime, the Mersenne prime 2^31 - 1. */
  const DefaultPrime: int := 2147483647

  predicate IsInt32(x: int) {
    -0x8000_0000 <= x < 0x8000_0000
  }

  /** The source's reduction. A non-negative lhs is reduced into [0, rhs);
      a negative lhs lands in [1, rhs], so a negative multiple of rhs gives
      rhs itself rather than 0. */
  function Mod(lhs: int, rhs: int): (r: int)
    requires rhs > 0
    ensures (r - lhs) % rhs == 0
    ensures lhs >= 0 ==> 0 <= r < rhs
    ensures lhs < 0 ==> 1 <= r <= rhs
    ensures r == rhs <==> lhs < 0 && lhs % rhs == 0
  {
    if lhs < 0 then
      NegativeReduction(lhs, rhs);
      rhs - (-lhs) % rhs
    else
      NonNegativeReduction(lhs, rhs);
      lhs % rhs
  }

  lemma NonNegativeReduction(lhs: int, rhs: int)
    requires lhs >= 0 && rhs > 0
    ensures 0 <= lhs % rhs < rhs
    ensures (lhs % rhs - lhs) % rhs == 0
  {
    var q := lhs / rhs;
    assert lhs % rhs - lhs == (-q) * rhs;
    MultipleModZero(-q, rhs);
  }

  lemma NegativeReduction(lhs: int, rhs: int)
    requires lhs < 0 && rhs > 0
    ensures 1 <= rhs - (-lhs) % rhs <= rhs
    ensures (rhs - (-lhs) % rhs - lhs) % rhs == 0
    ensures (-lhs) % rhs == 0 <==> lhs % rhs == 0
  {
    var q, m := (-lhs) / rhs, (-lhs) % rhs;
    assert rhs - m - lhs == (q + 1) * rhs;
    MultipleModZero(q + 1, rhs);
    if m == 0 {
      assert lhs == (-q) * rhs;
      MultipleModZero(-q, rhs);
    } else {
      assert lhs == (-q - 1) * rhs + (rhs - m);
      ModUnique(lhs, rhs, -q - 1, rhs - m);
    }
  }

  /** Euclidean division is unique: a decomposition a == d * m + e with
      0 <= e < m is the quotient and remainder. */
  lemma ModUnique(a: int, m: int, d: int, e: int)
    requires m > 0 && 0 <= e < m && a == d * m + e
    ensures a % m == e && a / m == d
  {
    var q, r := a / m, a % m;
    assert (d - q) * m == r - e;
    MultiplyBounds(d - q, m);
  }

  lemma MultiplyBounds(x: int, m: int)
    requires m > 0
    ensures x >= 1 ==> x * m >= m
    ensures x <= -1 ==> x * m <= -m
  {
    if x >= 1 {
      assert x * m == m + (x - 1) * m;
    } else if x <= -1 {
      assert x * m == -m + (x + 1) * m;
    }
  }

  lemma MultipleModZero(k: int, m: int)
    requires m > 0
    ensures (k * m) % m == 0
  {
    ModUnique(k * m, m, k, 0);
  }

  /** A LinearHashFunction: key |-> Mod(coeff * key + intercept, modulus). */
  datatype LinearHash = LinearHash(coeff: int, intercept: int, modulus: int)

  /** The default-constructed hash: coefficient 1, intercept 0. It maps
      every key in [0, p) to itself, and no random draw equals it, since a
      draw's intercept is never 0. */
  function DefaultHash(): (r: LinearHash)
    ensures r.modulus == DefaultPrime && !IsRandomDraw(r)
    ensures forall key :: 0 <= key < DefaultPrime ==> Apply(r, key) == key
  {
    LinearHash(1, 0, DefaultPrime)
  }

  /** What GenarateRandomHash can return: coeff uniform in [0, p - 1] and
      intercept uniform in [1, p - 1]. */
  predicate IsRandomDraw(h: LinearHash): (r: bool)
    ensures r ==> IsInt32(h.coeff) && IsInt32(h.intercept) && IsInt32(h.modulus) && h.modulus > 0
  {
    h.modulus == DefaultPrime &&
    0 <= h.coeff <= DefaultPrime - 1 &&
    1 <= h.intercept <= DefaultPrime - 1
  }

  /** LinearHashFunction::operator(): the hash value lies in [0, modulus] and
      is congruent to coeff * key + intercept. */
  function Apply(h: LinearHash, key: int): (r: int)
    requires h.modulus > 0
    ensures 0 <= r <= h.modulus
    ensures (r - (key * h.coeff + h.intercept)) % h.modulus == 0
  {
    Mod(key * h.coeff + h.intercept, h.modulus)
  }

  /** The source widens the key to 64 bits before multiplying: for a 32-bit
      key and a drawn hash the affine value cannot overflow int64_t. */
  lemma NoInt64Overflow(h: LinearHash, key: int)
    requires IsRandomDraw(h) && IsInt32(key)
    ensures -0x8000_0000_0000_0000 <= key * h.coeff + h.intercept < 0x8000_0000_0000_0000
  {
    ProductBound(key, h.coeff, 0x8000_0000, 0x8000_0000);
  }

  /** |x| <= X and 0 <= c <= C bound the product x * c by X * C. */
  lemma ProductBound(x: int, c: int, X: int, C: int)
    requires -X <= x <= X && 0 <= c <= C
    ensures -(X * C) <= x * c <= X * C
  {
    NonNegativeProduct(X - x, c);
    NonNegativeProduct(X + x, c);
    NonNegativeProduct(X, C - c);
    assert (X - x) * c == X * c - x * c;
    assert (X + x) * c == X * c + x * c;
    assert X * (C - c) == X * C - X * c;
  }

  lemma NonNegativeProduct(a: int, b: int)
    requires 0 <= a && 0 <= b
    ensures 0 <= a * b
  {
  }

  /** Mod(hash(key), n): the bucket or cell a key is routed to. Because a
      hash value is never negative the index is an ordinary remainder, so it
      never takes the value n. */
  function Slot(h: LinearHash, key: int, n: int): (r: int)
    requires h.modulus > 0 && n > 0
    ensures 0 <= r < n
    ensures r == Apply(h, key) % n
  {
    Mod(Apply(h, key), n)
  }

  /** The keys of s that Slot(h, _, n) routes to index i, in the order of s. */
  function Group(s: seq<int>, h: LinearHash, n: int, i: int): (g: seq<int>)
    requires h.modulus > 0 && n > 0
    ensures forall x :: x in g <==> x in s && Slot(h, x, n) == i
    ensures |g| <= |s|
  {
    if s == [] then []
    else
      var g' := Group(s[..|s| - 1], h, n, i);
      assert s == s[..|s| - 1] + [s[|s| - 1]];
      if Slot(h, s[|s| - 1], n) == i then g' + [s[|s| - 1]] else g'
  }

  /** No slot is shared by two positions of s. */
  ghost predicate InjectiveOn(s: seq<int>, h: LinearHash, n: int)
    requires h.modulus > 0 && n > 0
  {
    forall a, b :: 0 <= a < b < |s| ==> Slot(h, s[a], n) != Slot(h, s[b], n)
  }

  ghost predicate NoDuplicates(s: seq<int>) {
    forall x :: multiset(s)[x] <= 1
  }

  /** The counters CalculateCollisions is to produce: len counters, counter
      i holding how many keys Slot(h, _, n) routes to i. */
  function Tally(s: seq<int>, h: LinearHash, n: int, len: nat): (t: seq<int>)
    requires h.modulus > 0 && (n > 0 || len == 0)
    ensures |t| == len
    ensures forall i :: 0 <= i < len ==> 0 <= t[i] <= |s|
    ensures forall i :: 0 <= n <= i < len ==> t[i] == 0
  {
    assert forall i :: 0 < n <= i ==> Group(s, h, n, i) == [] by {
      forall i | 0 < n <= i ensures Group(s, h, n, i) == [] {
        GroupBeyondRange(s, h, n, i);
      }
    }
    seq(len, i requires 0 <= i < len => |Group(s, h, n, i)|)
  }

  function Sum(s: seq<int>): int {
    if s == [] then 0 else Sum(s[..|s| - 1]) + s[|s| - 1]
  }

  /** CalculateSquaredSizesSum: the inner product of the counters with
      themselves. */
  function SquaredSizesSum(s: seq<int>): (r: int)
    ensures r >= 0
    ensures r == 0 <==> forall i :: 0 <= i < |s| ==> s[i] == 0
  {
    if s == [] then 0
    else
      var x := s[|s| - 1];
      SquareNonNegative(x);
      SquaredSizesSum(s[..|s| - 1]) + x * x
  }

  lemma SquareNonNegative(x: int)
    ensures x * x >= 0
    ensures x * x == 0 <==> x == 0
  {
    if x > 0 {
      NonNegativeProduct(x - 1, x);
    } else if x < 0 {
      NonNegativeProduct(-x - 1, -x);
    }
  }

  /** The exit test of GenerateHashFunction's retry loop. */
  predicate Acceptable(numbers: seq<int>, h: LinearHash, levelMultiplier: int, bucketsMultiplier: nat): (r: bool)
    requires h.modulus > 0
    ensures numbers == [] ==> r
    ensures r ==> |numbers| * levelMultiplier >= 0
  {
    SquaredSizesSum(Tally(numbers, h, |numbers|, |numbers| * bucketsMultiplier))
      <= |numbers| * levelMultiplier
  }

  /** CalculateCollisions: |numbers| * sizeMultiplier counters, but every key
      is counted at its slot modulo |numbers|, so only the first |numbers|
      counters are ever incremented. */
  method CalculateCollisions(numbers: seq<int>, h: LinearHash, sizeMultiplier: nat)
    returns (counter: seq<int>)
    requires h.modulus > 0 && sizeMultiplier >= 1
    ensures counter == Tally(numbers, h, |numbers|, |numbers| * sizeMultiplier)
    ensures Sum(counter) == |numbers|
    ensures forall i :: |numbers| <= i < |counter| ==> counter[i] == 0
  {
    var n := |numbers|;
    var len := n * sizeMultiplier;
    assert n <= len && (n == 0 ==> len == 0) by {
      if n > 0 { MultiplyBounds(sizeMultiplier, n); }
    }
    counter := seq(len, _ => 0);
    for j := 0 to n
      invariant |counter| == len
      invariant forall i :: 0 <= i < len ==> counter[i] == |Group(numbers[..j], h, n, i)|
    {
      var slot := Slot(h, numbers[j], n);
      assert numbers[..j + 1] == numbers[..j] + [numbers[j]];
      counter := counter[slot := counter[slot] + 1];
      forall i | 0 <= i < len ensures counter[i] == |Group(numbers[..j + 1], h, n, i)| {
        GroupSnoc(numbers[..j], numbers[j], h, n, i);
      }
    }
    assert numbers[..n] == numbers;
    assert counter == Tally(numbers, h, n, len);
    if n > 0 {
      SumOfTally(numbers, h, n, len);
    }
  }

  /** GenerateHashFunction: the do-while loop that draws candidates until one
      passes the acceptance test. Randomness is the sequence of draws, read
      from position start on; next is the position after the last draw taken.
      The result is the first acceptable draw, or None when the draws run out. */
  method GenerateHashFunction(numbers: seq<int>, levelMultiplier: int, bucketsMultiplier: nat,
                              draws: seq<LinearHash>, start: nat)
    returns (found: Option<LinearHash>, next: nat)
    requires bucketsMultiplier >= 1 && start <= |draws|
    requires forall k {:trigger draws[k]} :: 0 <= k < |draws| ==> IsRandomDraw(draws[k])
    ensures start <= next <= |draws|
    ensures found.Some? ==>
      start < next && found.value == draws[next - 1] && IsRandomDraw(found.value) &&
      Acceptable(numbers, found.value, levelMultiplier, bucketsMultiplier)
    ensures found.Some? ==>
      forall k :: start <= k < next - 1 ==>
        IsRandomDraw(draws[k]) && !Acceptable(numbers, draws[k], levelMultiplier, bucketsMultiplier)
    ensures found.None? ==>
      next == |draws| &&
      forall k :: start <= k < |draws| ==>
        IsRandomDraw(draws[k]) && !Acceptable(numbers, draws[k], levelMultiplier, bucketsMultiplier)
    ensures FirstAccepted(Verdicts(numbers, levelMultiplier, bucketsMultiplier, draws), start) ==
      if found.Some? then Some(next) else None
  {
    ghost var verdicts := Verdicts(numbers, levelMultiplier, bucketsMultiplier, draws);
    next := start;
    while next < |draws|
      invariant start <= next <= |draws|
      invariant FirstAccepted(verdicts, start) == FirstAccepted(verdicts, next)
    {
      var candidate := draws[next];
      var counter := CalculateCollisions(numbers, candidate, bucketsMultiplier);
      if SquaredSizesSum(counter) <= |numbers| * levelMultiplier {
        VerdictsAt(numbers, levelMultiplier, bucketsMultiplier, draws, next);
        ScanStep(verdicts, next, true);
        SearchMeaning(numbers, levelMultiplier, bucketsMultiplier, draws, start);
        return Some(candidate), next + 1;
      }
      VerdictsAt(numbers, levelMultiplier, bucketsMultiplier, draws, next);
      ScanStep(verdicts, next, false);
      next := next + 1;
    }
    SearchMeaning(numbers, levelMultiplier, bucketsMultiplier, draws, start);
    return None, next;
  }

  /** The verdict of the acceptance test on every draw, in order (a draw
      without a positive modulus is never accepted). */
  function Verdicts(numbers: seq<int>, levelMultiplier: int, bucketsMultiplier: nat,
                    draws: seq<LinearHash>): (v: seq<bool>)
    ensures |v| == |draws|
  {
    if draws == [] then []
    else
      [draws[0].modulus > 0 && Acceptable(numbers, draws[0], levelMultiplier, bucketsMultiplier)] +
      Verdicts(numbers, levelMultiplier, bucketsMultiplier, draws[1..])
  }

  /** Verdict k is the acceptance test on draw k. */
  lemma {:induction false} VerdictsAt(numbers: seq<int>, levelMultiplier: int, bucketsMultiplier: nat,
                                      draws: seq<LinearHash>, k: nat)
    requires k < |draws|
    ensures Verdicts(numbers, levelMultiplier, bucketsMultiplier, draws)[k] ==
      (draws[k].modulus > 0 && Acceptable(numbers, draws[k], levelMultiplier, bucketsMultiplier))
  {
    if k > 0 {
      VerdictsAt(numbers, levelMultiplier, bucketsMultiplier, draws[1..], k - 1);
    }
  }

  /** The draw-until-accepted search as a function of the verdicts, starting
      at position from: one past the first accepted draw (the number of draws
      consumed so far), or None when no draw from there on is accepted. */
  function FirstAccepted(verdicts: seq<bool>, from: nat): (r: Option<nat>)
    requires from <= |verdicts|
    ensures r.Some? ==> from < r.value <= |verdicts|
    decreases |verdicts| - from
  {
    if from == |verdicts| then None
    else if verdicts[from] then Some(from + 1)
    else FirstAccepted(verdicts, from + 1)
  }

  /** One step of the scan: an accepted draw ends it, a rejected one passes
      the search on to the next position. */
  lemma ScanStep(verdicts: seq<bool>, k: nat, accepted: bool)
    requires k < |verdicts| && verdicts[k] == accepted
    ensures FirstAccepted(verdicts, k) == if accepted then Some(k + 1) else FirstAccepted(verdicts, k + 1)
  {
  }

  /** What FirstAccepted finds: the position it stops after is accepted,
      and every position before it is rejected; with None, every position
      from there on is rejected. */
  lemma {:induction false} FirstAcceptedMeaning(verdicts: seq<bool>, from: nat)
    requires from <= |verdicts|
    ensures FirstAccepted(verdicts, from).Some? ==> verdicts[FirstAccepted(verdicts, from).value - 1]
    ensures forall k :: from <= k < (if FirstAccepted(verdicts, from).Some? then FirstAccepted(verdicts, from).value - 1 else |verdicts|) ==>
      !verdicts[k]
    decreases |verdicts| - from
  {
    if from < |verdicts| && !verdicts[from] {
      FirstAcceptedMeaning(verdicts, from + 1);
    }
  }

  /** What the search over random draws finds: the draw it stops after
      passes the acceptance test and every draw before it fails; with None,
      every draw from there on fails. */
  lemma SearchMeaning(numbers: seq<int>, levelMultiplier: int, bucketsMultiplier: nat,
                      draws: seq<LinearHash>, from: nat)
    requires from <= |draws|
    requires forall k {:trigger draws[k]} :: 0 <= k < |draws| ==> IsRandomDraw(draws[k])
    ensures var r := FirstAccepted(Verdicts(numbers, levelMultiplier, bucketsMultiplier, draws), from);
      r.Some? ==>
        from < r.value && IsRandomDraw(draws[r.value - 1]) &&
        Acceptable(numbers, draws[r.value - 1], levelMultiplier, bucketsMultiplier)
    ensures var r := FirstAccepted(Verdicts(numbers, levelMultiplier, bucketsMultiplier, draws), from);
      forall k :: from <= k < (if r.Some? then r.value - 1 else |draws|) ==>
        IsRandomDraw(draws[k]) && !Acceptable(numbers, draws[k], levelMultiplier, bucketsMultiplier)
  {
    var verdicts := Verdicts(numbers, levelMultiplier, bucketsMultiplier, draws);
    FirstAcceptedMeaning(verdicts, from);
    forall k | from <= k < |draws| {
      VerdictsAt(numbers, levelMultiplier, bucketsMultiplier, draws, k);
    }
  }

  /** The first accepted draw is unique: any v with FirstAccepted's two
      properties is FirstAccepted's result. */
  lemma FirstAcceptedUnique(verdicts: seq<bool>, from: nat, v: Option<nat>)
    requires from <= |verdicts|
    requires v.Some? ==> from < v.value <= |verdicts| && verdicts[v.value - 1]
    requires forall k :: from <= k < (if v.Some? then v.value - 1 else |verdicts|) ==> !verdicts[k]
    ensures FirstAccepted(verdicts, from) == v
  {
    FirstAcceptedMeaning(verdicts, from);
  }

  // ---------------------------------------------------------------------
  // Lemmas about the counters and the acceptance test

  lemma GroupSnoc(s: seq<int>, x: int, h: LinearHash, n: int, i: int)
    requires h.modulus > 0 && n > 0
    ensures Group(s + [x], h, n, i) == if Slot(h, x, n) == i then Group(s, h, n, i) + [x] else Group(s, h, n, i)
  {
    assert (s + [x])[..|s|] == s;
  }

  lemma GroupBeyondRange(s: seq<int>, h: LinearHash, n: int, i: int)
    requires h.modulus > 0 && n > 0 && (i < 0 || n <= i)
    ensures Group(s, h, n, i) == []
  {
  }

  lemma {:induction false} SumOfZeros(t: seq<int>)
    requires forall i :: 0 <= i < |t| ==> t[i] == 0
    ensures Sum(t) == 0
  {
    if t != [] {
      SumOfZeros(t[..|t| - 1]);
    }
  }

  lemma {:induction false} SumUpdate(t: seq<int>, k: int, d: int)
    requires 0 <= k < |t|
    ensures Sum(t[k := t[k] + d]) == Sum(t) + d
  {
    var t' := t[k := t[k] + d];
    assert t'[..|t| - 1] == if k == |t| - 1 then t[..|t| - 1] else t[..|t| - 1][k := t[k] + d];
    if k < |t| - 1 {
      SumUpdate(t[..|t| - 1], k, d);
    }
  }

  /** The counters together count every key once. */
  lemma {:induction false} SumOfTally(s: seq<int>, h: LinearHash, n: int, len: nat)
    requires h.modulus > 0 && 0 < n <= len
    ensures Sum(Tally(s, h, n, len)) == |s|
  {
    if s != [] {
      var s' := s[..|s| - 1];
      var k := Slot(h, s[|s| - 1], n);
      SumOfTally(s', h, n, len);
      var t, t' := Tally(s, h, n, len), Tally(s', h, n, len);
      assert t == t'[k := t'[k] + 1];
      SumUpdate(t', k, 1);
    } else {
      SumOfZeros(Tally(s, h, n, len));
    }
  }

  lemma {:induction false} TrailingZeros(t: seq<int>, n: nat)
    requires n <= |t| && forall i :: n <= i < |t| ==> t[i] == 0
    ensures SquaredSizesSum(t) == SquaredSizesSum(t[..n])
  {
    if |t| > n {
      TrailingZeros(t[..|t| - 1], n);
      assert t[..|t| - 1][..n] == t[..n];
    } else {
      assert t[..n] == t;
    }
  }

  /** For counters that are never negative the sum of squares is at least
      the sum, with equality exactly when no counter exceeds 1. */
  lemma {:induction false} SquaresAtLeastSum(t: seq<int>)
    requires forall i :: 0 <= i < |t| ==> t[i] >= 0
    ensures SquaredSizesSum(t) >= Sum(t)
    ensures SquaredSizesSum(t) == Sum(t) <==> forall i :: 0 <= i < |t| ==> t[i] <= 1
  {
    if t != [] {
      var t' := t[..|t| - 1];
      var x := t[|t| - 1];
      SquaresAtLeastSum(t');
      var sq := x * x;
      assert SquaredSizesSum(t) == SquaredSizesSum(t') + sq;
      assert Sum(t) == Sum(t') + x;
      SquareAtLeast(x);
      if forall i :: 0 <= i < |t| ==> t[i] <= 1 {
        assert forall i :: 0 <= i < |t'| ==> t'[i] <= 1;
      }
    }
  }

  /** The same for one counter: x * x is at least x, and equal only for 0
      and 1. */
  lemma SquareAtLeast(x: int)
    requires x >= 0
    ensures x * x >= x
    ensures x * x == x <==> x <= 1
  {
    if x >= 1 {
      NonNegativeProduct(x, x - 1);
      assert x * x - x == x * (x - 1);
    }
    if x > 1 {
      NonNegativeProduct(x, x - 2);
      assert x * x - x == x * (x - 2) + x;
    }
  }

  /** A slot shared by two positions holds at least two keys. */
  lemma {:induction false} SharedSlotGroup(s: seq<int>, h: LinearHash, n: int, a: int, b: int)
    requires h.modulus > 0 && n > 0 && 0 <= a < b < |s|
    requires Slot(h, s[a], n) == Slot(h, s[b], n)
    ensures |Group(s, h, n, Slot(h, s[a], n))| >= 2
  {
    var s' := s[..|s| - 1];
    var i := Slot(h, s[a], n);
    if b < |s| - 1 {
      SharedSlotGroup(s', h, n, a, b);
    } else {
      assert s'[a] in s';
      var g' := Group(s', h, n, i);
      assert s'[a] in g';
    }
  }

  lemma SlotUnused(s: seq<int>, h: LinearHash, n: int, i: int)
    requires h.modulus > 0 && n > 0
    requires forall x :: x in s ==> Slot(h, x, n) != i
    ensures Group(s, h, n, i) == []
  {
  }

  lemma {:induction false} InjectiveSmallGroups(s: seq<int>, h: LinearHash, n: int, i: int)
    requires h.modulus > 0 && n > 0 && InjectiveOn(s, h, n)
    ensures |Group(s, h, n, i)| <= 1
  {
    if s != [] {
      var s' := s[..|s| - 1];
      assert InjectiveOn(s', h, n);
      InjectiveSmallGroups(s', h, n, i);
      if Slot(h, s[|s| - 1], n) == i {
        forall x | x in s' ensures Slot(h, x, n) != i {
          var a :| 0 <= a < |s'| && s'[a] == x;
          assert s[a] == x;
        }
        SlotUnused(s', h, n, i);
      }
    }
  }

  /** The bucket-level acceptance test (level multiplier 1, |s| * |s|
      counters) passes exactly when the hash modulo |s| is injective on s. */
  lemma BucketAcceptance(s: seq<int>, h: LinearHash)
    requires h.modulus > 0 && |s| > 0
    ensures Acceptable(s, h, 1, |s|) <==> InjectiveOn(s, h, |s|)
  {
    var m := |s|;
    var u := Tally(s, h, m, m);
    BucketCounters(s, h);
    assert Acceptable(s, h, 1, m) <==> SquaredSizesSum(u) <= m;
    SquaresAtLeastSum(u);
    if InjectiveOn(s, h, m) {
      forall i | 0 <= i < m ensures u[i] <= 1 {
        InjectiveSmallGroups(s, h, m, i);
      }
    } else {
      var a, b :| 0 <= a < b < m && Slot(h, s[a], m) == Slot(h, s[b], m);
      SharedSlotGroup(s, h, m, a, b);
      assert u[Slot(h, s[a], m)] >= 2;
    }
  }

  /** With |s| * |s| counters only the first |s| are non-zero, and those
      add up to |s|. */
  lemma BucketCounters(s: seq<int>, h: LinearHash)
    requires h.modulus > 0 && |s| > 0
    ensures SquaredSizesSum(Tally(s, h, |s|, |s| * |s|)) == SquaredSizesSum(Tally(s, h, |s|, |s|))
    ensures Sum(Tally(s, h, |s|, |s|)) == |s|
  {
    var m := |s|;
    var t := Tally(s, h, m, m * m);
    assert m <= m * m;
    forall i | m <= i < |t| ensures t[i] == 0 {
      GroupBeyondRange(s, h, m, i);
    }
    TrailingZeros(t, m);
    assert t[..m] == Tally(s, h, m, m);
    SumOfTally(s, h, m, m);
  }

  lemma ModOfModSquare(a: int, m: int)
    requires a >= 0 && m > 0
    ensures (a % (m * m)) % m == a % m
  {
    var q, r := a / (m * m), a % (m * m);
    var d, e := r / m, r % m;
    assert a == (q * m + d) * m + e;
    ModUnique(a, m, q * m + d, e);
  }

  /** Injective modulo m implies injective modulo m * m, the cell index
      FillBucket uses. */
  lemma InjectiveModSquare(s: seq<int>, h: LinearHash, m: int)
    requires h.modulus > 0 && m > 0 && InjectiveOn(s, h, m)
    ensures InjectiveOn(s, h, m * m)
  {
    forall a, b | 0 <= a < b < |s| ensures Slot(h, s[a], m * m) != Slot(h, s[b], m * m) {
      ModOfModSquare(Apply(h, s[a]), m);
      ModOfModSquare(Apply(h, s[b]), m);
    }
  }

  /** A list whose slots are all distinct has no repeated key. */
  lemma {:induction false} InjectiveNoDuplicates(s: seq<int>, h: LinearHash, n: int)
    requires h.modulus > 0 && n > 0 && InjectiveOn(s, h, n)
    ensures NoDuplicates(s)
  {
    if s != [] {
      var s' := s[..|s| - 1];
      assert InjectiveOn(s', h, n);
      InjectiveNoDuplicates(s', h, n);
      assert s == s' + [s[|s| - 1]];
    }
  }

  /** Each occurrence of a key lands in the group of its own slot, and in no
      other: the groups are a partition of s. */
  lemma {:induction false} GroupMultiplicity(s: seq<int>, h: LinearHash, n: int, i: int, x: int)
    requires h.modulus > 0 && n > 0
    ensures multiset(Group(s, h, n, i))[x] == if Slot(h, x, n) == i then multiset(s)[x] else 0
  {
    if s != [] {
      var s' := s[..|s| - 1];
      GroupMultiplicity(s', h, n, i, x);
      assert s == s' + [s[|s| - 1]];
    }
  }

  /** A list with a repeated key never passes the bucket-level test, so the
      source's retry loop never ends on it. */
  lemma DuplicatesNeverAccepted(s: seq<int>, h: LinearHash, a: int, b: int)
    requires h.modulus > 0 && 0 <= a < b < |s| && s[a] == s[b]
    ensures !Acceptable(s, h, 1, |s|)
  {
    BucketAcceptance(s, h);
  }

  /** Two non-negative keys congruent modulo p get the same hash from every
      drawn hash function. */
  lemma CongruentKeysCollide(h: LinearHash, x: int, y: int)
    requires IsRandomDraw(h) && x >= 0 && y >= 0 && (x - y) % DefaultPrime == 0
    ensures Apply(h, x) == Apply(h, y)
  {
    var c, b, p := h.coeff, h.intercept, DefaultPrime;
    NonNegativeProduct(x, c);
    NonNegativeProduct(y, c);
    assert Apply(h, x) == (x * c + b) % p;
    assert Apply(h, y) == (y * c + b) % p;
    CongruentAffine(x, y, c, b, p);
  }

  /** Congruent arguments give congruent affine values. */
  lemma CongruentAffine(x: int, y: int, c: int, b: int, p: int)
    requires p > 0 && (x - y) % p == 0
    ensures (x * c + b) % p == (y * c + b) % p
  {
    var k := (x - y) / p;
    assert x - y == k * p;
    assert x * c - y * c == (k * c) * p by {
      assert x * c - y * c == (x - y) * c;
      assert (k * p) * c == (k * c) * p;
    }
    ShiftByMultiple(x * c + b, y * c + b, k * c, p);
  }

  /** Adding a multiple of m does not change the remainder modulo m. */
  lemma ShiftByMultiple(v: int, w: int, j: int, m: int)
    requires m > 0 && v == j * m + w
    ensures v % m == w % m
  {
    var d, e := w / m, w % m;
    assert v == (j + d) * m + e;
    ModUnique(v, m, j + d, e);
  }

  /** Two non-negative keys congruent modulo p (0 and 2147483647, say) never
      pass the bucket-level test together. */
  lemma CongruentKeysNeverAccepted(s: seq<int>, h: LinearHash, a: int, b: int)
    requires IsRandomDraw(h) && 0 <= a < b < |s|
    requires s[a] >= 0 && s[b] >= 0 && (s[a] - s[b]) % DefaultPrime == 0
    ensures !Acceptable(s, h, 1, |s|)
  {
    CongruentKeysCollide(h, s[a], s[b]);
    BucketAcceptance(s, h);
  }
}
