/** The random-integer service: validating the range and count, then drawing `count` integers from
    [min, max], either independently or, without duplicates, by a partial Fisher-Yates shuffle of
    a pool holding min..max. rand.Intn is an arbitrary choice of an index in range. */
module RandomService {
  import opened Outcome
  import opened Decimal

  datatype RandomIntegerResponse = RandomIntegerResponse(numbers: seq<int>, count: int, min: int, max: int)

  const MinAboveMax: string := "最小值不能大于最大值"
  const CountNotPositive: string := "生成数量必须大于0"
  const RangeTooSmall: string := "不允许重复时，生成数量不能大于可能值范围"

  /** The three input checks, in the source's order, with the range size computed as written:
      `max - min + 1` in 64-bit arithmetic. */
  function ValidateAsWritten(min: int, max: int, count: int, allowDuplicates: bool): (r: Option<Fault>)
    requires InInt64(min) && InInt64(max)
    ensures min > max ==> r == Some(ApiError(400, MinAboveMax))
    ensures min <= max && count < 1 ==> r == Some(ApiError(400, CountNotPositive))
    ensures r.None? ==> min <= max && count >= 1 && (allowDuplicates || count <= max - min + 1)
    ensures min <= max && count >= 1 && !allowDuplicates && !InInt64(max - min + 1) ==> r == Some(ApiError(400, RangeTooSmall))
  {
    assert min <= max && !InInt64(max - min + 1) ==> WrapInt64(max - min + 1) <= 0 by {
      if min <= max { RangeSizeWrap(min, max); }
    }
    if min > max then Some(ApiError(400, MinAboveMax))
    else if count < 1 then Some(ApiError(400, CountNotPositive))
    else if !allowDuplicates && count > WrapInt64(max - min + 1) then Some(ApiError(400, RangeTooSmall))
    else None
  }

  /** The widest range wraps the range size round to 0, so a single distinct number is refused
      although the range holds 2^64 integers. */
  lemma RangeSizeWraps()
    ensures WrapInt64((TwoTo63 - 1) - (-TwoTo63) + 1) == 0
    ensures ValidateAsWritten(-TwoTo63, TwoTo63 - 1, 1, false) == Some(ApiError(400, RangeTooSmall))
  {
  }

  /** The three input checks with the range size counted exactly. */
  function Validate(min: int, max: int, count: int, allowDuplicates: bool): (r: Option<Fault>)
    ensures r.None? <==> min <= max && count >= 1 && (allowDuplicates || count <= max - min + 1)
    ensures min > max ==> r == Some(ApiError(400, MinAboveMax))
    ensures min <= max && count < 1 ==> r == Some(ApiError(400, CountNotPositive))
    ensures min <= max && count >= 1 && !allowDuplicates && count > max - min + 1 ==> r == Some(ApiError(400, RangeTooSmall))
  {
    if min > max then Some(ApiError(400, MinAboveMax))
    else if count < 1 then Some(ApiError(400, CountNotPositive))
    else if !allowDuplicates && count > max - min + 1 then Some(ApiError(400, RangeTooSmall))
    else None
  }

  /** Wherever max - min + 1 fits in 64 bits the exact checks are the checks as written. */
  lemma ValidateAgrees(min: int, max: int, count: int, allowDuplicates: bool)
    requires InInt64(min) && InInt64(max) && InInt64(max - min + 1)
    ensures Validate(min, max, count, allowDuplicates) == ValidateAsWritten(min, max, count, allowDuplicates)
  {
  }

  /** min, min + 1, …, min + n - 1. */
  function Range(min: int, n: nat): (s: seq<int>)
    ensures |s| == n && forall k :: 0 <= k < n ==> s[k] == min + k
  {
    seq(n, k requires 0 <= k < n => min + k)
  }

  predicate Distinct(s: seq<int>) {
    forall a, b :: 0 <= a < b < |s| ==> s[a] != s[b]
  }

  predicate InRange(s: seq<int>, min: int, max: int) {
    forall k :: 0 <= k < |s| ==> min <= s[k] <= max
  }

  lemma RangeDistinct(min: int, n: nat)
    ensures Distinct(Range(min, n)) && InRange(Range(min, n), min, min + n - 1)
  {
  }

  /** s with the elements at a and b exchanged. */
  function Swapped(s: seq<int>, a: int, b: int): (t: seq<int>)
    requires 0 <= a < |s| && 0 <= b < |s|
    ensures |t| == |s| && t[a] == s[b] && t[b] == s[a]
    ensures forall k :: 0 <= k < |s| && k != a && k != b ==> t[k] == s[k]
  {
    s[a := s[b]][b := s[a]]
  }

  /** An exchange keeps the pool a permutation. */
  lemma SwapPermutes(s: seq<int>, a: int, b: int)
    requires 0 <= a < |s| && 0 <= b < |s|
    ensures multiset(Swapped(s, a, b)) == multiset(s)
  {
    var u := s[a := s[b]];
    assert multiset(u) == multiset(s) - multiset{s[a]} + multiset{s[b]};
    if a != b {
      assert u[b] == s[b];
    }
    assert Swapped(s, a, b) == u[b := s[a]];
  }

  /** An exchange keeps the pool's elements distinct and in range. */
  lemma SwapKeeps(s: seq<int>, a: int, b: int, min: int, max: int)
    requires 0 <= a < |s| && 0 <= b < |s|
    requires Distinct(s) && InRange(s, min, max)
    ensures Distinct(Swapped(s, a, b)) && InRange(Swapped(s, a, b), min, max)
  {
    var t := Swapped(s, a, b);
    forall x, y | 0 <= x < y < |t| ensures t[x] != t[y] {
      var x' := if x == a then b else if x == b then a else x;
      var y' := if y == a then b else if y == b then a else y;
      assert t[x] == s[x'] && t[y] == s[y'];
    }
  }

  /** Exchanges the elements of `a` at i and j. */
  method Swap(a: array<int>, i: int, j: int)
    requires 0 <= i < a.Length && 0 <= j < a.Length
    modifies a
    ensures a[..] == Swapped(old(a[..]), i, j)
  {
    a[i], a[j] := a[j], a[i];
  }

  /** The pool: a new array holding min, min + 1, …, max in order. */
  method NewPool(min: int, possibleValues: nat) returns (pool: array<int>)
    ensures fresh(pool) && pool[..] == Range(min, possibleValues)
  {
    pool := new int[possibleValues];
    for i := 0 to possibleValues
      invariant forall k :: 0 <= k < i ==> pool[k] == min + k
    {
      pool[i] := min + i;
    }
  }

  /** The last |numbers| places of s hold numbers, the first drawn last. */
  predicate TailDrawn(numbers: seq<int>, s: seq<int>) {
    |numbers| <= |s| && forall k :: 0 <= k < |numbers| ==> numbers[k] == s[|s| - 1 - k]
  }

  /** Drawing s[j] from the undrawn prefix and exchanging it with the prefix's last place keeps
      the drawn numbers at the tail. */
  lemma DrawStep(numbers: seq<int>, s: seq<int>, j: int)
    requires TailDrawn(numbers, s) && 0 <= j < |s| - |numbers|
    ensures TailDrawn(numbers + [s[j]], Swapped(s, j, |s| - |numbers| - 1))
  {
    var t := Swapped(s, j, |s| - |numbers| - 1);
    var n := numbers + [s[j]];
    forall k | 0 <= k < |n| ensures n[k] == t[|t| - 1 - k] {
      if k < |numbers| {
        assert |t| - 1 - k > |s| - |numbers| - 1;
      }
    }
  }

  /** Numbers held at distinct places of a pool of distinct values in range are distinct and in
      range. */
  lemma TailDrawnDistinct(numbers: seq<int>, s: seq<int>, min: int, max: int)
    requires TailDrawn(numbers, s) && Distinct(s) && InRange(s, min, max)
    ensures Distinct(numbers) && InRange(numbers, min, max)
  {
    forall a, b | 0 <= a < b < |numbers| ensures numbers[a] != numbers[b] {
      assert numbers[a] == s[|s| - 1 - a] && numbers[b] == s[|s| - 1 - b];
    }
  }

  /** The pool is a permutation of m, of distinct values in range, with the drawn numbers at its
      tail. */
  predicate Drawing(s: seq<int>, numbers: seq<int>, m: multiset<int>, min: int, max: int) {
    multiset(s) == m && Distinct(s) && InRange(s, min, max) && TailDrawn(numbers, s)
  }

  /** One draw, of s[j] from the undrawn prefix, keeps the drawing state. */
  lemma DrawKeeps(s: seq<int>, numbers: seq<int>, m: multiset<int>, min: int, max: int, j: int, last: int)
    requires Drawing(s, numbers, m, min, max) && 0 <= j <= last && last == |s| - |numbers| - 1
    ensures Drawing(Swapped(s, j, last), numbers + [s[j]], m, min, max)
  {
    SwapPermutes(s, j, last);
    SwapKeeps(s, j, last, min, max);
    DrawStep(numbers, s, j);
  }

  /** The selection loop: `count` draws, each an arbitrary index into the undrawn prefix of the
      pool, whose value is appended and then exchanged with the prefix's last place. */
  method DrawDistinct(pool: array<int>, count: nat, ghost min: int, ghost max: int) returns (numbers: seq<int>)
    requires count <= pool.Length && Distinct(pool[..]) && InRange(pool[..], min, max)
    modifies pool
    ensures multiset(pool[..]) == old(multiset(pool[..]))
    ensures |numbers| == count && Distinct(numbers) && InRange(numbers, min, max)
    ensures TailDrawn(numbers, pool[..])
  {
    ghost var m := multiset(pool[..]);
    numbers := [];
    for i := 0 to count
      invariant |numbers| == i && Drawing(pool[..], numbers, m, min, max)
    {
      var j :| 0 <= j < pool.Length - i;
      var last := pool.Length - i - 1;
      DrawKeeps(pool[..], numbers, m, min, max, j, last);
      numbers := numbers + [pool[j]];
      Swap(pool, j, last);
    }
    TailDrawnDistinct(numbers, pool[..], min, max);
  }

  /** In 64-bit arithmetic the size of a non-empty range [min, max] is either right or wraps to
      zero or below. */
  lemma RangeSizeWrap(min: int, max: int)
    requires InInt64(min) && InInt64(max) && min <= max
    ensures var n := WrapInt64(max - min + 1);
      (InInt64(max - min + 1) ==> n == max - min + 1) && (!InInt64(max - min + 1) ==> n <= 0)
  {
    if !InInt64(max - min + 1) {
      assert TwoTo63 <= max - min + 1 <= TwoTo64;
      assert WrapInt64(max - min + 1) == max - min + 1 - TwoTo64;
    }
  }

  const IntnInvalidArgument: string := "invalid argument to Intn"

  /** The duplicates-allowed loop: `count` independent draws rand.Intn(n) + min, where n is the
      range size as computed in 64 bits; rand.Intn panics when n is not positive. */
  method DrawAny(min: int, n: int, count: nat) returns (r: Result<seq<int>, Fault>)
    ensures r.Failure? <==> n <= 0 && count >= 1
    ensures r.Failure? ==> r.error == RuntimePanic(IntnInvalidArgument)
    ensures r.Success? ==> |r.value| == count && InRange(r.value, min, min + n - 1)
  {
    var numbers := [];
    for i := 0 to count
      invariant |numbers| == i && InRange(numbers, min, min + n - 1)
      invariant n <= 0 ==> i == 0
    {
      if n <= 0 {
        return Failure(RuntimePanic(IntnInvalidArgument));
      }
      var x :| 0 <= x < n;
      numbers := numbers + [x + min];
    }
    return Success(numbers);
  }

  /** GenerateRandomIntegers, with 64-bit int. A refusal is exactly what the checks as written
      refuse, which wherever the range size fits in 64 bits are the exact checks. Allowing
      duplicates on a range of 2^63 or more integers makes rand.Intn panic. On success there are
      exactly `count` numbers, all in [min, max], pairwise distinct when duplicates are not
      allowed, and the response echoes count, min and max. */
  method GenerateRandomIntegers(min: int, max: int, count: int, allowDuplicates: bool) returns (r: Result<RandomIntegerResponse, Fault>)
    requires InInt64(min) && InInt64(max) && InInt64(count)
    ensures r.Failure? && r.error.ApiError? <==> ValidateAsWritten(min, max, count, allowDuplicates).Some?
    ensures r.Failure? && r.error.ApiError? ==> r.error == ValidateAsWritten(min, max, count, allowDuplicates).value
    ensures InInt64(max - min + 1) ==> (r.Failure? <==> Validate(min, max, count, allowDuplicates).Some?)
    ensures r.Failure? && !r.error.ApiError? <==>
      ValidateAsWritten(min, max, count, allowDuplicates).None? && allowDuplicates && !InInt64(max - min + 1)
    ensures r.Failure? && !r.error.ApiError? ==> r.error == RuntimePanic(IntnInvalidArgument)
    ensures r.Success? ==>
      |r.value.numbers| == count && InRange(r.value.numbers, min, max) &&
      r.value.count == count && r.value.min == min && r.value.max == max
    ensures r.Success? && !allowDuplicates ==> Distinct(r.value.numbers)
  {
    var invalid := ValidateAsWritten(min, max, count, allowDuplicates);
    if invalid.Some? {
      return Failure(invalid.value);
    }
    RangeSizeWrap(min, max);
    if InInt64(max - min + 1) {
      ValidateAgrees(min, max, count, allowDuplicates);
    }
    var possibleValues := WrapInt64(max - min + 1);
    var numbers: seq<int>;
    if !allowDuplicates {
      var pool := NewPool(min, possibleValues);
      RangeDistinct(min, possibleValues);
      numbers := DrawDistinct(pool, count, min, max);
    } else {
      var drawn := DrawAny(min, WrapInt64(max - min + 1), count);
      if drawn.Failure? {
        return Failure(drawn.error);
      }
      numbers := drawn.value;
    }
    return Success(RandomIntegerResponse(numbers, count, min, max));
  }
}
