/**
 The pool of outbound numbers in the server (`twilioNumbers`, built from the ten
 optional settings `TWILIO_PHONE_1` .. `TWILIO_PHONE_10`) and its round-robin
 rotation `getNextTwilioNumber`.

 The process environment is a parameter. The mutable `currentNumberIndex` is a
 value of `Rotation`, threaded through each call.
 */
module NumberPool {
  import opened Wrappers

  /** The process environment: setting name to value. */
  type Env = map<string, string>

  /** The number of optional number slots (line 38). */
  const SlotCount: nat := 10

  /** Decimal notation of a natural number, as template interpolation writes it. */
  function Decimal(n: nat): (s: string)
    ensures |s| > 0
    ensures forall i :: 0 <= i < |s| ==> '0' <= s[i] <= '9'
  {
    var d := [('0' as int + n % 10) as char];
    if n < 10 then d else Decimal(n / 10) + d
  }

  /** `TWILIO_PHONE_${i}` (line 39). */
  function SlotName(i: nat): string {
    "TWILIO_PHONE_" + Decimal(i)
  }

  /** The number in slot `i`, when the setting is there and non-empty (line 41). */
  function SlotValue(env: Env, i: nat): (v: Option<string>)
    ensures v.Some? <==> SlotName(i) in env && env[SlotName(i)] != ""
    ensures v.Some? ==> v.value == env[SlotName(i)]
  {
    var name := SlotName(i);
    if name in env && env[name] != "" then Some(env[name]) else None
  }

  /** Reference: the present numbers of slots `1..n`, in slot order. */
  function PresentUpTo(env: Env, n: nat): (pool: seq<string>)
    ensures |pool| <= n
    ensures forall k :: 0 <= k < |pool| ==> pool[k] != ""
    ensures forall x :: x in pool <==> exists i :: 1 <= i <= n && SlotValue(env, i) == Some(x)
  {
    if n == 0 then []
    else
      var prev := PresentUpTo(env, n - 1);
      match SlotValue(env, n)
      case Some(v) => prev + [v]
      case None => prev
  }

  /** The loop of lines 37-48: the pool holds exactly the present numbers of
      slots 1 to 10, in slot order, so never more than ten, and none empty. */
  method BuildPool(env: Env) returns (pool: seq<string>)
    ensures pool == PresentUpTo(env, SlotCount)
    ensures |pool| <= SlotCount
    ensures forall k :: 0 <= k < |pool| ==> pool[k] != ""
  {
    pool := [];
    var i := 1;
    while i <= SlotCount
      invariant 1 <= i <= SlotCount + 1
      invariant pool == PresentUpTo(env, i - 1)
    {
      match SlotValue(env, i) {
        case Some(v) => pool := pool + [v];
        case None =>
      }
      i := i + 1;
    }
  }

  // ------------------------------------------------------------------ rotation

  /** The pool with the position of the next number to hand out. */
  datatype Rotation = Rotation(pool: seq<string>, index: nat)

  /** The index is a position in the pool, or zero while the pool is empty. */
  predicate Valid(r: Rotation) {
    if |r.pool| == 0 then r.index == 0 else r.index < |r.pool|
  }

  /** `let currentNumberIndex = 0` (line 55). */
  function Start(pool: seq<string>): (r: Rotation)
    ensures Valid(r) && r.pool == pool
    ensures r.index == 0
  {
    Rotation(pool, 0)
  }

  /** `getNextTwilioNumber()` (lines 58-66): no number from an empty pool and no
      change of state; otherwise the number at the index, and the index moves on
      by one, wrapping around. The pool itself never changes. */
  function Next(r: Rotation): (res: (Option<string>, Rotation))
    requires Valid(r)
    ensures Valid(res.1) && res.1.pool == r.pool
    ensures |r.pool| == 0 ==> res.0 == None && res.1 == r
    ensures |r.pool| > 0 ==> res.0 == Some(r.pool[r.index])
  {
    if |r.pool| == 0 then (None, r)
    else (Some(r.pool[r.index]), Rotation(r.pool, if r.index + 1 == |r.pool| then 0 else r.index + 1))
  }

  /** The numbers handed out by `k` consecutive calls on a non-empty pool, and the
      state after them. */
  function Draw(r: Rotation, k: nat): (res: (seq<string>, Rotation))
    requires r.index < |r.pool|
    ensures |res.0| == k && res.1.pool == r.pool && res.1.index < |r.pool|
    decreases k
  {
    if k == 0 then ([], r)
    else
      var step := Next(r);
      var rest := Draw(step.1, k - 1);
      ([step.0.value] + rest.0, rest.1)
  }

  // Facts about Euclidean remainder that the rotation lemmas rest on.

  lemma MulAtLeast(a: int, n: int)
    requires a >= 1 && n > 0
    ensures a * n >= n
  {
  }

  /** The remainder is determined by any quotient-remainder decomposition. */
  lemma DivModUnique(x: int, n: int, q: int, r: int)
    requires n > 0 && 0 <= r < n && x == q * n + r
    ensures x % n == r
  {
    var q', r' := x / n, x % n;
    assert (q - q') * n == r' - r;
    if q > q' {
      MulAtLeast(q - q', n);
    } else if q < q' {
      MulAtLeast(q' - q, n);
    }
  }

  lemma ModPeriod(x: nat, n: nat)
    requires n > 0
    ensures (x + n) % n == x % n
  {
    DivModUnique(x + n, n, x / n + 1, x % n);
  }

  lemma ModSmall(x: nat, n: nat)
    requires x < n
    ensures x % n == x
  {
    DivModUnique(x, n, 0, x);
  }

  /** The wrap-around of `Next` is the `(currentNumberIndex + 1) % length` of
      line 64: the two agree on every valid state. */
  lemma NextIsModulo(r: Rotation)
    requires r.index < |r.pool|
    ensures Next(r).1.index == (r.index + 1) % |r.pool|
  {
    var n := |r.pool|;
    if r.index + 1 == n {
      DivModUnique(n, n, 1, 0);
    } else {
      ModSmall(r.index + 1, n);
    }
  }

  /** The `j`-th of `k` consecutive calls hands out the number `j` places after the
      starting index (modulo the pool size), and the index ends `k` places on. */
  lemma {:induction false} DrawPositions(r: Rotation, k: nat)
    requires r.index < |r.pool|
    ensures forall j :: 0 <= j < k ==> Draw(r, k).0[j] == r.pool[(r.index + j) % |r.pool|]
    ensures Draw(r, k).1.index == (r.index + k) % |r.pool|
    decreases k
  {
    var n := |r.pool|;
    var i := r.index;
    if k == 0 {
      ModSmall(i, n);
    } else {
      var r' := Next(r).1;
      DrawPositions(r', k - 1);
      forall j | 0 <= j < k ensures Draw(r, k).0[j] == r.pool[(i + j) % n] {
        if j == 0 {
          ModSmall(i, n);
        } else {
          assert Draw(r, k).0[j] == Draw(r', k - 1).0[j - 1];
          if i + 1 == n {
            ModPeriod(j - 1, n);
          }
        }
      }
      if i + 1 == n {
        ModPeriod(k - 1, n);
      }
    }
  }

  /** `k` calls are `a` calls followed by the remaining `k - a` from where
      those left off. */
  lemma {:induction false} DrawSplit(r: Rotation, k: nat, a: nat)
    requires r.index < |r.pool| && a <= k
    ensures Draw(r, k).0 == Draw(r, a).0 + Draw(Draw(r, a).1, k - a).0
    ensures Draw(r, k).1 == Draw(Draw(r, a).1, k - a).1
    decreases a
  {
    if a > 0 {
      DrawSplit(Next(r).1, k - 1, a - 1);
    }
  }

  /** Calls that do not pass the end of the pool hand out a contiguous slice of it,
      and the index wraps to zero exactly when the last entry was handed out. */
  lemma {:induction false} DrawSpan(r: Rotation, k: nat)
    requires r.index < |r.pool| && r.index + k <= |r.pool|
    ensures Draw(r, k).0 == r.pool[r.index..r.index + k]
    ensures Draw(r, k).1.index == if r.index + k == |r.pool| then 0 else r.index + k
    decreases k
  {
    if k > 0 {
      var r' := Next(r).1;
      if r.index + 1 < |r.pool| {
        DrawSpan(r', k - 1);
        assert r.pool[r.index..r.index + k] == [r.pool[r.index]] + r.pool[r.index + 1..r.index + k];
      }
    }
  }

  /** A rotation of a sequence is a permutation of it. */
  lemma RotationPermutes(p: seq<string>, i: nat)
    requires i <= |p|
    ensures multiset(p[i..] + p[..i]) == multiset(p)
  {
    assert p == p[..i] + p[i..];
  }

  /** From the index to the end of the pool: the first leg of a full cycle,
      after which the index is back at zero. */
  lemma LegToEnd(r: Rotation)
    requires r.index < |r.pool|
    ensures Draw(r, |r.pool| - r.index).1.index == 0
    ensures Draw(r, |r.pool| - r.index).0 == r.pool[r.index..]
  {
    DrawSpan(r, |r.pool| - r.index);
  }

  /** From the start of the pool back to position `i`: the second leg. */
  lemma LegFromStart(p: seq<string>, i: nat)
    requires i < |p|
    ensures Draw(Rotation(p, 0), i).1.index == i
    ensures Draw(Rotation(p, 0), i).0 == p[..i]
  {
    DrawSpan(Rotation(p, 0), i);
  }

  /** A full cycle hands out the pool rotated to the index. */
  lemma CycleOrder(r: Rotation)
    requires r.index < |r.pool|
    ensures Draw(r, |r.pool|).0 == r.pool[r.index..] + r.pool[..r.index]
  {
    var n, i := |r.pool|, r.index;
    LegToEnd(r);
    assert Draw(r, n - i).1 == Rotation(r.pool, 0);
    DrawSplit(r, n, n - i);
    assert n - (n - i) == i;
    LegFromStart(r.pool, i);
  }

  /** A full cycle brings the index back to where it was. */
  lemma CycleReturns(r: Rotation)
    requires r.index < |r.pool|
    ensures Draw(r, |r.pool|).1 == r
  {
    var n, i := |r.pool|, r.index;
    LegToEnd(r);
    assert Draw(r, n - i).1 == Rotation(r.pool, 0);
    DrawSplit(r, n, n - i);
    assert n - (n - i) == i;
    LegFromStart(r.pool, i);
  }

  /** Fairness: `n` consecutive calls on a pool of `n` numbers hand out the pool
      once around, starting at the index, so every entry exactly once, and leave
      the state as it was. */
  lemma FullCycle(r: Rotation)
    requires r.index < |r.pool|
    ensures Draw(r, |r.pool|).0 == r.pool[r.index..] + r.pool[..r.index]
    ensures multiset(Draw(r, |r.pool|).0) == multiset(r.pool)
    ensures Draw(r, |r.pool|).1 == r
  {
    CycleOrder(r);
    CycleReturns(r);
    RotationPermutes(r.pool, r.index);
  }
}
