/** Random streams and the loops that draw from them. */
module Sampling {
  import opened Bytes
  import opened Indices
  import opened Curve
  import opened Modular

  /** The i-th draw of a uniform distribution on [1, hi]. */
  type Distribution = d: (nat, uint64) -> uint64 | forall i: nat, hi: uint64 :: hi > 0 ==> 1 <= d(i, hi) <= hi
    ghost witness (i: nat, hi: uint64) => hi

  /** The i-th answer of the random source; one of the wrong length is a failure. */
  type Entropy = nat -> ByteString

  /** Ends a retry loop: a failure, or bytes that are not all zero. */
  predicate Usable(b: ByteString) {
    |b| != SCALAR_SIZE || LittleEndian(b) != 0
  }

  // ── Fairness of the streams: what the retry loops need to terminate ──

  ghost predicate DrawnLater(draw: Distribution, hi: uint64, i: nat, x: uint64) {
    exists j: nat :: i <= j && draw(j, hi) == x
  }

  /** Every value of the range keeps coming up. */
  ghost predicate FairDraws(draw: Distribution, hi: uint64) {
    forall i: nat, x: uint64 :: 1 <= x <= hi ==> DrawnLater(draw, hi, i, x)
  }

  ghost predicate UsableLater(bytes: Entropy, i: nat) {
    exists j: nat :: i <= j && Usable(bytes(j))
  }

  /** The source does not answer zero for ever. */
  ghost predicate FairBytes(bytes: Entropy) {
    forall i: nat :: UsableLater(bytes, i)
  }

  predicate NoneUsable(bytes: Entropy, from: nat, to: nat) {
    forall i: nat :: from <= i < to ==> !Usable(bytes(i))
  }

  function FirstUsable(bytes: Entropy, from: nat, found: nat): (r: nat)
    requires from <= found && Usable(bytes(found))
    ensures from <= r && Usable(bytes(r)) && NoneUsable(bytes, from, r)
    decreases found - from
  {
    if Usable(bytes(from)) then from else FirstUsable(bytes, from + 1, found)
  }

  /** The next answer that is a failure or a non-zero scalar. */
  ghost function NextUsable(bytes: Entropy, from: nat): (r: nat)
    requires FairBytes(bytes)
    ensures from <= r && Usable(bytes(r)) && NoneUsable(bytes, from, r)
  {
    assert UsableLater(bytes, from);
    var found: nat :| from <= found && Usable(bytes(found));
    FirstUsable(bytes, from, found)
  }

  const ZERO_SCALAR: ByteString := seq(32, _ => 0)

  lemma UsableMeans(b: ByteString)
    ensures Usable(b) <==> b != ZERO_SCALAR
  {
    ZeroBytes(b);
  }

  /** Only all-zero buffers are passed over. */
  lemma NextUsableIsFirst(bytes: Entropy, from: nat)
    requires FairBytes(bytes)
    ensures bytes(NextUsable(bytes, from)) != ZERO_SCALAR
    ensures forall i: nat :: from <= i < NextUsable(bytes, from) ==> bytes(i) == ZERO_SCALAR
  {
    var r := NextUsable(bytes, from);
    UsableMeans(bytes(r));
    forall i: nat | from <= i < r ensures bytes(i) == ZERO_SCALAR {
      assert !Usable(bytes(i));
      UsableMeans(bytes(i));
    }
  }

  /** What a retry loop makes of the answer it stops at. */
  function ScalarOf(b: ByteString): Option<nat> {
    if |b| == SCALAR_SIZE then Some(LittleEndian(b)) else None
  }

  /** `do { … } while (v.isZero())`. */
  method DrawScalar(bytes: Entropy, from: nat) returns (drawn: Option<nat>, next: nat)
    requires FairBytes(bytes)
    ensures next == NextUsable(bytes, from) + 1
    ensures drawn == ScalarOf(bytes(next - 1))
    ensures drawn.Some? ==> drawn.value > 0
    ensures drawn.None? <==> |bytes(next - 1)| != 32
  {
    next := from;
    while true
      invariant from <= next <= NextUsable(bytes, from)
      invariant NoneUsable(bytes, from, next)
      decreases NextUsable(bytes, from) - next
    {
      var randomBytes := bytes(next);
      next := next + 1;
      if |randomBytes| != SCALAR_SIZE {
        return None, next;
      }
      if LittleEndian(randomBytes) != 0 {
        return Some(LittleEndian(randomBytes)), next;
      }
    }
  }

  // ── Block indices ──

  /** The distinct values among the draws from..to, in order of their first appearance. */
  function DistinctDraws(draw: Distribution, hi: uint64, from: nat, to: nat): seq<uint64> {
    if to <= from then []
    else
      var earlier := DistinctDraws(draw, hi, from, to - 1);
      if draw(to - 1, hi) in earlier then earlier else earlier + [draw(to - 1, hi)]
  }

  lemma {:induction false} DrawsAreDistinct(draw: Distribution, hi: uint64, from: nat, to: nat)
    requires hi > 0
    ensures var picked := DistinctDraws(draw, hi, from, to);
            Distinct(picked) && forall i :: 0 <= i < |picked| ==> 1 <= picked[i] <= hi
  {
    if to > from {
      DrawsAreDistinct(draw, hi, from, to - 1);
    }
  }

  /** The picked blocks are the drawn ones, all of them and no others. */
  lemma {:induction false} PickedAreDrawn(draw: Distribution, hi: uint64, from: nat, to: nat, x: uint64)
    ensures x in DistinctDraws(draw, hi, from, to) <==> exists t: nat :: from <= t < to && draw(t, hi) == x
  {
    if to <= from {
    } else {
      PickedAreDrawn(draw, hi, from, to - 1, x);
    }
  }

  /** Fewer than hi distinct values leave one of [1, hi] out. */
  lemma {:induction false} SomeLeft(picked: seq<uint64>, hi: uint64)
    requires |picked| < hi
    ensures exists x: uint64 :: 1 <= x <= hi && x !in picked
    decreases hi
  {
    if hi in picked {
      var k :| 0 <= k < |picked| && picked[k] == hi;
      var others := Without(picked, hi);
      WithoutIsShorter(picked, hi, k);
      SomeLeft(others, hi - 1);
      var x: uint64 :| 1 <= x <= hi - 1 && x !in others;
      WithoutKeeps(picked, hi, x);
    }
  }

  function Without(s: seq<uint64>, x: uint64): seq<uint64> {
    if s == [] then [] else (if s[0] == x then [] else [s[0]]) + Without(s[1..], x)
  }

  lemma {:induction false} WithoutIsShorter(s: seq<uint64>, x: uint64, k: nat)
    requires k < |s| && s[k] == x
    ensures |Without(s, x)| < |s|
  {
    WithoutBound(s[1..], x);
    if k > 0 {
      WithoutIsShorter(s[1..], x, k - 1);
    }
  }

  lemma {:induction false} WithoutBound(s: seq<uint64>, x: uint64)
    ensures |Without(s, x)| <= |s|
  {
    if s != [] {
      WithoutBound(s[1..], x);
    }
  }

  lemma {:induction false} WithoutKeeps(s: seq<uint64>, x: uint64, y: uint64)
    requires x != y
    ensures y in Without(s, x) <==> y in s
  {
    if s == [] {
    } else {
      WithoutKeeps(s[1..], x, y);
      assert s == [s[0]] + s[1..];
    }
  }

  /** As long as values are left, one of them comes up. */
  lemma NewValueComes(draw: Distribution, hi: uint64, picked: seq<uint64>, at: nat) returns (goal: nat)
    requires FairDraws(draw, hi) && |picked| < hi
    ensures at <= goal && draw(goal, hi) !in picked
  {
    SomeLeft(picked, hi);
    var x: uint64 :| 1 <= x <= hi && x !in picked;
    assert DrawnLater(draw, hi, at, x);
    goal :| at <= goal && draw(goal, hi) == x;
  }

  /** `while (picked.size() < count) picked.insert(dist(rng))`. */
  method PickBlocks(draw: Distribution, hi: uint64, from: nat, count: uint64)
    returns (picked: seq<uint64>, ghost to: nat)
    requires FairDraws(draw, hi) && 0 < count <= hi
    ensures picked == DistinctDraws(draw, hi, from, to) && |picked| == count
    ensures Distinct(picked) && forall i :: 0 <= i < |picked| ==> 1 <= picked[i] <= hi
  {
    picked := [];
    var at := from;
    ghost var goal: int := NewValueComes(draw, hi, picked, at);
    while |picked| < count
      invariant from <= at && |picked| <= count && picked == DistinctDraws(draw, hi, from, at)
      invariant |picked| < count ==> at <= goal && draw(goal, hi) !in picked
      decreases count - |picked|, goal - at
    {
      var index := draw(at, hi);
      at := at + 1;
      if index !in picked {
        picked := picked + [index];
        if |picked| < count {
          goal := NewValueComes(draw, hi, picked, at);
        }
      }
    }
    to := at;
    DrawsAreDistinct(draw, hi, from, to);
  }

  // ── Coefficients ──

  /** The stream positions of one attempt to draw a coefficient for each picked block. */
  ghost function Positions(bytes: Entropy, from: nat, count: nat): (p: seq<nat>)
    requires FairBytes(bytes)
    ensures |p| == count
    ensures forall i :: 0 <= i < |p| ==> from <= p[i] && Usable(bytes(p[i]))
    ensures forall i, j :: 0 <= i < j < |p| ==> p[i] < p[j]
  {
    if count == 0 then []
    else
      var earlier := Positions(bytes, from, count - 1);
      earlier + [NextUsable(bytes, EndOf(earlier, from))]
  }

  function EndOf(positions: seq<nat>, from: nat): nat {
    if positions == [] then from else positions[|positions| - 1] + 1
  }

  ghost predicate Fails(bytes: Entropy, positions: seq<nat>) {
    exists i :: 0 <= i < |positions| && |bytes(positions[i])| != SCALAR_SIZE
  }

  function ValuesAt(bytes: Entropy, positions: seq<nat>): seq<nat> {
    seq(|positions|, i requires 0 <= i < |positions| => LittleEndian(bytes(positions[i])))
  }

  function Total(values: seq<nat>): nat {
    if values == [] then 0 else Total(values[..|values| - 1]) + values[|values| - 1]
  }

  /** An attempt ends the outer loop: a failure, or coefficients with a non-zero sum. */
  ghost predicate Settled(c: Curve, bytes: Entropy, from: nat, count: nat)
    requires FairBytes(bytes)
  {
    var positions := Positions(bytes, from, count);
    Fails(bytes, positions) || Total(ValuesAt(bytes, positions)) % c.n != 0
  }

  ghost predicate SettlesWithin(c: Curve, bytes: Entropy, from: nat, count: nat, attempts: nat)
    requires FairBytes(bytes)
    decreases attempts
  {
    || Settled(c, bytes, from, count)
    || (attempts > 0 && SettlesWithin(c, bytes, EndOf(Positions(bytes, from, count), from), count, attempts - 1))
  }

  ghost predicate SettlesLater(c: Curve, bytes: Entropy, from: nat, count: nat)
    requires FairBytes(bytes)
  {
    exists attempts: nat :: SettlesWithin(c, bytes, from, count, attempts)
  }

  /** From every position some later attempt settles. */
  ghost predicate FairSums(c: Curve, bytes: Entropy, count: nat) {
    FairBytes(bytes) && forall from: nat :: SettlesLater(c, bytes, from, count)
  }

  /** One round of the loop over the picked blocks, with the running sum. */
  method DrawRound(c: Curve, bytes: Entropy, from: nat, count: nat)
    returns (values: Option<seq<nat>>, nu: int, next: nat)
    requires FairBytes(bytes)
    ensures var positions := Positions(bytes, from, count);
            && (values.None? <==> Fails(bytes, positions))
            && (values.Some? ==> && values.value == ValuesAt(bytes, positions) && next == EndOf(positions, from)
                                 && nu == Total(values.value) % c.n)
  {
    var drawn: seq<nat> := [];
    nu, next := 0, from;
    for j := 0 to count
      invariant !Fails(bytes, Positions(bytes, from, j))
      invariant drawn == ValuesAt(bytes, Positions(bytes, from, j)) && next == EndOf(Positions(bytes, from, j), from)
      invariant nu == Total(drawn) % c.n
    {
      var v;
      v, next := DrawScalar(bytes, next);
      RoundStep(bytes, from, j);
      if v.None? {
        EarlyFailure(bytes, from, j + 1, count);
        return None, nu, next;
      }
      AddOne(c, drawn, v.value);
      nu := Add(c, nu, v.value);
      drawn := drawn + [v.value];
    }
    values := Some(drawn);
  }

  lemma RoundStep(bytes: Entropy, from: nat, j: nat)
    requires FairBytes(bytes)
    ensures var before, after := Positions(bytes, from, j), Positions(bytes, from, j + 1);
            var q := NextUsable(bytes, EndOf(before, from));
            && EndOf(after, from) == q + 1
            && ValuesAt(bytes, after) == ValuesAt(bytes, before) + [LittleEndian(bytes(q))]
            && (Fails(bytes, after) <==> Fails(bytes, before) || |bytes(q)| != SCALAR_SIZE)
  {
    var before, after := Positions(bytes, from, j), Positions(bytes, from, j + 1);
    assert after[j] == NextUsable(bytes, EndOf(before, from));
    assert forall i :: 0 <= i < j ==> after[i] == before[i];
  }

  lemma {:induction false} EarlyFailure(bytes: Entropy, from: nat, j: nat, count: nat)
    requires FairBytes(bytes) && j <= count && Fails(bytes, Positions(bytes, from, j))
    ensures Fails(bytes, Positions(bytes, from, count))
    decreases count - j
  {
    if j < count {
      RoundStep(bytes, from, j);
      EarlyFailure(bytes, from, j + 1, count);
    }
  }

  lemma AddOne(c: Curve, drawn: seq<nat>, v: nat)
    ensures Add(c, Total(drawn) % c.n, v) == Total(drawn + [v]) % c.n
  {
    assert (drawn + [v])[..|drawn|] == drawn;
    ModAdd(Total(drawn), v, c.n);
  }

  /** Where the first settling attempt starts. */
  ghost function FirstSettled(c: Curve, bytes: Entropy, from: nat, count: nat, attempts: nat): (start: nat)
    requires FairBytes(bytes) && SettlesWithin(c, bytes, from, count, attempts)
    ensures from <= start && Settled(c, bytes, start, count)
    decreases attempts
  {
    if Settled(c, bytes, from, count) then from
    else FirstSettled(c, bytes, EndOf(Positions(bytes, from, count), from), count, attempts - 1)
  }

  lemma {:induction false} FirstSettledIsUnique(c: Curve, bytes: Entropy, from: nat, count: nat,
                                                attempts: nat, attempts': nat)
    requires FairBytes(bytes)
    requires SettlesWithin(c, bytes, from, count, attempts) && SettlesWithin(c, bytes, from, count, attempts')
    ensures FirstSettled(c, bytes, from, count, attempts) == FirstSettled(c, bytes, from, count, attempts')
    decreases attempts
  {
    if Settled(c, bytes, from, count) {
    } else {
      FirstSettledIsUnique(c, bytes, EndOf(Positions(bytes, from, count), from), count, attempts - 1, attempts' - 1);
    }
  }

  /** Inside an attempt every answer is used but the all-zero ones. */
  lemma {:induction false} NothingSkipped(bytes: Entropy, from: nat, count: nat, i: nat, t: nat)
    requires FairBytes(bytes) && i < count
    requires (if i == 0 then from else Positions(bytes, from, count)[i - 1] + 1) <= t < Positions(bytes, from, count)[i]
    ensures bytes(t) == ZERO_SCALAR
    decreases count
  {
    if i == count - 1 {
      NextUsableIsFirst(bytes, EndOf(Positions(bytes, from, count - 1), from));
    } else {
      NothingSkipped(bytes, from, count - 1, i, t);
    }
  }

  ghost function SettledStart(c: Curve, bytes: Entropy, from: nat, count: nat): (start: nat)
    requires FairSums(c, bytes, count)
    ensures from <= start && Settled(c, bytes, start, count)
  {
    assert SettlesLater(c, bytes, from, count);
    var attempts: nat :| SettlesWithin(c, bytes, from, count, attempts);
    FirstSettled(c, bytes, from, count, attempts)
  }

  lemma SettlesSomehow(c: Curve, bytes: Entropy, from: nat, count: nat) returns (attempts: nat)
    requires FairSums(c, bytes, count)
    ensures SettlesWithin(c, bytes, from, count, attempts)
    ensures FirstSettled(c, bytes, from, count, attempts) == SettledStart(c, bytes, from, count)
  {
    assert SettlesLater(c, bytes, from, count);
    attempts :| SettlesWithin(c, bytes, from, count, attempts)
                && FirstSettled(c, bytes, from, count, attempts) == SettledStart(c, bytes, from, count);
  }

  lemma DiscardOne(c: Curve, bytes: Entropy, from: nat, count: nat, attempts: nat)
    requires FairBytes(bytes) && SettlesWithin(c, bytes, from, count, attempts) && !Settled(c, bytes, from, count)
    ensures var next := EndOf(Positions(bytes, from, count), from);
            && attempts > 0 && SettlesWithin(c, bytes, next, count, attempts - 1)
            && FirstSettled(c, bytes, from, count, attempts) == FirstSettled(c, bytes, next, count, attempts - 1)
  {
  }

  /** An attempt is discarded exactly when no draw fails and its sum is zero; the next attempt
      starts right behind it. */
  lemma AttemptStands(c: Curve, bytes: Entropy, from: nat, count: nat)
    requires FairSums(c, bytes, count)
    ensures var positions := Positions(bytes, from, count);
            if Fails(bytes, positions) || Total(ValuesAt(bytes, positions)) % c.n != 0 then
              SettledStart(c, bytes, from, count) == from
            else SettledStart(c, bytes, from, count) == SettledStart(c, bytes, EndOf(positions, from), count)
  {
    var attempts := SettlesSomehow(c, bytes, from, count);
    if !Settled(c, bytes, from, count) {
      var next := EndOf(Positions(bytes, from, count), from);
      var later := SettlesSomehow(c, bytes, next, count);
      DiscardOne(c, bytes, from, count, attempts);
      FirstSettledIsUnique(c, bytes, next, count, attempts - 1, later);
    }
  }

  /** Redraws all coefficients until their sum is non-zero modulo the group order: the
      coefficients are those of the first attempt that settles. */
  method DrawCoefficients(c: Curve, bytes: Entropy, from: nat, count: nat) returns (values: Option<seq<nat>>, next: nat)
    requires FairSums(c, bytes, count)
    ensures var start := SettledStart(c, bytes, from, count);
            var positions := Positions(bytes, start, count);
            && (values.None? <==> Fails(bytes, positions))
            && (values.Some? ==> values.value == ValuesAt(bytes, positions) && next == EndOf(positions, start))
    ensures values.Some? ==> Total(values.value) % c.n != 0
  {
    next := from;
    assert SettlesLater(c, bytes, next, count);
    ghost var attempts: nat :| SettlesWithin(c, bytes, next, count, attempts)
                               && FirstSettled(c, bytes, next, count, attempts) == SettledStart(c, bytes, from, count);
    while true
      invariant SettlesWithin(c, bytes, next, count, attempts)
      invariant FirstSettled(c, bytes, next, count, attempts) == SettledStart(c, bytes, from, count)
      decreases attempts
    {
      var nu;
      values, nu, next := DrawRound(c, bytes, next, count);
      if values.None? || nu != 0 {
        return;
      }
      attempts := attempts - 1;
    }
  }
}
