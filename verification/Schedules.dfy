/** Schedules of concurrent tagging: progress, and exactly when some schedule goes wrong. */
module Schedules {
  import opened Bytes
  import opened Indices
  import opened Encoding
  import opened Slots
  import opened Store
  import opened Tagging
  import opened Concurrency

  // ── Progress ──

  /** How many more turns a worker needs at most. */
  function Pending(w: Worker): nat {
    if Idle(w) then 0
    else
      var left := if w.done < |w.targets| then 3 * (|w.targets| - w.done) else 0;
      if w.phase.Checking? then left + 2
      else if w.phase.Adding? then left + 1
      else if w.phase.Reading? then left
      else if w.phase.Missed? then left - 1
      else left - 2
  }

  function TurnsOf(turns: seq<Turn>, i: nat): nat {
    if turns == [] then 0 else (if turns[0].worker == i then 1 else 0) + TurnsOf(turns[1..], i)
  }

  lemma TurnProgresses(s: System, turn: Turn, i: nat)
    requires i < |s.workers|
    ensures |Step(s, turn).workers| == |s.workers|
    ensures turn.worker != i ==> Step(s, turn).workers[i] == s.workers[i]
    ensures turn.worker == i && !Idle(s.workers[i]) ==> Pending(Step(s, turn).workers[i]) < Pending(s.workers[i])
    ensures Idle(s.workers[i]) ==> Step(s, turn).workers[i] == s.workers[i]
  {
  }

  /** No schedule can block a worker: with that many turns of its own it has finished, no
      matter how they interleave with the turns of the others. */
  lemma {:induction false} EnoughTurnsFinish(s: System, turns: seq<Turn>, i: nat)
    requires i < |s.workers| && TurnsOf(turns, i) >= Pending(s.workers[i])
    ensures |RunTurns(s, turns).workers| == |s.workers| && Idle(RunTurns(s, turns).workers[i])
    decreases |turns|
  {
    if turns == [] {
      PendingIsZero(s.workers[i]);
    } else {
      TurnProgresses(s, turns[0], i);
      EnoughTurnsFinish(Step(s, turns[0]), turns[1..], i);
    }
  }

  lemma PendingIsZero(w: Worker)
    ensures Pending(w) == 0 <==> Idle(w)
  {
  }

  // ── Composing schedules ──

  lemma {:induction false} RunAppend(s: System, xs: seq<Turn>, ys: seq<Turn>)
    ensures RunTurns(s, xs + ys) == RunTurns(RunTurns(s, xs), ys)
    decreases |xs|
  {
    if xs == [] {
      assert xs + ys == ys;
    } else {
      assert (xs + ys)[1..] == xs[1..] + ys;
      RunAppend(Step(s, xs[0]), xs[1..], ys);
    }
  }

  lemma RunOne(s: System, turn: Turn)
    ensures RunTurns(s, [turn]) == Step(s, turn)
  {
    assert RunTurns(Step(s, turn), [turn][1..]) == Step(s, turn);
  }

  /** All turns read the same time. */
  ghost predicate AllAt(turns: seq<Turn>, now: uint64) {
    forall t :: 0 <= t < |turns| ==> turns[t].now == now
  }

  /** No clock runs backwards. */
  ghost predicate Steady(turns: seq<Turn>) {
    forall t, u :: 0 <= t < u < |turns| ==> turns[t].now <= turns[u].now
  }

  lemma EarlyThenLate(xs: seq<Turn>, ys: seq<Turn>)
    requires AllAt(xs, 0) && AllAt(ys, 1)
    ensures Steady(xs + ys)
  {
  }

  // ── What holds of every schedule on a registered file ──

  /** No worker has thrown or is about to, and every tag is signed for what the worker bound. */
  ghost predicate WorkerCalm(w: Worker) {
    && w.done <= |w.targets| && !w.phase.Adding? && !w.phase.Failed?
    && (w.phase.Missed? || w.phase.Holding? ==> w.done < |w.targets|)
    && (forall k: uint64 :: k in w.bound ==> Lookup(w.tags, k) == Some(w.sign(k, w.bound[k])))
  }

  ghost predicate Calm(s: System) {
    s.registered && forall i :: 0 <= i < |s.workers| ==> WorkerCalm(s.workers[i])
  }

  lemma StepKeepsCalm(s: System, turn: Turn)
    requires Calm(s)
    ensures Calm(Step(s, turn))
  {
    if turn.worker < |s.workers| {
      var w := s.workers[turn.worker];
      assert WorkerCalm(w);
      if !Idle(w) && w.phase.Holding? {
        SignKeepsCalm(w, w.phase.m);
      }
      forall i | 0 <= i < |s.workers| ensures WorkerCalm(Step(s, turn).workers[i]) {
        assert WorkerCalm(s.workers[i]);
      }
    }
  }

  lemma SignKeepsCalm(w: Worker, m: Metadata)
    requires WorkerCalm(w) && w.done < |w.targets|
    ensures WorkerCalm(Signed(w, m))
  {
  }

  lemma {:induction false} RunKeepsCalm(s: System, turns: seq<Turn>)
    requires Calm(s)
    ensures Calm(RunTurns(s, turns)) && |RunTurns(s, turns).workers| == |s.workers|
    decreases |turns|
  {
    if turns == [] {
    } else {
      StepKeepsCalm(s, turns[0]);
      StepKeepsRequests(s, turns[0]);
      RunKeepsCalm(Step(s, turns[0]), turns[1..]);
    }
  }

  lemma FreshIsCalm(s: System)
    requires Fresh(s) && s.registered
    ensures Calm(s)
  {
  }

  // ── Every state of a registered file can be completed ──

  function Repeat(i: nat, n: nat, now: uint64): (turns: seq<Turn>)
    ensures |turns| == n && AllAt(turns, now)
  {
    if n == 0 then [] else [Turn(i, now)] + Repeat(i, n - 1, now)
  }

  lemma {:induction false} RepeatTurns(i: nat, n: nat, now: uint64)
    ensures TurnsOf(Repeat(i, n, now), i) == n
  {
    if n == 0 {
    } else {
      RepeatTurns(i, n - 1, now);
    }
  }

  lemma {:induction false} IdleStays(s: System, turns: seq<Turn>, i: nat)
    requires i < |s.workers| && Idle(s.workers[i])
    ensures |RunTurns(s, turns).workers| == |s.workers| && RunTurns(s, turns).workers[i] == s.workers[i]
    decreases |turns|
  {
    if turns == [] {
    } else {
      TurnProgresses(s, turns[0], i);
      IdleStays(Step(s, turns[0]), turns[1..], i);
    }
  }

  /** Finishes the first j workers, one after the other. */
  lemma {:induction false} FinishFirst(s: System, j: nat, now: uint64) returns (turns: seq<Turn>)
    requires j <= |s.workers|
    ensures AllAt(turns, now) && |RunTurns(s, turns).workers| == |s.workers|
    ensures forall i :: 0 <= i < j ==> Idle(RunTurns(s, turns).workers[i])
  {
    if j == 0 {
      turns := [];
    } else {
      var first := FinishFirst(s, j - 1, now);
      var mid := RunTurns(s, first);
      var more := Repeat(j - 1, Pending(mid.workers[j - 1]), now);
      RepeatTurns(j - 1, Pending(mid.workers[j - 1]), now);
      EnoughTurnsFinish(mid, more, j - 1);
      RunAppend(s, first, more);
      turns := first + more;
      forall i | 0 <= i < j ensures Idle(RunTurns(s, turns).workers[i]) {
        if i < j - 1 {
          IdleStays(mid, more, i);
        }
      }
    }
  }

  lemma Finish(s: System, now: uint64) returns (turns: seq<Turn>)
    requires Calm(s)
    ensures AllAt(turns, now) && Complete(RunTurns(s, turns))
  {
    turns := FinishFirst(s, |s.workers|, now);
    RunKeepsCalm(s, turns);
    var final := RunTurns(s, turns);
    forall i | 0 <= i < |final.workers| ensures final.workers[i].done == |final.workers[i].targets| {
      assert WorkerCalm(final.workers[i]) && Idle(final.workers[i]);
    }
  }

  // ── A stale tag ──

  /** Worker i has a tag that is signed for metadata which the store no longer holds. */
  ghost predicate StaleTag(s: System, i: nat, k: uint64) {
    && i < |s.workers| && k in s.workers[i].bound
    && Lookup(s.workers[i].tags, k) == Some(s.workers[i].sign(k, s.workers[i].bound[k]))
    && k in s.slots && s.slots[k] != s.workers[i].bound[k]
  }

  ghost predicate SomeStale(s: System) {
    exists i: nat, k: uint64 :: StaleTag(s, i, k)
  }

  /** A stale tag that stays: the store has an entry for the slot and nobody is about to
      replace it. */
  ghost predicate Lost(s: System, i: nat, k: uint64) {
    && i < |s.workers| && k < LAST && (forall j :: 0 <= j < |s.workers| ==> !Waits(s.workers[j], k))
    && k in s.workers[i].bound && k in s.slots && s.slots[k] != s.workers[i].bound[k]
    && s.workers[i].done <= |s.workers[i].targets| && IsDone(s.workers[i], k)
    && Distinct(s.workers[i].targets) && 0 !in s.workers[i].targets
  }

  /** The worker read nothing in slot k and will register it. */
  predicate Waits(w: Worker, k: uint64) {
    w.phase.Missed? && w.done < |w.targets| && SlotOf(w.targets[w.done]) == k
  }

  lemma StepKeepsLost(s: System, turn: Turn, i: nat, k: uint64)
    requires Calm(s) && Lost(s, i, k)
    ensures Lost(Step(s, turn), i, k)
  {
    if turn.worker < |s.workers| {
      var w := s.workers[turn.worker];
      assert WorkerCalm(w) && !Waits(w, k);
      if !Idle(w) && w.phase.Holding? && turn.worker == i {
        NextIsWanted(w);
        OneMoreDone(w, w.phase.m, k);
      }
      forall j | 0 <= j < |s.workers| ensures !Waits(Step(s, turn).workers[j], k) {
        assert !Waits(s.workers[j], k);
      }
    }
  }

  lemma {:induction false} RunKeepsLost(s: System, turns: seq<Turn>, i: nat, k: uint64)
    requires Calm(s) && Lost(s, i, k)
    ensures Lost(RunTurns(s, turns), i, k)
    decreases |turns|
  {
    if turns == [] {
    } else {
      StepKeepsLost(s, turns[0], i, k);
      StepKeepsCalm(s, turns[0]);
      RunKeepsLost(Step(s, turns[0]), turns[1..], i, k);
    }
  }

  // ── Leading one worker to a target ──

  /** The slots outside the first p targets are as they were. */
  ghost predicate KeepsOtherSlots(slots: FileSlots, slots': FileSlots, targets: seq<uint64>, p: nat) {
    p <= |targets| && forall k: uint64 :: !IsTarget(Members(targets[..p]), k) ==> Lookup(slots', k) == Lookup(slots, k)
  }

  /** Only worker i moved, and it is about to read its target number p. */
  ghost predicate Led(s: System, s': System, i: nat, p: nat) {
    && i < |s.workers| == |s'.workers| && p <= |s.workers[i].targets|
    && (forall v :: 0 <= v < |s.workers| && v != i ==> s'.workers[v] == s.workers[v])
    && s'.workers[i].targets == s.workers[i].targets && s'.workers[i].done == p && s'.workers[i].phase.Reading?
    && KeepsOtherSlots(s.slots, s'.slots, s.workers[i].targets, p)
  }

  lemma OneTarget(s: System, i: nat) returns (turns: seq<Turn>)
    requires Calm(s) && i < |s.workers| && s.workers[i].phase.Reading? && s.workers[i].done < |s.workers[i].targets|
    ensures AllAt(turns, 0)
    ensures var w, s' := s.workers[i], RunTurns(s, turns);
            && |s'.workers| == |s.workers|
            && (forall v :: 0 <= v < |s.workers| && v != i ==> s'.workers[v] == s.workers[v])
            && s'.workers[i].targets == w.targets && s'.workers[i].done == w.done + 1 && s'.workers[i].phase.Reading?
            && forall k: uint64 :: k != SlotOf(w.targets[w.done]) ==> Lookup(s'.slots, k) == Lookup(s.slots, k)
  {
    var turn := Turn(i, 0);
    var read := Step(s, turn);
    if SlotOf(s.workers[i].targets[s.workers[i].done]) in s.slots {
      turns := [turn] + [turn];
      RunAppend(s, [turn], [turn]);
      RunOne(s, turn);
      RunOne(read, turn);
    } else {
      var registered := Step(read, turn);
      turns := [turn] + ([turn] + [turn]);
      RunAppend(s, [turn], [turn] + [turn]);
      RunAppend(read, [turn], [turn]);
      RunOne(s, turn);
      RunOne(read, turn);
      RunOne(registered, turn);
    }
  }

  lemma {:induction false} LeadTo(s: System, i: nat, p: nat) returns (turns: seq<Turn>)
    requires Calm(s) && i < |s.workers| && s.workers[i].phase.Checking? && s.workers[i].done == 0
    requires p <= |s.workers[i].targets| && 0 !in s.workers[i].targets
    ensures AllAt(turns, 0) && Led(s, RunTurns(s, turns), i, p)
  {
    if p == 0 {
      turns := [Turn(i, 0)];
      RunOne(s, Turn(i, 0));
    } else {
      var first := LeadTo(s, i, p - 1);
      var mid := RunTurns(s, first);
      RunKeepsCalm(s, first);
      var more := OneTarget(mid, i);
      RunAppend(s, first, more);
      turns := first + more;
      LeadFurther(s, mid, RunTurns(mid, more), i, p);
    }
  }

  lemma LeadFurther(s: System, mid: System, s': System, i: nat, p: nat)
    requires 0 < p && Led(s, mid, i, p - 1) && p <= |s.workers[i].targets| && |s'.workers| == |s.workers|
    requires 0 !in s.workers[i].targets
    requires forall v :: 0 <= v < |s.workers| && v != i ==> s'.workers[v] == mid.workers[v]
    requires s'.workers[i].targets == mid.workers[i].targets && s'.workers[i].done == p && s'.workers[i].phase.Reading?
    requires forall k: uint64 :: k != SlotOf(s.workers[i].targets[p - 1]) ==>
               Lookup(s'.slots, k) == Lookup(mid.slots, k)
    ensures Led(s, s', i, p)
  {
    var targets := s.workers[i].targets;
    forall k: uint64 | !IsTarget(Members(targets[..p]), k) ensures Lookup(s'.slots, k) == Lookup(s.slots, k) {
      OutsidePrefix(targets, p, k);
    }
  }

  lemma OutsidePrefix(targets: seq<uint64>, p: nat, k: uint64)
    requires 0 < p <= |targets| && 0 !in targets && !IsTarget(Members(targets[..p]), k)
    ensures !IsTarget(Members(targets[..p - 1]), k) && k != SlotOf(targets[p - 1])
  {
    assert targets[..p] == targets[..p - 1] + [targets[p - 1]];
    assert targets[p - 1] in Members(targets[..p]) && targets[p - 1] > 0;
  }

  // ── Two requests for one missing block ──

  /** Workers i and j are both about to read slot k, which is empty, and nobody else has begun. */
  ghost predicate Racing(s: System, i: nat, j: nat, k: uint64) {
    && i < |s.workers| && j < |s.workers| && i != j && k < LAST && k !in s.slots
    && AboutToRead(s.workers[i], k) && AboutToRead(s.workers[j], k)
    && (forall v :: 0 <= v < |s.workers| && v != i && v != j ==> s.workers[v].phase.Checking?)
  }

  ghost predicate AboutToRead(w: Worker, k: uint64) {
    && w.phase.Reading? && w.done < |w.targets| && w.targets[w.done] == k + 1
    && Distinct(w.targets) && 0 !in w.targets
  }

  lemma TargetPosition(w: Worker, k: uint64) returns (p: nat)
    requires Wants(w, k)
    ensures p < |w.targets| && w.targets[p] == k + 1
  {
    p :| 0 <= p < |w.targets| && w.targets[p] == k + 1;
  }

  lemma NotYetThere(targets: seq<uint64>, p: nat, k: uint64)
    requires Distinct(targets) && p < |targets| && k < LAST && targets[p] == k + 1
    ensures !IsTarget(Members(targets[..p]), k)
  {
  }

  lemma LeadToRead(s: System, i: nat, k: uint64) returns (turns: seq<Turn>)
    requires Calm(s) && i < |s.workers| && s.workers[i].phase.Checking? && s.workers[i].done == 0
    requires Distinct(s.workers[i].targets) && 0 !in s.workers[i].targets && Wants(s.workers[i], k) && k !in s.slots
    ensures AllAt(turns, 0)
    ensures var s' := RunTurns(s, turns);
            && Calm(s') && |s'.workers| == |s.workers| && k !in s'.slots && AboutToRead(s'.workers[i], k)
            && (forall v :: 0 <= v < |s.workers| && v != i ==> s'.workers[v] == s.workers[v])
  {
    var p := TargetPosition(s.workers[i], k);
    turns := LeadTo(s, i, p);
    RunKeepsCalm(s, turns);
    NotYetThere(s.workers[i].targets, p, k);
    assert Lookup(RunTurns(s, turns).slots, k) == Lookup(s.slots, k);
  }

  lemma StartRace(s: System, i: nat, j: nat, k: uint64) returns (turns: seq<Turn>)
    requires Fresh(s) && s.registered && i < |s.workers| && j < |s.workers| && i != j
    requires Wants(s.workers[i], k) && Wants(s.workers[j], k) && k !in s.slots
    ensures AllAt(turns, 0) && Calm(RunTurns(s, turns)) && |RunTurns(s, turns).workers| == |s.workers|
    ensures Racing(RunTurns(s, turns), i, j, k)
  {
    FreshIsCalm(s);
    var first := LeadToRead(s, i, k);
    var mid := RunTurns(s, first);
    var second := LeadToRead(mid, j, k);
    RunAppend(s, first, second);
    turns := first + second;
  }

  /** Both read nothing. */
  lemma BothMiss(s: System, i: nat, j: nat, k: uint64)
    requires Calm(s) && Racing(s, i, j, k)
    ensures var s' := Step(Step(s, Turn(i, 0)), Turn(j, 0));
            && s' == System(s.registered, s.slots,
                            s.workers[i := s.workers[i].(phase := Missed)][j := s.workers[j].(phase := Missed)])
  {
  }

  /** The first registers and signs, then the second registers over it. */
  lemma OverwriteAfterSigning(s: System, i: nat, j: nat, k: uint64)
    requires Calm(s) && i < |s.workers| && j < |s.workers| && i != j && k < LAST && k !in s.slots
    requires s.workers[i].phase.Missed? && AboutToRead(s.workers[i].(phase := Reading), k)
    requires s.workers[j].phase.Missed? && AboutToRead(s.workers[j].(phase := Reading), k)
    requires forall v :: 0 <= v < |s.workers| && v != i && v != j ==> s.workers[v].phase.Checking?
    ensures Lost(Step(Step(Step(s, Turn(i, 0)), Turn(i, 0)), Turn(j, 1)), i, k)
  {
    var w, v, m, m' := s.workers[i], s.workers[j], Metadata(1, 0), Metadata(1, 1);
    var held, over := w.(phase := Holding(m)), v.(phase := Holding(m'));
    var s1 := System(s.registered, SetAt(s.slots, k, m), s.workers[i := held]);
    assert Step(s, Turn(i, 0)) == s1;
    var s2 := System(s.registered, s1.slots, s1.workers[i := Signed(held, m)]);
    assert Step(s1, Turn(i, 0)) == s2;
    var s3 := System(s.registered, SetAt(s2.slots, k, m'), s2.workers[j := over]);
    assert Step(s2, Turn(j, 1)) == s3;
    NextIsWanted(held);
    OneMoreDone(held, m, k);
    assert s3.workers[i] == Signed(held, m);
  }

  lemma Race(s: System, i: nat, j: nat, k: uint64) returns (early: seq<Turn>, late: seq<Turn>)
    requires Calm(s) && Racing(s, i, j, k)
    ensures AllAt(early, 0) && AllAt(late, 1) && Lost(RunTurns(s, early + late), i, k)
  {
    BothMiss(s, i, j, k);
    var a, b := Turn(i, 0), Turn(j, 0);
    early, late := [a] + ([b] + ([a] + [a])), [Turn(j, 1)];
    var s2 := Step(Step(s, a), b);
    StepKeepsCalm(s, a);
    StepKeepsCalm(Step(s, a), b);
    OverwriteAfterSigning(s2, i, j, k);
    RunAppend(s, early, late);
    RunAppend(s, [a], [b] + ([a] + [a]));
    RunAppend(Step(s, a), [b], [a] + [a]);
    RunAppend(s2, [a], [a]);
    RunOne(s, a);
    RunOne(Step(s, a), b);
    RunOne(s2, a);
    RunOne(Step(s2, a), a);
    RunOne(RunTurns(s, early), Turn(j, 1));
  }

  /** Some complete schedule, on clocks that never run backwards, leaves a stale tag. */
  ghost predicate GoesWrong(s: System, turns: seq<Turn>) {
    Steady(turns) && Complete(RunTurns(s, turns)) && SomeStale(RunTurns(s, turns))
  }

  lemma SharedMissingGoesWrong(s: System, i: nat, j: nat, k: uint64) returns (turns: seq<Turn>)
    requires Fresh(s) && s.registered && i < |s.workers| && j < |s.workers| && i != j
    requires Wants(s.workers[i], k) && Wants(s.workers[j], k) && k !in s.slots
    ensures GoesWrong(s, turns)
  {
    var start := StartRace(s, i, j, k);
    var racing := RunTurns(s, start);
    var early, late := Race(racing, i, j, k);
    var lost := RunTurns(racing, early + late);
    RunKeepsCalm(racing, early + late);
    var rest := Finish(lost, 1);
    RunKeepsLost(lost, rest, i, k);
    RunKeepsCalm(lost, rest);
    turns := (start + early) + (late + rest);
    EarlyThenLate(start + early, late + rest);
    RunInParts(s, start, early, late, rest);
    LostIsStale(RunTurns(lost, rest), i, k);
  }

  lemma RunInParts(s: System, start: seq<Turn>, early: seq<Turn>, late: seq<Turn>, rest: seq<Turn>)
    ensures RunTurns(s, (start + early) + (late + rest))
         == RunTurns(RunTurns(RunTurns(s, start), early + late), rest)
  {
    assert (start + early) + (late + rest) == start + ((early + late) + rest);
    RunAppend(s, start, (early + late) + rest);
    RunAppend(RunTurns(s, start), early + late, rest);
  }

  lemma LostIsStale(s: System, i: nat, k: uint64)
    requires Calm(s) && Lost(s, i, k)
    ensures SomeStale(s)
  {
    assert WorkerCalm(s.workers[i]);
    assert StaleTag(s, i, k);
  }

  lemma SafeHasNoStale(s: System, turns: seq<Turn>)
    requires Starts(s)
    ensures !SomeStale(RunTurns(s, turns))
  {
    StartIsSafe(s);
    EveryScheduleIsSafe(s.slots, s, turns);
    var final := RunTurns(s, turns);
    forall i: nat, k: uint64 ensures !StaleTag(final, i, k) {
      if i < |final.workers| {
        FittingIsNotStale(final, i, k);
      }
    }
  }

  lemma FittingIsNotStale(s: System, i: nat, k: uint64)
    requires i < |s.workers| && WorkerOk(s.slots, s.workers[i])
    ensures !StaleTag(s, i, k)
  {
    assert TagsFit(s.slots, s.workers[i], k);
  }

  /** The exact condition for agreement, for any number of requests on a registered file: some
      schedule leaves a stale tag exactly when two requests want the same missing block. */
  lemma StaleExactlyWhenShared(s: System)
    requires Fresh(s) && s.registered
    ensures (exists turns :: GoesWrong(s, turns)) <==> !NoSharedMissing(s.slots, s.workers)
    ensures NoSharedMissing(s.slots, s.workers) ==> forall turns :: !SomeStale(RunTurns(s, turns))
  {
    if NoSharedMissing(s.slots, s.workers) {
      forall turns ensures !SomeStale(RunTurns(s, turns)) {
        SafeHasNoStale(s, turns);
      }
    } else {
      var i, j, k: uint64 :|
        && 0 <= i < |s.workers| && 0 <= j < |s.workers| && i != j && k !in s.slots
        && Wants(s.workers[i], k) && Wants(s.workers[j], k);
      var turns := SharedMissingGoesWrong(s, i, j, k);
      assert GoesWrong(s, turns);
    }
  }

  // ── A file that is not registered ──

  ghost predicate SomeFailed(s: System) {
    exists i :: 0 <= i < |s.workers| && s.workers[i].phase.Failed?
  }

  /** Nobody can throw: the file is registered and all have seen it, or there is one request. */
  ghost predicate Tame(s: System) {
    && !SomeFailed(s)
    && (if |s.workers| <= 1 then forall i :: 0 <= i < |s.workers| && s.workers[i].phase.Adding? ==> !s.registered
        else s.registered && forall i :: 0 <= i < |s.workers| ==> !s.workers[i].phase.Adding?)
  }

  lemma StepKeepsTame(s: System, turn: Turn)
    requires Tame(s)
    ensures Tame(Step(s, turn))
  {
    StepKeepsRequests(s, turn);
    var after := Step(s, turn);
    forall i | 0 <= i < |s.workers| ensures !after.workers[i].phase.Failed? {
      assert !s.workers[i].phase.Failed?;
    }
  }

  lemma {:induction false} RunKeepsTame(s: System, turns: seq<Turn>)
    requires Tame(s)
    ensures Tame(RunTurns(s, turns))
    decreases |turns|
  {
    if turns == [] {
    } else {
      StepKeepsTame(s, turns[0]);
      RunKeepsTame(Step(s, turns[0]), turns[1..]);
    }
  }

  /** Under this schedule some request throws. */
  ghost predicate Throws(s: System, turns: seq<Turn>) {
    SomeFailed(RunTurns(s, turns))
  }

  /** Both see no file, and the second to add it throws. */
  lemma SecondAddThrows(s: System) returns (turns: seq<Turn>)
    requires Fresh(s) && !s.registered && |s.workers| >= 2
    ensures Throws(s, turns)
  {
    var a, b := Turn(0, 0), Turn(1, 0);
    var w, v := s.workers[0], s.workers[1];
    turns := [a] + ([b] + ([a] + [b]));
    var s1 := System(false, s.slots, s.workers[0 := w.(phase := Adding)]);
    var s2 := System(false, s.slots, s1.workers[1 := v.(phase := Adding)]);
    var s3 := System(true, s.slots, s2.workers[0 := w.(phase := Reading)]);
    assert Step(s, a) == s1 && Step(s1, b) == s2 && Step(s2, a) == s3;
    RunAppend(s, [a], [b] + ([a] + [b]));
    RunAppend(s1, [b], [a] + [b]);
    RunAppend(s2, [a], [b]);
    RunOne(s, a);
    RunOne(s1, b);
    RunOne(s2, a);
    RunOne(s3, b);
    assert Step(s3, b).workers[1].phase.Failed?;
  }

  /** The exact condition for exceptions, for any number of requests: some schedule throws
      exactly when the file is unregistered and there are at least two of them. */
  lemma ThrowsExactlyWhenUnregistered(s: System)
    requires Fresh(s)
    ensures (exists turns :: Throws(s, turns)) <==> !s.registered && |s.workers| >= 2
  {
    if !s.registered && |s.workers| >= 2 {
      var turns := SecondAddThrows(s);
      assert Throws(s, turns);
    } else {
      forall turns ensures !Throws(s, turns) {
        RunKeepsTame(s, turns);
      }
    }
  }
}
