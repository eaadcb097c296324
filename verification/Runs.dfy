/** Runs of store operations on one file: sparse slots, block lists, and block history. */
module Runs {
  import opened Bytes
  import opened Encoding
  import opened Slots
  import opened Store

  /** One store call of a maintenance request, with the time the store reads for it. */
  datatype Event =
    | Modify(index: uint64, now: uint64)
    | Insertion(index: uint64, now: uint64)
    | Deletion(index: uint64)

  /** Where a run ends, and whether its last call threw. */
  datatype Progress = Progress(slots: FileSlots, threw: bool)

  function Apply(slots: FileSlots, e: Event): Progress {
    var slot := SlotOf(e.index);
    match e
    case Modify(_, now) => if slot in slots then Progress(ModifyAt(slots, slot, now), false) else Progress(slots, true)
    case Insertion(_, now) => Progress(InsertAt(slots, slot, Metadata(1, now)), false)
    case Deletion(_) => if slot in slots then Progress(DeleteAt(slots, slot), false) else Progress(slots, true)
  }

  /** Calls in order; nothing runs after the first one that throws, and nothing is undone. */
  function Run(slots: FileSlots, es: seq<Event>): Progress {
    if es == [] then Progress(slots, false)
    else
      var before := Run(slots, es[..|es| - 1]);
      if before.threw then before else Apply(before.slots, es[|es| - 1])
  }

  function Updates(indices: seq<uint64>, clock: nat -> uint64): seq<Event> {
    seq(|indices|, t requires 0 <= t < |indices| => Modify(indices[t], clock(t)))
  }

  function Insertions(indices: seq<uint64>, clock: nat -> uint64): seq<Event> {
    seq(|indices|, t requires 0 <= t < |indices| => Insertion(indices[t], clock(t)))
  }

  function Deletions(indices: seq<uint64>): seq<Event> {
    seq(|indices|, t requires 0 <= t < |indices| => Deletion(indices[t]))
  }

  // ── Block lists ──

  /** The index is a block of the file, or the place after its last block to insert at. */
  predicate EventFits(n: int, e: Event) {
    if e.Insertion? then 1 <= e.index <= n + 1 <= LAST else 1 <= e.index <= n
  }

  function SizeAfter(n: int, e: Event): int {
    if e.Insertion? then n + 1 else if e.Deletion? then n - 1 else n
  }

  function ApplyList(s: seq<Metadata>, e: Event): (r: seq<Metadata>)
    requires EventFits(|s|, e)
    ensures |r| == SizeAfter(|s|, e)
  {
    var i := e.index - 1;
    match e
    case Modify(_, now) => s[i := Bumped(s[i], now)]
    case Insertion(_, now) => Insert(s, i, Metadata(1, now))
    case Deletion(_) => Remove(s, i)
  }

  function CountAfter(n: int, es: seq<Event>): int {
    if es == [] then n else SizeAfter(CountAfter(n, es[..|es| - 1]), es[|es| - 1])
  }

  predicate Fits(n: int, es: seq<Event>) {
    es == [] || (Fits(n, es[..|es| - 1]) && EventFits(CountAfter(n, es[..|es| - 1]), es[|es| - 1]))
  }

  /** The same run on the list of blocks. */
  function RunList(s: seq<Metadata>, es: seq<Event>): (r: seq<Metadata>)
    requires Fits(|s|, es)
    ensures |r| == CountAfter(|s|, es)
  {
    if es == [] then s else ApplyList(RunList(s, es[..|es| - 1]), es[|es| - 1])
  }

  lemma ApplyRefinesList(s: seq<Metadata>, e: Event)
    requires |s| <= LAST && EventFits(|s|, e)
    ensures SizeAfter(|s|, e) <= LAST
    ensures Apply(Dense(s), e) == Progress(Dense(ApplyList(s, e)), false)
  {
    var k: uint64 := e.index - 1;
    match e
    case Modify(_, now) => SameSlots(ModifyAt(Dense(s), k, now), Dense(ApplyList(s, e)));
    case Insertion(_, now) => InsertRefinesList(s, k, Metadata(1, now));
    case Deletion(_) => DeleteRefinesList(s, k);
  }

  /** Store refinement over whole runs: on a dense file every fitting run of the sparse
      store succeeds, keeps the file dense, and is the run on the list of blocks. */
  lemma {:induction false} RunRefinesList(s: seq<Metadata>, es: seq<Event>)
    requires |s| <= LAST && Fits(|s|, es)
    ensures CountAfter(|s|, es) <= LAST
    ensures Run(Dense(s), es) == Progress(Dense(RunList(s, es)), false)
    ensures IsDense(Run(Dense(s), es).slots)
  {
    if es == [] {
    } else {
      RunRefinesList(s, es[..|es| - 1]);
      ApplyRefinesList(RunList(s, es[..|es| - 1]), es[|es| - 1]);
    }
    DenseSize(RunList(s, es));
  }

  // ── History ──

  /** The position a block had before an event, unless the event registered it. */
  function Back(e: Event, p: nat): Option<nat> {
    if e.Insertion? && p == e.index - 1 then None
    else if e.Insertion? && p >= e.index && p > 0 then Some(p - 1)
    else if e.Deletion? && p >= e.index - 1 then Some(p + 1)
    else Some(p)
  }

  predicate Bumps(e: Event, p: nat) {
    e.Modify? && p == e.index - 1
  }

  /** A block traced back from its final position: where it came from, how often it was
      updated since it was registered, and when it was last stamped. */
  datatype Trace = Trace(origin: Option<nat>, updates: nat, stamp: Option<uint64>)

  function History(es: seq<Event>, p: nat): Trace {
    if es == [] then Trace(Some(p), 0, None)
    else
      var last := es[|es| - 1];
      match Back(last, p)
      case None => Trace(None, 0, Some(last.now))
      case Some(q) =>
        var h := History(es[..|es| - 1], q);
        if Bumps(last, p) then Trace(h.origin, h.updates + 1, Some(last.now)) else h
  }

  lemma BackOverEvent(s: seq<Metadata>, e: Event, p: nat)
    requires EventFits(|s|, e) && p < SizeAfter(|s|, e)
    ensures Back(e, p).Some? ==> Back(e, p).value < |s|
    ensures ApplyList(s, e)[p] ==
              if Back(e, p).None? then Metadata(1, e.now)
              else if Bumps(e, p) then Bumped(s[p], e.now)
              else s[Back(e, p).value]
  {
  }

  lemma NextAdds(version: nat)
    ensures Next(version % TWO64) == (version + 1) % TWO64
  {
  }

  /** Version history over any run: a block's version is the one it was registered with
      plus the updates it received (in 64-bit arithmetic), found by tracing the block
      backwards through every shift; its timestamp is that of its last stamp. */
  lemma {:induction false} VersionHistory(s: seq<Metadata>, es: seq<Event>, p: nat)
    requires Fits(|s|, es) && p < CountAfter(|s|, es)
    ensures History(es, p).origin.Some? ==> History(es, p).origin.value < |s|
    ensures var h := History(es, p);
            RunList(s, es)[p].version == ((if h.origin.Some? then s[h.origin.value].version else 1) + h.updates) % TWO64
    ensures var h := History(es, p);
            if h.stamp.Some? then RunList(s, es)[p].timestamp == h.stamp.value
            else h.origin.Some? && h.updates == 0 && RunList(s, es)[p] == s[h.origin.value]
  {
    if es == [] {
    } else {
      var front, last := es[..|es| - 1], es[|es| - 1];
      BackOverEvent(RunList(s, front), last, p);
      if Back(last, p).Some? {
        var q := Back(last, p).value;
        VersionHistory(s, front, q);
        var h := History(front, q);
        NextAdds((if h.origin.Some? then s[h.origin.value].version else 1) + h.updates);
      }
    }
  }

  /** A block that a run registered and never updated. */
  lemma {:induction false} FreshBlock(s: seq<Metadata>, es: seq<Event>, p: nat, now: uint64)
    requires Fits(|s|, es) && p < CountAfter(|s|, es) && History(es, p) == Trace(None, 0, Some(now))
    ensures RunList(s, es)[p] == Metadata(1, now)
  {
    var front, last := es[..|es| - 1], es[|es| - 1];
    BackOverEvent(RunList(s, front), last, p);
    if Back(last, p).Some? {
      FreshBlock(s, front, Back(last, p).value, now);
    }
  }

  /** No run duplicates or reorders blocks: origins grow with the final position. */
  lemma {:induction false} OriginsAscend(n: nat, es: seq<Event>, p: nat, q: nat)
    requires Fits(n, es) && p < q < CountAfter(n, es)
    requires History(es, p).origin.Some? && History(es, q).origin.Some?
    ensures History(es, p).origin.value < History(es, q).origin.value
  {
    if es == [] {
    } else {
      var front, last := es[..|es| - 1], es[|es| - 1];
      OriginsAscend(n, front, Back(last, p).value, Back(last, q).value);
    }
  }

  /** Where the block at original position q ends, unless the run deletes it. */
  function Forward(es: seq<Event>, q: nat): Option<nat> {
    if es == [] then Some(q)
    else
      match Forward(es[..|es| - 1], q)
      case None => None
      case Some(p) => Onward(es[|es| - 1], p)
  }

  function Onward(e: Event, p: nat): Option<nat> {
    if e.Deletion? && p == e.index - 1 then None
    else if e.Deletion? && p >= e.index && p > 0 then Some(p - 1)
    else if e.Insertion? && p >= e.index - 1 then Some(p + 1)
    else Some(p)
  }

  /** Tracing forwards and backwards are inverse: a surviving block is found again, and
      every final block with an origin is that block. Nothing is lost but what is deleted. */
  lemma {:induction false} ForwardInvertsHistory(n: nat, es: seq<Event>, q: nat, p: nat)
    requires Fits(n, es) && q < n
    ensures Forward(es, q) == Some(p) <==> p < CountAfter(n, es) && History(es, p).origin == Some(q)
  {
    if es == [] {
    } else {
      var front, last := es[..|es| - 1], es[|es| - 1];
      if Back(last, p).Some? {
        ForwardInvertsHistory(n, front, q, Back(last, p).value);
      }
      if Forward(front, q).Some? {
        ForwardInvertsHistory(n, front, q, Forward(front, q).value);
      }
    }
  }
}
