/** make_binding: reconcile (attribute location, pointer) pairs with the
    active attributes of a shader program. A coverage vector of one flag per
    active attribute is filled in one pass over the pairs (each accepted pair
    also issues its glVertexAttribPointer call), and a second pass fails the
    binding if any active attribute is left uncovered. The GL calls are
    recorded as a trace of BindCall values. */
module VertexArray {
  import opened GLTypes

  /** One element of make_binding's argument: an attribute location (-1 when
      the program has no such attribute) and the pointer to bind there. */
  datatype Location = Location(slot: i32, pointer: AttribPointer)

  /** One glBindBuffer + glVertexAttribPointer pair of calls. */
  datatype BindCall = BindCall(slot: i32, buffer: u32, size: i32, glType: u32, normalized: bool, stride: i32, offset: u32)

  /** How make_binding ends: with a vertex array, or by throwing. The
      incomplete case lists the uncovered locations in the order the second
      pass reports them. */
  datatype Binding = Bound | UndefinedPointer | IncompleteBinding(unbound: seq<int>)

  predicate IsSentinel(l: Location)
  {
    l.slot == -1
  }

  /** A pair that makes the first pass throw: a real location, no data. */
  predicate Throws(l: Location)
  {
    !IsSentinel(l) && !l.pointer.Defined()
  }

  /** The call issued for an accepted pair. */
  function CallOf(l: Location): BindCall
  {
    BindCall(l.slot, l.pointer.buffer, l.pointer.size, l.pointer.glType, l.pointer.normalized, l.pointer.stride, l.pointer.offset)
  }

  /** The position of the first throwing pair, or |locs| when there is none. */
  function FirstUndefined(locs: seq<Location>): (k: nat)
    ensures k <= |locs|
    ensures forall j :: 0 <= j < k ==> !Throws(locs[j])
    ensures k < |locs| ==> Throws(locs[k])
  {
    if locs == [] then 0
    else if Throws(locs[0]) then 0
    else 1 + FirstUndefined(locs[1..])
  }

  /** The calls the first pass issues for pairs none of which throws: one per
      pair whose location is not -1, in order. */
  function Calls(locs: seq<Location>): seq<BindCall>
  {
    if locs == [] then []
    else
      var last := locs[|locs| - 1];
      Calls(locs[..|locs| - 1]) + (if IsSentinel(last) then [] else [CallOf(last)])
  }

  /** The number of pairs whose location is not -1, counted from the front. */
  function RealPairCount(locs: seq<Location>): nat
  {
    if locs == [] then 0
    else (if IsSentinel(locs[0]) then 0 else 1) + RealPairCount(locs[1..])
  }

  /** The uncovered locations among 0 .. n-1, in increasing order. */
  function Unbound(n: nat, covered: set<int>): (r: seq<int>)
    ensures forall x :: x in r <==> 0 <= x < n && x !in covered
  {
    if n == 0 then [] else Unbound(n - 1, covered) + (if n - 1 in covered then [] else [n - 1])
  }

  /** The locations a sequence of calls targets. */
  function Targets(calls: seq<BindCall>): set<int>
  {
    set i | 0 <= i < |calls| :: calls[i].slot as int
  }

  /** The set {0, ..., n-1}, built up one element at a time. */
  function Range(n: nat): (r: set<int>)
    ensures forall x :: x in r <==> 0 <= x < n
    ensures |r| == n
  {
    if n == 0 then {} else
      var below := Range(n - 1);
      assert n - 1 !in below;
      below + {n - 1}
  }

  /** What the two assertions of the first pass demand of every pair that
      pass reaches (the pairs up to and including the first throwing one):
      a location other than -1 is an active attribute not already covered. */
  predicate AssertionsHold(active: i32, locs: seq<Location>)
  {
    forall i :: 0 <= i < |locs| && i <= FirstUndefined(locs) && !IsSentinel(locs[i]) ==>
      && 0 <= locs[i].slot < active
      && forall j :: 0 <= j < i ==> locs[j].slot != locs[i].slot
  }

  /** The result and the call trace of make_binding. A throwing pair stops the
      first pass with the calls of the pairs before it already issued;
      otherwise the binding succeeds exactly when no active attribute is left
      uncovered. */
  function BindingOutcome(active: nat, locs: seq<Location>): (Binding, seq<BindCall>)
  {
    var k := FirstUndefined(locs);
    if k < |locs| then (UndefinedPointer, Calls(locs[..k]))
    else (ScanOutcome(active, Targets(Calls(locs))), Calls(locs))
  }

  /** Every location below active is in covered. */
  predicate AllCovered(active: nat, covered: set<int>)
  {
    forall s :: 0 <= s < active ==> s in covered
  }

  /** The verdict of the second pass, given the covered locations. */
  function ScanOutcome(active: nat, covered: set<int>): Binding
  {
    var missing := Unbound(active, covered);
    if missing == [] then Bound else IncompleteBinding(missing)
  }

  /** make_binding(program, locations), with the program's active attribute
      count as an input: the coverage pass, then the scan for uncovered
      attributes. */
  method MakeBinding(active: i32, locs: seq<Location>) returns (result: Binding, trace: seq<BindCall>)
    requires active > 0
    requires AssertionsHold(active, locs)
    ensures (result, trace) == BindingOutcome(active as nat, locs)
    ensures result == Bound ==> |trace| == active as int && Targets(trace) == Range(active as nat)
  {
    var bound := new bool[active](_ => false);
    var complete;
    complete, trace := CoverPass(active, locs, bound);
    if !complete {
      result := UndefinedPointer;
      return;
    }
    assert locs[..|locs|] == locs;
    ghost var covered := Targets(trace);
    var unbound, missing := ScanUnbound(bound, covered);
    assert BindingOutcome(active as nat, locs) == (ScanOutcome(active as nat, covered), Calls(locs));
    if unbound {
      result := IncompleteBinding(missing);
      return;
    }
    result := Bound;
    CompleteBindingCallsEachOnce(active, locs);
  }

  /** The first loop of make_binding: mark each pair's location as covered and
      issue its call, skipping location -1, until a pair with an undefined
      pointer throws. */
  method CoverPass(active: i32, locs: seq<Location>, bound: array<bool>) returns (complete: bool, trace: seq<BindCall>)
    requires bound.Length == active as int
    requires forall s :: 0 <= s < bound.Length ==> !bound[s]
    requires AssertionsHold(active, locs)
    modifies bound
    ensures complete <==> FirstUndefined(locs) == |locs|
    ensures trace == Calls(locs[..FirstUndefined(locs)])
    ensures complete ==> forall s :: 0 <= s < bound.Length ==> (bound[s] <==> s in Targets(trace))
  {
    trace := [];
    ghost var covered: set<int> := {};
    var i := 0;
    while i < |locs|
      invariant 0 <= i <= |locs|
      invariant forall j :: 0 <= j < i ==> !Throws(locs[j])
      invariant trace == Calls(locs[..i])
      invariant covered == Targets(trace)
      invariant forall s :: 0 <= s < active ==> (bound[s] <==> s in covered)
      invariant forall s :: s in covered ==> 0 <= s < active
    {
      var lp := locs[i];
      CallsStep(locs, i);
      if lp.slot == -1 {
        // A pointer for an attribute the program lacks only earns a warning.
      } else {
        ReachedPairIsFresh(active, locs, i);
        assert 0 <= lp.slot < active;
        assert !bound[lp.slot];
        if !lp.pointer.Defined() {
          FirstUndefinedIs(locs, i);
          return false, trace;
        }
        bound[lp.slot] := true;
        TargetsStep(trace, CallOf(lp));
        trace := trace + [CallOf(lp)];
        covered := covered + {lp.slot as int};
      }
      i := i + 1;
    }
    assert locs[..i] == locs;
    FirstUndefinedIs(locs, i);
    complete := true;
  }

  /** The second loop of make_binding: collect every location whose flag is
      still false, in increasing order. */
  method ScanUnbound(bound: array<bool>, ghost covered: set<int>) returns (unbound: bool, missing: seq<int>)
    requires forall s :: 0 <= s < bound.Length ==> (bound[s] <==> s in covered)
    ensures missing == Unbound(bound.Length, covered)
    ensures unbound <==> missing != []
    ensures unbound <==> exists s :: 0 <= s < bound.Length && s !in covered
  {
    unbound := false;
    missing := [];
    var l := 0;
    while l < bound.Length
      invariant 0 <= l <= bound.Length
      invariant missing == Unbound(l, covered)
      invariant unbound <==> missing != []
    {
      if !bound[l] {
        missing := missing + [l];
        unbound := true;
      }
      l := l + 1;
    }
    UnboundEmptyIff(bound.Length, covered);
  }

  // ---------------------------------------------------------------------------
  // Lemmas

  /** One step of the first pass: a pair adds its call unless its location is -1. */
  lemma {:induction false} CallsStep(locs: seq<Location>, i: nat)
    requires i < |locs|
    ensures Calls(locs[..i + 1]) == Calls(locs[..i]) + (if IsSentinel(locs[i]) then [] else [CallOf(locs[i])])
  {
    assert locs[..i + 1][..i] == locs[..i];
  }

  lemma {:induction false} TargetsStep(calls: seq<BindCall>, c: BindCall)
    ensures Targets(calls + [c]) == Targets(calls) + {c.slot as int}
  {
    var longer := calls + [c];
    forall x | x in Targets(longer) ensures x in Targets(calls) + {c.slot as int} {
      var i :| 0 <= i < |longer| && longer[i].slot as int == x;
      if i < |calls| {
        assert longer[i] == calls[i];
      }
    }
    forall x | x in Targets(calls) ensures x in Targets(longer) {
      var i :| 0 <= i < |calls| && calls[i].slot as int == x;
      assert longer[i] == calls[i];
    }
    assert longer[|calls|] == c;
  }

  /** Characterisation helper: the contract of FirstUndefined already fixes
      the position, so this only restates it in the form the loops use. */
  lemma {:induction false} FirstUndefinedIs(locs: seq<Location>, k: nat)
    requires k <= |locs|
    requires forall j :: 0 <= j < k ==> !Throws(locs[j])
    requires k < |locs| ==> Throws(locs[k])
    ensures FirstUndefined(locs) == k
  {
  }

  /** A non-sentinel pair the first pass reaches names an active location
      that no earlier call has bound (the two assertions of the pass). */
  lemma {:induction false} ReachedPairIsFresh(active: i32, locs: seq<Location>, i: nat)
    requires AssertionsHold(active, locs)
    requires i < |locs| && !IsSentinel(locs[i])
    requires forall j :: 0 <= j < i ==> !Throws(locs[j])
    ensures 0 <= locs[i].slot < active
    ensures locs[i].slot as int !in Targets(Calls(locs[..i]))
  {
    FirstUndefinedAtLeast(locs, i);
    var prefix := locs[..i];
    var calls := Calls(prefix);
    CallsOfPairs(prefix);
    forall k | 0 <= k < |calls| ensures calls[k].slot != locs[i].slot {
      assert calls[k] in calls;
      var j :| 0 <= j < |prefix| && !IsSentinel(prefix[j]) && calls[k] == CallOf(prefix[j]);
      assert prefix[j] == locs[j];
    }
  }

  /** Characterisation helper: when the first k pairs do not throw, the first
      throwing pair, if any, comes at k or later. */
  lemma {:induction false} FirstUndefinedAtLeast(locs: seq<Location>, k: nat)
    requires k <= |locs|
    requires forall j :: 0 <= j < k ==> !Throws(locs[j])
    ensures k <= FirstUndefined(locs)
  {
  }

  /** The calls of two consecutive runs of pairs are the calls of each run, in order. */
  lemma {:induction false} CallsAppend(a: seq<Location>, b: seq<Location>)
    ensures Calls(a + b) == Calls(a) + Calls(b)
  {
    if b == [] {
      assert a + b == a;
    } else {
      var b' := b[..|b| - 1];
      assert (a + b)[..|a + b| - 1] == a + b';
      CallsAppend(a, b');
    }
  }

  /** The first pass throws iff some pair has a real location and an
      undefined pointer; the calls already issued then stay in the trace,
      which is a prefix of the calls a complete pass would issue. */
  lemma {:induction false} UndefinedIff(active: nat, locs: seq<Location>)
    ensures BindingOutcome(active, locs).0 == UndefinedPointer <==> exists k :: 0 <= k < |locs| && Throws(locs[k])
    ensures BindingOutcome(active, locs).0 == UndefinedPointer ==>
              BindingOutcome(active, locs).1 == Calls(locs[..FirstUndefined(locs)])
              && BindingOutcome(active, locs).1 <= Calls(locs)
  {
    var k := FirstUndefined(locs);
    if k < |locs| {
      assert locs == locs[..k] + locs[k..];
      CallsAppend(locs[..k], locs[k..]);
    } else {
      ScanOutcomeIff(active, Targets(Calls(locs)));
    }
  }

  /** A pair with location -1 is invisible to the first pass: dropping it
      changes neither the calls issued nor the coverage, whether or not its
      pointer is defined. */
  lemma {:induction false} SentinelIsInvisible(locs: seq<Location>, i: nat)
    requires i < |locs| && IsSentinel(locs[i])
    ensures Calls(locs) == Calls(locs[..i] + locs[i + 1..])
  {
    var a, x, b := locs[..i], locs[i], locs[i + 1..];
    assert locs == (a + [x]) + b;
    assert (a + [x])[..|a|] == a;
    CallsAppend(a + [x], b);
    CallsAppend(a, b);
  }

  /** One call per pair whose location is not -1. */
  lemma {:induction false} CallsCount(locs: seq<Location>)
    ensures |Calls(locs)| == RealPairCount(locs)
  {
    if locs != [] {
      var head, tail := [locs[0]], locs[1..];
      assert locs == head + tail;
      CallsAppend(head, tail);
      assert head[..0] == [];
      assert Calls(head) == (if IsSentinel(locs[0]) then [] else [CallOf(locs[0])]);
      CallsCount(tail);
    }
  }

  /** The calls issued are exactly those of the non-sentinel pairs, one per
      such pair: each carries its pair's location and pointer fields. */
  lemma {:induction false} CallsOfPairs(locs: seq<Location>)
    ensures forall c :: c in Calls(locs) <==> exists j :: 0 <= j < |locs| && !IsSentinel(locs[j]) && c == CallOf(locs[j])
    ensures |Calls(locs)| == RealPairCount(locs)
  {
    CallsCount(locs);
    if locs != [] {
      var prefix := locs[..|locs| - 1];
      CallsOfPairs(prefix);
      forall c ensures c in Calls(locs) <==> exists j :: 0 <= j < |locs| && !IsSentinel(locs[j]) && c == CallOf(locs[j]) {
        if exists j :: 0 <= j < |prefix| && !IsSentinel(prefix[j]) && c == CallOf(prefix[j]) {
          var j :| 0 <= j < |prefix| && !IsSentinel(prefix[j]) && c == CallOf(prefix[j]);
          assert locs[j] == prefix[j];
        }
        if exists j :: 0 <= j < |locs| && !IsSentinel(locs[j]) && c == CallOf(locs[j]) {
          var j :| 0 <= j < |locs| && !IsSentinel(locs[j]) && c == CallOf(locs[j]);
          if j < |locs| - 1 {
            assert prefix[j] == locs[j];
          }
        }
      }
    }
  }

  /** make_binding succeeds iff no pair throws and every active attribute is
      covered; a missing attribute always leads to the incomplete-binding
      failure, which names exactly the uncovered ones. */
  lemma {:induction false} BoundIff(active: nat, locs: seq<Location>)
    ensures BindingOutcome(active, locs).0 == Bound <==>
              FirstUndefined(locs) == |locs| && AllCovered(active, Targets(Calls(locs)))
    ensures BindingOutcome(active, locs).0.IncompleteBinding? <==>
              FirstUndefined(locs) == |locs| && exists s :: 0 <= s < active && s !in Targets(Calls(locs))
    ensures BindingOutcome(active, locs).0.IncompleteBinding? ==>
              forall s :: s in BindingOutcome(active, locs).0.unbound <==> 0 <= s < active && s !in Targets(Calls(locs))
  {
    var covered := Targets(Calls(locs));
    ScanOutcomeIff(active, covered);
    if FirstUndefined(locs) == |locs| {
      assert BindingOutcome(active, locs).0 == ScanOutcome(active, covered);
    }
  }

  /** The second pass succeeds iff every active location is covered, and
      otherwise names exactly the uncovered ones. */
  lemma {:induction false} ScanOutcomeIff(active: nat, covered: set<int>)
    ensures ScanOutcome(active, covered) == Bound <==> AllCovered(active, covered)
    ensures ScanOutcome(active, covered).IncompleteBinding? <==> exists s :: 0 <= s < active && s !in covered
    ensures ScanOutcome(active, covered).IncompleteBinding? ==>
              forall s :: s in ScanOutcome(active, covered).unbound <==> 0 <= s < active && s !in covered
  {
    UnboundEmptyIff(active, covered);
  }

  /** The second pass reports the uncovered locations in increasing order. */
  lemma {:induction false} UnboundIncreasing(n: nat, covered: set<int>)
    ensures forall i, j :: 0 <= i < j < |Unbound(n, covered)| ==> Unbound(n, covered)[i] < Unbound(n, covered)[j]
  {
    if n > 0 {
      UnboundIncreasing(n - 1, covered);
      var below := Unbound(n - 1, covered);
      assert forall i :: 0 <= i < |below| ==> below[i] in below;
    }
  }

  /** The second pass reports nothing iff every location below n is covered. */
  lemma {:induction false} UnboundEmptyIff(n: nat, covered: set<int>)
    ensures Unbound(n, covered) == [] <==> forall s :: 0 <= s < n ==> s in covered
    ensures Unbound(n, covered) != [] <==> exists s :: 0 <= s < n && s !in covered
  {
    var missing := Unbound(n, covered);
    if missing == [] {
      forall s | 0 <= s < n ensures s in covered {
        assert s !in missing;
      }
    } else {
      assert missing[0] in missing;
    }
  }

  /** Under the assertions, the calls of a pass with no throwing pair target
      pairwise different locations, all of them in [0, active). */
  lemma {:induction false} CallsDistinct(active: i32, locs: seq<Location>)
    requires AssertionsHold(active, locs)
    requires FirstUndefined(locs) == |locs|
    ensures forall i, j :: 0 <= i < j < |Calls(locs)| ==> Calls(locs)[i].slot != Calls(locs)[j].slot
    ensures forall i :: 0 <= i < |Calls(locs)| ==> 0 <= Calls(locs)[i].slot < active
  {
    if locs != [] {
      var prefix := locs[..|locs| - 1];
      var last := locs[|locs| - 1];
      FirstUndefinedIs(prefix, |prefix|);
      assert AssertionsHold(active, prefix) by {
        forall i | 0 <= i < |prefix| && i <= FirstUndefined(prefix) && !IsSentinel(prefix[i])
          ensures 0 <= prefix[i].slot < active && forall j :: 0 <= j < i ==> prefix[j].slot != prefix[i].slot
        {
          assert prefix[i] == locs[i];
          forall j | 0 <= j < i ensures prefix[j].slot != prefix[i].slot {
            assert prefix[j] == locs[j];
          }
        }
      }
      CallsDistinct(active, prefix);
      var cs := Calls(prefix);
      if !IsSentinel(last) {
        forall i | 0 <= i < |cs| ensures cs[i].slot != last.slot {
          CallsOfPairs(prefix);
          assert cs[i] in cs;
          var j :| 0 <= j < |prefix| && !IsSentinel(prefix[j]) && cs[i] == CallOf(prefix[j]);
          assert prefix[j] == locs[j];
        }
        assert Calls(locs) == cs + [CallOf(last)];
      } else {
        assert Calls(locs) == cs;
      }
    }
  }

  /** The number of distinct values in a sequence of pairwise different slots is its length. */
  lemma {:induction false} DistinctSlotsCount(calls: seq<BindCall>)
    requires forall i, j :: 0 <= i < j < |calls| ==> calls[i].slot != calls[j].slot
    ensures |Targets(calls)| == |calls|
  {
    if calls != [] {
      var prefix := calls[..|calls| - 1];
      var last := calls[|calls| - 1];
      DistinctSlotsCount(prefix);
      forall i | 0 <= i < |prefix| ensures prefix[i].slot != last.slot {
        assert prefix[i] == calls[i];
      }
      assert calls == prefix + [last];
      TargetsStep(prefix, last);
    }
  }

  /** On success every active attribute is bound by exactly one call: the
      calls target pairwise different locations, each active location is the
      target of one of them, and there are exactly `active` of them. */
  lemma {:induction false} CompleteBindingCallsEachOnce(active: i32, locs: seq<Location>)
    requires active > 0
    requires AssertionsHold(active, locs)
    requires BindingOutcome(active as nat, locs).0 == Bound
    ensures var calls := BindingOutcome(active as nat, locs).1;
            && |calls| == active as int
            && (forall i, j :: 0 <= i < j < |calls| ==> calls[i].slot != calls[j].slot)
            && Targets(calls) == Range(active as nat)
  {
    BoundIff(active as nat, locs);
    CallsDistinct(active, locs);
    var calls := Calls(locs);
    DistinctSlotsCount(calls);
    assert Targets(calls) == Range(active as nat) by {
      forall s | s in Targets(calls) ensures s in Range(active as nat) {
        var i :| 0 <= i < |calls| && calls[i].slot as int == s;
      }
    }
  }
}
