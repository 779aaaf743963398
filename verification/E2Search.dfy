// The depth-first search for exact framings: it gives up after two different value lists, remembers
// the states from which no framing starts, and has a budget of states.

module E2Search {
  import opened Bytes
  import opened Fields
  import opened E2Record
  import opened E2Framing

  const MAX_AMBIGUITY_STATES: nat := 16384
  const MAX_AMBIGUITY_FIELDS: nat := 256

  // -- What a search collects --

  predicate Contains(candidates: seq<Values>, values: Values) {
    exists k :: 0 <= k < |candidates| && SameAll(candidates[k], values)
  }

  /** Add value lists in order, without those equal to an earlier one, until there are two. */
  function Collect(candidates: seq<Values>, lists: seq<Values>): (r: seq<Values>)
    ensures candidates <= r
    ensures |candidates| >= 2 ==> r == candidates
    decreases |lists|
  {
    if |candidates| >= 2 || lists == [] then candidates
    else Collect(if Contains(candidates, lists[0]) then candidates else candidates + [lists[0]], lists[1..])
  }

  lemma {:induction false} CollectAppend(candidates: seq<Values>, a: seq<Values>, b: seq<Values>)
    ensures Collect(candidates, a + b) == Collect(Collect(candidates, a), b)
    decreases |a|
  {
    if a == [] {
      assert a + b == b;
    } else if |candidates| < 2 {
      assert (a + b)[1..] == a[1..] + b;
      CollectAppend(if Contains(candidates, a[0]) then candidates else candidates + [a[0]], a[1..], b);
    }
  }

  lemma PrefixedAppend(prefix: Values, a: seq<Values>, b: seq<Values>)
    ensures Prefixed(prefix, a + b) == Prefixed(prefix, a) + Prefixed(prefix, b)
  {
  }

  lemma PrefixedTwice(prefix: Values, value: FieldValue, lists: seq<Values>)
    ensures Prefixed(prefix, Prefixed([value], lists)) == Prefixed(prefix + [value], lists)
  {
    forall k | 0 <= k < |lists|
      ensures prefix + ([value] + lists[k]) == (prefix + [value]) + lists[k]
    {
    }
  }

  // -- How many states there are --

  /** States of the whole search tree below field `i` at `offset`. */
  function TreeSize(s: Schema, record: Bytes, base: nat, i: nat, offset: nat, firstDate: bool): (n: nat)
    requires i <= |s.fields|
    ensures n >= 1
    decreases |s.fields| - i, 1, 0
  {
    if i == |s.fields| then 1
    else
      var alternatives := AlternativesAt(s, record, i, offset, firstDate, base);
      1 + BranchesSize(s, record, base, i, firstDate, alternatives, |alternatives|)
  }

  function BranchesSize(s: Schema, record: Bytes, base: nat, i: nat, firstDate: bool, alternatives: seq<Alternative>,
      k: nat): nat
    requires i < |s.fields| && k <= |alternatives|
    decreases |s.fields| - i, 0, k
  {
    if k == 0 then 0
    else
      BranchesSize(s, record, base, i, firstDate, alternatives, k - 1)
      + TreeSize(s, record, base, i + 1, alternatives[k - 1].end, firstDate && s.fields[i] != Date)
  }

  lemma {:induction false} BranchesSizeGrows(s: Schema, record: Bytes, base: nat, i: nat, firstDate: bool,
      alternatives: seq<Alternative>, j: nat, k: nat)
    requires i < |s.fields| && j <= k <= |alternatives|
    ensures BranchesSize(s, record, base, i, firstDate, alternatives, j)
      <= BranchesSize(s, record, base, i, firstDate, alternatives, k)
    decreases k
  {
    hide TreeSize;
    if j < k {
      BranchesSizeGrows(s, record, base, i, firstDate, alternatives, j, k - 1);
    }
  }

  // -- The search --

  datatype SearchState = SearchState(i: nat, offset: nat, firstDate: bool)

  /** From a failed state no exact framing starts. */
  ghost predicate Fails(s: Schema, record: Bytes, base: nat, state: SearchState) {
    state.i <= |s.fields| && Framings(s, record, base, state.i, state.offset, state.firstDate) == []
  }

  class AmbiguitySearch {
    const schema: Schema
    const record: Bytes
    const base: nat
    var failedStates: set<SearchState>
    var statesExamined: nat
    var candidates: seq<Values>

    constructor (schema: Schema, record: Bytes, base: nat)
      ensures this.schema == schema && this.record == record && this.base == base
      ensures failedStates == {} && statesExamined == 0 && candidates == []
    {
      this.schema, this.record, this.base := schema, record, base;
      failedStates, statesExamined, candidates := {}, 0, [];
    }

    ghost predicate Sound()
      reads this`failedStates
    {
      forall state :: state in failedStates ==> Fails(schema, record, base, state)
    }

    ghost function Lists(i: nat, offset: nat, firstDate: bool): seq<Values>
      requires i <= |schema.fields|
    {
      Framings(schema, record, base, i, offset, firstDate)
    }

    /**
      * Search from field `i` at `offset` with the values before it. The candidates become what
      * collecting all framings there would make them; the result says whether there are any
      * (None: the budget is exhausted).
      */
    method From(i: nat, offset: nat, firstDate: bool, values: Values) returns (found: Option<bool>)
      requires Sound() && i <= |schema.fields|
      modifies this
      ensures Sound()
      ensures found.Some? ==> candidates == Collect(old(candidates), Prefixed(values, Lists(i, offset, firstDate)))
      ensures found.Some? && old(|candidates|) < 2 ==> (found.value <==> Lists(i, offset, firstDate) != [])
      ensures found == None ==> statesExamined > MAX_AMBIGUITY_STATES
      ensures statesExamined <= old(statesExamined) + TreeSize(schema, record, base, i, offset, firstDate)
      ensures old(failedStates) <= failedStates
      ensures found == Some(false) && i < |schema.fields| ==> SearchState(i, offset, firstDate) in failedStates
      ensures old(|candidates|) < 2 ==> old(statesExamined) < statesExamined
      ensures found.Some? && old(|candidates|) < 2 ==> statesExamined <= MAX_AMBIGUITY_STATES
      decreases |schema.fields| - i, 1
    {
      if |candidates| >= 2 {
        return Some(true);
      }
      statesExamined := statesExamined + 1;
      if statesExamined > MAX_AMBIGUITY_STATES {
        return None;
      }
      CollectLeaf(candidates, values);
      CollectNothing(candidates);
      if i == |schema.fields| {
        if offset == |record| && !Contains(candidates, values) {
          candidates := candidates + [values];
        }
        return Some(offset == |record|);
      }
      if SearchState(i, offset, firstDate) in failedStates {
        return Some(false);
      }
      hide Framings;
      hide TreeSize;
      hide Collect;
      var alternatives := AlternativesAt(schema, record, i, offset, firstDate, base);
      var candidatesBefore := |candidates|;
      found := TryEach(i, firstDate, values, alternatives);
      FramingsAreBranches(schema, record, base, i, offset, firstDate);
      TreeIsBranches(schema, record, base, i, offset, firstDate);
      if found == Some(false) && |candidates| == candidatesBefore {
        failedStates := failedStates + {SearchState(i, offset, firstDate)};
      }
    }

    /** The alternatives of field `i`, one after the other, until there are two candidates. */
    method TryEach(i: nat, firstDate: bool, values: Values, alternatives: seq<Alternative>)
      returns (found: Option<bool>)
      requires Sound() && i < |schema.fields| && |candidates| < 2 && statesExamined <= MAX_AMBIGUITY_STATES
      modifies this
      ensures Sound()
      ensures found.Some? ==>
        candidates
          == Collect(old(candidates),
            Prefixed(values, Branches(schema, record, base, i, firstDate, alternatives, |alternatives|)))
      ensures found.Some?
        ==> (found.value <==> Branches(schema, record, base, i, firstDate, alternatives, |alternatives|) != [])
      ensures found == None ==> statesExamined > MAX_AMBIGUITY_STATES
      ensures old(failedStates) <= failedStates
      ensures found == Some(false) ==> candidates == old(candidates)
      ensures old(statesExamined) <= statesExamined
      ensures statesExamined
        <= old(statesExamined) + BranchesSize(schema, record, base, i, firstDate, alternatives, |alternatives|)
      ensures found.Some? ==> statesExamined <= MAX_AMBIGUITY_STATES
      decreases |schema.fields| - i, 0
    {
      hide Framings;
      hide TreeSize;
      hide Collect;
      hide Branches;
      hide BranchesSize;
      hide Sound;
      ghost var before := candidates;
      BranchesStart(schema, record, base, i, firstDate, alternatives);
      CollectNothing(before);
      var any, k := false, 0;
      while k < |alternatives|
        invariant 0 <= k <= |alternatives| && Sound() && |candidates| < 2
        invariant candidates
          == Collect(before, Prefixed(values, Branches(schema, record, base, i, firstDate, alternatives, k)))
        invariant any <==> Branches(schema, record, base, i, firstDate, alternatives, k) != []
        invariant old(failedStates) <= failedStates
        invariant old(statesExamined) <= statesExamined <= MAX_AMBIGUITY_STATES
        invariant statesExamined
          <= old(statesExamined) + BranchesSize(schema, record, base, i, firstDate, alternatives, k)
      {
        ghost var collected := candidates;
        ghost var lists := Lists(i + 1, alternatives[k].end, firstDate && schema.fields[i] != Date);
        found := From(i + 1, alternatives[k].end, firstDate && schema.fields[i] != Date,
          values + [alternatives[k].value]);
        BranchesSizeNext(schema, record, base, i, firstDate, alternatives, k);
        if found == None {
          BranchesSizeGrows(schema, record, base, i, firstDate, alternatives, k + 1, |alternatives|);
          return;
        }
        CollectNext(schema, record, base, i, firstDate, alternatives, k, before, values);
        any := any || found.value;
        k := k + 1;
        if |candidates| >= 2 {
          CollectStops(schema, record, base, i, firstDate, alternatives, k, before, values);
          BranchesSizeGrows(schema, record, base, i, firstDate, alternatives, k, |alternatives|);
          break;
        }
      }
      found := Some(any);
    }
  }

  lemma CollectNothing(candidates: seq<Values>)
    ensures forall prefix {:trigger Prefixed(prefix, [])} :: Collect(candidates, Prefixed(prefix, [])) == candidates
  {
  }

  lemma CollectLeaf(candidates: seq<Values>, values: Values)
    requires |candidates| < 2
    ensures Collect(candidates, Prefixed(values, [[]]))
      == if Contains(candidates, values) then candidates else candidates + [values]
  {
    hide Contains;
    assert values + [] == values;
    assert Prefixed(values, [[]]) == [values];
    hide Prefixed;
    var next := if Contains(candidates, values) then candidates else candidates + [values];
    assert Collect(candidates, [values]) == Collect(next, []);
  }

  lemma BranchesStart(s: Schema, record: Bytes, base: nat, i: nat, firstDate: bool, alternatives: seq<Alternative>)
    requires i < |s.fields|
    ensures Branches(s, record, base, i, firstDate, alternatives, 0) == []
    ensures BranchesSize(s, record, base, i, firstDate, alternatives, 0) == 0
  {
  }

  lemma BranchesSizeNext(s: Schema, record: Bytes, base: nat, i: nat, firstDate: bool, alternatives: seq<Alternative>,
      k: nat)
    requires i < |s.fields| && k < |alternatives|
    ensures BranchesSize(s, record, base, i, firstDate, alternatives, k + 1) ==
      BranchesSize(s, record, base, i, firstDate, alternatives, k)
      + TreeSize(s, record, base, i + 1, alternatives[k].end, firstDate && s.fields[i] != Date)
  {
  }

  lemma TreeIsBranches(s: Schema, record: Bytes, base: nat, i: nat, offset: nat, firstDate: bool)
    requires i < |s.fields|
    ensures var alternatives := AlternativesAt(s, record, i, offset, firstDate, base);
      TreeSize(s, record, base, i, offset, firstDate)
        == 1 + BranchesSize(s, record, base, i, firstDate, alternatives, |alternatives|)
  {
  }

  /** Collecting the branches of one more alternative. */
  lemma CollectNext(s: Schema, record: Bytes, base: nat, i: nat, firstDate: bool, alternatives: seq<Alternative>,
      k: nat, before: seq<Values>, values: Values)
    requires i < |s.fields| && k < |alternatives|
    ensures var lists := Framings(s, record, base, i + 1, alternatives[k].end, firstDate && s.fields[i] != Date);
      var done, more := Branches(s, record, base, i, firstDate, alternatives, k),
        Branches(s, record, base, i, firstDate, alternatives, k + 1);
      && Collect(before, Prefixed(values, more))
         == Collect(Collect(before, Prefixed(values, done)), Prefixed(values + [alternatives[k].value], lists))
      && (more != [] <==> done != [] || lists != [])
  {
    hide Framings;
    hide Collect;
    var lists := Framings(s, record, base, i + 1, alternatives[k].end, firstDate && s.fields[i] != Date);
    var done, here := Branches(s, record, base, i, firstDate, alternatives, k),
      Prefixed([alternatives[k].value], lists);
    PrefixedAppend(values, done, here);
    PrefixedTwice(values, alternatives[k].value, lists);
    CollectAppend(before, Prefixed(values, done), Prefixed(values, here));
  }

  lemma {:induction false} BranchesExtend(s: Schema, record: Bytes, base: nat, i: nat, firstDate: bool,
      alternatives: seq<Alternative>, j: nat, k: nat)
    requires i < |s.fields| && j <= k <= |alternatives|
    ensures Branches(s, record, base, i, firstDate, alternatives, j)
      <= Branches(s, record, base, i, firstDate, alternatives, k)
    decreases k
  {
    hide Framings;
    if j < k {
      BranchesExtend(s, record, base, i, firstDate, alternatives, j, k - 1);
    }
  }

  /** Once there are two candidates, the remaining alternatives add nothing. */
  lemma CollectStops(s: Schema, record: Bytes, base: nat, i: nat, firstDate: bool, alternatives: seq<Alternative>,
      k: nat, before: seq<Values>, values: Values)
    requires i < |s.fields| && k <= |alternatives|
    requires |before| < 2
      <= |Collect(before, Prefixed(values, Branches(s, record, base, i, firstDate, alternatives, k)))|
    ensures
      var done, all := Branches(s, record, base, i, firstDate, alternatives, k),
        Branches(s, record, base, i, firstDate, alternatives, |alternatives|);
      Collect(before, Prefixed(values, all)) == Collect(before, Prefixed(values, done)) && done != [] && all != []
  {
    hide Framings;
    hide Branches;
    hide Collect;
    hide Prefixed;
    BranchesExtend(s, record, base, i, firstDate, alternatives, k, |alternatives|);
    var done, all := Branches(s, record, base, i, firstDate, alternatives, k),
      Branches(s, record, base, i, firstDate, alternatives, |alternatives|);
    assert all == done + all[|done|..];
    PrefixedAppend(values, done, all[|done|..]);
    CollectAppend(before, Prefixed(values, done), Prefixed(values, all[|done|..]));
    CollectNothing(before);
  }
}
