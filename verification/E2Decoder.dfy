// Decoding a compact record: one pass per integer base, the search where they leave room for
// doubt, and the value only when all exact framings agree on it.

module E2Decoder {
  import opened Bytes
  import opened Fields
  import opened E2Record
  import opened E2Framing
  import opened E2Search

  datatype Parsed = Parsed(values: Values, ambiguous: bool)

  // -- One base for all integers --

  /** The rest of the record from field `i` on, and whether an ambiguous integer was among it. */
  function Uniform(s: Schema, record: Bytes, base: nat, i: nat, offset: nat, firstDate: bool): Option<Parsed>
    requires i <= |s.fields|
    decreases |s.fields| - i
  {
    if i == |s.fields| then (if offset == |record| then Some(Parsed([], false)) else None)
    else
      var d := DecodeOne(s, record, i, offset, firstDate, base);
      if d.Err? then None
      else Ahead(d.value, TwoWidths(s, record, i, offset),
        Uniform(s, record, base, i + 1, d.end, firstDate && s.fields[i] != Date))
  }

  function Ahead(value: FieldValue, ambiguous: bool, rest: Option<Parsed>): Option<Parsed> {
    if rest == None then None else Some(Parsed([value] + rest.value.values, ambiguous || rest.value.ambiguous))
  }

  function Before(values: Values, ambiguous: bool, rest: Option<Parsed>): Option<Parsed> {
    if rest == None then None else Some(Parsed(values + rest.value.values, ambiguous || rest.value.ambiguous))
  }

  lemma BeforeAhead(values: Values, sawBefore: bool, value: FieldValue, saw: bool, rest: Option<Parsed>)
    ensures Before(values, sawBefore, Ahead(value, saw, rest)) == Before(values + [value], sawBefore || saw, rest)
  {
    if rest.Some? {
      assert values + ([value] + rest.value.values) == values + [value] + rest.value.values;
    }
  }

  lemma BeforeNothing(values: Values, ambiguous: bool, rest: Option<Parsed>)
    ensures Before([], false, rest) == rest
    ensures Before(values, ambiguous, Some(Parsed([], false))) == Some(Parsed(values, ambiguous))
    ensures Before(values, ambiguous, None) == None
  {
    if rest.Some? {
      assert [] + rest.value.values == rest.value.values;
    }
    assert values + [] == values;
  }

  method DecodeWithBase(s: Schema, record: Bytes, base: nat) returns (r: Option<Parsed>)
    ensures r == Uniform(s, record, base, 0, 0, true)
  {
    hide DecodeOne;
    var i, offset, firstDate := 0, 0, true;
    var values: Values, ambiguous := [], false;
    BeforeNothing([], false, Uniform(s, record, base, 0, 0, true));
    while i < |s.fields|
      invariant 0 <= i <= |s.fields| && 0 <= offset
      invariant Before(values, ambiguous, Uniform(s, record, base, i, offset, firstDate))
        == Uniform(s, record, base, 0, 0, true)
    {
      var saw := TwoWidths(s, record, i, offset);
      var d := DecodeOne(s, record, i, offset, firstDate, base);
      if d.Err? {
        BeforeNothing(values, ambiguous, None);
        return None;
      }
      BeforeAhead(values, ambiguous, d.value, saw,
        Uniform(s, record, base, i + 1, d.end, firstDate && s.fields[i] != Date));
      values, ambiguous := values + [d.value], ambiguous || saw;
      offset, firstDate, i := d.end, firstDate && s.fields[i] != Date, i + 1;
    }
    BeforeNothing(values, ambiguous, None);
    if offset != |record| {
      return None;
    }
    r := Some(Parsed(values, ambiguous));
  }

  lemma OneAlternative(s: Schema, record: Bytes, base: nat, i: nat, offset: nat, firstDate: bool)
    requires i < |s.fields| && !TwoWidths(s, record, i, offset)
    ensures var d := DecodeOne(s, record, i, offset, firstDate, base);
      AlternativesAt(s, record, i, offset, firstDate, base) == if d.Err? then [] else [Alternative(d.value, d.end)]
  {
    hide DecodeOne;
    assert [base][..0] == [];
    assert Alternatives(s, record, i, offset, firstDate, []) == [];
  }

  /** Where no integer is ambiguous, the framings are those of the one pass. */
  lemma OneFraming(s: Schema, record: Bytes, base: nat, i: nat, offset: nat, firstDate: bool)
    requires i < |s.fields| && !TwoWidths(s, record, i, offset)
    ensures var d := DecodeOne(s, record, i, offset, firstDate, base);
      Framings(s, record, base, i, offset, firstDate) ==
        if d.Err? then []
        else Prefixed([d.value], Framings(s, record, base, i + 1, d.end, firstDate && s.fields[i] != Date))
  {
    OneAlternative(s, record, base, i, offset, firstDate);
    FramingsAreBranches(s, record, base, i, offset, firstDate);
    hide Framings;
    hide DecodeOne;
    hide AlternativesAt;
    var alternatives := AlternativesAt(s, record, i, offset, firstDate, base);
    if |alternatives| == 1 {
      assert Branches(s, record, base, i, firstDate, alternatives, 0) == [];
    }
  }

  lemma UniformStep(s: Schema, record: Bytes, base: nat, i: nat, offset: nat, firstDate: bool)
    requires i < |s.fields|
    ensures
      var d, u := DecodeOne(s, record, i, offset, firstDate, base), Uniform(s, record, base, i, offset, firstDate);
      && (d.Err? ==> u == None)
      && (d.Ok? ==> (
        var rest := Uniform(s, record, base, i + 1, d.end, firstDate && s.fields[i] != Date);
        u == Ahead(d.value, TwoWidths(s, record, i, offset), rest)))
      && (u.Some? && !u.value.ambiguous ==> !TwoWidths(s, record, i, offset))
      && (u.Some? ==> d.Ok?)
  {
    hide DecodeOne;
  }

  lemma PrefixedFew(value: FieldValue, rest: Option<Parsed>)
    ensures Prefixed([value], []) == []
    ensures rest.Some? ==> Prefixed([value], [rest.value.values]) == [Ahead(value, false, rest).value.values]
    ensures forall ambiguous {:trigger Ahead(value, ambiguous, rest)} :: var u := Ahead(value, ambiguous, rest);
      (u.Some? <==> rest.Some?) && (u.Some? ==> u.value.values == Ahead(value, false, rest).value.values)
      && (u.Some? && !u.value.ambiguous ==> !rest.value.ambiguous)
  {
  }

  lemma PassEnds(s: Schema, record: Bytes, base: nat, offset: nat, firstDate: bool)
    ensures Uniform(s, record, base, |s.fields|, offset, firstDate)
      == if offset == |record| then Some(Parsed([], false)) else None
    ensures Framings(s, record, base, |s.fields|, offset, firstDate) == if offset == |record| then [[]] else []
  {
  }

  lemma NoInt32(s: Schema, record: Bytes, i: nat, offset: nat)
    requires i < |s.fields| && !HasInt32(s)
    ensures !TwoWidths(s, record, i, offset)
  {
  }

  lemma {:induction false} UnambiguousPass(s: Schema, record: Bytes, base: nat, i: nat, offset: nat, firstDate: bool)
    requires i <= |s.fields|
    ensures var u := Uniform(s, record, base, i, offset, firstDate);
      u.Some? && !u.value.ambiguous ==> Framings(s, record, base, i, offset, firstDate) == [u.value.values]
    decreases |s.fields| - i
  {
    hide *;
    if i == |s.fields| {
      PassEnds(s, record, base, offset, firstDate);
    } else {
      var d := DecodeOne(s, record, i, offset, firstDate, base);
      UniformStep(s, record, base, i, offset, firstDate);
      if d.Ok? && !TwoWidths(s, record, i, offset) {
        UnambiguousPass(s, record, base, i + 1, d.end, firstDate && s.fields[i] != Date);
        OneFraming(s, record, base, i, offset, firstDate);
        PrefixedFew(d.value, Uniform(s, record, base, i + 1, d.end, firstDate && s.fields[i] != Date));
      }
    }
  }

  predicate HasInt32(s: Schema) {
    exists i :: 0 <= i < |s.fields| && s.fields[i] == Int32
  }

  lemma {:induction false} PassWithoutInt32(s: Schema, record: Bytes, base: nat, i: nat, offset: nat, firstDate: bool)
    requires i <= |s.fields| && !HasInt32(s)
    ensures var u := Uniform(s, record, base, i, offset, firstDate);
      Framings(s, record, base, i, offset, firstDate) == if u == None then [] else [u.value.values]
    decreases |s.fields| - i
  {
    hide *;
    if i == |s.fields| {
      PassEnds(s, record, base, offset, firstDate);
    } else {
      NoInt32(s, record, i, offset);
      var d := DecodeOne(s, record, i, offset, firstDate, base);
      OneFraming(s, record, base, i, offset, firstDate);
      UniformStep(s, record, base, i, offset, firstDate);
      if d.Ok? {
        PassWithoutInt32(s, record, base, i + 1, d.end, firstDate && s.fields[i] != Date);
        PrefixedFew(d.value, Uniform(s, record, base, i + 1, d.end, firstDate && s.fields[i] != Date));
      }
    }
  }

  // -- Collecting over both bases --

  /** All value lists are equal to the first one. */
  predicate Unique(lists: seq<Values>) {
    lists != [] && Agree(lists[0], lists[1..])
  }

  predicate Agree(values: Values, lists: seq<Values>) {
    forall i :: 0 <= i < |lists| ==> SameAll(values, lists[i])
  }

  function Merge(candidates: seq<Values>, others: seq<Values>): (r: seq<Values>)
    ensures candidates <= r
    decreases |others|
  {
    if others == [] then candidates
    else Merge(if Contains(candidates, others[0]) then candidates else candidates + [others[0]], others[1..])
  }

  lemma ContainsOne(values: Values, other: Values)
    ensures Contains([values], other) <==> SameAll(values, other)
  {
    assert [values][0] == values;
  }

  /** After one candidate, the search adds the first value list that differs from it. */
  lemma {:induction false} CollectSecond(values: Values, lists: seq<Values>)
    ensures var r := Collect([values], lists);
      if Agree(values, lists) then r == [values]
      else |r| == 2 && r[0] == values && r[1] in lists && !SameAll(values, r[1])
    decreases |lists|
  {
    hide SameAll;
    if lists != [] {
      ContainsOne(values, lists[0]);
      CollectSecond(values, lists[1..]);
      assert Agree(values, lists) <==> SameAll(values, lists[0]) && Agree(values, lists[1..]);
    }
  }

  lemma CollectFirst(lists: seq<Values>)
    requires lists != []
    ensures Collect([], lists) == Collect([lists[0]], lists[1..])
  {
    assert [] + [lists[0]] == [lists[0]];
  }

  lemma CollectNone()
    ensures Collect([], []) == []
  {
  }

  lemma MergeStep(candidates: seq<Values>, others: seq<Values>)
    requires others != []
    ensures Merge(candidates, others)
      == Merge(if Contains(candidates, others[0]) then candidates else candidates + [others[0]], others[1..])
    ensures candidates == [] ==> !Contains(candidates, others[0])
  {
  }

  /** `m` counts the different value lists of `all`, up to two, and holds the first one. */
  predicate Decides(m: seq<Values>, all: seq<Values>) {
    && (m == [] <==> all == [])
    && (|m| == 1 <==> Unique(all))
    && (m != [] && all != [] ==> m[0] == all[0])
    && (|m| >= 2 ==> m[1] in all && !SameAll(m[0], m[1]))
  }

  lemma DecidesOne(lists: seq<Values>)
    ensures Decides(Collect([], lists), lists) && |Collect([], lists)| <= 2
  {
    CollectNone();
    if lists != [] {
      CollectFirst(lists);
      CollectSecond(lists[0], lists[1..]);
    }
    hide Collect;
    hide SameAll;
  }

  lemma AgreeAppend(values: Values, a: seq<Values>, b: seq<Values>)
    ensures Agree(values, a + b) <==> Agree(values, a) && Agree(values, b)
  {
    hide SameAll;
    if Agree(values, a + b) {
      forall i | 0 <= i < |b| ensures SameAll(values, b[i]) {
        assert b[i] == (a + b)[|a| + i];
      }
      forall i | 0 <= i < |a| ensures SameAll(values, a[i]) {
        assert a[i] == (a + b)[i];
      }
    }
  }

  /** Lists equal to the same list agree with the same lists. */
  lemma AgreeAlike(x: Values, y: Values, lists: seq<Values>)
    requires SameAll(x, y)
    ensures Agree(x, lists) <==> Agree(y, lists)
  {
    SameAllSymmetric(x, y);
    forall i | 0 <= i < |lists| ensures SameAll(x, lists[i]) <==> SameAll(y, lists[i]) {
      if SameAll(y, lists[i]) {
        SameAllTransitive(x, y, lists[i]);
      }
      if SameAll(x, lists[i]) {
        SameAllTransitive(y, x, lists[i]);
      }
    }
  }

  lemma UniqueSplit(a: seq<Values>, b: seq<Values>)
    ensures a == [] ==> a + b == b
    ensures a != [] ==> (a + b)[0] == a[0] && (Unique(a + b) <==> Unique(a) && Agree(a[0], b))
    ensures b != [] ==> forall x :: Agree(x, b) <==> SameAll(x, b[0]) && Agree(x, b[1..])
  {
    hide SameAll;
    if a != [] {
      assert (a + b)[1..] == a[1..] + b;
      AgreeAppend(a[0], a[1..], b);
    } else {
      assert a + b == b;
    }
  }

  /** What the two searches come to: the number of different value lists among all, up to two. */
  lemma MergeDecides(a: seq<Values>, b: seq<Values>)
    ensures Decides(Merge(Collect([], a), Collect([], b)), a + b)
  {
    hide SameAll;
    hide Collect;
    hide Unique;
    hide Agree;
    var c, d := Collect([], a), Collect([], b);
    DecidesOne(a);
    DecidesOne(b);
    UniqueSplit(a, b);
    if |c| == 0 {
      MergeNone(d);
    } else if |c| == 1 && |d| >= 1 {
      assert c == [a[0]];
      MergeOne(a[0], b, d);
      assert forall x :: x in b ==> x in a + b;
    } else if |c| == 1 {
      assert a + b == a;
      MergeNothing(c);
    } else {
      assert c <= Merge(c, d) && c[1] in a + b;
    }
  }

  lemma MergeNone(d: seq<Values>)
    requires |d| <= 2 && (|d| == 2 ==> !SameAll(d[0], d[1]))
    ensures Merge([], d) == d
  {
    hide SameAll;
    hide Merge;
    hide Contains;
    MergeNothing([]);
    if |d| > 0 {
      var first := [d[0]];
      MergeStep([], d);
      assert [] + [d[0]] == first;
      if |d| == 1 {
        assert d[1..] == [] && first == d;
        MergeNothing(first);
      } else {
        var rest := d[1..];
        MergeStep(first, rest);
        ContainsOne(d[0], d[1]);
        assert rest[0] == d[1] && first + [d[1]] == d && rest[1..] == [];
        MergeNothing(d);
      }
    }
  }

  lemma MergeNothing(candidates: seq<Values>)
    ensures Merge(candidates, []) == candidates
  {
  }

  /** One candidate from the first search meets those of the second. */
  lemma MergeOne(x: Values, b: seq<Values>, d: seq<Values>)
    requires b != [] && 1 <= |d| <= 2 && Decides(d, b)
    ensures var m := Merge([x], d);
      m[0] == x && (|m| == 1 <==> Agree(x, b)) && (|m| >= 2 ==> m[1] in b && !SameAll(x, m[1]))
  {
    hide SameAll;
    hide Agree;
    UniqueSplit([], b);
    MergeStep([x], d);
    ContainsOne(x, d[0]);
    if SameAll(x, d[0]) {
      AgreeAlike(x, d[0], b[1..]);
      if |d| == 2 {
        MergeStep([x], d[1..]);
        ContainsOne(x, d[1]);
        if SameAll(x, d[1]) {
          SameAllSymmetric(x, d[0]);
          SameAllTransitive(d[0], x, d[1]);
        }
      }
    }
  }

  // -- A bound on the search --

  function Int32Fields(s: Schema, i: nat): nat
    requires i <= |s.fields|
    decreases |s.fields| - i
  {
    if i == |s.fields| then 0 else (if s.fields[i] == Int32 then 1 else 0) + Int32Fields(s, i + 1)
  }

  function Power2(n: nat): (r: nat)
    ensures r >= 1
  {
    if n == 0 then 1 else 2 * Power2(n - 1)
  }

  /** Bound on the states below a field, from the number of fields and of 32-bit integers left. */
  function StateBound(fields: nat, int32s: nat): nat {
    (fields + 1) * Power2(int32s)
  }

  lemma {:induction false} TreeBound(s: Schema, record: Bytes, base: nat, i: nat, offset: nat, firstDate: bool)
    requires i <= |s.fields|
    ensures TreeSize(s, record, base, i, offset, firstDate) <= StateBound(|s.fields| - i, Int32Fields(s, i))
    decreases |s.fields| - i
  {
    hide *;
    if i == |s.fields| {
      TreeEnds(s, record, base, offset, firstDate);
    } else {
      var alternatives := AlternativesAt(s, record, i, offset, firstDate, base);
      var first := firstDate && s.fields[i] != Date;
      FewAlternatives(s, record, base, i, offset, firstDate);
      TreeIsBranches(s, record, base, i, offset, firstDate);
      BranchesStart(s, record, base, i, firstDate, alternatives);
      if |alternatives| >= 1 {
        TreeBound(s, record, base, i + 1, alternatives[0].end, first);
        BranchesSizeNext(s, record, base, i, firstDate, alternatives, 0);
      }
      if |alternatives| >= 2 {
        TreeBound(s, record, base, i + 1, alternatives[1].end, first);
        BranchesSizeNext(s, record, base, i, firstDate, alternatives, 1);
      }
      BoundStep(s, i);
    }
  }

  lemma TreeEnds(s: Schema, record: Bytes, base: nat, offset: nat, firstDate: bool)
    ensures TreeSize(s, record, base, |s.fields|, offset, firstDate) == StateBound(0, Int32Fields(s, |s.fields|)) == 1
  {
  }

  lemma BoundStep(s: Schema, i: nat)
    requires i < |s.fields|
    ensures
      var below, here := StateBound(|s.fields| - (i + 1), Int32Fields(s, i + 1)),
        StateBound(|s.fields| - i, Int32Fields(s, i));
      1 + below <= here && (s.fields[i] == Int32 ==> 1 + below + below <= here)
  {
    var n, p := |s.fields| - i, Power2(Int32Fields(s, i + 1));
    assert (n + 1) * p == n * p + p && (n + 1) * (2 * p) == n * p + n * p + 2 * p;
  }

  lemma FewAlternatives(s: Schema, record: Bytes, base: nat, i: nat, offset: nat, firstDate: bool)
    requires i < |s.fields|
    ensures |AlternativesAt(s, record, i, offset, firstDate, base)| <= if s.fields[i] == Int32 then 2 else 1
  {
  }

  /** Few enough integers: the search cannot exhaust its budget. */
  lemma WithinBudget(s: Schema, record: Bytes, base: nat)
    requires StateBound(|s.fields|, Int32Fields(s, 0)) <= MAX_AMBIGUITY_STATES
    ensures TreeSize(s, record, base, 0, 0, true) <= MAX_AMBIGUITY_STATES
  {
    TreeBound(s, record, base, 0, 0, true);
  }

  // -- The decoder --

  datatype Outcome =
    | Decoded(values: Values)
    | NoFraming
    | Ambiguous(first: Values, second: Values)
    | TooManyFields
    | TooManyStates

  function Both(s: Schema, record: Bytes, base: nat): seq<Values> {
    AllOf(s, record, base) + AllOf(s, record, OtherBase(base))
  }

  /** One search per base; None when a limit is exceeded. */
  method SearchAdaptive(s: Schema, record: Bytes, base: nat) returns (candidates: Option<seq<Values>>)
    requires |s.fields| <= MAX_AMBIGUITY_FIELDS
    ensures candidates.Some? ==> candidates.value == Collect([], AllOf(s, record, base))
    ensures candidates == None ==> TreeSize(s, record, base, 0, 0, true) > MAX_AMBIGUITY_STATES
  {
    hide Framings;
    hide TreeSize;
    hide Collect;
    var search := new AmbiguitySearch(s, record, base);
    var found := search.From(0, 0, true, []);
    if found == None {
      return None;
    }
    PrefixedByNothing(AllOf(s, record, base));
    candidates := Some(search.candidates);
  }

  lemma PrefixedByNothing(lists: seq<Values>)
    ensures Prefixed([], lists) == lists
  {
    forall k | 0 <= k < |lists| ensures [] + lists[k] == lists[k] {
    }
  }

  method MergeCandidates(candidates: seq<Values>, others: seq<Values>) returns (r: seq<Values>)
    ensures r == Merge(candidates, others)
  {
    hide Contains;
    r := candidates;
    var k := 0;
    while k < |others|
      invariant 0 <= k <= |others| && Merge(r, others[k..]) == Merge(candidates, others)
    {
      assert others[k..][1..] == others[k + 1..];
      if !Contains(r, others[k]) {
        r := r + [others[k]];
      }
      k := k + 1;
    }
  }

  /**
    * The value list of a record: with integers in the schema, the one all exact framings under
    * either base agree on; without, the one framing there can be.
    */
  method DecodeRecordValues(s: Schema, record: Bytes, base: nat) returns (r: Outcome)
    requires IsBase(base)
    ensures !HasInt32(s) ==> r == if AllOf(s, record, base) == [] then NoFraming else Decoded(AllOf(s, record, base)[0])
    ensures HasInt32(s) && r.Decoded? ==> Unique(Both(s, record, base)) && r.values == Both(s, record, base)[0]
    ensures HasInt32(s) && r.NoFraming? ==> Both(s, record, base) == []
    ensures r.Ambiguous? ==> HasInt32(s) && !Unique(Both(s, record, base))
    ensures r.Ambiguous?
      ==> r.first in Both(s, record, base) && r.second in Both(s, record, base) && !SameAll(r.first, r.second)
    ensures r.TooManyFields? ==> |s.fields| > MAX_AMBIGUITY_FIELDS
    ensures r.TooManyStates? ==>
      TreeSize(s, record, base, 0, 0, true) > MAX_AMBIGUITY_STATES
        || TreeSize(s, record, OtherBase(base), 0, 0, true) > MAX_AMBIGUITY_STATES
  {
    hide Framings;
    hide Uniform;
    hide TreeSize;
    hide SameAll;
    hide Collect;
    hide Merge;
    hide HasInt32;
    hide Unique;
    var preferred := DecodeWithBase(s, record, base);
    if !HasInt32(s) {
      PassWithoutInt32(s, record, base, 0, 0, true);
      return if preferred == None then NoFraming else Decoded(preferred.value.values);
    }
    var other := OtherBase(base);
    var alternate := DecodeWithBase(s, record, other);
    if preferred.Some? && !preferred.value.ambiguous && alternate.Some? && !alternate.value.ambiguous {
      UnambiguousPass(s, record, base, 0, 0, true);
      UnambiguousPass(s, record, other, 0, 0, true);
      UniquePair(preferred.value.values, alternate.value.values);
      if SameAll(preferred.value.values, alternate.value.values) {
        return Decoded(preferred.value.values);
      }
      return Ambiguous(preferred.value.values, alternate.value.values);
    }
    if |s.fields| > MAX_AMBIGUITY_FIELDS {
      return TooManyFields;
    }
    var candidates := SearchAdaptive(s, record, base);
    if candidates == None {
      return TooManyStates;
    }
    var others := SearchAdaptive(s, record, other);
    if others == None {
      return TooManyStates;
    }
    var merged := MergeCandidates(candidates.value, others.value);
    MergeDecides(AllOf(s, record, base), AllOf(s, record, other));
    if |merged| == 0 {
      r := NoFraming;
    } else if |merged| == 1 {
      r := Decoded(merged[0]);
    } else {
      r := Ambiguous(merged[0], merged[1]);
    }
  }

  lemma UniquePair(a: Values, b: Values)
    ensures Unique([a] + [b]) <==> SameAll(a, b)
  {
    hide SameAll;
    assert ([a] + [b])[1..] == [b];
    assert [b][0] == b;
  }

  // -- What the lists mean --

  /** An exact framing under either base of the uniform integers. */
  ghost predicate EitherFraming(s: Schema, record: Bytes, values: Values) {
    IsFraming(s, record, 5, values) || IsFraming(s, record, 6, values)
  }

  lemma BothAreAllFramings(s: Schema, record: Bytes, base: nat, values: Values)
    requires IsBase(base)
    ensures values in Both(s, record, base) <==> EitherFraming(s, record, values)
  {
    hide Framings;
    FramingsExact(s, record, 5, values);
    FramingsExact(s, record, 6, values);
    hide IsFraming;
  }

  /** All exact framings of the record give one value list. */
  ghost predicate OneValue(s: Schema, record: Bytes, values: Values) {
    EitherFraming(s, record, values) && forall w :: EitherFraming(s, record, w) ==> SameAll(values, w)
  }

  /** A record is accepted with its one value; and if all framings have one value, it is accepted. */
  lemma UniqueIsOneValue(s: Schema, record: Bytes, base: nat)
    requires IsBase(base)
    ensures Unique(Both(s, record, base)) ==>
      var v := Both(s, record, base)[0];
      EitherFraming(s, record, v) && forall w :: EitherFraming(s, record, w) ==> w == v || SameAll(v, w)
    ensures (exists v :: OneValue(s, record, v)) ==> Unique(Both(s, record, base))
  {
    hide EitherFraming;
    hide SameAll;
    hide AllOf;
    hide Agree;
    var lists := Both(s, record, base);
    forall w ensures w in lists <==> EitherFraming(s, record, w) {
      BothAreAllFramings(s, record, base, w);
    }
    if Unique(lists) {
      AgreeMembers(lists[0], lists[1..]);
      forall w | EitherFraming(s, record, w) ensures w == lists[0] || w in lists[1..] {
        assert w in lists;
        assert lists == [lists[0]] + lists[1..];
      }
    }
    if v :| OneValue(s, record, v) {
      assert v in lists;
      AgreeMembers(v, lists);
      AgreeTail(v, lists);
    }
  }

  lemma AgreeMembers(values: Values, lists: seq<Values>)
    ensures Agree(values, lists) <==> forall w :: w in lists ==> SameAll(values, w)
  {
    hide SameAll;
    if forall w :: w in lists ==> SameAll(values, w) {
      forall i | 0 <= i < |lists| ensures SameAll(values, lists[i]) {
        assert lists[i] in lists;
      }
    }
  }

  lemma AgreeTail(values: Values, lists: seq<Values>)
    requires lists != [] && Agree(values, lists)
    ensures Unique(lists)
  {
    AgreeAlike(values, lists[0], lists[1..]);
  }

  predicate NoNaN(values: Values) {
    forall i :: 0 <= i < |values| ==> Same(values[i], values[i])
  }

  /** One value list under several framings is accepted exactly if it has no NaN, for a NaN differs from itself. */
  lemma NaNIsRefused(lists: seq<Values>)
    requires lists != [] && forall i :: 0 <= i < |lists| ==> lists[i] == lists[0]
    ensures Unique(lists) <==> |lists| == 1 || NoNaN(lists[0])
  {
    hide Same;
    if |lists| > 1 {
      assert lists[1..][0] == lists[1] == lists[0];
    }
  }

  const NAN_WORD: Bytes := [0, 0, 0, 0, 0, 0, 0xF8, 0x7F]

  const NAN_RECORD: Bytes := [NULL_INT32, 0x0C] + NAN_WORD

  const NAN_VALUES: Values := [Int32Value(None), DoubleValue(Some(NAN_WORD))]

  /** A null integer and a NaN: every framing gives the same values, which differ from themselves. */
  lemma NaNExample(lossy: Lossy, base: nat)
    requires IsBase(base)
    ensures var both := Both(Schema([Int32, Double], false, lossy), NAN_RECORD, base);
      both == [NAN_VALUES, NAN_VALUES] && !Unique(both)
  {
    hide *;
    var s := Schema([Int32, Double], false, lossy);
    NaNPass(s, 5);
    NaNPass(s, 6);
    UnambiguousPass(s, NAN_RECORD, 5, 0, 0, true);
    UnambiguousPass(s, NAN_RECORD, 6, 0, 0, true);
    BothOfOne(s, NAN_RECORD, base, NAN_VALUES);
    NaNIsRefused(Both(s, NAN_RECORD, base));
    NaNValues();
  }

  /** The record of the null integer and the NaN is reported as ambiguous. */
  method RefuseNaN(lossy: Lossy, base: nat) returns (r: Outcome)
    requires IsBase(base)
    ensures r == Ambiguous(NAN_VALUES, NAN_VALUES)
  {
    hide *;
    var s := Schema([Int32, Double], false, lossy);
    r := DecodeRecordValues(s, NAN_RECORD, base);
    NaNExample(lossy, base);
    WithIntegers(s);
    WithinBudget(s, NAN_RECORD, base);
    WithinBudget(s, NAN_RECORD, OtherBase(base));
  }

  lemma WithIntegers(s: Schema)
    requires s.fields == [Int32, Double]
    ensures HasInt32(s) && |s.fields| <= MAX_AMBIGUITY_FIELDS
    ensures StateBound(|s.fields|, Int32Fields(s, 0)) <= MAX_AMBIGUITY_STATES
  {
    assert s.fields[0] == Int32;
    assert Int32Fields(s, 2) == 0 && Int32Fields(s, 1) == 0 && Int32Fields(s, 0) == 1;
  }

  lemma BothOfOne(s: Schema, record: Bytes, base: nat, values: Values)
    requires IsBase(base) && Framings(s, record, 5, 0, 0, true) == Framings(s, record, 6, 0, 0, true) == [values]
    ensures Both(s, record, base) == [values, values]
  {
    hide Framings;
  }

  lemma NaNValues()
    ensures !NoNaN(NAN_VALUES)
  {
    SameNonFloat(NAN_VALUES[1]);
  }

  lemma NaNPass(s: Schema, base: nat)
    requires s.fields == [Int32, Double] && (base == 5 || base == 6)
    ensures Uniform(s, NAN_RECORD, base, 0, 0, true) == Some(Parsed(NAN_VALUES, false))
  {
    var w := NAN_VALUES[1];
    assert DecodeOne(s, NAN_RECORD, 0, 0, true, base) == Ok(NAN_VALUES[0], 1);
    assert DecodeDouble(NAN_RECORD, 1) == Ok(w, 10) by {
      assert NAN_RECORD[2..10] + Zeros(0) == NAN_WORD;
    }
    hide DecodeDouble;
    assert DecodeOne(s, NAN_RECORD, 1, 1, true, base) == Ok(w, 10);
    hide DecodeOne;
    assert Uniform(s, NAN_RECORD, base, 2, 10, true) == Some(Parsed([], false));
    assert [w] + [] == [w] && [NAN_VALUES[0]] + [w] == NAN_VALUES;
    assert Uniform(s, NAN_RECORD, base, 1, 1, true) == Some(Parsed([w], false));
  }
}
