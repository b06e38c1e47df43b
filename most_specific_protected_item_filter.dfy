/** The most-specific-protected-item stage of the access-control decision
    function (ITU-T X.501, section 18.8): among ACI tuples that survived the
    earlier stages, prefer the ones whose protected items name an attribute
    type or value, then the ones holding a range of values, and otherwise keep
    the input as it is. */
module MostSpecificProtectedItem {

  /** One tag per kind of protected item. The payloads are carried but never
      inspected by this stage. */
  datatype ProtectedItem =
    | Entry
    | AllUserAttributeTypes
    | AttributeType(attributeTypes: seq<string>)
    | AllAttributeValues(attributeTypes: seq<string>)
    | AllUserAttributeTypesAndValues
    | AttributeValue(attributes: seq<string>)
    | SelfValue(attributeTypes: seq<string>)
    | RangeOfValues(filter: string)
    | MaxValueCount(attributeType: string, maxCount: int)
    | MaxImmSub(value: int)
    | RestrictedBy(attributeType: string, valuesIn: string)
    | Classes(refinement: string)

  /** An ACI tuple. Only its protected items are read by this stage; the
      grant flag and the precedence travel with the tuple. The items keep the
      order in which the tuple's collection iterates them. */
  datatype AciTuple = AciTuple(grant: bool, precedence: nat, protectedItems: seq<ProtectedItem>)

  /** The four kinds of item that make a tuple attribute-specific. */
  predicate IsAttributeSpecific(item: ProtectedItem) {
    item.AttributeType? || item.AllAttributeValues? || item.SelfValue? || item.AttributeValue?
  }

  /** The tuple holds at least one attribute-specific item. */
  predicate NamesAttribute(t: AciTuple) {
    exists k :: 0 <= k < |t.protectedItems| && IsAttributeSpecific(t.protectedItems[k])
  }

  /** The tuple holds at least one range-of-values item. */
  predicate HasRangeOfValues(t: AciTuple) {
    exists k :: 0 <= k < |t.protectedItems| && t.protectedItems[k].RangeOfValues?
  }

  /** The number of range-of-values items in a list of protected items. */
  function RangeCount(items: seq<ProtectedItem>): nat {
    if items == [] then 0
    else RangeCount(items[..|items| - 1]) + (if items[|items| - 1].RangeOfValues? then 1 else 0)
  }

  /** `n` copies of `t`. */
  function Repeat(t: AciTuple, n: nat): (r: seq<AciTuple>)
    ensures |r| == n && forall k :: 0 <= k < n ==> r[k] == t
  {
    seq(n, _ => t)
  }

  /** Tier 1: the attribute-specific tuples of `ts`, in input order. */
  ghost function AttributeTier(ts: seq<AciTuple>): (r: seq<AciTuple>)
    ensures |r| <= |ts|
    ensures forall t :: t in r ==> t in ts && NamesAttribute(t)
  {
    if ts == [] then []
    else AttributeTier(ts[..|ts| - 1]) + (if NamesAttribute(ts[|ts| - 1]) then [ts[|ts| - 1]] else [])
  }

  /** Tier 2: every tuple of `ts` once per range-of-values item it holds, in
      input order. */
  ghost function ValueRangeTier(ts: seq<AciTuple>): (r: seq<AciTuple>)
    ensures forall t :: t in r ==> t in ts && HasRangeOfValues(t)
  {
    if ts == [] then []
    else
      var last := ts[|ts| - 1];
      RangeCountPositive(last.protectedItems);
      ValueRangeTier(ts[..|ts| - 1]) + Repeat(last, RangeCount(last.protectedItems))
  }

  /** What the filter returns for `ts`. */
  ghost function MostSpecific(ts: seq<AciTuple>): (r: seq<AciTuple>)
    ensures forall t :: t in r ==> t in ts
    ensures |ts| >= 2 ==> |r| > 0
  {
    if |ts| <= 1 then ts
    else if AttributeTier(ts) != [] then AttributeTier(ts)
    else if ValueRangeTier(ts) != [] then ValueRangeTier(ts)
    else ts
  }

  /** The filter itself: a size short-circuit, a tier-1 pass that adds each
      tuple at its first attribute-specific item and moves on, a tier-2 pass
      that adds a tuple at every range-of-values item, and the fallback. */
  method Filter(tuples: seq<AciTuple>) returns (filtered: seq<AciTuple>)
    ensures filtered == MostSpecific(tuples)
  {
    if |tuples| <= 1 {
      return tuples;
    }

    filtered := [];
    var i := 0;
    while i < |tuples|
      invariant 0 <= i <= |tuples|
      invariant filtered == AttributeTier(tuples[..i])
    {
      var tuple := tuples[i];
      var j := 0;
      while j < |tuple.protectedItems|
        invariant 0 <= j <= |tuple.protectedItems|
        invariant forall k :: 0 <= k < j ==> !IsAttributeSpecific(tuple.protectedItems[k])
        invariant filtered == AttributeTier(tuples[..i])
      {
        var item := tuple.protectedItems[j];
        if item.AttributeType? {
          filtered := filtered + [tuple];
          break;
        } else if item.AllAttributeValues? {
          filtered := filtered + [tuple];
          break;
        } else if item.SelfValue? {
          filtered := filtered + [tuple];
          break;
        } else if item.AttributeValue? {
          filtered := filtered + [tuple];
          break;
        }
        j := j + 1;
      }
      assert tuples[..i + 1][..i] == tuples[..i];
      i := i + 1;
    }
    assert tuples[..i] == tuples;

    if |filtered| > 0 {
      return;
    }

    // The accumulator is reused: tier 1 left it empty.
    i := 0;
    while i < |tuples|
      invariant 0 <= i <= |tuples|
      invariant filtered == ValueRangeTier(tuples[..i])
    {
      var tuple := tuples[i];
      var j := 0;
      while j < |tuple.protectedItems|
        invariant 0 <= j <= |tuple.protectedItems|
        invariant filtered == ValueRangeTier(tuples[..i]) + Repeat(tuple, RangeCount(tuple.protectedItems[..j]))
      {
        assert tuple.protectedItems[..j + 1][..j] == tuple.protectedItems[..j];
        if tuple.protectedItems[j].RangeOfValues? {
          filtered := filtered + [tuple];
        }
        j := j + 1;
      }
      assert tuple.protectedItems[..j] == tuple.protectedItems;
      assert tuples[..i + 1][..i] == tuples[..i];
      i := i + 1;
    }
    assert tuples[..i] == tuples;

    if |filtered| > 0 {
      return;
    }
    return tuples;
  }

  // ---------------------------------------------------------------------
  // Range counts
  // ---------------------------------------------------------------------

  /** A list of items has a positive range count exactly when it holds a
      range-of-values item. */
  lemma {:induction false} RangeCountPositive(items: seq<ProtectedItem>)
    ensures RangeCount(items) > 0 <==> exists k :: 0 <= k < |items| && items[k].RangeOfValues?
  {
    if items != [] {
      var init := items[..|items| - 1];
      RangeCountPositive(init);
      if exists k :: 0 <= k < |init| && init[k].RangeOfValues? {
        var k :| 0 <= k < |init| && init[k].RangeOfValues?;
        assert items[k].RangeOfValues?;
      }
      if exists k :: 0 <= k < |items| && items[k].RangeOfValues? {
        var k :| 0 <= k < |items| && items[k].RangeOfValues?;
        if k < |init| {
          assert init[k].RangeOfValues?;
        }
      }
    }
  }

  // ---------------------------------------------------------------------
  // Tier 1
  // ---------------------------------------------------------------------

  /** Tier 1 keeps the input order: it distributes over concatenation. */
  lemma {:induction false} AttributeTierAppend(a: seq<AciTuple>, b: seq<AciTuple>)
    ensures AttributeTier(a + b) == AttributeTier(a) + AttributeTier(b)
  {
    if b != [] {
      var init := b[..|b| - 1];
      assert (a + b)[..|a + b| - 1] == a + init;
      AttributeTierAppend(a, init);
    } else {
      assert a + b == a;
    }
  }

  /** Each attribute-specific tuple occurs in tier 1 exactly as often as in
      the input (once per occurrence), and no other tuple occurs there. */
  lemma {:induction false} AttributeTierCount(ts: seq<AciTuple>, t: AciTuple)
    ensures multiset(AttributeTier(ts))[t] == if NamesAttribute(t) then multiset(ts)[t] else 0
  {
    if ts != [] {
      var init := ts[..|ts| - 1];
      assert ts == init + [ts[|ts| - 1]];
      AttributeTierCount(init, t);
    }
  }

  /** Tier 1 is empty exactly when no tuple names an attribute. */
  lemma {:induction false} AttributeTierEmpty(ts: seq<AciTuple>)
    ensures AttributeTier(ts) == [] <==> forall t :: t in ts ==> !NamesAttribute(t)
  {
    if ts != [] {
      var init := ts[..|ts| - 1];
      AttributeTierEmpty(init);
      assert ts == init + [ts[|ts| - 1]];
    }
  }

  /** Tier 1 leaves a list of attribute-specific tuples as it is. */
  lemma {:induction false} AttributeTierOfAttributeSpecific(ts: seq<AciTuple>)
    requires forall t :: t in ts ==> NamesAttribute(t)
    ensures AttributeTier(ts) == ts
  {
    if ts != [] {
      var init := ts[..|ts| - 1];
      assert ts == init + [ts[|ts| - 1]];
      AttributeTierOfAttributeSpecific(init);
    }
  }

  // ---------------------------------------------------------------------
  // Tier 2
  // ---------------------------------------------------------------------

  /** Tier 2 keeps the input order: it distributes over concatenation. */
  lemma {:induction false} ValueRangeTierAppend(a: seq<AciTuple>, b: seq<AciTuple>)
    ensures ValueRangeTier(a + b) == ValueRangeTier(a) + ValueRangeTier(b)
  {
    if b != [] {
      var init := b[..|b| - 1];
      assert (a + b)[..|a + b| - 1] == a + init;
      ValueRangeTierAppend(a, init);
    } else {
      assert a + b == a;
    }
  }

  /** Each tuple occurs in tier 2 once per occurrence in the input times the
      number of range-of-values items it holds. */
  lemma {:induction false} ValueRangeTierCount(ts: seq<AciTuple>, t: AciTuple)
    ensures multiset(ValueRangeTier(ts))[t] == multiset(ts)[t] * RangeCount(t.protectedItems)
  {
    if ts != [] {
      var init := ts[..|ts| - 1];
      var last := ts[|ts| - 1];
      var n := RangeCount(last.protectedItems);
      var c := RangeCount(t.protectedItems);
      var before := multiset(init)[t];
      assert ts == init + [last];
      assert multiset(ValueRangeTier(ts)) == multiset(ValueRangeTier(init)) + multiset(Repeat(last, n));
      ValueRangeTierCount(init, t);
      RepeatCount(last, n, t);
      if last == t {
        assert multiset(ts)[t] == before + 1;
        OneMoreTimes(before, c);
      } else {
        assert multiset(ts)[t] == before;
      }
    }
  }

  /** A nonlinear-arithmetic step of `ValueRangeTierCount`: one more
      occurrence adds `c` more copies. */
  lemma OneMoreTimes(a: nat, c: nat)
    ensures (a + 1) * c == a * c + c
  {
  }

  lemma {:induction false} RepeatCount(u: AciTuple, n: nat, t: AciTuple)
    ensures multiset(Repeat(u, n))[t] == if u == t then n else 0
  {
    if n > 0 {
      assert Repeat(u, n) == Repeat(u, n - 1) + [u];
      RepeatCount(u, n - 1, t);
    } else {
      assert Repeat(u, n) == [];
    }
  }

  /** Tier 2 is empty exactly when no tuple holds a range of values. */
  lemma {:induction false} ValueRangeTierEmpty(ts: seq<AciTuple>)
    ensures ValueRangeTier(ts) == [] <==> forall t :: t in ts ==> !HasRangeOfValues(t)
  {
    if ts != [] {
      var init := ts[..|ts| - 1];
      var last := ts[|ts| - 1];
      var n := RangeCount(last.protectedItems);
      ValueRangeTierEmpty(init);
      RangeCountPositive(last.protectedItems);
      assert HasRangeOfValues(last) <==> n > 0;
      assert ts == init + [last];
      assert |ValueRangeTier(ts)| == |ValueRangeTier(init)| + n;
      assert ValueRangeTier(ts) == [] <==> ValueRangeTier(init) == [] && n == 0;
      assert forall t :: t in ts <==> t in init || t == last;
    }
  }

  // ---------------------------------------------------------------------
  // The three exits of the filter
  // ---------------------------------------------------------------------

  /** With two or more tuples and an attribute-specific one among them, the
      result is tier 1. */
  lemma MostSpecificIsAttributeTier(ts: seq<AciTuple>)
    requires |ts| >= 2 && exists t :: t in ts && NamesAttribute(t)
    ensures MostSpecific(ts) == AttributeTier(ts)
  {
    AttributeTierEmpty(ts);
  }

  /** With two or more tuples, none attribute-specific and some holding a
      range of values, the result is tier 2. */
  lemma MostSpecificIsValueRangeTier(ts: seq<AciTuple>)
    requires |ts| >= 2
    requires forall t :: t in ts ==> !NamesAttribute(t)
    requires exists t :: t in ts && HasRangeOfValues(t)
    ensures MostSpecific(ts) == ValueRangeTier(ts)
  {
    AttributeTierEmpty(ts);
    ValueRangeTierEmpty(ts);
  }

  /** When no tuple is attribute-specific or holds a range of values, the
      input comes back unchanged. */
  lemma MostSpecificFallback(ts: seq<AciTuple>)
    requires forall t :: t in ts ==> !NamesAttribute(t) && !HasRangeOfValues(t)
    ensures MostSpecific(ts) == ts
  {
    AttributeTierEmpty(ts);
    ValueRangeTierEmpty(ts);
  }

  /** Applying the filter to its own output changes nothing, unless that
      output came from tier 2. */
  lemma MostSpecificIdempotent(ts: seq<AciTuple>)
    requires |ts| <= 1 || AttributeTier(ts) != [] || ValueRangeTier(ts) == []
    ensures MostSpecific(MostSpecific(ts)) == MostSpecific(ts)
  {
    if |ts| >= 2 && AttributeTier(ts) != [] {
      var r := AttributeTier(ts);
      assert MostSpecific(ts) == r;
      AttributeTierOfAttributeSpecific(r);
      if |r| >= 2 {
        assert MostSpecific(r) == AttributeTier(r);
      }
    } else {
      assert MostSpecific(ts) == ts;
    }
  }

  /** Tier 2 gives back a list exactly when every tuple in it holds exactly
      one range-of-values item. */
  lemma {:induction false} ValueRangeTierFixed(s: seq<AciTuple>)
    ensures ValueRangeTier(s) == s <==> forall t :: t in s ==> RangeCount(t.protectedItems) == 1
  {
    if forall t :: t in s ==> RangeCount(t.protectedItems) == 1 {
      ValueRangeTierOfSingleRanges(s);
    }
    if ValueRangeTier(s) == s {
      forall t | t in s
        ensures RangeCount(t.protectedItems) == 1
      {
        ValueRangeTierCount(s, t);
        UnitFactor(multiset(s)[t], RangeCount(t.protectedItems));
      }
    }
  }

  lemma {:induction false} ValueRangeTierOfSingleRanges(s: seq<AciTuple>)
    requires forall t :: t in s ==> RangeCount(t.protectedItems) == 1
    ensures ValueRangeTier(s) == s
  {
    if s != [] {
      var init := s[..|s| - 1];
      var last := s[|s| - 1];
      assert s == init + [last];
      ValueRangeTierOfSingleRanges(init);
      assert Repeat(last, 1) == [last];
    }
  }

  /** A nonlinear-arithmetic step: a positive count that a factor leaves
      unchanged is multiplied by one. */
  lemma UnitFactor(m: nat, c: nat)
    requires m > 0 && m * c == m
    ensures c == 1
  {
  }

  /** A nonlinear-arithmetic step: a product of two positive counts is at
      least each of them. */
  lemma ProductOfPositives(m: nat, c: nat)
    requires m > 0 && c > 0
    ensures m * c >= m && m * c >= c
  {
  }

  /** A tuple holding ranges of values occurs in tier 2 at least once per
      range it holds. */
  lemma RangedTupleInValueRangeTier(ts: seq<AciTuple>, t: AciTuple)
    requires t in ts && HasRangeOfValues(t)
    ensures t in ValueRangeTier(ts)
    ensures multiset(ValueRangeTier(ts))[t] >= RangeCount(t.protectedItems)
  {
    ValueRangeTierCount(ts, t);
    RangeCountPositive(t.protectedItems);
    ProductOfPositives(multiset(ts)[t], RangeCount(t.protectedItems));
  }

  /** Filtering a tier-2 output of two or more tuples takes tier 2 again. */
  lemma ValueRangeTierRefiltered(ts: seq<AciTuple>)
    requires AttributeTier(ts) == [] && |ValueRangeTier(ts)| >= 2
    ensures MostSpecific(ValueRangeTier(ts)) == ValueRangeTier(ValueRangeTier(ts))
  {
    var r := ValueRangeTier(ts);
    AttributeTierEmpty(ts);
    AttributeTierEmpty(r);
    ValueRangeTierEmpty(r);
    assert r[0] in r;
    assert ValueRangeTier(r) != [];
  }

  /** Every tuple of `ts` that holds a range of values holds exactly one. */
  predicate RangesAreSingle(ts: seq<AciTuple>) {
    forall t :: t in ts && HasRangeOfValues(t) ==> RangeCount(t.protectedItems) == 1
  }

  /** A tier-2 output of two or more tuples is its own tier 2 iff the
      ranged input tuples hold one range each. */
  lemma LongValueRangeTierFixed(ts: seq<AciTuple>)
    requires |ValueRangeTier(ts)| >= 2
    ensures ValueRangeTier(ValueRangeTier(ts)) == ValueRangeTier(ts) <==> RangesAreSingle(ts)
  {
    var r := ValueRangeTier(ts);
    ValueRangeTierFixed(r);
    if RangesAreSingle(ts) {
      forall t | t in r
        ensures RangeCount(t.protectedItems) == 1
      {
      }
    }
    if forall t :: t in r ==> RangeCount(t.protectedItems) == 1 {
      forall t | t in ts && HasRangeOfValues(t)
        ensures RangeCount(t.protectedItems) == 1
      {
        RangedTupleInValueRangeTier(ts, t);
      }
    }
  }

  /** A tier-2 output of one tuple comes from one tuple holding one range. */
  lemma ShortValueRangeTierSingle(ts: seq<AciTuple>)
    requires |ValueRangeTier(ts)| == 1
    ensures RangesAreSingle(ts)
  {
    var r := ValueRangeTier(ts);
    forall t | t in ts && HasRangeOfValues(t)
      ensures RangeCount(t.protectedItems) == 1
    {
      RangedTupleInValueRangeTier(ts, t);
      assert r == [t];
      assert multiset(r)[t] == 1;
      RangeCountPositive(t.protectedItems);
    }
  }

  /** The exact boundary of idempotence for a tier-2 output: filtering it
      again gives it back iff every input tuple holding a range of values
      holds exactly one. */
  lemma TierTwoIdempotentIff(ts: seq<AciTuple>)
    requires |ts| >= 2 && AttributeTier(ts) == [] && ValueRangeTier(ts) != []
    ensures MostSpecific(MostSpecific(ts)) == MostSpecific(ts) <==> RangesAreSingle(ts)
  {
    var r := ValueRangeTier(ts);
    assert MostSpecific(ts) == r;
    if |r| >= 2 {
      ValueRangeTierRefiltered(ts);
      LongValueRangeTierFixed(ts);
    } else {
      assert MostSpecific(r) == r;
      ShortValueRangeTierSingle(ts);
    }
  }

  /** A tier-2 output with duplicates grows when filtered again: one tuple
      with two ranges of values beside an entry-level tuple yields two copies,
      and those two copies yield four. */
  lemma TierTwoNotIdempotent()
    ensures var ranged := AciTuple(true, 0, [RangeOfValues("(cn=a*)"), RangeOfValues("(cn=b*)")]);
            var ts := [ranged, AciTuple(false, 0, [Entry])];
            MostSpecific(ts) == [ranged, ranged]
            && MostSpecific(MostSpecific(ts)) == [ranged, ranged, ranged, ranged]
  {
    var ranged := AciTuple(true, 0, [RangeOfValues("(cn=a*)"), RangeOfValues("(cn=b*)")]);
    var entry := AciTuple(false, 0, [Entry]);
    var ts := [ranged, entry];
    assert !NamesAttribute(ranged) && !NamesAttribute(entry);
    assert ts[..1] == [ranged];
    assert RangeCount(ranged.protectedItems[..1]) == 1;
    assert RangeCount(ranged.protectedItems) == 2;
    assert RangeCount(entry.protectedItems) == 0;
    AttributeTierEmpty(ts);
    assert ValueRangeTier([ranged]) == [ranged, ranged];
    assert ValueRangeTier(ts) == [ranged, ranged];
    var once := [ranged, ranged];
    AttributeTierEmpty(once);
    ValueRangeTierAppend([ranged], [ranged]);
    assert ValueRangeTier(once) == [ranged, ranged, ranged, ranged];
  }

  /** The attribute-type tuple wins over the entry-level one, whatever the
      grant flags say. */
  lemma AttributeTypeBeatsEntry()
    ensures var mail := AciTuple(true, 10, [AttributeType(["mail"])]);
            MostSpecific([mail, AciTuple(false, 10, [Entry])]) == [mail]
  {
  }
}
