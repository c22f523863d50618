/**
 * The collapse-by-nesting-depth engine: for every outlining region of a document,
 * count how many other regions enclose it, and select the regions whose count
 * equals a requested level.
 *
 * A region is known to the engine by its identity (`id`) and its extent over the
 * document's character offsets. Two regions are the same region exactly when they
 * are equal as values, which, because `id` is part of the value, is identity: two
 * regions with the same extent and different ids are different regions.
 */
module Depth {

  /** A half-open text extent [start, end) over the document's offsets. */
  datatype Span = Span(start: nat, end: nat)

  /** An outlining region: an opaque identity and its extent in the current snapshot. */
  datatype Region = Region(id: nat, span: Span)

  /**
   * The editor's span containment for half-open spans: `inner` starts no earlier and
   * ends no later than `outer` (both endpoints compared inclusively). Every span
   * contains itself, and a contained span is never longer than its container.
   */
  predicate Contains(outer: Span, inner: Span): (b: bool)
    ensures outer == inner ==> b
    ensures b ==> inner.end - inner.start <= outer.end - outer.start
  {
    outer.start <= inner.start && inner.end <= outer.end
  }

  /** `other` counts toward the depth of `r`: a different region whose span contains r's. */
  predicate Encloses(other: Region, r: Region)
  {
    other != r && Contains(other.span, r.span)
  }

  /** No region occurs twice (the host hands out each collapsible once). */
  predicate Distinct(rs: seq<Region>)
  {
    forall i, j :: 0 <= i < j < |rs| ==> rs[i] != rs[j]
  }

  /** Some region of `rs` other than `r`: only then does the engine create an entry for `r`. */
  predicate HasOther(rs: seq<Region>, r: Region)
  {
    rs != [] && (rs[|rs| - 1] != r || HasOther(rs[..|rs| - 1], r))
  }

  /** The number of positions of `rs` holding a region that encloses `r`. */
  function CountEnclosing(rs: seq<Region>, r: Region): nat
  {
    if rs == [] then 0
    else CountEnclosing(rs[..|rs| - 1], r) + (if Encloses(rs[|rs| - 1], r) then 1 else 0)
  }

  /** The depth the engine gives `r`: 1, plus one for each enclosing region. */
  function DepthOf(rs: seq<Region>, r: Region): int
  {
    1 + CountEnclosing(rs, r)
  }

  /**
   * The entries of the depth map once the regions in `done` have been visited:
   * a visited region has an entry only if some other region exists.
   */
  function DepthEntries(rs: seq<Region>, done: seq<Region>): map<Region, int>
  {
    map r | r in done && HasOther(rs, r) :: DepthOf(rs, r)
  }

  /** The whole depth map (the source's `regionCount` after both loops). */
  function DepthMap(rs: seq<Region>): map<Region, int>
  {
    DepthEntries(rs, rs)
  }

  /** The regions the engine collapses at `level`: those whose entry equals `level`. */
  function Selected(rs: seq<Region>, level: int): (s: set<Region>)
    ensures forall r :: r in s ==> r in rs && HasOther(rs, r) && 1 + CountEnclosing(rs, r) == level
    ensures level < 1 ==> s == {}
  {
    set r | r in DepthMap(rs) && DepthMap(rs)[r] == level
  }

  /** The set of regions of `rs` that enclose `r`. */
  function EnclosersOf(rs: seq<Region>, r: Region): set<Region>
  {
    set o | o in rs && Encloses(o, r)
  }

  /**
   * The nested loops that fill the depth dictionary: for each region (outer loop),
   * walk all the regions (`VisitRegion`); a region met for which no other region
   * exists never gets an entry.
   */
  method ComputeDepths(rs: seq<Region>) returns (counts: map<Region, int>)
    requires Distinct(rs)
    ensures counts == DepthMap(rs)
  {
    counts := map[];
    var i := 0;
    while i < |rs|
      invariant 0 <= i <= |rs|
      invariant counts == DepthEntries(rs, rs[..i])
    {
      assert rs[i] !in counts by {
        forall k | 0 <= k < i ensures rs[k] != rs[i] { }
      }
      counts := VisitRegion(rs, rs[i], counts);
      EntriesStep(rs, i);
      i := i + 1;
    }
    assert rs[..|rs|] == rs;
  }

  /**
   * The inner loop for one region `r`: walk all the regions, skip `r` itself, create
   * r's entry with 1 on meeting the first other region, and add one for every other
   * region whose span contains r's span.
   */
  method VisitRegion(rs: seq<Region>, r: Region, counts: map<Region, int>) returns (updated: map<Region, int>)
    requires r !in counts
    ensures updated == if HasOther(rs, r) then counts[r := DepthOf(rs, r)] else counts
  {
    updated := counts;
    var j := 0;
    while j < |rs|
      invariant 0 <= j <= |rs|
      invariant HasOther(rs[..j], r) ==> updated == counts[r := 1 + CountEnclosing(rs[..j], r)]
      invariant !HasOther(rs[..j], r) ==> updated == counts
    {
      var other := rs[j];
      PrefixStep(rs, j, r);
      if other != r {
        if r !in updated {
          updated := updated[r := 1];
        }
        if Contains(other.span, r.span) {
          updated := updated[r := updated[r] + 1];
        }
      }
      j := j + 1;
    }
    assert rs[..|rs|] == rs;
  }

  /** One more position of the inner loop: how the entry's existence and value change. */
  lemma PrefixStep(rs: seq<Region>, j: nat, r: Region)
    requires j < |rs|
    ensures HasOther(rs[..j + 1], r) == (HasOther(rs[..j], r) || rs[j] != r)
    ensures CountEnclosing(rs[..j + 1], r) == CountEnclosing(rs[..j], r) + (if Encloses(rs[j], r) then 1 else 0)
    ensures !HasOther(rs[..j], r) ==> CountEnclosing(rs[..j], r) == 0
  {
    assert rs[..j + 1][..j] == rs[..j];
    if !HasOther(rs[..j], r) {
      HasOtherMember(rs[..j], r);
      NoNestingCountsZero(rs[..j], r);
    }
  }

  /** The recursive test agrees with its plain meaning: some member of `rs` differs from `r`. */
  lemma {:induction false} HasOtherMember(rs: seq<Region>, r: Region)
    ensures HasOther(rs, r) <==> exists o :: o in rs && o != r
  {
    if rs != [] {
      var init, last := rs[..|rs| - 1], rs[|rs| - 1];
      assert rs == init + [last];
      HasOtherMember(init, r);
      if last != r {
        assert last in rs;
      } else if HasOther(init, r) {
        var o :| o in init && o != r;
        assert o in rs;
      } else {
        assert forall o :: o in rs ==> o in init || o == last;
      }
    }
  }

  /** One more region of the outer loop: its entry is added exactly when another region exists. */
  lemma EntriesStep(rs: seq<Region>, i: nat)
    requires i < |rs|
    ensures DepthEntries(rs, rs[..i + 1]) ==
              if HasOther(rs, rs[i]) then DepthEntries(rs, rs[..i])[rs[i] := DepthOf(rs, rs[i])]
              else DepthEntries(rs, rs[..i])
  {
  }

  // ---------------------------------------------------------------------------
  // Counting lemmas
  // ---------------------------------------------------------------------------

  /** Counting over a concatenation adds the two counts. */
  lemma {:induction false} CountConcat(a: seq<Region>, b: seq<Region>, r: Region)
    ensures CountEnclosing(a + b, r) == CountEnclosing(a, r) + CountEnclosing(b, r)
  {
    if b == [] {
      assert a + b == a;
    } else {
      assert (a + b)[..|a + b| - 1] == a + b[..|b| - 1];
      CountConcat(a, b[..|b| - 1], r);
    }
  }

  /** Over distinct regions, the positional count is the number of enclosing regions. */
  lemma {:induction false} CountIsCardinality(rs: seq<Region>, r: Region)
    requires Distinct(rs)
    ensures CountEnclosing(rs, r) == |EnclosersOf(rs, r)|
  {
    if rs != [] {
      var init, last := rs[..|rs| - 1], rs[|rs| - 1];
      assert Distinct(init);
      CountIsCardinality(init, r);
      assert last !in init by {
        forall k | 0 <= k < |init| ensures init[k] != last { assert init[k] == rs[k]; }
      }
      assert rs == init + [last];
      if Encloses(last, r) {
        assert EnclosersOf(rs, r) == EnclosersOf(init, r) + {last};
      } else {
        assert EnclosersOf(rs, r) == EnclosersOf(init, r);
      }
    }
  }

  /** Every position counted is a region, and `r` itself is never counted. */
  lemma {:induction false} CountBound(rs: seq<Region>, r: Region)
    ensures CountEnclosing(rs, r) <= |rs|
    ensures r in rs ==> CountEnclosing(rs, r) <= |rs| - 1
  {
    if rs != [] {
      var init := rs[..|rs| - 1];
      CountBound(init, r);
      assert rs == init + [rs[|rs| - 1]];
      assert r in rs && r != rs[|rs| - 1] ==> r in init;
    }
  }

  /** A region of `rs` that encloses `r` contributes to its count. */
  lemma {:induction false} CountPositive(rs: seq<Region>, o: Region, r: Region)
    requires o in rs && Encloses(o, r)
    ensures CountEnclosing(rs, r) >= 1
  {
    var init := rs[..|rs| - 1];
    assert rs == init + [rs[|rs| - 1]];
    if o != rs[|rs| - 1] {
      CountPositive(init, o, r);
    }
  }

  /** The count depends only on which regions occur, and how often: not on their order. */
  lemma {:induction false} CountPermutation(rs: seq<Region>, qs: seq<Region>, r: Region)
    requires multiset(rs) == multiset(qs)
    ensures CountEnclosing(rs, r) == CountEnclosing(qs, r)
    decreases |rs|
  {
    if rs == [] {
      assert |qs| == |multiset(qs)| == 0;
    } else {
      var init, last := rs[..|rs| - 1], rs[|rs| - 1];
      assert rs == init + [last];
      assert last in multiset(qs);
      var k :| 0 <= k < |qs| && qs[k] == last;
      var rest := qs[..k] + qs[k + 1..];
      assert qs == qs[..k] + [last] + qs[k + 1..];
      assert multiset(rest) == multiset(init) by {
        assert multiset(qs) == multiset(qs[..k]) + multiset{last} + multiset(qs[k + 1..]);
        assert multiset(rest) == multiset(qs[..k]) + multiset(qs[k + 1..]);
        assert multiset(rs) == multiset(init) + multiset{last};
        assert multiset(rest) == multiset(qs) - multiset{last};
        assert multiset(init) == multiset(rs) - multiset{last};
      }
      CountPermutation(init, rest, r);
      CountConcat(qs[..k], qs[k + 1..], r);
      CountConcat(qs[..k] + [last], qs[k + 1..], r);
      CountConcat(qs[..k], [last], r);
      CountConcat(init, [last], r);
      assert [last][..0] == [];
    }
  }

  // ---------------------------------------------------------------------------
  // Properties of the depth map
  // ---------------------------------------------------------------------------

  /**
   * With at least two distinct regions, every region has an entry, and the entry is
   * 1 plus the number of distinct other regions whose span contains its span.
   */
  lemma DepthFormula(rs: seq<Region>, r: Region)
    requires Distinct(rs) && |rs| >= 2 && r in rs
    ensures r in DepthMap(rs)
    ensures DepthMap(rs)[r] == 1 + |EnclosersOf(rs, r)|
  {
    assert rs[0] != rs[1];
    assert HasOther(rs, r) by {
      if rs[0] != r { assert rs[0] in rs; } else { assert rs[1] in rs; }
    }
    CountIsCardinality(rs, r);
  }

  /** With zero regions, or one, the depth map is empty and nothing is selected at any level. */
  lemma DegenerateInput(rs: seq<Region>, level: int)
    requires |rs| <= 1
    ensures DepthMap(rs) == map[]
    ensures Selected(rs, level) == {}
  {
    forall r | r in rs ensures !HasOther(rs, r) {
      forall o | o in rs ensures o == r {
        assert o == rs[0] && r == rs[0];
      }
    }
  }

  /** Every entry of the depth map lies between 1 and the number of regions. */
  lemma DepthBounds(rs: seq<Region>, r: Region)
    requires r in DepthMap(rs)
    ensures 1 <= DepthMap(rs)[r] <= |rs|
  {
    CountBound(rs, r);
  }

  /** Level 0, and every level beyond the number of regions, selects nothing. */
  lemma OutOfRangeLevelSelectsNothing(rs: seq<Region>, level: int)
    requires level < 1 || level > |rs|
    ensures Selected(rs, level) == {}
  {
    forall r | r in DepthMap(rs) ensures DepthMap(rs)[r] != level {
      DepthBounds(rs, r);
    }
  }

  /**
   * Two different regions with identical spans count each other: the self-skip is by
   * identity and containment is inclusive, so each sits at least one level deep.
   */
  lemma EqualSpansCountEachOther(rs: seq<Region>, a: Region, b: Region)
    requires a in rs && b in rs && a != b && a.span == b.span
    ensures a in DepthMap(rs) && b in DepthMap(rs)
    ensures DepthMap(rs)[a] >= 2 && DepthMap(rs)[b] >= 2
  {
    HasOtherMember(rs, a);
    HasOtherMember(rs, b);
    CountPositive(rs, b, a);
    CountPositive(rs, a, b);
  }

  /** Exactly two regions with the same span are both at depth 2. */
  lemma TwoEqualSpans(a: Region, b: Region)
    requires a != b && a.span == b.span
    ensures DepthMap([a, b]) == map[a := 2, b := 2]
  {
    var rs := [a, b];
    assert HasOther(rs, a) by { assert b in rs; }
    assert HasOther(rs, b) by { assert a in rs; }
    assert rs[..1] == [a];
    assert [a][..0] == [];
    assert CountEnclosing([a], a) == 0;
    assert CountEnclosing([a], b) == 1;
    assert CountEnclosing(rs, a) == CountEnclosing([a], a) + 1;
    assert CountEnclosing(rs, b) == CountEnclosing([a], b);
  }

  /** Permuting the input changes no entry of the depth map. */
  lemma DepthMapOrderIndependent(rs: seq<Region>, qs: seq<Region>)
    requires multiset(rs) == multiset(qs)
    ensures DepthMap(rs) == DepthMap(qs)
  {
    forall r ensures r in rs <==> r in qs {
      assert r in rs <==> r in multiset(rs);
      assert r in qs <==> r in multiset(qs);
    }
    forall r | r in rs ensures DepthOf(rs, r) == DepthOf(qs, r) {
      CountPermutation(rs, qs, r);
    }
    forall r ensures HasOther(rs, r) <==> HasOther(qs, r) {
      HasOtherMember(rs, r);
      HasOtherMember(qs, r);
    }
  }

  /** Permuting the input does not change the selected set at any level. */
  lemma SelectedOrderIndependent(rs: seq<Region>, qs: seq<Region>, level: int)
    requires multiset(rs) == multiset(qs)
    ensures Selected(rs, level) == Selected(qs, level)
  {
    DepthMapOrderIndependent(rs, qs);
  }

  /** When no region encloses another, every region of two or more sits at depth 1. */
  lemma {:induction false} NoNestingCountsZero(rs: seq<Region>, r: Region)
    requires forall o :: o in rs ==> !Encloses(o, r)
    ensures CountEnclosing(rs, r) == 0
  {
    if rs != [] {
      var init := rs[..|rs| - 1];
      assert forall o :: o in init ==> o in rs;
      NoNestingCountsZero(init, r);
      assert rs[|rs| - 1] in rs;
    }
  }

  /** Regions no other region encloses are at depth 1. */
  lemma NoNestingDepthOne(rs: seq<Region>)
    requires Distinct(rs) && |rs| >= 2
    requires forall i, j :: 0 <= i < |rs| && 0 <= j < |rs| ==> !Encloses(rs[i], rs[j])
    ensures forall r :: r in rs ==> r in DepthMap(rs) && DepthMap(rs)[r] == 1
  {
    forall r | r in rs ensures r in DepthMap(rs) && DepthMap(rs)[r] == 1 {
      DepthFormula(rs, r);
      NoNestingCountsZero(rs, r);
    }
  }

  /** `outer` contains `inner` and is a different extent. */
  predicate ProperlyContains(outer: Span, inner: Span)
  {
    Contains(outer, inner) && outer != inner
  }

  /** A chain of regions, each properly containing every later one. */
  predicate Chain(rs: seq<Region>)
  {
    forall i, j :: 0 <= i < j < |rs| ==> ProperlyContains(rs[i].span, rs[j].span)
  }

  /** In a chain, the first m positions contain min(m, k) enclosers of region k. */
  lemma {:induction false} ChainCount(rs: seq<Region>, m: nat, k: nat)
    requires Chain(rs) && m <= |rs| && k < |rs|
    ensures CountEnclosing(rs[..m], rs[k]) == if m <= k then m else k
  {
    if m > 0 {
      ChainCount(rs, m - 1, k);
      assert rs[..m][..m - 1] == rs[..m - 1];
      assert rs[..m][m - 1] == rs[m - 1];
      if m - 1 < k {
        assert Encloses(rs[m - 1], rs[k]);
      } else if m - 1 > k {
        assert ProperlyContains(rs[k].span, rs[m - 1].span);
        assert !Encloses(rs[m - 1], rs[k]);
      }
    }
  }

  /** In a chain of two or more regions, from outermost to innermost, the depths are 1, 2, ..., n. */
  lemma ChainDepths(rs: seq<Region>)
    requires Chain(rs) && |rs| >= 2
    ensures forall k :: 0 <= k < |rs| ==> rs[k] in DepthMap(rs) && DepthMap(rs)[rs[k]] == k + 1
  {
    forall k | 0 <= k < |rs| ensures rs[k] in DepthMap(rs) && DepthMap(rs)[rs[k]] == k + 1 {
      var o := if k == 0 then rs[1] else rs[0];
      assert o in rs && o != rs[k] by {
        if k == 0 { assert ProperlyContains(rs[0].span, rs[1].span); }
        else { assert ProperlyContains(rs[0].span, rs[k].span); }
      }
      assert HasOther(rs, rs[k]);
      ChainCount(rs, |rs|, k);
      assert rs[..|rs|] == rs;
    }
  }

  /**
   * A document with an outer region [0, 100] holding [10, 50] and [60, 90], the
   * first of which holds [20, 30]: depths 1, 2, 2 and 3.
   */
  lemma NestedExample()
    ensures var r1, r2, r3, r4 := Region(1, Span(0, 100)), Region(2, Span(10, 50)),
                                  Region(3, Span(60, 90)), Region(4, Span(20, 30));
            var rs := [r1, r2, r3, r4];
            && DepthMap(rs) == map[r1 := 1, r2 := 2, r3 := 2, r4 := 3]
            && Selected(rs, 1) == {r1} && Selected(rs, 2) == {r2, r3}
            && Selected(rs, 3) == {r4} && Selected(rs, 4) == {}
  {
    var r1, r2, r3, r4 := Region(1, Span(0, 100)), Region(2, Span(10, 50)),
                          Region(3, Span(60, 90)), Region(4, Span(20, 30));
    var rs := [r1, r2, r3, r4];
    assert Distinct(rs);
    DepthFormula(rs, r1);
    DepthFormula(rs, r2);
    DepthFormula(rs, r3);
    DepthFormula(rs, r4);
    assert EnclosersOf(rs, r1) == {};
    assert EnclosersOf(rs, r2) == {r1};
    assert EnclosersOf(rs, r3) == {r1};
    assert EnclosersOf(rs, r4) == {r1, r2};
    assert DepthMap(rs).Keys == {r1, r2, r3, r4};
  }
}
