/**
 * The host's outlining manager as the collapse engine sees it: the regions of the
 * active document, in the order the host enumerates them, and each region's
 * collapsed flag.
 */
module Outlining {
  import opened Depth

  /** The flags after expanding everything and then collapsing `level`'s regions, except those the host refused. */
  function CollapsedAfter(rs: seq<Region>, level: int, refused: set<Region>): (m: map<Region, bool>)
    ensures m.Keys == set r | r in rs
    ensures forall r :: r in m && m[r] ==> r in DepthMap(rs) && DepthMap(rs)[r] == level && r !in refused
    ensures forall r :: r in refused ==> r !in m || !m[r]
  {
    map r | r in rs :: r in Selected(rs, level) && r !in refused
  }

  /**
   * When the host refuses nothing, a region of two or more ends up collapsed exactly
   * when 1 plus the number of regions enclosing it equals the level.
   */
  lemma CollapsedExactlyAtDepth(rs: seq<Region>, level: int, r: Region)
    requires Distinct(rs) && |rs| >= 2 && r in rs
    ensures r in CollapsedAfter(rs, level, {})
    ensures CollapsedAfter(rs, level, {})[r] <==> 1 + |EnclosersOf(rs, r)| == level
  {
    DepthFormula(rs, r);
  }

  /** With zero regions or one, every region is left expanded, whatever the level. */
  lemma LoneRegionStaysExpanded(rs: seq<Region>, level: int, refused: set<Region>)
    requires |rs| <= 1
    ensures forall r :: r in rs ==> !CollapsedAfter(rs, level, refused)[r]
  {
    DegenerateInput(rs, level);
  }

  /** The order in which the host enumerates the regions does not change the outcome. */
  lemma CollapsedAfterOrderIndependent(rs: seq<Region>, qs: seq<Region>, level: int, refused: set<Region>)
    requires multiset(rs) == multiset(qs)
    ensures CollapsedAfter(rs, level, refused) == CollapsedAfter(qs, level, refused)
  {
    SelectedOrderIndependent(rs, qs, level);
    forall r ensures r in rs <==> r in qs {
      assert r in rs <==> r in multiset(rs);
      assert r in qs <==> r in multiset(qs);
    }
  }

  class OutliningManager {
    /** What the host's region enumeration returns for the whole document. */
    var regions: seq<Region>
    /** The collapsed flag of every region of the document. */
    var collapsed: map<Region, bool>

    ghost predicate Valid()
      reads this
    {
      Distinct(regions) && collapsed.Keys == set r | r in regions
    }

    /** A manager over `rs`, with the regions of `initially` collapsed. */
    constructor (rs: seq<Region>, initially: set<Region>)
      requires Distinct(rs)
      ensures Valid() && regions == rs
      ensures collapsed == map r | r in rs :: r in initially
    {
      regions := rs;
      collapsed := map r | r in rs :: r in initially;
    }

    /** Expands every region of the document. */
    method ExpandAll()
      requires Valid()
      modifies this
      ensures Valid() && regions == old(regions)
      ensures collapsed == map r | r in old(collapsed) :: false
    {
      collapsed := map r | r in collapsed :: false;
    }

    /**
     * Best-effort collapse of `r`: it succeeds, and sets r's flag, exactly when `r`
     * is a region of the document and the host does not refuse; otherwise nothing changes.
     */
    method TryCollapse(r: Region, hostRefuses: bool) returns (ok: bool)
      requires Valid()
      modifies this
      ensures Valid() && regions == old(regions)
      ensures ok == (r in old(collapsed) && !hostRefuses)
      ensures collapsed == if ok then old(collapsed)[r := true] else old(collapsed)
    {
      ok := r in collapsed && !hostRefuses;
      if ok {
        collapsed := collapsed[r := true];
      }
    }
  }
}
