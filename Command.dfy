/**
 * The command handler: the table that maps menu command numbers to levels, the
 * dispatch of a menu click, the validation of a custom level typed by the user,
 * the remembered last custom level, and the collapse operation itself.
 */
module Command {
  import opened Wrappers
  import opened Depth
  import opened Outlining

  /** The largest level a custom request may ask for. */
  const MaxCollapseLevel := 30

  /** The internal id that stands for "ask the user for a level". */
  const CustomLevelId := 9

  /** The level offered when no custom level has been entered yet. */
  const DefaultCustomLevel := 3

  /** Menu command number to internal id; ids 1 to 8 are the level itself. */
  const CommandIdMapping: map<int, int> := map[
    0x101 := 1, 0x102 := 2, 0x103 := 3, 0x104 := 4, 0x105 := 5,
    0x106 := 6, 0x107 := 7, 0x108 := 8, 0x109 := 9
  ]

  /** What a menu click asks for. */
  datatype Request = FixedLevel(level: int) | CustomLevel

  /** The request a registered menu command stands for. */
  function Dispatch(commandNumber: int): (r: Request)
    requires commandNumber in CommandIdMapping
    ensures 0x101 <= commandNumber <= 0x108 ==> r == FixedLevel(commandNumber - 0x100)
    ensures commandNumber == 0x109 ==> r == CustomLevel
  {
    var id := CommandIdMapping[commandNumber];
    if id == CustomLevelId then CustomLevel else FixedLevel(id)
  }

  /** The registered command numbers are exactly 0x101 to 0x109, and fixed levels are 1 to 8. */
  lemma CommandTable(commandNumber: int)
    ensures commandNumber in CommandIdMapping <==> 0x101 <= commandNumber <= 0x109
    ensures commandNumber in CommandIdMapping && Dispatch(commandNumber).FixedLevel? ==>
              1 <= Dispatch(commandNumber).level <= 8
  {
  }

  /**
   * The characters .NET counts as white space (`Char.IsWhiteSpace`). Among ASCII
   * characters these are the space and tab to carriage return; digits and signs are not.
   */
  predicate IsWhiteSpace(c: char): (b: bool)
    ensures c < '\U{0080}' ==> (b <==> c == ' ' || '\t' <= c <= '\r')
    ensures '0' <= c <= '9' || c == '-' || c == '+' ==> !b
  {
    || c == ' ' || '\t' <= c <= '\r' || c == '\U{0085}' || c == '\U{00A0}'
    || c == '\U{1680}' || '\U{2000}' <= c <= '\U{200A}' || c == '\U{2028}' || c == '\U{2029}'
    || c == '\U{202F}' || c == '\U{205F}' || c == '\U{3000}'
  }

  /**
   * `string.IsNullOrWhiteSpace` on the answer of the input box (which is never null):
   * the response is empty or white space only. The empty response is blank, and a
   * blank response holds no digit.
   */
  predicate IsBlank(response: string): (b: bool)
    ensures response == [] ==> b
    ensures b ==> forall i :: 0 <= i < |response| ==> !('0' <= response[i] <= '9')
  {
    forall i :: 0 <= i < |response| ==> IsWhiteSpace(response[i])
  }

  /**
   * The custom-level check: `parsed` is what integer parsing made of `response`
   * (None when it did not parse). The level is accepted exactly when the response
   * is not blank, it parsed, and the value is between 0 and 30.
   */
  function ValidateCustomLevel(response: string, parsed: Option<int>): (r: Option<int>)
    ensures r.Some? <==> !IsBlank(response) && parsed.Some? && 0 <= parsed.value <= MaxCollapseLevel
    ensures r.Some? ==> r == parsed
  {
    if IsBlank(response) || parsed.None? || !(0 <= parsed.value && parsed.value <= MaxCollapseLevel) then None
    else parsed
  }

  /** The edges of the accepted range: 0 and 30 pass, -1 and 31 do not, nor does a blank response. */
  lemma ValidationBoundaries(response: string)
    requires !IsBlank(response)
    ensures ValidateCustomLevel(response, Some(0)) == Some(0)
    ensures ValidateCustomLevel(response, Some(MaxCollapseLevel)) == Some(MaxCollapseLevel)
    ensures ValidateCustomLevel(response, Some(-1)) == None
    ensures ValidateCustomLevel(response, Some(MaxCollapseLevel + 1)) == None
    ensures ValidateCustomLevel("", Some(3)) == None
  {
  }

  /** Level 0 passes validation but, having no region at depth 0, leaves everything expanded. */
  lemma LevelZeroAcceptedButCollapsesNothing(response: string, rs: seq<Region>)
    requires !IsBlank(response)
    ensures ValidateCustomLevel(response, Some(0)) == Some(0)
    ensures forall r :: r in rs ==> !CollapsedAfter(rs, 0, {})[r]
  {
    OutOfRangeLevelSelectsNothing(rs, 0);
  }

  /** The command object: it remembers the last accepted custom level. */
  class CollapseLevel {
    var lastCustomLevel: Option<int>

    /** A remembered level is always one that passed validation. */
    ghost predicate Valid()
      reads this
    {
      lastCustomLevel.Some? ==> 0 <= lastCustomLevel.value <= MaxCollapseLevel
    }

    constructor ()
      ensures Valid() && lastCustomLevel == None
    {
      lastCustomLevel := None;
    }

    /** The level the prompt offers: the last accepted one, else 3; it always passes validation. */
    function OfferedLevel(): (d: int)
      reads this
      requires Valid()
      ensures lastCustomLevel.Some? ==> d == lastCustomLevel.value
      ensures lastCustomLevel.None? ==> d == DefaultCustomLevel
      ensures 0 <= d <= MaxCollapseLevel
    {
      lastCustomLevel.GetOr(DefaultCustomLevel)
    }

    /**
     * Asks for a custom level: `offered` is the default shown, `response` what the user
     * typed and `parsed` its integer parse. An accepted level is remembered and returned;
     * a rejected one returns None and leaves the remembered level alone.
     */
    method PromptForCustomLevel(response: string, parsed: Option<int>) returns (offered: int, level: Option<int>)
      requires Valid()
      modifies this
      ensures Valid()
      ensures offered == old(OfferedLevel())
      ensures level == ValidateCustomLevel(response, parsed)
      ensures lastCustomLevel == if level.Some? then level else old(lastCustomLevel)
    {
      offered := OfferedLevel();
      level := ValidateCustomLevel(response, parsed);
      if level.Some? {
        lastCustomLevel := level;
      }
    }

    /**
     * Collapses the regions at `level`: compute every region's depth, expand the whole
     * document, then try to collapse each region whose depth equals `level` (the host
     * refuses those in `refused`). No outlining manager (null) means nothing happens.
     */
    method Collapse(level: int, mgr: OutliningManager?, refused: set<Region>)
      requires mgr != null ==> mgr.Valid()
      modifies mgr
      ensures mgr != null ==> mgr.Valid() && mgr.regions == old(mgr.regions)
      ensures mgr != null ==> mgr.collapsed == CollapsedAfter(old(mgr.regions), level, refused)
    {
      if mgr != null {
        var rs := mgr.regions;
        var counts := ComputeDepths(rs);
        mgr.ExpandAll();
        var pending := counts.Keys;
        while pending != {}
          invariant mgr.Valid() && mgr.regions == rs
          invariant pending <= counts.Keys
          invariant forall r :: r in rs ==>
                      r in mgr.collapsed &&
                      mgr.collapsed[r] == (r in counts && r !in pending && counts[r] == level && r !in refused)
          decreases pending
        {
          var r :| r in pending;
          if counts[r] == level {
            var _ := mgr.TryCollapse(r, r in refused);
          }
          pending := pending - {r};
        }
      }
    }

    /**
     * A menu click on command `commandNumber`: levels 1 to 8 collapse at once; the
     * custom command prompts and collapses only when the prompt returns a level.
     */
    method MenuItemCallback(commandNumber: int, response: string, parsed: Option<int>,
                            mgr: OutliningManager?, refused: set<Region>)
      requires commandNumber in CommandIdMapping
      requires Valid()
      requires mgr != null ==> mgr.Valid()
      modifies this, mgr
      ensures Valid()
      ensures mgr != null ==> mgr.Valid() && mgr.regions == old(mgr.regions)
      ensures Dispatch(commandNumber).FixedLevel? ==>
                lastCustomLevel == old(lastCustomLevel) &&
                (mgr != null ==> mgr.collapsed == CollapsedAfter(old(mgr.regions), Dispatch(commandNumber).level, refused))
      ensures Dispatch(commandNumber).CustomLevel? && ValidateCustomLevel(response, parsed).None? ==>
                lastCustomLevel == old(lastCustomLevel) &&
                (mgr != null ==> mgr.collapsed == old(mgr.collapsed))
      ensures Dispatch(commandNumber).CustomLevel? && ValidateCustomLevel(response, parsed).Some? ==>
                lastCustomLevel == ValidateCustomLevel(response, parsed) &&
                (mgr != null ==>
                   mgr.collapsed == CollapsedAfter(old(mgr.regions), ValidateCustomLevel(response, parsed).value, refused))
    {
      var request := Dispatch(commandNumber);
      match request {
        case CustomLevel =>
          var _, level := PromptForCustomLevel(response, parsed);
          if level.Some? {
            Collapse(level.value, mgr, refused);
          }
        case FixedLevel(n) =>
          Collapse(n, mgr, refused);
      }
    }
  }
}
