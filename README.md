# Collapse Level, modelled in Dafny

Collapse Level is a Visual Studio editor extension. It collapses every outlining region of the
active document that sits at a chosen nesting depth. Its command handler
(`CollapseLevel/CollapseLevel.cs`) has four parts:

- a table mapping menu command numbers to levels 1 to 8, plus a "custom level" command;
- a prompt that validates a typed custom level and remembers the last one accepted;
- the collapse operation;
- inside the collapse operation, the depth engine.

The depth engine gives every region a depth. It is 1, plus one for every other region whose span
contains the region's span. The operation then expands the whole document and tries to collapse
each region whose depth equals the requested level.

This project models those parts and proves what they promise:

- `Wrappers.dfy`: the Option type, used for `int?` results.
- `Depth.dfy`: the depth engine.
  - Regions are values `Region(id, Span(start, end))`. The `id` is the region's identity.
    Two regions with the same span and different ids are different regions.
  - `DepthMap` is the specification: which regions get an entry, and what value.
  - `ComputeDepths` and `VisitRegion` are the two nested loops that fill the dictionary entry by
    entry. `ComputeDepths` is proved to build exactly `DepthMap`. `VisitRegion` is proved to add
    one entry, with value `DepthOf(rs, r)`, exactly when some other region exists.
  - The lemmas give the depth formula, the bounds, the degenerate inputs, equal spans, order
    independence, chains, and a worked four-region example.
- `Outlining.dfy`: the host's outlining state.
  - It is a class holding the document's regions and a collapsed flag per region, with
    `ExpandAll` and a best-effort `TryCollapse`.
  - `CollapsedAfter` is the state the collapse operation must leave.
- `Command.dfy`: the command layer.
  - `CommandIdMapping` and `Dispatch` model the command table and its dispatch.
  - `ValidateCustomLevel` models the custom-level check.
  - The `CollapseLevel` class carries the remembered `lastCustomLevel`. Its methods are
    `PromptForCustomLevel`, `Collapse` and `MenuItemCallback`.

The host is replaced by parameters:

- the outlining manager is an `OutliningManager?`, where null means the view or the outlining
  service is unavailable;
- the user's typed text is `response`;
- the result of integer parsing is `parsed: Option<int>`;
- the blank-response test `string.IsNullOrWhiteSpace` is modelled (`IsBlank`, over the characters
  .NET counts as white space); the input box always returns a string, so null does not arise;
- the regions the host refuses to collapse are `refused`.

Behaviours of the code a reader might not expect, all kept in the model:

- A region counts every other region whose span contains its span, including one with an
  identical span. The self-skip is by identity and the containment test is inclusive. So two
  regions with the same extent count each other (`EqualSpansCountEachOther`, `TwoEqualSpans`).
- A region gets a depth entry only when the inner loop meets some other region. So with a single
  region nothing is ever collapsed (`DegenerateInput`, `LoneRegionStaysExpanded`).

Two places where the code contradicts its own text; the model follows the code:

- The selection is by `depth == level`, not "level + 1" as the method's summary comment
  (`CollapseLevel/CollapseLevel.cs:121`) says.
- The range check accepts 0 to 30, although the status message (`CollapseLevel/CollapseLevel.cs:232`)
  says 1 to 30. Level 0 passes but selects nothing (`LevelZeroAcceptedButCollapsesNothing`).

## Model

| member | source | states |
|---|---|---|
| Depth.Contains | CollapseLevel/CollapseLevel.cs:166 | The containment test for half-open spans: the inner span starts no earlier and ends no later than the outer one. Every span contains itself, and a contained span is never longer than its container. |
| Depth.Selected | CollapseLevel/CollapseLevel.cs:175-180 | The regions whose entry equals the level: each is a region of the input, another region exists, and 1 plus its enclosing count equals the level. A level below 1 selects nothing. |
| Depth.ComputeDepths | CollapseLevel/CollapseLevel.cs:148-171 | The nested loops over distinct regions build exactly `DepthMap`. A region has an entry iff another region exists. Its entry is 1 plus the number of other regions whose span contains its own. |
| Depth.VisitRegion | CollapseLevel/CollapseLevel.cs:155-170 | The inner loop for one region adds that region's entry, with value 1 plus its enclosing count, iff some other region exists. Otherwise it leaves the dictionary unchanged. |
| Depth.DepthFormula | CollapseLevel/CollapseLevel.cs:150-170 | With at least two distinct regions, every region has an entry. The entry is 1 plus the size of the set of distinct other regions with `other.start <= r.start && r.end <= other.end`. |
| Depth.DegenerateInput | CollapseLevel/CollapseLevel.cs:155-161 | With zero or one region the depth map is empty, so no level selects anything. |
| Depth.DepthBounds | CollapseLevel/CollapseLevel.cs:161-168 | Every entry d satisfies 1 <= d <= n, where n is the number of regions. |
| Depth.OutOfRangeLevelSelectsNothing | CollapseLevel/CollapseLevel.cs:175-181 | Level 0, or any level above the number of regions, selects no region. |
| Depth.EqualSpansCountEachOther | CollapseLevel/CollapseLevel.cs:157-169 | Two different regions with identical spans each count the other, so both have depth at least 2. |
| Depth.TwoEqualSpans | CollapseLevel/CollapseLevel.cs:155-170 | Exactly two regions with one span: both have depth 2. |
| Depth.DepthMapOrderIndependent | CollapseLevel/CollapseLevel.cs:150-171 | Permuting the input sequence leaves the whole depth map unchanged. |
| Depth.SelectedOrderIndependent | CollapseLevel/CollapseLevel.cs:175-180 | Permuting the input sequence leaves the set selected at any level unchanged. |
| Depth.NoNestingDepthOne | CollapseLevel/CollapseLevel.cs:160-169 | When no region contains another, every region of two or more has depth 1. |
| Depth.ChainDepths | CollapseLevel/CollapseLevel.cs:150-170 | In a chain where each region properly contains every later one, the depths are 1, 2, ..., n from outermost to innermost. |
| Depth.NestedExample | CollapseLevel/CollapseLevel.cs:148-181 | For [0,100] ⊃ [10,50] ⊃ [20,30] and [0,100] ⊃ [60,90], the depths are 1, 2, 3 and 2. Level 1 gives {[0,100]}, level 2 gives {[10,50], [60,90]}, level 3 gives {[20,30]}, level 4 gives nothing. |
| Outlining.CollapsedAfter | CollapseLevel/CollapseLevel.cs:173-181 | The flags after the operation: one per region of the document. A flag is set only for a region whose depth entry equals the level and that the host did not refuse. Every refused region stays expanded. |
| Outlining.CollapsedExactlyAtDepth | CollapseLevel/CollapseLevel.cs:173-181 | With two or more regions and no refusals, a region ends collapsed iff 1 plus the number of regions enclosing it equals the level. |
| Outlining.LoneRegionStaysExpanded | CollapseLevel/CollapseLevel.cs:155-181 | With zero or one region, everything ends expanded at every level. |
| Outlining.CollapsedAfterOrderIndependent | CollapseLevel/CollapseLevel.cs:150-181 | The final collapsed flags do not depend on the order in which the host enumerates the regions. |
| Outlining.OutliningManager.ExpandAll | CollapseLevel/CollapseLevel.cs:173 | Every region's flag becomes expanded. The regions themselves are unchanged. |
| Outlining.OutliningManager.TryCollapse | CollapseLevel/CollapseLevel.cs:179 | A best-effort collapse. It succeeds, and sets exactly that region's flag, iff the region belongs to the document and the host does not refuse. Otherwise nothing changes. |
| Command.Dispatch | CollapseLevel/CollapseLevel.cs:196-213 | Commands 0x101 to 0x108 request a collapse at levels 1 to 8. Command 0x109 requests the custom-level prompt. |
| Command.CommandTable | CollapseLevel/CollapseLevel.cs:22-33 | The registered command numbers are exactly 0x101 to 0x109, and every fixed level is between 1 and 8. |
| Command.IsWhiteSpace | CollapseLevel/CollapseLevel.cs:230 | The characters .NET counts as white space. Among ASCII these are exactly the space and tab to carriage return, and digits and signs are never white space. |
| Command.IsBlank | CollapseLevel/CollapseLevel.cs:230 | The `string.IsNullOrWhiteSpace` test on the response. The empty response is blank, and a blank response contains no digit. |
| Command.ValidateCustomLevel | CollapseLevel/CollapseLevel.cs:230-237 | A level is accepted iff the response is not blank, it parsed, and 0 <= v <= 30. An accepted value is the parsed value. |
| Command.ValidationBoundaries | CollapseLevel/CollapseLevel.cs:230 | 0 and 30 are accepted. -1, 31 and a blank response are rejected. |
| Command.LevelZeroAcceptedButCollapsesNothing | CollapseLevel/CollapseLevel.cs:230 | Level 0 passes validation, yet every region stays expanded. |
| Command.CollapseLevel.OfferedLevel | CollapseLevel/CollapseLevel.cs:224 | The prompt offers the last accepted level, or 3 when there is none, and the offer always passes the range check. |
| Command.CollapseLevel.PromptForCustomLevel | CollapseLevel/CollapseLevel.cs:222-238 | Returns the offered default and the validated level. On acceptance it sets `lastCustomLevel` to the level. On rejection it returns None and leaves `lastCustomLevel` unchanged. |
| Command.CollapseLevel.Collapse | CollapseLevel/CollapseLevel.cs:123-188 | With a manager, the regions are unchanged and the flags become `CollapsedAfter`: collapsed exactly for the selected regions the host does not refuse, expanded for all others. Without a manager, nothing happens. |
| Command.CollapseLevel.MenuItemCallback | CollapseLevel/CollapseLevel.cs:193-215 | A fixed level collapses at that level and keeps `lastCustomLevel`. The custom command collapses at the validated level and remembers it. A rejected custom level changes nothing. |

## Left out

- Command registration, the package bootstrap, and the active-view lookup are host glue with no
  behaviour of their own. They are not part of this model. This covers
  `CollapseLevel/CollapseLevelPackage.cs` and `CollapseLevel/Core/TextViewRegistry.cs`.
- The outlining-service lookup is represented only by a null or non-null manager. The source
  keeps the last manager it found in a property. If a later lookup fails, the source reuses that
  stale manager. The model does not capture this.
- The status-bar messages and the input box are left out; they are user-interface output. The
  user's answer is a parameter.
- `int.TryParse` is .NET library code. Its result is an input, `parsed`. The model does not tie
  it to the text of `response`.
- The snapshot translation of tracking spans is left out. Regions are given directly as integer
  spans. No result depends on `start <= end`, so the model does not require it.
- Catching `ObjectDisposedException` is left out. It is a race with the host closing the
  document, and it can stop the collapse loop partway.
- Depth.ComputeDepths: requires the regions to be distinct. The host outlining manager returns
  each region once. With a repeated region, the source would count its enclosers once per
  occurrence, and the model does not cover that.
- The order of the dictionary walk that calls `TryCollapse` is unspecified and is modelled as an
  arbitrary choice. Each call touches only its own region, so the order does not affect the
  result.
- Command.CollapseLevel.MenuItemCallback: requires the command number to be in the table. The
  source registers exactly those numbers, and a lookup outside the table would throw.
