# Domain list widget: priority merge, status colours and tiles

This project models the core of a small web widget that lists the DNS zones
of one account. When the fetch of the zone list resolves, the widget
reorders the zones. For each name of a fixed priority list in turn, it
places the first fetched zone with that name, skipping names that no zone
carries. Then it appends every fetched zone it has not placed yet, in
fetched order. The widget stores the result and the API's "last updated"
text. It then draws one tile per zone: a link to `https://<name>` with a
status bar that is green for "active", amber for "invalid" and red
otherwise. While it holds no zone, it shows a loading placeholder instead.

The same widget exists twice, as the `DomainTable` and `App` components.
Their merge and their tiles differ only in their priority lists: seven
names including `antony.wiki`, and six names without it. (`DomainTable`
also shows a zone count in its header and a version footer, and `App`
wraps its content in extra containers; neither is part of this model.)

Modules:

- `Zones`: the zone record, `Option`, `Distinct` and `Range`.
- `PriorityMerge`: the merge.
  - Specification functions: `FindIndex`, `PriorityIndices`, `Remaining`, `MergeOrder` and `Merge`.
  - The imperative callback: `CollectPriority`, `FilterUnplaced` and `BuildFinal`, proved equal to `MergeOrder`.
- `MergeLaws`: what the merge promises.
  - Placement and ordering of the priority prefix.
  - Skipping of absent names.
  - Stability of the remainder.
  - Permutation (as positions and as a multiset of zones).
  - Idempotence and the empty cases.
- `StatusBar`: the colour rule and what is rendered.
- `Board`: the component's state as a class.
  - It holds the displayed zones and the last-updated text.
  - `OnFetched` is the fetch callback.
- `DomainTable`, `App`: the two priority constants and what follows for each.

The code decides "already placed" by object identity (`z === domain`), not
by name. A fetched list comes from one decoded JSON array, so each element
is a distinct object. A zone's identity is therefore modelled as its position
in the fetched list. The merge is specified as a sequence of positions
(`MergeOrder`) and read back into zones (`Merge`). Position stands for
identity exactly when no object occurs twice in the list: this holds for
every fetched list, and for every merged list when the priority names are
distinct.

Nothing in the code makes zone names unique, and nothing stops a priority
name from being listed twice. The model follows the code:

- Two fetched zones with the same name both survive. Only the first one can be placed in the prefix (`SameNameLaterZoneKept`).
- A name listed twice in the priority list places its zone twice (`RepeatedPriorityNameRepeatsZone`).
  - This is why the permutation results require distinct priority names.
  - The idempotence result requires them too, for a different reason: the merged list then holds the same object twice, which positions cannot express (see `MergeIdempotent` under "## Left out").
  - Both shipped priority lists are distinct (`DomainTable.PriorityDistinct`, `App.PriorityDistinct`).

## Model

| member | source | states |
|---|---|---|
| PriorityMerge.PriorityIndices | src/components/DomainTable.tsx:162 | the prefix `priority.map(find by name).filter(defined)` as positions; its properties are stated by PrefixEntriesFirstOfPriorityName, PrefixAppend, PrefixOfOne, PrefixDistinct and PriorityPlacement |
| PriorityMerge.Remaining | src/components/DomainTable.tsx:164 | the positions `domains.filter(d => !final.find(z => z === d))` keeps; its properties are stated by RemainingIsUnplacedInOrder |
| PriorityMerge.MergeOrder | src/components/DomainTable.tsx:161-164 | `final` after the `push`, as positions; its properties are stated by MergeOrderInRange, PriorityPlacement, PriorityOrdering, RemainderKeepsFetchedOrder and MergeOrderIsPermutation, and BuildFinal computes it with loops |
| PriorityMerge.Select | src/components/DomainTable.tsx:164 | the zones at a sequence of positions, in that order; its properties are stated by SelectPermutation, SelectAround and SelectConcat |
| PriorityMerge.Merge | src/components/DomainTable.tsx:161-166 | the zone list handed to `setDomains`; its properties are stated by MergeSameZones, MergeIdempotent, MergeEmptyPriority, MergeEmptyDomains and MergeExample |
| PriorityMerge.FindIndex | src/components/DomainTable.tsx:162 | `find` by name: when found, the position holds that name and no earlier zone has it; undefined exactly when no zone carries the name |
| PriorityMerge.PrefixEntriesFirstOfPriorityName | src/components/DomainTable.tsx:162 | the mapped-and-filtered prefix has no more entries than priority names, and each entry is the first zone carrying some priority name |
| PriorityMerge.RemainingIsUnplacedInOrder | src/components/DomainTable.tsx:164 | the filtered remainder skips every placed zone, keeps fetched order (strictly increasing positions), and holds every unplaced zone |
| PriorityMerge.MergeOrderInRange | src/components/DomainTable.tsx:162-164 | every entry of `final` is one of the fetched zones |
| PriorityMerge.PrefixAppend | src/components/DomainTable.tsx:162 | names are looked up independently: the prefix of a concatenated priority list is the concatenation of the prefixes |
| PriorityMerge.PrefixOfOne | src/components/DomainTable.tsx:162 | a single priority name contributes the first zone with that name, or nothing |
| PriorityMerge.CollectPriority | src/components/DomainTable.tsx:162 | the loop over the priority names collects exactly the specified prefix |
| PriorityMerge.FilterUnplaced | src/components/DomainTable.tsx:164 | the loop over the fetched zones keeps exactly those not in `final`, in fetched order |
| PriorityMerge.BuildFinal | src/components/DomainTable.tsx:161-164 | the callback's `final`, after `push`, is the prefix followed by the remainder (`MergeOrder`) |
| MergeLaws.PrefixAround | src/components/DomainTable.tsx:162 | the prefix splits around any one priority name into the names before, that name, and the names after |
| MergeLaws.PriorityPlacement | src/components/DomainTable.tsx:161-162 | a priority name that some zone carries gets the first zone with that name, right after the zones placed for the earlier names |
| MergeLaws.PriorityOrdering | src/components/App.tsx:146-151 | of two priority names both carried by zones, the earlier name's zone is displayed first |
| MergeLaws.OrderFollowsPrefix | src/components/App.tsx:151-153 | the display order depends on the priority list only through the prefix it selects |
| MergeLaws.PrefixSkipsAbsent | src/components/App.tsx:151 | a name no zone carries adds nothing to the prefix (`filter` drops `find`'s undefined) |
| MergeLaws.AbsentNameSkipped | src/components/DomainTable.tsx:162 | a name no zone carries can be dropped from the priority list without changing the display order |
| MergeLaws.RemainderKeepsFetchedOrder | src/components/App.tsx:152-153 | after the prefix come exactly the unplaced zones, in increasing fetched position, none of them placed |
| MergeLaws.SameNameLaterZoneKept | src/components/DomainTable.tsx:164 | exclusion is by identity: a zone sharing its name with an earlier zone is always displayed in the remainder |
| MergeLaws.PrefixDistinct | src/components/DomainTable.tsx:157-162 | with distinct priority names no zone is placed twice in the prefix |
| MergeLaws.MergeOrderCoversAll | src/components/DomainTable.tsx:162-164 | every fetched zone is displayed |
| MergeLaws.MergeOrderNoRepeats | src/components/DomainTable.tsx:157-164 | with distinct priority names no zone is displayed twice |
| MergeLaws.MergeOrderIsPermutation | src/components/DomainTable.tsx:157-164 | with distinct priority names the display order is a permutation of the fetched positions |
| MergeLaws.SelectPermutation | src/components/App.tsx:151-153 | reading the zones at a permutation of their positions gives the same multiset of zones |
| MergeLaws.MergeSameZones | src/components/App.tsx:146-153 | with distinct priority names the displayed list has the fetched length and holds each fetched zone exactly as often |
| MergeLaws.AbsentFromMerged | src/components/App.tsx:151-153 | a name no fetched zone carries is not found in the merged list either |
| MergeLaws.FoundInMerged | src/components/App.tsx:151-153 | in the merged list, the first zone with priority name h sits where the merge placed it |
| MergeLaws.PrefixOfMerged | src/components/App.tsx:151-153 | looking the priority names up in the merged list finds them at positions 0, 1, 2, ... in order |
| MergeLaws.MergeIdempotent | src/components/App.tsx:151-153 | with distinct priority names, merging the merged list again returns it unchanged |
| MergeLaws.MergeEmptyPriority | src/components/DomainTable.tsx:162-164 | an empty priority list keeps the fetched list as it is |
| MergeLaws.MergeEmptyDomains | src/components/App.tsx:151-153 | nothing fetched gives nothing displayed |
| MergeLaws.MergeExample | src/components/DomainTable.tsx:161-164 | the fetched list b, a, c with priority a, c is displayed as a, c, b |
| MergeLaws.RepeatedPriorityNameRepeatsZone | src/components/DomainTable.tsx:162 | a priority name listed twice places its zone twice |
| StatusBar.Hex | src/components/DomainTable.tsx:55 | the CSS value of each bar colour; that the three values differ is stated by HexDistinguishesColours, and BarColour ties each to its status |
| StatusBar.HexDistinguishesColours | src/components/App.tsx:64 | the three CSS values are pairwise different, so each colour is told apart by its value |
| StatusBar.TileFor | src/components/DomainTable.tsx:184 | the tile for one zone; its link, key, text and bar colour are stated by TileLinksToZone and its place in the screen by Render |
| StatusBar.StatusColour | src/components/DomainTable.tsx:55 | the bar is green exactly for "active", amber exactly for "invalid", red for every other status |
| StatusBar.BarColour | src/components/App.tsx:64 | the CSS value is #5dde59 exactly for "active", #deca59 exactly for "invalid", #DE5959 otherwise |
| StatusBar.TileLinksToZone | src/components/DomainTable.tsx:184 | a tile links over https to its own zone's name, its key and text are that name, and its bar takes the colour of the zone's status |
| StatusBar.Render | src/components/DomainTable.tsx:183-186 | the loading placeholder exactly when the list is empty, otherwise one tile per zone in list order |
| Board.DomainBoard.constructor | src/components/DomainTable.tsx:152-154 | the widget starts with no zones and an empty last-updated text |
| Board.DomainBoard.OnFetched | src/components/DomainTable.tsx:159-168 | the callback stores the merged list and the last-updated text; with distinct priority names the stored zones are the fetched ones |
| Board.DomainBoard.View | src/components/App.tsx:173-177 | the widget shows the loading placeholder exactly while it holds no zone, otherwise the tile of each held zone, in order |
| DomainTable.PriorityDistinct | src/components/DomainTable.tsx:157 | the seven-name priority list has no repeated name |
| DomainTable.Mount | src/components/DomainTable.tsx:152-157 | the component's initial state, with its seven-name priority list |
| DomainTable.DisplaysEachZoneOnce | src/components/DomainTable.tsx:157-166 | every fetched zone is displayed exactly once, and the merge is idempotent for this list |
| DomainTable.WikiBeforeDomains | src/components/DomainTable.tsx:157-162 | when both exist, the first fetched antony.wiki zone is displayed before the first fetched antony.domains zone, and each is the first zone with its name in the displayed list |
| App.PriorityDistinct | src/components/App.tsx:146 | the six-name priority list has no repeated name |
| App.Mount | src/components/App.tsx:141-146 | the component's initial state, with its six-name priority list |
| App.DisplaysEachZoneOnce | src/components/App.tsx:146-155 | every fetched zone is displayed exactly once, and the merge is idempotent for this list |
| App.RedBeforeFuckcors | src/components/App.tsx:146-151 | when both exist, antony.red is displayed first of all and before fuckcors.app |
| App.WikiNotPrioritized | src/components/App.tsx:146-153 | antony.wiki is not in this list, so every antony.wiki zone is displayed in the remainder |

## Left out

- The HTTP GET of the zone list is network I/O. The fetched zones and the last-updated text are parameters of `OnFetched`. The `.then` callback has no `catch`: a request that never resolves, a request that is rejected, and a callback that throws on a malformed payload all leave the board in its initial state (the loading placeholder), which the model expresses by `OnFetched` never being called.
- React's `useState` and `useEffect` are modelled only as the two fields of `DomainBoard` and the single `OnFetched` call that writes them.
- Styled-components CSS, the tooltip texts and the status legend are presentation only.
- The footer version label comes from build-environment values, so it is not modelled.
- The header's zone count `domains.length && ...` and the conditional "Last updated" span are JSX truthiness rendering. They are not modelled.
- The response payload is cast to its type without validation. The model assumes well-formed records.
- The `target="_blank"` attribute of each tile is not modelled. It has no logic.
- MergeIdempotent: requires distinct priority names, although the code's merge is idempotent for every priority list. With a repeated name the merged list holds the same object twice; merging it again drops both copies from the remainder by identity, whereas the model, which identifies a zone by its position, keeps the second copy. The model's identity is exact only for lists in which no object occurs twice.
