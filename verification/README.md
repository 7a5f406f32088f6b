# Stamper, modelled in Dafny

Stamper is a small browser library that "stamps out" copies of a
`<template>` into a container. A scope is an element carrying
`stamper="id"`. Inside it, three elements are tied to the scope by directive
attributes:

- `s-temp="id"`: the template;
- `s-cast="id"`: the trigger whose click adds a copy;
- `s-crate="id"`: the container the copies go into.

Each copy is numbered from a per-scope counter (`currentIndex`):

- elements marked `s-sequence` get `currentIndex + 1` as their text, zero-padded
  to as many digits as their pattern has `0` characters;
- attributes listed in an element's `s-index` have their index tokens replaced
  by the counter, the counter plus one, or the counter minus one.

A `[s-delete]` button inside a copy removes it after a confirmation prompt.
Hook code may sit in `s-preadd`, `s-postadd`, `s-predelete` and `s-postdelete`.
Hooks are turned into functions only when the code passes a denylist of
JavaScript words. `addItemWithSlot(data)` inserts a copy before the trigger,
with `[s-slot=key]` elements filled from `data`.

The repository carries three variants of the engine, and each gets its own
module:

- `Bundled` models the shipped bundle (`dist/index.esm.js`, v1.2.3).
- `Mock` models the build the end-to-end pages load (`e2e/mock/js/index.esm.js`).
- `Legacy` models the older TypeScript source (`src/Stamper.ts`), which has no
  seeding and no hooks.

The shared pieces each have a module of their own:

- the string primitives (`Text`, `Replace`);
- the DOM slice (`Dom`);
- the sequence stamper (`Sequence`);
- the index rewriter (`IndexTokens`);
- the denylist and function synthesis (`Denylist`);
- slot filling (`Slots`);
- delete-control lookup (`Controls`);
- the scope state and its numbering invariant (`ScopeState`);
- seeding of existing crate children (`Seeding`);
- the hooked delete listener (`HookedDelete`);
- a comparison of the mock with the older source (`Agreement`).

## How the model is built

- **The DOM.** The DOM is a value:
  - A `Node` is one element: its attributes, its text, and whether it is a `<button>`.
  - An `Item` is a top-level element with its subtree flattened in document
    order.
  - The difference between an item's root and its descendants carries meaning.
    `element.querySelectorAll` sees descendants only. This is why seeding and
    the bundled click leave the added element's own attributes alone. A
    fragment's `querySelectorAll` also sees the top-level elements.
- **Scope state.** A `Scope` holds what an engine instance holds: the resolved
  template, the trigger, whether the container was found, the counter, and the
  wired listeners. It also holds what the engine did to the page:
  - the `Group`s in the container or before the trigger;
  - a log of observable events (hooks run, prompts, insertions, removals).
- **Operations.** Each operation maps a scope to a `Transition`: the state
  afterwards plus the failure raised, if any. Failures are not rolled back
  because the engine mutates the page as it goes, so the state after a
  failure is the state at the throw.
- **Inputs from outside.** The user's answer to `window.confirm` is a boolean
  parameter. Whether a post-init callback is registered is also a boolean
  parameter.
- **Numbering invariant.** `Numbered` says that crate groups carry stamps
  below the counter, strictly increasing in container order, and that every
  marked element below a group's members displays its stamp plus one
  (`ShowsStamp`). So no number is shown twice, and the next add shows a
  fresh one, as long as the counter is only written by the engine. The
  bundle's public `current` setter and the mock's public `currentIndex`
  field let a caller write it (`ScopeState.SetCurrent`). Writing it keeps
  the invariant exactly when the new value is above every stamp in the
  container. Lowering it to a shown number makes the next add show that
  number again (`Bundled.LoweredCounterRepeatsStamp`).

## Model

| member | source | states |
|---|---|---|
| Text.ParseDecimalOfDecimal | dist/index.esm.js:282 | reading back the decimal form of a number gives the number |
| Text.ParseDecimalIgnoresLeadingZeros | dist/index.esm.js:283 | zeros padded in front of a digit string do not change the value it reads as |
| Text.DecimalInjective | dist/index.esm.js:282 | distinct numbers have distinct decimal forms |
| Text.PadStart | dist/index.esm.js:283 | `padStart` keeps the string as a suffix, fills only in front, and never truncates: the length is the larger of the two |
| Text.JoinSplit | dist/index.esm.js:154-155 | splitting the `s-index` list at commas and joining the parts gives the list back |
| Text.SplitJoin | dist/index.esm.js:154-155 | parts free of commas, joined and split again, come back unchanged |
| Text.SplitCount | dist/index.esm.js:154-155 | a list with k commas splits into k + 1 parts, empty ones included |
| Replace.ReplaceWithoutMatch | dist/index.esm.js:158-161 | a value in which the token does not occur is left unchanged |
| Replace.ReplaceKeepsNonEmpty | src/Stamper.ts:143-150 | replacing with a non-empty substitution never turns a non-empty value empty |
| Replace.ReplaceLeavesNoMatch | dist/index.esm.js:158-161 | every occurrence is replaced: if no character of the substitution can start the token, and its first character can only stand inside the token where its second character breaks the match, the token no longer occurs |
| Replace.ReplaceKeepsAbsent | dist/index.esm.js:158-177 | a replacement cannot create an occurrence of another token that the substitution cannot help form, in the same sense |
| Replace.DisjointCannotForm | dist/index.esm.js:158-177 | a substitution sharing no character with a token cannot help form it |
| Dom.FirstWithValue | dist/index.esm.js:317 | `querySelector('[name=value]')` picks the first match in document order, and finds none only when no node matches |
| Dom.FirstWith | e2e/mock/js/index.esm.js:222 | `querySelector('[name]')` picks the first carrier in document order, and finds none only when no node carries it |
| Dom.QueryElement | dist/index.esm.js:340-342 | `querySelector('[directive="id"]')` returns the first element in document order that carries the attribute; none is found only when no element does |
| Sequence.GenerateSequence | dist/index.esm.js:275-284 | an empty pattern is refused with MissingAttribute; otherwise the text is all digits, as wide as the larger of the zero count and the number, the number `counter + 1` at the end with zeros before it |
| Sequence.SequenceRoundTrip | dist/index.esm.js:281-283 | the stamped text reads back as `counter + 1` whatever the padding |
| Sequence.UnpaddedIsPlain | e2e/mock/js/index.esm.js:319-321 | a pattern without `0` gives the plain decimal number |
| Sequence.SequenceDistinct | src/Stamper.ts:194-204 | stampings at different counter values never show the same text, even under different patterns |
| Sequence.TwoZeroPattern | src/Stamper.ts:201-214 | the pattern `00` at counter 0 shows `01` |
| Sequence.StampNode | dist/index.esm.js:212-214 | one marked element fails exactly on an empty pattern; otherwise only its text changes, to the number `counter + 1` padded with zeros to its pattern's zero count; unmarked elements are untouched |
| Sequence.SequenceReads | dist/index.esm.js:281-283 | an element whose text is its pattern's padded stamp reads as `counter + 1` |
| Sequence.StampPadsToPattern | dist/index.esm.js:212-214 | an element marked `s-sequence="00"` shows `01` after the first stamping |
| Sequence.StampNodes | dist/index.esm.js:195-202 | the walk fails exactly when some marked element has an empty pattern; otherwise every element keeps its attributes, every marked one shows `counter + 1` padded to its own pattern, and every unmarked one keeps its text |
| Sequence.StampItem | dist/index.esm.js:195-202 | stamping an element reaches its descendants only (its own node keeps its text); with the root included, the root is stamped too; every reached marked node shows its padded pattern for `counter + 1` |
| Sequence.ItemSequenceReads | dist/index.esm.js:195-202 | every element stamped to its padded pattern reads as `counter + 1` |
| Sequence.StampFragment | dist/index.esm.js:221-225 | the cloned fragment fails exactly when some element of it has an empty pattern; otherwise it has the template's shape with every marked element, top-level ones included, showing `counter + 1` padded to its own pattern |
| IndexTokens.Substitution | dist/index.esm.js:163-180 | a token's substitution is non-empty: the digits of `counter + offset` when that is not negative, and otherwise a minus sign followed by the digits of its magnitude |
| IndexTokens.RewriteValue | dist/index.esm.js:156-178 | rewriting yields the empty string exactly when the value was empty |
| IndexTokens.RewriteWithoutTokens | dist/index.esm.js:156-178 | a value holding no token is left as it is |
| IndexTokens.NoTokenSurvives | dist/index.esm.js:156-178 | when no substitution can supply a token character, no token of the table survives the rewrite |
| IndexTokens.RewriteIdempotent | dist/index.esm.js:156-178 | under the same condition, rewriting a rewritten value changes nothing |
| IndexTokens.LegacyNoReintroduction | src/Stamper.ts:145-149 | the `{{index}}` and `{{index++}}` substitutions can never reintroduce a token |
| IndexTokens.BundledNoReintroduction | dist/index.esm.js:158-177 | at every counter, `-1` included, the scope-qualified substitutions cannot help form a token, provided the identifier has no digit |
| IndexTokens.MinusOneCannotForm | dist/index.esm.js:177-179 | a negative substitution cannot help form a digit-free token that opens with `{` and closes with `}` |
| IndexTokens.DigitIdentifierReintroduces | dist/index.esm.js:158-177 | with the identifier `0`, `{{{{0:index}}:index}}` rewrites at counter 0 to `{{0:index}}`, a token of the table, which stays in the attribute |
| IndexTokens.LegacyResolvesIndex | src/Stamper.ts:145 | `{{index}}` in any ASCII case becomes the counter |
| IndexTokens.LegacyResolvesNext | src/Stamper.ts:146-149 | `{{index++}}` in any ASCII case becomes the counter plus one |
| IndexTokens.LegacyLeavesDecrement | src/Stamper.ts:143-149 | the older rewriter knows no decrement token: `{{index--}}` stays literal |
| IndexTokens.BundledResolves | dist/index.esm.js:158-177 | each of `{{id:index}}`, `{{id:index++}}`, `{{id:index--}}` becomes the counter plus its offset, so `index--` at counter 0 reads `-1` |
| IndexTokens.RewriteAttr | dist/index.esm.js:157-180 | only the named attribute changes, and it holds the rewritten value; no attribute appears or disappears |
| IndexTokens.RewriteKeys | dist/index.esm.js:155-181 | walking the `s-index` list keeps the attribute set and every attribute not listed |
| IndexTokens.ListedValue | dist/index.esm.js:155-181 | every listed attribute ends up holding its original value rewritten once |
| IndexTokens.GuardsAgree | src/Stamper.ts:150-152 | writing back only for a non-empty source (bundle) and only for a non-empty result (older source) give the same attributes |
| IndexTokens.RewriteNode | dist/index.esm.js:153-183 | rewriting an element keeps its text, its button-ness, its attribute names and every unlisted attribute |
| IndexTokens.RewriteNodeResolves | dist/index.esm.js:153-183 | after the rewrite, listed attributes hold their rewritten value and the rest are untouched |
| IndexTokens.ListedHoldNoToken | dist/index.esm.js:153-183 | after the rewrite no listed attribute holds a token |
| IndexTokens.RewriteItem | dist/index.esm.js:145-148 | rewriting an element touches its descendants only; a fragment's rewrite also touches its top-level element |
| Denylist.Synthesize | dist/index.esm.js:234-239 | hook code yields a function exactly when it is non-empty and matches no pattern; empty code fails with MissingCode, refused code with ForbiddenPattern |
| Denylist.TestPattern | dist/index.esm.js:236 | scanning every start position finds a match exactly when the pattern matches |
| Denylist.IsForbidden | dist/index.esm.js:236 | walking the list stops with a hit exactly when some pattern matches |
| Denylist.CreateFunction | dist/index.esm.js:234-239 | the executable walk accepts and refuses exactly as `Synthesize` describes |
| Denylist.ExtendedCoversBundled | src/constants/index.ts:3-19 | whatever the bundled list refuses, the list in the constants refuses too |
| Denylist.ArrowAlwaysForbidden | src/constants/index.ts:4 | an arrow is refused wherever it stands |
| Denylist.WordOnlyInIsolation | dist/index.esm.js:21-35 | in text made of word characters only, a denylisted word matches only if it is the whole text |
| Denylist.IsolatedWordDetected | dist/index.esm.js:21-35 | a listed word set off by non-word characters or the ends of the text is found |
| Denylist.FetchForbidden | dist/index.esm.js:27 | `fetch(url)` is refused by both lists |
| Denylist.IdentifierAllowed | src/constants/index.ts:3-19 | an identifier that is not itself a listed word passes, whatever words it embeds |
| Denylist.EmbeddedWordsAllowed | src/constants/index.ts:3-19 | `renewal` and `fetcher` pass: embedded words do not count |
| Denylist.ArrowOnlyRefusedByExtended | src/constants/index.ts:4 | `x => x` passes the bundled list and is refused by the one in the constants |
| Denylist.EveryBundledWordRefused | dist/index.esm.js:21-35 | each of the thirteen bundled words, set off from its surroundings, is refused by both lists |
| Denylist.NewOnlyRefusedByExtended | src/constants/index.ts:6 | `new N()` passes the bundled list and is refused by the one in the constants |
| Slots.FillFirst | dist/index.esm.js:317-318 | the first `[s-slot=key]` element in document order gets the text; nothing else changes; with no such element nothing changes |
| Slots.FillItemsIsFillFirst | dist/index.esm.js:317-318 | filling item by item equals the document-order fill of the flattened fragment |
| Slots.PopulateSlots | dist/index.esm.js:315-320 | slot filling fails exactly when some key cannot stand unquoted in the selector; otherwise the fragment keeps its length |
| Slots.PopulateSlotsIsFlat | dist/index.esm.js:315-320 | slot filling is the document-order fill of each key in turn |
| Slots.MissingKeyIgnored | dist/index.esm.js:318 | a key no slot carries changes nothing |
| Slots.OtherKeysKeepText | dist/index.esm.js:316-319 | filling other keys leaves a slot for this key alone |
| Slots.SlotShowsValue | dist/index.esm.js:316-319 | with distinct keys, the first slot for each key shows that key's value |
| Controls.BundledControl | dist/index.esm.js:380-383 | the control is the first `[s-delete=id]` below the element if that is a button; the lookup throws exactly when the identifier is not a CSS identifier |
| Controls.MockControl | e2e/mock/js/index.esm.js:222-224 | the control is the first `[s-delete]` below the element if that is a button, and none otherwise |
| Controls.BundledAgreesWithMock | e2e/mock/js/index.esm.js:221-224 | when every delete marker names the scope, the bundle and the mock pick the same control |
| Controls.LegacyControl | src/Stamper.ts:99-109 | the control the reduce picks carries `s-delete` |
| Controls.LegacyControlInDocumentOrder | src/Stamper.ts:99-109 | the reduce picks exactly the first `[s-delete]` element of the fragment in document order, top-level elements included |
| ScopeState.Fresh | dist/index.esm.js:75-90 | a new instance has nothing resolved, no groups, an empty log and the counter at zero |
| ScopeState.ConfirmLabel | dist/index.esm.js:387 | the prompt names the control's non-empty `aria-label`, and otherwise a non-empty default |
| ScopeState.RunHook | dist/index.esm.js:247-267 | an absent hook is skipped; present code runs exactly when the denylist lets it through, and then only its run is logged |
| ScopeState.RemoveAt | dist/index.esm.js:415 | removing a group keeps the others in order |
| ScopeState.NumberedDistinct | dist/index.esm.js:365-368 | under the numbering invariant no two crate groups carry the same stamp |
| ScopeState.NumberedShowsDistinct | dist/index.esm.js:365-368 | under the numbering invariant, marked elements in two different crate groups never display the same text |
| ScopeState.NumberedAppend | dist/index.esm.js:365-368 | appending a group stamped with the counter and then advancing the counter keeps the invariant |
| ScopeState.NumberedOutsideCrate | dist/index.esm.js:102-113 | a group inserted before the trigger does not affect the invariant |
| ScopeState.NumberedRemove | dist/index.esm.js:415 | removing a group keeps the invariant: the others keep their numbers |
| ScopeState.NumberedByPosition | dist/index.esm.js:301-308 | groups stamped with their own positions are numbered up to their count |
| ScopeState.NumberedRaise | dist/index.esm.js:305 | raising the counter keeps the invariant |
| ScopeState.SetCurrent | dist/index.esm.js:94-96 | the `current` setter (and a write to the mock's public `currentIndex`) replaces the counter and changes nothing else |
| ScopeState.SetCurrentKeepsNumbered | dist/index.esm.js:91-96 | writing the counter keeps the numbering invariant if and only if the new value is above every stamp in the container |
| ScopeState.RewriteKeepsNumber | dist/index.esm.js:361-364 | rewriting index tokens never touches text, so a stamped number survives it |
| ScopeState.IndexedFragment | e2e/mock/js/index.esm.js:181-182 | the click fragment fails exactly when stamping does; otherwise it has the template's length and every marked element shows its template pattern padded for `counter + 1`, which reads as `counter + 1` |
| ScopeState.IndexedFragmentResolves | e2e/mock/js/index.esm.js:268-282 | every element of the click fragment, top-level ones included, has its listed attributes resolved with the counter |
| ScopeState.QueryScope | dist/index.esm.js:338-345 | a missing or empty identifier fails with MissingIdentifier; otherwise the lookup fails exactly when no element carries `[directive="id"]`, and succeeds with the first one in document order |
| Seeding.ControlOf | dist/index.esm.js:380-383 | the delete lookup during seeding throws exactly for the bundle with an identifier that is not a CSS identifier |
| Seeding.SeedChild | dist/index.esm.js:326-330 | a seeded child keeps its own node, below it every marked element shows its pattern padded for `counter + 1` and every other one keeps its text, and its control lookup fails exactly when the selector cannot hold the identifier |
| Seeding.SeedChildAt | dist/index.esm.js:326-328 | below a seeded child each node is the stamped node with its index tokens rewritten |
| Seeding.FlavourResolves | e2e/mock/js/index.esm.js:268-282 | the variant's token table resolves every listed attribute of a node, at every counter, given a digit-free identifier for the bundle |
| Seeding.SeedChildResolves | dist/index.esm.js:326-328 | below a seeded child every listed attribute has its tokens resolved with the counter the child was seeded at, given a digit-free identifier for the bundle |
| Seeding.Seed | dist/index.esm.js:301-308 | a completed seeding stamps the k-th child with `counter + k`, keeps each child's own node, records its rewritten form, and advances the counter by the number of children; a failed one stops short of the end |
| Seeding.SeededFromZero | dist/index.esm.js:301-308 | children seeded from zero carry stamps 0, 1, …, display them below their own node, and satisfy the numbering invariant |
| Seeding.SeedStopsAtBadChild | dist/index.esm.js:304 | a child with an empty sequence pattern below it stops seeding with MissingAttribute |
| Seeding.SeedStopsAtBadIdent | dist/index.esm.js:329 | a child reached with an identifier the delete selector cannot hold stops seeding with a host error |
| Seeding.SeedContinues | dist/index.esm.js:303-306 | a good child passes seeding on to the next with the counter advanced |
| Seeding.SeedFailsIff | dist/index.esm.js:301-308 | seeding fails exactly when some child has an empty pattern below it, or there is a child and the selector cannot hold the identifier |
| HookedDelete.DeleteClick | dist/index.esm.js:379-419 | a delete click only changes the groups and the log; it removes group g or nothing; a cancelled prompt removes nothing |
| HookedDelete.DeleteClickOrder | dist/index.esm.js:394-416 | a confirmed delete with accepted hooks prompts, runs `s-predelete`, removes the group and runs `s-postdelete`, in that order |
| HookedDelete.DeleteCancelledOnlyPrompts | dist/index.esm.js:394-395 | a cancelled prompt only records the prompt |
| HookedDelete.PreDeleteRefusalKeepsGroup | dist/index.esm.js:414-415 | a refused `s-predelete` keeps the group and fails with ForbiddenPattern |
| HookedDelete.DeleteKeepsNumbered | dist/index.esm.js:379-419 | deleting never renumbers: the invariant survives every delete click |
| Bundled.Construct | dist/index.esm.js:75-90 | construction succeeds exactly when the root has a non-empty `stamper` and gives a fresh instance |
| Bundled.ValidateTemplate | dist/index.esm.js:436-446 | a `<template>` with at most one element child is accepted; a non-template and an oversized template are refused with their own errors |
| Bundled.Init | dist/index.esm.js:125-139 | a completed init has resolved all three elements, wired the click, set `s-inited` and run the post-init callback if any; a failed one does neither |
| Bundled.InitSeeds | dist/index.esm.js:131-132 | a completed init seeded every existing container child without failure, after the existing groups |
| Bundled.InitNumbersCrate | dist/index.esm.js:301-308 | on a fresh instance a completed init numbers the container's children 1, 2, … in order and establishes the numbering invariant |
| Bundled.InitRejectsTemplate | dist/index.esm.js:127-129 | a non-template or oversized template stops init before anything is kept |
| Bundled.AddClick | dist/index.esm.js:357-372 | an add click appends at most one group, keeps everything before it, and advances the counter exactly when it succeeds |
| Bundled.AddClickFailsIff | dist/index.esm.js:357-372 | a wired add click fails exactly on an empty pattern, a refused hook, an empty template or an identifier the delete selector cannot hold |
| Bundled.AddClickAppendsNumbered | dist/index.esm.js:361-368 | the appended group is stamped with the old counter; its first element shows its template pattern padded for the next number, on its own node too, and every marked element below each member reads as that number |
| Bundled.AddClickAppendsGroup | dist/index.esm.js:357-372 | a successful add appends exactly one crate group: the stamped fragment with the first element's index tokens rewritten, and that element's `[s-delete=id]` button as control |
| Bundled.AddClickResolves | dist/index.esm.js:361-364 | below the new element every listed attribute has its tokens resolved with the old counter, while the element's own attributes are those of its template element |
| Bundled.AddClickEarlyFailureKeepsState | dist/index.esm.js:361-363 | a failure in stamping or in `s-preadd` leaves the scope as it was |
| Bundled.AddClickHookOrder | dist/index.esm.js:363-366 | a successful add logs `s-preadd`, the append and `s-postadd`, in that order |
| Bundled.AddClickKeepsNumbered | dist/index.esm.js:365-368 | a successful add keeps the numbering invariant |
| Bundled.LateAddFailureBreaksNumbering | dist/index.esm.js:365-368 | a failure after the append leaves the element in the container with the counter unchanged, which breaks the invariant |
| Bundled.LateAddFailureRepeatsNumber | dist/index.esm.js:361-368 | after such a failure the next click appends a second element identical to the first, with the same stamp and the same padded number, and the counter still unchanged |
| Bundled.LoweredCounterRepeatsStamp | dist/index.esm.js:94-96 | after `current` is set to a stamp the container already shows, a successful add appends a second crate group with that stamp and the numbering invariant no longer holds |
| Bundled.LateAddFailureRepeatsText | dist/index.esm.js:361-368 | read off the page: when the template element's own `s-sequence` pattern stamps as some text, both elements appended by the two clicks show that text |
| Bundled.FetchPostAddRepeatsNumber | dist/index.esm.js:366-368 | concretely, `s-postadd="fetch(url)"` makes two clicks at counter 0 on a template of one element marked `s-sequence="0"` append two elements that both show `1`, and the counter stays at 0 |
| Bundled.AddClickChecked | dist/index.esm.js:357-372 | the corrected click changes nothing when it fails and advances the counter exactly when it succeeds |
| Bundled.CheckedAgreesWithAddClick | dist/index.esm.js:357-372 | the corrected click fails on the same inputs as the original and otherwise does exactly what it does |
| Bundled.CheckedKeepsNumbered | dist/index.esm.js:357-372 | the corrected click keeps the numbering invariant whatever happens |
| Bundled.AddItemWithSlot | dist/index.esm.js:102-113 | a slot add inserts at most one group, before the trigger, touches only groups and log, and fails first on a missing template, then on a missing trigger |
| Bundled.SlotAddKeepsNumbered | dist/index.esm.js:102-113 | inserting before the trigger never disturbs the container's numbering |
| Bundled.SlotAddInsertsFilled | dist/index.esm.js:104-106 | what a slot add inserts is the stamped fragment with each key's first slot filled, in the data's order |
| Mock.Init | e2e/mock/js/index.esm.js:76-114 | a completed init has a template of at most one child, the trigger and the container, a wired click, `s-inited` and the callback run |
| Mock.InitKeepsOversizedTemplate | e2e/mock/js/index.esm.js:80-89 | unlike the bundle, a template with too many children is kept when init rejects it |
| Mock.InitRejectsNonTemplate | e2e/mock/js/index.esm.js:80-84 | an `s-temp` element that is not a `<template>` fails init with InvalidTemplate and leaves the scope exactly as it was |
| Mock.InitFailsOnlyOnPatterns | e2e/mock/js/index.esm.js:92-107 | once the three elements are found, seeding fails only on an empty pattern |
| Mock.InitNumbersCrate | e2e/mock/js/index.esm.js:92-107 | on a fresh instance a completed init numbers the container's children 1, 2, … and establishes the invariant |
| Mock.AddClick | e2e/mock/js/index.esm.js:177-214 | an add click appends at most one group, keeps everything before it, and advances the counter exactly when it succeeds |
| Mock.AddClickFailsIff | e2e/mock/js/index.esm.js:177-214 | a wired add click fails exactly on an empty pattern, a refused hook or an empty template |
| Mock.AddClickAppendsNumbered | e2e/mock/js/index.esm.js:181-210 | the appended group is the whole indexed fragment stamped with the old counter; its first element shows its template pattern padded for the next number, on its own node too, and every marked element below each member reads as that number |
| Mock.AddClickAppendsGroup | e2e/mock/js/index.esm.js:181-210 | a successful add appends exactly one crate group: the indexed fragment, with the first `[s-delete]` button below its first element as control |
| Mock.AddClickHookOrder | e2e/mock/js/index.esm.js:184-208 | a successful add logs `s-preadd`, the append and `s-postadd`, in that order |
| Mock.AddClickKeepsNumbered | e2e/mock/js/index.esm.js:198-210 | a successful add keeps the numbering invariant |
| Mock.LateAddFailureBreaksNumbering | e2e/mock/js/index.esm.js:198-210 | a refused `s-postadd` leaves the element in the container with the counter unchanged, which breaks the invariant |
| Mock.EmptyTemplateRunsHooks | e2e/mock/js/index.esm.js:183-209 | an empty template appends nothing, still runs both hooks, then fails |
| Mock.AddItemWithSlot | e2e/mock/js/index.esm.js:120-131 | a slot add inserts at most one group, before the trigger, and fails first on a missing template, then on a missing trigger |
| Mock.SlotAddFailsIff | e2e/mock/js/index.esm.js:120-131 | a slot add fails exactly on an empty pattern, a key that cannot stand in the selector, or an empty template |
| Mock.SlotAddKeepsNumbered | e2e/mock/js/index.esm.js:120-131 | inserting before the trigger never disturbs the container's numbering |
| Legacy.Init | src/Stamper.ts:249-269 | a completed init has the template, the trigger and the container and a wired click; what was resolved before a failure stays |
| Legacy.InitSucceedsIff | src/Stamper.ts:249-269 | init succeeds exactly when the identifier names a `<template>`, a trigger and a container, whatever the template's child count |
| Legacy.AddClick | src/Stamper.ts:70-90 | a failed click changes nothing, and with a template the only failure is an empty pattern; a successful one advances the counter |
| Legacy.AddClickFailsIff | src/Stamper.ts:72-73 | a wired click fails exactly when a template element has an empty pattern |
| Legacy.AddClickAppendsFragment | src/Stamper.ts:72-86 | a successful click appends the whole fragment as one group whose control is its first `[s-delete]` element, its first element shows its template pattern padded for the next number, and it logs the append and the callback |
| Legacy.AddClickKeepsNumbered | src/Stamper.ts:79-86 | every click keeps the numbering invariant, whatever it does |
| Legacy.DeleteClick | src/Stamper.ts:111-124 | a delete click only changes groups and log, and removes group g or nothing |
| Legacy.DeleteClickFailsIff | src/Stamper.ts:112-122 | a delete click fails exactly when its control is not a button, and then nothing changes; a confirmed click on a button removes the whole group |
| Legacy.DeleteKeepsNumbered | src/Stamper.ts:118-122 | deleting keeps the numbering invariant |
| Legacy.AddItemWithSlot | src/Stamper.ts:284-293 | a slot add inserts at most one group, before the trigger, without a control, and a failure changes nothing |
| Legacy.SlotAddInsertsFilled | src/Stamper.ts:286-289 | what a slot add inserts is the stamped fragment with each key's first slot filled |
| Agreement.MockAgreesWithLegacy | e2e/mock/js/index.esm.js:177-214 | without hooks and with a non-empty template, the mock and the older source fail alike and, on success, append the same elements with the same stamp and reach the same counter |
| Agreement.EmptyTemplateDiffers | e2e/mock/js/index.esm.js:177-214 | on an empty template without hooks the mock fails with a host error at the delete wiring and keeps the counter, while the older source appends nothing yet succeeds and advances the counter |
| Agreement.ControlsAgree | src/Stamper.ts:99-109 | when the element itself is unmarked and its first marked descendant is a button, both engines wire the same control |

## Left out

- **DOM and browser:**
  - Event dispatch, listener objects, the Proxy around the counter, and
    `console.warn` / `console.error`. Failures are values here.
    `Results.IsEngineError` says which of them the engine logs as its own.
  - A `Node`'s text is a string. Setting `textContent` replaces an element's
    children, and the model does not follow that: a marked element keeps its
    listed descendants.
  - Attribute names are not lowercased, and CSS escapes in selectors are not
    recognised. `Dom.IsCssIdent` approximates the identifier grammar.
  - `Object.keys` order is the data's given order.
  - JavaScript number precision is not modelled: the counter is unbounded.
- **Hooks and callbacks:**
  - The body of a hook or user callback runs as JavaScript. The model records
    only that it ran. Effects, exceptions thrown from inside a hook, and
    callbacks that reach back into the page are not modelled.
  - `addPostInit` / `addCallback` only store the callback. They are
    represented by the `postInit` flag and by the callback always running in
    `Legacy.AddClick`.
- **Bundle specifics:**
  - Nested templates in the bundle's `addIndex` (dist/index.esm.js:149-154)
    are not modelled. The `template.content` of a `<template>` inside a copy
    is not part of an `Item`.
  - The keys and values arrays the delete listener builds
    (dist/index.esm.js:396-413) are never used by the code, so they are not
    modelled.
- **Lifecycle:**
  - Calling `init` twice wires a second listener. The model has a single
    `clickWired` flag, so repeated listeners and double adds are not
    represented.
  - A failure inside a crate child is atomic in the model. When an empty
    pattern stops seeding part-way through a child, the markers of that child
    the browser had already stamped are not tracked: the child stays as it
    was (`Seeding.Unprocessed`).
  - A group holds what one delete control removes. A template with more than
    one element child is accepted only by the older source. There the group
    holds all of them, so removal order inside a group is not modelled.
- **Constants:**
  - `BIND_DIRECTIVE_VALUES` and `ON_DIRECTIVE_VALUES` (src/constants/index.ts:1-2)
    are used nowhere.
  - src/constants/index.ts does not define the `DIRECTIVE_VALUES` that
    src/Stamper.ts imports. The directive names come from the bundle's copy
    (dist/index.esm.js:8-19); the errors module is not part of this model.
- **Weaker contracts:**
  - Seeding.FlavourResolves: for the bundle, proved only for an identifier
    without digits. With a digit in the identifier a substituted number can
    complete another token, and then the token stays in the attribute
    (`IndexTokens.DigitIdentifierReintroduces`).
  - Seeding.SeedChildResolves: the same restriction, for the same reason.
  - IndexTokens.BundledNoReintroduction: the same restriction, for the same reason.
  - Bundled.AddClickResolves: the same restriction, for the same reason.
  - ScopeState.QueryScope: the selector quotes the identifier, so an
    identifier holding `"` makes `querySelector` throw a SyntaxError, and a
    `\` in it starts a CSS escape. The model compares the identifier
    literally and finds the element in both cases.
  - Dom.QueryElement: the same literal comparison, for the same reason.
  - IndexTokens.ListedValue: proved when no attribute is listed twice, or when
    substitutions cannot reintroduce tokens. A key listed twice is rewritten
    twice, as in the code.
  - IndexTokens.BundledResolves: stated for a token between text without `{`,
    so that no other token can overlap it.
  - IndexTokens.LegacyResolvesIndex: the same brace-free surroundings.
  - IndexTokens.LegacyResolvesNext: the same brace-free surroundings.
  - Agreement.MockAgreesWithLegacy: covers only a non-empty template and a
    trigger without hooks. The older source runs no hooks, so a refused hook
    fails only the mock. On an empty template the two differ, as
    `Agreement.EmptyTemplateDiffers` states.
  - ScopeState.SetCurrent: takes a natural number. The setter accepts any
    JavaScript value, and a negative, fractional or non-numeric counter is
    not modelled.
  - Legacy.AddClick: a wired scope without a template counts as a host error.
    The code cannot reach that state, because `init` sets the template before
    it wires the click.

### Behaviours worth stating plainly

- A `00` pattern pads the number to two digits, so the first add shows `01`
  (`Sequence.TwoZeroPattern`, `Sequence.StampPadsToPattern`).
- The bundle's index tokens are scope-qualified, `{{id:index}}`,
  `{{id:index++}}` and `{{id:index--}}`, and are matched exactly, case
  included.
- The mock and the older source know only `{{index}}` and `{{index++}}`,
  matched regardless of case (`IndexTokens.LegacyLeavesDecrement`).
- In all three variants `addItemWithSlot` rewrites no index tokens: what it
  inserts is the stamped fragment with its slots filled.

## Findings

| source | as written | input that shows it | evidently intended | confidence | as-written member | corrected member |
|---|---|---|---|---|---|---|
| dist/index.esm.js:365-368 | the click appends the new element before it runs `s-postadd` and looks up the delete control, and advances the counter only after both | a trigger with `s-postadd="fetch(url)"`: each click appends an element, the denylist refuses the hook, and the counter stays, so the next click shows the same number again | a click either completes, numbering one new element and advancing the counter, or leaves the container as it was | not executed | Bundled.LateAddFailureBreaksNumbering | Bundled.AddClickChecked |

`Bundled.FetchPostAddRepeatsNumber` is the concrete case:

- two clicks on one scope at counter 0 append two elements, both stamped 0 and both showing "1";
- the counter stays at 0.

The same happens when the identifier cannot stand unquoted in the
`[s-delete=id]` selector.

`Bundled.AddClickChecked` runs every fallible step before the page changes:

- it agrees with the original whenever the original succeeds
  (`Bundled.CheckedAgreesWithAddClick`);
- it keeps the numbering invariant on every input (`Bundled.CheckedKeepsNumbered`).

The mock appends before `s-postadd` in the same way, with the same
consequence (`Mock.LateAddFailureBreaksNumbering`, e2e/mock/js/index.esm.js:198-210).
