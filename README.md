# NAIWizard prompt state, modelled in Dafny

NAIWizard's prompt editor keeps one current prompt: a titled, ordered list of *spells*. Each
spell is a prompt fragment with an `id`, a `content` text, an `enabled` flag and an
`enhancement` weight. The editor holds a state record `{prompt, compiled, shouldFocusTo}`:
`compiled` is the text produced from the spells by the compiler, and `shouldFocusTo` is a
transient hint telling the editor which spell index to focus next. The hook in
`src/atoms/currentPromptState.ts` offers the operations that edit this state: content,
enabled and weight updates by id, delete, insert after an anchor, append with freshly minted
ids, drag-reorder, neighbour swap, title update and focus hint handling. Every list or title
change goes through `setPrompt`, which recomputes `compiled` and writes a fresh record.

The project has two modules:

- `SpellList` (spell_list.dfy): the spell and prompt datatypes and the list transforms as
  pure functions. Each source `map`, `filter`, `flat`, `find` or `findIndex` expression
  becomes a function. `arrayMove` from the drag-and-drop library becomes a function too.
  Lemmas state the frame conditions, the length changes, prefix and order preservation, the
  permutation and reorder behaviour, the behaviour for a missing id, and the preservation
  of unique ids.
- `PromptState` (prompt_state.dfy): the class `CurrentPromptState` with the record's three
  fields. It has one method per hook operation, and the methods call each other in the same
  chain as the source (`updateSpellContent` → `updateSpells` → `setPrompt`). Each method
  states the new state as a `SpellList` function of the old one. It also states that
  `compiled` again equals the compiler applied to the spells, what happens to the focus
  hint, and that unique ids stay unique given fresh new ids.

The compiler `compileSpells` is a constructor parameter of the class (`compile`). Its markup
rules are not part of this model. Id minting (`generateRandomId`, `Preset.EmptySpell`) is
also not modelled: the minted spells and ids are method parameters. Their freshness is a
hypothesis of the uniqueness clauses, not a precondition.

`arrayMove` is modelled as remove at `from`, then reinsert at `to`, as
`Array.prototype.splice` does it. A negative `from` counts from the end of the array. A
negative `to` is resolved against the length before the removal, so `to` = −1 puts the
element last. The model covers only the indices `findIndex` can produce (−1 up to
length − 1).

Where the intended design and the code disagree, the model follows the code, except for
`swapSpellsPrevOrNext` and for `moveSpell` with an unknown dragged id (see Findings):

- `setPrompt` writes a record without `shouldFocusTo`, so every list or title update also
  clears the focus hint.
- `appendSpell` always mints a new id. It never keeps the given one.
- `moveSpell` does not check for a missing drop target. It hands index −1 to `arrayMove`,
  which moves the dragged spell to the end.
- `insertEmptySpell` drops the new spell when no spell has the anchor id, but still
  returns the new id.
- `updateSpell` matches on the new spell's own id and ignores its `spellId` argument.
- The initial state has `compiled == ""`, whatever the initial prompt compiles to.

## Model

| member | source | states |
|---|---|---|
| SpellList.FindIndex | src/atoms/currentPromptState.ts:80-81 | findIndex gives −1 exactly when no spell has the id. Otherwise it gives the first index holding it. |
| SpellList.FindIndexUnique | src/atoms/currentPromptState.ts:80-81 | With unique ids, findIndex of the id at k is k. |
| SpellList.FindSpell | src/atoms/currentPromptState.ts:88 | find gives nothing exactly when the id is absent. Otherwise it gives the first spell with that id. |
| SpellList.CountIdUnique | src/atoms/currentPromptState.ts:98-111 | With unique ids, a present id occurs exactly once. So insertEmptySpell grows the list by exactly one, and deleteSpell shrinks it by one. |
| SpellList.ReplaceById | src/atoms/currentPromptState.ts:48-51 | updateSpell replaces every spell carrying the new spell's id, and only those. The length and ids at every position are unchanged. |
| SpellList.SetContent | src/atoms/currentPromptState.ts:53-64 | updateSpellContent keeps the length and the ids in order. Only spells with `spellId` get the new content. Every other field and spell is unchanged. An absent id gives the input list. |
| SpellList.SetContentRestore | src/atoms/currentPromptState.ts:53-64 | With unique ids, writing back the old content undoes a content update. |
| SpellList.SetContentTwice | src/atoms/currentPromptState.ts:53-64 | Of two content updates to one id, the later one wins. |
| SpellList.SetEnabled | src/atoms/currentPromptState.ts:66-77 | updateSpellEnabled keeps the length and the ids in order. Only spells with `spellId` get the new flag. An absent id gives the input list. |
| SpellList.SetEnabledRestore | src/atoms/currentPromptState.ts:66-77 | With unique ids, writing back the old flag undoes an enabled update. |
| SpellList.SameIdsKeepUnique | src/atoms/currentPromptState.ts:48-77 | An update that keeps every id in place keeps ids unique. |
| SpellList.SetEnhancement | src/atoms/currentPromptState.ts:87-96 | No write happens exactly when the id is absent. Otherwise only spells with that id change, and they get the new weight. With unique ids, only that spell's enhancement changes. |
| SpellList.Delete | src/atoms/currentPromptState.ts:129-132 | deleteSpell keeps exactly the spells whose id differs, and the length drops by the number removed. An absent id gives the input list. |
| SpellList.DeleteAppend | src/atoms/currentPromptState.ts:129-132 | The filter distributes over concatenation, so the survivors keep their relative order. |
| SpellList.DeleteUnique | src/atoms/currentPromptState.ts:129-132 | With unique ids, deleting the id at k gives the list without position k. |
| SpellList.DeleteKeepsUnique | src/atoms/currentPromptState.ts:129-132 | deleteSpell keeps ids unique. |
| SpellList.InsertAfter | src/atoms/currentPromptState.ts:98-111 | insertEmptySpell grows the list by one per spell carrying the anchor id. With no anchor, the list is unchanged and the new spell is dropped. |
| SpellList.InsertAfterAppend | src/atoms/currentPromptState.ts:98-111 | The insertion distributes over concatenation, so everything else keeps its order. |
| SpellList.InsertAfterUnique | src/atoms/currentPromptState.ts:98-111 | With unique ids and the anchor at k, the new spell sits at k + 1. The spells before it and after it are unchanged. |
| SpellList.InsertAfterKeepsUnique | src/atoms/currentPromptState.ts:98-111 | A new spell whose id is fresh keeps ids unique. |
| SpellList.WithIds | src/atoms/currentPromptState.ts:125-127 | Each appended copy carries its minted id. Its content, enabled flag and weight equal its source's. |
| SpellList.AppendFreshKeepsUnique | src/atoms/currentPromptState.ts:121-127 | Distinct minted ids absent from the list keep ids unique, whatever ids the source spells had. |
| SpellList.ArrayMove | src/atoms/currentPromptState.ts:82 | arrayMove keeps the length, for every index pair findIndex can produce. |
| SpellList.ArrayMoveInRange | src/atoms/currentPromptState.ts:82 | On in-range indices, arrayMove gives a permutation with s[from] at `to`. Removing it from the result gives the input without s[from]. |
| SpellList.ArrayMoveAdjacent | src/atoms/currentPromptState.ts:141 | arrayMove between neighbours exchanges the two. |
| SpellList.ArrayMoveKeepsUnique | src/atoms/currentPromptState.ts:82 | arrayMove keeps ids unique, including for index −1. |
| SpellList.Move | src/atoms/currentPromptState.ts:79-85 | moveSpell keeps the length. A missing or undefined id becomes index −1. |
| SpellList.MoveBothPresent | src/atoms/currentPromptState.ts:79-85 | With both ids present, the result is a permutation. The active spell ends at the over spell's old index, and every other spell keeps its relative order. |
| SpellList.MoveOverMissing | src/atoms/currentPromptState.ts:79-85 | With an undefined or unknown drop target, the active spell moves to the end and the others keep their order. |
| SpellList.MoveNeitherPresent | src/atoms/currentPromptState.ts:79-85 | With neither id present, the list is unchanged. |
| SpellList.MoveActiveMissing | src/atoms/currentPromptState.ts:79-85 | As written, an unknown dragged id with a present drop target moves the last spell to the drop target's index. The others keep their order. |
| SpellList.MoveActiveMissingExample | src/atoms/currentPromptState.ts:79-85 | As written, [a, b, c] with an unknown dragged id dropped on `a` becomes [c, a, b]. |
| SpellList.MoveChecked | src/atoms/currentPromptState.ts:79-85 | The move with a guard on the dragged id writes nothing exactly when that id is absent. Otherwise the result is a permutation of the same length. |
| SpellList.MoveCheckedAgrees | src/atoms/currentPromptState.ts:79-85 | For a present dragged id, the guarded move agrees with the source. |
| SpellList.MoveKeepsUnique | src/atoms/currentPromptState.ts:79-85 | moveSpell keeps ids unique. |
| SpellList.SwapAsWritten | src/atoms/currentPromptState.ts:134-143 | The swap as written keeps the length when it writes. |
| SpellList.SwapAsWrittenMissingId | src/atoms/currentPromptState.ts:136-141 | As written, an absent id with prev = false passes the guard. It rotates the last spell to the front. |
| SpellList.SwapAsWrittenExample | src/atoms/currentPromptState.ts:134-143 | As written, [a, b] with an unknown id and prev = false becomes [b, a]. |
| SpellList.Swap | src/atoms/currentPromptState.ts:134-143 | The swap with an index guard writes nothing for an absent id, and keeps the length when it writes. |
| SpellList.SwapAgrees | src/atoms/currentPromptState.ts:134-143 | The guarded swap writes nothing for an absent id. It agrees with the source for a present id. |
| SpellList.SwapBounds | src/atoms/currentPromptState.ts:137-140 | The swap is refused exactly when the neighbour index falls outside the list, so there is no wrap-around. |
| SpellList.SwapExchanges | src/atoms/currentPromptState.ts:134-143 | Otherwise the spell and its neighbour exchange positions. |
| SpellList.SwapKeepsUnique | src/atoms/currentPromptState.ts:134-143 | The swap keeps ids unique. |
| PromptState.CurrentPromptState.constructor | src/atoms/currentPromptState.ts:17-21 | The initial state is the initial prompt, with `compiled` empty and no focus hint. |
| PromptState.CurrentPromptState.SetPrompt | src/atoms/currentPromptState.ts:32-38 | setPrompt stores the prompt and its compiled text, and drops the focus hint. |
| PromptState.CurrentPromptState.UpdateSpells | src/atoms/currentPromptState.ts:40-46 | updateSpells replaces only the spells of the prompt, then recompiles and drops the focus hint. |
| PromptState.CurrentPromptState.UpdateSpell | src/atoms/currentPromptState.ts:48-51 | The new spells are ReplaceById of the old ones, matched on the new spell's id. |
| PromptState.CurrentPromptState.UpdateSpellContent | src/atoms/currentPromptState.ts:53-64 | The new spells are SetContent of the old ones. The state is consistent, and unique ids stay unique. |
| PromptState.CurrentPromptState.UpdateSpellEnabled | src/atoms/currentPromptState.ts:66-77 | The new spells are SetEnabled of the old ones. The state is consistent, and unique ids stay unique. |
| PromptState.CurrentPromptState.MoveSpell | src/atoms/currentPromptState.ts:79-85 | A refused move (unknown dragged id) leaves the whole state untouched. Otherwise the new spells are Move of the old ones, the state is consistent, and unique ids stay unique. |
| PromptState.CurrentPromptState.UpdateSpellEnhancement | src/atoms/currentPromptState.ts:87-96 | With an absent id, the whole state is untouched, focus hint included. Otherwise the spells are updated through updateSpell. |
| PromptState.CurrentPromptState.InsertEmptySpell | src/atoms/currentPromptState.ts:98-111 | The new spells are InsertAfter of the old ones. The new spell's id is returned even when it was not placed. |
| PromptState.CurrentPromptState.AppendEmptySpell | src/atoms/currentPromptState.ts:113-119 | The new spell is appended and its id returned. A fresh id keeps ids unique. |
| PromptState.CurrentPromptState.AppendSpell | src/atoms/currentPromptState.ts:121-123 | A copy of the spell under the minted id is appended. A fresh id keeps ids unique. |
| PromptState.CurrentPromptState.AppendSpells | src/atoms/currentPromptState.ts:125-127 | The copies under the minted ids are appended in order. Fresh distinct ids keep ids unique. |
| PromptState.CurrentPromptState.DeleteSpell | src/atoms/currentPromptState.ts:129-132 | The new spells are Delete of the old ones. The state is consistent, and unique ids stay unique. |
| PromptState.CurrentPromptState.SwapSpellsPrevOrNext | src/atoms/currentPromptState.ts:134-143 | A refused swap leaves the whole state untouched. Otherwise the spells are Swap of the old ones and the state is consistent. |
| PromptState.CurrentPromptState.UpdatePromptTitle | src/atoms/currentPromptState.ts:145-151 | Only the title of the prompt changes. Then the state recompiles and drops the focus hint. |
| PromptState.CurrentPromptState.SetShouldFocusTo | src/atoms/currentPromptState.ts:153-160 | The focus hint holds the index. The prompt and compiled text are untouched. |
| PromptState.CurrentPromptState.FocusWithIndex | src/atoms/currentPromptState.ts:162-168 | This is the same as setShouldFocusTo. |
| PromptState.CurrentPromptState.FinishFocus | src/atoms/currentPromptState.ts:170-177 | The focus hint is cleared. The prompt and compiled text are untouched. |

## Left out

- The Recoil atom and the React hook plumbing are not modelled. This includes the stale `prompt` each operation reads from the render that created it. The model owns one state object, and each method reads its current fields.
- The body of `compileSpells` (`src/utils/prompt`) is not part of this model. The compiler is the class's `compile` parameter, so the compiled text's own properties are not stated: disabled spells are omitted, the separator, and the weighting notation.
- `generateRandomId`, `Preset.EmptySpell` and `Preset.InitialPositivePrompt` are not part of this model. Their results are method and constructor parameters.
- The body of `arrayMove` (`@dnd-kit/sortable`) is not part of this model. Its splice-based reading is stated in `SpellList.ArrayMove`.
- PromptState.CurrentPromptState.MoveSpell: uses the corrected guard, which refuses an unknown dragged id (see Findings). The behaviour as written is `SpellList.Move`. On an empty list the source's `arrayMove` would insert `undefined`; the guarded move writes nothing there.
- PromptState.CurrentPromptState.SwapSpellsPrevOrNext: uses the corrected guard, which also refuses an absent id (see Findings). The behaviour as written is `SpellList.SwapAsWritten`.
- Ids are strings. A numeric `activeId`, which `moveSpell`'s type admits, never equals a string id. It is not modelled.
- `enhancement` is a JavaScript number that the editor only stores. It is modelled as a `real`, so NaN, infinities and −0 are not represented.
- A `Prompt` is modelled with `id`, `title` and `spells` only. Any other fields of the type in `src/types/prompt` pass through unchanged in the source and are not represented.
- The UI files `presetCard.tsx`, `seedGeneratorWidget.tsx` and `spellItemSortable.tsx` are not modelled. They render and call the hook, and own no list logic. The random seed generation is not modelled either.

## Findings

| source | as written | input that shows it | evidently intended | confidence | as-written member | corrected member |
|---|---|---|---|---|---|---|
| src/atoms/currentPromptState.ts:134-143 | The guard checks only `newIndex`, so an absent id (index −1) with `prev = false` reaches `arrayMove(spells, -1, 0)`. | Spells [a, b] and `swapSpellsPrevOrNext("zz", false)` give [b, a], not a no-op. | An unknown id changes nothing, as for every other lookup by id. | medium; not executed; relies on `arrayMove` counting −1 from the end, as splice does | SpellList.SwapAsWrittenMissingId | SpellList.Swap |
| src/atoms/currentPromptState.ts:79-85 | The dragged id's `findIndex` result is not checked, so an unknown `activeId` (index −1) with a known `overId` reaches `arrayMove(spells, -1, overIndex)`. | Spells [a, b, c] and `moveSpell("zz", "a")` give [c, a, b], not a no-op. | An unknown dragged id changes nothing. | medium; not executed; relies on `arrayMove` reading −1 as the last index, as splice does | SpellList.MoveActiveMissing | SpellList.MoveChecked |
