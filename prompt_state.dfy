/** The editor's current prompt state: the prompt, its compiled text and a transient
    focus hint. Each operation of the prompt-state hook is a method that replaces the
    state record; the list transforms themselves are the functions of SpellList. */
module PromptState {
  import opened SpellList

  class CurrentPromptState {
    var prompt: Prompt
    var compiled: string
    /** The spell index the editor should move keyboard focus to; None is `undefined`. */
    var shouldFocusTo: Option<int>

    /** compileSpells, whose rules are not part of this model. */
    const compile: seq<Spell> -> string

    /** The compiled text is the one derived from the current spells. */
    ghost predicate Consistent()
      reads this
    {
      compiled == compile(prompt.spells)
    }

    /** The initial state: the preset's initial prompt with an empty compiled text and no
        focus hint (the compiled text is not derived from that prompt). */
    constructor (compile: seq<Spell> -> string, initialPrompt: Prompt)
      ensures this.compile == compile
      ensures prompt == initialPrompt && compiled == "" && shouldFocusTo == None
    {
      this.compile := compile;
      prompt := initialPrompt;
      compiled := "";
      shouldFocusTo := None;
    }

    /** setPrompt: writes a fresh record, so the focus hint is dropped. */
    method SetPrompt(p: Prompt)
      modifies this
      ensures prompt == p && Consistent() && shouldFocusTo == None
    {
      prompt := p;
      compiled := compile(p.spells);
      shouldFocusTo := None;
    }

    /** updateSpells: replaces the spell list, keeping the prompt's id and title. */
    method UpdateSpells(spells: seq<Spell>)
      modifies this
      ensures prompt == old(prompt).(spells := spells)
      ensures Consistent() && shouldFocusTo == None
    {
      SetPrompt(prompt.(spells := spells));
    }

    /** updateSpell: the spell is matched on its own id; `spellId` is not consulted. */
    method UpdateSpell(spellId: Id, spell: Spell)
      modifies this
      ensures prompt == old(prompt).(spells := ReplaceById(old(prompt.spells), spell))
      ensures Consistent() && shouldFocusTo == None
      ensures UniqueIds(old(prompt.spells)) ==> UniqueIds(prompt.spells)
    {
      if UniqueIds(prompt.spells) {
        SameIdsKeepUnique(prompt.spells, ReplaceById(prompt.spells, spell));
      }
      UpdateSpells(ReplaceById(prompt.spells, spell));
    }

    method UpdateSpellContent(spellId: Id, content: string)
      modifies this
      ensures prompt == old(prompt).(spells := SetContent(old(prompt.spells), spellId, content))
      ensures Consistent() && shouldFocusTo == None
      ensures UniqueIds(old(prompt.spells)) ==> UniqueIds(prompt.spells)
    {
      if UniqueIds(prompt.spells) {
        SameIdsKeepUnique(prompt.spells, SetContent(prompt.spells, spellId, content));
      }
      UpdateSpells(SetContent(prompt.spells, spellId, content));
    }

    method UpdateSpellEnabled(spellId: Id, enabled: bool)
      modifies this
      ensures prompt == old(prompt).(spells := SetEnabled(old(prompt.spells), spellId, enabled))
      ensures Consistent() && shouldFocusTo == None
      ensures UniqueIds(old(prompt.spells)) ==> UniqueIds(prompt.spells)
    {
      if UniqueIds(prompt.spells) {
        SameIdsKeepUnique(prompt.spells, SetEnabled(prompt.spells, spellId, enabled));
      }
      UpdateSpells(SetEnabled(prompt.spells, spellId, enabled));
    }

    /** moveSpell, with the guard refusing an unknown dragged id; `overId` is None when the
        drop target is undefined. When the move is refused nothing is written. */
    method MoveSpell(activeId: Id, overId: Option<Id>)
      modifies this
      ensures MoveChecked(old(prompt.spells), activeId, overId).None? ==>
        prompt == old(prompt) && compiled == old(compiled) && shouldFocusTo == old(shouldFocusTo)
      ensures MoveChecked(old(prompt.spells), activeId, overId).Some? ==>
        && prompt == old(prompt).(spells := MoveChecked(old(prompt.spells), activeId, overId).value)
        && Consistent() && shouldFocusTo == None
      ensures UniqueIds(old(prompt.spells)) ==> UniqueIds(prompt.spells)
    {
      var moved := MoveChecked(prompt.spells, activeId, overId);
      if moved.Some? {
        MoveCheckedAgrees(prompt.spells, activeId, overId);
        if UniqueIds(prompt.spells) {
          MoveKeepsUnique(prompt.spells, activeId, overId);
        }
        UpdateSpells(moved.value);
      }
    }

    /** updateSpellEnhancement: nothing is written when no spell has `spellId`. */
    method UpdateSpellEnhancement(spellId: Id, enhance: real)
      modifies this
      ensures SetEnhancement(old(prompt.spells), spellId, enhance).None? ==>
        prompt == old(prompt) && compiled == old(compiled) && shouldFocusTo == old(shouldFocusTo)
      ensures SetEnhancement(old(prompt.spells), spellId, enhance).Some? ==>
        && prompt == old(prompt).(spells := SetEnhancement(old(prompt.spells), spellId, enhance).value)
        && Consistent() && shouldFocusTo == None
      ensures UniqueIds(old(prompt.spells)) ==> UniqueIds(prompt.spells)
    {
      var found := FindSpell(prompt.spells, spellId);
      if found.Some? {
        var newSpell := found.value.(enhancement := enhance);
        UpdateSpell(spellId, newSpell);
      }
    }

    /** insertEmptySpell: `newSpell` is the preset's fresh empty spell. Its id is returned
        even when no spell has the id `after` and the new spell is not placed. */
    method InsertEmptySpell(after: Id, newSpell: Spell) returns (newId: Id)
      modifies this
      ensures newId == newSpell.id
      ensures prompt == old(prompt).(spells := InsertAfter(old(prompt.spells), after, newSpell))
      ensures Consistent() && shouldFocusTo == None
      ensures UniqueIds(old(prompt.spells)) && !HasId(old(prompt.spells), newSpell.id) ==>
        UniqueIds(prompt.spells)
    {
      if UniqueIds(prompt.spells) && !HasId(prompt.spells, newSpell.id) {
        InsertAfterKeepsUnique(prompt.spells, after, newSpell);
      }
      UpdateSpells(InsertAfter(prompt.spells, after, newSpell));
      newId := newSpell.id;
    }

    /** appendEmptySpell: `newSpell` is the preset's fresh empty spell. */
    method AppendEmptySpell(newSpell: Spell) returns (newId: Id)
      modifies this
      ensures newId == newSpell.id
      ensures prompt == old(prompt).(spells := old(prompt.spells) + [newSpell])
      ensures Consistent() && shouldFocusTo == None
      ensures UniqueIds(old(prompt.spells)) && !HasId(old(prompt.spells), newSpell.id) ==>
        UniqueIds(prompt.spells)
    {
      if UniqueIds(prompt.spells) && !HasId(prompt.spells, newSpell.id) {
        InsertAtKeepsUnique(prompt.spells, |prompt.spells|, newSpell);
        assert InsertAt(prompt.spells, |prompt.spells|, newSpell) == prompt.spells + [newSpell];
      }
      UpdateSpells(prompt.spells + [newSpell]);
      newId := newSpell.id;
    }

    /** appendSpell: a copy of `spell` under the freshly generated id `freshId`. */
    method AppendSpell(spell: Spell, freshId: Id)
      modifies this
      ensures prompt == old(prompt).(spells := old(prompt.spells) + [spell.(id := freshId)])
      ensures Consistent() && shouldFocusTo == None
      ensures UniqueIds(old(prompt.spells)) && !HasId(old(prompt.spells), freshId) ==>
        UniqueIds(prompt.spells)
    {
      var copy := spell.(id := freshId);
      if UniqueIds(prompt.spells) && !HasId(prompt.spells, freshId) {
        InsertAtKeepsUnique(prompt.spells, |prompt.spells|, copy);
        assert InsertAt(prompt.spells, |prompt.spells|, copy) == prompt.spells + [copy];
      }
      UpdateSpells(prompt.spells + [copy]);
    }

    /** appendSpells: copies of `spells`, the i-th under the freshly generated `freshIds[i]`. */
    method AppendSpells(spells: seq<Spell>, freshIds: seq<Id>)
      requires |freshIds| == |spells|
      modifies this
      ensures prompt == old(prompt).(spells := old(prompt.spells) + WithIds(spells, freshIds))
      ensures Consistent() && shouldFocusTo == None
      ensures UniqueIds(old(prompt.spells))
        && (forall i, j :: 0 <= i < j < |freshIds| ==> freshIds[i] != freshIds[j])
        && (forall i :: 0 <= i < |freshIds| ==> !HasId(old(prompt.spells), freshIds[i]))
        ==> UniqueIds(prompt.spells)
    {
      if && UniqueIds(prompt.spells)
         && (forall i, j :: 0 <= i < j < |freshIds| ==> freshIds[i] != freshIds[j])
         && (forall i :: 0 <= i < |freshIds| ==> !HasId(prompt.spells, freshIds[i]))
      {
        AppendFreshKeepsUnique(prompt.spells, spells, freshIds);
      }
      UpdateSpells(prompt.spells + WithIds(spells, freshIds));
    }

    method DeleteSpell(spellId: Id)
      modifies this
      ensures prompt == old(prompt).(spells := Delete(old(prompt.spells), spellId))
      ensures Consistent() && shouldFocusTo == None
      ensures UniqueIds(old(prompt.spells)) ==> UniqueIds(prompt.spells)
    {
      if UniqueIds(prompt.spells) {
        DeleteKeepsUnique(prompt.spells, spellId);
      }
      UpdateSpells(Delete(prompt.spells, spellId));
    }

    /** swapSpellsPrevOrNext, with the guard refusing an absent id as well; when the swap is
        refused nothing is written. */
    method SwapSpellsPrevOrNext(spellId: Id, prev: bool)
      modifies this
      ensures Swap(old(prompt.spells), spellId, prev).None? ==>
        prompt == old(prompt) && compiled == old(compiled) && shouldFocusTo == old(shouldFocusTo)
      ensures Swap(old(prompt.spells), spellId, prev).Some? ==>
        && prompt == old(prompt).(spells := Swap(old(prompt.spells), spellId, prev).value)
        && Consistent() && shouldFocusTo == None
      ensures UniqueIds(old(prompt.spells)) ==> UniqueIds(prompt.spells)
    {
      var swapped := Swap(prompt.spells, spellId, prev);
      if swapped.Some? {
        if UniqueIds(prompt.spells) {
          SwapKeepsUnique(prompt.spells, spellId, prev);
        }
        UpdateSpells(swapped.value);
      }
    }

    method UpdatePromptTitle(title: string)
      modifies this
      ensures prompt == old(prompt).(title := title)
      ensures Consistent() && shouldFocusTo == None
    {
      SetPrompt(prompt.(title := title));
    }

    method SetShouldFocusTo(spellIndex: int)
      modifies this
      ensures shouldFocusTo == Some(spellIndex)
      ensures prompt == old(prompt) && compiled == old(compiled)
    {
      shouldFocusTo := Some(spellIndex);
    }

    method FocusWithIndex(index: int)
      modifies this
      ensures shouldFocusTo == Some(index)
      ensures prompt == old(prompt) && compiled == old(compiled)
    {
      SetShouldFocusTo(index);
    }

    method FinishFocus()
      modifies this
      ensures shouldFocusTo == None
      ensures prompt == old(prompt) && compiled == old(compiled)
    {
      shouldFocusTo := None;
    }
  }
}
