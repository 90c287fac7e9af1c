/** The spell list of a prompt and the list transforms the prompt editor applies to it.
    Every operation here is a pure function from the old list to the new one; the
    stateful owner of the list is CurrentPromptState in module PromptState. */
module SpellList {

  datatype Option<T> = None | Some(value: T)

  type Id = string

  /** One prompt fragment. `enhancement` is a JavaScript number that the editor only stores. */
  datatype Spell = Spell(id: Id, content: string, enabled: bool, enhancement: real)

  /** A prompt: an identifier, a display title and the ordered spells. */
  datatype Prompt = Prompt(id: string, title: string, spells: seq<Spell>)

  // ---------------------------------------------------------------------------
  // Identity

  predicate HasId(s: seq<Spell>, id: Id) {
    exists i :: 0 <= i < |s| && s[i].id == id
  }

  predicate UniqueIds(s: seq<Spell>) {
    forall i, j :: 0 <= i < j < |s| ==> s[i].id != s[j].id
  }

  /** With unique ids, the id at k occurs neither before nor after k. */
  lemma IdAbsentAround(s: seq<Spell>, k: nat)
    requires UniqueIds(s) && k < |s|
    ensures !HasId(s[..k], s[k].id) && !HasId(s[k + 1..], s[k].id)
  {
    var before, after := s[..k], s[k + 1..];
    forall i | 0 <= i < |before| ensures before[i].id != s[k].id {
      assert before[i] == s[i];
    }
    forall i | 0 <= i < |after| ensures after[i].id != s[k].id {
      assert after[i] == s[k + 1 + i];
    }
  }

  lemma UniqueTail(s: seq<Spell>)
    requires UniqueIds(s) && 0 < |s|
    ensures UniqueIds(s[1..])
  {
    var tail := s[1..];
    forall i, j | 0 <= i < j < |tail| ensures tail[i].id != tail[j].id {
      assert tail[i] == s[i + 1] && tail[j] == s[j + 1];
    }
  }

  /** The number of spells carrying `id`. */
  function CountId(s: seq<Spell>, id: Id): (n: nat)
    ensures n <= |s|
    ensures n == 0 <==> !HasId(s, id)
  {
    if |s| == 0 then 0
    else
      var rest := CountId(s[1..], id);
      assert forall i :: 0 < i < |s| ==> s[i] == s[1..][i - 1];
      (if s[0].id == id then 1 else 0) + rest
  }

  lemma {:induction false} CountIdUnique(s: seq<Spell>, k: nat)
    requires UniqueIds(s) && k < |s|
    ensures CountId(s, s[k].id) == 1
  {
    if k == 0 {
      IdAbsentAround(s, 0);
    } else {
      UniqueTail(s);
      assert s[1..][k - 1] == s[k];
      CountIdUnique(s[1..], k - 1);
    }
  }

  /** Array.prototype.findIndex on ids: the first index holding `id`, or -1. */
  function FindIndex(s: seq<Spell>, id: Id): (k: int)
    ensures -1 <= k < |s|
    ensures k == -1 <==> !HasId(s, id)
    ensures k >= 0 ==> s[k].id == id && forall j :: 0 <= j < k ==> s[j].id != id
  {
    if |s| == 0 then -1
    else if s[0].id == id then 0
    else
      var k := FindIndex(s[1..], id);
      assert forall i :: 0 < i < |s| ==> s[i] == s[1..][i - 1];
      if k < 0 then -1 else k + 1
  }

  /** Array.prototype.find on ids: the first spell holding `id`. */
  function FindSpell(s: seq<Spell>, id: Id): (r: Option<Spell>)
    ensures r.None? <==> !HasId(s, id)
    ensures r.Some? ==> r.value.id == id && r.value in s
    ensures r.Some? ==>
      exists k :: 0 <= k < |s| && r.value == s[k] && forall j :: 0 <= j < k ==> s[j].id != id
  {
    var k := FindIndex(s, id);
    if k < 0 then None else Some(s[k])
  }

  lemma {:induction false} FindIndexUnique(s: seq<Spell>, k: nat)
    requires UniqueIds(s) && k < |s|
    ensures FindIndex(s, s[k].id) == k
  {
    assert HasId(s, s[k].id);
  }

  // ---------------------------------------------------------------------------
  // Field updates by id (the `map` calls of the editor)

  /** Replaces every spell whose id is `id` by its image under `f`; the rest stay. */
  function MapById(s: seq<Spell>, id: Id, f: Spell -> Spell): (r: seq<Spell>)
    ensures |r| == |s|
    ensures forall i :: 0 <= i < |s| ==> r[i] == (if s[i].id == id then f(s[i]) else s[i])
  {
    if |s| == 0 then []
    else
      var rest := MapById(s[1..], id, f);
      assert forall i :: 0 < i < |s| ==> s[i] == s[1..][i - 1];
      [if s[0].id == id then f(s[0]) else s[0]] + rest
  }

  /** updateSpell: every spell with the NEW spell's id is replaced by it. */
  function ReplaceById(s: seq<Spell>, spell: Spell): (r: seq<Spell>)
    ensures |r| == |s|
    ensures forall i :: 0 <= i < |s| && s[i].id == spell.id ==> r[i] == spell
    ensures forall i :: 0 <= i < |s| && s[i].id != spell.id ==> r[i] == s[i]
    ensures forall i :: 0 <= i < |s| ==> r[i].id == s[i].id
  {
    MapById(s, spell.id, _ => spell)
  }

  /** updateSpellContent */
  function SetContent(s: seq<Spell>, spellId: Id, content: string): (r: seq<Spell>)
    ensures |r| == |s|
    ensures forall i :: 0 <= i < |s| ==>
      && r[i].id == s[i].id
      && r[i].enabled == s[i].enabled
      && r[i].enhancement == s[i].enhancement
      && r[i].content == (if s[i].id == spellId then content else s[i].content)
    ensures !HasId(s, spellId) ==> r == s
  {
    MapById(s, spellId, (sp: Spell) => sp.(content := content))
  }

  /** updateSpellEnabled */
  function SetEnabled(s: seq<Spell>, spellId: Id, enabled: bool): (r: seq<Spell>)
    ensures |r| == |s|
    ensures forall i :: 0 <= i < |s| ==>
      && r[i].id == s[i].id
      && r[i].content == s[i].content
      && r[i].enhancement == s[i].enhancement
      && r[i].enabled == (if s[i].id == spellId then enabled else s[i].enabled)
    ensures !HasId(s, spellId) ==> r == s
  {
    MapById(s, spellId, (sp: Spell) => sp.(enabled := enabled))
  }

  /** updateSpellEnhancement: None when no spell has `spellId` (the state is not written);
      otherwise the first such spell, with its new weight, replaces every spell with that id. */
  function SetEnhancement(s: seq<Spell>, spellId: Id, enhancement: real): (r: Option<seq<Spell>>)
    ensures r.None? <==> !HasId(s, spellId)
    ensures r.Some? ==> |r.value| == |s|
    ensures r.Some? ==>
      forall i :: 0 <= i < |s| ==>
        && r.value[i].id == s[i].id
        && (s[i].id != spellId ==> r.value[i] == s[i])
        && (s[i].id == spellId ==> r.value[i].enhancement == enhancement)
    ensures r.Some? && UniqueIds(s) ==>
      forall i :: 0 <= i < |s| ==>
        r.value[i] == (if s[i].id == spellId then s[i].(enhancement := enhancement) else s[i])
  {
    match FindSpell(s, spellId)
    case None => None
    case Some(spell) => Some(ReplaceById(s, spell.(enhancement := enhancement)))
  }

  /** Writing back the old content undoes updateSpellContent. */
  lemma {:induction false} SetContentRestore(s: seq<Spell>, k: nat, content: string)
    requires UniqueIds(s) && k < |s|
    ensures SetContent(SetContent(s, s[k].id, content), s[k].id, s[k].content) == s
  {
    var t := SetContent(s, s[k].id, content);
    var u := SetContent(t, s[k].id, s[k].content);
    forall i | 0 <= i < |s| ensures u[i] == s[i] {
      if i != k {
        assert s[i].id != s[k].id;
      }
    }
  }

  /** Two content updates of one id: the later one wins. */
  lemma {:induction false} SetContentTwice(s: seq<Spell>, spellId: Id, c1: string, c2: string)
    ensures SetContent(SetContent(s, spellId, c1), spellId, c2) == SetContent(s, spellId, c2)
  {
    var u := SetContent(SetContent(s, spellId, c1), spellId, c2);
    var v := SetContent(s, spellId, c2);
    forall i | 0 <= i < |s| ensures u[i] == v[i] { }
  }

  /** Writing back the old flag undoes updateSpellEnabled. */
  lemma {:induction false} SetEnabledRestore(s: seq<Spell>, k: nat, enabled: bool)
    requires UniqueIds(s) && k < |s|
    ensures SetEnabled(SetEnabled(s, s[k].id, enabled), s[k].id, s[k].enabled) == s
  {
    var t := SetEnabled(s, s[k].id, enabled);
    var u := SetEnabled(t, s[k].id, s[k].enabled);
    forall i | 0 <= i < |s| ensures u[i] == s[i] {
      if i != k {
        assert s[i].id != s[k].id;
      }
    }
  }

  /** An update that keeps every id in place keeps the ids unique. */
  lemma SameIdsKeepUnique(s: seq<Spell>, r: seq<Spell>)
    requires UniqueIds(s) && |r| == |s|
    requires forall i :: 0 <= i < |s| ==> r[i].id == s[i].id
    ensures UniqueIds(r)
  {
    forall i, j | 0 <= i < j < |r| ensures r[i].id != r[j].id {
      assert r[i].id == s[i].id && r[j].id == s[j].id;
    }
  }

  // ---------------------------------------------------------------------------
  // deleteSpell (filter)

  function Delete(s: seq<Spell>, spellId: Id): (r: seq<Spell>)
    ensures |r| == |s| - CountId(s, spellId)
    ensures forall x :: x in r <==> x in s && x.id != spellId
    ensures !HasId(s, spellId) ==> r == s
  {
    if |s| == 0 then []
    else
      var rest := Delete(s[1..], spellId);
      assert forall i :: 0 < i < |s| ==> s[i] == s[1..][i - 1];
      assert forall x :: x in s <==> x == s[0] || x in s[1..];
      if s[0].id == spellId then rest else [s[0]] + rest
  }

  /** Filtering distributes over concatenation: the survivors keep their relative order. */
  lemma {:induction false} DeleteAppend(a: seq<Spell>, b: seq<Spell>, spellId: Id)
    ensures Delete(a + b, spellId) == Delete(a, spellId) + Delete(b, spellId)
  {
    if |a| == 0 {
      assert a + b == b;
    } else {
      assert (a + b)[0] == a[0];
      assert (a + b)[1..] == a[1..] + b;
      DeleteAppend(a[1..], b, spellId);
      var da, db := Delete(a[1..], spellId), Delete(b, spellId);
      if a[0].id == spellId {
        assert Delete(a + b, spellId) == da + db;
      } else {
        assert Delete(a + b, spellId) == [a[0]] + (da + db);
        assert [a[0]] + (da + db) == ([a[0]] + da) + db;
      }
    }
  }

  /** With unique ids, deleting a present id removes exactly that one position. */
  lemma {:induction false} DeleteUnique(s: seq<Spell>, k: nat)
    requires UniqueIds(s) && k < |s|
    ensures Delete(s, s[k].id) == s[..k] + s[k + 1..]
  {
    var id := s[k].id;
    assert s == s[..k] + ([s[k]] + s[k + 1..]);
    DeleteAppend(s[..k], [s[k]] + s[k + 1..], id);
    DeleteAppend([s[k]], s[k + 1..], id);
    IdAbsentAround(s, k);
    assert Delete([s[k]], id) == [];
  }

  lemma {:induction false} DeleteKeepsUnique(s: seq<Spell>, spellId: Id)
    requires UniqueIds(s)
    ensures UniqueIds(Delete(s, spellId))
  {
    if |s| > 0 {
      var rest := Delete(s[1..], spellId);
      UniqueTail(s);
      DeleteKeepsUnique(s[1..], spellId);
      if s[0].id != spellId {
        var r := [s[0]] + rest;
        IdAbsentAround(s, 0);
        forall j | 0 < j < |r| ensures r[0].id != r[j].id {
          assert r[j] in s[1..];
        }
        forall i, j | 0 < i < j < |r| ensures r[i].id != r[j].id {
          assert r[i] == rest[i - 1] && r[j] == rest[j - 1];
        }
      }
    }
  }

  // ---------------------------------------------------------------------------
  // insertEmptySpell (map to [spell, newSpell] on the anchor, then flat)

  function InsertAfter(s: seq<Spell>, after: Id, newSpell: Spell): (r: seq<Spell>)
    ensures |r| == |s| + CountId(s, after)
    ensures !HasId(s, after) ==> r == s
  {
    if |s| == 0 then []
    else
      var rest := InsertAfter(s[1..], after, newSpell);
      assert forall i :: 0 < i < |s| ==> s[i] == s[1..][i - 1];
      (if s[0].id == after then [s[0], newSpell] else [s[0]]) + rest
  }

  lemma {:induction false} InsertAfterAppend(a: seq<Spell>, b: seq<Spell>, after: Id, newSpell: Spell)
    ensures InsertAfter(a + b, after, newSpell) == InsertAfter(a, after, newSpell) + InsertAfter(b, after, newSpell)
  {
    if |a| == 0 {
      assert a + b == b;
    } else {
      assert (a + b)[0] == a[0];
      assert (a + b)[1..] == a[1..] + b;
      InsertAfterAppend(a[1..], b, after, newSpell);
      var head := if a[0].id == after then [a[0], newSpell] else [a[0]];
      var ia, ib := InsertAfter(a[1..], after, newSpell), InsertAfter(b, after, newSpell);
      assert InsertAfter(a + b, after, newSpell) == head + (ia + ib);
      assert head + (ia + ib) == (head + ia) + ib;
    }
  }

  /** With unique ids and the anchor at k, the new spell lands at k + 1 and nothing else moves. */
  lemma {:induction false} InsertAfterUnique(s: seq<Spell>, k: nat, newSpell: Spell)
    requires UniqueIds(s) && k < |s|
    ensures InsertAfter(s, s[k].id, newSpell) == s[..k + 1] + [newSpell] + s[k + 1..]
  {
    var id := s[k].id;
    var before, mid, after := s[..k], [s[k]], s[k + 1..];
    assert s == before + (mid + after);
    InsertAfterAppend(before, mid + after, id, newSpell);
    InsertAfterAppend(mid, after, id, newSpell);
    IdAbsentAround(s, k);
    assert mid[1..] == [];
    assert InsertAfter(mid, id, newSpell) == [s[k], newSpell];
    assert InsertAfter(s, id, newSpell) == before + ([s[k], newSpell] + after);
    assert s[..k + 1] == before + mid;
  }

  /** A fresh new id keeps the ids unique. */
  lemma {:induction false} InsertAfterKeepsUnique(s: seq<Spell>, after: Id, newSpell: Spell)
    requires UniqueIds(s) && !HasId(s, newSpell.id)
    ensures UniqueIds(InsertAfter(s, after, newSpell))
  {
    var k := FindIndex(s, after);
    if k >= 0 {
      InsertAfterUnique(s, k, newSpell);
      var r := s[..k + 1] + [newSpell] + s[k + 1..];
      forall i, j | 0 <= i < j < |r| ensures r[i].id != r[j].id {
        if i == k + 1 {
          assert r[j] == s[j - 1];
        } else if j == k + 1 {
          assert r[i] == s[i];
        } else {
          assert r[i] == s[if i < k + 1 then i else i - 1];
          assert r[j] == s[if j < k + 1 then j else j - 1];
        }
      }
    }
  }

  // ---------------------------------------------------------------------------
  // appendSpell / appendSpells: copies that carry freshly minted ids

  /** Each spell of `s` with its id replaced by the id minted for it. */
  function WithIds(s: seq<Spell>, ids: seq<Id>): (r: seq<Spell>)
    requires |ids| == |s|
    ensures |r| == |s|
    ensures forall i :: 0 <= i < |s| ==>
      && r[i].id == ids[i]
      && r[i].content == s[i].content
      && r[i].enabled == s[i].enabled
      && r[i].enhancement == s[i].enhancement
  {
    if |s| == 0 then []
    else
      var rest := WithIds(s[1..], ids[1..]);
      assert forall i :: 0 < i < |s| ==> s[i] == s[1..][i - 1] && ids[i] == ids[1..][i - 1];
      [s[0].(id := ids[0])] + rest
  }

  /** Appending copies with distinct ids not already in the list keeps the ids unique,
      whatever ids the source spells carried. */
  lemma {:induction false} AppendFreshKeepsUnique(s: seq<Spell>, t: seq<Spell>, ids: seq<Id>)
    requires |ids| == |t|
    requires UniqueIds(s)
    requires forall i, j :: 0 <= i < j < |ids| ==> ids[i] != ids[j]
    requires forall i :: 0 <= i < |ids| ==> !HasId(s, ids[i])
    ensures UniqueIds(s + WithIds(t, ids))
  {
    var c := WithIds(t, ids);
    var r := s + c;
    forall i, j | 0 <= i < j < |r| ensures r[i].id != r[j].id {
      if j >= |s| {
        assert r[j] == c[j - |s|];
        if i >= |s| {
          assert r[i] == c[i - |s|];
        } else {
          assert r[i] == s[i];
          assert !HasId(s, ids[j - |s|]);
        }
      }
    }
  }

  // ---------------------------------------------------------------------------
  // arrayMove: remove at `from`, reinsert at `to`, a negative index counting from the end

  /** Where Array.prototype.splice starts for a given index on an array of length `len`. */
  function SpliceStart(index: int, len: nat): (p: nat)
    ensures p <= len
    ensures 0 <= index <= len ==> p == index
    ensures index < 0 && 0 <= len + index ==> p == len + index
  {
    if index < 0 then (if len + index < 0 then 0 else len + index)
    else if index > len then len
    else index
  }

  function RemoveAt<T>(s: seq<T>, i: nat): (r: seq<T>)
    requires i < |s|
    ensures |r| == |s| - 1
    ensures forall j :: 0 <= j < i ==> r[j] == s[j]
    ensures forall j :: i <= j < |r| ==> r[j] == s[j + 1]
  {
    s[..i] + s[i + 1..]
  }

  function InsertAt<T>(s: seq<T>, i: nat, x: T): (r: seq<T>)
    requires i <= |s|
    ensures |r| == |s| + 1
    ensures r[i] == x
    ensures forall j :: 0 <= j < i ==> r[j] == s[j]
    ensures forall j :: i < j < |r| ==> r[j] == s[j - 1]
  {
    s[..i] + [x] + s[i..]
  }

  /** arrayMove on the indices findIndex can produce. The insertion index is worked out
      against the list before the removal, so `to` = -1 is the last slot of the result. */
  function ArrayMove<T>(s: seq<T>, from: int, to: int): (r: seq<T>)
    requires 0 < |s|
    requires -1 <= from < |s| && -1 <= to < |s|
    ensures |r| == |s|
  {
    var f := SpliceStart(from, |s|);
    var rest := RemoveAt(s, f);
    InsertAt(rest, SpliceStart(to, |s|), s[f])
  }

  lemma {:induction false} RemoveInsert<T>(s: seq<T>, i: nat, x: T)
    requires i <= |s|
    ensures RemoveAt(InsertAt(s, i, x), i) == s
  {
    var r := RemoveAt(InsertAt(s, i, x), i);
    forall j | 0 <= j < |s| ensures r[j] == s[j] {
      if j < i {
        assert r[j] == InsertAt(s, i, x)[j];
      } else {
        assert r[j] == InsertAt(s, i, x)[j + 1];
      }
    }
  }

  lemma {:induction false} MultisetRemoveAt<T>(s: seq<T>, i: nat)
    requires i < |s|
    ensures multiset(RemoveAt(s, i)) + multiset{s[i]} == multiset(s)
  {
    assert s == s[..i] + [s[i]] + s[i + 1..];
  }

  lemma {:induction false} MultisetInsertAt<T>(s: seq<T>, i: nat, x: T)
    requires i <= |s|
    ensures multiset(InsertAt(s, i, x)) == multiset(s) + multiset{x}
  {
    assert s == s[..i] + s[i..];
  }

  /** On in-range indices arrayMove is a permutation that puts s[from] at `to`, and removing
      the moved element from the result gives the input minus that element: every other
      element keeps its relative order. */
  lemma {:induction false} ArrayMoveInRange<T>(s: seq<T>, from: nat, to: nat)
    requires from < |s| && to < |s|
    ensures ArrayMove(s, from, to)[to] == s[from]
    ensures RemoveAt(ArrayMove(s, from, to), to) == RemoveAt(s, from)
    ensures multiset(ArrayMove(s, from, to)) == multiset(s)
  {
    var rest := RemoveAt(s, from);
    assert ArrayMove(s, from, to) == InsertAt(rest, to, s[from]);
    RemoveInsert(rest, to, s[from]);
    MultisetInsertAt(rest, to, s[from]);
    MultisetRemoveAt(s, from);
  }

  /** arrayMove between neighbours exchanges the two. */
  lemma {:induction false} ArrayMoveAdjacent<T>(s: seq<T>, i: nat)
    requires i + 1 < |s|
    ensures ArrayMove(s, i, i + 1) == s[i := s[i + 1]][i + 1 := s[i]]
    ensures ArrayMove(s, i + 1, i) == s[i := s[i + 1]][i + 1 := s[i]]
  {
    var w := s[i := s[i + 1]][i + 1 := s[i]];
    var ra, rb := RemoveAt(s, i), RemoveAt(s, i + 1);
    var a, b := InsertAt(ra, i + 1, s[i]), InsertAt(rb, i, s[i + 1]);
    assert ArrayMove(s, i, i + 1) == a;
    assert ArrayMove(s, i + 1, i) == b;
    forall j | 0 <= j < |s| ensures a[j] == w[j] && b[j] == w[j] {
      if j < i {
        assert a[j] == ra[j] && b[j] == rb[j];
      } else if j > i + 1 {
        assert a[j] == ra[j - 1] && b[j] == rb[j - 1];
      } else if j == i {
        assert a[j] == ra[i];
      } else {
        assert b[j] == rb[i];
      }
    }
  }

  /** Removing a spell keeps the rest unique and leaves its id nowhere. */
  lemma {:induction false} RemoveAtKeepsUnique(s: seq<Spell>, f: nat)
    requires UniqueIds(s) && f < |s|
    ensures UniqueIds(RemoveAt(s, f)) && !HasId(RemoveAt(s, f), s[f].id)
  {
    var r := RemoveAt(s, f);
    forall i, j | 0 <= i < j < |r| ensures r[i].id != r[j].id {
      assert r[i] == s[if i < f then i else i + 1];
      assert r[j] == s[if j < f then j else j + 1];
    }
    forall j | 0 <= j < |r| ensures r[j].id != s[f].id {
      assert r[j] == s[if j < f then j else j + 1];
    }
  }

  /** Inserting a spell whose id is new keeps the ids unique. */
  lemma {:induction false} InsertAtKeepsUnique(s: seq<Spell>, t: nat, x: Spell)
    requires UniqueIds(s) && t <= |s| && !HasId(s, x.id)
    ensures UniqueIds(InsertAt(s, t, x))
  {
    var r := InsertAt(s, t, x);
    forall i, j | 0 <= i < j < |r| ensures r[i].id != r[j].id {
      if i == t {
        assert r[j] == s[j - 1];
      } else if j == t {
        assert r[i] == s[i];
      } else {
        assert r[i] == s[if i < t then i else i - 1];
        assert r[j] == s[if j < t then j else j - 1];
      }
    }
  }

  /** arrayMove keeps ids unique, for every pair of indices findIndex can produce. */
  lemma {:induction false} ArrayMoveKeepsUnique(s: seq<Spell>, from: int, to: int)
    requires 0 < |s| && -1 <= from < |s| && -1 <= to < |s|
    requires UniqueIds(s)
    ensures UniqueIds(ArrayMove(s, from, to))
  {
    var f := SpliceStart(from, |s|);
    RemoveAtKeepsUnique(s, f);
    InsertAtKeepsUnique(RemoveAt(s, f), SpliceStart(to, |s|), s[f]);
  }

  // ---------------------------------------------------------------------------
  // moveSpell

  /** moveSpell's list: the indices of `activeId` and of `overId` (-1 when absent or undefined)
      handed to arrayMove. */
  function Move(s: seq<Spell>, activeId: Id, overId: Option<Id>): (r: seq<Spell>)
    requires 0 < |s|
    ensures |r| == |s|
  {
    var overIndex := match overId case None => -1 case Some(o) => FindIndex(s, o);
    ArrayMove(s, FindIndex(s, activeId), overIndex)
  }

  /** With both ids present: a permutation, the active spell lands on the over spell's old
      index, and every other spell keeps its relative order. */
  lemma {:induction false} MoveBothPresent(s: seq<Spell>, activeId: Id, overId: Id)
    requires HasId(s, activeId) && HasId(s, overId)
    ensures 0 < |s|
    ensures multiset(Move(s, activeId, Some(overId))) == multiset(s)
    ensures Move(s, activeId, Some(overId))[FindIndex(s, overId)] == s[FindIndex(s, activeId)]
    ensures RemoveAt(Move(s, activeId, Some(overId)), FindIndex(s, overId)) == RemoveAt(s, FindIndex(s, activeId))
  {
    ArrayMoveInRange(s, FindIndex(s, activeId), FindIndex(s, overId));
  }

  /** With the drop target undefined or unknown (index -1), the active spell moves to the end
      and the others keep their order. */
  lemma {:induction false} MoveOverMissing(s: seq<Spell>, activeId: Id, overId: Option<Id>)
    requires HasId(s, activeId)
    requires overId.None? || !HasId(s, overId.value)
    ensures 0 < |s|
    ensures Move(s, activeId, overId) == RemoveAt(s, FindIndex(s, activeId)) + [s[FindIndex(s, activeId)]]
  {
    var a := FindIndex(s, activeId);
    var rest := RemoveAt(s, a);
    assert Move(s, activeId, overId) == InsertAt(rest, |s| - 1, s[a]);
    assert rest[..|s| - 1] == rest && rest[|s| - 1..] == [];
  }

  /** With neither id present, arrayMove(s, -1, -1) takes the last spell out and puts it
      back: the list is unchanged. */
  lemma {:induction false} MoveNeitherPresent(s: seq<Spell>, activeId: Id, overId: Option<Id>)
    requires 0 < |s| && !HasId(s, activeId)
    requires overId.None? || !HasId(s, overId.value)
    ensures Move(s, activeId, overId) == s
  {
    var n := |s|;
    var rest := RemoveAt(s, n - 1);
    assert rest == s[..n - 1];
    assert Move(s, activeId, overId) == InsertAt(rest, n - 1, s[n - 1]);
    assert rest[..n - 1] == rest && rest[n - 1..] == [];
    assert s[..n - 1] + [s[n - 1]] == s;
  }

  /** As written, an unknown dragged id (index -1) with a present drop target moves the LAST
      spell to the drop target's index; the others keep their order. */
  lemma {:induction false} MoveActiveMissing(s: seq<Spell>, activeId: Id, overId: Id)
    requires !HasId(s, activeId) && HasId(s, overId)
    ensures 0 < |s|
    ensures Move(s, activeId, Some(overId)) == InsertAt(s[..|s| - 1], FindIndex(s, overId), s[|s| - 1])
  {
    var n := |s|;
    assert RemoveAt(s, n - 1) == s[..n - 1];
  }

  /** A concrete instance: dragging an unknown id over `a` in [a, b, c] gives [c, a, b]. */
  lemma MoveActiveMissingExample()
    ensures Move([Spell("a", "cat", true, 0.0), Spell("b", "sky", true, 0.0), Spell("c", "4k", true, 0.0)], "zz", Some("a"))
      == [Spell("c", "4k", true, 0.0), Spell("a", "cat", true, 0.0), Spell("b", "sky", true, 0.0)]
  {
    var s := [Spell("a", "cat", true, 0.0), Spell("b", "sky", true, 0.0), Spell("c", "4k", true, 0.0)];
    assert s[0].id != "zz" && s[1].id != "zz" && s[2].id != "zz";
    assert FindIndex(s, "a") == 0;
    MoveActiveMissing(s, "zz", "a");
    assert InsertAt(s[..2], 0, s[2]) == [s[2], s[0], s[1]];
  }

  /** moveSpell with a guard refusing an unknown dragged id: None writes nothing. A known
      dragged id behaves as in the source. */
  function MoveChecked(s: seq<Spell>, activeId: Id, overId: Option<Id>): (r: Option<seq<Spell>>)
    ensures r.None? <==> !HasId(s, activeId)
    ensures r.Some? ==> |r.value| == |s| && multiset(r.value) == multiset(s)
  {
    var a := FindIndex(s, activeId);
    if a < 0 then None
    else
      var overIndex := match overId case None => -1 case Some(o) => FindIndex(s, o);
      var r := Move(s, activeId, overId);
      assert multiset(r) == multiset(s) by {
        var f := SpliceStart(a, |s|);
        MultisetRemoveAt(s, f);
        MultisetInsertAt(RemoveAt(s, f), SpliceStart(overIndex, |s|), s[f]);
      }
      Some(r)
  }

  lemma {:induction false} MoveCheckedAgrees(s: seq<Spell>, activeId: Id, overId: Option<Id>)
    requires HasId(s, activeId)
    ensures 0 < |s| && MoveChecked(s, activeId, overId) == Some(Move(s, activeId, overId))
  {
    assert FindIndex(s, activeId) >= 0;
  }

  lemma {:induction false} MoveKeepsUnique(s: seq<Spell>, activeId: Id, overId: Option<Id>)
    requires 0 < |s| && UniqueIds(s)
    ensures UniqueIds(Move(s, activeId, overId))
  {
    var overIndex := match overId case None => -1 case Some(o) => FindIndex(s, o);
    ArrayMoveKeepsUnique(s, FindIndex(s, activeId), overIndex);
  }

  // ---------------------------------------------------------------------------
  // swapSpellsPrevOrNext

  /** swapSpellsPrevOrNext as written: None is the early return (state not written). The
      guard checks only the target index, so an absent id (index -1) passes it when
      `prev` is false. */
  function SwapAsWritten(s: seq<Spell>, spellId: Id, prev: bool): (r: Option<seq<Spell>>)
    ensures r.Some? ==> |r.value| == |s|
  {
    var index := FindIndex(s, spellId);
    var newIndex := if prev then index - 1 else index + 1;
    if newIndex < 0 || newIndex >= |s| then None
    else Some(ArrayMove(s, index, newIndex))
  }

  /** The discrepancy: an id that is not in the list rotates the last spell to the front. */
  lemma {:induction false} SwapAsWrittenMissingId(s: seq<Spell>, spellId: Id)
    requires !HasId(s, spellId) && 0 < |s|
    ensures SwapAsWritten(s, spellId, false) == Some([s[|s| - 1]] + s[..|s| - 1])
  {
    var n := |s|;
    assert FindIndex(s, spellId) == -1;
    var rest := RemoveAt(s, n - 1);
    assert rest == s[..n - 1];
    assert ArrayMove(s, -1, 0) == InsertAt(rest, 0, s[n - 1]);
    assert InsertAt(rest, 0, s[n - 1]) == [s[n - 1]] + rest;
  }

  /** A concrete instance: [a, b] with an unknown id becomes [b, a]. */
  lemma SwapAsWrittenExample()
    ensures SwapAsWritten([Spell("a", "cat", true, 0.0), Spell("b", "4k", true, 0.0)], "zz", false)
      == Some([Spell("b", "4k", true, 0.0), Spell("a", "cat", true, 0.0)])
  {
    var s := [Spell("a", "cat", true, 0.0), Spell("b", "4k", true, 0.0)];
    assert s[0].id != "zz" && s[1].id != "zz";
    SwapAsWrittenMissingId(s, "zz");
    assert [s[1]] + s[..1] == [s[1], s[0]];
  }

  /** swapSpellsPrevOrNext with the guard also refusing an absent id. */
  function Swap(s: seq<Spell>, spellId: Id, prev: bool): (r: Option<seq<Spell>>)
    ensures r.Some? ==> |r.value| == |s|
    ensures !HasId(s, spellId) ==> r.None?
  {
    var index := FindIndex(s, spellId);
    var newIndex := if prev then index - 1 else index + 1;
    if index < 0 || newIndex < 0 || newIndex >= |s| then None
    else Some(ArrayMove(s, index, newIndex))
  }

  /** The corrected swap writes nothing for an unknown id and agrees with the source otherwise. */
  lemma {:induction false} SwapAgrees(s: seq<Spell>, spellId: Id, prev: bool)
    ensures !HasId(s, spellId) ==> Swap(s, spellId, prev).None?
    ensures HasId(s, spellId) ==> Swap(s, spellId, prev) == SwapAsWritten(s, spellId, prev)
  {
  }

  /** No wrap-around: the swap is refused exactly when the neighbour would fall off an end. */
  lemma {:induction false} SwapBounds(s: seq<Spell>, k: nat, prev: bool)
    requires UniqueIds(s) && k < |s|
    ensures Swap(s, s[k].id, prev).None? <==> (prev && k == 0) || (!prev && k == |s| - 1)
  {
    FindIndexUnique(s, k);
  }

  /** Otherwise the spell and its neighbour exchange places. */
  lemma {:induction false} SwapExchanges(s: seq<Spell>, k: nat, prev: bool)
    requires UniqueIds(s) && k < |s|
    requires if prev then 0 < k else k + 1 < |s|
    ensures var n := if prev then k - 1 else k + 1;
      Swap(s, s[k].id, prev) == Some(s[k := s[n]][n := s[k]])
  {
    FindIndexUnique(s, k);
    if prev {
      ArrayMoveAdjacent(s, k - 1);
      assert s[k - 1 := s[k]][k := s[k - 1]] == s[k := s[k - 1]][k - 1 := s[k]];
    } else {
      ArrayMoveAdjacent(s, k);
    }
  }

  lemma {:induction false} SwapKeepsUnique(s: seq<Spell>, spellId: Id, prev: bool)
    requires UniqueIds(s)
    ensures Swap(s, spellId, prev).Some? ==> UniqueIds(Swap(s, spellId, prev).value)
  {
    var k := FindIndex(s, spellId);
    var n := if prev then k - 1 else k + 1;
    if Swap(s, spellId, prev).Some? {
      ArrayMoveKeepsUnique(s, k, n);
    }
  }
}
