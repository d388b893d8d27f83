/**
 * One switch of the hide-fields menu
 * (src/app/_components/base/hide-field-option.tsx): a field is shown while
 * its id is not in the hidden-field list, and the switch hides a shown field
 * by appending its id, or shows a hidden one by splicing out the first
 * occurrence of its id.
 */
module HideFieldOption {
  import opened Common
  import opened Rows
  import opened Js
  import opened ViewSession

  /** `enabled`: the field is shown. */
  function Enabled(hidden: seq<int>, fieldId: int): bool {
    !(fieldId in hidden)
  }

  /** What the switch does to the list: drop the first occurrence of a hidden id, append a shown one. */
  function Toggled(hidden: seq<int>, fieldId: int): (r: seq<int>)
    ensures |r| == if fieldId in hidden then |hidden| - 1 else |hidden| + 1
    ensures forall x :: x in r ==> x in hidden || x == fieldId
  {
    if Enabled(hidden, fieldId) then hidden + [fieldId] else RemoveFirst(hidden, Is(fieldId))
  }

  /** The switch's handler: copy the list, then splice at `indexOf` or push. */
  method OnChange(s: Session, fieldId: int)
    modifies s
    ensures s.hiddenFields == Toggled(old(s.hiddenFields), fieldId)
    ensures s.sorting == old(s.sorting) && s.filters == old(s.filters) && s.loaded == old(s.loaded)
    ensures s.sent == old(s.sent) + if s.loaded then [HiddenSaved(s.viewId, s.hiddenFields)] else []
  {
    var enabled := Enabled(s.hiddenFields, fieldId);
    var newHiddenFields := s.hiddenFields;
    if !enabled {
      assert newHiddenFields[FindIndex(newHiddenFields, Is(fieldId))] in newHiddenFields;
      SpliceFound(newHiddenFields, Is(fieldId));
      newHiddenFields := SpliceOne(newHiddenFields, IndexOf(newHiddenFields, fieldId));
    } else {
      newHiddenFields := newHiddenFields + [fieldId];
    }
    s.SetHiddenFields(newHiddenFields);
  }

  function IsNot(x: int): int -> bool {
    (y: int) => y != x
  }

  /** A shown field's id is appended; a hidden field's id loses one occurrence. Other ids stay, in their order. */
  lemma ToggledExact(hidden: seq<int>, fieldId: int)
    ensures Enabled(hidden, fieldId) ==> Toggled(hidden, fieldId) == hidden + [fieldId]
    ensures !Enabled(hidden, fieldId) ==> |Toggled(hidden, fieldId)| == |hidden| - 1
    ensures Where(Toggled(hidden, fieldId), IsNot(fieldId)) == Where(hidden, IsNot(fieldId))
  {
    if Enabled(hidden, fieldId) {
      WhereAppend(hidden, [fieldId], IsNot(fieldId));
      WhereNone([fieldId], IsNot(fieldId));
    } else {
      var i :| 0 <= i < |hidden| && hidden[i] == fieldId;
      assert Is(fieldId)(hidden[i]);
      RemoveFirstKeeps(hidden, Is(fieldId), IsNot(fieldId));
    }
  }

  function Id(x: int): int {
    x
  }

  /** A list without repeats: how the switch keeps it. */
  predicate NoRepeats(hidden: seq<int>) {
    DistinctBy(hidden, Id)
  }

  /**
   * On a list without repeats the switch flips the field between shown and
   * hidden, keeps the list free of repeats, and a second flip gives back the
   * original list's membership, and the original list itself when the field
   * was shown.
   */
  lemma ToggleFlips(hidden: seq<int>, fieldId: int)
    requires NoRepeats(hidden)
    ensures Enabled(Toggled(hidden, fieldId), fieldId) == !Enabled(hidden, fieldId)
    ensures NoRepeats(Toggled(hidden, fieldId))
    ensures fieldId in Toggled(Toggled(hidden, fieldId), fieldId) <==> fieldId in hidden
    ensures Enabled(hidden, fieldId) ==> Toggled(Toggled(hidden, fieldId), fieldId) == hidden
  {
    var t := Toggled(hidden, fieldId);
    if Enabled(hidden, fieldId) {
      forall i, j | 0 <= i < |hidden| && 0 <= j < 1 ensures Id(hidden[i]) != Id([fieldId][j]) {
        assert hidden[i] in hidden;
      }
      DistinctConcat(hidden, [fieldId], Id);
      var k := FindIndex(t, Is(fieldId));
      assert t[|hidden|] == fieldId;
      assert k == |hidden| by {
        forall m | 0 <= m < |hidden| ensures !Is(fieldId)(t[m]) {
          assert t[m] == hidden[m] && hidden[m] in hidden;
        }
      }
      SpliceFound(t, Is(fieldId));
      assert t[..|hidden|] == hidden;
    } else {
      RemoveFirstDistinct(hidden, Is(fieldId), Id);
      RemoveFirstOnly(hidden, Is(fieldId));
      ToggledExact(t, fieldId);
    }
  }
}
