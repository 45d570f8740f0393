/**
 * The hotkey input: a key press with at least one modifier is shown as its modifiers in
 * a fixed order (Ctrl, Alt, Meta, Shift) followed by the capitalised key, joined by '+';
 * the combination is saved only when exactly one non-modifier key is present, and an
 * incomplete one falls back to the saved shortcut on key release or blur.
 */
module HotkeyBinder {
  import opened Strings

  const KeySeparator: char := '+'
  /** `Object.keys(Key)`: the names of the modifier enum. */
  const Modifiers: seq<string> := ["Ctrl", "Control", "Alt", "Shift", "Meta"]
  const IgnoredKeys: seq<string> := ["Tab"]

  predicate IsModifier(x: string)
  {
    x in Modifiers
  }

  /** `getModifiersCount`: how many entries are modifier names. */
  function ModifiersCount(keys: seq<string>): (n: nat)
    ensures n <= |keys|
  {
    if keys == [] then 0 else (if IsModifier(keys[0]) then 1 else 0) + ModifiersCount(keys[1..])
  }

  /** How many entries are not modifier names. */
  function OtherKeysCount(keys: seq<string>): nat
  {
    if keys == [] then 0 else (if IsModifier(keys[0]) then 0 else 1) + OtherKeysCount(keys[1..])
  }

  lemma {:induction false} CountsAddUp(keys: seq<string>)
    ensures ModifiersCount(keys) + OtherKeysCount(keys) == |keys|
  {
    if keys != [] {
      CountsAddUp(keys[1..]);
    }
  }

  lemma {:induction false} CountsAppend(a: seq<string>, b: seq<string>)
    ensures ModifiersCount(a + b) == ModifiersCount(a) + ModifiersCount(b)
  {
    if a != [] {
      assert (a + b)[1..] == a[1..] + b;
      CountsAppend(a[1..], b);
    } else {
      assert a + b == b;
    }
  }

  /** `isValidCombo`: one more entry than there are modifiers. */
  predicate IsValidCombo(keys: seq<string>)
  {
    |keys| == ModifiersCount(keys) + 1
  }

  /** A combination is valid exactly when it holds one key that is not a modifier. */
  lemma ValidComboOneKey(keys: seq<string>)
    ensures IsValidCombo(keys) <==> OtherKeysCount(keys) == 1
  {
    CountsAddUp(keys);
  }

  /** Where each modifier goes in a combination. */
  function Rank(m: string): nat
  {
    if m == "Ctrl" then 0 else if m == "Alt" then 1 else if m == "Meta" then 2 else 3
  }

  /** The modifiers `onKeydown` pushes, in the order it pushes them. */
  function ModifierKeys(ctrl: bool, alt: bool, meta: bool, shift: bool): (r: seq<string>)
    ensures ("Ctrl" in r <==> ctrl) && ("Alt" in r <==> alt)
    ensures ("Meta" in r <==> meta) && ("Shift" in r <==> shift)
    ensures forall i :: 0 <= i < |r| ==> IsModifier(r[i])
    ensures |r| == 0 <==> !(ctrl || alt || meta || shift)
  {
    (if ctrl then ["Ctrl"] else []) + (if alt then ["Alt"] else [])
    + (if meta then ["Meta"] else []) + (if shift then ["Shift"] else [])
  }

  /** The modifiers always come in the order Ctrl, Alt, Meta, Shift. */
  lemma ModifierKeysOrder(ctrl: bool, alt: bool, meta: bool, shift: bool)
    ensures var r := ModifierKeys(ctrl, alt, meta, shift);
      forall i, j :: 0 <= i < j < |r| ==> Rank(r[i]) < Rank(r[j])
  {
    var a: seq<string> := if ctrl then ["Ctrl"] else [];
    var b: seq<string> := if alt then ["Alt"] else [];
    var c: seq<string> := if meta then ["Meta"] else [];
    var d: seq<string> := if shift then ["Shift"] else [];
    var r := a + b + c + d;
    assert forall i :: 0 <= i < |r| ==>
      Rank(r[i]) == if i < |a| then 0 else if i < |a + b| then 1 else if i < |a + b + c| then 2 else 3;
  }

  /** `addCustomKey`: the key with its first letter upper-cased, unless it is a modifier name. */
  function CustomKeys(key: string): seq<string>
  {
    if IsModifier(key) then [] else [Capitalize(key)]
  }

  /** The combination a key press with modifiers builds. */
  function PressedKeys(key: string, ctrl: bool, alt: bool, meta: bool, shift: bool): seq<string>
  {
    ModifierKeys(ctrl, alt, meta, shift) + CustomKeys(key)
  }

  lemma AllModifiers(keys: seq<string>)
    requires forall i :: 0 <= i < |keys| ==> IsModifier(keys[i])
    ensures ModifiersCount(keys) == |keys|
  {
    if keys != [] {
      AllModifiers(keys[1..]);
    }
  }

  /**
   * A press with a modifier builds a valid combination exactly when the key is not a
   * modifier and does not become one by capitalisation.
   */
  lemma PressedKeysValid(key: string, ctrl: bool, alt: bool, meta: bool, shift: bool)
    ensures IsValidCombo(PressedKeys(key, ctrl, alt, meta, shift))
      <==> !IsModifier(key) && !IsModifier(Capitalize(key))
  {
    var mods := ModifierKeys(ctrl, alt, meta, shift);
    AllModifiers(mods);
    CountsAppend(mods, CustomKeys(key));
    if !IsModifier(key) {
      assert ModifiersCount([Capitalize(key)]) == if IsModifier(Capitalize(key)) then 1 else 0;
    }
  }

  /** `reset(value)`: an absent or empty value gives no keys. */
  function ResetKeys(value: string): seq<string>
  {
    if value != "" then Split(value, KeySeparator) else []
  }

  /** The state of the directive and what its input element shows. */
  class HotkeyBinderState {
    var keyArr: seq<string>
    var currentShortcut: string
    /** The input element's `value`. */
    var shown: string
    /** Every value passed to `onChange`, oldest first. */
    var changes: seq<string>

    constructor()
      ensures keyArr == [] && currentShortcut == "" && shown == "" && changes == []
    {
      keyArr := [];
      currentShortcut := "";
      shown := "";
      changes := [];
    }

    /** `reset`: an absent value is passed as "" and behaves like it. */
    method Reset(value: string)
      modifies this
      ensures keyArr == ResetKeys(value) && shown == value
      ensures currentShortcut == old(currentShortcut) && changes == old(changes)
    {
      keyArr := ResetKeys(value);
      shown := value;
    }

    /** `addCtrlKey`, `addAltKey`, `addMetaKey`, `addShiftKey` and `addCustomKey` push one entry. */
    method AddKey(k: string)
      modifies this
      ensures keyArr == old(keyArr) + [k]
      ensures shown == old(shown) && currentShortcut == old(currentShortcut) && changes == old(changes)
    {
      keyArr := keyArr + [k];
    }

    /** The four `if` statements of `onKeydown` that push the held modifiers. */
    method AddModifiers(ctrl: bool, alt: bool, meta: bool, shift: bool)
      modifies this
      ensures keyArr == old(keyArr) + ModifierKeys(ctrl, alt, meta, shift)
      ensures shown == old(shown) && currentShortcut == old(currentShortcut) && changes == old(changes)
    {
      ghost var a: seq<string> := if ctrl then ["Ctrl"] else [];
      ghost var b: seq<string> := if alt then ["Alt"] else [];
      ghost var c: seq<string> := if meta then ["Meta"] else [];
      ghost var d: seq<string> := if shift then ["Shift"] else [];
      if ctrl {
        AddKey("Ctrl");
      }
      assert keyArr == old(keyArr) + a;
      if alt {
        AddKey("Alt");
      }
      assert keyArr == old(keyArr) + (a + b);
      if meta {
        AddKey("Meta");
      }
      assert keyArr == old(keyArr) + (a + b + c);
      if shift {
        AddKey("Shift");
      }
      assert keyArr == old(keyArr) + (a + b + c + d);
    }

    /** `writeValue`: an empty value is ignored; otherwise it becomes the saved shortcut and is shown. */
    method WriteValue(value: string)
      modifies this
      ensures value == "" ==> keyArr == old(keyArr) && shown == old(shown) && currentShortcut == old(currentShortcut)
      ensures value != "" ==> currentShortcut == value && keyArr == Split(value, KeySeparator) && shown == value
      ensures changes == old(changes)
    {
      if |value| == 0 {
        return;
      }
      currentShortcut := value;
      keyArr := Split(value, KeySeparator);
      shown := Join(keyArr, [KeySeparator]);
      JoinSplit(value, KeySeparator);
    }

    /**
     * `onKeydown`: Tab without Ctrl, Alt or Meta (or with Shift already held) is left to
     * the browser; otherwise the keys start afresh, a press without modifiers leaves them
     * empty, and a press with modifiers builds its combination, which is saved and sent
     * to `onChange` only when valid.
     */
    method OnKeydown(key: string, ctrl: bool, alt: bool, shift: bool, meta: bool)
      modifies this
      ensures key in IgnoredKeys && (!(ctrl || alt || meta) || "Shift" in old(keyArr)) ==>
        keyArr == old(keyArr) && shown == old(shown) && currentShortcut == old(currentShortcut)
        && changes == old(changes)
      ensures !(key in IgnoredKeys && (!(ctrl || alt || meta) || "Shift" in old(keyArr))) ==>
        if !(ctrl || alt || shift || meta) then
          keyArr == [] && shown == "" && currentShortcut == old(currentShortcut) && changes == old(changes)
        else
          && keyArr == PressedKeys(key, ctrl, alt, meta, shift)
          && shown == Join(keyArr, [KeySeparator])
          && (IsValidCombo(keyArr) ==> currentShortcut == shown && changes == old(changes) + [shown])
          && (!IsValidCombo(keyArr) ==> currentShortcut == old(currentShortcut) && changes == old(changes))
    {
      if key in IgnoredKeys && (!(ctrl || alt || meta) || "Shift" in keyArr) {
        return;
      }
      Reset("");
      if !(ctrl || alt || shift || meta) {
        return;
      }
      AddModifiers(ctrl, alt, meta, shift);
      assert keyArr == ModifierKeys(ctrl, alt, meta, shift);
      if !IsModifier(key) {
        AddKey(Capitalize(key));
      }
      shown := Join(keyArr, [KeySeparator]);
      if IsValidCombo(keyArr) {
        changes := changes + [shown];
        currentShortcut := shown;
      }
    }

    /** `onKeyUp` and `onBlur`: an incomplete combination falls back to the saved shortcut. */
    method OnKeyUp()
      modifies this
      ensures IsValidCombo(old(keyArr)) ==> keyArr == old(keyArr) && shown == old(shown)
      ensures !IsValidCombo(old(keyArr)) ==> keyArr == ResetKeys(currentShortcut) && shown == currentShortcut
      ensures currentShortcut == old(currentShortcut) && changes == old(changes)
    {
      if !IsValidCombo(keyArr) {
        Reset(currentShortcut);
      }
    }

    /** `onFocus`: the field empties for a new combination. */
    method OnFocus()
      modifies this
      ensures keyArr == [] && shown == ""
      ensures currentShortcut == old(currentShortcut) && changes == old(changes)
    {
      keyArr := [];
      shown := "";
    }
  }
}
