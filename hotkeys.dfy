/**
 * The renderer's hotkey registry: hotkeys are stored under their lower-cased text, a
 * key press is looked up by its non-empty key names joined by '+', and the label of a
 * hotkey capitalises the first letter of each of its '+'-separated parts.
 */
module HotkeyHandler {
  import opened Wrappers
  import opened Strings
  import opened Sequences

  /** A handler method, named; `intercept` records the calls it makes. */
  type Action = string

  datatype ActionOrActions = Single(action: Action) | Many(actions: seq<Action>)

  /** A registered hotkey: what it runs and, through its optional config, its label id. */
  datatype HotkeyDef = HotkeyDef(actionOrActions: ActionOrActions, labelId: Option<string>)

  datatype InterceptOutcome =
    | ModalOpen    // a modal is open: nothing happens
    | NoKeyMap     // the handler has no key mapping: an Error is thrown
    | Unmatched    // no hotkey under the pressed combination
    | Handled      // the actions ran and the default was prevented

  /** The actions a definition runs, in the order it runs them. */
  function ActionsOf(a: ActionOrActions): (r: seq<Action>)
    ensures a.Single? ==> r == [a.action]
    ensures a.Many? ==> r == a.actions
  {
    match a
    case Single(x) => [x]
    case Many(xs) => xs
  }

  /** `filter(Boolean)` on key names: the empty ones are dropped. */
  function NonEmpty(parts: seq<string>): (r: seq<string>)
    ensures |r| <= |parts|
    ensures forall i :: 0 <= i < |r| ==> r[i] != "" && r[i] in parts
    ensures forall p :: p in parts && p != "" ==> p in r
  {
    if parts == [] then []
    else if parts[0] == "" then NonEmpty(parts[1..])
    else [parts[0]] + NonEmpty(parts[1..])
  }

  /** The non-empty names keep their order among the pressed names. */
  lemma {:induction false} NonEmptyOrder(parts: seq<string>)
    ensures Subsequence(NonEmpty(parts), parts)
  {
    if parts != [] {
      var rest := NonEmpty(parts[1..]);
      NonEmptyOrder(parts[1..]);
      if parts[0] == "" {
        assert NonEmpty(parts) == rest;
      } else {
        assert NonEmpty(parts) == [parts[0]] + rest;
        assert ([parts[0]] + rest)[1..] == rest;
      }
    }
  }

  /** Each non-empty name is kept as often as it was pressed, and the empty name never. */
  lemma {:induction false} NonEmptyCount(parts: seq<string>)
    ensures forall p :: multiset(NonEmpty(parts))[p] == if p != "" then multiset(parts)[p] else 0
  {
    if parts != [] {
      NonEmptyCount(parts[1..]);
      assert parts == [parts[0]] + parts[1..];
    }
  }

  /** The lookup key of a key press. */
  function HotkeyOf(parts: seq<string>): string
  {
    Join(NonEmpty(parts), "+")
  }

  /**
   * The lookup key keeps the pressed names: when some name is non-empty and none
   * contains '+', splitting the key on '+' gives exactly the non-empty names.
   */
  lemma HotkeyOfParts(parts: seq<string>)
    requires NonEmpty(parts) != []
    requires forall i :: 0 <= i < |parts| ==> '+' !in parts[i]
    ensures Split(HotkeyOf(parts), '+') == NonEmpty(parts)
  {
    var ps := NonEmpty(parts);
    forall i | 0 <= i < |ps|
      ensures '+' !in ps[i]
    {
      assert ps[i] in parts;
    }
    SplitJoin(ps, '+');
  }

  /** Every part capitalised. */
  function CapitalizeAll(parts: seq<string>): (r: seq<string>)
    ensures |r| == |parts|
  {
    if parts == [] then [] else [Capitalize(parts[0])] + CapitalizeAll(parts[1..])
  }

  /** The label of a hotkey key: `key.split('+').map(capitalizeFirstLetter).join('+')`. */
  function LabelOf(key: string): string
  {
    Join(CapitalizeAll(Split(key, '+')), "+")
  }

  /**
   * Reference definition, character by character: the first character and every
   * character after a '+' are upper-cased, the others are kept.
   */
  function CapitalizeWords(s: string, atStart: bool): (r: string)
    ensures |r| == |s|
    ensures forall i :: 0 <= i < |s| ==>
      r[i] == if (i == 0 && atStart) || (i > 0 && s[i - 1] == '+') then UpperChar(s[i]) else s[i]
  {
    if s == [] then []
    else
      var rest := CapitalizeWords(s[1..], s[0] == '+');
      [if atStart then UpperChar(s[0]) else s[0]] + rest
  }

  /** The parts of a split, capitalised all, or all but the first. */
  function CapitalizeParts(parts: seq<string>, first: bool): seq<string>
    requires |parts| >= 1
  {
    if first then CapitalizeAll(parts) else [parts[0]] + CapitalizeAll(parts[1..])
  }

  lemma {:induction false} CapitalizeWordsSplit(s: string, atStart: bool)
    ensures CapitalizeWords(s, atStart) == Join(CapitalizeParts(Split(s, '+'), atStart), "+")
  {
    if s != [] {
      var rest := Split(s[1..], '+');
      CapitalizeWordsSplit(s[1..], s[0] == '+');
      if s[0] == '+' {
        assert Split(s, '+') == [[]] + rest;
        assert ([[]] + rest)[1..] == rest;
        assert CapitalizeParts(Split(s, '+'), atStart) == [[]] + CapitalizeAll(rest);
        assert ([[]] + CapitalizeAll(rest))[1..] == CapitalizeAll(rest);
      } else {
        var x := if atStart then UpperChar(s[0]) else s[0];
        assert Split(s, '+') == [[s[0]] + rest[0]] + rest[1..];
        assert ([[s[0]] + rest[0]] + rest[1..])[1..] == rest[1..];
        assert CapitalizeParts(Split(s, '+'), atStart) == [[x] + rest[0]] + CapitalizeAll(rest[1..]);
        JoinConsHead(x, rest[0], CapitalizeAll(rest[1..]), "+");
      }
    }
  }

  /** `getHotkeyLabel` upper-cases the first letter of each '+'-part and nothing else. */
  lemma LabelCapitalisesParts(key: string)
    ensures |LabelOf(key)| == |key|
    ensures forall i :: 0 <= i < |key| ==>
      LabelOf(key)[i] == if i == 0 || key[i - 1] == '+' then UpperChar(key[i]) else key[i]
  {
    CapitalizeWordsSplit(key, true);
  }

  /** `getContextMenuLabel`: the label's text followed by the hotkey's label in parentheses. */
  function ContextMenuLabel(text: string, key: string): (r: string)
    ensures |r| == |text| + |key| + 3
    ensures r[..|text|] == text && r[|r| - 1] == ')'
  {
    LabelCapitalisesParts(key);
    text + " (" + LabelOf(key) + ")"
  }

  predicate Labelled(hotkeys: map<string, HotkeyDef>, key: string, wanted: string)
  {
    key in hotkeys && hotkeys[key].labelId == Some(wanted)
  }

  /** The first position in `keys` whose hotkey carries `wanted`. */
  function FirstLabelled(keys: seq<string>, hotkeys: map<string, HotkeyDef>, wanted: string): (r: Option<nat>)
    ensures r.Some? ==> r.value < |keys| && Labelled(hotkeys, keys[r.value], wanted)
    ensures r.Some? ==> forall j :: 0 <= j < r.value ==> !Labelled(hotkeys, keys[j], wanted)
    ensures r.None? ==> forall j :: 0 <= j < |keys| ==> !Labelled(hotkeys, keys[j], wanted)
  {
    if keys == [] then None
    else if Labelled(hotkeys, keys[0], wanted) then Some(0)
    else match FirstLabelled(keys[1..], hotkeys, wanted)
      case None => None
      case Some(i) => Some(i + 1)
  }

  /** The entry manager's selection and the entries listed. */
  class EntrySelection {
    var selectedPasswords: seq<nat>
    var passwordEntries: seq<nat>

    constructor(selected: seq<nat>, entries: seq<nat>)
      ensures selectedPasswords == selected && passwordEntries == entries
    {
      selectedPasswords := selected;
      passwordEntries := entries;
    }
  }

  class HotkeyRegistry {
    /** The keys of `hotkeys` in the order `for ... in` visits them. */
    var order: seq<string>
    var hotkeys: map<string, HotkeyDef>
    /** The actions `intercept` has called, oldest first. */
    var ran: seq<Action>

    ghost predicate Valid()
      reads this
    {
      NoDups(order) && forall k :: k in hotkeys <==> k in order
    }

    constructor()
      ensures Valid() && order == [] && hotkeys == map[] && ran == []
    {
      order := [];
      hotkeys := map[];
      ran := [];
    }

    /** `registerHotkey`: the definition is stored under the lower-cased hotkey, replacing any other. */
    method RegisterHotkey(hotkey: string, actionOrActions: ActionOrActions, labelId: Option<string>)
      requires Valid()
      modifies this
      ensures Valid()
      ensures hotkeys == old(hotkeys)[Lower(hotkey) := HotkeyDef(actionOrActions, labelId)]
      ensures order == if Lower(hotkey) in old(hotkeys) then old(order) else old(order) + [Lower(hotkey)]
      ensures ran == old(ran)
    {
      var key := Lower(hotkey);
      if key !in hotkeys {
        order := order + [key];
      }
      hotkeys := hotkeys[key := HotkeyDef(actionOrActions, labelId)];
    }

    /** Runs a definition's actions one after the other. */
    method Run(actions: seq<Action>)
      modifies this
      ensures ran == old(ran) + actions
      ensures order == old(order) && hotkeys == old(hotkeys)
    {
      for i := 0 to |actions|
        invariant ran == old(ran) + actions[..i]
        invariant order == old(order) && hotkeys == old(hotkeys)
      {
        ran := ran + [actions[i]];
      }
      assert actions[..|actions|] == actions;
    }

    /**
     * `intercept`: nothing while a modal is open; an Error without a key mapping;
     * otherwise the hotkey under the pressed names runs its actions in order and the
     * default is prevented, and an unmatched press changes nothing.
     * `keyMap` is the key mapping applied to the event, if the handler has one.
     */
    method Intercept(anyModalOpen: bool, keyMap: Option<seq<string>>) returns (outcome: InterceptOutcome)
      modifies this
      ensures order == old(order) && hotkeys == old(hotkeys)
      ensures anyModalOpen ==> outcome == ModalOpen && ran == old(ran)
      ensures !anyModalOpen && keyMap.None? ==> outcome == NoKeyMap && ran == old(ran)
      ensures !anyModalOpen && keyMap.Some? && HotkeyOf(keyMap.value) !in hotkeys ==>
        outcome == Unmatched && ran == old(ran)
      ensures !anyModalOpen && keyMap.Some? && HotkeyOf(keyMap.value) in hotkeys ==>
        outcome == Handled
        && ran == old(ran) + ActionsOf(hotkeys[HotkeyOf(keyMap.value)].actionOrActions)
    {
      if anyModalOpen {
        return ModalOpen;
      }
      if keyMap.None? {
        return NoKeyMap;
      }
      var hotkey := HotkeyOf(keyMap.value);
      if hotkey !in hotkeys {
        return Unmatched;
      }
      var def := hotkeys[hotkey];
      match def.actionOrActions {
        case Many(actions) =>
          Run(actions);
        case Single(action) =>
          Run([action]);
      }
      outcome := Handled;
    }

    /** `getHotkeyLabel`: the label of the first hotkey carrying `wanted`, if any. */
    method GetHotkeyLabel(wanted: string) returns (r: Option<string>)
      ensures r == match FirstLabelled(order, hotkeys, wanted)
        case None => None
        case Some(i) => Some(LabelOf(order[i]))
    {
      var i := 0;
      while i < |order|
        invariant 0 <= i <= |order|
        invariant forall j :: 0 <= j < i ==> !Labelled(hotkeys, order[j], wanted)
      {
        if Labelled(hotkeys, order[i], wanted) {
          return Some(LabelOf(order[i]));
        }
        i := i + 1;
      }
      return None;
    }

    /** `selectAllEntries`: a non-empty selection becomes every listed entry. */
    method SelectAllEntries(m: EntrySelection)
      modifies m
      ensures old(m.selectedPasswords) == [] ==> m.selectedPasswords == old(m.selectedPasswords)
      ensures old(m.selectedPasswords) != [] ==> m.selectedPasswords == m.passwordEntries
      ensures m.passwordEntries == old(m.passwordEntries)
    {
      if |m.selectedPasswords| > 0 {
        m.selectedPasswords := [];
        m.selectedPasswords := m.selectedPasswords + m.passwordEntries;
      }
    }
  }
}
