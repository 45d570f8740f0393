/**
 * The dropdown directive's keyboard navigation: ArrowDown and ArrowUp move the current
 * item among the enabled menu items, skipping position 0 once an item is current and
 * wrapping around; an item of a nested menu is also made current in its own menu.
 */
module Dropdown {
  import opened Wrappers
  import opened Sequences

  /** `items.at(k)` on a list of `n` items: a negative `k` counts from the end. */
  function At(n: nat, k: int): (r: Option<nat>)
    ensures r.Some? <==> -(n as int) <= k < n
    ensures r.Some? ==> r.value < n && r.value == if k < 0 then k + n else k
  {
    var j := if k < 0 then k + n else k;
    if 0 <= j < n then Some(j) else None
  }

  /** `focusNext`'s choice among `n` enabled items from position `index` (-1 for none). */
  function NextIndex(n: nat, index: int): Option<nat>
  {
    At(n, if index >= n - 1 then 1 else index + 1)
  }

  /** `focusPrevious`'s choice among `n` enabled items from position `index` (-1 for none). */
  function PreviousIndex(n: nat, index: int): Option<nat>
  {
    At(n, if index <= 1 then -1 else index - 1)
  }

  /**
   * With no current item ArrowDown takes the first item; from any item it moves one
   * down, from the last back to position 1, and it fails only with fewer than two items.
   */
  lemma NextIndexMoves(n: nat, index: int)
    requires -1 <= index < n
    ensures index == -1 ==> NextIndex(n, index) == At(n, 0)
    ensures 0 <= index < n - 1 ==> NextIndex(n, index) == Some(index + 1)
    ensures index == n - 1 ==> NextIndex(n, index) == At(n, 1)
    ensures NextIndex(n, index).None? <==> n == 0 || (n == 1 && index == 0)
    ensures index >= 0 ==> NextIndex(n, index) != Some(0)
  {
  }

  /**
   * ArrowUp from no item, the first or the second goes to the last item; from any
   * later one it moves one up; it fails only without items.
   */
  lemma PreviousIndexMoves(n: nat, index: int)
    requires -1 <= index < n
    ensures index <= 1 ==> PreviousIndex(n, index) == At(n, -1)
    ensures index > 1 ==> PreviousIndex(n, index) == Some(index - 1)
    ensures PreviousIndex(n, index).None? <==> n == 0
    ensures n >= 2 ==> PreviousIndex(n, index) != Some(0)
  {
  }

  /** On the positions 1 to n-1 ArrowDown and ArrowUp undo each other. */
  lemma NextPreviousInverse(n: nat, i: nat)
    requires 1 <= i < n
    ensures PreviousIndex(n, i).Some? && NextIndex(n, PreviousIndex(n, i).value) == Some(i)
    ensures NextIndex(n, i).Some? && PreviousIndex(n, NextIndex(n, i).value) == Some(i)
  {
  }

  /** A menu's state: its current item. */
  class DropdownState {
    var currentItem: MenuItem?

    constructor()
      ensures currentItem == null
    {
      currentItem := null;
    }
  }

  /** A menu item: whether it is disabled and the state of the menu it belongs to. */
  class MenuItem {
    const isDisabled: bool
    const stateService: DropdownState

    constructor(isDisabled: bool, stateService: DropdownState)
      ensures this.isDisabled == isDisabled && this.stateService == stateService
    {
      this.isDisabled := isDisabled;
      this.stateService := stateService;
    }
  }

  /** `filter(x => !x.isDisabled)`. */
  function Enabled(items: seq<MenuItem>): (r: seq<MenuItem>)
    ensures |r| <= |items|
    ensures forall i :: 0 <= i < |r| ==> r[i] in items && !r[i].isDisabled
    ensures forall i :: 0 <= i < |items| && !items[i].isDisabled ==> items[i] in r
  {
    if items == [] then []
    else (if items[0].isDisabled then [] else [items[0]]) + Enabled(items[1..])
  }

  /** The enabled items are the items in their order with the disabled ones dropped. */
  lemma {:induction false} EnabledOrder(items: seq<MenuItem>)
    ensures Subsequence(Enabled(items), items)
  {
    if items != [] {
      var rest := Enabled(items[1..]);
      EnabledOrder(items[1..]);
      if items[0].isDisabled {
        assert Enabled(items) == rest;
      } else {
        assert Enabled(items) == [items[0]] + rest;
        assert ([items[0]] + rest)[1..] == rest;
      }
    }
  }

  /** Each enabled item is kept as often as it occurs among the items. */
  lemma {:induction false} EnabledCount(items: seq<MenuItem>)
    ensures forall x :: x in items ==> multiset(Enabled(items))[x] == if x.isDisabled then 0 else multiset(items)[x]
  {
    if items != [] {
      EnabledCount(items[1..]);
      assert items == [items[0]] + items[1..];
    }
  }

  /** What the keys other than ArrowDown and ArrowUp hand on. */
  datatype Command = PreventDefault | RightArrow | LeftArrow | CloseAndFocusFirst

  class DropdownDirective {
    const dropdownState: DropdownState
    var menuItems: seq<MenuItem>
    var index: Option<int>
    /** The items focused, oldest first. */
    var focused: seq<MenuItem>
    /** What the keyboard handler handed on, oldest first. */
    var commands: seq<Command>

    constructor(dropdownState: DropdownState, menuItems: seq<MenuItem>)
      ensures this.dropdownState == dropdownState && this.menuItems == menuItems
      ensures index.None? && focused == [] && commands == []
    {
      this.dropdownState := dropdownState;
      this.menuItems := menuItems;
      index := None;
      focused := [];
      commands := [];
    }

    /** The states of the menus the items belong to, and of the current item's menu. */
    function Services(): set<DropdownState>
      reads this, dropdownState
    {
      (set it | it in menuItems :: it.stateService)
      + (if dropdownState.currentItem != null then {dropdownState.currentItem.stateService} else {})
    }

    /** The position of the current item among the enabled items, or -1. */
    function CurrentIndex(): (i: int)
      reads this, dropdownState
      ensures -1 <= i < |Enabled(menuItems)|
      ensures i >= 0 ==> Enabled(menuItems)[i] == dropdownState.currentItem
    {
      if dropdownState.currentItem == null then -1 else FindIndex(Enabled(menuItems), dropdownState.currentItem)
    }

    /**
     * Moving to `choice` among the enabled items: a current item of a nested menu is
     * first cleared there; the chosen item becomes current and is focused, and becomes
     * current in its own menu too. Without a choice, `focus` on `undefined` throws
     * (`ok` is false) after the current item was cleared.
     */
    method MoveTo(choice: Option<nat>) returns (ok: bool)
      requires choice.Some? ==> choice.value < |Enabled(menuItems)|
      modifies dropdownState, Services()
      modifies this`focused
      ensures ok <==> choice.Some?
      ensures var old_current := old(dropdownState.currentItem);
        old_current != null && old_current.stateService != dropdownState
        && (choice.None? || Enabled(menuItems)[choice.value].stateService != old_current.stateService)
        ==> old_current.stateService.currentItem == null
      ensures choice.None? ==> dropdownState.currentItem == null && focused == old(focused)
      ensures choice.Some? ==>
        var it := Enabled(menuItems)[choice.value];
        && dropdownState.currentItem == it
        && focused == old(focused) + [it]
        && (it.stateService != dropdownState ==> it.stateService.currentItem == it)
      ensures var old_current := old(dropdownState.currentItem);
        forall s :: s in old(Services()) && s != dropdownState
          && (old_current == null || s != old_current.stateService)
          && (choice.None? || s != Enabled(menuItems)[choice.value].stateService)
          ==> s.currentItem == old(s.currentItem)
    {
      var current := dropdownState.currentItem;
      if current != null && current.stateService != dropdownState {
        current.stateService.currentItem := null;
      }
      if choice.None? {
        dropdownState.currentItem := null;
        return false;
      }
      var it := Enabled(menuItems)[choice.value];
      assert it in menuItems;
      dropdownState.currentItem := it;
      focused := focused + [it];
      if it.stateService != dropdownState {
        it.stateService.currentItem := it;
      }
      return true;
    }

    /** `focusNext`: the current item moves one down among the enabled items, wrapping to position 1. */
    method FocusNext() returns (ok: bool)
      modifies dropdownState, Services()
      modifies this`focused
      ensures var choice := NextIndex(|Enabled(menuItems)|, old(CurrentIndex()));
        var old_current := old(dropdownState.currentItem);
        && (ok <==> choice.Some?)
        && (old_current != null && old_current.stateService != dropdownState
            && (choice.None? || Enabled(menuItems)[choice.value].stateService != old_current.stateService)
            ==> old_current.stateService.currentItem == null)
        && (choice.None? ==> dropdownState.currentItem == null && focused == old(focused))
        && (choice.Some? ==>
              var it := Enabled(menuItems)[choice.value];
              && dropdownState.currentItem == it
              && focused == old(focused) + [it]
              && (it.stateService != dropdownState ==> it.stateService.currentItem == it))
        && (forall s :: s in old(Services()) && s != dropdownState
              && (old_current == null || s != old_current.stateService)
              && (choice.None? || s != Enabled(menuItems)[choice.value].stateService)
              ==> s.currentItem == old(s.currentItem))
    {
      var items := Enabled(menuItems);
      var i := CurrentIndex();
      ok := MoveTo(NextIndex(|items|, i));
    }

    /** `focusPrevious`: the current item moves one up among the enabled items, from position 1 or less to the last. */
    method FocusPrevious() returns (ok: bool)
      modifies dropdownState, Services()
      modifies this`focused
      ensures var choice := PreviousIndex(|Enabled(menuItems)|, old(CurrentIndex()));
        var old_current := old(dropdownState.currentItem);
        && (ok <==> choice.Some?)
        && (old_current != null && old_current.stateService != dropdownState
            && (choice.None? || Enabled(menuItems)[choice.value].stateService != old_current.stateService)
            ==> old_current.stateService.currentItem == null)
        && (choice.None? ==> dropdownState.currentItem == null && focused == old(focused))
        && (choice.Some? ==>
              var it := Enabled(menuItems)[choice.value];
              && dropdownState.currentItem == it
              && focused == old(focused) + [it]
              && (it.stateService != dropdownState ==> it.stateService.currentItem == it))
        && (forall s :: s in old(Services()) && s != dropdownState
              && (old_current == null || s != old_current.stateService)
              && (choice.None? || s != Enabled(menuItems)[choice.value].stateService)
              ==> s.currentItem == old(s.currentItem))
    {
      var items := Enabled(menuItems);
      var i := CurrentIndex();
      ok := MoveTo(PreviousIndex(|items|, i));
    }

    /** `setIndex`: only the first index given is kept. */
    method SetIndex(i: int)
      modifies this`index
      ensures index == if old(index).Some? then old(index) else Some(i)
    {
      if index.Some? {
        return;
      }
      index := Some(i);
    }

    /**
     * `handleKeyboardShortcuts`: ArrowDown and ArrowUp move the current item, Tab has its
     * default prevented, the other arrows and Escape are handed on, and any other key
     * does nothing. `ok` is false when moving the current item threw.
     */
    method HandleKeyboardShortcuts(key: string) returns (ok: bool)
      modifies dropdownState, Services()
      modifies this`focused, this`commands
      ensures key == "ArrowDown" ==>
        var items := Enabled(menuItems);
        var choice := NextIndex(|items|, old(CurrentIndex()));
        var old_current := old(dropdownState.currentItem);
        && (ok <==> choice.Some?)
        && commands == old(commands)
        && (old_current != null && old_current.stateService != dropdownState
            && (choice.None? || items[choice.value].stateService != old_current.stateService)
            ==> old_current.stateService.currentItem == null)
        && (choice.None? ==> dropdownState.currentItem == null && focused == old(focused))
        && (choice.Some? ==>
              var it := items[choice.value];
              && dropdownState.currentItem == it
              && focused == old(focused) + [it]
              && (it.stateService != dropdownState ==> it.stateService.currentItem == it))
        && (forall s :: s in old(Services()) && s != dropdownState
              && (old_current == null || s != old_current.stateService)
              && (choice.None? || s != items[choice.value].stateService)
              ==> s.currentItem == old(s.currentItem))
      ensures key == "ArrowUp" ==>
        var items := Enabled(menuItems);
        var choice := PreviousIndex(|items|, old(CurrentIndex()));
        var old_current := old(dropdownState.currentItem);
        && (ok <==> choice.Some?)
        && commands == old(commands)
        && (old_current != null && old_current.stateService != dropdownState
            && (choice.None? || items[choice.value].stateService != old_current.stateService)
            ==> old_current.stateService.currentItem == null)
        && (choice.None? ==> dropdownState.currentItem == null && focused == old(focused))
        && (choice.Some? ==>
              var it := items[choice.value];
              && dropdownState.currentItem == it
              && focused == old(focused) + [it]
              && (it.stateService != dropdownState ==> it.stateService.currentItem == it))
        && (forall s :: s in old(Services()) && s != dropdownState
              && (old_current == null || s != old_current.stateService)
              && (choice.None? || s != items[choice.value].stateService)
              ==> s.currentItem == old(s.currentItem))
      ensures key != "ArrowDown" && key != "ArrowUp" ==>
        && ok && dropdownState.currentItem == old(dropdownState.currentItem) && focused == old(focused)
        && (forall s :: s in old(Services()) ==> s.currentItem == old(s.currentItem))
        && commands == old(commands) + (
             if key == "Tab" then [PreventDefault]
             else if key == "ArrowRight" then [RightArrow]
             else if key == "ArrowLeft" then [LeftArrow]
             else if key == "Escape" then [CloseAndFocusFirst]
             else [])
    {
      if key == "ArrowDown" {
        ok := FocusNext();
        return;
      } else if key == "ArrowUp" {
        ok := FocusPrevious();
        return;
      }
      ok := true;
      if key == "Tab" {
        commands := commands + [PreventDefault];
      } else if key == "ArrowRight" {
        commands := commands + [RightArrow];
      } else if key == "ArrowLeft" {
        commands := commands + [LeftArrow];
      } else if key == "Escape" {
        commands := commands + [CloseAndFocusFirst];
      }
    }
  }
}
