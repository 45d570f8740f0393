/**
 * The modal manager: the stack of open modals, at most one per component type; only the
 * first one shows a backdrop, Escape closes the most recent one, and the document body
 * carries the "modal-open" class exactly while some modal is open.
 */
module Modals {
  import opened Wrappers
  import opened Sequences

  const BodyClass: string := "modal-open"

  /** A created component: `id` tells instances apart; `componentType` is its class. */
  datatype ComponentRef = ComponentRef(id: nat, componentType: string)

  /** What `open` returns: the component and whether it shows a backdrop. */
  datatype ModalRef = ModalRef(ref: ComponentRef, showBackdrop: bool, additionalData: Option<string>)

  predicate HasType(modals: seq<ComponentRef>, componentType: string)
  {
    exists i :: 0 <= i < |modals| && modals[i].componentType == componentType
  }

  /** The open modals after `ref` is closed: `ref` is taken out where it stands, if it is there. */
  function Without(modals: seq<ComponentRef>, ref: ComponentRef): seq<ComponentRef>
  {
    var i := FindIndex(modals, ref);
    if i >= 0 then Splice1(modals, i) else modals
  }

  predicate DistinctTypes(modals: seq<ComponentRef>)
  {
    forall i, j :: 0 <= i < j < |modals| ==> modals[i].componentType != modals[j].componentType
  }

  /** Taking out position `i` moves every later element one place forward. */
  lemma RemoveAt(s: seq<ComponentRef>, i: nat)
    requires i < |s|
    ensures var r := s[..i] + s[i + 1..];
      |r| == |s| - 1 && forall k :: 0 <= k < |r| ==> r[k] == s[if k < i then k else k + 1]
  {
  }

  /** Distinct component types are also distinct components, and stay distinct when one is taken out. */
  lemma DistinctTypesRemove(s: seq<ComponentRef>, i: nat)
    requires DistinctTypes(s) && i < |s|
    ensures NoDups(s)
    ensures DistinctTypes(s[..i] + s[i + 1..])
  {
    var r := s[..i] + s[i + 1..];
    RemoveAt(s, i);
    forall a, b | 0 <= a < b < |r|
      ensures r[a].componentType != r[b].componentType
    {
      var a', b' := if a < i then a else a + 1, if b < i then b else b + 1;
      assert r[a] == s[a'] && r[b] == s[b'] && a' < b';
    }
  }

  /** Closing keeps the open modals of distinct types, and created below `bound`. */
  lemma WithoutKeepsCoherent(modals: seq<ComponentRef>, ref: ComponentRef, bound: nat)
    requires DistinctTypes(modals)
    requires forall k :: 0 <= k < |modals| ==> modals[k].id < bound
    ensures DistinctTypes(Without(modals, ref))
    ensures forall k :: 0 <= k < |Without(modals, ref)| ==> Without(modals, ref)[k].id < bound
  {
    var i := FindIndex(modals, ref);
    if i >= 0 {
      var r := modals[..i] + modals[i + 1..];
      assert Without(modals, ref) == r;
      DistinctTypesRemove(modals, i);
      RemoveAt(modals, i);
      forall k | 0 <= k < |r|
        ensures r[k].id < bound
      {
        assert r[k] == modals[if k < i then k else k + 1];
      }
    }
  }

  /**
   * Closing takes out exactly the given modal: every other one stays, in the same order,
   * and one fewer remains when it was open.
   */
  lemma WithoutRemovesOne(modals: seq<ComponentRef>, ref: ComponentRef)
    requires NoDups(modals)
    ensures var r := Without(modals, ref);
      && (forall x :: x in r <==> x in modals && x != ref)
      && |r| == (if ref in modals then |modals| - 1 else |modals|)
      && (ref in modals ==> exists i :: 0 <= i < |modals| && r == modals[..i] + modals[i + 1..])
  {
    var i := FindIndex(modals, ref);
    if i >= 0 {
      assert modals == modals[..i] + [ref] + modals[i + 1..];
      assert ref !in modals[i + 1..] by {
        forall k | i + 1 <= k < |modals|
          ensures modals[k] != ref
        {
          assert modals[i] == ref;
        }
      }
    }
  }

  class ModalManager {
    var openedModals: seq<ComponentRef>
    /** Whether the document body carries `BodyClass`. */
    var bodyHasClass: bool
    /** The components detached and destroyed, oldest first. */
    var destroyed: seq<ComponentRef>
    /** The id the next created component gets. */
    var nextId: nat

    /**
     * The manager's invariant: the body class is present exactly while a modal is open,
     * no component type is open twice, and every open component was created here.
     */
    ghost predicate Valid()
      reads this
    {
      (bodyHasClass <==> openedModals != []) && Coherent()
    }

    ghost predicate Coherent()
      reads this
    {
      && DistinctTypes(openedModals)
      && (forall i :: 0 <= i < |openedModals| ==> openedModals[i].id < nextId)
    }

    constructor()
      ensures Valid() && openedModals == [] && !bodyHasClass && destroyed == []
    {
      openedModals := [];
      bodyHasClass := false;
      destroyed := [];
      nextId := 0;
    }

    /** `isAnyModalOpen`. */
    function IsAnyModalOpen(): (r: bool)
      reads this
      requires Valid()
      ensures r <==> |openedModals| > 0
      ensures r <==> bodyHasClass
    {
      |openedModals| > 0
    }

    /**
     * `open`: nothing when a modal of the same component type is open; otherwise a new
     * component is appended, with a backdrop only when it is the only open modal, and
     * the body gets its class.
     */
    method Open(componentType: string, additionalData: Option<string>) returns (r: Option<ModalRef>)
      requires Valid()
      modifies this
      ensures Valid()
      ensures HasType(old(openedModals), componentType) ==>
        r.None? && openedModals == old(openedModals) && bodyHasClass == old(bodyHasClass)
      ensures !HasType(old(openedModals), componentType) ==>
        && r.Some?
        && r.value.ref.componentType == componentType
        && r.value.ref !in old(openedModals)
        && openedModals == old(openedModals) + [r.value.ref]
        && (r.value.showBackdrop <==> old(openedModals) == [])
        && r.value.additionalData == additionalData
        && bodyHasClass
      ensures destroyed == old(destroyed)
    {
      if exists i :: 0 <= i < |openedModals| && openedModals[i].componentType == componentType {
        return None;
      }
      var ref := ComponentRef(nextId, componentType);
      nextId := nextId + 1;
      var showBackdrop := true;
      if |openedModals| > 0 {
        showBackdrop := false;
      }
      openedModals := openedModals + [ref];
      bodyHasClass := true;
      return Some(ModalRef(ref, showBackdrop, additionalData));
    }

    /**
     * `close`: the component is destroyed, taken out of the open modals if it is there,
     * and the body loses its class once none is open.
     */
    method Close(ref: ComponentRef)
      requires Coherent() && (openedModals != [] ==> bodyHasClass)
      modifies this
      ensures Valid()
      ensures openedModals == Without(old(openedModals), ref)
      ensures destroyed == old(destroyed) + [ref]
      ensures bodyHasClass <==> openedModals != []
    {
      destroyed := destroyed + [ref];
      WithoutKeepsCoherent(openedModals, ref, nextId);
      var i := FindIndex(openedModals, ref);
      if i >= 0 {
        openedModals := Splice1(openedModals, i);
      }
      if |openedModals| == 0 {
        bodyHasClass := false;
      }
    }

    /** The window's keydown handler: Escape closes the most recently opened modal, if any. */
    method OnKeydown(key: string)
      requires Valid()
      modifies this
      ensures Valid()
      ensures key != "Escape" || old(openedModals) == [] ==>
        openedModals == old(openedModals) && destroyed == old(destroyed) && bodyHasClass == old(bodyHasClass)
      ensures key == "Escape" && old(openedModals) != [] ==>
        && openedModals == old(openedModals)[..|old(openedModals)| - 1]
        && destroyed == old(destroyed) + [old(openedModals)[|old(openedModals)| - 1]]
    {
      if key == "Escape" {
        if |openedModals| == 0 {
          return;
        }
        var last := openedModals[|openedModals| - 1];
        openedModals := openedModals[..|openedModals| - 1];
        // The popped modal is no longer listed, so `close` only destroys it.
        assert last !in openedModals by {
          assert forall i :: 0 <= i < |openedModals| ==> openedModals[i].componentType != last.componentType;
        }
        Close(last);
      }
    }
  }
}
