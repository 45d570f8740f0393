/**
 * The group manager: the sidebar's group tree (the Root group first, then the
 * parentless user groups sorted by name), the built-in groups that refuse new entries,
 * adding a group, and selecting one. The group repository is a parameter: its contents
 * are passed in, and what is handed to it is recorded.
 */
module GroupManager {
  import opened Wrappers
  import opened Strings
  import opened Sequences

  /** The ids of the built-in groups; distinct values stand for the `GroupId` enum. */
  const Root: int := 1
  const AllItems: int := 2
  const Starred: int := 3
  const RecycleBin: int := 4
  const BuiltInIds: seq<int> := [Root, AllItems, Starred, RecycleBin]

  const DefaultGroupName: string := "New group"

  /** A stored group; a `parent` of 0 or none means a top-level group. */
  datatype PasswordGroup = PasswordGroup(id: int, name: string, parent: Option<int>, isImported: bool)

  /** A group as handed to the repository by `addGroup`; `isImported` may be absent. */
  datatype NewGroup = NewGroup(name: string, parent: Option<int>, isImported: Option<bool>)

  /** The optional model `addGroup` is given. */
  datatype GroupModel = GroupModel(name: Option<string>, isImported: Option<bool>)

  /** `!x.parent`. */
  predicate Parentless(g: PasswordGroup)
  {
    g.parent.None? || g.parent.value == 0
  }

  predicate TopLevel(g: PasswordGroup)
  {
    Parentless(g) && g.id !in BuiltInIds
  }

  /** `allGroups.filter(x => !x.parent && !builtInGroups.includes(x.id))`. */
  function TopLevelGroups(all: seq<PasswordGroup>): (r: seq<PasswordGroup>)
    ensures |r| <= |all|
    ensures forall g :: g in r <==> g in all && TopLevel(g)
    ensures forall g :: TopLevel(g) ==> multiset(r)[g] == multiset(all)[g]
    ensures Subsequence(r, all)
  {
    if all == [] then []
    else
      var rest := TopLevelGroups(all[1..]);
      assert all == [all[0]] + all[1..];
      if TopLevel(all[0]) then [all[0]] + rest else rest
  }

  /** `all.find(g => g.id === id)`: the first group with that id. */
  function FindGroup(all: seq<PasswordGroup>, id: int): (r: Option<PasswordGroup>)
    ensures r.Some? ==> r.value in all && r.value.id == id
    ensures r.None? <==> forall g :: g in all ==> g.id != id
  {
    if all == [] then None
    else if all[0].id == id then Some(all[0])
    else FindGroup(all[1..], id)
  }

  /** Ordering by `a.name.localeCompare(b.name)`. */
  function NameLe(a: PasswordGroup, b: PasswordGroup): bool
  {
    LocaleCompare(a.name, b.name) <= 0
  }

  lemma NameLeTotal()
    ensures TotalPreorder(NameLe)
  {
    forall a: PasswordGroup, b: PasswordGroup
      ensures NameLe(a, b) || NameLe(b, a)
    {
      LocaleCompareFlip(a.name, b.name);
    }
    forall a: PasswordGroup, b: PasswordGroup, c: PasswordGroup | NameLe(a, b) && NameLe(b, c)
      ensures NameLe(a, c)
    {
      LocaleCompareTrans(a.name, b.name, c.name);
    }
  }

  function Somes(s: seq<PasswordGroup>): (r: seq<Option<PasswordGroup>>)
    ensures |r| == |s| && forall k :: 0 <= k < |s| ==> r[k] == Some(s[k])
  {
    seq(|s|, k requires 0 <= k < |s| => Some(s[k]))
  }

  /** The tree `getGroupsTree` builds: the Root group, then the top-level groups by name. */
  function Tree(all: seq<PasswordGroup>): seq<Option<PasswordGroup>>
  {
    [FindGroup(all, Root)] + Somes(Sort(TopLevelGroups(all), NameLe))
  }

  /**
   * The tree starts with the Root group (absent if the store has none) and holds one
   * more entry than there are top-level groups.
   */
  lemma TreeRootFirst(all: seq<PasswordGroup>)
    ensures |Tree(all)| == 1 + |TopLevelGroups(all)|
    ensures Tree(all)[0] == FindGroup(all, Root)
  {
  }

  /**
   * After index 0 come exactly the parentless groups that are not built in, each as
   * often as in the store, ordered by name; no built-in id appears there.
   */
  lemma TreeRest(all: seq<PasswordGroup>)
    ensures var rest := Sort(TopLevelGroups(all), NameLe);
      && Tree(all)[1..] == Somes(rest)
      && multiset(rest) == multiset(TopLevelGroups(all))
      && (forall g :: g in rest <==> g in all && Parentless(g) && g.id !in BuiltInIds)
      && Sorted(rest, NameLe)
  {
    var rest := Sort(TopLevelGroups(all), NameLe);
    assert Tree(all)[1..] == Somes(rest);
    NameLeTotal();
    SortSorted(TopLevelGroups(all), NameLe);
    forall g
      ensures g in rest <==> g in TopLevelGroups(all)
    {
      assert g in rest <==> g in multiset(rest);
    }
  }

  /** `builtInGroups.map(g => initialEntries.find(x => x.id === g))`. */
  function BuiltInGroupsOf(initialEntries: seq<PasswordGroup>): (r: seq<Option<PasswordGroup>>)
    ensures |r| == |BuiltInIds|
    ensures forall k :: 0 <= k < |r| ==> r[k] == FindGroup(initialEntries, BuiltInIds[k])
  {
    [FindGroup(initialEntries, Root), FindGroup(initialEntries, AllItems),
     FindGroup(initialEntries, Starred), FindGroup(initialEntries, RecycleBin)]
  }

  /** `addGroup`'s new group: the model's name or "New group", no parent, and `isImported` only when asked. */
  function NewGroupFrom(model: Option<GroupModel>): (g: NewGroup)
    ensures g.parent.None?
    ensures model.None? || model.value.name.None? ==> g.name == DefaultGroupName
    ensures model.Some? && model.value.name.Some? ==> g.name == model.value.name.value
    ensures g.isImported.Some? <==> model.Some? && model.value.isImported == Some(true)
    ensures g.isImported.Some? ==> g.isImported.value
  {
    var name := if model.Some? && model.value.name.Some? then model.value.name.value else DefaultGroupName;
    if model.Some? && model.value.isImported == Some(true) then NewGroup(name, None, Some(true))
    else NewGroup(name, None, None)
  }

  /** `getGroupsTree`'s loop: the Root group at index 0, then `rootGroups[index]` at `index + 1`. */
  method FillTree(root: Option<PasswordGroup>, rootGroups: seq<PasswordGroup>)
    returns (groups: seq<Option<PasswordGroup>>)
    ensures groups == [root] + Somes(rootGroups)
  {
    groups := [];
    groups := [root];
    for index := 0 to |rootGroups|
      invariant |groups| == index + 1 && groups[0] == root
      invariant forall k :: 0 <= k < index ==> groups[k + 1] == Some(rootGroups[k])
    {
      groups := groups + [Some(rootGroups[index])];
    }
  }

  class GroupManagerState {
    var groups: seq<Option<PasswordGroup>>
    var builtInGroups: seq<Option<PasswordGroup>>
    var selectedGroup: Option<int>
    var selectedGroupName: Option<string>
    /** The groups handed to the repository's `add`, oldest first. */
    var added: seq<NewGroup>
    /** How many times `markDirty` was called. */
    var dirtyMarks: nat

    constructor()
      ensures groups == [] && builtInGroups == [] && selectedGroup.None? && selectedGroupName.None?
      ensures added == [] && dirtyMarks == 0
    {
      groups := [];
      builtInGroups := [];
      selectedGroup := None;
      selectedGroupName := None;
      added := [];
      dirtyMarks := 0;
    }

    /** `isAddAllowed`: entries may be added anywhere but in the recycle bin and the starred group. */
    function IsAddAllowed(): (r: bool)
      reads this
      ensures r <==> selectedGroup != Some(RecycleBin) && selectedGroup != Some(Starred)
      ensures selectedGroup.Some? && selectedGroup.value in BuiltInIds ==>
        (r <==> selectedGroup.value in [Root, AllItems])
    {
      selectedGroup != Some(RecycleBin) && selectedGroup != Some(Starred)
    }

    /**
     * `getGroupsTree` over the repository's groups `allGroups`: the tree is rebuilt and
     * returned, and the built-in groups are looked up in `initialEntries`.
     */
    method GetGroupsTree(allGroups: seq<PasswordGroup>, initialEntries: seq<PasswordGroup>)
      returns (r: seq<Option<PasswordGroup>>)
      modifies this
      ensures r == groups && groups == Tree(allGroups)
      ensures builtInGroups == BuiltInGroupsOf(initialEntries)
      ensures selectedGroup == old(selectedGroup) && selectedGroupName == old(selectedGroupName)
      ensures added == old(added) && dirtyMarks == old(dirtyMarks)
    {
      builtInGroups := BuiltInGroupsOf(initialEntries);
      var rootGroups := Sort(TopLevelGroups(allGroups), NameLe);
      groups := FillTree(FindGroup(allGroups, Root), rootGroups);
      return groups;
    }

    /**
     * `addGroup`: the new group is handed to the repository, which answers `groupId`
     * and then holds `allGroupsAfter`; a positive id rebuilds the tree. The manager is
     * marked dirty either way and the id is returned.
     */
    method AddGroup(model: Option<GroupModel>, groupId: int, allGroupsAfter: seq<PasswordGroup>,
                    initialEntries: seq<PasswordGroup>) returns (id: int)
      modifies this
      ensures id == groupId
      ensures added == old(added) + [NewGroupFrom(model)]
      ensures groupId > 0 ==> groups == Tree(allGroupsAfter) && builtInGroups == BuiltInGroupsOf(initialEntries)
      ensures groupId <= 0 ==> groups == old(groups) && builtInGroups == old(builtInGroups)
      ensures dirtyMarks == old(dirtyMarks) + 1
      ensures selectedGroup == old(selectedGroup) && selectedGroupName == old(selectedGroupName)
    {
      var newGroup := NewGroupFrom(model);
      added := added + [newGroup];
      if groupId > 0 {
        var _ := GetGroupsTree(allGroupsAfter, initialEntries);
      }
      dirtyMarks := dirtyMarks + 1;
      return groupId;
    }

    /**
     * `selectGroup`: the id is selected at once; the name is that of the stored group,
     * and a missing group throws after the id was set (`ok` is false).
     */
    method SelectGroup(id: int, stored: Option<PasswordGroup>) returns (ok: bool)
      modifies this
      ensures selectedGroup == Some(id)
      ensures ok <==> stored.Some?
      ensures ok ==> selectedGroupName == Some(stored.value.name)
      ensures !ok ==> selectedGroupName == old(selectedGroupName)
      ensures groups == old(groups) && builtInGroups == old(builtInGroups)
      ensures added == old(added) && dirtyMarks == old(dirtyMarks)
    {
      selectedGroup := Some(id);
      if stored.None? {
        return false;
      }
      selectedGroupName := Some(stored.value.name);
      return true;
    }
  }
}
