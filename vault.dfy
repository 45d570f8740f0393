/**
 * The renderer-side vault service: reordering the entries of the selected group, deleting
 * the selected entries from the group tree, finding the group that holds an entry, and
 * the slash-separated path of a group.
 * Entries are values identified by `id`; the group tree is a value that the service
 * replaces as a whole where the source mutates one node's `data` array in place.
 */
module Vault {
  import opened Wrappers
  import opened Strings
  import opened Sequences

  datatype PasswordEntry = PasswordEntry(id: string, title: string, username: string)

  /** A PrimeNG tree node: a group with its entries and its subgroups. */
  datatype TreeNode = TreeNode(key: string, name: string, data: seq<PasswordEntry>, children: seq<TreeNode>)

  function Ids(data: seq<PasswordEntry>): (ids: seq<string>)
    ensures |ids| == |data| && forall k :: 0 <= k < |data| ==> ids[k] == data[k].id
  {
    seq(|data|, k requires 0 <= k < |data| => data[k].id)
  }

  /** `data.findIndex(e => e.id === id)`. */
  function IndexOfId(data: seq<PasswordEntry>, id: string): (i: int)
    ensures -1 <= i < |data|
    ensures i == -1 <==> id !in Ids(data)
    ensures i >= 0 ==> data[i].id == id
  {
    FindIndex(Ids(data), id)
  }

  /** `findIndex` answers the first entry carrying the id. */
  lemma IndexOfIdFirst(data: seq<PasswordEntry>, id: string)
    ensures forall k :: 0 <= k < IndexOfId(data, id) ==> data[k].id != id
  {
    var i := IndexOfId(data, id);
    assert i >= 0 ==> forall k :: 0 <= k < i ==> Ids(data)[..i][k] == data[k].id;
  }

  /** The `moveUp` comparator: `a` goes first when its index is not larger. */
  function ByIndexAscending(data: seq<PasswordEntry>): (PasswordEntry, PasswordEntry) -> bool
  {
    (a: PasswordEntry, b: PasswordEntry) => IndexOfId(data, a.id) <= IndexOfId(data, b.id)
  }

  /** The `moveDown` comparator: `a` goes first when its index is not smaller. */
  function ByIndexDescending(data: seq<PasswordEntry>): (PasswordEntry, PasswordEntry) -> bool
  {
    (a: PasswordEntry, b: PasswordEntry) => IndexOfId(data, a.id) >= IndexOfId(data, b.id)
  }

  lemma ByIndexPreorders(data: seq<PasswordEntry>)
    ensures TotalPreorder(ByIndexAscending(data)) && TotalPreorder(ByIndexDescending(data))
  {
  }

  /** `[data[i], data[j]] = [data[j], data[i]]`. */
  function Swap(data: seq<PasswordEntry>, i: nat, j: nat): (r: seq<PasswordEntry>)
    requires i < |data| && j < |data|
    ensures |r| == |data| && r[i] == data[j] && r[j] == data[i]
    ensures forall k :: 0 <= k < |data| && k != i && k != j ==> r[k] == data[k]
    ensures multiset(r) == multiset(data)
  {
    data[i := data[j]][j := data[i]]
  }

  lemma SwapKeepsUniqueIds(data: seq<PasswordEntry>, i: nat, j: nat)
    requires i < |data| && j < |data| && NoDups(Ids(data))
    ensures NoDups(Ids(Swap(data, i, j)))
  {
    var r := Swap(data, i, j);
    forall a, b | 0 <= a < b < |r|
      ensures Ids(r)[a] != Ids(r)[b]
    {
      var a' := if a == i then j else if a == j then i else a;
      var b' := if b == i then j else if b == j then i else b;
      assert r[a] == data[a'] && r[b] == data[b'] && a' != b';
    }
  }

  /**
   * The conditions under which the reordering operations have a clean meaning: the
   * group's ids are unique, the selection's ids are unique, and every selected id is
   * in the group.
   */
  predicate Coherent(data: seq<PasswordEntry>, selection: seq<PasswordEntry>)
  {
    && NoDups(Ids(data))
    && NoDups(Ids(selection))
    && forall k :: 0 <= k < |selection| ==> selection[k].id in Ids(data)
  }

  /** The group's entries whose ids are not in `ids`, in their order. */
  function Unselected(data: seq<PasswordEntry>, ids: set<string>): (r: seq<PasswordEntry>)
    ensures |r| <= |data|
  {
    if data == [] then []
    else if data[0].id in ids then Unselected(data[1..], ids)
    else
      assert data == [data[0]] + data[1..];
      [data[0]] + Unselected(data[1..], ids)
  }

  function IdSet(selection: seq<PasswordEntry>): set<string>
  {
    set k | 0 <= k < |selection| :: selection[k].id
  }

  lemma {:induction false} UnselectedUnique(data: seq<PasswordEntry>, ids: set<string>)
    requires NoDups(Ids(data))
    ensures NoDups(Ids(Unselected(data, ids)))
    ensures forall e :: e in Unselected(data, ids) ==> e.id in Ids(data)
  {
    if data != [] {
      assert Ids(data[1..]) == Ids(data)[1..];
      UnselectedUnique(data[1..], ids);
      var rest := Unselected(data[1..], ids);
      if data[0].id !in ids {
        var r := [data[0]] + rest;
        forall a, b | 0 <= a < b < |r|
          ensures Ids(r)[a] != Ids(r)[b]
        {
          if a == 0 {
            assert r[b] in rest;
            assert r[b].id in Ids(data[1..]);
            assert data[0].id !in Ids(data)[1..];
          }
        }
      }
    }
  }

  lemma IdsTail(data: seq<PasswordEntry>)
    requires data != []
    ensures Ids(data) == [data[0].id] + Ids(data[1..])
    ensures NoDups(Ids(data)) ==> NoDups(Ids(data[1..])) && data[0].id !in Ids(data[1..])
  {
    assert Ids(data) == [data[0].id] + Ids(data[1..]);
  }

  lemma SpliceCons<T>(x: T, u: seq<T>, i: nat)
    requires i < |u|
    ensures Splice1([x] + u, i + 1) == [x] + Splice1(u, i)
  {
    SpliceAfter([x], u, i);
  }

  /** Splicing out the entry with `id` behind an entry with another id keeps that entry. */
  lemma SpliceKept(x: PasswordEntry, rest: seq<PasswordEntry>, after: seq<PasswordEntry>, id: string)
    requires x.id != id && 0 <= IndexOfId(rest, id) && Splice1(rest, IndexOfId(rest, id)) == after
    ensures 0 <= IndexOfId([x] + rest, id) && Splice1([x] + rest, IndexOfId([x] + rest, id)) == [x] + after
  {
    var i := IndexOfId(rest, id);
    assert id in Ids(rest);
    assert Ids([x]) == [x.id];
    IndexOfIdAfter([x], rest, id);
    SpliceCons(x, rest, i);
  }

  /** Removing the entry with `id` from the unselected entries adds `id` to the selection. */
  lemma {:induction false} SpliceUnselected(data: seq<PasswordEntry>, ids: set<string>, id: string)
    requires NoDups(Ids(data)) && id in Ids(data) && id !in ids
    ensures var u := Unselected(data, ids);
      0 <= IndexOfId(u, id) && Splice1(u, IndexOfId(u, id)) == Unselected(data, ids + {id})
  {
    IdsTail(data);
    var u := Unselected(data, ids);
    var rest := Unselected(data[1..], ids);
    var after := Unselected(data[1..], ids + {id});
    if data[0].id == id {
      assert u == [data[0]] + rest;
      assert IndexOfId(u, id) == 0;
      assert Splice1(u, 0) == rest;
      UnselectedSkip(data[1..], ids, id);
      assert Unselected(data, ids + {id}) == after;
      assert Splice1(u, IndexOfId(u, id)) == Unselected(data, ids + {id});
    } else {
      SpliceUnselected(data[1..], ids, id);
      if data[0].id !in ids {
        assert u == [data[0]] + rest;
        SpliceKept(data[0], rest, after, id);
        assert Unselected(data, ids + {id}) == [data[0]] + after;
      } else {
        assert u == rest;
        assert Unselected(data, ids + {id}) == after;
        assert Splice1(u, IndexOfId(u, id)) == Unselected(data, ids + {id});
      }
    }
  }

  /** An id absent from the group does not change which entries are unselected. */
  lemma {:induction false} UnselectedSkip(data: seq<PasswordEntry>, ids: set<string>, id: string)
    requires id !in Ids(data)
    ensures Unselected(data, ids + {id}) == Unselected(data, ids)
  {
    if data != [] {
      assert Ids(data[1..]) == Ids(data)[1..];
      UnselectedSkip(data[1..], ids, id);
    }
  }

  /** Keeping the unselected entries distributes over concatenation. */
  lemma {:induction false} UnselectedAppend(a: seq<PasswordEntry>, b: seq<PasswordEntry>, ids: set<string>)
    ensures Unselected(a + b, ids) == Unselected(a, ids) + Unselected(b, ids)
  {
    if a == [] {
      assert a + b == b;
    } else {
      assert (a + b)[0] == a[0];
      assert (a + b)[1..] == a[1..] + b;
      UnselectedAppend(a[1..], b, ids);
    }
  }

  /** Swapping neighbours at `i` exchanges them between the same front and back. */
  lemma SwapSplit(g: seq<PasswordEntry>, i: nat)
    requires i + 1 < |g|
    ensures g == g[..i] + ([g[i], g[i + 1]] + g[i + 2..])
    ensures Swap(g, i, i + 1) == g[..i] + ([g[i + 1], g[i]] + g[i + 2..])
  {
  }

  /** Of two entries exactly one of which is selected, either order keeps the same unselected one. */
  lemma UnselectedPair(x: PasswordEntry, y: PasswordEntry, ids: set<string>)
    requires (x.id in ids) != (y.id in ids)
    ensures Unselected([x, y], ids) == Unselected([y, x], ids)
  {
    assert [x, y][1..] == [y] && [y, x][1..] == [x];
    assert [x][1..] == [] && [y][1..] == [];
  }

  /**
   * Swapping two neighbours of which exactly one is selected leaves the unselected
   * entries, in their order, as they were.
   */
  lemma SwapKeepsUnselected(g: seq<PasswordEntry>, i: nat, ids: set<string>)
    requires i + 1 < |g| && (g[i].id in ids) != (g[i + 1].id in ids)
    ensures Unselected(Swap(g, i, i + 1), ids) == Unselected(g, ids)
  {
    var x, y := g[i], g[i + 1];
    var pre, post := g[..i], g[i + 2..];
    SwapSplit(g, i);
    UnselectedAppend(pre, [x, y] + post, ids);
    UnselectedAppend([x, y], post, ids);
    UnselectedAppend(pre, [y, x] + post, ids);
    UnselectedAppend([y, x], post, ids);
    UnselectedPair(x, y, ids);
  }

  lemma IdSetSnoc(selection: seq<PasswordEntry>, k: nat)
    requires k < |selection|
    ensures IdSet(selection[..k + 1]) == IdSet(selection[..k]) + {selection[k].id}
  {
    var s := selection[..k + 1];
    assert s[k] == selection[k];
    assert forall j :: 0 <= j < k ==> s[j] == selection[..k][j];
  }

  /** The first entry with `id` in `front + back`, when `front` holds no such entry. */
  lemma IndexOfIdAfter(front: seq<PasswordEntry>, back: seq<PasswordEntry>, id: string)
    requires id !in Ids(front) && id in Ids(back)
    ensures IndexOfId(front + back, id) == |front| + IndexOfId(back, id)
  {
    var s := front + back;
    var i := IndexOfId(back, id);
    assert s[|front| + i].id == id;
    assert id in Ids(s);
    IndexOfIdFirst(s, id);
    IndexOfIdFirst(back, id);
  }

  /** The first entry with `id` in `front + back`, when `front` holds one. */
  lemma IndexOfIdBefore(front: seq<PasswordEntry>, back: seq<PasswordEntry>, id: string)
    requires id in Ids(front)
    ensures IndexOfId(front + back, id) == IndexOfId(front, id)
  {
    var s := front + back;
    var i := IndexOfId(front, id);
    assert s[i].id == id;
    assert id in Ids(s);
    IndexOfIdFirst(s, id);
    IndexOfIdFirst(front, id);
  }

  lemma IdsOfSelection(sel: seq<PasswordEntry>, k: nat)
    requires k < |sel| && NoDups(Ids(sel))
    ensures sel[k].id !in Ids(sel[..k]) && sel[k].id !in Ids(Reverse(sel[..k]))
    ensures sel[k].id !in IdSet(sel[..k])
  {
  }

  lemma SpliceAfter<T>(front: seq<T>, u: seq<T>, i: nat)
    requires i < |u|
    ensures Splice1(front + u, |front| + i) == front + Splice1(u, i)
  {
    var s := front + u;
    var n := |front| + i;
    assert Splice1(s, n) == s[..n] + s[n + 1..];
    assert s[..n] == front + u[..i];
    assert s[n + 1..] == u[i + 1..];
    assert Splice1(u, i) == u[..i] + u[i + 1..];
  }

  lemma SpliceBefore<T>(u: seq<T>, back: seq<T>, i: nat)
    requires i < |u|
    ensures Splice1(u + back, i) == Splice1(u, i) + back
  {
    var s := u + back;
    assert Splice1(s, i) == s[..i] + s[i + 1..];
    assert s[..i] == u[..i];
    assert s[i + 1..] == u[i + 1..] + back;
    assert Splice1(u, i) == u[..i] + u[i + 1..];
  }

  /** `moveTop`'s splice: the entry with `id` leaves the unselected part behind `front`. */
  lemma MoveStep(data: seq<PasswordEntry>, ids: set<string>, id: string, front: seq<PasswordEntry>, elIdx: int)
    requires NoDups(Ids(data)) && id in Ids(data) && id !in ids && id !in Ids(front)
    requires elIdx == IndexOfId(front + Unselected(data, ids), id)
    ensures Splice1(front + Unselected(data, ids), elIdx) == front + Unselected(data, ids + {id})
  {
    var u := Unselected(data, ids);
    SpliceUnselected(data, ids, id);
    var i := IndexOfId(u, id);
    assert id in Ids(u) by {
      assert u[i].id == id;
    }
    IndexOfIdAfter(front, u, id);
    SpliceAfter(front, u, i);
  }

  /** One iteration of `moveTop`'s loop keeps its invariant. */
  lemma TopStep(data: seq<PasswordEntry>, sel: seq<PasswordEntry>, k: nat)
    requires Coherent(data, sel) && k < |sel|
    ensures var g := Reverse(sel[..k]) + Unselected(data, IdSet(sel[..k]));
      [sel[k]] + Splice1(g, IndexOfId(g, sel[k].id)) == Reverse(sel[..k + 1]) + Unselected(data, IdSet(sel[..k + 1]))
  {
    var g := Reverse(sel[..k]) + Unselected(data, IdSet(sel[..k]));
    var elIdx := IndexOfId(g, sel[k].id);
    var front := Reverse(sel[..k]);
    var rest := Unselected(data, IdSet(sel[..k]) + {sel[k].id});
    assert Splice1(g, elIdx) == front + rest by {
      IdsOfSelection(sel, k);
      MoveStep(data, IdSet(sel[..k]), sel[k].id, front, elIdx);
    }
    assert Unselected(data, IdSet(sel[..k + 1])) == rest by {
      IdSetSnoc(sel, k);
    }
    assert Reverse(sel[..k + 1]) == [sel[k]] + front by {
      ReversePrefix(sel, k);
    }
    ConcatAssoc([sel[k]], front, rest);
  }


  /** `moveBottom`'s splice: the entry with `id` leaves the unselected part ahead of `back`. */
  lemma MoveBottomStep(data: seq<PasswordEntry>, ids: set<string>, id: string, back: seq<PasswordEntry>, elIdx: int)
    requires NoDups(Ids(data)) && id in Ids(data) && id !in ids
    requires elIdx == IndexOfId(Unselected(data, ids) + back, id)
    ensures Splice1(Unselected(data, ids) + back, elIdx) == Unselected(data, ids + {id}) + back
  {
    var u := Unselected(data, ids);
    SpliceUnselected(data, ids, id);
    var i := IndexOfId(u, id);
    assert id in Ids(u) by {
      assert u[i].id == id;
    }
    IndexOfIdBefore(u, back, id);
    SpliceBefore(u, back, i);
  }

  /** One iteration of `moveBottom`'s loop keeps its invariant. */
  lemma BottomStep(data: seq<PasswordEntry>, sel: seq<PasswordEntry>, k: nat)
    requires Coherent(data, sel) && k < |sel|
    ensures var g := Unselected(data, IdSet(sel[..k])) + sel[..k];
      Splice1(g, IndexOfId(g, sel[k].id)) + [sel[k]] == Unselected(data, IdSet(sel[..k + 1])) + sel[..k + 1]
  {
    var g := Unselected(data, IdSet(sel[..k])) + sel[..k];
    var elIdx := IndexOfId(g, sel[k].id);
    var rest := Unselected(data, IdSet(sel[..k]) + {sel[k].id});
    assert Splice1(g, elIdx) == rest + sel[..k] by {
      IdsOfSelection(sel, k);
      MoveBottomStep(data, IdSet(sel[..k]), sel[k].id, sel[..k], elIdx);
    }
    assert IdSet(sel[..k + 1]) == IdSet(sel[..k]) + {sel[k].id} by {
      IdSetSnoc(sel, k);
    }
    TakeOneMore(sel, k);
    ConcatAssoc(rest, sel[..k], [sel[k]]);
  }

  lemma ReversePrefix<T>(s: seq<T>, k: nat)
    requires k < |s|
    ensures Reverse(s[..k + 1]) == [s[k]] + Reverse(s[..k])
  {
    var r := Reverse(s[..k + 1]);
    var t := [s[k]] + Reverse(s[..k]);
    forall i | 0 <= i < |r|
      ensures r[i] == t[i]
    {
      if i > 0 {
        assert t[i] == Reverse(s[..k])[i - 1];
      }
    }
  }

  /** An entry is first in the group when it is at index 0. */
  lemma IndexOfFirst(data: seq<PasswordEntry>, id: string)
    requires data != [] && data[0].id == id
    ensures IndexOfId(data, id) == 0
  {
  }

  /** Positions, in the group, of the entries of a selection. */
  function Positions(data: seq<PasswordEntry>, selection: seq<PasswordEntry>): (p: seq<int>)
    ensures |p| == |selection|
    ensures forall k :: 0 <= k < |selection| ==> p[k] == IndexOfId(data, selection[k].id)
  {
    seq(|selection|, k requires 0 <= k < |selection| => IndexOfId(data, selection[k].id))
  }

  /**
   * A selection sorted by `moveUp`'s comparator, coherent with its group, occupies
   * strictly increasing positions.
   */
  lemma AscendingPositions(data: seq<PasswordEntry>, sorted: seq<PasswordEntry>)
    requires Coherent(data, sorted) && Sorted(sorted, ByIndexAscending(data))
    ensures forall i, j :: 0 <= i < j < |sorted| ==>
      0 <= Positions(data, sorted)[i] < Positions(data, sorted)[j]
  {
    var p := Positions(data, sorted);
    forall i, j | 0 <= i < j < |sorted|
      ensures 0 <= p[i] < p[j]
    {
      assert ByIndexAscending(data)(sorted[i], sorted[j]);
      assert Ids(sorted)[i] != Ids(sorted)[j];
    }
  }

  lemma DescendingPositions(data: seq<PasswordEntry>, sorted: seq<PasswordEntry>)
    requires Coherent(data, sorted) && Sorted(sorted, ByIndexDescending(data))
    ensures forall i, j :: 0 <= i < j < |sorted| ==>
      Positions(data, sorted)[i] > Positions(data, sorted)[j] >= 0
  {
    var p := Positions(data, sorted);
    forall i, j | 0 <= i < j < |sorted|
      ensures p[i] > p[j] >= 0
    {
      assert ByIndexDescending(data)(sorted[i], sorted[j]);
      assert Ids(sorted)[i] != Ids(sorted)[j];
    }
  }

  /** `findRow`'s answer: the path of child indices to the group holding `id`. */
  function FindRowSpec(node: TreeNode, id: string): Option<seq<nat>>
    decreases node, |node.children| + 1
  {
    if id == "" || id in Ids(node.data) then Some([])
    else FindInChildren(node, id, 0)
  }

  /** The `for` loop over `node.children` from index `i`, stopping at the first answer. */
  function FindInChildren(node: TreeNode, id: string, i: nat): Option<seq<nat>>
    decreases node, |node.children| - i
  {
    if i >= |node.children| then None
    else match FindRowSpec(node.children[i], id)
      case Some(p) => Some([i] + p)
      case None => FindInChildren(node, id, i + 1)
  }

  predicate ValidPath(node: TreeNode, path: seq<nat>)
    decreases path
  {
    path == [] || (path[0] < |node.children| && ValidPath(node.children[path[0]], path[1..]))
  }

  function At(node: TreeNode, path: seq<nat>): TreeNode
    requires ValidPath(node, path)
    decreases path
  {
    if path == [] then node else At(node.children[path[0]], path[1..])
  }

  /** Every id held anywhere in the tree. */
  function TreeIds(node: TreeNode): set<string>
    decreases node, 1
  {
    (set k | 0 <= k < |node.data| :: node.data[k].id) + ChildrenIds(node, 0)
  }

  function ChildrenIds(node: TreeNode, i: nat): set<string>
    decreases node, 0, |node.children| - i
  {
    if i >= |node.children| then {} else TreeIds(node.children[i]) + ChildrenIds(node, i + 1)
  }

  /**
   * `findRow` is sound: its path leads to a group that holds `id` (or to the node
   * itself when no id is given).
   */
  lemma {:induction false} FindRowSound(node: TreeNode, id: string)
    ensures FindRowSpec(node, id).Some? ==>
      var p := FindRowSpec(node, id).value;
      ValidPath(node, p) && (id == "" || id in Ids(At(node, p).data))
    ensures id == "" ==> FindRowSpec(node, id) == Some([])
    decreases node, |node.children| + 1
  {
    if id != "" && id !in Ids(node.data) {
      FindInChildrenSound(node, id, 0);
    }
  }

  lemma {:induction false} FindInChildrenSound(node: TreeNode, id: string, i: nat)
    requires id != ""
    ensures FindInChildren(node, id, i).Some? ==>
      var p := FindInChildren(node, id, i).value;
      ValidPath(node, p) && id in Ids(At(node, p).data)
    decreases node, |node.children| - i
  {
    if i < |node.children| {
      FindRowSound(node.children[i], id);
      match FindRowSpec(node.children[i], id)
      case Some(p) =>
        assert ([i] + p)[1..] == p;
      case None =>
        FindInChildrenSound(node, id, i + 1);
    }
  }

  /** `findRow` is complete: an id held somewhere in the tree is found. */
  lemma {:induction false} FindRowComplete(node: TreeNode, id: string)
    requires id in TreeIds(node)
    ensures FindRowSpec(node, id).Some?
    decreases node, 1
  {
    if id != "" && id !in Ids(node.data) {
      FindInChildrenComplete(node, id, 0);
    }
  }

  lemma {:induction false} FindInChildrenComplete(node: TreeNode, id: string, i: nat)
    requires id in ChildrenIds(node, i)
    ensures FindInChildren(node, id, i).Some?
    decreases node, 0, |node.children| - i
  {
    if i < |node.children| {
      if id in TreeIds(node.children[i]) {
        FindRowComplete(node.children[i], id);
      } else {
        FindInChildrenComplete(node, id, i + 1);
      }
    }
  }

  /** The tree with the `data` of the group at `path` replaced. */
  function WithData(node: TreeNode, path: seq<nat>, data: seq<PasswordEntry>): (r: TreeNode)
    requires ValidPath(node, path)
    ensures ValidPath(r, path) && At(r, path).data == data
    decreases path
  {
    if path == [] then node.(data := data)
    else
      var i := path[0];
      var child := WithData(node.children[i], path[1..], data);
      var r := node.(children := node.children[i := child]);
      assert r.children[i] == child;
      r
  }

  /** All entries of the tree, group by group in pre-order. */
  function Entries(node: TreeNode): seq<PasswordEntry>
    decreases node, 1
  {
    node.data + ChildrenEntries(node.children)
  }

  function ChildrenEntries(children: seq<TreeNode>): seq<PasswordEntry>
    decreases children, 0
  {
    if children == [] then []
    else Entries(children[0]) + ChildrenEntries(children[1..])
  }

  /** Two exchanges chained: what `x` gains over `y` via `q` and `p` cancels out. */
  lemma ChainExchange<T>(x: multiset<T>, p: multiset<T>, y: multiset<T>, q: multiset<T>, a: multiset<T>, d: multiset<T>)
    requires x + p == y + q && q + a == p + d
    ensures x + a == y + d
  {
    forall t
      ensures (x + a)[t] == (y + d)[t]
    {
      assert (x + p)[t] == (y + q)[t];
      assert (q + a)[t] == (p + d)[t];
    }
  }

  /** An exchange stays balanced when both sides gain the same entries. */
  lemma ShiftExchange<T>(head: multiset<T>, x: multiset<T>, p: multiset<T>, y: multiset<T>, q: multiset<T>)
    requires x + p == y + q
    ensures (head + x) + p == (head + y) + q
  {
    forall t
      ensures ((head + x) + p)[t] == ((head + y) + q)[t]
    {
      assert (x + p)[t] == (y + q)[t];
    }
  }

  lemma {:induction false} ChildrenEntriesUpdate(children: seq<TreeNode>, i: nat, child: TreeNode)
    requires i < |children|
    ensures multiset(ChildrenEntries(children[i := child])) + multiset(Entries(children[i]))
      == multiset(ChildrenEntries(children)) + multiset(Entries(child))
    decreases children
  {
    var updated := children[i := child];
    assert ChildrenEntries(updated) == Entries(updated[0]) + ChildrenEntries(updated[1..]);
    assert ChildrenEntries(children) == Entries(children[0]) + ChildrenEntries(children[1..]);
    if i > 0 {
      assert updated[0] == children[0];
      assert updated[1..] == children[1..][i - 1 := child];
      assert children[1..][i - 1] == children[i];
      ChildrenEntriesUpdate(children[1..], i - 1, child);
      var head := multiset(Entries(children[0]));
      var x := multiset(ChildrenEntries(updated[1..]));
      var y := multiset(ChildrenEntries(children[1..]));
      var p := multiset(Entries(children[i]));
      var q := multiset(Entries(child));
      ShiftExchange(head, x, p, y, q);
    } else {
      assert updated[0] == child;
      assert updated[1..] == children[1..];
    }
  }

  /**
   * Replacing one group's entries changes the tree's entries by exactly the entries
   * removed and added there.
   */
  lemma {:induction false} WithDataEntries(node: TreeNode, path: seq<nat>, data: seq<PasswordEntry>)
    requires ValidPath(node, path)
    ensures multiset(Entries(WithData(node, path, data))) + multiset(At(node, path).data)
      == multiset(Entries(node)) + multiset(data)
    decreases path
  {
    if path != [] {
      var i := path[0];
      WithDataEntries(node.children[i], path[1..], data);
      var child := WithData(node.children[i], path[1..], data);
      ChildrenEntriesUpdate(node.children, i, child);
      var r := node.(children := node.children[i := child]);
      assert WithData(node, path, data) == r;
      assert At(node, path) == At(node.children[i], path[1..]);
      assert Entries(r) == node.data + ChildrenEntries(node.children[i := child]);
      ShiftExchange(multiset(node.data), multiset(ChildrenEntries(node.children[i := child])), multiset(Entries(node.children[i])),
        multiset(ChildrenEntries(node.children)), multiset(Entries(child)));
      ChainExchange(multiset(Entries(r)), multiset(Entries(node.children[i])), multiset(Entries(node)),
        multiset(Entries(child)), multiset(At(node, path).data), multiset(data));
    }
  }

  /** One iteration of `deleteEntry`'s removal: `findRow`, `findIndex`, `splice(idx, 1)`. */
  function RemoveEntry(root: TreeNode, id: string): Option<TreeNode>
  {
    FindRowSound(root, id);
    match FindRowSpec(root, id)
    case None => None
    case Some(p) =>
      var data := At(root, p).data;
      Some(WithData(root, p, Splice1(data, IndexOfId(data, id))))
  }

  /** `deleteEntry`'s loop: the removals in order, failing at the first id in no group. */
  function RemoveAll(root: TreeNode, ids: seq<string>): Option<TreeNode>
    decreases |ids|
  {
    if ids == [] then Some(root)
    else match RemoveEntry(root, ids[0])
      case None => None
      case Some(t) => RemoveAll(t, ids[1..])
  }

  lemma CancelExchange<T>(a: multiset<T>, u: multiset<T>, e: multiset<T>, b: multiset<T>)
    requires a + (u + e) == b + u
    ensures a + e == b
  {
    forall t
      ensures (a + e)[t] == b[t]
    {
      assert (a + (u + e))[t] == (b + u)[t];
    }
  }

  /** `splice(idx, 1)` on a non-empty array takes out exactly the element at `idx`, or the last. */
  lemma SpliceOne<T>(data: seq<T>, idx: int)
    requires data != [] && -1 <= idx < |data|
    ensures var k := if idx >= 0 then idx else |data| - 1;
      multiset(data) == multiset(Splice1(data, idx)) + multiset{data[k]}
  {
    var k := if idx >= 0 then idx else |data| - 1;
    assert data == data[..k] + [data[k]] + data[k + 1..];
  }

  /** `splice(idx, 1)` on a non-empty group removes exactly one entry from the tree. */
  lemma SpliceEntries(root: TreeNode, path: seq<nat>, idx: int)
    requires ValidPath(root, path) && At(root, path).data != [] && -1 <= idx < |At(root, path).data|
    ensures var data := At(root, path).data;
      var k := if idx >= 0 then idx else |data| - 1;
      multiset(Entries(WithData(root, path, Splice1(data, idx)))) + multiset{data[k]} == multiset(Entries(root))
  {
    var data := At(root, path).data;
    var updated := Splice1(data, idx);
    var k := if idx >= 0 then idx else |data| - 1;
    SpliceOne(data, idx);
    WithDataEntries(root, path, updated);
    CancelExchange(multiset(Entries(WithData(root, path, updated))), multiset(updated), multiset{data[k]}, multiset(Entries(root)));
  }

  /**
   * A removal succeeds for every id held in the tree, adds no entry, and for a
   * non-empty id takes out exactly one entry carrying that id.
   */
  lemma RemoveEntryDropsOne(root: TreeNode, id: string)
    ensures id != "" && id in TreeIds(root) ==> RemoveEntry(root, id).Some?
    ensures RemoveEntry(root, id).Some? ==>
      multiset(Entries(RemoveEntry(root, id).value)) <= multiset(Entries(root))
    ensures RemoveEntry(root, id).Some? && id != "" ==>
      exists e: PasswordEntry :: e.id == id &&
        multiset(Entries(RemoveEntry(root, id).value)) + multiset{e} == multiset(Entries(root))
  {
    if id != "" && id in TreeIds(root) {
      FindRowComplete(root, id);
    }
    FindRowSound(root, id);
    match FindRowSpec(root, id)
    case None =>
    case Some(p) =>
      var data := At(root, p).data;
      var idx := IndexOfId(data, id);
      var before, after := multiset(Entries(root)), multiset(Entries(WithData(root, p, Splice1(data, idx))));
      assert RemoveEntry(root, id).value == WithData(root, p, Splice1(data, idx));
      if data != [] {
        SpliceEntries(root, p, idx);
        var k := if idx >= 0 then idx else |data| - 1;
        assert after + multiset{data[k]} == before;
        AddOneGrows(after, data[k], before);
        if id != "" {
          assert data[k].id == id;
        }
      } else {
        WithDataEntries(root, p, data);
        assert after == before;
      }
  }

  lemma AddOneGrows<T>(a: multiset<T>, e: T, b: multiset<T>)
    requires a + multiset{e} == b
    ensures a <= b
  {
  }

  /**
   * Deleting a list of ids adds no entry, and when every id is non-empty the tree
   * loses exactly one entry per id.
   */
  lemma {:induction false} RemoveAllCount(root: TreeNode, ids: seq<string>)
    requires RemoveAll(root, ids).Some?
    ensures multiset(Entries(RemoveAll(root, ids).value)) <= multiset(Entries(root))
    ensures (forall j :: 0 <= j < |ids| ==> ids[j] != "") ==>
      |Entries(RemoveAll(root, ids).value)| + |ids| == |Entries(root)|
    decreases |ids|
  {
    if ids != [] {
      var t := RemoveEntry(root, ids[0]).value;
      assert RemoveAll(root, ids) == RemoveAll(t, ids[1..]);
      RemoveEntryDropsOne(root, ids[0]);
      RemoveAllCount(t, ids[1..]);
      if ids[0] != "" {
        var e: PasswordEntry :| multiset(Entries(t)) + multiset{e} == multiset(Entries(root));
        assert |Entries(t)| + 1 == |Entries(root)| by {
          assert |multiset(Entries(t))| + 1 == |multiset(Entries(root))|;
        }
      }
    }
  }

  /** Removing the ids of `a + b` is removing those of `a`, then those of `b` from what is left. */
  lemma {:induction false} RemoveAllAppend(root: TreeNode, a: seq<string>, b: seq<string>)
    ensures RemoveAll(root, a).None? ==> RemoveAll(root, a + b).None?
    ensures RemoveAll(root, a).Some? ==> RemoveAll(root, a + b) == RemoveAll(RemoveAll(root, a).value, b)
    decreases |a|
  {
    if a != [] {
      assert (a + b)[0] == a[0] && (a + b)[1..] == a[1..] + b;
      match RemoveEntry(root, a[0])
      case None =>
      case Some(t) => RemoveAllAppend(t, a[1..], b);
    } else {
      assert a + b == b;
    }
  }

  /** One more removal extends the tree after the first `k` ids of `deleteEntry`'s loop to the first `k + 1`. */
  lemma RemovePrefixStep(start: TreeNode, ids: seq<string>, k: nat, root: TreeNode)
    requires k < |ids| && RemoveAll(start, ids[..k]) == Some(root)
    requires RemoveEntry(root, ids[k]).Some?
    ensures RemoveAll(start, ids[..k + 1]) == RemoveEntry(root, ids[k])
  {
    var t := RemoveEntry(root, ids[k]).value;
    assert RemoveAll(root, [ids[k]]) == Some(t) by {
      RemoveAllFirst(root, [ids[k]]);
      assert [ids[k]][1..] == [];
    }
    calc {
      RemoveAll(start, ids[..k + 1]);
      { TakeOneMore(ids, k); }
      RemoveAll(start, ids[..k] + [ids[k]]);
      { RemoveAllAppend(start, ids[..k], [ids[k]]); }
      RemoveAll(root, [ids[k]]);
    }
  }

  /** After a successful first removal, the rest continue from its tree. */
  lemma RemoveAllFirst(root: TreeNode, ids: seq<string>)
    requires ids != [] && RemoveEntry(root, ids[0]).Some?
    ensures RemoveAll(root, ids) == RemoveAll(RemoveEntry(root, ids[0]).value, ids[1..])
  {
  }

  /** When the first id is in no group, the removals fail. */
  lemma RemoveAllMissing(root: TreeNode, ids: seq<string>)
    requires ids != [] && FindRowSpec(root, ids[0]).None?
    ensures RemoveAll(root, ids).None?
  {
  }

  /** The chain from a group up through its `parent` links. */
  datatype Ancestry = Top(name: string) | Below(name: string, parent: Ancestry)

  /** The labels from the top group down to this one. */
  function LabelsFromTop(a: Ancestry): (r: seq<string>)
    ensures |r| >= 1 && r[|r| - 1] == a.name
  {
    match a
    case Top(l) => [l]
    case Below(l, p) => LabelsFromTop(p) + [l]
  }

  /** `buildPath`: pushes the group's label, then its parent's, up to the top. */
  method BuildPath(node: Ancestry, path: seq<string>) returns (path': seq<string>)
    ensures path' == path + Reverse(LabelsFromTop(node))
    decreases node
  {
    path' := path + [node.name];
    if node.Below? {
      path' := BuildPath(node.parent, path');
      assert Reverse(LabelsFromTop(node)) == [node.name] + Reverse(LabelsFromTop(node.parent));
    }
  }

  /** The group heading of a search result: `path.reverse().join('/')`. */
  method GroupPathName(node: Ancestry) returns (name: string)
    ensures name == Join(LabelsFromTop(node), "/")
  {
    var path := BuildPath(node, []);
    assert path == Reverse(LabelsFromTop(node));
    ReverseTwice(LabelsFromTop(node));
    name := Join(Reverse(path), "/");
  }

  lemma ReverseTwice<T>(s: seq<T>)
    ensures Reverse(Reverse(s)) == s
  {
  }

  /** A sorted coherent selection that misses the first entry sits at increasing positions from 1. */
  lemma UpPositions(data: seq<PasswordEntry>, sorted: seq<PasswordEntry>)
    requires Sorted(sorted, ByIndexAscending(data)) && Coherent(data, sorted)
    requires data != [] && data[0].id !in Ids(sorted)
    ensures UpOrdered(Positions(data, sorted))
  {
    AscendingPositions(data, sorted);
  }

  /** The mirror of `UpPositions` for `moveDown`: decreasing positions below the last. */
  lemma DownPositions(data: seq<PasswordEntry>, sorted: seq<PasswordEntry>)
    requires Sorted(sorted, ByIndexDescending(data)) && Coherent(data, sorted)
    requires data != [] && data[|data| - 1].id !in Ids(sorted)
    ensures DownOrdered(Positions(data, sorted), |data|)
  {
    DescendingPositions(data, sorted);
  }

  /** The selection `moveUp` sorts, when coherent and without the first entry, is ready for the loop. */
  lemma UpReady(data: seq<PasswordEntry>, sel: seq<PasswordEntry>)
    requires var sorted := Sort(sel, ByIndexAscending(data));
      data != [] && data[0].id !in Ids(sorted) && Coherent(data, sorted)
    ensures var sorted := Sort(sel, ByIndexAscending(data));
      UpReadyAt(data, sorted, Positions(data, sorted))
  {
    var sorted := Sort(sel, ByIndexAscending(data));
    ByIndexPreorders(data);
    SortSorted(sel, ByIndexAscending(data));
    UpPositions(data, sorted);
  }

  /** The mirror of `UpReady` for `moveDown`. */
  lemma DownReady(data: seq<PasswordEntry>, sel: seq<PasswordEntry>)
    requires var sorted := Sort(sel, ByIndexDescending(data));
      data != [] && data[|data| - 1].id !in Ids(sorted) && Coherent(data, sorted)
    ensures var sorted := Sort(sel, ByIndexDescending(data));
      DownReadyAt(data, sorted, Positions(data, sorted))
  {
    var sorted := Sort(sel, ByIndexDescending(data));
    ByIndexPreorders(data);
    SortSorted(sel, ByIndexDescending(data));
    DownPositions(data, sorted);
  }

  /** The positions of a sorted selection: all from 1 and increasing. */
  predicate UpOrdered(pos: seq<int>)
  {
    (forall j :: 0 <= j < |pos| ==> 1 <= pos[j]) && (forall i, j :: 0 <= i < j < |pos| ==> pos[i] < pos[j])
  }

  /** The positions of a selection sorted for `moveDown`: all below the last and decreasing. */
  predicate DownOrdered(pos: seq<int>, n: nat)
  {
    (forall j :: 0 <= j < |pos| ==> 0 <= pos[j] < n - 1) && (forall i, j :: 0 <= i < j < |pos| ==> pos[i] > pos[j])
  }

  /**
   * The facts `moveUp`'s loop relies on: the group's ids are unique, and `pos` holds
   * where each entry of `sorted` sits in the group, all from 1 and increasing.
   */
  predicate UpReadyAt(data: seq<PasswordEntry>, sorted: seq<PasswordEntry>, pos: seq<int>)
  {
    && |pos| == |sorted| && NoDups(Ids(data)) && UpOrdered(pos)
    && forall j :: 0 <= j < |pos| ==> 0 <= pos[j] < |data| && data[pos[j]].id == sorted[j].id
  }

  /** The mirror of `UpReadyAt` for `moveDown`: positions below the last and decreasing. */
  predicate DownReadyAt(data: seq<PasswordEntry>, sorted: seq<PasswordEntry>, pos: seq<int>)
  {
    && |pos| == |sorted| && NoDups(Ids(data)) && DownOrdered(pos, |data|)
    && forall j :: 0 <= j < |pos| ==> 0 <= pos[j] < |data| && data[pos[j]].id == sorted[j].id
  }

  /** After `k` iterations of `moveUp`'s loop: the first `k` entries moved up one, the rest in place. */
  predicate UpProgress(g: seq<PasswordEntry>, sorted: seq<PasswordEntry>, pos: seq<int>, k: nat)
    requires |pos| == |sorted| && k <= |sorted|
  {
    && NoDups(Ids(g))
    && (forall j :: 0 <= j < |sorted| ==> 1 <= pos[j] < |g|)
    && (forall j :: 0 <= j < k ==> g[pos[j] - 1].id == sorted[j].id)
    && (forall j :: k <= j < |sorted| ==> g[pos[j]].id == sorted[j].id)
  }

  /**
   * One iteration of `moveUp`'s loop: the entry is still where it started, and swapping
   * it with its upper neighbour keeps the earlier moves and the later entries in place.
   */
  lemma UpStep(g: seq<PasswordEntry>, sorted: seq<PasswordEntry>, pos: seq<int>, k: nat)
    requires |pos| == |sorted| && k < |sorted| && UpOrdered(pos)
    requires UpProgress(g, sorted, pos, k)
    ensures 1 <= pos[k] < |g| && IndexOfId(g, sorted[k].id) == pos[k]
    ensures UpProgress(Swap(g, pos[k] - 1, pos[k]), sorted, pos, k + 1)
    ensures Unselected(Swap(g, pos[k] - 1, pos[k]), IdSet(sorted)) == Unselected(g, IdSet(sorted))
  {
    var i := pos[k];
    assert Ids(g)[i] == sorted[k].id;
    FindIndexUnique(Ids(g), i);
    SwapKeepsUniqueIds(g, i - 1, i);
    assert Unselected(Swap(g, i - 1, i), IdSet(sorted)) == Unselected(g, IdSet(sorted)) by {
      assert g[i].id in IdSet(sorted);
      forall j | 0 <= j < |sorted|
        ensures sorted[j].id != g[i - 1].id
      {
        var p := if j < k then pos[j] - 1 else pos[j];
        assert Ids(g)[p] != Ids(g)[i - 1];
      }
      SwapKeepsUnselected(g, i - 1, IdSet(sorted));
    }
    var h := Swap(g, i - 1, i);
    forall j | 0 <= j < k + 1
      ensures h[pos[j] - 1].id == sorted[j].id
    {
      if j < k {
        assert pos[j] < i;
        assert h[pos[j] - 1] == g[pos[j] - 1];
      } else {
        assert h[i - 1] == g[i];
      }
    }
    forall j | k + 1 <= j < |sorted|
      ensures h[pos[j]].id == sorted[j].id
    {
      assert i < pos[j];
    }
  }

  /** After `k` iterations of `moveDown`'s loop: the first `k` entries moved down one, the rest in place. */
  predicate DownProgress(g: seq<PasswordEntry>, sorted: seq<PasswordEntry>, pos: seq<int>, k: nat)
    requires |pos| == |sorted| && k <= |sorted|
  {
    && NoDups(Ids(g))
    && (forall j :: 0 <= j < |sorted| ==> 0 <= pos[j] < |g| - 1)
    && (forall j :: 0 <= j < k ==> g[pos[j] + 1].id == sorted[j].id)
    && (forall j :: k <= j < |sorted| ==> g[pos[j]].id == sorted[j].id)
  }

  /** One iteration of `moveDown`'s loop, the mirror of `UpStep`. */
  lemma DownStep(g: seq<PasswordEntry>, sorted: seq<PasswordEntry>, pos: seq<int>, k: nat)
    requires |pos| == |sorted| && k < |sorted| && DownOrdered(pos, |g|)
    requires DownProgress(g, sorted, pos, k)
    ensures 0 <= pos[k] < |g| - 1 && IndexOfId(g, sorted[k].id) == pos[k]
    ensures DownProgress(Swap(g, pos[k], pos[k] + 1), sorted, pos, k + 1)
    ensures Unselected(Swap(g, pos[k], pos[k] + 1), IdSet(sorted)) == Unselected(g, IdSet(sorted))
  {
    var i := pos[k];
    assert Ids(g)[i] == sorted[k].id;
    FindIndexUnique(Ids(g), i);
    SwapKeepsUniqueIds(g, i, i + 1);
    assert g[i].id in IdSet(sorted);
    forall j | 0 <= j < |sorted|
      ensures sorted[j].id != g[i + 1].id
    {
      var p := if j < k then pos[j] + 1 else pos[j];
      assert Ids(g)[p] != Ids(g)[i + 1];
    }
    SwapKeepsUnselected(g, i, IdSet(sorted));
    var h := Swap(g, i, i + 1);
    forall j | 0 <= j < k + 1
      ensures h[pos[j] + 1].id == sorted[j].id
    {
      if j < k {
        assert pos[j] > i;
        assert h[pos[j] + 1] == g[pos[j] + 1];
      } else {
        assert h[i + 1] == g[i];
      }
    }
    forall j | k + 1 <= j < |sorted|
      ensures h[pos[j]].id == sorted[j].id
    {
      assert i > pos[j];
    }
  }

  /**
   * The `forEach` loop of `moveUp`: swaps each entry of the sorted selection with the
   * entry above it. An entry already at index 0 makes the source write `undefined`
   * there; the loop stops with an error instead. `pos` names the positions the entries
   * start from, for the contract only.
   */
  method SwapEachUp(data: seq<PasswordEntry>, sorted: seq<PasswordEntry>, ghost pos: seq<int>)
    returns (r: Result<(), string>, g: seq<PasswordEntry>)
    ensures |g| == |data| && multiset(g) == multiset(data)
    ensures UpReadyAt(data, sorted, pos) ==>
      && r.Ok?
      && (forall k :: 0 <= k < |sorted| ==> 1 <= pos[k] < |g| && g[pos[k] - 1].id == sorted[k].id)
      && Unselected(g, IdSet(sorted)) == Unselected(data, IdSet(sorted))
  {
    g := data;
    ghost var ready := UpReadyAt(data, sorted, pos);
    var k := 0;
    while k < |sorted|
      invariant 0 <= k <= |sorted|
      invariant multiset(g) == multiset(data) && |g| == |data|
      invariant ready ==> UpProgress(g, sorted, pos, k)
      invariant ready ==> Unselected(g, IdSet(sorted)) == Unselected(data, IdSet(sorted))
    {
      var elIdx := IndexOfId(g, sorted[k].id);
      if ready {
        UpStep(g, sorted, pos, k);
      }
      if elIdx == 0 {
        assert !ready;
        return Err("moving the first entry up writes undefined into index 0"), g;
      } else if elIdx > 0 {
        g := Swap(g, elIdx - 1, elIdx);
      }
      k := k + 1;
    }
    r := Ok(());
  }

  /**
   * The `forEach` loop of `moveDown`: swaps each entry of the sorted selection with the
   * entry below it. An entry that is missing or already last makes the source write
   * `undefined` into the group; the loop stops with an error instead.
   */
  method SwapEachDown(data: seq<PasswordEntry>, sorted: seq<PasswordEntry>, ghost pos: seq<int>)
    returns (r: Result<(), string>, g: seq<PasswordEntry>)
    ensures |g| == |data| && multiset(g) == multiset(data)
    ensures DownReadyAt(data, sorted, pos) ==>
      && r.Ok?
      && (forall k :: 0 <= k < |sorted| ==> 0 <= pos[k] < |g| - 1 && g[pos[k] + 1].id == sorted[k].id)
      && Unselected(g, IdSet(sorted)) == Unselected(data, IdSet(sorted))
  {
    g := data;
    ghost var ready := DownReadyAt(data, sorted, pos);
    var k := 0;
    while k < |sorted|
      invariant 0 <= k <= |sorted|
      invariant multiset(g) == multiset(data) && |g| == |data|
      invariant ready ==> DownProgress(g, sorted, pos, k)
      invariant ready ==> Unselected(g, IdSet(sorted)) == Unselected(data, IdSet(sorted))
    {
      var elIdx := IndexOfId(g, sorted[k].id);
      if ready {
        DownStep(g, sorted, pos, k);
      }
      if elIdx == -1 || elIdx == |g| - 1 {
        assert !ready;
        return Err("moving past either end writes undefined into the group"), g;
      }
      g := Swap(g, elIdx, elIdx + 1);
      k := k + 1;
    }
    r := Ok(());
  }

  /** The positions `SwapEachUp` speaks of are those `findIndex` answers in the group. */
  lemma UpLink(data: seq<PasswordEntry>, sorted: seq<PasswordEntry>, pos: seq<int>, g: seq<PasswordEntry>)
    requires pos == Positions(data, sorted)
    requires forall k :: 0 <= k < |sorted| ==> 1 <= pos[k] < |g| && g[pos[k] - 1].id == sorted[k].id
    ensures forall k :: 0 <= k < |sorted| ==>
      var at := IndexOfId(data, sorted[k].id);
      1 <= at < |g| && g[at - 1].id == sorted[k].id
  {
  }

  /** The mirror of `UpLink` for `SwapEachDown`. */
  lemma DownLink(data: seq<PasswordEntry>, sorted: seq<PasswordEntry>, pos: seq<int>, g: seq<PasswordEntry>)
    requires pos == Positions(data, sorted)
    requires forall k :: 0 <= k < |sorted| ==> 0 <= pos[k] < |g| - 1 && g[pos[k] + 1].id == sorted[k].id
    ensures forall k :: 0 <= k < |sorted| ==>
      var at := IndexOfId(data, sorted[k].id);
      0 <= at && at + 1 < |g| && g[at + 1].id == sorted[k].id
  {
  }

  lemma UnselectedNone(data: seq<PasswordEntry>)
    ensures Unselected(data, {}) == data
  {
  }

  /**
   * What `moveUp` promises for a group `data` and its sorted selection: an empty group
   * stays as it was, and is an error unless nothing is selected; a selection holding the first entry leaves the
   * group alone; the group keeps its entries; and for a coherent selection every
   * selected entry ends one place above where it was, while the unselected entries
   * keep their order.
   */
  predicate MovedUp(data: seq<PasswordEntry>, sorted: seq<PasswordEntry>, r: Result<(), string>, g: seq<PasswordEntry>)
  {
    && (data == [] && sorted != [] ==> r.Err? && g == data)
    && (data == [] && sorted == [] ==> r.Ok? && g == data)
    && (data != [] && data[0].id in Ids(sorted) ==> r.Ok? && g == data)
    && |g| == |data| && multiset(g) == multiset(data)
    && (data != [] && Coherent(data, sorted) ==> r.Ok?)
    && (data != [] && data[0].id !in Ids(sorted) && Coherent(data, sorted) ==>
      && (forall k :: 0 <= k < |sorted| ==>
            var at := IndexOfId(data, sorted[k].id);
            1 <= at < |g| && g[at - 1].id == sorted[k].id)
      && Unselected(g, IdSet(sorted)) == Unselected(data, IdSet(sorted)))
  }

  /** The mirror of `MovedUp` for `moveDown`: every selected entry ends one place below. */
  predicate MovedDown(data: seq<PasswordEntry>, sorted: seq<PasswordEntry>, r: Result<(), string>, g: seq<PasswordEntry>)
  {
    && (data == [] && sorted != [] ==> r.Err? && g == data)
    && (data == [] && sorted == [] ==> r.Ok? && g == data)
    && (data != [] && data[|data| - 1].id in Ids(sorted) ==> r.Ok? && g == data)
    && |g| == |data| && multiset(g) == multiset(data)
    && (data != [] && Coherent(data, sorted) ==> r.Ok?)
    && (data != [] && data[|data| - 1].id !in Ids(sorted) && Coherent(data, sorted) ==>
      && (forall k :: 0 <= k < |sorted| ==>
            var at := IndexOfId(data, sorted[k].id);
            0 <= at && at + 1 < |g| && g[at + 1].id == sorted[k].id)
      && Unselected(g, IdSet(sorted)) == Unselected(data, IdSet(sorted)))
  }

  /**
   * `moveUp`: sorts the selection by position in the group, stops when the group's
   * first entry is selected, and otherwise swaps each selected entry with the entry
   * above it. With an empty group, `find` calls its callback, and so throws on
   * `groupData[0].id`, only when something is selected.
   */
  method ShiftUp(data: seq<PasswordEntry>, selection: seq<PasswordEntry>)
    returns (r: Result<(), string>, sorted: seq<PasswordEntry>, g: seq<PasswordEntry>)
    ensures sorted == Sort(selection, ByIndexAscending(data))
    ensures MovedUp(data, sorted, r, g)
  {
    sorted := Sort(selection, ByIndexAscending(data));
    if data == [] && sorted == [] {
      r, g := Ok(()), data;
    } else if data == [] {
      r, g := Err("Cannot read properties of undefined (reading 'id')"), data;
    } else if data[0].id in Ids(sorted) {
      r, g := Ok(()), data;
    } else {
      if Coherent(data, sorted) {
        UpReady(data, selection);
      }
      ghost var pos := Positions(data, sorted);
      r, g := SwapEachUp(data, sorted, pos);
      if Coherent(data, sorted) {
        UpLink(data, sorted, pos, g);
      }
    }
  }

  /**
   * `moveDown`: sorts the selection by descending position, stops when the group's
   * last entry is selected, and otherwise swaps each selected entry with the entry
   * below it.
   */
  method ShiftDown(data: seq<PasswordEntry>, selection: seq<PasswordEntry>)
    returns (r: Result<(), string>, sorted: seq<PasswordEntry>, g: seq<PasswordEntry>)
    ensures sorted == Sort(selection, ByIndexDescending(data))
    ensures MovedDown(data, sorted, r, g)
  {
    sorted := Sort(selection, ByIndexDescending(data));
    if data == [] && sorted == [] {
      r, g := Ok(()), data;
    } else if data == [] {
      r, g := Err("Cannot read properties of undefined (reading 'id')"), data;
    } else if data[|data| - 1].id in Ids(sorted) {
      r, g := Ok(()), data;
    } else {
      if Coherent(data, sorted) {
        DownReady(data, selection);
      }
      ghost var pos := Positions(data, sorted);
      r, g := SwapEachDown(data, sorted, pos);
      if Coherent(data, sorted) {
        DownLink(data, sorted, pos, g);
      }
    }
  }

  /** Before any move the group is unchanged, whichever end the entries go to. */
  lemma MovesStart(data: seq<PasswordEntry>, sel: seq<PasswordEntry>)
    ensures Reverse(sel[..0]) + Unselected(data, IdSet(sel[..0])) == data
    ensures Unselected(data, IdSet(sel[..0])) + sel[..0] == data
  {
    assert sel[..0] == [];
    assert IdSet([]) == {};
    UnselectedNone(data);
  }

  /** The group once `moveTop` has spliced out the first `k` selected entries in turn and put each first. */
  function TopMoves(data: seq<PasswordEntry>, sel: seq<PasswordEntry>, k: nat): (g: seq<PasswordEntry>)
    requires k <= |sel|
    ensures |g| <= |data| + k
  {
    if k == 0 then data
    else
      var before := TopMoves(data, sel, k - 1);
      [sel[k - 1]] + Splice1(before, IndexOfId(before, sel[k - 1].id))
  }

  /**
   * For a coherent selection the moves put the selected entries first, the latest
   * moved at the front, followed by the unselected entries in their old order.
   */
  lemma {:induction false} TopMovesOrder(data: seq<PasswordEntry>, sel: seq<PasswordEntry>, k: nat)
    requires Coherent(data, sel) && k <= |sel|
    ensures TopMoves(data, sel, k) == Reverse(sel[..k]) + Unselected(data, IdSet(sel[..k]))
  {
    if k == 0 {
      MovesStart(data, sel);
    } else {
      TopMovesOrder(data, sel, k - 1);
      TopStep(data, sel, k - 1);
    }
  }

  /** Once every selected entry of a coherent selection has moved, the group is the selection in reverse, then the unselected entries. */
  lemma TopMovesAll(data: seq<PasswordEntry>, sel: seq<PasswordEntry>)
    requires Coherent(data, sel)
    ensures TopMoves(data, sel, |sel|) == Reverse(sel) + Unselected(data, IdSet(sel))
  {
    assert sel[..|sel|] == sel;
    TopMovesOrder(data, sel, |sel|);
  }

  /** The group once `moveBottom` has spliced out the first `k` selected entries in turn and put each last. */
  function BottomMoves(data: seq<PasswordEntry>, sel: seq<PasswordEntry>, k: nat): (g: seq<PasswordEntry>)
    requires k <= |sel|
    ensures |g| <= |data| + k
  {
    if k == 0 then data
    else
      var before := BottomMoves(data, sel, k - 1);
      Splice1(before, IndexOfId(before, sel[k - 1].id)) + [sel[k - 1]]
  }

  /**
   * For a coherent selection the moves put the unselected entries first, in their old
   * order, followed by the moved entries in selection order.
   */
  lemma {:induction false} BottomMovesOrder(data: seq<PasswordEntry>, sel: seq<PasswordEntry>, k: nat)
    requires Coherent(data, sel) && k <= |sel|
    ensures BottomMoves(data, sel, k) == Unselected(data, IdSet(sel[..k])) + sel[..k]
  {
    if k == 0 {
      MovesStart(data, sel);
    } else {
      BottomMovesOrder(data, sel, k - 1);
      BottomStep(data, sel, k - 1);
    }
  }

  /** Once every selected entry of a coherent selection has moved, the group is the unselected entries, then the selection. */
  lemma BottomMovesAll(data: seq<PasswordEntry>, sel: seq<PasswordEntry>)
    requires Coherent(data, sel)
    ensures BottomMoves(data, sel, |sel|) == Unselected(data, IdSet(sel)) + sel
  {
    assert sel[..|sel|] == sel;
    BottomMovesOrder(data, sel, |sel|);
  }

  /**
   * `moveTop`: for each selected entry in turn, `splice` it out of the group and
   * `unshift` it. For a coherent selection the group ends as the selection in reverse,
   * followed by the unselected entries in their old order.
   */
  method UnshiftEach(data: seq<PasswordEntry>, sel: seq<PasswordEntry>) returns (g: seq<PasswordEntry>)
    ensures g == TopMoves(data, sel, |sel|)
    ensures Coherent(data, sel) ==> g == Reverse(sel) + Unselected(data, IdSet(sel))
  {
    g := data;
    for k := 0 to |sel|
      invariant g == TopMoves(data, sel, k)
    {
      var element := sel[k];
      var elIdx := IndexOfId(g, element.id);
      g := Splice1(g, elIdx);
      g := [element] + g;
    }
    if Coherent(data, sel) {
      TopMovesAll(data, sel);
    }
  }

  /**
   * `moveBottom`: for each selected entry in turn, `splice` it out of the group and
   * `push` it. For a coherent selection the group ends as the unselected entries in
   * their old order, followed by the selection in its order.
   */
  method PushEach(data: seq<PasswordEntry>, sel: seq<PasswordEntry>) returns (g: seq<PasswordEntry>)
    ensures g == BottomMoves(data, sel, |sel|)
    ensures Coherent(data, sel) ==> g == Unselected(data, IdSet(sel)) + sel
  {
    g := data;
    for k := 0 to |sel|
      invariant g == BottomMoves(data, sel, k)
    {
      var element := sel[k];
      var elIdx := IndexOfId(g, element.id);
      g := Splice1(g, elIdx);
      g := g + [element];
    }
    if Coherent(data, sel) {
      BottomMovesAll(data, sel);
    }
  }

  /** The selected group, the selection and the tree the service works on. */
  class VaultDatabase {
    var root: TreeNode
    var groupData: seq<PasswordEntry>
    var selectedPasswords: seq<PasswordEntry>
    var draggedEntry: seq<PasswordEntry>

    constructor(root: TreeNode, groupData: seq<PasswordEntry>)
      ensures this.root == root && this.groupData == groupData
      ensures selectedPasswords == [] && draggedEntry == []
    {
      this.root := root;
      this.groupData := groupData;
      selectedPasswords := [];
      draggedEntry := [];
    }

    /** `moveUp` on the service's group and selection, as `ShiftUp` states it. */
    method MoveUp() returns (r: Result<(), string>)
      modifies this
      ensures root == old(root) && draggedEntry == old(draggedEntry)
      ensures selectedPasswords == Sort(old(selectedPasswords), ByIndexAscending(old(groupData)))
      ensures MovedUp(old(groupData), selectedPasswords, r, groupData)
    {
      var sorted, g;
      r, sorted, g := ShiftUp(groupData, selectedPasswords);
      selectedPasswords, groupData := sorted, g;
    }

    /** `moveDown` on the service's group and selection, as `ShiftDown` states it. */
    method MoveDown() returns (r: Result<(), string>)
      modifies this
      ensures root == old(root) && draggedEntry == old(draggedEntry)
      ensures selectedPasswords == Sort(old(selectedPasswords), ByIndexDescending(old(groupData)))
      ensures MovedDown(old(groupData), selectedPasswords, r, groupData)
    {
      var sorted, g;
      r, sorted, g := ShiftDown(groupData, selectedPasswords);
      selectedPasswords, groupData := sorted, g;
    }

    /** `moveTop` on the service's group and selection, as `UnshiftEach` states it. */
    method MoveTop()
      modifies this
      ensures root == old(root) && draggedEntry == old(draggedEntry) && selectedPasswords == old(selectedPasswords)
      ensures groupData == TopMoves(old(groupData), selectedPasswords, |selectedPasswords|)
      ensures Coherent(old(groupData), selectedPasswords) ==>
        groupData == Reverse(selectedPasswords) + Unselected(old(groupData), IdSet(selectedPasswords))
    {
      var g := UnshiftEach(groupData, selectedPasswords);
      groupData := g;
    }

    /** `moveBottom` on the service's group and selection, as `PushEach` states it. */
    method MoveBottom()
      modifies this
      ensures root == old(root) && draggedEntry == old(draggedEntry) && selectedPasswords == old(selectedPasswords)
      ensures groupData == BottomMoves(old(groupData), selectedPasswords, |selectedPasswords|)
      ensures Coherent(old(groupData), selectedPasswords) ==>
        groupData == Unselected(old(groupData), IdSet(selectedPasswords)) + selectedPasswords
    {
      var g := PushEach(groupData, selectedPasswords);
      groupData := g;
    }

    /**
     * `deleteEntry`: removes each selected entry (or, with nothing selected, the first
     * dragged entry) from the group `findRow` locates, then clears the selection. An
     * entry that is in no group, or an empty drag, makes the source throw; removals
     * already done stay done.
     */
    method DeleteEntry() returns (r: Result<(), string>)
      modifies this
      ensures groupData == old(groupData) && draggedEntry == old(draggedEntry)
      ensures old(selectedPasswords) == [] && old(draggedEntry) == [] ==>
        r.Err? && root == old(root) && selectedPasswords == old(selectedPasswords)
      ensures old(selectedPasswords) != [] || old(draggedEntry) != [] ==>
        var targets := if old(selectedPasswords) == [] then [old(draggedEntry)[0]] else old(selectedPasswords);
        && (r.Ok? <==> RemoveAll(old(root), Ids(targets)).Some?)
        && (r.Ok? ==> root == RemoveAll(old(root), Ids(targets)).value && selectedPasswords == [])
        && (r.Err? ==> selectedPasswords == old(selectedPasswords))
        && (r.Err? ==>
              exists k :: 0 <= k < |targets| && RemoveAll(old(root), Ids(targets)[..k]) == Some(root)
                                             && FindRowSpec(root, Ids(targets)[k]).None?)
    {
      var targets: seq<PasswordEntry>;
      if |selectedPasswords| == 0 {
        if |draggedEntry| == 0 {
          return Err("Cannot read properties of undefined (reading 'id')");
        }
        targets := [draggedEntry[0]];
      } else {
        targets := selectedPasswords;
      }
      var ok, t := RemoveEach(root, Ids(targets));
      root := t;
      if !ok {
        return Err("Cannot read properties of undefined (reading 'findIndex')");
      }
      selectedPasswords := [];
      return Ok(());
    }

    /**
     * The `forEach` of `deleteEntry` over the ids to remove: `findRow`, `findIndex` and
     * `splice(idx, 1)` for each in turn. When an id is in no group the source throws
     * there; the tree then holds the removals of the ids before it.
     */
    static method RemoveEach(start: TreeNode, ids: seq<string>) returns (ok: bool, root: TreeNode)
      ensures ok <==> RemoveAll(start, ids).Some?
      ensures ok ==> root == RemoveAll(start, ids).value
      ensures !ok ==>
        exists k :: 0 <= k < |ids| && RemoveAll(start, ids[..k]) == Some(root) && FindRowSpec(root, ids[k]).None?
    {
      root := start;
      var k := 0;
      while k < |ids|
        invariant 0 <= k <= |ids|
        invariant RemoveAll(start, ids) == RemoveAll(root, ids[k..])
        invariant RemoveAll(start, ids[..k]) == Some(root)
      {
        var id := ids[k];
        var path := FindRow(root, id);
        if path.None? {
          RemoveAllMissing(root, ids[k..]);
          return false, root;
        }
        FindRowSound(root, id);
        var catalogData := At(root, path.value).data;
        var idx := IndexOfId(catalogData, id);
        ghost var before := root;
        root := WithData(root, path.value, Splice1(catalogData, idx));
        assert RemoveEntry(before, id) == Some(root);
        RemovePrefixStep(start, ids, k, before);
        RemoveAllFirst(before, ids[k..]);
        assert ids[k..][1..] == ids[k + 1..];
        k := k + 1;
      }
      assert ids[..k] == ids;
      return true, root;
    }

    /**
     * `findRow`: with no id the node's own entries; the node when it holds the id;
     * otherwise the children in order until one of them finds it.
     */
    static method FindRow(node: TreeNode, id: string) returns (r: Option<seq<nat>>)
      ensures r == FindRowSpec(node, id)
      decreases node
    {
      if id == "" {
        return Some([]);
      }
      if id in Ids(node.data) {
        return Some([]);
      }
      r := None;
      var i := 0;
      while r == None && i < |node.children|
        invariant 0 <= i <= |node.children|
        invariant r == None ==> FindInChildren(node, id, 0) == FindInChildren(node, id, i)
        invariant r != None ==> r == FindInChildren(node, id, 0)
      {
        var sub := FindRow(node.children[i], id);
        if sub.Some? {
          r := Some([i] + sub.value);
        }
        i := i + 1;
      }
    }
  }
}
