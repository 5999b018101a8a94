/** `TreeSerializer`: turns a forest of named items (part categories, stock
    locations) into the nested node records a tree widget displays, under
    a single root node that carries the view's title. */
module TreeSerializer {
  import opened Wrappers
  import opened Ordering

  /** One item of the tree model: its id, name, URL, the count shown in its
      tag, its parent's id (`None` at the top level) and its children. */
  datatype TreeItem = TreeItem(
    id: int,
    name: string,
    href: string,
    itemCount: int,
    parent: Option<int>,
    children: seq<TreeItem>)

  /** A serialised node: `pk`, `text`, `href`, `tags` and, when present,
      `nodes`. */
  datatype JsonNode = JsonNode(
    pk: Option<int>,
    text: string,
    href: string,
    tags: seq<int>,
    nodes: Option<seq<JsonNode>>)

  /** The body of the GET response: `{'tree': [root]}`. */
  datatype Response = Response(tree: seq<JsonNode>)

  /** Each item's name is not greater than the next one's. */
  predicate SortedByName(s: seq<TreeItem>) {
    forall i :: 0 < i < |s| ==> LexLessEq(s[i - 1].name, s[i].name)
  }

  /** Inserts an item after every leading item whose name is not greater:
      the result is one longer and starts with the item or with the old
      head. */
  function InsertByName(x: TreeItem, s: seq<TreeItem>): (r: seq<TreeItem>)
    ensures |r| == |s| + 1
    ensures r[0] == x || (|s| > 0 && r[0] == s[0])
  {
    if |s| == 0 then [x]
    else if LexLessEq(s[0].name, x.name) then [s[0]] + InsertByName(x, s[1..])
    else [x] + s
  }

  /** Inserting into a sorted sequence keeps it sorted. */
  lemma {:induction false} InsertSorted(x: TreeItem, s: seq<TreeItem>)
    requires SortedByName(s)
    ensures SortedByName(InsertByName(x, s))
  {
    if |s| > 0 {
      if LexLessEq(s[0].name, x.name) {
        InsertSorted(x, s[1..]);
        ConsSorted(s[0], InsertByName(x, s[1..]));
      } else {
        LexTotal(s[0].name, x.name);
        ConsSorted(x, s);
      }
    }
  }

  /** Inserting adds exactly the one item. */
  lemma {:induction false} InsertPerm(x: TreeItem, s: seq<TreeItem>)
    ensures multiset(InsertByName(x, s)) == multiset(s) + multiset{x}
  {
    if |s| > 0 && LexLessEq(s[0].name, x.name) {
      InsertPerm(x, s[1..]);
      assert s == [s[0]] + s[1..];
    }
  }

  /** An item not greater than the head of a sorted sequence can go first. */
  lemma ConsSorted(a: TreeItem, s: seq<TreeItem>)
    requires SortedByName(s)
    requires |s| > 0 ==> LexLessEq(a.name, s[0].name)
    ensures SortedByName([a] + s)
  {
    forall i | 0 < i < |[a] + s|
      ensures LexLessEq(([a] + s)[i - 1].name, ([a] + s)[i].name)
    {
      if i > 1 { assert ([a] + s)[i - 1] == s[i - 2] && ([a] + s)[i] == s[i - 1]; }
    }
  }

  /** `order_by('name')`: an insertion sort of the items by name; items
      with equal names end up in reverse order. */
  function SortByName(s: seq<TreeItem>): (r: seq<TreeItem>)
    ensures SortedByName(r)
    ensures multiset(r) == multiset(s)
  {
    if |s| == 0 then []
    else
      assert s == [s[0]] + s[1..];
      var rest := SortByName(s[1..]);
      InsertSorted(s[0], rest);
      InsertPerm(s[0], rest);
      InsertByName(s[0], rest)
  }

  /** `itemToJson`: the item's own fields, and a `nodes` list holding its
      children, serialised the same way, in name order; an item without
      children has no `nodes` entry. */
  function ItemToJson(item: TreeItem): (r: JsonNode)
    decreases item, 1
  {
    var sorted := SortByName(item.children);
    assert forall c :: c in sorted ==> c in multiset(item.children);
    JsonNode(Some(item.id), item.name, item.href, [item.itemCount],
      if |item.children| > 0 then Some(ChildrenToJson(item, sorted)) else None)
  }

  /** The serialised children of `parent`, in the order given. */
  function ChildrenToJson(ghost parent: TreeItem, items: seq<TreeItem>): (r: seq<JsonNode>)
    requires forall c :: c in items ==> c in parent.children
    ensures |r| == |items|
    decreases parent, 0, |items|
  {
    if |items| == 0 then []
    else
      assert items[0] in parent.children;
      [ItemToJson(items[0])] + ChildrenToJson(parent, items[1..])
  }

  lemma {:induction false} ChildrenToJsonAt(parent: TreeItem, items: seq<TreeItem>, i: int)
    requires forall c :: c in items ==> c in parent.children
    requires 0 <= i < |items|
    ensures ChildrenToJson(parent, items)[i] == ItemToJson(items[i])
    decreases |items|
  {
    if i > 0 {
      ChildrenToJsonAt(parent, items[1..], i - 1);
    }
  }

  /** Each serialised node carries its item's id, name, URL and count; it
      has `nodes` exactly when the item has children, one node per child,
      in ascending name order. */
  lemma ItemToJsonFields(item: TreeItem)
    ensures var r := ItemToJson(item);
      && r.pk == Some(item.id) && r.text == item.name && r.href == item.href
      && r.tags == [item.itemCount]
      && (r.nodes.Some? <==> |item.children| > 0)
      && (r.nodes.Some? ==>
            && |r.nodes.value| == |item.children|
            && forall i :: 0 < i < |r.nodes.value| ==>
                 LexLessEq(r.nodes.value[i - 1].text, r.nodes.value[i].text))
  {
    var r := ItemToJson(item);
    var sorted := SortByName(item.children);
    assert forall c :: c in sorted ==> c in multiset(item.children);
    if r.nodes.Some? {
      forall i | 0 < i < |r.nodes.value|
        ensures LexLessEq(r.nodes.value[i - 1].text, r.nodes.value[i].text)
      {
        ChildrenToJsonAt(item, sorted, i - 1);
        ChildrenToJsonAt(item, sorted, i);
      }
    }
  }

  /** Serialising distributes over concatenation. */
  lemma {:induction false} ChildrenToJsonAppend(parent: TreeItem, a: seq<TreeItem>, b: seq<TreeItem>)
    requires forall c :: c in a + b ==> c in parent.children
    ensures ChildrenToJson(parent, a + b) == ChildrenToJson(parent, a) + ChildrenToJson(parent, b)
    decreases |a|
  {
    if |a| > 0 {
      assert (a + b)[1..] == a[1..] + b;
      ChildrenToJsonAppend(parent, a[1..], b);
    } else {
      assert a + b == b;
    }
  }

  /** Reordering the items reorders their serialisations the same way. */
  lemma {:induction false} ChildrenToJsonPermutation(parent: TreeItem, a: seq<TreeItem>, b: seq<TreeItem>)
    requires forall c :: c in a ==> c in parent.children
    requires forall c :: c in b ==> c in parent.children
    requires multiset(a) == multiset(b)
    ensures multiset(ChildrenToJson(parent, a)) == multiset(ChildrenToJson(parent, b))
    decreases |a|
  {
    if |a| > 0 {
      var x := a[0];
      assert x in multiset(b);
      var k :| 0 <= k < |b| && b[k] == x;
      var rest := b[..k] + b[k + 1..];
      SplitAt(a, b, k);
      assert forall c :: c in rest ==> c in b;
      ChildrenToJsonPermutation(parent, a[1..], rest);
      ChildrenToJsonRemove(parent, b, k);
      assert ChildrenToJson(parent, a) == [ItemToJson(x)] + ChildrenToJson(parent, a[1..]);
    }
  }

  /** The serialisations of a sequence are those of one of its items and
      those of the others. */
  lemma ChildrenToJsonRemove(parent: TreeItem, b: seq<TreeItem>, k: int)
    requires forall c :: c in b ==> c in parent.children
    requires 0 <= k < |b|
    ensures forall c :: c in b[..k] + b[k + 1..] ==> c in parent.children
    ensures multiset(ChildrenToJson(parent, b))
         == multiset{ItemToJson(b[k])} + multiset(ChildrenToJson(parent, b[..k] + b[k + 1..]))
  {
    var left, right := b[..k], b[k + 1..];
    assert b == left + [b[k]] + right;
    assert forall c :: c in left + right ==> c in b;
    ChildrenToJsonAppend(parent, left + [b[k]], right);
    ChildrenToJsonAppend(parent, left, [b[k]]);
    ChildrenToJsonAppend(parent, left, right);
    assert ChildrenToJson(parent, [b[k]]) == [ItemToJson(b[k])];
  }

  lemma SplitAt(a: seq<TreeItem>, b: seq<TreeItem>, k: int)
    requires |a| > 0 && 0 <= k < |b| && b[k] == a[0]
    requires multiset(a) == multiset(b)
    ensures b == b[..k] + [a[0]] + b[k + 1..]
    ensures multiset(a[1..]) == multiset(b[..k] + b[k + 1..])
  {
    assert b == b[..k] + [a[0]] + b[k + 1..];
    assert a == [a[0]] + a[1..];
    assert multiset(a) == multiset{a[0]} + multiset(a[1..]);
    assert multiset(b) == multiset(b[..k]) + multiset{a[0]} + multiset(b[k + 1..]);
    assert multiset(b[..k] + b[k + 1..]) == multiset(b[..k]) + multiset(b[k + 1..]);
    assert multiset(a[1..]) == multiset(a) - multiset{a[0]};
    assert multiset(b) - multiset{a[0]} == multiset(b[..k]) + multiset(b[k + 1..]);
  }

  /** The `nodes` of an item are exactly its children's serialisations,
      each as often as the child occurs. */
  lemma ItemToJsonChildren(item: TreeItem)
    requires |item.children| > 0
    ensures ItemToJson(item).nodes.Some?
    ensures multiset(ItemToJson(item).nodes.value) == multiset(ChildrenToJson(item, item.children))
  {
    var sorted := SortByName(item.children);
    assert forall c :: c in sorted ==> c in multiset(item.children);
    ChildrenToJsonPermutation(item, sorted, item.children);
  }

  /** The items with no parent, in the order given. */
  function TopItems(items: seq<TreeItem>): (r: seq<TreeItem>)
    ensures |r| <= |items|
  {
    if |items| == 0 then []
    else
      var rest := TopItems(items[..|items| - 1]);
      var last := items[|items| - 1];
      if last.parent.None? then rest + [last] else rest
  }

  /** The top-level items are exactly the items without a parent. */
  lemma {:induction false} TopItemsMembership(items: seq<TreeItem>, x: TreeItem)
    ensures x in TopItems(items) <==> x in items && x.parent.None?
  {
    if |items| > 0 {
      var init := items[..|items| - 1];
      TopItemsMembership(init, x);
      assert items == init + [items[|items| - 1]];
    }
  }

  /** Selecting the top level keeps the items' relative order. */
  lemma {:induction false} TopItemsAppend(a: seq<TreeItem>, b: seq<TreeItem>)
    ensures TopItems(a + b) == TopItems(a) + TopItems(b)
    decreases |b|
  {
    if |b| == 0 {
      assert a + b == a;
    } else {
      var init := b[..|b| - 1];
      TopItemsAppend(a, init);
      assert (a + b)[..|a + b| - 1] == a + init;
      assert (a + b)[|a + b| - 1] == b[|b| - 1];
    }
  }

  /** The sum of the items' counts. */
  function CountSum(items: seq<TreeItem>): int {
    if |items| == 0 then 0 else CountSum(items[..|items| - 1]) + items[|items| - 1].itemCount
  }

  /** The serialisations of the items, in order. */
  function Serialize(items: seq<TreeItem>): (r: seq<JsonNode>)
    ensures |r| == |items|
  {
    if |items| == 0 then [] else Serialize(items[..|items| - 1]) + [ItemToJson(items[|items| - 1])]
  }

  lemma {:induction false} SerializeAt(items: seq<TreeItem>, i: int)
    requires 0 <= i < |items|
    ensures Serialize(items)[i] == ItemToJson(items[i])
  {
    if i < |items| - 1 {
      SerializeAt(items[..|items| - 1], i);
    }
  }

  /** The root node built by `generate_tree`. */
  function RootNode(title: string, rootUrl: string, items: seq<TreeItem>): JsonNode {
    var top := TopItems(items);
    JsonNode(None, title, rootUrl, [CountSum(top)], Some(Serialize(top)))
  }

  function TagSum(nodes: seq<JsonNode>): int
    requires forall i :: 0 <= i < |nodes| ==> |nodes[i].tags| == 1
  {
    if |nodes| == 0 then 0 else TagSum(nodes[..|nodes| - 1]) + nodes[|nodes| - 1].tags[0]
  }

  /** The root's tag is the sum of the tags of its child nodes, and each
      child node is the serialisation of one top-level item, in order. */
  lemma {:induction false} RootNodeTags(title: string, rootUrl: string, items: seq<TreeItem>)
    ensures var root := RootNode(title, rootUrl, items);
      var nodes := root.nodes.value;
      && root.pk == None && root.text == title && root.href == rootUrl
      && |nodes| == |TopItems(items)|
      && (forall i :: 0 <= i < |nodes| ==> nodes[i] == ItemToJson(TopItems(items)[i]) && |nodes[i].tags| == 1)
      && root.tags == [TagSum(nodes)]
  {
    var top := TopItems(items);
    var nodes := Serialize(top);
    forall i | 0 <= i < |nodes|
      ensures nodes[i] == ItemToJson(top[i]) && |nodes[i].tags| == 1
    {
      SerializeAt(top, i);
    }
    CountSumTags(top);
  }

  lemma {:induction false} CountSumTags(items: seq<TreeItem>)
    ensures forall i :: 0 <= i < |Serialize(items)| ==> |Serialize(items)[i].tags| == 1
    ensures TagSum(Serialize(items)) == CountSum(items)
  {
    var nodes := Serialize(items);
    forall i | 0 <= i < |nodes| ensures |nodes[i].tags| == 1 {
      SerializeAt(items, i);
    }
    if |items| > 0 {
      var init := items[..|items| - 1];
      CountSumTags(init);
      assert nodes[..|nodes| - 1] == Serialize(init);
    }
  }

  /** One step of the top-level selection. */
  lemma TopItemsStep(items: seq<TreeItem>, i: int)
    requires 0 <= i < |items|
    ensures TopItems(items[..i + 1]) ==
      if items[i].parent.None? then TopItems(items[..i]) + [items[i]] else TopItems(items[..i])
  {
    assert items[..i + 1][..i] == items[..i];
  }

  /** The loop of `generate_tree`: the serialised top-level items and the
      sum of their counts. */
  method TopLevel(items: seq<TreeItem>) returns (nodes: seq<JsonNode>, topCount: int)
    ensures nodes == Serialize(TopItems(items))
    ensures topCount == CountSum(TopItems(items))
  {
    nodes := [];
    topCount := 0;
    ghost var top: seq<TreeItem> := [];
    var i := 0;
    while i < |items|
      invariant 0 <= i <= |items|
      invariant top == TopItems(items[..i])
      invariant nodes == Serialize(top)
      invariant topCount == CountSum(top)
    {
      var item := items[i];
      TopItemsStep(items, i);
      if item.parent.None? {
        assert (top + [item])[..|top|] == top;
        nodes := nodes + [ItemToJson(item)];
        topCount := topCount + item.itemCount;
        top := top + [item];
      }
      i := i + 1;
    }
    assert items[..i] == items;
  }

  class TreeView {
    /** The view's title, shown as the root node's text. */
    const title: string
    /** `root_url`: `'#'` unless a view overrides it. */
    const rootUrl: string
    /** The root node of the last generated tree. */
    var tree: JsonNode

    constructor(title: string)
      ensures this.title == title && rootUrl == "#"
      ensures tree == RootNode(title, "#", [])
    {
      this.title := title;
      rootUrl := "#";
      tree := RootNode(title, "#", []);
    }

    /** `generate_tree`: one pass over the items keeps the top-level ones,
        appending their serialisations and adding up their counts, then
        stores the root node. The items are `get_items()`. */
    method GenerateTree(items: seq<TreeItem>)
      modifies this`tree
      ensures tree == RootNode(title, rootUrl, items)
    {
      var nodes, topCount := TopLevel(items);
      tree := JsonNode(None, title, rootUrl, [topCount], Some(nodes));
    }

    /** `get`: regenerates the tree and answers with it as the one element
        of the `tree` list. */
    method Get(items: seq<TreeItem>) returns (response: Response)
      modifies this`tree
      ensures tree == RootNode(title, rootUrl, items)
      ensures response == Response([tree])
    {
      GenerateTree(items);
      response := Response([tree]);
    }
  }
}
