/** The leaf collector: every string reachable in a parsed document, in traversal
    order, except what lies under an ignored tag or under the attribute key. */
module Collector {
  import opened Document

  /** The strings a node contributes when it is reached as a value: a string is one
      leaf, an array contributes its elements' leaves in index order, an object its
      non-skipped properties' leaves in key order, and any other value nothing. */
  function Leaves(n: Node): seq<string>
    decreases n
  {
    match n
    case Str(s) => [s]
    case Scalar => []
    case Arr(items) => ItemLeaves(items)
    case Obj(fields) => FieldLeaves(fields)
  }

  /** The leaves of a sequence of array elements, in index order. */
  function ItemLeaves(items: seq<Node>): seq<string>
    decreases items
  {
    if items == [] then [] else ItemLeaves(items[..|items| - 1]) + Leaves(items[|items| - 1])
  }

  /** What one object property contributes: nothing when its key is skipped. */
  function FieldContribution(f: Field): seq<string>
  {
    if SkipsKey(f.key) then [] else Leaves(f.value)
  }

  /** The leaves of a sequence of object properties, in key order. */
  function FieldLeaves(fields: seq<Field>): seq<string>
    decreases fields
  {
    if fields == [] then []
    else FieldLeaves(fields[..|fields| - 1]) + FieldContribution(fields[|fields| - 1])
  }

  /** One leaf per character: what `for…in` over a string visits. */
  function CharLeaves(s: string): (r: seq<string>)
    ensures |r| == |s|
    decreases |s|
  {
    if s == [] then [] else CharLeaves(s[..|s| - 1]) + [[s[|s| - 1]]]
  }

  /** What the walk collects from the document root: a root string is enumerated
      character by character, any other root is collected as a value. */
  function Walk(root: Node): seq<string>
  {
    match root
    case Str(s) => CharLeaves(s)
    case _ => Leaves(root)
  }

  /** `getLeaves(node)`, pushing onto the shared `textArray` (here `acc`). */
  method GetLeaves(node: Node, acc: seq<string>) returns (out: seq<string>)
    ensures out == acc + Walk(node)
    decreases node, 2
  {
    match node {
      case Arr(items) =>
        out := GetItemLeaves(node, items, acc);
      case Obj(fields) =>
        out := GetFieldLeaves(node, fields, acc);
      case Str(s) =>
        out := GetCharLeaves(s, acc);
      case Scalar =>
        out := acc;
    }
  }

  /** The array branch of `getLeaves`: visit the indices in order; a string element is
      pushed, anything else is walked. The ignore test on an index key never fires
      (`IndexNeverIgnored`), so it is left out of the loop. */
  method GetItemLeaves(node: Node, items: seq<Node>, acc: seq<string>) returns (out: seq<string>)
    requires node == Arr(items)
    ensures out == acc + ItemLeaves(items)
    decreases node, 1
  {
    out := acc;
    var i := 0;
    while i < |items|
      invariant 0 <= i <= |items|
      invariant out == acc + ItemLeaves(items[..i])
    {
      assert items[..i + 1][..i] == items[..i];
      match items[i] {
        case Str(s) =>
          out := out + [s];
        case _ =>
          out := GetLeaves(items[i], out);
      }
      i := i + 1;
    }
    assert items[..|items|] == items;
  }

  /** The object branch of `getLeaves`: visit the properties in order. */
  method GetFieldLeaves(node: Node, fields: seq<Field>, acc: seq<string>) returns (out: seq<string>)
    requires node == Obj(fields)
    ensures out == acc + FieldLeaves(fields)
    decreases node, 1
  {
    out := acc;
    var i := 0;
    while i < |fields|
      invariant 0 <= i <= |fields|
      invariant out == acc + FieldLeaves(fields[..i])
    {
      assert fields[..i + 1][..i] == fields[..i];
      assert FieldLeaves(fields[..i + 1]) == FieldLeaves(fields[..i]) + FieldContribution(fields[i]);
      out := VisitProperty(node, fields, i, out);
      i := i + 1;
    }
    assert fields[..|fields|] == fields;
  }

  /** One property of the object branch: an ignored tag or the attribute key is skipped, an
      object or array value is walked, a string value is pushed, any other value is passed over. */
  method VisitProperty(node: Node, fields: seq<Field>, i: nat, acc: seq<string>) returns (out: seq<string>)
    requires node == Obj(fields) && i < |fields|
    ensures out == acc + FieldContribution(fields[i])
    decreases node, 0
  {
    var f := fields[i];
    out := acc;
    if !IsIgnoredTag(f.key) && f.key != AttributeKey {
      match f.value {
        case Arr(_) =>
          out := GetLeaves(f.value, out);
        case Obj(_) =>
          out := GetLeaves(f.value, out);
        case Str(s) =>
          out := out + [s];
        case Scalar =>
      }
    }
  }

  /** The object branch of `getLeaves` reached with a string: `for…in` visits its
      character positions, and each one-character value is pushed. */
  method GetCharLeaves(s: string, acc: seq<string>) returns (out: seq<string>)
    ensures out == acc + CharLeaves(s)
  {
    out := acc;
    var i := 0;
    while i < |s|
      invariant 0 <= i <= |s|
      invariant out == acc + CharLeaves(s[..i])
    {
      assert s[..i + 1][..i] == s[..i];
      out := out + [[s[i]]];
      i := i + 1;
    }
    assert s[..|s|] == s;
  }

  /** `processFile`: the text values of one parsed document. A document the parser
      could not produce (undefined) arrives as `Scalar` and yields nothing. */
  method ProcessFile(root: Node) returns (textArray: seq<string>)
    ensures textArray == Walk(root)
    ensures !root.Str? ==> textArray == Leaves(root)
  {
    textArray := GetLeaves(root, []);
  }

  /** `path` leads from `n` through array indices and non-skipped object properties
      (indices into the property list) to the string `s`. */
  ghost predicate LeafAt(n: Node, path: seq<nat>, s: string)
    decreases path
  {
    if path == [] then n == Str(s)
    else match n
      case Arr(items) =>
        path[0] < |items| && LeafAt(items[path[0]], path[1..], s)
      case Obj(fields) =>
        path[0] < |fields| && !SkipsKey(fields[path[0]].key)
        && LeafAt(fields[path[0]].value, path[1..], s)
      case _ => false
  }

  /** The leaves of a run of elements are the leaves of its members. */
  lemma {:induction false} ItemLeavesMember(items: seq<Node>, s: string)
    ensures s in ItemLeaves(items) <==> exists i :: 0 <= i < |items| && s in Leaves(items[i])
    decreases |items|
  {
    if items != [] {
      var init := items[..|items| - 1];
      ItemLeavesMember(init, s);
      assert forall i :: 0 <= i < |init| ==> init[i] == items[i];
    }
  }

  /** The leaves of a run of properties are the leaves of its non-skipped members. */
  lemma {:induction false} FieldLeavesMember(fields: seq<Field>, s: string)
    ensures s in FieldLeaves(fields) <==>
            exists i :: 0 <= i < |fields| && !SkipsKey(fields[i].key) && s in Leaves(fields[i].value)
    decreases |fields|
  {
    if fields != [] {
      var init := fields[..|fields| - 1];
      FieldLeavesMember(init, s);
      assert forall i :: 0 <= i < |init| ==> init[i] == fields[i];
    }
  }

  /** Every string a path reaches is collected. */
  lemma {:induction false} ReachableIsCollected(n: Node, path: seq<nat>, s: string)
    requires LeafAt(n, path, s)
    ensures s in Leaves(n)
    decreases path
  {
    if path != [] {
      var i := path[0];
      match n
      case Arr(items) =>
        ReachableIsCollected(items[i], path[1..], s);
        ItemLeavesMember(items, s);
      case Obj(fields) =>
        ReachableIsCollected(fields[i].value, path[1..], s);
        FieldLeavesMember(fields, s);
    }
  }

  /** Every collected string is reached by some path. */
  lemma {:induction false} CollectedIsReachable(n: Node, s: string)
    requires s in Leaves(n)
    ensures exists path :: LeafAt(n, path, s)
    decreases n
  {
    match n
    case Str(t) =>
      assert LeafAt(n, [], s);
    case Arr(items) =>
      ItemLeavesMember(items, s);
      var i :| 0 <= i < |items| && s in Leaves(items[i]);
      CollectedIsReachable(items[i], s);
      var p :| LeafAt(items[i], p, s);
      assert ([i as nat] + p)[1..] == p;
      assert LeafAt(n, [i as nat] + p, s);
    case Obj(fields) =>
      FieldLeavesMember(fields, s);
      var i :| 0 <= i < |fields| && !SkipsKey(fields[i].key) && s in Leaves(fields[i].value);
      CollectedIsReachable(fields[i].value, s);
      var p :| LeafAt(fields[i].value, p, s);
      assert ([i as nat] + p)[1..] == p;
      assert LeafAt(n, [i as nat] + p, s);
  }

  /** The collector keeps exactly the reachable strings: a string is collected iff a path
      that never passes a skipped key leads to it. */
  lemma LeavesAreReachableStrings(n: Node, s: string)
    ensures s in Leaves(n) <==> exists path :: LeafAt(n, path, s)
  {
    if s in Leaves(n) {
      CollectedIsReachable(n, s);
    }
    forall path | LeafAt(n, path, s) ensures s in Leaves(n) {
      ReachableIsCollected(n, path, s);
    }
  }

  /** Element runs collect piecewise: the leaves of `a + b` are those of `a`, then those of `b`. */
  lemma {:induction false} ItemLeavesAppend(a: seq<Node>, b: seq<Node>)
    ensures ItemLeaves(a + b) == ItemLeaves(a) + ItemLeaves(b)
    decreases |b|
  {
    if b == [] {
      assert a + b == a;
    } else {
      var b' := b[..|b| - 1];
      assert (a + b)[..|a + b| - 1] == a + b';
      ItemLeavesAppend(a, b');
    }
  }

  /** Property runs collect piecewise: the leaves of `a + b` are those of `a`, then those of `b`. */
  lemma {:induction false} FieldLeavesAppend(a: seq<Field>, b: seq<Field>)
    ensures FieldLeaves(a + b) == FieldLeaves(a) + FieldLeaves(b)
    decreases |b|
  {
    if b == [] {
      assert a + b == a;
    } else {
      var b' := b[..|b| - 1];
      assert (a + b)[..|a + b| - 1] == a + b';
      FieldLeavesAppend(a, b');
    }
  }

  /** Whatever sits under an ignored tag or the attribute key, at any position among an
      object's properties, it contributes nothing: the object collects as if the
      property were absent. */
  lemma SkippedPropertyInvisible(before: seq<Field>, f: Field, after: seq<Field>)
    requires SkipsKey(f.key)
    ensures Leaves(Obj(before + [f] + after)) == Leaves(Obj(before + after))
  {
    FieldLeavesAppend(before + [f], after);
    FieldLeavesAppend(before, [f]);
    FieldLeavesAppend(before, after);
    assert FieldLeaves([f]) == FieldLeaves([]) + FieldContribution(f);
  }
}
