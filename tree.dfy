/**
 * The decomposition tree that every generation of `recursive_decompose`
 * returns: a dictionary with a `char`, a `name` (possibly `None`), and
 * optionally a `source`, an `operator`, a `note` and a `children` list.
 *
 * Whether the `children` key is present matters: a node without it is a
 * leaf for `count_leaves` and `collect_leaves`, while a node whose list is
 * empty contributes nothing. `Kids` keeps the two apart.
 */
module Tree {
  import opened Util

  /** The values of the `source` key. */
  datatype Source =
    | Heisig              // "heisig": the entry's own curated components
    | HeisigVariant       // "heisig_variant": the components of the variant's parent
    | HeisigAtomic        // "heisig_atomic": named, not decomposed further
    | RadicalMap          // "radical_map" (scripts/recursive_decompose.py)
    | Mapped              // "mapped" (scripts/archive/recursive_decompose_v2.py)
    | Ids                 // "ids": an operator node of an IDS decomposition
    | Unknown             // "unknown": nothing applies
    | ParseError          // "parse_error": the IDS string parsed to nothing
    | NumberedComponent   // "numbered_component": a `{N}` without expansion

  /** The `children` key: absent, or a list (possibly empty). */
  datatype Kids = NoChildren | Children(list: seq<Node>)

  datatype Node = Node(
    ch: string,
    name: Option<string>,
    source: Option<Source>,
    operator: Option<char>,
    note: Option<string>,
    kids: Kids)

  /** A node without `operator`, `note` or `children`. */
  function Leaf(ch: string, name: Option<string>, source: Option<Source>): (n: Node)
    ensures n.kids.NoChildren? && n.ch == ch && n.name == name && n.source == source
    ensures n.operator.None? && n.note.None?
  {
    Node(ch, name, source, None, None, NoChildren)
  }

  /** The `char` of each node, in order. */
  function Chars(ns: seq<Node>): (r: seq<string>)
    ensures |r| == |ns| && forall i :: 0 <= i < |ns| ==> r[i] == ns[i].ch
  {
    seq(|ns|, i requires 0 <= i < |ns| => ns[i].ch)
  }

  // ---------------------------------------------------------------------
  // Curated components
  // ---------------------------------------------------------------------

  /** The character a component name stands for in the keyword index, or
      "?". */
  function ComponentChar(byKeyword: map<string, string>, compName: string): string {
    if compName in byKeyword && byKeyword[compName] != "" then byKeyword[compName] else "?"
  }

  /** One unrecursed child per curated component name. */
  function ComponentKids(byKeyword: map<string, string>, comps: seq<string>): (r: seq<Node>)
    ensures |r| == |comps|
    ensures forall i :: 0 <= i < |comps| ==> r[i] == Leaf(ComponentChar(byKeyword, comps[i]), Some(comps[i]), None)
  {
    seq(|comps|, i requires 0 <= i < |comps| => Leaf(ComponentChar(byKeyword, comps[i]), Some(comps[i]), None))
  }

  // ---------------------------------------------------------------------
  // count_leaves
  // ---------------------------------------------------------------------

  /** `count_leaves`: (resolved, unresolved) over the nodes without a
      `children` key; a leaf is resolved when its name is truthy. */
  function Counts(n: Node): (r: (nat, nat))
    ensures r.0 + r.1 == |LeafNodes(n)|
    decreases n, 1, 0
  {
    match n.kids
    case NoChildren => if Truthy(n.name) then (1, 0) else (0, 1)
    case Children(list) => CountsFrom(n, 0)
  }

  /** The sums of `Counts` over the children of `n` from index `i` on. */
  function CountsFrom(n: Node, i: nat): (r: (nat, nat))
    requires n.kids.Children? && i <= |n.kids.list|
    ensures r.0 + r.1 == |LeafNodesFrom(n, i)|
    decreases n, 0, |n.kids.list| - i
  {
    if i == |n.kids.list| then (0, 0)
    else
      var a := Counts(n.kids.list[i]);
      var b := CountsFrom(n, i + 1);
      (a.0 + b.0, a.1 + b.1)
  }

  /** The nodes without a `children` key, left to right: the reference
      definition `count_leaves` is checked against. */
  function LeafNodes(n: Node): seq<Node>
    decreases n, 1, 0
  {
    match n.kids
    case NoChildren => [n]
    case Children(list) => LeafNodesFrom(n, 0)
  }

  function LeafNodesFrom(n: Node, i: nat): seq<Node>
    requires n.kids.Children? && i <= |n.kids.list|
    decreases n, 0, |n.kids.list| - i
  {
    if i == |n.kids.list| then [] else LeafNodes(n.kids.list[i]) + LeafNodesFrom(n, i + 1)
  }

  /** How many of `ns` have a truthy name. */
  function NamedCount(ns: seq<Node>): (c: nat)
    ensures c <= |ns|
  {
    if ns == [] then 0 else (if Truthy(ns[0].name) then 1 else 0) + NamedCount(ns[1..])
  }

  lemma {:induction false} NamedCountAppend(a: seq<Node>, b: seq<Node>)
    ensures NamedCount(a + b) == NamedCount(a) + NamedCount(b)
  {
    if a == [] {
      assert a + b == b;
    } else {
      assert (a + b)[1..] == a[1..] + b;
      NamedCountAppend(a[1..], b);
    }
  }

  /** Every leaf is counted exactly once: as resolved when it is named,
      as unresolved otherwise. */
  lemma {:induction false} CountsAreLeaves(n: Node)
    ensures Counts(n).0 == NamedCount(LeafNodes(n))
    ensures Counts(n).0 + Counts(n).1 == |LeafNodes(n)|
    decreases n, 1, 0
  {
    match n.kids
    case NoChildren =>
    case Children(list) => CountsFromAreLeaves(n, 0);
  }

  lemma {:induction false} CountsFromAreLeaves(n: Node, i: nat)
    requires n.kids.Children? && i <= |n.kids.list|
    ensures CountsFrom(n, i).0 == NamedCount(LeafNodesFrom(n, i))
    ensures CountsFrom(n, i).0 + CountsFrom(n, i).1 == |LeafNodesFrom(n, i)|
    decreases n, 0, |n.kids.list| - i
  {
    if i < |n.kids.list| {
      CountsAreLeaves(n.kids.list[i]);
      CountsFromAreLeaves(n, i + 1);
      NamedCountAppend(LeafNodes(n.kids.list[i]), LeafNodesFrom(n, i + 1));
    }
  }

  /** `count_leaves`, which sums the children's counts in a loop. */
  method CountLeaves(n: Node) returns (resolved: nat, unresolved: nat)
    ensures resolved == NamedCount(LeafNodes(n))
    ensures resolved + unresolved == |LeafNodes(n)|
    decreases n
  {
    CountsAreLeaves(n);
    match n.kids {
      case NoChildren =>
        if Truthy(n.name) {
          resolved, unresolved := 1, 0;
        } else {
          resolved, unresolved := 0, 1;
        }
      case Children(list) =>
        resolved, unresolved := 0, 0;
        var i := 0;
        while i < |list|
          invariant 0 <= i <= |list|
          invariant (resolved + CountsFrom(n, i).0, unresolved + CountsFrom(n, i).1) == Counts(n)
        {
          var r, u := CountLeaves(list[i]);
          CountsAreLeaves(list[i]);
          resolved := resolved + r;
          unresolved := unresolved + u;
          i := i + 1;
        }
    }
  }
}
