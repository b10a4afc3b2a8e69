/**
 * The first generation of the decomposer, scripts/recursive_decompose.py.
 *
 * Its strategy order is: the seen/depth guard, the entry's own curated
 * components, any named entry as atomic, a name from the radical map, the
 * first IDS string expanded ONE level, and otherwise unknown. Its parser is
 * the character parser, which drops `{N}` placeholders entirely, and its
 * radical variants are `Bare` (the parent's keyword, no aliases).
 */
module FirstDraft {
  import opened Util
  import opened Ids
  import opened Heisig
  import opened Tree

  /** The tables the script loads. */
  datatype Tables = Tables(
    entries: map<string, Entry>,        // heisig_by_char, with radical variants
    byKeyword: map<string, string>,     // heisig_by_keyword
    ids: map<string, seq<string>>)      // ids_map

  /** Every IDS list holds at least one string, as the loader ensures. */
  predicate WellFormed(t: Tables) {
    IdsListsNonEmpty(t.ids)
  }

  /** The loading steps: characters then primitives indexed by character and,
      in a single pass, by keyword and alias; the 44 radical variants; the IDS
      lines. */
  function Load(es: seq<Entry>, idsLines: seq<string>): (t: Tables)
    ensures WellFormed(t)
  {
    var t := Tables(RadicalVariants(CharIndex(es), FirstRadicals, Bare), SinglePassIndex(es), IdsMap(idsLines));
    forall c | c in t.ids ensures t.ids[c] != [] {
      IdsMapNonEmpty(idsLines, c);
    }
    t
  }

  /** `get_heisig_name`: the first alias, else the keyword. */
  function Name(t: Tables, ch: string): Option<string> {
    EntryName(t.entries, ch)
  }

  /** The leaf that stands for an operator nested inside the first level. */
  function NestedLeaf(): (n: Node)
    ensures n.ch == "?" && n.name.None? && n.source.None? && n.note == Some("nested_ids") && n.kids.NoChildren?
  {
    Node("?", None, None, None, Some("nested_ids"), NoChildren)
  }

  function Lvl(depth: nat, maxDepth: nat): nat {
    if depth > maxDepth then 0 else maxDepth - depth + 1
  }

  /** `recursive_decompose(char, depth, max_depth, seen)`. */
  function Decompose(t: Tables, ch: string, depth: nat, maxDepth: nat, seen: set<string>): (r: Node)
    requires WellFormed(t)
    ensures r.ch == ch
    ensures r.source != Some(RadicalMap)
    ensures r.source == Some(Ids) ==> r.name.None? && r.operator.Some? && r.kids.Children?
    decreases Lvl(depth, maxDepth), 1, 0
  {
    EntryNameSpec(t.entries, ch);
    if ch in seen || depth > maxDepth then Leaf(ch, Name(t, ch), None)
    else
      var inner := seen + {ch};
      var name := Name(t, ch);
      if ch in t.entries && t.entries[ch].components != [] then
        Node(ch, name, Some(Heisig), None, None, Children(ComponentKids(t.byKeyword, t.entries[ch].components)))
      else if Truthy(name) && ch in t.entries then Leaf(ch, name, Some(HeisigAtomic))
      else if Truthy(name) then Leaf(ch, name, Some(RadicalMap))
      else if ch in t.ids then
        var tree := CharParseOf(t.ids[ch][0]);
        if tree.Some? && tree.value.Op? then
          Node(ch, None, Some(Ids), Some(tree.value.op), None,
               Children(DecomposeKids(t, tree.value.kids, depth, maxDepth, inner)))
        else Leaf(ch, None, Some(Unknown))
      else Leaf(ch, None, Some(Unknown))
  }

  /** The loop over the parsed children: a character recurses one level
      deeper, a nested operator becomes `NestedLeaf`, anything else is
      dropped. */
  function DecomposeKids(t: Tables, ks: seq<IdsNode>, depth: nat, maxDepth: nat, seen: set<string>): seq<Node>
    requires WellFormed(t) && depth <= maxDepth
    decreases Lvl(depth, maxDepth), 0, |ks|
  {
    if ks == [] then []
    else
      var init := DecomposeKids(t, ks[..|ks| - 1], depth, maxDepth, seen);
      match ks[|ks| - 1]
      case Lit(c) => init + [Decompose(t, [c], depth + 1, maxDepth, seen)]
      case Op(_, _) => init + [NestedLeaf()]
      case Num(_) => init
  }

  /** `recursive_decompose(char)` with its defaults. */
  function RecursiveDecompose(t: Tables, ch: string): Node
    requires WellFormed(t)
  {
    Decompose(t, ch, 0, 10, {})
  }

  // ---------------------------------------------------------------------
  // The strategy order
  // ---------------------------------------------------------------------

  /** The guard: only the character and its name. */
  lemma DecomposeGuard(t: Tables, ch: string, depth: nat, maxDepth: nat, seen: set<string>)
    requires WellFormed(t) && (ch in seen || depth > maxDepth)
    ensures Decompose(t, ch, depth, maxDepth, seen) == Leaf(ch, Name(t, ch), None)
  {
  }

  /** Curated components first, each an unrecursed named leaf. */
  lemma DecomposeCurated(t: Tables, ch: string, depth: nat, maxDepth: nat, seen: set<string>)
    requires WellFormed(t) && ch !in seen && depth <= maxDepth
    requires ch in t.entries && t.entries[ch].components != []
    ensures var r := Decompose(t, ch, depth, maxDepth, seen);
      r.ch == ch && r.name == Name(t, ch) && r.source == Some(Heisig)
      && r.kids == Children(ComponentKids(t.byKeyword, t.entries[ch].components))
  {
  }

  /** A named entry without components is atomic, even when it has an IDS
      string. */
  lemma DecomposeAtomic(t: Tables, ch: string, depth: nat, maxDepth: nat, seen: set<string>)
    requires WellFormed(t) && ch !in seen && depth <= maxDepth
    requires ch in t.entries && t.entries[ch].components == [] && Truthy(Name(t, ch))
    ensures Decompose(t, ch, depth, maxDepth, seen) == Leaf(ch, Name(t, ch), Some(HeisigAtomic))
  {
  }

  /** The radical-map branch never fires: a name implies an entry, which the
      atomic branch has already taken. */
  lemma RadicalMapUnreachable(t: Tables, ch: string, depth: nat, maxDepth: nat, seen: set<string>)
    requires WellFormed(t)
    ensures Decompose(t, ch, depth, maxDepth, seen).source != Some(RadicalMap)
  {
    EntryNameSpec(t.entries, ch);
  }

  /** An unnamed character whose first IDS string parses to an operator is
      expanded one level: the node keeps the character, is unnamed, and has
      one child per parsed child, a character child decomposed one level
      deeper with this character seen, a nested operator as `NestedLeaf`. */
  lemma DecomposeIdsOneLevel(t: Tables, ch: string, depth: nat, maxDepth: nat, seen: set<string>)
    requires WellFormed(t) && ch !in seen && depth <= maxDepth && !Truthy(Name(t, ch)) && ch in t.ids
    requires !(ch in t.entries && t.entries[ch].components != [])
    requires CharParseOf(t.ids[ch][0]).Some? && CharParseOf(t.ids[ch][0]).value.Op?
    ensures var tree := CharParseOf(t.ids[ch][0]).value;
      var r := Decompose(t, ch, depth, maxDepth, seen);
      r.ch == ch && r.name.None? && r.source == Some(Ids) && r.operator == Some(tree.op)
      && r.kids.Children? && |r.kids.list| == |tree.kids|
      && forall i :: 0 <= i < |tree.kids| ==>
           r.kids.list[i] == (if tree.kids[i].Lit? then Decompose(t, [tree.kids[i].c], depth + 1, maxDepth, seen + {ch})
                              else NestedLeaf())
  {
    var tree := CharParseOf(t.ids[ch][0]).value;
    var kids := DecomposeKids(t, tree.kids, depth, maxDepth, seen + {ch});
    assert Decompose(t, ch, depth, maxDepth, seen) == Node(ch, None, Some(Ids), Some(tree.op), None, Children(kids));
    CharParseNoNum(CleanIds(t.ids[ch][0]), 0);
    DecomposeKidsEach(t, tree.kids, depth, maxDepth, seen + {ch});
  }

  /** What is left is unknown: an unnamed character without an IDS string,
      or whose IDS string is empty or a bare character. */
  lemma DecomposeUnknown(t: Tables, ch: string, depth: nat, maxDepth: nat, seen: set<string>)
    requires WellFormed(t) && ch !in seen && depth <= maxDepth && !Truthy(Name(t, ch))
    requires !(ch in t.entries && t.entries[ch].components != [])
    requires ch in t.ids ==> CharParseOf(t.ids[ch][0]).None? || CharParseOf(t.ids[ch][0]).value.Lit?
    ensures Decompose(t, ch, depth, maxDepth, seen) == Leaf(ch, None, Some(Unknown))
  {
    EntryNameSpec(t.entries, ch);
  }

  /** The children of `DecomposeKids`, one per child, for a parse without
      placeholders. */
  lemma {:induction false} DecomposeKidsEach(t: Tables, ks: seq<IdsNode>, depth: nat, maxDepth: nat, seen: set<string>)
    requires WellFormed(t) && depth <= maxDepth
    requires forall i :: 0 <= i < |ks| ==> !ks[i].Num?
    ensures var r := DecomposeKids(t, ks, depth, maxDepth, seen);
      |r| == |ks| && forall i :: 0 <= i < |ks| ==>
        r[i] == (if ks[i].Lit? then Decompose(t, [ks[i].c], depth + 1, maxDepth, seen) else NestedLeaf())
  {
    if ks != [] {
      DecomposeKidsEach(t, ks[..|ks| - 1], depth, maxDepth, seen);
    }
  }

  /** The character parser never produces a placeholder node. */
  lemma {:induction false} CharParseNoNum(cs: string, p: nat)
    requires p <= |cs|
    ensures var r := CharParseAt(cs, p).0;
      r.Some? ==> !r.value.Num? && (r.value.Op? ==> forall i :: 0 <= i < |r.value.kids| ==> !r.value.kids[i].Num?)
    decreases |cs| - p, 0
  {
    if p < |cs| {
      var c := cs[p];
      if IsOperator(c) {
        CharParseKidsNoNum(cs, p + 1, Arity(c));
      } else if Skipped(c) {
        CharParseNoNum(cs, p + 1);
      }
    }
  }

  lemma {:induction false} CharParseKidsNoNum(cs: string, p: nat, k: nat)
    requires p <= |cs|
    ensures forall i :: 0 <= i < |CharParseKidsAt(cs, p, k).0| ==> !CharParseKidsAt(cs, p, k).0[i].Num?
    decreases |cs| - p, 1, k
  {
    if k > 0 {
      var first := CharParseAt(cs, p);
      CharParseNoNum(cs, p);
      CharParseKidsNoNum(cs, first.1, k - 1);
    }
  }
}
