/**
 * The decomposition engine of scripts/build_decks.py: `recursive_decompose`
 * and `_decompose_ids_tree`, the leaf collectors, and the per-card string
 * fields derived from them.
 *
 * The loaded tables are one `Kb` value. An IDS string that the tokenizer
 * rejects (an unclosed `{`, brace contents `int()` rejects) raises in the
 * script; here the error is returned.
 *
 * A `{N}` placeholder with an expansion is parsed again and decomposed
 * without the seen/depth guard. The script would recurse forever on an
 * expansion that mentions its own number; `Valid` asks for a rank on the
 * placeholder numbers under which every expansion mentions only lower
 * ranks, and the rank is a ghost argument used for termination only.
 */
module Decks {
  import opened Util
  import opened Ids
  import opened Heisig
  import opened Tree

  /** The tables the script loads before decomposing. */
  datatype Kb = Kb(
    entries: map<string, Entry>,          // heisig_by_char, with synthetic variants
    byKeyword: map<string, string>,       // heisig_by_keyword
    human: map<string, string>,           // human_names, from the review CSV
    unified: map<string, string>,         // unified[char]["name"]
    ids: map<string, seq<string>>,        // ids_map
    numbered: map<nat, NumberedDef>)      // numbered_components

  /** `get_heisig_name`. */
  function Name(kb: Kb, ch: string): Option<string> {
    DeckName(kb.human, kb.entries, kb.unified, ch)
  }

  /** Placeholder `k` has a non-empty expansion. */
  predicate HasExpansion(kb: Kb, k: int) {
    k >= 0 && k as nat in kb.numbered && Truthy(kb.numbered[k as nat].expansion)
  }

  function Expansion(kb: Kb, k: int): string
    requires HasExpansion(kb, k)
  {
    kb.numbered[k as nat].expansion.value
  }

  /** The highest rank of an expandable placeholder in a tree. */
  function TreeRank(kb: Kb, rank: map<int, nat>, t: IdsNode): nat
    decreases t, 1
  {
    match t
    case Lit(_) => 0
    case Num(k) => if HasExpansion(kb, k) && k in rank then rank[k] else 0
    case Op(_, _) => MaxRankFrom(kb, rank, t, 0)
  }

  function MaxRankFrom(kb: Kb, rank: map<int, nat>, t: IdsNode, i: nat): (r: nat)
    requires t.Op? && i <= |t.kids|
    ensures forall j :: i <= j < |t.kids| ==> TreeRank(kb, rank, t.kids[j]) <= r
    decreases t, 0, |t.kids| - i
  {
    if i == |t.kids| then 0
    else
      var a := TreeRank(kb, rank, t.kids[i]);
      var b := MaxRankFrom(kb, rank, t, i + 1);
      if a < b then b else a
  }

  /** An expansion mentions only placeholders of lower rank. */
  predicate ExpansionBelow(kb: Kb, rank: map<int, nat>, k: int)
    requires HasExpansion(kb, k) && k in rank
  {
    var parsed := ParseOf(Expansion(kb, k));
    parsed.Ok? && parsed.value.Some? ==> TreeRank(kb, rank, parsed.value.value) < rank[k]
  }

  /** What the loaded tables guarantee: every IDS list is non-empty, and the
      placeholder expansions are not circular. */
  ghost predicate Valid(kb: Kb, rank: map<int, nat>) {
    (forall c :: c in kb.ids ==> kb.ids[c] != [])
    && (forall k :: HasExpansion(kb, k) ==> k in rank)
    && (forall k {:trigger ExpansionBelow(kb, rank, k)} :: HasExpansion(kb, k) ==> ExpansionBelow(kb, rank, k))
  }

  /** Termination measures: the remaining depth budget, counted so that an
      IDS step sits between two character steps. */
  function Lvl(depth: nat, maxDepth: nat): nat {
    if depth > maxDepth then 0 else 2 * (maxDepth - depth) + 2
  }

  function DLvl(depth: nat, maxDepth: nat): nat {
    if depth > maxDepth then 1 else 2 * (maxDepth - depth) + 1
  }

  // ---------------------------------------------------------------------
  // Result shapes
  // ---------------------------------------------------------------------

  /** A curated component: its character (or "?") and its name, nothing else. */
  predicate ComponentLeaf(n: Node) {
    n.kids.NoChildren? && n.name.Some? && n.source.None? && n.operator.None? && n.note.None?
  }

  /** The shape every node this generation builds has, by its source:
      operator nodes are unnamed, have at most the operator's arity of
      children and carry the concatenation of their children's characters;
      curated nodes have component leaves; the other sources are leaves,
      unnamed except for atomic ones. */
  predicate Shaped(n: Node)
    decreases n, 1, 0
  {
    match n.source
    case None => n.kids.NoChildren? && n.operator.None? && n.note.None?
    case Some(s) =>
      n.note.None? &&
      match s
      case Ids =>
        n.operator.Some? && n.name.None? && n.kids.Children?
        && |n.kids.list| <= Arity(n.operator.value)
        && n.ch == Concat(Chars(n.kids.list))
        && ShapedFrom(n, 0)
      case Heisig =>
        n.operator.None? && n.kids.Children? && n.kids.list != []
        && forall i :: 0 <= i < |n.kids.list| ==> ComponentLeaf(n.kids.list[i])
      case HeisigVariant =>
        n.operator.None? && n.kids.Children? && n.kids.list != []
        && forall i :: 0 <= i < |n.kids.list| ==> ComponentLeaf(n.kids.list[i])
      case HeisigAtomic => n.operator.None? && n.kids.NoChildren? && Truthy(n.name)
      case _ => n.operator.None? && n.kids.NoChildren? && n.name.None?
  }

  predicate ShapedFrom(n: Node, i: nat)
    requires n.kids.Children? && i <= |n.kids.list|
    decreases n, 0, |n.kids.list| - i
  {
    i == |n.kids.list| || (Shaped(n.kids.list[i]) && ShapedFrom(n, i + 1))
  }

  lemma {:induction false} ShapedFromAll(n: Node, i: nat)
    requires n.kids.Children? && i <= |n.kids.list|
    requires forall j :: i <= j < |n.kids.list| ==> Shaped(n.kids.list[j])
    ensures ShapedFrom(n, i)
    decreases |n.kids.list| - i
  {
    if i < |n.kids.list| {
      ShapedFromAll(n, i + 1);
    }
  }

  // ---------------------------------------------------------------------
  // recursive_decompose / _decompose_ids_tree
  // ---------------------------------------------------------------------

  /** The variant parent whose curated components a variant falls back to. */
  predicate HasVariantComponents(kb: Kb, ch: string) {
    ch in kb.entries && Truthy(kb.entries[ch].variantOf)
    && kb.entries[ch].variantOf.value in kb.entries
    && kb.entries[kb.entries[ch].variantOf.value].components != []
  }

  function ParseErrorLeaf(): (n: Node)
    ensures Shaped(n) && n.name.None? && n.kids.NoChildren?
  {
    Leaf("?", None, Some(ParseError))
  }

  /** `recursive_decompose(char, depth, max_depth, seen)`. First match wins:
      the guard, the entry's own components, the first IDS string, the
      variant parent's components, any name, and otherwise unknown. */
  function Decompose(kb: Kb, ch: string, depth: nat, maxDepth: nat, seen: set<string>, ghost rank: map<int, nat>)
    : (r: Result<Node, TokenError>)
    requires Valid(kb, rank)
    ensures r.Ok? ==> Shaped(r.value)
    decreases Lvl(depth, maxDepth)
  {
    if ch in seen || depth > maxDepth then Ok(Leaf(ch, Name(kb, ch), None))
    else
      var inner := seen + {ch};
      var name := Name(kb, ch);
      if ch in kb.entries && kb.entries[ch].components != [] then
        Ok(Node(ch, name, Some(Heisig), None, None, Children(ComponentKids(kb.byKeyword, kb.entries[ch].components))))
      else if ch in kb.ids then
        var parsed := ParseOf(kb.ids[ch][0]);
        ParseOfArity(kb.ids[ch][0]);
        if parsed.Err? then Err(parsed.error)
        else if parsed.value.None? then Ok(ParseErrorLeaf())
        else NodeTree(kb, parsed.value.value, depth, maxDepth, inner, rank)
      else if HasVariantComponents(kb, ch) then
        var parent := kb.entries[kb.entries[ch].variantOf.value];
        Ok(Node(ch, name, Some(HeisigVariant), None, None, Children(ComponentKids(kb.byKeyword, parent.components))))
      else if Truthy(name) then Ok(Leaf(ch, name, Some(HeisigAtomic)))
      else Ok(Leaf(ch, None, Some(Unknown)))
  }

  /** `_decompose_ids_tree` on a parsed node. */
  function NodeTree(kb: Kb, t: IdsNode, depth: nat, maxDepth: nat, seen: set<string>, ghost rank: map<int, nat>)
    : (r: Result<Node, TokenError>)
    requires Valid(kb, rank) && ArityBounded(t)
    ensures r.Ok? ==> Shaped(r.value)
    ensures r.Ok? && t.Op? ==>
      r.value.source == Some(Ids) && r.value.operator == Some(t.op) && |r.value.kids.list| == |t.kids|
    decreases DLvl(depth, maxDepth), TreeRank(kb, rank, t), t, 1, 0
  {
    match t
    case Lit(c) => Decompose(kb, [c], depth + 1, maxDepth, seen, rank)
    case Num(k) => NumTree(kb, t, depth, maxDepth, seen, rank)
    case Op(op, ks) =>
      var kids := KidsFrom(kb, t, 0, depth, maxDepth, seen, rank);
      if kids.Err? then Err(kids.error) else Ok(OpNode(op, kids.value))
  }

  /** A `{N}` placeholder: its expansion decomposed one level deeper, or
      the leaf "{N}". */
  function NumTree(kb: Kb, t: IdsNode, depth: nat, maxDepth: nat, seen: set<string>, ghost rank: map<int, nat>)
    : (r: Result<Node, TokenError>)
    requires Valid(kb, rank) && t.Num?
    ensures r.Ok? ==> Shaped(r.value)
    ensures !HasExpansion(kb, t.n) ==> r == Ok(Leaf("{" + IntToString(t.n) + "}", None, Some(NumberedComponent)))
    decreases DLvl(depth, maxDepth), TreeRank(kb, rank, t), t, 0, 1
  {
    if HasExpansion(kb, t.n) then
      ExpansionRanked(kb, rank, t.n);
      ExpandTree(kb, t, ParseOf(Expansion(kb, t.n)), depth, maxDepth, seen, rank)
    else Ok(Leaf("{" + IntToString(t.n) + "}", None, Some(NumberedComponent)))
  }

  /** The expansion of a placeholder parses to a tree of lower rank. */
  lemma ExpansionRanked(kb: Kb, rank: map<int, nat>, k: int)
    requires Valid(kb, rank) && HasExpansion(kb, k)
    ensures var parsed := ParseOf(Expansion(kb, k));
      parsed.Ok? && parsed.value.Some? ==>
        ArityBounded(parsed.value.value) && TreeRank(kb, rank, parsed.value.value) < TreeRank(kb, rank, Num(k))
  {
    ParseOfArity(Expansion(kb, k));
    assert ExpansionBelow(kb, rank, k);
  }

  /** The parsed expansion of placeholder `t`, decomposed one level deeper. */
  function ExpandTree(kb: Kb, t: IdsNode, parsed: Result<Option<IdsNode>, TokenError>,
                      depth: nat, maxDepth: nat, seen: set<string>, ghost rank: map<int, nat>)
    : (r: Result<Node, TokenError>)
    requires Valid(kb, rank) && t.Num?
    requires parsed.Ok? && parsed.value.Some? ==>
      ArityBounded(parsed.value.value) && TreeRank(kb, rank, parsed.value.value) < TreeRank(kb, rank, t)
    ensures r.Ok? ==> Shaped(r.value)
    decreases DLvl(depth, maxDepth), TreeRank(kb, rank, t), t, 0, 0
  {
    if parsed.Err? then Err(parsed.error)
    else if parsed.value.None? then Ok(ParseErrorLeaf())
    else NodeTree(kb, parsed.value.value, depth + 1, maxDepth, seen, rank)
  }

  /** The result of an operator node: unnamed, "ids", with the children's
      characters concatenated. */
  function OpNode(op: char, kids: seq<Node>): (n: Node)
    requires |kids| <= Arity(op) && forall j :: 0 <= j < |kids| ==> Shaped(kids[j])
    ensures Shaped(n) && n.source == Some(Ids) && n.operator == Some(op) && n.kids == Children(kids)
    ensures n.ch == Concat(Chars(kids)) && n.name.None?
  {
    var n := Node(Concat(Chars(kids)), None, Some(Ids), Some(op), None, Children(kids));
    ShapedFromAll(n, 0);
    n
  }

  /** The children of an operator node from index `i` on, decomposed one
      level deeper; the first error ends the list. */
  function KidsFrom(kb: Kb, t: IdsNode, i: nat, depth: nat, maxDepth: nat, seen: set<string>, ghost rank: map<int, nat>)
    : (r: Result<seq<Node>, TokenError>)
    requires Valid(kb, rank) && t.Op? && ArityBounded(t) && i <= |t.kids|
    ensures r.Ok? ==> |r.value| == |t.kids| - i && forall j :: 0 <= j < |r.value| ==> Shaped(r.value[j])
    decreases DLvl(depth, maxDepth), TreeRank(kb, rank, t), t, 0, |t.kids| - i
  {
    if i == |t.kids| then Ok([])
    else
      var first := NodeTree(kb, t.kids[i], depth + 1, maxDepth, seen, rank);
      if first.Err? then Err(first.error)
      else
        var rest := KidsFrom(kb, t, i + 1, depth, maxDepth, seen, rank);
        if rest.Err? then Err(rest.error) else Ok([first.value] + rest.value)
  }

  /** `recursive_decompose(char)` with its defaults. */
  function RecursiveDecompose(kb: Kb, ch: string, ghost rank: map<int, nat>): (r: Result<Node, TokenError>)
    requires Valid(kb, rank)
    ensures r.Ok? ==> Shaped(r.value)
  {
    Decompose(kb, ch, 0, 10, {}, rank)
  }

  /** Which strategy `recursive_decompose` takes, in order. */
  predicate Guarded(ch: string, depth: nat, maxDepth: nat, seen: set<string>) {
    ch in seen || depth > maxDepth
  }

  predicate OwnComponents(kb: Kb, ch: string) {
    ch in kb.entries && kb.entries[ch].components != []
  }

  /** The guard: a childless leaf carrying only the character and its name. */
  lemma DecomposeGuard(kb: Kb, ch: string, depth: nat, maxDepth: nat, seen: set<string>, rank: map<int, nat>)
    requires Valid(kb, rank) && Guarded(ch, depth, maxDepth, seen)
    ensures Decompose(kb, ch, depth, maxDepth, seen, rank) == Ok(Leaf(ch, Name(kb, ch), None))
  {
  }

  /** Curated components come first: the node is named like the character
      and has one unrecursed child per component name, in order. */
  lemma DecomposeCurated(kb: Kb, ch: string, depth: nat, maxDepth: nat, seen: set<string>, rank: map<int, nat>)
    requires Valid(kb, rank) && !Guarded(ch, depth, maxDepth, seen) && OwnComponents(kb, ch)
    ensures var r := Decompose(kb, ch, depth, maxDepth, seen, rank);
      var comps := kb.entries[ch].components;
      r.Ok? && r.value.ch == ch && r.value.name == Name(kb, ch) && r.value.source == Some(Heisig)
      && r.value.kids.Children? && |r.value.kids.list| == |comps|
      && forall i :: 0 <= i < |comps| ==>
           r.value.kids.list[i].name == Some(comps[i])
           && r.value.kids.list[i].ch == ComponentChar(kb.byKeyword, comps[i])
  {
  }

  /** A character with an IDS string and no curated components is given the
      decomposition of that string, with itself added to the seen set. */
  lemma DecomposeIdsFirst(kb: Kb, ch: string, depth: nat, maxDepth: nat, seen: set<string>, rank: map<int, nat>)
    requires Valid(kb, rank) && !Guarded(ch, depth, maxDepth, seen) && !OwnComponents(kb, ch) && ch in kb.ids
    ensures var r := Decompose(kb, ch, depth, maxDepth, seen, rank);
      var parsed := ParseOf(kb.ids[ch][0]);
      (parsed.Err? ==> r == Err(parsed.error))
      && (parsed == Ok(None) ==> r == Ok(ParseErrorLeaf()))
      && (parsed.Ok? && parsed.value.Some? ==>
            ArityBounded(parsed.value.value)
            && r == NodeTree(kb, parsed.value.value, depth, maxDepth, seen + {ch}, rank))
  {
    ParseOfArity(kb.ids[ch][0]);
  }

  /** A result that is not the variant fallback for `ch`. */
  predicate NotVariantOf(r: Result<Node, TokenError>, ch: string) {
    r.Ok? && r.value.ch == ch ==> r.value.source != Some(HeisigVariant)
  }

  /** So a character with an IDS string never falls back to its variant
      parent's components: nothing below it is decomposed as itself. */
  lemma IdsCharNeverVariant(kb: Kb, ch: string, depth: nat, maxDepth: nat, seen: set<string>, rank: map<int, nat>)
    requires Valid(kb, rank) && !OwnComponents(kb, ch) && ch in kb.ids
    ensures NotVariantOf(Decompose(kb, ch, depth, maxDepth, seen, rank), ch)
  {
    if !Guarded(ch, depth, maxDepth, seen) {
      DecomposeIdsFirst(kb, ch, depth, maxDepth, seen, rank);
      var parsed := ParseOf(kb.ids[ch][0]);
      if parsed.Ok? && parsed.value.Some? {
        VariantNotBelowNode(kb, ch, parsed.value.value, depth, maxDepth, seen + {ch}, rank);
      }
    }
  }

  /** Below a character (once it is in the seen set), no node for that
      character takes the variant fallback. */
  lemma {:induction false} VariantNotBelow(kb: Kb, ch: string, x: string, depth: nat, maxDepth: nat, seen: set<string>, rank: map<int, nat>)
    requires Valid(kb, rank) && ch in seen
    ensures NotVariantOf(Decompose(kb, x, depth, maxDepth, seen, rank), ch)
    decreases Lvl(depth, maxDepth)
  {
    if !Guarded(x, depth, maxDepth, seen) && !OwnComponents(kb, x) && x in kb.ids {
      DecomposeIdsFirst(kb, x, depth, maxDepth, seen, rank);
      var parsed := ParseOf(kb.ids[x][0]);
      if parsed.Ok? && parsed.value.Some? {
        VariantNotBelowNode(kb, ch, parsed.value.value, depth, maxDepth, seen + {x}, rank);
      }
    }
  }

  lemma {:induction false} VariantNotBelowNode(kb: Kb, ch: string, t: IdsNode, depth: nat, maxDepth: nat, seen: set<string>, rank: map<int, nat>)
    requires Valid(kb, rank) && ArityBounded(t) && ch in seen
    ensures NotVariantOf(NodeTree(kb, t, depth, maxDepth, seen, rank), ch)
    decreases DLvl(depth, maxDepth), TreeRank(kb, rank, t), t, 1, 0
  {
    match t
    case Lit(c) => VariantNotBelowLit(kb, ch, c, depth, maxDepth, seen, rank);
    case Op(_, _) =>
    case Num(k) => VariantNotBelowNum(kb, ch, k, depth, maxDepth, seen, rank);
  }

  lemma {:induction false} VariantNotBelowLit(kb: Kb, ch: string, c: char, depth: nat, maxDepth: nat, seen: set<string>, rank: map<int, nat>)
    requires Valid(kb, rank) && ch in seen
    ensures NotVariantOf(NodeTree(kb, Lit(c), depth, maxDepth, seen, rank), ch)
    decreases DLvl(depth, maxDepth), 0, Lit(c), 0, 0
  {
    VariantNotBelow(kb, ch, [c], depth + 1, maxDepth, seen, rank);
  }

  lemma {:induction false} VariantNotBelowNum(kb: Kb, ch: string, k: int, depth: nat, maxDepth: nat, seen: set<string>, rank: map<int, nat>)
    requires Valid(kb, rank) && ch in seen
    ensures NotVariantOf(NodeTree(kb, Num(k), depth, maxDepth, seen, rank), ch)
    decreases DLvl(depth, maxDepth), TreeRank(kb, rank, Num(k)), Num(k), 0, 1
  {
    var r := NodeTree(kb, Num(k), depth, maxDepth, seen, rank);
    var parsed := if HasExpansion(kb, k) then ParseOf(Expansion(kb, k)) else Ok(None);
    if HasExpansion(kb, k) && parsed.Ok? && parsed.value.Some? {
      ExpansionRanked(kb, rank, k);
      VariantNotBelowNode(kb, ch, parsed.value.value, depth + 1, maxDepth, seen, rank);
      assert r == NodeTree(kb, parsed.value.value, depth + 1, maxDepth, seen, rank) by {
        NumTreeSpec(kb, k, depth, maxDepth, seen, rank);
      }
    } else {
      assert NotVariantOf(r, ch) by {
        NumTreeSpec(kb, k, depth, maxDepth, seen, rank);
      }
    }
  }

  /** Without curated components or an IDS string, a variant takes its
      parent's curated components; failing that, any name makes it atomic;
      otherwise it is unknown and unnamed. */
  lemma DecomposeFallbacks(kb: Kb, ch: string, depth: nat, maxDepth: nat, seen: set<string>, rank: map<int, nat>)
    requires Valid(kb, rank) && !Guarded(ch, depth, maxDepth, seen) && !OwnComponents(kb, ch) && ch !in kb.ids
    ensures var r := Decompose(kb, ch, depth, maxDepth, seen, rank);
      r.Ok? && r.value.ch == ch
      && (HasVariantComponents(kb, ch) ==>
            var comps := kb.entries[kb.entries[ch].variantOf.value].components;
            r.value.source == Some(HeisigVariant) && r.value.name == Name(kb, ch)
            && r.value.kids.Children? && |r.value.kids.list| == |comps|
            && forall i :: 0 <= i < |comps| ==> r.value.kids.list[i] == Leaf(ComponentChar(kb.byKeyword, comps[i]), Some(comps[i]), None))
      && (!HasVariantComponents(kb, ch) && Truthy(Name(kb, ch)) ==>
            r.value == Leaf(ch, Name(kb, ch), Some(HeisigAtomic)))
      && (!HasVariantComponents(kb, ch) && !Truthy(Name(kb, ch)) ==>
            r.value == Leaf(ch, None, Some(Unknown)))
  {
  }

  /** An operator node decomposes each parsed child one level deeper with
      the same seen set, keeps their order, and is named by nothing. */
  lemma OpTreeChildren(kb: Kb, t: IdsNode, depth: nat, maxDepth: nat, seen: set<string>, rank: map<int, nat>)
    requires Valid(kb, rank) && t.Op? && ArityBounded(t)
    ensures var r := NodeTree(kb, t, depth, maxDepth, seen, rank);
      r.Ok? ==> (r.value.name.None? && r.value.kids.Children?
        && forall i :: 0 <= i < |t.kids| ==>
             NodeTree(kb, t.kids[i], depth + 1, maxDepth, seen, rank) == Ok(r.value.kids.list[i]))
  {
    var r := NodeTree(kb, t, depth, maxDepth, seen, rank);
    var kids := KidsFrom(kb, t, 0, depth, maxDepth, seen, rank);
    if r.Ok? {
      assert kids.Ok? && r.value == OpNode(t.op, kids.value);
      assert forall i :: 0 <= i < |t.kids| ==> NodeTree(kb, t.kids[i], depth + 1, maxDepth, seen, rank) == Ok(kids.value[i - 0]) by {
        KidsFromEach(kb, t, 0, depth, maxDepth, seen, rank);
      }
    }
  }

  lemma KidsFromEach(kb: Kb, t: IdsNode, i: nat, depth: nat, maxDepth: nat, seen: set<string>, rank: map<int, nat>)
    requires Valid(kb, rank) && t.Op? && ArityBounded(t) && i <= |t.kids|
    ensures var r := KidsFrom(kb, t, i, depth, maxDepth, seen, rank);
      r.Ok? ==> forall j :: i <= j < |t.kids| ==>
        NodeTree(kb, t.kids[j], depth + 1, maxDepth, seen, rank) == Ok(r.value[j - i])
  {
    var r := KidsFrom(kb, t, i, depth, maxDepth, seen, rank);
    if r.Ok? {
      forall j | i <= j < |t.kids|
        ensures NodeTree(kb, t.kids[j], depth + 1, maxDepth, seen, rank) == Ok(r.value[j - i])
      {
        KidsFromAt(kb, t, i, j, depth, maxDepth, seen, rank);
      }
    }
  }

  /** The child at `j` of a successful `KidsFrom(i)`. */
  lemma {:induction false} KidsFromAt(kb: Kb, t: IdsNode, i: nat, j: nat, depth: nat, maxDepth: nat, seen: set<string>, rank: map<int, nat>)
    requires Valid(kb, rank) && t.Op? && ArityBounded(t) && i <= j < |t.kids|
    requires KidsFrom(kb, t, i, depth, maxDepth, seen, rank).Ok?
    ensures NodeTree(kb, t.kids[j], depth + 1, maxDepth, seen, rank) == Ok(KidsFrom(kb, t, i, depth, maxDepth, seen, rank).value[j - i])
    decreases j - i
  {
    var r := KidsFrom(kb, t, i, depth, maxDepth, seen, rank);
    var first := NodeTree(kb, t.kids[i], depth + 1, maxDepth, seen, rank);
    var rest := KidsFrom(kb, t, i + 1, depth, maxDepth, seen, rank);
    KidsFromUnfold(kb, t, i, depth, maxDepth, seen, rank);
    if j > i {
      KidsFromAt(kb, t, i + 1, j, depth, maxDepth, seen, rank);
      ConsAt(r.value, first.value, rest.value, j - i);
    }
  }

  /** Indexing past the head of a list. */
  lemma ConsAt<T>(vs: seq<T>, f: T, ws: seq<T>, k: nat)
    requires vs == [f] + ws && 0 < k < |vs|
    ensures vs[k] == ws[k - 1]
  {
  }

  /** One step of `KidsFrom`. */
  lemma KidsFromUnfold(kb: Kb, t: IdsNode, i: nat, depth: nat, maxDepth: nat, seen: set<string>, rank: map<int, nat>)
    requires Valid(kb, rank) && t.Op? && ArityBounded(t) && i < |t.kids|
    ensures var r := KidsFrom(kb, t, i, depth, maxDepth, seen, rank);
      var first := NodeTree(kb, t.kids[i], depth + 1, maxDepth, seen, rank);
      var rest := KidsFrom(kb, t, i + 1, depth, maxDepth, seen, rank);
      r.Ok? ==> first.Ok? && rest.Ok? && r.value == [first.value] + rest.value
  {
  }

  /** A placeholder decomposes to its parsed expansion one level deeper; one
      without an expansion is the unnamed leaf "{N}". */
  lemma NumTreeSpec(kb: Kb, k: int, depth: nat, maxDepth: nat, seen: set<string>, rank: map<int, nat>)
    requires Valid(kb, rank)
    ensures var r := NodeTree(kb, Num(k), depth, maxDepth, seen, rank);
      (!HasExpansion(kb, k) ==> r == Ok(Leaf("{" + IntToString(k) + "}", None, Some(NumberedComponent))))
      && (HasExpansion(kb, k) ==>
            var parsed := ParseOf(Expansion(kb, k));
            (parsed.Err? ==> r == Err(parsed.error))
            && (parsed == Ok(None) ==> r == Ok(ParseErrorLeaf()))
            && (parsed.Ok? && parsed.value.Some? ==>
                  ArityBounded(parsed.value.value)
                  && r == NodeTree(kb, parsed.value.value, depth + 1, maxDepth, seen, rank)))
  {
    assert NodeTree(kb, Num(k), depth, maxDepth, seen, rank) == NumTree(kb, Num(k), depth, maxDepth, seen, rank);
    if HasExpansion(kb, k) {
      ExpansionRanked(kb, rank, k);
      assert NumTree(kb, Num(k), depth, maxDepth, seen, rank)
        == ExpandTree(kb, Num(k), ParseOf(Expansion(kb, k)), depth, maxDepth, seen, rank);
    }
  }
}
