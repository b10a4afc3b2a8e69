/**
 * The second generation of the decomposer,
 * scripts/archive/recursive_decompose_v2.py.
 *
 * It shares the tokenizing parser and the placeholder table with the deck
 * builder but keeps the first generation's order: the guard, curated
 * components, any named entry as atomic, a name from the variant maps, and
 * only then the IDS string, decomposed all the way down. Placeholder nodes
 * carry notes. Names are the entry's own (no review table, no unified
 * mapping), so the `human` and `unified` fields of the tables are not read.
 */
module SecondDraft {
  import opened Util
  import opened Ids
  import opened Heisig
  import opened Tree
  import Decks

  /** The loading steps: characters then primitives indexed by character
      and, in a single pass, by keyword and alias; the 51 radical variants
      and the trad/kanji forms, both linked to their parent; the placeholder
      lines and the IDS lines. */
  function Load(es: seq<Entry>, rows: seq<Row>, idsLines: seq<string>): Decks.Kb {
    Decks.Kb(RowVariants(RadicalVariants(CharIndex(es), Radicals, Linked), rows), SinglePassIndex(es),
       map[], map[], IdsMap(idsLines), NumberedMap(idsLines))
  }

  /** `get_heisig_name`: the first alias, else the keyword. */
  function Name(kb: Decks.Kb, ch: string): Option<string> {
    EntryName(kb.entries, ch)
  }

  /** The description of placeholder `k`, or "component k". */
  function Description(kb: Decks.Kb, k: int): string {
    if k >= 0 && k as nat in kb.numbered then kb.numbered[k as nat].description
    else "component " + IntToString(k)
  }

  /** The note an expanded placeholder leaves on an unnamed result. */
  function WithPlaceholderNote(r: Node, k: int, desc: string): (n: Node)
    ensures r.name.None? ==> n == r.(note := Some("{" + IntToString(k) + "}: " + desc))
    ensures r.name.Some? ==> n == r
  {
    if r.name.None? then r.(note := Some("{" + IntToString(k) + "}: " + desc)) else r
  }

  /** `recursive_decompose(char, depth, max_depth, seen)`. */
  function Decompose(kb: Decks.Kb, ch: string, depth: nat, maxDepth: nat, seen: set<string>, ghost rank: map<int, nat>)
    : (r: Result<Node, TokenError>)
    requires Decks.Valid(kb, rank)
    ensures r.Err? ==> ch !in seen && depth <= maxDepth && !Truthy(Name(kb, ch)) && ch in kb.ids
    ensures r.Ok? && (ch in seen || depth > maxDepth || Truthy(Name(kb, ch)) || ch !in kb.ids) ==> r.value.ch == ch
    decreases Decks.Lvl(depth, maxDepth)
  {
    if ch in seen || depth > maxDepth then Ok(Leaf(ch, Name(kb, ch), None))
    else
      var inner := seen + {ch};
      var name := Name(kb, ch);
      if ch in kb.entries && kb.entries[ch].components != [] then
        Ok(Node(ch, name, Some(Heisig), None, None, Children(ComponentKids(kb.byKeyword, kb.entries[ch].components))))
      else if Truthy(name) && ch in kb.entries then Ok(Leaf(ch, name, Some(HeisigAtomic)))
      else if Truthy(name) then Ok(Leaf(ch, name, Some(Mapped)))
      else if ch in kb.ids then
        var parsed := ParseOf(kb.ids[ch][0]);
        ParseOfArity(kb.ids[ch][0]);
        if parsed.Err? then Err(parsed.error)
        else if parsed.value.None? then Ok(Decks.ParseErrorLeaf())
        else TreeOf(kb, parsed.value.value, depth, maxDepth, inner, rank)
      else Ok(Leaf(ch, None, Some(Unknown)))
  }

  /** `_decompose_ids_tree` on a parsed node. */
  function TreeOf(kb: Decks.Kb, t: IdsNode, depth: nat, maxDepth: nat, seen: set<string>, ghost rank: map<int, nat>)
    : (r: Result<Node, TokenError>)
    requires Decks.Valid(kb, rank) && ArityBounded(t)
    ensures r.Ok? && t.Op? ==>
      r.value.name.None? && r.value.source == Some(Ids) && r.value.operator == Some(t.op)
      && r.value.kids.Children? && |r.value.kids.list| == |t.kids|
    decreases Decks.DLvl(depth, maxDepth), Decks.TreeRank(kb, rank, t), t, 1, 0
  {
    match t
    case Lit(c) => Decompose(kb, [c], depth + 1, maxDepth, seen, rank)
    case Num(k) => PlaceholderTree(kb, t, depth, maxDepth, seen, rank)
    case Op(op, ks) =>
      var kids := TreesFrom(kb, t, 0, depth, maxDepth, seen, rank);
      if kids.Err? then Err(kids.error)
      else Ok(Node(Concat(Chars(kids.value)), None, Some(Ids), Some(op), None, Children(kids.value)))
  }

  /** A `{N}` placeholder: its expansion decomposed one level deeper, noted
      when unnamed; or the leaf "{N}" noted with the description. */
  function PlaceholderTree(kb: Decks.Kb, t: IdsNode, depth: nat, maxDepth: nat, seen: set<string>, ghost rank: map<int, nat>)
    : (r: Result<Node, TokenError>)
    requires Decks.Valid(kb, rank) && t.Num?
    decreases Decks.DLvl(depth, maxDepth), Decks.TreeRank(kb, rank, t), t, 0, 1
  {
    if Decks.HasExpansion(kb, t.n) then
      Decks.ExpansionRanked(kb, rank, t.n);
      var sub := ExpandedTree(kb, t, ParseOf(Decks.Expansion(kb, t.n)), depth, maxDepth, seen, rank);
      if sub.Err? then sub else Ok(WithPlaceholderNote(sub.value, t.n, Description(kb, t.n)))
    else Ok(Node("{" + IntToString(t.n) + "}", None, Some(NumberedComponent), None, Some(Description(kb, t.n)), NoChildren))
  }

  function ExpandedTree(kb: Decks.Kb, t: IdsNode, parsed: Result<Option<IdsNode>, TokenError>,
                        depth: nat, maxDepth: nat, seen: set<string>, ghost rank: map<int, nat>)
    : (r: Result<Node, TokenError>)
    requires Decks.Valid(kb, rank) && t.Num?
    requires parsed.Ok? && parsed.value.Some? ==>
      ArityBounded(parsed.value.value) && Decks.TreeRank(kb, rank, parsed.value.value) < Decks.TreeRank(kb, rank, t)
    decreases Decks.DLvl(depth, maxDepth), Decks.TreeRank(kb, rank, t), t, 0, 0
  {
    if parsed.Err? then Err(parsed.error)
    else if parsed.value.None? then Ok(Decks.ParseErrorLeaf())
    else TreeOf(kb, parsed.value.value, depth + 1, maxDepth, seen, rank)
  }

  /** The children of an operator node from index `i` on, one level deeper. */
  function TreesFrom(kb: Decks.Kb, t: IdsNode, i: nat, depth: nat, maxDepth: nat, seen: set<string>, ghost rank: map<int, nat>)
    : (r: Result<seq<Node>, TokenError>)
    requires Decks.Valid(kb, rank) && t.Op? && ArityBounded(t) && i <= |t.kids|
    ensures r.Ok? ==> |r.value| == |t.kids| - i
    decreases Decks.DLvl(depth, maxDepth), Decks.TreeRank(kb, rank, t), t, 0, |t.kids| - i
  {
    if i == |t.kids| then Ok([])
    else
      var first := TreeOf(kb, t.kids[i], depth + 1, maxDepth, seen, rank);
      if first.Err? then Err(first.error)
      else
        var rest := TreesFrom(kb, t, i + 1, depth, maxDepth, seen, rank);
        if rest.Err? then Err(rest.error) else Ok([first.value] + rest.value)
  }

  // ---------------------------------------------------------------------
  // The strategy order
  // ---------------------------------------------------------------------

  /** A named character is never decomposed by IDS: it is the guard's leaf,
      a curated node or an atomic leaf (the "mapped" branch is never
      reached, since only an entry gives a name). */
  lemma NamedNeverIds(kb: Decks.Kb, ch: string, depth: nat, maxDepth: nat, seen: set<string>, rank: map<int, nat>)
    requires Decks.Valid(kb, rank) && Truthy(Name(kb, ch))
    ensures var r := Decompose(kb, ch, depth, maxDepth, seen, rank);
      r.Ok? && r.value.ch == ch && r.value.name == Name(kb, ch)
      && r.value.source in {None, Some(Heisig), Some(HeisigAtomic)}
  {
    EntryNameSpec(kb.entries, ch);
  }

  /** Every synthesized variant is named by its parent's name, so it is
      never decomposed by IDS either. */
  lemma VariantNeverIds(kb: Decks.Kb, ch: string, depth: nat, maxDepth: nat, seen: set<string>, rank: map<int, nat>)
    requires Decks.Valid(kb, rank) && ch in kb.entries && kb.entries[ch].variantOf.Some?
    requires var p := kb.entries[ch].variantOf.value;
      p in kb.entries && kb.entries[ch] == Derived(ch, p, kb.entries[p], kb.entries[ch].kind, Linked)
    requires Truthy(Name(kb, kb.entries[ch].variantOf.value))
    ensures Decompose(kb, ch, depth, maxDepth, seen, rank).Ok?
    ensures Decompose(kb, ch, depth, maxDepth, seen, rank).value.source != Some(Ids)
  {
    var p := kb.entries[ch].variantOf.value;
    assert Name(kb, ch) == Name(kb, p);
    NamedNeverIds(kb, ch, depth, maxDepth, seen, rank);
  }

  /** An unnamed character without curated components is decomposed by its
      first IDS string when it has one, and is unknown otherwise. */
  lemma UnnamedUsesIds(kb: Decks.Kb, ch: string, depth: nat, maxDepth: nat, seen: set<string>, rank: map<int, nat>)
    requires Decks.Valid(kb, rank) && ch !in seen && depth <= maxDepth && !Truthy(Name(kb, ch))
    requires !(ch in kb.entries && kb.entries[ch].components != [])
    ensures var r := Decompose(kb, ch, depth, maxDepth, seen, rank);
      && (ch !in kb.ids ==> r == Ok(Leaf(ch, None, Some(Unknown))))
      && (ch in kb.ids ==>
            var parsed := ParseOf(kb.ids[ch][0]);
            (parsed.Err? ==> r == Err(parsed.error))
            && (parsed == Ok(None) ==> r == Ok(Decks.ParseErrorLeaf()))
            && (parsed.Ok? && parsed.value.Some? ==>
                  ArityBounded(parsed.value.value)
                  && r == TreeOf(kb, parsed.value.value, depth, maxDepth, seen + {ch}, rank)))
  {
    EntryNameSpec(kb.entries, ch);
    if ch in kb.ids {
      ParseOfArity(kb.ids[ch][0]);
    }
  }

  // ---------------------------------------------------------------------
  // Placeholder and operator nodes
  // ---------------------------------------------------------------------

  /** A placeholder with an expansion gives the decomposed expansion, with
      the note "{N}: description" exactly when it is unnamed; one without
      gives the unnamed leaf "{N}" noted with its description. */
  lemma PlaceholderNotes(kb: Decks.Kb, k: int, depth: nat, maxDepth: nat, seen: set<string>, rank: map<int, nat>)
    requires Decks.Valid(kb, rank)
    ensures var r := TreeOf(kb, Num(k), depth, maxDepth, seen, rank);
      && (!Decks.HasExpansion(kb, k) ==>
            r == Ok(Node("{" + IntToString(k) + "}", None, Some(NumberedComponent), None, Some(Description(kb, k)), NoChildren)))
      && (Decks.HasExpansion(kb, k) ==>
            var parsed := ParseOf(Decks.Expansion(kb, k));
            (parsed.Err? ==> r == Err(parsed.error))
            && (parsed.Ok? && parsed.value.Some? ==>
                  ArityBounded(parsed.value.value)
                  && var sub := TreeOf(kb, parsed.value.value, depth + 1, maxDepth, seen, rank);
                  (sub.Err? ==> r == sub)
                  && (sub.Ok? && sub.value.name.None? ==>
                        r == Ok(sub.value.(note := Some("{" + IntToString(k) + "}: " + Description(kb, k)))))
                  && (sub.Ok? && sub.value.name.Some? ==> r == sub)))
  {
    var t := Num(k);
    assert TreeOf(kb, t, depth, maxDepth, seen, rank) == PlaceholderTree(kb, t, depth, maxDepth, seen, rank);
    if Decks.HasExpansion(kb, k) {
      Decks.ExpansionRanked(kb, rank, k);
      var parsed := ParseOf(Decks.Expansion(kb, k));
      var sub := ExpandedTree(kb, t, parsed, depth, maxDepth, seen, rank);
      assert PlaceholderTree(kb, t, depth, maxDepth, seen, rank)
        == if sub.Err? then sub else Ok(WithPlaceholderNote(sub.value, k, Description(kb, k)));
      if parsed.Err? {
        assert sub == Err(parsed.error);
      } else if parsed.value.Some? {
        assert sub == TreeOf(kb, parsed.value.value, depth + 1, maxDepth, seen, rank);
      }
    } else {
      assert PlaceholderTree(kb, t, depth, maxDepth, seen, rank)
        == Ok(Node("{" + IntToString(k) + "}", None, Some(NumberedComponent), None, Some(Description(kb, k)), NoChildren));
    }
  }

  /** An expansion that parses to nothing is the parse-error leaf, noted. */
  lemma PlaceholderParseError(kb: Decks.Kb, k: int, depth: nat, maxDepth: nat, seen: set<string>, rank: map<int, nat>)
    requires Decks.Valid(kb, rank) && Decks.HasExpansion(kb, k) && ParseOf(Decks.Expansion(kb, k)) == Ok(None)
    ensures TreeOf(kb, Num(k), depth, maxDepth, seen, rank)
      == Ok(Leaf("?", None, Some(ParseError)).(note := Some("{" + IntToString(k) + "}: " + Description(kb, k))))
  {
    assert TreeOf(kb, Num(k), depth, maxDepth, seen, rank) == PlaceholderTree(kb, Num(k), depth, maxDepth, seen, rank);
    Decks.ExpansionRanked(kb, rank, k);
    var sub := ExpandedTree(kb, Num(k), ParseOf(Decks.Expansion(kb, k)), depth, maxDepth, seen, rank);
    assert sub == Ok(Decks.ParseErrorLeaf());
    assert PlaceholderTree(kb, Num(k), depth, maxDepth, seen, rank) == Ok(WithPlaceholderNote(sub.value, k, Description(kb, k)));
  }

  /** An operator node is unnamed, "ids", has one child per parsed child,
      and its character is their characters concatenated. */
  lemma OperatorNode(kb: Decks.Kb, t: IdsNode, depth: nat, maxDepth: nat, seen: set<string>, rank: map<int, nat>)
    requires Decks.Valid(kb, rank) && t.Op? && ArityBounded(t)
    ensures var r := TreeOf(kb, t, depth, maxDepth, seen, rank);
      r.Ok? ==> (r.value.name.None? && r.value.source == Some(Ids) && r.value.operator == Some(t.op)
        && r.value.kids.Children? && |r.value.kids.list| == |t.kids|
        && r.value.ch == Concat(Chars(r.value.kids.list)))
  {
    var kids := TreesFrom(kb, t, 0, depth, maxDepth, seen, rank);
    assert TreeOf(kb, t, depth, maxDepth, seen, rank) == if kids.Err? then Err(kids.error)
      else Ok(Node(Concat(Chars(kids.value)), None, Some(Ids), Some(t.op), None, Children(kids.value)));
  }

  /** Each child of an operator node is its parsed child decomposed one
      level deeper. */
  lemma OperatorKids(kb: Decks.Kb, t: IdsNode, depth: nat, maxDepth: nat, seen: set<string>, rank: map<int, nat>)
    requires Decks.Valid(kb, rank) && t.Op? && ArityBounded(t)
    ensures var r := TreeOf(kb, t, depth, maxDepth, seen, rank);
      r.Ok? ==> (r.value.kids.Children?
        && forall i :: 0 <= i < |t.kids| ==>
             i < |r.value.kids.list| && TreeOf(kb, t.kids[i], depth + 1, maxDepth, seen, rank) == Ok(r.value.kids.list[i]))
  {
    var kids := TreesFrom(kb, t, 0, depth, maxDepth, seen, rank);
    assert TreeOf(kb, t, depth, maxDepth, seen, rank) == if kids.Err? then Err(kids.error)
      else Ok(Node(Concat(Chars(kids.value)), None, Some(Ids), Some(t.op), None, Children(kids.value)));
    if kids.Ok? {
      var list := kids.value;
      assert TreeOf(kb, t, depth, maxDepth, seen, rank).value.kids.list == list;
      TreesFromEach(kb, t, 0, depth, maxDepth, seen, rank);
      assert forall i :: 0 <= i < |t.kids| ==> TreeOf(kb, t.kids[i], depth + 1, maxDepth, seen, rank) == Ok(list[i - 0]);
    }
  }

  lemma {:induction false} TreesFromEach(kb: Decks.Kb, t: IdsNode, i: nat, depth: nat, maxDepth: nat, seen: set<string>, rank: map<int, nat>)
    requires Decks.Valid(kb, rank) && t.Op? && ArityBounded(t) && i <= |t.kids|
    ensures var r := TreesFrom(kb, t, i, depth, maxDepth, seen, rank);
      r.Ok? ==> forall j :: i <= j < |t.kids| ==>
        TreeOf(kb, t.kids[j], depth + 1, maxDepth, seen, rank) == Ok(r.value[j - i])
    decreases |t.kids| - i
  {
    var r := TreesFrom(kb, t, i, depth, maxDepth, seen, rank);
    if i < |t.kids| && r.Ok? {
      var first := TreeOf(kb, t.kids[i], depth + 1, maxDepth, seen, rank);
      var rest := TreesFrom(kb, t, i + 1, depth, maxDepth, seen, rank);
      assert first.Ok? && rest.Ok? && r.value == [first.value] + rest.value;
      TreesFromEach(kb, t, i + 1, depth, maxDepth, seen, rank);
    }
  }
}
