# Heisig character decomposition, modelled in Dafny

This project models the logic of a toolkit that builds Anki decks for
Heisig's *Remembering the Hanzi* / *Remembering the Kanji* books. It also
models the add-on that explains a character inside Anki. The toolkit:

- breaks every character down into the Heisig primitives it is built from;
- names each part by its Heisig keyword;
- fills in the card fields and writes the decks.

All of the modelled code is sequential and deterministic over tables held
in memory. Every table the scripts load from disk (the parsed RSH book, the
IDS file, CC-CEDICT, Unihan, the spreadsheet, the image manifest, the deck
CSVs) is a parameter of the model.

The modules follow the scripts:

| file | module | what it models |
|---|---|---|
| util.dfy | `Util` | `Option`/`Result`, and Python's `strip`, `split`, `split(sep, 1)`, `in`, `lower` (ASCII), `int()`, `str(n)` and `:05d` on `seq<char>` |
| ids.dfy | `Ids` | the IDS tokenizer, with its `{N}` placeholder tokens and error cases; the token parser (classes `TokenParser`, `CharParser` hold the mutable cursor of `parse_next`); the per-character parser of the older scripts, where a placeholder leaves no node; the numbered-component description lines |
| knowledge.dfy | `Heisig` | the character→entry and keyword/alias→character indices, the synthetic radical-variant and traditional/kanji→simplified entries (class `CharTable`, filled in place), and name-lookup priority |
| tree.dfy | `Tree` | the decomposition node (`children` absent ≠ empty) and `count_leaves` |
| decks.dfy | `Decks` | `recursive_decompose` / `_decompose_ids_tree` of scripts/build_decks.py: first match wins, guarded by depth and a seen set |
| cards.dfy | `Cards` | `collect_leaves`, `collect_leaf_details`, `get_raw_ids`, `get_top_operator`, `format_reading`, `parse_num`, and the `components_detail` loop |
| first_draft.dfy | `FirstDraft` | the first decomposer (scripts/recursive_decompose.py), which expands IDS one level only |
| second_draft.dfy | `SecondDraft` | the second decomposer (scripts/archive/recursive_decompose_v2.py), which never IDS-decomposes a named character |
| keywords.dfy | `Keywords` | CC-CEDICT sense splitting, `normalize_keyword`, the unique-keyword assigner and `get_component_detail` |
| mapping.dfy | `Mapping` | the unified name table of scripts/build_mapping.py (radical and variant mappings under a fixed precedence) and the coverage buckets |
| addon.dfy | `Addon` | the add-on's cached data (class `Cache`), `lookup`, `resolve_keyword` over an abstract Anki collection, component re-resolution and `format_explanation` |
| apkg.dfy | `Apkg` | image substitution, the numbers and sort fields and the nine note fields of scripts/build_apkg.py |
| merge_generated.dfy | `MergeGenerated` | the strip-then-append merge of generated characters into the deck tables |
| cross_reference.dfy | `CrossReference` | IDS component extraction and the coverage set partitions of the statistics script |

Properties at a glance:

- **Parsers.** Each parser reads a tree in preorder. Every operator has at
  most its arity of children (3 for ⿲/⿳, 1 for 〾, 2 otherwise).
  Truncated input loses children instead of raising. The character parsers
  agree with the token parser on text without placeholders.
- **Decomposers.** The strategy order of each generation is stated branch
  by branch, including the branches that can never be taken: the
  "radical_map" branch of the first draft and the "mapped" branch of the
  second draft.
- **Leaves and counts.** The two leaf collectors agree in length and
  labels. `count_leaves` counts every leaf exactly once.
- **Keyword assigner.** Assigned keywords are pairwise distinct after
  normalisation, disjoint from the existing ones, and each is the first
  free candidate. Every entry ends up exactly once, either with a keyword
  or as failed, and both lists keep the input order.
- **Unified table.** The three naming sources are merged in precedence
  order. Every spreadsheet character lands in exactly one coverage bucket.
- **Deck merge.** Stripping is idempotent. The merge keeps the kept rows
  ahead of the new ones and is idempotent for tagged entries. The combined
  deck never adds a Taiwan character that is already kept or mainland.
- **Sorting.** The sort field orders cards by book, then by number.
  The numbers field and the explanation lines appear in their fixed
  orders.

## Model

| member | source | states |
|---|---|---|
| Tree.ComponentKids | scripts/recursive_decompose.py:115-121 | one child per curated component name, in order; each is a leaf named by the component, whose character is the keyword index's character for that name, or "?" when the name is unknown or maps to "" |
| Tree.CountLeaves | scripts/recursive_decompose.py:181-191 | `count_leaves` returns as resolved the number of childless nodes with a truthy name, and resolved + unresolved is the number of childless nodes |
| Tree.CountsAreLeaves | scripts/archive/recursive_decompose_v2.py:266-274 | the recursive count visits every node without a `children` key exactly once: resolved iff named, unresolved otherwise; a node with an empty list counts nothing |
| Tree.CountsFromAreLeaves | scripts/recursive_decompose.py:185-190 | the loop over the children sums to the counts of the leaves under the children from index i on |
| Tree.Counts | scripts/archive/recursive_decompose_v2.py:266-274 | resolved + unresolved is the number of leaves of the node; `Tree.CountsAreLeaves` says which leaves are counted as which |
| Tree.CountsFrom | scripts/recursive_decompose.py:185-190 | the children loop counts as many leaves as the children from index i on hold |
| FirstDraft.Load | scripts/recursive_decompose.py:17-53 | the loaded tables index characters then primitives, the keyword index in one pass, the radical variants, and an IDS map whose every list is non-empty |
| FirstDraft.Decompose | scripts/recursive_decompose.py:97-162 | the result keeps the character asked for, never has source "radical_map", and an "ids" result is unnamed with an operator and a children list; the Decompose* lemmas below pin each branch |
| FirstDraft.NestedLeaf | scripts/recursive_decompose.py:148-152 | a nested operator child becomes the leaf "?" with name None, note "nested_ids" and no children |
| FirstDraft.DecomposeGuard | scripts/recursive_decompose.py:106-107 | a character already seen, or deeper than max_depth, gives only its char and name, with no source and no children |
| FirstDraft.DecomposeCurated | scripts/recursive_decompose.py:113-127 | an entry with curated components gives source "heisig" and one unrecursed named child per component |
| FirstDraft.DecomposeAtomic | scripts/recursive_decompose.py:129-131 | a named entry without components is "heisig_atomic" and childless, even when it has an IDS string |
| FirstDraft.RadicalMapUnreachable | scripts/recursive_decompose.py:133-135 | no input ever yields source "radical_map": a truthy name implies an entry, which an earlier branch takes |
| FirstDraft.DecomposeIdsOneLevel | scripts/recursive_decompose.py:137-159 | an unnamed character whose first IDS string parses to an operator gives an "ids" node with that operator, name None, its own char, and one child per parse child: a character recursed at depth+1 with this character seen, a nested operator as the "nested_ids" leaf |
| FirstDraft.DecomposeUnknown | scripts/recursive_decompose.py:138-162 | an unnamed character without an IDS string, or whose first string is empty or a bare character, is "unknown" with name None |
| FirstDraft.DecomposeKidsEach | scripts/recursive_decompose.py:142-152 | the children loop keeps one result per parse child, in order |
| FirstDraft.CharParseNoNum | scripts/recursive_decompose.py:78-79 | the per-character parser never yields a placeholder node, at the top or among an operator's children, so no child is ever dropped |
| FirstDraft.CharParseKidsNoNum | scripts/recursive_decompose.py:72-76 | no child collected by an operator's loop is a placeholder |
| SecondDraft.Decompose | scripts/archive/recursive_decompose_v2.py:158-192 | only the IDS branch can raise, so an error implies an unseen, unnamed character within the depth limit that has an IDS string; the guard, named and IDS-less branches keep the character; `SecondDraft.NamedNeverIds` and `SecondDraft.UnnamedUsesIds` state the branches |
| SecondDraft.TreeOf | scripts/archive/recursive_decompose_v2.py:195-238 | an operator tree that does not raise becomes an unnamed "ids" node with the same operator and one child per parse child; `SecondDraft.OperatorNode` adds the char and the children |
| SecondDraft.WithPlaceholderNote | scripts/archive/recursive_decompose_v2.py:213-214 | an expanded placeholder's result gets the note "{N}: desc" exactly when its name is None, and is otherwise returned unchanged |
| SecondDraft.TreesFrom | scripts/archive/recursive_decompose_v2.py:225-227 | the children loop of an operator node yields one decomposed child per parse child, unless a nested parse raises |
| SecondDraft.NamedNeverIds | scripts/archive/recursive_decompose_v2.py:161-185 | a named character is never decomposed by IDS: its result keeps its char and name, and its source is no source (guard), "heisig" or "heisig_atomic", so the "mapped" branch is unreachable |
| SecondDraft.VariantNeverIds | scripts/archive/recursive_decompose_v2.py:58-83 | a synthesized radical or trad/kanji variant whose parent is named never gets source "ids" |
| SecondDraft.UnnamedUsesIds | scripts/archive/recursive_decompose_v2.py:187-192 | an unnamed character without curated components is "unknown" when it has no IDS string; otherwise its first string's parse decides: a tokenizer error is raised, an empty parse is the "parse_error" leaf, and a tree is decomposed with this character seen |
| SecondDraft.PlaceholderNotes | scripts/archive/recursive_decompose_v2.py:204-221 | a `{N}` without expansion is the unnamed "numbered_component" leaf "{N}" noted with its description; with an expansion it is the expansion's decomposition one level deeper, noted "{N}: desc" only when unnamed |
| SecondDraft.PlaceholderParseError | scripts/archive/recursive_decompose_v2.py:196-214 | an expansion that parses to nothing gives the "parse_error" leaf "?", noted "{N}: desc" |
| SecondDraft.OperatorNode | scripts/archive/recursive_decompose_v2.py:222-238 | an operator node has name None, source "ids", its operator, one child per parse child, and as char the children's chars concatenated |
| SecondDraft.OperatorKids | scripts/archive/recursive_decompose_v2.py:225-227 | each child of an operator node is its parse child decomposed at depth+1 with the same seen set |
| SecondDraft.TreesFromEach | scripts/archive/recursive_decompose_v2.py:226-227 | the loop's j-th result is the j-th parse child decomposed one level deeper |
| Decks.ParseErrorLeaf | scripts/build_decks.py:260-261 | an empty parse gives the unnamed, childless "parse_error" leaf |
| Decks.Decompose | scripts/build_decks.py:216-256 | every successful result has the shape its source promises: operator nodes unnamed with at most the arity of children and the children's chars concatenated, curated and variant nodes with non-empty lists of named component leaves, atomic leaves named, the other leaves unnamed |
| Decks.NodeTree | scripts/build_decks.py:259-278 | `_decompose_ids_tree` yields a shaped node; for an operator it is an "ids" node with that operator and one child per parse child |
| Decks.NumTree | scripts/build_decks.py:265-272 | a `{N}` without an expansion is the unnamed "numbered_component" leaf "{N}" |
| Decks.ExpansionRanked | scripts/build_decks.py:269-271 | under the ranking precondition a placeholder's expansion parses to a tree of lower rank, so re-parsing without the guard terminates |
| Decks.ExpandTree | scripts/build_decks.py:269-271 | the parsed expansion, decomposed one level deeper, is shaped |
| Decks.OpNode | scripts/build_decks.py:273-277 | an operator node is unnamed, "ids", carries its operator and children, and its char is the children's chars concatenated |
| Decks.KidsFrom | scripts/build_decks.py:275 | the children list has one shaped node per parse child unless a nested parse raises |
| Decks.RecursiveDecompose | scripts/build_decks.py:216 | the default call (depth 0, max_depth 10, empty seen) yields a shaped tree or a tokenizer error |
| Decks.DecomposeGuard | scripts/build_decks.py:220-221 | a seen character, or one deeper than max_depth, gives a childless leaf with only its char and name |
| Decks.DecomposeCurated | scripts/build_decks.py:227-233 | own curated components come first: source "heisig", the character's name, one child per component in order, named by it, whose char is the keyword index's character or "?" |
| Decks.DecomposeIdsFirst | scripts/build_decks.py:237-239 | without curated components, an IDS string is used before any variant fallback: a tokenizer error propagates, an empty parse is the parse-error leaf, and a tree is decomposed with this character added to seen |
| Decks.IdsCharNeverVariant | scripts/build_decks.py:235-250 | a character with an IDS string never falls back to its variant parent's components anywhere in its own tree |
| Decks.VariantNotBelow | scripts/build_decks.py:222 | once a character is in seen, no node below takes the variant fallback for it: children get `seen | {char}` and the guard stops it |
| Decks.VariantNotBelowNode | scripts/build_decks.py:259-278 | the same for any parse node decomposed with that character seen |
| Decks.VariantNotBelowLit | scripts/build_decks.py:263-264 | the same for a character leaf of a parse |
| Decks.VariantNotBelowNum | scripts/build_decks.py:265-271 | the same for a placeholder and its expansion |
| Decks.DecomposeFallbacks | scripts/build_decks.py:241-256 | without own components or IDS, the variant parent's components give "heisig_variant" with one component leaf each; otherwise a name gives "heisig_atomic"; otherwise the leaf is "unknown" with name None |
| Decks.OpTreeChildren | scripts/build_decks.py:273-277 | an operator node is unnamed and each child is its parse child decomposed at depth+1 with the same seen set, in order |
| Decks.KidsFromEach | scripts/build_decks.py:275 | the j-th child of the list comprehension is the j-th parse child decomposed one level deeper |
| Decks.NumTreeSpec | scripts/build_decks.py:265-272 | a placeholder without expansion is the unnamed leaf "{N}"; with one, a tokenizer error propagates, an empty parse is the parse-error leaf, and a tree is decomposed at depth+1 without the guard |
| Cards.Leaves | scripts/build_decks.py:281-294 | `collect_leaves` returns as many labels as `collect_leaf_details` returns pairs; `Cards.LeavesAreDetailLabels` says which label each is |
| Cards.LeavesFrom | scripts/build_decks.py:290-293 | the children loop of `collect_leaves` gives as many labels as the matching loop of `collect_leaf_details` |
| Cards.Details | scripts/build_decks.py:296-306 | a named non-root node, and any node without children, is the single pair (char, name); `Cards.LeavesOfChildren` covers the other nodes |
| Cards.LeavesAreDetailLabels | scripts/build_decks.py:281-306 | `collect_leaves` and `collect_leaf_details` return equally long lists, and each leaf is its pair's name, or its char when unnamed |
| Cards.LeavesFromAreDetailLabels | scripts/build_decks.py:290-306 | the same for the children loops of both collectors |
| Cards.LeavesOfChildren | scripts/build_decks.py:287-293 | the root, or an unnamed node, with a children list gives its children's leaves in order; an empty list gives nothing in both collectors |
| Cards.LeavesFromKids | scripts/build_decks.py:290-293 | the loop from index i gives the leaves of the children from i on, each collected as a non-root |
| Cards.ComponentLabels | scripts/build_decks.py:285-289 | one label per curated component |
| Cards.CuratedLeaves | scripts/build_decks.py:227-233 | a curated node's leaves are its component names in order (a component's char when its name is empty) |
| Cards.ComponentKidsLeaves | scripts/build_decks.py:285-286 | the curated children, collected as non-roots, give the component labels |
| Cards.RawIds | scripts/build_decks.py:309-314 | `get_raw_ids` is the first IDS string with every `$(...)` and `^` removed and stripped, or "" without an IDS string |
| Cards.TopOperator | scripts/build_decks.py:317-323 | a non-empty layout needs a raw IDS string that starts with a labelled operator, and then opens with that operator; a character without IDS has no layout; `Cards.TopOperatorSpec` gives the converse |
| Cards.TopOperatorSpec | scripts/build_decks.py:317-323 | the layout is non-empty exactly when the cleaned IDS string starts with one of the twelve labelled operators ⿰…⿻; then it starts with that operator and reads "op (label)"; ⿼…⿿ and 〾 are never labelled; no IDS string gives "" |
| Cards.Trunc | scripts/build_decks.py:410-411 | `int()` of a float truncates toward zero |
| Cards.MatchBookNumber | scripts/build_decks.py:412-414 | a text cell can give a number only when it starts with "ch" |
| Cards.ParseNum | scripts/build_decks.py:407-415 | an empty cell, and only it among non-text cells, gives None; a number read from text is non-negative and the text starts with "ch"; a float always gives a value of its sign; the ParseNumOf* lemmas give the exact values |
| Cards.ParseNumOfText | scripts/build_decks.py:407-415 | a cell "ch", spaces, "#", spaces, digits and any non-digit rest gives the value of the digits |
| Cards.MatchHashOf | scripts/build_decks.py:412 | `\s*#` skips any run of spaces before the hash |
| Cards.MatchDigitsOf | scripts/build_decks.py:412-414 | `\s*(\d+)` takes the whole digit run after the spaces |
| Cards.ParseNumOfOtherText | scripts/build_decks.py:412-415 | text not starting with "ch" gives None |
| Cards.BookNumber | scripts/build_decks.py:433-435 | a card keeps a book number exactly when `parse_num` gives a non-zero number, stored as its decimal string, which reads back as that number |
| Cards.IntRoundTrip | scripts/build_decks.py:435 | `int(str(n)) == n` for every integer |
| Cards.Pinyins | scripts/build_decks.py:338-339 | the reading of each (pinyin, definition) pair, in order |
| Cards.Meanings | scripts/build_decks.py:346-352 | `all_meanings` has no duplicates |
| Cards.KeptParts | scripts/build_decks.py:344-361 | at most one part per reading |
| Cards.ReadingLine | scripts/build_decks.py:326-366 | the reading is empty exactly when no reading part is kept; `Cards.KeptPartsFrom` and `Cards.KeptPartsComplete` say which parts are kept |
| Cards.ReadingParts | scripts/build_decks.py:363-364 | at most four readings are shown |
| Cards.GroupExtend | scripts/build_decks.py:337-339 | a pair for a reading already grouped appends its definition to that reading's list |
| Cards.GroupOpen | scripts/build_decks.py:337-339 | a pair for a new reading adds the reading at the end of the insertion order with a one-definition list |
| Cards.GroupSnoc | scripts/build_decks.py:337-339 | after one more pair the readings gain its pinyin only if new, and only that reading's definitions grow, by this definition |
| Cards.GroupByReading | scripts/build_decks.py:337-339 | the grouping loop gives the distinct readings in first-seen order, each with all its definitions in order, and nothing else |
| Cards.PiecesSnoc | scripts/build_decks.py:347-349 | one more definition adds its stripped non-empty "/"-pieces |
| Cards.MergeMeanings | scripts/build_decks.py:346-352 | the merging loops give every non-empty stripped "/"-piece of every definition once, in first-seen order |
| Cards.MergeSenses | scripts/build_decks.py:349-352 | the inner loop extends the deduplicated meanings by the pieces of one definition |
| Cards.KeptSnoc | scripts/build_decks.py:354-361 | a reading is skipped exactly when there are other readings and its at most two meanings all mention "surname" or "name"; otherwise its part is "pinyin: " and its first four meanings joined by ", " |
| Cards.KeptFinal | scripts/build_decks.py:363-364 | where the loop breaks, the parts built are the first four kept parts |
| Cards.KeptPrefix | scripts/build_decks.py:343-364 | the parts kept from a prefix of the readings are a prefix of those kept from all |
| Cards.FormatReading | scripts/build_decks.py:326-366 | `format_reading` is "" without CC-CEDICT pairs, and otherwise the first four kept reading parts joined by " | " |
| Cards.NameLikeIsName | scripts/build_decks.py:356 | the surname test is the same as a test for "name" in the lower-cased meaning |
| Cards.SingleReadingShown | scripts/build_decks.py:355-361 | a character with one reading always shows it, whatever its meanings |
| Cards.KeptPartsFrom | scripts/build_decks.py:344-361 | every part shown belongs to a reading of the character that is not skipped, with at most four of its meanings |
| Cards.KeptPartsComplete | scripts/build_decks.py:344-361 | every reading that is not skipped has its part among the kept ones |
| Cards.MeaningsClean | scripts/build_decks.py:350-352 | every meaning is non-empty and already stripped |
| Cards.PiecesClean | scripts/build_decks.py:349-351 | the same before deduplication |
| Cards.MeaningsComplete | scripts/build_decks.py:347-352 | every non-empty stripped "/"-piece of a definition is a meaning |
| Cards.PiecesComplete | scripts/build_decks.py:347-351 | the same before deduplication |
| Cards.OtherAliases | scripts/build_decks.py:487 | exactly the aliases that differ from the keyword ignoring case |
| Cards.LowerAll | scripts/build_decks.py:483 | each alias lower-cased, in order |
| Cards.DetailParts | scripts/build_decks.py:481-490 | one part per described pair, in order |
| Cards.DetailPart | scripts/build_decks.py:474-488 | a part opens with "c = keyword", the entry's keyword for a known character and the decomposition name otherwise; any alias note follows |
| Cards.CardDecomposition | scripts/build_decks.py:466-494 | a childless tree that is not curated gets empty decomposition and components fields, and a curated tree gets its leaves joined by " + "; `Cards.DecompositionFields` states every case |
| Cards.DescribedSnoc | scripts/build_decks.py:471-473 | one more pair is described exactly when it is named, not "?", and its char is not yet in `seen_detail`, which then gains it |
| Cards.ComponentsDetail | scripts/build_decks.py:469-491 | the `components_detail` loop gives one part per first named non-"?" pair of each character, joined by ", " |
| Cards.DescribedDistinct | scripts/build_decks.py:470-473 | the described parts have pairwise distinct characters, none "?", each with a non-empty name |
| Cards.DescribedCharsSound | scripts/build_decks.py:471-473 | every described pair is one of the tree's pairs |
| Cards.DescribedComplete | scripts/build_decks.py:471-473 | every named non-"?" pair's character is described |
| Cards.DescribedCharsComplete | scripts/build_decks.py:472-473 | every character in `seen_detail` has a described part |
| Cards.DedupByCharacter | scripts/build_decks.py:472-473 | two pairs for one character with different names are described once, by the first name: deduplication is by character only |
| Cards.PartWithoutEntry | scripts/build_decks.py:478-481 | a component without an entry is "c = name", with the decomposition's name and no alias note |
| Cards.PartUsingAlias | scripts/build_decks.py:483-484 | a component whose decomposition name is one of its aliases (ignoring case) but not its keyword is "c = keyword (alias: name)" |
| Cards.DecompositionFields | scripts/build_decks.py:466-494 | a curated tree, or a tree with a non-empty children list and leaves, gets the leaves joined by " + " and its components detail; any other tree gets "" for both |
| Cards.LeafCardEmpty | scripts/build_decks.py:492-494 | a childless tree (atomic, unknown, guarded) leaves both fields empty |
| Cards.ComponentLabelsNamed | scripts/build_decks.py:285-286 | components with non-empty names are shown by those names |
| Cards.CuratedCard | scripts/build_decks.py:466-467 | a character with its own curated components shows exactly those names, in order, joined by " + " |
| Ids.LabelledOperators | scripts/build_decks.py:23-37 | exactly ⿰…⿻ have a layout label, and each is an IDS operator; ⿼…⿿ and 〾 have none |
| Ids.Step | scripts/build_decks.py:178-188 | each step of the scan consumes at least one character and no more than remain |
| Ids.CharTokens | scripts/build_decks.py:184-188 | every char token is a kept (not blank, not parenthesis) character of the input |
| Ids.TokensFrom | scripts/build_decks.py:175-189 | the tokenizer never yields more tokens than characters it reads |
| Ids.Tokens | scripts/build_decks.py:173-189 | tokenising the cleaned string yields at most one token per cleaned character, and "" yields no tokens; the Tokens* lemmas give the tokens and errors |
| Ids.TokensWithoutBraces | scripts/build_decks.py:176-189 | without `{`, tokenising keeps every character except space, tab, CR, LF and parentheses, bare digits and operators included, in input order |
| Ids.TokensOfPlaceholder | scripts/build_decks.py:180-183 | `{digits}` becomes one numbered token carrying its decimal value, and tokenising goes on after the brace |
| Ids.PlaceholderStep | scripts/build_decks.py:180-183 | the step at a placeholder consumes it whole |
| Ids.StepBrace | scripts/build_decks.py:180-183 | at `{` with a later `}` and an integer between them, the step emits that number and jumps past the brace |
| Ids.PlaceholderClose | scripts/build_decks.py:181 | the first `}` after a digit run is the one closing it |
| Ids.TokensUnclosed | scripts/archive/recursive_decompose_v2.py:107-109 | a `{` without a later `}` raises, as `str.index` does |
| Ids.TokensBadNumber | scripts/archive/recursive_decompose_v2.py:109-110 | brace contents `int()` rejects raise |
| Ids.Tokenize | scripts/build_decks.py:173-189 | `tokenize_ids` equals the reference tokenisation of the string after removing `$(...)` and `^` and stripping |
| Ids.ScanAt | scripts/build_decks.py:179-188 | one pass of the scanning loop's body equals the reference step |
| Ids.TokenizeCleaned | scripts/build_decks.py:176-189 | the scanning loop equals the reference tokenisation of the cleaned string |
| Ids.ParseAt | scripts/build_decks.py:195-212 | `parse_next` moves the cursor forward and never past the end, reads nothing exactly at the end of the tokens, and consumes at least one token when it reads a tree |
| Ids.ParseKidsAt | scripts/build_decks.py:202-206 | the operand loop collects at most the arity of children, fewer only when the tokens ran out: truncated input loses children silently |
| Ids.ParseOf | scripts/build_decks.py:192-213 | `parse_ids` raises exactly when the tokenizer raises, and every tree it returns respects the operator arities; `Ids.ParseOfText` is its round trip |
| Ids.ParseOfArity | scripts/build_decks.py:192-213 | every tree `parse_ids` returns has at most 3 children under ⿲/⿳, 1 under 〾 and 2 under every other operator |
| Ids.ParseOfEmpty | scripts/build_decks.py:196-197 | the empty string parses to None |
| Ids.ParseAtArity | scripts/build_decks.py:200-207 | every tree read from tokens respects the arities |
| Ids.ParseKidsArity | scripts/build_decks.py:203-206 | every collected operand respects the arities |
| Ids.PreorderFromFlat | scripts/build_decks.py:203-206 | the tokens of an operator's operands from i on are their preorders in order |
| Ids.PreorderOp | scripts/build_decks.py:200-207 | an operator node's tokens are the operator followed by its operands' tokens |
| Ids.ParseAtConsumes | scripts/build_decks.py:195-212 | parsing consumes exactly the tokens of the tree it returns, in preorder |
| Ids.ParseKidsConsume | scripts/build_decks.py:203-206 | the operand loop consumes exactly its operands' tokens |
| Ids.ParsePreorder | scripts/build_decks.py:195-212 | a complete tree is read back from its own preorder tokens, whatever follows them |
| Ids.ParseFlat | scripts/build_decks.py:203-206 | the operands of a complete operator node are read back in order |
| Ids.TextOfPlain | scripts/build_decks.py:173-189 | the text of a tree without placeholders is non-empty, needs no cleaning, and tokenises to the tree's preorder |
| Ids.TextFromOfPlain | scripts/build_decks.py:184-188 | the same for the operands of an operator from i on |
| Ids.TokensOfPlainText | scripts/build_decks.py:174-189 | such a text is left alone by cleaning and yields one char token per character |
| Ids.PlainTextChars | scripts/build_decks.py:174-175 | such a text holds no `$`, `^` or `{` and has no blank at either end |
| Ids.ParseOfText | scripts/build_decks.py:192-213 | round trip: the text of a tree without placeholders parses back to that tree; `⿰AB` gives Op(⿰, [Lit A, Lit B]) |
| Ids.ParseTruncated | scripts/build_decks.py:203-206 | a ternary operator followed by a single character keeps that one child and raises nothing |
| Ids.TokenParser.ParseNext | scripts/build_decks.py:195-212 | the closure over the mutable cursor `pos` returns what the reference parser reads at the old cursor and leaves the cursor where the reference stops |
| Ids.ParseIds | scripts/build_decks.py:192-213 | `parse_ids` equals the reference: tokenise (or raise), then read one tree from position 0 |
| Ids.MappingArityAgrees | scripts/build_mapping.py:168-176 | the branch-by-branch arity of the mapping script agrees with 3 for ⿲/⿳, 1 for 〾 and 2 otherwise on every operator |
| Ids.CharParseAt | scripts/recursive_decompose.py:64-81 | the character parser's cursor moves forward within the string and reads nothing only at its end |
| Ids.CharParseKidsAt | scripts/recursive_decompose.py:72-76 | at most the arity of children, fewer only when the string ran out |
| Ids.Kept | scripts/recursive_decompose.py:78-79 | the characters the character parser does not skip |
| Ids.KeptBefore | scripts/recursive_decompose.py:78-79 | the token position that corresponds to a character position |
| Ids.CharParseIsTokenParse | scripts/recursive_decompose.py:57-83 | the character parser reads exactly the tree the token parser reads from the kept characters: braces, parentheses, digits and blanks vanish |
| Ids.CharParseKidsIsTokenParse | scripts/recursive_decompose.py:72-76 | the same for the operand loop |
| Ids.CharParseSkips | scripts/recursive_decompose.py:78-79 | skipped characters are stepped over by reading again |
| Ids.CharParsePlaceholder | scripts/build_mapping.py:151-190 | in the character generation a `{N}` placeholder leaves no node: a binary operator followed by `{N}` and a character has that character as its only operand |
| Ids.TokenParsePlaceholder | scripts/build_decks.py:208-209 | the token generation reads the same input with the placeholder as an operand of its own |
| Ids.CharParser.ParseNext | scripts/build_mapping.py:158-188 | the closure over the mutable cursor returns what the reference character parser reads at the old cursor and leaves the cursor where it stops |
| Ids.CharParseIds | scripts/recursive_decompose.py:57-83 | `parse_ids` of the character generation equals the reference on the cleaned string |
| Ids.CharParseOf | scripts/recursive_decompose.py:57-83 | the character parser reads what the token parser reads from the kept characters of the cleaned string, and its tree respects the arities |
| Ids.DescriptionFields | scripts/archive/recursive_decompose_v2.py:16-20 | the description is the first tab field, stripped; an expansion exists only when there is a tab and it is not "？"; without a tab there is none |
| Ids.SpaceRun | scripts/archive/recursive_decompose_v2.py:11 | the length of the leading run of whitespace that `\s+` matches |
| Ids.DigitRun | scripts/archive/recursive_decompose_v2.py:11 | the length of the leading digit run that `\d+` matches |
| Ids.LineText | scripts/archive/recursive_decompose_v2.py:11 | what `.+` can match: the text before the first newline |
| Ids.SpaceRunOf | scripts/archive/recursive_decompose_v2.py:11 | `\s+` covers exactly a whitespace run |
| Ids.DigitRunOf | scripts/archive/recursive_decompose_v2.py:11 | `\d+` covers exactly a digit run |
| Ids.LineTextOf | scripts/archive/recursive_decompose_v2.py:11 | `.+` stops at the newline |
| Ids.MatchTextOf | scripts/archive/recursive_decompose_v2.py:11-14 | whitespace then a text to the end of the line: group 2 is that text, stripped |
| Ids.MatchNumberOf | scripts/archive/recursive_decompose_v2.py:11-13 | digits and a closing brace give that number, followed by the text match |
| Ids.MatchAfterHashOf | scripts/archive/recursive_decompose_v2.py:11 | whitespace and an opening brace pass on to the number |
| Ids.MatchNumberedLine | scripts/archive/recursive_decompose_v2.py:11-14 | a line "#", whitespace, "{digits}", whitespace and a text defines the placeholder with those digits and that text stripped |
| Ids.DescriptionAndExpansion | scripts/archive/recursive_decompose_v2.py:16-20 | "description\texpansion" gives the stripped description and the stripped expansion, or None when it is "？" |
| Ids.LoadNumbered | scripts/archive/recursive_decompose_v2.py:9-24 | the load loop equals the reference table (a later line for the same number wins), and every entry comes from a numbered line of the file |
| Ids.IdsLine | scripts/build_decks.py:132-138 | a data line is never a "#" line or blank, has at least one IDS string, and its fields hold no tab |
| Ids.IdsLineFields | scripts/build_decks.py:136-138 | a well-formed line "code\tchar\tids…" maps the character to its IDS strings |
| Ids.IdsLineOfParts | scripts/build_decks.py:136-138 | a line of at least three tab fields maps field 1 to fields 2 onward |
| Ids.IdsRecords | scripts/build_decks.py:133-138 | one parsed record per line |
| Ids.IdsMapNonEmpty | scripts/build_decks.py:137-138 | every character read from IDS.TXT has at least one IDS string, so `ids_map[char][0]` never fails |
| Ids.LoadIdsMap | scripts/build_decks.py:131-138 | the load loop equals the reference map, a later line for the same character winning |
| Ids.TokenParser.constructor | scripts/build_decks.py:193-194 | the parser holds the tokens with its cursor at 0 |
| Ids.CharParser.constructor | scripts/build_mapping.py:157-158 | the parser holds the characters with its cursor at 0 |
| Heisig.CharPairs | scripts/build_decks.py:50-51 | one assignment `heisig_by_char[character] = entry` per entry, in order |
| Heisig.CharIndex | scripts/build_decks.py:50-51 | every indexed character maps to an entry of the list that has that character; `Heisig.CharIndexKeys` and `Heisig.CharIndexLast` say which characters and which entry |
| Heisig.CharIndexLast | scripts/build_decks.py:50-51 | every entry's character is indexed, to the last entry with that character |
| Heisig.CharIndexKeys | scripts/build_decks.py:50-51 | a character is indexed exactly when some entry has it |
| Heisig.KeywordPairs | scripts/build_decks.py:50-52 | one keyword assignment per entry, in order |
| Heisig.AliasPairsOf | scripts/build_decks.py:54-55 | one assignment per alias of an entry, in order |
| Heisig.AliasesOverrideKeywords | scripts/build_decks.py:49-55 | with two passes, a name that is any entry's alias maps to the character its last alias assignment gave, whatever the keywords say; any other name maps as the keyword pass left it, and only if some entry has it as keyword |
| Heisig.AliasPairsMembers | scripts/build_decks.py:53-55 | the alias pass assigns exactly the (alias, character) pairs of the entries |
| Heisig.SinglePassLetsKeywordOverwriteAlias | scripts/archive/recursive_decompose_v2.py:38-42 | the single-pass index of the earlier generations lets a later entry's keyword overwrite an earlier entry's alias, which the two-pass index keeps |
| Heisig.Derived | scripts/build_decks.py:87-94 | a synthetic entry has the new character, the parent's keyword, its type, no components, and either the parent's aliases and `variant_of` parent, or (first generation) no aliases and no `variant_of` |
| Heisig.AddVariantKeeps | scripts/build_decks.py:85-86 | one synthesis step never overwrites or drops an entry |
| Heisig.AddVariantAdded | scripts/build_decks.py:86-94 | the only entry one step adds is for the variant, copied from its parent's entry, which is left alone |
| Heisig.RadicalVariants | scripts/build_decks.py:85-94 | the synthesis keeps every existing entry unchanged; `Heisig.RadicalVariantsOrigin` and `Heisig.RadicalVariantsCovers` say what it adds |
| Heisig.RadicalVariantsKeeps | scripts/build_decks.py:85-94 | radical-variant synthesis never overwrites an existing entry |
| Heisig.RadicalVariantsOrigin | scripts/build_decks.py:85-94 | every entry it adds is for a variant of the table, copied from the entry its parent has |
| Heisig.RadicalVariantsCovers | scripts/build_decks.py:85-86 | every table variant whose parent had an entry ends up with one |
| Heisig.RowVariantsKeeps | scripts/build_decks.py:101-112 | trad/kanji synthesis never overwrites an existing entry |
| Heisig.RowCellsAdded | scripts/build_decks.py:103-112 | an entry one row adds is for its traditional or kanji cell, non-empty and different from the simplified cell, copied from the simplified form's entry with type "variant" |
| Heisig.RowVariantsOrigin | scripts/build_decks.py:101-112 | every entry the rows add is for a cell of some row and copies that row's simplified entry |
| Heisig.CharTable.constructor | scripts/build_decks.py:47-51 | the table starts as the character index of the entries |
| Heisig.CharTable.AddRadicalVariants | scripts/build_decks.py:85-94 | the loop over the radical table leaves the table the reference synthesis computes |
| Heisig.CharTable.AddRowVariants | scripts/build_decks.py:100-112 | the loop over the spreadsheet rows, traditional cell then kanji cell, leaves the table the reference synthesis computes |
| Heisig.EntryNameSpec | scripts/recursive_decompose.py:86-94 | a name exists exactly for the characters with an entry, and it is the first alias or else the keyword |
| Heisig.VariantName | scripts/recursive_decompose.py:35-43 | a first-generation radical variant is named by the parent's keyword even when the parent has aliases; later generations give it the parent's name |
| Heisig.DeckName | scripts/build_decks.py:159-170 | the human-review name wins, then the entry's first alias or keyword, then the unified mapping's name, otherwise None |
| Heisig.DeckNameNone | scripts/build_decks.py:159-170 | only a character unknown to all three tables has no name |
| Mapping.CharIndexSnoc | scripts/build_mapping.py:24-29 | one more entry overwrites its character's slot |
| Mapping.NameTablesSnoc | scripts/build_mapping.py:28-29 | one more entry writes its character's keyword and the list [keyword] + aliases |
| Mapping.BuildNames | scripts/build_mapping.py:21-29 | the first loop builds `heisig_name` and `heisig_aliases` as the reference tables, the last entry for a character winning |
| Mapping.NameTablesAgree | scripts/build_mapping.py:24-29 | both tables have a key for exactly the characters of some entry, and a character's alias list starts with its name |
| Mapping.ManualOverrides | scripts/build_mapping.py:105 | a manual radical entry overrides a Unicode-derived one for the same key; a derived one is kept otherwise |
| Mapping.RedirectStep | scripts/build_mapping.py:105-107 | one item of the loop maps the radical to (parent, parent's name) exactly when the radical has no name and its parent has one, and changes nothing otherwise |
| Mapping.AddRedirects | scripts/build_mapping.py:105-107 | one loop over a parent table writes exactly its redirected entries into the map |
| Mapping.MapRadicals | scripts/build_mapping.py:104-107 | `mapped_via_radical` is the redirect of the merged radical table |
| Mapping.RadicalMapping | scripts/build_mapping.py:104-107 | a radical is mapped exactly when it is in the merged table, has no direct name and its parent has one; its entry is the parent and the parent's name |
| Mapping.BuildVariantTables | scripts/build_mapping.py:115-125 | the row loop builds `trad_to_simp` and `kanji_to_simp` as the reference tables, later rows overriding earlier ones |
| Mapping.SimpOfDiffers | scripts/build_mapping.py:121-125 | every pair links a character to a different, non-empty simplified form |
| Mapping.MapVariants | scripts/build_mapping.py:131-135 | `mapped_via_variant` is the redirect of the trad pairs overridden by the redirect of the kanji pairs |
| Mapping.VariantMapping | scripts/build_mapping.py:131-135 | a character is variant-mapped exactly when it has no direct name and its trad or kanji simplified form has one; a kanji pair overrides a trad pair for the same character |
| Mapping.VisitStep | scripts/build_mapping.py:209-231 | one item of a writing loop writes its entry, unconditionally or only when the key is still absent |
| Mapping.WriteAll | scripts/build_mapping.py:209-222 | a loop that writes every entry of a table into `unified` leaves `unified` overridden by the table |
| Mapping.WriteNew | scripts/build_mapping.py:225-231 | a loop guarded by `if char not in unified` adds exactly the entries whose keys were absent |
| Mapping.DirectEntries | scripts/build_mapping.py:209-214 | the direct entries are keyed by exactly the directly named characters |
| Mapping.MappedEntries | scripts/build_mapping.py:216-231 | the mapped entries are keyed by exactly the mapped characters, each with the given source prefix followed by its target |
| Mapping.Unified | scripts/build_mapping.py:206-231 | `unified` is keyed by the direct, radical-mapped and variant-mapped characters together, and a directly named character without a radical mapping keeps its own name; `Mapping.UnifiedPrecedence` gives the full precedence |
| Mapping.BuildUnified | scripts/build_mapping.py:206-231 | the three loops fill `unified` as the reference table |
| Mapping.UnifiedPrecedence | scripts/build_mapping.py:206-231 | a direct name gives "heisig_direct" with its alias list; a radical mapping gives the parent's name, the parent's alias list and "radical_of:parent"; a variant mapping applies only when the character is still absent, with "variant_of:simp"; nothing else is in the table |
| Mapping.UnifiedOfScript | scripts/build_mapping.py:104-231 | for the script's tables the radical mappings are disjoint from the direct names; a direct entry's alias list is [keyword] + aliases; a mapped entry reuses its parent's list |
| Mapping.WalkLeaves | scripts/build_mapping.py:192-202 | the recursive walk returns the string leaves of a tree, left to right |
| Mapping.ParsedLeavesPlain | scripts/build_mapping.py:151-190 | every leaf of the character parser's tree is one character, neither an operator nor a skipped character |
| Mapping.ParsedKidsPlain | scripts/build_mapping.py:176-181 | the same for each collected operand |
| Mapping.LeafFromKid | scripts/build_mapping.py:199-201 | a leaf of an operator node is a leaf of one of its children |
| Mapping.Unknown | scripts/build_mapping.py:254 | `unknown_leaves` holds exactly the leaves that are unnamed and not the character itself; it is empty exactly when every leaf is named or is the character |
| Mapping.CountIn | scripts/build_mapping.py:248-269 | a bucket counts at most the number of characters |
| Mapping.CoveragePass | scripts/build_mapping.py:242-269 | the coverage loop's three counters count the characters of each bucket, and the unmapped-components set collects every unknown leaf |
| Mapping.Classify | scripts/build_mapping.py:249-269 | "fully" needs a name, a named character is never "unmapped", and one without IDS is never "partially"; `Mapping.UnmappedIff` and `Mapping.BucketsPartition` complete the picture |
| Mapping.ClassifyOne | scripts/build_mapping.py:249-269 | the loop body picks the reference bucket of one character and the set of its unknown leaves (none without an IDS string) |
| Mapping.GetLeafComponents | scripts/build_mapping.py:192-197 | `get_leaf_components` of a missing tree is [], of a character is [it], and of an operator the children's leaves |
| Mapping.BucketsPartition | scripts/build_mapping.py:248-269 | every spreadsheet character is counted in exactly one of fully, partially or unmapped |
| Mapping.SelfLeafIgnored | scripts/build_mapping.py:254-257 | a named character whose leaves are named or are the character itself is fully mapped: IDS leaves equal to the character are ignored |
| Mapping.UnmappedIff | scripts/build_mapping.py:256-269 | a character is unmapped exactly when it is unnamed and either has no IDS string or has an unnamed leaf other than itself |
| Keywords.Normalize | scripts/generate_keywords.py:91-101 | `normalize_keyword` never lengthens the keyword |
| Keywords.StripLower | scripts/generate_keywords.py:93 | lower-casing and stripping commute |
| Keywords.NormalizeIgnoresCase | scripts/generate_keywords.py:93 | normalisation ignores case |
| Keywords.NormalizeIgnoresSpace | scripts/generate_keywords.py:93 | normalisation ignores surrounding whitespace |
| Keywords.NormalizeClean | scripts/generate_keywords.py:93-101 | a lower-case stripped keyword is only depluralized |
| Keywords.Depluralize | scripts/generate_keywords.py:95-100 | depluralizing never lengthens a word and leaves a word not ending in "s" alone; the Depluralize* lemmas give the rewrites |
| Keywords.DepluralizeKeeps | scripts/generate_keywords.py:95-100 | a word not ending in "s" is left alone |
| Keywords.DepluralizeDropsS | scripts/generate_keywords.py:99-100 | a word ending in neither "s" nor "e" with an "s" added loses the "s" again |
| Keywords.DepluralizeIes | scripts/generate_keywords.py:95-96 | "-ies" becomes "-y" |
| Keywords.PluralCollides | scripts/generate_keywords.py:91-101 | a plain "-s" plural and its singular normalise alike, so only one of them can be assigned |
| Keywords.AppendClean | scripts/generate_keywords.py:93 | a lower-case unpadded stem with a lower-case unpadded suffix is only depluralized |
| Keywords.IesNormal | scripts/generate_keywords.py:95-96 | "stem" + "ies" normalises to "stem" + "y" |
| Keywords.YNormal | scripts/generate_keywords.py:91-101 | "stem" + "y" normalises to itself |
| Keywords.IesCollides | scripts/generate_keywords.py:95-96 | an "-ies" plural collides with its "-y" singular |
| Keywords.DropParenthetical | scripts/generate_keywords.py:47 | removing a leading "(...)" and the whitespace after it never adds characters, and leaves a string not starting with "(" unchanged |
| Keywords.DefsFromSnoc | scripts/generate_keywords.py:39-54 | one more sense adds exactly its own pieces |
| Keywords.SplitDefinitions | scripts/generate_keywords.py:37-54 | the two loops over the "/" senses of a line and the ";" pieces of each give the reference definition list |
| Keywords.AddSense | scripts/generate_keywords.py:40-54 | the body of the sense loop appends exactly the sense's pieces after the filters |
| Keywords.DefsClean | scripts/generate_keywords.py:39-54 | every definition is non-empty, stripped, and free of "/" and ";" |
| Keywords.SensePieces | scripts/generate_keywords.py:40-54 | every piece kept from a sense is non-empty and stripped; `Keywords.DefsClean` adds that no piece holds "/" or ";" |
| Keywords.PlainSensePieces | scripts/generate_keywords.py:40-54 | a non-empty stripped sense without ";", reference prefix or leading "(" is one definition |
| Keywords.PlainDefsFrom | scripts/generate_keywords.py:39-54 | a list of such senses gives itself back |
| Keywords.PlainSensesRoundTrip | scripts/generate_keywords.py:39 | joining such senses with "/" and splitting again gives them back |
| Keywords.ParenthesisNotReference | scripts/generate_keywords.py:44 | every reference prefix starts with a letter, so nothing starting with "(" is skipped as a reference |
| Keywords.DropNote | scripts/generate_keywords.py:47 | the note pattern removes "(note) " in front of the rest |
| Keywords.OnePiece | scripts/generate_keywords.py:51-54 | a stripped sense without ";" is one piece |
| Keywords.NoteDropped | scripts/generate_keywords.py:44-54 | a sense "(note) rest" gives just the rest, even when the rest itself begins like a reference |
| Keywords.ReferenceDropped | scripts/generate_keywords.py:44-45 | "see X" on its own is dropped |
| Keywords.ReferenceBehindNoteKept | scripts/generate_keywords.py:44-47 | "(old) see X" is kept as "see X": the reference test runs before the note is stripped |
| Keywords.AppendNewDedup | scripts/generate_keywords.py:62-64 | appending new definitions to a deduplicated list gives the deduplication of the whole |
| Keywords.DedupAbsorbs | scripts/generate_keywords.py:62-64 | definitions already present change nothing |
| Keywords.StoreHeadword | scripts/generate_keywords.py:58-64 | the update of one single-character headword, its inner loop included, matches the reference; a longer headword is ignored |
| Keywords.ParseCedict | scripts/generate_keywords.py:26-66 | the line loop, traditional then simplified form, builds the reference table |
| Keywords.AddHeadwordAt | scripts/generate_keywords.py:57-64 | an update leaves other headwords alone; a single-character headword is stored with its first reading and the new definitions appended without repeats |
| Keywords.AddLineOther | scripts/generate_keywords.py:57-64 | a line that does not carry a headword leaves it alone |
| Keywords.AddLineMentioned | scripts/generate_keywords.py:57-64 | a line carrying a headword stores it, adding the line's definitions, twice over (changing nothing the second time) when traditional and simplified are the same |
| Keywords.Cedict | scripts/generate_keywords.py:20-66 | every stored headword is a single character; `Keywords.CedictHas` and `Keywords.CedictDefsSpec` say which and with what definitions |
| Keywords.CedictHas | scripts/generate_keywords.py:56-64 | a headword is stored exactly when some line carries it as a single-character trad or simp form |
| Keywords.CedictDefsSpec | scripts/generate_keywords.py:61-64 | its definitions are those of every line carrying it, without repeats, in first-seen order |
| Keywords.CedictReading | scripts/generate_keywords.py:59-60 | its pinyin is the first carrying line's |
| Keywords.CedictReadingLast | scripts/generate_keywords.py:59-60 | a headword first carried by the last line gets that line's pinyin |
| Keywords.DefsForAbsent | scripts/generate_keywords.py:57-64 | no carrying line, no definitions |
| Keywords.CedictDistinct | scripts/generate_keywords.py:63-64 | a headword's definitions never repeat |
| Keywords.Keys | scripts/generate_keywords.py:132 | the normalised form of each candidate, in order |
| Keywords.FirstFree | scripts/generate_keywords.py:131-137 | the found index is the first candidate whose normalised form is unused; None means all are used |
| Keywords.FirstFreeFrom | scripts/generate_keywords.py:160-167 | the same, searching from a given index |
| Keywords.FirstFreeAt | scripts/generate_keywords.py:131-137 | an unused key with all earlier keys used is the one found |
| Keywords.FirstFreeFromAt | scripts/generate_keywords.py:160-167 | the same from a given index |
| Keywords.FindFree | scripts/generate_keywords.py:131-137 | the loop with `break` finds the first free candidate |
| Keywords.FirstFreeNone | scripts/generate_keywords.py:131-137 | with every key used, none is found |
| Keywords.FirstFreeAppendLeft | scripts/generate_keywords.py:128-147 | a free key in the earlier list is found there |
| Keywords.FirstFreeAppendRight | scripts/generate_keywords.py:139-147 | with the earlier list used up, a free key of the later one is found after it |
| Keywords.FirstFreeAppendNone | scripts/generate_keywords.py:128-167 | with both lists used up, so is their concatenation |
| Keywords.FirstFreeAppend | scripts/generate_keywords.py:128-147 | the first free key of a concatenation is the first list's, else the second's shifted past the first |
| Keywords.FirstFreeOfThree | scripts/generate_keywords.py:128-167 | the same for three lists in a row |
| Keywords.Pick | scripts/generate_keywords.py:131-137 | a picked candidate is one of the list with an unused normalised form; none is picked exactly when all are used |
| Keywords.Choose | scripts/generate_keywords.py:122-167 | a keyword is chosen exactly when a source is set, its normalised form was unused, and the reading is the CC-CEDICT pinyin or "" |
| Keywords.PickOfThree | scripts/generate_keywords.py:128-167 | searching three lists picks from the first that has an unused key |
| Keywords.ChooseFirstFree | scripts/generate_keywords.py:128-167 | the chosen keyword is the first candidate, in the order CC-CEDICT definitions, Unihan definitions, "base (i)" for i = 2..99, whose normalised form is unused; none exactly when every candidate's form is used |
| Keywords.ChooseKeyword | scripts/generate_keywords.py:124-167 | the three candidate loops for one character pick the reference choice |
| Keywords.Generate | scripts/generate_keywords.py:122-177 | every entry gives exactly one result or one failure; `Keywords.GeneratePartition`, `Keywords.GenerateUnique` and `Keywords.GenerateStep` say which and with what keyword |
| Keywords.Advance | scripts/generate_keywords.py:128-175 | one loop iteration adds exactly one result or one failure |
| Keywords.GenerateKeywords | scripts/generate_keywords.py:118-177 | the entry loop, over a copy of the existing keywords, returns the reference results and failures |
| Keywords.GenerateGrows | scripts/generate_keywords.py:133-136 | one entry only adds to the used set, and the result it may append has a keyword whose normalised form was unused and now is used |
| Keywords.UniqueKeywordsStep | scripts/generate_keywords.py:133-136 | such a step keeps the assigned keywords unique |
| Keywords.GenerateUnique | scripts/generate_keywords.py:118-177 | the assigned keywords are pairwise distinct after normalisation, none was among the existing keywords, and all are in the final used set |
| Keywords.EntryChars | scripts/generate_keywords.py:123 | the character of each entry, in order |
| Keywords.ResultChars | scripts/generate_keywords.py:173 | the character of each result, in order |
| Keywords.GenerateLands | scripts/generate_keywords.py:169-175 | the last entry is either appended to the results or its character to `failed`, and nothing else changes |
| Keywords.PartitionedStep | scripts/generate_keywords.py:169-175 | one more entry extends the landing marks by one: the results' entries stay exactly the landed entries and the failures exactly the missed characters, each in input order |
| Keywords.GeneratePartition | scripts/generate_keywords.py:122-177 | there is one landing mark per input entry such that the results' entries are exactly the landed entries and the failures exactly the characters of the others, each in input order, so every entry appears exactly once |
| Keywords.ResultEntries | scripts/generate_keywords.py:169-171 | the entries of the results, one per result, in order |
| Keywords.Landed | scripts/generate_keywords.py:169-171 | the entries marked as landing, in input order, are no more than the entries |
| Keywords.LandedMembers | scripts/generate_keywords.py:169-171 | every landed entry is an input entry |
| Keywords.Missed | scripts/generate_keywords.py:172-175 | the characters of the entries not marked as landing, in input order, are no more than the entries |
| Keywords.LandedMissedLength | scripts/generate_keywords.py:169-175 | landed and missed together are as many as the entries |
| Keywords.LandedMissedChars | scripts/generate_keywords.py:169-175 | landed and missed together hold the entries' characters with their multiplicities |
| Keywords.PartitionedChars | scripts/generate_keywords.py:122-177 | an outcome that lands each entry exactly once has one result or failure per entry, the entries' characters with their multiplicities, and only input entries among its results |
| Keywords.GenerateStep | scripts/generate_keywords.py:128-175 | an entry succeeds exactly when the first free candidate exists and is non-empty, and then gets that candidate as its keyword; otherwise its character fails |
| Keywords.DescribedChars | scripts/generate_keywords.py:220-227 | every character kept is in the data, differs from the character itself and has a non-empty keyword |
| Keywords.ComponentDetail | scripts/generate_keywords.py:213-229 | the detail string is empty exactly when no character of the IDS string is described; `Keywords.DetailCharsSpec` says which are |
| Keywords.DetailChars | scripts/generate_keywords.py:218-227 | the same for the deduplicated list |
| Keywords.DetailParts | scripts/generate_keywords.py:226 | one "c = kw" part per character |
| Keywords.DetailCharsSpec | scripts/generate_keywords.py:218-227 | a character gets a part exactly when it occurs in the IDS string, is in the data, differs from the character and has a non-empty keyword; none gets two |
| Keywords.DescribedCharsMembers | scripts/generate_keywords.py:220-227 | the same membership before deduplication |
| Keywords.DetailPartsSpec | scripts/generate_keywords.py:226 | each part names its character and that character's keyword |
| Keywords.DetailCharsSnoc | scripts/generate_keywords.py:220-227 | one more IDS character adds a part only when it qualifies and is not yet seen |
| Keywords.GetComponentDetail | scripts/generate_keywords.py:213-229 | the loop, with its seen set, gives the reference: "" for an empty IDS string, else the parts joined by ", " in first-occurrence order |
| Addon.Cache.constructor | heisig_addon/decompose.py:6 | the module-level cache starts out empty |
| Addon.Cache.Load | heisig_addon/decompose.py:10-15 | `_load` reads the bundled data only while the cache is empty; every later call returns the cached table unchanged |
| Addon.Cache.Lookup | heisig_addon/decompose.py:18-21 | `lookup` loads (at most once) and returns the entry of the stripped character, or None |
| Addon.LookupIn | heisig_addon/decompose.py:21 | an entry is returned exactly when the stripped character is a key, and it is that key's entry |
| Addon.LookupStripped | heisig_addon/decompose.py:21 | surrounding whitespace never changes a lookup |
| Addon.LoadTwice | heisig_addon/decompose.py:10-15 | two loads in a row return the same table, whatever the second would have read; from an empty cache it is the first contents |
| Addon.Query | heisig_addon/decompose.py:33 | the search string is the field and the character between double quotes, with a colon |
| Addon.NoteKeyword | heisig_addon/decompose.py:36-37 | a usable note's keyword is returned stripped and is non-empty |
| Addon.ScanNotes | heisig_addon/decompose.py:34-39 | whatever the note scan returns is a non-empty stripped keyword |
| Addon.ScanNotesFirst | heisig_addon/decompose.py:34-37 | the scan returns the keyword of the first usable note when no earlier note raises |
| Addon.ScanNotesNone | heisig_addon/decompose.py:34-39 | a scan that finds nothing although a usable note exists met a raising `get_note` before it, and the exception was swallowed |
| Addon.ResolveKeyword | heisig_addon/decompose.py:24-45 | a non-empty character always resolves to a non-empty keyword |
| Addon.ScanNotesValue | heisig_addon/decompose.py:34-37 | a scan result is the stripped keyword of some usable note |
| Addon.ResolveKeywordFromNote | heisig_addon/decompose.py:31-37 | the first usable collection note, with no raising note before it, gives the keyword, stripped |
| Addon.ResolveKeywordOrder | heisig_addon/decompose.py:24-45 | a keyword found in the collection comes from a usable note; otherwise the bundled non-empty keyword; otherwise the character itself |
| Addon.ResolveKeywordOffline | heisig_addon/decompose.py:31-45 | without a collection, or when its search raises, only the bundled table counts, then the character |
| Addon.ResolvePart | heisig_addon/decompose.py:59-70 | a part without " = ", or whose stripped component is not one character or is 囧, is kept verbatim; a resolvable part becomes "c = " followed by the character's keyword resolved afresh, split at the first " = " |
| Addon.ResolvedParts | heisig_addon/decompose.py:58-70 | one resolved part per ", "-separated piece, in order |
| Addon.ResolveComponentsDetail | heisig_addon/decompose.py:48-71 | the loop appending one part per piece gives the reference string; falsy input is returned unchanged |
| Addon.ResolvedDetail | heisig_addon/decompose.py:48-71 | an empty detail string stays empty, and one without a resolvable part comes back unchanged; `Addon.ResolvedDetailParts` says what happens to the parts |
| Addon.ResolvedDetailIdentity | heisig_addon/decompose.py:59-71 | a string with no resolvable part comes back unchanged |
| Addon.ResolvedDetailParts | heisig_addon/decompose.py:58-71 | splitting the result on ", " gives back one part per original piece, in number and order, when no resolved keyword itself holds ", " |
| Addon.SplitJoinPair | heisig_addon/decompose.py:59-71 | splitting a ", "-join gives the parts back when no part holds ", " |
| Addon.BookNumbers | heisig_addon/decompose.py:86-90 | at most one "LABEL #n" item per listed book |
| Addon.HeaderLine | heisig_addon/decompose.py:82-92 | the first line, with the numbers added to it in place, equals the reference header |
| Addon.FormatExplanation | heisig_addon/decompose.py:74-107 | `format_explanation` is the reference lines joined by "<br>" |
| Addon.Lines | heisig_addon/decompose.py:94-105 | the explanation is the header plus at most three lines, and the header alone exactly when the reading, components and layout fields are all empty |
| Addon.LinesShape | heisig_addon/decompose.py:94-105 | the lines are the header followed by the Reading, Components and Layout lines of the present fields, in that order |
| Addon.ExplanationShape | heisig_addon/decompose.py:82-107 | the first line is the header of the resolved keyword, followed by the lines of the present fields in order |
| Addon.ExplanationPresent | heisig_addon/decompose.py:94-105 | a field's line is present exactly when the field is non-empty |
| Addon.HeaderShape | heisig_addon/decompose.py:83-92 | the header opens with "<b>kw</b> (char)" and carries a number suffix exactly when some book number is present |
| Addon.BookNumbersSpec | heisig_addon/decompose.py:86-90 | the numbers list the present books in the order RSH, RTH, RTK, each as "LABEL #n" |
| Addon.BookNumbersOfThree | heisig_addon/decompose.py:87-90 | a list of three books gives the items of the three in order |
| Addon.BookNumbersSnoc | heisig_addon/decompose.py:87-90 | one more book appends its item, when its number is non-empty |
| Apkg.PrimImgTag | scripts/build_apkg.py:47-54 | a tag exists exactly when the keyword is in the manifest; it opens with the image of the entry's file and ends with " ≈" exactly when the entry is approximate |
| Apkg.JiongMapKeys | scripts/build_apkg.py:39-44 | a character is mapped exactly when it holds 囧 and is the character of some primitive |
| Apkg.JiongMapLast | scripts/build_apkg.py:41-43 | a mapped character takes the keyword of its last primitive |
| Apkg.JiongImage | scripts/build_apkg.py:59-64 | an image is found exactly when the character holds 囧, maps to a non-empty keyword and the keyword has a manifest entry; it is that keyword's tag |
| Apkg.CharDisplay | scripts/build_apkg.py:57-65 | a character without 囧 is shown as itself; it is replaced only by, and always by, its image when one exists |
| Apkg.EnrichPart | scripts/build_apkg.py:75-87 | a part raises exactly when it holds "=" but not " = "; a part changes exactly when it holds " = " and its stripped component has an image, and then it becomes that image followed by " = " and the rest after the first " = " |
| Apkg.EnrichParts | scripts/build_apkg.py:72-87 | the parts raise exactly when one of them does; otherwise one enriched part per part, in order |
| Apkg.EnrichComponentsDetail | scripts/build_apkg.py:68-88 | the loop computes the reference enrichment, falsy input unchanged |
| Apkg.EnrichLoop | scripts/build_apkg.py:73-87 | the loop appending one part at a time, stopping at the first part that raises, computes the reference parts |
| Apkg.Enriched | scripts/build_apkg.py:68-88 | an empty string comes back as "", and the enrichment raises exactly when the string is non-empty and one of its ", "-pieces raises; `Apkg.EnrichedIdentity` and `Apkg.EnrichedImage` say what the pieces become |
| Apkg.EnrichedError | scripts/build_apkg.py:70-88 | the enrichment raises exactly when the string is non-empty and one of its ", "-pieces holds "=" without " = " |
| Apkg.EnrichedIdentity | scripts/build_apkg.py:68-88 | a string none of whose components has an image comes back unchanged when it does not raise |
| Apkg.EnrichedImage | scripts/build_apkg.py:72-88 | in a string that does not raise, the k-th ", "-piece whose stripped component has an image comes out, in its place among the joined parts, as that image followed by " = " and the rest of the piece |
| Apkg.Numbers | scripts/build_apkg.py:214-219 | the loop computes the reference numbers field |
| Apkg.NumbersOrder | scripts/build_apkg.py:214-219 | the numbers list the present books in the order RTH, RSH, RTK |
| Apkg.FirstNumbered | scripts/build_apkg.py:226-230 | the first book of RSH, RTH, RTK whose number is non-empty, or none when all are empty |
| Apkg.SortField | scripts/build_apkg.py:225-232 | the loop with `break` computes the reference sort field, including the `int()` error |
| Apkg.NoteOf | scripts/build_apkg.py:208-251 | a note raises exactly when its components string or its sort field raises; otherwise it has nine fields whose eighth is the tags cell |
| Apkg.BuildNote | scripts/build_apkg.py:208-251 | building a note computes the reference note or its error |
| Apkg.NoteShape | scripts/build_apkg.py:236-250 | a note has nine fields, the eighth is the tags string, and its tags are the words of that string, losing exactly its whitespace |
| Apkg.NoteError | scripts/build_apkg.py:222-229 | a card raises exactly when its components string or the sort number raises |
| Apkg.ZeroPad5Order | scripts/build_apkg.py:229 | zero padding to five digits makes string order agree with number order below 100000 |
| Apkg.SortKey | scripts/build_apkg.py:224-232 | the sort field raises only on a non-empty book number that `int()` rejects, and a card without any book number sorts under "ZZZ_" |
| Apkg.SortKeyOrder | scripts/build_apkg.py:224-230 | two cards sorted under the same book come in the order of their numbers |
| Apkg.SortKeyPrefix | scripts/build_apkg.py:224-232 | the sort field opens with the book it was taken from and "_", or with "ZZZ_" |
| Apkg.SortGroups | scripts/build_apkg.py:224-232 | RSH cards sort before RTH cards, those before RTK cards, and those before cards without a number |
| Apkg.BookBeforeBook | scripts/build_apkg.py:226 | a key of an earlier book in RSH, RTH, RTK sorts before a key of a later one |
| Apkg.BookBeforeRest | scripts/build_apkg.py:229-232 | a key of any book sorts before a "ZZZ_" key |
| MergeGenerated.LastIndexSpec | scripts/merge_generated.py:17-19 | the index maps exactly the table's characters, each to the position of its last row |
| MergeGenerated.LastIndexSnoc | scripts/merge_generated.py:18-20 | one more row points its character at the new last position |
| MergeGenerated.LoadExisting | scripts/merge_generated.py:10-21 | loading a table already read returns its rows unchanged and the last-position index |
| MergeGenerated.Retained | scripts/merge_generated.py:54 | the kept rows are exactly the rows whose tags do not start with "ML::" or "TW::", never more than there were |
| MergeGenerated.RetainedAppend | scripts/merge_generated.py:54 | stripping keeps the relative order of rows: it distributes over concatenation |
| MergeGenerated.RetainedNone | scripts/merge_generated.py:54 | a table without generated rows is kept whole |
| MergeGenerated.RetainedAll | scripts/merge_generated.py:54 | a table of generated rows is stripped empty |
| MergeGenerated.StrippedIdempotent | scripts/merge_generated.py:54 | stripping twice strips once |
| MergeGenerated.ToRow | scripts/merge_generated.py:34-48 | the row's character, deck, tags and keyword come from the entry and the deck; the three book numbers are empty |
| MergeGenerated.ToRowColumns | scripts/merge_generated.py:35-48 | the row has exactly the twelve columns; decomposition and spatial are empty, reading, ids and components detail default to "" |
| MergeGenerated.ToRowGenerated | scripts/merge_generated.py:47-54 | a generated row is stripped by the next run exactly when the entry's own tags start with "ML::" or "TW::" |
| MergeGenerated.ToRowSortKey | scripts/merge_generated.py:38-40 | a generated row has no book number, so the package sorts it as "ZZZ_" followed by its keyword (scripts/build_apkg.py:231-232) |
| MergeGenerated.Appended | scripts/merge_generated.py:58-61 | the appended rows carry the deck and characters absent from the stripped table, at most one per entry |
| MergeGenerated.AppendedSnoc | scripts/merge_generated.py:58-61 | one more entry appends its row exactly when its character is not in the fixed index |
| MergeGenerated.AppendedFrom | scripts/merge_generated.py:58-61 | every appended row is the row of some entry whose character was not indexed |
| MergeGenerated.AppendedCount | scripts/merge_generated.py:57-61 | every entry is appended exactly when no entry's character is indexed; repeated characters are appended each time |
| MergeGenerated.AppendedRows | scripts/merge_generated.py:58-61 | with no indexed character, the i-th appended row is the i-th entry's row |
| MergeGenerated.AppendedGenerated | scripts/merge_generated.py:58-61 | rows appended from entries tagged as generated are themselves generated |
| MergeGenerated.MergeBookDeck | scripts/merge_generated.py:51-61 | strip, index and the appending loop of one book deck compute the reference deck, and the counter is the number of rows added |
| MergeGenerated.MergedDeck | scripts/merge_generated.py:51-61 | the merged deck has a character in every row, starts with the kept rows unchanged, grows by at most one row per entry, and every appended row is of the given deck; `MergeGenerated.MergedDeckIdempotent` is its idempotence |
| MergeGenerated.MergedDeckShape | scripts/merge_generated.py:54-61 | the kept rows come first, unchanged, and every appended row is of the deck and new to them |
| MergeGenerated.MergedDeckIdempotent | scripts/merge_generated.py:51-61 | merging the merged deck again with the same tagged entries gives the same deck |
| MergeGenerated.EntryChars | scripts/merge_generated.py:96-99 | exactly the characters of the entries |
| MergeGenerated.AppendedUnique | scripts/merge_generated.py:96-99 | the mainland loop of the combined deck appends rows of characters new to the table, drawn from the entries, and never the same character twice |
| MergeGenerated.AppendedUniqueChars | scripts/merge_generated.py:96-99 | after the mainland loop the recorded characters are the table's and every mainland entry's |
| MergeGenerated.AppendedUniqueStep | scripts/merge_generated.py:97-99 | one step of the recording loop skips a known character and otherwise appends it and records it |
| MergeGenerated.MergeUltimate | scripts/merge_generated.py:89-104 | strip, index and the two appending loops of the combined deck compute the reference deck |
| MergeGenerated.MergedUltimate | scripts/merge_generated.py:89-104 | the combined deck starts with the kept rows unchanged, grows by at most one row per mainland or Taiwan entry, and no appended row repeats a kept character |
| MergeGenerated.UltimateTaiwanFresh | scripts/merge_generated.py:92-104 | the combined deck is the kept rows, unique new mainland rows, then Taiwan rows whose characters are neither kept nor mainland (Taiwan rows themselves may repeat) |
| CrossReference.Column | scripts/archive/cross_reference.py:19-27 | one book's column set holds exactly the truthy cells of that column |
| CrossReference.ExcelChars | scripts/archive/cross_reference.py:19-27 | the loop over the rows fills each book's set with exactly its column |
| CrossReference.ColumnSnoc | scripts/archive/cross_reference.py:20-27 | one more row adds its cell to the column when the cell is non-empty |
| CrossReference.CoverageOf | scripts/archive/cross_reference.py:37-75 | the IDS-covered and IDS-missing sets partition the spreadsheet characters, and so do the two halves of the characters missing from RSH; each set holds exactly what its intersection or difference says |
| CrossReference.PrimitivesOnlyGap | scripts/archive/cross_reference.py:37-38 | "in RSH" and "not in RSH" are disjoint, and what neither counts is exactly the spreadsheet characters that are RSH primitives but not RSH characters |
| CrossReference.Cleaned | scripts/archive/cross_reference.py:88-89 | the cleaned string has no '^' or '$' and only characters of the input |
| CrossReference.KeptCharsMember | scripts/archive/cross_reference.py:91-93 | a string's kept components are exactly its kept characters, as one-character strings |
| CrossReference.ExtractIdsComponents | scripts/archive/cross_reference.py:85-94 | the loop gives exactly the one-character strings of the cleaned string's characters that are not operators, whitespace, braces, parentheses or digits |
| CrossReference.Components | scripts/archive/cross_reference.py:85-94 | every component is one kept character of the sequence, never the "^" or "$" marker |
| CrossReference.ComponentsOccur | scripts/archive/cross_reference.py:85-94 | every component is a character of the sequence, and never a marker, operator or whitespace |
| CrossReference.ComponentsOfPlain | scripts/archive/cross_reference.py:88-93 | a sequence without region tag or '^' yields each of its kept characters |
| CrossReference.NoComponentIsIdc | scripts/archive/cross_reference.py:83-112 | no extracted component lies in U+2FF0–U+2FFF, all of which are operators |
| CrossReference.SeqComponentsFrom | scripts/archive/cross_reference.py:99-100 | a component of a character's sequences comes from one of them |
| CrossReference.SeqComponentsOf | scripts/archive/cross_reference.py:99-100 | each sequence's components are components of the list |
| CrossReference.AllComponents | scripts/archive/cross_reference.py:96-100 | a component is collected exactly when some spreadsheet character listed in the IDS table has a sequence yielding it |
| CrossReference.AllComponentsAdd | scripts/archive/cross_reference.py:97-100 | one more character adds the components of its sequences, or nothing when it is not in the table |
| CrossReference.AllIdsComponents | scripts/archive/cross_reference.py:96-100 | the outer loop over the spreadsheet characters computes the reference set |
| CrossReference.AddSequences | scripts/archive/cross_reference.py:99-100 | the inner loop adds exactly the components of one character's sequences |
| CrossReference.AllComponentsFrom | scripts/archive/cross_reference.py:96-100 | every collected component is a character of some sequence of some spreadsheet character |
| CrossReference.HeisigSplit | scripts/archive/cross_reference.py:103-104 | the components split into those in the RSH data and those not, a partition |
| CrossReference.CjkComponents | scripts/archive/cross_reference.py:106-116 | the loop keeps exactly the unnamed components whose code point lies in one of the listed ranges |
| CrossReference.CjkWithoutIdc | scripts/archive/cross_reference.py:106-116 | on extracted components the U+2FF0–U+2FFF range never decides membership: dropping it leaves the CJK set unchanged |
| Util.Strip | heisig_addon/decompose.py:21 | `str.strip()`: the result starts and ends with a non-whitespace character, or is empty |
| Util.StripIdempotent | heisig_addon/decompose.py:21 | stripping twice strips once |
| Util.Find | heisig_addon/decompose.py:60 | the substring test `in`: the reported position is the first occurrence, and none means the pattern never occurs |
| Util.Split | heisig_addon/decompose.py:59 | `str.split(sep)`: at least one piece, no piece holds the separator, and joining the pieces with it gives the string back |
| Util.SplitOnce | heisig_addon/decompose.py:61 | `str.split(sep, 1)`: two pieces exactly when the separator occurs, the first free of it, and joining gives the string back |
| Util.Words | scripts/build_apkg.py:249 | `str.split()`: every piece is a non-empty word without whitespace |
| Util.WordsKeepNonSpace | scripts/build_apkg.py:249 | the words lose exactly the whitespace of the string |
| Util.ZeroPad5 | scripts/build_apkg.py:229 | `f"{n:05d}"`: at least five characters, all digits for a non-negative number, a leading '-' exactly for a negative one |
| Util.ZeroPad5Value | scripts/build_apkg.py:229 | the padded digits still denote the number |
| Util.PyInt | scripts/build_apkg.py:229 | `int()` rejects a blank string |
| Util.PyIntOfDigits | scripts/build_apkg.py:229 | `int()` of a digit string is its value |
| Util.IntOfNatToString | scripts/build_apkg.py:229 | `int(str(n))` is n |
| Util.FirstIndex | scripts/generate_keywords.py:62-64 | the position of the first occurrence of a value: it holds the value and no earlier position does |
| Util.DedupOrder | scripts/generate_keywords.py:62-64 | the loop `if d not in defs: defs.append(d)` keeps only values of the input in the order of their first occurrences |
| Util.StripRegionTags | scripts/build_decks.py:174 | deleting the `$(...)` region tags only removes characters, and leaves a string without '$' unchanged |
| Util.CleanIds | scripts/build_decks.py:313 | the cleaned sequence has no '^' and only characters of the input |
| Util.Lower | scripts/build_decks.py:356 | `str.lower()` maps each character to its lower case, keeping the length |
| Util.FromPairsValue | scripts/build_decks.py:50-51 | every value of a dictionary filled by assigning pairs in order is the value of some pair with that key |
| Util.Take | scripts/build_decks.py:360 | a list slice `xs[:n]` is a prefix of at most n elements, all of the list when it is short enough |

## Left out

- File input and output: `open`, `json.load`/`json.dump`, csv readers and writers, openpyxl workbooks and ElementTree. The loaded tables are parameters: the RSH entries, `ids_map`, `numbered_components`, CC-CEDICT, Unihan, the manifest, the deck rows and the spreadsheet rows. This covers the loading code of scripts/build_decks.py:44-150 and 626-638, scripts/generate_keywords.py:180-211 and 232-475, scripts/build_apkg.py:254-291 and scripts/archive/cross_reference.py:7-11 and 51-61.
- Printing, statistics and spot checks (for example scripts/build_decks.py:663-682, scripts/recursive_decompose.py:204-265 and scripts/build_mapping.py:270-314): they report and do not change anything.
- The categorisation of unmapped components into strokes, radicals and CJK characters, and the most-used listing that follows it (scripts/build_mapping.py:277-314): both feed printed statistics only.
- The per-book missing counts of scripts/archive/cross_reference.py:43-48 and its sample listing (123-127): both are printed statistics.
- `format_tree` (scripts/recursive_decompose.py:165-178, scripts/archive/recursive_decompose_v2.py:243-263): it is console output.
- `unicodedata.decomposition` (scripts/build_mapping.py:48-60): a foreign library call. Its result, the radical→parent pairs, is an input.
- The CC-CEDICT line regex (scripts/generate_keywords.py:31-35): a line is taken as already matched into its traditional, simplified, pinyin and definition fields.
- `parse_unihan` (scripts/generate_keywords.py:69-88): the Unihan table is an input map from a character to its definitions.
- `load_existing_keywords` and `regenerate_all`: file loading and a driver over the modelled `generate_keywords`.
- The card assembly loop of scripts/build_decks.py:381-466, meaning `ensure_card`, keyword joining with " / ", lesson tags and the `deck` column. Also the standalone primitive cards (498 onwards) and `write_deck`. Of this code the model covers only `parse_num`, the book-number cells and the decomposition fields that the card builder uses.
- genanki `Model`/`Deck`/`Package` construction and the media list (scripts/build_apkg.py:182-206, 264-291): a note is its nine field strings and its tags.
- The default arguments `col=None`, `char_field="Character"` and `keyword_field="Keyword"` of `format_explanation` (heisig_addon/decompose.py:74-76): `Addon.FormatExplanation` and `Addon.ResolveKeyword` take them as explicit parameters. Any value is allowed, so the defaults are one case of the model.
- The Anki collection's `find_notes` / `get_note` (heisig_addon/decompose.py:33-39): these are abstract lookups that may raise. A raised exception is modelled as failure, and the source swallows it.
- Case folding beyond ASCII: `lower()` is modelled on ASCII letters only, so a string with non-ASCII capitals compares differently here.
- Non-ASCII decimal digits: `int()` is modelled on ASCII digits, an optional sign, surrounding whitespace and single underscores. The `\d` of the `parse_num` pattern (scripts/build_decks.py:412) and of the numbered-component line pattern (scripts/archive/recursive_decompose_v2.py:11) is modelled as ASCII digits too. So "ch#٤١" (Arabic-Indic digits) gives 41 in the script and no number in the model (`Cards.MatchDigits`, `Cards.ParseNum`).
- A cell that is `None` and a cell that is "" are the same value in the dictionaries read from CSV and JSON. Both are falsy, and most of the scripts only test cells for truth. One place differs: at scripts/merge_generated.py:54 a CSV row too short to have a tags cell holds `None` there, and `r.get("tags", "").startswith(...)` then raises `AttributeError`. The model reads that cell as "" and keeps the row, so this crash is not captured.
- A dictionary lookup that raises `KeyError` in the source is a precondition here. One example is a deck row without "character" (MergeGenerated's `HasCharacters`). The generated entries always carry their "char" and "keyword" keys, as fields of `MergeGenerated.Entry`.
- Decks.Decompose: the numbered-placeholder expansions must be well ranked (`Valid`), meaning that no expansion mentions its own number directly or through other expansions. On input that violates it the script recurses without end and fails with `RecursionError`, which the model does not capture.
- SecondDraft: the same ranking precondition applies to its placeholder expansions, for the same reason.
- heisig_addon/gui.py, heisig_addon/llm.py, heisig_addon/__init__.py, scripts/crop_primitives.py, scripts/parse_rsh.py and scripts/build_addon_data.py are not part of this model. They are user interface, network access with retries, image rendering, an XML walk and a CSV-to-JSON copy.

## Observations

These are facts the model proves about the code as written. None is a bug the authors evidently did not intend:

- The simplified and traditional deck merges append duplicated generated characters every time. The combined deck records mainland additions, so it does not repeat a mainland character, although repeats within the Taiwan list still get through (`MergeGenerated.AppendedCount`, `MergeGenerated.UltimateTaiwanFresh`).
- The U+2FF0–U+2FFF range of the CJK filter in scripts/archive/cross_reference.py never applies, because extraction has already dropped every character in it (`CrossReference.NoComponentIsIdc`, `CrossReference.CjkWithoutIdc`).
- A spreadsheet character that is only an RSH primitive is counted neither as "in RSH" nor as "not in RSH" (`CrossReference.PrimitivesOnlyGap`).
- The "radical_map" branch of scripts/recursive_decompose.py:133-135 and the "mapped" branch of scripts/archive/recursive_decompose_v2.py:184-185 can never be taken (`FirstDraft.RadicalMapUnreachable`, `SecondDraft.NamedNeverIds`).
- The keyword index of the second draft is built in one pass, so a later entry's keyword can overwrite an earlier entry's alias. The deck builder's two passes let aliases win (`Heisig.SinglePassLetsKeywordOverwriteAlias`, `Heisig.AliasesOverrideKeywords`).
