/**
 * scripts/build_mapping.py: the unified name table that later scripts read
 * as `unified_mapping.json`, and the coverage pass over the spreadsheet's
 * characters.
 *
 * The script fills its dictionaries in loops. A loop over a list of
 * entries or rows is a `for` loop over a sequence here; a loop over a
 * dictionary's items writes each key once, so its order does not matter,
 * and it is a loop that picks the remaining keys one at a time. The parser
 * is the character parser of the Ids module.
 */
module Mapping {
  import opened Util
  import opened Ids
  import opened Heisig

  // ---------------------------------------------------------------------
  // heisig_name / heisig_aliases
  // ---------------------------------------------------------------------

  /** `heisig_name`: each character's keyword, from its last entry. */
  function NameTable(es: seq<Entry>): map<string, string> {
    map c | c in CharIndex(es) :: CharIndex(es)[c].keyword
  }

  /** `heisig_aliases`: the keyword followed by the primitive aliases. */
  function AliasTable(es: seq<Entry>): map<string, seq<string>> {
    map c | c in CharIndex(es) :: [CharIndex(es)[c].keyword] + CharIndex(es)[c].aliases
  }

  lemma CharIndexSnoc(es: seq<Entry>, e: Entry)
    ensures CharIndex(es + [e]) == CharIndex(es)[e.character := e]
  {
    assert CharPairs(es + [e])[..|es|] == CharPairs(es);
  }

  /** One more entry writes its character's name and alias list. */
  lemma NameTablesSnoc(es: seq<Entry>, e: Entry)
    ensures NameTable(es + [e]) == NameTable(es)[e.character := e.keyword]
    ensures AliasTable(es + [e]) == AliasTable(es)[e.character := [e.keyword] + e.aliases]
  {
    CharIndexSnoc(es, e);
  }

  /** The first loop of the script over characters and primitives. */
  method BuildNames(es: seq<Entry>) returns (names: map<string, string>, aliases: map<string, seq<string>>)
    ensures names == NameTable(es) && aliases == AliasTable(es)
  {
    names, aliases := map[], map[];
    for i := 0 to |es|
      invariant names == NameTable(es[..i]) && aliases == AliasTable(es[..i])
    {
      var e := es[i];
      assert es[..i + 1] == es[..i] + [e];
      NameTablesSnoc(es[..i], e);
      names := names[e.character := e.keyword];
      aliases := aliases[e.character := [e.keyword] + e.aliases];
    }
    assert es[..|es|] == es;
  }

  /** Both tables have a key for exactly the characters of some entry, and
      a character's alias list starts with its name. */
  lemma NameTablesAgree(es: seq<Entry>, c: string)
    ensures c in NameTable(es) <==> exists i :: 0 <= i < |es| && es[i].character == c
    ensures c in AliasTable(es) <==> c in NameTable(es)
    ensures c in NameTable(es) ==> AliasTable(es)[c][0] == NameTable(es)[c]
  {
    CharIndexKeys(es, c);
  }

  // ---------------------------------------------------------------------
  // mapped_via_radical / mapped_via_variant
  // ---------------------------------------------------------------------

  /** The 36 simplified and side forms given by hand. */
  const ManualRadicals: map<string, string> := map[
    "讠" := "言", "钅" := "金", "饣" := "食", "纟" := "糸", "贝" := "貝",
    "车" := "車", "见" := "見", "门" := "門", "鱼" := "魚", "马" := "馬",
    "鸟" := "鳥", "页" := "頁", "风" := "風", "韦" := "韋", "长" := "長",
    "齿" := "齒", "龙" := "龍", "龟" := "龜", "亻" := "人", "氵" := "水",
    "扌" := "手", "忄" := "心", "犭" := "犬", "礻" := "示", "衤" := "衣",
    "⺗" := "心", "⺝" := "月", "⺼" := "月", "⺶" := "羊", "灬" := "火",
    "⺌" := "小", "⺊" := "卜", "⺀" := "八", "⺄" := "乙", "⺆" := "冂",
    "⺈" := "刀"
  ]

  /** `{**radical_to_parent, **manual_radical_map}`: the Unicode-derived
      parents with the manual ones on top. */
  function RadicalParents(derived: map<string, string>): map<string, string> {
    derived + ManualRadicals
  }

  /** A manual parent overrides a derived one; a derived one is kept
      otherwise. */
  lemma ManualOverrides(derived: map<string, string>, c: string)
    ensures c in ManualRadicals ==> RadicalParents(derived)[c] == ManualRadicals[c]
    ensures c !in ManualRadicals ==>
      (c in RadicalParents(derived) <==> c in derived)
      && (c in derived ==> RadicalParents(derived)[c] == derived[c])
  {
  }

  /** The mapped characters of one parent table: those without a name of
      their own whose parent has one, with the parent and its name. */
  function Redirect(names: map<string, string>, parents: map<string, string>): map<string, (string, string)> {
    map c | c in parents && c !in names && parents[c] in names :: (parents[c], names[parents[c]])
  }

  /** The part of a table whose keys have been visited. */
  function Visited(parents: map<string, string>, todo: set<string>): map<string, string> {
    map c | c in parents && c !in todo :: parents[c]
  }

  /** Updating the right operand of a union updates the union. */
  lemma UnionUpdate<K, V>(m0: map<K, V>, r: map<K, V>, k: K, v: V)
    ensures m0 + r[k := v] == (m0 + r)[k := v]
  {
  }

  lemma RedirectStep(m0: map<string, (string, string)>, names: map<string, string>, parents: map<string, string>,
                     todo: set<string>, c: string)
    requires c in todo && c in parents
    ensures c !in names && parents[c] in names ==>
      m0 + Redirect(names, Visited(parents, todo - {c}))
        == (m0 + Redirect(names, Visited(parents, todo)))[c := (parents[c], names[parents[c]])]
    ensures !(c !in names && parents[c] in names) ==>
      m0 + Redirect(names, Visited(parents, todo - {c})) == m0 + Redirect(names, Visited(parents, todo))
  {
    var v0, v1 := Visited(parents, todo), Visited(parents, todo - {c});
    assert v1 == v0[c := parents[c]];
    var r0, r1 := Redirect(names, v0), Redirect(names, v1);
    if c !in names && parents[c] in names {
      assert r1 == r0[c := (parents[c], names[parents[c]])];
      UnionUpdate(m0, r0, c, (parents[c], names[parents[c]]));
    } else {
      assert r1 == r0;
    }
  }

  /** One loop over a parent table's items, writing into `m0`. */
  method AddRedirects(m0: map<string, (string, string)>, names: map<string, string>, parents: map<string, string>)
    returns (m: map<string, (string, string)>)
    ensures m == m0 + Redirect(names, parents)
  {
    m := m0;
    var todo := parents.Keys;
    assert Visited(parents, todo) == map[];
    while todo != {}
      invariant todo <= parents.Keys
      invariant m == m0 + Redirect(names, Visited(parents, todo))
      decreases todo
    {
      var c :| c in todo;
      RedirectStep(m0, names, parents, todo, c);
      var parent := parents[c];
      if c !in names && parent in names {
        m := m[c := (parent, names[parent])];
      }
      todo := todo - {c};
    }
    assert Visited(parents, todo) == parents;
  }

  /** `mapped_via_radical`. */
  method MapRadicals(names: map<string, string>, derived: map<string, string>) returns (m: map<string, (string, string)>)
    ensures m == Redirect(names, RadicalParents(derived))
  {
    m := AddRedirects(map[], names, RadicalParents(derived));
  }

  /** A radical is mapped exactly when it has no name and its parent has
      one; its entry is the parent and the parent's name. */
  lemma RadicalMapping(names: map<string, string>, derived: map<string, string>, c: string)
    ensures var m := Redirect(names, RadicalParents(derived));
      (c in m <==> c in RadicalParents(derived) && c !in names && RadicalParents(derived)[c] in names)
      && (c in m ==> m[c] == (RadicalParents(derived)[c], names[RadicalParents(derived)[c]]))
  {
  }

  /** `trad_to_simp` (`kanji` false) or `kanji_to_simp` (`kanji` true): the
      last row's simplified form for each differing non-empty cell. */
  function SimpOf(rows: seq<Row>, kanji: bool): map<string, string> {
    if rows == [] then map[]
    else
      var m := SimpOf(rows[..|rows| - 1], kanji);
      var row := rows[|rows| - 1];
      var c := if kanji then row.k else row.th;
      if Truthy(c) && Truthy(row.sh) && c.value != row.sh.value then m[c.value := row.sh.value] else m
  }

  /** The loop over the spreadsheet rows. */
  method BuildVariantTables(rows: seq<Row>) returns (trad: map<string, string>, kanji: map<string, string>)
    ensures trad == SimpOf(rows, false) && kanji == SimpOf(rows, true)
  {
    trad, kanji := map[], map[];
    for i := 0 to |rows|
      invariant trad == SimpOf(rows[..i], false) && kanji == SimpOf(rows[..i], true)
    {
      assert rows[..i + 1][..i] == rows[..i];
      var row := rows[i];
      if Truthy(row.th) && Truthy(row.sh) && row.th.value != row.sh.value {
        trad := trad[row.th.value := row.sh.value];
      }
      if Truthy(row.k) && Truthy(row.sh) && row.k.value != row.sh.value {
        kanji := kanji[row.k.value := row.sh.value];
      }
    }
    assert rows[..|rows|] == rows;
  }

  /** A pair in either table links a character to a different simplified
      form. */
  lemma {:induction false} SimpOfDiffers(rows: seq<Row>, kanji: bool, c: string)
    requires c in SimpOf(rows, kanji)
    ensures SimpOf(rows, kanji)[c] != c && SimpOf(rows, kanji)[c] != ""
  {
    var init := rows[..|rows| - 1];
    if c in SimpOf(init, kanji) && SimpOf(rows, kanji)[c] == SimpOf(init, kanji)[c] {
      SimpOfDiffers(init, kanji, c);
    }
  }

  /** `mapped_via_variant`: the trad pairs, then the kanji pairs. */
  method MapVariants(names: map<string, string>, rows: seq<Row>) returns (m: map<string, (string, string)>)
    ensures m == Redirect(names, SimpOf(rows, false)) + Redirect(names, SimpOf(rows, true))
  {
    var trad, kanji := BuildVariantTables(rows);
    m := AddRedirects(map[], names, trad);
    m := AddRedirects(m, names, kanji);
  }

  /** A character is variant-mapped exactly when it has no name and one of
      its simplified forms has one; a usable kanji pair wins over the trad
      pair. */
  lemma VariantMapping(names: map<string, string>, trad: map<string, string>, kanji: map<string, string>, c: string)
    ensures var m := Redirect(names, trad) + Redirect(names, kanji);
      && (c in m <==> c !in names && ((c in trad && trad[c] in names) || (c in kanji && kanji[c] in names)))
      && (c in kanji && c !in names && kanji[c] in names ==> m[c] == (kanji[c], names[kanji[c]]))
      && (c in m && !(c in kanji && kanji[c] in names) ==> m[c] == (trad[c], names[trad[c]]))
  {
  }

  // ---------------------------------------------------------------------
  // unified
  // ---------------------------------------------------------------------

  /** An entry of `unified_mapping.json`. */
  datatype Named = Named(name: string, aliases: seq<string>, source: string)

  function AliasesOf(aliases: map<string, seq<string>>, c: string): seq<string> {
    if c in aliases then aliases[c] else []
  }

  function DirectEntries(names: map<string, string>, aliases: map<string, seq<string>>): (r: map<string, Named>)
    ensures r.Keys == names.Keys
  {
    map c | c in names :: Named(names[c], AliasesOf(aliases, c), "heisig_direct")
  }

  function MappedEntries(m: map<string, (string, string)>, aliases: map<string, seq<string>>, prefix: string)
    : (r: map<string, Named>)
    ensures r.Keys == m.Keys
    ensures forall c :: c in m ==> r[c].source == prefix + m[c].0
  {
    map c | c in m :: Named(m[c].1, AliasesOf(aliases, m[c].0), prefix + m[c].0)
  }

  /** `unified`: the direct names, then the radical mappings, then the
      variant mappings of characters still absent. */
  function Unified(names: map<string, string>, aliases: map<string, seq<string>>,
                   radicals: map<string, (string, string)>, variants: map<string, (string, string)>)
    : (r: map<string, Named>)
    ensures r.Keys == names.Keys + radicals.Keys + variants.Keys
    ensures forall c :: c in names && c !in radicals ==> r[c].name == names[c]
  {
    var d := DirectEntries(names, aliases);
    var rm := MappedEntries(radicals, aliases, "radical_of:");
    var u := d + rm;
    var v := MappedEntries(variants, aliases, "variant_of:");
    var w := map c | c in v && c !in u :: v[c];
    assert w.Keys == variants.Keys - u.Keys;
    u + w
  }

  /** The entries of `m` whose keys have been visited. */
  function VisitedEntries(m: map<string, Named>, todo: set<string>): map<string, Named> {
    map c | c in m && c !in todo :: m[c]
  }

  /** The visited entries of `m` for keys `u0` lacks. */
  function VisitedNew(u0: map<string, Named>, m: map<string, Named>, todo: set<string>): map<string, Named> {
    map c | c in m && c !in todo && c !in u0 :: m[c]
  }

  lemma VisitStep(u0: map<string, Named>, m: map<string, Named>, todo: set<string>, c: string)
    requires c in todo && c in m
    ensures u0 + VisitedEntries(m, todo - {c}) == (u0 + VisitedEntries(m, todo))[c := m[c]]
    ensures c !in u0 ==> u0 + VisitedNew(u0, m, todo - {c}) == (u0 + VisitedNew(u0, m, todo))[c := m[c]]
    ensures c in u0 ==> VisitedNew(u0, m, todo - {c}) == VisitedNew(u0, m, todo)
  {
  }

  /** A loop writing every entry of `m` into `u0`. */
  method WriteAll(u0: map<string, Named>, m: map<string, Named>) returns (u: map<string, Named>)
    ensures u == u0 + m
  {
    u := u0;
    var todo := m.Keys;
    assert VisitedEntries(m, todo) == map[];
    while todo != {}
      invariant todo <= m.Keys
      invariant u == u0 + VisitedEntries(m, todo)
      decreases todo
    {
      var c :| c in todo;
      VisitStep(u0, m, todo, c);
      u := u[c := m[c]];
      todo := todo - {c};
    }
    assert VisitedEntries(m, todo) == m;
  }

  /** A loop writing the entries of `m` whose keys `u0` lacks. */
  method WriteNew(u0: map<string, Named>, m: map<string, Named>) returns (u: map<string, Named>)
    ensures u == u0 + map c | c in m && c !in u0 :: m[c]
  {
    u := u0;
    var todo := m.Keys;
    assert VisitedNew(u0, m, todo) == map[];
    while todo != {}
      invariant todo <= m.Keys
      invariant u == u0 + VisitedNew(u0, m, todo)
      decreases todo
    {
      var c :| c in todo;
      VisitStep(u0, m, todo, c);
      if c !in u {
        u := u[c := m[c]];
      }
      todo := todo - {c};
    }
    assert VisitedNew(u0, m, todo) == map c | c in m && c !in u0 :: m[c];
  }

  /** The three loops that fill `unified`. */
  method BuildUnified(names: map<string, string>, aliases: map<string, seq<string>>,
                      radicals: map<string, (string, string)>, variants: map<string, (string, string)>)
    returns (u: map<string, Named>)
    ensures u == Unified(names, aliases, radicals, variants)
  {
    u := WriteAll(map[], DirectEntries(names, aliases));
    assert map[] + DirectEntries(names, aliases) == DirectEntries(names, aliases);
    u := WriteAll(u, MappedEntries(radicals, aliases, "radical_of:"));
    u := WriteNew(u, MappedEntries(variants, aliases, "variant_of:"));
  }

  /** The precedence of the unified table: a direct name first, then a
      radical mapping of a character without one, then a variant mapping of
      a character still absent. */
  lemma UnifiedPrecedence(names: map<string, string>, aliases: map<string, seq<string>>,
                          radicals: map<string, (string, string)>, variants: map<string, (string, string)>, c: string)
    requires forall k :: k in radicals ==> k !in names
    ensures var u := Unified(names, aliases, radicals, variants);
      && (c in names ==> u[c] == Named(names[c], AliasesOf(aliases, c), "heisig_direct"))
      && (c in radicals ==>
            u[c] == Named(radicals[c].1, AliasesOf(aliases, radicals[c].0), "radical_of:" + radicals[c].0))
      && (c !in names && c !in radicals && c in variants ==>
            u[c] == Named(variants[c].1, AliasesOf(aliases, variants[c].0), "variant_of:" + variants[c].0))
      && (c !in names && c !in radicals && c !in variants ==> c !in u)
  {
    var d := DirectEntries(names, aliases);
    var r := MappedEntries(radicals, aliases, "radical_of:");
    var v := MappedEntries(variants, aliases, "variant_of:");
    var u := d + r;
    var w := u + map c | c in v && c !in u :: v[c];
    assert Unified(names, aliases, radicals, variants) == w;
    if c in names {
      assert c !in radicals && w[c] == u[c] == d[c];
    } else if c in radicals {
      assert w[c] == u[c] == r[c];
    } else {
      assert c !in u;
    }
  }

  /** For the tables the script builds: the radical mappings avoid named
      characters; a direct entry lists the keyword before the aliases, and
      a mapped entry reuses its parent's list. */
  lemma UnifiedOfScript(es: seq<Entry>, derived: map<string, string>, rows: seq<Row>, c: string)
    ensures var names := NameTable(es);
      var radicals := Redirect(names, RadicalParents(derived));
      && (forall k :: k in radicals ==> k !in names)
      && (c in names ==> AliasesOf(AliasTable(es), c) == [CharIndex(es)[c].keyword] + CharIndex(es)[c].aliases)
      && (c in radicals ==> AliasesOf(AliasTable(es), radicals[c].0) == AliasTable(es)[radicals[c].0])
  {
    var names := NameTable(es);
    var radicals := Redirect(names, RadicalParents(derived));
    if c in radicals {
      NameTablesAgree(es, radicals[c].0);
    }
  }

  // ---------------------------------------------------------------------
  // get_leaf_components
  // ---------------------------------------------------------------------

  /** The character leaves of a parsed tree, left to right. */
  function TreeLeaves(t: IdsNode): seq<string>
    decreases t, 1
  {
    match t
    case Lit(c) => [[c]]
    case Num(_) => []
    case Op(_, ks) => TreeLeavesFrom(t, 0)
  }

  function TreeLeavesFrom(t: IdsNode, i: nat): seq<string>
    requires t.Op? && i <= |t.kids|
    decreases t, 0, |t.kids| - i
  {
    if i == |t.kids| then [] else TreeLeaves(t.kids[i]) + TreeLeavesFrom(t, i + 1)
  }

  /** `get_leaf_components`: nothing for a missing tree. */
  function LeafComponents(t: Option<IdsNode>): seq<string> {
    if t.None? then [] else TreeLeaves(t.value)
  }

  /** The recursive walk that extends the result child by child. */
  method WalkLeaves(t: IdsNode) returns (r: seq<string>)
    ensures r == TreeLeaves(t)
    decreases t
  {
    match t {
      case Lit(c) => r := [[c]];
      case Num(_) => r := [];
      case Op(_, ks) =>
        r := [];
        var i := 0;
        while i < |ks|
          invariant 0 <= i <= |ks|
          invariant r + TreeLeavesFrom(t, i) == TreeLeaves(t)
        {
          var more := WalkLeaves(ks[i]);
          r := r + more;
          i := i + 1;
        }
    }
  }

  /** A leaf the character parser produces: one character, neither an
      operator nor a skipped character. */
  predicate PlainLeaf(l: string) {
    |l| == 1 && !IsOperator(l[0]) && !Skipped(l[0])
  }

  predicate AllPlain(t: IdsNode) {
    forall l :: l in TreeLeaves(t) ==> PlainLeaf(l)
  }

  /** The leaves of the character parser's tree are single characters that
      are neither operators nor skipped, as the input has them. */
  lemma {:induction false} ParsedLeavesPlain(cs: string, p: nat)
    requires p <= |cs| && CharParseAt(cs, p).0.Some?
    ensures AllPlain(CharParseAt(cs, p).0.value)
    decreases |cs| - p, 0
  {
    var c := cs[p];
    if IsOperator(c) {
      ParsedKidsPlain(cs, p + 1, Arity(c));
      var t := CharParseAt(cs, p).0.value;
      forall l | l in TreeLeaves(t) ensures PlainLeaf(l) {
        var i := LeafFromKid(t, 0, l);
        assert AllPlain(t.kids[i]);
      }
    } else if Skipped(c) {
      ParsedLeavesPlain(cs, p + 1);
    }
  }

  lemma {:induction false} ParsedKidsPlain(cs: string, p: nat, k: nat)
    requires p <= |cs|
    ensures forall i :: 0 <= i < |CharParseKidsAt(cs, p, k).0| ==> AllPlain(CharParseKidsAt(cs, p, k).0[i])
    decreases |cs| - p, 1, k
  {
    if k > 0 {
      var first := CharParseAt(cs, p);
      var rest := CharParseKidsAt(cs, first.1, k - 1).0;
      ParsedKidsPlain(cs, first.1, k - 1);
      if first.0.Some? {
        ParsedLeavesPlain(cs, p);
        var ks := CharParseKidsAt(cs, p, k).0;
        assert ks == [first.0.value] + rest;
        forall i | 0 <= i < |ks| ensures AllPlain(ks[i]) {
          if i > 0 {
            assert ks[i] == rest[i - 1];
          }
        }
      }
    }
  }

  /** A leaf of an operator node is a leaf of one of its children. */
  lemma {:induction false} LeafFromKid(t: IdsNode, i: nat, l: string) returns (j: nat)
    requires t.Op? && i <= |t.kids| && l in TreeLeavesFrom(t, i)
    ensures i <= j < |t.kids| && l in TreeLeaves(t.kids[j])
    decreases |t.kids| - i
  {
    if l in TreeLeaves(t.kids[i]) {
      j := i;
    } else {
      j := LeafFromKid(t, i + 1, l);
    }
  }

  // ---------------------------------------------------------------------
  // Coverage
  // ---------------------------------------------------------------------

  datatype Bucket = Fully | Partially | Unmapped

  /** The leaves of `c`'s first IDS string that are unnamed and not `c`. */
  function UnknownLeaves(known: set<string>, ids: map<string, seq<string>>, c: string): seq<string>
    requires IdsListsNonEmpty(ids) && c in ids
  {
    Unknown(LeafComponents(CharParseOf(ids[c][0])), known, c)
  }

  function Unknown(leaves: seq<string>, known: set<string>, c: string): (r: seq<string>)
    ensures forall l :: l in r <==> l in leaves && l !in known && l != c
    ensures r == [] <==> forall i :: 0 <= i < |leaves| ==> leaves[i] in known || leaves[i] == c
  {
    if leaves == [] then []
    else
      assert leaves == [leaves[0]] + leaves[1..];
      (if leaves[0] !in known && leaves[0] != c then [leaves[0]] else []) + Unknown(leaves[1..], known, c)
  }

  /** The bucket of one spreadsheet character. */
  function Classify(known: set<string>, ids: map<string, seq<string>>, c: string): (r: Bucket)
    requires IdsListsNonEmpty(ids)
    ensures r == Fully ==> c in known
    ensures c in known ==> r != Unmapped
    ensures c !in ids ==> r != Partially
  {
    if c in ids then
      var unknown := UnknownLeaves(known, ids, c);
      if c in known && unknown == [] then Fully
      else if c in known || unknown == [] then Partially
      else Unmapped
    else if c in known then Fully
    else Unmapped
  }

  /** The components left unnamed across the first `chars`. */
  function UnmappedComponents(known: set<string>, ids: map<string, seq<string>>, chars: seq<string>): set<string>
    requires IdsListsNonEmpty(ids)
  {
    if chars == [] then {}
    else
      var c := chars[|chars| - 1];
      UnmappedComponents(known, ids, chars[..|chars| - 1])
        + (if c in ids then set l | l in UnknownLeaves(known, ids, c) else {})
  }

  function CountIn(known: set<string>, ids: map<string, seq<string>>, chars: seq<string>, b: Bucket): (n: nat)
    requires IdsListsNonEmpty(ids)
    ensures n <= |chars|
  {
    if chars == [] then 0
    else CountIn(known, ids, chars[..|chars| - 1], b) + (if Classify(known, ids, chars[|chars| - 1]) == b then 1 else 0)
  }

  /** The coverage loop over the sorted spreadsheet characters. */
  method CoveragePass(known: set<string>, ids: map<string, seq<string>>, chars: seq<string>)
    returns (fully: nat, partially: nat, unmapped: nat, components: set<string>)
    requires IdsListsNonEmpty(ids)
    ensures fully == CountIn(known, ids, chars, Fully)
    ensures partially == CountIn(known, ids, chars, Partially)
    ensures unmapped == CountIn(known, ids, chars, Unmapped)
    ensures components == UnmappedComponents(known, ids, chars)
  {
    fully, partially, unmapped, components := 0, 0, 0, {};
    for i := 0 to |chars|
      invariant fully == CountIn(known, ids, chars[..i], Fully)
      invariant partially == CountIn(known, ids, chars[..i], Partially)
      invariant unmapped == CountIn(known, ids, chars[..i], Unmapped)
      invariant components == UnmappedComponents(known, ids, chars[..i])
    {
      assert chars[..i + 1][..i] == chars[..i];
      var b, unknown := ClassifyOne(known, ids, chars[i]);
      match b {
        case Fully => fully := fully + 1;
        case Partially => partially := partially + 1;
        case Unmapped => unmapped := unmapped + 1;
      }
      components := components + unknown;
    }
    assert chars[..|chars|] == chars;
  }

  /** The body of the coverage loop for one character. */
  method ClassifyOne(known: set<string>, ids: map<string, seq<string>>, c: string) returns (b: Bucket, unknown: set<string>)
    requires IdsListsNonEmpty(ids)
    ensures b == Classify(known, ids, c)
    ensures unknown == if c in ids then set l | l in UnknownLeaves(known, ids, c) else {}
  {
    var charKnown := c in known;
    if c in ids {
      var tree := CharParseIds(ids[c][0]);
      var leaves := GetLeafComponents(tree);
      var unknownLeaves := Unknown(leaves, known, c);
      if charKnown && unknownLeaves == [] {
        b := Fully;
      } else if charKnown || unknownLeaves == [] {
        b := Partially;
      } else {
        b := Unmapped;
      }
      unknown := set l | l in unknownLeaves;
    } else {
      b := if charKnown then Fully else Unmapped;
      unknown := {};
    }
  }

  /** `get_leaf_components` on a parse result that may be missing. */
  method GetLeafComponents(t: Option<IdsNode>) returns (r: seq<string>)
    ensures r == LeafComponents(t)
  {
    if t.None? {
      r := [];
    } else {
      r := WalkLeaves(t.value);
    }
  }

  /** Every character lands in exactly one bucket. */
  lemma {:induction false} BucketsPartition(known: set<string>, ids: map<string, seq<string>>, chars: seq<string>)
    requires IdsListsNonEmpty(ids)
    ensures CountIn(known, ids, chars, Fully) + CountIn(known, ids, chars, Partially)
      + CountIn(known, ids, chars, Unmapped) == |chars|
  {
    if chars != [] {
      BucketsPartition(known, ids, chars[..|chars| - 1]);
    }
  }

  /** A character named like all its other leaves is fully mapped even when
      its IDS string mentions itself; the unmapped components never include
      the character whose string they come from. */
  lemma SelfLeafIgnored(known: set<string>, ids: map<string, seq<string>>, c: string)
    requires IdsListsNonEmpty(ids) && c in ids && c in known
    requires forall l :: l in LeafComponents(CharParseOf(ids[c][0])) ==> l in known || l == c
    ensures Classify(known, ids, c) == Fully
  {
  }

  /** A character is unmapped exactly when it is unnamed and has an unnamed
      leaf other than itself, or no IDS string. */
  lemma UnmappedIff(known: set<string>, ids: map<string, seq<string>>, c: string)
    requires IdsListsNonEmpty(ids)
    ensures Classify(known, ids, c) == Unmapped <==>
      c !in known && (c in ids ==> exists l :: l in LeafComponents(CharParseOf(ids[c][0])) && l !in known && l != c)
  {
    if c in ids && c !in known {
      var leaves := LeafComponents(CharParseOf(ids[c][0]));
      if exists l :: l in leaves && l !in known && l != c {
        var l :| l in leaves && l !in known && l != c;
        var i :| 0 <= i < |leaves| && leaves[i] == l;
      }
    }
  }
}
