/**
 * The Heisig knowledge index shared by the decomposition scripts: the
 * character → entry table (`heisig_by_char`), the keyword/alias →
 * character table (`heisig_by_keyword`), the synthetic entries added for
 * radical variants and for traditional/kanji forms of a simplified
 * character, and the name a character is known by.
 *
 * The entries themselves come from rsh_parsed.json (characters, then
 * primitives); here they are a sequence passed in.
 */
module Heisig {
  import opened Util

  /** One entry of `heisig_by_char`. `variantOf` is the `variant_of` key,
      absent on entries read from the book and on the first generation's
      radical variants. */
  datatype Entry = Entry(
    character: string,
    keyword: string,
    kind: string,
    aliases: seq<string>,
    components: seq<string>,
    variantOf: Option<string>)

  // ---------------------------------------------------------------------
  // heisig_by_char
  // ---------------------------------------------------------------------

  function CharPairs(es: seq<Entry>): (r: seq<(string, Entry)>)
    ensures |r| == |es| && forall i :: 0 <= i < |es| ==> r[i] == (es[i].character, es[i])
  {
    seq(|es|, i requires 0 <= i < |es| => (es[i].character, es[i]))
  }

  /** `heisig_by_char[e["character"]] = e` for every entry in order. */
  function CharIndex(es: seq<Entry>): (r: map<string, Entry>)
    ensures forall c :: c in r ==> r[c].character == c && r[c] in es
  {
    var r := FromPairs(CharPairs(es));
    forall c | c in r ensures r[c].character == c && r[c] in es {
      FromPairsValue(CharPairs(es), c);
    }
    r
  }

  /** Every entry's character is indexed, and to the last entry with that
      character. */
  lemma CharIndexLast(es: seq<Entry>, i: nat)
    requires i < |es| && forall j :: i < j < |es| ==> es[j].character != es[i].character
    ensures es[i].character in CharIndex(es) && CharIndex(es)[es[i].character] == es[i]
  {
    FromPairsLast(CharPairs(es), i);
  }

  lemma CharIndexKeys(es: seq<Entry>, c: string)
    ensures c in CharIndex(es) <==> exists i :: 0 <= i < |es| && es[i].character == c
  {
    FromPairsKeys(CharPairs(es), c);
    if exists i :: 0 <= i < |CharPairs(es)| && CharPairs(es)[i].0 == c {
      var i :| 0 <= i < |CharPairs(es)| && CharPairs(es)[i].0 == c;
      assert es[i].character == c;
    }
  }

  // ---------------------------------------------------------------------
  // heisig_by_keyword
  // ---------------------------------------------------------------------

  /** The assignments `heisig_by_keyword[e["keyword"]] = e["character"]`. */
  function KeywordPairs(es: seq<Entry>): (r: seq<(string, string)>)
    ensures |r| == |es| && forall i :: 0 <= i < |es| ==> r[i] == (es[i].keyword, es[i].character)
  {
    seq(|es|, i requires 0 <= i < |es| => (es[i].keyword, es[i].character))
  }

  /** The assignments of one entry's aliases. */
  function AliasPairsOf(e: Entry): (r: seq<(string, string)>)
    ensures |r| == |e.aliases| && forall j :: 0 <= j < |r| ==> r[j] == (e.aliases[j], e.character)
  {
    seq(|e.aliases|, j requires 0 <= j < |e.aliases| => (e.aliases[j], e.character))
  }

  /** The assignments of all aliases, entry by entry. */
  function AliasPairs(es: seq<Entry>): seq<(string, string)> {
    if es == [] then [] else AliasPairsOf(es[0]) + AliasPairs(es[1..])
  }

  /** One entry's assignments in the single-pass loop: keyword, then aliases. */
  function EntryPairs(e: Entry): seq<(string, string)> {
    [(e.keyword, e.character)] + AliasPairsOf(e)
  }

  function SinglePassPairs(es: seq<Entry>): seq<(string, string)> {
    if es == [] then [] else EntryPairs(es[0]) + SinglePassPairs(es[1..])
  }

  /** scripts/build_decks.py: all keywords in a first pass, all aliases in a
      second, so that an alias is never displaced by a keyword. */
  function KeywordIndex(es: seq<Entry>): map<string, string> {
    FromPairs(KeywordPairs(es) + AliasPairs(es))
  }

  /** The first two generations and scripts/build_mapping.py: one pass,
      each entry's keyword and then its aliases. */
  function SinglePassIndex(es: seq<Entry>): map<string, string> {
    FromPairs(SinglePassPairs(es))
  }

  /** An alias always wins over a keyword: the name maps to the character
      its alias pass assigned last, whatever the keywords say; a name no
      entry has as an alias maps as the keyword pass left it. */
  lemma AliasesOverrideKeywords(es: seq<Entry>, a: string)
    ensures var aliases := FromPairs(AliasPairs(es));
      a in aliases ==> a in KeywordIndex(es) && KeywordIndex(es)[a] == aliases[a]
    ensures var aliases := FromPairs(AliasPairs(es));
      var keywords := FromPairs(KeywordPairs(es));
      a !in aliases ==> ((a in KeywordIndex(es) <==> a in keywords)
        && (a in keywords ==> KeywordIndex(es)[a] == keywords[a]))
  {
    FromPairsAppend(KeywordPairs(es), AliasPairs(es));
  }

  /** The alias pass assigns exactly the aliases of the entries. */
  lemma {:induction false} AliasPairsMembers(es: seq<Entry>, p: (string, string))
    ensures p in AliasPairs(es) <==>
      exists i, j :: 0 <= i < |es| && 0 <= j < |es[i].aliases| && p == (es[i].aliases[j], es[i].character)
  {
    if es != [] {
      AliasPairsMembers(es[1..], p);
      if p in AliasPairs(es[1..]) {
        var i, j :| 0 <= i < |es[1..]| && 0 <= j < |es[1..][i].aliases| && p == (es[1..][i].aliases[j], es[1..][i].character);
        assert es[i + 1] == es[1..][i];
      }
      if p in AliasPairsOf(es[0]) {
        var j :| 0 <= j < |AliasPairsOf(es[0])| && AliasPairsOf(es[0])[j] == p;
        assert p == (es[0].aliases[j], es[0].character);
      }
      if exists i, j :: 0 <= i < |es| && 0 <= j < |es[i].aliases| && p == (es[i].aliases[j], es[i].character) {
        var i, j :| 0 <= i < |es| && 0 <= j < |es[i].aliases| && p == (es[i].aliases[j], es[i].character);
        if i == 0 {
          assert AliasPairsOf(es[0])[j] == p;
        } else {
          assert es[1..][i - 1] == es[i];
        }
      }
    }
  }

  /** The two index builds disagree: when an earlier entry has `a` as an
      alias and a later one has it as keyword, the two-pass index keeps the
      alias while the single pass lets the later keyword overwrite it. */
  lemma SinglePassLetsKeywordOverwriteAlias(e1: Entry, e2: Entry, a: string)
    requires e1.aliases == [a] && e1.keyword != a
    requires e2.keyword == a && e2.aliases == []
    ensures a in KeywordIndex([e1, e2]) && KeywordIndex([e1, e2])[a] == e1.character
    ensures a in SinglePassIndex([e1, e2]) && SinglePassIndex([e1, e2])[a] == e2.character
  {
    var es := [e1, e2];
    assert AliasPairsOf(e1) == [(a, e1.character)];
    assert AliasPairsOf(e2) == [];
    assert es[1..] == [e2] && es[1..][1..] == [];
    assert AliasPairs(es[1..]) == [];
    assert AliasPairs(es) == [(a, e1.character)];
    FromPairsLast(KeywordPairs(es) + AliasPairs(es), 2);
    assert SinglePassPairs(es[1..]) == [(a, e2.character)];
    assert SinglePassPairs(es) == [(e1.keyword, e1.character), (a, e1.character), (a, e2.character)];
    FromPairsLast(SinglePassPairs(es), 2);
  }

  // ---------------------------------------------------------------------
  // Synthetic entries for radical variants and trad/kanji forms
  // ---------------------------------------------------------------------

  /** How a synthetic entry is built: scripts/recursive_decompose.py gives it
      no aliases and no `variant_of`; the later generations copy the
      parent's aliases and record the parent. */
  datatype Style = Bare | Linked

  /** The entry made for `ch` from its parent's entry. */
  function Derived(ch: string, parent: string, p: Entry, kind: string, style: Style): (e: Entry)
    ensures e.character == ch && e.keyword == p.keyword && e.kind == kind && e.components == []
    ensures e.aliases == (if style == Linked then p.aliases else [])
    ensures e.variantOf == (if style == Linked then Some(parent) else None)
  {
    Entry(ch, p.keyword, kind, if style == Linked then p.aliases else [], [],
          if style == Linked then Some(parent) else None)
  }

  /** One synthesis step: only a character without an entry whose parent
      has one gets an entry. */
  function AddVariant(m: map<string, Entry>, ch: string, parent: string, kind: string, style: Style): map<string, Entry> {
    if ch !in m && parent in m then m[ch := Derived(ch, parent, m[parent], kind, style)] else m
  }

  /** The loop over `radical_map.items()`, in table order. */
  function RadicalVariants(m: map<string, Entry>, table: seq<(string, string)>, style: Style): (r: map<string, Entry>)
    ensures Keeps(m, r)
    decreases |table|
  {
    if table == [] then m
    else RadicalVariants(AddVariant(m, table[0].0, table[0].1, "radical_variant", style), table[1..], style)
  }

  /** A spreadsheet row: the traditional (RTH), simplified (RSH) and kanji
      (RTK) cells, each possibly empty. */
  datatype Row = Row(th: Option<string>, sh: Option<string>, k: Option<string>)

  /** One cell of a row: a non-empty form that differs from the non-empty
      simplified form. */
  function AddRowChar(m: map<string, Entry>, c: Option<string>, sh: Option<string>): map<string, Entry> {
    if Truthy(c) && Truthy(sh) && c.value != sh.value then AddVariant(m, c.value, sh.value, "variant", Linked) else m
  }

  /** The loop over the rows, traditional cell before kanji cell. */
  function RowVariants(m: map<string, Entry>, rows: seq<Row>): map<string, Entry>
    decreases |rows|
  {
    if rows == [] then m
    else RowVariants(AddRowChar(AddRowChar(m, rows[0].th, rows[0].sh), rows[0].k, rows[0].sh), rows[1..])
  }

  /** `r` keeps every entry of `m` unchanged. */
  predicate Keeps(m: map<string, Entry>, r: map<string, Entry>) {
    forall k :: k in m ==> k in r && r[k] == m[k]
  }

  /** One synthesis step never overwrites an entry. */
  lemma AddVariantKeeps(m: map<string, Entry>, ch: string, parent: string, kind: string, style: Style)
    ensures Keeps(m, AddVariant(m, ch, parent, kind, style))
  {
  }

  /** The entry one synthesis step adds is the character's, copied from its
      parent's entry, which is left alone. */
  lemma AddVariantAdded(m: map<string, Entry>, ch: string, parent: string, kind: string, style: Style, k: string)
    requires k !in m && k in AddVariant(m, ch, parent, kind, style)
    ensures var m1 := AddVariant(m, ch, parent, kind, style);
      k == ch && parent in m && m1[parent] == m[parent] && m1[k] == Derived(k, parent, m[parent], kind, style)
  {
  }

  /** Radical-variant synthesis never overwrites an entry. */
  lemma {:induction false} RadicalVariantsKeeps(m: map<string, Entry>, table: seq<(string, string)>, style: Style)
    ensures Keeps(m, RadicalVariants(m, table, style))
    decreases |table|
  {
    if table != [] {
      var m1 := AddVariant(m, table[0].0, table[0].1, "radical_variant", style);
      AddVariantKeeps(m, table[0].0, table[0].1, "radical_variant", style);
      RadicalVariantsKeeps(m1, table[1..], style);
    }
  }

  /** Every entry radical-variant synthesis adds is for a table variant and
      copies the entry its parent has. */
  lemma {:induction false} RadicalVariantsOrigin(m: map<string, Entry>, table: seq<(string, string)>, style: Style)
    ensures var r := RadicalVariants(m, table, style);
      forall k :: k in r && k !in m ==> exists i :: (0 <= i < |table| && table[i].0 == k && table[i].1 in r
        && r[k] == Derived(k, table[i].1, r[table[i].1], "radical_variant", style))
    decreases |table|
  {
    if table != [] {
      var m1 := AddVariant(m, table[0].0, table[0].1, "radical_variant", style);
      var r := RadicalVariants(m1, table[1..], style);
      assert r == RadicalVariants(m, table, style);
      assert Keeps(m1, r) by { RadicalVariantsKeeps(m1, table[1..], style); }
      assert forall k :: k in r && k !in m1 ==> exists i :: (0 <= i < |table[1..]| && table[1..][i].0 == k && table[1..][i].1 in r
        && r[k] == Derived(k, table[1..][i].1, r[table[1..][i].1], "radical_variant", style)) by {
        RadicalVariantsOrigin(m1, table[1..], style);
      }
      forall k | k in r && k !in m
        ensures exists i :: (0 <= i < |table| && table[i].0 == k && table[i].1 in r
          && r[k] == Derived(k, table[i].1, r[table[i].1], "radical_variant", style))
      {
        if k in m1 {
          AddVariantAdded(m, table[0].0, table[0].1, "radical_variant", style, k);
        } else {
          var i :| 0 <= i < |table[1..]| && table[1..][i].0 == k && table[1..][i].1 in r
            && r[k] == Derived(k, table[1..][i].1, r[table[1..][i].1], "radical_variant", style);
          assert table[i + 1] == table[1..][i];
        }
      }
    }
  }

  /** Every table variant whose parent had an entry ends up with one. */
  lemma {:induction false} RadicalVariantsCovers(m: map<string, Entry>, table: seq<(string, string)>, style: Style)
    ensures var r := RadicalVariants(m, table, style);
      forall i :: 0 <= i < |table| && table[i].1 in m ==> table[i].0 in r
    decreases |table|
  {
    if table != [] {
      var m1 := AddVariant(m, table[0].0, table[0].1, "radical_variant", style);
      var r := RadicalVariants(m1, table[1..], style);
      assert Keeps(m1, r) by { RadicalVariantsKeeps(m1, table[1..], style); }
      assert forall i :: 0 <= i < |table[1..]| && table[1..][i].1 in m1 ==> table[1..][i].0 in r by {
        RadicalVariantsCovers(m1, table[1..], style);
      }
      forall i | 0 <= i < |table| && table[i].1 in m ensures table[i].0 in r {
        if i > 0 { assert table[1..][i - 1] == table[i]; }
      }
    }
  }

  /** Trad/kanji synthesis never overwrites an entry. */
  lemma {:induction false} RowVariantsKeeps(m: map<string, Entry>, rows: seq<Row>)
    ensures Keeps(m, RowVariants(m, rows))
    decreases |rows|
  {
    if rows != [] {
      var row := rows[0];
      var m0 := AddRowChar(m, row.th, row.sh);
      var m1 := AddRowChar(m0, row.k, row.sh);
      assert Keeps(m, m1);
      RowVariantsKeeps(m1, rows[1..]);
    }
  }

  /** An entry the two cells of one row add is for one of them and copies
      the simplified form's entry, which is left alone. */
  lemma RowCellsAdded(m: map<string, Entry>, row: Row, k: string)
    requires k !in m && k in AddRowChar(AddRowChar(m, row.th, row.sh), row.k, row.sh)
    ensures var m1 := AddRowChar(AddRowChar(m, row.th, row.sh), row.k, row.sh);
      RowCell(row, k) && row.sh.value in m && m1[row.sh.value] == m[row.sh.value]
      && m1[k] == Derived(k, row.sh.value, m[row.sh.value], "variant", Linked)
  {
  }

  /** Every entry trad/kanji synthesis adds is a cell of some row, differs
      from that row's simplified form and copies the simplified form's
      entry. */
  lemma {:induction false} RowVariantsOrigin(m: map<string, Entry>, rows: seq<Row>)
    ensures var r := RowVariants(m, rows);
      forall k :: k in r && k !in m ==> exists i :: (0 <= i < |rows| && RowCell(rows[i], k)
        && rows[i].sh.value in r && r[k] == Derived(k, rows[i].sh.value, r[rows[i].sh.value], "variant", Linked))
    decreases |rows|
  {
    if rows != [] {
      var row := rows[0];
      var m0 := AddRowChar(m, row.th, row.sh);
      var m1 := AddRowChar(m0, row.k, row.sh);
      var r := RowVariants(m1, rows[1..]);
      assert r == RowVariants(m, rows);
      assert Keeps(m1, r) by { RowVariantsKeeps(m1, rows[1..]); }
      assert forall k :: k in r && k !in m1 ==> exists i :: (0 <= i < |rows[1..]| && RowCell(rows[1..][i], k)
        && rows[1..][i].sh.value in r && r[k] == Derived(k, rows[1..][i].sh.value, r[rows[1..][i].sh.value], "variant", Linked)) by {
        RowVariantsOrigin(m1, rows[1..]);
      }
      forall k | k in r && k !in m
        ensures exists i :: (0 <= i < |rows| && RowCell(rows[i], k)
          && rows[i].sh.value in r && r[k] == Derived(k, rows[i].sh.value, r[rows[i].sh.value], "variant", Linked))
      {
        if k in m1 {
          RowCellsAdded(m, row, k);
          assert rows[0] == row;
        } else {
          var i :| 0 <= i < |rows[1..]| && RowCell(rows[1..][i], k)
            && rows[1..][i].sh.value in r
            && r[k] == Derived(k, rows[1..][i].sh.value, r[rows[1..][i].sh.value], "variant", Linked);
          assert rows[i + 1] == rows[1..][i];
        }
      }
    }
  }

  /** `k` is the traditional or kanji cell of `row`, different from its
      non-empty simplified cell. */
  predicate RowCell(row: Row, k: string) {
    Truthy(row.sh) && k != row.sh.value && (row.th == Some(k) || row.k == Some(k))
  }

  /** `heisig_by_char` while the loading code adds synthetic entries. */
  class CharTable {
    var entries: map<string, Entry>

    /** The table as read from the book: one entry per character. */
    constructor(es: seq<Entry>)
      ensures entries == CharIndex(es)
    {
      var m: map<string, Entry> := map[];
      var i := 0;
      while i < |es|
        invariant 0 <= i <= |es|
        invariant m == FromPairs(CharPairs(es)[..i])
      {
        assert CharPairs(es)[..i + 1][..i] == CharPairs(es)[..i];
        m := m[es[i].character := es[i]];
        i := i + 1;
      }
      assert CharPairs(es)[..i] == CharPairs(es);
      entries := m;
    }

    /** The loop over the radical table. */
    method AddRadicalVariants(table: seq<(string, string)>, style: Style)
      modifies this
      ensures entries == RadicalVariants(old(entries), table, style)
    {
      var i := 0;
      while i < |table|
        invariant 0 <= i <= |table|
        invariant RadicalVariants(entries, table[i..], style) == RadicalVariants(old(entries), table, style)
      {
        assert table[i..][1..] == table[i + 1..];
        var (variant, parent) := table[i];
        if variant !in entries && parent in entries {
          entries := entries[variant := Derived(variant, parent, entries[parent], "radical_variant", style)];
        }
        i := i + 1;
      }
    }

    /** The loop over the spreadsheet rows. */
    method AddRowVariants(rows: seq<Row>)
      modifies this
      ensures entries == RowVariants(old(entries), rows)
    {
      var i := 0;
      while i < |rows|
        invariant 0 <= i <= |rows|
        invariant RowVariants(entries, rows[i..]) == RowVariants(old(entries), rows)
      {
        assert rows[i..][1..] == rows[i + 1..];
        var row := rows[i];
        // for char in [th, k]
        if Truthy(row.th) && Truthy(row.sh) && row.th.value != row.sh.value
          && row.th.value !in entries && row.sh.value in entries
        {
          entries := entries[row.th.value := Derived(row.th.value, row.sh.value, entries[row.sh.value], "variant", Linked)];
        }
        if Truthy(row.k) && Truthy(row.sh) && row.k.value != row.sh.value
          && row.k.value !in entries && row.sh.value in entries
        {
          entries := entries[row.k.value := Derived(row.k.value, row.sh.value, entries[row.sh.value], "variant", Linked)];
        }
        i := i + 1;
      }
    }
  }

  // ---------------------------------------------------------------------
  // Names
  // ---------------------------------------------------------------------

  /** `get_heisig_name` of the first two generations: the first alias,
      else the keyword, for characters with an entry. */
  function EntryName(m: map<string, Entry>, ch: string): Option<string> {
    if ch in m then
      if m[ch].aliases != [] then Some(m[ch].aliases[0]) else Some(m[ch].keyword)
    else None
  }

  /** A name exists exactly for the characters with an entry, and it is one
      of the entry's names. */
  lemma EntryNameSpec(m: map<string, Entry>, ch: string)
    ensures EntryName(m, ch).None? <==> ch !in m
    ensures ch in m ==> EntryName(m, ch).value in [m[ch].keyword] + m[ch].aliases
  {
    if ch in m && m[ch].aliases != [] {
      assert ([m[ch].keyword] + m[ch].aliases)[1] == m[ch].aliases[0];
    }
  }

  /** A `Bare` radical variant is named by its parent's keyword even when the
      parent itself is named by an alias; a `Linked` one has its parent's
      name. */
  lemma VariantName(m: map<string, Entry>, ch: string, parent: string, style: Style)
    requires ch !in m && parent in m
    ensures var r := AddVariant(m, ch, parent, "radical_variant", style);
      EntryName(r, ch) == (if style == Bare then Some(m[parent].keyword) else EntryName(m, parent))
  {
  }

  /** scripts/build_decks.py `get_heisig_name`: a human-review name first,
      then the entry's name, then the unified mapping's name. */
  function DeckName(human: map<string, string>, m: map<string, Entry>, unified: map<string, string>, ch: string): (r: Option<string>)
    ensures ch in human ==> r == Some(human[ch])
    ensures ch !in human && ch in m ==> r == EntryName(m, ch)
    ensures ch !in human && ch !in m ==> r == (if ch in unified then Some(unified[ch]) else None)
  {
    if ch in human then Some(human[ch])
    else if ch in m then EntryName(m, ch)
    else if ch in unified then Some(unified[ch])
    else None
  }

  /** Only a character unknown to all three tables has no name. */
  lemma DeckNameNone(human: map<string, string>, m: map<string, Entry>, unified: map<string, string>, ch: string)
    ensures DeckName(human, m, unified, ch).None? <==> ch !in human && ch !in m && ch !in unified
  {
  }

  // ---------------------------------------------------------------------
  // The radical tables
  // ---------------------------------------------------------------------

  /** The 44 radical → parent pairs of scripts/recursive_decompose.py. */
  const FirstRadicals: seq<(string, string)> := [
    ("訁", "言"), ("糹", "糸"), ("釒", "金"), ("𥫗", "竹"), ("刂", "刀"),
    ("彳", "行"), ("𤣩", "玉"), ("𧾷", "足"), ("罒", "网"), ("乚", "乙"),
    ("飠", "食"), ("爫", "爪"), ("虍", "虎"), ("𧘇", "衣"), ("龶", "生"),
    ("𦍌", "羊"), ("亍", "行"), ("牜", "牛"), ("覀", "西"), ("丬", "爿"),
    ("䒑", "丷"), ("亻", "人"), ("氵", "水"), ("扌", "手"), ("忄", "心"),
    ("犭", "犬"), ("礻", "示"), ("衤", "衣"), ("灬", "火"), ("⺌", "小"),
    ("⺊", "卜"), ("讠", "言"), ("钅", "金"), ("饣", "食"), ("纟", "糸"),
    ("贝", "貝"), ("车", "車"), ("见", "見"), ("门", "門"), ("鱼", "魚"),
    ("马", "馬"), ("鸟", "鳥"), ("页", "頁"), ("风", "風")
  ]

  /** The 51 pairs of scripts/build_decks.py and
      scripts/archive/recursive_decompose_v2.py: the first table plus seven
      CJK radical-supplement forms. */
  const Radicals: seq<(string, string)> := FirstRadicals + [
    ("⺝", "月"), ("⺼", "月"), ("⺶", "羊"), ("⺀", "八"), ("⺄", "乙"),
    ("⺆", "冂"), ("⺈", "刀")
  ]
}
