/**
 * The deck merge of scripts/merge_generated.py: each deck table loses the
 * rows an earlier run generated (tags opening with "ML::" or "TW::") and then
 * receives the generated mainland or taiwan entries whose character it does
 * not yet hold. The simplified and traditional decks look characters up in a
 * map that is never updated while appending; the combined deck records each
 * mainland addition, so taiwan entries never repeat a character it holds.
 *
 * A row is the dictionary a CSV row is read as; an entry is one object of the
 * generated JSON lists, with its two required keys and its optional ones.
 */
module MergeGenerated {
  import opened Util
  import Apkg

  type Row = map<string, string>

  /** A generated entry: `e["char"]`, `e["keyword"]` and the other keys. */
  datatype Entry = Entry(ch: string, keyword: string, fields: map<string, string>)

  /** Every row has the "character" column that `row["character"]` reads. */
  predicate HasCharacters(rows: seq<Row>) {
    forall i :: 0 <= i < |rows| ==> "character" in rows[i]
  }

  // ---------------------------------------------------------------------
  // Loading a table
  // ---------------------------------------------------------------------

  /** The character-to-index dictionary `load_existing_csv` builds. */
  function LastIndex(rows: seq<Row>): map<string, nat>
    requires HasCharacters(rows)
  {
    if rows == [] then map[]
    else
      var init := rows[..|rows| - 1];
      assert forall i :: 0 <= i < |init| ==> init[i] == rows[i];
      LastIndex(init)[rows[|rows| - 1]["character"] := |rows| - 1]
  }

  /** Each character of the table maps to the index of its last row, and
      only the table's characters are keys. */
  lemma {:induction false} LastIndexSpec(rows: seq<Row>)
    requires HasCharacters(rows)
    ensures forall c :: c in LastIndex(rows) <==> exists i :: 0 <= i < |rows| && rows[i]["character"] == c
    ensures forall c :: c in LastIndex(rows) ==>
      LastIndex(rows)[c] < |rows| && rows[LastIndex(rows)[c]]["character"] == c
      && forall j :: LastIndex(rows)[c] < j < |rows| ==> rows[j]["character"] != c
  {
    if rows != [] {
      var init, n := rows[..|rows| - 1], |rows| - 1;
      var last := rows[n]["character"];
      assert forall i :: 0 <= i < |init| ==> init[i] == rows[i];
      LastIndexSpec(init);
      var m, mi := LastIndex(rows), LastIndex(init);
      assert m == mi[last := n];
      forall c
        ensures c in m <==> exists i :: 0 <= i < |rows| && rows[i]["character"] == c
      {
        if c != last && exists i :: 0 <= i < |rows| && rows[i]["character"] == c {
          var i :| 0 <= i < |rows| && rows[i]["character"] == c;
          assert i < |init| && init[i]["character"] == c;
        }
      }
      forall c | c in m
        ensures m[c] < |rows| && rows[m[c]]["character"] == c
        ensures forall j :: m[c] < j < |rows| ==> rows[j]["character"] != c
      {
        if c != last {
          assert m[c] == mi[c] < |init|;
          assert rows[m[c]] == init[mi[c]];
        }
      }
    }
  }

  /** The characters a table holds. */
  function Chars(rows: seq<Row>): set<string>
    requires HasCharacters(rows)
  {
    LastIndex(rows).Keys
  }

  lemma LastIndexSnoc(rows: seq<Row>, row: Row)
    requires HasCharacters(rows) && "character" in row
    ensures HasCharacters(rows + [row])
    ensures LastIndex(rows + [row]) == LastIndex(rows)[row["character"] := |rows|]
    ensures Chars(rows + [row]) == Chars(rows) + {row["character"]}
  {
    assert (rows + [row])[..|rows|] == rows;
    MapUpdateKeys(LastIndex(rows), row["character"], |rows|);
  }

  /** `load_existing_csv` on a table already read: the rows and the index. */
  method LoadExisting(table: seq<Row>) returns (rows: seq<Row>, chars: map<string, nat>)
    requires HasCharacters(table)
    ensures rows == table && chars == LastIndex(table)
  {
    chars := map[];
    rows := [];
    for i := 0 to |table|
      invariant rows == table[..i]
      invariant chars == LastIndex(rows)
    {
      var row := table[i];
      var ch := row["character"];
      LastIndexSnoc(rows, row);
      chars := chars[ch := |rows|];
      rows := rows + [row];
    }
    assert table[..|table|] == table;
  }

  // ---------------------------------------------------------------------
  // Stripping generated rows
  // ---------------------------------------------------------------------

  /** A row an earlier run appended: its tags open with "ML::" or "TW::". */
  predicate GeneratedTags(tags: string) {
    StartsWith(tags, "ML::") || StartsWith(tags, "TW::")
  }

  predicate IsGenerated(r: Row) {
    GeneratedTags(Apkg.GetOr(r, "tags", ""))
  }

  /** The rows kept by the list comprehension, in their order. */
  function Retained(rows: seq<Row>): (r: seq<Row>)
    ensures |r| <= |rows|
    ensures forall x :: x in r <==> x in rows && !IsGenerated(x)
    ensures HasCharacters(rows) ==> HasCharacters(r)
  {
    if rows == [] then []
    else (if IsGenerated(rows[0]) then [] else [rows[0]]) + Retained(rows[1..])
  }

  /** Stripping two tables one after the other strips each in turn: the kept
      rows stay in their relative order. */
  lemma {:induction false} RetainedAppend(a: seq<Row>, b: seq<Row>)
    ensures Retained(a + b) == Retained(a) + Retained(b)
  {
    if a == [] {
      assert a + b == b;
    } else {
      var x := if IsGenerated(a[0]) then [] else [a[0]];
      assert Retained(a + b) == x + Retained(a[1..] + b) by {
        assert (a + b)[0] == a[0];
        assert (a + b)[1..] == a[1..] + b;
      }
      RetainedAppend(a[1..], b);
      SeqAssoc(x, Retained(a[1..]), Retained(b));
    }
  }

  /** A table without generated rows is kept whole. */
  lemma {:induction false} RetainedNone(rows: seq<Row>)
    requires forall i :: 0 <= i < |rows| ==> !IsGenerated(rows[i])
    ensures Retained(rows) == rows
  {
    if rows != [] {
      RetainedNone(rows[1..]);
    }
  }

  /** A table of generated rows is stripped empty. */
  lemma {:induction false} RetainedAll(rows: seq<Row>)
    requires forall i :: 0 <= i < |rows| ==> IsGenerated(rows[i])
    ensures Retained(rows) == []
  {
    if rows != [] {
      RetainedAll(rows[1..]);
    }
  }

  /** Stripping twice strips once. */
  lemma StrippedIdempotent(rows: seq<Row>)
    ensures Retained(Retained(rows)) == Retained(rows)
  {
    var r := Retained(rows);
    forall i | 0 <= i < |r|
      ensures !IsGenerated(r[i])
    {
      assert r[i] in r;
    }
    RetainedNone(r);
  }

  // ---------------------------------------------------------------------
  // Generated rows
  // ---------------------------------------------------------------------

  /** The twelve columns of a generated row, in the order written. */
  const Columns: seq<string> := ["character", "keyword", "RTH_number", "RSH_number", "RTK_number",
    "reading", "decomposition", "spatial", "ids", "components_detail", "deck", "tags"]

  /** `to_row(e, deck)`. */
  function ToRow(e: Entry, deck: string): (r: Row)
    ensures "character" in r && r["character"] == e.ch
    ensures "deck" in r && r["deck"] == deck
    ensures "tags" in r && r["tags"] == Apkg.GetOr(e.fields, "tags", "")
    ensures "keyword" in r && r["keyword"] == e.keyword
    ensures "RSH_number" in r && "RTH_number" in r && "RTK_number" in r
    ensures r["RSH_number"] == "" && r["RTH_number"] == "" && r["RTK_number"] == ""
  {
    map["character" := e.ch, "keyword" := e.keyword,
        "RTH_number" := "", "RSH_number" := "", "RTK_number" := "",
        "reading" := Apkg.GetOr(e.fields, "reading", ""),
        "decomposition" := "", "spatial" := "",
        "ids" := Apkg.GetOr(e.fields, "ids", ""),
        "components_detail" := Apkg.GetOr(e.fields, "components_detail", ""),
        "deck" := deck,
        "tags" := Apkg.GetOr(e.fields, "tags", "")]
  }

  /** A generated row has exactly the twelve columns; the book numbers, the
      decomposition and the spatial note are empty, the other text fields
      come from the entry or default to "". */
  lemma ToRowColumns(e: Entry, deck: string)
    ensures var r := ToRow(e, deck);
      r.Keys == set k | k in Columns
      && r["decomposition"] == "" && r["spatial"] == ""
      && r["reading"] == Apkg.GetOr(e.fields, "reading", "")
      && r["ids"] == Apkg.GetOr(e.fields, "ids", "")
      && r["components_detail"] == Apkg.GetOr(e.fields, "components_detail", "")
  {
  }

  /** A generated row is stripped by the next run exactly when the entry's
      own tags mark it as generated. */
  lemma ToRowGenerated(e: Entry, deck: string)
    ensures IsGenerated(ToRow(e, deck)) <==> GeneratedTags(Apkg.GetOr(e.fields, "tags", ""))
  {
  }

  /** A generated row has no book number, so it sorts with the unnumbered
      cards of the package, by its keyword. */
  lemma ToRowSortKey(e: Entry, deck: string)
    ensures Apkg.FirstNumbered(ToRow(e, deck), 0).None?
    ensures Apkg.SortKey(ToRow(e, deck)) == Ok("ZZZ_" + e.keyword)
  {
    var r := ToRow(e, deck);
    assert Apkg.FirstNumbered(r, 0).None? by {
      assert Apkg.SortBooks[0] + "_number" == "RSH_number";
      assert Apkg.SortBooks[1] + "_number" == "RTH_number";
      assert Apkg.SortBooks[2] + "_number" == "RTK_number";
      assert Apkg.FirstNumbered(r, 3).None?;
    }
  }

  /** Every entry whose tags mark it as generated. */
  predicate AllTagged(gen: seq<Entry>) {
    forall i :: 0 <= i < |gen| ==> GeneratedTags(Apkg.GetOr(gen[i].fields, "tags", ""))
  }

  // ---------------------------------------------------------------------
  // Appending without recording (the simplified and traditional decks)
  // ---------------------------------------------------------------------

  /** The rows the simplified/traditional loop appends: one per entry whose
      character is not in the fixed set `known`, duplicates included. */
  function Appended(gen: seq<Entry>, known: set<string>, deck: string): (r: seq<Row>)
    ensures |r| <= |gen| && HasCharacters(r)
    ensures forall i :: 0 <= i < |r| ==> r[i]["character"] !in known && "deck" in r[i] && r[i]["deck"] == deck
  {
    if gen == [] then []
    else
      var e := gen[|gen| - 1];
      Appended(gen[..|gen| - 1], known, deck) + (if e.ch in known then [] else [ToRow(e, deck)])
  }

  lemma AppendedSnoc(gen: seq<Entry>, e: Entry, known: set<string>, deck: string)
    ensures Appended(gen + [e], known, deck) ==
      Appended(gen, known, deck) + (if e.ch in known then [] else [ToRow(e, deck)])
  {
    assert (gen + [e])[..|gen|] == gen;
  }

  /** Every appended row is a generated row of one of the entries. */
  lemma {:induction false} AppendedFrom(gen: seq<Entry>, known: set<string>, deck: string, i: nat)
    requires i < |Appended(gen, known, deck)|
    ensures exists j :: 0 <= j < |gen| && gen[j].ch !in known && Appended(gen, known, deck)[i] == ToRow(gen[j], deck)
  {
    var init := gen[..|gen| - 1];
    var e := gen[|gen| - 1];
    if i < |Appended(init, known, deck)| {
      AppendedFrom(init, known, deck, i);
      var j :| 0 <= j < |init| && init[j].ch !in known && Appended(init, known, deck)[i] == ToRow(init[j], deck);
      assert gen[j] == init[j];
    } else {
      assert Appended(gen, known, deck)[i] == ToRow(e, deck);
    }
  }

  /** All entries are appended exactly when none has a known character,
      repeated ones included. */
  lemma {:induction false} AppendedCount(gen: seq<Entry>, known: set<string>, deck: string)
    ensures |Appended(gen, known, deck)| == |gen| <==> forall i :: 0 <= i < |gen| ==> gen[i].ch !in known
  {
    if gen != [] {
      var init, e := gen[..|gen| - 1], gen[|gen| - 1];
      FrontLast(gen);
      AppendedSnoc(init, e, known, deck);
      AppendedCount(init, known, deck);
      assert forall i :: 0 <= i < |init| ==> init[i] == gen[i];
    }
  }

  /** When no character is known, each entry gives its row in place. */
  lemma {:induction false} AppendedRows(gen: seq<Entry>, known: set<string>, deck: string)
    requires forall i :: 0 <= i < |gen| ==> gen[i].ch !in known
    ensures |Appended(gen, known, deck)| == |gen|
    ensures forall i :: 0 <= i < |gen| ==> Appended(gen, known, deck)[i] == ToRow(gen[i], deck)
  {
    AppendedCount(gen, known, deck);
    if gen != [] {
      var init, e := gen[..|gen| - 1], gen[|gen| - 1];
      FrontLast(gen);
      AppendedSnoc(init, e, known, deck);
      AppendedRows(init, known, deck);
      var a := Appended(init, known, deck);
      forall i | 0 <= i < |gen|
        ensures Appended(gen, known, deck)[i] == ToRow(gen[i], deck)
      {
        AppendIndex(a, [ToRow(e, deck)], i);
        if i < |init| {
          assert a[i] == ToRow(init[i], deck);
          assert init[i] == gen[i];
        }
      }
    }
  }

  /** Every appended row is again generated when the entries' tags say so. */
  lemma {:induction false} AppendedGenerated(gen: seq<Entry>, known: set<string>, deck: string)
    requires AllTagged(gen)
    ensures forall i :: 0 <= i < |Appended(gen, known, deck)| ==> IsGenerated(Appended(gen, known, deck)[i])
  {
    forall i | 0 <= i < |Appended(gen, known, deck)|
      ensures IsGenerated(Appended(gen, known, deck)[i])
    {
      AppendedFrom(gen, known, deck, i);
      var j :| 0 <= j < |gen| && gen[j].ch !in known && Appended(gen, known, deck)[i] == ToRow(gen[j], deck);
      ToRowGenerated(gen[j], deck);
    }
  }

  /** The merged simplified or traditional table. */
  function MergedDeck(table: seq<Row>, gen: seq<Entry>, deck: string): (r: seq<Row>)
    requires HasCharacters(table)
    ensures HasCharacters(r) && |Retained(table)| <= |r| <= |table| + |gen|
    ensures r[..|Retained(table)|] == Retained(table)
    ensures forall i :: |Retained(table)| <= i < |r| ==> "deck" in r[i] && r[i]["deck"] == deck
  {
    var kept := Retained(table);
    kept + Appended(gen, Chars(kept), deck)
  }

  /** Stripping, indexing and the appending loop of one deck, with the count
      of added rows. */
  method MergeBookDeck(table: seq<Row>, gen: seq<Entry>, deck: string) returns (rows: seq<Row>, added: nat)
    requires HasCharacters(table)
    ensures rows == MergedDeck(table, gen, deck)
    ensures added == |rows| - |Retained(table)|
  {
    var loaded, _ := LoadExisting(table);
    rows := Retained(loaded);
    var chars := LastIndex(rows);
    ghost var kept := rows;
    ghost var app: seq<Row> := [];
    added := 0;
    for i := 0 to |gen|
      invariant app == Appended(gen[..i], chars.Keys, deck)
      invariant rows == kept + app && added == |app|
    {
      var e := gen[i];
      TakeSnoc(gen, i);
      AppendedSnoc(gen[..i], e, chars.Keys, deck);
      if e.ch !in chars {
        var row := ToRow(e, deck);
        SnocAssoc(kept, app, row);
        rows := rows + [row];
        app := app + [row];
        added := added + 1;
      }
    }
    assert gen[..|gen|] == gen;
  }

  lemma SnocAssoc<T>(a: seq<T>, b: seq<T>, x: T)
    ensures (a + b) + [x] == a + (b + [x])
  {
  }

  /** The retained rows stay ahead of every appended row, and every appended
      row is new to them. */
  lemma MergedDeckShape(table: seq<Row>, gen: seq<Entry>, deck: string)
    requires HasCharacters(table)
    ensures var m := MergedDeck(table, gen, deck);
      var kept := Retained(table);
      |kept| <= |m| && m[..|kept|] == kept
      && forall i :: |kept| <= i < |m| ==> m[i]["character"] !in Chars(kept) && "deck" in m[i] && m[i]["deck"] == deck
  {
    var m := MergedDeck(table, gen, deck);
    var kept := Retained(table);
    var a := Appended(gen, Chars(kept), deck);
    assert m == kept + a;
    assert m[..|kept|] == kept;
    forall i | |kept| <= i < |m|
      ensures m[i]["character"] !in Chars(kept) && "deck" in m[i] && m[i]["deck"] == deck
    {
      assert m[i] == a[i - |kept|];
    }
  }

  /** Running the merge again on its own output with the same entries gives
      the same table, when every entry is tagged as generated. */
  lemma MergedDeckIdempotent(table: seq<Row>, gen: seq<Entry>, deck: string)
    requires HasCharacters(table) && AllTagged(gen)
    ensures HasCharacters(MergedDeck(table, gen, deck))
    ensures MergedDeck(MergedDeck(table, gen, deck), gen, deck) == MergedDeck(table, gen, deck)
  {
    var kept := Retained(table);
    var a := Appended(gen, Chars(kept), deck);
    var m := kept + a;
    assert HasCharacters(m) by {
      forall i | 0 <= i < |m|
        ensures "character" in m[i]
      {
        if i >= |kept| {
          AppendedFrom(gen, Chars(kept), deck, i - |kept|);
          assert m[i] == a[i - |kept|];
        }
      }
    }
    RetainedAppend(kept, a);
    StrippedIdempotent(table);
    AppendedGenerated(gen, Chars(kept), deck);
    RetainedAll(a);
    assert Retained(m) == kept;
  }

  // ---------------------------------------------------------------------
  // Appending with recording (the combined deck)
  // ---------------------------------------------------------------------

  /** The characters of a list of entries. */
  function EntryChars(gen: seq<Entry>): (s: set<string>)
    ensures forall c :: c in s <==> exists i :: 0 <= i < |gen| && gen[i].ch == c
  {
    set i | 0 <= i < |gen| :: gen[i].ch
  }

  /** The rows the mainland loop of the combined deck appends: each new
      character is recorded, so a later entry with it is skipped. */
  function AppendedUnique(gen: seq<Entry>, known: set<string>, deck: string): (r: seq<Row>)
    ensures |r| <= |gen| && HasCharacters(r)
    ensures forall i :: 0 <= i < |r| ==> r[i]["character"] !in known && "deck" in r[i] && r[i]["deck"] == deck
    ensures forall i, j :: 0 <= i < j < |r| ==> r[i]["character"] != r[j]["character"]
    ensures forall i :: 0 <= i < |r| ==> r[i]["character"] in EntryChars(gen)
    decreases |gen|
  {
    if gen == [] then []
    else if gen[0].ch in known then
      var rest := AppendedUnique(gen[1..], known, deck);
      assert forall i :: 0 <= i < |rest| ==> rest[i]["character"] in EntryChars(gen) by {
        forall i | 0 <= i < |rest|
          ensures rest[i]["character"] in EntryChars(gen)
        {
          var j :| 0 <= j < |gen[1..]| && gen[1..][j].ch == rest[i]["character"];
          assert gen[j + 1].ch == rest[i]["character"];
        }
      }
      rest
    else
      var rest := AppendedUnique(gen[1..], known + {gen[0].ch}, deck);
      assert forall i :: 0 <= i < |rest| ==> rest[i]["character"] in EntryChars(gen) by {
        forall i | 0 <= i < |rest|
          ensures rest[i]["character"] in EntryChars(gen)
        {
          var j :| 0 <= j < |gen[1..]| && gen[1..][j].ch == rest[i]["character"];
          assert gen[j + 1].ch == rest[i]["character"];
        }
      }
      [ToRow(gen[0], deck)] + rest
  }

  /** After the mainland loop the recorded characters are the table's and
      every mainland entry's. */
  lemma {:induction false} AppendedUniqueChars(rows: seq<Row>, gen: seq<Entry>, deck: string)
    requires HasCharacters(rows)
    ensures HasCharacters(rows + AppendedUnique(gen, Chars(rows), deck))
    ensures Chars(rows + AppendedUnique(gen, Chars(rows), deck)) == Chars(rows) + EntryChars(gen)
    decreases |gen|
  {
    if gen == [] {
      assert rows + [] == rows;
    } else {
      var e := gen[0];
      EntryCharsCons(gen);
      var all := Chars(rows) + EntryChars(gen);
      if e.ch in Chars(rows) {
        AppendedUniqueChars(rows, gen[1..], deck);
        assert AppendedUnique(gen, Chars(rows), deck) == AppendedUnique(gen[1..], Chars(rows), deck);
        UnionPresent(Chars(rows), e.ch, EntryChars(gen[1..]));
      } else {
        var row := ToRow(e, deck);
        LastIndexSnoc(rows, row);
        var known := Chars(rows + [row]);
        assert known == Chars(rows) + {e.ch};
        AppendedUniqueChars(rows + [row], gen[1..], deck);
        var rest := AppendedUnique(gen[1..], known, deck);
        assert AppendedUnique(gen, Chars(rows), deck) == [row] + rest;
        ConsAssoc(rows, row, rest);
        UnionAssoc(Chars(rows), e.ch, EntryChars(gen[1..]));
      }
    }
  }

  /** The characters of a list are its first entry's and the rest's. */
  lemma EntryCharsCons(gen: seq<Entry>)
    requires gen != []
    ensures EntryChars(gen) == {gen[0].ch} + EntryChars(gen[1..])
  {
    forall c | c in EntryChars(gen)
      ensures c in {gen[0].ch} + EntryChars(gen[1..])
    {
      var j :| 0 <= j < |gen| && gen[j].ch == c;
      if j > 0 {
        assert gen[1..][j - 1].ch == c;
      }
    }
    forall c | c in EntryChars(gen[1..])
      ensures c in EntryChars(gen)
    {
      var j :| 0 <= j < |gen[1..]| && gen[1..][j].ch == c;
      assert gen[j + 1].ch == c;
    }
  }

  /** The merged combined table: stripped rows, new mainland characters once
      each, then every taiwan entry whose character is still absent. */
  function MergedUltimate(table: seq<Row>, mainland: seq<Entry>, taiwan: seq<Entry>): (r: seq<Row>)
    requires HasCharacters(table)
    ensures HasCharacters(r) && |Retained(table)| <= |r| <= |table| + |mainland| + |taiwan|
    ensures r[..|Retained(table)|] == Retained(table)
    ensures forall i :: |Retained(table)| <= i < |r| ==> r[i]["character"] !in Chars(Retained(table))
  {
    var kept := Retained(table);
    kept + AppendedUnique(mainland, Chars(kept), "ML")
      + Appended(taiwan, Chars(kept) + EntryChars(mainland), "TW")
  }

  /** The combined deck's stripping, indexing and two appending loops. */
  method MergeUltimate(table: seq<Row>, mainland: seq<Entry>, taiwan: seq<Entry>) returns (rows: seq<Row>)
    requires HasCharacters(table)
    ensures rows == MergedUltimate(table, mainland, taiwan)
  {
    var loaded, _ := LoadExisting(table);
    rows := Retained(loaded);
    var chars := LastIndex(rows);
    ghost var kept := rows;
    ghost var goal := kept + AppendedUnique(mainland, Chars(kept), "ML");
    ghost var rest := AppendedUnique(mainland, chars.Keys, "ML");
    for i := 0 to |mainland|
      invariant HasCharacters(rows)
      invariant chars == LastIndex(rows)
      invariant rest == AppendedUnique(mainland[i..], chars.Keys, "ML")
      invariant rows + rest == goal
    {
      var e := mainland[i];
      AppendedUniqueStep(mainland, i, chars.Keys, "ML");
      if e.ch !in chars {
        var row := ToRow(e, "ML");
        LastIndexSnoc(rows, row);
        ghost var known := chars.Keys + {e.ch};
        rest := AppendedUnique(mainland[i + 1..], known, "ML");
        ConsAssoc(rows, row, rest);
        rows := rows + [row];
        chars := chars[e.ch := |rows| - 1];
        assert chars.Keys == known;
      } else {
        rest := AppendedUnique(mainland[i + 1..], chars.Keys, "ML");
      }
    }
    assert rest == [];
    assert rows == goal;
    AppendedUniqueChars(kept, mainland, "ML");
    ghost var withMainland := rows;
    ghost var app: seq<Row> := [];
    for i := 0 to |taiwan|
      invariant app == Appended(taiwan[..i], chars.Keys, "TW")
      invariant rows == withMainland + app
    {
      var e := taiwan[i];
      TakeSnoc(taiwan, i);
      AppendedSnoc(taiwan[..i], e, chars.Keys, "TW");
      if e.ch !in chars {
        var row := ToRow(e, "TW");
        SnocAssoc(withMainland, app, row);
        rows := rows + [row];
        app := app + [row];
      }
    }
    assert taiwan[..|taiwan|] == taiwan;
  }

  /** One step of the recording loop, from position i. */
  lemma AppendedUniqueStep(gen: seq<Entry>, i: nat, known: set<string>, deck: string)
    requires i < |gen|
    ensures AppendedUnique(gen[i..], known, deck) ==
      if gen[i].ch in known then AppendedUnique(gen[i + 1..], known, deck)
      else [ToRow(gen[i], deck)] + AppendedUnique(gen[i + 1..], known + {gen[i].ch}, deck)
  {
    assert gen[i..][1..] == gen[i + 1..];
  }

  /** No row of the combined table repeats a character: the kept rows are
      the assumption, the mainland rows are new and distinct, and a taiwan
      row never repeats a kept or mainland character. Taiwan rows among
      themselves may repeat (see AppendedRows). */
  lemma UltimateTaiwanFresh(table: seq<Row>, mainland: seq<Entry>, taiwan: seq<Entry>)
    requires HasCharacters(table)
    ensures var u := MergedUltimate(table, mainland, taiwan);
        var kept := Retained(table);
      var ml := AppendedUnique(mainland, Chars(kept), "ML");
      |u| == |kept| + |ml| + |Appended(taiwan, Chars(kept) + EntryChars(mainland), "TW")|
      && (forall i :: |kept| + |ml| <= i < |u| ==>
            u[i]["character"] !in Chars(kept) && u[i]["character"] !in EntryChars(mainland))
      && (forall i :: |kept| <= i < |kept| + |ml| ==> u[i]["character"] !in Chars(kept))
      && (forall i, j :: |kept| <= i < j < |kept| + |ml| ==> u[i]["character"] != u[j]["character"])
  {
    var kept := Retained(table);
    var ml := AppendedUnique(mainland, Chars(kept), "ML");
    var tw := Appended(taiwan, Chars(kept) + EntryChars(mainland), "TW");
    var u := MergedUltimate(table, mainland, taiwan);
    assert u == (kept + ml) + tw;
    forall i | |kept| + |ml| <= i < |u|
      ensures u[i]["character"] !in Chars(kept) && u[i]["character"] !in EntryChars(mainland)
    {
      AppendIndex(kept + ml, tw, i);
    }
    forall i | |kept| <= i < |kept| + |ml|
      ensures u[i]["character"] !in Chars(kept)
    {
      AppendIndex(kept + ml, tw, i);
      AppendIndex(kept, ml, i);
    }
    forall i, j | |kept| <= i < j < |kept| + |ml|
      ensures u[i]["character"] != u[j]["character"]
    {
      AppendIndex(kept + ml, tw, i);
      AppendIndex(kept, ml, i);
      AppendIndex(kept + ml, tw, j);
      AppendIndex(kept, ml, j);
    }
  }
}
