/**
 * The statistics of scripts/archive/cross_reference.py: the characters of
 * the three books' spreadsheet columns are compared with the parsed RSH
 * characters and primitives and with the IDS table; the components the IDS
 * sequences of those characters use are extracted and split into those the
 * Heisig data names and those it does not, and the latter filtered down to
 * CJK code points.
 *
 * Characters and components are strings (a component is one character);
 * the spreadsheet rows, the parsed RSH lists and the IDS table are inputs.
 */
module CrossReference {
  import opened Util
  import Ids

  // ---------------------------------------------------------------------
  // The spreadsheet columns
  // ---------------------------------------------------------------------

  /** The three book cells of one spreadsheet row (RTH, RSH, RTK); an empty
      cell is "". */
  datatype ExcelRow = ExcelRow(th: string, sh: string, k: string)

  /** The characters of one book's column. */
  function Column(rows: seq<ExcelRow>, book: nat): (s: set<string>)
    requires book < 3
    ensures forall c :: c in s <==> c != "" && exists i :: 0 <= i < |rows| && Cell(rows[i], book) == c
  {
    set i | 0 <= i < |rows| && Cell(rows[i], book) != "" :: Cell(rows[i], book)
  }

  function Cell(r: ExcelRow, book: nat): string
    requires book < 3
  {
    if book == 0 then r.th else if book == 1 then r.sh else r.k
  }

  /** The loop over the spreadsheet rows filling `excel_chars`. */
  method ExcelChars(rows: seq<ExcelRow>) returns (th: set<string>, sh: set<string>, k: set<string>)
    ensures th == Column(rows, 0) && sh == Column(rows, 1) && k == Column(rows, 2)
  {
    th, sh, k := {}, {}, {};
    for i := 0 to |rows|
      invariant th == Column(rows[..i], 0) && sh == Column(rows[..i], 1) && k == Column(rows[..i], 2)
    {
      var r := rows[i];
      ColumnSnoc(rows, i, 0);
      ColumnSnoc(rows, i, 1);
      ColumnSnoc(rows, i, 2);
      if r.th != "" {
        th := th + {r.th};
      }
      if r.sh != "" {
        sh := sh + {r.sh};
      }
      if r.k != "" {
        k := k + {r.k};
      }
    }
    assert rows[..|rows|] == rows;
  }

  lemma ColumnSnoc(rows: seq<ExcelRow>, i: nat, book: nat)
    requires i < |rows| && book < 3
    ensures Column(rows[..i + 1], book) ==
      Column(rows[..i], book) + (if Cell(rows[i], book) != "" then {Cell(rows[i], book)} else {})
  {
    TakeSnoc(rows, i);
    var pre, next := rows[..i], rows[..i + 1];
    forall c | c in Column(next, book)
      ensures c in Column(pre, book) || (Cell(rows[i], book) != "" && c == Cell(rows[i], book))
    {
      var j :| 0 <= j < |next| && Cell(next[j], book) == c;
      if j < i {
        assert pre[j] == next[j];
      }
    }
    forall c | c in Column(pre, book)
      ensures c in Column(next, book)
    {
      var j :| 0 <= j < |pre| && Cell(pre[j], book) == c;
      assert next[j] == pre[j];
    }
    if Cell(rows[i], book) != "" {
      assert next[i] == rows[i];
    }
  }

  /** The characters of the three columns together. */
  function AllExcel(rows: seq<ExcelRow>): set<string> {
    Column(rows, 0) + Column(rows, 1) + Column(rows, 2)
  }

  // ---------------------------------------------------------------------
  // Coverage
  // ---------------------------------------------------------------------

  /** The sets the coverage report counts. */
  datatype Coverage = Coverage(
    inRsh: set<string>, notInRsh: set<string>,
    idsCovered: set<string>, idsMissing: set<string>,
    notInRshButInIds: set<string>, notInRshNotInIds: set<string>)

  predicate Partition(a: set<string>, b: set<string>, whole: set<string>) {
    a + b == whole && a * b == {}
  }

  /** The coverage sets of the spreadsheet characters `all`, given the RSH
      characters, the RSH primitives and the characters of the IDS table. */
  function CoverageOf(all: set<string>, rshChars: set<string>, rshPrims: set<string>, idsChars: set<string>): (r: Coverage)
    ensures r.inRsh <= all && r.notInRsh <= all
    ensures Partition(r.idsCovered, r.idsMissing, all)
    ensures Partition(r.notInRshButInIds, r.notInRshNotInIds, r.notInRsh)
    ensures forall c :: c in r.idsCovered <==> c in all && c in idsChars
    ensures forall c :: c in r.inRsh <==> c in all && c in rshChars
    ensures forall c :: c in r.notInRsh <==> c in all && c !in rshChars && c !in rshPrims
  {
    var rshAll := rshChars + rshPrims;
    var notInRsh := all - rshAll;
    Coverage(all * rshChars, notInRsh, all * idsChars, all - idsChars,
             notInRsh * idsChars, notInRsh - idsChars)
  }

  /** `in_rsh` asks for the RSH characters but `not_in_rsh` for all of RSH:
      exactly the spreadsheet characters that are only RSH primitives fall in
      neither set. */
  lemma PrimitivesOnlyGap(all: set<string>, rshChars: set<string>, rshPrims: set<string>, idsChars: set<string>)
    ensures var r := CoverageOf(all, rshChars, rshPrims, idsChars);
      r.inRsh * r.notInRsh == {}
      && all - (r.inRsh + r.notInRsh) == (all * rshPrims) - rshChars
  {
    var r := CoverageOf(all, rshChars, rshPrims, idsChars);
    assert forall c :: c in all - (r.inRsh + r.notInRsh) <==> c in (all * rshPrims) - rshChars;
  }

  // ---------------------------------------------------------------------
  // Components of an IDS sequence
  // ---------------------------------------------------------------------

  /** The string left after deleting the region tags, then '^', then '$'. */
  function Cleaned(ids: string): (r: string)
    ensures '^' !in r && '$' !in r
    ensures forall x :: x in r ==> x in ids
  {
    RemoveChar(RemoveChar(StripRegionTags(ids), '^'), '$')
  }

  /** The characters `extract_ids_components` keeps: not an operator, not
      whitespace, not a brace, parenthesis or ASCII digit. */
  predicate Kept(c: char) {
    !Ids.IsOperator(c) && !IsSpace(c) && c !in "{}()0123456789"
  }

  /** The kept characters of a string, as one-character strings. */
  function KeptChars(s: string): set<string> {
    if s == [] then {}
    else KeptChars(s[..|s| - 1]) + (if Kept(s[|s| - 1]) then {[s[|s| - 1]]} else {})
  }

  /** A string's kept characters are exactly the one-character strings of
      its characters that are kept. */
  lemma {:induction false} KeptCharsMember(s: string, x: string)
    ensures x in KeptChars(s) <==> |x| == 1 && x[0] in s && Kept(x[0])
  {
    if s != [] {
      var init, last := s[..|s| - 1], s[|s| - 1];
      KeptCharsMember(init, x);
      assert s == init + [last];
      if |x| == 1 && x[0] == last {
        assert x == [last];
      }
    }
  }

  /** The components of one IDS sequence. */
  function Components(ids: string): (r: set<string>)
    ensures forall x :: x in r ==> |x| == 1 && x[0] in ids && x[0] != '^' && x[0] != '$' && Kept(x[0])
  {
    var r := KeptChars(Cleaned(ids));
    forall x | x in r ensures |x| == 1 && x[0] in ids && x[0] != '^' && x[0] != '$' && Kept(x[0]) {
      KeptCharsMember(Cleaned(ids), x);
    }
    r
  }

  /** `extract_ids_components(ids_str)`: the loop over the cleaned string. */
  method ExtractIdsComponents(ids: string) returns (components: set<string>)
    ensures components == Components(ids)
    ensures forall x :: x in components <==> |x| == 1 && x[0] in Cleaned(ids) && Kept(x[0])
  {
    var cleaned := Cleaned(ids);
    components := {};
    for i := 0 to |cleaned|
      invariant components == KeptChars(cleaned[..i])
    {
      var ch := cleaned[i];
      TakeSnoc(cleaned, i);
      assert cleaned[..i + 1][..i] == cleaned[..i];
      if Kept(ch) {
        components := components + {[ch]};
      }
    }
    assert cleaned[..|cleaned|] == cleaned;
    forall x
      ensures x in components <==> |x| == 1 && x[0] in cleaned && Kept(x[0])
    {
      KeptCharsMember(cleaned, x);
    }
  }

  /** Every component is a character of the sequence itself, and no region
      marker or operator. */
  lemma ComponentsOccur(ids: string, x: string)
    requires x in Components(ids)
    ensures |x| == 1 && x[0] in ids
    ensures x[0] != '^' && x[0] != '$' && !Ids.IsOperator(x[0]) && !IsSpace(x[0])
  {
    KeptCharsMember(Cleaned(ids), x);
  }

  /** A sequence without region tag or '^' gives each of its kept
      characters. */
  lemma ComponentsOfPlain(ids: string, c: char)
    requires '$' !in ids && '^' !in ids
    requires c in ids && Kept(c)
    ensures [c] in Components(ids)
  {
    assert Cleaned(ids) == ids;
    KeptCharsMember(ids, [c]);
  }

  /** No component lies in the range U+2FF0–U+2FFF the CJK filter lists:
      all of it consists of operators, which extraction drops. */
  lemma NoComponentIsIdc(ids: string, x: string)
    requires x in Components(ids)
    ensures |x| == 1 && !(0x2FF0 <= x[0] as int <= 0x2FFF)
  {
    KeptCharsMember(Cleaned(ids), x);
  }

  // ---------------------------------------------------------------------
  // Components of all spreadsheet characters
  // ---------------------------------------------------------------------

  /** The components of every sequence in a list. */
  function SeqComponents(seqs: seq<string>): set<string> {
    if seqs == [] then {} else SeqComponents(seqs[..|seqs| - 1]) + Components(seqs[|seqs| - 1])
  }

  /** A component of the list is a component of one of its sequences. */
  lemma {:induction false} SeqComponentsFrom(seqs: seq<string>, x: string) returns (j: nat)
    requires x in SeqComponents(seqs)
    ensures j < |seqs| && x in Components(seqs[j])
  {
    var init, last := seqs[..|seqs| - 1], seqs[|seqs| - 1];
    if x in SeqComponents(init) {
      j := SeqComponentsFrom(init, x);
      assert init[j] == seqs[j];
    } else {
      j := |seqs| - 1;
    }
  }

  /** Each component of a sequence of the list is a component of the list. */
  lemma {:induction false} SeqComponentsOf(seqs: seq<string>, j: nat, x: string)
    requires j < |seqs| && x in Components(seqs[j])
    ensures x in SeqComponents(seqs)
  {
    var init := seqs[..|seqs| - 1];
    if j < |init| {
      assert init[j] == seqs[j];
      SeqComponentsOf(init, j, x);
    }
  }

  /** `all_ids_components` for the characters `chars`. */
  function AllComponents(chars: set<string>, idsMap: map<string, seq<string>>): (r: set<string>)
    ensures forall x :: x in r <==>
      exists ch :: ch in chars && ch in idsMap && x in SeqComponents(idsMap[ch])
  {
    set ch, x | ch in chars && ch in idsMap && x in SeqComponents(idsMap[ch]) :: x
  }

  lemma AllComponentsAdd(done: set<string>, ch: string, idsMap: map<string, seq<string>>)
    ensures AllComponents(done + {ch}, idsMap) ==
      AllComponents(done, idsMap) + (if ch in idsMap then SeqComponents(idsMap[ch]) else {})
  {
  }

  /** The loop over the spreadsheet characters and their IDS sequences. */
  method AllIdsComponents(allExcel: set<string>, idsMap: map<string, seq<string>>) returns (all: set<string>)
    ensures all == AllComponents(allExcel, idsMap)
  {
    all := {};
    var todo := allExcel;
    while todo != {}
      invariant todo <= allExcel
      invariant all == AllComponents(allExcel - todo, idsMap)
      decreases |todo|
    {
      var ch :| ch in todo;
      AllComponentsAdd(allExcel - todo, ch, idsMap);
      if ch in idsMap {
        all := AddSequences(all, idsMap[ch]);
      }
      SetMinusRemove(allExcel, todo, ch);
      todo := todo - {ch};
    }
    assert allExcel - todo == allExcel;
  }

  /** The inner loop: the components of each sequence of one character are
      added to `acc`. */
  method AddSequences(acc: set<string>, seqs: seq<string>) returns (all: set<string>)
    ensures all == acc + SeqComponents(seqs)
  {
    all := acc;
    for j := 0 to |seqs|
      invariant all == acc + SeqComponents(seqs[..j])
    {
      var comps := ExtractIdsComponents(seqs[j]);
      TakeSnoc(seqs, j);
      assert seqs[..j + 1][..j] == seqs[..j];
      all := all + comps;
    }
    assert seqs[..|seqs|] == seqs;
  }

  lemma SetMinusRemove(all: set<string>, todo: set<string>, ch: string)
    requires ch in todo && todo <= all
    ensures all - (todo - {ch}) == (all - todo) + {ch}
  {
  }

  /** Every component of the report comes from the IDS sequences of a
      spreadsheet character. */
  lemma AllComponentsFrom(allExcel: set<string>, idsMap: map<string, seq<string>>, x: string)
    requires x in AllComponents(allExcel, idsMap)
    ensures exists ch, j ::
      (ch in allExcel && ch in idsMap && 0 <= j < |idsMap[ch]|
       && x in Components(idsMap[ch][j]) && |x| == 1 && x[0] in idsMap[ch][j])
  {
    var ch :| ch in allExcel && ch in idsMap && x in SeqComponents(idsMap[ch]);
    var j := SeqComponentsFrom(idsMap[ch], x);
    ComponentsOccur(idsMap[ch][j], x);
  }

  // ---------------------------------------------------------------------
  // Components the Heisig data does not name
  // ---------------------------------------------------------------------

  /** The code point ranges the CJK filter accepts. */
  predicate InCjkRanges(cp: int) {
    (0x4E00 <= cp <= 0x9FFF) || (0x3400 <= cp <= 0x4DBF) || (0x2E80 <= cp <= 0x2FDF)
    || (0x2FF0 <= cp <= 0x2FFF) || (0x31C0 <= cp <= 0x31EF) || (0xF900 <= cp <= 0xFAFF)
    || (0x20000 <= cp <= 0x2A6DF)
  }

  /** `components_in_heisig` and `components_not_in_heisig`. */
  function HeisigSplit(components: set<string>, rshAll: set<string>): (r: (set<string>, set<string>))
    ensures Partition(r.0, r.1, components)
    ensures forall x :: x in r.0 <==> x in components && x in rshAll
  {
    (components * rshAll, components - rshAll)
  }

  /** The CJK subset of the unnamed components. */
  function CjkOf(unnamed: set<string>): set<string>
    requires forall x :: x in unnamed ==> |x| == 1
  {
    set x | x in unnamed && InCjkRanges(x[0] as int)
  }

  /** The loop over the unnamed components, by code point (`ord` needs
      one-character strings). */
  method CjkComponents(unnamed: set<string>) returns (cjk: set<string>)
    requires forall x :: x in unnamed ==> |x| == 1
    ensures cjk <= unnamed
    ensures forall x :: x in cjk <==> x in unnamed && InCjkRanges(x[0] as int)
  {
    cjk := {};
    var todo := unnamed;
    while todo != {}
      invariant todo <= unnamed
      invariant forall x :: x in cjk <==> x in unnamed - todo && InCjkRanges(x[0] as int)
      decreases |todo|
    {
      var c :| c in todo;
      var cp := c[0] as int;
      if InCjkRanges(cp) {
        cjk := cjk + {c};
      }
      todo := todo - {c};
    }
  }

  /** On extracted components the U+2FF0–U+2FFF range of the filter never
      applies: dropping it leaves the CJK subset as it is. */
  lemma CjkWithoutIdc(allExcel: set<string>, idsMap: map<string, seq<string>>, rshAll: set<string>, x: string)
    requires x in HeisigSplit(AllComponents(allExcel, idsMap), rshAll).1
    ensures |x| == 1
    ensures InCjkRanges(x[0] as int) <==> InCjkRanges(x[0] as int) && !(0x2FF0 <= x[0] as int <= 0x2FFF)
  {
    AllComponentsFrom(allExcel, idsMap, x);
    var ch, j :| ch in allExcel && ch in idsMap && 0 <= j < |idsMap[ch]|
      && x in Components(idsMap[ch][j]) && |x| == 1 && x[0] in idsMap[ch][j];
    NoComponentIsIdc(idsMap[ch][j], x);
  }
}
