/**
 * The card fields scripts/build_decks.py derives for a character: the leaf
 * lists of its decomposition tree, the `decomposition` and
 * `components_detail` strings, the raw IDS string and its top operator,
 * the CC-CEDICT reading line, and the book numbers read from the
 * spreadsheet cells.
 */
module Cards {
  import opened Util
  import opened Ids
  import opened Heisig
  import opened Tree
  import opened Decks

  // ---------------------------------------------------------------------
  // collect_leaves / collect_leaf_details
  // ---------------------------------------------------------------------

  /** `collect_leaves(node, is_root)`: a named node below the root stands
      for itself; a childless node gives its name, or its character when
      it has none; otherwise the children's leaves in order. */
  function Leaves(n: Node, isRoot: bool): (r: seq<string>)
    ensures |r| == |Details(n, isRoot)|
    decreases n, 1, 0
  {
    if !isRoot && Truthy(n.name) then [n.name.value]
    else match n.kids
      case NoChildren => if Truthy(n.name) then [n.name.value] else [n.ch]
      case Children(_) => LeavesFrom(n, 0)
  }

  function LeavesFrom(n: Node, i: nat): (r: seq<string>)
    requires n.kids.Children? && i <= |n.kids.list|
    ensures |r| == |DetailsFrom(n, i)|
    decreases n, 0, |n.kids.list| - i
  {
    if i == |n.kids.list| then [] else Leaves(n.kids.list[i], false) + LeavesFrom(n, i + 1)
  }

  /** A (char, name) pair of `collect_leaf_details`. */
  type Detail = (string, Option<string>)

  /** `collect_leaf_details(node, is_root)`, with the same stopping rule. */
  function Details(n: Node, isRoot: bool): (r: seq<Detail>)
    ensures !isRoot && Truthy(n.name) ==> r == [(n.ch, n.name)]
    ensures n.kids.NoChildren? ==> r == [(n.ch, n.name)]
    decreases n, 1, 0
  {
    if !isRoot && Truthy(n.name) then [(n.ch, n.name)]
    else match n.kids
      case NoChildren => [(n.ch, n.name)]
      case Children(_) => DetailsFrom(n, 0)
  }

  function DetailsFrom(n: Node, i: nat): seq<Detail>
    requires n.kids.Children? && i <= |n.kids.list|
    decreases n, 0, |n.kids.list| - i
  {
    if i == |n.kids.list| then [] else Details(n.kids.list[i], false) + DetailsFrom(n, i + 1)
  }

  /** What `collect_leaves` shows for a (char, name) pair. */
  function DetailLabel(d: Detail): string {
    if Truthy(d.1) then d.1.value else d.0
  }

  /** The two collectors walk the same nodes: equally long lists, each leaf
      being the name of its pair, or its character when unnamed. */
  lemma {:induction false} LeavesAreDetailLabels(n: Node, isRoot: bool)
    ensures |Leaves(n, isRoot)| == |Details(n, isRoot)|
    ensures forall i :: 0 <= i < |Leaves(n, isRoot)| ==>
      Leaves(n, isRoot)[i] == DetailLabel(Details(n, isRoot)[i])
    decreases n, 1, 0
  {
    if !(!isRoot && Truthy(n.name)) && n.kids.Children? {
      LeavesFromAreDetailLabels(n, 0);
    }
  }

  lemma {:induction false} LeavesFromAreDetailLabels(n: Node, i: nat)
    requires n.kids.Children? && i <= |n.kids.list|
    ensures |LeavesFrom(n, i)| == |DetailsFrom(n, i)|
    ensures forall j :: 0 <= j < |LeavesFrom(n, i)| ==>
      LeavesFrom(n, i)[j] == DetailLabel(DetailsFrom(n, i)[j])
    decreases n, 0, |n.kids.list| - i
  {
    if i < |n.kids.list| {
      var k := n.kids.list[i];
      LeavesAreDetailLabels(k, false);
      LeavesFromAreDetailLabels(n, i + 1);
      var la, lb := Leaves(k, false), LeavesFrom(n, i + 1);
      var da, db := Details(k, false), DetailsFrom(n, i + 1);
      forall j | 0 <= j < |la + lb| ensures (la + lb)[j] == DetailLabel((da + db)[j]) {
        if j < |la| {
          assert (la + lb)[j] == la[j] && (da + db)[j] == da[j];
        } else {
          assert (la + lb)[j] == lb[j - |la|] && (da + db)[j] == db[j - |la|];
        }
      }
    }
  }

  /** The leaves of a list of children, each collected as a non-root. */
  function KidsLeaves(ks: seq<Node>): seq<string> {
    if ks == [] then [] else Leaves(ks[0], false) + KidsLeaves(ks[1..])
  }

  /** The leaves under a node that is descended (the root, or any unnamed
      node with a `children` key) are its children's leaves, in order; an
      empty `children` list contributes nothing. */
  lemma LeavesOfChildren(n: Node, isRoot: bool)
    requires n.kids.Children? && (isRoot || !Truthy(n.name))
    ensures Leaves(n, isRoot) == KidsLeaves(n.kids.list)
    ensures n.kids.list == [] ==> Leaves(n, isRoot) == [] && Details(n, isRoot) == []
  {
    LeavesFromKids(n, 0);
    assert n.kids.list[0..] == n.kids.list;
  }

  lemma {:induction false} LeavesFromKids(n: Node, i: nat)
    requires n.kids.Children? && i <= |n.kids.list|
    ensures LeavesFrom(n, i) == KidsLeaves(n.kids.list[i..])
    decreases |n.kids.list| - i
  {
    if i < |n.kids.list| {
      LeavesFromKids(n, i + 1);
      assert n.kids.list[i..][1..] == n.kids.list[i + 1..];
    }
  }

  /** How a curated component shows in `collect_leaves`: its name, or its
      character when the name is empty. */
  function ComponentLabels(kb: Kb, comps: seq<string>): (r: seq<string>)
    ensures |r| == |comps|
  {
    if comps == [] then [] else [if comps[0] != "" then comps[0] else ComponentChar(kb.byKeyword, comps[0])] + ComponentLabels(kb, comps[1..])
  }

  /** A curated node's leaves are its component names, in order. */
  lemma CuratedLeaves(kb: Kb, ch: string, name: Option<string>, comps: seq<string>)
    ensures Leaves(Node(ch, name, Some(Heisig), None, None, Children(ComponentKids(kb.byKeyword, comps))), true)
      == ComponentLabels(kb, comps)
  {
    var n := Node(ch, name, Some(Heisig), None, None, Children(ComponentKids(kb.byKeyword, comps)));
    LeavesOfChildren(n, true);
    ComponentKidsLeaves(kb, comps);
  }

  lemma {:induction false} ComponentKidsLeaves(kb: Kb, comps: seq<string>)
    ensures KidsLeaves(ComponentKids(kb.byKeyword, comps)) == ComponentLabels(kb, comps)
  {
    if comps != [] {
      ComponentKidsLeaves(kb, comps[1..]);
      assert ComponentKids(kb.byKeyword, comps)[1..] == ComponentKids(kb.byKeyword, comps[1..]);
    }
  }

  // ---------------------------------------------------------------------
  // get_raw_ids / get_top_operator
  // ---------------------------------------------------------------------

  /** `get_raw_ids`: the first IDS string, cleaned, or "". */
  function RawIds(ids: map<string, seq<string>>, ch: string): (r: string)
    requires ch in ids ==> ids[ch] != []
    ensures ch !in ids ==> r == ""
    ensures ch in ids ==> r == CleanIds(ids[ch][0])
  {
    if ch in ids then CleanIds(ids[ch][0]) else ""
  }

  /** `get_top_operator`: "op (label)" for a labelled first character of
      the cleaned IDS string, or "". */
  function TopOperator(ids: map<string, seq<string>>, ch: string): (r: string)
    requires ch in ids ==> ids[ch] != []
    ensures r != "" ==> ch in ids && RawIds(ids, ch) != [] && r[0] == RawIds(ids, ch)[0] && Label(r[0]).Some?
    ensures ch !in ids ==> r == ""
  {
    var cleaned := RawIds(ids, ch);
    if cleaned != [] && Label(cleaned[0]).Some? then [cleaned[0]] + " (" + Label(cleaned[0]).value + ")" else ""
  }

  /** The layout is shown exactly when the cleaned IDS string starts with
      one of the twelve operators ⿰ … ⿻; ⿼ … ⿿, 〾 and any component
      character give "", and so does a character without an IDS string. */
  lemma TopOperatorSpec(ids: map<string, seq<string>>, ch: string)
    requires ch in ids ==> ids[ch] != []
    ensures var cleaned := RawIds(ids, ch);
      var r := TopOperator(ids, ch);
      (r != "" <==> cleaned != [] && '⿰' <= cleaned[0] <= '⿻')
      && (r != "" ==> r[0] == cleaned[0] && IsOperator(r[0]) && r[1..3] == " (" && r[|r| - 1] == ')')
      && (ch !in ids ==> r == "")
  {
    var cleaned := RawIds(ids, ch);
    if cleaned != [] {
      LabelledOperators(cleaned[0]);
    }
  }

  // ---------------------------------------------------------------------
  // parse_num
  // ---------------------------------------------------------------------

  /** A spreadsheet cell as openpyxl returns it. */
  datatype Cell = Empty | IntCell(i: int) | FloatCell(x: real) | TextCell(s: string)

  /** `int(x)` on a float: truncation toward zero. */
  function Trunc(x: real): (r: int)
    ensures x >= 0.0 ==> r >= 0 && r as real <= x < r as real + 1.0
    ensures x < 0.0 ==> r <= 0 && r as real - 1.0 < x <= r as real
  {
    if x >= 0.0 then x.Floor else -((-x).Floor)
  }

  /** `re.match(r'ch\s*#\s*(\d+)', s)` and `int` of the group. */
  function MatchBookNumber(s: string): (r: Option<nat>)
    ensures r.Some? ==> StartsWith(s, "ch")
  {
    if !StartsWith(s, "ch") then None else MatchHash(s[2..])
  }

  /** `\s*#`, then the rest. */
  function MatchHash(a: string): Option<nat> {
    var b := a[SpaceRun(a)..];
    if b == [] || b[0] != '#' then None else MatchDigits(b[1..])
  }

  /** `\s*(\d+)`: the value of the digit run. */
  function MatchDigits(c: string): Option<nat> {
    var d := c[SpaceRun(c)..];
    var k := DigitRun(d);
    if k == 0 then None else Some(DigitsValue(d[..k]))
  }

  /** `parse_num(val)`. */
  function ParseNum(v: Cell): (r: Option<int>)
    ensures v.Empty? <==> r.None? && !v.TextCell?
    ensures v.TextCell? && r.Some? ==> r.value >= 0 && StartsWith(v.s, "ch")
    ensures v.FloatCell? ==> r.Some? && (if v.x >= 0.0 then 0 <= r.value else r.value <= 0)
  {
    match v
    case Empty => None
    case IntCell(i) => Some(i)
    case FloatCell(x) => Some(Trunc(x))
    case TextCell(s) => match MatchBookNumber(s) { case None => None case Some(n) => Some(n as int) }
  }

  /** A "ch # 0041"-style cell gives the number, whatever the spacing around
      `#` and whatever follows the digits. */
  lemma ParseNumOfText(w1: string, w2: string, digits: string, rest: string)
    requires forall i :: 0 <= i < |w1| ==> IsSpace(w1[i])
    requires forall i :: 0 <= i < |w2| ==> IsSpace(w2[i])
    requires digits != [] && forall i :: 0 <= i < |digits| ==> IsDigit(digits[i])
    requires rest == [] || !IsDigit(rest[0])
    ensures ParseNum(TextCell("ch" + (w1 + ("#" + (w2 + (digits + rest)))))) == Some(DigitsValue(digits) as int)
  {
    var c := w2 + (digits + rest);
    MatchDigitsOf(w2, digits, rest);
    MatchHashOf(w1, c);
    var s := "ch" + (w1 + ("#" + c));
    assert StartsWith(s, "ch");
    assert s[2..] == w1 + ("#" + c);
  }

  lemma MatchHashOf(w: string, c: string)
    requires forall i :: 0 <= i < |w| ==> IsSpace(w[i])
    ensures MatchHash(w + ("#" + c)) == MatchDigits(c)
  {
    SpaceRunOf(w, "#" + c);
    assert (w + ("#" + c))[|w|..] == "#" + c;
  }

  lemma MatchDigitsOf(w: string, digits: string, rest: string)
    requires forall i :: 0 <= i < |w| ==> IsSpace(w[i])
    requires digits != [] && forall i :: 0 <= i < |digits| ==> IsDigit(digits[i])
    requires rest == [] || !IsDigit(rest[0])
    ensures MatchDigits(w + (digits + rest)) == Some(DigitsValue(digits))
  {
    assert !IsSpace(digits[0]);
    SpaceRunOf(w, digits + rest);
    assert (w + (digits + rest))[|w|..] == digits + rest;
    DigitRunOf(digits, rest);
    assert (digits + rest)[..|digits|] == digits;
  }

  /** Text that does not start with "ch" is not a book number. */
  lemma ParseNumOfOtherText(s: string)
    requires !StartsWith(s, "ch")
    ensures ParseNum(TextCell(s)) == None
  {
  }

  /** What the card keeps of a book-number cell: a number only when
      `parse_num` gives a truthy one, so a number 0 counts as absent. */
  function BookNumber(v: Cell): (r: Option<string>)
    ensures r.Some? <==> ParseNum(v).Some? && ParseNum(v).value != 0
    ensures r.Some? ==> PyInt(r.value) == ParseNum(v)
  {
    match ParseNum(v)
    case None => None
    case Some(n) =>
      if n == 0 then None
      else
        IntRoundTrip(n);
        Some(IntToString(n))
  }

  /** `int(str(n)) == n`. */
  lemma IntRoundTrip(n: int)
    ensures PyInt(IntToString(n)) == Some(n)
  {
    if n >= 0 {
      IntOfNatToString(n);
    } else {
      var d := NatToString(-n);
      var t := "-" + d;
      NatToStringValue(-n);
      UnderscoredOfDigits(d);
      assert !IsSpace(t[0]) && !IsSpace(t[|t| - 1]);
      StripOfStripped(t);
      assert t[1..] == d;
      assert UnderscoredDigits(d);
    }
  }

  // ---------------------------------------------------------------------
  // format_reading
  // ---------------------------------------------------------------------

  /** The pinyin of each CC-CEDICT (pinyin, definition) pair. */
  function Pinyins(es: seq<(string, string)>): (r: seq<string>)
    ensures |r| == |es| && forall i :: 0 <= i < |es| ==> r[i] == es[i].0
  {
    seq(|es|, i requires 0 <= i < |es| => es[i].0)
  }

  /** The keys of `by_pinyin`, in insertion order. */
  function Readings(es: seq<(string, string)>): seq<string> {
    Dedup(Pinyins(es))
  }

  /** `by_pinyin[p]`: the definitions given under reading `p`, in order. */
  function DefnsOf(es: seq<(string, string)>, p: string): seq<string> {
    if es == [] then []
    else
      var last := es[|es| - 1];
      DefnsOf(es[..|es| - 1], p) + (if last.0 == p then [last.1] else [])
  }

  /** The meanings of a list of definitions, before deduplication. */
  function MeaningPieces(defns: seq<string>): (r: seq<string>)
  {
    if defns == [] then []
    else MeaningPieces(defns[..|defns| - 1]) + StrippedPieces(Split(defns[|defns| - 1], "/"))
  }

  /** `all_meanings` for a list of definitions. */
  function Meanings(defns: seq<string>): (r: seq<string>)
    ensures Distinct(r)
  {
    DedupDistinct(MeaningPieces(defns));
    Dedup(MeaningPieces(defns))
  }

  /** The surname test of `format_reading`. */
  predicate NameLike(m: string) {
    Contains(Lower(m), "surname") || Contains(Lower(m), "name")
  }

  /** A reading skipped as surname-only: there are other readings, and its
      at most two meanings all mention a name. */
  predicate Obscure(readings: nat, ms: seq<string>) {
    readings > 1 && |ms| <= 2 && forall i :: 0 <= i < |ms| ==> NameLike(ms[i])
  }

  /** One reading's part: the pinyin and its first four meanings. */
  function ReadingPart(p: string, ms: seq<string>): string {
    p + ": " + Join(Take(ms, 4), ", ")
  }

  /** The parts of the readings `ps` that are not skipped, in order. */
  function KeptParts(es: seq<(string, string)>, readings: nat, ps: seq<string>): (r: seq<string>)
    ensures |r| <= |ps|
    ensures forall i :: 0 <= i < |r| ==> r[i] != ""
  {
    if ps == [] then []
    else
      var p := ps[|ps| - 1];
      var ms := Meanings(DefnsOf(es, p));
      KeptParts(es, readings, ps[..|ps| - 1]) + (if Obscure(readings, ms) then [] else [ReadingPart(p, ms)])
  }

  /** The parts `format_reading` keeps: the first four that are not skipped. */
  function ReadingParts(es: seq<(string, string)>): (r: seq<string>)
    ensures |r| <= 4
  {
    Take(KeptParts(es, |Readings(es)|, Readings(es)), 4)
  }

  /** `format_reading`: the kept parts joined by " | "; "" without entries. */
  function ReadingLine(es: seq<(string, string)>): (r: string)
    ensures r == "" <==> ReadingParts(es) == []
  {
    if es == [] then
      assert Readings(es) == [];
      ""
    else
      var parts := ReadingParts(es);
      assert parts != [] ==> |Join(parts, " | ")| >= |parts[0]| > 0;
      Join(parts, " | ")
  }

  /** What the grouping loop has built from the pairs `es`. */
  ghost predicate Grouped(es: seq<(string, string)>, order: seq<string>, groups: map<string, seq<string>>) {
    order == Readings(es)
    && (forall p :: p in groups <==> p in order)
    && (forall p :: p in groups ==> groups[p] == DefnsOf(es, p))
    && (forall p :: p !in groups ==> DefnsOf(es, p) == [])
  }

  /** A pair for a reading already seen extends that reading's list. */
  lemma GroupExtend(es: seq<(string, string)>, e: (string, string), order: seq<string>, groups: map<string, seq<string>>)
    requires Grouped(es, order, groups) && e.0 in groups
    ensures Grouped(es + [e], order, groups[e.0 := groups[e.0] + [e.1]])
  {
    var post := es + [e];
    var groups' := groups[e.0 := groups[e.0] + [e.1]];
    GroupSnoc(es, e);
    assert Readings(post) == order by {
      assert e.0 in Readings(es);
    }
    assert forall p :: p in groups' <==> p in order;
    forall q | q in groups' ensures groups'[q] == DefnsOf(post, q) {
      if q != e.0 {
        assert groups'[q] == groups[q];
      }
    }
    forall q | q !in groups' ensures DefnsOf(post, q) == [] {
      assert q !in groups && q != e.0;
    }
  }

  /** A pair for a new reading appends the reading and opens its list. */
  lemma GroupOpen(es: seq<(string, string)>, e: (string, string), order: seq<string>, groups: map<string, seq<string>>)
    requires Grouped(es, order, groups) && e.0 !in groups
    ensures Grouped(es + [e], order + [e.0], groups[e.0 := [e.1]])
  {
    var post := es + [e];
    var groups' := groups[e.0 := [e.1]];
    GroupSnoc(es, e);
    forall q | q in groups' ensures groups'[q] == DefnsOf(post, q) {
      if q != e.0 {
        assert groups'[q] == groups[q];
      }
    }
  }

  /** The readings and definitions after one more pair. */
  lemma GroupSnoc(es: seq<(string, string)>, e: (string, string))
    ensures Readings(es + [e]) == if e.0 in Pinyins(es) then Readings(es) else Readings(es) + [e.0]
    ensures e.0 in Readings(es) <==> e.0 in Pinyins(es)
    ensures forall q :: DefnsOf(es + [e], q) == DefnsOf(es, q) + (if q == e.0 then [e.1] else [])
  {
    var post := es + [e];
    assert post[..|es|] == es;
    assert Pinyins(post) == Pinyins(es) + [e.0];
    DedupSnoc(Pinyins(es), e.0);
    DedupMembers(Pinyins(es), e.0);
  }

  /** The grouping loop of `format_reading`. */
  method GroupByReading(es: seq<(string, string)>) returns (order: seq<string>, groups: map<string, seq<string>>)
    ensures Grouped(es, order, groups)
  {
    order, groups := [], map[];
    for i := 0 to |es|
      invariant Grouped(es[..i], order, groups)
    {
      assert es[..i + 1] == es[..i] + [es[i]];
      var (pinyin, defn) := es[i];
      if pinyin in groups {
        GroupExtend(es[..i], es[i], order, groups);
        groups := groups[pinyin := groups[pinyin] + [defn]];
      } else {
        GroupOpen(es[..i], es[i], order, groups);
        order := order + [pinyin];
        groups := groups[pinyin := [defn]];
      }
    }
    assert es[..|es|] == es;
  }

  /** The meaning pieces after one more definition. */
  lemma PiecesSnoc(defns: seq<string>, j: nat)
    requires j < |defns|
    ensures MeaningPieces(defns[..j + 1]) == MeaningPieces(defns[..j]) + StrippedPieces(Split(defns[j], "/"))
  {
    assert defns[..j + 1][..j] == defns[..j];
  }

  /** The merging loops of `format_reading`: every "/"-separated piece of
      every definition, stripped, kept when non-empty and new. */
  method MergeMeanings(defns: seq<string>) returns (ms: seq<string>)
    ensures ms == Meanings(defns)
  {
    ms := [];
    for j := 0 to |defns|
      invariant ms == Dedup(MeaningPieces(defns[..j]))
    {
      ms := MergeSenses(ms, MeaningPieces(defns[..j]), Split(defns[j], "/"));
      PiecesSnoc(defns, j);
    }
    assert defns[..|defns|] == defns;
  }

  /** The inner loop, over the pieces of one definition. */
  method MergeSenses(ms0: seq<string>, ghost before: seq<string>, pieces: seq<string>) returns (ms: seq<string>)
    requires ms0 == Dedup(before)
    ensures ms == Dedup(before + StrippedPieces(pieces))
  {
    ms := ms0;
    assert before + StrippedPieces(pieces[..0]) == before;
    for k := 0 to |pieces|
      invariant ms == Dedup(before + StrippedPieces(pieces[..k]))
    {
      var m := Strip(pieces[k]);
      StrippedPiecesSnoc(before, pieces, k);
      if m != [] {
        ms := AddNew(ms, before + StrippedPieces(pieces[..k]), m);
      }
    }
    assert pieces[..|pieces|] == pieces;
  }

  /** The kept parts after one more reading. */
  lemma KeptSnoc(es: seq<(string, string)>, readings: nat, ps: seq<string>, i: nat)
    requires i < |ps|
    ensures Obscure(readings, Meanings(DefnsOf(es, ps[i]))) ==>
      KeptParts(es, readings, ps[..i + 1]) == KeptParts(es, readings, ps[..i])
    ensures !Obscure(readings, Meanings(DefnsOf(es, ps[i]))) ==>
      KeptParts(es, readings, ps[..i + 1])
        == KeptParts(es, readings, ps[..i]) + [ReadingPart(ps[i], Meanings(DefnsOf(es, ps[i])))]
  {
    assert ps[..i + 1][..i] == ps[..i];
  }

  /** Where the reading loop stops, the parts built are the first four kept. */
  lemma KeptFinal(es: seq<(string, string)>, readings: nat, ps: seq<string>, i: nat)
    requires i <= |ps|
    requires |KeptParts(es, readings, ps[..i])| == 4 || (i == |ps| && |KeptParts(es, readings, ps[..i])| < 4)
    ensures Take(KeptParts(es, readings, ps), 4) == KeptParts(es, readings, ps[..i])
  {
    KeptPrefix(es, readings, ps, i);
    if i == |ps| {
      assert ps[..i] == ps;
    }
  }

  /** Skipped readings leave the earlier parts as they were. */
  lemma {:induction false} KeptPrefix(es: seq<(string, string)>, readings: nat, ps: seq<string>, i: nat)
    requires i <= |ps|
    ensures KeptParts(es, readings, ps[..i]) <= KeptParts(es, readings, ps)
    decreases |ps|
  {
    if i < |ps| {
      var init := ps[..|ps| - 1];
      assert init[..i] == ps[..i];
      KeptPrefix(es, readings, init, i);
    } else {
      assert ps[..i] == ps;
    }
  }

  /** `format_reading(char)`, over the CC-CEDICT pairs of the character. */
  method FormatReading(es: seq<(string, string)>) returns (r: string)
    ensures r == ReadingLine(es)
  {
    if es == [] {
      return "";
    }
    var order, groups := GroupByReading(es);
    var parts: seq<string> := [];
    var i := 0;
    var done := false;
    while i < |order| && !done
      invariant 0 <= i <= |order|
      invariant parts == KeptParts(es, |order|, order[..i])
      invariant !done ==> |parts| < 4
      invariant done ==> |parts| == 4
    {
      var p := order[i];
      assert p in groups && groups[p] == DefnsOf(es, p);
      var ms := MergeMeanings(groups[p]);
      KeptSnoc(es, |order|, order, i);
      if !Obscure(|order|, ms) {
        parts := parts + [ReadingPart(p, ms)];
        if |parts| >= 4 {
          done := true;
        }
      }
      i := i + 1;
    }
    KeptFinal(es, |order|, order, i);
    r := Join(parts, " | ");
  }

  /** "surname" mentions "name", so the surname test is a test for "name". */
  lemma NameLikeIsName(m: string)
    ensures NameLike(m) <==> Contains(Lower(m), "name")
  {
    var l := Lower(m);
    if Contains(l, "surname") {
      ContainsIff(l, "surname");
      var j :| OccursAt(l, "surname", j);
      assert l[j + 3..j + 7] == "surname"[3..7];
      assert OccursAt(l, "name", j + 3);
      ContainsIff(l, "name");
    }
  }

  /** A character with one reading always shows it, whatever its meanings. */
  lemma SingleReadingShown(es: seq<(string, string)>)
    requires |Readings(es)| == 1
    ensures ReadingLine(es) == ReadingPart(es[0].0, Meanings(DefnsOf(es, es[0].0)))
  {
    var rs := Readings(es);
    assert es[0].0 == Pinyins(es)[0];
    DedupMembers(Pinyins(es), es[0].0);
    assert es[0].0 in rs;
    assert rs == [es[0].0];
    assert rs[..0] == [];
  }

  /** Every part shown belongs to a reading of the character that is not
      skipped, and carries at most four of that reading's meanings. */
  lemma {:induction false} KeptPartsFrom(es: seq<(string, string)>, readings: nat, ps: seq<string>, x: string)
    requires x in KeptParts(es, readings, ps)
    ensures exists p :: (p in ps && !Obscure(readings, Meanings(DefnsOf(es, p)))
      && x == ReadingPart(p, Meanings(DefnsOf(es, p))))
  {
    var init := ps[..|ps| - 1];
    var p := ps[|ps| - 1];
    if x in KeptParts(es, readings, init) {
      KeptPartsFrom(es, readings, init, x);
      var q :| q in init && !Obscure(readings, Meanings(DefnsOf(es, q)))
        && x == ReadingPart(q, Meanings(DefnsOf(es, q)));
      assert q in ps;
    } else {
      assert p in ps;
    }
  }

  /** Every reading that is not skipped has its part among the kept ones. */
  lemma {:induction false} KeptPartsComplete(es: seq<(string, string)>, readings: nat, ps: seq<string>, k: nat)
    requires k < |ps| && !Obscure(readings, Meanings(DefnsOf(es, ps[k])))
    ensures ReadingPart(ps[k], Meanings(DefnsOf(es, ps[k]))) in KeptParts(es, readings, ps)
    decreases |ps|
  {
    if k < |ps| - 1 {
      var init := ps[..|ps| - 1];
      assert init[k] == ps[k];
      KeptPartsComplete(es, readings, init, k);
    }
  }

  /** Every meaning is a non-empty stripped piece. */
  lemma MeaningsClean(defns: seq<string>, m: string)
    requires m in Meanings(defns)
    ensures m != [] && Strip(m) == m
  {
    DedupMembers(MeaningPieces(defns), m);
    PiecesClean(defns, m);
  }

  lemma {:induction false} PiecesClean(defns: seq<string>, m: string)
    requires m in MeaningPieces(defns)
    ensures m != [] && Strip(m) == m
  {
    var init := defns[..|defns| - 1];
    if m in MeaningPieces(init) {
      PiecesClean(init, m);
    } else {
      StrippedPiecesClean(Split(defns[|defns| - 1], "/"), m);
    }
  }

  /** Every non-empty stripped "/"-piece of a definition is a meaning. */
  lemma MeaningsComplete(defns: seq<string>, j: nat, k: nat)
    requires j < |defns| && k < |Split(defns[j], "/")| && Strip(Split(defns[j], "/")[k]) != []
    ensures Strip(Split(defns[j], "/")[k]) in Meanings(defns)
  {
    PiecesComplete(defns, j, k);
    DedupMembers(MeaningPieces(defns), Strip(Split(defns[j], "/")[k]));
  }

  lemma {:induction false} PiecesComplete(defns: seq<string>, j: nat, k: nat)
    requires j < |defns| && k < |Split(defns[j], "/")| && Strip(Split(defns[j], "/")[k]) != []
    ensures Strip(Split(defns[j], "/")[k]) in MeaningPieces(defns)
  {
    var init := defns[..|defns| - 1];
    if j < |defns| - 1 {
      assert init[j] == defns[j];
      PiecesComplete(init, j, k);
    } else {
      StrippedPiecesComplete(Split(defns[j], "/"), k);
    }
  }

  // ---------------------------------------------------------------------
  // decomposition / components_detail
  // ---------------------------------------------------------------------

  /** A pair `components_detail` describes: named, and not the "?" of an
      unresolved component. */
  predicate Describable(d: Detail) {
    Truthy(d.1) && d.0 != "?"
  }

  /** The characters of the describable pairs: the loop's `seen_detail`. */
  function DescribedChars(ds: seq<Detail>): set<string> {
    if ds == [] then {}
    else
      var d := ds[|ds| - 1];
      DescribedChars(ds[..|ds| - 1]) + (if Describable(d) then {d.0} else {})
  }

  /** The pairs described: the first describable pair of each character. */
  function Described(ds: seq<Detail>): seq<(string, string)> {
    if ds == [] then []
    else
      var d := ds[|ds| - 1];
      var init := ds[..|ds| - 1];
      Described(init) + (if Describable(d) && d.0 !in DescribedChars(init) then [(d.0, d.1.value)] else [])
  }

  /** The aliases that differ from the keyword, ignoring ASCII case. */
  function OtherAliases(aliases: seq<string>, kw: string): (r: seq<string>)
    ensures forall a :: a in r <==> a in aliases && Lower(a) != Lower(kw)
  {
    if aliases == [] then []
    else
      assert aliases == [aliases[0]] + aliases[1..];
      (if Lower(aliases[0]) != Lower(kw) then [aliases[0]] else []) + OtherAliases(aliases[1..], kw)
  }

  /** `[a.lower() for a in aliases]`. */
  function LowerAll(xs: seq<string>): (r: seq<string>)
    ensures |r| == |xs| && forall i :: 0 <= i < |xs| ==> r[i] == Lower(xs[i])
  {
    seq(|xs|, i requires 0 <= i < |xs| => Lower(xs[i]))
  }

  /** The alias note of one part: the alias the decomposition used, or else
      the aliases that differ from the keyword, or nothing. */
  function AliasNote(name: string, kw: string, aliases: seq<string>): string {
    if Lower(name) != Lower(kw) && Lower(name) in LowerAll(aliases) then " (alias: " + name + ")"
    else if aliases != [] && exists i :: 0 <= i < |aliases| && Lower(aliases[i]) != Lower(kw) then
      var others := OtherAliases(aliases, kw);
      if others != [] then " (alias: " + Join(others, ", ") + ")" else ""
    else ""
  }

  /** "c = keyword", with its alias note; a character without an entry is
      described by the name the decomposition gave it. */
  function DetailPart(entries: map<string, Entry>, c: string, name: string): (r: string)
    ensures StartsWith(r, c + " = " + (if c in entries then entries[c].keyword else name))
  {
    var kw := if c in entries then entries[c].keyword else name;
    var aliases := if c in entries then entries[c].aliases else [];
    var r := c + " = " + kw + AliasNote(name, kw, aliases);
    assert r[..|c + " = " + kw|] == c + " = " + kw;
    r
  }

  function DetailParts(entries: map<string, Entry>, xs: seq<(string, string)>): (r: seq<string>)
    ensures |r| == |xs| && forall j :: 0 <= j < |xs| ==> r[j] == DetailPart(entries, xs[j].0, xs[j].1)
  {
    seq(|xs|, j requires 0 <= j < |xs| => DetailPart(entries, xs[j].0, xs[j].1))
  }

  /** The described pairs after one more pair. */
  lemma DescribedSnoc(ds: seq<Detail>, i: nat)
    requires i < |ds|
    ensures DescribedChars(ds[..i + 1]) == DescribedChars(ds[..i]) + (if Describable(ds[i]) then {ds[i].0} else {})
    ensures Describable(ds[i]) && ds[i].0 !in DescribedChars(ds[..i]) ==>
      Described(ds[..i + 1]) == Described(ds[..i]) + [(ds[i].0, ds[i].1.value)]
    ensures !(Describable(ds[i]) && ds[i].0 !in DescribedChars(ds[..i])) ==>
      Described(ds[..i + 1]) == Described(ds[..i])
  {
    assert ds[..i + 1][..i] == ds[..i];
  }

  /** The `components_detail` loop: one part per described pair, joined by
      ", ". */
  method ComponentsDetail(entries: map<string, Entry>, ds: seq<Detail>) returns (s: string)
    ensures s == Join(DetailParts(entries, Described(ds)), ", ")
  {
    var parts: seq<string> := [];
    var seen: set<string> := {};
    for i := 0 to |ds|
      invariant seen == DescribedChars(ds[..i])
      invariant parts == DetailParts(entries, Described(ds[..i]))
    {
      var (c, name) := ds[i];
      DescribedSnoc(ds, i);
      if Truthy(name) && c != "?" && c !in seen {
        seen := seen + {c};
        parts := parts + [DetailPart(entries, c, name.value)];
      }
    }
    assert ds[..|ds|] == ds;
    s := Join(parts, ", ");
  }

  /** The decomposition is shown once per described character: the parts
      have distinct characters, none of them "?", each with a non-empty
      name taken from the first pair for that character. */
  lemma {:induction false} DescribedDistinct(ds: seq<Detail>)
    ensures forall j, k :: 0 <= j < k < |Described(ds)| ==> Described(ds)[j].0 != Described(ds)[k].0
    ensures forall j :: 0 <= j < |Described(ds)| ==>
      Described(ds)[j].0 in DescribedChars(ds) && Described(ds)[j].0 != "?" && Described(ds)[j].1 != ""
  {
    if ds != [] {
      var init := ds[..|ds| - 1];
      DescribedDistinct(init);
      DescribedCharsSound(init);
    }
  }

  /** Each described pair comes from the tree's pairs. */
  lemma {:induction false} DescribedCharsSound(ds: seq<Detail>)
    ensures forall j :: 0 <= j < |Described(ds)| ==> Described(ds)[j].0 in DescribedChars(ds)
    ensures forall j :: 0 <= j < |Described(ds)| ==> (Described(ds)[j].0, Some(Described(ds)[j].1)) in ds
  {
    if ds != [] {
      var init := ds[..|ds| - 1];
      DescribedCharsSound(init);
      forall j | 0 <= j < |Described(init)| ensures (Described(init)[j].0, Some(Described(init)[j].1)) in ds {
        assert (Described(init)[j].0, Some(Described(init)[j].1)) in init;
      }
    }
  }

  /** Every describable pair's character is described. */
  lemma {:induction false} DescribedComplete(ds: seq<Detail>, i: nat)
    requires i < |ds| && Describable(ds[i])
    ensures exists j :: 0 <= j < |Described(ds)| && Described(ds)[j].0 == ds[i].0
    decreases |ds|, 0
  {
    var init := ds[..|ds| - 1];
    if i < |ds| - 1 {
      assert init[i] == ds[i];
      DescribedComplete(init, i);
      var j :| 0 <= j < |Described(init)| && Described(init)[j].0 == ds[i].0;
      assert Described(ds)[j] == Described(init)[j];
    } else if ds[i].0 in DescribedChars(init) {
      DescribedCharsComplete(init, ds[i].0);
      var j :| 0 <= j < |Described(init)| && Described(init)[j].0 == ds[i].0;
      assert Described(ds)[j] == Described(init)[j];
    } else {
      assert Described(ds)[|Described(ds)| - 1].0 == ds[i].0;
    }
  }

  lemma {:induction false} DescribedCharsComplete(ds: seq<Detail>, c: string)
    requires c in DescribedChars(ds)
    ensures exists j :: 0 <= j < |Described(ds)| && Described(ds)[j].0 == c
    decreases |ds|, 1
  {
    var init := ds[..|ds| - 1];
    if c in DescribedChars(init) {
      DescribedCharsComplete(init, c);
      var j :| 0 <= j < |Described(init)| && Described(init)[j].0 == c;
      assert Described(ds)[j] == Described(init)[j];
    } else {
      DescribedComplete(ds, |ds| - 1);
    }
  }

  /** Two pairs for one character with different names are described once,
      by the first name: the deduplication is by character only. */
  lemma DedupByCharacter(c: string, first: string, second: string)
    requires c != "?" && first != "" && second != ""
    ensures Described([(c, Some(first)), (c, Some(second))]) == [(c, first)]
  {
    var ds: seq<Detail> := [(c, Some(first)), (c, Some(second))];
    var one: seq<Detail> := [(c, Some(first))];
    assert ds[..1] == one;
    assert one[..0] == [];
    assert DescribedChars(one) == {c};
    assert Described(one) == [(c, first)];
  }

  /** A component without an entry is described by its decomposition name
      alone. */
  lemma PartWithoutEntry(entries: map<string, Entry>, c: string, name: string)
    requires c !in entries
    ensures DetailPart(entries, c, name) == c + " = " + name
  {
  }

  /** A component named by one of its aliases is shown with that alias. */
  lemma PartUsingAlias(entries: map<string, Entry>, c: string, name: string, k: nat)
    requires c in entries && k < |entries[c].aliases|
    requires Lower(entries[c].aliases[k]) == Lower(name) && Lower(name) != Lower(entries[c].keyword)
    ensures DetailPart(entries, c, name) == c + " = " + entries[c].keyword + " (alias: " + name + ")"
  {
    assert LowerAll(entries[c].aliases)[k] == Lower(name);
  }

  /** The `decomposition` and `components_detail` fields of a card: filled
      for a curated tree, or any tree with children and leaves; empty
      otherwise (an atomic character included). */
  function CardDecomposition(entries: map<string, Entry>, tree: Node): (r: (string, string))
    ensures tree.kids.NoChildren? && tree.source != Some(Heisig) ==> r == ("", "")
    ensures tree.source == Some(Heisig) ==> r.0 == Join(Leaves(tree, true), " + ")
  {
    var leaves := Leaves(tree, true);
    if tree.source == Some(Heisig) || (tree.kids.Children? && tree.kids.list != [] && |leaves| > 0) then
      (Join(leaves, " + "), Join(DetailParts(entries, Described(Details(tree, true))), ", "))
    else ("", "")
  }

  /** The enrichment step for one card's tree. */
  method DecompositionFields(entries: map<string, Entry>, tree: Node) returns (decomposition: string, detail: string)
    ensures (decomposition, detail) == CardDecomposition(entries, tree)
  {
    var leaves := Leaves(tree, true);
    var leafDetails := Details(tree, true);
    decomposition, detail := "", "";
    if tree.source == Some(Heisig) || (tree.kids.Children? && tree.kids.list != [] && |leaves| > 0) {
      decomposition := Join(leaves, " + ");
      detail := ComponentsDetail(entries, leafDetails);
    }
  }

  /** A childless tree (atomic, unknown, guarded) has empty fields. */
  lemma LeafCardEmpty(entries: map<string, Entry>, tree: Node)
    requires tree.kids.NoChildren? && tree.source != Some(Heisig)
    ensures CardDecomposition(entries, tree) == ("", "")
  {
  }

  /** A component list made of names only is shown as those names. */
  lemma {:induction false} ComponentLabelsNamed(kb: Kb, comps: seq<string>)
    requires forall i :: 0 <= i < |comps| ==> comps[i] != ""
    ensures ComponentLabels(kb, comps) == comps
  {
    if comps != [] {
      ComponentLabelsNamed(kb, comps[1..]);
    }
  }

  /** A character with curated components shows them, in order, joined by
      " + ". */
  lemma CuratedCard(kb: Kb, ch: string, rank: map<int, nat>)
    requires Valid(kb, rank) && OwnComponents(kb, ch)
    requires forall i :: 0 <= i < |kb.entries[ch].components| ==> kb.entries[ch].components[i] != ""
    ensures RecursiveDecompose(kb, ch, rank).Ok?
    ensures CardDecomposition(kb.entries, RecursiveDecompose(kb, ch, rank).value).0
      == Join(kb.entries[ch].components, " + ")
  {
    var comps := kb.entries[ch].components;
    var n := Node(ch, Name(kb, ch), Some(Heisig), None, None, Children(ComponentKids(kb.byKeyword, comps)));
    assert RecursiveDecompose(kb, ch, rank) == Ok(n);
    CuratedLeaves(kb, ch, Name(kb, ch), comps);
    ComponentLabelsNamed(kb, comps);
  }
}
