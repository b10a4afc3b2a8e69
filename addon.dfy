/**
 * The Anki add-on's lookup side, heisig_addon/decompose.py: the bundled
 * character table loaded once into a cache, keyword resolution that asks
 * the user's collection first, re-resolution of the "c = keyword" parts of
 * a components string, and the HTML explanation of one character.
 *
 * The collection is an abstract pair of lookups (note search and note
 * retrieval), either of which may raise; a raised exception is `None`.
 */
module Addon {
  import opened Util

  /** One record of the bundled table: field name to text. */
  type Info = map<string, string>

  /** `info.get(key, "")`. */
  function Get(info: Info, key: string): string {
    if key in info then info[key] else ""
  }

  // ---------------------------------------------------------------------
  // The cached table and lookup
  // ---------------------------------------------------------------------

  /** The module-level `_DATA` cache. */
  class Cache {
    var data: Option<map<string, Info>>

    /** The cache starts out empty. */
    constructor()
      ensures data.None?
    {
      data := None;
    }

    /** `_load()`: `contents` is what the data file would be read as; it is
        used only when nothing is cached, and once something is cached every
        later call returns it unchanged. */
    method Load(contents: map<string, Info>) returns (d: map<string, Info>)
      modifies this
      ensures data == Some(d)
      ensures old(data).Some? ==> d == old(data).value
      ensures old(data).None? ==> d == contents
    {
      if data.None? {
        data := Some(contents);
      }
      d := data.value;
    }

    /** `lookup(char)`: load, then look up the stripped character. */
    method Lookup(contents: map<string, Info>, ch: string) returns (r: Option<Info>)
      modifies this
      ensures data.Some? && r == LookupIn(data.value, ch)
      ensures old(data).Some? ==> data == old(data)
      ensures old(data).None? ==> data == Some(contents)
    {
      var d := Load(contents);
      r := LookupIn(d, ch);
    }
  }

  /** `data.get(char.strip())`. */
  function LookupIn(data: map<string, Info>, ch: string): (r: Option<Info>)
    ensures r.Some? <==> Strip(ch) in data
    ensures r.Some? ==> r.value == data[Strip(ch)]
  {
    if Strip(ch) in data then Some(data[Strip(ch)]) else None
  }

  /** Surrounding whitespace never matters to a lookup. */
  lemma LookupStripped(data: map<string, Info>, ch: string)
    ensures LookupIn(data, Strip(ch)) == LookupIn(data, ch)
  {
    StripIdempotent(ch);
  }

  /** Two loads in a row return the same table, whatever the second one
      would have read. */
  method LoadTwice(c: Cache, first: map<string, Info>, second: map<string, Info>) returns (a: map<string, Info>, b: map<string, Info>)
    modifies c
    ensures a == b
    ensures old(c.data).None? ==> a == first
  {
    a := c.Load(first);
    b := c.Load(second);
  }

  // ---------------------------------------------------------------------
  // resolve_keyword
  // ---------------------------------------------------------------------

  /** A note of the user's collection: field name to text. */
  datatype Note = Note(fields: map<string, string>)

  /** The two collection calls, `None` where the call raises. */
  datatype Collection = Collection(
    findNotes: string -> Option<seq<nat>>,
    getNote: nat -> Option<Note>)

  /** The search string `"<char_field>:<char>"`, quotes included. */
  function Query(charField: string, ch: string): (q: string)
    ensures |q| == |charField| + |ch| + 3
    ensures q[0] == '"' && q[|q| - 1] == '"'
  {
    "\"" + charField + ":" + ch + "\""
  }

  /** The note can be fetched and its keyword field is not blank. */
  predicate Usable(col: Collection, id: nat, keywordField: string) {
    col.getNote(id).Some? && keywordField in col.getNote(id).value.fields
    && Strip(col.getNote(id).value.fields[keywordField]) != ""
  }

  /** The stripped keyword of a usable note. */
  function NoteKeyword(col: Collection, id: nat, keywordField: string): (k: string)
    requires Usable(col, id, keywordField)
    ensures k != [] && !IsSpace(k[0]) && !IsSpace(k[|k| - 1])
  {
    Strip(col.getNote(id).value.fields[keywordField])
  }

  /** The loop over the found note ids: the first usable note's stripped
      keyword; a raising `get_note` ends the loop, and the exception is
      swallowed. */
  function ScanNotes(col: Collection, ids: seq<nat>, keywordField: string): (r: Option<string>)
    ensures r.Some? ==> r.value != [] && Strip(r.value) == r.value
  {
    if ids == [] then None
    else if col.getNote(ids[0]).None? then None
    else if Usable(col, ids[0], keywordField) then Some(NoteKeyword(col, ids[0], keywordField))
    else ScanNotes(col, ids[1..], keywordField)
  }

  /** The scan reports the first usable note before any raising one. */
  lemma {:induction false} ScanNotesFirst(col: Collection, ids: seq<nat>, keywordField: string, i: nat)
    requires i < |ids| && Usable(col, ids[i], keywordField)
    requires forall j :: 0 <= j < i ==> col.getNote(ids[j]).Some? && !Usable(col, ids[j], keywordField)
    ensures ScanNotes(col, ids, keywordField) == Some(NoteKeyword(col, ids[i], keywordField))
  {
    if i > 0 {
      assert col.getNote(ids[0]).Some? && !Usable(col, ids[0], keywordField);
      forall j | 0 <= j < i - 1
        ensures col.getNote(ids[1..][j]).Some? && !Usable(col, ids[1..][j], keywordField)
      {
        assert ids[1..][j] == ids[j + 1];
      }
      ScanNotesFirst(col, ids[1..], keywordField, i - 1);
    }
  }

  /** A scan finding nothing met no usable note before the first raising one. */
  lemma {:induction false} ScanNotesNone(col: Collection, ids: seq<nat>, keywordField: string, i: nat)
    requires ScanNotes(col, ids, keywordField).None?
    requires i < |ids| && Usable(col, ids[i], keywordField)
    ensures exists j :: 0 <= j < i && col.getNote(ids[j]).None?
  {
    if col.getNote(ids[0]).None? {
      assert i > 0;
    } else {
      assert !Usable(col, ids[0], keywordField);
      assert ids[1..][i - 1] == ids[i];
      ScanNotesNone(col, ids[1..], keywordField, i - 1);
      var j :| 0 <= j < i - 1 && col.getNote(ids[1..][j]).None?;
      assert ids[1..][j] == ids[j + 1];
    }
  }

  /** What the collection says about `ch`, if anything: nothing without a
      collection, nothing when the search raises. */
  function FromCollection(col: Option<Collection>, charField: string, keywordField: string, ch: string): Option<string> {
    if col.None? then None
    else match col.value.findNotes(Query(charField, ch))
      case None => None
      case Some(ids) => ScanNotes(col.value, ids, keywordField)
  }

  /** `resolve_keyword(char, col, char_field, keyword_field)` over the loaded
      table `data`. */
  function ResolveKeyword(data: map<string, Info>, col: Option<Collection>, charField: string, keywordField: string, ch: string): (r: string)
    ensures ch != "" ==> r != ""
  {
    match FromCollection(col, charField, keywordField, ch)
    case Some(k) => k
    case None =>
      var info := LookupIn(data, ch);
      if info.Some? && Get(info.value, "keyword") != "" then info.value["keyword"] else ch
  }

  /** A scan result is a usable note's stripped keyword. */
  lemma {:induction false} ScanNotesValue(col: Collection, ids: seq<nat>, keywordField: string)
    ensures var s := ScanNotes(col, ids, keywordField);
      s.Some? ==> exists i :: 0 <= i < |ids| && Usable(col, ids[i], keywordField) && s.value == NoteKeyword(col, ids[i], keywordField)
  {
    if ids != [] && col.getNote(ids[0]).Some? && !Usable(col, ids[0], keywordField) {
      ScanNotesValue(col, ids[1..], keywordField);
      if ScanNotes(col, ids, keywordField).Some? {
        var i :| 0 <= i < |ids[1..]| && Usable(col, ids[1..][i], keywordField)
          && ScanNotes(col, ids[1..], keywordField).value == NoteKeyword(col, ids[1..][i], keywordField);
        assert ids[1..][i] == ids[i + 1];
      }
    }
  }

  /** The first usable note found, when no note before it raises, gives
      the keyword, stripped. */
  lemma ResolveKeywordFromNote(data: map<string, Info>, col: Option<Collection>, charField: string, keywordField: string, ch: string, i: nat)
    requires col.Some? && col.value.findNotes(Query(charField, ch)).Some?
    requires var ids := col.value.findNotes(Query(charField, ch)).value;
      i < |ids| && Usable(col.value, ids[i], keywordField)
      && forall j :: 0 <= j < i ==> col.value.getNote(ids[j]).Some? && !Usable(col.value, ids[j], keywordField)
    ensures ResolveKeyword(data, col, charField, keywordField, ch)
      == NoteKeyword(col.value, col.value.findNotes(Query(charField, ch)).value[i], keywordField)
  {
    ScanNotesFirst(col.value, col.value.findNotes(Query(charField, ch)).value, keywordField, i);
  }

  /** A collection answer is always a usable note's stripped keyword; when
      there is none, the bundled non-empty keyword comes next, then the
      character itself. */
  lemma ResolveKeywordOrder(data: map<string, Info>, col: Option<Collection>, charField: string, keywordField: string, ch: string)
    ensures var r := ResolveKeyword(data, col, charField, keywordField, ch);
      var f := FromCollection(col, charField, keywordField, ch);
      var bundled := LookupIn(data, ch);
      && (f.Some? ==>
            exists i :: 0 <= i < |col.value.findNotes(Query(charField, ch)).value|
              && Usable(col.value, col.value.findNotes(Query(charField, ch)).value[i], keywordField)
              && r == NoteKeyword(col.value, col.value.findNotes(Query(charField, ch)).value[i], keywordField))
      && (f.None? && bundled.Some? && Get(bundled.value, "keyword") != "" ==> r == bundled.value["keyword"])
      && (f.None? && (bundled.None? || Get(bundled.value, "keyword") == "") ==> r == ch)
  {
    var f := FromCollection(col, charField, keywordField, ch);
    if f.Some? {
      ScanNotesValue(col.value, col.value.findNotes(Query(charField, ch)).value, keywordField);
    }
  }

  /** Without a collection, or when its search raises, only the bundled
      table counts. */
  lemma ResolveKeywordOffline(data: map<string, Info>, col: Option<Collection>, charField: string, keywordField: string, ch: string)
    requires col.None? || col.value.findNotes(Query(charField, ch)).None?
    ensures ResolveKeyword(data, col, charField, keywordField, ch)
      == (if LookupIn(data, ch).Some? && Get(LookupIn(data, ch).value, "keyword") != "" then LookupIn(data, ch).value["keyword"] else ch)
  {
  }

  // ---------------------------------------------------------------------
  // _resolve_components_detail
  // ---------------------------------------------------------------------

  /** The component of a part "c = kw": what precedes the first " = ",
      stripped. */
  function ComponentOf(part: string): (c: string)
  {
    Strip(SplitOnce(part, " = ")[0])
  }

  /** The component is one character other than 囧, the marker of a
      primitive without its own code point. */
  predicate Resolvable(part: string) {
    Contains(part, " = ") && |ComponentOf(part)| == 1 && ComponentOf(part) != "囧"
  }

  /** One part of the loop: a resolvable part gets its keyword afresh, and
      everything else is kept verbatim. */
  function ResolvePart(data: map<string, Info>, col: Option<Collection>, charField: string, keywordField: string, part: string): (r: string)
    ensures !Resolvable(part) ==> r == part
    ensures Resolvable(part) ==>
      (StartsWith(r, ComponentOf(part) + " = ")
       && r[|ComponentOf(part)| + 3..] == ResolveKeyword(data, col, charField, keywordField, ComponentOf(part)))
  {
    if Resolvable(part) then
      var c := ComponentOf(part);
      var r := c + " = " + ResolveKeyword(data, col, charField, keywordField, c);
      assert r[..|c + " = "|] == c + " = ";
      r
    else part
  }

  /** The list of parts the loop builds, one per ", "-separated piece. */
  function ResolvedParts(data: map<string, Info>, col: Option<Collection>, charField: string, keywordField: string, pieces: seq<string>): (r: seq<string>)
    ensures |r| == |pieces|
    ensures forall k :: 0 <= k < |pieces| ==> r[k] == ResolvePart(data, col, charField, keywordField, pieces[k])
  {
    seq(|pieces|, k requires 0 <= k < |pieces| => ResolvePart(data, col, charField, keywordField, pieces[k]))
  }

  /** What `_resolve_components_detail` returns. */
  function ResolvedDetail(data: map<string, Info>, col: Option<Collection>, charField: string, keywordField: string, detail: string): (r: string)
    ensures detail == "" ==> r == ""
    ensures (forall k :: 0 <= k < |Split(detail, ", ")| ==> !Resolvable(Split(detail, ", ")[k])) ==> r == detail
  {
    if detail == "" then detail
    else
      var pieces := Split(detail, ", ");
      assert (forall k :: 0 <= k < |pieces| ==> !Resolvable(pieces[k])) ==>
        ResolvedParts(data, col, charField, keywordField, pieces) == pieces;
      Join(ResolvedParts(data, col, charField, keywordField, pieces), ", ")
  }

  /** `_resolve_components_detail`: the loop appending one part per piece. */
  method ResolveComponentsDetail(data: map<string, Info>, col: Option<Collection>, charField: string, keywordField: string, detail: string)
    returns (r: string)
    ensures r == ResolvedDetail(data, col, charField, keywordField, detail)
  {
    if detail == "" {
      return detail;
    }
    var pieces := Split(detail, ", ");
    var parts: seq<string> := [];
    var i := 0;
    while i < |pieces|
      invariant 0 <= i <= |pieces|
      invariant |parts| == i
      invariant forall k :: 0 <= k < i ==> parts[k] == ResolvePart(data, col, charField, keywordField, pieces[k])
    {
      parts := parts + [ResolvePart(data, col, charField, keywordField, pieces[i])];
      i := i + 1;
    }
    assert parts == ResolvedParts(data, col, charField, keywordField, pieces);
    r := Join(parts, ", ");
  }

  /** A string with no resolvable part comes back unchanged. */
  lemma ResolvedDetailIdentity(data: map<string, Info>, col: Option<Collection>, charField: string, keywordField: string, detail: string)
    requires forall k :: 0 <= k < |Split(detail, ", ")| ==> !Resolvable(Split(detail, ", ")[k])
    ensures ResolvedDetail(data, col, charField, keywordField, detail) == detail
  {
    if detail != "" {
      var pieces := Split(detail, ", ");
      assert ResolvedParts(data, col, charField, keywordField, pieces) == pieces;
    }
  }

  /** Re-splitting the result gives back the parts, in number and order,
      provided no resolved keyword itself holds ", ". */
  lemma ResolvedDetailParts(data: map<string, Info>, col: Option<Collection>, charField: string, keywordField: string, detail: string)
    requires detail != ""
    requires forall k :: 0 <= k < |Split(detail, ", ")| ==>
      !Contains(ResolvePart(data, col, charField, keywordField, Split(detail, ", ")[k]), ", ")
    ensures var pieces := Split(detail, ", ");
      var back := Split(ResolvedDetail(data, col, charField, keywordField, detail), ", ");
      |back| == |pieces| && forall k :: 0 <= k < |pieces| ==> back[k] == ResolvePart(data, col, charField, keywordField, pieces[k])
  {
    var parts := ResolvedParts(data, col, charField, keywordField, Split(detail, ", "));
    SplitJoinPair(parts, ", ");
  }

  /** Splitting a join on a two-character separator whose characters differ
      gives the parts back when no part contains the separator. */
  lemma {:induction false} SplitJoinPair(parts: seq<string>, sep: string)
    requires |sep| == 2 && sep[0] != sep[1] && |parts| >= 1
    requires forall i :: 0 <= i < |parts| ==> !Contains(parts[i], sep)
    ensures Split(Join(parts, sep), sep) == parts
  {
    var a := parts[0];
    if |parts| == 1 {
      SplitNoSep(a, sep);
    } else {
      var rest := Join(parts[1..], sep);
      var s := a + sep + rest;
      assert Join(parts, sep) == s;
      assert OccursAt(s, sep, |a|) by { assert s[|a|..|a| + 2] == sep; }
      forall j | 0 <= j < |a| ensures !OccursAt(s, sep, j) {
        if j + 2 <= |a| {
          assert s[j..j + 2] == a[j..j + 2];
          assert !OccursAt(a, sep, j) by { ContainsIff(a, sep); }
        } else {
          assert s[j + 1] == sep[0];
        }
      }
      FindAt(s, sep, |a|);
      assert s[..|a|] == a;
      assert s[|a| + 2..] == rest;
      SplitJoinPair(parts[1..], sep);
      assert parts == [a] + parts[1..];
    }
  }

  // ---------------------------------------------------------------------
  // format_explanation
  // ---------------------------------------------------------------------

  /** The book-number keys in the order the header lists them. */
  const Books: seq<(string, string)> := [("RSH_number", "RSH"), ("RTH_number", "RTH"), ("RTK_number", "RTK")]

  /** "LABEL #n". */
  function NumberText(name: string, n: string): string {
    name + " #" + n
  }

  /** "LABEL #n" for every listed book whose number is present, in order. */
  function BookNumbers(info: Info, books: seq<(string, string)>): (r: seq<string>)
    ensures |r| <= |books|
  {
    if books == [] then []
    else
      BookNumbers(info, books[..|books| - 1]) + BookItem(info, books[|books| - 1])
  }

  /** "LABEL #n" for one book, when its number is present. */
  function BookItem(info: Info, book: (string, string)): seq<string> {
    Opt(Get(info, book.0) != "", NumberText(book.1, Get(info, book.0)))
  }

  /** The first line: the keyword in bold, the character, and the present
      book numbers. */
  function Header(keyword: string, ch: string, info: Info): string {
    var nums := BookNumbers(info, Books);
    "<b>" + keyword + "</b> (" + ch + ")" + (if nums != [] then " " + Join(nums, ", ") else "")
  }

  /** `[x]` when `b` holds, else `[]`. */
  function Opt<T>(b: bool, x: T): (r: seq<T>)
    ensures |r| == if b then 1 else 0
    ensures b ==> r[0] == x
  {
    if b then [x] else []
  }

  /** The lines of the explanation, before they are joined with "<br>",
      for a given header and re-resolved components string. */
  function Lines(header: string, info: Info, components: string): (r: seq<string>)
    ensures 1 <= |r| <= 4 && r[0] == header
    ensures |r| == 1 <==> Get(info, "reading") == "" && Get(info, "components_detail") == "" && Get(info, "spatial") == ""
  {
    [header]
    + Opt(Get(info, "reading") != "", "Reading: " + Get(info, "reading"))
    + Opt(Get(info, "components_detail") != "", "Components: " + components)
    + Opt(Get(info, "spatial") != "", "Layout: " + Get(info, "spatial"))
  }

  function ExplanationLines(data: map<string, Info>, col: Option<Collection>, charField: string, keywordField: string, ch: string, info: Info): seq<string> {
    Lines(Header(ResolveKeyword(data, col, charField, keywordField, ch), ch, info), info,
          ResolvedDetail(data, col, charField, keywordField, Get(info, "components_detail")))
  }

  /** The first line of `format_explanation`: the bold keyword and the
      character, then the book numbers added to it in place. */
  method HeaderLine(keyword: string, ch: string, info: Info) returns (line: string)
    ensures line == Header(keyword, ch, info)
  {
    var lines := ["<b>" + keyword + "</b> (" + ch + ")"];
    var nums: seq<string> := [];
    var i := 0;
    while i < |Books|
      invariant 0 <= i <= |Books|
      invariant nums == BookNumbers(info, Books[..i])
    {
      var book := Books[i];
      assert Books[..i + 1][..i] == Books[..i];
      if Get(info, book.0) != "" {
        nums := nums + [NumberText(book.1, Get(info, book.0))];
      }
      i := i + 1;
    }
    assert Books[..i] == Books;
    if nums != [] {
      lines := lines[0 := lines[0] + " " + Join(nums, ", ")];
    }
    line := lines[0];
  }

  /** `format_explanation`: the header, then the optional lines. */
  method FormatExplanation(data: map<string, Info>, col: Option<Collection>, charField: string, keywordField: string, ch: string, info: Info)
    returns (html: string)
    ensures html == Join(ExplanationLines(data, col, charField, keywordField, ch, info), "<br>")
  {
    ghost var resolved := ResolvedDetail(data, col, charField, keywordField, Get(info, "components_detail"));
    var keyword := ResolveKeyword(data, col, charField, keywordField, ch);
    var first := HeaderLine(keyword, ch, info);
    var lines := [first];
    ghost var readingLine := Opt(Get(info, "reading") != "", "Reading: " + Get(info, "reading"));
    if Get(info, "reading") != "" {
      lines := lines + ["Reading: " + info["reading"]];
    }
    assert lines == [first] + readingLine;
    ghost var componentsLine := Opt(Get(info, "components_detail") != "", "Components: " + resolved);
    var components := Get(info, "components_detail");
    if components != "" {
      components := ResolveComponentsDetail(data, col, charField, keywordField, components);
      lines := lines + ["Components: " + components];
    }
    assert lines == [first] + readingLine + componentsLine;
    if Get(info, "spatial") != "" {
      lines := lines + ["Layout: " + info["spatial"]];
    }
    assert lines == Lines(first, info, resolved);
    html := Join(lines, "<br>");
  }

  /** The labels of the optional lines, in the order they may appear. */
  const Labels: seq<string> := ["Reading: ", "Components: ", "Layout: "]

  /** Which optional fields are present, as a list of their label indices. */
  function Present(info: Info): seq<nat> {
    Opt(Get(info, "reading") != "", 0)
    + Opt(Get(info, "components_detail") != "", 1)
    + Opt(Get(info, "spatial") != "", 2)
  }

  /** Every line after the first starts with the label of the field its
      position in `p` names, and the names increase. */
  predicate Shaped(lines: seq<string>, p: seq<nat>) {
    && |lines| == 1 + |p|
    && (forall k :: 0 <= k < |p| ==> p[k] < 3 && StartsWith(lines[k + 1], Labels[p[k]]))
    && (forall k, l :: 0 <= k < l < |p| ==> p[k] < p[l])
  }

  /** The shape of a header followed by the lines of the present fields. */
  lemma ShapedOf(h: string, rl: string, cl: string, ll: string, a: bool, b: bool, c: bool)
    requires StartsWith(rl, Labels[0]) && StartsWith(cl, Labels[1]) && StartsWith(ll, Labels[2])
    ensures Shaped([h] + Opt(a, rl) + Opt(b, cl) + Opt(c, ll), Opt(a, 0) + Opt(b, 1) + Opt(c, 2))
  {
    var lines, p := [h] + Opt(a, rl) + Opt(b, cl) + Opt(c, ll), Opt(a, 0) + Opt(b, 1) + Opt(c, 2);
    var l0, p0 := [h] + Opt(a, rl), Opt(a, 0);
    assert |l0| == 1 + |p0| && forall k :: 0 <= k < |p0| ==> p0[k] == 0 && l0[k + 1] == rl;
    var l1, p1 := l0 + Opt(b, cl), p0 + Opt(b, 1);
    assert |l1| == 1 + |p1| && forall k :: 0 <= k < |p1| ==> (p1[k] == 0 && l1[k + 1] == rl) || (p1[k] == 1 && l1[k + 1] == cl && k == |p0|);
    assert |lines| == 1 + |p| && forall k :: 0 <= k < |p| ==>
      (p[k] == 0 && lines[k + 1] == rl && k == 0) || (p[k] == 1 && lines[k + 1] == cl && k == |p0|) || (p[k] == 2 && lines[k + 1] == ll && k == |p1|);
  }

  /** The first line is the header; every further line starts with the label
      of a present field, one line per present field, their labels in the
      order Reading, Components, Layout. */
  lemma LinesShape(header: string, info: Info, components: string)
    ensures var lines := Lines(header, info, components);
      lines[0] == header && Shaped(lines, Present(info))
  {
    var reading, layout := Get(info, "reading"), Get(info, "spatial");
    var rl, cl, ll := "Reading: " + reading, "Components: " + components, "Layout: " + layout;
    assert StartsWith(rl, Labels[0]) by { assert rl[..|Labels[0]|] == Labels[0]; }
    assert StartsWith(cl, Labels[1]) by { assert cl[..|Labels[1]|] == Labels[1]; }
    assert StartsWith(ll, Labels[2]) by { assert ll[..|Labels[2]|] == Labels[2]; }
    ShapedOf(header, rl, cl, ll, reading != "", Get(info, "components_detail") != "", layout != "");
  }

  /** The explanation's first line is the header of the resolved keyword. */
  lemma ExplanationShape(data: map<string, Info>, col: Option<Collection>, charField: string, keywordField: string, ch: string, info: Info)
    ensures var lines := ExplanationLines(data, col, charField, keywordField, ch, info);
      lines[0] == Header(ResolveKeyword(data, col, charField, keywordField, ch), ch, info)
      && Shaped(lines, Present(info))
  {
    LinesShape(Header(ResolveKeyword(data, col, charField, keywordField, ch), ch, info), info,
               ResolvedDetail(data, col, charField, keywordField, Get(info, "components_detail")));
  }

  /** A field's line is present exactly when the field is non-empty. */
  lemma ExplanationPresent(info: Info)
    ensures 0 in Present(info) <==> Get(info, "reading") != ""
    ensures 1 in Present(info) <==> Get(info, "components_detail") != ""
    ensures 2 in Present(info) <==> Get(info, "spatial") != ""
  {
  }

  /** The header opens with the bold keyword and the character, and carries
      the number suffix exactly when some book number is present. */
  lemma HeaderShape(keyword: string, ch: string, info: Info)
    ensures var h := Header(keyword, ch, info);
      var base := "<b>" + keyword + "</b> (" + ch + ")";
      StartsWith(h, base)
      && (h == base <==> BookNumbers(info, Books) == [])
  {
    var h := Header(keyword, ch, info);
    var base := "<b>" + keyword + "</b> (" + ch + ")";
    assert h[..|base|] == base;
    if BookNumbers(info, Books) != [] {
      assert |h| > |base|;
    }
  }

  /** The numbers list the present books in the order RSH, RTH, RTK, each as
      "LABEL #n". */
  lemma BookNumbersSpec(info: Info)
    ensures BookNumbers(info, Books) ==
      BookItem(info, ("RSH_number", "RSH")) + BookItem(info, ("RTH_number", "RTH")) + BookItem(info, ("RTK_number", "RTK"))
  {
    BookNumbersOfThree(info, ("RSH_number", "RSH"), ("RTH_number", "RTH"), ("RTK_number", "RTK"));
  }

  /** A list of three books gives the items of the three in order. */
  lemma BookNumbersOfThree(info: Info, b0: (string, string), b1: (string, string), b2: (string, string))
    ensures BookNumbers(info, [b0, b1, b2]) == BookItem(info, b0) + BookItem(info, b1) + BookItem(info, b2)
  {
    var one, two := [b0], [b0, b1];
    assert BookNumbers(info, one) == BookItem(info, b0) by {
      BookNumbersSnoc(info, [], b0);
      assert [] + [b0] == one;
    }
    assert BookNumbers(info, two) == BookItem(info, b0) + BookItem(info, b1) by {
      BookNumbersSnoc(info, one, b1);
      assert one + [b1] == two;
    }
    BookNumbersSnoc(info, two, b2);
    assert two + [b2] == [b0, b1, b2];
  }

  /** Appending a book appends its item. */
  lemma BookNumbersSnoc(info: Info, books: seq<(string, string)>, book: (string, string))
    ensures BookNumbers(info, books + [book]) == BookNumbers(info, books) + BookItem(info, book)
  {
    assert (books + [book])[..|books|] == books;
  }
}
