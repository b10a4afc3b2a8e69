/**
 * The keyword assigner, scripts/generate_keywords.py: CC-CEDICT sense
 * splitting and per-headword accumulation, keyword normalisation, the
 * assignment of pairwise distinct keywords over a growing set of used
 * (normalised) keywords, and the `components_detail` of a new character.
 *
 * The dictionaries are parameters: a CC-CEDICT line is taken as already
 * matched into its four fields, and the Unihan table as a map from a
 * character to its list of definitions.
 */
module Keywords {
  import opened Util

  // ---------------------------------------------------------------------
  // normalize_keyword
  // ---------------------------------------------------------------------

  /** The one singular/plural rule that applies, if any. */
  function Depluralize(k: string): (r: string)
    ensures |r| <= |k|
    ensures !EndsWith(k, "s") ==> r == k
  {
    if EndsWith(k, "ies") then k[..|k| - 3] + "y"
    else if EndsWith(k, "es") then k[..|k| - 2]
    else if EndsWith(k, "s") && !EndsWith(k, "ss") then k[..|k| - 1]
    else k
  }

  /** `normalize_keyword`: lower-cased, stripped, then depluralized. */
  function Normalize(kw: string): (r: string)
    ensures |r| <= |kw|
  {
    Depluralize(Strip(Lower(kw)))
  }

  lemma LowerIdempotent(s: string)
    ensures Lower(Lower(s)) == Lower(s)
  {
  }

  /** Lower-casing keeps the leading whitespace run. */
  lemma {:induction false} LeadingSpacesLower(s: string)
    ensures LeadingSpaces(Lower(s)) == LeadingSpaces(s)
  {
    if s != [] {
      assert Lower(s)[0] == AsciiLowerChar(s[0]);
      assert IsSpace(AsciiLowerChar(s[0])) == IsSpace(s[0]);
      assert Lower(s)[1..] == Lower(s[1..]);
      LeadingSpacesLower(s[1..]);
    }
  }

  lemma {:induction false} LStripLower(s: string)
    ensures LStrip(Lower(s)) == Lower(LStrip(s))
  {
    LeadingSpacesLower(s);
    var n := LeadingSpaces(s);
    assert Lower(s)[n..] == Lower(s[n..]);
  }

  lemma {:induction false} RStripLower(s: string)
    ensures RStrip(Lower(s)) == Lower(RStrip(s))
  {
    if s != [] {
      assert Lower(s)[..|s| - 1] == Lower(s[..|s| - 1]);
      RStripLower(s[..|s| - 1]);
    }
  }

  /** Lower-casing and stripping commute. */
  lemma StripLower(s: string)
    ensures Strip(Lower(s)) == Lower(Strip(s))
  {
    LStripLower(s);
    RStripLower(LStrip(s));
  }

  /** Normalisation ignores case. */
  lemma NormalizeIgnoresCase(kw: string)
    ensures Normalize(Lower(kw)) == Normalize(kw)
  {
    LowerIdempotent(kw);
  }

  /** Normalisation ignores surrounding whitespace. */
  lemma NormalizeIgnoresSpace(kw: string)
    ensures Normalize(Strip(kw)) == Normalize(kw)
  {
    StripLower(kw);
    StripIdempotent(Lower(kw));
  }

  /** A lower-case, stripped keyword is only depluralized. */
  lemma NormalizeClean(w: string)
    requires Lower(w) == w && (w == [] || (!IsSpace(w[0]) && !IsSpace(w[|w| - 1])))
    ensures Normalize(w) == Depluralize(w)
  {
    StripOfStripped(w);
  }

  /** Lower-casing a concatenation. */
  lemma LowerAppend(a: string, b: string)
    ensures Lower(a + b) == Lower(a) + Lower(b)
  {
    assert forall i :: 0 <= i < |a + b| ==> Lower(a + b)[i] == (Lower(a) + Lower(b))[i] by {
      forall i | 0 <= i < |a + b| ensures Lower(a + b)[i] == (Lower(a) + Lower(b))[i] {
        if i < |a| { assert (a + b)[i] == a[i]; } else { assert (a + b)[i] == b[i - |a|]; }
      }
    }
  }

  /** A word not ending in "s" is left alone. */
  lemma DepluralizeKeeps(w: string)
    requires w == [] || w[|w| - 1] != 's'
    ensures Depluralize(w) == w
  {
    if w != [] {
      assert w[|w| - 1..][0] == w[|w| - 1];
      if |w| >= 2 { assert w[|w| - 2..][1] == w[|w| - 1]; }
      if |w| >= 3 { assert w[|w| - 3..][2] == w[|w| - 1]; }
    }
  }

  /** A word ending in neither "s" nor "e", with an "s" added, loses the "s"
      again. */
  lemma DepluralizeDropsS(w: string)
    requires w != [] && w[|w| - 1] != 's' && w[|w| - 1] != 'e'
    ensures Depluralize(w + "s") == w
  {
    var p := w + "s";
    var n := |p|;
    assert p[n - 2..][0] == w[|w| - 1];
    if n >= 3 { assert p[n - 3..][1] == w[|w| - 1]; }
    assert p[n - 1..] == "s" && p[..n - 1] == w;
  }

  /** "-ies" becomes "-y". */
  lemma DepluralizeIes(stem: string)
    ensures Depluralize(stem + "ies") == stem + "y"
  {
    var p := stem + "ies";
    assert p[|p| - 3..] == "ies" && p[..|p| - 3] == stem;
  }

  /** A plain "-s" plural collides with its singular: a lower-case word
      without surrounding whitespace that ends in neither "s" nor "e". */
  lemma PluralCollides(w: string)
    requires w != [] && Lower(w) == w && !IsSpace(w[0]) && !IsSpace(w[|w| - 1])
    requires w[|w| - 1] != 's' && w[|w| - 1] != 'e'
    ensures Normalize(w + "s") == w && Normalize(w) == w
  {
    LowerAppend(w, "s");
    assert Lower("s") == "s";
    NormalizeClean(w + "s");
    NormalizeClean(w);
    DepluralizeDropsS(w);
    DepluralizeKeeps(w);
  }

  /** A lower-case word starting with no whitespace, and a lower-case
      suffix ending in a letter, make a lower-case stripped word. */
  lemma AppendClean(stem: string, suffix: string)
    requires Lower(stem) == stem && (stem == [] || !IsSpace(stem[0]))
    requires suffix != [] && Lower(suffix) == suffix && !IsSpace(suffix[0]) && !IsSpace(suffix[|suffix| - 1])
    ensures Normalize(stem + suffix) == Depluralize(stem + suffix)
  {
    var p := stem + suffix;
    LowerAppend(stem, suffix);
    assert p[0] == (if stem == [] then suffix[0] else stem[0]);
    assert p[|p| - 1] == suffix[|suffix| - 1];
    NormalizeClean(p);
  }

  lemma IesNormal(stem: string)
    requires Lower(stem) == stem && (stem == [] || !IsSpace(stem[0]))
    ensures Normalize(stem + "ies") == stem + "y"
  {
    assert Depluralize(stem + "ies") == stem + "y" by { DepluralizeIes(stem); }
    assert Normalize(stem + "ies") == Depluralize(stem + "ies") by {
      assert Lower("ies") == "ies";
      AppendClean(stem, "ies");
    }
  }

  lemma YNormal(stem: string)
    requires Lower(stem) == stem && (stem == [] || !IsSpace(stem[0]))
    ensures Normalize(stem + "y") == stem + "y"
  {
    assert Lower("y") == "y";
    AppendClean(stem, "y");
    DepluralizeKeeps(stem + "y");
  }

  /** A "-ies" plural collides with its "-y" singular. */
  lemma IesCollides(stem: string)
    requires Lower(stem) == stem && (stem == [] || !IsSpace(stem[0]))
    ensures Normalize(stem + "ies") == stem + "y" && Normalize(stem + "y") == stem + "y"
  {
    IesNormal(stem);
    YNormal(stem);
  }

  // ---------------------------------------------------------------------
  // Sense splitting (parse_cedict)
  // ---------------------------------------------------------------------

  /** The reference test `^(variant of|see |also written|abbr\. for|same as)`
      with re.I, on ASCII case. */
  predicate IsReference(d: string) {
    var l := Lower(d);
    StartsWith(l, "variant of") || StartsWith(l, "see ") || StartsWith(l, "also written")
    || StartsWith(l, "abbr. for") || StartsWith(l, "same as")
  }

  /** `re.sub(r"^\([^)]+\)\s*", "", d)`: a leading parenthesis holding at
      least one character, and the whitespace after it, removed. */
  function DropParenthetical(d: string): (r: string)
    ensures |r| <= |d|
    ensures forall x :: x in r ==> x in d
    ensures (d == [] || d[0] != '(') ==> r == d
  {
    if d != [] && d[0] == '(' then
      match FindChar(d[1..], ')')
      case Some(k) =>
        if k >= 1 then
          var r := LStrip(d[k + 2..]);
          assert forall x :: x in r ==> x in d by {
            forall x | x in r ensures x in d { assert x in d[k + 2..]; }
          }
          r
        else d
      case None => d
    else d
  }

  /** The definitions one "/"-separated sense contributes. */
  function SensePieces(sense: string): (r: seq<string>)
    ensures forall m :: m in r ==> m != [] && Strip(m) == m
  {
    var d := Strip(sense);
    if d == [] || IsReference(d) then []
    else
      var e := DropParenthetical(d);
      if e == [] then []
      else
        var r := StrippedPieces(Split(e, ";"));
        forall m | m in r ensures m != [] && Strip(m) == m { StrippedPiecesClean(Split(e, ";"), m); }
        r
  }

  /** The definitions of a list of senses, in order. */
  function DefsFrom(senses: seq<string>): seq<string> {
    if senses == [] then []
    else DefsFrom(senses[..|senses| - 1]) + SensePieces(senses[|senses| - 1])
  }

  /** The `defs` list of one CC-CEDICT line. */
  function Defs(defsStr: string): seq<string> {
    DefsFrom(Split(defsStr, "/"))
  }

  lemma DefsFromSnoc(senses: seq<string>, j: nat)
    requires j < |senses|
    ensures DefsFrom(senses[..j + 1]) == DefsFrom(senses[..j]) + SensePieces(senses[j])
  {
    assert senses[..j + 1][..j] == senses[..j];
  }

  /** The loops of `parse_cedict` over the senses of one line and over the
      ";"-pieces of each sense. */
  method SplitDefinitions(defsStr: string) returns (defs: seq<string>)
    ensures defs == Defs(defsStr)
  {
    var senses := Split(defsStr, "/");
    defs := [];
    for j := 0 to |senses|
      invariant defs == DefsFrom(senses[..j])
    {
      DefsFromSnoc(senses, j);
      defs := AddSense(defs, senses[j]);
    }
    assert senses[..|senses|] == senses;
  }

  /** The body of the sense loop: the filters, then the ";"-pieces. */
  method AddSense(defs0: seq<string>, sense: string) returns (defs: seq<string>)
    ensures defs == defs0 + SensePieces(sense)
  {
    defs := defs0;
    var d := Strip(sense);
    if d != [] && !IsReference(d) {
      d := DropParenthetical(d);
      if d != [] {
        var subs := Split(d, ";");
        assert defs0 + StrippedPieces(subs[..0]) == defs0;
        for k := 0 to |subs|
          invariant defs == defs0 + StrippedPieces(subs[..k])
        {
          StrippedPiecesSnoc(defs0, subs, k);
          var sub := Strip(subs[k]);
          if sub != [] {
            defs := defs + [sub];
          }
        }
        assert subs[..|subs|] == subs;
      }
    }
  }

  /** The characters of a stripped string are characters of the string. */
  lemma StripChars(s: string, x: char)
    requires x in Strip(s)
    ensures x in s
  {
    StripSlice(s);
    var i := LeadingSpaces(s);
    assert x in s[i..i + |Strip(s)|];
  }

  /** A piece without the separator has no occurrence of it. */
  lemma SplitPieceChars(s: string, c: char, k: nat)
    requires k < |Split(s, [c])|
    ensures c !in Split(s, [c])[k]
  {
    ContainsChar(Split(s, [c])[k], c);
  }

  /** Every definition is non-empty, stripped, and free of "/" and ";". */
  lemma {:induction false} DefsClean(senses: seq<string>, d: string)
    requires forall j :: 0 <= j < |senses| ==> '/' !in senses[j]
    requires d in DefsFrom(senses)
    ensures d != [] && Strip(d) == d && ';' !in d && '/' !in d
  {
    var init := senses[..|senses| - 1];
    if d in DefsFrom(init) {
      DefsClean(init, d);
    } else {
      var s := senses[|senses| - 1];
      var e := DropParenthetical(Strip(s));
      var subs := Split(e, ";");
      StrippedPiecesClean(subs, d);
      var k := PieceIndex(subs, d);
      SplitPieceChars(e, ';', k);
      if ';' in d { StripChars(subs[k], ';'); }
      if '/' in d {
        StripChars(subs[k], '/');
        assert '/' in e by { ContainsChar(subs[k], '/'); SplitPieceIn(e, ';', k, '/'); }
        StripChars(s, '/');
      }
    }
  }

  /** The piece a stripped piece comes from. */
  lemma {:induction false} PieceIndex(pieces: seq<string>, d: string) returns (k: nat)
    requires d in StrippedPieces(pieces)
    ensures k < |pieces| && Strip(pieces[k]) == d
  {
    var init := pieces[..|pieces| - 1];
    if d in StrippedPieces(init) {
      k := PieceIndex(init, d);
    } else {
      k := |pieces| - 1;
    }
  }

  /** A character of a piece of a split is a character of the whole. */
  lemma SplitPieceIn(s: string, c: char, k: nat, x: char)
    requires k < |Split(s, [c])| && x in Split(s, [c])[k]
    ensures x in s
  {
    JoinMember(Split(s, [c]), [c], k, x);
  }

  lemma {:induction false} JoinMember(parts: seq<string>, sep: string, k: nat, x: char)
    requires k < |parts| && x in parts[k]
    ensures x in Join(parts, sep)
  {
    if |parts| > 1 {
      if k > 0 {
        JoinMember(parts[1..], sep, k - 1, x);
      }
    }
  }

  /** A sense the filters leave alone: non-empty, stripped, without "/" or
      ";", not a reference and not starting with a parenthesis. */
  predicate PlainSense(s: string) {
    s != [] && Strip(s) == s && '/' !in s && ';' !in s && !IsReference(s) && s[0] != '('
  }

  lemma PlainSensePieces(s: string)
    requires PlainSense(s)
    ensures SensePieces(s) == [s]
  {
    OnePiece(s);
  }

  lemma {:induction false} PlainDefsFrom(ss: seq<string>)
    requires forall i :: 0 <= i < |ss| ==> PlainSense(ss[i])
    ensures DefsFrom(ss) == ss
  {
    if ss != [] {
      var init := ss[..|ss| - 1];
      var last := ss[|ss| - 1];
      assert DefsFrom(init) == init by {
        assert forall i :: 0 <= i < |init| ==> init[i] == ss[i];
        PlainDefsFrom(init);
      }
      assert SensePieces(last) == [last] by { PlainSensePieces(last); }
      FrontLast(ss);
    }
  }

  /** A definition field made of plain senses gives those senses back. */
  lemma PlainSensesRoundTrip(ss: seq<string>)
    requires forall i :: 0 <= i < |ss| ==> PlainSense(ss[i])
    ensures Defs(Join(ss, "/")) == ss
  {
    if ss == [] {
      SplitNoSep("", "/");
      assert Defs("") == SensePieces("");
    } else {
      SplitJoinChar(ss, '/');
      PlainDefsFrom(ss);
    }
  }

  /** Every reference prefix starts with a letter, so nothing starting with
      a parenthesis is a reference. */
  lemma ParenthesisNotReference(d: string)
    requires d != [] && d[0] == '('
    ensures !IsReference(d)
  {
    var l := Lower(d);
    assert l[0] == '(';
    assert forall t :: t != [] && StartsWith(l, t) ==> t[0] == l[..|t|][0] == '(';
  }

  /** The note pattern removes "(note)" and the whitespace after it. */
  lemma DropNote(note: string, rest: string)
    requires note != [] && ')' !in note
    requires rest == [] || !IsSpace(rest[0])
    ensures DropParenthetical("(" + note + ") " + rest) == rest
  {
    var d := "(" + note + ") " + rest;
    assert d[1..] == note + ") " + rest;
    assert d[1..][..|note|] == note;
    FindCharAt(d[1..], ')', |note|);
    assert d[|note| + 2..] == " " + rest;
    assert LeadingSpaces(" " + rest) == 1 + LeadingSpaces(rest) by { assert (" " + rest)[1..] == rest; }
  }

  /** A stripped sense without ";" is one definition. */
  lemma OnePiece(e: string)
    requires e != [] && Strip(e) == e && ';' !in e
    ensures StrippedPieces(Split(e, ";")) == [e]
  {
    ContainsChar(e, ';');
    SplitNoSep(e, ";");
    assert [e][..0] == [];
    assert StrippedPieces([e]) == StrippedPieces([]) + [e];
  }

  /** A leading parenthetical note is dropped, together with the whitespace
      after it, and the rest is kept whole when it has no ";". The reference
      filter runs before the note is dropped, so the rest is kept even when
      it is itself a reference. */
  lemma NoteDropped(note: string, rest: string)
    requires note != [] && ')' !in note
    requires rest != [] && Strip(rest) == rest && ';' !in rest
    ensures SensePieces("(" + note + ") " + rest) == [rest]
  {
    var d := "(" + note + ") " + rest;
    assert d[0] == '(' && d[|d| - 1] == rest[|rest| - 1];
    StripOfStripped(d);
    ParenthesisNotReference(d);
    DropNote(note, rest);
    OnePiece(rest);
  }

  /** "see X" on its own is dropped as a reference... */
  lemma ReferenceDropped()
    ensures SensePieces("see X") == []
  {
    var r := "see X";
    StripOfStripped(r);
    assert Lower(r)[..4] == "see ";
  }

  /** ...but behind a note it is kept. */
  lemma ReferenceBehindNoteKept()
    ensures SensePieces("(old) see X") == ["see X"]
  {
    var r := "see X";
    StripOfStripped(r);
    assert ')' !in "old" && ';' !in r;
    assert "(old) see X" == "(" + "old" + ") " + r;
    NoteDropped("old", r);
  }

  // ---------------------------------------------------------------------
  // Per-headword accumulation (parse_cedict)
  // ---------------------------------------------------------------------

  /** A CC-CEDICT line after the line pattern has matched. */
  datatype CedictLine = CedictLine(trad: string, simp: string, pinyin: string, defs: string)

  /** `cedict[char]`: the first reading seen and the definitions. */
  datatype Headword = Headword(pinyin: string, defs: seq<string>)

  /** `for d in ds: if d not in xs: xs.append(d)`. */
  function AppendNew(xs: seq<string>, ds: seq<string>): seq<string> {
    if ds == [] then xs
    else
      var a := AppendNew(xs, ds[..|ds| - 1]);
      var d := ds[|ds| - 1];
      if d in a then a else a + [d]
  }

  /** The definitions of `ds` appended to a headword's deduplicated list
      leave it deduplicated. */
  lemma {:induction false} AppendNewDedup(ys: seq<string>, ds: seq<string>)
    ensures AppendNew(Dedup(ys), ds) == Dedup(ys + ds)
  {
    if ds == [] {
      assert ys + ds == ys;
    } else {
      var init := ds[..|ds| - 1];
      var d := ds[|ds| - 1];
      AppendNewDedup(ys, init);
      assert ys + ds == (ys + init) + [d];
      DedupSnoc(ys + init, d);
      DedupMembers(ys + init, d);
    }
  }

  /** Definitions already present change nothing. */
  lemma {:induction false} DedupAbsorbs(ys: seq<string>, ds: seq<string>)
    requires forall i :: 0 <= i < |ds| ==> ds[i] in ys
    ensures Dedup(ys + ds) == Dedup(ys)
  {
    if ds != [] {
      var init := ds[..|ds| - 1];
      var d := ds[|ds| - 1];
      DedupAbsorbs(ys, init);
      assert ys + ds == (ys + init) + [d];
      DedupSnoc(ys + init, d);
    } else {
      assert ys + ds == ys;
    }
  }

  /** The update for one headword of a line, ignored unless it is a single
      character. */
  function AddHeadword(m: map<string, Headword>, ch: string, pinyin: string, ds: seq<string>): map<string, Headword> {
    if |ch| != 1 then m
    else
      var e := if ch in m then m[ch] else Headword(pinyin, []);
      m[ch := Headword(e.pinyin, AppendNew(e.defs, ds))]
  }

  /** One line, stored for its traditional then its simplified form. */
  function AddLine(m: map<string, Headword>, line: CedictLine): map<string, Headword> {
    var ds := Defs(line.defs);
    AddHeadword(AddHeadword(m, line.trad, line.pinyin, ds), line.simp, line.pinyin, ds)
  }

  /** `parse_cedict` over the matched lines. */
  function Cedict(lines: seq<CedictLine>): (r: map<string, Headword>)
    ensures forall h :: h in r ==> |h| == 1
  {
    if lines == [] then map[] else AddLine(Cedict(lines[..|lines| - 1]), lines[|lines| - 1])
  }

  /** One headword update of `parse_cedict`, with its inner loop. */
  method StoreHeadword(m0: map<string, Headword>, ch: string, pinyin: string, ds: seq<string>) returns (m: map<string, Headword>)
    ensures m == AddHeadword(m0, ch, pinyin, ds)
  {
    m := m0;
    if |ch| == 1 {
      if ch !in m {
        m := m[ch := Headword(pinyin, [])];
      }
      ghost var e := m[ch];
      assert ds[..0] == [];
      for k := 0 to |ds|
        invariant m == m0[ch := Headword(e.pinyin, AppendNew(e.defs, ds[..k]))]
      {
        assert ds[..k + 1][..k] == ds[..k];
        if ds[k] !in m[ch].defs {
          m := m[ch := Headword(m[ch].pinyin, m[ch].defs + [ds[k]])];
        }
      }
      assert ds[..|ds|] == ds;
    }
  }

  /** The line loop of `parse_cedict`. */
  method ParseCedict(lines: seq<CedictLine>) returns (cedict: map<string, Headword>)
    ensures cedict == Cedict(lines)
  {
    cedict := map[];
    for i := 0 to |lines|
      invariant cedict == Cedict(lines[..i])
    {
      assert lines[..i + 1][..i] == lines[..i];
      var line := lines[i];
      var defs := SplitDefinitions(line.defs);
      // for char in [trad, simp]
      cedict := StoreHeadword(cedict, line.trad, line.pinyin, defs);
      cedict := StoreHeadword(cedict, line.simp, line.pinyin, defs);
    }
    assert lines[..|lines|] == lines;
  }

  /** Line `l` carries headword `ch`. */
  predicate Mentions(l: CedictLine, ch: string) {
    |ch| == 1 && (l.trad == ch || l.simp == ch)
  }

  /** The definitions of every line carrying `ch`, in order, repeats kept. */
  function DefsFor(lines: seq<CedictLine>, ch: string): seq<string> {
    if lines == [] then []
    else
      var l := lines[|lines| - 1];
      DefsFor(lines[..|lines| - 1], ch) + (if Mentions(l, ch) then Defs(l.defs) else [])
  }

  /** The effect of one headword update on another key. */
  lemma AddHeadwordAt(m: map<string, Headword>, c: string, pinyin: string, ds: seq<string>, ch: string)
    ensures c != ch ==> (ch in AddHeadword(m, c, pinyin, ds) <==> ch in m)
    ensures c != ch && ch in m ==> AddHeadword(m, c, pinyin, ds)[ch] == m[ch]
    ensures c == ch && |ch| == 1 ==> ch in AddHeadword(m, c, pinyin, ds)
    ensures c == ch && |ch| == 1 ==> (
      var e := if ch in m then m[ch] else Headword(pinyin, []);
      AddHeadword(m, c, pinyin, ds)[ch] == Headword(e.pinyin, AppendNew(e.defs, ds)))
  {
  }

  /** A line that does not carry `ch` leaves it alone. */
  lemma AddLineOther(m: map<string, Headword>, l: CedictLine, ch: string)
    requires !Mentions(l, ch)
    ensures ch in AddLine(m, l) <==> ch in m
    ensures ch in m ==> AddLine(m, l)[ch] == m[ch]
  {
    var ds := Defs(l.defs);
    var m1 := AddHeadword(m, l.trad, l.pinyin, ds);
    if |ch| == 1 {
      AddHeadwordAt(m, l.trad, l.pinyin, ds, ch);
      AddHeadwordAt(m1, l.simp, l.pinyin, ds, ch);
    }
  }

  /** A line that carries `ch` stores it, with the line's definitions added
      once per form that is `ch`: twice when both forms are `ch`, the second
      time changing nothing. */
  lemma AddLineMentioned(m: map<string, Headword>, l: CedictLine, ch: string)
    requires Mentions(l, ch)
    ensures ch in AddLine(m, l)
    ensures var e := if ch in m then m[ch] else Headword(l.pinyin, []);
      var ds := Defs(l.defs);
      AddLine(m, l)[ch] == Headword(e.pinyin,
        if l.trad == ch && l.simp == ch then AppendNew(AppendNew(e.defs, ds), ds) else AppendNew(e.defs, ds))
  {
    var ds := Defs(l.defs);
    var m1 := AddHeadword(m, l.trad, l.pinyin, ds);
    AddHeadwordAt(m, l.trad, l.pinyin, ds, ch);
    AddHeadwordAt(m1, l.simp, l.pinyin, ds, ch);
  }

  /** Some line among `lines` carries `ch`. */
  predicate Mentioned(lines: seq<CedictLine>, ch: string) {
    exists i :: 0 <= i < |lines| && Mentions(lines[i], ch)
  }

  lemma MentionedSnoc(lines: seq<CedictLine>, ch: string)
    requires lines != []
    ensures Mentioned(lines, ch) <==> Mentioned(lines[..|lines| - 1], ch) || Mentions(lines[|lines| - 1], ch)
  {
    var init := lines[..|lines| - 1];
    if Mentioned(lines, ch) && !Mentions(lines[|lines| - 1], ch) {
      var i :| 0 <= i < |lines| && Mentions(lines[i], ch);
      assert i < |init| && init[i] == lines[i];
    }
    if Mentioned(init, ch) {
      var i :| 0 <= i < |init| && Mentions(init[i], ch);
      assert lines[i] == init[i];
    }
  }

  /** `parse_cedict` stores a headword exactly when some line carries it. */
  lemma {:induction false} CedictHas(lines: seq<CedictLine>, ch: string)
    ensures ch in Cedict(lines) <==> exists i :: 0 <= i < |lines| && Mentions(lines[i], ch)
  {
    if lines != [] {
      var init := lines[..|lines| - 1];
      var l := lines[|lines| - 1];
      assert Cedict(lines) == AddLine(Cedict(init), l);
      assert ch in Cedict(init) <==> Mentioned(init, ch) by { CedictHas(init, ch); }
      MentionedSnoc(lines, ch);
      if Mentions(l, ch) {
        assert ch in AddLine(Cedict(init), l) by { AddLineMentioned(Cedict(init), l, ch); }
      } else {
        assert ch in AddLine(Cedict(init), l) <==> ch in Cedict(init) by { AddLineOther(Cedict(init), l, ch); }
      }
      assert ch in Cedict(lines) <==> Mentioned(lines, ch);
    }
  }

  /** A stored headword's definitions are those of every line carrying it,
      without repeats, in first-seen order. */
  lemma {:induction false} CedictDefsSpec(lines: seq<CedictLine>, ch: string)
    requires ch in Cedict(lines)
    ensures Cedict(lines)[ch].defs == Dedup(DefsFor(lines, ch))
  {
    var init := lines[..|lines| - 1];
    var l := lines[|lines| - 1];
    var m := Cedict(init);
    var ys := DefsFor(init, ch);
    if Mentions(l, ch) {
      AddLineMentioned(m, l, ch);
      var ds := Defs(l.defs);
      var old_ := if ch in m then m[ch].defs else [];
      assert old_ == Dedup(ys) by {
        if ch in m {
          CedictDefsSpec(init, ch);
        } else {
          CedictHas(init, ch);
          assert forall i :: 0 <= i < |init| ==> !Mentions(init[i], ch);
          DefsForAbsent(init, ch);
        }
      }
      assert DefsFor(lines, ch) == ys + ds;
      AppendNewDedup(ys, ds);
      if l.trad == ch && l.simp == ch {
        AppendNewDedup(ys + ds, ds);
        assert forall i :: 0 <= i < |ds| ==> ds[i] in ys + ds;
        DedupAbsorbs(ys + ds, ds);
        assert Cedict(lines)[ch].defs == AppendNew(AppendNew(old_, ds), ds);
      } else {
        assert Cedict(lines)[ch].defs == AppendNew(old_, ds);
      }
    } else {
      AddLineOther(m, l, ch);
      assert DefsFor(lines, ch) == ys;
      CedictDefsSpec(init, ch);
    }
  }

  /** A stored headword keeps the reading of the first line carrying it. */
  lemma {:induction false} CedictReading(lines: seq<CedictLine>, ch: string, i: nat)
    requires i < |lines| && Mentions(lines[i], ch)
    requires forall j :: 0 <= j < i ==> !Mentions(lines[j], ch)
    ensures ch in Cedict(lines) && Cedict(lines)[ch].pinyin == lines[i].pinyin
  {
    var init := lines[..|lines| - 1];
    var l := lines[|lines| - 1];
    if i == |lines| - 1 {
      CedictReadingLast(lines, ch);
    } else {
      assert init[i] == lines[i];
      assert forall j :: 0 <= j < i ==> init[j] == lines[j];
      CedictReading(init, ch, i);
      if Mentions(l, ch) { AddLineMentioned(Cedict(init), l, ch); } else { AddLineOther(Cedict(init), l, ch); }
    }
  }

  /** The first line carrying a headword is the last line so far. */
  lemma CedictReadingLast(lines: seq<CedictLine>, ch: string)
    requires lines != [] && Mentions(lines[|lines| - 1], ch)
    requires forall j :: 0 <= j < |lines| - 1 ==> !Mentions(lines[j], ch)
    ensures ch in Cedict(lines) && Cedict(lines)[ch].pinyin == lines[|lines| - 1].pinyin
  {
    var init := lines[..|lines| - 1];
    CedictHas(init, ch);
    assert forall j :: 0 <= j < |init| ==> !Mentions(init[j], ch) by {
      forall j | 0 <= j < |init| ensures !Mentions(init[j], ch) { assert init[j] == lines[j]; }
    }
    AddLineMentioned(Cedict(init), lines[|lines| - 1], ch);
  }

  /** No line carries `ch`: nothing collected for it. */
  lemma {:induction false} DefsForAbsent(lines: seq<CedictLine>, ch: string)
    requires forall i :: 0 <= i < |lines| ==> !Mentions(lines[i], ch)
    ensures DefsFor(lines, ch) == []
  {
    if lines != [] {
      var init := lines[..|lines| - 1];
      assert forall i :: 0 <= i < |init| ==> init[i] == lines[i];
      DefsForAbsent(init, ch);
    }
  }

  /** A headword's definitions never repeat. */
  lemma CedictDistinct(lines: seq<CedictLine>, ch: string)
    requires ch in Cedict(lines)
    ensures Distinct(Cedict(lines)[ch].defs)
  {
    CedictDefsSpec(lines, ch);
    DedupDistinct(DefsFor(lines, ch));
  }

  // ---------------------------------------------------------------------
  // generate_keywords
  // ---------------------------------------------------------------------

  /** The keys of some candidates; the assigner's key is `Normalize`. */
  function Keys(cands: seq<string>, key: string -> string): (r: seq<string>)
    ensures |r| == |cands| && forall i :: 0 <= i < |cands| ==> r[i] == key(cands[i])
  {
    seq(|cands|, i requires 0 <= i < |cands| => key(cands[i]))
  }

  lemma KeysAppend(a: seq<string>, b: seq<string>, key: string -> string)
    ensures Keys(a + b, key) == Keys(a, key) + Keys(b, key)
  {
    assert forall i :: 0 <= i < |a + b| ==> Keys(a + b, key)[i] == (Keys(a, key) + Keys(b, key))[i] by {
      forall i | 0 <= i < |a + b| ensures Keys(a + b, key)[i] == (Keys(a, key) + Keys(b, key))[i] {
        if i < |a| { assert (a + b)[i] == a[i]; } else { assert (a + b)[i] == b[i - |a|]; }
      }
    }
  }

  /** The index of the first key not yet used. */
  function FirstFree(keys: seq<string>, used: set<string>): (r: Option<nat>)
    ensures r.Some? ==> r.value < |keys| && keys[r.value] !in used
    ensures r.Some? ==> forall j :: 0 <= j < r.value ==> keys[j] in used
    ensures r.None? ==> forall j :: 0 <= j < |keys| ==> keys[j] in used
  {
    FirstFreeFrom(keys, used, 0)
  }

  /** The index of the first key not yet used at or after `i`. */
  function FirstFreeFrom(keys: seq<string>, used: set<string>, i: nat): (r: Option<nat>)
    requires i <= |keys|
    ensures r.Some? ==> i <= r.value < |keys| && keys[r.value] !in used
    ensures r.Some? ==> forall j :: i <= j < r.value ==> keys[j] in used
    ensures r.None? ==> forall j :: i <= j < |keys| ==> keys[j] in used
    decreases |keys| - i
  {
    if i == |keys| then None
    else if keys[i] !in used then Some(i)
    else FirstFreeFrom(keys, used, i + 1)
  }

  /** `FirstFree` is the first unused index. */
  lemma FirstFreeAt(keys: seq<string>, used: set<string>, k: nat)
    requires k < |keys| && keys[k] !in used
    requires forall j :: 0 <= j < k ==> keys[j] in used
    ensures FirstFree(keys, used) == Some(k)
  {
    FirstFreeFromAt(keys, used, 0, k);
  }

  lemma {:induction false} FirstFreeFromAt(keys: seq<string>, used: set<string>, i: nat, k: nat)
    requires i <= k < |keys| && keys[k] !in used
    requires forall j :: i <= j < k ==> keys[j] in used
    ensures FirstFreeFrom(keys, used, i) == Some(k)
    decreases k - i
  {
    if i < k {
      FirstFreeFromAt(keys, used, i + 1, k);
    }
  }

  /** The loop `for d in cands: if normalize_keyword(d) not in used: ...;
      break`. */
  method FindFree(cands: seq<string>, used: set<string>, key: string -> string) returns (r: Option<nat>)
    ensures r == FirstFree(Keys(cands, key), used)
  {
    ghost var keys := Keys(cands, key);
    var i := 0;
    while i < |cands|
      invariant 0 <= i <= |cands|
      invariant forall j :: 0 <= j < i ==> keys[j] in used
    {
      var norm := key(cands[i]);
      if norm !in used {
        FirstFreeAt(keys, used, i);
        return Some(i);
      }
      i := i + 1;
    }
    assert FirstFree(keys, used).None?;
    return None;
  }

  /** With every key used there is no free one. */
  lemma FirstFreeNone(keys: seq<string>, used: set<string>)
    requires forall j :: 0 <= j < |keys| ==> keys[j] in used
    ensures FirstFree(keys, used) == None
  {
  }

  /** A free key in the first list is found there. */
  lemma FirstFreeAppendLeft(a: seq<string>, b: seq<string>, used: set<string>, k: nat)
    requires FirstFree(a, used) == Some(k)
    ensures FirstFree(a + b, used) == Some(k)
  {
    var ab := a + b;
    assert forall j :: 0 <= j <= k ==> ab[j] == a[j];
    FirstFreeAt(ab, used, k);
  }

  /** With the first list used up, a free key of the second is found after
      it. */
  lemma FirstFreeAppendRight(a: seq<string>, b: seq<string>, used: set<string>, k: nat)
    requires forall j :: 0 <= j < |a| ==> a[j] in used
    requires FirstFree(b, used) == Some(k)
    ensures FirstFree(a + b, used) == Some(|a| + k)
  {
    var ab := a + b;
    assert ab[|a| + k] == b[k];
    forall j | 0 <= j < |a| + k ensures ab[j] in used {
      if j < |a| { assert ab[j] == a[j]; } else { assert ab[j] == b[j - |a|]; }
    }
    FirstFreeAt(ab, used, |a| + k);
  }

  /** With both lists used up, so is their concatenation. */
  lemma FirstFreeAppendNone(a: seq<string>, b: seq<string>, used: set<string>)
    requires forall j :: 0 <= j < |a| ==> a[j] in used
    requires forall j :: 0 <= j < |b| ==> b[j] in used
    ensures FirstFree(a + b, used) == None
  {
    var ab := a + b;
    forall j | 0 <= j < |ab| ensures ab[j] in used {
      if j < |a| { assert ab[j] == a[j]; } else { assert ab[j] == b[j - |a|]; }
    }
    FirstFreeNone(ab, used);
  }

  /** The first free key of a concatenation. */
  lemma FirstFreeAppend(a: seq<string>, b: seq<string>, used: set<string>)
    ensures FirstFree(a + b, used) ==
      if FirstFree(a, used).Some? then FirstFree(a, used)
      else if FirstFree(b, used).Some? then Some(|a| + FirstFree(b, used).value)
      else None
  {
    var fa, fb := FirstFree(a, used), FirstFree(b, used);
    if fa.Some? {
      FirstFreeAppendLeft(a, b, used, fa.value);
    } else if fb.Some? {
      FirstFreeAppendRight(a, b, used, fb.value);
    } else {
      FirstFreeAppendNone(a, b, used);
    }
  }

  /** The first free key of three lists in a row. */
  lemma FirstFreeOfThree(a: seq<string>, b: seq<string>, c: seq<string>, used: set<string>)
    ensures FirstFree(a + b + c, used) ==
      if FirstFree(a, used).Some? then FirstFree(a, used)
      else if FirstFree(b, used).Some? then Some(|a| + FirstFree(b, used).value)
      else if FirstFree(c, used).Some? then Some(|a| + |b| + FirstFree(c, used).value)
      else None
  {
    FirstFreeAppend(a, b, used);
    FirstFreeAppend(a + b, c, used);
  }

  datatype Origin = FromCedict | FromUnihan | CedictNumbered | UnihanNumbered

  function OriginName(o: Origin): string {
    match o
    case FromCedict => "cedict"
    case FromUnihan => "unihan"
    case CedictNumbered => "cedict+num"
    case UnihanNumbered => "unihan+num"
  }

  /** The outcome of the three candidate loops for one character. */
  datatype Choice = Choice(keyword: Option<string>, reading: string, source: Option<Origin>)

  function CedictDefs(cedict: map<string, Headword>, ch: string): seq<string> {
    if ch in cedict then cedict[ch].defs else []
  }

  function UnihanDefs(unihan: map<string, seq<string>>, ch: string): seq<string> {
    if ch in unihan then unihan[ch] else []
  }

  /** `base_def`: the first CC-CEDICT definition, else the first Unihan one. */
  function BaseDef(cedict: map<string, Headword>, unihan: map<string, seq<string>>, ch: string): Option<string> {
    if CedictDefs(cedict, ch) != [] then Some(CedictDefs(cedict, ch)[0])
    else if UnihanDefs(unihan, ch) != [] then Some(UnihanDefs(unihan, ch)[0])
    else None
  }

  /** `f"{base} ({i})"` for i in 2..99. */
  function Numbered(base: string): seq<string> {
    seq(98, i requires 0 <= i < 98 => base + " (" + NatToString(i + 2) + ")")
  }

  /** The numbered candidates, when there is a non-empty base. */
  function NumberedFor(cedict: map<string, Headword>, unihan: map<string, seq<string>>, ch: string): seq<string> {
    var base := BaseDef(cedict, unihan, ch);
    if Truthy(base) then Numbered(base.value) else []
  }

  /** The candidate a first-free search over one list picks: the first one
      whose key is unused. */
  function Pick(cs: seq<string>, used: set<string>, key: string -> string): (r: Option<string>)
    ensures r.Some? ==> r.value in cs && key(r.value) !in used
    ensures r.None? <==> forall j :: 0 <= j < |cs| ==> key(cs[j]) in used
  {
    var f := FirstFree(Keys(cs, key), used);
    if f.Some? then Some(cs[f.value]) else None
  }

  /** Lines 128-167 for one character against the used set. */
  function Choose(cedict: map<string, Headword>, unihan: map<string, seq<string>>, used: set<string>, ch: string): (r: Choice)
    ensures r.keyword.Some? <==> r.source.Some?
    ensures r.keyword.Some? ==> Normalize(r.keyword.value) !in used
    ensures r.reading == if ch in cedict then cedict[ch].pinyin else ""
  {
    var reading := if ch in cedict then cedict[ch].pinyin else "";
    var k1 := Pick(CedictDefs(cedict, ch), used, Normalize);
    if k1.Some? then Choice(k1, reading, Some(FromCedict))
    else
      var k2 := Pick(UnihanDefs(unihan, ch), used, Normalize);
      if k2.Some? then Choice(k2, reading, Some(FromUnihan))
      else
        var k3 := Pick(NumberedFor(cedict, unihan, ch), used, Normalize);
        if k3.Some? then Choice(k3, reading, Some(if ch in cedict then CedictNumbered else UnihanNumbered))
        else Choice(None, reading, None)
  }

  /** Every candidate in the order they are tried. */
  function Candidates(cedict: map<string, Headword>, unihan: map<string, seq<string>>, ch: string): seq<string> {
    CedictDefs(cedict, ch) + UnihanDefs(unihan, ch) + NumberedFor(cedict, unihan, ch)
  }

  /** Searching three lists in a row picks from the first list that has an
      unused key. */
  lemma PickOfThree(a: seq<string>, b: seq<string>, n: seq<string>, used: set<string>, key: string -> string)
    ensures Pick(a + b + n, used, key) ==
      if Pick(a, used, key).Some? then Pick(a, used, key)
      else if Pick(b, used, key).Some? then Pick(b, used, key)
      else Pick(n, used, key)
  {
    var cs := a + b + n;
    var ka, kb, kn := Keys(a, key), Keys(b, key), Keys(n, key);
    assert Keys(cs, key) == ka + kb + kn by {
      KeysAppend(a, b, key);
      KeysAppend(a + b, n, key);
    }
    FirstFreeOfThree(ka, kb, kn, used);
    var fa, fb, fn := FirstFree(ka, used), FirstFree(kb, used), FirstFree(kn, used);
    if fa.Some? {
      assert cs[fa.value] == a[fa.value];
    } else if fb.Some? {
      assert cs[|a| + fb.value] == b[fb.value];
    } else if fn.Some? {
      assert cs[|a| + |b| + fn.value] == n[fn.value];
    }
  }

  /** The chosen keyword is the first candidate, in CC-CEDICT, Unihan,
      numbered order, whose normalised form is unused; there is none exactly
      when every candidate's normalised form is used. */
  lemma ChooseFirstFree(cedict: map<string, Headword>, unihan: map<string, seq<string>>, used: set<string>, ch: string)
    ensures Choose(cedict, unihan, used, ch).keyword == Pick(Candidates(cedict, unihan, ch), used, Normalize)
    ensures Choose(cedict, unihan, used, ch).keyword.None? <==>
      forall j :: 0 <= j < |Candidates(cedict, unihan, ch)| ==> Normalize(Candidates(cedict, unihan, ch)[j]) in used
  {
    PickOfThree(CedictDefs(cedict, ch), UnihanDefs(unihan, ch), NumberedFor(cedict, unihan, ch), used, Normalize);
  }

  /** The three candidate loops for one character. */
  method ChooseKeyword(cedict: map<string, Headword>, unihan: map<string, seq<string>>, used: set<string>, ch: string)
    returns (keyword: Option<string>, reading: string, source: Option<Origin>)
    ensures Choice(keyword, reading, source) == Choose(cedict, unihan, used, ch)
  {
    keyword := None;
    reading := "";
    source := None;
    if ch in cedict {
      reading := cedict[ch].pinyin;
      var f := FindFree(cedict[ch].defs, used, Normalize);
      if f.Some? {
        keyword := Some(cedict[ch].defs[f.value]);
        source := Some(FromCedict);
      }
    }
    if keyword.None? && ch in unihan {
      var f := FindFree(unihan[ch], used, Normalize);
      if f.Some? {
        keyword := Some(unihan[ch][f.value]);
        source := Some(FromUnihan);
      }
    }
    if keyword.None? {
      var base: Option<string> := None;
      if ch in cedict && cedict[ch].defs != [] {
        base := Some(cedict[ch].defs[0]);
        reading := cedict[ch].pinyin;
      } else if ch in unihan && unihan[ch] != [] {
        base := Some(unihan[ch][0]);
      }
      if Truthy(base) {
        var cands := Numbered(base.value);
        var f := FindFree(cands, used, Normalize);
        if f.Some? {
          keyword := Some(cands[f.value]);
          source := Some(if ch in cedict then CedictNumbered else UnihanNumbered);
        }
      }
    }
  }

  /** An entry of `chars_to_process`. */
  datatype Pending = Pending(ch: string, ids: string, detail: string, tags: string)

  /** An entry with `keyword`, `reading` and `source` added. */
  datatype Assigned = Assigned(entry: Pending, keyword: string, reading: string, source: string)

  /** `results`, `failed` and the used set after some entries. */
  datatype Outcome = Outcome(results: seq<Assigned>, failed: seq<string>, used: set<string>)

  /** `generate_keywords` over a list of entries. */
  function Generate(cedict: map<string, Headword>, unihan: map<string, seq<string>>, existing: set<string>, entries: seq<Pending>): (r: Outcome)
    ensures |r.results| + |r.failed| == |entries|
  {
    if entries == [] then Outcome([], [], existing)
    else Advance(cedict, unihan, Generate(cedict, unihan, existing, entries[..|entries| - 1]), entries[|entries| - 1])
  }

  /** One entry of the loop: choose a keyword against the used set and
      record the entry as assigned or failed. */
  function Advance(cedict: map<string, Headword>, unihan: map<string, seq<string>>, o: Outcome, e: Pending): (r: Outcome)
    ensures |r.results| + |r.failed| == |o.results| + |o.failed| + 1
  {
    var c := Choose(cedict, unihan, o.used, e.ch);
    var used := if c.keyword.Some? then o.used + {Normalize(c.keyword.value)} else o.used;
    if Truthy(c.keyword) then
      Outcome(o.results + [Assigned(e, c.keyword.value, c.reading, OriginName(c.source.value))], o.failed, used)
    else Outcome(o.results, o.failed + [e.ch], used)
  }

  /** The entry loop of `generate_keywords`. */
  method GenerateKeywords(cedict: map<string, Headword>, unihan: map<string, seq<string>>, existing: set<string>, entries: seq<Pending>)
    returns (results: seq<Assigned>, failed: seq<string>)
    ensures results == Generate(cedict, unihan, existing, entries).results
    ensures failed == Generate(cedict, unihan, existing, entries).failed
  {
    var used := existing;
    results := [];
    failed := [];
    for i := 0 to |entries|
      invariant Outcome(results, failed, used) == Generate(cedict, unihan, existing, entries[..i])
    {
      assert Generate(cedict, unihan, existing, entries[..i + 1]) == Advance(cedict, unihan, Outcome(results, failed, used), entries[i]) by {
        assert entries[..i + 1][..i] == entries[..i];
      }
      var entry := entries[i];
      var keyword, reading, source := ChooseKeyword(cedict, unihan, used, entry.ch);
      if keyword.Some? {
        used := used + {Normalize(keyword.value)};
      }
      if Truthy(keyword) {
        results := results + [Assigned(entry, keyword.value, reading, OriginName(source.value))];
      } else {
        failed := failed + [entry.ch];
      }
    }
    assert entries[..|entries|] == entries;
  }

  /** One entry only adds to the used set, and the result it may append
      has a keyword whose normalised form is new. */
  lemma GenerateGrows(cedict: map<string, Headword>, unihan: map<string, seq<string>>, existing: set<string>, entries: seq<Pending>)
    requires entries != []
    ensures var o := Generate(cedict, unihan, existing, entries[..|entries| - 1]);
      var n := Generate(cedict, unihan, existing, entries);
      o.used <= n.used
      && (n.results == o.results
          || (|n.results| == |o.results| + 1 && n.results == o.results + [n.results[|o.results|]]
              && Normalize(n.results[|o.results|].keyword) in n.used
              && Normalize(n.results[|o.results|].keyword) !in o.used))
  {
    var o := Generate(cedict, unihan, existing, entries[..|entries| - 1]);
    var c := Choose(cedict, unihan, o.used, entries[|entries| - 1].ch);
    if Truthy(c.keyword) {
      assert Normalize(c.keyword.value) !in o.used;
    }
  }

  /** The keywords of an outcome are pairwise distinct after normalisation,
      each is in the used set and none was in `existing`, which the used
      set contains. */
  predicate UniqueKeywords(existing: set<string>, o: Outcome) {
    existing <= o.used
    && (forall i :: 0 <= i < |o.results| ==> Normalize(o.results[i].keyword) in o.used && Normalize(o.results[i].keyword) !in existing)
    && forall i, j :: 0 <= i < j < |o.results| ==> Normalize(o.results[i].keyword) != Normalize(o.results[j].keyword)
  }

  /** A step that only grows the used set and appends results with new
      keywords keeps them unique. */
  lemma UniqueKeywordsStep(existing: set<string>, o: Outcome, n: Outcome)
    requires UniqueKeywords(existing, o) && o.used <= n.used
    requires n.results == o.results
      || (|n.results| == |o.results| + 1 && n.results == o.results + [n.results[|o.results|]]
          && Normalize(n.results[|o.results|].keyword) in n.used
          && Normalize(n.results[|o.results|].keyword) !in o.used)
    ensures UniqueKeywords(existing, n)
  {
    if n.results != o.results {
      var k := |o.results|;
      assert forall i :: 0 <= i < k ==> n.results[i] == o.results[i];
    }
  }

  /** The assigned keywords are pairwise distinct after normalisation, none
      was already in use, and all are in the final used set. */
  lemma {:induction false} GenerateUnique(cedict: map<string, Headword>, unihan: map<string, seq<string>>, existing: set<string>, entries: seq<Pending>)
    ensures UniqueKeywords(existing, Generate(cedict, unihan, existing, entries))
  {
    if entries != [] {
      var o := Generate(cedict, unihan, existing, entries[..|entries| - 1]);
      var n := Generate(cedict, unihan, existing, entries);
      GenerateUnique(cedict, unihan, existing, entries[..|entries| - 1]);
      GenerateGrows(cedict, unihan, existing, entries);
      UniqueKeywordsStep(existing, o, n);
    }
  }

  /** The characters of some entries. */
  function EntryChars(es: seq<Pending>): (r: seq<string>)
    ensures |r| == |es| && forall i :: 0 <= i < |es| ==> r[i] == es[i].ch
  {
    seq(|es|, i requires 0 <= i < |es| => es[i].ch)
  }

  /** The characters of some results. */
  function ResultChars(rs: seq<Assigned>): (r: seq<string>)
    ensures |r| == |rs| && forall i :: 0 <= i < |rs| ==> r[i] == rs[i].entry.ch
  {
    seq(|rs|, i requires 0 <= i < |rs| => rs[i].entry.ch)
  }

  /** The entries of some results, in order. */
  function ResultEntries(rs: seq<Assigned>): (r: seq<Pending>)
    ensures |r| == |rs| && forall i :: 0 <= i < |rs| ==> r[i] == rs[i].entry
  {
    seq(|rs|, i requires 0 <= i < |rs| => rs[i].entry)
  }

  /** The entries `es[i]` with `lands[i]`, in order. */
  function Landed(es: seq<Pending>, lands: seq<bool>): (r: seq<Pending>)
    requires |lands| == |es|
    ensures |r| <= |es|
  {
    if es == [] then []
    else Landed(es[..|es| - 1], lands[..|lands| - 1]) + (if lands[|lands| - 1] then [es[|es| - 1]] else [])
  }

  /** Only entries land. */
  lemma {:induction false} LandedMembers(es: seq<Pending>, lands: seq<bool>, x: Pending)
    requires |lands| == |es| && x in Landed(es, lands)
    ensures x in es
  {
    var init := es[..|es| - 1];
    if x in Landed(init, lands[..|lands| - 1]) {
      LandedMembers(init, lands[..|lands| - 1], x);
      assert x in init;
    }
  }

  /** The characters of the entries `es[i]` without `lands[i]`, in order. */
  function Missed(es: seq<Pending>, lands: seq<bool>): (r: seq<string>)
    requires |lands| == |es|
    ensures |r| <= |es|
  {
    if es == [] then []
    else Missed(es[..|es| - 1], lands[..|lands| - 1]) + (if lands[|lands| - 1] then [] else [es[|es| - 1].ch])
  }

  /** Every entry lands exactly once, in `results` or in `failed`: for each
      entry a flag says which, the results carry the flagged entries in
      input order, and `failed` holds the characters of the others in input
      order. */
  ghost predicate Partitioned(entries: seq<Pending>, o: Outcome) {
    exists lands: seq<bool> :: |lands| == |entries|
      && ResultEntries(o.results) == Landed(entries, lands)
      && o.failed == Missed(entries, lands)
  }

  /** Landed and missed entries together are the entries, counted by
      character with multiplicity. */
  lemma {:induction false} LandedMissedChars(es: seq<Pending>, lands: seq<bool>)
    requires |lands| == |es|
    ensures multiset(EntryChars(Landed(es, lands))) + multiset(Missed(es, lands)) == multiset(EntryChars(es))
  {
    if es != [] {
      var init, ls := es[..|es| - 1], lands[..|lands| - 1];
      var e := es[|es| - 1];
      var l, m, c := EntryChars(Landed(init, ls)), Missed(init, ls), EntryChars(init);
      assert multiset(l) + multiset(m) == multiset(c) by { LandedMissedChars(init, ls); }
      assert EntryChars(es) == c + [e.ch] by { assert es == init + [e]; EntryCharsSnoc(init, e); }
      MultisetSnoc(l, m, c, e.ch);
      if lands[|lands| - 1] {
        assert EntryChars(Landed(es, lands)) == l + [e.ch] && Missed(es, lands) == m by { LandedMissedSnoc(es, lands); }
      } else {
        assert EntryChars(Landed(es, lands)) == l && Missed(es, lands) == m + [e.ch] by { LandedMissedSnoc(es, lands); }
      }
    }
  }

  /** Every entry lands or is missed. */
  lemma {:induction false} LandedMissedLength(es: seq<Pending>, lands: seq<bool>)
    requires |lands| == |es|
    ensures |Landed(es, lands)| + |Missed(es, lands)| == |es|
  {
    if es != [] {
      LandedMissedLength(es[..|es| - 1], lands[..|lands| - 1]);
    }
  }

  /** One more element on either side of a multiset sum. */
  lemma MultisetSnoc<T>(x: seq<T>, y: seq<T>, z: seq<T>, t: T)
    requires multiset(x) + multiset(y) == multiset(z)
    ensures multiset(x + [t]) + multiset(y) == multiset(z + [t])
    ensures multiset(x) + multiset(y + [t]) == multiset(z + [t])
  {
  }

  /** One more entry adds one character to the landed or to the missed
      characters. */
  lemma LandedMissedSnoc(es: seq<Pending>, lands: seq<bool>)
    requires |lands| == |es| && es != []
    ensures var init, ls, e := es[..|es| - 1], lands[..|lands| - 1], es[|es| - 1];
      if lands[|lands| - 1] then
        EntryChars(Landed(es, lands)) == EntryChars(Landed(init, ls)) + [e.ch] && Missed(es, lands) == Missed(init, ls)
      else
        Landed(es, lands) == Landed(init, ls) && Missed(es, lands) == Missed(init, ls) + [e.ch]
  {
    if lands[|lands| - 1] {
      EntryCharsSnoc(Landed(es[..|es| - 1], lands[..|lands| - 1]), es[|es| - 1]);
    }
  }

  /** The characters of one more entry. */
  lemma EntryCharsSnoc(es: seq<Pending>, e: Pending)
    ensures EntryChars(es + [e]) == EntryChars(es) + [e.ch]
  {
  }

  /** In a partition the results and failures add up to the entries, also
      counted by character with multiplicity, and every result carries one
      of the entries. */
  lemma PartitionedChars(entries: seq<Pending>, o: Outcome)
    requires Partitioned(entries, o)
    ensures |o.results| + |o.failed| == |entries|
    ensures multiset(ResultChars(o.results)) + multiset(o.failed) == multiset(EntryChars(entries))
    ensures forall i :: 0 <= i < |o.results| ==> o.results[i].entry in entries
  {
    var lands: seq<bool> :| |lands| == |entries|
      && ResultEntries(o.results) == Landed(entries, lands)
      && o.failed == Missed(entries, lands);
    LandedMissedChars(entries, lands);
    LandedMissedLength(entries, lands);
    assert ResultChars(o.results) == EntryChars(ResultEntries(o.results));
    forall i | 0 <= i < |o.results|
      ensures o.results[i].entry in entries
    {
      assert ResultEntries(o.results)[i] == o.results[i].entry;
      LandedMembers(entries, lands, o.results[i].entry);
    }
  }

  /** The last entry is either appended to the results or its character to
      `failed`, and nothing else changes. */
  lemma GenerateLands(cedict: map<string, Headword>, unihan: map<string, seq<string>>, existing: set<string>, entries: seq<Pending>)
    requires entries != []
    ensures var o := Generate(cedict, unihan, existing, entries[..|entries| - 1]);
      var n := Generate(cedict, unihan, existing, entries);
      var e := entries[|entries| - 1];
      (n.failed == o.failed && |n.results| == |o.results| + 1
       && n.results == o.results + [n.results[|o.results|]] && n.results[|o.results|].entry == e)
      || (n.results == o.results && n.failed == o.failed + [e.ch])
  {
  }

  /** A step that appends the last entry to the results, or its character
      to `failed`, and changes nothing else keeps the partition. */
  lemma PartitionedStep(entries: seq<Pending>, o: Outcome, n: Outcome)
    requires entries != [] && Partitioned(entries[..|entries| - 1], o)
    requires (n.failed == o.failed && |n.results| == |o.results| + 1
       && n.results == o.results + [n.results[|o.results|]] && n.results[|o.results|].entry == entries[|entries| - 1])
      || (n.results == o.results && n.failed == o.failed + [entries[|entries| - 1].ch])
    ensures Partitioned(entries, n)
  {
    var init := entries[..|entries| - 1];
    var e := entries[|entries| - 1];
    var lands: seq<bool> :| |lands| == |init|
      && ResultEntries(o.results) == Landed(init, lands)
      && o.failed == Missed(init, lands);
    var b := n.results != o.results;
    var all := lands + [b];
    assert all[..|all| - 1] == lands;
    if b {
      assert ResultEntries(n.results) == ResultEntries(o.results) + [e];
    }
    assert ResultEntries(n.results) == Landed(entries, all);
    assert n.failed == Missed(entries, all);
  }

  lemma {:induction false} GeneratePartition(cedict: map<string, Headword>, unihan: map<string, seq<string>>, existing: set<string>, entries: seq<Pending>)
    ensures Partitioned(entries, Generate(cedict, unihan, existing, entries))
  {
    if entries == [] {
      var none: seq<bool> := [];
      assert ResultEntries([]) == Landed(entries, none);
    } else {
      var init := entries[..|entries| - 1];
      GeneratePartition(cedict, unihan, existing, init);
      GenerateLands(cedict, unihan, existing, entries);
      PartitionedStep(entries, Generate(cedict, unihan, existing, init), Generate(cedict, unihan, existing, entries));
    }
  }

  /** An entry fails exactly when no candidate is free, or when the first
      free one is the empty string; otherwise it is appended to the results
      with that candidate as its keyword. */
  lemma GenerateStep(cedict: map<string, Headword>, unihan: map<string, seq<string>>, existing: set<string>, entries: seq<Pending>)
    requires entries != []
    ensures var o := Generate(cedict, unihan, existing, entries[..|entries| - 1]);
      var e := entries[|entries| - 1];
      var cs := Candidates(cedict, unihan, e.ch);
      var f := FirstFree(Keys(cs, Normalize), o.used);
      var n := Generate(cedict, unihan, existing, entries);
      if f.Some? && cs[f.value] != "" then
        n.failed == o.failed && |n.results| == |o.results| + 1
        && n.results[|o.results|].entry == e && n.results[|o.results|].keyword == cs[f.value]
      else n.failed == o.failed + [e.ch] && n.results == o.results
  {
    var o := Generate(cedict, unihan, existing, entries[..|entries| - 1]);
    ChooseFirstFree(cedict, unihan, o.used, entries[|entries| - 1].ch);
  }

  // ---------------------------------------------------------------------
  // get_component_detail
  // ---------------------------------------------------------------------

  /** `c` of the IDS string gets a part: a known character other than the
      one described, with a non-empty keyword. */
  predicate Describes(keywords: map<string, string>, ch: string, c: char) {
    [c] in keywords && [c] != ch && keywords[[c]] != ""
  }

  /** The characters of `ids` that get a part, repeats kept. */
  function DescribedChars(keywords: map<string, string>, ch: string, ids: string): (r: string)
    ensures forall i :: 0 <= i < |r| ==> Describes(keywords, ch, r[i])
  {
    if ids == [] then []
    else
      var c := ids[|ids| - 1];
      DescribedChars(keywords, ch, ids[..|ids| - 1]) + (if Describes(keywords, ch, c) then [c] else [])
  }

  /** The characters that get a part, once each, in first-occurrence order. */
  function DetailChars(keywords: map<string, string>, ch: string, ids: string): (r: string)
    ensures forall i :: 0 <= i < |r| ==> Describes(keywords, ch, r[i])
  {
    var d := DescribedChars(keywords, ch, ids);
    forall c | c in Dedup(d) ensures Describes(keywords, ch, c) { DedupMembers(d, c); }
    Dedup(d)
  }

  /** The parts `f"{c} = {kw}"`. */
  function DetailParts(keywords: map<string, string>, cs: string): (r: seq<string>)
    requires forall i :: 0 <= i < |cs| ==> [cs[i]] in keywords
    ensures |r| == |cs|
  {
    seq(|cs|, i requires 0 <= i < |cs| => [cs[i]] + " = " + keywords[[cs[i]]])
  }

  /** `get_component_detail`. */
  function ComponentDetail(keywords: map<string, string>, ch: string, ids: string): (r: string)
    ensures r == "" <==> DetailChars(keywords, ch, ids) == []
  {
    var parts := DetailParts(keywords, DetailChars(keywords, ch, ids));
    assert parts != [] ==> |Join(parts, ", ")| >= |parts[0]| > 0;
    Join(parts, ", ")
  }

  /** The characters given parts: each occurs in the IDS string and is
      described, every such character is given one, and none twice. */
  lemma DetailCharsSpec(keywords: map<string, string>, ch: string, ids: string, c: char)
    ensures c in DetailChars(keywords, ch, ids) <==> c in ids && Describes(keywords, ch, c)
    ensures Distinct(DetailChars(keywords, ch, ids))
  {
    DedupMembers(DescribedChars(keywords, ch, ids), c);
    DescribedCharsMembers(keywords, ch, ids, c);
    DedupDistinct(DescribedChars(keywords, ch, ids));
  }

  lemma {:induction false} DescribedCharsMembers(keywords: map<string, string>, ch: string, ids: string, c: char)
    ensures c in DescribedChars(keywords, ch, ids) <==> c in ids && Describes(keywords, ch, c)
  {
    if ids != [] {
      var init := ids[..|ids| - 1];
      DescribedCharsMembers(keywords, ch, init, c);
      assert ids == init + [ids[|ids| - 1]];
    }
  }

  /** Each part names its character and that character's keyword. */
  lemma DetailPartsSpec(keywords: map<string, string>, ch: string, ids: string, k: nat)
    requires k < |DetailChars(keywords, ch, ids)|
    ensures var c := DetailChars(keywords, ch, ids)[k];
      DetailParts(keywords, DetailChars(keywords, ch, ids))[k] == [c] + " = " + keywords[[c]]
  {
  }

  lemma DescribedCharsSnoc(keywords: map<string, string>, ch: string, ids: string, i: nat)
    requires i < |ids|
    ensures DescribedChars(keywords, ch, ids[..i + 1]) ==
      DescribedChars(keywords, ch, ids[..i]) + (if Describes(keywords, ch, ids[i]) then [ids[i]] else [])
  {
    assert ids[..i + 1][..i] == ids[..i];
  }

  /** The characters given parts after one more IDS character. */
  lemma DetailCharsSnoc(keywords: map<string, string>, ch: string, ids: string, i: nat)
    requires i < |ids|
    ensures var cs := DetailChars(keywords, ch, ids[..i]);
      DetailChars(keywords, ch, ids[..i + 1]) ==
        if Describes(keywords, ch, ids[i]) && ids[i] !in cs then cs + [ids[i]] else cs
  {
    var d := DescribedChars(keywords, ch, ids[..i]);
    var c := ids[i];
    DescribedCharsSnoc(keywords, ch, ids, i);
    DedupMembers(d, c);
    if Describes(keywords, ch, c) {
      DedupSnoc(d, c);
    } else {
      assert d + [] == d;
    }
  }

  /** One more part. */
  lemma DetailPartsSnoc(keywords: map<string, string>, cs: string, c: char)
    requires forall i :: 0 <= i < |cs| ==> [cs[i]] in keywords
    requires [c] in keywords
    ensures DetailParts(keywords, cs + [c]) == DetailParts(keywords, cs) + [[c] + " = " + keywords[[c]]]
  {
    var l := cs + [c];
    assert forall i :: 0 <= i < |cs| ==> l[i] == cs[i];
  }

  /** The loop of `get_component_detail`, with its `seen` set. */
  method GetComponentDetail(keywords: map<string, string>, ch: string, ids: string) returns (s: string)
    ensures s == ComponentDetail(keywords, ch, ids)
  {
    if ids == [] {
      return "";
    }
    var components: seq<string> := [];
    var seen: set<char> := {};
    for i := 0 to |ids|
      invariant components == DetailParts(keywords, DetailChars(keywords, ch, ids[..i]))
      invariant forall c :: c in seen <==> c in DetailChars(keywords, ch, ids[..i])
    {
      var c := ids[i];
      ghost var cs := DetailChars(keywords, ch, ids[..i]);
      DetailCharsSnoc(keywords, ch, ids, i);
      if c !in seen {
        if [c] in keywords && [c] != ch {
          var kw := keywords[[c]];
          if kw != "" {
            DetailPartsSnoc(keywords, cs, c);
            components := components + [[c] + " = " + kw];
            seen := seen + {c};
          }
        }
      }
    }
    assert ids[..|ids|] == ids;
    s := Join(components, ", ");
  }
}
