/**
 * The field computations of scripts/build_apkg.py: primitives whose
 * character is spelled with 囧 (they have no code point of their own) are
 * shown as an image from the manifest, in the character field and in the
 * components string; the book numbers, the sort field and the tags of a
 * note are derived from the card's text fields.
 *
 * A card is the dictionary a CSV row is read as. The note is its nine field
 * strings and its tag list.
 */
module Apkg {
  import opened Util
  import Addon

  type Card = map<string, string>

  /** The exception Python raises in these computations. */
  datatype PyError = ValueError

  /** `card.get(key, default)`. */
  function GetOr(card: Card, key: string, default: string): string {
    if key in card then card[key] else default
  }

  // ---------------------------------------------------------------------
  // Images of 囧 primitives
  // ---------------------------------------------------------------------

  /** A manifest entry: the image file and whether the drawing is only
      approximate. */
  datatype ManifestEntry = ManifestEntry(file: string, approximate: bool)

  /** Primitive keyword to its image. */
  type Manifest = map<string, ManifestEntry>

  /** The tag without the approximation mark. */
  function ImgSrc(file: string): string {
    "<img src=\"" + file + "\">"
  }

  /** `prim_img_tag(keyword)`. */
  function PrimImgTag(manifest: Manifest, keyword: string): (r: Option<string>)
    ensures r.Some? <==> keyword in manifest
    ensures r.Some? ==> StartsWith(r.value, ImgSrc(manifest[keyword].file))
    ensures r.Some? ==> (EndsWith(r.value, " ≈") <==> manifest[keyword].approximate)
  {
    if keyword in manifest then
      var e := manifest[keyword];
      var t := ImgSrc(e.file) + (if e.approximate then " ≈" else "");
      assert t[..|ImgSrc(e.file)|] == ImgSrc(e.file);
      assert t[|t| - 1] == if e.approximate then '≈' else '>';
      Some(t)
    else None
  }

  /** The primitives' (character, keyword) pairs, in file order. */
  type Primitives = seq<(string, string)>

  /** `jiong_char_to_keyword`: the module-level loop keeping the primitives
      whose character contains 囧, a later one overriding an earlier one. */
  function JiongMap(prims: Primitives): map<string, string> {
    if prims == [] then map[]
    else
      var m := JiongMap(prims[..|prims| - 1]);
      var p := prims[|prims| - 1];
      if '囧' in p.0 then m[p.0 := p.1] else m
  }

  /** A character is mapped exactly when it contains 囧 and is some
      primitive's character. */
  lemma {:induction false} JiongMapKeys(prims: Primitives, ch: string)
    ensures ch in JiongMap(prims) <==> '囧' in ch && exists i :: 0 <= i < |prims| && prims[i].0 == ch
  {
    if prims != [] {
      var init := prims[..|prims| - 1];
      JiongMapKeys(init, ch);
      if exists i :: 0 <= i < |prims| && prims[i].0 == ch {
        var i :| 0 <= i < |prims| && prims[i].0 == ch;
        if i < |init| { assert init[i] == prims[i]; }
      }
      if exists i :: 0 <= i < |init| && init[i].0 == ch {
        var i :| 0 <= i < |init| && init[i].0 == ch;
        assert prims[i] == init[i];
      }
    }
  }

  /** The keyword of a mapped character is that of its last primitive. */
  lemma {:induction false} JiongMapLast(prims: Primitives, i: nat)
    requires i < |prims| && '囧' in prims[i].0
    requires forall j :: i < j < |prims| ==> prims[j].0 != prims[i].0
    ensures prims[i].0 in JiongMap(prims) && JiongMap(prims)[prims[i].0] == prims[i].1
  {
    if i < |prims| - 1 {
      var init := prims[..|prims| - 1];
      assert init[i] == prims[i];
      forall j | i < j < |init| ensures init[j].0 != init[i].0 {
        assert init[j] == prims[j];
      }
      JiongMapLast(init, i);
    }
  }

  /** The image for a 囧 character, when it has a primitive keyword and the
      keyword has an image. */
  function JiongImage(jiong: map<string, string>, manifest: Manifest, ch: string): (r: Option<string>)
    ensures r.Some? <==> '囧' in ch && ch in jiong && jiong[ch] != "" && jiong[ch] in manifest
    ensures r.Some? ==> r == PrimImgTag(manifest, jiong[ch]) && r.value != ""
  {
    if '囧' in ch && ch in jiong && jiong[ch] != "" then
      var tag := PrimImgTag(manifest, jiong[ch]);
      if tag.Some? && tag.value != "" then tag else None
    else None
  }

  /** `char_display(char)`: the image, or the character unchanged. */
  function CharDisplay(jiong: map<string, string>, manifest: Manifest, ch: string): (r: string)
    ensures '囧' !in ch ==> r == ch
    ensures r != ch ==> JiongImage(jiong, manifest, ch).Some? && r == JiongImage(jiong, manifest, ch).value
    ensures JiongImage(jiong, manifest, ch).Some? ==> r == JiongImage(jiong, manifest, ch).value
  {
    match JiongImage(jiong, manifest, ch)
    case Some(tag) => tag
    case None => ch
  }

  // ---------------------------------------------------------------------
  // enrich_components_detail
  // ---------------------------------------------------------------------

  /** One part of the loop. A part holding "=" is unpacked around its first
      " = ", which raises when "=" is there but " = " is not; a part whose
      stripped component has an image becomes "image = rest". */
  function EnrichPart(jiong: map<string, string>, manifest: Manifest, part: string): (r: Result<string, PyError>)
    ensures r.Err? <==> '=' in part && !Contains(part, " = ")
    ensures r.Ok? && r.value != part ==>
      var sp := SplitOnce(part, " = ");
      |sp| == 2 && JiongImage(jiong, manifest, Strip(sp[0])).Some?
      && r.value == JiongImage(jiong, manifest, Strip(sp[0])).value + " = " + sp[1]
    ensures Contains(part, " = ") && JiongImage(jiong, manifest, Strip(SplitOnce(part, " = ")[0])).Some? ==>
      r == Ok(JiongImage(jiong, manifest, Strip(SplitOnce(part, " = ")[0])).value + " = " + SplitOnce(part, " = ")[1])
  {
    if '=' in part then
      var sp := SplitOnce(part, " = ");
      if |sp| != 2 then Err(ValueError)
      else
        match JiongImage(jiong, manifest, Strip(sp[0]))
        case Some(tag) => Ok(tag + " = " + sp[1])
        case None => Ok(part)
    else
      assert !Contains(part, " = ") by {
        if Contains(part, " = ") { ContainsMember(part, " = ", 1); }
      }
      Ok(part)
  }

  /** Whatever a substring holds, the string holds. */
  lemma ContainsMember(s: string, t: string, i: nat)
    requires i < |t| && Contains(s, t)
    ensures t[i] in s
  {
    var j := Find(s, t).value;
    assert s[j + i] == s[j..j + |t|][i];
  }

  /** The enriched parts, or the error of the first part that raises. */
  function EnrichParts(jiong: map<string, string>, manifest: Manifest, parts: seq<string>): (r: Result<seq<string>, PyError>)
    ensures r.Err? <==> exists k :: 0 <= k < |parts| && EnrichPart(jiong, manifest, parts[k]).Err?
    ensures r.Ok? ==>
      |r.value| == |parts| && forall k :: 0 <= k < |parts| ==> EnrichPart(jiong, manifest, parts[k]) == Ok(r.value[k])
  {
    if parts == [] then Ok([])
    else
      var init := EnrichParts(jiong, manifest, parts[..|parts| - 1]);
      var last := EnrichPart(jiong, manifest, parts[|parts| - 1]);
      assert forall k :: 0 <= k < |parts| - 1 ==> parts[..|parts| - 1][k] == parts[k];
      if init.Err? then init
      else if last.Err? then Err(last.error)
      else Ok(init.value + [last.value])
  }

  /** What `enrich_components_detail` returns or raises. */
  function Enriched(jiong: map<string, string>, manifest: Manifest, detail: string): (r: Result<string, PyError>)
    ensures detail == "" ==> r == Ok("")
    ensures r.Err? ==> detail != "" && exists k :: 0 <= k < |Split(detail, ", ")| && EnrichPart(jiong, manifest, Split(detail, ", ")[k]).Err?
    ensures (detail != "" && exists k :: 0 <= k < |Split(detail, ", ")| && EnrichPart(jiong, manifest, Split(detail, ", ")[k]).Err?) ==> r.Err?
  {
    if detail == "" then Ok(detail)
    else
      var ps := EnrichParts(jiong, manifest, Split(detail, ", "));
      if ps.Err? then Err(ps.error) else Ok(Join(ps.value, ", "))
  }

  /** `enrich_components_detail(detail_str)`. */
  method EnrichComponentsDetail(jiong: map<string, string>, manifest: Manifest, detail: string) returns (r: Result<string, PyError>)
    ensures r == Enriched(jiong, manifest, detail)
  {
    if detail == "" {
      return Ok(detail);
    }
    var enriched := EnrichLoop(jiong, manifest, Split(detail, ", "));
    if enriched.Err? {
      return Err(enriched.error);
    }
    r := Ok(Join(enriched.value, ", "));
  }

  /** The loop of `enrich_components_detail`, appending one part at a time
      and leaving it at the first part that raises. */
  method EnrichLoop(jiong: map<string, string>, manifest: Manifest, parts: seq<string>) returns (r: Result<seq<string>, PyError>)
    ensures r == EnrichParts(jiong, manifest, parts)
  {
    var enriched: seq<string> := [];
    var i := 0;
    while i < |parts|
      invariant 0 <= i <= |parts|
      invariant EnrichParts(jiong, manifest, parts[..i]) == Ok(enriched)
    {
      var e := EnrichPart(jiong, manifest, parts[i]);
      if e.Err? {
        assert EnrichParts(jiong, manifest, parts).Err? by {
          assert EnrichPart(jiong, manifest, parts[i]).Err?;
        }
        assert EnrichParts(jiong, manifest, parts).error == ValueError;
        return Err(ValueError);
      }
      assert EnrichParts(jiong, manifest, parts[..i + 1]) == Ok(enriched + [e.value]) by {
        EnrichPartsSnoc(jiong, manifest, parts[..i], parts[i]);
        assert parts[..i + 1] == parts[..i] + [parts[i]];
      }
      enriched := enriched + [e.value];
      i := i + 1;
    }
    assert parts[..i] == parts;
    r := Ok(enriched);
  }

  /** One more part that does not raise. */
  lemma EnrichPartsSnoc(jiong: map<string, string>, manifest: Manifest, parts: seq<string>, part: string)
    requires EnrichParts(jiong, manifest, parts).Ok? && EnrichPart(jiong, manifest, part).Ok?
    ensures EnrichParts(jiong, manifest, parts + [part])
      == Ok(EnrichParts(jiong, manifest, parts).value + [EnrichPart(jiong, manifest, part).value])
  {
    assert (parts + [part])[..|parts|] == parts;
  }

  /** The error condition: the string raises exactly when one of its parts
      holds "=" without " = " around it. */
  lemma EnrichedError(jiong: map<string, string>, manifest: Manifest, detail: string)
    ensures Enriched(jiong, manifest, detail).Err? <==>
      detail != "" && exists k :: 0 <= k < |Split(detail, ", ")| && '=' in Split(detail, ", ")[k] && !Contains(Split(detail, ", ")[k], " = ")
  {
    if detail != "" {
      var parts := Split(detail, ", ");
      if exists k :: 0 <= k < |parts| && '=' in parts[k] && !Contains(parts[k], " = ") {
        var k :| 0 <= k < |parts| && '=' in parts[k] && !Contains(parts[k], " = ");
        assert EnrichPart(jiong, manifest, parts[k]).Err?;
      }
    }
  }

  /** A string none of whose components has an image comes back unchanged
      (when it does not raise). */
  lemma EnrichedIdentity(jiong: map<string, string>, manifest: Manifest, detail: string)
    requires forall k :: 0 <= k < |Split(detail, ", ")| ==>
      !Contains(Split(detail, ", ")[k], " = ") || JiongImage(jiong, manifest, Strip(SplitOnce(Split(detail, ", ")[k], " = ")[0])).None?
    requires Enriched(jiong, manifest, detail).Ok?
    ensures Enriched(jiong, manifest, detail) == Ok(detail)
  {
    if detail != "" {
      var parts := Split(detail, ", ");
      var ps := EnrichParts(jiong, manifest, parts).value;
      forall k | 0 <= k < |parts| ensures ps[k] == parts[k] {
        assert EnrichPart(jiong, manifest, parts[k]) == Ok(ps[k]);
      }
      assert ps == parts;
    }
  }

  /** A piece whose stripped component has an image comes out as that
      image, " = " and the rest of the piece, in its place among the
      ", "-joined parts. */
  lemma EnrichedImage(jiong: map<string, string>, manifest: Manifest, detail: string, k: nat)
    requires detail != "" && k < |Split(detail, ", ")|
    requires Enriched(jiong, manifest, detail).Ok?
    requires Contains(Split(detail, ", ")[k], " = ")
    requires JiongImage(jiong, manifest, Strip(SplitOnce(Split(detail, ", ")[k], " = ")[0])).Some?
    ensures var parts := Split(detail, ", ");
      var ps := EnrichParts(jiong, manifest, parts);
      ps.Ok? && Enriched(jiong, manifest, detail) == Ok(Join(ps.value, ", ")) && |ps.value| == |parts|
      && ps.value[k] == JiongImage(jiong, manifest, Strip(SplitOnce(parts[k], " = ")[0])).value + " = " + SplitOnce(parts[k], " = ")[1]
  {
    var parts := Split(detail, ", ");
    assert EnrichPart(jiong, manifest, parts[k]) == Ok(EnrichParts(jiong, manifest, parts).value[k]);
  }

  // ---------------------------------------------------------------------
  // build_note: numbers, sort field, tags
  // ---------------------------------------------------------------------

  /** The books in the order the numbers field lists them. */
  const NumberBooks: seq<(string, string)> := [("RTH_number", "RTH"), ("RSH_number", "RSH"), ("RTK_number", "RTK")]

  /** The books in the order the sort field prefers them. */
  const SortBooks: seq<string> := ["RSH", "RTH", "RTK"]

  /** The numbers field of a card. */
  function NumbersField(card: Card): string {
    Join(Addon.BookNumbers(card, NumberBooks), " · ")
  }

  /** The loop building the numbers field. */
  method Numbers(card: Card) returns (s: string)
    ensures s == NumbersField(card)
  {
    var nums: seq<string> := [];
    var i := 0;
    while i < |NumberBooks|
      invariant 0 <= i <= |NumberBooks|
      invariant nums == Addon.BookNumbers(card, NumberBooks[..i])
    {
      var book := NumberBooks[i];
      assert NumberBooks[..i + 1][..i] == NumberBooks[..i];
      var n := Addon.Get(card, book.0);
      if n != "" {
        nums := nums + [Addon.NumberText(book.1, n)];
      }
      assert nums == Addon.BookNumbers(card, NumberBooks[..i]) + Addon.BookItem(card, book);
      i := i + 1;
    }
    assert NumberBooks[..i] == NumberBooks;
    s := Join(nums, " · ");
  }

  /** The numbers list the present books in the order RTH, RSH, RTK. */
  lemma NumbersOrder(card: Card)
    ensures Addon.BookNumbers(card, NumberBooks) ==
      Addon.BookItem(card, ("RTH_number", "RTH")) + Addon.BookItem(card, ("RSH_number", "RSH"))
      + Addon.BookItem(card, ("RTK_number", "RTK"))
  {
    Addon.BookNumbersOfThree(card, ("RTH_number", "RTH"), ("RSH_number", "RSH"), ("RTK_number", "RTK"));
  }

  /** The index of the first book in `SortBooks[i..]` whose number is not
      empty. */
  function FirstNumbered(card: Card, i: nat): (r: Option<nat>)
    requires i <= |SortBooks|
    ensures r.Some? ==>
      i <= r.value < |SortBooks| && Addon.Get(card, SortBooks[r.value] + "_number") != "" && forall j :: i <= j < r.value ==> Addon.Get(card, SortBooks[j] + "_number") == ""
    ensures r.None? ==> forall j :: i <= j < |SortBooks| ==> Addon.Get(card, SortBooks[j] + "_number") == ""
    decreases |SortBooks| - i
  {
    if i == |SortBooks| then None
    else if Addon.Get(card, SortBooks[i] + "_number") != "" then Some(i)
    else FirstNumbered(card, i + 1)
  }

  /** The sort field, or the ValueError that `int()` raises. */
  function SortKey(card: Card): (r: Result<string, PyError>)
    ensures r.Err? ==>
      exists b :: 0 <= b < |SortBooks| && Addon.Get(card, SortBooks[b] + "_number") != ""
        && PyInt(Addon.Get(card, SortBooks[b] + "_number")).None?
    ensures FirstNumbered(card, 0).None? ==> r.Ok? && StartsWith(r.value, "ZZZ_")
  {
    match FirstNumbered(card, 0)
    case Some(k) =>
      var book := SortBooks[k];
      var n := PyInt(Addon.Get(card, book + "_number"));
      if n.None? then Err(ValueError) else Ok(book + "_" + ZeroPad5(n.value))
    case None => Ok("ZZZ_" + GetOr(card, "keyword", GetOr(card, "character", "")))
  }

  /** The loop with `break` computing the sort field. */
  method SortField(card: Card) returns (r: Result<string, PyError>)
    ensures r == SortKey(card)
  {
    var sortVal := "";
    var i := 0;
    while i < |SortBooks|
      invariant 0 <= i <= |SortBooks|
      invariant sortVal == "" && FirstNumbered(card, 0) == FirstNumbered(card, i)
    {
      var book := SortBooks[i];
      var n := Addon.Get(card, book + "_number");
      if n != "" {
        match PyInt(n)
        case None => return Err(ValueError);
        case Some(v) => sortVal := book + "_" + ZeroPad5(v);
        break;
      }
      i := i + 1;
    }
    if sortVal == "" {
      sortVal := "ZZZ_" + GetOr(card, "keyword", GetOr(card, "character", ""));
    }
    r := Ok(sortVal);
  }

  /** The note a card becomes: its nine fields and its tags. */
  datatype Note = Note(fields: seq<string>, tags: seq<string>)

  /** What `build_note` builds, or the ValueError it raises. */
  function NoteOf(jiong: map<string, string>, manifest: Manifest, card: Card): (r: Result<Note, PyError>)
    ensures r.Err? <==> Enriched(jiong, manifest, GetOr(card, "components_detail", "")).Err? || SortKey(card).Err?
    ensures r.Ok? ==> |r.value.fields| == 9 && r.value.fields[7] == GetOr(card, "tags", "")
  {
    var ch := GetOr(card, "character", "");
    var enriched := Enriched(jiong, manifest, GetOr(card, "components_detail", ""));
    var sortKey := SortKey(card);
    if enriched.Err? then Err(enriched.error)
    else if sortKey.Err? then Err(sortKey.error)
    else
      var tagsStr := GetOr(card, "tags", "");
      Ok(Note([CharDisplay(jiong, manifest, ch), GetOr(card, "keyword", ""), GetOr(card, "reading", ""),
               GetOr(card, "decomposition", ""), enriched.value, GetOr(card, "spatial", ""),
               NumbersField(card), tagsStr, sortKey.value],
              if tagsStr != "" then Words(tagsStr) else []))
  }

  /** `build_note(card)`. */
  method BuildNote(jiong: map<string, string>, manifest: Manifest, card: Card) returns (r: Result<Note, PyError>)
    ensures r == NoteOf(jiong, manifest, card)
  {
    var ch := GetOr(card, "character", "");
    var characterHtml := CharDisplay(jiong, manifest, ch);
    var numbers := Numbers(card);
    var components := EnrichComponentsDetail(jiong, manifest, GetOr(card, "components_detail", ""));
    if components.Err? {
      return Err(components.error);
    }
    var sortVal := SortField(card);
    if sortVal.Err? {
      return Err(sortVal.error);
    }
    var tagsStr := GetOr(card, "tags", "");
    var fields := [characterHtml, GetOr(card, "keyword", ""), GetOr(card, "reading", ""),
                   GetOr(card, "decomposition", ""), components.value, GetOr(card, "spatial", ""),
                   numbers, tagsStr, sortVal.value];
    r := Ok(Note(fields, if tagsStr != "" then Words(tagsStr) else []));
  }

  /** A note has nine fields; its tags are the words of its tags field and
      lose exactly the whitespace of it. */
  lemma NoteShape(jiong: map<string, string>, manifest: Manifest, card: Card)
    requires NoteOf(jiong, manifest, card).Ok?
    ensures var n := NoteOf(jiong, manifest, card).value;
      |n.fields| == 9
      && n.fields[7] == GetOr(card, "tags", "")
      && (forall i :: 0 <= i < |n.tags| ==> IsWord(n.tags[i]))
      && Concat(n.tags) == NonSpace(n.fields[7])
  {
    var t := GetOr(card, "tags", "");
    WordsKeepNonSpace(t);
  }

  /** A card raises only through its components string or a book number
      `int()` rejects. */
  lemma NoteError(jiong: map<string, string>, manifest: Manifest, card: Card)
    ensures NoteOf(jiong, manifest, card).Err? <==>
      Enriched(jiong, manifest, GetOr(card, "components_detail", "")).Err? || SortKey(card).Err?
  {
  }

  // ---------------------------------------------------------------------
  // The order the sort field gives
  // ---------------------------------------------------------------------

  /** Python's `<` on strings: lexicographic by code point. */
  predicate LexLess(a: string, b: string) {
    exists k :: 0 <= k <= |a| && k <= |b| && a[..k] == b[..k]
      && ((k == |a| && k < |b|) || (k < |a| && k < |b| && a[k] < b[k]))
  }

  /** Two strings with a common prefix compare as their tails do. */
  lemma LexLessPrefix(p: string, a: string, b: string)
    requires LexLess(a, b)
    ensures LexLess(p + a, p + b)
  {
    var k :| 0 <= k <= |a| && k <= |b| && a[..k] == b[..k]
      && ((k == |a| && k < |b|) || (k < |a| && k < |b| && a[k] < b[k]));
    assert (p + a)[..|p| + k] == p + a[..k];
    assert (p + b)[..|p| + k] == p + b[..k];
    if k < |a| && k < |b| {
      assert (p + a)[|p| + k] == a[k] && (p + b)[|p| + k] == b[k];
    }
  }

  /** A first difference decides the order, whatever follows. */
  lemma LexLessAt(a: string, b: string, k: nat)
    requires k < |a| && k < |b| && a[..k] == b[..k] && a[k] < b[k]
    ensures LexLess(a, b)
  {
  }

  /** Equal-length digit strings compare as their values do. */
  lemma {:induction false} DigitsOrder(x: string, y: string)
    requires |x| == |y|
    requires forall i :: 0 <= i < |x| ==> IsDigit(x[i])
    requires forall i :: 0 <= i < |y| ==> IsDigit(y[i])
    requires DigitsValue(x) < DigitsValue(y)
    ensures LexLess(x, y)
  {
    var n := |x|;
    var x0, y0 := x[..n - 1], y[..n - 1];
    var c, d := DigitValue(x[n - 1]), DigitValue(y[n - 1]);
    assert DigitsValue(x) == DigitsValue(x0) * 10 + c;
    assert DigitsValue(y) == DigitsValue(y0) * 10 + d;
    if DigitsValue(x0) < DigitsValue(y0) {
      DigitsOrder(x0, y0);
      var k :| 0 <= k <= |x0| && k <= |y0| && x0[..k] == y0[..k]
        && ((k == |x0| && k < |y0|) || (k < |x0| && k < |y0| && x0[k] < y0[k]));
      assert k < |x0|;
      assert x[..k] == x0[..k] && y[..k] == y0[..k];
      LexLessAt(x, y, k);
    } else if DigitsValue(x0) == DigitsValue(y0) {
      DigitsInjective(x0, y0);
      assert c < d;
      assert x[..n - 1] == y[..n - 1];
      LexLessAt(x, y, n - 1);
    } else {
      assert false;
    }
  }

  /** Equal-length digit strings of equal value are equal. */
  lemma {:induction false} DigitsInjective(x: string, y: string)
    requires |x| == |y|
    requires forall i :: 0 <= i < |x| ==> IsDigit(x[i])
    requires forall i :: 0 <= i < |y| ==> IsDigit(y[i])
    requires DigitsValue(x) == DigitsValue(y)
    ensures x == y
  {
    if x != [] {
      var n := |x|;
      var x0, y0 := x[..n - 1], y[..n - 1];
      var c, d := DigitValue(x[n - 1]), DigitValue(y[n - 1]);
      assert DigitsValue(x0) * 10 + c == DigitsValue(y0) * 10 + d;
      assert DigitsValue(x0) == DigitsValue(y0) && c == d;
      DigitsInjective(x0, y0);
      assert x[n - 1] == y[n - 1];
      assert x == x0 + [x[n - 1]] && y == y0 + [y[n - 1]];
    }
  }

  function Pow10(k: nat): nat {
    if k == 0 then 1 else 10 * Pow10(k - 1)
  }

  /** A number below 10^k takes at most k digits. */
  lemma {:induction false} NatToStringShort(n: nat, k: nat)
    requires 1 <= k && n < Pow10(k)
    ensures |NatToString(n)| <= k
  {
    if n >= 10 {
      assert Pow10(1) == 10;
      assert k >= 2;
      assert n / 10 < Pow10(k - 1);
      NatToStringShort(n / 10, k - 1);
    }
  }

  /** Below 100000 the padded form has exactly five digits. */
  lemma ZeroPad5Width(n: nat)
    requires n < 100000
    ensures |ZeroPad5(n)| == 5
    ensures forall i :: 0 <= i < 5 ==> IsDigit(ZeroPad5(n)[i])
  {
    assert Pow10(5) == 100000;
    NatToStringShort(n, 5);
  }

  /** Zero padding makes the string order agree with the number order, for
      numbers of at most five digits. */
  lemma ZeroPad5Order(a: nat, b: nat)
    requires a < b < 100000
    ensures LexLess(ZeroPad5(a), ZeroPad5(b))
  {
    ZeroPad5Width(a);
    ZeroPad5Width(b);
    ZeroPad5Value(a);
    ZeroPad5Value(b);
    DigitsOrder(ZeroPad5(a), ZeroPad5(b));
  }

  /** Two cards sorted under the same book come in the order of their
      numbers. */
  lemma SortKeyOrder(c1: Card, c2: Card, k: nat, a: nat, b: nat)
    requires FirstNumbered(c1, 0) == Some(k) && FirstNumbered(c2, 0) == Some(k)
    requires PyInt(Addon.Get(c1, SortBooks[k] + "_number")) == Some(a as int)
    requires PyInt(Addon.Get(c2, SortBooks[k] + "_number")) == Some(b as int)
    requires a < b < 100000
    ensures SortKey(c1).Ok? && SortKey(c2).Ok? && LexLess(SortKey(c1).value, SortKey(c2).value)
  {
    ZeroPad5Order(a, b);
    LexLessPrefix(SortBooks[k] + "_", ZeroPad5(a), ZeroPad5(b));
  }

  /** The sort field opens with the book it was taken from, or with "ZZZ_". */
  lemma SortKeyPrefix(card: Card)
    requires SortKey(card).Ok?
    ensures FirstNumbered(card, 0).Some? ==> StartsWith(SortKey(card).value, SortBooks[FirstNumbered(card, 0).value] + "_")
    ensures FirstNumbered(card, 0).None? ==> StartsWith(SortKey(card).value, "ZZZ_")
  {
    var s := SortKey(card).value;
    if FirstNumbered(card, 0).Some? {
      var p := SortBooks[FirstNumbered(card, 0).value] + "_";
      assert s[..|p|] == p;
    } else {
      assert s[..4] == "ZZZ_";
    }
  }

  /** A difference inside two prefixes decides the order of the strings. */
  lemma PrefixesDecide(s1: string, s2: string, p1: string, p2: string, k: nat)
    requires StartsWith(s1, p1) && StartsWith(s2, p2)
    requires k < |p1| && k < |p2| && p1[..k] == p2[..k] && p1[k] < p2[k]
    ensures LexLess(s1, s2)
  {
    assert s1[..k] == p1[..k] && s2[..k] == p2[..k];
    assert s1[k] == p1[k] && s2[k] == p2[k];
    LexLessAt(s1, s2, k);
  }

  /** The groups of the sort field follow one another: RSH cards, then RTH,
      then RTK, then the cards without a number. */
  lemma SortGroups(c1: Card, c2: Card)
    requires SortKey(c1).Ok? && SortKey(c2).Ok?
    requires var f1, f2 := FirstNumbered(c1, 0), FirstNumbered(c2, 0);
      f1.Some? && (f2.None? || f1.value < f2.value)
    ensures LexLess(SortKey(c1).value, SortKey(c2).value)
  {
    SortKeyPrefix(c1);
    SortKeyPrefix(c2);
    if FirstNumbered(c2, 0).None? {
      BookBeforeRest(SortKey(c1).value, SortKey(c2).value, FirstNumbered(c1, 0).value);
    } else {
      BookBeforeBook(SortKey(c1).value, SortKey(c2).value, FirstNumbered(c1, 0).value, FirstNumbered(c2, 0).value);
    }
  }

  /** A key of an earlier book sorts before a key of a later one. */
  lemma BookBeforeBook(s1: string, s2: string, i: nat, j: nat)
    requires i < j < |SortBooks|
    requires StartsWith(s1, SortBooks[i] + "_") && StartsWith(s2, SortBooks[j] + "_")
    ensures LexLess(s1, s2)
  {
    var p1, p2 := SortBooks[i] + "_", SortBooks[j] + "_";
    if i == 0 {
      assert p1 == "RSH_" && p2[..2] == "RT";
      assert p1[..1] == p2[..1];
      PrefixesDecide(s1, s2, p1, p2, 1);
    } else {
      assert p1 == "RTH_" && p2 == "RTK_";
      assert p1[..2] == p2[..2];
      PrefixesDecide(s1, s2, p1, p2, 2);
    }
  }

  /** A key of any book sorts before a key without a number. */
  lemma BookBeforeRest(s1: string, s2: string, i: nat)
    requires i < |SortBooks|
    requires StartsWith(s1, SortBooks[i] + "_") && StartsWith(s2, "ZZZ_")
    ensures LexLess(s1, s2)
  {
    var p1 := SortBooks[i] + "_";
    assert p1[0] == 'R';
    PrefixesDecide(s1, s2, p1, "ZZZ_", 0);
  }
}
