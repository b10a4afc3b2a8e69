/**
 * Python value semantics shared by every script of the decomposition
 * pipeline: optional values and raised errors, truthiness of strings,
 * `str.isspace`, `strip`, `split`, `join`, `in`, ASCII `lower`, the single
 * regular expression `\$\([^)]*\)` that removes region tags from IDS
 * strings, `int()` on a string and the `:05d` format.
 *
 * Strings are sequences of Unicode code points, as in Python 3.
 */
module Util {

  datatype Option<T> = None | Some(value: T)

  /** A value or the exception that Python would raise instead. */
  datatype Result<T, E> = Ok(value: T) | Err(error: E)

  /** `if s:` on a value that is either None or a string. */
  predicate Truthy(o: Option<string>) {
    o.Some? && o.value != ""
  }

  // ---------------------------------------------------------------------
  // Whitespace (str.isspace) and strip()
  // ---------------------------------------------------------------------

  /** The code points for which Python's `str.isspace()` is true. */
  predicate IsSpace(c: char) {
    ('\t' <= c <= '\r') || ('\U{1c}' <= c <= ' ') || c == '\U{85}' || c == '\U{a0}'
    || c == '\U{1680}' || ('\U{2000}' <= c <= '\U{200a}') || c == '\U{2028}'
    || c == '\U{2029}' || c == '\U{202f}' || c == '\U{205f}' || c == '\U{3000}'
  }

  /** The number of whitespace characters `s` starts with. */
  function LeadingSpaces(s: string): (n: nat)
    ensures n <= |s| && (n == |s| || !IsSpace(s[n]))
    ensures forall i :: 0 <= i < n ==> IsSpace(s[i])
  {
    if s != [] && IsSpace(s[0]) then 1 + LeadingSpaces(s[1..]) else 0
  }

  /** `s.lstrip()`: the suffix of `s` left after its leading whitespace. */
  function LStrip(s: string): (r: string)
    ensures |r| <= |s|
    ensures r == [] || !IsSpace(r[0])
    ensures forall i :: 0 <= i < |s| - |r| ==> IsSpace(s[i])
  {
    s[LeadingSpaces(s)..]
  }

  /** `s.rstrip()`: the prefix of `s` left before its trailing whitespace. */
  function RStrip(s: string): (r: string)
    ensures |r| <= |s| && r == s[..|r|]
    ensures r == [] || !IsSpace(r[|r| - 1])
    ensures forall i :: |r| <= i < |s| ==> IsSpace(s[i])
  {
    if s != [] && IsSpace(s[|s| - 1]) then RStrip(s[..|s| - 1]) else s
  }

  /** `s.strip()`: the slice of `s` between its leading and trailing whitespace. */
  function Strip(s: string): (r: string)
    ensures r == [] || (!IsSpace(r[0]) && !IsSpace(r[|r| - 1]))
  {
    RStrip(LStrip(s))
  }

  /** The stripped string is the slice after the leading whitespace, with
      only whitespace after it. */
  lemma StripSlice(s: string)
    ensures StrippedAt(s, Strip(s), LeadingSpaces(s))
  {
    var l := LStrip(s);
    var r := RStrip(l);
    var i := LeadingSpaces(s);
    assert r == s[i..i + |r|];
  }

  /** `r` is the slice of `s` at `i`, with only whitespace around it. */
  predicate StrippedAt(s: string, r: string, i: int) {
    0 <= i <= |s| - |r| && r == s[i..i + |r|]
    && (forall k :: 0 <= k < i ==> IsSpace(s[k]))
    && (forall k :: i + |r| <= k < |s| ==> IsSpace(s[k]))
  }

  /** A string that neither starts nor ends with whitespace is its own strip. */
  lemma StripOfStripped(s: string)
    requires s == [] || (!IsSpace(s[0]) && !IsSpace(s[|s| - 1]))
    ensures Strip(s) == s
  {
  }

  /** strip() is idempotent. */
  lemma StripIdempotent(s: string)
    ensures Strip(Strip(s)) == Strip(s)
  {
    StripOfStripped(Strip(s));
  }

  // ---------------------------------------------------------------------
  // Substrings: `t in s`, `s.startswith(t)`, `s.find(t)`
  // ---------------------------------------------------------------------

  predicate StartsWith(s: string, t: string) {
    |t| <= |s| && s[..|t|] == t
  }

  predicate EndsWith(s: string, t: string) {
    |t| <= |s| && s[|s| - |t|..] == t
  }

  /** `t` occurs in `s` starting at index `j`. */
  predicate OccursAt(s: string, t: string, j: int) {
    0 <= j && j + |t| <= |s| && s[j..j + |t|] == t
  }

  /** An occurrence after the first character is one in the tail. */
  lemma OccursShift(s: string, t: string, j: int)
    requires s != [] && 0 < j
    ensures OccursAt(s, t, j) <==> OccursAt(s[1..], t, j - 1)
  {
    if j + |t| <= |s| {
      assert s[j..j + |t|] == s[1..][j - 1..j - 1 + |t|];
    }
  }

  /** `s.find(t)`: the leftmost occurrence of `t` in `s`, if any. */
  function Find(s: string, t: string): (r: Option<nat>)
    ensures r.Some? ==> OccursAt(s, t, r.value) && forall j :: 0 <= j < r.value ==> !OccursAt(s, t, j)
    ensures r.None? ==> forall j :: !OccursAt(s, t, j)
    decreases |s|
  {
    if StartsWith(s, t) then Some(0)
    else if |s| <= |t| then
      None
    else
      match Find(s[1..], t)
      case None =>
        assert forall j :: !OccursAt(s, t, j) by {
          forall j | 0 < j ensures !OccursAt(s, t, j) {
            OccursShift(s, t, j);
          }
        }
        None
      case Some(k) =>
        assert OccursAt(s, t, k + 1) by { OccursShift(s, t, k + 1); }
        assert forall j :: 0 <= j < k + 1 ==> !OccursAt(s, t, j) by {
          forall j | 0 < j < k + 1 ensures !OccursAt(s, t, j) {
            OccursShift(s, t, j);
          }
        }
        Some(k + 1)
  }

  /** Python's `t in s` on strings. */
  predicate Contains(s: string, t: string) {
    Find(s, t).Some?
  }

  /** The leftmost occurrence is the one `Find` reports. */
  lemma FindAt(s: string, t: string, k: nat)
    requires OccursAt(s, t, k)
    requires forall j :: 0 <= j < k ==> !OccursAt(s, t, j)
    ensures Find(s, t) == Some(k)
  {
  }

  /** A one-character separator occurs exactly where that character does. */
  lemma ContainsChar(s: string, c: char)
    ensures Contains(s, [c]) <==> c in s
  {
    if c in s {
      var j :| 0 <= j < |s| && s[j] == c;
      assert s[j..j + 1] == [c];
      assert OccursAt(s, [c], j);
    }
    if Contains(s, [c]) {
      var j := Find(s, [c]).value;
      assert s[j] == s[j..j + 1][0];
    }
  }

  lemma ContainsIff(s: string, t: string)
    ensures Contains(s, t) <==> exists j :: OccursAt(s, t, j)
  {
  }

  // ---------------------------------------------------------------------
  // split / join
  // ---------------------------------------------------------------------

  /** `sep.join(parts)`. */
  function Join(parts: seq<string>, sep: string): string {
    if parts == [] then ""
    else if |parts| == 1 then parts[0]
    else parts[0] + sep + Join(parts[1..], sep)
  }

  /** `s.split(sep)` for a non-empty separator. */
  function Split(s: string, sep: string): (r: seq<string>)
    requires sep != []
    ensures |r| >= 1
    ensures Join(r, sep) == s
    ensures forall i :: 0 <= i < |r| ==> !Contains(r[i], sep)
    decreases |s|
  {
    match Find(s, sep)
    case None => [s]
    case Some(k) =>
      var rest := Split(s[k + |sep|..], sep);
      SplitStep(s, sep, k, rest);
      [s[..k]] + rest
  }

  /** The piece before the leftmost separator, then the split of the rest. */
  lemma SplitStep(s: string, sep: string, k: nat, rest: seq<string>)
    requires sep != [] && Find(s, sep) == Some(k)
    requires |rest| >= 1 && Join(rest, sep) == s[k + |sep|..]
    requires forall i :: 0 <= i < |rest| ==> !Contains(rest[i], sep)
    ensures Join([s[..k]] + rest, sep) == s
    ensures forall i :: 0 <= i < |[s[..k]] + rest| ==> !Contains(([s[..k]] + rest)[i], sep)
  {
    PrefixClear(s, sep, k);
    SplitCons(s[..k], sep, rest);
    AroundOccurrence(s, sep, k);
  }

  /** A string is what comes before an occurrence, the occurrence, and what
      comes after. */
  lemma AroundOccurrence(s: string, t: string, k: nat)
    requires OccursAt(s, t, k)
    ensures s == s[..k] + t + s[k + |t|..]
  {
    var n := k + |t|;
    assert s[..k] + s[k..n] == s[..n];
    assert s[..n] + s[n..] == s;
  }

  /** Before the leftmost occurrence there is none. */
  lemma PrefixClear(s: string, sep: string, k: nat)
    requires sep != [] && Find(s, sep) == Some(k)
    ensures !Contains(s[..k], sep)
  {
    if Contains(s[..k], sep) {
      var j := Find(s[..k], sep).value;
      assert s[..k][j..j + |sep|] == s[j..j + |sep|];
      assert OccursAt(s, sep, j) && j < k;
      assert false;
    }
  }

  /** One more piece in front of a split. */
  lemma SplitCons(pre: string, sep: string, rest: seq<string>)
    requires |rest| >= 1 && !Contains(pre, sep)
    requires forall i :: 0 <= i < |rest| ==> !Contains(rest[i], sep)
    ensures Join([pre] + rest, sep) == pre + sep + Join(rest, sep)
    ensures forall i :: 0 <= i < |[pre] + rest| ==> !Contains(([pre] + rest)[i], sep)
  {
    var r := [pre] + rest;
    assert r[1..] == rest;
    assert forall i :: 1 <= i < |r| ==> r[i] == rest[i - 1];
  }

  /** A string without the separator splits into itself alone. */
  lemma SplitNoSep(s: string, sep: string)
    requires sep != [] && !Contains(s, sep)
    ensures Split(s, sep) == [s]
  {
  }

  /** Splitting a join on a one-character separator that no part contains
      gives the parts back. */
  lemma {:induction false} SplitJoinChar(parts: seq<string>, c: char)
    requires |parts| >= 1
    requires forall i :: 0 <= i < |parts| ==> c !in parts[i]
    ensures Split(Join(parts, [c]), [c]) == parts
  {
    var a := parts[0];
    if |parts| == 1 {
      ContainsChar(a, c);
      SplitNoSep(a, [c]);
    } else {
      var rest := Join(parts[1..], [c]);
      var s := a + [c] + rest;
      assert Join(parts, [c]) == s;
      assert OccursAt(s, [c], |a|) by { assert s[|a|..|a| + 1] == [c]; }
      forall j | 0 <= j < |a| ensures !OccursAt(s, [c], j) {
        assert s[j] == a[j] && s[j] == s[j..j + 1][0];
      }
      FindAt(s, [c], |a|);
      assert s[..|a|] == a;
      assert s[|a| + 1..] == rest;
      SplitJoinChar(parts[1..], c);
      assert parts == [a] + parts[1..];
    }
  }

  /** The last character of a join is that of its last part. */
  lemma {:induction false} JoinLast(parts: seq<string>, sep: string)
    requires |parts| >= 1 && parts[|parts| - 1] != []
    ensures var j := Join(parts, sep); j != [] && j[|j| - 1] == parts[|parts| - 1][|parts[|parts| - 1]| - 1]
  {
    if |parts| > 1 {
      JoinLast(parts[1..], sep);
    }
  }

  /** `s.split(sep, 1)`: at most one split, at the leftmost occurrence. */
  function SplitOnce(s: string, sep: string): (r: seq<string>)
    requires sep != []
    ensures 1 <= |r| <= 2
    ensures |r| == 2 <==> Contains(s, sep)
    ensures Join(r, sep) == s
    ensures !Contains(r[0], sep)
  {
    match Find(s, sep)
    case None => [s]
    case Some(k) =>
      assert !Contains(s[..k], sep) by {
        forall j | OccursAt(s[..k], sep, j) ensures false {
          assert OccursAt(s, sep, j);
        }
      }
      assert s == s[..k] + sep + s[k + |sep|..];
      [s[..k], s[k + |sep|..]]
  }

  // ---------------------------------------------------------------------
  // dictionaries filled in a loop
  // ---------------------------------------------------------------------

  /** A dictionary filled from records read in order, skipping the `None`
      ones: a later record for a key replaces an earlier one. */
  function Collect<K(==), V>(rs: seq<Option<(K, V)>>): map<K, V> {
    if rs == [] then map[]
    else
      var m := Collect(rs[..|rs| - 1]);
      var last := rs[|rs| - 1];
      if last.Some? then m[last.value.0 := last.value.1] else m
  }

  /** Record `r` is for key `k`. */
  predicate RecordFor<K(==), V>(r: Option<(K, V)>, k: K) {
    r.Some? && r.value.0 == k
  }

  /** A key is present exactly when some record is for it, and its value
      is that of the last such record. */
  lemma {:induction false} CollectLast<K, V>(rs: seq<Option<(K, V)>>, k: K)
    ensures k in Collect(rs) <==> exists i :: 0 <= i < |rs| && RecordFor(rs[i], k)
    ensures k in Collect(rs) ==>
      exists i :: 0 <= i < |rs| && RecordFor(rs[i], k) && rs[i].value.1 == Collect(rs)[k]
        && forall j :: i < j < |rs| ==> !RecordFor(rs[j], k)
  {
    if rs != [] {
      var init := rs[..|rs| - 1];
      CollectLast(init, k);
      if !RecordFor(rs[|rs| - 1], k) {
        if k in Collect(init) {
          var i :| 0 <= i < |init| && RecordFor(init[i], k) && init[i].value.1 == Collect(init)[k]
            && forall j :: i < j < |init| ==> !RecordFor(init[j], k);
          assert rs[i] == init[i];
          forall j | i < j < |rs| ensures !RecordFor(rs[j], k) {
            if j < |init| { assert rs[j] == init[j]; }
          }
        }
        if exists i :: 0 <= i < |rs| && RecordFor(rs[i], k) {
          var i :| 0 <= i < |rs| && RecordFor(rs[i], k);
          assert rs[i] == init[i];
        }
      }
    }
  }

  /** A dictionary filled by assigning the pairs in order. */
  function FromPairs<K(==), V>(ps: seq<(K, V)>): map<K, V> {
    if ps == [] then map[]
    else FromPairs(ps[..|ps| - 1])[ps[|ps| - 1].0 := ps[|ps| - 1].1]
  }

  /** Assigning two runs of pairs one after the other: the second run's
      keys override. */
  lemma {:induction false} FromPairsAppend<K, V>(a: seq<(K, V)>, b: seq<(K, V)>)
    ensures FromPairs(a + b) == FromPairs(a) + FromPairs(b)
  {
    if b == [] {
      assert a + b == a;
    } else {
      var init := b[..|b| - 1];
      assert (a + b)[..|a + b| - 1] == a + init;
      FromPairsAppend(a, init);
    }
  }

  /** A key is present exactly when some pair assigns it. */
  lemma {:induction false} FromPairsKeys<K, V>(ps: seq<(K, V)>, k: K)
    ensures k in FromPairs(ps) <==> exists i :: 0 <= i < |ps| && ps[i].0 == k
  {
    if ps != [] {
      var init := ps[..|ps| - 1];
      FromPairsKeys(init, k);
      if exists i :: 0 <= i < |ps| && ps[i].0 == k {
        var i :| 0 <= i < |ps| && ps[i].0 == k;
        if i < |init| { assert init[i] == ps[i]; }
      }
      if exists i :: 0 <= i < |init| && init[i].0 == k {
        var i :| 0 <= i < |init| && init[i].0 == k;
        assert ps[i] == init[i];
      }
    }
  }

  /** The value of a key is that of the last pair assigning it. */
  /** Every assigned value comes from a pair with its key. */
  lemma {:induction false} FromPairsValue<K, V>(ps: seq<(K, V)>, k: K)
    requires k in FromPairs(ps)
    ensures exists i :: 0 <= i < |ps| && ps[i] == (k, FromPairs(ps)[k])
  {
    var init := ps[..|ps| - 1];
    if ps[|ps| - 1].0 != k {
      FromPairsValue(init, k);
      var i :| 0 <= i < |init| && init[i] == (k, FromPairs(init)[k]);
      assert ps[i] == init[i];
    }
  }

  lemma {:induction false} FromPairsLast<K, V>(ps: seq<(K, V)>, i: nat)
    requires i < |ps| && forall j :: i < j < |ps| ==> ps[j].0 != ps[i].0
    ensures ps[i].0 in FromPairs(ps) && FromPairs(ps)[ps[i].0] == ps[i].1
  {
    if i < |ps| - 1 {
      var init := ps[..|ps| - 1];
      assert init[i] == ps[i];
      forall j | i < j < |init| ensures init[j].0 != init[i].0 {
        assert init[j] == ps[j];
      }
      FromPairsLast(init, i);
    }
  }

  /** No element occurs twice. */
  predicate Distinct<T(==)>(xs: seq<T>) {
    forall i, j :: 0 <= i < j < |xs| ==> xs[i] != xs[j]
  }

  /** The distinct elements of `xs` in order of first occurrence: what a loop
      of `if x not in acc: acc.append(x)` builds. */
  function Dedup<T(==)>(xs: seq<T>): seq<T> {
    if xs == [] then []
    else
      var d := Dedup(xs[..|xs| - 1]);
      var x := xs[|xs| - 1];
      if x in d then d else d + [x]
  }

  /** Deduplication keeps every element and only those. */
  lemma {:induction false} DedupMembers<T>(xs: seq<T>, x: T)
    ensures x in Dedup(xs) <==> x in xs
  {
    if xs != [] {
      var init := xs[..|xs| - 1];
      assert xs == init + [xs[|xs| - 1]];
      DedupMembers(init, x);
      DedupMembers(init, xs[|xs| - 1]);
    }
  }

  /** Deduplication leaves no element twice. */
  lemma {:induction false} DedupDistinct<T>(xs: seq<T>)
    ensures Distinct(Dedup(xs))
  {
    if xs != [] {
      var init := xs[..|xs| - 1];
      DedupDistinct(init);
      DedupMembers(init, xs[|xs| - 1]);
    }
  }

  /** One more element extends the deduplicated list only when it is new. */
  lemma DedupSnoc<T>(xs: seq<T>, x: T)
    ensures Dedup(xs + [x]) == if x in xs then Dedup(xs) else Dedup(xs) + [x]
  {
    DedupMembers(xs, x);
    assert (xs + [x])[..|xs|] == xs;
  }

  /** The position of the first occurrence of `x` in `xs`. */
  function FirstIndex<T(==)>(xs: seq<T>, x: T): (j: nat)
    requires x in xs
    ensures j < |xs| && xs[j] == x && x !in xs[..j]
  {
    if xs[0] == x then 0
    else
      var j := FirstIndex(xs[1..], x);
      assert xs[..j + 1] == [xs[0]] + xs[1..][..j];
      j + 1
  }

  /** A position holding `x` with no `x` before it is the first one. */
  lemma FirstIndexUnique<T>(xs: seq<T>, x: T, j: nat)
    requires j < |xs| && xs[j] == x && x !in xs[..j]
    ensures FirstIndex(xs, x) == j
  {
    var f := FirstIndex(xs, x);
    assert forall i :: 0 <= i < j ==> xs[..j][i] == xs[i];
    assert forall i :: 0 <= i < f ==> xs[..f][i] == xs[i];
  }

  /** Deduplication lists the elements in the order of their first
      occurrences: each element comes before every element first seen
      after it. */
  lemma {:induction false} DedupOrder<T>(xs: seq<T>)
    ensures forall k :: 0 <= k < |Dedup(xs)| ==> Dedup(xs)[k] in xs
    ensures forall k, l :: 0 <= k < l < |Dedup(xs)| ==>
      FirstIndex(xs, Dedup(xs)[k]) < FirstIndex(xs, Dedup(xs)[l])
  {
    forall k | 0 <= k < |Dedup(xs)| ensures Dedup(xs)[k] in xs {
      DedupMembers(xs, Dedup(xs)[k]);
    }
    if xs != [] {
      var init := xs[..|xs| - 1];
      var x := xs[|xs| - 1];
      assert xs == init + [x];
      DedupOrder(init);
      var d := Dedup(init);
      forall k | 0 <= k < |d| ensures FirstIndex(xs, d[k]) == FirstIndex(init, d[k]) {
        var j := FirstIndex(init, d[k]);
        assert xs[..j] == init[..j];
        FirstIndexUnique(xs, d[k], j);
      }
      if x !in d {
        DedupMembers(init, x);
        assert x !in xs[..|xs| - 1];
        FirstIndexUnique(xs, x, |xs| - 1);
      }
    }
  }

  /** `if m not in acc: acc.append(m)`. */
  method AddNew<T(==)>(ms0: seq<T>, ghost xs: seq<T>, m: T) returns (ms: seq<T>)
    requires ms0 == Dedup(xs)
    ensures ms == Dedup(xs + [m])
  {
    DedupSnoc(xs, m);
    DedupMembers(xs, m);
    ms := ms0;
    if m !in ms {
      ms := ms + [m];
    }
  }

  // ---------------------------------------------------------------------
  // Stripped pieces
  // ---------------------------------------------------------------------

  /** A non-empty sequence is its front and its last element. */
  lemma FrontLast<T>(s: seq<T>)
    requires s != []
    ensures s == s[..|s| - 1] + [s[|s| - 1]]
  {
  }

  /** A prefix one element longer. */
  lemma TakeSnoc<T>(s: seq<T>, i: nat)
    requires i < |s|
    ensures s[..i + 1] == s[..i] + [s[i]]
  {
  }

  /** The element at an index of a concatenation. */
  lemma AppendIndex<T>(a: seq<T>, b: seq<T>, k: nat)
    requires k < |a| + |b|
    ensures (a + b)[k] == if k < |a| then a[k] else b[k - |a|]
  {
  }

  lemma SeqAssoc<T>(a: seq<T>, b: seq<T>, c: seq<T>)
    ensures (a + b) + c == a + (b + c)
  {
  }

  /** Moving one element across a concatenation. */
  lemma ConsAssoc<T>(a: seq<T>, x: T, b: seq<T>)
    ensures a + ([x] + b) == (a + [x]) + b
  {
  }

  /** Adding an element already present changes nothing. */
  lemma UnionPresent<T>(a: set<T>, x: T, b: set<T>)
    requires x in a
    ensures a + ({x} + b) == a + b
  {
  }

  lemma MapUpdateKeys<K, V>(m: map<K, V>, k: K, v: V)
    ensures m[k := v].Keys == m.Keys + {k}
  {
  }

  lemma UnionAssoc<T>(a: set<T>, x: T, b: set<T>)
    ensures (a + {x}) + b == a + ({x} + b)
  {
  }

  /** `[p.strip() for p in pieces if p.strip()]`: the stripped, non-empty pieces. */
  function StrippedPieces(pieces: seq<string>): (r: seq<string>)
  {
    if pieces == [] then []
    else
      var m := Strip(pieces[|pieces| - 1]);
      StrippedPieces(pieces[..|pieces| - 1]) + (if m != [] then [m] else [])
  }

  /** The stripped pieces after one more piece. */
  lemma StrippedPiecesSnoc(before: seq<string>, pieces: seq<string>, k: nat)
    requires k < |pieces|
    ensures Strip(pieces[k]) != [] ==>
      before + StrippedPieces(pieces[..k + 1]) == (before + StrippedPieces(pieces[..k])) + [Strip(pieces[k])]
    ensures Strip(pieces[k]) == [] ==> before + StrippedPieces(pieces[..k + 1]) == before + StrippedPieces(pieces[..k])
  {
    assert pieces[..k + 1][..k] == pieces[..k];
    assert StrippedPieces(pieces[..k + 1]) == StrippedPieces(pieces[..k]) + (if Strip(pieces[k]) != [] then [Strip(pieces[k])] else []);
  }

  lemma {:induction false} StrippedPiecesClean(pieces: seq<string>, m: string)
    requires m in StrippedPieces(pieces)
    ensures m != [] && Strip(m) == m
  {
    var init := pieces[..|pieces| - 1];
    var last := Strip(pieces[|pieces| - 1]);
    assert StrippedPieces(pieces) == StrippedPieces(init) + (if last != [] then [last] else []);
    if m in StrippedPieces(init) {
      StrippedPiecesClean(init, m);
    } else {
      assert m == last;
      StripIdempotent(pieces[|pieces| - 1]);
    }
  }

  lemma {:induction false} StrippedPiecesComplete(pieces: seq<string>, k: nat)
    requires k < |pieces| && Strip(pieces[k]) != []
    ensures Strip(pieces[k]) in StrippedPieces(pieces)
  {
    var init := pieces[..|pieces| - 1];
    if k < |pieces| - 1 {
      assert init[k] == pieces[k];
      StrippedPiecesComplete(init, k);
    }
  }

  /** `xs[:n]`. */
  function Take<T>(xs: seq<T>, n: nat): (r: seq<T>)
    ensures |r| <= n && |r| <= |xs| && r == xs[..|r|]
    ensures |xs| <= n ==> r == xs
  {
    if |xs| <= n then xs else xs[..n]
  }

  /** Concatenation of a list of strings, `"".join(parts)`. */
  function Concat(parts: seq<string>): string {
    if parts == [] then "" else parts[0] + Concat(parts[1..])
  }

  lemma ConcatAppend(a: seq<string>, b: seq<string>)
    ensures Concat(a + b) == Concat(a) + Concat(b)
  {
    if a != [] {
      calc {
        Concat(a + b);
        (a + b)[0] + Concat((a + b)[1..]);
        { assert (a + b)[1..] == a[1..] + b; }
        a[0] + Concat(a[1..] + b);
        { ConcatAppend(a[1..], b); }
        a[0] + (Concat(a[1..]) + Concat(b));
      }
    } else {
      assert a + b == b;
    }
  }

  /** The characters of `s` that are not whitespace, in order. */
  function NonSpace(s: string): (r: string)
    ensures |r| <= |s|
    ensures forall i :: 0 <= i < |r| ==> !IsSpace(r[i])
  {
    if s == [] then []
    else
      var rest := NonSpace(s[1..]);
      if IsSpace(s[0]) then rest else [s[0]] + rest
  }

  /** The leading run of non-whitespace characters of `s`. */
  function Word(s: string): (r: string)
    ensures |r| <= |s| && r == s[..|r|]
    ensures forall i :: 0 <= i < |r| ==> !IsSpace(r[i])
  {
    if s == [] || IsSpace(s[0]) then [] else [s[0]] + Word(s[1..])
  }

  /** `s.split()` with no argument: maximal runs of non-whitespace. */
  function Words(s: string): (r: seq<string>)
    ensures forall i :: 0 <= i < |r| ==> IsWord(r[i])
    decreases |s|
  {
    var t := LStrip(s);
    if t == [] then [] else
      var w := Word(t);
      assert w != [] by { assert !IsSpace(t[0]); }
      var u := t[|w|..];
      assert |u| < |s|;
      var rest := Words(u);
      assert IsWord(w);
      [w] + rest
  }

  /** A non-empty string without whitespace. */
  predicate IsWord(w: string) {
    w != [] && forall k :: 0 <= k < |w| ==> !IsSpace(w[k])
  }

  lemma {:induction false} NonSpaceAppend(a: string, b: string)
    ensures NonSpace(a + b) == NonSpace(a) + NonSpace(b)
  {
    if a != [] {
      assert (a + b)[0] == a[0];
      assert (a + b)[1..] == a[1..] + b;
      NonSpaceAppend(a[1..], b);
    } else {
      assert a + b == b;
    }
  }

  lemma {:induction false} NonSpaceOfSpaces(s: string)
    requires forall i :: 0 <= i < |s| ==> IsSpace(s[i])
    ensures NonSpace(s) == []
  {
    if s != [] { NonSpaceOfSpaces(s[1..]); }
  }

  lemma {:induction false} NonSpaceOfWord(s: string)
    requires forall i :: 0 <= i < |s| ==> !IsSpace(s[i])
    ensures NonSpace(s) == s
  {
    if s != [] { NonSpaceOfWord(s[1..]); }
  }

  /** Splitting on whitespace loses exactly the whitespace: the words
      concatenate to the non-whitespace characters of the input. */
  lemma {:induction false} WordsKeepNonSpace(s: string)
    ensures Concat(Words(s)) == NonSpace(s)
    decreases |s|
  {
    var t := LStrip(s);
    assert s == s[..|s| - |t|] + t;
    NonSpaceAppend(s[..|s| - |t|], t);
    NonSpaceOfSpaces(s[..|s| - |t|]);
    if t != [] {
      var w := Word(t);
      assert t == w + t[|w|..];
      NonSpaceAppend(w, t[|w|..]);
      NonSpaceOfWord(w);
      WordsKeepNonSpace(t[|w|..]);
    }
  }

  // ---------------------------------------------------------------------
  // Per-character transformations
  // ---------------------------------------------------------------------

  function AsciiLowerChar(c: char): char {
    if 'A' <= c <= 'Z' then (c as int + 32) as char else c
  }

  /** `s.lower()` restricted to ASCII letters. */
  function Lower(s: string): (r: string)
    ensures |r| == |s|
    ensures forall i :: 0 <= i < |s| ==> r[i] == AsciiLowerChar(s[i])
  {
    seq(|s|, i requires 0 <= i < |s| => AsciiLowerChar(s[i]))
  }

  /** `s.replace(c, '')` for a one-character string `c`. */
  function RemoveChar(s: string, c: char): (r: string)
    ensures c !in r
    ensures forall x :: x != c ==> multiset(r)[x] == multiset(s)[x]
    ensures forall x :: x in r ==> x in s
    ensures c !in s ==> r == s
  {
    if s == [] then []
    else
      var rest := RemoveChar(s[1..], c);
      assert s == [s[0]] + s[1..];
      if s[0] == c then rest else [s[0]] + rest
  }

  /** Index of the first `ch` in `s`, as `s.index(ch)` would find it. */
  function FindChar(s: string, ch: char): (r: Option<nat>)
    ensures r.Some? ==> r.value < |s| && s[r.value] == ch && ch !in s[..r.value]
    ensures r.None? ==> ch !in s
  {
    if s == [] then None
    else if s[0] == ch then Some(0)
    else match FindChar(s[1..], ch)
      case None => None
      case Some(k) => assert s[..k + 1] == [s[0]] + s[1..][..k]; Some(k + 1)
  }

  /** The first occurrence is the one `FindChar` reports. */
  lemma FindCharAt(s: string, ch: char, k: nat)
    requires k < |s| && s[k] == ch && ch !in s[..k]
    ensures FindChar(s, ch) == Some(k)
  {
    assert s[k] in s;
  }

  /** `re.sub(r'\$\([^)]*\)', '', s)`: scanning left to right, every "$("
      with a later ")" is removed through the first such ")". */
  function StripRegionTags(s: string): (r: string)
    ensures |r| <= |s|
    ensures forall x :: x in r ==> x in s
    ensures '$' !in s ==> r == s
    decreases |s|
  {
    if s == [] then []
    else if |s| >= 2 && s[0] == '$' && s[1] == '(' && FindChar(s[2..], ')').Some? then
      var k := FindChar(s[2..], ')').value;
      var rest := StripRegionTags(s[k + 3..]);
      assert forall x :: x in rest ==> x in s by {
        forall x | x in rest ensures x in s { assert x in s[k + 3..]; }
      }
      rest
    else
      var rest := StripRegionTags(s[1..]);
      assert s == [s[0]] + s[1..];
      [s[0]] + rest
  }

  /** A region tag at the front is dropped whole. */
  lemma RegionTagDropped(tag: string, rest: string)
    requires ')' !in tag
    ensures StripRegionTags("$(" + tag + ")" + rest) == StripRegionTags(rest)
  {
    var s := "$(" + tag + ")" + rest;
    assert s[2..] == tag + ")" + rest;
    assert (tag + ")" + rest)[|tag|] == ')';
    assert FindChar(s[2..], ')') == Some(|tag|) by {
      assert ')' !in (tag + ")" + rest)[..|tag|] by { assert (tag + ")" + rest)[..|tag|] == tag; }
    }
    assert s[|tag| + 3..] == rest;
  }

  /** The cleaning applied to an IDS string before tokenising it:
      region tags removed, then every '^', then surrounding whitespace. */
  function CleanIds(s: string): (r: string)
    ensures '^' !in r
    ensures forall x :: x in r ==> x in s
  {
    var r := Strip(RemoveChar(StripRegionTags(s), '^'));
    assert forall x :: x in r ==> x in RemoveChar(StripRegionTags(s), '^');
    r
  }

  /** Cleaning leaves alone a string with no region tag, no '^' and no
      surrounding whitespace. */
  lemma CleanIdsOfPlain(s: string)
    requires '$' !in s && '^' !in s
    requires s == [] || (!IsSpace(s[0]) && !IsSpace(s[|s| - 1]))
    ensures CleanIds(s) == s
  {
    StripOfStripped(s);
  }

  // ---------------------------------------------------------------------
  // Integers: str(n), int(s) and f"{n:05d}"
  // ---------------------------------------------------------------------

  predicate IsDigit(c: char) {
    '0' <= c <= '9'
  }

  function DigitValue(c: char): nat
    requires IsDigit(c)
  {
    c as int - '0' as int
  }

  function DigitChar(d: nat): (c: char)
    requires d < 10
    ensures IsDigit(c) && DigitValue(c) == d
  {
    ('0' as int + d) as char
  }

  /** Decimal digits of `n`, most significant first, no leading zero. */
  function NatToString(n: nat): (r: string)
    ensures r != [] && forall i :: 0 <= i < |r| ==> IsDigit(r[i])
    ensures |r| > 1 ==> r[0] != '0'
    decreases n
  {
    if n < 10 then [DigitChar(n)] else NatToString(n / 10) + [DigitChar(n % 10)]
  }

  /** The value of a string of decimal digits. */
  function DigitsValue(s: string): nat
    requires forall i :: 0 <= i < |s| ==> IsDigit(s[i])
  {
    if s == [] then 0 else DigitsValue(s[..|s| - 1]) * 10 + DigitValue(s[|s| - 1])
  }

  lemma {:induction false} NatToStringValue(n: nat)
    ensures DigitsValue(NatToString(n)) == n
    decreases n
  {
    if n >= 10 {
      var s := NatToString(n);
      assert s[..|s| - 1] == NatToString(n / 10);
      NatToStringValue(n / 10);
    }
  }

  /** `str(i)`. */
  function IntToString(i: int): (r: string)
    ensures r != []
    ensures i < 0 <==> r[0] == '-'
  {
    if i < 0 then "-" + NatToString(-i) else NatToString(i)
  }

  /** `f"{i:05d}"`: zero-padded to width 5, the sign counting in the width. */
  function ZeroPad5(i: int): (r: string)
    ensures |r| >= 5
    ensures i >= 0 ==> forall k :: 0 <= k < |r| ==> IsDigit(r[k])
    ensures i < 0 <==> r[0] == '-'
  {
    if i < 0 then "-" + LeftZeros(NatToString(-i), 4) else LeftZeros(NatToString(i), 5)
  }

  function Zeros(n: nat): (r: string)
    ensures |r| == n && forall k :: 0 <= k < n ==> r[k] == '0'
  {
    if n == 0 then [] else "0" + Zeros(n - 1)
  }

  /** `digits` padded on the left with '0' to at least `width` characters. */
  function LeftZeros(digits: string, width: nat): (r: string)
    ensures |r| == if |digits| >= width then |digits| else width
    ensures EndsWith(r, digits)
    ensures forall k :: 0 <= k < |r| - |digits| ==> r[k] == '0'
  {
    var r := (if |digits| >= width then "" else Zeros(width - |digits|)) + digits;
    assert r[|r| - |digits|..] == digits;
    r
  }

  lemma {:induction false} LeadingZerosValue(z: nat, s: string)
    requires forall i :: 0 <= i < |s| ==> IsDigit(s[i])
    ensures forall i :: 0 <= i < |Zeros(z) + s| ==> IsDigit((Zeros(z) + s)[i])
    ensures DigitsValue(Zeros(z) + s) == DigitsValue(s)
    decreases |s|
  {
    var t := Zeros(z) + s;
    if s == [] {
      assert t == Zeros(z);
      ZerosValue(z);
    } else {
      assert t[..|t| - 1] == Zeros(z) + s[..|s| - 1];
      LeadingZerosValue(z, s[..|s| - 1]);
    }
  }

  lemma {:induction false} ZerosValue(z: nat)
    ensures DigitsValue(Zeros(z)) == 0
  {
    if z > 0 {
      assert Zeros(z)[..z - 1] == Zeros(z - 1) by {
        forall k | 0 <= k < z - 1 ensures Zeros(z)[k] == Zeros(z - 1)[k] {}
      }
      ZerosValue(z - 1);
    }
  }

  /** Zero padding does not change the value of a non-negative number. */
  lemma ZeroPad5Value(n: nat)
    ensures DigitsValue(ZeroPad5(n)) == n
  {
    var d := NatToString(n);
    NatToStringValue(n);
    var z := if |d| >= 5 then 0 else 5 - |d|;
    assert ZeroPad5(n) == Zeros(z) + d;
    LeadingZerosValue(z, d);
  }

  /** A digit string with single underscores between digits, as `int()`
      accepts it after the sign. */
  predicate UnderscoredDigits(s: string) {
    s != [] && IsDigit(s[0]) && IsDigit(s[|s| - 1])
    && (forall i :: 0 <= i < |s| ==> IsDigit(s[i]) || s[i] == '_')
    && (forall i, j :: 0 <= i < |s| && 0 <= j < |s| && j == i + 1 ==> !(s[i] == '_' && s[j] == '_'))
  }

  /** The value of a digit string in which underscores are ignored. */
  function UnderscoredValue(s: string): nat
    requires forall i :: 0 <= i < |s| ==> IsDigit(s[i]) || s[i] == '_'
  {
    if s == [] then 0
    else if s[|s| - 1] == '_' then UnderscoredValue(s[..|s| - 1])
    else UnderscoredValue(s[..|s| - 1]) * 10 + DigitValue(s[|s| - 1])
  }

  /** Python's `int(s)` on a string, returning None where it raises
      ValueError (only ASCII digits are modelled). */
  function PyInt(s: string): (r: Option<int>)
    ensures Strip(s) == [] ==> r.None?
  {
    var t := Strip(s);
    if t == [] then None
    else
      var neg := t[0] == '-';
      var body := if t[0] == '-' || t[0] == '+' then t[1..] else t;
      if !UnderscoredDigits(body) then None
      else Some(if neg then -(UnderscoredValue(body) as int) else UnderscoredValue(body) as int)
  }

  lemma {:induction false} UnderscoredOfDigits(s: string)
    requires forall i :: 0 <= i < |s| ==> IsDigit(s[i])
    ensures UnderscoredValue(s) == DigitsValue(s)
  {
    if s != [] { UnderscoredOfDigits(s[..|s| - 1]); }
  }

  /** A plain string of ASCII digits is read as its decimal value. */
  lemma PyIntOfDigits(s: string)
    requires s != [] && forall i :: 0 <= i < |s| ==> IsDigit(s[i])
    ensures PyInt(s) == Some(DigitsValue(s) as int)
  {
    StripOfStripped(s);
    UnderscoredOfDigits(s);
    assert UnderscoredDigits(s);
  }

  /** `int(str(n)) == n`. */
  lemma IntOfNatToString(n: nat)
    ensures PyInt(NatToString(n)) == Some(n as int)
  {
    NatToStringValue(n);
    PyIntOfDigits(NatToString(n));
  }
}
