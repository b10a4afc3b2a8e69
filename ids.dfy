/**
 * Ideographic Description Sequences (section 18.2 of The Unicode Standard,
 * "Ideographic Description Characters") as the decomposition scripts read
 * them from IDS.TXT.
 *
 * Two parser generations are modelled:
 *  - the token parser of scripts/build_decks.py and
 *    scripts/archive/recursive_decompose_v2.py, which first tokenises the
 *    string and turns a `{N}` placeholder into one numbered token;
 *  - the character parser of scripts/recursive_decompose.py and
 *    scripts/build_mapping.py, which reads one character at a time and
 *    skips braces, parentheses, digits and blanks, so that a placeholder
 *    leaves no node at all.
 * Both parsers advance a shared cursor; they are modelled as classes whose
 * `pos` field is that cursor, each proved against a recursive function.
 */
module Ids {
  import opened Util

  /** The 17 characters treated as operators: ⿰ … ⿿ (U+2FF0–U+2FFF) and 〾. */
  predicate IsOperator(c: char) {
    ('⿰' <= c <= '⿿') || c == '〾'
  }

  /** Number of operands: three for ⿲ and ⿳, one for 〾, two for the rest. */
  function Arity(op: char): nat {
    if op == '⿲' || op == '⿳' then 3 else if op == '〾' then 1 else 2
  }

  /** The layout names printed for the 12 operators that have one. */
  function Label(op: char): Option<string> {
    match op
    case '⿰' => Some("left-right")
    case '⿱' => Some("top-bottom")
    case '⿲' => Some("left-mid-right")
    case '⿳' => Some("top-mid-bottom")
    case '⿴' => Some("surround")
    case '⿵' => Some("surround-open-bottom")
    case '⿶' => Some("surround-open-top")
    case '⿷' => Some("surround-open-right")
    case '⿸' => Some("top-left-wrap")
    case '⿹' => Some("top-right-wrap")
    case '⿺' => Some("bottom-left-wrap")
    case '⿻' => Some("overlaid")
    case _ => None
  }

  /** Exactly ⿰ … ⿻ have a label; ⿼ … ⿿ and 〾 have none. */
  lemma LabelledOperators(c: char)
    ensures Label(c).Some? <==> '⿰' <= c <= '⿻'
    ensures Label(c).Some? ==> IsOperator(c)
  {
  }

  // ---------------------------------------------------------------------
  // Parse trees
  // ---------------------------------------------------------------------

  /** An operator with its operands, a plain component character, or a
      `{N}` placeholder for a component that has no code point. */
  datatype IdsNode = Op(op: char, kids: seq<IdsNode>) | Lit(c: char) | Num(n: int)

  /** No operator has more operands than its arity. */
  predicate ArityBounded(t: IdsNode) {
    match t
    case Op(op, ks) => |ks| <= Arity(op) && forall i :: 0 <= i < |ks| ==> ArityBounded(ks[i])
    case _ => true
  }

  /** A complete tree: every operator has exactly its arity of operands and
      no literal is itself an operator character. */
  predicate Complete(t: IdsNode) {
    match t
    case Op(op, ks) => IsOperator(op) && |ks| == Arity(op) && forall i :: 0 <= i < |ks| ==> Complete(ks[i])
    case Lit(c) => !IsOperator(c)
    case Num(_) => true
  }

  /** The placeholder numbers that occur in a tree. */
  function NumsOf(t: IdsNode): set<int> {
    match t
    case Op(_, ks) => set i, m | 0 <= i < |ks| && m in NumsOf(ks[i]) :: m
    case Lit(_) => {}
    case Num(n) => {n}
  }

  // ---------------------------------------------------------------------
  // Tokens (build_decks.py / recursive_decompose_v2.py)
  // ---------------------------------------------------------------------

  datatype Token = TChar(c: char) | TNum(n: int)

  /** The ValueError that `str.index` or `int` raises inside the tokenizer. */
  datatype TokenError = UnclosedBrace | BadNumber(text: string)

  /** Characters the tokenizer drops. */
  predicate Dropped(c: char) {
    c == ' ' || c == '\t' || c == '\r' || c == '\n' || c == '(' || c == ')'
  }

  function PrependTokens(ts: seq<Token>, r: Result<seq<Token>, TokenError>): Result<seq<Token>, TokenError> {
    match r
    case Ok(rest) => Ok(ts + rest)
    case Err(e) => Err(e)
  }

  /** One step of the scan at the front of `c`: the tokens it emits and
      how many characters it consumes, or the error it raises. */
  function Step(c: string): (r: Result<(seq<Token>, nat), TokenError>)
    requires c != []
    ensures r.Ok? ==> 0 < r.value.1 <= |c|
  {
    if c[0] == '{' then
      match FindChar(c, '}')
      case None => Err(UnclosedBrace)
      case Some(j) =>
        match PyInt(c[1..j])
        case None => Err(BadNumber(c[1..j]))
        case Some(n) => Ok(([TNum(n)], j + 1))
    else if Dropped(c[0]) then Ok(([], 1))
    else Ok(([TChar(c[0])], 1))
  }

  /** The token list of an already cleaned string. */
  function TokensFrom(c: string): (r: Result<seq<Token>, TokenError>)
    ensures r.Ok? ==> |r.value| <= |c|
    decreases |c|
  {
    if c == [] then Ok([])
    else
      match Step(c)
      case Err(e) => Err(e)
      case Ok(st) => PrependTokens(st.0, TokensFrom(c[st.1..]))
  }

  /** The tokens of an IDS string: `tokenize_ids`. */
  function Tokens(s: string): (r: Result<seq<Token>, TokenError>)
    ensures r.Ok? ==> |r.value| <= |CleanIds(s)|
    ensures s == "" ==> r == Ok([])
  {
    assert s == "" ==> CleanIds(s) == "";
    TokensFrom(CleanIds(s))
  }

  /** One char token per kept character, in input order. */
  function CharTokens(c: string): (r: seq<Token>)
    ensures forall i :: 0 <= i < |r| ==> r[i].TChar? && !Dropped(r[i].c) && r[i].c in c
  {
    if c == [] then []
    else
      var rest := CharTokens(c[1..]);
      assert forall x :: x in c[1..] ==> x in c;
      if Dropped(c[0]) then rest else [TChar(c[0])] + rest
  }

  /** Without braces, tokenising keeps every character except blanks and
      parentheses, bare digits and operators included, in order. */
  lemma {:induction false} TokensWithoutBraces(c: string)
    requires '{' !in c
    ensures TokensFrom(c) == Ok(CharTokens(c))
  {
    if c != [] {
      assert '{' !in c[1..] by { assert forall x :: x in c[1..] ==> x in c; }
      TokensWithoutBraces(c[1..]);
      assert c[0] != '{' by { assert c[0] in c; }
      if Dropped(c[0]) {
        PrependNothing(TokensFrom(c[1..]));
      }
    }
  }

  /** `{digits}` becomes one numbered token carrying the decimal value. */
  lemma TokensOfPlaceholder(d: string, rest: string)
    requires d != [] && forall i :: 0 <= i < |d| ==> IsDigit(d[i])
    ensures TokensFrom("{" + d + "}" + rest) == PrependTokens([TNum(DigitsValue(d) as int)], TokensFrom(rest))
  {
    var c := "{" + d + "}" + rest;
    PlaceholderStep(d, rest);
    assert c[2 + |d|..] == rest;
  }

  /** The tokenizer's step over a placeholder consumes it whole. */
  lemma PlaceholderStep(d: string, rest: string)
    requires d != [] && forall i :: 0 <= i < |d| ==> IsDigit(d[i])
    ensures Step("{" + d + "}" + rest) == Ok(([TNum(DigitsValue(d) as int)], 2 + |d|))
  {
    var c := "{" + d + "}" + rest;
    var j := 1 + |d|;
    PlaceholderClose(d, rest);
    assert PyInt(c[1..j]) == Some(DigitsValue(d) as int) by {
      assert c[1..j] == d;
      PyIntOfDigits(d);
    }
    StepBrace(c, j, DigitsValue(d) as int);
  }

  /** The step at a `{` with a closing `}` and an integer between them. */
  lemma StepBrace(c: string, j: nat, n: int)
    requires c != [] && c[0] == '{' && FindChar(c, '}') == Some(j) && PyInt(c[1..j]) == Some(n)
    ensures Step(c) == Ok(([TNum(n)], j + 1))
  {
  }

  /** The first `}` after a run of digits is the one closing it. */
  lemma PlaceholderClose(d: string, rest: string)
    requires forall i :: 0 <= i < |d| ==> IsDigit(d[i])
    ensures FindChar("{" + d + "}" + rest, '}') == Some(1 + |d|)
  {
    var c := "{" + d + "}" + rest;
    var j := 1 + |d|;
    assert c[j] == '}';
    assert '}' !in c[..j] by {
      forall i | 0 <= i < j ensures c[i] != '}' {
        if i > 0 { assert c[i] == d[i - 1]; }
      }
    }
    FindCharAt(c, '}', j);
  }

  /** A `{` with no later `}` makes `str.index` raise. */
  lemma TokensUnclosed(c: string)
    requires c != [] && c[0] == '{' && '}' !in c
    ensures TokensFrom(c) == Err(UnclosedBrace)
  {
  }

  /** Brace contents that `int()` rejects make the tokenizer raise. */
  lemma TokensBadNumber(body: string, rest: string)
    requires '}' !in body && PyInt(body).None?
    ensures TokensFrom("{" + body + "}" + rest) == Err(BadNumber(body))
  {
    var c := "{" + body + "}" + rest;
    assert c[1 + |body|] == '}';
    assert '}' !in c[..1 + |body|] by {
      forall i | 0 <= i < 1 + |body| ensures c[i] != '}' {
        if i > 0 { assert c[i] == body[i - 1]; }
      }
    }
    FindCharAt(c, '}', 1 + |body|);
    assert c[1..1 + |body|] == body;
  }

  lemma PrependAssoc(a: seq<Token>, b: seq<Token>, r: Result<seq<Token>, TokenError>)
    ensures PrependTokens(a + b, r) == PrependTokens(a, PrependTokens(b, r))
  {
    if r.Ok? {
      assert a + b + r.value == a + (b + r.value);
    }
  }

  lemma PrependNothing(r: Result<seq<Token>, TokenError>)
    ensures PrependTokens([], r) == r
  {
    if r.Ok? {
      assert [] + r.value == r.value;
    }
  }

  /** `tokenize_ids`, scanning the cleaned string with an index. */
  method Tokenize(s: string) returns (r: Result<seq<Token>, TokenError>)
    ensures r == Tokens(s)
  {
    r := TokenizeCleaned(CleanIds(s));
  }

  /** The body of the scanning loop at index `i`: the tokens emitted and
      the next index, or the error `str.index` or `int` raises. */
  method ScanAt(rest: string) returns (r: Result<(seq<Token>, nat), TokenError>)
    requires rest != []
    ensures r == Step(rest)
  {
    var ch := rest[0];
    if ch == '{' {
      var found := FindChar(rest, '}');
      if found.None? {
        return Err(UnclosedBrace);
      }
      var num := PyInt(rest[1..found.value]);
      if num.None? {
        return Err(BadNumber(rest[1..found.value]));
      }
      return Ok(([TNum(num.value)], found.value + 1));
    } else if Dropped(ch) {
      return Ok(([], 1));
    } else {
      return Ok(([TChar(ch)], 1));
    }
  }

  /** The scanning loop of `tokenize_ids` over the cleaned string. */
  method TokenizeCleaned(cleaned: string) returns (r: Result<seq<Token>, TokenError>)
    ensures r == TokensFrom(cleaned)
  {
    var tokens: seq<Token> := [];
    var i := 0;
    assert cleaned[i..] == cleaned;
    PrependNothing(TokensFrom(cleaned));
    while i < |cleaned|
      invariant 0 <= i <= |cleaned|
      invariant TokensFrom(cleaned) == PrependTokens(tokens, TokensFrom(cleaned[i..]))
      decreases |cleaned| - i
    {
      var step := ScanAt(cleaned[i..]);
      if step.Err? {
        return Err(step.error);
      }
      var (emitted, used) := step.value;
      var next := i + used;
      assert cleaned[i..][used..] == cleaned[next..];
      PrependAssoc(tokens, emitted, TokensFrom(cleaned[next..]));
      tokens := tokens + emitted;
      i := next;
    }
    assert cleaned[i..] == [];
    assert tokens + [] == tokens;
    return Ok(tokens);
  }

  // ---------------------------------------------------------------------
  // Token parser (build_decks.py:192-213, recursive_decompose_v2.py:121-146)
  // ---------------------------------------------------------------------

  /** `parse_next` with the cursor at `p`: the tree read and the new cursor.
      Past the end it reads nothing. */
  function ParseAt(ts: seq<Token>, p: nat): (r: (Option<IdsNode>, nat))
    requires p <= |ts|
    ensures p <= r.1 <= |ts|
    ensures r.0.None? <==> p == |ts|
    ensures r.0.Some? ==> p < r.1
    decreases |ts| - p, 0
  {
    if p == |ts| then (None, p)
    else
      match ts[p]
      case TNum(n) => (Some(Num(n)), p + 1)
      case TChar(c) =>
        if IsOperator(c) then
          var kids := ParseKidsAt(ts, p + 1, Arity(c));
          (Some(Op(c, kids.0)), kids.1)
        else (Some(Lit(c)), p + 1)
  }

  /** The `for _ in range(k)` loop: up to `k` operands, dropping the reads
      that found nothing. Fewer than `k` only when the tokens ran out. */
  function ParseKidsAt(ts: seq<Token>, p: nat, k: nat): (r: (seq<IdsNode>, nat))
    requires p <= |ts|
    ensures p <= r.1 <= |ts|
    ensures |r.0| <= k
    ensures |r.0| < k ==> r.1 == |ts|
    decreases |ts| - p, 1, k
  {
    if k == 0 then ([], p)
    else
      var first := ParseAt(ts, p);
      var rest := ParseKidsAt(ts, first.1, k - 1);
      if first.0.Some? then ([first.0.value] + rest.0, rest.1) else rest
  }

  /** `parse_ids`: the first tree of the token list, or the tokenizer's error. */
  function ParseOf(s: string): (r: Result<Option<IdsNode>, TokenError>)
    ensures r.Err? <==> Tokens(s).Err?
    ensures r.Ok? && r.value.Some? ==> ArityBounded(r.value.value)
  {
    match Tokens(s)
    case Err(e) => Err(e)
    case Ok(ts) =>
      ParseAtArity(ts, 0);
      Ok(ParseAt(ts, 0).0)
  }

  /** Every tree `parse_ids` returns respects the arities. */
  lemma ParseOfArity(s: string)
    ensures ParseOf(s).Ok? && ParseOf(s).value.Some? ==> ArityBounded(ParseOf(s).value.value)
  {
    if Tokens(s).Ok? {
      ParseAtArity(Tokens(s).value, 0);
    }
  }

  /** Emptiness: no tokens, no tree. */
  lemma ParseOfEmpty()
    ensures ParseOf("") == Ok(None)
  {
    assert CleanIds("") == "";
  }

  /** Every tree read from tokens respects the arities. */
  lemma {:induction false} ParseAtArity(ts: seq<Token>, p: nat)
    requires p <= |ts|
    ensures ParseAt(ts, p).0.Some? ==> ArityBounded(ParseAt(ts, p).0.value)
    decreases |ts| - p, 0
  {
    if p < |ts| && ts[p].TChar? && IsOperator(ts[p].c) {
      ParseKidsArity(ts, p + 1, Arity(ts[p].c));
    }
  }

  lemma {:induction false} ParseKidsArity(ts: seq<Token>, p: nat, k: nat)
    requires p <= |ts|
    ensures forall i :: 0 <= i < |ParseKidsAt(ts, p, k).0| ==> ArityBounded(ParseKidsAt(ts, p, k).0[i])
    decreases |ts| - p, 1, k
  {
    if k > 0 {
      var (c, q) := ParseAt(ts, p);
      ParseAtArity(ts, p);
      ParseKidsArity(ts, q, k - 1);
    }
  }

  /** The token sequence a tree was read from, operator first. */
  function Preorder(t: IdsNode): seq<Token>
    decreases t, 1
  {
    match t
    case Lit(c) => [TChar(c)]
    case Num(n) => [TNum(n)]
    case Op(op, ks) => [TChar(op)] + PreorderFrom(t, 0)
  }

  function PreorderFrom(t: IdsNode, i: nat): seq<Token>
    requires t.Op? && i <= |t.kids|
    decreases t, 0, |t.kids| - i
  {
    if i == |t.kids| then [] else Preorder(t.kids[i]) + PreorderFrom(t, i + 1)
  }

  /** The token sequences of a list of trees, one after the other. */
  function Flat(ks: seq<IdsNode>): seq<Token> {
    if ks == [] then [] else Preorder(ks[0]) + Flat(ks[1..])
  }

  lemma {:induction false} PreorderFromFlat(t: IdsNode, i: nat)
    requires t.Op? && i <= |t.kids|
    ensures PreorderFrom(t, i) == Flat(t.kids[i..])
    decreases |t.kids| - i
  {
    if i < |t.kids| {
      assert t.kids[i..][1..] == t.kids[i + 1..];
      PreorderFromFlat(t, i + 1);
    }
  }

  lemma PreorderOp(op: char, ks: seq<IdsNode>)
    ensures Preorder(Op(op, ks)) == [TChar(op)] + Flat(ks)
  {
    PreorderFromFlat(Op(op, ks), 0);
    assert ks[0..] == ks;
  }

  /** Parsing consumes exactly the tokens of the tree it returns. */
  lemma {:induction false} ParseAtConsumes(ts: seq<Token>, p: nat)
    requires p <= |ts|
    ensures ParseAt(ts, p).0.Some? ==> Preorder(ParseAt(ts, p).0.value) == ts[p..ParseAt(ts, p).1]
    decreases |ts| - p, 0
  {
    if p < |ts| && ts[p].TChar? && IsOperator(ts[p].c) {
      var op := ts[p].c;
      var (ks, e) := ParseKidsAt(ts, p + 1, Arity(op));
      ParseKidsConsume(ts, p + 1, Arity(op));
      PreorderOp(op, ks);
      assert ts[p..e] == [ts[p]] + ts[p + 1..e];
    }
  }

  lemma {:induction false} ParseKidsConsume(ts: seq<Token>, p: nat, k: nat)
    requires p <= |ts|
    ensures Flat(ParseKidsAt(ts, p, k).0) == ts[p..ParseKidsAt(ts, p, k).1]
    decreases |ts| - p, 1, k
  {
    if k > 0 {
      var (c, q) := ParseAt(ts, p);
      var (rest, e) := ParseKidsAt(ts, q, k - 1);
      ParseAtConsumes(ts, p);
      ParseKidsConsume(ts, q, k - 1);
      assert ts[p..e] == ts[p..q] + ts[q..e];
      if c.Some? {
        assert ([c.value] + rest)[1..] == rest;
      } else {
        assert q == p;
      }
    }
  }

  lemma {:induction false} FlatAppend(a: seq<IdsNode>, b: seq<IdsNode>)
    ensures Flat(a + b) == Flat(a) + Flat(b)
  {
    if a == [] {
      assert a + b == b;
    } else {
      assert (a + b)[0] == a[0];
      assert (a + b)[1..] == a[1..] + b;
      FlatAppend(a[1..], b);
    }
  }

  lemma SliceSplit(ts: seq<Token>, p: nat, a: seq<Token>, b: seq<Token>)
    requires p + |a| + |b| <= |ts| && ts[p..p + |a| + |b|] == a + b
    ensures ts[p..p + |a|] == a
    ensures ts[p + |a|..p + |a| + |b|] == b
  {
    assert ts[p..p + |a|] == (a + b)[..|a|];
    assert ts[p + |a|..p + |a| + |b|] == (a + b)[|a|..];
  }

  /** The converse: a complete tree is read back from its own tokens,
      whatever follows them. */
  lemma {:induction false} ParsePreorder(t: IdsNode, ts: seq<Token>, p: nat)
    requires Complete(t)
    requires p + |Preorder(t)| <= |ts| && ts[p..p + |Preorder(t)|] == Preorder(t)
    ensures ParseAt(ts, p) == (Some(t), p + |Preorder(t)|)
    decreases t, 1
  {
    match t
    case Lit(c) => assert ts[p] == Preorder(t)[0];
    case Num(n) => assert ts[p] == Preorder(t)[0];
    case Op(op, ks) =>
      PreorderOp(op, ks);
      SliceSplit(ts, p, [TChar(op)], Flat(ks));
      assert ts[p] == TChar(op);
      assert ks[0..] == ks;
      ParseFlat(t, 0, ts, p + 1);
  }

  /** The operands of a complete operator node are read back in order. */
  lemma {:induction false} ParseFlat(t: IdsNode, i: nat, ts: seq<Token>, p: nat)
    requires t.Op? && Complete(t) && i <= |t.kids|
    requires p + |Flat(t.kids[i..])| <= |ts| && ts[p..p + |Flat(t.kids[i..])|] == Flat(t.kids[i..])
    ensures ParseKidsAt(ts, p, |t.kids| - i) == (t.kids[i..], p + |Flat(t.kids[i..])|)
    decreases t, 0, |t.kids| - i
  {
    var ks := t.kids;
    if i < |ks| {
      var k := ks[i];
      var rest := ks[i + 1..];
      var q := p + |Preorder(k)|;
      assert ks[i..] == [k] + rest && Flat(ks[i..]) == Preorder(k) + Flat(rest) by {
        assert ks[i..][0] == k && ks[i..][1..] == rest;
      }
      assert ParseAt(ts, p) == (Some(k), q) && ParseKidsAt(ts, q, |ks| - (i + 1)) == (rest, q + |Flat(rest)|) by {
        SliceSplit(ts, p, Preorder(k), Flat(rest));
        ParsePreorder(k, ts, p);
        ParseFlat(t, i + 1, ts, q);
      }
      assert ParseKidsAt(ts, p, |ks| - i) == ([k] + rest, q + |Flat(rest)|);
    }
  }

  /** A component character that both parsers read as itself and that no
      cleaning step touches. */
  predicate Plain(c: char) {
    !IsOperator(c) && !IsSpace(c) && !Dropped(c) && !Skipped(c) && c != '$' && c != '^'
  }

  /** A complete tree over plain characters, without placeholders. */
  predicate PlainTree(t: IdsNode) {
    match t
    case Op(op, ks) => IsOperator(op) && |ks| == Arity(op) && forall i :: 0 <= i < |ks| ==> PlainTree(ks[i])
    case Lit(c) => Plain(c)
    case Num(_) => false
  }

  /** The IDS string of a tree: operator, then its operands' strings. */
  function Text(t: IdsNode): string
    decreases t, 1
  {
    match t
    case Lit(c) => [c]
    case Num(n) => "{" + IntToString(n) + "}"
    case Op(op, ks) => [op] + TextFrom(t, 0)
  }

  function TextFrom(t: IdsNode, i: nat): string
    requires t.Op? && i <= |t.kids|
    decreases t, 0, |t.kids| - i
  {
    if i == |t.kids| then [] else Text(t.kids[i]) + TextFrom(t, i + 1)
  }

  lemma {:induction false} CharTokensAppend(a: string, b: string)
    ensures CharTokens(a + b) == CharTokens(a) + CharTokens(b)
  {
    if a == [] {
      assert a + b == b;
    } else {
      assert (a + b)[0] == a[0];
      assert (a + b)[1..] == a[1..] + b;
      CharTokensAppend(a[1..], b);
    }
  }

  /** The string of a plain tree is made of operators and plain characters,
      and its character tokens are the tree's preorder. */
  lemma {:induction false} TextOfPlain(t: IdsNode)
    requires PlainTree(t)
    ensures Complete(t)
    ensures Text(t) != []
    ensures PlainText(Text(t))
    ensures CharTokens(Text(t)) == Preorder(t)
    decreases t, 1
  {
    match t
    case Lit(c) =>
    case Op(op, ks) =>
      TextFromOfPlain(t, 0);
      assert Text(t) == [op] + TextFrom(t, 0);
      CharTokensAppend([op], TextFrom(t, 0));
      assert CharTokens([op]) == [TChar(op)];
  }

  lemma {:induction false} TextFromOfPlain(t: IdsNode, i: nat)
    requires t.Op? && PlainTree(t) && i <= |t.kids|
    ensures forall j :: i <= j < |t.kids| ==> Complete(t.kids[j])
    ensures PlainText(TextFrom(t, i))
    ensures CharTokens(TextFrom(t, i)) == PreorderFrom(t, i)
    decreases t, 0, |t.kids| - i
  {
    if i < |t.kids| {
      TextOfPlain(t.kids[i]);
      TextFromOfPlain(t, i + 1);
      CharTokensAppend(Text(t.kids[i]), TextFrom(t, i + 1));
      var a, b := Text(t.kids[i]), TextFrom(t, i + 1);
      forall j | 0 <= j < |a + b| ensures IsOperator((a + b)[j]) || Plain((a + b)[j]) {
        if j >= |a| { assert (a + b)[j] == b[j - |a|]; }
      }
    }
  }

  /** Made of operators and plain characters only. */
  predicate PlainText(s: string) {
    forall i :: 0 <= i < |s| ==> IsOperator(s[i]) || Plain(s[i])
  }

  /** Such a string is left alone by cleaning and yields one token per
      character. */
  lemma TokensOfPlainText(s: string)
    requires PlainText(s)
    ensures Tokens(s) == Ok(CharTokens(s))
  {
    PlainTextChars(s);
    CleanIdsOfPlain(s);
    TokensWithoutBraces(s);
  }

  lemma PlainTextChars(s: string)
    requires PlainText(s)
    ensures '$' !in s && '^' !in s && '{' !in s
    ensures s == [] || (!IsSpace(s[0]) && !IsSpace(s[|s| - 1]))
  {
  }

  /** Round trip: the string of a plain tree parses back to that tree. */
  lemma ParseOfText(t: IdsNode)
    requires PlainTree(t)
    ensures ParseOf(Text(t)) == Ok(Some(t))
  {
    var s := Text(t);
    var ts := Preorder(t);
    assert Tokens(s) == Ok(ts) by {
      TextOfPlain(t);
      TokensOfPlainText(s);
    }
    assert ParseAt(ts, 0).0 == Some(t) by {
      TextOfPlain(t);
      assert ts[0..|ts|] == ts;
      ParsePreorder(t, ts, 0);
    }
  }

  /** A ternary operator with a single plain operand keeps that operand and
      raises nothing. */
  lemma ParseTruncated(op: char, a: char)
    requires IsOperator(op) && Arity(op) == 3 && Plain(a)
    ensures ParseOf([op, a]) == Ok(Some(Op(op, [Lit(a)])))
  {
    var s := [op, a];
    var ts := [TChar(op), TChar(a)];
    assert PlainText(s);
    assert CharTokens(s) == ts by {
      assert s[1..] == [a] && s[1..][1..] == [];
      assert CharTokens(s[1..]) == [TChar(a)];
    }
    TokensOfPlainText(s);
    assert ParseAt(ts, 1) == (Some(Lit(a)), 2);
    assert ParseKidsAt(ts, 2, 1) == ([], 2);
    assert ParseKidsAt(ts, 2, 2) == ([], 2);
    assert [Lit(a)] + [] == [Lit(a)];
    assert ParseKidsAt(ts, 1, 3) == ([Lit(a)], 2);
  }

  /** The cursor of `parse_ids`: the token list and the next position. */
  class TokenParser {
    const tokens: seq<Token>
    var pos: nat

    constructor (ts: seq<Token>)
      ensures tokens == ts && pos == 0
    {
      tokens := ts;
      pos := 0;
    }

    /** `parse_next`: reads one tree and advances the cursor past it. */
    method ParseNext() returns (r: Option<IdsNode>)
      requires pos <= |tokens|
      modifies this
      ensures (r, pos) == ParseAt(tokens, old(pos))
      decreases |tokens| - pos
    {
      if pos >= |tokens| {
        return None;
      }
      var tok := tokens[pos];
      pos := pos + 1;
      match tok
      case TNum(n) => r := Some(Num(n));
      case TChar(c) =>
        if IsOperator(c) {
          var n := Arity(c);
          ghost var start := pos;
          var children: seq<IdsNode> := [];
          var i := 0;
          while i < n
            invariant 0 <= i <= n
            invariant start <= pos <= |tokens|
            invariant ParseKidsAt(tokens, start, n).0 == children + ParseKidsAt(tokens, pos, n - i).0
            invariant ParseKidsAt(tokens, start, n).1 == ParseKidsAt(tokens, pos, n - i).1
          {
            ghost var before := pos;
            var child := ParseNext();
            ghost var rest := ParseKidsAt(tokens, pos, n - i - 1);
            assert ParseKidsAt(tokens, before, n - i) == (if child.Some? then [child.value] + rest.0 else rest.0, rest.1);
            if child.Some? {
              assert children + ([child.value] + rest.0) == children + [child.value] + rest.0;
              children := children + [child.value];
            }
            i := i + 1;
          }
          assert children + [] == children;
          r := Some(Op(c, children));
        } else {
          r := Some(Lit(c));
        }
    }
  }

  /** `parse_ids`: tokenise, then read one tree from position 0. */
  method ParseIds(s: string) returns (r: Result<Option<IdsNode>, TokenError>)
    ensures r == ParseOf(s)
  {
    var tokens := Tokenize(s);
    if tokens.Err? {
      return Err(tokens.error);
    }
    var parser := new TokenParser(tokens.value);
    var tree := parser.ParseNext();
    return Ok(tree);
  }

  // ---------------------------------------------------------------------
  // Character parser (recursive_decompose.py:57-83, build_mapping.py:151-190)
  // ---------------------------------------------------------------------

  /** Characters the character parser steps over: `{}()0123456789` and blanks. */
  predicate Skipped(c: char) {
    c == '{' || c == '}' || c == '(' || c == ')' || IsDigit(c)
    || c == ' ' || c == '\t' || c == '\r' || c == '\n'
  }

  /** The arity as build_mapping.py spells it out, branch by branch. */
  function MappingArity(op: char): nat {
    if op in "⿰⿱⿴⿵⿶⿷⿸⿹⿺⿻⿼⿽⿾⿿" then 2
    else if op in "⿲⿳" then 3
    else if op == '〾' then 1
    else 2
  }

  /** Both spellings of the arity agree on every operator. */
  lemma MappingArityAgrees(op: char)
    requires IsOperator(op)
    ensures MappingArity(op) == Arity(op)
  {
  }

  /** `parse_next` of the character parser with the cursor at `p`. */
  function CharParseAt(cs: string, p: nat): (r: (Option<IdsNode>, nat))
    requires p <= |cs|
    ensures p <= r.1 <= |cs|
    ensures r.0.None? ==> r.1 == |cs|
    decreases |cs| - p, 0
  {
    if p == |cs| then (None, p)
    else
      var c := cs[p];
      if IsOperator(c) then
        var kids := CharParseKidsAt(cs, p + 1, Arity(c));
        (Some(Op(c, kids.0)), kids.1)
      else if Skipped(c) then CharParseAt(cs, p + 1)
      else (Some(Lit(c)), p + 1)
  }

  function CharParseKidsAt(cs: string, p: nat, k: nat): (r: (seq<IdsNode>, nat))
    requires p <= |cs|
    ensures p <= r.1 <= |cs|
    ensures |r.0| <= k
    ensures |r.0| < k ==> r.1 == |cs|
    decreases |cs| - p, 1, k
  {
    if k == 0 then ([], p)
    else
      var first := CharParseAt(cs, p);
      var rest := CharParseKidsAt(cs, first.1, k - 1);
      if first.0.Some? then ([first.0.value] + rest.0, rest.1) else rest
  }

  /** `parse_ids` of the character generation; it never raises. */
  function CharParseOf(s: string): (r: Option<IdsNode>)
    ensures r == ParseAt(Kept(CleanIds(s)), 0).0
    ensures r.Some? ==> ArityBounded(r.value)
  {
    CharParseIsTokenParse(CleanIds(s), 0);
    assert CleanIds(s)[..0] == [];
    ParseAtArity(Kept(CleanIds(s)), 0);
    CharParseAt(CleanIds(s), 0).0
  }

  /** The characters the character parser does not skip, as tokens. */
  function Kept(cs: string): (r: seq<Token>)
    ensures |r| <= |cs|
  {
    if cs == [] then [] else (if Skipped(cs[0]) then [] else [TChar(cs[0])]) + Kept(cs[1..])
  }

  lemma {:induction false} KeptAppend(a: string, b: string)
    ensures Kept(a + b) == Kept(a) + Kept(b)
  {
    if a == [] {
      assert a + b == b;
    } else {
      assert (a + b)[0] == a[0];
      assert (a + b)[1..] == a[1..] + b;
      KeptAppend(a[1..], b);
    }
  }

  lemma KeptSplit(cs: string, p: nat)
    requires p < |cs|
    ensures Kept(cs[..p + 1]) == Kept(cs[..p]) + (if Skipped(cs[p]) then [] else [TChar(cs[p])])
    ensures |Kept(cs[..p])| + (if Skipped(cs[p]) then 0 else 1) <= |Kept(cs)|
    ensures !Skipped(cs[p]) ==> Kept(cs)[|Kept(cs[..p])|] == TChar(cs[p])
  {
    assert cs[..p + 1] == cs[..p] + [cs[p]];
    KeptAppend(cs[..p], [cs[p]]);
    assert cs == cs[..p + 1] + cs[p + 1..];
    KeptAppend(cs[..p + 1], cs[p + 1..]);
  }

  lemma KeptLength(cs: string, p: nat)
    requires p <= |cs|
    ensures |Kept(cs[..p])| <= |Kept(cs)|
    ensures p == |cs| ==> |Kept(cs[..p])| == |Kept(cs)|
  {
    assert cs == cs[..p] + cs[p..];
    KeptAppend(cs[..p], cs[p..]);
  }

  /** The number of kept characters before position `p`: the token
      position that corresponds to character position `p`. */
  function KeptBefore(cs: string, p: nat): (n: nat)
    requires p <= |cs|
    ensures n <= |Kept(cs)|
    ensures p == |cs| ==> n == |Kept(cs)|
  {
    KeptLength(cs, p);
    |Kept(cs[..p])|
  }

  /** The character parser reads exactly what the token parser reads from
      the characters it does not skip: skipping is the only difference
      between the generations, so a `{N}` placeholder leaves no node and
      bare digits vanish. */
  lemma {:induction false} CharParseIsTokenParse(cs: string, p: nat)
    requires p <= |cs|
    ensures CharParseAt(cs, p).0 == ParseAt(Kept(cs), KeptBefore(cs, p)).0
    ensures KeptBefore(cs, CharParseAt(cs, p).1) == ParseAt(Kept(cs), KeptBefore(cs, p)).1
    decreases |cs| - p, 0
  {
    var ts := Kept(cs);
    var j := KeptBefore(cs, p);
    if p == |cs| {
    } else {
      KeptSplit(cs, p);
      var c := cs[p];
      if IsOperator(c) {
        assert !Skipped(c);
        assert ts[j] == TChar(c);
        CharParseKidsIsTokenParse(cs, p + 1, Arity(c));
      } else if Skipped(c) {
        CharParseIsTokenParse(cs, p + 1);
      } else {
        assert ts[j] == TChar(c);
      }
    }
  }

  lemma {:induction false} CharParseKidsIsTokenParse(cs: string, p: nat, k: nat)
    requires p <= |cs|
    ensures CharParseKidsAt(cs, p, k).0 == ParseKidsAt(Kept(cs), KeptBefore(cs, p), k).0
    ensures KeptBefore(cs, CharParseKidsAt(cs, p, k).1) == ParseKidsAt(Kept(cs), KeptBefore(cs, p), k).1
    decreases |cs| - p, 1, k
  {
    if k > 0 {
      var (c, q) := CharParseAt(cs, p);
      CharParseIsTokenParse(cs, p);
      CharParseKidsIsTokenParse(cs, q, k - 1);
    }
  }

  /** Skipped characters are stepped over one by one. */
  lemma {:induction false} CharParseSkips(cs: string, p: nat, q: nat)
    requires p <= q <= |cs|
    requires forall i :: p <= i < q ==> Skipped(cs[i]) && !IsOperator(cs[i])
    ensures CharParseAt(cs, p) == CharParseAt(cs, q)
    decreases q - p
  {
    if p < q {
      CharParseSkips(cs, p + 1, q);
    }
  }

  /** A `{N}` placeholder is invisible to the character parser: an operator
      followed by a placeholder and one plain character reads as an
      operator with that character as its only operand. */
  lemma CharParsePlaceholder(op: char, d: string, a: char)
    requires IsOperator(op) && Arity(op) == 2 && Plain(a)
    requires forall i :: 0 <= i < |d| ==> IsDigit(d[i])
    ensures CharParseAt([op] + "{" + d + "}" + [a], 0).0 == Some(Op(op, [Lit(a)]))
  {
    var cs := [op] + "{" + d + "}" + [a];
    var last := |cs| - 1;
    assert cs[last] == a;
    forall i | 1 <= i < last ensures Skipped(cs[i]) && !IsOperator(cs[i]) {
      if 1 < i < last - 1 { assert cs[i] == d[i - 2]; }
    }
    CharParseSkips(cs, 1, last);
    assert CharParseAt(cs, 1) == (Some(Lit(a)), |cs|);
    assert CharParseKidsAt(cs, |cs|, 1) == ([], |cs|);
    assert [Lit(a)] + [] == [Lit(a)];
    assert CharParseKidsAt(cs, 1, 2) == ([Lit(a)], |cs|);
  }

  /** The token parser reads the same string with the placeholder as an
      operand of its own. */
  lemma TokenParsePlaceholder(op: char, n: int, a: char)
    requires IsOperator(op) && Arity(op) == 2 && Plain(a)
    ensures ParseAt([TChar(op), TNum(n), TChar(a)], 0).0 == Some(Op(op, [Num(n), Lit(a)]))
  {
    var ts := [TChar(op), TNum(n), TChar(a)];
    var t := Op(op, [Num(n), Lit(a)]);
    assert Preorder(t) == ts by {
      assert PreorderFrom(t, 2) == [];
      assert PreorderFrom(t, 1) == [TChar(a)];
      assert PreorderFrom(t, 0) == [TNum(n), TChar(a)];
    }
    assert ts[0..3] == ts;
    ParsePreorder(t, ts, 0);
  }

  /** The cursor of the character parser. */
  class CharParser {
    const chars: string
    var pos: nat

    constructor (cs: string)
      ensures chars == cs && pos == 0
    {
      chars := cs;
      pos := 0;
    }

    /** `parse_next`: skipped characters are stepped over by reading again. */
    method ParseNext() returns (r: Option<IdsNode>)
      requires pos <= |chars|
      modifies this
      ensures (r, pos) == CharParseAt(chars, old(pos))
      decreases |chars| - pos
    {
      if pos >= |chars| {
        return None;
      }
      var ch := chars[pos];
      pos := pos + 1;
      if IsOperator(ch) {
        var n := Arity(ch);
        ghost var start := pos;
        ghost var whole := CharParseKidsAt(chars, start, n);
        var children: seq<IdsNode> := [];
        assert children + whole.0 == whole.0;
        var i := 0;
        while i < n
          invariant 0 <= i <= n
          invariant start <= pos <= |chars|
          invariant whole == (children + CharParseKidsAt(chars, pos, n - i).0, CharParseKidsAt(chars, pos, n - i).1)
        {
          ghost var before := pos;
          var child := ParseNext();
          ghost var rest := CharParseKidsAt(chars, pos, n - i - 1);
          assert CharParseKidsAt(chars, before, n - i) == (if child.Some? then [child.value] + rest.0 else rest.0, rest.1);
          if child.Some? {
            assert children + ([child.value] + rest.0) == children + [child.value] + rest.0;
            children := children + [child.value];
          }
          i := i + 1;
        }
        assert children + [] == children;
        r := Some(Op(ch, children));
      } else if Skipped(ch) {
        r := ParseNext();
      } else {
        r := Some(Lit(ch));
      }
    }
  }

  /** `parse_ids` of the character generation. */
  method CharParseIds(s: string) returns (r: Option<IdsNode>)
    ensures r == CharParseOf(s)
  {
    var cleaned := CleanIds(s);
    var parser := new CharParser(cleaned);
    r := parser.ParseNext();
  }

  // ---------------------------------------------------------------------
  // Numbered-component lines of IDS.TXT
  // ---------------------------------------------------------------------

  /** What a `# {N} …` comment line says about placeholder N. */
  datatype NumberedDef = NumberedDef(description: string, expansion: Option<string>)

  /** Splits the matched text (already stripped) on tabs: the description is
      the first field, the expansion the last one, if there are two or more
      fields and the last is not the full-width question mark. */
  function DescriptionFields(desc: string): (r: NumberedDef)
    ensures r.expansion.Some? ==> Contains(desc, "\t") && r.expansion.value != "？"
    ensures !Contains(desc, "\t") ==> r == NumberedDef(Strip(desc), None)
  {
    var parts := Split(desc, "\t");
    var description := Strip(parts[0]);
    var expansion := if |parts| > 1 then Some(Strip(parts[|parts| - 1])) else None;
    assert |parts| > 1 ==> Contains(desc, "\t") by {
      if !Contains(desc, "\t") { SplitNoSep(desc, "\t"); }
    }
    if !Contains(desc, "\t") then SplitNoSep(desc, "\t"); NumberedDef(description, None)
    else NumberedDef(description, if expansion == Some("？") then None else expansion)
  }

  /** Number of leading whitespace characters. */
  function SpaceRun(s: string): (n: nat)
    ensures n <= |s|
    ensures forall i :: 0 <= i < n ==> IsSpace(s[i])
    ensures n < |s| ==> !IsSpace(s[n])
  {
    |s| - |LStrip(s)|
  }

  /** Number of leading ASCII digits. */
  function DigitRun(s: string): (n: nat)
    ensures n <= |s|
    ensures forall i :: 0 <= i < n ==> IsDigit(s[i])
    ensures n < |s| ==> !IsDigit(s[n])
  {
    if s == [] || !IsDigit(s[0]) then 0 else 1 + DigitRun(s[1..])
  }

  /** The characters before the first newline: what `.+` can match. */
  function LineText(s: string): (r: string)
    ensures |r| <= |s| && r == s[..|r|] && '\n' !in r
  {
    if s == [] || s[0] == '\n' then [] else [s[0]] + LineText(s[1..])
  }

  /** `re.match(r'^#\s+\{(\d+)\}\s+(.+)', line)`: the number and the text
      of group 2 after `strip()`. When the whitespace after `}` runs to the
      end, backtracking lets `.+` take whitespace only, which strips to "". */
  function MatchNumbered(line: string): Option<(nat, string)> {
    if line == [] || line[0] != '#' then None else MatchAfterHash(line[1..])
  }

  /** `\s+\{`, then the rest. */
  function MatchAfterHash(a: string): Option<(nat, string)> {
    var w := SpaceRun(a);
    if w == 0 || w == |a| || a[w] != '{' then None else MatchNumber(a[w + 1..])
  }

  /** `(\d+)\}`, then the rest. */
  function MatchNumber(c: string): Option<(nat, string)> {
    var d := DigitRun(c);
    if d == 0 || d == |c| || c[d] != '}' then None
    else
      match MatchText(c[d + 1..])
      case None => None
      case Some(text) => Some((DigitsValue(c[..d]), text))
  }

  /** `\s+(.+)`, with group 2 stripped. */
  function MatchText(e: string): Option<string> {
    var w := SpaceRun(e);
    if w == 0 then None
    else if w < |e| then Some(Strip(LineText(e[w..])))
    else if exists j :: 1 <= j < |e| && e[j] != '\n' then Some("")
    else None
  }

  /** A numbered-component line, or None for any other line. */
  function NumberedLine(line: string): Option<(nat, NumberedDef)> {
    match MatchNumbered(line)
    case None => None
    case Some((n, desc)) => Some((n, DescriptionFields(desc)))
  }

  lemma {:induction false} SpaceRunOf(w: string, rest: string)
    requires forall i :: 0 <= i < |w| ==> IsSpace(w[i])
    requires rest == [] || !IsSpace(rest[0])
    ensures SpaceRun(w + rest) == |w|
  {
    var s := w + rest;
    forall i | 0 <= i < |w| ensures IsSpace(s[i]) { assert s[i] == w[i]; }
    if rest != [] { assert s[|w|] == rest[0]; }
  }

  lemma {:induction false} DigitRunOf(d: string, rest: string)
    requires forall i :: 0 <= i < |d| ==> IsDigit(d[i])
    requires rest == [] || !IsDigit(rest[0])
    ensures DigitRun(d + rest) == |d|
  {
    var s := d + rest;
    forall i | 0 <= i < |d| ensures IsDigit(s[i]) { assert s[i] == d[i]; }
    if rest != [] { assert s[|d|] == rest[0]; }
  }

  lemma {:induction false} LineTextOf(text: string, tail: string)
    requires '\n' !in text
    requires tail == [] || tail[0] == '\n'
    ensures LineText(text + tail) == text
  {
    if text == [] {
      assert text + tail == tail;
    } else {
      assert (text + tail)[1..] == text[1..] + tail;
      assert '\n' !in text[1..] by { assert forall x :: x in text[1..] ==> x in text; }
      LineTextOf(text[1..], tail);
      assert text == [text[0]] + text[1..];
    }
  }

  /** Whitespace, then a text up to the end of the line: group 2 is that
      text, stripped. */
  lemma MatchTextOf(w: string, text: string, tail: string)
    requires w != [] && forall i :: 0 <= i < |w| ==> IsSpace(w[i])
    requires text != [] && !IsSpace(text[0]) && '\n' !in text
    requires tail == [] || tail[0] == '\n'
    ensures MatchText(w + (text + tail)) == Some(Strip(text))
  {
    SpaceRunOf(w, text + tail);
    assert (w + (text + tail))[|w|..] == text + tail;
    LineTextOf(text, tail);
  }

  /** Digits and a closing brace, then the rest. */
  lemma MatchNumberOf(d: string, e: string)
    requires d != [] && forall i :: 0 <= i < |d| ==> IsDigit(d[i])
    ensures MatchNumber(d + ("}" + e)) == match MatchText(e)
      case None => None
      case Some(text) => Some((DigitsValue(d), text))
  {
    var c := d + ("}" + e);
    DigitRunOf(d, "}" + e);
    assert c[|d|] == '}';
    assert c[..|d|] == d;
    SliceAfter(d, "}", e);
  }

  /** Whitespace and an opening brace, then the rest. */
  lemma MatchAfterHashOf(w: string, c: string)
    requires w != [] && forall i :: 0 <= i < |w| ==> IsSpace(w[i])
    ensures MatchAfterHash(w + ("{" + c)) == MatchNumber(c)
  {
    var a := w + ("{" + c);
    assert SpaceRun(a) == |w| by { SpaceRunOf(w, "{" + c); }
    assert a[|w|] == '{';
    assert a[|w| + 1..] == c by { SliceAfter(w, "{", c); }
  }

  /** A line `#`, whitespace, `{digits}`, whitespace and a text defines the
      placeholder numbered by those digits with that text, stripped. */
  lemma MatchNumberedLine(w1: string, d: string, w2: string, text: string, tail: string)
    requires w1 != [] && forall i :: 0 <= i < |w1| ==> IsSpace(w1[i])
    requires d != [] && forall i :: 0 <= i < |d| ==> IsDigit(d[i])
    requires w2 != [] && forall i :: 0 <= i < |w2| ==> IsSpace(w2[i])
    requires text != [] && !IsSpace(text[0]) && '\n' !in text
    requires tail == [] || tail[0] == '\n'
    ensures MatchNumbered("#" + (w1 + ("{" + (d + ("}" + (w2 + (text + tail)))))))
      == Some((DigitsValue(d), Strip(text)))
  {
    var e := w2 + (text + tail);
    var a := w1 + ("{" + (d + ("}" + e)));
    MatchTextOf(w2, text, tail);
    MatchNumberOf(d, e);
    MatchAfterHashOf(w1, d + ("}" + e));
    assert ("#" + a)[1..] == a;
  }

  lemma SliceAfter(x: string, y: string, z: string)
    ensures (x + (y + z))[|x| + |y|..] == z
  {
  }

  /** The text after the number: description, tab, expansion. The expansion
      is dropped when it is the full-width question mark. */
  lemma DescriptionAndExpansion(a: string, b: string)
    requires '\t' !in a && '\t' !in b
    ensures DescriptionFields(a + "\t" + b)
      == NumberedDef(Strip(a), if Strip(b) == "？" then None else Some(Strip(b)))
  {
    var s := a + "\t" + b;
    assert OccursAt(s, "\t", |a|) by { assert s[|a|..|a| + 1] == "\t"; }
    forall j | 0 <= j < |a| ensures !OccursAt(s, "\t", j) {
      assert s[j] == a[j] && s[j] == s[j..j + 1][0];
    }
    FindAt(s, "\t", |a|);
    assert s[..|a|] == a;
    assert s[|a| + 1..] == b;
    ContainsChar(b, '\t');
    SplitNoSep(b, "\t");
    assert Split(s, "\t") == [a, b];
    ContainsChar(s, '\t');
  }

  /** Reading the comment lines in order: a later definition of the same
      number replaces an earlier one. */
  function NumberedMap(lines: seq<string>): map<nat, NumberedDef> {
    if lines == [] then map[]
    else
      var m := NumberedMap(lines[..|lines| - 1]);
      match NumberedLine(lines[|lines| - 1])
      case None => m
      case Some((n, def)) => m[n := def]
  }

  /** The load loop over the lines of IDS.TXT. */
  method LoadNumbered(lines: seq<string>) returns (m: map<nat, NumberedDef>)
    ensures m == NumberedMap(lines)
    ensures forall n :: n in m ==> exists i :: 0 <= i < |lines| && NumberedLine(lines[i]) == Some((n, m[n]))
  {
    m := map[];
    var i := 0;
    while i < |lines|
      invariant 0 <= i <= |lines|
      invariant m == NumberedMap(lines[..i])
      invariant forall n :: n in m ==> exists j :: 0 <= j < i && NumberedLine(lines[j]) == Some((n, m[n]))
    {
      assert lines[..i + 1][..i] == lines[..i];
      var parsed := NumberedLine(lines[i]);
      if parsed.Some? {
        m := m[parsed.value.0 := parsed.value.1];
      }
      i := i + 1;
    }
    assert lines[..i] == lines;
  }

  // ---------------------------------------------------------------------
  // IDS.TXT data lines
  // ---------------------------------------------------------------------

  /** One line of IDS.TXT: `code`, tab, character, tab, one or more IDS
      strings separated by tabs. Comment lines (starting with `#`), blank
      lines and lines with fewer than three fields carry nothing. */
  function IdsLine(line: string): (r: Option<(string, seq<string>)>)
    ensures r.Some? ==> !StartsWith(line, "#") && Strip(line) != []
    ensures r.Some? ==> |r.value.1| >= 1 && !Contains(r.value.0, "\t")
    ensures r.Some? ==> forall i :: 0 <= i < |r.value.1| ==> !Contains(r.value.1[i], "\t")
  {
    if StartsWith(line, "#") || Strip(line) == [] then None
    else
      var parts := Split(Strip(line), "\t");
      if |parts| >= 3 then Some((parts[1], parts[2..])) else None
  }

  /** A well-formed data line maps its character to its IDS strings. */
  lemma IdsLineFields(code: string, ch: string, ids: seq<string>)
    requires code != [] && code[0] != '#' && !IsSpace(code[0])
    requires '\t' !in code && '\t' !in ch
    requires |ids| >= 1 && forall i :: 0 <= i < |ids| ==> '\t' !in ids[i]
    requires ids[|ids| - 1] != [] && !IsSpace(ids[|ids| - 1][|ids[|ids| - 1]| - 1])
    ensures IdsLine(code + "\t" + ch + "\t" + Join(ids, "\t")) == Some((ch, ids))
  {
    var parts := [code, ch] + ids;
    assert parts[1..] == [ch] + ids;
    assert parts[1..][1..] == ids;
    assert Join(parts, "\t") == code + "\t" + ch + "\t" + Join(ids, "\t");
    assert parts[|parts| - 1] == ids[|ids| - 1];
    forall i | 0 <= i < |parts| ensures '\t' !in parts[i] {
      if i >= 2 { assert parts[i] == ids[i - 2]; }
    }
    IdsLineOfParts(parts);
    assert parts[2..] == ids;
  }

  lemma IdsLineOfParts(parts: seq<string>)
    requires |parts| >= 3 && forall i :: 0 <= i < |parts| ==> '\t' !in parts[i]
    requires parts[0] != [] && parts[0][0] != '#' && !IsSpace(parts[0][0])
    requires parts[|parts| - 1] != [] && !IsSpace(parts[|parts| - 1][|parts[|parts| - 1]| - 1])
    ensures IdsLine(Join(parts, "\t")) == Some((parts[1], parts[2..]))
  {
    var line := Join(parts, "\t");
    JoinLast(parts, "\t");
    assert line == parts[0] + "\t" + Join(parts[1..], "\t");
    assert line[0] == parts[0][0];
    StripOfStripped(line);
    SplitJoinChar(parts, '\t');
  }

  /** The lines of IDS.TXT, each parsed. */
  function IdsRecords(lines: seq<string>): (r: seq<Option<(string, seq<string>)>>)
    ensures |r| == |lines| && forall i :: 0 <= i < |lines| ==> r[i] == IdsLine(lines[i])
  {
    seq(|lines|, i requires 0 <= i < |lines| => IdsLine(lines[i]))
  }

  /** Reading IDS.TXT line by line: a later line for the same character
      replaces an earlier one. */
  function IdsMap(lines: seq<string>): map<string, seq<string>> {
    Collect(IdsRecords(lines))
  }

  /** Every IDS list holds at least one string. */
  predicate IdsListsNonEmpty(ids: map<string, seq<string>>) {
    forall c :: c in ids ==> ids[c] != []
  }

  /** Every character read from IDS.TXT has at least one IDS string, so
      `ids_map[char][0]` never fails. */
  lemma IdsMapNonEmpty(lines: seq<string>, c: string)
    requires c in IdsMap(lines)
    ensures IdsMap(lines)[c] != []
  {
    var rs := IdsRecords(lines);
    CollectLast(rs, c);
    var i :| 0 <= i < |rs| && RecordFor(rs[i], c) && rs[i].value.1 == Collect(rs)[c];
    assert rs[i] == IdsLine(lines[i]);
  }

  /** The load loop over the lines of IDS.TXT. */
  method LoadIdsMap(lines: seq<string>) returns (m: map<string, seq<string>>)
    ensures m == IdsMap(lines)
  {
    m := map[];
    var i := 0;
    while i < |lines|
      invariant 0 <= i <= |lines|
      invariant m == Collect(IdsRecords(lines)[..i])
    {
      assert IdsRecords(lines)[..i + 1][..i] == IdsRecords(lines)[..i];
      var parsed := IdsLine(lines[i]);
      if parsed.Some? {
        m := m[parsed.value.0 := parsed.value.1];
      }
      i := i + 1;
    }
    assert IdsRecords(lines)[..i] == IdsRecords(lines);
  }
}
