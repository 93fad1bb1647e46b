/** What the tokenizer promises, proved about TokenizerSpec. */
module TokenizerProps {

  import opened Wrappers
  import opened Tokens
  import opened TokenizeErrors
  import opened TokenizerSpec

  // ---------------------------------------------------------------------------
  // inc_tokens_offsets

  /** A token with every offset, at every depth, forgotten: what is left is the
      variant, the value and the nesting. */
  function Unplaced(t: Token): Token
    decreases t
  {
    match t
    case Text(_, _, v) => Text(0, 0, v)
    case Other(_, _, v) => Other(0, 0, v)
    case Parentheses(_, _, ts) => Parentheses(0, 0, UnplacedAll(ts))
    case SquareBrackets(_, _, ts) => SquareBrackets(0, 0, UnplacedAll(ts))
    case CurlyBrackets(_, _, ts) => CurlyBrackets(0, 0, UnplacedAll(ts))
  }

  function UnplacedAll(ts: seq<Token>): seq<Token>
    decreases ts
  {
    seq(|ts|, n requires 0 <= n < |ts| => Unplaced(ts[n]))
  }

  /** Shifting adds `k` to the outer offsets of every token of the list. */
  lemma ShiftAddsOffset(ts: seq<Token>, k: nat)
    ensures |Shift(ts, k)| == |ts|
    ensures forall n :: 0 <= n < |ts| ==>
      Shift(ts, k)[n].begin == ts[n].begin + k && Shift(ts, k)[n].end == ts[n].end + k
  {
  }

  /** Shifting leaves variants, values, lengths and nesting unchanged. */
  lemma {:induction false} ShiftKeepsShape(ts: seq<Token>, k: nat)
    ensures UnplacedAll(Shift(ts, k)) == UnplacedAll(ts)
    decreases ts
  {
    forall n | 0 <= n < |ts|
      ensures Unplaced(Shift(ts, k)[n]) == Unplaced(ts[n])
    {
      ShiftTokenKeepsShape(ts[n], k);
    }
  }

  lemma {:induction false} ShiftTokenKeepsShape(t: Token, k: nat)
    ensures Unplaced(ShiftToken(t, k)) == Unplaced(t)
    decreases t
  {
    match t
    case Text(_, _, _) =>
    case Other(_, _, _) =>
    case Parentheses(_, _, ts) => ShiftKeepsShape(ts, k);
    case SquareBrackets(_, _, ts) => ShiftKeepsShape(ts, k);
    case CurlyBrackets(_, _, ts) => ShiftKeepsShape(ts, k);
  }

  /** Two shifts are one shift by the sum. */
  lemma {:induction false} ShiftCompose(ts: seq<Token>, a: nat, b: nat)
    ensures Shift(Shift(ts, a), b) == Shift(ts, a + b)
    decreases ts
  {
    forall n | 0 <= n < |ts|
      ensures Shift(Shift(ts, a), b)[n] == Shift(ts, a + b)[n]
    {
      ShiftTokenCompose(ts[n], a, b);
    }
  }

  lemma {:induction false} ShiftTokenCompose(t: Token, a: nat, b: nat)
    ensures ShiftToken(ShiftToken(t, a), b) == ShiftToken(t, a + b)
    decreases t
  {
    match t
    case Text(_, _, _) =>
    case Other(_, _, _) =>
    case Parentheses(_, _, ts) => ShiftCompose(ts, a, b);
    case SquareBrackets(_, _, ts) => ShiftCompose(ts, a, b);
    case CurlyBrackets(_, _, ts) => ShiftCompose(ts, a, b);
  }

  /** Shifting by zero changes nothing. */
  lemma {:induction false} ShiftZero(ts: seq<Token>)
    ensures Shift(ts, 0) == ts
    decreases ts
  {
    forall n | 0 <= n < |ts|
      ensures Shift(ts, 0)[n] == ts[n]
    {
      ShiftTokenZero(ts[n]);
    }
  }

  lemma {:induction false} ShiftTokenZero(t: Token)
    ensures ShiftToken(t, 0) == t
    decreases t
  {
    match t
    case Text(_, _, _) =>
    case Other(_, _, _) =>
    case Parentheses(_, _, ts) => ShiftZero(ts);
    case SquareBrackets(_, _, ts) => ShiftZero(ts);
    case CurlyBrackets(_, _, ts) => ShiftZero(ts);
  }

  /** Tokens that agree with a slice `sub` of `text` starting at `off`, shifted by `off`,
      agree with `text` itself: re-basing turns slice offsets into offsets of the
      enclosing input. */
  lemma {:induction false} ShiftTokensAgree(sub: string, text: string, off: nat, ts: seq<Token>, lo: nat, hi: nat)
    requires off + |sub| <= |text| && sub == text[off..off + |sub|]
    requires TokensAgree(sub, ts, lo, hi)
    ensures TokensAgree(text, Shift(ts, off), lo + off, hi + off)
    decreases ts, 0
  {
    forall n | 0 <= n < |ts|
      ensures lo + off <= Shift(ts, off)[n].begin && TokenAgrees(text, Shift(ts, off)[n], hi + off)
    {
      ShiftTokenAgrees(sub, text, off, ts[n], hi);
    }
  }

  /** Whitespace in a slice is whitespace in the enclosing text. */
  lemma {:induction false} BlankShift(sub: string, text: string, off: nat, a: nat, b: nat)
    requires off + |sub| <= |text| && sub == text[off..off + |sub|]
    requires Blank(sub, a, b)
    ensures Blank(text, a + off, b + off)
    decreases b - a
  {
    if a < b {
      assert text[a + off] == sub[a];
      BlankShift(sub, text, off, a + 1, b);
    }
  }

  /** `Blank` is whitespace at every position of the range. */
  lemma {:induction false} BlankIsWhitespace(text: string, a: nat, b: nat)
    ensures Blank(text, a, b) <==> b <= |text| && forall p :: a <= p < b ==> IsWhitespace(text[p])
    decreases b - a
  {
    if a < b {
      BlankIsWhitespace(text, a + 1, b);
    }
  }

  /** The closer that balances a bracket in a slice balances it in the enclosing text,
      moved by the slice start: the stack loop never looks past the closer it finds. */
  lemma {:induction false} MatchBracketShift(sub: string, text: string, off: nat, j: nat, stack: seq<char>)
    requires off + |sub| <= |text| && sub == text[off..off + |sub|]
    requires j <= |sub| && stack != [] && MatchBracket(sub, j, stack).Some?
    ensures MatchBracket(text, j + off, stack) == Some(MatchBracket(sub, j, stack).value + off)
    decreases |sub| - j
  {
    assert text[j + off] == sub[j];
    match GetRevBracket(sub[j])
    case None =>
      MatchBracketShift(sub, text, off, j + 1, stack);
    case Some(rev) =>
      if stack[|stack| - 1] == rev {
        if |stack| > 1 {
          MatchBracketShift(sub, text, off, j + 1, stack[..|stack| - 1]);
        }
      } else {
        MatchBracketShift(sub, text, off, j + 1, stack + [sub[j]]);
      }
  }

  /** A slice of `sub` is the same slice of `text`, moved by `off`. */
  lemma SliceShift(sub: string, text: string, off: nat, a: nat, b: nat)
    requires off + |sub| <= |text| && sub == text[off..off + |sub|]
    requires a <= b <= |sub|
    ensures text[a + off..b + off] == sub[a..b]
  {
    forall p | 0 <= p < b - a
      ensures text[a + off..b + off][p] == sub[a..b][p]
    {
      assert sub[a + p] == text[off + a + p];
    }
  }

  lemma {:induction false} ShiftTokenAgrees(sub: string, text: string, off: nat, t: Token, hi: nat)
    requires off + |sub| <= |text| && sub == text[off..off + |sub|]
    requires TokenAgrees(sub, t, hi)
    ensures TokenAgrees(text, ShiftToken(t, off), hi + off)
    decreases t, 1
  {
    if t.Other? {
      ShiftOtherAgrees(sub, text, off, t.begin, t.end, t.value, hi);
    } else if t.Text? {
      ShiftTextAgrees(sub, text, off, t.begin, t.end, t.value, hi);
    } else {
      ShiftTokensAgree(sub, text, off, t.tokens, t.begin + 1, t.end);
      ShiftGroupAgrees(sub, text, off, t, hi);
    }
  }

  lemma ShiftOtherAgrees(sub: string, text: string, off: nat, b: nat, e: nat, v: string, hi: nat)
    requires off + |sub| <= |text| && sub == text[off..off + |sub|]
    requires TokenAgrees(sub, Other(b, e, v), hi)
    ensures TokenAgrees(text, Other(b + off, e + off, v), hi + off)
  {
    SliceShift(sub, text, off, b, e + 1);
    if e + 1 < hi {
      assert text[e + 1 + off] == sub[e + 1];
    }
  }

  lemma ShiftTextAgrees(sub: string, text: string, off: nat, b: nat, e: nat, v: string, hi: nat)
    requires off + |sub| <= |text| && sub == text[off..off + |sub|]
    requires TokenAgrees(sub, Text(b, e, v), hi)
    ensures TokenAgrees(text, Text(b + off, e + off, v), hi + off)
  {
    SliceShift(sub, text, off, b + 1, e);
    assert text[b + off] == sub[b] && text[e + off] == sub[e];
  }

  /** A group whose shifted children agree with `text` agrees with it once shifted:
      its opener and closer keep their characters. */
  lemma ShiftGroupAgrees(sub: string, text: string, off: nat, t: Token, hi: nat)
    requires off + |sub| <= |text| && sub == text[off..off + |sub|]
    requires t.IsGroup() && TokenAgrees(sub, t, hi)
    requires TokensAgree(text, Shift(t.tokens, off), t.begin + 1 + off, t.end + off)
    ensures TokenAgrees(text, ShiftToken(t, off), hi + off)
  {
    assert text[t.begin + off] == sub[t.begin] && text[t.end + off] == sub[t.end];
  }

  // ---------------------------------------------------------------------------
  // Tokenizer::parse: tokens agree with the input

  /** Putting a token that ends before `lo` in front of tokens that start at `lo` or later. */
  lemma ConsAgrees(text: string, t: Token, lo0: nat, ts: seq<Token>, lo: nat, hi: nat)
    requires lo0 <= t.begin && t.end < lo && TokenAgrees(text, t, hi)
    requires TokensAgree(text, ts, lo, hi)
    ensures TokensAgree(text, [t] + ts, lo0, hi)
  {
    var r := [t] + ts;
    forall k | 0 <= k < |r|
      ensures lo0 <= r[k].begin && TokenAgrees(text, r[k], hi)
    {
      if 0 < k {
        assert r[k] == ts[k - 1];
      }
    }
    forall k, m | 0 <= k < m < |r|
      ensures r[k].end < r[m].begin
    {
      assert r[m] == ts[m - 1];
      if 0 < k {
        assert r[k] == ts[k - 1];
      }
    }
  }

  /** The pending bareword, flushed at whitespace or at the end of the input. */
  lemma PendingAgrees(text: string, tb: nat, i: nat)
    requires tb < i <= |text|
    requires i == |text| || IsWhitespace(text[i])
    requires forall c :: c in text[tb..i] ==> IsWordChar(c)
    ensures TokenAgrees(text, Other(tb, i - 1, text[tb..i]), |text|)
  {
  }

  lemma {:induction false} WhitespaceStepAgrees(text: string, tb: nat, i: nat)
    requires tb <= i < |text| && IsWhitespace(text[i])
    requires forall c :: c in text[tb..i] ==> IsWordChar(c)
    requires Scan(text, i + 1, i + 1).Ok? ==> TokensAgree(text, Scan(text, i + 1, i + 1).value, i + 1, |text|)
    ensures Scan(text, tb, i).Ok? ==> TokensAgree(text, Scan(text, tb, i).value, tb, |text|)
  {
    assert Scan(text, tb, i) == ScanAt(text, tb, i);
    var rest := Scan(text, i + 1, i + 1);
    if rest.Ok? {
      assert Scan(text, tb, i) == Ok(Pending(text, tb, i) + rest.value);
      if tb < i {
        PendingAgrees(text, tb, i);
        ConsAgrees(text, Other(tb, i - 1, text[tb..i]), tb, rest.value, i + 1, |text|);
      } else {
        assert Pending(text, tb, i) + rest.value == rest.value;
      }
    }
  }

  lemma {:induction false} QuoteStepAgrees(text: string, i: nat, q: nat)
    requires i < |text| && text[i] == '"' && FindQuote(text, i + 1) == Some(q)
    requires Scan(text, q + 1, q + 1).Ok? ==> TokensAgree(text, Scan(text, q + 1, q + 1).value, q + 1, |text|)
    ensures Scan(text, i, i).Ok? ==> TokensAgree(text, Scan(text, i, i).value, i, |text|)
  {
    assert Scan(text, i, i) == ScanAt(text, i, i);
    var rest := Scan(text, q + 1, q + 1);
    if rest.Ok? {
      assert Scan(text, i, i) == Ok([Text(i, q, text[i + 1..q])] + rest.value);
      assert TokenAgrees(text, Text(i, q, text[i + 1..q]), |text|);
      ConsAgrees(text, Text(i, q, text[i + 1..q]), i, rest.value, q + 1, |text|);
    }
  }

  /** The value of `Scan` at an opening bracket whose group and rest both scan. */
  lemma ScanGroupStep(text: string, i: nat, q: nat)
    requires i < |text| && IsOpener(text[i]) && MatchBracket(text, i + 1, [text[i]]) == Some(q)
    requires Scan(text[i + 1..q], 0, 0).Ok?
    ensures Scan(text, q + 1, q + 1).Ok? ==>
      (Scan(text, i, i)
       == Ok([Group(text[i], i, q, Shift(Scan(text[i + 1..q], 0, 0).value, i + 1))] + Scan(text, q + 1, q + 1).value))
    ensures Scan(text, q + 1, q + 1).Err? ==> Scan(text, i, i) == Err(Scan(text, q + 1, q + 1).error)
  {
    assert !IsWhitespace(text[i]) && text[i] != '"';
  }

  /** Brackets come in pairs: the partner of a bracket's partner is the bracket. */
  lemma RevBracketPairs(c: char)
    ensures GetRevBracket(c).Some? ==> GetRevBracket(GetRevBracket(c).value) == Some(c)
  {
  }

  /** The closer that balances an opener is its partner. */
  lemma CloserOf(opener: char, closer: char)
    requires IsOpener(opener) && GetRevBracket(closer) == Some(opener)
    ensures opener == '(' ==> closer == ')'
    ensures opener == '[' ==> closer == ']'
    ensures opener == '{' ==> closer == '}'
  {
  }

  /** A group built from tokens that agree with its inside agrees with the input. */
  lemma GroupTokenAgrees(text: string, i: nat, q: nat, inner: seq<Token>)
    requires i < |text| && IsOpener(text[i]) && MatchBracket(text, i + 1, [text[i]]) == Some(q)
    requires TokensAgree(text[i + 1..q], inner, 0, q - i - 1)
    ensures TokenAgrees(text, Group(text[i], i, q, Shift(inner, i + 1)), |text|)
  {
    var sub := text[i + 1..q];
    ShiftTokensAgree(sub, text, i + 1, inner, 0, |sub|);
    CloserOf(text[i], text[q]);
    var ts := Shift(inner, i + 1);
    if text[i] == '(' {
      assert Group(text[i], i, q, ts) == Parentheses(i, q, ts);
    } else if text[i] == '[' {
      assert Group(text[i], i, q, ts) == SquareBrackets(i, q, ts);
    } else {
      assert Group(text[i], i, q, ts) == CurlyBrackets(i, q, ts);
    }
  }

  lemma {:induction false} GroupStepAgrees(text: string, i: nat, q: nat)
    requires i < |text| && IsOpener(text[i]) && MatchBracket(text, i + 1, [text[i]]) == Some(q)
    requires Scan(text[i + 1..q], 0, 0).Ok? ==> TokensAgree(text[i + 1..q], Scan(text[i + 1..q], 0, 0).value, 0, q - i - 1)
    requires Scan(text, q + 1, q + 1).Ok? ==> TokensAgree(text, Scan(text, q + 1, q + 1).value, q + 1, |text|)
    ensures Scan(text, i, i).Ok? ==> TokensAgree(text, Scan(text, i, i).value, i, |text|)
  {
    assert Scan(text, i, i) == ScanAt(text, i, i);
    var inner := Scan(text[i + 1..q], 0, 0);
    var rest := Scan(text, q + 1, q + 1);
    if inner.Ok? && rest.Ok? {
      ScanGroupStep(text, i, q);
      GroupTokenAgrees(text, i, q, inner.value);
      ConsAgrees(text, Group(text[i], i, q, Shift(inner.value, i + 1)), i, rest.value, q + 1, |text|);
    } else {
      assert !IsWhitespace(text[i]) && text[i] != '"';
    }
  }

  /** Every token `Scan` returns agrees with the input, in order; `text[tb..i]` is the
      pending bareword. */
  lemma {:induction false} ScanAgrees(text: string, tb: nat, i: nat)
    requires tb <= i <= |text|
    requires forall c :: c in text[tb..i] ==> IsWordChar(c)
    ensures Scan(text, tb, i).Ok? ==> TokensAgree(text, Scan(text, tb, i).value, tb, |text|)
    decreases |text| - i, 1
  {
    if i == |text| {
      if tb < i {
        PendingAgrees(text, tb, i);
      }
    } else {
      ScanAtAgrees(text, tb, i);
    }
  }

  lemma {:induction false} ScanAtAgrees(text: string, tb: nat, i: nat)
    requires tb <= i < |text|
    requires forall c :: c in text[tb..i] ==> IsWordChar(c)
    ensures ScanAt(text, tb, i).Ok? ==> TokensAgree(text, ScanAt(text, tb, i).value, tb, |text|)
    decreases |text| - i, 0
  {
    if IsWhitespace(text[i]) {
      ScanAgrees(text, i + 1, i + 1);
      WhitespaceStepAgrees(text, tb, i);
    } else if text[i] == '"' {
      if tb == i {
        match FindQuote(text, i + 1)
        case None =>
        case Some(q) =>
          ScanAgrees(text, q + 1, q + 1);
          QuoteStepAgrees(text, i, q);
      }
    } else if IsOpener(text[i]) {
      if tb == i {
        match MatchBracket(text, i + 1, [text[i]])
        case None =>
        case Some(q) =>
          ScanAgrees(text[i + 1..q], 0, 0);
          ScanAgrees(text, q + 1, q + 1);
          GroupStepAgrees(text, i, q);
      }
    } else if IsNormalChar(text[i], tb == i && (i == 0 || IsWhitespace(text[i - 1]))) {
      assert text[tb..i + 1] == text[tb..i] + [text[i]];
      ScanAgrees(text, tb, i + 1);
    }
  }

  /** The main soundness property of `Tokenizer::parse`: on success every token, at
      every depth, lies inside the input, agrees with the characters it spans, and
      the spans of siblings are disjoint and increasing. */
  lemma TokenizeAgrees(text: string)
    ensures Tokenize(text).Ok? ==> TokensAgree(text, Tokenize(text).value, 0, |text|)
    ensures Tokenize(text).Ok? ==> Covers(text, Tokenize(text).value, 0, |text|)
    ensures Tokenize(text).Ok? ==> GroupsMatch(text, Tokenize(text).value)
  {
    ScanAgrees(text, 0, 0);
    if Tokenize(text).Ok? {
      TokenizeCovers(text, Tokenize(text).value);
    }
  }

  /** No character but whitespace is dropped, and every group is closed by its own
      closer. */
  lemma TokenizeCovers(text: string, ts: seq<Token>)
    requires Tokenize(text) == Ok(ts)
    ensures Covers(text, ts, 0, |text|) && GroupsMatch(text, ts)
  {
    ScanCovers(text, 0, 0);
  }

  // ---------------------------------------------------------------------------
  // Tokenizer::parse: nothing is dropped and every group is closed by its own closer

  /** A token in front of a list it does not overlap, with `lo0` to the token's start
      and its end to `lo` only whitespace. */
  lemma ConsCovers(text: string, t: Token, ts: seq<Token>, hi: nat)
    requires t.begin <= |text| && Covers(text, ts, t.end + 1, hi) && GroupsMatch(text, ts)
    requires t.IsGroup() ==> t.begin < |text| && GroupAgrees(text, t.begin, t.end, t.tokens)
    ensures Covers(text, [t] + ts, t.begin, hi) && GroupsMatch(text, [t] + ts)
  {
    assert ([t] + ts)[1..] == ts;
  }

  /** Whitespace in front of a covered range joins it. */
  lemma CoversFromBlank(text: string, ts: seq<Token>, a: nat, hi: nat)
    requires a < |text| && IsWhitespace(text[a]) && Covers(text, ts, a + 1, hi)
    ensures Covers(text, ts, a, hi)
  {
  }

  /** Between them, the tokens `Scan` returns and the whitespace it skips make up the
      rest of the input from `tb`, and every group it builds is closed by the closer
      that balances its opener and holds the tokens of the text in between. */
  lemma {:induction false} ScanCovers(text: string, tb: nat, i: nat)
    requires tb <= i <= |text|
    ensures Scan(text, tb, i).Ok? ==> Covers(text, Scan(text, tb, i).value, tb, |text|)
    ensures Scan(text, tb, i).Ok? ==> GroupsMatch(text, Scan(text, tb, i).value)
    decreases |text| - i, 1
  {
    if i == |text| {
      if tb < i {
        ConsCovers(text, Other(tb, i - 1, text[tb..i]), [], |text|);
      }
    } else {
      ScanAtCovers(text, tb, i);
    }
  }

  lemma {:induction false} ScanAtCovers(text: string, tb: nat, i: nat)
    requires tb <= i < |text|
    ensures ScanAt(text, tb, i).Ok? ==> Covers(text, ScanAt(text, tb, i).value, tb, |text|)
    ensures ScanAt(text, tb, i).Ok? ==> GroupsMatch(text, ScanAt(text, tb, i).value)
    decreases |text| - i, 0
  {
    if IsWhitespace(text[i]) {
      ScanCovers(text, i + 1, i + 1);
      WhitespaceStepCovers(text, tb, i);
    } else if text[i] == '"' {
      if tb == i {
        match FindQuote(text, i + 1)
        case None =>
        case Some(q) =>
          ScanCovers(text, q + 1, q + 1);
          QuoteStepCovers(text, i, q);
      }
    } else if IsOpener(text[i]) {
      if tb == i {
        match MatchBracket(text, i + 1, [text[i]])
        case None =>
        case Some(q) =>
          ScanCovers(text, q + 1, q + 1);
          GroupStepCovers(text, i, q);
      }
    } else if IsNormalChar(text[i], tb == i && (i == 0 || IsWhitespace(text[i - 1]))) {
      ScanCovers(text, tb, i + 1);
    }
  }

  lemma {:induction false} WhitespaceStepCovers(text: string, tb: nat, i: nat)
    requires tb <= i < |text| && IsWhitespace(text[i])
    requires Scan(text, i + 1, i + 1).Ok? ==>
      Covers(text, Scan(text, i + 1, i + 1).value, i + 1, |text|) && GroupsMatch(text, Scan(text, i + 1, i + 1).value)
    ensures Scan(text, tb, i).Ok? ==>
      Covers(text, Scan(text, tb, i).value, tb, |text|) && GroupsMatch(text, Scan(text, tb, i).value)
  {
    assert Scan(text, tb, i) == ScanAt(text, tb, i);
    var rest := Scan(text, i + 1, i + 1);
    if rest.Ok? {
      assert Scan(text, tb, i) == Ok(Pending(text, tb, i) + rest.value);
      CoversFromBlank(text, rest.value, i, |text|);
      if tb < i {
        ConsCovers(text, Other(tb, i - 1, text[tb..i]), rest.value, |text|);
      } else {
        assert Pending(text, tb, i) + rest.value == rest.value;
      }
    }
  }

  lemma {:induction false} QuoteStepCovers(text: string, i: nat, q: nat)
    requires i < |text| && text[i] == '"' && FindQuote(text, i + 1) == Some(q)
    requires Scan(text, q + 1, q + 1).Ok? ==>
      Covers(text, Scan(text, q + 1, q + 1).value, q + 1, |text|) && GroupsMatch(text, Scan(text, q + 1, q + 1).value)
    ensures Scan(text, i, i).Ok? ==>
      Covers(text, Scan(text, i, i).value, i, |text|) && GroupsMatch(text, Scan(text, i, i).value)
  {
    assert Scan(text, i, i) == ScanAt(text, i, i);
    var rest := Scan(text, q + 1, q + 1);
    if rest.Ok? {
      assert Scan(text, i, i) == Ok([Text(i, q, text[i + 1..q])] + rest.value);
      ConsCovers(text, Text(i, q, text[i + 1..q]), rest.value, |text|);
    }
  }

  lemma {:induction false} GroupStepCovers(text: string, i: nat, q: nat)
    requires i < |text| && IsOpener(text[i]) && MatchBracket(text, i + 1, [text[i]]) == Some(q)
    requires Scan(text, q + 1, q + 1).Ok? ==>
      Covers(text, Scan(text, q + 1, q + 1).value, q + 1, |text|) && GroupsMatch(text, Scan(text, q + 1, q + 1).value)
    ensures Scan(text, i, i).Ok? ==>
      Covers(text, Scan(text, i, i).value, i, |text|) && GroupsMatch(text, Scan(text, i, i).value)
  {
    assert Scan(text, i, i) == ScanAt(text, i, i);
    var inner := Scan(text[i + 1..q], 0, 0);
    var rest := Scan(text, q + 1, q + 1);
    if inner.Ok? && rest.Ok? {
      ScanGroupStep(text, i, q);
      var t := Group(text[i], i, q, Shift(inner.value, i + 1));
      assert GroupAgrees(text, i, q, t.tokens);
      ConsCovers(text, t, rest.value, |text|);
    } else {
      assert !IsWhitespace(text[i]) && text[i] != '"';
    }
  }

  /** Every character that is not whitespace lies inside one of the covering tokens. */
  lemma {:induction false} CoversEveryChar(text: string, ts: seq<Token>, lo: nat, hi: nat, p: nat)
    requires Covers(text, ts, lo, hi) && lo <= p < hi && p < |text| && !IsWhitespace(text[p])
    ensures exists k :: 0 <= k < |ts| && ts[k].begin <= p <= ts[k].end
    decreases |ts|
  {
    if |ts| == 0 {
      BlankIsWhitespace(text, lo, hi);
    } else if p < ts[0].begin {
      BlankIsWhitespace(text, lo, ts[0].begin);
    } else if ts[0].end < p {
      CoversEveryChar(text, ts[1..], ts[0].end + 1, hi, p);
      var k :| 0 <= k < |ts| - 1 && ts[1..][k].begin <= p <= ts[1..][k].end;
      assert ts[k + 1] == ts[1..][k];
    }
  }

  /** The tokenizer drops no character but whitespace. */
  lemma TokenizeKeepsEveryChar(text: string, p: nat)
    requires Tokenize(text).Ok? && p < |text| && !IsWhitespace(text[p])
    ensures exists k ::
      (0 <= k < |Tokenize(text).value| && Tokenize(text).value[k].begin <= p <= Tokenize(text).value[k].end)
  {
    TokenizeAgrees(text);
    CoversEveryChar(text, Tokenize(text).value, 0, |text|, p);
  }

  /** The `k`-th token of a list whose groups match, if a group, is the group of its
      opener. */
  lemma {:induction false} GroupsMatchAt(text: string, ts: seq<Token>, k: nat)
    requires GroupsMatch(text, ts) && k < |ts| && ts[k].IsGroup()
    ensures ts[k].begin < |text| && GroupAgrees(text, ts[k].begin, ts[k].end, ts[k].tokens)
    decreases k
  {
    if 0 < k {
      GroupsMatchAt(text, ts[1..], k - 1);
    }
  }

  /** Whitespace in a slice covered by tokens is covered once the tokens are shifted
      into the enclosing text. */
  lemma {:induction false} ShiftCovers(sub: string, text: string, off: nat, ts: seq<Token>, lo: nat, hi: nat)
    requires off + |sub| <= |text| && sub == text[off..off + |sub|]
    requires Covers(sub, ts, lo, hi)
    ensures Covers(text, Shift(ts, off), lo + off, hi + off)
    decreases |ts|
  {
    if |ts| == 0 {
      BlankShift(sub, text, off, lo, hi);
    } else {
      BlankShift(sub, text, off, lo, ts[0].begin);
      ShiftCovers(sub, text, off, ts[1..], ts[0].end + 1, hi);
      assert Shift(ts, off)[1..] == Shift(ts[1..], off);
    }
  }

  /** A group of a slice, shifted, is a group of the enclosing text: the closer still
      balances the opener and the text between them is the same. */
  lemma ShiftGroupMatches(sub: string, text: string, off: nat, t: Token)
    requires off + |sub| <= |text| && sub == text[off..off + |sub|]
    requires t.IsGroup() && t.begin < |sub| && GroupAgrees(sub, t.begin, t.end, t.tokens)
    ensures t.begin + off < |text| && GroupAgrees(text, t.begin + off, t.end + off, Shift(t.tokens, off))
  {
    var b, e := t.begin, t.end;
    assert text[b + off] == sub[b];
    MatchBracketShift(sub, text, off, b + 1, [sub[b]]);
    SliceShift(sub, text, off, b + 1, e);
    ShiftCompose(Tokenize(sub[b + 1..e]).value, b + 1, off);
  }

  lemma {:induction false} ShiftGroupsMatch(sub: string, text: string, off: nat, ts: seq<Token>)
    requires off + |sub| <= |text| && sub == text[off..off + |sub|]
    requires GroupsMatch(sub, ts)
    ensures GroupsMatch(text, Shift(ts, off))
    decreases |ts|
  {
    if |ts| > 0 {
      if ts[0].IsGroup() {
        ShiftGroupMatches(sub, text, off, ts[0]);
      }
      ShiftGroupsMatch(sub, text, off, ts[1..]);
      assert Shift(ts, off)[1..] == Shift(ts[1..], off);
    }
  }

  /** The tokens of a group that matches its opener cover the text between its
      brackets and their own groups match: with `TokenizeAgrees`, the tokenizer
      drops nothing and closes every group correctly at every depth. */
  lemma NestedCovers(text: string, t: Token)
    requires t.IsGroup() && t.begin < |text| && GroupAgrees(text, t.begin, t.end, t.tokens)
    ensures Covers(text, t.tokens, t.begin + 1, t.end) && GroupsMatch(text, t.tokens)
  {
    var b, e := t.begin, t.end;
    var inner := Tokenize(text[b + 1..e]).value;
    TokenizeCovers(text[b + 1..e], inner);
    ShiftIntoGroup(text, b, e, inner);
  }

  /** Tokens of the text between two brackets, shifted past the opener. */
  lemma ShiftIntoGroup(text: string, b: nat, e: nat, inner: seq<Token>)
    requires b < e <= |text|
    requires Covers(text[b + 1..e], inner, 0, e - b - 1) && GroupsMatch(text[b + 1..e], inner)
    ensures Covers(text, Shift(inner, b + 1), b + 1, e) && GroupsMatch(text, Shift(inner, b + 1))
  {
    var sub := text[b + 1..e];
    ShiftCovers(sub, text, b + 1, inner, 0, |sub|);
    ShiftGroupsMatch(sub, text, b + 1, inner);
  }

  /** Every tokenizer error points into the text it was raised on. */
  lemma {:induction false} ScanErrorWithin(text: string, tb: nat, i: nat)
    requires tb <= i <= |text|
    ensures Scan(text, tb, i).Err? ==> Scan(text, tb, i).error.Within(|text|)
    decreases |text| - i
  {
    if i == |text| {
    } else if IsWhitespace(text[i]) {
      ScanErrorWithin(text, i + 1, i + 1);
    } else if text[i] == '"' {
      if tb == i {
        match FindQuote(text, i + 1)
        case None =>
        case Some(q) => ScanErrorWithin(text, q + 1, q + 1);
      }
    } else if IsOpener(text[i]) {
      if tb == i {
        match MatchBracket(text, i + 1, [text[i]])
        case None =>
        case Some(q) =>
          ScanErrorWithin(text[i + 1..q], 0, 0);
          ScanErrorWithin(text, q + 1, q + 1);
      }
    } else if IsNormalChar(text[i], tb == i && (i == 0 || IsWhitespace(text[i - 1]))) {
      ScanErrorWithin(text, tb, i + 1);
    }
  }

  lemma TokenizeErrorWithin(text: string)
    ensures Tokenize(text).Err? ==> Tokenize(text).error.Within(|text|)
  {
    ScanErrorWithin(text, 0, 0);
  }

  // ---------------------------------------------------------------------------
  // Empty results

  lemma {:induction false} ScanWhitespace(text: string, i: nat)
    requires i <= |text|
    requires forall k :: i <= k < |text| ==> IsWhitespace(text[k])
    ensures Scan(text, i, i) == Ok([])
    decreases |text| - i
  {
    if i < |text| {
      ScanWhitespace(text, i + 1);
      assert Pending(text, i, i) + [] == [];
    }
  }

  lemma {:induction false} ScanEmptyIsWhitespace(text: string, tb: nat, i: nat)
    requires tb <= i <= |text|
    requires Scan(text, tb, i) == Ok([])
    ensures tb == i && forall k :: i <= k < |text| ==> IsWhitespace(text[k])
    decreases |text| - i
  {
    if i == |text| {
    } else if IsWhitespace(text[i]) {
      ScanEmptyIsWhitespace(text, i + 1, i + 1);
    } else if text[i] == '"' || IsOpener(text[i]) {
    } else if IsNormalChar(text[i], tb == i && (i == 0 || IsWhitespace(text[i - 1]))) {
      ScanEmptyIsWhitespace(text, tb, i + 1);
    }
  }

  /** The input yields no token exactly when it is empty or only whitespace. */
  lemma TokenizeEmptyIffWhitespace(text: string)
    ensures Tokenize(text) == Ok([]) <==> forall k :: 0 <= k < |text| ==> IsWhitespace(text[k])
  {
    if forall k :: 0 <= k < |text| ==> IsWhitespace(text[k]) {
      ScanWhitespace(text, 0);
    }
    if Tokenize(text) == Ok([]) {
      ScanEmptyIsWhitespace(text, 0, 0);
    }
  }

  // ---------------------------------------------------------------------------
  // Character classes and error conditions

  /** Letters, digits, `.` and `_`: accepted anywhere in a bareword. */
  predicate IsAlwaysWordChar(c: char) {
    ('a' <= c <= 'z') || ('A' <= c <= 'Z') || ('0' <= c <= '9') || c == '.' || c == '_'
  }

  /** The characters a bareword may hold except as its first character after
      whitespace or at the input start. */
  predicate IsInnerPunctuation(c: char) {
    c == '-' || c == ';' || c == ')' || c == '=' || c == '>' || c == '<' || c == ':'
  }

  /** A run of letters, digits, `.` and `_` is consumed into the pending bareword
      whatever its position. */
  lemma {:induction false} ScanSkipsWord(text: string, tb: nat, i: nat, j: nat)
    requires tb <= i <= j <= |text|
    requires forall k :: i <= k < j ==> IsAlwaysWordChar(text[k])
    ensures Scan(text, tb, i) == Scan(text, tb, j)
    decreases j - i
  {
    if i < j {
      ScanSkipsWord(text, tb, i + 1, j);
    }
  }

  /** Characters a bareword may hold, once it has begun, keep it pending. */
  lemma {:induction false} ScanContinuesWord(text: string, tb: nat, i: nat, j: nat)
    requires tb < i <= j <= |text|
    requires forall k :: i <= k < j ==> IsWordChar(text[k])
    ensures Scan(text, tb, i) == Scan(text, tb, j)
    decreases j - i
  {
    if i < j {
      assert !IsWhitespace(text[i]) && text[i] != '"' && !IsOpener(text[i]);
      ScanContinuesWord(text, tb, i + 1, j);
    }
  }

  /** A `"` or an opening bracket directly after a non-empty bareword is an
      `IncorrectChar` at its own offset that carries the bareword. The bareword starts
      wherever a token may start (at the input start, after whitespace, or right after
      a closing quote or bracket, where its first character may be inner
      punctuation). */
  lemma QuoteOrBracketAfterWord(text: string, a: nat, j: nat)
    requires a < j < |text| && (text[j] == '"' || IsOpener(text[j]))
    requires IsNormalChar(text[a], a == 0 || IsWhitespace(text[a - 1])) && !IsOpener(text[a])
    requires forall k :: a < k < j ==> IsWordChar(text[k])
    ensures Scan(text, a, a) == Err(IncorrectChar(CharMessage(text[j], j), text[a..j], j))
    ensures a == 0 ==> Tokenize(text) == Err(IncorrectChar(CharMessage(text[j], j), text[..j], j))
  {
    assert !IsWhitespace(text[a]) && text[a] != '"';
    ScanContinuesWord(text, a, a + 1, j);
  }

  /** Inner punctuation cannot start a token at the input start or after whitespace. */
  lemma PunctuationCannotStart(text: string, i: nat)
    requires i < |text| && IsInnerPunctuation(text[i])
    requires i == 0 || IsWhitespace(text[i - 1])
    ensures Scan(text, i, i) == Err(IncorrectChar(CharMessage(text[i], i), [], i))
  {
    assert !IsWhitespace(text[i]) && text[i] != '"' && !IsOpener(text[i]) && !IsNormalChar(text[i], true);
    assert text[i..i] == [];
    assert Scan(text, i, i) == ScanAt(text, i, i);
  }

  /** ... but it may start a bareword right after a closing quote or bracket. */
  lemma PunctuationAfterClosing(text: string, i: nat)
    requires 0 < i < |text| && IsInnerPunctuation(text[i])
    requires text[i - 1] == '"' || text[i - 1] == ')' || text[i - 1] == ']' || text[i - 1] == '}'
    ensures Scan(text, i, i) == Scan(text, i, i + 1)
  {
  }

  /** A string with no closing quote is an `IncorrectString` from its opening quote to
      the end of the input. */
  lemma UnterminatedString(text: string, i: nat)
    requires i < |text| && text[i] == '"'
    requires forall k :: i < k < |text| ==> text[k] != '"'
    ensures Scan(text, i, i)
      == Err(IncorrectString(StringMessage(i, |text|), i, |text|, text[i + 1..]))
  {
    assert FindQuote(text, i + 1).None?;
  }

  /** An opening bracket that nothing balances is an `IncorrectBrackets` from it to the
      end of the input. */
  lemma UnbalancedBracket(text: string, i: nat)
    requires i < |text| && IsOpener(text[i])
    requires MatchBracket(text, i + 1, [text[i]]).None?
    ensures Scan(text, i, i)
      == Err(IncorrectBrackets(BracketsMessage(i, |text|), i, |text|, text[i + 1..]))
  {
  }
}
