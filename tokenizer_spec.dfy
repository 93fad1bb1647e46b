/** The tokenizer of src/parser/tokenizer.rs as functions. `Scan(text, tb, i)` is the
    state of the scanning loop at position `i` with the pending bareword `text[tb..i]`
    (empty exactly when `tb == i`); `Tokenize(text)` starts it at the beginning. */
module TokenizerSpec {

  import opened Wrappers
  import opened Tokens
  import opened TokenizeErrors
  import Decimal

  /** Rust's `char::is_whitespace`: the Unicode White_Space property. */
  predicate IsWhitespace(c: char) {
    || '\t' <= c <= '\r'
    || c == ' '
    || c == '\U{0085}'
    || c == '\U{00A0}'
    || c == '\U{1680}'
    || '\U{2000}' <= c <= '\U{200A}'
    || c == '\U{2028}'
    || c == '\U{2029}'
    || c == '\U{202F}'
    || c == '\U{205F}'
    || c == '\U{3000}'
  }

  predicate IsOpener(c: char) {
    c == '(' || c == '[' || c == '{'
  }

  /** `get_rev_bracket`: the partner of an opening or closing bracket. */
  function GetRevBracket(c: char): (r: Option<char>)
    ensures r.Some? <==> c in "()[]{}"
    ensures r == Some(')') <==> c == '('
    ensures r == Some(']') <==> c == '['
    ensures r == Some('}') <==> c == '{'
    ensures r == Some('(') <==> c == ')'
    ensures r == Some('[') <==> c == ']'
    ensures r == Some('{') <==> c == '}'
  {
    match c
    case '(' => Some(')')
    case '[' => Some(']')
    case '{' => Some('}')
    case ')' => Some('(')
    case ']' => Some('[')
    case '}' => Some('{')
    case _ => None
  }

  /** `is_normal_char`: may `c` extend a bareword? `first` is set when `c` would be
      the first character of the token at the input start or after whitespace. */
  predicate IsNormalChar(c: char, first: bool) {
    || ('a' <= c <= 'z')
    || ('A' <= c <= 'Z')
    || ('0' <= c <= '9')
    || c == '.' || c == '_'
    || (!first && (c == '-' || c == ';' || c == '(' || c == ')' || c == '='
                   || c == '>' || c == '<' || c == ':'))
  }

  /** The first `"` at or after `j`: the end of a string literal. */
  function FindQuote(text: string, j: nat): (r: Option<nat>)
    requires j <= |text|
    ensures r.None? ==> forall k :: j <= k < |text| ==> text[k] != '"'
    ensures r.Some? ==> j <= r.value < |text| && text[r.value] == '"'
                        && forall k :: j <= k < r.value ==> text[k] != '"'
    decreases |text| - j
  {
    if j == |text| then None
    else if text[j] == '"' then Some(j)
    else FindQuote(text, j + 1)
  }

  /** The inner loop of the bracket branch from position `j` with the bracket stack
      `stack` (bottom first): a closer whose partner is on top pops it, any other
      bracket is pushed, and the position of the closer that empties the stack is
      the end of the group. */
  function MatchBracket(text: string, j: nat, stack: seq<char>): (r: Option<nat>)
    requires j <= |text| && stack != []
    ensures r.Some? ==> j <= r.value < |text| && GetRevBracket(text[r.value]) == Some(stack[0])
    decreases |text| - j
  {
    if j == |text| then None
    else match GetRevBracket(text[j])
      case None => MatchBracket(text, j + 1, stack)
      case Some(rev) =>
        if stack[|stack| - 1] == rev then
          if |stack| == 1 then Some(j) else MatchBracket(text, j + 1, stack[..|stack| - 1])
        else MatchBracket(text, j + 1, stack + [text[j]])
  }

  /** The group token for an opening bracket (the `match &text[token_begin]`). */
  function Group(opener: char, begin: nat, end: nat, tokens: seq<Token>): (t: Token)
    requires IsOpener(opener)
    ensures t.IsGroup() && t.begin == begin && t.end == end && t.tokens == tokens
    ensures t.Parentheses? <==> opener == '('
    ensures t.SquareBrackets? <==> opener == '['
    ensures t.CurlyBrackets? <==> opener == '{'
  {
    if opener == '(' then Parentheses(begin, end, tokens)
    else if opener == '[' then SquareBrackets(begin, end, tokens)
    else CurlyBrackets(begin, end, tokens)
  }

  /** `inc_tokens_offsets` on one token: `k` is added to every offset at every depth. */
  function ShiftToken(t: Token, k: nat): Token
    decreases t
  {
    match t
    case Text(b, e, v) => Text(b + k, e + k, v)
    case Other(b, e, v) => Other(b + k, e + k, v)
    case Parentheses(b, e, ts) => Parentheses(b + k, e + k, Shift(ts, k))
    case SquareBrackets(b, e, ts) => SquareBrackets(b + k, e + k, Shift(ts, k))
    case CurlyBrackets(b, e, ts) => CurlyBrackets(b + k, e + k, Shift(ts, k))
  }

  function Shift(ts: seq<Token>, k: nat): seq<Token>
    decreases ts
  {
    seq(|ts|, n requires 0 <= n < |ts| => ShiftToken(ts[n], k))
  }

  function CharMessage(c: char, at: nat): string {
    "Incorrect character (" + [c] + ") found at offset " + Decimal.NatToString(at)
  }

  function StringMessage(begin: nat, end: nat): string {
    "Incorrect string format found from offset " + Decimal.NatToString(begin)
      + " to " + Decimal.NatToString(end)
  }

  function BracketsMessage(begin: nat, end: nat): string {
    "Incorrect brackets format found from offset " + Decimal.NatToString(begin)
      + " to " + Decimal.NatToString(end)
  }

  /** The bareword `text[tb..i]` as a token, if it is not empty. */
  function Pending(text: string, tb: nat, i: nat): seq<Token>
    requires tb <= i <= |text|
  {
    if tb < i then [Other(tb, i - 1, text[tb..i])] else []
  }

  /** The scanning loop of `Tokenizer::parse` from position `i` with the pending
      bareword `text[tb..i]`. */
  function Scan(text: string, tb: nat, i: nat): Result<seq<Token>, TokenizeError>
    requires tb <= i <= |text|
    decreases |text| - i, 1
  {
    if i == |text| then
      Ok(Pending(text, tb, i))
    else
      ScanAt(text, tb, i)
  }

  /** The loop body at position `i`, before the end of the input. */
  function ScanAt(text: string, tb: nat, i: nat): Result<seq<Token>, TokenizeError>
    requires tb <= i < |text|
    decreases |text| - i, 0
  {
    if IsWhitespace(text[i]) then
      var rest :- Scan(text, i + 1, i + 1);
      Ok(Pending(text, tb, i) + rest)
    else if text[i] == '"' then
      if tb < i then
        Err(IncorrectChar(CharMessage(text[i], i), text[tb..i], i))
      else match FindQuote(text, i + 1)
        case None =>
          Err(IncorrectString(StringMessage(i, |text|), i, |text|, text[i + 1..]))
        case Some(q) =>
          var rest :- Scan(text, q + 1, q + 1);
          Ok([Text(i, q, text[i + 1..q])] + rest)
    else if IsOpener(text[i]) then
      if tb < i then
        Err(IncorrectChar(CharMessage(text[i], i), text[tb..i], i))
      else match MatchBracket(text, i + 1, [text[i]])
        case None =>
          Err(IncorrectBrackets(BracketsMessage(i, |text|), i, |text|, text[i + 1..]))
        case Some(q) =>
          // the nested error is returned as it is, without re-basing
          var inner :- Scan(text[i + 1..q], 0, 0);
          var rest :- Scan(text, q + 1, q + 1);
          Ok([Group(text[i], i, q, Shift(inner, i + 1))] + rest)
    else if IsNormalChar(text[i], tb == i && (i == 0 || IsWhitespace(text[i - 1]))) then
      Scan(text, tb, i + 1)
    else
      Err(IncorrectChar(CharMessage(text[i], i), text[tb..i], i))
  }

  /** `Tokenizer::parse`. */
  function Tokenize(text: string): Result<seq<Token>, TokenizeError> {
    Scan(text, 0, 0)
  }

  /** The characters a bareword may hold after its first one. */
  predicate IsWordChar(c: char) {
    IsNormalChar(c, false) && !IsOpener(c)
  }

  /** Token `t` agrees with `text`: its span lies below `hi` (the end of the text or of
      the enclosing group), a bareword is the exact slice it spans and is followed by
      whitespace or `hi`, a string is the verbatim text between its two quotes, and a
      group starts with its opener, ends with its closer and holds tokens that agree
      with the text between them. All offsets are into the same `text`. That the
      closer is the one balancing the opener, and that no character is dropped, are
      `GroupsMatch` and `Covers`. */
  predicate TokenAgrees(text: string, t: Token, hi: nat)
    decreases t
  {
    && t.begin <= t.end < hi <= |text|
    && match t
       case Other(b, e, v) =>
         && v == text[b..e + 1]
         && (e + 1 == hi || IsWhitespace(text[e + 1]))
         && forall c :: c in v ==> IsWordChar(c)
       case Text(b, e, v) =>
         b < e && text[b] == '"' && text[e] == '"' && v == text[b + 1..e] && '"' !in v
       case Parentheses(b, e, ts) =>
         text[b] == '(' && text[e] == ')' && TokensAgree(text, ts, b + 1, e)
       case SquareBrackets(b, e, ts) =>
         text[b] == '[' && text[e] == ']' && TokensAgree(text, ts, b + 1, e)
       case CurlyBrackets(b, e, ts) =>
         text[b] == '{' && text[e] == '}' && TokensAgree(text, ts, b + 1, e)
  }

  /** The group from `b` to `e` holding `ts`: `e` is the closer that balances the opener
      at `b`, and `ts` is the tokenization of the text in between, re-based by `b + 1`. */
  predicate GroupAgrees(text: string, b: nat, e: nat, ts: seq<Token>)
    requires b < |text|
  {
    && MatchBracket(text, b + 1, [text[b]]) == Some(e)
    && Tokenize(text[b + 1..e]).Ok?
    && ts == Shift(Tokenize(text[b + 1..e]).value, b + 1)
  }

  /** Only whitespace in `text[a..b]`. */
  predicate Blank(text: string, a: nat, b: nat)
    decreases b - a
  {
    b <= |text| && (a < b ==> IsWhitespace(text[a]) && Blank(text, a + 1, b))
  }

  /** Every token agrees with `text` inside `[lo, hi)`, and the spans are disjoint and
      strictly increasing. */
  predicate TokensAgree(text: string, ts: seq<Token>, lo: nat, hi: nat)
    decreases ts
  {
    && (forall k :: 0 <= k < |ts| ==> lo <= ts[k].begin && TokenAgrees(text, ts[k], hi))
    && (forall k, m :: 0 <= k < m < |ts| ==> ts[k].end < ts[m].begin)
  }

  /** Nothing but whitespace lies before the first token, between two neighbours and
      after the last one: no character of `text[lo..hi]` is dropped. */
  predicate Covers(text: string, ts: seq<Token>, lo: nat, hi: nat)
    decreases |ts|
  {
    if |ts| == 0 then Blank(text, lo, hi)
    else Blank(text, lo, ts[0].begin) && Covers(text, ts[1..], ts[0].end + 1, hi)
  }

  /** Every group of the list is the group of its opener: it ends at the closer that
      balances the opener and holds exactly the tokens of the text in between. */
  predicate GroupsMatch(text: string, ts: seq<Token>)
    decreases |ts|
  {
    |ts| > 0 ==>
      && (ts[0].IsGroup() ==> ts[0].begin < |text| && GroupAgrees(text, ts[0].begin, ts[0].end, ts[0].tokens))
      && GroupsMatch(text, ts[1..])
  }
}
