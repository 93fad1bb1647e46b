/** `Tokenizer::parse` and `inc_tokens_offsets` of src/parser/tokenizer.rs as the
    loops they are, each proved equal to its specification in TokenizerSpec. The
    string and bracket branches of the main loop, each with its own inner loop, are
    the methods `ReadString` and `ReadGroup`. */
module Tokenizer {

  import opened Wrappers
  import opened Tokens
  import opened TokenizeErrors
  import opened TokenizerSpec
  import opened TokenizerProps

  /** `tokens` already pushed, followed by what the rest of the scan yields. */
  function Prepend(tokens: seq<Token>, r: Result<seq<Token>, TokenizeError>): Result<seq<Token>, TokenizeError> {
    match r
    case Ok(ts) => Ok(tokens + ts)
    case Err(e) => Err(e)
  }

  lemma PrependAppend(tokens: seq<Token>, more: seq<Token>, r: Result<seq<Token>, TokenizeError>)
    ensures Prepend(tokens, Prepend(more, r)) == Prepend(tokens + more, r)
  {
    if r.Ok? {
      assert tokens + (more + r.value) == tokens + more + r.value;
    }
  }

  lemma PrependNothing(r: Result<seq<Token>, TokenizeError>)
    ensures Prepend([], r) == r
  {
    if r.Ok? {
      assert [] + r.value == r.value;
    }
  }

  // ---------------------------------------------------------------------------
  // One step of the scan, for each branch of the loop body

  lemma WhitespaceStep(text: string, tb: nat, i: nat)
    requires tb <= i < |text| && IsWhitespace(text[i])
    ensures Scan(text, tb, i) == Prepend(Pending(text, tb, i), Scan(text, i + 1, i + 1))
  {
  }

  lemma QuoteStep(text: string, i: nat, q: nat)
    requires i < |text| && text[i] == '"' && FindQuote(text, i + 1) == Some(q)
    ensures Scan(text, i, i) == Prepend([Text(i, q, text[i + 1..q])], Scan(text, q + 1, q + 1))
  {
  }

  lemma UnterminatedStep(text: string, i: nat)
    requires i < |text| && text[i] == '"' && FindQuote(text, i + 1).None?
    ensures Scan(text, i, i)
      == Err(IncorrectString(StringMessage(i, |text|), i, |text|, text[i + 1..]))
  {
  }

  /** The scan at an opening bracket whose group ends at `q` and whose inside scans to
      `inner`, re-based to `shifted`. */
  lemma GroupStep(text: string, i: nat, q: nat, inner: Result<seq<Token>, TokenizeError>, shifted: seq<Token>)
    requires i < |text| && IsOpener(text[i]) && MatchBracket(text, i + 1, [text[i]]) == Some(q)
    requires inner == Tokenize(text[i + 1..q]) && inner.Ok? && shifted == Shift(inner.value, i + 1)
    ensures Scan(text, i, i) == Prepend([Group(text[i], i, q, shifted)], Scan(text, q + 1, q + 1))
  {
    ScanGroupStep(text, i, q);
  }

  /** The scan at an opening bracket whose inside fails: the error is passed on as it is. */
  lemma GroupErrorStep(text: string, i: nat, q: nat)
    requires i < |text| && IsOpener(text[i]) && MatchBracket(text, i + 1, [text[i]]) == Some(q)
    requires Scan(text[i + 1..q], 0, 0).Err?
    ensures Scan(text, i, i) == Err(Scan(text[i + 1..q], 0, 0).error)
  {
    assert !IsWhitespace(text[i]) && text[i] != '"';
  }

  /** A quote or an opening bracket after a non-empty bareword. */
  lemma AfterWordStep(text: string, tb: nat, i: nat)
    requires tb < i < |text| && (text[i] == '"' || IsOpener(text[i]))
    ensures Scan(text, tb, i) == Err(IncorrectChar(CharMessage(text[i], i), text[tb..i], i))
  {
  }

  /** The source's test for the first character of a token, on the pending word,
      is the one on the offsets. */
  lemma FirstIsEmptyWord(text: string, word: string, tb: nat, i: nat)
    requires tb <= i < |text| && word == text[tb..i]
    ensures (word == [] && (if i > 0 then IsWhitespace(text[i - 1]) else true))
        == (tb == i && (i == 0 || IsWhitespace(text[i - 1])))
  {
  }

  /** A character that extends the pending bareword. */
  lemma NormalStep(text: string, tb: nat, i: nat)
    requires tb <= i < |text| && !IsWhitespace(text[i]) && text[i] != '"' && !IsOpener(text[i])
    requires IsNormalChar(text[i], tb == i && (i == 0 || IsWhitespace(text[i - 1])))
    ensures Scan(text, tb, i) == Scan(text, tb, i + 1)
  {
  }

  /** A character that may not appear where it is. */
  lemma WrongCharStep(text: string, tb: nat, i: nat)
    requires tb <= i < |text| && !IsWhitespace(text[i]) && text[i] != '"' && !IsOpener(text[i])
    requires !IsNormalChar(text[i], tb == i && (i == 0 || IsWhitespace(text[i - 1])))
    ensures Scan(text, tb, i) == Err(IncorrectChar(CharMessage(text[i], i), text[tb..i], i))
  {
  }

  // ---------------------------------------------------------------------------
  // The methods

  /** `Tokenizer::parse`: one pass over the characters with the tokens found so far,
      the pending word and the offset where the current token began. */
  method Parse(text: string) returns (r: Result<seq<Token>, TokenizeError>)
    ensures r == Tokenize(text)
    decreases |text|, 1
  {
    var tokens: seq<Token> := [];
    var word: string := [];
    var tokenBegin: nat := 0;
    var i: nat := 0;
    ghost var result := Tokenize(text);
    PrependNothing(result);
    while i < |text|
      invariant tokenBegin <= i <= |text|
      invariant word == text[tokenBegin..i]
      invariant result == Prepend(tokens, Scan(text, tokenBegin, i))
      decreases |text| - i
    {
      if IsWhitespace(text[i]) {
        WhitespaceStep(text, tokenBegin, i);
        PrependAppend(tokens, Pending(text, tokenBegin, i), Scan(text, i + 1, i + 1));
        if word != [] {
          tokens := tokens + [Other(tokenBegin, i - 1, word)];
          word := [];
        } else {
          assert tokens + Pending(text, tokenBegin, i) == tokens;
        }
        tokenBegin := i + 1;
      } else if text[i] == '"' {
        if word != [] {
          AfterWordStep(text, tokenBegin, i);
          return Err(IncorrectChar(CharMessage(text[i], i), word, i));
        }
        var token, end := ReadString(text, tokenBegin);
        if token.Err? {
          return Err(token.error);
        }
        PrependAppend(tokens, [token.value], Scan(text, end + 1, end + 1));
        tokens := tokens + [token.value];
        i := end;
        tokenBegin := i + 1;
      } else if IsOpener(text[i]) {
        if word != [] {
          AfterWordStep(text, tokenBegin, i);
          return Err(IncorrectChar(CharMessage(text[i], i), word, i));
        }
        var token, end := ReadGroup(text, tokenBegin);
        if token.Err? {
          return Err(token.error);
        }
        PrependAppend(tokens, [token.value], Scan(text, end + 1, end + 1));
        tokens := tokens + [token.value];
        i := end;
        tokenBegin := i + 1;
      } else if IsNormalChar(text[i], word == [] && (if i > 0 then IsWhitespace(text[i - 1]) else true)) {
        FirstIsEmptyWord(text, word, tokenBegin, i);
        NormalStep(text, tokenBegin, i);
        assert text[tokenBegin..i + 1] == word + [text[i]];
        word := word + [text[i]];
      } else {
        FirstIsEmptyWord(text, word, tokenBegin, i);
        WrongCharStep(text, tokenBegin, i);
        return Err(IncorrectChar(CharMessage(text[i], i), word, i));
      }
      i := i + 1;
    }
    if word != [] {
      tokens := tokens + [Other(tokenBegin, |text| - 1, word)];
    } else {
      assert tokens + Pending(text, tokenBegin, i) == tokens;
    }
    return Ok(tokens);
  }

  /** The string branch of `Tokenizer::parse` from the opening quote at `begin`: the
      characters up to the next quote make a `Text` token that ends at `end`, and an
      input that ends first is an `IncorrectString` error. */
  method ReadString(text: string, begin: nat) returns (r: Result<Token, TokenizeError>, end: nat)
    requires begin < |text| && text[begin] == '"'
    ensures begin < end <= |text| && (r.Ok? ==> end < |text|)
    ensures r.Ok? <==> FindQuote(text, begin + 1).Some?
    ensures r.Ok? ==> FindQuote(text, begin + 1) == Some(end)
    ensures r.Ok? ==> r.value == Text(begin, end, text[begin + 1..end])
    ensures r.Ok? ==> Scan(text, begin, begin) == Prepend([r.value], Scan(text, end + 1, end + 1))
    ensures r.Err? ==> Scan(text, begin, begin) == Err(r.error)
  {
    var word: string := [];
    var correctStr := false;
    end := begin + 1;
    while end < |text|
      invariant begin < end <= |text|
      invariant word == text[begin + 1..end]
      invariant !correctStr && FindQuote(text, begin + 1) == FindQuote(text, end)
      decreases |text| - end
    {
      if text[end] == '"' {
        correctStr := true;
        break;
      } else {
        word := word + [text[end]];
      }
      end := end + 1;
    }
    if !correctStr {
      UnterminatedStep(text, begin);
      assert word == text[begin + 1..];
      return Err(IncorrectString(StringMessage(begin, end), begin, end, word)), end;
    }
    QuoteStep(text, begin, end);
    r := Ok(Text(begin, end, word));
  }

  /** The bracket branch of `Tokenizer::parse` from the opening bracket at `begin`: a
      stack of open brackets finds the closer that balances it at `end`, the text in
      between is tokenized on its own and re-based, and the group token of the
      opener's kind is returned. An input that ends first is an `IncorrectBrackets`
      error; an error inside the group is returned as it is. */
  method ReadGroup(text: string, begin: nat) returns (r: Result<Token, TokenizeError>, end: nat)
    requires begin < |text| && IsOpener(text[begin])
    ensures begin < end <= |text| && (r.Ok? ==> end < |text|)
    ensures r.Ok? ==> MatchBracket(text, begin + 1, [text[begin]]) == Some(end)
    ensures r.Ok? ==> Scan(text, begin, begin) == Prepend([r.value], Scan(text, end + 1, end + 1))
    ensures r.Err? ==> Scan(text, begin, begin) == Err(r.error)
    decreases |text|, 0
  {
    var word: string := [];
    var bracketsStack := [text[begin]];
    var correctOrder := false;
    end := begin + 1;
    while end < |text|
      invariant begin < end <= |text|
      invariant word == text[begin + 1..end]
      invariant !correctOrder && bracketsStack != []
      invariant MatchBracket(text, begin + 1, [text[begin]]) == MatchBracket(text, end, bracketsStack)
      decreases |text| - end
    {
      var rev := GetRevBracket(text[end]);
      if rev.Some? {
        if bracketsStack[|bracketsStack| - 1] == rev.value {
          bracketsStack := bracketsStack[..|bracketsStack| - 1];
          if bracketsStack == [] {
            correctOrder := true;
            break;
          }
        } else {
          bracketsStack := bracketsStack + [text[end]];
        }
      }
      word := word + [text[end]];
      end := end + 1;
    }
    if !correctOrder {
      UnbalancedBracket(text, begin);
      assert word == text[begin + 1..];
      return Err(IncorrectBrackets(BracketsMessage(begin, end), begin, end, word)), end;
    }
    var parsed := Parse(word);
    if parsed.Err? {
      GroupErrorStep(text, begin, end);
      return Err(parsed.error), end;
    }
    var subTokens := IncTokensOffsets(parsed.value, begin + 1);
    GroupStep(text, begin, end, parsed, subTokens);
    r := Ok(Group(text[begin], begin, end, subTokens));
  }

  /** `inc_tokens_offsets`: adds `offset` to the offsets of every token, rewriting
      each element of the list in turn and nested groups recursively. */
  method IncTokensOffsets(tokens: seq<Token>, offset: nat) returns (r: seq<Token>)
    ensures r == Shift(tokens, offset)
    decreases tokens
  {
    r := tokens;
    for n := 0 to |r|
      invariant |r| == |tokens|
      invariant forall m :: 0 <= m < n ==> r[m] == ShiftToken(tokens[m], offset)
      invariant forall m :: n <= m < |r| ==> r[m] == tokens[m]
    {
      match r[n]
      case Text(b, e, v) =>
        r := r[n := Text(b + offset, e + offset, v)];
      case Other(b, e, v) =>
        r := r[n := Other(b + offset, e + offset, v)];
      case Parentheses(b, e, ts) =>
        var shifted := IncTokensOffsets(ts, offset);
        r := r[n := Parentheses(b + offset, e + offset, shifted)];
      case SquareBrackets(b, e, ts) =>
        var shifted := IncTokensOffsets(ts, offset);
        r := r[n := SquareBrackets(b + offset, e + offset, shifted)];
      case CurlyBrackets(b, e, ts) =>
        var shifted := IncTokensOffsets(ts, offset);
        r := r[n := CurlyBrackets(b + offset, e + offset, shifted)];
    }
  }
}
