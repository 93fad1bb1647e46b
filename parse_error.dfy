/** The parser's error taxonomy (src/parser/parse_error.rs). `IncorrectEventDefinition`
    is used by the parser but missing from the enum in the source; it is declared here
    with the same shape as its siblings. */
module ParseErrors {

  import TokenizeErrors

  datatype ParseError =
    | TokenizeError(inner: TokenizeErrors.TokenizeError)
    | IncorrectUseStatement(message: string, offset: nat)
    | IncorrectObjectDefinition(message: string, offset: nat)
    | IncorrectPropertyDefinition(message: string, offset: nat)
    | IncorrectEventDefinition(message: string, offset: nat)
    | IncorrectSyntax(message: string, offset: nat)
  {
    /** The message of the wrapped tokenizer error, or the stored one. */
    function GetMessage(): (m: string)
      ensures TokenizeError? ==> m == inner.GetMessage()
      ensures !TokenizeError? ==> m == message
    {
      match this
      case TokenizeError(err) => err.GetMessage()
      case IncorrectUseStatement(message, _) => message
      case IncorrectObjectDefinition(message, _) => message
      case IncorrectPropertyDefinition(message, _) => message
      case IncorrectEventDefinition(message, _) => message
      case IncorrectSyntax(message, _) => message
    }

    /** Adds `num` to the offset; a wrapped tokenizer error is re-based itself. */
    function Offset(num: nat): (r: ParseError)
      ensures TokenizeError? ==> r == TokenizeError(inner.Offset(num))
      ensures !TokenizeError? ==> r == this.(offset := offset + num)
    {
      match this
      case TokenizeError(err) => TokenizeError(err.Offset(num))
      case IncorrectUseStatement(m, o) => IncorrectUseStatement(m, o + num)
      case IncorrectObjectDefinition(m, o) => IncorrectObjectDefinition(m, o + num)
      case IncorrectPropertyDefinition(m, o) => IncorrectPropertyDefinition(m, o + num)
      case IncorrectEventDefinition(m, o) => IncorrectEventDefinition(m, o + num)
      case IncorrectSyntax(m, o) => IncorrectSyntax(m, o + num)
    }

    /** The error points into a text of length `n`. */
    predicate Within(n: nat) {
      if TokenizeError? then inner.Within(n) else offset < n
    }
  }

  /** `From<TokenizeError>`: the tokenizer error is wrapped unchanged. */
  function FromTokenizeError(err: TokenizeErrors.TokenizeError): (r: ParseError)
    ensures r.TokenizeError? && r.inner == err
  {
    TokenizeError(err)
  }

  /** Re-basing keeps the variant and the message. */
  lemma OffsetKeepsVariantAndMessage(e: ParseError, num: nat)
    ensures e.Offset(num).TokenizeError? == e.TokenizeError?
    ensures e.Offset(num).IncorrectUseStatement? == e.IncorrectUseStatement?
    ensures e.Offset(num).IncorrectObjectDefinition? == e.IncorrectObjectDefinition?
    ensures e.Offset(num).IncorrectPropertyDefinition? == e.IncorrectPropertyDefinition?
    ensures e.Offset(num).IncorrectEventDefinition? == e.IncorrectEventDefinition?
    ensures e.Offset(num).IncorrectSyntax? == e.IncorrectSyntax?
    ensures e.Offset(num).GetMessage() == e.GetMessage()
  {
  }

  lemma OffsetCompose(e: ParseError, a: nat, b: nat)
    ensures e.Offset(a).Offset(b) == e.Offset(a + b)
  {
    if e.TokenizeError? {
      TokenizeErrors.OffsetCompose(e.inner, a, b);
    }
  }

  lemma OffsetZero(e: ParseError)
    ensures e.Offset(0) == e
  {
    if e.TokenizeError? {
      TokenizeErrors.OffsetZero(e.inner);
    }
  }

  /** Wrapping commutes with re-basing. */
  lemma FromCommutesWithOffset(err: TokenizeErrors.TokenizeError, num: nat)
    ensures FromTokenizeError(err).Offset(num) == FromTokenizeError(err.Offset(num))
    ensures FromTokenizeError(err).GetMessage() == err.GetMessage()
  {
  }

  /** Re-basing an error of a slice that starts at `num` gives one inside the enclosing text. */
  lemma OffsetWithin(e: ParseError, n: nat, num: nat)
    requires e.Within(n)
    ensures e.Offset(num).Within(n + num)
  {
    if e.TokenizeError? {
      TokenizeErrors.OffsetWithin(e.inner, n, num);
    }
  }
}
