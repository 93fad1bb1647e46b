/** The tokenizer's error taxonomy (src/parser/tokenize_error.rs). */
module TokenizeErrors {

  datatype TokenizeError =
    | IncorrectChar(message: string, wrongString: string, offset: nat)
    | IncorrectString(message: string, begin: nat, end: nat, wrongString: string)
    | IncorrectBrackets(message: string, begin: nat, end: nat, wrongString: string)
  {
    /** The stored human-readable message of every variant. */
    function GetMessage(): (m: string)
      ensures m == message
    {
      match this
      case IncorrectChar(message, _, _) => message
      case IncorrectString(message, _, _, _) => message
      case IncorrectBrackets(message, _, _, _) => message
    }

    /** Re-bases the positions by `num`; the variant, message and wrong string stay. */
    function Offset(num: nat): (r: TokenizeError)
      ensures r.IncorrectChar? == IncorrectChar?
      ensures r.IncorrectString? == IncorrectString?
      ensures r.IncorrectBrackets? == IncorrectBrackets?
      ensures r.message == message && r.wrongString == wrongString
      ensures IncorrectChar? ==> r.offset == offset + num
      ensures !IncorrectChar? ==> r.begin == begin + num && r.end == end + num
    {
      match this
      case IncorrectChar(m, w, o) => IncorrectChar(m, w, o + num)
      case IncorrectString(m, b, e, w) => IncorrectString(m, b + num, e + num, w)
      case IncorrectBrackets(m, b, e, w) => IncorrectBrackets(m, b + num, e + num, w)
    }

    /** The error points into a text of length `n`: a bad character lies inside it,
        an unterminated string or bracket group starts inside it and runs at most to its end. */
    predicate Within(n: nat) {
      if IncorrectChar? then offset < n else begin < end <= n
    }
  }

  lemma OffsetCompose(e: TokenizeError, a: nat, b: nat)
    ensures e.Offset(a).Offset(b) == e.Offset(a + b)
  {
  }

  lemma OffsetZero(e: TokenizeError)
    ensures e.Offset(0) == e
  {
  }

  /** `IncorrectString`/`IncorrectBrackets` keep the length of the reported span. */
  lemma OffsetKeepsSpan(e: TokenizeError, num: nat)
    requires !e.IncorrectChar?
    ensures e.Offset(num).end - e.Offset(num).begin == e.end - e.begin
  {
  }

  /** Re-basing an error that lies in a slice starting at `num` gives one inside the enclosing text. */
  lemma OffsetWithin(e: TokenizeError, n: nat, num: nat)
    requires e.Within(n)
    ensures e.Offset(num).Within(n + num)
  {
  }
}
