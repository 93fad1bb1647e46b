/** Tokens (src/parser/token.rs). Every variant carries its `begin` and `end`
    character offsets (both inclusive). */
module Tokens {

  import opened Wrappers

  datatype Token =
    | Text(begin: nat, end: nat, value: string)
    | Parentheses(begin: nat, end: nat, tokens: seq<Token>)
    | SquareBrackets(begin: nat, end: nat, tokens: seq<Token>)
    | CurlyBrackets(begin: nat, end: nat, tokens: seq<Token>)
    | Other(begin: nat, end: nat, value: string)
  {
    /** One of the three bracket-group variants. */
    predicate IsGroup() {
      Parentheses? || SquareBrackets? || CurlyBrackets?
    }

    function IsOther(): (r: bool)
      ensures r <==> Other?
    {
      match this
      case Other(_, _, _) => true
      case _ => false
    }

    function IsOtherValue(other: string): (r: bool)
      ensures r <==> Other? && value == other
    {
      match this
      case Other(_, _, value) => value == other
      case _ => false
    }

    function GetValue(): (r: Option<string>)
      ensures r.Some? <==> !IsGroup()
      ensures r.Some? ==> r.value == value
    {
      match this
      case Text(_, _, value) => Some(value)
      case Other(_, _, value) => Some(value)
      case _ => None
    }

    function GetBegin(): (r: nat)
      ensures r == begin
    {
      match this
      case Text(begin, _, _) => begin
      case Parentheses(begin, _, _) => begin
      case SquareBrackets(begin, _, _) => begin
      case CurlyBrackets(begin, _, _) => begin
      case Other(begin, _, _) => begin
    }

    function GetEnd(): (r: nat)
      ensures r == end
    {
      match this
      case Text(_, end, _) => end
      case Parentheses(_, end, _) => end
      case SquareBrackets(_, end, _) => end
      case CurlyBrackets(_, end, _) => end
      case Other(_, end, _) => end
    }
  }

  /** A token equal to a given bareword is a bareword. */
  lemma IsOtherValueIsOther(t: Token, v: string)
    ensures t.IsOtherValue(v) ==> t.IsOther() && t.GetValue() == Some(v)
  {
  }
}
