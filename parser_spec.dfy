/** What `Parser::parse` of src/parser/parser.rs computes, as functions over the token
    list. The main loop is `Walk`, one call per statement; `StatementAt` is the body of
    one iteration and says which requirement or entry the statement adds and where the
    next statement starts. A panic of the source (`unwrap` on a bracket group) is the
    outcome `Panic`. */
module ParserSpec {

  import opened Wrappers
  import opened Tokens
  import opened TokenizeErrors
  import opened TokenizerSpec
  import opened TokenizerProps
  import opened ParseErrors
  import opened Ast
  import Decimal

  /** A result of the parser, or the panic it may run into. Failure-compatible, so
      `:-` passes both an error and a panic on unchanged, as `?` and unwinding do. */
  datatype Outcome<+T> = Done(value: T) | Failed(error: ParseError) | Panic
  {
    predicate IsFailure() {
      !Done?
    }

    function PropagateFailure<U>(): Outcome<U>
      requires !Done?
    {
      if Failed? then Failed(error) else Panic
    }

    function Extract(): T
      requires Done?
    {
      value
    }
  }

  /** What one statement contributes, and the index of the token after it. */
  datatype Statement =
    | Requires(requirement: Requirement, next: nat)
    | Adds(entry: Entry, next: nat)

  /** A message followed by the decimal offset, as the `format!` calls write it. */
  function AtOffset(message: string, offset: nat): string {
    message + Decimal.NatToString(offset)
  }

  const UseMessage := "Incorrect use statement at offset "
  const SemicolonMessage := "Property value must be ended by semicolon, occured at offset "
  const SingleObjectMessage := "Property value must be a single object, occured at offset "
  const NotObjectMessage := "Property value must be an object, occured at offset "
  const PropertyMessage := "Incorrect property definition at offset "
  const RhaiMessage := "Rhai feature is not enabled, occured at offset "
  const UndefinedEventMessage := "Undefined event value at offset "
  const EventMessage := "Incorrect event definition at offset "
  const ObjectMessage := "Incorrect object definition at offset "
  const SyntaxMessage := "Incorrect syntax at offset "

  /** `s` is non-empty and its last character is `c` (`s.chars().last() == Some(c)`). */
  predicate EndsWith(s: string, c: char) {
    |s| > 0 && s[|s| - 1] == c
  }

  /** A bareword ending in `;`: the end of a property value. */
  predicate EndsStatement(t: Token) {
    t.Other? && EndsWith(t.value, ';')
  }

  /** The first index from `j` on whose token ends a property value (the `j` loop). */
  function FindSemicolon(tokens: seq<Token>, j: nat): (r: Option<nat>)
    requires j <= |tokens|
    ensures r.Some? ==> j <= r.value < |tokens| && EndsStatement(tokens[r.value])
    ensures r.Some? ==> forall k :: j <= k < r.value ==> !EndsStatement(tokens[k])
    ensures r.None? ==> forall k :: j <= k < |tokens| ==> !EndsStatement(tokens[k])
    decreases |tokens| - j
  {
    if j == |tokens| then None
    else if EndsStatement(tokens[j]) then Some(j)
    else FindSemicolon(tokens, j + 1)
  }

  /** Every token spans characters of the text, and the spans are in increasing order:
      what the parser relies on of the tokenizer's output. */
  predicate Spans(text: string, tokens: seq<Token>) {
    && (forall k :: 0 <= k < |tokens| ==> tokens[k].begin <= tokens[k].end < |text|)
    && (forall k, m :: 0 <= k < m < |tokens| ==> tokens[k].end < tokens[m].begin)
  }

  lemma AgreeingSpans(text: string, tokens: seq<Token>)
    requires TokensAgree(text, tokens, 0, |text|)
    ensures Spans(text, tokens)
  {
    forall k | 0 <= k < |tokens|
      ensures tokens[k].begin <= tokens[k].end < |text|
    {
      assert TokenAgrees(text, tokens[k], |text|);
    }
  }

  /** The tokenizer's output meets the span facts the parser relies on. */
  lemma TokenizeSpans(text: string)
    ensures Tokenize(text).Ok? ==> Spans(text, Tokenize(text).value)
  {
    if Tokenize(text).Ok? {
      TokenizeAgrees(text);
      AgreeingSpans(text, Tokenize(text).value);
    }
  }

  /** `Parser::parse`: tokenize, then walk the statements from the first token on an
      empty root. */
  function ParseText(text: string): Outcome<Root>
    decreases |text|, 2, 0
  {
    match Tokenize(text)
    case Err(e) => Failed(FromTokenizeError(e))
    case Ok(tokens) =>
      TokenizeSpans(text);
      Walk(text, tokens, 0, Root([], []))
  }

  /** The main loop from the statement at `i` on, with the tree built so far in `root`. */
  function Walk(text: string, tokens: seq<Token>, i: nat, root: Root): Outcome<Root>
    requires Spans(text, tokens)
    requires i <= |tokens|
    decreases |text|, 1, |tokens| - i
  {
    if i == |tokens| then Done(root)
    else
      var s :- StatementAt(text, tokens, i);
      match s
      case Requires(q, next) => Walk(text, tokens, next, root.Require(q))
      case Adds(e, next) => Walk(text, tokens, next, root.AddChild(e))
  }

  /** One iteration of the main loop on the statement starting at token `i`. */
  function StatementAt(text: string, tokens: seq<Token>, i: nat): (r: Outcome<Statement>)
    requires Spans(text, tokens)
    requires i < |tokens|
    ensures r.Done? ==> i < r.value.next <= |tokens|
    decreases |text|, 0, 3
  {
    var t := tokens[i];
    if t.IsOtherValue("using") then
      if i + 2 < |tokens| && tokens[i + 1].IsOther() && tokens[i + 2].IsOther() then
        Done(Requires(NewRequirement(tokens[i + 1].value, tokens[i + 2].value), i + 3))
      else
        Failed(IncorrectUseStatement(AtOffset(UseMessage, t.begin), t.begin))
    else if t.Other? then
      if EndsWith(t.value, ':') then
        PropertyStatement(text, tokens, i)
      else if i + 1 < |tokens| && tokens[i + 1].IsOtherValue("=>") then
        Failed(EventError(tokens, i))
      else
        ObjectStatement(text, tokens, i)
    else
      Failed(IncorrectSyntax(AtOffset(SyntaxMessage, t.begin), t.begin))
  }

  /** `name: value;` — the value runs up to the first bareword ending in `;`. */
  function PropertyStatement(text: string, tokens: seq<Token>, i: nat): (r: Outcome<Statement>)
    requires Spans(text, tokens)
    requires i < |tokens| && tokens[i].Other? && EndsWith(tokens[i].value, ':')
    ensures r.Done? ==> r.value.Adds? && i < r.value.next <= |tokens|
    decreases |text|, 0, 2
  {
    var t := tokens[i];
    if i + 1 < |tokens| then
      match FindSemicolon(tokens, i + 1)
      case None =>
        Failed(IncorrectPropertyDefinition(AtOffset(SemicolonMessage, t.begin), t.begin))
      case Some(j) =>
        var value :- PropertyValueOf(text, tokens, i, j);
        Done(Adds(PropertyEntry(Property(t.value[..|t.value| - 1], value)), j + 1))
    else
      Failed(IncorrectPropertyDefinition(AtOffset(PropertyMessage, t.begin), t.begin))
  }

  /** The value of the property named by token `i` whose last token is `j`: the bareword
      without its `;`, a single token's value, or else the one object the text between
      parses to. */
  function PropertyValueOf(text: string, tokens: seq<Token>, i: nat, j: nat): Outcome<PropertyValue>
    requires Spans(text, tokens)
    requires i < j < |tokens| && EndsStatement(tokens[j])
    decreases |text|, 0, 1
  {
    var t := tokens[i];
    if j - i == 1 then
      var v := tokens[j].value;
      Done(TextValue(v[..|v| - 1]))
    else if j - i == 2 then
      match tokens[i + 1].GetValue()
      case Some(v) => Done(TextValue(v))
      case None => Panic
    else
      var begin := tokens[i + 1].begin;
      assert tokens[i + 1].end < tokens[j].begin;
      match ParseText(text[begin..tokens[j].end])
      case Failed(e) => Failed(e.Offset(begin))
      case Panic => Panic
      case Done(sub) =>
        if |sub.children| != 1 then
          Failed(IncorrectPropertyDefinition(AtOffset(SingleObjectMessage, t.begin), t.begin))
        else
          match sub.children[0]
          case ObjectEntry(obj) => Done(ObjectValue(obj))
          case _ => Failed(IncorrectPropertyDefinition(AtOffset(NotObjectMessage, t.begin), t.begin))
  }

  /** A bareword followed by `=>`: with event support switched off every form fails. */
  function EventError(tokens: seq<Token>, i: nat): (e: ParseError)
    requires i + 1 < |tokens|
    ensures e.IncorrectEventDefinition? && e.offset == tokens[i].begin
  {
    var begin := tokens[i].begin;
    if i + 2 < |tokens| then
      if tokens[i + 2].CurlyBrackets? then
        IncorrectEventDefinition(AtOffset(RhaiMessage, begin), begin)
      else
        IncorrectEventDefinition(AtOffset(UndefinedEventMessage, begin), begin)
    else
      IncorrectEventDefinition(AtOffset(EventMessage, begin), begin)
  }

  /** `Class [name] body`: an optional bareword name, then any token as the body. */
  function ObjectStatement(text: string, tokens: seq<Token>, i: nat): (r: Outcome<Statement>)
    requires Spans(text, tokens)
    requires i < |tokens| && tokens[i].Other?
    ensures r.Done? ==> r.value.Adds? && i < r.value.next <= |tokens|
    decreases |text|, 0, 2
  {
    var t := tokens[i];
    if i + 1 >= |tokens| then
      Failed(IncorrectObjectDefinition(AtOffset(ObjectMessage, t.begin), t.begin))
    else
      var named := tokens[i + 1].Other?;
      var name := if named then Some(tokens[i + 1].value) else None;
      var k := if named then i + 1 else i;
      if k + 1 < |tokens| then
        var children :- BodyChildren(text, tokens[k + 1]);
        Done(Adds(ObjectEntry(Object(t.value, name, children)), k + 2))
      else
        Failed(IncorrectObjectDefinition(AtOffset(ObjectMessage, tokens[k].begin), tokens[k].begin))
  }

  /** The children of an object: the entries of the text strictly inside the body token,
      or none for a one-character body. The nested root's requirements are dropped and
      its errors are passed on without re-basing. */
  function BodyChildren(text: string, body: Token): Outcome<seq<Entry>>
    requires body.begin <= body.end < |text|
    decreases |text|, 0, 0
  {
    if body.end - body.begin > 0 then
      var sub :- ParseText(text[body.begin + 1..body.end]);
      Done(sub.children)
    else
      Done([])
  }
}
