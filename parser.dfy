/** `Parser::parse` of src/parser/parser.rs as the loop it is, building a `Tree` in
    place, proved equal to `ParserSpec.ParseText`. The property and object branches of
    the loop, which recurse into `Parse` on a slice of the text, are the methods
    `ParseProperty` and `ParseObject`; each returns the entry it adds and the index of
    the token after the statement. The source panics where `ParseText` is `Panic`; the
    methods require that it does not. */
module Parser {

  import opened Wrappers
  import opened Tokens
  import opened TokenizerSpec
  import opened TokenizerProps
  import opened ParseErrors
  import opened Ast
  import opened ParserSpec
  import Tokenizer
  import Trees

  /** `Parser::parse`: a fresh tree holding exactly what `ParseText` builds, or the
      error it reports. */
  method Parse(text: string) returns (r: Result<Trees.Tree, ParseError>)
    requires !ParseText(text).Panic?
    ensures r.Ok? ==> fresh(r.value) && ParseText(text) == Done(r.value.root)
    ensures r.Err? ==> ParseText(text) == Failed(r.error)
    decreases |text|, 2
  {
    var tree := new Trees.Tree();
    var tokenized := Tokenizer.Parse(text);
    if tokenized.Err? {
      return Err(FromTokenizeError(tokenized.error));
    }
    var tokens := tokenized.value;
    TokenizeSpans(text);
    var i := 0;
    while i < |tokens|
      invariant i <= |tokens|
      invariant fresh(tree)
      invariant Walk(text, tokens, i, tree.root) == ParseText(text)
      decreases |tokens| - i
    {
      assert !StatementAt(text, tokens, i).Panic?;
      var t := tokens[i];
      if t.IsOtherValue("using") {
        if i + 2 < |tokens| && tokens[i + 1].IsOther() && tokens[i + 2].IsOther() {
          tree.Require(NewRequirement(tokens[i + 1].GetValue().value, tokens[i + 2].GetValue().value));
          i := i + 3;
        } else {
          return Err(IncorrectUseStatement(AtOffset(UseMessage, t.GetBegin()), t.GetBegin()));
        }
      } else if t.Other? {
        var className := t.value;
        var statement: Outcome<Statement>;
        if |className| > 0 && className[|className| - 1] == ':' {
          statement := ParseProperty(text, tokens, i);
        } else if i + 1 < |tokens| && tokens[i + 1].IsOtherValue("=>") {
          return Err(EventError(tokens, i));
        } else {
          statement := ParseObject(text, tokens, i);
        }
        match statement
        case Failed(e) =>
          return Err(e);
        case Done(Adds(entry, next)) =>
          tree.AddChild(entry);
          i := next;
      } else {
        return Err(IncorrectSyntax(AtOffset(SyntaxMessage, t.GetBegin()), t.GetBegin()));
      }
    }
    return Ok(tree);
  }

  /** The property branch: `name: value;`. */
  method ParseProperty(text: string, tokens: seq<Token>, i: nat) returns (r: Outcome<Statement>)
    requires Spans(text, tokens)
    requires i < |tokens| && tokens[i].Other? && EndsWith(tokens[i].value, ':')
    requires !PropertyStatement(text, tokens, i).Panic?
    ensures r == PropertyStatement(text, tokens, i)
    decreases |text|, 1
  {
    var t := tokens[i];
    var className := t.value;
    if i + 1 >= |tokens| {
      return Failed(IncorrectPropertyDefinition(AtOffset(PropertyMessage, t.GetBegin()), t.GetBegin()));
    }
    var j := i + 1;
    var correctEnding := false;
    while j < |tokens|
      invariant i + 1 <= j <= |tokens|
      invariant !correctEnding
      invariant FindSemicolon(tokens, j) == FindSemicolon(tokens, i + 1)
      decreases |tokens| - j
    {
      if tokens[j].Other? && |tokens[j].value| > 0 && tokens[j].value[|tokens[j].value| - 1] == ';' {
        correctEnding := true;
        break;
      }
      j := j + 1;
    }
    if !correctEnding {
      return Failed(IncorrectPropertyDefinition(AtOffset(SemicolonMessage, t.GetBegin()), t.GetBegin()));
    }
    assert FindSemicolon(tokens, i + 1) == Some(j);
    var value :- ParsePropertyValue(text, tokens, i, j);
    return Done(Adds(PropertyEntry(Property(className[..|className| - 1], value)), j + 1));
  }

  /** The value of a property whose last token is `j` (the block passed to
      `Property::entry`). */
  method ParsePropertyValue(text: string, tokens: seq<Token>, i: nat, j: nat) returns (r: Outcome<PropertyValue>)
    requires Spans(text, tokens)
    requires i < j < |tokens| && EndsStatement(tokens[j])
    requires !PropertyValueOf(text, tokens, i, j).Panic?
    ensures r == PropertyValueOf(text, tokens, i, j)
    decreases |text|, 0
  {
    var t := tokens[i];
    if j - i <= 2 {
      if j - i == 2 {
        return Done(TextValue(tokens[i + 1].GetValue().value));
      } else {
        var v := tokens[i + 1].GetValue().value;
        return Done(TextValue(v[..|v| - 1]));
      }
    } else {
      var begin := tokens[i + 1].GetBegin();
      assert tokens[i + 1].end < tokens[j].begin;
      var parsed := Parse(text[begin..tokens[j].GetEnd()]);
      if parsed.Err? {
        return Failed(parsed.error.Offset(begin));
      }
      var children := parsed.value.root.children;
      if |children| != 1 {
        return Failed(IncorrectPropertyDefinition(AtOffset(SingleObjectMessage, t.GetBegin()), t.GetBegin()));
      }
      match children[0]
      case ObjectEntry(obj) =>
        return Done(ObjectValue(obj));
      case _ =>
        return Failed(IncorrectPropertyDefinition(AtOffset(NotObjectMessage, t.GetBegin()), t.GetBegin()));
    }
  }

  /** The object branch: `Class [name] body`. */
  method ParseObject(text: string, tokens: seq<Token>, i: nat) returns (r: Outcome<Statement>)
    requires Spans(text, tokens)
    requires i < |tokens| && tokens[i].Other?
    requires !ObjectStatement(text, tokens, i).Panic?
    ensures r == ObjectStatement(text, tokens, i)
    decreases |text|, 0
  {
    var className := tokens[i].value;
    var name: Option<string> := None;
    var k := i;
    if k + 1 >= |tokens| {
      return Failed(IncorrectObjectDefinition(AtOffset(ObjectMessage, tokens[k].GetBegin()), tokens[k].GetBegin()));
    }
    if tokens[k + 1].Other? {
      name := Some(tokens[k + 1].value);
      k := k + 1;
    }
    if k + 1 >= |tokens| {
      return Failed(IncorrectObjectDefinition(AtOffset(ObjectMessage, tokens[k].GetBegin()), tokens[k].GetBegin()));
    }
    var body := tokens[k + 1];
    var children: seq<Entry> := [];
    if body.GetEnd() - body.GetBegin() > 0 {
      var parsed := Parse(text[body.GetBegin() + 1..body.GetEnd()]);
      if parsed.Err? {
        return Failed(parsed.error);
      }
      children := parsed.value.root.children;
    }
    return Done(Adds(ObjectEntry(Object(className, name, children)), k + 2));
  }
}
