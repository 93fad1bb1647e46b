/** Properties of `ParserSpec.ParseText`: what each kind of statement yields or reports,
    where the errors point, and the shape of the trees it builds. */
module ParserProps {

  import opened Wrappers
  import opened Tokens
  import opened TokenizeErrors
  import opened TokenizerSpec
  import opened TokenizerProps
  import opened ParseErrors
  import opened Ast
  import opened ParserSpec

  // ---------------------------------------------------------------------------
  // One statement

  /** `using lib version`: two barewords give a requirement, anything else an
      `IncorrectUseStatement` at the keyword. */
  lemma UsingStatement(text: string, tokens: seq<Token>, i: nat)
    requires Spans(text, tokens) && i < |tokens| && tokens[i].IsOtherValue("using")
    ensures StatementAt(text, tokens, i).Done?
        <==> i + 2 < |tokens| && tokens[i + 1].Other? && tokens[i + 2].Other?
    ensures StatementAt(text, tokens, i).Done? ==>
      StatementAt(text, tokens, i).value
        == Requires(NewRequirement(tokens[i + 1].value, tokens[i + 2].value), i + 3)
    ensures !StatementAt(text, tokens, i).Done? ==>
      StatementAt(text, tokens, i)
        == Failed(IncorrectUseStatement(AtOffset(UseMessage, tokens[i].begin), tokens[i].begin))
  {
  }

  /** A string or a bracket group where a statement should start is an `IncorrectSyntax`
      at its first character. */
  lemma SyntaxError(text: string, tokens: seq<Token>, i: nat)
    requires Spans(text, tokens) && i < |tokens| && !tokens[i].Other?
    ensures StatementAt(text, tokens, i)
      == Failed(IncorrectSyntax(AtOffset(SyntaxMessage, tokens[i].begin), tokens[i].begin))
  {
  }

  /** `name => …`: with event support switched off, every event connection is an
      `IncorrectEventDefinition` at the event name; the Rhai message is reported
      exactly when a curly-bracket group follows the arrow. */
  lemma EventStatement(text: string, tokens: seq<Token>, i: nat)
    requires Spans(text, tokens) && i + 1 < |tokens|
    requires tokens[i].Other? && tokens[i].value != "using" && !EndsWith(tokens[i].value, ':')
    requires tokens[i + 1].IsOtherValue("=>")
    ensures StatementAt(text, tokens, i).Failed?
    ensures StatementAt(text, tokens, i).error.IncorrectEventDefinition?
    ensures StatementAt(text, tokens, i).error.offset == tokens[i].begin
    ensures StatementAt(text, tokens, i).error.message == AtOffset(RhaiMessage, tokens[i].begin)
        <==> i + 2 < |tokens| && tokens[i + 2].CurlyBrackets?
  {
    var b := tokens[i].begin;
    assert |RhaiMessage| == 47 && |UndefinedEventMessage| == 32 && |EventMessage| == 37;
  }

  /** A property statement: the name is the bareword without its `:`, the value ends at
      the first bareword ending in `;`, and a missing value or `;` is an
      `IncorrectPropertyDefinition` at the name. */
  lemma PropertyStatementShape(text: string, tokens: seq<Token>, i: nat)
    requires Spans(text, tokens)
    requires i < |tokens| && tokens[i].Other? && EndsWith(tokens[i].value, ':')
    ensures var r := PropertyStatement(text, tokens, i);
      r.Done? ==>
        && FindSemicolon(tokens, i + 1) == Some(r.value.next - 1)
        && r.value.entry.PropertyEntry?
        && r.value.entry.prop.name == tokens[i].value[..|tokens[i].value| - 1]
    ensures var r := PropertyStatement(text, tokens, i);
      (i + 1 == |tokens| || FindSemicolon(tokens, i + 1).None?) ==>
        r.Failed? && r.error.IncorrectPropertyDefinition? && r.error.offset == tokens[i].begin
  {
  }

  /** A value of one or two tokens is text: a bareword `v;` gives `v`, a token followed
      by `;` gives its value, and a bracket group followed by `;` is the panic of
      `unwrap`. */
  lemma PropertyTextValue(text: string, tokens: seq<Token>, i: nat, j: nat)
    requires Spans(text, tokens)
    requires i < |tokens| && tokens[i].Other? && EndsWith(tokens[i].value, ':')
    requires i + 1 < |tokens| && FindSemicolon(tokens, i + 1) == Some(j) && j <= i + 2
    ensures var name := tokens[i].value[..|tokens[i].value| - 1];
      j == i + 1 ==>
        PropertyStatement(text, tokens, i)
          == Done(Adds(PropertyEntry(Property(name, TextValue(tokens[j].value[..|tokens[j].value| - 1]))), i + 2))
    ensures var name := tokens[i].value[..|tokens[i].value| - 1];
      j == i + 2 && !tokens[i + 1].IsGroup() ==>
        PropertyStatement(text, tokens, i)
          == Done(Adds(PropertyEntry(Property(name, TextValue(tokens[i + 1].value))), i + 3))
    ensures j == i + 2 && tokens[i + 1].IsGroup() ==> PropertyStatement(text, tokens, i) == Panic
  {
  }

  /** A longer value is the text from its first token up to (not including) the final
      `;`, parsed on its own: it must give exactly one object, and its errors are
      re-based onto the enclosing text. */
  lemma PropertyObjectValue(text: string, tokens: seq<Token>, i: nat, j: nat)
    requires Spans(text, tokens)
    requires i < |tokens| && tokens[i].Other? && EndsWith(tokens[i].value, ':')
    requires i + 1 < |tokens| && FindSemicolon(tokens, i + 1) == Some(j) && j > i + 2
    ensures tokens[i + 1].begin <= tokens[j].end < |text|
    ensures var sub := ParseText(text[tokens[i + 1].begin..tokens[j].end]);
      sub.Failed? ==> PropertyStatement(text, tokens, i) == Failed(sub.error.Offset(tokens[i + 1].begin))
    ensures var sub := ParseText(text[tokens[i + 1].begin..tokens[j].end]);
      PropertyStatement(text, tokens, i).Done? <==>
        sub.Done? && |sub.value.children| == 1 && sub.value.children[0].ObjectEntry?
    ensures var sub := ParseText(text[tokens[i + 1].begin..tokens[j].end]);
      PropertyStatement(text, tokens, i).Done? ==>
        PropertyStatement(text, tokens, i).value.entry.prop.value == ObjectValue(sub.value.children[0].obj)
    ensures var sub := ParseText(text[tokens[i + 1].begin..tokens[j].end]);
      var r := PropertyStatement(text, tokens, i);
      sub.Done? && !(|sub.value.children| == 1 && sub.value.children[0].ObjectEntry?) ==>
        r.Failed? && r.error.IncorrectPropertyDefinition? && r.error.offset == tokens[i].begin
  {
    assert tokens[i + 1].end < tokens[j].begin;
  }

  /** An object statement: the class, then a bareword name if one follows, then any one
      token as the body, whose children are those `BodyChildren` finds and whose error
      is passed on as it is; with nothing after the class, or after the name, it is an
      `IncorrectObjectDefinition` at the last token. */
  lemma ObjectStatementShape(text: string, tokens: seq<Token>, i: nat)
    requires Spans(text, tokens) && i < |tokens| && tokens[i].Other?
    ensures var r := ObjectStatement(text, tokens, i);
      r.Done? ==>
        && r.value.entry.ObjectEntry?
        && r.value.entry.obj.className == tokens[i].value
        && (r.value.entry.obj.name.Some? <==> tokens[i + 1].Other?)
        && (tokens[i + 1].Other? ==> r.value.entry.obj.name == Some(tokens[i + 1].value))
        && r.value.next == (if tokens[i + 1].Other? then i + 3 else i + 2)
        && BodyChildren(text, tokens[r.value.next - 1]) == Done(r.value.entry.obj.children)
    ensures i + 1 < |tokens| ==>
      var k := if tokens[i + 1].Other? then i + 1 else i;
      k + 1 < |tokens| && BodyChildren(text, tokens[k + 1]).Failed? ==>
        ObjectStatement(text, tokens, i) == Failed(BodyChildren(text, tokens[k + 1]).error)
    ensures i + 1 == |tokens| ==>
      ObjectStatement(text, tokens, i)
        == Failed(IncorrectObjectDefinition(AtOffset(ObjectMessage, tokens[i].begin), tokens[i].begin))
    ensures i + 2 == |tokens| && tokens[i + 1].Other? ==>
      ObjectStatement(text, tokens, i)
        == Failed(IncorrectObjectDefinition(AtOffset(ObjectMessage, tokens[i + 1].begin), tokens[i + 1].begin))
  {
  }

  /** The body of an object: a one-character body has no children; otherwise the text
      strictly inside it is parsed on its own, its children are kept and its
      requirements dropped. */
  lemma ObjectBody(text: string, body: Token)
    requires body.begin <= body.end < |text|
    ensures body.begin == body.end ==> BodyChildren(text, body) == Done([])
    ensures body.begin < body.end && ParseText(text[body.begin + 1..body.end]).Done? ==>
      BodyChildren(text, body) == Done(ParseText(text[body.begin + 1..body.end]).value.children)
  {
    if body.begin < body.end {
      var inner := text[body.begin + 1..body.end];
      if ParseText(inner).Done? {
        BodyOfDone(text, body, ParseText(inner).value);
      }
    }
  }

  /** The children of a body whose inner text parses. */
  lemma BodyOfDone(text: string, body: Token, sub: Root)
    requires body.begin < body.end < |text|
    requires ParseText(text[body.begin + 1..body.end]) == Done(sub)
    ensures BodyChildren(text, body) == Done(sub.children)
  {
  }

  /** An error in the text strictly inside an object body is passed on as it is, with
      its offset relative to that inner text. */
  lemma ObjectBodyError(text: string, body: Token)
    requires body.begin < body.end < |text|
    requires ParseText(text[body.begin + 1..body.end]).Failed?
    ensures BodyChildren(text, body) == Failed(ParseText(text[body.begin + 1..body.end]).error)
  {
    var sub := ParseText(text[body.begin + 1..body.end]);
    assert BodyChildren(text, body) == Failed(sub.error);
  }

  // ---------------------------------------------------------------------------
  // Whole texts

  /** A tokenizer error is reported as it is, wrapped in `TokenizeError`. */
  lemma TokenizeFailure(text: string)
    requires Tokenize(text).Err?
    ensures ParseText(text) == Failed(TokenizeError(Tokenize(text).error))
  {
  }

  /** An empty or blank text is an empty tree. */
  lemma BlankText(text: string)
    requires forall k :: 0 <= k < |text| ==> IsWhitespace(text[k])
    ensures ParseText(text) == Done(Root([], []))
  {
    TokenizeEmptyIffWhitespace(text);
  }

  /** An event connection written as the documented `name => …`, with a plain name,
      never reaches the event branch: the `=` after the space cannot start a bareword,
      so the tokenizer rejects it. */
  lemma ArrowAfterSpaceIsRejected(name: string, rest: string)
    requires |name| > 0 && forall k :: 0 <= k < |name| ==> IsAlwaysWordChar(name[k])
    ensures ParseText(name + " =>" + rest)
      == Failed(TokenizeError(IncorrectChar(CharMessage('=', |name| + 1), [], |name| + 1)))
  {
    var text := name + " =>" + rest;
    assert forall k :: 0 <= k < |name| ==> text[k] == name[k];
    ScanSkipsWord(text, 0, 0, |name|);
    assert text[|name|] == ' ' && text[|name| + 1] == '=';
    PunctuationCannotStart(text, |name| + 1);
  }

  // ---------------------------------------------------------------------------
  // The statements are appended in order

  /** The loop only appends: the requirements and children it starts from are prefixes
      of those it ends with. */
  lemma {:induction false} WalkExtends(text: string, tokens: seq<Token>, i: nat, root: Root)
    requires Spans(text, tokens) && i <= |tokens|
    ensures var r := Walk(text, tokens, i, root);
      r.Done? ==> root.requirements <= r.value.requirements && root.children <= r.value.children
    decreases |tokens| - i
  {
    if i < |tokens| {
      match StatementAt(text, tokens, i)
      case Done(Requires(q, next)) =>
        WalkExtends(text, tokens, next, root.Require(q));
      case Done(Adds(e, next)) =>
        WalkExtends(text, tokens, next, root.AddChild(e));
      case _ =>
    }
  }

  // ---------------------------------------------------------------------------
  // Error positions

  /** Every error of the parser points into the text it was given. */
  lemma {:induction false} ParseErrorWithin(text: string)
    ensures ParseText(text).Failed? ==> ParseText(text).error.Within(|text|)
    decreases |text|, 2, 0
  {
    match Tokenize(text)
    case Err(_) =>
      TokenizeErrorWithin(text);
    case Ok(tokens) =>
      TokenizeSpans(text);
      WalkErrorWithin(text, tokens, 0, Root([], []));
  }

  lemma {:induction false} WalkErrorWithin(text: string, tokens: seq<Token>, i: nat, root: Root)
    requires Spans(text, tokens) && i <= |tokens|
    ensures Walk(text, tokens, i, root).Failed? ==> Walk(text, tokens, i, root).error.Within(|text|)
    decreases |text|, 1, |tokens| - i
  {
    if i < |tokens| {
      StatementErrorWithin(text, tokens, i);
      match StatementAt(text, tokens, i)
      case Done(Requires(q, next)) =>
        WalkErrorWithin(text, tokens, next, root.Require(q));
      case Done(Adds(e, next)) =>
        WalkErrorWithin(text, tokens, next, root.AddChild(e));
      case _ =>
    }
  }

  lemma {:induction false} StatementErrorWithin(text: string, tokens: seq<Token>, i: nat)
    requires Spans(text, tokens) && i < |tokens|
    ensures StatementAt(text, tokens, i).Failed? ==> StatementAt(text, tokens, i).error.Within(|text|)
    decreases |text|, 0, 3
  {
    var t := tokens[i];
    if !t.IsOtherValue("using") && t.Other? {
      if EndsWith(t.value, ':') {
        PropertyErrorWithin(text, tokens, i);
      } else if !(i + 1 < |tokens| && tokens[i + 1].IsOtherValue("=>")) {
        ObjectErrorWithin(text, tokens, i);
      }
    }
  }

  lemma {:induction false} PropertyErrorWithin(text: string, tokens: seq<Token>, i: nat)
    requires Spans(text, tokens)
    requires i < |tokens| && tokens[i].Other? && EndsWith(tokens[i].value, ':')
    ensures PropertyStatement(text, tokens, i).Failed? ==> PropertyStatement(text, tokens, i).error.Within(|text|)
    decreases |text|, 0, 2
  {
    if i + 1 < |tokens| && FindSemicolon(tokens, i + 1).Some? {
      PropertyValueErrorWithin(text, tokens, i, FindSemicolon(tokens, i + 1).value);
    }
  }

  lemma {:induction false} PropertyValueErrorWithin(text: string, tokens: seq<Token>, i: nat, j: nat)
    requires Spans(text, tokens)
    requires i < j < |tokens| && EndsStatement(tokens[j])
    ensures PropertyValueOf(text, tokens, i, j).Failed? ==> PropertyValueOf(text, tokens, i, j).error.Within(|text|)
    decreases |text|, 0, 1
  {
    if j - i > 2 {
      var begin := tokens[i + 1].begin;
      assert tokens[i + 1].end < tokens[j].begin;
      var sub := text[begin..tokens[j].end];
      ParseErrorWithin(sub);
      if ParseText(sub).Failed? {
        ParseErrors.OffsetWithin(ParseText(sub).error, |sub|, begin);
      }
    }
  }

  lemma {:induction false} ObjectErrorWithin(text: string, tokens: seq<Token>, i: nat)
    requires Spans(text, tokens) && i < |tokens| && tokens[i].Other?
    ensures ObjectStatement(text, tokens, i).Failed? ==> ObjectStatement(text, tokens, i).error.Within(|text|)
    decreases |text|, 0, 2
  {
    if i + 1 < |tokens| {
      var k := if tokens[i + 1].Other? then i + 1 else i;
      if k + 1 < |tokens| {
        BodyErrorWithin(text, tokens[k + 1]);
      }
    }
  }

  lemma {:induction false} BodyErrorWithin(text: string, body: Token)
    requires body.begin <= body.end < |text|
    ensures BodyChildren(text, body).Failed? ==> BodyChildren(text, body).error.Within(|text|)
    decreases |text|, 0, 0
  {
    if body.end - body.begin > 0 {
      var sub := text[body.begin + 1..body.end];
      ParseErrorWithin(sub);
      if ParseText(sub).Failed? {
        WithinGrows(ParseText(sub).error, |sub|, |text|);
      }
    }
  }

  lemma WithinGrows(e: ParseError, n: nat, m: nat)
    requires e.Within(n) && n <= m
    ensures e.Within(m)
  {
  }

  // ---------------------------------------------------------------------------
  // The trees built hold objects and properties only

  /** No root entry anywhere among `es`, their objects' children, or the objects held
      by their properties. */
  predicate NoRoots(es: seq<Entry>)
    decreases es
  {
    forall k :: 0 <= k < |es| ==> NoRootIn(es[k])
  }

  predicate NoRootIn(e: Entry)
    decreases e
  {
    match e
    case RootEntry(_) => false
    case ObjectEntry(o) => NoRoots(o.children)
    case PropertyEntry(Property(_, TextValue(_))) => true
    case PropertyEntry(Property(_, ObjectValue(o))) => NoRoots(o.children)
  }

  /** The parser never nests a root: every entry it builds, at every depth, is an
      object or a property. */
  lemma {:induction false} ParsedHasNoRoots(text: string)
    ensures ParseText(text).Done? ==> NoRoots(ParseText(text).value.children)
    decreases |text|, 2, 0
  {
    match Tokenize(text)
    case Err(_) =>
    case Ok(tokens) =>
      TokenizeSpans(text);
      WalkHasNoRoots(text, tokens, 0, Root([], []));
  }

  lemma {:induction false} WalkHasNoRoots(text: string, tokens: seq<Token>, i: nat, root: Root)
    requires Spans(text, tokens) && i <= |tokens|
    requires NoRoots(root.children)
    ensures Walk(text, tokens, i, root).Done? ==> NoRoots(Walk(text, tokens, i, root).value.children)
    decreases |text|, 1, |tokens| - i
  {
    if i < |tokens| {
      StatementHasNoRoots(text, tokens, i);
      match StatementAt(text, tokens, i)
      case Done(Requires(q, next)) =>
        WalkHasNoRoots(text, tokens, next, root.Require(q));
      case Done(Adds(e, next)) =>
        WalkHasNoRoots(text, tokens, next, root.AddChild(e));
      case _ =>
    }
  }

  lemma {:induction false} StatementHasNoRoots(text: string, tokens: seq<Token>, i: nat)
    requires Spans(text, tokens) && i < |tokens|
    ensures var r := StatementAt(text, tokens, i);
      r.Done? && r.value.Adds? ==> NoRootIn(r.value.entry)
    decreases |text|, 0, 3
  {
    var t := tokens[i];
    if !t.IsOtherValue("using") && t.Other? {
      if EndsWith(t.value, ':') {
        PropertyHasNoRoots(text, tokens, i);
      } else if !(i + 1 < |tokens| && tokens[i + 1].IsOtherValue("=>")) {
        ObjectHasNoRoots(text, tokens, i);
      }
    }
  }

  lemma {:induction false} PropertyHasNoRoots(text: string, tokens: seq<Token>, i: nat)
    requires Spans(text, tokens)
    requires i < |tokens| && tokens[i].Other? && EndsWith(tokens[i].value, ':')
    ensures var r := PropertyStatement(text, tokens, i);
      r.Done? ==> NoRootIn(r.value.entry)
    decreases |text|, 0, 2
  {
    if i + 1 < |tokens| && FindSemicolon(tokens, i + 1).Some? {
      PropertyValueHasNoRoots(text, tokens, i, FindSemicolon(tokens, i + 1).value);
    }
  }

  lemma {:induction false} PropertyValueHasNoRoots(text: string, tokens: seq<Token>, i: nat, j: nat)
    requires Spans(text, tokens)
    requires i < j < |tokens| && EndsStatement(tokens[j])
    ensures var r := PropertyValueOf(text, tokens, i, j);
      r.Done? && r.value.ObjectValue? ==> NoRoots(r.value.obj.children)
    decreases |text|, 0, 1
  {
    if j - i > 2 {
      assert tokens[i + 1].end < tokens[j].begin;
      var sub := text[tokens[i + 1].begin..tokens[j].end];
      ParsedHasNoRoots(sub);
      if ParseText(sub).Done? && |ParseText(sub).value.children| == 1 {
        assert NoRootIn(ParseText(sub).value.children[0]);
      }
    }
  }

  lemma {:induction false} ObjectHasNoRoots(text: string, tokens: seq<Token>, i: nat)
    requires Spans(text, tokens) && i < |tokens| && tokens[i].Other?
    ensures var r := ObjectStatement(text, tokens, i);
      r.Done? ==> NoRootIn(r.value.entry)
    decreases |text|, 0, 2
  {
    if i + 1 < |tokens| {
      var k := if tokens[i + 1].Other? then i + 1 else i;
      if k + 1 < |tokens| {
        BodyHasNoRoots(text, tokens[k + 1]);
      }
    }
  }

  lemma {:induction false} BodyHasNoRoots(text: string, body: Token)
    requires body.begin <= body.end < |text|
    ensures BodyChildren(text, body).Done? ==> NoRoots(BodyChildren(text, body).value)
    decreases |text|, 0, 0
  {
    if body.end - body.begin > 0 {
      ParsedHasNoRoots(text[body.begin + 1..body.end]);
    }
  }
}
