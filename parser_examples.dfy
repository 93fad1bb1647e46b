/** Whole-text behaviour of `ParserSpec.ParseText` on the statement forms exercised by
    src/tests/parser.rs, stated for every bareword rather than for one sample each, and for
    the test's own text where an input holds more than one statement or a nested parse. */
module ParserExamples {

  import opened Wrappers
  import opened Tokens
  import opened TokenizeErrors
  import opened TokenizerSpec
  import opened TokenizerProps
  import opened ParseErrors
  import opened Ast
  import opened ParserSpec
  import ParserProps
  import AstProps

  /** `text[lo..hi]` is a bareword the tokenizer accepts after whitespace or at the input
      start: a letter, digit, `.` or `_`, then any characters a bareword may hold. */
  predicate WordAt(text: string, lo: nat, hi: nat) {
    && lo < hi <= |text|
    && IsAlwaysWordChar(text[lo])
    && forall k :: lo < k < hi ==> IsWordChar(text[k])
  }

  /** A bareword made only of letters, digits, `.` and `_` (a class or object name). */
  predicate Name(w: string) {
    |w| > 0 && forall k :: 0 <= k < |w| ==> IsAlwaysWordChar(w[k])
  }

  /** The token `t` followed by what `r` yields, or the error of `r`. */
  function Cons(t: Token, r: Result<seq<Token>, TokenizeError>): Result<seq<Token>, TokenizeError> {
    match r
    case Ok(ts) => Ok([t] + ts)
    case Err(e) => Err(e)
  }

  // ---------------------------------------------------------------------------
  // Tokenizing the pieces

  /** A bareword at `a` ended by whitespace at `b` is one token. */
  lemma WordThenSpace(text: string, a: nat, b: nat)
    requires WordAt(text, a, b) && b < |text| && IsWhitespace(text[b])
    requires a == 0 || IsWhitespace(text[a - 1])
    ensures Scan(text, a, a) == Cons(Token.Other(a, b - 1, text[a..b]), Scan(text, b + 1, b + 1))
  {
    ScanContinuesWord(text, a, a + 1, b);
  }

  /** A bareword at `a` running to the end of the text is the last token. */
  lemma WordAtEnd(text: string, a: nat)
    requires WordAt(text, a, |text|)
    requires a == 0 || IsWhitespace(text[a - 1])
    ensures Scan(text, a, a) == Ok([Token.Other(a, |text| - 1, text[a..])])
  {
    assert Scan(text, a, a) == Scan(text, a, a + 1);
    ScanContinuesWord(text, a, a + 1, |text|);
    assert text[a..|text|] == text[a..];
  }

  /** `{}` at the end of the text is one empty curly-bracket group. */
  lemma EmptyBracesAtEnd(text: string, a: nat)
    requires a + 2 == |text| && text[a] == '{' && text[a + 1] == '}'
    ensures Scan(text, a, a) == Ok([CurlyBrackets(a, a + 1, [])])
  {
    assert GetRevBracket(text[a + 1]) == Some('{');
    assert MatchBracket(text, a + 1, ['{']) == Some(a + 1);
    assert text[a + 1..a + 1] == [];
    assert Scan([], 0, 0) == Ok([]);
    assert Shift([], a + 1) == [];
    assert Scan(text, a + 2, a + 2) == Ok([]);
    assert Group('{', a, a + 1, []) == CurlyBrackets(a, a + 1, []);
    assert [CurlyBrackets(a, a + 1, [])] + [] == [CurlyBrackets(a, a + 1, [])];
  }

  /** One bareword is one token. */
  lemma TokenizeWord(text: string)
    requires WordAt(text, 0, |text|)
    ensures Tokenize(text) == Ok([Token.Other(0, |text| - 1, text)])
  {
    WordAtEnd(text, 0);
    assert text[0..] == text;
  }

  /** Two barewords and a space are two tokens. */
  lemma TokenizeTwoWords(text: string, a: nat)
    requires WordAt(text, 0, a) && a < |text| && text[a] == ' ' && WordAt(text, a + 1, |text|)
    ensures Tokenize(text) == Ok([Token.Other(0, a - 1, text[0..a]), Token.Other(a + 1, |text| - 1, text[a + 1..])])
  {
    var t1 := Token.Other(0, a - 1, text[0..a]);
    var t2 := Token.Other(a + 1, |text| - 1, text[a + 1..]);
    WordThenSpace(text, 0, a);
    WordAtEnd(text, a + 1);
    assert Scan(text, 0, 0) == Cons(t1, Ok([t2]));
    assert [t1] + [t2] == [t1, t2];
  }

  /** Three barewords separated by spaces are three tokens. */
  lemma TokenizeThreeWords(text: string, a: nat, b: nat)
    requires WordAt(text, 0, a) && a < |text| && text[a] == ' '
    requires WordAt(text, a + 1, b) && b < |text| && text[b] == ' ' && WordAt(text, b + 1, |text|)
    ensures Tokenize(text) == Ok([Token.Other(0, a - 1, text[0..a]), Token.Other(a + 1, b - 1, text[a + 1..b]),
                                  Token.Other(b + 1, |text| - 1, text[b + 1..])])
  {
    var t1 := Token.Other(0, a - 1, text[0..a]);
    var t2 := Token.Other(a + 1, b - 1, text[a + 1..b]);
    var t3 := Token.Other(b + 1, |text| - 1, text[b + 1..]);
    WordThenSpace(text, 0, a);
    WordThenSpace(text, a + 1, b);
    WordAtEnd(text, b + 1);
    assert Scan(text, a + 1, a + 1) == Cons(t2, Ok([t3]));
    assert [t2] + [t3] == [t2, t3];
    assert Scan(text, 0, 0) == Cons(t1, Ok([t2, t3]));
    assert [t1] + [t2, t3] == [t1, t2, t3];
  }

  /** A bareword, a space and `{}` are a bareword token and an empty group. */
  lemma TokenizeWordBraces(text: string, a: nat)
    requires WordAt(text, 0, a) && a + 3 == |text| && text[a] == ' ' && text[a + 1] == '{' && text[a + 2] == '}'
    ensures Tokenize(text) == Ok([Token.Other(0, a - 1, text[0..a]), CurlyBrackets(a + 1, a + 2, [])])
  {
    var t1 := Token.Other(0, a - 1, text[0..a]);
    var c := CurlyBrackets(a + 1, a + 2, []);
    WordThenSpace(text, 0, a);
    EmptyBracesAtEnd(text, a + 1);
    assert Scan(text, 0, 0) == Cons(t1, Ok([c]));
    assert [t1] + [c] == [t1, c];
  }

  /** Two barewords, a space and `{}`. */
  lemma TokenizeTwoWordsBraces(text: string, a: nat, b: nat)
    requires WordAt(text, 0, a) && a < |text| && text[a] == ' ' && WordAt(text, a + 1, b)
    requires b + 3 == |text| && text[b] == ' ' && text[b + 1] == '{' && text[b + 2] == '}'
    ensures Tokenize(text) == Ok([Token.Other(0, a - 1, text[0..a]), Token.Other(a + 1, b - 1, text[a + 1..b]),
                                  CurlyBrackets(b + 1, b + 2, [])])
  {
    var t1 := Token.Other(0, a - 1, text[0..a]);
    var t2 := Token.Other(a + 1, b - 1, text[a + 1..b]);
    var c := CurlyBrackets(b + 1, b + 2, []);
    WordThenSpace(text, 0, a);
    WordThenSpace(text, a + 1, b);
    EmptyBracesAtEnd(text, b + 1);
    assert Scan(text, a + 1, a + 1) == Cons(t2, Ok([c]));
    assert [t2] + [c] == [t2, c];
    assert Scan(text, 0, 0) == Cons(t1, Ok([t2, c]));
    assert [t1] + [t2, c] == [t1, t2, c];
  }

  // ---------------------------------------------------------------------------
  // Where the pieces of a concatenated line are

  lemma SliceLeft(p: string, q: string, i: nat, j: nat)
    requires i <= j <= |p|
    ensures (p + q)[i..j] == p[i..j]
  {
  }

  lemma SliceRight(p: string, q: string, i: nat, j: nat)
    requires |p| <= i <= j <= |p| + |q|
    ensures (p + q)[i..j] == q[i - |p|..j - |p|]
  {
  }

  /** A name placed in a text is a bareword there. */
  lemma NameWordAt(text: string, lo: nat, hi: nat)
    requires lo <= hi <= |text| && Name(text[lo..hi])
    ensures WordAt(text, lo, hi)
  {
    forall k | lo <= k < hi
      ensures IsAlwaysWordChar(text[k])
    {
      assert text[k] == text[lo..hi][k - lo];
    }
  }

  lemma NameFacts(w: string)
    requires Name(w)
    ensures !EndsWith(w, ':') && w != "=>" && !EndsWith(w, ';')
  {
    assert w[0] != '=';
  }

  lemma PairPieces(x: string, y: string)
    ensures var text := x + " " + y;
      && |text| == |x| + 1 + |y|
      && text[0..|x|] == x && text[|x|] == ' ' && text[|x| + 1..|text|] == y && text[|x| + 1..] == y
  {
    var text := x + " " + y;
    SliceLeft(x + " ", y, 0, |x|);
    SliceLeft(x, " ", 0, |x|);
    assert x[0..|x|] == x;
    SliceRight(x + " ", y, |x| + 1, |text|);
    assert text[|x| + 1..] == text[|x| + 1..|text|];
    assert y[0..|y|] == y;
  }

  lemma TriplePieces(x: string, y: string, z: string)
    ensures var text := x + " " + y + " " + z;
      var b := |x| + 1 + |y|;
      && |text| == b + 1 + |z|
      && text[0..|x|] == x && text[|x|] == ' ' && text[|x| + 1..b] == y
      && text[b] == ' ' && text[b + 1..|text|] == z
  {
    var line := x + " " + y;
    var text := line + " " + z;
    PairPieces(line, z);
    PairPieces(x, y);
    SliceLeft(line + " ", z, 0, |x|);
    SliceLeft(line, " ", 0, |x|);
    SliceLeft(line + " ", z, |x| + 1, |line|);
    SliceLeft(line, " ", |x| + 1, |line|);
    assert line[|x| + 1..|line|] == line[|x| + 1..];
  }

  /** A name followed by one punctuation character is a bareword. */
  lemma NamePunctuationWordAt(text: string, lo: nat, w: string, c: char)
    requires lo + |w| + 1 <= |text| && text[lo..lo + |w| + 1] == w + [c]
    requires Name(w) && IsInnerPunctuation(c)
    ensures WordAt(text, lo, lo + |w| + 1)
  {
    forall k | lo <= k < lo + |w| + 1
      ensures IsWordChar(text[k])
    {
      assert text[k] == text[lo..lo + |w| + 1][k - lo];
    }
    assert text[lo] == (w + [c])[0];
  }

  lemma BracesPieces(x: string)
    ensures var text := x + " {}";
      && |text| == |x| + 3 && text[0..|x|] == x
      && text[|x|] == ' ' && text[|x| + 1] == '{' && text[|x| + 2] == '}'
  {
    SliceLeft(x, " {}", 0, |x|);
    assert x[0..|x|] == x;
  }

  // ---------------------------------------------------------------------------
  // Walking the token lists of the examples

  /** A text that tokenizes is parsed by walking its tokens from an empty root. */
  lemma ParseTokenized(text: string, tokens: seq<Token>)
    requires Tokenize(text) == Ok(tokens)
    ensures Spans(text, tokens)
    ensures ParseText(text) == Walk(text, tokens, 0, Root([], []))
  {
    TokenizeSpans(text);
  }

  /** A one-character-wide group body has no children. */
  lemma EmptyBody(text: string, body: Token)
    requires body.begin + 1 == body.end < |text|
    ensures BodyChildren(text, body) == Done([])
  {
    assert text[body.begin + 1..body.end] == [];
    ParserProps.BlankText([]);
  }

  lemma WalkObject(text: string, tokens: seq<Token>, name: Option<string>)
    requires Spans(text, tokens) && 2 <= |tokens| && tokens[0].Other?
    requires tokens[0].value != "using" && !EndsWith(tokens[0].value, ':')
    requires name.None? ==> |tokens| == 2 && tokens[1].CurlyBrackets?
    requires name.Some? ==> |tokens| == 3 && tokens[1] == Token.Other(tokens[1].begin, tokens[1].end, name.value)
                            && name.value != "=>" && tokens[2].CurlyBrackets?
    requires tokens[|tokens| - 1].begin + 1 == tokens[|tokens| - 1].end
    ensures Walk(text, tokens, 0, Root([], []))
      == Done(Root([], [ObjectEntry(Object(tokens[0].value, name, []))]))
  {
    var n := |tokens|;
    EmptyBody(text, tokens[n - 1]);
    var entry := ObjectEntry(Object(tokens[0].value, name, []));
    assert ObjectStatement(text, tokens, 0) == Done(Adds(entry, n));
    assert StatementAt(text, tokens, 0) == Done(Adds(entry, n));
    assert Root([], []).AddChild(entry) == Root([], [entry]);
    assert Walk(text, tokens, 0, Root([], [])) == Walk(text, tokens, n, Root([], [entry]));
  }

  /** The walk over a class bareword and at most one more bareword with nothing after
      them stops at the last one. */
  lemma WalkObjectWithoutBody(text: string, tokens: seq<Token>)
    requires Spans(text, tokens) && 1 <= |tokens| <= 2 && forall k :: 0 <= k < |tokens| ==> tokens[k].Other?
    requires tokens[0].value != "using" && !EndsWith(tokens[0].value, ':')
    requires |tokens| == 2 ==> tokens[1].value != "=>"
    ensures var last := tokens[|tokens| - 1].begin;
      Walk(text, tokens, 0, Root([], [])) == Failed(IncorrectObjectDefinition(AtOffset(ObjectMessage, last), last))
  {
    assert StatementAt(text, tokens, 0) == ObjectStatement(text, tokens, 0);
  }

  /** The walk over `Class name body` whose body's inside, `text[lo..hi]`, fails to parse
      with `e` fails with `e`, unchanged. */
  lemma WalkObjectBodyFails(text: string, tokens: seq<Token>, lo: nat, hi: nat, e: ParseError)
    requires Spans(text, tokens) && |tokens| == 3 && tokens[0].Other? && tokens[1].Other?
    requires tokens[0].value != "using" && !EndsWith(tokens[0].value, ':') && tokens[1].value != "=>"
    requires tokens[2].begin + 1 == lo <= hi == tokens[2].end
    requires ParseText(text[lo..hi]) == Failed(e)
    ensures Walk(text, tokens, 0, Root([], [])) == Failed(e)
  {
    ParserProps.ObjectBodyError(text, tokens[2]);
    assert ObjectStatement(text, tokens, 0) == Failed(e);
    assert StatementAt(text, tokens, 0) == Failed(e);
  }

  // ---------------------------------------------------------------------------
  // Objects (src/tests/parser.rs, check_object_definition and its error cases)

  /** `Class {}` is one object of that class with no name and no children. */
  lemma ObjectWithoutName(w: string)
    requires Name(w) && w != "using"
    ensures ParseText(w + " {}") == Done(Root([], [ObjectEntry(Object(w, None, []))]))
  {
    var text := w + " {}";
    BracesPieces(w);
    NameWordAt(text, 0, |w|);
    TokenizeWordBraces(text, |w|);
    var tokens := [Token.Other(0, |w| - 1, w), CurlyBrackets(|w| + 1, |w| + 2, [])];
    ParseTokenized(text, tokens);
    NameFacts(w);
    WalkObject(text, tokens, None);
  }

  /** `Class name {}` is one object of that class with that name. */
  lemma ObjectWithName(w: string, n: string)
    requires Name(w) && w != "using" && Name(n)
    ensures ParseText(w + " " + n + " {}") == Done(Root([], [ObjectEntry(Object(w, Some(n), []))]))
  {
    var line := w + " " + n;
    var text := line + " {}";
    var b := |line|;
    PairPieces(w, n);
    BracesPieces(line);
    SliceLeft(line, " {}", 0, |w|);
    SliceLeft(line, " {}", |w| + 1, b);
    assert line[|w| + 1..b] == line[|w| + 1..];
    NameWordAt(text, 0, |w|);
    NameWordAt(text, |w| + 1, b);
    TokenizeTwoWordsBraces(text, |w|, b);
    var tokens := [Token.Other(0, |w| - 1, w), Token.Other(|w| + 1, b - 1, n), CurlyBrackets(b + 1, b + 2, [])];
    ParseTokenized(text, tokens);
    NameFacts(w);
    NameFacts(n);
    WalkObject(text, tokens, Some(n));
  }

  /** A class name alone is an `IncorrectObjectDefinition` at offset 0. */
  lemma ObjectWithoutBody(w: string)
    requires Name(w) && w != "using"
    ensures ParseText(w) == Failed(IncorrectObjectDefinition(AtOffset(ObjectMessage, 0), 0))
  {
    assert w[0..|w|] == w;
    NameWordAt(w, 0, |w|);
    TokenizeWord(w);
    ParseTokenized(w, [Token.Other(0, |w| - 1, w)]);
    NameFacts(w);
    WalkObjectWithoutBody(w, [Token.Other(0, |w| - 1, w)]);
  }

  lemma TwoWordsWithoutBody(text: string, a: nat)
    requires WordAt(text, 0, a) && a < |text| && text[a] == ' ' && WordAt(text, a + 1, |text|)
    requires text[0..a] != "using" && !EndsWith(text[0..a], ':') && text[a + 1..] != "=>"
    ensures ParseText(text) == Failed(IncorrectObjectDefinition(AtOffset(ObjectMessage, a + 1), a + 1))
  {
    TokenizeTwoWords(text, a);
    var tokens := [Token.Other(0, a - 1, text[0..a]), Token.Other(a + 1, |text| - 1, text[a + 1..])];
    ParseTokenized(text, tokens);
    WalkObjectWithoutBody(text, tokens);
  }

  /** A class and a name with no body is an `IncorrectObjectDefinition` at the name. */
  lemma NamedObjectWithoutBody(w: string, n: string)
    requires Name(w) && w != "using" && Name(n)
    ensures ParseText(w + " " + n)
      == Failed(IncorrectObjectDefinition(AtOffset(ObjectMessage, |w| + 1), |w| + 1))
  {
    var text := w + " " + n;
    PairPieces(w, n);
    NameWordAt(text, 0, |w|);
    NameWordAt(text, |w| + 1, |text|);
    NameFacts(w);
    NameFacts(n);
    TwoWordsWithoutBody(text, |w|);
  }

  /** The three bareword tokens of `TokenizeThreeWords`. */
  function ThreeWords(text: string, a: nat, b: nat): seq<Token>
    requires 0 < a < b < |text|
  {
    [Token.Other(0, a - 1, text[0..a]), Token.Other(a + 1, b - 1, text[a + 1..b]),
     Token.Other(b + 1, |text| - 1, text[b + 1..])]
  }

  /** Three barewords are parsed by walking their three tokens. */
  lemma ParseThreeWords(text: string, a: nat, b: nat)
    requires WordAt(text, 0, a) && a < |text| && text[a] == ' '
    requires WordAt(text, a + 1, b) && b < |text| && text[b] == ' ' && WordAt(text, b + 1, |text|)
    ensures Spans(text, ThreeWords(text, a, b))
    ensures ParseText(text) == Walk(text, ThreeWords(text, a, b), 0, Root([], []))
  {
    TokenizeThreeWords(text, a, b);
    ParseTokenized(text, ThreeWords(text, a, b));
  }

  /** The tokens of `w n b` for three names: three barewords, with their offsets. */
  lemma ThreeNamesTokens(w: string, n: string, b: string)
    requires Name(w) && Name(n) && Name(b)
    ensures var text := w + " " + n + " " + b;
      var p := |w| + 1 + |n|;
      && Spans(text, ThreeWords(text, |w|, p))
      && ThreeWords(text, |w|, p) == [Token.Other(0, |w| - 1, w), Token.Other(|w| + 1, p - 1, n),
                                      Token.Other(p + 1, |text| - 1, b)]
      && !EndsWith(w, ':') && n != "=>"
  {
    var text := w + " " + n + " " + b;
    var p := |w| + 1 + |n|;
    NameFacts(w);
    NameFacts(n);
    TriplePieces(w, n, b);
    assert text[p + 1..] == text[p + 1..|text|];
  }

  /** `w n b` for three names is parsed by walking its three bareword tokens. */
  lemma ParseThreeNames(w: string, n: string, b: string)
    requires Name(w) && Name(n) && Name(b)
    ensures var text := w + " " + n + " " + b;
      ParseText(text) == Walk(text, ThreeWords(text, |w|, |w| + 1 + |n|), 0, Root([], []))
  {
    var text := w + " " + n + " " + b;
    var p := |w| + 1 + |n|;
    TriplePieces(w, n, b);
    NameWordAt(text, 0, |w|);
    NameWordAt(text, |w| + 1, p);
    NameWordAt(text, p + 1, |text|);
    ParseThreeWords(text, |w|, p);
  }

  /** The characters strictly inside a name form a name, when there are any. */
  lemma NameInside(b: string)
    requires Name(b) && 3 <= |b|
    ensures Name(b[1..|b| - 1])
  {
    var inner := b[1..|b| - 1];
    forall k | 0 <= k < |inner|
      ensures IsAlwaysWordChar(inner[k])
    {
      assert inner[k] == b[k + 1];
    }
  }

  /** The text strictly inside the bareword `b` of `w n b` is a class name alone. */
  lemma InsideWordBody(w: string, n: string, b: string)
    requires Name(b) && 3 <= |b| && b[1..|b| - 1] != "using"
    ensures var text := w + " " + n + " " + b;
      ParseText(text[|w| + |n| + 3..|text| - 1]) == Failed(IncorrectObjectDefinition(AtOffset(ObjectMessage, 0), 0))
  {
    var text := w + " " + n + " " + b;
    var inner := b[1..|b| - 1];
    SliceRight(w + " " + n + " ", b, |w| + |n| + 3, |text| - 1);
    assert text[|w| + |n| + 3..|text| - 1] == inner;
    NameInside(b);
    ObjectWithoutBody(inner);
  }

  /** The walk over `w n b` takes the bareword `b` as the body and fails with the error of
      the class name strictly inside it. */
  lemma WalkWordBody(w: string, n: string, b: string)
    requires Name(w) && w != "using" && Name(n) && Name(b)
    requires 3 <= |b| && b[1..|b| - 1] != "using"
    ensures var text := w + " " + n + " " + b;
      Walk(text, ThreeWords(text, |w|, |w| + 1 + |n|), 0, Root([], []))
        == Failed(IncorrectObjectDefinition(AtOffset(ObjectMessage, 0), 0))
  {
    var text := w + " " + n + " " + b;
    var p := |w| + 1 + |n|;
    ThreeNamesTokens(w, n, b);
    InsideWordBody(w, n, b);
    var ts := ThreeWords(text, |w|, p);
    assert Spans(text, ts);
    assert ts[2].begin + 1 == |w| + |n| + 3 <= |text| - 1 == ts[2].end;
    assert ParseText(text[|w| + |n| + 3..|text| - 1]) == Failed(IncorrectObjectDefinition(AtOffset(ObjectMessage, 0), 0));
    WalkObjectBodyFails(text, ThreeWords(text, |w|, p), |w| + |n| + 3, |text| - 1,
                        IncorrectObjectDefinition(AtOffset(ObjectMessage, 0), 0));
  }

  /** `Class name body` with a bareword as the body: the body's kind is not checked, and
      the text strictly inside it is parsed on its own. When that inner text is a single
      class name the nested parse fails at its own offset 0, and the error is passed on
      without being moved to where the body sits. */
  lemma ObjectWithWordBody(w: string, n: string, b: string)
    requires Name(w) && w != "using" && Name(n) && Name(b)
    requires 3 <= |b| && b[1..|b| - 1] != "using"
    ensures ParseText(w + " " + n + " " + b) == Failed(IncorrectObjectDefinition(AtOffset(ObjectMessage, 0), 0))
  {
    ParseThreeNames(w, n, b);
    WalkWordBody(w, n, b);
  }

  /** The input `Gtk.Button button name`: the error is the one of `am`, the text inside
      the body `name`, at offset 0. */
  lemma ButtonWithWordBody()
    ensures ParseText("Gtk.Button button name") == Failed(IncorrectObjectDefinition(AtOffset(ObjectMessage, 0), 0))
  {
    assert "Gtk.Button button name" == "Gtk.Button" + " " + "button" + " " + "name";
    assert "name"[1..3] == "am";
    ObjectWithWordBody("Gtk.Button", "button", "name");
  }

  // ---------------------------------------------------------------------------
  // Using statements (src/tests/parser.rs, check_use_statement)

  lemma UsingIsName()
    ensures Name("using")
  {
  }

  lemma WalkUsing(text: string, tokens: seq<Token>)
    requires Spans(text, tokens) && |tokens| == 3 && tokens[1].Other? && tokens[2].Other?
    requires tokens[0].Other? && tokens[0].value == "using"
    ensures Walk(text, tokens, 0, Root([], [])) == Done(Root([NewRequirement(tokens[1].value, tokens[2].value)], []))
  {
    var q := NewRequirement(tokens[1].value, tokens[2].value);
    assert StatementAt(text, tokens, 0) == Done(Requires(q, 3));
    assert Root([], []).Require(q) == Root([q], []);
  }

  lemma UsingWords(text: string, a: nat, b: nat)
    requires WordAt(text, 0, a) && a < |text| && text[a] == ' '
    requires WordAt(text, a + 1, b) && b < |text| && text[b] == ' ' && WordAt(text, b + 1, |text|)
    requires text[0..a] == "using"
    ensures ParseText(text) == Done(Root([NewRequirement(text[a + 1..b], text[b + 1..])], []))
  {
    TokenizeThreeWords(text, a, b);
    var tokens := [Token.Other(0, a - 1, text[0..a]), Token.Other(a + 1, b - 1, text[a + 1..b]),
                   Token.Other(b + 1, |text| - 1, text[b + 1..])];
    ParseTokenized(text, tokens);
    WalkUsing(text, tokens);
  }

  /** `using lib version` is one requirement, of the library `Requirement::new` makes of
      `lib`, and no entries. */
  lemma UsingLine(lib: string, version: string)
    requires Name(lib) && Name(version)
    ensures ParseText("using" + " " + lib + " " + version) == Done(Root([NewRequirement(lib, version)], []))
  {
    var text := "using" + " " + lib + " " + version;
    TriplePieces("using", lib, version);
    UsingIsName();
    NameWordAt(text, 0, 5);
    NameWordAt(text, 6, 6 + |lib|);
    NameWordAt(text, 7 + |lib|, |text|);
    assert text[7 + |lib|..] == text[7 + |lib|..|text|];
    UsingWords(text, 5, 6 + |lib|);
  }


  /** The words `ws` joined by single spaces. */
  function Join(ws: seq<string>): string
    requires |ws| > 0
  {
    if |ws| == 1 then ws[0] else ws[0] + " " + Join(ws[1..])
  }

  predicate Names(ws: seq<string>) {
    forall k :: 0 <= k < |ws| ==> Name(ws[k])
  }

  /** One bareword token per word of `ws` joined by single spaces from offset `a` on. */
  function WordTokens(a: nat, ws: seq<string>): seq<Token>
    requires Names(ws)
    decreases |ws|
  {
    if |ws| == 0 then []
    else
      assert Name(ws[0]);
      assert Names(ws[1..]) by {
        forall k | 0 <= k < |ws| - 1 ensures Name(ws[1..][k]) { assert Name(ws[k + 1]); }
      }
      [Token.Other(a, a + |ws[0]| - 1, ws[0])] + WordTokens(a + |ws[0]| + 1, ws[1..])
  }

  /** The `k`-th of `WordTokens(a, ws)` is a bareword holding the `k`-th word. */
  lemma {:induction false} WordTokensAt(a: nat, ws: seq<string>, k: nat)
    requires Names(ws) && k < |ws|
    ensures |WordTokens(a, ws)| == |ws|
    ensures WordTokens(a, ws)[k].Other? && WordTokens(a, ws)[k].value == ws[k]
    decreases |ws|
  {
    assert Names(ws[1..]) by {
      forall m | 0 <= m < |ws| - 1 ensures Name(ws[1..][m]) { assert Name(ws[m + 1]); }
    }
    if |ws| > 1 {
      WordTokensAt(a + |ws[0]| + 1, ws[1..], if k == 0 then 0 else k - 1);
    }
  }

  /** From a token boundary, names joined by single spaces up to the end of the text are
      scanned into one bareword token each. */
  lemma {:induction false} ScanJoined(text: string, a: nat, ws: seq<string>)
    requires 0 < |ws| && Names(ws) && a <= |text| && text[a..] == Join(ws)
    requires a == 0 || IsWhitespace(text[a - 1])
    ensures Scan(text, a, a) == Ok(WordTokens(a, ws))
    decreases |ws|
  {
    var w := ws[0];
    assert Name(w);
    assert text[a..a + |w|] == w by {
      assert text[a..a + |w|] == text[a..][..|w|];
    }
    NameWordAt(text, a, a + |w|);
    if |ws| == 1 {
      assert text[a..] == w && |text| == a + |w|;
      WordAtEnd(text, a);
      assert Scan(text, a, a) == Ok([Token.Other(a, a + |w| - 1, w)]);
      assert WordTokens(a, ws) == [Token.Other(a, a + |w| - 1, w)] + WordTokens(a + |w| + 1, ws[1..]);
      assert WordTokens(a + |w| + 1, ws[1..]) == [];
      assert WordTokens(a, ws) == [Token.Other(a, a + |w| - 1, w)];
    } else {
      var rest := Join(ws[1..]);
      assert text[a..] == w + " " + rest;
      assert text[a + |w|] == text[a..][|w|] == ' ';
      assert text[a + |w| + 1..] == text[a..][|w| + 1..] == rest;
      assert Names(ws[1..]) by {
        forall m | 0 <= m < |ws| - 1 ensures Name(ws[1..][m]) { assert Name(ws[m + 1]); }
      }
      WordThenSpace(text, a, a + |w|);
      ScanJoined(text, a + |w| + 1, ws[1..]);
    }
  }

  /** Names joined by single spaces are one bareword token each. */
  lemma TokenizeJoined(ws: seq<string>)
    requires 0 < |ws| && Names(ws)
    ensures Tokenize(Join(ws)) == Ok(WordTokens(0, ws))
  {
    assert Join(ws)[0..] == Join(ws);
    ScanJoined(Join(ws), 0, ws);
  }

  /** The walk over two three-token `using` statements records both requirements, in
      order, and no entries. */
  lemma WalkTwoUsings(text: string, ts: seq<Token>)
    requires Spans(text, ts) && |ts| == 6 && forall k :: 0 <= k < 6 ==> ts[k].Other?
    requires ts[0].value == "using" && ts[3].value == "using"
    ensures Walk(text, ts, 0, Root([], []))
            == Done(Root([NewRequirement(ts[1].value, ts[2].value), NewRequirement(ts[4].value, ts[5].value)], []))
  {
    var first := NewRequirement(ts[1].value, ts[2].value);
    var second := NewRequirement(ts[4].value, ts[5].value);
    assert StatementAt(text, ts, 0) == Done(Requires(first, 3));
    assert StatementAt(text, ts, 3) == Done(Requires(second, 6));
    assert Root([], []).Require(first) == Root([first], []);
    assert Root([first], []).Require(second) == Root([first, second], []);
    assert Walk(text, ts, 3, Root([first], [])) == Walk(text, ts, 6, Root([first, second], []));
  }

  /** `using l1 v1 using l2 v2` is the two requirements `Requirement::new` makes, in the
      order written, and no entries. */
  lemma UsingTwice(l1: string, v1: string, l2: string, v2: string)
    requires Name(l1) && Name(v1) && Name(l2) && Name(v2)
    ensures ParseText(Join(["using", l1, v1, "using", l2, v2]))
            == Done(Root([NewRequirement(l1, v1), NewRequirement(l2, v2)], []))
  {
    var ws := ["using", l1, v1, "using", l2, v2];
    UsingIsName();
    assert Names(ws);
    var ts := WordTokens(0, ws);
    TokenizeJoined(ws);
    ParseTokenized(Join(ws), ts);
    WordTokensAt(0, ws, 0);
    WordTokensAt(0, ws, 1);
    WordTokensAt(0, ws, 2);
    WordTokensAt(0, ws, 3);
    WordTokensAt(0, ws, 4);
    WordTokensAt(0, ws, 5);
    WalkTwoUsings(Join(ws), ts);
  }

  /** `using adw 1.0 using gtk 4.0` parses to a libadwaita 1.0 and a gtk 4.0 requirement,
      in that order, and its XML holds only the gtk `<requires>` tag. */
  lemma TwoUsingLines()
    ensures var text := "using" + " " + "adw" + " " + "1.0" + " " + "using" + " " + "gtk" + " " + "4.0";
      && ParseText(text) == Done(Root([Libadwaita("1.0"), Gtk("4.0")], []))
      && ParseText(text).value.Xml() == XmlHeader + RequiresTag("gtk", "4.0") + "</interface>"
  {
    TwoUsingsJoined();
    TwoUsingsNames();
    UsingTwice("adw", "1.0", "gtk", "4.0");
    AstProps.UsingXml();
  }

  lemma TwoUsingsJoined()
    ensures Join(["using", "adw", "1.0", "using", "gtk", "4.0"])
            == "using" + " " + "adw" + " " + "1.0" + " " + "using" + " " + "gtk" + " " + "4.0"
  {
    var ws := ["using", "adw", "1.0", "using", "gtk", "4.0"];
    assert ws[5..] == ["4.0"] && ws[4..][1..] == ws[5..] && ws[3..][1..] == ws[4..];
    assert ws[2..][1..] == ws[3..] && ws[1..][1..] == ws[2..];
  }

  lemma TwoUsingsNames()
    ensures Name("adw") && Name("1.0") && Name("gtk") && Name("4.0")
  {
  }

  // ---------------------------------------------------------------------------
  // Properties (src/tests/parser.rs, check_properties and its error cases)

  lemma WalkProperty(text: string, tokens: seq<Token>, name: string, value: string)
    requires Spans(text, tokens) && |tokens| == 2 && tokens[0].Other? && tokens[1].Other?
    requires tokens[0].value == name + ":" && tokens[1].value == value + ";"
    ensures Walk(text, tokens, 0, Root([], [])) == Done(Root([], [PropertyEntry(Property(name, TextValue(value)))]))
  {
    assert (name + ":")[..|name|] == name;
    assert (value + ";")[..|value|] == value;
    assert FindSemicolon(tokens, 1) == Some(1);
    var entry := PropertyEntry(Property(name, TextValue(value)));
    assert PropertyStatement(text, tokens, 0) == Done(Adds(entry, 2));
    assert Root([], []).AddChild(entry) == Root([], [entry]);
    assert Walk(text, tokens, 0, Root([], [])) == Walk(text, tokens, 2, Root([], [entry]));
  }

  lemma PropertyWords(text: string, a: nat, name: string, value: string)
    requires WordAt(text, 0, a) && a < |text| && text[a] == ' ' && WordAt(text, a + 1, |text|)
    requires text[0..a] == name + ":" && text[a + 1..] == value + ";"
    ensures ParseText(text) == Done(Root([], [PropertyEntry(Property(name, TextValue(value)))]))
  {
    TokenizeTwoWords(text, a);
    var tokens := [Token.Other(0, a - 1, text[0..a]), Token.Other(a + 1, |text| - 1, text[a + 1..])];
    ParseTokenized(text, tokens);
    WalkProperty(text, tokens, name, value);
  }

  /** `name: value;` is one property whose value is the text before the `;`. */
  lemma PropertyWithText(name: string, value: string)
    requires Name(name) && Name(value)
    ensures ParseText((name + ":") + " " + (value + ";"))
      == Done(Root([], [PropertyEntry(Property(name, TextValue(value)))]))
  {
    var text := (name + ":") + " " + (value + ";");
    PairPieces(name + ":", value + ";");
    NamePunctuationWordAt(text, 0, name, ':');
    assert text[|name| + 2..|name| + 2 + |value| + 1] == value + [';'];
    NamePunctuationWordAt(text, |name| + 2, value, ';');
    PropertyWords(text, |name| + 1, name, value);
  }

  /** A property name alone is an `IncorrectPropertyDefinition` at offset 0. */
  lemma PropertyWithoutValue(name: string)
    requires Name(name)
    ensures ParseText(name + ":") == Failed(IncorrectPropertyDefinition(AtOffset(PropertyMessage, 0), 0))
  {
    var text := name + ":";
    assert text[0..|name| + 1] == name + [':'];
    NamePunctuationWordAt(text, 0, name, ':');
    TokenizeWord(text);
    var tokens := [Token.Other(0, |name|, text)];
    ParseTokenized(text, tokens);
    assert StatementAt(text, tokens, 0) == PropertyStatement(text, tokens, 0);
  }

  lemma WalkPropertyWithoutSemicolon(text: string, tokens: seq<Token>)
    requires Spans(text, tokens) && |tokens| == 2 && tokens[0].Other? && tokens[1].Other?
    requires tokens[0].begin == 0 && EndsWith(tokens[0].value, ':') && !EndsWith(tokens[1].value, ';')
    ensures Walk(text, tokens, 0, Root([], [])) == Failed(IncorrectPropertyDefinition(AtOffset(SemicolonMessage, 0), 0))
  {
    assert FindSemicolon(tokens, 1) == None;
    assert StatementAt(text, tokens, 0) == PropertyStatement(text, tokens, 0);
  }

  lemma PropertyWordsWithoutSemicolon(text: string, a: nat)
    requires WordAt(text, 0, a) && a < |text| && text[a] == ' ' && WordAt(text, a + 1, |text|)
    requires EndsWith(text[0..a], ':') && !EndsWith(text[a + 1..], ';')
    ensures ParseText(text) == Failed(IncorrectPropertyDefinition(AtOffset(SemicolonMessage, 0), 0))
  {
    TokenizeTwoWords(text, a);
    var tokens := [Token.Other(0, a - 1, text[0..a]), Token.Other(a + 1, |text| - 1, text[a + 1..])];
    ParseTokenized(text, tokens);
    WalkPropertyWithoutSemicolon(text, tokens);
  }

  /** A property value without a closing `;` is an `IncorrectPropertyDefinition` at the
      property name. */
  lemma PropertyWithoutSemicolon(name: string, value: string)
    requires Name(name) && Name(value)
    ensures ParseText((name + ":") + " " + value)
      == Failed(IncorrectPropertyDefinition(AtOffset(SemicolonMessage, 0), 0))
  {
    var text := (name + ":") + " " + value;
    PairPieces(name + ":", value);
    NamePunctuationWordAt(text, 0, name, ':');
    NameWordAt(text, |name| + 2, |text|);
    NameFacts(value);
    PropertyWordsWithoutSemicolon(text, |name| + 1);
  }
}
