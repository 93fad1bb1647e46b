# gtk-ui-builder core in Dafny

This project models the markup compiler at the heart of `gtk-ui-builder`. The compiler takes a
small brace-delimited UI language and turns it into GTK Builder XML:

```
using Gtk 4.0
Gtk.Button button_name {
    label: "Click me";
}
```

It runs in three stages, and the model follows the same split:

- **Tokenizer.** One left-to-right scan over the characters.
  - It emits `Other` barewords, `Text` quoted strings and three kinds of bracket group.
  - Every token carries its `begin`/`end` character offsets.
  - A group's inside is tokenized recursively and then re-based by `begin + 1`.
  - `TokenizerSpec.Scan` states the scan as a recursive function. `Tokenizer.Parse` is the
    imperative loop, proved equal to it (`r == Tokenize(text)`).
  - `TokenizerProps` proves what a token list means. `TokensAgree`: spans that are disjoint,
    increasing and consistent with the text. `Covers`: nothing but whitespace is dropped.
    `GroupsMatch`: each group ends at the closer that balances its opener and holds exactly
    the re-based tokenization of its inside. It also proves the error cases and the character
    classes.
- **Parser.** An index-driven loop over the tokens. It recognises `using L V`, `name: value;`,
  `x => {..}` and `Class [id] { body }`, and re-parses substrings of the input for nested bodies
  and multi-token property values.
  - `ParserSpec.ParseText` and `ParserSpec.Walk` state the loop as functions.
  - The outcome is `Done(root)`, `Failed(error)` or `Panic`. `Panic` is the `unwrap()` the
    source performs on a bracket group.
  - `Parser.Parse` is the loop over a mutable `Trees.Tree`. It is proved to build exactly the
    root `ParseText` describes, or to return exactly its error.
- **AST and XML.**
  - `Entry`, `Root`, `Object`, `Property` and `Requirement` are datatypes. `Tree` is a class
    whose `root` field is updated in place.
  - The serializers are functions. The loop-based ones (`Object::get_xml`, `Root::filter`) are
    methods proved against them.
  - `AstProps` proves the shape of the XML: properties come before other children, the
    `class` attribute loses its dots, and the tags enclose their contents. It also proves that
    `filter` is a pre-order `filter_map`.

`ParseErrors` and `TokenizeErrors` model the two error enums. Their `offset` re-basing is
additive and composes, and the model proves that every error the parser reports points inside
its input (`ParserProps.ParseErrorWithin`).

`ParserExamples` proves the behaviour the repository's parser tests check. Each statement is
stated for every name made of letters, digits, `.` and `_` (the `Name` predicate) rather than
for one literal, e.g. `Gtk.Button {}` parses to one object without an id. The two inputs with
more than one statement or a nested parse are also stated for the test's own text:
`using adw 1.0 using gtk 4.0` (its two requirements and its XML) and `Gtk.Button button name`
(the error of the text inside the bareword taken as the body).

## Model

| member | source | states |
|---|---|---|
| Tokens.Token.IsOther | src/parser/token.rs:42-47 | true exactly for the `Other` variant |
| Tokens.Token.IsOtherValue | src/parser/token.rs:49-54 | true exactly for an `Other` token whose value is the argument |
| Tokens.Token.GetValue | src/parser/token.rs:56-62 | `Some(value)` exactly for `Text`/`Other`, `None` for the three groups |
| Tokens.Token.GetBegin | src/parser/token.rs:64-72 | the variant's own `begin`, for all five variants |
| Tokens.Token.GetEnd | src/parser/token.rs:74-82 | the variant's own `end`, for all five variants |
| Tokens.IsOtherValueIsOther | src/parser/token.rs:49-54 | `is_other_value(v)` implies `is_other` and `get_value() == Some(v)` |
| TokenizeErrors.TokenizeError.GetMessage | src/parser/tokenize_error.rs:25-31 | the variant's stored message |
| TokenizeErrors.TokenizeError.Offset | src/parser/tokenize_error.rs:33-45 | variant, message and wrong string unchanged; `IncorrectChar` offset + n; string/bracket errors begin + n and end + n |
| TokenizeErrors.OffsetCompose | src/parser/tokenize_error.rs:33-45 | `offset(a)` then `offset(b)` equals `offset(a + b)` |
| TokenizeErrors.OffsetZero | src/parser/tokenize_error.rs:33-45 | `offset(0)` is the identity |
| TokenizeErrors.OffsetKeepsSpan | src/parser/tokenize_error.rs:37-41 | `end - begin` is preserved for string and bracket errors |
| TokenizeErrors.OffsetWithin | src/parser/tokenize_error.rs:33-45 | an error inside a slice of length n re-based by k lies inside length n + k |
| ParseErrors.ParseError.GetMessage | src/parser/parse_error.rs:27-35 | the stored message, or the inner error's message for the wrapper |
| ParseErrors.ParseError.Offset | src/parser/parse_error.rs:37-48 | the wrapper becomes the wrapped `inner.offset(n)`; every other variant gets offset + n and nothing else changes |
| ParseErrors.FromTokenizeError | src/parser/parse_error.rs:57-61 | wraps the error unchanged in the `TokenizeError` variant |
| ParseErrors.OffsetKeepsVariantAndMessage | src/parser/parse_error.rs:37-48 | `offset` keeps each of the six variants and the message |
| ParseErrors.OffsetCompose | src/parser/parse_error.rs:37-48 | `offset(a)` then `offset(b)` equals `offset(a + b)` |
| ParseErrors.OffsetZero | src/parser/parse_error.rs:37-48 | `offset(0)` is the identity |
| ParseErrors.FromCommutesWithOffset | src/parser/parse_error.rs:39 | wrapping then re-basing equals re-basing then wrapping; the message passes through |
| ParseErrors.OffsetWithin | src/parser/parse_error.rs:37-48 | re-basing an in-slice error by the slice start gives an in-text error |
| TokenizerSpec.GetRevBracket | src/parser/tokenizer.rs:194-206 | the exact partner of each bracket: `(` and `)`, `[` and `]`, `{` and `}` map to each other; `None` for every other character |
| TokenizerProps.RevBracketPairs | src/parser/tokenizer.rs:194-206 | the partner of a bracket's partner is the bracket itself |
| TokenizerSpec.IsNormalChar | src/parser/tokenizer.rs:208-218 | letters, digits, `.`, `_` always; `- ; ( ) = > < :` only when not first after whitespace or the input start (a predicate; its consequences are `ScanSkipsWord`, `PunctuationCannotStart` and `PunctuationAfterClosing`) |
| TokenizerSpec.ShiftToken | src/parser/tokenizer.rs:226-242 | one token with `begin` and `end` raised by k at every depth (no contract of its own; `ShiftTokenKeepsShape`, `ShiftTokenCompose`, `ShiftTokenZero` state its properties) |
| TokenizerSpec.Shift | src/parser/tokenizer.rs:220-247 | `inc_tokens_offsets` on a list (no contract of its own; `ShiftAddsOffset`, `ShiftKeepsShape`, `ShiftCompose`, `ShiftZero` state its properties) |
| TokenizerSpec.Scan | src/parser/tokenizer.rs:37-189 | the tokenizer loop from `i` with the bareword pending since `tb`, as a recursive function (no contract of its own; `ScanAgrees`, `ScanCovers` and the error lemmas state what it yields) |
| TokenizerSpec.ScanAt | src/parser/tokenizer.rs:38-182 | one iteration at `i`, branch by branch as in the source (no contract of its own) |
| TokenizerSpec.Tokenize | src/parser/tokenizer.rs:28-192 | `Tokenizer::parse` (no contract of its own; `TokenizeAgrees`, `TokenizeKeepsEveryChar` and `TokenizeErrorWithin` state what it yields) |
| TokenizerSpec.FindQuote | src/parser/tokenizer.rs:68-81 | the first `"` at or after j, or none if there is none |
| TokenizerSpec.MatchBracket | src/parser/tokenizer.rs:114-138 | a found closer is at or after j and is the partner of the bracket at the bottom of the stack, the group's opener |
| TokenizerSpec.Group | src/parser/tokenizer.rs:152-157 | a group token with the given span and tokens, its variant chosen by the opener |
| Tokenizer.Parse | src/parser/tokenizer.rs:28-192 | the loop returns exactly `Tokenize(text)` |
| Tokenizer.ReadString | src/parser/tokenizer.rs:55-101 | success iff a closing quote exists; the token is `Text` of the verbatim inside; the scan continues after the quote; failure is the scan's error |
| Tokenizer.ReadGroup | src/parser/tokenizer.rs:103-161 | success gives the balancing closer; the group token continues the scan; failure is the scan's error |
| Tokenizer.IncTokensOffsets | src/parser/tokenizer.rs:220-247 | the loop returns `Shift(tokens, offset)` |
| Tokenizer.WhitespaceStep | src/parser/tokenizer.rs:39-52 | at whitespace a pending bareword is emitted and the scan restarts after it |
| Tokenizer.QuoteStep | src/parser/tokenizer.rs:93-100 | a terminated string emits `Text(i, q, inside)` and the scan goes on after q |
| Tokenizer.UnterminatedStep | src/parser/tokenizer.rs:84-91 | a missing closing quote is `IncorrectString` from i to the input length |
| Tokenizer.GroupStep | src/parser/tokenizer.rs:150-160 | a balanced group emits the group of its re-based inner tokens |
| Tokenizer.GroupErrorStep | src/parser/tokenizer.rs:150 | an error inside a group is returned without re-basing |
| Tokenizer.AfterWordStep | src/parser/tokenizer.rs:57-63 | a quote or opener after a non-empty bareword is `IncorrectChar` carrying that word |
| Tokenizer.FirstIsEmptyWord | src/parser/tokenizer.rs:167 | the source's first-character test on the word equals the test on offsets |
| Tokenizer.NormalStep | src/parser/tokenizer.rs:167-169 | an allowed character extends the pending bareword |
| Tokenizer.WrongCharStep | src/parser/tokenizer.rs:172-177 | a disallowed character is `IncorrectChar` at its offset |
| TokenizerProps.ShiftAddsOffset | src/parser/tokenizer.rs:220-224 | same length; each top-level begin and end is increased by k |
| TokenizerProps.ShiftKeepsShape | src/parser/tokenizer.rs:220-247 | values, variants, lengths and nesting unchanged at every depth |
| TokenizerProps.ShiftTokenKeepsShape | src/parser/tokenizer.rs:226-242 | one token keeps its shape when shifted |
| TokenizerProps.ShiftCompose | src/parser/tokenizer.rs:220-247 | shifting by a then b equals shifting by a + b |
| TokenizerProps.ShiftTokenCompose | src/parser/tokenizer.rs:226-242 | the same for one token |
| TokenizerProps.ShiftZero | src/parser/tokenizer.rs:220-247 | shifting by 0 is the identity |
| TokenizerProps.ShiftTokenZero | src/parser/tokenizer.rs:226-242 | the same for one token |
| TokenizerProps.ShiftTokensAgree | src/parser/tokenizer.rs:150 | tokens of a slice, shifted by its start, agree with the whole text |
| TokenizerProps.ShiftTokenAgrees | src/parser/tokenizer.rs:150 | the same for one token |
| TokenizerProps.SliceShift | src/parser/tokenizer.rs:150 | a slice of the inner text is the same slice of the whole text, moved by the inner start |
| TokenizerProps.BlankShift | src/parser/tokenizer.rs:150 | whitespace in the inner text is whitespace at the shifted offsets of the whole text |
| TokenizerProps.BlankIsWhitespace | src/parser/tokenizer.rs:39 | `Blank(a, b)` holds iff every character in `[a, b)` is whitespace |
| TokenizerProps.MatchBracketShift | src/parser/tokenizer.rs:114-138 | the closer found in a slice is found at the shifted offset in the whole text: the matcher never looks past it |
| TokenizerProps.GroupTokenAgrees | src/parser/tokenizer.rs:114-157 | a group of re-based inner tokens spans its opener to its matching closer |
| TokenizerProps.ScanGroupStep | src/parser/tokenizer.rs:150-160 | the scan at an opener is the group followed by the rest of the scan |
| TokenizerProps.ScanAgrees | src/parser/tokenizer.rs:37-189 | every successful scan yields tokens that agree with the text |
| TokenizerProps.TokenizeAgrees | src/parser/tokenizer.rs:28-192 | tokens are disjoint and increasing, and each bareword, string and group matches its span (`TokensAgree`); only whitespace lies before, between and after them (`Covers`); each group ends at the closer that balances its opener and holds exactly the re-based tokenization of its inside (`GroupsMatch`) |
| TokenizerProps.TokenizeCovers | src/parser/tokenizer.rs:28-192 | a successful tokenization satisfies `Covers` and `GroupsMatch` over the whole input |
| TokenizerProps.ScanCovers | src/parser/tokenizer.rs:37-189 | every successful scan from `tb` covers the rest of the text and closes each of its groups with the balancing closer |
| TokenizerProps.ScanAtCovers | src/parser/tokenizer.rs:38-182 | the same for one iteration |
| TokenizerProps.WhitespaceStepCovers | src/parser/tokenizer.rs:39-52 | skipped whitespace joins the covered range |
| TokenizerProps.QuoteStepCovers | src/parser/tokenizer.rs:65-100 | a string token covers its span, the rest of the scan covers what follows |
| TokenizerProps.GroupStepCovers | src/parser/tokenizer.rs:114-160 | a group token ends at the matched closer and holds the tokenization of its inside |
| TokenizerProps.ConsCovers | src/parser/tokenizer.rs:42-46 | a token put in front of a covered list starting right after it gives a covered list |
| TokenizerProps.CoversFromBlank | src/parser/tokenizer.rs:39-52 | a whitespace character in front of a covered range extends it |
| TokenizerProps.CoversEveryChar | src/parser/tokenizer.rs:37-189 | under `Covers`, every non-whitespace character lies inside some token's span |
| TokenizerProps.TokenizeKeepsEveryChar | src/parser/tokenizer.rs:28-192 | the tokenizer drops no character except whitespace |
| TokenizerProps.GroupsMatchAt | src/parser/tokenizer.rs:114-157 | under `GroupsMatch`, any group in the list ends at its balancing closer and holds the tokenization of its inside |
| TokenizerProps.ShiftCovers | src/parser/tokenizer.rs:150 | coverage of the inner text carries over to the re-based tokens in the whole text |
| TokenizerProps.ShiftGroupMatches | src/parser/tokenizer.rs:150 | a matched group of the inner text, re-based, is a matched group of the whole text |
| TokenizerProps.ShiftGroupsMatch | src/parser/tokenizer.rs:150 | the same for a list |
| TokenizerProps.ShiftIntoGroup | src/parser/tokenizer.rs:150 | tokens covering the text between two brackets, re-based past the opener, cover it in the whole text with matched groups |
| TokenizerProps.NestedCovers | src/parser/tokenizer.rs:150 | the tokens of a matched group cover the text between its brackets and their groups match in turn: coverage and matching hold at every depth |
| TokenizerProps.ScanErrorWithin | src/parser/tokenizer.rs:37-181 | every scan error points inside the text |
| TokenizerProps.TokenizeErrorWithin | src/parser/tokenizer.rs:28-192 | every tokenize error points inside the text |
| TokenizerProps.ScanWhitespace | src/parser/tokenizer.rs:37-52 | whitespace-only rest scans to no tokens |
| TokenizerProps.ScanEmptyIsWhitespace | src/parser/tokenizer.rs:37-191 | a scan with no tokens had only whitespace left |
| TokenizerProps.TokenizeEmptyIffWhitespace | src/parser/tokenizer.rs:28-192 | the token list is empty iff the input is only whitespace |
| TokenizerProps.ScanSkipsWord | src/parser/tokenizer.rs:167-169 | letters, digits, `.` and `_` are always accepted into the bareword |
| TokenizerProps.ScanContinuesWord | src/parser/tokenizer.rs:167-169 | once a bareword has begun, every character a bareword may hold keeps it pending |
| TokenizerProps.QuoteOrBracketAfterWord | src/parser/tokenizer.rs:57-112 | a bareword starting wherever a token may start (input start, after whitespace, after a closing quote or bracket), directly followed by `"` or an opener, fails with `IncorrectChar` at that offset carrying the bareword; from the input start, so does `Tokenize` |
| TokenizerProps.PunctuationCannotStart | src/parser/tokenizer.rs:167-177 | `- ; ( ) = > < :` at input start or after whitespace fail with `IncorrectChar` |
| TokenizerProps.PunctuationAfterClosing | src/parser/tokenizer.rs:164-169 | the same characters are accepted right after a closing quote or bracket |
| TokenizerProps.UnterminatedString | src/parser/tokenizer.rs:65-91 | a quote with no later quote fails with `IncorrectString` from it to the input length |
| TokenizerProps.UnbalancedBracket | src/parser/tokenizer.rs:114-148 | an opener with no balancing closer fails with `IncorrectBrackets` to the input length |
| Decimal.NatToString | src/parser/tokenizer.rs:59 | non-empty decimal digits with no leading zero |
| Decimal.NatToStringRoundTrip | src/parser/tokenizer.rs:59 | reading the digits back gives the number |
| Ast.Requirement.Xml | src/ast/entries/root.rs:29-38 | `None` iff libadwaita; gtk gives the `lib="gtk"` tag; other gives its own lib |
| Ast.NewRequirement | src/ast/entries/root.rs:11-27 | exact spelling sets decide `Gtk`/`Libadwaita`; any other lib is kept verbatim; the version is kept |
| AstProps.NewRequirementXml | src/ast/entries/root.rs:11-38 | the XML of `new(lib, v)`: none iff lib is a libadwaita spelling, otherwise the tag |
| AstProps.NewRequirementIsExact | src/ast/entries/root.rs:14-25 | spellings outside the listed ones (`gTK`, `LIBADWAITA`) become `Other` |
| Ast.Root.AddChild | src/ast/entries/root.rs:48-50 | appends the child; requirements unchanged |
| Ast.Root.Require | src/ast/entries/root.rs:52-54 | appends the requirement; children unchanged |
| Ast.Object.AddChild | src/ast/entries/object.rs:15-17 | appends the child; class and name unchanged |
| Ast.RemoveDots | src/ast/entries/object.rs:37 | the result has no `.` and is no longer than the input |
| AstProps.RemoveDotsAppend | src/ast/entries/object.rs:37 | dot removal distributes over concatenation |
| AstProps.RemoveDotsNoDots | src/ast/entries/object.rs:37 | a dot-free class is unchanged |
| AstProps.RemoveDotsIdempotent | src/ast/entries/object.rs:37 | removal is idempotent; it is the identity iff there is no dot |
| AstProps.RemoveDotsCounts | src/ast/entries/object.rs:37 | every other character is kept with its multiplicity |
| AstProps.RemoveDotsJoin | src/ast/entries/object.rs:37 | `c.d` becomes `cd` |
| AstProps.GtkButtonClass | src/tests/parser.rs:43 | `Gtk.Button` becomes `GtkButton` |
| Ast.Entry.Xml | src/ast/entry.rs:19-25 | the dispatch to the held root, object or property (no contract of its own; `ObjectXmlParts`, `PropertyXmlEncloses`) |
| Ast.Root.Xml | src/ast/entries/root.rs:72-78 | the header, the requirement tags, the children's XML and `</interface>` (no contract of its own; `RootXmlEncloses`, `RootAddChildXml`, `RootRequireXml`) |
| Ast.Object.Xml | src/ast/entries/object.rs:36-66 | the object element (no contract of its own; `Entries.ObjectGetXml` is proved to return it and `ObjectXmlParts` states its layout) |
| Ast.Property.Xml | src/ast/entries/property.rs:40-47 | the property element (no contract of its own; `PropertyXmlEncloses`) |
| AstProps.PropertyXmlEncloses | src/ast/entries/property.rs:40-47 | the output opens with `<property name="n">` and closes with `</property>`; text is verbatim; an object is its own XML, not wrapped in `<child>` |
| AstProps.ObjectXmlEncloses | src/ast/entries/object.rs:36-66 | the opening tag starts the output and `</object>` ends it |
| AstProps.RootXmlEncloses | src/ast/entries/root.rs:72-78 | the XML declaration and `<interface>` start the output and `</interface>` ends it |
| AstProps.OpenTagId | src/ast/entries/object.rs:39-42 | the ` id="…"` attribute is present iff the name is `Some` |
| AstProps.PropertiesXmlIsProperties | src/ast/entries/object.rs:48-58 | the property part is the XML of the property children, in order |
| AstProps.ChildElementsXmlIsNonProperties | src/ast/entries/object.rs:59-62 | the child part is each non-property child in `<child>…</child>`, in order |
| AstProps.ObjectXmlParts | src/ast/entries/object.rs:36-66 | the output is the open tag, then all properties, then all wrapped children, then `</object>` |
| AstProps.PropertiesXmlAppend | src/ast/entries/object.rs:48-58 | the property part of a concatenation is the concatenation of the parts |
| AstProps.ChildElementsXmlAppend | src/ast/entries/object.rs:59-62 | the same for the child part |
| AstProps.SwapPropertyPastChild | src/ast/entries/object.rs:44-65 | moving a property ahead of an adjacent non-property child does not change the XML |
| AstProps.RootAddChildXml | src/ast/entries/root.rs:48-78 | after `add_child` the child's XML comes last before `</interface>` |
| AstProps.RootRequireXml | src/ast/entries/root.rs:52-78 | after `require` the new tag follows the old ones; a libadwaita requirement leaves the XML unchanged |
| AstProps.ObjectAddPropertyXml | src/ast/entries/object.rs:15-65 | an added property lands at the end of the property part |
| AstProps.ObjectAddElementXml | src/ast/entries/object.rs:15-65 | an added non-property lands, wrapped, at the end of the child part |
| AstProps.UsingXml | src/tests/parser.rs:19-22 | `using adw 1.0 using gtk 4.0` serializes to the header, the gtk tag only, and `</interface>` |
| AstProps.ButtonXml | src/tests/parser.rs:43-48 | `Gtk.Button` with and without `button_name` serializes to the tested tags |
| AstProps.FilterMapAppend | src/ast/entries/root.rs:84-102 | the filter over a concatenation is the concatenation of the filters |
| AstProps.PreOrderAppend | src/ast/entries/root.rs:84-102 | the visit order of a list plus one entry extends the list's order by that entry's visits |
| AstProps.FilteredIsFilterMap | src/ast/entries/root.rs:81-105 | `filter_entries` is `filter_map` over the pre-order visit sequence |
| AstProps.FilteredOneIsFilterMap | src/ast/entries/root.rs:85-101 | one entry: itself, then an object's children, or a property's object then its children |
| AstProps.FilterMapNothing | src/ast/entries/root.rs:80-108 | a filter that always gives `None` gives nothing |
| AstProps.FilteredNothing | src/ast/entries/root.rs:80-108 | `filter_entries` with an always-`None` filter is empty |
| AstProps.NamedObjectsExact | src/ast/entries/root.rs:110-125 | `(n, o)` is found iff the object `o` is visited and its name is `Some(n)` |
| Entries.ObjectGetXml | src/ast/entries/object.rs:36-66 | the three-string loop returns `Object.Xml()`, i.e. properties before wrapped children |
| Entries.FilterEntries | src/ast/entries/root.rs:81-105 | the loop returns `Filtered(entries, filter)` |
| Entries.FilterEntry | src/ast/entries/root.rs:85-101 | one iteration appends exactly `FilteredOne(entry, filter)` |
| Entries.Filter | src/ast/entries/root.rs:80-108 | the result is `filter_map` over the pre-order visit of the root's children |
| Entries.GetNamedObjects | src/ast/entries/root.rs:110-125 | `(n, o)` is returned iff a visited object `o` has name `Some(n)`, in pre-order |
| Trees.Tree.constructor | src/ast/tree.rs:10-12 | empty requirements and children |
| Trees.Tree.AddChild | src/ast/tree.rs:14-16 | appends to `root.children` only |
| Trees.Tree.Require | src/ast/tree.rs:18-20 | appends to `root.requirements` only |
| Trees.Tree.GetXml | src/ast/tree.rs:23-25 | the root's XML, enclosed in the header and `</interface>` |
| ParserSpec.FindSemicolon | src/parser/parser.rs:50-63 | the first later `Other` ending in `;`, or none if there is none |
| ParserSpec.AgreeingSpans | src/parser/parser.rs:16 | tokenizer output meets the span facts the parser's slicing needs |
| ParserSpec.TokenizeSpans | src/parser/parser.rs:16 | every successful tokenization meets those span facts |
| ParserSpec.ParseText | src/parser/parser.rs:12-223 | `Parser::parse` as a function (no contract of its own; `Parser.Parse` is proved against it and `ParserProps` states its outcomes) |
| ParserSpec.Walk | src/parser/parser.rs:19-220 | the statement loop from token `i` with the tree built so far (no contract of its own; `WalkExtends`, `WalkErrorWithin`, `WalkHasNoRoots`) |
| ParserSpec.PropertyValueOf | src/parser/parser.rs:73-113 | the value of a property, one token as text or a longer value re-parsed (no contract of its own; `PropertyTextValue`, `PropertyObjectValue`) |
| ParserSpec.BodyChildren | src/parser/parser.rs:189-196 | the children of an object body (no contract of its own; `ObjectBody`, `ObjectBodyError`) |
| ParserSpec.StatementAt | src/parser/parser.rs:19-219 | a statement that succeeds moves the index forward and stays within the tokens |
| ParserSpec.PropertyStatement | src/parser/parser.rs:48-125 | a property that succeeds adds one entry and moves forward |
| ParserSpec.EventError | src/parser/parser.rs:130-163 | every event outcome is `IncorrectEventDefinition` at the head's offset |
| ParserSpec.ObjectStatement | src/parser/parser.rs:171-208 | an object that succeeds adds one entry and moves forward |
| Parser.Parse | src/parser/parser.rs:12-223 | the loop returns a fresh tree with exactly `ParseText`'s root, or exactly its error |
| Parser.ParseProperty | src/parser/parser.rs:48-125 | returns exactly `PropertyStatement`'s outcome |
| Parser.ParsePropertyValue | src/parser/parser.rs:73-113 | returns exactly `PropertyValueOf`'s outcome |
| Parser.ParseObject | src/parser/parser.rs:171-208 | returns exactly `ObjectStatement`'s outcome |
| ParserProps.UsingStatement | src/parser/parser.rs:23-38 | `using` succeeds iff two `Other` tokens follow, giving `Requirement::new` of them; otherwise `IncorrectUseStatement` at `using` |
| ParserProps.SyntaxError | src/parser/parser.rs:211-217 | a string or group where a statement starts fails with `IncorrectSyntax` at its begin |
| ParserProps.EventStatement | src/parser/parser.rs:130-163 | `x =>` fails with `IncorrectEventDefinition` at x; the feature-off message iff a brace group follows |
| ParserProps.PropertyStatementShape | src/parser/parser.rs:48-124 | the name drops the `:` and the statement ends at the first `;`; with nothing after or no `;`, `IncorrectPropertyDefinition` at the head |
| ParserProps.PropertyTextValue | src/parser/parser.rs:73-86 | one token gives text without its `;`; a string then `;` gives the string verbatim; a group there panics |
| ParserProps.PropertyObjectValue | src/parser/parser.rs:87-112 | a longer value is re-parsed; its errors are re-based by the value start; success iff exactly one object entry results; a re-parse with zero, several or non-object entries fails with `IncorrectPropertyDefinition` at the name |
| ParserProps.ObjectStatementShape | src/parser/parser.rs:171-207 | class is the head, name the next `Other` if any, next index past the body, children exactly those `BodyChildren` gives for the body token; a body error is returned as it is; missing body fails with `IncorrectObjectDefinition` at head or name |
| ParserProps.ObjectBody | src/parser/parser.rs:189-196 | an empty span gives no children; otherwise the children of re-parsing the inside |
| ParserProps.ObjectBodyError | src/parser/parser.rs:192 | a body error is returned without re-basing |
| ParserProps.BodyOfDone | src/parser/parser.rs:189-196 | a body whose inner text parses has that parse's children |
| ParserProps.TokenizeFailure | src/parser/parser.rs:16 | a tokenize failure is returned wrapped as `TokenizeError` |
| ParserProps.BlankText | src/parser/parser.rs:16-22 | whitespace-only input gives an empty tree |
| ParserProps.ArrowAfterSpaceIsRejected | src/parser/parser.rs:130 | `name =>` fails in the tokenizer at the `=`, so the event branch cannot start after a space |
| ParserProps.WalkExtends | src/parser/parser.rs:19-220 | a successful walk only appends to requirements and children, in document order |
| ParserProps.ParseErrorWithin | src/parser/parser.rs:12-223 | every reported error points inside the input |
| ParserProps.WalkErrorWithin | src/parser/parser.rs:19-220 | the same for the loop from any index |
| ParserProps.StatementErrorWithin | src/parser/parser.rs:23-217 | the same for one statement |
| ParserProps.PropertyErrorWithin | src/parser/parser.rs:48-125 | the same for a property |
| ParserProps.PropertyValueErrorWithin | src/parser/parser.rs:87-112 | the same for a re-parsed value, after re-basing |
| ParserProps.ObjectErrorWithin | src/parser/parser.rs:171-208 | the same for an object |
| ParserProps.BodyErrorWithin | src/parser/parser.rs:189-196 | the same for an object body, although it is not re-based |
| ParserProps.ParsedHasNoRoots | src/parser/parser.rs:12-223 | a parsed tree holds no `Entry::Root` at any depth |
| ParserProps.WalkHasNoRoots | src/parser/parser.rs:19-220 | the loop adds no `Entry::Root` |
| ParserProps.StatementHasNoRoots | src/parser/parser.rs:23-217 | no statement produces an `Entry::Root` |
| ParserProps.PropertyHasNoRoots | src/parser/parser.rs:72-114 | a property entry holds no `Entry::Root` |
| ParserProps.PropertyValueHasNoRoots | src/parser/parser.rs:87-112 | an object value holds no `Entry::Root` |
| ParserProps.ObjectHasNoRoots | src/parser/parser.rs:189-196 | an object entry holds no `Entry::Root` |
| ParserProps.BodyHasNoRoots | src/parser/parser.rs:189-196 | body children hold no `Entry::Root` |
| ParserExamples.TokenizeWord | src/parser/tokenizer.rs:163-189 | a lone bareword is one `Other` spanning the input |
| ParserExamples.TokenizeTwoWords | src/tests/tokenizer.rs:20-23 | two space-separated barewords give two `Other` tokens with their offsets |
| ParserExamples.TokenizeThreeWords | src/parser/tokenizer.rs:37-52 | three barewords give three `Other` tokens with their offsets |
| ParserExamples.TokenizeWordBraces | src/parser/tokenizer.rs:114-160 | `w {}` gives an `Other` and an empty `CurlyBrackets` |
| ParserExamples.TokenizeTwoWordsBraces | src/parser/tokenizer.rs:114-160 | `w n {}` gives two `Other` tokens and an empty `CurlyBrackets` |
| ParserExamples.ParseTokenized | src/parser/parser.rs:16-19 | successful tokens feed the loop from index 0 and an empty root |
| ParserExamples.ObjectWithoutName | src/tests/parser.rs:40-43 | `w {}` parses to one object of class w, no id, no children |
| ParserExamples.ObjectWithName | src/tests/parser.rs:45-48 | `w n {}` parses to one object of class w with id n |
| ParserExamples.ObjectWithoutBody | src/tests/parser.rs:53-55 | `w` alone fails with `IncorrectObjectDefinition` at 0 |
| ParserExamples.TwoWordsWithoutBody | src/parser/parser.rs:182-207 | two barewords fail with `IncorrectObjectDefinition` at the second one |
| ParserExamples.NamedObjectWithoutBody | src/tests/parser.rs:57-59 | `w n` fails with `IncorrectObjectDefinition` at n's offset |
| ParserExamples.WalkObjectBodyFails | src/parser/parser.rs:182-196 | a named object whose body's inside fails to parse fails with that error, not re-based |
| ParserExamples.ParseThreeWords | src/parser/parser.rs:14-19 | three barewords are parsed by walking their three `Other` tokens from an empty root |
| ParserExamples.ThreeNamesTokens | src/parser/tokenizer.rs:163-189 | the three tokens of `w n b` are barewords holding w, n and b at their offsets |
| ParserExamples.ParseThreeNames | src/parser/parser.rs:14-19 | `w n b` is parsed by walking its three bareword tokens |
| ParserExamples.InsideWordBody | src/parser/parser.rs:191-192 | the text strictly inside the bareword `b` of `w n b` fails as a class name alone, at 0 |
| ParserExamples.WalkWordBody | src/parser/parser.rs:182-196 | the bareword `b` is taken as the body, whatever its kind, and its inside's error is passed on |
| ParserExamples.ObjectWithWordBody | src/parser/parser.rs:182-196 | `w n b` with a bareword body fails with `IncorrectObjectDefinition` at offset 0 of the inner text |
| ParserExamples.ButtonWithWordBody | src/tests/parser.rs:61-63 | `Gtk.Button button name` fails with `IncorrectObjectDefinition` at offset 0, the error of `am` |
| ParserExamples.UsingLine | src/tests/parser.rs:12-20 | `using lib version` parses to exactly `Requirement::new(lib, version)` |
| ParserExamples.WordTokensAt | src/parser/tokenizer.rs:183-189 | the k-th bareword token of a space-joined list of names holds the k-th name |
| ParserExamples.ScanJoined | src/parser/tokenizer.rs:163-189 | from a token boundary, names joined by single spaces up to the end are one `Other` token each, with their offsets |
| ParserExamples.TokenizeJoined | src/parser/tokenizer.rs:163-189 | names joined by single spaces tokenize to one `Other` token each |
| ParserExamples.WalkTwoUsings | src/parser/parser.rs:19-39 | two three-token `using` statements record both requirements, in order, and no entries |
| ParserExamples.UsingTwice | src/tests/parser.rs:12-20 | `using l1 v1 using l2 v2` parses to `Requirement::new(l1, v1)` then `Requirement::new(l2, v2)` |
| ParserExamples.TwoUsingLines | src/tests/parser.rs:12-22 | `using adw 1.0 using gtk 4.0` parses to `Libadwaita("1.0")`, `Gtk("4.0")` and its XML is the header, the gtk tag only and `</interface>` |
| ParserExamples.PropertyWithText | src/tests/parser.rs:67-71 | `name: value;` parses to one property with text `value` |
| ParserExamples.PropertyWithoutValue | src/tests/parser.rs:81-83 | `name:` fails with `IncorrectPropertyDefinition` at 0 |
| ParserExamples.PropertyWithoutSemicolon | src/tests/parser.rs:85-87 | `name: value` fails with `IncorrectPropertyDefinition` at 0 |

## Left out

- `src/builder.rs` is not part of this model. It is a wrapper over calls into the GTK library.
- The `rhai-events` feature is modelled as switched off, so an event statement always fails with
  `IncorrectEventDefinition`. The feature-on branch and `src/ast/entries/rhai_event.rs` are left
  out: the handler id comes from the wall clock, and the signals part of `Object::get_xml`
  exists only with the feature on.
- `ParseError` has an `IncorrectEventDefinition` variant in the model. `parser.rs` constructs
  it, but the enum in `parse_error.rs` does not declare it; it is re-based like the others.
- The `dbg` pretty-printers and the `Into<std::io::Error>` conversions are not modelled. They
  are debug output and a standard-library error wrapper.
- Text is a sequence of characters, and offsets are character indices. The parser slices and
  strips strings by bytes. The two agree on ASCII input, which is what the model describes.
- `usize` overflow is not modelled; offsets are unbounded naturals.
- Parser.Parse: requires that `ParseText` does not reach `Panic`, i.e. the source's `unwrap()`
  of a bracket group given as a two-token property value. The spec functions model that case
  as the `Panic` outcome. `ParserProps.PropertyTextValue` states where it happens.
- Parser.ParseProperty, Parser.ParsePropertyValue, Parser.ParseObject: carry the same no-panic
  requirement for their part of the input.
- Root and Object are values in the model, so their `add_child`/`require` return the updated
  value. In the source they are in-place pushes onto a value that nothing else aliases. `Tree`
  is the one class, and its methods update `root` in place.
- `Object::entry` and `Property::entry` are the `ObjectEntry(Object(..))` and
  `PropertyEntry(Property(..))` constructors. `Entry::get_xml` is the dispatch in `Entry.Xml`.
- The variants of `Entry` and `PropertyValue` are renamed after what they hold (`RootEntry`,
  `ObjectEntry`, `PropertyEntry`, `TextValue`, `ObjectValue`).
- The branches of the tokenizer loop for strings and bracket groups are separate methods
  (`Tokenizer.ReadString`, `Tokenizer.ReadGroup`). The same holds for the property and object
  branches of the parser loop (`Parser.ParseProperty`, `Parser.ParsePropertyValue`,
  `Parser.ParseObject`) and for one iteration of `filter_entries` (`Entries.FilterEntry`).
- The parser examples are proved for every name built from letters, digits, `.` and `_`, and
  two of them also for the test's own text. Test strings holding other characters
  (`example-property`, quoted values, nested bodies in braces) are not proved as literals.
- The quirks are modelled as written:
  - errors from a nested tokenization are not re-based;
  - errors from an object body are not re-based;
  - the bracket matcher pushes a mismatched closer;
  - the token kind of an object body is not checked.
