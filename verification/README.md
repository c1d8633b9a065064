# gqlhash: a verified model of the parser, the proxy's decision and the allowlist load

gqlhash reads a GraphQL document, writes a canonical form of it and hashes that form. A proxy
lets a request through if the hash of its document is on an allowlist. This project models
both, from the bytes of the document or the request up, and proves what they promise.

**The parser.** `parse` is one flat goto machine without a call stack. Module `StateMachine` has
one method for each of its labels, over the same locals: the index, the selection depth, the
stack of open lists and input objects, the bracket counter, one return slot per kind, the
`constant` flag; the writer with its buffer and its mute counter is updated in place. The
scanners (module `Scanner`) keep their eight-bytes-a-round loops. Against that stand three
independent definitions:

- `Descent`, a recursive-descent grammar over the same bytes, with the error and the position
  for every source that is not accepted. `Run` is what it and the recursive serializer
  (`Canonical`) make of a source.
- `Grammar`, a declarative one: a lexer that turns bytes into tokens, strings by value, and for
  each syntax tree the tokens that spell it, which trees are well-formed, and how deep they nest.
- The sections "Ignored Tokens", "Int Value", "Float Value" and "String Value" of the GraphQL
  specification (September 2025), stated as predicates and functions; UTF-8 is section 3 of
  RFC 3629.

`StateMachine.ReadDocument` proves that the machine comes to exactly `Run`: the same bytes, or
the same error at the same position. Its invariant `Valid` says, at each label, that what is
still to come is what the grammar makes of the rest of the source from there; every label's
method keeps it and gets further, by bytes read or by the rank of the label. So one return
slot per kind is enough, a variable is refused exactly in constant positions, the mute counter
is the sum of two facts, being within variable definitions and being within a value that are
left out, and the run terminates. `Soundness` and `Completeness` prove `Descent` equal to
`Grammar`, and `Printing` that every tree of `Grammar` has a source. From there `Documents` derives
the theorems a user of the parser relies on.

**The errors.** `Blame` gives the error of every rejected source in terms of tokens and documents
alone, no production and no limit mentioned: what was read before the reported place begins some
document of the grammar, and what stands there begins none, or is malformed, or is missing.
`Faults` builds that document, production by production; `Replay` proves that the parser reads from
left to right, so that a document beginning with the rejected token as well would have been
rejected too. The error is UnexpectedVariable exactly if a number could stand where the dollar sign
is; a constant that is also a name, such as `null`, would not tell (`Blame.NullDoesNotTell`).
`Limits` says what a depth limit changes: nothing but a TooDeep, which a larger limit takes away or
moves to a later offset. `Lexemes` has the errors within malformed strings and numbers.

**The bytes.** `Layout`, `Lexemes` and `Golden` say what the words of the other modules stand for:
which bytes are ignored, end a line, indent one, make up a name, a string or a number, and which
bytes the canonical form is made of. They are stated on literal bytes and on whole tokens, after
any token of any source.

**The encoding.** The canonical form is not injective: nothing marks the end of an empty list,
an empty input object or the variable definitions. `Ambiguity.UniquelyDecodable` gives the exact
condition. `ClearDocument` can be checked by walking the tree once, and it holds if and only if
no other document, descriptions aside, has the same canonical form:

- in a list, an empty list is followed by no list with items; in a list that is itself a list
  item, an empty list is the last item or absent; the same of input objects and the values of
  their fields;
- if there are variable definitions, the last of them carries no directives, and the first
  directive of the operation, if any, uses a variable.

`Sources` says the same of source texts: a source that fails the condition has a partner that is
accepted with the same bytes, the smallest pair being `{f(a:[[],[1]])}` and `{f(a:[[[],1]])}`. The
other two forms are `{a:{},b:{c:1}}` with `{a:{b:{},c:1}}`, and `($x:Int @d)` with `($x:Int) @d`.

**The Ignore levels.** `Erasure` proves the canonical form with inputs left out to be the full
one with every input token deleted, and the one with variables left out to be the same with
the variable definitions deleted, the latter exactly if no variable definition carries a
directive. `Levels` gives what equal bytes mean there: with variables left out, that the documents
are the same but for inputs and variable definitions, always; with inputs left out, that they are
the same but for inputs, exactly if it is known where the variable definitions end.

**The proxy and the allowlist.** `JsonText`, `QueryString` and `JsonBody` are the decoders of a
request, each against a plain definition; `Decision` is `decide` and `allow` over them.
`AllowlistLoad` is `Reload`: grouping by hash, skipping, publishing, counting.

Where code and documentation disagree the code is followed. A raw byte below 0x20 in a single-line
string is rejected (parser/scan.go:463-466), though the September 2025 edition takes every scalar
value as a SourceCharacter and forbids only LineTerminators there: the difference is every control
byte but LF and CR, TAB included. `StringLine.ControlBytesRefused` gives it exactly.

## Model

| member | source | states |
|---|---|---|
| `StateMachine.ReadDocument` | parser/parse.go:47-794 | The whole goto machine comes to exactly what the recursive grammar and the serializer make of the source: the same bytes at every Ignore level, or the same error at the same position. It is muted nowhere at the end, has written something, and its value stack is at most the limit |
| `StateMachine.Go` | parser/parse.go:90-794 | Every transition decreases (bytes left, rank of the label), so the run ends, at DONE or ERROR; from any valid state it comes to what the grammar makes of the rest |
| `Documents.AcceptedExactly` | parser/parse.go:47-794 | A source is accepted as a document exactly if its tokens spell that document of the grammar and it nests within the limit, both directions |
| `Documents.ReadingExactly` | parser/parse.go:47-794 | What is written is the serializer applied to the one document the source spells, and a source that spells none within the limit is rejected |
| `Documents.NoLimit` | parser/parse.go:48-50 | With a limit of at least the length of the source, exactly the sources that spell a document are accepted |
| `Documents.DepthLimitExact` | parser/parse.go:517-521 | A source that spells a document is accepted, with the bytes it has without a limit, exactly if selection sets and non-empty values each nest within the limit; else the error is TooDeep |
| `Documents.DepthLimitSet` | parser/parse.go:48-50 | The limit that counts is the one that is set, if it is at least 1, and 128 otherwise: a source that spells a document is accepted exactly if the document fits it, and else TooDeep |
| `Blame.ErrorExactly` | parser/parse.go:47-794 | Which error a rejected source gets, and where, is told by its tokens and the documents of the grammar alone: reading from the left, the first token that no document has there is an UnexpectedToken, or an UnexpectedVariable if a number could stand in place of the dollar sign; a malformed string or number that a document could have there gets its own error; with no token left it is UnexpectedEOF. It is the same under every limit |
| `Blame.ErrorSite` | parser/parse.go:47-794 | For every rejection but TooDeep: the tokens before the place begin a well-formed document; the error is UnexpectedEOF exactly if no token is left there; a malformed token that goes on to a document is reported as such; else with the token no document begins, and the error is UnexpectedVariable exactly if the byte is a dollar sign and the tokens followed by a number begin one |
| `Blame.TooDeepSite` | parser/parse.go:517-521 | A TooDeep is reported right after a bracket or a brace. The tokens up to there begin a document, and with the next token none that is within the limit |
| `Blame.NullDoesNotTell` | parser/parse.go:466-471 | Why it is a number that tells a misplaced variable: `{f($x:1)}` is an UnexpectedToken under every limit although `null` could stand in place of the dollar sign, being a name as well |
| `Faults.DocumentFault` | parser/parse.go:47-794 | For every rejection a well-formed document is built that begins with the tokens read before it |
| `Replay.DocumentSame` | parser/parse.go:47-794 | The parser reads from left to right: of two sources with the same tokens up to a place and the same kind of token there, if one is rejected there the other gets the same error at the same offset |
| `Limits.LargerLimit` | parser/parse.go:517-521 | A larger limit changes nothing but a TooDeep, which goes away or moves to a later offset |
| `Limits.NeverTooDeep` | parser/parse.go:645-650 | With a limit of at least the length of the source nothing is TooDeep |
| `Limits.TooDeepExactly` | parser/parse.go:645-650 | A source is TooDeep exactly if a limit of its length would change what it comes to |
| `Documents.FitsMonotone` | parser/parse.go:645-650 | A larger limit accepts no less |
| `Soundness.DocumentSound` | parser/parse.go:47-794 | Whatever the recursive grammar accepts is a well-formed tree, and the tokens of the source are those of the tree; that it nests within the limit comes from `Completeness.DocumentComplete` |
| `Completeness.DocumentComplete` | parser/parse.go:47-794 | Whatever spells a well-formed tree is read as that tree, or is too deep; nothing else happens to it |
| `Documents.LayoutDoesNotMatter` | parser/doc.go:5-10 | Two sources with the same tokens, Ignored tokens removed and strings compared by value, get identical bytes or are both rejected; which bytes are ignored is `Layout.GapIsSpace` |
| `Layout.GapIsSpace` | parser/scan.go:127-253 | After any token, and at the beginning, each of TAB, LF, CR, CR LF, a comma, the byte order mark EF BB BF and a comment line is as good as a space, whatever comes next; stated on literal bytes |
| `Layout.GapChangesNothing` | parser/doc.go:5-10 | So replacing such a gap by a space, after any token of any source, changes neither the verdict nor the bytes |
| `Layout.GapBytesOnly` | parser/scan.go:20-23 | Of single bytes exactly 0x09, 0x0a, 0x0d, 0x20 and 0x2c are |
| `Layout.EveryByte` | parser/scan.go:127-253 | What each of the 256 bytes is on its own: ignored, a punctuator, a Name, an IntValue, or no token |
| `Layout.IndentExactly` | parser/scan.go:600-605 | The indentation of a block string line are its leading 0x20 and 0x09 bytes, and a line of nothing else is blank |
| `Layout.LinesExactly` | parser/scan.go:25-41 | Lines end at 0x0a, 0x0d 0x0a or 0x0d, and nowhere else |
| `Locality.RunsSame` | parser/scan.go:127-475 | The tokens of a source up to the end of one do not depend on what comes after it |
| `Suffix.TokensTail` | parser/scan.go:127-475 | Nor those from an offset on on what comes before it |
| `Lexemes.NameExactly` | parser/scan.go:83-98 | What is a Name, byte by byte |
| `Lexemes.EllipsisExactly` | parser/parse.go:658-659 | Three dots are one token |
| `Lexemes.QuotedText` | parser/scan.go:323-475 | UTF-8 text without quotes, backslashes and bytes below 0x20 stands for itself between two quotes |
| `Lexemes.BlockQuoted` | parser/scan.go:484-640 | UTF-8 text without quotes and backslashes stands for its BlockStringValue between three |
| `Lexemes.QuotesUnquoted` | parser/scan.go:484-640 | A backslash before three quotes makes them part of a block string |
| `Lexemes.OthersKept` | parser/scan.go:484-640 | Any other byte of a block string, backslashes included, stands for itself |
| `Lexemes.StringErrors` | parser/scan.go:323-475 | The error of a malformed string by the byte it is reported at: UnescapedControlChar at a byte below 0x20, MalformedUTF8 where no scalar value is encoded, InvalidEscape at a backslash or its `u`, UnexpectedEOF at the end or in an escape that is cut short; a block string has the second and the last only |
| `Lexemes.NumberErrors` | parser/scan.go:263-318 | A malformed number is reported at its sign if no digit follows, else at the byte that ends what one digit more would make a number, or that may not follow the number before it |
| `Golden.OperationWords` | parser/parse.go:124-140 | The words that begin an operation, as bytes |
| `Golden.FragmentWords` | parser/parse.go:187-217 | The words `fragment` and `on`, as bytes |
| `Golden.ValueWords` | parser/parse.go:557-580 | The words `null`, `true` and `false`, as bytes, which are no enum values |
| `Golden.NumberTexts` | parser/scan.go:263-318 | Twelve texts that are numbers or are not |
| `Golden.Leaves` | parser/parser.go:137-165 | The bytes that introduce each kind of value |
| `Golden.Nested` | parser/parser.go:137-165 | The bytes that open and close a list and an input object |
| `Golden.Fields` | parser/parser.go:137-165 | The bytes that introduce a field, an aliased name, an argument, a directive and a selection set |
| `Golden.Fragments` | parser/parser.go:137-165 | The bytes that introduce a spread and an inline fragment |
| `Golden.Definitions` | parser/parser.go:137-165 | The bytes that introduce the three kinds of operation, a fragment, a variable definition and a type |
| `Golden.Strings` | parser/write.go:126-132 | Which bytes of a string are written as two, and as which |
| `Documents.DescriptionsDoNotMatter` | parser/parse.go:90-111 | Documents that differ in descriptions, or in whether a query has its keyword, get the same verdict and bytes |
| `Documents.IgnoreChangesNoVerdict` | parser/parser.go:167-207 | The Ignore level changes neither whether a source is accepted nor the error and its position. That holds of the grammar by its definition; `StateMachine.ReadDocument` makes it hold of the machine, which does take the level |
| `DocumentCode.ClearDocumentCode` | parser/parser.go:131-165 | A document that meets the condition has the canonical form of no other: equal bytes mean equal trees, descriptions aside |
| `DocumentCode.PlainEndsCode` | parser/parse.go:352-367 | Among documents without directives on a last variable definition, the condition on values alone is enough |
| `Ambiguity.UniquelyDecodable` | parser/parse.go:508-539 | The condition is exact: it holds if and only if no other well-formed document has the same canonical form |
| `Ambiguity.OtherDocument` | parser/parse.go:508-539 | For every well-formed document that fails the condition, another with the same bytes is constructed |
| `Ambiguity.EmptyListWitness` | parser/parse.go:511-516 | `[[],[x]]` and `[[[],x]]` are written alike, for every x |
| `Ambiguity.EmptyObjectWitness` | parser/parse.go:528-533 | `{a:{},b:{c:x}}` and `{a:{b:{},c:x}}` are written alike, for every x and all names |
| `Ambiguity.DirectiveWitness` | parser/parse.go:352-367 | Directives of a last variable definition and directives of the operation are written alike |
| `Printing.EveryDocumentSpelled` | parser/parse.go:47-794 | Every well-formed document of the grammar is spelled by some source, so what is proved of well-formed documents is proved of accepted ones |
| `Printing.TokenLexed` | parser/scan.go:127-475 | Every token, written anywhere it may end, is read back as it is: names, numbers, and strings of every value |
| `Utf8.IsUtf8Exactly` | parser/scan.go:69-76 | Text is what is the encoding of some sequence of scalar values |
| `TextForm.StringIsUtf8` | parser/write.go:156-270 | The value of every string, block string or not, is UTF-8 |
| `Sources.SourceUniquelyDecodable` | parser/parse.go:508-539 | Of sources: the condition holds if and only if no source of another document has the same canonical form |
| `Sources.Partner` | parser/parse.go:508-539 | Every source that fails the condition has a partner of another document, accepted with the same bytes under every large enough limit |
| `Sources.SmallestSources` | parser/parse.go:511-516 | `{f(a:[[],[1]])}` and `{f(a:[[[],1]])}` are both accepted, with the same bytes, under every limit above 1 |
| `Sources.EmptyListSources` | parser/parse.go:511-516 | The same of sources for every item in place of 1 |
| `Sources.EmptyObjectSources` | parser/parse.go:528-533 | Sources of `{f(a:{a:{},b:{c:x}})}` and `{f(a:{a:{b:{},c:x}})}` are both accepted, with the same bytes, for all names and every x |
| `Sources.DirectiveSources` | parser/parse.go:352-367 | Sources of an operation with constant directives on its last variable, and with the same directives after the variables, are both accepted with the same bytes |
| `Levels.InputsUniquelyDecodable` | parser/parser.go:167-207 | With inputs left out, a document is told from all that differ in more than inputs if and only if each operation with variables has no directives, neither on the last variable nor of its own |
| `Levels.InputsTell` | parser/parser.go:167-207 | Among documents without directives on a last variable definition, equal bytes with inputs left out mean equal but for inputs, and conversely |
| `Levels.VariablesTell` | parser/parser.go:167-207 | With variables left out as well, equal bytes mean equal but for inputs and variable definitions, and conversely, of every two documents |
| `Erasure.InputsErased` | parser/parse.go:433-441 | The form with inputs left out is the full form with every token of prefix 0x13 to 0x1f deleted, up to the next prefix |
| `Erasure.VariablesErased` | parser/parse.go:168-170 | The form with variables left out is that with every variable definition and the type after it deleted too, exactly if no variable definition has directives |
| `Comparison.SameHashSameDocument` | gqlhash.go:144-163 | Two valid documents have the same hash exactly if they are the same document, layout and descriptions aside, given the encoding condition and a hash that does not collide on the two |
| `Comparison.SameHashWithoutVariables` | gqlhash.go:144-163 | The same where inputs and variables are left out, for every two valid documents: exactly if they are the same but for those |
| `Parsing.Parser.Parse` | parser/parse.go:47-53 | Result and writes are a function of source and options, whatever the reused buffers held; exactly one Write for an accepted document, none otherwise; the buffer kept is at most maxRetainedBufferSize and the stack at most the limit |
| `Parsing.Parser.Retain` | parser/parse.go:772-793 | An oversized buffer is replaced by one of the default size, any other is kept |
| `Parsing.Parser.constructor` | parser/parser.go:249-258 | A buffer size below 1 takes the default |
| `Parsing.RejectsInside` | parser/parser.go:98-101 | Every error position lies within the source, so the clamp never changes one |
| `StateMachine.Definition` | parser/parse.go:90-111 | An optional description, then a definition; a description before a bare selection set is an error. Keeps `Valid`, and advances |
| `StateMachine.DefinitionBody` | parser/parse.go:113-143 | A bare selection set and `query` write the same prefix; each keyword must be a whole word. Keeps `Valid`, and advances |
| `StateMachine.OperationHead` | parser/parse.go:144-158 | An optional name, then variables or directives. Keeps `Valid`, and advances |
| `StateMachine.OperationTail` | parser/parse.go:160-175 | Entering the variables mutes the writer where they are left out. Keeps `Valid`, and advances |
| `StateMachine.DefinitionEnd` | parser/parse.go:177-182 | The end of the source ends the run, anything else is another definition. Keeps `Valid`, and advances |
| `StateMachine.Fragment` | parser/parse.go:184-230 | A fragment name that is not `on`, and its type condition. Keeps `Valid`, and advances |
| `StateMachine.VarDef` | parser/parse.go:232-250 | A variable definition may carry a description, and must begin with a dollar sign. Keeps `Valid`, and advances |
| `StateMachine.VariableName` | parser/parse.go:250-278 | Writes name and type prefix and goes on to the type with no bracket open. Keeps `Valid`, and advances |
| `StateMachine.Type` | parser/parse.go:280-298 | Brackets are counted instead of nested; the count agrees with the recursive type. Keeps `Valid`, and advances |
| `StateMachine.TypeAfter` | parser/parse.go:300-308 | An optional `!` is written, and the innermost open bracket is closed next. Keeps `Valid`, and advances |
| `StateMachine.TypeClose` | parser/parse.go:308-321 | As many closing brackets as opening ones, each with an optional `!`. Keeps `Valid`, and advances |
| `StateMachine.TypeEnd` | parser/parse.go:322-339 | A default value is constant and mutes where inputs are left out. Keeps `Valid`, and advances |
| `StateMachine.VarDefAfterDefault` | parser/parse.go:341-346 | The mute count of the default value is taken back. Keeps `Valid`, and advances |
| `StateMachine.VarDefEnd` | parser/parse.go:352-367 | Another variable, or the end of them: the mute count is taken back. Keeps `Valid`, and advances |
| `StateMachine.Directives` | parser/parse.go:369-393 | A directive name, with arguments or without, for whichever production asked. Keeps `Valid`, and advances |
| `StateMachine.DirectivesEnd` | parser/parse.go:394-405 | One return slot is enough: control returns to the production that entered. Keeps `Valid`, and advances |
| `StateMachine.Args` | parser/parse.go:407-410 | An argument list is not empty. Keeps `Valid`, and advances |
| `StateMachine.ArgsNext` | parser/parse.go:411-437 | The argument name is written; its value is muted where inputs are left out. Keeps `Valid`, and advances |
| `StateMachine.ArgsAfterValue` | parser/parse.go:438-455 | The next argument or the end, returning to a field or a directive by the slot. Keeps `Valid`, and advances |
| `StateMachine.Value` | parser/parse.go:457-579 | Every kind of value begins by one byte, and nothing else is a value. Keeps `Valid`, and advances |
| `StateMachine.VariableValue` | parser/parse.go:464-482 | A variable is refused exactly in constant positions. Keeps `Valid`, and advances |
| `StateMachine.StringLiteral` | parser/parse.go:484-506 | Both kinds of string write their prefix and the escape of their value. Keeps `Valid`, and advances |
| `StateMachine.BlockLiteral` | parser/parse.go:484-497 | A block string without content writes the empty value. Keeps `Valid`, and advances |
| `StateMachine.LineLiteral` | parser/parse.go:498-506 | A single-line string is written by value. Keeps `Valid`, and advances |
| `StateMachine.OpenListValue` | parser/parse.go:508-522 | An empty list gets no end marker; a non-empty one pushes a frame, unless the stack is at the limit. Keeps `Valid`, and advances |
| `StateMachine.OpenObjectValue` | parser/parse.go:524-539 | The same of input objects. Keeps `Valid`, and advances |
| `StateMachine.NumberValue` | parser/parse.go:541-554 | A number is kept as written, under the prefix of its kind. Keeps `Valid`, and advances |
| `StateMachine.WordValue` | parser/parse.go:556-579 | `null`, `true` and `false` are whole words; any other name is an enum value. Keeps `Valid`, and advances |
| `StateMachine.AfterValue` | parser/parse.go:581-588 | With no frame open, control returns to an argument or a default value by the slot. Keeps `Valid`, and advances |
| `StateMachine.InFrame` | parser/parse.go:589-609 | The innermost frame takes the next item or field, or is closed and popped. Keeps `Valid`, and advances |
| `StateMachine.ObjectField` | parser/parse.go:610-632 | A field name, a colon and a value. Keeps `Valid`, and advances |
| `StateMachine.SelSet` | parser/parse.go:634-651 | A selection set is not empty and nests within the limit. Keeps `Valid`, and advances |
| `StateMachine.Selection` | parser/parse.go:652-734 | A field, a spread or an inline fragment. Keeps `Valid`, and advances |
| `StateMachine.Ellipsis` | parser/parse.go:658-693 | What follows an ellipsis: `on`, a fragment name, directives or a selection set. Keeps `Valid`, and advances |
| `StateMachine.FieldName` | parser/parse.go:695-734 | A field, with an alias written before the name it stands for. Keeps `Valid`, and advances |
| `StateMachine.FieldAfterArgs` | parser/parse.go:736-738 | Directives follow the arguments. Keeps `Valid`, and advances |
| `StateMachine.FieldAfterDirectives` | parser/parse.go:744-754 | A field may have a selection set of its own. Keeps `Valid`, and advances |
| `StateMachine.AfterSelection` | parser/parse.go:755-770 | The end of a selection set closes one level; the outermost ends the definition. Keeps `Valid`, and advances |
| `Scanner.SkipIgnorables` | parser/scan.go:127-253 | The unrolled loop ends where the longest run of Ignored tokens ends, comments cut at malformed UTF-8 and byte order marks included; which bytes these are is `Layout.GapIsSpace` and `Layout.GapBytesOnly` |
| `Lexical.SkipStops` | parser/scan.go:127-253 | No Ignored token begins where a skip ended |
| `Lexical.SkipIdempotent` | parser/scan.go:127-253 | Skipping twice is skipping once |
| `Scanner.ScanComment` | parser/scan.go:138-253 | A comment ends at a LineTerminator or at a byte that is no SourceCharacter, and where it is cut short nothing more can be skipped |
| `Scanner.ScanNameEnd` | parser/scan.go:83-115 | The unrolled loop finds the end of the maximal Name |
| `Output.Writer.NameTok` | parser/write.go:71-113 | Finds the same end as nameEnd, and writes prefix and name |
| `Scanner.ScanNumber` | parser/scan.go:263-315 | The loops yield what the lexical function yields: end, kind, or the error position |
| `Numbers.NumberIs` | parser/scan.go:263-315 | A number is accepted exactly if it is -?(0&#124;[1-9][0-9]*)(.[0-9]+)?([eE][+-]?[0-9]+)? not followed by a digit, a dot or a NameStart, and is a float exactly if it has a fraction or an exponent |
| `Scanner.ScanStringLine` | parser/scan.go:323-475 | Accepts exactly the contents the grammar gives code points to, reports its errors and positions, and says whether there is an escape |
| `StringLine.ControlBytesRefused` | parser/scan.go:463-466 | The strings taken are exactly those of the specification in which no byte below 0x20 stands as it is, read with the same value |
| `StringLine.ShortEscapes` | parser/scan.go:377-382 | What each of the eight short escapes adds to the value, as byte pairs, wherever it stands |
| `StringLine.NoOtherEscapes` | parser/scan.go:454-457 | A backslash before any byte but those and `u` is an InvalidEscape at the backslash |
| `StringLine.FourDigits` | parser/scan.go:413-452 | `\u` and four digits of either case add the scalar value they write |
| `StringLine.TwelveDigits` | parser/scan.go:421-446 | The two halves of a surrogate pair add one scalar value |
| `StringLine.TabWitness` | parser/scan.go:463-466 | A TAB between the quotes is a string of the specification and is refused |
| `Scanner.ScanEscape` | parser/scan.go:372-460 | One escape sequence: accepted exactly if its mathematical value is a scalar value or a surrogate pair; hex accumulation stays within 32 bits for any number of digits |
| `Scanner.ScanHexDigits` | parser/scan.go:389-411 | The accumulated value is the mathematical one as long as it is no larger than a code point, and larger ones are told apart |
| `Scanner.ScanStringBlock` | parser/scan.go:484-580 | Finds the closing delimiter, the common indentation of the lines and whether there is content, in one pass over any mix of LF, CR and CRLF |
| `Soundness.KeywordIs` | parser/scan.go:52-58 | A keyword is matched exactly where it is the whole of a Name |
| `Utf8.SourceCharacterIs` | parser/scan.go:69-76 | The length is n above 0 exactly if the n bytes are the UTF-8 encoding of some scalar value |
| `Utf8.DecodeEncode` | parser/scan.go:69-76 | Every scalar value is encoded so that it is decoded again, whatever follows |
| `Utf8.EncodeDecode` | parser/scan.go:69-76 | Re-encoding a decoded character gives back its bytes |
| `UnicodeEsc.PairIsOnto` | internal/unicodeesc/unicodeesc.go:80-82 | Every supplementary code point is spelled by exactly one surrogate pair |
| `UnicodeEsc.ValueIsHexValue` | internal/unicodeesc/unicodeesc.go:39-44 | The four-digit value is the mathematical one |
| `UnicodeEsc.HexValueStep` | internal/unicodeesc/unicodeesc.go:24-44 | One digit more multiplies by sixteen, and the value never shrinks |
| `Output.Writer.StringValue` | parser/write.go:156-214 | Never reads past the closing quote, and writes the escape of the UTF-8 of the code points |
| `Output.Writer.EscapedCharacter` | parser/write.go:172-212 | An escape sequence is written as the character it stands for |
| `Output.Writer.BlockStringValue` | parser/write.go:224-270 | Writes the escape of BlockStringValue() of the text with `\"""` replaced by `"""` |
| `Output.Writer.BlockStringLine` | parser/write.go:275-296 | A line is written with its one escape sequence undone |
| `Output.TrimEmptyLinesSuffix` | parser/write.go:299-323 | The lines left are those without the blank ones at the end |
| `BlockLines.BlockTextWritten` | parser/write.go:224-270 | Trimming, dedenting and unquoting commute with the steps of BlockStringValue() |
| `BlockLines.LinesUnquote` | parser/write.go:275-296 | Unquoting neither makes nor removes a line |
| `BlockLines.DropsCommute` | parser/write.go:224-323 | Blank lines at the end may be dropped before those at the start |
| `Output.Writer.StrRune` | parser/write.go:142-153 | A rune is written as the escape of its UTF-8 encoding |
| `Output.Writer.Esc` | parser/write.go:126-131 | A byte that would read as a prefix is written as two |
| `Marks.EscapeIsText` | parser/write.go:126-139 | No escaped value holds a byte that is a prefix |
| `Marks.EscapeInjective` | parser/write.go:126-139 | Different values have different escapes |
| `Positions.RunesCounted` | parser/parser.go:127-128 | Every character of a text counts as one, whatever its length in bytes |
| `Positions.MalformedCounted` | parser/parser.go:127-128 | A byte that begins no character counts as one |
| `Positions.PositionExactly` | parser/parser.go:113-129 | Line and column are the number of lines up to the offset and one more than the characters of the last, CRLF ending one line and a malformed byte counting as one |
| `Parsing.Hasher.Append` | gqlhash.go:135-141 | What is appended is the digest of this document, whatever was hashed before; a rejected document leaves the buffer as it was |
| `Parsing.Hasher.Compare` | gqlhash.go:144-163 | Equal exactly if both are accepted and have equal digests, independent of earlier calls; else the first fault |
| `Parsing.AppendHash` | gqlhash.go:170-178 | The same with any previously used parser |
| `Parsing.CompareWithBuffer` | gqlhash.go:85-99 | The two digests in one buffer are told apart by their size |
| `JsonText.UnescapeJSON` | internal/app/proxy/extract.go:171-233 | The loop yields exactly what the string spells, or fails exactly if it spells nothing; without an escape the text is its own value |
| `JsonText.ShortEscapes` | internal/app/proxy/extract.go:187-204 | What each of the eight short escapes spells, as byte pairs, wherever it stands |
| `JsonText.NoOtherEscapes` | internal/app/proxy/extract.go:184-228 | A backslash at the end, or before any byte but those and `u`, is invalid |
| `JsonText.FourDigits` | internal/app/proxy/extract.go:205-227 | `\u` and four digits of either case spell the UTF-8 of the value they write, U+FFFD for the second half of a surrogate pair on its own |
| `JsonText.TwelveDigits` | internal/app/proxy/extract.go:213-225 | The two halves of a pair spell one character, and the first half before anything else four digits write is invalid |
| `JsonText.LoneHalf` | internal/app/proxy/extract.go:213-218 | The first half without a further escape is invalid |
| `JsonText.WriteJSONString` | internal/app/proxy/proxy.go:753-776 | Writing runs whole yields what writing byte by byte does |
| `JsonText.RoundTrip` | internal/app/proxy/proxy.go:736-776 | unescapeJSON gives back every byte string writeJSONString was given |
| `JsonText.ReadBack` | internal/app/proxy/extract.go:171-233 | The same from any point within the text |
| `JsonText.IsQueryKey` | internal/app/proxy/extract.go:250-286 | With its length filter and its fast path, true exactly if the quoted key unescapes to the name; `JsonText.AnyCase` and `JsonText.LowerCase` say which texts are the name |
| `JsonText.AnyCase` | internal/app/proxy/extract.go:277-284 | Changing the case of any one letter, by adding or taking off 0x20, changes nothing |
| `JsonText.LowerCase` | internal/app/proxy/extract.go:277-284 | Without capitals the name is `query`, and nothing else is |
| `JsonText.QueryLength` | internal/app/proxy/extract.go:250-270 | A spelling of the name is 5, 10, 15, 20, 25 or 30 bytes long, and 5 exactly without an escape |
| `QueryString.IsQueryParam` | internal/app/proxy/extract.go:412-438 | True exactly if the percent-decoded key is "query" |
| `QueryString.ExtractQueryParam` | internal/app/proxy/extract.go:301-358 | The decoded value of the one query parameter; an error exactly if there is none, a second, or a broken escape; `QueryString.SeparatorsSplit` and `QueryString.OnePair` say which values a query string has |
| `QueryString.HasQueryParam` | internal/app/proxy/extract.go:387-405 | True exactly if there is a query value, in the sense of `QueryString.SeparatorsSplit` and `QueryString.OnePair` |
| `QueryString.SeparatorsSplit` | internal/app/proxy/extract.go:301-358 | An ampersand and a semicolon split a query string, wherever they stand: the query values of the whole are those of both sides |
| `QueryString.OnePair` | internal/app/proxy/extract.go:301-358 | A string with neither is one pair, and names a query exactly if what comes before its first equals sign decodes to `query`; the value is what comes after |
| `QueryString.PercentDecoded` | internal/app/proxy/extract.go:342-353 | A percent sign and two hexadecimal digits of either case are the byte they write |
| `QueryString.ByteDecoded` | internal/app/proxy/extract.go:339-355 | A plus sign is a space and any other byte but the percent sign is itself |
| `QueryString.BrokenEscape` | internal/app/proxy/extract.go:342-349 | A percent sign without two hexadecimal digits after it is an error |
| `QueryString.URLDecode` | internal/app/proxy/extract.go:337-357 | The decoding loop against percent-decoding as section 2.1 of RFC 3986 has it, with `+` for a space |
| `QueryString.HasAgreesWithExtract` | internal/app/proxy/extract.go:301-405 | What the two methods are each proved to compute agrees on whether there is a query parameter; that each does is in `QueryString.HasQueryParam` and `QueryString.ExtractQueryParam` |
| `QueryString.MergeAddsUp` | internal/app/proxy/extract.go:374-382 | The query parameters of a merged query string are those of the endpoint, then the client's |
| `QueryString.MergeKeepsDocument` | internal/app/proxy/extract.go:374-382 | Merging parameters that name no query changes neither the value nor the error |
| `JsonBody.ExtractJSON` | internal/app/proxy/extract.go:73-166 | The flag machine of the callback, break by break: the spans it finds and every error it reports |
| `JsonBody.BodyDocuments` | internal/app/proxy/extract.go:73-166 | On a well-formed body it finds the documents exactly if every request names the query member once, as a string, and there are 1 to maxBatch of them; else it reports the fault of the first request that has one |
| `JsonBody.BatchTaken` | internal/app/proxy/extract.go:134-164 | A batch is free of faults exactly if every element carries a document and there are not too many |
| `JsonBody.MembersScanned` | internal/app/proxy/extract.go:117-140 | Whatever is nested in the members of a request, only their own names are looked at |
| `JsonBody.ElementsScanned` | internal/app/proxy/extract.go:105-164 | An element without a document is found at the next one, or at the end |
| `Decision.Proxy.Decide` | internal/app/proxy/proxy.go:546-598 | A GET is allowed exactly if it has no body and the one value of its query parameter is on the list; an application/graphql POST exactly if the query string names no document and the body is on the list; a JSON POST exactly if the query string names none, the JSON is well-formed and every request in it, the lone one or each of 1 to maxBatch, has one member named query, a string that spells a document on the list. Else the error, if any, is the one of the first reason |
| `Decision.Rules.ListedBody` | internal/app/proxy/extract.go:73-166 | What the callback finds in a well-formed body is all on the list exactly if every request of the tree is |
| `Decision.Proxy.DecideSpans` | internal/app/proxy/proxy.go:586-598 | The documents of a batch are looked up in order, and the first that is not let through decides |
| `Decision.Proxy.Allow` | internal/app/proxy/proxy.go:604-622 | Allowed exactly if the allowlist holds something, the document parses and its hash is on it; TooDeep is told apart |
| `Decision.NamedOnce` | internal/app/proxy/proxy.go:546-598 | A GET that names a document has no body and exactly one query pair; a POST has no such pair; a JSON body has one query member, a string, in each of its 1 to maxBatch requests |
| `Decision.MergedNamesTheSame` | internal/app/proxy/run.go:75-81 | Endpoint parameters merged into the query string leave what a request names unchanged |
| `AllowlistLoad.Allowlist.Reload` | internal/allowlist/allowlist.go:122-199 | A hash is published exactly if one file alone has it, a file whose content parses to it and that the schema takes; the loaded files are those, in read order; loaded and skipped make up all files; the size changes by added less removed; a failed scan changes nothing |
| `AllowlistLoad.Allowlist.Group` | internal/allowlist/allowlist.go:146-172 | Files are gathered under their hashes in read order, the unusable ones skipped |
| `AllowlistLoad.PublishedExactly` | internal/allowlist/allowlist.go:146-191 | One name under a hash is one file alone that has it |
| `AllowlistLoad.Allowlist.Publish` | internal/allowlist/allowlist.go:174-191 | A hash that two files share is served for neither |
| `AllowlistLoad.Allowlist.Allowed` | internal/allowlist/allowlist.go:60-67 | Before the first load nothing is allowed |
| `AllowlistLoad.EveryFileOnce` | internal/allowlist/allowlist.go:122-199 | Every scanned file is loaded or skipped, once, and the loaded ones keep read order |
| `AllowlistLoad.LoadedInOrder` | internal/allowlist/allowlist.go:174-191 | Going through the hashes in order of their first file yields the served files in read order |
| `AllowlistLoad.Diff` | internal/allowlist/allowlist.go:306-321 | Counts the hashes that are new and those that are gone |
| `AllowlistLoad.SizesAddUp` | internal/allowlist/allowlist.go:306-321 | New size is old size plus added less removed |

## Left out

- Hash functions and digest encodings: the digest is an arbitrary function of the bytes written since the last Reset. What depends on a hash not colliding says so in a premise.
- The JSON scanner: another library. A body is an abstract tree visited in document order with level, key, value kind and span, or a prefix of such visits when the text is malformed; strings are assumed to lie within the body.
- Go's `strings` and `utf8` functions are written out here: `IndexByte`, `Count`, `LastIndexByte`, `Cut`, `EqualFold` on five letters, `DecodeRune`, `AppendRune`. Windows of a string are index pairs; unsafe views are not modelled.
- Capacity of Go slices: how far append grows a buffer is an arbitrary choice here; only the bound on what a parser keeps is proved. The capacity of the value stack is not modelled, its length is.
- The pool of parser states: every operation is proved for an arbitrary previously used parser instead.
- The locals of parse are a record that each label's method takes and returns; labels with long bodies are several methods. The writer's destination is passed when the buffer is flushed and not held.
- Output.Writer.StrRune: appends a rune's bytes one after another instead of through a four-byte array.
- Error messages and the wording of skip entries: errors are the sentinel values, and a skipped file is its name.
- Blame.TooDeepSite: says that a TooDeep comes right after a bracket or brace and that no document within the limit goes on from there, not how many brackets are open; that a larger limit moves it on is `Limits.LargerLimit`.
- AllowlistLoad.Allowlist.Reload: directory scanning, file reading and schema validation are inputs. The lock and the atomic pointer are not modelled, nor is the time of the load.
- AllowlistLoad.Diff: visits the hashes in an arbitrary order, as a Go map does.
- Decision.Proxy.Decide: metrics, logging and the reading of the body are not modelled; the media type's verdict is an input.
- The rest of the proxy: HTTP serving, forwarding, streaming, timeouts, configuration, control endpoints, the command line, the web pages.
- Performance: nothing is said of allocations or running time beyond termination.
