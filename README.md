# cc.c front end in Dafny

`cc.c` is a small scannerless recursive-descent front end. It reads a file of
declarations of the form `int name ;`, builds a syntax tree of the node kinds
`Nprog`, `Nstmt`, `Ndecl`, `Ntype` and `Nsym`, keeps the statements of a
program in a singly linked list, and prints the tree back as text. Any parse
error ends the process through `panic`.

This project models all of that except the command-line driver. It has the
same layers as the C file.

- `chars.dfy` (module `Chars`): what `fgetc` yields (a character or `Eof`),
  and the ASCII character classes of `isalpha`, `isdigit` and `isspace`.
- `errors.dfy` (module `Errors`): each `panic` of the parser as an `Error`
  value, and a `Result` type.
- `syntax.dfy` (module `Syntax`): the tree datatype `Node`, `BUFSIZE`, and the
  shape of the trees the parser builds (`WellFormedProg`).
- `grammar.dfy` (module `Grammar`): the parser as pure functions over the whole
  input text and a position in it. Each returns what the C routine builds and
  the position after what it read, or the error it panics with. These are the
  specifications the imperative code is proved against.
- `cursor.dfy` (module `Cursor`): the input stream as a class `Input`. It holds
  the text and a mutable position, and has the methods `Shift`, `Unshift`,
  `Peek`, `Trim`, `ShiftName` and `ExpectC`. `ShiftName` fills a real
  1000-character array, as `shiftname` fills its heap buffer.
- `nodelist.dfy` (module `NodeLists`): the linked statement list as heap cells
  with a mutable `next` link. `Append` walks to the tail and links the new
  cell; `EachNode` walks the list in order.
- `parser.dfy` (module `Parser`): `parse_type` through `parse_prog` and `parse`
  as methods that read the stream and build the list. Each is proved to agree
  with the function of the same name in `Grammar`.
- `printer.dfy` (module `Printer`): `printtype` and `printnode` as functions
  from tree to string, and `printnode` on a program as a method over the
  linked list.
- `facts.dfy` (module `GrammarFacts`): what the parser functions do on inputs
  of a known shape.
- `roundtrip.dfy` (module `RoundTrip`): printing any tree that `parse_prog` can
  build and parsing the text again gives the same tree back.
- `examples.dfy` (module `Examples`): the outcome for concrete inputs.

Some modelling decisions:

- `ParseProgram(s)` is `ParseStmts(s, 0)`. The method `ParseProg` starts from
  wherever the stream stands.
- `parse_prog` returns a program node whose first slot is the head of the
  statement list. Here `ParseProg` returns that list; its `Contents()` are the
  statements of the `Prog` node.
- The code differs from the grammar comment at the head of `cc.c`, and the
  model follows the code.
  - A statement is only ever a declaration; `expr` and `num` have no code.
  - A program may have zero statements, although the comment says `stmt+`.
  - An input of whitespace only fails with "expected identifier, got EOF".
    The loop tests for the end of input before it trims (cc.c:274-275).

## Model

| member | source | states |
|---|---|---|
| Chars.At | cc.c:103-107 | fgetc gives Eof exactly when the input is used up, and otherwise the character at the position |
| Grammar.Trim | cc.c:148-164 | trim stops at the end of input or at a character that is not whitespace, and never moves back |
| Grammar.TrimChars | cc.c:155-163 | every character trim passes over is whitespace, so it consumes exactly the maximal whitespace run |
| Grammar.NameEnd | cc.c:130-141 | the identifier loop stops at the end of input or at a character outside [A-Za-z0-9_] |
| Grammar.NameEndChars | cc.c:130-141 | every character the identifier loop passes over is in [A-Za-z0-9_] |
| Grammar.Substr | cc.c:128-139 | the buffer filled one character at a time holds b - a characters |
| Grammar.SubstrSlice | cc.c:128-139 | the buffer holds exactly the characters read, in order |
| Grammar.LexName | cc.c:116-146 | on success the name is valid (1 to 999 characters, [A-Za-z_][A-Za-z0-9_]*), is as long as the text consumed, and is followed by end of input or a non-identifier character; it fails with "expected identifier" on end of input or a first character outside [A-Za-z_], and otherwise with "identifier too long" |
| Grammar.LexNameText | cc.c:116-146 | the returned name is the text read from the start position to the end position |
| Grammar.LexNameAccepts | cc.c:123-137 | shiftname succeeds if and only if a letter or `_` starts a run of identifier characters of at most 999 characters |
| Grammar.LexNameFrom | cc.c:128-143 | once the first character is accepted, the result is the whole run when it fits the buffer, and "identifier too long" when it does not |
| Grammar.ExpectChar | cc.c:166-176 | expectc succeeds exactly when the next character is e, and then advances by one; otherwise it fails with "expected e" naming EOF or the character found |
| Grammar.ParseType | cc.c:213-228 | on success the node is the type int |
| Grammar.ParseName | cc.c:230-240 | parse_name succeeds exactly when shiftname does, and gives a symbol node whose text is exactly the identifier read, a valid name |
| Grammar.ParseDecl | cc.c:242-256 | on success the node is a decl with the type node int in slot 0 and a symbol node with a valid name in slot 1, and input was consumed |
| Grammar.ParseStmt | cc.c:258-267 | on success the node is a statement wrapping such a declaration, and input was consumed |
| Grammar.ParseStep | cc.c:274-277 | one turn of the loop of parse_prog yields a well-formed statement and consumes input |
| Grammar.ParseStmts | cc.c:269-281 | the statements parse_prog collects are all well-formed |
| Grammar.ParseStmtsStep | cc.c:274-278 | the statements from a position are the next statement followed by the statements after it, or the failure of that statement |
| Grammar.ParseStmtsCons | cc.c:274-278 | a statement read at i followed by the statements after it are the statements from i |
| Grammar.ParseStmtsLoop | cc.c:274-278 | one turn of the loop appends the statement it read to those read so far |
| Grammar.ParseStmtsLoopErr | cc.c:274-276 | a statement that fails makes the whole program fail with its error |
| Grammar.ParseProgram | cc.c:269-281 | a parsed program is a program node of well-formed statements |
| GrammarFacts.TrimIdempotent | cc.c:148-164 | a second trim consumes nothing |
| GrammarFacts.TrimAt | cc.c:148-164 | trim stops exactly at the end of any whitespace run that nothing continues |
| GrammarFacts.NameEndAt | cc.c:130-141 | the identifier loop stops exactly at the end of any identifier run that nothing continues |
| GrammarFacts.LexNameAt | cc.c:116-146 | shiftname returns exactly a valid name that stands at the position and is not followed by an identifier character |
| GrammarFacts.ParseTypeExactlyInt | cc.c:213-228 | parse_type succeeds if and only if the identifier read is exactly `int`, so `intx` is rejected; it then ends right after `int` |
| GrammarFacts.ParseDeclAt | cc.c:242-256 | `int`, whitespace and a name parse as the declaration of that name, ending after the name |
| GrammarFacts.ParseStmtAt | cc.c:258-267 | a declaration, optional whitespace and `;` parse as a statement that ends right after the `;` |
| GrammarFacts.EmptyInputIsEmptyProgram | cc.c:272-280 | an empty input is the program with no statements |
| GrammarFacts.WhitespaceOnlyFails | cc.c:274-275 | an input of whitespace only fails with "expected identifier, got EOF" |
| Cursor.Input.constructor | cc.c:290 | the stream opened on a text stands at its first character |
| Cursor.Input.Shift | cc.c:103-107 | shift returns the character at the position and advances by one, or returns Eof and stays |
| Cursor.Input.Unshift | cc.c:109-114 | unshift of the character just read steps back by one; unshift of Eof does nothing |
| Cursor.Input.Peek | cc.c:92-101 | peek returns the character at the position and does not move |
| Cursor.Input.Trim | cc.c:148-164 | trim moves the stream to where Grammar.Trim says |
| Cursor.Input.ShiftName | cc.c:116-146 | shiftname returns what Grammar.LexName returns and leaves the stream after the name; on failure it returns the same error |
| Cursor.Input.ShiftNameChars | cc.c:130-141 | the loop of shiftname never writes past the buffer, ends at the end of the identifier run with the run in the buffer, and fails with "identifier too long" exactly when the run does not fit |
| Cursor.Input.ExpectC | cc.c:166-176 | expectc succeeds, advances and fails exactly as Grammar.ExpectChar says |
| NodeLists.NodeCell.constructor | cc.c:177-184 | mknode gives a node whose next link is null |
| NodeLists.NodeList.constructor | cc.c:272 | a zero-initialised list head is the empty list |
| NodeLists.NodeList.Append | cc.c:195-211 | append makes the list the old list followed by the new node, keeps every earlier cell and their order, and only adds the new cell to the footprint |
| NodeLists.NodeList.EachNode | cc.c:186-193 | eachnode applies f to the nodes in list order, and the outputs come in that order |
| NodeLists.ConcatMapSnoc | cc.c:189-192 | visiting one more node at the end adds its output at the end |
| Parser.ParseType | cc.c:213-228 | parse_type returns and consumes what Grammar.ParseType says |
| Parser.ParseName | cc.c:230-240 | parse_name returns and consumes what Grammar.ParseName says |
| Parser.ParseDecl | cc.c:242-256 | parse_decl returns and consumes what Grammar.ParseDecl says |
| Parser.ParseStmt | cc.c:258-267 | parse_stmt returns and consumes what Grammar.ParseStmt says |
| Parser.NextStmt | cc.c:275-277 | trim, parse_stmt and trim return and consume what Grammar.ParseStep says |
| Parser.AppendStmt | cc.c:276 | the list grows by exactly the statement |
| Parser.ParseNext | cc.c:275-277 | one turn of the loop appends to the list the statement Grammar.ParseStep reads and moves to where it ends, or fails with its error |
| Parser.ParseProg | cc.c:269-281 | parse_prog succeeds exactly when Grammar.ParseStmts does; the list then holds those statements in source order and the input is used up; otherwise it fails with the same error |
| Parser.Parse | cc.c:283-301 | parse succeeds exactly when Grammar.ParseProgram does, returns its program as a fresh list, and otherwise fails with its error |
| Printer.PrintType | cc.c:303-313 | printtype prints a nonempty spelling |
| Printer.PrintNode | cc.c:315-343 | printnode renders a program as its statements in order, a statement as its child then `;` and a newline, a declaration as type, a space and name, a type by printtype, a symbol as its text; its partner RoundTrip.ParsePrinted proves that parsing this rendering of any tree parse_prog builds gives the tree back |
| Printer.PrintNodes | cc.c:322-324 | eachnode with printnode prints the statements one after the other in list order; RoundTrip.PrintedAtConcat and RoundTrip.ParsePrinted are about this rendering |
| NodeLists.ConcatMap | cc.c:186-193 | what eachnode's calls of f produce, in list order; NodeLists.NodeList.EachNode is proved to return it and NodeLists.ConcatMapSnoc says how it grows |
| Printer.ConcatMapPrintNode | cc.c:322-324 | eachnode with printnode prints the statements one after the other |
| Printer.PrintProgram | cc.c:322-324 | printnode of the program node walks the linked list and prints the rendering of the program of its contents |
| RoundTrip.PrintedStmt | cc.c:325-339 | a parsed statement prints as `int`, a space, the name, then `;` and a newline |
| RoundTrip.PrintedAtConcat | cc.c:322-324 | the rendering of the statements stands statement by statement after any prefix |
| RoundTrip.PrintedAtStart | cc.c:307-308 | printed statements start with the `i` of `int`, or are absent at the end of the text |
| RoundTrip.PrintedStmtAt | cc.c:325-333 | the printed statement has `int`, a space, the name, `;` and a newline at known offsets |
| RoundTrip.ParseStepAt | cc.c:258-277 | one turn of the loop reads `int name;` and its newline as the declaration of the name, and stops right after the newline when the next statement or the end follows |
| RoundTrip.ParseStepOfPrinted | cc.c:258-277 | one turn of the loop reads a printed statement back as that statement |
| RoundTrip.PrintedAtCons | cc.c:322-324 | the first printed statement stands first, and the rest stand after it |
| RoundTrip.ParseStmtsOfSteps | cc.c:269-281 | statements read one per turn until the input is used up are what parse_prog returns |
| RoundTrip.StepsOfPrinted | cc.c:269-281 | the loop reads printed statements back one per turn and ends at the end of the text |
| RoundTrip.ParsePrinted | cc.c:269-343 | parsing the printed text of any tree parse_prog can build yields that tree |
| RoundTrip.ReparsePrinted | cc.c:269-343 | parsing the printed text of a parsed program yields that program again, so printing is a fixed point of parsing and printing |
| Examples.OneStatementProgram | cc.c:274-280 | a text read whole by one turn of the loop is the program of that statement |
| Examples.FirstStatementFails | cc.c:274-276 | a first statement that fails makes the program fail with its error |
| Examples.OneDeclaration | cc.c:269-281 | `int x;` is the program declaring x |
| Examples.OneDeclarationPrinted | cc.c:322-333 | that program prints as `int x;` and a newline |
| Examples.SpacedDeclaration | cc.c:148-164 | whitespace around every part of a statement is skipped |
| Examples.TwoDeclarations | cc.c:274-278 | statements keep their source order |
| Examples.KeywordAsName | cc.c:230-240 | `int` may be a name |
| Examples.UnknownTypeFloat | cc.c:221-225 | `float x;` fails with "unknown type float" |
| Examples.LeadingSpaceUnknownType | cc.c:274-276 | a space and a tab before `float x;` are skipped by the first trim, and the program then fails with "unknown type float" |
| Examples.UnknownTypeIntx | cc.c:130-141 | `intx y;` fails with "unknown type intx", because shiftname reads the whole run |
| Examples.MissingSemicolon | cc.c:171-172 | `int x` fails with "expected ';', got EOF" |
| Examples.StrayCharacter | cc.c:174-175 | `int x @;` fails with "expected ';'", naming `@` |
| Examples.MissingName | cc.c:125-126 | `int ;` fails with "expected identifier", naming `;` |

## Left out

- `main`, `usage` and the argument handling (cc.c:345-372) are not modelled. They are process plumbing.
- `parse` opens and closes a file and reports failure with `perror` (cc.c:283-301). `Parser.Parse` takes the file's contents as a character sequence instead.
- The messages `panic` prints are not modelled, nor the `exit(1)` that follows. Each failure is an `Error` value naming its kind. The `expectc` format string at cc.c:175 has two `%c` and one argument, which is undefined behaviour in C. It affects only the message.
- Allocation failure in `emalloc` is not modelled, nor memory ownership and leaks. The zero-initialised program node becomes the empty list of `NodeList.constructor`.
- `isalpha`, `isdigit` and `isspace` are fixed to their ASCII meaning in the C locale. Other locales, and bytes above 127, are not modelled.
- `ungetc` buffering is not modelled. `peek` calls `ungetc` itself (cc.c:98), and `unshift` (cc.c:109-114) is never called anywhere in cc.c. The model builds `Peek` from `Shift` followed by `Unshift`.
- `Cursor.Input.Unshift`: its precondition allows pushing back only the character just read. `ungetc` itself accepts any other character, which is not modelled.
- Numbers and expression statements are not modelled, because they exist only in the grammar comment (cc.c:21-23).
- `printnode`'s panics on a null node or an unknown kind, and `printtype`'s on an unknown type, are not modelled. The datatypes make them unreachable.
- The order in which `parse_stmt` allocates its node relative to `parse_decl`, and whether `append` runs before or after the second `trim`, are not modelled. They change nothing observable, because a failure ends the process.
- Where the stream stands after a failure is not stated. The process exits there.
- `Cursor.Input.ShiftName` keeps the NUL that `shiftname` writes after the name. The returned string is the characters before it.
- `Printer.PrintType`: the contract states only that the spelling is nonempty. That it is `int` is used through `RoundTrip.PrintedStmt`.
- `Grammar.ParseStmts`, `Grammar.ParseProgram`: these contracts state only well-formedness. What the statements are is stated by the lemmas beside them and the round trip.
