# A verified model of the bingsoo web server

bingsoo is a small C++ web server. This project models its four stateful parts in Dafny and
proves what they are for:

- **Configuration files** (`Config*.dfy`): the tokenizer over a stream with `unget`, the parser
  that fills a tree of heap nodes through a stack of references, and the pretty-printer. The heap
  code is proved against a stack machine on values; the machine is proved to accept exactly the
  sentences of a grammar of derivation trees, with the tree each sentence means; printing and
  parsing are proved inverse to each other.
- **HTTP requests** (`RequestParser.dfy`, `RequestGrammar.dfy`, `RequestTexts.dfy`, `Reply.dfy`): the
  incremental parser with its twenty states as a class, the exact language it accepts, in derivations and
  in character codes, how early it refuses, its independence of how the input is cut into pieces, and the
  round trip between the header printer of replies and the parser.
- **Markdown** (`Segments.dfy`, `Markdown*.dfy`): the replace loops that start their search over after
  every replacement are proved equal to one left-to-right pass over the segments between markers;
  then marker counts, the number and depth of tags, the text between the tags, block kinds, and the
  elements and text of the page are followed through all stages.
- **CRUD store** (`Filesystem.dfy`, `Identifiers.dfy`, `Crud*.dfy`, `Bodies.dfy`, `HeaderCut.dfy`): the request handler over
  any store of files and directories, with the branches in which the file system throws or writes
  nothing. Every run of requests refines a map from (entity, identifier) to data and a set of directories;
  what was written stays and is read back. `CrudLaws.dfy` says the same from the outside, by verb, target
  text and body, with the texts and statuses of the answers. The byte where the request parser stops is the
  byte where the handler cuts the body.

Each imperative method is proved against a specification function (`Lex`, `ParseText`, `Print`, `Feed`,
`TwoPasses`, `Page`, `Next`, ...); the lemmas say what those functions mean.

Characters are Dafny characters. Bytes above 127 are negative or large as C++ integers; both fail
the same tests as characters above 127 do here. Undefined behaviour of the original is made explicit: the
configuration parser answers `Undefined` where it would read past an empty container. Exceptions that
`substr` and the file system throw out of the CRUD handler are the ending `Threw`.

Findings where the code does something its documentation or tests do not say:

- A backslash inside quotes escapes nothing: the character is popped and appended again, so a quoted text ends
  at the next quote even behind a backslash (`LexLexable`, `BackslashEscapesNothing`).
- POST and PUT without an empty line in the body drop the first three bytes (the search result plus 4 wraps
  around), or throw for fewer than three (`PayloadThrowsExactly`, `PayloadGoesAstray`); `PayloadExactly` says
  when the bytes behind the first empty line are what is stored.
- The two tests for identifiers differ; `IdTestsAgree` says for every text whether they do, `IdTestsDiffer` gives
  texts. So an instance with an identifier beyond `int` can be stored but not read: GET throws
  (`LastWriteIsRead`, `BigIdentifierThrows`), and an entity whose name begins with a number is never listed
  (`ListAnswers`, `DigitsFirstIsNotListed`).
- PUT and POST answer with success although nothing was written exactly where the node right above the path is a
  file, or the path is a directory (`SuccessWithoutWrite`, `LostWrite`); one level deeper they throw
  (`ThrowingWrite`).
- The configuration parser has no defined behaviour on texts such as `a {{` (`FaultsExactly`, `TwoBracesFault`).
- `reset` leaves the request as it is, so a request parsed again is joined to what it held
  (`RequestGrammar.ResetLanguage`).
- The length header of a response does not always match the body; `ContentLengthMatches` says exactly when, for
  every request (`PutHasNoLength` is an input).

`dafny verify dfyconfig.toml` checks the whole project.

## Model

| member | source | states |
|---|---|---|
| ConfigLexer.ParseToken | src/config_parser.cc:77-187 | the character loop with its states and `unget` delivers the token, text and remaining input that `Lex` reads off declaratively, also at end of input and inside quotes |
| ConfigLexer.AfterQuote | src/config_parser.cc:121-134 | only a blank, a brace or `;` may follow a closing quote, and it is put back |
| ConfigLexer.LexNormalText | src/config_parser.cc:119-177 | every NORMAL token is a bare word or a quoted text with its quotes |
| ConfigLexer.LexLexable | src/config_parser.cc:119-177 | conversely every such text, followed by a blank or mark, is read back as exactly that token |
| ConfigLexer.BackslashEscapesNothing | src/config_parser.cc:135-138 | a backslash in front of the closing quote does not keep the text open |
| ConfigLexer.WordTexts | src/config_parser.cc:84-187 | in character codes: the texts that are one word in front of a `;`, bare or quoted |
| ConfigLexer.WordEnds | src/config_parser.cc:119-177 | in character codes: what ends a bare and a quoted word; a carriage return ends only the quoted one |
| ConfigLexer.CutOff | src/config_parser.cc:179-186 | a bare word that the input cuts off is dropped as end of file, an unended quoted text is an error |
| ConfigLexer.Comments | src/config_parser.cc:163-169 | a comment runs to a line feed, a carriage return or the end of the input |
| ConfigMachine.Step | src/config_parser.cc:213-274 | one token keeps the machine consistent: stack depth is 1 plus the first counter, the counters are opposite, every frame but the top ends in a statement waiting for its block, and after a word the top ends in an open statement |
| ConfigGrammar.AcceptsExactlyTheGrammar | src/config_parser.cc:189-278 | the stack machine accepts a token list with a tree if and only if the grammar derives that list with that tree |
| ConfigGrammar.SentencesAreAccepted | src/config_parser.cc:213-269 | completeness: each derivation's sentence is accepted with the tree it means |
| ConfigGrammar.UnfinishedStatementKept | src/config_parser.cc:248-255 | words without `;` in front of `}` become a statement of the block |
| ConfigGrammar.Explain | src/config_parser.cc:213-274 | soundness: every run that has not failed arises from partial derivations, one for each stack entry |
| ConfigGrammar.GrammarIsUnambiguous | src/config_parser.cc:189-278 | two derivations of one token list mean the same tree |
| ConfigGrammar.CountersHoldDepth | src/config_parser.cc:194-195 | in every run both counters hold the number of open minus closed braces, with opposite signs, and the last token type is that of the last token |
| ConfigGrammar.FaultsExactly | src/config_parser.cc:237-255 | a text meets undefined behaviour if and only if one of its tokens is `{` right after `{`, or a word or `}` after more blocks were closed than opened, and no earlier token is refused |
| ConfigGrammar.RunFails | src/config_parser.cc:213-274 | a run goes on exactly while no token is such a place or is refused |
| ConfigGrammar.TwoBracesFault | src/config_parser.cc:240-246 | a concrete text with undefined behaviour |
| ConfigPrinter.PrintParseRoundTrip | src/config_parser.cc:30-61 | for every indentation, parsing the printed tree gives the tree back if and only if it is not empty, every statement has words and every word is a text of the tokenizer |
| ConfigPrinter.AcceptedIsProper | src/config_parser.cc:189-278 | every tree the parser accepts is of that kind |
| ConfigPrinter.ParsePrintParse | src/config_parser.cc:30-61 | parsing, printing and parsing again gives what the first parse gave |
| ConfigPrinter.ReadsPrint | src/config_parser.cc:38-61 | the printed text of a tree reads as the tokens of its derivation, whatever text follows it |
| ConfigPrinter.Layout | src/config_parser.cc:38-61 | the printed form of a statement: two blanks for each level, single blanks between words, `;` or the block in braces one level deeper, and a newline |
| ConfigHeap.Parse | src/config_parser.cc:189-278 | on the heap: the verdict is that of `ParseText`; on success the statements added to the caller's node hold exactly the parsed tree in newly allocated nodes; statements that were there before stay in front. Its loop keeps `Shape`, the heap invariant that each stack entry is the child of the last statement below it |
| ConfigHeap.AddWord | src/config_parser.cc:222-227 | a word token, written in place, keeps the heap invariant for the machine's next state |
| ConfigHeap.OpenBlock | src/config_parser.cc:244-247 | an opening brace gives the open statement a new child block and pushes it |
| ConfigHeap.CloseBlock | src/config_parser.cc:248-255 | popping the stack turns the finished block into the child of the statement that opened it, without any write |
| ConfigHeap.NginxConfig.ToString | src/config_parser.cc:30-36 | on any heap tree that holds a value, the printing loop returns the printed text of that value |
| ConfigHeap.NginxConfigStatement.ToString | src/config_parser.cc:38-61 | the same for one statement, with its indentation and token loops and the recursive call |
| Streams.InputStream.Get | src/config_parser.cc:81-84 | one character is consumed; at the end of the data both state bits are set and nothing is consumed |
| Streams.InputStream.GetLine | src/real_filesystem.cc:16-18 | `std::getline`: a last line without newline is delivered with the stream at end of file, an empty rest fails |
| RequestParser.Parser.Consume | src/request_parser.cc:24-280 | the state-changing step leaves parser state, request and result as the step of the machine does |
| RequestParser.Parser.Parse | include/request_parser.h:36-47 | the loop returns result, request, state and position of feeding the whole range |
| RequestParser.ChunkIndependence | include/request_parser.h:36-47 | feeding any list of pieces, stopping at the first good or bad, equals feeding their concatenation: same result, state, request and count |
| RequestParser.GoodIffPrefixAccepted | include/request_parser.h:36-47 | good after `n` bytes means exactly that the first `n` bytes are accepted |
| RequestParser.AcceptedTextsArePrefixFree | include/request_parser.h:36-47 | no accepted request continues another accepted one |
| RequestGrammar.ExactLanguage | src/request_parser.cc:24-280 | whatever the version fields held, a new parser says good after `n` bytes with request `r` if and only if the first `n` bytes have a derivation in the grammar that stands for `r`, folded headers included |
| RequestGrammar.TextsAreAccepted | src/request_parser.cc:24-280 | completeness: every text of the grammar is accepted with method, URI, version values and headers of its derivation |
| RequestGrammar.ResetLanguage | src/request_parser.cc:19-22 | after `reset`, which leaves the request as it is, the parser says good after `n` bytes if and only if they have a derivation, possibly with folded lines in front of its headers if the request holds some; method, URI and headers are added to those it held and the versions read anew |
| RequestGrammar.ParseAfterReset | tests/request_parser_test.cc:232-245 | the two calls in a row on the objects: good exactly for a text of that language, with the joined request |
| RequestGrammar.ReadText | src/request_parser.cc:24-280 | soundness: every accepted text has a derivation |
| RequestGrammar.RunSection | src/request_parser.cc:183-276 | a header section entered in the middle adds exactly its headers, with folded text glued to the last value |
| RequestGrammar.ReadSection | src/request_parser.cc:183-276 | every accepted header section is of that form, and folds occur only after a header |
| RequestGrammar.NoOverflowExactly | src/request_parser.cc:121-166 | the digit loop stays within a 32-bit `int` if and only if the number is at least 48 below the largest one |
| RequestGrammar.NineDigitsFit | src/request_parser.cc:121-166 | up to nine digits never overflow and stay below the power of ten of their number |
| RequestTexts.MethodCharacters | src/request_parser.cc:28-52 | in character codes: a request is taken exactly if its method is a non-empty text of the characters of a token |
| RequestTexts.UriCharacters | src/request_parser.cc:54-68 | in character codes: exactly if its URI holds no space and no control character |
| RequestTexts.HeaderNameCharacters | src/request_parser.cc:183-239 | in character codes: exactly if the name of a header is a non-empty text of the characters of a token |
| RequestTexts.HeaderValueCharacters | src/request_parser.cc:240-264 | in character codes: exactly if a value holds no control character |
| RequestTexts.FoldCharacters | src/request_parser.cc:183-224 | a line behind a header continues it exactly if it begins with a space or a tab, and joins it without a separator |
| RequestTexts.VerdictsChangeNothing | src/request_parser.cc:24-280 | the byte that brings good or bad is consumed and changes neither state nor request |
| RequestTexts.RefusesEarly | src/request_parser.cc:24-280 | the parser goes on exactly while the input is the beginning of some request: a text is refused at the first byte that rules out all of them |
| Decimal.NumeralValue | src/request_parser.cc:124-166 | reading back a printed number is the identity |
| Replies.Reply.ToBuffers | src/reply.cc:45-60 | the buffers joined are status line, header section and content, four buffers for each header |
| Replies.StatusLineForm | src/reply.cc:14-36 | the status line is the one RFC 1945 gives for the number of the status |
| Replies.HeaderRoundTrip | src/reply.cc:45-60 | a parser at a header line start reads the printed section back as the same list and stops at the first content byte, if and only if all names are non-empty tokens and no value has a control character |
| Segments.SplitFind | src/markdown_request_handler.cc:86-88 | the one-pass segmentation cuts where `find` finds the first match and goes on behind it |
| Markdown.ReplacePair | src/markdown_request_handler.cc:83-96 | searching again from the line's beginning after the opening tag finds the next match of the original line; without one nothing is kept |
| Markdown.PassPair | src/markdown_request_handler.cc:85-92 | replacing one pair by hand does not change what a single pass makes of the line, and removes two matches |
| Markdown.ReplaceMarkers | src/markdown_request_handler.cc:82-139 | the restarting loop of the bold and the italics stage equals one greedy pass for the first marker, followed by one for the second exactly if the matches of the first pair up |
| Markdown.PassLeavesNone | src/markdown_request_handler.cc:82-96 | a pass leaves no match of its marker exactly if the number of matches in the line is even |
| Markdown.SegmentsHaveNone | src/markdown_request_handler.cc:86-88 | no text between two matches holds another match |
| Markdown.OddMatchStays | src/markdown_request_handler.cc:89-95 | with an odd number of matches everything before the last one is paired, and that match and the text behind it stay |
| Markdown.RenderInlineCode | src/markdown_request_handler.cc:142-155 | the code loop equals one pass over backticks, or nothing on lines with a triple backtick |
| MarkdownLaws.MarkerConservation | src/markdown_request_handler.cc:82-155 | through all stages the `*` count becomes its parity, the parity of `_` is kept with at most one left when `*` was even, and backticks become their parity unless three stand together |
| MarkdownCounts.StagesScan | src/markdown_request_handler.cc:82-155 | each stage equals a scan with a toggle that writes opening and closing tags in turn and leaves a last match without partner |
| MarkdownCounts.StarsAreBold | src/markdown_request_handler.cc:85-96 | one pair of `**` around a text makes it strong and changes nothing else |
| MarkdownCounts.UnderscoresAreBold | src/markdown_request_handler.cc:97-108 | so does one pair of `__` |
| MarkdownCounts.StarIsItalic | src/markdown_request_handler.cc:112-126 | one pair of `*` makes a text emphasised, an empty one too |
| MarkdownCounts.UnderscoreIsItalic | src/markdown_request_handler.cc:127-138 | so does one pair of `_` |
| MarkdownCounts.BackticksAreCode | src/markdown_request_handler.cc:142-155 | one pair of backticks makes a text code |
| MarkdownCounts.TagCounts | src/markdown_request_handler.cc:82-155 | on lines without `<`, the number of tags of each kind in terms of the markers of the line: pairs of `**`, and of `__` if those pair up; half of the single markers that are left, by the same rule; half of the backticks unless three stand together |
| MarkdownCounts.InlineBehind | src/markdown_request_handler.cc:82-155 | text without markers in front of a line stays in front of it |
| MarkdownTags.TagDepths | src/markdown_request_handler.cc:82-155 | on lines without `<` every prefix of the output has opened each tag at least as often as closed, at most twice more for strong and em and once for code, and all are closed at the end |
| MarkdownTags.TextConservation | src/markdown_request_handler.cc:82-155 | on such lines the output without tags and markers is the input without markers |
| MarkdownTags.WeaveProfile | src/markdown_request_handler.cc:86-107 | one pass adds at most one level for its own kind of tag and none for the others |
| MarkdownDocument.KindKept | src/markdown_request_handler.cc:157-187 | the inline stages never change whether a line is a heading, and of what size, a fence or a paragraph |
| MarkdownDocument.CodeBlockParity | src/markdown_request_handler.cc:172-182 | after any number of lines, opened minus closed code blocks is the parity of the fence lines so far |
| MarkdownDocument.ReadLines | src/markdown_request_handler.cc:55-62 | the lines read are the lines of the file |
| MarkdownDocument.RenderLines | src/markdown_request_handler.cc:79-188 | the HTML file holds one written fragment for each line |
| MarkdownDocument.Render | src/markdown_request_handler.cc:55-208 | the body is the plain concatenation of the fragments, despite the detour through a file read back line by line |
| MarkdownDocument.WrittenIsPage | src/markdown_request_handler.cc:204-207 | reading back drops exactly the newlines that ended the fragments |
| MarkdownPages.ParagraphPage | src/markdown_request_handler.cc:184-187 | a line of text becomes a paragraph element around its rendered text |
| MarkdownPages.HeadingPage | src/markdown_request_handler.cc:157-170 | `# `, `## ` and `### ` make heading elements of that size around the rendered rest of the line |
| MarkdownPages.CodeBlockPage | src/markdown_request_handler.cc:172-182 | two fences make a block of code around the lines between them and lose their own texts |
| MarkdownPages.PageOfFile | src/markdown_request_handler.cc:55-208 | the page of any file is the sequence of the elements of its lines |
| MarkdownPages.ElementsConcat | src/markdown_request_handler.cc:79-188 | lines behind others are inside a code block exactly if the fences before them are odd in number |
| MarkdownPages.PageText | src/markdown_request_handler.cc:55-208 | for a file without `<`, the page without tags and markers is the text of its lines without markers, heading marks and fence lines |
| Filesystem.RealFilesystem.ReadFile | src/real_filesystem.cc:11-26 | reading a file line by line gives back exactly its contents, with or without a final newline; a directory reads as empty |
| Filesystem.RealFilesystem.WriteFile | src/real_filesystem.cc:28-40 | writing replaces one file and creates just the missing directories above it; it throws exactly where such a directory is missing and a file is in the way, and does nothing where the path is a directory or lies in a file |
| Filesystem.RealFilesystem.DeleteFile | src/real_filesystem.cc:42-45 | deleting removes one file or empty directory and tells whether it was there; it throws exactly at a directory with something in it |
| Filesystem.RealFilesystem.ListFiles | src/real_filesystem.cc:49-62 | listing names every child of a directory once, and throws where there is no directory |
| Identifiers.LastComponent | src/crud_request_handler.cc:45 | the text behind the last slash is the last component of the path |
| Identifiers.StoiExactly | src/crud_request_handler.cc:103-108 | `stoi` returns a number exactly where blanks, an optional sign and digits of a number of `int` range begin the text |
| Identifiers.IdTestsAgree | src/crud_request_handler.cc:46-52 | for every text, GET's `stoi` test and the digit test agree if and only if: on digits, there are some and their number fits an `int`; elsewhere, no number of that range begins the text |
| Identifiers.IdTestsDiffer | src/crud_request_handler.cc:104-108 | concrete texts on which the two tests differ |
| Identifiers.StoiFirstCharacter | src/crud_request_handler.cc:103-108 | in character codes: what may stand in front of a digit in a text that `stoi` takes |
| Identifiers.NumeralIsId | src/crud_request_handler.cc:88 | every identifier POST prints is read back as that number by both tests |
| Crud.SuffixPath | src/crud_request_handler.cc:20-45 | the built path is the data path followed by the components behind the second slash, and ends in the last component of the target |
| Crud.CrudHandler.SkipHeaders | src/crud_request_handler.cc:83-84 | the data stored are what follows the first empty line of the C string, with the wrap-around when there is none |
| Crud.CrudHandler.HandlePost | src/crud_request_handler.cc:54-93 | in any store, the search loop ends and writes the data under the least free identifier, in both branches, or throws as writing does |
| Crud.CrudHandler.HandleGet | src/crud_request_handler.cc:96-173 | in any store, answers with the file, the list of names, or 404, or throws when it tries to list a file |
| Crud.CrudHandler.HandleDelete | src/crud_request_handler.cc:175-211 | removes the file or empty directory, answers 404 and leaves the store alone, or throws |
| Crud.CrudHandler.HandlePut | src/crud_request_handler.cc:220-239 | writes the file, 200 or 201 by whether the path was there, also where nothing could be written; the response is already filled where writing throws |
| Crud.CrudHandler.HandleRequest | src/crud_request_handler.cc:14-254 | in any store, a request moves the files as the operation it stands for says and is answered accordingly; a request without an operation leaves the store alone; the tree stays closed |
| Crud.StringVectorToJson | src/crud_request_handler.cc:256-266 | the appending loop builds the bracketed list |
| Crud.CommasReadBack | src/crud_request_handler.cc:256-266 | names without commas can be read back from that list |
| CrudStore.LeastFreeFrom | src/crud_request_handler.cc:77-79 | the search terminates because the store is finite, at the least number not taken |
| CrudStore.LeastFreeBound | src/crud_request_handler.cc:71-80 | the identifier is at most one more than the number of names present |
| CrudStore.MissingEntity | src/crud_request_handler.cc:72-74 | when nothing is at the entity's path, 1 is the least free identifier, because parents of existing paths exist |
| CrudStore.NextKeepsTree | src/real_filesystem.cc:28-45 | every operation keeps the store a closed tree |
| CrudStore.NextKeepsShape | src/real_filesystem.cc:28-45 | below named entities, every operation keeps the files exactly the identifiers, and every write succeeds |
| CrudRefinement.StepRefines | src/crud_request_handler.cc:54-251 | one request on files and directories is one step of the map: a write happens exactly where the map says it is free, with the directories above it, and DELETE drops an instance or an empty directory |
| CrudRefinement.RunRefines | src/crud_request_handler.cc:54-251 | every run of requests, from every closed store without a file at or above the data path, is a run of the map |
| CrudRefinement.FreeExactly | src/real_filesystem.cc:28-40 | a path can be written if and only if the map has no directory there and no instance at any prefix of its entity |
| CrudRefinement.ThrowsExactly | src/real_filesystem.cc:29-33 | writing throws if and only if the map has an instance at a prefix of the entity's own parent |
| CrudRefinement.EmptyExactly | src/real_filesystem.cc:42-45 | a directory is empty if and only if the map has no instance and no directory in it |
| CrudRefinement.UntouchedKeysStay | src/crud_request_handler.cc:54-251 | over any run of requests on any store, an instance changes only by PUT or DELETE of its own identifier |
| CrudRefinement.AbsentKeysStay | src/crud_request_handler.cc:54-251 | over any run of requests on any store, nothing appears at an absent path but by a PUT at or below it or a POST to its entity or below it |
| CrudAnswers.GetReadsExactly | src/crud_request_handler.cc:102-108 | a GET reads an instance if and only if its identifier fits an `int`, and asks for a list otherwise |
| CrudAnswers.WriteStoresExactly | src/real_filesystem.cc:28-40 | a PUT or POST leaves its data under its key if and only if no file stands above the path and no directory at it, or the data were there before |
| CrudAnswers.SuccessWithoutWrite | src/crud_request_handler.cc:227-239 | success is answered without a write if and only if the node right above the path is a file or the path a directory |
| CrudAnswers.LostWrite | src/crud_request_handler.cc:227-239 | a concrete PUT that answers 201 and leaves the store as it was |
| CrudAnswers.ThrowingWrite | src/crud_request_handler.cc:227-239 | a concrete PUT that throws with its response already filled |
| CrudAnswers.NamedWritesSucceed | src/crud_request_handler.cc:227-239 | below named entities, in a store whose files are exactly the identifiers, every write is free, and the store stays of that kind |
| CrudAnswers.LastWriteIsRead | src/crud_request_handler.cc:135-150 | after a POST or PUT that could write, and any run of requests that neither puts nor deletes that instance, a GET answers with the data written if the identifier fits an `int`, and throws otherwise |
| CrudAnswers.BigIdentifierThrows | src/crud_request_handler.cc:108-113 | a concrete target beyond `int`: PUT stores, GET throws |
| CrudAnswers.DeletedIsNotFound | src/crud_request_handler.cc:177-191 | after a DELETE, GET answers 404 until a request creates the instance again, with the text for a file or for a directory by whether the identifier fits an `int` |
| CrudRefinement.PostTakesFresh | src/crud_request_handler.cc:77-80 | in any store POST changes no file or directory that is there |
| CrudAnswers.PostAnswers | src/crud_request_handler.cc:70-92 | POST answers with the least number whose name neither an instance nor a directory has, and writes exactly that instance where it is free, with the bytes behind the first empty line of its body, or throws |
| CrudAnswers.PutAnswers | src/crud_request_handler.cc:229-239 | 200 where an instance or directory has the name and 201 elsewhere; it throws exactly where the map says so |
| CrudAnswers.ListAnswers | src/crud_request_handler.cc:102-135 | GET asks for a list if and only if no number of `int` range begins the last component; it then answers, in brackets and separated by commas, exactly the instances and sub-entities, each once, or 404, or throws at a file, and otherwise reads the path |
| CrudAnswers.DigitsFirstIsNotListed | src/crud_request_handler.cc:103-108 | a concrete entity that is read as an instance instead of listed |
| CrudAnswers.ContentLengthMatches | src/crud_request_handler.cc:16-253 | for every request, refusals and other verbs included, exactly when the length header of a new response equals the size of its body |
| CrudAnswers.PutHasNoLength | src/crud_request_handler.cc:229-239 | a concrete PUT whose response has no length header, whatever the body and the store |
| CrudLaws.Posted | src/crud_request_handler.cc:54-93 | from the outside: a POST to a target stores the bytes behind the first empty line of its body under the least free number and answers that number with 201 |
| CrudLaws.PostedIsRead | src/crud_request_handler.cc:54-150 | and a GET of that number, after any requests that leave it alone, answers those bytes with 200, or throws beyond `int` |
| CrudLaws.PutIn | src/crud_request_handler.cc:220-239 | from the outside: what PUT stores, and its answer in full |
| CrudLaws.PutIsRead | src/crud_request_handler.cc:135-239 | a GET of what was put answers its bytes, or throws beyond `int` |
| CrudLaws.Deleted | src/crud_request_handler.cc:175-208 | from the outside: what DELETE drops, and its answer in full in each of the three cases |
| CrudLaws.Listed | src/crud_request_handler.cc:109-123 | from the outside: the answer in full to a GET of an entity |
| CrudLaws.Read | src/crud_request_handler.cc:138-171 | from the outside: the answer in full to a GET of anything a number begins |
| CrudLaws.NotListed | src/crud_request_handler.cc:108-133 | from the outside: a GET of anything else that is no directory |
| CrudLaws.TargetRefused | src/crud_request_handler.cc:18-40 | targets with fewer than two slashes are refused, with these texts, and change nothing |
| CrudLaws.VerbRefused | src/crud_request_handler.cc:54-253 | an identifier where none may be, none where one must be, and other verbs: the answers in full, and nothing changes |
| CrudLaws.ShortBodyThrows | src/crud_request_handler.cc:83-84 | a body of fewer than three bytes makes POST and PUT throw before anything is written or answered |
| HeaderCut.AcceptedShape | src/request_parser.cc:158-276 | in an accepted request the only empty line is at the end and there is no NUL byte |
| HeaderCut.PayloadStartsWhereParserStops | src/crud_request_handler.cc:83-84 | for everything received, if the parser accepts a request ending after `n` bytes, the first empty line ends at `n` and the handler stores what follows, up to the first NUL |
| Bodies.PayloadExactly | src/crud_request_handler.cc:83-84 | for every body with an empty line, the bytes behind the first one are stored if and only if there is no NUL before or behind it, or chance makes the wrongly cut C string equal to them |
| Bodies.PayloadThrowsExactly | src/crud_request_handler.cc:83-84 | the handler throws if and only if fewer than three bytes stand before the first NUL |
| Bodies.PayloadGoesAstray | src/crud_request_handler.cc:83-84 | concrete bodies that lose three bytes, throw, or have an empty line that goes unseen |

## Left out

- Consume: does not model 32-bit overflow of the version fields, which is undefined in C++; `NoOverflowExactly` says exactly which versions are free of it.
- HandleRequest: covers requests whose path components are neither empty nor `.` nor `..`; how the platform resolves those (and a final slash, doubled slashes and links) is not modelled.
- ReadFile: open failures for lack of rights, the branches that answer them, and concurrent access are not modelled; that a directory opens for reading and delivers nothing is the behaviour on Linux.
- ListFiles: the order of directory entries is left open, as the library leaves it.
- Parse: opening the configuration file by name and logging are not modelled.
- ReplaceMarkers: one method stands for the bold and the italics loop, which differ only in markers and tags.
- Render: the path computation and the status branches of the markdown handler around the rendering are not modelled.
- The path getters and `get_port_num` of the configuration: flat lookups without a hard property.
- Stock replies: constant texts with two fixed headers.
- Echo, health, sleep, static, 404 and bad-request handlers, the factories and the route table: flat branches.
- Sockets, the accept loop, threads and signals; the session's dispatch, which also runs on an indeterminate parse, so chunk independence is claimed for the parser only.
- The mock file system of the tests: the store here is shaped by the real one.
- Nesting of different kinds of tags and HTML escaping: the markdown handler provides neither.
