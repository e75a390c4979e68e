# json-parser-c in Dafny

A model of the core of json-parser-c, a small JSON reader written in C. It
covers the tokenizer (`lexer_next_token`, `assert_token`), the value tree and
its parser (`json_value_create`, `parse_object`, `parse_array`), the printer
(`print_json`), the append-only linked list that holds a node's children
(`linked_list_create`, `linked_list_append`), and the lines of `main` that
drive them.

The C code keeps its state in heap objects and aborts the process on an
error. The model keeps it in values:

- The input buffer is a `string` followed by one implicit NUL byte. Each
  `char` of the string stands for one byte of the C buffer, so a text
  outside ASCII is given byte by byte, as chars below 256. The lexer
  cursor is an index `pos <= |text|`.
- One call of `lexer_next_token` is the pure function
  `Lexer.NextToken(text, pos)`, which returns the token and the new cursor.
  `Lexer.LexerNextToken` is the same routine written statement by statement
  with its three loops, and it is proved to compute the same pair.
- A `JsonValue` mirrors the C struct. A `NULL` pointer is `None`, and a
  children list is the sequence of children it holds.
- `LinkedList` models the list itself over an arena of nodes, with indices
  as pointers. `Append` is proved to append to the abstract contents, so
  the parser can work on that sequence.
- `exit(EXIT_FAILURE)` in `assert_token` and in `parse_array` becomes the
  outcome `Exit(partial, got)`. It carries the children as they stood when
  the process would have stopped, and the token that stopped it.
- The driver in `main` is `Parser.Parse`. It creates an Object root,
  discards the first token whatever it is, and parses members into the
  root.
- `print_json` is `Printer.Render`, which returns the text instead of
  writing it.

The central result is the round trip. Take any tree the parser can build
that contains no empty object. Print it with `print_json`, then feed the
output back to the driver. The result is the same tree
(`RoundTrip.RenderThenParse`). So re-parsing a parsed document is the
identity (`RoundTrip.ReparseIsIdentity`). The restriction is necessary: an
empty object prints as `{}`, and the parser rejects `{}`
(`RoundTrip.EmptyObjectDoesNotRoundTrip`).

The `Grammar` module states, token by token, how lax the accepted language
is:

- a member not preceded by a comma ends the object early;
- commas inside an array are optional and may repeat;
- a token after the colon that starts no value is silently dropped;
- `null`, `true` and `false` match as prefixes (`nullable`).

Two behaviours one might expect of a JSON lexer are not what the code
does; the model follows the code:

- A byte that starts no token does not make the lexer scan on. The call
  skips that one byte and returns an EOF token.
- An unterminated string is not reported as a distinct error. The call
  returns an EOF token, with the cursor on the terminating NUL.

## Model

| member | source | states |
|---|---|---|
| Values.Create | src/parser.c:9-37 | the key is kept; a text is kept only for strings and numbers (the text given for true, false and null is dropped); exactly objects and arrays get a children list, and it starts empty; the node can be walked |
| Values.CanonicalTraversable | src/parser.c:170-207 | every tree the parser builds has a children list on each container, so `print_json`'s walk never meets a NULL list |
| Lexer.NextToken | src/lexer.c:16-117 | the cursor stays in the buffer; a token has a NULL start exactly when it is EOF, and EOF is always the initial token {EOF, NULL, 0}; a token's span lies between the old and the new cursor; every non-EOF token moves the cursor forward, and so does every call that does not stop on the NUL |
| Lexer.SkipWhitespace | src/lexer.c:19-24 | the skip stops on the first byte that is not space, tab, CR or LF |
| Lexer.SkippedAreBlank | src/lexer.c:19-24 | only those four blank bytes are skipped |
| Lexer.SkipBlank | src/lexer.c:19-24 | a blank byte in front of the cursor does not change the token or the cursor a call returns |
| Lexer.EndOfInput | src/lexer.c:26-30 | on the NUL (after blanks) the call returns {EOF, NULL, 0} and the cursor rests on the NUL |
| Lexer.EndIsSticky | src/lexer.c:17-30 | once the NUL is reached every further call returns the same EOF token and leaves the cursor where it is |
| Lexer.StructuralToken | src/lexer.c:32-60 | each of `{ } [ ] : ,` gives a one-byte token of its own kind starting at that byte, and the cursor moves one byte past it |
| Lexer.StringToken | src/lexer.c:62-74 | a quote opens a string that ends at the next quote, with no escape handling; the token spans the bytes in between, which hold no quote and no NUL, and the cursor moves past the closing quote; with no closing quote before the NUL the call returns EOF with the cursor on the NUL |
| Lexer.ScannedQuoteFree | src/lexer.c:64-67 | the string scan passes neither a quote nor a NUL |
| Lexer.NumberToken | src/lexer.c:76-91 | a digit or minus sign opens a number token that spans the maximal run of bytes from `0-9 . e E + -`, with no further validation; the cursor stops on the first byte outside that set |
| Lexer.ScannedNumberChars | src/lexer.c:79-87 | the number scan passes only number bytes |
| Lexer.LiteralToken | src/lexer.c:93-109 | `null`, `true` and `false` match as case-sensitive prefixes, checked in that order, giving a 4-, 4- or 5-byte token and moving the cursor by that much |
| Lexer.InvalidByte | src/lexer.c:111-116 | any other byte is skipped and the call returns an EOF token with a NULL start, with the cursor one byte further on |
| Lexer.ClosingBracket | src/lexer.c:47-50 | a `]` token is the byte just before the cursor the call leaves |
| Lexer.NeverPassesNul | src/lexer.c:16-117 | no call moves the cursor over a NUL byte, so the lexer never reads past the terminator |
| Lexer.TokenTexts | src/lexer.c:62-91 | the text of a string token holds no quote and no NUL; the text of a number token starts with a digit or minus and holds only number bytes |
| Lexer.AssertToken | src/lexer.c:119-125 | the run continues exactly when the token has the expected kind; otherwise it stops, reporting that token |
| Lexer.SkipLoop | src/lexer.c:19-24 | the blank-skipping loop stops where `SkipWhitespace` does |
| Lexer.StringLoop | src/lexer.c:63-67 | the closing-quote loop stops at the first quote or NUL |
| Lexer.NumberLoop | src/lexer.c:78-87 | the number loop stops at the end of the maximal run of number bytes |
| Lexer.LexerNextToken | src/lexer.c:16-117 | the C routine, statement by statement, returns the same token and cursor as `NextToken` |
| LinkedList.Create | src/linked_list.c:5-11 | a new list is valid, has NULL head and tail, size 0, and empty contents |
| LinkedList.Append | src/linked_list.c:23-35 | appending keeps the list valid; the contents grow by exactly the new datum at the end; size grows by one; the new node is the tail and ends the chain; head moves only when the list was empty, and then it equals the tail |
| LinkedList.ValidEndsAgree | src/linked_list.c:23-35 | in a valid list, head is NULL exactly when tail is NULL, exactly when size is 0, the case split `linked_list_append` relies on |
| LinkedList.AppendPreservesChain | src/linked_list.c:28-34 | linking the new node after the tail (or making it the head of an empty list) extends the walk from head by exactly that node and keeps every earlier datum |
| LinkedList.ChainExtend | src/linked_list.c:28-33 | linking a fresh node after the last node of a chain extends the chain by that node |
| Parser.ParseValue | src/parser.c:75-109 | a value token appends exactly one child, carrying the member's key and the field shape `json_value_create` gives its type; every earlier child is unchanged and the cursor moves forward; if a nested parse stops, the container is already in the parent |
| Parser.ParseObject | src/parser.c:66-115 | members are only appended, never changed or dropped, and each appended member has a quote-free key and the field shape `json_value_create` gives its type; a successful parse moves the cursor forward |
| Parser.AfterMember | src/parser.c:111-114 | after a member one token is read; the children are only extended and every new one is a well-formed keyed member |
| Parser.ParseArray | src/parser.c:117-168 | elements are only appended, each without a key and with the field shape `json_value_create` gives its type; a successful parse moves the cursor forward and stays in the buffer; a stopped parse keeps every earlier element |
| Parser.Parse | src/main.c:53-56 | a successful run yields an Object root with no key whose whole tree is well formed; a stopped run yields the Object root as it stood |
| Grammar.ObjectNeedsKey | src/parser.c:67-68 | a member must open with a string token; any other token stops the run with the parent unchanged, which is why `{}` is rejected |
| Grammar.ObjectNeedsColon | src/parser.c:72-73 | the key must be followed by a colon; any other token stops the run with the parent unchanged |
| Grammar.LeafValue | src/parser.c:76-97 | a string, number, true, false or null token becomes one leaf child of the matching type with the member's key; strings and numbers keep exactly the bytes of the token, the literals keep no text, and the cursor moves past the token |
| Grammar.NestedObject | src/parser.c:98-103 | `{` appends an object child with the member's key before its members are parsed, and that child ends up holding exactly what `parse_object` read into it, whether the nested parse finishes or stops |
| Grammar.NestedArray | src/parser.c:104-108 | `[` appends an array child with the member's key before its elements are parsed, and that child ends up holding exactly what `parse_array` read into it, whether the nested parse finishes or stops |
| Grammar.ObjectSkipsNonValue | src/parser.c:75-111 | a token after the colon that starts no value is consumed, nothing is appended, and the object goes on as after a member |
| Grammar.MemberThenToken | src/parser.c:111-114 | after a member a comma starts another member of the same parent, and every other token, not only `}`, ends the object successfully |
| Grammar.ArrayBracketAndComma | src/parser.c:120-124 | a `]` ends the array and a comma is skipped wherever it stands |
| Grammar.ArrayEndsAtBracket | src/parser.c:120-124 | a successful `parse_array` has just consumed its closing `]`: the byte before the cursor it leaves is `]` |
| Grammar.ElementEndsAtBracket | src/parser.c:125-162 | the same when the array goes on after an element: the elements that follow are read and the array still ends just after a `]` |
| Grammar.ArrayRejects | src/parser.c:163-166 | inside an array `}`, `:` and an EOF token (the end of the input, an unrecognised byte, or an unterminated string) stop the run with the parent unchanged |
| GrammarExamples.NullablePrefix | src/lexer.c:93-97 | `nullable` lexes as a NULL token of length 4 with the cursor left on `able` |
| GrammarExamples.MissingComma | src/parser.c:111-114 | `{"a": 1 "b": 2}` parses successfully to an object holding only `a` |
| GrammarExamples.ArrayWithoutCommas | src/parser.c:120-162 | `{"a": [1 2]}` parses to an array holding both numbers |
| Printer.RenderLeaf | src/parser.c:208-222 | a string prints between quotes with no escaping, and as `""` with no text; a number prints its text verbatim, or `0` with no text; true, false and null print as their words whatever text the node holds |
| Printer.RenderContainer | src/parser.c:175-206 | an object prints its member list between `{` and `}`, an array its element list between `[` and `]`, so a container's text is at least two bytes even when it has no children |
| Printer.RenderListAppend | src/parser.c:177-189 | the `first` flag puts `, ` between every two neighbouring children and nowhere else: printing two runs of children in turn is printing each run joined by one `, ` |
| RoundTrip.ValueRoundTrip | src/parser.c:170-224 | any well-formed value with no empty object, printed by `print_json` at some position and not followed by a byte that can continue a number, is read back by the value production as that same value, ending right after its text |
| RoundTrip.MembersRoundTrip | src/parser.c:175-191 | a printed non-empty list of well-formed members with no empty object (`"key": value` separated by `, ` and closed by `}`) is read back by `parse_object` member by member, ending after the `}` |
| RoundTrip.ElementsRoundTrip | src/parser.c:193-206 | a printed non-empty list of well-formed elements with no empty object (values separated by `, ` and closed by `]`) is read back by `parse_array` element by element, ending after the `]` |
| RoundTrip.RenderThenParse | src/parser.c:170-224 | printing any well-formed Object root with no empty object and feeding the text to the driver yields exactly that root |
| RoundTrip.ReparseIsIdentity | src/main.c:53-57 | printing a parsed document with no empty object and parsing the output gives the same document again |
| RoundTrip.EmptyObjectDoesNotRoundTrip | src/parser.c:175-191 | an empty Object root prints as `{}`, and the driver stops on that text at the `}` where a key is required |

## Left out

- Reading the input file (src/main.c:5-46 and the call at src/main.c:49) is left out. The model starts from the buffer's contents. A failed read, which would hand the lexer a NULL buffer, is not modelled.
- `lexer_create` and `lexer_destroy` are left out. The lexer state is the pair (text, cursor).
- Memory management is left out: `malloc`, `strdup`, `strndup`, `free`, `json_value_destroy` and `linked_list_destroy`. Allocation is assumed to succeed, and no memory is reclaimed. This includes the first children list that `json_value_create` allocates and then overwrites (src/parser.c:14), which leaks. It also includes the second list that the parser allocates for every nested container (src/parser.c:100, 106, 150, 156). Both lists start empty, so the tree is the same.
- The `printf` output is left out: the diagnostics of `assert_token`, the message before `exit` in `parse_array`, and the "Parsing array..." line that `parse_array` prints on entry (src/parser.c:118). An exit is the outcome `Exit`, carrying the offending token.
- `print_json`'s output goes to standard output in C. Here it is returned as a string, and the NULL-root guard (src/parser.c:171-172) has no counterpart, because a tree value is never NULL.
- `printf("%s", …)` stops at a NUL byte. The model prints the whole text of a key or value. No tree the parser builds holds a NUL in a key or a text, because the lexer never passes the terminator (`Lexer.NeverPassesNul`, `Lexer.TokenTexts`).
- The model does not cover a `char` above 255 as one unit. A UTF-8 character is several bytes in C, and each byte outside a string is skipped on its own call of `lexer_next_token`. A single wide `char` would be skipped in one call. Inputs outside ASCII must be given byte by byte, one `char` below 256 per byte.
- `parse_string` (src/parser.c:60-64) is left out because nothing calls it.
- The value tree stores each children list as the sequence it holds. The node-and-pointer list is modelled separately in `LinkedList`, and `LinkedList.Append` is proved to append to that sequence.
- Recursion depth is unbounded in the model. The C code can overflow its stack on very deep nesting.
- RoundTrip.RenderThenParse: excludes trees that contain an empty object, because `print_json` prints one as `{}` and `parse_object` cannot read that back (see `RoundTrip.EmptyObjectDoesNotRoundTrip`).
- Grammar.ArrayRejects: states only that `}`, `:` and EOF tokens stop an array. It does not state that no other first token stops the array itself.
