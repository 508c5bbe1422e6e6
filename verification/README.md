# A verified model of libyang's algorithmic cores

libyang parses, validates and prints YANG schemas and instance data. This project models the parts of it
whose correctness rests on loops, links and counters rather than on input and output, and proves what those
parts are there for. Code that changes things in place is modelled in place: classes for the data nodes, the
dictionary records and the context, arrays for the buffers and tables, loops where the C has loops. Each such
method is proved against a function, and the lemmas about that function are the results.

| modules | what they hold |
|---|---|
| `CStrings` | bytes, white space and words of C strings |
| `JsonText`, `JsonTree`, `JsonGrouping` | JSON strings; printing and parsing of data trees as functions; grouped and readable trees |
| `JsonRoundTrip`, `JsonTokens`, `JsonLayout`, `JsonTopLevel`, `JsonExamples` | values and keys; trees parsed from their tokens with any spacing; the printer's spacing; whole documents; two texts in full |
| `JsonNodes`, `JsonParser`, `JsonPrinter`, `JsonDocument` | sibling lists in the heap; parser and printer on them; both together |
| `Dictionary`, `DictionaryRuns`, `DictionaryTable` | the string dictionary as a function, over whole runs, and as chained records |
| `Prefixes`, `PrefixTransforms`, `XmlTransforms` | rewriting of prefixes: as a function, as buffer loops, and for XML |
| `Decimal64`, `BitNumbering`, `BitValues` | decimal64 values; positions of bits; bits values |
| `UnionTypes`, `UnionValues` | the search through union members; union values with the strings they intern |
| `Revisions`, `ModuleList`, `Imports`, `Loader` | revision order; the modules of a context; import paths; the import loader |

## What is proved

* **JSON.** A document is readable if every value that is printed bare is `true`, `false`, or digits and minus
  signs whose first digit is no 0 in front of another (so every canonical integer is), no list instance is
  empty, and no leaf-list starts with an instance without a value. Parsing the printed text of a non-empty,
  readable document gives the document with the instances of each list and leaf-list moved behind the first
  one, as long as no top-level list has two instances. Empty and unreadable documents are not read. The node
  returned is the first one exactly when the document does not start with a leaf-list of several values. It is
  the identity exactly on grouped documents that meet all this. White space decides nothing: the tokens of a
  document are read alike with any white space between them, or none. The same holds of the programs that work
  on linked nodes, and the sibling lists they build are well formed.
* **Text.** The 1024-byte staging buffer has no influence on what a string unescapes to. Every write stays inside it
  exactly when no four bytes are to be written with 1021 staged; text whose `\u` escapes have hexadecimal digits,
  and so all text the printer writes, never comes to that. An escape that is not cut short is read as section 7
  of RFC 7159 says exactly when it is not written with `\u`, or has four hexadecimal digits outside the surrogates.
* **Import loader.** Loading ends on every import graph, and succeeds exactly when every module on an import
  path through modules not yet loaded is there and sound, no such module imports its way back to itself, and
  no namespace is taken. The stack of names being parsed is always restored, and the list stays closed under
  imports, whether the load succeeds or fails.
* **Dictionary.** Over every run in which no counter reaches 2^32 (fewer different strings, and fewer references
  to each), the table is the multiset of strings inserted and not removed, and beyond that bound it is not;
  while a string is held, its address stands for its content.
* **Prefixes.** Prefixes to names and back is the identity. Names to prefixes and back is the identity
  exactly when `parse_identifier` accepts all the prefixes that occur: a prefix that starts with `xml` is lost.
  The loops keep their size accounting exact.
* **Values.** A decimal number is stored exactly when it has few enough digits and its scaled value fits. Numbering
  the bits of a type succeeds exactly when names and positions are unambiguous, and orders them by position. A
  bits value is accepted exactly when no white space ends it and its words are names in strictly increasing
  position. The union search runs forever exactly when a member object occurs twice and no member before the
  repetition takes the value. Failed union members leave no trace in the leaf, the XML element or the dictionary.

Where the code and its documentation or the standard disagree, the model follows the code:

* Without a parent the code cannot link a second instance of a list: the first member follows a null pointer,
  and with a later one the first node goes on pointing back to the list instead of the new last node; a third
  instance is searched a place for without end (`JsonNodes.LinkRootInstance`, `JsonTopLevel.TopListExample`). A
  document that starts with a leaf-list of several values is read whole, but its last value is returned as
  the root (`JsonTopLevel.TopLeafListReturnsLast`).
* Four characters behind `\u` are read as some number even if they are no hexadecimal digits
  (`JsonText.AnyCharacterIsADigit`), and a pair of surrogates becomes two sequences of three bytes instead of
  one character (`JsonText.SurrogatesStayApart`). A number from 0x10000 on takes four bytes, while the test for
  a full buffer leaves room for three: behind 1021 plain bytes the fourth one is written past the buffer
  (`JsonText.FourBytesLeave`). Bytes above 0x7F that are not escaped are refused, since they are negative.
* Bare values such as `-` and `1-2`, which are no JSON numbers, are read (`JsonGrouping.OtherNumbers`).
* What is accepted as a decimal64 value is a number in the form of section 9.3.1 of RFC 6020 exactly when it has
  at most one dot, a minus sign only in front, and digits behind the sign and at the end
  (`Decimal64.AcceptedIsDecimal`). So `1.2.3` is accepted with its first dot ignored, `.-5` is stored like
  -0.05 (with two fraction digits), and dots with one minus sign at most are stored as 0, the empty string
  included (`Decimal64.NoDigitsStored`). A plus sign, which the standard allows, is refused.
* A bit with several `position` substatements is accepted; section 9.7.4 of RFC 6020 allows one. A position that is
  replaced still counts for the next automatic one, and is refused if a bit before has it
  (`BitNumbering.OverwrittenPositionCounts`, `BitNumbering.ReplacedPositionRefused`).
* Bits have to be listed in the order of their positions, which section 9.7.2 of RFC 6020 does not ask of a value.
* The test for a leading `xml` in `parse_identifier` looks for the `M` at the first character
  (src/resolve.c:55-57), so that `xMl` is accepted; the model keeps this.
* The union search comes back to the element behind the first occurrence of a repeated object
  (`UnionTypes.NeverLeaves`), as when a union lists the same union typedef twice (`UnionTypes.SameTypedefTwice`).
* A decimal64 value with a decimal point is printed bare and cannot be read back (`JsonGrouping.DecimalNotReadable`).

## Model

| member | source | states |
|---|---|---|
| JsonText.Utf8Decodes | src/parser.c:1279-1313 | the bytes written for a number below 0x200000 decode to that number |
| JsonText.PutUtf8 | src/parser.c:1279-1313 | writes exactly the one to four bytes of the number behind the bytes already there, nothing else, and returns how many |
| JsonText.PrintString | src/printer_json.c:39-70 | on printable ASCII the output grows by the escaped text in quotes, and the returned count is its length |
| JsonText.FlushWhenFull | src/parser_json.c:75-97 | the staged bytes are moved to the result when more than 1021 are there; text plus buffer is unchanged and three more bytes fit |
| JsonText.ReadEscape | src/parser_json.c:99-163 | an escape is read as the loop reads it, whatever four characters follow `\u`, or refused, and the position ends behind it |
| JsonText.EscapeIsStandard | src/parser_json.c:99-163 | an escape is read as section 7 of RFC 7159 says, whose table is written out beside it, exactly when it is no `\u` escape, is cut short, or has four hexadecimal digits outside the surrogates |
| JsonText.HexEscapeIsCharacter | src/parser_json.c:139-150 | four hexadecimal digits in either case are read as the UTF-8 form of the character with that number |
| JsonText.SurrogatesStayApart | src/parser_json.c:139-150 | two surrogates are read as two sequences of three bytes each |
| JsonText.AnyCharacterIsADigit | src/parser_json.c:140-149 | an input that is no hexadecimal number and is read all the same |
| JsonText.ParseText | src/parser_json.c:64-209 | result and length are those of unescaping the whole body without a buffer, and it tells exactly whether every write stayed inside the 1024 bytes |
| JsonText.InsideUnlessMet | src/parser_json.c:75-157 | every write stays inside exactly when in no turn four bytes are to be written with 1021 staged |
| JsonText.HexStaysInside | src/parser_json.c:137-157 | with hexadecimal digits behind every `\u` no write leaves the buffer, however full it is |
| JsonText.PrintedStaysInside | src/printer_json.c:39-70 | reading back what the printer writes never leaves the buffer |
| JsonText.FourBytesLeave | src/parser_json.c:75-157 | any 1021 plain bytes and one escape of letters beyond F write past the buffer |
| JsonText.UnescapeEscape | src/printer_json.c:39-70 | unescaping what the printer escapes gives the text back and ends at the closing quote |
| JsonText.UnescapeLocal | src/parser_json.c:64-209 | what stands behind the closing quote does not change the result |
| JsonRoundTrip.ReadValue | src/printer_json.c:89-157 | a printed leaf value followed by a comma, a closing bracket or brace, a space, a tab, a line feed or a carriage return is read back as that value and nothing more, or refused when it is bare and the scanners of numbers and literals do not take it whole |
| JsonRoundTrip.ValueEnds | src/parser_json.c:216-219 | a readable bare value is read whole exactly when the byte behind it, if it does not go on with a number, is one of those seven |
| JsonRoundTrip.ReadKey | src/parser_json.c:654-692 | a key in its quotation marks is read as its text, with any white space around the name separator |
| JsonRoundTrip.FindQualified | src/parser_json.c:707-789 | below a parent a name with a module in front is found exactly when there is such a module, and then as the plain name is; without a parent a plain name is not found |
| JsonTokens.ReadEntry | src/parser_json.c:641-1074 | one member, be it leaf, container or the array of all instances of a list or leaf-list, with any spacing between its tokens, is read as those nodes, or refused |
| JsonTokens.ReadMembers | src/parser_json.c:641-1074 | the members from any sibling that is printed to the closing bracket, with any spacing, are read as all remaining entries in printed order |
| JsonTokens.LaidAfter | src/parser_json.c:51-62 | a text with spaces, tabs, line feeds and carriage returns between the tokens starts with these tokens |
| JsonTokens.AfterIsLaid | src/parser_json.c:51-62 | no other text starts with them |
| JsonLayout.DocumentLaid | src/printer_json.c:300-379 | the printer's text is the tokens of the document with white space between them, and one line feed behind |
| JsonExamples.PrintedText | src/printer_json.c:89-379 | the text of a container with a number, a string and a leaf-list of two numbers, byte by byte |
| JsonExamples.CompactIsRead | src/parser_json.c:211-270 | `{"m:c":{"a":1}}`, with any names and any readable bare value, is read as that container and leaf |
| JsonGrouping.GroupKeepsInstances | src/printer_json.c:181-272 | grouping loses, adds and reorders no instance of any schema node |
| JsonGrouping.GroupContiguous | src/printer_json.c:319-343 | after grouping all instances of a list or leaf-list stand together |
| JsonGrouping.GroupTreeGrouped | src/printer_json.c:319-343 | grouping groups at every depth |
| JsonGrouping.GroupIdentity | src/printer_json.c:319-343 | a tree is unchanged by grouping exactly when instances stand together at every depth |
| JsonGrouping.ReadableNodes | src/printer_json.c:181-361 | the condition met along the printer's own walk is the plain condition on every node |
| JsonTopLevel.ReadTopMembers | src/parser_json.c:641-1074 | the top-level members, with any spacing, are read in order up to the first that is not readable, or is a list with two instances |
| JsonTopLevel.ReadDocument | src/parser_json.c:1094-1180 | what becomes of a text that starts with the tokens of a document, with any spacing: the outcome follows from the tokens alone, member by member |
| JsonTopLevel.SpacingDecidesNothing | src/parser_json.c:1094-1180 | the tokens of a document with any spacing, and anything behind, are read as the printed text is |
| JsonTopLevel.PrintThenParse | src/parser_json.c:641-1180 | a non-empty, readable document comes back grouped exactly if no top-level list has two instances; any other is not read |
| JsonTopLevel.PrintThenParseIdentity | src/parser_json.c:641-1180 | print then parse is the identity, with the first node returned, exactly for non-empty, readable, grouped documents without repeated top-level lists that do not start with a leaf-list of several values |
| JsonTopLevel.TopLeafListReturnsLast | src/parser_json.c:898-908 | of a top-level leaf-list with several values the last instance is returned, which the printer skips |
| JsonTopLevel.TopLeafListExample | src/parser_json.c:1069-1071 | two boolean values are such a document |
| JsonTopLevel.TopListExample | src/parser_json.c:1026-1041 | a document with two instances of a top-level list, at which the parser breaks its sibling list |
| JsonGrouping.BareIsReadable | src/parser_json.c:211-270 | the scanners take a bare text whole exactly when it is a literal, or digits and minus signs whose first digit is no 0 in front of another |
| JsonGrouping.IntegersAreReadable | src/parser_json.c:211-250 | the JSON integers are exactly the readable number texts with a digit and no minus sign but in front |
| JsonGrouping.OtherNumbers | src/parser_json.c:236-242 | two readable texts that are no JSON numbers |
| JsonGrouping.DecimalNotReadable | src/parser_json.c:211-250 | a bare value with a decimal point is never read back |
| JsonNodes.RelinkKeepsReady | src/parser_json.c:869-886 | changing only the sibling links of a node's children keeps every finished subtree |
| JsonNodes.LinkNode | src/parser_json.c:869-886 | the new node becomes the last sibling: first.prev is the new last, last.next is null, next and prev are inverse, all share the parent |
| JsonNodes.LinkInstance | src/parser_json.c:1026-1044 | the same for a further list instance |
| JsonNodes.LinkValue | src/parser_json.c:423-440 | the same for a further leaf-list value, whose backward walk finds the first sibling |
| JsonNodes.LinkRoot | src/parser_json.c:873-886 | the same without a parent, where the first sibling is found by walking back |
| JsonNodes.LinkRootInstance | src/parser_json.c:1026-1041 | the same walk for a further list instance without a parent ends at the list itself: the first sibling does not point to the last one, and no later walk from there comes to an end |
| JsonParser.SkipWs | src/parser_json.c:51-62 | stops at the first byte that is no white space |
| JsonParser.ParseNumber | src/parser_json.c:211-250 | length of a number, or 0 where the bytes are no number the parser takes |
| JsonParser.ParseScalar | src/parser_json.c:357-405 | the value at the cursor and the length read, or failure, as the specification says |
| JsonParser.ParseKey | src/parser_json.c:654-692 | the node identifier and the length up to the content, or failure |
| JsonParser.ParseValues | src/parser_json.c:345-455 | every value of a leaf-list is appended to the parent's well-formed sibling list as the specification reads it |
| JsonParser.ParseData | src/parser_json.c:641-1074 | one member below a parent: the parent's children grow by exactly the trees the specification reads, and stay well linked |
| JsonParser.ParseMembers | src/parser_json.c:926-944 | all members of an object, in order, become the children of the node |
| JsonParser.ParseInstances | src/parser_json.c:958-1056 | all instances of a list, in order, are appended to the parent |
| JsonParser.ParseRootValues | src/parser_json.c:345-455 | every value of a top-level leaf-list joins the well-linked top-level nodes |
| JsonParser.ParseRootList | src/parser_json.c:951-1063 | a top-level list with one instance is read; at a second one behind another member the instance is linked, but the first node points back to the list, and this is reported |
| JsonParser.ParseRoot | src/parser_json.c:641-1074 | one top-level member, of any kind: its nodes join the well-linked top-level nodes, and the last of them is returned |
| JsonParser.ParseDocument | src/parser_json.c:1094-1180 | the top-level nodes are well linked, denote the trees the specification reads, and the one returned is the last of the first member; null when nothing is read |
| JsonPrinter.HasEarlierInstance | src/printer_json.c:325-333 | the backward walk over prev finds an earlier instance exactly when there is one |
| JsonPrinter.NextInstance | src/printer_json.c:234-237 | the walk over next finds the following instance |
| JsonPrinter.PrintArray | src/printer_json.c:181-272 | prints all instances of the node's schema among its siblings, each once, in order |
| JsonPrinter.PrintNodes | src/printer_json.c:299-361 | on a well-linked sibling list the output is the specified text: each sibling once, commas between entries only |
| JsonPrinter.PrintDocument | src/printer_json.c:363-379 | the whole text of a document |
| JsonDocument.PrintAndParse | src/parser_json.c:1094-1180 | printing linked nodes and parsing the text builds well-linked nodes for the grouped trees exactly when the document is readable and repeats no top-level list |
| Dictionary.DictHash | src/dict.c:77-91 | the 32-bit hash that the bucket index is taken from |
| Dictionary.TableLimits | src/dict_private.h:33-43 | 1024 buckets and counters of 32 bits |
| Dictionary.HashOfKeys | src/dict.c:77-91 | the hash of three keys as numbers, one of them with a byte above 0x7F |
| Dictionary.InsertStep | src/dict.c:151-230 | an insert raises the count of one string by one, modulo 2^32, gives its handle, and changes no other count or handle |
| Dictionary.RemoveStep | src/dict.c:94-148 | a remove by a live address lowers one count and drops the record at zero; nothing else changes; other addresses change nothing |
| Dictionary.RemoveForeign | src/dict.c:108-117 | a remove by an address that is not live leaves the table as it is |
| Dictionary.RemoveUndoesInsert | src/dict.c:94-230 | a remove restores the table before the insert exactly when no counter wraps |
| DictionaryRuns.RunRefines | src/dict.c:94-230 | over every run in which no counter reaches 2^32 the table represents the multiset of held strings, and used is the number of records |
| DictionaryRuns.RepresentsIsWithin | src/dict.c:94-230 | beyond that bound a table represents nothing |
| DictionaryRuns.RefcountIsInsertsMinusRemoves | src/dict.c:94-230 | from an empty dictionary each refcount is inserts minus live removes, and a record exists exactly while that is positive |
| DictionaryRuns.InsertCounts | src/dict.c:181-186 | corollary of InsertStep: an insert adds one to the count exactly while it stays below 2^32 |
| DictionaryRuns.LiveHandles | src/common.h:297 | corollary of what live means: two live handles are equal exactly when their strings are |
| DictionaryRuns.RunKeepsHandle | src/dict.c:108-144 | while a string stays interned no run of calls changes its handle |
| DictionaryRuns.SameHandleIffSameText | src/dict.c:151-230 | two inserts with any calls between them that keep the first string interned return one handle exactly for equal content |
| DictionaryTable.Search | src/dict.c:176-200 | the chain walk ends at the record with this content, or at the last record |
| DictionaryTable.InsertIntoChain | src/dict.c:151-230 | the records of the chain afterwards store what the bucket function says, in a well-formed chain |
| DictionaryTable.MoveIntoHead | src/dict.c:127-137 | the second record moves into the static head; the other records and their handles stay |
| DictionaryTable.Unlink | src/dict.c:121-126 | the record is taken out of the chain and the others stay in order |
| DictionaryTable.RemoveFromChain | src/dict.c:94-148 | the chain afterwards stores what the bucket function says |
| DictionaryTable.Dict.constructor | src/dict.c:31-41 | the zeroed array is the empty table |
| DictionaryTable.Dict.DictInsert | src/dict.c:150-230 | the heap table refines the functional insert, and the buffer is stored only if the string is new |
| DictionaryTable.Dict.Intern | src/dict.c:232-250 | insert with null and with a length of zero |
| DictionaryTable.Dict.InternBuffer | src/dict.c:252-266 | the caller's buffer itself is interned if the string is new |
| DictionaryTable.Dict.Release | src/dict.c:93-148 | the heap table refines the functional remove, null included |
| Prefixes.RewriteBack | src/common.c:470-542 | rewriting back gives the expression exactly when every prefix in it is mapped back to itself |
| Prefixes.Inverse | src/common.c:213-229 | in a module with distinct prefixes and names, the two lookups are inverse |
| Prefixes.NamesThenPrefixes | src/common.c:470-542 | prefixes to names and back is the identity on every expression that can be rewritten |
| Prefixes.PrefixesThenNames | src/common.c:232-363 | names to prefixes and back is the identity exactly when parse_identifier accepts all prefixes that occur |
| Prefixes.XmlPrefixIsLost | src/resolve.c:50-74 | an import prefix that starts with xml is written and then refused |
| Prefixes.XmlPrefixExample | src/resolve.c:50-74 | a module with such an import |
| Prefixes.IdentifierAccepted | src/resolve.c:50-74 | an identifier is accepted as a whole exactly when it does not start like xml, with the M looked for at the first character |
| Prefixes.IdentifierCharacters | src/resolve.c:66-70 | the characters that make up an identifier, one by one |
| Prefixes.IdentifierForm | src/parser.c:1063-1074 | an identifier starts with a letter or an underscore, and any identifier characters follow |
| Prefixes.BehindDelimiter | src/common.c:269-273 | in front of a colon exactly the identifier is replaced that starts the text or stands behind a slash, a space, an opening bracket or a quotation mark of either kind |
| Prefixes.BehindOther | src/common.c:269-273 | behind any other byte what is replaced starts further in front |
| Prefixes.PathWithPredicate | src/common.c:469-542 | a step with a predicate has the prefix replaced in front of the step and in the predicate |
| Prefixes.PredicateExample | src/common.c:469-542 | `m:a[m:b='x']` becomes `main:a[main:b='x']` in the module with prefix m and name main |
| PrefixTransforms.StrpbrkBackwards | src/common.c:147-160 | the last delimiter in the window, or the window's start |
| PrefixTransforms.FindId | src/common.c:269-273 | the identifier in front of the colon starts behind the last delimiter |
| PrefixTransforms.Append | src/common.c:318-338 | after a replacement the buffer has room for exactly the rest and the terminator |
| PrefixTransforms.Finish | src/common.c:263-268 | the rest fits exactly; the size reached is the size allocated |
| PrefixTransforms.ParseIdentifier | src/resolve.c:50-74 | the length parse_identifier returns |
| PrefixTransforms.CheckIdentifier | src/parser.c:1063-1074 | the loop accepts exactly the identifiers |
| PrefixTransforms.ModuleNameToPrefix | src/common.c:212-229 | prefix of a module name as used in the module |
| PrefixTransforms.GetImportModule | src/tree_schema.c:1926-1958 | module name for a prefix as used in the module |
| PrefixTransforms.TransformSchemaToJson | src/common.c:469-542 | the buffer loop returns the expression with every prefix replaced and all other text kept, or null where one cannot be replaced |
| PrefixTransforms.TransformJsonToSchema | src/common.c:231-363 | the same from module names to prefixes |
| XmlTransforms.TransformJsonToXml | src/common.c:231-358 | the same from module names to XML prefixes, with each needed declaration collected once |
| XmlTransforms.XmlToJsonText | src/common.c:366-467 | the text the loop builds from XML prefixes, or failure where one is unknown |
| XmlTransforms.TransformXmlToJson | src/common.c:366-467 | on success exactly one reference is added to the dictionary and its handle returned; on failure nothing changes |
| XmlTransforms.ListIsContext | src/context.c:199-246 | in every list modules were added to, names and namespaces stand for each other under both lookups |
| XmlTransforms.FirstDeclared | src/xml.c:115-147 | of several declarations of one prefix the first counts |
| XmlTransforms.XmlThenJson | src/common.c:231-467 | to XML and back is the identity exactly when the collected prefixes are distinct and accepted |
| Decimal64.ParseInt | src/parser.c:246-274 | the number strtoll converts, unless it is out of range or something other than white space follows |
| Decimal64.StrtollReads | src/parser.c:246-274 | of white space, a sign or none and digits strtoll gives the number and the place behind the digits, or the limit of 64 bits that is passed |
| Decimal64.StrtollReadsNothing | src/parser.c:246-274 | without a digit behind the sign it reads nothing |
| Decimal64.NaturalIsDecimal | src/parser.c:246-274 | digits stand for their decimal value |
| Decimal64.Normalise | src/parser.c:672-711 | the loop ends with a terminated text inside the 21 bytes; which strings it accepts, and what it writes, for every input |
| Decimal64.ParseDecimal64 | src/parser.c:654-724 | the case as a whole, up to the range restriction |
| Decimal64.DecimalStored | src/parser.c:654-724 | a decimal number is stored exactly when it has at most dig fraction digits, at most 19 padded digits and fits 64 bits, and then as its value times 10^dig |
| Decimal64.AcceptedIsText | src/parser.c:672-711 | an accepted text has the form of a sign and digits with a dot exactly when it has at most one dot and no minus sign but in front |
| Decimal64.AcceptedIsDecimal | src/parser.c:672-711 | it is a decimal number of the standard exactly when digits also stand behind the sign and at the end |
| Decimal64.SignBehindDot | src/parser.c:674-703 | a minus sign behind a leading dot is taken for the sign, and counts as a fraction digit |
| Decimal64.SignBehindDotExample | src/parser.c:674-703 | `.-5` is stored as -5 with two fraction digits |
| Decimal64.NoDigitsStored | src/parser.c:672-724 | a text of dots and minus signs is stored as 0 exactly when it has one sign at most and is short enough, except with one fraction digit for a sign behind a dot at the end |
| Decimal64.PlusRefused | src/parser.c:694-699 | a plus sign anywhere is refused |
| Decimal64.OnlyLastDotCounts | src/parser.c:674-681 | in any text the dots before the last one are dropped, and it is accepted exactly when the rest is and no run behind a dropped dot is too long |
| Decimal64.TwoDots | src/parser.c:674-681 | a number with two dots is accepted exactly when both digit runs fit, and the first dot is then ignored |
| BitNumbering.NumberBits | src/parser_yin.c:328-414 | succeeds exactly when every bit can be added to those before it; then the array is the position-ordered table |
| BitNumbering.ReadPositions | src/parser_yin.c:355-392 | the position statements of one bit: refused exactly when one is out of range or taken, else position and counter |
| BitNumbering.Sink | src/parser_yin.c:405-413 | the swaps move the new bit below all higher positions and keep the order of the rest |
| BitNumbering.NumberedTable | src/parser_yin.c:328-414 | the table is a permutation of the declared bits, with distinct names, strictly increasing positions up to 2^32-1, and the automatic positions it should have |
| BitNumbering.NumberableMeansUnambiguous | src/parser_yin.c:328-414 | numbering succeeds exactly when names and final positions are distinct and in range and no replaced position was taken; with one position per bit at most, none is replaced |
| BitNumbering.HighestPosition | src/parser_yin.c:361-403 | 2^32-1 can be given and assigned, and nothing beyond it |
| BitNumbering.NextIsOneAboveHighest | src/parser_yin.c:375-403 | the automatic position is above every position read or assigned so far, and 0 or one more than one of them |
| BitNumbering.NextIsAboveTable | src/parser_yin.c:375-403 | it is one more than the highest position of the bits before, or 0, exactly when no bit before was given a position above all that were kept |
| BitNumbering.OverwrittenPositionCounts | src/parser_yin.c:360-377 | a bit with two positions keeps the second, and the next automatic position counts the first |
| BitNumbering.ReplacedPositionRefused | src/parser_yin.c:378-388 | a bit is refused for a position it does not keep, though all final positions differ |
| BitValues.ParseBits | src/parser.c:585-637 | accepted exactly as specified, and slot i then holds a pointer to bit i exactly for the bits set |
| BitValues.SelectedMeaning | src/parser.c:600-635 | accepted exactly when no white space ends the value and its words are names at strictly increasing positions; those bits are set |
| BitValues.WordsEndAt | src/parser.c:600-610 | a space, a tab, a line feed and a carriage return end a word, and no other printing character does |
| BitValues.ParsePrinted | src/parser.c:600-635 | the canonical text of every set of bits is parsed to that set |
| BitValues.PrintParsed | src/parser.c:600-635 | an accepted value has the words of the canonical text of its bits |
| BitValues.NumberedNames | src/parser_yin.c:328-414 | numbering produces a table the value parser can rely on |
| UnionTypes.GetNextUnionType | src/parser.c:969-1000 | the recursive search with its shared flag is one pass over the flattened members, derived types last |
| UnionTypes.NextOfFirst | src/parser.c:980-996 | from a first occurrence the search finds the member right behind it |
| UnionTypes.EnumeratesAll | src/parser.c:969-1000 | without a repeated object, search number n finds member n, and after the last none |
| UnionTypes.NeverLeaves | src/parser.c:969-1000 | with a repeated object the searches stay before the first repetition forever |
| UnionTypes.EndsIffDistinct | src/parser.c:969-1000 | the searches end exactly when no object occurs twice |
| UnionTypes.LoopEndsIff | src/parser.c:917-957 | the loop ends exactly when no object occurs twice or one before the first repetition takes the value |
| UnionTypes.SameTypedefTwice | src/parser.c:975-996 | a union that lists one union typedef with members twice is searched without end |
| UnionTypes.TypedefTwiceExample | src/parser.c:975-996 | the smallest such union flattens to one object twice |
| UnionValues.TryMember | src/parser.c:923-954 | a member that does not take the value leaves leaf, element and dictionary as they were; one that does leaves one more reference |
| UnionValues.TakesByBase | src/parser.c:923-948 | members for identities and instance identifiers are tried on the value rewritten through the element's declarations, all others, and every member without an element, on the value as it is |
| UnionValues.ParseUnion | src/parser.c:916-962 | the first member that takes the value is chosen, or none; for a chosen identity or instance identifier with an element the leaf has the value rewritten through the element's declarations, and one reference is added; for any other member and for none leaf and dictionary are unchanged; over all attempts every count changes by as many references as leaf and element hold more |
| UnionValues.OneMoreHeld | src/parser.c:927-948 | corollary of InsertStep: a transformed value is one reference more, and counted |
| UnionValues.HeldHasCounters | src/dict.c:94-230 | with fewer than 2^32-1 different strings held no counter is at its limit |
| Revisions.ReadRevisions | src/parser_yin.c:4996-5061 | refused exactly when a statement is malformed; else the array holds the revisions in the order specified |
| Revisions.StrCmpIsOrder | src/parser_yin.c:5037 | strcmp is negative exactly for a proper prefix or a smaller character at the first difference, and positive exactly the other way round |
| Revisions.DateForm | src/parser.c:1196-1217 | a date is four digits, two and two, joined by minus signs |
| Revisions.StrCmpOfDates | src/parser_yin.c:5037 | on dates strcmp is the order of the years, months and days as numbers |
| Revisions.RevisionParts | src/parser_yin.c:5012-5034 | a revision has the date, description and reference of its statement, each where it belongs |
| Revisions.OrderedLatest | src/parser_yin.c:5035-5059 | the triples are permuted, no date comes behind the one at index 0 in the order of strings, and it is the first declared with that date |
| Revisions.LatestDay | src/parser_yin.c:5035-5059 | in the order of the calendar no revision is later than the one at index 0 |
| ModuleList.Context.constructor | src/context.c:46-72 | an empty list of 16 empty slots |
| ModuleList.Context.AddModule | src/parser_yin.c:5401-5444 | the scan stays in the array, which doubles when it is full; the module is appended, or the entry that is the same is returned, or it is refused for its namespace |
| ModuleList.AddKeepsConsistent | src/parser_yin.c:5414-5442 | no module is listed twice and different names have different namespaces, after every addition |
| ModuleList.ReaddFindsEntry | src/parser_yin.c:5416-5432 | adding a module again finds its own entry |
| ModuleList.Context.GetModuleBy | src/context.c:199-246 | without a revision the newest match, with one the first match whose latest revision it is |
| ModuleList.NewestIsLatest | src/context.c:211-242 | no revision of any match is later than the latest of the module found, which has none only if no match has any |
| ModuleList.NewestByField | src/context.c:199-246 | by name and by namespace, the module found has that name or namespace, and no revision of any match is later than its latest, in the order of strings and of the calendar |
| ModuleList.Context.IsParsing | src/parser_yin.c:2374-2380 | finds a name exactly when it is on the stack |
| ModuleList.Context.Push | src/parser_yin.c:2382-2389 | the name is on top of the stack and the end mark behind it |
| ModuleList.Context.Pop | src/parser_yin.c:2398-2408 | the internal check finds the pushed name, and the stack is as before |
| Imports.GoodPathsMeaning | src/parser_yin.c:2374-2380 | no path repeats a module exactly when no needed module imports its way back to itself |
| Imports.Descends | src/parser_yin.c:2370-2417 | in a list loaded in order, import paths go to ever earlier modules |
| Imports.NeededIsNew | src/parser_yin.c:2370-2417 | after a complete load the new modules are exactly those below the root |
| Imports.ClashNotLoadable | src/parser_yin.c:5433-5437 | a namespace that is taken keeps the root from being loaded |
| Loader.FillImport | src/parser_yin.c:2370-2417 | the stack is restored and its names are distinct and not loaded; a failed import means the root cannot be loaded |
| Loader.ReadModule | src/parser_yin.c:4963-4973 | every import is loaded and is another module, or the root cannot be loaded |
| Loader.LoadModule | src/context.c:276-306 | the module found is built with its imports behind it in the list, or the root cannot be loaded |
| Loader.Load | src/parser_yin.c:5382-5448 | ends on every import graph and succeeds exactly when the graph allows it; which modules are added, in which order, stack empty, list closed under imports |

## Left out

- JsonText.ParseText: refuses a `\u` escape with fewer than four characters before the end of the data, where the code reads on; a byte written behind the buffer is kept in an extra byte, and what else it may change is not modelled.
- JsonText.PrintString: only printable ASCII; for control characters the printer passes no argument to its escape format (src/printer_json.c:52).
- JsonParser.ParseDocument: ends at the second instance of a top-level list, where the code follows a null pointer or leaves its list discipline; what it does from there on is not modelled beyond `JsonNodes.LinkRootInstance`.
- JsonParser.ParseRoot: like it, ends at that instance, and so does `JsonParser.ParseRootList`, which says how the nodes are linked then.
- JsonParser.ParseData: refuses JSON attributes, that is members whose name starts with `@`; anyxml is not modelled either.
- UnionValues.ParseUnion: is stated for calls on which the loop ends; `UnionTypes.LoopEndsIff` says which these are.
- UnionValues.TryMember: what `lyp_parse_value_` answers for a member is a parameter, and `value_type` and the value union are not modelled.
- XmlTransforms.TransformXmlToJson: needs expressions in which no colon is first or follows another; on others the backward search leaves the string. The same holds of the other rewriting loops.
- Decimal64.ParseDecimal64: stops at the stored integer; the range restriction scales by a power of two and is not part of this model.
- Loader.Load: is the outermost call, with no other load under way; a source has the name it is looked up by, imports carry no revision date, and what else the parser checks in a module is one flag that is looked at behind the imports.
- Revisions.ReadRevisions: the report of a date that occurs twice is not modelled; it does not change the result.
- JsonPrinter.PrintDocument: all top-level nodes are of one module, and so are all nodes below them; documents of several modules and nodes of augmenting modules are not covered.
- Schema nodes are compared by value instead of by address, which is the same for siblings with different names; `lys_getnext` and module lookup are given as ordered children and a map.
- Validation (`lyv_*`), unresolved references and the FILTER, EDIT and GET options of the JSON parser.
- Submodules, deviations, augments, features and the implemented flag of a module.
- Value types other than decimal64, bits and union, among them patterns and enumerations.
- Allocation failures, freeing of half-built results, log messages and error codes.
- Files, callbacks and search paths: the sources are a map from names.
- The dictionary's mutex: each call is one step.
- Type objects are values with an address; they are only read here.
