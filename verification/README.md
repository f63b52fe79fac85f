# Verified model of the AI challenge client

The client plays a turn-based game of heroes on a rectangular board. It talks to
the server in JSON through a bundled copy of jsoncpp. This project models four
parts of it in Dafny and proves what they are for.

**The JSON codec.** `Bytes`, `Utf8`, `JsonStrings`, `JsonNumbers` and
`JsonNumberTexts` model characters, the UTF-8 and `\u` conversions, 64-bit
integers as text and the text of a double. `JsonValue` is the value tree: arrays
and objects are both maps sorted by key. `JsonWriter` holds the two compact
printers as classes. `JsonLexer` and `JsonGrammar` say, as functions of a document
and a position, what the reader makes of every byte string; `JsonReader` is the
reader itself, a class with a cursor, a node stack and an error list, proved to
compute exactly those functions.

What those functions come to is told by references of their own. `JsonTokens` and
`JsonNumberTokens` say which text is a token, `JsonEscapes` what every piece of a
string denotes, `JsonTrees` is the grammar over tokens as a relation with syntax
trees, and `JsonDocuments` is RFC 8259 by its own grammar, blanks included: every
text of it is read as what it denotes (`JsonTexts` puts the pieces together).
`JsonLanguage` is the converse, and `JsonPrinted` says that whatever is printed is
such a text. On top stand the theorems on printing and reading: `JsonRoundTrip`
(print, then read), `JsonReprint` (read, then print, then read again; which
exceptions escape), `JsonCodec` (the classes run one after the other), and the
theorem on comments: `JsonComments` is about comment tokens and comments in front
of a document, `JsonAcceptance` is the grammar of the documents that are accepted,
`JsonSplicing` relates the tokens of a document to those of the same document with
a comment put in, and `JsonPlaces` says for every place what the comment does
there, with three documents in `JsonCommentCases`. `SparseArrays` and `ValueOrder`
cover the array operations and the comparison operators of values.

**The board.** `Grid`, `Geometry`, `Ray` and `Vision` model the ray tracing: a
depth-first walk steered by integer cross products, tied to the real plane.
`Pathfinding` is the breadth-first search with its array queue and parent table.
A cell passed to it may be a copy of a board cell, so addresses and positions
are kept apart.

**The planner.** `Heroes` (the data), `Areas` (diamonds), `Planner` (the bomb
planner) with `Scores`, `DamageMaps` (the tagged damage map, on top of `Vision`)
and `Reservations` (the tables of claimed objective cells, over whole games).

**The event queue.** `EventQueues` is a transition system over any number of
threads, one atomic action per step.

`dafny verify dfyconfig.toml` checks everything.

Where the code does not do what one would expect, the model does what the code
does, and a lemma or a contract states exactly when the expectation holds:

* A string survives printing and reading if and only if it is well-formed UTF-8
  (section 4 of RFC 3629) with code points up to U+3FFFF; the lead bits of a
  four-byte character are shifted too far for anything beyond
  (`JsonStrings.RecodeIsIdentity`).
* Not only the texts of RFC 8259 are accepted. A number is any run of a digit or
  minus sign, digits, a point with digits and an E with a sign and digits, though
  all but the first character be missing (`JsonNumberTokens.NumberTokens`); a block
  comment that is never closed passes if the document ends with a slash
  (`JsonTokens.TokensAreLexemes`); control characters stand unescaped in strings, a
  surrogate escape may be paired with any other, and a lone second half passes
  (`JsonEscapes.MakesSense`); behind a member named by
  the empty string a comma may stand in front of the closing brace
  (`JsonTrees.TreeIsRead`); and whatever follows the value is not looked at. Apart
  from that, comments and dropped placeholders, nothing else is accepted
  (`JsonLanguage.DocumentIsAccepted`).
* With numeric member names allowed, `parse` raises a logic error on a document
  such as `{0`, because a decoded number is asked for its characters; without
  them nothing but the nesting limit ever raises (`JsonReprint.OtherExceptions`).
* A comment put into an accepted document, anywhere but inside a token, leaves
  what is parsed unchanged if and only if it stands behind the value, in front of
  a member name or behind a member or element value, whatever the flag for
  comments says; or in front of a value, with comments allowed; or inside an
  empty array, with comments and dropped placeholders allowed, at a depth below
  the nesting limit and under a member that a later one of the same name replaces.
  In front of a colon it is refused always, and inside an empty array that is kept
  it is refused or makes an array of one null (`JsonPlaces.InsertedComment`). So
  `{""/**/:0}` is refused with comments allowed, and `[0/**/]` is accepted with
  comments not allowed (`JsonCommentCases.CommentBeforeColon`,
  `CommentBehindElement`). A refused document can become an accepted one, because
  behind a comment any token passes for the comma between members: `{"":0:}` is
  refused and `{"":0/**/:}` is not (`CommentHidesColon`).
* Shrinking an array by `resize` passes its closing assertion, and removing the
  last element shortens the array by exactly one, if and only if the element before
  the cut is present (`SparseArrays.SparseArray.Resize`, `RemoveIndex`); an array
  with holes shows both (`SparseArrays.HolesShow`).
* Adding an enemy to the damage map is exact on a cell if and only if the
  enemy's tag bit does not occur in the damage before and after
  (`DamageMaps.DamageMap.AddEnemy`). So the whole map is exact on a cell where no
  tag collides on the way, as with totals below 1024, and wrong where the tag of
  the last enemy is the first to collide (`CreateDamageMap`); two enemies of 600
  each make it wrong (`DamageMaps.CollidingTags`).
* After a choice every reserved cell is still the target of its hero if and only if
  the hero was in the zone, had no target, found nothing eligible, or the nearest
  eligible cell is the target it had (`Reservations.Tables.ChooseTarget`); otherwise
  the old cell stays reserved until the hero chooses it again (`LeakLasts`), as in
  a game of two choices (`LeakingGame`).
* The documentation of `EventQueue::terminate` promises that every waiting thread
  returns. A thread that stands between its check and its wait can sleep on,
  because the flag is set without the mutex
  (`EventQueues.TerminateWakesUnless`, `LostWakeUp`).
* The `wallPiercing` argument of the ray tracing is handed down the recursion and
  has no effect: what `Ray.RayWalk.Dfs` and `Vision.GetRayCells` return does not
  mention it.

## Model

| member | source | states |
|---|---|---|
| Geometry.SquareCollision | client/src/Model/Interface/World.cpp:241-256 | the scan over the four corners returns the state read off the offset of the cell from the line |
| Geometry.CollisionIsExact | client/src/Model/Interface/World.cpp:230-256 | for distinct centres the state is 1 iff the line meets the open square, and -1 iff it misses the closed square |
| Geometry.CollisionZeroIsOneCorner | client/src/Model/Interface/World.cpp:230-256 | the state is 0 iff the line meets the closed square in nothing but one of its corners |
| Geometry.NotAlongAnEdge | client/src/Model/Interface/World.cpp:246-248 | a line between centres never runs along an edge of a square |
| Geometry.SegmentByOffset | client/src/Model/Interface/World.cpp:225-256 | inside the bounding box the segment meets a square iff the line does |
| Ray.RayWalk.Dfs | client/src/Model/Interface/World.cpp:263-303 | the recursive walk appends exactly the trail: cell by cell through the side or vertex the line leaves by, up to the target or the first obstructed step |
| Ray.RayWalk.DfsSides | client/src/Model/Interface/World.cpp:268-283 | the loop over the directions either completes the trail or establishes that the line leaves through a vertex with free flanks |
| Ray.RayWalk.DfsCorners | client/src/Model/Interface/World.cpp:284-302 | the loop over the diagonals enters the one cell ahead and no other |
| Ray.AdvanceStaysOnRay | client/src/Model/Interface/World.cpp:263-303 | every step stays in the box and on the line and makes progress |
| Vision.RayIsExact | client/src/Model/Interface/World.cpp:263-321 | on every board the ray is a duplicate-free chain of king steps over free cells, containing exactly the cells whose open square the segment crosses and that lie before every wall the segment touches |
| Vision.TrailIsPrefix | client/src/Model/Interface/World.cpp:303-321 | with walls the ray is a prefix of that chain, ending at the target or at an obstructed step |
| Vision.TrailSteps | client/src/Model/Interface/World.cpp:263-303 | no cell of the ray after the start is a wall, and consecutive cells are king steps apart |
| Vision.TrailDistinct | client/src/Model/Interface/World.cpp:263-303 | no cell occurs twice on the ray, walls or not |
| Vision.GetRayCells | client/src/Model/Interface/World.cpp:313-321 | the query returns the trail, whether walls are to be pierced or not, and nothing for a null cell |
| Vision.ThroughIffUnobstructed | client/src/Model/Interface/World.cpp:303-321 | the ray arrives iff the segment touches no wall square, not even in a corner |
| Vision.IsInVision | client/src/Model/Interface/World.cpp:381-390 | a cell is visible iff both cells are free and the segment touches no wall |
| Vision.VisionIsSymmetric | client/src/Model/Interface/World.cpp:381-390 | vision is mutual, although the walk is not symmetric |
| Vision.GetImpactCells | client/src/Model/Interface/World.cpp:323-352 | a harmful ability is meant for the opponent's cells and any other for mine; on the cells in range of the ray it lands on every such cell and the last one when lobbed, and else on the first such cell or the last one reached; the last of them is the target iff the segment is unobstructed, the target in range and, unless the ability lobs, nobody it is meant for stands before it |
| Vision.LandsByKind | client/src/Model/Interface/World.cpp:333-350 | for any cells reached: one it is not meant for is flown past, one it is meant for stops it, and lobbed it hits them all, told from the two sets of heroes alone |
| Vision.ImpactIsTarget | client/src/Model/Interface/World.cpp:323-352 | that equivalence, for any cells an ability lands on |
| Vision.FollowRay | client/src/Model/Interface/World.cpp:333-350 | the loop with its break points computes that |
| Pathfinding.GetPathMoveDirections | client/src/Model/Interface/World.cpp:832-878 | the directions lead over cells of the map that are free and not to be avoided, each one row or column from the one before, and no such way is shorter; the result is empty iff a cell is null, both are the same, one of them is a wall or to be avoided, or there is no such way |
| Pathfinding.Expand | client/src/Model/Interface/World.cpp:862-875 | the inner loop enqueues every walkable neighbour without an entry, never overrunning the array, and leaves the search in a state with one more cell done and nothing enqueued before forgotten |
| Pathfinding.Backtrack | client/src/Model/Interface/World.cpp:850-860 | the walk along the parent table terminates and yields a shortest way |
| Pathfinding.QueueFits | client/src/Model/Interface/World.cpp:842-847 | each address is enqueued at most once, so at most rows times columns plus one entries are used, a copied start included |
| Pathfinding.PathsAreCovered | client/src/Model/Interface/World.cpp:846-876 | every legal path ends in a cell that was enqueued at no greater distance |
| Pathfinding.NoShorterPath | client/src/Model/Interface/World.cpp:846-876 | no legal path to the end is shorter than the distance of the cells still queued |
| Pathfinding.PathIsWay | client/src/Model/Interface/World.cpp:850-875 | replaying directions is the same as passing cells a row or a column apart |
| Pathfinding.ShortestIsDistance | client/src/Model/Interface/World.cpp:832-878 | without walls a shortest way has as many steps as the cells are apart by rows and columns |
| Utf8.GoodUnit | jsoncpp/src/lib_json/json_writer.cpp:173-222 | on well-formed characters up to U+3FFFF the lenient conversions agree with RFC 3629 |
| Utf8.EncodingIs | jsoncpp/src/lib_json/json_tool.h:36-62 | every scalar value of Unicode, beyond U+3FFFF too, is written as its one encoding of RFC 3629 |
| Utf8.LoneByteIsReplaced | jsoncpp/src/lib_json/json_writer.cpp:173-222 | a byte that begins no character, or has too few bytes behind it, is read as U+FFFD and alone used up |
| Utf8.OverlongIsReplaced | jsoncpp/src/lib_json/json_writer.cpp:173-222 | an overlong encoding or an encoded surrogate is read as one U+FFFD and used up whole |
| JsonStrings.ValueToQuotedStringN | jsoncpp/src/lib_json/json_writer.cpp:254-323 | the escaping loop produces the quoted form of any byte string |
| JsonStrings.IsAnyCharRequiredQuoting | jsoncpp/src/lib_json/json_writer.cpp:161-171 | with signed characters every non-empty string is escaped |
| JsonStrings.UnescapeOfEscape | jsoncpp/src/lib_json/json_reader.cpp:641-750 | decoding what was escaped never fails, whatever the bytes |
| JsonStrings.RecodeIsIdentity | jsoncpp/src/lib_json/json_writer.cpp:173-323 | decoding gives back the original bytes iff they are well-formed UTF-8 up to U+3FFFF |
| JsonStrings.EscapedIsSkipped | jsoncpp/src/lib_json/json_reader.cpp:450-460 | the scan for the closing quote passes over every escaped text |
| JsonStrings.QuotedReadsBack | jsoncpp/src/lib_json/json_reader.cpp:450-460 | the scan stops exactly behind the closing quote that was written, and the text between decodes |
| JsonStrings.HexReadsBack | jsoncpp/src/lib_json/json_reader.cpp:723-750 | the four digits written for a code unit are read as its low sixteen bits |
| JsonEscapes.PiecesAreRead | jsoncpp/src/lib_json/json_reader.cpp:641-750 | a string of RFC 8259 section 7 is decoded to what its pieces denote: characters, the eight short escapes, four hexadecimal digits of either case, surrogate pairs |
| JsonEscapes.DenotesOne | jsoncpp/src/lib_json/json_reader.cpp:641-750 | a piece denotes one string only |
| JsonEscapes.StringIsRead | jsoncpp/src/lib_json/json_reader.cpp:166-245 | wherever such a string stands it is one token, and is read as what it denotes |
| JsonEscapes.MakesSense | jsoncpp/src/lib_json/json_reader.cpp:641-750 | decoding fails iff the text is not made of such pieces, lone second halves and odd pairs let pass |
| JsonEscapes.QuotedIsString | jsoncpp/src/lib_json/json_writer.cpp:254-323 | whatever the bytes, what is written is a string of RFC 8259 in ASCII with nothing left unescaped that must be escaped |
| JsonEscapes.StringIsWritten | jsoncpp/src/lib_json/json_writer.cpp:254-323 | a string that survives is written code point by code point: as a short escape if it has one, as itself in printable ASCII, and else as four hexadecimal digits in lower case or a surrogate pair of them |
| JsonNumbers.UintToString | jsoncpp/src/lib_json/json_tool.h:78-84 | the digits of any 64-bit number, and a terminator, are written backwards into at most 21 places and nothing else is touched |
| JsonNumbers.ValueToString | jsoncpp/src/lib_json/json_writer.cpp:84-97 | the decimal text of any 64-bit signed integer, the least one included, fits the 25-byte buffer |
| JsonNumbers.UnsignedToString | jsoncpp/src/lib_json/json_writer.cpp:99-106 | the same for unsigned integers |
| JsonNumbers.DecodeNumber | jsoncpp/src/lib_json/json_reader.cpp:566-606 | the threshold loop yields an integer iff the text denotes one in range, every intermediate value staying in range |
| JsonNumbers.IntegerRoundTrip | jsoncpp/src/lib_json/json_writer.cpp:84-106 | every 64-bit integer is read back from its text, in the kind the reader picks |
| JsonNumbers.DecimalLength | jsoncpp/src/lib_json/json_tool.h:64-84 | a number below a power of ten has no more digits than the exponent |
| JsonNumberTexts.FixNumericLocale | jsoncpp/src/lib_json/json_tool.h:91-98 | every comma becomes a point and nothing else changes |
| JsonNumberTexts.RealToString | jsoncpp/src/lib_json/json_writer.cpp:121-157 | the text of a double is what was printed with a point for a comma, and a fraction added if neither point nor e is in it |
| JsonNumberTexts.RealTextIsNumber | jsoncpp/src/lib_json/json_writer.cpp:137-140 | that text is a number of RFC 8259 and never that of an integer |
| JsonNumberTexts.ProperInteger | jsoncpp/src/lib_json/json_reader.cpp:566-606 | a number of RFC 8259 is taken for an integer iff it has neither fraction nor exponent and is in range, and then for the one it denotes |
| JsonNumberTokens.NumberTokens | jsoncpp/src/lib_json/json_reader.cpp:428-448 | a number token stands at a position iff a sign or digit, digits, fraction and exponent stand there that cannot go on, and ends where they end |
| JsonNumberTokens.NumberHere | jsoncpp/src/lib_json/json_reader.cpp:428-448 | wherever a number of RFC 8259 section 6 stands delimited it is one number token that ends exactly behind it |
| JsonNumberTokens.IntegerIsNumber | jsoncpp/src/lib_json/json_writer.cpp:84-106 | every printed integer is a number of RFC 8259, without leading zeros |
| JsonTexts.NumberIsRead | jsoncpp/src/lib_json/json_reader.cpp:556-628 | such a number is read as the integer it denotes if it is one in range, and else as what the conversion makes of its whole text, or is the error |
| JsonWriter.FastWriter.Write | jsoncpp/src/lib_json/json_writer.cpp:346-352 | the document is the text of the value and the optional line feed |
| JsonWriter.FastWriter.WriteValue | jsoncpp/src/lib_json/json_writer.cpp:354-406 | the recursive printer appends the text of the value |
| JsonWriter.FastWriter.WriteItems | jsoncpp/src/lib_json/json_writer.cpp:382-388 | the element loop appends the texts with commas between them, holes as null |
| JsonWriter.FastWriter.WriteMembers | jsoncpp/src/lib_json/json_writer.cpp:391-403 | the member loop appends name, colon and value of every member |
| JsonWriter.BuiltStyledStreamWriter.Write | jsoncpp/src/lib_json/json_writer.cpp:908-922 | with an empty indentation the output is the text of the value |
| JsonWriter.BuiltStyledStreamWriter.WriteValue | jsoncpp/src/lib_json/json_writer.cpp:923-980 | the text goes to the stream, or to the collected child values while an array layout is being decided |
| JsonWriter.BuiltStyledStreamWriter.WriteObjectValue | jsoncpp/src/lib_json/json_writer.cpp:953-979 | an object is emitted between braces, or collected when it is empty |
| JsonWriter.BuiltStyledStreamWriter.WriteArrayValue | jsoncpp/src/lib_json/json_writer.cpp:982-1027 | both layouts of an array emit the same text |
| JsonWriter.BuiltStyledStreamWriter.IsMultilineArray | jsoncpp/src/lib_json/json_writer.cpp:1029-1054 | the trial run leaves the stream alone, and when it settles on one line it has collected every element's text |
| JsonWriter.PrintBothWays | client/src/Core/Message/Message.cpp:32-37 | both printers emit the same text, up to the ending line feed, under both comment styles |
| JsonReader.Reader.Parse | jsoncpp/src/lib_json/json_reader.cpp:125-163 | for every document and feature setting the call returns or raises, as the grammar says, with the cursor inside the document and the node stack empty below the root |
| JsonReader.Reader.ReadValue | jsoncpp/src/lib_json/json_reader.cpp:166-245 | a returning call leaves the stack at its entry height with only the top changed, as the grammar says, un-reads included |
| JsonReader.Reader.ReadObject | jsoncpp/src/lib_json/json_reader.cpp:462-516 | the member loop terminates and follows the grammar, error recovery included |
| JsonReader.Reader.ReadArray | jsoncpp/src/lib_json/json_reader.cpp:518-554 | the same for the element loop |
| JsonReader.Reader.ReadElement | jsoncpp/src/lib_json/json_reader.cpp:530-552 | a turn of the element loop ends the call as the grammar says, or goes on behind a comma |
| JsonReader.Reader.ReadMember | jsoncpp/src/lib_json/json_reader.cpp:487-512 | a turn of the member loop behind the name: colon, value, comma or end, comments in between |
| JsonReader.Reader.DecodeName | jsoncpp/src/lib_json/json_reader.cpp:477-487 | a member name is decoded, or the call ends by recovery or by the exception for numbers |
| JsonReader.Reader.ReadChild | jsoncpp/src/lib_json/json_reader.cpp:491-494 | a child is pushed, read, popped and stored under its key |
| JsonReader.Reader.ReadToken | jsoncpp/src/lib_json/json_reader.cpp:257-326 | the cursor moves to the end of the token that the lexical functions give |
| JsonReader.Reader.SkipCommentTokens | jsoncpp/src/lib_json/json_reader.cpp:247-255 | comment tokens are passed over iff comments are allowed |
| JsonReader.Reader.SkipSpaces | jsoncpp/src/lib_json/json_reader.cpp:328-336 | the cursor moves past the four kinds of space |
| JsonReader.Reader.Match | jsoncpp/src/lib_json/json_reader.cpp:338-347 | the backward comparison succeeds iff the pattern stands at the cursor, and only then moves it |
| JsonReader.Reader.ReadComment | jsoncpp/src/lib_json/json_reader.cpp:349-371 | both kinds of comment end where the lexical functions say |
| JsonReader.Reader.ReadCStyleComment | jsoncpp/src/lib_json/json_reader.cpp:403-410 | the scan ends behind the closing sign or at the end of the document |
| JsonReader.Reader.ReadCppStyleComment | jsoncpp/src/lib_json/json_reader.cpp:412-426 | the scan ends behind the line end, of either one or two characters |
| JsonReader.Reader.ReadNumber | jsoncpp/src/lib_json/json_reader.cpp:428-448 | the number scan with its look-ahead pointer stops behind digits, fraction and exponent, where the longest number that stands there ends |
| JsonReader.Reader.ReadString | jsoncpp/src/lib_json/json_reader.cpp:450-460 | the string scan stops behind the first quote that is not escaped |
| JsonReader.Reader.RecoverFromError | jsoncpp/src/lib_json/json_reader.cpp:762-773 | recovery terminates behind the token looked for or at the end, and keeps the error list |
| JsonReader.DecodeStringText | jsoncpp/src/lib_json/json_reader.cpp:641-692 | the decoding loop computes the unescaped text or fails |
| JsonReader.DecodeUnicodeCodePoint | jsoncpp/src/lib_json/json_reader.cpp:694-721 | single code units and surrogate pairs |
| JsonReader.DecodeUnicodeEscapeSequence | jsoncpp/src/lib_json/json_reader.cpp:723-750 | the digit loop reads exactly four hexadecimal digits of either case |
| JsonReader.Reader.DecodeNumber | jsoncpp/src/lib_json/json_reader.cpp:566-628 | an integer, else a double, else one error more |
| JsonReader.Reader.DecodeString | jsoncpp/src/lib_json/json_reader.cpp:641-692 | the unescaped text, or one error more |
| JsonReader.Reader.ReadNamedMember | jsoncpp/src/lib_json/json_reader.cpp:467-512 | a whole turn of the member loop: name, colon, value, comma, or the end of the object |
| JsonGrammar.ValueAccounts | jsoncpp/src/lib_json/json_reader.cpp:166-245 | reading a value succeeds iff it records no error, and else records exactly one more, about a token of the document |
| JsonGrammar.ParseAccounts | jsoncpp/src/lib_json/json_reader.cpp:125-163 | parse succeeds iff no error has been recorded, and records at most one about a token of the document and one about a strict root |
| JsonTokens.TokensAreLexemes | jsoncpp/src/lib_json/json_reader.cpp:257-460 | for every kind but errors: the text from one position to another is a token of that kind iff it has that form, for symbols, keywords, strings, numbers and the three forms of comments |
| JsonTokens.SpacesAreSkipped | jsoncpp/src/lib_json/json_reader.cpp:328-336 | a token begins at the first character that is not one of the four blanks |
| JsonTrees.TreeIsRead | jsoncpp/src/lib_json/json_reader.cpp:166-554 | tokens that spell a tree are read as what the tree means at any depth, later members replacing earlier ones, or raise iff it nests too deeply |
| JsonDocuments.JsonTextIsParsed | jsoncpp/src/lib_json/json_reader.cpp:125-606 | every text of RFC 8259, with blanks wherever they may be, is parsed as what it denotes under all feature settings; it raises iff the nesting exceeds the limit, and fails iff a strict root is no container |
| JsonDocuments.NodeIsShown | jsoncpp/src/lib_json/json_reader.cpp:257-606 | wherever such a text stands in a document its tokens spell the tree it denotes |
| JsonDocuments.NodeHasTree | jsoncpp/src/lib_json/json_reader.cpp:556-692 | every such text denotes a tree as soon as its numbers can be converted |
| JsonLanguage.SourceIsAccepted | jsoncpp/src/lib_json/json_reader.cpp:125-554 | without comments and dropped placeholders a source is accepted iff its tokens begin with a tree within the nesting limit, a container under a strict root, and then as what that means |
| JsonLanguage.DocumentIsAccepted | jsoncpp/src/lib_json/json_reader.cpp:125-554 | the same for every document in which no slash is followed by a slash or a star |
| JsonLanguage.PlaceholderIsRead | jsoncpp/src/lib_json/json_reader.cpp:219-235 | where a comma or closing bracket stands for a value, null is read and the character left iff dropped placeholders are allowed |
| JsonPrinted.TextIsJson | jsoncpp/src/lib_json/json_writer.cpp:354-406 | whatever is printed is a text of RFC 8259 with no blank but the one that may be behind a colon |
| JsonRoundTrip.RoundTrip | jsoncpp/src/lib_json/json_reader.cpp:125-628 | for every valid value whose doubles are printed as numbers the conversion turns back, any features and any delimited tail: printing and parsing gives the value, normalised; it raises iff the nesting exceeds the limit, and fails iff a strict root is no container |
| JsonRoundTrip.TextIsShown | jsoncpp/src/lib_json/json_writer.cpp:354-406 | wherever the printed text of a value stands in a document, the tokens there spell the tree of the value |
| JsonRoundTrip.NestingIsDepth | jsoncpp/src/lib_json/json_writer.cpp:354-406 | the tree of a value nests as deeply as the value, holes of arrays included |
| JsonCodec.WriteFastAndParse | jsoncpp/src/lib_json/json_writer.cpp:346-406 | the round trip through the writer and reader objects themselves |
| JsonCodec.WriteStyledAndParse | jsoncpp/src/lib_json/json_writer.cpp:908-1086 | the same through the printer the client uses |
| JsonComments.CommentHere | jsoncpp/src/lib_json/json_reader.cpp:349-426 | a comment of either kind is one token that ends exactly behind it |
| JsonComments.CommentPassed | jsoncpp/src/lib_json/json_reader.cpp:247-255 | a comment in front of a value is transparent iff comments are allowed, and the value's error otherwise |
| JsonComments.RoundTripBehindBlanks | jsoncpp/src/lib_json/json_reader.cpp:166-255 | with comments allowed the round trip holds behind any number of spaces and comments |
| JsonComments.CommentsRefused | jsoncpp/src/lib_json/json_reader.cpp:125-255 | with comments not allowed a document that begins with one is refused and the root untouched, whatever follows |
| JsonComments.CommentInEmptyArray | jsoncpp/src/lib_json/json_reader.cpp:522-536 | with comments allowed an empty array with a comment inside is refused, or read as one null, as dropped placeholders are allowed or not |
| JsonAcceptance.ParseAccepts | jsoncpp/src/lib_json/json_reader.cpp:125-554 | a document parses without error iff the grammar without error list and recovery accepts it and a strict root is a container, and then as the same value |
| JsonSplicing.DocumentIsSpliced | jsoncpp/src/lib_json/json_reader.cpp:257-460 | a comment put into a document adds one token; every token that ends before it is the same, and every token behind it is the same further on |
| JsonPlaces.ValueEffect | jsoncpp/src/lib_json/json_reader.cpp:166-554 | what a comment at a place in or behind an accepted value does: nothing, the same value from further on, another value, or a refusal |
| JsonPlaces.MembersDiverge | jsoncpp/src/lib_json/json_reader.cpp:467-512 | two objects that differ in one member alone are read to the same end, and to the same value iff a later member of that name follows |
| JsonPlaces.InsertedComment | jsoncpp/src/lib_json/json_reader.cpp:125-554 | for every accepted document, every position outside a token and every comment: the document with the comment is accepted iff the comment survives at that place, and parses to the same iff it is transparent there |
| JsonCommentCases.CommentBeforeColon | jsoncpp/src/lib_json/json_reader.cpp:487-492 | under all flags a comment in front of a colon is refused |
| JsonCommentCases.CommentBehindElement | jsoncpp/src/lib_json/json_reader.cpp:538-543 | under all flags a comment behind an element is accepted |
| JsonCommentCases.CommentHidesColon | jsoncpp/src/lib_json/json_reader.cpp:499-511 | a comment makes a refused object accepted, the token behind it taken for the comma |
| JsonReprint.SettledIsRestored | jsoncpp/src/lib_json/json_reader.cpp:596-605 | values with the reader's integer kinds, no array holes and encodable strings come back unchanged |
| JsonReprint.TextIsInjective | jsoncpp/src/lib_json/json_writer.cpp:354-406 | two such values with the same text are equal, doubles that read back included |
| JsonReprint.ValueIsOrdinary | jsoncpp/src/lib_json/json_reader.cpp:166-245 | whatever is read, even with errors, is sorted, in range, free of array holes and within the nesting limit |
| JsonReprint.ReadPrintRead | jsoncpp/src/lib_json/json_reader.cpp:125-163 | from any document: what was read, if its doubles read back, can be printed and read again, and comes back unchanged if its strings are encodable |
| JsonReprint.OtherExceptions | jsoncpp/src/lib_json/json_reader.cpp:481-485 | no exception but the nesting limit escapes from any document iff numeric member names are off |
| SparseArrays.SparseArray.Subscript | jsoncpp/src/lib_json/json_value.cpp:1001-1015 | access creates a missing element as null and pads the sequence |
| SparseArrays.SparseArray.Append | jsoncpp/src/lib_json/json_value.cpp:1148-1148 | the sequence grows by the value at its end |
| SparseArrays.SparseArray.Resize | jsoncpp/src/lib_json/json_value.cpp:983-999 | growing pads; shrinking cuts, and passes the assertion iff the new last element is present |
| SparseArrays.SparseArray.RemoveIndex | jsoncpp/src/lib_json/json_value.cpp:1205-1226 | removing a present element that is not the last is exact deletion even with holes; removing the last is exact iff the one before is present; a missing element changes nothing |
| SparseArrays.HolesShow | jsoncpp/src/lib_json/json_value.cpp:983-1226 | an array of six with holes: shrinking to three fails its assertion, and removing the last element leaves one |
| SparseArrays.DensePut | jsoncpp/src/lib_json/json_value.cpp:1001-1015 | storing at an index pads the sequence and overwrites one element |
| SparseArrays.SizeIs | jsoncpp/src/lib_json/json_value.cpp:935-957 | the size is the least bound of the indices present |
| ValueOrder.Trichotomy | jsoncpp/src/lib_json/json_value.cpp:566-617 | of two values exactly one is less, or they are the same tree |
| ValueOrder.Transitive | jsoncpp/src/lib_json/json_value.cpp:566-617 | the order is transitive through types, sizes, keys and nested values |
| ValueOrder.EqualIsIdentity | jsoncpp/src/lib_json/json_value.cpp:619-657 | the equality operator is equality of trees |
| ValueOrder.CompareAgrees | jsoncpp/src/lib_json/json_value.cpp:558-564 | compare is zero iff the values are equal, negative iff less, and antisymmetric |
| ValueOrder.TypesAscend | jsoncpp/src/lib_json/json_value.cpp:566-571 | null, integer, unsigned, double, string, boolean, array and object come in this order, whatever the values |
| ValueOrder.ScalarsAscend | jsoncpp/src/lib_json/json_value.cpp:573-580 | numbers of one kind are in the order of their values, and false is below true |
| ValueOrder.StringsAscend | jsoncpp/src/lib_json/json_value.cpp:581-599 | one string is below another iff at their first difference it ends or has the smaller byte |
| ValueOrder.StringsBehindPrefix | jsoncpp/src/lib_json/json_value.cpp:581-599 | a string is below every longer one it begins, and behind a common beginning the smaller byte decides |
| ValueOrder.SizesAscend | jsoncpp/src/lib_json/json_value.cpp:600-604 | a container with fewer entries is below one with more |
| ValueOrder.FirstDifferenceDecides | jsoncpp/src/lib_json/json_value.cpp:600-606 | of two of one size the first entry that differs decides, by its key and then by its value |
| ValueOrder.GreaterInside | jsoncpp/src/lib_json/json_value.cpp:600-606 | a greater value in the place of one entry makes a greater container |
| JsonValue.KeyTrichotomy | jsoncpp/src/lib_json/json_value.cpp:310-322 | the key order is total |
| JsonValue.BytesLessMeans | jsoncpp/src/lib_json/json_value.cpp:310-322 | names are in the order of their first difference, a beginning before the whole |
| JsonValue.KeyLessMeans | jsoncpp/src/lib_json/json_value.cpp:310-322 | indices are in the order of their numbers, names in that of their first difference |
| JsonValue.PutSorted | jsoncpp/src/lib_json/json_value.cpp:1001-1015 | storing keeps the map sorted |
| Areas.CreateArea | client/src/AI/Intersection.cpp:34-46 | the double loop collects exactly the cells of the map within the radius |
| Areas.GetCellsInAOE | client/src/Model/Interface/World.cpp:780-794 | the scan lists exactly the same cells, in row order without repetition |
| Areas.DiamondsMeet | client/src/AI/Attack.cpp:203-206 | two diamonds around cells of the map meet iff the centres are at most the sum of the radii apart |
| Planner.BlasterAttack | client/src/AI/Attack.cpp:177-267 | there is no proposal iff no enemy in sight that is still to be dealt with stands within the blast of some cell of the map in range of the hero; the groups proposed have the largest number of such enemies, capped at four, that one cell in range hits; every group of that number is proposed, every target is in range and hits its group, and the score is the worth of the group's enemies |
| Planner.NextLevel | client/src/AI/Attack.cpp:224-238 | the two inner loops produce exactly the admissible combinations |
| Planner.Levels | client/src/AI/Attack.cpp:213-242 | the loop stops at the last level that is not empty, at most the fourth |
| Planner.CollectAvailable | client/src/AI/Attack.cpp:196-207 | the filter keeps exactly the enemies in sight, not yet dealt with, and within range and blast of a throw, in order |
| Planner.BlastIsHit | client/src/AI/Attack.cpp:183-206 | a cell in range hits exactly the enemies to be dealt with within its blast |
| Planner.ProposalsAreBest | client/src/AI/Attack.cpp:213-263 | the number of members of the proposals is the largest number of those enemies one throw hits, capped at four |
| Planner.NextIsLevel | client/src/AI/Attack.cpp:221-240 | a level of all groups of one size gives the level of all groups of the next size |
| Planner.LastLevelIsBest | client/src/AI/Attack.cpp:221-242 | the last level that is not empty has the best size |
| Planner.Aim | client/src/AI/Attack.cpp:244-263 | the target is the first cell, in row order, from which the whole group is in reach, and the score is that of the group |
| Scores.AddUp | client/src/AI/Attack.cpp:246-255 | the loop over the members adds up their worth, in whatever order they come |
| Scores.MoreKillsScoreHigher | client/src/AI/Attack.cpp:246-255 | of two groups of at most four enemies with up to 500 hit points the one with more kills has the higher score |
| Scores.ScoreByHitPoints | client/src/AI/Attack.cpp:246-255 | the score counts kills, hit points killed and members hurt up, and the hit points of the hurt down |
| Scores.HitPointsDecide | client/src/AI/Attack.cpp:246-255 | of two groups with as many kills and members the one scores higher that kills more hit points and leaves fewer to the hurt |
| DamageMaps.DamageMap.AddCell | client/src/AI/Attack.cpp:51-64 | a visit counts the ability once, unless the enemy's tag collides with the damage |
| DamageMaps.DamageMap.AddEnemy | client/src/AI/Attack.cpp:72-119 | the strongest ready offensive ability that reaches a cell is added, exactly iff the tag bit is clear in the damage before and after |
| DamageMaps.ReachesIsDamages | client/src/AI/Attack.cpp:99-118 | a lobbing ability damages a cell iff some cell of the map in its range has the cell within its blast, and the ray of the sentry iff it is within 34 steps and the shot hits |
| DamageMaps.DamageMap.HitIsStrongest | client/src/AI/Attack.cpp:72-119 | what an enemy does to a cell is the power of the strongest of its offensive abilities off cooldown that damages the cell, and nothing iff there is none |
| DamageMaps.DamageMap.CreateDamageMap | client/src/AI/Attack.cpp:66-129 | wherever no enemy's tag occurs in the damage before and after it is added, the map holds the sum over the enemies; where the last enemy's tag is the first to occur it does not |
| DamageMaps.DamageMap.SmallTotalIsClean | client/src/AI/Attack.cpp:89-90 | no tag occurs where the sum stays below 1024, or below the tags of all enemies in sight |
| DamageMaps.CollidingTags | client/src/AI/Attack.cpp:66-129 | the map of two enemies that do 600 damage each does not hold 1200 |
| DamageMaps.TagCleared | client/src/AI/Attack.cpp:58-62 | the arithmetic behind it, on one cell |
| DamageMaps.FirstIsStrongest | client/src/AI/Attack.cpp:86-87 | after the descending sort the first ability that reaches is the strongest |
| Reservations.GameKeepsReservations | client/src/AI/Utils.cpp:64-155 | in every state of every game each target is reserved for its hero, so no two heroes hold the same target |
| Reservations.StepKeeps | client/src/AI/Utils.cpp:112-155 | every choice and every round of deaths keeps targets reserved |
| Reservations.WhenAChoiceLeaks | client/src/AI/Utils.cpp:86-115 | claiming the nearest eligible cell leaves a reservation without a target iff the hero had another target |
| Reservations.LeakingGame | client/src/AI/Utils.cpp:64-115 | a game of two choices, each of the nearest eligible cell, that ends with such a reservation |
| Reservations.LeakLasts | client/src/AI/Utils.cpp:145-155 | such a reservation survives all deaths and choices until its hero chooses that cell again |
| Reservations.Tables.constructor | client/src/AI/Utils.cpp:64-84 | both tables start empty |
| Reservations.Tables.ChooseTarget | client/src/AI/Utils.cpp:86-115 | the nearest eligible objective cell is claimed, the first of several, and nothing else changes; whether a reservation is left without a target is told from the tables before the call |
| Reservations.Tables.FindNearest | client/src/AI/Utils.cpp:94-108 | the loop finds the nearest eligible cell, the first of several, or that there is none |
| Reservations.Tables.MoveTowardTheZone | client/src/AI/Utils.cpp:86-143 | the direction returned is the first step of a shortest path to the claimed cell around the other heroes, and none only if there is no such path or no step to take |
| Reservations.Tables.DeadProc | client/src/AI/Utils.cpp:145-155 | no dead hero has a target afterwards, the cells they held are free, and everything else is as before |
| Reservations.ReleaseAllFrees | client/src/AI/Utils.cpp:145-155 | after any number of deaths no dead hero has a target, the cells they held are free for everyone, and all else is as before |
| EventQueues.PoppedInOrder | client/src/Core/EventQueue.cpp:14-33 | in every interleaving the popped messages are a prefix of the pushed ones, and each thread's messages leave after its earlier ones |
| EventQueues.ReturnedInOrder | client/src/Core/EventQueue.cpp:14-33 | what the calls of pop return in a run, in the order in which they return, followed by the one result still held under the mutex, is a prefix of what was pushed; no message is returned twice, nor before an earlier one of its thread |
| EventQueues.QueueIsSafe | client/src/Core/EventQueue.cpp:14-33 | the mutex is exclusive, no un-notified waiter sleeps over a message once the push has notified, the front of an empty queue is never taken, and a null result means terminating |
| EventQueues.NothingLeavesOnceClosed | client/src/Core/EventQueue.cpp:27-28 | once terminating, with no thread about to take a message, nothing leaves the queue any more |
| EventQueues.TerminateWakesUnless | client/src/Core/EventQueue.cpp:35-38 | after the notification of terminate some thread can end up asleep un-notified iff one stood between its check and its wait |
| EventQueues.LostWakeUp | client/src/Core/EventQueue.cpp:35-38 | a run from the start in which that happens |
| EventQueues.StepKeepsInv | client/src/Core/EventQueue.cpp:14-38 | every action of every thread keeps the invariant |

## Left out

- JsonRoundTrip.RoundTrip: what the C library prints for a double and the conversion of text to double are parameters; infinities and NaN are excluded by modelling doubles as reals.
- JsonDocuments.JsonTextIsParsed: a text with a number the conversion refuses, such as one too large for a double, is not covered.
- JsonLanguage.DocumentIsAccepted: documents with comments are covered by JsonAcceptance.ParseAccepts and JsonPlaces.InsertedComment, dropped placeholders by JsonLanguage.PlaceholderIsRead.
- JsonRoundTrip.TextIsShown: printers that drop null placeholders are excluded; `[null]` printed as `[]` would not come back.
- JsonStrings.IsAnyCharRequiredQuoting: plain char is signed, as on the x86 targets of the client; with unsigned characters a string of bytes above 127 only would be printed unescaped.
- JsonReader.Reader.Parse: comments are read and skipped but not kept; error messages, offsets and line numbers are not modelled, and nothing is said about the tree after an exception.
- JsonReader.Reader.ReadChild: a child is written back into its parent when popped, where the code works through a pointer into the parent.
- JsonWriter.BuiltStyledStreamWriter.Write: only an empty indentation and values without comments; both printers get the same conversion of doubles.
- SparseArrays.SparseArray.Append: index arithmetic is unbounded; the 32-bit index and the 30-bit storage of lengths are not modelled, nor is the conversion of a size difference to int in comparisons.
- ValueOrder.Trichotomy: NaN is excluded by modelling doubles as reals.
- JsonPlaces.InsertedComment: documents that are refused are not covered, as a comment can make one accepted; a position inside a token is excluded, as a comment there changes the token.
- Planner.BlasterAttack: abilities that lob, with radii that are not negative; the log lines are not modelled.
- DamageMaps.DamageMap.HitIsStrongest: ranges and areas of effect are not negative.
- DamageMaps.DamageMap.CreateDamageMap: powers are not negative and sums are unbounded integers.
- Reservations.Tables.ChooseTarget: distances are unbounded.
- EventQueues.QueueIsSafe: actions are atomic and sequentially consistent; message contents, the connection and the launching of threads are not modelled.
- Vision.GetRayCells: seen cells are recorded by position; the walk itself never meets copies of board cells other than its start.
- Vision.GetImpactCells: heroes are two sets of cells, mine and the opponent's.
- OurReader, the second reader of jsoncpp, repeats Reader with more options and is not modelled.
- StyledWriter, StyledStreamWriter, non-empty indentations and Path are not modelled.
- HealerHealFree and the planner for abilities that do not lob read uninitialised or empty data on some inputs and are not modelled.
- The bookkeeping of cooldowns and casts, message parsing, getters, the network and the viewer are not modelled.
