# Verified models of the repository's algorithms

A Dafny model of the stateful and arithmetic pieces of the repository, each in its own modules, with
what they are for proved about them. Everything is stated for all inputs, all runs and all
interleavings, within the limits named under "Left out".

* **Exact decimal conversion** (`Limbs`, `Bigints`, `BigintCompare`, `BigintShift`, `BigintProduct`,
  `BigintQuotient`, `Normalise`, `Decimal`, `DigitGen`, `Dtoa`, `DecimalScan`, `NumberText`,
  `NumberPrinting`). Big integers are rows of 32-bit limbs in arrays, lowest first, with carries and
  borrows in 64-bit words. `Val` is the number a row stands for; every operation is proved against it.
  On top stand the one-correction quotient, the shared list of powers of five, digit generation, the
  scanner and the formatter. `Dtoa.Dtoa` is the multiple-precision path: its digits are the correctly
  rounded ones, and `Dtoa.ShownUnique` says that there are no others. `NumberPrinting.PrintNumber`
  carries that to the text, which parses to the rounded number. In the source a floating-point fast path
  comes first when few digits are asked for, as the JSON encoder's default of 14 does, and hands over to
  this path when it cannot decide; the fast path is not part of the model.
* **JSON** (`JsonText`, `JsonCodec`, `JsonTokens`, `JsonGrammar`, `JsonReading`, `JsonAcceptance`,
  `JsonRoundTrip`, `JsonClosure`, `JsonNumbers`, `JsonTable`, `StringBuffer`, `JsonEncoder`,
  `JsonDecoder`). A grammar of JSON texts as trees (RFC 4627 section 2), a reference encoder and decoder
  on values, and the code as it runs, appending to a growing buffer and moving a pointer. The decoder
  accepts exactly the texts of the grammar and reads them as what they stand for, and the encoder writes
  such texts, from which the round trips follow; the code as it runs computes both. The unchecked
  appends, of strings and of numbers, are shown to stay inside their buffers. Both settings of
  `decode_invalid_numbers` are modelled.
* **The quadtree** (`Quadrants`, `QuadTrees`, `AreaOfInterest`, `BorderExample`). Nodes with parent
  links on the heap, an index of objects, and a map from ids to points as the reference. The query's
  result is characterised exactly in every reachable state: its early `break` hides objects on a border
  shared with an earlier non-empty sibling, which `insert` and `erase` never produce and `update` can. The
  view of one object starts its query lower down and so misses more, in every tree: what it returns is
  characterised exactly as well.
* **Chinese chess** (`ChessRules`, `ChessMoves`, `ChessRecord`, `ChessGame`). The rules as predicates on the
  pieces, and again as a rule book by steps and by counting the pieces in the way; the game object
  with piece list, board, log and counters, whose state is the one after the moves that were made and
  not taken back.
* **The bit stream** (`BitStream`), **the byte buffer** (`PowerOfTwo`, `ByteBuffer`), **the coroutine
  scheduler** (`Coroutine`), **the thread pool** (`ThreadPool`, a step system over all interleavings),
  **packet reassembly** (`PacketStream`) and **the word filter** (`WordFilter`).

Where code and documentation part, the model follows the code: a quadtree query may miss an object on a
shared border after an update (`BorderExample.BorderMiss`), the view of one object may miss one even
without updates (`BorderExample.ViewMiss`), taking back a move replaces the record of the latest pieces
when the sides did not take turns (`ChessGame.OutOfTurn`), and the word filter drops text from which the
trie can be followed to the end (`WordFilter.LostText`); in each case the exact condition is proved.

The JSON grammar is the one the code accepts. It has more than the RFC: raw control characters in
strings, the numbers of `JsonReading.LooseNumbers`, any value as a whole text, and anything behind a zero
byte. It lacks escaped surrogates that are not one of a pair.

`Limbs` also holds the arithmetic the modules share, and `Options` the type of optional results.

## Model

| member | source | states |
|---|---|---|
| Bigints.MultAdd | lua-cjson/dtoa.c:612-667 | b·m + a in place, moved to a larger class when the carry needs a limb that is not there; no leading zero limb appears |
| Bigints.MacValue | lua-cjson/dtoa.c:636-641 | one multiply-and-carry pass over the limbs is exact: limbs and final carry together are value·m + carry in |
| Bigints.ColumnBound | lua-cjson/dtoa.c:636-641 | every column of that pass fits 64 bits, so no carry is lost |
| Bigints.Increment | lua-cjson/dtoa.c:1640-1669 | value + 1, growing the class when every limb overflows; a zero kept in no limbs has its first limb set and still counts none |
| Bigints.Bigint.Balloc | lua-cjson/dtoa.c:544-583 | a class k has room for 2^k limbs |
| BigintCompare.Cmp | lua-cjson/dtoa.c:1034-1066 | sign and zero of the result are those of the difference of the values, for trimmed operands |
| BigintCompare.Diff | lua-cjson/dtoa.c:1068-1160 | value is the absolute difference and the sign says which operand is smaller; the result is trimmed and fits its class |
| BigintCompare.SubValue | lua-cjson/dtoa.c:1114-1124 | borrowing column by column computes the difference, the final borrow included |
| BigintCompare.BorrowColumn | lua-cjson/dtoa.c:1114-1124 | taking the borrow from bit 32 of a wrapped 64-bit difference is the mathematical borrow |
| BigintShift.LShift | lua-cjson/dtoa.c:974-1032 | for a number kept in at least one limb, value·2^k in a class with room for every limb written; the result is trimmed |
| BigintShift.RShift | lua-cjson/dtoa.c:1674-1706 | value div 2^k in place, zero included |
| BigintShift.AnyOn | lua-cjson/dtoa.c:1710-1736 | true exactly when value mod 2^k is not 0 |
| BigintShift.ShlValue | lua-cjson/dtoa.c:1002-1012 | the limbs shifted left together with what is carried in are value·2^k |
| BigintShift.ShrQuotient | lua-cjson/dtoa.c:1690-1699 | the limbs shifted right are the quotient by 2^k |
| BigintProduct.Mult | lua-cjson/dtoa.c:805-913 | the product of the values, trimmed, in a class with room |
| BigintProduct.RowValue | lua-cjson/dtoa.c:846-859 | adding one limb times a number into the running product is exact, its carry included |
| BigintProduct.FourthPowerSquares | lua-cjson/dtoa.c:938-968 | squaring 5^(4·2^i) gives the next entry of the shared list |
| BigintProduct.FiveCache.Extend | lua-cjson/dtoa.c:938-968 | a missing entry is computed, the known ones stay, and entry i remains 5^(4·2^i) |
| BigintProduct.FiveCache.Pow5Mult | lua-cjson/dtoa.c:915-972 | b·5^k for every k, whatever entries the shared list already has, and the list stays correct |
| BigintProduct.FivesSplit | lua-cjson/dtoa.c:948-970 | the binary digits of k select the entries whose product is 5^(4·(k div 4)) |
| BigintQuotient.EstimateIsClose | lua-cjson/dtoa.c:2149 | for a divisor with exactly four leading zero bits and a dividend below 16 times it, the one-limb estimate is the quotient or one less |
| BigintQuotient.SubMulExact | lua-cjson/dtoa.c:2160-2190 | subtracting estimate times divisor never borrows out of the top |
| BigintQuotient.Quorem | lua-cjson/dtoa.c:2118-2241 | returns the quotient, at most 15, and leaves the remainder, trimmed, after at most one correction |
| Normalise.Hi0Bits | lua-cjson/dtoa.c:707-739 | the number of leading zero bits of a word |
| Normalise.DShift | lua-cjson/dtoa.c:2104-2117 | the shift after which the top limb has exactly four leading zero bits |
| Normalise.ShiftNormalises | lua-cjson/dtoa.c:2104-2117 | shifting by that amount does give the divisor quorem asks for |
| Decimal.RoundingUnique | lua-cjson/dtoa.c:4302-4329 | half-to-even rounding of a ratio has one result |
| DigitGen.NextQuotient | lua-cjson/dtoa.c:4284-4299 | one turn of the digit loop yields the next decimal digit and keeps ten times the remainder in step |
| DigitGen.RoundUp | lua-cjson/dtoa.c:4316-4323 | adding one in the last place: trailing nines are dropped, a row of nines becomes a single 1 one place higher |
| DigitGen.StripZeros | lua-cjson/dtoa.c:4324-4330 | trailing zeros are dropped without changing the value |
| DigitGen.Generate | lua-cjson/dtoa.c:4284-4330 | from S ≤ b < 10·S and any number of places ≥ 1: b/S correctly rounded half to even, first digit nonzero, no trailing zero, with the exponent bumped when the carry runs through |
| Dtoa.Prepare | lua-cjson/dtoa.c:3824-3841 | scaling both sides by powers of five and two and normalising the divisor keeps the quotient at v·2^be / 10^k |
| Dtoa.Align | lua-cjson/dtoa.c:4148-4158 | both sides are shifted alike so that the divisor is normalised |
| Dtoa.CheckEstimate | lua-cjson/dtoa.c:4159-4167 | an estimate of the decimal exponent that is one too high is found by one comparison and corrected |
| Dtoa.Dtoa | lua-cjson/dtoa.c:4085-4330 | the digits and exponent of v·2^be correctly rounded half to even to the requested significant digits, for every v, be and estimate that is right or one too high |
| Dtoa.LeadUnique | lua-cjson/dtoa.c:3812-3823 | a number has one leading decimal place |
| Dtoa.ShownUnique | lua-cjson/dtoa.c:4085-4330 | a number determines the digits and the exponent: there is one correct answer |
| DecimalScan.ScanInteger | lua-cjson/dtoa.c:2558-2564 | the leading digits are counted and their first sixteen kept in two words |
| DecimalScan.ScanFraction | lua-cjson/dtoa.c:2588-2626 | zeros of the fraction are held back until a later digit makes them count |
| DecimalScan.ScanExponent | lua-cjson/dtoa.c:2627-2664 | the exponent and where it ends; a letter without digits is none; magnitudes beyond 19999 are held there |
| DecimalScan.MantissaValue | lua-cjson/dtoa.c:2558-2626 | zeros dropped in front and behind only scale the number |
| DecimalScan.Scan | lua-cjson/dtoa.c:2543-2695 | behind blanks and sign, against a grammar of decimal literals: accepted exactly the literals, with the right end, significant digits, their places, and exponent |
| DecimalScan.DigitIs | lua-cjson/dtoa.c:2562 | which characters are digits, and which digits |
| DecimalScan.ScanSigned | lua-cjson/dtoa.c:2517-2695 | the same from any place in a text: blanks are skipped, one sign is read, and the sign is dropped when no number follows |
| DecimalScan.SignedStart | lua-cjson/dtoa.c:2519-2540 | behind any row of blanks and one sign or none the number starts |
| DecimalScan.S2b | lua-cjson/dtoa.c:669-705 | the big integer of the scanned digits, read from the two words and the text around the point |
| NumberText.ExponentDigits | lua-cjson/g_fmt.c:76-84 | the decimal digits of the exponent, at least two |
| NumberText.GFmt | lua-cjson/g_fmt.c:61-104 | the text of sign, digits and exponent in the layout the exponent and precision call for |
| NumberText.TextForm | lua-cjson/g_fmt.c:61-104 | the printed text, character by character: with an exponent exactly when the first digit's place is below -4 or not below the precision, and where the point stands |
| NumberText.OneText | lua-cjson/g_fmt.c:61-104 | digits, decimal place and precision leave no choice: there is one such text |
| NumberText.ParseText | lua-cjson/g_fmt.c:61-104 | every layout is one literal of the scanner's grammar, to its last character |
| NumberText.LayoutValue | lua-cjson/g_fmt.c:61-104 | in all three layouts the text denotes 0.d1…dm·10^decpt |
| NumberText.PrintedScansBack | lua-cjson/dtoa.c:2517-2695 | scanning a printed number ends at its end and gives digits and exponent of the same value, in every layout; an exponent that is printed has to be at most 19999 |
| NumberText.ZeroScansBack | lua-cjson/dtoa.c:2543-2695 | the printed zero scans as zero, to the end of its text |
| NumberText.PrintThenScan | lua-cjson/dtoa.c:669-705 | printing, scanning and s2b together: the sign comes back, and the big integer times ten to the exponent is the number that was printed; a zero comes back as zero |
| NumberText.PrintedIsShort | lua-cjson/g_fmt.c:61-104 | at most fourteen digits and an exponent of three take no more than twenty characters |
| NumberPrinting.ShownStandsFor | lua-cjson/g_fmt.c:61-104 | digits that show v·2^be, printed in whatever layout, are one literal whose value is v·2^be rounded half to even to n significant digits |
| NumberPrinting.PrintNumber | lua-cjson/g_fmt.c:39-104 | digit generation and layout as they run: the text after the sign stands for the correctly rounded number, for every number, place estimate and number of digits |
| NumberPrinting.OneRounding | lua-cjson/dtoa.c:4085-4330 | there is one such rounding |
| JsonRoundTrip.QuoteRoundTrip | lua-cjson/lua_cjson.c:467-491 | unescaping reads any byte string back from its escaped form and stops behind the quote |
| JsonRoundTrip.EscapesWhich | lua-cjson/lua_cjson.c:157-194 | escaped are exactly the quote, the backslash, the slash, the control characters and 127; five control characters by a letter, the others by four digits |
| JsonText.Utf8Decodes | lua-cjson/lua_cjson.c:787-820 | the bytes written for a code point decode to it by the table of RFC 3629 section 3 |
| JsonText.Utf8Unique | lua-cjson/lua_cjson.c:787-820 | they are the only bytes that do |
| JsonText.Hex4Is | lua-cjson/lua_cjson.c:751-783 | four hexadecimal digits, in either case, are read as the number they are written for, the highest first; there is none exactly when one of them is no such digit |
| JsonText.EscapeMeaning | lua-cjson/lua_cjson.c:831-887 | an escape is accepted exactly for four digits of a code unit outside the surrogates, or of a high and, in a second escape, a low one (RFC 2781 section 2.2), and stands for that scalar value |
| JsonText.Unquote | lua-cjson/lua_cjson.c:897-955 | a decoded string is shorter than the text it was read from |
| JsonCodec.NumberStaysInside | lua-cjson/lua_cjson.c:1008-1020 | a number token ends inside the text |
| JsonTokens.NumberInside | lua-cjson/lua_cjson.c:1008-1020 | a number text is one token wherever it stands before a delimiter |
| JsonTokens.InvalidIs | lua-cjson/lua_cjson.c:972-1006 | the number forms that only the lenient setting reads begin with a plus sign, a needless zero, a hexadecimal prefix, or inf or nan in any case |
| JsonTokens.SpaceSkipped | lua-cjson/lua_cjson.c:1031-1038 | white space in front of a token changes nothing |
| JsonReading.PartsRead | lua-cjson/lua_cjson.c:897-955 | any string of raw characters, short escapes, code units and surrogate pairs is read as the bytes these stand for |
| JsonReading.NumeralIsNumber | lua-cjson/lua_cjson.c:972-1020 | a sign, digits without a needless leading zero, a point with digits and an exponent are a number |
| JsonReading.LooseNumbers | lua-cjson/lua_cjson.c:972-1020 | two numbers that the RFC does not have |
| JsonReading.NumeralOf | lua-cjson/lua_cjson.c:972-1020 | and every number is that |
| JsonReading.FormReads | lua-cjson/lua_cjson.c:1236-1263 | the text of any tree of the grammar, white space anywhere and any escapes, is read as what it stands for wherever it stands before a delimiter, and nothing more of the text is read |
| JsonReading.GrammarReads | lua-cjson/lua_cjson.c:1265-1303 | every text of the grammar within the depth limit is accepted, under either number setting, as what it stands for |
| JsonAcceptance.ReadIsGrammar | lua-cjson/lua_cjson.c:1147-1303 | every text that is accepted as strict JSON is a text of the grammar, up to its end or an embedded zero byte, and read as what that stands for |
| JsonAcceptance.AcceptsExactly | lua-cjson/lua_cjson.c:1265-1303 | both together: the strict decoder accepts exactly the texts of the grammar within the depth limit, up to an embedded zero byte, with no zero byte among the first two, and gives what they stand for |
| JsonRoundTrip.Written | lua-cjson/lua_cjson.c:467-713 | what the encoder writes for a tree is a text of the grammar, of the same depth and without white space, that stands for the tree |
| JsonRoundTrip.ValueRoundTrip | lua-cjson/lua_cjson.c:1236-1263 | an encoded tree anywhere in a text decodes to itself and the decoder stops right behind it |
| JsonRoundTrip.RoundTrip | lua-cjson/lua_cjson.c:715-744 | decode(encode(v)) = v for every tree within the depth limit, under either number setting |
| JsonClosure.DecodedRoundTrip | lua-cjson/lua_cjson.c:1265-1303 | whatever any text that is accepted as strict JSON decodes to can be encoded within the limit and decodes to itself again, under either number setting |
| JsonClosure.LenientReadsMore | lua-cjson/lua_cjson.c:1069-1099 | the setting that lets more number forms in reads every strict text as the strict setting does |
| JsonClosure.NumberAlone | lua-cjson/lua_cjson.c:972-1020 | the text of an accepted number token is by itself a number |
| JsonClosure.SetKeyFits | lua-cjson/lua_cjson.c:1180-1181 | setting a key keeps the keys of a table apart |
| JsonGrammar.LastCounts | lua-cjson/lua_cjson.c:1180-1181 | of members with the same key the last one counts |
| JsonNumbers.PrintedIsNumber | lua-cjson/g_fmt.c:61-104 | what the number formatter prints is accepted by the decoder as one number |
| JsonNumbers.PrintedDecodes | lua-cjson/lua_cjson.c:592-626 | so it survives encoding and decoding |
| JsonNumbers.PrintedFits | lua-cjson/fpconv.h:7-8 | with its sign it is at most 21 characters, which the 32 that are reserved hold |
| JsonTable.ArrayLength | lua-cjson/lua_cjson.c:497-541 | a table is an array exactly when all keys are positive integers and its largest key is not beyond both the safe one and the ratio to the number of keys; its length is the largest key |
| JsonTable.IndexIs | lua-cjson/lua_cjson.c:505-518 | the keys of an array are the whole numbers from one on |
| JsonTable.Holes | lua-cjson/lua_cjson.c:497-541 | the length is at least the number of entries, and equal exactly when there are no holes |
| JsonTable.DenseIsNotSparse | lua-cjson/lua_cjson.c:530-538 | an array without holes is never too sparse |
| StringBuffer.Strbuf.CalculateNewSize | lua-cjson/strbuf.c:134-159 | exact when shrinking; otherwise the old size times a power of two, the least that is enough |
| StringBuffer.Strbuf.Resize | lua-cjson/strbuf.c:164-180 | the contents stay and the asked room is there |
| StringBuffer.Strbuf.AppendString | lua-cjson/strbuf.c:182-198 | appends, and does not move the buffer when the room suffices |
| StringBuffer.Strbuf.AppendMemUnsafe | lua-cjson/strbuf.h:134-138 | appends without growing; needs the room |
| StringBuffer.Strbuf.EnsureEmptyLength | lua-cjson/strbuf.h:95-99 | the room is there afterwards and the contents are unchanged |
| JsonEncoder.AppendJsonString | lua-cjson/lua_cjson.c:467-491 | reserving six bytes a character once makes all later unchecked appends safe; the quoted string is appended |
| JsonEncoder.AppendArray | lua-cjson/lua_cjson.c:570-590 | appends the array's text, or fails exactly when tables nest too deep |
| JsonEncoder.AppendObject | lua-cjson/lua_cjson.c:628-668 | the same for objects |
| JsonEncoder.AppendNumber | lua-cjson/lua_cjson.c:625-627 | 32 bytes are reserved and the text is then written without a test |
| JsonEncoder.AppendData | lua-cjson/lua_cjson.c:671-713 | succeeds exactly within the depth limit and then appends the encoding, for trees whose number texts are shorter than 32 characters |
| JsonEncoder.EncodeTree | lua-cjson/lua_cjson.c:715-744 | the text of a tree from a reused buffer |
| JsonDecoder.Parser.AppendUnicodeEscape | lua-cjson/lua_cjson.c:831-887 | appends the UTF-8 of an escape inside the buffer and steps over it |
| JsonDecoder.Parser.ReadPiece | lua-cjson/lua_cjson.c:914-948 | each turn of the string loop consumes at least what it appends, so a buffer of the text's length never overflows |
| JsonDecoder.Parser.NextStringToken | lua-cjson/lua_cjson.c:897-955 | the token is the unescaped string; the temporary buffer never moves |
| JsonDecoder.Parser.Next | lua-cjson/lua_cjson.c:1026-1103 | the next token and where it ends, under either number setting |
| JsonDecoder.Parser.ParseArray | lua-cjson/lua_cjson.c:1198-1233 | the array's value, the pointer behind it and the depth as before, or an error |
| JsonDecoder.Parser.ParseObject | lua-cjson/lua_cjson.c:1147-1195 | the same for objects |
| JsonDecoder.Parser.ProcessValue | lua-cjson/lua_cjson.c:1236-1263 | the same for any value |
| JsonDecoder.DecodeText | lua-cjson/lua_cjson.c:1265-1303 | the decoder that moves a pointer computes the reference decoder, under either number setting |
| Quadrants.QuarterSmaller | area_of_interst/quad_tree.hpp:197-214 | a child has a quarter of the area, so dividing ends |
| Quadrants.QuartersCover | area_of_interst/quad_tree.hpp:197-214 | the four closed children cover the node |
| Quadrants.InnerQuarter | area_of_interst/quad_tree.hpp:92-128 | only one child can contain a rectangle and hold a point strictly inside it |
| QuadTrees.Node.CreateSubNodes | area_of_interst/quad_tree.hpp:197-214 | four linked children, the quarters in their order, exactly when width times height is above the square of the smallest radius |
| QuadTrees.NodeSizes | area_of_interst/quad_tree.hpp:197-214 | in every tree a node with children has an area above that square and its quarters as children, and a node with objects an area not above it |
| QuadTrees.Node.Insert | area_of_interst/quad_tree.hpp:131-164 | the entry goes to the leaf that first-match descent leads to and nothing else changes; out of bounds nothing happens |
| QuadTrees.Node.SubtreeContents | area_of_interst/quad_tree.hpp:63-75 | every object of the subtree, once |
| QuadTrees.Node.Count | area_of_interst/quad_tree.hpp:51-61 | the number of objects of the subtree |
| QuadTrees.Node.Query | area_of_interst/quad_tree.hpp:77-129 | without duplicates, exactly the objects in the closed rectangle that no earlier non-empty sibling containing the rectangle hides |
| QuadTrees.LaterHidden | area_of_interst/quad_tree.hpp:99-106 | what the early break skips |
| QuadTrees.AllFound | area_of_interst/quad_tree.hpp:108-117 | a node inside the rectangle is in the result whole |
| AreaOfInterest.QuadTree.constructor | area_of_interst/quad_tree.hpp:233-238 | an empty tree that is exact |
| AreaOfInterest.QuadTree.Insert | area_of_interst/quad_tree.hpp:266-275 | the map of points gains the object unless the id is known; the invariant and exactness stay |
| AreaOfInterest.QuadTree.Update | area_of_interst/quad_tree.hpp:277-303 | the map of points is updated; where the object goes; exactness stays exactly when the search from the lowest node above the old place ends where the one from the root does, that is, when no earlier sibling on the path to that node has the new point in it |
| AreaOfInterest.HomeOnPath | area_of_interst/quad_tree.hpp:285-302 | first match from a node ends where first match from the root does exactly when no earlier sibling on the path from the root to that node has the point in it |
| AreaOfInterest.QuadTree.Erase | area_of_interst/quad_tree.hpp:348-356 | the map of points loses the object; exactness stays |
| AreaOfInterest.QuadTree.Query | area_of_interst/quad_tree.hpp:326-330 | every object strictly inside, none outside the closed rectangle, and all of the closed rectangle while the tree is exact |
| AreaOfInterest.QuadTree.QueryAround | area_of_interst/quad_tree.hpp:305-324 | the result is what a query from the lowest node at or above the object's leaf that contains the clamped rectangle finds, the root if none does; while the tree is exact, an object in that rectangle is returned exactly when no earlier sibling on the path to that node has its point in it; everything strictly inside the view and nothing outside it |
| AreaOfInterest.QuadTree.FirstFound | area_of_interst/quad_tree.hpp:315-323 | in an exact tree a query from any node that contains the rectangle finds exactly the objects in it that first match leads to that node |
| AreaOfInterest.UnderIsFirst | area_of_interst/quad_tree.hpp:150-156 | an object placed by first match is below a node exactly when no earlier sibling on the path from the root to that node has its point in it |
| AreaOfInterest.QuadTree.Count | area_of_interst/quad_tree.hpp:243-246 | the size of the map of points |
| AreaOfInterest.HomeNotHidden | area_of_interst/quad_tree.hpp:150-156 | an object placed by first match from the root is hidden from no query that contains it |
| AreaOfInterest.InnerFound | area_of_interst/quad_tree.hpp:315-323 | a query from any node containing the rectangle finds everything strictly inside it |
| AreaOfInterest.OneLeafEach | area_of_interst/quad_tree.hpp:216-223 | every object is in exactly one node: a leaf of an area not above the square of the smallest radius, whose closed bounds contain it |
| AreaOfInterest.AgreesExactlyWhen | area_of_interst/quad_tree.hpp:92-128 | all queries agree with the map of points exactly when no object lies on the border of an earlier non-empty sibling of its branch |
| BorderExample.BorderMiss | area_of_interst/quad_tree.hpp:285-302 | a run in which an update leaves an object where the query at its very point misses it |
| BorderExample.SomeBorderCase | area_of_interst/quad_tree.hpp:285-302 | the field of 64 by 64 with smallest radius 32 is such a case |
| BorderExample.ViewMiss | area_of_interst/quad_tree.hpp:305-324 | an exact tree, which no update has touched, where what the view of one object finds misses another that is in it, and what the query of the whole tree finds has it |
| BorderExample.SomeViewCase | area_of_interst/quad_tree.hpp:305-324 | the same field with a view of 32 by 32 around (48, 48) and an object at (32, 48) is such a case |
| ChessRules.StartIsSound | chess_chinese/GameLogic.cpp:56-122 | the starting position is consistent and every piece is where its kind belongs |
| ChessRecord.StartPicture | chess_chinese/GameLogic.cpp:56-122 | point by point the set-up is a drawn board |
| ChessRecord.StepsCounted | chess_chinese/GameLogic.cpp:27-31 | after any run a side's counter is the number of its moves in the log, in 16 bits |
| ChessRecord.LogTells | chess_chinese/GameLogic.cpp:241-287 | each entry of the log names the piece that was moved, from where and to where, and what was taken |
| ChessRules.MoveKeepsSound | chess_chinese/GameLogic.cpp:241-287 | any capture-respecting move keeps the pieces, keeps them on the board and apart |
| ChessRules.MoveKeepsConfined | chess_chinese/GameLogic.cpp:344-517 | a legal move leaves every piece where its kind belongs |
| ChessRules.RunConfined | chess_chinese/GameLogic.cpp:344-517 | after any run of legal moves: advisors on 5 points, elephants on 7, uncrossed soldiers on their file, generals in their palace until one is captured |
| ChessRules.UndoMove | chess_chinese/GameLogic.cpp:193-225 | taking a move back restores every piece, a captured one included |
| ChessRules.UndoExactly | chess_chinese/GameLogic.cpp:193-225 | and it does so exactly when the target was not a piece of the mover's own side |
| ChessGame.Game.ResetChessBoard | chess_chinese/GameLogic.cpp:56-122 | the starting position, its board, an empty log and zero counters |
| ChessGame.Game.UpdateChessBoard | chess_chinese/GameLogic.cpp:125-163 | board and pieces are inverse to each other again, and the latest pieces are those of the log |
| ChessGame.Game.MoveChess | chess_chinese/GameLogic.cpp:241-287 | pieces, board, log and counters after the move; the latest-piece record follows the log when the right side moves |
| ChessGame.Game.RegretChess | chess_chinese/GameLogic.cpp:181-238 | taking back any number of moves leads to the game after the moves before them |
| ChessGame.PlayFresh | chess_chinese/GameLogic.cpp:241-287 | any possible run played from a reset of a fresh object: the game after it, and the record of the latest pieces is the piece each side moved last |
| ChessGame.PlayThenRegret | chess_chinese/GameLogic.cpp:181-287 | played and partly taken back, it is the shorter run played fresh, the record of the latest pieces included exactly when each of the last two entries left names the piece that was really moved last by the side its place belongs to; so it is when these two are in turn |
| ChessGame.LatelyIsLatest | chess_chinese/GameLogic.cpp:145-160 | what the log's parity says is what each side moved last exactly when the last two entries name these pieces |
| ChessGame.LastTwoSuffice | chess_chinese/GameLogic.cpp:145-160 | which they do when they are in turn, whatever came before |
| ChessGame.PlayAndTakeBack | chess_chinese/GameLogic.cpp:181-287 | from any state of the object, any moves played and then taken back leave pieces, board, log and counters as they were, and the record of the latest pieces exactly if it was that of the log |
| ChessGame.SameRunSameGame | chess_chinese/GameLogic.cpp:181-238 | two games with the same moves behind them have the same pieces, board, log and counters |
| ChessGame.MoveUndone | chess_chinese/GameLogic.cpp:193-225 | one turn of the loop leads to the game before the move, counters included |
| ChessGame.OneBoard | chess_chinese/GameLogic.cpp:125-143 | the pieces determine the board |
| ChessGame.BoardIsAt | chess_chinese/GameLogic.cpp:125-143 | the board names the piece that stands on a point |
| ChessGame.LatelyStep | chess_chinese/GameLogic.cpp:145-160 | the record of latest pieces computed from the log follows a move of the side whose turn it is |
| ChessGame.TurnsKeepLately | chess_chinese/GameLogic.cpp:145-160 | on logs in which the sides take turns, black first, the two sources of that record agree: what the log's parity says and what each side moved last |
| ChessGame.TwoBlackMovesLegal | chess_chinese/GameLogic.cpp:344-517 | two black soldier moves in a row are legal as far as the pieces go |
| ChessGame.OutOfTurn | chess_chinese/GameLogic.cpp:145-160 | a game played from a reset by these two moves and then updated, nothing taken back: the record was the soldier moved last and no red piece, and becomes what the log's parity says, the other soldier and a red piece that never moved |
| ChessGame.Game.ObstructAnalyse | chess_chinese/GameLogic.cpp:532-551 | ends on the board and says whether something stands strictly between |
| ChessGame.Game.Emplacement | chess_chinese/GameLogic.cpp:444-467 | the cannon's scan ends and says whether exactly one piece stands between |
| ChessGame.Game.IsWalkLegality | chess_chinese/GameLogic.cpp:344-517 | the branches decide exactly the rules of each piece, in both forms |
| ChessMoves.RulesAgree | chess_chinese/GameLogic.cpp:344-517 | the moves are those of a rule book: a horse by one straight step to an empty point and one diagonally outwards, an elephant by two equal diagonal steps over an empty point, rook and cannon by the number of pieces strictly between, none, or one to take with the cannon |
| ChessGame.Game.IsChessDanger | chess_chinese/GameLogic.cpp:315-341 | true exactly when some enemy piece may go to an occupied point |
| ChessGame.Game.IsKingDanger | chess_chinese/GameLogic.cpp:300-312 | true exactly when both generals live and the own one may be taken |
| ChessGame.Game.IsGameFinish | chess_chinese/GameLogic.cpp:290-297 | true exactly when the general is captured |
| BitStream.OutputBitStream.WriteByte | MultiplayerBook/MemoryBitStream.cpp:3-34 | the low bits follow those already written, whatever the stray bits and whether the buffer grows; the capacity stays whole bytes |
| BitStream.OutputBitStream.ReallocBuffer | MultiplayerBook/MemoryBitStream.cpp:78-99 | growing keeps what was written |
| BitStream.BitPut | MultiplayerBook/MemoryBitStream.cpp:13-31 | each bit of the one or two bytes that are written |
| BitStream.OutputBitStream.WriteBits | MultiplayerBook/MemoryBitStream.cpp:36-51 | the low n bits of a row of bytes follow |
| BitStream.OutputBitStream.WriteString | MultiplayerBook/MemoryBitStream.h:69-77 | 32 bits of length, then the bytes |
| BitStream.InputBitStream.ReadByte | MultiplayerBook/MemoryBitStream.cpp:110-128 | the next n bits, and zeros above them |
| BitStream.InputBitStream.ReadBits | MultiplayerBook/MemoryBitStream.cpp:130-145 | the next n bits in the first bytes; the bytes behind them stay |
| BitStream.ReadBit | MultiplayerBook/MemoryBitStream.cpp:112-125 | each bit of what is read across a byte border |
| BitStream.ReadString | MultiplayerBook/MemoryBitStream.h:143-152 | a string that was written is read back |
| BitStream.CountRoundTrip | MultiplayerBook/MemoryBitStream.h:71-72 | a 32-bit length survives its four bytes |
| BitStream.CountBytesAre | MultiplayerBook/MemoryBitStream.h:71-72 | the length goes lowest byte first |
| BitStream.WholeBytesWritten | MultiplayerBook/MemoryBitStream.cpp:36-51 | whole bytes written to a new stream are the bytes of its buffer |
| BitStream.TwoInOneByte | MultiplayerBook/MemoryBitStream.cpp:3-34 | of two values in one byte the first has the low bits |
| BitStream.WriteThenRead | MultiplayerBook/MemoryBitStream.cpp:36-51 | any sequence of writes followed by reads of the same widths gives each value's low bits |
| BitStream.StringThroughStream | MultiplayerBook/MemoryBitStream.h:69-77 | strings go through a stream unchanged |
| Coroutine.Schedule.constructor | coroutine/coroutine.c:59-68 | no coroutine, none running, sixteen free slots |
| Coroutine.Schedule.New | coroutine/coroutine.c:84-108 | the first free slot on the way around, or the first slot of the doubled table, never the failing assertion; nobody else's id changes |
| Coroutine.Schedule.FreeSlot | coroutine/coroutine.c:95-106 | with fewer coroutines than slots the circular search ends at the first free one on its way |
| Coroutine.FoundOnTheWay | coroutine/coroutine.c:95-106 | from the slot numbered like the count upwards, and around, everything before the slot that is found is occupied |
| Coroutine.Schedule.Resume | coroutine/coroutine.c:123-152 | the stack bytes saved at the last yield are back at the top of the stack; a dead id changes nothing |
| Coroutine.Schedule.Yield | coroutine/coroutine.c:154-177 | the used part of the stack is saved and nobody is running |
| Coroutine.Schedule.Finish | coroutine/coroutine.c:110-121 | the slot is free and the count one less |
| Coroutine.Schedule.StatusOf | coroutine/coroutine.c:179-186 | running, suspended and dead as the schedule has it |
| Coroutine.RunAll | coroutine/coroutine.c:59-186 | any run of creating, entering, writing the stack, yielding and finishing is the same run on a row of slots and one stack, without the heap, which decides every id, who runs, and each byte of the stack |
| Coroutine.StaysAsleep | coroutine/coroutine.c:123-177 | nothing that others do reaches the saved stack of a suspended coroutine or gives its id away |
| Coroutine.ComesBack | coroutine/coroutine.c:123-177 | a coroutine that yields and is entered again when nobody runs finds its stack as it left it, whatever others did in between |
| Coroutine.YieldAndComeBack | coroutine/coroutine.c:123-177 | the same on a schedule: it is resumed exactly when nobody runs by then, its stack is then as it left it, and until then what it left is kept |
| Coroutine.AllOccupied | coroutine/coroutine.c:84-108 | the count equals the number of slots only when none is free |
| PowerOfTwo.OneBit | cpp_serialize/buffer.hpp:492-497 | x and x−1 share no bit exactly for powers of two |
| PowerOfTwo.SmearStep | cpp_serialize/buffer.hpp:498-502 | each step doubles the row of set bits at the top |
| PowerOfTwo.NextPow2Is | cpp_serialize/buffer.hpp:492-504 | up to 2^32 the least power of two that is large enough; beyond, still large enough |
| ByteBuffer.Buffer.CheckSpace | cpp_serialize/buffer.hpp:449-483 | room for what is needed with the contents unchanged; when it does nothing, moves down, or grows, and to what size |
| ByteBuffer.Buffer.Compact | cpp_serialize/buffer.hpp:475-481 | moving down keeps the bytes |
| ByteBuffer.Buffer.WriteBack | cpp_serialize/buffer.hpp:288-303 | appends |
| ByteBuffer.Buffer.WriteFront | cpp_serialize/buffer.hpp:305-325 | prepends into the free head, or fails unchanged exactly when that is too small |
| ByteBuffer.Buffer.Read | cpp_serialize/buffer.hpp:327-345 | takes from the front, all or nothing |
| ByteBuffer.RunAll | cpp_serialize/buffer.hpp:288-345 | any run of appends, prepends and reads on a buffer is the same run on a queue of bytes with its free head and capacity, which decides what every write and read does |
| ByteBuffer.HeadStaysFree | cpp_serialize/buffer.hpp:449-483 | at least the reserved head is free until something is put there |
| ByteBuffer.FirstInFirstOut | cpp_serialize/buffer.hpp:288-345 | without prepends, what is left after any run is an end of what was there followed by what was appended |
| ThreadPool.RunKeeps | ThreadPool/ThreadPool.h:34-96 | every interleaving keeps: tasks start in the order accepted, what started is finished or running, sleepers are covered, exits come after the stop |
| ThreadPool.CountedNext | ThreadPool/ThreadPool.h:43-56 | a step neither loses nor repeats a task |
| ThreadPool.SleepersCoveredNext | ThreadPool/ThreadPool.h:61-84 | while a worker sleeps, each queued task has an awake worker or a pending notification |
| ThreadPool.SomeoneWillLook | ThreadPool/ThreadPool.h:46-52 | a non-empty queue always has a worker that is not asleep or a pending notification |
| ThreadPool.StepsTell | ThreadPool/ThreadPool.h:65-84 | what has been accepted are the tasks of the enqueueing steps, in order; tasks are finished by steps of their own; each enqueueing announces one notification |
| ThreadPool.TasksKept | ThreadPool/ThreadPool.h:34-84 | at every moment of every run the tasks handed in are those started and those queued, in order, and each started one is finished or running |
| ThreadPool.AllExited | ThreadPool/ThreadPool.h:87-96 | when all workers have exited, every task that was handed in has run exactly once, started in the order in which they were handed in |
| ThreadPool.NoDeadlock | ThreadPool/ThreadPool.h:87-96 | after the stop some step is possible until all workers have exited |
| ThreadPool.StepsDown | ThreadPool/ThreadPool.h:87-96 | after the stop every step brings the end nearer |
| ThreadPool.ShutsDown | ThreadPool/ThreadPool.h:87-96 | so the joins of the destructor come back |
| PacketStream.Receiver.NotifyData | network_server_socket_server/network_task.cpp:191-228 | for data that fits behind the bytes held: every packet that is complete becomes an event, in order, and the buffer keeps the incomplete rest |
| PacketStream.FirstPacket | network_server_socket_server/network_task.cpp:205-206 | the length field at the front of the buffer is that of the next packet |
| PacketStream.PaddedIs | network_server_socket_server/network_task.cpp:211-215 | an event carries the packet in front of a block of fixed size |
| PacketStream.WellSizedIs | network_server_socket_server/network_oper_define.h:22-36 | the length is the second word of the header, lowest byte first, from 16 to 65535 |
| PacketStream.Receiver.TakePacket | network_server_socket_server/network_task.cpp:205-225 | one turn of the loop takes the next packet exactly when it is complete |
| PacketStream.ReceiveAll | network_server_socket_server/network_task.cpp:191-228 | however any beginning of a stream of packets is cut into chunks that fit behind what is held, the events are the packets that are complete and the buffer holds just the bytes of the incomplete one |
| PacketStream.SmallChunksFit | network_server_socket_server/network_task.cpp:191-195 | chunks of at most four times the largest packet always fit |
| WordFilter.Trie.AddWord | candlua/lua-wordfilter.c:27-44 | the word is a word now and nothing else changes |
| WordFilter.Trie.Walk | candlua/lua-wordfilter.c:98-115 | the end of the shortest word, a byte that leads nowhere, or the end of the text |
| WordFilter.Trie.HasMatch | candlua/lua-wordfilter.c:47-79 | true exactly when some added word is part of the text |
| WordFilter.Trie.DoFiltering | candlua/lua-wordfilter.c:82-122 | stars for words, nothing for a point whose walk reaches the end of the text, the byte itself otherwise |
| WordFilter.FilteredIsMasked | candlua/lua-wordfilter.c:98-117 | that is masking of the leftmost shortest words exactly when no walk ends at the end of the text |
| WordFilter.StarForWord | candlua/lua-wordfilter.c:106-110 | a word without a shorter one at its start becomes one star |
| WordFilter.NothingDropped | candlua/lua-wordfilter.c:98-117 | which is so when no end of the text begins a word |
| WordFilter.CleanText | candlua/lua-wordfilter.c:98-117 | masking leaves a text without words alone |
| WordFilter.LostText | candlua/lua-wordfilter.c:98-117 | with one longer word added, filtering its first byte drops that byte, where masking keeps it |

## Left out

- The floating-point parts of `dtoa.c` (fast paths, the correction loop of the scanner, the estimate of the decimal exponent itself), hexadecimal and NaN literals, and the shortest-digits modes: the formatter asks for a number of digits, and the estimate enters as an input that is right or one too high.
- Free lists and `Bfree`: objects are never recycled, so a number that was freed cannot be reused by mistake in the model.
- Indices, counts and exponents that C keeps in `int` are unbounded here; limbs, carries, step counters and bit-stream lengths have their width.
- Bitwise-or of words without a common bit is written as addition; shifts of words are multiplication and division by powers of two with the cut to 32 bits written out.
- Bigints.Increment: a zero kept in no limbs does not become 1, because the source sets the limb without counting it.
- Bigints.MultAdd: an empty number stays empty only when nothing is added, as the loop of the source tests at its end.
- BigintShift.LShift: needs a number kept in at least one limb; with none, the source's loops, which test at their end, still write a limb that the size class was not chosen for.
- BigintCompare.Cmp: speaks of trimmed numbers, as the source's debugging checks demand.
- DecimalScan.Scan: exponents beyond 19999 are held there, as in the source, so their text is not read back exactly.
- NumberText.PrintedScansBack: asks for a nonzero first digit, which all numbers but zero have (`NumberText.ZeroScansBack`), and, where an exponent is printed, one within the same limit.
- NumberText.PrintThenScan: asks for an exponent within the same limit where one is printed, and for the digits the generator yields: no zero in front, or the one digit of zero.
- JsonEncoder.AppendData: number texts have to be shorter than the 32 bytes the source reserves for one; `JsonNumbers.PrintedFits` says that what the formatter prints is, up to the largest precision of 14.
- JSON number values: a number is its text. Where a hexadecimal number, an infinity or a NaN ends in the lenient setting is an input of the decoder, and encoding such values (`encode_invalid_numbers`) is not modelled.
- JsonAcceptance.AcceptsExactly: speaks of the strict setting; what the lenient one accepts beyond that depends on the C library.
- JsonClosure.DecodedRoundTrip: speaks of texts accepted by the strict setting; a number form that only the lenient setting reads is printed in another form by the source, and a text of the model cannot show that.
- JSON tables with holes or with number keys written as text: `JsonTable` decides what is an array; the tree that is encoded has arrays and objects told apart already.
- Lua's stack, `luaL_error` and the stack check: an error is a failed result. `strbuf` in its linear growth mode, which ignores the requested size.
- JsonDecoder.Parser.NextStringToken: hands over a copy of the temporary buffer; that a later string would overwrite it is not captured.
- Quadtree coordinates are reals, so rounding of floats is not modelled; `min_radius` is at least 1, without which dividing does not end; `clear`, which leaves the index behind, is not modelled.
- AreaOfInterest.QuadTree.Update: the new point has to be inside the tree, as the source asserts.
- AreaOfInterest.QuadTree.Insert: the point has to be inside the tree, as the source asserts.
- AreaOfInterest.QuadTree.QueryAround: does not return everything in the closed view; what it returns is stated exactly instead, and `BorderExample.ViewMiss` is a case.
- ChessGame.Game.MoveChess: asks that the target is not a piece of the mover's own side, which every caller has checked; `ChessRules.UndoExactly` says that only then a move can be taken back. `InsertChessManual`, which writes to the log alone, is not modelled.
- ChessGame.Game.RegretChess: leaves the record of latest pieces at what the log's parity says; `ChessGame.PlayThenRegret` says when that is the right one.
- The board and the piece list are arrays of 90 and 32 cells, and a pointer to a piece is its place in the list.
- BitStream.OutputBitStream.WriteByte: widths are 1 to 8 and all bits together stay below 2^31, so that no 32-bit count wraps; quaternions and vectors are left out.
- Coroutine stacks: a coroutine's own copy is a sequence of bytes; the used depth at a yield is an input, and the machine context is not modelled. Entering while another coroutine runs, or an id that is out of range, which the source asserts not to happen, does nothing in a run.
- Byte buffer: the copy that moves bytes down is taken to handle overlap; seeking, flags and iterators are left out; sizes are unbounded.
- ByteBuffer.Buffer.constructor: the reserved head has to fit the buffer on the stack, which the source asserts when space is first asked for.
- Thread pool: the mutex makes each locked section one step; futures and exceptions of tasks are left out.
- PacketStream.Receiver.NotifyData: data that does not fit behind the bytes held is excluded: the source copies it without a test, and the reader below doubles its read size without limit, so that such data is written past the end of the buffer.
- PacketStream.ReceiveAll: the same for each chunk; `PacketStream.SmallChunksFit` gives a size that is always safe.
- Packets: the stream consists of packets whose length field is right, between the header's and the largest size; a wrong length makes the source read or loop without bound.
- Word filter: copying and freeing a trie; a null trie.
