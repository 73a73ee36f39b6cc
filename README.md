# CloudFlareSolver challenge engine in Dafny

This project models the challenge-solving engine of `CloudFlareSolver`, a C#
client for the CloudFlare JavaScript challenge page.

When the solver is created it scans the fetched page:

- it finds the magic keyword `s,t,o,p,b,r,e,a,k,i,n,g,f,`;
- it reads the seed declaration after it, written like `a={"b":!+[]+!![]}`. This gives the object name, the member name and the starting value;
- it moves the cursor to the next occurrence of the combined identifier `a.b`;
- it extracts the `jschl_vc` and `pass` attribute values.

`Solve` then walks the chain of `a.b<op>=…;` statements:

- it normalises each statement in this order: it drops the identifier, rewrites `!+[]` and `!![]` to the unit `1`, and drops `+[]`;
- it reads the operator token from the first two characters;
- it decodes the operand, either as a count of units or as `)+(`-separated groups read digit by digit;
- it applies the operand to the accumulator;
- it stops at the first statement whose operator is not `+=`, `-=`, `*=` or `/=`;
- it adds the host name's length.

The project has five modules:

- `Strings` (`strings.dfy`) holds the .NET string primitives the code relies on, with ordinal comparison: `IndexOf`, `Replace`, `Split`, `Trim`, `Int32.ToString` and `Int32.Parse`.
- `Failures` (`failures.dfy`) has one value per exception the code can throw, and the `Result` and `Outcome` types.
- `Decoding` (`decoding.dfy`) defines what `ParseExpression`, `ParseUniqueExpression`, `ParseParenthesisExpression` and `PerformOpeartion` compute, as functions.
- `Solver` (`solver.dfy`) has the specification functions of the creation scan and of the `Solve` loop (`LoadSpec`, `Run`, `SolveSpec`). It also has the class `CloudFlareSolver`. That class keeps the source's fields: `stopBreakingIndex`, the three names, `jschlVc`, `pass`, `challengeValue`, `lastOperation` and `isLastOperationUnknown`. Its methods update the fields step by step, with the same loops, and each is proved against those functions.
- `Encoding` (`encoding.dfy`) writes statements out in the challenge's own notation. It proves that decoding gives back the token and the number. It also proves that `Solve` on a written-out chain computes the folded value plus the host length.

Each failure of the source is a thrown exception; here it is a `Failure` value returned to the caller.

## Model

| member | source | states |
|---|---|---|
| Strings.IndexOfFirst | CloudFlareSolver.cs:143 | what `IndexOf` reports is an occurrence and the first one at or after the start; when it reports none there is none |
| Strings.ReplaceConcat | CloudFlareSolver.cs:348-351 | `Replace` distributes over a concatenation that no occurrence of the pattern straddles |
| Strings.SplitJoin | CloudFlareSolver.cs:372 | joining the pieces of `Split` with the separator gives the text back |
| Strings.SplitPieces | CloudFlareSolver.cs:372 | no piece of `Split` contains the separator |
| Strings.TrimBounds | CloudFlareSolver.cs:335 | the trimmed text is a slice of the text with only blanks before and after it |
| Strings.TrimEdges | CloudFlareSolver.cs:335 | the trimmed text neither starts nor ends with a blank |
| Strings.ReplaceShorter | CloudFlareSolver.cs:348-351 | a replacement no longer than its pattern never lengthens the text |
| Strings.ReplaceChars | CloudFlareSolver.cs:348-351 | every character of a `Replace` result comes from the text or from the replacement |
| Strings.CountOnly | CloudFlareSolver.cs:405-418 | a text made of one character only counts its whole length |
| Strings.ParseNatToDecimal | CloudFlareSolver.cs:390-395 | `int.Parse` of a count's decimal string gives the count back |
| Strings.ParseDecimalConcat | CloudFlareSolver.cs:390-395 | appending digit strings shifts the value of the first by the length of the second |
| Decoding.Normalise | CloudFlareSolver.cs:348-351 | the four rewritings never lengthen the expression and add no character but the unit `1` |
| Decoding.UniqueValue | CloudFlareSolver.cs:405-418 | the unit count is at most the text's length, zero exactly when the text holds no unit, and the whole length when it holds only units |
| Decoding.GroupCounts | CloudFlareSolver.cs:372-388 | there is one unit count per `)+(` piece |
| Decoding.DigitString | CloudFlareSolver.cs:390 | the concatenated decimal strings are digits, and non-empty when there is a group |
| Decoding.Decode | CloudFlareSolver.cs:346-353 | it fails exactly when the normalised text has fewer than two characters; otherwise the token is its first two characters |
| Decoding.DigitStringValue | CloudFlareSolver.cs:370-396 | when every group has fewer than ten units, each group is one decimal digit of the operand, the first group the most significant |
| Decoding.GroupsValue | CloudFlareSolver.cs:370-396 | when every group has fewer than ten units, the operand is the groups read as decimal digits, the first the most significant; without a `)+(` separator it is the plain unit count |
| Decoding.UniqueAgreesWithGroups | CloudFlareSolver.cs:355-360 | on a text without `(`, the unit count equals the grouped reading |
| Decoding.OperandValue | CloudFlareSolver.cs:355-360 | whichever of the two paths the code takes, the operand is the grouped reading of the text; without `(` it is the unit count |
| Decoding.WideGroup | CloudFlareSolver.cs:390-395 | a group of ten units adds two digits: groups of 1 and 10 read 110, not 20 |
| Decoding.ThreeGroups | CloudFlareSolver.cs:370-396 | groups of 1, 2 and 3 units read 123 |
| Decoding.TruncDiv | CloudFlareSolver.cs:440 | C# division: the quotient's magnitude is that of the operands, and its sign is negative only when the operands' signs differ |
| Decoding.Perform | CloudFlareSolver.cs:424-447 | it fails exactly on `/=` by zero; an unknown token raises the flag and keeps the value; a known token does not raise the flag |
| Decoding.TruncDivExact | CloudFlareSolver.cs:436-440 | dividing an exact multiple gives the factor back, whatever the signs |
| Decoding.PerformInverse | CloudFlareSolver.cs:426-441 | `-=` undoes `+=`; `/=` undoes `*=` by a non-zero operand |
| Solver.NeedleLengths | CloudFlareSolver.cs:143-195 | the marker and the two needles have the 26, 23 and 19 characters the code skips |
| Solver.TerminatorEnd | CloudFlareSolver.cs:333 | the next cursor is within the page and, when not 0, past the old one |
| Solver.TerminatorEndChar | CloudFlareSolver.cs:333 | the next cursor is 0 exactly when no `;` follows; otherwise it is just past the first `;` |
| Solver.NextExpression | CloudFlareSolver.cs:331-336 | reading a statement fails exactly when the cursor is past 0 and no `;` follows |
| Solver.NextExpressionFails | CloudFlareSolver.cs:331-336 | the failure case in terms of the page's characters; a success is the trimmed slice up to and including the `;`; at 0 with no `;` it is the empty text |
| Solver.Delimited | CloudFlareSolver.cs:165-195 | a scan fails only with its two failures; a found closer lies inside the text, after the needle and the text read |
| Solver.DelimitedFound | CloudFlareSolver.cs:165-195 | a scan that succeeds read the text after the first needle up to the next closer; that text holds no closer |
| Solver.DelimitedFails | CloudFlareSolver.cs:165-195 | a scan fails for want of the needle exactly when none occurs; it fails for want of the closer only when none follows the needle |
| Solver.DelimitedCharFails | CloudFlareSolver.cs:287-319 | for a one-character needle: the scan fails for want of it exactly when it does not occur, and for want of the closer exactly when no closer follows the needle |
| Solver.Scan | CloudFlareSolver.cs:165-179 | the imperative scan computes `Delimited` |
| Solver.SeedOf | CloudFlareSolver.cs:274-321 | it fails only with one of the five missing-part failures or a too-short initial value; a parsed seed has the object name, the member name and the initial value in that order, and its value is the decoding of the initial-value text under the combined name |
| Solver.SeedOfMissingEquals | CloudFlareSolver.cs:276-281 | the seed declaration fails with the missing `=` exactly when it has no `=` |
| Solver.SeedOfFails | CloudFlareSolver.cs:287-319 | after the first `=`, the first missing part names the failure: no `"` after it, no second `"`, no `:` after the member name, no `}` after the `:` |
| Solver.SeedLayout | CloudFlareSolver.cs:274-321 | a parsed seed has the object name before the first `=` and the member name between the next two `"`; the combined name is `objectName + "." + memberName`; the seed is the decoding of the text between the next `:` and `}` |
| Solver.SeedFrom | CloudFlareSolver.cs:305-321 | the seed keeps the parts it was given and is their decoding under the combined name |
| Solver.SeedOfParts | CloudFlareSolver.cs:274-321 | once the `=` and both delimited parts are found, the seed is built from them |
| Solver.Attributes | CloudFlareSolver.cs:165-195 | the two attribute scans fail only with their four failures; on success jschl_vc and then pass lie in the page in that order |
| Solver.LoadSpec | CloudFlareSolver.cs:143-195 | creation never fails with a division by zero; on success the marker, the cursor, jschl_vc and pass lie in the page in that order |
| Solver.LoadSeedStep | CloudFlareSolver.cs:143-154 | after the marker, creation is decided by the seed statement 26 characters on |
| Solver.LoadCursorStep | CloudFlareSolver.cs:158-163 | after the seed, creation is decided by the identifier's next occurrence after the seed statement |
| Solver.SeedStage | CloudFlareSolver.cs:152-163 | a creation that succeeds read its seed and stopped at the identifier's next occurrence |
| Solver.SeedAtRead | CloudFlareSolver.cs:152-154 | a seed read after the page's start is the declaration in the trimmed statement that ends at the next `;` |
| Solver.LoadStages | CloudFlareSolver.cs:143-163 | a successful creation found the marker, read the seed 26 characters after it, and stopped at the identifier's next occurrence after the seed statement |
| Solver.LoadMarker | CloudFlareSolver.cs:143-148 | creation fails for want of the marker exactly when the page does not contain it |
| Solver.LoadLayout | CloudFlareSolver.cs:143-163 | after creation the seed statement follows the marker's first occurrence, and the cursor is at the start of the identifier's next occurrence, not past it |
| Solver.LoadAttributes | CloudFlareSolver.cs:165-195 | jschl_vc is the first such attribute from the cursor; pass is the first from jschl_vc's closing quote |
| Solver.Run | CloudFlareSolver.cs:251-260 | the loop stops with the cursor inside the page |
| Solver.RunStep | CloudFlareSolver.cs:251-260 | one pass of the loop over a statement that decodes and applies hands on to the loop after it |
| Solver.RunHalted | CloudFlareSolver.cs:251 | once the flag is up the loop does nothing |
| Solver.RunStops | CloudFlareSolver.cs:251-260 | a loop that ends without error ends on an unknown operator, with the cursor strictly advanced |
| Solver.SolveSpec | CloudFlareSolver.cs:245-265 | a failed loop is reported as it stopped; a loop that ends without error has the flag up and the host length added once to its value; started with the flag down, it ended on an unknown operator strictly past the start cursor |
| Solver.RunTruncatedResetsCursor | CloudFlareSolver.cs:333-335 | a statement without `;` stops the loop with the cursor reset to 0 |
| Solver.CloudFlareSolver.constructor | CloudFlareSolver.cs:141 | the page and host length are the inputs; every other field starts at its initial value |
| Solver.CloudFlareSolver.Load | CloudFlareSolver.cs:143-195 | the creation scan: on success the fields hold what `LoadSpec` found, on failure the outcome names the failure |
| Solver.CloudFlareSolver.LoadFrom | CloudFlareSolver.cs:152-195 | creation from the seed statement on, against `AfterSeed` |
| Solver.CloudFlareSolver.FindCursor | CloudFlareSolver.cs:158-195 | creation from the identifier search on, against `AfterCursor` |
| Solver.CloudFlareSolver.ReadSeed | CloudFlareSolver.cs:152-154 | reads the first statement and the seed in it; the cursor ends past that statement's `;` |
| Solver.CloudFlareSolver.ReadAttributes | CloudFlareSolver.cs:165-195 | the two attribute scans, against `Attributes` |
| Solver.CloudFlareSolver.Solve | CloudFlareSolver.cs:245-265 | the loop and the final addition leave the fields as `SolveSpec` says, and the outcome reports its failure |
| Solver.CloudFlareSolver.GetExpression | CloudFlareSolver.cs:331-336 | sets the cursor as `TerminatorEnd` says and returns `NextExpression` |
| Solver.CloudFlareSolver.ParseObject | CloudFlareSolver.cs:274-321 | on success records the names and the token and returns the seed; otherwise returns the failure |
| Solver.CloudFlareSolver.ParseExpression | CloudFlareSolver.cs:346-361 | returns the decoded operand and records the token; on failure the token is unchanged |
| Solver.CloudFlareSolver.ParseParenthesisExpression | CloudFlareSolver.cs:370-396 | the counting loops over `numArray` compute `GroupsValue` |
| Solver.CloudFlareSolver.ParseUniqueExpression | CloudFlareSolver.cs:405-418 | the counting loop computes the number of units |
| Solver.CloudFlareSolver.PerformOperation | CloudFlareSolver.cs:424-447 | the accumulator and the flag change as `Perform` says; a division by zero changes nothing and fails |
| Encoding.NormaliseStatement | CloudFlareSolver.cs:348-351 | the four rewritings in the code's order turn a written-out statement into its token, one `1` per unit and the `;` |
| Encoding.NormalisedShape | CloudFlareSolver.cs:353-360 | the normalised statement starts with the token, has no `(` and holds one `1` per unit |
| Encoding.DecodeStatement | CloudFlareSolver.cs:346-361 | round trip: decoding a written-out statement gives its token and number back |
| Encoding.StatementShape | CloudFlareSolver.cs:333-335 | a statement does not start blank and its only `;` is the last character |
| Encoding.ReadAt | CloudFlareSolver.cs:333-335 | terminated text at the cursor is read unchanged, and the cursor moves just past it |
| Encoding.StatementReads | CloudFlareSolver.cs:253-257 | the loop reads a statement at the cursor up to its `;`, and the text decodes to the statement's token and number |
| Encoding.ReadDecodes | CloudFlareSolver.cs:253-257 | terminated text that decodes to a value decodes to it when read from the page |
| Encoding.ChainSplit | CloudFlareSolver.cs:253-257 | in a written-out chain, the loop reads the first statement and decodes the first step; the rest of the chain starts where the cursor ends |
| Encoding.ChainHead | CloudFlareSolver.cs:251-257 | the loop's first pass over a chain applies the first step and hands on to the rest |
| Encoding.ChainNext | CloudFlareSolver.cs:251-257 | the same first pass, with the value the rest of the chain folds from |
| Encoding.ChainStep | CloudFlareSolver.cs:251-260 | where the loop over the rest of the chain stops, the loop over the whole chain stops |
| Encoding.ChainLast | CloudFlareSolver.cs:442-445 | the last, unknown operator raises the flag and discards its operand |
| Encoding.RunChain | CloudFlareSolver.cs:251-260 | the loop over a written-out chain stops right after it, with the value the steps fold to, the last token and the flag raised |
| Encoding.SolveChain | CloudFlareSolver.cs:245-265 | `Solve` on a written-out chain answers the folded value plus the host length, without failure |
| Encoding.ExampleFold | CloudFlareSolver.cs:426-447 | seed 5 with `+= 3`, `-= 1`, `*= 2` and an unknown operator folds to 14 |
| Encoding.ExampleChain | CloudFlareSolver.cs:245-265 | that chain with an eleven-character host name answers 25 |

## Left out

- Fetching the page, submitting the answer, cookies, `Main`, console output and the five-second pause are I/O and timing. The page text is a constant field given to the constructor.
- The host name comes from `new Uri(targetUrl).Host`, a library call. Its length is a `nat` given to the constructor.
- Solver.CloudFlareSolver.Load: the C# constructor both initialises the fields and scans the page. Here the constructor only initialises them, and `Load` is the scan, returning its failure instead of throwing.
- Solver.CloudFlareSolver.Load: after a failure the fields hold whatever the steps before it wrote. The contract pins them down only on success, because a C# caller never sees the object after a constructor throws.
- Solver.CloudFlareSolver.ParseObject: after a failure the names hold whatever was written before it, and the contract leaves them unspecified.
- Decoding.Perform: `challengeValue` is a 32-bit `int` in the source. Here it is an unbounded integer, and `+=`, `-=` and `*=` do not wrap around.
- Decoding.GroupsValue: `int.Parse` throws `OverflowException` on a digit string above 2^31-1. Here the digits are read as an unbounded natural number.
- Strings.IsWhiteSpace: `String.Trim` removes every Unicode white-space character. Here a fixed set of eight stands in for them: space, tab, line feed, carriage return, vertical tab, form feed, next line and no-break space.
- Strings.IndexOf: the source's `IndexOf(string)` calls compare with the current culture, so the result depends on the page text as well as the needle. The culture's comparison ignores some characters (a soft hyphen U+00AD inside `a.b` still matches `a.b`) and merges others (a combining mark after `;` stops that `;` from matching). The model compares character by character (ordinal). It agrees with the source when the page and the needle contain no character that the culture's comparison ignores or merges.
- Solver.CloudFlareSolver.Solve: it requires a created solver: a cursor inside the page and a non-empty identifier. In the source the object does not exist when creation fails.
- `GetExpression` reading from position 0 of a page without a `;`: `Substring(0, 0)` returns the empty text there instead of failing. The model follows the code. `Solver.NextExpressionFails` states the case.
- `ParseObject` reads the seed through `ParseExpression`, so creation also records the first two characters of the normalised initial-value text as the last operator: `!+[]+!![]` records `1+`. The model does the same (`Solver.CloudFlareSolver.ParseObject`).
- Encoding: the round trip is proved for statements in the challenge's canonical form. That form is the identifier, a two-character token that the rewritings cannot reach into, and units written `!+[]` then `+!![]`; zero is written `+[]`. Parenthesised operands are covered by the `Decoding` lemmas on groups, not by a written-out encoding.
