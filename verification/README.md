# Verified model of the gateway's Lua codecs, lifecycle and chart version scripts

The gateway runs Lua scripts on requests and responses. Three of them form a small pipeline: a JSON
parser and printer, a base64 codec written with bit strings, and a script that reads the `id` claim out
of a token and puts it behind a backend URL. The gateway's own executor passes a row of startup gates and
then runs the async agents and the router in one error group. Two shell scripts write the release version
into the Helm chart and read it back. This project models these parts and proves what they are for.

| file | part |
|---|---|
| `Wrappers.dfy` | optional values and results |
| `LuaText.dfy` | Lua string primitives: character classes, greedy runs, text at a position |
| `Base64.dfy`, `Base64Decode.dfy` | encoder, RFC 4648 definition, decoder on every string, laws |
| `JsonNumber.dfy`, `Json.dfy` | number lexemes; values, `json_parse` as a function and as the method with its loops |
| `JsonGrammar.dfy`, `JsonLaws.dfy` | the texts the parser accepts, as syntax trees; soundness, completeness, consequences |
| `JsonEscape.dfy`, `JsonPrinter.dfy`, `JsonRoundTrip.dfy` | `escape_str`, `kind_of`, `json_stringify`, and printing followed by parsing |
| `Jwt.dfy` | the request object and `pre_backend` |
| `Executor.dfy` | the lifecycle as a step system, safety over runs, completion |
| `ChartVersion.dfy` | both scripts, as methods over lines and as functions, with the lens laws |

How the model is read:

- Lua positions count from 1, the model's from 0. Errors are values of a `Result` or `Option`.
- A Lua table is a map over the keys compared by value, plus the list of fields whose key is itself a table.
  The empty array and the empty object are the same table, as in Lua.
- Numbers are exact reals. How the host writes a number is a parameter `Format`, which may round; the
  theorems say where rounding shows.
- The order of `pairs` is a nondeterministic choice in the printing method, and part of the value being
  printed (`Walk`) in the theorems.
- A base64 bit `'1'` is `true`.
- Methods carry the loops of the source and are proved equal to functions; the laws are about the functions.

Where the code and its documentation disagree, the model follows the code:

- The header of `json.lua` calls an input JSON; the parser accepts more. `JsonGrammar.Doc` is exactly what
  it accepts: a comma may follow the last item, any document may be a key, any character may be escaped,
  numbers may have leading zeros or a bare trailing dot, and a literal needs no end.
- `from_base64` removes white space before counting the letters but indexes the text as given;
  `WhitespaceIgnored` says exactly when that is harmless.
- `from_base64` reads each character as a pattern. So `.`, `^` and `$` are taken for the letter A instead
  of being refused, and `%`, `[` and `(` fail as malformed patterns. `DecodesWhen` says which strings
  decode, and `ForeignCharacter` when a character that is no letter is refused as invalid.
- Tokens use the base64url alphabet, which `from_base64` does not know; `UrlTokenClaim` says exactly which
  tokens still work.
- `json.null` is printed as `{}`, and a numeric key of an object comes back as a string; `Faithful` is
  exactly the set of values that survive printing and parsing.

## Model

| member | source | states |
|---|---|---|
| `Base64.ToBinary` | tests/fixtures/lua/base64.lua:14-30 | greedy subtraction writes the eight low bits; numbers below 0 show as 0, those above 255 as 255 |
| `Base64.BitsOfFrom` | tests/fixtures/lua/base64.lua:32-34 | reading a bit string as a number loses nothing: its bits are the string again |
| `Base64.ToBase64` | tests/fixtures/lua/base64.lua:37-63 | the loops over the growing bit string and text compute `Encode` of the bytes |
| `Base64.EncodeIsRfc` | tests/fixtures/lua/base64.lua:37-63 | for every byte string the bit-string encoding is the one defined on 24-bit groups in section 4 of RFC 4648, with its three endings |
| `Base64.PadToQuanta` | tests/fixtures/lua/base64.lua:46-54 | the bit count modulo 3 tells the three byte counts apart, and the zero bits added complete the last 24-bit group |
| `Base64Decode.EncodeShape` | tests/fixtures/lua/base64.lua:46-62 | four characters for every three bytes begun; letters, then exactly none, one or two `=` |
| `Base64Decode.FindLetter` | tests/fixtures/lua/base64.lua:72-79 | the table search with a letter as pattern finds that letter's own sextet |
| `Base64Decode.FromBase64` | tests/fixtures/lua/base64.lua:66-93 | on every string, with every error, the method computes `Decode` |
| `Base64Decode.RoundTrip` | tests/fixtures/lua/base64.lua:37-93 | `from_base64(to_base64(s)) == s` for every string of bytes |
| `Base64Decode.StrippedRoundTrip` | tests/fixtures/lua/base64.lua:66-93 | without its padding the encoding decodes to s when 3 divides its length, else to s and exactly one zero byte |
| `Base64.BytesBack` | tests/fixtures/lua/base64.lua:42-44 | a string of bytes is recovered from its byte values |
| `Base64Decode.KeptBits` | tests/fixtures/lua/base64.lua:62-84 | the letters that padding leaves hold the bytes and 0, 2 or 4 zero bits |
| `Base64Decode.PaddingDrops` | tests/fixtures/lua/base64.lua:86-92 | with any number of `=` behind the letters: the last byte goes for one or two of them and for no other number |
| `Base64Decode.DecodesWhen` | tests/fixtures/lua/base64.lua:66-93 | for every string: it is decoded if and only if the first characters, as many as stripping leaves, are letters, dots, carets or dollars |
| `Base64Decode.FailsAt` | tests/fixtures/lua/base64.lua:73-78 | the first other character decides on the error: malformed for `%`, `[` and `(`, else invalid |
| `Base64Decode.ForeignCharacter` | tests/fixtures/lua/base64.lua:74-78 | the first character that is no letter is refused as invalid if and only if it is none of `.^$%[(` |
| `Base64Decode.MagicReadsAsA` | tests/fixtures/lua/base64.lua:74-79 | a text that decodes does so like the text with an A for every dot, caret and dollar |
| `Base64Decode.MagicWitness` | tests/fixtures/lua/base64.lua:74-79 | `.AAA`, `^AAA` and `$AAA` are decoded, like `AAAA` |
| `Base64Decode.WhitespaceIgnored` | tests/fixtures/lua/base64.lua:67-80 | for every string: it is decoded if and only if what stripping leaves is readable and stands in front of what it removes, and then like the text without its space; where the text without space decodes, space is harmless exactly then |
| `Base64Decode.SpaceWitness` | tests/fixtures/lua/base64.lua:67-78 | a space before a letter makes the text fail, though the text without it decodes |
| `Base64Decode.UrlTextDecodes` | tests/fixtures/lua/base64.lua:11-79 | a base64url text is decoded if and only if it uses neither letter in which the alphabets differ |
| `JsonNumber.ScanSound` | tests/fixtures/lua/json.lua:93-98 | what the number pattern matches stands in the text, and a number so matched cannot be carried on by the next character |
| `JsonNumber.ScanComplete` | tests/fixtures/lua/json.lua:93-98 | every number lexeme that the next character does not carry on is matched whole |
| `JsonNumber.IntTokValue` | tests/fixtures/lua/json.lua:94-128 | the decimal text of an integer spells that integer |
| `JsonNumber.DecimalValue` | tests/fixtures/lua/json.lua:94-95 | the value of a lexeme, multiplied by ten for every digit behind the dot and for the exponent, or for its divisor when that is negative, is the signed number of its digits |
| `JsonNumber.NatTextFirst` | tests/fixtures/lua/json.lua:126-128 | decimal text has no leading zero |
| `LuaText.SpaceIs` | tests/fixtures/lua/json.lua:144 | the class `%s` is space, tab, line feed, return, vertical tab and form feed |
| `LuaText.DigitIs` | tests/fixtures/lua/json.lua:94 | the class `%d` is the ten digits |
| `JsonLaws.DelimIff` | tests/fixtures/lua/json.lua:65-74 | `skip_delim` gives a position and a flag if and only if space and the delimiter, or space before something else, end there |
| `JsonGrammar.DelimFound` | tests/fixtures/lua/json.lua:65-74 | space and the delimiter are skipped, found |
| `JsonGrammar.DelimMissing` | tests/fixtures/lua/json.lua:65-74 | before another delimiter only the space is skipped, not found |
| `JsonLaws.StringIff` | tests/fixtures/lua/json.lua:78-90 | `parse_str_val` returns a string and end if and only if plain and escaped characters that mean it stand there before a quote |
| `JsonLaws.NumberIff` | tests/fixtures/lua/json.lua:93-98 | `parse_num_val` returns a number and end if and only if there stand minus, digits, dot, digits, and a mark, sign and digits of an exponent, spelled out as texts, that the next character does not carry on, and the number is their exact value |
| `Json.Parse` | tests/fixtures/lua/json.lua:141-182 | terminates on every text; every success ends strictly behind the start and within the text; without a closer it is a value |
| `Json.JsonParse` | tests/fixtures/lua/json.lua:141-182 | the recursive method with its two loops, its position and its growing tables computes `Parse`, errors included |
| `JsonLaws.ArrayItems` | tests/fixtures/lua/json.lua:158-165 | the table built by `arr[#arr + 1] = val` has exactly the numbers 1 to n as keys, each with its own item |
| `JsonGrammar.StringComplete` | tests/fixtures/lua/json.lua:78-90 | the text of any plain and escaped characters is read as those characters |
| `JsonGrammar.Complete` | tests/fixtures/lua/json.lua:141-182 | every document, with any white space, is parsed to its meaning, up to its end and whatever follows |
| `JsonGrammar.Sound` | tests/fixtures/lua/json.lua:141-182 | whatever is parsed was the text of a document with that meaning |
| `JsonLaws.ParseIff` | tests/fixtures/lua/json.lua:141-182 | a value and end position are returned if and only if a document of the grammar stands there and means it |
| `JsonLaws.OneReading` | tests/fixtures/lua/json.lua:141-182 | the accepted language is unambiguous |
| `JsonLaws.SuffixIndependent` | tests/fixtures/lua/json.lua:78-182 | appended text changes a successful parse if and only if a number ends the old text and the next character carries it on |
| `JsonLaws.StrayZero` | tests/fixtures/lua/json.lua:141-182 | a zero byte at the end changes no successful parse and makes none succeed |
| `JsonLaws.LastMemberWins` | tests/fixtures/lua/json.lua:146-156 | of several members with one key, of any kind but a table, the last one counts |
| `JsonLaws.ObjectMeaning` | tests/fixtures/lua/json.lua:146-156 | the table of an object holds under each key the value of its last member, nothing under other keys, and every member whose key is a table, in order |
| `JsonLaws.BlankInFront` | tests/fixtures/lua/json.lua:144 | space, tab, line feed and return are skipped in front of every document |
| `JsonLaws.EscapeRead` | tests/fixtures/lua/json.lua:86-89 | `b`, `f`, `n`, `r` and `t` stand for control characters, every other escaped character for itself |
| `JsonLaws.HelperErrors` | tests/fixtures/lua/json.lua:76-98 | strings fail at the end of the text, numbers and literals at their own position |
| `JsonEscape.EscapeStr` | tests/fixtures/lua/json.lua:52-59 | the eight passes of substitution compute one simultaneous per-character map |
| `JsonEscape.CharPass` | tests/fixtures/lua/json.lua:53-57 | no pass touches what an earlier pass wrote |
| `JsonEscape.EscapeIsRfc` | tests/fixtures/lua/json.lua:52-59 | `escape_str` writes the two-character escapes of section 7 of RFC 8259 for eight characters and all others as they are |
| `JsonEscape.NothingRaw` | tests/fixtures/lua/json.lua:52-59 | no control character among the eight is left, and every quote and slash has a backslash before it |
| `JsonEscape.EscapeItemsFacts` | tests/fixtures/lua/json.lua:52-90 | undoing the escapes gives back any string |
| `JsonEscape.EscapeRoundTrip` | tests/fixtures/lua/json.lua:52-90 | `parse_str_val` on the escaped string and a quote returns the string, with any text around |
| `JsonPrinter.KindOf` | tests/fixtures/lua/json.lua:43-50 | the loop that never looks at a key answers array if and only if the keys are exactly 1 to n with n at least 1 |
| `JsonPrinter.KeyString` | tests/fixtures/lua/json.lua:124-130 | keys are printed as the texts of their documents |
| `JsonPrinter.JsonStringify` | tests/fixtures/lua/json.lua:103-137 | fails if and only if a key of an object is a table; otherwise prints the text of the value in the order that was handed out |
| `JsonPrinter.StringifyArray` | tests/fixtures/lua/json.lua:106-113 | prints all items in index order with `, ` between them |
| `JsonPrinter.StringifyObject` | tests/fixtures/lua/json.lua:114-123 | prints every field once, in any order of the keys |
| `JsonRoundTrip.WalkRoundTrip` | tests/fixtures/lua/json.lua:103-182 | a printed value means the value that was printed if and only if that value is faithful |
| `JsonRoundTrip.PrintThenParse` | tests/fixtures/lua/json.lua:103-182 | for every value, order of keys, number format and white space between tokens: parsing stops right behind the text, and returns the printed value if and only if it is faithful |
| `JsonRoundTrip.StringifyThenParse` | tests/fixtures/lua/json.lua:103-182 | the text as printed always parses whole, to the meaning of its document, and to the same value if and only if that is faithful |
| `JsonRoundTrip.IntegerFormatWrites` | tests/fixtures/lua/json.lua:126-128 | there is a host that writes every integer in decimal and every number as a lexeme |
| `JsonRoundTrip.IntegersFaithful` | tests/fixtures/lua/json.lua:103-182 | on such a host all values of strings, booleans, integers, arrays and objects without numeric keys or null survive |
| `JsonRoundTrip.NullComesBackEmpty` | tests/fixtures/lua/json.lua:139 | `json.null` is printed as `{}` and comes back as the empty table |
| `JsonRoundTrip.NumericKeyLost` | tests/fixtures/lua/json.lua:126-127 | an object with a numeric key never comes back unchanged |
| `JsonRoundTrip.NumericKeyWitness` | tests/fixtures/lua/json.lua:126-127 | the table with the one key 2 comes back with a string key |
| `JsonRoundTrip.BareMeaning` | tests/fixtures/lua/json.lua:144 | white space between tokens means nothing |
| `JsonRoundTrip.BareIff` | tests/fixtures/lua/json.lua:144 | documents agree without their white space if and only if they have the same tokens |
| `Jwt.Request.PreBackend` | tests/fixtures/lua/collection.lua:1-10 | the URL grows by the claim when every step succeeds and is unchanged otherwise, with the step that failed |
| `Jwt.HeaderClaimIff` | tests/fixtures/lua/collection.lua:1-10 | a header gives an id if and only if it has two dots, the part between the first two decodes, and what that is starts with an object whose last member named `id` is a string or number so written |
| `Jwt.NotATokenIff` | tests/fixtures/lua/collection.lua:3-5 | a header fails as no token if and only if it has fewer than two dots |
| `Jwt.ClaimIff` | tests/fixtures/lua/collection.lua:7-9 | the same for a decoded payload |
| `Jwt.NoIdClaim` | tests/fixtures/lua/collection.lua:7-9 | a payload that starts with a document fails for want of an id if and only if that is no object, has no member of that name, or its last one is neither string nor number |
| `Jwt.NoIdToken` | tests/fixtures/lua/collection.lua:1-10 | so does the token that carries it, despite the stray byte |
| `Jwt.StrayByteHarmless` | tests/fixtures/lua/collection.lua:6-9 | the byte left by an unpadded decoding never changes the claim, nor whether there is one |
| `Jwt.TokenClaim` | tests/fixtures/lua/collection.lua:1-10 | for every payload of bytes and every dot-free header part, the unpadded token gives the claim of the payload text, or none if that has none |
| `Jwt.ObjectTokenClaim` | tests/fixtures/lua/collection.lua:1-10 | end to end: a token whose payload is the text of an object, with any space before and anything behind, gives exactly its last member named `id`, if a string or a number, despite the stray byte |
| `Jwt.PrintedTokenClaim` | tests/fixtures/lua/collection.lua:1-10 | a faithful value that was printed in any key order, encoded and put into a token gives its own `id` |
| `Jwt.PaddedTokenClaim` | tests/fixtures/lua/collection.lua:1-10 | so does the padded token, error for error |
| `Jwt.UrlTokenClaim` | tests/fixtures/lua/collection.lua:1-10 | a base64url token gives a claim if and only if its payload avoids the two letters that differ and has a claim, and then that claim |
| `Jwt.UrlTokenWitness` | tests/fixtures/lua/collection.lua:1-10 | a payload with an `id` whose base64url token gives an error |
| `Jwt.ObjectClaim` | tests/fixtures/lua/collection.lua:7-9 | the claim of any object text is its last member named `id`, if a string or a number |
| `Jwt.IntegerTokenClaim` | tests/fixtures/lua/collection.lua:1-10 | an integer `id`, however the payload spells it, comes out of the token in decimal, on a host that writes integers so |
| `Executor.StepKeepsInv` | executor.go:165-286 | every step of every goroutine keeps the invariant that ties program counters, contexts, error and log |
| `Executor.TasksNeedGates` | executor.go:168-219 | in every run no task is started unless logger, Kafka, SOAP and gRPC gates passed |
| `Executor.CancelCauses` | executor.go:264-281 | until the executor returns, the tasks' context is cancelled if and only if the root was, the agents failed, or the router returned; a clean end of the agents does not cancel it |
| `Executor.ReturnsLast` | executor.go:258-286 | the executor returns only after both tasks ended, or without having started any, and nothing runs afterwards |
| `Executor.LogsTheCause` | executor.go:168-285 | a failed gate leaves exactly its own line; otherwise the log holds exactly the error that the agents returned, and nothing if they returned none or there are none |
| `Executor.SequentialOrder` | executor.go:267-282 | with SequentialStart the router is not even built before the agents' Start returned |
| `Executor.ConcurrentStart` | executor.go:272-282 | without SequentialStart there is a run in which the router serves while the agents' Start is still running |
| `Executor.CanServe` | executor.go:258-286 | every run whose last state has no trigger can be carried on, by steps that cancel nothing, until the router serves and the agents run unless they have ended without an error |
| `Executor.MayCome` | executor.go:264-286 | in every state a signal can come once, the agents can return any error or none while they run, and the router can return while it serves |
| `Executor.EveryStop` | executor.go:258-286 | for every configuration that passes its gates and every such event there is a run in which the tasks are up and it is the first event |
| `Executor.RunsEnd` | executor.go:263-286 | a budget falls with every step, so no run has more than 19 steps |
| `Executor.Completion` | executor.go:263-286 | from any reachable state the executor returns in every interleaving if and only if a gate fails or a signal, an agents' failure or a router return has come |
| `Executor.RunCompletes` | cmd/pucora-ce/main.go:37-44 | after a signal, an agents' failure or a router return, completion is inevitable from every later state of the run |
| `ChartVersion.Repository.Sync` | deploy/helm/scripts/sync-chart-version.sh:5-46 | both files are rewritten for an accepted version, none otherwise |
| `ChartVersion.Repository.Verify` | deploy/helm/scripts/verify-chart-version.sh:43-73 | succeeds if and only if all four readings agree with the expected version |
| `ChartVersion.RewriteChart` | deploy/helm/scripts/sync-chart-version.sh:29-33 | the first awk program computes `SyncChart` |
| `ChartVersion.RewriteValues` | deploy/helm/scripts/sync-chart-version.sh:37-45 | the second awk program with its flag computes `SyncValues` |
| `ChartVersion.ReadChartField` | deploy/helm/scripts/verify-chart-version.sh:16-27 | the scan with its early exit computes `ReadField` |
| `ChartVersion.ReadImageTag` | deploy/helm/scripts/verify-chart-version.sh:29-41 | the scan with its flag and early exit computes `ReadTag` |
| `ChartVersion.IsVersionIff` | deploy/helm/scripts/sync-chart-version.sh:18-21 | a version is accepted if and only if it is three digit strings with dots between them and, perhaps, a dot, hyphen or plus with letters, digits, dots or hyphens |
| `ChartVersion.StripVIs` | deploy/helm/scripts/sync-chart-version.sh:16 | one leading `v` is dropped |
| `ChartVersion.VersionChars` | deploy/helm/scripts/sync-chart-version.sh:18-21 | an accepted version is not empty and holds no blank, quote, `&` or backslash |
| `ChartVersion.ChartWritten` | deploy/helm/scripts/sync-chart-version.sh:29-33 | the text of the two lines that are written; every other line stays |
| `ChartVersion.ValuesWritten` | deploy/helm/scripts/sync-chart-version.sh:37-45 | the first tag of each image block, told from the text of the lines, becomes its indentation, `tag:` and the version in quotes; every other line and the line count stay |
| `ChartVersion.FieldsAre` | deploy/helm/scripts/verify-chart-version.sh:18-24 | the first two words of a line are its fields, whatever blanks and tabs stand between them and whatever follows |
| `ChartVersion.UnquoteIs` | deploy/helm/scripts/verify-chart-version.sh:21-22 | one quote goes on either side, where there is one |
| `ChartVersion.TagRead` | deploy/helm/scripts/verify-chart-version.sh:29-41 | the reader takes the word behind the first tag of an image block, told from the text, without its quotes |
| `ChartVersion.MakefileReads` | deploy/helm/scripts/verify-chart-version.sh:12-14 | the version is the text behind `VERSION := ` in the first line that starts so, up to the next ` := ` |
| `ChartVersion.MakefileSilent` | deploy/helm/scripts/verify-chart-version.sh:12-14 | a Makefile without such a line gives the empty string |
| `ChartVersion.ChartLens` | deploy/helm/scripts/verify-chart-version.sh:16-27 | every version is read back after its sync if and only if the first line mentioning the field does so at column 0 |
| `ChartVersion.ValuesLens` | deploy/helm/scripts/verify-chart-version.sh:29-41 | a version is read back if and only if the image block has a tag and the first one's indentation is not broken up |
| `ChartVersion.ChartSyncTwice` | deploy/helm/scripts/sync-chart-version.sh:29-33 | a second sync leaves no trace of the first |
| `ChartVersion.ValuesSyncTwice` | deploy/helm/scripts/sync-chart-version.sh:37-45 | the same for values.yaml, for every file |
| `ChartVersion.ChartUntouched` | deploy/helm/scripts/sync-chart-version.sh:30-32 | the line count stays, and a line is left alone by every version if and only if it has neither field at column 0 |
| `ChartVersion.OtherFieldsKept` | deploy/helm/scripts/sync-chart-version.sh:29-33 | the reader finds every other field of Chart.yaml as it was |
| `ChartVersion.ValuesUntouched` | deploy/helm/scripts/sync-chart-version.sh:37-45 | exactly the first tag of each image block is written, whatever other tags the file holds; every other line and the line count stay |
| `ChartVersion.TagInImageMeans` | deploy/helm/scripts/verify-chart-version.sh:29-41 | the condition of `ValuesLens`, told from the lines alone: a first tag in an image block exists and is cleanly indented |
| `ChartVersion.ReadTagMeans` | deploy/helm/scripts/verify-chart-version.sh:29-41 | the reader takes the second field of the first tag in an image block |
| `ChartVersion.SyncThenVerify` | deploy/helm/scripts/verify-chart-version.sh:43-73 | where the fields are found, verifying after a sync, with any argument or none, succeeds if and only if the Makefile names the version and so does the argument if there is one |
| `ChartVersion.SyncThenVerifyText` | deploy/helm/scripts/verify-chart-version.sh:12-73 | the same for the text of the Makefile: verifying after a sync, with no argument, the version, or `v` and the version, succeeds if and only if the first version line names it; with any other argument it fails |
| `ChartVersion.SyncThenVerifyFails` | deploy/helm/scripts/verify-chart-version.sh:43-73 | for all other files some accepted version fails to verify right after its own sync |

## Left out

- Rounding of numbers: values are reals, so overflow, `nan` and the digits that `tostring` drops appear only through the parameter `Format`.
- `json_stringify` of `nil`, functions and userdata, the wording of error messages, and aliasing or cycles between tables.
- `\u` escapes: the parser reads `\u` as `u`, and so does the model.
- Pattern errors in `string.find` follow the reference Lua 5.1; the Lua interpreter embedded in the gateway is not part of this model.
- `post_proxy`: one loop that copies paths; it would only add an easy member.
- Request headers are a map with one value per name; the host's request object is not part of this model.
- The inside of errgroup, context, the router and the agents: their published contracts are the step rules, and that a task returns once its context is cancelled is the rule `Obliged`.
- The executor's goroutines are step rules on a state value instead of imperative code, because their interleavings are the point; memory shared inside one step is not modelled.
- Metrics, plugins, usage reporting, token rejecters and DNS settings of the executor: they neither stop the startup nor touch the error group.
- Missing files, temporary files and the final newline in the chart scripts; a file is its lines, and `Sync` does not model a crash between the two replacements.
- The wording printed by the chart scripts.
- The WebSocket session of the mock backend, the readiness polling, the plugin accounting and the alias table: single loops whose properties follow from their bodies, so they would add only easy members.
- Factories for backends, proxies, handlers and encoders: they call modules that are not part of this model.
