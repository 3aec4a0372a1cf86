# Segment destination actions: SingleStore insert builder and StackAdapt helpers

This project models three small pieces of the Segment action destinations and proves properties about them in Dafny.

- **SingleStore `send`** (`singlestore_send.dfy`). One batch of event payloads becomes one parameterised multi-row statement, ``INSERT INTO `<table>` (<11 columns>) VALUES (?, …), …``. A flat positional argument list goes with it, filled payload by payload and column by column. Absent optional fields become `null`. The timestamp is passed through ISO text with its first `T` replaced by a space and its first `Z` removed. The endpoint's answer is then decided: a body whose `ok` is the boolean `false` raises a 400 `Bad Request` `IntegrationError`, and any other body is returned unchanged. The argument loop is a method with a loop invariant. The statement text and the response check are functions.
- **StackAdapt `stringifyJsonWithEscapedQuotes`** (`graphql_encoding.dfy`). It starts from the JSON text of a value. A global, left-to-right regex replace turns every `"type":"V"` (V non-empty and quote-free) into `"type":` followed by V upper-cased. Every remaining `"` is then escaped as `\"`. The regex replace is modelled as a scan that cuts the text into matches and copied characters. A lemma shows that this cut is the only one satisfying the regex's left-to-right, non-overlapping rule.
- **StackAdapt `advertiserIdFieldImplementation`** (`advertiser_lookup.dfy`). It keeps the advertiser nodes whose scopes include `WRITE`, maps each to `{value: id, label: name}` and sorts by label. On any failure it answers with no choices, an empty `nextPage` and an error whose message and code default to `Unknown error`.

`strings.dfy` holds the JavaScript string operations the three pieces use:

- `String.prototype.replace` with a one-character string pattern, which changes only the first occurrence;
- `Array.prototype.join`;
- character counting.

`wrappers.dfy` holds `Option`.

The following are parameters rather than modelled code:

- the HTTP request client, as `exec` on `Send`;
- `new Date(t).toISOString()`, as `isoOf`;
- `localeCompare`, as a comparator `le`, read as `a.localeCompare(b) <= 0`.

For the advertiser lookup, the outcome of the GraphQL request is an input value (`LookupResult`).

## Model

| member | source | states |
|---|---|---|
| SingleStoreSend.ColumnsHaveFixedCount | packages/destination-actions/src/destinations/singlestore/send/utils.ts:12-24 | The column list has exactly eleven names. |
| SingleStoreSend.TextOrNull | packages/destination-actions/src/destinations/singlestore/send/utils.ts:41-47 | The definition of `value ?? null` for a string field: the text when present, `null` when null or undefined. Stated per column by `RowColumns`. |
| SingleStoreSend.DocOrNull | packages/destination-actions/src/destinations/singlestore/send/utils.ts:43-48 | The definition of `value ?? null` for an object field. Stated per column by `RowColumns`. |
| SingleStoreSend.Row | packages/destination-actions/src/destinations/singlestore/send/utils.ts:37-49 | One payload contributes exactly eleven values. |
| SingleStoreSend.RowColumns | packages/destination-actions/src/destinations/singlestore/send/utils.ts:38-48 | Columns 0-2 carry the message id, the converted timestamp and the type. Each optional column is `null` exactly when its field is null or undefined, and otherwise carries the value unchanged. |
| SingleStoreSend.ArgsOf | packages/destination-actions/src/destinations/singlestore/send/utils.ts:35-50 | The definition of the argument list as the rows of the payloads in order. Its layout is `ArgsOfLayout`, and the loop `BuildArgs` is proved equal to it. |
| SingleStoreSend.ArgsOfLayout | packages/destination-actions/src/destinations/singlestore/send/utils.ts:35-50 | The argument list has length 11 × payload count. Position 11·i + j holds column j of payload i, so payloads keep their order. |
| SingleStoreSend.BuildArgs | packages/destination-actions/src/destinations/singlestore/send/utils.ts:35-50 | The push loop returns exactly the row-by-row argument list. It has length 11 × payload count, with column j of payload i at 11·i + j; an empty batch gives an empty list. |
| SingleStoreSend.PlaceholderGroup | packages/destination-actions/src/destinations/singlestore/send/utils.ts:26 | The definition of one group: `(` + one `?` per column joined by `, ` + `)`. Its counts are `PlaceholderGroupCounts`. |
| SingleStoreSend.ValuesClause | packages/destination-actions/src/destinations/singlestore/send/utils.ts:26 | The definition of the clause: one group per payload joined by `, `. Its growth and counts are the next two rows. |
| SingleStoreSend.PlaceholderGroupCounts | packages/destination-actions/src/destinations/singlestore/send/utils.ts:26 | A group holds one `?` per column and exactly one `(`. It starts with `(` and ends with `)`. |
| SingleStoreSend.ValuesClauseGrowth | packages/destination-actions/src/destinations/singlestore/send/utils.ts:26 | An empty batch gives an empty VALUES clause. Each further payload appends `, ` and one group, or just the group when it is the first. |
| SingleStoreSend.ValuesClauseCounts | packages/destination-actions/src/destinations/singlestore/send/utils.ts:26 | The clause holds n × column count placeholders and exactly n groups, one `(` per group. |
| SingleStoreSend.ColumnNamesHaveNoPlaceholder | packages/destination-actions/src/destinations/singlestore/send/utils.ts:12-24 | No column name contains `?`. |
| SingleStoreSend.ColumnsTextPlaceholders | packages/destination-actions/src/destinations/singlestore/send/utils.ts:28 | The column-list part of the statement contributes no placeholder when no column name has one. |
| SingleStoreSend.Statement | packages/destination-actions/src/destinations/singlestore/send/utils.ts:28 | The definition of the statement template over any column list. Its placeholder count and table-name reading are stated below. |
| SingleStoreSend.InsertSql | packages/destination-actions/src/destinations/singlestore/send/utils.ts:12-28 | The statement over the eleven fixed columns. Its placeholders match the arguments (`PlaceholdersMatchArgs`) and it reads back its table name (`TableNameRoundTrip`). |
| SingleStoreSend.StatementPieces | packages/destination-actions/src/destinations/singlestore/send/utils.ts:28 | The statement is ``INSERT INTO ` `` + table name + column list + `) VALUES ` + clause, with the table name spliced in verbatim. |
| SingleStoreSend.KeywordsHaveNoPlaceholder | packages/destination-actions/src/destinations/singlestore/send/utils.ts:28 | The fixed statement head contains no `?`. |
| SingleStoreSend.StatementPlaceholders | packages/destination-actions/src/destinations/singlestore/send/utils.ts:26-28 | For any table name and column names without `?`, the statement holds n × column count placeholders. |
| SingleStoreSend.PlaceholdersMatchArgs | packages/destination-actions/src/destinations/singlestore/send/utils.ts:26-50 | If the table name has no `?`, the number of `?` in the SQL equals the length of the argument list. |
| SingleStoreSend.StatementSplit | packages/destination-actions/src/destinations/singlestore/send/utils.ts:28 | The statement is the head, the table name, a backtick, and the rest of the text, which does not depend on the name. |
| SingleStoreSend.TableNameOfReadsUpToBacktick | packages/destination-actions/src/destinations/singlestore/send/utils.ts:28 | Reading the identifier after ``INSERT INTO ` `` stops at the first backtick. |
| SingleStoreSend.TableNameRoundTrip | packages/destination-actions/src/destinations/singlestore/send/utils.ts:28 | A table name without a backtick is read back from the statement unchanged. |
| SingleStoreSend.TableNameWithBacktickIsCut | packages/destination-actions/src/destinations/singlestore/send/utils.ts:28 | The name is not escaped: with the table name ``a`b`` the quoted identifier of the statement is `a`. |
| SingleStoreSend.ToUtcDateTime | packages/destination-actions/src/destinations/singlestore/send/utils.ts:30-33 | The definition: the ISO text with `replace('T', ' ')` then `replace('Z', '')`. Its properties are the next four rows. |
| SingleStoreSend.ToUtcDateTimeEdits | packages/destination-actions/src/destinations/singlestore/send/utils.ts:32 | For any text: the result is one character shorter exactly when the text has a `Z`. It holds the input's characters in order, with the first `Z` skipped and the first `T` read as a space. |
| SingleStoreSend.ToUtcDateTimeShape | packages/destination-actions/src/destinations/singlestore/send/utils.ts:30-33 | On `date T time Z rest`, with no `T` or `Z` before the first `T` and no `Z` before the first `Z`, the result is `date` + space + `time` + `rest`. Only the first `T` and the first `Z` change, and the length drops by exactly one. |
| SingleStoreSend.ToUtcDateTimeIdentity | packages/destination-actions/src/destinations/singlestore/send/utils.ts:32 | Text with no `T` and no `Z` is unchanged. |
| SingleStoreSend.ToUtcDateTimeExample | packages/destination-actions/src/destinations/singlestore/send/utils.ts:30-33 | `2024-01-15T10:30:00.000Z` becomes `2024-01-15 10:30:00.000`. |
| SingleStoreSend.ErrorText | packages/destination-actions/src/destinations/singlestore/send/utils.ts:70 | The definition of the logical-or default `'Unknown error'` for the response's `error`: a missing or empty message is replaced. Stated by `DecideMessage`. |
| SingleStoreSend.Decide | packages/destination-actions/src/destinations/singlestore/send/utils.ts:68-72 | It raises exactly when `ok` is the boolean `false`. The error then has status 400, code `Bad Request` and message `Failed to insert data: ` + (the error text, or `Unknown error` when it is missing or empty). Otherwise the body is returned unchanged. |
| SingleStoreSend.DecideMessage | packages/destination-actions/src/destinations/singlestore/send/utils.ts:69-70 | The raised message is the 23-character prefix followed by the remote message when there is a non-empty one, and by `Unknown error` otherwise. A non-boolean `ok` never raises. |
| SingleStoreSend.DecideExample | packages/destination-actions/src/destinations/singlestore/send/utils.ts:68-72 | `{ok: false, error: "table not found"}` raises `Failed to insert data: table not found` with code `Bad Request` and status 400. |
| SingleStoreSend.Send | packages/destination-actions/src/destinations/singlestore/send/utils.ts:7-73 | The request carries the INSERT text for the table and batch size, the database name and the row-by-row arguments. The outcome is decided from the response body alone. |
| Strings.Count | packages/destination-actions/src/destinations/singlestore/send/utils.ts:26-28 | The number of occurrences of a character, at most the text length. |
| Strings.CountAppend | packages/destination-actions/src/destinations/singlestore/send/utils.ts:26-28 | Character counts add up over concatenation. |
| Strings.CountPieces | packages/destination-actions/src/destinations/singlestore/send/utils.ts:28 | The character count of a four-part text is the sum of the parts' counts. |
| Strings.CountZero | packages/destination-actions/src/destinations/singlestore/send/utils.ts:26-28 | A character that does not occur counts zero. |
| Strings.FirstIndex | packages/destination-actions/src/destinations/singlestore/send/utils.ts:32 | The result is the position of the first occurrence (nothing before it matches), or the length when the character is absent. |
| Strings.FirstIndexSkip | packages/destination-actions/src/destinations/singlestore/send/utils.ts:32 | A prefix without the character shifts the first occurrence by its length. |
| Strings.ReplaceFirst | packages/destination-actions/src/destinations/singlestore/send/utils.ts:32 | Keeps the length. The definition of `replace` with a one-character string pattern; its per-position meaning is `ReplaceFirstAt`. |
| Strings.ReplaceFirstKeepsIndex | packages/destination-actions/src/destinations/singlestore/send/utils.ts:32 | Replacing the first `T` by a space leaves the first `Z` where it was. |
| Strings.ReplaceFirstAt | packages/destination-actions/src/destinations/singlestore/send/utils.ts:32 | `replace('T', ' ')` changes only the position of the first `T` and keeps every other character. |
| Strings.ReplaceFirstSkip | packages/destination-actions/src/destinations/singlestore/send/utils.ts:32 | A prefix without the pattern character is kept and the replacement happens after it. |
| Strings.RemoveFirst | packages/destination-actions/src/destinations/singlestore/send/utils.ts:32 | The definition of `replace(c, '')` for one character; its meaning is `RemoveFirstSplits`. |
| Strings.RemoveFirstSplits | packages/destination-actions/src/destinations/singlestore/send/utils.ts:32 | `replace('Z', '')` deletes exactly the first `Z`, as the text before and after it, or leaves text without `Z` unchanged. |
| Strings.RemoveFirstSkip | packages/destination-actions/src/destinations/singlestore/send/utils.ts:32 | A prefix without the character is kept and the deletion happens after it. |
| Strings.Join | packages/destination-actions/src/destinations/singlestore/send/utils.ts:26-28 | The definition of `Array.prototype.join`. Its append step and counts are the next rows. |
| Strings.JoinAbsent | packages/destination-actions/src/destinations/singlestore/send/utils.ts:28 | A character missing from all parts and from the separator is missing from the joined text. |
| Strings.JoinSnoc | packages/destination-actions/src/destinations/singlestore/send/utils.ts:26 | Joining one more part appends the separator and that part, or gives the part alone for a one-element list. |
| Strings.Copies | packages/destination-actions/src/destinations/singlestore/send/utils.ts:26 | `xs.map(() => part)` gives n copies of part. |
| Strings.CountJoinCopies | packages/destination-actions/src/destinations/singlestore/send/utils.ts:26 | Joining n copies counts n × the part's count plus (n − 1) × the separator's count. |
| GraphQLEncoding.UpperChar | packages/destination-actions/src/destinations/stackadapt-audiences/functions.ts:80 | The definition of upper-casing one character, for ASCII letters. |
| GraphQLEncoding.UpperCase | packages/destination-actions/src/destinations/stackadapt-audiences/functions.ts:80 | Upper-casing keeps the length and maps each character on its own. |
| GraphQLEncoding.UpperCaseKeepsQuotes | packages/destination-actions/src/destinations/stackadapt-audiences/functions.ts:80 | Upper-casing neither adds nor removes quotes. |
| GraphQLEncoding.ValueLength | packages/destination-actions/src/destinations/stackadapt-audiences/functions.ts:79 | The definition of the length of the run `[^"]+` after `"type":"`, up to the next quote. |
| GraphQLEncoding.MatchAt | packages/destination-actions/src/destinations/stackadapt-audiences/functions.ts:79 | The definition of the pattern matching at the start of a text: `"type":"`, one or more non-quotes, a closing quote. |
| GraphQLEncoding.Rewritten | packages/destination-actions/src/destinations/stackadapt-audiences/functions.ts:79-80 | The definition of the replacement applied to a cut: `"type":` + upper-case value per match, other characters kept. |
| GraphQLEncoding.Scan | packages/destination-actions/src/destinations/stackadapt-audiences/functions.ts:79 | The scan cuts its input into pieces that put it back together exactly. The cut is canonical: every match has a non-empty, quote-free value, and a character is copied only where the pattern does not match. |
| GraphQLEncoding.ScanUnique | packages/destination-actions/src/destinations/stackadapt-audiences/functions.ts:79 | Every canonical cut of a text is the scan's cut. The matches are therefore exactly the left-to-right, non-overlapping ones. |
| GraphQLEncoding.UnquoteTypes | packages/destination-actions/src/destinations/stackadapt-audiences/functions.ts:79-80 | The definition of the global replace as the rewrite of the scan's cut. Its meaning is stated by `ScanUnique`, `RewriteBySegments` and the quote counts. |
| GraphQLEncoding.RewriteBySegments | packages/destination-actions/src/destinations/stackadapt-audiences/functions.ts:79-80 | On any canonically cut text, each `"type":"V"` becomes `"type":` + upper-case V and every character outside the matches is kept. |
| GraphQLEncoding.NoMatchIsIdentity | packages/destination-actions/src/destinations/stackadapt-audiences/functions.ts:79-80 | With no match at any position the rewrite is the identity. |
| GraphQLEncoding.LitStep | packages/destination-actions/src/destinations/stackadapt-audiences/functions.ts:79 | Where the pattern does not match, the first character is copied and the rewrite continues after it. |
| GraphQLEncoding.EmptyValueNotRewritten | packages/destination-actions/src/destinations/stackadapt-audiences/functions.ts:79 | `"type":""` is no match: the scan copies its opening quote literally and goes on one character later. |
| GraphQLEncoding.RewriteQuoteCount | packages/destination-actions/src/destinations/stackadapt-audiences/functions.ts:79-80 | Each match removes exactly two quotes. |
| GraphQLEncoding.KeyQuoteCounts | packages/destination-actions/src/destinations/stackadapt-audiences/functions.ts:79-80 | `"type":"` holds three quotes and `"type":` two. |
| GraphQLEncoding.UnquoteTypesQuoteCount | packages/destination-actions/src/destinations/stackadapt-audiences/functions.ts:79-80 | The quotes after the rewrite are the quotes before it minus twice the number of matches. |
| GraphQLEncoding.EscapeQuotes | packages/destination-actions/src/destinations/stackadapt-audiences/functions.ts:83 | The definition of `replace(/"/g, '\\"')`. Its length, counts and inverse are the next rows. |
| GraphQLEncoding.Unescape | packages/destination-actions/src/destinations/stackadapt-audiences/functions.ts:83 | The inverse of the escape, deleting the backslash before each quote; proved by `UnescapeEscapeQuotes`. |
| GraphQLEncoding.EscapeHead | packages/destination-actions/src/destinations/stackadapt-audiences/functions.ts:83 | Escaped text never starts with a bare quote. |
| GraphQLEncoding.EscapeLength | packages/destination-actions/src/destinations/stackadapt-audiences/functions.ts:83 | The escaped length is the input length plus its number of quotes. |
| GraphQLEncoding.EscapedQuotesArePreceded | packages/destination-actions/src/destinations/stackadapt-audiences/functions.ts:83 | Every quote of the escaped text comes right after a backslash. |
| GraphQLEncoding.EscapeCounts | packages/destination-actions/src/destinations/stackadapt-audiences/functions.ts:83 | Escaping adds one backslash per quote and changes no other character count. |
| GraphQLEncoding.UnescapeEscapeQuotes | packages/destination-actions/src/destinations/stackadapt-audiences/functions.ts:83 | Deleting the backslash before each quote recovers the input exactly. |
| GraphQLEncoding.EscapeWithoutQuotes | packages/destination-actions/src/destinations/stackadapt-audiences/functions.ts:83 | Text without quotes is unchanged. |
| GraphQLEncoding.EscapeAppend | packages/destination-actions/src/destinations/stackadapt-audiences/functions.ts:83 | Escaping works piece by piece over concatenation. |
| GraphQLEncoding.Encode | packages/destination-actions/src/destinations/stackadapt-audiences/functions.ts:75-84 | The definition of the encoder on the stringified text: the rewrite, then the escape. Its properties are `EncodeProperties`. |
| GraphQLEncoding.EncodeProperties | packages/destination-actions/src/destinations/stackadapt-audiences/functions.ts:75-84 | Undoing the escape recovers the rewritten text. Every output quote is escaped. The output length is the rewritten length plus its quotes. The output holds the input's quotes minus two per match. |
| GraphQLEncoding.BannerScan | packages/destination-actions/src/destinations/stackadapt-audiences/functions.ts:79 | In `{"type":"banner"}` the scan finds one match with value `banner` between two copied braces. |
| GraphQLEncoding.UpperBanner | packages/destination-actions/src/destinations/stackadapt-audiences/functions.ts:80 | `banner` upper-cases to `BANNER`. |
| GraphQLEncoding.RewrittenBannerSegments | packages/destination-actions/src/destinations/stackadapt-audiences/functions.ts:79-80 | The sample's pieces rewrite to `{"type":BANNER}`. |
| GraphQLEncoding.BannerRewrite | packages/destination-actions/src/destinations/stackadapt-audiences/functions.ts:79-80 | `{"type":"banner"}` is rewritten to `{"type":BANNER}`. |
| GraphQLEncoding.EscapeKey | packages/destination-actions/src/destinations/stackadapt-audiences/functions.ts:83 | `"type":` escapes to `\"type\":`. |
| GraphQLEncoding.EscapeBannerRewrite | packages/destination-actions/src/destinations/stackadapt-audiences/functions.ts:83 | `{"type":BANNER}` escapes to `{\"type\":BANNER}`. |
| GraphQLEncoding.EncodeExample | packages/destination-actions/src/destinations/stackadapt-audiences/functions.ts:75-84 | `{"type":"banner"}` is encoded as `{\"type\":BANNER}`. |
| AdvertiserLookup.WritableNodes | packages/destination-actions/src/destinations/stackadapt-audiences/functions.ts:52 | A node is kept exactly when it is in the input and its scopes include `WRITE`; the result is no longer than the input. |
| AdvertiserLookup.WritableNodesCounts | packages/destination-actions/src/destinations/stackadapt-audiences/functions.ts:52 | Each node with `WRITE` is kept as often as it occurs in the input, and no other node is kept, so duplicates are not dropped. |
| AdvertiserLookup.WritableNodesCons | packages/destination-actions/src/destinations/stackadapt-audiences/functions.ts:52 | One step of the filter: the first node is kept exactly when its scopes include `WRITE`. |
| AdvertiserLookup.WritableNodesAppend | packages/destination-actions/src/destinations/stackadapt-audiences/functions.ts:52 | The filter works piece by piece over concatenation, so kept nodes stay in input order. |
| AdvertiserLookup.ToChoice | packages/destination-actions/src/destinations/stackadapt-audiences/functions.ts:53 | The definition of `{value: advertiser.id, label: advertiser.name}`. |
| AdvertiserLookup.ToChoices | packages/destination-actions/src/destinations/stackadapt-audiences/functions.ts:53 | There is one choice per node, in order, holding the advertiser's id as value and name as label. |
| AdvertiserLookup.InToChoices | packages/destination-actions/src/destinations/stackadapt-audiences/functions.ts:53 | A choice is in the mapped list exactly when some node maps to it. |
| AdvertiserLookup.InsertByLabel | packages/destination-actions/src/destinations/stackadapt-audiences/functions.ts:54 | Inserting adds exactly that choice (as a multiset). It puts the choice or the old head first, and keeps a sorted list sorted. |
| AdvertiserLookup.SortByLabel | packages/destination-actions/src/destinations/stackadapt-audiences/functions.ts:54 | The result is a permutation of the input, sorted by label under any total comparator. |
| AdvertiserLookup.SortedIsPairwise | packages/destination-actions/src/destinations/stackadapt-audiences/functions.ts:54 | Under a transitive comparator, sorted adjacent pairs mean every earlier label is at most every later one. |
| AdvertiserLookup.SortedByLabel | packages/destination-actions/src/destinations/stackadapt-audiences/functions.ts:54 | The definition of "sorted": each label is at most the next under the comparator. |
| AdvertiserLookup.Choices | packages/destination-actions/src/destinations/stackadapt-audiences/functions.ts:51-54 | The definition of the `try` branch's list: filter, map, sort. Stated by `SuccessResponse`. |
| AdvertiserLookup.FieldResponse | packages/destination-actions/src/destinations/stackadapt-audiences/functions.ts:50-64 | The definition of the field response for the request result. The success branch is stated by `SuccessResponse` and the failure branch by `FailureResponse`. |
| AdvertiserLookup.SuccessResponse | packages/destination-actions/src/destinations/stackadapt-audiences/functions.ts:50-55 | On success the choices are a permutation of the filtered-and-mapped nodes, sorted by label, with no `nextPage` and no error. A choice appears exactly when some node with `WRITE` maps to it. |
| AdvertiserLookup.FailureResponse | packages/destination-actions/src/destinations/stackadapt-audiences/functions.ts:56-64 | On failure there are no choices and `nextPage` is empty. The message is the error's own (even empty) or `Unknown error`. The code is the status in decimal, which reads back to the status, or `Unknown error` when there is no status. |
| AdvertiserLookup.NatToString | packages/destination-actions/src/destinations/stackadapt-audiences/functions.ts:62 | The definition of `toString` for natural numbers: decimal digits, most significant first. |
| AdvertiserLookup.IntToString | packages/destination-actions/src/destinations/stackadapt-audiences/functions.ts:62 | The definition of `toString` for integers: a `-` before the digits of a negative number. |
| AdvertiserLookup.DecimalRoundTrip | packages/destination-actions/src/destinations/stackadapt-audiences/functions.ts:62 | `toString` of a natural number is a well-formed decimal numeral that denotes that number. |

## Left out

- The HTTP exchanges are the parameter `exec` in the SingleStore model and an input `LookupResult` in the advertiser model. This covers the URL (`https://host:port/api/v2/exec`), the headers, `await` and the GraphQL query text. The transport status plays no part in the SingleStore outcome, as in the source (`throwHttpErrors: false`).
- `btoa` Basic-auth encoding of `username:password` is a foreign library call and is not modelled.
- `new Date(timestamp).toISOString()` is the uninterpreted parameter `isoOf`. Its throwing on an invalid date is not modelled; only the `T`/`Z` post-processing is.
- `JSON.stringify`: the encoder takes its output text as input.
- `SingleStoreSend.RowColumns`: the source reads `item.messageid` (lower-case `id`) while the column is named `messageId`. The payload type `generated-types.ts` is not part of this model, so the model reads the payload's message id field as declared here and does not decide whether the generated field name differs.
- `GraphQLEncoding.UpperCase`: upper-cases ASCII letters only, not full Unicode `toUpperCase` (which can also change the length, as `ß` → `SS`).
- `AdvertiserLookup.SortByLabel`: `localeCompare` is an abstract total comparator, without the locale collation rules. Stability is built into the insertion but not stated as a lemma; JavaScript's `sort` is stable as well.
- `SingleStoreSend.Decide`: a non-string `error` member of the response (a number or an object printed by the template literal) is not modelled; `error` is an optional string.
- `AdvertiserLookup.FailureResponse`: `status` is an optional integer; a non-integer numeric status and its `toString` are not modelled.
- `AdvertiserLookup.FieldResponse`: a failure in any step of the `try` block, including a malformed response that lacks `data.tokenInfo`, is the single input case `Failure`.
- `sha256hash` wraps the crypto library and is not modelled.
- The repeated-call stability of the encoder holds trivially, because `Encode` is a function of its input text.
- `singlestore/index.ts` is not part of this model. It holds settings and field declarations, plus a `testAuthentication` that sends a fixed CREATE TABLE and repeats the `ok === false` check of `send`.
- `google-data-manager/index.ts` is not part of this model; it holds scaffold stubs.
