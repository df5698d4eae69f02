# Form builder core, modelled in Dafny

This project models the core of a small forms service. Its parts:

- an author builds a form from text, radio and multi-select fields in the form builder, and saves it;
- the create-form API route validates the form against the form schema and stores it in Redis;
- a respondent fills the form in the renderer, which builds a validation schema from the fields;
- submissions are stored in Redis under one key each, indexed per form by a sorted set scored by submission time;
- two live views listen on a server-sent-event stream: a global "recent submissions" feed keeping the last ten, and a per-form table that prepends each new row;
- helpers derive a form id from its title (slug, `~`, six random hex digits), find a client's IP from proxy headers and build the rate-limit refusal.

One Dafny module per source file, plus shared helper modules:

- `Types` (`types.dfy`): the form, field and submission records, a JSON value, and the Zod schemas as parse functions with their encoders.
- `Redis` (`redis.dfy`): the store as a class over the Redis keyspace (`form:<id>`, `form_ids`, `submission:<form>:<id>`, `submission_ids:<form>`).
- `SortedSet` (`sorted_set.dfy`): the Redis sorted set used as the per-form index: `ZADD`, `ZRANGE … REV`, `ZCARD`.
- `Utils` (`utils.dfy`): `generateFormId`: the slug pipeline, the hex suffix and the join.
- `RateLimit` (`ratelimit.dfy`): `getClientIp` and the 429 refusal of `rateLimit`.
- `CreateRoute` (`create_route.dfy`): the `POST` handler of the create-form route.
- `FormRenderer` (`form_renderer.dfy`): the per-field rules, the schema fold, submit, field update and multi-select toggle.
- `FormBuilder` (`form_builder.dfy`): the builder's state as a class, its editing and drag operations, and the save checks.
- `FieldEditor` (`field_editor.dfy`): the partial-update merge, the option list edits and the field description.
- `LiveConnection` (`live_connection.dfy`): the event-source lifecycle both live views share: error, reconnect, unmount.
- `RecentFeed` (`recent_feed.dfy`): the global feed as a class.
- `SubmissionsRealTime` (`submissions_real_time.dfy`): the per-form table as a class, and its cell rendering.
- `Strings`, `Lists`, `Wrappers` (`strings.dfy`, `lists.dfy`, `wrappers.dfy`): trimming, decimal and lexicographic helpers; list removal by position and by value, insertion and move; `Option` and `Result`.

Clocks, random values and network events are parameters of the operations. Timers and stream events are methods the environment calls.

## Model

| member | source | states |
|---|---|---|
| `Types.WithId` | src/lib/types.ts:34 | a stored submission with its id keeps the form id, the time and the answers, and carries the given id |
| `Types.ParseString` | src/lib/types.ts:7-8 | `z.string().min(n)` accepts exactly a present JSON string of at least n characters and returns it; a refusal carries at least one issue |
| `Types.ParseOptionalString` | src/lib/types.ts:13 | an optional string accepts exactly a missing value or a string |
| `Types.ParseFieldType` | src/lib/types.ts:3 | the field-type enum accepts exactly "text", "radio" and "multi", and the parsed type prints back as its input |
| `Types.ParseRequired` | src/lib/types.ts:10 | `required` accepts a missing value or a boolean; a missing one defaults to false |
| `Types.ParseStrings` | src/lib/types.ts:12 | an array of strings is accepted exactly when every item is a string, and the result lists those strings in order |
| `Types.ParseOptions` | src/lib/types.ts:12 | accepted exactly when the options are absent or an array of strings only; absent options give none, and present ones are the array's strings in order |
| `Types.ParseField` | src/lib/types.ts:6-14 | an accepted field is an object and a valid field; its id, label and type are the JSON's; a missing `required` gives false and a present one is the JSON's boolean; options and placeholder are present exactly when the JSON has them, and then are the JSON's array of strings and string |
| `Types.ParseFields` | src/lib/types.ts:22 | an accepted field array gives one valid field per item, each the parse of its item |
| `Types.ParseForm` | src/lib/types.ts:18-24 | an accepted form is valid, and its id, title, fields and numeric createdAt are those of the JSON object; its description is present exactly when the JSON has one, and is then the JSON's string |
| `Types.ParseSubmission` | src/lib/types.ts:27-31 | a submission is accepted exactly when it is an object with a string form id, a numeric time and an object of answers, and it holds those three |
| `Types.StringsToJson` | src/lib/types.ts:12 | encoding strings gives one JSON string per item, in order |
| `Types.WithOptional` | src/lib/types.ts:12-13 | an optional property is written only when present |
| `Types.FieldToJson` | src/lib/types.ts:6-14 | a field's JSON holds each property under its schema key, and an optional one only when present |
| `Types.FieldsToJson` | src/lib/types.ts:22 | encoding fields gives one JSON object per field, in order |
| `Types.FormToJson` | src/lib/types.ts:18-24 | a form's JSON holds each property under its schema key, and the description only when present |
| `Types.StringsRoundTrip` | src/lib/types.ts:12 | parsing encoded strings gives the strings back |
| `Types.FieldRoundTrip` | src/lib/types.ts:6-14 | parsing an encoded valid field gives the field back |
| `Types.FieldsRoundTrip` | src/lib/types.ts:22 | parsing encoded valid fields gives the fields back |
| `Types.FormRoundTrip` | src/lib/types.ts:18-24 | parsing an encoded valid form gives the form back |
| `Types.AcceptedFieldIsValid` | src/lib/types.ts:6-14 | a field whose encoding the schema accepts is valid |
| `Types.AcceptedFormIsValid` | src/lib/types.ts:18-24 | a form whose encoding the schema accepts is valid |
| `Types.AcceptedFieldsAreValid` | src/lib/types.ts:22 | fields whose encodings all parse are all valid |
| `Types.FormSchemaAcceptsExactlyValid` | src/lib/types.ts:18-24 | the form schema accepts a form's encoding if and only if the form is valid |
| `Types.OptionsNotRequired` | src/lib/types.ts:11-12 | the schema accepts a radio or multi field with no options |
| `SortedSet.BeforeTransitive` | src/lib/redis.ts:89-96 | the sorted-set order (score, then member bytes) is transitive |
| `SortedSet.BeforeTotal` | src/lib/redis.ts:89-96 | any two distinct members are ordered one way or the other |
| `SortedSet.PositionOf` | src/lib/redis.ts:89-96 | a member of the set sits at some position of the index |
| `SortedSet.ScoreAt` | src/lib/redis.ts:89-96 | the score looked up for the member at a position is that position's score |
| `SortedSet.MemberSetSize` | src/lib/redis.ts:107-109 | with distinct members, the set has as many members as the index has entries |
| `SortedSet.ConsValid` | src/lib/redis.ts:68 | an entry that precedes every entry of a well-formed index can head it |
| `SortedSet.HeadFirst` | src/lib/redis.ts:89-96 | the head of a well-formed index precedes every later entry |
| `SortedSet.Remove` | src/lib/redis.ts:68 | removing a member keeps the index well formed, drops exactly that member and keeps every other score |
| `SortedSet.Insert` | src/lib/redis.ts:68 | inserting a new member keeps the index well formed and adds exactly that member |
| `SortedSet.InsertScores` | src/lib/redis.ts:68 | after inserting, the new member has its score and every other member keeps its score |
| `SortedSet.Add` | src/lib/redis.ts:68 | `ZADD` keeps the index well formed, adds the member or moves it to its new score, grows only for a new member, and leaves other scores alone |
| `SortedSet.Members` | src/lib/redis.ts:22-26 | the members of the index, in index order |
| `SortedSet.Descending` | src/lib/redis.ts:89-96 | the members from highest to lowest rank |
| `SortedSet.DescendingOrder` | src/lib/redis.ts:89-96 | in descending order scores never increase, equal scores run in reverse member order, and no member repeats |
| `SortedSet.RevBounds` | src/lib/redis.ts:89-96 | the resolved start and stop of `ZRANGE … REV` (negative indexes count from the end) stay within the index |
| `SortedSet.RangeRev` | src/lib/redis.ts:89-96 | a reverse range is never longer than the index |
| `SortedSet.RangeRevOrdered` | src/lib/redis.ts:89-96 | every id of a reverse range is a member, scores never increase along it, and no id repeats |
| `SortedSet.DescendingSliceOrdered` | src/lib/redis.ts:89-96 | any slice of the descending order has members only, non-increasing scores and no repeats |
| `SortedSet.PageIsSlice` | src/lib/redis.ts:89-96 | a page with limit at least one is the descending order from `offset` to `offset + limit`, or empty past the end |
| `SortedSet.PageBounds` | src/lib/redis.ts:89-96 | the page bounds are empty past the end and otherwise start at `offset` and stop at `offset + limit` or the end |
| `SortedSet.Pages` | src/lib/redis.ts:89-96 | the ZRANGE pages at offsets 0, limit, 2·limit, … read one after another |
| `SortedSet.PagesPartition` | src/lib/redis.ts:83-96 | pages at offsets 0, limit, 2·limit, … read in turn give the first `k·limit` members of the descending order, with no gap and no repeat |
| `SortedSet.PageJoin` | src/lib/redis.ts:89-96 | the members read so far followed by the next page are the prefix up to the next offset, clamped to the index |
| `SortedSet.NextOffset` | src/lib/redis.ts:91-92 | the next page starts one limit after the previous one |
| `SortedSet.LimitZeroReadsAll` | src/lib/redis.ts:86-96 | a limit of 0 asks for stop index -1 and so reads the whole index |
| `Redis.PresentForms` | src/lib/redis.ts:52-56 | the fetched records drop exactly the missing ones; under the store's invariant each is the record stored under its own id, and ids stay distinct |
| `Redis.DistinctIdsCons` | src/lib/redis.ts:49-58 | a form list headed by a form has distinct ids exactly when the tail does and the head's id is not in it |
| `Redis.InsertByNewest` | src/lib/redis.ts:57 | inserting into a newest-first list keeps it newest first and gives a permutation of the list plus the form: every form keeps its count, and the new one is added once |
| `Redis.SortByNewest` | src/lib/redis.ts:57 | the sorted list is newest first and a permutation of the input: the same forms, each as many times |
| `Redis.InsertKeepsDistinctIds` | src/lib/redis.ts:57 | inserting a form with a new id keeps ids distinct |
| `Redis.SortKeepsDistinctIds` | src/lib/redis.ts:57 | sorting keeps ids distinct |
| `Redis.Purge` | src/lib/redis.ts:28-34 | dropping a form's submissions removes exactly the records with that form id and keeps the others |
| `Redis.PurgeByMembers` | src/lib/redis.ts:21-34 | deleting the keys built from the members of a form's index removes exactly that form's submissions, and with no members nothing needs deleting |
| `Redis.DeleteKeepsConsistent` | src/lib/redis.ts:20-42 | what the deletions leave is the other forms' submissions, consistent with the remaining records and indexes |
| `Redis.PurgeKeepsConsistent` | src/lib/redis.ts:20-42 | deleting a form's record, records and index keeps records and indexes in step |
| `Redis.RankedIdsHaveRecords` | src/lib/redis.ts:89-104 | ranked ids of a consistent index all have records, distinct and newest first |
| `Redis.AddKeepsConsistent` | src/lib/redis.ts:61-72 | storing a submission and adding it to its form's index keeps records and indexes in step; the key existed exactly when the id was indexed |
| `Redis.Store.constructor` | src/lib/redis.ts:4 | an empty keyspace satisfies the store invariant |
| `Redis.Store.IndexOf` | src/lib/redis.ts:89-96 | a form without an index reads as an empty sorted set |
| `Redis.Store.CreateForm` | src/lib/redis.ts:7-10 | `createForm` writes the record under its id and adds the id to `form_ids`, touching nothing else, and the form reads back |
| `Redis.Store.GetForm` | src/lib/redis.ts:12-14 | a form reads back exactly when its key exists, and under the invariant its id is the key |
| `Redis.Store.UpdateForm` | src/lib/redis.ts:16-18 | `updateForm` overwrites the record and changes nothing else; `form_ids` is left alone |
| `Redis.Store.DeleteForm` | src/lib/redis.ts:20-42 | `deleteForm` removes the form record, every submission record of the form, its index and its id, and keeps the invariant |
| `Redis.Store.GetAllFormIds` | src/lib/redis.ts:44-47 | `getAllFormIds` lists each member of `form_ids` exactly once |
| `Redis.Store.GetAllForms` | src/lib/redis.ts:49-58 | `getAllForms` returns exactly the registered forms whose record exists, once each, newest first, and nothing when no id is registered |
| `Redis.Store.CreateSubmission` | src/lib/redis.ts:61-72 | `createSubmission` writes the record, adds the id to the form's index with its time as score, returns the id, reads back, and counts one more unless the key existed |
| `Redis.Store.GetSubmission` | src/lib/redis.ts:74-81 | a submission reads back with its id exactly when its key exists |
| `Redis.Store.Fetch` | src/lib/redis.ts:100-104 | fetching ids keeps only ids with records, each as stored; when all have records it keeps all, in order |
| `Redis.Store.PageIds` | src/lib/redis.ts:89-96 | the ZRANGE REV call reads at most the whole index, and nothing for a form without an index |
| `Redis.Store.GetSubmissions` | src/lib/redis.ts:83-105 | a page holds only stored submissions of the ranked ids, at most `limit` of them, and nothing for a form without an index |
| `Redis.Store.PageIsFetch` | src/lib/redis.ts:98-104 | `getSubmissions` is the fetch of the ranked page ids, the empty page included |
| `Redis.Store.PageIdsHaveRecords` | src/lib/redis.ts:89-96 | under the invariant every ranked id has a record, the ids are distinct and their times never increase |
| `Redis.Store.ListingDropsNothing` | src/lib/redis.ts:98-104 | under the invariant the filter of missing records drops nothing: each ranked id yields its record, in order |
| `Redis.Store.CompletePage` | src/lib/redis.ts:100-104 | when every page id has a record, the page is those records in order |
| `Redis.Store.ListingIsNewestFirst` | src/lib/redis.ts:89-104 | a listed page is newest first and lists no submission twice |
| `Redis.Store.FetchAppend` | src/lib/redis.ts:98-104 | fetching two id lists in turn is fetching their concatenation |
| `Redis.Store.PagedSubmissions` | src/lib/redis.ts:83-105 | the records of `k` successive `getSubmissions` pages at offsets 0, limit, 2·limit, … |
| `Redis.Store.PagedIsFetchOfPages` | src/lib/redis.ts:83-105 | successive pages hold the records of the successive index pages, in order |
| `Redis.Store.PagedStep` | src/lib/redis.ts:83-105 | one more page adds the records of its index page after those before it |
| `Redis.Store.PagingReadsEveryRecordOnce` | src/lib/redis.ts:83-105 | paging with a limit of at least one past the count reads what limit 0 reads: every stored submission of the form once, newest first, as many as the count |
| `Redis.Store.ScoreOfRecord` | src/lib/redis.ts:68 | under the invariant an indexed id has a record whose time is its score |
| `Redis.Store.GetSubmissionCount` | src/lib/redis.ts:107-109 | the count is the index's size, 0 for a form without one |
| `Redis.Store.CountIsStoredRecords` | src/lib/redis.ts:107-109 | under the invariant the count equals the number of stored submissions of the form |
| `Strings.TrimStart` | src/lib/utils.ts:16 | the leading whitespace is removed and what is left is a suffix that starts with a non-space |
| `Strings.TrimEnd` | src/lib/utils.ts:16 | the trailing whitespace is removed and what is left is a prefix that ends with a non-space |
| `Strings.LeadingSpaces` | src/lib/utils.ts:16 | the count of leading spaces is within the string |
| `Strings.Trim` | src/lib/utils.ts:16 | `trim()` gives the slice between the leading and trailing whitespace, with no space at either end |
| `Strings.TrimSlice` | src/lib/utils.ts:16 | trimming both ends of a string gives one slice of it with only spaces outside |
| `Strings.TrimEmptyIffBlank` | src/components/form-builder.tsx:81 | a string trims to empty exactly when it is all whitespace |
| `Strings.LexLess` | src/lib/redis.ts:89-96 | code-point lexicographic order, the order Redis gives members of equal score; the lemmas below prove it a strict total order |
| `Strings.LexLessIrreflexive` | src/lib/redis.ts:89-96 | no member sorts before itself |
| `Strings.LexLessTransitive` | src/lib/redis.ts:89-96 | member order is transitive |
| `Strings.LexLessTotal` | src/lib/redis.ts:89-96 | any two distinct members are ordered |
| `Strings.LexLessAsymmetric` | src/lib/redis.ts:89-96 | member order is asymmetric |
| `Strings.DigitChar` | src/components/field-editor.tsx:82-85 | a digit value prints as a digit |
| `Strings.DigitValue` | src/components/field-editor.tsx:82-85 | a digit reads back as the value that prints as it |
| `Strings.NatToString` | src/components/field-editor.tsx:82-85 | a count prints as a non-empty run of digits, with more than one digit exactly from 10 on |
| `Strings.NatToStringRoundTrip` | src/components/field-editor.tsx:82-85 | a printed count reads back as the count |
| `Strings.IntToString` | src/lib/ratelimit.ts:50-51 | an integer prints as a non-empty string that starts with '-' exactly when it is negative |
| `Strings.Join` | src/components/submissions-real-time.tsx:140 | joining no parts gives "" and one part gives that part |
| `Lists.RemoveAt` | src/components/form-builder.tsx:49-51 | filtering out an index drops exactly that element when in range and keeps the list otherwise |
| `Lists.RemoveAtMultiset` | src/components/form-builder.tsx:49-51 | removal loses exactly the removed element |
| `Lists.InsertAt` | src/components/form-builder.tsx:69 | `splice(i, 0, x)` puts x at i and shifts the rest right |
| `Lists.RemoveInserted` | src/components/form-builder.tsx:68-69 | removing what was just inserted gives the list back |
| `Lists.InsertAtMultiset` | src/components/form-builder.tsx:69 | insertion adds exactly one element |
| `Lists.Move` | src/components/form-builder.tsx:66-69 | moving keeps the length and puts the dragged element at the target index |
| `Lists.MoveIsPermutation` | src/components/form-builder.tsx:66-69 | a move is a permutation |
| `Lists.MoveKeepsOthersInOrder` | src/components/form-builder.tsx:66-69 | apart from the moved element, the order is unchanged |
| `Lists.MoveBack` | src/components/form-builder.tsx:66-69 | moving back restores the list |
| `Utils.Lower` | src/lib/utils.ts:15 | `toLowerCase` maps each character by itself and keeps the length |
| `Utils.SkipNonAlnum` | src/lib/utils.ts:17 | only non-alphanumerics are skipped, and the rest starts at an alphanumeric or is empty |
| `Utils.Hyphenate` | src/lib/utils.ts:17 | the hyphenation starts with the input's first alphanumeric, or with a hyphen when the input starts with a run of other characters; it is empty only for an empty input |
| `Utils.HyphenateShape` | src/lib/utils.ts:17 | the hyphenated string has only slug characters and no double hyphen |
| `Utils.SkipKeepsAlnums` | src/lib/utils.ts:17 | a skipped run holds no alphanumeric, so skipping it keeps the alphanumerics |
| `Utils.HyphenateKeepsAlnums` | src/lib/utils.ts:17 | the hyphenation keeps every alphanumeric of the input, in order, and adds none; with `HyphenateShape`, only the runs of other characters change, each into one hyphen |
| `Utils.DropLeadingHyphens` | src/lib/utils.ts:18 | the leading hyphens are removed and the rest is a suffix |
| `Utils.DropTrailingHyphens` | src/lib/utils.ts:18 | the trailing hyphens are removed and the rest is a prefix |
| `Utils.LeadingHyphens` | src/lib/utils.ts:18 | the count of leading hyphens is within the string |
| `Utils.StripHyphens` | src/lib/utils.ts:18 | stripping gives the slice between the leading and trailing hyphens, with no hyphen at either end, and leaves a string without such hyphens alone |
| `Utils.CollapseHyphens` | src/lib/utils.ts:19 | collapsing leaves no double hyphen, adds no character, keeps both end characters and leaves a string without double hyphens alone |
| `Utils.Take` | src/lib/utils.ts:20 | `slice(0, n)` is a prefix of at most n characters, and the whole string when it is short enough |
| `Utils.SliceKeepsShape` | src/lib/utils.ts:20 | a slice of a string of slug characters without double hyphens is one too |
| `Utils.Uncut` | src/lib/utils.ts:14-19 | before the cut the slug has only slug characters, no double hyphen and no hyphen at either end |
| `Utils.Slug` | src/lib/utils.ts:14-20 | the slug as written has slug characters only, no double hyphen, no leading hyphen, and at most 50 characters |
| `Utils.FinalSlug` | src/lib/utils.ts:29 | the final slug is the slug as written, or "form" when that is empty |
| `Utils.FinalSlugCorrected` | src/lib/utils.ts:14-29 | with the corrected slug, the final slug is "form" or a clean slug |
| `Utils.HexDigit` | src/lib/utils.ts:23-26 | a nibble prints as a lower-case hex digit |
| `Utils.HexDigitValue` | src/lib/utils.ts:23-26 | a hex digit reads back as the nibble that prints as it |
| `Utils.HexByte` | src/lib/utils.ts:23-26 | `toString(16).padStart(2, "0")` gives two hex digits |
| `Utils.HexByteRoundTrip` | src/lib/utils.ts:23-26 | the two digits read back as the byte |
| `Utils.HexDigitInjective` | src/lib/utils.ts:23-26 | different nibbles print differently |
| `Utils.RandomHex` | src/lib/utils.ts:23-26 | three random bytes give six hex digits |
| `Utils.RandomHexParts` | src/lib/utils.ts:23-26 | the six digits read back as the three bytes |
| `Utils.OccurrencesAppend` | src/lib/utils.ts:31 | counts of a character add over concatenation |
| `Utils.OccurrencesNone` | src/lib/utils.ts:31 | a string without the character counts zero of it |
| `Utils.GenerateFormId` | src/lib/utils.ts:12-32 | the id is the final slug as written, then `~`, then the six hex digits |
| `Utils.GenerateFormIdCorrected` | src/lib/utils.ts:12-32 | with the corrected slug, the id is that final slug, `~` and the hex, and the character before `~` is never a hyphen |
| `Utils.JoinId` | src/lib/utils.ts:31 | the join puts `~` between slug and suffix |
| `Utils.JoinIdOneTilde` | src/lib/utils.ts:31 | joining two parts without `~` gives exactly one `~` |
| `Utils.FormIdHasOneTilde` | src/lib/utils.ts:12-32 | every generated id, as written or corrected, holds exactly one `~`, so slug and suffix can be told apart |
| `Utils.SlugHasNoTilde` | src/lib/utils.ts:29 | "form" and any string of slug characters hold no `~` |
| `Utils.FormIdCorrectedAgrees` | src/lib/utils.ts:14-31 | the corrected id equals the id as written whenever the slug as written does not end in a hyphen |
| `Utils.FormIdCanHaveHyphenBeforeTilde` | src/lib/utils.ts:14-31 | for a 49-letter word, a separator and a word, the id as written reads `word-~hex`, where the corrected id reads `word~hex` |
| `Utils.FormIdParts` | src/lib/utils.ts:12-32 | the last six characters of an id read back as the three random bytes, and the corrected id has the same suffix |
| `Utils.HyphenateAlnumPrefix` | src/lib/utils.ts:17 | an alphanumeric prefix passes through hyphenation unchanged |
| `Utils.HyphenateClean` | src/lib/utils.ts:17 | hyphenation leaves a string of slug characters without double hyphens alone |
| `Utils.LowerClean` | src/lib/utils.ts:15 | lower-casing leaves slug characters alone |
| `Utils.TrimClean` | src/lib/utils.ts:16 | trimming leaves a string without spaces at its ends alone |
| `Utils.SkipRun` | src/lib/utils.ts:17 | a run of separators is skipped up to the next word |
| `Utils.HyphenateTwoWords` | src/lib/utils.ts:17 | two words with separators between them become the words joined by one hyphen |
| `Utils.HyphenateSeparatedWord` | src/lib/utils.ts:17 | separators then a word become one hyphen then the word |
| `Utils.HyphenateWord` | src/lib/utils.ts:17 | a word passes through hyphenation unchanged |
| `Utils.LowerExample` | src/lib/utils.ts:15 | "Hello" and "World" lower-case to "hello" and "world" |
| `Utils.LowerAsciiAlnum` | src/lib/utils.ts:15 | lower-casing an ASCII word gives a slug word |
| `Utils.UncutTwoWords` | src/lib/utils.ts:14-19 | two ASCII words with separators give the lower-cased words joined by one hyphen |
| `Utils.JoinedWordsNoDoubleHyphen` | src/lib/utils.ts:19 | two words joined by a hyphen have no double hyphen |
| `Utils.TrimTwoWords` | src/lib/utils.ts:15-16 | trimming does not touch two lower-cased words and their separators |
| `Utils.SlugOfTwoWords` | src/lib/utils.ts:14-20 | a short title of two ASCII words slugs to the lower-cased words joined by one hyphen |
| `Utils.LowerAppend` | src/lib/utils.ts:15 | lower-casing distributes over concatenation |
| `Utils.SlugExample` | src/lib/utils.ts:14-20 | "Hello,  World" slugs to "hello-world" |
| `Utils.SlugCanEndWithHyphen` | src/lib/utils.ts:14-20 | a 49-character first word, separators and a second word slug to the first word plus a trailing hyphen, and slugging that again gives a different slug |
| `Utils.SlugCutAfterFirstWord` | src/lib/utils.ts:20 | the 50-character cut of such a title ends right after the joining hyphen |
| `Utils.SlugDropsTrailingHyphen` | src/lib/utils.ts:14-20 | a short word with one trailing hyphen slugs to the word |
| `Utils.UncutTrailingHyphen` | src/lib/utils.ts:14-19 | the uncut slug of a word with a trailing hyphen is the word |
| `Utils.StripOneTrailingHyphen` | src/lib/utils.ts:18 | stripping a word with one trailing hyphen gives the word |
| `Utils.SlugCorrected` | src/lib/utils.ts:14-20 | the slug with hyphens stripped again after the cut is a clean slug of at most 50 characters: slug characters only, no double hyphen, no hyphen at either end |
| `Utils.StripKeepsShape` | src/lib/utils.ts:18-20 | stripping a string of slug characters without double hyphens gives a clean slug no longer than it |
| `Utils.SlugCorrectedAgrees` | src/lib/utils.ts:14-20 | the corrected slug equals the slug as written whenever that one does not end in a hyphen |
| `Utils.CleanSlugIsFixed` | src/lib/utils.ts:14-20 | a clean slug of at most 50 characters is its own corrected slug |
| `Utils.SlugCorrectedIdempotent` | src/lib/utils.ts:14-20 | the corrected slug is idempotent |
| `RateLimit.Split` | src/lib/ratelimit.ts:28 | `split(",")` gives at least one part, no part holds a comma, and the first part is the prefix up to the first comma |
| `RateLimit.SplitJoinRoundTrip` | src/lib/ratelimit.ts:28 | joining the parts with a comma gives the header back |
| `RateLimit.GetClientIp` | src/lib/ratelimit.ts:23-37 | a non-empty forwarded header gives its first entry trimmed; otherwise a non-empty real-IP header; otherwise "unknown" |
| `RateLimit.BlankForwardedEntry` | src/lib/ratelimit.ts:27-29 | a forwarded header whose first entry is blank gives an empty IP, without falling back to the real-IP header |
| `RateLimit.RetryAfterSeconds` | src/lib/ratelimit.ts:50-51 | the retry delay is the time to reset in whole seconds, rounded down |
| `RateLimit.Decide` | src/lib/ratelimit.ts:42-68 | a request passes exactly when the limiter allows it; a refusal is status 429, "Rate limit exceeded", and the retry delay as the Retry-After value |
| `RateLimit.RetryAfterReadsBack` | src/lib/ratelimit.ts:50-64 | for a reset not in the past, Retry-After is a non-negative decimal that reads back to the delay in seconds, rounded down |
| `CreateRoute.Respond` | src/app/api/forms/create/route.ts:5-37 | an invalid body gives 400 with "Validation failed" and the issues, a valid one 200 with the form, and an unreadable body or store fault 500 with "Failed to create form"; success exactly when 200, and then with a valid form |
| `CreateRoute.StoreWrites` | src/app/api/forms/create/route.ts:10-22 | the store is written only for a valid body, and only the record when the second write fails |
| `CreateRoute.Post` | src/app/api/forms/create/route.ts:5-37 | the handler's response is `Respond` and its writes are `StoreWrites`; submissions are never touched |
| `CreateRoute.ValidFormIsCreated` | src/app/api/forms/create/route.ts:10-27 | posting a valid form's encoding gives 200 with that form and stores it |
| `CreateRoute.InvalidFormIsRefused` | src/app/api/forms/create/route.ts:10-20 | posting an invalid form's encoding gives 400 and stores nothing |
| `FormRenderer.BuildRule` | src/components/form-renderer.tsx:25-45 | a field's rule follows its type: text, radio with options as an enum, radio without options as a non-empty string, multi as a non-empty array; it is optional exactly when the field is not required |
| `FormRenderer.AddRule` | src/components/form-renderer.tsx:47-48 | adding a field's rule keeps the schema well formed and sets that key to the field's rule |
| `FormRenderer.BuildSchema` | src/components/form-renderer.tsx:22-52 | the schema has a rule exactly for each field id |
| `FormRenderer.LastFieldWins` | src/components/form-renderer.tsx:47 | with repeated ids, the last field with an id sets its rule |
| `FormRenderer.Ids` | src/components/form-renderer.tsx:22-52 | the field ids in field order |
| `FormRenderer.DistinctIdsSchema` | src/components/form-renderer.tsx:22-52 | with distinct ids the schema keys are the ids in order and each field has its own rule |
| `FormRenderer.ItemIssues` | src/components/form-renderer.tsx:39 | an array yields no item issue exactly when every item is a string |
| `FormRenderer.CheckValue` | src/components/form-renderer.tsx:25-45 | each issue of a value names the value's field |
| `FormRenderer.Accepts` | src/components/form-renderer.tsx:25-45 | a value passes a field's rule when checking it reports no issue |
| `FormRenderer.AcceptsAnyKey` | src/components/form-renderer.tsx:25-45 | whether a value passes does not depend on its key |
| `FormRenderer.RequiredTextAccepts` | src/components/form-renderer.tsx:27-28 | a required text field accepts exactly a non-empty string |
| `FormRenderer.RadioWithOptionsAccepts` | src/components/form-renderer.tsx:30-33 | a required radio with options accepts exactly one of them |
| `FormRenderer.RadioWithoutOptionsAccepts` | src/components/form-renderer.tsx:34-35 | a required radio without options accepts exactly a non-empty string |
| `FormRenderer.MultiAccepts` | src/components/form-renderer.tsx:37-41 | a required multi field accepts exactly a non-empty array of strings |
| `FormRenderer.OptionalAccepts` | src/components/form-renderer.tsx:43-45 | an optional field accepts a missing value or what the required rule accepts; an empty string or empty array is still refused |
| `FormRenderer.CheckAll` | src/components/form-renderer.tsx:59 | checking the keys finds no issue exactly when every key's value passes; some issue names a field exactly when it is one of the keys and its value fails |
| `FormRenderer.Parsed` | src/components/form-renderer.tsx:59 | the parsed data keeps exactly the schema's keys present in the input, with their values |
| `FormRenderer.Validate` | src/components/form-renderer.tsx:59-68 | `safeParse` succeeds exactly when every field's value passes its rule, returning the known keys; a failure lists at least one issue, and some issue names a field exactly when it is a schema key whose value fails |
| `FormRenderer.LastMessage` | src/components/form-renderer.tsx:62-65 | the message of the last issue naming the field, or none; `LastMessageFound` states when there is one |
| `FormRenderer.BuildErrors` | src/components/form-renderer.tsx:61-65 | the error map has an entry for exactly the fields with an issue, holding the last issue's message |
| `FormRenderer.LastMessageFound` | src/components/form-renderer.tsx:62-65 | a field has a last message exactly when some issue names it |
| `Lists.Without` | src/components/form-renderer.tsx:97 | `filter((o) => o !== option)`: the result holds exactly the items other than the option, and is the list itself when the option is absent |
| `Lists.WithoutMultiset` | src/components/form-renderer.tsx:97 | filtering removes every copy of the option and keeps every other selection as many times as before |
| `Lists.WithoutConcat` | src/components/form-renderer.tsx:97 | the filter works item by item: it distributes over concatenation, so the kept selections stay in their order |
| `FormRenderer.Toggle` | src/components/form-renderer.tsx:94-100 | toggling flips whether the option is selected and leaves the other selections alone; an unselected option is appended after the current ones; a selected one is removed with every copy, the rest kept as many times as before |
| `FormRenderer.ToggleTwice` | src/components/form-renderer.tsx:94-100 | toggling an option on and off again restores the selection |
| `Lists.WithoutAppended` | src/components/form-renderer.tsx:96-98 | removing an option that was just appended restores the selection |
| `FormRenderer.CurrentSelection` | src/components/form-renderer.tsx:95 | the current selection: the stored array's items, or none when the field has no value |
| `FormRenderer.Renderer.Schema` | src/components/form-renderer.tsx:22-52 | the renderer's schema is well formed |
| `FormRenderer.Renderer.constructor` | src/components/form-renderer.tsx:17-19 | the renderer starts with no data, no errors and not submitting |
| `FormRenderer.Renderer.HandleSubmit` | src/components/form-renderer.tsx:54-80 | a failed validation submits nothing and sets an error on a field exactly when the field is in the schema and its value fails, holding the last message reported on it; a passing one submits the parsed data, clears the errors and clears the data unless the callback throws |
| `FormRenderer.Renderer.UpdateField` | src/components/form-renderer.tsx:82-92 | a value update sets that key and clears that field's error only |
| `FormRenderer.Renderer.ToggleMultiOption` | src/components/form-renderer.tsx:94-100 | toggling writes the toggled selection of that field, through `updateField` |
| `FormBuilder.NewField` | src/components/form-builder.tsx:30-37 | a new field has the given id and type, an empty label, is not required, and has an empty option list exactly for radio and multi |
| `FormBuilder.ToastMessage` | src/components/form-builder.tsx:81-107 | a failed check shows a non-empty toast |
| `FormBuilder.ToastMessagesDistinct` | src/components/form-builder.tsx:81-107 | each failed check has a toast of its own, so the toast tells which check failed |
| `FormBuilder.HasLabel` | src/components/form-builder.tsx:92 | a label is present when it is not all whitespace; `HasLabelIsTrimTest` ties this to `trim()` |
| `FormBuilder.HasLabelIsTrimTest` | src/components/form-builder.tsx:92 | a label counts as present exactly when it does not trim to empty |
| `FormBuilder.LacksOptions` | src/components/form-builder.tsx:99-103 | a radio or multi field whose options are missing or empty |
| `FormBuilder.FirstUnlabelled` | src/components/form-builder.tsx:91-96 | no index is found exactly when every field has a label; a found index points to an unlabelled field |
| `FormBuilder.FirstWithoutOptions` | src/components/form-builder.tsx:98-107 | no index is found exactly when no radio or multi field lacks options; a found index points to one that does |
| `FormBuilder.SaveCheck` | src/components/form-builder.tsx:80-109 | a save that passes the checks carries the title, description and fields unchanged |
| `FormBuilder.SaveCheckOrder` | src/components/form-builder.tsx:81-107 | each refusal happens exactly when the earlier checks passed and its own failed: blank title (all whitespace, which `Strings.TrimEmptyIffBlank` ties to `trim()`), then no fields, then a blank label, then a choice field without options |
| `FormBuilder.SavedIffChecksPass` | src/components/form-builder.tsx:80-109 | a save goes through exactly when the title is not blank, there is a field, every field has a label and every choice field has options |
| `FormBuilder.NonBlankIsNonEmpty` | src/components/form-builder.tsx:81 | a title that is not blank is not empty |
| `FormBuilder.SavedDraftIsValidForm` | src/components/form-builder.tsx:80-125 | a saved draft, given non-empty ids, is a form the form schema accepts |
| `FormBuilder.StricterThanSchema` | src/components/form-builder.tsx:98-107 | the builder refuses a radio field without options that the form schema accepts |
| `FormBuilder.SavedRadioFieldsGetEnumRules` | src/components/form-builder.tsx:98-107 | every radio field of a saved draft is rendered with the enum rule over its options |
| `FormBuilder.Builder.constructor` | src/components/form-builder.tsx:23-28 | the builder starts from the initial form's title, description and fields, or from empty ones |
| `FormBuilder.Builder.AddField` | src/components/form-builder.tsx:30-41 | adding appends a new field of the type and expands it, changing nothing else |
| `FormBuilder.Builder.UpdateField` | src/components/form-builder.tsx:43-47 | updating replaces the field at the index and no other |
| `FormBuilder.Builder.DeleteField` | src/components/form-builder.tsx:49-51 | deleting removes the field at the index, or nothing when out of range |
| `FormBuilder.Builder.HandleDragStart` | src/components/form-builder.tsx:53-56 | starting a drag records the index only |
| `FormBuilder.Builder.HandleDragOver` | src/components/form-builder.tsx:58-73 | dragging over another index moves the dragged field there and follows it; with nothing dragged or over itself nothing changes; the fields stay a permutation |
| `FormBuilder.Builder.HandleDrop` | src/components/form-builder.tsx:75-78 | dropping clears the dragged index only |
| `FormBuilder.Builder.HandleSave` | src/components/form-builder.tsx:80-126 | started with the button enabled (not saving), a save gives the outcome of the save checks on the current draft, changes no state and ends not saving |
| `FieldEditor.Pick` | src/components/field-editor.tsx:58 | a spread property takes the update's value when present |
| `FieldEditor.Merge` | src/components/field-editor.tsx:57-59 | `{ ...field, ...updates }` takes each present property from the update and the rest from the field |
| `FieldEditor.MergeIdentityAndIdempotent` | src/components/field-editor.tsx:57-59 | an empty update changes nothing and applying an update twice is applying it once |
| `FieldEditor.MergeCompose` | src/components/field-editor.tsx:57-59 | two updates in a row are one update where the second wins |
| `FieldEditor.Then` | src/components/field-editor.tsx:57-59 | combining two updates: an empty update on either side changes nothing, and options set by the second win |
| `FieldEditor.OptionsOf` | src/components/field-editor.tsx:62 | the options of a field: the options when present, none otherwise |
| `FieldEditor.SetOptions` | src/components/field-editor.tsx:63 | `{ options }` sets the options and no other key |
| `FieldEditor.AddOption` | src/components/field-editor.tsx:61-64 | adding appends one empty option and changes nothing else |
| `FieldEditor.UpdateOption` | src/components/field-editor.tsx:66-70 | editing an option sets that one and keeps the others and the count |
| `FieldEditor.RemoveOption` | src/components/field-editor.tsx:72-75 | removing filters out the option at the index and changes nothing else |
| `FieldEditor.RemoveAddedOption` | src/components/field-editor.tsx:61-75 | removing the option just added gives the options back |
| `FieldEditor.UpdateOptionUndo` | src/components/field-editor.tsx:66-70 | writing back the old value undoes an edit |
| `FieldEditor.OptionCount` | src/components/field-editor.tsx:82-91 | the count text starts with the count in decimal and ends in "s" exactly when the count is not 1 |
| `FieldEditor.ChoiceName` | src/components/field-editor.tsx:83-89 | a radio field is named "Radio button" and a multi field "Multi-select", and only they |
| `FieldEditor.Description` | src/components/field-editor.tsx:77-94 | a text field reads "Text input"; a choice field reads its name, a bullet and the option count of its options, 0 when missing |
| `FieldEditor.OptionCountReadsBack` | src/components/field-editor.tsx:82-91 | the count text starts with the count in decimal and ends in 's' exactly when the count is not 1 |
| `FieldEditor.DescriptionReadsBack` | src/components/field-editor.tsx:77-94 | a text field reads "Text input"; a choice field reads its kind, a bullet, then the option count, plural exactly when not 1 |
| `LiveConnection.OpenSources` | src/components/recent-submissions-feed.tsx:24-73 | the sources opened and not yet closed |
| `LiveConnection.Inv` | src/components/recent-submissions-feed.tsx:24-78 | while mounted every source but the latest is closed, and one reconnect is pending exactly when the latest was closed by an error |
| `LiveConnection.Mount` | src/components/recent-submissions-feed.tsx:73 | the first `connectToStream()` opens source 0, the current one, with nothing pending; `MountKeepsInv` states the invariant |
| `LiveConnection.MountKeepsInv` | src/components/recent-submissions-feed.tsx:73 | mounting opens one source and satisfies the connection invariant |
| `LiveConnection.Error` | src/components/recent-submissions-feed.tsx:64-68 | an error closes the current source and schedules one reconnect |
| `LiveConnection.Reconnect` | src/components/recent-submissions-feed.tsx:24-25 | a reconnect opens a new source and uses up a scheduled reconnect |
| `LiveConnection.UnmountAsWritten` | src/components/recent-submissions-feed.tsx:76-78 | the cleanup as written closes the first source only and keeps the scheduled reconnect |
| `LiveConnection.Unmount` | src/components/recent-submissions-feed.tsx:73-78 | the corrected cleanup closes the current source and cancels the scheduled reconnect |
| `LiveConnection.AtMostOneOpen` | src/components/recent-submissions-feed.tsx:24-73 | under the invariant at most the current source is open |
| `LiveConnection.ErrorKeepsInv` | src/components/recent-submissions-feed.tsx:64-68 | an error keeps the invariant |
| `LiveConnection.ReconnectKeepsInv` | src/components/recent-submissions-feed.tsx:67 | a reconnect keeps the invariant |
| `LiveConnection.UnmountAsWrittenLeavesLatest` | src/components/recent-submissions-feed.tsx:73-78 | under the invariant the cleanup as written leaves at most the latest source open; none before any reconnect, and an open reconnected source stays open |
| `LiveConnection.UnmountAsWrittenLeaks` | src/components/recent-submissions-feed.tsx:73-78 | after mount, error and reconnect, the cleanup as written leaves the second source open |
| `LiveConnection.UnmountAsWrittenKeepsReconnect` | src/components/recent-submissions-feed.tsx:67-78 | unmounting between an error and its reconnect leaves the reconnect scheduled, and it opens a source after unmount |
| `LiveConnection.UnmountClosesEverything` | src/components/recent-submissions-feed.tsx:73-78 | under the invariant the corrected cleanup leaves no source open and no reconnect scheduled |
| `RecentFeed.Entry` | src/components/recent-submissions-feed.tsx:35-40 | a feed entry copies the notification's id, form id, title and time |
| `RecentFeed.Prepend` | src/components/recent-submissions-feed.tsx:43 | the new entry goes first, the previous ones follow in order, and the list is cut to ten |
| `RecentFeed.NoDeduplication` | src/components/recent-submissions-feed.tsx:43 | the same notification twice gives two entries |
| `RecentFeed.OldestDropped` | src/components/recent-submissions-feed.tsx:43 | with ten entries the oldest is dropped |
| `RecentFeed.Feed.constructor` | src/components/recent-submissions-feed.tsx:16-20 | the feed starts empty, disconnected, with no highlight and one open source |
| `RecentFeed.Feed.Open` | src/components/recent-submissions-feed.tsx:27-29 | an open event marks the feed connected only |
| `RecentFeed.Feed.Message` | src/components/recent-submissions-feed.tsx:31-61 | a notification is prepended, highlighted and queued to lose its highlight; an unreadable message changes nothing |
| `RecentFeed.Feed.Expire` | src/components/recent-submissions-feed.tsx:51-57 | the oldest highlight timer removes its id from the highlights only |
| `RecentFeed.Feed.Error` | src/components/recent-submissions-feed.tsx:64-68 | an error marks the feed disconnected, closes the source and schedules a reconnect |
| `RecentFeed.Feed.Reconnect` | src/components/recent-submissions-feed.tsx:24-29 | a reconnect opens a new source, which is the open one while mounted, and changes no list; the timer can also fire after unmount |
| `RecentFeed.Feed.Unmount` | src/components/recent-submissions-feed.tsx:73-78 | the cleanup as written: closes the first source only, leaves at most the latest open (none before any reconnect) and keeps a scheduled reconnect |
| `RecentFeed.Feed.UnmountCorrected` | src/components/recent-submissions-feed.tsx:73-78 | the corrected cleanup leaves no source open and no reconnect scheduled |
| `SubmissionsRealTime.JsString` | src/components/submissions-real-time.tsx:140-142 | `String(value)`: a string is itself, null "null", a boolean "true" or "false", a number its decimal text, an array its items' texts joined by ",", an object "[object Object]" |
| `SubmissionsRealTime.ItemText` | src/components/submissions-real-time.tsx:140 | the text `join` uses for one item: "" for null, `String(item)` otherwise |
| `SubmissionsRealTime.ItemTexts` | src/components/submissions-real-time.tsx:140 | each array item prints as `String(item)`, null as "" |
| `SubmissionsRealTime.CellDisplay` | src/components/submissions-real-time.tsx:134-144 | a missing or null answer shows "-", an array its items joined by ", ", anything else `String(value)` |
| `SubmissionsRealTime.ItemTextsOfStrings` | src/components/submissions-real-time.tsx:140 | items that are strings print as themselves |
| `SubmissionsRealTime.JsStringOfStrings` | src/components/submissions-real-time.tsx:140-142 | `String` of a string array is its strings joined by "," |
| `SubmissionsRealTime.AnswersDisplay` | src/components/submissions-real-time.tsx:134-144 | a multi answer shows its options joined by ", " and a text answer shows itself |
| `SubmissionsRealTime.Table` | src/components/submissions-real-time.tsx:91-144 | no submissions render nothing; otherwise one row per submission with one cell per field showing that field's answer |
| `SubmissionsRealTime.Row` | src/components/submissions-real-time.tsx:46-51 | a row copies the notification's id, form id, time and answers |
| `SubmissionsRealTime.View.constructor` | src/components/submissions-real-time.tsx:30-34 | the view starts from the initial submissions, with no highlight and one open source |
| `SubmissionsRealTime.View.Message` | src/components/submissions-real-time.tsx:41-72 | a notification's row is prepended, highlighted and queued to lose its highlight; an unreadable message changes nothing |
| `SubmissionsRealTime.View.Expire` | src/components/submissions-real-time.tsx:62-68 | the oldest highlight timer removes its id from the highlights only |
| `SubmissionsRealTime.View.Error` | src/components/submissions-real-time.tsx:75-78 | an error closes the source and schedules a reconnect |
| `SubmissionsRealTime.View.Reconnect` | src/components/submissions-real-time.tsx:38-39 | a reconnect opens a new source, which is the open one while mounted, and changes no list; the timer can also fire after unmount |
| `SubmissionsRealTime.View.Unmount` | src/components/submissions-real-time.tsx:83-89 | the cleanup as written: closes the first source only, leaves at most the latest open (none before any reconnect) and keeps a scheduled reconnect |
| `SubmissionsRealTime.View.UnmountCorrected` | src/components/submissions-real-time.tsx:83-89 | the corrected cleanup leaves no source open and no reconnect scheduled |

## Left out

- JSON numbers are integers; floating point and `NaN` are not modelled.
- `toLowerCase` and `trim` are modelled on ASCII letters and ASCII whitespace; Unicode case mapping and Unicode spaces are not.
- Zod's issue messages and codes are abstracted to three codes plus the custom messages the renderer sets.
- `crypto.randomUUID`, `crypto.getRandomValues`, `Date.now`, timers and the network are parameters or methods the environment calls.
- The limiters' sliding-window algorithm and configuration (src/lib/ratelimit.ts:6-18) are external; only the allow/deny result and the reset time enter the model.
- The stream, submission, update and publisher routes, the pages and the UI components other than those listed are not part of this model.
- `Promise.all` in getAllForms and getSubmissions is modelled as a sequential fetch; no interleaving with writes is modelled.
- `getAllFormIds` returns the set's members in an order the model leaves open, as Redis does.
- Sorted-set members with equal scores are ordered by their characters, as Redis orders them by bytes; non-ASCII byte order is not distinguished.
- The timestamp cell (`formatInTimeZone`) and all styling are not modelled.
- A malformed stream message is modelled as one that does not parse (`None`); partially valid JSON is not distinguished.
- Events that reach a component after it unmounts, other than the reconnect timer, are not modelled: the open, message and error events of a source left open by the cleanup as written.
- `Redis.Store.CreateSubmission`: modelled as one atomic step that cannot fail; the source's `set` (src/lib/redis.ts:66) and `zadd` (src/lib/redis.ts:67-70) are separate calls, and a failed `zadd` would leave a record that is never listed or counted, outside the store invariant.
- `Redis.Store.DeleteForm`: modelled as one atomic step that cannot fail; the source's deletes and `srem` (src/lib/redis.ts:33-41) are separate calls, and a failure between them would leave part of the form behind. Partial failures are modelled only for `createForm` in the create route (`CreateRoute.StoreWrites`).
- A change of `formId` re-running the per-form view's effect is not modelled; `View.formId` is kept as state that no method changes.
- The highlight timers all have the same 3-second delay, so they are modelled as a first-in first-out queue of ids.
- `FormRenderer.Renderer.ToggleMultiOption`: requires the current value to be an array, as the source's `as string[]` cast assumes.
- `FormRenderer.Renderer.UpdateField`: always drops the field's error; the source drops it only when the message is truthy, and every message it stores is non-empty.
- `FieldEditor.UpdateOption`: requires an index within the options; the editor only offers existing indexes, and writing past the end would leave holes in the array.
- `FormBuilder.Builder.HandleDragOver`: requires the dragged and target indexes to be within the fields; out-of-range indexes would insert `undefined`.
- `FormBuilder.Builder.HandleSave`: requires `saving` false, as the button is disabled while saving (src/components/form-builder.tsx:200); `onSave` itself is not modelled, so the `saving` window around it, which starts and ends inside one call, is not observable; the projection of each field onto its six properties is the identity on the model's `Field`, and the saved title is the untrimmed one, as in the source.
- `cn` (class-name merging) is left out; it only affects styling.

## Findings

| source | as written | input that shows it | evidently intended | confidence | as-written member | corrected member |
|---|---|---|---|---|---|---|
| src/lib/utils.ts:14-20 | trailing hyphens are stripped before the 50-character cut, so the cut can end on a hyphen | a title of a 49-letter word, a space, and another word | a slug with no hyphen at either end, so the id never reads `…-~abc123` | not executed | `Utils.SlugCanEndWithHyphen` | `Utils.SlugCorrected` |
| src/components/recent-submissions-feed.tsx:73-78 | the cleanup closes the first event source only; after an error and reconnect the live source and a pending reconnect survive unmount (same in src/components/submissions-real-time.tsx:83-89) | mount, an error, the reconnect timer firing, then unmount | unmount closes the current source and cancels a pending reconnect | not executed | `LiveConnection.UnmountAsWrittenLeaks` | `LiveConnection.UnmountClosesEverything` |
