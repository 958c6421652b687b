# AIRA gateway: verification of the core algorithms

A Dafny model of the parts of the AIRA gateway, and of its operating tools, that have the most state
and the most cases, with proofs of what the code and its documentation promise about them:

- **Stored content** (`Retention`, `Payloads`, `Lifecycle`, with `RequestLog` and `Sql`): the pruner that
  clears payloads and deletes rows, the reader that decides who may see a payload and why one is missing,
  the list's SQL filter, and the agreements between them. SQL's three-valued logic is written out.
- **Attachments** (`Base64`, `Decimal`, `JsonValues`, `Attachments`): strict base64 in either alphabet, and the
  rewriting of payload trees before they are stored.
- **Configuration** (`Text`, `EnvGrammar`, `EnvFile`, `DuplicatedKeys`, `ConfigRender`, `ConfigVerify`):
  rendering a document, writing it to an environment file, reading it back, and comparing file and source.
- **The OTLP inspector** (`Octets`, `Gunzip`, `HecEvents`, `RecordCount`, `Inspector`): the bounded inflate, the
  reader of concatenated JSON objects, the record count, the capped ring buffer and its lifetime counters.
- **The counter migration** (`LikePatterns`, `MemberCounters`, `SingleRows`, `CounterLosses`, `CounterOwners`,
  `MappingOrder`): the nested merge loop, whose rows its LIKE patterns take, when it conserves, and when the
  order of the mapping decides.
- **The load test's clock** (`SimModels`, `StreamClock`): streamed and buffered answers on one promise.
- **The cancellation shield** (`Shielding`): every interleaving of the work, the waiter and cancellations.
- **Versions and prices** (`ReleaseVersion`, `Pricing`).

Code that changes state step by step is a method, or a class with the code's own fields, proved against a
function of its inputs; what the source promises is then proved of that function. What is pure in the
source is a function here.

`dafny verify dfyconfig.toml` checks the whole project.

## Where the code and its promises part

Each of these is proved, with the exact condition or an input that shows it.

- The environment file reads back as it was written only when every name is clean and no value holds a line
  separator other than `\n` and `\r`: `splitlines` breaks on all of them and the quoting escapes two
  (`EnvFile.FileRoundTrip`). The same condition decides whether a fresh file verifies clean
  (`ConfigVerify.FreshFileIsFaithful`).
- A line such as ` #A=1` is read as a setting named `#A` and is invisible to the duplicate check, which
  strips the line first (`DuplicatedKeys.SpacedCommentIsReadAndNotChecked`).
- `verify` raises an `IndexError` on a file that kept its source stamp and lost its digest stamp
  (`NoDigestStamp` in `ConfigVerify.Verify`).
- `strip_attachments` does not look inside the siblings of an inline datum, nor below a second wrapper key
  whose map names no media type (`Attachments.ExposedOnlyOutOfReach`). It measures a datum that is no string
  by the text Python prints for it: null, a missing datum and `true` are recorded as three bytes, and a number
  as the bytes its numeral spells (`Attachments.InlineSizeRight`, `Attachments.MissizedData`).
- A traces body `{"resourceSpans": [1]}` makes the record count raise behind the `try`, and one nested deeper
  than the interpreter recurses raises what is no `ValueError`; the batch is then neither numbered nor counted
  nor kept (`RecordCount.MisshapenRaises`, `Inspector.Inspector.Record`).
- The list and the reader part for a caller with two grants for one slug, for an investigator without
  `payload.read_any`, for a caller with `payload.read_any` who neither investigates nor administers, and for
  the empty slug (`Payloads.ListAndReaderAgree`, `Payloads.ReadablePayloadDropped`,
  `Payloads.EmptySlugPartsThem`).
- Strict data mode differs from storing `oversight` everywhere for a use case missing from the read-model
  (`Payloads.StrictIsOversightEverywhere`).
- A removed payload of a request that was not served is reported as one that never existed when the rules
  changed between pass and read (`Lifecycle.RemovalMisreportedExactlyWhen`): when storage was off at the pass
  (`Lifecycle.StorageToggledMisreports`), and when the period has been lengthened, as for a refused row of
  eight days cleared under seven and read under thirty (`Lifecycle.LongerPeriodMisreports`).
- The counter migration takes rows by how their keys end. No subject selects only its own
  (`CounterOwners.NeverOnlyItsOwn`): a subject `x` also takes the person `f:9:x`, whose spend ends under
  `f:9:` and the mapped name, a key that belongs to nobody, as the split then cuts part of the person off
  with the slug (`CounterOwners.TakenSpendMoves`, `CounterOwners.SplitExactlyWhen`). One that holds `_` takes
  other people's rows besides: with `a_b` mapped to `z` the counters of `axb` become those of `z`
  (`CounterOwners.OnlyItsOwnExactlyWhen`). One that holds `%` or an escape can move spend to another use case,
  and a pattern that fits the end of the name loses counters (`CounterLosses.ConservesExactlyWhen`).
- Its result depends on the order of the mapping when a name is itself a mapped subject
  (`MappingOrder.OrderIrrelevantExactlyWhen`), and when two patterns fit one key and send it to different
  places (`MappingOrder.SettledOrderIrrelevantExactlyWhen`).
- The cancellation `uninterrupted` delivers is the last one thrown, which need not be the last one asked
  for: of two that arrive during one wait asyncio throws the first (`Shielding.WhichOfTwo`).
- A request can get cheaper by one more prompt token when any one of the five rates charges less above the
  threshold (`Pricing.NeverCheaperExactlyWhen`).
- Keeping more cache writes for the hour can lower a cost by one nano-unit, where the two shares are rounded
  apart (`Pricing.NanoUnitLostExactlyWhen`).

## Model

| member | source | states |
|---|---|---|
| EnvGrammar.ReadWrite | tools/config_render.py:147-179 | Every string, whatever it holds, is read back as it was written. |
| EnvGrammar.WrittenForCompose | tools/config_render.py:147-164 | Whatever a value holds, Compose, which takes a plain text and what stands between single quotes literally and interpolates and unescapes between double ones, reads it back as it was. |
| EnvGrammar.ReaderIsComposes | tools/config_render.py:167-179 | On everything Compose reads, and not only on what the writer writes, the reader reads the same. |
| EnvGrammar.QuotedWhereNeeded | tools/config_render.py:147-164 | A value is written bare exactly when it is made of plain characters, and between single quotes exactly when it is not and they can hold it. |
| EnvGrammar.EnvValueInjective | tools/config_render.py:147-164 | Two values with one spelling are one value. |
| EnvGrammar.WrittenOnOneLine | tools/config_render.py:159-164 | A written value stays on one line exactly when it holds no line separator other than `\n` and `\r`. |
| EnvFile.AsEnvFile | tools/config_render.py:182-205 | The file is the header and one line for each value, in the order the names are listed, each terminated. |
| EnvFile.EnvPairs | tools/config_render.py:245-252 | The loop builds the dictionary the lines define, a later line of a name replacing an earlier one. |
| EnvFile.FileRoundTrip | tools/config_render.py:182-252 | Writing a map and reading it back gives that map if and only if every name is clean and no value holds an exotic separator. |
| Text.SplitAtBreak | tools/config_render.py:245-248 | A text is cut into lines at its first break, a carriage return with the line feed behind it or any one separator, and no empty line is left at its end. |
| DuplicatedKeys.FindDuplicatedKeys | tools/config_render.py:330-357 | The loop over the lines reports what the specification of the reports says. |
| DuplicatedKeys.DuplicatesCounted | tools/config_render.py:344-357 | Reports and distinct keys together number the definitions. |
| DuplicatedKeys.DuplicatesAreConsecutive | tools/config_render.py:330-357 | A report exists exactly for two lines that set one key with no line between them that does. |
| DuplicatedKeys.TwoReadings | tools/config_render.py:247-251 | The key the duplicate check sees on a line is the name the dictionary's reader sees there, except for names that begin with `#`. |
| DuplicatedKeys.SilenceMeansDefinedOnce | tools/config_render.py:245-357 | Silence, where no name beginning with `#` is defined twice, holds if and only if no two lines define one name for the dictionary's reader. |
| DuplicatedKeys.SpacedCommentIsReadAndNotChecked | tools/config_render.py:346-349 | Two lines that set `#A` behind a space are read, the second winning, and not reported. |
| ConfigRender.Render | tools/config_render.py:97-126 | The document's settings with the last one of a name winning, or the first refusal in document order with its section, key and name. |
| ConfigRender.RefusedUnlessRenderable | tools/config_render.py:97-126 | Nothing is refused exactly of a mapping of mappings in which no setting is a mapping and none carries a credential's name. |
| ConfigRender.NoCredentialRendered | tools/config_render.py:120-124 | No name a document renders to is a credential's. |
| ConfigRender.LastSettingWins | tools/config_render.py:102-126 | A setting's value is the file's unless a later setting has the same name. |
| ConfigRender.ScalarWritten | tools/config_render.py:79-92 | Nothing is written for null, a flag in lower case, a text as it is, and a list as its items' values with a comma wherever it is cut in two. |
| ConfigRender.SettingNamed | tools/config_render.py:113-119 | A name is the upper case of its key behind `VAULT_`, `AIRA_`, or `AIRA_` and its section. |
| ConfigRender.RenderedValuesClean | tools/config_render.py:113-126 | As rendered names begin with a prefix in upper case, a document is read back exactly when its names end in no space and hold neither `=` nor a separator, and no value holds an exotic one. |
| ConfigVerify.CompareWithSource | tools/config_render.py:393-433 | The findings are exactly the duplicates, a changed digest, the missing, the edited and the appended names. |
| ConfigVerify.SoundAndComplete | tools/config_render.py:360-433 | No finding is possible exactly of a file whose digest matches, that defines nothing twice and whose pairs are what its source renders to. |
| ConfigVerify.StampExactly | tools/config_render.py:371-400 | A stamp is read as what follows it, trimmed, on the first line that starts with it. |
| ConfigVerify.Verify | tools/config_render.py:360-433 | Every early return and error of the check under its own condition, and otherwise an empty list exactly for a faithful file. |
| ConfigVerify.FreshFileIsFaithful | tools/config_render.py:182-433 | A file verified right after rendering is faithful exactly when its names are clean and no value holds an exotic separator. |
| ConfigVerify.RenderThenVerify | tools/config_render.py:470-525 | Rendering, writing and verifying in one: nothing is written of a refused document, and otherwise the report is empty exactly for clean names and values. |
| Gunzip.Decompressor.Decompress | tools/otlp_inspector.py:154-164 | The contract of the library's decompressor: pieces in order, at most a step each, a full one whenever input is left, an error only for corrupt data. |
| Gunzip.Inflate | tools/otlp_inspector.py:139-168 | Equals one-shot decompression within the limit; past it an empty body with a size over the limit by a step at most; `None` for what is not gzip; never more work than limit and step. |
| Gunzip.MembersThenTail | tools/otlp_inspector.py:152-165 | Concatenated members decompress to the concatenation of their contents, and what trails them decides whether the whole is gzip. |
| HecEvents.ReadEvents | tools/otlp_inspector.py:171-189 | The loop returns the events from the start of the text, or the error of the first thing that is not an object. |
| HecEvents.ReadsExactlyRuns | tools/otlp_inspector.py:171-189 | A body is read as a list of objects exactly when it is a run of them with nothing but spaces around. |
| HecEvents.RefusesExactlyFaults | tools/otlp_inspector.py:171-189 | It is refused with an error if and only if a run of objects leads to something of which that error is told: no JSON or nesting too deep with its place, another value with its type. |
| HecEvents.PrintedRunIsRead | tools/otlp_inspector.py:171-189 | Any list of objects printed one after another, with any spaces before, between and after, is read back as that list. |
| HecEvents.NonObjectRefused | tools/otlp_inspector.py:187-188 | A run of objects followed by anything that does not start with an object is refused. |
| RecordCount.CountedExactlyWhen | tools/otlp_inspector.py:222-245 | Counting a batch raises exactly for a document whose lists, resources or scopes are not shaped as its signal's. |
| RecordCount.CountsTheRecords | tools/otlp_inspector.py:222-245 | A document is counted to a number if and only if it is shaped as its signal's and has records in that many places, a place being a resource, a scope in it and a leaf in that. |
| RecordCount.MisshapenRaises | tools/otlp_inspector.py:232-245 | One resource that is no mapping is enough to raise. |
| Inspector.Inspector.Keep | tools/otlp_inspector.py:354-362 | Numbers an arrival, counts it and appends it; ring and counters go on describing the whole history. |
| Inspector.Inspector.Record | tools/otlp_inspector.py:261-326 | Which bytes and size an arrival is kept with, for plain and gzip bodies, over and under the limit, whole or broken; it is kept with what they read as, and where reading raises past the reader, ring, numbers and counters stay as they were. |
| Inspector.Inspector.Read | tools/otlp_inspector.py:298-324 | A body keeps its text and a count exactly when it decodes to a run of that many objects, or to one object of its signal's shape with records in that many places; what is nested too deep or misshapen raises, anything else keeps neither. |
| Inspector.ReadsOneWay | tools/otlp_inspector.py:298-324 | That determines what is kept of any bytes. |
| Inspector.Inspector.Refuse | tools/otlp_inspector.py:328-352 | A refused batch is numbered and counted like any other, with no records. |
| Inspector.Inspector.Arrivals | tools/otlp_inspector.py:364-367 | The newest arrivals of the whole history, at most `keep` of them, newest first. |
| Inspector.Inspector.Find | tools/otlp_inspector.py:369-371 | Finds a number exactly when it is among the newest `keep`, and then the arrival that was given it. |
| Inspector.Inspector.Summary | tools/otlp_inspector.py:373-383 | The batches and records of each signal over every arrival there ever was, and the time of the last. |
| Inspector.EveryArrivalCountedOnce | tools/otlp_inspector.py:354-362 | The batch counts of the four signals add up to all arrivals, evicted ones included. |
| Retention.RetentionService.Prune | gateway/src/aira_gateway/retention.py:63-118 | One pass, with the use cases in any order, leaves each row deleted, cleared or untouched as its clocks say, counts both exactly, and appends its record. |
| Retention.RetentionService.ClearPayloads | gateway/src/aira_gateway/retention.py:134-163 | Payloads are gone from exactly the rows of the statement that are past the cutoff and had one, every other column and row is as it was, and the count is the number of payloads gone. |
| Retention.SelectsTheExpired | gateway/src/aira_gateway/retention.py:148-160 | Under three-valued logic the WHERE clause selects a row of the use case, or of none that is known, when it is past the cutoff and has a payload, and no other. |
| Retention.MetadataSurvives | gateway/src/aira_gateway/retention.py:144-162 | Every kept row is an original row that differs in its payloads at most, and kept and deleted rows add up. |
| Retention.OnlyTheLastPassShows | gateway/src/aira_gateway/retention.py:63-118 | A whole run of passes under unchanged rules, whenever each of them comes, leaves the log and deletes the rows that its last pass alone would. |
| Retention.SecondPassDoesNothing | gateway/src/aira_gateway/retention.py:144-147 | A second pass at the same time clears and deletes nothing. |
| Retention.ClearingsCountedOnce | gateway/src/aira_gateway/retention.py:144-147 | Two passes never count a clearing twice, and miss none unless the record clock took the row first. |
| Payloads.OwnRequestsAgree | gateway/src/aira_gateway/payloads.py:214-252 | Under three-valued logic the filter is true of exactly the rows the predicate accepts. |
| Payloads.ListAndReaderAgree | gateway/src/aira_gateway/payloads.py:341-504 | For every caller, grants and row, outside strict mode: the list drops the row exactly when the reader refuses its payload as another person's, if and only if a condition on permissions, member rows, grants and the slug holds. |
| Payloads.OthersRequestIffRestricted | gateway/src/aira_gateway/payloads.py:341-504 | For the callers the list is written for, the reader refuses a row as another person's exactly when its use case is restricted and the row is not the caller's. |
| Payloads.AuthorityExactlyWhen | gateway/src/aira_gateway/payloads.py:341-374 | Each ground and each refusal exactly when: with `payload.read_any` always; inside the use case never under `oversight` or strict mode, whatever the role; to others' rows under `own` for administrators, by member row or last grant, only; outside by whether every trace is readable. |
| Payloads.VerdictExactlyWhen | gateway/src/aira_gateway/payloads.py:277-329 | The whole verdict: allowed on a ground with a payload, refused without a ground, and otherwise each reason for a missing payload exactly under its condition, in the order they are asked. |
| Payloads.RetentionReached | gateway/src/aira_gateway/payloads.py:319-329 | The reader's clock is reached when more than the use case's own days, the default ones for none or zero, or one at least, have gone by. |
| Payloads.PeopleRestrictedExactlyWhen | gateway/src/aira_gateway/payloads.py:414-504 | How often a slug is listed as withheld by person, from strict mode, investigation, membership, the stored visibility and who administers. |
| Payloads.EmptySlugPartsThem | gateway/src/aira_gateway/payloads.py:348-353 | Where the list is narrowed in the empty slug, the reader answers that the row is out of scope, or not for an oversight role to read. |
| Payloads.ListDropsTheHidden | gateway/src/aira_gateway/api/reporting/traces.py:207-281 | Under three-valued logic the list drops exactly the rows the opened request hides. |
| Payloads.ReadablePayloadDropped | gateway/src/aira_gateway/payloads.py:345-346 | To a caller who reads every payload without investigating or administering, the list drops a row whose payload the reader hands out. |
| Payloads.StrictIsOversightEverywhere | gateway/src/aira_gateway/payloads.py:71-78 | Strict mode answers as `oversight` stored everywhere would, exactly unless the caller's use case is missing from the read-model. |
| Payloads.StrictRestrictsAsOversight | gateway/src/aira_gateway/payloads.py:387-411 | Restricted use cases are the same under either. |
| Payloads.StrictWithholdsPeopleAsOversight | gateway/src/aira_gateway/payloads.py:414-453 | So are those withheld by person, exactly when the caller's use cases are distinct and all present, or the caller investigates. |
| Payloads.ReadabilityGrows | gateway/src/aira_gateway/payloads.py:277-374 | Opening a use case further, from `oversight` over `own` to `members`, never takes a payload away from anybody. |
| Lifecycle.OneClock | gateway/src/aira_gateway/payloads.py:319-329 | For every period and default the reader's clock and the pruner's cutoff say the same of a row, exactly unless storage is off and the row is younger than its period. |
| Lifecycle.RecordClock | gateway/src/aira_gateway/retention.py:61-101 | A pass deletes a row exactly when a record period is set and more than its days have gone by. |
| Lifecycle.PassTakesExactlyTheExpired | gateway/src/aira_gateway/payloads.py:277-316 | After a pass a caller may read what they could before, short of exactly the rows past their cutoff. |
| Lifecycle.NothingReadPastItsClock | gateway/src/aira_gateway/retention.py:63-88 | After a pass no row past its clock is readable, by anybody. |
| Lifecycle.RemovalMisreportedExactlyWhen | gateway/src/aira_gateway/payloads.py:277-316 | Whatever read-model and default a payload was removed under, it is reported as one that never existed exactly when the request is not the gateway's own, its use case stores or is unknown, it was not served, and the reader's clock has not reached it. |
| Lifecycle.RemovalIsReportedAsRemoval | gateway/src/aira_gateway/payloads.py:304-314 | While read-model and default stay as they were at the pass, a removed payload is reported as not stored, expired or past retention, never as one that never existed. |
| Lifecycle.StorageToggledMisreports | gateway/src/aira_gateway/payloads.py:307-314 | With storage off at the pass and on at the read, exactly the unserved requests younger than the restored period are misreported. |
| Lifecycle.LongerPeriodMisreports | gateway/src/aira_gateway/payloads.py:307-329 | With storage on throughout and a longer period at the read, exactly the unserved requests between the two cutoffs are cleared and misreported. |
| Base64.AcceptedExactly | gateway/src/aira_gateway/attachments.py:93-100 | A text is accepted exactly when its data are letters of either alphabet and its padding fits, and it then yields a byte for every eight bits. |
| Base64.DecodesExactly | gateway/src/aira_gateway/attachments.py:77-100 | A text decodes to given bytes if and only if it spells them: letters that stand in the tables of RFC 4648, either alphabet letter by letter, for values that are the bytes when four are read as one number of 24 bits, and then as much padding as one likes. |
| Base64.RoundTrip | gateway/src/aira_gateway/attachments.py:93-100 | Every byte string has a spelling, and its encoding, padded in part or in full, decodes to it. |
| Base64.ForeignLetterRefused | gateway/src/aira_gateway/attachments.py:93-100 | A character outside both alphabets, trailing padding aside, refuses the text. |
| Base64.LengthOneOverRefused | gateway/src/aira_gateway/attachments.py:93-100 | A length of one over a multiple of four is refused, short of padding a tolerant library ignores. |
| Base64.UploadArrives | gateway/src/aira_gateway/attachments.py:103-115 | An upload arrives as the bytes it spells if there are any; it is refused as empty exactly when it is the empty text, and as no base64 exactly when it spells nothing. |
| Attachments.ExposedOnlyOutOfReach | gateway/src/aira_gateway/attachments.py:196-235 | Raw bytes are left in a stripped tree exactly when the payload has some beside an inline datum or below a second wrapper without a media type. |
| Attachments.OrdinaryPayloadIsStripped | gateway/src/aira_gateway/attachments.py:196-235 | With scalar siblings and one wrapper key at most for each map, no raw bytes are left. |
| Attachments.SiblingSurvives | gateway/src/aira_gateway/attachments.py:207-212 | An attachment nested beside another keeps its bytes. |
| Attachments.StripKeepsShape | gateway/src/aira_gateway/attachments.py:196-235 | Every list keeps its length, every map its keys, and every scalar that is not replaced its value. |
| Attachments.TextOnlyUntouched | gateway/src/aira_gateway/attachments.py:196-235 | A tree with no inline datum and no wrapped map is returned as it is. |
| Attachments.InlineSizeIsDecodedSize | gateway/src/aira_gateway/attachments.py:177-212 | What stands in place of an inline datum is the size and digest of the bytes its letters spell. |
| Attachments.UndecodedDatum | gateway/src/aira_gateway/attachments.py:177-193 | A string that spells no bytes is recorded as none, without a digest. |
| Attachments.WrappedSizeIsDecodedSize | gateway/src/aira_gateway/attachments.py:214-234 | Under the first wrapper key that holds a map stand the size and digest of the bytes spelled there, the media type the map names, and its length in seconds exactly where the format tells one. |
| Attachments.TypeNamed | gateway/src/aira_gateway/attachments.py:217 | The media type is what the camel-case key holds unless that is missing or falsy, then what the other does, then `unknown`. |
| Attachments.InlineSizeRight | gateway/src/aira_gateway/attachments.py:177-212 | The size recorded for an inline datum is that of the bytes sent, and none for what is no base64 string, exactly when the datum is a string or Python's text for it is empty or does not decode. |
| Attachments.WrappedSizeRight | gateway/src/aira_gateway/attachments.py:214-234 | The same of a datum under a wrapper key, a missing one read as null. |
| Attachments.MissizedData | gateway/src/aira_gateway/attachments.py:177-193 | Null and `true` are recorded as three bytes, and a number as the bytes its numeral spells. |
| MemberCounters.PatternMatches | gateway/migrations/versions/0032_merge_member_counters.py:54-57 | Whatever the subject holds, the query selects exactly the member keys in which what follows some colon is LIKE the subject. |
| MemberCounters.PlainMatches | gateway/migrations/versions/0032_merge_member_counters.py:54-57 | For a subject with no wildcard but `_` these are the member keys whose last letters fit it, behind a colon. |
| MemberCounters.SplitOff | gateway/migrations/versions/0032_merge_member_counters.py:60-63 | The split takes a colon's and the subject's length off what follows the prefix, and leaves nothing of what is not longer. |
| MemberCounters.MoveAdds | gateway/migrations/versions/0032_merge_member_counters.py:64-90 | After a row is moved, each of the four counters under its new key is the integer sum of those it had and those that stood there, the old key is gone and every other row is as it was. |
| CounterOwners.SelectsWhomItTakes | gateway/migrations/versions/0032_merge_member_counters.py:48-62 | For every subject, every person and a slug free of colons: the row is selected exactly when the person is LIKE the subject, or what follows a colon of theirs is. |
| CounterOwners.PlainTakes | gateway/migrations/versions/0032_merge_member_counters.py:48-62 | For a subject with no wildcard but `_` these are the persons who fit it, or do so behind a colon of theirs. |
| CounterOwners.NeverOnlyItsOwn | gateway/migrations/versions/0032_merge_member_counters.py:48-62 | No subject selects its own rows and no others: whoever is known under an issuer, a colon and what it matches is taken for it. |
| CounterOwners.OnlyItsOwnExactlyWhen | gateway/migrations/versions/0032_merge_member_counters.py:48-62 | Among persons free of colons a subject selects its own rows and no others exactly when it holds no wildcard and no escape, or a colon. |
| CounterOwners.SplitExactlyWhen | gateway/migrations/versions/0032_merge_member_counters.py:60-63 | The split recovers the slug of a row taken exactly when the person is no longer than the subject. |
| CounterOwners.TakenSpendMoves | gateway/migrations/versions/0032_merge_member_counters.py:59-90 | The row of a person taken has one outcome: what precedes the subject in their name, followed by the mapped name, or nothing when that is their own key. |
| MemberCounters.BudgetUsage.MergeSubject | gateway/migrations/versions/0032_merge_member_counters.py:49-90 | The inner loop moves every row the query selected once, in any order, each by the counters it was read with. |
| MemberCounters.BudgetUsage.Upgrade | gateway/migrations/versions/0032_merge_member_counters.py:33-90 | Where no pair of names loses, every total of each of the four counters, a sum of integers, is conserved and the table is the original grouped by where the mapping takes each key, told by the key's ending and not by its owner; where moreover no name is read again, nothing is left that a mapped subject selects. |
| MemberCounters.UpgradeGroups | gateway/migrations/versions/0032_merge_member_counters.py:48-90 | Any run over a mapping that never loses leaves under each key, for each of the four counters, the integer sum over the original rows the mapping takes there, and no other key. |
| MemberCounters.EveryStepConserves | gateway/migrations/versions/0032_merge_member_counters.py:59-90 | For any subject, after any number of rows the total of each of the four counters, in every use case and period, is as it was, so long as no row is merged into one the query has read or into another use case. |
| MemberCounters.SameScope | gateway/migrations/versions/0032_merge_member_counters.py:60-63 | A row selected for a subject with no wildcard but `_` stays in its use case. |
| CounterLosses.ConservesExactlyWhen | gateway/migrations/versions/0032_merge_member_counters.py:48-90 | One subject's merge conserves the totals of all four counters, sums of integers, in every table if and only if the subject selects nothing, or has no wildcard but `_` and its pattern does not fit the end of the name. |
| MappingOrder.OneOutcomeExactlyWhen | gateway/migrations/versions/0032_merge_member_counters.py:37-90 | Over all tables and runs, where no pair of names loses, the order of the mapping decides nothing if and only if every order takes each key to one place. |
| MappingOrder.SettledOrderIrrelevantExactlyWhen | gateway/migrations/versions/0032_merge_member_counters.py:37-90 | Where no name is read again and subjects may hold `_`, the order decides nothing if and only if any two subjects that select one key merge it to one place. |
| MappingOrder.AlikeExactlyWhen | gateway/migrations/versions/0032_merge_member_counters.py:54-63 | With names free of colons two subjects do so exactly when their patterns fit no key in common, or are equally long and mapped to one name. |
| MappingOrder.OrderIrrelevantExactlyWhen | gateway/migrations/versions/0032_merge_member_counters.py:37-90 | With names free of colons and wildcards, each subject once, the order decides nothing for any table if and only if no name is itself a mapped subject. |
| MappingOrder.MappingOrderIrrelevant | gateway/migrations/versions/0032_merge_member_counters.py:37-90 | Two runs over such a mapping without a chain, in any two orders, end in one table. |
| SimModels.RangeIsCeil | tools/loadtest/modelsim.py:303-344 | The streaming loop runs as often as the promise counts, exactly for counts above minus one chunk. |
| SimModels.PlanSplitsTheAnswer | tools/loadtest/models.py:70-79 | Visible and thinking tokens are not negative and add up to what was asked for or the model's limit, thinking has the whole tokens of its share, and a tool call answers with twelve. |
| SimModels.PromiseIs | tools/loadtest/models.py:81-98 | Beyond the wait for the first token the promise, times the declared speed, is the declared tokens of every chunk of either part; without a speed it is that wait. |
| StreamClock.Clock.Wait | tools/loadtest/modelsim.py:412-415 | Never returns before the deadline, sleeps not at all when it has passed, and is late by one overshoot at most. |
| StreamClock.SendPaced | tools/loadtest/modelsim.py:303-347 | Each event is due a gap after the one before and leaves no earlier; on a calm machine none is later than one overshoot, however many there are. |
| StreamClock.Stream | tools/loadtest/modelsim.py:268-364 | The last deadline is the start plus the declared seconds plus the extra latency; every paced event is on schedule, never early, and at most one overshoot late on a calm machine. |
| StreamClock.Buffered | tools/loadtest/modelsim.py:241 | The buffered answer is promised the same seconds and is late by one overshoot. |
| StreamClock.Chat | tools/loadtest/modelsim.py:235-241 | Streamed or not, a request is promised the declared time of one and the same plan. |
| Shielding.WaiterKeepsTrack | gateway/src/aira_gateway/shielding.py:33-42 | Over every schedule the work ends only by itself, and the waiter's sleep, its pending cancellation and the last one thrown are what the schedule tells. |
| Shielding.LeavesWithWhatIsOwed | gateway/src/aira_gateway/shielding.py:43-50 | The waiter leaves with the work done and delivers the last cancellation thrown into it, with the work's failure on it, and otherwise what the work produced. |
| Shielding.NeverEarlyNeverLost | gateway/src/aira_gateway/shielding.py:27-50 | For every schedule in which the waiter leaves, it left with the work done; it raises the last cancellation thrown exactly when one had arrived by then, and otherwise delivers what the work produced. |
| Shielding.NoneIsLost | gateway/src/aira_gateway/shielding.py:37-49 | Whichever of several cancellations is thrown, one is raised if any arrived in time. |
| Shielding.WhichOfTwo | gateway/src/aira_gateway/shielding.py:37-42 | Of two cancellations the first is delivered when the wait was still pending, the second when the end of the work had been noticed. |
| Shielding.LeavesOnceDone | gateway/src/aira_gateway/shielding.py:36-42 | Once the end of the work is noticed the waiter's next run is its last, however often it was cancelled. |
| Shielding.UnscopedKeeps | gateway/src/aira_gateway/shielding.py:35 | What a schedule is without its scope: every other event as often as it came. |
| Shielding.ScopeIsShielded | gateway/src/aira_gateway/shielding.py:35 | Behind the shield a cancelled scope, deliver as often as it may, changes neither the work nor how often the waiter runs nor what is delivered. |
| Shielding.WakesAreEarned | gateway/src/aira_gateway/shielding.py:35-42 | Behind the shield every run of the waiter but its last answers a cancellation of its own. |
| Shielding.ScopeGetsThrough | gateway/src/aira_gateway/shielding.py:35-49 | Without the shield a scope that delivers into a pending wait is what the caller gets, whatever the work produced. |
| Shielding.UnshieldedSpins | gateway/src/aira_gateway/shielding.py:35-42 | Nor is there a bound to how often it wakes the waiter without the shield; behind it, it never does. |
| Shielding.Loop.Wait | gateway/src/aira_gateway/shielding.py:40 | Waiting follows the schedule to the run that finds the wait over, and returns or raises as that run does. |
| Shielding.Uninterrupted | gateway/src/aira_gateway/shielding.py:27-50 | The loop delivers, under every schedule, what the state machine over its events delivers. |
| ReleaseVersion.OneSpelling | tools/release_version.py:34-92 | A tag names a version exactly when, trimmed, it is that version's rendering. |
| ReleaseVersion.ParseRender | tools/release_version.py:46-92 | A rendered version parses to itself. |
| ReleaseVersion.NextIsAhead | tools/release_version.py:61-87 | The next version is ahead of every release, resets what is less significant, and is spelled by no existing tag; it is `v0.1.0` where nothing has been released; an unknown part is refused either way. |
| ReleaseVersion.NextIsNearest | tools/release_version.py:61-74 | No version of the part's kind lies between the latest and the next. |
| Pricing.GrowingNeverCheaper | gateway/src/aira_gateway/pricing.py:77-113 | Any number of further tokens of one kind never makes a request cheaper, whatever the report claims about its cache, when no rate charges less above the threshold. |
| Pricing.NeverCheaperExactlyWhen | gateway/src/aira_gateway/pricing.py:77-113 | For every price, no request gets cheaper by growing if and only if no second set of rates can apply or none of its five rates charges less than the ordinary one. |
| Pricing.LowerRateBreaksIt | gateway/src/aira_gateway/pricing.py:104-113 | Where any one of the five rates charges less above the threshold, some request gets cheaper by one more prompt token. |
| Pricing.SharesPartitionWrites | gateway/src/aira_gateway/pricing.py:176-179 | The two shares of the cache writes add up to the writes, and neither is negative when those are not. |
| Pricing.LongerCachingCostsNoLess | gateway/src/aira_gateway/pricing.py:69-91 | Keeping more of the writes for the hour lowers a cost by one nano-unit at the most. |
| Pricing.NanoUnitLostExactlyWhen | libs/src/aira_common/money.py:70-78 | That nano-unit is lost exactly when what the longer lifetime adds to the two products, with the remainders they left before, falls short of the remainders they leave now. |
| Pricing.LongerCachingCanCostOneLess | libs/src/aira_common/money.py:70-78 | Two writes at half a nano-unit each show that it can be. |
| Pricing.PricedRequestsGrow | gateway/src/aira_gateway/pricing.py:122-173 | A request has a cost exactly when its usage is known and its model has both prices, and it then never falls as the request grows, if no rate charges less above the threshold. |
| Pricing.CostIsTheBill | gateway/src/aira_gateway/pricing.py:40-180 | A request costs an amount if and only if its one bill comes to that: the record and the prompt's length give the five rates with their defaults, every token reported stands on one line, and each line is rounded down to whole nano-units. |

## Left out

- The half of `verify` that asks `docker compose config`: it compares with the answer of another program.
- Compose's own parser: how it reads a line is taken from what the writer's documentation says of it.
- `sorted(values)` is any enumeration of the names, each once, so the results hold for every order. The source's path, its file name and its digest are taken to be free of line breaks, and the path trimmed.
- The order of the findings of `verify` and how often one is listed; which findings there are is stated exactly.
- YAML loading, `str.upper` and the list of credential names are parameters, and so are `zlib`, UTF-8 decoding, `json.loads`, `raw_decode`, SHA-256, `repr`, the truth of a number and the length of spoken audio; each with the contract it is used by.
- Gunzip.Decompressor.Decompress: a stand-in for `zlib.decompressobj` that emits whole steps; callers rely on its contract only.
- The header descriptions and the sentence that says why a body was not decoded, in the inspector: text for a page.
- The inspector's lock: the methods are what runs while it is held.
- A negative `keep`, which `deque` refuses at construction.
- `DISTINCT ON` in the migration: the mapping of subjects to names is an input, in any order.
- MemberCounters.BudgetUsage.Upgrade: a pattern that ends in its own escape character selects nothing here; PostgreSQL may raise on it, which leaves the table as it was.
- MappingOrder.OneOutcomeExactlyWhen: mappings in which a pair of names can lose counters are not characterised; there already the order in which one subject's rows are read can decide.
- SQL collation, sessions and transactions; a pass is one uninterrupted sequence of statements.
- Overflow of dates, time being an unbounded count of microseconds, and the naive timestamps SQLite hands back.
- Base64.AcceptedExactly: whether padding may stand behind whole quads is a parameter, because releases of CPython differ.
- Characters outside the Unicode scalar values, and Python's limit on the digits of an integer it parses.
- Media types, signatures and size limits of uploads: single comparisons.
- Payloads.StrictWithholdsPeopleAsOversight: the sorted list is told as a multiset, so the order of the list is not stated.
- StreamClock.Stream: time is a real number; rounding of floats is not modelled, and the three closing events have no deadline of their own.
- The event loop's scheduling in the shield is an arbitrary schedule of events, with asyncio's rule for cancelling a wait and anyio's for delivering a scope's cancellation written out; that the work ends at all is its own affair.
- The HTML page, the demo and load-driver scripts, route handlers, settings and schema-only migrations.
