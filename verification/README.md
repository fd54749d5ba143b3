# Verified models of crab-code

This project models the parts of crab-code whose behaviour depends on a whole tree, a whole
loop or a whole run, and proves what they are for.

To verify: `dafny verify dfyconfig.toml`

| file | what it models |
|---|---|
| `Values.dfy`, `Text.dfy` | TOML and JSON trees; the string operations of the standard library the code relies on |
| `Merge.dfy`, `Layers.dfy`, `Runtime.dfy` | deep merge of configuration layers, the fold over all layers, the runtime tree of environment and `-c` overrides |
| `Pointers.dfy`, `Prune.dfy`, `ListOrder.dfy`, `Validation.dfy`, `Resolve.dfy` | JSON Pointers and their sort order, pruning of schema violations, where that order matters, what the validator sees, the whole resolution pipeline |
| `Writer.dfy`, `TomlJson.dfy`, `Hooks.dfy` | setting one key of a document in place, the two TOML/JSON converters, hook parsing and merging |
| `Calendar.dfy`, `AmzDate.dfy` | civil dates and timestamps of the SigV4 request signer |
| `Streaming.dfy` | assembling tool calls from an interleaved event stream |
| `Conversation.dfy` | the message history with its index of turns |
| `Permissions.dfy`, `Sessions.dfy` | the permission-request dispatcher, the cancel-token registry |
| `CredentialChain.dfy`, `ConcurrentChain.dfy` | the credential chain with its cached winner, called one at a time and concurrently |
| `UrlCoding.dfy` | percent-encoding, percent-decoding and the query string between them |

How the source's forms are kept: an object whose methods update its fields is a class
(`StreamingToolParser`, `Conversation`, `SessionMap`, `ChannelPermissionHandler`,
`CredentialChain`), each method tied to a function of the old state; a loop is a method with its
loop; a tree that the source owns and rewrites through `&mut` is a value whose rewritten form is
returned, with the reference modelled by a lookup and a write back at the same path. Protocols of
concurrent tasks are state machines over their atomic steps.

What comes from outside is a parameter: the readers of raw override values, of JSON buffers and of
hook groups, the list of locations the schema validator flags, the identifiers that are generated,
the answers of credential providers, the rounding of an integer beyond 64 signed bits. The library
sort is modelled by a stable insertion sort. Where the comparison is an order on all flagged
fields, or no list holds two of them, the result is proved for every sort (`LocatedInOrder`,
`SortedOutcome`); for other fields it is about this insertion sort, and a library sort may order
them differently or panic because the comparison is no total order.

Where the code differs from what is written about it, the model follows the code:

- Merging is not associative, so folding the runtime layers into a tree of their own first
  (crates/config/src/loader.rs:206-210) is not the layer-by-layer fold of docs/config-design.md in
  every case; `MergeAssociativeExactly`, `PrefoldExactly` and `EffectiveIsFoldExactly` say when.
- `resolve` prunes every reported path without removing duplicates, so an array index reported
  twice takes a valid sibling with it (`DuplicateIndexLosesSibling`); `LoopExactly` says exactly
  when that happens. The defect is latent: it needs a validator that reports one index twice, and
  the items of every list in crates/config/assets/config.schema.json carry only a type and a
  pattern, which never fail together.
- The pointer "/" names the empty key in RFC 6901; the prune ignores it.
- The pointer comparison is no order on siblings that mix numbers and other keys
  (`TransitiveExactly`, `MixedSiblingsCycle`). The sort can then leave the elements of a list in
  rising order, and the wrong one is removed (`MixedSiblingsLoseSibling`). This defect is latent,
  too: it needs a schema that flags elements of a list below freely named keys, and the shipped
  one flags such keys only as a whole. Mixed keys elsewhere, as under `env`, do no harm to a list
  that nothing straddles on the way, such as `permissions.allow` (`LocatedDescendAlong`,
  `PlainListCoherent`), as far as the sort returns at all.
- A hook map that cannot be read can vanish into a merge that can: when it is no object, or when
  an event is an array in only one of the two maps. `ReadableExactly` is the exact condition.
- `truncate_to_budget` may drop every message, although its comment says the most recent turn is
  kept; `LastTurnKeptExactly` says when it is.
- A tool block started at an index that is still open collects the deltas of its successor;
  `AgreesExactly` says when the parser is one buffer per block.
- `env_to_value` writes `api_provider`, not the `apiProvider` of its comment.
- A refresh of the credential chain is said to make the next call probe the whole chain
  (crates/auth/src/credential_chain.rs:26-29). A call in flight can store its winner after the
  refresh, and then it does not (`StaleWinner`); `ReprobesExactly` says when.
- Decoding accepts more than encoding produces: lower-case and needless escapes, broken ones, and
  `%+A`, since hex digits are parsed with an optional plus sign (`PlusDecodesToo`).
  `EncodeDecodeExactly` says which texts come back.

## Model

| member | source | states |
|---|---|---|
| Merge.MergeTomlValues | crates/config/src/merge.rs:36-56 | the entry-by-entry merge through slots computes the deep merge of the two trees |
| Merge.DedupPreservingOrder | crates/config/src/merge.rs:64-70 | one pass with a seen set keeps exactly the first element of each key, in order |
| Merge.DedupKeys | crates/config/src/merge.rs:58-70 | deduplication keeps every key and leaves no two elements with the same one |
| Merge.DedupLeft | crates/config/src/merge.rs:48-51 | deduplicating the lower list first changes nothing |
| Merge.DedupRight | crates/config/src/merge.rs:48-51 | deduplicating the upper list first changes nothing |
| Merge.KeyExactly | crates/config/src/merge.rs:61-67 | elements without non-finite floats and without tables imitating a datetime count as duplicates if and only if they are the same |
| Merge.KeyCollisions | crates/config/src/merge.rs:61-67 | a non-finite float is a duplicate of exactly the non-finite floats, and a datetime of exactly the one table that imitates it |
| Merge.MergedArrayExactly | crates/config/src/merge.rs:48-51 | two merged arrays hold every element of both and no other, base first, each exactly once where it first occurs |
| Merge.AbsorbedExactly | crates/config/src/merge.rs:36-56 | merging over a layer gives the upper layer back if and only if the lower one has no entry or element of its own |
| Merge.MergeAssociativeExactly | crates/config/src/merge.rs:36-56 | three layers merge the same way from either side if and only if, wherever the outer two are both tables or both arrays and the middle is not, the lowest has nothing to add |
| Merge.NoKindClashAssociates | crates/config/src/merge.rs:36-56 | with no such clash of kinds merging is associative |
| Merge.KindClashExample | crates/config/src/merge.rs:52-54 | a string between two tables is enough to break associativity |
| Layers.LookupInFold | crates/config/src/loader.rs:191-210 | for all layers and every key path, the folded configuration holds the fold of the values that are not hidden by a non-table above them, and nothing if there are none |
| Layers.AllSurvive | crates/config/src/merge.rs:36-56 | when no layer puts a non-table above a path, every layer's own value there counts |
| Layers.ScalarFromHighestLayer | crates/config/src/loader.rs:171-210 | a scalar in the folded configuration is the one of the highest layer defining the path, and the path is absent only if no layer defines it |
| Layers.ArrayFromAllLayers | crates/config/src/merge.rs:48-51 | an array in the folded configuration is the first-occurrence union of the arrays defined since the last other value, with no element lost; a single array is kept verbatim |
| Layers.NoElementLost | crates/config/src/merge.rs:48-51 | no element of those arrays is lost or made up; several arrays are united in first-occurrence order |
| Layers.PrefoldExactly | crates/config/src/loader.rs:206-210 | folding a run of layers into a tree first equals folding layer by layer if and only if no upper layer cuts off something of the lower one that a later layer brings back |
| Runtime.EnvToValue | crates/config/src/runtime.rs:44-61 | exactly the four known variables that are set and not empty become string entries |
| Runtime.EnvExactly | crates/config/src/runtime.rs:47-60 | each of the four variables, when set and not empty, gives its own key its own value, and no other key is set |
| Runtime.NestValue | crates/config/src/runtime.rs:126-134 | the loop wraps the value under the keys, outermost first |
| Runtime.NestedAt | crates/config/src/runtime.rs:123-134 | an override can be read back at its own path and defines nothing off that path |
| Runtime.CliOverridesToValue | crates/config/src/runtime.rs:77-103 | the overrides fold in order into one table; it fails exactly when one is malformed, with the error of the first such |
| Runtime.OverrideExactly | crates/config/src/runtime.rs:79-97 | an override is accepted with given keys and raw value if and only if it is the dotted path of these keys, perhaps with whitespace around it, an equals sign and that raw value |
| Runtime.LastOverrideWins | crates/config/src/runtime.rs:77-103 | a scalar override is readable at its path whatever overrides came before |
| Runtime.RuntimeTreeIsFold | crates/config/src/loader.rs:206-209 | the runtime tree is always the layer-by-layer fold of environment and overrides |
| Runtime.RuntimePrefoldExactly | crates/config/src/loader.rs:206-210 | merging the runtime tree over the files equals merging environment and overrides one by one if and only if nothing of the files is cut off and brought back |
| Runtime.RuntimePrefoldDiffers | crates/config/src/loader.rs:206-210 | the two differ for every key the environment sets, when the files hold a table there and an override sets another entry of it |
| Pointers.DecodeEscape | crates/config/src/validation.rs:191-196 | decoding in two passes inverts RFC 6901 escaping on every key |
| Pointers.DecodeEscapes | crates/config/src/validation.rs:195 | the three examples of section 4 of RFC 6901; an escaped tilde is not read again |
| Pointers.PointerRoundTrip | crates/config/src/validation.rs:187-200 | reading a rendered pointer gives its location back, except that the whole document and the pointer "/" are ignored |
| Pointers.SlashOptional | crates/config/src/validation.rs:191-193 | the slash in front may be missing |
| Pointers.FieldPathCmp | crates/config/src/loader.rs:245-265 | the two advancing iterators compute the segment-wise comparison |
| Text.CompareTextExactly | crates/config/src/loader.rs:251-254 | segments that are not both numbers compare by the first place where one ends or has the smaller character |
| Pointers.ComparePathsReversed | crates/config/src/loader.rs:245-265 | the comparison is total and antisymmetric |
| Pointers.ComparePathsEqual | crates/config/src/loader.rs:245-265 | two paths compare equal if and only if they name the same location, indices compared as numbers |
| Pointers.TransitiveExactly | crates/config/src/loader.rs:251-257 | on sibling segments the order is transitive if and only if no non-number lies between two numbers as text against their numeric order; so it is when all or none are numbers |
| Pointers.MixedSiblingsCycle | crates/config/src/loader.rs:251-257 | 9, 10 and 1a form a cycle |
| Pointers.ComparePathsTransitive | crates/config/src/loader.rs:245-265 | paths whose siblings do not straddle each other are totally preordered |
| Pointers.UniformIsCoherent | crates/config/src/loader.rs:241-244 | siblings that are all numbers or all not never straddle each other |
| Pointers.PrefixIsLess | crates/config/src/loader.rs:220-221 | a path comes after each of its proper prefixes |
| Pointers.IndicesNumerically | crates/config/src/loader.rs:223-225 | below one parent a higher index comes after a lower one, whatever follows |
| Prune.PruneInvalidField | crates/config/src/validation.rs:187-235 | the cursor walk and in-place removal removes exactly the location of the pointer; it reports whether there was one and otherwise changes nothing |
| Text.ParseDigits | crates/config/src/validation.rs:210 | the decimal numeral of every number up to the largest 64-bit one reads as that number, and larger ones do not read |
| Text.ParseExactly | crates/config/src/validation.rs:210 | what reads as a number is its decimal numeral behind at most a plus sign and zeros |
| Prune.NumeralNames | crates/config/src/validation.rs:209-217 | the numeral of an index leads to that element, and one past the end leads nowhere |
| Prune.PrunesElement | crates/config/src/validation.rs:224-230 | pruning the pointer to the numeral of an index leaves the list without exactly that element |
| Prune.PrunesNoElement | crates/config/src/validation.rs:224-231 | a number past the end or something that is no number prunes nothing |
| Prune.PrunesEntry | crates/config/src/validation.rs:223 | pruning the pointer to a key leaves the table without exactly that entry |
| Prune.ElsewhereKept | crates/config/src/validation.rs:202-234 | every location that parts from the pruned one above its last segment keeps its value |
| Prune.RemoveEachTable | crates/config/src/loader.rs:227-234 | in any order of removals, the entries of a table are pruned independently |
| Prune.RemoveEachArray | crates/config/src/loader.rs:217-234 | in the sorted order, what removals leave of an array, with every repeated hit on an index taking the next element still there |
| Prune.LoopExactly | crates/config/src/loader.rs:216-234 | in any order that puts higher indices of an array first, pruning one location after the other equals removing all of them at once from the original tree, if and only if no index listed twice has an unflagged later sibling |
| Prune.DescendingInOrder | crates/config/src/loader.rs:217-226 | the sorted order is such an order for every tree |
| Prune.OneInOrder | crates/config/src/loader.rs:227-234 | where no array holds two of the locations, every order is |
| Prune.DistinctIsSafe | crates/config/src/loader.rs:227-234 | pairwise different locations meet that condition in every tree |
| Prune.RemoveAllUnordered | crates/config/src/loader.rs:216-226 | removing all locations at once depends only on which are listed |
| Resolve.SortDescending | crates/config/src/loader.rs:226 | sorting keeps every error; it puts the list in order for every coarser comparison that is an order on the fields, and so for the comparison itself where that is one; and it leaves a list alone in which no field stands before a greater neighbour |
| ListOrder.AlongTransitive | crates/config/src/loader.rs:245-265 | along the way to a list the comparison is transitive as soon as nothing straddles on that way, whatever straddles elsewhere |
| ListOrder.ListsInOrder | crates/config/src/loader.rs:217-234 | when the locations descend along the way to every list that holds two of them, the prune finds every list in order |
| Resolve.LocatedDescendAlong | crates/config/src/loader.rs:217-226 | the sort gets every list right that nothing straddles on the way to it or among its elements |
| Resolve.UniformFieldsCoherent | crates/config/src/loader.rs:223-226 | the comparison is an order on fields whose siblings are all numbers or all not |
| Resolve.PresentExactly | crates/config/src/loader.rs:199-204 | the file layers are all files that could be read, in order, and nothing else |
| Resolve.LocatedDescend | crates/config/src/loader.rs:226-234 | sorting the rendered pointers sorts the locations they name |
| Resolve.LocatedRendered | crates/config/src/loader.rs:226-234 | reading back the rendered pointers of all flagged locations loses only the ignored ones, keeping order and repetitions |
| Resolve.PruneFlagged | crates/config/src/loader.rs:216-234 | for flagged locations in any order, sort and prune leave exactly the unflagged rest, if and only if no index flagged twice has an unflagged later sibling; provided no flagged locations straddle each other on the way to a list that holds two of them |
| Resolve.SortableWhen | crates/config/src/loader.rs:216-226 | the proviso holds when the comparison is an order on all flagged fields, and when no list holds two of the locations |
| Resolve.PlainListCoherent | crates/config/src/loader.rs:223-226 | for a list under two keys the proviso holds when section names and the keys of its section are no numbers, whatever is flagged in other sections |
| Resolve.SortedOutcome | crates/config/src/loader.rs:226-234 | the same result for any sort at all that permutes the fields and gets the lists right |
| Resolve.LocatedInOrder | crates/config/src/loader.rs:217-226 | any permutation of the fields gets the lists right that descends as a whole, or that flags no two locations in one list |
| Resolve.EffectiveIsFoldExactly | crates/config/src/loader.rs:191-210 | the effective tree is the fold of every single layer from the defaults to the last override, if and only if nothing of the files is cut off and brought back |
| Resolve.Resolve | crates/config/src/loader.rs:191-239 | the whole pipeline: it fails exactly on a plugin error or a malformed override; its effective tree is the fold of every layer and every real override, if and only if nothing of the files is cut off and brought back; everything a validator of existing locations flags on the JSON form is in that tree; and, provided no flagged locations straddle each other on the way to a list that holds two of them, the result is that tree without exactly the flagged locations, if and only if no index flagged twice has an unflagged later sibling |
| Resolve.DuplicateIndexLosesSibling | crates/config/src/loader.rs:226-234 | in a configuration with a list under two keys, flagging its first index twice removes both elements of a pair after rendering and any sort, though the second was not flagged |
| Resolve.MixedSiblingsLoseSibling | crates/config/src/loader.rs:226-257 | in a section with keys 9, 10 and 1a, four different flagged fields, all existing, are a list the sort leaves as it is, and the prune removes the wrong element of the list of three under 9 |
| Validation.SameLocations | crates/config/src/validation.rs:84-87 | the JSON form the validator sees has the same locations as the tree, with the JSON form of the value at each |
| Writer.InsertAtPath | crates/config/src/writer.rs:136-182 | the cursor walk that creates tables computes the insertion; on an error the document, rewritten in place until then, is as it was |
| Writer.KeyPathExactly | crates/config/src/writer.rs:137-142 | a key path is accepted with given keys if and only if these are its non-empty pieces between the dots |
| Writer.WrittenExactly | crates/config/src/writer.rs:187-209 | a value is written as the same tree with datetimes as strings, and in no other way |
| Writer.Descend | crates/config/src/writer.rs:147-158 | the descent creates exactly the missing tables, and refuses only before it has created any |
| Writer.ReadBack | crates/config/src/writer.rs:160-180 | after success the value is readable at the key path, with the decor of the value it replaced |
| Writer.ElsewhereUnchanged | crates/config/src/writer.rs:131-135 | every path that is neither above nor below the key path is as before |
| Writer.FailsExactly | crates/config/src/writer.rs:148-158 | descending fails if and only if a proper prefix of the path holds something other than a table |
| TomlJson.ConvertObject | crates/config/src/plugin_loader.rs:163-171 | the table-filling loop converts every entry that is not null |
| TomlJson.TomlRoundTripExactly | crates/config/src/config.rs:274-291 | TOML to JSON to TOML is the identity on a tree if and only if it has no datetime and no non-finite float |
| TomlJson.TomlThroughJson | crates/config/src/config.rs:274-291 | every tree comes back with its datetimes as strings and without its non-finite floats |
| TomlJson.JsonRoundTripExactly | crates/config/src/plugin_loader.rs:143-174 | JSON to TOML to JSON is the document without its nulls if and only if every integer fits into 64 signed bits |
| TomlJson.JsonThroughToml | crates/config/src/plugin_loader.rs:143-174 | every document comes back without its nulls and with larger integers rounded |
| Hooks.ParseHooks | crates/config/src/hooks.rs:67-100 | the nested loops give the usable hooks of every event in order, and fail exactly on an unreadable map |
| Hooks.HooksExactly | crates/config/src/hooks.rs:72-98 | a hook is among those of an event if and only if it comes from a command entry that is not empty, with the matcher of its group and its own timeout or 600 seconds |
| Hooks.EntryExactly | crates/config/src/hooks.rs:75-97 | a usable entry gives exactly one hook, any other none |
| Hooks.EntriesConcat | crates/config/src/hooks.rs:74-98 | the hooks come in the order of the entries |
| Hooks.GroupsExactly | crates/config/src/hooks.rs:68-69 | the groups are what the reader makes of the elements one by one, and one unreadable element spoils the list |
| Hooks.EventsConcat | crates/config/src/hooks.rs:72 | the events are taken in their order |
| Hooks.EventExactly | crates/config/src/hooks.rs:72-98 | one event gives the hooks of its own groups |
| Hooks.MergeHooksValues | crates/config/src/hooks.rs:106-128 | per event: arrays appended, an array kept over anything else, anything else replaced |
| Hooks.MergedExactly | crates/config/src/hooks.rs:106-128 | what the merge holds for every event, case by case in terms of the two maps |
| Hooks.MergeThenParse | crates/config/src/hooks.rs:101-128 | for two readable maps the merge is readable and gives each event the base's hooks followed by the overlay's |
| Hooks.ReadableExactly | crates/config/src/hooks.rs:101-128 | both maps are readable if and only if both are objects, their merge is readable and no shared event is an array in just one of them |
| Hooks.UnreadableOverlayIsDropped | crates/config/src/hooks.rs:117-122 | for all maps, an event that is an array in the base only keeps the base's hooks, and the overlay, unreadable by itself, goes unnoticed |
| Calendar.YearOfEra | crates/auth/src/sigv4.rs:188-192 | for every day of an era the year formula gives the year that contains it, and the subtraction after it stays within a year |
| Calendar.YearStartClosed | crates/auth/src/sigv4.rs:192 | the closed count of days before a year is the sum of the lengths of the years before it |
| Calendar.ClosedFormIsCalendar | crates/auth/src/sigv4.rs:184-198 | for every day count that does not overflow, the closed form is the date reached by turning the page that many times from 1 January 1970, and it is a real date; all intermediates are 64-bit unsigned |
| AmzDate.FixedWidth | crates/auth/src/sigv4.rs:175-182 | the text has 16 characters if and only if the year is at most 9999, and its first eight are then year, month and day |
| AmzDate.ReadsBack | crates/auth/src/sigv4.rs:175-182 | up to the end of 9999 the text reads back digit by digit as the date of the day, a T, the clock of the second within the day and a Z |
| AmzDate.OrderPreserving | crates/auth/src/sigv4.rs:175-182 | up to the end of 9999 timestamps compare as texts as they do as numbers, so equal texts mean equal timestamps |
| AmzDate.OrderBreaks | crates/auth/src/sigv4.rs:181 | one second later the texts no longer order |
| AmzDate.OrderExactly | crates/auth/src/sigv4.rs:175-182 | all timestamps before an end compare as texts as they do as numbers if and only if that end is not after the year 9999 |
| Streaming.StreamingToolParser.Process | crates/api/src/streaming.rs:148-214 | one event updates the four buffers as the step function says and returns the call that a stop finishes |
| Streaming.StopReturnsCall | crates/api/src/streaming.rs:100-108 | without restarts, the stop of an open call returns the identifier and name of its start, with an empty object when its deltas spell nothing and otherwise what the reader of buffers makes of them |
| Streaming.ReturnedWasStarted | crates/api/src/streaming.rs:191-209 | nothing else returns a call: each started in the stream and has had nothing but deltas since |
| Streaming.StreamingToolParser.TakeCompleted | crates/api/src/streaming.rs:234-236 | hands over all finished accumulators and leaves none |
| Streaming.StreamingToolParser.Reset | crates/api/src/streaming.rs:269-274 | back to the state of a new parser |
| Streaming.StreamingToolParser.ToolCount | crates/api/src/streaming.rs:264-266 | for a parser in the state a stream leaves it in, the number of tool calls the stream started |
| Streaming.Demultiplexes | crates/api/src/streaming.rs:148-214 | for every stream, what the parser holds for a block index is what it would hold had it been fed that index's events alone |
| Streaming.AgreesExactly | crates/api/src/streaming.rs:148-214 | the parser agrees with one buffer per index if and only if the stream never starts a block at an index whose tool block is open |
| Streaming.FinishedBuffer | crates/api/src/streaming.rs:176-208 | without restarts, a start, deltas and a stop of one block append a finished block whose buffer is the concatenation of those deltas, whatever other blocks do in between |
| Streaming.FinishedBlocks | crates/api/src/streaming.rs:148-214 | on every stream without restarts, every finished block, in order, has its start and its stop in the stream, and its buffer is the concatenation of its own deltas between the two |
| Streaming.RestartMixesBlocks | crates/api/src/streaming.rs:163-169 | a restarted block is finished under the old identifier with the new block's delta |
| Streaming.TextIsUndeclared | crates/api/src/streaming.rs:176-193 | on every stream the text is the in-order concatenation of the deltas whose index was not last declared a tool block |
| Streaming.TakingLosesNothing | crates/api/src/streaming.rs:234-274 | over every sequence of events, takes and resets, active plus completed plus taken is the number of tool starts since the last reset, and taking early changes nothing else |
| Conversations.Conversation.Push | crates/core/src/conversation.rs:54-66 | appends the message and opens or extends a turn |
| Conversations.PushShows | crates/core/src/conversation.rs:54-66 | a user message opens a turn showing it alone, any other joins the last turn if there is one, and all other turns show what they showed |
| Conversations.Conversation.PopLastTurn | crates/core/src/conversation.rs:119-125 | cuts the history at the last user message and drops the turns from there |
| Conversations.PopShows | crates/core/src/conversation.rs:119-125 | popping removes exactly the messages of the last turn and every other turn shows what it showed |
| Conversations.PopNeedsUser | crates/core/src/conversation.rs:119-125 | without a user message nothing is popped |
| Conversations.Conversation.TruncateToBudget | crates/core/src/conversation.rs:130-167 | keeps the longest suffix within the budget, moves the turns down and returns how many messages went |
| Conversations.TruncationShows | crates/core/src/conversation.rs:153-164 | the turns reaching past the removed messages survive in order, each showing exactly its messages that were not cut |
| Conversations.CostSums | crates/core/src/conversation.rs:111-113 | the cost of a history is the sum of its token estimates |
| Conversations.Conversation.TurnMessages | crates/core/src/conversation.rs:104-108 | the slice of a turn is in bounds, not empty, and only its first message can be a user message |
| Conversations.AlwaysWellIndexed | crates/core/src/conversation.rs:54-173 | after any sequence of operations the turns are non-empty, contiguous and end at the message count, every user message starts one, and every turn but possibly the first starts with one |
| Conversations.PopUndoesTurn | crates/core/src/conversation.rs:115-125 | popping undoes a user message and any replies exactly |
| Conversations.KeepFrom | crates/core/src/conversation.rs:135-147 | the cut leaves a suffix within the budget, and no longer one fits |
| Conversations.TruncationIsLongest | crates/core/src/conversation.rs:127-167 | the estimate is within the budget afterwards, and every longer suffix is over it |
| Conversations.LastTurnKeptExactly | crates/core/src/conversation.rs:129 | the most recent turn survives whole if and only if it fits the budget by itself |
| Conversations.EvenTheLastTurnCanGo | crates/core/src/conversation.rs:129 | a single message over the budget is dropped with its turn |
| Permissions.ResultIsFirstReply | crates/agents/src/runtime.rs:1292-1347 | over every interleaving, an answered ask got the first reply carrying its identifier that was routed after it registered |
| Permissions.AtMostOneResult | crates/agents/src/runtime.rs:1322-1347 | an ask that has ended stays ended with the same result in every continuation |
| Permissions.RepliesReachOnlyTheirAsk | crates/agents/src/runtime.rs:1292-1302 | over any continuation in which no reply for an ask is queued and it makes no step, dispatching and the steps of others leave it exactly as it is |
| Permissions.OthersDoNotMatter | crates/agents/src/runtime.rs:1322-1347 | over every interleaving, an ask is where it would be had no other ask ever made a step |
| Permissions.NeverHangsUp | crates/agents/src/runtime.rs:1340-1346 | a waiting ask is never cut off from its sender without a response |
| Permissions.FirstReplyNeverDropped | crates/agents/src/runtime.rs:1323-1346 | when replies follow emitted requests, an answered ask has the very first reply ever queued for it, and once the dispatcher has caught up a waiting ask has that reply in its channel |
| Permissions.EarlyReplyDropped | crates/agents/src/runtime.rs:1293-1301 | a reply routed before its request is registered never reaches it |
| Permissions.ChannelPermissionHandler.Dispatch | crates/agents/src/runtime.rs:1293-1301 | one reply fills exactly its own channel and takes its sender out of the pending map |
| Permissions.ChannelPermissionHandler.DispatchAll | crates/agents/src/runtime.rs:1292-1302 | the loop fills every pending channel with the first reply for it and leaves the others pending and empty |
| Sessions.SessionMap.BeginTurn | crates/acp/src/sessions.rs:33-40 | hands out a fresh live token that replaces the session's token |
| Sessions.SessionMap.Cancel | crates/acp/src/sessions.rs:43-47 | fires the session's current token and no other |
| Sessions.SessionMap.Create | crates/acp/src/sessions.rs:15-23 | registers a session with a token of its own |
| Sessions.TokenLife | crates/acp/src/sessions.rs:14-48 | from the step that makes it, a token is its session's until the session gets another and never another session's |
| Sessions.FiredExactly | crates/acp/src/sessions.rs:25-47 | over every run, the token of a turn is fired if and only if its session was cancelled after the turn began and before the session's next token |
| CredentialChains.CredentialChain.GetAuth | crates/auth/src/credential_chain.rs:67-100 | the remembered provider answers while it succeeds; otherwise all providers are asked, that one again, the first that succeeds answers and is remembered, or the last error is returned |
| CredentialChains.AgreesExactly | crates/auth/src/credential_chain.rs:67-100 | the provider of a fresh probe answers, unless and only unless the remembered one succeeds and either an earlier one does too or it would fail on being asked again |
| CredentialChains.AgreesWhileUnchanged | crates/auth/src/credential_chain.rs:8-10 | over any run of calls and refreshes in which providers keep answering the same, every call answers and remembers what a fresh probe would |
| CredentialChains.FailsOnlyIfAllFail | crates/auth/src/credential_chain.rs:78-100 | a call fails if and only if every provider fails, the remembered one a second time |
| CredentialChains.IndexInRange | crates/auth/src/credential_chain.rs:67-118 | over every run the remembered index is a provider, and the first success of some call since the last refresh |
| CredentialChains.AfterRefresh | crates/auth/src/credential_chain.rs:104-118 | after a refresh nothing is remembered if and only if every call since has failed, so each call up to and including the first success is a fresh probe |
| ConcurrentChains.AnswerIsOwnProbe | crates/auth/src/credential_chain.rs:78-100 | over every interleaving of calls and refreshes, a call not answered from memory returns what a probe of the answers given to it returns, and fails if and only if all providers failed it |
| ConcurrentChains.RememberedExactly | crates/auth/src/credential_chain.rs:84-90 | over every interleaving something is remembered if and only if a winner was stored after the last refresh, and it is a provider of the chain |
| ConcurrentChains.RememberedIsLastStore | crates/auth/src/credential_chain.rs:81-91 | the remembered provider is the last winner stored, and it succeeded for its call after every earlier provider had failed that call |
| ConcurrentChains.ReprobesExactly | crates/auth/src/credential_chain.rs:104-109 | the call after a refresh probes the whole chain if and only if no call has stored a winner in between |
| ConcurrentChains.StaleWinner | crates/auth/src/credential_chain.rs:86-89 | a call in flight during a refresh brings its provider back, and the next call trusts it |
| ConcurrentChains.UndisturbedCall | crates/auth/src/credential_chain.rs:67-100 | a call whose steps nothing interrupts answers and remembers what the sequential method does |
| UrlCoding.SimpleUrlEncode | crates/auth/src/aws_iam.rs:533-547 | the byte loop encodes the UTF-8 bytes of the text |
| UrlCoding.EncodedExactly | crates/auth/src/aws_iam.rs:535-544 | a byte is written as itself if it is one of the 66 listed characters, and otherwise as a percent sign and its two upper-case hexadecimal digits |
| UrlCoding.PercentDecode | crates/cli/src/deep_link.rs:96-124 | the character loop decodes escapes, passes malformed ones through and cuts a truncated one; the bytes are then read as UTF-8 with one replacement character for every broken chunk |
| UrlCoding.EscapesDecode | crates/cli/src/deep_link.rs:104-108 | the escape of every byte decodes, in upper and in lower case, whether it is needed or not |
| UrlCoding.PlusEscapes | crates/cli/src/deep_link.rs:104-105 | a plus sign in front of one hexadecimal digit counts as a zero |
| UrlCoding.MalformedStays | crates/cli/src/deep_link.rs:109-113 | an escape that is not hexadecimal stays as text |
| UrlCoding.TruncatedIsCut | crates/cli/src/deep_link.rs:114-116 | an escape cut off by the end leaves its percent sign only |
| UrlCoding.OthersStay | crates/cli/src/deep_link.rs:117-120 | every other character stands for itself |
| UrlCoding.LossyExactly | crates/cli/src/deep_link.rs:122-123 | reading bytes as text loses nothing if and only if they are valid UTF-8 |
| UrlCoding.MaximalSubpart | crates/cli/src/deep_link.rs:122-123 | what becomes one replacement character is the longest front that starts a character, or a single byte |
| UrlCoding.DecodedExactly | crates/cli/src/deep_link.rs:96-124 | a decoded text stands for the decoded bytes if and only if these are valid, that is, the bytes of some text |
| UrlCoding.DecodeEncode | crates/auth/src/oauth.rs:404-418 | decoding inverts encoding on every byte string |
| UrlCoding.EncodeDecodeExactly | crates/cli/src/deep_link.rs:96-124 | encoding inverts decoding on a text if and only if it consists of unreserved characters and upper-case escapes of bytes that need one |
| UrlCoding.DecodingCollides | crates/cli/src/deep_link.rs:96-124 | a text shares its decoding with a different canonical text if and only if it is not canonical itself |
| UrlCoding.TextRoundTrip | crates/cli/src/deep_link.rs:122-123 | a text comes back from encoding and decoding, and the decoded bytes are those of no other |
| UrlCoding.PlainUnchanged | crates/auth/src/aws_iam.rs:536-539 | unreserved characters are left as they are both ways |
| UrlCoding.PlusDecodesToo | crates/cli/src/deep_link.rs:104-107 | an escape with a plus sign decodes like the one without, and is not canonical |
| UrlCoding.ParseCallbackParams | crates/auth/src/oauth.rs:374-401 | the last code and the last state of the query, failing exactly when the query or one of them is missing |
| UrlCoding.QueryExactly | crates/auth/src/oauth.rs:375-377 | the query is what stands between the first question mark and the second or the end |
| UrlCoding.KeyValueExactly | crates/auth/src/oauth.rs:383-385 | a piece is split at its first equals sign, and without one it is a key with an empty value |
| UrlCoding.LastValueExactly | crates/auth/src/oauth.rs:379-391 | the value taken for a key is that of the last piece with this key, and none is taken exactly when there is no such piece |
| UrlCoding.QueryRoundTrip | crates/auth/src/aws_iam.rs:524-530 | for a base without a question mark, reading a built query gives for every key the encoded form of its last value |
| UrlCoding.CallbackRoundTrip | crates/auth/src/oauth.rs:374-401 | code and state come back as the same texts after being encoded into a callback URL, split out of it and decoded |

## Left out

- All I/O, networking, keychain and cloud token flows, the TUI, argument parsing and subprocesses: plumbing over libraries.
- Text parsing of TOML and JSON, the schema validator, SHA-256 and HMAC: the model works on trees, on arbitrary lists of flagged locations and on timestamps.
- Deserialising the pruned tree into the configuration struct, the last step of `resolve`.
- Merge.DedupPreservingOrder: does not model the serialised text of an element; its key is the JSON tree the text stands for, which assumes that equal tables have equal texts. If a library keeps keys in insertion order, two equal tables built in different orders can have different texts, and both stay.
- The key order and formatting of an editable document, and the decor inside a replacement value: tables are maps.
- Prune.PruneInvalidField: does not model the tree as linked objects in memory; the source owns the tree and aliases nothing, and the cursor is modelled by a lookup and a write back.
- Resolve.Resolve: does not model that the library sort may panic, or order fields in another way, when the comparison is no total order on the flagged fields; keys under `env` that mix numbers and other text are enough for that. It says nothing about which locations go when flagged locations straddle each other on the way to a list that holds two of them; `MixedSiblingsLoseSibling` shows the prune can then go wrong.
- Conversations.Conversation.TruncateToBudget: does not model the 64-bit overflow of a token sum.
- `Conversation::messages_mut` (crates/core/src/conversation.rs:89-91), which exposes the messages without keeping the turns.
- `set_tool_metadata` (crates/api/src/streaming.rs:220-225), which renames an open block.
- What happens to a waiting ask after the response channel has closed: the model proves safety, no progress without replies.
- CredentialChains.CredentialChain.GetAuth: takes the answers of a call at once; other calls between its steps are in `ConcurrentChain.dfy`.
- Refreshing the providers themselves (crates/auth/src/credential_chain.rs:111-114): what they answer afterwards is arbitrary anyway.
- The environment-key ban and enabling of plugins (crates/config/src/plugin_loader.rs:129-138), token estimation, the secret-key rejection the writer's comment mentions but the code does not perform, retry and usage bookkeeping: little beyond single-function computations.
