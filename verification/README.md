# A verified model of the gateway's hard parts

This project models, in Dafny, the parts of the API gateway that are algorithms or protocols rather than
plumbing, and proves what they are for:

- the template expression language of the design-system runtime (`TemplateExpr`, `TemplateGrammar`, `TemplateLaws`);
- the per-order lock with reference counting, and crediting top-ups under it (`OrderLock`, `OrderCrediting`);
- synchronising a channel's models with its upstream (`ModelNames`, `UpstreamSync`, `ChannelScan`);
- the price difference engine and the models.dev price selection (`PriceDiff`, `ModelsDev`);
- the Ogg page scanner behind Opus durations (`OggScan`, with the page format of section 6 of RFC 3533);
- the in-memory sliding-window rate limiter (`RateLimit`);
- channels with several keys (`MultiKey`, `MultiKeyRuns`, `MultiKeyChannel`);
- finishing asynchronous jobs by compare-and-set (`TaskCas`);
- request body storage and its counters (`BodyStorage`, `CacheCounters`);
- verification codes (`Verification`).

`Text` holds trimming, splitting and joining. Code that computes is a function here, code that loops is a
method proved against such a function, objects that change are classes, and concurrent code is a transition
system whose steps interleave freely. `dafny verify dfyconfig.toml` checks everything.

## What was found

Some properties one would expect do not hold of the code. Each has a lemma with the input that breaks it and,
beside it, the exact condition under which it holds.

- A quoted template string that shows `==` or `!=` outside brackets is taken for a comparison
  (`TemplateGrammar.QuotedEqualityIsCut`, `QuotedExactly`).
- An upstream model name with a comma is stored as two names and is detected again for ever
  (`UpstreamSync.CommaNamesReturn`). An added name that is spelled like an ignore rule removes the rule, so that
  what it hid is detected (`LostRuleExposes`). Detect and apply converge exactly when neither happens
  (`DetectApplyConverges`).
- `delete_disabled_keys` on a channel whose keys are all automatically disabled reports success, keeps every
  key and enables them all (`MultiKey.AllAutoDisabledComeBack`). A blank line among the keys makes a deletion
  shift the statuses (`MultiKeyRuns.BlankLineShifts`) or leaves a recorded time beyond the last key, since `Update`
  cuts the statuses only (`TimeIsLeftBehind`). Deletions are exact when the remaining keys read back from the
  joined text, and only then (`DeleteKeyExact`, `DeleteDisabledExact`); runs keep all indices in range exactly when
  every action on the way fits (`MultiKeyRuns.RunKeepsValid`). Appending to a bracketed key text that does not
  decode forgets the old keys (`UndecodableAppendForgets`, `AppendRowsExactly`), and a text that decodes to an empty array is counted as
  one key (`CountedSame`).
- A null or the text `same` from an upstream can hide a price difference (`PriceDiff.NullIsLost`, `MarkerIsLost`), and
  a null can keep a cell in which nothing differs (`LeftoverIsReported`); `CellExactly` says when.
- The bound on the models.dev choice needs the sorting of providers (`ModelsDev.UnsortedOrderDrifts`).
- The rate limiter is exact for windows up to one second beyond the expiration and for no longer window
  (`RateLimit.RequestIsExact`, `LongWindowsForget`); a limit of zero acts as a limit of one.
- An empty read tells memory and disk storage apart at the end of the body, and nothing else does
  (`BodyStorage.KindsAgreeExactly`).

## Model

| member | source | states |
|---|---|---|
| TemplateExpr.ParensWrapWhole | Design-system/support.js:233-243 | says whether no earlier parenthesis brings the count back to zero before the last character |
| TemplateExpr.FindTopLevelEquality | Design-system/support.js:244-258 | finds the leftmost equality operator outside all brackets that has something to its left, with its kind |
| TemplateExpr.FindClosing | Design-system/support.js:271-281 | finds the bracket that closes the one just opened, if any |
| TemplateExpr.CutText | Design-system/support.js:202-231 | every piece that `resolve` evaluates is strictly shorter than the text, so evaluation ends on any string |
| TemplateExpr.NextSegment | Design-system/support.js:264-288 | every step of a path leaves a strictly shorter rest of the text, and a bracketed key is shorter still |
| TemplateExpr.Evaluate | Design-system/support.js:201-232 | the imperative `resolve` is total and computes the recursive specification on every text |
| TemplateExpr.EvaluatePath | Design-system/support.js:259-290 | the path loop is total and computes the recursive specification on every text |
| TemplateGrammar.Shape | Design-system/support.js:244-258 | written expressions are balanced, and show an operator outside brackets only if they are bare comparisons |
| TemplateGrammar.CutMeaning | Design-system/support.js:202-231 | the scans find exactly the outermost operator of the tree that was written |
| TemplateGrammar.PathMeaning | Design-system/support.js:259-290 | a dotted and bracketed path is read step by step to the value of its tree, whatever follows |
| TemplateGrammar.ResolveMeaning | Design-system/support.js:201-290 | evaluating the text of a well-formed tree, with any spacing and redundant parentheses, is evaluating the tree |
| TemplateGrammar.TreeMeaning | Design-system/support.js:201-290 | every tree has a text, with parentheses only around comparisons under `!` or left of an operator, that evaluates to its meaning |
| TemplateGrammar.ParenthesizeMeaning | Design-system/support.js:204-206 | adding those parentheses does not change what a tree means |
| TemplateGrammar.ParenthesizeMinimal | Design-system/support.js:204-206 | nothing is added to a tree that can be written without parentheses |
| TemplateGrammar.ComparisonsGroupRight | Design-system/support.js:207-221 | a chain of comparisons without parentheses, however it is spaced, means the right-nested one |
| TemplateGrammar.NotBindsTighter | Design-system/support.js:207-222 | `!` before a comparison, however it is spaced, negates only the left operand |
| TemplateGrammar.QuotedExactly | Design-system/support.js:207-230 | a quoted text evaluates to its content if and only if the scan sees no top-level equality in it |
| TemplateGrammar.QuotedEqualityIsCut | Design-system/support.js:207-221 | the literal `'a==b'` evaluates to a comparison result instead of a string |
| TemplateLaws.ComparisonLaws | Design-system/support.js:207-221 | `===`, `!==`, `==` and `!=` between two expressions, with any spacing, give strict and loose equality of their values and the negations |
| TemplateLaws.NegationLaw | Design-system/support.js:222-222 | `!` gives the negation of the truth of the value that follows |
| TemplateLaws.GroupLaw | Design-system/support.js:204-206 | parentheses leave a value as it is |
| TemplateLaws.KeywordLaws | Design-system/support.js:223-226 | the values of `true`, `false`, `null` and `undefined` |
| TemplateLaws.NumberLaws | Design-system/support.js:200-227 | digits, with a fraction or not, with a minus sign or not, are read as the host reads numbers |
| TemplateLaws.StringLaw | Design-system/support.js:228-230 | a quoted text in either kind of quotes is its content |
| TemplateLaws.NameLaw | Design-system/support.js:260-262 | a name that is no keyword is that property of the values, or undefined if there are none |
| TemplateLaws.MemberLaw | Design-system/support.js:265-269 | a dot and a name or digits give that property, or undefined if the path so far is null or undefined |
| TemplateLaws.IndexLaw | Design-system/support.js:270-284 | brackets give the property named by the value inside, or undefined if the path so far is null or undefined |
| OrderLock.LockStep | controller/topup.go:268-308 | every step of any thread keeps the lock invariant: counts, holders, entries and references agree |
| OrderLock.OrderStep | controller/topup.go:373-408 | every step keeps the accounting of orders, with database calls failing before or after taking effect |
| OrderLock.RunKeepsInvariants | controller/topup.go:268-308 | both invariants hold after every interleaving of any number of threads |
| OrderLock.MutualExclusion | controller/topup.go:279-308 | two threads inside the section of one order are the same thread |
| OrderLock.UnlockFindsItsMutex | controller/topup.go:294-300 | the unlock finds in the map the very mutex its thread locked, still held by it |
| OrderLock.EntriesAreCounted | controller/topup.go:279-308 | outside `createLock` an order has an entry exactly when some thread is registered, and the count is the number of such threads |
| OrderLock.QuiescentMapIsEmpty | controller/topup.go:301-307 | when every thread is done the map holds nothing |
| OrderLock.NoDeadlock | controller/topup.go:279-308 | whenever a thread is busy some busy thread can take its next step |
| OrderLock.CreditedAtMostOnce | controller/topup.go:373-408 | in every run each order is credited at most once, and a credited order is in state success |
| OrderLock.SuccessIsCredited | controller/topup.go:373-408 | without database errors on it, an order in state success has been credited exactly once when nobody is crediting |
| OrderCrediting.SectionCredits | controller/topup.go:376-401 | a thread that holds an order and meets no failing call leaves a pending Epay order in success with one credit, and any other order unchanged, whatever other threads do meanwhile |
| OrderCrediting.OwnStepAdvances | controller/topup.go:376-401 | each step of the section leads on towards leaving |
| OrderCrediting.SectionEnds | controller/topup.go:376-401 | at any point of the section at most three more steps of the thread lead out of it |
| OrderCrediting.TransactionsAreWhole | model/topup.go:316-387 | the manual completion of an order pays a pending one and credits it once, or changes nothing; expiring closes a pending one without credit |
| OrderCrediting.InsertedIsPending | controller/topup.go:376-385 | a new order is pending and has no credit, and no other order changes |
| ModelNames.NormalizeFacts | controller/channel_upstream_update.go:93-98 | normalizing gives distinct, trimmed, non-blank names and exactly those that occur |
| ModelNames.NormalizeNormal | controller/channel_upstream_update.go:93-98 | a normal list is left as it is, so normalizing twice is normalizing once |
| ModelNames.NormalizedExactly | controller/channel_upstream_update.go:93-98 | a name is in the result if and only if it is not blank and some name of the list trims to it |
| ModelNames.NormalizeKeepsOrder | controller/channel_upstream_update.go:93-98 | names keep the order in which they first occur |
| ModelNames.MergeModelNames | controller/channel_upstream_update.go:100-114 | the loop with its set of seen names gives the base followed by the new names in order |
| ModelNames.MergeFacts | controller/channel_upstream_update.go:100-114 | merging is the union, without repetition |
| ModelNames.SubtractFacts | controller/channel_upstream_update.go:116-125 | subtracting is the difference, without repetition |
| ModelNames.IntersectFacts | controller/channel_upstream_update.go:127-136 | intersecting is the intersection, without repetition |
| ModelNames.SelectedChanges | controller/channel_upstream_update.go:138-143 | survivors keep their order, additions follow, and an addition wins over a removal of the same name |
| UpstreamSync.PendingAddExactly | controller/channel_upstream_update.go:172-231 | a name is staged for addition if and only if it is offered, not local, not the target of a renaming, not itself on the ignore list, and matched by no `regex:` pattern there |
| UpstreamSync.PendingRemoveExactly | controller/channel_upstream_update.go:172-231 | a name is staged for removal if and only if it is local, not the source of a renaming, and not offered |
| UpstreamSync.CheckedExactly | controller/channel_upstream_update.go:356-403 | what a check stores within the interval, after a failed fetch, with automatic sync and otherwise |
| UpstreamSync.Channel.Check | controller/channel_upstream_update.go:356-403 | the new stored record is the specified one: skipped within the interval, only time-stamped on a failed fetch, auto-applied or staged; a failed save or fetch is reported, and a failed save stores nothing |
| UpstreamSync.Channel.Apply | controller/channel_upstream_update.go:794-842 | the models, the ignore list and both staged lists after an apply, as functions of the old ones and the selection; a failed save stores nothing |
| UpstreamSync.Channel.Choose | controller/channel_upstream_update.go:807-813 | each name selected was staged and asked for, and each such name is selected, a removal giving way to an addition of the same name |
| UpstreamSync.SelectFacts | controller/channel_upstream_update.go:807-813 | a name is added, ignored or removed exactly when it was staged and requested, and a removal gives way to an addition |
| UpstreamSync.JoinReadsBack | model/channel.go:288-293 | a list of normal names without commas survives being stored as text |
| UpstreamSync.ApplyIsConservative | controller/channel_upstream_update.go:794-842 | all that is added was staged for addition, all that is removed was staged for removal, survivors keep their order and additions are appended |
| UpstreamSync.ApplyAccountsForAll | controller/channel_upstream_update.go:794-842 | staged additions are those added, ignored or still staged, the last disjoint from the others; no added name stays ignored |
| UpstreamSync.StillWanted | controller/channel_upstream_update.go:172-231 | what a second detection still wants: names lost to a comma, and names hidden only by a rule that the apply dropped |
| UpstreamSync.DetectApplyConverges | controller/channel_upstream_update.go:172-231 | detect, apply all, detect finds nothing, if and only if no name to add has a comma and no dropped rule had been hiding a name |
| UpstreamSync.PlainNamesConverge | controller/channel_upstream_update.go:890-900 | it converges for all upstream names without commas that do not start with `regex:`, whatever the ignore rules |
| UpstreamSync.CommaNamesReturn | controller/channel_upstream_update.go:794-842 | the upstream name `a,b` is detected again after it was applied |
| UpstreamSync.LostRuleExposes | controller/channel_upstream_update.go:820-826 | applying an upstream name spelled like the ignore rule `regex:^b$` drops the rule, and what it hid is detected next |
| UpstreamSync.AutoSyncSettles | controller/channel_upstream_update.go:356-403 | after an automatic sync the next check finds nothing to add and the same names to remove |
| UpstreamSync.AutoSyncExactly | controller/channel_upstream_update.go:356-403 | after an automatic sync the next check finds nothing to add if and only if no added name has a comma |
| ChannelScan.PageFacts | controller/channel_upstream_update.go:848-858 | a page is increasing, above the last id, and misses an enabled id only if it is full and all of it is smaller |
| ChannelScan.Scan | controller/channel_upstream_update.go:550-636 | no channel is visited twice, every visited one was enabled when queried, a complete scan visits every channel enabled throughout, and only cancelling or a failed query cuts it short |
| ChannelScan.VisitPage | controller/channel_upstream_update.go:868-923 | a batch is visited in order, up to where the context is cancelled |
| PriceDiff.BuildCell | controller/ratio_sync.go:593-653 | one cell of the first phase, with the values, the trust and whether it is listed |
| PriceDiff.TrustAll | controller/ratio_sync.go:558-591 | the trust table: the last channel of a name counts, and only the placeholder 37.5 with 1 is distrusted |
| PriceDiff.FirstPhase | controller/ratio_sync.go:593-654 | in any order of models, the first phase holds exactly the listed cells and no empty row |
| PriceDiff.ChannelsWithDiff | controller/ratio_sync.go:656-665 | the names of the channels that show a value of their own in some listed cell |
| PriceDiff.SecondPhase | controller/ratio_sync.go:667-693 | in any order of models and fields, exactly the pruned cells that still say something remain |
| PriceDiff.BuildDifferences | controller/ratio_sync.go:536-696 | the result holds exactly the cells that survive both phases, with their pruned contents |
| PriceDiff.OrderIsIrrelevant | controller/ratio_sync.go:536-696 | two results for the same prices are equal, whatever order the maps were traversed in |
| PriceDiff.StaysExactly | controller/ratio_sync.go:656-665 | a channel is reported if and only if it differs from the local prices in some cell |
| PriceDiff.CellExactly | controller/ratio_sync.go:593-693 | for all values, a cell is reported if and only if some channel differs in it or it is a leftover of nulls and markers |
| PriceDiff.ProperCells | controller/ratio_sync.go:536-696 | without nulls and markers, a cell is reported if and only if some channel supplies a value absent locally or unequal to the local one |
| PriceDiff.ReportedChannels | controller/ratio_sync.go:667-693 | a reported cell lists exactly the channels that differ somewhere, each with its own value and trust |
| PriceDiff.EqualExactly | controller/ratio_sync.go:48-62 | two values are equal unless they are numbers at least 1e-9 apart, different texts, or of different kinds |
| PriceDiff.ReportedExactly | controller/ratio_sync.go:536-696 | on proper prices a cell is reported if and only if some channel supplies a value that is missing locally, a number at least 1e-9 away, a different text, or a value of another kind |
| PriceDiff.ReportedCell | controller/ratio_sync.go:593-693 | a reported cell shows the local value and lists exactly the channels with news somewhere, each with its own value, `same` or nothing, and its trust |
| PriceDiff.TrustedExactly | controller/ratio_sync.go:566-590 | a channel is distrusted with a model if and only if it reports 37.5 with completion ratio 1, up to 1e-9 |
| PriceDiff.NullIsLost | controller/ratio_sync.go:605-636 | an upstream null against a local price is a difference that is not reported |
| PriceDiff.MarkerIsLost | controller/ratio_sync.go:605-636 | the upstream text `same` without a local value is a difference that is not reported |
| PriceDiff.LeftoverIsReported | controller/ratio_sync.go:656-693 | a cell in which no channel differs is reported beside a null, because the channel differs elsewhere |
| ModelsDev.BuildExactly | controller/ratio_sync.go:838-879 | a cost makes a candidate, with exactly its valid prices, if and only if input and output are finite and not negative and output is not charged on free input |
| ModelsDev.Select | controller/ratio_sync.go:915-944 | the nested loops select for every model what the fold over the sorted providers selects |
| ModelsDev.ChoiceIsOffered | controller/ratio_sync.go:921-944 | something is chosen exactly when some provider has a valid price, and what is chosen is such a price |
| ModelsDev.ChoiceIsCheapest | controller/ratio_sync.go:881-896 | the choice is strictly cheaper than every non-zero offer of an earlier provider and less than 1e-9 above every other one |
| ModelsDev.CheapestNonZero | controller/ratio_sync.go:898-906 | a zero price is chosen only if all valid ones are zero; otherwise the choice is less than 1e-9 above every non-zero price |
| ModelsDev.SeparatePricesGiveTheMinimum | controller/ratio_sync.go:898-906 | when unequal prices are at least 1e-9 apart, the choice is the lowest non-zero price from the first provider that has it |
| ModelsDev.UnsortedOrderDrifts | controller/ratio_sync.go:881-896 | in an unsorted order the tie-break climbs past the bound |
| ModelsDev.ConvertModelsDev | controller/ratio_sync.go:906-985 | it fails exactly when nothing is selected; otherwise each ratio is that of its model, and no quotient has a zero divisor |
| ModelsDev.RatiosMean | controller/ratio_sync.go:954-971 | up to half a millionth, the model ratio is half the input price, and the others are the output and cached price over the input price, present exactly for a price that is not zero |
| ModelsDev.RoundedIsNear | controller/ratio_sync.go:698-700 | rounding moves a ratio by at most half a millionth |
| OggScan.LittleEndianRoundTrip | common/audio.go:238-239 | little-endian bytes read back as the number they encode |
| OggScan.Int64RoundTrip | common/audio.go:238-239 | granule positions, negative ones included, survive encoding and the conversion from unsigned |
| OggScan.Advance | common/audio.go:217-258 | one iteration reads the header ahead, updates the maximum, and moves strictly forward or stops |
| OggScan.OpusDuration | common/audio.go:206-264 | on all bytes the loop ends and returns the scanned maximum over 48000, having taken headers at exactly the scanned offsets |
| OggScan.EncodedHeader | common/audio.go:229-257 | the header of a well-formed page is read back with its granule position and its whole size |
| OggScan.PageLayout | common/audio.go:229-245 | the bytes of a page: `OggS`, the granule position at 6, the number of segments at 26, their sizes, and the segments |
| OggScan.HeaderExactly | common/audio.go:221-257 | what is read at a header, byte by byte: too short, no page, the signed granule position, the table and the size |
| OggScan.UnsignedOfEight | common/audio.go:238-239 | eight bytes are a number with the least significant byte first |
| OggScan.PagesAreFound | common/audio.go:217-258 | the scan over chunks stops at exactly the page boundaries and keeps the largest granule position |
| OggScan.InChunksAre | common/audio.go:217-258 | what there is to find in a list of chunks is the running maximum and the page boundaries |
| OggScan.StreamDuration | common/audio.go:206-264 | on any stream of well-formed pages, with junk in between that does not look like one, the headers taken are the page boundaries and the result is the maximum of 0 and all granule positions |
| OggScan.SecondsOf | common/audio.go:206-264 | the duration of such a stream is that maximum over 48000 |
| OggScan.MaxGranuleFacts | common/audio.go:239-242 | that maximum bounds every granule position and is one of them or the start |
| OggScan.PlainPagesAreClean | common/audio.go:217-258 | a plain concatenation of pages is such a stream |
| RateLimit.InMemoryRateLimiter.Request | common/rate-limit.go:45-70 | the decision and the new queues, for a known key with room, a full queue and a new key |
| RateLimit.InMemoryRateLimiter.ClearExpiredItems | common/rate-limit.go:28-42 | one pass, in any order, drops exactly the keys that have been idle for longer than the expiration |
| RateLimit.RunKeepsKey | common/rate-limit.go:28-70 | in every run the queue is the end of the accepted history, and what is missing is older than the expiration |
| RateLimit.RequestIsExact | common/rate-limit.go:45-70 | after every run of requests and cleanups a request is accepted if and only if fewer than the limit were accepted within the window |
| RateLimit.WindowIsBounded | common/rate-limit.go:45-70 | no window of that length ever holds more accepted requests than the limit |
| RateLimit.LongWindowsForget | common/rate-limit.go:28-42 | for every longer window there is a run after which a cleanup makes the limiter accept too much |
| RateLimit.ZeroLimitActsAsOne | common/rate-limit.go:45-70 | a limit of zero decides and stores like a limit of one |
| MultiKey.JoinReadsBack | model/channel.go:176-198 | a joined list of keys is read back if and only if each key is a line of its own with non-empty ends, or the text decodes to the same list |
| MultiKey.KeysExactly | model/channel.go:176-198 | a text that opens a bracket and decodes gives the elements, any other its lines; an append reads it alike unless it opens a bracket and does not decode |
| MultiKey.AcceptedExactly | controller/channel.go:1582-1885 | when each action is accepted, said of the rows shown: the index in range, more than one key, some row of status 1 or 3, some row with the key |
| MultiKey.AddedExactly | controller/channel.go:1011-1030 | an append adds exactly the new keys, trimmed, that are not blank and that no existing key trims to, each once |
| MultiKey.CountedSame | model/channel.go:525-559 | `Update` counts as many keys as `GetKeys` returns if and only if the text does not decode to an empty array |
| MultiKey.DeletionExact | model/channel.go:525-573 | saving a shrunken key list shows exactly the kept rows, renumbered, if and only if the remaining keys read back; sizes and indices agree if and only if the text is counted right and nothing recorded is left beyond its keys |
| MultiKey.DeleteKeyExact | controller/channel.go:1738-1816 | `delete_key` turns the status view into the old view without that row if and only if the remaining keys read back, and keeps sizes and indices in agreement if and only if they fit |
| MultiKey.DeleteDisabledExact | controller/channel.go:1818-1885 | `delete_disabled_keys` turns the view into the rows not automatically disabled if and only if the remaining keys read back, and keeps sizes and indices in agreement if and only if they fit |
| MultiKey.AllAutoDisabledComeBack | controller/channel.go:1866-1878 | when all keys are automatically disabled they all stay and are all enabled |
| MultiKey.AppendExact | controller/channel.go:962-1034 | an append keeps every row and adds the new keys enabled, if and only if the longer list reads back or there is nothing to write, and keeps sizes and indices in agreement if and only if they fit |
| MultiKey.AppendRowsExactly | controller/channel.go:962-1034 | for every stored text, an append keeps every row and adds the new keys enabled if and only if the text it writes reads as the old keys followed by the new ones |
| MultiKey.UndecodableAppendForgets | controller/channel.go:968-980 | a bracketed key text that does not decode is replaced by the new keys alone |
| MultiKey.RowsAfter | controller/channel.go:1582-1736 | the other actions leave the keys alone and change exactly the rows they are about, keeping sizes and indices in agreement |
| MultiKey.EnablingForgets | controller/channel.go:1625-1689 | enabling one key or all forgets the recorded time and reason, so that disabling it again shows neither |
| MultiKeyRuns.RunKeepsValid | controller/channel.go:1582-1885 | over every run of actions from a valid channel, at every point the size is the number of keys and all side-map indices are in range, if and only if every accepted action on the way fits |
| MultiKeyRuns.AlwaysMeansEachPoint | controller/channel.go:1582-1885 | a run that agrees all the way does so after each of its actions |
| MultiKeyRuns.DeletionsInRuns | controller/channel.go:1738-1885 | at any point of such a run a deletion removes exactly its rows if and only if the remaining keys read back |
| MultiKeyRuns.ActionKeepsValidExactly | controller/channel.go:1582-1885 | for each action and every valid channel, sizes and indices agree afterwards if and only if the action fits |
| MultiKeyRuns.DeleteKeyKeepsAllExactly | controller/channel.go:1738-1816 | deleting a key of a given text keeps all valid side maps within the new size if and only if the remaining keys, once written, read as no fewer |
| MultiKeyRuns.DeleteDisabledKeepsAllExactly | controller/channel.go:1818-1885 | the bulk deletion does for all times and reasons if and only if every disabled key that is kept still has a key to its position |
| MultiKeyRuns.AppendKeepsAllExactly | controller/channel.go:962-1034 | an append to a given text does if and only if the longer list reads as no fewer keys than before |
| MultiKeyRuns.BlankLineShifts | controller/channel.go:1738-1816 | with a blank line between two plain keys, deleting the first gives the second the status of the blank line |
| MultiKeyRuns.TimeIsLeftBehind | model/channel.go:557-563 | and leaves a time recorded for the second key beyond the last key, so that the condition fails |
| MultiKeyRuns.TameRunsFit | controller/channel.go:1582-1885 | with single-line, non-blank keys that open no bracket every run fits, and a deletion removes exactly its rows, the bulk one unless it would remove all |
| MultiKeyChannel.Channel.Save | model/channel.go:525-573 | the stored channel after `Update`: an empty key keeps the old one, the size is recounted, statuses beyond it are dropped |
| MultiKeyChannel.Channel.KeyStatus | controller/channel.go:1468-1529 | the rows, with the default status and the hidden times of enabled keys, and the three totals |
| MultiKeyChannel.Channel.GetKeyStatus | controller/channel.go:1468-1580 | the filter, the defaults and the clipping of page and page size, the number of pages and the page shown |
| MultiKeyChannel.PagesCoverAll | controller/channel.go:1544-1566 | the pages one after another are all the rows that pass the filter, each once and in order |
| MultiKeyChannel.FilteredExactly | controller/channel.go:1531-1541 | the filter keeps exactly the rows with the wanted status, with their positions and in order |
| MultiKeyChannel.PagesAreNotEmpty | controller/channel.go:1544-1566 | every page but the last is full, and none is empty unless there is nothing to show |
| MultiKeyChannel.Channel.DisableKey | controller/channel.go:1582-1623 | refusal and the new stored channel |
| MultiKeyChannel.Channel.EnableKey | controller/channel.go:1625-1665 | refusal and the new stored channel |
| MultiKeyChannel.Channel.EnableAllKeys | controller/channel.go:1667-1689 | the new stored channel |
| MultiKeyChannel.Channel.DisableAllKeys | controller/channel.go:1691-1736 | refusal when nothing is enabled, and the new stored channel |
| MultiKeyChannel.Channel.DeleteKey | controller/channel.go:1738-1816 | refusal of a missing or last key, and the re-indexed channel that is saved |
| MultiKeyChannel.Channel.DeleteDisabledKeys | controller/channel.go:1818-1885 | refusal when there is nothing to delete, the number deleted and the re-indexed channel that is saved |
| MultiKeyChannel.Channel.AppendKeys | controller/channel.go:962-1034 | the stored channel after appending keys |
| MultiKeyChannel.Deduplicate | controller/channel.go:1011-1030 | the new keys that are added are the trimmed, non-blank ones not there yet, once each and in order |
| MultiKeyChannel.Channel.MarkKey | model/channel.go:640-690 | the status, time and reason of the first key that matches change; the channel itself is disabled when no key is left enabled, enabled with a key, and takes the status when there is no key to mark |
| TaskCas.Merge | controller/relay_meshy.go:215-247 | the fields of the snapshot after merging a delivery |
| TaskCas.MergedExactly | controller/relay_meshy.go:215-247 | platform and quota are kept, status and progress are those delivered or the defaults, the times are set once, the URL comes with success and the reason with failure; no other row reflects a delivery |
| TaskCas.TerminalRowIsFrozen | controller/relay_meshy.go:211-213 | no step of anyone changes a row that has succeeded or failed |
| TaskCas.StepKeepsInv | controller/relay_meshy.go:201-261 | every step keeps the invariant on snapshots, owed refunds and paid refunds |
| TaskCas.TerminalIsFinal | model/task.go:419-432 | over every run a row that has succeeded or failed never changes again, in any field |
| TaskCas.RefundedAtMostOnce | controller/relay_meshy.go:249-260 | in every interleaving a job is refunded at most once, only when its row is in failure, and with the quota of that row |
| TaskCas.SuccessIsNeverRefunded | controller/relay_meshy.go:249-260 | a job that succeeds at any point of a run is not refunded at any point of it |
| TaskCas.RefundedExactlyOnce | controller/relay_meshy.go:258-260 | without errors and crashes, once all workers are done, exactly the jobs that failed with a quota are refunded, exactly once |
| TaskCas.DeliveryLands | controller/relay_meshy.go:201-261 | a delivery to an open job, whatever happens before its update, changes the row to reflect it and owes the refund of a failure, if and only if the status is still the one it read |
| TaskCas.DeliveryIsIgnored | controller/relay_meshy.go:207-213 | a delivery to a missing, foreign or finished job does nothing |
| TaskCas.PayingRefunds | controller/relay_meshy.go:258-260 | paying adds one refund of the quota on the row |
| TaskCas.DeliveriesRefundOnce | controller/relay_meshy.go:201-261 | when only deliveries change rows and nothing goes wrong, a job that ends in failure is refunded exactly once by the quota it started with, if that is not zero, and any other not at all |
| BodyStorage.MemoryStorage.Read | common/body_storage.go:48-55 | answer and new state of the abstract reader |
| BodyStorage.MemoryStorage.Seek | common/body_storage.go:57-64 | answer and new state of the abstract reader, invalid positions included |
| BodyStorage.MemoryStorage.Bytes | common/body_storage.go:75-82 | the whole content, the position unchanged |
| BodyStorage.MemoryStorage.Close | common/body_storage.go:66-73 | the first close, and only that, takes the counters back |
| BodyStorage.DiskStorage.Read | common/body_storage.go:170-177 | the same answer as memory but for an empty read, and the same new state |
| BodyStorage.DiskStorage.Seek | common/body_storage.go:179-186 | the same answer and new state as memory |
| BodyStorage.DiskStorage.Bytes | common/body_storage.go:200-232 | seeking, reading and seeking back gives the whole content and leaves the position where it was |
| BodyStorage.DiskStorage.Close | common/body_storage.go:188-198 | the first close, and only that, takes the counters back |
| BodyStorage.KindsAgreeExactly | common/body_storage.go:48-90 | over every sequence of operations memory and disk give the same answers if and only if none is an empty read at the end of the body |
| BodyStorage.AnswersExactly | common/body_storage.go:48-82 | what reading, taking all bytes and closing answer and leave, before and after a close, inside and at the end of the body |
| BodyStorage.SeeksExactly | common/body_storage.go:57-64 | seeking from the start, the position or the end, and what is refused |
| BodyStorage.SideBySide | common/body_storage.go:170-232 | a memory and a disk storage of one body, given any operations without empty reads, answer alike at every step and end in the same state |
| BodyStorage.RunKeepsContent | common/body_storage.go:48-90 | over every sequence of operations the content stays and only closing closes |
| BodyStorage.ReadsDeliverInOrder | common/body_storage.go:48-55 | reads of any sizes deliver the body in order without gap or overlap |
| BodyStorage.RewindExposesAll | common/gin.go:36-45 | after any operations short of closing, a rewind exposes the whole body again |
| BodyStorage.CreateBodyStorage | common/body_storage.go:243-261 | the storage holds the data from offset 0, on disk exactly when the cache is enabled, the size reaches the threshold, there is room and the disk works |
| BodyStorage.CreateFromReader | common/body_storage.go:264-305 | the storage holds the whole body and no more than the limit, or the error says which went wrong |
| BodyStorage.Request.GetBodyStorage | common/gin.go:36-96 | every successful call gives the storage with the whole original body at offset 0, the same one until cleanup |
| BodyStorage.Request.Cleanup | common/gin.go:99-106 | the storage is closed and forgotten |
| CacheCounters.StepConserves | common/disk_cache_config.go:108-134 | every atomic step of every storage keeps the counters equal to the totals they stand for |
| CacheCounters.CountersAreConserved | common/body_storage.go:38-73 | over every interleaving of creations and closes the counters are those totals and the clamp to zero never fires |
| CacheCounters.CountersAtRest | common/disk_cache_config.go:108-134 | between operations the counters are the number and total size of the open storages of each kind |
| CacheCounters.OpeningCounts | common/body_storage.go:38-46 | creating a storage adds one to the count and its size to the bytes of its kind |
| CacheCounters.ClosingCounts | common/body_storage.go:66-73 | closing an open storage takes one off the count and its size off the bytes of its kind |
| CacheCounters.DoubleCloseIsIdle | common/body_storage.go:188-198 | once closed, closing again changes nothing, whatever happened meanwhile |
| Verification.VerificationCodes.Register | common/verification.go:35-45 | the map after storing the code and, above the size limit, sweeping |
| Verification.VerificationCodes.Verify | common/verification.go:47-56 | a code is accepted exactly when it is stored, not expired and equal |
| Verification.VerificationCodes.DeleteKey | common/verification.go:58-62 | exactly that entry goes |
| Verification.VerificationCodes.RemoveExpiredPairs | common/verification.go:65-72 | exactly the expired entries go, in any order |
| Verification.PurposesAreDistinct | common/verification.go:16-19 | entries of the two purposes never collide, whatever the keys |
| Verification.RunKeepsStep | common/verification.go:35-72 | after every run what is stored is the latest registration, and what is missing was deleted, never there, or has expired |
| Verification.VerifyIsExact | common/verification.go:47-56 | after every run a code is accepted if and only if the latest registration for purpose and key is not deleted, not expired and carries it |
| Verification.VerifyIsExactInTime | common/verification.go:47-56 | the same with the validity written out in minutes of sixty seconds |
| Verification.SweptExactly | common/verification.go:65-72 | a sweep keeps exactly the entries registered less than that many minutes ago |
| Verification.EvictionIsUnobservable | common/verification.go:42-44 | stores that sweep after different registrations give the same answers |

## Assumptions

- Floats are reals, integers are unbounded except the 64-bit granule positions, strings are sequences of
  Unicode characters, and clocks never go back.
- JavaScript property reads, `Number(...)` and loose and strict equality are uninterpreted functions without side
  effects. The regular expressions of ignore rules and the decoding of JSON key arrays are uninterpreted too.
- Readers deliver whatever is there; files do not fail once created; a request body that was closed cannot be
  read again. Database saves succeed unless a model says otherwise. Channel ids are positive.
- Upstream prices are null, a number or a text; a number is already a float.
- `UpdateWithStatus` is one atomic step, and other writers of a job start from a status that is not final.

## Left out

- `compileAttr` and the rest of `support.js`: rendering, attribute encoding and interpolation.
- Handlers, request binding, responses, logging, audit records and caches around the modelled logic.
- The stored reason and time of a whole channel's status, the polling index and key selection of multi-key channels.
- MultiKeyChannel.Channel.KeyStatus: shows whole keys instead of ten-byte previews, because the preview is a function of the key.
- Midjourney polling and the older video poller, which do not follow the compare-and-set discipline.
- Settling the quota of successful jobs.
- `CleanupOldDiskCacheFiles`, `ResetDiskCacheUsage` and `SyncDiskCacheStats`, which overwrite the counters.
- Notifications, summaries and the runtime cache of the upstream model scan.
- The other audio formats, and upstream price sources other than models.dev.
- ChannelScan.Scan: the two scan loops of the source differ in what they do with a channel, which is not modelled.
