# Feature flag studio: verified model

The studio edits feature flags that live as YAML in a remote file store. This project models the parts of it where a
mistake would silently change what users are served, and proves what those parts are meant to guarantee:

- **Targeting queries.** A condition tree is printed as text and read back by a hand-written parser with quote-aware
  scanners. The project predicts the parser's answer to every printed condition with plain attributes and to what users
  type in other spellings, shows exactly which printed queries keep their meaning, and says on which rows the web
  editor's own printer writes the same text and what it means where it does not.
- **Writes under contention.** Any number of writers read, compare versions, re-apply and write conditionally while
  others edit the same object. No update is lost, in any interleaving, and a save only lands on a flag that compares as
  the same as the one that was in view; what the comparison does not see is spelt out.
- **YAML edits.** A flag is changed inside a document with comments, anchors and aliases. No other flag changes its
  value, a rule with a name of its own keeps what the studio does not model, the text of every other flag stays as it
  was, and what is written reads back as the flag that was in memory.
- **Diffs, percentages, promotions and attribution.** The shown diff is minimal and enough to rebuild the new text,
  shares always total one hundred, it is known exactly what a promotion clears from the drift report, and the recorded
  attribution always fits and reads back.

## Files

| file | what it models |
|---|---|
| `Options.dfy`, `Collections.dfy`, `Strings.dfy` | optional values, results, and the string functions of the Go library |
| `Scanner.dfy`, `Conditions.dfy`, `Parser.dfy` | the scanners, the condition printer and the parser |
| `Literals.dfy`, `Queries.dfy`, `Reading.dfy`, `RoundTrip.dfy` | printed queries piece by piece, up to the parser's answer |
| `Meaning.dfy`, `Idempotence.dfy`, `Splitting.dfy`, `PrinterLoops.dfy` | what queries mean, the main theorems, and the loops |
| `Spelling.dfy` | queries in other spellings than the printed one, and what holds of any text |
| `Shortfalls.dfy` | where printing and parsing fall short of a round trip, and exactly when |
| `EditorPrinter.dfy`, `EditorMeaning.dfy` | the printer of the web editor, and what its text means |
| `WriteProtocol.dfy`, `WriteLoops.dfy` | the write protocol as steps, and the retry loops |
| `Flags.dfy`, `Snapshots.dfy` | flags, their comparison, and the snapshots behind a save |
| `YamlTree.dfy`, `YamlPaths.dfy`, `YamlEdit.dfy`, `YamlRules.dfy`, `YamlDocument.dfy` | documents as trees, the node merge, and the edits of one flag |
| `FlagReading.dfy` | what written rules and flags say when they are read again |
| `YamlLines.dfy`, `YamlText.dfy`, `YamlLayout.dfy` | documents as lines, the text of untouched nodes, and how a flag is laid out |
| `Promotion.dfy`, `PromotedDrift.dfy` | promotion in memory, and what is in the file and the drift report once it is saved |
| `Diff.dfy`, `DiffReading.dfy`, `Splits.dfy`, `Attribution.dfy` | one component each |

`dafny verify dfyconfig.toml` checks the whole project.

## How to read the model

- A query's **shape** (`Queries.Shape`) is what a condition prints as: parts that do not render are dropped and groups
  of one part are collapsed. Leaves mean: `eq` is an atom over the attribute and the normal value (trimmed, with true
  and false in lower case), `ne`, `in` and `notin` are told from it, and the other operators are atoms of their own.
- Attributes are **plain**: no white space, quotes, brackets or parentheses. Names made of word characters are plain.
- The parser has three outcomes: a tree, "not simple", and **stuck**. Stuck is the call at
  `internal/goff/condition.go:224-226`, which gets the very string it was working on and never ends.
- In the write protocol a *version determines the content*, and a conditional write succeeds exactly when the object
  still has the version that was read. The log of all states is kept, so that interleavings can be spoken about.
- A YAML node is decoded with the anchors known where it stands; an alias stands for the last anchor of its name before
  it. A node is **plain** when it was just made from values, with no anchors and no aliases.

## Where the code falls short of what it promises

Each item names the lemmas that show it, on a concrete input or for all of them, and say when it does not happen.

- A value with a parenthesis makes the parser run for ever on the query it was printed as, unless it is in a negated
  list, which is always read (`Idempotence.ParenthesisDiverges`, `Shortfalls.NegatedListIsRead`).
  `Shortfalls.DivergesIff` gives the conditions with plain attributes on which the parser never ends, and
  `Shortfalls.EndlessIffExposes` what is left of that when no attribute is cut at a joining word.
- A negation of a negation loses one of the two (`Idempotence.DoubleNegationIsLost`). A stack of negations reads back
  right exactly when their number leaves nought or one by four (`Shortfalls.NestedNegations`).
- Handwritten `not (a) and (b)` is read as the negation of both, which agrees with what is written exactly where `b`
  holds, and for `or` where it does not (`Shortfalls.ParseHandwritten`, `Shortfalls.HandwrittenMeans`).
- A top-level group of one part around a group of several prints one redundant outer pair of parentheses, which later
  prints do not have (`Shortfalls.FirstPrintIsLast`, `Shortfalls.RedundantPair`).
- The editor shows `eq` and `ne` rows as lists: a value with a comma comes back as several items, with another meaning,
  and a row with a blank value does not come back (`EditorMeaning.CommaChangesMeaning`, `EditorMeaning.CommaRow`,
  `EditorMeaning.BlankRow`).
- A rule without a name of its own is written anew on any edit of its flag, and loses every entry the studio does not
  model (`YamlRules.CarriesExactly`, `YamlRules.UnnamedRuleLosesUnmodelled`). Of several rules with one name, all carry
  the last one's entries.
- A handwritten query that printing would give otherwise is replaced by the printed one unless a rule of its name stands
  in the file with that text: in a rule without a name on any edit of its flag, and in any rule when it was just typed.
  That can change whom the rule serves (`YamlRules.AuthorsTextStaysIff`, `YamlRules.HandwrittenIsRewritten`,
  `YamlRules.HandwrittenServesOthers`).
- A save is let through over another user's change of a ramp, an experimentation, a bucketing key or any metadata but
  the description (`Flags.SameFlagStateIsSameView`, `Flags.RampsGoUnnoticed`).
- The comparison of percentages reads a missing name as zero, so a variation with a zero share can be exchanged for
  another without being noticed (`Flags.SameOutcomeIsEquality`). For the same reason a promoted rule that differs from
  the target's in such a share only is not written (`PromotedDrift.ZeroShareIsKept`).
- A promoted rule with a handwritten query that printing would give otherwise stays in the drift report, however often
  it is promoted, if the target has no rule of its name and text (`PromotedDrift.PromotionClearsDrift`,
  `PromotedDrift.HandwrittenRuleStays`). And where two flags agree in such a rule without a name, promoting anything
  else brings the rules into the report (`PromotedDrift.UnselectedRulesDrift`).
- Saving the same promotion of rules a second time can change them again if several share a name
  (`PromotedDrift.SavedAgain`, `PromotedDrift.SharedNameChangesAgain`); never otherwise
  (`PromotedDrift.OwnNamesSettle`).
- An edit of a flag whose own mapping is anchored changes what aliases of it see (`YamlEdit.AnchoredFlagLeaks`,
  `YamlEdit.AnchoredFlagTurnsAlias`); anchors below it are always protected.
- Promoting the variations of a flag can leave the target serving one that is gone: by its own default or rules, if
  those are not promoted along with them (`Promotion.VariationsAloneCanStrand`), and by a rule of its own that is taken
  for the promoted one and stays in the file (`PromotedDrift.KeptRuleStrands`). `PromotedDrift.SavedStaysClosed` says
  exactly when that happens.
- A ramp between two steps of the same variation is frozen to a share that need not be one hundred
  (`Promotion.FrozenTotals`, `Promotion.OneVariationFallsShort`).

## Model

| member | source | states |
|---|---|---|
| Scanner.ScanBalanced | internal/goff/parse.go:68-95 | the index loop accepts exactly the texts in which every parenthesis outside quotes is matched |
| Scanner.Tokenize | internal/goff/parse.go:8-55 | the index loop cuts at white space outside quotes and brackets and nowhere else |
| Scanner.ReadWord | internal/goff/parse.go:107-113 | the loop takes the longest run of word characters |
| Scanner.UnquoteQuote | internal/goff/parse.go:57-66 | unquoting undoes quoting for every value, whatever quotes and backslashes it holds |
| Scanner.QuoteIsOpaque | internal/goff/parse.go:8-95 | every scanner leaves string mode at the closing quote of a printed value, and not before |
| Literals.UnquoteFormat | internal/goff/condition.go:320-343 | reading a printed value gives the value trimmed, with true and false in lower case |
| Literals.UnformatListText | internal/goff/condition.go:345-360 | reading a printed list gives its items, in normal form and in order |
| Literals.FormatNotOperator | internal/goff/condition.go:228-236 | no printed value is taken for an operator |
| PrinterLoops.SplitListLoop | internal/goff/condition.go:297-305 | the loop keeps the trimmed fields that are not blank, in order |
| PrinterLoops.FormatListLoop | internal/goff/condition.go:307-318 | formatting field by field is formatting the items of the split list |
| PrinterLoops.UnformatListLoop | internal/goff/condition.go:345-360 | the loop unquotes the fields that are not blank, in order |
| PrinterLoops.CompileLoop | internal/goff/condition.go:39-100 | collecting the rendered children in a loop gives the text of the recursive printer |
| Queries.CompileShape | internal/goff/condition.go:39-100 | a condition prints as its shape does: what does not render is dropped, single-child groups collapse |
| Queries.NestBody | internal/goff/condition.go:62-71 | every printed query with plain attributes is balanced at any depth |
| Queries.StripPrinted | internal/goff/condition.go:290-295 | stripping outer parentheses of a query with plain attributes takes exactly the pair that printing put there |
| Splitting.StripOuterParens | internal/goff/condition.go:290-295 | the loop ends, and strips as the parser's specification does |
| Splitting.CutTopLevel | internal/goff/condition.go:155-219 | the index loop cuts as the specification does and refuses the same texts |
| Splitting.SplitTopLevelExact | internal/goff/condition.go:155-219 | one more group than joins, groups non-empty and balanced, and weaving them together again gives the text back up to white space around the groups and the case of the joining words |
| Parser.PiecesLength | internal/goff/condition.go:190-202 | every joining word takes characters away from the pieces |
| Parser.SplitShorter | internal/goff/condition.go:145-151 | every nested call on a group of several gets a strictly shorter string |
| Splitting.SameStringAgain | internal/goff/condition.go:224-226 | where the model says stuck, the code calls itself on the very string it was working on |
| Splitting.LeafBranchIsStuck | internal/goff/condition.go:221-226 | the leaf branch for text with parentheses is never anything but that endless call |
| Reading.ParseNegatedLeaf | internal/goff/condition.go:256-288 | an attribute may be called `not`: the negation is tried first and the leaf is still read |
| RoundTrip.ParsePrinted | internal/goff/condition.go:120-288 | the parser's exact answer to every printed query with plain attributes, with and without its outer parentheses |
| Idempotence.PrintThenParse | internal/goff/condition.go:34-118 | for every condition with plain attributes, the parser's answer to its printed text is the predicted one |
| Meaning.WordAttribute | internal/goff/highlight.go:95-97 | a name made of word characters is plain, and is cut exactly when it is `and` or `or` |
| Meaning.NameAttribute | internal/goff/highlight.go:95-97 | names of letters, digits, underscores, dots and hyphens are plain, and only the joining words among them are cut |
| Meaning.ShapeMeaning | internal/goff/condition.go:44-61 | dropping what does not render and collapsing single-child groups keeps the meaning |
| Meaning.PrintableReads | internal/goff/condition.go:120-288 | a printable query is read, and the tree read says the same about every user |
| Meaning.ReadsTrueIffPrintable | internal/goff/condition.go:39-288 | a query and all its parts keep their meaning through printing and parsing exactly when it is printable |
| Idempotence.RoundTripKeepsMeaning | internal/goff/condition.go:34-288 | printing a printable condition and parsing the text gives a simple query with the same meaning under every assignment |
| Idempotence.ParseThenPrint | internal/goff/condition.go:34-288 | the tree read from printed text is a fixed point of printing and parsing |
| Spelling.ParseTyped | internal/goff/condition.go:120-151 | queries typed with joining words in any case and any white space around them are read as a group of their parts, in order; with both joining words the query is not simple |
| Spelling.MixedIsRefused | internal/goff/condition.go:137-142 | in particular `(q) and (r) or (t)` and `(q) or (r) and (t)`, for all q, r and t |
| Spelling.ReadAsGroup | internal/goff/condition.go:120-151 | any text that is read as a group of several has that group's joining word between all its parts, and the parts are read as the children |
| Spelling.GroupsAreRead | internal/goff/condition.go:132-151 | any text of several parts that is no negation is read exactly if its joining words agree and all its parts are read |
| Spelling.ParseTypedNot | internal/goff/condition.go:256-288 | `not` in any case, with or without a space before the parenthesis, is read as the negation |
| Spelling.ParseTypedNotIn | internal/goff/condition.go:267-274 | `not` before a list test, in any case and spacing, is read as one `notin` test |
| Spelling.ParseTypedWords | internal/goff/condition.go:221-254 | words in any spacing, bare, in quotes of either kind, or a list, are read as these tokens |
| Spelling.ReadTokensExactly | internal/goff/condition.go:228-254 | exactly which tokens are read as a test, and as which |
| Spelling.UnquoteQuotedBy | internal/goff/parse.go:57-66 | unquoting undoes quotes of either kind, and leaves text whose quotes do not match |
| Spelling.KnownInAnyCase | internal/goff/build.go:34-37 | an operator is known in any case, and no other word is one |
| Shortfalls.NestedNegations | internal/goff/condition.go:280-287 | a stack of any number of negations reads back with its meaning exactly when the number leaves nought or one by four |
| Shortfalls.DivergesIff | internal/goff/condition.go:221-226 | for which conditions with plain attributes the parser never ends on the printed text |
| Shortfalls.EndlessIffExposes | internal/goff/condition.go:221-226 | without joining words in attributes, those are the conditions with a value with a parenthesis outside of negated lists |
| Shortfalls.NegatedListIsRead | internal/goff/condition.go:267-274 | a witness of a negated list with a parenthesis, which is read |
| Shortfalls.ParseHandwritten | internal/goff/condition.go:256-288 | the parser's exact answer to `not (q) and (r)` and `not (q) or (r)` for all queries q and r with plain attributes |
| Shortfalls.HandwrittenMeans | internal/goff/condition.go:256-288 | what it then means, and for which users that is what was written |
| Shortfalls.FirstPrintIsLast | internal/goff/condition.go:44-71 | the first print of a condition is the same text as later ones exactly if it is no chain or its top group has several parts |
| Shortfalls.RedundantPair | internal/goff/condition.go:56-71 | a witness of a condition whose first print has a pair of parentheses more |
| Idempotence.ParenthesisDiverges | internal/goff/condition.go:224-226 | a quoted value with a parenthesis: the printed condition is never read to an end |
| Idempotence.DoubleNegationIsLost | internal/goff/condition.go:280-283 | a witness of a double negation that comes back with one negation |
| PrinterLoops.RenderLoop | web/src/lib/query.ts:96-112 | the editor's loop gives the text of its recursive printer |
| EditorPrinter.QuoteAgrees | web/src/lib/query.ts:39-41 | escaping backslashes and then quotes is escaping both at once |
| EditorPrinter.RowAgreesIff | web/src/lib/query.ts:43-90 | a row prints the same in the editor and on the server if its value is not blank, has no comma unless it is a list, and both take it for a number or neither does; for plain attributes only then |
| EditorPrinter.PrintersAgree | web/src/lib/query.ts:92-112 | the editor and the server print every agreeable condition as the same text |
| EditorPrinter.EditorShowsServerText | web/src/lib/query.ts:114-151 | the text the editor shows for a condition is the text the server writes for it |
| EditorMeaning.EqualsRowIsListRow | web/src/lib/query.ts:64-90 | the editor prints an `eq` row as the server prints the list with the same value, and a row with a blank value not at all |
| EditorMeaning.CommaChangesMeaning | web/src/lib/query.ts:128-151 | shown as a list, an `eq` or `ne` value keeps its meaning exactly if it has no comma |
| EditorMeaning.CommaRow | web/src/lib/query.ts:128-151 | a witness of a value with a comma and a user who matches one text and not the other |
| EditorMeaning.BlankRow | web/src/lib/query.ts:70-71 | a witness of a row the server prints and the editor drops |
| WriteProtocol.NextKeeps | internal/githubapp/client.go:149-195 | every step of every request, and every edit from outside, keeps the invariant |
| WriteProtocol.NoUpdateIsLost | internal/githubapp/client.go:149-195 | in every interleaving each state a request made is its own change applied to the state directly before it |
| WriteProtocol.RequestsWriteOnce | internal/githubapp/client.go:157-194 | a request writes once if it committed and never otherwise; one that gave up saw at least as many foreign writes as it had attempts |
| WriteProtocol.OtherFilesKept | backends/configmap/configmap.go:271-287 | with one version for all files a step leaves every other key as it was, and a created key was absent directly before |
| WriteProtocol.UndisturbedCommits | internal/githubapp/client.go:157-190 | a request with nothing in its way commits in its three steps, and its change is all that is new |
| WriteProtocol.ReadAnswers | internal/githubapp/client.go:158-182 | what follows a read: an error, a conflict, nothing to do, or the content to write, and exactly when |
| WriteProtocol.PutAnswers | internal/githubapp/client.go:183-194 | what follows the conditional write: a commit, another attempt, giving up or an error, and exactly when |
| WriteLoops.Server.Put | internal/githubapp/client.go:217-241 | the conditional write is accepted exactly on the version that was read, given a version not used for other contents, and otherwise changes nothing |
| WriteLoops.Decide | internal/githubapp/client.go:163-182 | between read and write a request takes the protocol's step: it stops for a reason that holds of what it read, or has a change that may land |
| WriteLoops.Commit | internal/githubapp/client.go:149-195 | with anything happening around it, the loop commits its own change of the last state, or stops for a reason; it tries again only where it was overtaken, gives up only where it always was, and commits at once where nothing is in its way |
| WriteLoops.CreateFile | backends/configmap/configmap.go:446-478 | the same of a creation, which never overwrites a key |
| WriteLoops.ReadyCommits | internal/githubapp/client.go:149-195 | an account of an undisturbed request that is ready can only be that of a commit |
| Flags.SameOutcomeIsEquality | internal/server/service.go:424-437 | the comparison of outcomes is equality exactly for outcomes without a zero share |
| Flags.SameFlagStateIsSameView | internal/server/service.go:392-437 | two flags compare as the same if their compared parts are equal, whatever else differs, and for flags without zero shares only then |
| Flags.LeftOpen | internal/server/service.go:392-422 | ramps, experimentation, bucketing key and other metadata can be set at will without being noticed |
| Flags.RampsGoUnnoticed | internal/server/service.go:413-420 | a witness: a ramp to everybody and one to nobody compare as the same |
| Snapshots.SnapshotCache.Remember | internal/server/service.go:54-79 | the cache and the history after a load, evictions included |
| Snapshots.ByKeyFinds | internal/server/service.go:66-69 | every flag of a load is found by its key, the last of two with one key |
| Snapshots.SnapshotCache.Snapshot | internal/server/service.go:81-91 | looks up a flag as it was in a file at a version |
| Snapshots.EvictionKeepsNewest | internal/server/service.go:72-78 | what was just remembered survives, at most 256 entries or one version are left, none is invented, and another entry goes exactly if it is of another version and there would be more than 256 |
| Snapshots.LookupIsLastRemembered | internal/server/service.go:54-91 | starting empty, a lookup gives what was last remembered for that file and version, or nothing |
| Snapshots.SnapshotIsLastLoad | internal/server/service.go:81-91 | a lookup gives the flag of the last load of that file and version, as long as the history has it |
| Snapshots.StillRemembered | internal/server/service.go:68-78 | the history has every load as long as no more than 256 pairs of file and version were loaded |
| Snapshots.FlagChangedSees | internal/server/service.go:956-972 | the flag counts as unchanged if its compared parts are, and for flags without zero shares only then |
| Snapshots.FlagChangedElsewhere | internal/server/service.go:956-972 | without a flag in view nothing counts as changed; with one, an unreadable file or a vanished flag does |
| Snapshots.SaveLandsOnUnchangedFlag | internal/server/service.go:310-363 | in every run, a save from a known version with the flag in view only lands on contents whose flag passes the comparison with that view |
| Snapshots.SaveBegins | internal/server/service.go:310-313 | a save begins exactly from a version that is known, or from none, with the flag that was shown |
| Snapshots.SaveLandsOnWhatWasShown | internal/server/service.go:310-363 | in every run, a save from a known version only lands where the flag compares as the same as what the file held of it at that version |
| Snapshots.LoadedSaveLands | internal/server/service.go:310-363 | and such saves do land: loading a file and saving one of its flags writes the change |
| YamlTree.MergeGood | internal/goff/yamldoc.go:393-474 | a merge that succeeds has exactly the new value, keeps every anchored node whole and in order, and later aliases see what they saw |
| YamlPaths.MergeKeepsAgreeing | internal/goff/yamldoc.go:393-402 | wherever the original already says what the new value says, the merge has the original node itself |
| YamlPaths.MergeWithoutAnchors | internal/goff/yamldoc.go:369-391 | no merge is refused when the original holds no anchor |
| YamlTree.MergeKeepsComments | internal/goff/yamldoc.go:393-474 | a merged node keeps its comments, and a scalar of the same type its style |
| YamlTree.MergedEntriesKeep | internal/goff/yamldoc.go:393-474 | the entries that stay in a merged mapping keep their order and their comments |
| YamlEdit.SetFieldKeepsComments | internal/goff/yamldoc.go:82-127 | a field that is set keeps its place, its key and its comments, and every other field is untouched |
| YamlEdit.EditAllKeeps | internal/goff/yamldoc.go:82-144 | a run of edits keeps every other field, entry for entry and value for value, and all anchors |
| YamlEdit.EditAllHolds | internal/goff/yamldoc.go:82-144 | after a run of edits each field has the value its edit asked for, or is gone |
| YamlEdit.AnchoredFieldStays | internal/goff/yamldoc.go:112-114 | a field with an anchor inside stays exactly as it was, or the edit is refused |
| YamlEdit.SerializeExact | internal/goff/adapter.go:60-120 | writing an existing flag leaves every other flag's value as it was even through aliases, every field outside the edited seven, and gives the edited ones their new values |
| YamlEdit.SerializeWrites | internal/goff/adapter.go:73-117 | what is in the file afterwards, field by field: the draft's values, `disable` only in a flag that is off, and metadata as it was where the draft has none |
| YamlEdit.SerializeNeverRefused | internal/goff/adapter.go:73-117 | a flag without anchors in its fields can always be edited |
| YamlEdit.AnchoredFlagLeaks | internal/goff/adapter.go:60-120 | what follows in the document is safe from an edit exactly when the flag's mapping has no anchor or its value stays |
| YamlEdit.AnchoredFlagTurnsAlias | internal/goff/adapter.go:77-83 | a witness: turning an anchored flag on turns its alias on |
| YamlRules.CarriesUnmodelled | internal/goff/adapter.go:281-293 | a named rule that is still there carries every entry the studio does not model |
| YamlRules.CarriesExactly | internal/goff/adapter.go:173-222 | when a written rule carries the unmodelled entries of a given rule of the file, named or not |
| YamlRules.UnnamedRuleLosesUnmodelled | internal/goff/adapter.go:628-633 | a rule without a name is written with only what the studio models |
| YamlRules.AuthorsTextStaysIff | internal/goff/adapter.go:667-679 | exactly when the query text of a rule survives an edit of its flag |
| YamlRules.HandwrittenIsRewritten | internal/goff/adapter.go:667-679 | every handwritten `not (q) and (r)` or `not (q) or (r)` that is not the text of a rule of its name in the file is written as the negation of both |
| YamlRules.HandwrittenServesOthers | internal/goff/adapter.go:667-679 | a witness of such a text, for a rule of any name or none, and a user who matches one text and not the other |
| YamlRules.MixedStaysAsWritten | internal/goff/adapter.go:669-679 | a query with both joining words is advanced and stays as it is written |
| FlagReading.BodySays | internal/goff/adapter.go:173-222 | a rule that is written anew says its own settings with the effective query, and nothing where it has nothing to say |
| FlagReading.BodyReadsBack | internal/goff/adapter.go:444-463 | a written rule is read back with those settings, and one that stays as its node is read as the loaded one |
| FlagReading.LoadedIsFromFile | internal/goff/adapter.go:601-633 | the loaded rules by name are those of the nodes they are taken for |
| FlagReading.FlagReadsBack | internal/goff/adapter.go:60-120 | a flag that is written over its old self and read again is the flag that was in memory |
| FlagReading.NewFlagReadsBack | internal/goff/adapter.go:295-322 | so is a flag that is added to a file |
| FlagReading.SavedIsInFile | internal/goff/adapter.go:390-442 | the promoted flag of the drift report is the one that is read from the file |
| YamlRules.UneditedRulesStay | internal/goff/adapter.go:165-176 | of rules that come back as loaded, the last of each name is written as the very node it came from, and those without a name anew |
| YamlRules.RulesSurvive | internal/goff/adapter.go:173-222 | after writing a flag each named rule has its unmodelled fields with their values; rules with an anchor inside stay exactly as they were |
| YamlDocument.Doc.SetField | internal/goff/yamldoc.go:82-127 | the loops change the document in place as one set edit, or refuse and change nothing |
| YamlDocument.Doc.DeleteField | internal/goff/yamldoc.go:129-144 | the loops change the document in place as one delete edit, or refuse and change nothing |
| YamlDocument.Doc.Serialize | internal/goff/adapter.go:73-117 | the field-by-field edits in place succeed exactly when the specification does, with its result |
| YamlDocument.Doc.BlockOf | internal/goff/yamldoc.go:243-261 | the loops find the block of a key without its trailing blank and comment lines |
| YamlDocument.Doc.SpliceFlag | internal/goff/yamldoc.go:271-290 | the lines of one block are exchanged and all other lines kept in order |
| YamlDocument.Doc.SpliceDelete | internal/goff/yamldoc.go:354-363 | the lines of one block are taken out and all other lines kept in order |
| YamlDocument.Doc.AppendFlag | internal/goff/yamldoc.go:292-306 | a new flag goes after the last line that is not blank |
| YamlLines.BlocksApart | internal/goff/yamldoc.go:243-261 | blocks are disjoint and only blank and comment lines lie between them |
| YamlLines.EveryLineHasABlock | internal/goff/yamldoc.go:243-261 | a line that matters is before the first key or in exactly one block |
| YamlLines.MattersExactly | internal/goff/yamldoc.go:263-269 | blank lines and lines that start with a hash do not matter, all others do |
| YamlLines.SpliceIsLocal | internal/goff/yamldoc.go:271-290 | after a splice every other flag's block is as it was, and the flag's own is what was rendered |
| YamlLines.DeleteIsLocal | internal/goff/yamldoc.go:354-363 | after a deletion every other flag's block is as it was |
| YamlLines.AppendIsLocal | internal/goff/yamldoc.go:292-306 | after an addition every earlier flag's block is as it was |
| YamlText.Extent | internal/goff/yamldoc.go:591-609 | the loop finds the lines that belong to a node |
| YamlText.LastLineIs | internal/goff/yamldoc.go:591-609 | an extent holds only lines that are inside, blank or comments, ends with one inside, and goes as far as it can |
| YamlLayout.InsideExactly | internal/goff/yamldoc.go:594-609 | what belongs to a node: lines further in, and under a key also items that stand right below it |
| YamlText.SwapsApart | internal/goff/yamldoc.go:520-564 | on text in block style the collected swaps never overlap and come in the order of the text |
| YamlText.SwapsInFile | internal/goff/yamldoc.go:520-564 | what is put back comes from lines of the file |
| YamlText.UntouchedIsSwapped | internal/goff/yamldoc.go:520-564 | every untouched pair or item, at any depth where nothing above it is untouched as a whole, is swapped with the lines it has in the file |
| YamlText.SwappedIsUntouched | internal/goff/yamldoc.go:520-564 | and nothing else is |
| YamlText.SwapIsThere | internal/goff/yamldoc.go:498-503 | the lines of every swap are in the result, whole and in order |
| YamlText.KeepUntouchedText | internal/goff/yamldoc.go:494-514 | swapping from the bottom up is replacing all at once, and the result always reads back as the rendered text |
| YamlLayout.LaidInStyle | internal/goff/yamldoc.go:308-331 | tables and lists written with two spaces a level are in block style, wherever they stand, with comments between them and scalars over several lines |
| YamlLayout.SwapsCanBeMade | internal/goff/yamldoc.go:480-505 | for every rendered flag, comments included, the collected swaps are disjoint and come from the file |
| YamlLayout.KeepUntouched | internal/goff/yamldoc.go:480-514 | a rendered flag is written with the text of its untouched nodes exactly if that reads back as the rendered flag |
| Diff.LongestCommon | internal/server/diff.go:54-72 | the nested loops fill the table |
| Diff.Backtrack | internal/server/diff.go:74-85 | the script read off the table is the specified one |
| Diff.ScriptIsRight | internal/server/diff.go:54-85 | dropping the added lines gives the old text, dropping the removed ones the new text, and as many lines stay as the table says |
| Diff.NoScriptKeepsMore | internal/server/diff.go:54-72 | no script between the two texts keeps more lines than the table says |
| Diff.DiffIsMinimal | internal/server/diff.go:54-85 | no other script changes fewer lines |
| Diff.UnifiedDiff | internal/server/diff.go:8-47 | the loop shows the lines within the context of a change and counts of those left out between them |
| Diff.ShownDiffApplies | internal/server/diff.go:22-46 | a shown diff and the old text give exactly the new text, although unchanged lines are left out |
| DiffReading.ShownExactly | internal/server/diff.go:25-44 | a line is shown exactly if it changes or is within the context of a change, and the counts are those of the lines left out |
| DiffReading.DiffTextApplies | internal/server/diff.go:8-47 | whoever has the old text and the text of the diff reads the new text off it |
| Diff.EmptyDiff | internal/server/diff.go:8-17 | the diff is empty exactly when the lines are the same |
| Splits.Shares | web/src/lib/split.ts:5-17 | the loop over the sorted remainders meets the definition of largest-remainder rounding |
| Splits.RoundedOnlyOneWay | web/src/lib/split.ts:8-15 | that definition has only one answer |
| Splits.LargerWeightNeverLess | web/src/lib/split.ts:10-15 | a strictly larger weight never gets a smaller share |
| Splits.QuotasInProportion | web/src/lib/split.ts:5-7 | quotas are to the amount as weights are to their sum; without weights they are all the same |
| Splits.WithinOneOfQuota | web/src/lib/split.ts:7-15 | every share is its quota rounded down or up, and a whole quota is never rounded away from |
| Splits.SumsTo100Exactly | web/src/lib/split.ts:19-21 | whole shares count as one hundred only if they are |
| Splits.NormalizeSplit | web/src/lib/split.ts:23-26 | a split that totals one hundred is left alone, any other is rounded in proportion, and the result is again normal |
| Splits.SetShare | web/src/lib/split.ts:28-34 | one share is set to the nearest whole number within a hundred and the others share the rest in proportion to the split as it is shown; the shares are whole, not negative and total one hundred |
| Promotion.CompareVariations | internal/server/compare.go:157-172 | the loops compare names and values in any order |
| Promotion.SameAsThemselves | internal/server/compare.go:157-172 | variations count as the same as themselves exactly when no name has two values |
| Promotion.SameInAnyOrder | internal/server/compare.go:157-172 | variations with distinct names count as the same exactly if they are the same in some order |
| Promotion.NoDriftMeans | internal/server/compare.go:137-155 | nothing is in the report exactly if the target is the source but for key, order of variations and the studio's own metadata |
| Promotion.ReachedIsLinear | internal/server/promote.go:193-208 | between its dates a ramp has gone as much of its way as of its time |
| Promotion.ReachedIsMonotone | internal/server/promote.go:193-208 | a ramp is always between its two percentages and only ever moves towards its end |
| Promotion.FrozenTotals | internal/server/promote.go:182-191 | a frozen ramp serves the ramp's variations at any time; the shares of two different ones total one hundred, that of a single one exactly when the dates and percentages say that everybody is served |
| Promotion.OneVariationFallsShort | internal/server/promote.go:184-186 | a witness: a ramp of one variation, half way, is frozen to fifty |
| Promotion.FreezeRules | internal/server/promote.go:166-180 | the loop freezes every ramp and leaves the other rules alone |
| Promotion.MergeMetadata | internal/server/promote.go:210-227 | the source's keys, but the target's own for those the studio keeps about a flag |
| Promotion.MergedStrips | internal/server/promote.go:210-227 | merged metadata counts as the source's, keeps the target's own keys, and merging again changes nothing |
| Promotion.MergedExactly | internal/server/promote.go:210-227 | which of the two flags each key of promoted metadata comes from |
| Promotion.UnselectedStay | internal/server/promote.go:135-164 | a promotion in memory leaves the key and every field that is not selected alone |
| Promotion.PromotedRulesAre | internal/server/promote.go:166-180 | promoted rules are the source's one by one, but for ramps |
| Promotion.Draft.Promote | internal/server/promote.go:135-164 | the mutator changes exactly the selected fields in place |
| Promotion.PromotingTwice | internal/server/promote.go:135-164 | in memory, promoting two selections is promoting both at once, in any order |
| Promotion.MutatorClearsDrift | internal/server/promote.go:135-164 | in memory the selected fields stop differing, except rules with a ramp and ambiguous variations, and the others differ as before |
| PromotedDrift.RuleBackIsSame | internal/goff/adapter.go:173-222 | exactly when a rule is the same after it was written and loaded again |
| PromotedDrift.OwnNameComesBack | internal/goff/adapter.go:635-658 | a rule with a name of its own is the same after an edit of something else |
| PromotedDrift.PromotionClearsDrift | internal/server/compare.go:137-155 | what the drift report says once a promotion is saved: selected fields are gone, the rules exactly if the source has no ramp and all of them come back as they are; other fields are in it as before, and rules that were not in it stay out of it exactly if the target's own come back as they are |
| PromotedDrift.UnselectedRulesDrift | internal/goff/adapter.go:669-679 | two flags that agree in an unnamed rule with an unprinted text: promoting the enabled state alone brings the rules into the report |
| PromotedDrift.SavedAgain | internal/server/promote.go:135-164 | saving the same promotion again changes nothing but the stamp, exactly if every rule is written twice alike in the company of the last rule of its name |
| PromotedDrift.OwnNamesSettle | internal/goff/adapter.go:635-679 | so it does if the source's named rules have names of their own |
| PromotedDrift.SharedNameChangesAgain | internal/goff/adapter.go:635-658 | a witness of two rules of one name, the first of which is replaced by the second when the promotion is saved again |
| PromotedDrift.SavedAgainWithoutRules | internal/goff/adapter.go:173-222 | without the rules selected, a second save leaves them alone exactly if all rules that the first one wrote come back as they are |
| PromotedDrift.HandwrittenRuleStays | internal/goff/adapter.go:669-679 | a promoted rule with an unprinted text stays in the report after one promotion and after two |
| PromotedDrift.GoldTier | internal/goff/condition.go:97-99 | a witness of such a text, `tier eq "gold"` |
| PromotedDrift.ZeroShareIsKept | internal/goff/adapter.go:646-656 | a witness of rules that differ in a zero share, which a promotion does not write |
| Promotion.CheckPromotable | internal/server/promote.go:229-274 | reports exactly the variations that would be missing, none of which the target has |
| Promotion.PromotableAnyTime | internal/server/promote.go:229-274 | the check does not depend on the time, so it holds for the later copy |
| Promotion.PromotionStaysClosed | internal/server/promote.go:229-274 | in memory, after a checked promotion the target serves only variations it has, exactly if none of its own settings served one that was replaced |
| PromotedDrift.SavedStaysClosed | internal/server/promote.go:229-274 | the same of the flag as it is saved: its default, its rules, and the rules of its own that stand in the file for promoted ones must serve none that was replaced |
| PromotedDrift.KeptRuleStrands | internal/goff/adapter.go:635-658 | a witness: rules and variations promoted together, nothing amiss in memory, and the rule in the file serves a variation that is gone |
| Promotion.VariationsAloneCanStrand | internal/server/promote.go:235-238 | a witness: promoting the variations alone leaves a default serving one that is gone |
| Attribution.Base64RoundTrip | backends/s3/attribution.go:125-130 | decoding Base64 gives the bytes that were encoded |
| Attribution.ValueRoundTrip | backends/s3/attribution.go:125-155 | a stored value reads back as it was, byte for byte |
| Attribution.StoredAsItIs | backends/s3/attribution.go:125-143 | which values are stored as they are |
| Attribution.StoredShape | backends/s3/attribution.go:20-24 | a stored value is printable ASCII, and its size is bounded |
| Attribution.TruncateBytes | backends/s3/attribution.go:110-123 | the longest valid start that fits |
| Attribution.FitMessage | backends/s3/attribution.go:80-101 | what is stored fits, and reads back as the message or as its start and three dots; a message is only cut if it does not fit, and then no further than it must, rune by rune |
| Attribution.AttributionMetadata | backends/s3/attribution.go:49-78 | whatever the identity and the message, keys and values together fit in 2048 bytes, and every field reads back in whole or in part |

## Left out

- EditorPrinter.RowAgreesIff: is told for texts without U+0085 and U+FEFF, as are the members that follow from it.
- EditorPrinter.PrintersAgree: is told for operators the server's table names, in lower case, children that are not
  null, and texts without U+0085 and U+FEFF, which only one of the two languages takes for white space.
- Meaning.ReadsTrueIffPrintable: speaks of a query together with all its parts; a query with a part that reads wrongly
  could still, as a whole, say the same about every user.
- WriteProtocol.NoUpdateIsLost: a version is taken to determine the content; hash collisions and servers that reuse a
  version for other contents are not modelled.
- WriteProtocol.RequestsWriteOnce: answers arrive. A write that lands while its answer is lost, so that the request ends
  with an error although the log has its state, is not modelled.
- WriteLoops.Commit: a number of attempts of nought or less, for which the source takes three, is not modelled.
- Snapshots.LookupIsLastRemembered: reading a file and remembering its flags is one step; the source reads first and
  remembers later, under a lock of its own.
- Snapshots.SaveLandsOnUnchangedFlag: flags in the snapshots are values. The preview of a change runs mutators that
  write into rule slices shared with the snapshots (internal/server/service.go:1197-1198,
  internal/server/server.go:679-700); that sharing is not modelled.
- YamlEdit.SerializeExact: covers flags whose own mapping has no anchor; for the others `YamlEdit.AnchoredFlagLeaks`
  says exactly what is lost. Merge keys (`<<`) are not modelled.
- YamlDocument.Doc.DeleteField: is told for flags that are mappings; of a flag that is a sequence the source would take
  the items for pairs. `Serialize` never gets there.
- YamlText.SwapsApart: asks for rendered text laid out in block style, each node ending before its next sibling.
- YamlLayout.SwapsCanBeMade: comments above the first field of an item stand above its dash, and a flow node counts as a
  scalar. Columns are counted in characters.
- Flags.SameFlagStateIsSameView: a description that is null and one that is missing are told apart here, while the
  source takes them for the same. Two descriptions that are lists or tables, whose comparison fails at run time, are
  compared.
- Queries.NestBody: is told for plain attributes, as are Queries.StripPrinted and RoundTrip.ParsePrinted. An attribute
  is printed as it is, so with white space, quotes, brackets or parentheses in it the text can be anything.
- YamlRules.UneditedRulesStay: of several rules with one name it speaks of the last; `YamlRules.CarriesExactly` says
  what the others carry.
- Attribution.ValueRoundTrip: reads a value that is one encoded word; headers made of several words, or of words and
  other text, which the studio never writes, read as they stand.
- Attribution.FitMessage: the UTF-8 package is a parameter; all that is used of it is that the last rune of a text has
  at least one byte and no more than the text.
- FlagReading.FlagReadsBack: is told for flags whose mapping has distinct keys. Metadata that a flag in memory has none
  of stays in the file as it was.
- PromotedDrift.SavedStaysClosed: as in all of this module, values of variations and metadata, experimentations and
  percentages are taken to be read back as they were written; a number that the encoder writes in another form, such as
  1.0 as 1, would come back with another type.
- PromotedDrift.PromotionClearsDrift: the report says nothing here of such numbers. An absent list or map and an empty
  one are the same. Loaded flags, which alone reach the report, never have an absent rule list. A query on which the
  parser never ends keeps its flag from being loaded; here it counts as one without a condition.
- Splits.SetShare: works on reals; names that read as integers, which JavaScript puts first, and rounding in floating
  point are left out.
- Numbers: percentages and ramps are reals, dates are reals or unreadable, and the encoding of numbers in YAML is a
  parameter.
- Characters: the tables of letters and digits beyond ASCII, the numerals `ParseFloat` accepts and the ones the browser
  accepts are parameters; lower-casing is exact wherever its result is ASCII.
- The YAML lexer and encoder, and with them parsing, `renderFlag`, foot comments and key quoting: documents are trees
  with top-level keys on known lines. How single values are encoded is a parameter of `FlagReading.dfy`, which asks that
  decoding undoes it.
- The write loops of the S3, GCS and Azure backends: the same protocol as the one modelled.
- The plain file store, which writes without a version condition: the chain property does not hold of it.
- HTTP, sign-in, permissions, configuration, caches of environments and teams, summaries, paging of the history and the
  reordering of rules.
- The validator and evaluator of GO Feature Flag, the engine that runs queries, and the web interface.
