# Tag aliases: a Dafny model

This project models the tag-alias engine of the image board (`TagAlias` in
`app/models/tag_alias.rb`). A tag alias `a -> c` says that tag `a` is to be
replaced by tag `c` everywhere. The model has three parts.

- Query rewriting, on values (modules `Text` and `AliasQuery`).
  - `to_aliased_with_originals` and `to_aliased` send tag names through the active aliases.
  - `to_aliased_query` rewrites a multi-line tag query. It strips category prefixes, down-cases, splits into lines and tokens, keeps `-` negations, drops bare `-` tokens, looks every name up with caller overrides first, and removes duplicate lines.
- The relation graph (module `TagGraph`).
  - Alias and implication records carry a status.
  - The validations an alias is saved under, including `absence_of_transitive_relation`.
  - The `list_transitives` preview.
  - What `move_aliases_and_implications` does to the two tables.
- The lifecycle of an alias request over an in-memory database value (modules `Database`, `Lifecycle` and `Requests`).
  - The database holds tags, posts, locked tags, blacklists, followers, artists and undo records.
  - The requests are `approve!`, `process!` (with its retries), `reject!`, `undo!` and `process_undo!`, with every side step they run.
  - Anything that can raise outside the model is an injected fault. Forum updates, queued jobs and sleeps are events appended to a log.

Module `Engine` is the imperative side. A `Store` class holds the tables as
fields. A `TagAlias` class holds the alias id and the memo fields of
`list_transitives` and `has_transitives`. Each Ruby method that loops over
records and updates them in place is a method with a `while` loop over a
worklist. Each is proved to leave the store exactly as the value-level
definitions say. The properties are proved about those definitions.

Some behaviours of the code worth noting:

- `approve!` uses `update`, not `update!`. An alias that fails validation stays as it was, raises nothing, and the job and the undo record are still created.
- `reject!` and `process_undo!` set their status from any state. Neither checks the current status.
- `process!` does not check that the alias is queued.
- An undo with no unapplied undo record does not fail. It re-tags no post.
- Every `approve!` adds a new undo record. So an alias can have more than one unapplied record.

## Model

In the rows below, "`a` is merged into `c`" is `Lifecycle.Merged`: the
alias is active with `c`'s post count, no post or follower is left on `a`,
`a` counts 0 posts and `c` its exact count, and, when every consequent of
the starting alias table is a tag name, no locked tag or blacklist names
`a`.

| member | source | states |
|---|---|---|
| Text.LowerStr | app/models/tag_alias.rb:93 | `downcase` keeps the length and folds every character through ASCII `Lower` |
| Text.LowerStrIsLowerCase | app/models/tag_alias.rb:93 | a down-cased text is a fixed point of `Lower` at every position |
| Text.Words | app/models/tag_alias.rb:96 | `split` yields only non-empty words without whitespace |
| Text.WordsOfJoin | app/models/tag_alias.rb:111 | splitting words re-joined with single spaces gives back the same words (round trip of `join(" ")` and `split`) |
| Text.WordsOfLines | app/models/tag_alias.rb:113 | the words of newline-joined lines are the words of each line, in order |
| Text.WordsLowerCase | app/models/tag_alias.rb:96 | every word of a down-cased text is down-cased |
| Text.SplitLines | app/models/tag_alias.rb:93 | `split("\n")` yields lines without newlines, and never a trailing empty line |
| Text.SplitLinesOfJoin | app/models/tag_alias.rb:113 | splitting newline-joined lines (no newline inside, last one non-empty) gives back the lines |
| Text.FieldsOfJoin | app/models/tag_alias.rb:93 | cutting at every newline inverts joining with newlines |
| Text.SplitLinesLowerCase | app/models/tag_alias.rb:93 | every line of a down-cased text is down-cased |
| Text.Uniq | app/models/tag_alias.rb:113 | `uniq` keeps exactly the elements of its input, with no duplicates |
| Text.UniqOrder | app/models/tag_alias.rb:113 | `uniq` keeps the elements in the order of their first occurrence |
| Text.UniqOfDistinct | app/models/tag_alias.rb:113 | `uniq` of a sequence without duplicates is that sequence |
| Text.Filter | app/models/tag_alias.rb:107 | `reject`/`compact_blank` keeps exactly the elements the test accepts and never lengthens |
| Text.FilterAppend | app/models/tag_alias.rb:107 | filtering a concatenation concatenates the filtered parts, so the kept elements stay in order |
| Text.FilterOne | app/models/tag_alias.rb:107 | one element is kept, once, exactly when the test accepts it |
| Text.WordOccurs | app/models/tag_alias.rb:96 | every word `split` yields stands in the text at some position |
| AliasQuery.ToAliasedWithOriginals | app/models/tag_alias.rb:77-82 | no names give the empty hash; the keys are exactly the names; each maps to its active alias's consequent, or to itself |
| AliasQuery.ToAliasedSpec | app/models/tag_alias.rb:84-86 | `to_aliased` has one value per distinct name, in first-occurrence order, each the name's alias target, and every name's target is among them |
| AliasQuery.LongestCategoryAtSpec | app/models/tag_alias.rb:90 | the regex alternation (longest category first) fails exactly when no category stands there; otherwise it picks a category that stands there and is as long as any other that does |
| AliasQuery.Strip | app/models/tag_alias.rb:90-92 | a `gsub!` pass never lengthens the text |
| AliasQuery.CategoryAtToken | app/models/tag_alias.rb:90 | inside a whitespace-free token, the regex's category match is the token's category prefix |
| AliasQuery.LongestInToken | app/models/tag_alias.rb:90 | inside a token, the alternation matches exactly when a category prefixes it, and picks that category's length |
| AliasQuery.StripTokenNegated | app/models/tag_alias.rb:90 | `-cat:x` is stripped to `-x` |
| AliasQuery.StripTokenPlain | app/models/tag_alias.rb:90 | `cat:x` is stripped to `x` |
| AliasQuery.StripTokenDashOnly | app/models/tag_alias.rb:90 | a negated token without a category is left alone |
| AliasQuery.StripBeforeToken | app/models/tag_alias.rb:90 | at a line start or after a space, the newline-syntax pass strips a token exactly as the one-token reference definition does, then goes on |
| AliasQuery.StripLine | app/models/tag_alias.rb:90 | on a line of single-space-separated tokens, the newline-syntax pass strips every token separately |
| AliasQuery.StripCommaWithoutComma | app/models/tag_alias.rb:92 | the comma-syntax pass changes nothing in a text without `, ` |
| AliasQuery.StripCategoriesOfCommaFreeLine | app/models/tag_alias.rb:90-92 | both passes together strip every token of a comma-free line separately (`-artist:foo general:bar` becomes `-foo bar`) |
| AliasQuery.CommaIgnoresBol | app/models/tag_alias.rb:92 | the comma-syntax pattern matches the same at a line start as elsewhere |
| AliasQuery.CommaPassesWord | app/models/tag_alias.rb:92 | the comma-syntax pass copies a space-free word followed by no space unchanged |
| AliasQuery.CommaScanSpaced | app/models/tag_alias.rb:92 | standing at the space before a run of tokens, the comma-syntax pass strips them as `CommaStripTokens` says, starting with no comma before |
| AliasQuery.CommaScan | app/models/tag_alias.rb:92 | standing at a token's last character `y`, the pass strips the following tokens as `CommaStripTokens` says, starting with a comma before exactly when `y` is `,` |
| AliasQuery.CommaScanCut | app/models/tag_alias.rb:92 | after `, ` a token with a category prefix loses that prefix (its dash kept), and the scan goes on with or without a usable comma depending on whether the match took the token's last character |
| AliasQuery.CommaStripLine | app/models/tag_alias.rb:92 | on a line of single-space-separated tokens, the comma-syntax pass strips exactly the tokens that follow a token ending in a comma the scan can still match at |
| AliasQuery.StripCategoriesOfLine | app/models/tag_alias.rb:90-92 | on any line of single-space-separated tokens, both passes strip every token once, then once more each token following a token that ends in a usable comma |
| AliasQuery.StripCategoriesTwice | app/models/tag_alias.rb:90-92 | `foo, artist:artist:bar` becomes `foo, bar`: the comma pass strips a second category the newline pass left |
| AliasQuery.StripTokenSuffix | app/models/tag_alias.rb:90 | stripping only removes characters from a token |
| AliasQuery.ToAliasedQuery | app/models/tag_alias.rb:88-114 | the statement-by-statement method computes the value-level `AliasedQuery` |
| AliasQuery.AliasedQueryLines | app/models/tag_alias.rb:113 | when no rewritten line is empty or holds a newline, splitting the result gives back each rewritten line exactly once, no others, in the order of first occurrence |
| AliasQuery.CollectNames | app/models/tag_alias.rb:94-103 | the collecting loop yields the name of every token of every line, line by line |
| AliasQuery.AppendNames | app/models/tag_alias.rb:100-102 | the inner loop appends the names of one line's tokens |
| AliasQuery.RewriteLines | app/models/tag_alias.rb:106-112 | the rewriting loop rebuilds every line |
| AliasQuery.QueryTableLookup | app/models/tag_alias.rb:104-105 | the merged hash holds the collected names and the overrides, and sends every collected name to its override, else its active consequent, else itself |
| AliasQuery.RewriteKeptToken | app/models/tag_alias.rb:111 | each kept token is rewritten through the merged hash, into one non-empty word |
| AliasQuery.RewriteLineIsJoin | app/models/tag_alias.rb:107-111 | the words of a rewritten line are its kept tokens' rewrites, in order |
| AliasQuery.RewriteLineWords | app/models/tag_alias.rb:107-111 | a word is in a rewritten line exactly when it is the rewrite of a token of that line other than a bare `-` |
| AliasQuery.AliasedQueryWords | app/models/tag_alias.rb:88-114 | every output word is the rewrite of a non-`-` query token, and every such token's rewrite is in the output |
| AliasQuery.RewrittenName | app/models/tag_alias.rb:108-111 | a rewritten token keeps its negation, and its name is what the token's name resolves to |
| AliasQuery.ResolveAvoids | app/models/tag_alias.rb:104-105 | when `a` is aliased or overridden and nothing leads to it, no name resolves to `a` |
| AliasQuery.NoAntecedentLeft | app/models/tag_alias.rb:104-111 | once `a` is aliased and nothing leads back to it, no token of the rewritten query names `a` |
| AliasQuery.OverrideApplied | app/models/tag_alias.rb:105 | an override wins over the active aliases: every token naming an overridden tag comes out as the override's target, with its `-` kept |
| AliasQuery.QueryTokensLowerCase | app/models/tag_alias.rb:93 | every token the query is cut into is down-cased |
| AliasQuery.AliasedQueryLowerCase | app/models/tag_alias.rb:93 | with down-cased alias targets and overrides, every word of the rewritten query is down-cased |
| TagGraph.AbsenceOfTransitiveRelation | app/models/tag_alias.rb:208-214 | a non-deleted alias gets the transitive-relation error exactly when an active-scope alias starts at its consequent |
| TagGraph.SelfReferenceExactly | app/models/tag_alias.rb:221 | a save fails with "Cannot alias a tag to itself" exactly when the alias is a self-loop |
| TagGraph.SaveKeepsUnique | app/models/tag_alias.rb:9 | saving a record that passes validation (or leaves the `duplicate_relevant` scope) keeps antecedents unique in that scope |
| TagGraph.ActiveTableSpec | app/models/tag_alias.rb:80 | the alias hash maps the antecedent of every active-scope alias to its consequent, and holds nothing else |
| TagGraph.AliasPreviewStep | app/models/tag_alias.rb:43-46 | appending one more alias ending at `a` keeps the partial preview exact |
| TagGraph.AliasPreviewDone | app/models/tag_alias.rb:43-46 | once every alias ending at `a` is appended, the alias half of the preview is complete and duplicate-free |
| TagGraph.ImplicationEntryOf | app/models/tag_alias.rb:50-54 | an implication's entry is an implication entry for that record |
| TagGraph.ImplicationPreviewStep | app/models/tag_alias.rb:48-55 | appending one more implication touching `a` keeps the partial preview exact |
| TagGraph.ImplicationPreviewDone | app/models/tag_alias.rb:48-55 | once every implication touching `a` is appended, the implication half is complete and duplicate-free |
| TagGraph.PreviewJoin | app/models/tag_alias.rb:40-58 | the aliases followed by the implications form a complete preview with each record once and the aliases first |
| TagGraph.TransitiveListEmpty | app/models/tag_alias.rb:60-62 | a complete preview is empty exactly when no in-scope alias ends at `a` and no in-scope implication starts or ends at `a` |
| TagGraph.MovedAliasesSpec | app/models/tag_alias.rb:216-224 | aliases not ending at `a` are untouched; one ending at `a` is destroyed exactly when it starts at `c`; no self-loop is created; when every save passes, none ends at `a` and each re-pointed one ends at `c` |
| TagGraph.MovedAliasesIdempotent | app/models/tag_alias.rb:216-224 | moving the aliases a second time changes nothing |
| TagGraph.MovedImplicationsSpec | app/models/tag_alias.rb:226-242 | afterwards no implication starts or ends at `a`; exactly those that would become `c -> c` are destroyed; the others have each `a` endpoint replaced by `c`; no self-loop is created |
| TagGraph.PreviewMatchesMove | app/models/tag_alias.rb:45-53 | each preview entry names the endpoints the move gives that record |
| Database.SaveIfValidKeepsUnique | app/models/tag_alias.rb:9 | `update`, which writes only a valid row, keeps antecedents unique |
| Database.CategoryConsistencyRule | app/models/tag_alias.rb:245-252 | the consequent's category changes exactly when it is small enough, unlocked and general and the antecedent is not general, and then it becomes the antecedent's |
| Database.FixedQueriesDropAntecedent | app/models/tag_alias.rb:254-270 | every blacklist or locked-tag text mentioning `a` is rewritten so that no token names `a`; the others are left as they were |
| Database.NamedOccurs | app/models/tag_alias.rb:256-265 | a text with a word naming `a`, negated or not, contains `a`, so `where_ilike("*a*")` selects it |
| Database.FixedQueriesFreeOf | app/models/tag_alias.rb:254-270 | when the active aliases send `a` to a tag name and every other name to a tag name other than `a`, no text has a word naming `a` afterwards |
| Database.MovedTagNames | app/models/tag_alias.rb:217-224 | re-pointing aliases at a tag name keeps every consequent a tag name |
| Database.SavedTagNames | app/models/tag_alias.rb:179 | saving a row with the same consequent keeps every consequent a tag name |
| Database.ActiveTableAvoids | app/models/tag_alias.rb:254-270 | when no active alias ends at `a`, the table the texts are rewritten against sends every name to a tag name other than `a` |
| Database.FixedQueriesRestoreAntecedent | app/models/tag_alias.rb:132-148 | with the override `c -> a`, every text mentioning `c` names `a` wherever it named `c`; the others are left as they were |
| Database.RetagRoundTrip | app/models/tag_alias.rb:156 | the undo diff `-c a` reverses the forward re-tag of a post that had `a` and not `c` |
| Database.RetaggedPostsSpec | app/models/tag_alias.rb:184 | after the forward re-tag no post has `a`; a post has `c` exactly when it had `a` or `c`; other tags are untouched |
| Database.FollowersMovedSpec | app/models/tag_alias.rb:290-296 | no follower is left on `a`; followers of `a` or `c` end on `c`; others are untouched; `c`'s count is its new follower count and `a`'s is 0 |
| Database.FollowerCountAfterMove | app/models/tag_alias.rb:294 | `c`'s new follower count is the sum of the old counts of `a` and `c` |
| Database.RenameArtistRoundTrip | app/models/tag_alias.rb:168-172 | when the rename happened, undoing it gives every artist its old name back |
| Database.UndoPostIdsAdded | app/models/tag_alias.rb:272-282 | a new unapplied undo record adds exactly its post ids to those the next undo gives back |
| Database.PostsUndoneSpec | app/models/tag_alias.rb:150-166 | only posts listed in unapplied undo records of this alias are re-tagged, each with `-c a`; both post counts are then exact |
| Database.MarkApplied | app/models/tag_alias.rb:129 | marking keeps every undo record |
| Database.MarkAppliedSpec | app/models/tag_alias.rb:129 | afterwards the alias has no unapplied record; its records are flagged applied and other aliases' records are untouched |
| Database.SortedIds | app/models/tag_alias.rb:276-278 | `find_each` collects each tagged post's id once, in increasing order |
| Database.NextUndoId | app/models/tag_alias.rb:279 | the new undo record's id is unused and exceeds every existing one |
| Lifecycle.MoveKeepsReady | app/models/tag_alias.rb:180 | the move keeps the alias `a -> c` itself, keeps antecedents unique, and keeps a valid alias valid |
| TagGraph.MovedConsequents | app/models/tag_alias.rb:217-224 | the move keeps only rows that were there, each ending where it ended or at `c` |
| TagGraph.MovedLeavesNoneAt | app/models/tag_alias.rb:217-224 | when no active alias starts at `c`, no active alias ends at `a` after the move |
| Lifecycle.StepKeepsReady | app/models/tag_alias.rb:180-191 | no statement of an attempt loses the alias row or either tag |
| Lifecycle.StepLog | app/models/tag_alias.rb:187 | only the forum update writes to the log, and only when asked to |
| Lifecycle.PrevNotLast | app/models/tag_alias.rb:190-191 | the recount is the last statement: none runs after it |
| Lifecycle.BeforeNext | app/models/tag_alias.rb:180-191 | the state before a statement is the state before its predecessor, with the predecessor run |
| Lifecycle.BeforeForumReport | app/models/tag_alias.rb:187 | an interrupted attempt has reported approval exactly when it got past the forum update |
| Lifecycle.BeforeAliases | app/models/tag_alias.rb:180 | an interrupted attempt has moved the aliases exactly when it got past the move |
| Lifecycle.BeforePosts | app/models/tag_alias.rb:184 | an interrupted attempt has re-tagged the posts exactly when it got past `update_posts` |
| Lifecycle.BeforeFollowers | app/models/tag_alias.rb:185 | an interrupted attempt has moved the followers exactly when it got past `update_followers` |
| Lifecycle.StepLockedTags | app/models/tag_alias.rb:180-191 | only `update_posts_locked_tags` writes the locked tags |
| Lifecycle.StepBlacklists | app/models/tag_alias.rb:180-191 | only `update_blacklists` writes the blacklists |
| Lifecycle.StepRewrites | app/models/tag_alias.rb:182-183 | those two statements rewrite their texts against the active aliases as they stand |
| Lifecycle.QueriesUntouched | app/models/tag_alias.rb:180-183 | before their rewrite the locked tags and blacklists are as the attempt found them |
| Lifecycle.BeforeStep | app/models/tag_alias.rb:180-191 | the state before a statement is its predecessor run on the state before that |
| Lifecycle.LockedTagsAtRewrite | app/models/tag_alias.rb:182 | `update_posts_locked_tags` starts from the locked tags as the attempt found them |
| Lifecycle.BlacklistsAtRewrite | app/models/tag_alias.rb:183 | `update_blacklists` starts from the blacklists as the attempt found them |
| Lifecycle.AliasesAtRewrite | app/models/tag_alias.rb:180-183 | both rewrites see the moved alias table |
| Lifecycle.LockedTagsKept | app/models/tag_alias.rb:183-191 | no statement after `update_posts_locked_tags` changes the locked tags |
| Lifecycle.BlacklistsKept | app/models/tag_alias.rb:184-191 | no statement after `update_blacklists` changes the blacklists |
| Lifecycle.BeforePostCount | app/models/tag_alias.rb:188-191 | no statement before the recount changes the consequent's post count |
| Lifecycle.ResumeStep | app/models/tag_alias.rb:180-191 | a statement the fault does not interrupt runs, then the attempt goes on |
| Lifecycle.ResumeInterrupted | app/models/tag_alias.rb:193 | a fault raises with its message and keeps what was written so far |
| Lifecycle.ResumeLast | app/models/tag_alias.rb:190-191 | an uninterrupted attempt ends with both post counts recomputed |
| Lifecycle.ResumeFrom | app/models/tag_alias.rb:180-191 | resuming at any statement from the state before it gives the whole attempt's outcome |
| Lifecycle.ProceedResumes | app/models/tag_alias.rb:180-191 | the statement-by-statement run equals the attempt's outcome |
| Lifecycle.AttemptKeepsReady | app/models/tag_alias.rb:177-192 | an attempt keeps the alias row and both tags, and adds at most the approval report to the log |
| Lifecycle.ProceedKeepsReady | app/models/tag_alias.rb:180-191 | the statements after `update!` keep the alias row and both tags, and add at most the approval report |
| Lifecycle.AttemptCompleted | app/models/tag_alias.rb:177-192 | a completed attempt merges `a` into `c`: the alias is active with `c`'s post count, no post or follower is left on `a`, `a` counts 0 posts and `c` its exact count, and, when every consequent is a tag name, no locked tag or blacklist names `a` |
| Lifecycle.ProceedCompleted | app/models/tag_alias.rb:180-191 | the statements after a valid `update!` that all run merge `a` into `c` |
| Lifecycle.FinishMerged | app/models/tag_alias.rb:188-191 | a run to the end merges `a` into `c`, with the locked-tag and blacklist part when every consequent is a tag name |
| Lifecycle.FinishedAttempt | app/models/tag_alias.rb:184-191 | once past the activation, `a` is merged into `c` after the recount |
| Lifecycle.StepActivates | app/models/tag_alias.rb:188 | the activation step is `update(status: "active", post_count: ...)` |
| Lifecycle.FinishedAlias | app/models/tag_alias.rb:188 | past the activation, the alias row is active and carries `c`'s post count |
| Lifecycle.FinishedPosts | app/models/tag_alias.rb:184 | past `update_posts`, no post carries `a` |
| Lifecycle.FinishedFollowers | app/models/tag_alias.rb:185 | past `update_followers`, no follower is on `a` |
| Lifecycle.MovedTableAvoids | app/models/tag_alias.rb:179-183 | when every consequent is a tag name, after a valid `update!` and the move the antecedents stay unique, `a` is still a key of the active table, no active alias ends at `a`, and every active consequent is still a tag name |
| Lifecycle.LockedTagsRewriteFrees | app/models/tag_alias.rb:182 | when every consequent is a tag name, `update_posts_locked_tags` on the moved table leaves no locked tag naming `a` |
| Lifecycle.BlacklistsRewriteFrees | app/models/tag_alias.rb:183 | when every consequent is a tag name, `update_blacklists` on the moved table leaves no blacklist naming `a` |
| Lifecycle.LockedTagsFreed | app/models/tag_alias.rb:182 | when every consequent is a tag name, right after `update_posts_locked_tags` no locked tag names `a` |
| Lifecycle.BlacklistsFreed | app/models/tag_alias.rb:183 | when every consequent is a tag name, right after `update_blacklists` no blacklist names `a` |
| Lifecycle.FinishedLockedTags | app/models/tag_alias.rb:182-191 | when every consequent is a tag name, from `update_blacklists` on no locked tag names `a` |
| Lifecycle.FinishedBlacklists | app/models/tag_alias.rb:183-191 | when every consequent is a tag name, from `update_posts` on no blacklist names `a` |
| Lifecycle.FinishedQueries | app/models/tag_alias.rb:182-191 | when every consequent is a tag name, past the activation no locked tag and no blacklist names `a` |
| Lifecycle.RecountKeepsQueries | app/models/tag_alias.rb:190-191 | the recount writes post counts only, so when every consequent of the starting table is a tag name and the texts were free of `a`, they stay free of it |
| Lifecycle.AttemptWithoutFault | app/models/tag_alias.rb:179 | without faults, an attempt completes exactly when the alias validates as processing |
| Lifecycle.AttemptRefused | app/models/tag_alias.rb:179 | an invalid alias makes `update!` raise the validation message, with nothing written |
| Lifecycle.CarriedTrans | app/models/tag_alias.rb:193-198 | what attempts carry along is carried along by a sequence of them |
| Lifecycle.StepCarries | app/models/tag_alias.rb:180-189 | every statement before the recount keeps the alias's endpoints and approver, `c`'s post count and tag-name consequents |
| Lifecycle.BeforeCarried | app/models/tag_alias.rb:180-189 | so does every prefix of an attempt |
| Lifecycle.AttemptRaisedCarries | app/models/tag_alias.rb:177-193 | an attempt that raises keeps them too, whatever it wrote before the fault |
| Lifecycle.MergedCarried | app/models/tag_alias.rb:188-191 | a merge after earlier raised attempts is a merge of the state `process!` started from |
| Lifecycle.AttemptCarried | app/models/tag_alias.rb:177-193 | an attempt after earlier raised ones either raises and carries the state on, or merges `a` into `c` as `process!` found them |
| Lifecycle.Delays | app/models/tag_alias.rb:197 | the `k` delays from retry `from` on are `2**(from+1)`, `2**(from+2)`, ... |
| Lifecycle.RetryStep | app/models/tag_alias.rb:177-205 | `process!` from attempt `tries` is that attempt followed by its rescue |
| Lifecycle.Retried | app/models/tag_alias.rb:195-198 | outside the test environment, with retries left, a raised attempt sleeps `2**(tries+1)` and retries |
| Lifecycle.ProcessSleepsFrom | app/models/tag_alias.rb:193-205 | from attempt `tries` on, the sleeps are the next `k <= 5 - tries` doublings, and none in the test environment |
| Lifecycle.AttemptSleepsNot | app/models/tag_alias.rb:177-192 | an attempt neither sleeps nor reports failure |
| Lifecycle.RescueSleeps | app/models/tag_alias.rb:193-205 | the rescue adds the next `k` doublings as sleeps, and none in the test environment |
| Lifecycle.ProcessSleeps | app/models/tag_alias.rb:174-206 | `process!` sleeps 2, 4, 8, 16, 32 seconds in turn, stopping after at most five retries, and never in the test environment |
| Lifecycle.ProcessOutcomeFrom | app/models/tag_alias.rb:174-206 | from any attempt on, the alias ends active or in error, with exactly one FAILED report when it ends in error and the topic is updated |
| Lifecycle.ProcessMergesFrom | app/models/tag_alias.rb:177-205 | from any attempt on, an active end is a merge of `a` into `c` in the state `process!` started from |
| Lifecycle.RescueMerges | app/models/tag_alias.rb:193-205 | after a rescue, an active end is such a merge; the error end is not active |
| Lifecycle.RescueOutcome | app/models/tag_alias.rb:193-205 | after a rescue, the alias is active or in error, with one FAILED report exactly in the error case |
| Lifecycle.ProcessOutcome | app/models/tag_alias.rb:174-206 | `process!` leaves the alias active or `"error: ..."`, reporting FAILED exactly once in the error case when the topic is updated; when active, `a` is merged into `c` (the alias carries `c`'s post count, no post or follower is left on `a`, both counts are exact, and, when every consequent is a tag name, no locked tag or blacklist names `a`) |
| Lifecycle.InvalidAliasFailsFrom | app/models/tag_alias.rb:179 | an invalid alias ends in error with the validation message, and nothing else but the log changes |
| Lifecycle.RefusedRescue | app/models/tag_alias.rb:193-205 | the rescue of a validation failure ends in error with that message, and nothing else but the log changes |
| Lifecycle.RetryRefused | app/models/tag_alias.rb:195-198 | a retry after a refused attempt starts from the same rows, so it is refused again with the same message |
| Lifecycle.GaveUp | app/models/tag_alias.rb:201-204 | with no retry left, or in the test environment, the alias status becomes the error and no other row changes |
| Lifecycle.ActivatedSaved | app/models/tag_alias.rb:188 | re-validating the alias as active passes when it passed as processing, so the save takes effect |
| Lifecycle.ValidAliasFirstAttempt | app/models/tag_alias.rb:174-206 | without faults, a valid alias is processed by its first attempt and ends active |
| Requests.ApproveSpec | app/models/tag_alias.rb:13-19 | the row becomes queued with its approver exactly when it validates; a new unapplied undo record lists, in increasing order, exactly the posts carrying the antecedent; the job is queued; nothing else changes |
| Requests.ApproveCapturesTagged | app/models/tag_alias.rb:16 | approval adds exactly the posts carrying the antecedent to those an undo gives back |
| Requests.ApproveKeepsUnique | app/models/tag_alias.rb:15 | approval keeps antecedents unique |
| Requests.RejectSpec | app/models/tag_alias.rb:298-301 | the row becomes deleted exactly when it is not a self-loop (or already deleted); no other row changes |
| Requests.RejectReports | app/models/tag_alias.rb:300 | the forum hears of the rejection exactly when asked to; only the alias rows and the log change |
| Requests.RejectKeepsUnique | app/models/tag_alias.rb:299 | rejection keeps antecedents unique |
| Requests.UndoRequest | app/models/tag_alias.rb:21-25 | `undo!` only queues the undo job |
| Requests.ProcessUndoRaises | app/models/tag_alias.rb:117-119 | `process_undo!` raises exactly when the row is invalid, with the `"; "`-joined messages, and then nothing is written |
| Requests.ProcessUndoStatus | app/models/tag_alias.rb:122 | a valid row becomes pending, unless that save fails; no other row changes; antecedents stay unique |
| Requests.ProcessUndoPosts | app/models/tag_alias.rb:125-129 | only posts of unapplied undo records of this alias get `-c a`; both counts are exact; afterwards no unapplied record of the alias is left and other records are untouched |
| Requests.ProcessUndoLockedTags | app/models/tag_alias.rb:123 | locked tags mentioning `c` name `a` again wherever they named `c`; the others are untouched |
| Requests.ProcessUndoBlacklists | app/models/tag_alias.rb:124 | blacklists mentioning `c` name `a` again wherever they named `c`; the others are untouched |
| Requests.ProcessUndoReports | app/models/tag_alias.rb:127 | the UNDONE report is made exactly when asked; implications, followers and the set of tags are untouched |
| Requests.SecondUndoRetagsNothing | app/models/tag_alias.rb:129 | a second undo of the same alias re-tags no post |
| Requests.UndoRestoresRetagged | app/models/tag_alias.rb:150-166 | every post that had `a` and not `c` before processing gets its old tags back from the undo |
| Engine.WorklistStep | app/models/tag_alias.rb:218 | moving one record from the worklist to the done set keeps the two disjoint and covering all records |
| Engine.MoveStepValidates | app/models/tag_alias.rb:220-221 | against the half-moved table, a re-pointing save validates, and fails for self-reference, exactly as against the original table |
| Engine.MovedOnOneMore | app/models/tag_alias.rb:218-223 | one more alias handled: destroyed if it starts at `c`, re-pointed if valid, otherwise kept |
| Engine.AliasMoveStep | app/models/tag_alias.rb:218-223 | one loop iteration turns the half-moved table into the next one |
| Engine.AliasesMovedAll | app/models/tag_alias.rb:217-224 | with every alias ending at `a` handled, the table is `MovedAliases` |
| Engine.ImplicationMoveStep | app/models/tag_alias.rb:227-241 | one implication handled: re-pointed, or destroyed when that makes a self-loop |
| Engine.ImplicationsMovedAll | app/models/tag_alias.rb:226-242 | with every implication of a pass handled, the table is that pass's value-level result |
| Engine.OverwrittenStep | app/models/tag_alias.rb:256-258 | rewriting one more text overwrites exactly that entry |
| Engine.OverwrittenAll | app/models/tag_alias.rb:254-270 | with every matching text rewritten, the table is `FixedQueries` |
| Engine.PostsRetaggedStep | app/models/tag_alias.rb:154-158 | re-tagging one more post changes exactly that post |
| Engine.PostsRetaggedSkip | app/models/tag_alias.rb:154 | an id with no post changes nothing |
| Engine.PostsRetaggedAll | app/models/tag_alias.rb:184 | re-tagging every post carrying `a` gives `RetaggedPosts` |
| Engine.FollowersMovedStep | app/models/tag_alias.rb:291-293 | moving one follower changes exactly that row |
| Engine.FollowersMovedAll | app/models/tag_alias.rb:291-293 | with every follower of `a` moved, the table is `MovedFollowers` |
| Engine.IdsOfStep | app/models/tag_alias.rb:153 | one more undo record adds its post ids |
| Engine.IdsOfAll | app/models/tag_alias.rb:153 | the ids of all unapplied records of the alias are the ones the undo gives back |
| Engine.IncreasingUnique | app/models/tag_alias.rb:276-278 | two increasing id lists with the same elements are equal |
| Engine.SortedPostIds | app/models/tag_alias.rb:276-278 | the collecting loop yields the tagged post ids in increasing order |
| Engine.NextUndoIdUnique | app/models/tag_alias.rb:279 | an id above every used one, next to the largest, is the new record's id |
| Engine.AllocateUndoId | app/models/tag_alias.rb:279 | the loop over the undo table yields the new record's id |
| Engine.PostsUndoneIs | app/models/tag_alias.rb:150-166 | the undo's re-tagging loop result, with the recount, is `WithPostsUndone` |
| Engine.ProcessingUnobstructed | app/models/tag_alias.rb:179-180 | once the alias saved as processing, it is no self-loop and no active alias starts at its consequent |
| Engine.AliasPreview | app/models/tag_alias.rb:43-46 | the first loop lists each alias in scope ending at `a` exactly once |
| Engine.ImplicationPreview | app/models/tag_alias.rb:48-55 | the second loop lists each implication in scope touching `a` exactly once, with its new endpoints |
| Engine.TagAlias.constructor | app/models/tag_alias.rb:41 | a fresh alias object has neither memo set |
| Engine.TagAlias.ListTransitives | app/models/tag_alias.rb:40-58 | for the alias row `a -> c`: a memoised list is returned unchanged; otherwise a complete preview is computed and memoised |
| Engine.TagAlias.HasTransitives | app/models/tag_alias.rb:60-62 | for the alias row `a -> c`: a memoised true is returned; otherwise the answer is whether some alias in scope ends at `a` or some implication in scope touches it, only true is memoised, and a missing list is computed complete and memoised |
| Engine.TagAlias.MoveAliasesAndImplications | app/models/tag_alias.rb:216-243 | the three loops leave the tables as `WithMove` says |
| Engine.TagAlias.MoveAliases | app/models/tag_alias.rb:217-224 | the alias loop leaves the alias table as `MovedAliases` |
| Engine.TagAlias.RepointAlias | app/models/tag_alias.rb:219-223 | one alias is re-pointed when valid, destroyed when a self-loop, kept otherwise |
| Engine.TagAlias.RepointImplication | app/models/tag_alias.rb:228-232 | one implication is re-pointed, or destroyed when that makes a self-loop |
| Engine.TagAlias.MoveImplications | app/models/tag_alias.rb:226-242 | each implication loop leaves the table as its pass says |
| Engine.TagAlias.EnsureCategoryConsistency | app/models/tag_alias.rb:245-252 | the consequent's category is set as `ConsistentCategory` decides; nothing else changes |
| Engine.TagAlias.UpdatePostsLockedTags | app/models/tag_alias.rb:263-270 | locked tags become `FixedQueries` against the active aliases; nothing else changes |
| Engine.TagAlias.RewriteLockedTags | app/models/tag_alias.rb:265-268 | the loop over matching posts rewrites exactly the matching locked tags |
| Engine.TagAlias.UpdateBlacklists | app/models/tag_alias.rb:254-261 | blacklists become `FixedQueries` against the active aliases; nothing else changes |
| Engine.TagAlias.RewriteBlacklists | app/models/tag_alias.rb:256-259 | the loop over matching users rewrites exactly the matching blacklists |
| Engine.TagAlias.FixLockedTags | app/models/tag_alias.rb:266-267 | one post's locked tags are rewritten |
| Engine.TagAlias.FixBlacklist | app/models/tag_alias.rb:257-258 | one user's blacklist is rewritten |
| Engine.TagAlias.UpdatePosts | app/models/tag_alias.rb:184 | every post carrying `a` carries `c` instead; nothing else changes |
| Engine.TagAlias.UpdateFollowers | app/models/tag_alias.rb:290-296 | followers and both follower counts become `WithFollowersMoved` |
| Engine.TagAlias.MoveFollowers | app/models/tag_alias.rb:291-293 | the follower loop re-points every follower of `a` |
| Engine.TagAlias.RenameArtist | app/models/tag_alias.rb:284-288 | artists become `WithArtistRenamed`; nothing else changes |
| Engine.TagAlias.RenameArtistUndo | app/models/tag_alias.rb:168-172 | artists become `WithArtistRenameUndone`; nothing else changes |
| Engine.TagAlias.FixPostCounts | app/models/tag_alias.rb:190-191 | both post counts are recomputed |
| Engine.TagAlias.CreateUndoInformation | app/models/tag_alias.rb:272-282 | a new undo record with the sorted ids of the posts carrying `a` is added |
| Engine.TagAlias.UpdatePostsUndo | app/models/tag_alias.rb:150-166 | posts and counts become `WithPostsUndone` |
| Engine.TagAlias.UndoPosts | app/models/tag_alias.rb:153-159 | the record loop re-tags exactly the posts of the unapplied records |
| Engine.TagAlias.UndoRowPosts | app/models/tag_alias.rb:154-158 | the loop over one record re-tags its posts |
| Engine.TagAlias.Save | app/models/tag_alias.rb:15 | `update` writes the row only when it validates |
| Engine.TagAlias.UpdateForum | app/models/tag_alias.rb:187 | the forum update is logged exactly when asked for |
| Engine.TagAlias.Approve | app/models/tag_alias.rb:13-19 | the store becomes `Requests.Approve` of the old one |
| Engine.TagAlias.RequestUndo | app/models/tag_alias.rb:21-25 | the store becomes `UndoRequest` of the old one |
| Engine.TagAlias.Reject | app/models/tag_alias.rb:298-301 | the store becomes `Requests.Reject` of the old one |
| Engine.TagAlias.RestoreQueries | app/models/tag_alias.rb:123-124 | locked tags and blacklists are rewritten with the override `c -> a` |
| Engine.TagAlias.ProcessUndo | app/models/tag_alias.rb:116-130 | the store and the raised message are those of `Requests.ProcessUndo` |
| Engine.TagAlias.MarkFailed | app/models/tag_alias.rb:201-204 | the FAILED report, then the error status |
| Engine.TagAlias.Process | app/models/tag_alias.rb:174-206 | the retry loop leaves the store as `Lifecycle.Process` |
| Engine.TagAlias.AttemptAndRescue | app/models/tag_alias.rb:193-205 | one attempt and its rescue: either the end of `process!`, or a retry with one more try counted |
| Engine.TagAlias.Attempt | app/models/tag_alias.rb:177-192 | the store and the raised message are those of `Lifecycle.Attempt` |
| Engine.TagAlias.Proceed | app/models/tag_alias.rb:180-191 | the statements after `update!` leave the store as `Lifecycle.Proceed` |
| Engine.TagAlias.ProceedFromLockedTags | app/models/tag_alias.rb:182-191 | the attempt from `update_posts_locked_tags` on |
| Engine.TagAlias.ProceedFromBlacklists | app/models/tag_alias.rb:183-191 | the attempt from `update_blacklists` on |
| Engine.TagAlias.ProceedFromPosts | app/models/tag_alias.rb:184-191 | the attempt from `update_posts` on |
| Engine.TagAlias.ProceedFromFollowers | app/models/tag_alias.rb:185-191 | the attempt from `update_followers` on |
| Engine.TagAlias.ProceedFromArtist | app/models/tag_alias.rb:186-191 | the attempt from `rename_artist` on |
| Engine.TagAlias.ProceedFromForum | app/models/tag_alias.rb:187-191 | the attempt from the forum update on |
| Engine.TagAlias.ProceedFromActivation | app/models/tag_alias.rb:188-191 | the attempt from the activation on |
| Engine.TagAlias.ProceedFromPostCounts | app/models/tag_alias.rb:190-191 | the attempt's last two statements, the post-count fixes |

## Left out

- Forum updates (`forum_updater`) are reduced to log events. Message texts and routes are not modelled.
- `create_mod_action`, the `after_save` callback (lines 8 and 309-328), is left out: no save in the model writes a `ModAction`, including the re-pointing saves of the move.
- `TagAliasJob.perform_later` and `TagAliasUndoJob.perform_later` are log events. The jobs themselves are the `Process` and `ProcessUndo` operations.
- `CurrentUser.scoped` / `as_system`, `without_timeout` and `find_each` batching carry no behaviour here and are left out.
- `Rails.logger.error` is left out.
- `sleep(2**tries)` is a `Slept` event; no time passes.
- Anything that can raise (the database, the forum, the search index) is an injected fault before a chosen statement of a chosen attempt. Faults inside a statement, and faults in `process_undo!` after its validation, are not modelled.
- Concurrency, and the race with the indexing jobs noted at lines 162 and 189, are not modelled.
- `embedded_pattern` (line 71-73) is a regex constant with no behaviour in this core.
- `update_cached_post_counts_for_all` and `fix_nonzero_post_counts!` are raw-SQL maintenance tasks outside the alias lifecycle.
- `Post.sql_raw_tag_match` is modelled as "the post's tag set holds the antecedent".
- `where_ilike` is a case-insensitive substring test on the text. It is a pre-filter only; `to_aliased_query` decides the result.
- The database returns records in id order. The loops over unordered tables take records in an unspecified order. The model proves the result is the same whatever the order.
- `TagRelationship` is not part of this model. The `active` scope is taken as queued, processing and active; `duplicate_relevant` adds pending.
- Of TagRelationship's validations, only "Cannot alias a tag to itself" is modelled. For implications, it is the only validation assumed.
- Validations of tags, followers and artists are taken to pass, so `update!` on them never raises.
- `post.tag_string_diff` and the post save (TagRelationship's `update_posts` for the forward direction) are a set difference on the post's tags: remove one tag, add the other.
- `fix_post_count` recomputes the count exactly from the posts. Cached counts elsewhere are not modelled.
- Tag categories are two distinguished numbers (general and artist); `TagCategory.mapping` is a parameter (the category names), and so is the category-change cutoff.
- Artists are a map from id to name; an artist is "present" when some artist has the tag's name.
- Database.WithArtistRenamed, Database.WithArtistRenameUndone: rename every artist with the old name, where the Ruby code renames the one artist `antecedent_tag.artist` (or `consequent_tag.artist`) finds (lines 168-172 and 284-288). Artist names are taken to be unique, and then the two agree.
- `downcase`, the case-insensitive category-prefix match of `to_aliased_query` (Text.EqualIgnoringCase, used by AliasQuery.LongestCategoryAt, lines 90 and 92) and `where_ilike` (Text.ContainsIgnoringCase) fold only ASCII letters. Ruby's `/i` also folds other Unicode case pairs, and ILIKE follows the database collation.
- AliasQuery.LongestCategoryAt: with an empty category list it finds no category, so nothing is stripped. The Ruby regex built from an empty `TagCategory.mapping` has an empty alternative and would strip a `:` that starts a token; the category list is taken to be non-empty, as it is in the application.
- Undo record ids are allocated one above the largest id in use; Engine.AllocateUndoId finds it by a scan of the undo table, standing in for the database sequence.
- Lifecycle.Attempt, Engine.TagAlias.Process: require the alias row to exist with `a -> c` and both tags to exist. Without them the Ruby code raises `NoMethodError` on a missing tag, which is not modelled.
- Requests.ProcessUndo, Engine.TagAlias.ProcessUndo: require the alias row and both its tags to exist (`HasEndpoints`), for the same reason.
- Lifecycle.Attempt, Engine.TagAlias.Process, Requests.ProcessUndo, Engine.TagAlias.ProcessUndo: also require antecedents to be unique among the aliases validation looks at (`UniqueAntecedents`, part of `Ready`). The Ruby code runs without it (`to_h` keeps the last of two duplicates). It is the invariant the uniqueness validation keeps: TagGraph.SaveKeepsUnique, Requests.ApproveKeepsUnique, Requests.RejectKeepsUnique, Requests.ProcessUndoStatus and Lifecycle.AttemptKeepsReady prove every write keeps it. It is required so that the active aliases form one table.
- Lifecycle.Merged, Lifecycle.ProcessOutcome, Lifecycle.ProcessMergesFrom, Lifecycle.RescueMerges, Lifecycle.AttemptCarried, Lifecycle.AttemptCompleted, Lifecycle.ProceedCompleted, Lifecycle.FinishedAttempt, Lifecycle.FinishMerged, Lifecycle.MergedCarried, Lifecycle.MovedTableAvoids, Lifecycle.LockedTagsRewriteFrees, Lifecycle.BlacklistsRewriteFrees, Lifecycle.LockedTagsFreed, Lifecycle.BlacklistsFreed, Lifecycle.FinishedLockedTags, Lifecycle.FinishedBlacklists, Lifecycle.FinishedQueries, Lifecycle.RecountKeepsQueries: state that no locked tag or blacklist names `a` only when every alias ends at a single tag name (`TagNameConsequents`), which the tag-name rules outside this core ensure.
- Engine.TagAlias.MoveAliasesAndImplications: requires `a != c` and no active alias starting at `c`. Both hold after `update!(status: "processing")` succeeds (Engine.ProcessingUnobstructed), the only place it runs.
- Requests.ProcessUndoLockedTags, Requests.ProcessUndoBlacklists: state their result only when every consequent and the antecedent are single tag names (non-empty, no whitespace, no leading `-`), which the tag-name rules outside this core ensure.
- TagGraph.MovedAliasesSpec: states that re-pointed aliases end at `c` only when every re-pointing save passes. Otherwise a failed save leaves the alias as it was.
- Engine.TagAlias.ListTransitives: the memo is never cleared, so it goes stale when the tables change, as in the Ruby code.
- Engine.AliasPreview, Engine.ImplicationPreview: are module-level methods over the table values rather than methods of the alias object.
- Engine.TagAlias.Proceed: the statements are spread over `Proceed` and the `ProceedFrom` methods, one per statement from `update_posts_locked_tags` on.
