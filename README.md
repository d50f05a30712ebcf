# Mail insights: a verified model of the core

This project models the deterministic core of the multi-tenant mail-insights
service of the SAP BTP generative-AI reference application. The service
enriches incoming customer mails with language-model insights, drafts
responses, optionally grounded in the responses to similar mails found in a
pgvector table per tenant, and keeps the mails and their embeddings in step
while responses are submitted, revoked, regenerated and deleted.

The project has these modules:

- `JsonValues` (`json.dfy`): JavaScript values as the handlers see them. An object is a map from property names to values. An absent key is `undefined`. Spread is map union, with the right operand winning. `Truthy` is JavaScript truthiness.
- `Tenancy` (`tenancy.dfy`): routing a tenant to its vector table, and the default `tenant` parameter.
- `FixJson` (`fix_json.dfy`): the two regular-expression passes of `fixJsonString`, scanned left to right one position at a time.
- `SuggestedActions` (`actions.dfy`): the default-description enrichment of suggested actions, including the in-place `forEach` over an array.
- `AdditionalAttributes` (`attributes.dfy`): the `isIAdditionalAttributeArray` type guard, including the element for which it throws.
- `Retrieval` (`retrieval.dfy`): the SQL of `getClosestMails` as a relational query over a sequence of rows, the loop that drops incomplete rows, and the similarity joins of `onGetMail`, `onFindMails` and `getClosestResponses`.
- `InsightPipeline` (`pipeline.dfy`): `regenerateInsights`. It covers ID assignment, the three branches awaited together, the merge by mail ID, `translateInsights` with `filterForTranslation`, and the arguments its two call sites pass.
- `MailLifecycle` (`lifecycle.dfy`): the handlers that read or change the persisted state. Class `MailService` holds the Mails entity (a map from ID to record), the tenants' vector tables (a map from table name to rows) and the next row key. Its invariant `Valid` says that every mail is stored under its own `ID` and that every row key is below the next one.

Every language-model chain is a parameter of function type whose `None` result is a rejected call. `uuidv4` is a parameter `nat -> string`, indexed by how many IDs were generated before. pgvector's `<=>` distance is a parameter returning `Option<real>`, where `None` is SQL NULL.

## Model

| member | source | states |
|---|---|---|
| Tenancy.RemoveHyphens | multi-tenant/code/srv/common/handlers/common-mail-insights.ts:940 | The result contains no `-`, is never longer than the tenant, and holds only characters of the tenant. |
| Tenancy.RemoveHyphensKeepsOthers | multi-tenant/code/srv/common/handlers/common-mail-insights.ts:940 | A tenant without `-` is unchanged: only `-` is removed, no other character. |
| Tenancy.RemoveHyphensAppend | multi-tenant/code/srv/common/handlers/common-mail-insights.ts:940 | Removal distributes over concatenation: the global flag removes every occurrence, not just the first. |
| Tenancy.RemoveHyphensOfChar | multi-tenant/code/srv/common/handlers/common-mail-insights.ts:940 | A single character is dropped exactly when it is `-`. |
| Tenancy.TableName | multi-tenant/code/srv/common/handlers/common-mail-insights.ts:940 | Every table name starts with `_`. A truthy tenant gives `_` followed by the tenant without hyphens. Every falsy or undefined tenant gives `_main`. |
| Tenancy.TableNameCollision | multi-tenant/code/srv/common/handlers/common-mail-insights.ts:940 | Routing is not injective: tenants `a-b` and `ab` share one table, and tenant `main` shares the untenanted table `_main`. |
| Tenancy.WithDefaultParameter | multi-tenant/code/srv/common/handlers/common-mail-insights.ts:254-259 | The `tenant = DEFAULT_TENANT` default replaces only `undefined`. A `false` tenant passes through unchanged. |
| Tenancy.RetrievalTableAsWritten | multi-tenant/code/srv/common/handlers/common-mail-insights.ts:566-570 | The table the retrieval-augmented draft reads, after the default parameter. It agrees with the table onAddMails embeds into for every tenant except `undefined`. |
| Tenancy.RetrievalTableMismatch | multi-tenant/code/srv/common/handlers/common-mail-insights.ts:613 | With an undefined tenant, the draft reads `__main` while the mails were embedded into `_main`. |
| Tenancy.RetrievalTable | multi-tenant/code/srv/common/handlers/common-mail-insights.ts:940 | The corrected lookup reads the table that getVectorStore(tenant) embeds into, for every tenant. It agrees with the written lookup for every tenant except `undefined`, where it reads `_main` instead of `__main`. |
| FixJson.InsertSeparatorsIdentity | multi-tenant/code/srv/common/handlers/common-mail-insights.ts:954 | On text without a quote, the separator pass changes nothing. |
| FixJson.EscapeQuotedNewlinesIdentity | multi-tenant/code/srv/common/handlers/common-mail-insights.ts:955-958 | On text without a quote, the newline pass changes nothing. |
| FixJson.FixJsonStringIdentity | multi-tenant/code/srv/common/handlers/common-mail-insights.ts:950-960 | fixJsonString is the identity on text without a quote. |
| FixJson.InsertSeparatorsQuotes | multi-tenant/code/srv/common/handlers/common-mail-insights.ts:954 | The separator pass keeps the number of quote characters. |
| FixJson.EscapeNewlinesQuotes | multi-tenant/code/srv/common/handlers/common-mail-insights.ts:957 | Escaping the newlines of one quoted segment keeps its number of quotes. |
| FixJson.EscapeQuotedNewlinesQuotes | multi-tenant/code/srv/common/handlers/common-mail-insights.ts:955-958 | The newline pass keeps the number of quote characters. |
| FixJson.FixJsonStringQuotes | multi-tenant/code/srv/common/handlers/common-mail-insights.ts:950-960 | fixJsonString keeps the number of quote characters. |
| FixJson.InsertSeparatorsOnlyLayout | multi-tenant/code/srv/common/handlers/common-mail-insights.ts:954 | The separator pass changes only whitespace and commas: after both are deleted, input and output are equal. InsertSeparatorsAtMatch and InsertSeparatorsUnmatchedPrefix state which ones it changes. |
| FixJson.InsertSeparatorsAtMatch | multi-tenant/code/srv/common/handlers/common-mail-insights.ts:954 | A quote, a run of whitespace and a quote are replaced by `", "`, and the scan goes on right after the closing quote. |
| FixJson.InsertSeparatorsUnmatchedPrefix | multi-tenant/code/srv/common/handlers/common-mail-insights.ts:954 | Every character at which no match starts is copied unchanged, in order. |
| FixJson.InsertSeparatorsNoMatch | multi-tenant/code/srv/common/handlers/common-mail-insights.ts:954 | Text in which no match starts is left exactly as it is. |
| FixJson.EscapeNewlinesLength | multi-tenant/code/srv/common/handlers/common-mail-insights.ts:957 | Escaping a segment makes it longer by exactly the number of newlines the lookahead lets through. |
| FixJson.EscapeNewlinesAt | multi-tenant/code/srv/common/handlers/common-mail-insights.ts:957 | Each character of a segment keeps its place, shifted by the replacements before it. A newline not followed by a backslash and `n` becomes a backslash and `n`; every other character is copied. |
| FixJson.EscapeNewlinesSpec | multi-tenant/code/srv/common/handlers/common-mail-insights.ts:957 | The escape in full: every character is placed as above, and nothing else is inserted. |
| FixJson.EscapeQuotedNewlinesUnquotedPrefix | multi-tenant/code/srv/common/handlers/common-mail-insights.ts:955-958 | Text before the first quote is copied unchanged. |
| FixJson.EscapeNewlinesSegment | multi-tenant/code/srv/common/handlers/common-mail-insights.ts:956-957 | A quoted segment keeps its two quotes, and escaping adds no quote inside it. |
| FixJson.EscapeQuotedNewlinesAtSegment | multi-tenant/code/srv/common/handlers/common-mail-insights.ts:955-958 | Quotes pair left to right: a segment closed by the next quote is escaped inside, with its quotes kept, and the scan goes on after the closing quote. |
| FixJson.EscapeQuotedNewlinesUnclosed | multi-tenant/code/srv/common/handlers/common-mail-insights.ts:955-958 | A quote that no later quote closes starts no segment, and the text after it is left as it is. |
| FixJson.EscapeNewlinesNoBare | multi-tenant/code/srv/common/handlers/common-mail-insights.ts:957 | After the escape, every newline of a segment is followed by a backslash and `n`. |
| FixJson.EscapeNewlinesFixpoint | multi-tenant/code/srv/common/handlers/common-mail-insights.ts:957 | A segment in which every newline is already followed by a backslash and `n` is left unchanged. |
| FixJson.EscapeNewlinesIdempotent | multi-tenant/code/srv/common/handlers/common-mail-insights.ts:957 | Escaping a segment twice gives the same result as escaping it once. |
| FixJson.EscapeQuotedNewlinesIdempotent | multi-tenant/code/srv/common/handlers/common-mail-insights.ts:955-958 | The newline pass, with its left-to-right pairing of quotes, is idempotent. |
| FixJson.EmptyStringBecomesSeparator | multi-tenant/code/srv/common/handlers/common-mail-insights.ts:954 | The empty JSON string `""` counts as a missing separator and becomes `", "`. |
| SuggestedActions.FirstMatch | multi-tenant/code/srv/common/handlers/common-mail-insights.ts:65 | The position of the first catalog action whose `value` equals the given value. No earlier entry matches, and the position is the catalog length when none does. |
| SuggestedActions.DefaultDescrFirstMatch | multi-tenant/code/srv/common/handlers/common-mail-insights.ts:65 | The description is the first matching catalog action's `descr` when it is truthy, and `""` otherwise. |
| SuggestedActions.DefaultDescrNoMatch | multi-tenant/code/srv/common/handlers/common-mail-insights.ts:65 | When no catalog action matches, the description is `""`. |
| SuggestedActions.EnrichAction | multi-tenant/code/srv/common/handlers/common-mail-insights.ts:62-67 | An object action gets `descr` set and keeps every other property. A `null` action throws exactly when the catalog is non-empty. A successful result always carries `descr`. |
| SuggestedActions.EnrichItems | multi-tenant/code/srv/common/handlers/common-mail-insights.ts:121-126 | The mapped array has the same length and order as the input, and each element is its own enrichment. A throw happens only where some element throws. |
| SuggestedActions.EnrichMailSpec | multi-tenant/code/srv/common/handlers/common-mail-insights.ts:121-126 | For an array of objects, enrichment succeeds and changes only `suggestedActions`. Each element keeps its other properties and gets the catalog default for its `value`. |
| SuggestedActions.GuardedFormKeepsNull | multi-tenant/code/srv/common/handlers/common-mail-insights.ts:60-62 | With `null` actions, the guarded form keeps the mail as it is, while the unguarded form makes the actions `undefined`. |
| SuggestedActions.EnrichActionIdempotent | multi-tenant/code/srv/common/handlers/common-mail-insights.ts:62-67 | Enriching an enriched action changes nothing. |
| SuggestedActions.EnrichItemsIdempotent | multi-tenant/code/srv/common/handlers/common-mail-insights.ts:121-126 | Enriching an enriched array changes nothing. |
| SuggestedActions.EnrichMailIdempotent | multi-tenant/code/srv/common/handlers/common-mail-insights.ts:121-126 | Enriching an enriched mail changes nothing. |
| SuggestedActions.EnrichEach | multi-tenant/code/srv/common/handlers/common-mail-insights.ts:60-69 | The in-place `forEach`. On success every mail is its enrichment, guarded or not. On a throw, the mails before the first failing one are enriched and the rest are untouched. |
| AdditionalAttributes.CheckAttributeSpec | multi-tenant/code/srv/common/handlers/common-mail-insights.ts:308-313 | The callback throws exactly when the element or its `attribute` is null or undefined. Otherwise it returns whether the element is well formed. |
| AdditionalAttributes.EverySpec | multi-tenant/code/srv/common/handlers/common-mail-insights.ts:307-314 | `every` is true exactly when all elements are well formed. It throws exactly when a throwing element comes before any element that fails the test. |
| AdditionalAttributes.IsAdditionalAttributeArraySpec | multi-tenant/code/srv/common/handlers/common-mail-insights.ts:307-314 | The guard is true exactly for an array of well-formed elements and false for a non-array. It throws exactly as `every` does. |
| Retrieval.Focus | multi-tenant/code/srv/common/handlers/common-mail-insights.ts:867 | The focus rows are exactly the table's rows whose metadata `id` names the mail. |
| Retrieval.PairsWithSpec | multi-tenant/code/srv/common/handlers/common-mail-insights.ts:866-868 | A row pairs with a focus row exactly when their primary keys differ, and the pair's distance is `dist` of the two. |
| Retrieval.JoinSpec | multi-tenant/code/srv/common/handlers/common-mail-insights.ts:865-869 | A pair is in the join exactly when it is admitted: the row is in the table, it pairs with some focus row, and its metadata contains the filter. |
| Retrieval.Insert | multi-tenant/code/srv/common/handlers/common-mail-insights.ts:870 | Insertion into the ordered list adds exactly the one pair: the multiset grows by it. |
| Retrieval.InsertSorted | multi-tenant/code/srv/common/handlers/common-mail-insights.ts:870 | Insertion keeps the list in ascending distance, NULLs last. |
| Retrieval.SortByDistance | multi-tenant/code/srv/common/handlers/common-mail-insights.ts:870 | Sorting yields a permutation of its input. |
| Retrieval.SortByDistanceSorted | multi-tenant/code/srv/common/handlers/common-mail-insights.ts:870 | Sorting yields ascending distance, NULLs last. |
| Retrieval.ClosestQuerySpec | multi-tenant/code/srv/common/handlers/common-mail-insights.ts:865-871 | The statement returns min(k, join size) pairs, in ascending distance, all admitted. Every admitted pair left out is no nearer than any pair returned. |
| Retrieval.InQueryAdmitted | multi-tenant/code/srv/common/handlers/common-mail-insights.ts:865-871 | Every returned pair is admitted. |
| Retrieval.SortedPrefixNearest | multi-tenant/code/srv/common/handlers/common-mail-insights.ts:870 | In a sorted list, every pair in the first n is no farther than any pair after them. |
| Retrieval.AdmittedInShortQuery | multi-tenant/code/srv/common/handlers/common-mail-insights.ts:871 | When the join has at most k pairs, every admitted pair is returned. |
| Retrieval.Complete | multi-tenant/code/srv/common/handlers/common-mail-insights.ts:876-880 | The loop keeps no more rows than the query returned. |
| Retrieval.DropIncomplete | multi-tenant/code/srv/common/handlers/common-mail-insights.ts:874-881 | The `for` loop's pushes produce exactly the query rows whose distance and pageContent are not null, in query order. |
| Retrieval.CompleteSpec | multi-tenant/code/srv/common/handlers/common-mail-insights.ts:876 | A neighbour is kept exactly when its row was returned with that non-null distance and a non-null pageContent. |
| Retrieval.CompleteSorted | multi-tenant/code/srv/common/handlers/common-mail-insights.ts:870-881 | The kept neighbours are in ascending distance. |
| Retrieval.NeighboursSpec | multi-tenant/code/srv/common/handlers/common-mail-insights.ts:857-883 | getClosestMails returns at most k neighbours in ascending distance. Each is a row of the table with content and with metadata containing the filter, at a distance from some focus row with another key. When only one row is a focus, no focus row is returned. |
| Retrieval.GetClosestMails | multi-tenant/code/srv/common/handlers/common-mail-insights.ts:857-883 | The method returns the completed query result, with the bound, order and admission properties above. |
| Retrieval.DuplicateFocusReturnsFocusRow | multi-tenant/code/srv/common/handlers/common-mail-insights.ts:868 | When two rows carry the mail's id, each is returned as the other's neighbour: the mail is similar to itself. |
| Retrieval.FocusLength | multi-tenant/code/srv/common/handlers/common-mail-insights.ts:867 | There are no more focus rows than rows. |
| Retrieval.PairsWithLength | multi-tenant/code/srv/common/handlers/common-mail-insights.ts:868 | A row has at most one pair per focus row. |
| Retrieval.JoinLength | multi-tenant/code/srv/common/handlers/common-mail-insights.ts:865-869 | The join has at most rows times focus rows pairs. |
| Retrieval.MetadataIds | multi-tenant/code/srv/common/handlers/common-mail-insights.ts:142-147 | The `IN` list holds the metadata `id` of each neighbour, in order. |
| Retrieval.Project | multi-tenant/code/srv/common/handlers/common-mail-insights.ts:131-141 | The selected columns are exactly the record's properties among the column list, with their values unchanged. |
| Retrieval.FetchByIds | multi-tenant/code/srv/common/handlers/common-mail-insights.ts:130-148 | At most one record per listed id. Each record fetched is the projection of a stored mail whose ID is listed. |
| Retrieval.FetchByIdsComplete | multi-tenant/code/srv/common/handlers/common-mail-insights.ts:130-148 | Every stored mail whose ID is listed is fetched. |
| Retrieval.FirstWithId | multi-tenant/code/srv/common/handlers/common-mail-insights.ts:152-154 | The first neighbour whose metadata `id` equals the mail's ID. No earlier neighbour matches. |
| Retrieval.AttachSimilarity | multi-tenant/code/srv/common/handlers/common-mail-insights.ts:150-156 | Pairing succeeds exactly when every fetched mail has a neighbour with its ID. |
| Retrieval.AttachSimilaritySpec | multi-tenant/code/srv/common/handlers/common-mail-insights.ts:150-156 | There is one entry per fetched mail, in order, with similarity equal to 1 minus the distance of the first neighbour with that ID. |
| Retrieval.WithSimilarity | multi-tenant/code/srv/common/handlers/common-mail-insights.ts:129-149 | An empty retrieval gives an empty list without a record query. |
| Retrieval.WithSimilaritySpec | multi-tenant/code/srv/common/handlers/common-mail-insights.ts:128-157 | With mails stored under their own IDs, the join never throws. Every stored mail named by a neighbour appears, as its selected columns, with similarity 1 minus the distance of the first neighbour naming it. Nothing else appears. |
| Retrieval.ClosestResponsesSpec | multi-tenant/code/srv/common/handlers/common-mail-insights.ts:812-834 | At most one document per neighbour. Each document's page content is the `responseBody` of a stored mail named by a neighbour, and its metadata `id` is always undefined, because the code reads `mail.id` of a record that has `ID`. |
| InsightPipeline.All | multi-tenant/code/srv/common/handlers/common-mail-insights.ts:267-271 | `Promise.all`: every value in order when every call resolves, and a rejection when any call rejects. |
| InsightPipeline.Unassigned | multi-tenant/code/srv/common/handlers/common-mail-insights.ts:261-263 | The number of mails without a truthy ID is at most the number of mails. |
| InsightPipeline.AssignIds | multi-tenant/code/srv/common/handlers/common-mail-insights.ts:261-263 | One record per mail. |
| InsightPipeline.AssignIdsSpec | multi-tenant/code/srv/common/handlers/common-mail-insights.ts:261-263 | A mail with a truthy ID is kept as it is. A mail without one gets the next fresh ID. No other property changes. When fresh IDs are non-empty, every mail ends with a truthy ID. |
| InsightPipeline.UnassignedGrows | multi-tenant/code/srv/common/handlers/common-mail-insights.ts:261-263 | Each mail without an ID advances the fresh-ID counter. |
| InsightPipeline.AssignedIdsDistinct | multi-tenant/code/srv/common/handlers/common-mail-insights.ts:261-263 | With an injective ID source, two mails that had no ID get different IDs. |
| InsightPipeline.TagWith | multi-tenant/code/srv/common/handlers/common-mail-insights.ts:409-419 | A branch result pairs the mail with the chain's output, and fails exactly when the chain rejects. |
| InsightPipeline.ExtractGeneralInsights | multi-tenant/code/srv/common/handlers/common-mail-insights.ts:380-422 | One result per mail, in order, tagging the mail with its insights for its subject and body. It fails exactly when some call rejects. |
| InsightPipeline.ExtractLanguageMatches | multi-tenant/code/srv/common/handlers/common-mail-insights.ts:651-689 | One result per mail, in order, tagging the mail with the language check of its body. It fails exactly when some call rejects. |
| InsightPipeline.RagContextSpec | multi-tenant/code/srv/common/handlers/common-mail-insights.ts:613-614 | At most five grounding documents. Each holds the `responseBody` of a stored mail whose row is marked submitted. There are none when no row is marked submitted. |
| InsightPipeline.DraftOne | multi-tenant/code/srv/common/handlers/common-mail-insights.ts:611-638 | A drafted response is tagged with the mail it was drafted for. |
| InsightPipeline.DraftPayloadFrom | multi-tenant/code/srv/common/handlers/common-mail-insights.ts:612-637 | Without RAG, the draft is the plain chain's output for the mail's request. With RAG, it is the parse of some chain text. |
| InsightPipeline.PreparePotentialResponses | multi-tenant/code/srv/common/handlers/common-mail-insights.ts:566-643 | One draft per mail, in order, read from the given table. It fails exactly when some draft fails. |
| InsightPipeline.FirstFor | multi-tenant/code/srv/common/handlers/common-mail-insights.ts:279-281 | The first branch result whose mail has the given ID. No earlier result has it. |
| InsightPipeline.MergePrecedence | multi-tenant/code/srv/common/handlers/common-mail-insights.ts:285-290 | The merged insights hold a key exactly when some branch result holds it. General insights win over the language match, which wins over the response, and a branch with no result for the mail adds nothing. |
| InsightPipeline.FirstWithId | multi-tenant/code/srv/common/handlers/common-mail-insights.ts:279-281 | The first mail with the given ID. No earlier mail has it. |
| InsightPipeline.PayloadOfOwnBranch | multi-tenant/code/srv/common/handlers/common-mail-insights.ts:279-281 | When a branch kept the input order, a mail's result is that of the first mail with its ID. With distinct IDs it is its own result. |
| InsightPipeline.Merge | multi-tenant/code/srv/common/handlers/common-mail-insights.ts:278-295 | The merge yields one processed mail per mail. |
| InsightPipeline.MergeBranches | multi-tenant/code/srv/common/handlers/common-mail-insights.ts:278-295 | The `reduce` with `push` yields one entry per mail, in order, each holding the mail and its merged insights. |
| InsightPipeline.FilterForTranslation | multi-tenant/code/srv/common/handlers/common-mail-insights.ts:892-912 | The request holds exactly the nine translatable properties that are defined, with their values unchanged. |
| InsightPipeline.Passthrough | multi-tenant/code/srv/common/handlers/common-mail-insights.ts:737-752 | Without a chain call, the translation has every translatable property except `customFields`. Subject and body come from the mail, the rest from the insights, and each is `""` when falsy. |
| InsightPipeline.TranslatorUnusedWhenMatching | multi-tenant/code/srv/common/handlers/common-mail-insights.ts:724 | A mail whose language matches never reaches the translation chain. |
| InsightPipeline.TranslationRequestSpec | multi-tenant/code/srv/common/handlers/common-mail-insights.ts:726-733 | The chain sees a translatable property when the mail or the insights define it, with the insights' value winning. |
| InsightPipeline.TranslationOf | multi-tenant/code/srv/common/handlers/common-mail-insights.ts:723-753 | Each mail gets exactly one translation entry. It fails exactly when that entry's chain call rejects. |
| InsightPipeline.TranslateInsights | multi-tenant/code/srv/common/handlers/common-mail-insights.ts:697-758 | One translated mail per processed mail, in order, each with its one entry. It fails exactly when some chain call rejects. |
| InsightPipeline.Processing | multi-tenant/code/srv/common/handlers/common-mail-insights.ts:261-295 | Processing keeps the mails, with their IDs, in input order. |
| InsightPipeline.ProcessingFailure | multi-tenant/code/srv/common/handlers/common-mail-insights.ts:267-271 | The batch fails exactly when some chain rejects for some mail. |
| InsightPipeline.ProcessingInsights | multi-tenant/code/srv/common/handlers/common-mail-insights.ts:278-295 | A mail's insights are the merge of the three branch outputs for the first mail with its ID, and with distinct IDs for its own. |
| InsightPipeline.RegenerateInsights | multi-tenant/code/srv/common/handlers/common-mail-insights.ts:254-306 | The imperative form, with the `reduce`/`push` loop of MergeBranches, returns exactly what Regenerate specifies, with one record per input mail. |
| InsightPipeline.RegenerateFailure | multi-tenant/code/srv/common/handlers/common-mail-insights.ts:254-306 | regenerateInsights rejects exactly when a branch rejects or a mail without a language match has its translation call rejected. |
| InsightPipeline.RegenerateResult | multi-tenant/code/srv/common/handlers/common-mail-insights.ts:254-306 | One record per mail, in order. Each holds the mail's properties overridden by its insights, plus a one-element `translation` that is the passthrough or the chain's answer. |
| InsightPipeline.RegenerateLength | multi-tenant/code/srv/common/handlers/common-mail-insights.ts:254-306 | A successful batch has one record per mail, built from the processed mails in order. |
| InsightPipeline.RegenerateAt | multi-tenant/code/srv/common/handlers/common-mail-insights.ts:299-305 | The i-th record is the flattening of the i-th processed mail with its translation. |
| InsightPipeline.FlattenSpec | multi-tenant/code/srv/common/handlers/common-mail-insights.ts:300-304 | A flattened record has its translation list under `translation`. Every other key comes from the insights when present, else from the mail. |
| InsightPipeline.RegenerateKeepsIds | multi-tenant/code/srv/common/handlers/common-mail-insights.ts:261-305 | When no chain output carries an `ID`, each record keeps the input's truthy ID, or else gets its fresh one. |
| InsightPipeline.ProcessingAddsNoId | multi-tenant/code/srv/common/handlers/common-mail-insights.ts:278-295 | Merged insights hold no `ID` when no chain output does. |
| InsightPipeline.AddMailsCallAsWritten | multi-tenant/code/srv/common/handlers/common-mail-insights.ts:177 | onAddMails passes the truthiness of `rag`, and the draft reads the table that the default parameter produces. |
| InsightPipeline.RegenerateInsightsCallIgnoresRag | multi-tenant/code/srv/app-srv/mail-insights-service.ts:47 | As written, the call ignores the request's `rag`. RAG is on exactly when the tenant is truthy, and the draft always reads `__main`. |
| InsightPipeline.RegenerateCall | multi-tenant/code/srv/app-srv/mail-insights-service.ts:47 | The corrected call passes `rag` and reads the ingest table of the tenant. It agrees with onAddMails whenever the tenant is defined. |
| MailLifecycle.Write | multi-tenant/code/srv/app-srv/mail-insights-service.ts:181 | An update sets exactly the properties in its data and keeps the others. |
| MailLifecycle.TranslateResponse | multi-tenant/code/srv/common/handlers/common-mail-insights.ts:767-805 | A successful chain returns its parsed translation. A rejected one returns `{responseBody: response \|\| ""}` instead of throwing. |
| MailLifecycle.SubmitSpec | multi-tenant/code/srv/app-srv/mail-insights-service.ts:168-180 | Submitting sets `responded` to true. With an undefined or truthy `languageMatch`, `responseBody` is the response itself and no translation is consulted. Otherwise it is the translation into the mail's language, or its fallback. `translation.responseBody` is the original response. Nothing else changes. |
| MailLifecycle.PatchRows | multi-tenant/code/srv/app-srv/mail-insights-service.ts:184-185 | A metadata patch keeps every row's key and content, and keeps the number of rows. |
| MailLifecycle.PatchRowsSpec | multi-tenant/code/srv/app-srv/mail-insights-service.ts:184-185 | A row whose metadata `id` names the mail gets the patch merged into its metadata, keeping its other keys. Every other row is unchanged. |
| MailLifecycle.PatchRowsTwice | multi-tenant/code/srv/app-srv/mail-insights-service.ts:184-185 | Two patches in a row equal one patch with their union, the later one winning. |
| MailLifecycle.PatchRowTwice | multi-tenant/code/srv/app-srv/mail-insights-service.ts:184-185 | The same for a single row. |
| MailLifecycle.SubmitThenRevoke | multi-tenant/code/srv/app-srv/mail-insights-service.ts:207 | After a submit and a revoke, `responded` is false, but the submitted `responseBody` and `translation.responseBody` remain. |
| MailLifecycle.SubmitThenRevokeRows | multi-tenant/code/srv/app-srv/mail-insights-service.ts:211-212 | The two patches equal the revoke patch alone. A row created with only `id` now also has `submitted: false`, so it differs from its original. |
| MailLifecycle.DropRows | multi-tenant/code/srv/common/handlers/common-mail-insights.ts:237 | Deletion keeps exactly the rows whose metadata `id` does not name the mail. |
| MailLifecycle.BatchIdsTail | multi-tenant/code/srv/common/handlers/common-mail-insights.ts:178 | The IDs of a batch are its first mail's ID plus those of the rest. |
| MailLifecycle.InsertedKeys | multi-tenant/code/srv/common/handlers/common-mail-insights.ts:178 | After the insert, the stored IDs are the old ones plus the batch's. |
| MailLifecycle.InsertedOthers | multi-tenant/code/srv/common/handlers/common-mail-insights.ts:178 | A stored mail outside the batch is unchanged. |
| MailLifecycle.InsertedAt | multi-tenant/code/srv/common/handlers/common-mail-insights.ts:178 | With distinct IDs in the batch, each mail is stored under its ID as given. |
| MailLifecycle.EmbeddingDocs | multi-tenant/code/srv/common/handlers/common-mail-insights.ts:187-192 | One embedding row per mail, in order, with fresh consecutive keys, the body as content and metadata `{id: ID}` only. |
| MailLifecycle.EmbeddingDocsFocus | multi-tenant/code/srv/common/handlers/common-mail-insights.ts:187-192 | A new row is a focus of exactly its own mail, and it is never marked submitted. |
| MailLifecycle.InsertedKeyed | multi-tenant/code/srv/common/handlers/common-mail-insights.ts:178 | An insertable batch keeps every mail stored under its own ID. |
| MailLifecycle.MailService.SubmitResponse | multi-tenant/code/srv/app-srv/mail-insights-service.ts:157-192 | An unknown id throws and changes nothing. Otherwise the record gets the submitted fields, the mail's rows in the tenant's table get `submitted: true`, and `true` is returned. |
| MailLifecycle.MailService.RevokeResponse | multi-tenant/code/srv/app-srv/mail-insights-service.ts:201-220 | Succeeds exactly when the mail exists. It then sets `responded` to false and marks the rows `submitted: false`. Otherwise nothing changes. |
| MailLifecycle.MailService.DeleteMail | multi-tenant/code/srv/common/handlers/common-mail-insights.ts:228-245 | Always returns true. The mail is removed and the tenant's table loses exactly that mail's rows. |
| MailLifecycle.MailService.RegenerateResponse | multi-tenant/code/srv/common/handlers/common-mail-insights.ts:324-371 | Succeeds exactly when the draft succeeds, the translation exists and the actions can be enriched. The result keeps the ID, takes the new draft as `responseBody`, and takes as `translation.responseBody` the draft or its translation into the working language. Its actions are enriched, and no other property changes. |
| MailLifecycle.MailService.OnRegenerateResponse | multi-tenant/code/srv/app-srv/mail-insights-service.ts:70-83 | An unknown id throws and changes nothing. On success only that mail's record changes, and the vector tables are untouched. The draft reads the corrected table Tenancy.RetrievalTable (see Findings). |
| MailLifecycle.MailService.UpdateMail | multi-tenant/code/srv/app-srv/mail-insights-service.ts:78 | The update writes the patch over exactly one record and keeps every mail under its own ID. |
| MailLifecycle.MailService.OnTranslateResponse | multi-tenant/code/srv/app-srv/mail-insights-service.ts:91-104 | An unknown id throws. Otherwise it returns the `responseBody` of the translation into the mail's language, or the response (or `""`) when the chain rejects. |
| MailLifecycle.MailService.GetMail | multi-tenant/code/srv/common/handlers/common-mail-insights.ts:105-162 | An unknown id throws. The mail is returned enriched, and it fails exactly when enrichment throws. Its closest mails are the similarity join of at most five neighbours from the tenant's table. |
| MailLifecycle.MailService.FindMails | multi-tenant/code/srv/app-srv/mail-insights-service.ts:106-149 | An empty search gives an empty list. The join never throws, and each entry's similarity is 1 minus the distance of the first result naming it. |
| MailLifecycle.MailService.AddMails | multi-tenant/code/srv/common/handlers/common-mail-insights.ts:169-221 | When the batch fails or cannot be inserted, it throws and changes nothing. Otherwise the mails are inserted, one embedding row per mail is appended to the tenant's table, and the returned mails are the enriched batch. It throws exactly when some enrichment throws. The batch is drafted with the corrected arguments InsightPipeline.RegenerateCall (see Findings). |
| MailLifecycle.MailService.InsertBatch | multi-tenant/code/srv/common/handlers/common-mail-insights.ts:178-192 | Inserts the records and appends their embedding rows with fresh keys. |
| MailLifecycle.MailService.OnRegenerateInsights | multi-tenant/code/srv/app-srv/mail-insights-service.ts:41-62 | A failing batch throws and changes nothing. Otherwise the result is true and the stored mails are upserted with the regenerated batch when it can be upserted. The vector tables are untouched. The batch is regenerated with the corrected arguments InsightPipeline.RegenerateCall, not the shifted ones (see Findings). |
| MailLifecycle.MailService.UpsertBatch | multi-tenant/code/srv/app-srv/mail-insights-service.ts:52-55 | The UPSERT writes the whole batch or nothing. |
| MailLifecycle.EnrichInserted | multi-tenant/code/srv/common/handlers/common-mail-insights.ts:206-213 | The `forEach` succeeds exactly when every mail can be enriched. It then returns each mail's enrichment, in order. |
| MailLifecycle.DraftFields | multi-tenant/code/srv/common/handlers/common-mail-insights.ts:331-339 | The draft sees only the mail's `ID`, `body`, `senderEmailAddress` and `subject`. |
| MailLifecycle.Listed | multi-tenant/code/srv/app-srv/mail-insights-service.ts:46 | `SELECT.from(Mails)` yields the stored record for each listed key, in the listing order. |
| MailLifecycle.UpsertedKeyed | multi-tenant/code/srv/app-srv/mail-insights-service.ts:54 | An upsertable batch keeps every mail stored under its own ID and drops none. |
| MailLifecycle.KeyedUpdate | multi-tenant/code/srv/app-srv/mail-insights-service.ts:78 | Writing a record with the same ID keeps the store keyed by ID. |
| MailLifecycle.PatchKeepsRowIds | multi-tenant/code/srv/app-srv/mail-insights-service.ts:184-185 | A metadata patch adds no row key. |
| MailLifecycle.AppendKeepsRowIds | multi-tenant/code/srv/common/handlers/common-mail-insights.ts:187-192 | Appending rows with fresh keys keeps every key below the new bound. |
| MailLifecycle.SimilarityBound | multi-tenant/code/srv/common/handlers/common-mail-insights.ts:128-157 | At most five neighbours give at most five similar mails. |

## Left out

- The language-model chains (`LLMChain`, `StuffDocumentsChain`, `OutputFixingParser`, the Zod schemas, the prompt texts, `genereatePrompt`) are foreign calls with non-deterministic output. They are parameters of the model.
- `extractAttributeInsightsNormalStructure`, `extractAttributeInsightsDifferentStructure` and the `Attributes` read are left out. Their only call site is commented out, so the `attributes` argument never affects the result.
- `Promise.all` concurrency is not modelled. Branches and per-mail calls are evaluated in sequence, and any rejection rejects the batch.
- CAP persistence, transactions, `req.error` and logging are in-memory maps and `Outcome` values. A handler error is `Thrown`. The model does not capture rolling back writes made before the throw in AddMails.
- MailLifecycle.MailService.UpsertBatch: the UPSERT is not awaited in the source, so its failure is invisible to the caller. The model writes the whole batch or nothing and always returns true. It does not model the write finishing after the response.
- The pgvector distance, the embeddings and `ensureTableInDatabase` belong to the database. Distance is a parameter, and a missing table reads as empty.
- The Postgres connection and SSL options of `getPostgresConnectionOptions` are configuration. Only the table name is modelled.
- `uuidv4` is random. It is a parameter indexed by how many IDs were generated before.
- The working language (`schemas.WORKING_LANGUAGE`) is a parameter, because schemas.ts is not part of this model.
- The default action catalog is a parameter, because default-values.ts is not part of this model.
- `getFoundMail` is called by onFindMails but not defined in either file. Its results are the parameter of FindMails.
- onGetMails only reads records through the CAP runtime, so it is left out. onAfterReadMails, its enrichment, is modelled by EnrichEach.
- The translation is stored nested in the mail record under `translation`, not as a separate entity joined by `translation_ID`.
- JSONB containment `@>` is modelled for scalar values only. Nested objects and arrays in the filter are compared by equality.
- The order of rows with equal distance is left open by SQL. The model fixes one: a stable insertion sort over the join, with NULL distances last.
- NaN and JavaScript number semantics are not modelled. Distances and similarities are reals.
- `new Boolean(success)` is returned as a plain boolean. In JavaScript the wrapper object is truthy even for `false`.
- The `rag` flag of onRegenerateResponse is the truthiness of `selectedMails`, as the source passes it.
- MailLifecycle.MailService.AddMails: drafts with the corrected InsightPipeline.RegenerateCall. As written (InsightPipeline.AddMailsCallAsWritten), an undefined tenant makes the retrieval-augmented drafts read `__main`. For every defined tenant the two calls are equal, which RegenerateCall's contract states.
- MailLifecycle.MailService.AddMails: returns the enriched mails in batch order. The source reads them back with `SELECT … WHERE ID IN (…)`, whose row order SQL leaves open; the model fixes it.
- Retrieval.FetchByIds: returns the fetched mails in the order of the id list. The `WHERE ID IN (…)` query of onGetMail and onFindMails leaves that order open; the model fixes it.
- MailLifecycle.MailService.OnRegenerateResponse: drafts from the corrected Tenancy.RetrievalTable. As written (Tenancy.RetrievalTableAsWritten), an undefined tenant makes a retrieval-augmented draft read `__main`. For every other tenant the two tables are equal, which RetrievalTable's contract states.
- MailLifecycle.MailService.OnRegenerateInsights: regenerates with the corrected InsightPipeline.RegenerateCall. As written (InsightPipeline.RegenerateInsightsCallAsWritten), the request's `rag` is ignored, RAG is on exactly when the tenant is truthy, and drafts read `__main`.
- SuggestedActions.EnrichAction: a suggested action that is a string or an array is spread by its index keys in JavaScript (`{..."ab", descr}` is `{0: "a", 1: "b", descr}`). The model gives such an action only `descr`. Suggested actions are objects in the mail schema, and decimal index keys are not modelled.
- Retrieval.NeighboursSpec: "no returned row is a focus row" is proved only when one row carries the mail's id. DuplicateFocusReturnsFocusRow shows it fails otherwise.
- Retrieval.CompleteSpec: states which rows are kept and, with CompleteSorted, their ascending order. That the kept rows are a subsequence of the query's is stated only by the definition of Complete.
- MailLifecycle.MailService.OnRegenerateResponse: states that only that mail's record changes and how it is computed (RegenerateResponse), not the written record itself, because the update is applied through UpdateMail.
- MailLifecycle.MailService.OnRegenerateInsights: requires the listing order to name every stored mail once. The fetch is a parameter, not a query.
- MailLifecycle.MailService.AddMails: a batch whose IDs clash with each other or with stored mails throws before any write. The database would fail the INSERT at the same point, but the model does not distinguish the two causes.

## Findings

| source | as written | input that shows it | evidently intended | confidence | as-written member | corrected member |
|---|---|---|---|---|---|---|
| multi-tenant/code/srv/common/handlers/common-mail-insights.ts:254-259 | `regenerateInsights`, `regenerateResponse` and `preparePotentialResponses` default `tenant` to `"_main"`, and getPostgresConnectionOptions then prefixes another `_`. Retrieval-augmented drafts read `__main`. | Tenant `undefined`, single-tenant mode: mails are embedded into `_main`, and RAG reads `__main`. | The draft reads the table the mails were embedded into. | high, not executed | Tenancy.RetrievalTableMismatch | Tenancy.RetrievalTable |
| multi-tenant/code/srv/app-srv/mail-insights-service.ts:47 | onRegenerateInsights calls `regenerateInsights(mails, rag, tenant)` against the parameters `(mails, attributes, rag, tenant)`. | rag `true`, multitenancy off: RAG is off and the draft reads `__main`. | rag and tenant reach their own parameters. | high, not executed | InsightPipeline.RegenerateInsightsCallIgnoresRag | InsightPipeline.RegenerateCall |
