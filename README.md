# Document metadata, content history, review-workflow migration and the attribute filter

A Dafny model of four pieces of a headless CMS:

- **Document metadata** (`document_metadata.dfy`). A document can exist in several locales, each as a
  draft and/or a published row. The model covers:
  - the status of a version: `draft`, `published`, or `modified` when a draft has been edited more than
    500 ms after its published counterpart;
  - the other locales of a document (`getAvailableLocales`);
  - the version at the opposite publication state (`getAvailableStatus`, `getManyAvailableStatus`);
  - the metadata bundle built from these (`getMetadata`, `formatDocumentWithMetadata`).
- **Content history** (`history.dfy`):
  - the retention window;
  - the service lifecycle: `bootstrap` registers the snapshot middleware and schedules the daily purge
    job once, and `destroy` cancels that job;
  - the middleware that snapshots a mutated document after its transaction commits;
  - the stored record, the purge, and the paginated listing of snapshots with the locale dictionary.
- **Review-workflow content types** (`review_workflow_content_types.dfy`). When a workflow's content
  types change, the model computes which uids were added and which were removed. It also records the
  stage, configuration and workflow calls `migrate` makes for each uid.
- **Attribute filter** (`allowed_attributes.dfy`). This is the set of attributes a user may filter a
  list view on, given the read permissions found for the content type. It includes the admin author
  fields and ends with the sort.

`js_values.dfy` models JavaScript values:

- A stored row or payload is `map<string, Value>`. An absent key reads as `undefined`.
- Truthiness is modelled, and so is `new Date(x ?? 0).getTime()`, with NaN as `None`.
- lodash `pick` and `omit` become `Project` and `Omit`.

`wrappers.dfy` holds `Option`.

Collaborators are not part of the model. This covers the document service, the store, the scheduler,
the request context, the clock, the i18n locales service, the content-manager configuration service
and the RBAC permission lookups. What they answer is a parameter. What is asked of them is either
recorded as a value (the middleware's effects, migrate's service calls, the history service's scheduled
and cancelled jobs) or returned as the query it would send.

Three operations loop or change state in the source, and each is a method proved equal to a
specification function:

- `getAvailableLocales` is a `groupBy` followed by a `delete` and a map over the groups.
- `migrate` loops over the added uids and then over the removed ones.
- The locale dictionary is built with a reduce.

The history service's `state` object is a class, and so is the options object that
`formatDocumentWithMetadata` changes. The other operations that make collaborator calls or build a
result step by step are methods with their results stated in `ensures`: the metadata and status
lookups, the middleware, the snapshot listing, and the attribute hook. The pure parts of the source
(status, retention, `difference`, the attribute filter) are functions with lemmas about them.

## Model

Source paths are relative to the repository root.

| member | source | states |
|---|---|---|
| JsValues.Project | packages/core/content-manager/server/src/services/document-metadata.ts:148 | lodash `pick` keeps exactly the listed keys present in the row, with their values unchanged |
| JsValues.Omit | packages/core/content-manager/server/src/history/services/history.ts:126-127 | lodash `omit` keeps exactly the keys not listed, with their values unchanged |
| JsValues.Millis | packages/core/content-manager/server/src/services/document-metadata.ts:189-190 | `new Date(x ?? 0).getTime()`: null and undefined read as the epoch; a Date or a number reads as its milliseconds when within ±8.64e15 and is NaN outside that range; every valid time is within it |
| DocumentMetadata.GetStatus | packages/core/content-manager/server/src/services/document-metadata.ts:174-205 | with no sibling, the version's own status; a published version is always `published`; a draft with no published sibling is `draft`; a draft is `published` exactly when a published sibling exists and it is within 500 ms of the first sibling (so a NaN time or a larger gap never makes it `published`); `modified` exactly when a draft is more than 500 ms newer than the first sibling and a published sibling exists |
| DocumentMetadata.StatusComparesFirstSiblingOnly | packages/core/content-manager/server/src/services/document-metadata.ts:182-204 | two sibling lists with the same first element and the same has-published answer give the same status |
| DocumentMetadata.StatusIgnoresNewestSibling | packages/core/content-manager/server/src/services/document-metadata.ts:189-204 | an example where a draft newer than the first sibling is `modified`, even though a later published sibling is newer than the draft |
| DocumentMetadata.LocaleKeys | packages/core/content-manager/server/src/services/document-metadata.ts:68 | the `groupBy` key order: each row's locale the first time it appears (described by `LocaleKeysMembers`) |
| DocumentMetadata.GroupOf | packages/core/content-manager/server/src/services/document-metadata.ts:68 | one `groupBy` group: the rows of one locale, in order (described by `GroupOfMembers`) |
| DocumentMetadata.RemoveKey | packages/core/content-manager/server/src/services/document-metadata.ts:71 | the key order after `delete`: every key but the deleted one, in order (described by `RemoveKeyMembers`) |
| DocumentMetadata.LocaleKeysMembers | packages/core/content-manager/server/src/services/document-metadata.ts:68 | the `groupBy` keys are exactly the rows' locales, each once |
| DocumentMetadata.GroupOfMembers | packages/core/content-manager/server/src/services/document-metadata.ts:68 | a `groupBy` group holds exactly the rows of its locale |
| DocumentMetadata.RemoveKeyMembers | packages/core/content-manager/server/src/services/document-metadata.ts:71 | `delete` removes exactly the deleted key and keeps the other keys distinct |
| DocumentMetadata.GroupByLocale | packages/core/content-manager/server/src/services/document-metadata.ts:68 | the loop builds the insertion-ordered dictionary: key order as first seen, and each key mapped to its locale's rows |
| DocumentMetadata.ProjectAll | packages/core/content-manager/server/src/services/document-metadata.ts:98-101 | every row of a group is projected to the kept keys, in order |
| DocumentMetadata.FirstDraft | packages/core/content-manager/server/src/services/document-metadata.ts:107 | `find` returns the first draft of the list, and none exactly when the list has no draft |
| DocumentMetadata.OthersThan | packages/core/content-manager/server/src/services/document-metadata.ts:108 | `filter` keeps exactly the rows whose id differs from the draft's |
| DocumentMetadata.OthersThanCounts | packages/core/content-manager/server/src/services/document-metadata.ts:108 | `filter` keeps every occurrence of a row with another id and drops every row with the draft's id |
| DocumentMetadata.OthersThanHead | packages/core/content-manager/server/src/services/document-metadata.ts:108 | `filter` keeps the list's order: the first remaining row, which `getStatus` compares against, is the first row with another id |
| DocumentMetadata.LocaleEntry | packages/core/content-manager/server/src/services/document-metadata.ts:97-118 | one group's entry: without draft and publish its first projected row; with it, nothing when the group has no draft, otherwise the first draft stamped with `getStatus` against the group's rows with another id (its meaning per entry is `AvailableLocalesContent`) |
| DocumentMetadata.AvailableLocales | packages/core/content-manager/server/src/services/document-metadata.ts:61-126 | the specification of `getAvailableLocales`: the entries of the groups of the rows' locales without the caller's own, in first-seen order, with absent entries dropped (described by the `AvailableLocales*` lemmas) |
| DocumentMetadata.MapLocaleGroups | packages/core/content-manager/server/src/services/document-metadata.ts:95-125 | the loop over the remaining groups returns, in key order, the entry of every group that contributes one |
| DocumentMetadata.GetAvailableLocales | packages/core/content-manager/server/src/services/document-metadata.ts:61-126 | the method returns exactly the specification `AvailableLocales` |
| DocumentMetadata.AvailableLocalesShape | packages/core/content-manager/server/src/services/document-metadata.ts:71-117 | no entry has the caller's own locale; each entry keeps only the whitelisted and validatable keys; with draft and publish each entry is a draft carrying a status |
| DocumentMetadata.AvailableLocalesCoverage | packages/core/content-manager/server/src/services/document-metadata.ts:68-125 | a locale is listed exactly when it is not the caller's and some stored row has it; with draft and publish, that row must be a draft |
| DocumentMetadata.AvailableLocalesContent | packages/core/content-manager/server/src/services/document-metadata.ts:98-117 | each entry is the first row of its locale, or with draft and publish the first draft stamped with its status against the locale's other rows, all projected |
| DocumentMetadata.AvailableLocalesOnePerLocale | packages/core/content-manager/server/src/services/document-metadata.ts:68-125 | no two entries share a locale |
| DocumentMetadata.GetAvailableStatus | packages/core/content-manager/server/src/services/document-metadata.ts:131-149 | nothing exactly when no row has the same locale and the opposite state; otherwise the first such row, projected to the status fields |
| DocumentMetadata.TruthyDocumentIds | packages/core/content-manager/server/src/services/document-metadata.ts:166 | the ids kept are exactly the truthy `documentId`s of the documents |
| DocumentMetadata.GetManyAvailableStatus | packages/core/content-manager/server/src/services/document-metadata.ts:156-172 | no query exactly when there are no documents; otherwise one lookup at the opposite status in the first document's locale, for every truthy document id |
| DocumentMetadata.GetMetadata | packages/core/content-manager/server/src/services/document-metadata.ts:210-245 | each part is computed when its flag is true or undefined and is empty otherwise; the status part has at most one row |
| DocumentMetadata.MetadataOptions.constructor | packages/core/content-manager/server/src/services/document-metadata.ts:255 | the options object holds the two flags it is given, `None` standing for an omitted flag |
| DocumentMetadata.FormatDocumentWithMetadata | packages/core/content-manager/server/src/services/document-metadata.ts:252-280 | a missing document is returned unchanged; without draft and publish the caller's `availableStatus` is switched off and the status removed; with draft and publish the document is stamped with its status |
| History.RetentionDays | packages/core/content-manager/server/src/history/services/history.ts:29-41 | the user's value wins exactly when it is non-zero and below the licence's; otherwise the licence's value capped at 90; NaN exactly without a licence value; never above the licence's value |
| History.RetentionAboveLicenseGivesDefault | packages/core/content-manager/server/src/history/services/history.ts:34-40 | for any licence value, a user value at or above it, or a user value of 0, gives the licence's value capped at 90 days, not the user's value |
| History.RetentionExamples | packages/core/content-manager/server/src/history/services/history.ts:34-40 | with a licence of 365 days, 400 and 0 give 90 and 180 gives 180; with a licence of 30 days, 50 gives 30 and no user value gives 30 |
| History.HistoryService.constructor | packages/core/content-manager/server/src/history/services/history.ts:19-25 | a new service is uninitialised, with no job and nothing registered |
| History.HistoryService.Bootstrap | packages/core/content-manager/server/src/history/services/history.ts:70-154 | the first call registers one middleware and schedules one daily job with the retention window of that moment; later calls change nothing |
| History.HistoryService.Destroy | packages/core/content-manager/server/src/history/services/history.ts:156-160 | cancels the job if there is one and changes nothing else, including `isInitialized` |
| History.BootstrapTwice | packages/core/content-manager/server/src/history/services/history.ts:71-74 | a second bootstrap, with a destroy between or not, registers no second middleware and schedules no second job |
| History.DestroyBeforeBootstrap | packages/core/content-manager/server/src/history/services/history.ts:156-160 | a destroy before any bootstrap cancels nothing |
| History.ExpirationDate | packages/core/content-manager/server/src/history/services/history.ts:142-146 | the cutoff is `now` minus the retention window in milliseconds, and there is none exactly when the window is NaN or the date is out of range |
| History.KeepUnexpired | packages/core/content-manager/server/src/history/services/history.ts:145-149 | the store keeps exactly the snapshots not older than the cutoff |
| History.RunDeleteExpired | packages/core/content-manager/server/src/history/services/history.ts:139-150 | a run fails exactly when the expiration date is invalid; otherwise it keeps the unexpired snapshots |
| History.PurgeDeletesExactlyExpired | packages/core/content-manager/server/src/history/services/history.ts:142-149 | a stored snapshot is deleted exactly when it is strictly older than the retention window |
| History.ShouldSnapshot | packages/core/content-manager/server/src/history/services/history.ts:80-98 | an action is snapshotted only inside a request to a `/content-manager` URL, for one of the six mutating actions, on a content type whose uid starts with `api::` |
| History.SnapshotSource | packages/core/content-manager/server/src/history/services/history.ts:105-106 | create and update snapshot the action's result when it is an object; the other actions snapshot `versions[0]` exactly when the result holds a `versions` array whose first element is an object, and nothing else |
| History.SnapshotPayload | packages/core/content-manager/server/src/history/services/history.ts:110-131 | data and schema lose exactly the ignored keys; the locale falls back to the default locale when it is null or undefined |
| History.VersionStatus | packages/core/content-manager/server/src/history/services/history.ts:59-67 | the status is the metadata status against the available status; a published document is always `published` |
| History.Middleware | packages/core/content-manager/server/src/history/services/history.ts:78-136 | `next` runs exactly once and first; a failure of `next` propagates; unsnapshotted actions return what `next` returned and do nothing else; a snapshotted action whose result cannot be read (a create or update result that is not an object, or another action's `versions[0]` that is not an object) throws after `next` returned; a snapshotted action with a readable result reads metadata, opens a transaction, registers exactly that snapshot after the commit and returns `next`'s result; no other run registers one |
| History.CreateVersion | packages/core/content-manager/server/src/history/services/history.ts:162-170 | the record holds the payload and the time; the creator is the request user's id, absent without a request state, and a state with no user fails |
| History.LocaleDictionary | packages/core/content-manager/server/src/history/services/history.ts:46-56 | the reduce's result: each locale in turn sets the `{name, code}` entry of its code (described by `LocaleDictionaryCodes` and `LocaleDictionaryLastWins`) |
| History.LocaleDictionaryCodes | packages/core/content-manager/server/src/history/services/history.ts:46-56 | the dictionary's codes are exactly the locales' codes |
| History.LocaleDictionaryLastWins | packages/core/content-manager/server/src/history/services/history.ts:46-56 | the last locale with a code gives the entry of that code |
| History.GetLocaleDictionary | packages/core/content-manager/server/src/history/services/history.ts:44-57 | the reduce loop builds exactly `LocaleDictionary`; a missing answer reads as no locales |
| History.VersionsPageQuery | packages/core/content-manager/server/src/history/services/history.ts:172-185 | the content-type condition is always first; the document and locale conditions are present exactly when those parameters are set; creators are populated, newest first |
| History.SanitizeResult | packages/core/content-manager/server/src/history/services/history.ts:189-195 | other keys are kept unchanged; the locale becomes its dictionary entry, or null when falsy; the creator is reduced to the public creator keys, or null when falsy |
| History.FindVersionsPage | packages/core/content-manager/server/src/history/services/history.ts:172-201 | sends `VersionsPageQuery`, keeps the pagination, and sanitises every result, in order, against the locale dictionary |
| ReviewWorkflowContentTypes.Difference | packages/core/admin/ee/server/services/review-workflows/workflows/content-types.js:73-77 | lodash `difference`, one element of the first list at a time (described by the three `Difference*` lemmas) |
| ReviewWorkflowContentTypes.DifferenceMembers | packages/core/admin/ee/server/services/review-workflows/workflows/content-types.js:73-77 | lodash `difference` keeps exactly the elements of the first list missing from the second |
| ReviewWorkflowContentTypes.DifferenceCounts | packages/core/admin/ee/server/services/review-workflows/workflows/content-types.js:73-77 | `difference` keeps every occurrence of a kept element and none of a removed one |
| ReviewWorkflowContentTypes.DifferenceInOrder | packages/core/admin/ee/server/services/review-workflows/workflows/content-types.js:73-77 | `difference` keeps the order of the first list |
| ReviewWorkflowContentTypes.DiffContentTypes | packages/core/admin/ee/server/services/review-workflows/workflows/content-types.js:73-77 | the added uids are exactly those in the new list and not in the old one; the removed uids exactly those in the old list and not in the new one |
| ReviewWorkflowContentTypes.DiffContentTypesMeaning | packages/core/admin/ee/server/services/review-workflows/workflows/content-types.js:73-77 | the added uids are exactly those only in the new list and the removed uids exactly those only in the old one, in order; no uid is both; from an empty old list everything is added |
| ReviewWorkflowContentTypes.DiffOfSameSets | packages/core/admin/ee/server/services/review-workflows/workflows/content-types.js:73-77 | the same content types before and after give nothing added and nothing removed |
| ReviewWorkflowContentTypes.TransferContentType | packages/core/admin/ee/server/services/review-workflows/workflows/content-types.js:62-69 | the call updates the source workflow, by its id, to content types that are exactly its old ones other than the uid |
| ReviewWorkflowContentTypes.TransferContentTypeMeaning | packages/core/admin/ee/server/services/review-workflows/workflows/content-types.js:62-69 | the source workflow is updated to its content types, in order, with every occurrence of the uid removed |
| ReviewWorkflowContentTypes.CreatedCalls | packages/core/admin/ee/server/services/review-workflows/workflows/content-types.js:26-45 | one added uid's calls: a uid in a workflow moves all its entities and is transferred out of that workflow; any other uid has review workflows switched on and its stageless entities moved (described by the `Migrate*` lemmas) |
| ReviewWorkflowContentTypes.DeletedCalls | packages/core/admin/ee/server/services/review-workflows/workflows/content-types.js:47-54 | one removed uid's calls: its configuration is read, review workflows are switched off and all its entity stages are deleted |
| ReviewWorkflowContentTypes.MigratePlan | packages/core/admin/ee/server/services/review-workflows/workflows/content-types.js:23-55 | the calls for every added uid in order, then those for every removed uid in order, with the old list defaulting to empty |
| ReviewWorkflowContentTypes.CreatedPlan | packages/core/admin/ee/server/services/review-workflows/workflows/content-types.js:26-45 | the calls for every added uid, uid by uid in order (described by `CreatedPlanMembers` and the `Migrate*` lemmas) |
| ReviewWorkflowContentTypes.DeletedPlan | packages/core/admin/ee/server/services/review-workflows/workflows/content-types.js:47-54 | the calls for every removed uid, uid by uid in order (described by `DeletedPlanMembers`) |
| ReviewWorkflowContentTypes.MigrateCreated | packages/core/admin/ee/server/services/review-workflows/workflows/content-types.js:26-45 | the loop over the added uids makes exactly the calls of the plan |
| ReviewWorkflowContentTypes.MigrateDeleted | packages/core/admin/ee/server/services/review-workflows/workflows/content-types.js:47-54 | the loop over the removed uids makes exactly the calls of the plan |
| ReviewWorkflowContentTypes.Migrate | packages/core/admin/ee/server/services/review-workflows/workflows/content-types.js:23-55 | `migrate` makes exactly the plan's calls, with an omitted old list read as empty |
| ReviewWorkflowContentTypes.CreatedPlanMembers | packages/core/admin/ee/server/services/review-workflows/workflows/content-types.js:26-45 | a call is made for the added uids exactly when one uid's steps make it |
| ReviewWorkflowContentTypes.DeletedPlanMembers | packages/core/admin/ee/server/services/review-workflows/workflows/content-types.js:47-54 | a call is made for the removed uids exactly when one uid's steps make it |
| ReviewWorkflowContentTypes.MigrateEnables | packages/core/admin/ee/server/services/review-workflows/workflows/content-types.js:34-38 | review workflows are switched on for a uid exactly when it is added and was in no workflow |
| ReviewWorkflowContentTypes.MigrateDisables | packages/core/admin/ee/server/services/review-workflows/workflows/content-types.js:48-52 | review workflows are switched off for a uid exactly when it is removed |
| ReviewWorkflowContentTypes.MigrateClearsStages | packages/core/admin/ee/server/services/review-workflows/workflows/content-types.js:53 | all entity stages of a uid are deleted exactly when it is removed |
| ReviewWorkflowContentTypes.MigrateMovesAllEntities | packages/core/admin/ee/server/services/review-workflows/workflows/content-types.js:28-32 | all entities of a uid move to the new stage exactly when it is added and was in another workflow |
| ReviewWorkflowContentTypes.MigrateMovesStagelessEntities | packages/core/admin/ee/server/services/review-workflows/workflows/content-types.js:40-44 | only the stageless entities of a uid move to the new stage, exactly when it is added and was in no workflow |
| ReviewWorkflowContentTypes.TransferAfterStageMove | packages/core/admin/ee/server/services/review-workflows/workflows/content-types.js:29-33 | for a uid in another workflow, the entities move first, and the uid is then taken out of that workflow |
| ReviewWorkflowContentTypes.MigrateSameSetsCallsNothing | packages/core/admin/ee/server/services/review-workflows/workflows/content-types.js:23-55 | unchanged content types make `migrate` call nothing |
| AllowedAttributes.ReadableFields | packages/core/admin/admin/src/content-manager/components/AttributeFilter/hooks/useAllowedAttributes.js:25 | with no matching permission the readable fields are empty; when the first permission has an array at `properties.fields`, they are that array's items |
| AllowedAttributes.FilterAttributesMembers | packages/core/admin/admin/src/content-manager/components/AttributeFilter/hooks/useAllowedAttributes.js:26-43 | a name passes the filter exactly when some attribute of that name passes the callback |
| AllowedAttributes.IsAllowed | packages/core/admin/admin/src/content-manager/components/AttributeFilter/hooks/useAllowedAttributes.js:28-42 | the filter callback: the attribute has a truthy type, the type is not an excluded one, and the name is readable, `id` or a timestamp |
| AllowedAttributes.FilterAttributes | packages/core/admin/admin/src/content-manager/components/AttributeFilter/hooks/useAllowedAttributes.js:27-43 | the names of the attributes that pass the callback, in key order (described by `FilterAttributesMembers`) |
| AllowedAttributes.ExcludedTypes | packages/core/admin/admin/src/content-manager/components/AttributeFilter/hooks/useAllowedAttributes.js:27-43 | a name whose every attribute has no type, or a type of json, component, media, richtext, dynamiczone or password, is not in the filter's result |
| AllowedAttributes.AllowedWhenReadable | packages/core/admin/admin/src/content-manager/components/AttributeFilter/hooks/useAllowedAttributes.js:27-43 | the name of a typed, filterable attribute is in the filter's result when it is readable, `id`, `createdAt` or `updatedAt` |
| AllowedAttributes.WithoutPermissionOnlyIdAndTimestamps | packages/core/admin/admin/src/content-manager/components/AttributeFilter/hooks/useAllowedAttributes.js:25-40 | with no matching permission, only `id` and the timestamps can pass |
| AllowedAttributes.LexLe | packages/core/admin/admin/src/content-manager/components/AttributeFilter/hooks/useAllowedAttributes.js:50 | the no-comparator sort order of strings: character by character, a prefix first (a total order by the three lemmas below) |
| AllowedAttributes.LexLeTotal | packages/core/admin/admin/src/content-manager/components/AttributeFilter/hooks/useAllowedAttributes.js:50 | the default string order relates every pair of strings |
| AllowedAttributes.LexLeTransitive | packages/core/admin/admin/src/content-manager/components/AttributeFilter/hooks/useAllowedAttributes.js:50 | the default string order is transitive |
| AllowedAttributes.LexLeAntisymmetric | packages/core/admin/admin/src/content-manager/components/AttributeFilter/hooks/useAllowedAttributes.js:50 | two strings ordered both ways are equal |
| AllowedAttributes.Insert | packages/core/admin/admin/src/content-manager/components/AttributeFilter/hooks/useAllowedAttributes.js:50 | one insertion step of the sort (described by `InsertCounts` and `InsertSorted`) |
| AllowedAttributes.InsertCounts | packages/core/admin/admin/src/content-manager/components/AttributeFilter/hooks/useAllowedAttributes.js:50 | inserting adds exactly one occurrence of the element |
| AllowedAttributes.InsertSorted | packages/core/admin/admin/src/content-manager/components/AttributeFilter/hooks/useAllowedAttributes.js:50 | inserting into a sorted list keeps it sorted |
| AllowedAttributes.SortStrings | packages/core/admin/admin/src/content-manager/components/AttributeFilter/hooks/useAllowedAttributes.js:50 | `sort()` returns a sorted permutation of the list |
| AllowedAttributes.SortedPermutationsEqual | packages/core/admin/admin/src/content-manager/components/AttributeFilter/hooks/useAllowedAttributes.js:50 | there is only one sorted permutation of a list, so the result does not depend on the sort algorithm |
| AllowedAttributes.UseAllowedAttributes | packages/core/admin/admin/src/content-manager/components/AttributeFilter/hooks/useAllowedAttributes.js:7-51 | the result is sorted; it is the passing names plus `createdBy` and `updatedBy` exactly when the admin-users permission exists, as a multiset; a name is returned exactly when it passes or is such an author field |
| AllowedAttributes.AllowedNamesAreAttributes | packages/core/admin/admin/src/content-manager/components/AttributeFilter/hooks/useAllowedAttributes.js:26-43 | every name the filter keeps is a key of the content type's attributes |

## Left out

- The store, the document service, the scheduler, the request context and the clock are left out, and so
  are the i18n, configuration and permission services. Their answers are parameters and the model
  records what they are asked. `getDefaultLocale` is a parameter as well, not a promise.
- This affects `DocumentMetadata.GetAvailableLocales` and `DocumentMetadata.GetMetadata`. The rows are
  what the store returns for the document id, so the `findMany` query, `populate` and the
  validatable-fields populate are not modelled. `traverseEntity` in `getAvailableLocales` is modelled as
  a flat projection to `id`, `locale`, `updatedAt`, `createdAt`, `status`, `publishedAt`, `documentId`
  and the validatable fields. Nested components are not traversed.
- Timestamp strings are not parsed. `Millis` reads a string as an invalid date, so stored times are
  modelled as `Date` values (or numbers).
- `DocumentMetadata.GroupByLocale` groups by the locale value itself. JavaScript groups by its string
  form, so a `null` locale and the string `"null"` collide in the source but not in the model.
- `DocumentMetadata.GroupByLocale` keeps keys in first-seen order. A JavaScript object, read through
  `Object.values`, lists integer-like keys (such as `"1"` or `"42"`) first, in ascending order, and
  the other keys after them. The model's order agrees for ordinary locale codes only.
- `DocumentMetadata.FormatDocumentWithMetadata` models `status: undefined` as the key being removed.
- `History.SanitizeResult` does the same for a locale the dictionary lacks: undefined becomes an absent
  key.
- Concurrency is not modelled:
  - In the source, `migrate`'s `mapAsync` callbacks and `findVersionsPage`'s `Promise.all` run
    concurrently. The model runs them one uid, or one request, after the other.
  - The assigned-workflow answers are a fixed map, as the concurrent lookups see them.
  - Two added uids taken from the same workflow each rewrite that workflow from the copy looked up
    before any update. The model records both updates but does not model a store that applies them.
  - This means the store's last-write-wins outcome is not modelled.
- `ReviewWorkflowContentTypes.Migrate` records `updateConfiguration` as the `reviewWorkflows` flag it
  merges in. The other configuration options it carries over are not modelled.
- `History.Middleware` treats two cases as a thrown failure:
  - a snapshotted result that is not an object;
  - a first element of `versions` that is not an object.

  The answers of the transaction and the commit hook are not modelled. Neither is the asynchronous gap
  before `createVersion`.
- `History.CreateVersion` takes the time as a parameter for `new Date()`.
- `History.ExpirationDate` does not model floating-point arithmetic. A fractional retention value is out
  of the model's integer range.
- The purge job's overlapping runs and its cron scheduling are not modelled, beyond the rule string.
- `AllowedAttributes.SortStrings` orders by Unicode scalar value. JavaScript orders by UTF-16 code unit,
  which differs for characters outside the Basic Multilingual Plane.
- `AllowedAttributes.UseAllowedAttributes` pushes and sorts on a sequence value rather than an array in
  place. It leaves out several source behaviours:
  - a content type without `attributes` (where `Object.keys` throws);
  - `null` attribute descriptions;
  - a `fields` value that is not an array. The model reads it as no fields, where the source would throw
    or match substrings.
- `AllowedAttributes.ReadableFields` takes an array of permissions as its input. The RBAC matching
  itself (`findMatchingPermissions`) is left out.
- The code's own behaviour is modelled in these corner cases:
  - Without a licence value the window is `Math.min(undefined, 90)`, which is NaN. The purge then
    throws; there is no 90-day fallback.
  - A negative user retention value is truthy and below the licence's, so it is returned as it is,
    with no clamping at zero.
  - A user value of 0 is falsy, so it gives `Math.min(licence, 90)`, as any unset value does.
  - The middleware snapshots the document as the action returns it, after the mutation.
- `DocumentMetadata.GetStatus` on stored ISO-string timestamps: because `Millis` reads every string as
  an invalid date, such a draft with a published sibling is never `modified` and never `published` by the
  500 ms rule in the model. It keeps its own status. The source parses the strings and compares them.
