/**
 * The content history service: the retention window, the lifecycle of the
 * service (`bootstrap` registers a document middleware once and schedules
 * the daily purge job, `destroy` cancels that job), the middleware that
 * snapshots mutated documents after the enclosing transaction commits, the
 * purge itself, the stored record, and the paginated listing of snapshots.
 *
 * The document service, the scheduler, the store, the request context and
 * the clock are collaborators: what they answer is passed in, and what is
 * asked of them is recorded.
 */
module History {
  import opened Wrappers
  import opened JsValues
  import DocumentMetadata

  const DefaultRetentionDays: int := 90
  const MillisecondsPerDay: int := 24 * 60 * 60 * 1000

  /** The cron rule of the purge job: every day at midnight. */
  const DeleteExpiredRule: string := "0 0 * * *"

  /** The document actions that produce a snapshot. */
  const SnapshotActions: set<string> := {"create", "update", "publish", "unpublish", "discardDraft", "clone"}

  /** Keys left out of a snapshot's data and schema. */
  const FieldsToIgnore: set<string> :=
    {"createdAt", "updatedAt", "publishedAt", "createdBy", "updatedBy", "locale", "strapi_stage", "strapi_assignee"}

  /** The creator keys a listed snapshot exposes. */
  const CreatorFields: set<string> := {"id", "firstname", "lastname", "username", "email"}

  // ---------------------------------------------------------------------------
  // Retention window
  // ---------------------------------------------------------------------------

  /**
   * `getRetentionDays`. `license` is the licence's retention option and
   * `user` the configured `admin.history.retentionDays`; `None` is
   * `undefined`, and a `None` result is NaN.
   */
  function RetentionDays(license: Option<int>, user: Option<int>): (r: Option<int>)
    // the user's value wins exactly when it is set, non-zero and below the licence's
    ensures (user.Some? && user.value != 0 && license.Some? && user.value < license.value) ==> r == user
    // otherwise the licence's value capped at 90 days, even if the user asked for more than that
    ensures !(user.Some? && user.value != 0 && license.Some? && user.value < license.value) ==>
              r == if license.Some? then Some(if license.value < DefaultRetentionDays then license.value
                                              else DefaultRetentionDays)
                   else None
    // the result never exceeds the licence's value, and is NaN exactly without a licence value
    ensures r.None? <==> license.None?
    ensures r.Some? ==> r.value <= license.value
  {
    if user.Some? && user.value != 0 && license.Some? && user.value < license.value then
      user
    else if license.Some? then
      Some(if license.value < DefaultRetentionDays then license.value else DefaultRetentionDays)
    else
      None
  }

  /**
   * A user value at or above the licence's, or a user value of 0, does not
   * give the licence's value: it gives the licence's value capped at 90 days.
   */
  lemma RetentionAboveLicenseGivesDefault(license: int, user: int)
    requires user >= license || user == 0
    ensures RetentionDays(Some(license), Some(user)) == Some(if license < DefaultRetentionDays then license else DefaultRetentionDays)
  {
  }

  /** Examples: a licence of 365 days caps a larger user value at 90, and a smaller one wins. */
  lemma RetentionExamples()
    ensures RetentionDays(Some(365), Some(400)) == Some(90)
    ensures RetentionDays(Some(365), Some(0)) == Some(90)
    ensures RetentionDays(Some(365), Some(180)) == Some(180)
    ensures RetentionDays(Some(30), Some(50)) == Some(30)
    ensures RetentionDays(Some(30), None) == Some(30)
  {
  }

  // ---------------------------------------------------------------------------
  // Service lifecycle
  // ---------------------------------------------------------------------------

  /** A job handed to the scheduler: its cron rule and the retention window it captured. */
  datatype Job = Job(rule: string, retentionDays: Option<int>)

  /**
   * One history service with its `state` record. The last three fields record
   * what the service asked of its collaborators: the middlewares it added to
   * the document service, the jobs it scheduled and the `cancel()` calls it
   * issued.
   */
  class HistoryService {
    var isInitialized: bool
    var deleteExpiredJob: Option<Job>
    var registeredMiddlewares: nat
    var scheduledJobs: seq<Job>
    var cancelledJobs: seq<Job>

    constructor ()
      ensures !isInitialized && deleteExpiredJob.None?
      ensures registeredMiddlewares == 0 && scheduledJobs == [] && cancelledJobs == []
    {
      isInitialized := false;
      deleteExpiredJob := None;
      registeredMiddlewares := 0;
      scheduledJobs := [];
      cancelledJobs := [];
    }

    /**
     * `bootstrap`: the first call registers the snapshot middleware and
     * schedules the purge job with the retention window of that moment; any
     * later call does nothing.
     */
    method Bootstrap(licenseRetentionDays: Option<int>, userRetentionDays: Option<int>)
      modifies this
      ensures old(isInitialized) ==>
                && isInitialized && deleteExpiredJob == old(deleteExpiredJob)
                && registeredMiddlewares == old(registeredMiddlewares)
                && scheduledJobs == old(scheduledJobs) && cancelledJobs == old(cancelledJobs)
      ensures !old(isInitialized) ==>
                var job := Job(DeleteExpiredRule, RetentionDays(licenseRetentionDays, userRetentionDays));
                && isInitialized && deleteExpiredJob == Some(job)
                && registeredMiddlewares == old(registeredMiddlewares) + 1
                && scheduledJobs == old(scheduledJobs) + [job] && cancelledJobs == old(cancelledJobs)
    {
      if isInitialized {
        return;
      }
      registeredMiddlewares := registeredMiddlewares + 1;
      var retentionDays := RetentionDays(licenseRetentionDays, userRetentionDays);
      var job := Job(DeleteExpiredRule, retentionDays);
      scheduledJobs := scheduledJobs + [job];
      deleteExpiredJob := Some(job);
      isInitialized := true;
    }

    /**
     * `destroy`: cancels the purge job if there is one. It does not forget the
     * job and does not reset `isInitialized`, so a later `bootstrap` stays a
     * no-op.
     */
    method Destroy()
      modifies this
      ensures isInitialized == old(isInitialized) && deleteExpiredJob == old(deleteExpiredJob)
      ensures registeredMiddlewares == old(registeredMiddlewares) && scheduledJobs == old(scheduledJobs)
      ensures cancelledJobs == old(cancelledJobs) + ToSeq(old(deleteExpiredJob))
    {
      if deleteExpiredJob.Some? {
        cancelledJobs := cancelledJobs + [deleteExpiredJob.value];
      }
    }
  }

  /** Bootstrapping twice, with a `destroy` in between or not, registers one middleware and one job. */
  method BootstrapTwice(license: Option<int>, user: Option<int>, destroyBetween: bool)
    returns (service: HistoryService)
    ensures fresh(service)
    ensures service.isInitialized && service.registeredMiddlewares == 1
    ensures service.scheduledJobs == [Job(DeleteExpiredRule, RetentionDays(license, user))]
    ensures service.cancelledJobs == if destroyBetween then service.scheduledJobs else []
  {
    service := new HistoryService();
    service.Bootstrap(license, user);
    if destroyBetween {
      service.Destroy();
    }
    service.Bootstrap(license, user);
  }

  /** `destroy` before any `bootstrap` cancels nothing and changes nothing. */
  method DestroyBeforeBootstrap() returns (service: HistoryService)
    ensures fresh(service)
    ensures !service.isInitialized && service.deleteExpiredJob.None?
    ensures service.cancelledJobs == [] && service.scheduledJobs == [] && service.registeredMiddlewares == 0
  {
    service := new HistoryService();
    service.Destroy();
  }

  // ---------------------------------------------------------------------------
  // The purge job
  // ---------------------------------------------------------------------------

  /** A stored snapshot (a history version), as `createVersion` writes it. */
  datatype HistoryVersion = HistoryVersion(payload: VersionPayload, createdAt: int, createdBy: Option<Value>)

  /**
   * `new Date(now - days * 86400000)`: `None` when the date is invalid (NaN
   * days, or out of the Date range), for which `toISOString` throws.
   */
  function ExpirationDate(now: int, retentionDays: Option<int>): (cutoff: Option<int>)
    ensures cutoff.Some? <==>
              retentionDays.Some? && -MaxDateMillis <= now - retentionDays.value * MillisecondsPerDay <= MaxDateMillis
    ensures cutoff.Some? ==> cutoff.value + retentionDays.value * 86_400_000 == now
  {
    match retentionDays
    case None => None
    case Some(days) =>
      var t := now - days * MillisecondsPerDay;
      if -MaxDateMillis <= t <= MaxDateMillis then Some(t) else None
  }

  /** The snapshots `deleteMany({created_at: {$lt: cutoff}})` leaves. */
  function KeepUnexpired(store: seq<HistoryVersion>, cutoff: int): (kept: seq<HistoryVersion>)
    ensures forall h :: h in kept <==> h in store && h.createdAt >= cutoff
    ensures |kept| <= |store|
  {
    if store == [] then []
    else
      assert forall h <- store :: h == store[0] || h in store[1..];
      (if store[0].createdAt < cutoff then [] else [store[0]]) + KeepUnexpired(store[1..], cutoff)
  }

  /**
   * One run of the purge job at time `now`: `None` when the job throws before
   * deleting (an invalid expiration date).
   */
  function RunDeleteExpired(job: Job, now: int, store: seq<HistoryVersion>): (r: Option<seq<HistoryVersion>>)
    ensures r.None? <==> ExpirationDate(now, job.retentionDays).None?
    ensures r.Some? ==> r.value == KeepUnexpired(store, now - job.retentionDays.value * 86_400_000)
  {
    match ExpirationDate(now, job.retentionDays)
    case None => None
    case Some(cutoff) => Some(KeepUnexpired(store, cutoff))
  }

  /** The purge deletes exactly the snapshots strictly older than the window. */
  lemma PurgeDeletesExactlyExpired(job: Job, now: int, store: seq<HistoryVersion>, h: HistoryVersion)
    requires RunDeleteExpired(job, now, store).Some?
    requires h in store
    ensures h !in RunDeleteExpired(job, now, store).value <==>
              h.createdAt < now - job.retentionDays.value * MillisecondsPerDay
  {
  }

  // ---------------------------------------------------------------------------
  // The snapshot middleware
  // ---------------------------------------------------------------------------

  /** `requestContext.get()`: the request URL and the authenticated state, if any. */
  datatype RequestContext = RequestContext(url: string, state: Option<RequestState>)

  /** `ctx.state`: `user` is `None` when no user is attached. */
  datatype RequestState = RequestState(user: Option<Row>)

  /** What the middleware sees of one document action. */
  datatype DocumentAction = DocumentAction(action: string, contentTypeUid: string)

  /** How a call ends: with a value, or by throwing. */
  datatype Outcome = Returned(value: Value) | Threw

  /** The argument of `createVersion`. */
  datatype VersionPayload = VersionPayload(
    contentType: string,
    data: Row,
    schema: Row,
    relatedDocumentId: Option<Value>,
    locale: Value,
    status: DocumentMetadata.Status)

  /** What the middleware asks of its collaborators, in order. */
  datatype Effect =
    | CallNext                                // runs the document action itself
    | ReadMetadata(documentId: Option<Value>) // the metadata query behind the status
    | OpenTransaction
    | RegisterOnCommit(payload: VersionPayload) // `createVersion(payload)` once the transaction commits

  datatype MiddlewareRun = MiddlewareRun(effects: seq<Effect>, outcome: Outcome)

  /**
   * What the middleware's collaborators answer: the stored versions of the
   * snapshotted document (the metadata query), the content type's
   * attributes and the default locale.
   */
  datatype SnapshotInputs = SnapshotInputs(versions: seq<Row>, attributes: Row, defaultLocale: Value)

  /**
   * Whether the middleware snapshots this action: a content-manager request,
   * a mutating action and a user-defined content type. Without a request
   * context (`None`) it does not.
   */
  predicate ShouldSnapshot(ctx: Option<RequestContext>, act: DocumentAction) {
    && ctx.Some? && StartsWith(ctx.value.url, "/content-manager")
    && act.action in SnapshotActions
    && StartsWith(act.contentTypeUid, "api::")
  }

  /**
   * The document a snapshot is taken of: the action's result for create and
   * update, otherwise `result.versions[0]`. `None` when that is not an object
   * (the source then throws reading its fields).
   */
  function SnapshotSource(action: string, result: Value): (data: Option<Row>)
    ensures (action == "create" || action == "update") ==>
              data == if result.Obj? then Some(result.fields) else None
    ensures action != "create" && action != "update" && data.Some? ==>
              result.Obj? && "versions" in result.fields && result.fields["versions"].Arr?
              && |result.fields["versions"].items| > 0
              && result.fields["versions"].items[0] == Obj(data.value)
    // and a well-formed first version is what is snapshotted
    ensures action != "create" && action != "update" && result.Obj? && "versions" in result.fields
            && result.fields["versions"].Arr? && |result.fields["versions"].items| > 0
            && result.fields["versions"].items[0].Obj? ==>
              data == Some(result.fields["versions"].items[0].fields)
  {
    if action == "create" || action == "update" then
      if result.Obj? then Some(result.fields) else None
    else if result.Obj? && "versions" in result.fields then
      match result.fields["versions"]
      case Arr(items) => if |items| > 0 && items[0].Obj? then Some(items[0].fields) else None
      case _ => None
    else
      None
  }

  /**
   * The snapshot payload of `data`: its data and the content type's schema
   * without the ignored keys, and its locale, or the default locale when it
   * has none.
   */
  function SnapshotPayload(uid: string, data: Row, attributes: Row, defaultLocale: Value,
                           status: DocumentMetadata.Status): (p: VersionPayload)
    ensures p.data.Keys == data.Keys - FieldsToIgnore && p.schema.Keys == attributes.Keys - FieldsToIgnore
    ensures forall k <- p.data :: p.data[k] == data[k]
    ensures forall k <- p.schema :: p.schema[k] == attributes[k]
    ensures p.locale == if IsNullish(Get(data, "locale")) then defaultLocale else data["locale"]
    ensures p.relatedDocumentId == Get(data, "documentId") && p.contentType == uid && p.status == status
  {
    VersionPayload(
      uid,
      Omit(data, FieldsToIgnore),
      Omit(attributes, FieldsToIgnore),
      Get(data, "documentId"),
      if IsNullish(Get(data, "locale")) then defaultLocale else data["locale"],
      status)
  }

  /**
   * `getVersionStatus`: the status of `data` against the available status the
   * metadata service finds among its stored versions.
   */
  method VersionStatus(data: Row, inputs: SnapshotInputs, validatableFields: seq<string>, hasDraftAndPublish: bool)
    returns (status: DocumentMetadata.Status)
    ensures status == DocumentMetadata.GetStatus(data, ToSeq(DocumentMetadata.GetAvailableStatus(data, inputs.versions)))
    ensures !DocumentMetadata.IsDraft(data) ==> status == DocumentMetadata.Published
  {
    var meta := DocumentMetadata.GetMetadata(data, inputs.versions, validatableFields, hasDraftAndPublish, None, None);
    status := DocumentMetadata.GetStatus(data, meta.availableStatus);
  }

  /**
   * The document middleware. `next` is the document action; how it ends is
   * `nextOutcome`. Passed-through actions call `next` and return what it
   * returns; snapshotted ones first run `next`, then compute the status and
   * register the snapshot for after the commit, and return `next`'s result.
   */
  method Middleware(ctx: Option<RequestContext>, act: DocumentAction, nextOutcome: Outcome,
                    inputs: SnapshotInputs, validatableFields: seq<string>, hasDraftAndPublish: bool)
    returns (run: MiddlewareRun)
    // next runs exactly once, before anything else
    ensures |run.effects| >= 1 && run.effects[0] == CallNext
    ensures forall i :: 0 < i < |run.effects| ==> run.effects[i] != CallNext
    // whenever the middleware returns, it returns what next returned; a failure of next propagates
    ensures run.outcome.Returned? ==> run.outcome == nextOutcome
    ensures nextOutcome.Threw? ==> run == MiddlewareRun([CallNext], Threw)
    ensures !ShouldSnapshot(ctx, act) ==> run == MiddlewareRun([CallNext], nextOutcome)
    // a snapshotted action whose result cannot be read fails after next has returned
    ensures ShouldSnapshot(ctx, act) && nextOutcome.Returned? && SnapshotSource(act.action, nextOutcome.value).None? ==>
              run == MiddlewareRun([CallNext], Threw)
    // a snapshot is registered exactly when the action is snapshotted and its document readable
    ensures !(ShouldSnapshot(ctx, act) && nextOutcome.Returned? && SnapshotSource(act.action, nextOutcome.value).Some?) ==>
              forall i :: 0 <= i < |run.effects| ==> !run.effects[i].RegisterOnCommit?
    ensures ShouldSnapshot(ctx, act) && nextOutcome.Returned? && SnapshotSource(act.action, nextOutcome.value).Some? ==>
              var data := SnapshotSource(act.action, nextOutcome.value).value;
              var status := DocumentMetadata.GetStatus(data, ToSeq(DocumentMetadata.GetAvailableStatus(data, inputs.versions)));
              run == MiddlewareRun(
                       [CallNext, ReadMetadata(Get(data, "documentId")), OpenTransaction,
                        RegisterOnCommit(SnapshotPayload(act.contentTypeUid, data, inputs.attributes,
                                                         inputs.defaultLocale, status))],
                       nextOutcome)
  {
    if !ShouldSnapshot(ctx, act) {
      return MiddlewareRun([CallNext], nextOutcome);
    }
    // the document action runs first
    if nextOutcome.Threw? {
      return MiddlewareRun([CallNext], Threw);
    }
    var data := SnapshotSource(act.action, nextOutcome.value);
    if data.None? {
      return MiddlewareRun([CallNext], Threw);
    }
    // then the status is computed from the stored versions
    var status := VersionStatus(data.value, inputs, validatableFields, hasDraftAndPublish);
    // and the snapshot is registered to run once the transaction commits
    var payload := SnapshotPayload(act.contentTypeUid, data.value, inputs.attributes, inputs.defaultLocale, status);
    run := MiddlewareRun([CallNext, ReadMetadata(Get(data.value, "documentId")), OpenTransaction,
                          RegisterOnCommit(payload)],
                         nextOutcome);
  }

  /**
   * `createVersion`: the stored record, stamped with the time and the
   * requesting user's id. `None` when the request state has no user, where
   * the source throws reading `user.id`.
   */
  function CreateVersion(payload: VersionPayload, now: int, ctx: Option<RequestContext>): (r: Option<HistoryVersion>)
    ensures r.None? <==> ctx.Some? && ctx.value.state.Some? && ctx.value.state.value.user.None?
    ensures r.Some? ==> r.value.payload == payload && r.value.createdAt == now
    ensures r.Some? && (ctx.None? || ctx.value.state.None?) ==> r.value.createdBy.None?
    ensures r.Some? && ctx.Some? && ctx.value.state.Some? ==>
              r.value.createdBy == Get(ctx.value.state.value.user.value, "id")
  {
    match ctx
    case None => Some(HistoryVersion(payload, now, None))
    case Some(c) =>
      match c.state
      case None => Some(HistoryVersion(payload, now, None))
      case Some(st) =>
        match st.user
        case None => None
        case Some(user) => Some(HistoryVersion(payload, now, Get(user, "id")))
  }

  // ---------------------------------------------------------------------------
  // Locale dictionary and listing
  // ---------------------------------------------------------------------------

  /** A locale as the i18n locales service lists it. */
  datatype Locale = Locale(code: string, name: string)

  /** The dictionary's value for a locale code. */
  function LocaleValue(l: Locale): Value {
    Obj(map["name" := Str(l.name), "code" := Str(l.code)])
  }

  /** The dictionary the reduce builds: each locale in turn sets the entry of its code. */
  function LocaleDictionary(locales: seq<Locale>): map<string, Value> {
    if locales == [] then map[]
    else LocaleDictionary(locales[..|locales| - 1])[locales[|locales| - 1].code := LocaleValue(locales[|locales| - 1])]
  }

  /** The dictionary's codes are exactly the locales' codes. */
  lemma {:induction false} LocaleDictionaryCodes(locales: seq<Locale>)
    ensures forall c :: c in LocaleDictionary(locales) <==> exists l <- locales :: l.code == c
  {
    if locales != [] {
      var init := locales[..|locales| - 1];
      LocaleDictionaryCodes(init);
      assert forall l <- locales :: l in init || l == locales[|locales| - 1];
      assert forall l <- init :: l in locales;
    }
  }

  /** Later locales overwrite earlier ones: the last locale with a code gives the entry of that code. */
  lemma {:induction false} LocaleDictionaryLastWins(locales: seq<Locale>, i: int)
    requires 0 <= i < |locales|
    requires forall j :: i < j < |locales| ==> locales[j].code != locales[i].code
    ensures locales[i].code in LocaleDictionary(locales)
    ensures LocaleDictionary(locales)[locales[i].code] == LocaleValue(locales[i])
  {
    var n := |locales| - 1;
    if i < n {
      var init := locales[..n];
      assert forall j :: i < j < |init| ==> init[j] == locales[j];
      LocaleDictionaryLastWins(init, i);
    }
  }

  /**
   * `getLocaleDictionary`: `found` is what the locales service returns
   * (`None` for a missing answer, read as no locales).
   */
  method GetLocaleDictionary(found: Option<seq<Locale>>) returns (dict: map<string, Value>)
    ensures dict == LocaleDictionary(found.GetOr([]))
  {
    var locales := found.GetOr([]);
    dict := map[];
    for i := 0 to |locales|
      invariant dict == LocaleDictionary(locales[..i])
    {
      assert locales[..i + 1][..i] == locales[..i];
      dict := dict[locales[i].code := LocaleValue(locales[i])];
    }
    assert locales[..|locales|] == locales;
  }

  /** The query parameters of the listing; `None` is an absent parameter. */
  datatype VersionsPageParams = VersionsPageParams(
    contentType: Option<string>,
    documentId: Option<string>,
    locale: Option<string>,
    page: Option<int>,
    pageSize: Option<int>)

  /** One condition of the listing's `$and` where clause. */
  datatype Condition =
    | ContentTypeIs(contentType: Option<string>)
    | RelatedDocumentIs(documentId: string)
    | LocaleIs(locale: string)

  /** The `findPage` query; the parameters are passed through. */
  datatype PageQuery = PageQuery(params: VersionsPageParams, where: seq<Condition>,
                                 populate: seq<string>, orderBy: seq<(string, string)>)

  predicate IsSetParam(p: Option<string>) {
    p.Some? && p.value != ""
  }

  /**
   * The listing's query: always on the content type, on the document and
   * the locale only when those parameters are set; creators populated,
   * newest first.
   */
  function VersionsPageQuery(params: VersionsPageParams): (q: PageQuery)
    ensures |q.where| >= 1 && q.where[0] == ContentTypeIs(params.contentType)
    ensures forall d :: RelatedDocumentIs(d) in q.where <==> IsSetParam(params.documentId) && d == params.documentId.value
    ensures forall l :: LocaleIs(l) in q.where <==> IsSetParam(params.locale) && l == params.locale.value
    ensures |q.where| == 1 + (if IsSetParam(params.documentId) then 1 else 0) + (if IsSetParam(params.locale) then 1 else 0)
    ensures q.params == params && q.populate == ["createdBy"] && q.orderBy == [("createdAt", "desc")]
  {
    var byDocument := if IsSetParam(params.documentId) then [RelatedDocumentIs(params.documentId.value)] else [];
    var byLocale := if IsSetParam(params.locale) then [LocaleIs(params.locale.value)] else [];
    PageQuery(params, [ContentTypeIs(params.contentType)] + byDocument + byLocale,
              ["createdBy"], [("createdAt", "desc")])
  }

  /**
   * One listed snapshot: its locale replaced by the dictionary entry (`null`
   * when it has none; removed, that is `undefined`, when the dictionary
   * lacks its code) and its creator reduced to the public creator keys.
   */
  function SanitizeResult(result: Row, dict: map<string, Value>): (s: Row)
    ensures forall k <- result :: k != "locale" && k != "createdBy" ==> k in s && s[k] == result[k]
    ensures s.Keys <= result.Keys + {"locale", "createdBy"}
    ensures !Truthy(Get(result, "locale")) ==> Get(s, "locale") == Some(Null)
    ensures Truthy(Get(result, "locale")) ==>
              Get(s, "locale") == if result["locale"].Str? && result["locale"].s in dict
                                  then Some(dict[result["locale"].s]) else None
    ensures !Truthy(Get(result, "createdBy")) ==> Get(s, "createdBy") == Some(Null)
    ensures Truthy(Get(result, "createdBy")) ==>
              "createdBy" in s && s["createdBy"].Obj? && s["createdBy"].fields.Keys <= CreatorFields
    ensures "createdBy" in result && result["createdBy"].Obj? ==>
              s["createdBy"] == Obj(Project(result["createdBy"].fields, CreatorFields))
  {
    var locale := Get(result, "locale");
    var withLocale :=
      if !Truthy(locale) then result["locale" := Null]
      else if locale.value.Str? && locale.value.s in dict then result["locale" := dict[locale.value.s]]
      else result - {"locale"};
    var createdBy := Get(result, "createdBy");
    withLocale["createdBy" :=
      if !Truthy(createdBy) then Null
      else if createdBy.value.Obj? then Obj(Project(createdBy.value.fields, CreatorFields))
      else Obj(map[])]
  }

  /** What `findPage` answers: one page of stored snapshots and its pagination. */
  datatype StorePage = StorePage(results: seq<Row>, pagination: Value)

  datatype VersionsPage = VersionsPage(results: seq<Row>, pagination: Value)

  /**
   * `findVersionsPage`: the query it sends, and the page built from the
   * store's answer `page` and the locales service's answer `locales`.
   */
  method FindVersionsPage(params: VersionsPageParams, page: StorePage, locales: Option<seq<Locale>>)
    returns (query: PageQuery, response: VersionsPage)
    ensures query == VersionsPageQuery(params)
    ensures response.pagination == page.pagination
    ensures |response.results| == |page.results|
    ensures forall i :: 0 <= i < |page.results| ==>
              response.results[i] == SanitizeResult(page.results[i], LocaleDictionary(locales.GetOr([])))
  {
    query := VersionsPageQuery(params);
    var dict := GetLocaleDictionary(locales);
    var results := seq(|page.results|, i requires 0 <= i < |page.results| => SanitizeResult(page.results[i], dict));
    response := VersionsPage(results, page.pagination);
  }
}
