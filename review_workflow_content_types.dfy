/**
 * The review-workflow content-type service: when a workflow's content types
 * change, which content type uids were added and which were removed, and the
 * service calls `migrate` issues for each of them.
 *
 * The stage, workflow, configuration and entity services are collaborators:
 * `migrate` is modelled as the list of calls it makes, in order, and the
 * answers of the assigned-workflow lookups are an input.
 */
module ReviewWorkflowContentTypes {
  import opened Wrappers

  /** lodash `difference(xs, ys)`: every element of `xs` (every occurrence, in order) that is not in `ys`. */
  function Difference(xs: seq<string>, ys: seq<string>): seq<string> {
    if xs == [] then []
    else (if xs[0] in ys then [] else [xs[0]]) + Difference(xs[1..], ys)
  }

  /** `a` is `b` with some elements left out, the rest in their order. */
  predicate IsSubsequence(a: seq<string>, b: seq<string>) {
    if a == [] then true
    else if b == [] then false
    else if a[0] == b[0] then IsSubsequence(a[1..], b[1..])
    else IsSubsequence(a, b[1..])
  }

  /** `difference` keeps exactly the elements of `xs` missing from `ys`. */
  lemma {:induction false} DifferenceMembers(xs: seq<string>, ys: seq<string>)
    ensures forall x :: x in Difference(xs, ys) <==> x in xs && x !in ys
  {
    if xs != [] {
      DifferenceMembers(xs[1..], ys);
      assert forall x :: x in xs <==> x == xs[0] || x in xs[1..];
    }
  }

  /** `difference` keeps every occurrence of an element missing from `ys`, and none of the others. */
  lemma {:induction false} DifferenceCounts(xs: seq<string>, ys: seq<string>, x: string)
    ensures multiset(Difference(xs, ys))[x] == if x in ys then 0 else multiset(xs)[x]
  {
    if xs != [] {
      DifferenceCounts(xs[1..], ys, x);
      assert xs == [xs[0]] + xs[1..];
    }
  }

  /** `difference` keeps the order of `xs`. */
  lemma {:induction false} DifferenceInOrder(xs: seq<string>, ys: seq<string>)
    ensures IsSubsequence(Difference(xs, ys), xs)
  {
    if xs != [] {
      DifferenceInOrder(xs[1..], ys);
      var rest := Difference(xs[1..], ys);
      if xs[0] in ys {
        assert Difference(xs, ys) == rest;
        SubsequenceOfTail(rest, xs);
      } else {
        assert Difference(xs, ys) == [xs[0]] + rest;
        assert ([xs[0]] + rest)[1..] == rest;
      }
    }
  }

  /** A subsequence of the tail is a subsequence of the whole list. */
  lemma {:induction false} SubsequenceOfTail(a: seq<string>, b: seq<string>)
    requires b != [] && IsSubsequence(a, b[1..])
    ensures IsSubsequence(a, b)
  {
    if a != [] && a[0] == b[0] {
      // a is matched in b[1..]; the head of b matches a[0], and a[1..] is matched in b[1..] as well
      SubsequenceDropHead(a, b[1..]);
    }
  }

  /** Dropping the first element of a subsequence keeps it a subsequence. */
  lemma {:induction false} SubsequenceDropHead(a: seq<string>, b: seq<string>)
    requires a != [] && IsSubsequence(a, b)
    ensures IsSubsequence(a[1..], b)
  {
    assert b != [];
    if a[0] == b[0] {
      if a[1..] != [] {
        SubsequenceOfTail(a[1..], b);
      }
    } else {
      SubsequenceDropHead(a, b[1..]);
      if a[1..] != [] {
        SubsequenceOfTail(a[1..], b);
      }
    }
  }

  /** Nothing of `xs` is left out when `ys` is empty. */
  lemma {:induction false} DifferenceFromNothing(xs: seq<string>)
    ensures Difference(xs, []) == xs
  {
    if xs != [] {
      DifferenceFromNothing(xs[1..]);
      assert xs == [xs[0]] + xs[1..];
    }
  }

  datatype ContentTypesDiff = ContentTypesDiff(created: seq<string>, deleted: seq<string>)

  /** `diffContentTypes`: the uids added to the workflow and the uids removed from it. */
  function DiffContentTypes(src: seq<string>, dest: seq<string>): (d: ContentTypesDiff)
    ensures forall x :: x in d.created <==> x in dest && x !in src
    ensures forall x :: x in d.deleted <==> x in src && x !in dest
  {
    DifferenceMembers(dest, src);
    DifferenceMembers(src, dest);
    ContentTypesDiff(Difference(dest, src), Difference(src, dest))
  }

  /**
   * The added uids are exactly those of `dest` missing from `src`, the removed
   * ones exactly those of `src` missing from `dest`, each in its list's order;
   * no uid is both, and from an empty `src` everything in `dest` is added.
   */
  lemma DiffContentTypesMeaning(src: seq<string>, dest: seq<string>)
    ensures var d := DiffContentTypes(src, dest);
            && (forall x :: x in d.created <==> x in dest && x !in src)
            && (forall x :: x in d.deleted <==> x in src && x !in dest)
            && (forall x :: !(x in d.created && x in d.deleted))
            && IsSubsequence(d.created, dest) && IsSubsequence(d.deleted, src)
            && (src == [] ==> d.created == dest && d.deleted == [])
  {
    DifferenceMembers(dest, src);
    DifferenceMembers(src, dest);
    DifferenceInOrder(dest, src);
    DifferenceInOrder(src, dest);
    DifferenceFromNothing(dest);
  }

  /** Nothing is left when every element of `xs` is in `ys`. */
  lemma {:induction false} DifferenceOfCovered(xs: seq<string>, ys: seq<string>)
    requires forall x <- xs :: x in ys
    ensures Difference(xs, ys) == []
  {
    if xs != [] {
      assert forall x <- xs[1..] :: x in xs;
      DifferenceOfCovered(xs[1..], ys);
    }
  }

  /** The same content types before and after: nothing is created or deleted. */
  lemma DiffOfSameSets(src: seq<string>, dest: seq<string>)
    requires forall x :: x in src <==> x in dest
    ensures DiffContentTypes(src, dest) == ContentTypesDiff([], [])
  {
    DifferenceOfCovered(dest, src);
    DifferenceOfCovered(src, dest);
  }

  // ---------------------------------------------------------------------------
  // transferContentType and migrate
  // ---------------------------------------------------------------------------

  datatype Workflow = Workflow(id: int, contentTypes: seq<string>)

  /** Which entities an entity-stage update touches: all of them, or those with no stage (`fromStageId: null`). */
  datatype StageFilter = AnyStage | NoStage

  /** The collaborator calls `migrate` and `transferContentType` make. */
  datatype ServiceCall =
    | GetAssignedWorkflow(uid: string)
    | GetConfiguration(uid: string)
    // `updateConfiguration` with the current options merged with `{reviewWorkflows: enabled}`
    | SetReviewWorkflows(uid: string, enabled: bool)
    | UpdateEntitiesStage(uid: string, from: StageFilter, toStageId: int)
    | DeleteAllEntitiesStage(uid: string)
    | UpdateWorkflowContentTypes(workflowId: int, contentTypes: seq<string>)

  /**
   * `transferContentType`: rewrites the source workflow's content types
   * without `uid` (filtering out `uid` is `difference` with `[uid]`).
   */
  function TransferContentType(srcWorkflow: Workflow, uid: string): (call: ServiceCall)
    ensures call.UpdateWorkflowContentTypes? && call.workflowId == srcWorkflow.id
    ensures forall x :: x in call.contentTypes <==> x in srcWorkflow.contentTypes && x != uid
  {
    DifferenceMembers(srcWorkflow.contentTypes, [uid]);
    UpdateWorkflowContentTypes(srcWorkflow.id, Difference(srcWorkflow.contentTypes, [uid]))
  }

  /**
   * The transfer updates the source workflow, and its new content types are
   * the old ones, in order, with every occurrence of `uid` taken out.
   */
  lemma TransferContentTypeMeaning(srcWorkflow: Workflow, uid: string)
    ensures var call := TransferContentType(srcWorkflow, uid);
            && call.UpdateWorkflowContentTypes? && call.workflowId == srcWorkflow.id
            && (forall x :: x in call.contentTypes <==> x in srcWorkflow.contentTypes && x != uid)
            && multiset(call.contentTypes) == multiset(srcWorkflow.contentTypes)[uid := 0]
            && IsSubsequence(call.contentTypes, srcWorkflow.contentTypes)
  {
    var kept := Difference(srcWorkflow.contentTypes, [uid]);
    DifferenceMembers(srcWorkflow.contentTypes, [uid]);
    DifferenceInOrder(srcWorkflow.contentTypes, [uid]);
    forall x {
      DifferenceCounts(srcWorkflow.contentTypes, [uid], x);
    }
    assert multiset(kept) == multiset(srcWorkflow.contentTypes)[uid := 0];
  }

  /**
   * The calls for one added uid. `workflowOf` holds the answers of
   * `getAssignedWorkflow`: a uid already in a workflow has its entities moved
   * to the stage and is taken out of that workflow; any other uid gets review
   * workflows switched on and its stageless entities put in the stage.
   */
  function CreatedCalls(uid: string, stageId: int, workflowOf: map<string, Workflow>): seq<ServiceCall> {
    if uid in workflowOf then
      [GetAssignedWorkflow(uid), UpdateEntitiesStage(uid, AnyStage, stageId), TransferContentType(workflowOf[uid], uid)]
    else
      [GetAssignedWorkflow(uid), GetConfiguration(uid), SetReviewWorkflows(uid, true),
       UpdateEntitiesStage(uid, NoStage, stageId)]
  }

  /** The calls for one removed uid: review workflows switched off, all its entity stages deleted. */
  function DeletedCalls(uid: string): seq<ServiceCall> {
    [GetConfiguration(uid), SetReviewWorkflows(uid, false), DeleteAllEntitiesStage(uid)]
  }

  function CreatedPlan(uids: seq<string>, stageId: int, workflowOf: map<string, Workflow>): seq<ServiceCall> {
    if uids == [] then []
    else CreatedPlan(uids[..|uids| - 1], stageId, workflowOf) + CreatedCalls(uids[|uids| - 1], stageId, workflowOf)
  }

  function DeletedPlan(uids: seq<string>): seq<ServiceCall> {
    if uids == [] then [] else DeletedPlan(uids[..|uids| - 1]) + DeletedCalls(uids[|uids| - 1])
  }

  /** Every call `migrate` makes, in order: first for each added uid, then for each removed one. */
  function MigratePlan(src: Option<seq<string>>, dest: seq<string>, stageId: int,
                       workflowOf: map<string, Workflow>): seq<ServiceCall> {
    var d := DiffContentTypes(src.GetOr([]), dest);
    CreatedPlan(d.created, stageId, workflowOf) + DeletedPlan(d.deleted)
  }

  /** The first `mapAsync` of `migrate`: the calls for the added uids, one uid after the other. */
  method MigrateCreated(created: seq<string>, stageId: int, workflowOf: map<string, Workflow>)
    returns (calls: seq<ServiceCall>)
    ensures calls == CreatedPlan(created, stageId, workflowOf)
  {
    calls := [];
    for i := 0 to |created|
      invariant calls == CreatedPlan(created[..i], stageId, workflowOf)
    {
      var uid := created[i];
      var step := [GetAssignedWorkflow(uid)];
      if uid in workflowOf {
        var srcWorkflow := workflowOf[uid];
        step := step + [UpdateEntitiesStage(uid, AnyStage, stageId)];
        step := step + [TransferContentType(srcWorkflow, uid)];
      } else {
        step := step + [GetConfiguration(uid), SetReviewWorkflows(uid, true)];
        step := step + [UpdateEntitiesStage(uid, NoStage, stageId)];
      }
      assert step == CreatedCalls(uid, stageId, workflowOf);
      assert created[..i + 1][..i] == created[..i];
      calls := calls + step;
    }
    assert created[..|created|] == created;
  }

  /** The second `mapAsync` of `migrate`: the calls for the removed uids, one uid after the other. */
  method MigrateDeleted(deleted: seq<string>) returns (calls: seq<ServiceCall>)
    ensures calls == DeletedPlan(deleted)
  {
    calls := [];
    for i := 0 to |deleted|
      invariant calls == DeletedPlan(deleted[..i])
    {
      var uid := deleted[i];
      var step := [GetConfiguration(uid), SetReviewWorkflows(uid, false)];
      step := step + [DeleteAllEntitiesStage(uid)];
      assert deleted[..i + 1][..i] == deleted[..i];
      calls := calls + step;
    }
    assert deleted[..|deleted|] == deleted;
  }

  /** `migrate`. An omitted `srcContentTypes` (`None`) is the empty list. */
  method Migrate(srcContentTypes: Option<seq<string>>, destContentTypes: seq<string>, stageId: int,
                 workflowOf: map<string, Workflow>)
    returns (calls: seq<ServiceCall>)
    ensures calls == MigratePlan(srcContentTypes, destContentTypes, stageId, workflowOf)
  {
    var diff := DiffContentTypes(srcContentTypes.GetOr([]), destContentTypes);
    var createdCalls := MigrateCreated(diff.created, stageId, workflowOf);
    var deletedCalls := MigrateDeleted(diff.deleted);
    calls := createdCalls + deletedCalls;
  }

  /** A call is in the plan of the added uids exactly when it is in the calls of one of them. */
  lemma {:induction false} CreatedPlanMembers(uids: seq<string>, stageId: int, workflowOf: map<string, Workflow>, c: ServiceCall)
    ensures c in CreatedPlan(uids, stageId, workflowOf) <==> exists u <- uids :: c in CreatedCalls(u, stageId, workflowOf)
  {
    if uids != [] {
      var init := uids[..|uids| - 1];
      CreatedPlanMembers(init, stageId, workflowOf, c);
      assert forall u <- uids :: u in init || u == uids[|uids| - 1];
      assert forall u <- init :: u in uids;
    }
  }

  /** A call is in the plan of the removed uids exactly when it is in the calls of one of them. */
  lemma {:induction false} DeletedPlanMembers(uids: seq<string>, c: ServiceCall)
    ensures c in DeletedPlan(uids) <==> exists u <- uids :: c in DeletedCalls(u)
  {
    if uids != [] {
      var init := uids[..|uids| - 1];
      DeletedPlanMembers(init, c);
      assert forall u <- uids :: u in init || u == uids[|uids| - 1];
      assert forall u <- init :: u in uids;
    }
  }

  /** Which calls the steps for one uid contain. */
  lemma StepCallsFor(u: string, uid: string, stageId: int, workflowOf: map<string, Workflow>)
    ensures SetReviewWorkflows(uid, true) in CreatedCalls(u, stageId, workflowOf) <==> u == uid && uid !in workflowOf
    ensures UpdateEntitiesStage(uid, NoStage, stageId) in CreatedCalls(u, stageId, workflowOf) <==> u == uid && uid !in workflowOf
    ensures UpdateEntitiesStage(uid, AnyStage, stageId) in CreatedCalls(u, stageId, workflowOf) <==> u == uid && uid in workflowOf
    ensures SetReviewWorkflows(uid, false) !in CreatedCalls(u, stageId, workflowOf)
    ensures DeleteAllEntitiesStage(uid) !in CreatedCalls(u, stageId, workflowOf)
    ensures SetReviewWorkflows(uid, true) !in DeletedCalls(u)
    ensures UpdateEntitiesStage(uid, NoStage, stageId) !in DeletedCalls(u)
    ensures UpdateEntitiesStage(uid, AnyStage, stageId) !in DeletedCalls(u)
    ensures SetReviewWorkflows(uid, false) in DeletedCalls(u) <==> u == uid
    ensures DeleteAllEntitiesStage(uid) in DeletedCalls(u) <==> u == uid
  {
  }

  /** Review workflows are switched on for a uid exactly when it is added and was in no workflow. */
  lemma MigrateEnables(src: Option<seq<string>>, dest: seq<string>, stageId: int,
                       workflowOf: map<string, Workflow>, uid: string)
    ensures SetReviewWorkflows(uid, true) in MigratePlan(src, dest, stageId, workflowOf)
            <==> uid in dest && uid !in src.GetOr([]) && uid !in workflowOf
  {
    var c := SetReviewWorkflows(uid, true);
    var d := DiffContentTypes(src.GetOr([]), dest);
    DiffContentTypesMeaning(src.GetOr([]), dest);
    CreatedPlanMembers(d.created, stageId, workflowOf, c);
    DeletedPlanMembers(d.deleted, c);
    forall u { StepCallsFor(u, uid, stageId, workflowOf); }
  }

  /** Review workflows are switched off for a uid exactly when it is removed. */
  lemma MigrateDisables(src: Option<seq<string>>, dest: seq<string>, stageId: int,
                        workflowOf: map<string, Workflow>, uid: string)
    ensures SetReviewWorkflows(uid, false) in MigratePlan(src, dest, stageId, workflowOf)
            <==> uid in src.GetOr([]) && uid !in dest
  {
    var c := SetReviewWorkflows(uid, false);
    var d := DiffContentTypes(src.GetOr([]), dest);
    DiffContentTypesMeaning(src.GetOr([]), dest);
    CreatedPlanMembers(d.created, stageId, workflowOf, c);
    DeletedPlanMembers(d.deleted, c);
    forall u { StepCallsFor(u, uid, stageId, workflowOf); }
  }

  /** All entity stages of a uid are deleted exactly when it is removed. */
  lemma MigrateClearsStages(src: Option<seq<string>>, dest: seq<string>, stageId: int,
                            workflowOf: map<string, Workflow>, uid: string)
    ensures DeleteAllEntitiesStage(uid) in MigratePlan(src, dest, stageId, workflowOf)
            <==> uid in src.GetOr([]) && uid !in dest
  {
    var c := DeleteAllEntitiesStage(uid);
    var d := DiffContentTypes(src.GetOr([]), dest);
    DiffContentTypesMeaning(src.GetOr([]), dest);
    CreatedPlanMembers(d.created, stageId, workflowOf, c);
    DeletedPlanMembers(d.deleted, c);
    forall u { StepCallsFor(u, uid, stageId, workflowOf); }
  }

  /** All entities of an added uid move to the new stage exactly when the uid was in another workflow. */
  lemma MigrateMovesAllEntities(src: Option<seq<string>>, dest: seq<string>, stageId: int,
                                workflowOf: map<string, Workflow>, uid: string)
    ensures UpdateEntitiesStage(uid, AnyStage, stageId) in MigratePlan(src, dest, stageId, workflowOf)
            <==> uid in dest && uid !in src.GetOr([]) && uid in workflowOf
  {
    var c := UpdateEntitiesStage(uid, AnyStage, stageId);
    var d := DiffContentTypes(src.GetOr([]), dest);
    DiffContentTypesMeaning(src.GetOr([]), dest);
    CreatedPlanMembers(d.created, stageId, workflowOf, c);
    DeletedPlanMembers(d.deleted, c);
    forall u { StepCallsFor(u, uid, stageId, workflowOf); }
  }

  /** Only the stageless entities of an added uid move to the new stage exactly when the uid was in no workflow. */
  lemma MigrateMovesStagelessEntities(src: Option<seq<string>>, dest: seq<string>, stageId: int,
                                      workflowOf: map<string, Workflow>, uid: string)
    ensures UpdateEntitiesStage(uid, NoStage, stageId) in MigratePlan(src, dest, stageId, workflowOf)
            <==> uid in dest && uid !in src.GetOr([]) && uid !in workflowOf
  {
    var c := UpdateEntitiesStage(uid, NoStage, stageId);
    var d := DiffContentTypes(src.GetOr([]), dest);
    DiffContentTypesMeaning(src.GetOr([]), dest);
    CreatedPlanMembers(d.created, stageId, workflowOf, c);
    DeletedPlanMembers(d.deleted, c);
    forall u { StepCallsFor(u, uid, stageId, workflowOf); }
  }

  /** An added uid already in a workflow has its entities moved before it is taken out of that workflow. */
  lemma TransferAfterStageMove(uid: string, stageId: int, workflowOf: map<string, Workflow>)
    requires uid in workflowOf
    ensures var calls := CreatedCalls(uid, stageId, workflowOf);
            && calls[1] == UpdateEntitiesStage(uid, AnyStage, stageId)
            && calls[2] == TransferContentType(workflowOf[uid], uid)
            && calls[2].workflowId == workflowOf[uid].id
            && uid !in calls[2].contentTypes
  {
    TransferContentTypeMeaning(workflowOf[uid], uid);
  }

  /** When the workflow keeps the same content types, `migrate` calls nothing. */
  lemma MigrateSameSetsCallsNothing(src: seq<string>, dest: seq<string>, stageId: int, workflowOf: map<string, Workflow>)
    requires forall x :: x in src <==> x in dest
    ensures MigratePlan(Some(src), dest, stageId, workflowOf) == []
  {
    DiffOfSameSets(src, dest);
  }
}
