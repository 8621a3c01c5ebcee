/** Which repositories one workspace query may see. */
module Authorization {
  import opened Collections
  import opened Texts
  import opened Wrappers

  datatype Scope = Full | Filtered

  datatype Grant = Grant(principal: string, workspaceId: string, scope: Scope, repositoryIds: seq<string>)

  datatype Generation = Generation(workspaceId: string, generationId: string, state: string, repositoryIds: seq<string>)

  datatype Authorization = Authorization(workspaceId: string, generationId: string, repoIds: set<string>, isFull: bool)

  datatype Failure = NotFound | Forbidden | Conflict

  datatype Refusal = InvalidArgument | Refused(failure: Failure)

  /** The persistence reads; each is a function because a generation is frozen. */
  datatype Registry = Registry(
    grant: (string, string) -> Option<Grant>,
    workspaceExists: string -> bool,
    active: string -> Option<string>,
    generation: (string, string) -> Option<Generation>)

  ghost predicate ValidRepositoryIds(ids: seq<string>) {
    Distinct(ids) && forall r :: r in ids ==> Nonblank(r)
  }

  ghost predicate ValidGrant(g: Grant) {
    && Nonblank(g.principal) && Nonblank(g.workspaceId) && ValidRepositoryIds(g.repositoryIds)
    && (g.scope.Full? <==> g.repositoryIds == [])
  }

  ghost predicate ValidGeneration(g: Generation) {
    && Nonblank(g.workspaceId) && Nonblank(g.generationId) && Nonblank(g.state)
    && ValidRepositoryIds(g.repositoryIds) && g.repositoryIds != []
  }

  /** Everything read was built by the validating constructors. */
  ghost predicate Trusted(r: Registry) {
    && (forall p, w :: r.grant(p, w).Some? ==> ValidGrant(r.grant(p, w).value))
    && (forall w, g :: r.generation(w, g).Some? ==> ValidGeneration(r.generation(w, g).value))
  }

  /** What the constructors of the authorization and its repository set demand. */
  ghost predicate ValidAuthorization(a: Authorization) {
    && Nonblank(a.workspaceId) && Nonblank(a.generationId)
    && a.repoIds != {} && forall r :: r in a.repoIds ==> Nonblank(r)
  }

  function ToSet(ids: seq<string>): set<string> { set r | r in ids }

  predicate Granted(r: Registry, principal: string, workspaceId: string) {
    var g := r.grant(principal, workspaceId);
    g.Some? && g.value.principal == principal && g.value.workspaceId == workspaceId
  }

  function Authorize(r: Registry, principal: string, workspaceId: string, generationId: Option<string>)
    : Result<Authorization, Refusal>
  {
    if !Nonblank(workspaceId) || (generationId.Some? && !Nonblank(generationId.value)) then Err(InvalidArgument)
    else if !Granted(r, principal, workspaceId) then Err(Refused(Forbidden))
    else if !r.workspaceExists(workspaceId) then Err(Refused(NotFound))
    else
      var active := r.active(workspaceId);
      if active.None? then Err(Refused(Conflict))
      else
        var resolved := if generationId.Some? then generationId.value else active.value;
        var generation := r.generation(workspaceId, resolved);
        if generation.None? || generation.value.workspaceId != workspaceId
           || generation.value.generationId != resolved || generation.value.state != "active"
           || resolved != active.value
        then Err(Refused(Conflict))
        else
          var grant := r.grant(principal, workspaceId).value;
          var frozen := ToSet(generation.value.repositoryIds);
          if grant.scope.Full? then Ok(Authorization(workspaceId, resolved, frozen, true))
          else if !(ToSet(grant.repositoryIds) <= frozen) then Err(Refused(Conflict))
          else Ok(Authorization(workspaceId, resolved, ToSet(grant.repositoryIds), false))
  }

  /**
   An authorization is for the active generation, names only repositories frozen in it, and,
   when the grant is filtered, only repositories of the grant; its constructors accept it.
   */
  lemma AuthorizedScope(r: Registry, principal: string, workspaceId: string, generationId: Option<string>)
    requires Trusted(r) && Authorize(r, principal, workspaceId, generationId).Ok?
    ensures var a := Authorize(r, principal, workspaceId, generationId).value;
            var grant := r.grant(principal, workspaceId);
            var generation := r.generation(workspaceId, a.generationId);
            && ValidAuthorization(a) && a.workspaceId == workspaceId && Some(a.generationId) == r.active(workspaceId)
            && grant.Some? && grant.value.principal == principal && generation.Some?
            && generation.value.state == "active" && a.repoIds <= ToSet(generation.value.repositoryIds)
            && (a.isFull <==> grant.value.scope.Full?)
            && (a.isFull ==> a.repoIds == ToSet(generation.value.repositoryIds))
            && (!a.isFull ==> a.repoIds == ToSet(grant.value.repositoryIds))
  {
    var a := Authorize(r, principal, workspaceId, generationId).value;
    var grant := r.grant(principal, workspaceId).value;
    var generation := r.generation(workspaceId, a.generationId).value;
    assert ValidGrant(grant) && ValidGeneration(generation);
    assert generation.repositoryIds[0] in ToSet(generation.repositoryIds);
    if !a.isFull {
      assert grant.repositoryIds[0] in ToSet(grant.repositoryIds);
    }
  }

  /** Without a matching grant the answer is the same whatever the workspace holds. */
  lemma UngrantedLearnsNothing(
    r: Registry, r': Registry, principal: string, workspaceId: string, generationId: Option<string>)
    requires !Granted(r, principal, workspaceId) && !Granted(r', principal, workspaceId)
    ensures Authorize(r, principal, workspaceId, generationId) == Authorize(r', principal, workspaceId, generationId)
    ensures Authorize(r, principal, workspaceId, generationId).Err?
  {
  }

  /** A generation other than the active one is never authorized, and the active one is the default. */
  lemma OnlyActiveGeneration(r: Registry, principal: string, workspaceId: string, generationId: string)
    requires Nonblank(generationId)
    ensures Authorize(r, principal, workspaceId, Some(generationId)).Ok? ==>
              && r.active(workspaceId) == Some(generationId)
              && Authorize(r, principal, workspaceId, Some(generationId)) == Authorize(r, principal, workspaceId, None)
  {
  }

  /** The arguments that are given are not blank. */
  ghost predicate ArgumentsOk(workspaceId: string, generationId: Option<string>) {
    Nonblank(workspaceId) && (generationId == None || Nonblank(generationId.value))
  }

  /** The generation is the active one, stored as such, and it is the one asked for if any is. */
  ghost predicate ServesActive(r: Registry, workspaceId: string, generationId: Option<string>, g: Generation) {
    && r.active(workspaceId) == Some(g.generationId) && r.generation(workspaceId, g.generationId) == Some(g)
    && g.workspaceId == workspaceId && g.state == "active"
    && (generationId == None || generationId == Some(g.generationId))
  }

  /** The grant is full, or names only repositories of the generation. */
  ghost predicate WithinGeneration(grant: Grant, g: Generation) {
    grant.scope == Full || forall repo :: repo in grant.repositoryIds ==> repo in g.repositoryIds
  }

  /**
   When a query is authorized, and how it is refused otherwise: blank arguments first, then the lack of
   a grant, then the lack of the workspace; whatever remains is a conflict.
   */
  lemma AuthorizedExactly(r: Registry, principal: string, workspaceId: string, generationId: Option<string>)
    ensures var a := Authorize(r, principal, workspaceId, generationId);
            var grant := r.grant(principal, workspaceId);
            var ok := ArgumentsOk(workspaceId, generationId);
            var granted := grant.Some? && grant.value.principal == principal && grant.value.workspaceId == workspaceId;
            && (a == Err(InvalidArgument) <==> !ok)
            && (a == Err(Refused(Forbidden)) <==> ok && !granted)
            && (a == Err(Refused(NotFound)) <==> ok && granted && !r.workspaceExists(workspaceId))
            && (a.Ok? <==> && ok && granted && r.workspaceExists(workspaceId)
                           && exists g ::
                                ServesActive(r, workspaceId, generationId, g) && WithinGeneration(grant.value, g))
  {
    var grant, active := r.grant(principal, workspaceId), r.active(workspaceId);
    hide Nonblank, ToSet;
    if grant.Some? && active.Some? && r.generation(workspaceId, active.value).Some? {
      var g := r.generation(workspaceId, active.value).value;
      SubsetMeans(grant.value.repositoryIds, g.repositoryIds);
      assert ServesActive(r, workspaceId, generationId, g)
        <==> && g.workspaceId == workspaceId && g.state == "active" && g.generationId == active.value
             && (generationId == None || generationId == active);
    }
  }

  lemma SubsetMeans(a: seq<string>, b: seq<string>)
    ensures ToSet(a) <= ToSet(b) <==> forall x :: x in a ==> x in b
  {
    assert forall x :: x in ToSet(a) <==> x in a;
  }
}
