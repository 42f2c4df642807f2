/**
 * The layered decision on an S3 request, and the resolution of a bucket name
 * (apps/server/src/services/authorization-service.ts). The stored policies,
 * memberships and e-mail addresses are what the repositories return.
 */
module Authorization {
  import opened Bytes
  import opened Policy

  datatype Action =
    | GetObject | PutObject | DeleteObject | ListBucket | GetBucketLocation
    | GetBucketPolicy | PutBucketPolicy | GetBucketAcl | PutBucketAcl | GetObjectAcl | PutObjectAcl
    | AbortMultipartUpload | ListMultipartUploadParts

  datatype Acl = Private | PublicRead | PublicReadWrite | AuthenticatedRead

  datatype Role = Editor | Viewer

  datatype Bucket = Bucket(id: nat, name: string, ownerId: string, acl: Acl)

  /**
   * What the repositories hold; a policy that no longer parses is None. `emailOf` is
   * the address in lower case.
   */
  datatype Store = Store(
    rules: TextRules,
    policyOf: Bucket -> Option<seq<Statement>>,
    roleIn: (Bucket, string) -> Option<Role>,
    emailOf: string -> Option<string>,
    actionName: Action -> string)

  datatype Request = Request(
    userId: Option<string>, action: Action, objectKey: Option<string>, objectAcl: Option<Acl>,
    sourceIp: Option<string>, secureTransport: bool)

  predicate Writes(a: Action) {
    a.PutObject? || a.DeleteObject? || a.PutBucketPolicy? || a.PutBucketAcl? || a.PutObjectAcl?
    || a.AbortMultipartUpload?
  }

  predicate OwnerOnly(a: Action) { a.GetBucketPolicy? || a.PutBucketPolicy? || a.PutBucketAcl? }

  function PrincipalFor(store: Store, userId: Option<string>): Principal {
    match userId
    case None => ANONYMOUS
    case Some(id) => Principal(userId, store.emailOf(id))
  }

  function QueryFor(store: Store, bucket: Bucket, r: Request): Query {
    var arn := "arn:aws:s3:::" + bucket.name + if r.objectKey.Some? then "/" + r.objectKey.value else "";
    Query(PrincipalFor(store, r.userId), store.actionName(r.action), arn, Context(r.sourceIp, r.secureTransport))
  }

  /** What the bucket's policy says of a request; no policy says nothing. */
  function PolicyVerdict(store: Store, bucket: Bucket, r: Request): Verdict {
    match store.policyOf(bucket)
    case None => NoOpinion
    case Some(statements) => Decide(store.rules, statements, QueryFor(store, bucket, r))
  }

  predicate IsOwner(bucket: Bucket, r: Request) { r.userId == Some(bucket.ownerId) }

  function RoleOf(store: Store, bucket: Bucket, r: Request): Option<Role> {
    if r.userId.Some? then store.roleIn(bucket, r.userId.value) else None
  }

  predicate Grants(acl: Acl, writing: bool, authenticated: bool) {
    if writing then acl.PublicReadWrite?
    else acl.PublicRead? || acl.PublicReadWrite? || (authenticated && acl.AuthenticatedRead?)
  }

  predicate AclAllows(bucket: Bucket, r: Request) {
    var writing := Writes(r.action);
    (r.objectAcl.Some? && !writing && Grants(r.objectAcl.value, writing, r.userId.Some?))
    || Grants(bucket.acl, writing, r.userId.Some?)
  }

  predicate IsAllowed(store: Store, bucket: Bucket, r: Request) {
    var verdict := PolicyVerdict(store, bucket, r);
    if verdict.Denied? then false
    else if verdict.Allowed? && !OwnerOnly(r.action) then true
    else if IsOwner(bucket, r) then true
    else if RoleOf(store, bucket, r) == Some(Editor) then true
    else if RoleOf(store, bucket, r) == Some(Viewer) && !Writes(r.action) then true
    else if OwnerOnly(r.action) then false
    else AclAllows(bucket, r)
  }

  // ---- What decides

  /** A statement of the bucket's policy with the effect applies to the request. */
  predicate PolicySays(store: Store, bucket: Bucket, r: Request, effect: Effect) {
    && store.policyOf(bucket).Some?
    && exists s :: s in store.policyOf(bucket).value && s.effect == effect
         && Applies(store.rules, s, QueryFor(store, bucket, r))
  }

  lemma VerdictSays(store: Store, bucket: Bucket, r: Request)
    ensures PolicyVerdict(store, bucket, r) ==
      if PolicySays(store, bucket, r, Deny) then Denied
      else if PolicySays(store, bucket, r, Allow) then Allowed else NoOpinion
  {
    hide Applies;
  }

  /**
   * An owner-only action needs that no statement denies it, and ownership or
   * membership: no policy Allow and no ACL is among the reasons. Contrary to the
   * source's comment, an editor is enough for all of them and a viewer for reading
   * the policy.
   */
  lemma OwnerOnlyExactly(store: Store, bucket: Bucket, r: Request)
    requires OwnerOnly(r.action)
    ensures IsAllowed(store, bucket, r) <==>
      && !PolicySays(store, bucket, r, Deny)
      && (IsOwner(bucket, r) || RoleOf(store, bucket, r) == Some(Editor)
          || (RoleOf(store, bucket, r) == Some(Viewer) && r.action.GetBucketPolicy?))
  {
    hide PolicyVerdict, PolicySays;
    VerdictSays(store, bucket, r);
  }

  /**
   * Any other action needs that no statement denies it, the owner's included, and one
   * of the sources in whatever order: an Allow, ownership, the role, or an ACL. For
   * an anonymous write that comes down to an Allow or the bucket's own ACL.
   */
  lemma AllowedExactly(store: Store, bucket: Bucket, r: Request)
    requires !OwnerOnly(r.action)
    ensures IsAllowed(store, bucket, r) <==>
      && !PolicySays(store, bucket, r, Deny)
      && (PolicySays(store, bucket, r, Allow) || IsOwner(bucket, r)
          || RoleOf(store, bucket, r) == Some(Editor)
          || (RoleOf(store, bucket, r) == Some(Viewer) && !Writes(r.action))
          || AclAllows(bucket, r))
    ensures r.userId.None? && Writes(r.action) ==>
      (IsAllowed(store, bucket, r) <==>
        !PolicySays(store, bucket, r, Deny) && (PolicySays(store, bucket, r, Allow) || bucket.acl.PublicReadWrite?))
  {
    hide PolicyVerdict, PolicySays;
    VerdictSays(store, bucket, r);
  }

  /** The actions that change nothing. */
  const READING: set<Action> := {
    GetObject, ListBucket, GetBucketLocation, GetBucketPolicy, GetBucketAcl, GetObjectAcl, ListMultipartUploadParts}

  /** Whom an ACL lets read: everyone, or everyone with credentials. */
  predicate OpensReading(acl: Acl, r: Request) {
    acl in {PublicRead, PublicReadWrite} || (acl == AuthenticatedRead && r.userId != None)
  }

  /**
   * The whole decision, action by action. Nothing helps against a Deny. The owner and
   * an editor may do all, a viewer what changes nothing. Others need, and that only
   * where neither the policy nor the bucket's ACL is what is read or replaced, an
   * Allow, a bucket open to all writing, or, for reading, a bucket or object whose
   * ACL opens it.
   */
  lemma DecisionExactly(store: Store, bucket: Bucket, r: Request)
    ensures IsAllowed(store, bucket, r) <==>
      && !PolicySays(store, bucket, r, Deny)
      && (r.userId == Some(bucket.ownerId)
          || (r.userId.Some? && store.roleIn(bucket, r.userId.value) == Some(Editor))
          || (r.userId.Some? && store.roleIn(bucket, r.userId.value) == Some(Viewer) && r.action in READING)
          || (r.action !in {GetBucketPolicy, PutBucketPolicy, PutBucketAcl}
              && (PolicySays(store, bucket, r, Allow)
                  || bucket.acl == PublicReadWrite
                  || (r.action in READING
                      && (OpensReading(bucket.acl, r)
                          || (r.objectAcl.Some? && OpensReading(r.objectAcl.value, r)))))))
  {
    hide PolicyVerdict, PolicySays;
    VerdictSays(store, bucket, r);
  }

  /** What a request asks the policy about: the caller, the action's name, and the bucket's or the object's name. */
  lemma AskedAs(store: Store, bucket: Bucket, r: Request, user: string, key: string)
    ensures var q := QueryFor(store, bucket, r);
            && q.action == store.actionName(r.action)
            && q.context == Context(r.sourceIp, r.secureTransport)
            && (r.userId == None ==> q.principal == Principal(None, None))
            && (r.userId == Some(user) ==> q.principal == Principal(Some(user), store.emailOf(user)))
            && (r.objectKey == None ==> q.resourceArn == "arn:aws:s3:::" + bucket.name)
            && (r.objectKey == Some(key) ==> q.resourceArn == "arn:aws:s3:::" + bucket.name + "/" + key)
  {
    assert "arn:aws:s3:::" + bucket.name + "" == "arn:aws:s3:::" + bucket.name;
    assert ("arn:aws:s3:::" + bucket.name) + ("/" + key) == ("arn:aws:s3:::" + bucket.name + "/") + key;
  }

  /** The same, as independence: other Allows and other ACLs leave an owner-only decision as it is. */
  lemma GrantsDoNotReachOwnerOnly(store: Store, other: Store, bucket: Bucket, acl: Acl, r: Request,
        objectAcl: Option<Acl>)
    requires OwnerOnly(r.action) && other.roleIn == store.roleIn
    requires var moved := bucket.(acl := acl);
             && PolicySays(store, bucket, r, Deny) == PolicySays(other, moved, r.(objectAcl := objectAcl), Deny)
             && (r.userId.Some? ==> store.roleIn(moved, r.userId.value) == store.roleIn(bucket, r.userId.value))
    ensures IsAllowed(store, bucket, r) == IsAllowed(other, bucket.(acl := acl), r.(objectAcl := objectAcl))
  {
    hide PolicySays;
    OwnerOnlyExactly(store, bucket, r);
    OwnerOnlyExactly(other, bucket.(acl := acl), r.(objectAcl := objectAcl));
  }

  /** The store after a statement is added to one bucket's policy. */
  function Amended(store: Store, bucket: Bucket, s: Statement): Store {
    store.(policyOf := b => if b != bucket then store.policyOf(b) else match store.policyOf(b)
      case None => Some([s])
      case Some(statements) => Some(statements + [s]))
  }

  /** Adding a Deny never allows more, adding an Allow never refuses more, and neither touches other buckets. */
  lemma AmendingIsMonotone(store: Store, bucket: Bucket, s: Statement, r: Request, at: Bucket)
    ensures var after := Amended(store, bucket, s);
            && (s.effect.Deny? && IsAllowed(after, at, r) ==> IsAllowed(store, at, r))
            && (s.effect.Allow? && IsAllowed(store, at, r) ==> IsAllowed(after, at, r))
            && (at != bucket ==> IsAllowed(after, at, r) == IsAllowed(store, at, r))
  {
    hide Applies, AclAllows;
    var statements := match store.policyOf(at) case Some(t) => t case None => [];
    AddingIsMonotone(store.rules, statements, s, [], QueryFor(store, at, r));
    assert statements + [] == statements && statements + [s] + [] == statements + [s];
    assert store.policyOf(at).None? ==> statements + [s] == [s];
    assert QueryFor(Amended(store, bucket, s), at, r) == QueryFor(store, at, r);
  }

  // ---- Resolving a name

  function Filter(buckets: seq<Bucket>, keep: Bucket -> bool): seq<Bucket> {
    if buckets == [] then []
    else (if keep(buckets[0]) then [buckets[0]] else []) + Filter(buckets[1..], keep)
  }

  predicate Visible(store: Store, bucket: Bucket, r: Request) {
    IsAllowed(store, bucket, r.(action := GetObject)) || IsAllowed(store, bucket, r.(action := PutObject))
    || IsAllowed(store, bucket, r.(action := DeleteObject)) || IsAllowed(store, bucket, r.(action := ListBucket))
  }

  /** A bucket shows itself to whoever may read, write or delete the object, or list the bucket. */
  lemma VisibleExactly(store: Store, bucket: Bucket, r: Request)
    ensures Visible(store, bucket, r) <==>
              exists a :: a in {GetObject, PutObject, DeleteObject, ListBucket}
                && IsAllowed(store, bucket, r.(action := a))
  {
    hide IsAllowed;
  }

  /** Each candidate is probed with its own object's ACL. */
  function Probe(r: Request, aclIn: Bucket -> Option<Acl>, bucket: Bucket): Request { r.(objectAcl := aclIn(bucket)) }

  /**
   * `direct` is the bucket of that name the caller owns or is a member of,
   * `candidates` every active bucket of that name, `aclIn` the ACL of the object
   * asked for in each.
   */
  function ResolveBucket(store: Store, direct: Option<Bucket>, candidates: seq<Bucket>,
        aclIn: Bucket -> Option<Acl>, r: Request): Option<Bucket> {
    if r.userId.Some? && direct.Some? then direct
    else
      var allowed := Filter(candidates, b => IsAllowed(store, b, Probe(r, aclIn, b)));
      var reachable :=
        if allowed == [] && r.userId.Some? then Filter(candidates, b => Visible(store, b, Probe(r, aclIn, b)))
        else allowed;
      if |reachable| == 1 then Some(reachable[0]) else None
  }

  lemma {:induction false} FilterKeeps(buckets: seq<Bucket>, keep: Bucket -> bool)
    ensures forall b :: b in Filter(buckets, keep) <==> b in buckets && keep(b)
    ensures Distinct(buckets) ==> Distinct(Filter(buckets, keep))
  {
    if buckets != [] {
      FilterKeeps(buckets[1..], keep);
      assert buckets == [buckets[0]] + buckets[1..];
    }
  }

  /** A list without repetition has one element exactly when it has a unique one. */
  lemma OneIsUnique(s: seq<Bucket>, b: Bucket)
    requires Distinct(s)
    ensures |s| == 1 && s[0] == b <==> b in s && forall c :: c in s ==> c == b
  {
    if b in s && forall c :: c in s ==> c == b {
      if |s| > 1 {
        assert s[0] in s && s[1] in s && s[0] != s[1];
      }
    }
  }

  /** An anonymous request reaches a bucket if and only if it alone, of all of that name, lets the request through. */
  lemma AnonymousReachesOnlyOne(store: Store, direct: Option<Bucket>, candidates: seq<Bucket>,
        aclIn: Bucket -> Option<Acl>, r: Request, b: Bucket)
    requires r.userId.None? && Distinct(candidates)
    ensures ResolveBucket(store, direct, candidates, aclIn, r) == Some(b) <==>
      && b in candidates && IsAllowed(store, b, Probe(r, aclIn, b))
      && forall c :: c in candidates && IsAllowed(store, c, Probe(r, aclIn, c)) ==> c == b
  {
    hide IsAllowed;
    var keep := (c: Bucket) => IsAllowed(store, c, Probe(r, aclIn, c));
    FilterKeeps(candidates, keep);
    OneIsUnique(Filter(candidates, keep), b);
    FilterSame(store, candidates, aclIn, r, keep);
  }

  /**
   * A caller with credentials but no bucket of the name reaches the only one that
   * lets the request through or, if none does, the only one that shows itself.
   */
  lemma AuthenticatedReachesOnlyOne(store: Store, candidates: seq<Bucket>, aclIn: Bucket -> Option<Acl>,
        r: Request, b: Bucket)
    requires r.userId.Some? && Distinct(candidates)
    ensures var none := forall c :: c in candidates ==> !IsAllowed(store, c, Probe(r, aclIn, c));
            ResolveBucket(store, None, candidates, aclIn, r) == Some(b) <==>
            if none
            then b in candidates && Visible(store, b, Probe(r, aclIn, b))
                 && forall c :: c in candidates && Visible(store, c, Probe(r, aclIn, c)) ==> c == b
            else b in candidates && IsAllowed(store, b, Probe(r, aclIn, b))
                 && forall c :: c in candidates && IsAllowed(store, c, Probe(r, aclIn, c)) ==> c == b
  {
    hide IsAllowed, Visible;
    var allowed := Filter(candidates, c => IsAllowed(store, c, Probe(r, aclIn, c)));
    var visible := Filter(candidates, c => Visible(store, c, Probe(r, aclIn, c)));
    FilterKeeps(candidates, c => IsAllowed(store, c, Probe(r, aclIn, c)));
    FilterKeeps(candidates, c => Visible(store, c, Probe(r, aclIn, c)));
    OneIsUnique(allowed, b);
    OneIsUnique(visible, b);
    HasFirst(allowed);
  }

  lemma {:induction false} FilterSame(store: Store, candidates: seq<Bucket>, aclIn: Bucket -> Option<Acl>,
        r: Request, keep: Bucket -> bool)
    requires forall b :: keep(b) == IsAllowed(store, b, Probe(r, aclIn, b))
    ensures Filter(candidates, b => IsAllowed(store, b, Probe(r, aclIn, b))) == Filter(candidates, keep)
  {
    hide IsAllowed;
    if candidates != [] {
      FilterSame(store, candidates[1..], aclIn, r, keep);
    }
  }

  lemma HasFirst(s: seq<Bucket>)
    ensures s != [] ==> s[0] in s
  {
  }

  /** To someone anonymous, a name that does not exist and one that is not permitted look the same. */
  lemma NoExistenceOracle(store: Store, direct: Option<Bucket>, candidates: seq<Bucket>,
        aclIn: Bucket -> Option<Acl>, r: Request)
    requires r.userId.None? && forall c :: c in candidates ==> !IsAllowed(store, c, Probe(r, aclIn, c))
    ensures ResolveBucket(store, direct, candidates, aclIn, r) == ResolveBucket(store, direct, [], aclIn, r) == None
  {
    hide IsAllowed;
    FilterKeeps(candidates, b => IsAllowed(store, b, Probe(r, aclIn, b)));
    HasFirst(Filter(candidates, b => IsAllowed(store, b, Probe(r, aclIn, b))));
  }
}
