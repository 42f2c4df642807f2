/**
 * Bucket policies: what a statement applies to, and what a policy decides
 * (apps/server/src/s3/policy.ts). Case folding and `Number` on text are parameters.
 */
module Policy {
  import opened Bytes
  import opened Wildcard
  import opened Cidr

  datatype Operator = StringEquals | StringNotEquals | StringLike | StringNotLike | IpAddress | NotIpAddress | Bool

  datatype Condition = Condition(op: Operator, key: string, values: seq<string>)

  datatype Effect = Allow | Deny

  datatype Statement = Statement(
    effect: Effect, anyPrincipal: bool, principalEmails: seq<string>, negatedPrincipal: bool,
    actions: seq<string>, notActions: seq<string>, resources: seq<string>, notResources: seq<string>,
    conditions: seq<Condition>)

  datatype Principal = Principal(userId: Option<string>, email: Option<string>)

  const ANONYMOUS := Principal(None, None)

  datatype Context = Context(sourceIp: Option<string>, secureTransport: bool)

  datatype TextRules = TextRules(lower: string -> string, number: string -> Option<int>)

  datatype Query = Query(principal: Principal, action: string, resourceArn: string, context: Context)

  // ---- Whether a statement applies

  /** Some pattern of a list matches; proved to be glob matching in `Wildcard`. */
  predicate AnyMatches(patterns: seq<string>, value: string) {
    exists p :: p in patterns && WildcardMatch(Units(p), Units(value))
  }

  predicate MatchesAction(s: Statement, action: string) {
    if |s.notActions| > 0 then !AnyMatches(s.notActions, action) else AnyMatches(s.actions, action)
  }

  predicate MatchesResource(s: Statement, resourceArn: string) {
    if |s.notResources| > 0 then !AnyMatches(s.notResources, resourceArn) else AnyMatches(s.resources, resourceArn)
  }

  predicate MatchesPrincipal(rules: TextRules, s: Statement, p: Principal) {
    var named := s.anyPrincipal || (p.email.Some? && rules.lower(p.email.value) in s.principalEmails);
    named != s.negatedPrincipal
  }

  function ConditionValue(key: string, p: Principal, context: Context): Option<string> {
    if key == "aws:sourceip" then context.sourceIp
    else if key == "aws:securetransport" then Some(if context.secureTransport then "true" else "false")
    else if key == "aws:username" then p.email
    else if key == "aws:principaltype" then Some(if p.userId.Some? then "User" else "Anonymous")
    else None
  }

  predicate Negated(op: Operator) { op.StringNotEquals? || op.StringNotLike? || op.NotIpAddress? }

  /** The operator a negated one denies. */
  function Positive(op: Operator): Operator {
    match op
    case StringNotEquals => StringEquals
    case StringNotLike => StringLike
    case NotIpAddress => IpAddress
    case _ => op
  }

  /** One of the values fits the actual one. */
  predicate SomeValueFits(rules: TextRules, op: Operator, values: seq<string>, actual: string) {
    match Positive(op)
    case StringEquals => actual in values
    case StringLike => AnyMatches(values, actual)
    case IpAddress => exists v :: v in values && InRange(rules.number, actual, v)
    case _ => exists v :: v in values && rules.lower(v) == actual
  }

  /** An unavailable key satisfies exactly the negated operators. */
  predicate ConditionHolds(rules: TextRules, c: Condition, p: Principal, context: Context) {
    match ConditionValue(c.key, p, context)
    case None => Negated(c.op)
    case Some(actual) => SomeValueFits(rules, c.op, c.values, actual) != Negated(c.op)
  }

  predicate ConditionsHold(rules: TextRules, s: Statement, p: Principal, context: Context) {
    forall c :: c in s.conditions ==> ConditionHolds(rules, c, p, context)
  }

  predicate Applies(rules: TextRules, s: Statement, q: Query) {
    && MatchesPrincipal(rules, s, q.principal) && MatchesAction(s, q.action) && MatchesResource(s, q.resourceArn)
    && ConditionsHold(rules, s, q.principal, q.context)
  }

  method SomeIpFits(rules: TextRules, values: seq<string>, actual: string) returns (fits: bool)
    ensures fits <==> exists v :: v in values && InRange(rules.number, actual, v)
  {
    hide InRange;
    for i := 0 to |values|
      invariant forall j :: 0 <= j < i ==> !InRange(rules.number, actual, values[j])
    {
      var inside := IpInCidr(rules.number, actual, values[i]);
      if inside {
        assert values[i] in values;
        return true;
      }
    }
    fits := false;
  }

  method MatchesConditions(rules: TextRules, s: Statement, p: Principal, context: Context) returns (matches_: bool)
    ensures matches_ <==> ConditionsHold(rules, s, p, context)
  {
    hide InRange, WildcardMatch, AnyMatches;
    for i := 0 to |s.conditions|
      invariant forall j :: 0 <= j < i ==> ConditionHolds(rules, s.conditions[j], p, context)
    {
      var condition := s.conditions[i];
      assert condition in s.conditions;
      var actual := ConditionValue(condition.key, p, context);
      var negated := condition.op.StringNotEquals? || condition.op.StringNotLike? || condition.op.NotIpAddress?;
      if actual.None? {
        if negated {
          continue;
        }
        return false;
      }
      var matched: bool;
      match condition.op {
        case StringEquals => matched := actual.value in condition.values;
        case StringNotEquals => matched := actual.value in condition.values;
        case StringLike => matched := AnyMatches(condition.values, actual.value);
        case StringNotLike => matched := AnyMatches(condition.values, actual.value);
        case IpAddress => matched := SomeIpFits(rules, condition.values, actual.value);
        case NotIpAddress => matched := SomeIpFits(rules, condition.values, actual.value);
        case Bool => matched := exists v :: v in condition.values && rules.lower(v) == actual.value;
      }
      if if negated then matched else !matched {
        return false;
      }
    }
    matches_ := true;
  }

  // ---- What the parts of a statement mean

  /** A glob pattern stands for a value: its characters, one by one, with stars and question marks. */
  ghost predicate Globs(pattern: string, value: string) {
    exists pieces :: Instance(Units(pattern), pieces, Units(value))
  }

  lemma AnyGlobs(patterns: seq<string>, value: string)
    ensures AnyMatches(patterns, value) <==> exists p :: p in patterns && Globs(p, value)
  {
    hide WildcardMatch, Instance;
    forall p | p in patterns ensures WildcardMatch(Units(p), Units(value)) <==> Globs(p, value) {
      MatchesExactly(Units(p), Units(value));
    }
  }

  /**
   * A statement reaches an action that one of its patterns stands for or, if it has
   * patterns of actions it does not reach, every action that none of these stands
   * for; and the same of resources.
   */
  lemma ScopeExactly(s: Statement, action: string, arn: string)
    ensures MatchesAction(s, action) <==>
              if s.notActions == [] then exists p :: p in s.actions && Globs(p, action)
              else forall p :: p in s.notActions ==> !Globs(p, action)
    ensures MatchesResource(s, arn) <==>
              if s.notResources == [] then exists p :: p in s.resources && Globs(p, arn)
              else forall p :: p in s.notResources ==> !Globs(p, arn)
  {
    hide AnyMatches, Globs;
    AnyGlobs(s.actions, action);
    AnyGlobs(s.notActions, action);
    AnyGlobs(s.resources, arn);
    AnyGlobs(s.notResources, arn);
  }

  /** Whom a statement names: everyone, or those whose address is listed; and it may mean all others. */
  lemma PrincipalExactly(rules: TextRules, s: Statement, p: Principal)
    ensures MatchesPrincipal(rules, s, p) <==>
              if s.negatedPrincipal
              then !s.anyPrincipal && (p.email.None? || rules.lower(p.email.value) !in s.principalEmails)
              else s.anyPrincipal || (p.email.Some? && rules.lower(p.email.value) in s.principalEmails)
  {
  }

  /** The four keys that a condition can ask for; any other is unavailable. */
  lemma KeysExactly(key: string, p: Principal, context: Context)
    ensures ConditionValue("aws:sourceip", p, context) == context.sourceIp
    ensures ConditionValue("aws:username", p, context) == p.email
    ensures ConditionValue("aws:securetransport", p, context.(secureTransport := true)) == Some("true")
    ensures ConditionValue("aws:securetransport", p, context.(secureTransport := false)) == Some("false")
    ensures p.userId.Some? ==> ConditionValue("aws:principaltype", p, context) == Some("User")
    ensures p.userId.None? ==> ConditionValue("aws:principaltype", p, context) == Some("Anonymous")
    ensures key !in {"aws:sourceip", "aws:username", "aws:securetransport", "aws:principaltype"} ==>
              ConditionValue(key, p, context) == None
  {
    var keys := ["aws:sourceip", "aws:securetransport", "aws:username", "aws:principaltype"];
    assert |keys[0]| == 12 && |keys[1]| == 19 && |keys[2]| == 12 && |keys[3]| == 17;
    assert keys[0][4] == 's' && keys[2][4] == 'u';
  }

  /** When a condition holds, operator by operator, of a value that is there and of one that is not. */
  lemma ConditionExactly(rules: TextRules, c: Condition, p: Principal, context: Context)
    ensures match ConditionValue(c.key, p, context)
            case None => ConditionHolds(rules, c, p, context) <==>
                c.op in {StringNotEquals, StringNotLike, NotIpAddress}
            case Some(v) => ConditionHolds(rules, c, p, context) <==>
                match c.op
                case StringEquals => v in c.values
                case StringNotEquals => v !in c.values
                case StringLike => exists g :: g in c.values && Globs(g, v)
                case StringNotLike => forall g :: g in c.values ==> !Globs(g, v)
                case IpAddress => exists range :: range in c.values && InRange(rules.number, v, range)
                case NotIpAddress => forall range :: range in c.values ==> !InRange(rules.number, v, range)
                case Bool => exists word :: word in c.values && rules.lower(word) == v
  {
    hide AnyMatches, InRange, Globs, ConditionValue;
    match ConditionValue(c.key, p, context)
    case None =>
    case Some(v) => AnyGlobs(c.values, v);
  }

  /** When a statement applies to a request: whom it names, what it reaches, and all its conditions. */
  lemma AppliesExactly(rules: TextRules, s: Statement, q: Query)
    ensures Applies(rules, s, q) <==>
      && ((s.anyPrincipal || (q.principal.email.Some? && rules.lower(q.principal.email.value) in s.principalEmails))
          <==> !s.negatedPrincipal)
      && (if s.notActions == [] then exists p :: p in s.actions && Globs(p, q.action)
          else forall p :: p in s.notActions ==> !Globs(p, q.action))
      && (if s.notResources == [] then exists p :: p in s.resources && Globs(p, q.resourceArn)
          else forall p :: p in s.notResources ==> !Globs(p, q.resourceArn))
      && forall c :: c in s.conditions ==> ConditionHolds(rules, c, q.principal, q.context)
  {
    hide MatchesAction, MatchesResource, Globs, ConditionHolds;
    ScopeExactly(s, q.action, q.resourceArn);
  }

  // ---- What a policy decides

  datatype Verdict = Allowed | Denied | NoOpinion

  /** The meaning: a Deny that applies wins, then an Allow that applies. */
  function Decide(rules: TextRules, statements: seq<Statement>, q: Query): Verdict {
    if exists s :: s in statements && s.effect.Deny? && Applies(rules, s, q) then Denied
    else if exists s :: s in statements && s.effect.Allow? && Applies(rules, s, q) then Allowed
    else NoOpinion
  }

  method EvaluatePolicy(rules: TextRules, statements: seq<Statement>, q: Query) returns (d: Verdict)
    ensures d == Decide(rules, statements, q)
  {
    hide MatchesPrincipal, MatchesAction, MatchesResource, ConditionsHold;
    var allowed := false;
    for i := 0 to |statements|
      invariant forall j :: 0 <= j < i && Applies(rules, statements[j], q) ==> statements[j].effect.Allow?
      invariant allowed <==> exists j :: 0 <= j < i && Applies(rules, statements[j], q)
    {
      var s := statements[i];
      if !MatchesPrincipal(rules, s, q.principal) {
        continue;
      }
      if !MatchesAction(s, q.action) {
        continue;
      }
      if !MatchesResource(s, q.resourceArn) {
        continue;
      }
      var conditionsHold := MatchesConditions(rules, s, q.principal, q.context);
      if !conditionsHold {
        continue;
      }
      assert Applies(rules, s, q) && s in statements;
      if s.effect.Deny? {
        return Denied;
      }
      allowed := true;
    }
    d := if allowed then Allowed else NoOpinion;
    if allowed {
      var j :| 0 <= j < |statements| && Applies(rules, statements[j], q);
      assert statements[j] in statements;
    }
  }

  /** A negated operator holds exactly when its positive one does not. */
  lemma NegationIsOpposite(rules: TextRules, c: Condition, p: Principal, context: Context)
    requires Negated(c.op)
    ensures ConditionHolds(rules, c, p, context) <==> !ConditionHolds(rules, c.(op := Positive(c.op)), p, context)
  {
    hide AnyMatches, InRange;
  }

  /** Reordering or repeating statements changes nothing. */
  lemma OrderDoesNotMatter(rules: TextRules, a: seq<Statement>, b: seq<Statement>, q: Query)
    requires forall s :: s in a <==> s in b
    ensures Decide(rules, a, q) == Decide(rules, b, q)
  {
    hide Applies;
  }

  /** A further Deny never allows more, and a further Allow never refuses more, wherever they are put. */
  lemma AddingIsMonotone(rules: TextRules, before: seq<Statement>, s: Statement, after: seq<Statement>, q: Query)
    ensures var earlier := Decide(rules, before + after, q);
            var later := Decide(rules, before + [s] + after, q);
            && (s.effect.Deny? ==> (later == earlier || later == Denied))
            && (s.effect.Allow? ==> (later == earlier || (earlier == NoOpinion && later == Allowed)))
            && (later != earlier ==> Applies(rules, s, q))
  {
    hide Applies;
    var all := before + [s] + after;
    assert forall t :: t in all <==> t in before || t == s || t in after;
    assert forall t :: t in before + after <==> t in before || t in after;
  }

  // ---- Public policies

  predicate PolicyIsPublic(statements: seq<Statement>) {
    exists s :: s in statements && s.effect.Allow? && s.anyPrincipal && !s.negatedPrincipal
  }

  /**
   * The badge says "public" for some Allow statement that reaches the anonymous
   * public, but not for one that names whom it does not reach.
   */
  lemma PublicExactly(rules: TextRules, statements: seq<Statement>)
    ensures (exists s :: s in statements && s.effect.Allow? && MatchesPrincipal(rules, s, ANONYMOUS))
        <==> PolicyIsPublic(statements)
             || exists s :: s in statements && s.effect.Allow? && s.negatedPrincipal && !s.anyPrincipal
  {
    if s :| s in statements && s.effect.Allow? && MatchesPrincipal(rules, s, ANONYMOUS) {
      assert s.anyPrincipal != s.negatedPrincipal;
    }
  }

  lemma StarUnits()
    ensures Units("*") == [STAR]
  {
    assert "*"[1..] == "";
  }

  /** So a policy can grant everything to everyone and not be called public. */
  lemma NotPrincipalIsNotCalledPublic(rules: TextRules, action: string, arn: string, context: Context)
    ensures var s := Statement(Allow, false, ["someone@example.com"], true, ["*"], [], ["*"], [], []);
            && Decide(rules, [s], Query(ANONYMOUS, action, arn, context)) == Allowed
            && !PolicyIsPublic([s])
  {
    var s := Statement(Allow, false, ["someone@example.com"], true, ["*"], [], ["*"], [], []);
    StarUnits();
    assert "*" in ["*"] && WildcardMatch(Units("*"), Units(action)) && WildcardMatch(Units("*"), Units(arn));
    assert Applies(rules, s, Query(ANONYMOUS, action, arn, context));
    assert s in [s];
  }
}
