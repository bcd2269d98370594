/** Who may run an operation, and when an agent's call has to be approved first. */
module Policy {
  import opened Wrappers
  import opened JsonText

  datatype Role = Viewer | Member | Admin | Owner

  datatype Scope = Read | Write | AdminScope | Approvals

  datatype Trust = ReviewRisky | Trusted | FullyAuthorized

  datatype Risk = Destructive | Bulk | Config | Data | AdminRisk

  datatype Actor = Human | Agent | System

  datatype Context = Context(
    actor: Actor, userId: Option<Text>, clientId: Option<Text>, role: Role, scopes: set<Scope>, trust: Trust)

  /** What an operation declares about itself. */
  datatype Terms = Terms(minRole: Role, scope: Scope, risk: Option<Risk>, requesterOnly: bool)

  function Rank(role: Role): nat {
    match role case Viewer => 0 case Member => 1 case Admin => 2 case Owner => 3
  }

  predicate RoleAtLeast(role: Role, min: Role) { Rank(role) >= Rank(min) }

  predicate TrustAllows(trust: Trust, risk: Risk) {
    match trust
    case ReviewRisky => false
    case Trusted => risk.Bulk? || risk.Data? || risk.Config?
    case FullyAuthorized => true
  }

  predicate Authorized(terms: Terms, ctx: Context) {
    if !ctx.actor.Agent? then RoleAtLeast(ctx.role, terms.minRole)
    else if terms.requesterOnly then true
    else terms.scope in ctx.scopes && (terms.risk.None? ==> RoleAtLeast(ctx.role, terms.minRole))
  }

  predicate NeedsApproval(terms: Terms, ctx: Context) {
    terms.risk.Some? && ctx.actor.Agent? &&
    (!RoleAtLeast(ctx.role, terms.minRole) || !TrustAllows(ctx.trust, terms.risk.value))
  }

  /**
   The two gates together: whoever gets past both without approval meets the role floor, an agent also holds the
   scope, and for a risky operation the trust. Only an agent using an operation reserved to requesters needs no
   scope, and no role either unless the operation is risky.
   */
  lemma DirectRunNeedsAuthority(terms: Terms, ctx: Context)
    ensures Authorized(terms, ctx) && !NeedsApproval(terms, ctx) <==>
      && (RoleAtLeast(ctx.role, terms.minRole) || (ctx.actor.Agent? && terms.requesterOnly && terms.risk.None?))
      && (ctx.actor.Agent? ==> (terms.requesterOnly || terms.scope in ctx.scopes))
      && (ctx.actor.Agent? && terms.risk.Some? ==> TrustAllows(ctx.trust, terms.risk.value))
  {
  }

  /** Who may call only with a human's consent: an agent within its scopes, below the role or short of the trust. */
  lemma WaitsExactlyWhen(terms: Terms, ctx: Context)
    ensures Authorized(terms, ctx) && NeedsApproval(terms, ctx) <==>
      && ctx.actor.Agent? && terms.risk.Some? && (terms.requesterOnly || terms.scope in ctx.scopes)
      && (!RoleAtLeast(ctx.role, terms.minRole) || !TrustAllows(ctx.trust, terms.risk.value))
  {
  }

  /** The owner outranks everyone, an admin the members, and everyone the viewers. */
  lemma RolesAreOrdered(role: Role, min: Role)
    ensures RoleAtLeast(role, min) <==>
      role == min || role == Owner || min == Viewer || (role == Admin && min == Role.Member)
  {
  }

  /** What each profile is trusted with: nothing, everything but destruction and administration, everything. */
  lemma TrustCovers(risk: Risk)
    ensures !TrustAllows(ReviewRisky, risk) && TrustAllows(FullyAuthorized, risk)
    ensures TrustAllows(Trusted, risk) <==> risk != Destructive && risk != AdminRisk
  {
  }

  predicate RunsDirectly(terms: Terms, ctx: Context) { Authorized(terms, ctx) && !NeedsApproval(terms, ctx) }

  /**
   An agent acts with the role of its user. It does on its own what that user could not do exactly for an operation
   that is reserved to requesters, carries no risk, and lies above the user's role. The user never waits for
   approval; the agent does only for an operation with risk, and then within its scopes.
   */
  lemma AgentOutranksItsUserExactlyWhen(terms: Terms, agent: Context, user: Context)
    requires agent.actor.Agent? && user.actor.Human? && agent.role == user.role
    ensures RunsDirectly(terms, agent) && !RunsDirectly(terms, user) <==>
      terms.requesterOnly && terms.risk.None? && !RoleAtLeast(user.role, terms.minRole)
    ensures Authorized(terms, user) ==> RunsDirectly(terms, user)
    ensures Authorized(terms, agent) && !RunsDirectly(terms, agent) ==>
      terms.risk.Some? && (terms.requesterOnly || terms.scope in agent.scopes)
  {
    DirectRunNeedsAuthority(terms, agent);
    DirectRunNeedsAuthority(terms, user);
  }

  /**
   Less trust never means more than a wait: what an agent runs under one profile it may at least ask for under
   any.
   */
  lemma DistrustOnlyDelays(terms: Terms, ctx: Context, trust: Trust)
    ensures RunsDirectly(terms, ctx) ==>
      RunsDirectly(terms, ctx.(trust := trust)) || NeedsApproval(terms, ctx.(trust := trust))
    ensures NeedsApproval(terms, ctx) && RunsDirectly(terms, ctx.(trust := trust)) ==>
      terms.risk.Some? && RoleAtLeast(ctx.role, terms.minRole) && TrustAllows(trust, terms.risk.value) &&
        !TrustAllows(ctx.trust, terms.risk.value)
  {
  }
}
