/** The role gate placed in front of every course and assignment route: a
    three-step lookup in a read-only permission table, module, then role, then
    action. */
module Rbac {
  import opened Model

  /** module name -> role name -> action name -> allowed. */
  type Table = map<string, map<string, map<string, bool>>>

  /** The four ways a lookup can end; the three denials stay distinguishable. */
  datatype Decision = Allowed | UnknownModule | UnknownRole | DeniedExplicit

  /** The permission table's answer for one (module, role, action) triple. */
  function Decide(table: Table, moduleName: string, role: string, action: string): (d: Decision)
    ensures d == UnknownModule <==> moduleName !in table
    ensures d == UnknownRole <==> moduleName in table && role !in table[moduleName]
    ensures d == Allowed <==>
      moduleName in table && role in table[moduleName] &&
      action in table[moduleName][role] && table[moduleName][role][action]
    ensures d == DeniedExplicit <==>
      moduleName in table && role in table[moduleName] &&
      (action !in table[moduleName][role] || !table[moduleName][role][action])
  {
    match Lookup(table, moduleName)
    case None => UnknownModule
    case Some(roles) =>
      match Lookup(roles, role)
      case None => UnknownRole
      case Some(actions) =>
        if Lookup(actions, action) == Some(true) then Allowed else DeniedExplicit
  }

  function Lookup<K, V>(m: map<K, V>, k: K): Option<V>
  {
    if k in m then Some(m[k]) else None
  }

  /** What the middleware does: pass the request on, or answer it with an error. */
  datatype Outcome = Proceed | Reject(error: Error)

  /** The middleware for the route (moduleName, action), applied to a caller. */
  function Authorize(table: Table, moduleName: string, action: string, p: Principal): (o: Outcome)
    ensures o.Proceed? <==> Decide(table, moduleName, RoleName(p.role), action) == Allowed
    ensures moduleName !in table ==>
      o == Reject(ServerError("Module '" + moduleName + "' not found in permissions."))
    ensures moduleName in table && RoleName(p.role) !in table[moduleName] ==>
      o == Reject(Forbidden("Role '" + RoleName(p.role) + "' not configured for '" + moduleName + "'."))
    ensures Decide(table, moduleName, RoleName(p.role), action) == DeniedExplicit ==>
      o == Reject(Forbidden("Access denied. Role '" + RoleName(p.role) + "' cannot '" + action +
                            "' in '" + moduleName + "'."))
    ensures o.Reject? && moduleName in table ==> o.error.Status() == 403
    ensures o.Reject? ==> (o.error.Status() == 500 <==> moduleName !in table)
  {
    var role := RoleName(p.role);
    match Decide(table, moduleName, role, action)
    case UnknownModule =>
      Reject(ServerError("Module '" + moduleName + "' not found in permissions."))
    case UnknownRole =>
      Reject(Forbidden("Role '" + role + "' not configured for '" + moduleName + "'."))
    case DeniedExplicit =>
      Reject(Forbidden("Access denied. Role '" + role + "' cannot '" + action + "' in '" + moduleName + "'."))
    case Allowed => Proceed
  }

  /** Module absence is reported first: with no entry for the module, the answer is
      the configuration error whatever the role and the action are. */
  lemma ModuleCheckedFirst(table: Table, moduleName: string, action: string, p: Principal, q: Principal, action': string)
    requires moduleName !in table
    ensures Authorize(table, moduleName, action, p) == Authorize(table, moduleName, action', q)
    ensures Authorize(table, moduleName, action, p).error.Status() == 500
  {
  }

  /** Two callers with the same role get the same answer: the gate looks at the
      role only, never at the caller's identity or at the resource requested. */
  lemma GateSeesOnlyRole(table: Table, moduleName: string, action: string, p: Principal, q: Principal)
    requires p.role == q.role
    ensures Authorize(table, moduleName, action, p) == Authorize(table, moduleName, action, q)
  {
  }
}
