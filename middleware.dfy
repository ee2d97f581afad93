/** The admin route guard of middleware.ts: for a request path and whether a session exists,
    let the request through or redirect it. */
module Middleware {

  datatype Decision = Next | Redirect(target: string)

  const AdminPrefix := "/admin"
  const LoginPath := "/admin/login"
  const DashboardPath := "/admin/dashboard"

  /** `path.startsWith(prefix)`. */
  predicate StartsWith(path: string, prefix: string)
  {
    |prefix| <= |path| && path[..|prefix|] == prefix
  }

  /** Which of the four `if` statements under the `/admin` test returns first (1 to 4), or 0
      when the request falls through to `NextResponse.next()`. */
  function FiringBranch(path: string, hasSession: bool): (b: int)
    ensures 0 <= b <= 4
  {
    if !StartsWith(path, AdminPrefix) then 0
    else if !hasSession && path != LoginPath then 1
    else if hasSession && path == AdminPrefix then 2
    else if !hasSession && path == AdminPrefix then 3
    else if hasSession && path == LoginPath then 4
    else 0
  }

  /** The third branch (no session on `/admin`) can never fire: the first one has already
      redirected every session-less request except the login page. */
  lemma ThirdBranchUnreachable(path: string, hasSession: bool)
    ensures FiringBranch(path, hasSession) != 3
  {
  }

  /** The decision `middleware` returns. */
  function Decide(path: string, hasSession: bool): (d: Decision)
    ensures !StartsWith(path, AdminPrefix) ==> d == Next
    ensures StartsWith(path, AdminPrefix) && !hasSession && path != LoginPath ==> d == Redirect(LoginPath)
    ensures !hasSession && path == LoginPath ==> d == Next
    ensures hasSession && (path == AdminPrefix || path == LoginPath) ==> d == Redirect(DashboardPath)
    ensures hasSession && StartsWith(path, AdminPrefix) && path != AdminPrefix && path != LoginPath ==> d == Next
    ensures d.Redirect? ==> d.target != path
  {
    match FiringBranch(path, hasSession)
    case 1 => Redirect(LoginPath)
    case 2 => Redirect(DashboardPath)
    case 3 => Redirect(LoginPath)
    case 4 => Redirect(DashboardPath)
    case _ => Next
  }

  /** A redirect lands on a path the guard lets through under the same session state, so
      following it never loops. */
  lemma RedirectTargetPasses(path: string, hasSession: bool)
    requires Decide(path, hasSession).Redirect?
    ensures Decide(Decide(path, hasSession).target, hasSession) == Next
  {
    assert StartsWith(LoginPath, AdminPrefix);
    assert StartsWith(DashboardPath, AdminPrefix);
  }
}
