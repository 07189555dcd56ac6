/** The role gate of attendance/decorators.py: `role_required(*roles)` and the
    five single-purpose wrappers built from it. A wrapped view is represented
    by the arguments it would be called with. */
module Decorators {
  import opened Models

  datatype User = Anonymous | Authenticated(role: Role)

  /** What the wrapper does with a request: send an anonymous user to the
      login page with `next` set to the requested path, refuse a user of the
      wrong role, or call the view with the original arguments. */
  datatype Gate<A> = LoginRedirect(next: string) | PermissionDenied | CallView(args: A)

  function RoleRequired<A>(roles: set<Role>, user: User, path: string, args: A): (g: Gate<A>)
    ensures g.LoginRedirect? <==> user.Anonymous?
    ensures g.LoginRedirect? ==> g.next == path
    ensures g.PermissionDenied? <==> user.Authenticated? && user.role !in roles
    ensures g.CallView? <==> user.Authenticated? && user.role in roles
    ensures g.CallView? ==> g.args == args
  {
    if user.Anonymous? then LoginRedirect(path)
    else if user.role !in roles then PermissionDenied
    else CallView(args)
  }

  const StudentRoles: set<Role> := {StudentRole}
  const TeacherRoles: set<Role> := {TeacherRole}
  const PrincipalRoles: set<Role> := {PrincipalRole}
  const AdminRoles: set<Role> := {SuperAdminRole}
  const StaffRoles: set<Role> := {TeacherRole, PrincipalRole, SuperAdminRole}

  function StudentRequired<A>(user: User, path: string, args: A): Gate<A> {
    RoleRequired(StudentRoles, user, path, args)
  }

  function TeacherRequired<A>(user: User, path: string, args: A): Gate<A> {
    RoleRequired(TeacherRoles, user, path, args)
  }

  function PrincipalRequired<A>(user: User, path: string, args: A): Gate<A> {
    RoleRequired(PrincipalRoles, user, path, args)
  }

  function AdminRequired<A>(user: User, path: string, args: A): Gate<A> {
    RoleRequired(AdminRoles, user, path, args)
  }

  function StaffRequired<A>(user: User, path: string, args: A): Gate<A> {
    RoleRequired(StaffRoles, user, path, args)
  }

  /** Each single-role wrapper admits exactly its one role. */
  lemma SingleRoleWrappersAdmitOneRole<A>(r: Role, path: string, args: A)
    ensures StudentRequired(Authenticated(r), path, args).CallView? <==> r == StudentRole
    ensures TeacherRequired(Authenticated(r), path, args).CallView? <==> r == TeacherRole
    ensures PrincipalRequired(Authenticated(r), path, args).CallView? <==> r == PrincipalRole
    ensures AdminRequired(Authenticated(r), path, args).CallView? <==> r == SuperAdminRole
  {
  }

  /** `staff_required` admits exactly teachers, principals and super admins:
      the users one of the three staff wrappers admits, and never a student. */
  lemma StaffIsTeacherPrincipalOrAdmin<A>(user: User, path: string, args: A)
    ensures StaffRequired(user, path, args).CallView?
            <==> (TeacherRequired(user, path, args).CallView?
                  || PrincipalRequired(user, path, args).CallView?
                  || AdminRequired(user, path, args).CallView?)
    ensures StaffRequired(user, path, args).CallView? ==> !StudentRequired(user, path, args).CallView?
    ensures StaffRequired(user, path, args).CallView? <==> user.Authenticated? && user.role != StudentRole
  {
  }
}
