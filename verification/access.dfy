/** The access gate: who is an admin, who may use a template, the route
    guard that applies that decision, and the admin-only grant and revoke
    of permission rows. */
module Access {
  import opened Results
  import opened Tables

  /** A row of the admins table: the user it makes an administrator. */
  datatype AdminRow = AdminRow(userId: nat)

  /** A row of the permissions table: `userId` may use `templateId`. */
  datatype Permission = Permission(userId: nat, templateId: nat)

  /** The users and templates that exist, the admins table and the
      permissions table. */
  datatype Acl = Acl(users: set<nat>, templates: set<nat>, admins: Table<AdminRow>, permissions: Table<Permission>)

  function AdminRowOf(user: nat): Row<AdminRow> -> bool {
    (x: Row<AdminRow>) => x.data.userId == user
  }

  function Grant(user: nat, t: nat): Row<Permission> -> bool {
    (x: Row<Permission>) => x.data.userId == user && x.data.templateId == t
  }

  function OnTemplate(t: nat): Row<Permission> -> bool {
    (x: Row<Permission>) => x.data.templateId == t
  }

  /** `isAdmin`: some admins row references the user. */
  function IsAdmin(acl: Acl, user: nat): (b: bool)
    ensures b <==> exists x | x in acl.admins.rows :: x.data.userId == user
  {
    First(acl.admins.rows, AdminRowOf(user)).Some?
  }

  /** `hasPermissionTo`: admins may use every template; anyone else needs a
      permission row for exactly that user and template. */
  function HasPermissionTo(acl: Acl, user: nat, t: nat): (b: bool)
    ensures IsAdmin(acl, user) ==> b
    ensures !IsAdmin(acl, user) ==>
      (b <==> exists x | x in acl.permissions.rows :: x.data == Permission(user, t))
  {
    if IsAdmin(acl, user) then true
    else
      var hit := First(acl.permissions.rows, Grant(user, t));
      assert hit.Some? ==> hit.value.data == Permission(user, t);
      hit.Some?
  }

  /** What the template guard does with a request: refuse it with 403, or
      hand it to the next handler and return that handler's response. */
  datatype Gate<+Resp> = Forbidden403 | Forwarded(response: Resp)

  /** `CheckTemplateAccess::handle`. `user` is the authenticated user, if
      any; `t` is the route's template id; `next` is the rest of the
      pipeline. */
  function Handle<Req, Resp>(acl: Acl, user: Option<nat>, t: nat, request: Req, next: Req -> Resp): (g: Gate<Resp>)
    ensures g.Forwarded? <==> user.Some? && HasPermissionTo(acl, user.value, t)
    ensures g.Forwarded? ==> g.response == next(request)
  {
    if user.None? || !HasPermissionTo(acl, user.value, t) then Forbidden403
    else Forwarded(next(request))
  }

  /** An admin passes the guard for every template, whatever the permission rows say. */
  lemma AdminAlwaysPasses<Req, Resp>(acl: Acl, admin: nat, t: nat, request: Req, next: Req -> Resp)
    requires IsAdmin(acl, admin)
    ensures Handle(acl, Some(admin), t, request, next) == Forwarded(next(request))
    ensures forall p: Table<Permission> ::
      Handle(acl.(permissions := p), Some(admin), t, request, next) == Forwarded(next(request))
  {
    forall p: Table<Permission>
      ensures Handle(acl.(permissions := p), Some(admin), t, request, next) == Forwarded(next(request))
    {
      assert IsAdmin(acl.(permissions := p), admin);
    }
  }

  /** `PermissionController::assign`: the route's template must exist (the
      type-hinted parameter is bound before the action runs, 404), the
      user id must name an existing user (422), the caller must be an admin
      (403), and then one permission row is added, without checking for
      duplicates. */
  function Assign(acl: Acl, actor: nat, t: nat, userId: nat): (r: Result<Acl>)
    ensures t !in acl.templates <==> r == Err(NotFound)
    ensures t in acl.templates && userId !in acl.users ==> r == Err(ValidationFailed)
    ensures t in acl.templates && userId in acl.users && !IsAdmin(acl, actor) ==> r == Err(Forbidden)
    ensures r.Ok? <==> t in acl.templates && userId in acl.users && IsAdmin(acl, actor)
    ensures r.Ok? ==> r.value.users == acl.users && r.value.templates == acl.templates && r.value.admins == acl.admins
    ensures r.Ok? && Valid(acl.permissions) ==> Valid(r.value.permissions)
  {
    if t !in acl.templates then Err(NotFound)
    else if userId !in acl.users then Err(ValidationFailed)
    else if !IsAdmin(acl, actor) then Err(Forbidden)
    else Ok(acl.(permissions := Insert(acl.permissions, Permission(userId, t))))
  }

  /** A successful assign adds exactly one row for the pair (repeated
      assigns pile up rows) and leaves every other pair's rows alone. */
  lemma {:induction false} AssignAddsOneRow(acl: Acl, actor: nat, t: nat, userId: nat, u: nat, t': nat)
    requires Assign(acl, actor, t, userId).Ok?
    ensures var after := Assign(acl, actor, t, userId).value.permissions.rows;
      |Where(after, Grant(u, t'))| ==
        |Where(acl.permissions.rows, Grant(u, t'))| + (if u == userId && t' == t then 1 else 0)
  {
    var row := Row(acl.permissions.nextId, Permission(userId, t));
    WhereConcat(acl.permissions.rows, [row], Grant(u, t'));
    assert Where([row], Grant(u, t')) == (if u == userId && t' == t then [row] else []);
  }

  /** A permission granted for one template opens no other template. */
  lemma {:induction false} GrantIsScoped(acl: Acl, actor: nat, t: nat, userId: nat, other: nat)
    requires Assign(acl, actor, t, userId).Ok?
    requires other != t
    ensures HasPermissionTo(Assign(acl, actor, t, userId).value, userId, other) ==
      HasPermissionTo(acl, userId, other)
  {
    var after := Assign(acl, actor, t, userId).value;
    assert forall x | x in after.permissions.rows && x.data == Permission(userId, other) ::
      x in acl.permissions.rows;
  }

  /** `PermissionController::revoke`: the route's template and user must
      exist (both are bound before the action runs, 404); then admin only;
      deletes every row for the (template, user) pair. */
  function Revoke(acl: Acl, actor: nat, t: nat, user: nat): (r: Result<Acl>)
    ensures t !in acl.templates || user !in acl.users <==> r == Err(NotFound)
    ensures t in acl.templates && user in acl.users ==> (!IsAdmin(acl, actor) <==> r == Err(Forbidden))
    ensures r.Ok? <==> t in acl.templates && user in acl.users && IsAdmin(acl, actor)
    ensures r.Ok? ==> r.value.users == acl.users && r.value.templates == acl.templates && r.value.admins == acl.admins
    ensures r.Ok? ==> forall x | x in r.value.permissions.rows :: x.data != Permission(user, t)
    ensures r.Ok? ==> forall x | x in acl.permissions.rows && x.data != Permission(user, t) ::
      x in r.value.permissions.rows
    ensures r.Ok? ==> forall x | x in r.value.permissions.rows :: x in acl.permissions.rows
  {
    if t !in acl.templates || user !in acl.users then Err(NotFound)
    else if !IsAdmin(acl, actor) then Err(Forbidden)
    else Ok(acl.(permissions := Remove(acl.permissions, Grant(user, t))))
  }

  /** After a revoke, a user who is not an admin can no longer use the template. */
  lemma RevokeDenies(acl: Acl, actor: nat, t: nat, user: nat)
    requires Revoke(acl, actor, t, user).Ok?
    requires !IsAdmin(acl, user)
    ensures !HasPermissionTo(Revoke(acl, actor, t, user).value, user, t)
  {
  }

  /** `PermissionController::index`: the permission rows of one existing
      template (an unknown template is a 404 from route binding). */
  function Index(acl: Acl, t: nat): (r: Result<seq<Row<Permission>>>)
    ensures t !in acl.templates <==> r == Err(NotFound)
    ensures r.Ok? ==> forall x | x in r.value :: x in acl.permissions.rows && x.data.templateId == t
    ensures r.Ok? ==> forall x | x in acl.permissions.rows && x.data.templateId == t :: x in r.value
  {
    if t !in acl.templates then Err(NotFound)
    else Ok(Where(acl.permissions.rows, OnTemplate(t)))
  }
}
