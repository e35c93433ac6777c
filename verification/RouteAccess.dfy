/** Which routes of a generated app are public, private or held by a role, and how a change request moves one. */
module RouteAccess {
  import opened Lists
  import opened Ordering
  import RoutePaths
  import opened Texts
  import opened Wrappers

  datatype RoleRoute = RoleRoute(role: Text, routes: seq<Text>, reason: Option<Text>)

  /** The auth section of a draft; an absent list is an empty one. */
  datatype Auth = Auth(
    defaultPolicy: Option<Text>, publicRoutes: seq<Text>, privateRoutes: seq<Text>, roleRoutes: seq<RoleRoute>,
    decisions: seq<Text>)

  datatype Access = Public | Private | Admin

  datatype Request = Request(targetPath: Option<Text>, requestedChange: Text)

  /** `localeCompare`, the cleaning of texts and paths, and what is read out of a request's wording by patterns. */
  datatype Host = Host(
    collate: (Text, Text) -> int, cleanText: Text -> Text, normalizePath: Text -> Option<Text>,
    accessInText: Text -> Option<Access>, pathInText: Text -> Option<Text>)

  /** Cleaning twice is cleaning once, and something is left of a path. */
  ghost predicate Lawful(host: Host) {
    && (forall t :: host.cleanText(host.cleanText(t)) == host.cleanText(t))
    && (forall t :: host.normalizePath(t).Some? ==>
          host.normalizePath(t).value != [] && host.cleanText(host.normalizePath(t).value) != [])
  }

  /** The cleaning of the original has these laws. */
  lemma {:induction false} SourceIsLawful(host: Host, space: RoutePaths.Space)
    requires forall t :: host.cleanText(t) == RoutePaths.CleanText(space, t)
    requires forall t :: host.normalizePath(t) == RoutePaths.NormalizePath(space, t)
    requires !space(SLASH)
    ensures Lawful(host)
  {
    forall t ensures host.cleanText(host.cleanText(t)) == host.cleanText(t) {
      RoutePaths.CleanExactly(space, t);
    }
    forall t | host.normalizePath(t).Some? ensures host.cleanText(host.normalizePath(t).value) != [] {
      RoutePaths.CleanKeepsStart(space, host.normalizePath(t).value);
    }
  }

  predicate Clean(host: Host, t: Text) { host.cleanText(t) == t }

  const ADMIN := Literal("admin")
  const DEFAULT_POLICY := Literal("authenticated-by-default")
  const ADMIN_REASON := Literal("Iteration request requires role-gated generated app access.")

  function Decision(request: Request): Text { Literal("Iteration request: ") + request.requestedChange }

  function CleanAll(host: Host, s: seq<Text>): seq<Text> { seq(|s|, i requires 0 <= i < |s| => host.cleanText(s[i])) }

  function NotEmpty(): Text -> bool { (t: Text) => t != [] }

  function UniqueSorted(host: Host, s: seq<Text>): seq<Text> {
    Sort(Less(host.collate), Unique(Filter(NotEmpty(), CleanAll(host, s))))
  }

  function RouteAccess(auth: Auth, path: Text): Access {
    if path in auth.publicRoutes then Public
    else if path in auth.privateRoutes then Private
    else if exists i :: 0 <= i < |auth.roleRoutes| && path in auth.roleRoutes[i].routes then Admin
    else Private
  }

  /** The path of an auth target: the one given, one named in the wording, or that of the first page or route. */
  function SelectedPath(host: Host, given: Option<Text>, requestedChange: Text, first: Option<Text>): Option<Text> {
    var target := if given.Some? then host.normalizePath(given.value) else None;
    if target.Some? then target
    else
      var inText := host.pathInText(requestedChange);
      var named := if inText.Some? then host.normalizePath(inText.value) else None;
      if named.Some? then named else first
  }

  /** Selecting the target has normalized its path; the edit normalizes it once more. */
  function RoutePath(host: Host, request: Request): Option<Text> {
    var target := if request.targetPath.Some? then host.normalizePath(request.targetPath.value) else None;
    if target.Some? then target
    else
      var inText := host.pathInText(request.requestedChange);
      if inText.Some? then host.normalizePath(inText.value) else None
  }

  function RequestedAccess(host: Host, auth: Auth, request: Request): Access {
    match host.accessInText(request.requestedChange)
    case Some(access) => access
    case None =>
      match RoutePath(host, request)
      case Some(path) => RouteAccess(auth, path)
      case None => Private
  }

  function Other(route: Text): Text -> bool { (t: Text) => t != route }

  function Moved(routes: seq<Text>, route: Text, here: bool): seq<Text> {
    Filter(Other(route), Unique(routes)) + if here then [route] else []
  }

  function DropRoute(route: Text): RoleRoute -> RoleRoute {
    (g: RoleRoute) => g.(routes := Filter(Other(route), g.routes))
  }

  function WithoutRoute(roles: seq<RoleRoute>, route: Text): seq<RoleRoute> { Map(DropRoute(route), roles) }

  function IsAdmin(): RoleRoute -> bool { (g: RoleRoute) => g.role == ADMIN }

  function AddRoute(host: Host, route: Text): RoleRoute -> seq<RoleRoute> {
    (g: RoleRoute) => [g.(routes := UniqueSorted(host, g.routes + [route]))]
  }

  function WithAdmin(host: Host, roles: seq<RoleRoute>, route: Text): seq<RoleRoute> {
    UpdateFirst(IsAdmin(), AddRoute(host, route), [RoleRoute(ADMIN, [route], Some(ADMIN_REASON))], roles)
  }

  function MovedRoles(host: Host, roles: seq<RoleRoute>, route: Text, access: Access): seq<RoleRoute> {
    if access == Admin then WithAdmin(host, WithoutRoute(roles, route), route) else WithoutRoute(roles, route)
  }

  function HasRoutes(): RoleRoute -> bool { (g: RoleRoute) => g.routes != [] }

  function SortRoutes(host: Host): RoleRoute -> RoleRoute {
    (g: RoleRoute) => g.(routes := UniqueSorted(host, g.routes))
  }

  function SortedRoutes(host: Host, roles: seq<RoleRoute>): seq<RoleRoute> { Map(SortRoutes(host), roles) }

  function ByRole(host: Host): (RoleRoute, RoleRoute) -> bool {
    (g: RoleRoute, h: RoleRoute) => Less(host.collate)(g.role, h.role)
  }

  function Groups(host: Host, roles: seq<RoleRoute>): seq<RoleRoute> {
    Sort(ByRole(host), Filter(HasRoutes(), SortedRoutes(host, roles)))
  }

  function Edited(host: Host, auth: Auth, route: Option<Text>, access: Access, decision: Text): Auth {
    Auth(Some(if auth.defaultPolicy.Some? then auth.defaultPolicy.value else DEFAULT_POLICY),
         UniqueSorted(host, if route.Some? then Moved(auth.publicRoutes, route.value, access == Public)
                            else Unique(auth.publicRoutes)),
         UniqueSorted(host, if route.Some? then Moved(auth.privateRoutes, route.value, access == Private)
                            else Unique(auth.privateRoutes)),
         Groups(host, if route.Some? then MovedRoles(host, auth.roleRoutes, route.value, access) else auth.roleRoutes),
         UniqueSorted(host, auth.decisions + [decision]))
  }

  function AuthAfter(host: Host, auth: Auth, request: Request): Auth {
    Edited(host, auth, RoutePath(host, request), RequestedAccess(host, auth, request), Decision(request))
  }

  // ----- the edit in place

  method AddToAdmin(host: Host, roles: seq<RoleRoute>, route: Text) returns (r: seq<RoleRoute>)
    ensures r == WithAdmin(host, roles, route)
  {
    var missing := [RoleRoute(ADMIN, [route], Some(ADMIN_REASON))];
    var i := FindIndex(IsAdmin(), roles);
    UpdateFirstAt(IsAdmin(), AddRoute(host, route), missing, roles, i);
    r := if i < |roles| then roles[..i] + AddRoute(host, route)(roles[i]) + roles[i + 1..] else roles + missing;
  }

  method AuthAfterSnapshot(host: Host, auth: Auth, request: Request) returns (after: Auth)
    ensures after == AuthAfter(host, auth, request)
  {
    var routePath := RoutePath(host, request);
    var access := RequestedAccess(host, auth, request);
    var publicRoutes, privateRoutes := Unique(auth.publicRoutes), Unique(auth.privateRoutes);
    var roleRoutes := auth.roleRoutes;
    if routePath.Some? {
      var route := routePath.value;
      publicRoutes := Filter(Other(route), publicRoutes);
      privateRoutes := Filter(Other(route), privateRoutes);
      for i := 0 to |roleRoutes|
        invariant |roleRoutes| == |auth.roleRoutes|
        invariant forall k :: 0 <= k < i ==> roleRoutes[k] == WithoutRoute(auth.roleRoutes, route)[k]
        invariant forall k :: i <= k < |roleRoutes| ==> roleRoutes[k] == auth.roleRoutes[k]
      {
        roleRoutes := roleRoutes[i := roleRoutes[i].(routes := Filter(Other(route), roleRoutes[i].routes))];
      }
      assert roleRoutes == WithoutRoute(auth.roleRoutes, route);
      match access {
        case Public => publicRoutes := publicRoutes + [route];
        case Admin => roleRoutes := AddToAdmin(host, roleRoutes, route);
        case Private => privateRoutes := privateRoutes + [route];
      }
      assert publicRoutes == Moved(auth.publicRoutes, route, access == Public);
      assert privateRoutes == Moved(auth.privateRoutes, route, access == Private);
    }
    after := Auth(Some(if auth.defaultPolicy.Some? then auth.defaultPolicy.value else DEFAULT_POLICY),
                  UniqueSorted(host, publicRoutes), UniqueSorted(host, privateRoutes), Groups(host, roleRoutes),
                  UniqueSorted(host, auth.decisions + [Decision(request)]));
  }

  // ----- what a cleaned, sorted list holds

  /** A text of the list has `x` as its clean form. */
  ghost predicate HasForm(host: Host, s: seq<Text>, x: Text) { exists t :: t in s && host.cleanText(t) == x }

  lemma {:induction false} CleanAllMembers(host: Host, s: seq<Text>, x: Text)
    ensures x in CleanAll(host, s) <==> HasForm(host, s, x)
  {
    var forms := CleanAll(host, s);
    if t :| t in s && host.cleanText(t) == x {
      var i :| 0 <= i < |s| && s[i] == t;
      assert forms[i] == x;
    }
    if x in forms {
      var i :| 0 <= i < |forms| && forms[i] == x;
      assert s[i] in s;
    }
  }

  lemma {:induction false} UniqueSortedMembers(host: Host, s: seq<Text>)
    ensures forall x :: x in UniqueSorted(host, s) <==> x != [] && HasForm(host, s, x)
    ensures Distinct(UniqueSorted(host, s))
  {
    var forms := Filter(NotEmpty(), CleanAll(host, s));
    FilterMembers(NotEmpty(), CleanAll(host, s));
    UniqueMembers(forms);
    SortMembers(Less(host.collate), Unique(forms));
    DistinctByMultiset(Unique(forms), UniqueSorted(host, s));
    forall x ensures x in UniqueSorted(host, s) <==> x != [] && HasForm(host, s, x) {
      CleanAllMembers(host, s, x);
    }
  }

  /** Clean, none empty. */
  ghost predicate Tidy(host: Host, s: seq<Text>) { forall x :: x in s ==> Clean(host, x) && x != [] }

  lemma {:induction false} UniqueSortedTidy(host: Host, s: seq<Text>)
    requires Lawful(host)
    ensures Tidy(host, UniqueSorted(host, s))
  {
    UniqueSortedMembers(host, s);
  }

  /** A text other than the route itself is listed, with `x` as its clean form. */
  ghost predicate Left(host: Host, routes: seq<Text>, route: Text, x: Text) {
    exists t :: t in routes && t != route && host.cleanText(t) == x
  }

  lemma {:induction false} LeftInTidy(host: Host, routes: seq<Text>, route: Text, x: Text)
    requires Tidy(host, routes)
    ensures Left(host, routes, route, x) <==> x in routes && x != route
  {
  }

  /** A list without a route, and with it added if it belongs there, once cleaned and sorted. */
  lemma {:induction false} MovedForms(host: Host, routes: seq<Text>, route: Text, here: bool, x: Text)
    ensures x in UniqueSorted(host, Moved(routes, route, here)) <==>
            x != [] && (Left(host, routes, route, x) || (here && host.cleanText(route) == x))
  {
    var moved := Moved(routes, route, here);
    UniqueSortedMembers(host, moved);
    UniqueMembers(routes);
    FilterMembers(Other(route), Unique(routes));
    assert forall t :: t in moved <==> (t in routes && t != route) || (here && t == route);
  }

  /** Cleaned lists are sorted, with no text twice. */
  lemma {:induction false} UniqueSortedInOrder(host: Host, s: seq<Text>)
    requires Consistent(host.collate)
    ensures var r := UniqueSorted(host, s);
            Distinct(r) && forall i, j :: 0 <= i < j < |r| ==> host.collate(r[j], r[i]) >= 0
  {
    var r := UniqueSorted(host, s);
    UniqueSortedMembers(host, s);
    LessIsWeak(host.collate);
    SortSorted(Less(host.collate), Unique(Filter(NotEmpty(), CleanAll(host, s))));
    forall i, j | 0 <= i < j < |r| ensures host.collate(r[j], r[i]) >= 0 {
      assert !Less(host.collate)(r[j], r[i]);
    }
  }

  // ----- what the role groups hold

  ghost predicate InRole(roles: seq<RoleRoute>, role: Text, route: Text) {
    exists g :: g in roles && g.role == role && route in g.routes
  }

  ghost predicate RoleForm(host: Host, roles: seq<RoleRoute>, role: Text, x: Text) {
    exists g :: g in roles && g.role == role && HasForm(host, g.routes, x)
  }

  ghost predicate RoleLeft(host: Host, roles: seq<RoleRoute>, route: Text, role: Text, x: Text) {
    exists g :: g in roles && g.role == role && Left(host, g.routes, route, x)
  }

  ghost predicate TidyRoles(host: Host, roles: seq<RoleRoute>) { forall g :: g in roles ==> Tidy(host, g.routes) }

  lemma {:induction false} GroupsMember(host: Host, roles: seq<RoleRoute>, g: RoleRoute)
    ensures g in Groups(host, roles) <==> g.routes != [] && exists h :: h in roles && SortRoutes(host)(h) == g
  {
    var sorted := SortedRoutes(host, roles);
    FilterMembers(HasRoutes(), sorted);
    SortMembers(ByRole(host), Filter(HasRoutes(), sorted));
    MapMembers(SortRoutes(host), roles);
  }

  lemma {:induction false} GroupsForms(host: Host, roles: seq<RoleRoute>, role: Text, x: Text)
    ensures InRole(Groups(host, roles), role, x) <==> x != [] && RoleForm(host, roles, role, x)
  {
    var groups := Groups(host, roles);
    if x != [] && RoleForm(host, roles, role, x) {
      var h :| h in roles && h.role == role && HasForm(host, h.routes, x);
      UniqueSortedMembers(host, h.routes);
      GroupsMember(host, roles, SortRoutes(host)(h));
      assert SortRoutes(host)(h) in groups;
    }
    if InRole(groups, role, x) {
      var g :| g in groups && g.role == role && x in g.routes;
      GroupsMember(host, roles, g);
      var h :| h in roles && SortRoutes(host)(h) == g;
      UniqueSortedMembers(host, h.routes);
    }
  }

  lemma {:induction false} GroupsTidy(host: Host, roles: seq<RoleRoute>)
    requires Lawful(host)
    ensures TidyRoles(host, Groups(host, roles))
  {
    forall g | g in Groups(host, roles) ensures Tidy(host, g.routes) {
      GroupsMember(host, roles, g);
      var h :| h in roles && SortRoutes(host)(h) == g;
      UniqueSortedTidy(host, h.routes);
    }
  }

  lemma {:induction false} WithoutForms(host: Host, roles: seq<RoleRoute>, route: Text, role: Text, x: Text)
    ensures RoleForm(host, WithoutRoute(roles, route), role, x) <==> RoleLeft(host, roles, route, role, x)
  {
    var without := WithoutRoute(roles, route);
    MapMembers(DropRoute(route), roles);
    forall g | g in roles ensures HasForm(host, DropRoute(route)(g).routes, x) <==> Left(host, g.routes, route, x) {
      FilterMembers(Other(route), g.routes);
    }
    if RoleForm(host, without, role, x) {
      var h :| h in without && h.role == role && HasForm(host, h.routes, x);
      var g :| g in roles && DropRoute(route)(g) == h;
      assert Left(host, g.routes, route, x);
    }
    if RoleLeft(host, roles, route, role, x) {
      var g :| g in roles && g.role == role && Left(host, g.routes, route, x);
      assert DropRoute(route)(g) in without;
    }
  }

  lemma {:induction false} RoleFormOfCons(host: Host, g: RoleRoute, roles: seq<RoleRoute>, role: Text, x: Text)
    ensures RoleForm(host, [g] + roles, role, x) <==>
            (g.role == role && HasForm(host, g.routes, x)) || RoleForm(host, roles, role, x)
  {
    assert forall h :: h in [g] + roles <==> h == g || h in roles;
  }

  lemma {:induction false} AddedForms(host: Host, routes: seq<Text>, route: Text, x: Text)
    requires Lawful(host) && x != []
    ensures HasForm(host, UniqueSorted(host, routes + [route]), x) <==>
            HasForm(host, routes, x) || host.cleanText(route) == x
  {
    var all := routes + [route];
    UniqueSortedMembers(host, all);
    UniqueSortedTidy(host, all);
    assert forall t :: t in all <==> t in routes || t == route;
    if HasForm(host, all, x) {
      assert x in UniqueSorted(host, all);
    }
  }

  lemma {:induction false} WithAdminForms(host: Host, roles: seq<RoleRoute>, route: Text, role: Text, x: Text)
    requires Lawful(host) && x != []
    ensures RoleForm(host, WithAdmin(host, roles, route), role, x) <==>
            (role == ADMIN && host.cleanText(route) == x) || RoleForm(host, roles, role, x)
  {
    var r := WithAdmin(host, roles, route);
    if roles == [] {
      var g := RoleRoute(ADMIN, [route], Some(ADMIN_REASON));
      assert r == [g] + roles;
      RoleFormOfCons(host, g, roles, role, x);
      HasFormOfOne(host, route, x);
      RoleFormOfNone(host, role, x);
    } else {
      var g, rest := roles[0], roles[1..];
      assert roles == [g] + rest;
      RoleFormOfCons(host, g, rest, role, x);
      if g.role == ADMIN {
        var h := g.(routes := UniqueSorted(host, g.routes + [route]));
        assert r == [h] + rest;
        RoleFormOfCons(host, h, rest, role, x);
        AddedForms(host, g.routes, route, x);
      } else {
        assert r == [g] + WithAdmin(host, rest, route);
        RoleFormOfCons(host, g, WithAdmin(host, rest, route), role, x);
        WithAdminForms(host, rest, route, role, x);
      }
    }
  }

  lemma {:induction false} HasFormOfOne(host: Host, t: Text, x: Text)
    ensures HasForm(host, [t], x) <==> host.cleanText(t) == x
  {
    assert t in [t];
  }

  lemma {:induction false} RoleFormOfNone(host: Host, role: Text, x: Text)
    ensures !RoleForm(host, [], role, x)
  {
  }

  // ----- where a request puts a route

  /** Every listed route is clean. */
  ghost predicate CleanAuth(host: Host, auth: Auth) {
    Tidy(host, auth.publicRoutes) && Tidy(host, auth.privateRoutes) && TidyRoles(host, auth.roleRoutes)
  }

  /** The edit gives clean lists, whatever it was given. */
  lemma {:induction false} EditedIsClean(host: Host, auth: Auth, route: Option<Text>, access: Access, decision: Text)
    requires Lawful(host)
    ensures CleanAuth(host, Edited(host, auth, route, access, decision))
  {
    UniqueSortedTidy(host, if route.Some? then Moved(auth.publicRoutes, route.value, access == Public)
                           else Unique(auth.publicRoutes));
    UniqueSortedTidy(host, if route.Some? then Moved(auth.privateRoutes, route.value, access == Private)
                           else Unique(auth.privateRoutes));
    GroupsTidy(host, if route.Some? then MovedRoles(host, auth.roleRoutes, route.value, access) else auth.roleRoutes);
  }

  /** `x` is where a text other than the route with this clean form was, and where the route is put if `x` is its clean form. */
  ghost predicate Placed(host: Host, auth: Auth, route: Text, access: Access, after: Auth, role: Text, x: Text) {
    var moved := host.cleanText(route) == x;
    && (x in after.publicRoutes <==> x != [] && (Left(host, auth.publicRoutes, route, x) || (access == Public && moved)))
    && (x in after.privateRoutes <==> x != [] && (Left(host, auth.privateRoutes, route, x) || (access == Private && moved)))
    && (InRole(after.roleRoutes, role, x) <==>
        x != [] && (RoleLeft(host, auth.roleRoutes, route, role, x) || (access == Admin && role == ADMIN && moved)))
  }

  lemma {:induction false} EditPlaces(
    host: Host, auth: Auth, route: Text, access: Access, decision: Text, role: Text, x: Text)
    requires Lawful(host)
    ensures Placed(host, auth, route, access, Edited(host, auth, Some(route), access, decision), role, x)
  {
    hide UniqueSorted;
    hide Groups;
    hide Left;
    hide HasForm;
    hide RoleForm;
    hide RoleLeft;
    hide InRole;
    hide Moved;
    hide WithAdmin;
    MovedForms(host, auth.publicRoutes, route, access == Public, x);
    MovedForms(host, auth.privateRoutes, route, access == Private, x);
    WithoutForms(host, auth.roleRoutes, route, role, x);
    if x != [] {
      WithAdminForms(host, WithoutRoute(auth.roleRoutes, route), route, role, x);
    }
    GroupsForms(host, MovedRoles(host, auth.roleRoutes, route, access), role, x);
  }

  /** What a text names as a path, once normalized. */
  ghost predicate Names(host: Host, text: Option<Text>, route: Text) {
    text.Some? && host.normalizePath(text.value) == Some(route)
  }

  ghost predicate NamesNothing(host: Host, text: Option<Text>) { forall route :: !Names(host, text, route) }

  /** The route a request is about: the target's, whatever the wording names, and that of the wording if the target has none. */
  ghost predicate IsAbout(host: Host, request: Request, route: Text) {
    var inText := host.pathInText(request.requestedChange);
    Names(host, request.targetPath, route) || (NamesNothing(host, request.targetPath) && Names(host, inText, route))
  }

  /** The access a route is listed under: the first of public, private and a role's that lists it, or else private. */
  ghost predicate IsListedAs(auth: Auth, route: Text, access: Access) {
    match access
    case Public => route in auth.publicRoutes
    case Private =>
      route !in auth.publicRoutes &&
      (route in auth.privateRoutes || forall g :: g in auth.roleRoutes ==> route !in g.routes)
    case Admin =>
      && route !in auth.publicRoutes && route !in auth.privateRoutes
      && exists g :: g in auth.roleRoutes && route in g.routes
  }

  /** The access a request is for: the one its wording names, and otherwise the one its route is listed under. */
  ghost predicate IsFor(host: Host, auth: Auth, request: Request, access: Access) {
    var named := host.accessInText(request.requestedChange);
    || named == Some(access)
    || (named == None && exists route :: IsAbout(host, request, route) && IsListedAs(auth, route, access))
    || (named == None && access == Private && forall route :: !IsAbout(host, request, route))
  }

  lemma {:induction false} ListedExactly(auth: Auth, route: Text, access: Access)
    ensures RouteAccess(auth, route) == access <==> IsListedAs(auth, route, access)
  {
    if g :| g in auth.roleRoutes && route in g.routes {
      var i :| 0 <= i < |auth.roleRoutes| && auth.roleRoutes[i] == g;
    }
  }

  lemma {:induction false} AboutExactly(host: Host, request: Request, route: Text)
    ensures RoutePath(host, request) == Some(route) <==> IsAbout(host, request, route)
  {
    var target := if request.targetPath.Some? then host.normalizePath(request.targetPath.value) else None;
    assert target.Some? ==> Names(host, request.targetPath, target.value);
  }

  /** The route and the access that the edit works with are those that the request is about and for. */
  lemma {:induction false} RequestExactly(host: Host, auth: Auth, request: Request, route: Text, access: Access)
    ensures RoutePath(host, request) == Some(route) <==> IsAbout(host, request, route)
    ensures RoutePath(host, request) == None <==> forall other :: !IsAbout(host, request, other)
    ensures RequestedAccess(host, auth, request) == access <==> IsFor(host, auth, request, access)
  {
    hide IsAbout;
    hide IsListedAs;
    hide RouteAccess;
    hide RoutePath;
    forall other ensures RoutePath(host, request) == Some(other) <==> IsAbout(host, request, other) {
      AboutExactly(host, request, other);
    }
    if RoutePath(host, request).Some? {
      ListedExactly(auth, RoutePath(host, request).value, access);
    }
  }

  /** The path of a selected target: the one given, or else one named in the wording, or else the first of the draft. */
  lemma {:induction false} SelectedExactly(
    host: Host, given: Option<Text>, requestedChange: Text, first: Option<Text>, route: Text)
    ensures SelectedPath(host, given, requestedChange, first) == Some(route) <==>
            || Names(host, given, route)
            || (NamesNothing(host, given) && Names(host, host.pathInText(requestedChange), route))
            || (NamesNothing(host, given) && NamesNothing(host, host.pathInText(requestedChange)) && first == Some(route))
  {
    var target := if given.Some? then host.normalizePath(given.value) else None;
    var inText := host.pathInText(requestedChange);
    var named := if inText.Some? then host.normalizePath(inText.value) else None;
    assert target.Some? ==> Names(host, given, target.value);
    assert named.Some? ==> Names(host, inText, named.value);
  }

  /**
   Where every clean text is after a request, whatever the lists held: where another text with
   this clean form was, and the clean form of the route that the request is about where the
   access says that it is for.
   */
  lemma {:induction false} RouteIsPlaced(
    host: Host, auth: Auth, request: Request, route: Text, access: Access, role: Text, x: Text)
    requires Lawful(host) && IsAbout(host, request, route) && IsFor(host, auth, request, access)
    ensures Placed(host, auth, route, access, AuthAfter(host, auth, request), role, x)
  {
    hide Placed;
    hide IsFor;
    hide IsAbout;
    hide RoutePath;
    hide RequestedAccess;
    hide Edited;
    RequestExactly(host, auth, request, route, access);
    EditPlaces(host, auth, route, access, Decision(request), role, x);
  }

  lemma {:induction false} RouteIsPlacedAsRequested(host: Host, auth: Auth, request: Request, role: Text, x: Text)
    requires Lawful(host) && RoutePath(host, request).Some?
    ensures Placed(host, auth, RoutePath(host, request).value, RequestedAccess(host, auth, request),
                   AuthAfter(host, auth, request), role, x)
  {
    EditPlaces(host, auth, RoutePath(host, request).value, RequestedAccess(host, auth, request), Decision(request), role, x);
  }

  /** A request that is about no route cleans the lists and moves nothing. */
  lemma {:induction false} NothingIsMoved(host: Host, auth: Auth, request: Request, role: Text, x: Text)
    requires forall route :: !IsAbout(host, request, route)
    ensures var after := AuthAfter(host, auth, request);
            && (x in after.publicRoutes <==> x != [] && HasForm(host, auth.publicRoutes, x))
            && (x in after.privateRoutes <==> x != [] && HasForm(host, auth.privateRoutes, x))
            && (InRole(after.roleRoutes, role, x) <==> x != [] && RoleForm(host, auth.roleRoutes, role, x))
  {
    hide IsAbout;
    hide UniqueSorted;
    hide Groups;
    hide InRole;
    hide RoleForm;
    RequestExactly(host, auth, request, [], Private);
    UniqueSortedMembers(host, Unique(auth.publicRoutes));
    UniqueSortedMembers(host, Unique(auth.privateRoutes));
    UniqueMembers(auth.publicRoutes);
    UniqueMembers(auth.privateRoutes);
    GroupsForms(host, auth.roleRoutes, role, x);
  }

  /** The lists of the section are sorted, and so are its groups, by role, none of them empty. */
  lemma {:induction false} SectionInOrder(host: Host, auth: Auth, request: Request)
    requires Consistent(host.collate)
    ensures var after := AuthAfter(host, auth, request);
            && InOrder(host, after.publicRoutes) && InOrder(host, after.privateRoutes) && InOrder(host, after.decisions)
            && (forall g :: g in after.roleRoutes ==> InOrder(host, g.routes) && g.routes != [])
            && forall i, j :: 0 <= i < j < |after.roleRoutes| ==>
                 host.collate(after.roleRoutes[j].role, after.roleRoutes[i].role) >= 0
  {
    hide UniqueSorted;
    forall s ensures InOrder(host, UniqueSorted(host, s)) {
      UniqueSortedInOrder(host, s);
    }
    var route := RoutePath(host, request);
    GroupsInOrder(host, if route.Some? then MovedRoles(host, auth.roleRoutes, route.value, RequestedAccess(host, auth, request))
                        else auth.roleRoutes);
  }

  ghost predicate InOrder(host: Host, r: seq<Text>) {
    Distinct(r) && forall i, j :: 0 <= i < j < |r| ==> host.collate(r[j], r[i]) >= 0
  }

  lemma {:induction false} GroupsInOrder(host: Host, roles: seq<RoleRoute>)
    requires Consistent(host.collate)
    ensures var r := Groups(host, roles);
            && (forall g :: g in r ==> g.routes != [] && InOrder(host, g.routes))
            && forall i, j :: 0 <= i < j < |r| ==> host.collate(r[j].role, r[i].role) >= 0
  {
    hide UniqueSorted;
    var r, kept := Groups(host, roles), Filter(HasRoutes(), SortedRoutes(host, roles));
    LessIsWeak(host.collate);
    assert StrictWeak(ByRole(host)) by {
      assert forall g, h :: ByRole(host)(g, h) == Less(host.collate)(g.role, h.role);
    }
    SortSorted(ByRole(host), kept);
    forall i, j | 0 <= i < j < |r| ensures host.collate(r[j].role, r[i].role) >= 0 {
      assert !ByRole(host)(r[j], r[i]);
    }
    forall g | g in r ensures g.routes != [] && InOrder(host, g.routes) {
      GroupsMember(host, roles, g);
      var h :| h in roles && SortRoutes(host)(h) == g;
      UniqueSortedInOrder(host, h.routes);
    }
  }

  /** The group is one of these but for its routes. */
  ghost predicate ComesFrom(roles: seq<RoleRoute>, g: RoleRoute) {
    exists h :: h in roles && h.role == g.role && h.reason == g.reason
  }

  lemma {:induction false} WithAdminComesFrom(host: Host, roles: seq<RoleRoute>, route: Text, g: RoleRoute)
    requires g in WithAdmin(host, roles, route)
    ensures ComesFrom(roles, g) || (g == RoleRoute(ADMIN, [route], Some(ADMIN_REASON)) && forall h :: h in roles ==> h.role != ADMIN)
  {
    hide UniqueSorted;
    if roles != [] {
      var h, rest := roles[0], roles[1..];
      assert roles == [h] + rest;
      if h.role == ADMIN {
        assert WithAdmin(host, roles, route) == [h.(routes := UniqueSorted(host, h.routes + [route]))] + rest;
      } else {
        assert WithAdmin(host, roles, route) == [h] + WithAdmin(host, rest, route);
        if g != h {
          WithAdminComesFrom(host, rest, route, g);
        }
      }
    }
  }

  /** Every group keeps its role and reason; the only new one is an admin group, where there was none, for its own reason. */
  lemma {:induction false} GroupsKeepReasons(host: Host, auth: Auth, request: Request, g: RoleRoute)
    requires g in AuthAfter(host, auth, request).roleRoutes
    ensures || ComesFrom(auth.roleRoutes, g)
            || (&& g.role == Literal("admin") && (forall h :: h in auth.roleRoutes ==> h.role != Literal("admin"))
                && g.reason == Some(Literal("Iteration request requires role-gated generated app access.")))
  {
    hide Literal;
    hide UniqueSorted;
    hide Groups;
    hide WithAdmin;
    var route := RoutePath(host, request);
    var roles := if route.Some? then MovedRoles(host, auth.roleRoutes, route.value, RequestedAccess(host, auth, request))
                 else auth.roleRoutes;
    GroupsMember(host, roles, g);
    var h :| h in roles && SortRoutes(host)(h) == g;
    if route.Some? {
      var without := WithoutRoute(auth.roleRoutes, route.value);
      MapMembers(DropRoute(route.value), auth.roleRoutes);
      WithoutComesFrom(auth.roleRoutes, route.value);
      if RequestedAccess(host, auth, request) == Admin {
        WithAdminComesFrom(host, without, route.value, h);
      }
    }
  }

  lemma {:induction false} WithoutComesFrom(roles: seq<RoleRoute>, route: Text)
    ensures forall g :: ComesFrom(WithoutRoute(roles, route), g) <==> ComesFrom(roles, g)
    ensures (forall h :: h in WithoutRoute(roles, route) ==> h.role != ADMIN) <==> (forall h :: h in roles ==> h.role != ADMIN)
  {
    var without := WithoutRoute(roles, route);
    MapMembers(DropRoute(route), roles);
    forall h | h in roles ensures DropRoute(route)(h) in without && DropRoute(route)(h).role == h.role {
    }
    forall g ensures ComesFrom(without, g) <==> ComesFrom(roles, g) {
      if h :| h in roles && h.role == g.role && h.reason == g.reason {
        assert DropRoute(route)(h) in without;
      }
    }
  }

  /** The policy is kept, or set where there was none; the request is added to the decisions, and no other goes. */
  lemma {:induction false} RequestIsRecorded(host: Host, auth: Auth, request: Request, x: Text)
    ensures AuthAfter(host, auth, request).defaultPolicy ==
            if auth.defaultPolicy.Some? then auth.defaultPolicy else Some(Literal("authenticated-by-default"))
    ensures x in AuthAfter(host, auth, request).decisions <==>
            && x != []
            && (HasForm(host, auth.decisions, x) ||
                host.cleanText(Literal("Iteration request: ") + request.requestedChange) == x)
  {
    hide Literal;
    hide UniqueSorted;
    hide Groups;
    var all := auth.decisions + [Decision(request)];
    UniqueSortedMembers(host, all);
    assert forall t :: t in all <==> t in auth.decisions || t == Decision(request);
  }

  /**
   Of clean lists, a clean target route ends up in exactly one place, the one for
   its access; every other route is where it was.
   */
  lemma {:induction false} CleanRouteIsPlaced(
    host: Host, auth: Auth, route: Text, access: Access, after: Auth, role: Text, x: Text)
    requires CleanAuth(host, auth) && Clean(host, route) && route != [] && Placed(host, auth, route, access, after, role, x)
    ensures x in after.publicRoutes <==> if x == route then access == Public else x in auth.publicRoutes
    ensures x in after.privateRoutes <==> if x == route then access == Private else x in auth.privateRoutes
    ensures InRole(after.roleRoutes, role, x) <==>
            if x == route then access == Admin && role == ADMIN else InRole(auth.roleRoutes, role, x)
  {
    LeftInTidy(host, auth.publicRoutes, route, x);
    LeftInTidy(host, auth.privateRoutes, route, x);
    forall g | g in auth.roleRoutes ensures Left(host, g.routes, route, x) <==> x in g.routes && x != route {
      LeftInTidy(host, g.routes, route, x);
    }
    if x in auth.publicRoutes || x in auth.privateRoutes || InRole(auth.roleRoutes, role, x) {
      assert x != [];
    }
  }

  lemma {:induction false} RouteIsNotEmpty(host: Host, request: Request)
    requires Lawful(host) && RoutePath(host, request).Some?
    ensures RoutePath(host, request).value != [] && host.cleanText(RoutePath(host, request).value) != []
  {
  }

  lemma {:induction false} AccessInRoles(auth: Auth, route: Text)
    ensures RouteAccess(auth, route) ==
            if route in auth.publicRoutes then Public else if route in auth.privateRoutes then Private
            else if exists role :: InRole(auth.roleRoutes, role, route) then Admin else Private
  {
    var roles := auth.roleRoutes;
    if i :| 0 <= i < |roles| && route in roles[i].routes {
      assert roles[i] in roles && InRole(roles, roles[i].role, route);
    }
    if role :| InRole(roles, role, route) {
      var g :| g in roles && g.role == role && route in g.routes;
      var i :| 0 <= i < |roles| && roles[i] == g;
      assert route in roles[i].routes;
    }
  }

  lemma {:induction false} UncleanIsNowhere(host: Host, auth: Auth, x: Text, role: Text)
    requires CleanAuth(host, auth) && !Clean(host, x)
    ensures x !in auth.publicRoutes && x !in auth.privateRoutes && !InRole(auth.roleRoutes, role, x)
  {
  }

  /**
   When a change of access takes effect: a clean target reads as it was asked to
   exactly if no other form of it stays in a list that is read before, and an
   unclean one exactly if it is to be private.
   */
  lemma {:induction false} AccessExactly(host: Host, auth: Auth, request: Request)
    requires Lawful(host) && RoutePath(host, request).Some?
    ensures var route, access := RoutePath(host, request).value, RequestedAccess(host, auth, request);
            RouteAccess(AuthAfter(host, auth, request), route) == access <==>
            if Clean(host, route)
            then (access == Public || !Left(host, auth.publicRoutes, route, route)) &&
                 (access == Admin ==> !Left(host, auth.privateRoutes, route, route))
            else access == Private
  {
    hide Left;
    hide RoleLeft;
    hide InRole;
    hide Edited;
    hide RequestedAccess;
    hide RoutePath;
    var route, access := RoutePath(host, request).value, RequestedAccess(host, auth, request);
    var after := AuthAfter(host, auth, request);
    RouteIsNotEmpty(host, request);
    AccessInRoles(after, route);
    RouteIsPlacedAsRequested(host, auth, request, ADMIN, route);
    if !Clean(host, route) {
      EditedIsClean(host, auth, Some(route), access, Decision(request));
      forall role ensures route !in after.publicRoutes && route !in after.privateRoutes && !InRole(after.roleRoutes, role, route) {
        UncleanIsNowhere(host, after, route, role);
      }
    }
  }

  /**
   A private route stored as " /a" stays private when "/a" is to be held by the
   admin role: the group is given the route, but reading finds it private first.
   */
  lemma {:induction false} LeftFormHidesAccess(host: Host, space: RoutePaths.Space, auth: Auth, request: Request, path: Text)
    requires forall t :: host.cleanText(t) == RoutePaths.CleanText(space, t)
    requires forall t :: host.normalizePath(t) == RoutePaths.NormalizePath(space, t)
    requires RoutePaths.IsUsual(space) && path == [SLASH, 97]
    requires auth == Auth(None, [], [[RoutePaths.SPACE] + path], [], [])
    requires host.accessInText(request.requestedChange) == Some(Admin)
    requires exists first :: request.targetPath == SelectedPath(host, Some([97]), request.requestedChange, first)
    ensures RoutePath(host, request) == Some(path) && RequestedAccess(host, auth, request) == Admin
    ensures InRole(AuthAfter(host, auth, request).roleRoutes, ADMIN, path)
    ensures RouteAccess(AuthAfter(host, auth, request), path) == Private
  {
    hide AuthAfter;
    hide RoutePaths.CleanText;
    hide RoutePaths.NormalizePath;
    SourceIsLawful(host, space);
    RoutePaths.SlashIsAdded(space, path);
    RoutePaths.BlankIsDropped(space, path);
    assert auth.privateRoutes[0] in auth.privateRoutes;
    assert Left(host, auth.privateRoutes, path, path);
    RouteIsPlacedAsRequested(host, auth, request, ADMIN, path);
    AccessInRoles(AuthAfter(host, auth, request), path);
    assert path !in AuthAfter(host, auth, request).publicRoutes;
  }

  /**
   Asked for as "/a / /", a route is "/a / " once selected, and "/a " in the edit:
   it cannot be made public, or be held by the admin role, whatever is listed.
   */
  lemma {:induction false} UncleanAccessIsLost(host: Host, space: RoutePaths.Space, auth: Auth, request: Request, path: Text)
    requires forall t :: host.cleanText(t) == RoutePaths.CleanText(space, t)
    requires forall t :: host.normalizePath(t) == RoutePaths.NormalizePath(space, t)
    requires RoutePaths.IsUsual(space) && path == [SLASH, 97, RoutePaths.SPACE]
    requires host.accessInText(request.requestedChange) == Some(Public) || host.accessInText(request.requestedChange) == Some(Admin)
    requires exists first ::
               request.targetPath == SelectedPath(host, Some(path + [SLASH, RoutePaths.SPACE, SLASH]), request.requestedChange, first)
    ensures RoutePath(host, request) == Some(path) && !Clean(host, path)
    ensures RouteAccess(AuthAfter(host, auth, request), path) == Private != RequestedAccess(host, auth, request)
  {
    hide AuthAfter;
    hide RoutePaths.CleanText;
    hide RoutePaths.NormalizePath;
    hide InRole;
    SourceIsLawful(host, space);
    RoutePaths.NormalizedTwiceMayEndBlank(space, path);
    RoutePaths.CleanExactly(space, path);
    var access, after := RequestedAccess(host, auth, request), AuthAfter(host, auth, request);
    AccessInRoles(after, path);
    EditIsClean(host, auth, request);
    forall role ensures path !in after.publicRoutes && path !in after.privateRoutes && !InRole(after.roleRoutes, role, path) {
      UncleanIsNowhere(host, after, path, role);
    }
  }

  lemma {:induction false} EditIsClean(host: Host, auth: Auth, request: Request)
    requires Lawful(host)
    ensures CleanAuth(host, AuthAfter(host, auth, request))
  {
    EditedIsClean(host, auth, RoutePath(host, request), RequestedAccess(host, auth, request), Decision(request));
  }

  /** An unclean target made public leaves its clean form public, and private if it was private. */
  lemma {:induction false} UncleanTargetOverlaps(host: Host, auth: Auth, request: Request)
    requires Lawful(host) && RoutePath(host, request).Some? && !Clean(host, RoutePath(host, request).value)
    requires RequestedAccess(host, auth, request) == Public
    requires host.cleanText(RoutePath(host, request).value) in auth.privateRoutes
    ensures var form, after := host.cleanText(RoutePath(host, request).value), AuthAfter(host, auth, request);
            form in after.publicRoutes && form in after.privateRoutes
  {
    RouteIsNotEmpty(host, request);
    RouteIsPlacedAsRequested(host, auth, request, ADMIN, host.cleanText(RoutePath(host, request).value));
  }

  // ----- one access for each route

  ghost predicate OneAccess(auth: Auth, x: Text, role: Text, other: Text) {
    && !(x in auth.publicRoutes && x in auth.privateRoutes)
    && !(x in auth.publicRoutes && InRole(auth.roleRoutes, role, x))
    && !(x in auth.privateRoutes && InRole(auth.roleRoutes, role, x))
    && (InRole(auth.roleRoutes, role, x) && InRole(auth.roleRoutes, other, x) ==> role == other)
  }

  /** No route has two accesses. */
  ghost predicate Partition(auth: Auth) {
    forall x, role, other :: OneAccess(auth, x, role, other)
  }

  ghost predicate OneForm(host: Host, auth: Auth, x: Text, role: Text, other: Text) {
    && !(HasForm(host, auth.publicRoutes, x) && HasForm(host, auth.privateRoutes, x))
    && !(HasForm(host, auth.publicRoutes, x) && RoleForm(host, auth.roleRoutes, role, x))
    && !(HasForm(host, auth.privateRoutes, x) && RoleForm(host, auth.roleRoutes, role, x))
    && (RoleForm(host, auth.roleRoutes, role, x) && RoleForm(host, auth.roleRoutes, other, x) ==> role == other)
  }

  /** No route has two accesses, however its texts are spaced. */
  ghost predicate FormPartition(host: Host, auth: Auth) {
    forall x, role, other :: OneForm(host, auth, x, role, other)
  }

  /** No other form of the route is listed anywhere but where the route is to go. */
  ghost predicate TargetIsFree(host: Host, auth: Auth, route: Text, access: Access) {
    var form := host.cleanText(route);
    && (access != Public ==> !Left(host, auth.publicRoutes, route, form))
    && (access != Private ==> !Left(host, auth.privateRoutes, route, form))
    && (forall role :: access != Admin || role != ADMIN ==> !RoleLeft(host, auth.roleRoutes, route, role, form))
  }

  lemma {:induction false} LeftIsForm(host: Host, auth: Auth, route: Text, role: Text, x: Text)
    ensures Left(host, auth.publicRoutes, route, x) ==> HasForm(host, auth.publicRoutes, x)
    ensures Left(host, auth.privateRoutes, route, x) ==> HasForm(host, auth.privateRoutes, x)
    ensures RoleLeft(host, auth.roleRoutes, route, role, x) ==> RoleForm(host, auth.roleRoutes, role, x)
  {
  }

  lemma {:induction false} OneAccessAfter(
    host: Host, auth: Auth, route: Text, access: Access, after: Auth, x: Text, role: Text, other: Text)
    requires OneForm(host, auth, x, role, other) && TargetIsFree(host, auth, route, access)
    requires Placed(host, auth, route, access, after, role, x) && Placed(host, auth, route, access, after, other, x)
    ensures OneAccess(after, x, role, other)
  {
    LeftIsForm(host, auth, route, role, x);
    LeftIsForm(host, auth, route, other, x);
  }

  /** If no route had two accesses, however spaced, then none has afterwards exactly if no other form of the target stays elsewhere. */
  lemma {:induction false} PartitionIsKept(host: Host, auth: Auth, request: Request)
    requires Lawful(host) && FormPartition(host, auth)
    requires RoutePath(host, request).Some?
    ensures Partition(AuthAfter(host, auth, request)) <==>
            TargetIsFree(host, auth, RoutePath(host, request).value, RequestedAccess(host, auth, request))
  {
    hide Left;
    hide HasForm;
    hide RoleLeft;
    hide RoleForm;
    hide InRole;
    hide AuthAfter;
    hide RequestedAccess;
    hide RoutePath;
    var route, access := RoutePath(host, request).value, RequestedAccess(host, auth, request);
    var after, form := AuthAfter(host, auth, request), host.cleanText(route);
    RouteIsNotEmpty(host, request);
    if TargetIsFree(host, auth, route, access) {
      forall x, role, other ensures OneAccess(after, x, role, other) {
        assert OneForm(host, auth, x, role, other);
        RouteIsPlacedAsRequested(host, auth, request, role, x);
        RouteIsPlacedAsRequested(host, auth, request, other, x);
        OneAccessAfter(host, auth, route, access, after, x, role, other);
      }
    }
    if Partition(after) {
      forall role ensures access != Admin || role != ADMIN ==> !RoleLeft(host, auth.roleRoutes, route, role, form) {
        assert OneAccess(after, form, role, ADMIN);
        RouteIsPlacedAsRequested(host, auth, request, role, form);
        RouteIsPlacedAsRequested(host, auth, request, ADMIN, form);
      }
      assert OneAccess(after, form, ADMIN, ADMIN);
      RouteIsPlacedAsRequested(host, auth, request, ADMIN, form);
    }
  }

  /** A request that names no access moves a route held by another role over to the admin role. */
  lemma {:induction false} RoleRoutesBecomeAdmin(host: Host, auth: Auth, request: Request, role: Text)
    requires Lawful(host) && RoutePath(host, request).Some? && Clean(host, RoutePath(host, request).value)
    requires host.accessInText(request.requestedChange) == None
    requires RouteAccess(auth, RoutePath(host, request).value) == Admin && role != ADMIN
    ensures var route, after := RoutePath(host, request).value, AuthAfter(host, auth, request);
            && InRole(after.roleRoutes, ADMIN, route)
            && (InRole(after.roleRoutes, role, route) <==> RoleLeft(host, auth.roleRoutes, route, role, route))
  {
    hide AuthAfter;
    hide RouteAccess;
    hide RoleLeft;
    hide InRole;
    RouteIsPlacedAsRequested(host, auth, request, role, RoutePath(host, request).value);
    RouteIsPlacedAsRequested(host, auth, request, ADMIN, RoutePath(host, request).value);
  }

  // ----- repeating a request

  lemma {:induction false} CleanAllOfTidy(host: Host, s: seq<Text>)
    requires Tidy(host, s)
    ensures Filter(NotEmpty(), CleanAll(host, s)) == s
  {
    forall i | 0 <= i < |s| ensures host.cleanText(s[i]) == s[i] {
      assert s[i] in s;
    }
    assert CleanAll(host, s) == s;
    FilterKeepsAll(NotEmpty(), s);
  }

  lemma {:induction false} UniqueSortedSorted(host: Host, s: seq<Text>)
    requires StrictWeak(Less(host.collate))
    ensures Sorted(Less(host.collate), UniqueSorted(host, s))
  {
    SortSorted(Less(host.collate), Unique(Filter(NotEmpty(), CleanAll(host, s))));
  }

  lemma {:induction false} UniqueSortedOfTidy(host: Host, s: seq<Text>)
    requires Tidy(host, s) && Distinct(s)
    ensures UniqueSorted(host, s) == Sort(Less(host.collate), s)
  {
    CleanAllOfTidy(host, s);
    UniqueOfDistinct(s);
  }

  lemma {:induction false} UniqueSortedTwice(host: Host, s: seq<Text>)
    requires Lawful(host) && StrictWeak(Less(host.collate))
    ensures UniqueSorted(host, UniqueSorted(host, s)) == UniqueSorted(host, s)
  {
    var u := UniqueSorted(host, s);
    UniqueSortedSorted(host, s);
    UniqueSortedMembers(host, s);
    UniqueSortedTidy(host, s);
    UniqueSortedOfTidy(host, u);
    SortOfSorted(Less(host.collate), u);
  }

  /** `x` is in the list, and before everything behind it. */
  ghost predicate LastOfTies(less: (Text, Text) -> bool, s: seq<Text>, x: Text) {
    exists i :: 0 <= i < |s| && LastAt(less, s, x, i)
  }

  ghost predicate LastAt(less: (Text, Text) -> bool, s: seq<Text>, x: Text, i: nat)
    requires i < |s|
  {
    s[i] == x && forall j :: i < j < |s| ==> less(x, s[j])
  }

  lemma {:induction false} InsertKeepsLast(less: (Text, Text) -> bool, y: Text, s: seq<Text>, x: Text)
    requires LastOfTies(less, s, x)
    ensures LastOfTies(less, Insert(less, y, s), x)
  {
    var i :| 0 <= i < |s| && LastAt(less, s, x, i);
    var r := Insert(less, y, s);
    if !less(s[0], y) {
      assert LastAt(less, r, x, i + 1);
    } else if i == 0 {
      var t := Insert(less, y, s[1..]);
      forall j | 0 < j < |r| ensures less(x, r[j]) {
        assert r[j] == t[j - 1] && t[j - 1] in multiset(t);
        assert t[j - 1] == y || t[j - 1] in s[1..];
      }
      assert LastAt(less, r, x, 0);
    } else {
      assert LastAt(less, s[1..], x, i - 1);
      InsertKeepsLast(less, y, s[1..], x);
      var t := Insert(less, y, s[1..]);
      var k :| 0 <= k < |t| && LastAt(less, t, x, k);
      assert LastAt(less, r, x, k + 1);
    }
  }

  lemma {:induction false} LastStaysLast(less: (Text, Text) -> bool, s: seq<Text>, x: Text)
    ensures LastOfTies(less, Sort(less, s + [x]), x)
  {
    if s == [] {
      assert [x][1..] == [] && s + [x] == [x];
      assert Sort(less, [x]) == [x];
      assert LastAt(less, [x], x, 0);
    } else {
      assert (s + [x])[1..] == s[1..] + [x];
      LastStaysLast(less, s[1..], x);
      InsertKeepsLast(less, s[0], Sort(less, s[1..] + [x]), x);
    }
  }

  /** Adding to a sorted list, at the end, what comes before all of it. */
  lemma {:induction false} SortOfFirstLast(less: (Text, Text) -> bool, x: Text, s: seq<Text>)
    requires StrictWeak(less) && Sorted(less, s) && forall i :: 0 <= i < |s| ==> less(x, s[i])
    ensures Sort(less, s + [x]) == [x] + s
  {
    if s == [] {
      assert s + [x] == [x] && [x][1..] == [];
    } else {
      assert (s + [x])[1..] == s[1..] + [x];
      SortOfFirstLast(less, x, s[1..]);
      SortOfSorted(less, s);
      assert Insert(less, s[0], s[1..]) == s by {
        SortOfSorted(less, s[1..]);
      }
    }
  }

  lemma {:induction false} TakeOutAt(less: (Text, Text) -> bool, s: seq<Text>, x: Text, i: nat)
    requires StrictWeak(less) && Sorted(less, s) && Distinct(s) && i < |s| && LastAt(less, s, x, i)
    ensures Sort(less, Filter(Other(x), s) + [x]) == s
  {
    hide Sort;
    hide StrictWeak;
    var head, tail := s[0], s[1..];
    assert s == [head] + tail;
    TailOfSorted(less, s);
    FilterOfCons(Other(x), head, tail);
    if i == 0 {
      assert x !in tail;
      FilterKeepsAll(Other(x), tail);
      SortOfFirstLast(less, x, tail);
    } else {
      TakeOutAt(less, tail, x, i - 1);
      assert s[i] == x && s[0] != s[i];
      assert [head] + (Filter(Other(x), tail) + [x]) == Filter(Other(x), s) + [x];
      SortInFront(less, head, Filter(Other(x), tail) + [x], tail);
    }
  }

  lemma {:induction false} TailOfSorted(less: (Text, Text) -> bool, s: seq<Text>)
    requires s != [] && Sorted(less, s) && Distinct(s)
    ensures Sorted(less, s[1..]) && Distinct(s[1..])
  {
  }

  /** An element that is last of its ties goes back to where it was. */
  lemma {:induction false} TakeOutAndBack(less: (Text, Text) -> bool, s: seq<Text>, x: Text)
    requires StrictWeak(less) && Sorted(less, s) && Distinct(s) && LastOfTies(less, s, x)
    ensures Sort(less, Filter(Other(x), s) + [x]) == s
  {
    var i :| 0 <= i < |s| && LastAt(less, s, x, i);
    TakeOutAt(less, s, x, i);
  }

  lemma {:induction false} SortInFront(less: (Text, Text) -> bool, head: Text, s: seq<Text>, tail: seq<Text>)
    requires Sort(less, s) == tail && Sorted(less, [head] + tail)
    ensures Sort(less, [head] + s) == [head] + tail
  {
    var all := [head] + tail;
    assert ([head] + s)[1..] == s;
    if tail != [] {
      assert !less(all[1], all[0]);
    }
  }

  /** The collation ties the route with no other text. */
  ghost predicate ToldApart(host: Host, route: Text) {
    forall t :: t != route ==> Less(host.collate)(t, route) || Less(host.collate)(route, t)
  }

  lemma {:induction false} UniqueOfAppended(s: seq<Text>, x: Text)
    requires x !in s
    ensures Unique(s + [x]) == Unique(s) + [x]
  {
    assert (s + [x])[..|s|] == s;
    UniqueMembers(s);
  }

  lemma {:induction false} FormsOfAppended(host: Host, s: seq<Text>, x: Text)
    requires Clean(host, x) && x != []
    ensures Filter(NotEmpty(), CleanAll(host, s + [x])) == Filter(NotEmpty(), CleanAll(host, s)) + [x]
  {
    assert CleanAll(host, s + [x]) == CleanAll(host, s) + [x];
    FilterConcat(NotEmpty(), CleanAll(host, s), [x]);
    FilterOfCons(NotEmpty(), x, []);
  }

  /** A route added at the end of a list comes last of its ties, if it has none or is not listed in another form. */
  lemma {:induction false} AddedIsLast(host: Host, s: seq<Text>, route: Text)
    requires Lawful(host) && StrictWeak(Less(host.collate)) && Clean(host, route) && route != []
    requires ToldApart(host, route) || !HasForm(host, s, route)
    ensures LastOfTies(Less(host.collate), UniqueSorted(host, s + [route]), route)
  {
    var less, r := Less(host.collate), UniqueSorted(host, s + [route]);
    if ToldApart(host, route) {
      AddedIsListed(host, s, route);
      UniqueSortedSorted(host, s + [route]);
      UniqueSortedMembers(host, s + [route]);
      var i :| 0 <= i < |r| && r[i] == route;
      assert LastAt(less, r, route, i);
    } else {
      var forms := Filter(NotEmpty(), CleanAll(host, s));
      FormsOfAppended(host, s, route);
      CleanAllMembers(host, s, route);
      FilterMembers(NotEmpty(), CleanAll(host, s));
      UniqueOfAppended(forms, route);
      LastStaysLast(less, Unique(forms), route);
    }
  }

  lemma {:induction false} AddedIsListed(host: Host, s: seq<Text>, route: Text)
    requires Clean(host, route) && route != []
    ensures route in UniqueSorted(host, s + [route])
  {
    UniqueSortedMembers(host, s + [route]);
    assert route in s + [route];
  }

  lemma {:induction false} MovedRest(host: Host, routes: seq<Text>, route: Text)
    ensures HasForm(host, Filter(Other(route), Unique(routes)), route) <==> Left(host, routes, route, route)
    ensures HasForm(host, Filter(Other(route), routes), route) <==> Left(host, routes, route, route)
  {
    UniqueMembers(routes);
    FilterMembers(Other(route), Unique(routes));
    FilterMembers(Other(route), routes);
  }

  lemma {:induction false} BackInPlace(host: Host, s: seq<Text>, route: Text)
    requires StrictWeak(Less(host.collate)) && Tidy(host, s) && Distinct(s) && Sorted(Less(host.collate), s)
    requires LastOfTies(Less(host.collate), s, route)
    ensures UniqueSorted(host, Filter(Other(route), s) + [route]) == s
  {
    var rest := Filter(Other(route), s);
    assert route in s;
    FilterMembers(Other(route), s);
    FilterDistinct(Other(route), s);
    DistinctConcat(rest, [route]);
    assert Tidy(host, rest + [route]);
    UniqueSortedOfTidy(host, rest + [route]);
    TakeOutAndBack(Less(host.collate), s, route);
  }

  lemma {:induction false} MoveTwice(host: Host, routes: seq<Text>, route: Text, here: bool)
    requires Lawful(host) && StrictWeak(Less(host.collate)) && Clean(host, route) && route != []
    requires !Left(host, routes, route, route) || (here && ToldApart(host, route))
    ensures var once := UniqueSorted(host, Moved(routes, route, here));
            UniqueSorted(host, Moved(once, route, here)) == once
  {
    var moved := Moved(routes, route, here);
    var once := UniqueSorted(host, moved);
    UniqueSortedTidy(host, moved);
    UniqueSortedSorted(host, moved);
    UniqueSortedMembers(host, moved);
    UniqueOfDistinct(once);
    if here {
      MovedRest(host, routes, route);
      AddedIsLast(host, Filter(Other(route), Unique(routes)), route);
      BackInPlace(host, once, route);
    } else {
      MovedForms(host, routes, route, here, route);
      FilterKeepsAll(Other(route), once);
      assert once + [] == once;
      UniqueSortedTwice(host, moved);
    }
  }

  lemma {:induction false} CleanAllAppended(host: Host, s: seq<Text>, x: Text)
    ensures CleanAll(host, s + [x]) == CleanAll(host, s) + [host.cleanText(x)]
  {
  }

  lemma {:induction false} UniqueOfRepeated(s: seq<Text>, x: Text)
    requires Distinct(s) && x in s
    ensures Unique(s + [x]) == s
  {
    assert (s + [x])[..|s|] == s;
    UniqueOfDistinct(s);
  }

  lemma {:induction false} ListedAgain(host: Host, once: seq<Text>, x: Text)
    requires Tidy(host, once) && Distinct(once) && Sorted(Less(host.collate), once)
    requires host.cleanText(x) == [] || host.cleanText(x) in once
    ensures UniqueSorted(host, once + [x]) == once
  {
    hide Tidy;
    hide CleanAll;
    hide Unique;
    hide Filter;
    hide Sort;
    var c := host.cleanText(x);
    CleanAllOfTidy(host, once);
    CleanAllAppended(host, once, x);
    FilterConcat(NotEmpty(), CleanAll(host, once), [c]);
    FilterOfCons(NotEmpty(), c, []);
    FilterKeepsAll(NotEmpty(), []);
    assert [c] + [] == [c] && once + [] == once;
    SortOfSorted(Less(host.collate), once);
    if c == [] {
      UniqueOfDistinct(once);
    } else {
      UniqueOfRepeated(once, c);
    }
  }

  lemma {:induction false} DecisionTwice(host: Host, decisions: seq<Text>, decision: Text)
    requires Lawful(host) && StrictWeak(Less(host.collate))
    ensures var once := UniqueSorted(host, decisions + [decision]);
            UniqueSorted(host, once + [decision]) == once
  {
    var all := decisions + [decision];
    UniqueSortedTidy(host, all);
    UniqueSortedSorted(host, all);
    UniqueSortedMembers(host, all);
    assert decision in all;
    ListedAgain(host, UniqueSorted(host, all), decision);
  }

  // ----- the role groups, twice

  function Holds(route: Text): RoleRoute -> bool { (g: RoleRoute) => route in g.routes }

  ghost function HoldsForm(host: Host, route: Text): RoleRoute -> bool { (g: RoleRoute) => HasForm(host, g.routes, route) }

  /** The route is held by the first admin group, last of its ties, and by no other group. */
  ghost predicate OnlyFirstAdmin(host: Host, roles: seq<RoleRoute>, route: Text) {
    && Filter(IsAdmin(), roles) != [] && Filter(Holds(route), roles) == [Filter(IsAdmin(), roles)[0]]
    && LastOfTies(Less(host.collate), Filter(IsAdmin(), roles)[0].routes, route)
  }

  /** The same before the routes of the groups are cleaned and sorted. */
  ghost predicate OnlyFirstAdminForm(host: Host, roles: seq<RoleRoute>, route: Text) {
    && Filter(IsAdmin(), roles) != [] && Filter(HoldsForm(host, route), roles) == [Filter(IsAdmin(), roles)[0]]
    && LastOfTies(Less(host.collate), UniqueSorted(host, Filter(IsAdmin(), roles)[0].routes), route)
  }

  ghost predicate FirstAdmin(roles: seq<RoleRoute>, i: nat)
    requires i < |roles|
  {
    roles[i].role == ADMIN && forall j :: 0 <= j < i ==> roles[j].role != ADMIN
  }

  /** No group but the first admin one lists a form of the route, nor does that one if the route has ties. */
  ghost predicate FormsApart(host: Host, roles: seq<RoleRoute>, route: Text) {
    forall i :: 0 <= i < |roles| && !(FirstAdmin(roles, i) && ToldApart(host, route)) ==> !HasForm(host, roles[i].routes, route)
  }

  lemma {:induction false} NobodyHolds(host: Host, roles: seq<RoleRoute>, route: Text)
    requires forall i :: 0 <= i < |roles| ==> !HasForm(host, roles[i].routes, route)
    ensures Filter(HoldsForm(host, route), roles) == []
  {
    if roles != [] {
      NobodyHolds(host, roles[1..], route);
    }
  }

  lemma {:induction false} AdminGetsRoute(host: Host, roles: seq<RoleRoute>, route: Text)
    requires Lawful(host) && StrictWeak(Less(host.collate)) && Clean(host, route) && route != []
    requires FormsApart(host, roles, route)
    ensures OnlyFirstAdminForm(host, WithAdmin(host, roles, route), route)
  {
    hide UniqueSorted;
    hide HasForm;
    hide LastOfTies;
    hide ToldApart;
    var r := WithAdmin(host, roles, route);
    if roles == [] {
      HasFormOfOne(host, route, route);
      HasFormOfNone(host, route);
      AddedIsLast(host, [], route);
      assert [] + [route] == [route] && r[1..] == [];
      assert Filter(IsAdmin(), r) == r == Filter(HoldsForm(host, route), r);
    } else if roles[0].role == ADMIN {
      var g, rest := r[0], roles[1..];
      assert FirstAdmin(roles, 0);
      AddedForms(host, roles[0].routes, route, route);
      AddedIsLast(host, roles[0].routes, route);
      UniqueSortedTwice(host, roles[0].routes + [route]);
      assert r == [g] + rest;
      FilterOfCons(IsAdmin(), g, rest);
      FilterOfCons(HoldsForm(host, route), g, rest);
      forall i | 0 <= i < |rest| ensures !HasForm(host, rest[i].routes, route) {
        assert rest[i] == roles[i + 1] && !FirstAdmin(roles, i + 1);
      }
      NobodyHolds(host, rest, route);
    } else {
      var rest := roles[1..];
      assert !FirstAdmin(roles, 0);
      forall i | 0 <= i < |rest| && !(FirstAdmin(rest, i) && ToldApart(host, route)) ensures !HasForm(host, rest[i].routes, route) {
        assert rest[i] == roles[i + 1];
        assert FirstAdmin(roles, i + 1) ==> FirstAdmin(rest, i) by {
          assert forall j :: 0 <= j < i ==> rest[j] == roles[j + 1];
        }
      }
      AdminGetsRoute(host, rest, route);
      assert r == [roles[0]] + WithAdmin(host, rest, route);
      FilterOfCons(IsAdmin(), roles[0], WithAdmin(host, rest, route));
      FilterOfCons(HoldsForm(host, route), roles[0], WithAdmin(host, rest, route));
    }
  }

  lemma {:induction false} HasFormOfNone(host: Host, x: Text)
    ensures !HasForm(host, [], x)
  {
  }

  lemma {:induction false} SortedHold(host: Host, roles: seq<RoleRoute>, route: Text)
    requires route != []
    ensures Filter(Holds(route), SortedRoutes(host, roles)) == Map(SortRoutes(host), Filter(HoldsForm(host, route), roles))
    ensures Filter(IsAdmin(), SortedRoutes(host, roles)) == Map(SortRoutes(host), Filter(IsAdmin(), roles))
  {
    forall g | g in roles ensures Holds(route)(SortRoutes(host)(g)) <==> HoldsForm(host, route)(g) {
      UniqueSortedMembers(host, g.routes);
    }
    FilterOfMap(SortRoutes(host), IsAdmin(), IsAdmin(), roles);
    FilterOfMap(SortRoutes(host), Holds(route), HoldsForm(host, route), roles);
  }

  lemma {:induction false} SortedKeepForm(host: Host, roles: seq<RoleRoute>, route: Text)
    requires route != [] && OnlyFirstAdminForm(host, roles, route)
    ensures OnlyFirstAdmin(host, SortedRoutes(host, roles), route)
  {
    SortedHold(host, roles, route);
    var admins := Filter(IsAdmin(), roles);
    assert Map(SortRoutes(host), [admins[0]]) == [SortRoutes(host)(admins[0])];
  }

  lemma {:induction false} FilledKeepForm(host: Host, roles: seq<RoleRoute>, route: Text)
    requires OnlyFirstAdmin(host, roles, route)
    ensures OnlyFirstAdmin(host, Filter(HasRoutes(), roles), route)
  {
    var both := (g: RoleRoute) => g.routes != [] && g.role == ADMIN;
    FilterTwice(HasRoutes(), IsAdmin(), both, roles);
    FilterTwice(IsAdmin(), HasRoutes(), both, roles);
    FilterTwice(HasRoutes(), Holds(route), Holds(route), roles);
    var admins := Filter(IsAdmin(), roles);
    FilterMembers(Holds(route), roles);
    assert admins[0] in Filter(Holds(route), roles);
    assert HasRoutes()(admins[0]);
  }

  lemma {:induction false} GroupsKeepForm(host: Host, roles: seq<RoleRoute>, route: Text)
    requires route != [] && StrictWeak(Less(host.collate)) && OnlyFirstAdminForm(host, roles, route)
    ensures OnlyFirstAdmin(host, Groups(host, roles), route)
  {
    hide LastOfTies;
    hide SortedRoutes;
    hide OnlyFirstAdminForm;
    var filled := Filter(HasRoutes(), SortedRoutes(host, roles));
    SortedKeepForm(host, roles, route);
    FilledKeepForm(host, SortedRoutes(host, roles), route);
    forall g: RoleRoute, h: RoleRoute | g.role == h.role ensures !ByRole(host)(g, h) {
      assert !Less(host.collate)(g.role, g.role);
    }
    SortIsStable(ByRole(host), IsAdmin(), filled);
    FilterMembers(Holds(route), filled);
    var admin := Filter(IsAdmin(), filled)[0];
    forall x | x in filled && Holds(route)(x) ensures x == admin {
      assert x in [admin];
    }
    SortIsStable(ByRole(host), Holds(route), filled);
  }

  /** The routes of each group are as cleaning and sorting gives them. */
  ghost predicate Settled(host: Host, roles: seq<RoleRoute>) {
    forall g :: g in roles ==> SettledGroup(host, g)
  }

  ghost predicate SettledGroup(host: Host, g: RoleRoute) {
    && Tidy(host, g.routes) && Distinct(g.routes) && Sorted(Less(host.collate), g.routes)
    && UniqueSorted(host, g.routes) == g.routes && g.routes != []
  }

  lemma {:induction false} GroupsSettled(host: Host, roles: seq<RoleRoute>)
    requires Lawful(host) && StrictWeak(Less(host.collate))
    ensures Settled(host, Groups(host, roles)) && Sorted(ByRole(host), Groups(host, roles))
  {
    forall g | g in Groups(host, roles) ensures SettledGroup(host, g) {
      GroupsMember(host, roles, g);
      var h :| h in roles && SortRoutes(host)(h) == g;
      UniqueSortedTidy(host, h.routes);
      UniqueSortedMembers(host, h.routes);
      UniqueSortedSorted(host, h.routes);
      UniqueSortedTwice(host, h.routes);
    }
    assert StrictWeak(ByRole(host)) by {
      assert forall g, h :: ByRole(host)(g, h) == Less(host.collate)(g.role, h.role);
    }
    SortSorted(ByRole(host), Filter(HasRoutes(), SortedRoutes(host, roles)));
  }

  lemma {:induction false} GroupsOfSettled(host: Host, roles: seq<RoleRoute>)
    requires Settled(host, roles) && Sorted(ByRole(host), roles)
    ensures Groups(host, roles) == roles
  {
    MapKeepsAll(SortRoutes(host), roles);
    FilterKeepsAll(HasRoutes(), roles);
    SortOfSorted(ByRole(host), roles);
  }

  lemma {:induction false} WithoutAbsent(roles: seq<RoleRoute>, route: Text)
    requires forall g :: g in roles ==> route !in g.routes
    ensures WithoutRoute(roles, route) == roles
  {
    forall g | g in roles ensures DropRoute(route)(g) == g {
      FilterKeepsAll(Other(route), g.routes);
    }
    MapKeepsAll(DropRoute(route), roles);
  }

  lemma {:induction false} SettledBack(host: Host, g: RoleRoute, route: Text)
    requires Lawful(host) && StrictWeak(Less(host.collate)) && SettledGroup(host, g)
    requires LastOfTies(Less(host.collate), g.routes, route)
    ensures SortRoutes(host)(AddRoute(host, route)(DropRoute(route)(g))[0]) == g
  {
    BackInPlace(host, g.routes, route);
  }

  /** Taking the route out everywhere and giving it to the admin group again restores settled groups. */
  lemma {:induction false} AdminAgain(host: Host, roles: seq<RoleRoute>, route: Text)
    requires Lawful(host) && StrictWeak(Less(host.collate)) && Settled(host, roles) && OnlyFirstAdmin(host, roles, route)
    ensures SortedRoutes(host, WithAdmin(host, WithoutRoute(roles, route), route)) == roles
  {
    hide UniqueSorted;
    hide LastOfTies;
    hide Tidy;
    var g, rest := roles[0], roles[1..];
    assert roles == [g] + rest && g in roles && forall h :: h in rest ==> h in roles;
    FilterOfCons(IsAdmin(), g, rest);
    FilterOfCons(Holds(route), g, rest);
    var without := WithoutRoute(roles, route);
    assert without[0] == DropRoute(route)(g) && without[1..] == WithoutRoute(rest, route);
    HolderIsAdmin(host, roles, route);
    if g.role == ADMIN {
      SettledBack(host, g, route);
      FilterMembers(Holds(route), rest);
      RestHoldsNothing(host, g, rest, route);
      WithoutAbsent(rest, route);
      MapKeepsAll(SortRoutes(host), rest);
      var again := WithAdmin(host, without, route);
      assert again[1..] == rest;
    } else {
      assert route !in g.routes;
      AdminAgain(host, rest, route);
      FilterKeepsAll(Other(route), g.routes);
      var again := WithAdmin(host, without, route);
      assert again[0] == g && again[1..] == WithAdmin(host, WithoutRoute(rest, route), route);
    }
  }

  lemma {:induction false} RestHoldsNothing(host: Host, g: RoleRoute, rest: seq<RoleRoute>, route: Text)
    requires OnlyFirstAdmin(host, [g] + rest, route) && g.role == ADMIN
    ensures forall h :: h in rest ==> route !in h.routes
  {
    var roles := [g] + rest;
    FilterOfCons(IsAdmin(), g, rest);
    FilterOfCons(Holds(route), g, rest);
    FilterMembers(Holds(route), rest);
    FilterMembers(Holds(route), roles);
    assert g in Filter(Holds(route), roles);
    assert |Filter(Holds(route), roles)| == 1;
    forall h | h in rest ensures route !in h.routes {
      assert Filter(Holds(route), rest) == [];
    }
  }

  lemma {:induction false} HolderIsAdmin(host: Host, roles: seq<RoleRoute>, route: Text)
    requires OnlyFirstAdmin(host, roles, route)
    ensures forall g :: g in roles && route in g.routes ==> g.role == ADMIN
  {
    FilterMembers(Holds(route), roles);
    FilterMembers(IsAdmin(), roles);
    var admin := Filter(IsAdmin(), roles)[0];
    assert admin in Filter(IsAdmin(), roles);
    forall g | g in roles && route in g.routes ensures g == admin {
      assert g in [admin];
    }
  }

  /** Where another form of the route may stay so that a repeated request changes nothing: where the route goes. */
  ghost predicate StaysOnce(host: Host, auth: Auth, route: Text, access: Access) {
    && (access != Public ==> !Left(host, auth.publicRoutes, route, route))
    && (access != Private ==> !Left(host, auth.privateRoutes, route, route))
    && (forall i :: 0 <= i < |auth.roleRoutes| && !(access == Admin && FirstAdmin(auth.roleRoutes, i)) ==>
          !Left(host, auth.roleRoutes[i].routes, route, route))
  }

  /** The collation tells the route from every other text, or no other form of it is listed where it goes. */
  ghost predicate KeepsPlace(host: Host, auth: Auth, route: Text, access: Access) {
    || ToldApart(host, route)
    || match access
       case Public => !Left(host, auth.publicRoutes, route, route)
       case Private => !Left(host, auth.privateRoutes, route, route)
       case Admin =>
         forall i :: 0 <= i < |auth.roleRoutes| && FirstAdmin(auth.roleRoutes, i) ==>
           !Left(host, auth.roleRoutes[i].routes, route, route)
  }

  lemma {:induction false} WithoutApart(host: Host, roles: seq<RoleRoute>, route: Text)
    requires forall i :: 0 <= i < |roles| && !(FirstAdmin(roles, i) && ToldApart(host, route)) ==>
               !Left(host, roles[i].routes, route, route)
    ensures FormsApart(host, WithoutRoute(roles, route), route)
  {
    var without := WithoutRoute(roles, route);
    forall i | 0 <= i < |without| && !(FirstAdmin(without, i) && ToldApart(host, route))
      ensures !HasForm(host, without[i].routes, route)
    {
      MovedRest(host, roles[i].routes, route);
      assert forall j :: 0 <= j < |roles| ==> without[j].role == roles[j].role;
    }
  }

  /** After an edit for the admin role, only the first admin group holds the route. */
  lemma {:induction false} AdminHolds(host: Host, roles: seq<RoleRoute>, route: Text)
    requires Lawful(host) && StrictWeak(Less(host.collate)) && Clean(host, route) && route != []
    requires forall i :: 0 <= i < |roles| && !(FirstAdmin(roles, i) && ToldApart(host, route)) ==>
               !Left(host, roles[i].routes, route, route)
    ensures OnlyFirstAdmin(host, Groups(host, MovedRoles(host, roles, route, Admin)), route)
  {
    WithoutApart(host, roles, route);
    AdminGetsRoute(host, WithoutRoute(roles, route), route);
    GroupsKeepForm(host, WithAdmin(host, WithoutRoute(roles, route), route), route);
  }

  lemma {:induction false} NobodyIsLeft(host: Host, roles: seq<RoleRoute>, route: Text)
    requires forall i :: 0 <= i < |roles| ==> !Left(host, roles[i].routes, route, route)
    ensures forall g :: g in Groups(host, WithoutRoute(roles, route)) ==> route !in g.routes
  {
    var groups := Groups(host, WithoutRoute(roles, route));
    assert forall g :: g in roles ==> !Left(host, g.routes, route, route);
    forall g | g in groups ensures route !in g.routes {
      GroupsForms(host, WithoutRoute(roles, route), g.role, route);
      WithoutForms(host, roles, route, g.role, route);
    }
  }

  lemma {:induction false} RolesTwice(host: Host, roles: seq<RoleRoute>, route: Text, access: Access)
    requires Lawful(host) && StrictWeak(Less(host.collate)) && Clean(host, route) && route != []
    requires forall i :: 0 <= i < |roles| && !(access == Admin && FirstAdmin(roles, i) && ToldApart(host, route)) ==>
               !Left(host, roles[i].routes, route, route)
    ensures var once := Groups(host, MovedRoles(host, roles, route, access));
            Groups(host, MovedRoles(host, once, route, access)) == once
  {
    var moved := MovedRoles(host, roles, route, access);
    var once := Groups(host, moved);
    GroupsSettled(host, moved);
    if access == Admin {
      AdminHolds(host, roles, route);
      AdminAgain(host, once, route);
      FilterKeepsAll(HasRoutes(), once);
      SortOfSorted(ByRole(host), once);
    } else {
      NobodyIsLeft(host, roles, route);
      WithoutAbsent(once, route);
      GroupsOfSettled(host, once);
    }
  }

  lemma {:induction false} EditTwice(host: Host, auth: Auth, route: Text, access: Access, decision: Text)
    requires Lawful(host) && StrictWeak(Less(host.collate)) && Clean(host, route) && route != []
    requires StaysOnce(host, auth, route, access) && KeepsPlace(host, auth, route, access)
    ensures var once := Edited(host, auth, Some(route), access, decision);
            Edited(host, once, Some(route), access, decision) == once
  {
    hide UniqueSorted;
    hide Left;
    hide Groups;
    hide Moved;
    hide MovedRoles;
    hide ToldApart;
    MoveTwice(host, auth.publicRoutes, route, access == Public);
    MoveTwice(host, auth.privateRoutes, route, access == Private);
    RolesTwice(host, auth.roleRoutes, route, access);
    DecisionTwice(host, auth.decisions, decision);
  }

  // ----- what a repeated request shows

  lemma {:induction false} TwoHolders(host: Host, roles: seq<RoleRoute>, route: Text, j: nat, i: nat)
    requires Lawful(host) && Clean(host, route) && route != []
    requires j < i < |roles| && roles[j].role == ADMIN && HasForm(host, roles[i].routes, route)
    ensures |Filter(HoldsForm(host, route), WithAdmin(host, roles, route))| >= 2
  {
    hide UniqueSorted;
    hide HasForm;
    var r, holds := WithAdmin(host, roles, route), HoldsForm(host, route);
    if roles[0].role == ADMIN {
      AddedForms(host, roles[0].routes, route, route);
      assert r == [r[0]] + roles[1..];
      FilterOfCons(holds, r[0], roles[1..]);
      FilterMembers(holds, roles[1..]);
      assert roles[1..][i - 1] in Filter(holds, roles[1..]);
    } else {
      TwoHolders(host, roles[1..], route, j - 1, i - 1);
      assert r == [r[0]] + WithAdmin(host, roles[1..], route);
      FilterOfCons(holds, r[0], WithAdmin(host, roles[1..], route));
    }
  }

  /** As many groups hold the route as had a form of it. */
  lemma {:induction false} HoldersCounted(host: Host, roles: seq<RoleRoute>, route: Text)
    requires route != []
    ensures |Filter(Holds(route), Groups(host, roles))| == |Filter(HoldsForm(host, route), roles)|
  {
    hide UniqueSorted;
    hide HasForm;
    var sorted := SortedRoutes(host, roles);
    var filled := Filter(HasRoutes(), sorted);
    SortedHold(host, roles, route);
    FilterTwice(HasRoutes(), Holds(route), Holds(route), sorted);
    FilterCounts(Holds(route), filled);
    FilterCounts(Holds(route), Groups(host, roles));
    assert multiset(Filter(Holds(route), Groups(host, roles))) == multiset(Filter(Holds(route), filled));
    assert |multiset(Filter(Holds(route), filled))| == |Filter(Holds(route), filled)|;
    assert |multiset(Filter(Holds(route), Groups(host, roles)))| == |Filter(Holds(route), Groups(host, roles))|;
  }

  lemma {:induction false} LeftIsHeld(host: Host, roles: seq<RoleRoute>, route: Text, i: nat)
    requires Lawful(host) && Clean(host, route) && route != []
    requires i < |roles| && roles[i].role == ADMIN && !FirstAdmin(roles, i) && Left(host, roles[i].routes, route, route)
    ensures |Filter(Holds(route), Groups(host, MovedRoles(host, roles, route, Admin)))| >= 2
  {
    hide UniqueSorted;
    hide HasForm;
    hide Left;
    hide Groups;
    var j :| 0 <= j < i && roles[j].role == ADMIN;
    MovedRest(host, roles[i].routes, route);
    TwoHolders(host, WithoutRoute(roles, route), route, j, i);
    HoldersCounted(host, MovedRoles(host, roles, route, Admin), route);
  }

  lemma {:induction false} CleanHasNoneLeft(host: Host, auth: Auth, route: Text)
    requires CleanAuth(host, auth)
    ensures forall i :: 0 <= i < |auth.roleRoutes| ==> !Left(host, auth.roleRoutes[i].routes, route, route)
  {
    forall i | 0 <= i < |auth.roleRoutes| ensures !Left(host, auth.roleRoutes[i].routes, route, route) {
      assert auth.roleRoutes[i] in auth.roleRoutes;
      LeftInTidy(host, auth.roleRoutes[i].routes, route, route);
    }
  }

  /** If a second edit, to whatever access, changes nothing, then no other form of the route was left elsewhere. */
  lemma {:induction false} UnchangedStaysOnce(
    host: Host, auth: Auth, route: Text, access: Access, again: Access, decision: Text)
    requires Lawful(host) && StrictWeak(Less(host.collate)) && Clean(host, route) && route != []
    requires var once := Edited(host, auth, Some(route), access, decision);
             Edited(host, once, Some(route), again, decision) == once
    ensures StaysOnce(host, auth, route, access)
  {
    hide UniqueSorted;
    hide Left;
    hide Groups;
    hide CleanAuth;
    hide InRole;
    hide RoleLeft;
    hide MovedRoles;
    var once := Edited(host, auth, Some(route), access, decision);
    EditedIsClean(host, auth, Some(route), access, decision);
    forall role
      ensures InRole(once.roleRoutes, role, route) <==> again == Admin && role == ADMIN
      ensures Placed(host, auth, route, access, once, role, route)
      ensures route in once.publicRoutes <==> again == Public
      ensures route in once.privateRoutes <==> again == Private
    {
      EditPlaces(host, auth, route, access, decision, role, route);
      EditPlaces(host, once, route, again, decision, role, route);
      CleanRouteIsPlaced(host, once, route, again, once, role, route);
    }
    assert Placed(host, auth, route, access, once, ADMIN, route);
    assert again == access;
    forall i | 0 <= i < |auth.roleRoutes| && !(access == Admin && FirstAdmin(auth.roleRoutes, i))
      ensures !Left(host, auth.roleRoutes[i].routes, route, route)
    {
      NoneLeftInGroup(host, auth, route, access, decision, i);
    }
  }

  lemma {:induction false} NoneLeftInGroup(
    host: Host, auth: Auth, route: Text, access: Access, decision: Text, i: nat)
    requires Lawful(host) && StrictWeak(Less(host.collate)) && Clean(host, route) && route != []
    requires i < |auth.roleRoutes| && !(access == Admin && FirstAdmin(auth.roleRoutes, i))
    requires var once := Edited(host, auth, Some(route), access, decision);
             && Edited(host, once, Some(route), access, decision) == once
             && forall role :: Placed(host, auth, route, access, once, role, route) &&
                  (InRole(once.roleRoutes, role, route) <==> access == Admin && role == ADMIN)
    ensures !Left(host, auth.roleRoutes[i].routes, route, route)
  {
    hide UniqueSorted;
    hide Left;
    hide Groups;
    hide CleanAuth;
    hide InRole;
    hide MovedRoles;
    var once, g := Edited(host, auth, Some(route), access, decision), auth.roleRoutes[i];
    if Left(host, g.routes, route, route) {
      assert Placed(host, auth, route, access, once, g.role, route);
      assert RoleLeft(host, auth.roleRoutes, route, g.role, route);
      assert access == Admin && g.role == ADMIN;
      LeftIsHeld(host, auth.roleRoutes, route, i);
      EditedIsClean(host, auth, Some(route), access, decision);
      CleanHasNoneLeft(host, once, route);
      AdminHolds(host, once.roleRoutes, route);
    }
  }

  // ----- repeating a request without a route, or for an unclean one

  lemma {:induction false} UniqueAgain(host: Host, s: seq<Text>)
    requires Lawful(host) && StrictWeak(Less(host.collate))
    ensures var once := UniqueSorted(host, s);
            && Tidy(host, once) && Distinct(once) && Sorted(Less(host.collate), once)
            && Unique(once) == once && UniqueSorted(host, once) == once
  {
    hide UniqueSorted;
    UniqueSortedTidy(host, s);
    UniqueSortedMembers(host, s);
    UniqueSortedSorted(host, s);
    UniqueSortedTwice(host, s);
    UniqueOfDistinct(UniqueSorted(host, s));
  }

  lemma {:induction false} NoRouteTwice(host: Host, auth: Auth, access: Access, again: Access, decision: Text)
    requires Lawful(host) && StrictWeak(Less(host.collate))
    ensures var once := Edited(host, auth, None, access, decision);
            Edited(host, once, None, again, decision) == once
  {
    hide UniqueSorted;
    hide Groups;
    UniqueAgain(host, Unique(auth.publicRoutes));
    UniqueAgain(host, Unique(auth.privateRoutes));
    GroupsSettled(host, auth.roleRoutes);
    GroupsOfSettled(host, Groups(host, auth.roleRoutes));
    DecisionTwice(host, auth.decisions, decision);
  }

  /** A list without the route stays as it is if the route's clean form is there or the route is not added. */
  lemma {:induction false} UncleanMove(host: Host, once: seq<Text>, route: Text, here: bool)
    requires StrictWeak(Less(host.collate)) && Tidy(host, once) && Distinct(once) && Sorted(Less(host.collate), once)
    requires !Clean(host, route) && host.cleanText(route) != []
    ensures UniqueSorted(host, Moved(once, route, here)) == once <==> !here || host.cleanText(route) in once
  {
    hide UniqueSorted;
    assert route !in once;
    UniqueOfDistinct(once);
    FilterKeepsAll(Other(route), once);
    if !here {
      assert once + [] == once;
      UniqueSortedOfTidy(host, once);
      SortOfSorted(Less(host.collate), once);
    } else if host.cleanText(route) in once {
      ListedAgain(host, once, route);
    } else {
      UniqueSortedMembers(host, once + [route]);
      assert route in once + [route];
    }
  }

  /** The first admin group lists a text. */
  ghost predicate FirstAdminLists(roles: seq<RoleRoute>, x: Text) {
    Filter(IsAdmin(), roles) != [] && x in Filter(IsAdmin(), roles)[0].routes
  }

  lemma {:induction false} AdminFirst(host: Host, roles: seq<RoleRoute>, route: Text)
    requires Lawful(host) && host.cleanText(route) != []
    ensures var r := Filter(IsAdmin(), WithAdmin(host, roles, route));
            r != [] && HasForm(host, r[0].routes, host.cleanText(route))
  {
    hide UniqueSorted;
    hide HasForm;
    var r, form := WithAdmin(host, roles, route), host.cleanText(route);
    if roles == [] {
      HasFormOfOne(host, route, form);
      assert r[1..] == [];
    } else if roles[0].role == ADMIN {
      AddedForms(host, roles[0].routes, route, form);
      assert r == [r[0]] + roles[1..];
      FilterOfCons(IsAdmin(), r[0], roles[1..]);
    } else {
      AdminFirst(host, roles[1..], route);
      assert r == [roles[0]] + WithAdmin(host, roles[1..], route);
      FilterOfCons(IsAdmin(), roles[0], WithAdmin(host, roles[1..], route));
    }
  }

  lemma {:induction false} GroupsKeepFirstAdmin(host: Host, roles: seq<RoleRoute>, x: Text)
    requires StrictWeak(Less(host.collate)) && x != []
    requires Filter(IsAdmin(), roles) != [] && HasForm(host, Filter(IsAdmin(), roles)[0].routes, x)
    ensures FirstAdminLists(Groups(host, roles), x)
  {
    hide UniqueSorted;
    hide HasForm;
    var sorted := SortedRoutes(host, roles);
    var admins := Filter(IsAdmin(), roles);
    SortedHold(host, roles, x);
    UniqueSortedMembers(host, admins[0].routes);
    var both := (g: RoleRoute) => g.routes != [] && g.role == ADMIN;
    FilterTwice(HasRoutes(), IsAdmin(), both, sorted);
    FilterTwice(IsAdmin(), HasRoutes(), both, sorted);
    assert Filter(IsAdmin(), sorted)[0] == SortRoutes(host)(admins[0]) && x in SortRoutes(host)(admins[0]).routes;
    FirstIsKept(HasRoutes(), Filter(IsAdmin(), sorted));
    forall g: RoleRoute, h: RoleRoute | g.role == h.role ensures !ByRole(host)(g, h) {
      assert !Less(host.collate)(g.role, g.role);
    }
    SortIsStable(ByRole(host), IsAdmin(), Filter(HasRoutes(), sorted));
  }

  lemma {:induction false} FirstIsKept(keep: RoleRoute -> bool, roles: seq<RoleRoute>)
    requires roles != [] && keep(roles[0])
    ensures Filter(keep, roles) != [] && Filter(keep, roles)[0] == roles[0]
  {
  }

  lemma {:induction false} AdminHasIt(host: Host, roles: seq<RoleRoute>, route: Text)
    requires Settled(host, roles) && FirstAdminLists(roles, host.cleanText(route))
    ensures WithAdmin(host, roles, route) == roles
  {
    hide UniqueSorted;
    var g, rest := roles[0], roles[1..];
    assert roles == [g] + rest && g in roles && forall h :: h in rest ==> h in roles;
    FilterOfCons(IsAdmin(), g, rest);
    if g.role == ADMIN {
      assert SettledGroup(host, g);
      ListedAgain(host, g.routes, route);
    } else {
      AdminHasIt(host, rest, route);
    }
  }

  lemma {:induction false} UncleanIsAbsent(host: Host, roles: seq<RoleRoute>, route: Text)
    requires TidyRoles(host, roles) && !Clean(host, route)
    ensures WithoutRoute(roles, route) == roles
  {
    forall g | g in roles ensures route !in g.routes {
      assert Tidy(host, g.routes);
    }
    WithoutAbsent(roles, route);
  }

  /** Role groups after an edit for an unclean route are left alone by an edit for the same access, or for another than admin. */
  lemma {:induction false} UncleanRolesTwice(host: Host, roles: seq<RoleRoute>, route: Text, access: Access, again: Access)
    requires Lawful(host) && StrictWeak(Less(host.collate)) && !Clean(host, route) && host.cleanText(route) != []
    requires again == Admin ==> access == Admin
    ensures var once := Groups(host, MovedRoles(host, roles, route, access));
            Groups(host, MovedRoles(host, once, route, again)) == once
  {
    hide UniqueSorted;
    hide Groups;
    hide WithAdmin;
    hide HasForm;
    var moved := MovedRoles(host, roles, route, access);
    var once := Groups(host, moved);
    GroupsSettled(host, moved);
    GroupsTidy(host, moved);
    GroupsOfSettled(host, once);
    UncleanIsAbsent(host, once, route);
    if again == Admin {
      AdminFirst(host, WithoutRoute(roles, route), route);
      GroupsKeepFirstAdmin(host, moved, host.cleanText(route));
      AdminHasIt(host, once, route);
    }
  }

  /**
   A second edit for an unclean route, for the same access or to make it private,
   changes nothing exactly if the access is the same or the route's clean form
   stayed private.
   */
  lemma {:induction false} UncleanTwice(host: Host, auth: Auth, route: Text, access: Access, again: Access, decision: Text)
    requires Lawful(host) && StrictWeak(Less(host.collate)) && !Clean(host, route) && host.cleanText(route) != []
    requires again == access || again == Private
    ensures var once := Edited(host, auth, Some(route), access, decision);
            Edited(host, once, Some(route), again, decision) == once <==>
            again == access || Left(host, auth.privateRoutes, route, host.cleanText(route))
  {
    hide UniqueSorted;
    hide Groups;
    hide MovedRoles;
    hide Moved;
    hide Left;
    var form := host.cleanText(route);
    var once := Edited(host, auth, Some(route), access, decision);
    assert host.cleanText(form) == form;
    UniqueAgain(host, Moved(auth.publicRoutes, route, access == Public));
    UniqueAgain(host, Moved(auth.privateRoutes, route, access == Private));
    MovedForms(host, auth.publicRoutes, route, access == Public, form);
    MovedForms(host, auth.privateRoutes, route, access == Private, form);
    UncleanMove(host, once.publicRoutes, route, again == Public);
    UncleanMove(host, once.privateRoutes, route, again == Private);
    UncleanRolesTwice(host, auth.roleRoutes, route, access, again);
    DecisionTwice(host, auth.decisions, decision);
  }

  /** When a repeated request changes nothing, by what was asked and what is listed. */
  ghost predicate RepeatsQuietly(host: Host, auth: Auth, request: Request) {
    var access := RequestedAccess(host, auth, request);
    match RoutePath(host, request)
    case None => true
    case Some(route) =>
      if Clean(host, route) then StaysOnce(host, auth, route, access)
      else
        || host.accessInText(request.requestedChange).Some? || access == Private
        || Left(host, auth.privateRoutes, route, host.cleanText(route))
  }

  lemma {:induction false} CleanRepeat(host: Host, auth: Auth, request: Request)
    requires Lawful(host) && StrictWeak(Less(host.collate))
    requires RoutePath(host, request).Some? && Clean(host, RoutePath(host, request).value)
    requires KeepsPlace(host, auth, RoutePath(host, request).value, RequestedAccess(host, auth, request))
    ensures var once := AuthAfter(host, auth, request);
            AuthAfter(host, once, request) == once <==>
            StaysOnce(host, auth, RoutePath(host, request).value, RequestedAccess(host, auth, request))
  {
    var route, access := RoutePath(host, request).value, RequestedAccess(host, auth, request);
    var once := AuthAfter(host, auth, request);
    RouteIsNotEmpty(host, request);
    assert Some(route) == RoutePath(host, request);
    if StaysOnce(host, auth, route, access) {
      AccessExactly(host, auth, request);
      AskedAgain(host, auth, request, once);
      EditTwice(host, auth, route, access, Decision(request));
    }
    if AuthAfter(host, once, request) == once {
      UnchangedStaysOnce(host, auth, route, access, RequestedAccess(host, once, request), Decision(request));
    }
  }

  lemma {:induction false} UncleanRepeat(host: Host, auth: Auth, request: Request)
    requires Lawful(host) && StrictWeak(Less(host.collate))
    requires RoutePath(host, request).Some? && !Clean(host, RoutePath(host, request).value)
    ensures var once := AuthAfter(host, auth, request);
            AuthAfter(host, once, request) == once <==> RepeatsQuietly(host, auth, request)
  {
    hide Edited;
    hide Left;
    hide RoutePath;
    hide InRole;
    var route, access := RoutePath(host, request).value, RequestedAccess(host, auth, request);
    var once := AuthAfter(host, auth, request);
    RouteIsNotEmpty(host, request);
    EditIsClean(host, auth, request);
    forall role ensures route !in once.publicRoutes && route !in once.privateRoutes && !InRole(once.roleRoutes, role, route) {
      UncleanIsNowhere(host, once, route, role);
    }
    AccessInRoles(once, route);
    assert Some(route) == RoutePath(host, request);
    UncleanTwice(host, auth, route, access, RequestedAccess(host, once, request), Decision(request));
  }

  /**
   Making the same request again changes nothing exactly if it names no route; if
   its target is clean and no other form of it is listed anywhere but where it
   goes; or if the target is unclean and is asked for by the wording, or to be
   private, or its clean form stays private.
   */
  lemma {:induction false} RepeatExactly(host: Host, auth: Auth, request: Request)
    requires Lawful(host) && StrictWeak(Less(host.collate))
    requires RoutePath(host, request).Some? && Clean(host, RoutePath(host, request).value) ==>
               KeepsPlace(host, auth, RoutePath(host, request).value, RequestedAccess(host, auth, request))
    ensures var once := AuthAfter(host, auth, request);
            AuthAfter(host, once, request) == once <==> RepeatsQuietly(host, auth, request)
  {
    hide Edited;
    hide KeepsPlace;
    hide StaysOnce;
    hide RoutePath;
    match RoutePath(host, request)
    case None =>
      var once := AuthAfter(host, auth, request);
      NoRouteTwice(host, auth, RequestedAccess(host, auth, request), RequestedAccess(host, once, request), Decision(request));
    case Some(route) =>
      if Clean(host, route) {
        CleanRepeat(host, auth, request);
      } else {
        UncleanRepeat(host, auth, request);
      }
  }

  lemma {:induction false} AskedAgain(host: Host, auth: Auth, request: Request, once: Auth)
    requires RoutePath(host, request).Some?
    requires RouteAccess(once, RoutePath(host, request).value) == RequestedAccess(host, auth, request)
    ensures RequestedAccess(host, once, request) == RequestedAccess(host, auth, request)
  {
  }
}
