/** The permission engine: the access decision (authorizer.go), the effective
    permission view (groups.go), the manage summary and the role ladder (rbac.go)
    and the wildcard buckets (wildcard.go). */
module Permissions {
  import opened Text
  import opened PathMatch

  datatype Action = Read | Write | Delete | Manage | Annotate | Unknown(verb: string)

  datatype Role = Admin | ReadOnlyAdmin | User

  datatype Principal = Principal(name: string, groups: seq<string>, role: string, admin: bool)

  // The three JSON array columns of a permission target, decoded.
  datatype Scope = Scope(repos: seq<string>, includes: seq<string>, excludes: seq<string>)

  // A permission target; scope is None when one of its columns is malformed.
  datatype Target = Target(name: string, scope: Option<Scope>)

  datatype Row = Row(target: string, principal: string, kind: string,
                     canRead: bool, canWrite: bool, canDelete: bool, canManage: bool, canAnnotate: bool)

  /** The permission source. Every read may fail (None): rowsFor is PrincipalsFor,
      allRows the unkeyed listing (None also when the source lacks that facet). */
  datatype Store = Store(targets: Option<seq<Target>>, rowsFor: string -> Option<seq<Row>>, allRows: Option<seq<Row>>)

  /** fold is the case-folding table behind strings.EqualFold; repoClass is None
      when no repository-class source is wired. */
  datatype Service = Service(anonymousRead: bool, repoClass: Option<string -> Option<string>>,
                             fold: char -> char, store: Store)

  // ---- roles ---------------------------------------------------------------

  function ParseRole(s: string): Option<Role> {
    if s == "admin" then Some(Admin)
    else if s == "readonly_admin" then Some(ReadOnlyAdmin)
    else if s == "user" then Some(User)
    else None
  }

  function EffectiveRole(p: Principal): Role {
    match ParseRole(p.role)
    case Some(r) => r
    case None => if p.admin then Admin else User
  }

  /** The admin flag counts only where the role names none of the three: a principal
      carrying it is an administrator exactly when its role says so or says nothing. */
  lemma AdminFlagExactly(p: Principal)
    requires p.admin
    ensures EffectiveRole(p) == Admin <==> ParseRole(p.role).None? || ParseRole(p.role) == Some(Admin)
  {
  }

  // A user role wins over the flag.
  lemma AdminFlagIgnored(name: string, groups: seq<string>)
    ensures EffectiveRole(Principal(name, groups, "user", true)) == User
  {
  }

  // ---- wildcard buckets ------------------------------------------------------

  const ANY_LOCAL := "ANY LOCAL"
  const ANY_REMOTE := "ANY REMOTE"
  const ANY_DISTRIBUTION := "ANY DISTRIBUTION"

  predicate IsWildcardBucket(key: string) {
    key == ANY_LOCAL || key == ANY_REMOTE || key == ANY_DISTRIBUTION
  }

  function BucketForClass(class_: string): string {
    if class_ == "local" then ANY_LOCAL else if class_ == "remote" then ANY_REMOTE else ""
  }

  // The one bucket that covers repoKey, "" when none does.
  function BucketFor(s: Service, repoKey: string): string {
    if s.repoClass.None? || repoKey == "" || IsWildcardBucket(repoKey) then ""
    else
      match s.repoClass.value(repoKey)
      case None => ""
      case Some(class_) => BucketForClass(class_)
  }

  predicate RepoListed(repos: seq<string>, repoKey: string, bucket: string) {
    repoKey in repos || (bucket != "" && bucket in repos)
  }

  // ---- target and row predicates ---------------------------------------------

  predicate EqualFold(fold: char -> char, a: string, b: string) {
    |a| == |b| && forall i | 0 <= i < |a| :: fold(a[i]) == fold(b[i])
  }

  predicate RowCoversPrincipal(s: Service, row: Row, p: Principal) {
    if row.kind == "user" then EqualFold(s.fold, row.principal, p.name)
    else row.kind == "group" && row.principal in p.groups
  }

  predicate RowAllows(row: Row, action: Action) {
    match action
    case Read => row.canRead
    case Write => row.canWrite
    case Delete => row.canDelete
    case Manage => row.canManage
    case Annotate => row.canAnnotate
    case Unknown(_) => false
  }

  // None when the target is malformed.
  function TargetCovers(t: Target, repoKey: string, bucket: string, path: string): Option<bool> {
    match t.scope
    case None => None
    case Some(sc) =>
      Some(RepoListed(sc.repos, repoKey, bucket) &&
           (sc.includes == [] || AnyMatches(sc.includes, path)) &&
           !AnyMatches(sc.excludes, path))
  }

  function TargetListsRepo(t: Target, repoKey: string, bucket: string): Option<bool> {
    match t.scope
    case None => None
    case Some(sc) => Some(RepoListed(sc.repos, repoKey, bucket))
  }

  // ---- one question ----------------------------------------------------------

  function ByName(targets: seq<Target>): map<string, Target> {
    if targets == [] then map[]
    else ByName(targets[..|targets| - 1])[targets[|targets| - 1].name := targets[|targets| - 1]]
  }

  method IndexTargets(targets: seq<Target>) returns (m: map<string, Target>)
    ensures m == ByName(targets)
  {
    m := map[];
    for i := 0 to |targets|
      invariant m == ByName(targets[..i])
    {
      assert targets[..i + 1][..i] == targets[..i];
      m := m[targets[i].name := targets[i]];
    }
    assert targets[..|targets|] == targets;
  }

  // The rows of repoKey followed by those of its bucket; None when a read fails.
  function RowsOf(s: Service, repoKey: string): Option<seq<Row>> {
    var bucket := BucketFor(s, repoKey);
    var rows := s.store.rowsFor(repoKey);
    if rows.None? then None
    else if bucket == "" then rows
    else
      var brows := s.store.rowsFor(bucket);
      if brows.None? then None else Some(rows.value + brows.value)
  }

  // The row's own target puts repoKey (and, except for manage, path) in scope and
  // the row carries the action.
  predicate RowGrants(s: Service, targets: seq<Target>, row: Row, repoKey: string, path: string, action: Action) {
    var byName := ByName(targets);
    var bucket := BucketFor(s, repoKey);
    row.target in byName && RowAllows(row, action) &&
    (if action == Manage then TargetListsRepo(byName[row.target], repoKey, bucket) == Some(true)
     else TargetCovers(byName[row.target], repoKey, bucket, path) == Some(true))
  }

  // ---- the decision ----------------------------------------------------------

  // Who may do what: stated over the rows as a set, with no order and no search.
  predicate Allowed(s: Service, p: Option<Principal>, repoKey: string, path: string, action: Action) {
    if p.None? then s.anonymousRead && action == Read
    else
      match EffectiveRole(p.value)
      case Admin => true
      case ReadOnlyAdmin => action == Read
      case User =>
        var rows := RowsOf(s, repoKey);
        rows.Some? && s.store.targets.Some? &&
        exists row | row in rows.value ::
          RowCoversPrincipal(s, row, p.value) && RowGrants(s, s.store.targets.value, row, repoKey, path, action)
  }

  method Can(s: Service, p: Option<Principal>, repoKey: string, path: string, action: Action) returns (ok: bool)
    ensures ok <==> Allowed(s, p, repoKey, path, action)
  {
    if p.None? {
      return s.anonymousRead && action == Read;
    }
    match EffectiveRole(p.value) {
      case Admin => return true;
      case ReadOnlyAdmin => return action == Read;
      case User =>
    }
    var bucket := BucketFor(s, repoKey);
    var first := s.store.rowsFor(repoKey);
    if first.None? {
      return false;
    }
    var rows := first.value;
    if bucket != "" {
      var brows := s.store.rowsFor(bucket);
      if brows.None? {
        return false;
      }
      rows := rows + brows.value;
    }
    if |rows| == 0 || s.store.targets.None? {
      return false;
    }
    var targets := s.store.targets.value;
    var targetByName := IndexTargets(targets);
    for i := 0 to |rows|
      invariant forall j :: 0 <= j < i ==>
                  !(RowCoversPrincipal(s, rows[j], p.value) && RowGrants(s, targets, rows[j], repoKey, path, action))
    {
      var row := rows[i];
      if RowCoversPrincipal(s, row, p.value) && RowAllows(row, action) && row.target in targetByName {
        var t := targetByName[row.target];
        var covers := if action == Manage then TargetListsRepo(t, repoKey, bucket)
                      else TargetCovers(t, repoKey, bucket, path);
        if covers == Some(true) {
          assert row in rows;
          return true;
        }
      }
    }
    return false;
  }

  // ---- the view --------------------------------------------------------------

  datatype Bits = Bits(read: bool, write: bool, delete: bool, manage: bool, annotate: bool)

  const NO_BITS := Bits(false, false, false, false, false)

  datatype View = View(users: map<string, Bits>, groups: map<string, Bits>)

  predicate Bit(b: Bits, action: Action) {
    match action
    case Read => b.read
    case Write => b.write
    case Delete => b.delete
    case Manage => b.manage
    case Annotate => b.annotate
    case Unknown(_) => false
  }

  function BitsOf(m: map<string, Bits>, name: string): Bits {
    if name in m then m[name] else NO_BITS
  }

  // merge: the path-plane actions of one covering row
  function Merge(m: map<string, Bits>, row: Row): map<string, Bits> {
    var b := BitsOf(m, row.principal);
    m[row.principal := b.(read := b.read || row.canRead, write := b.write || row.canWrite,
                          delete := b.delete || row.canDelete, annotate := b.annotate || row.canAnnotate)]
  }

  // What a row grants in one evaluation, as a relation between rows and actions.
  type Grants = (Row, Action) -> bool

  ghost function GrantsIn(s: Service, targets: seq<Target>, repoKey: string, path: string): Grants {
    (row, action) => RowGrants(s, targets, row, repoKey, path, action)
  }

  ghost predicate GrantedTo(rows: seq<Row>, kind: string, name: string, action: Action, grants: Grants) {
    exists j :: 0 <= j < |rows| && rows[j].kind == kind && rows[j].principal == name && grants(rows[j], action)
  }

  // m shows, for every name and action, exactly what some row of that kind grants.
  ghost predicate ShowsExactly(m: map<string, Bits>, kind: string, rows: seq<Row>, grants: Grants) {
    forall name, action :: Bit(BitsOf(m, name), action) <==> GrantedTo(rows, kind, name, action, grants)
  }

  lemma GrantedToSnoc(rows: seq<Row>, row: Row, kind: string, name: string, action: Action, grants: Grants)
    ensures GrantedTo(rows + [row], kind, name, action, grants) <==>
              GrantedTo(rows, kind, name, action, grants) ||
              (row.kind == kind && row.principal == name && grants(row, action))
  {
    var more := rows + [row];
    assert more[|rows|] == row;
    if GrantedTo(rows, kind, name, action, grants) {
      var j :| 0 <= j < |rows| && rows[j].kind == kind && rows[j].principal == name && grants(rows[j], action);
      assert more[j] == rows[j];
    }
  }

  function Or(a: Bits, b: Bits): Bits {
    Bits(a.read || b.read, a.write || b.write, a.delete || b.delete, a.manage || b.manage, a.annotate || b.annotate)
  }

  // What one row adds: the path-plane actions when its target covers the path, manage
  // when its target lists the repository.
  function RowBits(row: Row, covers: bool, lists: bool): Bits {
    Bits(covers && row.canRead, covers && row.canWrite, covers && row.canDelete,
         lists && row.canManage, covers && row.canAnnotate)
  }

  lemma ShowsExactlySnoc(m: map<string, Bits>, m': map<string, Bits>, kind: string, rows: seq<Row>, row: Row,
                         add: Bits, grants: Grants)
    requires ShowsExactly(m, kind, rows, grants)
    requires forall action :: Bit(add, action) <==> grants(row, action)
    requires forall name :: BitsOf(m', name) ==
                            if row.kind == kind && row.principal == name then Or(BitsOf(m, name), add)
                            else BitsOf(m, name)
    ensures ShowsExactly(m', kind, rows + [row], grants)
  {
    forall name, action
      ensures Bit(BitsOf(m', name), action) <==> GrantedTo(rows + [row], kind, name, action, grants)
    {
      GrantedToSnoc(rows, row, kind, name, action, grants);
      assert Bit(add, action) <==> grants(row, action);
    }
  }

  // What row adds to the view of (repoKey, path); nothing when its target is
  // missing or malformed.
  function Contribution(s: Service, byName: map<string, Target>, row: Row, repoKey: string, path: string): Bits {
    var bucket := BucketFor(s, repoKey);
    if row.target !in byName || byName[row.target].scope.None? then NO_BITS
    else RowBits(row, TargetCovers(byName[row.target], repoKey, bucket, path).value,
                 TargetListsRepo(byName[row.target], repoKey, bucket).value)
  }

  lemma ContributionGrants(s: Service, targets: seq<Target>, row: Row, repoKey: string, path: string, action: Action)
    ensures Bit(Contribution(s, ByName(targets), row, repoKey, path), action) <==>
              RowGrants(s, targets, row, repoKey, path, action)
  {
  }

  // One step of the view loop: the row's actions join the entry of its principal in
  // the map of its own kind, and nothing else moves.
  method MergeRow(s: Service, byName: map<string, Target>, row: Row, repoKey: string, path: string,
                  users: map<string, Bits>, groups: map<string, Bits>)
    returns (users': map<string, Bits>, groups': map<string, Bits>)
    ensures forall name :: BitsOf(users', name) ==
                           if row.kind == "user" && row.principal == name
                           then Or(BitsOf(users, name), Contribution(s, byName, row, repoKey, path))
                           else BitsOf(users, name)
    ensures forall name :: BitsOf(groups', name) ==
                           if row.kind == "group" && row.principal == name
                           then Or(BitsOf(groups, name), Contribution(s, byName, row, repoKey, path))
                           else BitsOf(groups, name)
  {
    users', groups' := users, groups;
    if (row.kind != "user" && row.kind != "group") || row.target !in byName {
      return;
    }
    var t, bucket := byName[row.target], BucketFor(s, repoKey);
    var covers := TargetCovers(t, repoKey, bucket, path);
    if covers.None? {
      return;
    }
    var lists := TargetListsRepo(t, repoKey, bucket);
    if row.kind == "group" {
      groups' := AddRow(groups, row, covers.value, lists.value);
    } else {
      users' := AddRow(users, row, covers.value, lists.value);
    }
  }

  // The two arms of the step on one map: the path plane, then manage.
  method AddRow(m: map<string, Bits>, row: Row, covers: bool, lists: bool) returns (m': map<string, Bits>)
    ensures forall name :: BitsOf(m', name) ==
                           if row.principal == name then Or(BitsOf(m, name), RowBits(row, covers, lists))
                           else BitsOf(m, name)
  {
    m' := m;
    if covers {
      m' := Merge(m', row);
    }
    if row.canManage && lists {
      m' := m'[row.principal := BitsOf(m', row.principal).(manage := true)];
    }
  }

  method ItemPrincipals(s: Service, repoKey: string, path: string) returns (view: Option<View>)
    ensures view.None? <==> RowsOf(s, repoKey).None? || (RowsOf(s, repoKey).value != [] && s.store.targets.None?)
    ensures view.Some? ==> IsView(s, repoKey, path, view.value)
  {
    var bucket := BucketFor(s, repoKey);
    var first := s.store.rowsFor(repoKey);
    if first.None? {
      return None;
    }
    var rows := first.value;
    if bucket != "" {
      var brows := s.store.rowsFor(bucket);
      if brows.None? {
        return None;
      }
      rows := rows + brows.value;
    }
    if |rows| == 0 {
      return Some(View(map[], map[]));
    }
    if s.store.targets.None? {
      return None;
    }
    var targetByName := IndexTargets(s.store.targets.value);
    ghost var grants := GrantsIn(s, s.store.targets.value, repoKey, path);
    var users, groups := MergeRows(s, rows, repoKey, path, targetByName, grants);
    return Some(View(users, groups));
  }

  method MergeRows(s: Service, rows: seq<Row>, repoKey: string, path: string,
                   byName: map<string, Target>, ghost grants: Grants)
    returns (users: map<string, Bits>, groups: map<string, Bits>)
    requires s.store.targets.Some? && byName == ByName(s.store.targets.value)
    requires grants == GrantsIn(s, s.store.targets.value, repoKey, path)
    ensures ShowsExactly(users, "user", rows, grants) && ShowsExactly(groups, "group", rows, grants)
  {
    users, groups := map[], map[];
    for i := 0 to |rows|
      invariant ShowsExactly(users, "user", rows[..i], grants)
      invariant ShowsExactly(groups, "group", rows[..i], grants)
    {
      ghost var users0, groups0, add := users, groups, Contribution(s, byName, rows[i], repoKey, path);
      users, groups := MergeRow(s, byName, rows[i], repoKey, path, users, groups);
      assert forall action :: Bit(add, action) <==> grants(rows[i], action) by {
        forall action ensures Bit(add, action) <==> grants(rows[i], action) {
          ContributionGrants(s, s.store.targets.value, rows[i], repoKey, path, action);
        }
      }
      assert rows[..i + 1] == rows[..i] + [rows[i]];
      ShowsExactlySnoc(users0, users, "user", rows[..i], rows[i], add, grants);
      ShowsExactlySnoc(groups0, groups, "group", rows[..i], rows[i], add, grants);
    }
    assert rows[..|rows|] == rows;
  }

  // The view of (repoKey, path): per name and action, the union of what the rows grant.
  ghost predicate IsView(s: Service, repoKey: string, path: string, v: View) {
    RowsOf(s, repoKey).Some? &&
    var rows := RowsOf(s, repoKey).value;
    if rows == [] then v == View(map[], map[])
    else
      s.store.targets.Some? &&
      var grants := GrantsIn(s, s.store.targets.value, repoKey, path);
      ShowsExactly(v.users, "user", rows, grants) && ShowsExactly(v.groups, "group", rows, grants)
  }

  // The view holds the action for p: under its own name up to case, or one of its groups.
  ghost predicate ViewGrants(s: Service, v: View, p: Principal, action: Action) {
    || (exists name :: name in v.users && EqualFold(s.fold, name, p.name) && Bit(BitsOf(v.users, name), action))
    || (exists g :: g in p.groups && Bit(BitsOf(v.groups, g), action))
  }

  /** The decision and the view never disagree: a user-role principal is granted
      an action exactly when the view shows that bit for a user entry equal to its
      name up to case, or for one of its groups. */
  lemma DecisionMatchesView(s: Service, p: Principal, repoKey: string, path: string, action: Action, v: View)
    requires EffectiveRole(p) == User
    requires IsView(s, repoKey, path, v)
    ensures Allowed(s, Some(p), repoKey, path, action) <==> ViewGrants(s, v, p, action)
  {
    var rows := RowsOf(s, repoKey).value;
    if rows != [] {
      var grants := GrantsIn(s, s.store.targets.value, repoKey, path);
      RowsMatchView(s, p, rows, grants, action, v);
      assert Allowed(s, Some(p), repoKey, path, action) <==>
          exists row :: row in rows && RowCoversPrincipal(s, row, p) && grants(row, action);
    }
  }

  lemma RowsMatchView(s: Service, p: Principal, rows: seq<Row>, grants: Grants, action: Action, v: View)
    requires ShowsExactly(v.users, "user", rows, grants) && ShowsExactly(v.groups, "group", rows, grants)
    ensures ViewGrants(s, v, p, action) <==>
              exists row :: row in rows && RowCoversPrincipal(s, row, p) && grants(row, action)
  {
    if row :| row in rows && RowCoversPrincipal(s, row, p) && grants(row, action) {
      assert GrantedTo(rows, row.kind, row.principal, action, grants);
      assert row.kind == "user" ==> Bit(BitsOf(v.users, row.principal), action);
    }
    if name :| name in v.users && EqualFold(s.fold, name, p.name) && Bit(BitsOf(v.users, name), action) {
      assert GrantedTo(rows, "user", name, action, grants);
    }
    if g :| g in p.groups && Bit(BitsOf(v.groups, g), action) {
      assert GrantedTo(rows, "group", g, action, grants);
    }
  }

  // ---- the manage plane --------------------------------------------------------

  method CanManageRepo(s: Service, p: Option<Principal>, repoKey: string, write: bool) returns (ok: bool)
    ensures ok <==> MayManageRepo(s, p, repoKey, write)
  {
    if p.None? {
      return false;
    }
    match EffectiveRole(p.value) {
      case Admin => return true;
      case ReadOnlyAdmin => return !write;
      case User => ok := Can(s, p, repoKey, "", Manage);
    }
  }

  predicate MayManageRepo(s: Service, p: Option<Principal>, repoKey: string, write: bool) {
    p.Some? && match EffectiveRole(p.value)
               case Admin => true
               case ReadOnlyAdmin => !write
               case User => Allowed(s, p, repoKey, "", Manage)
  }

  // Some row of the table gives p the manage bit through the named target.
  predicate HoldsManage(s: Service, rows: seq<Row>, p: Principal, target: string) {
    exists row | row in rows :: row.target == target && row.canManage && RowCoversPrincipal(s, row, p)
  }

  // Some target that p manages lists key.
  predicate CoveredKey(s: Service, rows: seq<Row>, targets: seq<Target>, p: Principal, key: string) {
    exists t | t in targets :: HoldsManage(s, rows, p, t.name) && t.scope.Some? && key in t.scope.value.repos
  }

  method ManageCoverage(s: Service, p: Option<Principal>) returns (coverage: Option<set<string>>, universe: bool)
    ensures coverage.None? <==> universe
    ensures universe <==> p.Some? && EffectiveRole(p.value) == Admin
    ensures !universe ==>
              forall key :: key in coverage.value <==>
                p.Some? && EffectiveRole(p.value) == User && s.store.allRows.Some? && s.store.targets.Some? &&
                CoveredKey(s, s.store.allRows.value, s.store.targets.value, p.value, key)
  {
    if p.None? {
      return Some({}), false;
    }
    match EffectiveRole(p.value) {
      case Admin => return None, true;
      case ReadOnlyAdmin => return Some({}), false;
      case User =>
    }
    if s.store.allRows.None? || s.store.targets.None? {
      return Some({}), false;
    }
    var rows, targets := s.store.allRows.value, s.store.targets.value;
    var holds: set<string> := {};
    for i := 0 to |rows|
      invariant forall n :: n in holds <==> HoldsManage(s, rows[..i], p.value, n)
    {
      var row := rows[i];
      assert rows[..i + 1] == rows[..i] + [row];
      if row.canManage && RowCoversPrincipal(s, row, p.value) {
        holds := holds + {row.target};
      }
    }
    assert rows[..|rows|] == rows;
    var keys: set<string> := {};
    for i := 0 to |targets|
      invariant forall key :: key in keys <==> CoveredKey(s, rows, targets[..i], p.value, key)
    {
      var t := targets[i];
      assert targets[..i + 1] == targets[..i] + [t];
      if t.name in holds && t.scope.Some? {
        var repos := t.scope.value.repos;
        keys := keys + (set k | k in repos);
      }
    }
    assert targets[..|targets|] == targets;
    return Some(keys), false;
  }

  /** What the permission tables guarantee of the three reads: target names are
      unique, and a keyed read returns table rows and misses none whose target lists
      the key. */
  ghost predicate Healthy(store: Store) {
    && store.targets.Some? && store.allRows.Some?
    && (forall i, j :: 0 <= i < j < |store.targets.value| ==>
          store.targets.value[i].name != store.targets.value[j].name)
    && (forall key :: store.rowsFor(key).Some?)
    && (forall key, row :: row in store.rowsFor(key).value ==> row in store.allRows.value)
    && (forall key, row, t | row in store.allRows.value && t in store.targets.value && row.target == t.name ::
          t.scope.Some? && key in t.scope.value.repos ==> row in store.rowsFor(key).value)
  }

  lemma {:induction false} ByNameFinds(targets: seq<Target>)
    ensures forall n :: n in ByName(targets) ==> ByName(targets)[n] in targets && ByName(targets)[n].name == n
    ensures (forall i, j :: 0 <= i < j < |targets| ==> targets[i].name != targets[j].name) ==>
              forall t :: t in targets ==> t.name in ByName(targets) && ByName(targets)[t.name] == t
  {
    if targets != [] {
      ByNameFinds(targets[..|targets| - 1]);
      assert targets == targets[..|targets| - 1] + [targets[|targets| - 1]];
    }
  }

  /** The manage summary and the manage decision agree: a user-role principal
      manages repoKey exactly when the summary holds repoKey itself or the bucket
      that covers it. */
  lemma CoverageMatchesDecision(s: Service, p: Principal, repoKey: string, write: bool, coverage: set<string>)
    requires EffectiveRole(p) == User
    requires Healthy(s.store)
    requires forall key :: key in coverage <==>
               CoveredKey(s, s.store.allRows.value, s.store.targets.value, p, key)
    ensures MayManageRepo(s, Some(p), repoKey, write) <==>
              repoKey in coverage || (BucketFor(s, repoKey) != "" && BucketFor(s, repoKey) in coverage)
  {
    var bucket := BucketFor(s, repoKey);
    var rows, all, targets := RowsOf(s, repoKey).value, s.store.allRows.value, s.store.targets.value;
    ByNameFinds(targets);
    if MayManageRepo(s, Some(p), repoKey, write) {
      var row :| row in rows && RowCoversPrincipal(s, row, p) && RowGrants(s, targets, row, repoKey, "", Manage);
      assert row in s.store.rowsFor(repoKey).value || row in s.store.rowsFor(bucket).value;
      var t := ByName(targets)[row.target];
      assert HoldsManage(s, all, p, t.name);
      assert repoKey in t.scope.value.repos ==> CoveredKey(s, all, targets, p, repoKey);
      assert bucket in t.scope.value.repos ==> CoveredKey(s, all, targets, p, bucket);
    }
    if repoKey in coverage {
      CoveredKeyGrants(s, p, repoKey, repoKey);
    }
    if bucket != "" && bucket in coverage {
      CoveredKeyGrants(s, p, repoKey, bucket);
    }
  }

  lemma CoveredKeyGrants(s: Service, p: Principal, repoKey: string, key: string)
    requires EffectiveRole(p) == User
    requires Healthy(s.store)
    requires key == repoKey || (key != "" && key == BucketFor(s, repoKey))
    requires CoveredKey(s, s.store.allRows.value, s.store.targets.value, p, key)
    ensures Allowed(s, Some(p), repoKey, "", Manage)
  {
    var all, targets := s.store.allRows.value, s.store.targets.value;
    ByNameFinds(targets);
    var t :| t in targets && HoldsManage(s, all, p, t.name) && t.scope.Some? && key in t.scope.value.repos;
    var row :| row in all && row.target == t.name && row.canManage && RowCoversPrincipal(s, row, p);
    assert row in s.store.rowsFor(key).value;
    assert row in RowsOf(s, repoKey).value;
    assert RowGrants(s, targets, row, repoKey, "", Manage);
  }

  // ---- what the permission language promises ---------------------------------------

  // Excludes win: however many rows and includes speak for it, a path that every
  // well-formed target excludes is granted to no user-role principal; only manage, which
  // looks at no path, is.
  lemma ExcludesWin(s: Service, p: Principal, repoKey: string, path: string, action: Action)
    requires EffectiveRole(p) == User && s.store.targets.Some? && action != Manage
    requires forall t :: t in s.store.targets.value && t.scope.Some? ==> AnyMatches(t.scope.value.excludes, path)
    ensures !Allowed(s, Some(p), repoKey, path, action)
  {
    ByNameFromTable(s.store.targets.value);
  }

  lemma {:induction false} ByNameFromTable(targets: seq<Target>)
    ensures forall name :: name in ByName(targets) ==> ByName(targets)[name] in targets
  {
    if targets != [] {
      ByNameFromTable(targets[..|targets| - 1]);
    }
  }

  /** A principal whose role is user is decided by its rows alone, admin flag or not: the
      flag changes no answer, and without a row that grants it nothing is allowed. */
  lemma UserRoleDecidedByRows(s: Service, p: Principal, flag: bool, repoKey: string, path: string, action: Action)
    requires ParseRole(p.role) == Some(User)
    ensures Allowed(s, Some(p.(admin := flag)), repoKey, path, action) <==> Allowed(s, Some(p), repoKey, path, action)
    ensures Allowed(s, Some(p), repoKey, path, action) <==>
            && RowsOf(s, repoKey).Some? && s.store.targets.Some?
            && exists row :: row in RowsOf(s, repoKey).value && RowCoversPrincipal(s, row, p) &&
                             RowGrants(s, s.store.targets.value, row, repoKey, path, action)
  {
    var q := p.(admin := flag);
    forall row ensures RowCoversPrincipal(s, row, q) == RowCoversPrincipal(s, row, p) {
    }
  }

  // Manage is repository-scoped: the path plays no part in it.
  lemma ManageIgnoresPaths(s: Service, p: Option<Principal>, repoKey: string, path: string, path': string)
    ensures Allowed(s, p, repoKey, path, Manage) ==> Allowed(s, p, repoKey, path', Manage)
  {
    if p.Some? && EffectiveRole(p.value) == User && Allowed(s, p, repoKey, path, Manage) {
      var targets := s.store.targets.value;
      var row :| row in RowsOf(s, repoKey).value &&
                 RowCoversPrincipal(s, row, p.value) && RowGrants(s, targets, row, repoKey, path, Manage);
      assert RowGrants(s, targets, row, repoKey, path', Manage);
    }
  }

  // A grant through a wildcard bucket holds on every repository of the bucket's class,
  // whatever is known of that repository by name.
  lemma BucketGrantHolds(s: Service, p: Principal, repoKey: string, repoKey': string,
                         row: Row, path: string, action: Action)
    requires EffectiveRole(p) == User && s.store.targets.Some?
    requires BucketFor(s, repoKey) != "" && BucketFor(s, repoKey') == BucketFor(s, repoKey)
    requires s.store.rowsFor(repoKey').Some?
    requires var bucket := BucketFor(s, repoKey); s.store.rowsFor(bucket).Some? && row in s.store.rowsFor(bucket).value
    requires var byName := ByName(s.store.targets.value);
             row.target in byName && byName[row.target].scope.Some? &&
             BucketFor(s, repoKey) in byName[row.target].scope.value.repos
    requires RowCoversPrincipal(s, row, p) && RowGrants(s, s.store.targets.value, row, repoKey, path, action)
    ensures Allowed(s, Some(p), repoKey', path, action)
  {
    assert row in RowsOf(s, repoKey').value;
    assert RowGrants(s, s.store.targets.value, row, repoKey', path, action);
  }

  // Further rows never take a permission away.
  lemma MoreRowsNeverRevoke(s: Service, s': Service, p: Option<Principal>,
                            repoKey: string, path: string, action: Action)
    requires s'.anonymousRead == s.anonymousRead && s'.repoClass == s.repoClass && s'.fold == s.fold
    requires s'.store.targets == s.store.targets
    requires RowsOf(s, repoKey).Some? ==>
               RowsOf(s', repoKey).Some? &&
               forall row :: row in RowsOf(s, repoKey).value ==> row in RowsOf(s', repoKey).value
    requires Allowed(s, p, repoKey, path, action)
    ensures Allowed(s', p, repoKey, path, action)
  {
    if p.Some? && EffectiveRole(p.value) == User {
      var targets := s.store.targets.value;
      var row :| row in RowsOf(s, repoKey).value &&
                 RowCoversPrincipal(s, row, p.value) && RowGrants(s, targets, row, repoKey, path, action);
      assert BucketFor(s', repoKey) == BucketFor(s, repoKey);
      assert RowCoversPrincipal(s', row, p.value) && RowGrants(s', targets, row, repoKey, path, action);
    }
  }

  // ---- the decision, read off the tables -------------------------------------------------

  // bucket names the class of repoKey, which is no bucket itself.
  predicate NamesClassOf(s: Service, repoKey: string, bucket: string) {
    && s.repoClass.Some? && repoKey != "" && repoKey !in {"ANY LOCAL", "ANY REMOTE", "ANY DISTRIBUTION"}
    && match s.repoClass.value(repoKey)
       case None => false
       case Some(class_) =>
         (class_ == "local" && bucket == "ANY LOCAL") || (class_ == "remote" && bucket == "ANY REMOTE")
  }

  lemma BucketNamesClass(s: Service, repoKey: string, bucket: string)
    ensures BucketFor(s, repoKey) == bucket && bucket != "" <==> NamesClassOf(s, repoKey, bucket)
  {
  }

  // k is the last target of that name, the one an index by name keeps.
  ghost predicate LastNamed(targets: seq<Target>, name: string, k: int) {
    0 <= k < |targets| && targets[k].name == name && forall j :: k < j < |targets| ==> targets[j].name != name
  }

  lemma {:induction false} ByNameIsLast(targets: seq<Target>, name: string, k: int)
    requires LastNamed(targets, name, k)
    ensures name in ByName(targets) && ByName(targets)[name] == targets[k]
  {
    var init := targets[..|targets| - 1];
    if k < |targets| - 1 {
      assert LastNamed(init, name, k);
      ByNameIsLast(init, name, k);
    }
  }

  lemma {:induction false} ByNameHasLast(targets: seq<Target>, name: string) returns (k: int)
    requires name in ByName(targets)
    ensures LastNamed(targets, name, k) && ByName(targets)[name] == targets[k]
  {
    k := |targets| - 1;
    if targets[k].name != name {
      k := ByNameHasLast(targets[..|targets| - 1], name);
    }
  }

  // The row is one of the repository's own or of its class.
  ghost predicate Consulted(s: Service, repoKey: string, row: Row) {
    || (s.store.rowsFor(repoKey).Some? && row in s.store.rowsFor(repoKey).value)
    || exists bucket :: NamesClassOf(s, repoKey, bucket) && s.store.rowsFor(bucket).Some? &&
                        row in s.store.rowsFor(bucket).value
  }

  lemma ConsultedRows(s: Service, repoKey: string, row: Row)
    requires RowsOf(s, repoKey).Some?
    ensures row in RowsOf(s, repoKey).value <==> Consulted(s, repoKey, row)
  {
    var bucket := BucketFor(s, repoKey);
    BucketNamesClass(s, repoKey, bucket);
    forall b ensures NamesClassOf(s, repoKey, b) ==> b == bucket {
      BucketNamesClass(s, repoKey, b);
    }
  }

  lemma RowsReadable(s: Service, repoKey: string)
    ensures RowsOf(s, repoKey).Some? <==>
            && s.store.rowsFor(repoKey).Some?
            && forall bucket :: NamesClassOf(s, repoKey, bucket) ==> s.store.rowsFor(bucket).Some?
  {
    var bucket := BucketFor(s, repoKey);
    BucketNamesClass(s, repoKey, bucket);
    forall b ensures NamesClassOf(s, repoKey, b) ==> b == bucket {
      BucketNamesClass(s, repoKey, b);
    }
  }

  // The row names the principal, as a user up to case or as one of its groups.
  ghost predicate Named(s: Service, row: Row, p: Principal) {
    || (row.kind == "user" && |row.principal| == |p.name| &&
        forall i :: 0 <= i < |p.name| ==> s.fold(row.principal[i]) == s.fold(p.name[i]))
    || (row.kind == "group" && row.principal in p.groups)
  }

  // The row has the bit of the action, which is one of the five.
  ghost predicate Carries(row: Row, action: Action) {
    || (action == Read && row.canRead) || (action == Write && row.canWrite) || (action == Delete && row.canDelete)
    || (action == Manage && row.canManage) || (action == Annotate && row.canAnnotate)
  }

  /** What one row gives: it names the principal, as a user up to case or as one of its
      groups; it carries the bit of the action; the last target of its name is well
      formed and lists the repository or the bucket of its class; and, except for manage,
      the path matches an include, if there are any, and no exclude. */
  lemma RowGrantsExactly(s: Service, p: Principal, row: Row, repoKey: string, path: string, action: Action)
    requires s.store.targets.Some?
    ensures RowCoversPrincipal(s, row, p) && RowGrants(s, s.store.targets.value, row, repoKey, path, action) <==>
            && Named(s, row, p) && Carries(row, action)
            && exists k :: LastNamed(s.store.targets.value, row.target, k) &&
                           InScope(s, s.store.targets.value[k].scope, repoKey, path, action)
  {
    var targets, bucket := s.store.targets.value, BucketFor(s, repoKey);
    BucketNamesClass(s, repoKey, bucket);
    if k :| LastNamed(targets, row.target, k) && InScope(s, targets[k].scope, repoKey, path, action) {
      ByNameIsLast(targets, row.target, k);
      ScopeExactly(s, targets[k], repoKey, path, action);
    }
    if row.target in ByName(targets) {
      var k := ByNameHasLast(targets, row.target);
      ScopeExactly(s, targets[k], repoKey, path, action);
    }
  }

  // The scope lists the repository or its class and, except for manage, takes the path in.
  ghost predicate InScope(s: Service, scope: Option<Scope>, repoKey: string, path: string, action: Action) {
    scope.Some? &&
    var sc := scope.value;
    && (repoKey in sc.repos || exists bucket :: NamesClassOf(s, repoKey, bucket) && bucket in sc.repos)
    && (action == Manage ||
        ((sc.includes == [] || exists i :: 0 <= i < |sc.includes| && Matches(sc.includes[i], path)) &&
         forall i :: 0 <= i < |sc.excludes| ==> !Matches(sc.excludes[i], path)))
  }

  lemma ScopeExactly(s: Service, t: Target, repoKey: string, path: string, action: Action)
    ensures InScope(s, t.scope, repoKey, path, action) <==>
            if action == Manage then TargetListsRepo(t, repoKey, BucketFor(s, repoKey)) == Some(true)
            else TargetCovers(t, repoKey, BucketFor(s, repoKey), path) == Some(true)
  {
    var bucket := BucketFor(s, repoKey);
    BucketNamesClass(s, repoKey, bucket);
    forall b ensures NamesClassOf(s, repoKey, b) ==> b == bucket {
      BucketNamesClass(s, repoKey, b);
    }
  }

  /** The whole decision, read off the tables: nobody in particular may read where
      anonymous reading is on; an administrator may do anything, a read-only one may read;
      anyone else needs the reads to succeed and one row, of the repository or its class,
      that names it, carries the action and has the repository and the path in scope. */
  lemma AllowedExactly(s: Service, p: Option<Principal>, repoKey: string, path: string, action: Action)
    ensures Allowed(s, p, repoKey, path, action) <==>
            if p.None? then s.anonymousRead && action == Read
            else if p.value.role == "admin" then true
            else if p.value.role == "readonly_admin" then action == Read
            else if p.value.role != "user" && p.value.admin then true
            else
              && s.store.targets.Some? && s.store.rowsFor(repoKey).Some?
              && (forall bucket :: NamesClassOf(s, repoKey, bucket) ==> s.store.rowsFor(bucket).Some?)
              && exists row, k ::
                   && Consulted(s, repoKey, row) && LastNamed(s.store.targets.value, row.target, k)
                   && Named(s, row, p.value) && Carries(row, action)
                   && InScope(s, s.store.targets.value[k].scope, repoKey, path, action)
  {
    RowsReadable(s, repoKey);
    if p.Some? && EffectiveRole(p.value) == User && RowsOf(s, repoKey).Some? && s.store.targets.Some? {
      var targets := s.store.targets.value;
      if row :| row in RowsOf(s, repoKey).value &&
                RowCoversPrincipal(s, row, p.value) && RowGrants(s, targets, row, repoKey, path, action) {
        ConsultedRows(s, repoKey, row);
        RowGrantsExactly(s, p.value, row, repoKey, path, action);
      }
      if row, k :| Consulted(s, repoKey, row) && LastNamed(targets, row.target, k) &&
                   Named(s, row, p.value) && Carries(row, action) &&
                   InScope(s, targets[k].scope, repoKey, path, action) {
        ConsultedRows(s, repoKey, row);
        RowGrantsExactly(s, p.value, row, repoKey, path, action);
      }
    }
  }

  // A path that no include of any target takes in is granted to no user-role principal.
  lemma IncludesBind(s: Service, p: Principal, repoKey: string, path: string, action: Action)
    requires EffectiveRole(p) == User && s.store.targets.Some? && action != Manage
    requires forall t :: t in s.store.targets.value && t.scope.Some? ==>
               t.scope.value.includes != [] && !AnyMatches(t.scope.value.includes, path)
    ensures !Allowed(s, Some(p), repoKey, path, action)
  {
    ByNameFromTable(s.store.targets.value);
  }

  /** Managing a repository: never anonymous, always for an administrator, reads only for a
      read-only one, and for anyone else the manage decision. */
  lemma MayManageExactly(s: Service, p: Option<Principal>, repoKey: string, write: bool)
    ensures MayManageRepo(s, p, repoKey, write) <==>
            && p.Some?
            && (if p.value.role == "admin" then true
                else if p.value.role == "readonly_admin" then !write
                else if p.value.role != "user" && p.value.admin then true
                else Allowed(s, p, repoKey, "", Manage))
  {
  }
}
