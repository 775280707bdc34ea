/**
 * Dashboard accounts become Authelia users and groups (backend/src/services/autheliaSync.ts); the dashboard
 * state says which hostnames are gated and whom they admit.
 */
module SsoUsers {
  import opened Common

  // ----- Dashboard state -----

  /** One secondary hostname an app may publish. */
  datatype Extra = Extra(apex: bool, suffix: string, autheliaProtected: bool) {
    function Name(): string {
      if apex then "apex" else suffix
    }
  }

  datatype Service = Service(skipProtection: bool, bypassPaths: seq<string>, extras: seq<Extra>)

  type Registry = map<string, Service>

  predicate ProtectionRequired(registry: Registry, name: string) {
    name in registry ==> !registry[name].skipProtection
  }

  /** A grantable app: exposed and protected, its hostname possibly not yet known. */
  datatype AppOption = AppOption(serviceName: string, hostname: Option<string>, requiredGroups: seq<string>)

  /** An enabled secondary exposure row: `<service>:<suffix>` and its hostname. */
  datatype ExposureRow = ExposureRow(serviceName: string, hostname: string)

  /** One account with its roles and granted apps. */
  datatype UserRow = UserRow(
    username: string, email: Option<string>, passwordHash: Option<string>,
    roles: seq<string>, appAccess: seq<string>)

  predicate Truthy(s: Option<string>) {
    s.Some? && s.value != ""
  }

  predicate Eligible(row: UserRow) {
    Truthy(row.email) && Truthy(row.passwordHash)
  }

  /** A hostname behind the login, and the app whose grants admit to it. */
  datatype Exposure = Exposure(hostname: string, service: string, bypassPaths: seq<string>)

  function BypassPathsOf(registry: Registry, name: string): seq<string> {
    if name in registry then registry[name].bypassPaths else []
  }

  function PrimaryExposures(options: seq<AppOption>, registry: Registry): seq<Exposure> {
    if options == [] then []
    else
      var o := options[0];
      (if Truthy(o.hostname)
       then [Exposure(o.hostname.value, o.serviceName, BypassPathsOf(registry, o.serviceName))] else [])
      + PrimaryExposures(options[1..], registry)
  }

  /** The text before the first colon. */
  function Head(s: string): (h: string)
    ensures |h| <= |s|
  {
    if s == "" || s[0] == ':' then "" else [s[0]] + Head(s[1..])
  }

  /** The piece between the first colon and the next. */
  function Second(s: string): string {
    var h := Head(s);
    if |h| == |s| then "" else Head(s[|h| + 1..])
  }

  function FindExtra(extras: seq<Extra>, name: string): Option<Extra> {
    if extras == [] then None
    else if extras[0].Name() == name then Some(extras[0])
    else FindExtra(extras[1..], name)
  }

  /** What a secondary row exposes behind the login, if anything. */
  function SecondaryExposure(row: ExposureRow, registry: Registry): Option<Exposure> {
    var name := Head(row.serviceName);
    if name !in registry || !ProtectionRequired(registry, name) then None
    else
      var extra := FindExtra(registry[name].extras, Second(row.serviceName));
      if extra.None? || !extra.value.autheliaProtected then None
      else Some(Exposure(row.hostname, name, registry[name].bypassPaths))
  }

  function SecondaryExposures(rows: seq<ExposureRow>, registry: Registry): seq<Exposure> {
    if rows == [] then []
    else
      var init := SecondaryExposures(rows[..|rows| - 1], registry);
      match SecondaryExposure(rows[|rows| - 1], registry)
      case None => init
      case Some(e) => init + [e]
  }

  function Exposures(options: seq<AppOption>, rows: seq<ExposureRow>, registry: Registry): seq<Exposure> {
    PrimaryExposures(options, registry) + SecondaryExposures(rows, registry)
  }

  // ----- What the dashboard state says about a request -----

  datatype Decision = Bypassed | OneFactor | Denied

  datatype Request = Request(host: string, path: string)

  /** Whether a path regex matches; the regex engine stays a parameter. */
  type Matcher = (string, string) -> bool

  predicate MatchesAny(paths: seq<string>, path: string, matches: Matcher) {
    exists p | p in paths :: matches(p, path)
  }

  /** The account is in the users file, and is a webmaster or was granted the app. */
  predicate Admitted(rows: seq<UserRow>, user: string, service: string) {
    exists row | row in rows ::
      row.username == user && Eligible(row) && ("webmaster" in row.roles || service in row.appAccess)
  }

  /** What one exposure says about a request, Denied when it has nothing to say. */
  function Verdict(e: Exposure, rows: seq<UserRow>, user: string, req: Request, matches: Matcher): Decision {
    if e.hostname != req.host then Denied
    else if MatchesAny(e.bypassPaths, req.path, matches) then Bypassed
    else if Admitted(rows, user, e.service) then OneFactor
    else Denied
  }

  // ----- The users file -----

  datatype Entry = Entry(displayName: string, password: string, email: string, groups: set<string>)

  function AppGroupName(serviceName: string): string {
    "app-" + serviceName
  }

  /** The `Map` of declared groups: a later option for the same app replaces an earlier one. */
  function DeclaredGroups(options: seq<AppOption>): (declared: map<string, seq<string>>)
    ensures forall name :: name in declared ==>
              exists o :: o in options && o.serviceName == name && o.requiredGroups == declared[name]
  {
    if options == [] then map[]
    else
      var last := options[|options| - 1];
      var init := DeclaredGroups(options[..|options| - 1]);
      assert forall o :: o in options[..|options| - 1] ==> o in options;
      init[last.serviceName := last.requiredGroups]
  }

  function DeclaredFor(declared: map<string, seq<string>>, name: string): seq<string> {
    if name in declared then declared[name] else []
  }

  ghost function WebmasterGroups(options: seq<AppOption>): set<string> {
    {"admins"} + set o | o in options :: AppGroupName(o.serviceName)
  }

  ghost function GrantedGroups(apps: seq<string>, declared: map<string, seq<string>>): set<string> {
    (set name | name in apps :: AppGroupName(name)) +
    set name, g | name in apps && g in DeclaredFor(declared, name) :: g
  }

  ghost function GroupsOf(row: UserRow, options: seq<AppOption>): set<string> {
    (if "webmaster" in row.roles then WebmasterGroups(options) else {}) +
    GrantedGroups(row.appAccess, DeclaredGroups(options))
  }

  function DisplayName(existing: map<string, string>, username: string): string {
    if username in existing && existing[username] != "" then existing[username] else username
  }

  ghost function EntryOf(row: UserRow, options: seq<AppOption>, existing: map<string, string>): Entry
    requires Eligible(row)
  {
    Entry(DisplayName(existing, row.username), row.passwordHash.value, row.email.value, GroupsOf(row, options))
  }

  ghost function Entries(rows: seq<UserRow>, options: seq<AppOption>, existing: map<string, string>): map<string, Entry> {
    if rows == [] then map[]
    else
      var last := rows[|rows| - 1];
      var init := Entries(rows[..|rows| - 1], options, existing);
      if Eligible(last) then init[last.username := EntryOf(last, options, existing)] else init
  }

  /** Every webmaster's groups, built up one option at a time. */
  method AddWebmasterGroups(groups0: set<string>, options: seq<AppOption>) returns (groups: set<string>)
    ensures groups == groups0 + WebmasterGroups(options)
  {
    groups := groups0 + {"admins"};
    var i := 0;
    while i < |options|
      invariant 0 <= i <= |options|
      invariant groups == groups0 + {"admins"} + set o | o in options[..i] :: AppGroupName(o.serviceName)
    {
      assert options[..i + 1] == options[..i] + [options[i]];
      groups := groups + {AppGroupName(options[i].serviceName)};
      i := i + 1;
    }
    assert options[..i] == options;
  }

  method AddGrantedGroups(groups0: set<string>, apps: seq<string>, declared: map<string, seq<string>>)
    returns (groups: set<string>)
    ensures groups == groups0 + GrantedGroups(apps, declared)
  {
    groups := groups0;
    var i := 0;
    while i < |apps|
      invariant 0 <= i <= |apps|
      invariant groups == groups0 + GrantedGroups(apps[..i], declared)
    {
      var name := apps[i];
      assert apps[..i + 1] == apps[..i] + [name];
      GrantedGroupsSnoc(apps[..i], name, declared);
      groups := AddAll(groups + {AppGroupName(name)}, DeclaredFor(declared, name));
      i := i + 1;
    }
    assert apps[..i] == apps;
  }

  method AddAll(groups0: set<string>, more: seq<string>) returns (groups: set<string>)
    ensures groups == groups0 + set g | g in more
  {
    groups := groups0;
    var k := 0;
    while k < |more|
      invariant 0 <= k <= |more|
      invariant groups == groups0 + set g | g in more[..k]
    {
      assert more[..k + 1] == more[..k] + [more[k]];
      groups := groups + {more[k]};
      k := k + 1;
    }
    assert more[..k] == more;
  }

  lemma GrantedGroupsSnoc(apps: seq<string>, name: string, declared: map<string, seq<string>>)
    ensures GrantedGroups(apps + [name], declared) ==
            GrantedGroups(apps, declared) + {AppGroupName(name)} + set g | g in DeclaredFor(declared, name)
  {
    var all := apps + [name];
    assert forall a :: a in all <==> a in apps || a == name;
    forall g ensures g in GrantedGroups(all, declared) <==>
                     g in GrantedGroups(apps, declared) + {AppGroupName(name)} + set d | d in DeclaredFor(declared, name)
    {
      if g in GrantedGroups(apps, declared) {
        if a :| a in apps && g == AppGroupName(a) {
          assert a in all;
        } else {
          var a :| a in apps && g in DeclaredFor(declared, a);
          assert a in all;
        }
      }
    }
  }

  /**
   * Rebuilds the users file from the accounts; leaves it as it was when no account is eligible.
   */
  method SyncAutheliaUsers(
    rows: seq<UserRow>, options: seq<AppOption>, existing: map<string, string>, previous: map<string, Entry>)
    returns (file: map<string, Entry>, synced: bool)
    ensures synced == (Entries(rows, options, existing) != map[])
    ensures file == if synced then Entries(rows, options, existing) else previous
  {
    var declared := DeclaredGroups(options);
    var entries: map<string, Entry> := map[];
    var i := 0;
    while i < |rows|
      invariant 0 <= i <= |rows|
      invariant entries == Entries(rows[..i], options, existing)
    {
      var row := rows[i];
      assert rows[..i + 1][..i] == rows[..i];
      if Eligible(row) {
        var groups: set<string> := {};
        if "webmaster" in row.roles {
          groups := AddWebmasterGroups(groups, options);
        }
        groups := AddGrantedGroups(groups, row.appAccess, declared);
        assert groups == GroupsOf(row, options);
        entries := entries[row.username :=
          Entry(DisplayName(existing, row.username), row.passwordHash.value, row.email.value, groups)];
      }
      i := i + 1;
    }
    assert rows[..i] == rows;
    if entries == map[] {
      return previous, false;
    }
    return entries, true;
  }

  // ----- Who is in the file, with which groups -----

  /** Usernames are unique in the accounts table. */
  predicate DistinctUsers(rows: seq<UserRow>) {
    forall i, j :: 0 <= i < j < |rows| ==> rows[i].username != rows[j].username
  }

  /** No app declares a group that the compiler hands out itself. */
  predicate BenignGroups(options: seq<AppOption>) {
    forall o, g :: o in options && g in o.requiredGroups ==> g != "admins" && !("app-" <= g)
  }

  lemma {:induction false} EntryOfUser(rows: seq<UserRow>, options: seq<AppOption>, existing: map<string, string>, user: string)
    requires DistinctUsers(rows)
    ensures user in Entries(rows, options, existing) <==>
            exists row :: row in rows && row.username == user && Eligible(row)
    ensures forall row :: row in rows && row.username == user && Eligible(row) ==>
              Entries(rows, options, existing)[user] == EntryOf(row, options, existing)
  {
    hide EntryOf;
    if rows != [] {
      var init, last := rows[..|rows| - 1], rows[|rows| - 1];
      EntryOfUser(init, options, existing, user);
      assert rows == init + [last];
      assert forall row :: row in rows <==> row in init || row == last;
    }
  }

  /** The two subjects of an app's rule hold of an account iff it is a webmaster or was granted the app. */
  lemma GroupsAdmit(row: UserRow, options: seq<AppOption>, service: string)
    requires BenignGroups(options)
    ensures ("admins" in GroupsOf(row, options) || AppGroupName(service) in GroupsOf(row, options)) <==>
            ("webmaster" in row.roles || service in row.appAccess)
  {
    var declared := DeclaredGroups(options);
    forall name, g | g in DeclaredFor(declared, name) ensures g != "admins" && !("app-" <= g) {
      var o :| o in options && o.serviceName == name && o.requiredGroups == declared[name];
    }
    assert "app-" <= AppGroupName(service);
    forall name | AppGroupName(name) == AppGroupName(service) ensures name == service {
      assert AppGroupName(name)[4..] == name && AppGroupName(service)[4..] == service;
    }
    forall name ensures AppGroupName(name) != "admins" {
      assert AppGroupName(name)[1] == 'p';
    }
  }

  // ----- The dashboard state in plain words -----

  /** The option is the last of its app, and declares the group. */
  predicate DeclaresAt(options: seq<AppOption>, i: int, name: string, g: string) {
    && 0 <= i < |options| && options[i].serviceName == name && g in options[i].requiredGroups
    && forall k :: i < k < |options| ==> options[k].serviceName != name
  }

  ghost predicate Declares(options: seq<AppOption>, name: string, g: string) {
    exists i :: DeclaresAt(options, i, name, g)
  }

  lemma {:induction false} DeclaredIff(options: seq<AppOption>, name: string, g: string)
    ensures g in DeclaredFor(DeclaredGroups(options), name) <==> Declares(options, name, g)
  {
    if options != [] {
      var n := |options| - 1;
      DeclaredIff(options[..n], name, g);
      DeclaresStep(options, n, name, g);
      if i :| DeclaresAt(options, i, name, g) {
        DeclaresStep(options, i, name, g);
      }
      if i :| DeclaresAt(options[..n], i, name, g) {
        DeclaresStep(options, i, name, g);
        assert i < n;
      }
    }
  }

  lemma DeclaresStep(options: seq<AppOption>, i: int, name: string, g: string)
    requires options != []
    ensures var n := |options| - 1;
            DeclaresAt(options, i, name, g) <==>
              if i == n then options[n].serviceName == name && g in options[n].requiredGroups
              else options[n].serviceName != name && DeclaresAt(options[..n], i, name, g)
  {
    var n := |options| - 1;
    assert forall k :: 0 <= k < n ==> options[..n][k] == options[k];
  }

  /** A webmaster is in `admins` and in every app's group; everyone is in the groups of the apps granted to them. */
  lemma GroupIff(row: UserRow, options: seq<AppOption>, g: string)
    ensures g in GroupsOf(row, options) <==>
              || ("webmaster" in row.roles && (g == "admins" || exists o <- options :: g == "app-" + o.serviceName))
              || (exists name <- row.appAccess :: g == "app-" + name || Declares(options, name, g))
  {
    hide Declares;
    hide DeclaredGroups;
    var declared := DeclaredGroups(options);
    forall name ensures g in DeclaredFor(declared, name) <==> Declares(options, name, g) {
      DeclaredIff(options, name, g);
    }
    hide DeclaredFor;
    assert g in GrantedGroups(row.appAccess, declared) <==>
           exists name <- row.appAccess :: g == "app-" + name || Declares(options, name, g);
  }

  /** Who is in the users file, and with what. */
  lemma FileHolds(rows: seq<UserRow>, options: seq<AppOption>, existing: map<string, string>, user: string)
    requires DistinctUsers(rows)
    ensures user in Entries(rows, options, existing) <==>
              exists row <- rows :: row.username == user && HasText(row.email) && HasText(row.passwordHash)
    ensures forall row <- rows :: row.username == user && HasText(row.email) && HasText(row.passwordHash) ==>
              var entry := Entries(rows, options, existing)[user];
              && entry.email == row.email.value && entry.password == row.passwordHash.value
              && entry.groups == GroupsOf(row, options)
              && entry.displayName == if user in existing && existing[user] != "" then existing[user] else user
  {
    EntryOfUser(rows, options, existing, user);
  }

  predicate HasText(s: Option<string>) {
    s.Some? && s.value != ""
  }

  /** The service name and suffix in the name of a secondary row, which a further colon may end. */
  predicate Names(full: string, service: string, suffix: string) {
    ':' !in service && ':' !in suffix && service + ":" + suffix + ":" <= full + ":"
  }

  lemma FirstOf(h: string, c: string)
    requires c != ""
    ensures (h + c)[0] == if h == "" then c[0] else h[0]
  {
  }

  /** What stands before the first colon of a text, or all of it. */
  lemma {:induction false} HeadIff(s: string, h: string)
    ensures Head(s) == h <==> ':' !in h && h + ":" <= s + ":"
  {
    FirstOf(h, ":");
    FirstOf(s, ":");
    if h != "" && s != "" && s[0] == h[0] {
      HeadIff(s[1..], h[1..]);
      assert s == [s[0]] + s[1..] && h == [h[0]] + h[1..];
      assert h[1..] + ":" == (h + ":")[1..] && s[1..] + ":" == (s + ":")[1..];
      PrefixCut([s[0]], h[1..] + ":", s[1..] + ":");
      assert [s[0]] + (h[1..] + ":") == h + ":" && [s[0]] + (s[1..] + ":") == s + ":";
    } else if h + ":" <= s + ":" {
      assert (h + ":")[0] == (s + ":")[0];
    }
  }

  lemma PrefixCut(a: string, b: string, s: string)
    ensures a + b <= a + s <==> b <= s
  {
    if a + b <= a + s {
      assert b == (a + b)[|a|..] && s == (a + s)[|a|..];
      assert (a + s)[..|a| + |b|] == a + b;
      assert s[..|b|] == (a + s)[|a|..|a| + |b|] == b;
    }
  }

  /** A text with a colon in it: its head, the colon, and the rest. */
  lemma {:induction false} HeadEnds(s: string)
    requires ':' in s
    ensures |Head(s)| < |s| && s == Head(s) + ":" + s[|Head(s)| + 1..]
  {
    if s[0] != ':' {
      HeadEnds(s[1..]);
      assert s == [s[0]] + s[1..];
    }
  }

  lemma NamesIff(full: string, service: string, suffix: string)
    requires ':' in full
    ensures Names(full, service, suffix) <==> Head(full) == service && Second(full) == suffix
  {
    HeadEnds(full);
    var h := Head(full);
    var tail := full[|h| + 1..];
    HeadIff(tail, suffix);
    HeadIff(full, service);
    var a, b, more := service + ":", suffix + ":", tail + ":";
    assert service + ":" + suffix + ":" == a + b;
    assert full + ":" == h + ":" + more;
    hide Head;
    if h == service {
      PrefixCut(a, b, more);
    } else if a + b <= full + ":" {
      assert a <= a + b;
    }
  }

  predicate NamedExtra(x: Extra, name: string) {
    if x.apex then name == "apex" else name == x.suffix
  }

  /** The extra is the first of its name, and asks for the login. */
  predicate Protects(extras: seq<Extra>, i: int, name: string) {
    && 0 <= i < |extras| && NamedExtra(extras[i], name) && extras[i].autheliaProtected
    && forall k :: 0 <= k < i ==> !NamedExtra(extras[k], name)
  }

  /** The row publishes an extra hostname of an app behind the login, and the first extra of its name asks for the login. */
  ghost predicate Publishes(row: ExposureRow, registry: Registry, e: Exposure, suffix: string) {
    && Names(row.serviceName, e.service, suffix) && row.hostname == e.hostname
    && e.service in registry && !registry[e.service].skipProtection && e.bypassPaths == registry[e.service].bypassPaths
    && exists i :: Protects(registry[e.service].extras, i, suffix)
  }

  /** Whatever the suffix in its name. */
  ghost predicate Published(row: ExposureRow, registry: Registry, e: Exposure) {
    exists suffix :: Publishes(row, registry, e, suffix)
  }

  lemma {:induction false} FindExtraIff(extras: seq<Extra>, name: string)
    ensures FindExtra(extras, name).Some? && FindExtra(extras, name).value.autheliaProtected <==>
              exists i :: Protects(extras, i, name)
  {
    if extras != [] {
      hide FindExtra;
      FindExtraStep(extras, name);
      if NamedExtra(extras[0], name) {
        assert Protects(extras, 0, name) <==> extras[0].autheliaProtected;
      } else {
        FindExtraIff(extras[1..], name);
        if i :| Protects(extras, i, name) {
          ProtectsBehind(extras, i - 1, name);
        } else if i :| Protects(extras[1..], i, name) {
          ProtectsBehind(extras, i, name);
        }
      }
    }
  }

  lemma FindExtraStep(extras: seq<Extra>, name: string)
    requires extras != []
    ensures FindExtra(extras, name) == if NamedExtra(extras[0], name) then Some(extras[0]) else FindExtra(extras[1..], name)
  {
  }

  lemma ProtectsBehind(extras: seq<Extra>, i: int, name: string)
    requires extras != [] && !NamedExtra(extras[0], name)
    ensures Protects(extras, i + 1, name) <==> Protects(extras[1..], i, name)
  {
    var rest := extras[1..];
    assert forall k :: 0 <= k < |rest| ==> rest[k] == extras[k + 1];
    if Protects(rest, i, name) {
      forall k | 0 <= k < i + 1 ensures !NamedExtra(extras[k], name) {
        if k > 0 {
          assert !NamedExtra(rest[k - 1], name);
        }
      }
    }
  }

  lemma SecondaryIff(row: ExposureRow, registry: Registry, e: Exposure)
    requires ':' in row.serviceName
    ensures SecondaryExposure(row, registry) == Some(e) <==> Published(row, registry, e)
  {
    var name, suffix := Head(row.serviceName), Second(row.serviceName);
    hide Head;
    hide Second;
    hide Names;
    forall service, x ensures Names(row.serviceName, service, x) <==> name == service && suffix == x {
      NamesIff(row.serviceName, service, x);
    }
    if name in registry {
      FindExtraIff(registry[name].extras, suffix);
    }
    hide FindExtra;
    hide NamedExtra;
    if SecondaryExposure(row, registry) == Some(e) {
      assert Publishes(row, registry, e, suffix);
    }
  }

  /** What stands behind the login: grantable apps with a hostname, and the extra hostnames that their rows publish. */
  lemma {:induction false} ExposedIff(options: seq<AppOption>, rows: seq<ExposureRow>, registry: Registry, e: Exposure)
    requires forall row <- rows :: ':' in row.serviceName
    ensures e in Exposures(options, rows, registry) <==>
              || (exists o <- options :: o.serviceName == e.service && o.hostname == Some(e.hostname) && e.hostname != ""
                    && e.bypassPaths == if e.service in registry then registry[e.service].bypassPaths else [])
              || (exists row <- rows :: Published(row, registry, e))
  {
    PrimaryIff(options, registry, e);
    SecondariesIff(rows, registry, e);
  }

  lemma {:induction false} PrimaryIff(options: seq<AppOption>, registry: Registry, e: Exposure)
    ensures e in PrimaryExposures(options, registry) <==>
              exists o <- options :: o.serviceName == e.service && o.hostname == Some(e.hostname) && e.hostname != ""
                && e.bypassPaths == if e.service in registry then registry[e.service].bypassPaths else []
  {
    if options != [] {
      PrimaryIff(options[1..], registry, e);
      assert options == [options[0]] + options[1..];
    }
  }

  lemma {:induction false} SecondariesIff(rows: seq<ExposureRow>, registry: Registry, e: Exposure)
    requires forall row <- rows :: ':' in row.serviceName
    ensures e in SecondaryExposures(rows, registry) <==> exists row <- rows :: Published(row, registry, e)
  {
    hide SecondaryExposure;
    hide Published;
    if rows != [] {
      var init, last := rows[..|rows| - 1], rows[|rows| - 1];
      assert last in rows && forall row <- init :: row in rows;
      SecondariesIff(init, registry, e);
      SecondaryIff(last, registry, e);
      assert rows == init + [last];
    }
  }
}
