/** The local user store of the application: a map from user name to record, the default
    administrator, the migration of the old list format, listing and deletion. Password
    hashing and the clock are parameters: `hash` is the hash of the default password
    `1234`, `now` the current time as the application formats it. */
module Users {
  import opened Wrappers
  import opened Text

  datatype UserRecord = UserRecord(
    password: string, isAdmin: bool, active: bool, mustChange: bool, role: string, createdAt: string)

  const AdminName: string := "admin"

  /** The record `_bootstrap_admin` creates. */
  function DefaultAdmin(hash: string, now: string): UserRecord {
    UserRecord(hash, true, true, true, "admin", now)
  }

  /** `_bootstrap_admin` on the user map: add the default administrator when there is none;
      an existing administrator and every other user are kept as they are. */
  function Bootstrap(users: map<string, UserRecord>, hash: string, now: string): (r: map<string, UserRecord>)
    ensures AdminName in r
    ensures AdminName in users ==> r == users
    ensures AdminName !in users ==> r[AdminName] == DefaultAdmin(hash, now)
    ensures r.Keys == users.Keys + {AdminName}
    ensures forall k :: k in users ==> r[k] == users[k]
  {
    if AdminName in users then users else users[AdminName := DefaultAdmin(hash, now)]
  }

  /** Bootstrapping twice is bootstrapping once, whatever the clock says the second time. */
  lemma BootstrapIdempotent(users: map<string, UserRecord>, hash: string, now: string, later: string)
    ensures Bootstrap(Bootstrap(users, hash, now), hash, later) == Bootstrap(users, hash, now)
  {
  }

  /** `user_delete` on the user map: the administrator is never removed; another name is
      removed when present. */
  function AfterDelete(users: map<string, UserRecord>, name: string): (r: map<string, UserRecord>)
    ensures r.Keys == if name == AdminName then users.Keys else users.Keys - {name}
    ensures forall k :: k in r ==> r[k] == users[k]
  {
    if name in users && name != AdminName then users - {name} else users
  }

  /** Deleting never loses the administrator, and deleting an absent name is a no-op. */
  lemma DeleteKeepsAdmin(users: map<string, UserRecord>, name: string)
    ensures AdminName in users ==> AdminName in AfterDelete(users, name)
                                   && AfterDelete(users, name)[AdminName] == users[AdminName]
    ensures name !in users ==> AfterDelete(users, name) == users
  {
  }

  /** A listed user: the record with its key added as `username`. */
  datatype Listed = Listed(username: string, record: UserRecord)

  /** Python's `<` on strings: lexicographic by code point. */
  predicate StrLess(a: string, b: string)
    decreases |a|
  {
    if a == [] then b != []
    else if b == [] then false
    else if a[0] != b[0] then a[0] < b[0]
    else StrLess(a[1..], b[1..])
  }

  lemma {:induction false} StrLessIrreflexive(a: string)
    decreases |a|
    ensures !StrLess(a, a)
  {
    if a != [] {
      StrLessIrreflexive(a[1..]);
    }
  }

  lemma {:induction false} StrLessTotal(a: string, b: string)
    requires a != b
    decreases |a|
    ensures StrLess(a, b) || StrLess(b, a)
  {
    if a != [] && b != [] && a[0] == b[0] {
      assert a == [a[0]] + a[1..] && b == [b[0]] + b[1..];
      StrLessTotal(a[1..], b[1..]);
    }
  }

  lemma {:induction false} StrLessTransitive(a: string, b: string, c: string)
    requires StrLess(a, b) && StrLess(b, c)
    decreases |a|
    ensures StrLess(a, c)
  {
    if a != [] && b != [] && c != [] && a[0] == b[0] && b[0] == c[0] {
      StrLessTransitive(a[1..], b[1..], c[1..]);
    }
  }

  /** The order of `user_list`: sorted by `(not is_admin, username)`, so administrators come
      first, then by user name. */
  predicate Before(x: Listed, y: Listed) {
    (x.record.isAdmin && !y.record.isAdmin)
    || (x.record.isAdmin == y.record.isAdmin && StrLess(x.username, y.username))
  }

  lemma BeforeTransitive(x: Listed, y: Listed, z: Listed)
    requires Before(x, y) && Before(y, z)
    ensures Before(x, z)
  {
    if x.record.isAdmin == y.record.isAdmin && y.record.isAdmin == z.record.isAdmin {
      StrLessTransitive(x.username, y.username, z.username);
    }
  }

  lemma BeforeTotal(x: Listed, y: Listed)
    requires x.username != y.username
    ensures Before(x, y) || Before(y, x)
  {
    StrLessTotal(x.username, y.username);
  }

  predicate Sorted(s: seq<Listed>) {
    forall i, j :: 0 <= i < j < |s| ==> Before(s[i], s[j])
  }

  /** No user name is listed twice. */
  predicate DistinctNames(s: seq<Listed>) {
    forall i, j :: 0 <= i < j < |s| ==> s[i].username != s[j].username
  }

  /** Insert `x` in its place in a sorted list. */
  function Insert(s: seq<Listed>, x: Listed): seq<Listed> {
    if s == [] then [x]
    else if Before(x, s[0]) then [x] + s
    else [s[0]] + Insert(s[1..], x)
  }

  /** Inserting a new name into a sorted list gives a sorted list with exactly one more
      element. */
  lemma {:induction false} InsertSorted(s: seq<Listed>, x: Listed)
    requires Sorted(s) && DistinctNames(s)
    requires forall i :: 0 <= i < |s| ==> s[i].username != x.username
    ensures var r := Insert(s, x);
            Sorted(r) && DistinctNames(r) && |r| == |s| + 1
            && forall y :: y in r <==> y in s || y == x
  {
    if s != [] {
      if Before(x, s[0]) {
        forall j | 0 <= j < |s| ensures Before(x, s[j]) {
          if j > 0 {
            BeforeTransitive(x, s[0], s[j]);
          }
        }
      } else {
        BeforeTotal(x, s[0]);
        InsertSorted(s[1..], x);
        var rest := Insert(s[1..], x);
        forall y | y in rest ensures Before(s[0], y) {
          if y != x {
            var j :| 0 <= j < |s[1..]| && s[1..][j] == y;
            assert s[j + 1] == y;
          }
        }
        forall y | y in rest ensures s[0].username != y.username {
          if y != x {
            var j :| 0 <= j < |s[1..]| && s[1..][j] == y;
            assert s[j + 1] == y;
          }
        }
        assert Insert(s, x) == [s[0]] + rest;
        assert forall y :: y in [s[0]] + rest <==> y == s[0] || y in rest;
        assert forall y :: y in s <==> y == s[0] || y in s[1..] by {
          assert s == [s[0]] + s[1..];
        }
      }
    }
  }

  /** The user store as the application holds it after loading. */
  class UserStore {
    var users: map<string, UserRecord>

    constructor (users: map<string, UserRecord>)
      ensures this.users == users
    {
      this.users := users;
    }

    /** `_bootstrap_admin`. */
    method BootstrapAdmin(hash: string, now: string)
      modifies this
      ensures users == Bootstrap(old(users), hash, now)
    {
      if AdminName !in users {
        users := users[AdminName := DefaultAdmin(hash, now)];
      }
    }

    /** `user_delete`. */
    method Delete(name: string)
      modifies this
      ensures users == AfterDelete(old(users), name)
    {
      if name in users {
        if name == AdminName {
          return;
        }
        users := users - {name};
      }
    }

    /** `user_list`: every user exactly once, with its name, administrators first and then
        by name. */
    method List() returns (out: seq<Listed>)
      ensures Sorted(out) && DistinctNames(out)
      ensures forall i :: 0 <= i < |out| ==> out[i].username in users
                                             && out[i].record == users[out[i].username]
      ensures forall k :: k in users ==> exists i :: 0 <= i < |out| && out[i].username == k
    {
      var unsorted: seq<Listed> := [];
      var rest := users.Keys;
      while rest != {}
        invariant rest <= users.Keys && DistinctNames(unsorted)
        invariant forall i :: 0 <= i < |unsorted| ==> unsorted[i].username in users.Keys - rest
                                                       && unsorted[i].record == users[unsorted[i].username]
        invariant forall k :: k in users.Keys - rest ==> exists i :: 0 <= i < |unsorted| && unsorted[i].username == k
        decreases rest
      {
        var name :| name in rest;
        ghost var before, restBefore := unsorted, rest;
        unsorted := unsorted + [Listed(name, users[name])];
        rest := rest - {name};
        forall k | k in users.Keys - rest ensures exists i :: 0 <= i < |unsorted| && unsorted[i].username == k {
          if k == name {
            assert unsorted[|unsorted| - 1].username == k;
          } else {
            assert k in users.Keys - restBefore;
            var i :| 0 <= i < |before| && before[i].username == k;
            assert unsorted[i].username == k;
          }
        }
      }
      assert users.Keys - rest == users.Keys;
      out := [];
      for n := 0 to |unsorted|
        invariant Sorted(out) && DistinctNames(out)
        invariant forall y :: y in out <==> y in unsorted[..n]
      {
        forall i | 0 <= i < |out| ensures out[i].username != unsorted[n].username {
          assert out[i] in unsorted[..n];
        }
        InsertSorted(out, unsorted[n]);
        out := Insert(out, unsorted[n]);
      }
      assert unsorted[..|unsorted|] == unsorted;
      forall i | 0 <= i < |out|
        ensures out[i].username in users && out[i].record == users[out[i].username]
      {
        assert out[i] in unsorted;
      }
      forall k | k in users ensures exists i :: 0 <= i < |out| && out[i].username == k {
        var j :| 0 <= j < |unsorted| && unsorted[j].username == k;
        assert unsorted[j] in out;
      }
    }
  }

  /** One entry of the old list format: a bare user name, a record with optional fields,
      or anything else (which the migration skips). */
  datatype LegacyItem =
    | Name(name: string)
    | Record(username: Option<string>, isAdmin: Option<bool>, active: Option<bool>,
             role: Option<string>, createdAt: Option<string>)
    | Other

  /** The key an entry is migrated under: its name without surrounding whitespace, or
      nothing for an entry without a name or with a blank one. */
  function ItemName(item: LegacyItem): (r: Option<string>)
    ensures r.Some? ==> r.value != [] && !IsSpace(r.value[0]) && !IsSpace(r.value[|r.value| - 1])
    ensures item.Name? ==> (r.None? <==> IsBlank(item.name))
                           && (r.Some? ==> r.value == Strip(item.name))
    ensures item.Record? ==> (r.None? <==> item.username.None? || IsBlank(item.username.value))
                             && (r.Some? ==> r.value == Strip(item.username.value))
    ensures item.Other? ==> r.None?
  {
    match item
    case Name(s) => StripSpec(s); if Strip(s) == [] then None else Some(Strip(s))
    case Record(u, _, _, _, _) =>
      if u.None? || u.value == [] then None
      else StripSpec(u.value); if Strip(u.value) == [] then None else Some(Strip(u.value))
    case Other => None
  }

  /** The record an entry becomes under the key `name`. */
  function ItemRecord(item: LegacyItem, name: string, hash: string, now: string): (r: UserRecord)
    ensures r.mustChange && r.password == hash
    ensures item.Name? ==> (r.isAdmin <==> name == AdminName) && (r.role == "admin" <==> name == AdminName)
                           && r.active && r.createdAt == now
    ensures item.Name? ==> r.role == (if name == AdminName then "admin" else "usuario")
    ensures item.Record? ==> (r.isAdmin <==> if item.isAdmin.Some? then item.isAdmin.value else name == AdminName)
    ensures item.Record? ==> (r.active <==> item.active.None? || item.active.value)
    ensures item.Record? ==> r.role == (if item.role.Some? then item.role.value else "usuario")
    ensures item.Record? ==> r.createdAt == (if item.createdAt.Some? then item.createdAt.value else now)
  {
    match item
    case Record(_, isAdmin, active, role, createdAt) =>
      UserRecord(hash, isAdmin.GetOr(name == AdminName), active.GetOr(true), true,
                 role.GetOr("usuario"), createdAt.GetOr(now))
    case _ =>
      UserRecord(hash, name == AdminName, true, true, if name == AdminName then "admin" else "usuario", now)
  }

  /** The user map the migration loop has built after the entries `items`. */
  function Migrated(items: seq<LegacyItem>, hash: string, now: string): map<string, UserRecord>
    decreases |items|
  {
    if items == [] then map[]
    else
      var m := Migrated(items[..|items| - 1], hash, now);
      var last := items[|items| - 1];
      match ItemName(last)
      case None => m
      case Some(name) => m[name := ItemRecord(last, name, hash, now)]
  }

  /** The migration loop of `_load_users`, entry by entry. */
  method MigrateLegacy(items: seq<LegacyItem>, hash: string, now: string) returns (users: map<string, UserRecord>)
    ensures users == Migrated(items, hash, now)
  {
    users := map[];
    for i := 0 to |items|
      invariant users == Migrated(items[..i], hash, now)
    {
      assert items[..i + 1][..i] == items[..i];
      var item := items[i];
      match ItemName(item)
      case None =>
      case Some(name) =>
        users := users[name := ItemRecord(item, name, hash, now)];
    }
    assert items[..|items|] == items;
  }

  /** The migrated users are exactly the named entries. */
  lemma {:induction false} MigratedKeys(items: seq<LegacyItem>, hash: string, now: string)
    decreases |items|
    ensures forall k :: k in Migrated(items, hash, now)
                        <==> exists j :: 0 <= j < |items| && ItemName(items[j]) == Some(k)
  {
    if items != [] {
      var init := items[..|items| - 1];
      MigratedKeys(init, hash, now);
      forall k | (exists j :: 0 <= j < |items| && ItemName(items[j]) == Some(k))
        ensures k in Migrated(items, hash, now)
      {
        var j :| 0 <= j < |items| && ItemName(items[j]) == Some(k);
        if j < |items| - 1 {
          assert init[j] == items[j];
        }
      }
      forall k | k in Migrated(items, hash, now)
        ensures exists j :: 0 <= j < |items| && ItemName(items[j]) == Some(k)
      {
        if k !in Migrated(init, hash, now) {
          assert ItemName(items[|items| - 1]) == Some(k);
        } else {
          var j :| 0 <= j < |init| && ItemName(init[j]) == Some(k);
          assert items[j] == init[j];
        }
      }
    }
  }

  /** A later entry with the same name overwrites an earlier one: a user's record comes
      from the last entry with that name. */
  lemma {:induction false} MigratedLastWins(items: seq<LegacyItem>, hash: string, now: string, j: nat, k: string)
    requires j < |items| && ItemName(items[j]) == Some(k)
    requires forall j' :: j < j' < |items| ==> ItemName(items[j']) != Some(k)
    decreases |items|
    ensures k in Migrated(items, hash, now)
            && Migrated(items, hash, now)[k] == ItemRecord(items[j], k, hash, now)
  {
    if j < |items| - 1 {
      var init := items[..|items| - 1];
      assert init[j] == items[j];
      forall j' | j < j' < |init| ensures ItemName(init[j']) != Some(k) {
        assert init[j'] == items[j'];
      }
      MigratedLastWins(init, hash, now, j, k);
    }
  }

  /** What the users file holds, once parsed: the current format (an object with a `users`
      map), a bare user map, the old list format, or nothing usable. */
  datatype Stored =
    | UsersDoc(users: map<string, UserRecord>)
    | BareMap(users: map<string, UserRecord>)
    | LegacyList(items: seq<LegacyItem>)
    | Unusable

  /** `_load_users` once the file is parsed: every format ends in a bootstrapped map. */
  function LoadUsers(stored: Stored, hash: string, now: string): map<string, UserRecord> {
    match stored
    case UsersDoc(users) => Bootstrap(users, hash, now)
    case BareMap(users) => Bootstrap(users, hash, now)
    case LegacyList(items) => Bootstrap(Migrated(items, hash, now), hash, now)
    case Unusable => Bootstrap(map[], hash, now)
  }

  /** Loading the old list format gives the administrator plus exactly the named entries,
      each with a password change pending. */
  lemma LoadLegacy(items: seq<LegacyItem>, hash: string, now: string)
    ensures var r := LoadUsers(LegacyList(items), hash, now);
            AdminName in r
            && (forall k :: k != AdminName ==>
                  (k in r <==> exists j :: 0 <= j < |items| && ItemName(items[j]) == Some(k)))
            && forall k :: k in r ==> r[k].mustChange
  {
    MigratedKeys(items, hash, now);
    var m := Migrated(items, hash, now);
    forall k | k in m ensures m[k].mustChange {
      MigratedRecords(items, hash, now, k);
    }
  }

  /** Every migrated record comes from some entry with its name. */
  lemma {:induction false} MigratedRecords(items: seq<LegacyItem>, hash: string, now: string, k: string)
    requires k in Migrated(items, hash, now)
    decreases |items|
    ensures exists j :: 0 <= j < |items| && ItemName(items[j]) == Some(k)
                        && Migrated(items, hash, now)[k] == ItemRecord(items[j], k, hash, now)
  {
    var init := items[..|items| - 1];
    var last := items[|items| - 1];
    if ItemName(last) == Some(k) {
      assert Migrated(items, hash, now)[k] == ItemRecord(items[|items| - 1], k, hash, now);
    } else {
      MigratedRecords(init, hash, now, k);
      var j :| 0 <= j < |init| && ItemName(init[j]) == Some(k)
               && Migrated(init, hash, now)[k] == ItemRecord(init[j], k, hash, now);
      assert items[j] == init[j];
    }
  }
}
