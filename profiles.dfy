/** Accounts of the feed application: users, departments, soft deletion,
    employee-id allocation and the capped password history. */
module Profiles {
  import opened Wrappers

  /** `make_password(raw, salt)`: a salted one-way hash, left uninterpreted. */
  type Hasher = (string, string) -> string

  /** The fixed salt of every password-history hash. */
  const HistorySalt: string := "Pas_1Hist9"

  /** A user keeps at most this many password-history entries. */
  const HistoryLimit: nat := 3

  function Min(a: int, b: int): int { if a <= b then a else b }

  // ---------------------------------------------------------------------------
  // Email normalisation and employee identifiers

  function LowerChar(c: char): char
  {
    if 'A' <= c <= 'Z' then (c as int - 'A' as int + 'a' as int) as char else c
  }

  /** `str.lower()` on the ASCII letters of an email address. */
  function Lower(s: string): (r: string)
    ensures |r| == |s|
    ensures forall i :: 0 <= i < |r| ==> !('A' <= r[i] <= 'Z')
    ensures forall i :: 0 <= i < |s| && 'A' <= s[i] <= 'Z' ==> r[i] as int == s[i] as int + 32
    ensures forall i :: 0 <= i < |s| && !('A' <= s[i] <= 'Z') ==> r[i] == s[i]
  {
    seq(|s|, i requires 0 <= i < |s| => LowerChar(s[i]))
  }

  /** Lowercasing twice is lowercasing once, so saving a saved user keeps its email. */
  lemma LowerIdempotent(s: string)
    ensures Lower(Lower(s)) == Lower(s)
  {
  }

  /** `k` copies of the prefix character `_`, grown one at a time as in `save`. */
  function Underscores(k: nat): (r: string)
    ensures |r| == k
  {
    if k == 0 then "" else "_" + Underscores(k - 1)
  }

  /** One row of the user table (the primary key is the table's key). */
  datatype UserRecord = UserRecord(
    organizationId: nat,
    email: string,
    firstName: string,
    employeeId: string,
    password: string,
    isActive: bool,
    isStaff: bool,
    isSuperuser: bool)

  /** Some row other than the saving user holds `id`: the query
      `filter(employee_id=id)`, with `exclude(pk=selfPk)` once the user has a pk. */
  predicate HeldByOther(rows: map<nat, UserRecord>, selfPk: nat, id: string)
  {
    exists k :: k in rows && (selfPk == 0 || k != selfPk) && rows[k].employeeId == id
  }

  /** `id` is `_`*k + `email` for the least `k` such that no other row holds it. */
  ghost predicate LeastFreeId(rows: map<nat, UserRecord>, selfPk: nat, email: string, id: string)
  {
    exists k: nat ::
      && id == Underscores(k) + email
      && !HeldByOther(rows, selfPk, id)
      && forall j: nat :: j < k ==> HeldByOther(rows, selfPk, Underscores(j) + email)
  }

  /** The allocation is determined: at most one identifier is the least free one. */
  lemma LeastFreeIdUnique(rows: map<nat, UserRecord>, selfPk: nat, email: string, a: string, b: string)
    requires LeastFreeId(rows, selfPk, email, a)
    requires LeastFreeId(rows, selfPk, email, b)
    ensures a == b
  {
    var ka: nat :| a == Underscores(ka) + email && !HeldByOther(rows, selfPk, a)
      && forall j: nat :: j < ka ==> HeldByOther(rows, selfPk, Underscores(j) + email);
    var kb: nat :| b == Underscores(kb) + email && !HeldByOther(rows, selfPk, b)
      && forall j: nat :: j < kb ==> HeldByOther(rows, selfPk, Underscores(j) + email);
  }

  /** The largest element of a finite set of lengths (0 for none). */
  ghost function MaxOf(s: set<nat>): (m: nat)
    ensures forall y :: y in s ==> y <= m
    decreases s
  {
    if s == {} then 0
    else
      var x :| x in s;
      var rest := MaxOf(s - {x});
      assert forall y :: y in s ==> y == x || y in s - {x};
      if x > rest then x else rest
  }

  /** Saving `rec` for the user with key `selfPk` would break the unique
      constraint on `email` or on `employee_id`. */
  predicate Conflicts(rows: map<nat, UserRecord>, selfPk: nat, rec: UserRecord)
  {
    exists k :: k in rows && k != selfPk
      && (rows[k].email == rec.email || rows[k].employeeId == rec.employeeId)
  }

  // ---------------------------------------------------------------------------
  // The user table (`CustomUser.objects`)

  class UserTable {
    var rows: map<nat, UserRecord>
    var nextPk: nat

    /** Keys are allocated primary keys; email and employee id are unique columns. */
    ghost predicate Valid()
      reads this
    {
      && 0 < nextPk
      && (forall k :: k in rows ==> 0 < k < nextPk)
      && (forall a, b :: a in rows && b in rows && a != b ==>
            rows[a].email != rows[b].email && rows[a].employeeId != rows[b].employeeId)
    }

    constructor ()
      ensures Valid() && rows == map[] && nextPk == 1
    {
      rows := map[];
      nextPk := 1;
    }

    /** The employee-id loop of `save`: prepend `_` to the email until no other
        row holds the candidate. */
    method FreeEmployeeId(email: string, selfPk: nat) returns (id: string)
      ensures LeastFreeId(rows, selfPk, email, id)
    {
      ghost var lengths := set k | k in rows :: |rows[k].employeeId|;
      ghost var bound := MaxOf(lengths);
      ghost var n: nat := 0;
      id := email;
      while HeldByOther(rows, selfPk, id)
        invariant id == Underscores(n) + email
        invariant forall j: nat :: j < n ==> HeldByOther(rows, selfPk, Underscores(j) + email)
        decreases bound + 1 - |id|
      {
        var k :| k in rows && (selfPk == 0 || k != selfPk) && rows[k].employeeId == id;
        assert |rows[k].employeeId| in lengths;
        id := "_" + id;
        n := n + 1;
      }
    }

    /** `Model.save` of the row `rec`: an insert under a fresh key when `selfPk`
        is 0, otherwise a write under `selfPk`; a unique-constraint violation is an
        integrity error (`ok` false) that leaves the table as it was. */
    method Put(selfPk: nat, rec: UserRecord) returns (pk: nat, ok: bool)
      requires Valid()
      modifies this
      ensures Valid()
      ensures ok == !Conflicts(old(rows), selfPk, rec)
      ensures ok ==> pk == (if selfPk == 0 then old(nextPk) else selfPk) && rows == old(rows)[pk := rec]
      ensures !ok ==> pk == selfPk && rows == old(rows) && nextPk == old(nextPk)
    {
      if Conflicts(rows, selfPk, rec) {
        return selfPk, false;
      }
      if selfPk == 0 {
        pk := nextPk;
        nextPk := nextPk + 1;
      } else {
        pk := selfPk;
        if nextPk <= selfPk {
          nextPk := selfPk + 1;
        }
      }
      rows := rows[pk := rec];
      ok := true;
    }

    /** Queryset `delete`: an update setting `is_active` to false on every
        matched row; no row is removed. */
    method Delete(matched: set<nat>)
      requires Valid()
      modifies this
      ensures Valid() && nextPk == old(nextPk)
      ensures rows.Keys == old(rows).Keys
      ensures forall k :: k in rows && k in matched ==> rows[k] == old(rows)[k].(isActive := false)
      ensures forall k :: k in rows && k !in matched ==> rows[k] == old(rows)[k]
    {
      rows := map k | k in rows :: if k in matched then rows[k].(isActive := false) else rows[k];
    }
  }

  // ---------------------------------------------------------------------------
  // Departments

  /** A department with its members (the `users` many-to-many relation). */
  datatype Department = Department(pk: nat, organizationId: nat, users: seq<nat>)

  /** `user.departments.all()`: the departments, in table order, that list `u`. */
  function DepartmentsOf(depts: seq<Department>, u: nat): seq<Department>
  {
    if depts == [] then []
    else (if u in depts[0].users then [depts[0]] else []) + DepartmentsOf(depts[1..], u)
  }

  /** The user's departments are exactly the departments that list the user. */
  lemma {:induction false} DepartmentsOfMembers(depts: seq<Department>, u: nat)
    ensures forall d :: d in DepartmentsOf(depts, u) <==> d in depts && u in d.users
  {
    if depts != [] {
      DepartmentsOfMembers(depts[1..], u);
      assert depts == [depts[0]] + depts[1..];
    }
  }

  // ---------------------------------------------------------------------------
  // Password history

  /** One password-history row: its key, the owner's key and the stored hash. */
  datatype HistoryEntry = HistoryEntry(pk: nat, userPk: nat, password: string)

  /** Rows are kept in ascending primary-key order. */
  ghost predicate PkOrdered(es: seq<HistoryEntry>)
  {
    forall i, j :: 0 <= i < j < |es| ==> es[i].pk < es[j].pk
  }

  /** `user.password_history`: the entries of user `u`, in table order. */
  function EntriesOf(es: seq<HistoryEntry>, u: nat): (r: seq<HistoryEntry>)
    ensures |r| <= |es|
    ensures forall e :: e in r <==> e in es && e.userPk == u
  {
    if es == [] then []
    else if es[0].userPk == u then [es[0]] + EntriesOf(es[1..], u)
    else EntriesOf(es[1..], u)
  }

  lemma {:induction false} EntriesOfConcat(a: seq<HistoryEntry>, b: seq<HistoryEntry>, u: nat)
    ensures EntriesOf(a + b, u) == EntriesOf(a, u) + EntriesOf(b, u)
  {
    if a != [] {
      assert (a + b)[1..] == a[1..] + b;
      EntriesOfConcat(a[1..], b, u);
    } else {
      assert a + b == b;
    }
  }

  lemma {:induction false} EntriesOfNone(es: seq<HistoryEntry>, u: nat)
    requires forall j :: 0 <= j < |es| ==> es[j].userPk != u
    ensures EntriesOf(es, u) == []
  {
    if es != [] {
      EntriesOfNone(es[1..], u);
    }
  }

  /** The position of the first entry of `u`. */
  function FirstIndex(es: seq<HistoryEntry>, u: nat): (i: nat)
    requires EntriesOf(es, u) != []
    ensures i < |es| && es[i].userPk == u
    ensures forall j :: 0 <= j < i ==> es[j].userPk != u
  {
    if es[0].userPk == u then 0 else 1 + FirstIndex(es[1..], u)
  }

  /** In a pk-ordered table the first entry of `u` is the one
      `order_by("pk").first()` selects: no entry of `u` has a smaller key. */
  lemma OldestIsFirst(es: seq<HistoryEntry>, u: nat)
    requires PkOrdered(es) && EntriesOf(es, u) != []
    ensures forall j :: 0 <= j < |es| && es[j].userPk == u ==> es[FirstIndex(es, u)].pk <= es[j].pk
  {
  }

  /** Deleting the oldest entry of `u`. */
  function RemoveOldest(es: seq<HistoryEntry>, u: nat): seq<HistoryEntry>
    requires EntriesOf(es, u) != []
  {
    var i := FirstIndex(es, u);
    es[..i] + es[i + 1..]
  }

  /** Splitting a table around position `i`, and dropping that position. */
  lemma EntriesOfAround(es: seq<HistoryEntry>, i: nat, v: nat)
    requires i < |es|
    ensures EntriesOf(es, v) == EntriesOf(es[..i], v) + EntriesOf([es[i]], v) + EntriesOf(es[i + 1..], v)
    ensures EntriesOf(es[..i] + es[i + 1..], v) == EntriesOf(es[..i], v) + EntriesOf(es[i + 1..], v)
  {
    assert es == es[..i] + [es[i]] + es[i + 1..];
    EntriesOfConcat(es[..i] + [es[i]], es[i + 1..], v);
    EntriesOfConcat(es[..i], [es[i]], v);
    EntriesOfConcat(es[..i], es[i + 1..], v);
  }

  /** Dropping one position keeps the remaining rows, in their order. */
  lemma RemoveAtKeeps(es: seq<HistoryEntry>, i: nat)
    requires i < |es|
    ensures forall e :: e in es[..i] + es[i + 1..] ==> e in es
    ensures PkOrdered(es) ==> PkOrdered(es[..i] + es[i + 1..])
  {
    var r := es[..i] + es[i + 1..];
    assert forall j :: 0 <= j < |r| ==> r[j] == if j < i then es[j] else es[j + 1];
  }

  /** Deleting the oldest entry of `u` drops the head of `u`'s history and
      touches no other user's history; order and membership are kept. */
  lemma RemoveOldestFacts(es: seq<HistoryEntry>, u: nat)
    requires EntriesOf(es, u) != []
    ensures EntriesOf(RemoveOldest(es, u), u) == EntriesOf(es, u)[1..]
    ensures forall v :: v != u ==> EntriesOf(RemoveOldest(es, u), v) == EntriesOf(es, v)
    ensures forall e :: e in RemoveOldest(es, u) ==> e in es
    ensures PkOrdered(es) ==> PkOrdered(RemoveOldest(es, u))
  {
    var i := FirstIndex(es, u);
    EntriesOfNone(es[..i], u);
    EntriesOfAround(es, i, u);
    forall v | v != u
      ensures EntriesOf(RemoveOldest(es, u), v) == EntriesOf(es, v)
    {
      EntriesOfAround(es, i, v);
    }
    RemoveAtKeeps(es, i);
  }

  /** The eviction loop of `add_password`: delete the oldest entry of `u`
      while `u` has at least `HistoryLimit` of them. */
  function Evict(es: seq<HistoryEntry>, u: nat): seq<HistoryEntry>
    decreases |EntriesOf(es, u)|
  {
    if |EntriesOf(es, u)| < HistoryLimit then es
    else
      RemoveOldestFacts(es, u);
      Evict(RemoveOldest(es, u), u)
  }

  /** Eviction keeps only rows it was given, in their order. */
  lemma {:induction false} EvictKeeps(es: seq<HistoryEntry>, u: nat)
    ensures forall e :: e in Evict(es, u) ==> e in es
    ensures PkOrdered(es) ==> PkOrdered(Evict(es, u))
    decreases |EntriesOf(es, u)|
  {
    if |EntriesOf(es, u)| >= HistoryLimit {
      RemoveOldestFacts(es, u);
      EvictKeeps(RemoveOldest(es, u), u);
    }
  }

  /** Eviction leaves `u` with min(count, `HistoryLimit` - 1) entries: the
      newest ones, in their old order. */
  lemma {:induction false} EvictOwn(es: seq<HistoryEntry>, u: nat)
    ensures |EntriesOf(Evict(es, u), u)| == Min(|EntriesOf(es, u)|, HistoryLimit - 1)
    ensures EntriesOf(Evict(es, u), u) == EntriesOf(es, u)[|EntriesOf(es, u)| - |EntriesOf(Evict(es, u), u)|..]
    decreases |EntriesOf(es, u)|
  {
    if |EntriesOf(es, u)| >= HistoryLimit {
      RemoveOldestFacts(es, u);
      EvictOwn(RemoveOldest(es, u), u);
      var s := EntriesOf(es, u);
      var k := |s| - |EntriesOf(Evict(es, u), u)|;
      assert s[1..][k - 1..] == s[k..];
    }
  }

  /** Eviction for `u` leaves every other user's history alone. */
  lemma {:induction false} EvictOthers(es: seq<HistoryEntry>, u: nat, v: nat)
    requires v != u
    ensures EntriesOf(Evict(es, u), v) == EntriesOf(es, v)
    decreases |EntriesOf(es, u)|
  {
    if |EntriesOf(es, u)| >= HistoryLimit {
      RemoveOldestFacts(es, u);
      EvictOthers(RemoveOldest(es, u), u, v);
    }
  }

  /** The table after `add_password(u, …)` stored `hashed` under key `pk`. */
  function AddedHistory(es: seq<HistoryEntry>, u: nat, hashed: string, pk: nat): seq<HistoryEntry>
  {
    Evict(es, u) + [HistoryEntry(pk, u, hashed)]
  }

  /** After `add_password`, `u` has min(old count, 2) + 1 entries: the newest
      survivors of the old history in their old order, then the new entry;
      every other user's history is unchanged. */
  lemma AddedHistoryShape(es: seq<HistoryEntry>, u: nat, hashed: string, pk: nat)
    ensures EntriesOf(AddedHistory(es, u, hashed, pk), u)
         == EntriesOf(Evict(es, u), u) + [HistoryEntry(pk, u, hashed)]
    ensures |EntriesOf(AddedHistory(es, u, hashed, pk), u)| == Min(|EntriesOf(es, u)|, HistoryLimit - 1) + 1
    ensures forall v :: v != u ==> EntriesOf(AddedHistory(es, u, hashed, pk), v) == EntriesOf(es, v)
  {
    var n := HistoryEntry(pk, u, hashed);
    EvictOwn(es, u);
    forall v
      ensures EntriesOf(AddedHistory(es, u, hashed, pk), v) == EntriesOf(Evict(es, u), v) + EntriesOf([n], v)
      ensures v != u ==> EntriesOf(AddedHistory(es, u, hashed, pk), v) == EntriesOf(es, v)
    {
      EntriesOfConcat(Evict(es, u), [n], v);
      if v != u {
        EvictOthers(es, u, v);
      }
    }
    assert EntriesOf([n], u) == [n];
  }

  /** Rows in key order, keys below `nextPk`, owners saved users, and at
      most `HistoryLimit` entries per user. */
  ghost predicate WellFormed(es: seq<HistoryEntry>, nextPk: nat)
  {
    && PkOrdered(es)
    && (forall e :: e in es ==> 0 < e.userPk && e.pk < nextPk)
    && (forall u :: |EntriesOf(es, u)| <= HistoryLimit)
  }

  lemma AppendOrdered(s: seq<HistoryEntry>, e: HistoryEntry)
    requires PkOrdered(s) && forall x :: x in s ==> x.pk < e.pk
    ensures PkOrdered(s + [e])
  {
    var r := s + [e];
    forall i, j | 0 <= i < j < |r| ensures r[i].pk < r[j].pk {
      assert r[i] == s[i];
      if j < |s| {
        assert r[j] == s[j];
      } else {
        assert s[i] in s;
      }
    }
  }

  lemma AddedHistoryOrdered(es: seq<HistoryEntry>, u: nat, hashed: string, pk: nat)
    requires WellFormed(es, pk) && u != 0
    ensures PkOrdered(AddedHistory(es, u, hashed, pk))
    ensures forall e :: e in AddedHistory(es, u, hashed, pk) ==> 0 < e.userPk && e.pk < pk + 1
  {
    EvictKeeps(es, u);
    AppendOrdered(Evict(es, u), HistoryEntry(pk, u, hashed));
  }

  lemma AddedHistoryBounded(es: seq<HistoryEntry>, u: nat, hashed: string, pk: nat)
    requires WellFormed(es, pk)
    ensures forall v :: |EntriesOf(AddedHistory(es, u, hashed, pk), v)| <= HistoryLimit
  {
    var r := AddedHistory(es, u, hashed, pk);
    AddedHistoryShape(es, u, hashed, pk);
    forall v ensures |EntriesOf(r, v)| <= HistoryLimit {
      if v != u {
        assert EntriesOf(r, v) == EntriesOf(es, v);
      }
    }
  }

  /** `add_password` keeps the table well formed: in particular no user ever
      has more than `HistoryLimit` entries. */
  lemma AddedHistoryWellFormed(es: seq<HistoryEntry>, u: nat, hashed: string, pk: nat)
    requires WellFormed(es, pk) && u != 0
    ensures WellFormed(AddedHistory(es, u, hashed, pk), pk + 1)
  {
    AddedHistoryOrdered(es, u, hashed, pk);
    AddedHistoryBounded(es, u, hashed, pk);
  }

  /** The `PasswordHistory` table, with the hash function it applies. */
  class PasswordHistoryTable {
    const hasher: Hasher
    var entries: seq<HistoryEntry>
    var nextPk: nat

    ghost predicate Valid()
      reads this
    {
      WellFormed(entries, nextPk)
    }

    constructor (hasher: Hasher)
      ensures Valid() && this.hasher == hasher && entries == [] && nextPk == 1
    {
      this.hasher := hasher;
      entries := [];
      nextPk := 1;
    }

    /** `add_password`: hash with the fixed salt, evict the oldest entries of
        the user until fewer than `HistoryLimit` remain, then insert. */
    method AddPassword(userPk: nat, raw: string)
      requires Valid() && userPk != 0
      modifies this
      ensures Valid()
      ensures entries == AddedHistory(old(entries), userPk, hasher(raw, HistorySalt), old(nextPk))
      ensures nextPk == old(nextPk) + 1
    {
      var hashed := hasher(raw, HistorySalt);
      while |EntriesOf(entries, userPk)| >= HistoryLimit
        invariant Evict(entries, userPk) == Evict(old(entries), userPk)
        invariant nextPk == old(nextPk)
        decreases |EntriesOf(entries, userPk)|
      {
        var i := FirstIndex(entries, userPk);
        RemoveOldestFacts(entries, userPk);
        entries := entries[..i] + entries[i + 1..];
      }
      entries := entries + [HistoryEntry(nextPk, userPk, hashed)];
      AddedHistoryWellFormed(old(entries), userPk, hashed, nextPk);
      nextPk := nextPk + 1;
    }

    /** `password_already_used`: some entry of a user with this email holds the
        fixed-salt hash of `raw`. */
    predicate PasswordAlreadyUsed(users: UserTable, email: string, raw: string)
      reads this, users
    {
      exists e :: e in entries && e.userPk in users.rows && users.rows[e.userPk].email == email
        && e.password == hasher(raw, HistorySalt)
    }
  }

  /** A password just added to the history of a stored user is reported as used. */
  lemma AddedPasswordIsUsed(h: PasswordHistoryTable, users: UserTable, es: seq<HistoryEntry>,
                            u: nat, raw: string, pk: nat)
    requires u in users.rows
    requires h.entries == AddedHistory(es, u, h.hasher(raw, HistorySalt), pk)
    ensures h.PasswordAlreadyUsed(users, users.rows[u].email, raw)
  {
    assert HistoryEntry(pk, u, h.hasher(raw, HistorySalt)) in h.entries;
  }

  /** Emails are unique, so a reuse check by a stored user's email looks at
      exactly that user's own history. */
  lemma AlreadyUsedIsOwnHistory(h: PasswordHistoryTable, users: UserTable, u: nat, raw: string)
    requires users.Valid() && u in users.rows
    ensures h.PasswordAlreadyUsed(users, users.rows[u].email, raw)
        <==> exists e :: e in EntriesOf(h.entries, u) && e.password == h.hasher(raw, HistorySalt)
  {
    if h.PasswordAlreadyUsed(users, users.rows[u].email, raw) {
      var e :| e in h.entries && e.userPk in users.rows && users.rows[e.userPk].email == users.rows[u].email
        && e.password == h.hasher(raw, HistorySalt);
      assert e in EntriesOf(h.entries, u);
    }
  }

  // ---------------------------------------------------------------------------
  // A user instance (`CustomUser`)

  class CustomUser {
    var pk: nat  // 0 while unsaved: Python's falsy `id`
    var organizationId: nat
    var email: string
    var firstName: string
    var employeeId: string
    var password: string
    var isActive: bool
    var isStaff: bool
    var isSuperuser: bool

    /** A new, unsaved user with the model's defaults for omitted fields. */
    constructor (organizationId: nat, email: string, firstName: string, employeeId: string,
                 isStaff: bool, isSuperuser: bool)
      ensures pk == 0 && isActive && password == ""
      ensures this.organizationId == organizationId && this.email == email && this.firstName == firstName
      ensures this.employeeId == employeeId && this.isStaff == isStaff && this.isSuperuser == isSuperuser
    {
      pk := 0;
      this.organizationId := organizationId;
      this.email := email;
      this.firstName := firstName;
      this.employeeId := employeeId;
      password := "";
      isActive := true;
      this.isStaff := isStaff;
      this.isSuperuser := isSuperuser;
    }

    /** The row this instance writes when saved. */
    function Record(): UserRecord
      reads this
    {
      UserRecord(organizationId, email, firstName, employeeId, password, isActive, isStaff, isSuperuser)
    }

    /** `has_perm(perm, obj)`; `obj` is the object's `organization_id`, or None
        when there is no object or it has no such attribute; "" is a missing permission. */
    predicate HasPerm(perm: string, obj: Option<nat>)
      reads this
      ensures isActive && isSuperuser ==> HasPerm(perm, obj)
      ensures !(isActive && isSuperuser) ==>
        (HasPerm(perm, obj) <==> isStaff && perm != "" && obj == Some(organizationId))
    {
      if isActive && isSuperuser then true
      else if isStaff && obj.Some? && perm != "" then organizationId == obj.value
      else false
    }

    /** `has_module_perms`: only active superusers, whatever the app label. */
    predicate HasModulePerms()
      reads this
    {
      isActive && isSuperuser
    }

    /** Module permission implies every object permission, and apart from it an
        object permission needs a staff user of the object's own organization. */
    lemma PermissionScope(perm: string, obj: Option<nat>)
      ensures HasModulePerms() ==> HasPerm(perm, obj)
      ensures HasPerm(perm, obj) && !HasModulePerms() ==> isStaff && obj == Some(organizationId)
    {
    }

    /** `has_perms`: every listed permission holds (true for an empty list). */
    method HasPerms(perms: seq<string>, obj: Option<nat>) returns (r: bool)
      ensures r <==> forall i :: 0 <= i < |perms| ==> HasPerm(perms[i], obj)
    {
      for i := 0 to |perms|
        invariant forall j :: 0 <= j < i ==> HasPerm(perms[j], obj)
      {
        if !HasPerm(perms[i], obj) {
          return false;
        }
      }
      return true;
    }

    /** `get_short_name`: the first name when it is set, otherwise the email. */
    function ShortName(): (r: string)
      reads this
      ensures firstName != "" ==> r == firstName
      ensures firstName == "" ==> r == email
    {
      if firstName != "" then firstName else email
    }

    /** `save`: lowercase the email, allocate an employee id when there is
        none, then write the row. */
    method Save(db: UserTable) returns (ok: bool)
      requires db.Valid()
      modifies this, db
      ensures db.Valid()
      ensures email == Lower(old(email))
      ensures old(employeeId) != "" ==> employeeId == old(employeeId)
      ensures old(employeeId) == "" ==> LeastFreeId(old(db.rows), old(pk), email, employeeId)
      ensures organizationId == old(organizationId) && firstName == old(firstName) && password == old(password)
      ensures isActive == old(isActive) && isStaff == old(isStaff) && isSuperuser == old(isSuperuser)
      ensures ok == !Conflicts(old(db.rows), old(pk), Record())
      ensures ok ==> pk == (if old(pk) == 0 then old(db.nextPk) else old(pk)) && db.rows == old(db.rows)[pk := Record()]
      ensures !ok ==> pk == old(pk) && db.rows == old(db.rows)
    {
      email := Lower(email);
      if employeeId == "" {
        employeeId := db.FreeEmployeeId(email, pk);
      }
      var newPk;
      newPk, ok := db.Put(pk, Record());
      pk := newPk;
    }

    /** `delete`: a soft delete that clears `is_active` and saves; no row is removed. */
    method Delete(db: UserTable) returns (ok: bool)
      requires db.Valid()
      modifies this, db
      ensures db.Valid() && !isActive
      ensures email == Lower(old(email)) && organizationId == old(organizationId) && firstName == old(firstName)
      ensures password == old(password) && isStaff == old(isStaff) && isSuperuser == old(isSuperuser)
      ensures old(employeeId) != "" ==> employeeId == old(employeeId)
      ensures old(employeeId) == "" ==> LeastFreeId(old(db.rows), old(pk), email, employeeId)
      ensures ok == !Conflicts(old(db.rows), old(pk), Record())
      ensures ok ==> pk == (if old(pk) == 0 then old(db.nextPk) else old(pk)) && db.rows == old(db.rows)[pk := Record()]
      ensures !ok ==> pk == old(pk) && db.rows == old(db.rows)
    {
      isActive := false;
      ok := Save(db);
    }

    /** `using_default_password`: the user has no password-history entry. */
    predicate UsingDefaultPassword(hist: PasswordHistoryTable)
      reads this, hist
      ensures UsingDefaultPassword(hist) <==> forall e :: e in hist.entries ==> e.userPk != pk
    {
      var own := EntriesOf(hist.entries, pk);
      assert own != [] ==> own[0] in own;
      own == []
    }

    /** A user that was never saved has no history, so it counts as using the
        default password. */
    lemma UnsavedUsesDefaultPassword(hist: PasswordHistoryTable)
      requires hist.Valid() && pk == 0
      ensures UsingDefaultPassword(hist)
    {
      assert forall j :: 0 <= j < |hist.entries| ==> hist.entries[j] in hist.entries;
      EntriesOfNone(hist.entries, pk);
    }

    /** `set_password`: the empty string changes nothing; otherwise the password
        becomes the hash of `raw` under `salt` (the hasher's own random salt) and,
        once the user has a pk, `raw` is added to the history. */
    method SetPassword(raw: string, salt: string, hist: PasswordHistoryTable)
      requires hist.Valid()
      modifies this`password, hist
      ensures hist.Valid()
      ensures raw == "" ==> password == old(password)
      ensures raw != "" ==> password == hist.hasher(raw, salt)
      ensures raw == "" || pk == 0 ==> hist.entries == old(hist.entries) && hist.nextPk == old(hist.nextPk)
      ensures raw != "" && pk != 0 ==>
        hist.entries == AddedHistory(old(hist.entries), pk, hist.hasher(raw, HistorySalt), old(hist.nextPk))
      ensures raw != "" && pk != 0 ==> !UsingDefaultPassword(hist)
    {
      if raw != "" {
        password := hist.hasher(raw, salt);
        if pk != 0 {
          hist.AddPassword(pk, raw);
          AddedHistoryShape(old(hist.entries), pk, hist.hasher(raw, HistorySalt), old(hist.nextPk));
        }
      }
    }
  }
}
