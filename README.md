# Feeds business rules in Dafny

This project models the business rules of a multi-tenant post and feed
application. The web framework's database is replaced by in-memory
collections. There are two parts:

- **Feeds** (`feeds.dfy`, from `feeds/utils.py`) covers visibility and the priority guard:
  - Visibility gives the posts a user may see in an organization.
    - A user who belongs to no department sees only their own posts in that organization.
    - Any other user sees the organization's posts shared with all departments, plus every post by a member of any of their departments.
    - The second clause has no organization filter. The model keeps this asymmetry, and `CoMemberPostsCrossOrganizations` states it.
  - The priority guard rejects a new priority post when a priority post is already visible in that scope.
- **Profiles** (`profiles.dfy`, from `news_feed/tests/profiles/models.py`) covers the account rules:
  - the permission predicates;
  - email lowercasing and the allocation of a unique `_`-prefixed employee id on save;
  - soft deletion of a single user and of a set of users;
  - password changes;
  - a password history capped at three entries per user, with oldest-first eviction, a reuse check and default-password detection.

`wrappers.dfy` holds `Option` (Python's `None`) and `Outcome` (pass or fail).

How the state is represented:

- **Tables are classes.**
  - `Profiles.UserTable` maps primary keys to `UserRecord` rows.
  - `Profiles.PasswordHistoryTable` keeps its entries as a sequence in primary-key order.
- **User instances are objects.** `Profiles.CustomUser` is the object that `save`, `delete` and `set_password` mutate.
  - Its `pk` is 0 while it is unsaved. This mirrors the falsy `id`/`pk` the source tests.
- **Read-only data are values.** Departments and posts are passed in as values, so the visibility and validation methods cannot change them.
- **Hashing is a parameter.** The hash `make_password(raw, salt)` is an uninterpreted function value of type `Hasher`. The history table holds it as a constant. History hashes use the fixed salt `"Pas_1Hist9"`.
- **Unique columns can fail a save.** The unique constraints on `email` and `employee_id` are modelled: a save that would break one fails with an integrity error (`ok == false`) and leaves the table unchanged.

Three consequences of the code are easy to misread:

- **`set_password` records the new password.** It adds the new raw password, not the one being replaced, to the history (`models.py:157-162`).
- **Emails that differ only in case cannot both be stored.** The email column is unique and save lowercases it. So the second of two users whose emails agree after lowercasing fails to save with an integrity error. Underscore prefixes only come into play when an employee id was set explicitly or an email changed.
- **"Oldest" means the lowest primary key.** The history table's sequence is kept in primary-key order, so the first entry of a user is the `order_by("pk").first()` row (`OldestIsFirst`).

## Model

| member | source | states |
|---|---|---|
| Feeds.CollectDepartmentUsers | feeds/utils.py:15-18 | the nested loop appends the members of each of the user's departments in order, and its ids are exactly the co-members (the union over the user's departments) |
| Feeds.DepartmentUsersMembers | feeds/utils.py:15-18 | an id is in the appended list iff some of the departments lists it |
| Feeds.CoMembersAreDepartmentUsers | feeds/utils.py:15-18 | the ids collected over `user.departments` are exactly the members of departments that list the user |
| Feeds.CoMembersEmpty | feeds/utils.py:15-19 | the collected list is empty iff no department lists the user |
| Feeds.AccessiblePosts | feeds/utils.py:19-26 | the visible posts are always a subset of the stored posts: the operation only filters |
| Feeds.AccessiblePostsByUser | feeds/utils.py:14-27 | the loop-and-filter computation returns exactly the visible posts defined by `AccessiblePosts` |
| Feeds.NoDepartmentSeesOwnPosts | feeds/utils.py:19-22 | a user in no department sees exactly the posts of the organization that they created |
| Feeds.DepartmentScope | feeds/utils.py:23-26 | a user in some department sees a stored post iff it is in the organization and shared with all departments, or its author shares a department with the user |
| Feeds.CoMemberPostsCrossOrganizations | feeds/utils.py:24-26 | a post by a co-member is visible whatever its organization |
| Feeds.OwnPostsVisible | feeds/utils.py:19-26 | in either branch a user sees their own posts in the organization |
| Feeds.ValidatePriority | feeds/utils.py:30-38 | a missing or false priority always passes; a true priority fails iff a visible post has priority set, with the error keyed `"priority"` carrying the fixed message; a true priority with no creator fails as the source's dereference of None does; the post store is only read |
| Profiles.CustomUser.HasPerm | news_feed/tests/profiles/models.py:40-55 | active superusers have every permission; otherwise a permission holds iff the user is staff, a permission name is given and the object's organization is the user's |
| Profiles.CustomUser.HasModulePerms | news_feed/tests/profiles/models.py:68-77 | defined as: active and superuser, whatever the arguments; `PermissionScope` relates it to `HasPerm` |
| Profiles.CustomUser.PermissionScope | news_feed/tests/profiles/models.py:40-77 | module permission implies every object permission; short of it, an object permission requires a staff user of the object's own organization |
| Profiles.CustomUser.HasPerms | news_feed/tests/profiles/models.py:57-66 | true iff every listed permission holds, so an empty list gives true |
| Profiles.CustomUser.ShortName | news_feed/tests/profiles/models.py:82-83 | the first name when it is set, otherwise the email |
| Profiles.UserTable.Delete | news_feed/tests/profiles/models.py:86-89 | every matched row has `is_active` cleared and its other fields kept; unmatched rows are unchanged and no row is removed |
| Profiles.CustomUser.Delete | news_feed/tests/profiles/models.py:134-136 | the user ends inactive and is saved: the save fails exactly on an email or employee-id clash with another row, leaving the table unchanged; otherwise the inactive record is written under the user's key (a fresh one if unsaved) and every other row is kept; the other fields are kept, the email lowercased and an empty employee id allocated as `Save` does |
| Profiles.Lower | news_feed/tests/profiles/models.py:142 | same length, no upper-case letter left, upper-case letters mapped to their lower-case letter and every other character kept |
| Profiles.LowerIdempotent | news_feed/tests/profiles/models.py:142 | lowercasing an already lowercased email changes nothing |
| Profiles.UserTable.FreeEmployeeId | news_feed/tests/profiles/models.py:143-153 | the loop terminates and returns `_`*k + email for the least k such that no other row (all rows for an unsaved user) holds it |
| Profiles.LeastFreeIdUnique | news_feed/tests/profiles/models.py:143-153 | the allocated employee id is determined by the table, the user's key and the email |
| Profiles.UserTable.Put | news_feed/tests/profiles/models.py:154 | an unsaved user is inserted under a fresh key, a saved one written under its key; a clash on email or employee id with another row is an integrity error that changes nothing; keys stay allocated and the two columns stay unique |
| Profiles.CustomUser.Save | news_feed/tests/profiles/models.py:141-154 | the email is lowercased; a non-empty employee id is kept, an empty one becomes the least free `_`-prefixed email; the row is then written as `Put` says and the other fields are untouched |
| Profiles.DepartmentsOfMembers | news_feed/tests/profiles/models.py:179 | `user.departments` holds exactly the departments whose `users` list the user |
| Profiles.CustomUser.SetPassword | news_feed/tests/profiles/models.py:156-162 | the empty string changes nothing; otherwise the password becomes the hash of the raw value, and only for a saved user the new raw password is added to the history, after which the user no longer uses the default password |
| Profiles.CustomUser.UsingDefaultPassword | news_feed/tests/profiles/models.py:164-169 | true iff no history entry belongs to the user; `UnsavedUsesDefaultPassword` and the last ensures of `SetPassword` relate it to saving and to password changes |
| Profiles.CustomUser.UnsavedUsesDefaultPassword | news_feed/tests/profiles/models.py:164-169 | an unsaved user has no history entry, so it uses the default password |
| Profiles.PasswordHistoryTable.AddPassword | news_feed/tests/profiles/models.py:198-204 | the eviction loop and insert leave exactly `AddedHistory` of the old table (evict while the user has three or more entries, then append the fixed-salt hash) and keep the table well formed |
| Profiles.OldestIsFirst | news_feed/tests/profiles/models.py:203 | in a key-ordered table the user's first entry has the lowest key, so it is the row `order_by("pk").first()` deletes |
| Profiles.RemoveOldestFacts | news_feed/tests/profiles/models.py:203 | deleting the oldest entry drops the head of that user's history, leaves other users' histories alone and keeps the remaining rows in order |
| Profiles.Evict | news_feed/tests/profiles/models.py:201-203 | defined as: delete the user's oldest entry while it has three or more; its meaning is stated by `EvictKeeps`, `EvictOwn` and `EvictOthers` |
| Profiles.EvictKeeps | news_feed/tests/profiles/models.py:201-203 | eviction only removes rows and keeps the key order |
| Profiles.EvictOwn | news_feed/tests/profiles/models.py:201-203 | after eviction the user has min(count, 2) entries, the newest ones in their old order |
| Profiles.EvictOthers | news_feed/tests/profiles/models.py:201-203 | eviction for one user leaves every other user's history unchanged |
| Profiles.AddedHistoryShape | news_feed/tests/profiles/models.py:198-204 | after `add_password` the user's history is the surviving older entries in order followed by the new one, min(old count, 2) + 1 in all; other histories unchanged |
| Profiles.AddedHistoryWellFormed | news_feed/tests/profiles/models.py:198-204 | `add_password` keeps the table key-ordered and never leaves a user with more than three entries |
| Profiles.PasswordHistoryTable.PasswordAlreadyUsed | news_feed/tests/profiles/models.py:206-208 | defined as: some entry of a stored user with that email holds the fixed-salt hash of the candidate; `AlreadyUsedIsOwnHistory` and `AddedPasswordIsUsed` state what it means |
| Profiles.AddedPasswordIsUsed | news_feed/tests/profiles/models.py:198-208 | a password just added for a stored user is reported by the reuse check for that user's email |
| Profiles.AlreadyUsedIsOwnHistory | news_feed/tests/profiles/models.py:206-208 | since emails are unique, the reuse check for a stored user's email holds iff that user's own history holds the fixed-salt hash of the candidate |

## Left out

- Framework plumbing is not modelled: field declarations and their options, managers, `get_queryset`, `Meta` options and the `auto_now` timestamps. Their tables are the in-memory classes described above.
- Columns that no modelled operation reads are omitted: last name, dates, `is_admin_staff` and `is_p2p_staff`.
- Hashing internals (`make_password`, the inherited `AbstractBaseUser.set_password`) are foreign library code. The hash is an uninterpreted `Hasher` value. The random salt that `set_password` gets from the library is a parameter of `SetPassword`.
- Translation (`ugettext`) and the REST framework's `ValidationError` class are library code. A failure is `PriorityError.ValidationError` carrying the field name and the untranslated message.
- `add_departments` and `get_departments` are not modelled. They depend on `slugify`, `str.title`, `get_or_create` and the string form of departments, none of which is part of this model.
- Trivial accessors and stubs are not modelled: `send_welcome_email` (empty), `__unicode__`, `get_username` and the `department` property.
- Race windows are not modelled. These are the check-then-insert of `validate_priority` and concurrent employee-id allocation. Every call is atomic and sequential.
- The `SHARED_WITH` constants and the `Post` model come from files that are not part of this model. `Post` holds only the fields visibility reads, and `SharedWith` only distinguishes `AllDepartments` from any other audience.
- Python truthiness is not modelled in full:
  - a missing `priority` is None and only `True` counts as true;
  - a missing permission name is the empty string;
  - an object without `organization_id` and one whose `organization_id` is None are both `None`, because `has_perm` gives false for both.
- Storage errors other than the unique-constraint violations of a user save are not modelled. One example is a history entry saved for a user key that is not in the user table. `AddPassword` requires a saved user's key. The history table is not checked against the user table.
- Profiles.Lower: models only ASCII letters. Python's `str.lower` also lowercases other Unicode letters; that has no counterpart here.
- A `None` password is not modelled. `set_password(None)` passes the `!= ''` test in the source, and for a saved user it then calls `add_password` with `None`. `SetPassword` takes a `string`, so it cannot express this case.
