# Member registry of hello-spring, modelled in Dafny

This project models the member-management core of the hello-spring example
application. An in-memory repository holds members in a table keyed by ids it
generates itself from a counter. A service on top of it enforces the single
business rule: no two members may share a name.

- `domain.dfy` (module `Domain`): the `Member` record (id and name) and the
  `DuplicateMember` error.
- `wrappers.dfy` (module `Wrappers`): `Option` (Java's `Optional`), `Result`
  (a value, or the exception a call throws), `Outcome` (a check that passes
  or fails).
- `registry.dfy` (module `Registry`): the repository state as a value. The
  module defines `State(store, sequence)` and the table invariant
  `WellKeyed`: every key is its member's id and lies in `1..sequence`. It also
  gives the effect of save and of join as functions on that state, and proves
  lemmas about any run of successive joins.
- `memory_member_repository.dfy` (module `Repository`): the class
  `MemoryMemberRepository` with the fields `store: map<int, Member>` and
  `sequence: nat`. `Save` and `ClearStore` update them in place. `FindById`
  is a function over the fields. `FindByName` and `FindAll` are loops that
  visit the keys in an unspecified order, the way Java iterates the values of
  a `HashMap`.
- `member_service.dfy` (module `Service`): the class `MemberService` over a
  repository, with `Join`, its duplicate check, `FindMembers` and `FindOne`.
  It also has a client method that replays the duplicate-join scenario.

`MemoryMemberRepository.Save` and `MemberService.Join` are proved to change
the state exactly as `Registry.Save` and `Registry.Join` say. So the lemmas
about `Registry.JoinAll` hold for any sequence of `Join` calls on the classes.

## Model

| member | source | states |
|---|---|---|
| `Repository.MemoryMemberRepository.constructor` | src/main/java/hello/hello_spring/repository/MemoryMemberRepository.java:9-10 | a new repository has an empty table and a counter at 0, and satisfies the table invariant |
| `Registry.Save` | src/main/java/hello/hello_spring/repository/MemoryMemberRepository.java:13-17 | the counter advances by one; the returned member keeps its name and has the new counter as id; it is stored under that id. On a well-keyed state the id is not yet a key, the invariant is kept, the table grows by exactly one entry, and every old entry is unchanged |
| `Repository.MemoryMemberRepository.Save` | src/main/java/hello/hello_spring/repository/MemoryMemberRepository.java:13-17 | follows `Registry.Save` and keeps the invariant. The returned member is the one stored, and `FindById` on its id gives it back. No existing entry is overwritten |
| `Repository.MemoryMemberRepository.FindById` | src/main/java/hello/hello_spring/repository/MemoryMemberRepository.java:19-22 | returns None exactly when the id is not a key, otherwise the stored member. A found member carries the requested id. An id below 1 or above the counter is never found |
| `Repository.MemoryMemberRepository.FindByName` | src/main/java/hello/hello_spring/repository/MemoryMemberRepository.java:24-29 | returns None exactly when no stored member has the name. Otherwise it returns a stored member with exactly that name; when names are unique, that is the only such member |
| `Repository.MemoryMemberRepository.FindAll` | src/main/java/hello/hello_spring/repository/MemoryMemberRepository.java:31-34 | the list holds exactly the stored members, one element per table entry, with no element twice, in unspecified order |
| `Repository.MemoryMemberRepository.ClearStore` | src/main/java/hello/hello_spring/repository/MemoryMemberRepository.java:36-38 | the table becomes empty, the counter is unchanged, and the invariant still holds, so later ids keep increasing |
| `Registry.Join` | src/main/java/hello/hello_spring/service/MemberService.java:18-30 | fails exactly when a stored member has the name. The failure is DuplicateMember and leaves the state unchanged. Otherwise it saves the member and returns the new counter as id, under which the member is stored with its name. It keeps the table invariant and, on a well-keyed state, name uniqueness |
| `Registry.JoinAll` | src/main/java/hello/hello_spring/service/MemberService.java:18-22 | successive joins give one result per call |
| `Registry.JoinAllPreserves` | src/main/java/hello/hello_spring/service/MemberService.java:18-30 | a run of joins keeps the invariant and never moves the counter back. It never changes or removes an existing entry, and it keeps names unique |
| `Registry.JoinOnlyKeepsNamesUnique` | src/main/java/hello/hello_spring/service/MemberService.java:18-30 | if a new repository is changed only by joins, no two stored members share a name |
| `Registry.JoinAllIds` | src/main/java/hello/hello_spring/service/MemberService.java:18-22 | the ids that successful joins return are above the starting counter and at most the final one. They strictly increase in call order, and each id holds the joined member, stamped with that id, in the final table |
| `Registry.JoinAllNoOthers` | src/main/java/hello/hello_spring/service/MemberService.java:18-22 | after a run of joins, every entry was already there or was returned as the id of a successful join |
| `Registry.JoinAllFreshNamesSucceed` | src/main/java/hello/hello_spring/service/MemberService.java:18-22 | joins of distinct names that are not yet taken all succeed, and the i-th returns id sequence + 1 + i |
| `Registry.JoinAllFreshNamesGrow` | src/main/java/hello/hello_spring/service/MemberService.java:18-22 | joins of distinct names that are not yet taken add one table entry per call |
| `Service.MemberService.constructor` | src/main/java/hello/hello_spring/service/MemberService.java:14-16 | the service uses the repository it is given |
| `Service.MemberService.Join` | src/main/java/hello/hello_spring/service/MemberService.java:18-22 | follows `Registry.Join`. It fails exactly when the name is taken, and then leaves the repository unchanged. On success it returns the repository's new counter, `FindOne` on that id gives the member with its name, and name uniqueness is kept |
| `Service.MemberService.ValidateDuplicateMember` | src/main/java/hello/hello_spring/service/MemberService.java:25-30 | fails with DuplicateMember exactly when a stored member has the candidate's name |
| `Service.MemberService.FindMembers` | src/main/java/hello/hello_spring/service/MemberService.java:32-34 | returns exactly the stored members, one per entry, with no member twice |
| `Service.MemberService.FindOne` | src/main/java/hello/hello_spring/service/MemberService.java:36-38 | is the repository's lookup by id, and finds a member exactly when the id is a key |
| `Service.JoinScenario` | src/main/java/hello/hello_spring/service/MemberService.java:18-34 | on a new repository, joining "spring1" and then "spring2" succeeds with ids 1 and 2. Joining "spring1" again fails with DuplicateMember, and exactly those two members remain |

## Left out

- The `MemberRepository` interface is not mirrored, because Dafny traits are not used here. The service holds a `MemoryMemberRepository` directly.
- `HelloController` (HTTP routing, view models, templates, JSON) is not part of this model. It is web plumbing whose only logic is a string concatenation.
- In Java, `store` and `sequence` are `static` and so are shared by every repository instance. The model has one owning object.
- There is no synchronisation, so concurrent `join` calls could race on the check-then-save. The model covers sequential calls only.
- Java `null` is not modelled: a `null` id passed to `findById`, a `null` name, or the unset id of a member before it is saved. A `Member` value always has an id, and `Save` overwrites it.
- Java aliasing is not modelled. `setId` mutates the caller's object, and later changes to that object would show in the table. `Member` is a value here, `Save` returns the stamped copy, and `Join` returns that copy's id.
- The `long` counter is an unbounded `nat`, so its overflow is not modelled.
- Which member `findAny` picks and the iteration order of the `HashMap` are not fixed. The model's scans pick keys in an unspecified order, and the contracts speak only of membership.
- The exception message text is dropped; `DuplicateMember` carries no message.
- The `Member` class is not part of this model. It is taken to be a record with an `id` and a `name`, as its getters and setters are used.
