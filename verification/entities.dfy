/** The entity graph: users, task statuses, labels and tasks, held in a store keyed by id.
    Relations are ids; the back-reference collections are kept as stored fields so that the
    operations can be checked for keeping them in step. */
module Entities {
  import opened Wrappers
  import opened Text

  /** Database identities (Java `Long`); fresh ones come from the store's counter. */
  type Id = int

  /** A calendar day (`LocalDate`), or an instant reduced to an ordered number. */
  type Day = int

  datatype Role = ADMIN | USER

  /** `assignedTasks` is the inverse of `Task.assignee`. */
  datatype User = User(
    id: Id,
    firstName: Option<string>,
    lastName: Option<string>,
    email: string,
    passwordDigest: string,
    role: Role,
    createdAt: Day,
    assignedTasks: set<Id>)

  /** `tasks` is the inverse of `Task.status`. */
  datatype TaskStatus = TaskStatus(
    id: Id,
    name: string,
    slug: string,
    createdAt: Day,
    tasks: set<Id>)

  /** `tasks` is the inverse side of the many-to-many `Task.labels`; it is a Java `List`,
      so it keeps order and admits duplicates. */
  datatype Label = Label(
    id: Id,
    name: string,
    createdAt: Day,
    tasks: seq<Id>)

  /** `status` is required (the relation is not optional); `assignee` may be absent. */
  datatype Task = Task(
    id: Id,
    index: Option<int>,
    name: Option<string>,
    description: Option<string>,
    status: Id,
    assignee: Option<Id>,
    labels: set<Id>,
    createdAt: Day)

  /** The persistent state: one map per table, and the next identity to hand out. */
  datatype Store = Store(
    users: map<Id, User>,
    statuses: map<Id, TaskStatus>,
    labels: map<Id, Label>,
    tasks: map<Id, Task>,
    nextId: Id)

  /** Bean-validation constraints checked when an entity is saved. `@NotBlank` trims (see
      `Text.Trim`) and `@Size` counts UTF-16 code units. */

  /** `Task.name`: not blank (which implies length at least 1). */
  predicate ValidTaskName(name: Option<string>) {
    name.Some? && NotBlank(name.value)
  }

  /** `Label.name`: not blank, between 3 and 1000 UTF-16 code units. */
  predicate ValidLabelName(name: string) {
    NotBlank(name) && 3 <= Utf16Length(name) <= 1000
  }

  /** A simplified `@Email`: exactly one `@`, with text on both sides of it. */
  predicate IsEmail(s: string) {
    exists i :: 0 < i < |s| - 1 && s[i] == '@' && (forall j :: 0 <= j < |s| && j != i ==> s[j] != '@')
  }

  /** `User.email`: not blank and well formed. */
  predicate ValidEmail(email: string) {
    NotBlank(email) && IsEmail(email)
  }

  /** The trimming test, not `String.isBlank`, decides: a name made of one control character
      is refused though `isBlank` calls it text, an em space is accepted though `isBlank`
      calls it blank, and an emoji counts twice towards a label name's minimum length. */
  lemma {:induction false} ValidationExamples()
    ensures !ValidTaskName(Some("\U{1}")) && !IsBlank("\U{1}")
    ensures ValidTaskName(Some("\U{2003}")) && IsBlank("\U{2003}")
    ensures ValidLabelName("\U{1F600}a") && |"\U{1F600}a"| == 2
  {
    assert "\U{2003}"[0] as int > 0x20;
    assert !IsWhitespace("\U{1}"[0]);
    var e := "\U{1F600}a";
    assert e[0] as int > 0x20;
    assert e[1..] == "a";
    assert Utf16Length(e[1..][1..]) == 0;
  }
}
