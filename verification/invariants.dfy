/** What a consistent store looks like: the database's constraints (keys, foreign keys, unique
    columns, bean validation) and the back-reference sets agreeing with the owning side. */
module Invariants {
  import opened Wrappers
  import opened Entities

  /** Every record sits under its own id. */
  ghost predicate KeysMatch(st: Store) {
    && (forall k :: k in st.users ==> st.users[k].id == k)
    && (forall k :: k in st.statuses ==> st.statuses[k].id == k)
    && (forall k :: k in st.labels ==> st.labels[k].id == k)
    && (forall k :: k in st.tasks ==> st.tasks[k].id == k)
  }

  /** The identity generator is ahead of every id in use. */
  ghost predicate IdsBelowNext(st: Store) {
    && (forall k :: k in st.users ==> k < st.nextId)
    && (forall k :: k in st.statuses ==> k < st.nextId)
    && (forall k :: k in st.labels ==> k < st.nextId)
    && (forall k :: k in st.tasks ==> k < st.nextId)
  }

  /** Foreign keys: a task's status, assignee and labels exist. */
  ghost predicate TaskRefsResolve(st: Store, t: Task) {
    && t.status in st.statuses
    && (t.assignee.Some? ==> t.assignee.value in st.users)
    && t.labels <= st.labels.Keys
  }

  ghost predicate RefIntegrity(st: Store) {
    forall k :: k in st.tasks ==> TaskRefsResolve(st, st.tasks[k])
  }

  /** Unique columns. */
  ghost predicate UniqueEmails(st: Store) {
    forall a, b :: a in st.users && b in st.users && st.users[a].email == st.users[b].email ==> a == b
  }

  ghost predicate UniqueLabelNames(st: Store) {
    forall a, b :: a in st.labels && b in st.labels && st.labels[a].name == st.labels[b].name ==> a == b
  }

  ghost predicate UniqueStatusNames(st: Store) {
    forall a, b :: a in st.statuses && b in st.statuses && st.statuses[a].name == st.statuses[b].name ==> a == b
  }

  ghost predicate UniqueSlugs(st: Store) {
    forall a, b :: a in st.statuses && b in st.statuses && st.statuses[a].slug == st.statuses[b].slug ==> a == b
  }

  ghost predicate Unique(st: Store) {
    UniqueEmails(st) && UniqueLabelNames(st) && UniqueStatusNames(st) && UniqueSlugs(st)
  }

  /** Bean validation holds of every stored entity. */
  ghost predicate FieldsValid(st: Store) {
    && (forall k :: k in st.tasks ==> ValidTaskName(st.tasks[k].name))
    && (forall k :: k in st.labels ==> ValidLabelName(st.labels[k].name))
    && (forall k :: k in st.users ==> ValidEmail(st.users[k].email))
  }

  /** The store as the database keeps it. */
  ghost predicate Wf(st: Store) {
    KeysMatch(st) && IdsBelowNext(st) && RefIntegrity(st) && Unique(st) && FieldsValid(st)
  }

  /** t ∈ u.assignedTasks exactly when t.assignee == u. */
  ghost predicate AssigneeRefsSynced(st: Store) {
    forall u, t :: u in st.users ==>
      (t in st.users[u].assignedTasks <==> t in st.tasks && st.tasks[t].assignee == Some(u))
  }

  /** t ∈ s.tasks exactly when t.status == s. */
  ghost predicate StatusRefsSynced(st: Store) {
    forall s, t :: s in st.statuses ==>
      (t in st.statuses[s].tasks <==> t in st.tasks && st.tasks[t].status == s)
  }
}
