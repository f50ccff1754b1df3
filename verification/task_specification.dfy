/** The task-list filter: four optional parameters, each an atomic test on a task, combined
    with AND; an absent parameter contributes "true". */
module TaskSpecification {
  import opened Wrappers
  import opened Text
  import opened Entities

  datatype TaskParams = TaskParams(
    titleCont: Option<string>,
    assigneeId: Option<Id>,
    status: Option<string>,
    labelId: Option<Id>)

  const NoParams := TaskParams(None, None, None, None)

  /** The text parameters count as absent when null or blank. */
  predicate TextAbsent(p: Option<string>) {
    p.None? || IsBlank(p.value)
  }

  /** `lower(name) LIKE '%' + lower(titleCont) + '%'`; a null name never matches. */
  predicate WithTitleCont(titleCont: Option<string>, t: Task) {
    TextAbsent(titleCont) || (t.name.Some? && ContainsIgnoringCase(t.name.value, titleCont.value))
  }

  /** `assignee.id = assigneeId`; an unassigned task never matches. */
  predicate WithAssigneeId(assigneeId: Option<Id>, t: Task) {
    assigneeId.None? || t.assignee == Some(assigneeId.value)
  }

  /** `taskStatus.slug = status`, exact and case-sensitive. */
  predicate WithStatus(status: Option<string>, st: Store, t: Task) {
    TextAbsent(status) || (t.status in st.statuses && st.statuses[t.status].slug == status.value)
  }

  /** Inner join on `labels` with `label.id = labelId`: some label of the task has that id. */
  predicate WithLabelId(labelId: Option<Id>, t: Task) {
    labelId.None? || labelId.value in t.labels
  }

  predicate Build(p: TaskParams, st: Store, t: Task) {
    && WithTitleCont(p.titleCont, t)
    && WithAssigneeId(p.assigneeId, t)
    && WithStatus(p.status, st, t)
    && WithLabelId(p.labelId, t)
  }

  /** With no parameter at all, every task passes. */
  lemma EmptyFilterAcceptsAll(st: Store, t: Task)
    ensures Build(NoParams, st, t)
  {
  }

  /** A blank title or status behaves exactly like an absent one; an id parameter is absent only
      when null, so any given id constrains the result. */
  lemma BlankTextIsAbsent(p: TaskParams, blank: string, st: Store, t: Task, id: Id)
    requires IsBlank(blank)
    ensures Build(p.(titleCont := Some(blank)), st, t) == Build(p.(titleCont := None), st, t)
    ensures Build(p.(status := Some(blank)), st, t) == Build(p.(status := None), st, t)
    ensures Build(p.(assigneeId := Some(id)), st, t) ==> t.assignee == Some(id)
    ensures Build(p.(labelId := Some(id)), st, t) ==> id in t.labels
  {
  }

  /** The title test is case-insensitive containment: a non-blank `titleCont` accepts a task exactly
      when the lower-cased text occurs in the lower-cased name, and lower-casing the search text
      changes nothing. */
  lemma TitleContIsCaseInsensitiveSubstring(q: string, t: Task)
    requires !IsBlank(q)
    ensures WithTitleCont(Some(q), t) <==> t.name.Some? && Occurs(Lower(t.name.value), Lower(q))
    ensures WithTitleCont(Some(q), t) == WithTitleCont(Some(Lower(q)), t)
  {
    if t.name.Some? {
      ContainsIffOccurs(Lower(t.name.value), Lower(q));
      IgnoringCaseIsCaseBlind(t.name.value, q);
    }
    assert forall i :: 0 <= i < |q| ==> (IsWhitespace(Lower(q)[i]) <==> IsWhitespace(q[i]));
    assert !IsBlank(Lower(q));
  }

  /** Example: searching "AUTH" finds "Add auth filter". */
  lemma TitleSearchExample()
    ensures WithTitleCont(Some("AUTH"), Task(1, None, Some("Add auth filter"), None, 1, None, {}, 0))
  {
    var name := "Add auth filter";
    var lowered := Lower(name);
    var q := Lower("AUTH");
    assert q == "auth" by {
      assert q[0] == 'a' && q[1] == 'u' && q[2] == 't' && q[3] == 'h';
    }
    assert lowered[4..8] == "auth" by {
      assert lowered[4] == LowerChar(name[4]) == 'a';
      assert lowered[5] == LowerChar(name[5]) == 'u';
      assert lowered[6] == LowerChar(name[6]) == 't';
      assert lowered[7] == LowerChar(name[7]) == 'h';
    }
    assert OccursAt(lowered, q, 4);
    ContainsIffOccurs(lowered, q);
    assert !IsBlank("AUTH") by {
      assert !IsWhitespace("AUTH"[0]);
    }
  }

  /** Each id and slug test matches exactly the tasks holding that value. */
  lemma AtomicTestsAreExact(a: Id, slug: string, l: Id, st: Store, t: Task)
    requires !IsBlank(slug)
    ensures WithAssigneeId(Some(a), t) <==> t.assignee.Some? && t.assignee.value == a
    ensures t.assignee.None? ==> !WithAssigneeId(Some(a), t)
    ensures WithStatus(Some(slug), st, t) <==> t.status in st.statuses && st.statuses[t.status].slug == slug
    ensures WithLabelId(Some(l), t) <==> exists k :: k in t.labels && k == l
    ensures t.labels == {} ==> !WithLabelId(Some(l), t)
  {
  }

  /** The filter of a parameter record is the AND of the filters of its single parameters. */
  lemma BuildIsConjunction(p: TaskParams, st: Store, t: Task)
    ensures Build(p, st, t) <==>
      && Build(NoParams.(titleCont := p.titleCont), st, t)
      && Build(NoParams.(assigneeId := p.assigneeId), st, t)
      && Build(NoParams.(status := p.status), st, t)
      && Build(NoParams.(labelId := p.labelId), st, t)
  {
  }

  /** `q` narrows `p` when each parameter of `p` is absent or is also set, to the same value, in `q`. */
  predicate Narrows(q: TaskParams, p: TaskParams) {
    && (TextAbsent(p.titleCont) || q.titleCont == p.titleCont)
    && (p.assigneeId.None? || q.assigneeId == p.assigneeId)
    && (TextAbsent(p.status) || q.status == p.status)
    && (p.labelId.None? || q.labelId == p.labelId)
  }

  /** Adding parameters can only shrink the set of matching tasks. */
  lemma MoreParamsMatchFewer(q: TaskParams, p: TaskParams, st: Store, t: Task)
    requires Narrows(q, p)
    ensures Build(q, st, t) ==> Build(p, st, t)
  {
  }
}
