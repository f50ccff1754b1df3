/** `TaskController.index`: the filtered task list, ten to a page, with the total number of
    matches in the `X-Total-Count` header. */
module TaskController {
  import opened Wrappers
  import opened Entities
  import opened Failures
  import opened Listing
  import opened TaskMapper
  import TaskSpecification

  const PageSize := 10

  datatype TaskPage = TaskPage(body: seq<TaskDto>, totalCount: nat)

  /** The tasks the filter lets through, in table order. */
  function Matching(st: Store, params: TaskSpecification.TaskParams, rows: seq<Task>): seq<Task> {
    Select(rows, t => TaskSpecification.Build(params, st, t))
  }

  /** The mapping loop of `index`: each task on the page becomes its DTO, in order. */
  method ToDtos(st: Store, tasks: seq<Task>) returns (body: seq<TaskDto>)
    ensures |body| == |tasks|
    ensures forall k :: 0 <= k < |tasks| ==> body[k] == ToDto(st, tasks[k])
  {
    body := [];
    var j := 0;
    while j < |tasks|
      invariant 0 <= j <= |tasks|
      invariant |body| == j
      invariant forall k :: 0 <= k < j ==> body[k] == ToDto(st, tasks[k])
    {
      body := body + [ToDto(st, tasks[j])];
      j := j + 1;
    }
  }

  /** Every match is a row of the table that passes the filter. */
  lemma MatchesComeFromRows(st: Store, params: TaskSpecification.TaskParams, rows: seq<Task>, k: nat)
    requires k < |Matching(st, params, rows)|
    ensures exists i ::
      0 <= i < |rows| && rows[i] == Matching(st, params, rows)[k] && TaskSpecification.Build(params, st, rows[i])
  {
    var m := Matching(st, params, rows);
    assert m[k] in multiset(m);
    SelectCounts(rows, t => TaskSpecification.Build(params, st, t), m[k]);
    assert m[k] in multiset(rows);
    var i :| 0 <= i < |rows| && rows[i] == m[k];
  }

  /** `index(params, page)`: page numbers start at 1 and go through `PageRequest.of(page - 1, 10)`
      (see `Listing.PageRequest` for what it refuses); the body is the requested page of matches,
      each mapped to its DTO, and the count is that of all matches. `page` is a Java `int`;
      `rows` is the task table in storage order. */
  method Index(st: Store, rows: seq<Task>, params: TaskSpecification.TaskParams, page: int)
    returns (r: Result<TaskPage, Failure>)
    requires IsInt(page)
    ensures r.Err? <==> PageRequest(page, PageSize).Err?
    ensures (page < 1 && page != IntMin) <==> r == Err(InvalidPageRequest)
    ensures r.Err? ==> r.error == PageRequest(page, PageSize).error
    ensures r.Ok? ==> r.value.totalCount == |Matching(st, params, rows)|
    ensures r.Ok? ==> |r.value.body| <= PageSize
    ensures r.Ok? ==> |r.value.body| == |PageSlice(Matching(st, params, rows), PageIndex(page) + 1, PageSize)|
    ensures r.Ok? ==> forall j :: 0 <= j < |r.value.body| ==>
      r.value.body[j] == ToDto(st, Matching(st, params, rows)[PageRequest(page, PageSize).value + j])
    ensures r.Ok? ==> forall j :: 0 <= j < |r.value.body| ==>
      exists i :: 0 <= i < |rows| && rows[i].id == r.value.body[j].id && TaskSpecification.Build(params, st, rows[i])
  {
    var offset :- PageRequest(page, PageSize);
    var matches := Filter(rows, t => TaskSpecification.Build(params, st, t));
    var slice := PageSlice(matches, PageIndex(page) + 1, PageSize);
    var body := ToDtos(st, slice);
    forall k | 0 <= k < |body|
      ensures exists i :: 0 <= i < |rows| && rows[i].id == body[k].id && TaskSpecification.Build(params, st, rows[i])
    {
      MatchesComeFromRows(st, params, rows, offset + k);
    }
    r := Ok(TaskPage(body, |matches|));
  }

  /** Asking for every page in turn returns every match exactly once, in order. */
  lemma PagesCoverMatches(st: Store, params: TaskSpecification.TaskParams, rows: seq<Task>, n: nat)
    requires n * PageSize >= |Matching(st, params, rows)|
    ensures FirstPages(Matching(st, params, rows), PageSize, n) == Matching(st, params, rows)
  {
    AllPagesGiveEverything(Matching(st, params, rows), PageSize, n);
  }
}
