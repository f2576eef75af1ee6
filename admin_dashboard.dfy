/**
 * The dashboard's quick statistics (src/Admin/AdminDashboard.jsx:76-79): the
 * number of rows with each status and the total, over the list the page
 * keeps up to date with the shared reducers.
 */
module AdminDashboard {
  import opened Schema
  import opened Queries
  import opened RequestViews

  /** `requests.filter(r => r.status === status).length`. */
  function CountStatus(list: seq<Row>, status: string): (n: nat)
    ensures n <= |list|
    ensures n == 0 <==> forall k :: 0 <= k < |list| ==> list[k].request.status != status
  {
    if list == [] then 0
    else (if list[0].request.status == status then 1 else 0) + CountStatus(list[1..], status)
  }

  /** The four numbers the page displays (the approved count is computed but not shown). */
  datatype Stats = Stats(pending: nat, approved: nat, completed: nat, total: nat)

  function Summarize(list: seq<Row>): (s: Stats)
    ensures s.total == |list|
    ensures s.pending <= s.total && s.approved <= s.total && s.completed <= s.total
  {
    Stats(CountStatus(list, Pending), CountStatus(list, Approved), CountStatus(list, Completed), |list|)
  }

  /** Every row counts under at most one of the three statuses, and under exactly one when its status is listed. */
  lemma {:induction false} CountsPartitionTotal(list: seq<Row>)
    ensures CountStatus(list, Pending) + CountStatus(list, Approved) + CountStatus(list, Completed) <= |list|
    ensures (forall k :: 0 <= k < |list| ==> IsValidStatus(list[k].request.status)) ==>
      CountStatus(list, Pending) + CountStatus(list, Approved) + CountStatus(list, Completed) == |list|
  {
    if list != [] {
      var t := list[1..];
      CountsPartitionTotal(t);
      StatusesDistinct();
      var c := list[0].request.status;
      assert CountStatus(list, Pending) == (if c == Pending then 1 else 0) + CountStatus(t, Pending);
      assert CountStatus(list, Approved) == (if c == Approved then 1 else 0) + CountStatus(t, Approved);
      assert CountStatus(list, Completed) == (if c == Completed then 1 else 0) + CountStatus(t, Completed);
      if forall k :: 0 <= k < |list| ==> IsValidStatus(list[k].request.status) {
        assert IsValidStatus(c);
        assert forall k :: 0 <= k < |t| ==> t[k] == list[k + 1];
      }
    }
  }

  /** Counting distributes over concatenation. */
  lemma {:induction false} CountAppend(a: seq<Row>, b: seq<Row>, status: string)
    ensures CountStatus(a + b, status) == CountStatus(a, status) + CountStatus(b, status)
  {
    if a != [] {
      assert (a + b)[1..] == a[1..] + b;
      CountAppend(a[1..], b, status);
    } else {
      assert a + b == b;
    }
  }

  /** A `new-request` raises the total by one and only the count of the new row's status, by one. */
  lemma NewRequestCounts(list: seq<Row>, r: Row, status: string)
    ensures Summarize(OnNewRequest(list, r)).total == Summarize(list).total + 1
    ensures CountStatus(OnNewRequest(list, r), status) ==
      CountStatus(list, status) + (if r.request.status == status then 1 else 0)
  {
    assert OnNewRequest(list, r)[1..] == list;
  }

  /** A `request-updated` never changes the total. */
  lemma UpdateKeepsTotal(list: seq<Row>, u: Row)
    ensures Summarize(OnRequestUpdated(list, u)).total == Summarize(list).total
  {
  }

  /** The ids in the list are distinct, as they are in the server's table. */
  predicate DistinctIds(list: seq<Row>) {
    forall i, j :: 0 <= i < j < |list| ==> list[i].request.id != list[j].request.id
  }

  /**
   * With distinct ids, an update of the row at `k` moves one row from the
   * count of its old status to the count of the update's status.
   */
  lemma {:induction false} UpdateMovesOneCount(list: seq<Row>, u: Row, k: nat, status: string)
    requires DistinctIds(list)
    requires k < |list| && list[k].request.id == u.request.id
    ensures CountStatus(OnRequestUpdated(list, u), status) + (if list[k].request.status == status then 1 else 0) ==
      CountStatus(list, status) + (if u.request.status == status then 1 else 0)
  {
    assert list == list[..k] + [list[k]] + list[k + 1..];
    UpdateDistributes(list[..k] + [list[k]], list[k + 1..], u);
    UpdateDistributes(list[..k], [list[k]], u);
    UpdateOfAbsentIdIsIdentity(list[..k], u);
    UpdateOfAbsentIdIsIdentity(list[k + 1..], u);
    assert OnRequestUpdated([list[k]], u) == [u];
    assert OnRequestUpdated(list, u) == list[..k] + [u] + list[k + 1..];
    CountAppend(list[..k] + [u], list[k + 1..], status);
    CountAppend(list[..k], [u], status);
    CountAppend(list[..k] + [list[k]], list[k + 1..], status);
    CountAppend(list[..k], [list[k]], status);
  }
}
