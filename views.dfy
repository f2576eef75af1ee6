/**
 * The list reducers and the status-to-class switch that the administrator's
 * list, the student's block list and the dashboard share. Each page keeps
 * the rows the list queries returned and folds the `new-request` and
 * `request-updated` events into them.
 */
module RequestViews {
  import opened Text
  import opened Schema
  import opened Queries

  /** `prev => [newRequest, ...prev]`. */
  function OnNewRequest(list: seq<Row>, r: Row): (l: seq<Row>)
    ensures |l| == |list| + 1
    ensures l[0] == r && l[1..] == list
  {
    [r] + list
  }

  /** `prev.map(req => req.id === updatedRequest.id ? updatedRequest : req)`. */
  function OnRequestUpdated(list: seq<Row>, u: Row): (l: seq<Row>)
    ensures |l| == |list|
    ensures forall k :: 0 <= k < |list| && list[k].request.id == u.request.id ==> l[k] == u
    ensures forall k :: 0 <= k < |list| && list[k].request.id != u.request.id ==> l[k] == list[k]
  {
    seq(|list|, k requires 0 <= k < |list| => if list[k].request.id == u.request.id then u else list[k])
  }

  /** Some row of the list carries this request id. */
  predicate HasId(list: seq<Row>, id: Id) {
    exists k :: 0 <= k < |list| && list[k].request.id == id
  }

  /** An update for a request the page does not show leaves the list as it was. */
  lemma UpdateOfAbsentIdIsIdentity(list: seq<Row>, u: Row)
    requires !HasId(list, u.request.id)
    ensures OnRequestUpdated(list, u) == list
  {
    var l := OnRequestUpdated(list, u);
    forall k | 0 <= k < |list| ensures l[k] == list[k] {
      assert list[k].request.id != u.request.id;
    }
  }

  /** Applying the same update twice is applying it once. */
  lemma UpdateIdempotent(list: seq<Row>, u: Row)
    ensures OnRequestUpdated(OnRequestUpdated(list, u), u) == OnRequestUpdated(list, u)
  {
    var once := OnRequestUpdated(list, u);
    var twice := OnRequestUpdated(once, u);
    forall k | 0 <= k < |list| ensures twice[k] == once[k] {
      if list[k].request.id == u.request.id {
        assert once[k] == u;
      } else {
        assert once[k] == list[k];
      }
    }
  }

  /** The update distributes over a list split in two: it works element by element. */
  lemma UpdateDistributes(a: seq<Row>, b: seq<Row>, u: Row)
    ensures OnRequestUpdated(a + b, u) == OnRequestUpdated(a, u) + OnRequestUpdated(b, u)
  {
    var l := OnRequestUpdated(a + b, u);
    var r := OnRequestUpdated(a, u) + OnRequestUpdated(b, u);
    forall k | 0 <= k < |a + b| ensures l[k] == r[k] {
      if k < |a| {
        assert (a + b)[k] == a[k];
      } else {
        assert (a + b)[k] == b[k - |a|];
      }
    }
  }

  /** Every row of the updated list is the update or a row of the old list. */
  lemma UpdatedRowsFrom(list: seq<Row>, u: Row, row: Row)
    requires row in OnRequestUpdated(list, u)
    ensures row == u || row in list
  {
    var l := OnRequestUpdated(list, u);
    var k :| 0 <= k < |l| && l[k] == row;
    if list[k].request.id != u.request.id {
      assert row == list[k];
    }
  }

  /** `getStatusClass`: compares the lower-cased status, `status-pending` by default. */
  function StatusClass(status: string): (c: string)
    ensures c == "status-approved" <==> Lower(status) == "approved"
    ensures c == "status-completed" <==> Lower(status) == "completed"
    ensures c == "status-pending" <==> Lower(status) != "approved" && Lower(status) != "completed"
  {
    match Lower(status)
    case "pending" => "status-pending"
    case "approved" => "status-approved"
    case "completed" => "status-completed"
    case _ => "status-pending"
  }

  /** Each status the server stores gets the class named after it. */
  lemma StatusClassOfValidStatus(status: string)
    requires IsValidStatus(status)
    ensures StatusClass(status) == "status-" + Lower(status)
  {
    if status == Pending {
      assert Lower(status) == "pending";
    } else if status == Approved {
      assert Lower(status) == "approved";
    } else {
      assert Lower(status) == "completed";
    }
  }
}
