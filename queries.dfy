/**
 * The two list queries (server.js:622-632 and 653-662): each request is
 * joined with its live account, its display fields are resolved live value
 * first, snapshot second (`COALESCE`), optionally filtered to one
 * residence and block, and ordered newest first.
 */
module Queries {
  import opened Text
  import opened Schema

  /** A row as the queries return it: every request column (`sr.*`) and the resolved `fullName`, `residence`, `block`. */
  datatype Row = Row(request: Request, fullName: string, residence: string, block: string)

  /** The request's author still has an account: the LEFT JOIN found a student. */
  predicate HasAccount(students: map<Id, Student>, r: Request) {
    r.studentId.Some? && r.studentId.value in students
  }

  /**
   * `COALESCE(s.fullName, sr.studentName)` and likewise for residence and
   * block: the row keeps every request column, and shows the live
   * account's identity while the author has one (its columns are NOT NULL)
   * and the snapshot once the account is gone.
   */
  function Resolve(students: map<Id, Student>, r: Request): (row: Row)
    ensures row.request == r
    ensures HasAccount(students, r) ==>
      var s := students[r.studentId.value];
      row.fullName == s.fullName && row.residence == s.residence && row.block == s.block
    ensures !HasAccount(students, r) ==>
      row.fullName == r.studentName && row.residence == r.studentResidence && row.block == r.studentBlock
  {
    if HasAccount(students, r) then
      var s := students[r.studentId.value];
      Row(r, s.fullName, s.residence, s.block)
    else
      Row(r, r.studentName, r.studentResidence, r.studentBlock)
  }

  /** The snapshot columns still spell the live account's residence and block. */
  predicate SnapshotMatchesAccount(students: map<Id, Student>, r: Request)
    requires HasAccount(students, r)
  {
    && r.studentResidence == students[r.studentId.value].residence
    && r.studentBlock == students[r.studentId.value].block
  }

  /** `(s.residence = ? AND s.block = ?) OR (sr.studentResidence = ? AND sr.studentBlock = ?)`, under the collation. */
  predicate InBlock(students: map<Id, Student>, r: Request, residence: string, block: string) {
    || (HasAccount(students, r)
        && SameText(students[r.studentId.value].residence, residence)
        && SameText(students[r.studentId.value].block, block))
    || (SameText(r.studentResidence, residence) && SameText(r.studentBlock, block))
  }

  /**
   * What the block filter means for the row a page shows: a request whose
   * resolved row shows the pair is always kept; when there is no account,
   * or the snapshot agrees with it, it is kept only then.
   */
  lemma InBlockShowsPair(students: map<Id, Student>, r: Request, residence: string, block: string)
    ensures SameText(Resolve(students, r).residence, residence) && SameText(Resolve(students, r).block, block) ==>
      InBlock(students, r, residence, block)
    ensures !HasAccount(students, r) || SnapshotMatchesAccount(students, r) ==>
      (InBlock(students, r, residence, block) <==>
       SameText(Resolve(students, r).residence, residence) && SameText(Resolve(students, r).block, block))
  {
  }

  /** `ORDER BY sr.dateCreated DESC` holds of `rows`. */
  predicate NewestFirst(rows: seq<Row>) {
    forall i, j :: 0 <= i < j < |rows| ==> rows[i].request.dateCreated >= rows[j].request.dateCreated
  }

  /**
   * Inserts `x` into a newest-first list, after every row at least as new
   * and before every strictly older one. Since `SortNewestFirst` inserts
   * the table's rows from the last one back, later rows of the table end up
   * first among equal dates.
   */
  function InsertByDate(x: Row, rows: seq<Row>): (r: seq<Row>)
    requires NewestFirst(rows)
    ensures NewestFirst(r)
    ensures multiset(r) == multiset(rows) + multiset{x}
    ensures r != [] && (r[0] == x || (rows != [] && r[0] == rows[0]))
  {
    if rows == [] || x.request.dateCreated > rows[0].request.dateCreated then
      PrependNewest(x, rows);
      [x] + rows
    else
      var t := InsertByDate(x, rows[1..]);
      assert rows == [rows[0]] + rows[1..];
      PrependNewest(rows[0], t);
      [rows[0]] + t
  }

  /** A row no older than the head of a newest-first list may go in front of it. */
  lemma PrependNewest(x: Row, rows: seq<Row>)
    requires NewestFirst(rows)
    requires rows != [] ==> rows[0].request.dateCreated <= x.request.dateCreated
    ensures NewestFirst([x] + rows)
  {
    var r := [x] + rows;
    forall i, j | 0 <= i < j < |r| ensures r[i].request.dateCreated >= r[j].request.dateCreated {
      if i == 0 && j > 1 {
        assert rows[0].request.dateCreated >= rows[j - 1].request.dateCreated;
      }
    }
  }

  /** `ORDER BY sr.dateCreated DESC`: a newest-first permutation of `rows`. */
  function SortNewestFirst(rows: seq<Row>): (r: seq<Row>)
    ensures NewestFirst(r)
    ensures multiset(r) == multiset(rows)
  {
    if rows == [] then []
    else
      assert rows == [rows[0]] + rows[1..];
      InsertByDate(rows[0], SortNewestFirst(rows[1..]))
  }

  /** Resolves every request, in table order. */
  function ResolveAll(students: map<Id, Student>, requests: seq<Request>): (rows: seq<Row>)
    ensures |rows| == |requests|
  {
    seq(|requests|, i requires 0 <= i < |requests| => Resolve(students, requests[i]))
  }

  /** The requests the block query's WHERE clause keeps, in table order. */
  function FilterBlock(students: map<Id, Student>, requests: seq<Request>, residence: string, block: string): (kept: seq<Request>)
    ensures forall r :: r in kept <==> r in requests && InBlock(students, r, residence, block)
  {
    if requests == [] then []
    else
      assert requests == [requests[0]] + requests[1..];
      (if InBlock(students, requests[0], residence, block) then [requests[0]] else [])
      + FilterBlock(students, requests[1..], residence, block)
  }

  /** `GET /api/requests`: one row per request, newest first. */
  function ListAll(students: map<Id, Student>, requests: seq<Request>): (rows: seq<Row>)
    ensures |rows| == |requests|
    ensures NewestFirst(rows)
  {
    assert |multiset(SortNewestFirst(ResolveAll(students, requests)))| == |requests|;
    SortNewestFirst(ResolveAll(students, requests))
  }

  /** `GET /api/requests/block/:residence/:block`: newest first. */
  function ListByBlock(students: map<Id, Student>, requests: seq<Request>, residence: string, block: string): (rows: seq<Row>)
    ensures NewestFirst(rows)
  {
    SortNewestFirst(ResolveAll(students, FilterBlock(students, requests, residence, block)))
  }

  /** Sorting keeps exactly the rows it was given. */
  lemma SortedMembers(rows: seq<Row>, row: Row)
    ensures row in SortNewestFirst(rows) <==> row in rows
  {
    assert row in SortNewestFirst(rows) <==> row in multiset(SortNewestFirst(rows));
  }

  /** `row` is request `i` of the table, resolved. */
  ghost predicate ResolvedFrom(students: map<Id, Student>, requests: seq<Request>, row: Row) {
    exists i :: 0 <= i < |requests| && row == Resolve(students, requests[i])
  }

  /** `row` is a request of the table that the block filter keeps, resolved. */
  ghost predicate ResolvedInBlock(students: map<Id, Student>, requests: seq<Request>, residence: string, block: string, row: Row) {
    exists i :: 0 <= i < |requests| && InBlock(students, requests[i], residence, block) && row == Resolve(students, requests[i])
  }

  lemma ResolveAllMembers(students: map<Id, Student>, requests: seq<Request>, row: Row)
    ensures row in ResolveAll(students, requests) <==> ResolvedFrom(students, requests, row)
  {
    var rows := ResolveAll(students, requests);
    if row in rows {
      var i :| 0 <= i < |rows| && rows[i] == row;
      assert row == Resolve(students, requests[i]);
    }
    if ResolvedFrom(students, requests, row) {
      var i :| 0 <= i < |requests| && row == Resolve(students, requests[i]);
      assert rows[i] == row;
    }
  }

  /** The full list holds every request resolved, and nothing else. */
  lemma ListAllSpec(students: map<Id, Student>, requests: seq<Request>)
    ensures forall row :: row in ListAll(students, requests) <==> ResolvedFrom(students, requests, row)
  {
    var all := ResolveAll(students, requests);
    forall row ensures row in ListAll(students, requests) <==> ResolvedFrom(students, requests, row) {
      SortedMembers(all, row);
      ResolveAllMembers(students, requests, row);
    }
  }

  lemma BlockMember(students: map<Id, Student>, requests: seq<Request>, residence: string, block: string, row: Row)
    ensures row in ListByBlock(students, requests, residence, block) <==> ResolvedInBlock(students, requests, residence, block, row)
  {
    var kept := FilterBlock(students, requests, residence, block);
    SortedMembers(ResolveAll(students, kept), row);
    ResolveAllMembers(students, kept, row);
    if ResolvedFrom(students, kept, row) {
      var k :| 0 <= k < |kept| && row == Resolve(students, kept[k]);
      assert kept[k] in kept;
      var i :| 0 <= i < |requests| && requests[i] == kept[k];
      assert InBlock(students, requests[i], residence, block);
    }
    if ResolvedInBlock(students, requests, residence, block, row) {
      var i :| 0 <= i < |requests| && InBlock(students, requests[i], residence, block) && row == Resolve(students, requests[i]);
      assert requests[i] in kept;
      var k :| 0 <= k < |kept| && kept[k] == requests[i];
      assert ResolvedFrom(students, kept, row);
    }
  }

  /**
   * The block list holds exactly the resolved requests whose live account or
   * whose snapshot is in the given residence and block.
   */
  lemma ListByBlockSpec(students: map<Id, Student>, requests: seq<Request>, residence: string, block: string)
    ensures forall row :: row in ListByBlock(students, requests, residence, block) <==>
      ResolvedInBlock(students, requests, residence, block, row)
  {
    forall row ensures row in ListByBlock(students, requests, residence, block) <==>
      ResolvedInBlock(students, requests, residence, block, row)
    {
      BlockMember(students, requests, residence, block, row);
    }
  }
}
