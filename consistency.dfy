/**
 * How the pages' lists follow the server. A page loads a list query once
 * and then folds in the events the server emits; these lemmas state when
 * the folded list is the list the query would return now:
 *
 *  - after a created request, prepending the emitted row gives the new
 *    query result, provided the clock did not run backwards (rows of the
 *    same second in the model's tie order);
 *  - after a status update, replacing by id with the emitted row gives the
 *    new query result;
 *  - after a student's deletion, which emits nothing, the cards the pages
 *    show are unchanged and every request stays in its block's list.
 */
module ViewConsistency {
  import opened Wrappers
  import opened Text
  import opened Schema
  import opened Queries
  import opened RequestViews
  import opened Rooms
  import opened Server

  /** Applies `f` to every element. */
  function Map<A, B>(f: A -> B, xs: seq<A>): (r: seq<B>)
    ensures |r| == |xs|
    ensures forall k :: 0 <= k < |xs| ==> r[k] == f(xs[k])
  {
    seq(|xs|, k requires 0 <= k < |xs| => f(xs[k]))
  }

  /** `f` never changes a row's date. */
  ghost predicate KeepsDates(f: Row -> Row) {
    forall x :: f(x).request.dateCreated == x.request.dateCreated
  }

  /** Mapping a list with a given head. */
  lemma MapCons<A, B>(f: A -> B, y: A, rest: seq<A>)
    ensures Map(f, [y] + rest) == [f(y)] + Map(f, rest)
  {
    assert forall k :: 0 < k <= |rest| ==> ([y] + rest)[k] == rest[k - 1];
  }

  /** Inserting by date commutes with a map that keeps dates. */
  lemma {:induction false} InsertMap(f: Row -> Row, x: Row, rows: seq<Row>)
    requires NewestFirst(rows) && KeepsDates(f)
    ensures NewestFirst(Map(f, rows))
    ensures InsertByDate(f(x), Map(f, rows)) == Map(f, InsertByDate(x, rows))
    decreases |rows|
  {
    if rows == [] {
      MapCons(f, x, []);
    } else if x.request.dateCreated > rows[0].request.dateCreated {
      MapCons(f, x, rows);
    } else {
      var t := rows[1..];
      assert rows == [rows[0]] + t;
      InsertMap(f, x, t);
      MapCons(f, rows[0], t);
      MapCons(f, rows[0], InsertByDate(x, t));
    }
  }

  /** `ORDER BY dateCreated DESC` commutes with a map that keeps dates. */
  lemma {:induction false} SortMap(f: Row -> Row, rows: seq<Row>)
    requires KeepsDates(f)
    ensures SortNewestFirst(Map(f, rows)) == Map(f, SortNewestFirst(rows))
    decreases |rows|
  {
    if rows != [] {
      var t := rows[1..];
      assert rows == [rows[0]] + t;
      SortMap(f, t);
      MapCons(f, rows[0], t);
      InsertMap(f, rows[0], SortNewestFirst(t));
    }
  }

  /** Resolving the rows, then appending one, is appending its resolved row. */
  lemma ResolveAllAppend(students: map<Id, Student>, requests: seq<Request>, r: Request)
    ensures ResolveAll(students, requests + [r]) == ResolveAll(students, requests) + [Resolve(students, r)]
  {
    var a := ResolveAll(students, requests + [r]);
    var b := ResolveAll(students, requests) + [Resolve(students, r)];
    forall k | 0 <= k < |a| ensures a[k] == b[k] {
      if k < |requests| {
        assert (requests + [r])[k] == requests[k];
      }
    }
  }

  /** No row of `rows` is newer than `y`. */
  predicate NoneNewer(rows: seq<Row>, y: Row) {
    forall k :: 0 <= k < |rows| ==> rows[k].request.dateCreated <= y.request.dateCreated
  }

  /** A row at least as new as every other one sorts first, ahead of rows of the same date. */
  lemma {:induction false} SortAppendNewest(rows: seq<Row>, y: Row)
    requires NoneNewer(rows, y)
    ensures SortNewestFirst(rows + [y]) == [y] + SortNewestFirst(rows)
    decreases |rows|
  {
    if rows == [] {
      assert rows + [y] == [y] && [y][1..] == [];
    } else {
      var t := rows[1..];
      assert (rows + [y])[0] == rows[0] && (rows + [y])[1..] == t + [y];
      assert NoneNewer(t, y) by {
        forall k | 0 <= k < |t| ensures t[k].request.dateCreated <= y.request.dateCreated {
          assert t[k] == rows[k + 1];
        }
      }
      SortAppendNewest(t, y);
      var st := SortNewestFirst(t);
      assert NewestFirst([y] + st);
      assert ([y] + st)[0] == y && ([y] + st)[1..] == st;
    }
  }

  /** The block filter on a table with a given first request. */
  lemma FilterCons(students: map<Id, Student>, hd: Request, tl: seq<Request>, residence: string, block: string)
    ensures FilterBlock(students, [hd] + tl, residence, block) ==
      (if InBlock(students, hd, residence, block) then [hd] else []) + FilterBlock(students, tl, residence, block)
  {
    assert ([hd] + tl)[0] == hd && ([hd] + tl)[1..] == tl;
  }

  /** The block filter keeps an appended request exactly when it is in the block. */
  lemma {:induction false} FilterAppend(students: map<Id, Student>, requests: seq<Request>, r: Request,
                                        residence: string, block: string)
    ensures FilterBlock(students, requests + [r], residence, block) ==
      FilterBlock(students, requests, residence, block) + (if InBlock(students, r, residence, block) then [r] else [])
    decreases |requests|
  {
    if requests == [] {
      assert requests + [r] == [r] + [];
      FilterCons(students, r, [], residence, block);
    } else {
      var hd, tl := requests[0], requests[1..];
      assert requests == [hd] + tl;
      assert requests + [r] == [hd] + (tl + [r]);
      FilterCons(students, hd, tl + [r], residence, block);
      FilterCons(students, hd, tl, residence, block);
      FilterAppend(students, tl, r, residence, block);
      var front := if InBlock(students, hd, residence, block) then [hd] else [];
      var last := if InBlock(students, r, residence, block) then [r] else [];
      assert front + (FilterBlock(students, tl, residence, block) + last) == (front + FilterBlock(students, tl, residence, block)) + last;
    }
  }

  /**
   * The block filter commutes with a change of every request that does not
   * move any request in or out of the block.
   */
  lemma {:induction false} FilterMap(before: map<Id, Student>, after: map<Id, Student>, requests: seq<Request>,
                                     h: Request -> Request, residence: string, block: string)
    requires forall r :: r in requests ==> InBlock(after, h(r), residence, block) == InBlock(before, r, residence, block)
    ensures FilterBlock(after, Map(h, requests), residence, block) ==
      Map(h, FilterBlock(before, requests, residence, block))
    decreases |requests|
  {
    if requests != [] {
      var hd, tl := requests[0], requests[1..];
      assert requests == [hd] + tl;
      assert hd in requests;
      assert forall r :: r in tl ==> r in requests;
      MapCons(h, hd, tl);
      FilterMap(before, after, tl, h, residence, block);
      var rest := FilterBlock(before, tl, residence, block);
      var keep := InBlock(before, hd, residence, block);
      assert InBlock(after, h(hd), residence, block) == keep;
      if keep {
        MapCons(h, hd, rest);
      }
    }
  }

  /**
   * After create-request, with a clock that does not run backwards,
   * prepending the row the server emits to the administrators gives the
   * administrators' list as the query now returns it. A request of the same
   * second as earlier ones is first by the tie order of `SortNewestFirst`.
   */
  lemma CreateKeepsAdminView(students: map<Id, Student>, requests: seq<Request>, id: Id, sid: Id,
                             subject: string, description: string, now: Timestamp)
    requires sid in students
    requires forall i :: 0 <= i < |requests| ==> requests[i].dateCreated <= now
    ensures var s := students[sid];
            var req := NewRequest(id, sid, s, subject, description, now);
            ListAll(students, requests + [req]) == OnNewRequest(ListAll(students, requests), Row(req, s.fullName, s.residence, s.block))
  {
    var s := students[sid];
    var req := NewRequest(id, sid, s, subject, description, now);
    var y := Resolve(students, req);
    assert y == Row(req, s.fullName, s.residence, s.block);
    var rows := ResolveAll(students, requests);
    ResolveAllAppend(students, requests, req);
    assert NoneNewer(rows, y) by {
      forall k | 0 <= k < |rows| ensures rows[k].request.dateCreated <= now {
        assert rows[k].request == requests[k];
      }
    }
    SortAppendNewest(rows, y);
  }

  /**
   * The same for the author's block list: the page of the author's
   * residence and block, prepending the row emitted to its room, shows the
   * list the block query now returns.
   */
  lemma CreateKeepsBlockView(students: map<Id, Student>, requests: seq<Request>, id: Id, sid: Id,
                             subject: string, description: string, now: Timestamp)
    requires sid in students
    requires forall i :: 0 <= i < |requests| ==> requests[i].dateCreated <= now
    ensures var s := students[sid];
            var req := NewRequest(id, sid, s, subject, description, now);
            ListByBlock(students, requests + [req], s.residence, s.block) ==
              OnNewRequest(ListByBlock(students, requests, s.residence, s.block), Row(req, s.fullName, s.residence, s.block))
  {
    var s := students[sid];
    var req := NewRequest(id, sid, s, subject, description, now);
    assert InBlock(students, req, s.residence, s.block);
    assert Resolve(students, req) == Row(req, s.fullName, s.residence, s.block);
    FilterAppend(students, requests, req, s.residence, s.block);
    var kept := FilterBlock(students, requests, s.residence, s.block);
    ResolveAllAppend(students, kept, req);
    forall k | 0 <= k < |kept| ensures kept[k].dateCreated <= now {
      assert kept[k] in kept;
    }
    SortAppendNewest(ResolveAll(students, kept), Resolve(students, req));
  }

  /** The replace-by-id reducer, one row at a time. */
  function Replace(u: Row): Row -> Row {
    (x: Row) => if x.request.id == u.request.id then u else x
  }

  /** The same, except that the row keeps its date. */
  function ReplaceKeepingDate(u: Row): Row -> Row {
    (x: Row) => if x.request.id == u.request.id then u.(request := u.request.(dateCreated := x.request.dateCreated)) else x
  }

  /** When every row with the update's id has the update's date, replacing by id is a map that keeps dates. */
  lemma UpdateIsMap(rows: seq<Row>, u: Row)
    requires forall x :: x in rows && x.request.id == u.request.id ==> x.request.dateCreated == u.request.dateCreated
    ensures OnRequestUpdated(rows, u) == Map(ReplaceKeepingDate(u), rows)
    ensures KeepsDates(ReplaceKeepingDate(u))
  {
    forall k | 0 <= k < |rows| ensures OnRequestUpdated(rows, u)[k] == ReplaceKeepingDate(u)(rows[k]) {
      assert rows[k] in rows;
    }
  }

  /** The status UPDATE, one request at a time. */
  function SetStatusOf(id: Id, status: string): Request -> Request {
    (r: Request) => if r.id == id then r.(status := status) else r
  }

  lemma SetStatusIsMap(requests: seq<Request>, id: Id, status: string)
    ensures SetStatus(requests, id, status) == Map(SetStatusOf(id, status), requests)
  {
  }

  /**
   * Resolving after the UPDATE is replacing by id with `u` in the resolved
   * list, when `u` is what every updated request resolves to.
   */
  lemma ResolveSetStatus(students: map<Id, Student>, requests: seq<Request>, id: Id, status: string, u: Row)
    requires u.request.id == id
    requires forall r :: r in requests && r.id == id ==> Resolve(students, r.(status := status)) == u
    ensures ResolveAll(students, SetStatus(requests, id, status)) == OnRequestUpdated(ResolveAll(students, requests), u)
  {
    var a := ResolveAll(students, SetStatus(requests, id, status));
    var b := OnRequestUpdated(ResolveAll(students, requests), u);
    forall k | 0 <= k < |requests| ensures a[k] == b[k] {
      assert requests[k] in requests;
    }
  }

  /**
   * After update-status, replacing by id with the row the server emits to
   * the administrators gives the administrators' list as the query now
   * returns it.
   */
  lemma UpdateKeepsAdminView(students: map<Id, Student>, requests: seq<Request>, k: nat, status: string)
    requires IdsIncreasing(requests) && k < |requests|
    ensures var after := SetStatus(requests, requests[k].id, status);
            ListAll(students, after) == OnRequestUpdated(ListAll(students, requests), Resolve(students, after[k]))
  {
    var id := requests[k].id;
    var after := SetStatus(requests, id, status);
    var u := Resolve(students, after[k]);
    forall r | r in requests && r.id == id ensures r == requests[k] {
      var i :| 0 <= i < |requests| && requests[i] == r;
      assert i == k by {
        if i < k { } else if i > k { }
      }
    }
    ResolveSetStatus(students, requests, id, status, u);
    var rows := ResolveAll(students, requests);
    forall x | x in rows && x.request.id == u.request.id ensures x.request.dateCreated == u.request.dateCreated {
      var i :| 0 <= i < |rows| && rows[i] == x;
      assert requests[i] in requests;
    }
    SortUpdate(rows, u);
  }

  /** The status UPDATE moves no request into or out of a block. */
  lemma FilterSetStatus(students: map<Id, Student>, requests: seq<Request>, id: Id, status: string,
                        residence: string, block: string)
    ensures FilterBlock(students, SetStatus(requests, id, status), residence, block) ==
      SetStatus(FilterBlock(students, requests, residence, block), id, status)
  {
    SetStatusIsMap(requests, id, status);
    SetStatusIsMap(FilterBlock(students, requests, residence, block), id, status);
    FilterMap(students, students, requests, SetStatusOf(id, status), residence, block);
  }

  /**
   * The same for every block list: replacing by id with the emitted row
   * gives the list the block query now returns. A list that does not hold
   * the request is left alone by the replacement. This is about the list
   * a page would hold had it received the event; which pages receive it is
   * a matter of rooms, see `BlockListWiderThanRoom`.
   */
  lemma UpdateKeepsBlockView(students: map<Id, Student>, requests: seq<Request>, k: nat, status: string,
                             residence: string, block: string)
    requires IdsIncreasing(requests) && k < |requests|
    ensures var after := SetStatus(requests, requests[k].id, status);
            ListByBlock(students, after, residence, block) ==
              OnRequestUpdated(ListByBlock(students, requests, residence, block), Resolve(students, after[k]))
  {
    var id := requests[k].id;
    var after := SetStatus(requests, id, status);
    var u := Resolve(students, after[k]);
    var kept := FilterBlock(students, requests, residence, block);
    FilterSetStatus(students, requests, id, status, residence, block);
    forall r | r in kept && r.id == id ensures r == requests[k] {
      var i :| 0 <= i < |requests| && requests[i] == r;
      assert i == k by {
        if i < k { } else if i > k { }
      }
    }
    ResolveSetStatus(students, kept, id, status, u);
    var rows := ResolveAll(students, kept);
    forall x | x in rows && x.request.id == u.request.id ensures x.request.dateCreated == u.request.dateCreated {
      var i :| 0 <= i < |rows| && rows[i] == x;
      assert kept[i] in kept;
    }
    SortUpdate(rows, u);
  }

  /** Ordering commutes with replacing by id, when the replacement keeps the date of the rows it replaces. */
  lemma SortUpdate(rows: seq<Row>, u: Row)
    requires forall x :: x in rows && x.request.id == u.request.id ==> x.request.dateCreated == u.request.dateCreated
    ensures SortNewestFirst(OnRequestUpdated(rows, u)) == OnRequestUpdated(SortNewestFirst(rows), u)
  {
    UpdateIsMap(rows, u);
    SortMap(ReplaceKeepingDate(u), rows);
    forall x | x in SortNewestFirst(rows) ensures x in rows {
      SortedMembers(rows, x);
    }
    UpdateIsMap(SortNewestFirst(rows), u);
  }

  /**
   * The block query compares under the collation, the room name does not:
   * the page of block "a" lists a request filed from block "A", but the
   * events about that request go to the room of block "A", which the page
   * never joined, so the page does not see it change.
   */
  lemma BlockListWiderThanRoom()
    ensures var req := Request(1, None, "Leak", "Tap drips", Pending, 0, "Thabo", "Malema", "A");
            && InBlock(map[], req, "Malema", "a")
            && Resolve(map[], req).block == "A"
            && StudentRoom("Malema", "A") != StudentRoom("Malema", "a")
  {
    assert Lower("A") == Lower("a") by {
      assert Lower("A")[0] == 'a' && Lower("a")[0] == 'a';
    }
    assert Lower("Malema") == Lower("Malema");
    assert StudentRoom("Malema", "A")[23] == 'A' != 'a' == StudentRoom("Malema", "a")[23] by {
      assert StudentRoom("Malema", "A")[23..] == "A";
      assert StudentRoom("Malema", "a")[23..] == "a";
    }
  }

  /**
   * What a request card shows: the request's columns and the resolved name,
   * residence and block, without the author link and the snapshot columns,
   * which no page displays.
   */
  function Card(x: Row): Row {
    x.(request := x.request.(studentId := None, studentName := "", studentResidence := "", studentBlock := ""))
  }

  /** The deletion, one request at a time. */
  function DeleteRowOf(sid: Id, s: Student): Request -> Request {
    (r: Request) => if r.studentId == Some(sid) then
           r.(studentId := None, studentName := s.fullName, studentResidence := s.residence, studentBlock := s.block)
         else r
  }

  lemma DeleteRowsIsMap(requests: seq<Request>, sid: Id, s: Student)
    ensures DeleteRows(requests, sid, s) == Map(DeleteRowOf(sid, s), requests)
  {
  }

  /**
   * With current snapshots, a request resolves after the deletion to the
   * card it resolved to before, and stays in exactly the blocks it was in.
   */
  lemma DeletedRowResolvesAlike(students: map<Id, Student>, sid: Id, r: Request, residence: string, block: string)
    requires sid in students
    requires r.studentId.Some? ==> && r.studentId.value in students
                                   && r.studentName == students[r.studentId.value].fullName
                                   && r.studentResidence == students[r.studentId.value].residence
                                   && r.studentBlock == students[r.studentId.value].block
    ensures Card(Resolve(students - {sid}, DeleteRowOf(sid, students[sid])(r))) == Card(Resolve(students, r))
    ensures InBlock(students - {sid}, DeleteRowOf(sid, students[sid])(r), residence, block) == InBlock(students, r, residence, block)
  {
  }

  /**
   * A student's deletion changes no card of the administrators' list and
   * no card of any block list, and a deleted student's requests stay in
   * the block lists they were in, where they keep their place.
   */
  lemma DeletionKeepsCards(students: map<Id, Student>, requests: seq<Request>, sid: Id, residence: string, block: string)
    requires sid in students && SnapshotsCurrent(students, requests)
    ensures var after := DeleteRows(requests, sid, students[sid]);
            Map(Card, ListAll(students - {sid}, after)) == Map(Card, ListAll(students, requests))
    ensures var after := DeleteRows(requests, sid, students[sid]);
            Map(Card, ListByBlock(students - {sid}, after, residence, block)) ==
              Map(Card, ListByBlock(students, requests, residence, block))
  {
    var st := students - {sid};
    var h := DeleteRowOf(sid, students[sid]);
    DeleteRowsIsMap(requests, sid, students[sid]);
    forall r | r in requests
      ensures Card(Resolve(st, h(r))) == Card(Resolve(students, r))
      ensures InBlock(st, h(r), residence, block) == InBlock(students, r, residence, block)
    {
      var i :| 0 <= i < |requests| && requests[i] == r;
      DeletedRowResolvesAlike(students, sid, r, residence, block);
    }
    CardsOfMapped(students, st, requests, h);
    FilterMap(students, st, requests, h, residence, block);
    var kept := FilterBlock(students, requests, residence, block);
    CardsOfMapped(students, st, kept, h);
  }

  /**
   * When `h` changes no request's card, the sorted lists of the table
   * before and after `h` show the same cards.
   */
  lemma CardsOfMapped(before: map<Id, Student>, after: map<Id, Student>, requests: seq<Request>, h: Request -> Request)
    requires forall r :: r in requests ==> Card(Resolve(after, h(r))) == Card(Resolve(before, r))
    ensures Map(Card, SortNewestFirst(ResolveAll(after, Map(h, requests)))) ==
            Map(Card, SortNewestFirst(ResolveAll(before, requests)))
  {
    var a := ResolveAll(after, Map(h, requests));
    var b := ResolveAll(before, requests);
    assert Map(Card, a) == Map(Card, b) by {
      forall k | 0 <= k < |requests| ensures Card(a[k]) == Card(b[k]) {
        assert requests[k] in requests;
      }
    }
    SortMap(Card, a);
    SortMap(Card, b);
  }
}
