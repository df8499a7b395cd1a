/** The task collection and the controller's four handlers on it: create,
    list, update by id and delete by id. Storage failures, which the
    handlers catch and report as a system failure, are an input (`fault`):
    when it is set the storage layer throws before changing anything. The
    clock is an input too (`now`, `createdAt`). */
module TaskStore {
  import opened Calendar
  import opened TaskModel
  import opened TaskQuery

  /** No identifier occurs twice. */
  predicate Distinct(ids: seq<Id>)
  {
    forall i, j :: 0 <= i < j < |ids| ==> ids[i] != ids[j]
  }

  /** The documents of `m` in the order `ids` lists their identifiers. */
  function DocsOf(m: map<Id, Task>, ids: seq<Id>): (docs: seq<Task>)
    requires forall id :: id in ids ==> id in m
    ensures |docs| == |ids|
    ensures forall i :: 0 <= i < |ids| ==> docs[i] == m[ids[i]]
  {
    if ids == [] then [] else [m[ids[0]]] + DocsOf(m, ids[1..])
  }

  /** The identifiers among `ids` whose document is in the window and has
      status `st`. */
  ghost function Matching(m: map<Id, Task>, ids: seq<Id>, start: Option<int>, st: Status): set<Id>
    requires forall id :: id in ids ==> id in m
  {
    set id | id in ids && InWindow(m[id], start) && m[id].status == st
  }

  /** Selecting and counting one more document in front adds one exactly
      when that document is in the window and has the status counted. */
  lemma CountSelectCons(t: Task, docs: seq<Task>, start: Option<int>, st: Status)
    ensures CountStatus(Select([t] + docs, start), st)
      == (if InWindow(t, start) && t.status == st then 1 else 0) + CountStatus(Select(docs, start), st)
  {
    assert ([t] + docs)[1..] == docs;
    var sel := Select(docs, start);
    if InWindow(t, start) {
      assert ([t] + sel)[1..] == sel;
    }
  }

  /** One more identifier in front, not among the rest, adds itself to the
      matching identifiers exactly when its document matches. */
  lemma MatchingCons(m: map<Id, Task>, ids: seq<Id>, start: Option<int>, st: Status)
    requires ids != [] && ids[0] !in ids[1..]
    requires forall id :: id in ids ==> id in m
    ensures |Matching(m, ids, start, st)|
      == (if InWindow(m[ids[0]], start) && m[ids[0]].status == st then 1 else 0)
         + |Matching(m, ids[1..], start, st)|
  {
    var a := ids[0];
    var rest := Matching(m, ids[1..], start, st);
    assert forall id :: id in ids <==> id == a || id in ids[1..] by {
      assert ids == [a] + ids[1..];
    }
    assert a !in rest;
    if InWindow(m[a], start) && m[a].status == st {
      assert Matching(m, ids, start, st) == rest + {a};
    } else {
      assert Matching(m, ids, start, st) == rest;
    }
  }

  /** Counting the selected documents of a status, over identifiers that
      occur once each, counts the identifiers whose document is in the
      window and has that status. */
  lemma {:induction false} CountSelectedIds(m: map<Id, Task>, ids: seq<Id>, start: Option<int>, st: Status)
    requires Distinct(ids)
    requires forall id :: id in ids ==> id in m
    ensures CountStatus(Select(DocsOf(m, ids), start), st) == |Matching(m, ids, start, st)|
  {
    if ids == [] {
      assert Matching(m, ids, start, st) == {};
    } else {
      assert Distinct(ids[1..]);
      assert ids[0] !in ids[1..];
      CountSelectedIds(m, ids[1..], start, st);
      CountSelectCons(m[ids[0]], DocsOf(m, ids[1..]), start, st);
      MatchingCons(m, ids, start, st);
    }
  }

  /** Every document in the window is either active or complete. */
  lemma WindowByStatus(m: map<Id, Task>, start: Option<int>)
    ensures |set id | id in m && InWindow(m[id], start)|
      == |set id | id in m && InWindow(m[id], start) && m[id].status == Active|
       + |set id | id in m && InWindow(m[id], start) && m[id].status == Complete|
  {
    var active := set id | id in m && InWindow(m[id], start) && m[id].status == Active;
    var complete := set id | id in m && InWindow(m[id], start) && m[id].status == Complete;
    assert (set id | id in m && InWindow(m[id], start)) == active + complete;
    assert active !! complete;
  }

  /** With a scan order that names each stored document once, the matching
      identifiers of the order are the matching stored documents. */
  lemma MatchingStored(m: map<Id, Task>, ids: seq<Id>, start: Option<int>, st: Status)
    requires forall id :: id in ids <==> id in m
    ensures Matching(m, ids, start, st) == set id | id in m && InWindow(m[id], start) && m[id].status == st
  {
  }

  /** Listing a collection whose scan order names every stored document
      once: the counters count the stored documents in the window by
      status, and the listed tasks are exactly as many as the stored
      documents in the window. */
  lemma StoredListing(m: map<Id, Task>, ids: seq<Id>, start: Option<int>)
    requires Distinct(ids)
    requires forall id :: id in ids <==> id in m
    ensures var r := Aggregate(DocsOf(m, ids), start);
      && r.activeCount == |set id | id in m && InWindow(m[id], start) && m[id].status == Active|
      && r.completeCount == |set id | id in m && InWindow(m[id], start) && m[id].status == Complete|
      && |r.tasks| == |set id | id in m && InWindow(m[id], start)|
  {
    AggregateCounts(DocsOf(m, ids), start);
    CountSelectedIds(m, ids, start, Active);
    CountSelectedIds(m, ids, start, Complete);
    MatchingStored(m, ids, start, Active);
    MatchingStored(m, ids, start, Complete);
    WindowByStatus(m, start);
  }

  /** `ids` without `id`, the others in their order. */
  function Without(ids: seq<Id>, id: Id): (r: seq<Id>)
    ensures forall x :: x in r <==> x in ids && x != id
    ensures Distinct(ids) ==> Distinct(r)
  {
    if ids == [] then []
    else if ids[0] == id then Without(ids[1..], id)
    else
      var rest := Without(ids[1..], id);
      assert Distinct(ids) ==> ids[0] !in ids[1..];
      assert Distinct(ids) ==> Distinct([ids[0]] + rest) by {
        if Distinct(ids) {
          var r := [ids[0]] + rest;
          forall i, j | 0 <= i < j < |r| ensures r[i] != r[j] {
            assert r[j] == rest[j - 1] && r[j] in rest;
            if i > 0 {
              assert r[i] == rest[i - 1];
            }
          }
        }
      }
      [ids[0]] + rest
  }

  /** The task collection: its documents by identifier, the order in which
      a scan of the collection meets them (the order they were inserted in),
      and the next identifier to hand out. */
  class Store {
    var tasks: map<Id, Task>
    var order: seq<Id>
    var nextId: Id

    /** Every stored document is scanned exactly once, carries its own
        identifier, and that identifier has been handed out already. */
    ghost predicate Valid()
      reads this
    {
      && Distinct(order)
      && (forall i :: 0 <= i < |order| ==> order[i] in tasks)
      && (forall id :: id in tasks ==> id in order)
      && (forall id :: id in tasks ==> tasks[id].id == id && id < nextId)
    }

    /** The documents in scan order: what the aggregation pipeline reads. */
    function Documents(): (docs: seq<Task>)
      reads this
      requires Valid()
      ensures |docs| == |order|
      ensures forall t: Task :: t in docs <==> t.id in tasks && tasks[t.id] == t
      ensures forall i, j :: 0 <= i < j < |docs| ==> docs[i] != docs[j]
    {
      var docs := DocsOf(tasks, order);
      assert forall t: Task :: t.id in tasks && tasks[t.id] == t ==> t in docs by {
        forall t: Task | t.id in tasks && tasks[t.id] == t ensures t in docs {
          var i :| 0 <= i < |order| && order[i] == t.id;
          assert docs[i] == t;
        }
      }
      assert forall i :: 0 <= i < |docs| ==> docs[i].id == order[i];
      docs
    }

    /** An empty collection. */
    constructor ()
      ensures Valid()
      ensures tasks == map[] && order == [] && nextId == 0
    {
      tasks := map[];
      order := [];
      nextId := 0;
    }

    /** `getAllTasks`: the `filter` query parameter (missing: "today")
        resolved against `now`, then the aggregation over the collection.
        Nothing is changed. */
    method List(filter: Option<string>, now: Now, fault: bool) returns (r: Outcome<Listing>)
      requires Valid()
      ensures fault ==> r == SystemFailure
      ensures !fault ==> r == Ok(Aggregate(Documents(), WindowStart(filter, now)))
      ensures !fault ==> forall t :: t in r.value.tasks <==>
        t.id in tasks && tasks[t.id] == t && InWindow(t, WindowStart(filter, now))
      ensures !fault ==> var start := WindowStart(filter, now);
        && |r.value.tasks| == |set id | id in tasks && InWindow(tasks[id], start)|
        && r.value.activeCount == |set id | id in tasks && InWindow(tasks[id], start) && tasks[id].status == Active|
        && r.value.completeCount == |set id | id in tasks && InWindow(tasks[id], start) && tasks[id].status == Complete|
    {
      if fault {
        return SystemFailure;
      }
      var start := WindowStart(filter, now);
      AggregateTasks(Documents(), start);
      StoredListing(tasks, order, start);
      r := Ok(Aggregate(Documents(), start));
    }

    /** `createTask`: a new document with the given title, status active, no
        completion time, created at `createdAt`, under a fresh identifier;
        it is returned as stored. */
    method Create(title: string, createdAt: int, fault: bool) returns (r: Outcome<Task>)
      requires Valid()
      modifies this
      ensures Valid()
      ensures fault ==> r == SystemFailure && tasks == old(tasks) && order == old(order) && nextId == old(nextId)
      ensures !fault ==>
        && old(nextId) !in old(tasks)
        && r == Ok(Task(old(nextId), title, Active, createdAt, None))
        && tasks == old(tasks)[old(nextId) := r.value]
        && order == old(order) + [old(nextId)]
        && nextId == old(nextId) + 1
    {
      if fault {
        return SystemFailure;
      }
      var t := Task(nextId, title, Active, createdAt, None);
      tasks := tasks[nextId := t];
      order := order + [nextId];
      nextId := nextId + 1;
      r := Ok(t);
    }

    /** `updateTask`: writes the supplied title, status and completion time
        into the document `id` and returns it as it is after the update; an
        unknown `id` is reported as not found and changes nothing. The
        identifier and `createdAt` are never changed. */
    method Update(id: Id, title: string, status: Status, completedAt: Option<int>, fault: bool)
      returns (r: Outcome<Task>)
      requires Valid()
      modifies this
      ensures Valid()
      ensures order == old(order) && nextId == old(nextId)
      ensures fault ==> r == SystemFailure && tasks == old(tasks)
      ensures !fault && id !in old(tasks) ==> r == NotFound && tasks == old(tasks)
      ensures !fault && id in old(tasks) ==>
        && r == Ok(old(tasks)[id].(title := title, status := status, completedAt := completedAt))
        && tasks == old(tasks)[id := r.value]
    {
      if fault {
        return SystemFailure;
      }
      if id !in tasks {
        return NotFound;
      }
      var t := tasks[id].(title := title, status := status, completedAt := completedAt);
      tasks := tasks[id := t];
      r := Ok(t);
    }

    /** `deleteTask`: removes the document `id` and returns it as it was;
        an unknown `id` is reported as not found and changes nothing. */
    method Delete(id: Id, fault: bool) returns (r: Outcome<Task>)
      requires Valid()
      modifies this
      ensures Valid()
      ensures nextId == old(nextId)
      ensures fault ==> r == SystemFailure && tasks == old(tasks) && order == old(order)
      ensures !fault && id !in old(tasks) ==> r == NotFound && tasks == old(tasks) && order == old(order)
      ensures !fault && id in old(tasks) ==>
        && r == Ok(old(tasks)[id])
        && tasks == old(tasks) - {id}
        && order == Without(old(order), id)
    {
      if fault {
        return SystemFailure;
      }
      if id !in tasks {
        return NotFound;
      }
      r := Ok(tasks[id]);
      tasks := tasks - {id};
      order := Without(order, id);
      forall i | 0 <= i < |order| ensures order[i] in tasks {
        assert order[i] in order;
      }
    }
  }

  /** Deleting the same identifier twice: the second delete always reports
      not found, and the first removed the document if there was one. */
  method DeleteTwice(s: Store, id: Id) returns (first: Outcome<Task>, second: Outcome<Task>)
    requires s.Valid()
    modifies s
    ensures s.Valid()
    ensures first == if id in old(s.tasks) then Ok(old(s.tasks)[id]) else NotFound
    ensures second == NotFound
    ensures s.tasks == old(s.tasks) - {id}
  {
    first := s.Delete(id, false);
    second := s.Delete(id, false);
  }

  /** Creating "X", updating it to "Y", complete, completed at `done`, and
      listing with "all" lists exactly that one task, counted as complete. */
  method CreateUpdateList(createdAt: int, done: int, now: Now) returns (r: Outcome<Listing>)
    ensures r == Ok(Listing([Task(0, "Y", Complete, createdAt, Some(done))], 0, 1))
  {
    var s := new Store();
    var created := s.Create("X", createdAt, false);
    var updated := s.Update(created.value.id, "Y", Complete, Some(done), false);
    assert s.Documents() == [Task(0, "Y", Complete, createdAt, Some(done))];
    OneTaskListing(Task(0, "Y", Complete, createdAt, Some(done)));
    r := s.List(Some("all"), now, false);
  }
}
