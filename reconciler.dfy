/** The many-to-many association tables TeacherSubject (teacher_id, subject_id,
    teaching_hours) and StudentGroupSubject (student_group_id, subject_id,
    study_hours).  Both have the composite primary key (owner, subject), a
    non-negative hours column and foreign keys with ON DELETE CASCADE, so one
    generic table serves both.

    The seven `_update_teacher_subjects` / `_update_student_group_subjects`
    copies share one algorithm: on create, insert one row per requested
    subject; on update, diff the requested subject->hours map against the
    owner's current one and issue a guarded DELETE, a CASE UPDATE and an
    INSERT.  The pure part (request map, diff, plan of statements, effect of
    each statement) is a set of functions; `AssociationTable` applies it. */
module Reconciler {
  import opened Errors

  /** One requested subject: TeacherSubjectRequest / StudentGroupSubjectRequest
      (`id` plus teaching_hours or study_hours, which the schemas bound by >= 0). */
  datatype SubjectHours = SubjectHours(id: int, hours: nat)

  function Ids(items: seq<SubjectHours>): set<int>
  {
    set it | it in items :: it.id
  }

  predicate DistinctIds(items: seq<SubjectHours>)
  {
    forall i, j :: 0 <= i < j < |items| ==> items[i].id != items[j].id
  }

  /** `{subj.id: subj.hours for subj in request_data.subjects}`: built left to
      right, so a repeated id keeps the hours of its last occurrence. */
  function RequestMap(items: seq<SubjectHours>): (m: map<int, nat>)
    ensures m.Keys == Ids(items)
  {
    if items == [] then map[]
    else
      var last := items[|items| - 1];
      assert items == items[..|items| - 1] + [last];
      RequestMap(items[..|items| - 1])[last.id := last.hours]
  }

  /** The dict keeps the hours of the last item carrying an id. */
  lemma {:induction false} RequestMapLastWins(items: seq<SubjectHours>, j: int)
    requires 0 <= j < |items|
    requires forall k :: j < k < |items| ==> items[k].id != items[j].id
    ensures RequestMap(items)[items[j].id] == items[j].hours
    decreases |items|
  {
    if j < |items| - 1 {
      var prefix := items[..|items| - 1];
      RequestMapLastWins(prefix, j);
    }
  }

  /** With distinct ids every item's hours survive, and the map has one entry per item. */
  lemma RequestMapDistinct(items: seq<SubjectHours>)
    requires DistinctIds(items)
    ensures forall i :: 0 <= i < |items| ==> RequestMap(items)[items[i].id] == items[i].hours
    ensures |RequestMap(items)| == |items|
  {
    forall i | 0 <= i < |items|
      ensures RequestMap(items)[items[i].id] == items[i].hours
    {
      RequestMapLastWins(items, i);
    }
    DistinctIdsCount(items);
  }

  lemma {:induction false} DistinctIdsCount(items: seq<SubjectHours>)
    requires DistinctIds(items)
    ensures |Ids(items)| == |items|
    decreases |items|
  {
    if items != [] {
      var prefix := items[..|items| - 1];
      var last := items[|items| - 1];
      assert items == prefix + [last];
      assert Ids(items) == Ids(prefix) + {last.id};
      assert last.id !in Ids(prefix);
      DistinctIdsCount(prefix);
    }
  }

  /** A repeated id: the request map loses the earlier occurrence's hours, which is
      why the validators reject repeated ids before the reconciler runs. */
  lemma RequestMapDropsEarlierDuplicate()
    ensures RequestMap([SubjectHours(7, 2), SubjectHours(7, 5)]) == map[7 := 5]
  {
    assert [SubjectHours(7, 2), SubjectHours(7, 5)][..1] == [SubjectHours(7, 2)];
    assert [SubjectHours(7, 2)][..0] == [];
  }

  /** What the create branch's flush accepts for an owner without rows: no repeated
      subject (the composite primary key) and only existing subjects (the foreign key). */
  /** Overlaying a map with disjoint keys adds its entries and keeps the others. */
  lemma DisjointOverlay(a: map<int, nat>, b: map<int, nat>)
    requires a.Keys !! b.Keys
    ensures |a + b| == |a| + |b|
    ensures forall s :: s in a ==> (a + b)[s] == a[s]
  {
    assert (a + b).Keys == a.Keys + b.Keys;
    assert a.Keys * b.Keys == {};
    assert |(a + b).Keys| == |a.Keys| + |b.Keys|;
  }

  predicate Insertable(items: seq<SubjectHours>, subjects: set<int>)
  {
    DistinctIds(items) && Ids(items) <= subjects
  }

  /** The three id sets of the update branch. */
  datatype Diff = Diff(toRemove: set<int>, toAdd: set<int>, toUpdate: set<int>)
  {
    predicate IsEmpty()
    {
      toRemove == {} && toAdd == {} && toUpdate == {}
    }
  }

  /** `existing.keys() - request.keys()`, `request.keys() - existing.keys()` and the
      shared ids whose hours differ. */
  function ComputeDiff(existing: map<int, nat>, request: map<int, nat>): Diff
  {
    Diff(existing.Keys - request.Keys,
         request.Keys - existing.Keys,
         set id | id in request.Keys * existing.Keys && request[id] != existing[id])
  }

  /** The three sets are pairwise disjoint, and together they are exactly the ids
      whose row must change. */
  lemma DiffPartition(existing: map<int, nat>, request: map<int, nat>)
    ensures var d := ComputeDiff(existing, request);
      && d.toRemove !! d.toAdd && d.toRemove !! d.toUpdate && d.toAdd !! d.toUpdate
      && d.toRemove <= existing.Keys && d.toAdd <= request.Keys
      && d.toAdd !! existing.Keys && d.toRemove !! request.Keys
      && d.toUpdate <= existing.Keys * request.Keys
      && forall id :: id in d.toRemove + d.toAdd + d.toUpdate <==>
        (id in existing || id in request) && !(id in existing && id in request && existing[id] == request[id])
  {
  }

  /** The diff is empty exactly when the owner already has the requested map. */
  lemma DiffEmptyIff(existing: map<int, nat>, request: map<int, nat>)
    ensures ComputeDiff(existing, request).IsEmpty() <==> existing == request
  {
    var d := ComputeDiff(existing, request);
    if d.IsEmpty() {
      assert existing.Keys == request.Keys;
      forall id | id in existing
        ensures existing[id] == request[id]
      {
        assert id !in d.toUpdate;
      }
    }
  }

  /** The worked example of the reconciliation: current {1: 20, 2: 10} and request
      [(2, 15), (3, 5)] remove 1, update 2 and add 3. */
  lemma DiffExample()
    ensures ComputeDiff(map[1 := 20, 2 := 10], map[2 := 15, 3 := 5]) == Diff({1}, {3}, {2})
  {
    var d := ComputeDiff(map[1 := 20, 2 := 10], map[2 := 15, 3 := 5]);
    assert 2 in d.toUpdate;
    assert d.toUpdate == {2};
  }

  /** `map` restricted to `keys`: the `{id: request[id] for id in ids}` of the source,
      whose effect on the table CaseUpdateRows and PlanReachesRequest state. */
  function Restrict(m: map<int, nat>, keys: set<int>): (r: map<int, nat>)
    ensures r.Keys == m.Keys * keys
    ensures forall k :: k in r ==> r[k] == m[k]
  {
    map k | k in m && k in keys :: m[k]
  }

  /** A SQL statement the update branch issues against the owner's rows. */
  datatype Statement =
    /** DELETE WHERE owner_id = owner AND subject_id IN subjects */
    | Delete(subjects: set<int>)
    /** UPDATE SET hours = CASE subject_id = id THEN branches[id] ... ELSE hours END
        WHERE owner_id = owner AND subject_id IN subjects */
    | Update(subjects: set<int>, branches: map<int, nat>)
    /** INSERT VALUES (owner, id, values[id]) for each id */
    | Insert(values: map<int, nat>)

  /** The guard in front of each statement: `if subjects_to_remove:` and so on. */
  predicate Issued(s: Statement)
  {
    match s
    case Delete(subjects) => subjects != {}
    case Update(subjects, _) => subjects != {}
    case Insert(values) => values.Keys != {}
  }

  /** `if <set>: session.execute(stmt)`: the statement when its guard holds, else nothing. */
  function IfIssued(s: Statement): seq<Statement>
  {
    if Issued(s) then [s] else []
  }

  /** Delete, then CASE update, then insert, each only when its set is non-empty. */
  function Plan(existing: map<int, nat>, request: map<int, nat>): seq<Statement>
  {
    var d := ComputeDiff(existing, request);
    IfIssued(Delete(d.toRemove)) + IfIssued(Update(d.toUpdate, Restrict(request, d.toUpdate)))
      + IfIssued(Insert(Restrict(request, d.toAdd)))
  }

  /** An unchanged request issues no statement, and a changed one issues at least one. */
  lemma PlanEmptyIff(existing: map<int, nat>, request: map<int, nat>)
    ensures Plan(existing, request) == [] <==> existing == request
  {
    var d := ComputeDiff(existing, request);
    DiffEmptyIff(existing, request);
    assert Restrict(request, d.toAdd).Keys == d.toAdd;
  }

  /** The CASE expression: the branch for `subject` when there is one, else `else_ = hours`. */
  function CaseHours(branches: map<int, nat>, subject: int, current: nat): nat
  {
    if subject in branches then branches[subject] else current
  }

  /** What a statement does to the owner's subject->hours map. */
  function Effect(m: map<int, nat>, s: Statement): map<int, nat>
  {
    match s
    case Delete(subjects) => m - subjects
    case Update(subjects, branches) =>
      map k | k in m :: if k in subjects then CaseHours(branches, k, m[k]) else m[k]
    case Insert(values) => m + values
  }

  function EffectAll(m: map<int, nat>, p: seq<Statement>): map<int, nat>
    decreases |p|
  {
    if p == [] then m else EffectAll(Effect(m, p[0]), p[1..])
  }

  lemma {:induction false} EffectAllAppend(m: map<int, nat>, p: seq<Statement>, q: seq<Statement>)
    ensures EffectAll(m, p + q) == EffectAll(EffectAll(m, p), q)
    decreases |p|
  {
    if p == [] {
      assert p + q == q;
    } else {
      assert (p + q)[1..] == p[1..] + q;
      EffectAllAppend(Effect(m, p[0]), p[1..], q);
    }
  }

  /** A statement its guard would skip changes nothing, so the guard never alters the outcome. */
  lemma IfIssuedEffect(m: map<int, nat>, s: Statement)
    ensures EffectAll(m, IfIssued(s)) == Effect(m, s)
  {
    if Issued(s) {
      assert [s][1..] == [];
    } else if s.Update? {
      assert Effect(m, s) == m;
    }
  }

  /** Round trip: running the plan on the current map yields exactly the request. */
  lemma PlanReachesRequest(existing: map<int, nat>, request: map<int, nat>)
    ensures EffectAll(existing, Plan(existing, request)) == request
  {
    var d := ComputeDiff(existing, request);
    var a, b, c := Delete(d.toRemove), Update(d.toUpdate, Restrict(request, d.toUpdate)), Insert(Restrict(request, d.toAdd));
    EffectAllAppend(existing, IfIssued(a) + IfIssued(b), IfIssued(c));
    EffectAllAppend(existing, IfIssued(a), IfIssued(b));
    var m1 := Effect(existing, a);
    var m2 := Effect(m1, b);
    IfIssuedEffect(existing, a);
    IfIssuedEffect(m1, b);
    IfIssuedEffect(m2, c);
    DeleteThenUpdate(existing, request);
    assert Effect(m2, c) == request;
  }

  /** After the DELETE and the CASE UPDATE, the owner holds the requested hours of
      exactly the subjects it already had. */
  lemma DeleteThenUpdate(existing: map<int, nat>, request: map<int, nat>)
    ensures var d := ComputeDiff(existing, request);
      Effect(Effect(existing, Delete(d.toRemove)), Update(d.toUpdate, Restrict(request, d.toUpdate)))
        == Restrict(request, existing.Keys)
  {
    var d := ComputeDiff(existing, request);
    var m1 := Effect(existing, Delete(d.toRemove));
    var m2 := Effect(m1, Update(d.toUpdate, Restrict(request, d.toUpdate)));
    assert m1.Keys == existing.Keys * request.Keys;
    forall k | k in m2
      ensures m2[k] == request[k]
    {
      if k !in d.toUpdate {
        assert existing[k] == request[k];
      }
    }
  }

  /** The table, grouped by owner: owner id -> (subject id -> hours).  A row
      (owner, subject, hours) is present exactly when `subject in rows[owner]`;
      the composite primary key makes the hours a function of the pair.  An owner
      without rows may be absent or map to the empty map. */
  type Table = map<int, map<int, nat>>

  /** The owner's subject->hours map, as loaded through `teacher.subjects`. */
  function OwnerHours(rows: Table, owner: int): map<int, nat>
  {
    if owner in rows then rows[owner] else map[]
  }

  /** Rows of every other owner are the same in `a` and `b`. */
  ghost predicate SameOtherOwners(a: Table, b: Table, owner: int)
  {
    forall o :: o != owner ==> OwnerHours(b, o) == OwnerHours(a, o)
  }

  /** Rows of every owner outside `lo .. hi - 1` are the same in `a` and `b`. */
  ghost predicate SameOutside(a: Table, b: Table, lo: int, hi: int)
  {
    forall o :: !(lo <= o < hi) ==> OwnerHours(b, o) == OwnerHours(a, o)
  }

  /** A statement executed on the table; its WHERE clause (for INSERT, its
      VALUES) names the owner, so only the owner's rows change. */
  function Execute(rows: Table, owner: int, s: Statement): Table
  {
    rows[owner := Effect(OwnerHours(rows, owner), s)]
  }

  function ExecuteAll(rows: Table, owner: int, p: seq<Statement>): Table
    decreases |p|
  {
    if p == [] then rows else ExecuteAll(Execute(rows, owner, p[0]), owner, p[1..])
  }

  /** A run of statements changes the owner's map as `EffectAll` says, leaves every
      other owner alone and introduces no other owner. */
  lemma {:induction false} ExecuteAllProjects(rows: Table, owner: int, p: seq<Statement>)
    ensures OwnerHours(ExecuteAll(rows, owner, p), owner) == EffectAll(OwnerHours(rows, owner), p)
    ensures SameOtherOwners(rows, ExecuteAll(rows, owner, p), owner)
    ensures ExecuteAll(rows, owner, p).Keys <= rows.Keys + {owner}
    decreases |p|
  {
    if p != [] {
      ExecuteAllProjects(Execute(rows, owner, p[0]), owner, p[1..]);
    }
  }

  lemma {:induction false} ExecuteAllSnoc(rows: Table, owner: int, p: seq<Statement>, s: Statement)
    ensures ExecuteAll(rows, owner, p + [s]) == Execute(ExecuteAll(rows, owner, p), owner, s)
    decreases |p|
  {
    if p == [] {
      assert [s][1..] == [];
    } else {
      assert (p + [s])[1..] == p[1..] + [s];
      ExecuteAllSnoc(Execute(rows, owner, p[0]), owner, p[1..], s);
    }
  }

  /** The update branch on the whole table: the owner ends with exactly the request,
      every other owner's rows are unchanged, and an unchanged request issues no
      statement and so changes nothing. */
  lemma ReconcileCorrect(rows: Table, owner: int, request: map<int, nat>)
    ensures OwnerHours(ExecuteAll(rows, owner, Plan(OwnerHours(rows, owner), request)), owner) == request
    ensures SameOtherOwners(rows, ExecuteAll(rows, owner, Plan(OwnerHours(rows, owner), request)), owner)
    ensures ExecuteAll(rows, owner, Plan(OwnerHours(rows, owner), request)).Keys <= rows.Keys + {owner}
    ensures OwnerHours(rows, owner) == request ==> ExecuteAll(rows, owner, Plan(OwnerHours(rows, owner), request)) == rows
  {
    var p := Plan(OwnerHours(rows, owner), request);
    ExecuteAllProjects(rows, owner, p);
    PlanReachesRequest(OwnerHours(rows, owner), request);
    PlanEmptyIff(OwnerHours(rows, owner), request);
  }

  lemma ReconcileOutcome(before: Table, after: Table, owner: int, request: map<int, nat>, issued: seq<Statement>)
    requires issued == Plan(OwnerHours(before, owner), request)
    requires after == ExecuteAll(before, owner, issued)
    ensures OwnerHours(after, owner) == request
    ensures SameOtherOwners(before, after, owner)
    ensures after.Keys <= before.Keys + {owner}
    ensures issued == [] <==> OwnerHours(before, owner) == request
  {
    ReconcileCorrect(before, owner, request);
    PlanEmptyIff(OwnerHours(before, owner), request);
  }

  /** Within the update branch the CASE gives every row in `to_update` its requested
      hours; every other row of the owner is left as it was by `else_`. */
  lemma CaseUpdateRows(m: map<int, nat>, subjects: set<int>, branches: map<int, nat>)
    ensures Effect(m, Update(subjects, branches)).Keys == m.Keys
    ensures forall k :: k in m && k in subjects && k in branches ==>
      Effect(m, Update(subjects, branches))[k] == branches[k]
    ensures forall k :: k in m && !(k in subjects && k in branches) ==>
      Effect(m, Update(subjects, branches))[k] == m[k]
  {
  }

  /** Extending the request prefix by one item extends its map by that item. */
  lemma RequestMapSnoc(items: seq<SubjectHours>, i: int)
    requires 0 <= i < |items|
    ensures RequestMap(items[..i + 1]) == RequestMap(items[..i])[items[i].id := items[i].hours]
  {
    assert items[..i + 1][..i] == items[..i];
  }

  /** Adding one entry after a merge is the merge with the entry added. */
  lemma MergeStep(m: map<int, nat>, r: map<int, nat>, id: int, hours: nat)
    ensures (m + r)[id := hours] == m + r[id := hours]
  {
  }

  /** The table after `create_many` has given batch `k` to the fresh owner `first + k`. */
  function InsertedBatches(rows: Table, first: int, batches: seq<seq<SubjectHours>>): Table
    decreases |batches|
  {
    if batches == [] then rows
    else InsertedBatches(rows, first, batches[..|batches| - 1])[first + |batches| - 1 := RequestMap(batches[|batches| - 1])]
  }

  /** Each fresh owner holds exactly its batch, every other owner keeps its rows, and
      no owner outside the batch range appears. */
  lemma {:induction false} InsertedBatchesSpec(rows: Table, first: int, batches: seq<seq<SubjectHours>>)
    ensures forall k :: 0 <= k < |batches| ==> OwnerHours(InsertedBatches(rows, first, batches), first + k) == RequestMap(batches[k])
    ensures forall o :: !(first <= o < first + |batches|) ==>
      OwnerHours(InsertedBatches(rows, first, batches), o) == OwnerHours(rows, o)
    ensures forall o :: o in InsertedBatches(rows, first, batches) <==> o in rows || first <= o < first + |batches|
    decreases |batches|
  {
    if batches != [] {
      var prefix := batches[..|batches| - 1];
      InsertedBatchesSpec(rows, first, prefix);
      assert forall k :: 0 <= k < |prefix| ==> prefix[k] == batches[k];
    }
  }

  lemma InsertedBatchesSnoc(rows: Table, first: int, batches: seq<seq<SubjectHours>>, i: int)
    requires 0 <= i < |batches|
    ensures InsertedBatches(rows, first, batches[..i + 1])
      == InsertedBatches(rows, first, batches[..i])[first + i := RequestMap(batches[i])]
  {
    assert batches[..i + 1][..i] == batches[..i];
  }

  /** The owner the next batch goes to has no rows yet. */
  lemma NextBatchOwnerFresh(rows: Table, first: int, batches: seq<seq<SubjectHours>>, i: int)
    requires forall o :: o in rows ==> o < first
    requires 0 <= i < |batches|
    ensures OwnerHours(InsertedBatches(rows, first, batches[..i]), first + i) == map[]
  {
    InsertedBatchesSpec(rows, first, batches[..i]);
  }

  /** The association table of one relationship. */
  class AssociationTable {
    var rows: Table

    constructor ()
      ensures rows == map[]
    {
      rows := map[];
    }

    function HoursOf(owner: int): map<int, nat>
      reads this
    {
      OwnerHours(rows, owner)
    }

    /** Whether the create branch's rows can all be inserted: distinct subjects
        (the composite primary key), known subjects (the foreign key) and no row
        of the owner already present. */
    predicate CanInsert(owner: int, items: seq<SubjectHours>, subjects: set<int>)
      reads this
    {
      Insertable(items, subjects) && Ids(items) !! HoursOf(owner).Keys
    }

    /** The create branch: `add_all` one row per requested subject, then `flush`,
        which fails with an integrity error, writing nothing, when a key clashes or
        a subject does not exist. */
    method InsertAll(owner: int, items: seq<SubjectHours>, subjects: set<int>) returns (r: Result<()>)
      modifies this
      ensures r.Ok? <==> old(CanInsert(owner, items, subjects))
      ensures r.Ok? ==> rows == old(rows)[owner := old(HoursOf(owner)) + RequestMap(items)]
      ensures r.Err? ==> r.error == IntegrityError && rows == old(rows)
    {
      if !CanInsert(owner, items, subjects) {
        return Err(IntegrityError);
      }
      var pending := PendingRows(owner, items);
      rows := rows[owner := pending];
      r := Ok(());
    }

    /** The create branch for an owner that has no rows yet (a freshly flushed
        teacher or group): it succeeds exactly for distinct, known subjects, and the
        owner then has one row per requested subject, with its hours. */
    method InsertFresh(owner: int, items: seq<SubjectHours>, subjects: set<int>) returns (r: Result<()>)
      requires HoursOf(owner) == map[]
      modifies this
      ensures r.Ok? <==> Insertable(items, subjects)
      ensures r.Ok? ==> rows == old(rows)[owner := RequestMap(items)]
      ensures r.Err? ==> r.error == IntegrityError && rows == old(rows)
    {
      r := InsertAll(owner, items, subjects);
      if r.Ok? {
        assert map[] + RequestMap(items) == RequestMap(items);
      }
    }

    /** The `add_all` loop: the session's pending rows for the owner, one per item in
        request order, on top of the rows it already has.  It is reached only once
        the ids are distinct and not yet linked: two pending rows with the same
        composite key would make the flush fail instead. */
    method PendingRows(owner: int, items: seq<SubjectHours>) returns (pending: map<int, nat>)
      requires DistinctIds(items) && Ids(items) !! HoursOf(owner).Keys
      ensures pending == HoursOf(owner) + RequestMap(items)
      ensures |pending| == |HoursOf(owner)| + |items|
      ensures forall i :: 0 <= i < |items| ==> pending[items[i].id] == items[i].hours
      ensures forall s :: s in HoursOf(owner) ==> pending[s] == HoursOf(owner)[s]
    {
      pending := HoursOf(owner);
      var i := 0;
      while i < |items|
        invariant 0 <= i <= |items|
        invariant pending == HoursOf(owner) + RequestMap(items[..i])
      {
        RequestMapSnoc(items, i);
        MergeStep(HoursOf(owner), RequestMap(items[..i]), items[i].id, items[i].hours);
        pending := pending[items[i].id := items[i].hours];
        i := i + 1;
      }
      assert items[..i] == items;
      RequestMapDistinct(items);
      DisjointOverlay(HoursOf(owner), RequestMap(items));
    }

    /** The `zip` loop of `create_many`: batch `k` becomes the rows of the fresh owner
        `first + k`, in order, stopping at the first batch the flush refuses (the
        caller's transaction then rolls everything back). */
    method InsertBatches(first: int, batches: seq<seq<SubjectHours>>, subjects: set<int>) returns (r: Result<()>)
      requires forall o :: o in rows ==> o < first
      modifies this
      ensures r.Ok? <==> forall k :: 0 <= k < |batches| ==> Insertable(batches[k], subjects)
      ensures r.Ok? ==> rows == InsertedBatches(old(rows), first, batches)
      ensures r.Err? ==> r.error == IntegrityError
    {
      ghost var before := rows;
      var i := 0;
      while i < |batches|
        invariant 0 <= i <= |batches|
        invariant forall k :: 0 <= k < i ==> Insertable(batches[k], subjects)
        invariant rows == InsertedBatches(before, first, batches[..i])
      {
        NextBatchOwnerFresh(before, first, batches, i);
        var inserted := InsertFresh(first + i, batches[i], subjects);
        if inserted.Err? {
          return Err(inserted.error);
        }
        InsertedBatchesSnoc(before, first, batches, i);
        i := i + 1;
      }
      assert batches[..i] == batches;
      r := Ok(());
    }

    /** The update branch.  Returns the statements issued, in order; fails with an
        integrity error, writing nothing, when an added subject does not exist. */
    method Reconcile(owner: int, items: seq<SubjectHours>, subjects: set<int>) returns (r: Result<seq<Statement>>)
      modifies this
      ensures r.Ok? <==> ComputeDiff(old(HoursOf(owner)), RequestMap(items)).toAdd <= subjects
      ensures r.Ok? ==> r.value == Plan(old(HoursOf(owner)), RequestMap(items))
      ensures r.Ok? ==> rows == ExecuteAll(old(rows), owner, r.value)
      ensures r.Ok? ==> HoursOf(owner) == RequestMap(items)
      ensures r.Ok? ==> SameOtherOwners(old(rows), rows, owner) && rows.Keys <= old(rows).Keys + {owner}
      ensures r.Ok? ==> (r.value == [] <==> old(HoursOf(owner)) == RequestMap(items))
      ensures r.Err? ==> r.error == IntegrityError && rows == old(rows)
    {
      var request := RequestMap(items);
      var d := ComputeDiff(HoursOf(owner), request);
      if !(d.toAdd <= subjects) {
        return Err(IntegrityError);
      }
      var issued := ApplyUpdate(owner, request);
      r := Ok(issued);
    }

    /** The delete / CASE update / insert sequence of the update branch, once the
        foreign keys of the added rows are known to hold. */
    method ApplyUpdate(owner: int, request: map<int, nat>) returns (issued: seq<Statement>)
      modifies this
      ensures issued == Plan(old(HoursOf(owner)), request)
      ensures rows == ExecuteAll(old(rows), owner, issued)
      ensures HoursOf(owner) == request
      ensures SameOtherOwners(old(rows), rows, owner) && rows.Keys <= old(rows).Keys + {owner}
      ensures issued == [] <==> old(HoursOf(owner)) == request
    {
      var existing := HoursOf(owner);
      var d := ComputeDiff(existing, request);
      ghost var before := rows;
      issued := IssueIfNonEmpty(owner, Delete(d.toRemove), before, []);
      issued := IssueIfNonEmpty(owner, Update(d.toUpdate, Restrict(request, d.toUpdate)), before, issued);
      issued := IssueIfNonEmpty(owner, Insert(Restrict(request, d.toAdd)), before, issued);
      assert issued == Plan(existing, request);
      ReconcileOutcome(before, rows, owner, request, issued);
    }

    /** `if <set>: session.execute(stmt)` for one statement of the update branch;
        `issued` lists the statements executed since the table held `before`. */
    method IssueIfNonEmpty(owner: int, s: Statement, ghost before: Table, issued: seq<Statement>)
      returns (issued': seq<Statement>)
      requires rows == ExecuteAll(before, owner, issued)
      modifies this
      ensures issued' == issued + IfIssued(s)
      ensures rows == ExecuteAll(before, owner, issued')
    {
      issued' := issued;
      if Issued(s) {
        ExecuteAllSnoc(before, owner, issued, s);
        rows := Execute(rows, owner, s);
        issued' := issued + [s];
      }
    }

    /** ON DELETE CASCADE from the owner's table: the owner's rows go, others stay. */
    method DeleteOwner(owner: int)
      modifies this
      ensures HoursOf(owner) == map[]
      ensures SameOtherOwners(old(rows), rows, owner)
      ensures rows.Keys == old(rows).Keys - {owner}
    {
      rows := rows - {owner};
    }

    /** ON DELETE CASCADE from the Subject table: every row naming the subject goes,
        every other row stays. */
    method DeleteSubject(subject: int)
      modifies this
      ensures forall o :: OwnerHours(rows, o) == OwnerHours(old(rows), o) - {subject}
      ensures rows.Keys == old(rows).Keys
    {
      rows := map o | o in rows :: rows[o] - {subject};
    }
  }

}
