/** Student groups: the StudentGroup table, the loaded StudentGroup object whose
    name the update path sets, and the repository / manager operations of the three
    packages (`StudentGroupRepository` in `backend.entities.student_group`,
    `src.entities.student_group` and `app.entities.student_group`,
    `StudentGroupManager` in `app.entities.student_group.services`).  The group side
    of StudentGroupSubject is a `Reconciler.AssociationTable`.

    The `backend` models have a nullable `capacity` column, the `app` model has
    none; `withCapacity` tells the two apart. */
module StudentGroups {
  import opened Errors
  import opened Reconciler
  import opened Validators
  import opened Base

  /** One row of the StudentGroup table (the id is the key of the table map). */
  datatype GroupRow = GroupRow(name: string, capacity: Option<int>)
  {
    /** The column values of the loaded object. */
    function Columns(id: int, withCapacity: bool): map<string, Scalar>
    {
      if withCapacity then map["id" := SInt(id), "name" := SStr(name), "capacity" := NullableInt(capacity)]
      else map["id" := SInt(id), "name" := SStr(name)]
    }
  }

  /** The mapped attribute names of StudentGroup. */
  function GroupAttributes(withCapacity: bool): set<string>
  {
    {"id", "name", "subjects"} + (if withCapacity then {"capacity"} else {})
  }

  function GroupModel(withCapacity: bool): ModelInfo
  {
    ModelInfo("StudentGroup", GroupAttributes(withCapacity) - {"subjects"}, GroupAttributes(withCapacity) + DeclarativeNames,
              ["subjects"], map["subjects" := StudentGroupSubjectClass])
  }

  /** Reads a StudentGroup back from keyword arguments; the inverse of `Columns`. */
  function FromAttributes(d: map<string, Scalar>, withCapacity: bool): Option<(int, GroupRow)>
  {
    if "id" in d && d["id"].SInt? && "name" in d && d["name"].SStr? then
      if !withCapacity then Some((d["id"].i, GroupRow(d["name"].s, None)))
      else if "capacity" in d && d["capacity"].SNone? then Some((d["id"].i, GroupRow(d["name"].s, None)))
      else if "capacity" in d && d["capacity"].SInt? then Some((d["id"].i, GroupRow(d["name"].s, Some(d["capacity"].i))))
      else None
    else None
  }

  /** `FromAttributes` reads back what `Columns` wrote. */
  lemma ColumnsRoundTrip(id: int, row: GroupRow, withCapacity: bool)
    ensures FromAttributes(row.Columns(id, withCapacity), withCapacity) == Some((id, row.(capacity := if withCapacity then row.capacity else None)))
  {
    var d := row.Columns(id, withCapacity);
    assert d["id"] == SInt(id) && d["name"] == SStr(row.name);
    if withCapacity {
      assert d["capacity"] == NullableInt(row.capacity);
    }
  }

  /** The delete snapshot of the `src` repository rebuilds the deleted group exactly,
      while the raw `__dict__` would be refused by the constructor. */
  lemma DeleteSnapshotRebuilds(id: int, row: GroupRow)
    ensures Construct("StudentGroup", GroupAttributes(true), Loaded(row.Columns(id, true))) == Err(TypeError("StudentGroup"))
    ensures Construct("StudentGroup", GroupAttributes(true), PublicAttributes(Loaded(row.Columns(id, true)))).Ok?
    ensures FromAttributes(PublicAttributes(Loaded(row.Columns(id, true))), true) == Some((id, row))
  {
    SnapshotDropsState("StudentGroup", GroupAttributes(true), row.Columns(id, true));
    ColumnsRoundTrip(id, row, true);
  }

  /** StudentGroupPostRequest / StudentGroupCreateRequest, once the schema has accepted it. */
  datatype CreateRequest = CreateRequest(name: string, capacity: Option<int>, subjects: seq<SubjectHours>)

  /** StudentGroupPutRequest / StudentGroupUpdateRequest. */
  datatype UpdateRequest = UpdateRequest(name: string, capacity: Option<int>, subjects: seq<SubjectHours>)

  /** The new group: `sql_model(name=..., capacity=...)` in the `backend` packages,
      `StudentGroup(**request_data.model_dump(include={"name"}))` in `app`. */
  function NewGroup(req: CreateRequest, withCapacity: bool): (g: GroupRow)
    ensures g.name == req.name
    ensures g.capacity == (if withCapacity then req.capacity else None)
  {
    GroupRow(req.name, if withCapacity then req.capacity else None)
  }

  /** `request_data.model_dump(include={"name"})`. */
  function NameFields(name: string): seq<(string, string)>
  {
    [("name", name)]
  }

  function NamesOf(groups: map<int, GroupRow>): (names: map<int, string>)
    ensures names.Keys == groups.Keys
    ensures forall id :: id in names ==> names[id] == groups[id].name
  {
    map id | id in groups :: groups[id].name
  }

  /** The table invariant: ids are below `nextId`, only groups own association
      rows, names are unique (`unique=True`), and without the column no group has
      a capacity. */
  ghost predicate Consistent(groups: map<int, GroupRow>, nextId: int, rows: Table, withCapacity: bool)
  {
    (forall id :: id in groups ==> id < nextId)
    && rows.Keys <= groups.Keys
    && (forall a, b :: a in groups && b in groups && a != b ==> groups[a].name != groups[b].name)
    && (!withCapacity ==> forall id :: id in groups ==> groups[id].capacity.None?)
  }

  /** A new group under a free name keeps the invariant. */
  lemma CreateKeepsConsistent(groups: map<int, GroupRow>, nextId: int, rows: Table, withCapacity: bool,
                              row: GroupRow, hours: map<int, nat>)
    requires Consistent(groups, nextId, rows, withCapacity)
    requires Clashes(NamesOf(groups), row.name, None) == {}
    requires withCapacity || row.capacity.None?
    ensures Consistent(groups[nextId := row], nextId + 1, rows[nextId := hours], withCapacity)
  {
    forall other | other in groups
      ensures groups[other].name != row.name
    {
      assert other !in Clashes(NamesOf(groups), row.name, None);
    }
  }

  /** Renaming a group to a name no other group has, and changing only its own
      association rows, keeps the invariant. */
  lemma RenameKeepsConsistent(groups: map<int, GroupRow>, nextId: int, rows: Table, rows': Table,
                              withCapacity: bool, id: int, name: string)
    requires Consistent(groups, nextId, rows, withCapacity)
    requires id in groups && Clashes(NamesOf(groups), name, Some(id)) == {}
    requires rows'.Keys <= rows.Keys + {id}
    ensures Consistent(groups[id := groups[id].(name := name)], nextId, rows', withCapacity)
  {
    forall other | other in groups && other != id
      ensures groups[other].name != name
    {
      assert other !in Clashes(NamesOf(groups), name, Some(id));
    }
  }

  /** A StudentGroup loaded into the session; the update path sets its name in place. */
  class StudentGroup {
    var name: string
    var capacity: Option<int>

    constructor Load(row: GroupRow)
      ensures Row() == row
    {
      name, capacity := row.name, row.capacity;
    }

    function Row(): GroupRow
      reads this
    {
      GroupRow(name, capacity)
    }

    /** `setattr(student_group, field, value)` for a string column. */
    method SetAttr(field: string, value: string)
      modifies this
      ensures field == "name" ==> Row() == old(Row()).(name := value)
      ensures field != "name" ==> Row() == old(Row())
    {
      if field == "name" {
        name := value;
      }
    }

    /** The `setattr` loop of `update`: the name takes the request's value and the
        capacity is left as it was. */
    method SetName(newName: string)
      modifies this
      ensures Row() == old(Row()).(name := newName)
    {
      var fields := NameFields(newName);
      var i := 0;
      while i < |fields|
        invariant 0 <= i <= |fields|
        invariant capacity == old(capacity)
        invariant name == if i > 0 then newName else old(name)
      {
        var (field, value) := fields[i];
        SetAttr(field, value);
        i := i + 1;
      }
    }

    /** `_update_capacity` of the `src` repository (defined, never called). */
    method UpdateCapacity(newCapacity: Option<int>)
      modifies this
      ensures Row() == old(Row()).(capacity := newCapacity)
    {
      capacity := newCapacity;
    }
  }

  /** The StudentGroup table with its StudentGroupSubject rows. */
  class StudentGroupRepository {
    var groups: map<int, GroupRow>
    /** The id the next flush assigns. */
    var nextId: int
    const links: AssociationTable
    /** Whether the model has the `capacity` column (`backend` packages) or not (`app`). */
    const withCapacity: bool

    ghost predicate Valid()
      reads this, links
    {
      Consistent(groups, nextId, links.rows, withCapacity)
    }

    constructor (withCapacity: bool)
      ensures Valid() && groups == map[] && links.rows == map[] && fresh(links)
      ensures this.withCapacity == withCapacity
    {
      groups := map[];
      nextId := 1;
      links := new AssociationTable();
      this.withCapacity := withCapacity;
    }

    /** What the duplicate-group query and the unique index see. */
    function Names(): map<int, string>
      reads this
    {
      NamesOf(groups)
    }

    /** `create` / `create_student_group`: a new group flushed to get its id, then one
        StudentGroupSubject per requested subject.  A taken name (the unique index),
        or a repeated or unknown subject, fails a flush and nothing is written. */
    method Create(req: CreateRequest, subjects: set<int>) returns (r: Result<int>)
      requires Valid()
      modifies this, links
      ensures Valid()
      ensures r.Ok? <==> Clashes(old(Names()), req.name, None) == {} && Insertable(req.subjects, subjects)
      ensures r.Ok? ==> r.value == old(nextId) && nextId == old(nextId) + 1
      ensures r.Ok? ==> groups == old(groups)[r.value := NewGroup(req, withCapacity)]
      ensures r.Ok? ==> links.rows == old(links.rows)[r.value := RequestMap(req.subjects)]
      ensures r.Err? ==> r.error == IntegrityError
      ensures r.Err? ==> groups == old(groups) && nextId == old(nextId) && links.rows == old(links.rows)
    {
      if Clashes(Names(), req.name, None) != {} {
        return Err(IntegrityError);
      }
      var id := nextId;
      var inserted := links.InsertFresh(id, req.subjects, subjects);
      if inserted.Err? {
        return Err(inserted.error);
      }
      CreateKeepsConsistent(groups, nextId, old(links.rows), withCapacity, NewGroup(req, withCapacity), RequestMap(req.subjects));
      groups := groups[id := NewGroup(req, withCapacity)];
      nextId := nextId + 1;
      r := Ok(id);
    }

    /** `update` / `update_sutdent_group`: load the group (NotFound when absent), set
        its name, then reconcile its subjects; the request's capacity is never
        written.  A name taken by another group or an unknown added subject fails a
        flush, and the transaction writes nothing. */
    method Update(id: int, req: UpdateRequest, subjects: set<int>) returns (r: Result<GroupRow>)
      requires Valid()
      modifies this, links
      ensures Valid() && nextId == old(nextId)
      ensures id !in old(groups) ==> r == Err(NotFound("StudentGroup", id))
      ensures r.Ok? <==> (id in old(groups) && Clashes(old(Names()), req.name, Some(id)) == {}
                          && ComputeDiff(old(links.HoursOf(id)), RequestMap(req.subjects)).toAdd <= subjects)
      ensures r.Ok? ==> r.value == old(groups)[id].(name := req.name)
      ensures r.Ok? ==> groups == old(groups)[id := r.value]
      ensures r.Ok? ==> links.HoursOf(id) == RequestMap(req.subjects)
      ensures r.Ok? ==> SameOtherOwners(old(links.rows), links.rows, id)
      ensures r.Ok? && old(links.HoursOf(id)) == RequestMap(req.subjects) ==> links.rows == old(links.rows)
      ensures r.Err? && id in old(groups) ==> r.error == IntegrityError
      ensures r.Err? ==> groups == old(groups) && links.rows == old(links.rows)
    {
      SelectinAccepted(GroupModel(withCapacity));
      var found := GetById(GroupModel(withCapacity), groups, id, Some("selectin"));
      if found.Err? {
        return Err(found.error);
      }
      r := UpdateLoaded(id, found.value, req, subjects);
    }

    /** The body of `update` once the group is loaded: the name is set on the loaded
        object, then the subjects are reconciled; a failing flush writes nothing. */
    method UpdateLoaded(id: int, row: GroupRow, req: UpdateRequest, subjects: set<int>) returns (r: Result<GroupRow>)
      requires Valid() && id in groups && groups[id] == row
      modifies this, links
      ensures Valid() && nextId == old(nextId)
      ensures r.Ok? <==> (Clashes(old(Names()), req.name, Some(id)) == {}
                          && ComputeDiff(old(links.HoursOf(id)), RequestMap(req.subjects)).toAdd <= subjects)
      ensures r.Ok? ==> r.value == row.(name := req.name) && groups == old(groups)[id := r.value]
      ensures r.Ok? ==> links.HoursOf(id) == RequestMap(req.subjects)
      ensures r.Ok? ==> SameOtherOwners(old(links.rows), links.rows, id)
      ensures r.Ok? && old(links.HoursOf(id)) == RequestMap(req.subjects) ==> links.rows == old(links.rows)
      ensures r.Err? ==> r.error == IntegrityError && groups == old(groups) && links.rows == old(links.rows)
    {
      var group := new StudentGroup.Load(row);
      group.SetName(req.name);
      if Clashes(Names(), req.name, Some(id)) != {} {
        return Err(IntegrityError);
      }
      var reconciled := links.Reconcile(id, req.subjects, subjects);
      if reconciled.Err? {
        return Err(reconciled.error);
      }
      RenameKeepsConsistent(groups, nextId, old(links.rows), links.rows, withCapacity, id, req.name);
      groups := groups[id := group.Row()];
      r := Ok(group.Row());
    }

    /** `delete` of the `src` repository: the snapshot of the loaded group's public
        attributes, then the row goes and its StudentGroupSubject rows cascade. */
    method Delete(id: int) returns (r: Result<map<string, Scalar>>)
      requires Valid()
      modifies this, links
      ensures Valid() && nextId == old(nextId)
      ensures id !in old(groups) ==> r == Err(NotFound("StudentGroup", id))
      ensures id !in old(groups) ==> groups == old(groups) && links.rows == old(links.rows)
      ensures id in old(groups) ==> r == Ok(PublicAttributes(Loaded(old(groups)[id].Columns(id, withCapacity))))
      ensures id in old(groups) ==> groups == old(groups) - {id}
      ensures id in old(groups) ==> links.HoursOf(id) == map[] && SameOtherOwners(old(links.rows), links.rows, id)
    {
      var found := GetById(GroupModel(withCapacity), groups, id, None);
      if found.Err? {
        return Err(found.error);
      }
      var deleted := PublicAttributes(Loaded(found.value.Columns(id, withCapacity)));
      groups := groups - {id};
      links.DeleteOwner(id);
      r := Ok(deleted);
    }

    /** `create_student_group` under `validate_student_group_request`: on create the
        validator has no id, so any group with the same name is a clash.  A request
        that passes validation never fails at the database. */
    method ValidatedCreate(req: CreateRequest, subjects: set<int>) returns (r: Result<int>)
      requires Valid()
      modifies this, links
      ensures Valid()
      ensures ValidateStudentGroup(req.name, req.subjects, None, old(Names()), subjects).Err? ==>
        r == Err(ValidateStudentGroup(req.name, req.subjects, None, old(Names()), subjects).error)
        && groups == old(groups) && links.rows == old(links.rows) && nextId == old(nextId)
      ensures ValidateStudentGroup(req.name, req.subjects, None, old(Names()), subjects).Ok? ==>
        r.Ok? && groups == old(groups)[r.value := NewGroup(req, withCapacity)]
        && links.rows == old(links.rows)[r.value := RequestMap(req.subjects)]
    {
      var valid := ValidateStudentGroup(req.name, req.subjects, None, Names(), subjects);
      if valid.Err? {
        return Err(valid.error);
      }
      ValidateStudentGroupSpec(req.name, req.subjects, None, Names(), subjects);
      r := Create(req, subjects);
    }

    /** `update_student_group` / `update_sutdent_group` under the validator.  `selfId`
        is what the validator takes as the updated group's id; in both packages that
        wire the validator it is `None` (the `src` update names its parameter `id`,
        and the `app` constructor reads a key its decorator never sets).  The `src`
        service also wraps `update`, which begins its own transaction, in a second
        `session.begin()`; that nesting is not modelled. */
    method ValidatedUpdate(id: int, req: UpdateRequest, subjects: set<int>, selfId: Option<int>)
      returns (r: Result<GroupRow>)
      requires Valid()
      modifies this, links
      ensures Valid()
      ensures ValidateStudentGroup(req.name, req.subjects, selfId, old(Names()), subjects).Err? ==>
        r == Err(ValidateStudentGroup(req.name, req.subjects, selfId, old(Names()), subjects).error)
        && groups == old(groups) && links.rows == old(links.rows)
      ensures (ValidateStudentGroup(req.name, req.subjects, selfId, old(Names()), subjects).Ok?
               && (selfId.None? || selfId == Some(id))) ==> (r.Ok? <==> id in old(groups))
      ensures r.Ok? ==>
        id in old(groups) && groups == old(groups)[id := r.value] && r.value == old(groups)[id].(name := req.name)
        && links.HoursOf(id) == RequestMap(req.subjects)
    {
      var valid := ValidateStudentGroup(req.name, req.subjects, selfId, Names(), subjects);
      if valid.Err? {
        return Err(valid.error);
      }
      ValidateStudentGroupSpec(req.name, req.subjects, selfId, Names(), subjects);
      if id in groups && (selfId.None? || selfId == Some(id)) {
        assert Clashes(Names(), req.name, Some(id)) <= Clashes(Names(), req.name, selfId);
        assert ComputeDiff(links.HoursOf(id), RequestMap(req.subjects)).toAdd <= subjects;
      }
      r := Update(id, req, subjects);
    }
  }
}
