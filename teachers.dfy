/** Teachers: the Teacher table, the loaded Teacher object whose fields the update
    path sets, and the repository / manager operations of both packages
    (`TeacherRepository` in `backend.entities.teacher` and `app.entities.teacher`,
    `TeacherManager` in `app.entities.teacher.services`).  The teacher side of
    TeacherSubject is a `Reconciler.AssociationTable`. */
module Teachers {
  import opened Errors
  import opened Reconciler
  import opened Validators
  import opened Base

  /** One row of the Teacher table (the id is the key of the table map). */
  datatype TeacherRow = TeacherRow(lastName: string, firstName: string, patronymic: string, isActive: bool)
  {
    /** The `name` property: the three name columns the duplicate check compares. */
    function Name(): FullName
    {
      FullName(lastName, firstName, patronymic)
    }

    /** The column values of the loaded object. */
    function Columns(id: int): map<string, Scalar>
    {
      map["id" := SInt(id), "last_name" := SStr(lastName), "first_name" := SStr(firstName),
          "patronymic" := SStr(patronymic), "is_active" := SBool(isActive)]
    }
  }

  /** The mapped attribute names of Teacher. */
  const TeacherAttributes: set<string> := {"id", "first_name", "last_name", "patronymic", "is_active", "subjects"}

  /** Teacher's columns; `name` is a Python property, not a column. */
  const TeacherModel: ModelInfo :=
    ModelInfo("Teacher", {"id", "first_name", "last_name", "patronymic", "is_active"},
              TeacherAttributes + {"name"} + DeclarativeNames, ["subjects"], map["subjects" := TeacherSubjectClass])

  /** `?order_by=name` on the teacher list: `hasattr` finds the property, which
      ORDER BY refuses; a column such as `last_name` orders the list. */
  lemma TeacherOrderBy(stmt: Select, desc: bool, offset: int, limit: int)
    ensures ApplyPagination(TeacherModel, stmt, Pagination(Some("name"), desc, offset, limit)) == Err(NotAColumn("name"))
    ensures ApplyPagination(TeacherModel, stmt, Pagination(Some("last_name"), desc, offset, limit))
      == Ok(stmt.(orderBy := stmt.orderBy + [OrderBy("last_name", desc)], offset := Some(offset), limit := Some(limit)))
  {
  }

  /** `update_fields` cannot change a teacher's subjects: with the relationship
      unloaded (as `get_by_id` leaves it) reading it raises; loaded and non-empty,
      its TeacherSubject objects have no `id`; loaded and empty, the new object is
      built with an `id` keyword that TeacherSubject does not map. */
  lemma SubjectListUpdate()
    ensures var request := [("subjects", Items([map["id" := SInt(2), "teaching_hours" := SInt(5)]]))];
      var link := map["teacher_id" := SInt(1), "subject_id" := SInt(1), "teaching_hours" := SInt(3)];
      ApplyFields(TeacherModel, map["id" := Plain(SInt(1)), "subjects" := Unloaded], request)
        == Err(MissingGreenlet("subjects"))
      && ApplyFields(TeacherModel, map["id" := Plain(SInt(1)), "subjects" := Items([link])], request)
        == Err(AttributeError("id"))
      && ApplyFields(TeacherModel, map["id" := Plain(SInt(1)), "subjects" := Items([])], request)
        == Err(TypeError("TeacherSubject"))
  {
    var data := map["id" := SInt(2), "teaching_hours" := SInt(5)];
    var link := map["teacher_id" := SInt(1), "subject_id" := SInt(1), "teaching_hours" := SInt(3)];
    assert "id" !in [link][0];
    IdLessObjectsRaise(TeacherModel, map["id" := Plain(SInt(1)), "subjects" := Items([link])], "subjects", [data]);
    assert !Matches(IndexById([]), [data][0]);
    assert "id" in data.Keys && "id" !in TeacherSubjectClass.attributes;
  }

  /** Reads a Teacher back from keyword arguments; the inverse of `Attributes`. */
  function FromAttributes(d: map<string, Scalar>): Option<(int, TeacherRow)>
  {
    if "id" in d && d["id"].SInt? && "last_name" in d && d["last_name"].SStr? && "first_name" in d
       && d["first_name"].SStr? && "patronymic" in d && d["patronymic"].SStr? && "is_active" in d && d["is_active"].SBool?
    then Some((d["id"].i, TeacherRow(d["last_name"].s, d["first_name"].s, d["patronymic"].s, d["is_active"].b)))
    else None
  }

  /** The delete snapshot rebuilds the deleted teacher exactly, while the raw
      `__dict__` would be refused by the constructor. */
  lemma DeleteSnapshotRebuilds(id: int, row: TeacherRow)
    ensures Construct("Teacher", TeacherAttributes, Loaded(row.Columns(id))) == Err(TypeError("Teacher"))
    ensures Construct("Teacher", TeacherAttributes, PublicAttributes(Loaded(row.Columns(id)))).Ok?
    ensures FromAttributes(PublicAttributes(Loaded(row.Columns(id)))) == Some((id, row))
  {
    SnapshotDropsState("Teacher", TeacherAttributes, row.Columns(id));
    ColumnsRoundTrip(id, row);
  }

  /** `FromAttributes` reads back what `Columns` wrote. */
  lemma ColumnsRoundTrip(id: int, row: TeacherRow)
    ensures FromAttributes(row.Columns(id)) == Some((id, row))
  {
    var d := row.Columns(id);
    assert d["id"] == SInt(id) && d["last_name"] == SStr(row.lastName) && d["first_name"] == SStr(row.firstName);
    assert d["patronymic"] == SStr(row.patronymic) && d["is_active"] == SBool(row.isActive);
  }

  /** TeacherPostRequest / TeacherCreateRequest, once the schema has accepted it. */
  datatype CreateRequest = CreateRequest(name: FullName, subjects: seq<SubjectHours>)

  /** TeacherPutRequest / TeacherUpdateRequest: `is_active` is required. */
  datatype UpdateRequest = UpdateRequest(name: FullName, isActive: bool, subjects: seq<SubjectHours>)

  /** `Teacher(**request_data.model_dump(include={names}))`; `is_active` takes its
      column default on insert. */
  function NewTeacher(name: FullName): (t: TeacherRow)
    ensures t.Name() == name && t.isActive
  {
    TeacherRow(name.lastName, name.firstName, name.patronymic, true)
  }

  /** `request_data.model_dump(include={"first_name", "last_name", "patronymic"})`,
      in the schema's field order. */
  function NameFields(name: FullName): seq<(string, string)>
  {
    [("last_name", name.lastName), ("first_name", name.firstName), ("patronymic", name.patronymic)]
  }

  /** The subject lists of a batch of create requests, in request order. */
  function SubjectLists(reqs: seq<CreateRequest>): (lists: seq<seq<SubjectHours>>)
    ensures |lists| == |reqs| && forall i :: 0 <= i < |reqs| ==> lists[i] == reqs[i].subjects
  {
    seq(|reqs|, i requires 0 <= i < |reqs| => reqs[i].subjects)
  }

  /** A Teacher loaded into the session; the update path sets its fields in place. */
  class Teacher {
    var lastName: string
    var firstName: string
    var patronymic: string
    var isActive: bool

    constructor Load(row: TeacherRow)
      ensures Row() == row
    {
      lastName, firstName, patronymic, isActive := row.lastName, row.firstName, row.patronymic, row.isActive;
    }

    function Row(): TeacherRow
      reads this
    {
      TeacherRow(lastName, firstName, patronymic, isActive)
    }

    /** `setattr(teacher, field, value)` for a name column. */
    method SetAttr(field: string, value: string)
      modifies this
      ensures field == "last_name" ==> Row() == old(Row()).(lastName := value)
      ensures field == "first_name" ==> Row() == old(Row()).(firstName := value)
      ensures field == "patronymic" ==> Row() == old(Row()).(patronymic := value)
      ensures field !in {"last_name", "first_name", "patronymic"} ==> Row() == old(Row())
    {
      if field == "last_name" {
        lastName := value;
      } else if field == "first_name" {
        firstName := value;
      } else if field == "patronymic" {
        patronymic := value;
      }
    }

    /** `_set_name` on a loaded teacher / the `setattr` loop of `update_teacher`:
        the three name columns take the request's values, `is_active` is untouched. */
    method SetName(name: FullName)
      modifies this
      ensures Row() == old(Row()).(lastName := name.lastName, firstName := name.firstName, patronymic := name.patronymic)
    {
      var fields := NameFields(name);
      var i := 0;
      while i < |fields|
        invariant 0 <= i <= |fields|
        invariant isActive == old(isActive)
        invariant lastName == if i > 0 then name.lastName else old(lastName)
        invariant firstName == if i > 1 then name.firstName else old(firstName)
        invariant patronymic == if i > 2 then name.patronymic else old(patronymic)
      {
        var (field, value) := fields[i];
        SetAttr(field, value);
        i := i + 1;
      }
    }

    /** `_set_active_flag` / `teacher.is_active = request_data.is_active` */
    method SetActiveFlag(flag: bool)
      modifies this
      ensures Row() == old(Row()).(isActive := flag)
    {
      isActive := flag;
    }
  }

  /** The Teacher table with its TeacherSubject rows. */
  class TeacherRepository {
    var teachers: map<int, TeacherRow>
    /** The id the next flush assigns. */
    var nextId: int
    const links: AssociationTable

    /** Ids are below `nextId`, and only teachers own association rows. */
    ghost predicate Valid()
      reads this, links
    {
      (forall id :: id in teachers ==> id < nextId)
      && links.rows.Keys <= teachers.Keys
    }

    /** No two teachers share last, first and patronymic name. */
    ghost predicate UniqueNames()
      reads this
    {
      forall a, b :: a in teachers && b in teachers && a != b ==> teachers[a].Name() != teachers[b].Name()
    }

    constructor ()
      ensures Valid() && teachers == map[] && links.rows == map[] && fresh(links)
    {
      teachers := map[];
      nextId := 1;
      links := new AssociationTable();
    }

    /** What the duplicate-teacher query sees. */
    function Names(): (names: map<int, FullName>)
      reads this
      ensures names.Keys == teachers.Keys
      ensures forall id :: id in names ==> names[id] == teachers[id].Name()
    {
      map id | id in teachers :: teachers[id].Name()
    }

    /** `create` / `create_teacher`: a new teacher from the three names, flushed to get
        its id, then one TeacherSubject per requested subject.  A repeated or unknown
        subject fails the flush and nothing is written. */
    method Create(req: CreateRequest, subjects: set<int>) returns (r: Result<int>)
      requires Valid()
      modifies this, links
      ensures Valid()
      ensures r.Ok? <==> Insertable(req.subjects, subjects)
      ensures r.Ok? ==> r.value == old(nextId) && nextId == old(nextId) + 1
      ensures r.Ok? ==> teachers == old(teachers)[r.value := NewTeacher(req.name)]
      ensures r.Ok? ==> links.rows == old(links.rows)[r.value := RequestMap(req.subjects)]
      ensures r.Ok? ==> |links.HoursOf(r.value)| == |req.subjects|
      ensures r.Ok? ==> forall i :: 0 <= i < |req.subjects| ==>
        links.HoursOf(r.value)[req.subjects[i].id] == req.subjects[i].hours
      ensures r.Err? ==> r.error == IntegrityError
      ensures r.Err? ==> teachers == old(teachers) && nextId == old(nextId) && links.rows == old(links.rows)
    {
      var id := nextId;
      var inserted := links.InsertFresh(id, req.subjects, subjects);
      if inserted.Err? {
        return Err(inserted.error);
      }
      RequestMapDistinct(req.subjects);
      teachers := teachers[id := NewTeacher(req.name)];
      nextId := nextId + 1;
      r := Ok(id);
    }

    /** `create_many`: inside one transaction, one teacher per request (ids in
        request order), then each teacher's subjects from its own request.  Any
        failure rolls the whole batch back.  The source returns None; the ids
        returned here are those the new rows receive. */
    method CreateMany(reqs: seq<CreateRequest>, subjects: set<int>) returns (r: Result<seq<int>>)
      requires Valid()
      modifies this, links
      ensures Valid()
      ensures r.Ok? <==> forall i :: 0 <= i < |reqs| ==> Insertable(reqs[i].subjects, subjects)
      ensures r.Ok? ==> |r.value| == |reqs| && nextId == old(nextId) + |reqs|
      ensures r.Ok? ==> forall i :: 0 <= i < |reqs| ==> r.value[i] == old(nextId) + i
      ensures r.Ok? ==> forall id :: id in teachers <==> id in old(teachers) || old(nextId) <= id < nextId
      ensures r.Ok? ==> forall id :: id in old(teachers) ==> teachers[id] == old(teachers)[id]
      ensures r.Ok? ==> forall i :: 0 <= i < |reqs| ==> teachers[old(nextId) + i] == NewTeacher(reqs[i].name)
      ensures r.Ok? ==> links.rows == InsertedBatches(old(links.rows), old(nextId), SubjectLists(reqs))
      ensures r.Err? ==> r.error == IntegrityError
      ensures r.Err? ==> teachers == old(teachers) && nextId == old(nextId) && links.rows == old(links.rows)
    {
      var first := nextId;
      var savedTeachers := teachers;
      var savedRows := links.rows;
      var ids := AddTeachers(reqs);
      var linked := links.InsertBatches(first, SubjectLists(reqs), subjects);
      if linked.Err? {
        teachers, nextId := savedTeachers, first;
        links.rows := savedRows;
        return Err(linked.error);
      }
      InsertedBatchesSpec(savedRows, first, SubjectLists(reqs));
      assert forall o :: o in links.rows ==> o in teachers;
      r := Ok(ids);
    }

    /** The list comprehension, `add_all` and `flush` of `create_many`: one teacher per
        request, with consecutive ids in request order. */
    method AddTeachers(reqs: seq<CreateRequest>) returns (ids: seq<int>)
      requires Valid()
      modifies this
      ensures nextId == old(nextId) + |reqs|
      ensures |ids| == |reqs| && forall i :: 0 <= i < |reqs| ==> ids[i] == old(nextId) + i
      ensures forall id :: id in teachers <==> id in old(teachers) || old(nextId) <= id < nextId
      ensures forall id :: id in old(teachers) ==> teachers[id] == old(teachers)[id]
      ensures forall i :: 0 <= i < |reqs| ==> teachers[old(nextId) + i] == NewTeacher(reqs[i].name)
    {
      ids := [];
      var i := 0;
      while i < |reqs|
        invariant 0 <= i <= |reqs|
        invariant nextId == old(nextId) + i && |ids| == i
        invariant forall j :: 0 <= j < i ==> ids[j] == old(nextId) + j
        invariant forall id :: id in teachers <==> id in old(teachers) || old(nextId) <= id < nextId
        invariant forall id :: id in old(teachers) ==> teachers[id] == old(teachers)[id]
        invariant forall j :: 0 <= j < i ==> teachers[old(nextId) + j] == NewTeacher(reqs[j].name)
      {
        teachers := teachers[nextId := NewTeacher(reqs[i].name)];
        ids := ids + [nextId];
        nextId := nextId + 1;
        i := i + 1;
      }
    }

    /** `update` / `update_teacher`: load the teacher (NotFound when absent), set its
        three names and `is_active` from the request, then reconcile its subjects.
        A failure writes nothing. */
    method Update(id: int, req: UpdateRequest, subjects: set<int>) returns (r: Result<TeacherRow>)
      requires Valid()
      modifies this, links
      ensures Valid() && nextId == old(nextId)
      ensures id !in old(teachers) ==> r == Err(NotFound("Teacher", id))
      ensures r.Ok? <==> id in old(teachers) && ComputeDiff(old(links.HoursOf(id)), RequestMap(req.subjects)).toAdd <= subjects
      ensures r.Ok? ==> r.value == old(teachers)[id].(lastName := req.name.lastName, firstName := req.name.firstName,
                                                       patronymic := req.name.patronymic, isActive := req.isActive)
      ensures r.Ok? ==> teachers == old(teachers)[id := r.value]
      ensures r.Ok? ==> links.HoursOf(id) == RequestMap(req.subjects)
      ensures r.Ok? ==> SameOtherOwners(old(links.rows), links.rows, id)
      ensures r.Ok? && old(links.HoursOf(id)) == RequestMap(req.subjects) ==> links.rows == old(links.rows)
      ensures r.Err? ==> teachers == old(teachers) && links.rows == old(links.rows)
    {
      SelectinAccepted(TeacherModel);
      var found := GetById(TeacherModel, teachers, id, Some("selectin"));
      if found.Err? {
        return Err(found.error);
      }
      var teacher := new Teacher.Load(found.value);
      teacher.SetName(req.name);
      teacher.SetActiveFlag(req.isActive);
      var reconciled := links.Reconcile(id, req.subjects, subjects);
      if reconciled.Err? {
        return Err(reconciled.error);
      }
      teachers := teachers[id := teacher.Row()];
      r := Ok(teacher.Row());
    }

    /** `delete_teacher`: the snapshot of the loaded teacher's public attributes, then
        the row goes and its TeacherSubject rows cascade.  (The `backend` package's
        `delete` does the same and returns nothing.) */
    method Delete(id: int) returns (r: Result<map<string, Scalar>>)
      requires Valid()
      modifies this, links
      ensures Valid() && nextId == old(nextId)
      ensures id !in old(teachers) ==> r == Err(NotFound("Teacher", id))
      ensures id !in old(teachers) ==> teachers == old(teachers) && links.rows == old(links.rows)
      ensures id in old(teachers) ==> r == Ok(PublicAttributes(Loaded(old(teachers)[id].Columns(id))))
      ensures id in old(teachers) ==> teachers == old(teachers) - {id}
      ensures id in old(teachers) ==> links.HoursOf(id) == map[] && SameOtherOwners(old(links.rows), links.rows, id)
    {
      var found := GetById(TeacherModel, teachers, id, None);
      if found.Err? {
        return Err(found.error);
      }
      var deleted := PublicAttributes(Loaded(found.value.Columns(id)));
      teachers := teachers - {id};
      links.DeleteOwner(id);
      r := Ok(deleted);
    }

    /** `create_teacher` under `validate_teacher_request`: on create the validator has
        no id, so any teacher with the same full name is a clash.  A request that
        passes validation never fails at the database. */
    method ValidatedCreate(req: CreateRequest, subjects: set<int>) returns (r: Result<int>)
      requires Valid()
      modifies this, links
      ensures Valid()
      ensures ValidateTeacher(req.name, req.subjects, None, old(Names()), subjects).Err? ==>
        r == Err(ValidateTeacher(req.name, req.subjects, None, old(Names()), subjects).error)
        && teachers == old(teachers) && links.rows == old(links.rows) && nextId == old(nextId)
      ensures ValidateTeacher(req.name, req.subjects, None, old(Names()), subjects).Ok? ==>
        r.Ok? && teachers == old(teachers)[r.value := NewTeacher(req.name)]
        && links.rows == old(links.rows)[r.value := RequestMap(req.subjects)]
      ensures old(UniqueNames()) ==> UniqueNames()
    {
      var valid := ValidateTeacher(req.name, req.subjects, None, Names(), subjects);
      if valid.Err? {
        return Err(valid.error);
      }
      ValidateTeacherSpec(req.name, req.subjects, None, Names(), subjects);
      assert forall id :: id in teachers ==> teachers[id].Name() != req.name by {
        forall id | id in teachers
          ensures teachers[id].Name() != req.name
        {
          assert id !in Clashes(Names(), req.name, None);
        }
      }
      r := Create(req, subjects);
    }

    /** `update_teacher` under the validator.  `selfId` is what the validator takes as
        the updated teacher's id: the `app` decorator passes `teacher_id`, so it is
        `Some(id)`; the `backend` BaseValidator looks for a `*_id` parameter and the
        update names it `id`, so it is `None` there. */
    method ValidatedUpdate(id: int, req: UpdateRequest, subjects: set<int>, selfId: Option<int>)
      returns (r: Result<TeacherRow>)
      requires Valid()
      modifies this, links
      ensures Valid()
      ensures ValidateTeacher(req.name, req.subjects, selfId, old(Names()), subjects).Err? ==>
        r == Err(ValidateTeacher(req.name, req.subjects, selfId, old(Names()), subjects).error)
        && teachers == old(teachers) && links.rows == old(links.rows)
      ensures ValidateTeacher(req.name, req.subjects, selfId, old(Names()), subjects).Ok? ==>
        (r.Ok? <==> id in old(teachers))
      ensures r.Ok? ==>
        teachers == old(teachers)[id := r.value] && r.value.Name() == req.name
        && r.value.isActive == req.isActive && links.HoursOf(id) == RequestMap(req.subjects)
      ensures old(UniqueNames()) && selfId == Some(id) ==> UniqueNames()
    {
      var valid := ValidateTeacher(req.name, req.subjects, selfId, Names(), subjects);
      if valid.Err? {
        return Err(valid.error);
      }
      ValidateTeacherSpec(req.name, req.subjects, selfId, Names(), subjects);
      ghost var others := forall other :: other in teachers && (selfId.None? || other != selfId.value) ==>
        teachers[other].Name() != req.name;
      assert others by {
        forall other | other in teachers && (selfId.None? || other != selfId.value)
          ensures teachers[other].Name() != req.name
        {
          assert other !in Clashes(Names(), req.name, selfId);
        }
      }
      if id in teachers {
        assert Ids(req.subjects) <= subjects;
        assert ComputeDiff(links.HoursOf(id), RequestMap(req.subjects)).toAdd <= subjects;
      }
      r := Update(id, req, subjects);
    }
  }
}
