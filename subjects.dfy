/** Subjects: the Subject table, the loaded Subject whose name the update path sets
    only when it differs, and the operations of `SubjectRepository` (both packages)
    and of the `app` package's `SubjectManager`.  The TeacherSubject and
    StudentGroupSubject rows that name a subject are the two
    `Reconciler.AssociationTable`s the delete cascades into. */
module Subjects {
  import opened Errors
  import opened Reconciler
  import opened Validators
  import opened Base

  /** One row of the Subject table (the id is the key of the table map). */
  datatype SubjectRow = SubjectRow(name: string)
  {
    /** The column values of the loaded object (no relationship is loaded on delete). */
    function Columns(id: int): map<string, Scalar>
    {
      map["id" := SInt(id), "name" := SStr(name)]
    }
  }

  /** The mapped attribute names of Subject. */
  const SubjectAttributes: set<string> := {"id", "name", "teachers", "student_groups", "classrooms"}

  const SubjectModel: ModelInfo :=
    ModelInfo("Subject", {"id", "name"}, SubjectAttributes + DeclarativeNames, ["teachers", "student_groups", "classrooms"],
              map["teachers" := TeacherSubjectClass, "student_groups" := StudentGroupSubjectClass,
                  "classrooms" := ClassroomSubjectClass])

  /** Reads a Subject back from keyword arguments. */
  function FromAttributes(d: map<string, Scalar>): Option<(int, SubjectRow)>
  {
    if "id" in d && d["id"].SInt? && "name" in d && d["name"].SStr?
    then Some((d["id"].i, SubjectRow(d["name"].s)))
    else None
  }

  /** The delete snapshot rebuilds the deleted subject exactly, while the raw
      `__dict__` would be refused by the constructor. */
  lemma DeleteSnapshotRebuilds(id: int, row: SubjectRow)
    ensures Construct("Subject", SubjectAttributes, Loaded(row.Columns(id))) == Err(TypeError("Subject"))
    ensures Construct("Subject", SubjectAttributes, PublicAttributes(Loaded(row.Columns(id)))).Ok?
    ensures FromAttributes(PublicAttributes(Loaded(row.Columns(id)))) == Some((id, row))
  {
    var columns := row.Columns(id);
    assert columns.Keys == {"id", "name"};
    assert "id"[0] == 'i' && "name"[0] == 'n';
    SnapshotDropsState("Subject", SubjectAttributes, columns);
    ColumnsRoundTrip(id, row);
  }

  /** `FromAttributes` reads back what `Columns` wrote. */
  lemma ColumnsRoundTrip(id: int, row: SubjectRow)
    ensures FromAttributes(row.Columns(id)) == Some((id, row))
  {
    assert row.Columns(id)["id"] == SInt(id) && row.Columns(id)["name"] == SStr(row.name);
  }

  /** What the duplicate-subject query and the unique index see. */
  function NamesOf(subjects: map<int, SubjectRow>): (names: map<int, string>)
    ensures names.Keys == subjects.Keys
    ensures forall id :: id in names ==> names[id] == subjects[id].name
  {
    map id | id in subjects :: subjects[id].name
  }

  /** No two subjects share a name (`unique=True` on `name`). */
  ghost predicate UniqueNames(subjects: map<int, SubjectRow>)
  {
    forall a, b :: a in subjects && b in subjects && a != b ==> subjects[a].name != subjects[b].name
  }

  /** Every association row names an existing subject (the foreign key). */
  ghost predicate RefersTo(rows: Table, ids: set<int>)
  {
    forall o :: o in rows ==> rows[o].Keys <= ids
  }

  /** `[self.sql_model(name=request.name) for request in request_data_list]` */
  function NewSubjects(batch: seq<string>): (rows: seq<SubjectRow>)
    ensures |rows| == |batch| && forall i :: 0 <= i < |batch| ==> rows[i] == SubjectRow(batch[i])
  {
    seq(|batch|, i requires 0 <= i < |batch| => SubjectRow(batch[i]))
  }

  /** A fresh batch keeps names unique. */
  lemma AppendedKeepsUnique(subjects: map<int, SubjectRow>, first: int, batch: seq<string>)
    requires forall id :: id in subjects ==> id < first
    requires UniqueNames(subjects) && FreshBatch(NamesOf(subjects), batch)
    ensures UniqueNames(Appended(subjects, first, NewSubjects(batch)))
  {
    var result := Appended(subjects, first, NewSubjects(batch));
    AppendedSpec(subjects, first, NewSubjects(batch));
    forall a, b | a in result && b in result && a != b
      ensures result[a].name != result[b].name
    {
      if a in subjects && b !in subjects {
        assert b - first !in Clashes(NamesOf(subjects), batch[b - first], None);
        assert result[b] == SubjectRow(batch[b - first]);
      } else if a !in subjects && b in subjects {
        assert a - first !in Clashes(NamesOf(subjects), batch[a - first], None);
        assert result[a] == SubjectRow(batch[a - first]);
      } else if a !in subjects && b !in subjects {
        assert result[a] == SubjectRow(batch[a - first]) && result[b] == SubjectRow(batch[b - first]);
        if a < b {
          assert batch[a - first] != batch[b - first];
        } else {
          assert batch[b - first] != batch[a - first];
        }
      }
    }
  }

  /** The cascade keeps every association row pointing at an existing subject. */
  lemma CascadeKeepsReferences(old_rows: Table, rows: Table, ids: set<int>, subject: int)
    requires RefersTo(old_rows, ids)
    requires forall o :: OwnerHours(rows, o) == OwnerHours(old_rows, o) - {subject}
    requires rows.Keys == old_rows.Keys
    ensures RefersTo(rows, ids - {subject})
  {
    forall o | o in rows
      ensures rows[o].Keys <= ids - {subject}
    {
      assert OwnerHours(rows, o) == rows[o] && OwnerHours(old_rows, o) == old_rows[o];
    }
  }

  /** A Subject loaded into the session. */
  class Subject {
    var name: string

    constructor Load(row: SubjectRow)
      ensures Row() == row
    {
      name := row.name;
    }

    function Row(): SubjectRow
      reads this
    {
      SubjectRow(name)
    }

    /** `if request_data.name != subject.name: subject.name = request_data.name`:
        afterwards the name is the requested one, and the object was written to
        (and is committed) exactly when the name differed. */
    method Rename(newName: string) returns (changed: bool)
      modifies this
      ensures Row() == SubjectRow(newName)
      ensures changed <==> old(name) != newName
    {
      changed := newName != name;
      if changed {
        name := newName;
      }
    }
  }

  /** The Subject table together with the association rows that point at it. */
  class SubjectRepository {
    var subjects: map<int, SubjectRow>
    /** The id the next flush assigns. */
    var nextId: int
    /** TeacherSubject, keyed by teacher. */
    const teacherLinks: AssociationTable
    /** StudentGroupSubject, keyed by student group. */
    const groupLinks: AssociationTable

    /** Ids are below `nextId`, names are unique, and association rows only name
        existing subjects. */
    ghost predicate Valid()
      reads this, teacherLinks, groupLinks
    {
      (forall id :: id in subjects ==> id < nextId)
      && UniqueNames(subjects)
      && RefersTo(teacherLinks.rows, subjects.Keys)
      && RefersTo(groupLinks.rows, subjects.Keys)
    }

    constructor ()
      ensures Valid() && subjects == map[] && fresh(teacherLinks) && fresh(groupLinks)
    {
      subjects := map[];
      nextId := 1;
      teacherLinks := new AssociationTable();
      groupLinks := new AssociationTable();
    }

    function Names(): map<int, string>
      reads this
    {
      NamesOf(subjects)
    }

    /** `create` / `create_subject`: a new subject with the request's name; a taken
        name fails the commit on the unique index and nothing is written. */
    method Create(name: string) returns (r: Result<int>)
      requires Valid()
      modifies this
      ensures Valid()
      ensures r.Ok? <==> Clashes(old(Names()), name, None) == {}
      ensures r.Ok? ==> r.value == old(nextId) && nextId == old(nextId) + 1
      ensures r.Ok? ==> subjects == old(subjects)[r.value := SubjectRow(name)]
      ensures r.Err? ==> r == Err(IntegrityError) && subjects == old(subjects) && nextId == old(nextId)
    {
      if Clashes(Names(), name, None) != {} {
        return Err(IntegrityError);
      }
      AppendedKeepsUnique(subjects, nextId, [name]);
      assert Appended(subjects, nextId, NewSubjects([name])) == subjects[nextId := SubjectRow(name)] by {
        assert NewSubjects([name]) == [SubjectRow(name)];
        AppendedSnoc(subjects, nextId, [SubjectRow(name)], 0);
      }
      var id := nextId;
      subjects := subjects[id := SubjectRow(name)];
      nextId := nextId + 1;
      r := Ok(id);
    }

    /** `create_many`: inside one transaction, one Subject per request with its name,
        ids in request order.  A taken or repeated name fails the commit and the
        whole batch is rolled back.  The source returns None; the ids returned
        here are those the new rows receive. */
    method CreateMany(batch: seq<string>) returns (r: Result<seq<int>>)
      requires Valid()
      modifies this
      ensures Valid()
      ensures r.Ok? <==> FreshBatch(old(Names()), batch)
      ensures r.Ok? ==> subjects == Appended(old(subjects), old(nextId), NewSubjects(batch))
      ensures r.Ok? ==> nextId == old(nextId) + |batch| && |r.value| == |batch|
      ensures r.Ok? ==> forall i :: 0 <= i < |batch| ==> r.value[i] == old(nextId) + i
      ensures r.Err? ==> r == Err(IntegrityError) && subjects == old(subjects) && nextId == old(nextId)
    {
      if !FreshBatch(Names(), batch) {
        return Err(IntegrityError);
      }
      AppendedKeepsUnique(subjects, nextId, batch);
      AppendedSpec(subjects, nextId, NewSubjects(batch));
      var ids := AddAll(NewSubjects(batch));
      r := Ok(ids);
    }

    /** The list comprehension and `add_all` of `create_many`: one Subject per name,
        with consecutive ids in request order. */
    method AddAll(batch: seq<SubjectRow>) returns (ids: seq<int>)
      modifies this
      ensures subjects == Appended(old(subjects), old(nextId), batch)
      ensures nextId == old(nextId) + |batch| && |ids| == |batch|
      ensures forall i :: 0 <= i < |batch| ==> ids[i] == old(nextId) + i
    {
      ids := [];
      var i := 0;
      while i < |batch|
        invariant 0 <= i <= |batch|
        invariant subjects == Appended(old(subjects), old(nextId), batch[..i])
        invariant nextId == old(nextId) + i && |ids| == i
        invariant forall j :: 0 <= j < i ==> ids[j] == old(nextId) + j
      {
        AppendedSnoc(old(subjects), old(nextId), batch, i);
        subjects := subjects[nextId := batch[i]];
        ids := ids + [nextId];
        nextId := nextId + 1;
        i := i + 1;
      }
      assert batch[..i] == batch;
    }

    /** `update` / `update_subject`: load the subject (NotFound when absent) and
        rename it when the name differs.  The flag says whether anything was
        committed; a commit whose name is taken fails and writes nothing. */
    method Update(id: int, name: string) returns (r: Result<(SubjectRow, bool)>)
      requires Valid()
      modifies this
      ensures Valid() && nextId == old(nextId)
      ensures id !in old(subjects) ==> r == Err(NotFound("Subject", id))
      ensures r.Ok? <==> id in old(subjects) && (old(subjects)[id].name == name || Clashes(old(Names()), name, Some(id)) == {})
      ensures r.Ok? ==> r.value.0 == SubjectRow(name) && subjects == old(subjects)[id := SubjectRow(name)]
      ensures r.Ok? ==> (r.value.1 <==> old(subjects)[id].name != name)
      ensures r.Ok? && !r.value.1 ==> subjects == old(subjects)
      ensures r.Err? && id in old(subjects) ==> r.error == IntegrityError
      ensures r.Err? ==> subjects == old(subjects)
    {
      SelectinAccepted(SubjectModel);
      var found := GetById(SubjectModel, subjects, id, Some("selectin"));
      if found.Err? {
        return Err(found.error);
      }
      var subject := new Subject.Load(found.value);
      var changed := subject.Rename(name);
      if changed {
        if Clashes(Names(), name, Some(id)) != {} {
          return Err(IntegrityError);
        }
        RenameKeepsUnique(subjects, id, name);
        subjects := subjects[id := subject.Row()];
      } else {
        assert subjects[id := subject.Row()] == subjects;
      }
      r := Ok((subject.Row(), changed));
    }

    /** `delete` / `delete_subject`: the snapshot of the loaded subject's public
        attributes, then the row goes and every TeacherSubject and
        StudentGroupSubject row naming it cascades. */
    method Delete(id: int) returns (r: Result<map<string, Scalar>>)
      requires Valid()
      modifies this, teacherLinks, groupLinks
      ensures Valid() && nextId == old(nextId)
      ensures id !in old(subjects) ==> r == Err(NotFound("Subject", id))
      ensures id !in old(subjects) ==>
        subjects == old(subjects) && teacherLinks.rows == old(teacherLinks.rows) && groupLinks.rows == old(groupLinks.rows)
      ensures id in old(subjects) ==> r == Ok(PublicAttributes(Loaded(old(subjects)[id].Columns(id))))
      ensures id in old(subjects) ==> subjects == old(subjects) - {id}
      ensures id in old(subjects) ==> forall o :: teacherLinks.HoursOf(o) == old(teacherLinks.HoursOf(o)) - {id}
      ensures id in old(subjects) ==> forall o :: groupLinks.HoursOf(o) == old(groupLinks.HoursOf(o)) - {id}
    {
      var found := GetById(SubjectModel, subjects, id, None);
      if found.Err? {
        return Err(found.error);
      }
      var deleted := PublicAttributes(Loaded(found.value.Columns(id)));
      ghost var teacherRows, groupRows := teacherLinks.rows, groupLinks.rows;
      subjects := subjects - {id};
      teacherLinks.DeleteSubject(id);
      groupLinks.DeleteSubject(id);
      CascadeKeepsReferences(teacherRows, teacherLinks.rows, old(subjects).Keys, id);
      CascadeKeepsReferences(groupRows, groupLinks.rows, old(subjects).Keys, id);
      r := Ok(deleted);
    }

    /** `create_subject` under `validate_subject_request`: the duplicate-name check
        runs first, so a validated create never fails at the database. */
    method ValidatedCreate(name: string) returns (r: Result<int>)
      requires Valid()
      modifies this
      ensures Valid()
      ensures CheckDuplicateSubject(name, None, old(Names())).Err? ==>
        r == Err(DuplicateSubjectName(name)) && subjects == old(subjects) && nextId == old(nextId)
      ensures CheckDuplicateSubject(name, None, old(Names())).Ok? ==>
        r.Ok? && subjects == old(subjects)[r.value := SubjectRow(name)]
    {
      var valid := CheckDuplicateSubject(name, None, Names());
      if valid.Err? {
        return Err(valid.error);
      }
      r := Create(name);
    }

    /** `update_subject` under the validator.  `selfId` is the id the validator
        excludes: `Some(id)` for a `subject_id` parameter, `None` for the `backend`
        package's update, whose parameter is named `id`. */
    method ValidatedUpdate(id: int, name: string, selfId: Option<int>) returns (r: Result<(SubjectRow, bool)>)
      requires Valid()
      modifies this
      ensures Valid()
      ensures CheckDuplicateSubject(name, selfId, old(Names())).Err? ==>
        r == Err(DuplicateSubjectName(name)) && subjects == old(subjects)
      ensures CheckDuplicateSubject(name, selfId, old(Names())).Ok? && (selfId.None? || selfId == Some(id)) ==>
        (r.Ok? <==> id in old(subjects))
      ensures r.Ok? ==> id in old(subjects) && subjects == old(subjects)[id := SubjectRow(name)]
    {
      var valid := CheckDuplicateSubject(name, selfId, Names());
      if valid.Err? {
        return Err(valid.error);
      }
      if selfId.None? || selfId == Some(id) {
        assert Clashes(Names(), name, Some(id)) <= Clashes(Names(), name, selfId);
      }
      r := Update(id, name);
    }
  }

  /** A rename to a name no other subject has keeps names unique. */
  lemma RenameKeepsUnique(subjects: map<int, SubjectRow>, id: int, name: string)
    requires UniqueNames(subjects) && id in subjects
    requires Clashes(NamesOf(subjects), name, Some(id)) == {}
    ensures UniqueNames(subjects[id := SubjectRow(name)])
  {
    forall other | other in subjects && other != id
      ensures subjects[other].name != name
    {
      assert other !in Clashes(NamesOf(subjects), name, Some(id));
    }
  }

  /** In the `backend` package the update's id is not excluded, so an update that
      keeps a subject's own name is refused as a duplicate of itself. */
  lemma SrcUpdateKeepingNameFails(id: int, subjects: map<int, SubjectRow>)
    requires id in subjects
    ensures var selfId := InitBaseValidator([Argument("cls", PyObject), Argument("session", PyObject),
                                             Argument("id", PyInt(id)), Argument("request_data", PyObject)]);
      selfId.Ok? && CheckDuplicateSubject(subjects[id].name, selfId.value, NamesOf(subjects))
        == Err(DuplicateSubjectName(subjects[id].name))
  {
    PlainIdParameterIsIgnored(id);
    assert id in Clashes(NamesOf(subjects), subjects[id].name, None);
  }

  /** With the id excluded, keeping one's own name passes the check. */
  lemma SelfExcludedKeepsName(id: int, subjects: map<int, SubjectRow>)
    requires id in subjects && UniqueNames(subjects)
    ensures CheckDuplicateSubject(subjects[id].name, Some(id), NamesOf(subjects)) == Ok(())
  {
  }
}
