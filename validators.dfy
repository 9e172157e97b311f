/** The request validators that run before a create or update: repeated subject
    ids (`Counter`), subject ids missing from the Subject table (set
    difference), then owner-name uniqueness with an optional self-exclusion,
    and the argument extraction that decides which id is excluded.

    The database is a snapshot: the Subject ids as a set, and each owner table
    as a map from id to the column(s) the uniqueness query compares.  The
    queries only read, so every check is a function of the snapshot; the
    `rollback` that follows them leaves nothing to undo. */
module Validators {
  import opened Errors
  import opened Text
  import opened Reconciler

  predicate NoRepeats(xs: seq<int>)
  {
    forall i, j :: 0 <= i < j < |xs| ==> xs[i] != xs[j]
  }

  /** `Counter(ids).keys()`: every id once, in order of first occurrence. */
  function FirstOccurrences(xs: seq<int>): (r: seq<int>)
    ensures forall x :: x in r <==> x in xs
    ensures NoRepeats(r)
  {
    if xs == [] then []
    else
      var last := xs[|xs| - 1];
      assert xs == xs[..|xs| - 1] + [last];
      var r := FirstOccurrences(xs[..|xs| - 1]);
      if last in r then r else r + [last]
  }

  /** The keys among `keys` that occur more than once in `ids`, in the order of `keys`. */
  function Repeated(keys: seq<int>, ids: seq<int>): (r: seq<int>)
    ensures forall x :: x in r <==> x in keys && multiset(ids)[x] > 1
  {
    if keys == [] then []
    else
      (if multiset(ids)[keys[0]] > 1 then [keys[0]] else []) + Repeated(keys[1..], ids)
  }

  /** `[item for item, count in Counter(ids).items() if count > 1]` */
  function Duplicates(ids: seq<int>): seq<int>
  {
    Repeated(FirstOccurrences(ids), ids)
  }

  /** An id is reported exactly when it occurs more than once, and the report is
      empty exactly when the ids are pairwise distinct. */
  lemma DuplicatesExact(ids: seq<int>)
    ensures forall x :: x in Duplicates(ids) <==> multiset(ids)[x] > 1
    ensures Duplicates(ids) == [] <==> NoRepeats(ids)
  {
    forall x | multiset(ids)[x] > 1
      ensures x in Duplicates(ids)
    {
      assert x in multiset(ids);
    }
    if NoRepeats(ids) {
      NoRepeatsCount(ids);
      RepeatedNone(FirstOccurrences(ids), ids);
    } else {
      var i, j :| 0 <= i < j < |ids| && ids[i] == ids[j];
      TwoPositionsCount(ids, i, j);
      assert ids[i] in Duplicates(ids);
    }
  }

  lemma {:induction false} RepeatedNone(keys: seq<int>, ids: seq<int>)
    requires forall x :: multiset(ids)[x] <= 1
    ensures Repeated(keys, ids) == []
    decreases |keys|
  {
    if keys != [] {
      RepeatedNone(keys[1..], ids);
    }
  }

  lemma {:induction false} NoRepeatsCount(ids: seq<int>)
    requires NoRepeats(ids)
    ensures forall x :: multiset(ids)[x] <= 1
    decreases |ids|
  {
    if ids != [] {
      var prefix := ids[..|ids| - 1];
      var last := ids[|ids| - 1];
      assert ids == prefix + [last];
      NoRepeatsCount(prefix);
      assert last !in prefix;
      assert multiset(ids) == multiset(prefix) + multiset{last};
    }
  }

  lemma TwoPositionsCount(ids: seq<int>, i: int, j: int)
    requires 0 <= i < j < |ids| && ids[i] == ids[j]
    ensures multiset(ids)[ids[i]] > 1
  {
    assert ids == ids[..j] + [ids[j]] + ids[j + 1..];
    assert ids[..j][i] == ids[i];
    assert ids[i] in multiset(ids[..j]);
    assert multiset(ids) == multiset(ids[..j]) + multiset{ids[j]} + multiset(ids[j + 1..]);
  }

  /** `[subj.id for subj in request_data.subjects]` */
  function IdList(items: seq<SubjectHours>): (ids: seq<int>)
    ensures |ids| == |items| && forall i :: 0 <= i < |items| ==> ids[i] == items[i].id
  {
    seq(|items|, i requires 0 <= i < |items| => items[i].id)
  }

  /** The subject checks: repeated ids first, then ids the Subject table lacks. */
  function CheckSubjectsValidity(items: seq<SubjectHours>, subjectTable: set<int>): Result<()>
  {
    var ids := IdList(items);
    var duplicates := Duplicates(ids);
    if duplicates != [] then Err(DuplicateSubjectId(duplicates))
    else
      var wrong := (set x | x in ids) - subjectTable;
      if wrong != {} then Err(InvalidSubjectId(wrong)) else Ok(())
  }

  /** The subject checks pass exactly for distinct, existing ids (which is what the
      reconciler's request map and foreign keys need); a repeated id is reported
      with every repeated id and nothing else; otherwise the missing ids are
      reported, all of them. */
  lemma SubjectsValidity(items: seq<SubjectHours>, subjectTable: set<int>)
    ensures CheckSubjectsValidity(items, subjectTable).Ok? <==> DistinctIds(items) && Ids(items) <= subjectTable
    ensures CheckSubjectsValidity(items, subjectTable).Err? ==>
      match CheckSubjectsValidity(items, subjectTable).error
      case DuplicateSubjectId(dups) =>
        !DistinctIds(items) && forall x :: x in dups <==> multiset(IdList(items))[x] > 1
      case InvalidSubjectId(wrong) =>
        DistinctIds(items) && wrong == Ids(items) - subjectTable && wrong != {}
      case _ => false
  {
    var ids := IdList(items);
    DuplicatesExact(ids);
    assert NoRepeats(ids) <==> DistinctIds(items);
    var r := CheckSubjectsValidity(items, subjectTable);
    assert r.Ok? <==> Duplicates(ids) == [] && (set x | x in ids) - subjectTable == {};
    assert (set x | x in ids) == Ids(items) by {
      forall x | x in Ids(items)
        ensures x in ids
      {
        var it :| it in items && it.id == x;
        var k :| 0 <= k < |items| && items[k] == it;
        assert ids[k] == x;
      }
    }
    assert Ids(items) <= subjectTable <==> Ids(items) - subjectTable == {} by {
      if Ids(items) - subjectTable == {} {
        forall x | x in Ids(items)
          ensures x in subjectTable
        {
          assert x !in Ids(items) - subjectTable;
        }
      }
    }
  }

  /** The ids of rows whose key equals `key`, minus `Teacher.id != self.id` when an id is known. */
  function Clashes<K(==)>(rows: map<int, K>, key: K, selfId: Option<int>): (ids: set<int>)
    ensures forall id :: id in ids <==> id in rows && rows[id] == key && (selfId.None? || id != selfId.value)
  {
    set id | id in rows && rows[id] == key && (selfId.None? || id != selfId.value)
  }

  /** Whether a batch of new names can all be flushed past a unique index: none is
      taken already and no two requests share one. */
  predicate FreshBatch(names: map<int, string>, batch: seq<string>)
  {
    (forall i :: 0 <= i < |batch| ==> Clashes(names, batch[i], None) == {})
    && (forall i, j :: 0 <= i < j < |batch| ==> batch[i] != batch[j])
  }

  /** Teacher's last, first and patronymic; `Teacher.name` joins them with spaces. */
  datatype FullName = FullName(lastName: string, firstName: string, patronymic: string)
  {
    function Display(): string
    {
      lastName + " " + firstName + " " + patronymic
    }
  }

  /** `check_duplicate_teacher`: a clash needs all three name columns equal.  The
      error carries the clashing teacher's own name. */
  function CheckDuplicateTeacher(name: FullName, selfId: Option<int>, teachers: map<int, FullName>): (r: Result<()>)
    ensures r.Ok? <==> forall id :: id in teachers && (selfId.None? || id != selfId.value) ==>
      teachers[id].lastName != name.lastName || teachers[id].firstName != name.firstName
      || teachers[id].patronymic != name.patronymic
    ensures r.Err? ==>
      exists id :: id in teachers && (selfId.None? || id != selfId.value) && r.error == DuplicateTeacher(teachers[id].Display())
  {
    var clashes := Clashes(teachers, name, selfId);
    if clashes == {} then Ok(())
    else
      assert exists id :: id in clashes;
      Err(DuplicateTeacher(name.Display()))
  }

  /** `_check_duplicate_student_group`: a clash is another group with the same name. */
  function CheckDuplicateStudentGroup(name: string, selfId: Option<int>, groups: map<int, string>): (r: Result<()>)
    ensures r.Ok? <==> forall id :: id in groups && (selfId.None? || id != selfId.value) ==> groups[id] != name
    ensures r.Err? ==>
      exists id :: id in groups && (selfId.None? || id != selfId.value) && r.error == DuplicateStudentGroup(groups[id])
  {
    var clashes := Clashes(groups, name, selfId);
    if clashes == {} then Ok(())
    else
      assert exists id :: id in clashes;
      Err(DuplicateStudentGroup(name))
  }

  /** `check_duplicate_subject`: a clash is another subject with the same name. */
  function CheckDuplicateSubject(name: string, selfId: Option<int>, subjects: map<int, string>): (r: Result<()>)
    ensures r.Ok? <==> forall id :: id in subjects && (selfId.None? || id != selfId.value) ==> subjects[id] != name
    ensures r.Err? ==>
      exists id :: id in subjects && (selfId.None? || id != selfId.value) && r.error == DuplicateSubjectName(subjects[id])
  {
    var clashes := Clashes(subjects, name, selfId);
    if clashes == {} then Ok(())
    else
      assert exists id :: id in clashes;
      Err(DuplicateSubjectName(name))
  }

  /** `validate` of the teacher validators: subject checks, then the name check. */
  function ValidateTeacher(name: FullName, items: seq<SubjectHours>, selfId: Option<int>,
                           teachers: map<int, FullName>, subjectTable: set<int>): Result<()>
  {
    var subjectCheck := CheckSubjectsValidity(items, subjectTable);
    if subjectCheck.Err? then subjectCheck else CheckDuplicateTeacher(name, selfId, teachers)
  }

  /** `validate` of the student-group validators: subject checks, then the name check. */
  function ValidateStudentGroup(name: string, items: seq<SubjectHours>, selfId: Option<int>,
                                groups: map<int, string>, subjectTable: set<int>): Result<()>
  {
    var subjectCheck := CheckSubjectsValidity(items, subjectTable);
    if subjectCheck.Err? then subjectCheck else CheckDuplicateStudentGroup(name, selfId, groups)
  }

  /** The teacher validation passes exactly when the subjects are distinct and known
      and no other teacher has the full name; a subject failure wins over a name clash. */
  lemma ValidateTeacherSpec(name: FullName, items: seq<SubjectHours>, selfId: Option<int>,
                            teachers: map<int, FullName>, subjectTable: set<int>)
    ensures ValidateTeacher(name, items, selfId, teachers, subjectTable).Ok? <==>
      DistinctIds(items) && Ids(items) <= subjectTable && Clashes(teachers, name, selfId) == {}
    ensures !(DistinctIds(items) && Ids(items) <= subjectTable) ==>
      ValidateTeacher(name, items, selfId, teachers, subjectTable) == CheckSubjectsValidity(items, subjectTable)
  {
    SubjectsValidity(items, subjectTable);
    var r := CheckDuplicateTeacher(name, selfId, teachers);
    if Clashes(teachers, name, selfId) != {} {
      var id :| id in Clashes(teachers, name, selfId);
      assert !r.Ok?;
    }
  }

  /** The student-group validation passes exactly when the subjects are distinct and
      known and no other group has the name; a subject failure wins. */
  lemma ValidateStudentGroupSpec(name: string, items: seq<SubjectHours>, selfId: Option<int>,
                                 groups: map<int, string>, subjectTable: set<int>)
    ensures ValidateStudentGroup(name, items, selfId, groups, subjectTable).Ok? <==>
      DistinctIds(items) && Ids(items) <= subjectTable && Clashes(groups, name, selfId) == {}
    ensures !(DistinctIds(items) && Ids(items) <= subjectTable) ==>
      ValidateStudentGroup(name, items, selfId, groups, subjectTable) == CheckSubjectsValidity(items, subjectTable)
  {
    SubjectsValidity(items, subjectTable);
  }

  /** Self-exclusion at work: an owner that keeps its own name passes the name check
      with its id excluded, as long as no other row has that name, and fails it
      without the exclusion. */
  lemma OwnNameNeedsSelfExclusion(id: int, rows: map<int, string>)
    requires id in rows
    requires forall other :: other in rows && other != id ==> rows[other] != rows[id]
    ensures CheckDuplicateStudentGroup(rows[id], Some(id), rows).Ok?
    ensures CheckDuplicateStudentGroup(rows[id], None, rows) == Err(DuplicateStudentGroup(rows[id]))
    ensures CheckDuplicateSubject(rows[id], Some(id), rows).Ok?
    ensures CheckDuplicateSubject(rows[id], None, rows) == Err(DuplicateSubjectName(rows[id]))
  {
    assert id in Clashes(rows, rows[id], None);
  }

  /** The same for teachers. */
  lemma OwnFullNameNeedsSelfExclusion(id: int, teachers: map<int, FullName>)
    requires id in teachers
    requires forall other :: other in teachers && other != id ==> teachers[other] != teachers[id]
    ensures CheckDuplicateTeacher(teachers[id], Some(id), teachers).Ok?
    ensures CheckDuplicateTeacher(teachers[id], None, teachers) == Err(DuplicateTeacher(teachers[id].Display()))
  {
    assert id in Clashes(teachers, teachers[id], None);
  }

  // ---------------------------------------------------------------------------
  // Arguments of the decorated service methods

  /** A Python value bound to a parameter, as far as the validators look at it. */
  datatype Value =
    | PyNone
    | PyInt(i: int)
    /** a session, a request model or a class: always truthy */
    | PyObject

  predicate Truthy(v: Value)
  {
    match v
    case PyNone => false
    case PyInt(i) => i != 0
    case PyObject => true
  }

  /** One entry of `bound_args.arguments`, in signature order. */
  datatype Argument = Argument(name: string, value: Value)

  /** `bound_args.arguments.get(name)`: parameter names are unique, so the first binding. */
  function Get(args: seq<Argument>, name: string): (v: Value)
    ensures v != PyNone ==> exists i :: 0 <= i < |args| && args[i].name == name && args[i].value == v
    ensures (forall i :: 0 <= i < |args| ==> args[i].name != name) ==> v == PyNone
  {
    if args == [] then PyNone
    else if args[0].name == name then args[0].value
    else Get(args[1..], name)
  }

  /** `next((v for k, v in arguments.items() if k.endswith("_id")), None)` */
  function FirstIdArgument(args: seq<Argument>): Value
  {
    if args == [] then PyNone
    else if EndsWith(args[0].name, "_id") then args[0].value
    else FirstIdArgument(args[1..])
  }

  /** The value taken is that of the first parameter whose name ends in `_id`, and
      `None` when no parameter name does. */
  lemma {:induction false} FirstIdArgumentSpec(args: seq<Argument>)
    ensures (forall i :: 0 <= i < |args| ==> !EndsWith(args[i].name, "_id")) ==> FirstIdArgument(args) == PyNone
    ensures forall i :: (0 <= i < |args| && EndsWith(args[i].name, "_id") &&
                         forall j :: 0 <= j < i ==> !EndsWith(args[j].name, "_id")) ==>
      FirstIdArgument(args) == args[i].value
    decreases |args|
  {
    if args != [] {
      FirstIdArgumentSpec(args[1..]);
      forall i | 0 < i < |args| && EndsWith(args[i].name, "_id")
        && (forall j :: 0 <= j < i ==> !EndsWith(args[j].name, "_id"))
        ensures FirstIdArgument(args) == args[i].value
      {
        assert !EndsWith(args[0].name, "_id");
        assert args[1..][i - 1] == args[i];
        assert forall j :: 0 <= j < i - 1 ==> args[1..][j] == args[j + 1];
      }
    }
  }

  /** The id filter an extracted value yields: `is not None` guards it.  A value
      that is not an integer compares unequal to every row id, which excludes
      nothing, the same as no filter. */
  function SelfId(v: Value): Option<int>
  {
    if v.PyInt? then Some(v.i) else None
  }

  /** `BaseValidator.__init__`: a falsy `session` fails first, a falsy `request_data`
      next; otherwise the validator keeps the first `_id` argument. */
  function InitBaseValidator(args: seq<Argument>): (r: Result<Option<int>>)
    ensures r == Err(DatabaseConnection) <==> !Truthy(Get(args, "session"))
    ensures r == Err(RequestDataMissing) <==> Truthy(Get(args, "session")) && !Truthy(Get(args, "request_data"))
    ensures r.Ok? ==> r.value == SelfId(FirstIdArgument(args))
  {
    if !Truthy(Get(args, "session")) then Err(DatabaseConnection)
    else if !Truthy(Get(args, "request_data")) then Err(RequestDataMissing)
    else Ok(SelfId(FirstIdArgument(args)))
  }

  /** The update services of the `backend.*` package take `(cls, session, id,
      request_data)`: `id` does not end in `_id`, so no id is extracted and the row
      being updated is not excluded from the uniqueness check. */
  lemma PlainIdParameterIsIgnored(id: int)
    ensures InitBaseValidator([Argument("cls", PyObject), Argument("session", PyObject),
                               Argument("id", PyInt(id)), Argument("request_data", PyObject)]) == Ok(None)
  {
    var args := [Argument("cls", PyObject), Argument("session", PyObject),
                 Argument("id", PyInt(id)), Argument("request_data", PyObject)];
    assert !EndsWith("cls", "_id") && !EndsWith("session", "_id") && !EndsWith("request_data", "_id");
    assert !EndsWith("id", "_id");
    FourArguments(args);
    var rest := args[2..];
    assert rest[0].name == "id" && rest[1..][0].name == "request_data" && rest[1..][1..] == [];
    assert FirstIdArgument(rest[1..]) == FirstIdArgument(rest[1..][1..]);
  }

  /** `session` second and `request_data` fourth: both are found and truthy. */
  lemma FourArguments(args: seq<Argument>)
    requires |args| == 4 && args[1] == Argument("session", PyObject) && args[3] == Argument("request_data", PyObject)
    requires args[0].name == "cls" && args[2].name != "request_data"
    ensures Get(args, "session") == PyObject && Get(args, "request_data") == PyObject
    ensures FirstIdArgument(args) == FirstIdArgument(args[2..])
  {
    var a1 := args[1..];
    var a2 := a1[1..];
    var a3 := a2[1..];
    assert a1[0] == args[1] && a2[0] == args[2] && a3[0] == args[3];
    assert "cls" != "session" && "cls" != "request_data" && "session" != "request_data";
    assert Get(a3, "request_data") == PyObject;
    assert Get(a2, "request_data") == Get(a3, "request_data");
    assert Get(args, "request_data") == Get(a1, "request_data") == Get(a2, "request_data");
    assert !EndsWith("cls", "_id") && !EndsWith("session", "_id");
    assert a2 == args[2..];
  }

  /** Consequently such an update that keeps a teacher's own name is rejected. */
  lemma SrcTeacherUpdateKeepingNameFails(id: int, teachers: map<int, FullName>, items: seq<SubjectHours>,
                                         subjectTable: set<int>)
    requires id in teachers
    requires DistinctIds(items) && Ids(items) <= subjectTable
    ensures var selfId := InitBaseValidator([Argument("cls", PyObject), Argument("session", PyObject),
                                             Argument("id", PyInt(id)), Argument("request_data", PyObject)]);
      selfId.Ok? && ValidateTeacher(teachers[id], items, selfId.value, teachers, subjectTable)
        == Err(DuplicateTeacher(teachers[id].Display()))
  {
    PlainIdParameterIsIgnored(id);
    SubjectsValidity(items, subjectTable);
    assert id in Clashes(teachers, teachers[id], None);
  }

  /** A parameter named with the `_id` suffix is picked up. */
  lemma SuffixedIdParameterIsUsed(id: int)
    ensures InitBaseValidator([Argument("cls", PyObject), Argument("session", PyObject),
                               Argument("subject_id", PyInt(id)), Argument("request_data", PyObject)]) == Ok(Some(id))
  {
    var args := [Argument("cls", PyObject), Argument("session", PyObject),
                 Argument("subject_id", PyInt(id)), Argument("request_data", PyObject)];
    assert !EndsWith("cls", "_id") && !EndsWith("session", "_id");
    assert EndsWith("subject_id", "_id") by {
      assert "subject_id"[|"subject_id"| - 3..] == "_id";
    }
    FourArguments(args);
    assert args[2..][0] == args[2];
    assert FirstIdArgument(args) == PyInt(id);
  }

  /** The keyword arguments a decorator passes to a validator's constructor. */
  type Kwargs = map<string, Value>

  function KwGet(kwargs: Kwargs, key: string): Value
  {
    if key in kwargs then kwargs[key] else PyNone
  }

  /** `validate_teacher_request` of the `app` package: `request_data` must be truthy;
      `teacher_id` and `request_data` are passed on by name. */
  function AppTeacherKwargs(args: seq<Argument>): (r: Result<Kwargs>)
    ensures r.Err? <==> !Truthy(Get(args, "request_data"))
    ensures r.Err? ==> r.error == RequestDataMissing
    ensures r.Ok? ==> KwGet(r.value, "teacher_id") == Get(args, "teacher_id")
  {
    if !Truthy(Get(args, "request_data")) then Err(RequestDataMissing)
    else Ok(map["request_data" := Get(args, "request_data"), "teacher_id" := Get(args, "teacher_id")])
  }

  /** `TeacherValidator.__init__` reads `teacher_id`. */
  function AppTeacherSelfId(kwargs: Kwargs): Option<int>
  {
    SelfId(KwGet(kwargs, "teacher_id"))
  }

  /** `validate_student_group_request` of the `app` package passes `student_group_id`. */
  function AppStudentGroupKwargs(args: seq<Argument>): (r: Result<Kwargs>)
    ensures r.Err? <==> !Truthy(Get(args, "request_data"))
    ensures r.Err? ==> r.error == RequestDataMissing
    ensures r.Ok? ==> r.value.Keys == {"student_group_id", "request_data"}
  {
    if !Truthy(Get(args, "request_data")) then Err(RequestDataMissing)
    else Ok(map["student_group_id" := Get(args, "student_group_id"), "request_data" := Get(args, "request_data")])
  }

  /** `StudentGroupValidator.__init__` reads the key `_student_group_id`. */
  function AppStudentGroupSelfId(kwargs: Kwargs): Option<int>
  {
    SelfId(KwGet(kwargs, "_student_group_id"))
  }

  /** The teacher decorator hands the update's own id to the validator. */
  lemma AppTeacherExcludesSelf(args: seq<Argument>, id: int)
    requires Truthy(Get(args, "request_data")) && Get(args, "teacher_id") == PyInt(id)
    ensures AppTeacherKwargs(args).Ok? && AppTeacherSelfId(AppTeacherKwargs(args).value) == Some(id)
  {
  }

  /** The student-group decorator and constructor disagree on the key, so whatever
      the arguments, no id is ever excluded; an update that keeps the group's own
      name is therefore rejected as a duplicate of itself. */
  lemma AppStudentGroupNeverExcludesSelf(args: seq<Argument>, id: int, groups: map<int, string>,
                                         items: seq<SubjectHours>, subjectTable: set<int>)
    requires AppStudentGroupKwargs(args).Ok?
    requires id in groups
    requires DistinctIds(items) && Ids(items) <= subjectTable
    ensures AppStudentGroupSelfId(AppStudentGroupKwargs(args).value) == None
    ensures ValidateStudentGroup(groups[id], items, AppStudentGroupSelfId(AppStudentGroupKwargs(args).value),
                                 groups, subjectTable) == Err(DuplicateStudentGroup(groups[id]))
  {
    var kwargs := AppStudentGroupKwargs(args).value;
    assert "_student_group_id" !in kwargs;
    SubjectsValidity(items, subjectTable);
    assert id in Clashes(groups, groups[id], None);
  }
}
