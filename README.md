# school_schedule backend: association tables, validators and repositories

This project models the data-maintenance core of the school_schedule backend, a
FastAPI and SQLAlchemy service that stores teachers, student groups, subjects
and classrooms. It also stores the many-to-many association tables
TeacherSubject (teaching hours) and StudentGroupSubject (study hours). The
repository exists in three package generations, `backend.*` (`src/backend`),
`src.*` (`src/entities`) and `app.*`. Their copies of the same routines are
modelled once and told apart by parameters where they differ.

- `errors.dfy`: the exceptions the code raises, as an `Error` value inside a
  `Result`.
- `text.dfy`: the Python string primitives the code uses (`strip`, `lstrip`,
  `rstrip`, `replace`, `split`, `join`, `str.isspace`) and the Cyrillic
  character classes of the regular expressions.
- `numerals.dfy`: `str(n)` and `int(s)` for decimal numerals. The group and
  room patterns are characterised through them.
- `reconciler.dfy`: the association-table reconciler shared by the seven
  `_update_teacher_subjects` / `_update_student_group_subjects` copies.
  - The pure part covers the request dict, the remove/add/update sets, the
    guarded plan of DELETE, CASE UPDATE and INSERT, and the effect of each
    statement.
  - The `AssociationTable` class executes it on a table grouped by owner.
- `validators.dfy`: the request validators:
  - repeated subject ids (`Counter`), then ids missing from the Subject table;
  - owner-name uniqueness with optional self-exclusion;
  - how each decorator or `BaseValidator` finds the id to exclude.
- `base.dfy`: `BaseRepository` and `BaseManager`:
  - load-strategy dispatch, pagination, `get_by_id` and `_get_related_model`;
  - the `update_fields` merge, as an `Entity` class with loop methods;
  - the `__dict__` snapshot the delete methods return.
- `teachers.dfy`, `student_groups.dfy`, `subjects.dfy`, `classrooms.dfy`:
  - each table as a repository class holding a map of rows and the next id;
  - the loaded ORM object as a class whose fields the update path sets;
  - create, create_many, update, delete and the validated service entry points.
- `schemas.dfy`: the Pydantic request schemas:
  - the name patterns as predicates, each with a characterisation lemma;
  - the length, capacity and non-empty-subject rules;
  - how a body fares as a whole: accepted; refused with 400 by the first field
    validator that raises; or refused with 422 listing the fields whose `Field`
    constraints fail.
- `utils.dfy`: `path_to_dotted_string` / `convert_api_path`, the three
  `parse_cors` variants, and the `ApiPrefix` settings class.

Abstractions:
- A database table is a `map` from id to row.
- An association table is a map from owner id to a subject→hours map.
- A transaction either fails before any write or applies all of its writes.
- The database's refusals become `IntegrityError`:
  - unique names;
  - the composite primary key of an association row;
  - foreign keys.

## Model

| member | source | states |
|---|---|---|
| Reconciler.RequestMap | backend/src/backend/entities/teacher/repository.py:104-106 | the request dict has exactly the requested subject ids as keys |
| Reconciler.RequestMapLastWins | backend/src/backend/entities/teacher/repository.py:104-106 | a repeated id keeps the hours of its last occurrence |
| Reconciler.RequestMapDistinct | backend/src/backend/entities/teacher/repository.py:104-106 | with distinct ids every item's hours survive and the dict has one entry per item |
| Reconciler.RequestMapDropsEarlierDuplicate | backend/src/backend/entities/teacher/repository.py:104-106 | `[(7,2),(7,5)]` becomes `{7: 5}`: the earlier hours are lost, which is why the validators reject repeats first |
| Reconciler.DiffPartition | backend/src/backend/entities/teacher/repository.py:111-122 | to_remove, to_add and to_update are pairwise disjoint, lie in the right key sets, and together are exactly the ids whose row must change |
| Reconciler.DiffEmptyIff | backend/src/backend/entities/teacher/repository.py:111-122 | all three sets are empty exactly when the current map equals the request |
| Reconciler.DiffExample | backend/app/entities/teacher/repository.py:92-110 | current {1:20, 2:10} against request {2:15, 3:5} removes 1, updates 2 and adds 3 |
| Reconciler.Restrict | backend/src/backend/entities/teacher/repository.py:138-149 | the projection `{id: request[id] for id in ids}` that builds the CASE branches; what it does to the table is stated by CaseUpdateRows and PlanReachesRequest |
| Reconciler.PlanEmptyIff | backend/src/backend/entities/teacher/repository.py:124-162 | the guards skip all three statements exactly when the request is unchanged |
| Reconciler.IfIssuedEffect | backend/src/backend/entities/teacher/repository.py:124-162 | a statement its `if <set>:` guard skips would have changed nothing anyway |
| Reconciler.PlanReachesRequest | backend/src/backend/entities/teacher/repository.py:124-162 | running DELETE, CASE UPDATE, INSERT on the current map yields exactly the requested map |
| Reconciler.DeleteThenUpdate | backend/src/backend/entities/teacher/repository.py:124-149 | after the delete and the CASE update the owner holds the requested hours of exactly its surviving subjects |
| Reconciler.CaseUpdateRows | backend/src/backend/entities/teacher/repository.py:138-149 | the CASE gives each to_update row its requested hours; every other row of the owner keeps its hours through `else_` |
| Reconciler.ExecuteAllProjects | backend/src/backend/entities/teacher/repository.py:125-137 | statements filtered by the owner id change that owner's map as planned and leave every other owner's rows alone |
| Reconciler.ReconcileCorrect | backend/src/backend/entities/teacher/repository.py:103-164 | on the whole table, the owner ends with exactly the request, other owners are untouched, and an unchanged request changes nothing |
| Reconciler.ReconcileOutcome | backend/app/entities/student_group/services.py:92-150 | the issued statements are empty exactly when the request is unchanged, and the owner ends with the request |
| Reconciler.InsertedBatchesSpec | backend/src/backend/entities/teacher/repository.py:33-42 | after `create_many` each fresh owner holds exactly its own request's subjects, and other owners keep their rows |
| Reconciler.NextBatchOwnerFresh | backend/src/backend/entities/teacher/repository.py:33-42 | the owner the next batch goes to has no association rows yet |
| Reconciler.AssociationTable.constructor | backend/src/entities/relations/models.py:15-35 | an association table starts empty |
| Reconciler.AssociationTable.InsertAll | backend/src/backend/entities/teacher/repository.py:91-101 | the create branch succeeds exactly for distinct, known subjects not yet linked; then the owner gains one row per subject with its hours; otherwise IntegrityError and nothing written |
| Reconciler.AssociationTable.InsertFresh | backend/app/entities/teacher/repository.py:78-89 | for an owner without rows, the create branch succeeds exactly for distinct known subjects and leaves the owner with exactly the requested map |
| Reconciler.AssociationTable.PendingRows | backend/src/backend/entities/student_group/repository.py:67-78 | reached only for distinct ids not yet linked to the owner, the `add_all` loop adds one pending row per requested subject with its hours and keeps the owner's existing rows |
| Reconciler.AssociationTable.InsertBatches | backend/src/backend/entities/teacher/repository.py:33-42 | the zip loop gives batch k to owner first+k in order and fails exactly when some batch is not insertable |
| Reconciler.AssociationTable.Reconcile | backend/src/entities/student_group/repository.py:98-158 | the update branch succeeds exactly when every added subject exists; then it issues the plan, the owner holds exactly the request, and other owners are unchanged |
| Reconciler.AssociationTable.ApplyUpdate | backend/app/entities/student_group/repository.py:117-157 | the three guarded statements leave the owner with exactly the request, touch no other owner, and are all skipped for an unchanged request |
| Reconciler.AssociationTable.IssueIfNonEmpty | backend/app/entities/teacher/services.py:109-147 | one guarded statement is executed and recorded exactly when its set is non-empty |
| Reconciler.AssociationTable.DeleteOwner | backend/src/entities/relations/models.py:15-35 | ON DELETE CASCADE from the owner removes the owner's rows and only those |
| Reconciler.AssociationTable.DeleteSubject | backend/src/entities/relations/models.py:15-35 | ON DELETE CASCADE from Subject removes every row naming the subject and nothing else |
| Validators.FirstOccurrences | backend/src/backend/entities/teacher/validators.py:34-35 | the `Counter` keys hold each id once and exactly the ids present |
| Validators.Repeated | backend/src/backend/entities/teacher/validators.py:34-35 | the kept keys are exactly those counted more than once |
| Validators.DuplicatesExact | backend/src/backend/entities/teacher/validators.py:34-37 | an id is reported exactly when it occurs twice or more; the report is empty exactly when the ids are distinct |
| Validators.NoRepeatsCount | backend/app/entities/teacher/validators.py:39-42 | pairwise-distinct ids occur at most once each |
| Validators.TwoPositionsCount | backend/app/entities/teacher/validators.py:39-42 | an id at two positions is counted more than once |
| Validators.IdList | backend/src/backend/entities/teacher/validators.py:34 | the id list is the request's ids, position by position |
| Validators.SubjectsValidity | backend/src/backend/entities/teacher/validators.py:33-43 | the subject checks pass exactly for distinct, existing ids; a repeat reports exactly the repeated ids; otherwise exactly the missing ids are reported |
| Validators.Clashes | backend/src/entities/student_group/validators.py:21-27 | the clashing rows are those with an equal key, minus the excluded id when one is set |
| Validators.CheckDuplicateTeacher | backend/src/backend/entities/teacher/validators.py:20-31 | passes exactly when no other teacher has all three name parts equal; a failure carries a clashing teacher's name |
| Validators.CheckDuplicateStudentGroup | backend/src/entities/student_group/validators.py:21-30 | passes exactly when no other group has the name; a failure carries the clashing group's name |
| Validators.CheckDuplicateSubject | backend/src/backend/entities/subject/validators.py:14-21 | passes exactly when no other subject has the name; a failure carries the clashing subject's name |
| Validators.ValidateTeacherSpec | backend/src/backend/entities/teacher/validators.py:45-50 | teacher validation passes exactly for distinct known subjects and a free full name; a subject failure wins over a name clash |
| Validators.ValidateStudentGroupSpec | backend/src/entities/student_group/validators.py:44-49 | group validation passes exactly for distinct known subjects and a free name; a subject failure wins |
| Validators.OwnNameNeedsSelfExclusion | backend/src/backend/entities/subject/validators.py:17-18 | keeping one's own unique name passes with the id excluded and fails without it |
| Validators.OwnFullNameNeedsSelfExclusion | backend/src/backend/entities/teacher/validators.py:27-28 | the same for a teacher's full name |
| Validators.Get | backend/src/backend/entities/base.py:176-181 | a found value is bound to that parameter name; an absent name gives None |
| Validators.FirstIdArgumentSpec | backend/src/backend/entities/base.py:186-192 | the extracted id is the value of the first parameter whose name ends in `_id`, else None |
| Validators.InitBaseValidator | backend/src/backend/entities/base.py:173-192 | a falsy session raises DatabaseConnectionError; then a falsy request_data raises RequestDataMissing; otherwise the first `_id` argument is kept |
| Validators.PlainIdParameterIsIgnored | backend/src/backend/entities/base.py:186-192 | for `(cls, session, id, request_data)` no id is extracted |
| Validators.SrcTeacherUpdateKeepingNameFails | backend/src/backend/entities/teacher/services.py:34-39 | a `backend` teacher update that keeps the teacher's own name is refused as a duplicate of itself |
| Validators.SuffixedIdParameterIsUsed | backend/src/backend/entities/base.py:186-192 | a `subject_id` parameter is picked up as the id to exclude |
| Validators.AppTeacherKwargs | backend/app/entities/teacher/validators.py:55-73 | a falsy request_data raises RequestDataMissing; otherwise `teacher_id` is passed on unchanged |
| Validators.AppTeacherExcludesSelf | backend/app/entities/teacher/validators.py:20-33 | the app teacher validator excludes the updated teacher's own id |
| Validators.AppStudentGroupKwargs | backend/app/entities/student_group/validators.py:53-71 | a falsy request_data raises RequestDataMissing; otherwise only `student_group_id` and `request_data` are passed |
| Validators.AppStudentGroupNeverExcludesSelf | backend/app/entities/student_group/validators.py:19-34 | the constructor reads `_student_group_id`, so no id is ever excluded, and keeping a group's own name is refused as a duplicate |
| Base.LoaderFor | backend/src/backend/entities/base.py:65-70 | exactly the four strategy names have a loader |
| Base.OptionsFor | backend/src/backend/entities/base.py:76-82 | one option per relationship, in relationship order, all with the chosen loader |
| Base.ApplyLoadStrategy | backend/src/backend/entities/base.py:58-82 | no relationships or no strategy leaves the statement unchanged; an unknown name raises InvalidLoadStrategy; otherwise one option per relationship is added |
| Base.SelectinAccepted | backend/src/backend/entities/base.py:65-70 | the "selectin" strategy the repositories pass never raises |
| Base.GetModel | backend/app/services/base_manager.py:18-22 | raises ValueError exactly when the manager has no model |
| Base.ManagerApplyLoadStrategy | backend/app/services/base_manager.py:24-51 | fails exactly when the model is undefined |
| Base.LoadStrategyDispatchersAgree | backend/app/services/base_manager.py:39-43 | the manager agrees with the repository wherever that succeeds, and returns a plain select where the repository raises |
| Base.ApplyPagination | backend/src/backend/entities/base.py:84-93 | a non-empty name that `hasattr` finds is handed to ORDER BY, descending on request; a column is ordered by, any other class attribute (a property, `metadata`) raises; a name the class lacks is ignored; OFFSET and LIMIT always; nothing else changes |
| Base.ListAllStatement | backend/src/backend/entities/base.py:146-154 | the `list_all` statement succeeds exactly when both the load strategy and the pagination do, and then carries the strategy's options and the pagination's ordering, offset and limit |
| Base.GetById | backend/src/backend/entities/base.py:95-109 | returns the row exactly when it exists and the strategy is accepted; a missing row raises NotFound with model and id |
| Base.ManagerGetById | backend/app/services/base_manager.py:63-72 | with a model, returns the row exactly when it exists, else NotFound; without one, ValueError |
| Base.RelatedModel | backend/src/backend/entities/base.py:111-116 | returns the related class exactly for a relationship name, else ValueError |
| Base.IndexById | backend/src/backend/entities/base.py:127 | every existing object's id is indexed, at the position of the last object with that id |
| Base.IndexExisting | backend/src/backend/entities/base.py:127 | the index is built exactly when every existing object has an `id`; otherwise reading `item.id` raises AttributeError |
| Base.MergeChecked | backend/src/backend/entities/base.py:125-138 | the list branch succeeds exactly when every existing object has an `id` and every request item that matches none names only attributes of the related class; then the result is the merge; otherwise AttributeError or TypeError |
| Base.MergeAllSpec | backend/src/backend/entities/base.py:125-138 | in the merge that `MergeChecked` performs, nothing is removed; existing objects only gain or overwrite attributes; objects no request item names are untouched; the unmatched items are appended in order |
| Base.MergeAllUpdatesMatched | backend/src/backend/entities/base.py:129-134 | a matched item's field lands on the object it names unless a later item overrides it |
| Base.MergeAllKeeps | backend/src/backend/entities/base.py:129-134 | a field that no later item writes keeps its value |
| Base.ApplyField | backend/src/backend/entities/base.py:121-141 | one dumped field: None or an unknown name changes nothing; an unloaded relationship raises MissingGreenlet; a scalar on a loaded attribute is assigned and touches no other attribute; only the list branch can raise anything else |
| Base.ApplyFields | backend/src/backend/entities/base.py:118-143 | `update_fields` never adds or removes attributes |
| Base.ApplyFieldsSkips | backend/src/backend/entities/base.py:121-122 | attributes that the request leaves out or gives as None keep their value |
| Base.ApplyFieldsOverwrites | backend/src/backend/entities/base.py:140-141 | a scalar given for an existing attribute is its new value when no later field names it |
| Base.UnloadedRelationRaises | backend/src/backend/entities/base.py:119-122 | a request giving a value for a relationship the entity has not loaded never succeeds, and with only scalar fields before it the error is MissingGreenlet |
| Base.IdLessObjectsRaise | backend/src/backend/entities/base.py:125-127 | merging a list into a non-empty relationship whose objects have no `id` raises AttributeError |
| Base.Entity.constructor | backend/src/backend/entities/base.py:119 | the loaded entity holds the given attributes |
| Base.Entity.MergeList | backend/src/backend/entities/base.py:125-138 | the in-place loop over the request items succeeds exactly when `MergeChecked` does and then leaves the list attribute equal to its result; an object without `id` raises before anything changes; a request item that cannot be built raises after the items before it have already been merged into the list |
| Base.Entity.UpdateFields | backend/src/backend/entities/base.py:118-143 | the in-place loop over the dumped fields reaches the state `ApplyFields` describes, or fails with its error |
| Base.PublicAttributes | backend/src/entities/student_group/repository.py:69-73 | the snapshot keeps exactly the keys not starting with `_`, with their values |
| Base.Construct | backend/app/entities/teacher/repository.py:70 | `Model(**kwargs)` accepts exactly keywords naming mapped attributes, else TypeError |
| Base.SnapshotDropsState | backend/app/entities/teacher/repository.py:61-70 | the raw `__dict__` is refused by the constructor, while the filtered snapshot is exactly the column values and is accepted |
| Base.AppendedSpec | backend/src/backend/entities/subject/repository.py:15-22 | a flushed batch gets consecutive ids in request order and the old rows stay |
| Base.AppendedSnoc | backend/src/backend/entities/classroom/repository.py:33-38 | one more request in the loop appends one more row |
| Teachers.DeleteSnapshotRebuilds | backend/app/entities/teacher/repository.py:61-70 | the delete snapshot rebuilds the deleted teacher exactly; the raw `__dict__` would be refused |
| Teachers.ColumnsRoundTrip | backend/app/entities/teacher/repository.py:61-70 | reading a teacher back from its column values gives the teacher |
| Teachers.NewTeacher | backend/app/entities/teacher/services.py:20-24 | a new teacher carries exactly the three requested names and is active |
| Teachers.SubjectLists | backend/src/backend/entities/teacher/repository.py:33-42 | the batch's subject lists are the requests' own lists, in order |
| Teachers.TeacherOrderBy | backend/src/backend/entities/base.py:87-91 | ordering teachers by `name` raises, since it is a property; ordering by `last_name` adds that column to ORDER BY |
| Teachers.SubjectListUpdate | backend/src/backend/entities/base.py:118-143 | `update_fields` cannot change a teacher's subjects: the unloaded relationship raises MissingGreenlet; a loaded non-empty one raises AttributeError for the missing `id`; a loaded empty one raises TypeError, as TeacherSubject has no `id` keyword |
| Teachers.Teacher.Load | backend/src/backend/entities/teacher/repository.py:51-53 | the loaded object holds the row's values |
| Teachers.Teacher.SetAttr | backend/src/backend/entities/teacher/repository.py:75-79 | `setattr` of a name column changes that column only |
| Teachers.Teacher.SetName | backend/src/backend/entities/teacher/repository.py:65-80 | the setattr loop gives the three name columns the requested values and leaves `is_active` alone |
| Teachers.Teacher.SetActiveFlag | backend/src/backend/entities/teacher/repository.py:82-83 | `is_active` becomes the request's flag, the names are unchanged |
| Teachers.TeacherRepository.constructor | backend/src/backend/entities/teacher/repository.py:19-20 | an empty Teacher table with empty TeacherSubject |
| Teachers.TeacherRepository.Names | backend/app/entities/teacher/validators.py:25-33 | the duplicate query sees every teacher's full name |
| Teachers.TeacherRepository.Create | backend/app/entities/teacher/repository.py:18-33 | succeeds exactly for distinct known subjects; then a new teacher under the next id, with one TeacherSubject per requested subject; otherwise IntegrityError and nothing written |
| Teachers.TeacherRepository.CreateMany | backend/src/backend/entities/teacher/repository.py:33-42 | one teacher per request with consecutive ids, each linked to its own subjects; any refusal rolls the batch back |
| Teachers.TeacherRepository.AddTeachers | backend/src/backend/entities/teacher/repository.py:36-40 | the comprehension and `add_all` append one teacher per request in order and keep the old rows |
| Teachers.TeacherRepository.Update | backend/src/backend/entities/teacher/repository.py:50-60 | NotFound when absent; otherwise names and `is_active` come from the request and the subjects are reconciled to exactly the request, other teachers untouched; a failure writes nothing |
| Teachers.TeacherRepository.Delete | backend/app/entities/teacher/repository.py:61-70 | NotFound when absent; otherwise returns the public-attribute snapshot, removes the teacher and cascades its TeacherSubject rows only |
| Teachers.TeacherRepository.ValidatedCreate | backend/app/entities/teacher/services.py:14-32 | a validation failure is returned before any write; a validated create always succeeds and keeps full names unique |
| Teachers.TeacherRepository.ValidatedUpdate | backend/app/entities/teacher/services.py:34-54 | a validation failure writes nothing; a validated update succeeds exactly for an existing teacher; with self-exclusion it keeps full names unique |
| StudentGroups.ColumnsRoundTrip | backend/src/entities/student_group/repository.py:67-76 | reading a group back from its columns gives the group (without capacity where the model has no column) |
| StudentGroups.DeleteSnapshotRebuilds | backend/src/entities/student_group/repository.py:67-76 | the delete snapshot rebuilds the deleted group exactly; the raw `__dict__` would be refused |
| StudentGroups.NewGroup | backend/src/backend/entities/student_group/repository.py:24-26 | a new group takes the request's name, and its capacity only where the model has the column |
| StudentGroups.NamesOf | backend/src/entities/student_group/validators.py:21-24 | the duplicate query sees every group's name |
| StudentGroups.CreateKeepsConsistent | backend/src/entities/student_group/repository.py:21-37 | a new group under a free name keeps ids, association owners and unique names consistent |
| StudentGroups.RenameKeepsConsistent | backend/src/entities/student_group/repository.py:47-65 | a rename to a name no other group has keeps the table consistent |
| StudentGroups.StudentGroup.Load | backend/src/backend/entities/student_group/repository.py:48-50 | the loaded object holds the row's values |
| StudentGroups.StudentGroup.SetAttr | backend/src/backend/entities/student_group/repository.py:52-54 | `setattr` of `name` changes the name only |
| StudentGroups.StudentGroup.SetName | backend/src/backend/entities/student_group/repository.py:52-54 | the setattr loop writes only the name; the capacity is unchanged |
| StudentGroups.StudentGroup.UpdateCapacity | backend/src/entities/student_group/repository.py:18-19 | `_update_capacity` sets the capacity and nothing else |
| StudentGroups.StudentGroupRepository.constructor | backend/src/entities/student_group/repository.py:15-16 | an empty StudentGroup table with empty StudentGroupSubject |
| StudentGroups.StudentGroupRepository.Create | backend/src/entities/student_group/repository.py:21-37 | succeeds exactly for a free name and distinct known subjects; then a new group with one row per subject; otherwise IntegrityError and nothing written |
| StudentGroups.StudentGroupRepository.Update | backend/src/backend/entities/student_group/repository.py:44-59 | NotFound when absent; otherwise only the name changes and the subjects are reconciled to exactly the request; a taken name or unknown added subject writes nothing |
| StudentGroups.StudentGroupRepository.UpdateLoaded | backend/src/entities/student_group/repository.py:53-65 | on a loaded group: the name is set, subjects are reconciled, and a failing flush writes nothing |
| StudentGroups.StudentGroupRepository.Delete | backend/src/entities/student_group/repository.py:67-76 | NotFound when absent; otherwise returns the snapshot, removes the group and cascades its rows only |
| StudentGroups.StudentGroupRepository.ValidatedCreate | backend/app/entities/student_group/services.py:22-34 | a validation failure is returned before any write; a validated create always succeeds |
| StudentGroups.StudentGroupRepository.ValidatedUpdate | backend/app/entities/student_group/services.py:37-57 | a validation failure writes nothing; otherwise the update succeeds exactly for an existing group and changes only its name and subjects |
| Subjects.DeleteSnapshotRebuilds | backend/src/backend/entities/subject/repository.py:50-59 | the delete snapshot rebuilds the deleted subject exactly; the raw `__dict__` would be refused |
| Subjects.ColumnsRoundTrip | backend/src/backend/entities/subject/repository.py:50-59 | reading a subject back from its columns gives the subject |
| Subjects.NamesOf | backend/src/backend/entities/subject/validators.py:15 | the duplicate query sees every subject's name |
| Subjects.NewSubjects | backend/src/backend/entities/subject/repository.py:19-21 | one subject per request, with that request's name, in order |
| Subjects.AppendedKeepsUnique | backend/src/backend/entities/subject/repository.py:15-22 | a batch of fresh, pairwise different names keeps subject names unique |
| Subjects.CascadeKeepsReferences | backend/src/backend/entities/subject/repository.py:57-58 | after the cascade every association row still names an existing subject |
| Subjects.Subject.Load | backend/src/backend/entities/subject/repository.py:42 | the loaded object holds the row's values |
| Subjects.Subject.Rename | backend/src/backend/entities/subject/repository.py:44-47 | the name ends as requested and is written exactly when it differed |
| Subjects.SubjectRepository.constructor | backend/src/backend/entities/subject/repository.py:12-13 | an empty Subject table with empty association tables |
| Subjects.SubjectRepository.Create | backend/src/backend/entities/subject/repository.py:24-31 | succeeds exactly for a free name and stores it under the next id; otherwise IntegrityError and nothing written |
| Subjects.SubjectRepository.CreateMany | backend/src/backend/entities/subject/repository.py:15-22 | succeeds exactly for a fresh batch and appends one subject per request in order; otherwise the batch is rolled back |
| Subjects.SubjectRepository.AddAll | backend/src/backend/entities/subject/repository.py:19-22 | the loop gives the rows consecutive ids in request order |
| Subjects.SubjectRepository.Update | backend/app/entities/subject/repository.py:28-37 | NotFound when absent; otherwise the name ends as requested, committed exactly when it differed; an unchanged name leaves the table as it was |
| Subjects.SubjectRepository.Delete | backend/app/entities/subject/repository.py:39-48 | NotFound when absent; otherwise returns the snapshot, removes the subject, and cascades exactly its TeacherSubject and StudentGroupSubject rows |
| Subjects.SubjectRepository.ValidatedCreate | backend/app/entities/subject/services.py:13-22 | a taken name is refused with DuplicateSubjectName before any write; otherwise the create succeeds |
| Subjects.SubjectRepository.ValidatedUpdate | backend/app/entities/subject/services.py:24-35 | a name clash writes nothing; otherwise the update succeeds exactly for an existing subject and stores the requested name |
| Subjects.RenameKeepsUnique | backend/app/entities/subject/services.py:31-34 | renaming to a name no other subject has keeps names unique |
| Subjects.SrcUpdateKeepingNameFails | backend/src/backend/entities/subject/validators.py:14-21 | a `backend` subject update that keeps its own name is refused as a duplicate of itself |
| Subjects.SelfExcludedKeepsName | backend/app/entities/subject/validators.py:17-18 | with its id excluded, a subject keeping its own name passes |
| Classrooms.AppModelRefusesCapacity | backend/app/entities/classroom/repository.py:30-33 | the `app` Classroom constructor refuses the `capacity` keyword whatever the request |
| Classrooms.CapacityModelAcceptsRequest | backend/src/backend/entities/classroom/repository.py:43-45 | with the column mapped, the same call builds exactly the requested row |
| Classrooms.DeleteSnapshotRebuilds | backend/src/backend/entities/classroom/repository.py:75-84 | the delete snapshot rebuilds the deleted classroom exactly; the raw `__dict__` would be refused |
| Classrooms.ColumnsArePublic | backend/app/entities/classroom/repository.py:65-69 | every column is a mapped attribute with a public name |
| Classrooms.ColumnsRoundTrip | backend/app/entities/classroom/repository.py:63-72 | reading a classroom back from its columns gives the classroom |
| Classrooms.NamesOf | backend/src/backend/entities/classroom/repository.py:60-73 | the unique index sees every classroom's name |
| Classrooms.RequestNames | backend/src/backend/entities/classroom/repository.py:34-37 | the batch's names, in request order |
| Classrooms.NewRows | backend/src/backend/entities/classroom/repository.py:34-37 | one row per request, with its name and capacity, in order |
| Classrooms.AppendedKeepsConsistent | backend/src/backend/entities/classroom/repository.py:30-38 | a fresh batch keeps ids and unique names consistent |
| Classrooms.UpdateKeepsConsistent | backend/src/backend/entities/classroom/repository.py:60-73 | an update under a free name keeps the table consistent |
| Classrooms.Classroom.Load | backend/src/backend/entities/classroom/repository.py:66 | the loaded object holds the row's values |
| Classrooms.Classroom.SetName | backend/src/backend/entities/classroom/repository.py:18-21 | the name ends as requested and is written exactly when it differed |
| Classrooms.Classroom.SetCapacity | backend/app/entities/classroom/repository.py:21-23 | a None request keeps the capacity; otherwise the capacity ends as requested, written only when it differed; reading it fails where the model has no such attribute |
| Classrooms.ClassroomRepository.constructor | backend/src/backend/entities/classroom/repository.py:15-16 | an empty Classroom table |
| Classrooms.ClassroomRepository.Create | backend/src/backend/entities/classroom/repository.py:40-52 | with the column: succeeds exactly for a free name and stores name and capacity under the next id; in `app`: always TypeError; failures write nothing |
| Classrooms.ClassroomRepository.CreateMany | backend/src/backend/entities/classroom/repository.py:30-38 | succeeds exactly for a fresh batch, appending one classroom per request in order; otherwise the batch is rolled back |
| Classrooms.ClassroomRepository.BuildAll | backend/src/backend/entities/classroom/repository.py:34-37 | the constructor loop builds exactly the requested rows, or stops at the first TypeError |
| Classrooms.ClassroomRepository.AddAll | backend/src/backend/entities/classroom/repository.py:38 | `add_all` gives the rows consecutive ids in order |
| Classrooms.ClassroomRepository.Update | backend/src/backend/entities/classroom/repository.py:60-73 | NotFound when absent; otherwise the name is the request's, the capacity the request's when given and unchanged otherwise, and the subjects are ignored; a taken name or missing attribute writes nothing |
| Classrooms.ClassroomRepository.Delete | backend/app/entities/classroom/repository.py:63-72 | NotFound when absent; otherwise returns the snapshot and removes the classroom |
| Schemas.TeacherNameFormSpec | backend/src/backend/entities/teacher/schemas.py:25-32 | a name part matches exactly when it is one capitalised Cyrillic word (Ё/ё included) or two joined by a hyphen |
| Schemas.HyphenatedSplit | backend/app/entities/teacher/schemas.py:27 | in two words joined by a hyphen, the first hyphen sits right after the first word and splits the name back into the two words |
| Schemas.TrailingNewlineAccepted | backend/src/backend/entities/teacher/schemas.py:27 | `re.match` with `$` lets a matching name followed by "\n" through |
| Schemas.GroupNumberSpec | backend/src/backend/entities/student_group/schemas.py:30 | the group number is exactly `str(n)` for n in 1..11 |
| Schemas.DashedGroupFormSpec | backend/src/backend/entities/student_group/schemas.py:28-35 | a `backend` group name is a year 1..11, a dash and a capital А..Я |
| Schemas.PlainGroupFormSpec | backend/app/entities/student_group/schemas.py:27-34 | an `app` group name is a year 1..11 followed directly by a capital А..Я |
| Schemas.RoomNumberSpec | backend/src/backend/entities/classroom/schemas.py:24-31 | the room number is exactly `str(n)` for n in 1..1000 |
| Schemas.SubjectNameShape | backend/src/backend/entities/subject/schemas.py:25-35 | an accepted subject name starts with a capital, ends with a letter, and holds only Cyrillic letters, hyphens and white space (so no trailing newline) |
| Schemas.CapWordIsSubjectName | backend/app/entities/subject/schemas.py:28-30 | every single capitalised word is a valid subject name |
| Schemas.Judge | backend/src/backend/entities/teacher/schemas.py:17-53 | accepted exactly when every field passes; 400 exactly when some validator raises, naming the first; otherwise 422 listing exactly the failing fields |
| Schemas.PassedPrefix | backend/app/entities/teacher/schemas.py:17-53 | fields that pass do not change the verdict of those after them |
| Schemas.StrCheck | backend/src/backend/entities/teacher/schemas.py:17-32 | passes exactly for an in-bounds, matching value; a length failure is a 422, a pattern failure a 400 |
| Schemas.CapacityCheck | backend/src/backend/entities/student_group/schemas.py:19-26 | an optional capacity passes exactly when absent or in 1..50, and never raises |
| Schemas.NonEmptySubjectsCheck | backend/src/backend/entities/teacher/schemas.py:38-53 | raises 400 exactly for an explicit empty list |
| Schemas.RequiredFlagCheck | backend/src/backend/entities/teacher/schemas.py:77-78 | a missing `is_active` is a 422 |
| Schemas.TeacherCreateAccepted | backend/src/backend/entities/teacher/schemas.py:16-53 | a teacher body is accepted exactly when the three names are in 2..30 and match, and subjects is not an explicit empty list |
| Schemas.TeacherUpdateAccepted | backend/src/backend/entities/teacher/schemas.py:77-96 | an update body is accepted exactly when the create rules hold and `is_active` is present |
| Schemas.EmptySubjectsRefused | backend/app/entities/teacher/schemas.py:44-53 | an empty subject list is a 400 even when name lengths are out of bounds, unless a name part fails its pattern first |
| Schemas.OmittedSubjectsAccepted | backend/src/backend/entities/teacher/schemas.py:39-42 | a body without `subjects` gets the empty default unchecked and is accepted |
| Schemas.UpdateWithoutFlag | backend/app/entities/teacher/schemas.py:59-60 | an otherwise valid update without `is_active` is a 422 naming exactly that field |
| Schemas.ExampleNamesMatch | backend/src/backend/entities/teacher/schemas.py:63-65 | the documented example names match |
| Schemas.HyphenatedName | backend/src/backend/entities/teacher/schemas.py:27 | two capitalised words joined by a hyphen match |
| Schemas.SingleName | backend/src/backend/entities/teacher/schemas.py:27 | one capitalised word matches |
| Schemas.TeacherExampleAccepted | backend/src/backend/entities/teacher/schemas.py:59-72 | the documented example request is accepted |
| Schemas.ResponseIsActive | backend/src/backend/entities/teacher/schemas.py:107 | a response without `is_active` reports true |
| Schemas.GroupAccepted | backend/src/backend/entities/student_group/schemas.py:16-67 | a group body is accepted exactly for a matching name of length 2..5, a capacity absent or in 1..50, and no explicit empty subject list |
| Schemas.GroupNameExamples | backend/src/backend/entities/student_group/schemas.py:30 | "11-Г" and "11Г" match their patterns; "0-А", "12-А" and "5-Ё" are refused |
| Schemas.SubjectExampleAccepted | backend/src/backend/entities/subject/schemas.py:42 | "Биология" is accepted |
| Schemas.SubjectBadCharacterRefused | backend/src/backend/entities/subject/schemas.py:28-34 | an in-bounds name with a foreign character, a lowercase start or a non-letter end is a 400 |
| Schemas.ClassroomAccepted | backend/src/backend/entities/classroom/schemas.py:13-41 | a classroom body is accepted exactly for a matching name of length 1..5 and a capacity absent or in 1..50, whatever its subjects |
| Schemas.ClassroomNameExamples | backend/src/backend/entities/classroom/schemas.py:14-43 | "111-а" is accepted; "0" and "01" are 400; "1000-а" matches but is a 422 for length |
| Numerals.DecimalIsCanonical | backend/src/backend/entities/classroom/schemas.py:26 | `str(n)` has no leading zero and reads back as n |
| Numerals.CanonicalIsDecimal | backend/src/backend/entities/classroom/schemas.py:26 | a digit string without a leading zero is `str` of its value |
| Numerals.PositiveValue | backend/src/backend/entities/classroom/schemas.py:26 | `[1-9][0-9]*` denotes a positive number |
| Numerals.ValueBelow | backend/src/backend/entities/classroom/schemas.py:26 | at most three digits denote a number below 1000 |
| Numerals.ShortDecimal | backend/src/backend/entities/classroom/schemas.py:26 | numbers below 1000 have at most three digits |
| Text.LStrip | backend/src/backend/utils/common_utils.py:28 | `lstrip` drops exactly the longest prefix of stripped characters |
| Text.RStrip | backend/src/backend/utils/common_utils.py:28 | `rstrip` drops exactly the longest suffix of stripped characters |
| Text.StripSpace | backend/src/backend/utils/common_utils.py:18 | `strip()` leaves no white space at either end |
| Text.ReplaceChar | backend/src/backend/utils/common_utils.py:28 | `replace` swaps exactly the occurrences of one character |
| Text.Split | backend/src/backend/utils/common_utils.py:18 | `split` yields at least one piece, none holding the separator |
| Text.IndexOf | backend/src/backend/utils/common_utils.py:18 | the first occurrence of a character |
| Text.SplitJoin | backend/src/backend/utils/common_utils.py:18 | joining the pieces of a split gives the input back |
| Utils.Dotted | backend/src/backend/utils/common_utils.py:24-28 | the dotted name holds no `/` and is no longer than the path |
| Utils.ConvertApiPath | backend/app/utils/common_utils.py:24-28 | a Path and its string form give the same dotted name |
| Utils.DottedIdempotent | backend/src/backend/utils/common_utils.py:24-28 | converting a dotted name again leaves it unchanged |
| Utils.DottedRoundTrip | backend/app/utils/common_utils.py:24-28 | for a path without dots, turning the dots back into slashes gives the path without its outer slashes |
| Utils.StripShape | backend/src/backend/utils/common_utils.py:26 | what `strip` keeps is part of the input and starts and ends with kept characters |
| Utils.DottedExample | backend/src/backend/utils/common_utils.py:24-28 | "/api/v1/" becomes "api.v1" |
| Utils.SplitOrigins | backend/src/backend/utils/common_utils.py:17-18 | one stripped origin per comma-separated piece, in order |
| Utils.ParseCors | backend/src/backend/utils/common_utils.py:16-21 | fails exactly for a value that is neither string nor list; a list or a `[`-string is returned unchanged; another string becomes origins |
| Utils.ParseCorsHttp | backend/app/utils/common_utils.py:16-21 | an invalid value is refused with status 400 |
| Utils.ParseCorsValueError | backend/app/utils/common.py:15-20 | an invalid value raises ValueError |
| Utils.OriginsAreClean | backend/app/utils/common.py:16-17 | no origin holds a comma or surrounding white space, and there is one origin per piece |
| Utils.OriginsRoundTrip | backend/app/utils/common.py:16-17 | for a string without white space, joining the origins with commas gives it back |
| Utils.WithLeadingSlash | backend/app/core/config.py:42-45 | the version prefix ends up starting with `/`, unchanged when it already did |
| Utils.LeadingSlashIdempotent | backend/app/core/config.py:44-45 | the normalisation is idempotent |
| Utils.ApiPrefix.constructor | backend/app/core/config.py:31-45 | fields take the given values or the defaults, and the version prefix starts with `/` |
| Utils.ApiPrefix.GetApiPrefix | backend/app/core/config.py:47-50 | the API prefix followed by the version prefix |
| Utils.ApiPrefix.BearerTokenUrl | backend/app/core/config.py:52-55 | the API prefix followed by the login path; the auth path is not part of it |
| Utils.DefaultUrls | backend/app/core/config.py:32-55 | with defaults the prefix is "/api/v1" and the token URL "/api/v1/login" |

## Left out

- Async session mechanics (`flush`, `refresh`, `commit`, `rollback`, `session.begin()`, the nested `begin` of create inside `create_many`) are not modelled as such. A create or update either fails before any write or applies all of it, which is what the enclosing transaction gives.
- SQL statement construction (select/where/CASE/insert, loader options) is modelled only by its effect on maps and sets. `Base.Select` keeps just the parts the helpers add.
- FastAPI routers, dependency wiring, settings and environment loading other than `ApiPrefix`, database management, authentication, logging and the seeders are outside the model.
- Exception classes are the `Error` datatype. Their message texts (such as the Russian `detail` strings) are not modelled.
- Executing the `list_all` statement is not modelled, and neither are the `list_*` methods built on it. `Base.ListAllStatement` models the statement itself.
- The `app` repositories import `BaseRepository` from `app/entities/base.py`, which defines only the declarative `Base` and `CustomBaseModel`. The `src/entities` one imports it from a `src/entities/base.py` that is not part of this model. Both are given the `backend` `BaseRepository` (`backend/src/backend/entities/base.py`).
- `delete_student_group` / `delete_sutdent_group` in the `app` package call `get_by_id` without `await`. The model gives them the delete of the `src` repository instead of the failure.
- The `app` validators import names that the shown modules do not define. The id a validator excludes is therefore a parameter `selfId` of the `Validated*` methods, filled as each decorator would fill it.
- `get_bound_arguments` / `func_inspect` are modelled by their result: the ordered argument bindings (`Validators.Argument`).
- `TeacherPatchRequest` and `SubjectPatchRequest`, whose fields are all optional, are not modelled.
- The per-item subject schemas are folded into the types: hours are `nat`. Upper bounds on hours and the school-shift and lesson-number ranges are not modelled.
- `AnyUrl` validation of CORS origins is not modelled: an origin is the stripped string.
- `Path` values are represented by their `str` form. Path normalisation is not modelled.
- The other `ApiPrefix` fields (`auth`, `users`, `messages`, `service`, `jwt`) are not modelled; they are plain defaults no operation reads.
- Teachers.TeacherRow.Name: the `Teacher.name` property that the duplicate error carries is modelled as "last first patronymic". Its exact formatting is not part of this model.
- Base.Entity.UpdateFields: when a field raises, the attributes already set on the in-memory entity are not described. Nothing is committed.
- StudentGroups.StudentGroupRepository.ValidatedUpdate: in the `src.*` package `update_student_group` opens `session.begin()` (backend/src/entities/student_group/services.py:41) and `update` opens a second one inside it (backend/src/entities/student_group/repository.py:53). SQLAlchemy refuses to begin a transaction on a session whose transaction is already begun, so that path raises before any write. The model describes the update as if one transaction were opened.
- Base.ApplyPagination: every name that `hasattr` finds but that is not a column is modelled as one `NotAColumn` error. This covers a relationship, a Python property and the declarative `metadata`. The model does not tell apart what SQLAlchemy does with each kind.
- Base.MergeChecked: a matched object is updated by `setattr` of every request key. The model does not check that these keys are mapped, since `setattr` on an ORM object accepts any name.
- Teachers.TeacherRepository.CreateMany: returns the new ids. The source returns None; the ids are those its rows receive.
- Subjects.SubjectRepository.CreateMany: returns the new ids. The source returns None; the ids are those its rows receive.
- Classrooms.ClassroomRepository.CreateMany: returns the new ids. The source returns None. The `app` package has no `create_many`, so the `withCapacity == false` case describes a body no caller reaches.
- The ClassroomSubject association and the classroom request's `subjects` are not written by any modelled operation, so the model keeps no classroom association table.
- Teachers.TeacherRepository.Delete: the `backend` package's `delete` returns nothing. The model returns the snapshot of the `app` methods, and the table effect is the same.

## Findings

| source | as written | input that shows it | evidently intended | confidence | as-written member | corrected member |
|---|---|---|---|---|---|---|
| backend/app/entities/classroom/repository.py:30-33 | the `app` Classroom model maps only `id` and `name`, yet `create` passes `capacity=` to its constructor, and `update` reads `classroom.capacity` when a capacity is given | a create request `{"name": "101", "capacity": null}`: SQLAlchemy's constructor raises TypeError for the unmapped keyword | a capacity column as in the `backend` Classroom model, so that create stores name and capacity and update sets the capacity when given | medium, not executed | Classrooms.AppModelRefusesCapacity | Classrooms.CapacityModelAcceptsRequest |
