/** Classrooms: the Classroom table, the loaded Classroom whose name and capacity
    the update path sets conditionally, and `ClassroomRepository` of both packages.

    The `backend` model has a nullable `capacity` column and a `subjects`
    relationship; the `app` model has only `id` and `name`, while its repository
    still passes and reads `capacity`.  `withCapacity` tells the two apart. */
module Classrooms {
  import opened Errors
  import opened Validators
  import opened Base

  /** One row of the Classroom table (the id is the key of the table map). */
  datatype ClassroomRow = ClassroomRow(name: string, capacity: Option<int>)
  {
    /** The column values of the loaded object. */
    function Columns(id: int, withCapacity: bool): map<string, Scalar>
    {
      if withCapacity then map["id" := SInt(id), "name" := SStr(name), "capacity" := NullableInt(capacity)]
      else map["id" := SInt(id), "name" := SStr(name)]
    }
  }

  /** The mapped attribute names of Classroom. */
  function ClassroomAttributes(withCapacity: bool): set<string>
  {
    if withCapacity then {"id", "name", "capacity", "subjects"} else {"id", "name"}
  }

  function ClassroomModel(withCapacity: bool): ModelInfo
  {
    if withCapacity then
      ModelInfo("Classroom", {"id", "name", "capacity"}, ClassroomAttributes(true) + DeclarativeNames,
                ["subjects"], map["subjects" := ClassroomSubjectClass])
    else ModelInfo("Classroom", {"id", "name"}, ClassroomAttributes(false) + DeclarativeNames, [], map[])
  }

  /** ClassroomPostRequest / ClassroomCreateRequest / ClassroomPutRequest /
      ClassroomUpdateRequest, once the schema has accepted it; the subject ids are
      never read by the repository. */
  datatype Request = Request(name: string, capacity: Option<int>, subjects: seq<int>)

  /** `sql_model(name=request_data.name, capacity=request_data.capacity)` */
  function NewKwargs(req: Request): map<string, Scalar>
  {
    map["name" := SStr(req.name), "capacity" := NullableInt(req.capacity)]
  }

  /** Reads a Classroom back from keyword arguments. */
  function FromKwargs(d: map<string, Scalar>): Option<ClassroomRow>
  {
    if "name" in d && d["name"].SStr? then
      if "capacity" in d && d["capacity"].SInt? then Some(ClassroomRow(d["name"].s, Some(d["capacity"].i)))
      else if "capacity" !in d || d["capacity"].SNone? then Some(ClassroomRow(d["name"].s, None))
      else None
    else None
  }

  /** The `app` model has no `capacity` attribute, so the constructor call of
      `create` is refused whatever the request, even with `capacity=None`. */
  lemma AppModelRefusesCapacity(req: Request)
    ensures Construct("Classroom", ClassroomAttributes(false), NewKwargs(req)) == Err(TypeError("Classroom"))
  {
    assert "capacity" in NewKwargs(req) && "capacity" !in ClassroomAttributes(false);
  }

  /** With the column mapped, the same call builds exactly the requested row. */
  lemma CapacityModelAcceptsRequest(req: Request)
    ensures Construct("Classroom", ClassroomAttributes(true), NewKwargs(req)) == Ok(NewKwargs(req))
    ensures FromKwargs(NewKwargs(req)) == Some(ClassroomRow(req.name, req.capacity))
  {
    var d := NewKwargs(req);
    assert d.Keys == {"name", "capacity"};
    assert d["name"] == SStr(req.name) && d["capacity"] == NullableInt(req.capacity);
  }

  /** The delete snapshot rebuilds the deleted classroom in both packages, while the
      raw `__dict__` would be refused by the constructor. */
  lemma DeleteSnapshotRebuilds(id: int, row: ClassroomRow, withCapacity: bool)
    requires !withCapacity ==> row.capacity.None?
    ensures Construct("Classroom", ClassroomAttributes(withCapacity), Loaded(row.Columns(id, withCapacity)))
      == Err(TypeError("Classroom"))
    ensures Construct("Classroom", ClassroomAttributes(withCapacity),
                      PublicAttributes(Loaded(row.Columns(id, withCapacity)))).Ok?
    ensures FromKwargs(PublicAttributes(Loaded(row.Columns(id, withCapacity)))) == Some(row)
  {
    ColumnsArePublic(id, row, withCapacity);
    SnapshotDropsState("Classroom", ClassroomAttributes(withCapacity), row.Columns(id, withCapacity));
    ColumnsRoundTrip(id, row, withCapacity);
  }

  /** Every column is a mapped attribute with a public name. */
  lemma ColumnsArePublic(id: int, row: ClassroomRow, withCapacity: bool)
    ensures forall k :: k in row.Columns(id, withCapacity) ==>
      k in ClassroomAttributes(withCapacity) && |k| > 0 && k[0] != '_'
  {
    assert "id"[0] == 'i' && "name"[0] == 'n' && "capacity"[0] == 'c';
    if withCapacity {
      assert row.Columns(id, withCapacity).Keys == {"id", "name", "capacity"};
    } else {
      assert row.Columns(id, withCapacity).Keys == {"id", "name"};
    }
  }

  /** `FromKwargs` reads back what `Columns` wrote. */
  lemma ColumnsRoundTrip(id: int, row: ClassroomRow, withCapacity: bool)
    requires !withCapacity ==> row.capacity.None?
    ensures FromKwargs(row.Columns(id, withCapacity)) == Some(row)
  {
    var d := row.Columns(id, withCapacity);
    assert d["name"] == SStr(row.name);
    if withCapacity {
      assert d["capacity"] == NullableInt(row.capacity);
    } else {
      assert "capacity" !in d;
    }
  }

  function NamesOf(classrooms: map<int, ClassroomRow>): (names: map<int, string>)
    ensures names.Keys == classrooms.Keys
    ensures forall id :: id in names ==> names[id] == classrooms[id].name
  {
    map id | id in classrooms :: classrooms[id].name
  }

  /** The names of a batch of requests, in request order. */
  function RequestNames(reqs: seq<Request>): (names: seq<string>)
    ensures |names| == |reqs| && forall i :: 0 <= i < |reqs| ==> names[i] == reqs[i].name
  {
    seq(|reqs|, i requires 0 <= i < |reqs| => reqs[i].name)
  }

  /** The rows a batch of requests builds, in request order. */
  function NewRows(reqs: seq<Request>): (rows: seq<ClassroomRow>)
    ensures |rows| == |reqs|
    ensures forall i :: 0 <= i < |reqs| ==> rows[i] == ClassroomRow(reqs[i].name, reqs[i].capacity)
  {
    seq(|reqs|, i requires 0 <= i < |reqs| => ClassroomRow(reqs[i].name, reqs[i].capacity))
  }

  /** The table invariant: ids are below `nextId`, names are unique
      (`unique=True`), and without the column no classroom has a capacity. */
  ghost predicate Consistent(classrooms: map<int, ClassroomRow>, nextId: int, withCapacity: bool)
  {
    (forall id :: id in classrooms ==> id < nextId)
    && (forall a, b :: a in classrooms && b in classrooms && a != b ==> classrooms[a].name != classrooms[b].name)
    && (!withCapacity ==> forall id :: id in classrooms ==> classrooms[id].capacity.None?)
  }

  /** A fresh batch of rows keeps the invariant. */
  lemma AppendedKeepsConsistent(classrooms: map<int, ClassroomRow>, nextId: int, withCapacity: bool, reqs: seq<Request>)
    requires Consistent(classrooms, nextId, withCapacity)
    requires FreshBatch(NamesOf(classrooms), RequestNames(reqs))
    requires withCapacity || reqs == []
    ensures Consistent(Appended(classrooms, nextId, NewRows(reqs)), nextId + |reqs|, withCapacity)
  {
    var result := Appended(classrooms, nextId, NewRows(reqs));
    AppendedSpec(classrooms, nextId, NewRows(reqs));
    forall a, b | a in result && b in result && a != b
      ensures result[a].name != result[b].name
    {
      if a !in classrooms {
        assert result[a].name == reqs[a - nextId].name;
      }
      if b !in classrooms {
        assert result[b].name == reqs[b - nextId].name;
      }
      if a in classrooms && b !in classrooms {
        assert b - nextId !in Clashes(NamesOf(classrooms), RequestNames(reqs)[b - nextId], None);
      } else if a !in classrooms && b in classrooms {
        assert a - nextId !in Clashes(NamesOf(classrooms), RequestNames(reqs)[a - nextId], None);
      } else if a !in classrooms && b !in classrooms {
        if a < b {
          assert RequestNames(reqs)[a - nextId] != RequestNames(reqs)[b - nextId];
        } else {
          assert RequestNames(reqs)[b - nextId] != RequestNames(reqs)[a - nextId];
        }
      }
    }
  }

  /** An update under a free name, keeping the capacity rule, keeps the invariant. */
  lemma UpdateKeepsConsistent(classrooms: map<int, ClassroomRow>, nextId: int, withCapacity: bool,
                              id: int, row: ClassroomRow)
    requires Consistent(classrooms, nextId, withCapacity) && id in classrooms
    requires Clashes(NamesOf(classrooms), row.name, Some(id)) == {}
    requires !withCapacity ==> row.capacity.None?
    ensures Consistent(classrooms[id := row], nextId, withCapacity)
  {
    forall other | other in classrooms && other != id
      ensures classrooms[other].name != row.name
    {
      assert other !in Clashes(NamesOf(classrooms), row.name, Some(id));
    }
  }

  /** A Classroom loaded into the session. */
  class Classroom {
    var name: string
    var capacity: Option<int>
    /** Whether the mapped class has a `capacity` attribute to read. */
    const hasCapacity: bool

    constructor Load(row: ClassroomRow, hasCapacity: bool)
      ensures Row() == row && this.hasCapacity == hasCapacity
    {
      name, capacity := row.name, row.capacity;
      this.hasCapacity := hasCapacity;
    }

    function Row(): ClassroomRow
      reads this
    {
      ClassroomRow(name, capacity)
    }

    /** `_set_name`: the name becomes the requested one, written only when it differs. */
    method SetName(newName: string) returns (changed: bool)
      modifies this
      ensures Row() == old(Row()).(name := newName)
      ensures changed <==> old(name) != newName
    {
      changed := newName != name;
      if changed {
        name := newName;
      }
    }

    /** `_set_capacity`: a `None` request keeps the capacity; otherwise the stored
        capacity is read and, when it differs, overwritten.  Reading it fails when
        the mapped class has no such attribute. */
    method SetCapacity(requested: Option<int>) returns (r: Result<bool>)
      modifies this
      ensures requested.None? ==> r == Ok(false) && Row() == old(Row())
      ensures requested.Some? && !hasCapacity ==> r == Err(AttributeError("capacity")) && Row() == old(Row())
      ensures requested.Some? && hasCapacity ==>
        r == Ok(requested != old(capacity)) && Row() == old(Row()).(capacity := requested)
    {
      if requested.None? {
        return Ok(false);
      }
      if !hasCapacity {
        return Err(AttributeError("capacity"));
      }
      var changed := requested != capacity;
      if changed {
        capacity := requested;
      }
      r := Ok(changed);
    }
  }

  /** The Classroom table. */
  class ClassroomRepository {
    var classrooms: map<int, ClassroomRow>
    /** The id the next commit assigns. */
    var nextId: int
    /** Whether the model has the `capacity` column (`backend`) or not (`app`). */
    const withCapacity: bool

    ghost predicate Valid()
      reads this
    {
      Consistent(classrooms, nextId, withCapacity)
    }

    constructor (withCapacity: bool)
      ensures Valid() && classrooms == map[] && this.withCapacity == withCapacity
    {
      classrooms := map[];
      nextId := 1;
      this.withCapacity := withCapacity;
    }

    function Names(): map<int, string>
      reads this
    {
      NamesOf(classrooms)
    }

    /** `create`: build the classroom from the request's name and capacity, commit
        (a taken name fails on the unique index), then load it back.  In the `app`
        package the constructor already refuses the `capacity` keyword. */
    method Create(req: Request) returns (r: Result<(int, ClassroomRow)>)
      requires Valid()
      modifies this
      ensures Valid()
      ensures !withCapacity ==> r == Err(TypeError("Classroom"))
      ensures withCapacity ==> (r.Ok? <==> Clashes(old(Names()), req.name, None) == {})
      ensures withCapacity && r.Err? ==> r.error == IntegrityError
      ensures r.Ok? ==> r.value == (old(nextId), ClassroomRow(req.name, req.capacity)) && nextId == old(nextId) + 1
      ensures r.Ok? ==> classrooms == old(classrooms)[r.value.0 := r.value.1]
      ensures r.Err? ==> classrooms == old(classrooms) && nextId == old(nextId)
    {
      var built := Construct("Classroom", ClassroomAttributes(withCapacity), NewKwargs(req));
      if built.Err? {
        return Err(built.error);
      }
      if !withCapacity {
        AppModelRefusesCapacity(req);
        assert false;
      }
      CapacityModelAcceptsRequest(req);
      if Clashes(Names(), req.name, None) != {} {
        return Err(IntegrityError);
      }
      var id := nextId;
      var row := ClassroomRow(req.name, req.capacity);
      classrooms := classrooms[id := row];
      nextId := nextId + 1;
      SelectinAccepted(ClassroomModel(withCapacity));
      var loaded := GetById(ClassroomModel(withCapacity), classrooms, id, Some("selectin"));
      r := Ok((id, loaded.value));
    }

    /** `create_many` of the `backend` package: inside one transaction, one
        classroom per request with its name and capacity, ids in request order.  A
        taken or repeated name fails the commit and the batch is rolled back.  The
        source returns None; the ids returned here are those the new rows receive.
        The `app` repository has no `create_many`: the `withCapacity == false`
        case describes this body on the `app` model, which no caller reaches. */
    method CreateMany(reqs: seq<Request>) returns (r: Result<seq<int>>)
      requires Valid()
      modifies this
      ensures Valid()
      ensures r.Ok? <==> (withCapacity || reqs == []) && FreshBatch(old(Names()), RequestNames(reqs))
      ensures !withCapacity && reqs != [] ==> r == Err(TypeError("Classroom"))
      ensures r.Ok? ==> classrooms == Appended(old(classrooms), old(nextId), NewRows(reqs))
      ensures r.Ok? ==> nextId == old(nextId) + |reqs| && |r.value| == |reqs|
      ensures r.Ok? ==> forall i :: 0 <= i < |reqs| ==> r.value[i] == old(nextId) + i
      ensures withCapacity && r.Err? ==> r.error == IntegrityError
      ensures r.Err? ==> classrooms == old(classrooms) && nextId == old(nextId)
    {
      var rows := BuildAll(reqs);
      if rows.Err? {
        return Err(rows.error);
      }
      if !FreshBatch(Names(), RequestNames(reqs)) {
        return Err(IntegrityError);
      }
      AppendedKeepsConsistent(classrooms, nextId, withCapacity, reqs);
      var ids := AddAll(rows.value);
      r := Ok(ids);
    }

    /** The list comprehension of `create_many`: one constructor call per request,
        the first refusal ending it. */
    method BuildAll(reqs: seq<Request>) returns (r: Result<seq<ClassroomRow>>)
      ensures r.Ok? <==> withCapacity || reqs == []
      ensures r.Ok? ==> r.value == NewRows(reqs)
      ensures r.Err? ==> r.error == TypeError("Classroom")
    {
      var rows := [];
      var i := 0;
      while i < |reqs|
        invariant 0 <= i <= |reqs|
        invariant i > 0 ==> withCapacity
        invariant rows == NewRows(reqs[..i])
      {
        var built := Construct("Classroom", ClassroomAttributes(withCapacity), NewKwargs(reqs[i]));
        if built.Err? {
          return Err(built.error);
        }
        if !withCapacity {
          AppModelRefusesCapacity(reqs[i]);
          assert false;
        }
        CapacityModelAcceptsRequest(reqs[i]);
        rows := rows + [FromKwargs(built.value).value];
        i := i + 1;
      }
      assert reqs[..i] == reqs;
      r := Ok(rows);
    }

    /** `add_all` and the commit: the rows get consecutive ids in request order. */
    method AddAll(rows: seq<ClassroomRow>) returns (ids: seq<int>)
      modifies this
      ensures classrooms == Appended(old(classrooms), old(nextId), rows)
      ensures nextId == old(nextId) + |rows| && |ids| == |rows|
      ensures forall i :: 0 <= i < |rows| ==> ids[i] == old(nextId) + i
    {
      ids := [];
      var i := 0;
      while i < |rows|
        invariant 0 <= i <= |rows|
        invariant classrooms == Appended(old(classrooms), old(nextId), rows[..i])
        invariant nextId == old(nextId) + i && |ids| == i
        invariant forall j :: 0 <= j < i ==> ids[j] == old(nextId) + j
      {
        AppendedSnoc(old(classrooms), old(nextId), rows, i);
        classrooms := classrooms[nextId := rows[i]];
        ids := ids + [nextId];
        nextId := nextId + 1;
        i := i + 1;
      }
      assert rows[..i] == rows;
    }

    /** `update`: load the classroom (NotFound when absent), set its name and, when
        the request gives one, its capacity, then commit; the request's subjects
        are ignored.  A taken name fails the commit and nothing is written. */
    method Update(id: int, req: Request) returns (r: Result<ClassroomRow>)
      requires Valid()
      modifies this
      ensures Valid() && nextId == old(nextId)
      ensures id !in old(classrooms) ==> r == Err(NotFound("Classroom", id))
      ensures r.Ok? <==> (id in old(classrooms) && (req.capacity.None? || withCapacity)
                          && Clashes(old(Names()), req.name, Some(id)) == {})
      ensures r.Ok? ==> r.value.name == req.name
      ensures r.Ok? ==> r.value.capacity == (if req.capacity.Some? then req.capacity else old(classrooms)[id].capacity)
      ensures r.Ok? ==> classrooms == old(classrooms)[id := r.value]
      ensures r.Err? && id in old(classrooms) && req.capacity.Some? && !withCapacity ==>
        r.error == AttributeError("capacity")
      ensures r.Err? ==> classrooms == old(classrooms)
    {
      SelectinAccepted(ClassroomModel(withCapacity));
      var found := GetById(ClassroomModel(withCapacity), classrooms, id, Some("selectin"));
      if found.Err? {
        return Err(found.error);
      }
      var classroom := new Classroom.Load(found.value, withCapacity);
      var _ := classroom.SetName(req.name);
      var capacitySet := classroom.SetCapacity(req.capacity);
      if capacitySet.Err? {
        return Err(capacitySet.error);
      }
      if Clashes(Names(), req.name, Some(id)) != {} {
        return Err(IntegrityError);
      }
      UpdateKeepsConsistent(classrooms, nextId, withCapacity, id, classroom.Row());
      classrooms := classrooms[id := classroom.Row()];
      r := Ok(classroom.Row());
    }

    /** `delete`: the snapshot of the loaded classroom's public attributes, then the
        row goes. */
    method Delete(id: int) returns (r: Result<map<string, Scalar>>)
      requires Valid()
      modifies this
      ensures Valid() && nextId == old(nextId)
      ensures id !in old(classrooms) ==> r == Err(NotFound("Classroom", id)) && classrooms == old(classrooms)
      ensures id in old(classrooms) ==> r == Ok(PublicAttributes(Loaded(old(classrooms)[id].Columns(id, withCapacity))))
      ensures id in old(classrooms) ==> classrooms == old(classrooms) - {id}
    {
      var found := GetById(ClassroomModel(withCapacity), classrooms, id, None);
      if found.Err? {
        return Err(found.error);
      }
      var deleted := PublicAttributes(Loaded(found.value.Columns(id, withCapacity)));
      classrooms := classrooms - {id};
      r := Ok(deleted);
    }
  }
}
