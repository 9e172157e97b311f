/** The generic repository helpers: load-strategy dispatch, pagination, lookup
    by id and the `update_fields` merge, in the `backend.*` package
    (BaseRepository) and the `app` package (BaseManager).

    A SQL SELECT is a record of the parts these helpers add to it; a mapped
    class is described by its name, its attribute names and its relationships. */
module Base {
  import opened Errors
  import opened Text

  /** `selectinload`, `joinedload`, `subqueryload`, `lazyload` */
  datatype Loader = SelectIn | Joined | Subquery | Lazy

  /** The `load_methods` dict: the four strategy names and nothing else. */
  function LoaderFor(strategy: string): (l: Option<Loader>)
    ensures l.Some? <==> strategy in {"selectin", "joined", "subquery", "lazy"}
  {
    if strategy == "selectin" then Some(SelectIn)
    else if strategy == "joined" then Some(Joined)
    else if strategy == "subquery" then Some(Subquery)
    else if strategy == "lazy" then Some(Lazy)
    else None
  }

  /** `load_method(getattr(model, relation))` */
  datatype LoadOption = LoadOption(loader: Loader, relation: string)

  /** A column in ORDER BY, ascending or `.desc()`. */
  datatype OrderBy = OrderBy(column: string, descending: bool)

  datatype Select = Select(
    model: string,
    /** `.where(model.id == id)` */
    idFilter: Option<int>,
    options: seq<LoadOption>,
    orderBy: seq<OrderBy>,
    offset: Option<int>,
    limit: Option<int>)

  /** `select(model)` */
  function SelectFrom(model: string): Select
  {
    Select(model, None, [], [], None, None)
  }

  /** The class at the far end of a relationship: its name and the keywords its
      constructor accepts (its mapped attributes). */
  datatype RelatedClass = RelatedClass(name: string, attributes: set<string>)

  /** A mapped class: its name, its column attributes, every other name `hasattr`
      finds on the class (relationships, Python properties, the declarative
      class attributes), its relationships in mapper order and, for each
      relationship, the related class. */
  datatype ModelInfo = ModelInfo(name: string, columns: set<string>, attributes: set<string>,
                                 relations: seq<string>, related: map<string, RelatedClass>)

  /** `hasattr(model, name)` */
  predicate HasAttr(model: ModelInfo, name: string)
  {
    name in model.columns || name in model.attributes
  }

  /** Names every class derived from the declarative `Base` carries. */
  const DeclarativeNames: set<string> := {"metadata", "registry", "__tablename__", "__table__", "__mapper__"}

  /** The association classes; none of them has an `id` attribute. */
  const TeacherSubjectClass := RelatedClass("TeacherSubject", {"teacher_id", "subject_id", "teaching_hours", "teacher", "subject"})
  const StudentGroupSubjectClass :=
    RelatedClass("StudentGroupSubject", {"student_group_id", "subject_id", "study_hours", "student_group", "subject"})
  const ClassroomSubjectClass := RelatedClass("ClassroomSubject", {"classroom_id", "subject_id", "classroom", "subject"})

  /** One option per relationship, in relationship order, all with the same loader. */
  function OptionsFor(loader: Loader, relations: seq<string>): (opts: seq<LoadOption>)
    ensures |opts| == |relations|
    ensures forall i :: 0 <= i < |relations| ==> opts[i] == LoadOption(loader, relations[i])
  {
    seq(|relations|, i requires 0 <= i < |relations| => LoadOption(loader, relations[i]))
  }

  /** `BaseRepository._apply_load_strategy`: no relationships or no strategy leaves the
      statement as it is; an unknown name raises; otherwise one option per relationship. */
  function ApplyLoadStrategy(model: ModelInfo, stmt: Select, strategy: Option<string>): (r: Result<Select>)
    ensures (model.relations == [] || strategy.None?) ==> r == Ok(stmt)
    ensures r.Err? <==> model.relations != [] && strategy.Some? && LoaderFor(strategy.value).None?
    ensures r.Err? ==> r.error == InvalidLoadStrategy(strategy.value)
    ensures r.Ok? && model.relations != [] && strategy.Some? ==>
      r.value == stmt.(options := stmt.options + OptionsFor(LoaderFor(strategy.value).value, model.relations))
  {
    if model.relations == [] || strategy.None? then Ok(stmt)
    else
      match LoaderFor(strategy.value)
      case None => Err(InvalidLoadStrategy(strategy.value))
      case Some(loader) => Ok(stmt.(options := stmt.options + OptionsFor(loader, model.relations)))
  }

  /** "selectin", the strategy the repositories pass, is always accepted. */
  lemma SelectinAccepted(model: ModelInfo)
    ensures ApplyLoadStrategy(model, SelectFrom(model.name), Some("selectin")).Ok?
  {
    assert LoaderFor("selectin") == Some(SelectIn);
  }

  /** `BaseManager._get_model` */
  function GetModel(model: Option<ModelInfo>, managerName: string): (r: Result<ModelInfo>)
    ensures r.Err? <==> model.None?
    ensures r.Ok? ==> r.value == model.value
  {
    if model.None? then Err(ValueError(managerName + ": model is not defined")) else Ok(model.value)
  }

  /** `BaseManager._apply_load_strategy`: builds `select(model)` itself, and an unknown
      strategy is only logged. */
  function ManagerApplyLoadStrategy(model: Option<ModelInfo>, managerName: string, strategy: Option<string>): (r: Result<Select>)
    ensures r.Err? <==> model.None?
  {
    match GetModel(model, managerName)
    case Err(e) => Err(e)
    case Ok(m) =>
      var stmt := SelectFrom(m.name);
      if m.relations == [] || strategy.None? then Ok(stmt)
      else
        match LoaderFor(strategy.value)
        case None => Ok(stmt)
        case Some(loader) => Ok(stmt.(options := OptionsFor(loader, m.relations)))
  }

  /** The two dispatchers agree wherever the repository's succeeds; where it raises,
      the manager returns the plain `select(model)`. */
  lemma LoadStrategyDispatchersAgree(model: ModelInfo, managerName: string, strategy: Option<string>)
    ensures ApplyLoadStrategy(model, SelectFrom(model.name), strategy).Ok? ==>
      ManagerApplyLoadStrategy(Some(model), managerName, strategy) == ApplyLoadStrategy(model, SelectFrom(model.name), strategy)
    ensures ApplyLoadStrategy(model, SelectFrom(model.name), strategy).Err? ==>
      ManagerApplyLoadStrategy(Some(model), managerName, strategy) == Ok(SelectFrom(model.name))
  {
    if model.relations != [] && strategy.Some? && LoaderFor(strategy.value).Some? {
      assert SelectFrom(model.name).options + OptionsFor(LoaderFor(strategy.value).value, model.relations)
        == OptionsFor(LoaderFor(strategy.value).value, model.relations);
    }
  }

  /** PaginationParams: an optional attribute name, a direction, offset and limit. */
  datatype Pagination = Pagination(orderBy: Option<string>, desc: bool, offset: int, limit: int)

  /** The name to order by when one is given and non-empty (an empty string is falsy). */
  predicate OrdersBy(p: Pagination, name: string)
  {
    p.orderBy == Some(name) && name != ""
  }

  /** `_apply_pagination` (the same in both packages): a non-empty name that
      `hasattr` finds is handed to ORDER BY, descending when asked, which only a
      column accepts; a name the class lacks is ignored; OFFSET and LIMIT always. */
  function ApplyPagination(model: ModelInfo, stmt: Select, p: Pagination): (r: Result<Select>)
    ensures r.Err? <==> exists name :: OrdersBy(p, name) && HasAttr(model, name) && name !in model.columns
    ensures r.Err? ==> r.error == NotAColumn(p.orderBy.value)
    ensures r.Ok? ==> r.value.offset == Some(p.offset) && r.value.limit == Some(p.limit)
    ensures r.Ok? ==> r.value.model == stmt.model && r.value.idFilter == stmt.idFilter && r.value.options == stmt.options
    ensures forall c :: OrdersBy(p, c) && c in model.columns ==>
      r.Ok? && r.value.orderBy == stmt.orderBy + [OrderBy(c, p.desc)]
    ensures (forall name :: OrdersBy(p, name) ==> !HasAttr(model, name)) ==>
      r.Ok? && r.value.orderBy == stmt.orderBy
  {
    if p.orderBy.Some? && p.orderBy.value != "" && HasAttr(model, p.orderBy.value) then
      var name := p.orderBy.value;
      if name in model.columns then
        Ok(stmt.(orderBy := stmt.orderBy + [OrderBy(name, p.desc)], offset := Some(p.offset), limit := Some(p.limit)))
      else
        Err(NotAColumn(name))
    else
      Ok(stmt.(offset := Some(p.offset), limit := Some(p.limit)))
  }

  /** The statement `list_all` executes: `select(model)`, then the load strategy,
      then the pagination; it fails when either step raises. */
  function ListAllStatement(model: ModelInfo, p: Pagination, strategy: Option<string>): (r: Result<Select>)
    ensures r.Ok? <==> (ApplyLoadStrategy(model, SelectFrom(model.name), strategy).Ok?
      && ApplyPagination(model, SelectFrom(model.name), p).Ok?)
    ensures r.Ok? ==> (r.value.idFilter.None? && r.value.offset == Some(p.offset) && r.value.limit == Some(p.limit)
      && r.value.orderBy == ApplyPagination(model, SelectFrom(model.name), p).value.orderBy
      && r.value.options == ApplyLoadStrategy(model, SelectFrom(model.name), strategy).value.options)
  {
    var loaded := ApplyLoadStrategy(model, SelectFrom(model.name), strategy);
    if loaded.Err? then Err(loaded.error)
    else
      assert loaded.value.orderBy == [] && loaded.value.idFilter.None?;
      ApplyPagination(model, loaded.value, p)
  }

  /** `BaseRepository.get_by_id`: the strategy is applied only when given (and may
      raise), and a missing row raises NotFoundException naming the model and id. */
  function GetById<E>(model: ModelInfo, rows: map<int, E>, id: int, strategy: Option<string>): (r: Result<E>)
    ensures r.Ok? <==> id in rows && (strategy.None? || ApplyLoadStrategy(model, SelectFrom(model.name), strategy).Ok?)
    ensures r.Ok? ==> r.value == rows[id]
    ensures id !in rows && (strategy.None? || ApplyLoadStrategy(model, SelectFrom(model.name), strategy).Ok?) ==>
      r == Err(NotFound(model.name, id))
  {
    var stmt := SelectFrom(model.name).(idFilter := Some(id));
    var loaded := if strategy.Some? then ApplyLoadStrategy(model, stmt, strategy) else Ok(stmt);
    if loaded.Err? then
      assert ApplyLoadStrategy(model, SelectFrom(model.name), strategy).Err?;
      Err(loaded.error)
    else if id in rows then Ok(rows[id])
    else Err(NotFound(model.name, id))
  }

  /** `BaseManager.get_by_id`, whose strategy defaults to "selectin" and never raises. */
  function ManagerGetById<E>(model: Option<ModelInfo>, managerName: string, rows: map<int, E>, id: int,
                             strategy: Option<string> := Some("selectin")): (r: Result<E>)
    ensures model.None? ==> r.Err? && r.error.ValueError?
    ensures model.Some? ==> (r.Ok? <==> id in rows)
    ensures model.Some? && id in rows ==> r == Ok(rows[id])
    ensures model.Some? && id !in rows ==> r == Err(NotFound(model.value.name, id))
  {
    match ManagerApplyLoadStrategy(model, managerName, strategy)
    case Err(e) => Err(e)
    case Ok(_) => if id in rows then Ok(rows[id]) else Err(NotFound(model.value.name, id))
  }

  /** `_get_related_model`: the related class of a relationship, or ValueError. */
  function RelatedModel(model: ModelInfo, field: string): (r: Result<RelatedClass>)
    ensures r.Ok? <==> field in model.related
    ensures r.Ok? ==> r.value == model.related[field]
  {
    if field in model.related then Ok(model.related[field])
    else Err(ValueError("no relationship for field '" + field + "' in model " + model.name))
  }

  // ---------------------------------------------------------------------------
  // update_fields

  /** A scalar attribute value; `SOpaque` is an object the model does not look into
      (SQLAlchemy's `_sa_instance_state`). */
  datatype Scalar = SNone | SInt(i: int) | SBool(b: bool) | SStr(s: string) | SOpaque

  /** The stored value of a nullable integer column. */
  function NullableInt(v: Option<int>): Scalar
  {
    if v.Some? then SInt(v.value) else SNone
  }

  predicate Truthy(v: Scalar)
  {
    match v
    case SNone => false
    case SInt(i) => i != 0
    case SBool(b) => b
    case SStr(s) => s != ""
    case SOpaque => true
  }

  /** A related object, or the dict that describes one: attribute name to value. */
  type Item = map<string, Scalar>

  /** `item.id` / `item_data.get("id")` */
  function ItemId(item: Item): Scalar
  {
    if "id" in item then item["id"] else SNone
  }

  /** An attribute of an entity, or a field of a dumped request: a scalar, a list,
      or a relationship of the entity that has not been loaded (`get_by_id`
      without a load strategy leaves every relationship so). */
  datatype Field = Plain(value: Scalar) | Items(items: seq<Item>) | Unloaded

  /** `{item.id: item for item in attr}`: each id to the position of its last item. */
  function IndexById(items: seq<Item>): (idx: map<Scalar, nat>)
    ensures forall v :: v in idx ==> idx[v] < |items| && ItemId(items[idx[v]]) == v
    ensures forall i :: 0 <= i < |items| ==> ItemId(items[i]) in idx
    ensures forall v :: v in idx ==> forall j :: idx[v] < j < |items| ==> ItemId(items[j]) != v
  {
    if items == [] then map[]
    else
      var last := |items| - 1;
      var prefix := items[..last];
      assert forall k :: 0 <= k < last ==> prefix[k] == items[k];
      IndexById(prefix)[ItemId(items[last]) := last]
  }

  /** Every existing related object has an `id` attribute, so that
      `{item.id: item for item in attr}` does not raise. */
  predicate AllHaveIds(items: seq<Item>)
  {
    forall i :: 0 <= i < |items| ==> "id" in items[i]
  }

  /** The index of the existing objects, or the AttributeError that `item.id`
      raises on an object without an `id`. */
  function IndexExisting(items: seq<Item>): (r: Result<map<Scalar, nat>>)
    ensures r.Ok? <==> AllHaveIds(items)
    ensures r.Ok? ==> r.value == IndexById(items)
    ensures r.Err? ==> r.error == AttributeError("id")
  {
    if AllHaveIds(items) then Ok(IndexById(items)) else Err(AttributeError("id"))
  }

  /** Whether `item_data` updates an existing object: a truthy id that is indexed. */
  predicate Matches(idx: map<Scalar, nat>, data: Item)
  {
    Truthy(ItemId(data)) && ItemId(data) in idx
  }

  /** One `item_data`: `setattr` each of its fields on the indexed object, or append a
      new object built from it. */
  function MergeOne(items: seq<Item>, idx: map<Scalar, nat>, data: Item): (r: seq<Item>)
    requires forall v :: v in idx ==> idx[v] < |items|
  {
    if Matches(idx, data) then items[idx[ItemId(data)] := items[idx[ItemId(data)]] + data]
    else items + [data]
  }

  /** The whole loop over the request list; the index is the one built before it. */
  function MergeAll(items: seq<Item>, idx: map<Scalar, nat>, data: seq<Item>): (r: seq<Item>)
    requires forall v :: v in idx ==> idx[v] < |items|
    ensures |r| >= |items|
    decreases |data|
  {
    if data == [] then items
    else MergeAll(MergeOne(items, idx, data[0]), idx, data[1..])
  }

  /** Every request item that matches no existing object names only attributes of
      the related class, so that `related_model(**item_data)` does not raise. */
  predicate Constructible(cls: RelatedClass, idx: map<Scalar, nat>, data: seq<Item>)
  {
    forall j :: 0 <= j < |data| && !Matches(idx, data[j]) ==> data[j].Keys <= cls.attributes
  }

  /** The `list` branch of `update_fields`: index the existing objects, then merge
      the request items; AttributeError when an existing object has no `id`,
      TypeError when a new object cannot be built. */
  function MergeChecked(cls: RelatedClass, items: seq<Item>, data: seq<Item>): (r: Result<seq<Item>>)
    ensures r.Ok? <==> AllHaveIds(items) && Constructible(cls, IndexById(items), data)
    ensures r.Ok? ==> r.value == MergeAll(items, IndexById(items), data)
    ensures !AllHaveIds(items) ==> r == Err(AttributeError("id"))
    ensures AllHaveIds(items) && !Constructible(cls, IndexById(items), data) ==> r == Err(TypeError(cls.name))
  {
    match IndexExisting(items)
    case Err(e) => Err(e)
    case Ok(idx) =>
      if Constructible(cls, idx, data) then Ok(MergeAll(items, idx, data)) else Err(TypeError(cls.name))
  }

  /** The merge of one more request item is one more `MergeOne` step. */
  lemma MergeStep(items: seq<Item>, idx: map<Scalar, nat>, data: seq<Item>, i: int)
    requires forall v :: v in idx ==> idx[v] < |items|
    requires 0 <= i < |data|
    ensures MergeAll(items, idx, data[..i + 1]) == MergeOne(MergeAll(items, idx, data[..i]), idx, data[i])
  {
    assert data[..i + 1] == data[..i] + [data[i]];
    MergeAllSnoc(items, idx, data[..i], data[i]);
  }

  /** A constructible prefix stays constructible when the next item matches an
      existing object or names only attributes of the related class. */
  lemma ConstructibleStep(cls: RelatedClass, idx: map<Scalar, nat>, data: seq<Item>, i: int)
    requires 0 <= i < |data| && Constructible(cls, idx, data[..i])
    requires Matches(idx, data[i]) || data[i].Keys <= cls.attributes
    ensures Constructible(cls, idx, data[..i + 1])
  {
    var done := data[..i + 1];
    forall j | 0 <= j < |done| && !Matches(idx, done[j])
      ensures done[j].Keys <= cls.attributes
    {
      if j < i {
        assert done[j] == data[..i][j];
      }
    }
  }

  /** Request item `j` is the first that matches no existing object and names an
      attribute the related class lacks: the item whose constructor call raises. */
  predicate FirstUnbuildable(cls: RelatedClass, items: seq<Item>, data: seq<Item>, j: int)
  {
    var idx := IndexById(items);
    0 <= j < |data| && !Matches(idx, data[j]) && !(data[j].Keys <= cls.attributes) &&
    Constructible(cls, idx, data[..j])
  }

  /** The request items that do not match an existing object, in request order. */
  function Unmatched(idx: map<Scalar, nat>, data: seq<Item>): seq<Item>
  {
    if data == [] then []
    else (if Matches(idx, data[0]) then [] else [data[0]]) + Unmatched(idx, data[1..])
  }

  /** Nothing is removed: every existing object keeps its position and gains or
      overwrites attributes only; objects no request item names are untouched; and
      the appended objects are the unmatched request items, in order. */
  lemma {:induction false} MergeAllSpec(items: seq<Item>, idx: map<Scalar, nat>, data: seq<Item>)
    requires forall v :: v in idx ==> idx[v] < |items|
    ensures |MergeAll(items, idx, data)| == |items| + |Unmatched(idx, data)|
    ensures forall i :: 0 <= i < |items| ==> items[i].Keys <= MergeAll(items, idx, data)[i].Keys
    ensures forall i :: 0 <= i < |items| && (forall d :: d in data && Matches(idx, d) ==> idx[ItemId(d)] != i) ==>
      MergeAll(items, idx, data)[i] == items[i]
    ensures MergeAll(items, idx, data)[|items|..] == Unmatched(idx, data)
    decreases |data|
  {
    if data != [] {
      var next := MergeOne(items, idx, data[0]);
      MergeAllSpec(next, idx, data[1..]);
      var r := MergeAll(items, idx, data);
      assert forall d :: d in data[1..] ==> d in data;
      if Matches(idx, data[0]) {
        assert r[|items|..] == r[|next|..];
      } else {
        assert next[|items|..] == [data[0]];
        assert r[|items|..] == [data[0]] + r[|next|..] by {
          assert r[|items|..][0] == next[|items|] == data[0];
          assert r[|items|..][1..] == r[|next|..];
        }
      }
    }
  }

  /** One more request item merges one more step onto the merged prefix. */
  lemma {:induction false} MergeAllSnoc(items: seq<Item>, idx: map<Scalar, nat>, data: seq<Item>, d: Item)
    requires forall v :: v in idx ==> idx[v] < |items|
    ensures MergeAll(items, idx, data + [d]) == MergeOne(MergeAll(items, idx, data), idx, d)
    decreases |data|
  {
    if data == [] {
      assert [d][1..] == [];
    } else {
      assert (data + [d])[0] == data[0] && (data + [d])[1..] == data[1..] + [d];
      MergeAllSnoc(MergeOne(items, idx, data[0]), idx, data[1..], d);
    }
  }

  /** A matched request item's fields all land on the object it names, unless a later
      request item names the same object and overrides that field. */
  lemma {:induction false} MergeAllUpdatesMatched(items: seq<Item>, idx: map<Scalar, nat>, data: seq<Item>, k: int, f: string)
    requires forall v :: v in idx ==> idx[v] < |items|
    requires 0 <= k < |data| && Matches(idx, data[k]) && f in data[k]
    requires forall j :: k < j < |data| && Matches(idx, data[j]) && idx[ItemId(data[j])] == idx[ItemId(data[k])] ==> f !in data[j]
    ensures f in MergeAll(items, idx, data)[idx[ItemId(data[k])]]
    ensures MergeAll(items, idx, data)[idx[ItemId(data[k])]][f] == data[k][f]
    decreases |data|
  {
    var next := MergeOne(items, idx, data[0]);
    assert forall j :: 0 <= j < |data[1..]| ==> data[1..][j] == data[j + 1];
    if k == 0 {
      MergeAllKeeps(next, idx, data[1..], idx[ItemId(data[0])], f);
    } else {
      MergeAllUpdatesMatched(next, idx, data[1..], k - 1, f);
    }
  }

  /** A field no later request item writes keeps its value. */
  lemma {:induction false} MergeAllKeeps(items: seq<Item>, idx: map<Scalar, nat>, data: seq<Item>, i: int, f: string)
    requires forall v :: v in idx ==> idx[v] < |items|
    requires 0 <= i < |items| && f in items[i]
    requires forall j :: 0 <= j < |data| && Matches(idx, data[j]) && idx[ItemId(data[j])] == i ==> f !in data[j]
    ensures f in MergeAll(items, idx, data)[i]
    ensures MergeAll(items, idx, data)[i][f] == items[i][f]
    decreases |data|
  {
    if data != [] {
      var next := MergeOne(items, idx, data[0]);
      assert forall j :: 0 <= j < |data[1..]| ==> data[1..][j] == data[j + 1];
      MergeAllKeeps(next, idx, data[1..], i, f);
    }
  }

  /** One dumped field of `update_fields`.  A None value was dropped by
      `exclude_none` and a name the entity lacks is skipped; reading an unloaded
      relationship raises; a list field on a list attribute is merged (which needs
      the related model, an `id` on every existing object and a constructible
      class for every new one); any other field is assigned. */
  function ApplyField(model: ModelInfo, attrs: map<string, Field>, k: string, v: Field): (r: Result<map<string, Field>>)
    ensures r.Ok? ==> r.value.Keys == attrs.Keys
    ensures r.Ok? && (v == Plain(SNone) || k !in attrs) ==> r.value == attrs
    ensures r.Ok? && k in attrs && v != Plain(SNone) ==> forall a :: a in attrs && a != k ==> r.value[a] == attrs[a]
    ensures k in attrs && v != Plain(SNone) && attrs[k].Unloaded? ==> r == Err(MissingGreenlet(k))
    ensures k in attrs && v.Plain? && v != Plain(SNone) && !attrs[k].Unloaded? ==> r == Ok(attrs[k := v])
    ensures r.Err? && !v.Items? ==> r == Err(MissingGreenlet(k))
  {
    if v == Plain(SNone) || k !in attrs then Ok(attrs)
    else if attrs[k].Unloaded? then Err(MissingGreenlet(k))
    else if attrs[k].Items? && v.Items? then
      match RelatedModel(model, k)
      case Err(e) => Err(e)
      case Ok(cls) =>
        match MergeChecked(cls, attrs[k].items, v.items)
        case Err(e) => Err(e)
        case Ok(merged) => Ok(attrs[k := Items(merged)])
    else Ok(attrs[k := v])
  }

  /** The loop of `update_fields` over the dumped fields, in order; the first field
      that raises ends it. */
  function ApplyFields(model: ModelInfo, attrs: map<string, Field>, request: seq<(string, Field)>): (r: Result<map<string, Field>>)
    ensures r.Ok? ==> r.value.Keys == attrs.Keys
    decreases |request|
  {
    if request == [] then Ok(attrs)
    else
      match ApplyField(model, attrs, request[0].0, request[0].1)
      case Err(e) => Err(e)
      case Ok(next) => ApplyFields(model, next, request[1..])
  }

  /** Attributes the request does not name with a non-None value keep their value. */
  lemma {:induction false} ApplyFieldsSkips(model: ModelInfo, attrs: map<string, Field>, request: seq<(string, Field)>, k: string)
    requires k in attrs
    requires forall i :: 0 <= i < |request| && request[i].0 == k ==> request[i].1 == Plain(SNone)
    ensures ApplyFields(model, attrs, request).Ok? ==> ApplyFields(model, attrs, request).value[k] == attrs[k]
    decreases |request|
  {
    if request != [] {
      var step := ApplyField(model, attrs, request[0].0, request[0].1);
      if step.Ok? {
        forall i | 0 <= i < |request[1..]| && request[1..][i].0 == k
          ensures request[1..][i].1 == Plain(SNone)
        {
          assert request[1..][i] == request[i + 1];
        }
        ApplyFieldsSkips(model, step.value, request[1..], k);
      }
    }
  }

  /** A scalar the request gives for an existing attribute is what the attribute
      holds afterwards, when no later field names it again. */
  lemma {:induction false} ApplyFieldsOverwrites(model: ModelInfo, attrs: map<string, Field>, request: seq<(string, Field)>,
                                                 j: int)
    requires 0 <= j < |request| && request[j].0 in attrs
    requires request[j].1.Plain? && request[j].1 != Plain(SNone)
    requires forall i :: j < i < |request| ==> request[i].0 != request[j].0
    ensures ApplyFields(model, attrs, request).Ok? ==>
      ApplyFields(model, attrs, request).value[request[j].0] == request[j].1
    decreases |request|
  {
    var rest := request[1..];
    var step := ApplyField(model, attrs, request[0].0, request[0].1);
    if step.Ok? {
      if j == 0 {
        forall i | 0 <= i < |rest|
          ensures rest[i].0 != request[0].0
        {
          assert rest[i] == request[i + 1];
        }
        ApplyFieldsSkips(model, step.value, rest, request[0].0);
      } else {
        forall i | j - 1 < i < |rest|
          ensures rest[i].0 != rest[j - 1].0
        {
          assert rest[i] == request[i + 1];
        }
        ApplyFieldsOverwrites(model, step.value, rest, j - 1);
      }
    }
  }

  /** A request that gives a value for a relationship the entity has not loaded
      never succeeds: reading it raises unless an earlier field raised first. */
  lemma {:induction false} UnloadedRelationRaises(model: ModelInfo, attrs: map<string, Field>, request: seq<(string, Field)>,
                                                  j: int)
    requires 0 <= j < |request| && request[j].0 in attrs && attrs[request[j].0].Unloaded?
    requires request[j].1 != Plain(SNone)
    ensures ApplyFields(model, attrs, request).Err?
    ensures (forall i :: 0 <= i < j ==> !request[i].1.Items?) ==>
      ApplyFields(model, attrs, request).error.MissingGreenlet?
    decreases |request|
  {
    var step := ApplyField(model, attrs, request[0].0, request[0].1);
    if j > 0 && step.Ok? {
      assert step.value[request[j].0] == attrs[request[j].0];
      assert forall i :: 0 <= i < j - 1 ==> request[1..][i] == request[i + 1];
      UnloadedRelationRaises(model, step.value, request[1..], j - 1);
    }
  }

  /** The relationships here hold association objects, which have no `id`: merging a
      list into a non-empty one raises AttributeError. */
  lemma IdLessObjectsRaise(model: ModelInfo, attrs: map<string, Field>, k: string, data: seq<Item>)
    requires k in attrs && attrs[k].Items? && k in model.related
    requires exists i :: 0 <= i < |attrs[k].items| && "id" !in attrs[k].items[i]
    ensures ApplyField(model, attrs, k, Items(data)) == Err(AttributeError("id"))
    ensures ApplyFields(model, attrs, [(k, Items(data))]) == Err(AttributeError("id"))
  {
    assert !AllHaveIds(attrs[k].items);
  }

  /** A loaded entity whose attributes `update_fields` sets in place. */
  class Entity {
    var attrs: map<string, Field>

    constructor (attrs: map<string, Field>)
      ensures this.attrs == attrs
    {
      this.attrs := attrs;
    }

    /** The `list` branch of `update_fields` for one attribute: index the existing
        objects, then loop over the request items, updating indexed objects and
        appending new ones built by the related class.  The list is changed in
        place, so when a later item cannot be built the items before it have
        already been merged into it. */
    method MergeList(k: string, cls: RelatedClass, data: seq<Item>) returns (r: Result<()>)
      requires k in attrs && attrs[k].Items?
      modifies this
      ensures r.Ok? <==> MergeChecked(cls, old(attrs)[k].items, data).Ok?
      ensures r.Ok? ==> attrs == old(attrs)[k := Items(MergeChecked(cls, old(attrs)[k].items, data).value)]
      ensures r.Err? ==> r.error == MergeChecked(cls, old(attrs)[k].items, data).error
      ensures !AllHaveIds(old(attrs)[k].items) ==> attrs == old(attrs)
      ensures r.Err? && AllHaveIds(old(attrs)[k].items) ==>
        exists j :: FirstUnbuildable(cls, old(attrs)[k].items, data, j) &&
          attrs == old(attrs)[k := Items(MergeAll(old(attrs)[k].items, IndexById(old(attrs)[k].items), data[..j]))]
    {
      var items := attrs[k].items;
      var indexed := IndexExisting(items);
      if indexed.Err? {
        return Err(indexed.error);
      }
      var existing := indexed.value;
      ghost var original := items;
      var i := 0;
      var unbuildable := false;
      while i < |data|
        invariant 0 <= i <= |data|
        invariant items == MergeAll(original, existing, data[..i])
        invariant Constructible(cls, existing, data[..i])
        invariant attrs == old(attrs)
      {
        var itemData := data[i];
        var itemId := ItemId(itemData);
        if Truthy(itemId) && itemId in existing {
          var at := existing[itemId];
          MergeStep(original, existing, data, i);
          items := items[at := items[at] + itemData];
          ConstructibleStep(cls, existing, data, i);
          i := i + 1;
        } else if itemData.Keys <= cls.attributes {
          MergeStep(original, existing, data, i);
          items := items + [itemData];
          ConstructibleStep(cls, existing, data, i);
          i := i + 1;
        } else {
          unbuildable := true;
          break;
        }
      }
      attrs := attrs[k := Items(items)];
      if unbuildable {
        assert FirstUnbuildable(cls, original, data, i);
        assert !Constructible(cls, existing, data);
        assert attrs == old(attrs)[k := Items(MergeAll(original, existing, data[..i]))];
        return Err(TypeError(cls.name));
      }
      assert data[..i] == data;
      assert MergeChecked(cls, original, data) == Ok(items);
      r := Ok(());
    }

    /** `update_fields` on this entity, field by field; the first field that raises
        ends it. */
    method UpdateFields(model: ModelInfo, request: seq<(string, Field)>) returns (r: Result<()>)
      modifies this
      ensures r.Ok? <==> ApplyFields(model, old(attrs), request).Ok?
      ensures r.Ok? ==> attrs == ApplyFields(model, old(attrs), request).value
      ensures r.Err? ==> r.error == ApplyFields(model, old(attrs), request).error
    {
      var i := 0;
      while i < |request|
        invariant 0 <= i <= |request|
        invariant ApplyFields(model, attrs, request[i..]) == ApplyFields(model, old(attrs), request)
      {
        var (k, v) := request[i];
        assert request[i..][0] == request[i] && request[i..][1..] == request[i + 1..];
        if v != Plain(SNone) && k in attrs {
          if attrs[k].Unloaded? {
            return Err(MissingGreenlet(k));
          }
          if attrs[k].Items? && v.Items? {
            var related := RelatedModel(model, k);
            if related.Err? {
              return Err(related.error);
            }
            var merged := MergeList(k, related.value, v.items);
            if merged.Err? {
              return merged;
            }
          } else {
            attrs := attrs[k := v];
          }
        }
        i := i + 1;
      }
      r := Ok(());
    }
  }

  // ---------------------------------------------------------------------------
  // delete snapshots

  /** The `__dict__` comprehension of the delete methods: every attribute whose name
      does not start with `_`. */
  function PublicAttributes(d: map<string, Scalar>): (r: map<string, Scalar>)
    ensures forall k :: k in r <==> k in d && !StartsWith(k, "_")
    ensures forall k :: k in r ==> r[k] == d[k]
  {
    map k | k in d && !StartsWith(k, "_") :: d[k]
  }

  /** `Model(**kwargs)` with SQLAlchemy's default constructor: every keyword must
      name a mapped attribute, otherwise TypeError. */
  function Construct(model: string, attributes: set<string>, kwargs: map<string, Scalar>): (r: Result<map<string, Scalar>>)
    ensures r.Ok? <==> kwargs.Keys <= attributes
    ensures r.Ok? ==> r.value == kwargs
    ensures r.Err? ==> r.error == TypeError(model)
  {
    if kwargs.Keys <= attributes then Ok(kwargs) else Err(TypeError(model))
  }

  /** The state key every loaded object carries. */
  const InstanceState: string := "_sa_instance_state"

  /** A loaded object's `__dict__`: its column values plus the state key. */
  function Loaded(columns: map<string, Scalar>): map<string, Scalar>
  {
    columns[InstanceState := SOpaque]
  }

  /** Rebuilding from the filtered snapshot is what makes the filter necessary: the
      raw `__dict__` of a loaded object is refused by the constructor, while the
      snapshot is exactly the column values, which it accepts. */
  lemma SnapshotDropsState(model: string, attributes: set<string>, columns: map<string, Scalar>)
    requires InstanceState !in attributes
    requires forall k :: k in columns ==> k in attributes && |k| > 0 && k[0] != '_'
    ensures Construct(model, attributes, Loaded(columns)) == Err(TypeError(model))
    ensures PublicAttributes(Loaded(columns)) == columns
    ensures Construct(model, attributes, PublicAttributes(Loaded(columns))) == Ok(columns)
  {
    assert StartsWith(InstanceState, "_");
    forall k | k in columns
      ensures !StartsWith(k, "_")
    {
      assert k[..1][0] == k[0];
    }
  }

  /** A table after `add_all` of one new row per request and a flush: consecutive
      ids from `first`, in request order. */
  function Appended<R>(rows: map<int, R>, first: int, batch: seq<R>): map<int, R>
  {
    if batch == [] then rows
    else Appended(rows, first, batch[..|batch| - 1])[first + |batch| - 1 := batch[|batch| - 1]]
  }

  /** Each request gets its own row under its id, and the old rows stay. */
  lemma {:induction false} AppendedSpec<R>(rows: map<int, R>, first: int, batch: seq<R>)
    requires forall id :: id in rows ==> id < first
    ensures forall id :: id in Appended(rows, first, batch) <==> id in rows || first <= id < first + |batch|
    ensures forall id :: id in rows ==> Appended(rows, first, batch)[id] == rows[id]
    ensures forall i :: 0 <= i < |batch| ==> Appended(rows, first, batch)[first + i] == batch[i]
    decreases |batch|
  {
    if batch != [] {
      var prefix := batch[..|batch| - 1];
      AppendedSpec(rows, first, prefix);
      assert forall i :: 0 <= i < |prefix| ==> prefix[i] == batch[i];
    }
  }

  /** The loop of a batch insert: after `i` requests the table is the first `i`
      of them appended, and one more request appends one more row. */
  lemma AppendedSnoc<R>(rows: map<int, R>, first: int, batch: seq<R>, i: int)
    requires 0 <= i < |batch|
    ensures Appended(rows, first, batch[..i + 1]) == Appended(rows, first, batch[..i])[first + i := batch[i]]
  {
    assert batch[..i + 1][..i] == batch[..i];
  }
}
