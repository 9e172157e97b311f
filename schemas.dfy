/** The request schemas: the name patterns of teachers, student groups,
    subjects and classrooms, the length and capacity bounds, the non-empty
    subject list, and how a request body fares as a whole (accepted, refused
    with 400 by the first validator that raises, or refused with 422 listing
    the fields whose constraints fail). */
module Schemas {
  import opened Errors
  import opened Text
  import opened Numerals
  import opened Reconciler

  /** `re.match(r"^…$", s)`: `$` also matches just before one final newline,
      so a name followed by "\n" is accepted too. */
  predicate MatchToEnd(form: string -> bool, s: string)
  {
    form(s) || (|s| >= 1 && s[|s| - 1] == '\n' && form(s[..|s| - 1]))
  }

  // ---------------------------------------------------------------------
  // Teacher names: `[А-ЯЁ][а-яё]+(-[А-ЯЁ][а-яё]+)?`

  /** `[А-ЯЁ][а-яё]+` */
  predicate CapWord(w: string)
  {
    |w| >= 2 && IsUpperYo(w[0]) && forall i :: 1 <= i < |w| ==> IsLowerYo(w[i])
  }

  function Hyphenated(a: string, b: string): string
  {
    a + "-" + b
  }

  /** The teacher name pattern against the whole of `s`. */
  predicate TeacherNameForm(s: string)
  {
    if '-' in s then
      var k := IndexOf(s, '-');
      CapWord(s[..k]) && CapWord(s[k + 1..])
    else
      CapWord(s)
  }

  /** The words joined at the first hyphen are the two halves of the name. */
  lemma HyphenatedSplit(a: string, b: string)
    requires CapWord(a)
    ensures '-' in Hyphenated(a, b)
    ensures IndexOf(Hyphenated(a, b), '-') == |a|
    ensures Hyphenated(a, b)[..|a|] == a && Hyphenated(a, b)[|a| + 1..] == b
  {
    var s := Hyphenated(a, b);
    assert s[|a|] == '-';
    assert s[..|a|] == a;
    assert s[|a| + 1..] == b;
  }

  /** A teacher name part is one capitalised word, or two joined by one hyphen. */
  lemma TeacherNameFormSpec(s: string)
    ensures TeacherNameForm(s) <==>
      CapWord(s) || exists a, b :: CapWord(a) && CapWord(b) && s == Hyphenated(a, b)
  {
    if '-' in s {
      var k := IndexOf(s, '-');
      assert !CapWord(s) by {
        assert IsUpperYo(s[k]) || IsLowerYo(s[k]) ==> false;
      }
      if TeacherNameForm(s) {
        assert s == Hyphenated(s[..k], s[k + 1..]);
      }
      forall a, b | CapWord(a) && CapWord(b) && s == Hyphenated(a, b)
        ensures TeacherNameForm(s)
      {
        HyphenatedSplit(a, b);
      }
    }
  }

  /** How the teacher name validator sees a value (`re.match`). */
  predicate TeacherNameMatches(v: string)
  {
    MatchToEnd(TeacherNameForm, v)
  }

  /** A matching name followed by a newline is let through as well. */
  lemma TrailingNewlineAccepted(w: string)
    requires TeacherNameForm(w)
    ensures TeacherNameMatches(w + "\n")
  {
    assert (w + "\n")[..|w|] == w;
  }

  // ---------------------------------------------------------------------
  // Student group names

  /** `(?:[1-9]|1[0-1])` against the whole of `t` */
  predicate GroupNumber(t: string)
  {
    (|t| == 1 && '1' <= t[0] <= '9') || t == "10" || t == "11"
  }

  /** The group number is written as a year of study from 1 to 11, without
      a leading zero. */
  lemma GroupNumberSpec(t: string)
    ensures GroupNumber(t) <==> exists n :: 1 <= n <= 11 && t == Decimal(n)
  {
    TenEleven();
    if GroupNumber(t) {
      if |t| == 1 {
        var n := t[0] as int - 48;
        assert t == Decimal(n);
      } else if t == "10" {
        assert t == Decimal(10);
      } else {
        assert t == Decimal(11);
      }
    }
    forall n | 1 <= n <= 11 && t == Decimal(n)
      ensures GroupNumber(t)
    {
      if n >= 10 {
        assert Decimal(n) == "10" || Decimal(n) == "11";
      }
    }
  }

  /** `(?:[1-9]|1[0-1])-[А-Я]` against the whole of `s` */
  predicate DashedGroupForm(s: string)
  {
    |s| >= 3 && s[|s| - 2] == '-' && IsCyrUpper(s[|s| - 1]) && GroupNumber(s[..|s| - 2])
  }

  /** `(?:[1-9]|1[0-1])[А-Я]` against the whole of `s` */
  predicate PlainGroupForm(s: string)
  {
    |s| >= 2 && IsCyrUpper(s[|s| - 1]) && GroupNumber(s[..|s| - 1])
  }

  function DashedGroupName(n: nat, letter: char): string
  {
    Decimal(n) + "-" + [letter]
  }

  function PlainGroupName(n: nat, letter: char): string
  {
    Decimal(n) + [letter]
  }

  /** A dashed group name is a year 1..11, a dash and a capital letter А..Я. */
  lemma DashedGroupFormSpec(s: string)
    ensures DashedGroupForm(s) <==>
      exists n, c :: 1 <= n <= 11 && IsCyrUpper(c) && s == DashedGroupName(n, c)
  {
    if DashedGroupForm(s) {
      var t := s[..|s| - 2];
      GroupNumberSpec(t);
      var n :| 1 <= n <= 11 && t == Decimal(n);
      assert s == DashedGroupName(n, s[|s| - 1]);
    }
    forall n, c | 1 <= n <= 11 && IsCyrUpper(c) && s == DashedGroupName(n, c)
      ensures DashedGroupForm(s)
    {
      assert s[..|s| - 2] == Decimal(n);
      GroupNumberSpec(Decimal(n));
    }
  }

  /** A group name without a dash is a year 1..11 and a capital letter А..Я. */
  lemma PlainGroupFormSpec(s: string)
    ensures PlainGroupForm(s) <==>
      exists n, c :: 1 <= n <= 11 && IsCyrUpper(c) && s == PlainGroupName(n, c)
  {
    if PlainGroupForm(s) {
      var t := s[..|s| - 1];
      GroupNumberSpec(t);
      var n :| 1 <= n <= 11 && t == Decimal(n);
      assert s == PlainGroupName(n, s[|s| - 1]);
    }
    forall n, c | 1 <= n <= 11 && IsCyrUpper(c) && s == PlainGroupName(n, c)
      ensures PlainGroupForm(s)
    {
      assert s[..|s| - 1] == Decimal(n);
      GroupNumberSpec(Decimal(n));
    }
  }

  // ---------------------------------------------------------------------
  // Classroom names: `(?:[1-9][0-9]{0,2}|1000)(?:-[а-я])?`

  /** `(?:[1-9][0-9]{0,2}|1000)` against the whole of `t` */
  predicate RoomNumber(t: string)
  {
    (1 <= |t| <= 3 && AllDigits(t) && t[0] != '0') || t == "1000"
  }

  /** The room number is a number from 1 to 1000 written without a leading
      zero. */
  lemma RoomNumberSpec(t: string)
    ensures RoomNumber(t) <==> exists n :: 1 <= n <= 1000 && t == Decimal(n)
  {
    Thousand();
    if RoomNumber(t) && t != "1000" {
      PositiveValue(t);
      ValueBelow(t);
      CanonicalIsDecimal(t);
      assert t == Decimal(Value(t));
    }
    forall n | 1 <= n <= 1000 && t == Decimal(n)
      ensures RoomNumber(t)
    {
      if n < 1000 {
        DecimalIsCanonical(n);
        ShortDecimal(n);
      }
    }
  }

  /** The classroom name pattern against the whole of `s`. */
  predicate ClassroomNameForm(s: string)
  {
    RoomNumber(s)
    || (|s| >= 2 && s[|s| - 2] == '-' && IsCyrLower(s[|s| - 1]) && RoomNumber(s[..|s| - 2]))
  }

  // ---------------------------------------------------------------------
  // Subject names, matched with `re.fullmatch`:
  // `[А-ЯЁ][а-яё]+(?:[-\s][А-ЯЁа-яё]+)*` or `[А-ЯЁ]+(?:-[А-ЯЁ]+)?`

  predicate IsWordSep(c: char)
  {
    c == '-' || IsSpace(c)
  }

  /** `(?:[-\s][А-ЯЁа-яё]+)*` against the whole of `s` */
  predicate SeparatedWords(s: string)
    decreases |s|, 0
  {
    s == [] || (|s| >= 2 && IsWordSep(s[0]) && IsCyrLetter(s[1]) && LettersThen(s[2..]))
  }

  /** `[А-ЯЁа-яё]*(?:[-\s][А-ЯЁа-яё]+)*` against the whole of `s` */
  predicate LettersThen(s: string)
    decreases |s|, 1
  {
    s == [] || (IsCyrLetter(s[0]) && LettersThen(s[1..])) || SeparatedWords(s)
  }

  /** `[а-яё]*(?:[-\s][А-ЯЁа-яё]+)*` against the whole of `s` */
  predicate LowerThen(s: string)
    decreases |s|
  {
    s == [] || (IsLowerYo(s[0]) && LowerThen(s[1..])) || SeparatedWords(s)
  }

  /** The first alternative: capitalised words. */
  predicate CapitalisedWords(s: string)
  {
    |s| >= 2 && IsUpperYo(s[0]) && IsLowerYo(s[1]) && LowerThen(s[2..])
  }

  /** `[А-ЯЁ]+` */
  predicate CapsRun(s: string)
  {
    |s| >= 1 && forall i :: 0 <= i < |s| ==> IsUpperYo(s[i])
  }

  /** The second alternative: an abbreviation, or two joined by a hyphen. */
  predicate Abbreviation(s: string)
  {
    if '-' in s then
      var k := IndexOf(s, '-');
      CapsRun(s[..k]) && CapsRun(s[k + 1..])
    else
      CapsRun(s)
  }

  predicate SubjectNameForm(s: string)
  {
    CapitalisedWords(s) || Abbreviation(s)
  }

  predicate IsNameChar(c: char)
  {
    IsCyrLetter(c) || IsWordSep(c)
  }

  /** Only letters and separators, a letter at the end, and a letter after
      every separator. */
  predicate WordsTail(s: string)
  {
    (forall i :: 0 <= i < |s| ==> IsNameChar(s[i]))
    && (s == [] || IsCyrLetter(s[|s| - 1]))
    && (forall i :: 0 <= i < |s| - 1 && IsWordSep(s[i]) ==> IsCyrLetter(s[i + 1]))
  }

  lemma {:induction false} SeparatedWordsShape(s: string)
    requires SeparatedWords(s)
    ensures WordsTail(s)
    decreases |s|, 0
  {
    if s != [] {
      LettersThenShape(s[2..]);
      assert s == s[..2] + s[2..];
    }
  }

  lemma {:induction false} LettersThenShape(s: string)
    requires LettersThen(s)
    ensures WordsTail(s)
    decreases |s|, 1
  {
    if s == [] {
    } else if IsCyrLetter(s[0]) && LettersThen(s[1..]) {
      LettersThenShape(s[1..]);
      assert s == [s[0]] + s[1..];
    } else {
      SeparatedWordsShape(s);
    }
  }

  lemma {:induction false} LowerThenShape(s: string)
    requires LowerThen(s)
    ensures WordsTail(s)
    decreases |s|
  {
    if s == [] {
    } else if IsLowerYo(s[0]) && LowerThen(s[1..]) {
      LowerThenShape(s[1..]);
      assert s == [s[0]] + s[1..];
    } else {
      SeparatedWordsShape(s);
    }
  }

  /** An accepted subject name starts with a capital letter, ends with a
      letter and holds nothing but Cyrillic letters, hyphens and white
      space: a lowercase start, a digit, a Latin letter or a trailing newline
      is refused. */
  lemma SubjectNameShape(s: string)
    requires SubjectNameForm(s)
    ensures |s| >= 1 && IsUpperYo(s[0]) && IsCyrLetter(s[|s| - 1])
    ensures forall i :: 0 <= i < |s| ==> IsNameChar(s[i])
  {
    if CapitalisedWords(s) {
      LowerThenShape(s[2..]);
      assert s == s[..2] + s[2..];
    } else if '-' in s {
      var k := IndexOf(s, '-');
      assert s == s[..k] + "-" + s[k + 1..];
      assert s[0] == s[..k][0];
    }
  }

  /** A run of lowercase letters is a valid rest of the first word. */
  lemma {:induction false} LowerRun(s: string)
    requires forall i :: 0 <= i < |s| ==> IsLowerYo(s[i])
    ensures LowerThen(s)
    decreases |s|
  {
    if s != [] {
      LowerRun(s[1..]);
    }
  }

  /** Every single capitalised word (a teacher name without a hyphen) is a
      subject name as well. */
  lemma CapWordIsSubjectName(w: string)
    requires CapWord(w)
    ensures SubjectNameForm(w)
  {
    LowerRun(w[2..]);
  }

  // ---------------------------------------------------------------------
  // Fields and whole requests

  /** How one field fares: it passes, a `Field` constraint fails (collected
      into a 422), or a validator raises `HTTPException(400)`, which ends
      validation at once. */
  datatype FieldCheck = Passed | Invalid | Raised

  datatype FieldResult = FieldResult(field: string, check: FieldCheck)

  datatype Verdict = Accepted | BadRequest(field: string) | Unprocessable(fields: seq<string>)

  /** The outcome of validating the fields in declaration order. */
  function Judge(results: seq<FieldResult>): (v: Verdict)
    ensures v.Accepted? <==> forall i :: 0 <= i < |results| ==> results[i].check == Passed
    ensures v.BadRequest? <==> exists i :: 0 <= i < |results| && results[i].check == Raised
    ensures v.BadRequest? ==>
      exists i :: (0 <= i < |results| && results[i] == FieldResult(v.field, Raised)
        && forall j :: 0 <= j < i ==> results[j].check != Raised)
    ensures v.Unprocessable? ==>
      forall f :: f in v.fields <==> exists i :: 0 <= i < |results| && results[i] == FieldResult(f, Invalid)
  {
    if results == [] then Accepted
    else
      var rest := Judge(results[1..]);
      assert forall i :: 1 <= i < |results| ==> results[i] == results[1..][i - 1];
      match results[0].check
      case Raised => BadRequest(results[0].field)
      case Passed =>
        if rest.BadRequest? then
          var k :| 0 <= k < |results| - 1 && results[1..][k] == FieldResult(rest.field, Raised)
            && forall j :: 0 <= j < k ==> results[1..][j].check != Raised;
          assert results[k + 1] == FieldResult(rest.field, Raised);
          rest
        else rest
      case Invalid =>
        if rest.BadRequest? then
          var k :| 0 <= k < |results| - 1 && results[1..][k] == FieldResult(rest.field, Raised)
            && forall j :: 0 <= j < k ==> results[1..][j].check != Raised;
          assert results[k + 1] == FieldResult(rest.field, Raised);
          rest
        else
          Unprocessable([results[0].field] + if rest.Unprocessable? then rest.fields else [])
  }

  /** Fields that pass do not change the outcome of those after them. */
  lemma {:induction false} PassedPrefix(passed: seq<FieldResult>, rest: seq<FieldResult>)
    requires forall i :: 0 <= i < |passed| ==> passed[i].check == Passed
    ensures Judge(passed + rest) == Judge(rest)
    decreases |passed|
  {
    if passed == [] {
      assert passed + rest == rest;
    } else {
      PassedPrefix(passed[1..], rest);
      assert (passed + rest)[0] == passed[0];
      assert (passed + rest)[1..] == passed[1..] + rest;
    }
  }

  /** A `str` field with `min_length`/`max_length` whose after-validator
      raises 400 when the pattern does not match; the validator does not run
      when the length is out of bounds. */
  function StrCheck(value: string, minLength: nat, maxLength: nat, matches: bool): (r: FieldCheck)
    ensures r == Passed <==> minLength <= |value| <= maxLength && matches
    ensures r == Invalid <==> !(minLength <= |value| <= maxLength)
  {
    if |value| < minLength || |value| > maxLength then Invalid
    else if matches then Passed
    else Raised
  }

  /** An optional capacity bounded by 1..50 (`ge=1` or `gt=0`, with `le=50`). */
  function CapacityCheck(capacity: Option<int>): (r: FieldCheck)
    ensures r != Raised
    ensures r == Passed <==> capacity.None? || 1 <= capacity.value <= 50
  {
    match capacity
    case None => Passed
    case Some(c) => if 0 < c <= 50 then Passed else Invalid
  }

  /** `subjects` with `default_factory=list` and a before-validator raising
      400 on an empty list. `None` is a body without the key: the default is
      used and the validator does not run on it. */
  function NonEmptySubjectsCheck<T>(subjects: Option<seq<T>>): (r: FieldCheck)
    ensures r != Invalid
    ensures r == Raised <==> subjects == Some([])
  {
    if subjects == Some([]) then Raised else Passed
  }

  /** A required `bool` field; `None` is a body without the key. */
  function RequiredFlagCheck(flag: Option<bool>): (r: FieldCheck)
    ensures r != Raised
    ensures r == Passed <==> flag.Some?
  {
    if flag.Some? then Passed else Invalid
  }

  // Teachers

  /** The body of a teacher create or update request. */
  datatype TeacherBody = TeacherBody(
    lastName: string, firstName: string, patronymic: string,
    subjects: Option<seq<SubjectHours>>, isActive: Option<bool>)

  function TeacherNameCheck(v: string): FieldCheck
  {
    StrCheck(v, 2, 30, TeacherNameMatches(v))
  }

  function TeacherNameResults(b: TeacherBody): seq<FieldResult>
  {
    [FieldResult("last_name", TeacherNameCheck(b.lastName)),
     FieldResult("first_name", TeacherNameCheck(b.firstName)),
     FieldResult("patronymic", TeacherNameCheck(b.patronymic)),
     FieldResult("subjects", NonEmptySubjectsCheck(b.subjects))]
  }

  /** A create request; an `is_active` key in the body is ignored. */
  function TeacherCreateVerdict(b: TeacherBody): Verdict
  {
    Judge(TeacherNameResults(b))
  }

  /** An update (PUT) request, which must carry `is_active`. */
  function TeacherUpdateVerdict(b: TeacherBody): Verdict
  {
    Judge(TeacherNameResults(b) + [FieldResult("is_active", RequiredFlagCheck(b.isActive))])
  }

  predicate TeacherNameOk(v: string)
  {
    2 <= |v| <= 30 && TeacherNameMatches(v)
  }

  /** A create request is accepted exactly when the three name parts are in
      bounds and match, and the body does not carry an empty subject list. */
  lemma TeacherCreateAccepted(b: TeacherBody)
    ensures TeacherCreateVerdict(b) == Accepted <==>
      TeacherNameOk(b.lastName) && TeacherNameOk(b.firstName) && TeacherNameOk(b.patronymic)
      && b.subjects != Some([])
  {
    var rs := TeacherNameResults(b);
    assert rs[0].check == TeacherNameCheck(b.lastName);
    assert rs[1].check == TeacherNameCheck(b.firstName);
    assert rs[2].check == TeacherNameCheck(b.patronymic);
    assert rs[3].check == NonEmptySubjectsCheck(b.subjects);
  }

  /** An update request is accepted exactly when the create rules hold and
      `is_active` is present. */
  lemma TeacherUpdateAccepted(b: TeacherBody)
    ensures TeacherUpdateVerdict(b) == Accepted <==>
      TeacherCreateVerdict(b) == Accepted && b.isActive.Some?
  {
    var rs := TeacherNameResults(b) + [FieldResult("is_active", RequiredFlagCheck(b.isActive))];
    assert rs[4].check == RequiredFlagCheck(b.isActive);
    assert forall i :: 0 <= i < 4 ==> rs[i] == TeacherNameResults(b)[i];
    TeacherCreateAccepted(b);
  }

  /** An empty subject list is refused with 400 even when name parts are too
      short or too long; only a name that fails its pattern is reported first. */
  lemma EmptySubjectsRefused(b: TeacherBody)
    requires b.subjects == Some([])
    requires !TeacherNameMatches(b.lastName) ==> !(2 <= |b.lastName| <= 30)
    requires !TeacherNameMatches(b.firstName) ==> !(2 <= |b.firstName| <= 30)
    requires !TeacherNameMatches(b.patronymic) ==> !(2 <= |b.patronymic| <= 30)
    ensures TeacherCreateVerdict(b) == BadRequest("subjects")
  {
    var rs := TeacherNameResults(b);
    assert rs[3] == FieldResult("subjects", Raised);
    var v := TeacherCreateVerdict(b);
    var i :| 0 <= i < |rs| && rs[i] == FieldResult(v.field, Raised)
      && forall j :: 0 <= j < i ==> rs[j].check != Raised;
    assert i == 3;
  }

  /** A body that leaves `subjects` out gets the empty default without the
      non-empty check, and is accepted when the names are. */
  lemma OmittedSubjectsAccepted(b: TeacherBody)
    requires b.subjects.None?
    requires TeacherNameOk(b.lastName) && TeacherNameOk(b.firstName) && TeacherNameOk(b.patronymic)
    ensures TeacherCreateVerdict(b) == Accepted
  {
    TeacherCreateAccepted(b);
  }

  /** An update without `is_active` and with otherwise valid fields is a 422
      naming exactly that field. */
  lemma UpdateWithoutFlag(b: TeacherBody)
    requires b.isActive.None?
    requires TeacherCreateVerdict(b) == Accepted
    ensures TeacherUpdateVerdict(b) == Unprocessable(["is_active"])
  {
    var last := [FieldResult("is_active", Invalid)];
    PassedPrefix(TeacherNameResults(b), last);
    assert Judge(last[1..]) == Accepted;
  }

  lemma ExampleNamesMatch()
    ensures TeacherNameForm("Мамин-Сибиряк")
    ensures TeacherNameForm("Дмитрий") && TeacherNameForm("Наркисович")
  {
    HyphenatedExample();
    FirstNameExample();
    PatronymicExample();
  }

  lemma FirstNameExample()
    ensures TeacherNameForm("Дмитрий")
  {
    SingleName("Дмитрий");
  }

  lemma PatronymicExample()
    ensures TeacherNameForm("Наркисович")
  {
    SingleName("Наркисович");
  }

  lemma HyphenatedExample()
    ensures TeacherNameForm("Мамин-Сибиряк")
  {
    HyphenatedName("Мамин", "Сибиряк");
    assert "Мамин-Сибиряк" == Hyphenated("Мамин", "Сибиряк");
  }

  lemma HyphenatedName(a: string, b: string)
    requires CapWord(a) && CapWord(b)
    ensures TeacherNameForm(Hyphenated(a, b))
  {
    HyphenatedSplit(a, b);
  }

  lemma SingleName(w: string)
    requires CapWord(w)
    ensures TeacherNameForm(w)
  {
    assert forall i :: 0 <= i < |w| ==> IsCyrLetter(w[i]);
  }

  /** The documented example is accepted. */
  lemma TeacherExampleAccepted()
    ensures TeacherCreateVerdict(TeacherBody("Мамин-Сибиряк", "Дмитрий", "Наркисович",
      Some([SubjectHours(1, 22), SubjectHours(4, 13)]), None)) == Accepted
  {
    ExampleNamesMatch();
    TeacherCreateAccepted(TeacherBody("Мамин-Сибиряк", "Дмитрий", "Наркисович",
      Some([SubjectHours(1, 22), SubjectHours(4, 13)]), None));
  }

  /** `is_active` of a teacher response defaults to true. */
  function ResponseIsActive(isActive: Option<bool>): (r: bool)
    ensures isActive.None? ==> r
    ensures isActive.Some? ==> r == isActive.value
  {
    if isActive.Some? then isActive.value else true
  }

  // Student groups

  datatype GroupBody = GroupBody(name: string, capacity: Option<int>, subjects: Option<seq<SubjectHours>>)

  function GroupResults(b: GroupBody, nameMatches: bool): seq<FieldResult>
  {
    [FieldResult("name", StrCheck(b.name, 2, 5, nameMatches)),
     FieldResult("capacity", CapacityCheck(b.capacity)),
     FieldResult("subjects", NonEmptySubjectsCheck(b.subjects))]
  }

  /** A group request where names look like "11-Г". */
  function DashedGroupVerdict(b: GroupBody): Verdict
  {
    Judge(GroupResults(b, MatchToEnd(DashedGroupForm, b.name)))
  }

  /** A group request where names look like "11Г". */
  function PlainGroupVerdict(b: GroupBody): Verdict
  {
    Judge(GroupResults(b, MatchToEnd(PlainGroupForm, b.name)))
  }

  /** A group request is accepted exactly when its name is in bounds and
      matches, its capacity (if any) lies in 1..50 and it does not carry an
      empty subject list. */
  lemma GroupAccepted(b: GroupBody, nameMatches: bool)
    ensures Judge(GroupResults(b, nameMatches)) == Accepted <==>
      2 <= |b.name| <= 5 && nameMatches
      && (b.capacity.None? || 1 <= b.capacity.value <= 50)
      && b.subjects != Some([])
  {
    var rs := GroupResults(b, nameMatches);
    assert rs[0].check == StrCheck(b.name, 2, 5, nameMatches);
    assert rs[1].check == CapacityCheck(b.capacity);
    assert rs[2].check == NonEmptySubjectsCheck(b.subjects);
  }

  /** The documented examples: "11-Г" is a dashed name and "11Г" a plain one;
      "0-А", "12-А" and "5-Ё" are refused. */
  lemma GroupNameExamples()
    ensures DashedGroupForm("11-Г") && PlainGroupForm("11Г")
    ensures !MatchToEnd(DashedGroupForm, "0-А")
    ensures !MatchToEnd(DashedGroupForm, "12-А")
    ensures !MatchToEnd(DashedGroupForm, "5-Ё")
  {
    assert "11-Г"[..2] == "11";
    assert "11Г"[..2] == "11";
    assert "0-А"[..1] == "0";
    assert "12-А"[..2] == "12";
  }

  // Subjects

  function SubjectVerdict(name: string): Verdict
  {
    Judge([FieldResult("name", StrCheck(name, 2, 30, SubjectNameForm(name)))])
  }

  /** "Биология" is accepted. */
  lemma SubjectExampleAccepted()
    ensures SubjectVerdict("Биология") == Accepted
  {
    var s := "Биология";
    assert CapWord(s);
    CapWordIsSubjectName(s);
  }

  /** A subject name with a character other than a Cyrillic letter, a hyphen
      or white space, or with a lowercase first letter, is refused with 400
      when it is within the length bounds. */
  lemma SubjectBadCharacterRefused(name: string)
    requires 2 <= |name| <= 30
    requires (exists i :: 0 <= i < |name| && !IsNameChar(name[i])) || !IsUpperYo(name[0])
      || !IsCyrLetter(name[|name| - 1])
    ensures SubjectVerdict(name) == BadRequest("name")
  {
    if SubjectNameForm(name) {
      SubjectNameShape(name);
    }
  }

  // Classrooms

  datatype ClassroomBody = ClassroomBody(name: string, capacity: Option<int>, subjects: Option<seq<int>>)

  /** `subjects` defaults to an empty list and has no validator, so it never
      decides the verdict. */
  function ClassroomVerdict(b: ClassroomBody): Verdict
  {
    Judge([FieldResult("name", StrCheck(b.name, 1, 5, MatchToEnd(ClassroomNameForm, b.name))),
           FieldResult("capacity", CapacityCheck(b.capacity)),
           FieldResult("subjects", Passed)])
  }

  /** Whether a classroom request is accepted does not depend on its
      subjects, an empty list included. */
  lemma ClassroomAccepted(b: ClassroomBody)
    ensures ClassroomVerdict(b) == Accepted <==>
      1 <= |b.name| <= 5 && MatchToEnd(ClassroomNameForm, b.name)
      && (b.capacity.None? || 1 <= b.capacity.value <= 50)
  {
    var rs := [FieldResult("name", StrCheck(b.name, 1, 5, MatchToEnd(ClassroomNameForm, b.name))),
               FieldResult("capacity", CapacityCheck(b.capacity)),
               FieldResult("subjects", Passed)];
    assert rs[0].check == StrCheck(b.name, 1, 5, MatchToEnd(ClassroomNameForm, b.name));
    assert rs[1].check == CapacityCheck(b.capacity);
  }

  /** "111-а" is accepted; "0" and "01" are refused with 400; "1000-а"
      matches the pattern but is one character too long, a 422. */
  lemma ClassroomNameExamples()
    ensures ClassroomVerdict(ClassroomBody("111-а", Some(32), Some([]))) == Accepted
    ensures ClassroomVerdict(ClassroomBody("0", None, None)) == BadRequest("name")
    ensures ClassroomVerdict(ClassroomBody("01", None, None)) == BadRequest("name")
    ensures ClassroomNameForm("1000-а")
    ensures ClassroomVerdict(ClassroomBody("1000-а", None, None)) == Unprocessable(["name"])
  {
    assert "111-а"[..3] == "111";
    assert AllDigits("111");
    ClassroomAccepted(ClassroomBody("111-а", Some(32), Some([])));
    assert "1000-а"[..4] == "1000";
    assert !ClassroomNameForm("0");
    assert !ClassroomNameForm("01");
  }
}
