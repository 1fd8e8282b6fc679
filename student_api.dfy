/**
 * The student collection endpoint: creating a student (POST) and listing
 * students one page at a time (GET). The relational store behind it is an
 * in-memory table: a sequence of rows in insertion order.
 */
module StudentApi {
  import opened Options
  import opened RegistrationOrder

  /** One stored student record. `className` holds the column named `class`. */
  datatype Student = Student(
    registrationNo: string,
    name: string,
    className: string,
    rollNo: int,
    contactNumber: string,
    status: bool)

  /**
   * The JSON body of a create request. A property the client left out is `None`.
   * The roll number is taken to be an integer already (see README).
   */
  datatype Payload = Payload(
    registrationNo: Option<string>,
    name: Option<string>,
    className: Option<string>,
    rollNo: Option<int>,
    contactNumber: Option<string>,
    status: Option<bool>)

  /** The five properties a create request must carry. */
  datatype Field = RegistrationNo | Name | Class | RollNo | ContactNumber

  /** The order in which the required properties are checked. */
  const RequiredFields: seq<Field> := [RegistrationNo, Name, Class, RollNo, ContactNumber]

  /** The property name of a field as it appears in the request body and in error messages. */
  function FieldName(f: Field): string
  {
    match f
    case RegistrationNo => "registrationNo"
    case Name => "name"
    case Class => "class"
    case RollNo => "rollNo"
    case ContactNumber => "contactNumber"
  }

  /** The text of a string property counts as given when it is present and not empty. */
  predicate TextGiven(v: Option<string>)
  {
    v.Some? && v.value != ""
  }

  /** JavaScript truthiness of `body[field]`: absent, "" and the number 0 are all falsy. */
  predicate Present(body: Payload, f: Field)
  {
    match f
    case RegistrationNo => TextGiven(body.registrationNo)
    case Name => TextGiven(body.name)
    case Class => TextGiven(body.className)
    case RollNo => body.rollNo.Some? && body.rollNo.value != 0
    case ContactNumber => TextGiven(body.contactNumber)
  }

  /** The first field of `fields`, in order, that the body does not carry. */
  function FirstMissing(body: Payload, fields: seq<Field>): (r: Option<Field>)
    ensures r.None? <==> forall i :: 0 <= i < |fields| ==> Present(body, fields[i])
    ensures r.Some? ==> exists i :: 0 <= i < |fields| && fields[i] == r.value && !Present(body, fields[i])
                                    && forall j :: 0 <= j < i ==> Present(body, fields[j])
  {
    if fields == [] then None
    else if !Present(body, fields[0]) then Some(fields[0])
    else
      var rest := FirstMissing(body, fields[1..]);
      assert rest.Some? ==> exists i :: 0 <= i < |fields| && fields[i] == rest.value && !Present(body, fields[i])
                                    && forall j :: 0 <= j < i ==> Present(body, fields[j])
      by {
        if rest.Some? {
          var i :| 0 <= i < |fields| - 1 && fields[1..][i] == rest.value && !Present(body, fields[1..][i])
                   && forall j :: 0 <= j < i ==> Present(body, fields[1..][j]);
          assert forall j :: 0 <= j < i + 1 ==> Present(body, fields[j]) by {
            forall j | 0 <= j < i + 1 ensures Present(body, fields[j]) {
              if j > 0 { assert fields[j] == fields[1..][j - 1]; }
            }
          }
        }
      }
      assert rest.None? ==> forall i :: 0 <= i < |fields| ==> Present(body, fields[i]) by {
        if rest.None? {
          forall i | 0 <= i < |fields| ensures Present(body, fields[i]) {
            if i > 0 { assert fields[i] == fields[1..][i - 1]; }
          }
        }
      }
      rest
  }

  /** A required-field check passes exactly when every required field is given. */
  predicate AllRequiredPresent(body: Payload)
  {
    Present(body, RegistrationNo) && Present(body, Name) && Present(body, Class)
    && Present(body, RollNo) && Present(body, ContactNumber)
  }

  /** The loop over the required fields finds nothing missing exactly when all five are given. */
  lemma NoneMissingIff(body: Payload)
    ensures FirstMissing(body, RequiredFields).None? <==> AllRequiredPresent(body)
  {
    assert RequiredFields[0] == RegistrationNo && RequiredFields[1] == Name && RequiredFields[2] == Class
        && RequiredFields[3] == RollNo && RequiredFields[4] == ContactNumber;
  }

  /** The `findUnique` lookup on the registration-number key. */
  function FindByRegistration(rows: seq<Student>, regNo: string): (r: Option<Student>)
    ensures r.None? <==> forall i :: 0 <= i < |rows| ==> rows[i].registrationNo != regNo
    ensures r.Some? ==> r.value in rows && r.value.registrationNo == regNo
  {
    if rows == [] then None
    else if rows[0].registrationNo == regNo then Some(rows[0])
    else
      var rest := FindByRegistration(rows[1..], regNo);
      assert rest.None? ==> forall i :: 0 <= i < |rows| ==> rows[i].registrationNo != regNo by {
        if rest.None? {
          forall i | 0 <= i < |rows| ensures rows[i].registrationNo != regNo {
            if i > 0 { assert rows[i] == rows[1..][i - 1]; }
          }
        }
      }
      rest
  }

  /** The `findFirst` lookup for a row in the given class with the given roll number. */
  function FindRollInClass(rows: seq<Student>, className: string, rollNo: int): (r: Option<Student>)
    ensures r.None? <==> forall i :: 0 <= i < |rows| ==> !(rows[i].className == className && rows[i].rollNo == rollNo)
    ensures r.Some? ==> r.value in rows && r.value.className == className && r.value.rollNo == rollNo
  {
    if rows == [] then None
    else if rows[0].className == className && rows[0].rollNo == rollNo then Some(rows[0])
    else
      var rest := FindRollInClass(rows[1..], className, rollNo);
      assert rest.None? ==> forall i :: 0 <= i < |rows| ==> !(rows[i].className == className && rows[i].rollNo == rollNo) by {
        if rest.None? {
          forall i | 0 <= i < |rows| ensures !(rows[i].className == className && rows[i].rollNo == rollNo) {
            if i > 0 { assert rows[i] == rows[1..][i - 1]; }
          }
        }
      }
      rest
  }

  /** The response of a create request: 201 with the stored record, or 400 with a message. */
  datatype Response = Created(student: Student) | BadRequest(error: string)

  function StatusCode(r: Response): int
  {
    if r.Created? then 201 else 400
  }

  const DuplicateRegistration: string := "Registration number already exists"
  const DuplicateRollInClass: string := "Roll number already exists in this class"

  /** The message for a missing required field: "<field> is required". */
  function RequiredMessage(f: Field): string
  {
    FieldName(f) + " is required"
  }

  /** The record a create request stores; `status` defaults to active. */
  function NewRecord(body: Payload): Student
    requires AllRequiredPresent(body)
  {
    Student(body.registrationNo.value, body.name.value, body.className.value,
            body.rollNo.value, body.contactNumber.value,
            if body.status.Some? then body.status.value else true)
  }

  /** What a create request answers, given the table it runs against. */
  function CreateOutcome(rows: seq<Student>, body: Payload): Response
  {
    match FirstMissing(body, RequiredFields)
    case Some(f) => BadRequest(RequiredMessage(f))
    case None =>
      NoneMissingIff(body);
      if FindByRegistration(rows, body.registrationNo.value).Some? then BadRequest(DuplicateRegistration)
      else if FindRollInClass(rows, body.className.value, body.rollNo.value).Some? then BadRequest(DuplicateRollInClass)
      else Created(NewRecord(body))
  }

  /** The table after a request has answered `res`: a created record is appended, nothing else changes. */
  function RowsAfter(rows: seq<Student>, res: Response): seq<Student>
  {
    if res.Created? then rows + [res.student] else rows
  }

  /** No two rows share a registration number. */
  ghost predicate UniqueRegistration(rows: seq<Student>)
  {
    forall i, j :: 0 <= i < j < |rows| ==> rows[i].registrationNo != rows[j].registrationNo
  }

  /** No two rows share both a class and a roll number. */
  ghost predicate UniqueRollInClass(rows: seq<Student>)
  {
    forall i, j :: 0 <= i < j < |rows| ==> rows[i].className != rows[j].className || rows[i].rollNo != rows[j].rollNo
  }

  ghost predicate TableInvariant(rows: seq<Student>)
  {
    UniqueRegistration(rows) && UniqueRollInClass(rows)
  }

  /** The student table the route handlers read and write. */
  class StudentTable {
    var rows: seq<Student>

    ghost predicate Valid()
      reads this
    {
      TableInvariant(rows)
    }

    constructor ()
      ensures rows == [] && Valid()
    {
      rows := [];
    }

    /** POST: checks the required fields in order, then the two uniqueness rules, then inserts. */
    method Create(body: Payload) returns (res: Response)
      modifies this
      ensures res == CreateOutcome(old(rows), body)
      ensures rows == RowsAfter(old(rows), res)
      ensures old(Valid()) ==> Valid()
    {
      var i := 0;
      while i < |RequiredFields|
        invariant 0 <= i <= |RequiredFields|
        invariant rows == old(rows)
        invariant FirstMissing(body, RequiredFields) == FirstMissing(body, RequiredFields[i..])
      {
        var field := RequiredFields[i];
        if !Present(body, field) {
          assert RequiredFields[i..][0] == field;
          assert FirstMissing(body, RequiredFields) == Some(field);
          res := BadRequest(RequiredMessage(field));
          return;
        }
        assert RequiredFields[i..][1..] == RequiredFields[i + 1..];
        i := i + 1;
      }
      assert RequiredFields[i..] == [];
      assert FirstMissing(body, RequiredFields) == None;
      NoneMissingIff(body);

      var existingStudent := FindByRegistration(rows, body.registrationNo.value);
      if existingStudent.Some? {
        res := BadRequest(DuplicateRegistration);
        return;
      }

      var existingRollInClass := FindRollInClass(rows, body.className.value, body.rollNo.value);
      if existingRollInClass.Some? {
        res := BadRequest(DuplicateRollInClass);
        return;
      }

      var student := NewRecord(body);
      if TableInvariant(rows) {
        CreatePreservesInvariant(rows, body);
      }
      rows := rows + [student];
      res := Created(student);
    }
  }

  // ---------------------------------------------------------------------------
  // Properties of create
  // ---------------------------------------------------------------------------

  /**
   * The required fields are checked in their fixed order: when fields before
   * index `k` are given and field `k` is not, the request is refused with that
   * field's message, whatever else the body or the table holds.
   */
  lemma {:induction false} MissingFieldRejected(rows: seq<Student>, body: Payload, k: nat)
    requires k < |RequiredFields|
    requires forall j :: 0 <= j < k ==> Present(body, RequiredFields[j])
    requires !Present(body, RequiredFields[k])
    ensures CreateOutcome(rows, body) == BadRequest(RequiredMessage(RequiredFields[k]))
    ensures StatusCode(CreateOutcome(rows, body)) == 400
    ensures RowsAfter(rows, CreateOutcome(rows, body)) == rows
  {
    var m := FirstMissing(body, RequiredFields);
    assert m.Some?;
    var i :| 0 <= i < |RequiredFields| && RequiredFields[i] == m.value && !Present(body, RequiredFields[i])
             && forall j :: 0 <= j < i ==> Present(body, RequiredFields[j]);
    assert i == k;
  }

  /**
   * A body that carries every required field but reuses a stored registration
   * number is refused with the registration message, and this wins over a
   * clash of class and roll number.
   */
  lemma DuplicateRegistrationRejected(rows: seq<Student>, body: Payload, i: nat)
    requires AllRequiredPresent(body)
    requires i < |rows| && rows[i].registrationNo == body.registrationNo.value
    ensures CreateOutcome(rows, body) == BadRequest(DuplicateRegistration)
    ensures RowsAfter(rows, CreateOutcome(rows, body)) == rows
  {
    NoneMissingIff(body);
  }

  /**
   * A body with a new registration number whose class and roll number are
   * already taken is refused with the roll-number message.
   */
  lemma DuplicateRollRejected(rows: seq<Student>, body: Payload, i: nat)
    requires AllRequiredPresent(body)
    requires forall j :: 0 <= j < |rows| ==> rows[j].registrationNo != body.registrationNo.value
    requires i < |rows| && rows[i].className == body.className.value && rows[i].rollNo == body.rollNo.value
    ensures CreateOutcome(rows, body) == BadRequest(DuplicateRollInClass)
    ensures RowsAfter(rows, CreateOutcome(rows, body)) == rows
  {
    NoneMissingIff(body);
  }

  /**
   * Create succeeds exactly when every required field is given and neither
   * uniqueness rule is broken; it then answers 201 and appends exactly one
   * record holding the given fields, with status true unless one was supplied.
   */
  lemma CreatedIff(rows: seq<Student>, body: Payload)
    ensures CreateOutcome(rows, body).Created? <==>
              AllRequiredPresent(body)
              && (forall j :: 0 <= j < |rows| ==> rows[j].registrationNo != body.registrationNo.value)
              && (forall j :: 0 <= j < |rows| ==> rows[j].className != body.className.value || rows[j].rollNo != body.rollNo.value)
    ensures CreateOutcome(rows, body).Created? ==>
              var s := CreateOutcome(rows, body).student;
              && StatusCode(CreateOutcome(rows, body)) == 201
              && RowsAfter(rows, CreateOutcome(rows, body)) == rows + [s]
              && s.registrationNo == body.registrationNo.value && s.name == body.name.value
              && s.className == body.className.value && s.rollNo == body.rollNo.value
              && s.contactNumber == body.contactNumber.value
              && s.status == (body.status != Some(false))
    ensures CreateOutcome(rows, body).BadRequest? ==> RowsAfter(rows, CreateOutcome(rows, body)) == rows
  {
    NoneMissingIff(body);
  }

  /** Create keeps both uniqueness rules of the table. */
  lemma CreatePreservesInvariant(rows: seq<Student>, body: Payload)
    requires TableInvariant(rows)
    ensures TableInvariant(RowsAfter(rows, CreateOutcome(rows, body)))
  {
    var res := CreateOutcome(rows, body);
    if res.Created? {
      CreatedIff(rows, body);
      var t := rows + [res.student];
      forall i, j | 0 <= i < j < |t|
        ensures t[i].registrationNo != t[j].registrationNo
        ensures t[i].className != t[j].className || t[i].rollNo != t[j].rollNo
      {
        if j == |rows| {
          assert t[i] == rows[i];
        } else {
          assert t[i] == rows[i] && t[j] == rows[j];
        }
      }
    }
  }

  /** A record created successfully is found afterwards under its registration number. */
  lemma {:induction false} CreateThenFind(rows: seq<Student>, body: Payload)
    requires CreateOutcome(rows, body).Created?
    ensures FindByRegistration(RowsAfter(rows, CreateOutcome(rows, body)), body.registrationNo.value)
              == Some(CreateOutcome(rows, body).student)
  {
    CreatedIff(rows, body);
    FindAppended(rows, CreateOutcome(rows, body).student);
  }

  /** Looking up the registration number of a row appended to a table that lacked it finds that row. */
  lemma {:induction false} FindAppended(rows: seq<Student>, s: Student)
    requires forall j :: 0 <= j < |rows| ==> rows[j].registrationNo != s.registrationNo
    ensures FindByRegistration(rows + [s], s.registrationNo) == Some(s)
    decreases |rows|
  {
    if rows != [] {
      assert (rows + [s])[1..] == rows[1..] + [s];
      assert forall j :: 0 <= j < |rows[1..]| ==> rows[1..][j] == rows[j + 1];
      FindAppended(rows[1..], s);
    }
  }

  // ---------------------------------------------------------------------------
  // Listing
  // ---------------------------------------------------------------------------

  /** Ascending by registration number. */
  ghost predicate SortedByRegistration(s: seq<Student>)
  {
    forall i, j :: 0 <= i < j < |s| ==> LexLeq(s[i].registrationNo, s[j].registrationNo)
  }

  /** Places `x` into an already sorted sequence. */
  function Insert(x: Student, s: seq<Student>): (r: seq<Student>)
    requires SortedByRegistration(s)
    ensures SortedByRegistration(r)
    ensures multiset(r) == multiset(s) + multiset{x}
    ensures |r| == |s| + 1
  {
    if s == [] then [x]
    else if LexLeq(x.registrationNo, s[0].registrationNo) then
      InsertAtFront(x, s);
      [x] + s
    else
      var rest := Insert(x, s[1..]);
      InsertBehindHead(x, s, rest);
      assert s == [s[0]] + s[1..];
      [s[0]] + rest
  }

  lemma InsertAtFront(x: Student, s: seq<Student>)
    requires SortedByRegistration(s) && s != [] && LexLeq(x.registrationNo, s[0].registrationNo)
    ensures SortedByRegistration([x] + s)
  {
    forall j | 0 <= j < |s| ensures LexLeq(x.registrationNo, s[j].registrationNo) {
      if j > 0 { LexLeqTransitive(x.registrationNo, s[0].registrationNo, s[j].registrationNo); }
    }
  }

  lemma InsertBehindHead(x: Student, s: seq<Student>, rest: seq<Student>)
    requires SortedByRegistration(s) && s != [] && !LexLeq(x.registrationNo, s[0].registrationNo)
    requires SortedByRegistration(rest) && multiset(rest) == multiset(s[1..]) + multiset{x}
    ensures SortedByRegistration([s[0]] + rest)
  {
    LexLeqTotal(x.registrationNo, s[0].registrationNo);
    forall k | 0 <= k < |rest| ensures LexLeq(s[0].registrationNo, rest[k].registrationNo) {
      assert rest[k] in multiset(rest);
      if rest[k] != x {
        assert rest[k] in multiset(s[1..]);
        var j :| 0 <= j < |s[1..]| && s[1..][j] == rest[k];
        assert s[j + 1] == rest[k];
      }
    }
  }

  /** The table in the order the list endpoint returns it (`orderBy registrationNo asc`). */
  function SortByRegistration(rows: seq<Student>): (r: seq<Student>)
    ensures SortedByRegistration(r)
    ensures multiset(r) == multiset(rows)
    ensures |r| == |rows|
  {
    if rows == [] then []
    else
      assert rows == [rows[0]] + rows[1..];
      Insert(rows[0], SortByRegistration(rows[1..]))
  }

  /** `pages` pages of `limit` rows hold `total` rows, and one page fewer would not. */
  predicate IsPageCount(pages: int, total: int, limit: int)
  {
    (pages - 1) * limit < total <= pages * limit
  }

  /** The page count `Math.ceil(total / limit)`, in integer arithmetic. */
  function CeilDiv(total: nat, limit: int): (r: nat)
    requires limit >= 1
    ensures IsPageCount(r, total, limit)
  {
    var q := (total + limit - 1) / limit;
    var m := (total + limit - 1) % limit;
    assert q * limit + m == total + limit - 1 && 0 <= m < limit;
    assert (q - 1) * limit == q * limit - limit;
    q
  }

  datatype Pagination = Pagination(total: int, page: int, limit: int, pages: int)
  datatype ListResponse = ListResponse(students: seq<Student>, pagination: Pagination)

  /** The query parameters `page` and `limit`, defaulting to 1 and 10 when absent. */
  function QueryParam(param: Option<int>, default: int): int
  {
    if param.Some? then param.value else default
  }

  function Min(a: int, b: int): int
  {
    if a <= b then a else b
  }

  /**
   * A table with unique registration numbers has exactly one ascending order:
   * two sorted sequences holding the same records are the same sequence. So
   * the page contents do not depend on how the sort is carried out.
   */
  lemma {:induction false} SortedPermutationUnique(a: seq<Student>, b: seq<Student>)
    requires SortedByRegistration(a) && SortedByRegistration(b)
    requires multiset(a) == multiset(b)
    requires UniqueRegistration(a)
    ensures a == b
    decreases |a|
  {
    assert |a| == |multiset(a)| == |multiset(b)| == |b|;
    if a != [] {
      SameLeast(a, b);
      TailsPermutation(a, b);
      UniqueTail(a);
      SortedTail(a);
      SortedTail(b);
      SortedPermutationUnique(a[1..], b[1..]);
      assert a == [a[0]] + a[1..] && b == [b[0]] + b[1..];
    }
  }

  /** Two sorted arrangements of the same records, unique by registration number, start with the same record. */
  lemma SameLeast(a: seq<Student>, b: seq<Student>)
    requires a != [] && b != []
    requires SortedByRegistration(a) && SortedByRegistration(b)
    requires multiset(a) == multiset(b)
    requires UniqueRegistration(a)
    ensures a[0] == b[0]
  {
    assert b[0] in multiset(a) && a[0] in multiset(b);
    var i :| 0 <= i < |a| && a[i] == b[0];
    var j :| 0 <= j < |b| && b[j] == a[0];
    if i != 0 && j != 0 {
      assert LexLeq(a[0].registrationNo, a[i].registrationNo);
      assert LexLeq(b[0].registrationNo, b[j].registrationNo);
      LexLeqAntisymmetric(a[0].registrationNo, b[0].registrationNo);
      assert false;
    }
  }

  lemma TailsPermutation(a: seq<Student>, b: seq<Student>)
    requires a != [] && b != [] && a[0] == b[0]
    requires multiset(a) == multiset(b)
    ensures multiset(a[1..]) == multiset(b[1..])
  {
    assert a == [a[0]] + a[1..] && b == [b[0]] + b[1..];
    assert multiset(a) == multiset{a[0]} + multiset(a[1..]);
    assert multiset(b) == multiset{b[0]} + multiset(b[1..]);
    assert multiset(a[1..]) == multiset(a) - multiset{a[0]};
    assert multiset(b[1..]) == multiset(b) - multiset{b[0]};
  }

  lemma UniqueTail(s: seq<Student>)
    requires s != [] && UniqueRegistration(s)
    ensures UniqueRegistration(s[1..])
  {
    forall p, q | 0 <= p < q < |s[1..]| ensures s[1..][p].registrationNo != s[1..][q].registrationNo {
      assert s[1..][p] == s[p + 1] && s[1..][q] == s[q + 1];
    }
  }

  lemma SortedTail(s: seq<Student>)
    requires s != [] && SortedByRegistration(s)
    ensures SortedByRegistration(s[1..])
  {
    forall p, q | 0 <= p < q < |s[1..]| ensures LexLeq(s[1..][p].registrationNo, s[1..][q].registrationNo) {
      assert s[1..][p] == s[p + 1] && s[1..][q] == s[q + 1];
    }
  }

  /**
   * Any ascending arrangement of the table's records with unique registration
   * numbers, such as the one the store's `orderBy` produces, is the model's sort.
   */
  lemma OrderByDeterminesSort(rows: seq<Student>, ordered: seq<Student>)
    requires SortedByRegistration(ordered) && multiset(ordered) == multiset(rows)
    requires UniqueRegistration(ordered)
    ensures ordered == SortByRegistration(rows)
  {
    SortedPermutationUnique(ordered, SortByRegistration(rows));
  }

  /** A contiguous slice holds no element more often than the whole sequence does. */
  lemma SliceSubMultiset(s: seq<Student>, lo: int, hi: int)
    requires 0 <= lo <= hi <= |s|
    ensures multiset(s[lo..hi]) <= multiset(s)
  {
    assert s == s[..lo] + s[lo..hi] + s[hi..];
  }

  /** A contiguous slice of a sorted sequence is sorted. */
  lemma SliceSorted(s: seq<Student>, lo: int, hi: int)
    requires 0 <= lo <= hi <= |s|
    ensures SortedByRegistration(s) ==> SortedByRegistration(s[lo..hi])
  {
    forall i, j | 0 <= i < j < hi - lo && SortedByRegistration(s)
      ensures LexLeq(s[lo..hi][i].registrationNo, s[lo..hi][j].registrationNo)
    {
      assert s[lo..hi][i] == s[lo + i] && s[lo..hi][j] == s[lo + j];
    }
  }

  /** The rows a page shows: the sorted table from `skip`, at most `limit` of them. */
  function PageSlice(sorted: seq<Student>, skip: int, limit: int): (r: seq<Student>)
    requires skip >= 0 && limit >= 1
    ensures |r| <= limit
    ensures |r| == (if skip >= |sorted| then 0 else Min(limit, |sorted| - skip))
    ensures forall k :: 0 <= k < |r| ==> r[k] == sorted[skip + k]
    ensures multiset(r) <= multiset(sorted)
    ensures SortedByRegistration(sorted) ==> SortedByRegistration(r)
  {
    if skip >= |sorted| then []
    else
      var end := skip + Min(limit, |sorted| - skip);
      SliceSubMultiset(sorted, skip, end);
      SliceSorted(sorted, skip, end);
      sorted[skip .. end]
  }

  /**
   * GET: the rows at sorted positions `skip .. skip + limit - 1`, where
   * `skip = (page - 1) * limit`, with the table size and the page count.
   */
  function List(rows: seq<Student>, page: int, limit: int): (r: ListResponse)
    requires page >= 1 && limit >= 1
    ensures r.pagination.total == |rows| && r.pagination.page == page && r.pagination.limit == limit
    ensures IsPageCount(r.pagination.pages, |rows|, limit)
    ensures |r.students| <= limit
    ensures var skip := Skip(page, limit);
            && |r.students| == (if skip >= |rows| then 0 else Min(limit, |rows| - skip))
            && forall k :: 0 <= k < |r.students| ==> r.students[k] == SortByRegistration(rows)[skip + k]
    ensures SortedByRegistration(r.students)
    ensures multiset(r.students) <= multiset(rows)
  {
    var sorted := SortByRegistration(rows);
    var skip := Skip(page, limit);
    var students := PageSlice(sorted, skip, limit);
    var pages := CeilDiv(|rows|, limit);
    ListResponse(students, Pagination(|rows|, page, limit, pages))
  }

  /** The number of rows before page `page`. */
  function Skip(page: int, limit: int): (skip: nat)
    requires page >= 1 && limit >= 1
    ensures skip == (page - 1) * limit
  {
    MulMonotone(0, page - 1, limit);
    (page - 1) * limit
  }

  /** GET with the query parameters as received, absent ones taking their defaults. */
  function ListQuery(rows: seq<Student>, pageParam: Option<int>, limitParam: Option<int>): (r: ListResponse)
    requires QueryParam(pageParam, 1) >= 1 && QueryParam(limitParam, 10) >= 1
    ensures pageParam.None? ==> r.pagination.page == 1
    ensures limitParam.None? ==> r.pagination.limit == 10 && |r.students| <= 10
    ensures r.pagination.page == QueryParam(pageParam, 1) && r.pagination.limit == QueryParam(limitParam, 10)
    ensures r.students == List(rows, QueryParam(pageParam, 1), QueryParam(limitParam, 10)).students
  {
    List(rows, QueryParam(pageParam, 1), QueryParam(limitParam, 10))
  }

  /** Listing an empty table gives no students, total 0 and 0 pages. */
  lemma EmptyTableList(page: int, limit: int)
    requires page >= 1 && limit >= 1
    ensures List([], page, limit) == ListResponse([], Pagination(0, page, limit, 0))
  {
  }

  /** The reported page count is exactly the number of non-empty pages. */
  lemma PageNonEmptyIff(rows: seq<Student>, page: int, limit: int)
    requires page >= 1 && limit >= 1
    ensures List(rows, page, limit).students != [] <==> page <= List(rows, page, limit).pagination.pages
  {
    var r := List(rows, page, limit);
    PageStartsBeforeEnd(|rows|, page, limit, r.pagination.pages);
  }

  /** With `pages` the ceiling of `total / limit`, page `page` starts before the end exactly when `page <= pages`. */
  lemma PageStartsBeforeEnd(total: nat, page: int, limit: int, pages: int)
    requires page >= 1 && limit >= 1
    requires IsPageCount(pages, total, limit)
    ensures Skip(page, limit) < total <==> page <= pages
  {
    if page <= pages {
      MulMonotone(page - 1, pages - 1, limit);
    } else {
      MulMonotone(pages, page - 1, limit);
    }
  }

  /** Position `i` lies `i % limit` rows into page `i / limit + 1`. */
  lemma PositionOnPage(i: nat, limit: int)
    requires limit >= 1
    ensures Skip(i / limit + 1, limit) + i % limit == i
    ensures 0 <= i % limit < limit
  {
    assert i == (i / limit) * limit + i % limit;
  }

  lemma MulMonotone(a: int, b: int, c: nat)
    requires a <= b
    ensures a * c <= b * c
  {
    assert b * c - a * c == (b - a) * c;
  }

  /** The page on which sorted position `i` falls: `i / limit + 1`. */
  function PageOf(i: nat, limit: int): (page: int)
    requires limit >= 1
    ensures page >= 1 && Skip(page, limit) <= i < Skip(page, limit) + limit
  {
    PositionOnPage(i, limit);
    i / limit + 1
  }

  /**
   * Every row appears on some listed page: the row at sorted position `i`
   * is on page `PageOf(i, limit)`, which is within the page count, at offset
   * `i` less the rows before that page.
   */
  lemma EveryRowListed(rows: seq<Student>, i: nat, limit: int)
    requires i < |rows| && limit >= 1
    ensures var page := PageOf(i, limit);
            && page <= List(rows, page, limit).pagination.pages
            && i - Skip(page, limit) < |List(rows, page, limit).students|
            && List(rows, page, limit).students[i - Skip(page, limit)] == SortByRegistration(rows)[i]
  {
    var page := PageOf(i, limit);
    RowOnPage(rows, page, i - Skip(page, limit), limit);
  }

  /** Entry `k` of page `page` is the row at sorted position `Skip(page, limit) + k`, when that row exists. */
  lemma RowOnPage(rows: seq<Student>, page: int, k: nat, limit: int)
    requires page >= 1 && limit >= 1 && k < limit
    requires Skip(page, limit) + k < |rows|
    ensures page <= List(rows, page, limit).pagination.pages
    ensures k < |List(rows, page, limit).students|
    ensures List(rows, page, limit).students[k] == SortByRegistration(rows)[Skip(page, limit) + k]
  {
    var r := List(rows, page, limit);
    PageStartsBeforeEnd(|rows|, page, limit, r.pagination.pages);
  }
}
