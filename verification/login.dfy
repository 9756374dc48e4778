/** The login request handler (`POST /api/auth/login`): a fixed sequence of
    checks on the employee number and SSN the client sends, ending in exactly
    one response. The authenticator and the employee lookup are parameters; a
    call to either that throws ends in the handler's catch-all 500 response.
    The handler's result records which collaborators it consulted, in order,
    so that "is not called" can be stated. */
module LoginRoute {
  import opened Wrappers
  import opened Text
  import opened Numbers
  import opened Db

  /** The two body fields; a missing or null field is `None`. */
  datatype LoginRequest = LoginRequest(employeeNumber: Option<string>, ssn: Option<string>)

  /** What an awaited collaborator call does: resolve to a value, or throw. */
  datatype Reply<T> = Returned(value: T) | Threw

  /** One collaborator call made by the handler. */
  datatype Consultation =
    | Authenticate(empNum: int, ssn: string)
    | GetEmployee(empNum: int)

  /** The `employee` object of a successful response; `None` is a field whose
      value is `undefined` (and so absent from the JSON). */
  datatype EmployeePayload = EmployeePayload(
    id: Option<string>,
    hiddenId: Option<int>,
    name: string,
    firstName: Option<string>,
    position: Option<string>,
    department: Option<string>)

  datatype Response =
    | Failure(status: int, error: string)
    | Success(employee: EmployeePayload)
  {
    /** The HTTP status: 200 for success. */
    function Status(): int {
      match this
      case Failure(status, _) => status
      case Success(_) => 200
    }
  }

  /** The response, and the collaborator calls made on the way, in order. */
  datatype Handled = Handled(response: Response, consulted: seq<Consultation>)

  const RequiredMessage: string := "Employee number and SSN are required"
  const InvalidNumberMessage: string := "Invalid employee number"
  const InvalidCredentialsMessage: string :=
    "Invalid credentials. Please check your employee number and SSN."
  const NotFoundMessage: string := "Employee data not found"
  const ServerErrorMessage: string := "Server error during login. Please try again."

  /** JavaScript truthiness of an optional string: present and non-empty. */
  predicate Truthy(v: Option<string>)
    ensures Truthy(v) <==> v != None && v != Some("")
  {
    v.Some? && v.value != ""
  }

  /** `r` is `v` trimmed: absent exactly when `v` is, else the infix of `v`
      that has no whitespace at either end and only whitespace around it. */
  ghost predicate TrimmedCopy(v: Option<string>, r: Option<string>) {
    && (r.Some? <==> v.Some?)
    && (r.Some? ==>
          && (r.value == [] || (!IsWhitespace(r.value[0]) && !IsWhitespace(r.value[|r.value| - 1])))
          && exists i: nat :: TrimmedAt(v.value, i, r.value))
  }

  /** `v?.trim()`. */
  function TrimField(v: Option<string>): (r: Option<string>)
    ensures TrimmedCopy(v, r)
  {
    match v
    case None => None
    case Some(s) => Some(Trim(s))
  }

  /** A value interpolated into a template literal: `undefined` prints as "undefined". */
  function Interpolated(v: Option<string>): (r: string)
    ensures v.Some? ==> r == v.value
    ensures v.None? ==> r == "undefined"
  {
    match v
    case None => "undefined"
    case Some(s) => s
  }

  /** `n?.toString().trim()` of EMEMP: its decimal string, which has no
      whitespace to trim and which `parseInt` reads back as EMEMP. */
  function IdField(number: Option<int>): (id: Option<string>)
    ensures id.Some? <==> number.Some?
    ensures number.Some? ==> id == Some(IntToString(number.value))
    ensures id.Some? ==> ParseInt(id.value) == number
  {
    if number.None? then None
    else
      var n := number.value;
      IntToStringNoWhitespace(n);
      TrimNoWhitespace(IntToString(n));
      ParseIntOfIntToString(n);
      Some(Trim(IntToString(n)))
  }

  /** The success payload built from an employee record: `id` is the decimal
      string of EMEMP (trimming it changes nothing) and reads back as EMEMP;
      `hiddenId` is EMQEM unchanged; `firstName`, `position` and `department`
      are trimmed copies; `name` is the trimmed first name, one space, and the
      trimmed last name. */
  function Payload(e: EmployeeRecord): (p: EmployeePayload)
    ensures p.hiddenId == e.hiddenId
    ensures p.id.Some? <==> e.number.Some?
    ensures e.number.Some? ==> p.id == Some(IntToString(e.number.value))
    ensures p.id.Some? ==> ParseInt(p.id.value) == e.number
    ensures TrimmedCopy(e.firstName, p.firstName)
    ensures TrimmedCopy(e.position, p.position)
    ensures TrimmedCopy(e.department, p.department)
    ensures exists last :: (TrimmedCopy(e.lastName, last)
      && p.name == Interpolated(p.firstName) + " " + Interpolated(last))
  {
    var id := IdField(e.number);
    var first := TrimField(e.firstName);
    var last := TrimField(e.lastName);
    EmployeePayload(
      id,
      e.hiddenId,
      Interpolated(first) + " " + Interpolated(last),
      first,
      TrimField(e.position),
      TrimField(e.department))
  }

  /** The `POST` handler: required fields, then `parseInt`, then the
      authenticator, then the employee lookup; the first check that fails
      decides the response. */
  function Login(
    req: LoginRequest,
    authenticate: (int, string) -> Reply<bool>,
    getEmployee: int -> Reply<Option<EmployeeRecord>>): (out: Handled)
    ensures out.response.Status() in {200, 400, 401, 404, 500}
    ensures !Truthy(req.employeeNumber) || !Truthy(req.ssn) ==>
      out == Handled(Failure(400, RequiredMessage), [])
    ensures (Truthy(req.employeeNumber) && Truthy(req.ssn)
      && ParseInt(req.employeeNumber.value).None?) ==>
      out == Handled(Failure(400, InvalidNumberMessage), [])
    ensures (Truthy(req.employeeNumber) && Truthy(req.ssn)
      && ParseInt(req.employeeNumber.value).Some?) ==>
      out == AuthenticateAndLookUp(
        ParseInt(req.employeeNumber.value).value, req.ssn.value, authenticate, getEmployee)
    ensures out.consulted != [] ==>
      && Truthy(req.employeeNumber) && Truthy(req.ssn)
      && ParseInt(req.employeeNumber.value).Some?
      && out.consulted[0] == Authenticate(ParseInt(req.employeeNumber.value).value, req.ssn.value)
    ensures |out.consulted| <= 2
    ensures |out.consulted| == 2 ==>
      && out.consulted[1] == GetEmployee(out.consulted[0].empNum)
      && authenticate(out.consulted[0].empNum, out.consulted[0].ssn) == Returned(true)
    ensures out.response.Success? <==>
      |out.consulted| == 2 && getEmployee(out.consulted[1].empNum).Returned?
      && getEmployee(out.consulted[1].empNum).value.Some?
    ensures out.response.Success? ==>
      out.response.employee == Payload(getEmployee(out.consulted[1].empNum).value.value)
  {
    if !Truthy(req.employeeNumber) || !Truthy(req.ssn) then
      Handled(Failure(400, RequiredMessage), [])
    else
      match ParseInt(req.employeeNumber.value)
      case None => Handled(Failure(400, InvalidNumberMessage), [])
      case Some(empNum) => AuthenticateAndLookUp(empNum, req.ssn.value, authenticate, getEmployee)
  }

  /** The part of the handler after validation: authenticate `empNum` with the
      SSN as sent, and only if that returns true, look the employee up. */
  function AuthenticateAndLookUp(
    empNum: int, ssn: string,
    authenticate: (int, string) -> Reply<bool>,
    getEmployee: int -> Reply<Option<EmployeeRecord>>): (out: Handled)
    ensures 1 <= |out.consulted| <= 2 && out.consulted[0] == Authenticate(empNum, ssn)
    ensures |out.consulted| == 2 <==> authenticate(empNum, ssn) == Returned(true)
    ensures |out.consulted| == 2 ==>
      out == Handled(LookUp(empNum, getEmployee).response, [Authenticate(empNum, ssn)] + LookUp(empNum, getEmployee).consulted)
    ensures authenticate(empNum, ssn).Threw? ==> out.response == Failure(500, ServerErrorMessage)
    ensures authenticate(empNum, ssn) == Returned(false) ==>
      out.response == Failure(401, InvalidCredentialsMessage)
  {
    match authenticate(empNum, ssn)
    case Threw => Handled(Failure(500, ServerErrorMessage), [Authenticate(empNum, ssn)])
    case Returned(false) =>
      Handled(Failure(401, InvalidCredentialsMessage), [Authenticate(empNum, ssn)])
    case Returned(true) =>
      var looked := LookUp(empNum, getEmployee);
      Handled(looked.response, [Authenticate(empNum, ssn)] + looked.consulted)
  }

  /** The lookup stage, reached after the authenticator accepted `empNum`;
      it consults the lookup once. */
  function LookUp(empNum: int, getEmployee: int -> Reply<Option<EmployeeRecord>>): (out: Handled)
    ensures out.consulted == [GetEmployee(empNum)]
    ensures getEmployee(empNum).Threw? ==> out.response == Failure(500, ServerErrorMessage)
    ensures getEmployee(empNum) == Returned(None) ==> out.response == Failure(404, NotFoundMessage)
    ensures out.response.Success? <==> getEmployee(empNum).Returned? && getEmployee(empNum).value.Some?
    ensures out.response.Success? ==> out.response.employee == Payload(getEmployee(empNum).value.value)
  {
    var consulted := [GetEmployee(empNum)];
    match getEmployee(empNum)
    case Threw => Handled(Failure(500, ServerErrorMessage), consulted)
    case Returned(None) => Handled(Failure(404, NotFoundMessage), consulted)
    case Returned(Some(employee)) => Handled(Success(Payload(employee)), consulted)
  }

  /** The consultation threw. */
  predicate CallThrew(
    c: Consultation,
    authenticate: (int, string) -> Reply<bool>,
    getEmployee: int -> Reply<Option<EmployeeRecord>>)
  {
    match c
    case Authenticate(n, s) => authenticate(n, s).Threw?
    case GetEmployee(n) => getEmployee(n).Threw?
  }

  /** Each status has exactly one cause: 400 is a request rejected before any
      collaborator is called, 401 an authenticator that returned false, 404 a
      lookup that found no record after the authenticator accepted, 500 a
      collaborator that threw, and 200 a record found. */
  lemma LoginStatusCauses(
    req: LoginRequest,
    authenticate: (int, string) -> Reply<bool>,
    getEmployee: int -> Reply<Option<EmployeeRecord>>)
    ensures var out := Login(req, authenticate, getEmployee);
      && (out.response.Status() == 400 <==> out.consulted == [])
      && (out.response.Status() == 401 <==>
            |out.consulted| == 1
            && authenticate(out.consulted[0].empNum, out.consulted[0].ssn) == Returned(false))
      && (out.response.Status() == 404 <==>
            |out.consulted| == 2 && getEmployee(out.consulted[1].empNum) == Returned(None))
      && (out.response.Status() == 500 <==>
            out.consulted != []
            && CallThrew(out.consulted[|out.consulted| - 1], authenticate, getEmployee))
      && (out.response.Status() == 200 <==> out.response.Success?)
  {
    if Truthy(req.employeeNumber) && Truthy(req.ssn) && ParseInt(req.employeeNumber.value).Some? {
      var empNum, ssn := ParseInt(req.employeeNumber.value).value, req.ssn.value;
      assert Login(req, authenticate, getEmployee)
        == AuthenticateAndLookUp(empNum, ssn, authenticate, getEmployee);
      if authenticate(empNum, ssn) == Returned(true) {
        assert Login(req, authenticate, getEmployee).consulted
          == [Authenticate(empNum, ssn), GetEmployee(empNum)];
      }
    }
  }

  /** A request rejected by validation or parsing consults no collaborator, so
      its response is the same whatever the authenticator and lookup do. */
  lemma LoginValidationIgnoresCollaborators(
    req: LoginRequest,
    authenticate: (int, string) -> Reply<bool>,
    getEmployee: int -> Reply<Option<EmployeeRecord>>,
    authenticate': (int, string) -> Reply<bool>,
    getEmployee': int -> Reply<Option<EmployeeRecord>>)
    requires Login(req, authenticate, getEmployee).response.Status() == 400
    ensures Login(req, authenticate', getEmployee') == Login(req, authenticate, getEmployee)
  {
  }

  /** When the authenticator does not accept, the lookup is never consulted:
      the response is the same whatever the lookup would have returned. */
  lemma LoginRejectionIgnoresLookup(
    req: LoginRequest,
    authenticate: (int, string) -> Reply<bool>,
    getEmployee: int -> Reply<Option<EmployeeRecord>>,
    getEmployee': int -> Reply<Option<EmployeeRecord>>)
    requires Truthy(req.employeeNumber) && Truthy(req.ssn)
    requires ParseInt(req.employeeNumber.value).Some?
    requires authenticate(ParseInt(req.employeeNumber.value).value, req.ssn.value) != Returned(true)
    ensures Login(req, authenticate, getEmployee') == Login(req, authenticate, getEmployee)
    ensures |Login(req, authenticate, getEmployee).consulted| == 1
  {
  }

  /** An employee number with a numeric prefix, such as "123abc", passes
      validation, and the prefix's value is what is authenticated and looked up. */
  lemma LoginNumericPrefix(
    digits: string, rest: string, ssn: string,
    authenticate: (int, string) -> Reply<bool>,
    getEmployee: int -> Reply<Option<EmployeeRecord>>)
    requires digits != [] && AllDigits(digits)
    requires rest == [] || !IsDigit(rest[0])
    requires ssn != ""
    ensures var out := Login(LoginRequest(Some(digits + rest), Some(ssn)), authenticate, getEmployee);
      && out.consulted != []
      && out.consulted[0] == Authenticate(DecimalValue(digits), ssn)
      && (|out.consulted| == 2 ==> out.consulted[1] == GetEmployee(DecimalValue(digits)))
  {
    var req := LoginRequest(Some(digits + rest), Some(ssn));
    ParseIntOfPrefix(digits, rest);
    assert Truthy(req.employeeNumber) && Truthy(req.ssn);
    assert ParseInt(req.employeeNumber.value) == Some(DecimalValue(digits));
    assert Login(req, authenticate, getEmployee)
      == AuthenticateAndLookUp(DecimalValue(digits), ssn, authenticate, getEmployee);
  }

  /** The employee number "123abc" is authenticated as 123. */
  lemma LoginNumericPrefixExample(
    ssn: string,
    authenticate: (int, string) -> Reply<bool>,
    getEmployee: int -> Reply<Option<EmployeeRecord>>)
    requires ssn != ""
    ensures var out := Login(LoginRequest(Some("123abc"), Some(ssn)), authenticate, getEmployee);
      out.consulted != [] && out.consulted[0] == Authenticate(123, ssn)
  {
    var req := LoginRequest(Some("123abc"), Some(ssn));
    ParseIntNumericPrefixExample();
    assert Truthy(req.employeeNumber) && Truthy(req.ssn);
    assert Login(req, authenticate, getEmployee)
      == AuthenticateAndLookUp(123, ssn, authenticate, getEmployee);
  }
}
