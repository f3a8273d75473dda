/** The `director_create_classroom` edge function: a ladder of early-return
    checks on a POST request (CORS preflight, server configuration, the
    caller's session, the caller's profile, the body), then one insert into
    the classrooms table. The session lookup, the profile lookup and the
    insert are calls into the hosted database; their results are inputs
    here. */
module CreateClassroom {
  import opened Options
  import opened Text
  import opened Roles

  /** A JSON value of the request body. Numbers are integers in this model.
      Arrays and objects are always truthy and have no `trim` method, which
      is all the handler can observe of them, so one constructor stands for
      both. */
  datatype Json = JNull | JBool(b: bool) | JNumber(n: int) | JString(s: string) | JComposite

  /** JavaScript truthiness of a JSON value. */
  predicate Truthy(v: Json)
  {
    match v
    case JNull => false
    case JBool(b) => b
    case JNumber(n) => n != 0
    case JString(s) => s != ""
    case JComposite => true
  }

  /** The incoming request: its HTTP method and the fields of its JSON body,
      None when the body does not parse. A body that parses to something
      other than an object has no `name` or `grade` property and is given
      as an empty field map. */
  datatype Request = Request(httpMethod: string, body: Option<map<string, Json>>)

  /** SUPABASE_URL, SUPABASE_ANON_KEY and SUPABASE_SERVICE_ROLE_KEY. */
  datatype Env = Env(url: Option<string>, anonKey: Option<string>, serviceKey: Option<string>)

  /** What the auth service answers for the caller's Authorization header. */
  datatype AuthResult = AuthError | NoUser | SignedIn(userId: string)

  /** The caller's row of the users table. */
  datatype Profile = Profile(id: string, role: UserRole, schoolId: Option<string>)

  /** The answer to the profile query: an error, or zero or one row. */
  datatype ProfileLookup = LookupFailed(message: string) | LookedUp(profile: Option<Profile>)

  /** The answer of the store to the insert: rejected with a message, or
      stored under a fresh id at a creation time. */
  datatype StoreResult = Rejected(message: string) | Stored(id: string, createdAt: int)

  datatype Classroom = Classroom(id: string, name: string, grade: Json, schoolId: string, createdAt: int)

  /** The row the handler asks the store to insert. */
  datatype ClassroomDraft = ClassroomDraft(name: string, grade: Json, schoolId: string)

  datatype Payload = PlainText(text: string) | ErrorMessage(message: string) | Row(classroom: Classroom)

  datatype Response = Response(status: int, payload: Payload, headers: map<string, string>)

  /** Where the check ladder ends: the preflight answer, a refusal with its
      status and message, or the insert of a row. */
  datatype Step = Preflight | Refuse(status: int, message: string) | Insert(draft: ClassroomDraft)

  const CorsHeaders: map<string, string> := map[
    "Access-Control-Allow-Origin" := "*",
    "Access-Control-Allow-Headers" := "authorization, x-client-info, apikey, content-type",
    "Access-Control-Allow-Methods" := "POST, OPTIONS"
  ]

  function JsonResponse(status: int, payload: Payload): Response
  {
    Response(status, payload, map["Content-Type" := "application/json"] + CorsHeaders)
  }

  const PreflightResponse: Response := Response(200, PlainText("ok"), CorsHeaders)

  predicate IsPreflight(req: Request)
  {
    req.httpMethod == "OPTIONS"
  }

  predicate EnvComplete(env: Env)
  {
    IsTruthy(env.url) && IsTruthy(env.anonKey) && IsTruthy(env.serviceKey)
  }

  predicate IsDirectorWithSchool(lookup: ProfileLookup)
  {
    && lookup.LookedUp?
    && lookup.profile.Some?
    && lookup.profile.value.role == DIRECTOR
    && IsTruthy(lookup.profile.value.schoolId)
  }

  /** An unparseable body reads as `{}`. */
  function BodyFields(req: Request): map<string, Json>
  {
    match req.body
    case None => map[]
    case Some(fields) => fields
  }

  /** What `body?.name?.trim()` yields: nothing for a missing or null name,
      the trimmed text for a string, and a TypeError for anything else. */
  datatype NameField = NoName | Trimmed(text: string) | NotAString

  function ReadName(fields: map<string, Json>): (r: NameField)
    ensures r.NoName? <==> "name" !in fields || fields["name"].JNull?
    ensures r.Trimmed? <==> "name" in fields && fields["name"].JString?
  {
    if "name" !in fields then NoName
    else match fields["name"]
      case JNull => NoName
      case JString(s) => Trimmed(Trim(s))
      case _ => NotAString
  }

  /** `body?.grade`, None when the property is missing. */
  function ReadGrade(fields: map<string, Json>): (r: Option<Json>)
    ensures r.Some? <==> "grade" in fields
    ensures r.Some? ==> r.value == fields["grade"]
  {
    if "grade" in fields then Some(fields["grade"]) else None
  }

  predicate NameThrows(req: Request)
  {
    ReadName(BodyFields(req)).NotAString?
  }

  /** The body names a classroom: a name that is non-empty once trimmed and
      a truthy grade. */
  predicate BodyAccepted(req: Request)
  {
    var fields := BodyFields(req);
    var name := ReadName(fields);
    var grade := ReadGrade(fields);
    name.Trimmed? && name.text != "" && grade.Some? && Truthy(grade.value)
  }

  /** The check ladder, in the order the handler runs it. */
  function Check(req: Request, env: Env, auth: AuthResult, lookup: ProfileLookup): (step: Step)
    ensures step.Refuse? ==> step.status in {400, 401, 403, 500}
    ensures step.Insert? ==> IsDirectorWithSchool(lookup) && step.draft.name != ""
  {
    if IsPreflight(req) then Preflight
    else if !EnvComplete(env) then Refuse(500, "Missing Supabase env")
    else if !auth.SignedIn? then Refuse(401, "Unauthorized")
    else if lookup.LookupFailed? then Refuse(400, lookup.message)
    else if !IsDirectorWithSchool(lookup) then Refuse(403, "Not a director or no school assigned")
    else if NameThrows(req) then Refuse(500, "Unexpected error")
    else if !BodyAccepted(req) then Refuse(400, "Missing name or grade")
    else
      var fields := BodyFields(req);
      Insert(ClassroomDraft(ReadName(fields).text, ReadGrade(fields).value, lookup.profile.value.schoolId.value))
  }

  /** The row the store holds after accepting a draft. */
  function StoredRow(draft: ClassroomDraft, id: string, createdAt: int): Classroom
  {
    Classroom(id, draft.name, draft.grade, draft.schoolId, createdAt)
  }

  /** The response once the store has answered the insert, if there was one. */
  function Answer(step: Step, store: StoreResult): (r: Response)
    ensures forall k :: k in CorsHeaders ==> k in r.headers && r.headers[k] == CorsHeaders[k]
    ensures r.payload.Row? <==> step.Insert? && store.Stored?
  {
    match step
    case Preflight => PreflightResponse
    case Refuse(status, message) => JsonResponse(status, ErrorMessage(message))
    case Insert(d) =>
      match store
      case Rejected(m) => JsonResponse(400, ErrorMessage(m))
      case Stored(id, at) => JsonResponse(200, Row(StoredRow(d, id, at)))
  }

  /** The classrooms table of the database. */
  class ClassroomTable {
    var rows: seq<Classroom>

    constructor (initial: seq<Classroom>)
      ensures rows == initial
    {
      rows := initial;
    }
  }

  /** One request to the edge function: run the ladder, then insert. */
  method Serve(table: ClassroomTable, req: Request, env: Env, auth: AuthResult, lookup: ProfileLookup, store: StoreResult)
    returns (resp: Response)
    modifies table
    ensures resp == Answer(Check(req, env, auth, lookup), store)
    ensures match Check(req, env, auth, lookup)
      case Insert(d) =>
        if store.Stored? then table.rows == old(table.rows) + [StoredRow(d, store.id, store.createdAt)]
        else table.rows == old(table.rows)
      case _ => table.rows == old(table.rows)
  {
    var step := Check(req, env, auth, lookup);
    match step {
      case Preflight =>
        resp := PreflightResponse;
      case Refuse(status, message) =>
        resp := JsonResponse(status, ErrorMessage(message));
      case Insert(d) =>
        match store {
          case Rejected(m) =>
            resp := JsonResponse(400, ErrorMessage(m));
          case Stored(id, at) =>
            var row := StoredRow(d, id, at);
            table.rows := table.rows + [row];
            resp := JsonResponse(200, Row(row));
        }
    }
  }

  // ---------------------------------------------------------------------
  // Properties

  /** A preflight request is answered 200 "ok" before anything else is
      looked at. */
  lemma PreflightFirst(req: Request, env: Env, auth: AuthResult, lookup: ProfileLookup, store: StoreResult)
    requires IsPreflight(req)
    ensures Answer(Check(req, env, auth, lookup), store) == Response(200, PlainText("ok"), CorsHeaders)
  {
  }

  /** Each status code, stated as exactly the combination of checks that
      leads to it: the first failing check decides. */
  lemma StatusCharacterisation(req: Request, env: Env, auth: AuthResult, lookup: ProfileLookup, store: StoreResult)
    ensures var s := Answer(Check(req, env, auth, lookup), store).status;
      && s in {200, 400, 401, 403, 500}
      && (s == 500 <==> !IsPreflight(req) && (!EnvComplete(env) ||
                          (auth.SignedIn? && IsDirectorWithSchool(lookup) && NameThrows(req))))
      && (s == 401 <==> !IsPreflight(req) && EnvComplete(env) && !auth.SignedIn?)
      && (s == 403 <==> !IsPreflight(req) && EnvComplete(env) && auth.SignedIn?
                          && lookup.LookedUp? && !IsDirectorWithSchool(lookup))
      && (s == 400 <==> !IsPreflight(req) && EnvComplete(env) && auth.SignedIn?
                          && (lookup.LookupFailed? ||
                              (IsDirectorWithSchool(lookup) && !NameThrows(req) &&
                               (!BodyAccepted(req) || store.Rejected?))))
      && (s == 200 <==> IsPreflight(req) || (EnvComplete(env) && auth.SignedIn? &&
                          IsDirectorWithSchool(lookup) && BodyAccepted(req) && store.Stored?))
  {
  }

  /** The insert is reached exactly when every check passes, and then the
      row carries the trimmed name, the grade as sent, and the school of the
      caller's profile. */
  lemma InsertOnlyForDirectorWithSchool(req: Request, env: Env, auth: AuthResult, lookup: ProfileLookup)
    ensures Check(req, env, auth, lookup).Insert? <==>
      !IsPreflight(req) && EnvComplete(env) && auth.SignedIn? && IsDirectorWithSchool(lookup) && BodyAccepted(req)
    ensures match Check(req, env, auth, lookup)
      case Insert(d) =>
        && lookup.LookedUp? && lookup.profile.Some?
        && lookup.profile.value.role == DIRECTOR
        && Some(d.schoolId) == lookup.profile.value.schoolId
        && "name" in BodyFields(req) && BodyFields(req)["name"].JString?
        && d.name == Trim(BodyFields(req)["name"].s) && d.name != ""
        && "grade" in BodyFields(req) && d.grade == BodyFields(req)["grade"] && Truthy(d.grade)
      case _ => true
  {
    var fields := BodyFields(req);
    if Check(req, env, auth, lookup).Insert? {
      assert BodyAccepted(req);
      var name := ReadName(fields);
      assert name.Trimmed? && "name" in fields && fields["name"].JString?;
      assert ReadGrade(fields) == Some(fields["grade"]);
    }
  }

  /** The ladder reads the request only through its method, its name and
      its grade. */
  lemma CheckReadsNameAndGrade(r1: Request, r2: Request, env: Env, auth: AuthResult, lookup: ProfileLookup)
    requires r1.httpMethod == r2.httpMethod
    requires ReadName(BodyFields(r1)) == ReadName(BodyFields(r2))
    requires ReadGrade(BodyFields(r1)) == ReadGrade(BodyFields(r2))
    ensures Check(r1, env, auth, lookup) == Check(r2, env, auth, lookup)
  {
    assert NameThrows(r1) == NameThrows(r2) && BodyAccepted(r1) == BodyAccepted(r2);
  }

  /** Nothing in the body besides `name` and `grade` changes the outcome; in
      particular a `school_id` field cannot choose the school. */
  lemma BodyCannotChooseSchool(httpMethod: string, fields: map<string, Json>, key: string, value: Json,
                               env: Env, auth: AuthResult, lookup: ProfileLookup)
    requires key != "name" && key != "grade"
    ensures Check(Request(httpMethod, Some(fields[key := value])), env, auth, lookup)
         == Check(Request(httpMethod, Some(fields)), env, auth, lookup)
  {
    var updated := fields[key := value];
    assert ("name" in updated <==> "name" in fields) && ("name" in fields ==> updated["name"] == fields["name"]);
    assert ("grade" in updated <==> "grade" in fields) && ("grade" in fields ==> updated["grade"] == fields["grade"]);
    CheckReadsNameAndGrade(Request(httpMethod, Some(updated)), Request(httpMethod, Some(fields)), env, auth, lookup);
  }

  /** A body that does not parse is handled exactly as an empty object. */
  lemma MalformedBodyIsEmptyObject(httpMethod: string, env: Env, auth: AuthResult, lookup: ProfileLookup)
    ensures Check(Request(httpMethod, None), env, auth, lookup)
         == Check(Request(httpMethod, Some(map[])), env, auth, lookup)
    ensures !IsPreflight(Request(httpMethod, None)) && EnvComplete(env) && auth.SignedIn?
            && IsDirectorWithSchool(lookup)
        ==> Check(Request(httpMethod, None), env, auth, lookup) == Refuse(400, "Missing name or grade")
  {
  }

  /** A name made only of white space is refused like a missing one. */
  lemma BlankNameRejected(httpMethod: string, fields: map<string, Json>, env: Env, auth: AuthResult, lookup: ProfileLookup)
    requires "name" in fields && fields["name"].JString? && AllSpace(fields["name"].s)
    requires httpMethod != "OPTIONS" && EnvComplete(env) && auth.SignedIn? && IsDirectorWithSchool(lookup)
    ensures Check(Request(httpMethod, Some(fields)), env, auth, lookup)
         == Refuse(400, "Missing name or grade")
  {
  }

  /** The grade is only checked for presence: any non-empty string, one of
      the grade codes or not, reaches the insert, and it is the store that may
      refuse it, in which case its message comes back with status 400. */
  lemma GradeNotValidated(req: Request, env: Env, auth: AuthResult, lookup: ProfileLookup, grade: string, message: string)
    requires !IsPreflight(req) && EnvComplete(env) && auth.SignedIn? && IsDirectorWithSchool(lookup)
    requires ReadName(BodyFields(req)).Trimmed? && ReadName(BodyFields(req)).text != ""
    requires ReadGrade(BodyFields(req)) == Some(JString(grade)) && grade != ""
    ensures Check(req, env, auth, lookup).Insert?
    ensures Check(req, env, auth, lookup).draft.grade == JString(grade)
    ensures Answer(Check(req, env, auth, lookup), Rejected(message)) == JsonResponse(400, ErrorMessage(message))
  {
    assert !NameThrows(req) && BodyAccepted(req);
  }

  /** Every response carries the CORS headers, and a successful one is
      exactly the stored row, whose school is the caller's. */
  lemma ResponsesCarryCors(req: Request, env: Env, auth: AuthResult, lookup: ProfileLookup, store: StoreResult)
    ensures var r := Answer(Check(req, env, auth, lookup), store);
      && (forall k :: k in CorsHeaders ==> k in r.headers && r.headers[k] == CorsHeaders[k])
      && (r.status == 200 && !IsPreflight(req) ==>
            && store.Stored?
            && r.payload == Row(StoredRow(Check(req, env, auth, lookup).draft, store.id, store.createdAt))
            && Some(r.payload.classroom.schoolId) == lookup.profile.value.schoolId)
  {
  }
}
