/** The row-level-security diagnosis scripts (a JavaScript module that reads
    `.env.local`, and a TypeScript variant that reads the process
    environment): they check their credentials, look up one director's user
    row and school, simulate the classroom insert policy's base conditions,
    insert and delete a test classroom, list the school's classrooms and
    print a recommendation. The database answers are inputs here. */
module DiagnoseRls {
  import opened Options
  import opened Roles
  import opened Text
  import EnvFile

  const UrlVariable: string := "NEXT_PUBLIC_SUPABASE_URL"
  const ServiceKeyVariable: string := "SUPABASE_SERVICE_ROLE_KEY"

  /** The row of `public.users` the scripts look up. */
  datatype UserRow = UserRow(id: string, role: UserRole, schoolId: Option<string>)

  /** `user?.school_id` is truthy: present and not empty. */
  predicate HasSchool(user: Option<UserRow>)
  {
    user.Some? && IsTruthy(user.value.schoolId)
  }

  predicate IsDirector(user: Option<UserRow>)
  {
    user.Some? && user.value.role == DIRECTOR
  }

  function SchoolOf(user: Option<UserRow>): string
    requires HasSchool(user)
  {
    user.value.schoolId.value
  }

  // ---------------------------------------------------------------------
  // Credentials

  /** Which of the two required variables were present and non-empty when
      the script gave up, and the status it exits with. */
  datatype MissingEnv = MissingEnv(urlSet: bool, keySet: bool, exitCode: int)

  const MissingEnvExitCode: int := 1

  /** Both variables must be set and non-empty, or the script exits with
      status 1 reporting which of them were. */
  function CheckCredentials(url: Option<string>, serviceKey: Option<string>): (r: Result<(string, string), MissingEnv>)
    ensures r.Ok? <==> IsTruthy(url) && IsTruthy(serviceKey)
    ensures r.Ok? ==> r.value == (url.value, serviceKey.value) && r.value.0 != "" && r.value.1 != ""
    ensures r.Err? ==> r.error == MissingEnv(IsTruthy(url), IsTruthy(serviceKey), 1) && !(r.error.urlSet && r.error.keySet)
  {
    if IsTruthy(url) && IsTruthy(serviceKey) then Ok((url.value, serviceKey.value))
    else Err(MissingEnv(IsTruthy(url), IsTruthy(serviceKey), MissingEnvExitCode))
  }

  function Lookup(env: map<string, string>, name: string): Option<string>
  {
    if name in env then Some(env[name]) else None
  }

  /** The JavaScript variant reads both variables from the parsed file. */
  function FileCredentials(content: string): Result<(string, string), MissingEnv>
  {
    var env := EnvFile.EnvOf(Split(content, '\n'));
    CheckCredentials(Lookup(env, UrlVariable), Lookup(env, ServiceKeyVariable))
  }

  /** A `.env.local` saved with CRLF line endings yields no variables, so
      the JavaScript variant exits as if both were missing. */
  lemma CrlfFileMissesCredentials(content: string)
    requires EnvFile.AllCarriageReturn(Split(content, '\n'))
    ensures FileCredentials(content) == Err(MissingEnv(false, false, 1))
  {
    EnvFile.CrlfFileIsEmpty(Split(content, '\n'));
  }

  // ---------------------------------------------------------------------
  // Base-condition simulation and recommendation

  datatype BaseVerdict = Pass | Fail(roleNotDirector: bool, schoolMissing: bool)

  /** The simulated insert policy passes with a school and the DIRECTOR
      role; otherwise each failing condition is reported on its own. */
  function BaseCheck(user: Option<UserRow>): (v: BaseVerdict)
    ensures v.Pass? <==> HasSchool(user) && IsDirector(user)
    ensures v.Fail? ==> v.roleNotDirector == !IsDirector(user) && v.schoolMissing == !HasSchool(user)
    ensures v.Fail? ==> v.roleNotDirector || v.schoolMissing
  {
    if HasSchool(user) && IsDirector(user) then Pass
    else Fail(!IsDirector(user), !HasSchool(user))
  }

  datatype Recommendation = CreateUser | CompleteOnboarding | CheckRole | CheckPolicies

  /** The first matching advice: no user row, then no school, then a role
      other than DIRECTOR; otherwise the data is correct and the policies
      are to blame. */
  function Recommend(user: Option<UserRow>): Recommendation
  {
    if user.None? then CreateUser
    else if !HasSchool(user) then CompleteOnboarding
    else if user.value.role != DIRECTOR then CheckRole
    else CheckPolicies
  }

  /** The recommendation blames the policies exactly when the base check
      passes; every failure of the base check gets the advice for its first
      failing condition, and a non-director without a school is sent to
      onboarding rather than to the role check. */
  lemma RecommendationAgreesWithBaseCheck(user: Option<UserRow>)
    ensures Recommend(user) == CheckPolicies <==> BaseCheck(user).Pass?
    ensures user.Some? && BaseCheck(user) == Fail(true, true) ==> Recommend(user) == CompleteOnboarding
    ensures BaseCheck(user) == Fail(true, false) ==> Recommend(user) == CheckRole
    ensures BaseCheck(user) == Fail(false, true) ==> Recommend(user) == CompleteOnboarding
    ensures user.None? ==> BaseCheck(user) == Fail(true, true) && Recommend(user) == CreateUser
  {
  }

  // ---------------------------------------------------------------------
  // The queries a run makes

  datatype Variant = ScriptModule | TypeScript

  datatype Query =
    | FetchUser
    | FetchSchool(schoolId: string)
    | FetchPolicies
    | InsertTest(schoolId: string)
    | DeleteTest(classroomId: string)
    | ListClassrooms(schoolId: string)

  /** The database requests of one run, in order, given the credentials,
      the user row read back and the id the test insert returned (None when
      it failed). Only the TypeScript variant asks for the policies. */
  function Queries(variant: Variant, creds: Result<(string, string), MissingEnv>,
                   user: Option<UserRow>, inserted: Option<string>): (qs: seq<Query>)
    ensures creds.Err? ==> qs == []
    ensures creds.Ok? ==> |qs| >= 1 && qs[0] == FetchUser
    ensures FetchPolicies in qs <==> creds.Ok? && variant == TypeScript
  {
    if creds.Err? then []
    else LookupQueries(variant, user) + TestQueries(user, inserted)
  }

  /** The user row, its school, and in the TypeScript variant the policies. */
  function LookupQueries(variant: Variant, user: Option<UserRow>): seq<Query>
  {
    [FetchUser]
    + (if HasSchool(user) then [FetchSchool(SchoolOf(user))] else [])
    + (if variant == TypeScript then [FetchPolicies] else [])
  }

  /** The insert test and the listing, run only for a user with a school. */
  function TestQueries(user: Option<UserRow>, inserted: Option<string>): seq<Query>
  {
    if HasSchool(user) then
      [InsertTest(SchoolOf(user))]
      + (if inserted.Some? then [DeleteTest(inserted.value)] else [])
      + [ListClassrooms(SchoolOf(user))]
    else []
  }

  /** What a run does with the classrooms table, stated over the requests
      it makes. */
  predicate ClassroomQueriesScoped(qs: seq<Query>, user: Option<UserRow>, inserted: Option<string>)
  {
    && (forall k :: 0 <= k < |qs| && (qs[k].InsertTest? || qs[k].ListClassrooms? || qs[k].FetchSchool?) ==>
          HasSchool(user) && qs[k].schoolId == SchoolOf(user))
    && (forall k :: 0 <= k < |qs| && qs[k].DeleteTest? ==>
          inserted.Some? && qs[k].classroomId == inserted.value && k >= 1 && qs[k - 1].InsertTest?)
  }

  /** A run touches the classrooms table only for a user with a school and
      only in that school; it deletes nothing but the classroom its own
      insert returned, right after the insert. */
  lemma ClassroomQueriesNeedSchool(variant: Variant, creds: Result<(string, string), MissingEnv>,
                                   user: Option<UserRow>, inserted: Option<string>)
    ensures ClassroomQueriesScoped(Queries(variant, creds, user, inserted), user, inserted)
    ensures creds.Ok? && HasSchool(user) ==>
      var qs := Queries(variant, creds, user, inserted);
      InsertTest(SchoolOf(user)) in qs && ListClassrooms(SchoolOf(user)) in qs
  {
    if creds.Ok? {
      var head := LookupQueries(variant, user);
      var tail := TestQueries(user, inserted);
      assert forall k :: 0 <= k < |head| ==> !head[k].InsertTest? && !head[k].DeleteTest? && !head[k].ListClassrooms?;
      assert forall k :: 0 <= k < |head| && head[k].FetchSchool? ==> HasSchool(user) && head[k].schoolId == SchoolOf(user);
      TestQueriesScoped(user, inserted);
      ScopedConcat(head, tail, user, inserted);
    }
  }

  lemma TestQueriesScoped(user: Option<UserRow>, inserted: Option<string>)
    ensures var t := TestQueries(user, inserted);
      && ClassroomQueriesScoped(t, user, inserted)
      && (t == [] || t[0].InsertTest?)
      && (HasSchool(user) ==> InsertTest(SchoolOf(user)) in t && ListClassrooms(SchoolOf(user)) in t)
  {
    var t := TestQueries(user, inserted);
    if HasSchool(user) {
      assert t[0] == InsertTest(SchoolOf(user));
      assert t[|t| - 1] == ListClassrooms(SchoolOf(user));
    }
  }

  /** Appending the test requests after requests that neither insert, delete
      nor list keeps the scoping. */
  lemma ScopedConcat(head: seq<Query>, tail: seq<Query>, user: Option<UserRow>, inserted: Option<string>)
    requires forall k :: 0 <= k < |head| ==> !head[k].InsertTest? && !head[k].DeleteTest? && !head[k].ListClassrooms?
    requires forall k :: 0 <= k < |head| && head[k].FetchSchool? ==> HasSchool(user) && head[k].schoolId == SchoolOf(user)
    requires ClassroomQueriesScoped(tail, user, inserted)
    requires tail == [] || tail[0].InsertTest?
    ensures ClassroomQueriesScoped(head + tail, user, inserted)
  {
    var qs := head + tail;
    forall k | 0 <= k < |qs| && qs[k].DeleteTest?
      ensures inserted.Some? && qs[k].classroomId == inserted.value && k >= 1 && qs[k - 1].InsertTest?
    {
      assert k >= |head| && qs[k] == tail[k - |head|];
      assert qs[k - 1] == tail[k - 1 - |head|];
    }
  }

  // ---------------------------------------------------------------------
  // The insert-then-delete test

  const TestClassroomName: string := "TEST DIAGNOSTIC - À SUPPRIMER"

  datatype ClassroomRow = ClassroomRow(id: string, name: string, grade: GradeLevel, schoolId: string)

  function TestRow(id: string, schoolId: string): (r: ClassroomRow)
    ensures r.id == id && r.schoolId == schoolId && r.name == TestClassroomName
    ensures GradeCode(r.grade) == "CP"
  {
    ClassroomRow(id, TestClassroomName, CP, schoolId)
  }

  /** `.delete().eq('id', id)`: every row with that id goes, the others
      stay in order. */
  function WithoutId(rows: seq<ClassroomRow>, id: string): (r: seq<ClassroomRow>)
    ensures forall x :: x in r <==> x in rows && x.id != id
  {
    if rows == [] then []
    else
      assert rows == [rows[0]] + rows[1..];
      var rest := WithoutId(rows[1..], id);
      if rows[0].id == id then rest else [rows[0]] + rest
  }

  /** Deleting an id nobody else carries after appending the row with that
      id restores the table exactly. */
  lemma {:induction false} DeleteAfterAppendRestores(rows: seq<ClassroomRow>, row: ClassroomRow)
    requires forall k :: 0 <= k < |rows| ==> rows[k].id != row.id
    ensures WithoutId(rows + [row], row.id) == rows
  {
    if rows == [] {
      assert [] + [row] == [row];
    } else {
      assert (rows + [row])[1..] == rows[1..] + [row];
      DeleteAfterAppendRestores(rows[1..], row);
      assert rows == [rows[0]] + rows[1..];
    }
  }

  /** What the test reports. */
  datatype TestOutcome = InsertFailed | Removed(id: string) | ManualRemoval(id: string)

  class ClassroomsTable {
    var rows: seq<ClassroomRow>

    constructor (initial: seq<ClassroomRow>)
      ensures rows == initial
    {
      rows := initial;
    }

    /** Insert the test classroom for the school; when the store accepts it
        under `newId`, delete exactly that id again, and report the id for
        manual removal when the delete fails. */
    method InsertionTest(schoolId: string, newId: Option<string>, deleteOk: bool) returns (outcome: TestOutcome)
      modifies this
      ensures newId.None? ==> outcome == InsertFailed && rows == old(rows)
      ensures newId.Some? && deleteOk ==>
        outcome == Removed(newId.value) && rows == WithoutId(old(rows) + [TestRow(newId.value, schoolId)], newId.value)
      ensures newId.Some? && !deleteOk ==>
        outcome == ManualRemoval(newId.value) && rows == old(rows) + [TestRow(newId.value, schoolId)]
    {
      if newId.None? {
        return InsertFailed;
      }
      var id := newId.value;
      rows := rows + [TestRow(id, schoolId)];
      if deleteOk {
        rows := WithoutId(rows, id);
        outcome := Removed(id);
      } else {
        outcome := ManualRemoval(id);
      }
    }
  }

  /** When the store hands out an id no existing row has, a test whose
      delete succeeds leaves the table as it found it, and one whose delete
      fails leaves exactly one extra row, the test classroom. */
  lemma TestLeavesTableAsFound(rows: seq<ClassroomRow>, schoolId: string, id: string)
    requires forall k :: 0 <= k < |rows| ==> rows[k].id != id
    ensures WithoutId(rows + [TestRow(id, schoolId)], id) == rows
    ensures TestRow(id, schoolId).name == TestClassroomName && GradeCode(TestRow(id, schoolId).grade) == "CP"
  {
    DeleteAfterAppendRestores(rows, TestRow(id, schoolId));
  }
}
