/**
 The route handlers over `/api/users`: get by id, create, partial update,
 delete and filter by role. Each handler takes the registry and the request
 and returns the JSON envelope it sends together with the registry it leaves
 behind; the Express plumbing (routing, headers, `res.json`) is not modelled.
 */
module Handlers {
  import opened Fields
  import opened Email
  import opened Ids
  import opened Users

  const StatusOk: int := 200
  const StatusCreated: int := 201
  const StatusBadRequest: int := 400
  const StatusNotFound: int := 404

  /** The envelope's `message`, one tag per distinct text the handlers send. */
  datatype Message =
    | UserNotFound         // 用户不存在
    | MissingFields        // 缺少必填字段
    | AgeOutOfRange        // 年龄必须在18-65之间
    | InvalidRole          // 角色必须是 admin、editor 或 viewer 之一
    | InvalidEmail         // 邮箱格式不正确
    | GotUser              // 获取用户成功
    | CreatedUser          // 创建用户成功
    | UpdatedUser          // 更新用户成功
    | DeletedUser          // 删除用户成功
    | GotUsersByRole(role: string)  // 获取${role}角色用户成功

  /** The envelope's optional `data`: one record, or a list of records. */
  datatype Data = NoData | OneUser(user: User) | UserList(users: seq<User>)

  /** The HTTP status with the JSON envelope `{ success, message, data?, total? }`. */
  datatype Response = Response(status: int, success: bool, message: Message, data: Data, total: Option<nat>)

  /** What a handler sends and the registry it leaves. */
  datatype Outcome = Outcome(response: Response, registry: Registry)

  /** The request body `{ name, age, email, role }`; every field may be absent. */
  datatype Body = Body(name: Option<string>, age: Option<int>, email: Option<string>, role: Option<string>)

  /** An error envelope: `success: false`, a message, nothing else. */
  function Failure(status: int, message: Message): Response {
    Response(status, false, message, NoData, None)
  }

  /** A success envelope carrying one record. */
  function Success(status: int, message: Message, user: User): Response {
    Response(status, true, message, OneUser(user), None)
  }

  // ---------------------------------------------------------------------------
  // GET /api/users/:id

  /** `testData.find(user => user.id === id)`: the first record with the id, or 404. */
  function GetUser(reg: Registry, id: string): (out: Outcome)
    ensures out.registry == reg
    ensures (forall k :: 0 <= k < |reg| ==> reg[k].id != id) <==> out.response == Failure(StatusNotFound, UserNotFound)
    ensures out.response.status == StatusOk ==>
      exists k :: 0 <= k < |reg| && reg[k].id == id
        && (forall j :: 0 <= j < k ==> reg[j].id != id)
        && out.response == Success(StatusOk, GotUser, reg[k])
    ensures (exists k :: 0 <= k < |reg| && reg[k].id == id) ==> out.response.status == StatusOk
    ensures out.response.status in {StatusOk, StatusNotFound}
  {
    match FindIndex(reg, id)
    case None => Outcome(Failure(StatusNotFound, UserNotFound), reg)
    case Some(i) => Outcome(Success(StatusOk, GotUser, reg[i]), reg)
  }

  // ---------------------------------------------------------------------------
  // POST /api/users

  /** `!name || !age || !email || !role` is false: every field is truthy. */
  predicate HasAllFields(body: Body) {
    IsTruthyString(body.name) && IsTruthyNumber(body.age)
    && IsTruthyString(body.email) && IsTruthyString(body.role)
  }

  /** A field counts as missing when it is absent, the empty string, or the number 0. */
  lemma MissingFieldIsFalsy(body: Body)
    ensures !HasAllFields(body) <==>
      (|| body.name == None || body.name == Some("")
       || body.age == None || body.age == Some(0)
       || body.email == None || body.email == Some("")
       || body.role == None || body.role == Some(""))
  {
  }

  /** The message of the first create check that fails, in source order: presence, age, role, email. */
  function CreateRejection(body: Body): (e: Option<Message>)
    ensures e == Some(MissingFields) <==> !HasAllFields(body)
    ensures e == Some(AgeOutOfRange) <==> HasAllFields(body) && !(MinAge <= body.age.value <= MaxAge)
    ensures e == Some(InvalidRole) <==>
      HasAllFields(body) && MinAge <= body.age.value <= MaxAge && body.role.value !in ValidRoles
    ensures e == Some(InvalidEmail) <==>
      HasAllFields(body) && MinAge <= body.age.value <= MaxAge && body.role.value in ValidRoles
      && !MatchesEmailPattern(body.email.value)
    ensures e == None <==>
      HasAllFields(body) && MinAge <= body.age.value <= MaxAge && body.role.value in ValidRoles
      && MatchesEmailPattern(body.email.value)
  {
    if !HasAllFields(body) then Some(MissingFields)
    else if !IsValidAge(body.age.value) then Some(AgeOutOfRange)
    else if !IsValidRole(body.role.value) then Some(InvalidRole)
    else (EmailCheckIsPattern(body.email.value);
          if !IsValidEmail(body.email.value) then Some(InvalidEmail) else None)
  }

  /**
   Validates the body, then appends `{ id, name, age, email, role }` with a
   fresh id built from `draws`. No collision check is made against the ids
   already present.
   */
  function CreateUser(reg: Registry, body: Body, draws: seq<Nibble>): (out: Outcome)
    requires |draws| == IdDraws
    ensures CreateRejection(body).Some? ==>
      out.registry == reg && out.response == Failure(StatusBadRequest, CreateRejection(body).value)
    ensures CreateRejection(body).None? ==>
      && |out.registry| == |reg| + 1
      && out.registry[..|reg|] == reg
      && var u := out.registry[|reg|];
      && u.id == GenerateId(draws) && IsUuidShape(u.id)
      && u.name == body.name.value && u.name != ""
      && u.age == body.age.value && MinAge <= u.age <= MaxAge
      && u.email == body.email.value && MatchesEmailPattern(u.email)
      && u.role == body.role.value && u.role in ValidRoles
      && out.response == Success(StatusCreated, CreatedUser, u)
  {
    match CreateRejection(body)
    case Some(m) => Outcome(Failure(StatusBadRequest, m), reg)
    case None =>
      var u := User(GenerateId(draws), body.name.value, body.age.value, body.email.value, body.role.value);
      assert (reg + [u])[..|reg|] == reg;
      Outcome(Success(StatusCreated, CreatedUser, u), reg + [u])
  }

  // ---------------------------------------------------------------------------
  // PUT /api/users/:id

  /** The record after the update's field assignments, and the message of the check that stopped them. */
  datatype Patched = Patched(user: User, rejection: Option<Message>)

  /**
   The update's field assignments in source order. `name` is assigned when
   truthy; `age` is checked and assigned whenever it is supplied (so an age
   of 0 is rejected, not skipped); `email` and `role` are checked and
   assigned when truthy. The first failing check returns at once: the
   assignments already made stay, the later ones never happen.
   */
  function ApplyUpdate(u: User, body: Body): (p: Patched)
    ensures p.user.id == u.id
    ensures IsTruthyString(body.name) ==> p.user.name == body.name.value
    ensures !IsTruthyString(body.name) ==> p.user.name == u.name
    ensures p.rejection in {None, Some(AgeOutOfRange), Some(InvalidEmail), Some(InvalidRole)}
    ensures p.rejection == Some(AgeOutOfRange) ==> p.user.(name := u.name) == u
  {
    var u1 := if IsTruthyString(body.name) then u.(name := body.name.value) else u;
    if body.age.Some? && !IsValidAge(body.age.value) then Patched(u1, Some(AgeOutOfRange))
    else
      var u2 := if body.age.Some? then u1.(age := body.age.value) else u1;
      if IsTruthyString(body.email) && !IsValidEmail(body.email.value) then Patched(u2, Some(InvalidEmail))
      else
        var u3 := if IsTruthyString(body.email) then u2.(email := body.email.value) else u2;
        if IsTruthyString(body.role) && !IsValidRole(body.role.value) then Patched(u3, Some(InvalidRole))
        else
          var u4 := if IsTruthyString(body.role) then u3.(role := body.role.value) else u3;
          Patched(u4, None)
  }

  /** The updatable fields, in the order the update handler visits them. */
  datatype Field = NameField | AgeField | EmailField | RoleField {
    function Rank(): nat {
      match this
      case NameField => 0
      case AgeField => 1
      case EmailField => 2
      case RoleField => 3
    }
  }

  /** The body carries a value the update would assign to `f`. */
  predicate Supplies(body: Body, f: Field) {
    match f
    case NameField => IsTruthyString(body.name)
    case AgeField => body.age.Some?
    case EmailField => IsTruthyString(body.email)
    case RoleField => IsTruthyString(body.role)
  }

  /** The body supplies `f` with a value the update refuses (names are never refused). */
  ghost predicate Refuses(body: Body, f: Field) {
    match f
    case NameField => false
    case AgeField => body.age.Some? && !(MinAge <= body.age.value <= MaxAge)
    case EmailField => IsTruthyString(body.email) && !MatchesEmailPattern(body.email.value)
    case RoleField => IsTruthyString(body.role) && body.role.value !in ValidRoles
  }

  /** The earliest refused field in visiting order, if any. */
  ghost function FirstRefused(body: Body): (f: Option<Field>)
    ensures f.Some? ==> Refuses(body, f.value)
    ensures forall g: Field :: Refuses(body, g) ==> f.Some? && f.value.Rank() <= g.Rank()
  {
    if Refuses(body, AgeField) then Some(AgeField)
    else if Refuses(body, EmailField) then Some(EmailField)
    else if Refuses(body, RoleField) then Some(RoleField)
    else None
  }

  /** The message the update sends when `f` is refused; a name is never refused. */
  function RefusalMessage(f: Field): Message
    requires f != NameField
  {
    if f == AgeField then AgeOutOfRange
    else if f == EmailField then InvalidEmail
    else InvalidRole
  }

  /** `f` comes strictly before `stop` in visiting order (every field does when nothing stops). */
  predicate Before(f: Field, stop: Option<Field>) {
    stop.None? || f.Rank() < stop.value.Rank()
  }

  /**
   Field by field: each field visited before `stop` and supplied by the body
   takes the body's value; every other field, and the id, keeps its value.
   */
  function PatchBefore(u: User, body: Body, stop: Option<Field>): User {
    User(
      u.id,
      if Before(NameField, stop) && Supplies(body, NameField) then body.name.value else u.name,
      if Before(AgeField, stop) && Supplies(body, AgeField) then body.age.value else u.age,
      if Before(EmailField, stop) && Supplies(body, EmailField) then body.email.value else u.email,
      if Before(RoleField, stop) && Supplies(body, RoleField) then body.role.value else u.role)
  }

  /**
   The sequential update equals the field-by-field patch that stops at the
   first refused field: fields before it are written, it and the later fields
   are untouched, and the message is the refused field's. With no field
   refused every supplied field is written and nothing is reported.
   */
  lemma ApplyUpdateIsPatchBeforeFirstRefusal(u: User, body: Body)
    ensures var stop := FirstRefused(body);
      && ApplyUpdate(u, body).user == PatchBefore(u, body, stop)
      && ApplyUpdate(u, body).rejection == (if stop.None? then None else Some(RefusalMessage(stop.value)))
  {
    if body.email.Some? {
      EmailCheckIsPattern(body.email.value);
    }
  }

  /**
   Finds the record by id (404 when none), then runs the field assignments on
   it in place. The stored record changes even when a later check fails and
   the response is 400.
   */
  function UpdateUser(reg: Registry, id: string, body: Body): (out: Outcome)
    ensures FindIndex(reg, id).None? ==>
      out.registry == reg && out.response == Failure(StatusNotFound, UserNotFound)
    ensures FindIndex(reg, id).Some? ==>
      var i := FindIndex(reg, id).value;
      var stop := FirstRefused(body);
      && |out.registry| == |reg|
      && (forall k :: 0 <= k < |reg| && k != i ==> out.registry[k] == reg[k])
      && out.registry[i] == PatchBefore(reg[i], body, stop)
      && out.registry[i].id == id
      && (stop.None? ==> out.response == Success(StatusOk, UpdatedUser, out.registry[i]))
      && (stop.Some? ==> out.response == Failure(StatusBadRequest, RefusalMessage(stop.value)))
  {
    match FindIndex(reg, id)
    case None => Outcome(Failure(StatusNotFound, UserNotFound), reg)
    case Some(i) =>
      ApplyUpdateIsPatchBeforeFirstRefusal(reg[i], body);
      var p := ApplyUpdate(reg[i], body);
      var reg' := reg[i := p.user];
      match p.rejection
      case Some(m) => Outcome(Failure(StatusBadRequest, m), reg')
      case None => Outcome(Success(StatusOk, UpdatedUser, p.user), reg')
  }

  // ---------------------------------------------------------------------------
  // DELETE /api/users/:id

  /** `splice(i, 1)` keeps the records before `i`, moves the ones after it down by one, and loses only `reg[i]`. */
  lemma SpliceOut(reg: Registry, i: nat)
    requires i < |reg|
    ensures var r := reg[..i] + reg[i + 1..];
      && |r| == |reg| - 1
      && (forall k :: 0 <= k < i ==> r[k] == reg[k])
      && (forall k :: i <= k < |r| ==> r[k] == reg[k + 1])
      && multiset(r) + multiset{reg[i]} == multiset(reg)
  {
    var r := reg[..i] + reg[i + 1..];
    forall k | 0 <= k < i ensures r[k] == reg[k] {
      assert r[k] == reg[..i][k];
    }
    forall k | i <= k < |r| ensures r[k] == reg[k + 1] {
      assert r[k] == reg[i + 1..][k - i];
    }
    assert reg == reg[..i] + [reg[i]] + reg[i + 1..];
    calc {
      multiset(reg);
      multiset(reg[..i] + [reg[i]] + reg[i + 1..]);
      multiset(reg[..i]) + multiset{reg[i]} + multiset(reg[i + 1..]);
      multiset(r) + multiset{reg[i]};
    }
  }

  /** Finds the record by id (404 when none) and splices it out, answering with the removed record. */
  function DeleteUser(reg: Registry, id: string): (out: Outcome)
    ensures FindIndex(reg, id).None? ==>
      out.registry == reg && out.response == Failure(StatusNotFound, UserNotFound)
    ensures FindIndex(reg, id).Some? ==>
      var i := FindIndex(reg, id).value;
      && |out.registry| == |reg| - 1
      && (forall k :: 0 <= k < i ==> out.registry[k] == reg[k])
      && (forall k :: i <= k < |out.registry| ==> out.registry[k] == reg[k + 1])
      && multiset(out.registry) + multiset{reg[i]} == multiset(reg)
      && out.response == Success(StatusOk, DeletedUser, reg[i])
      && reg[i].id == id
  {
    match FindIndex(reg, id)
    case None => Outcome(Failure(StatusNotFound, UserNotFound), reg)
    case Some(i) =>
      SpliceOut(reg, i);
      Outcome(Success(StatusOk, DeletedUser, reg[i]), reg[..i] + reg[i + 1..])
  }

  // ---------------------------------------------------------------------------
  // GET /api/users/role/:role

  /** Refuses a role outside the three, else lists the records with that role and their count. */
  function ListUsersByRole(reg: Registry, role: string): (out: Outcome)
    ensures out.registry == reg
    ensures role !in ValidRoles <==> out.response == Failure(StatusBadRequest, InvalidRole)
    ensures role in ValidRoles ==>
      && out.response.status == StatusOk && out.response.success
      && out.response.message == GotUsersByRole(role)
      && out.response.data == UserList(FilterByRole(reg, role))
      && (forall k :: 0 <= k < |reg| ==> (reg[k] in out.response.data.users <==> reg[k].role == role))
      && out.response.total == Some(|out.response.data.users|)
  {
    if !IsValidRole(role) then Outcome(Failure(StatusBadRequest, InvalidRole), reg)
    else
      var users := FilterByRole(reg, role);
      Outcome(Response(StatusOk, true, GotUsersByRole(role), UserList(users), Some(|users|)), reg)
  }
}
