/**
 Properties that relate several handler calls, or a handler and the id
 uniqueness of the registry, and the concrete request scenarios the service
 is described by.
 */
module Scenarios {
  import opened Fields
  import opened Email
  import opened Ids
  import opened Users
  import opened Handlers

  /** A created record is what a following get by its id returns, provided its id was not already taken. */
  lemma CreateThenGet(reg: Registry, body: Body, draws: seq<Nibble>)
    requires |draws| == IdDraws
    requires CreateRejection(body).None?
    requires forall k :: 0 <= k < |reg| ==> reg[k].id != GenerateId(draws)
    ensures var created := CreateUser(reg, body, draws);
      GetUser(created.registry, GenerateId(draws)).response == created.response.(status := StatusOk, message := GotUser)
  {
  }

  /** Create keeps ids unique when the generated id is not already present; it does not check this itself. */
  lemma CreatePreservesUniqueIdsWhenFresh(reg: Registry, body: Body, draws: seq<Nibble>)
    requires |draws| == IdDraws
    requires HasUniqueIds(reg)
    requires forall k :: 0 <= k < |reg| ==> reg[k].id != GenerateId(draws)
    ensures HasUniqueIds(CreateUser(reg, body, draws).registry)
  {
  }

  /** Create appends even when the generated id is already present, leaving two records with that id. */
  lemma CreateDoesNotCheckCollisions(u: User, body: Body, draws: seq<Nibble>)
    requires |draws| == IdDraws
    requires CreateRejection(body).None?
    requires u.id == GenerateId(draws)
    ensures !HasUniqueIds(CreateUser([u], body, draws).registry)
  {
    var r := CreateUser([u], body, draws).registry;
    assert r[0] == r[..1][0];
    assert r[0].id == r[1].id;
  }

  /** Update never changes any record's id, so it keeps ids unique. */
  lemma UpdatePreservesIds(reg: Registry, id: string, body: Body)
    ensures var r := UpdateUser(reg, id, body).registry;
      |r| == |reg| && forall k :: 0 <= k < |reg| ==> r[k].id == reg[k].id
    ensures HasUniqueIds(reg) ==> HasUniqueIds(UpdateUser(reg, id, body).registry)
  {
  }

  /** Delete keeps ids unique, and with unique ids the deleted id is gone afterwards. */
  lemma DeletePreservesUniqueIds(reg: Registry, id: string)
    requires HasUniqueIds(reg)
    ensures HasUniqueIds(DeleteUser(reg, id).registry)
    ensures forall u :: u in DeleteUser(reg, id).registry ==> u.id != id
  {
  }

  /** After a successful delete (ids unique), getting the same id answers 404. */
  lemma DeleteThenGetNotFound(reg: Registry, id: string)
    requires HasUniqueIds(reg)
    requires DeleteUser(reg, id).response.status == StatusOk
    ensures GetUser(DeleteUser(reg, id).registry, id).response == Failure(StatusNotFound, UserNotFound)
  {
  }

  /** Getting twice without a mutation in between answers the same. */
  lemma GetIsRepeatable(reg: Registry, id: string)
    ensures var first := GetUser(reg, id);
      GetUser(first.registry, id) == first
  {
  }

  /** Filtering by each valid role splits the registry: every record lands in exactly its own role's list. */
  lemma FiltersByValidRoleCoverValidRecords(reg: Registry, u: User)
    requires u in reg && u.role in ValidRoles
    ensures ListUsersByRole(reg, u.role).response.data.users == FilterByRole(reg, u.role)
    ensures u in ListUsersByRole(reg, u.role).response.data.users
    ensures forall role :: role != u.role ==> u !in FilterByRole(reg, role)
  {
  }

  /** An age of 0 is a missing field for create, even with every other field valid. */
  lemma CreateAgeZeroIsMissing(reg: Registry, draws: seq<Nibble>)
    requires |draws| == IdDraws
    ensures CreateUser(reg, AnnBody(0), draws).response == Failure(StatusBadRequest, MissingFields)
  {
  }

  /** An age of 0 is supplied for update, and refused by the age check. */
  lemma UpdateAgeZeroIsOutOfRange(u: User)
    ensures UpdateUser([u], u.id, Body(None, Some(0), None, None)).response
      == Failure(StatusBadRequest, AgeOutOfRange)
  {
  }

  /** Ann's body with the given age. */
  function AnnBody(age: int): Body {
    Body(Some("Ann"), Some(age), Some("ann@x.com"), Some("viewer"))
  }

  /**
   A body whose name, email and role pass, and whose age is supplied and
   non-zero, is accepted by create exactly when the age is in range, and
   otherwise refused with the age message.
   */
  lemma CreateRejectionDependsOnlyOnAge(name: string, age: int, email: string, role: string)
    requires name != "" && age != 0 && role in ValidRoles && MatchesEmailPattern(email)
    ensures CreateRejection(Body(Some(name), Some(age), Some(email), Some(role)))
      == (if MinAge <= age <= MaxAge then None else Some(AgeOutOfRange))
  {
  }

  /** Ann's email matches the pattern. */
  lemma AnnEmailMatches()
    ensures MatchesEmailPattern("ann@x.com")
  {
    assert IsEmailSplit("ann@x.com", 3, 5);
  }

  /** Ann's body passes every create check exactly when her non-zero age is in range. */
  lemma AnnBodyRejection(age: int)
    requires age != 0
    ensures CreateRejection(AnnBody(age)) == (if MinAge <= age <= MaxAge then None else Some(AgeOutOfRange))
  {
    AnnEmailMatches();
    CreateRejectionDependsOnlyOnAge("Ann", age, "ann@x.com", "viewer");
  }

  /** Ages 18 and 65 are accepted by create, 17 and 66 refused. */
  lemma CreateAgeBoundaries(draws: seq<Nibble>)
    requires |draws| == IdDraws
    ensures CreateUser([], AnnBody(18), draws).response.status == StatusCreated
    ensures CreateUser([], AnnBody(65), draws).response.status == StatusCreated
    ensures CreateUser([], AnnBody(17), draws).response == Failure(StatusBadRequest, AgeOutOfRange)
    ensures CreateUser([], AnnBody(66), draws).response == Failure(StatusBadRequest, AgeOutOfRange)
  {
    AnnBodyRejection(18);
    AnnBodyRejection(65);
    AnnBodyRejection(17);
    AnnBodyRejection(66);
  }

  /** Creating Ann in an empty registry answers 201 with a viewer whose id has the UUID shape. */
  lemma CreateAnnInEmptyRegistry(draws: seq<Nibble>)
    requires |draws| == IdDraws
    ensures var out := CreateUser([], AnnBody(30), draws);
      && out.response.status == StatusCreated
      && out.response.data.user.role == "viewer"
      && IsUuidShape(out.response.data.user.id)
      && out.registry == [out.response.data.user]
  {
    AnnBodyRejection(30);
  }

  /**
   An update whose name is accepted but whose age is refused answers 400 and
   still leaves the new name stored.
   */
  lemma UpdateKeepsNameWrittenBeforeRefusedAge(u: User)
    ensures var out := UpdateUser([u], u.id, Body(Some("Bob"), Some(10), Some("bob@x.com"), Some("admin")));
      && out.response == Failure(StatusBadRequest, AgeOutOfRange)
      && out.registry == [u.(name := "Bob")]
  {
  }

  /** An update for an unknown id answers 404 and changes nothing. */
  lemma UpdateUnknownIdIsNotFound(reg: Registry, body: Body)
    requires forall k :: 0 <= k < |reg| ==> reg[k].id != "missing"
    ensures UpdateUser(reg, "missing", body) == Outcome(Failure(StatusNotFound, UserNotFound), reg)
  {
  }

  /** Filtering by an unknown role answers 400. */
  lemma FilterBySuperadminIsBadRequest(reg: Registry)
    ensures ListUsersByRole(reg, "superadmin").response == Failure(StatusBadRequest, InvalidRole)
  {
  }
}
