/**
 * The handlers of routes/auth.js: register, login, read and update a profile, and the
 * two availability checks. Each takes the collection, the parsed request body or path
 * parameter, and the current date, and returns the HTTP status with the JSON body
 * reduced to its meaning (the message strings are not modelled).
 */
module AuthRoutes {
  import opened Options
  import opened Text
  import opened Calendar
  import opened Validators
  import opened UserModel
  import opened Storage

  /** Why a request was refused. */
  datatype Failure =
    | MissingRequired(required: seq<string>)
    | EmailInUse
    | NicknameInUse
    | RegisterFailed(cause: WriteError)
    | CredentialsRequired
    | InvalidCredentials
    | UserNotFound
    | UpdateFailed(cause: WriteError)
    | EmailRequired
    | NicknameRequired

  /** The JSON body: `data` of a success, `available` of a check, or an error. */
  datatype Body = Data(fields: JsonObject) | Availability(available: bool) | Error(failure: Failure)

  datatype Response = Response(status: int, body: Body)

  /** The fields of `req.body` for registration; None is an absent (or null) value. */
  datatype RegisterRequest = RegisterRequest(
    email: Option<string>, password: Option<string>, nickname: Option<string>,
    birthDate: Option<string>, gender: Option<string>, bio: Option<string>)

  const RequiredFields: seq<string> := ["email", "password", "nickname", "birthDate"]

  /** JavaScript truthiness of an optional string: present and not empty. */
  predicate Truthy(v: Option<string>) {
    v.Some? && v.value != ""
  }

  /** `v || fallback` on an optional string. */
  function OrElse(v: Option<string>, fallback: string): string {
    if Truthy(v) then v.value else fallback
  }

  /** `email`, `password`, `nickname` and `birthDate` are all truthy (routes/auth.js:14). */
  predicate HasRequired(req: RegisterRequest) {
    Truthy(req.email) && Truthy(req.password) && Truthy(req.nickname) && Truthy(req.birthDate)
  }

  /** The document registration builds (routes/auth.js:41-48): gender defaults to "N", bio to "". */
  function Draft(req: RegisterRequest, now: Date): User
    requires HasRequired(req)
  {
    NewUser(req.email.value, req.password.value, req.nickname.value, req.birthDate.value,
            OrElse(req.gender, "N"), OrElse(req.bio, ""), now)
  }

  /** Some record has the email a document given `email` would store, and the password matches its hash. */
  predicate CredentialsMatch(users: map<UserId, User>, hash: string -> string, email: string, password: string) {
    exists id :: id in users && users[id].email == NormaliseEmail(email) && MatchPassword(hash, users[id].password, password)
  }

  /** A truthy nickname different from the user's own is held by another record (routes/auth.js:189-201). */
  predicate NicknameClash(users: map<UserId, User>, id: UserId, nickname: Option<string>)
    requires id in users
  {
    && Truthy(nickname) && nickname.value != users[id].nickname
    && exists other :: other in users && other != id && users[other].nickname == NormaliseNickname(nickname.value)
  }

  /** Resubmitting one's own current nickname is not a clash. */
  lemma OwnNicknameIsNoClash(users: map<UserId, User>, id: UserId)
    requires id in users
    ensures !NicknameClash(users, id, Some(users[id].nickname))
  {
  }

  /** `updateFields` (routes/auth.js:203-206): nickname and gender when truthy, bio whenever it is given. */
  function UpdateFields(nickname: Option<string>, bio: Option<string>, gender: Option<string>): Patch {
    Patch(if Truthy(nickname) then nickname else None, bio, if Truthy(gender) then gender else None)
  }

  /**
   * The pre-checks of a registration (routes/auth.js:23-38) see a conflict exactly when
   * the unique indexes would refuse the document it builds (models/User.js:18 and 40): the
   * lookups cast the body values through the same setters the document applies. Only a
   * concurrent writer between the checks and the write reaches the duplicate-key refusal.
   */
  lemma PreChecksMatchUniqueIndexes(users: map<UserId, User>, req: RegisterRequest, now: Date,
                                    newId: UserId, password: string)
    requires HasRequired(req) && newId !in users
    ensures Collides(users, newId, Draft(req, now).(password := password)) <==>
              EmailTaken(users, req.email.value) || NicknameTaken(users, req.nickname.value)
  {
    var draft := Draft(req, now).(password := password);
    if Collides(users, newId, draft) {
      var other :| other in users && other != newId
                   && (users[other].email == draft.email || users[other].nickname == draft.nickname);
    }
  }

  /** A stored email sent again with a space before it is still reported as taken. */
  lemma PaddedEmailIsTaken(users: map<UserId, User>, id: UserId)
    requires id in users && StoredInvariant(users[id])
    ensures EmailTaken(users, [' '] + users[id].email)
  {
    NormalisePaddedEmail(users[id].email);
  }

  /**
   * Once an email is registered, a request whose email field differs from the first only
   * in ASCII case and surrounding white space finds it taken.
   */
  lemma SameEmailCannotRegisterTwice(users: map<UserId, User>, id: UserId, req: RegisterRequest,
                                     now: Date, password: string, again: string)
    requires HasRequired(req)
    requires LowerAscii(Trim(again)) == LowerAscii(Trim(req.email.value))
    ensures EmailTaken(users[id := Draft(req, now).(password := password)], again)
  {
    var after := users[id := Draft(req, now).(password := password)];
    SameStoredEmail(again, req.email.value);
    assert after[id].email == NormaliseEmail(req.email.value) == NormaliseEmail(again);
  }

  // ---------------------------------------------------------------- response bodies

  lemma StoredIsDisplayable(u: User)
    requires StoredInvariant(u)
    ensures Displayable(u)
  {
  }

  /** `data` of a registration (routes/auth.js:56-66). */
  function RegisterView(id: UserId, u: User, v: Virtuals): JsonObject {
    map[
      "id" := JInt(id), "email" := JString(u.email), "nickname" := JString(u.nickname),
      "birthDate" := JString(u.birthDate), "age" := OptionalInt(v.age),
      "daysSinceJoined" := JInt(v.daysSinceJoined),
      "gender" := JString(u.gender), "bio" := JString(u.bio), "createdAt" := JDate(u.createdAt)]
  }

  /** `data` of a login (routes/auth.js:115-124) and of a profile update (routes/auth.js:217-226). */
  function AccountView(id: UserId, u: User, v: Virtuals): JsonObject {
    map[
      "id" := JInt(id), "email" := JString(u.email), "nickname" := JString(u.nickname),
      "birthDate" := JString(u.birthDate), "age" := OptionalInt(v.age),
      "daysSinceJoined" := JInt(v.daysSinceJoined),
      "gender" := JString(u.gender), "bio" := JString(u.bio)]
  }

  /** `data` of a profile read (routes/auth.js:151-162). */
  function ProfileView(id: UserId, u: User, v: Virtuals): JsonObject {
    AccountView(id, u, v)["isAdmin" := JBool(u.isAdmin)]["createdAt" := JDate(u.createdAt)]
  }

  /**
   * A view leaves the password out and shows every stored field it has as the stored
   * document holds it; only `id` (the document's `_id`) and the virtual fields are computed.
   */
  predicate AgreesWithDocument(view: JsonObject, id: UserId, u: User) {
    var stored := DocumentObject(id, u);
    && "password" !in view
    && (forall k :: k in view && k != "id" && k != "age" && k != "daysSinceJoined" ==>
          k in stored && view[k] == stored[k])
    && "id" in view && view["id"] == stored["_id"]
  }

  /** The registration body leaves the password out and reports each stored field as toJSON would. */
  lemma RegisterViewAgreesWithDocument(id: UserId, u: User, v: Virtuals)
    ensures AgreesWithDocument(RegisterView(id, u, v), id, u)
  {
  }

  /** So does the body of a login and of a profile update. */
  lemma AccountViewAgreesWithDocument(id: UserId, u: User, v: Virtuals)
    ensures AgreesWithDocument(AccountView(id, u, v), id, u)
  {
  }

  /** And so does the body of a profile read, which adds the role and the join date. */
  lemma ProfileViewAgreesWithDocument(id: UserId, u: User, v: Virtuals)
    ensures AgreesWithDocument(ProfileView(id, u, v), id, u)
  {
  }

  // ---------------------------------------------------------------- handlers

  /**
   * POST /register (routes/auth.js:8-75): the four required fields, then the email and
   * nickname lookups, then a new document saved through validation, hashing and the
   * unique indexes; 201 with the new user, 400 otherwise.
   */
  method Register(store: UserStore, req: RegisterRequest, now: Date) returns (resp: Response)
    requires store.Valid() && ValidDate(now)
    modifies store
    ensures store.Valid()
    ensures resp.status != 201 ==> store.users == old(store.users) && store.nextId == old(store.nextId)
    ensures !HasRequired(req) ==>
              resp == Response(400, Error(MissingRequired(RequiredFields))) && store.users == old(store.users)
    ensures HasRequired(req) && EmailTaken(old(store.users), req.email.value) ==>
              resp == Response(400, Error(EmailInUse)) && store.users == old(store.users)
    ensures HasRequired(req) && !EmailTaken(old(store.users), req.email.value)
            && NicknameTaken(old(store.users), req.nickname.value) ==>
              resp == Response(400, Error(NicknameInUse)) && store.users == old(store.users)
    ensures HasRequired(req) && !EmailTaken(old(store.users), req.email.value)
            && !NicknameTaken(old(store.users), req.nickname.value) ==>
              var draft := Draft(req, now);
              var stored := draft.(password := store.hash(draft.password));
              var id := old(store.nextId);
              && (!PassesValidation(draft, now.year) ==>
                    && resp == Response(400, Error(RegisterFailed(ValidationError(Violations(draft, now.year)))))
                    && store.users == old(store.users))
              && (PassesValidation(draft, now.year) && Collides(old(store.users), id, stored) ==>
                    resp == Response(400, Error(RegisterFailed(DuplicateKey))) && store.users == old(store.users))
              && (PassesValidation(draft, now.year) && !Collides(old(store.users), id, stored) ==>
                    && id !in old(store.users) && store.users == old(store.users)[id := stored]
                    && store.nextId == id + 1
                    && Displayable(stored)
                    && resp == Response(201, Data(RegisterView(id, stored, VirtualsOf(stored, now)))))
  {
    if !Truthy(req.email) || !Truthy(req.password) || !Truthy(req.nickname) || !Truthy(req.birthDate) {
      return Response(400, Error(MissingRequired(RequiredFields)));
    }
    var emailExists := store.IsEmailTaken(req.email.value);
    var nicknameExists := store.IsNicknameTaken(req.nickname.value);
    if emailExists {
      return Response(400, Error(EmailInUse));
    }
    if nicknameExists {
      return Response(400, Error(NicknameInUse));
    }
    var doc := new UserDocument(req.email.value, req.password.value, req.nickname.value,
                                req.birthDate.value, OrElse(req.gender, "N"), OrElse(req.bio, ""), now);
    var saved := store.Save(doc, now);
    if saved.SaveRefused? {
      return Response(400, Error(RegisterFailed(saved.error)));
    }
    var stored := doc.Snapshot();
    assert StoredInvariant(store.users[saved.id]);
    StoredIsDisplayable(stored);
    resp := Response(201, Data(RegisterView(saved.id, stored, VirtualsOf(stored, now))));
  }

  /**
   * POST /login (routes/auth.js:78-133): 400 without both fields; 200 with the account
   * when a record has the lower-cased email and the password matches its hash; the same
   * 401 for an unknown email and for a wrong password.
   */
  method Login(store: UserStore, email: Option<string>, password: Option<string>, today: Date)
    returns (resp: Response)
    requires store.Valid() && ValidDate(today)
    ensures !Truthy(email) || !Truthy(password) ==> resp == Response(400, Error(CredentialsRequired))
    ensures Truthy(email) && Truthy(password) ==>
              (resp.status == 200 <==> CredentialsMatch(store.users, store.hash, email.value, password.value))
    ensures Truthy(email) && Truthy(password) && !CredentialsMatch(store.users, store.hash, email.value, password.value) ==>
              resp == Response(401, Error(InvalidCredentials))
    ensures resp.status == 200 ==>
              exists id :: id in store.users && store.users[id].email == NormaliseEmail(email.value)
                           && Displayable(store.users[id])
                           && resp == Response(200, Data(AccountView(id, store.users[id], VirtualsOf(store.users[id], today))))
  {
    if !Truthy(email) || !Truthy(password) {
      return Response(400, Error(CredentialsRequired));
    }
    var found := store.FindByEmail(LowerAscii(email.value));
    NormaliseLoweredEmail(email.value);
    if found.None? {
      return Response(401, Error(InvalidCredentials));
    }
    var user := store.users[found.value];
    if !MatchPassword(store.hash, user.password, password.value) {
      return Response(401, Error(InvalidCredentials));
    }
    assert StoredInvariant(store.users[found.value]);
    StoredIsDisplayable(user);
    resp := Response(200, Data(AccountView(found.value, user, VirtualsOf(user, today))));
  }

  /** GET /profile/:id (routes/auth.js:136-171): 404 for an unknown id, else 200 with the profile. */
  method GetProfile(store: UserStore, id: UserId, today: Date) returns (resp: Response)
    requires store.Valid() && ValidDate(today)
    ensures id !in store.users ==> resp == Response(404, Error(UserNotFound))
    ensures id in store.users ==>
              Displayable(store.users[id]) && resp == Response(200, Data(ProfileView(id, store.users[id], VirtualsOf(store.users[id], today))))
  {
    var user := store.FindById(id);
    if user.None? {
      return Response(404, Error(UserNotFound));
    }
    assert StoredInvariant(store.users[id]);
    StoredIsDisplayable(user.value);
    resp := Response(200, Data(ProfileView(id, user.value, VirtualsOf(user.value, today))));
  }

  /**
   * PUT /profile/:id (routes/auth.js:174-235): 404 for an unknown id; 400 when a new
   * nickname is another user's; otherwise the truthy nickname and gender and any given
   * bio go through the update validators and the unique indexes, 200 with the updated
   * account or 400.
   */
  method UpdateProfile(store: UserStore, id: UserId, nickname: Option<string>, bio: Option<string>,
                       gender: Option<string>, today: Date) returns (resp: Response)
    requires store.Valid() && ValidDate(today)
    modifies store
    ensures store.Valid()
    ensures store.nextId == old(store.nextId)
    ensures id !in old(store.users) ==> resp == Response(404, Error(UserNotFound)) && store.users == old(store.users)
    ensures id in old(store.users) && NicknameClash(old(store.users), id, nickname) ==>
              resp == Response(400, Error(NicknameInUse)) && store.users == old(store.users)
    ensures id in old(store.users) && !NicknameClash(old(store.users), id, nickname) ==>
              var patch := UpdateFields(nickname, bio, gender);
              var updated := ApplyPatch(old(store.users)[id], patch);
              var invalid := PatchViolations(patch);
              && (invalid != {} ==>
                    resp == Response(400, Error(UpdateFailed(ValidationError(invalid)))) && store.users == old(store.users))
              && (invalid == {} && Collides(old(store.users), id, updated) ==>
                    resp == Response(400, Error(UpdateFailed(DuplicateKey))) && store.users == old(store.users))
              && (invalid == {} && !Collides(old(store.users), id, updated) ==>
                    && store.users == old(store.users)[id := updated] && Displayable(updated)
                    && resp == Response(200, Data(AccountView(id, updated, VirtualsOf(updated, today)))))
  {
    var user := store.FindById(id);
    if user.None? {
      return Response(404, Error(UserNotFound));
    }
    if Truthy(nickname) && nickname.value != user.value.nickname {
      var holder := store.FindByNickname(nickname.value, Some(id));
      if holder.Some? {
        return Response(400, Error(NicknameInUse));
      }
    }
    var fields := Patch(None, None, None);
    if Truthy(nickname) {
      fields := fields.(nickname := nickname);
    }
    if bio.Some? {
      fields := fields.(bio := bio);
    }
    if Truthy(gender) {
      fields := fields.(gender := gender);
    }
    var outcome := store.FindByIdAndUpdate(id, fields);
    if outcome.UpdateRefused? {
      return Response(400, Error(UpdateFailed(outcome.error)));
    }
    assert outcome.Updated?;
    assert StoredInvariant(store.users[id]);
    StoredIsDisplayable(outcome.user);
    resp := Response(200, Data(AccountView(id, outcome.user, VirtualsOf(outcome.user, today))));
  }

  /** POST /check-email (routes/auth.js:238-264): 400 without an email, else whether no record has it lower-cased and trimmed. */
  method CheckEmail(store: UserStore, email: Option<string>) returns (resp: Response)
    requires store.Valid()
    ensures !Truthy(email) ==> resp == Response(400, Error(EmailRequired))
    ensures Truthy(email) ==> resp == Response(200, Availability(!EmailTaken(store.users, email.value)))
  {
    if !Truthy(email) {
      return Response(400, Error(EmailRequired));
    }
    var taken := store.IsEmailTaken(email.value);
    resp := Response(200, Availability(!taken));
  }

  /** POST /check-nickname (routes/auth.js:267-293): 400 without a nickname, else whether no record has it trimmed. */
  method CheckNickname(store: UserStore, nickname: Option<string>) returns (resp: Response)
    requires store.Valid()
    ensures !Truthy(nickname) ==> resp == Response(400, Error(NicknameRequired))
    ensures Truthy(nickname) ==> resp == Response(200, Availability(!NicknameTaken(store.users, nickname.value)))
  {
    if !Truthy(nickname) {
      return Response(400, Error(NicknameRequired));
    }
    var taken := store.IsNicknameTaken(nickname.value);
    resp := Response(200, Availability(!taken));
  }
}
