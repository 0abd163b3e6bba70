/**
 * The `users` collection behind the `User` model of models/User.js: the stored
 * records, the two unique indexes (email, nickname), the queries the routes issue,
 * `save()` of a new document and `findByIdAndUpdate` with update validators.
 * A query casts its filter values through the schema's setters, as the storage library
 * does from its version 5 on, so an email filter is lower-cased and trimmed and a
 * nickname filter trimmed before the comparison.
 */
module Storage {
  import opened Options
  import opened Text
  import opened Calendar
  import opened Validators
  import opened UserModel

  /** Why a write was refused: a validation error naming every failing path, or an E11000 duplicate key. */
  datatype WriteError = ValidationError(paths: set<Field>) | DuplicateKey

  datatype SaveOutcome = Saved(id: UserId) | SaveRefused(error: WriteError)

  datatype UpdateOutcome = Updated(user: User) | NotFound | UpdateRefused(error: WriteError)

  /**
   * What every stored record satisfies: it passed the schema's validators when it was
   * written, after the setters ran. The password is not constrained, since what is
   * stored is its hash; the birth date is a real date of 1900-2099, as the year bound
   * was checked against the clock of the write.
   */
  ghost predicate StoredInvariant(u: User) {
    && IsValidEmail(u.email) && HasNoAsciiUpper(u.email)
    && IsValidNickname(u.nickname)
    && IsRealBirthDate(u.birthDate)
    && IsValidGender(u.gender)
    && IsValidProfileImage(u.profileImage)
    && IsValidBio(u.bio) && IsTrimmed(u.bio)
    && ValidDate(u.createdAt)
  }

  /** The unique indexes would refuse `u` under `id`: another record has its email or its nickname. */
  predicate Collides(users: map<UserId, User>, id: UserId, u: User) {
    exists other :: other in users && other != id
                    && (users[other].email == u.email || users[other].nickname == u.nickname)
  }

  /**
   * The `$set` of a profile update: each present path gets a new value. The `trim`
   * setters of nickname and bio apply to the new values.
   */
  datatype Patch = Patch(nickname: Option<string>, bio: Option<string>, gender: Option<string>)

  function ApplyPatch(u: User, p: Patch): User {
    u.(nickname := if p.nickname.Some? then NormaliseNickname(p.nickname.value) else u.nickname,
       bio := if p.bio.Some? then Trim(p.bio.value) else u.bio,
       gender := if p.gender.Some? then p.gender.value else u.gender)
  }

  /**
   * The update validators (`runValidators: true`): those of the paths the update sets,
   * on the values they get. The other paths are not validated.
   */
  function PatchViolations(p: Patch): set<Field> {
    (if p.nickname.Some? && !IsValidNickname(NormaliseNickname(p.nickname.value)) then {NicknamePath} else {})
    + (if p.bio.Some? && !IsValidBio(Trim(p.bio.value)) then {BioPath} else {})
    + (if p.gender.Some? && !IsValidGender(p.gender.value) then {GenderPath} else {})
  }

  /** An accepted update keeps a stored record valid. */
  lemma PatchKeepsInvariant(u: User, p: Patch)
    requires StoredInvariant(u)
    requires PatchViolations(p) == {}
    ensures StoredInvariant(ApplyPatch(u, p))
  {
    if p.nickname.Some? {
      assert NicknamePath !in PatchViolations(p);
    }
    if p.bio.Some? {
      assert BioPath !in PatchViolations(p);
    }
    if p.gender.Some? {
      assert GenderPath !in PatchViolations(p);
    }
  }

  /** Applying the same update twice is applying it once; the email, password, birth date, image, role and join date never change. */
  lemma ApplyPatchIdempotent(u: User, p: Patch)
    ensures ApplyPatch(ApplyPatch(u, p), p) == ApplyPatch(u, p)
    ensures var v := ApplyPatch(u, p);
            && v.email == u.email && v.password == u.password && v.birthDate == u.birthDate
            && v.profileImage == u.profileImage && v.isAdmin == u.isAdmin && v.createdAt == u.createdAt
  {
    var v := ApplyPatch(u, p);
    var w := ApplyPatch(v, p);
    if p.nickname.Some? {
      TrimIdempotent(p.nickname.value);
      assert w.nickname == v.nickname;
    }
    if p.bio.Some? {
      TrimIdempotent(p.bio.value);
      assert w.bio == v.bio;
    }
  }

  /** A new record that passed every validator satisfies the stored invariant, whatever its password became. */
  lemma SavedKeepsInvariant(u: User, currentYear: int, stored: string)
    requires PassesValidation(u, currentYear)
    requires HasNoAsciiUpper(u.email)
    requires IsTrimmed(u.bio) && ValidDate(u.createdAt)
    ensures StoredInvariant(u.(password := stored))
  {
    ValidBirthDateIsReal(u.birthDate, currentYear);
  }

  /** Ids come from the generator and every record is valid. */
  ghost predicate AllStored(users: map<UserId, User>, nextId: UserId) {
    && (forall id :: id in users ==> id < nextId)
    && (forall id {:trigger StoredInvariant(users[id])} :: id in users ==> StoredInvariant(users[id]))
  }

  /** The unique indexes hold: no two records share an email, nor a nickname. */
  predicate UniqueKeys(users: map<UserId, User>) {
    && (forall a, b :: a in users && b in users && users[a].email == users[b].email ==> a == b)
    && (forall a, b :: a in users && b in users && users[a].nickname == users[b].nickname ==> a == b)
  }

  ghost predicate ValidCollection(users: map<UserId, User>, nextId: UserId) {
    AllStored(users, nextId) && UniqueKeys(users)
  }

  /**
   * Some record has the email a document given `email` would store. The queries cast a
   * filter value through the path's setters, so this is what `findOne({ email })` finds.
   */
  predicate EmailTaken(users: map<UserId, User>, email: string) {
    exists id :: id in users && users[id].email == NormaliseEmail(email)
  }

  /** Some record has the nickname a document given `nickname` would store. */
  predicate NicknameTaken(users: map<UserId, User>, nickname: string) {
    exists id :: id in users && users[id].nickname == NormaliseNickname(nickname)
  }

  /** A record the unique indexes accept under `id` keeps the keys unique when written there. */
  lemma WriteKeepsKeysUnique(users: map<UserId, User>, id: UserId, u: User)
    requires UniqueKeys(users)
    requires !Collides(users, id, u)
    ensures UniqueKeys(users[id := u])
  {
    var after := users[id := u];
    assert forall other :: other in users && other != id ==>
             users[other].email != u.email && users[other].nickname != u.nickname;
    forall a, b | a in after && b in after && after[a].email == after[b].email
      ensures a == b
    {
      if a != id && b != id {
        assert users[a].email == users[b].email;
      }
    }
    forall a, b | a in after && b in after && after[a].nickname == after[b].nickname
      ensures a == b
    {
      if a != id && b != id {
        assert users[a].nickname == users[b].nickname;
      }
    }
  }

  /** Writing a valid record under an id the generator gave keeps every record valid. */
  lemma WriteKeepsAllStored(users: map<UserId, User>, nextId: UserId, id: UserId, u: User)
    requires AllStored(users, nextId)
    requires id < nextId && StoredInvariant(u)
    ensures AllStored(users[id := u], nextId)
  {
    var after := users[id := u];
    forall k | k in after
      ensures k < nextId && StoredInvariant(after[k])
    {
      if k != id {
        assert after[k] == users[k];
      }
    }
  }

  /** Inserting a valid record the unique indexes accept keeps the collection valid. */
  lemma InsertKeepsValid(users: map<UserId, User>, nextId: UserId, u: User)
    requires ValidCollection(users, nextId)
    requires StoredInvariant(u) && !Collides(users, nextId, u)
    ensures nextId !in users
    ensures ValidCollection(users[nextId := u], nextId + 1)
  {
    assert AllStored(users, nextId + 1);
    WriteKeepsAllStored(users, nextId + 1, nextId, u);
    WriteKeepsKeysUnique(users, nextId, u);
  }

  /** Replacing a record by a valid one the unique indexes accept keeps the collection valid. */
  lemma ReplaceKeepsValid(users: map<UserId, User>, nextId: UserId, id: UserId, u: User)
    requires ValidCollection(users, nextId)
    requires id in users
    requires StoredInvariant(u) && !Collides(users, id, u)
    ensures ValidCollection(users[id := u], nextId)
  {
    WriteKeepsAllStored(users, nextId, id, u);
    WriteKeepsKeysUnique(users, id, u);
  }

  /**
   * The collection. `hash` is the one-way function the pre-save hook applies to a
   * modified password; `nextId` stands for the `_id` generator.
   */
  class UserStore {
    var users: map<UserId, User>
    var nextId: UserId
    const hash: string -> string

    /** Ids come from the generator; every record is valid; no two records share an email or a nickname. */
    ghost predicate Valid()
      reads this
    {
      ValidCollection(users, nextId)
    }

    constructor (hash: string -> string)
      ensures Valid()
      ensures users == map[] && this.hash == hash
    {
      users := map[];
      nextId := 0;
      this.hash := hash;
    }

    /**
     * `findOne({ email: filter })`: the filter value goes through the path's setters
     * (lower-case, trim), then the one record with exactly that email, if any.
     */
    method FindByEmail(filter: string) returns (r: Option<UserId>)
      requires Valid()
      ensures r.Some? ==> r.value in users && users[r.value].email == NormaliseEmail(filter)
      ensures r.None? <==> !EmailTaken(users, filter)
      ensures forall id :: id in users && users[id].email == NormaliseEmail(filter) ==> r == Some(id)
    {
      var email := NormaliseEmail(filter);
      if exists id :: id in users && users[id].email == email {
        var id :| id in users && users[id].email == email;
        r := Some(id);
      } else {
        r := None;
      }
    }

    /**
     * `findOne({ nickname: filter, _id: { $ne: except } })`: the filter value goes through
     * the path's `trim` setter, then a record other than `except` with exactly that nickname.
     */
    method FindByNickname(filter: string, except: Option<UserId>) returns (r: Option<UserId>)
      requires Valid()
      ensures r.Some? ==>
                r.value in users && users[r.value].nickname == NormaliseNickname(filter) && Some(r.value) != except
      ensures r.None? <==>
                forall id :: id in users && Some(id) != except ==> users[id].nickname != NormaliseNickname(filter)
    {
      var nickname := NormaliseNickname(filter);
      if exists id :: id in users && Some(id) != except && users[id].nickname == nickname {
        var id :| id in users && Some(id) != except && users[id].nickname == nickname;
        r := Some(id);
      } else {
        r := None;
      }
    }

    /**
     * `User.isEmailTaken` (models/User.js:184-188): looks up the lower-cased argument, which
     * the query then trims; taken exactly when some record has the email a document given
     * this argument would store.
     */
    method IsEmailTaken(email: string) returns (taken: bool)
      requires Valid()
      ensures taken <==> EmailTaken(users, email)
    {
      var found := FindByEmail(LowerAscii(email));
      NormaliseLoweredEmail(email);
      taken := found.Some?;
    }

    /** `User.isNicknameTaken` (models/User.js:190-194): is there a record with this nickname, trimmed? */
    method IsNicknameTaken(nickname: string) returns (taken: bool)
      requires Valid()
      ensures taken <==> NicknameTaken(users, nickname)
    {
      var found := FindByNickname(nickname, None);
      taken := found.Some?;
    }

    /**
     * `save()` of a new document: every path is validated (the password as typed), then
     * the pre-save hook hashes a modified password, then the insert goes through the
     * unique indexes on email and nickname. Nothing is stored when either step refuses.
     */
    method Save(doc: UserDocument, clock: Date) returns (r: SaveOutcome)
      requires Valid() && doc.Normalised()
      modifies this`users, this`nextId, doc
      ensures Valid()
      ensures var draft := old(doc.Snapshot());
              var valid := PassesValidation(draft, clock.year);
              var stored := draft.(password := if old(doc.passwordModified) then hash(draft.password) else draft.password);
              && (!valid ==>
                    && r == SaveRefused(ValidationError(Violations(draft, clock.year)))
                    && users == old(users) && nextId == old(nextId) && doc.Snapshot() == draft)
              && (valid && Collides(old(users), old(nextId), stored) ==>
                    && r == SaveRefused(DuplicateKey) && users == old(users) && nextId == old(nextId)
                    && doc.Snapshot() == stored)
              && (valid && !Collides(old(users), old(nextId), stored) ==>
                    && r == Saved(old(nextId)) && old(nextId) !in old(users)
                    && users == old(users)[old(nextId) := stored] && nextId == old(nextId) + 1
                    && doc.Snapshot() == stored && !doc.passwordModified)
    {
      var draft := doc.Snapshot();
      if !PassesValidation(draft, clock.year) {
        return SaveRefused(ValidationError(Violations(draft, clock.year)));
      }
      doc.HashPasswordBeforeSave(hash);
      var stored := doc.Snapshot();
      if Collides(users, nextId, stored) {
        return SaveRefused(DuplicateKey);
      }
      SavedKeepsInvariant(draft, clock.year, stored.password);
      InsertKeepsValid(users, nextId, stored);
      r := Saved(nextId);
      users := users[nextId := stored];
      nextId := nextId + 1;
      doc.MarkSaved();
    }

    /** `findById(id)`. */
    method FindById(id: UserId) returns (r: Option<User>)
      ensures r.Some? <==> id in users
      ensures r.Some? ==> r.value == users[id]
    {
      r := if id in users then Some(users[id]) else None;
    }

    /**
     * `findByIdAndUpdate(id, patch, { new: true, runValidators: true })`: the update
     * validators and the unique indexes decide; the save hook does not run. Returns the
     * updated record.
     */
    method FindByIdAndUpdate(id: UserId, patch: Patch) returns (r: UpdateOutcome)
      requires Valid()
      modifies this`users
      ensures Valid()
      ensures id !in old(users) ==> r == NotFound && users == old(users)
      ensures id in old(users) ==>
                var updated := ApplyPatch(old(users)[id], patch);
                var invalid := PatchViolations(patch);
                && (invalid != {} ==> r == UpdateRefused(ValidationError(invalid)) && users == old(users))
                && (invalid == {} && Collides(old(users), id, updated) ==>
                      r == UpdateRefused(DuplicateKey) && users == old(users))
                && (invalid == {} && !Collides(old(users), id, updated) ==>
                      r == Updated(updated) && users == old(users)[id := updated])
    {
      if id !in users {
        return NotFound;
      }
      var updated := ApplyPatch(users[id], patch);
      var invalid := PatchViolations(patch);
      if invalid != {} {
        return UpdateRefused(ValidationError(invalid));
      }
      if Collides(users, id, updated) {
        return UpdateRefused(DuplicateKey);
      }
      PatchKeepsInvariant(users[id], patch);
      ReplaceKeepsValid(users, nextId, id, updated);
      users := users[id := updated];
      r := Updated(updated);
    }
  }
}
