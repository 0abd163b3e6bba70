/**
 * The user document of models/User.js: the stored record, the schema's validation of
 * every path, the virtual fields computed on read (`age`, `daysSinceJoined`,
 * `birthYear`), the `toJSON` transform, `matchPassword`, and the document object a
 * registration builds and saves, with its `pre("save")` hashing hook.
 *
 * bcrypt is abstract: `hash` is a function supplied by the caller, and checking a
 * password against a stored value recomputes the hash.
 */
module UserModel {
  import opened Options
  import opened Text
  import opened Calendar
  import opened Validators

  /** The `_id` the storage assigns. */
  type UserId = nat

  /** One stored user (models/User.js:13-126). Once saved, `password` holds the hash. */
  datatype User = User(
    email: string,
    password: string,
    nickname: string,
    birthDate: string,
    gender: string,
    profileImage: Option<string>,
    bio: string,
    isAdmin: bool,
    createdAt: Date)

  /** The schema paths that carry validators. */
  datatype Field = EmailPath | PasswordPath | NicknamePath | BirthDatePath | GenderPath | ProfileImagePath | BioPath

  const AllPaths: set<Field> :=
    {EmailPath, PasswordPath, NicknamePath, BirthDatePath, GenderPath, ProfileImagePath, BioPath}

  /** The validators of one path, on the value `u` holds there, validated in `currentYear`. */
  predicate PathValid(u: User, f: Field, currentYear: int) {
    match f
    case EmailPath => IsValidEmail(u.email)
    case PasswordPath => IsValidPassword(u.password)
    case NicknamePath => IsValidNickname(u.nickname)
    case BirthDatePath => IsValidBirthDate(u.birthDate, currentYear)
    case GenderPath => IsValidGender(u.gender)
    case ProfileImagePath => IsValidProfileImage(u.profileImage)
    case BioPath => IsValidBio(u.bio)
  }

  /**
   * The paths of `u` that fail their validators. The storage library runs every
   * validator and reports all failing paths in one error.
   */
  function Violations(u: User, currentYear: int): set<Field> {
    set f | f in AllPaths && !PathValid(u, f, currentYear)
  }

  /** Every field validator accepts `u`. */
  predicate PassesValidation(u: User, currentYear: int) {
    && IsValidEmail(u.email) && IsValidPassword(u.password) && IsValidNickname(u.nickname)
    && IsValidBirthDate(u.birthDate, currentYear) && IsValidGender(u.gender)
    && IsValidProfileImage(u.profileImage) && IsValidBio(u.bio)
  }

  /** No path fails exactly when every field validator accepts. */
  lemma NoViolationsMeansValid(u: User, currentYear: int)
    ensures Violations(u, currentYear) == {} <==> PassesValidation(u, currentYear)
  {
    if Violations(u, currentYear) == {} {
      forall f | f in AllPaths
        ensures PathValid(u, f, currentYear)
      {
        assert f !in Violations(u, currentYear);
      }
      assert PathValid(u, EmailPath, currentYear) && PathValid(u, PasswordPath, currentYear);
      assert PathValid(u, NicknamePath, currentYear) && PathValid(u, BirthDatePath, currentYear);
      assert PathValid(u, GenderPath, currentYear) && PathValid(u, ProfileImagePath, currentYear);
      assert PathValid(u, BioPath, currentYear);
    }
  }

  /**
   * What `new User({ email, password, nickname, birthDate, gender, bio })` holds: the
   * `lowercase` and `trim` setters applied on assignment, no profile image, not an
   * administrator, created now.
   */
  function NewUser(email: string, password: string, nickname: string, birthDate: string,
                   gender: string, bio: string, now: Date): User
  {
    User(NormaliseEmail(email), password, NormaliseNickname(nickname), birthDate, gender,
         None, Trim(bio), false, now)
  }

  // ---------------------------------------------------------------- virtual fields

  /** The birth date as a calendar date, read digit group by digit group. */
  function BirthDateParts(s: string): Date
    requires IsBirthDateShape(s)
  {
    Date(YearOf(s), MonthOf(s), DayOf(s))
  }

  /** The `n`-th anniversary of `birth`, on the same month and day. */
  function Anniversary(birth: Date, n: int): Date {
    Date(birth.year + n, birth.month, birth.day)
  }

  /**
   * The `age` virtual (models/User.js:199-220): the number of full years since the birth
   * date, null without one. Its anniversary that year has been reached (a month and day
   * not before today's) and the next one has not.
   */
  function Age(birthDate: string, today: Date): (r: Option<int>)
    requires birthDate == "" || IsBirthDateShape(birthDate)
    ensures r.None? <==> birthDate == ""
    ensures r.Some? ==>
              var birth := BirthDateParts(birthDate);
              && !DateBefore(today, Anniversary(birth, r.value))
              && DateBefore(today, Anniversary(birth, r.value + 1))
  {
    if birthDate == "" then None
    else
      var year, month, day := YearOf(birthDate), MonthOf(birthDate), DayOf(birthDate);
      var age := today.year - year;
      var birthdayNotYetReached := today.month < month || (today.month == month && today.day < day);
      Some(if birthdayNotYetReached then age - 1 else age)
  }

  /** The anniversary characterisation fixes the age: no two numbers satisfy it. */
  lemma FullYearsUnique(birth: Date, today: Date, n: int, m: int)
    requires !DateBefore(today, Anniversary(birth, n)) && DateBefore(today, Anniversary(birth, n + 1))
    requires !DateBefore(today, Anniversary(birth, m)) && DateBefore(today, Anniversary(birth, m + 1))
    ensures n == m
  {
  }

  lemma ExampleBirthDateParts()
    ensures IsBirthDateShape("20030913")
    ensures YearOf("20030913") == 2003 && MonthOf("20030913") == 9 && DayOf("20030913") == 13
  {
    var s := "20030913";
    assert s[..4] == "2003" && s[4..6] == "09" && s[6..8] == "13";
    DecimalValueOfFour("2003");
    DecimalValueOfTwo("09");
    DecimalValueOfTwo("13");
  }

  /** Born 2003-09-13: twenty on the day before the 2024 birthday, twenty-one on it. */
  lemma AgeOnBirthdayBoundary()
    ensures Age("20030913", Date(2024, 9, 12)) == Some(20)
    ensures Age("20030913", Date(2024, 9, 13)) == Some(21)
  {
    ExampleBirthDateParts();
  }

  /**
   * The validator compares years only, so a birth date later in the current year
   * passes it, and the `age` of such a user is -1 until that date.
   */
  lemma LaterThisYearGivesNegativeAge()
    ensures IsValidBirthDate("20261231", 2026)
    ensures Age("20261231", Date(2026, 10, 15)) == Some(-1)
  {
    var s := "20261231";
    assert IsBirthDateShape(s);
    BirthDateFields(s);
    assert YearOf(s) == 2026 && MonthOf(s) == 12 && DayOf(s) == 31;
    BirthDateRule(s, 2026);
  }

  /** The `birthYear` virtual (models/User.js:251-254): the first four digits, null without a birth date. */
  function BirthYear(birthDate: string): (r: Option<int>)
    requires birthDate == "" || IsBirthDateShape(birthDate)
    ensures r.None? <==> birthDate == ""
    ensures r.Some? ==> r.value == YearOf(birthDate)
    ensures r.Some? ==>
              r.value == 1000 * DigitValue(birthDate[0]) + 100 * DigitValue(birthDate[1])
                         + 10 * DigitValue(birthDate[2]) + DigitValue(birthDate[3])
    ensures r.Some? ==> 0 <= r.value <= 9999
  {
    if birthDate == "" then None
    else
      BirthDateFields(birthDate);
      Some(DecimalValue(birthDate[..4]))
  }

  /** A birth date that passed validation this year gives a birth year from 1900 to this year. */
  lemma BirthYearOfValid(s: string, currentYear: int)
    requires IsValidBirthDate(s, currentYear)
    ensures BirthYear(s).Some? && 1900 <= BirthYear(s).value <= currentYear
  {
    ValidBirthDateIsReal(s, currentYear);
  }

  /** Age and birth year agree: their sum is this year, or last year before the birthday. */
  lemma AgeAndBirthYear(s: string, today: Date)
    requires IsBirthDateShape(s)
    ensures Age(s, today).value + BirthYear(s).value == today.year
            || Age(s, today).value + BirthYear(s).value == today.year - 1
  {
  }

  /**
   * The `daysSinceJoined` virtual (models/User.js:223-248): calendar days from the join
   * date to today, with the join day itself as day 1; 1 when there is no join date.
   */
  function DaysSinceJoined(createdAt: Option<Date>, today: Date): int
    requires createdAt.Some? ==> ValidDate(createdAt.value)
    requires ValidDate(today)
  {
    if createdAt.None? then 1 else DayNumber(today) - DayNumber(createdAt.value) + 1
  }

  /** The join day is day 1 and the day after it is day 2; without a join date it is day 1. */
  lemma DaysSinceJoinedStartsAtOne(joined: Date, today: Date)
    requires ValidDate(joined) && ValidDate(today)
    ensures DaysSinceJoined(Some(joined), joined) == 1
    ensures DaysSinceJoined(Some(joined), NextDay(joined)) == 2
    ensures DaysSinceJoined(None, today) == 1
  {
  }

  /** Every further day adds one. */
  lemma DaysSinceJoinedCountsDays(joined: Date, today: Date)
    requires ValidDate(joined) && ValidDate(today)
    ensures DaysSinceJoined(Some(joined), NextDay(today)) == DaysSinceJoined(Some(joined), today) + 1
  {
  }

  /** From the join day on the count is at least 1, and it is 1 on the join day only. */
  lemma DaysSinceJoinedPositive(joined: Date, today: Date)
    requires ValidDate(joined) && ValidDate(today)
    requires !DateBefore(today, joined)
    ensures DaysSinceJoined(Some(joined), today) >= 1
    ensures DaysSinceJoined(Some(joined), today) == 1 <==> today == joined
  {
    if today != joined {
      assert DateBefore(joined, today);
      DayNumberMonotone(joined, today);
    }
  }

  /** The virtual fields can be computed: a birth date of eight digits (or none) and a real join date. */
  predicate Displayable(u: User) {
    (u.birthDate == "" || IsBirthDateShape(u.birthDate)) && ValidDate(u.createdAt)
  }

  /** The virtual fields a response shows. */
  datatype Virtuals = Virtuals(age: Option<int>, daysSinceJoined: int)

  /** The virtual fields of `u` read on `today`. */
  function VirtualsOf(u: User, today: Date): Virtuals
    requires Displayable(u) && ValidDate(today)
  {
    Virtuals(Age(u.birthDate, today), DaysSinceJoined(Some(u.createdAt), today))
  }

  /** A user read on the day of joining is on day 1. */
  lemma NewAccountIsOnDayOne(u: User)
    requires Displayable(u)
    ensures VirtualsOf(u, u.createdAt).daysSinceJoined == 1
  {
  }

  // ---------------------------------------------------------------- serialisation, passwords

  /** JSON values, enough for a user document. */
  datatype Json = JNull | JBool(b: bool) | JInt(n: int) | JString(s: string) | JDate(d: Date)

  type JsonObject = map<string, Json>

  function OptionalString(v: Option<string>): Json {
    if v.None? then JNull else JString(v.value)
  }

  function OptionalInt(v: Option<int>): Json {
    if v.None? then JNull else JInt(v.value)
  }

  /** The stored document as a JSON object: `_id` and every schema path, the password included. */
  function DocumentObject(id: UserId, u: User): JsonObject {
    map[
      "_id" := JInt(id), "email" := JString(u.email), "password" := JString(u.password),
      "nickname" := JString(u.nickname), "birthDate" := JString(u.birthDate),
      "gender" := JString(u.gender), "profileImage" := OptionalString(u.profileImage),
      "bio" := JString(u.bio), "isAdmin" := JBool(u.isAdmin), "createdAt" := JDate(u.createdAt)]
  }

  /**
   * The schema's `toJSON` transform (models/User.js:134-140): the document with its
   * password removed and everything else kept.
   */
  function ToJson(id: UserId, u: User): (r: JsonObject)
    ensures "password" in DocumentObject(id, u) && "password" !in r
    ensures r.Keys == DocumentObject(id, u).Keys - {"password"}
    ensures forall k :: k in r ==> r[k] == DocumentObject(id, u)[k]
  {
    DocumentObject(id, u) - {"password"}
  }

  /** `matchPassword` (models/User.js:175-178): does `plain` hash to the stored value? */
  function MatchPassword(hash: string -> string, stored: string, plain: string): bool {
    hash(plain) == stored
  }

  /** A password always matches its own hash. */
  lemma MatchesOwnHash(hash: string -> string, plain: string)
    ensures MatchPassword(hash, hash(plain), plain)
  {
  }

  ghost predicate Injective(hash: string -> string) {
    forall a, b :: hash(a) == hash(b) ==> a == b
  }

  /** With a collision-free hash, no other password matches. */
  lemma OtherPasswordsDoNotMatch(hash: string -> string, plain: string, other: string)
    requires Injective(hash)
    requires other != plain
    ensures !MatchPassword(hash, hash(plain), other)
  {
  }

  // ---------------------------------------------------------------- the document object

  /**
   * A user document in memory, as `new User({...})` creates it, before and while it is
   * saved. `passwordModified` is the storage library's `isModified("password")`.
   */
  class UserDocument {
    var email: string
    var password: string
    var nickname: string
    var birthDate: string
    var gender: string
    var profileImage: Option<string>
    var bio: string
    var isAdmin: bool
    var createdAt: Date
    var passwordModified: bool

    /** The document's fields as a record. */
    function Snapshot(): User
      reads this
    {
      User(email, password, nickname, birthDate, gender, profileImage, bio, isAdmin, createdAt)
    }

    /** The setters have run: the email is lower-case and trimmed, nickname and bio trimmed; the clock gave a real date. */
    ghost predicate Normalised()
      reads this
    {
      && IsTrimmed(email) && HasNoAsciiUpper(email)
      && IsTrimmed(nickname) && IsTrimmed(bio)
      && ValidDate(createdAt)
    }

    /** `new User({...})`: every assigned path, the password among them, counts as modified. */
    constructor (email: string, password: string, nickname: string, birthDate: string,
                 gender: string, bio: string, now: Date)
      requires ValidDate(now)
      ensures Snapshot() == NewUser(email, password, nickname, birthDate, gender, bio, now)
      ensures passwordModified
      ensures Normalised()
    {
      var e, n, b := NormaliseEmail(email), NormaliseNickname(nickname), Trim(bio);
      assert IsTrimmed(e) && IsTrimmed(n) && IsTrimmed(b);
      this.email := e;
      this.password := password;
      this.nickname := n;
      this.birthDate := birthDate;
      this.gender := gender;
      this.profileImage := None;
      this.bio := b;
      this.isAdmin := false;
      this.createdAt := now;
      this.passwordModified := true;
    }

    /**
     * The `pre("save")` hook (models/User.js:153-169): replaces the password by its hash
     * when the password was modified, and leaves it alone otherwise.
     */
    method HashPasswordBeforeSave(hash: string -> string)
      modifies this`password
      ensures password == if passwordModified then hash(old(password)) else old(password)
      ensures Snapshot() == old(Snapshot()).(password := password)
    {
      if !passwordModified {
        return;
      }
      password := hash(password);
    }

    /** After a successful write the storage library forgets which paths were modified. */
    method MarkSaved()
      modifies this`passwordModified
      ensures !passwordModified
    {
      passwordModified := false;
    }
  }
}
