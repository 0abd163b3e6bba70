# ockidea user accounts, modelled in Dafny

This project models the user-account core of the ockidea backend:

- the Mongoose `User` model (`models/User.js`), covering:
  - the schema's setters and validators for email, password, nickname, birth date, gender, profile image and bio;
  - the `pre("save")` hook that hashes a modified password;
  - `matchPassword`;
  - the statics `isEmailTaken` and `isNicknameTaken`;
  - the virtuals `age`, `daysSinceJoined` and `birthYear`;
  - the `toJSON` transform that drops the password.
- the Express handlers of `routes/auth.js`: register, login, read a profile, update a profile, check an email, check a nickname.

The modules are:

- **Options**: optional values. An absent or `null` body field becomes `None`.
- **Text**: JavaScript string primitives:
  - `trim`, with ECMAScript white space;
  - ASCII `toLowerCase`;
  - `length` counted in UTF-16 code units;
  - `parseInt` on decimal digits.
- **Calendar**: the proleptic Gregorian calendar of JavaScript `Date`, covering:
  - leap years and month lengths;
  - a day number counting from 0000-01-01;
  - the next day;
  - the roll-over that `new Date(y, m - 1, d)` applies to a day past the end of its month.
- **Validators**: every regular expression of the schema, written out as a recogniser over `seq<char>`, plus the custom birth-date and profile-image validators. It also holds the properties these validators have.
- **UserModel**: the `User` record and the set of paths failing validation. It also holds:
  - the virtuals, with their characterisations;
  - the JSON document and `toJSON`;
  - `matchPassword` over an abstract hash function;
  - the class `UserDocument`, the in-memory document that `new User({...})` creates. Its constructor applies the setters on assignment. Its method `HashPasswordBeforeSave` is the save hook.
- **Storage**: the `users` collection, modelled as the class `UserStore`:
  - a map from id to record, an id generator and the hash function;
  - a class invariant: every record passed the validators, and no two records share an email or a nickname (the unique indexes);
  - `save()`: validate every path, then hash, then go through the unique indexes;
  - `findByIdAndUpdate` with update validators;
  - the lookups.
- **AuthRoutes**: one method per handler. Each method takes the store, the parsed body or path parameter, and the current date. It returns the HTTP status and the body, reduced to its meaning:
  - the `data` object;
  - the `available` flag;
  - or the kind of failure.

The clock is a parameter (`now`, `today`, or the `clock` of a write). The bcrypt hash is a function held by the store. Mongoose's order on `save()` is modelled explicitly:

1. Every validator runs, and all failing paths are reported together.
2. The pre-save hook hashes the password.
3. The insert fails with a duplicate-key error when another record has the email or the nickname. In a single-threaded run the registration pre-checks already catch every such conflict; only a concurrent writer, which is not modelled, reaches this refusal.

The registration route turns both kinds of failure into a 400 response.

## Model

| member | source | states |
|---|---|---|
| Text.Trim | models/User.js:20 | the trimmed string has no ECMAScript white space at either end and is no longer than the input |
| Text.TrimStripsWhiteSpace | models/User.js:20 | the trimmed string is a middle slice of the input; everything before and after that slice is white space |
| Text.TrimOfTrimmed | models/User.js:41 | a string with no white space at its ends is its own trim |
| Text.TrimIdempotent | models/User.js:112 | trimming twice gives the same result as trimming once |
| Text.TrimAfterSpace | models/User.js:20 | one space before a trimmed, non-empty string is exactly what `trim` removes |
| Text.LowerAscii | models/User.js:19 | the length is kept, and each character is lower-cased on its own ('A'-'Z' become 'a'-'z', nothing else changes) |
| Text.LowerAsciiRemovesCapitals | models/User.js:19 | lower-casing leaves no ASCII capital, and keeps every character that is not one |
| Text.LowerAsciiIdempotent | models/User.js:186 | lower-casing twice is lower-casing once |
| Text.TrimLowerCommute | models/User.js:19-20 | lower-casing then trimming gives the same text as trimming then lower-casing |
| Text.SpaceKeepsLower | models/User.js:19 | a space before a string without capitals adds no capital |
| Text.Utf16Length | models/User.js:42-43 | a JavaScript length lies between the character count and twice that count |
| Text.Utf16LengthOfBmp | models/User.js:111 | for text inside the Basic Multilingual Plane, the JavaScript length is the character count |
| Text.DecimalValue | models/User.js:61-63 | `parseInt` of a run of decimal digits: ten times the value of all but the last digit, plus the last |
| Text.DecimalValueOfFour | models/User.js:61 | `parseInt` of four digits is their positional value |
| Calendar.DaysInMonth | models/User.js:70-75 | a month has 28 to 31 days, and 29 exactly for February of a leap year |
| Calendar.DayNumber | models/User.js:243 | a date's day number lies within the day numbers of its year |
| Calendar.NextDay | models/User.js:243-247 | the next day is a real date whose day number is one more |
| Calendar.DayNumberMonotone | models/User.js:243-244 | a later date has a larger day number |
| Calendar.DayNumberInjective | models/User.js:243-244 | different dates have different day numbers |
| Calendar.MakeDate | models/User.js:70 | `new Date(y, m - 1, d)` is a real date, `d - 1` days after the first of month `m` |
| Calendar.MakeDateRoundTrip | models/User.js:70-75 | the `Date` round trip gives back (y, m, d) exactly when `d` is a day of that month |
| Validators.IsValidEmail | models/User.js:15-26 | the email path's `required` and `match` validators on the stored value: not empty and accepted by the pattern |
| Validators.NormaliseEmail | models/User.js:19-20 | the stored email is trimmed and has no ASCII capital |
| Validators.NormaliseEmailIdempotent | models/User.js:19-20 | normalising a stored email again changes nothing |
| Validators.NormaliseLoweredEmail | models/User.js:186 | lower-casing the value before the lookup does not change the email it is compared as |
| Validators.SameStoredEmail | models/User.js:19-20 | two inputs are stored as the same email exactly when they agree once trimmed and lower-cased |
| Validators.MatchesEmailPattern | models/User.js:23 | the email pattern: a word run, one '@', and a domain made of a word run followed by dot groups of two or three word characters |
| Validators.EmailShape | models/User.js:23 | an accepted address has exactly one '@', not at either end, and ends in a dot followed by two or three word characters |
| Validators.EmailFromParts | models/User.js:23 | `local@host.tld` is accepted for any two word runs and a two- or three-character word tld |
| Validators.EmailEndsInWordChars | models/User.js:23 | an accepted address begins and ends with a word character |
| Validators.NormalisePaddedEmail | models/User.js:19-23 | a stored address with a space before it normalises back to the address |
| Validators.NormaliseNickname | models/User.js:41 | the nickname `trim` setter, also applied to nickname query filters |
| Validators.IsValidNickname | models/User.js:37-47 | the nickname path's validators on the stored value: required, 2 to 20 UTF-16 code units, and the pattern |
| Validators.NicknameRule | models/User.js:37-47 | a nickname is accepted exactly when its trimmed form has 2 to 20 characters, each a Hangul syllable, an ASCII letter, a digit, '_' or '-' |
| Validators.MatchesNicknamePattern | models/User.js:45 | the nickname pattern: one or more Hangul syllables, ASCII letters, digits, '_' or '-' |
| Validators.BirthDatePatternRanges | models/User.js:53 | on eight digits, the pattern accepts exactly years 1900-2099, months 1-12 and days 1-31 |
| Validators.MatchesBirthDatePattern | models/User.js:53 | the birth-date pattern, written digit position by digit position |
| Validators.PassesBirthDateCheck | models/User.js:57-76 | the custom validator: the year is not after the current one and `new Date(year, month - 1, day)` reads back as the same year, month and day |
| Validators.BirthDateFields | models/User.js:61-63 | year, month and day are the positional values of digits 0-3, 4-5 and 6-7 |
| Validators.IsValidBirthDate | models/User.js:49-79 | the birth-date path's validators: required, the pattern, then the custom check against the current year |
| Validators.BirthDateRule | models/User.js:49-79 | a birth date is accepted exactly when it is eight digits naming a real Gregorian day of a year from 1900 up to the current year |
| Validators.ValidBirthDateIsReal | models/User.js:57-76 | a date accepted in some year is a real date of 1900-2099, with its year not after that year |
| Validators.RejectedBirthDates | routes/test.js:99-106 | 19901301, 19900232, 1899123, 199001 and abcd1234 are refused whatever the current year |
| Validators.FutureBirthDate | routes/test.js:99-106 | 20300101 is refused exactly while the current year is before 2030 |
| Validators.LeapDayIn2000 | models/User.js:70-75 | 20000229 is accepted from 2000 on |
| Validators.NoLeapDayIn1900 | models/User.js:70-75 | 19000229 is refused |
| Validators.NoFebruary30 | models/User.js:70-75 | 19900230 matches the pattern but is refused by the calendar check |
| Validators.IsValidProfileImage | models/User.js:91-106 | the profile-image validator: no value or an empty one passes, otherwise the pattern decides |
| Validators.ImageUrlShape | models/User.js:102 | an accepted URL starts with `http` in any case, is at least `http://x.jpg` long, and ends in a dot after the scheme followed by jpg, jpeg, png, gif or webp in any case |
| Validators.MatchesImageUrlPattern | models/User.js:102 | the image pattern, read from the end of the URL one extension at a time |
| Validators.ImageUrlRule | models/User.js:97-103 | a URL passes the pattern exactly when it is `http://` or `https://` in any case, then at least one character that is not a line terminator, then a dot and jpg, jpeg, png, gif or webp in any case |
| Validators.ImageUrlAbsentOrEmpty | models/User.js:99 | no image and the empty string both pass |
| Validators.ImageUrlAccepted | models/User.js:102 | an `https` URL with an upper-case `.PNG` extension passes |
| Validators.ImageUrlWrongScheme | models/User.js:102 | an `ftp` URL is refused |
| Validators.ImageUrlNothingBeforeExtension | models/User.js:102 | nothing between the scheme and the extension is refused |
| Validators.ImageUrlTrailingQuery | models/User.js:102 | text after the extension is refused |
| Validators.BioBounds | models/User.js:111 | up to 50 characters always fit, more than 100 never do, and inside the BMP the bound is exactly 100 characters |
| Validators.IsValidBio | models/User.js:108-114 | the bio validator: at most 100 UTF-16 code units |
| Validators.IsValidGender | models/User.js:81-89 | the gender enum: exactly "F", "M" or "N" |
| Validators.IsValidPassword | models/User.js:30-35 | the password validators on the plain text: required and at least 6 UTF-16 code units |
| UserModel.NoViolationsMeansValid | models/User.js:13-126 | no path fails exactly when every field validator accepts the record |
| UserModel.PathValid | models/User.js:13-126 | the validators of one schema path on the value the record holds there |
| UserModel.Violations | models/User.js:13-126 | the set of schema paths whose validators fail, all reported together |
| UserModel.NewUser | routes/auth.js:41-48 | the record `new User({...})` holds: email lower-cased and trimmed, nickname and bio trimmed, no image, not an administrator, created now |
| UserModel.Age | models/User.js:199-220 | no age exactly when there is no birth date; otherwise the age-th anniversary is not after today and the next one is |
| UserModel.FullYearsUnique | models/User.js:208-217 | at most one number meets that anniversary characterisation |
| UserModel.ExampleBirthDateParts | models/User.js:203-205 | 20030913 reads as 2003, 9 and 13 |
| UserModel.AgeOnBirthdayBoundary | models/User.js:208-217 | someone born 2003-09-13 is 20 on 2024-09-12 and 21 on 2024-09-13 |
| UserModel.LaterThisYearGivesNegativeAge | models/User.js:65-67 | the validator compares years only: 20261231 passes in 2026, and on 2026-10-15 its age is -1 |
| UserModel.BirthYear | models/User.js:251-254 | no birth year exactly when there is no birth date; otherwise the value of the first four digits, the same year the validator reads |
| UserModel.BirthYearOfValid | models/User.js:251-254 | an accepted birth date has a birth year from 1900 to the current year |
| UserModel.AgeAndBirthYear | models/User.js:199-220 | the age plus the birth year is this year, or last year if the birthday has not been reached |
| UserModel.DaysSinceJoined | models/User.js:223-248 | calendar days from the join date to today plus one; 1 without a join date |
| UserModel.DaysSinceJoinedStartsAtOne | models/User.js:223-248 | the join day counts as day 1 and the next day as day 2; the count is 1 when there is no join date |
| UserModel.DaysSinceJoinedCountsDays | models/User.js:243-247 | each further day adds one |
| UserModel.DaysSinceJoinedPositive | models/User.js:243-247 | from the join day on, the count is at least 1, and it is 1 on the join day only |
| UserModel.NewAccountIsOnDayOne | models/User.js:124 | a user read on the day they joined is on day 1 |
| UserModel.ToJson | models/User.js:134-140 | the JSON form is the document without `password`: the same keys apart from that one, with the same values |
| UserModel.MatchPassword | models/User.js:175-178 | `matchPassword`: the plain text, hashed, equals the stored value |
| UserModel.MatchesOwnHash | models/User.js:175-178 | a password matches its own hash |
| UserModel.OtherPasswordsDoNotMatch | models/User.js:175-178 | with a collision-free hash, no other password matches |
| UserModel.UserDocument.constructor | routes/auth.js:41-48 | the new document holds the normalised email, nickname and bio, the plain password, no image, no admin role and the current date; its password counts as modified |
| UserModel.UserDocument.HashPasswordBeforeSave | models/User.js:153-169 | the password becomes its hash when it was modified and stays as it is otherwise; no other field changes |
| UserModel.UserDocument.MarkSaved | models/User.js:155 | after a write, the password no longer counts as modified |
| Storage.StoredInvariant | models/User.js:13-126 | what every stored record satisfies: it passed the validators after its setters ran, with the birth date a real date of 1900-2099 |
| Storage.Collides | models/User.js:18 | the unique indexes on email and nickname would refuse the record: another record has its email or its nickname |
| Storage.EmailTaken | models/User.js:184-188 | some record has the email a document given this value would store |
| Storage.NicknameTaken | models/User.js:190-194 | some record has this nickname, trimmed |
| Storage.PatchKeepsInvariant | routes/auth.js:209-212 | an update the update validators accept keeps a stored record valid |
| Storage.ApplyPatch | routes/auth.js:209-212 | the record after the `$set`: each field the update names gets its new value, nickname and bio trimmed, every other field kept |
| Storage.PatchViolations | routes/auth.js:209-212 | the update validators: the paths the update sets whose new values fail their validators |
| Storage.ApplyPatchIdempotent | routes/auth.js:203-212 | applying an update twice gives the same record as applying it once; email, password, birth date, image, role and join date never change |
| Storage.SavedKeepsInvariant | models/User.js:13-126 | a record that passed every validator is a valid stored record, whatever its password became |
| Storage.WriteKeepsKeysUnique | models/User.js:18 | writing a record the unique indexes accept keeps every email and nickname unique |
| Storage.WriteKeepsAllStored | models/User.js:13-126 | writing a valid record under a generated id keeps every record valid |
| Storage.InsertKeepsValid | models/User.js:40 | inserting under a fresh id a valid record that does not collide keeps the collection valid |
| Storage.ReplaceKeepsValid | models/User.js:40 | replacing a record by a valid one that does not collide keeps the collection valid |
| Storage.UserStore.Valid | models/User.js:18-40 | the collection invariant: ids come from the generator, every record is valid, and no two records share an email or a nickname |
| Storage.UserStore.FindByEmail | routes/auth.js:90-92 | the filter value is lower-cased and trimmed; finds the one record with that email, or reports that none has it |
| Storage.UserStore.FindByNickname | routes/auth.js:190-193 | the filter value is trimmed; finds a record other than the excluded id with that nickname, or reports that none has it |
| Storage.UserStore.IsEmailTaken | models/User.js:184-188 | taken exactly when some record has the email a document given this argument would store |
| Storage.UserStore.IsNicknameTaken | models/User.js:190-194 | taken exactly when some record has this nickname, trimmed |
| Storage.UserStore.Save | routes/auth.js:50 | the invariant is kept; a failing validator refuses the save with every failing path and stores nothing; otherwise the password is hashed if modified; a collision is a duplicate-key refusal that stores nothing; otherwise exactly one record is added under the next id; the id generator advances only on success |
| Storage.UserStore.FindById | routes/auth.js:140 | returns the record with this id exactly when there is one |
| Storage.UserStore.FindByIdAndUpdate | routes/auth.js:209-212 | the invariant is kept; an unknown id is not found; otherwise the validators of the paths being set, then the unique indexes, decide; an accepted update replaces only that record |
| AuthRoutes.HasRequired | routes/auth.js:14 | `email`, `password`, `nickname` and `birthDate` are all present and non-empty |
| AuthRoutes.CredentialsMatch | routes/auth.js:90-109 | some record has the lower-cased, trimmed email and the password matches its hash |
| AuthRoutes.NicknameClash | routes/auth.js:189-201 | a non-empty nickname that differs from the user's own is, trimmed, held by another record |
| AuthRoutes.PreChecksMatchUniqueIndexes | routes/auth.js:23-38 | the email and nickname pre-checks see a conflict exactly when the unique indexes would refuse the document the registration builds |
| AuthRoutes.PaddedEmailIsTaken | routes/auth.js:23-31 | a stored email sent again with a space before it is reported as taken |
| AuthRoutes.SameEmailCannotRegisterTwice | routes/auth.js:23-31 | after a registration, an email field that differs from it only in ASCII case and surrounding white space is reported as taken |
| AuthRoutes.OwnNicknameIsNoClash | routes/auth.js:189 | resubmitting one's current nickname is not a clash |
| AuthRoutes.UpdateFields | routes/auth.js:203-206 | `updateFields`: nickname and gender only when truthy, bio whenever it is given, nothing else |
| AuthRoutes.Draft | routes/auth.js:41-48 | the document registration builds, with gender "N" and bio "" when those fields are missing or empty |
| AuthRoutes.RegisterView | routes/auth.js:56-66 | the 201 `data`: id, email, nickname, birth date, age, days since joining, gender, bio and join date |
| AuthRoutes.AccountView | routes/auth.js:115-124 | the login `data`, also the profile-update `data`: the same without the join date |
| AuthRoutes.ProfileView | routes/auth.js:151-162 | the profile `data`: the login fields plus the role and the join date |
| AuthRoutes.RegisterViewAgreesWithDocument | routes/auth.js:56-66 | the 201 body has no password; every stored field in it comes from the document; `id` is the `_id` |
| AuthRoutes.AccountViewAgreesWithDocument | routes/auth.js:115-124 | the same holds for the login body, and for the profile-update body |
| AuthRoutes.ProfileViewAgreesWithDocument | routes/auth.js:151-162 | the same holds for the profile body |
| AuthRoutes.Register | routes/auth.js:8-75 | 400 with the required list when a field is missing; then the email conflict, checked before the nickname conflict; then 400 for a validation or duplicate-key refusal; every refusal stores nothing and leaves the id generator alone; otherwise 201 with exactly one new record (gender "N" and bio "" by default, password hashed) and its view |
| AuthRoutes.Login | routes/auth.js:78-133 | 400 without both fields; 200 exactly when a record has the lower-cased, trimmed email and the password matches its hash, with that record's view; otherwise the same 401 |
| AuthRoutes.GetProfile | routes/auth.js:136-171 | 404 for an unknown id; otherwise 200 with the profile view, which includes the role and the join date |
| AuthRoutes.UpdateProfile | routes/auth.js:174-235 | 404 for an unknown id; 400 when a new, non-empty nickname, trimmed, belongs to another record; otherwise the non-empty nickname and gender and any given bio go through the update validators and the unique indexes; a refusal is a 400 with nothing changed; success is a 200 with the updated account; the id generator never changes |
| AuthRoutes.CheckEmail | routes/auth.js:238-264 | 400 without an email; otherwise 200 with `available` exactly when no record has the email this value would be stored as |
| AuthRoutes.CheckNickname | routes/auth.js:267-293 | 400 without a nickname; otherwise 200 with `available` exactly when no record has that nickname, trimmed |

## Left out

- Text.LowerAscii: `toLowerCase` is modelled on ASCII letters only. Case mapping of other scripts is not modelled, and neither is the ignore-case flag of the image pattern outside ASCII.
- Query casting follows the storage library from its version 5 on, which runs a path's setters on query filter values. So the email lookups (`isEmailTaken`, login, check-email) lower-case and trim their value, and the nickname lookups trim theirs. The library version is not part of this model. Under a version 4 library without casting, a space-padded email would be reported as free, and the unique index would still refuse the document built from it.
- `daysSinceJoined` counts whole local calendar days. Daylight-saving shifts, the millisecond division with `Math.floor`, and the time of day stored in `createdAt` are not modelled.
- bcrypt: the salt, the cost factor 12, the random salt and constant-time comparison are not modelled. The hash is a function held by the store, and `matchPassword` compares `hash(plain)` with the stored value. bcrypt compares only the first 72 bytes of the plain text, so the real hash is not injective: `UserModel.OtherPasswordsDoNotMatch` holds only for a collision-free hash, which bcrypt is not for longer passwords.
- Ids are natural numbers. A malformed `:id`, which makes Mongoose throw a cast error, is not modelled: the profile read and update would answer 500 and 400 respectively.
- Failures of the database itself are not modelled, including the 500 answers of login, profile read and the checks.
- Body fields that are not strings are not modelled: each field is a string or absent. `null` and `undefined` are the same `None`, so the model counts a `null` bio as not given.
- Concurrency is not modelled. That includes the race between the pre-checks and the write, and an update whose document disappears in between (where the handler would read `null`).
- Response messages are represented by the kind of failure, not by their Korean text.
- The birth-date custom validator is modelled only on values that match the pattern. On other values its result does not affect whether the path is valid.
- `app.js`, the non-unique indexes at models/User.js:146-148, and the dev-only endpoints of routes/test.js are not part of this model.
- The sign-up date in `createdAt` is a calendar date. The full timestamp it holds is not modelled.
