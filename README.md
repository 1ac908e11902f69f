# Automotive partner back end: settlements, user checks and the item store

This project is a Dafny model of three parts of a fleet/driver back end:

- **The settlement lifecycle** (`SettlementService`). Each record holds one user's monthly
  financial outcome.
  - `complete` creates the record for a (user, month) pair, once.
  - `update` overwrites its amounts and clears the bug flag.
  - `reportBug` sets the bug flag, from false to true only.
  - `getInfo`, `isBugReported` and `findAllWithReportedBug` only read.
  - A date is normalised to the first of its month before any lookup.
  - The four amounts are validated in a fixed order; the first failing check is the error raised.
  - The final profit is `netProfit * factor + tips - penalties`.
- **The user service's checks and flag flips** (`UserService`):
  - the ordered chain of registration checks;
  - the hand-written email shape test, the phone-number pattern and the password rules;
  - the order of the login checks;
  - `block`/`unblock` and `makeAdmin`/`makeDriver`;
  - the case-insensitive name filter over user lists.
- **The in-memory item repository** (`ItemRepository`). It is a map and a counter. `save`
  either stores an item under the id it already has, or gives it the counter's value as its
  id and advances the counter.

Files:

- `wrappers.dfy`: `Option`, `Result`, `Outcome`.
- `calendar.dfy`: `LocalDate` as a subset type of valid Gregorian dates.
- `settlement_rules.dfy`: module `SettlementRules`, the pure part of the settlement service.
  - the error type, the request and settlement records;
  - `AdjustDate` and the amount checks;
  - the consistency invariant of the settlement store;
  - the two repository queries.
- `settlement_service.dfy`: module `Settlements`, class `SettlementService`. Its fields are
  the repository (`records`, `nextId`) and the set of user ids that resolve.
- `settlement_properties.dfy`: properties of consecutive calls, and the worked March 2024 example.
- `user_rules.dfy`: module `UserRules`.
  - the pure checks and the filter;
  - the imperative `IsPasswordWeak`, which sets three flags from three scans.
- `user_service.dfy`: module `Users`, class `UserService` over a user store. It holds login
  and the four guarded flips.
- `item_repository.dfy`: module `Items`, class `ItemRepository`.

Modelling choices:

- `BigDecimal` arithmetic here is exact (multiply, add, subtract, compare with zero), so
  amounts are `real`. `netProfit` and `tips` are `Option<real>`, since the code checks them
  for null. `factor` and `penalties` are always present.
- The settlement repository is a map from id to record. New ids come from a counter
  `nextId`, which stands for the database's identifier generator.
- `findByUserIdAndDate` is a search over the ids below `nextId`. `findAllWithBugReportedTrue`
  returns records in id order.
- The class invariant `Valid()` (`IsConsistentStore`) says four things:
  - every record sits under its own id;
  - its month is a first of month;
  - its amounts are non-negative and its final profit matches the formula;
  - no two records share a (user, month) pair.

  Every mutating method keeps it.
- `complete` hands the request, with its un-normalised date, to `SettlementMapper`, which is
  not part of this model. The model stores the normalised month, which is what the lookups by
  normalised month need in order to find the record again.
- The special-character class of the password rule (`UserService.java:192`) is read with Java
  regex semantics. The inner `[\\]` is a nested class holding only a backslash, so the set is
  ``~ ! @ # $ % ^ & * ( ) _ + { } \ : ; , . < > / ? -``. It does not include `[` or `]`.
- `\d` and `[a-zA-Z]` are ASCII classes. `toLowerCase` is modelled on ASCII letters only.
- The password encoder's `matches` is a function-typed constant of `UserService`. The email
  whitelist is a set of approved emails.
- The `Role` enum is modelled with only the two roles the service uses, `ADMIN` and `DRIVER`.
- Items are values. The Java `save` sets the id on the caller's object and returns that same
  object; the model returns the updated value instead.
- Nothing stops an explicitly chosen item id at or above `counter` from being overwritten by
  a later save without an id. `Save`'s contract states the overwrite exactly as the code does it.

## Model

| member | source | states |
|---|---|---|
| SettlementRules.AdjustDate | src/main/java/com/ciosmak/automotivepartner/settlement/service/SettlementService.java:109-112 | the result is day 1 of the same year and month, and is a valid date |
| SettlementRules.AdjustDateIdempotent | src/main/java/com/ciosmak/automotivepartner/settlement/service/SettlementService.java:109-112 | normalising twice equals normalising once |
| SettlementRules.AdjustDateSameMonth | src/main/java/com/ciosmak/automotivepartner/settlement/service/SettlementService.java:109-112 | two dates normalise equal exactly when they share year and month |
| SettlementRules.AdjustDateFixedPoints | src/main/java/com/ciosmak/automotivepartner/settlement/service/SettlementService.java:109-112 | a date is unchanged by normalisation exactly when it is a first of month |
| SettlementRules.FinalProfitBounds | src/main/java/com/ciosmak/automotivepartner/settlement/service/SettlementService.java:197-200 | for non-negative net profit, factor and tips, calculateFinalProfit is at least minus the penalties; with a zero factor it is tips minus penalties; when the penalties do not exceed the tips it is non-negative |
| SettlementRules.CheckNetProfit | src/main/java/com/ciosmak/automotivepartner/settlement/service/SettlementService.java:129-140 | passes exactly when the net profit is present and non-negative; absent fails EmptyNetAmount, and a failure is only ever EmptyNetAmount or IncorrectNetAmount |
| SettlementRules.CheckFactor | src/main/java/com/ciosmak/automotivepartner/settlement/service/SettlementService.java:142-148 | passes exactly when the factor is non-negative; the only failure is IncorrectOptionalFactor |
| SettlementRules.CheckTips | src/main/java/com/ciosmak/automotivepartner/settlement/service/SettlementService.java:150-161 | passes exactly when the tips are present and non-negative; absent fails EmptyTipAmount, and a failure is only ever EmptyTipAmount or IncorrectTipAmount |
| SettlementRules.CheckPenalties | src/main/java/com/ciosmak/automotivepartner/settlement/service/SettlementService.java:163-169 | passes exactly when the penalties are non-negative; the only failure is IncorrectOptionalPenaltyAmount |
| SettlementRules.CheckSettlementData | src/main/java/com/ciosmak/automotivepartner/settlement/service/SettlementService.java:114-179 | for each of the six errors, the exact condition under which it is the one raised; checks run net, factor, tips, penalties; absent net or tips fail "empty"; a negative amount fails "incorrect"; factor and penalties have no empty check; zero passes all; passing means all four present where required and non-negative |
| SettlementRules.FindByUserIdAndDate | src/main/java/com/ciosmak/automotivepartner/settlement/service/SettlementService.java:79-86 | a found id holds a record of that user for that month; when nothing is found, no id below the bound holds one |
| SettlementRules.FindByUserIdAndDateComplete | src/main/java/com/ciosmak/automotivepartner/settlement/service/SettlementService.java:104-107 | on a consistent store the lookup succeeds exactly when a record exists for (user, month) |
| SettlementRules.WithReportedBug | src/main/java/com/ciosmak/automotivepartner/settlement/service/SettlementService.java:202-205 | a record is in the result exactly when it is stored, below the bound, and flagged; results are in strictly increasing id order |
| SettlementRules.AddRecordKeepsConsistent | src/main/java/com/ciosmak/automotivepartner/settlement/service/SettlementService.java:62-86 | adding a well-formed record under the next id, for a (user, month) pair not yet stored, keeps the store invariant with the next id one higher |
| SettlementRules.ReplaceRecordKeepsConsistent | src/main/java/com/ciosmak/automotivepartner/settlement/service/SettlementService.java:88-107 | overwriting a record with a well-formed one of the same id, user and month keeps the store invariant |
| Settlements.UpdateSettlementFields | src/main/java/com/ciosmak/automotivepartner/settlement/service/SettlementService.java:181-200 | id, user and month are kept; the four amounts come from the request; the final profit is recomputed from them; the bug flag is cleared |
| Settlements.SettlementService.constructor | src/main/java/com/ciosmak/automotivepartner/settlement/service/SettlementService.java:21-27 | an empty repository satisfies the store invariant |
| Settlements.SettlementService.GetInfo | src/main/java/com/ciosmak/automotivepartner/settlement/service/SettlementService.java:29-37 | an unknown user fails UserNotFound; otherwise no record for the normalised month fails SettlementIncomplete; on success the result is the stored record of that user and month |
| Settlements.SettlementService.ReportBug | src/main/java/com/ciosmak/automotivepartner/settlement/service/SettlementService.java:39-53 | an unknown id fails SettlementNotFound(id); a set flag fails BugAlreadyReported; otherwise only that record's flag becomes true; a failure changes nothing |
| Settlements.SettlementService.IsBugReported | src/main/java/com/ciosmak/automotivepartner/settlement/service/SettlementService.java:55-60 | returns the stored flag, or SettlementNotFound(id), and reads only |
| Settlements.SettlementService.Complete | src/main/java/com/ciosmak/automotivepartner/settlement/service/SettlementService.java:62-86 | UserNotFound first, then SettlementAlreadyCompleted if a record exists for (user, normalised month), then the first validation error; a failure changes nothing; success adds exactly one record under a new id, with the normalised month, the request's amounts, finalProfit = net*factor + tips - penalties and bugReported false; the store invariant, including (user, month) uniqueness, is kept |
| Settlements.SettlementService.Update | src/main/java/com/ciosmak/automotivepartner/settlement/service/SettlementService.java:88-107 | UserNotFound first, then SettlementIncomplete if no record exists for (user, normalised month), then the first validation error; no record is ever created; success overwrites only that record's four amounts and final profit and forces bugReported to false; all other records are unchanged |
| Settlements.SettlementService.FindAllWithReportedBug | src/main/java/com/ciosmak/automotivepartner/settlement/service/SettlementService.java:202-205 | returns exactly the stored records whose flag is true, in id order |
| SettlementProperties.CompleteTwiceFails | src/main/java/com/ciosmak/automotivepartner/settlement/service/SettlementService.java:62-86 | after a successful complete, complete for the same user and any date of that month fails SettlementAlreadyCompleted, whatever the amounts |
| SettlementProperties.ReportBugTwiceFails | src/main/java/com/ciosmak/automotivepartner/settlement/service/SettlementService.java:39-53 | a first reportBug on a known unflagged id succeeds, and a second call right after it fails BugAlreadyReported |
| SettlementProperties.MarchSettlementScenario | src/main/java/com/ciosmak/automotivepartner/settlement/service/SettlementService.java:62-112 | completing 15 March 2024 stores month 2024-03-01 with final profit 530 and no bug; a second complete in March fails; an update for May with no record fails SettlementIncomplete |
| UserRules.IsPhoneNumberIncorrect | src/main/java/com/ciosmak/automotivepartner/user/service/UserService.java:132-138 | the empty string is incorrect; an accepted number has 9 to 15 characters, all ASCII digits except possibly a leading '+' |
| UserRules.PhoneNumberCheckMatchesPattern | src/main/java/com/ciosmak/automotivepartner/user/service/UserService.java:132-138 | the phone check accepts exactly the strings that split into an optional '+' with 1-2 digits followed by 9 or 11-12 digits |
| UserRules.IndexOf | src/main/java/com/ciosmak/automotivepartner/user/service/UserService.java:147 | -1 exactly when the character is absent, otherwise its first position |
| UserRules.LastIndexOf | src/main/java/com/ciosmak/automotivepartner/user/service/UserService.java:148 | -1 exactly when the character is absent, otherwise its last position |
| UserRules.IsEmailIncorrect | src/main/java/com/ciosmak/automotivepartner/user/service/UserService.java:140-155 | incorrect exactly when there is no '@', or no '.', or the last '.' comes before the first '@', or the email ends in '.' |
| UserRules.EmailCheckShape | src/main/java/com/ciosmak/automotivepartner/user/service/UserService.java:140-155 | an email passes exactly when some '@' comes before some '.' and it does not end in '.'; so it fails on no '@', no '.', last '.' before first '@', or a trailing '.' |
| UserRules.IsPasswordTooShort | src/main/java/com/ciosmak/automotivepartner/user/service/UserService.java:167-170 | the empty password is too short |
| UserRules.FindInClass | src/main/java/com/ciosmak/automotivepartner/user/service/UserService.java:178-197 | the scan finds a character in the class exactly when the string contains one |
| UserRules.IsPasswordWeak | src/main/java/com/ciosmak/automotivepartner/user/service/UserService.java:172-200 | weak exactly when the password lacks an ASCII letter, a digit or a special character |
| UserRules.CheckPassword | src/main/java/com/ciosmak/automotivepartner/user/service/UserService.java:116-130 | empty, then shorter than 8, then weak; passes exactly for length at least 8 with a letter, a digit and a special character |
| UserRules.IsEmailTaken | src/main/java/com/ciosmak/automotivepartner/user/service/UserService.java:157-160 | taken exactly when some stored user, looked at as a value of the store, has that email |
| UserRules.IsEmailUnapproved | src/main/java/com/ciosmak/automotivepartner/user/service/UserService.java:162-165 | with an empty whitelist every email is unapproved |
| UserRules.CheckUserData | src/main/java/com/ciosmak/automotivepartner/user/service/UserService.java:72-114 | for each registration error, the exact condition under which it is the one raised; the order is first name, last name, empty phone, bad phone, empty email, bad email, taken, unapproved; once those pass, the result is the password check |
| UserRules.RegistrationKeepsEmailsUnique | src/main/java/com/ciosmak/automotivepartner/user/service/UserService.java:58-114 | on a store with unique emails, adding under a fresh id a user with the email of a request that passed the checks keeps emails unique |
| UserRules.CheckLogin | src/main/java/com/ciosmak/automotivepartner/user/service/UserService.java:202-230 | a password mismatch fails IncorrectLoginData, then disabled fails UserDisabled, then blocked fails UserBlocked; success returns the user |
| Users.UserService.constructor | src/main/java/com/ciosmak/automotivepartner/user/service/UserService.java:43-55 | a store whose users sit under their own ids with unique emails gives a valid service holding that store, whitelist and encoder |
| Users.UserService.CheckRegistration | src/main/java/com/ciosmak/automotivepartner/user/service/UserService.java:72-114 | the outcome is the registration check on the current store and whitelist; a passing request has an email no stored user has and that is approved |
| Users.UserService.Login | src/main/java/com/ciosmak/automotivepartner/user/service/UserService.java:202-225 | an unknown email fails IncorrectLoginData; otherwise the result is the login check on the user with that email |
| Users.UserService.Block | src/main/java/com/ciosmak/automotivepartner/user/service/UserService.java:296-307 | an unknown id fails UserNotFound; an already blocked user fails UserAlreadyBlocked; otherwise only that user's blocked flag becomes true |
| Users.UserService.Unblock | src/main/java/com/ciosmak/automotivepartner/user/service/UserService.java:309-320 | an unknown id fails UserNotFound; a user who is not blocked fails UserNotBlocked; otherwise only that user's blocked flag becomes false |
| Users.UserService.MakeAdmin | src/main/java/com/ciosmak/automotivepartner/user/service/UserService.java:322-338 | an unknown id fails UserNotFound; an admin fails UserAlreadyAdmin; otherwise only that user's role becomes ADMIN |
| Users.UserService.MakeDriver | src/main/java/com/ciosmak/automotivepartner/user/service/UserService.java:340-356 | an unknown id fails UserNotFound; a driver fails UserAlreadyDriver; otherwise only that user's role becomes DRIVER |
| Users.BlockThenUnblock | src/main/java/com/ciosmak/automotivepartner/user/service/UserService.java:296-320 | after a successful block, unblock succeeds and restores the store exactly |
| Users.BlockedUserCannotLogin | src/main/java/com/ciosmak/automotivepartner/user/service/UserService.java:202-225 | after a successful block, login with that user's email fails whatever the password |
| UserRules.ToLower | src/main/java/com/ciosmak/automotivepartner/user/service/UserService.java:394 | same length; each character is lower-cased; no ASCII capital remains; characters other than ASCII capitals are unchanged |
| UserRules.Contains | src/main/java/com/ciosmak/automotivepartner/user/service/UserService.java:394 | the empty text is contained in every string; a contained text is no longer than the string |
| UserRules.ContainsAt | src/main/java/com/ciosmak/automotivepartner/user/service/UserService.java:394 | the recursive contains holds exactly when the text occurs at some position |
| UserRules.NameMatches | src/main/java/com/ciosmak/automotivepartner/user/service/UserService.java:394 | every user matches the empty filter |
| UserRules.NameMatchesIgnoresFilterCase | src/main/java/com/ciosmak/automotivepartner/user/service/UserService.java:394 | lower-casing the filter does not change which users match |
| UserRules.FilterByName | src/main/java/com/ciosmak/automotivepartner/user/service/UserService.java:394 | the result is a subsequence of the input; a user is in it exactly when the user is in the input and matches; each matching user keeps its multiplicity and others get none |
| UserRules.GetFilteredUsers | src/main/java/com/ciosmak/automotivepartner/user/service/UserService.java:388-395 | an empty filter returns every user in order; otherwise the result is exactly the matching users, with multiplicities, as a subsequence of the input |
| Items.ItemRepository.constructor | src/main/java/com/ciosmak/automotivepartner/item/repository/ItemRepository.java:11-12 | an empty map, and the counter starts at 1 |
| Items.ItemRepository.Save | src/main/java/com/ciosmak/automotivepartner/item/repository/ItemRepository.java:14-33 | an item with an id is stored under it and the counter is unchanged; an item without one gets id = old counter, is stored there, and the counter grows by 1; afterwards the saved id maps to the saved item, every other key is unchanged, and the counter never decreases |
| Items.ItemRepository.FindById | src/main/java/com/ciosmak/automotivepartner/item/repository/ItemRepository.java:35-38 | the stored item for a present key, empty for an absent one |
| Items.ItemRepository.FindAll | src/main/java/com/ciosmak/automotivepartner/item/repository/ItemRepository.java:40-43 | as many items as keys, each a stored value, every stored value present, no two equal |
| Items.SaveThenFindById | src/main/java/com/ciosmak/automotivepartner/item/repository/ItemRepository.java:14-38 | findById of the id save returned gives back the saved item |

## Left out

- HTTP controllers, exception advisors and their status mapping: these are framework glue.
- `SettlementMapper` and `UserMapper` are not part of this model. Responses are the stored
  records themselves.
- `Users.UserService.Login` requires the store's invariant that emails are unique:
  `findByEmail` returns at most one user, and registration refuses taken emails.
- The null path of `factor` and `penalties`: comparing a null `BigDecimal` would throw a
  NullPointerException. These two fields are always present in the model.
- A null request date: `adjustDate` would throw a NullPointerException. The model's date is
  always present.
- Null first name, last name, phone number, email or password in a registration request:
  the `isEmpty()` calls would throw a NullPointerException. The model's strings are always
  present.
- The `scale = 2` columns of `Settlement.java`: the database rounds the persisted amounts to
  two decimal places. The model stores the exact values.
- Settlements.SettlementService.Complete: stores the normalised month (day 1), on the
  assumption that the stored record's month is the normalised one, as the store's data
  model requires. The code hands the raw request to `SettlementMapper`, which is not part
  of this model, so this is not derived from code. SettlementProperties.CompleteTwiceFails,
  SettlementProperties.MarchSettlementScenario, GetInfo after Complete and the (user, month)
  uniqueness kept in `Valid()` all rest on this assumption.
- `register` beyond its checks: saving the user, deleting the whitelisted email and
  publishing the registration event are left out.
- `forgotPassword`, `restartPassword` and token handling depend on the clock, on email
  sending and on token generation. `delete` and `loadUserByUsername` are left out too.
- The five `findAll*` wrappers of `UserService` are left out. They only choose a repository
  query before calling `getFilteredUsers`, and that call is modelled.
- Password hashing is a foreign library. It is the function-typed constant `matches`.
- The Java regex engine: the phone and password classes are written out as predicates.
- Locale-dependent and non-ASCII `toLowerCase`. Java's `length()` counts UTF-16 units; here
  length is the number of characters.
- `@Transactional` and concurrency: each operation is atomic and sequential.
- 64-bit overflow of the item counter and of `Long` ids.
- Aliasing of the Java entity objects: a saved item is returned as a new value.
- `Items.ItemRepository.FindAll` states no order. `HashMap.values()` has none that the code
  relies on.
