# authenticator: a verified model of the identity service core

This project models the core of a small Go identity service. The service registers users and authenticates them by username and password. It issues JWT access tokens and opaque refresh tokens, and caches each user's refresh token in Redis. It also validates and rotates tokens, and changes a user's state (enabled, disabled, deleted). Users live in one PostgreSQL table with optimistic versioning. Writes go through a process-wide table of integer transaction handles.

The model has one Dafny module per Go package:

- `Wrappers` is the Option and Result datatypes.
- `Model` is `internal/model`: states, the error kinds and the user row.
- `Util` is `pkg/util/utility.go`: version increment and pagination, with Go's 64-bit wrap made explicit.
- `Validation` is `pkg/validation`: the length, regex, password and number checks and their aggregation.
- `Postgres` is `pkg/postgres/transaction.go`: the handle table, as a class with the handle map, the id counter and a connection-pool counter.
- `Web` is the refresh-token cache of `internal/usecase/web`, as a class over a map.
- `Repo` is `internal/usecase/repo/user_repo.go`. Its reads are functions of the committed table. Its writes are methods that change the view of a live transaction.
- `UseCase` is `internal/usecase/user.go`: the class `UserUseCase` with Auth, Create, ChangeState, Validate and UpdateToken.

Database semantics. A transaction is a snapshot of the table taken at Begin, together with its own writes. Commit installs the snapshot. Rollback discards it. Every use-case call runs Begin..End with nothing in between, so this is exact for the calls modelled.

Collaborators whose code is outside the core become parameters:

- driver errors on reads and writes;
- the bcrypt hash and its comparison;
- the JWT verifier and generators;
- the id the table assigns;
- the clock;
- the Redis outcome;
- Unicode character classes (`UnicodeTables`).

The use case receives them bundled in `UseCase.Env`.

The use-case invariant is `UseCase.UserUseCase.Valid`, which every state-changing operation preserves. It requires three things:

- the handle table is consistent with the pool;
- row ids are distinct;
- no two live (not deleted) rows share a username.

## Model

| member | source | states |
|---|---|---|
| Model.ParseState | internal/model/models.go:28-39 | succeeds exactly for "enabled", "disabled", "deleted", returning the state of that name; any other string is TypeNotMatched |
| Model.ParseStateRoundTrip | internal/model/models.go:22-39 | parsing the name of any state gives that state back |
| Model.StateNameInjective | internal/model/models.go:22-26 | distinct states have distinct names |
| Util.AddOne | pkg/util/utility.go:18 | Go's `cv + 1` on a 64-bit int: exact below the maximum, wrapping to the minimum at it |
| Util.VersionInc | pkg/util/utility.go:17-24 | the successor while it is at most 10000, 0 above that, the minimum int64 after wrap-around at the maximum; never returns its input; keeps versions in 0..10000 |
| Util.IncTimesAdds | pkg/util/utility.go:17-24 | from any version in 0..10000, n increments that stay within the bound give version + n |
| Util.IncTimesCompose | pkg/util/utility.go:17-24 | a increments followed by b increments are a + b increments |
| Util.VersionCycle | pkg/util/utility.go:19-22 | every version in 0..10000 comes back after exactly 10001 increments: the counter resets to 0 past its bound |
| Util.MulUint64 | pkg/util/utility.go:34 | uint64 multiplication: the product modulo 2^64, which is the exact product when it fits in 64 bits |
| Util.PageToLimitOffset | pkg/util/utility.go:26-36 | the limit is perPage capped at 100; page 0 counts as page 1 (offset 0); the offset is limit * (page - 1) modulo 2^64, so exactly that product whenever it fits in 64 bits |
| Util.OffsetExact | pkg/util/utility.go:26-36 | for every page below 2^57 the offset is exactly limit * (page - 1) |
| Util.HugePageWraps | pkg/util/utility.go:34 | with page 2^63+1 and perPage 2 the offset wraps to 0 |
| Validation.StringMustBeNotEmptyWithMinAndMaxLengths | pkg/validation/validation.go:224-234 | empty is EmptyString; fewer runes than the minimum is ShortString; more than the maximum is LongString; success exactly when the rune count is in range (each error iff its condition) |
| Validation.StringMustBeNotEmptyWithMaxLength | pkg/validation/validation.go:236-238 | success iff 1 <= runes <= max; empty is EmptyString, too long is LongString |
| Validation.StringMustBeNotEmptyWithMinLength | pkg/validation/validation.go:250-258 | success iff non-empty and at least min runes; empty is EmptyString, short is ShortString |
| Validation.MinAndMaxIsMinThenMax | pkg/validation/validation.go:224-258 | the min-and-max check is the min check, and when that passes, the max check |
| Validation.StringCanBeEmptyButNotExceedMaxLength | pkg/validation/validation.go:240-248 | the empty string passes; a non-empty string fails iff it has more runes than the max, and then with LongString |
| Validation.UsernameValidate | pkg/validation/validation.go:146-154 | success iff 1..32 runes, all ASCII letters, digits, '-', '_' or '.'; otherwise InvalidUsername |
| Validation.StringMustBeKey | pkg/validation/validation.go:106-111 | success iff 3..32 characters, a lower-case ASCII letter first, then lower-case letters, digits or '_'; otherwise Generic |
| Validation.MobilePhoneValidate | pkg/validation/validation.go:156-161 | success iff 11 ASCII characters: "993", then 6 or 7, then 1..5, then six digits; otherwise InvalidMobilePhone |
| Validation.SubDomainValidate | pkg/validation/validation.go:192-197 | success iff 1..63 characters of ASCII letters, digits and '-', with an alphanumeric first and last character; otherwise InvalidSubDomain |
| Validation.IndexOf | pkg/validation/validation.go:50 | the first position at or after `from` holding the character, or the length when there is none |
| Validation.MatchesEmailIff | pkg/validation/validation.go:50 | the scanning matcher accepts exactly the strings the email regular expression matches (an existential over the '@' and '.' split points) |
| Validation.EmailValidate | pkg/validation/validation.go:170-178 | success iff 1..64 runes and the email expression matches; otherwise InvalidEmail |
| Validation.CountsPartition | pkg/validation/validation.go:119-129 | the four counted kinds and the uncounted runes together account for every rune of the password exactly once |
| Validation.ByteLenBounds | pkg/validation/validation.go:118 | the UTF-8 byte length lies between the rune count and four times it |
| Validation.LengthIsCountedInBytes | pkg/validation/validation.go:118 | the password length is in bytes: four two-byte runes already meet a minimum of 8 |
| Validation.PasswordValidate | pkg/validation/validation.go:113-144 | success iff the byte length and the numeric, upper, lower (letters and spaces) and special (punctuation or symbol) counts each meet the policy, with each rune counted under the first kind that applies; otherwise WeakPassword |
| Validation.IsNumber | pkg/validation/validation.go:259-268 | success iff every rune is a Unicode decimal digit (the empty string passes); otherwise NumberString |
| Validation.ScanDigitsMeaning | pkg/validation/validation.go:271 | strconv's base-10 digit loop yields a value exactly for a run of digits within uint64, and that value is the run's decimal value; a range error exactly when leading digits exceed 2^64 - 1 before any non-digit is met |
| Validation.AtoiMeaning | pkg/validation/validation.go:271 | strconv.Atoi succeeds exactly on `[+-]?[0-9]+` within int64, returning its signed value; a numeral out of range, or digits that overflow before any junk, are a range error carrying the bound of the sign; everything else is a syntax error carrying 0 |
| Validation.RangeErrorBeforeJunk | pkg/validation/validation.go:271 | digits that overflow uint64 give a range error with MaxInt64 whatever follows them, such as the "x" of "99999999999999999999x" |
| Validation.MaxResultsStringWithMaxCheck | pkg/validation/validation.go:270-280 | the integer is always Atoi's, including beside an error; a parse error propagates; no error iff the string is a numeral whose value is in 1..maxRes; a parsed integer outside that range is IncorrectMaxResult |
| Validation.IntWithMinCheck | pkg/validation/validation.go:282-287 | success iff result >= minResult; otherwise IncorrectMinResult |
| Validation.FailedNames | pkg/validation/validation.go:92-102 | empty exactly when every validation passes |
| Validation.IsValid | pkg/validation/validation.go:88-104 | true iff every validation passes; an eager run logs the name of every failing validation in order, a lazy run stops after logging the first |
| Validation.FailedNamesPrefix | pkg/validation/validation.go:92-102 | what a run over a prefix logs is a prefix of what the whole run logs |
| Postgres.NextTxId | pkg/postgres/transaction.go:113-122 | the handle handed out is never live; it is 0 when no handle is live and above the counter otherwise |
| Postgres.HandleReusedAfterEmpty | pkg/postgres/transaction.go:116-119 | once the table is empty, numbering restarts at 0, so a handle id freed earlier is handed out again |
| Postgres.Postgres.constructor | pkg/postgres/postgres.go:61-89 | a fresh service has no live handles and no connections in use, and satisfies the invariant |
| Postgres.Postgres.GetTxById | pkg/postgres/transaction.go:95-102 | succeeds iff the handle is live, returning its transaction; otherwise TxNotFound |
| Postgres.Postgres.GetConnTxById | pkg/postgres/transaction.go:104-111 | the same lookup as GetTxById |
| Postgres.Postgres.GetTxIdAddMap | pkg/postgres/transaction.go:113-122 | registers the transaction under NextTxId, which was not live, and advances the counter to it |
| Postgres.Postgres.DeleteTxFromMap | pkg/postgres/transaction.go:124-128 | removes exactly that handle |
| Postgres.Postgres.PgTxBegin | pkg/postgres/transaction.go:36-54 | (corrected) succeeds iff a connection is free and both Acquire and Begin succeed; failures are PoolExhausted or the driver's error, leave handles and connections as they were, and keep the pool invariant; on success the new handle holds a snapshot of the table and one more connection is in use |
| Postgres.Postgres.PgTxBeginAsWritten | pkg/postgres/transaction.go:36-54 | as written: same outcome, but a failed Begin after a successful Acquire still counts a connection in use, which is never released |
| Postgres.LeakBlocksLaterBegin | pkg/postgres/transaction.go:43-48 | on a one-connection pool, after one failed Begin as written the next Begin is PoolExhausted; with the corrected Begin it succeeds |
| Postgres.Postgres.PgTxEnd | pkg/postgres/transaction.go:56-93 | an unknown handle is TxNotFound and changes nothing; otherwise the handle is removed and its connection released; without an error in the transaction it commits, installing the snapshot, and returns the commit's error (the table is unchanged when the commit fails); with one it rolls back and returns no error |
| Postgres.Postgres.ExecOnTx | pkg/postgres/transaction.go:13-34 | a statement on a live handle replaces that transaction's view and nothing else |
| Web.WebAPI.constructor | internal/usecase/web/web_api.go:18-22 | a fresh cache is empty |
| Web.WebAPI.AddRefreshToken | internal/usecase/web/web_api.go:26-33 | on success the user's key maps to the new refresh token; on a cache error nothing changes and the error is returned |
| Repo.FirstMatch | internal/usecase/repo/user_repo.go:90 | the first selected row at or after `from`, with no selected row before it; none when no row is selected |
| Repo.GetById | internal/usecase/repo/user_repo.go:68-100 | a driver error propagates; otherwise no user iff no live row has the id; a found user is a live row with that id, with the password column not read |
| Repo.GetPasswordById | internal/usecase/repo/user_repo.go:102-136 | as GetById, with the password returned |
| Repo.GetByUsername | internal/usecase/repo/user_repo.go:138-172 | a driver error propagates; otherwise no user iff no live row has the name; a found user is the first live row with that name |
| Repo.GetByUsernameUnique | internal/usecase/repo/user_repo.go:138-172 | when live names are distinct, the lookup by a live row's name returns that row |
| Repo.Insert | internal/usecase/repo/user_repo.go:40-59 | succeeds iff the new id is unused, appending the row with that id and the default version; a duplicate id is a constraint violation; ids stay distinct |
| Repo.RowsAffected | internal/usecase/repo/user_repo.go:186-210 | zero iff no row has both the id and the version of the baseline; never more than the table has |
| Repo.UpdateWhereFrame | internal/usecase/repo/user_repo.go:186-194 | the update keeps the length; a row matching id and version gets the new state, update time and version with the rest kept; every other row is unchanged |
| Repo.NoRowsNoChange | internal/usecase/repo/user_repo.go:186-210 | an update that affects no row leaves the table as it was |
| Repo.AtMostOneRow | internal/usecase/repo/user_repo.go:186-194 | with distinct ids the compare-and-set update affects at most one row |
| Repo.UpdateKeepsIds | internal/usecase/repo/user_repo.go:186-194 | the update keeps ids distinct |
| Repo.StaleVersionLoses | internal/usecase/repo/user_repo.go:186-210 | after a successful update with a new version, a second update with the same baseline affects no rows (the lost update is detected) |
| Repo.Create | internal/usecase/repo/user_repo.go:27-66 | an unknown handle is TxNotFound; a driver error or a duplicate id fails with nothing changed; otherwise the transaction's view gains the row and the row comes back carrying the assigned id |
| Repo.ChangeState | internal/usecase/repo/user_repo.go:174-213 | an unknown handle is TxNotFound; a driver error changes nothing; otherwise the view becomes the compare-and-set update, and the result is success iff some row matched, else NoRowsAffected |
| UseCase.PasswordCheckError | internal/usecase/user.go:54-62 | only a matching password passes; a mismatch is Unauthorized; any other failure of the check propagates |
| UseCase.ValidateGate | internal/usecase/user.go:194-198 | only a verifying token passes; every verification failure is Unauthorized |
| UseCase.RotationGate | internal/usecase/user.go:215-226 | only an expired token proceeds; a verifying token is Forbidden; any other failure is Unauthorized |
| UseCase.GatesExclusive | internal/usecase/user.go:194-226 | no token passes both the validation gate and the rotation gate |
| UseCase.AppendKeepsInvariants | internal/usecase/user.go:95-103 | adding a live row whose id is new and whose name no live row has keeps ids and live names distinct |
| UseCase.UpdateLiveRow | internal/usecase/user.go:173-179 | updating a live row by its own id and version changes that row alone, and keeps ids and live names distinct |
| UseCase.DeletedNameVanishes | internal/usecase/user.go:173-179 | after a live row is set to deleted, no live row carries its name |
| UseCase.UserUseCase.constructor | internal/usecase/user.go:24-30 | the use case over a consistent store satisfies the invariant |
| UseCase.UserUseCase.Auth | internal/usecase/user.go:32-88 | a read error propagates; an unknown name or a wrong password is Unauthorized, and other check failures propagate; a failure of either token generator or of the cache write returns that error unchanged; success iff the user exists, the password matches, both tokens are generated and the cache write succeeds; on success the returned refresh token is the one cached under the user's id; on any error the cache is unchanged |
| UseCase.UserUseCase.Create | internal/usecase/user.go:90-141 | a read error or a hashing error propagates; a taken live name is Conflict; a failed PgTxBegin returns its error (PoolExhausted, Acquire's or Begin's); in all these cases no handle is opened and the table is unchanged; otherwise every handle opened is ended; the result reports only the insert: its driver error, or ConstraintViolation for a taken id; the table gains the enabled user with equal timestamps iff the insert and the commit succeed; the invariant is preserved |
| UseCase.UserUseCase.ChangeState | internal/usecase/user.go:143-186 | a read error propagates; an unknown name is NotFound; a failed PgTxBegin returns its error; in all these cases no handle is opened; otherwise every handle opened is ended and the result is the update's error; on commit the found row alone gets the new state, the clock's update time and VersionInc of its version; deleted rows never change; after a delete the name no longer resolves; the invariant is preserved |
| UseCase.UserUseCase.Validate | internal/usecase/user.go:188-207 | as written: a token that does not verify is Unauthorized; otherwise only the read's driver error is reported, so a token whose user is missing or deleted passes |
| UseCase.UserUseCase.ValidateExisting | internal/usecase/user.go:188-207 | corrected: passes iff the token verifies, the read succeeds and a live user has the token's id; a missing or deleted user is NotFound |
| UseCase.UserUseCase.ValidateAcceptsDeletedUser | internal/usecase/user.go:200-206 | a verifying token of a deleted user passes Validate and fails ValidateExisting |
| UseCase.UserUseCase.UpdateToken | internal/usecase/user.go:209-266 | refuses a verifying token (Forbidden) and a non-expiry failure (Unauthorized); for an expired token, a failed read or a missing user returns the expiry error; a failure of either token generator or of the cache write returns that error unchanged; success iff the token is expired, the user exists, both tokens are generated and the cache write succeeds; on success the new refresh token is cached under the token's id; on any error the cache is unchanged |

## Left out

- Logging (zerolog), the `fmt.Println` of the rotated tokens in UpdateToken, and every other side effect on output.
- Concurrency: the RWMutex around the handle map, and interleaved use-case calls. Each call is atomic in the model. So the compare-and-set guard's NoRowsAffected, which needs a concurrent writer between the read and the update, is shown at the repository level (Repo.StaleVersionLoses) and is unreachable within one use-case call.
- Pool Acquire blocks until a connection is free, or until the context's deadline passes. The model has no clock for the context, so an exhausted pool fails at once with PoolExhausted.
- Rollback, Close and Release failures are only logged. The model drops them. The comparison at transaction.go:69 tests `err` where the rollback error was meant, which changes only what is logged.
- UseCase.UserUseCase.Create, UseCase.UserUseCase.ChangeState: the deferred `err = TxEnd(...)` assigns the local variable after the unnamed result has been fixed, so a failed commit is not reported, as in the source. When the commit fails, the call returns success and leaves the table unchanged.
- UseCase.UserUseCase.UpdateToken: when the read fails or the user is missing, the source returns the verifier's expiry error, not Unauthorized. Modelled as written. The request's RefreshToken field is never read, so the model takes no such argument, and the cached token is not compared.
- UseCase.UserUseCase.ChangeState: the use case applies no transition rules. Any state may be set, and a deleted user cannot be reached because every read filters deleted rows out.
- UseCase.UserUseCase.Create, UseCase.UserUseCase.ChangeState: both are built on the corrected Postgres.Postgres.PgTxBegin, so their `pg.inUse == old(pg.inUse)` describes the fixed program. In the source, a failed conn.Begin inside NewTxId leaves one connection checked out for good (the first Findings row).
- Postgres.Postgres.GetTxIdAddMap: `p.idTx` is a 64-bit int in Go; the model's counter is unbounded, so the wrap after 2^63 handles, with the map never emptying in between, is not modelled.
- Validation.IsValid: each validator closure is given by its precomputed outcome, so that no closure runs after the first failure of a lazy run is visible only through the names logged.
- Repo.DefaultVersion: the user-creation INSERT does not set `version`, so a new row gets the column's default. The model takes that default to be 0, because the SQL schema is not part of the repository.
- The table has no username uniqueness constraint in the model, because the SQL schema is not part of the repository. The invariant that live names are distinct is kept by the use case's Conflict check instead.
- Model.ParseState: Go's State is an open string type. The model's State is the closed set of the three constants, which is all the use case ever stores.
- Validation.Atoi: the NumError's Func and Num fields (the function name and the input echoed in the message) are not modelled; only its kind, ErrSyntax or ErrRange, and the integer beside it are.
- Validation.IsNumber, Validation.PasswordValidate: Unicode category tables are a parameter, and unicode.IsDigit and the other predicates are not modelled beyond them. Invalid UTF-8 input is out of scope, because strings are sequences of code points.
- MobilePhoneValidateUser (validation.go:163-168) has the same body as MobilePhoneValidate, so only one is modelled.
- UrlValidate, DomainValidate, After and TimestampValidate are left out: URL parsing, the IP and domain expressions, and time parsing are not used by the core. Int64FromString and RandomString are left out too, because RandomString needs randomness.
- GetRefreshTokenByID in web_api.go is not called by the use case. The refresh-token TTL and the `user:refreshToken:<id>` key format are represented by the map key only.
- bcrypt, JWT signing, parsing and expiry, and UUID generation are parameters of Env. dto.VerifyAccessToken's panic on a token without an id claim is not modelled.
- The TxRepo wrapper (tx_pg.go) only forwards to PgTxBegin and PgTxEnd, so the use case calls those directly.
- Squirrel query building cannot fail for these fixed queries. Its error paths are omitted.

## Findings

| source | as written | input that shows it | evidently intended | confidence | as-written member | corrected member |
|---|---|---|---|---|---|---|
| pkg/postgres/transaction.go:43-48 | when conn.Begin fails after a successful Acquire, PgTxBegin returns without releasing the acquired connection | a pool of one connection and one Begin that fails: the next Begin finds the pool exhausted (Postgres.LeakBlocksLaterBegin) | release the connection before returning the Begin error | high (not executed) | Postgres.Postgres.PgTxBeginAsWritten | Postgres.Postgres.PgTxBegin |
| internal/usecase/user.go:200-206 | Validate discards the user that GetById returns and reports only a driver error | a verifying access token whose user has since been deleted: GetById returns no user and no error (UseCase.UserUseCase.ValidateAcceptsDeletedUser) | reject the token with NotFound or Unauthorized when no live user has its id | medium (not executed) | UseCase.UserUseCase.Validate | UseCase.UserUseCase.ValidateExisting |
