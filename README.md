# PlevenLab user service, modelled in Dafny

This project models the account and credential service of PlevenLab
(`PlevenLab/Services/UserService.cs`). It has three parts.

- **The random password generator** (`password_generator.dfy`).
  - It first inserts one character of every required class at a random position.
  - It then inserts random characters at random positions until the password is
    long enough and holds enough distinct characters.
  - `System.Random` becomes an oracle stream, `Oracle = nat -> nat`. Draw `t` read as
    `rand.Next(0, n)` is `stream(t) % n`, and 0 when `n` is 0.
  - The draws are numbered in C#'s evaluation order. A seeding step uses the position
    draw and then the character draw. A loop iteration uses the class draw, then the
    position draw, then the character draw.
- **The credential codec** (`credentials.dfy`).
  - `CreatePasswordHash` rejects a null or blank password. Otherwise it stores the
    generated 128-byte HMAC key as the salt, and HMAC-SHA-512 (RFC 2104 over SHA-512)
    of the password's UTF-8 bytes as the hash.
  - `VerifyPasswordHash` runs the validation ladder, recomputes the digest under the
    stored salt, and compares it byte by byte in a loop that returns at the first
    difference.
  - HMAC-SHA-512 and UTF-8 encoding are function values in a `Primitives` record. They
    are deterministic and otherwise uninterpreted. An HMAC-SHA-512 result always has
    64 bytes.
- **The user table** (`users.dfy`, `user_service.dfy`).
  - The table is a sequence of `User` rows, plus the next value of the identity column.
  - `Login` (from `LoginAsync`) is a function over the rows.
  - `Create`/`CreateAsync`, `UpdateAsync` and `CreateAdminUser` are methods of the class
    `UserService`, which owns the rows.
  - A thrown exception is a `Failure` value, and a C# `null` return is `None`. Every
    failing operation leaves the table as it was.

`exceptions.dfy` holds the exception values with the source's messages. `text.dfy`
holds `char.IsWhiteSpace` and `string.IsNullOrWhiteSpace`. `crypto.dfy` holds bytes,
the digest and key sizes, and the primitives. `wrappers.dfy` holds `Option` and `Result`.

Termination of the generator. The C# loop ends only if the random source keeps
supplying new characters, and never if more than 66 distinct characters are required
(the four alphabets hold 25 + 25 + 10 + 6 = 66). `GenerateRandomPassword` is proved
total under two conditions:

- `RequiredUniqueChars <= 66`;
- `Fair`: after every loop iteration, each of the 66 characters is inserted again by
  some later iteration.

The loop's `decreases` clause works as follows. While characters are missing, it
follows the next iteration due to insert a chosen missing character. After that, it
counts the characters still needed to reach the length.

One property follows from `rand.Next(0, chars.Count)`. Its result is always below
`Count` (0 on the empty list), so no insert into a non-empty list goes at the end. The last
character of a generated password is therefore always the first character seeded.
`GenerateRandomPassword` states this with `FirstSeed`.

## Model

| member | source | states |
|---|---|---|
| PasswordGenerator.Next | PlevenLab/Services/UserService.cs:217-218 | a draw of `rand.Next(0, n)` lies in [0, n), and is 0 when n is 0 |
| PasswordGenerator.NextCoversRange | PlevenLab/Services/UserService.cs:217-218 | every value in [0, n) (0 when n is 0) is produced by some stream, so the oracle is no narrower than `Random.Next` |
| PasswordGenerator.Insert | PlevenLab/Services/UserService.cs:217-218 | `List<char>.Insert` grows the list by one, puts the character at the position, adds exactly that character to the distinct set, and keeps the last element when inserting before the end |
| PasswordGenerator.InsertKeepsOthers | PlevenLab/Services/UserService.cs:243-244 | removing the inserted character gives back the old list in order, and the multiset grows by exactly that character: an insert never removes anything |
| PasswordGenerator.DrawCharInAlphabet | PlevenLab/Services/UserService.cs:218 | `randomChars[k][rand.Next(0, randomChars[k].Length)]` is a character of alphabet k, and so of the union of the four |
| PasswordGenerator.SeedInsert | PlevenLab/Services/UserService.cs:215-219 | one seeding step adds one character of its class, keeps the last character of a non-empty list, and on the empty list yields just that character |
| PasswordGenerator.SeedRequiredClasses | PlevenLab/Services/UserService.cs:215-237 | seeding uses two draws per required class, yields one character per required class, has a character of every required alphabet, stays within the alphabets, and ends with the first character seeded |
| PasswordGenerator.InsertRandomChar | PlevenLab/Services/UserService.cs:242-244 | one loop iteration adds one character of the alphabets (the one `LoopChar` names): the length grows by one, the multiset grows by exactly that character, so no earlier character is lost, and the last character is kept |
| PasswordGenerator.FillUp | PlevenLab/Services/UserService.cs:239-245 | the loop ends (under fairness) with at least `RequiredLength` characters and at least `RequiredUniqueChars` distinct ones, keeps every seeded character with its multiplicity (multiset inclusion), only adds characters from the alphabets, and keeps the last character |
| PasswordGenerator.GenerateRandomPassword | PlevenLab/Services/UserService.cs:190-248 | with null options the defaults 8/4/all classes apply; the password meets the length and distinct-character thresholds, contains a character of every required class, uses only the four alphabets, and ends with the first character seeded |
| PasswordGenerator.ClassesKept | PlevenLab/Services/UserService.cs:239-244 | characters are only ever added, so every class present after seeding is still present at the end |
| PasswordGenerator.AlphabetsAsWritten | PlevenLab/Services/UserService.cs:205-210 | the upper-case, lower-case and digit alphabets are exactly the source's literals, without 'I' and 'l' |
| PasswordGenerator.AllCharsSize | PlevenLab/Services/UserService.cs:205-210 | the four alphabets hold 66 distinct characters, the most `RequiredUniqueChars` can ever be met with |
| PasswordGenerator.AllCharsPrintable | PlevenLab/Services/UserService.cs:205-210 | every alphabet character lies between '!' and 'z' |
| PasswordGenerator.AlphabetsNotWhiteSpace | PlevenLab/Services/UserService.cs:46-59 | a non-empty generated password is never blank, so `Create` accepts the bootstrap password |
| Credentials.CheckPassword | PlevenLab/Services/UserService.cs:271-278 | the first two checks fail exactly for a blank password: null gives `ArgumentNullException("password")`, empty or white space gives `ArgumentException` with the source's message |
| Credentials.CreatePasswordHash | PlevenLab/Services/UserService.cs:251-267 | succeeds exactly for a non-blank password, failing with the check's exception otherwise; on success the salt is the 128-byte key and the hash is the 64-byte digest of the password under it |
| Credentials.VerifyPasswordHash | PlevenLab/Services/UserService.cs:269-301 | result equals `VerifyOutcome` (ladder in the order password, hash length 64, salt length 128, then whole-digest equality); succeeds exactly when the three checks pass, and is then true iff all 64 recomputed bytes equal the stored ones |
| Credentials.CreateThenVerify | PlevenLab/Services/UserService.cs:251-300 | round trip: a credential made from a non-blank password verifies that password (true, no exception) |
| Credentials.MismatchIsFalse | PlevenLab/Services/UserService.cs:290-297 | once the checks pass, any differing byte gives false and never an exception |
| Users.WithName | PlevenLab/Services/UserService.cs:68 | the rows matching a name are exactly the table's rows with that name, and none match iff the name is not taken |
| Users.UniqueMatch | PlevenLab/Services/UserService.cs:68 | with unique names, a taken name matches exactly one row, so `SingleOrDefault` does not throw |
| Users.IndexOfId | PlevenLab/Services/UserService.cs:156 | `Find(id)` gives the first row with that key, or nothing exactly when no row has it |
| Users.Login | PlevenLab/Services/UserService.cs:66-82 | a returned user is in the table, has that name and its credential verifies; an unknown name gives null; `InvalidOperationException` exactly when two different rows carry the name |
| Users.WithNameTwice | PlevenLab/Services/UserService.cs:68 | `SingleOrDefault` sees more than one match exactly when two different rows of the table carry the name |
| Users.LoginFailure | PlevenLab/Services/UserService.cs:66-82 | login throws only for two or more rows with the name, a blank password, or a stored hash or salt of the wrong length |
| Users.LoginUnique | PlevenLab/Services/UserService.cs:66-82 | with unique names, logging in as an existing user returns that user iff its credential verifies, and fails only when verification throws |
| Users.LoginAfterCreate | PlevenLab/Services/UserService.cs:66-82 | a user whose stored credential was created from a password logs in with it |
| UserStore.UserService.Create | PlevenLab/Services/UserService.cs:94-152 | blank password gives `AppException("Password is required")`, a taken name gives the "already taken" exception, both leaving the table unchanged; otherwise exactly one row is appended with the next key, the given name and email, a fresh credential, and it logs in with the password; names and keys stay unique |
| UserStore.UserService.Update | PlevenLab/Services/UserService.cs:154-180 | an unknown key gives null and no change; renaming to a taken name throws with no change; otherwise only that row changes: name and email set, key and dates kept, credential replaced iff the password is not blank; names stay unique |
| UserStore.LoginAfterUpdate | PlevenLab/Services/UserService.cs:154-180 | after an update the row logs in under its new name with the new password, or, if none was given, with every password the old credential accepted |
| UserStore.UserService.CreateAdminUser | PlevenLab/Services/UserService.cs:42-64 | a non-empty table is left unchanged; an empty one gets exactly one user "admin" / "admin@plevenlab.org" with the next key (which then advances by one), default dates and the credential `CreatePasswordHash` made from the logged password; that password has 16+ characters, 8+ distinct, every class, and logs in; the fairness of the random source is required only on the empty table |
| UserStore.BootstrapTwice | PlevenLab/Services/UserService.cs:42-64 | running the bootstrap twice on a fresh table leaves exactly one user, and the second run logs nothing |

## Left out

- Randomness: `new Random(Environment.TickCount)` is replaced by the oracle stream, and the HMAC key that `new HMACSHA512()` generates is a parameter.
- HMAC-SHA-512 and UTF-8 encoding themselves are not modelled; only their determinism and the 64-byte digest length are used.
- GenerateRandomPassword: termination is proved only for `RequiredUniqueChars <= 66` and a fair random source. With more than 66 required the source loops forever, and the model has no run for it.
- The `int` loop counter `i` of the generator is unbounded; its overflow after 2^31 iterations is not modelled.
- Strings are sequences of code points; UTF-16 surrogate pairs and `char` as a 16-bit unit are not modelled.
- Null names, e-mails and usernames are not modelled; in C# they are ordinary values (a null name is compared and stored like any other), and the model's names and e-mails are always strings. Null stored hash or salt arrays, for which `VerifyPasswordHash` would throw `NullReferenceException` at the length checks, are not modelled either. Only the password may be null.
- The database's name comparison follows its collation (case-insensitive in MySQL's default); the model compares names exactly.
- Entity Framework: change tracking, query translation and `SaveChanges` are reduced to replacing the row sequence. Calling `_context.Users.Add` on the already tracked row in `UpdateAsync` is modelled as saving the updated row. The C# as written probably does not do that: EF Core's `Add` marks a tracked entity as Added, so `SaveChangesAsync` would most likely try to insert a row with the existing `UserId`. The model shows the evidently intended update instead. Concurrent requests and the async/sync pairing are not modelled, and `Create` and `CreateAsync` are one operation.
- `GetById`/`GetByIdAsync` are plain key lookups; only the lookup that `UpdateAsync` uses (`IndexOfId`) is modelled.
- Logging (`_logger.LogWarning`) is modelled as the value `CreateAdminUser` returns.
- The timing behaviour of the early-return comparison loop is not expressible.
- Controllers, JWT token creation, startup wiring, migrations and the other entities are outside this model. The `UserDTO` file is not part of this model; its three fields are taken from how the service uses them.
