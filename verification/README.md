# KeyKeeper secret store, modelled in Dafny

KeyKeeper is a password vault. Each signed-in user stores **credentials**, which are site logins: title, url, username and password. They also store **networks**, which are Wi-Fi secrets: title, network name and password. Every row belongs to one user. Its password is encrypted at rest with Cryptr and decrypted only when its owner reads it back. Users sign up with an email that must be unique, and their password is stored as a bcrypt hash.

This project models the repositories and services behind those operations as pure state transitions over an immutable table.

- `Store` (store.dfy) is the repository layer that the credential and network repositories share. A row is `Row<F>`: `{id, title, fields: F, password, userId}`. `F` holds the kind-specific columns. A table maps ids to rows and carries an autoincrement counter. Each Prisma `where` filter has a reference meaning: the set of ids of the rows it selects. Each query is proved against that set. `findByTitle` scans the ids in ascending order and returns the first match; `listAllByUserId` is a loop that emits the owner's rows in ascending id order. Both are orders the source allows, since neither query has an `orderBy`. The services call these queries as the source does: `validateTitle` matches on `findByTitle`, and find and delete match on `findById`.
- `SecretService` (secret_service.dfy) is the service layer that both kinds share. It covers the per-owner duplicate-title check, encrypt-on-write, decrypt-on-read, NotFound for a missing row or an empty list, and delete behind an owner-scoped fetch. It also covers sequences of writes (`Run`) and the lemmas about them.
- `Credentials` (credentials.dfy) instantiates `F` with `Login(url, username)`. `Networks` (networks.dfy) instantiates it with `NetworkName(network)`. Each states its service's entry points in terms of its own fields. The network repository, src/repositories/network-repository/index.ts, is line for line the credential repository with another model name. So `Store` models it too: `findById` 5-11, `findByTitle` 14-20, `listAllByUserId` 23-28, `createNetwork` 31-34 and `deleteNetwork` 37-42.
- `UserRepository` and `UserService` (users_repository.dfy, users_service.dfy) model sign-up: the unique-email lookup, the duplicate-email rejection, and the hash of the password with cost factor 12.
- `Cryptography` (cryptography.dfy) holds the foreign libraries as values:
  - A `Cipher` is `encrypt(plaintext, iv)` and `decrypt(ciphertext)`, with the process-wide key already applied. The random IV is an explicit argument, so encryption is neither deterministic nor injective. The only law is `RoundTrips`: decrypting an encryption gives the plaintext back. It appears only as a lemma hypothesis, never as a precondition of an operation. `PrefixingRoundTrips` exhibits a randomised cipher that satisfies the law.
  - A `Hasher` is `hash(password, rounds, salt)`, with the random salt as an argument. Nothing is assumed about it.
- `Outcomes` (outcomes.dfy) holds the error kinds `DuplicatedTitle | NotFound | Unauthorized | DuplicatedEmail` and the result types. A service call either returns an error kind and no table, so nothing was written, or returns a new table and its result. A find or a list never returns a table, so it cannot modify one.

Three points about the code that shape the model:

- **Delete.** `deleteCredential` fetches with `findById(id, userId)`, which already filters on the owner (src/repositories/credentials-repository/index.ts:5-11, src/services/credentials-service/index.ts:47-50). The owner comparison at line 50 can therefore never fail. `SecretService.Delete` keeps that branch as written and proves it is never taken: another owner's row yields NotFound, which is what the integration tests expect (tests/integration/credentials.test.ts:245-254).
- **Cipher.** Cryptr draws a fresh IV on every call, so `encrypt` is neither deterministic nor injective, and the model assumes neither.
- **Create result.** The service returns the whole stored row, with its password encrypted; the controller trims the response to `{ id }`.

The ids are a database autoincrement. Prisma's schema is not part of this model, so the counter, starting at 1 and never reusing an id, is an assumption about the database.

## Model

| member | source | states |
|---|---|---|
| Store.FindById | src/repositories/credentials-repository/index.ts:5-11 | Returns nothing exactly when no row has both that id and that owner. Otherwise that row is the only match and is the result. |
| Store.FindByTitle | src/repositories/credentials-repository/index.ts:14-20 | Returns nothing exactly when no row of that owner has exactly that title. Otherwise it returns a stored row with that title and owner. |
| Store.ListAllByUserId | src/repositories/credentials-repository/index.ts:23-28 | Returns exactly the owner's stored rows: each element is one of them, each of them appears, and none appears twice. |
| Store.Insert | src/repositories/credentials-repository/index.ts:31-34 | Stores the given data under an id not in use and at or above the counter. Every other row is left unchanged, and the table stays valid. |
| Store.Delete | src/repositories/credentials-repository/index.ts:37-42 | Fails exactly when no row has that id. Otherwise it removes that row whoever owns it, leaves every other row and the counter unchanged, and keeps the table valid. |
| SecretService.ValidateTitle | src/services/credentials-service/index.ts:8-12 | Throws only DuplicatedTitle, and passes exactly when no row of that owner has that title, so it throws exactly when `findByTitle` finds one. |
| SecretService.Create | src/services/credentials-service/index.ts:14-26 | Fails with DuplicatedTitle exactly when the owner already has the title, and then writes nothing. Otherwise it adds exactly one fresh-id row holding the submitted fields with password `encrypt(password, iv)`, changes no other row, and keeps per-owner titles unique. |
| SecretService.Find | src/services/credentials-service/index.ts:28-35 | Fails with NotFound exactly when no row has both that id and owner, including a row of another owner. Otherwise it returns that stored row with its password decrypted. |
| SecretService.ListAll | src/services/credentials-service/index.ts:37-44 | Fails with NotFound exactly when the owner has no rows. Otherwise it returns each of the owner's rows exactly once, each with its password decrypted, and nothing else. |
| SecretService.Delete | src/services/credentials-service/index.ts:46-53 | Fails exactly when no row has that id and owner, always with NotFound: the Unauthorized branch is never taken. Otherwise it removes exactly that row, leaves every other row unchanged, and keeps per-owner titles unique. |
| SecretService.Step | src/services/credentials-service/index.ts:14-53 | Each create or delete, failed or not, keeps the table valid, never rewrites or revives a row below the counter, and preserves per-owner title uniqueness. |
| SecretService.RunKeepsEarlierRows | src/services/credentials-service/index.ts:14-53 | After any sequence of creates and deletes, a row present at the start is either gone or unchanged, and an id is never reused. |
| SecretService.RunKeepsTitlesUnique | src/services/credentials-service/index.ts:8-26 | Sequentially applied writes preserve the invariant that no owner has two rows with the same title. |
| SecretService.StoredSecretSurvives | src/services/credentials-service/index.ts:17-34 | After a create and any later writes, the owner's find of a row that is still stored returns the submitted title, fields, owner and plaintext password, given the cipher round-trip law. |
| SecretService.ForeignRowIsHidden | src/services/credentials-service/index.ts:28-50 | Another owner's row yields NotFound from both find and delete. |
| SecretService.TitleScopedPerOwner | src/services/credentials-service/index.ts:8-12 | Once a title is stored for one owner, the same owner is refused it with DuplicatedTitle. An owner who lacked it can still create it. |
| Credentials.CreateCredential | src/services/credentials-service/index.ts:14-26 | Fails with DuplicatedTitle exactly when the owner has the title, writing nothing. Otherwise it adds one fresh-id row with the title, url, username and userId unchanged and password `encrypt(password, iv)`, and touches nothing else. |
| Credentials.FindCredential | src/services/credentials-service/index.ts:28-35 | NotFound exactly when no row has both the id and the owner. Otherwise it returns the stored title, url, username, id and owner, with the password decrypted. |
| Credentials.ListAllCredentials | src/services/credentials-service/index.ts:37-44 | NotFound exactly when the user owns no credential. Otherwise it returns every credential of the user once, with every field as stored except the password, which is decrypted. |
| Credentials.DeleteCredential | src/services/credentials-service/index.ts:46-53 | NotFound, never Unauthorized, exactly when the credential is missing or not the user's. Otherwise it removes only that credential. |
| Credentials.CredentialRoundTrip | tests/integration/credentials.test.ts:64-81 | A stored credential reads back exactly as submitted, password in plaintext. Another user gets NotFound on read and on delete. |
| Networks.CreateNetwork | src/services/network-service/index.ts:14-25 | Fails with DuplicatedTitle exactly when the owner has the title, writing nothing. Otherwise it adds one fresh-id row with the title, network and userId unchanged and password `encrypt(password, iv)`, and touches nothing else. |
| Networks.FindNetwork | src/services/network-service/index.ts:27-34 | NotFound exactly when no row has both the id and the owner. Otherwise it returns the stored title, network, id and owner, with the password decrypted. |
| Networks.ListAllNetworks | src/services/network-service/index.ts:36-43 | NotFound exactly when the user owns no network. Otherwise it returns every network of the user once, with every field as stored except the password, which is decrypted. |
| Networks.DeleteNetwork | src/services/network-service/index.ts:45-52 | NotFound, never Unauthorized (the check at line 49 is dead), exactly when the network is missing or not the user's. Otherwise it removes only that network. |
| Networks.NetworkRoundTrip | tests/integration/network.test.ts:64-80 | A stored network reads back exactly as submitted, password in plaintext. Another user gets NotFound on read and on delete. |
| UserRepository.FindByEmail | src/repositories/users-repository/index.ts:4-10 | Returns nothing exactly when no user has that email. Otherwise it returns the one user with exactly that email. |
| UserRepository.CreateUser | src/repositories/users-repository/index.ts:12-16 | Adds one user with a fresh id carrying the given email and password, and modifies no other user. |
| UserRepository.CreatedUserIsFound | src/repositories/users-repository/index.ts:4-16 | After creating a user whose email is not yet taken, emails stay unique and `findByEmail` returns that user. |
| UserService.ValidateEmail | src/services/users-service/index.ts:9-12 | Throws only DuplicatedEmail, and passes exactly when no user has the email, so it throws exactly when `findByEmail` finds one. |
| UserService.CreateUser | src/services/users-service/index.ts:14-19 | Fails with DuplicatedEmail exactly when the email is taken, writing nothing. Otherwise it stores the email unchanged and the password as `hash(password, 12, salt)`, adds one user under a fresh id, and keeps emails unique. |
| UserService.EmailCheckComesFirst | src/services/users-service/index.ts:14-18 | When the email check throws, the outcome does not depend on the password, the hash function or the salt, so neither hashing nor a write took part. |
| UserService.SignedUpUserIsFound | src/services/users-service/index.ts:14-18 | After a successful sign-up, a lookup by that email returns the new user. |

## Left out

- Authentication (sessions, JWT signing and the authentication middleware) is not modelled; every operation takes the caller's user id as already authenticated.
- Controllers and routers are HTTP plumbing and are not modelled. Two defects there are outside the model. The network delete handler calls the credential service's delete (src/controllers/network-controller/index.ts:52). The credentials router attaches no authentication middleware and exports nothing.
- Joi request schemas are external validation and are not modelled. The empty-field and minimum-length checks they perform are not modelled either.
- Cryptr and bcrypt internals are foreign libraries. They appear only as the abstract `Cipher` and `Hasher`. Nothing is claimed about a hash beyond how it is computed: not one-wayness, and not that it differs from the plaintext.
- The check-then-act race between `validateTitle` and the insert is a concurrency concern. Every operation is modelled as one atomic sequential step.
- Database errors other than Prisma's delete of a missing row are not modelled: connection failures and unique-constraint violations raised by the database. The service's delete never reaches the missing-row case.
- Decrypt failures are not modelled. Cryptr's `decrypt` throws on a string it did not produce under the current key (its AES-GCM authentication check fails), and `findCredential`/`listAllCredentials` (src/services/credentials-service/index.ts:33, 42) and their network counterparts would then throw. The model's `decrypt` is total, so for a row stored outside the service or under an earlier key, `SecretService.Find` and `SecretService.ListAll` return a decrypted value where the source throws. Every row written by the service decrypts, and `StoredSecretSurvives` is stated for such rows.
- UserRepository.CreateUser: inserting an email that is already taken makes the database raise a unique-constraint error (email is the unique key `findUnique` relies on at src/repositories/users-repository/index.ts:5). The model inserts a second user instead and does not promise `EmailsUnique` afterwards. The service never reaches this case: `UserService.CreateUser` checks the email first and proves emails stay unique.
- Store.FindByTitle: the source leaves the choice among matching rows unspecified, and the model returns the lowest id. Its contract promises only some matching row. Only the presence of a match is used by the services.
- Store.ListAllByUserId: the order of the rows is unspecified in the source. The model emits ascending ids, but the contract states only membership and distinctness.
