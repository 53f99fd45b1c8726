# Movie API server — a Dafny model

This project models the core of a small FastAPI/SQLAlchemy service. The service keeps a
`movies` table and an `api_keys` table in SQLite and offers:

- movie endpoints: create, list, get, update and delete;
- key endpoints: issue, get by id, get by domain, delete and update.

Each write on a movie needs an `Authorization` header that holds a stored public key.

The model has these layers:

- **Tables** (`table.dfy`, `store.dfy`).
  - A table is a sequence of rows in rowid order, and its ids are strictly ascending.
  - A new row gets SQLite's `INTEGER PRIMARY KEY` id: one more than the largest id, or 1 in an empty table.
  - `query.filter(p).first()` is the first row satisfying `p`.
  - `offset/limit` is a window of the sequence.
  - `session.merge` replaces the row with the same id, or inserts the row in key order.
  - `Store.Db` is the session: a class whose two sequence fields the repository methods reassign.
- **Models** (`movie_model.dfy`, `api_key_model.dfy`).
  - A movie title is not unique.
  - A key's `secret`, `public` and `domain` columns are each unique. A write that would break this is the `IntegrityError` of the commit, and it leaves the table unchanged.
- **Repositories** (`movie_repository.dfy`, `api_key_repository.dfy`). Queries are functions over the table sequences; `create`, `delete` and `update` are methods on the session. Two points follow the code:
  - The two-column filters join their conditions with Python's `and`. That hands the ORM only the first condition, so `fetch_by_title_and_subtitle` compares the title only, and `fetch_by_public_domain` compares the public key only.
  - The key generators take their random draws as parameters:
    - the secret key is 50 choices from `a-z0-9`;
    - the public key is the RFC 4648 section 4 Base 64 encoding of 50 random bytes, with `+` and `/` replaced by two characters drawn from `a-zA-Z0-9`.
- **Base 64** (`base64.dfy`): the encoder of section 4 of RFC 4648, with its decoder and the round trip between them.
- **Handlers** (`endpoints.dfy`).
  - Each handler is one atomic step over the session. It returns a status and a body.
  - An `HTTPException` becomes its status and detail.
  - Any other exception becomes the 400 of the catch-all handler (`main.py:47-50`).

The handlers follow the code as written:

- **`create_movie`** looks up the header minus its first seven characters. All other guarded handlers look up the header as it is. `Bearer <key>` therefore works for `create_movie` only, and generated keys never contain a space.
- **`get_all_movies`** with a title that matches nothing builds the list `[None]`. That list fails response validation, so the answer is a 400. An empty title lists the first 50 movies.
- **`delete_key`** passes the domain to a delete keyed on the id.
  - In this model, a domain that is not a decimal numeral within the 64-bit range matches no id (SQLite's affinity is narrowed to that rule; see "## Left out"). Deleting `None` then raises, and the answer is a 400.
  - A numeral domain deletes the key whose id it spells, if there is one, and is a 400 otherwise.
- **`get_movie`, `delete_movie`, `update_movie` and `get_key`** take an `int` path parameter of any size. The sqlite3 driver cannot bind an int outside the signed 64-bit range, so the lookup raises and the answer is the catch-all 400.
- **`update_key`**:
  - an unknown domain is a 400 with its own message;
  - a known one reads the keys `title` and `subtitle` of an encoded key payload, which has neither. The `KeyError` is a 400.
  - The store is never written.
- **`create_api_key`** loops while both the secret key and the public key are taken. It stops as soon as one of them is new, so the other may still be taken. In that case the insert violates a unique constraint and the answer is a 400.

## Model

| member | source | states |
|---|---|---|
| Table.FindFirst | sql_app/repositories/movie_repository.py:22-23 | the index returned satisfies the filter and no earlier row does; None exactly when no row satisfies it |
| Table.First | sql_app/repositories/movie_repository.py:26-27 | `filter().first()`: None iff no row matches, otherwise the first matching row in table order |
| Table.IsInteger | sql_app/repositories/movie_repository.py:23 | a Python int can be bound as a query parameter iff it lies in SQLite's signed 64-bit range, -2^63 to 2^63-1 (the same bind is made at sql_app/repositories/api_key_repository.py:26) |
| Table.Window | sql_app/repositories/movie_repository.py:34-35 | `offset(skip).limit(limit)`: at most `limit` rows, exactly `max(0, min(limit, n - skip))` of them, the k-th being row `skip + k` |
| Table.NextId | sql_app/models/movie_model.py:8 | the id SQLite assigns is larger than every stored id, is 1 in an empty table and otherwise one more than a stored id |
| Table.AppendNextId | sql_app/models/movie_model.py:8 | appending a row under the next id keeps the ids ascending |
| Table.Without | sql_app/repositories/movie_repository.py:38-41 | a delete by id never lengthens the table |
| Table.RemoveAtAscending | sql_app/repositories/movie_repository.py:38-41 | removing one row keeps the ids ascending |
| Table.WithoutMembers | sql_app/repositories/movie_repository.py:38-41 | the rows left after a delete by id are exactly the stored rows with another id |
| Table.WithoutAbsent | sql_app/repositories/movie_repository.py:38-41 | deleting an id no row has leaves the table as it was |
| Table.RemoveAtIsWithout | sql_app/repositories/movie_repository.py:38-41 | removing the row at a position is the delete of its id, and it drops exactly one row |
| Table.InsertById | sql_app/repositories/movie_repository.py:44-47 | a row merged under a new id makes the table one row longer |
| Table.InsertByIdMembers | sql_app/repositories/movie_repository.py:44-47 | a row merged under a new id adds exactly that row to the table's rows |
| Table.InsertByIdSplits | sql_app/repositories/movie_repository.py:44-47 | the merged row lands at one position and the other rows keep their order |
| Table.InsertByIdAscending | sql_app/repositories/movie_repository.py:44-47 | inserting under an unused id keeps the ids ascending |
| Table.Merge | sql_app/repositories/movie_repository.py:44-47 | `merge` keeps the row count when the id is stored, adds one row when it is not, and the merged row is in the table afterwards |
| Table.MergeExisting | sql_app/repositories/movie_repository.py:44-47 | merging a row whose id is stored overwrites that row in place and keeps the ids ascending |
| Table.MergeAbsent | sql_app/repositories/movie_repository.py:44-47 | merging a row with an unused id inserts it in key order and keeps the ids ascending |
| Table.PyAndKeepsFirst | sql_app/repositories/movie_repository.py:30-31 | Python's `and` on two ORM clauses leaves the filter with the first clause only |
| MovieModel.TableValid | sql_app/models/movie_model.py:8-9 | a valid movies table has a unique primary key |
| MovieModel.DuplicateTitlesAllowed | sql_app/models/movie_model.py:8-9 | two rows with the same title are a valid table: the title column is not unique |
| ApiKeyModel.TableValid | sql_app/models/api_key_model.py:12-15 | a valid key table has a unique primary key (and, by its definition, unique secret, public and domain) |
| ApiKeyModel.Collides | sql_app/models/api_key_model.py:13-15 | a row that collides breaks a unique column: appending it makes the table invalid |
| ApiKeyModel.AppendKeepsValid | sql_app/models/api_key_model.py:12-15 | appending a non-colliding row under the next id keeps ids ascending and secret, public and domain unique |
| ApiKeyModel.ReplaceKeepsValid | sql_app/models/api_key_model.py:12-15 | overwriting a row with a non-colliding row of the same id keeps the table valid |
| ApiKeyModel.InsertKeepsValid | sql_app/models/api_key_model.py:12-15 | inserting a non-colliding row under an unused id keeps the table valid |
| ApiKeyModel.RemoveKeepsValid | sql_app/models/api_key_model.py:12-15 | removing a row keeps the table valid |
| Store.Db.Valid | main.py:33-34 | the session's two tables satisfy their column constraints, so both primary keys are unique |
| Store.Db.constructor | main.py:33-34 | `create_all` on a fresh database file: both tables exist, empty and valid |
| MovieRepository.FetchMovieById | sql_app/repositories/movie_repository.py:22-23 | None iff no movie has the id; otherwise a stored movie with that id |
| MovieRepository.FetchByTitle | sql_app/repositories/movie_repository.py:26-27 | None iff no movie has the title; otherwise the first movie in table order with that title |
| MovieRepository.FetchByTitleAndSubtitle | sql_app/repositories/movie_repository.py:30-31 | the same result as the title lookup: None iff no title matches, otherwise the first title match |
| MovieRepository.TitleAndSubtitleIsTitle | sql_app/repositories/movie_repository.py:30-31 | for every table, title and subtitle, the lookup equals `fetch_by_title` |
| MovieRepository.SubtitleIgnored | sql_app/repositories/movie_repository.py:30-31 | a movie with the same title and a different subtitle is still found |
| MovieRepository.FetchAll | sql_app/repositories/movie_repository.py:34-35 | at most `limit` movies, exactly `min(limit, n - skip)` of them, a prefix of the table from `skip` on; none past the end |
| MovieRepository.Create | sql_app/repositories/movie_repository.py:9-19 | exactly one row is appended, its fields copied from the request, under an id above every stored id; the table stays valid |
| MovieRepository.Delete | sql_app/repositories/movie_repository.py:38-41 | succeeds iff a movie has the id, and then removes exactly the rows with that id (one row); otherwise raises and changes nothing |
| MovieRepository.Update | sql_app/repositories/movie_repository.py:44-47 | the row with the same id is overwritten in place; an unknown id is inserted in key order; the table stays valid |
| ApiKeyRepository.FetchApiKeyById | sql_app/repositories/api_key_repository.py:25-26 | None iff no key has the id; otherwise a stored key with that id |
| ApiKeyRepository.FetchBySecret | sql_app/repositories/api_key_repository.py:29-30 | None iff no key has the secret; otherwise a stored key with that secret |
| ApiKeyRepository.FetchByPublic | sql_app/repositories/api_key_repository.py:33-34 | None iff no key has the public key; otherwise a stored key with that public key |
| ApiKeyRepository.FetchByDomain | sql_app/repositories/api_key_repository.py:37-38 | None iff no key has the domain; otherwise a stored key with that domain |
| ApiKeyRepository.FetchByPublicDomain | sql_app/repositories/api_key_repository.py:41-42 | the result depends on the public key alone: None iff no key has it |
| ApiKeyRepository.PublicDomainIsPublic | sql_app/repositories/api_key_repository.py:41-42 | for every table, the public-and-domain lookup equals the public lookup |
| ApiKeyRepository.DomainIgnored | sql_app/repositories/api_key_repository.py:41-42 | a key is found by its public key whatever domain is asked for |
| ApiKeyRepository.Create | sql_app/repositories/api_key_repository.py:13-22 | inserts iff both keys are given and secret, public and domain are all unused; the row is appended under a fresh id with the request's fields; otherwise the commit fails and nothing changes |
| ApiKeyRepository.Delete | sql_app/repositories/api_key_repository.py:45-48 | succeeds iff the value converts to an integer that is a stored id, and then removes that id's row; otherwise raises and changes nothing |
| ApiKeyRepository.AsInteger | sql_app/repositories/api_key_repository.py:46 | a text compared with the integer id stands for a number only when it is a run of decimal digits within SQLite's 64-bit range (a narrowing of SQLite's affinity, see "## Left out") |
| ApiKeyRepository.NumeralSelectsId | sql_app/repositories/api_key_repository.py:46 | the decimal numeral of any id in range stands for exactly that id |
| ApiKeyRepository.DomainNamesMatchNoId | sql_app/repositories/api_key_repository.py:45-48 | under the narrowed affinity rule, a text with a non-digit character never selects a row by id |
| ApiKeyRepository.Update | sql_app/repositories/api_key_repository.py:51-54 | fails, changing nothing, iff the row would share a secret, public key or domain with another row; otherwise overwrites the same-id row or inserts it in key order |
| ApiKeyRepository.SecretChar | sql_app/repositories/api_key_repository.py:64-66 | each choice from `ascii_lowercase + digits` is a lowercase letter or a digit |
| ApiKeyRepository.GenerateSecretKey | sql_app/repositories/api_key_repository.py:64-66 | the key has `length` characters (their alphabet is stated by `SecretKeysAreLowercaseAlphanumeric`) |
| ApiKeyRepository.SecretKeysAreLowercaseAlphanumeric | sql_app/repositories/api_key_repository.py:64-66 | a string is a possible secret key iff every character is a lowercase letter or digit |
| ApiKeyRepository.LetterOrDigit | sql_app/repositories/api_key_repository.py:58-59 | each choice from `ascii_letters + digits` is alphanumeric |
| ApiKeyRepository.AltChar | sql_app/repositories/api_key_repository.py:59 | the alternate character chosen by a random byte modulo 62 is alphanumeric |
| ApiKeyRepository.Translate | sql_app/repositories/api_key_repository.py:60 | the substitution of the two alternate characters keeps the length |
| ApiKeyRepository.GeneratePublicKey | sql_app/repositories/api_key_repository.py:57-61 | the key has `4*ceil(length/3)` characters |
| ApiKeyRepository.PublicKeyShape | sql_app/repositories/api_key_repository.py:57-61 | the key is alphanumeric characters followed by exactly the `=` padding of `length` bytes |
| ApiKeyRepository.DefaultPublicKeyShape | sql_app/repositories/api_key_repository.py:57-61 | at the default length the key has 68 characters: 67 alphanumeric ones and a final `=` |
| ApiKeyRepository.PublicKeyDecodes | sql_app/repositories/api_key_repository.py:60 | when the encoding holds no `+` or `/`, decoding the public key gives back the random bytes |
| ApiKeyRepository.PublicKeyNotInjective | sql_app/repositories/api_key_repository.py:59-60 | two different byte strings can give the same public key, because an alternate character can equal an alphabet character |
| Base64.Char | sql_app/repositories/api_key_repository.py:60 | values 0-61 map to alphanumerics, 62 to `+` and 63 to `/` |
| Base64.Encode | sql_app/repositories/api_key_repository.py:60 | `b64encode` yields 4 characters per started group of 3 bytes |
| Base64.EncodeShape | sql_app/repositories/api_key_repository.py:60 | an encoding is alphabet characters followed by exactly the padding the length calls for |
| Base64.RoundTrip | sql_app/repositories/api_key_repository.py:60 | decoding an encoding gives back the bytes |
| Endpoints.ValidatePublicKey | main.py:38-44 | a header passes iff it is present and non-empty, and then unchanged |
| Endpoints.DropPrefix | main.py:79 | `api_key[7:]`: the characters from position 7 on, empty for a shorter header |
| Endpoints.CreateAuthorized | main.py:79-80 | `create_movie`'s check passes iff the header is present, non-empty, and some stored public key equals it minus its first 7 characters |
| Endpoints.RawAuthorized | main.py:124-125 | the other guarded handlers' check passes iff the header is present, non-empty and equal to some stored public key |
| Endpoints.BearerHeaderAuthorizesCreate | main.py:79-80 | `create_movie` accepts `Bearer <k>` iff `k` is a stored public key |
| Endpoints.BearerHeaderFailsRawCheck | main.py:124-125 | the other guarded handlers reject `Bearer <k>` whenever no stored public key holds a space |
| Endpoints.GeneratedPublicKeyHasNoSpace | sql_app/repositories/api_key_repository.py:57-61 | no generated public key holds a space |
| Endpoints.CreateMovie | main.py:70-89 | 403 without a header or with a header whose suffix is no stored key; 400 when the title is taken; otherwise 201 and exactly the new movie appended |
| Endpoints.MovieListResponse | main.py:92-101 | a list validates (200) iff it holds no None, and the body is its movies in order; otherwise 400 |
| Endpoints.GetAllMovies | main.py:92-103 | a non-empty title gives `[first match]` or 400 when none; no title gives the first 50 movies |
| Endpoints.GetMovie | main.py:106-114 | the catch-all 400 iff the id is outside the 64-bit range; 404 iff it is in range and no movie has it; otherwise 200 with the stored movie of that id |
| Endpoints.DeleteMovie | main.py:117-135 | 403 without credentials, the catch-all for an id outside the 64-bit range, 404 for an unknown id, the table unchanged; 200 iff authorized, in range and found, removing exactly that movie |
| Endpoints.UpdateMovie | main.py:138-161 | 403 without credentials, the catch-all for an id outside the 64-bit range, 400 for an unknown id, unchanged; 200 iff authorized, in range and found, overwriting that row in place with the request's fields under the same id |
| Endpoints.EndsLoop | main.py:177-187 | with no stored keys every attempt ends the loop |
| Endpoints.EndsLoopMeans | main.py:177-187 | an attempt ends the loop iff no stored key has its secret or no stored key has its public key |
| Endpoints.GenerateKeyPair | main.py:177-187 | the loop stops at the first attempt whose secret or public key is unused and returns that attempt's keys |
| Endpoints.CreateApiKey | main.py:164-190 | 400 "Domain already exists!" for a registered domain; otherwise 201 iff both keys of the first ending attempt are unused, appending exactly that key, and the catch-all 400 with nothing changed when one is taken |
| Endpoints.GetKey | main.py:193-209 | 403 without credentials; the catch-all for an id outside the 64-bit range; otherwise 404 or 200 with the stored key of that id |
| Endpoints.GetKeyUsingDomain | main.py:212-228 | 403 without credentials; 404 or 200 with the secret, public key and domain of that domain's key |
| Endpoints.DeleteKey | main.py:231-248 | 403 without credentials, 404 for an unknown domain, unchanged; 200 iff authorized, the domain is registered and, under the narrowed affinity rule, it stands for a stored id, removing exactly that id's row; every other case is the catch-all 400 with nothing deleted |
| Endpoints.EncodeApiKeyPayload | main.py:258-260 | an encoded key payload has exactly the fields id, secret, public and domain, so neither `title` nor `subtitle` |
| Endpoints.Lookup | main.py:259-260 | `d[key]` succeeds iff the key is present, and then gives the value stored under it |
| Endpoints.UpdateKey | main.py:251-263 | always 400: the not-found detail for an unknown domain, the catch-all for a known one; the store is never written |

## Left out

- The FastAPI plumbing is not modelled: routing, dependency injection, CORS, the `home` route and the RSS/Atom feeds. Path parameters arrive already typed.
- Route order is not modelled. `GET /keys/{key_id}` is declared before `GET /keys/{domain}`, so a router would send every `GET /keys/<x>` to `get_key`. `Endpoints.GetKeyUsingDomain` models the handler as if it were reached.
- Endpoints.UpdateKey: takes the domain as a string; the `int` path parameter, its coercion by SQLite and the failed bind of an int outside the 64-bit range are not modelled. Every outcome is a 400 either way.
- ApiKeyRepository.AsInteger, ApiKeyRepository.DomainNamesMatchNoId, ApiKeyRepository.Delete, Endpoints.DeleteKey: SQLite's affinity is reduced to this rule: a text converts to an integer exactly when it is a non-empty run of decimal digits whose value fits in 64 bits. SQLite also converts texts such as `+5`, ` 5`, `5.0` and `5e0` to 5, so a registered domain `5.0` deletes key 5 in SQLite (a 200) but is the catch-all 400 in the model.
- Table.NextId: ids are unbounded integers. When the largest stored id is 2^63-1, SQLite picks an unused rowid at random (or fails when there is none); the model keeps counting up instead.
- The app is built with `debug=True`. How the framework orders its debug error page and the `Exception` handler is framework code that is not part of this model; every unexpected exception is modelled as the catch-all handler's 400.
- Endpoints.GenerateKeyPair: requires that one of the supplied attempts ends the loop. The code draws from the random sources until one does; with a source that never yields a new key it does not terminate.
- Randomness and the operating system's random bytes are parameters: the choices of `random.choice` and the bytes of `os.urandom`.
- The encryption of the secret and public columns is not modelled. Keys are compared as plain strings, as the deterministic column encryption allows.
- `price` is a real number, not a rounded float. The `String(n)` length limits are not checked.
- The messages of the catch-all handler are not modelled. Its body is `ExecutionFailed`, and other error details are the literal texts of the code.
- Concurrency is not modelled. Each request is one atomic step, so there are no races between the uniqueness checks and the insert.
- The repository methods are `async` only in name: they await nothing before the commit.
