# Movies and plants API: a verified model of its routes, schemas and key login

The repository is a FastAPI service over a MySQL database, accessed through the
Peewee ORM. It has CRUD routes for movies, genres and people (with a
`movie_person` link table holding each movie's cast) and for plants and plant
types. Pydantic schemas validate request bodies. A small helper issues API keys
after a user-name/password login and checks the `x-api-key` header.

This project models that core in Dafny:

- `store.dfy` (`Store`): one ORM table as rows keyed by an AUTO_INCREMENT
  primary key. `create`, `get`, `save` and `delete().where(id == …)` are
  functions on it. The counter only grows, so an id is never reused.
- `database.dfy` (`Database`): the stored row of each table, the column widths
  and the foreign keys.
- `movie_schema.dfy`, `person_schema.dfy`, `plant_schema.dfy`,
  `genre_schema.dfy`, `plant_type_schema.dfy`: the request bodies and their field
  bounds and validators, as functions returning `Accepted(value)` or `Rejected`.
- `movie_routes.dfy` (`MovieRoutes`): the class `FilmDb` holds the movie, genre
  and person tables and the link table. The link table is a sequence of rows in
  insertion order. Each route is a method of the class. A rejected body
  (`Invalid`, a 422) takes precedence over a missing id (`NotFound`, a 404),
  because validation runs before the handler.
- `plant_routes.dfy` (`PlantRoutes`): the class `PlantDb` with the plant and
  plant-type routes.
- `api_key_auth.dfy` (`ApiKeyAuth`):
  - the `.env` rewrite of `generar_api_key`, as a function on text;
  - the header check `get_api_key`;
  - the login state machine `validar_usuario`, as the class `Session` over the two
    module globals.

Behaviour of the source that the contracts make explicit:

- Casts are not de-duplicated. `update_movie` replaces a cast by deleting the old
  link rows and appending new ones.
- Deleting a movie, genre or person leaves every row that refers to it as it is.
  `delete_movie` does not remove the movie's link rows.
- `read_movies` fails as a whole (a 500) when some movie's director or genre row
  is missing. `read_movie` turns the same failure into a 404.
- While a session is active, `validar_usuario` returns `True` to every caller,
  whatever credentials are passed.
- With no `API_KEY` configured, `get_api_key` lets through a request whose
  `x-api-key` header is missing or empty, since the header extractor turns both
  into `None` and `None == None`.
- `generar_api_key` rewrites the `.env` file but not the process environment.
  The header check reads the environment, so the two are independent inputs
  here: `GetApiKey` takes the configured key as a parameter.

The code does not de-duplicate cast ids, does not cascade deletes and does not
replace a cast atomically; the model follows the code:

- Cast ids are kept with duplicates. The link select has no ORDER BY; the model
  reads the rows back in insertion order (see "## Left out").
- There is no cascade on delete.
- The cast replacement is not atomic with the row update.

The route modules import `Movie`, `Person`, `Plant` and `PlantType`, but the
schema modules define those classes as `MovieModel`, `PersonModel`,
`PlantModel` and `PlantTypeModel` (only `Genre` is defined under the imported
name). The model treats each schema class as the validator its route names.

## Model

| member | source | states |
|---|---|---|
| Store.Table.Insert | FastApi/app/routes/movie_routes.py:24-31 | `create` stores the row under the current counter value. That id was not in use and is above every stored id. Only that row is added, the counter moves past it, and the table stays well formed. |
| Store.Table.Get | FastApi/app/routes/movie_routes.py:65 | `get` returns a row exactly when the id is stored, and the result is the stored row. Otherwise it is `None`, where the ORM raises `DoesNotExist`. |
| Store.Table.Save | FastApi/app/routes/movie_routes.py:101 | `save` on a row that was read first overwrites that row only. The set of ids and the counter are unchanged. |
| Store.Table.DeleteWhere | FastApi/app/routes/movie_routes.py:109 | `delete().where(id == …)` removes exactly that id and reports 1 row deleted if it was stored, 0 otherwise. The counter is unchanged. |
| Store.EmptyTable | FastApi/app/database.py:31 | A new table is empty and well formed, with the counter at 1, so its first insert gets id 1. |
| Store.InsertIdsIncrease | FastApi/app/database.py:31 | Consecutive inserts receive strictly increasing ids. |
| Store.CreateThenGetThenDelete | FastApi/app/database.py:31 | A row read back after `create` is the stored row. After deleting it the id reads as absent, and a later insert does not reuse the id. |
| MovieSchema.ValidReleaseYear | FastApi/app/schemas/movie_schema.py:15-20 | The validator accepts exactly the years from 1888 on and returns the year unchanged. |
| MovieSchema.DurationField | FastApi/app/schemas/movie_schema.py:11 | `gt=0` accepts exactly the positive durations and returns the value unchanged. |
| MovieSchema.Validate | FastApi/app/schemas/movie_schema.py:5-20 | A movie body is accepted iff its duration is positive and its year is at least 1888. An accepted body is returned unchanged. |
| MovieSchema.Boundaries | FastApi/app/schemas/movie_schema.py:11-20 | 1887 and a zero duration are refused; 1888 and a duration of 1 pass. |
| PersonSchema.AgeField | FastApi/app/schemas/person_schema.py:9 | `gt=0, le=100` accepts exactly ages 1 to 100 and returns the age unchanged. |
| PersonSchema.AgeMustBePositive | FastApi/app/schemas/person_schema.py:11-16 | The validator refuses exactly the negative ages. |
| PersonSchema.Validate | FastApi/app/schemas/person_schema.py:5-16 | A person body is accepted iff 0 < age <= 100, and is then returned unchanged. |
| PersonSchema.ValidatorAddsNothing | FastApi/app/schemas/person_schema.py:9-16 | The validator never refuses an age that the field bound accepted. |
| PersonSchema.AgeBoundaries | FastApi/app/schemas/person_schema.py:9 | 0 and 101 are refused; 1 and 100 pass. |
| PlantSchema.TemperatureField | FastApi/app/schemas/plant_schema.py:11 | `gt=0` accepts exactly the positive temperatures and returns the value unchanged. |
| PlantSchema.TemperatureMustBePositive | FastApi/app/schemas/plant_schema.py:13-29 | The validator accepts exactly the positive temperatures and returns the value unchanged. |
| PlantSchema.Validate | FastApi/app/schemas/plant_schema.py:4-29 | A plant body is accepted iff its temperature is positive, and is then returned unchanged. |
| PlantSchema.TemperatureBoundaries | FastApi/app/schemas/plant_schema.py:11-29 | 0 is refused and 0.10 passes. The validator agrees with the field bound on every value. |
| MovieRoutes.CastOf | FastApi/app/routes/movie_routes.py:44-48 | No `ensures` of its own: the person-id select of a movie's link rows, in row order (also lines 66-70). Its properties are stated by `CastOfAppend`, `CastOfLinksFor`, `CastOfWithoutMovie`, `CastOfUnlinked` and `ReplaceCast`. |
| MovieRoutes.LinksFor | FastApi/app/routes/movie_routes.py:32-36 | No `ensures` of its own: the rows the `create` loop appends, one per cast entry. `CastOfLinksFor` states that they read back as exactly the cast. |
| MovieRoutes.WithoutMovie | FastApi/app/routes/movie_routes.py:95 | Deleting a movie's link rows leaves only rows of other movies, each taken from the original table. |
| MovieRoutes.CastOfAppend | FastApi/app/routes/movie_routes.py:44-48 | The cast selected from rows appended after others is the old cast followed by the new one. |
| MovieRoutes.CastOfLinksFor | FastApi/app/routes/movie_routes.py:32-36 | The link rows created for a cast list read back as exactly that list, in order and with duplicates. They give nothing for any other movie. |
| MovieRoutes.CastOfWithoutMovie | FastApi/app/routes/movie_routes.py:95 | After the link delete, the movie's cast is empty and every other movie's cast is unchanged. |
| MovieRoutes.CastOfUnlinked | FastApi/app/routes/movie_routes.py:66-70 | A movie that no link row names has an empty cast. |
| MovieRoutes.ReplaceCast | FastApi/app/routes/movie_routes.py:95-100 | After delete-then-append, the movie's cast is the new list and all other casts are unchanged. |
| MovieRoutes.DuplicatesKept | FastApi/app/routes/movie_routes.py:32-36 | A cast `[3, 7, 7, 9]` reads back as `[3, 7, 7, 9]`: duplicates are not collapsed. |
| MovieRoutes.BodyIdIgnored | FastApi/app/routes/movie_routes.py:24-31 | Two bodies store the same row exactly when they differ at most in `id` and `cast`. |
| MovieRoutes.SchemaAdmitsOverlongTitle | FastApi/app/database.py:79 | The schema accepts a valid body whose title is longer than the 100-character column. |
| MovieRoutes.SchemaAdmitsOversizeYear | FastApi/app/database.py:81 | The schema bounds the release year only from below, so it accepts a year of 2^31 or more, which the 32-bit INT column cannot store. |
| MovieRoutes.AcceptedPersonColumns | FastApi/app/database.py:67-69 | For a person body the schema accepts, the row fits its columns iff the name fits CHAR(100) and the role fits CHAR(50): the age bound keeps every accepted age inside the INT column. |
| MovieRoutes.SchemaAdmitsOverlongName | FastApi/app/database.py:67 | The person schema accepts a body with a valid age and a name over 100 characters, and that row does not fit the `name` column. |
| MovieRoutes.FilmDb.Resolves | FastApi/app/routes/movie_routes.py:52-55 | No `ensures` of its own: the lazy loads `movie.director.id` and `movie.genre.id` (also lines 74-77) succeed iff both referenced rows are stored. `ReadMovies`, `ReadMovie`, `DeleteGenre` and `DeletePerson` state what follows from it. |
| MovieRoutes.FilmDb.CreateMovie | FastApi/app/routes/movie_routes.py:21-37 | Invalid iff the body fails validation, and then nothing changes. Otherwise the movie is stored under the next id, the counter moves one past it, and one link row per cast entry is appended. That movie's cast reads back as the body's cast, other casts are unchanged, and the invariant is kept. |
| MovieRoutes.FilmDb.ReadMovies | FastApi/app/routes/movie_routes.py:39-59 | The route fails (500) iff some stored movie has a director or genre that cannot be loaded. Otherwise it lists every stored movie exactly once, in ascending id order, each with its stored fields and cast. Every entry passes the schema. |
| MovieRoutes.FilmDb.ReadMovie | FastApi/app/routes/movie_routes.py:61-82 | The movie is returned iff it is stored and its director and genre load; otherwise 404. The result carries the stored fields and the movie's cast, and passes the schema. |
| MovieRoutes.FilmDb.UpdateMovie | FastApi/app/routes/movie_routes.py:84-104 | Invalid iff validation fails; NotFound iff the body is valid and the id is absent; nothing changes in either case. Otherwise the row's six fields are overwritten and the cast is replaced. Other casts, the set of ids and the counter are unchanged. |
| MovieRoutes.FilmDb.DeleteMovie | FastApi/app/routes/movie_routes.py:106-112 | NotFound iff the id was absent. The movie row is removed; the link rows and other tables are untouched. |
| MovieRoutes.FilmDb.CreateGenre | FastApi/app/routes/movie_routes.py:115-119 | The genre is stored under the next id and the counter moves one past it; nothing else changes. |
| MovieRoutes.FilmDb.ReadGenres | FastApi/app/routes/movie_routes.py:121-125 | Every stored genre, and only those, with its id and name. |
| MovieRoutes.FilmDb.ReadGenre | FastApi/app/routes/movie_routes.py:127-134 | The genre is returned iff it is stored; otherwise 404. |
| MovieRoutes.FilmDb.UpdateGenre | FastApi/app/routes/movie_routes.py:136-145 | NotFound iff the id is absent, and then nothing changes. Otherwise only that genre's name is replaced. |
| MovieRoutes.FilmDb.DeleteGenre | FastApi/app/routes/movie_routes.py:147-153 | NotFound iff the id was absent. Only the genre row is removed; movies naming it are unchanged and no longer resolve, so reading them fails. |
| MovieRoutes.FilmDb.CreatePerson | FastApi/app/routes/movie_routes.py:156-164 | Invalid iff the age bound fails, and then nothing changes. Otherwise the person is stored under the next id and the counter moves one past it. |
| MovieRoutes.FilmDb.ReadPeople | FastApi/app/routes/movie_routes.py:166-170 | Every stored person, and only those, with their fields. Each passes the schema. |
| MovieRoutes.FilmDb.ReadPerson | FastApi/app/routes/movie_routes.py:172-179 | The person is returned iff they are stored; otherwise 404. |
| MovieRoutes.FilmDb.UpdatePerson | FastApi/app/routes/movie_routes.py:181-192 | Invalid iff validation fails; NotFound iff the body is valid and the id is absent. Otherwise name, age and role are replaced in that row only. |
| MovieRoutes.FilmDb.DeletePerson | FastApi/app/routes/movie_routes.py:194-200 | NotFound iff the id was absent. Only the person row is removed; movies and link rows naming them are unchanged, and movies they directed no longer resolve. |
| PlantRoutes.StoredFieldsRoundTrip | FastApi/app/routes/plant_routes.py:14-21 | A stored plant read back is the body that was sent, with the id the table chose. |
| PlantRoutes.SchemaAdmitsOversizeTemperature | FastApi/app/database.py:46 | The schema accepts a body iff its stored temperature is positive. It accepts values too large for the DECIMAL(5,2) column. |
| PlantRoutes.PlantDb.CreatePlant | FastApi/app/routes/plant_routes.py:11-22 | Invalid iff the temperature bound fails, and then nothing changes. Otherwise the plant is stored under the next id and the counter moves one past it. |
| PlantRoutes.PlantDb.ReadAllPlants | FastApi/app/routes/plant_routes.py:25-29 | Every stored plant, and only those, with its fields. Each passes the schema. |
| PlantRoutes.PlantDb.ReadPlant | FastApi/app/routes/plant_routes.py:32-39 | The plant is returned iff it is stored; otherwise 404. |
| PlantRoutes.PlantDb.UpdatePlant | FastApi/app/routes/plant_routes.py:42-56 | Invalid iff validation fails; NotFound iff the body is valid and the id is absent. Otherwise the six fields are replaced in that row only. |
| PlantRoutes.PlantDb.DeletePlant | FastApi/app/routes/plant_routes.py:59-65 | NotFound iff the id was absent. Exactly that row is removed. |
| PlantRoutes.PlantDb.CreatePlantType | FastApi/app/routes/plant_routes.py:68-74 | The plant type is stored under the next id and the counter moves one past it; plants are untouched. |
| PlantRoutes.PlantDb.ReadAllPlantTypes | FastApi/app/routes/plant_routes.py:77-81 | Every stored plant type, and only those. |
| PlantRoutes.PlantDb.ReadPlantType | FastApi/app/routes/plant_routes.py:84-91 | The plant type is returned iff it is stored; otherwise 404. |
| PlantRoutes.PlantDb.UpdatePlantType | FastApi/app/routes/plant_routes.py:94-103 | NotFound iff the id is absent. Otherwise only that row's name is replaced. |
| PlantRoutes.PlantDb.DeletePlantType | FastApi/app/routes/plant_routes.py:106-112 | NotFound iff the id was absent. Only the plant-type row is removed; plants naming it keep the id, which no longer resolves. |
| ApiKeyAuth.FromLineEnd | FastApi/app/helpers/api_key_auth.py:43 | `.*` consumes a line-break-free part of the text. The rest is a suffix that is empty or starts at a line break. |
| ApiKeyAuth.ContainsWhereStarts | FastApi/app/helpers/api_key_auth.py:42 | Text that has `p` at some position contains `p`. |
| ApiKeyAuth.ContainsPrefixOf | FastApi/app/helpers/api_key_auth.py:42 | Text containing `p + q` contains `p`. |
| ApiKeyAuth.ReplaceInstalls | FastApi/app/helpers/api_key_auth.py:43-44 | If the text contains `p`, the substitution's output contains `p` followed by the key. |
| ApiKeyAuth.InstallKey | FastApi/app/helpers/api_key_auth.py:42-46 | No `ensures` of its own: the new `.env` text, substituted when it contains `API_KEY=` and appended to otherwise. Its properties are stated by `InstallKeyInstalls`, `InstallKeyCarries`, `InstallKeyIdempotent` and `InstallKeyKeepsRest`. |
| ApiKeyAuth.InstallKeyInstalls | FastApi/app/helpers/api_key_auth.py:42-46 | In both branches the new `.env` text contains `API_KEY=<key>`. |
| ApiKeyAuth.FromLineEndSkips | FastApi/app/helpers/api_key_auth.py:43 | `.*` over line-break-free text stops exactly at the next line break. |
| ApiKeyAuth.ReplaceLines | FastApi/app/helpers/api_key_auth.py:43-44 | No `ensures` of its own: `re.sub` of the literal `p` followed by `.*`, scanning left to right. Its properties are stated by `ReplaceInstalls`, `ShortTextUnchanged`, `HeadUnchanged`, `KeepsHead`, `ReplaceCarries`, `CarriedUnchanged`, `ReplaceKeepsRest` and `UnmatchedPrefixKept`. |
| ApiKeyAuth.ShortTextUnchanged | FastApi/app/helpers/api_key_auth.py:43 | Text shorter than the pattern is left unchanged. |
| ApiKeyAuth.HeadUnchanged | FastApi/app/helpers/api_key_auth.py:43 | The substitution leaves the first `n < \|p\|` characters unchanged. |
| ApiKeyAuth.KeepsHead | FastApi/app/helpers/api_key_auth.py:43 | The output starts with `p` iff the input does. |
| ApiKeyAuth.ReplaceCarries | FastApi/app/helpers/api_key_auth.py:43-44 | After the substitution, every `p` the scan meets is followed by exactly the key and then a line break or the end of the text. |
| ApiKeyAuth.CarriedUnchanged | FastApi/app/helpers/api_key_auth.py:43-44 | Text in which every key line already carries the key is a fixed point of the substitution. |
| ApiKeyAuth.UnmatchedThenCarried | FastApi/app/helpers/api_key_auth.py:46 | Appending a key line to text without `API_KEY=` gives text whose every key line carries the key. |
| ApiKeyAuth.InstallKeyCarries | FastApi/app/helpers/api_key_auth.py:42-46 | In both branches, every `API_KEY=` the scan meets in the new text carries exactly the new key to the end of its line. |
| ApiKeyAuth.ReplaceKeepsRest | FastApi/app/helpers/api_key_auth.py:43-44 | The substitution changes only the values of the key lines: blanking those values in its output gives the same text as blanking them in its input, so every other character and line is kept. |
| ApiKeyAuth.UnmatchedPrefixKept | FastApi/app/helpers/api_key_auth.py:46 | Text without the pattern, followed by text that starts a line, is copied through unchanged ahead of the substituted rest. |
| ApiKeyAuth.InstallKeyKeepsRest | FastApi/app/helpers/api_key_auth.py:42-46 | With the key values blanked, the new `.env` text is the old one, so the `DB_*` settings and every other line survive. When there was no key line, the text is followed by the new `API_KEY=` line. |
| ApiKeyAuth.InstallKeyIdempotent | FastApi/app/helpers/api_key_auth.py:42-46 | Installing the same one-line key twice writes the same text as installing it once. |
| ApiKeyAuth.UrlSafeKeyIsOneLine | FastApi/app/helpers/api_key_auth.py:36 | A `token_urlsafe` key contains no line break, so the idempotence lemma applies to it. |
| ApiKeyAuth.ReceivedKey | FastApi/app/helpers/api_key_auth.py:19 | `APIKeyHeader(auto_error=False)` passes on a non-empty header value unchanged and turns a missing or empty header into `None`. |
| ApiKeyAuth.GetApiKey | FastApi/app/helpers/api_key_auth.py:71-81 | The request passes iff the header equals the configured key (absent counts as a value), and then the header value is returned; otherwise 403. |
| ApiKeyAuth.MissingHeaderPassesWithoutConfiguredKey | FastApi/app/helpers/api_key_auth.py:71-73 | At the level of `get_api_key`'s parameter, with no key configured: an absent value passes and any value `Some(k)` is refused. |
| ApiKeyAuth.HeaderCheckEndToEnd | FastApi/app/helpers/api_key_auth.py:19-73 | From the raw header: with no key configured, a request passes iff its header is missing or empty; with an empty key configured, nothing passes; otherwise a request passes iff its header equals the key. |
| ApiKeyAuth.Session.Active | FastApi/app/helpers/api_key_auth.py:111 | No `ensures` of its own: a session is active at `now` iff a non-empty user is set and `now` is before the expiry. `ValidateUser` states what follows from it. |
| ApiKeyAuth.Session.ValidateUser | FastApi/app/helpers/api_key_auth.py:101-121 | An active session (non-empty user, `now` before expiry) returns `True` to any caller and changes nothing. Otherwise matching credentials issue the drawn key, write the installed `.env` text and start a 600-second session. The written text is a fixed point: installing the same key again changes nothing. Any other credentials return `None` and change nothing. |

## Left out

- The ORM and MySQL themselves are not modelled: connection setup, SQL, transactions, concurrency and the database's enforcement of foreign keys. Foreign keys are plain ids that may dangle; the one place the source notices a dangling key, loading a movie's director or genre, is modelled.
- Column widths (CHAR lengths, DECIMAL(5,2), the 32-bit INT of `IntegerField` and of the AUTO_INCREMENT ids) are stated as predicates for the movie, person and plant rows, but inserts do not check them, and ids and integer fields are unbounded `int`. The database would refuse a too-long or too-large value; the lemmas above show the schemas accept such values. The CHAR(50) names of genres and plant types have no predicate: those schemas have no validator, so any name reaches the insert, as `CreateGenre` and `CreatePlantType` state.
- MovieRoutes.CastOf: the link selects (`FastApi/app/routes/movie_routes.py:45-47`, `:67-69`) have no ORDER BY, so the database does not promise an order. The model fixes the row order as insertion order. The order-sensitive cast contracts (`CreateMovie`, `UpdateMovie`, `CastOfLinksFor`, `ReplaceCast`) rest on that choice; without it they hold only up to reordering.
- Temperatures are whole hundredths of a degree rather than Python floats. The DECIMAL(5,2) rounding of a float with more digits is not modelled.
- HTTP status codes, response messages and JSON serialisation are reduced to `Status` and `Reply`. A read of all rows returns a map keyed by id rather than an ordered list.
- MovieRoutes.FilmDb.ReadMovies: the source does not say in which order `select()` returns rows; the model fixes ascending id order, the primary-key order.
- Pydantic's type coercion (strings to ints, floats to ints) is not modelled; bodies arrive already typed.
- `load_dotenv`, reading and writing the `.env` file, `os.getenv` and `secrets.token_urlsafe` are I/O. They become parameters of `ValidateUser` (the drawn key and the current `.env` text) and of `GetApiKey` (the configured key); the written text is returned.
- ApiKeyAuth.Session.ValidateUser: `time.time()` is an integer parameter `now`, used for both calls in the source, so the few microseconds between them are not modelled.
- The regular expression engine is modelled only for the one pattern `API_KEY=.*`, with `.` not matching a line break; carriage returns are ordinary characters.
- ApiKeyAuth.InstallKey: the replacement `API_KEY=<key>` is treated as literal text, but `re.sub` reads backslash escapes in it. The two agree for keys without `\`, which `ValidateUser` requires by taking a URL-safe key.
- The application setup in `FastApi/app/main.py` (the lifespan that connects and creates the tables, and the four `include_router` calls) is not part of this model. Neither is the launcher `run.py`, which also holds the `/login` endpoint that calls `validar_usuario`.
- The route modules import schema classes under names the schema modules do not define. The model assumes the intended classes are found.
