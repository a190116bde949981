# Star Wars catalogue REST API — a Dafny model

The service keeps four tables — users, characters ("people"), planets and
favorites — and exposes CRUD routes over them. A favorite links one user to
exactly one character or one planet. This project models that catalogue and
its rules:

- `Catalogue` (api.dfy) is the database. It holds the four tables, each a
  `Table<V>` (tables.dfy): rows keyed by primary key, plus the counter that
  hands out the next key. Every route handler of `src/app.py` is one method.
  It returns a `Response(status, body)`, and its contract states the status,
  the JSON body and the whole new state. Each handler either commits its
  whole change or leaves every table unchanged.
- `Valid()` is the invariant every handler keeps:
  - emails are unique, and so are usernames;
  - every favorite has exactly one target;
  - every favorite's user, character or planet exists.

  Cascade deletes keep the last part true. Lemmas show that deleting without
  the cascade would break it.
- models.dfy holds the entity layer of `src/models.py`: the records, the
  constructors' validation, `set_password`/`check_password`, the
  `serialize` projections and the cascades. It works on plain values so
  that lemmas can relate several operations.
- A request body is a record of `RequestField`s. A `RequestField` is one JSON key: `Absent`,
  `Null`, or `Text(s)`. `Get` models `request.json.get(key, default)`, and
  `Truthy` models Python's `if not x` on an optional string.
- JSON (json.dfy) is a `Value` datatype. An object is a `map` from keys to
  values, so key order is not part of a document.

Behaviour kept from the code as written:

- `add_user` hashes the password and passes the hash to `User(...)`.
  `User.__init__` then hashes it again through `set_password`. The stored
  hash is therefore `hash(hash(p))` on create but `hash(p)` on update.
  `Models.CreatedUserCheck` shows that a created user passes
  `check_password(p)` only when `hash(hash(p)) == hash(p)`.
  `Models.CreatedUserRefusesOwnPassword` shows that the created user always
  fails the check when the hash never gives two passwords the same value and
  never maps a string to itself. No route
  calls `check_password`, so no handler is affected.
- `update_user` resolves a missing key to the stored value. A JSON `null`
  resolves to `None`. A `None` email or username matches no row in the
  duplicate query (SQL `IS NULL`) and is then refused by the NOT NULL column
  at commit. That failure is a 500 response and the store is unchanged.
  `update_person` and `update_planet` treat a `null` name the same way. They
  do not check the name, so an empty name is stored. A `null` description
  clears the description.
- `get_user` answers `"user not found"` in lower case. The other user routes
  answer `"User not found"`.

## Model

| member | source | states |
|---|---|---|
| `Tables.IdsBelow` | src/app.py:47 | the keys of a table below a bound, strictly ascending, each exactly once |
| `Tables.Table.Ids` | src/app.py:47-48 | `query.all()` lists every row's key once, in ascending order |
| `Tables.Table.Insert` | src/models.py:7 | an inserted row gets a key no existing row has; existing rows are kept |
| `Tables.Project` | src/app.py:48 | a list comprehension over a table: one image per row, in key order |
| `Tables.ProjectCovers` | src/app.py:48 | every row of the table appears in the listing, at its key's position |
| `Models.CheckPassword` | src/models.py:30-31 | `check_password(p)` holds iff setting the password to `p` again would leave the user unchanged |
| `Models.SetPassword` | src/models.py:27-28 | the stored hash becomes `hash(password)`; username and email are untouched |
| `Models.NewUser` | src/models.py:13-16 | the new user has the given username and email and accepts the password it was given |
| `Models.CheckAfterSetPassword` | src/models.py:27-31 | `check_password(a)` after `set_password(p)` holds iff `hash(a) == hash(p)` |
| `Models.CreatedUserCheck` | src/app.py:71-72 | because of the double hash, a created user passes `check_password(p)` iff `hash(hash(p)) == hash(p)` |
| `Models.CreatedUserRefusesOwnPassword` | src/app.py:71-72 | for any hash that is injective and has no fixed point, a created user always fails `check_password` on its own password |
| `Models.NewCharacter` | src/models.py:47-49 | the new character has the given name and description |
| `Models.NewPlanet` | src/models.py:70-72 | the new planet has the given name and description |
| `Models.DescriptionDefaultsToNone` | src/models.py:47-49 | a character or planet constructed without a description has `None` |
| `Models.FavoriteError.Message` | src/models.py:94-97 | the texts of the two `ValueError`s the Favorite constructor raises; every error has a non-empty message |
| `Models.ExactlyOneTarget` | src/models.py:94-97 | a favorite has a character or a planet, and not both |
| `Models.NewFavorite` | src/models.py:93-100 | both targets is refused, and so is neither; it succeeds iff exactly one target is given, and then it keeps the given user and target |
| `Models.UniqueUsers` | src/models.py:8-9 | the `unique=True` columns: no two users share an email or a username. This holds iff, for every user, the update query that skips that user finds no match on its own email and username |
| `Models.Clash` | src/app.py:87-89 | the duplicate query of `add_user` and `update_user`. A `None` email and username (SQL `IS NULL`) match nobody, and an empty table matches nothing |
| `Models.References` | src/models.py:89-91 | the foreign keys of a favorite resolve; with exactly one target, that target then resolves to a row |
| `Models.Consistent` | src/models.py:8-9 | the invariant: unique emails and usernames (src/models.py:8-9), every favorite with exactly one target (src/models.py:94-97) and resolving foreign keys (src/models.py:89-91). A consistent store's favorites all have an existing user and a resolving character or planet |
| `Models.InsertUniqueIff` | src/app.py:68-74 | adding a user keeps emails and usernames unique iff the duplicate query finds no user |
| `Models.UpdateUniqueIff` | src/app.py:87-96 | replacing a user keeps uniqueness iff the duplicate query, which skips that user, finds no one |
| `Models.OwnFieldsNeverClash` | src/app.py:87-89 | re-submitting a user's own email and username never counts as a duplicate |
| `Models.CascadeUser` | src/models.py:11 | exactly the favorites of other users remain, unchanged |
| `Models.CascadeCharacter` | src/models.py:45 | exactly the favorites not pointing at the character remain, unchanged |
| `Models.CascadePlanet` | src/models.py:68 | exactly the favorites not pointing at the planet remain, unchanged |
| `Models.CascadeUserConsistent` | src/models.py:6-11 | deleting a user with its favorites keeps the tables consistent; without the cascade, a user with favorites would leave dangling ones |
| `Models.CascadeCharacterConsistent` | src/models.py:41-45 | the same for deleting a character |
| `Models.CascadePlanetConsistent` | src/models.py:64-68 | the same for deleting a planet |
| `Models.SerializeCharacter` | src/models.py:57-62 | exactly the keys id, name and description; id and name as stored; a missing description becomes null |
| `Models.SerializePlanet` | src/models.py:80-85 | exactly the keys id, name and description; id and name as stored; a missing description becomes null |
| `Models.SerializeCharacterInjective` | src/models.py:57-62 | the projection loses nothing: equal projections mean equal id and record |
| `Models.SerializePlanetInjective` | src/models.py:80-85 | the projection loses nothing: equal projections mean equal id and record |
| `Models.ResolvesCharacter` | src/models.py:110 | `if self.character`: it holds only when the favorite has a character id and that row exists |
| `Models.ResolvesPlanet` | src/models.py:112 | `elif self.planet`: it holds only when the favorite has a planet id and that row exists |
| `Models.Item` | src/models.py:111-118 | the item dict of a favorite: exactly the keys id, name and type, holding the given values |
| `Models.SerializeFavorite` | src/models.py:108-119 | keys id, user_id and item. The item is a "character" item with that character's id and name if one resolves; otherwise a "planet" item if a planet resolves; otherwise all-null |
| `Models.StoredFavoriteTagged` | src/models.py:93-118 | in consistent tables a stored favorite is tagged with its one target's type and id, never the all-null item |
| `Models.FavoritesOf` | src/app.py:115 | `filter_by(user_id=...)`: exactly the favorites with that user id, unchanged |
| `Models.FavoriteList` | src/app.py:115-116 | every listed favorite carries the requested user_id |
| `Models.FavoriteListExact` | src/app.py:112-116 | a stored favorite is listed iff its user_id is the requested one |
| `Models.SerializeUser` | src/models.py:33-39 | exactly the keys id, username, email and favorites. The user's favorite list is included. There is no password_hash key, and no top-level member holds the hash's value unless it equals the username or the email |
| `Models.NoFavoritesSerializeEmpty` | src/models.py:38 | a user no favorite points at serialises with an empty favorites list |
| `Models.SerializeUsers` | src/app.py:47-48 | one entry per user, the i-th carrying the i-th user id in ascending order |
| `Models.SerializeCharacters` | src/app.py:120-121 | one entry per character, the i-th carrying the i-th character id in ascending order |
| `Models.SerializePlanets` | src/app.py:170-171 | one entry per planet, the i-th carrying the i-th planet id in ascending order |
| `Api.Get` | src/app.py:84-86 | `request.json.get(key, default)`: an absent key gives the default, `null` gives None, a string gives itself |
| `Api.Truthy` | src/app.py:64 | `if not x`: a value is falsy exactly when it is `None` or the empty string (also used at src/app.py:94, 136 and 186) |
| `Api.MsgBody` | src/app.py:54-56 | the `{"msg": ...}` body of every refusal and confirmation: exactly the one key msg, holding the text |
| `Api.ServerError` | src/app.py:96 | the 500 answer when a commit is refused (also at src/app.py:154 and 204); its body is no `msg` body, so it is never confused with a handler's own answer |
| `Api.Catalogue.Valid` | src/models.py:7-9 | the database's invariant: every table's counter is past its keys, and `Models.Consistent` holds, so every favorite's user exists and its target resolves |
| `Api.Catalogue.constructor` | src/models.py:7 | the database starts with four empty tables whose first key is 1, and the invariant holds |
| `Api.Catalogue.GetUsers` | src/app.py:45-48 | 200 with the projection of every user |
| `Api.Catalogue.GetUser` | src/app.py:50-57 | 404 with "user not found" iff the id is absent, else 200 with that user's projection |
| `Api.Catalogue.AddUser` | src/app.py:59-75 | a missing or empty email, username or password gives 400 with nothing changed. A duplicate email or username gives 400 with nothing changed. Otherwise 201: exactly one user is added under a fresh id, with hash `hash(hash(p))` and no favorites, and the other tables are untouched. Uniqueness is kept |
| `Api.Catalogue.UpdateUser` | src/app.py:77-97 | an absent id gives 404 with nothing changed. A clash with another user gives 400 with nothing changed. A `null` email or username gives 500 with nothing changed. Otherwise 200: absent keys keep the stored values, and the hash changes, to `hash(p)`, only for a non-empty password. Uniqueness is kept |
| `Api.Catalogue.RemoveUser` | src/app.py:99-108 | an absent id gives 404 with nothing changed. Otherwise 200: the user and exactly its favorites are deleted and nothing else changes |
| `Api.Catalogue.GetUserFavorites` | src/app.py:110-116 | 404 for an absent user, else 200 with exactly that user's favorites |
| `Api.Catalogue.AddFavorite` | src/models.py:93-106 | both or neither target fails with nothing changed. Unresolved foreign keys fail with nothing changed. Otherwise exactly one favorite is added under a fresh id |
| `Api.Catalogue.GetPeople` | src/app.py:118-121 | 200 with the projection of every character |
| `Api.Catalogue.GetPerson` | src/app.py:123-130 | 404 for an absent id, else 200 with that character's projection |
| `Api.Catalogue.AddPerson` | src/app.py:132-143 | a missing or empty name gives 400 with nothing changed. Otherwise 201: exactly one character is added under a fresh id, with the given name and description (None if absent) |
| `Api.Catalogue.UpdatePerson` | src/app.py:145-155 | an absent id gives 404 with nothing changed. A `null` name gives 500 with nothing changed. Otherwise 200: absent keys keep the stored values and only that character changes |
| `Api.Catalogue.DeletePerson` | src/app.py:157-166 | an absent id gives 404 with nothing changed. Otherwise 200: the character and exactly the favorites pointing at it are deleted |
| `Api.Catalogue.GetPlanets` | src/app.py:168-171 | 200 with the projection of every planet |
| `Api.Catalogue.GetPlanet` | src/app.py:173-180 | 404 for an absent id, else 200 with that planet's projection |
| `Api.Catalogue.AddPlanet` | src/app.py:182-193 | a missing or empty name gives 400 with nothing changed. Otherwise 201: exactly one planet is added under a fresh id, with the given name and description (None if absent) |
| `Api.Catalogue.UpdatePlanet` | src/app.py:195-205 | an absent id gives 404 with nothing changed. A `null` name gives 500 with nothing changed. Otherwise 200: absent keys keep the stored values and only that planet changes |
| `Api.Catalogue.DeletePlanet` | src/app.py:207-216 | an absent id gives 404 with nothing changed. Otherwise 200: the planet and exactly the favorites pointing at it are deleted |
| `Api.PostThenGetPerson` | src/app.py:123-143 | creating a character and then fetching it returns the same body |
| `Api.PostThenGetPlanet` | src/app.py:173-193 | creating a planet and then fetching it returns the same body |
| `Api.PostThenGetUser` | src/app.py:50-75 | creating a user and then fetching it returns the same body, which has no password_hash key |
| `Api.DuplicateEmailRefused` | src/app.py:68-70 | a second registration with an email already taken gets 400 |

## Left out

- HTTP routing, CORS, Swagger, the admin panel and the sitemap (src/app.py:15-38) are not modelled. They are web-framework plumbing.
- Parsing of `request.json` is not modelled. A request field is a string, `null` or absent. A non-JSON body and non-string JSON values such as numbers are not modelled.
- `jsonify` is not modelled: a body is the JSON value itself, and the sorting of keys in the output is left out.
- The database URL and port taken from the environment (src/app.py:18-23, src/app.py:220-222) are process configuration and are left out.
- Session `add`, `commit` and `rollback`, and the re-raise of commit errors in the constructors, are not modelled as steps. Each successful request is one atomic table update. The handlers' second `add`/`commit` changes nothing and is left out.
- A failed commit makes the framework answer 500 with an error page. The model says that nothing changes and gives the body as a plain string.
- `generate_password_hash` and `check_password_hash` are werkzeug calls. They are replaced by the store's `hash` function, which is deterministic. Salting is left out, and `check_password` compares the stored value with `hash(password)`.
- The foreign keys at src/models.py:89-91 are assumed to be enforced. A favorite whose user, character or planet is missing fails its commit. SQLite enforces foreign keys only when configured to.
- A query without ORDER BY returns rows in no fixed order. The model lists rows by ascending id. It also never reuses the id of a deleted row.
- The column lengths (`String(50)` and others) are database limits that the code never checks, so they are left out.
- `User.__repr__` is a debugging string and is left out.
- Concurrent requests are left out: every request is one transaction, applied one after another.
