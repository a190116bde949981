/** The route handlers of src/app.py, as methods of a store that holds the
    four tables. Each handler runs as one atomic transaction: it either
    commits its whole change or leaves every table as it was. */
module Api {
  import opened Wrappers
  import opened Json
  import opened Tables
  import opened Models

  /** One key of a JSON request body: absent, present as `null`, or a string. */
  datatype RequestField = Absent | Null | Text(s: string)

  /** The body of `POST /users` and `PUT /users/<id>`. */
  datatype UserBody = UserBody(email: RequestField, username: RequestField, password: RequestField)

  /** The body of the `/people` and `/planets` POST and PUT routes. */
  datatype EntityBody = EntityBody(name: RequestField, description: RequestField)

  /** What a handler returns: a status code and a JSON body. */
  datatype Response = Response(status: nat, body: Value)

  /** `request.json.get(key, default)`. */
  function Get(f: RequestField, default: Option<string>): (r: Option<string>)
    ensures f.Absent? ==> r == default
    ensures f.Null? ==> r == None
    ensures f.Text? ==> r == Some(f.s)
  {
    match f
    case Absent => default
    case Null => None
    case Text(s) => Some(s)
  }

  /** Python truthiness of an optional string: `not x` fails for `None` and `""`. */
  predicate Truthy(v: Option<string>)
    ensures !Truthy(v) <==> v == None || v == Some("")
  {
    v.Some? && v.value != ""
  }

  /** `jsonify({"msg": msg})`. */
  function MsgBody(msg: string): (b: Value)
    ensures b.JObj? && b.fields.Keys == {"msg"} && b.fields["msg"] == JStr(msg)
  {
    JObj(map["msg" := JStr(msg)])
  }

  /** The framework's answer to an exception escaping a handler (here: a commit
      refused by a NOT NULL column). */
  function ServerError(): (r: Response)
    ensures r.status == 500
    ensures forall msg :: r.body != MsgBody(msg)
  {
    Response(500, JStr("Internal Server Error"))
  }

  class Catalogue {
    var users: Table<User>
    var characters: Table<Character>
    var planets: Table<Planet>
    var favorites: Table<Favorite>
    /** werkzeug's `generate_password_hash`. */
    const hash: string -> string

    ghost predicate Valid()
      reads this
      ensures Valid() ==>
        && users.next !in users.rows && characters.next !in characters.rows
        && planets.next !in planets.rows && favorites.next !in favorites.rows
      ensures Valid() ==> forall k :: k in favorites.rows ==>
        && favorites.rows[k].userId in users.rows
        && (ResolvesCharacter(favorites.rows[k], characters.rows) || ResolvesPlanet(favorites.rows[k], planets.rows))
    {
      && users.Valid() && characters.Valid() && planets.Valid() && favorites.Valid()
      && Consistent(users.rows, characters.rows, planets.rows, favorites.rows)
    }

    /** An empty database; as with an autoincrement column, the first key of
        each table is 1. */
    constructor (hash: string -> string)
      ensures Valid() && this.hash == hash
      ensures users.rows == map[] && characters.rows == map[] && planets.rows == map[] && favorites.rows == map[]
      ensures users.next == 1 && characters.next == 1 && planets.next == 1 && favorites.next == 1
    {
      this.hash := hash;
      users, characters, planets, favorites := Table(map[], 1), Table(map[], 1), Table(map[], 1), Table(map[], 1);
    }

    // ------------------------------------------------------------ users

    /** `GET /users`. */
    method GetUsers() returns (r: Response)
      requires Valid()
      ensures r == Response(200, JArr(SerializeUsers(users, favorites, characters.rows, planets.rows)))
    {
      r := Response(200, JArr(SerializeUsers(users, favorites, characters.rows, planets.rows)));
    }

    /** `GET /users/<id>`. */
    method GetUser(id: nat) returns (r: Response)
      requires Valid()
      ensures id !in users.rows <==> r.status == 404
      ensures id !in users.rows ==> r.body == MsgBody("user not found")
      ensures id in users.rows ==> r == Response(200, SerializeUser(id, users.rows[id], favorites, characters.rows, planets.rows))
    {
      if id !in users.rows {
        return Response(404, MsgBody("user not found"));
      }
      r := Response(200, SerializeUser(id, users.rows[id], favorites, characters.rows, planets.rows));
    }

    /** `POST /users`. Note the password is hashed here and again by
        `User.__init__`, so the stored hash is `hash(hash(password))`. */
    method AddUser(body: UserBody) returns (r: Response)
      requires Valid()
      modifies this
      ensures Valid()
      ensures var email, username, password := Get(body.email, None), Get(body.username, None), Get(body.password, None);
        !Truthy(email) || !Truthy(username) || !Truthy(password) ==>
          r == Response(400, MsgBody("Email, username, and password are required")) && unchanged(this)
      ensures var email, username, password := Get(body.email, None), Get(body.username, None), Get(body.password, None);
        Truthy(email) && Truthy(username) && Truthy(password) && Clash(old(users.rows), email, username, None) ==>
          r == Response(400, MsgBody("Email or username already exists")) && unchanged(this)
      ensures var email, username, password := Get(body.email, None), Get(body.username, None), Get(body.password, None);
        Truthy(email) && Truthy(username) && Truthy(password) && !Clash(old(users.rows), email, username, None) ==>
          var id := old(users.next);
          var u := NewUser(username.value, email.value, hash(password.value), hash);
          && id !in old(users.rows)
          && users == Table(old(users.rows)[id := u], id + 1)
          && characters == old(characters) && planets == old(planets) && favorites == old(favorites)
          && r == Response(201, SerializeUser(id, u, favorites, characters.rows, planets.rows))
          && u.passwordHash == hash(hash(password.value))
          && r.body.fields["favorites"] == JArr([])
    {
      var email := Get(body.email, None);
      var username := Get(body.username, None);
      var password := Get(body.password, None);
      if !Truthy(email) || !Truthy(username) || !Truthy(password) {
        return Response(400, MsgBody("Email, username, and password are required"));
      }
      if Clash(users.rows, email, username, None) {
        return Response(400, MsgBody("Email or username already exists"));
      }
      var hashed := hash(password.value);
      var u := NewUser(username.value, email.value, hashed, hash);
      var id := users.next;
      InsertUniqueIff(users.rows, id, u);
      users := users.Insert(u);
      NoFavoritesSerializeEmpty(favorites, id, characters.rows, planets.rows);
      r := Response(201, SerializeUser(id, u, favorites, characters.rows, planets.rows));
    }

    /** `PUT /users/<id>`: a missing key keeps the stored value, the duplicate
        check skips the user itself, and the password is re-hashed (once) only
        when a non-empty one is sent. */
    method UpdateUser(id: nat, body: UserBody) returns (r: Response)
      requires Valid()
      modifies this
      ensures Valid()
      ensures id !in old(users.rows) ==> r == Response(404, MsgBody("User not found")) && unchanged(this)
      ensures id in old(users.rows) ==>
        var was := old(users.rows[id]);
        var email, username := Get(body.email, Some(was.email)), Get(body.username, Some(was.username));
        Clash(old(users.rows), email, username, Some(id)) ==>
          r == Response(400, MsgBody("Email or username already exists")) && unchanged(this)
      ensures id in old(users.rows) ==>
        var was := old(users.rows[id]);
        var email, username := Get(body.email, Some(was.email)), Get(body.username, Some(was.username));
        !Clash(old(users.rows), email, username, Some(id)) && (email.None? || username.None?) ==>
          r == ServerError() && unchanged(this)
      ensures id in old(users.rows) ==>
        var was := old(users.rows[id]);
        var email, username := Get(body.email, Some(was.email)), Get(body.username, Some(was.username));
        var password := Get(body.password, None);
        !Clash(old(users.rows), email, username, Some(id)) && email.Some? && username.Some? ==>
          var u := User(username.value, email.value, if Truthy(password) then hash(password.value) else was.passwordHash);
          && users == Table(old(users.rows)[id := u], old(users.next))
          && characters == old(characters) && planets == old(planets) && favorites == old(favorites)
          && r == Response(200, SerializeUser(id, u, favorites, characters.rows, planets.rows))
    {
      if id !in users.rows {
        return Response(404, MsgBody("User not found"));
      }
      var user := users.rows[id];
      var email := Get(body.email, Some(user.email));
      var username := Get(body.username, Some(user.username));
      var password := Get(body.password, None);
      if Clash(users.rows, email, username, Some(id)) {
        return Response(400, MsgBody("Email or username already exists"));
      }
      if email.None? || username.None? {
        return ServerError();
      }
      user := user.(email := email.value, username := username.value);
      if Truthy(password) {
        user := user.(passwordHash := hash(password.value));
      }
      UpdateUniqueIff(users.rows, id, user);
      users := users.(rows := users.rows[id := user]);
      r := Response(200, SerializeUser(id, user, favorites, characters.rows, planets.rows));
    }

    /** `DELETE /users/<id>`; the user's favorites go with it. */
    method RemoveUser(id: nat) returns (r: Response)
      requires Valid()
      modifies this
      ensures Valid()
      ensures id !in old(users.rows) ==> r == Response(404, MsgBody("User not found")) && unchanged(this)
      ensures id in old(users.rows) ==>
        && r == Response(200, MsgBody("User deleted"))
        && users == old(users).(rows := old(users.rows) - {id})
        && favorites == old(favorites).(rows := CascadeUser(old(favorites.rows), id))
        && characters == old(characters) && planets == old(planets)
    {
      if id !in users.rows {
        return Response(404, MsgBody("User not found"));
      }
      CascadeUserConsistent(users.rows, characters.rows, planets.rows, favorites.rows, id);
      users := users.(rows := users.rows - {id});
      favorites := favorites.(rows := CascadeUser(favorites.rows, id));
      r := Response(200, MsgBody("User deleted"));
    }

    /** `GET /users/<id>/favorites`. */
    method GetUserFavorites(id: nat) returns (r: Response)
      requires Valid()
      ensures id !in users.rows ==> r == Response(404, MsgBody("User not found"))
      ensures id in users.rows ==> r == Response(200, JArr(FavoriteList(favorites, id, characters.rows, planets.rows)))
    {
      if id !in users.rows {
        return Response(404, MsgBody("User not found"));
      }
      r := Response(200, JArr(FavoriteList(favorites, id, characters.rows, planets.rows)));
    }

    // ------------------------------------------------------------ favorites

    /** `Favorite(user_id, character_id, planet_id)`: validation, then the
        insert and commit, which the foreign keys can refuse. Returns the new
        favorite's id. */
    method AddFavorite(userId: nat, characterId: Option<nat>, planetId: Option<nat>) returns (r: Result<nat, FavoriteError>)
      requires Valid()
      modifies this
      ensures Valid()
      ensures NewFavorite(userId, characterId, planetId).Failure? ==>
        r == Failure(NewFavorite(userId, characterId, planetId).error) && unchanged(this)
      ensures NewFavorite(userId, characterId, planetId).Success? ==>
        var f := NewFavorite(userId, characterId, planetId).value;
        && (!References(f, old(users.rows), old(characters.rows), old(planets.rows)) ==>
              r == Failure(ForeignKeyViolation) && unchanged(this))
        && (References(f, old(users.rows), old(characters.rows), old(planets.rows)) ==>
              && r == Success(old(favorites.next))
              && old(favorites.next) !in old(favorites.rows)
              && favorites == Table(old(favorites.rows)[old(favorites.next) := f], old(favorites.next) + 1)
              && users == old(users) && characters == old(characters) && planets == old(planets))
    {
      var made := NewFavorite(userId, characterId, planetId);
      if made.Failure? {
        return Failure(made.error);
      }
      var f := made.value;
      if !References(f, users.rows, characters.rows, planets.rows) {
        return Failure(ForeignKeyViolation);
      }
      r := Success(favorites.next);
      favorites := favorites.Insert(f);
    }

    // ------------------------------------------------------------ people

    /** `GET /people`. */
    method GetPeople() returns (r: Response)
      requires Valid()
      ensures r == Response(200, JArr(SerializeCharacters(characters)))
    {
      r := Response(200, JArr(SerializeCharacters(characters)));
    }

    /** `GET /people/<id>`. */
    method GetPerson(id: nat) returns (r: Response)
      requires Valid()
      ensures id !in characters.rows ==> r == Response(404, MsgBody("Character not found"))
      ensures id in characters.rows ==> r == Response(200, SerializeCharacter(id, characters.rows[id]))
    {
      if id !in characters.rows {
        return Response(404, MsgBody("Character not found"));
      }
      r := Response(200, SerializeCharacter(id, characters.rows[id]));
    }

    /** `POST /people`. */
    method AddPerson(body: EntityBody) returns (r: Response)
      requires Valid()
      modifies this
      ensures Valid()
      ensures !Truthy(Get(body.name, None)) ==> r == Response(400, MsgBody("Name is required")) && unchanged(this)
      ensures Truthy(Get(body.name, None)) ==>
        var id := old(characters.next);
        var c := Character(Get(body.name, None).value, Get(body.description, None));
        && id !in old(characters.rows)
        && characters == Table(old(characters.rows)[id := c], id + 1)
        && users == old(users) && planets == old(planets) && favorites == old(favorites)
        && r == Response(201, SerializeCharacter(id, c))
    {
      var name := Get(body.name, None);
      var description := Get(body.description, None);
      if !Truthy(name) {
        return Response(400, MsgBody("Name is required"));
      }
      var c := NewCharacter(name.value, description);
      var id := characters.next;
      characters := characters.Insert(c);
      r := Response(201, SerializeCharacter(id, c));
    }

    /** `PUT /people/<id>`: a missing key keeps the stored value; no check on
        the name, so `""` is stored, and `null` is refused only by the NOT NULL
        column at commit. */
    method UpdatePerson(id: nat, body: EntityBody) returns (r: Response)
      requires Valid()
      modifies this
      ensures Valid()
      ensures id !in old(characters.rows) ==> r == Response(404, MsgBody("Character not found")) && unchanged(this)
      ensures id in old(characters.rows) && body.name.Null? ==> r == ServerError() && unchanged(this)
      ensures id in old(characters.rows) && !body.name.Null? ==>
        var was := old(characters.rows[id]);
        var c := Character(Get(body.name, Some(was.name)).value, Get(body.description, was.description));
        && characters == Table(old(characters.rows)[id := c], old(characters.next))
        && users == old(users) && planets == old(planets) && favorites == old(favorites)
        && r == Response(200, SerializeCharacter(id, c))
    {
      if id !in characters.rows {
        return Response(404, MsgBody("Character not found"));
      }
      var c := characters.rows[id];
      var name := Get(body.name, Some(c.name));
      var description := Get(body.description, c.description);
      if name.None? {
        return ServerError();
      }
      c := c.(name := name.value, description := description);
      characters := characters.(rows := characters.rows[id := c]);
      r := Response(200, SerializeCharacter(id, c));
    }

    /** `DELETE /people/<id>`; favorites of the character go with it. */
    method DeletePerson(id: nat) returns (r: Response)
      requires Valid()
      modifies this
      ensures Valid()
      ensures id !in old(characters.rows) ==> r == Response(404, MsgBody("Character not found")) && unchanged(this)
      ensures id in old(characters.rows) ==>
        && r == Response(200, MsgBody("Character deleted"))
        && characters == old(characters).(rows := old(characters.rows) - {id})
        && favorites == old(favorites).(rows := CascadeCharacter(old(favorites.rows), id))
        && users == old(users) && planets == old(planets)
    {
      if id !in characters.rows {
        return Response(404, MsgBody("Character not found"));
      }
      CascadeCharacterConsistent(users.rows, characters.rows, planets.rows, favorites.rows, id);
      characters := characters.(rows := characters.rows - {id});
      favorites := favorites.(rows := CascadeCharacter(favorites.rows, id));
      r := Response(200, MsgBody("Character deleted"));
    }

    // ------------------------------------------------------------ planets

    /** `GET /planets`. */
    method GetPlanets() returns (r: Response)
      requires Valid()
      ensures r == Response(200, JArr(SerializePlanets(planets)))
    {
      r := Response(200, JArr(SerializePlanets(planets)));
    }

    /** `GET /planets/<id>`. */
    method GetPlanet(id: nat) returns (r: Response)
      requires Valid()
      ensures id !in planets.rows ==> r == Response(404, MsgBody("Planet not found"))
      ensures id in planets.rows ==> r == Response(200, SerializePlanet(id, planets.rows[id]))
    {
      if id !in planets.rows {
        return Response(404, MsgBody("Planet not found"));
      }
      r := Response(200, SerializePlanet(id, planets.rows[id]));
    }

    /** `POST /planets`. */
    method AddPlanet(body: EntityBody) returns (r: Response)
      requires Valid()
      modifies this
      ensures Valid()
      ensures !Truthy(Get(body.name, None)) ==> r == Response(400, MsgBody("Name is required")) && unchanged(this)
      ensures Truthy(Get(body.name, None)) ==>
        var id := old(planets.next);
        var p := Planet(Get(body.name, None).value, Get(body.description, None));
        && id !in old(planets.rows)
        && planets == Table(old(planets.rows)[id := p], id + 1)
        && users == old(users) && characters == old(characters) && favorites == old(favorites)
        && r == Response(201, SerializePlanet(id, p))
    {
      var name := Get(body.name, None);
      var description := Get(body.description, None);
      if !Truthy(name) {
        return Response(400, MsgBody("Name is required"));
      }
      var p := NewPlanet(name.value, description);
      var id := planets.next;
      planets := planets.Insert(p);
      r := Response(201, SerializePlanet(id, p));
    }

    /** `PUT /planets/<id>`, shaped like `PUT /people/<id>`. */
    method UpdatePlanet(id: nat, body: EntityBody) returns (r: Response)
      requires Valid()
      modifies this
      ensures Valid()
      ensures id !in old(planets.rows) ==> r == Response(404, MsgBody("Planet not found")) && unchanged(this)
      ensures id in old(planets.rows) && body.name.Null? ==> r == ServerError() && unchanged(this)
      ensures id in old(planets.rows) && !body.name.Null? ==>
        var was := old(planets.rows[id]);
        var p := Planet(Get(body.name, Some(was.name)).value, Get(body.description, was.description));
        && planets == Table(old(planets.rows)[id := p], old(planets.next))
        && users == old(users) && characters == old(characters) && favorites == old(favorites)
        && r == Response(200, SerializePlanet(id, p))
    {
      if id !in planets.rows {
        return Response(404, MsgBody("Planet not found"));
      }
      var p := planets.rows[id];
      var name := Get(body.name, Some(p.name));
      var description := Get(body.description, p.description);
      if name.None? {
        return ServerError();
      }
      p := p.(name := name.value, description := description);
      planets := planets.(rows := planets.rows[id := p]);
      r := Response(200, SerializePlanet(id, p));
    }

    /** `DELETE /planets/<id>`; favorites of the planet go with it. */
    method DeletePlanet(id: nat) returns (r: Response)
      requires Valid()
      modifies this
      ensures Valid()
      ensures id !in old(planets.rows) ==> r == Response(404, MsgBody("Planet not found")) && unchanged(this)
      ensures id in old(planets.rows) ==>
        && r == Response(200, MsgBody("Planet deleted"))
        && planets == old(planets).(rows := old(planets.rows) - {id})
        && favorites == old(favorites).(rows := CascadePlanet(old(favorites.rows), id))
        && users == old(users) && characters == old(characters)
    {
      if id !in planets.rows {
        return Response(404, MsgBody("Planet not found"));
      }
      CascadePlanetConsistent(users.rows, characters.rows, planets.rows, favorites.rows, id);
      planets := planets.(rows := planets.rows - {id});
      favorites := favorites.(rows := CascadePlanet(favorites.rows, id));
      r := Response(200, MsgBody("Planet deleted"));
    }
  }

  /** Creating a character and reading it back returns the same fields. */
  method PostThenGetPerson(store: Catalogue, body: EntityBody) returns (created: Response, fetched: Response)
    requires store.Valid() && Truthy(Get(body.name, None))
    modifies store
    ensures created.status == 201 && fetched.status == 200 && fetched.body == created.body
  {
    var id := store.characters.next;
    created := store.AddPerson(body);
    fetched := store.GetPerson(id);
  }

  /** Creating a planet and reading it back returns the same fields. */
  method PostThenGetPlanet(store: Catalogue, body: EntityBody) returns (created: Response, fetched: Response)
    requires store.Valid() && Truthy(Get(body.name, None))
    modifies store
    ensures created.status == 201 && fetched.status == 200 && fetched.body == created.body
  {
    var id := store.planets.next;
    created := store.AddPlanet(body);
    fetched := store.GetPlanet(id);
  }

  /** Creating a user and reading it back returns the same fields; the
      password hash is in neither. */
  method PostThenGetUser(store: Catalogue, body: UserBody) returns (created: Response, fetched: Response)
    requires store.Valid()
    requires Truthy(Get(body.email, None)) && Truthy(Get(body.username, None)) && Truthy(Get(body.password, None))
    requires !Clash(store.users.rows, Get(body.email, None), Get(body.username, None), None)
    modifies store
    ensures created.status == 201 && fetched.status == 200 && fetched.body == created.body
    ensures fetched.body.JObj? && "password_hash" !in fetched.body.fields
  {
    var id := store.users.next;
    created := store.AddUser(body);
    fetched := store.GetUser(id);
  }

  /** A second `POST /users` with the same email is refused and changes nothing. */
  method DuplicateEmailRefused(store: Catalogue, first: UserBody, second: UserBody) returns (r: Response)
    requires store.Valid()
    requires Truthy(Get(first.email, None)) && Truthy(Get(first.username, None)) && Truthy(Get(first.password, None))
    requires !Clash(store.users.rows, Get(first.email, None), Get(first.username, None), None)
    requires second.email == first.email && Truthy(Get(second.username, None)) && Truthy(Get(second.password, None))
    modifies store
    ensures r == Response(400, MsgBody("Email or username already exists"))
  {
    var created := store.AddUser(first);
    var id := store.users.next - 1;
    assert store.users.rows[id].email == Get(first.email, None).value;
    r := store.AddUser(second);
  }
}
