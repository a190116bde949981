/** The entity layer of src/models.py: the four record types, their
    constructors' validation, password hashing, the JSON projections and the
    cascade relationships. A record does not hold its own id: the id is the
    key under which its table stores it. */
module Models {
  import opened Wrappers
  import opened Json
  import opened Tables

  datatype User = User(username: string, email: string, passwordHash: string)
  datatype Character = Character(name: string, description: Option<string>)
  datatype Planet = Planet(name: string, description: Option<string>)
  datatype Favorite = Favorite(userId: nat, characterId: Option<nat>, planetId: Option<nat>)

  /** Why a Favorite could not be created: the two `ValueError`s its
      constructor raises, and the foreign-key violation that makes its commit
      fail. */
  datatype FavoriteError = BothTargets | NoTarget | ForeignKeyViolation {
    function Message(): (m: string)
      ensures BothTargets? ==> m == "A favorite can only have either a character or a planet, not both."
      ensures NoTarget? ==> m == "A favorite must have either a character or a planet."
      ensures m != ""
    {
      match this
      case BothTargets => "A favorite can only have either a character or a planet, not both."
      case NoTarget => "A favorite must have either a character or a planet."
      case ForeignKeyViolation => "FOREIGN KEY constraint failed"
    }
  }

  // ---------------------------------------------------------------- passwords

  /** `User.set_password`: the stored hash becomes `hash(password)`; nothing
      else about the user changes. `hash` stands for werkzeug's
      `generate_password_hash`. */
  function SetPassword(u: User, hash: string -> string, password: string): (r: User)
    ensures r.passwordHash == hash(password)
    ensures r.username == u.username && r.email == u.email
  {
    u.(passwordHash := hash(password))
  }

  /** `User.check_password`: the stored hash is the hash of `password`, that
      is, setting the password to `password` again would change nothing. */
  predicate CheckPassword(u: User, hash: string -> string, password: string)
    ensures CheckPassword(u, hash, password) <==> SetPassword(u, hash, password) == u
  {
    u.passwordHash == hash(password)
  }

  /** `User.__init__`: assigns username and email, then `set_password`. */
  function NewUser(username: string, email: string, password: string, hash: string -> string): (u: User)
    ensures u.username == username && u.email == email
    ensures CheckPassword(u, hash, password)
  {
    SetPassword(User(username, email, ""), hash, password)
  }

  /** `check_password` accepts exactly the password that `set_password` stored. */
  lemma CheckAfterSetPassword(u: User, hash: string -> string, password: string, attempt: string)
    ensures CheckPassword(SetPassword(u, hash, password), hash, attempt) <==> hash(attempt) == hash(password)
  {
  }

  /** `add_user` passes an already hashed password to `User(...)`, which hashes
      it again: the created user accepts its own password only if the hash
      happens to be a fixed point at `hash(p)`. */
  lemma CreatedUserCheck(username: string, email: string, hash: string -> string, p: string)
    ensures CheckPassword(NewUser(username, email, hash(p), hash), hash, p) <==> hash(hash(p)) == hash(p)
  {
  }

  /** For any hash that never maps two passwords to one value and never maps
      a string to itself, a user created through `add_user` is refused its
      own password. */
  lemma CreatedUserRefusesOwnPassword(username: string, email: string, hash: string -> string, p: string)
    requires forall s, t :: hash(s) == hash(t) ==> s == t
    requires forall s :: hash(s) != s
    ensures !CheckPassword(NewUser(username, email, hash(p), hash), hash, p)
  {
  }

  // ---------------------------------------------------------------- constructors

  /** `Character.__init__`; `description` defaults to `None`. */
  function NewCharacter(name: string, description: Option<string> := None): (c: Character)
    ensures c.name == name && c.description == description
  {
    Character(name, description)
  }

  /** `Planet.__init__`; `description` defaults to `None`. */
  function NewPlanet(name: string, description: Option<string> := None): (p: Planet)
    ensures p.name == name && p.description == description
  {
    Planet(name, description)
  }

  lemma DescriptionDefaultsToNone(name: string)
    ensures NewCharacter(name).description == None
    ensures NewPlanet(name).description == None
  {
  }

  /** A favorite points at exactly one of a character and a planet. */
  predicate ExactlyOneTarget(f: Favorite)
    ensures ExactlyOneTarget(f) <==>
      (f.characterId.Some? || f.planetId.Some?) && !(f.characterId.Some? && f.planetId.Some?)
  {
    f.characterId.Some? != f.planetId.Some?
  }

  /** The validation in `Favorite.__init__`: both targets, or neither, raise. */
  function NewFavorite(userId: nat, characterId: Option<nat> := None, planetId: Option<nat> := None): (r: Result<Favorite, FavoriteError>)
    ensures characterId.Some? && planetId.Some? ==> r == Failure(BothTargets)
    ensures characterId.None? && planetId.None? ==> r == Failure(NoTarget)
    ensures r.Success? <==> characterId.Some? != planetId.Some?
    ensures r.Success? ==> ExactlyOneTarget(r.value)
    ensures r.Success? ==> r.value.userId == userId && r.value.characterId == characterId && r.value.planetId == planetId
  {
    if characterId.Some? && planetId.Some? then Failure(BothTargets)
    else if characterId.None? && planetId.None? then Failure(NoTarget)
    else Success(Favorite(userId, characterId, planetId))
  }

  // ---------------------------------------------------------------- integrity

  /** The `unique=True` columns: no two users share an email or a username. */
  ghost predicate UniqueUsers(users: map<nat, User>)
    ensures UniqueUsers(users) <==>
      forall k :: k in users ==> !Clash(users, Some(users[k].email), Some(users[k].username), Some(k))
  {
    forall a, b :: a in users && b in users && a != b ==>
      users[a].email != users[b].email && users[a].username != users[b].username
  }

  /** The query `User.email == email | User.username == username`, restricted to
      `User.id != except` when `except` is given. A `None` value compares as
      SQL `IS NULL`, which no stored user matches. */
  predicate Clash(users: map<nat, User>, email: Option<string>, username: Option<string>, except: Option<nat>)
    ensures email.None? && username.None? ==> !Clash(users, email, username, except)
    ensures users == map[] ==> !Clash(users, email, username, except)
  {
    exists k :: k in users && Some(k) != except &&
      (Some(users[k].email) == email || Some(users[k].username) == username)
  }

  /** The foreign keys of a favorite resolve. */
  predicate References(f: Favorite, users: map<nat, User>, characters: map<nat, Character>, planets: map<nat, Planet>)
    ensures References(f, users, characters, planets) && ExactlyOneTarget(f) ==>
      ResolvesCharacter(f, characters) || ResolvesPlanet(f, planets)
  {
    && f.userId in users
    && (f.characterId.Some? ==> f.characterId.value in characters)
    && (f.planetId.Some? ==> f.planetId.value in planets)
  }

  /** What holds of the four tables between requests. */
  ghost predicate Consistent(users: map<nat, User>, characters: map<nat, Character>, planets: map<nat, Planet>, favorites: map<nat, Favorite>)
    ensures Consistent(users, characters, planets, favorites) ==> forall k :: k in favorites ==>
      && favorites[k].userId in users
      && (ResolvesCharacter(favorites[k], characters) || ResolvesPlanet(favorites[k], planets))
  {
    && UniqueUsers(users)
    && forall k :: k in favorites ==>
         ExactlyOneTarget(favorites[k]) && References(favorites[k], users, characters, planets)
  }

  /** Inserting a user keeps emails and usernames unique exactly when the
      duplicate query of `add_user` finds nobody. */
  lemma InsertUniqueIff(users: map<nat, User>, k: nat, u: User)
    requires UniqueUsers(users) && k !in users
    ensures UniqueUsers(users[k := u]) <==> !Clash(users, Some(u.email), Some(u.username), None)
  {
    if Clash(users, Some(u.email), Some(u.username), None) {
      var j :| j in users && (Some(users[j].email) == Some(u.email) || Some(users[j].username) == Some(u.username));
      assert users[k := u][j] == users[j] && users[k := u][k] == u;
    }
  }

  /** Replacing user `k` keeps emails and usernames unique exactly when the
      duplicate query of `update_user`, which skips `k` itself, finds nobody. */
  lemma UpdateUniqueIff(users: map<nat, User>, k: nat, u: User)
    requires UniqueUsers(users) && k in users
    ensures UniqueUsers(users[k := u]) <==> !Clash(users, Some(u.email), Some(u.username), Some(k))
  {
    if Clash(users, Some(u.email), Some(u.username), Some(k)) {
      var j :| j in users && Some(j) != Some(k) && (Some(users[j].email) == Some(u.email) || Some(users[j].username) == Some(u.username));
      assert users[k := u][j] == users[j] && users[k := u][k] == u;
    }
  }

  /** Re-submitting a user's own email and username never clashes. */
  lemma OwnFieldsNeverClash(users: map<nat, User>, k: nat)
    requires UniqueUsers(users) && k in users
    ensures !Clash(users, Some(users[k].email), Some(users[k].username), Some(k))
  {
  }

  // ---------------------------------------------------------------- cascades

  /** `User.favorites` with `delete-orphan`: the favorites left once user `userId` is gone. */
  function CascadeUser(favorites: map<nat, Favorite>, userId: nat): (r: map<nat, Favorite>)
    ensures forall k :: k in r <==> k in favorites && favorites[k].userId != userId
    ensures forall k :: k in r ==> r[k] == favorites[k]
  {
    map k | k in favorites && favorites[k].userId != userId :: favorites[k]
  }

  /** `Character.favorites` with `delete-orphan`. */
  function CascadeCharacter(favorites: map<nat, Favorite>, characterId: nat): (r: map<nat, Favorite>)
    ensures forall k :: k in r <==> k in favorites && favorites[k].characterId != Some(characterId)
    ensures forall k :: k in r ==> r[k] == favorites[k]
  {
    map k | k in favorites && favorites[k].characterId != Some(characterId) :: favorites[k]
  }

  /** `Planet.favorites` with `delete-orphan`. */
  function CascadePlanet(favorites: map<nat, Favorite>, planetId: nat): (r: map<nat, Favorite>)
    ensures forall k :: k in r <==> k in favorites && favorites[k].planetId != Some(planetId)
    ensures forall k :: k in r ==> r[k] == favorites[k]
  {
    map k | k in favorites && favorites[k].planetId != Some(planetId) :: favorites[k]
  }

  /** Deleting a user together with its favorites keeps the tables consistent;
      deleting it alone does not when it has a favorite. */
  lemma CascadeUserConsistent(users: map<nat, User>, characters: map<nat, Character>, planets: map<nat, Planet>, favorites: map<nat, Favorite>, id: nat)
    requires Consistent(users, characters, planets, favorites)
    ensures Consistent(users - {id}, characters, planets, CascadeUser(favorites, id))
    ensures (exists k :: k in favorites && favorites[k].userId == id) ==> !Consistent(users - {id}, characters, planets, favorites)
  {
    var rest := CascadeUser(favorites, id);
    forall k | k in rest
      ensures ExactlyOneTarget(rest[k]) && References(rest[k], users - {id}, characters, planets)
    {
      assert rest[k] == favorites[k];
    }
    assert UniqueUsers(users - {id});
    if exists k :: k in favorites && favorites[k].userId == id {
      var k :| k in favorites && favorites[k].userId == id;
      assert !References(favorites[k], users - {id}, characters, planets);
    }
  }

  /** Deleting a character together with the favorites that reference it keeps
      the tables consistent; deleting it alone does not when one references it. */
  lemma CascadeCharacterConsistent(users: map<nat, User>, characters: map<nat, Character>, planets: map<nat, Planet>, favorites: map<nat, Favorite>, id: nat)
    requires Consistent(users, characters, planets, favorites)
    ensures Consistent(users, characters - {id}, planets, CascadeCharacter(favorites, id))
    ensures (exists k :: k in favorites && favorites[k].characterId == Some(id)) ==> !Consistent(users, characters - {id}, planets, favorites)
  {
  }

  /** Deleting a planet together with the favorites that reference it keeps
      the tables consistent; deleting it alone does not when one references it. */
  lemma CascadePlanetConsistent(users: map<nat, User>, characters: map<nat, Character>, planets: map<nat, Planet>, favorites: map<nat, Favorite>, id: nat)
    requires Consistent(users, characters, planets, favorites)
    ensures Consistent(users, characters, planets - {id}, CascadePlanet(favorites, id))
    ensures (exists k :: k in favorites && favorites[k].planetId == Some(id)) ==> !Consistent(users, characters, planets - {id}, favorites)
  {
  }

  // ---------------------------------------------------------------- serialisation

  /** `Character.serialize`. */
  function SerializeCharacter(id: nat, c: Character): (j: Value)
    ensures j.JObj? && j.fields.Keys == {"id", "name", "description"}
    ensures j.fields["id"] == JInt(id) && j.fields["name"] == JStr(c.name)
    ensures j.fields["description"] == OptStr(c.description)
  {
    JObj(map["id" := JInt(id), "name" := JStr(c.name), "description" := OptStr(c.description)])
  }

  /** `Planet.serialize`. */
  function SerializePlanet(id: nat, p: Planet): (j: Value)
    ensures j.JObj? && j.fields.Keys == {"id", "name", "description"}
    ensures j.fields["id"] == JInt(id) && j.fields["name"] == JStr(p.name)
    ensures j.fields["description"] == OptStr(p.description)
  {
    JObj(map["id" := JInt(id), "name" := JStr(p.name), "description" := OptStr(p.description)])
  }

  /** The projection of a character or planet loses nothing: the row and its
      id can be read back from it. */
  lemma SerializeCharacterInjective(id: nat, c: Character, id': nat, c': Character)
    requires SerializeCharacter(id, c) == SerializeCharacter(id', c')
    ensures id == id' && c == c'
  {
  }

  lemma SerializePlanetInjective(id: nat, p: Planet, id': nat, p': Planet)
    requires SerializePlanet(id, p) == SerializePlanet(id', p')
    ensures id == id' && p == p'
  {
  }

  /** `self.character` is truthy: the favorite's character row exists. */
  predicate ResolvesCharacter(f: Favorite, characters: map<nat, Character>)
    ensures ResolvesCharacter(f, characters) ==> f.characterId.Some? && f.characterId.value in characters.Keys
    ensures f.characterId.None? ==> !ResolvesCharacter(f, characters)
  {
    f.characterId.Some? && f.characterId.value in characters
  }

  /** `self.planet` is truthy: the favorite's planet row exists. */
  predicate ResolvesPlanet(f: Favorite, planets: map<nat, Planet>)
    ensures ResolvesPlanet(f, planets) ==> f.planetId.Some? && f.planetId.value in planets.Keys
    ensures f.planetId.None? ==> !ResolvesPlanet(f, planets)
  {
    f.planetId.Some? && f.planetId.value in planets
  }

  /** The `{"id", "name", "type"}` item of a favorite. */
  function Item(id: Value, name: Value, kind: Value): (j: Value)
    ensures j.JObj? && j.fields.Keys == {"id", "name", "type"}
    ensures j.fields["id"] == id && j.fields["name"] == name && j.fields["type"] == kind
  {
    JObj(map["id" := id, "name" := name, "type" := kind])
  }

  /** `Favorite.serialize`: the character is tried first, then the planet, and
      an all-null item stands in when neither resolves. */
  function SerializeFavorite(id: nat, f: Favorite, characters: map<nat, Character>, planets: map<nat, Planet>): (j: Value)
    ensures j.JObj? && j.fields.Keys == {"id", "user_id", "item"}
    ensures j.fields["id"] == JInt(id) && j.fields["user_id"] == JInt(f.userId)
    ensures var item := j.fields["item"];
      && item.JObj? && item.fields.Keys == {"id", "name", "type"}
      && (ResolvesCharacter(f, characters) ==>
            && item.fields["type"] == JStr("character")
            && item.fields["id"] == JInt(f.characterId.value)
            && item.fields["name"] == JStr(characters[f.characterId.value].name))
      && (!ResolvesCharacter(f, characters) && ResolvesPlanet(f, planets) ==>
            && item.fields["type"] == JStr("planet")
            && item.fields["id"] == JInt(f.planetId.value)
            && item.fields["name"] == JStr(planets[f.planetId.value].name))
      && (!ResolvesCharacter(f, characters) && !ResolvesPlanet(f, planets) ==>
            item.fields["id"] == item.fields["name"] == item.fields["type"] == JNull)
  {
    var item: Option<Value> :=
      if ResolvesCharacter(f, characters) then
        Some(Item(JInt(f.characterId.value), JStr(characters[f.characterId.value].name), JStr("character")))
      else if ResolvesPlanet(f, planets) then
        Some(Item(JInt(f.planetId.value), JStr(planets[f.planetId.value].name), JStr("planet")))
      else None;
    JObj(map[
      "id" := JInt(id),
      "user_id" := JInt(f.userId),
      "item" := if item.Some? then item.value else Item(JNull, JNull, JNull)])
  }

  /** In consistent tables a stored favorite is always tagged with its one
      target: the all-null item never appears. */
  lemma StoredFavoriteTagged(users: map<nat, User>, characters: map<nat, Character>, planets: map<nat, Planet>, favorites: map<nat, Favorite>, k: nat)
    requires Consistent(users, characters, planets, favorites) && k in favorites
    ensures var item := SerializeFavorite(k, favorites[k], characters, planets).fields["item"];
      && (favorites[k].characterId.Some? ==>
            item.fields["type"] == JStr("character") && item.fields["id"] == JInt(favorites[k].characterId.value))
      && (favorites[k].planetId.Some? ==>
            item.fields["type"] == JStr("planet") && item.fields["id"] == JInt(favorites[k].planetId.value))
      && item.fields["type"] != JNull
  {
  }

  /** The favorites of user `userId`, as a table of their own. */
  function FavoritesOf(favorites: Table<Favorite>, userId: nat): (t: Table<Favorite>)
    ensures t.next == favorites.next
    ensures forall k :: k in t.rows <==> k in favorites.rows && favorites.rows[k].userId == userId
    ensures forall k :: k in t.rows ==> t.rows[k] == favorites.rows[k]
  {
    Table(map k | k in favorites.rows && favorites.rows[k].userId == userId :: favorites.rows[k], favorites.next)
  }

  /** `[f.serialize() for f in Favorite.query.filter_by(user_id=userId).all()]`,
      which is also what `User.serialize` lists under "favorites". */
  function FavoriteList(favorites: Table<Favorite>, userId: nat, characters: map<nat, Character>, planets: map<nat, Planet>): (r: seq<Value>)
    ensures forall i :: 0 <= i < |r| ==> Field(r[i], "user_id") == Some(JInt(userId))
  {
    Project(FavoritesOf(favorites, userId), (k, f) => SerializeFavorite(k, f, characters, planets))
  }

  /** The favorite list holds exactly the favorites whose `user_id` is `userId`:
      a stored favorite's id appears in it if and only if it belongs to that user. */
  lemma FavoriteListExact(favorites: Table<Favorite>, userId: nat, characters: map<nat, Character>, planets: map<nat, Planet>, k: nat)
    requires favorites.Valid() && k in favorites.rows
    ensures favorites.rows[k].userId == userId <==>
      exists i :: 0 <= i < |FavoriteList(favorites, userId, characters, planets)| &&
        Field(FavoriteList(favorites, userId, characters, planets)[i], "id") == Some(JInt(k))
  {
    var mine := FavoritesOf(favorites, userId);
    var ser := (k, f) => SerializeFavorite(k, f, characters, planets);
    var r := FavoriteList(favorites, userId, characters, planets);
    assert r == Project(mine, ser);
    if favorites.rows[k].userId == userId {
      ProjectCovers(mine, ser, k);
    } else {
      forall i | 0 <= i < |r|
        ensures Field(r[i], "id") != Some(JInt(k))
      {
        var id := mine.Ids()[i];
        assert id in mine.rows;
        assert r[i] == SerializeFavorite(id, mine.rows[id], characters, planets);
        assert Field(r[i], "id") == Some(JInt(id));
      }
    }
  }

  /** `User.serialize`: id, username, email and the user's favorites. The
      password hash is not a member, and no top-level member holds its value
      unless it equals the username or the email. */
  function SerializeUser(id: nat, u: User, favorites: Table<Favorite>, characters: map<nat, Character>, planets: map<nat, Planet>): (j: Value)
    ensures j.JObj? && j.fields.Keys == {"id", "username", "email", "favorites"}
    ensures "password_hash" !in j.fields
    ensures j.fields["id"] == JInt(id) && j.fields["username"] == JStr(u.username) && j.fields["email"] == JStr(u.email)
    ensures j.fields["favorites"] == JArr(FavoriteList(favorites, id, characters, planets))
    ensures forall key :: key in j.fields && j.fields[key] == JStr(u.passwordHash) ==>
      u.passwordHash == u.username || u.passwordHash == u.email
  {
    JObj(map[
      "id" := JInt(id),
      "username" := JStr(u.username),
      "email" := JStr(u.email),
      "favorites" := JArr(FavoriteList(favorites, id, characters, planets))])
  }

  /** A user nobody's favorite points at serialises with an empty list. */
  lemma NoFavoritesSerializeEmpty(favorites: Table<Favorite>, id: nat, characters: map<nat, Character>, planets: map<nat, Planet>)
    requires forall k :: k in favorites.rows ==> favorites.rows[k].userId != id
    ensures FavoriteList(favorites, id, characters, planets) == []
  {
    var mine := FavoritesOf(favorites, id);
    assert mine.rows == map[];
    IdsBelowEmpty(mine.rows, mine.next);
    assert |Project(mine, (k, f) => SerializeFavorite(k, f, characters, planets))| == 0;
  }

  /** `[u.serialize() for u in User.query.all()]`. */
  function SerializeUsers(users: Table<User>, favorites: Table<Favorite>, characters: map<nat, Character>, planets: map<nat, Planet>): (r: seq<Value>)
    ensures |r| == |users.Ids()|
    ensures forall i :: 0 <= i < |r| ==> Field(r[i], "id") == Some(JInt(users.Ids()[i]))
  {
    Project(users, (id, u) => SerializeUser(id, u, favorites, characters, planets))
  }

  /** `[c.serialize() for c in Character.query.all()]`. */
  function SerializeCharacters(characters: Table<Character>): (r: seq<Value>)
    ensures |r| == |characters.Ids()|
    ensures forall i :: 0 <= i < |r| ==> Field(r[i], "id") == Some(JInt(characters.Ids()[i]))
  {
    Project(characters, SerializeCharacter)
  }

  /** `[p.serialize() for p in Planet.query.all()]`. */
  function SerializePlanets(planets: Table<Planet>): (r: seq<Value>)
    ensures |r| == |planets.Ids()|
    ensures forall i :: 0 <= i < |r| ==> Field(r[i], "id") == Some(JInt(planets.Ids()[i]))
  {
    Project(planets, SerializePlanet)
  }
}
