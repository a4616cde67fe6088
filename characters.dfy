/** The character directory: the `characters` table with `CharacterDB`
    (src/cogs/models/character_model.py) and the `users` table, whose only
    field is the active-character pointer (src/cogs/models/user_model.py). */
module Characters {
  import opened Common
  import opened Text

  /** One `characters` row; `rank` and `level` are nullable. */
  datatype Character = Character(
    id: int,
    userId: int,
    name: string,
    displayName: string,
    pictureUrl: string,
    npc: bool,
    rank: Option<int>,
    level: Option<int>)

  /** Keys are auto-incremented from 1 and every row carries its own key. */
  ghost predicate CharactersKeyed(chars: map<int, Character>, nextId: int) {
    && 1 <= nextId
    && forall id :: id in chars ==> 1 <= id < nextId && chars[id].id == id
  }

  /** No user has two characters of the same name. */
  predicate NamesUnique(chars: map<int, Character>) {
    forall i, j :: i in chars && j in chars && chars[i].userId == chars[j].userId && chars[i].name == chars[j].name ==> i == j
  }

  /** `query_all(user_id=...)` over keys below `n`, in key order. */
  function Owned(chars: map<int, Character>, userId: int, n: int): seq<Character>
    decreases n
  {
    if n <= 1 then []
    else Owned(chars, userId, n - 1) + (if n - 1 in chars && chars[n - 1].userId == userId then [chars[n - 1]] else [])
  }

  /** The rows a `filter_by(user_id=..., name=...)` query sees, in key order. */
  function Named(chars: map<int, Character>, userId: int, name: string, n: int): seq<Character>
    decreases n
  {
    if n <= 1 then []
    else Named(chars, userId, name, n - 1)
         + (if n - 1 in chars && chars[n - 1].userId == userId && chars[n - 1].name == name then [chars[n - 1]] else [])
  }

  lemma {:induction false} OwnedMembership(chars: map<int, Character>, userId: int, n: int, c: Character)
    requires forall id :: id in chars ==> chars[id].id == id
    ensures c in Owned(chars, userId, n) <==> 1 <= c.id < n && c.id in chars && chars[c.id] == c && c.userId == userId
    decreases n
  {
    if n > 1 {
      OwnedMembership(chars, userId, n - 1, c);
    }
  }

  lemma {:induction false} NamedMembership(chars: map<int, Character>, userId: int, name: string, n: int, c: Character)
    requires forall id :: id in chars ==> chars[id].id == id
    ensures c in Named(chars, userId, name, n) <==>
            1 <= c.id < n && c.id in chars && chars[c.id] == c && c.userId == userId && c.name == name
    decreases n
  {
    if n > 1 {
      NamedMembership(chars, userId, name, n - 1, c);
    }
  }

  /** Under unique names a name query sees at most one row. */
  lemma {:induction false} NamedAtMostOne(chars: map<int, Character>, userId: int, name: string, n: int)
    requires forall id :: id in chars ==> chars[id].id == id
    requires NamesUnique(chars)
    ensures |Named(chars, userId, name, n)| <= 1
    decreases n
  {
    if n > 1 {
      NamedAtMostOne(chars, userId, name, n - 1);
      var prefix := Named(chars, userId, name, n - 1);
      if n - 1 in chars && chars[n - 1].userId == userId && chars[n - 1].name == name && prefix != [] {
        NamedMembership(chars, userId, name, n - 1, prefix[0]);
        assert false;
      }
    }
  }

  /** `query_one(user_id=..., name=...)`: `.one()` yields None for no row,
      the row for one, and raises for several. */
  function FindNamed(chars: map<int, Character>, nextId: int, userId: int, name: string): Result<Option<Character>> {
    var found := Named(chars, userId, name, nextId);
    if found == [] then Ok(None)
    else if |found| == 1 then Ok(Some(found[0]))
    else Err(MultipleResultsFound)
  }

  /** With unique names the lookup never raises, and finds a row exactly
      when one of that user's characters has that name. */
  lemma FindNamedExactly(chars: map<int, Character>, nextId: int, userId: int, name: string)
    requires CharactersKeyed(chars, nextId) && NamesUnique(chars)
    ensures FindNamed(chars, nextId, userId, name).Ok?
    ensures FindNamed(chars, nextId, userId, name).value.Some? <==>
            exists id :: id in chars && chars[id].userId == userId && chars[id].name == name
    ensures FindNamed(chars, nextId, userId, name).value.Some? ==>
            var c := FindNamed(chars, nextId, userId, name).value.value;
            c.id in chars && chars[c.id] == c && c.userId == userId && c.name == name
  {
    NamedAtMostOne(chars, userId, name, nextId);
    var found := Named(chars, userId, name, nextId);
    if found != [] {
      NamedMembership(chars, userId, name, nextId, found[0]);
    } else {
      forall id | id in chars && chars[id].userId == userId && chars[id].name == name ensures false {
        NamedMembership(chars, userId, name, nextId, chars[id]);
      }
    }
  }

  /** `user.active_char` is falsy: NULL or 0. */
  predicate Unset(pointer: Option<int>) {
    pointer.None? || pointer.value == 0
  }

  /** What `query_active_char(user_id)` returns: the character the pointer
      names; None when the pointer is unset or dangling; an attribute error
      when the user has no record. */
  function ActiveChar(chars: map<int, Character>, users: map<int, Option<int>>, userId: int): Result<Option<Character>> {
    if userId !in users then Err(AttributeError)
    else if Unset(users[userId]) then Ok(None)
    else if users[userId].value in chars then Ok(Some(chars[users[userId].value]))
    else Ok(None)
  }

  /** The users table after `query_active_char(user_id)`: a dangling pointer
      is cleared, nothing else changes. */
  function ActiveCleared(chars: map<int, Character>, users: map<int, Option<int>>, userId: int): map<int, Option<int>> {
    if userId in users && !Unset(users[userId]) && users[userId].value !in chars then users[userId := None]
    else users
  }

  /** After the query the user's pointer is unset or names a character, the
      returned character is the one it names, and no other user is touched. */
  lemma ActiveQueryRepairs(chars: map<int, Character>, users: map<int, Option<int>>, userId: int)
    requires forall id :: id in chars ==> chars[id].id == id
    ensures var users' := ActiveCleared(chars, users, userId);
            && users'.Keys == users.Keys
            && (forall u :: u in users && u != userId ==> users'[u] == users[u])
            && (userId in users' ==> Unset(users'[userId]) || users'[userId].value in chars)
            && (userId in users' && !Unset(users[userId]) && users[userId].value in chars ==> users'[userId] == users[userId])
    ensures var r := ActiveChar(chars, users, userId);
            && (r.Err? <==> userId !in users)
            && (r.Ok? && r.value.Some? <==> userId in users && !Unset(users[userId]) && users[userId].value in chars)
            && (r.Ok? && r.value.Some? ==> r.value.value.id == users[userId].value && r.value.value in chars.Values)
  {
  }

  /** Asking twice gives the same answer, and the second query changes nothing. */
  lemma ActiveQueryIdempotent(chars: map<int, Character>, users: map<int, Option<int>>, userId: int)
    ensures var users' := ActiveCleared(chars, users, userId);
            && ActiveChar(chars, users', userId) == ActiveChar(chars, users, userId)
            && ActiveCleared(chars, users', userId) == users'
  {
  }

  /** What `CharacterDB.create_new` reports: the duplicate check comes first,
      then the missing user record is an attribute error. */
  function CreateOutcome(chars: map<int, Character>, nextId: int, users: map<int, Option<int>>, userId: int, name: string): Result<int> {
    if Named(chars, userId, name, nextId) != [] then
      Err(DBError("Character \"" + name + "\" already exists for user " + IntToString(userId)))
    else if userId !in users then Err(AttributeError)
    else Ok(nextId)
  }

  /** A successful `create_new` keeps `(user_id, name)` unique, and it fails
      with DBError exactly when the pair is already taken. */
  lemma CreateKeepsNamesUnique(chars: map<int, Character>, nextId: int, users: map<int, Option<int>>, c: Character)
    requires CharactersKeyed(chars, nextId) && NamesUnique(chars) && c.id == nextId
    ensures CreateOutcome(chars, nextId, users, c.userId, c.name).Ok? ==> NamesUnique(chars[nextId := c])
    ensures CreateOutcome(chars, nextId, users, c.userId, c.name).Err? &&
            CreateOutcome(chars, nextId, users, c.userId, c.name).error.DBError? <==>
            exists id :: id in chars && chars[id].userId == c.userId && chars[id].name == c.name
  {
    var found := Named(chars, c.userId, c.name, nextId);
    if found != [] {
      assert found[0] in found;
      NamedMembership(chars, c.userId, c.name, nextId, found[0]);
    } else {
      forall id | id in chars && chars[id].userId == c.userId && chars[id].name == c.name ensures false {
        NamedMembership(chars, c.userId, c.name, nextId, chars[id]);
      }
    }
  }

  /** The `characters` and `users` tables. */
  class Directory {
    var characters: map<int, Character>
    var nextId: int
    /** The `users` table: user id to the `active_char` column. */
    var users: map<int, Option<int>>

    ghost predicate Valid()
      reads this
    {
      CharactersKeyed(characters, nextId)
    }

    constructor ()
      ensures Valid() && characters == map[] && nextId == 1 && users == map[]
    {
      characters := map[];
      nextId := 1;
      users := map[];
    }

    /** `CharacterDB.query_active_char`: clears a dangling pointer as a side
        effect. */
    method QueryActiveChar(userId: int) returns (r: Result<Option<Character>>)
      requires Valid()
      modifies this
      ensures Valid() && characters == old(characters) && nextId == old(nextId)
      ensures r == ActiveChar(old(characters), old(users), userId)
      ensures users == ActiveCleared(old(characters), old(users), userId)
    {
      if userId !in users {
        return Err(AttributeError);
      }
      var pointer := users[userId];
      if Unset(pointer) {
        return Ok(None);
      }
      if pointer.value in characters {
        return Ok(Some(characters[pointer.value]));
      }
      users := users[userId := None];
      return Ok(None);
    }

    /** `CharacterDB.create_new`: refuses a duplicate `(user_id, name)`,
        otherwise stores exactly the given fields under a fresh key. */
    method CreateNew(userId: int, name: string, displayName: string, pictureUrl: string, npc: bool,
                     rank: Option<int> := None, level: Option<int> := None)
      returns (r: Result<int>)
      requires Valid()
      modifies this
      ensures Valid() && users == old(users)
      ensures r == CreateOutcome(old(characters), old(nextId), old(users), userId, name)
      ensures r.Err? ==> characters == old(characters) && nextId == old(nextId)
      ensures r.Ok? ==>
        && nextId == old(nextId) + 1
        && characters == old(characters)[r.value := Character(r.value, userId, name, displayName, pictureUrl, npc, rank, level)]
      ensures NamesUnique(old(characters)) ==> NamesUnique(characters)
    {
      if Named(characters, userId, name, nextId) != [] {
        return Err(DBError("Character \"" + name + "\" already exists for user " + IntToString(userId)));
      }
      if userId !in users {
        return Err(AttributeError);
      }
      var id := nextId;
      ghost var c := Character(id, userId, name, displayName, pictureUrl, npc, rank, level);
      if NamesUnique(characters) {
        CreateKeepsNamesUnique(characters, nextId, users, c);
      }
      characters := characters[id := Character(id, userId, name, displayName, pictureUrl, npc, rank, level)];
      nextId := nextId + 1;
      r := Ok(id);
    }

    /** The `user_id` setter. */
    method SetUserId(id: int, value: int)
      requires Valid() && id in characters
      modifies this
      ensures Valid() && nextId == old(nextId) && users == old(users)
      ensures characters == old(characters)[id := old(characters)[id].(userId := value)]
    {
      characters := characters[id := characters[id].(userId := value)];
    }

    /** The `name` setter. */
    method SetName(id: int, value: string)
      requires Valid() && id in characters
      modifies this
      ensures Valid() && nextId == old(nextId) && users == old(users)
      ensures characters == old(characters)[id := old(characters)[id].(name := value)]
    {
      characters := characters[id := characters[id].(name := value)];
    }

    /** The `display_name` setter. */
    method SetDisplayName(id: int, value: string)
      requires Valid() && id in characters
      modifies this
      ensures Valid() && nextId == old(nextId) && users == old(users)
      ensures characters == old(characters)[id := old(characters)[id].(displayName := value)]
    {
      characters := characters[id := characters[id].(displayName := value)];
    }

    /** The `picture_url` setter. */
    method SetPictureUrl(id: int, value: string)
      requires Valid() && id in characters
      modifies this
      ensures Valid() && nextId == old(nextId) && users == old(users)
      ensures characters == old(characters)[id := old(characters)[id].(pictureUrl := value)]
    {
      characters := characters[id := characters[id].(pictureUrl := value)];
    }

    /** The `npc_status` setter. */
    method SetNpcStatus(id: int, value: bool)
      requires Valid() && id in characters
      modifies this
      ensures Valid() && nextId == old(nextId) && users == old(users)
      ensures characters == old(characters)[id := old(characters)[id].(npc := value)]
    {
      characters := characters[id := characters[id].(npc := value)];
    }

    /** The `rank` setter. */
    method SetRank(id: int, value: Option<int>)
      requires Valid() && id in characters
      modifies this
      ensures Valid() && nextId == old(nextId) && users == old(users)
      ensures characters == old(characters)[id := old(characters)[id].(rank := value)]
    {
      characters := characters[id := characters[id].(rank := value)];
    }

    /** The `level` setter. */
    method SetLevel(id: int, value: Option<int>)
      requires Valid() && id in characters
      modifies this
      ensures Valid() && nextId == old(nextId) && users == old(users)
      ensures characters == old(characters)[id := old(characters)[id].(level := value)]
    {
      characters := characters[id := characters[id].(level := value)];
    }

    /** The `active_char` setter of a user record. */
    method SetActiveChar(userId: int, value: Option<int>)
      requires Valid() && userId in users
      modifies this
      ensures Valid() && characters == old(characters) && nextId == old(nextId)
      ensures users == old(users)[userId := value]
    {
      users := users[userId := value];
    }
  }
}
