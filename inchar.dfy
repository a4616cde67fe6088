/** The `InChar` cog of src/cogs/inchar.py over the character directory:
    switching the active character, choosing who speaks in
    `write_in_character`, the guard of `char edit`, the picture check of
    `char add`, and the bulk `set rank` / `set npc` commands. */
module InChar {
  import opened Common
  import opened Text
  import opened Characters

  /* ---------------------------------------------------------------------- */
  /* char_base                                                               */
  /* ---------------------------------------------------------------------- */

  /** `char_base(charname)`: the reply and the users table afterwards. No
      name clears the active character; a name selects that character of the
      caller; an unknown name is refused. A caller without a user record
      fails when the pointer is assigned. */
  function CharBaseSpec(chars: map<int, Character>, nextId: int, users: map<int, Option<int>>,
                        userId: int, charname: Option<string>): (Result<string>, map<int, Option<int>>)
  {
    if charname.None? then
      if userId !in users then (Err(AttributeError), users)
      else (Ok("Active Character: None"), users[userId := None])
    else match FindNamed(chars, nextId, userId, charname.value)
      case Err(e) => (Err(e), users)
      case Ok(None) => (Err(BadArgument("Character " + charname.value + " not found")), users)
      case Ok(Some(c)) =>
        if userId !in users then (Err(AttributeError), users)
        else (Ok("Active Character: " + charname.value), users[userId := Some(c.id)])
  }

  /** With a name, the switch succeeds exactly when the caller has a record
      and a character of that name, and then points at that character; an
      unknown name leaves every pointer as it was; no other user changes. */
  lemma CharBaseSwitches(chars: map<int, Character>, nextId: int, users: map<int, Option<int>>,
                         userId: int, name: string)
    requires CharactersKeyed(chars, nextId) && NamesUnique(chars)
    ensures var (r, users') := CharBaseSpec(chars, nextId, users, userId, Some(name));
            && (r.Ok? <==> userId in users && exists id :: id in chars && chars[id].userId == userId && chars[id].name == name)
            && (r.Ok? ==> users'.Keys == users.Keys && users'[userId].Some?
                          && var id := users'[userId].value;
                             id in chars && chars[id].userId == userId && chars[id].name == name)
            && (r.Err? ==> users' == users)
            && (!(exists id :: id in chars && chars[id].userId == userId && chars[id].name == name) ==>
                  r == Err(BadArgument("Character " + name + " not found")))
            && (forall u :: u in users && u != userId ==> u in users' && users'[u] == users[u])
  {
    FindNamedExactly(chars, nextId, userId, name);
  }

  /** Without a name, the caller's pointer is cleared. */
  lemma CharBaseClears(chars: map<int, Character>, nextId: int, users: map<int, Option<int>>, userId: int)
    ensures var (r, users') := CharBaseSpec(chars, nextId, users, userId, None);
            && (r.Ok? <==> userId in users)
            && (r.Ok? ==> users' == users[userId := None])
            && (r.Err? ==> users' == users)
  {
  }

  /** `char_base`. */
  method CharBase(dir: Directory, userId: int, charname: Option<string>) returns (r: Result<string>)
    requires dir.Valid()
    modifies dir
    ensures dir.Valid() && dir.characters == old(dir.characters) && dir.nextId == old(dir.nextId)
    ensures (r, dir.users) == CharBaseSpec(old(dir.characters), old(dir.nextId), old(dir.users), userId, charname)
  {
    if charname.None? {
      if userId !in dir.users {
        return Err(AttributeError);
      }
      dir.SetActiveChar(userId, None);
      return Ok("Active Character: None");
    }
    var found := FindNamed(dir.characters, dir.nextId, userId, charname.value);
    if found.Err? {
      return Err(found.error);
    }
    if found.value.None? {
      return Err(BadArgument("Character " + charname.value + " not found"));
    }
    if userId !in dir.users {
      return Err(AttributeError);
    }
    dir.SetActiveChar(userId, Some(found.value.value.id));
    return Ok("Active Character: " + charname.value);
  }

  /* ---------------------------------------------------------------------- */
  /* write_in_character                                                      */
  /* ---------------------------------------------------------------------- */

  /** `character.name.lower().startswith(charname.lower())`. */
  predicate Prefixed(c: Character, word: string) {
    StartsWith(LowerStr(c.name), LowerStr(word))
  }

  /** The first listed character the word is a prefix of. */
  function FirstPrefixed(cs: seq<Character>, word: string): Option<nat> {
    if cs == [] then None
    else if Prefixed(cs[0], word) then Some(0)
    else match FirstPrefixed(cs[1..], word)
      case None => None
      case Some(i) => Some(i + 1)
  }

  lemma {:induction false} FirstPrefixedExactly(cs: seq<Character>, word: string)
    ensures FirstPrefixed(cs, word).None? <==> forall j :: 0 <= j < |cs| ==> !Prefixed(cs[j], word)
    ensures FirstPrefixed(cs, word).Some? ==>
              var i := FirstPrefixed(cs, word).value;
              i < |cs| && Prefixed(cs[i], word) && forall j :: 0 <= j < i ==> !Prefixed(cs[j], word)
  {
    if cs != [] {
      FirstPrefixedExactly(cs[1..], word);
      if !Prefixed(cs[0], word) {
        forall j | 1 <= j < |cs| ensures cs[j] == cs[1..][j - 1] { }
      }
    }
  }

  /** Who speaks in `write_in_character(word, text)`, and the text posted:
      the first of the caller's characters whose name starts with the word,
      case-insensitively; otherwise the active character, with the word and
      a space put back in front of the text; None when nothing is posted. */
  function Speaker(chars: map<int, Character>, nextId: int, users: map<int, Option<int>>,
                   userId: int, word: string, text: string): Option<(Character, string)>
  {
    var owned := Owned(chars, userId, nextId);
    if userId !in users || owned == [] then None
    else match FirstPrefixed(owned, word)
      case Some(i) => if i < |owned| then Some((owned[i], text)) else None
      case None =>
        var p := users[userId];
        if p.None? || p.value !in chars then None
        else Some((chars[p.value], word + " " + text))
  }

  /** The choice: a character of the caller whose name the word starts, and
      no earlier one, with the text unchanged; or, when none matches, the
      active character, with the word restored. Nothing is posted for a
      caller without a record or without characters. */
  lemma SpeakerChoice(chars: map<int, Character>, nextId: int, users: map<int, Option<int>>,
                      userId: int, word: string, text: string)
    requires CharactersKeyed(chars, nextId)
    ensures var owned := Owned(chars, userId, nextId);
            var r := Speaker(chars, nextId, users, userId, word, text);
            && (userId !in users || owned == [] ==> r.None?)
            && (r.Some? ==>
                  || (exists i :: 0 <= i < |owned| && r.value.0 == owned[i] && Prefixed(owned[i], word)
                        && (forall j :: 0 <= j < i ==> !Prefixed(owned[j], word)) && r.value.1 == text)
                  || ((forall j :: 0 <= j < |owned| ==> !Prefixed(owned[j], word))
                        && users[userId] == Some(r.value.0.id) && r.value.1 == word + " " + text))
            && (userId in users && owned != [] && (exists j :: 0 <= j < |owned| && Prefixed(owned[j], word)) ==> r.Some?)
  {
    var owned := Owned(chars, userId, nextId);
    FirstPrefixedExactly(owned, word);
    if userId in users && owned != [] {
      var r := Speaker(chars, nextId, users, userId, word, text);
      match FirstPrefixed(owned, word)
      case Some(i) =>
        assert r.value.0 == owned[i];
      case None =>
        var p := users[userId];
        if p.Some? && p.value in chars {
          assert chars[p.value].id == p.value;
        }
    }
  }

  /** A speaker chosen by name is one of the caller's own characters and
      speaks the text unchanged. */
  lemma SpeakerByNameIsOwn(chars: map<int, Character>, nextId: int, users: map<int, Option<int>>,
                           userId: int, word: string, text: string)
    requires CharactersKeyed(chars, nextId) && userId in users
    requires FirstPrefixed(Owned(chars, userId, nextId), word).Some?
    ensures Speaker(chars, nextId, users, userId, word, text).Some?
    ensures var (c, t) := Speaker(chars, nextId, users, userId, word, text).value;
            c.id in chars && chars[c.id] == c && c.userId == userId && t == text
  {
    var owned := Owned(chars, userId, nextId);
    var i := FirstPrefixed(owned, word).value;
    FirstPrefixedExactly(owned, word);
    assert owned[i] in owned;
    OwnedMembership(chars, userId, nextId, owned[i]);
  }

  /** `write_in_character`: the search loop stops at the first match. */
  method WriteInCharacter(dir: Directory, userId: int, word: string, text: string) returns (r: Option<(Character, string)>)
    requires dir.Valid()
    ensures r == Speaker(dir.characters, dir.nextId, dir.users, userId, word, text)
  {
    var chars := Owned(dir.characters, userId, dir.nextId);
    if userId !in dir.users || chars == [] {
      return None;
    }
    FirstPrefixedExactly(chars, word);
    var selected: Option<nat> := None;
    var i := 0;
    while i < |chars|
      invariant 0 <= i <= |chars|
      invariant selected.None? ==> forall j :: 0 <= j < i ==> !Prefixed(chars[j], word)
      invariant selected.Some? ==> selected == FirstPrefixed(chars, word)
    {
      if Prefixed(chars[i], word) {
        FirstPrefixedAt(chars, word, i);
        selected := Some(i);
        break;
      }
      i := i + 1;
    }
    if selected.Some? {
      return Some((chars[selected.value], text));
    }
    var p := dir.users[userId];
    if p.None? || p.value !in dir.characters {
      return None;
    }
    return Some((dir.characters[p.value], word + " " + text));
  }

  lemma FirstPrefixedAt(cs: seq<Character>, word: string, i: int)
    requires 0 <= i < |cs| && Prefixed(cs[i], word)
    requires forall j :: 0 <= j < i ==> !Prefixed(cs[j], word)
    ensures FirstPrefixed(cs, word) == Some(i)
  {
    FirstPrefixedExactly(cs, word);
    if FirstPrefixed(cs, word).Some? {
      var k := FirstPrefixed(cs, word).value;
      assert !(k < i) && !(i < k);
    }
  }

  /* ---------------------------------------------------------------------- */
  /* char_edit                                                               */
  /* ---------------------------------------------------------------------- */

  /** The value handed to the edit: an int for an all-digit string. */
  datatype EditValue = Number(n: nat) | Word(s: string)

  /** `attribute.lower() in ('id', 'rank')`. */
  predicate Protected(attribute: string) {
    LowerStr(attribute) == "id" || LowerStr(attribute) == "rank"
  }

  /** Backticks removed, then `int(value)` when `value.isdigit()`. */
  function Coerce(value: string): EditValue {
    var v := Replace(value, "`", []);
    if |v| > 0 && AllDigits(v) then Number(DigitsValue(v)) else Word(v)
  }

  /** The coerced value holds no backtick and no other new character; it is
      a number exactly when the stripped text is a non-empty digit string. */
  lemma CoerceStrips(value: string)
    ensures Coerce(value).Word? ==> '`' !in Coerce(value).s && forall x :: x in Coerce(value).s ==> x in value
    ensures Coerce(value).Number? <==> var v := Replace(value, "`", []); |v| > 0 && AllDigits(v)
    ensures '`' !in value && !(|value| > 0 && AllDigits(value)) ==> Coerce(value) == Word(value)
  {
    ReplaceDropsChar(value, '`');
  }

  /** `char_edit`: None for the silent return on a protected attribute;
      otherwise the error it raises. A missing character is a BadArgument;
      for a found one the call `char.edit(...)` fails, since Character has no
      `edit` method. */
  function CharEditSpec(chars: map<int, Character>, nextId: int, userId: int, charName: string, attribute: string): Option<Failure> {
    if Protected(attribute) then None
    else match FindNamed(chars, nextId, userId, charName)
      case Err(e) => Some(e)
      case Ok(None) => Some(BadArgument("No Character with name " + charName + " found"))
      case Ok(Some(_)) => Some(AttributeError)
  }

  /** "id" and "rank" are refused in any letter case, before any lookup. */
  lemma EditGuardIgnoresCase(chars: map<int, Character>, nextId: int, userId: int, charName: string, attribute: string)
    ensures Protected(attribute) <==> Protected(LowerStr(attribute))
    ensures Protected(attribute) ==> CharEditSpec(chars, nextId, userId, charName, attribute).None?
    ensures Protected("ID") && Protected("Rank") && !Protected("name")
  {
    LowerIdempotent(attribute);
    assert LowerStr("ID") == "id";
    assert LowerStr("Rank") == "rank";
    assert LowerStr("name")[0] == 'n';
  }

  /** An unprotected attribute always ends in an error: BadArgument when the
      caller has no character of that name. */
  lemma EditAlwaysFails(chars: map<int, Character>, nextId: int, userId: int, charName: string, attribute: string)
    requires CharactersKeyed(chars, nextId) && NamesUnique(chars) && !Protected(attribute)
    ensures CharEditSpec(chars, nextId, userId, charName, attribute).Some?
    ensures CharEditSpec(chars, nextId, userId, charName, attribute) == Some(AttributeError) <==>
            exists id :: id in chars && chars[id].userId == userId && chars[id].name == charName
  {
    FindNamedExactly(chars, nextId, userId, charName);
  }

  /* ---------------------------------------------------------------------- */
  /* addchar                                                                 */
  /* ---------------------------------------------------------------------- */

  /** What `urlparse` gives; parsing itself is not modelled. */
  datatype Url = Url(scheme: string, netloc: string, path: string)

  predicate PictureType(path: string) {
    var p := LowerStr(path);
    EndsWith(p, ".jpg") || EndsWith(p, ".jpeg") || EndsWith(p, ".png")
  }

  /** The picture check of `addchar`: the error it raises, if any. */
  function PictureCheck(url: string, parsed: Url): Option<Failure> {
    if parsed.scheme == [] && parsed.netloc == [] then Some(BadArgument("Sorry - >" + url + "< is an invalid picture URL"))
    else if !PictureType(parsed.path) then Some(BadArgument("Please only use `.jpg .jpeg .png`"))
    else None
  }

  /** The file type is judged case-insensitively, and only a URL with a
      scheme or a host can pass. */
  lemma PictureCheckIgnoresCase(url: string, parsed: Url)
    ensures PictureCheck(url, parsed) == PictureCheck(url, parsed.(path := LowerStr(parsed.path)))
    ensures PictureCheck(url, parsed).None? ==> parsed.scheme != [] || parsed.netloc != []
    ensures PictureCheck(url, parsed).None? <==>
            (parsed.scheme != [] || parsed.netloc != []) && PictureType(parsed.path)
  {
    LowerIdempotent(parsed.path);
  }

  /** `addchar`: the picture check, then `create_new`, whose DBError is
      sent back as the reply. */
  method AddChar(dir: Directory, author: int, name: string, displayName: string, url: string, parsed: Url, npc: Option<string>)
    returns (r: Result<string>)
    requires dir.Valid()
    modifies dir
    ensures dir.Valid() && dir.users == old(dir.users)
    ensures PictureCheck(url, parsed).Some? ==>
              r == Err(PictureCheck(url, parsed).value) && dir.characters == old(dir.characters) && dir.nextId == old(dir.nextId)
    ensures PictureCheck(url, parsed).None? ==>
              var out := CreateOutcome(old(dir.characters), old(dir.nextId), old(dir.users), author, name);
              && (out.Err? ==> dir.characters == old(dir.characters) && dir.nextId == old(dir.nextId)
                               && r == if out.error.DBError? then Ok(out.error.message) else Err(out.error))
              && (out.Ok? ==> r == Ok("Character " + name + " created successfully!")
                              && dir.characters == old(dir.characters)[out.value :=
                                   Character(out.value, author, name, displayName, url, npc.Some? && npc.value != [], None, None)])
    ensures NamesUnique(old(dir.characters)) ==> NamesUnique(dir.characters)
  {
    var check := PictureCheck(url, parsed);
    if check.Some? {
      return Err(check.value);
    }
    var created := dir.CreateNew(author, name, displayName, url, npc.Some? && npc.value != []);
    if created.Err? {
      if created.error.DBError? {
        return Ok(created.error.message);
      }
      return Err(created.error);
    }
    return Ok("Character " + name + " created successfully!");
  }

  /* ---------------------------------------------------------------------- */
  /* set_rank / set_npc                                                      */
  /* ---------------------------------------------------------------------- */

  /** A Discord role: its id is stored as the rank. */
  datatype Role = Role(id: int, name: string)

  function NotFound(id: int): string {
    "Character " + IntToString(id) + " not found"
  }

  function RankSet(id: int, role: Role): string {
    "Rank of character " + IntToString(id) + " set to " + role.name
  }

  function NpcSet(id: int, npc: bool): string {
    "NPC status of character " + IntToString(id) + " set to " + (if npc then "True" else "False")
  }

  /** The report line of one listed id under `set_rank` with a role. */
  function RankReport(chars: map<int, Character>, id: int, role: Role): string {
    if id in chars then RankSet(id, role) else NotFound(id)
  }

  /** The report line of one listed id under `set_npc`. */
  function NpcReport(chars: map<int, Character>, id: int, npc: bool): string {
    if id in chars then NpcSet(id, npc) else NotFound(id)
  }

  /** The table and report after `set_rank(ids, rank)`; without a role the
      first existing id fails on `rank.id`, after the earlier ids were
      handled. */
  function RankSpec(chars: map<int, Character>, ids: seq<int>, rank: Option<Role>): (map<int, Character>, Result<seq<string>>)
  {
    if ids == [] then (chars, Ok([]))
    else
      var (c, r) := RankSpec(chars, ids[..|ids| - 1], rank);
      var id := ids[|ids| - 1];
      if r.Err? then (c, r)
      else if id !in c then (c, Ok(r.value + [NotFound(id)]))
      else if rank.None? then (c, Err(AttributeError))
      else (c[id := c[id].(rank := Some(rank.value.id))], Ok(r.value + [RankSet(id, rank.value)]))
  }

  /** With a role, every listed id that exists gets its rank, nothing else
      changes, and the report has one line per listed id saying which. */
  lemma RankSpecOutcome(chars: map<int, Character>, ids: seq<int>, role: Role)
    ensures RankSpec(chars, ids, Some(role)).1.Ok?
    ensures |RankSpec(chars, ids, Some(role)).1.value| == |ids|
    ensures RankSpec(chars, ids, Some(role)).0.Keys == chars.Keys
    ensures forall id :: id in chars ==>
              RankSpec(chars, ids, Some(role)).0[id] == if id in ids then chars[id].(rank := Some(role.id)) else chars[id]
    ensures forall i :: 0 <= i < |ids| ==>
              RankSpec(chars, ids, Some(role)).1.value[i] == RankReport(chars, ids[i], role)
  {
    RankShape(chars, ids, role);
    forall id | id in chars
      ensures RankSpec(chars, ids, Some(role)).0[id] == if id in ids then chars[id].(rank := Some(role.id)) else chars[id]
    {
      RankValue(chars, ids, role, id);
    }
    forall i | 0 <= i < |ids|
      ensures RankSpec(chars, ids, Some(role)).1.value[i] == RankReport(chars, ids[i], role)
    {
      RankLine(chars, ids, role, i);
    }
  }

  lemma {:induction false} RankShape(chars: map<int, Character>, ids: seq<int>, role: Role)
    ensures RankSpec(chars, ids, Some(role)).1.Ok?
    ensures |RankSpec(chars, ids, Some(role)).1.value| == |ids|
    ensures RankSpec(chars, ids, Some(role)).0.Keys == chars.Keys
  {
    if ids != [] {
      RankShape(chars, ids[..|ids| - 1], role);
    }
  }

  lemma {:induction false} RankValue(chars: map<int, Character>, ids: seq<int>, role: Role, id: int)
    requires id in chars
    ensures id in RankSpec(chars, ids, Some(role)).0
    ensures RankSpec(chars, ids, Some(role)).0[id] == if id in ids then chars[id].(rank := Some(role.id)) else chars[id]
  {
    RankShape(chars, ids, role);
    if ids != [] {
      var init := ids[..|ids| - 1];
      RankShape(chars, init, role);
      RankValue(chars, init, role, id);
      assert ids == init + [ids[|ids| - 1]];
    }
  }

  lemma {:induction false} RankLine(chars: map<int, Character>, ids: seq<int>, role: Role, i: int)
    requires 0 <= i < |ids|
    ensures RankSpec(chars, ids, Some(role)).1.Ok? && |RankSpec(chars, ids, Some(role)).1.value| == |ids|
    ensures RankSpec(chars, ids, Some(role)).1.value[i] == RankReport(chars, ids[i], role)
  {
    var init := ids[..|ids| - 1];
    RankShape(chars, init, role);
    RankLinesSnoc(chars, ids, role);
    var r0 := RankSpec(chars, init, Some(role)).1.value;
    var lines := RankSpec(chars, ids, Some(role)).1.value;
    assert lines == r0 + [RankReport(chars, ids[|ids| - 1], role)];
    if i < |init| {
      RankLine(chars, init, role, i);
      assert ids[i] == init[i];
      assert lines[i] == r0[i];
    } else {
      assert i == |r0| && ids[i] == ids[|ids| - 1];
      assert lines[|r0|] == RankReport(chars, ids[|ids| - 1], role);
    }
  }

  /** The report of one more id is the earlier report and that id's line. */
  lemma RankLinesSnoc(chars: map<int, Character>, ids: seq<int>, role: Role)
    requires ids != []
    ensures var last := ids[|ids| - 1];
            RankSpec(chars, ids[..|ids| - 1], Some(role)).1.Ok? &&
            RankSpec(chars, ids, Some(role)).1
            == Ok(RankSpec(chars, ids[..|ids| - 1], Some(role)).1.value
                  + [RankReport(chars, last, role)])
  {
    RankShape(chars, ids[..|ids| - 1], role);
  }

  /** Without a role the command completes only when no listed id exists,
      and an id that fails has left the table as it was. */
  lemma {:induction false} RankWithoutRole(chars: map<int, Character>, ids: seq<int>)
    ensures var (c, r) := RankSpec(chars, ids, None);
            && c == chars
            && (r.Ok? <==> forall i :: 0 <= i < |ids| ==> ids[i] !in chars)
            && (r.Err? ==> r.error == AttributeError)
  {
    if ids != [] {
      var init := ids[..|ids| - 1];
      RankWithoutRole(chars, init);
      assert forall i :: 0 <= i < |init| ==> init[i] == ids[i];
    }
  }

  /** The table and report after `set_npc(ids, npc_status)`. */
  function NpcSpec(chars: map<int, Character>, ids: seq<int>, npc: bool): (map<int, Character>, seq<string>)
  {
    if ids == [] then (chars, [])
    else
      var (c, r) := NpcSpec(chars, ids[..|ids| - 1], npc);
      var id := ids[|ids| - 1];
      if id !in c then (c, r + [NotFound(id)])
      else (c[id := c[id].(npc := npc)], r + [NpcSet(id, npc)])
  }

  /** Every listed id that exists gets the flag, nothing else changes, and
      the report has one line per listed id saying which. */
  lemma NpcSpecOutcome(chars: map<int, Character>, ids: seq<int>, npc: bool)
    ensures |NpcSpec(chars, ids, npc).1| == |ids|
    ensures NpcSpec(chars, ids, npc).0.Keys == chars.Keys
    ensures forall id :: id in chars ==>
              NpcSpec(chars, ids, npc).0[id] == if id in ids then chars[id].(npc := npc) else chars[id]
    ensures forall i :: 0 <= i < |ids| ==>
              NpcSpec(chars, ids, npc).1[i] == NpcReport(chars, ids[i], npc)
  {
    NpcShape(chars, ids, npc);
    forall id | id in chars
      ensures NpcSpec(chars, ids, npc).0[id] == if id in ids then chars[id].(npc := npc) else chars[id]
    {
      NpcValue(chars, ids, npc, id);
    }
    forall i | 0 <= i < |ids|
      ensures NpcSpec(chars, ids, npc).1[i] == NpcReport(chars, ids[i], npc)
    {
      NpcLine(chars, ids, npc, i);
    }
  }

  lemma {:induction false} NpcShape(chars: map<int, Character>, ids: seq<int>, npc: bool)
    ensures |NpcSpec(chars, ids, npc).1| == |ids|
    ensures NpcSpec(chars, ids, npc).0.Keys == chars.Keys
  {
    if ids != [] {
      NpcShape(chars, ids[..|ids| - 1], npc);
    }
  }

  lemma {:induction false} NpcValue(chars: map<int, Character>, ids: seq<int>, npc: bool, id: int)
    requires id in chars
    ensures id in NpcSpec(chars, ids, npc).0
    ensures NpcSpec(chars, ids, npc).0[id] == if id in ids then chars[id].(npc := npc) else chars[id]
  {
    NpcShape(chars, ids, npc);
    if ids != [] {
      var init := ids[..|ids| - 1];
      NpcShape(chars, init, npc);
      NpcValue(chars, init, npc, id);
      assert ids == init + [ids[|ids| - 1]];
    }
  }

  lemma {:induction false} NpcLine(chars: map<int, Character>, ids: seq<int>, npc: bool, i: int)
    requires 0 <= i < |ids|
    ensures |NpcSpec(chars, ids, npc).1| == |ids|
    ensures NpcSpec(chars, ids, npc).1[i] == NpcReport(chars, ids[i], npc)
  {
    var init := ids[..|ids| - 1];
    var lines := NpcSpec(chars, ids, npc).1;
    var r0 := NpcSpec(chars, init, npc).1;
    NpcShape(chars, init, npc);
    NpcLinesSnoc(chars, ids, npc);
    assert lines == r0 + [NpcReport(chars, ids[|ids| - 1], npc)];
    if i < |init| {
      NpcLine(chars, init, npc, i);
      assert ids[i] == init[i];
      assert lines[i] == r0[i];
    } else {
      assert i == |r0| && ids[i] == ids[|ids| - 1];
      assert lines[|r0|] == NpcReport(chars, ids[|ids| - 1], npc);
    }
  }

  /** The report of one more id is the earlier report and that id's line. */
  lemma NpcLinesSnoc(chars: map<int, Character>, ids: seq<int>, npc: bool)
    requires ids != []
    ensures var last := ids[|ids| - 1];
            NpcSpec(chars, ids, npc).1
            == NpcSpec(chars, ids[..|ids| - 1], npc).1 + [NpcReport(chars, last, npc)]
  {
    NpcShape(chars, ids[..|ids| - 1], npc);
  }


  /** The reply: the report lines in a code block. */
  function Report(lines: seq<string>): string {
    "```\n" + Join(lines, '\n') + "\n```"
  }

  /** `set_rank`. */
  method SetRanks(dir: Directory, ids: seq<int>, rank: Option<Role>) returns (r: Result<string>)
    requires dir.Valid()
    modifies dir
    ensures dir.Valid() && dir.users == old(dir.users) && dir.nextId == old(dir.nextId)
    ensures var (c, lines) := RankSpec(old(dir.characters), ids, rank);
            dir.characters == c && r == if lines.Ok? then Ok(Report(lines.value)) else Err(lines.error)
  {
    var res: seq<string> := [];
    var i := 0;
    while i < |ids|
      invariant 0 <= i <= |ids|
      invariant dir.Valid() && dir.users == old(dir.users) && dir.nextId == old(dir.nextId)
      invariant RankSpec(old(dir.characters), ids[..i], rank) == (dir.characters, Ok(res))
    {
      RankStep(old(dir.characters), ids, i, rank);
      var id := ids[i];
      if id !in dir.characters {
        res := res + [NotFound(id)];
      } else {
        if rank.None? {
          RankErrorStays(old(dir.characters), ids, i + 1);
          assert ids[..|ids|] == ids;
          return Err(AttributeError);
        }
        dir.SetRank(id, Some(rank.value.id));
        res := res + [RankSet(id, rank.value)];
      }
      i := i + 1;
    }
    assert ids[..i] == ids;
    return Ok(Report(res));
  }

  lemma RankStep(chars: map<int, Character>, ids: seq<int>, i: int, rank: Option<Role>)
    requires 0 <= i < |ids|
    ensures var (c, r) := RankSpec(chars, ids[..i], rank);
            var id := ids[i];
            RankSpec(chars, ids[..i + 1], rank) ==
              if r.Err? then (c, r)
              else if id !in c then (c, Ok(r.value + [NotFound(id)]))
              else if rank.None? then (c, Err(AttributeError))
              else (c[id := c[id].(rank := Some(rank.value.id))], Ok(r.value + [RankSet(id, rank.value)]))
  {
    assert ids[..i + 1][..i] == ids[..i];
  }

  lemma NpcStep(chars: map<int, Character>, ids: seq<int>, i: int, npc: bool)
    requires 0 <= i < |ids|
    ensures var (c, r) := NpcSpec(chars, ids[..i], npc);
            var id := ids[i];
            NpcSpec(chars, ids[..i + 1], npc) ==
              if id !in c then (c, r + [NotFound(id)]) else (c[id := c[id].(npc := npc)], r + [NpcSet(id, npc)])
  {
    assert ids[..i + 1][..i] == ids[..i];
  }

  /** Once an id fails, the rest of the list is not looked at. */
  lemma {:induction false} RankErrorStays(chars: map<int, Character>, ids: seq<int>, k: int)
    requires 0 <= k <= |ids| && RankSpec(chars, ids[..k], None).1.Err?
    ensures RankSpec(chars, ids, None) == RankSpec(chars, ids[..k], None)
    decreases |ids| - k
  {
    if k < |ids| {
      assert ids[..k + 1][..k] == ids[..k];
      RankErrorStays(chars, ids, k + 1);
    } else {
      assert ids[..k] == ids;
    }
  }

  /** `set_npc`. */
  method SetNpcs(dir: Directory, ids: seq<int>, npc: bool) returns (r: string)
    requires dir.Valid()
    modifies dir
    ensures dir.Valid() && dir.users == old(dir.users) && dir.nextId == old(dir.nextId)
    ensures (dir.characters, r) == (NpcSpec(old(dir.characters), ids, npc).0, Report(NpcSpec(old(dir.characters), ids, npc).1))
  {
    var res: seq<string> := [];
    var i := 0;
    while i < |ids|
      invariant 0 <= i <= |ids|
      invariant dir.Valid() && dir.users == old(dir.users) && dir.nextId == old(dir.nextId)
      invariant NpcSpec(old(dir.characters), ids[..i], npc) == (dir.characters, res)
    {
      NpcStep(old(dir.characters), ids, i, npc);
      var id := ids[i];
      if id !in dir.characters {
        res := res + [NotFound(id)];
      } else {
        dir.SetNpcStatus(id, npc);
        res := res + [NpcSet(id, npc)];
      }
      i := i + 1;
    }
    assert ids[..i] == ids;
    return Report(res);
  }
}
