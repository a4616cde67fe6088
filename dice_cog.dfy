/** The `Dice` cog of src/cogs/dice.py: a per-user alias table, the handler
    that expands an unknown command into a dice roll and posts it, and a
    per-user stack of the posted messages that `delete` pops. */
module DiceCog {
  import opened Common
  import opened Text
  import opened DiceEngine

  /** User id (as a string) to that user's alias name -> command text. */
  type Aliases = map<string, map<string, string>>

  /** User id to the posted messages, oldest first (a deque used as a stack). */
  type Stacks = map<string, seq<int>>

  /* ---------------------------------------------------------------------- */
  /* alias                                                                   */
  /* ---------------------------------------------------------------------- */

  /** `not alias_text`: the text is missing or empty. */
  predicate Falsy(text: Option<string>) {
    text.None? || text.value == []
  }

  /** The table after `alias(name, text)`: a user without a table first gets
      an empty one; a falsy text deletes the name when present, any other
      text is stored under the name. */
  function AliasSpec(aliases: Aliases, user: string, name: string, text: Option<string>): Aliases {
    var table := if user in aliases then aliases[user] else map[];
    if Falsy(text) then aliases[user := if name in table then table - {name} else table]
    else aliases[user := table[name := text.value]]
  }

  /** Storing: the name now expands to the text; every other name and every
      other user's table is as before. */
  lemma AliasStores(aliases: Aliases, user: string, name: string, text: Option<string>)
    requires !Falsy(text)
    ensures var r := AliasSpec(aliases, user, name, text);
            && user in r && name in r[user] && r[user][name] == text.value
            && (forall n :: n != name ==> (n in r[user] <==> user in aliases && n in aliases[user]))
            && (forall n :: n != name && n in r[user] ==> r[user][n] == aliases[user][n])
            && r.Keys == aliases.Keys + {user}
            && (forall u :: u in aliases && u != user ==> r[u] == aliases[u])
  {
  }

  /** Deleting: the name is gone, every other name keeps its text, and a
      user without a table ends up with an empty one. */
  lemma AliasDeletes(aliases: Aliases, user: string, name: string, text: Option<string>)
    requires Falsy(text)
    ensures var r := AliasSpec(aliases, user, name, text);
            && user in r && name !in r[user]
            && (user in aliases ==> r[user] == aliases[user] - {name})
            && (user !in aliases ==> r[user] == map[])
            && r.Keys == aliases.Keys + {user}
            && (forall u :: u in aliases && u != user ==> r[u] == aliases[u])
  {
  }

  /** Deleting a name the user does not have changes nothing. */
  lemma AliasDeleteAbsent(aliases: Aliases, user: string, name: string, text: Option<string>)
    requires Falsy(text) && user in aliases && name !in aliases[user]
    ensures AliasSpec(aliases, user, name, text) == aliases
  {
    assert aliases[user := aliases[user]] == aliases;
  }

  /* ---------------------------------------------------------------------- */
  /* Expansion                                                               */
  /* ---------------------------------------------------------------------- */

  /** `ctx.message.content[1:]`, replaced by the alias text on an exact
      match of the whole command. */
  function Expand(table: map<string, string>, content: string): string {
    var command := if |content| >= 1 then content[1..] else [];
    if command in table then table[command] else command
  }

  /** The first space-separated token is the dice expression; the remaining
      tokens, joined back with spaces, are the comment. */
  function Command(table: map<string, string>, content: string): (string, string) {
    var tokens := SplitOn(Expand(table, content), ' ');
    (tokens[0], Join(tokens[1..], ' '))
  }

  /** An alias invoked by name expands to its text. */
  lemma AliasThenExpand(aliases: Aliases, user: string, name: string, text: Option<string>)
    requires !Falsy(text)
    ensures Expand(AliasSpec(aliases, user, name, text)[user], "!" + name) == text.value
  {
    assert ("!" + name)[1..] == name;
  }

  /** The split loses nothing: the dice expression holds no space; without a
      space in the command the comment is empty, and with one the command
      is the dice expression, a space and the comment. */
  lemma {:induction false} CommandRejoins(table: map<string, string>, content: string)
    ensures var e := Expand(table, content);
            var (d, comment) := Command(table, content);
            && ' ' !in d
            && (' ' !in e ==> d == e && comment == [])
            && (' ' in e ==> e == d + " " + comment)
  {
    var e := Expand(table, content);
    SplitHead(e, ' ');
    if ' ' !in e {
      assert SplitOn(e, ' ')[1..] == [];
    }
  }

  /* ---------------------------------------------------------------------- */
  /* Roll display                                                            */
  /* ---------------------------------------------------------------------- */

  /** `' + '.join(map(str, rolls))`. */
  function RollsJoined(rolls: seq<int>): string {
    if rolls == [] then []
    else if |rolls| == 1 then IntToString(rolls[0])
    else RollsJoined(rolls[..|rolls| - 1]) + " + " + IntToString(rolls[|rolls| - 1])
  }

  /** `rolls_str`: the parenthesised rolls with "-" widened to "- ", or empty
      when nothing was rolled. */
  function RollsText(rolls: seq<int>): string {
    if rolls == [] then [] else Replace("(" + RollsJoined(rolls) + ")", "-", "- ")
  }

  /** `static_str`: the constant part, only when it is non-zero and dice
      were rolled. */
  function StaticText(staticPart: int, rolls: seq<int>): string {
    if staticPart != 0 && rolls != [] then " + " + Replace(IntToString(staticPart), "-", "- ") else []
  }

  /** The first line: the expression in italics, with the comment in
      parentheses when there is one. */
  function Heading(d: string, comment: string): string {
    "*" + d + (if comment != [] then " (" + comment + ")*" else "*")
  }

  function TotalText(total: int): string {
    " = **" + IntToString(total) + "**"
  }

  /** The embed description of a roll. */
  function Description(d: string, comment: string, o: Outcome): string {
    var rollsText := RollsText(o.rolls);
    Heading(d, comment)
    + (if rollsText != [] then "\n" else "")
    + Replace(rollsText + StaticText(o.staticPart, o.rolls), "+ -", "-")
    + TotalText(o.total)
  }

  lemma {:induction false} NonNegativeJoined(rolls: seq<int>)
    requires forall i :: 0 <= i < |rolls| ==> rolls[i] >= 0
    ensures '-' !in RollsJoined(rolls)
  {
    if |rolls| > 1 {
      NonNegativeJoined(rolls[..|rolls| - 1]);
    }
  }

  /** The roll text is empty exactly when nothing was rolled; otherwise it
      opens with "(", and without negative rolls it is the plain
      parenthesised list. */
  lemma RollsTextShape(rolls: seq<int>)
    ensures RollsText(rolls) == [] <==> rolls == []
    ensures rolls != [] ==> RollsText(rolls)[0] == '('
    ensures rolls != [] && (forall i :: 0 <= i < |rolls| ==> rolls[i] >= 0) ==>
              RollsText(rolls) == "(" + RollsJoined(rolls) + ")"
  {
    if rolls != [] {
      var s := "(" + RollsJoined(rolls) + ")";
      ReplaceKeepsHead(s, "-", "- ");
      if forall i :: 0 <= i < |rolls| ==> rolls[i] >= 0 {
        NonNegativeJoined(rolls);
        assert '-' !in s;
        AbsentChar(s, '-');
        ReplaceAbsent(s, "-", "- ");
      }
    }
  }

  /** A roll without dice shows only the expression, the comment and the
      total, on one line. */
  lemma ConstantDescription(d: string, comment: string, o: Outcome)
    requires o.rolls == []
    ensures Description(d, comment, o) == Heading(d, comment) + TotalText(o.total)
  {
    assert Replace([], "+ -", "-") == [];
  }

  /** A roll with dice puts a line break after the heading and ends with the
      total in bold. */
  lemma DiceDescription(d: string, comment: string, o: Outcome)
    requires o.rolls != []
    ensures |Heading(d, comment)| < |Description(d, comment, o)|
    ensures Description(d, comment, o)[..|Heading(d, comment)|] == Heading(d, comment)
    ensures Description(d, comment, o)[|Heading(d, comment)|] == '\n'
    ensures EndsWith(Description(d, comment, o), TotalText(o.total))
  {
    RollsTextShape(o.rolls);
    var mid := Replace(RollsText(o.rolls) + StaticText(o.staticPart, o.rolls), "+ -", "-");
    ThreeParts(Heading(d, comment), mid, TotalText(o.total));
  }

  lemma ThreeParts(head: string, mid: string, tail: string)
    ensures |head| < |head + "\n" + mid + tail|
    ensures (head + "\n" + mid + tail)[..|head|] == head
    ensures (head + "\n" + mid + tail)[|head|] == '\n'
    ensures EndsWith(head + "\n" + mid + tail, tail)
  {
    var s := head + "\n" + mid + tail;
    assert s == (head + "\n" + mid) + tail;
    assert s[|s| - |tail|..] == tail;
    assert s == head + ("\n" + mid + tail);
  }

  /* ---------------------------------------------------------------------- */
  /* The message stack                                                       */
  /* ---------------------------------------------------------------------- */

  /** Every listed user has at least one message: an emptied stack is
      dropped. */
  predicate NoEmptyStacks(ms: Stacks) {
    forall u :: u in ms ==> ms[u] != []
  }

  /** `messages[user_id].append(msg)`, creating the deque when missing. */
  function Pushed(ms: Stacks, user: string, msg: int): Stacks {
    ms[user := (if user in ms then ms[user] else []) + [msg]]
  }

  /** `delete_msg`: the popped message, if the user has any, and the stacks
      after dropping an emptied one. */
  function Popped(ms: Stacks, user: string): (Option<int>, Stacks)
    requires NoEmptyStacks(ms)
  {
    if user !in ms then (None, ms)
    else
      var st := ms[user];
      var rest := st[..|st| - 1];
      (Some(st[|st| - 1]), if rest == [] then ms - {user} else ms[user := rest])
  }

  /** Both operations keep every stack non-empty. */
  lemma StacksStayNonEmpty(ms: Stacks, user: string, msg: int)
    requires NoEmptyStacks(ms)
    ensures NoEmptyStacks(Pushed(ms, user, msg))
    ensures NoEmptyStacks(Popped(ms, user).1)
  {
  }

  /** Last in, first out: popping right after a push returns the pushed
      message and restores the stacks exactly. */
  lemma PopAfterPush(ms: Stacks, user: string, msg: int)
    requires NoEmptyStacks(ms)
    ensures NoEmptyStacks(Pushed(ms, user, msg))
    ensures Popped(Pushed(ms, user, msg), user) == (Some(msg), ms)
  {
    var st := if user in ms then ms[user] else [];
    assert (st + [msg])[..|st|] == st;
    if user in ms {
      assert ms[user := st + [msg]][user := st] == ms;
    } else {
      assert ms[user := [msg]] - {user} == ms;
    }
  }

  /** Two posts by one user come back in reverse order. */
  lemma LastInFirstOut(ms: Stacks, user: string, m1: int, m2: int)
    requires NoEmptyStacks(ms)
    ensures var twice := Pushed(Pushed(ms, user, m1), user, m2);
            NoEmptyStacks(twice)
            && Popped(twice, user).0 == Some(m2)
            && NoEmptyStacks(Popped(twice, user).1)
            && Popped(Popped(twice, user).1, user) == (Some(m1), ms)
  {
    PopAfterPush(ms, user, m1);
    PopAfterPush(Pushed(ms, user, m1), user, m2);
  }

  /** A pop touches only the caller's stack. */
  lemma PopKeepsOthers(ms: Stacks, user: string, other: string)
    requires NoEmptyStacks(ms) && other != user
    ensures other in Popped(ms, user).1 <==> other in ms
    ensures other in ms ==> Popped(ms, user).1[other] == ms[other]
  {
  }

  /* ---------------------------------------------------------------------- */
  /* The handler                                                             */
  /* ---------------------------------------------------------------------- */

  /** What the handler does with the engine's verdict: an invalid roll
      (ValueError) is dropped, any other error propagates, a result is
      posted as its description. */
  function Reply(d: string, comment: string, roll: Result<Option<Outcome>>): Result<Option<string>> {
    if roll.Err? then
      if roll.error == ValueError then Ok(None) else Err(roll.error)
    else if roll.value.None? then Err(TypeError)
    else Ok(Some(Description(d, comment, roll.value.value)))
  }

  /** What `on_command_error` does with an unknown command: the description
      it posts (None when the roll was invalid), or the error it raises. */
  function Respond(aliases: Aliases, user: string, content: string, draw: Draw): Result<Option<string>> {
    if user !in aliases then Err(KeyError)
    else
      var cmd := Command(aliases[user], content);
      Reply(cmd.0, cmd.1, RollSpec(cmd.0, draw, false))
  }

  /** A user without a table gets a KeyError; an invalid roll posts nothing;
      an empty dice expression (a bare "!" or a leading space) raises
      IndexError, since this engine has no empty-string guard; a valid one
      posts its description. */
  lemma RespondOutcomes(aliases: Aliases, user: string, content: string, draw: Draw)
    ensures user !in aliases ==> Respond(aliases, user, content, draw) == Err(KeyError)
    ensures user in aliases ==>
              var (d, comment) := Command(aliases[user], content);
              && (RollSpec(d, draw, false) == Err(ValueError) ==> Respond(aliases, user, content, draw) == Ok(None))
              && (d == [] ==> Respond(aliases, user, content, draw) == Err(IndexError))
              && (RollSpec(d, draw, false).Ok? ==>
                    RollSpec(d, draw, false).value.Some? &&
                    Respond(aliases, user, content, draw) == Ok(Some(Description(d, comment, RollSpec(d, draw, false).value.value))))
  {
    if user in aliases {
      var (d, comment) := Command(aliases[user], content);
      if d == [] {
        EmptyExpression(draw);
      }
    }
  }

  class Dice {
    var aliases: Aliases
    var messages: Stacks

    ghost predicate Valid()
      reads this
    {
      NoEmptyStacks(messages)
    }

    /** The alias table as loaded from its file; no messages yet. */
    constructor (loaded: Aliases)
      ensures Valid() && aliases == loaded && messages == map[]
    {
      aliases := loaded;
      messages := map[];
    }

    /** `Dice.alias`. */
    method Alias(user: string, name: string, text: Option<string>)
      requires Valid()
      modifies this
      ensures Valid() && messages == old(messages)
      ensures aliases == AliasSpec(old(aliases), user, name, text)
    {
      if user !in aliases {
        aliases := aliases[user := map[]];
      }
      if Falsy(text) {
        if name in aliases[user] {
          aliases := aliases[user := aliases[user] - {name}];
        }
      } else {
        aliases := aliases[user := aliases[user][name := text.value]];
      }
    }

    /** `Dice.on_command_error` for an unknown command; `msg` is the message
        the post creates. */
    method OnUnknownCommand(user: string, content: string, draw: Draw, msg: int) returns (r: Result<Option<string>>)
      requires Valid()
      modifies this
      ensures Valid() && aliases == old(aliases)
      ensures r == Respond(old(aliases), user, content, draw)
      ensures messages == if r.Ok? && r.value.Some? then Pushed(old(messages), user, msg) else old(messages)
    {
      if user !in aliases {
        return Err(KeyError);
      }
      var cmd := Command(aliases[user], content);
      var roll := Call(cmd.0, draw, false);
      r := Reply(cmd.0, cmd.1, roll);
      if r.Ok? && r.value.Some? {
        Push(user, msg);
      }
    }

    /** `messages[user_id].append(msg)`, creating the deque when missing. */
    method Push(user: string, msg: int)
      requires Valid()
      modifies this
      ensures Valid() && aliases == old(aliases)
      ensures messages == Pushed(old(messages), user, msg)
    {
      StacksStayNonEmpty(messages, user, msg);
      if user !in messages {
        messages := messages[user := []];
      }
      messages := messages[user := messages[user] + [msg]];
    }

    /** `Dice.delete_msg`: the message to delete, if the caller has any. */
    method DeleteMsg(user: string) returns (r: Option<int>)
      requires Valid()
      modifies this
      ensures Valid() && aliases == old(aliases)
      ensures (r, messages) == Popped(old(messages), user)
    {
      if user !in messages {
        return None;
      }
      var stack := messages[user];
      r := Some(stack[|stack| - 1]);
      stack := stack[..|stack| - 1];
      if stack == [] {
        messages := messages - {user};
      } else {
        messages := messages[user := stack];
      }
    }
  }
}
