/** The `Initiative` cog of src/cogs/initiative.py: an insertion-ordered
    table of names and initiative values, listed from the highest value
    down, and the last listing message the cog posted. */
module Initiative {
  import opened Common
  import opened Text

  /** One `initiatives` item: name and value. A Python dict keeps insertion
      order, so the table is a sequence with distinct names. */
  type Entry = (string, int)

  predicate KeysUnique(es: seq<Entry>) {
    forall i, j :: 0 <= i < j < |es| ==> es[i].0 != es[j].0
  }

  /** `initiatives.get(name)`. */
  function Lookup(es: seq<Entry>, name: string): Option<int> {
    if es == [] then None
    else if es[0].0 == name then Some(es[0].1)
    else Lookup(es[1..], name)
  }

  /** The table after `del initiatives[name]` (unchanged when absent). */
  function Without(es: seq<Entry>, name: string): seq<Entry> {
    if es == [] then []
    else (if es[0].0 == name then [] else [es[0]]) + Without(es[1..], name)
  }

  lemma {:induction false} WithoutFacts(es: seq<Entry>, name: string)
    requires KeysUnique(es)
    ensures KeysUnique(Without(es, name))
    ensures forall k :: Lookup(Without(es, name), k) == if k == name then None else Lookup(es, k)
    ensures |Without(es, name)| == if Lookup(es, name).Some? then |es| - 1 else |es|
  {
    if es != [] {
      var tail := es[1..];
      assert KeysUnique(tail) by {
        forall i, j | 0 <= i < j < |tail| ensures tail[i].0 != tail[j].0 {
          assert tail[i] == es[i + 1] && tail[j] == es[j + 1];
        }
      }
      WithoutFacts(tail, name);
      var w := Without(tail, name);
      assert ([es[0]] + w)[1..] == w && [] + w == w;
      if es[0].0 == name {
        assert Lookup(tail, name).None? by { AbsentKey(tail, name, es); }
      } else {
        assert Lookup(w, es[0].0).None? by { AbsentKey(tail, es[0].0, es); }
        var r := [es[0]] + w;
        forall i, j | 0 <= i < j < |r| ensures r[i].0 != r[j].0 {
          if i == 0 {
            LookupFindsEvery(w, j - 1);
          }
        }
      }
    }
  }

  /** Every listed name is found. */
  lemma {:induction false} LookupFindsEvery(es: seq<Entry>, i: int)
    requires 0 <= i < |es|
    ensures Lookup(es, es[i].0).Some?
  {
    if i > 0 && es[0].0 != es[i].0 {
      LookupFindsEvery(es[1..], i - 1);
    }
  }

  /** The head's name does not occur again in the tail of a table with
      distinct names. */
  lemma AbsentKey(tail: seq<Entry>, name: string, es: seq<Entry>)
    requires KeysUnique(es) && |es| >= 1 && tail == es[1..] && es[0].0 == name
    ensures Lookup(tail, name).None?
  {
    if Lookup(tail, name).Some? {
      var i := LookupIndex(tail, name);
    }
  }

  /** Where a found name sits. */
  lemma {:induction false} LookupIndex(es: seq<Entry>, name: string) returns (i: int)
    requires Lookup(es, name).Some?
    ensures 0 <= i < |es| && es[i].0 == name && es[i].1 == Lookup(es, name).value
  {
    if es[0].0 == name {
      i := 0;
    } else {
      var k := LookupIndex(es[1..], name);
      i := k + 1;
    }
  }

  /** `add_init`: the name is deleted, then inserted again at the end. */
  function AddSpec(es: seq<Entry>, name: string, value: int): seq<Entry> {
    Without(es, name) + [(name, value)]
  }

  /** After `add_init` the name maps to the value and sits last, every other
      name keeps its value, and the table grows only for a new name. */
  lemma AddInitSets(es: seq<Entry>, name: string, value: int)
    requires KeysUnique(es)
    ensures var r := AddSpec(es, name, value);
            && KeysUnique(r)
            && r[|r| - 1] == (name, value)
            && Lookup(r, name) == Some(value)
            && (forall k :: k != name ==> Lookup(r, k) == Lookup(es, k))
            && |r| == if Lookup(es, name).Some? then |es| else |es| + 1
  {
    WithoutFacts(es, name);
    var w := Without(es, name);
    LookupAppend(w, [(name, value)], name);
    forall k | k != name ensures Lookup(w + [(name, value)], k) == Lookup(es, k) {
      LookupAppend(w, [(name, value)], k);
    }
    var r := w + [(name, value)];
    forall i, j | 0 <= i < j < |r| ensures r[i].0 != r[j].0 {
      if j == |r| - 1 {
        LookupFindsEvery(w, i);
      }
    }
  }

  lemma {:induction false} LookupAppend(a: seq<Entry>, b: seq<Entry>, name: string)
    ensures Lookup(a + b, name) == if Lookup(a, name).Some? then Lookup(a, name) else Lookup(b, name)
  {
    if a != [] {
      assert (a + b)[0] == a[0] && (a + b)[1..] == a[1..] + b;
      LookupAppend(a[1..], b, name);
    } else {
      assert a + b == b;
    }
  }

  /* ---------------------------------------------------------------------- */
  /* del_init                                                                */
  /* ---------------------------------------------------------------------- */

  /** `name.lower() in k.lower()`. */
  predicate Matches(e: Entry, name: string) {
    Contains(LowerStr(e.0), LowerStr(name))
  }

  /** The first entry, in insertion order, whose name contains `name`
      case-insensitively. */
  function FirstMatch(es: seq<Entry>, name: string): Option<nat> {
    if es == [] then None
    else if Matches(es[0], name) then Some(0)
    else match FirstMatch(es[1..], name)
      case None => None
      case Some(i) => Some(i + 1)
  }

  /** FirstMatch finds the least matching index, and None only when no entry
      matches. */
  lemma {:induction false} FirstMatchExactly(es: seq<Entry>, name: string)
    ensures FirstMatch(es, name).None? <==> forall j :: 0 <= j < |es| ==> !Matches(es[j], name)
    ensures FirstMatch(es, name).Some? ==>
              var i := FirstMatch(es, name).value;
              i < |es| && Matches(es[i], name) && forall j :: 0 <= j < i ==> !Matches(es[j], name)
  {
    if es != [] {
      FirstMatchExactly(es[1..], name);
      if !Matches(es[0], name) {
        forall j | 1 <= j < |es| ensures es[j] == es[1..][j - 1] { }
      }
    }
  }

  /** `del_init(name)`: the first match is removed, if any. */
  function DelSpec(es: seq<Entry>, name: string): seq<Entry> {
    match FirstMatch(es, name)
    case None => es
    case Some(i) => if i < |es| then es[..i] + es[i + 1..] else es
  }

  /** At most one entry goes, and it is the first match; without a match the
      table is unchanged; the remaining entries keep their order. */
  lemma DelRemovesFirstMatch(es: seq<Entry>, name: string)
    ensures (forall j :: 0 <= j < |es| ==> !Matches(es[j], name)) ==> DelSpec(es, name) == es
    ensures (exists j :: 0 <= j < |es| && Matches(es[j], name)) ==>
              exists i ::
                && 0 <= i < |es| && Matches(es[i], name)
                && (forall j :: 0 <= j < i ==> !Matches(es[j], name))
                && DelSpec(es, name) == es[..i] + es[i + 1..]
    ensures KeysUnique(es) ==> KeysUnique(DelSpec(es, name))
  {
    FirstMatchExactly(es, name);
    match FirstMatch(es, name)
    case None =>
    case Some(i) =>
      assert DelSpec(es, name) == es[..i] + es[i + 1..];
      if KeysUnique(es) {
        RemoveKeepsUnique(es, i);
      }
  }

  /** Removing one entry keeps the names distinct. */
  lemma RemoveKeepsUnique(es: seq<Entry>, i: nat)
    requires i < |es| && KeysUnique(es)
    ensures KeysUnique(es[..i] + es[i + 1..])
  {
    var r := es[..i] + es[i + 1..];
    forall a, b | 0 <= a < b < |r| ensures r[a].0 != r[b].0 {
      var a' := if a < i then a else a + 1;
      var b' := if b < i then b else b + 1;
      assert r[a] == es[a'] && r[b] == es[b'];
    }
  }

  /* ---------------------------------------------------------------------- */
  /* The listing                                                             */
  /* ---------------------------------------------------------------------- */

  /** Python's stable `sorted(..., key=value, reverse=True)`, as an insertion
      sort: a later entry goes behind every earlier one of equal value. */
  function Insert(t: seq<Entry>, x: Entry): seq<Entry> {
    if t == [] then [x]
    else if t[0].1 < x.1 then [x] + t
    else [t[0]] + Insert(t[1..], x)
  }

  function SortDesc(es: seq<Entry>): seq<Entry> {
    if es == [] then [] else Insert(SortDesc(es[..|es| - 1]), es[|es| - 1])
  }

  predicate Descending(s: seq<Entry>) {
    forall i, j :: 0 <= i < j < |s| ==> s[i].1 >= s[j].1
  }

  /** The entries of one value, in order. */
  function WithValue(s: seq<Entry>, v: int): seq<Entry> {
    if s == [] then []
    else (if s[0].1 == v then [s[0]] else []) + WithValue(s[1..], v)
  }

  lemma {:induction false} WithValueAppend(a: seq<Entry>, b: seq<Entry>, v: int)
    ensures WithValue(a + b, v) == WithValue(a, v) + WithValue(b, v)
  {
    if a != [] {
      assert (a + b)[0] == a[0] && (a + b)[1..] == a[1..] + b;
      WithValueAppend(a[1..], b, v);
    } else {
      assert a + b == b;
    }
  }

  lemma {:induction false} WithValueNone(s: seq<Entry>, v: int)
    requires forall i :: 0 <= i < |s| ==> s[i].1 < v
    ensures WithValue(s, v) == []
  {
    if s != [] {
      WithValueNone(s[1..], v);
    }
  }

  lemma {:induction false} InsertPerm(t: seq<Entry>, x: Entry)
    ensures multiset(Insert(t, x)) == multiset(t) + multiset{x}
  {
    if t != [] && t[0].1 >= x.1 {
      InsertPerm(t[1..], x);
      assert t == [t[0]] + t[1..];
    }
  }

  lemma HeadIsLargest(t: seq<Entry>, y: Entry)
    requires Descending(t) && |t| >= 1 && y in t[1..]
    ensures t[0].1 >= y.1
  {
    var k :| 0 <= k < |t[1..]| && t[1..][k] == y;
    assert t[k + 1] == y;
  }

  /** Every entry of an insertion is the inserted one or an old one. */
  lemma {:induction false} InsertMembers(t: seq<Entry>, x: Entry, y: Entry)
    requires y in Insert(t, x)
    ensures y == x || y in t
  {
    if t != [] && t[0].1 >= x.1 && y != t[0] {
      assert y in Insert(t[1..], x);
      InsertMembers(t[1..], x, y);
    }
  }

  lemma {:induction false} InsertDescending(t: seq<Entry>, x: Entry)
    requires Descending(t)
    ensures Descending(Insert(t, x))
  {
    if t != [] && t[0].1 >= x.1 {
      var tail := t[1..];
      InsertDescending(tail, x);
      var ins := Insert(tail, x);
      forall j | 0 <= j < |ins| ensures t[0].1 >= ins[j].1 {
        InsertMembers(tail, x, ins[j]);
        if ins[j] != x {
          HeadIsLargest(t, ins[j]);
        }
      }
      ConsDescending(t[0], ins);
    }
  }

  /** A head at least as large as every entry of a descending list keeps it
      descending. */
  lemma ConsDescending(h: Entry, s: seq<Entry>)
    requires Descending(s) && forall j :: 0 <= j < |s| ==> h.1 >= s[j].1
    ensures Descending([h] + s)
  {
    var r := [h] + s;
    forall a, b | 0 <= a < b < |r| ensures r[a].1 >= r[b].1 {
      assert r[b] == s[b - 1];
      if a > 0 {
        assert r[a] == s[a - 1];
      }
    }
  }

  lemma {:induction false} InsertWithValue(t: seq<Entry>, x: Entry, v: int)
    requires Descending(t)
    ensures WithValue(Insert(t, x), v) == WithValue(t, v) + (if x.1 == v then [x] else [])
  {
    if t == [] {
    } else if t[0].1 < x.1 {
      assert ([x] + t)[0] == x && ([x] + t)[1..] == t;
      if x.1 == v {
        WithValueNone(t, v);
      }
    } else {
      var tail := t[1..];
      InsertWithValue(tail, x, v);
      var ins := Insert(tail, x);
      assert ([t[0]] + ins)[0] == t[0] && ([t[0]] + ins)[1..] == ins;
    }
  }

  /** The listing order is non-increasing in value, holds exactly the table's
      entries, and keeps entries of equal value in insertion order. */
  lemma {:induction false} SortDescSpec(es: seq<Entry>)
    ensures Descending(SortDesc(es))
    ensures multiset(SortDesc(es)) == multiset(es)
    ensures forall v :: WithValue(SortDesc(es), v) == WithValue(es, v)
  {
    if es != [] {
      var init := es[..|es| - 1];
      var x := es[|es| - 1];
      SortDescSpec(init);
      InsertPerm(SortDesc(init), x);
      InsertDescending(SortDesc(init), x);
      assert init + [x] == es;
      forall v ensures WithValue(SortDesc(es), v) == WithValue(es, v) {
        InsertWithValue(SortDesc(init), x, v);
        WithValueAppend(init, [x], v);
      }
    }
  }

  /** `f'{v} | {k}'`. */
  function Line(e: Entry): string {
    IntToString(e.1) + " | " + e.0
  }

  function Lines(s: seq<Entry>): (r: seq<string>)
    ensures |r| == |s|
  {
    if s == [] then [] else Lines(s[..|s| - 1]) + [Line(s[|s| - 1])]
  }

  /** The embed description `print_initiative` posts; None for an empty
      table, which posts nothing. */
  function Listing(es: seq<Entry>): Option<string> {
    if es == [] then None else Some(Join(Lines(SortDesc(es)), '\n'))
  }

  lemma {:induction false} LineBreakFree(s: seq<Entry>)
    requires forall i :: 0 <= i < |s| ==> '\n' !in s[i].0
    ensures forall i :: 0 <= i < |s| ==> '\n' !in Lines(s)[i]
  {
    if s != [] {
      LineBreakFree(s[..|s| - 1]);
      var e := s[|s| - 1];
      var num := IntToString(e.1);
      assert '\n' !in num by {
        var digits := NatToString(if e.1 < 0 then -e.1 else e.1);
        forall k | 0 <= k < |digits| ensures digits[k] != '\n' {
          assert IsDigit(digits[k]);
        }
      }
    }
  }

  /** Read back line by line, a listing is one "value | name" line per entry,
      highest value first; an empty table lists nothing. */
  lemma ListingLines(es: seq<Entry>)
    requires forall i :: 0 <= i < |es| ==> '\n' !in es[i].0
    ensures Listing(es).None? <==> es == []
    ensures es != [] ==> SplitOn(Listing(es).value, '\n') == Lines(SortDesc(es))
    ensures |Lines(SortDesc(es))| == |es|
  {
    SortDescSpec(es);
    var sorted := SortDesc(es);
    assert |sorted| == |es| by {
      assert |multiset(sorted)| == |multiset(es)|;
    }
    if es != [] {
      forall i | 0 <= i < |sorted| ensures '\n' !in sorted[i].0 {
        assert sorted[i] in multiset(es);
      }
      LineBreakFree(sorted);
      SplitJoin(Lines(sorted), '\n');
    }
  }

  /** The initiative table of one cog instance. */
  class InitiativeTable {
    var entries: seq<Entry>
    /** `last_initiative_message`: the listing posted last, if any. */
    var lastMessage: Option<int>

    ghost predicate Valid()
      reads this
    {
      KeysUnique(entries)
    }

    constructor ()
      ensures Valid() && entries == [] && lastMessage == None
    {
      entries := [];
      lastMessage := None;
    }

    /** `print_initiative`: nothing for an empty table; otherwise the lines
        of the sorted table, posted as `msg`, which replaces the last
        listing. */
    method PrintInitiative(msg: int) returns (listing: Option<string>)
      requires Valid()
      modifies this
      ensures Valid() && entries == old(entries)
      ensures listing == Listing(entries)
      ensures lastMessage == if entries == [] then old(lastMessage) else Some(msg)
    {
      if entries == [] {
        return None;
      }
      var sorted := SortDesc(entries);
      var description: seq<string> := [];
      var i := 0;
      while i < |sorted|
        invariant 0 <= i <= |sorted|
        invariant description == Lines(sorted[..i])
      {
        assert sorted[..i + 1][..i] == sorted[..i];
        description := description + [Line(sorted[i])];
        i := i + 1;
      }
      assert sorted[..i] == sorted;
      lastMessage := Some(msg);
      return Some(Join(description, '\n'));
    }

    /** `clear_initiative`. */
    method ClearInitiative()
      modifies this
      ensures Valid() && entries == [] && lastMessage == None
    {
      entries := [];
      lastMessage := None;
    }

    /** `add_init(value, name)`; the name defaults to the author's display
        name. */
    method AddInit(value: int, name: Option<string>, author: string, msg: int) returns (listing: Option<string>)
      requires Valid()
      modifies this
      ensures Valid()
      ensures entries == AddSpec(old(entries), if name.Some? then name.value else author, value)
      ensures listing == Listing(entries) && lastMessage == Some(msg)
    {
      var key := if name.Some? then name.value else author;
      AddInitSets(entries, key, value);
      if Lookup(entries, key).Some? {
        entries := Without(entries, key);
      } else {
        WithoutAbsent(entries, key);
      }
      entries := entries + [(key, value)];
      listing := PrintInitiative(msg);
    }

    /** `del_init(name)`: no name clears the table; a name removes the first
        entry containing it, case-insensitively, and lists again. */
    method DelInit(name: Option<string>, msg: int) returns (listing: Option<string>)
      requires Valid()
      modifies this
      ensures Valid()
      ensures name.None? ==> entries == [] && lastMessage == None && listing == None
      ensures name.Some? ==>
                && entries == DelSpec(old(entries), name.value)
                && listing == Listing(entries)
                && lastMessage == if entries == [] then old(lastMessage) else Some(msg)
    {
      if name.None? {
        ClearInitiative();
        return None;
      }
      DelRemovesFirstMatch(entries, name.value);
      FirstMatchExactly(entries, name.value);
      var i := 0;
      while i < |entries|
        invariant 0 <= i <= |entries| && entries == old(entries)
        invariant forall j :: 0 <= j < i ==> !Matches(entries[j], name.value)
      {
        if Matches(entries[i], name.value) {
          FirstMatchAt(entries, name.value, i);
          entries := entries[..i] + entries[i + 1..];
          break;
        }
        i := i + 1;
      }
      listing := PrintInitiative(msg);
    }
  }

  /** Removing an absent name changes nothing. */
  lemma {:induction false} WithoutAbsent(es: seq<Entry>, name: string)
    requires Lookup(es, name).None?
    ensures Without(es, name) == es
  {
    if es != [] {
      WithoutAbsent(es[1..], name);
    }
  }

  /** A match with no match before it is the first match. */
  lemma FirstMatchAt(es: seq<Entry>, name: string, i: int)
    requires 0 <= i < |es| && Matches(es[i], name)
    requires forall j :: 0 <= j < i ==> !Matches(es[j], name)
    ensures FirstMatch(es, name) == Some(i)
  {
    FirstMatchExactly(es, name);
    if FirstMatch(es, name).Some? {
      var k := FirstMatch(es, name).value;
      assert !(k < i) && !(i < k);
    }
  }
}
