/** The dice-expression evaluator of src/cogs/utils/diceengine.py and its
    copy in src/cogs/dice.py: an expression such as "2d6+3-d4" is split into
    signed terms; a term without 'd' adds a constant, a term "NdM" rolls N
    dice with M sides (N defaults to 1). The copies differ only in the guard
    for the empty string. `randint` is the oracle `draw`: the k-th die rolled
    (counting from 0) with M sides shows `draw(k, M)`. */
module DiceEngine {
  import opened Common
  import opened Text

  predicate IsSign(c: char) {
    c == '+' || c == '-'
  }

  /** `x in 'd+-0123456789'`. */
  predicate IsDiceChar(c: char) {
    c == 'd' || IsSign(c) || IsDigit(c)
  }

  /** The oracle for `randint(1, sides)`, indexed by how many dice were
      rolled before. */
  type Draw = (nat, int) -> int

  /** A fair oracle stays within the die's faces. */
  ghost predicate Fair(draw: Draw) {
    forall k: nat, sides: int {:trigger draw(k, sides)} :: sides >= 1 ==> 1 <= draw(k, sides) <= sides
  }

  /* ---------------------------------------------------------------------- */
  /* split                                                                   */
  /* ---------------------------------------------------------------------- */

  /** `arg` with a '+' put in front unless it starts with a sign. */
  function Signed(arg: string): (r: string)
    requires arg != []
    ensures |r| >= 1 && IsSign(r[0])
  {
    if IsSign(arg[0]) then arg else "+" + arg
  }

  /** The pieces the scan produces: every sign after the first character
      starts a new piece. */
  function Pieces(s: string): (r: seq<string>)
    requires |s| >= 1
    ensures |r| >= 1 && |r[0]| >= 1 && r[0][0] == s[0]
  {
    if |s| == 1 then [s]
    else
      var init := Pieces(s[..|s| - 1]);
      var c := s[|s| - 1];
      if IsSign(c) then init + [[c]]
      else init[..|init| - 1] + [init[|init| - 1] + [c]]
  }

  /** `''.join(parts)`. */
  function Concat(parts: seq<string>): string {
    if parts == [] then [] else Concat(parts[..|parts| - 1]) + parts[|parts| - 1]
  }

  /** `DiceEngine.split`: `arg[0]` fails on the empty string. */
  method Split(arg: string) returns (r: Result<seq<string>>)
    ensures arg == [] ==> r == Err(IndexError)
    ensures arg != [] ==> r == Ok(Pieces(Signed(arg)))
  {
    if arg == [] {
      return Err(IndexError);
    }
    var s := Signed(arg);
    var splits: seq<string> := [];
    var current: string := [];
    var i := 0;
    while i < |s|
      invariant 0 <= i <= |s|
      invariant i == 0 ==> splits == [] && current == []
      invariant i > 0 ==> current != [] && splits + [current] == Pieces(s[..i])
    {
      var c := s[i];
      if i == 0 {
        assert s[..1] == [c] == current + [c];
      } else {
        ScanStep(s, i, splits, current);
      }
      if IsSign(c) && current != [] {
        splits := splits + [current];
        current := [c];
      } else {
        current := current + [c];
      }
      i := i + 1;
    }
    assert s[..i] == s;
    return Ok(splits + [current]);
  }

  /** The scan's step: a sign closes the current piece and opens a new one,
      anything else extends the current piece. */
  lemma ScanStep(s: string, i: int, splits: seq<string>, current: string)
    requires 1 <= i < |s| && current != [] && splits + [current] == Pieces(s[..i])
    ensures IsSign(s[i]) ==> (splits + [current]) + [[s[i]]] == Pieces(s[..i + 1])
    ensures !IsSign(s[i]) ==> splits + [current + [s[i]]] == Pieces(s[..i + 1])
  {
    PiecesStep(s, i);
    var init := splits + [current];
    assert init[..|init| - 1] == splits && init[|init| - 1] == current;
  }

  /** One more character: a sign opens a piece, anything else extends the
      last one. */
  lemma PiecesStep(s: string, i: int)
    requires 1 <= i < |s|
    ensures var init := Pieces(s[..i]);
            Pieces(s[..i + 1]) == if IsSign(s[i]) then init + [[s[i]]]
                                  else init[..|init| - 1] + [init[|init| - 1] + [s[i]]]
  {
    assert s[..i + 1][..i] == s[..i];
  }

  lemma ConcatSnoc(parts: seq<string>, x: string)
    ensures Concat(parts + [x]) == Concat(parts) + x
  {
    assert (parts + [x])[..|parts|] == parts;
  }

  /** Every character of a part is a character of the join. */
  lemma {:induction false} ConcatContains(parts: seq<string>, i: int, ch: char)
    requires 0 <= i < |parts| && ch in parts[i]
    ensures ch in Concat(parts)
  {
    var init := parts[..|parts| - 1];
    if i < |init| {
      ConcatContains(init, i, ch);
    }
  }

  /** Joining the pieces gives back the scanned string. */
  lemma {:induction false} PiecesConcat(s: string)
    requires |s| >= 1
    ensures Concat(Pieces(s)) == s
  {
    if |s| > 1 {
      var t := s[..|s| - 1];
      var init := Pieces(t);
      PiecesConcat(t);
      var c := s[|s| - 1];
      PiecesStep(s, |s| - 1);
      assert s[..|s|] == s;
      assert t + [c] == s;
      if IsSign(c) {
        ConcatSnoc(init, [c]);
      } else {
        ConcatExtendLast(init, c);
      }
    }
  }

  lemma {:induction false} ConcatExtendLast(init: seq<string>, c: char)
    requires |init| >= 1
    ensures Concat(init[..|init| - 1] + [init[|init| - 1] + [c]]) == Concat(init) + [c]
  {
    var front := init[..|init| - 1];
    var last := init[|init| - 1];
    assert init == front + [last];
    ConcatSnoc(front, last);
    ConcatSnoc(front, last + [c]);
    assert Concat(front) + (last + [c]) == (Concat(front) + last) + [c];
  }

  /** After the first piece, every piece starts with a sign, and no piece
      holds a sign after its first character. */
  lemma {:induction false} PiecesShape(s: string)
    requires |s| >= 1
    ensures forall i :: 0 <= i < |Pieces(s)| ==> |Pieces(s)[i]| >= 1
    ensures forall i :: 1 <= i < |Pieces(s)| ==> IsSign(Pieces(s)[i][0])
  {
    if |s| > 1 {
      PiecesShape(s[..|s| - 1]);
    }
  }

  /** No piece holds a sign after its first character. */
  lemma {:induction false} PiecesSignFree(s: string)
    requires |s| >= 1
    ensures forall i, j :: 0 <= i < |Pieces(s)| && 1 <= j < |Pieces(s)[i]| ==> !IsSign(Pieces(s)[i][j])
  {
    if |s| > 1 {
      var t := s[..|s| - 1];
      var init := Pieces(t);
      PiecesSignFree(t);
      var c := s[|s| - 1];
      if !IsSign(c) {
        var last := init[|init| - 1];
        assert forall j :: 0 <= j < |last| ==> (last + [c])[j] == last[j];
      }
    }
  }

  /** The sign-prefixed input, split, joins back to itself, and every term
      is one sign followed by sign-free text. */
  lemma SplitTerms(arg: string)
    requires arg != []
    ensures Concat(Pieces(Signed(arg))) == Signed(arg)
    ensures forall i :: 0 <= i < |Pieces(Signed(arg))| ==>
              |Pieces(Signed(arg))[i]| >= 1 && IsSign(Pieces(Signed(arg))[i][0])
    ensures forall i, j :: 0 <= i < |Pieces(Signed(arg))| && 1 <= j < |Pieces(Signed(arg))[i]| ==>
              !IsSign(Pieces(Signed(arg))[i][j])
  {
    PiecesConcat(Signed(arg));
    PiecesShape(Signed(arg));
    PiecesSignFree(Signed(arg));
  }

  /* ---------------------------------------------------------------------- */
  /* Terms                                                                   */
  /* ---------------------------------------------------------------------- */

  /** A parsed term: a signed constant, or dice to roll. */
  datatype Term = Constant(value: int) | Dice(count: int, sides: int, mul: int)

  /** One term: `mul = int(group[0] + '1')`, then either `int(rest) * mul`
      or `rest.split('d')` into exactly two parts, the count defaulting to 1. */
  function ParseTerm(group: string): Result<Term> {
    if group == [] then Err(IndexError)
    else match ParseInt([group[0]] + "1")
      case None => Err(ValueError)
      case Some(mul) =>
        var rest := group[1..];
        if 'd' !in rest then
          match ParseInt(rest)
          case None => Err(ValueError)
          case Some(v) => Ok(Constant(v * mul))
        else
          var parts := SplitOn(rest, 'd');
          if |parts| != 2 then Err(ValueError)
          else
            var count := if parts[0] == [] then Some(1) else ParseInt(parts[0]);
            var sides := ParseInt(parts[1]);
            if count.None? || sides.None? then Err(ValueError)
            else Ok(Dice(count.value, sides.value, mul))
  }

  /** The rolls of a dice term, the first one being the k-th die overall;
      `randint(1, sides)` refuses a die with no faces. */
  function TermRolls(t: Term, draw: Draw, k: nat): Result<seq<int>>
    requires t.Dice?
  {
    var n := if t.count > 0 then t.count else 0;
    if n > 0 && t.sides < 1 then Err(ValueError)
    else Ok(seq(n, j requires 0 <= j < n => draw(k + j, t.sides) * t.mul))
  }

  /** One pass of the group loop: a constant term adds to `static`, a dice
      term appends its rolls. */
  function EvalTerm(acc: (int, seq<int>), group: string, draw: Draw): Result<(int, seq<int>)> {
    match ParseTerm(group)
    case Err(e) => Err(e)
    case Ok(t) =>
      if t.Constant? then Ok((acc.0 + t.value, acc.1))
      else match TermRolls(t, draw, |acc.1|)
        case Err(e) => Err(e)
        case Ok(more) => Ok((acc.0, acc.1 + more))
  }

  /** The group loop: the constant part and the rolls after the given groups. */
  function EvalGroups(groups: seq<string>, draw: Draw): Result<(int, seq<int>)> {
    if groups == [] then Ok((0, []))
    else match EvalGroups(groups[..|groups| - 1], draw)
      case Err(e) => Err(e)
      case Ok(acc) => EvalTerm(acc, groups[|groups| - 1], draw)
  }

  function Sum(xs: seq<int>): int {
    if xs == [] then 0 else Sum(xs[..|xs| - 1]) + xs[|xs| - 1]
  }

  /** What a call returns: `(static + sum(rolls), rolls, static)`. */
  datatype Outcome = Outcome(total: int, rolls: seq<int>, staticPart: int)

  function Finish(acc: (int, seq<int>)): Outcome {
    Outcome(acc.0 + Sum(acc.1), acc.1, acc.0)
  }

  /** No character outside "d+-0123456789". */
  predicate DiceAlphabet(a: string) {
    forall i :: 0 <= i < |a| ==> IsDiceChar(a[i])
  }

  /** `DiceEngine.__call__`; `emptyGuard` is the `if not arg: return` of
      diceengine.py, which the copy in dice.py lacks. */
  function RollSpec(arg: string, draw: Draw, emptyGuard: bool): Result<Option<Outcome>> {
    if emptyGuard && arg == [] then Ok(None)
    else
      var a := LowerStr(arg);
      if !DiceAlphabet(a) then Err(ValueError)
      else if a == [] then Err(IndexError)
      else match EvalGroups(Pieces(Signed(a)), draw)
        case Err(e) => Err(e)
        case Ok(acc) => Ok(Some(Finish(acc)))
  }

  /** The dice of one term, appended one `randint` at a time. */
  method RollDice(t: Term, draw: Draw, rolls: seq<int>) returns (r: Result<seq<int>>)
    requires t.Dice?
    ensures r.Ok? <==> TermRolls(t, draw, |rolls|).Ok?
    ensures r.Ok? ==> r.value == rolls + TermRolls(t, draw, |rolls|).value
    ensures r.Err? ==> r.error == ValueError
  {
    var out := rolls;
    var n := if t.count > 0 then t.count else 0;
    var j := 0;
    while j < n
      invariant 0 <= j <= n
      invariant j > 0 ==> t.sides >= 1
      invariant out == rolls + seq(j, i requires 0 <= i < j => draw(|rolls| + i, t.sides) * t.mul)
    {
      if t.sides < 1 {
        return Err(ValueError);
      }
      out := out + [draw(|out|, t.sides) * t.mul];
      j := j + 1;
    }
    return Ok(out);
  }

  /** `any(x not in 'd+-0123456789' for x in arg)`, negated. */
  method CheckAlphabet(a: string) returns (ok: bool)
    ensures ok <==> DiceAlphabet(a)
  {
    var i := 0;
    while i < |a|
      invariant 0 <= i <= |a|
      invariant forall j :: 0 <= j < i ==> IsDiceChar(a[j])
    {
      if !IsDiceChar(a[i]) {
        return false;
      }
      i := i + 1;
    }
    return true;
  }

  /** The body of the group loop for one group. */
  method StepTerm(acc: (int, seq<int>), group: string, draw: Draw) returns (r: Result<(int, seq<int>)>)
    ensures r == EvalTerm(acc, group, draw)
  {
    var t := ParseTerm(group);
    if t.Err? {
      return Err(t.error);
    }
    if t.value.Constant? {
      return Ok((acc.0 + t.value.value, acc.1));
    }
    var more := RollDice(t.value, draw, acc.1);
    if more.Err? {
      return Err(more.error);
    }
    return Ok((acc.0, more.value));
  }

  /** The group loop of `__call__`. */
  method EvalLoop(gs: seq<string>, draw: Draw) returns (r: Result<(int, seq<int>)>)
    ensures r == EvalGroups(gs, draw)
  {
    var acc := (0, []);
    var g := 0;
    while g < |gs|
      invariant 0 <= g <= |gs|
      invariant EvalGroups(gs[..g], draw) == Ok(acc)
    {
      assert gs[..g + 1][..g] == gs[..g];
      var next := StepTerm(acc, gs[g], draw);
      if next.Err? {
        assert EvalGroups(gs[..g + 1], draw).Err?;
        EarlyErrorStays(gs, g + 1, draw);
        return Err(next.error);
      }
      acc := next.value;
      g := g + 1;
    }
    assert gs[..g] == gs;
    return Ok(acc);
  }

  /** Once a group fails, the whole loop fails with the same error. */
  lemma {:induction false} EarlyErrorStays(gs: seq<string>, g: int, draw: Draw)
    requires 0 <= g <= |gs| && EvalGroups(gs[..g], draw).Err?
    ensures EvalGroups(gs, draw) == EvalGroups(gs[..g], draw)
    decreases |gs| - g
  {
    if g < |gs| {
      assert gs[..g + 1][..g] == gs[..g];
      EarlyErrorStays(gs, g + 1, draw);
    } else {
      assert gs[..g] == gs;
    }
  }

  /** `DiceEngine.__call__`: lowercase, check the alphabet, split, then add
      each term's constant to `static` or its dice to `rolls`. */
  method Call(arg: string, draw: Draw, emptyGuard: bool) returns (r: Result<Option<Outcome>>)
    ensures r == RollSpec(arg, draw, emptyGuard)
  {
    if emptyGuard && arg == [] {
      return Ok(None);
    }
    var a := LowerStr(arg);
    var ok := CheckAlphabet(a);
    if !ok {
      return Err(ValueError);
    }
    var groups := Split(a);
    if groups.Err? {
      return Err(groups.error);
    }
    var sums := EvalLoop(groups.value, draw);
    if sums.Err? {
      return Err(sums.error);
    }
    return Ok(Some(Finish(sums.value)));
  }

  /* ---------------------------------------------------------------------- */
  /* Properties                                                              */
  /* ---------------------------------------------------------------------- */

  /** The empty string: no result from diceengine.py, an IndexError from
      the copy in dice.py. */
  lemma EmptyExpression(draw: Draw)
    ensures RollSpec("", draw, true) == Ok(None)
    ensures RollSpec("", draw, false) == Err(IndexError)
  {
  }

  /** A character outside "d+-0123456789" after lowercasing is a ValueError,
      and otherwise the alphabet check passes. */
  lemma AlphabetChecked(arg: string, draw: Draw, emptyGuard: bool)
    requires exists i :: 0 <= i < |arg| && !IsDiceChar(Lower(arg[i]))
    ensures RollSpec(arg, draw, emptyGuard) == Err(ValueError)
  {
    var a := LowerStr(arg);
    var i :| 0 <= i < |arg| && !IsDiceChar(Lower(arg[i]));
    assert !IsDiceChar(a[i]);
  }

  /** A term's sign gives a multiplier of +1 or -1. */
  lemma SignMultiplier(c: char)
    requires IsSign(c)
    ensures ParseInt([c] + "1") == Some(if c == '-' then -1 else 1)
  {
    var s := [c] + "1";
    assert s[1..] == "1";
    assert AllDigits(s[1..]);
    assert DigitsValue("1") == 10 * DigitsValue("") + 1 by {
      assert "1"[..0] == "";
    }
  }

  /** A term without 'd' adds its signed integer to the constant part. */
  lemma ConstantTerm(sign: char, digits: string)
    requires IsSign(sign) && |digits| >= 1 && AllDigits(digits)
    ensures ParseTerm([sign] + digits) == Ok(Constant(DigitsValue(digits) * (if sign == '-' then -1 else 1)))
  {
    SignMultiplier(sign);
    var g := [sign] + digits;
    assert g[1..] == digits;
    NoDInDigits(digits);
    assert ParseInt(digits) == Some(DigitsValue(digits)) by {
      assert !IsSign(digits[0]) by { assert IsDigit(digits[0]); }
    }
  }

  /** A dice term "sNdM" with one 'd': the count defaults to 1 when N is
      empty. */
  lemma DiceTerm(sign: char, count: string, sides: string)
    requires IsSign(sign) && AllDigits(count) && |sides| >= 1 && AllDigits(sides)
    ensures ParseTerm([sign] + count + ['d'] + sides)
         == Ok(Dice(if count == [] then 1 else DigitsValue(count), DigitsValue(sides), if sign == '-' then -1 else 1))
  {
    SignMultiplier(sign);
    var g := [sign] + count + ['d'] + sides;
    assert g[1..] == count + ['d'] + sides;
    assert 'd' in g[1..] by { assert g[1..][|count|] == 'd'; }
    NoDInDigits(count);
    NoDInDigits(sides);
    SplitAfterSeparator(count, sides, 'd');
    SplitWithoutSeparator(sides, 'd');
    assert count + ['d'] + sides == count + ['d'] + sides;
    if count != [] {
      assert !IsSign(count[0]) by { assert IsDigit(count[0]); }
    }
    assert !IsSign(sides[0]) by { assert IsDigit(sides[0]); }
  }

  /** A dice term with nothing after its 'd' (`"+2d"`, `"-d"`) fails in
      `int('')` with a ValueError. */
  lemma EmptySides(sign: char, count: string)
    requires IsSign(sign) && AllDigits(count)
    ensures ParseTerm([sign] + count + "d") == Err(ValueError)
  {
    SignMultiplier(sign);
    var g := [sign] + count + "d";
    assert g[1..] == count + ['d'] + [];
    assert 'd' in g[1..] by { assert g[1..][|count|] == 'd'; }
    NoDInDigits(count);
    SplitAfterSeparator(count, [], 'd');
  }

  lemma NoDInDigits(s: string)
    requires AllDigits(s)
    ensures 'd' !in s
  {
    forall k | 0 <= k < |s| ensures s[k] != 'd' {
      assert IsDigit(s[k]);
    }
  }

  /** A term with two or more 'd's is a ValueError. */
  lemma TooManyDice(group: string, p: string, q: string, r: string)
    requires |group| >= 1 && IsSign(group[0]) && group[1..] == p + ['d'] + q + ['d'] + r && 'd' !in p
    ensures ParseTerm(group) == Err(ValueError)
  {
    SignMultiplier(group[0]);
    assert group[1..][|p|] == 'd';
    SplitAfterSeparator(p, q + ['d'] + r, 'd');
    assert p + ['d'] + q + ['d'] + r == p + ['d'] + (q + ['d'] + r);
    SplitAtLeastTwo(q, r, 'd');
  }

  /** A fair oracle puts every roll of a term within the die's faces,
      signed by the term; the count (a missing one meaning 1) is exactly the
      number of rolls, and the rolls continue the overall draw order. */
  lemma RollsWithinFaces(t: Term, draw: Draw, k: nat)
    requires t.Dice? && Fair(draw) && (t.mul == 1 || t.mul == -1)
    ensures TermRolls(t, draw, k).Ok? ==>
              && |TermRolls(t, draw, k).value| == (if t.count > 0 then t.count else 0)
              && forall j :: 0 <= j < |TermRolls(t, draw, k).value| ==>
                   TermRolls(t, draw, k).value[j] == draw(k + j, t.sides) * t.mul
                   && 1 <= TermRolls(t, draw, k).value[j] * t.mul <= t.sides
  {
  }

  /** With no 'd' anywhere, nothing is rolled: the total is the constant. */
  lemma {:induction false} ConstantsOnly(groups: seq<string>, draw: Draw)
    requires forall i :: 0 <= i < |groups| ==> 'd' !in groups[i]
    ensures EvalGroups(groups, draw).Ok? ==> EvalGroups(groups, draw).value.1 == []
  {
    if groups != [] {
      var init := groups[..|groups| - 1];
      ConstantsOnly(init, draw);
      var g := groups[|groups| - 1];
      if g != [] {
        assert 'd' !in g[1..] by {
          forall j | 0 <= j < |g[1..]| ensures g[1..][j] != 'd' {
            assert g[1..][j] == g[j + 1];
          }
        }
      }
    }
  }

  /** An expression without 'd' (after lowercasing) rolls nothing, and its
      total is its constant part. */
  lemma ConstantExpression(arg: string, draw: Draw, emptyGuard: bool)
    requires forall i :: 0 <= i < |arg| ==> Lower(arg[i]) != 'd'
    ensures RollSpec(arg, draw, emptyGuard).Ok? && RollSpec(arg, draw, emptyGuard).value.Some? ==>
              RollSpec(arg, draw, emptyGuard).value.value.rolls == []
              && RollSpec(arg, draw, emptyGuard).value.value.total == RollSpec(arg, draw, emptyGuard).value.value.staticPart
  {
    var a := LowerStr(arg);
    if a != [] {
      var s := Signed(a);
      forall k | 0 <= k < |s| ensures s[k] != 'd' {
        if !IsSign(a[0]) && k > 0 {
          assert s[k] == a[k - 1];
        }
      }
      PiecesConcat(s);
      forall i | 0 <= i < |Pieces(s)| ensures 'd' !in Pieces(s)[i] {
        if 'd' in Pieces(s)[i] {
          ConcatContains(Pieces(s), i, 'd');
        }
      }
      ConstantsOnly(Pieces(s), draw);
    }
  }
  /** `v` is the k-th `randint` of the call, on some die with at least one
      face, signed by its term. */
  ghost predicate Drawn(v: int, draw: Draw, k: nat) {
    exists sides :: sides >= 1 && 1 <= draw(k, sides) <= sides && (v == draw(k, sides) || v == -draw(k, sides))
  }

  /** Over signed groups, the j-th roll is the j-th draw: the dice are rolled
      in term order, one after another, each within its faces. */
  lemma {:induction false} GroupRollsAreDraws(gs: seq<string>, draw: Draw)
    requires Fair(draw)
    requires forall i :: 0 <= i < |gs| ==> |gs[i]| >= 1 && IsSign(gs[i][0])
    ensures EvalGroups(gs, draw).Ok? ==>
              forall j :: 0 <= j < |EvalGroups(gs, draw).value.1| ==> Drawn(EvalGroups(gs, draw).value.1[j], draw, j)
  {
    if gs != [] && EvalGroups(gs, draw).Ok? {
      var init := gs[..|gs| - 1];
      GroupRollsAreDraws(init, draw);
      var g := gs[|gs| - 1];
      var acc := EvalGroups(init, draw).value;
      var t := ParseTerm(g).value;
      if t.Dice? {
        SignMultiplier(g[0]);
        var more := TermRolls(t, draw, |acc.1|).value;
        var rolls := acc.1 + more;
        assert EvalGroups(gs, draw).value.1 == rolls;
        forall j | 0 <= j < |rolls| ensures Drawn(rolls[j], draw, j) {
          if j < |acc.1| {
            assert rolls[j] == acc.1[j];
          } else {
            assert rolls[j] == more[j - |acc.1|] == draw(j, t.sides) * t.mul;
          }
        }
      }
    }
  }

  /** Every roll a call reports is the draw of the same position. */
  lemma RollsAreDraws(arg: string, draw: Draw, emptyGuard: bool)
    requires Fair(draw)
    ensures RollSpec(arg, draw, emptyGuard).Ok? && RollSpec(arg, draw, emptyGuard).value.Some? ==>
              var rolls := RollSpec(arg, draw, emptyGuard).value.value.rolls;
              forall j :: 0 <= j < |rolls| ==> Drawn(rolls[j], draw, j)
  {
    var a := LowerStr(arg);
    if a != [] {
      SplitTerms(a);
      GroupRollsAreDraws(Pieces(Signed(a)), draw);
    }
  }
}
