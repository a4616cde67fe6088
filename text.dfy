/** The few Python string built-ins the bot relies on: `str.lower` (ASCII
    letters only), `int()` on sign-and-digit literals, `str()` on integers,
    `str.split(sep)`, `sep.join`, `str.replace`, `startswith`, `endswith`
    and the substring test `in`. */
module Text {
  import opened Common

  function Lower(c: char): char {
    if 'A' <= c <= 'Z' then (c as int + 32) as char else c
  }

  function LowerStr(s: string): (r: string)
    ensures |r| == |s|
    ensures forall i :: 0 <= i < |s| ==> r[i] == Lower(s[i])
  {
    seq(|s|, i requires 0 <= i < |s| => Lower(s[i]))
  }

  /** Lowercasing twice is lowercasing once. */
  lemma LowerIdempotent(s: string)
    ensures LowerStr(LowerStr(s)) == LowerStr(s)
  {
  }

  predicate IsDigit(c: char) {
    '0' <= c <= '9'
  }

  predicate AllDigits(s: string) {
    forall i :: 0 <= i < |s| ==> IsDigit(s[i])
  }

  function DigitChar(d: nat): char
    requires d < 10
  {
    ('0' as int + d) as char
  }

  /** Decimal value of a digit string, read left to right. */
  function DigitsValue(s: string): nat
    requires AllDigits(s)
  {
    if s == [] then 0
    else
      10 * DigitsValue(s[..|s| - 1]) + (s[|s| - 1] as int - '0' as int)
  }

  /** Python's `int(s)` for strings over signs and digits: one optional sign
      followed by at least one digit; anything else is a ValueError (None). */
  function ParseInt(s: string): Option<int> {
    if |s| > 0 && (s[0] == '+' || s[0] == '-') then
      if |s| > 1 && AllDigits(s[1..]) then
        var v: int := DigitsValue(s[1..]);
        Some(if s[0] == '-' then -v else v)
      else None
    else if |s| > 0 && AllDigits(s) then Some(DigitsValue(s))
    else None
  }

  function NatToString(n: nat): (r: string)
    ensures |r| >= 1 && AllDigits(r)
  {
    if n < 10 then [DigitChar(n)]
    else
      var r := NatToString(n / 10) + [DigitChar(n % 10)];
      assert forall i :: 0 <= i < |r| - 1 ==> r[i] == NatToString(n / 10)[i];
      r
  }

  /** Python's `str(i)`. */
  function IntToString(i: int): (r: string)
    ensures |r| >= 1
  {
    if i < 0 then "-" + NatToString(-i) else NatToString(i)
  }

  lemma {:induction false} NatToStringValue(n: nat)
    ensures DigitsValue(NatToString(n)) == n
  {
    if n >= 10 {
      var s := NatToString(n);
      assert s[..|s| - 1] == NatToString(n / 10);
      NatToStringValue(n / 10);
    }
  }

  /** `int(str(i)) == i`: the decimal rendering parses back to the same integer. */
  lemma IntToStringRoundTrip(i: int)
    ensures ParseInt(IntToString(i)) == Some(i)
  {
    var s := IntToString(i);
    if i < 0 {
      var digits := NatToString(-i);
      assert s[0] == '-' && s[1..] == digits;
      NatToStringValue(-i);
      assert |s| > 1 && AllDigits(s[1..]);
    } else {
      NatToStringValue(i);
      assert IsDigit(s[0]);
      assert s[0] != '+' && s[0] != '-';
    }
  }

  /** Python's `s.split(sep)` for a one-character separator, built the way a
      left-to-right scan builds it. */
  function SplitOn(s: string, sep: char): (r: seq<string>)
    ensures |r| >= 1
  {
    if s == [] then [[]]
    else
      var init := SplitOn(s[..|s| - 1], sep);
      if s[|s| - 1] == sep then init + [[]]
      else init[..|init| - 1] + [init[|init| - 1] + [s[|s| - 1]]]
  }

  /** Python's `sep.join(parts)`. */
  function Join(parts: seq<string>, sep: char): string {
    if parts == [] then []
    else if |parts| == 1 then parts[0]
    else Join(parts[..|parts| - 1], sep) + [sep] + parts[|parts| - 1]
  }

  /** `sep.join(s.split(sep)) == s`. */
  lemma {:induction false} JoinSplit(s: string, sep: char)
    ensures Join(SplitOn(s, sep), sep) == s
  {
    if s != [] {
      var t, c := s[..|s| - 1], s[|s| - 1];
      assert s == t + [c];
      var init := SplitOn(t, sep);
      SplitOnSnoc(t, c, sep);
      JoinSplit(t, sep);
      if c == sep {
        var parts := init + [[]];
        assert parts[..|parts| - 1] == init;
      } else {
        JoinExtendLast(init, c, sep);
      }
    }
  }

  /** Extending the last part by one character extends the joined string. */
  lemma JoinExtendLast(parts: seq<string>, c: char, sep: char)
    requires |parts| >= 1
    ensures Join(parts[..|parts| - 1] + [parts[|parts| - 1] + [c]], sep) == Join(parts, sep) + [c]
  {
    var k := |parts| - 1;
    var ext := parts[..k] + [parts[k] + [c]];
    if k > 0 {
      assert ext[..k] == parts[..k];
    }
  }

  /** A string without the separator splits into itself alone. */
  lemma {:induction false} SplitWithoutSeparator(s: string, sep: char)
    requires sep !in s
    ensures SplitOn(s, sep) == [s]
  {
    if s != [] {
      var t := s[..|s| - 1];
      assert sep !in t by {
        forall i | 0 <= i < |t| ensures t[i] != sep {
          assert t[i] == s[i];
        }
      }
      SplitWithoutSeparator(t, sep);
      assert t + [s[|s| - 1]] == s;
    }
  }

  /** One more character: a separator opens a new piece, anything else
      extends the last one. */
  lemma SplitOnSnoc(t: string, c: char, sep: char)
    ensures var init := SplitOn(t, sep);
            SplitOn(t + [c], sep) == if c == sep then init + [[]] else init[..|init| - 1] + [init[|init| - 1] + [c]]
  {
    assert (t + [c])[..|t|] == t;
  }

  /** Splitting at a first separator: the part before it is the first
      piece and the rest splits on its own. */
  lemma {:induction false} SplitAfterSeparator(p: string, q: string, sep: char)
    requires sep !in p
    ensures SplitOn(p + [sep] + q, sep) == [p] + SplitOn(q, sep)
    decreases |q|
  {
    if q == [] {
      assert p + [sep] + q == p + [sep];
      SplitOnSnoc(p, sep, sep);
      SplitWithoutSeparator(p, sep);
    } else {
      var q', c := q[..|q| - 1], q[|q| - 1];
      SplitAfterSeparator(p, q', sep);
      SplitAfterSeparatorStep(p, q', c, sep);
      assert q == q' + [c];
      assert p + [sep] + q == (p + [sep] + q') + [c];
    }
  }

  /** The step of SplitAfterSeparator: one more character after the separator. */
  lemma SplitAfterSeparatorStep(p: string, q: string, c: char, sep: char)
    requires SplitOn(p + [sep] + q, sep) == [p] + SplitOn(q, sep)
    ensures SplitOn((p + [sep] + q) + [c], sep) == [p] + SplitOn(q + [c], sep)
  {
    SplitOnSnoc(p + [sep] + q, c, sep);
    SplitOnSnoc(q, c, sep);
    var rest := SplitOn(q, sep);
    if c == sep {
      assert ([p] + rest) + [[]] == [p] + (rest + [[]]);
    } else {
      ConsInitLast(p, rest);
      var init, last := rest[..|rest| - 1], rest[|rest| - 1] + [c];
      assert ([p] + init) + [last] == [p] + (init + [last]);
    }
  }

  lemma ConsInitLast(p: string, rest: seq<string>)
    requires |rest| >= 1
    ensures ([p] + rest)[..|rest|] == [p] + rest[..|rest| - 1]
    ensures ([p] + rest)[|rest|] == rest[|rest| - 1]
  {
  }

  /** Splitting at a last separator: the part after it is the last piece. */
  lemma {:induction false} SplitBeforeLast(p: string, q: string, sep: char)
    requires sep !in q
    ensures SplitOn(p + [sep] + q, sep) == SplitOn(p, sep) + [q]
    decreases |q|
  {
    var s := p + [sep] + q;
    if q == [] {
      assert s[..|s| - 1] == p;
    } else {
      var q' := q[..|q| - 1];
      assert sep !in q' by {
        forall i | 0 <= i < |q'| ensures q'[i] != sep {
          assert q'[i] == q[i];
        }
      }
      assert s[..|s| - 1] == p + [sep] + q' && s[|s| - 1] == q[|q| - 1];
      SplitBeforeLast(p, q', sep);
      assert q' + [q[|q| - 1]] == q;
    }
  }

  /** `sep.join(parts).split(sep) == parts` when no part holds the separator. */
  lemma {:induction false} SplitJoin(parts: seq<string>, sep: char)
    requires |parts| >= 1
    requires forall i :: 0 <= i < |parts| ==> sep !in parts[i]
    ensures SplitOn(Join(parts, sep), sep) == parts
  {
    if |parts| == 1 {
      SplitWithoutSeparator(parts[0], sep);
    } else {
      var init := parts[..|parts| - 1];
      SplitJoin(init, sep);
      SplitBeforeLast(Join(init, sep), parts[|parts| - 1], sep);
    }
  }

  /** Every character of a join is the separator or a character of a part. */
  lemma {:induction false} JoinChars(parts: seq<string>, sep: char, ch: char)
    requires ch in Join(parts, sep)
    ensures ch == sep || exists i :: 0 <= i < |parts| && ch in parts[i]
  {
    if |parts| > 1 {
      var init := parts[..|parts| - 1];
      if ch in Join(init, sep) && ch != sep {
        JoinChars(init, sep, ch);
        var i :| 0 <= i < |init| && ch in init[i];
        assert parts[i] == init[i];
      } else if ch != sep {
        assert ch in parts[|parts| - 1];
      }
    }
  }

  /** Joining two or more parts puts the first part and a separator in front
      of the join of the others. */
  lemma {:induction false} JoinFront(parts: seq<string>, sep: char)
    requires |parts| >= 2
    ensures Join(parts, sep) == parts[0] + [sep] + Join(parts[1..], sep)
  {
    if |parts| > 2 {
      var init := parts[..|parts| - 1];
      JoinFront(init, sep);
      assert init[1..] == parts[1..][..|parts[1..]| - 1];
    }
  }

  /** A string with a separator splits into at least two pieces. */
  lemma {:induction false} SplitAtLeastTwo(p: string, q: string, sep: char)
    ensures |SplitOn(p + [sep] + q, sep)| >= 2
    decreases |q|
  {
    var s := p + [sep] + q;
    if q == [] {
      assert s[..|s| - 1] == p;
    } else {
      assert s[..|s| - 1] == p + [sep] + q[..|q| - 1];
      SplitAtLeastTwo(p, q[..|q| - 1], sep);
    }
  }

  /** `s.split(sep)` as a head and a tail: the head holds no separator;
      without a separator the split is `[s]`, and with one `s` is the head,
      the separator and the join of the tail. */
  lemma SplitHead(s: string, sep: char)
    ensures sep !in SplitOn(s, sep)[0]
    ensures sep !in s ==> SplitOn(s, sep) == [s]
    ensures sep in s ==> s == SplitOn(s, sep)[0] + [sep] + Join(SplitOn(s, sep)[1..], sep)
  {
    var tokens := SplitOn(s, sep);
    assert sep !in tokens[0] by {
      SplitPiecesHaveNoSeparator(s, sep);
      assert tokens[0] in tokens;
    }
    if sep !in s {
      SplitWithoutSeparator(s, sep);
    } else {
      SplitHeadTail(s, sep);
    }
  }

  lemma SplitHeadTail(s: string, sep: char)
    requires sep in s
    ensures s == SplitOn(s, sep)[0] + [sep] + Join(SplitOn(s, sep)[1..], sep)
  {
    var tokens := SplitOn(s, sep);
    var i :| 0 <= i < |s| && s[i] == sep;
    assert |tokens| >= 2 by {
      assert s == s[..i] + [sep] + s[i + 1..];
      SplitAtLeastTwo(s[..i], s[i + 1..], sep);
    }
    JoinSplit(s, sep);
    JoinFront(tokens, sep);
  }

  /** No piece of `s.split(sep)` contains the separator. */
  lemma {:induction false} SplitPiecesHaveNoSeparator(s: string, sep: char)
    ensures forall p :: p in SplitOn(s, sep) ==> sep !in p
  {
    if s != [] {
      var t := s[..|s| - 1];
      SplitPiecesHaveNoSeparator(t, sep);
      var init := SplitOn(t, sep);
      if s[|s| - 1] != sep {
        assert init[|init| - 1] in init;
        forall p | p in init[..|init| - 1] ensures p in init { }
      }
    }
  }

  /** Python's `s.replace(pat, rep)`: leftmost, non-overlapping occurrences. */
  function Replace(s: string, pat: string, rep: string): string
    requires |pat| > 0
    decreases |s|
  {
    if |s| < |pat| then s
    else if s[..|pat|] == pat then rep + Replace(s[|pat|..], pat, rep)
    else [s[0]] + Replace(s[1..], pat, rep)
  }

  predicate StartsWith(s: string, prefix: string) {
    |prefix| <= |s| && s[..|prefix|] == prefix
  }

  predicate EndsWith(s: string, suffix: string) {
    |suffix| <= |s| && s[|s| - |suffix|..] == suffix
  }

  predicate OccursAt(s: string, sub: string, i: int) {
    0 <= i && i + |sub| <= |s| && s[i..i + |sub|] == sub
  }

  /** Python's `sub in s` for strings. */
  predicate Contains(s: string, sub: string) {
    exists i | 0 <= i <= |s| - |sub| :: OccursAt(s, sub, i)
  }

  /** A string whose first character does not start the pattern keeps that
      first character. */
  lemma ReplaceKeepsHead(s: string, pat: string, rep: string)
    requires |pat| > 0 && |s| > 0 && s[0] != pat[0]
    ensures |Replace(s, pat, rep)| > 0 && Replace(s, pat, rep)[0] == s[0]
  {
    if |s| >= |pat| {
      assert s[..|pat|][0] == s[0];
    }
  }

  /** A one-character pattern occurs exactly where that character does. */
  lemma AbsentChar(s: string, c: char)
    requires c !in s
    ensures !Contains(s, [c])
  {
    forall i | 0 <= i <= |s| - 1 ensures !OccursAt(s, [c], i) {
      assert s[i..i + 1][0] == s[i];
    }
  }

  /** `s.replace(c, '')` removes every `c` and keeps the other characters
      in order. */
  lemma {:induction false} ReplaceDropsChar(s: string, c: char)
    ensures c !in Replace(s, [c], [])
    ensures forall x :: x in Replace(s, [c], []) ==> x in s
    ensures c !in s ==> Replace(s, [c], []) == s
    decreases |s|
  {
    if |s| >= 1 {
      ReplaceDropsChar(s[1..], c);
      assert s[..1] == [s[0]];
      if s[0] != c {
        assert Replace(s, [c], []) == [s[0]] + Replace(s[1..], [c], []);
      }
    }
  }

  /** Replacing one character by another maps the string character by
      character. */
  lemma {:induction false} ReplaceCharPointwise(s: string, c: char, d: char)
    ensures |Replace(s, [c], [d])| == |s|
    ensures forall i :: 0 <= i < |s| ==> Replace(s, [c], [d])[i] == (if s[i] == c then d else s[i])
    decreases |s|
  {
    if |s| >= 1 {
      ReplaceCharPointwise(s[1..], c, d);
      assert s[..1] == [s[0]];
      var head := if s[0] == c then [d] else [s[0]];
      assert Replace(s, [c], [d]) == head + Replace(s[1..], [c], [d]);
      forall i | 1 <= i < |s| ensures Replace(s, [c], [d])[i] == (if s[i] == c then d else s[i]) {
        assert s[1..][i - 1] == s[i];
      }
    }
  }

  /** Replacing a pattern that does not occur leaves the string as it is. */
  lemma {:induction false} ReplaceAbsent(s: string, pat: string, rep: string)
    requires |pat| > 0 && !Contains(s, pat)
    ensures Replace(s, pat, rep) == s
    decreases |s|
  {
    if |s| >= |pat| {
      assert !OccursAt(s, pat, 0);
      assert !Contains(s[1..], pat) by {
        forall i | 0 <= i <= |s[1..]| - |pat| ensures !OccursAt(s[1..], pat, i) {
          assert !OccursAt(s, pat, i + 1);
          assert s[1..][i..i + |pat|] == s[i + 1..i + 1 + |pat|];
        }
      }
      ReplaceAbsent(s[1..], pat, rep);
    }
  }
}
