/** The second bank cog, src/cogs/extra/bank.py: the amount string is
    parsed before anything is stored, the partner row of a transfer negates
    every parsed amount (zeros included), the bank's own account 1 is the
    refused receiver of `bank send`, and the delete commands work through a
    list of ids. */
module BankV2 {
  import opened Common
  import opened Text
  import opened Store
  import opened Ledger
  import opened Characters

  /* ---------------------------------------------------------------------- */
  /* parse_transaction_string                                                */
  /* ---------------------------------------------------------------------- */

  /** `parse_transaction_string`: the character loop, then one dictionary
      write per comma piece; the first bad piece raises. */
  method ParseTransactionString(s: string) returns (r: Result<map<Currency, int>>)
    ensures r == CoinsOf(s)
  {
    var bad := CheckCharacters(s);
    if bad.Some? {
      return Err(InvalidCharacter(bad.value));
    }
    var pieces := SplitOn(s, ',');
    var coins: map<Currency, int> := map[];
    var i := 0;
    while i < |pieces|
      invariant 0 <= i <= |pieces|
      invariant FoldCoins(pieces[..i]) == (coins, None)
    {
      var coin := ParseCoin(pieces[i]);
      if coin.Err? {
        FoldCoinsStopsAt(pieces, i);
        return Err(coin.error);
      }
      FoldCoinsStep(pieces, i);
      coins := coins[coin.value.0 := coin.value.1];
      i := i + 1;
    }
    assert pieces[..i] == pieces;
    return Ok(coins);
  }

  /** The parser accepts exactly the strings over the amount alphabet whose
      every comma piece is a signed integer followed by a currency letter;
      for each currency it keeps the amount of the last piece naming it. */
  lemma ParseAcceptsExactly(s: string)
    ensures CoinsOf(s).Ok? <==>
              && (forall i :: 0 <= i < |s| ==> IsTransactionChar(s[i]))
              && (forall i :: 0 <= i < |SplitOn(s, ',')| ==> ParseCoin(SplitOn(s, ',')[i]).Ok?)
    ensures CoinsOf(s).Ok? ==>
              forall c :: (c in CoinsOf(s).value <==> LastAmount(SplitOn(s, ','), c).Some?)
                       && (c in CoinsOf(s).value ==> CoinsOf(s).value[c] == LastAmount(SplitOn(s, ','), c).value)
  {
    FirstInvalidIsFirst(s);
    FoldCoinsLastWins(SplitOn(s, ','));
    assert CoinsOf(s).Ok? <==> FirstInvalid(s).None? && FoldCoins(SplitOn(s, ',')).1.None?;
    if CoinsOf(s).Ok? {
      assert CoinsOf(s).value == FoldCoins(SplitOn(s, ',')).0;
    }
  }

  /** The comma piece that writes `v` of denomination `c`, such as "-5s". */
  function CoinPiece(c: Currency, v: int): string {
    IntToString(v) + [Letter(c)]
  }

  /** One piece per denomination of `m`, in the order of `cs`. */
  function CoinPieces(cs: seq<Currency>, m: map<Currency, int>): seq<string> {
    if cs == [] then []
    else
      var c := cs[|cs| - 1];
      CoinPieces(cs[..|cs| - 1], m) + (if c in m then [CoinPiece(c, m[c])] else [])
  }

  /** An amount string for `m`, such as "2g,-5s". */
  function AmountString(m: map<Currency, int>): string {
    Join(CoinPieces(Currencies, m), ',')
  }

  lemma ParseCoinPiece(c: Currency, v: int)
    ensures ParseCoin(CoinPiece(c, v)) == Ok((c, v))
  {
    var piece := CoinPiece(c, v);
    assert piece[..|piece| - 1] == IntToString(v);
    IntToStringRoundTrip(v);
  }

  lemma CoinPieceChars(c: Currency, v: int, ch: char)
    requires ch in CoinPiece(c, v)
    ensures IsTransactionChar(ch) && ch != ','
  {
    var digits := NatToString(if v < 0 then -v else v);
    assert AllDigits(digits);
    if ch != Letter(c) {
      if v < 0 {
        assert CoinPiece(c, v) == ['-'] + digits + [Letter(c)];
      } else {
        assert CoinPiece(c, v) == digits + [Letter(c)];
      }
      assert ch == '-' || ch in digits;
      if ch in digits {
        var k :| 0 <= k < |digits| && digits[k] == ch;
        assert IsDigit(ch);
        assert ch == '0' || ch == '1' || ch == '2' || ch == '3' || ch == '4'
            || ch == '5' || ch == '6' || ch == '7' || ch == '8' || ch == '9';
      }
    }
  }

  /** Every piece is the piece of one denomination of `m`. */
  lemma {:induction false} CoinPiecesShape(cs: seq<Currency>, m: map<Currency, int>, i: int)
    requires 0 <= i < |CoinPieces(cs, m)|
    ensures exists c :: c in m && CoinPieces(cs, m)[i] == CoinPiece(c, m[c])
  {
    var init := CoinPieces(cs[..|cs| - 1], m);
    if i < |init| {
      CoinPiecesShape(cs[..|cs| - 1], m, i);
      assert CoinPieces(cs, m)[i] == init[i];
    }
  }

  lemma {:induction false} CoinPiecesNonEmpty(cs: seq<Currency>, m: map<Currency, int>, c: Currency)
    requires c in cs && c in m
    ensures |CoinPieces(cs, m)| >= 1
  {
    if cs[|cs| - 1] != c {
      assert c in cs[..|cs| - 1];
      CoinPiecesNonEmpty(cs[..|cs| - 1], m, c);
    }
  }

  /** The denominations of `m` listed in `cs`, written one after another. */
  function Written(cs: seq<Currency>, m: map<Currency, int>): map<Currency, int> {
    if cs == [] then map[]
    else
      var c := cs[|cs| - 1];
      if c in m then Written(cs[..|cs| - 1], m)[c := m[c]] else Written(cs[..|cs| - 1], m)
  }

  /** Writing every denomination of CURRENCIES reproduces `m`. */
  lemma {:induction false} WrittenExactly(cs: seq<Currency>, m: map<Currency, int>)
    ensures forall c :: c in Written(cs, m) <==> c in m && c in cs
    ensures forall c :: c in Written(cs, m) ==> Written(cs, m)[c] == m[c]
  {
    if cs != [] {
      WrittenExactly(cs[..|cs| - 1], m);
      assert forall c :: c in cs <==> c in cs[..|cs| - 1] || c == cs[|cs| - 1];
    }
  }

  lemma WrittenAll(m: map<Currency, int>)
    ensures Written(Currencies, m) == m
  {
    WrittenExactly(Currencies, m);
    forall c | c in m ensures c in Currencies {
      match c
      case Platinum => assert Currencies[0] == c;
      case Gold => assert Currencies[1] == c;
      case Electrum => assert Currencies[2] == c;
      case Silver => assert Currencies[3] == c;
      case Copper => assert Currencies[4] == c;
    }
  }

  /** Parsing the pieces writes the listed denominations of `m`. */
  lemma {:induction false} FoldCoinPieces(cs: seq<Currency>, m: map<Currency, int>)
    ensures FoldCoins(CoinPieces(cs, m)) == (Written(cs, m), None)
  {
    if cs != [] {
      var init := cs[..|cs| - 1];
      var last := cs[|cs| - 1];
      FoldCoinPieces(init, m);
      var before := CoinPieces(init, m);
      if last in m {
        var pieces := before + [CoinPiece(last, m[last])];
        assert CoinPieces(cs, m) == pieces;
        assert pieces[..|pieces| - 1] == before;
        ParseCoinPiece(last, m[last]);
      } else {
        assert CoinPieces(cs, m) == before;
      }
    }
  }

  /** Round trip: the amount string of any non-empty amounts parses back to
      exactly those amounts. */
  lemma ParseAmountString(m: map<Currency, int>)
    requires m != map[]
    ensures CoinsOf(AmountString(m)) == Ok(m)
  {
    var parts := CoinPieces(Currencies, m);
    var s := AmountString(m);
    var c0 :| c0 in m;
    assert c0 in Currencies by {
      match c0
      case Platinum => assert Currencies[0] == c0;
      case Gold => assert Currencies[1] == c0;
      case Electrum => assert Currencies[2] == c0;
      case Silver => assert Currencies[3] == c0;
      case Copper => assert Currencies[4] == c0;
    }
    CoinPiecesNonEmpty(Currencies, m, c0);
    forall i | 0 <= i < |parts| ensures ',' !in parts[i] {
      CoinPiecesShape(Currencies, m, i);
      var c :| c in m && parts[i] == CoinPiece(c, m[c]);
      if ',' in parts[i] {
        CoinPieceChars(c, m[c], ',');
      }
    }
    forall i | 0 <= i < |s| ensures IsTransactionChar(s[i]) {
      assert s[i] in s;
      JoinChars(parts, ',', s[i]);
      if s[i] != ',' {
        var j :| 0 <= j < |parts| && s[i] in parts[j];
        CoinPiecesShape(Currencies, m, j);
        var c :| c in m && parts[j] == CoinPiece(c, m[c]);
        CoinPieceChars(c, m[c], s[i]);
      }
    }
    FirstInvalidIsFirst(s);
    SplitJoin(parts, ',');
    FoldCoinPieces(Currencies, m);
    WrittenAll(m);
  }

  /* ---------------------------------------------------------------------- */
  /* create_transaction                                                      */
  /* ---------------------------------------------------------------------- */

  /** `create_transaction` as a value: the reply and the table afterwards.
      A malformed amount string is refused before anything is stored. */
  function CreateSpec(st: Snapshot, a: Request): (Result<int>, Snapshot) {
    if a.description == [] || a.text == [] then (Err(MissingInput), st)
    else match CoinsOf(a.text)
      case Err(e) => (Err(e), st)
      case Ok(coins) => SettleSpec(Stage(st, a, coins), st.nextId, a, Negated(coins))
  }

  /** The `setattr` loop over the parsed amounts. Each write touches its own
      column, so the order of the dictionary does not matter; the loop
      follows CURRENCIES. */
  method WriteCoins(db: TransactionTable, id: int, coins: map<Currency, int>)
    requires db.Valid() && id in db.rows && db.rows[id].amounts == map[]
    modifies db
    ensures db.Valid() && db.nextId == old(db.nextId)
    ensures db.rows == old(db.rows)[id := old(db.rows)[id].(amounts := coins)]
  {
    var i := 0;
    while i < |Currencies|
      invariant 0 <= i <= |Currencies|
      invariant db.Valid() && db.nextId == old(db.nextId)
      invariant db.rows == old(db.rows)[id := old(db.rows)[id].(amounts := Written(Currencies[..i], coins))]
    {
      var c := Currencies[i];
      assert Currencies[..i + 1][..i] == Currencies[..i];
      if c in coins {
        db.SetAmount(id, c, coins[c]);
      }
      i := i + 1;
    }
    assert Currencies[..i] == Currencies;
    WrittenAll(coins);
  }

  /** `create_transaction`: parse, insert, set the amounts, then the shared
      guard-partner-guard tail with every amount negated. */
  method CreateTransaction(db: TransactionTable, a: Request) returns (r: Result<int>)
    requires db.Valid()
    modifies db
    ensures db.Valid()
    ensures (r, db.State()) == CreateSpec(old(db.State()), a)
  {
    if a.description == [] || a.text == [] {
      return Err(MissingInput);
    }
    var coins := ParseTransactionString(a.text);
    if coins.Err? {
      return Err(coins.error);
    }
    ghost var st0 := db.State();
    var id := db.CreateNew(a.date, a.userId, a.receiver, a.sender, a.description, a.confirm, map[], None);
    WriteCoins(db, id, coins.value);
    assert db.State() == Stage(st0, a, coins.value);
    r := Settle(db, id, a, Negated(coins.value));
  }

  /** A malformed amount string leaves the table exactly as it was. */
  lemma ParseFailureLeavesTable(st: Snapshot, a: Request)
    requires CoinsOf(a.text).Err?
    ensures CreateSpec(st, a).0.Err? && CreateSpec(st, a).1 == st
  {
  }

  /** "Not enough money" restores every row. The model's key counter stays
      past the rolled-back key, which SQLite would hand out again. */
  lemma RollbackRestoresRows(st: Snapshot, a: Request)
    requires WellKeyed(st)
    ensures CreateSpec(st, a).0 == Err(NotEnoughMoney) ==>
              CreateSpec(st, a).1.rows == st.rows && CreateSpec(st, a).1.nextId == st.nextId + 1
  {
    InvalidCharacterIsNotGuardError('a');
    if CoinsOf(a.text).Err? {
      FoldCoinsNeverGuardError(SplitOn(a.text, ','));
      if FirstInvalid(a.text).Some? {
        InvalidCharacterIsNotGuardError(FirstInvalid(a.text).value);
      }
    } else if a.description != [] && a.text != [] {
      SettleRollbackRestores(st, a, CoinsOf(a.text).value, Negated(CoinsOf(a.text).value));
    }
  }

  /** A successful deposit or withdrawal stores exactly one row, holding
      the parsed amounts. */
  lemma DepositStoresOneRow(st: Snapshot, a: Request)
    requires WellKeyed(st) && a.sender == a.receiver
    ensures CreateSpec(st, a).0.Ok? ==>
              CoinsOf(a.text).Ok? && CreateSpec(st, a).1 == Stage(st, a, CoinsOf(a.text).value)
  {
    if a.description != [] && a.text != [] && CoinsOf(a.text).Ok? {
      SettleDepositSingleRow(st, a, CoinsOf(a.text).value, Negated(CoinsOf(a.text).value));
    }
  }

  /** A successful transfer stores the primary row and its partner, linked
      both ways, the partner holding the opposite of every parsed amount,
      zeros included. */
  lemma TransferStoresNegatedPair(st: Snapshot, a: Request)
    requires WellKeyed(st) && a.sender != a.receiver
    ensures var (r, st') := CreateSpec(st, a);
            var id := st.nextId;
            r.Ok? ==>
              && CoinsOf(a.text).Ok?
              && st'.rows == st.rows[id := Primary(a, id, CoinsOf(a.text).value).(linked := Some(id + 1))]
                                    [id + 1 := Partner(a, id, id + 1, Negated(CoinsOf(a.text).value))]
              && st'.rows[id].linked == Some(id + 1) && st'.rows[id + 1].linked == Some(id)
              && (forall c :: Amount(st'.rows[id + 1], c) == -Amount(st'.rows[id], c))
              && (forall c :: c in st'.rows[id + 1].amounts <==> c in CoinsOf(a.text).value)
  {
    if a.description != [] && a.text != [] && CoinsOf(a.text).Ok? {
      var coins := CoinsOf(a.text).value;
      SettleTransferPair(st, a, coins, Negated(coins));
      forall c ensures Amount(Partner(a, st.nextId, st.nextId + 1, Negated(coins)), c)
                    == -Amount(Primary(a, st.nextId, coins), c) {
        NegationsMirror(a, st.nextId, st.nextId + 1, coins, c);
      }
    }
  }

  /** A create succeeds exactly when both strings are present, the amount
      string parses, and the receiver's balance including the new row has
      confirmed history and no negative total; the sender's balance is not
      part of the condition. */
  lemma CreateSucceedsIff(st: Snapshot, a: Request)
    requires WellKeyed(st)
    ensures CreateSpec(st, a).0.Ok? <==>
              && a.description != [] && a.text != [] && CoinsOf(a.text).Ok?
              && BalanceOf(Stage(st, a, CoinsOf(a.text).value), a.receiver).Ok?
              && !HasNegative(BalanceOf(Stage(st, a, CoinsOf(a.text).value), a.receiver).value)
  {
    if a.description != [] && a.text != [] && CoinsOf(a.text).Ok? {
      SettleOutcome(Stage(st, a, CoinsOf(a.text).value), st.nextId, a, Negated(CoinsOf(a.text).value));
    }
  }

  /** A well-formed create to a receiver without confirmed history fails
      with "There are no Transactions on this account yet" exactly when it
      is unconfirmed, as every `account send` is. Nothing is rolled back:
      the pending primary row stays stored under its key, alone and
      unlinked, so a later confirm credits the receiver with no debit. */
  lemma NoHistoryKeepsPrimaryRow(st: Snapshot, a: Request)
    requires WellKeyed(st)
    requires a.description != [] && a.text != [] && CoinsOf(a.text).Ok?
    ensures CreateSpec(st, a).0 == Err(NoTransactionsYet) <==> !a.confirm && BalanceOf(st, a.receiver).Err?
    ensures CreateSpec(st, a).0 == Err(NoTransactionsYet) ==>
              && st.nextId !in st.rows
              && CreateSpec(st, a).1 == Snapshot(st.rows[st.nextId := Primary(a, st.nextId, CoinsOf(a.text).value)], st.nextId + 1)
              && Primary(a, st.nextId, CoinsOf(a.text).value).linked.None?
  {
    SettleNoHistory(st, a, CoinsOf(a.text).value, Negated(CoinsOf(a.text).value));
  }

  /** A transfer created unconfirmed moves no balance until it is confirmed. */
  lemma PendingCreateMovesNothing(st: Snapshot, a: Request, account: int)
    requires WellKeyed(st) && !a.confirm
    ensures var out := CreateSpec(st, a);
            out.0.Ok? ==> BalanceOf(out.1, account) == BalanceOf(st, account)
  {
    var out := CreateSpec(st, a);
    if a.description != [] && a.text != [] && CoinsOf(a.text).Ok? {
      PendingSettleInvisible(st, a, CoinsOf(a.text).value, Negated(CoinsOf(a.text).value), account);
    } else {
      assert out.0.Err?;
    }
  }

  /* ---------------------------------------------------------------------- */
  /* Display                                                                 */
  /* ---------------------------------------------------------------------- */

  /** `format_transaction`: title with the pending mark, id and purpose;
      body with the non-zero coins, the parties and the date. */
  function FormatTransaction(t: Transaction, chars: map<int, Character>, emoji: Currency -> string): Result<(string, string)> {
    var title := PendingMark(t) + "ID:" + IntToString(t.id) + " | " + t.description;
    match PartiesText(t, chars)
    case Err(e) => Err(e)
    case Ok(parties) => Ok((title, CoinsText(Currencies, t, emoji) + parties + "\n" + DisplayDate(t.date)))
  }

  /** The title is marked "(Pending) " exactly for unconfirmed rows and
      ends with the purpose; the body ends with the date line; it fails only
      when a party has no character record. */
  lemma FormatTransactionShape(t: Transaction, chars: map<int, Character>, emoji: Currency -> string)
    ensures var r := FormatTransaction(t, chars, emoji);
            && (r.Err? <==> t.receiverId !in chars || (t.senderId != t.receiverId && t.senderId !in chars))
            && (r.Ok? ==> (StartsWith(r.value.0, "(Pending) ") <==> !t.confirmed))
            && (r.Ok? ==> EndsWith(r.value.0, " | " + t.description))
            && (r.Ok? ==> EndsWith(r.value.1, "\n" + DisplayDate(t.date)))
  {
    PendingMarkIffUnconfirmed(t, IntToString(t.id) + " | " + t.description);
    assert PendingMark(t) + "ID:" + IntToString(t.id) + " | " + t.description
        == PendingMark(t) + "ID:" + (IntToString(t.id) + " | " + t.description);
  }

  /* ---------------------------------------------------------------------- */
  /* bank delete / account delete                                            */
  /* ---------------------------------------------------------------------- */

  /** The reply lines for one deleted row. `bank delete` (no owner) reports
      success; `account delete` first warns when the row is not a
      deposit/withdrawal of the owner's character, and deletes it anyway. */
  function DeleteLines(id: int, t: Transaction, owner: Option<int>): seq<string> {
    if owner.None? then [IntToString(id) + ":Success - 1 transactions deleted."]
    else
      (if t.senderId == t.receiverId == owner.value then []
       else [IntToString(id) + ": This is not a deposit/withdraw of your character"])
      + [IntToString(id) + ": Success - 1 transaction deleted."]
  }

  /** The delete loop as a value: each id is looked up and deleted in turn;
      an id with no row fails on `.delete()` of None, after the earlier
      deletes have already been committed. */
  function DeleteSpec(rows: map<int, Transaction>, ids: seq<int>, owner: Option<int>): (Result<seq<string>>, map<int, Transaction>)
    decreases |ids|
  {
    if ids == [] then (Ok([]), rows)
    else if ids[0] !in rows then (Err(AttributeError), rows)
    else
      var (r, rows') := DeleteSpec(rows - {ids[0]}, ids[1..], owner);
      (if r.Ok? then Ok(DeleteLines(ids[0], rows[ids[0]], owner) + r.value) else r, rows')
  }

  /** The reply lines gathered so far in front of the outcome of the rest. */
  function Prepend(lines: seq<string>, out: (Result<seq<string>>, map<int, Transaction>)): (Result<seq<string>>, map<int, Transaction>) {
    (if out.0.Ok? then Ok(lines + out.0.value) else out.0, out.1)
  }

  lemma PrependTwice(a: seq<string>, b: seq<string>, out: (Result<seq<string>>, map<int, Transaction>))
    ensures Prepend(a, Prepend(b, out)) == Prepend(a + b, out)
  {
    if out.0.Ok? {
      assert a + (b + out.0.value) == (a + b) + out.0.value;
    }
  }

  /** One turn of the delete loop, read off the value. */
  lemma DeleteStep(rows: map<int, Transaction>, ids: seq<int>, i: nat, owner: Option<int>)
    requires i < |ids|
    ensures ids[i] !in rows ==> DeleteSpec(rows, ids[i..], owner) == (Err(AttributeError), rows)
    ensures ids[i] in rows ==>
              DeleteSpec(rows, ids[i..], owner)
              == Prepend(DeleteLines(ids[i], rows[ids[i]], owner), DeleteSpec(rows - {ids[i]}, ids[i + 1..], owner))
  {
    assert ids[i..][0] == ids[i] && ids[i..][1..] == ids[i + 1..];
  }

  /** The loop shared by both delete commands. */
  method DeleteEach(db: TransactionTable, ids: seq<int>, owner: Option<int>) returns (r: Result<seq<string>>)
    requires db.Valid()
    modifies db
    ensures db.Valid() && db.nextId == old(db.nextId)
    ensures (r, db.rows) == DeleteSpec(old(db.rows), ids, owner)
  {
    var lines: seq<string> := [];
    var i := 0;
    assert ids[0..] == ids;
    ghost var whole := DeleteSpec(db.rows, ids, owner);
    if whole.0.Ok? {
      assert [] + whole.0.value == whole.0.value;
    }
    assert Prepend([], whole) == whole;
    while i < |ids|
      invariant 0 <= i <= |ids|
      invariant db.Valid() && db.nextId == old(db.nextId)
      invariant DeleteSpec(old(db.rows), ids, owner) == Prepend(lines, DeleteSpec(db.rows, ids[i..], owner))
    {
      DeleteStep(db.rows, ids, i, owner);
      var t := db.QueryOne(ids[i]);
      if t.None? {
        return Err(AttributeError);
      }
      var more := DeleteLines(ids[i], t.value, owner);
      ghost var rest := DeleteSpec(db.rows - {ids[i]}, ids[i + 1..], owner);
      PrependTwice(lines, more, rest);
      var status := db.Delete(ids[i]);
      assert rest == DeleteSpec(db.rows, ids[i + 1..], owner);
      lines := lines + more;
      i := i + 1;
    }
    assert lines + [] == lines;
    return Ok(lines);
  }

  /** `bank delete`. */
  method BankDelete(db: TransactionTable, ids: seq<int>) returns (r: Result<seq<string>>)
    requires db.Valid()
    modifies db
    ensures db.Valid() && db.nextId == old(db.nextId)
    ensures (r, db.rows) == DeleteSpec(old(db.rows), ids, None)
  {
    r := DeleteEach(db, ids, None);
  }

  /** `account delete`: an active character is required; then the same
      loop as `bank delete`, with the ownership warning. */
  method AccountDelete(db: TransactionTable, dir: Directory, author: int, ids: seq<int>)
    returns (r: Result<seq<string>>)
    requires db.Valid() && dir.Valid()
    modifies db, dir
    ensures db.Valid() && dir.Valid() && db.nextId == old(db.nextId)
    ensures dir.characters == old(dir.characters) && dir.nextId == old(dir.nextId)
    ensures dir.users == ActiveCleared(old(dir.characters), old(dir.users), author)
    ensures var active := ActiveChar(old(dir.characters), old(dir.users), author);
            && (active.Err? ==> r == Err(active.error) && db.rows == old(db.rows))
            && (active == Ok(None) ==> r == Err(NoActiveCharacter) && db.rows == old(db.rows))
            && (active.Ok? && active.value.Some? ==>
                  (r, db.rows) == DeleteSpec(old(db.rows), ids, Some(active.value.value.id)))
  {
    var active := dir.QueryActiveChar(author);
    if active.Err? {
      return Err(active.error);
    }
    if active.value.None? {
      return Err(NoActiveCharacter);
    }
    r := DeleteEach(db, ids, Some(active.value.value.id));
  }

  /** The table after deleting the listed keys one by one. */
  function RemoveAll(rows: map<int, Transaction>, ids: seq<int>): map<int, Transaction>
    decreases |ids|
  {
    if ids == [] then rows else RemoveAll(rows - {ids[0]}, ids[1..])
  }

  /** Exactly the listed keys are gone; every other row is as it was. */
  lemma {:induction false} RemoveAllExactly(rows: map<int, Transaction>, ids: seq<int>)
    ensures forall k :: k in RemoveAll(rows, ids) <==> k in rows && k !in ids
    ensures forall k :: k in RemoveAll(rows, ids) ==> RemoveAll(rows, ids)[k] == rows[k]
    decreases |ids|
  {
    if ids != [] {
      RemoveAllExactly(rows - {ids[0]}, ids[1..]);
      assert forall k :: k in ids <==> k == ids[0] || k in ids[1..];
    }
  }

  /** The delete loop completes exactly when every id names a row and no id
      repeats an earlier one (a repeat finds its row already gone); it then
      removes exactly the listed rows and answers at least one line per id. */
  lemma {:induction false} DeleteCompletesIff(rows: map<int, Transaction>, ids: seq<int>, owner: Option<int>)
    ensures DeleteSpec(rows, ids, owner).0.Ok? <==>
              forall k :: 0 <= k < |ids| ==> ids[k] in rows && ids[k] !in ids[..k]
    ensures DeleteSpec(rows, ids, owner).0.Ok? ==>
              DeleteSpec(rows, ids, owner).1 == RemoveAll(rows, ids)
              && |DeleteSpec(rows, ids, owner).0.value| >= |ids|
    decreases |ids|
  {
    if ids != [] {
      var x := ids[0];
      var rest := ids[1..];
      DeleteCompletesIff(rows - {x}, rest, owner);
      if x in rows {
        if forall k :: 0 <= k < |ids| ==> ids[k] in rows && ids[k] !in ids[..k] {
          forall k | 0 <= k < |rest| ensures rest[k] in rows - {x} && rest[k] !in rest[..k] {
            assert ids[k + 1] == rest[k] && ids[..k + 1] == [x] + rest[..k];
          }
        }
        if forall k :: 0 <= k < |rest| ==> rest[k] in rows - {x} && rest[k] !in rest[..k] {
          forall k | 0 <= k < |ids| ensures ids[k] in rows && ids[k] !in ids[..k] {
            if k > 0 {
              assert ids[k] == rest[k - 1] && ids[..k] == [x] + rest[..k - 1];
            }
          }
        }
      } else {
        assert !(ids[0] in rows);
      }
    }
  }

  /** A failing id ends the loop with every earlier listed row deleted and
      the rest of the table untouched. */
  lemma {:induction false} DeleteFailureKeepsEarlierDeletes(rows: map<int, Transaction>, ids: seq<int>, owner: Option<int>, k: nat)
    requires k < |ids| && ids[k] !in RemoveAll(rows, ids[..k])
    requires forall j :: 0 <= j < k ==> ids[j] in RemoveAll(rows, ids[..j])
    ensures DeleteSpec(rows, ids, owner) == (Err(AttributeError), RemoveAll(rows, ids[..k]))
    decreases k
  {
    if k > 0 {
      var x := ids[0];
      var rest := ids[1..];
      assert ids[..0] == [];
      assert x in rows;
      forall j | 0 <= j < k - 1 ensures rest[j] in RemoveAll(rows - {x}, rest[..j]) {
        assert ids[j + 1] == rest[j] && ids[..j + 1] == [x] + rest[..j];
        assert ids[..j + 1][1..] == rest[..j];
      }
      assert ids[k] == rest[k - 1] && ids[..k] == [x] + rest[..k - 1];
      assert ids[..k][1..] == rest[..k - 1];
      DeleteFailureKeepsEarlierDeletes(rows - {x}, rest, owner, k - 1);
    }
  }

  /** `account delete` removes the same rows as `bank delete` and fails on
      the same ids: the ownership check only adds a warning line. */
  lemma {:induction false} AccountDeleteIgnoresOwnership(rows: map<int, Transaction>, ids: seq<int>, owner: int)
    ensures DeleteSpec(rows, ids, Some(owner)).1 == DeleteSpec(rows, ids, None).1
    ensures DeleteSpec(rows, ids, Some(owner)).0.Ok? <==> DeleteSpec(rows, ids, None).0.Ok?
    decreases |ids|
  {
    if ids != [] && ids[0] in rows {
      AccountDeleteIgnoresOwnership(rows - {ids[0]}, ids[1..], owner);
    }
  }

  /* ---------------------------------------------------------------------- */
  /* Sending money                                                           */
  /* ---------------------------------------------------------------------- */

  /** `account send`: no '-' in the amount string (None fails the `in`
      test), an active character, not oneself, an existing receiver; the
      transfer is created unconfirmed. */
  method AccountSendMoney(db: TransactionTable, dir: Directory, author: int, receiverNr: int,
                          text: Option<string>, description: string, date: string)
    returns (r: Result<int>)
    requires db.Valid() && dir.Valid()
    modifies db, dir
    ensures db.Valid() && dir.Valid()
    ensures dir.characters == old(dir.characters) && dir.nextId == old(dir.nextId)
    ensures text.None? ==> r == Err(TypeError) && db.State() == old(db.State()) && dir.users == old(dir.users)
    ensures text.Some? && '-' in text.value ==>
              r == Err(OnlyPositive) && db.State() == old(db.State()) && dir.users == old(dir.users)
    ensures text.Some? && '-' !in text.value ==>
      && dir.users == ActiveCleared(old(dir.characters), old(dir.users), author)
      && var active := ActiveChar(old(dir.characters), old(dir.users), author);
      && (active.Err? ==> r == Err(active.error) && db.State() == old(db.State()))
      && (active == Ok(None) ==> r == Err(NoActiveCharacter) && db.State() == old(db.State()))
      && (active.Ok? && active.value.Some? ==>
            var sender := active.value.value.id;
            && (sender == receiverNr ==> r == Err(SelfTransfer) && db.State() == old(db.State()))
            && (sender != receiverNr && receiverNr !in old(dir.characters) ==>
                  r == Err(ReceiverNotFound) && db.State() == old(db.State()))
            && (sender != receiverNr && receiverNr in old(dir.characters) ==>
                  (r, db.State()) == CreateSpec(old(db.State()), Request(author, date, text.value, description, sender, receiverNr, false))))
  {
    if text.None? {
      return Err(TypeError);
    }
    if '-' in text.value {
      return Err(OnlyPositive);
    }
    var active := dir.QueryActiveChar(author);
    if active.Err? {
      return Err(active.error);
    }
    if active.value.None? {
      return Err(NoActiveCharacter);
    }
    var character := active.value.value;
    if character.id == receiverNr {
      return Err(SelfTransfer);
    }
    if receiverNr !in dir.characters {
      return Err(ReceiverNotFound);
    }
    var receiver := dir.characters[receiverNr];
    r := CreateTransaction(db, Request(author, date, text.value, description, character.id, receiver.id, false));
  }

  /** What a successful `account send` stores: the primary row from the
      active character and its swapped partner row under the next key, both
      unconfirmed, so no account's balance moves until it is confirmed. */
  lemma AccountSendStoresPendingPair(st: Snapshot, sender: int, receiver: int, author: int, date: string,
                                     text: string, description: string)
    requires WellKeyed(st) && sender != receiver
    ensures var a := Request(author, date, text, description, sender, receiver, false);
            var out := CreateSpec(st, a);
            out.0.Ok? ==>
              && out.0.value == st.nextId && out.1.nextId == st.nextId + 2
              && st.nextId in out.1.rows && st.nextId + 1 in out.1.rows
              && !out.1.rows[st.nextId].confirmed && !out.1.rows[st.nextId + 1].confirmed
              && out.1.rows[st.nextId].senderId == sender && out.1.rows[st.nextId].receiverId == receiver
              && out.1.rows[st.nextId + 1].senderId == receiver && out.1.rows[st.nextId + 1].receiverId == sender
              && forall account :: BalanceOf(out.1, account) == BalanceOf(st, account)
  {
    var a := Request(author, date, text, description, sender, receiver, false);
    if CreateSpec(st, a).0.Ok? {
      SettleTransferPair(st, a, CoinsOf(text).value, Negated(CoinsOf(text).value));
      forall account ensures BalanceOf(CreateSpec(st, a).1, account) == BalanceOf(st, account) {
        PendingCreateMovesNothing(st, a, account);
      }
    }
  }

  /** The refusal of `bank send`: the bank's own account 1. */
  predicate BankSendRefused(receiverNr: int) {
    receiverNr == 1
  }

  /** `bank send`: a confirmed transfer from the bank (account 1). */
  method BankSendMoney(db: TransactionTable, dir: Directory, author: int, receiverNr: int,
                       text: string, description: string, date: string)
    returns (r: Result<int>)
    requires db.Valid() && dir.Valid()
    modifies db
    ensures db.Valid()
    ensures BankSendRefused(receiverNr) ==> r == Err(SelfTransfer) && db.State() == old(db.State())
    ensures !BankSendRefused(receiverNr) && receiverNr !in dir.characters ==> r == Err(ReceiverNotFound) && db.State() == old(db.State())
    ensures !BankSendRefused(receiverNr) && receiverNr in dir.characters ==>
      (r, db.State()) == CreateSpec(old(db.State()), Request(author, date, text, description, 1, receiverNr, true))
  {
    if BankSendRefused(receiverNr) {
      return Err(SelfTransfer);
    }
    if receiverNr !in dir.characters {
      return Err(ReceiverNotFound);
    }
    var receiver := dir.characters[receiverNr];
    r := CreateTransaction(db, Request(author, date, text, description, 1, receiver.id, true));
  }

  /** Every successful `bank send` is a transfer with a partner row on the
      bank's account: the guard rules out the bank paying itself. */
  lemma BankSendIsAlwaysTransfer(st: Snapshot, receiverNr: int, text: string, description: string, author: int, date: string)
    requires WellKeyed(st) && !BankSendRefused(receiverNr)
    ensures var a := Request(author, date, text, description, 1, receiverNr, true);
            CreateSpec(st, a).0.Ok? ==>
              && st.nextId + 1 in CreateSpec(st, a).1.rows
              && CreateSpec(st, a).1.rows[st.nextId + 1].receiverId == 1
  {
    TransferStoresNegatedPair(st, Request(author, date, text, description, 1, receiverNr, true));
  }

  /* ---------------------------------------------------------------------- */
  /* bank accounts                                                           */
  /* ---------------------------------------------------------------------- */

  /** One listing line: "id: display name (name)". */
  function AccountLine(c: Character): string {
    IntToString(c.id) + ": " + c.displayName + " (" + c.name + ")"
  }

  /** The characters an account holder's field lists: the bank's account 1
      and every character that is not an NPC, in the order given. */
  function Listed(cs: seq<Character>): (r: seq<Character>)
    ensures forall c :: c in r <==> c in cs && (c.id == 1 || !c.npc)
  {
    if cs == [] then []
    else Listed(cs[..|cs| - 1]) + (if cs[|cs| - 1].id == 1 || !cs[|cs| - 1].npc then [cs[|cs| - 1]] else [])
  }

  /** The field for one user: their listed characters' lines, or nothing
      when no character of theirs is listed. */
  function AccountField(chars: map<int, Character>, nextId: int, userId: int): seq<(int, seq<string>)> {
    var listed := Listed(Owned(chars, userId, nextId));
    if listed == [] then []
    else [(userId, seq(|listed|, i requires 0 <= i < |listed| => AccountLine(listed[i])))]
  }

  function AccountFields(chars: map<int, Character>, nextId: int, userIds: seq<int>): seq<(int, seq<string>)> {
    if userIds == [] then []
    else AccountFields(chars, nextId, userIds[..|userIds| - 1]) + AccountField(chars, nextId, userIds[|userIds| - 1])
  }

  /** `bank accounts` over the user rows in key order: `userIds` is what
      `UserDB.query_all()` yields, every stored user once, in ascending key
      order. An empty user table makes `query_all` return None, which the
      loop cannot iterate. */
  method ShowAccounts(dir: Directory, userIds: seq<int>) returns (r: Result<seq<(int, seq<string>)>>)
    requires dir.Valid()
    requires forall u :: u in userIds <==> u in dir.users
    requires forall i, j :: 0 <= i < j < |userIds| ==> userIds[i] < userIds[j]
    ensures dir.users == map[] <==> r == Err(TypeError)
    ensures dir.users != map[] ==> r == Ok(AccountFields(dir.characters, dir.nextId, userIds))
  {
    if userIds == [] {
      assert forall u :: u in dir.users.Keys ==> u in userIds;
      assert dir.users.Keys == {};
      return Err(TypeError);
    }
    assert userIds[0] in userIds;
    var fields: seq<(int, seq<string>)> := [];
    var i := 0;
    while i < |userIds|
      invariant 0 <= i <= |userIds|
      invariant fields == AccountFields(dir.characters, dir.nextId, userIds[..i])
    {
      assert userIds[..i + 1][..i] == userIds[..i];
      fields := fields + AccountField(dir.characters, dir.nextId, userIds[i]);
      i := i + 1;
    }
    assert userIds[..i] == userIds;
    return Ok(fields);
  }

  /** A character is listed in its owner's field exactly when it is stored
      and is the bank's account 1 or not an NPC; a user is given a field only
      when at least one of their characters is listed. */
  lemma AccountFieldExactly(chars: map<int, Character>, nextId: int, userId: int, c: Character)
    requires CharactersKeyed(chars, nextId)
    ensures c in Listed(Owned(chars, userId, nextId)) <==>
              c.id in chars && chars[c.id] == c && c.userId == userId && (c.id == 1 || !c.npc)
    ensures AccountField(chars, nextId, userId) == [] <==>
              forall id :: id in chars && chars[id].userId == userId ==> chars[id].id != 1 && chars[id].npc
  {
    OwnedMembership(chars, userId, nextId, c);
    forall id | id in chars && chars[id].userId == userId
      ensures chars[id] in Listed(Owned(chars, userId, nextId)) <==> chars[id].id == 1 || !chars[id].npc
    {
      OwnedMembership(chars, userId, nextId, chars[id]);
    }
    if Listed(Owned(chars, userId, nextId)) != [] {
      var d := Listed(Owned(chars, userId, nextId))[0];
      OwnedMembership(chars, userId, nextId, d);
    }
  }
}
