/** What the two versions of the bank cog (src/cogs/bank.py and the later
    src/cogs/extra/bank.py) share word for word: the character check and
    comma-piece grammar of amount strings, `get_balance`, the guarded tail of
    `create_transaction` (balance guard, partner row, link, second guard) and
    `confirm_transaction`. */
module Ledger {
  import opened Common
  import opened Text
  import opened Store
  import opened Characters

  /* ---------------------------------------------------------------------- */
  /* Amount strings such as "2g,-5s"                                         */
  /* ---------------------------------------------------------------------- */

  /** `c in ',+-1234567890' or c in CURRENCIES_SHORT`. */
  predicate IsTransactionChar(c: char) {
    c in ",+-1234567890" || c in "pgesc"
  }

  /** The denomination whose short letter is `ch`, if any. */
  function CurrencyOfLetter(ch: char): (r: Option<Currency>)
    ensures r.Some? ==> Letter(r.value) == ch
    ensures r.None? ==> forall c :: Letter(c) != ch
  {
    if ch == 'p' then Some(Platinum)
    else if ch == 'g' then Some(Gold)
    else if ch == 'e' then Some(Electrum)
    else if ch == 's' then Some(Silver)
    else if ch == 'c' then Some(Copper)
    else None
  }

  /** The first character of `s` outside the amount alphabet. */
  function FirstInvalid(s: string): Option<char> {
    if s == [] then None
    else if !IsTransactionChar(s[0]) then Some(s[0])
    else FirstInvalid(s[1..])
  }

  lemma {:induction false} FirstInvalidIsFirst(s: string)
    ensures FirstInvalid(s).None? <==> forall i :: 0 <= i < |s| ==> IsTransactionChar(s[i])
    ensures FirstInvalid(s).Some? ==>
      exists k :: 0 <= k < |s| && s[k] == FirstInvalid(s).value && !IsTransactionChar(s[k])
                && forall j :: 0 <= j < k ==> IsTransactionChar(s[j])
  {
    if s != [] && IsTransactionChar(s[0]) {
      FirstInvalidIsFirst(s[1..]);
      if FirstInvalid(s[1..]).Some? {
        var k :| 0 <= k < |s[1..]| && s[1..][k] == FirstInvalid(s).value && !IsTransactionChar(s[1..][k])
                 && forall j :: 0 <= j < k ==> IsTransactionChar(s[1..][j]);
        assert s[k + 1] == s[1..][k];
        forall j | 0 <= j < k + 1 ensures IsTransactionChar(s[j]) {
          if j > 0 { assert s[j] == s[1..][j - 1]; }
        }
      } else {
        forall i | 0 <= i < |s| ensures IsTransactionChar(s[i]) {
          if i > 0 { assert s[i] == s[1..][i - 1]; }
        }
      }
    } else if s != [] {
      assert !IsTransactionChar(s[0]);
    }
  }

  function InvalidCharacter(c: char): Failure {
    BadArgument("Invalid character in transaction " + [c])
  }

  lemma InvalidCharacterIsNotGuardError(c: char)
    ensures InvalidCharacter(c) != NotEnoughMoney && MissingInput != NotEnoughMoney
  {
    assert |InvalidCharacter(c).message| != |NotEnoughMoney.message|;
    assert |MissingInput.message| != |NotEnoughMoney.message|;
  }

  const MissingInput: Failure := BadArgument("Please provide a transaction string and a description")

  /** The character loop of both versions: the first offending character. */
  method CheckCharacters(s: string) returns (bad: Option<char>)
    ensures bad == FirstInvalid(s)
  {
    var i := 0;
    while i < |s|
      invariant 0 <= i <= |s|
      invariant FirstInvalid(s) == FirstInvalid(s[i..])
    {
      assert s[i..][0] == s[i] && s[i..][1..] == s[i + 1..];
      if !IsTransactionChar(s[i]) {
        return Some(s[i]);
      }
      i := i + 1;
    }
    return None;
  }

  /** One comma piece: `amount = int(piece[:-1])` first, then the last
      character must be a currency letter. */
  function ParseCoin(piece: string): Result<(Currency, int)> {
    var amountText := if piece == [] then [] else piece[..|piece| - 1];
    var lastText := if piece == [] then [] else [piece[|piece| - 1]];
    match ParseInt(amountText)
    case None => Err(ValueError)
    case Some(v) =>
      var c := if piece == [] then None else CurrencyOfLetter(piece[|piece| - 1]);
      if c.Some? then Ok((c.value, v))
      else Err(BadArgument("Invalid currency detected:" + lastText))
  }

  /** The piece loop: each parsed piece writes its currency (a later piece of
      the same currency overwrites an earlier one); the first failing piece
      stops the loop. Returns what was written before the stop, and the
      failure if there was one. */
  function FoldCoins(pieces: seq<string>): (map<Currency, int>, Option<Failure>) {
    if pieces == [] then (map[], None)
    else
      var (m, e) := FoldCoins(pieces[..|pieces| - 1]);
      if e.Some? then (m, e)
      else match ParseCoin(pieces[|pieces| - 1])
        case Err(x) => (m, Some(x))
        case Ok((c, v)) => (m[c := v], None)
  }

  /** The value the last piece of currency `c` carries, searching from the end. */
  function LastAmount(pieces: seq<string>, c: Currency): Option<int> {
    if pieces == [] then None
    else match ParseCoin(pieces[|pieces| - 1])
      case Ok((c', v)) => if c' == c then Some(v) else LastAmount(pieces[..|pieces| - 1], c)
      case Err(_) => LastAmount(pieces[..|pieces| - 1], c)
  }

  /** The piece loop succeeds exactly when every piece parses; it then holds,
      for each currency, the amount of the LAST piece of that currency, and
      no currency that no piece names. */
  lemma {:induction false} FoldCoinsLastWins(pieces: seq<string>)
    ensures FoldCoins(pieces).1.None? <==> forall i :: 0 <= i < |pieces| ==> ParseCoin(pieces[i]).Ok?
    ensures FoldCoins(pieces).1.None? ==>
      forall c :: (c in FoldCoins(pieces).0 <==> LastAmount(pieces, c).Some?)
               && (c in FoldCoins(pieces).0 ==> FoldCoins(pieces).0[c] == LastAmount(pieces, c).value)
  {
    if pieces != [] {
      var init := pieces[..|pieces| - 1];
      FoldCoinsLastWins(init);
      assert forall i :: 0 <= i < |init| ==> init[i] == pieces[i];
    }
  }

  /** On failure, the reported error is that of the first piece that fails. */
  lemma {:induction false} FoldCoinsFirstError(pieces: seq<string>)
    ensures FoldCoins(pieces).1.Some? ==>
      exists k :: 0 <= k < |pieces| && ParseCoin(pieces[k]) == Err(FoldCoins(pieces).1.value)
                && forall j :: 0 <= j < k ==> ParseCoin(pieces[j]).Ok?
  {
    if pieces != [] {
      var init := pieces[..|pieces| - 1];
      FoldCoinsFirstError(init);
      FoldCoinsLastWins(init);
      assert forall i :: 0 <= i < |init| ==> init[i] == pieces[i];
    }
  }

  /** Once a piece fails, the fold keeps that failure and what it had
      written before it. */
  lemma {:induction false} FoldCoinsStopsAt(pieces: seq<string>, i: nat)
    requires i < |pieces| && FoldCoins(pieces[..i]).1.None? && ParseCoin(pieces[i]).Err?
    ensures FoldCoins(pieces) == (FoldCoins(pieces[..i]).0, Some(ParseCoin(pieces[i]).error))
    decreases |pieces|
  {
    var init := pieces[..|pieces| - 1];
    if |pieces| == i + 1 {
      assert init == pieces[..i];
    } else {
      assert init[..i] == pieces[..i] && init[i] == pieces[i];
      FoldCoinsStopsAt(init, i);
    }
  }

  /** One more successful piece extends the fold by one write. */
  lemma FoldCoinsStep(pieces: seq<string>, i: nat)
    requires i < |pieces| && FoldCoins(pieces[..i]).1.None? && ParseCoin(pieces[i]).Ok?
    ensures FoldCoins(pieces[..i + 1])
         == (FoldCoins(pieces[..i]).0[ParseCoin(pieces[i]).value.0 := ParseCoin(pieces[i]).value.1], None)
  {
    assert pieces[..i + 1][..i] == pieces[..i];
  }

  /** Parsing never reports what the balance guard reports. */
  lemma FoldCoinsNeverGuardError(pieces: seq<string>)
    ensures FoldCoins(pieces).1 != Some(NotEnoughMoney) && FoldCoins(pieces).1 != Some(NoTransactionsYet)
  {
    FoldCoinsFirstError(pieces);
    if FoldCoins(pieces).1.Some? {
      var k :| 0 <= k < |pieces| && ParseCoin(pieces[k]) == Err(FoldCoins(pieces).1.value);
      var piece := pieces[k];
      if ParseInt(if piece == [] then [] else piece[..|piece| - 1]).Some? {
        var lastText := if piece == [] then [] else [piece[|piece| - 1]];
        assert ("Invalid currency detected:" + lastText)[0] == 'I';
      }
    }
  }

  /** `parse_transaction_string` as a value: the character check, then the
      piece loop over `s.split(',')`. */
  function CoinsOf(s: string): Result<map<Currency, int>> {
    match FirstInvalid(s)
    case Some(c) => Err(InvalidCharacter(c))
    case None =>
      var (m, e) := FoldCoins(SplitOn(s, ','));
      if e.Some? then Err(e.value) else Ok(m)
  }

  /* ---------------------------------------------------------------------- */
  /* Balances                                                                */
  /* ---------------------------------------------------------------------- */

  /** The sum of one currency over some rows, NULL counting as zero. */
  function Sum(txs: seq<Transaction>, c: Currency): int {
    if txs == [] then 0 else Sum(txs[..|txs| - 1], c) + Amount(txs[|txs| - 1], c)
  }

  lemma SumSnoc(txs: seq<Transaction>, t: Transaction, c: Currency)
    ensures Sum(txs + [t], c) == Sum(txs, c) + Amount(t, c)
  {
    assert (txs + [t])[..|txs|] == txs;
  }

  /** The `coins` dict of `get_balance`: one total per denomination. */
  function Totals(txs: seq<Transaction>): map<Currency, int> {
    map c | c in CurrencySet :: Sum(txs, c)
  }

  /** Rows that count towards an account: confirmed, received by it. */
  function CountedBy(account: int): Filter {
    Filter(Some(account), Some(true))
  }

  const NoTransactionsYet: Failure := BadArgument("There are no Transactions on this account yet")
  const NotEnoughMoney: Failure := BadArgument("Not enough money in account")

  /** `get_balance(account)`: the per-currency sums over the confirmed rows
      whose receiver is the account; an error, not a zero balance, when
      there is no such row. */
  function BalanceOf(st: Snapshot, account: int): Result<map<Currency, int>> {
    var txs := SelectAll(st, CountedBy(account));
    if txs == [] then Err(NoTransactionsYet) else Ok(Totals(txs))
  }

  /** `any(amount < 0 for amount in balance.values())`. */
  predicate HasNegative(b: map<Currency, int>) {
    exists c :: c in b && b[c] < 0
  }

  /** The inner loop of `get_balance`: adds one row's amounts, NULL as zero,
      to the running totals. */
  method AddRow(coins: map<Currency, int>, t: Transaction) returns (coins': map<Currency, int>)
    requires coins.Keys == CurrencySet
    ensures coins'.Keys == CurrencySet
    ensures forall c :: c in CurrencySet ==> coins'[c] == coins[c] + Amount(t, c)
  {
    coins' := coins;
    for j := 0 to |Currencies|
      invariant coins'.Keys == CurrencySet
      invariant forall c :: c in CurrencySet ==> coins'[c] == coins[c] + (if Rank(c) < j then Amount(t, c) else 0)
    {
      var c := Currencies[j];
      assert Rank(c) == j;
      coins' := coins'[c := coins'[c] + Amount(t, c)];
    }
  }

  /** `get_balance`: folds the confirmed rows into the five totals. */
  method GetBalance(db: TransactionTable, account: int) returns (r: Result<map<Currency, int>>)
    requires db.Valid()
    ensures r == BalanceOf(db.State(), account)
    ensures r.Ok? ==> r.value.Keys == CurrencySet
    ensures r.Ok? ==> forall c :: c in CurrencySet ==> r.value[c] == Sum(SelectAll(db.State(), CountedBy(account)), c)
  {
    var coins: map<Currency, int> := map c | c in CurrencySet :: 0;
    var found := db.QueryAll(CountedBy(account));
    if found.None? {
      return Err(NoTransactionsYet);
    }
    var txs := found.value;
    assert coins == Totals(txs[..0]);
    for i := 0 to |txs|
      invariant coins == Totals(txs[..i])
    {
      var t := txs[i];
      var next := AddRow(coins, t);
      assert txs[..i + 1] == txs[..i] + [t];
      TotalsStep(txs[..i], t, coins, next);
      coins := next;
    }
    assert txs[..|txs|] == txs;
    r := Ok(coins);
  }

  /** One more row adds its amounts to every total. */
  lemma TotalsStep(txs: seq<Transaction>, t: Transaction, before: map<Currency, int>, after: map<Currency, int>)
    requires before == Totals(txs) && after.Keys == CurrencySet
    requires forall c :: c in CurrencySet ==> after[c] == before[c] + Amount(t, c)
    ensures after == Totals(txs + [t])
  {
    forall c | c in CurrencySet ensures after[c] == Sum(txs + [t], c) {
      SumSnoc(txs, t, c);
    }
  }

  /** Two versions of a row that weigh the same in every balance. */
  predicate SameMoney(t: Transaction, u: Transaction) {
    t.receiverId == u.receiverId && t.confirmed == u.confirmed && t.amounts == u.amounts
  }

  lemma {:induction false} SelectSameMoney(rows: map<int, Transaction>, f: Filter, n: int, k: int, t: Transaction, c: Currency)
    requires k in rows && SameMoney(rows[k], t)
    ensures |Select(rows[k := t], f, n)| == |Select(rows, f, n)|
    ensures Sum(Select(rows[k := t], f, n), c) == Sum(Select(rows, f, n), c)
    decreases n
  {
    if n > 1 {
      SelectSameMoney(rows, f, n - 1, k, t, c);
      var rows' := rows[k := t];
      var a := Select(rows', f, n - 1);
      var b := Select(rows, f, n - 1);
      if n - 1 in rows && Matches(rows[n - 1], f) {
        assert Matches(rows'[n - 1], f);
        SumSnoc(a, rows'[n - 1], c);
        SumSnoc(b, rows[n - 1], c);
      } else {
        assert !(n - 1 in rows' && Matches(rows'[n - 1], f));
        assert Select(rows', f, n) == a && Select(rows, f, n) == b;
      }
    }
  }

  /** Rewriting a row without touching its receiver, its confirmation or its
      amounts leaves every balance as it was. */
  lemma BalanceIgnoresSameMoney(st: Snapshot, k: int, t: Transaction, account: int)
    requires k in st.rows && SameMoney(st.rows[k], t)
    ensures BalanceOf(Snapshot(st.rows[k := t], st.nextId), account) == BalanceOf(st, account)
  {
    var f := CountedBy(account);
    forall c ensures Sum(Select(st.rows[k := t], f, st.nextId), c) == Sum(Select(st.rows, f, st.nextId), c) {
      SelectSameMoney(st.rows, f, st.nextId, k, t, c);
    }
    SelectSameMoney(st.rows, f, st.nextId, k, t, Gold);
    var a := Select(st.rows[k := t], f, st.nextId);
    var b := Select(st.rows, f, st.nextId);
    assert a == [] <==> b == [];
    assert Totals(a) == Totals(b);
    assert SelectAll(Snapshot(st.rows[k := t], st.nextId), f) == a;
  }

  /** Storing a new row at the top key adds its amounts to the receiver's
      balance when it is confirmed, and changes no balance otherwise. */
  lemma BalanceAfterInsert(st: Snapshot, t: Transaction, account: int)
    requires WellKeyed(st)
    ensures var st' := Snapshot(st.rows[st.nextId := t], st.nextId + 1);
            var f := CountedBy(account);
            && (!Matches(t, f) ==> BalanceOf(st', account) == BalanceOf(st, account))
            && (Matches(t, f) ==> forall c :: Sum(SelectAll(st', f), c) == Sum(SelectAll(st, f), c) + Amount(t, c))
  {
    var f := CountedBy(account);
    var st' := Snapshot(st.rows[st.nextId := t], st.nextId + 1);
    SelectInsertTop(st, f, t);
    if Matches(t, f) {
      forall c ensures Sum(SelectAll(st', f), c) == Sum(SelectAll(st, f), c) + Amount(t, c) {
        SumSnoc(SelectAll(st, f), t, c);
      }
    } else {
      assert SelectAll(st', f) == SelectAll(st, f);
    }
  }

  /* ---------------------------------------------------------------------- */
  /* Creating a transaction: the part both versions share                    */
  /* ---------------------------------------------------------------------- */

  /** The arguments of `create_transaction`; `date` is the timestamp the
      caller read from the clock. */
  datatype Request = Request(
    userId: int,
    date: string,
    text: string,
    description: string,
    sender: int,
    receiver: int,
    confirm: bool)

  /** The primary row, as `create_new` stores it before any amount is set. */
  function Primary(a: Request, id: int, amounts: map<Currency, int>): Transaction {
    Transaction(id, a.date, a.userId, a.receiver, a.sender, a.description, a.confirm, amounts, None)
  }

  /** The partner row of a transfer: receiver and sender swapped, linked
      back to the primary row. */
  function Partner(a: Request, id: int, partnerId: int, amounts: map<Currency, int>): Transaction {
    Transaction(partnerId, a.date, a.userId, a.sender, a.receiver, a.description, a.confirm, amounts, Some(id))
  }

  /** The store after the partner row is added and the primary row is linked
      to it. */
  function WithPartner(st: Snapshot, id: int, a: Request, partnerAmounts: map<Currency, int>): Snapshot
    requires id in st.rows
  {
    var pid := st.nextId;
    Snapshot(st.rows[pid := Partner(a, id, pid, partnerAmounts)][id := st.rows[id].(linked := Some(pid))], pid + 1)
  }

  /** The tail of `create_transaction` once the primary row `id` is stored:
      the receiver guard (rollback by deleting the primary row), the partner
      row for a transfer, and the second guard, which checks the receiver
      again. */
  function SettleSpec(st: Snapshot, id: int, a: Request, partnerAmounts: map<Currency, int>): (Result<int>, Snapshot)
    requires id in st.rows
  {
    match BalanceOf(st, a.receiver)
    case Err(e) => (Err(e), st)
    case Ok(b) =>
      if HasNegative(b) then (Err(NotEnoughMoney), Snapshot(st.rows - {id}, st.nextId))
      else
        var st2 := if a.sender != a.receiver then WithPartner(st, id, a, partnerAmounts) else st;
        match BalanceOf(st2, a.receiver)
        case Err(e) => (Err(e), st2)
        case Ok(b2) =>
          if HasNegative(b2) then (Err(NotEnoughMoney), Snapshot(st2.rows - {id}, st2.nextId))
          else (Ok(id), st2)
  }

  method Settle(db: TransactionTable, id: int, a: Request, partnerAmounts: map<Currency, int>) returns (r: Result<int>)
    requires db.Valid() && id in db.rows
    modifies db
    ensures db.Valid()
    ensures (r, db.State()) == SettleSpec(old(db.State()), id, a, partnerAmounts)
  {
    var balance := GetBalance(db, a.receiver);
    if balance.Err? {
      return Err(balance.error);
    }
    if HasNegative(balance.value) {
      var _ := db.Delete(id);
      return Err(NotEnoughMoney);
    }
    if a.sender != a.receiver {
      var partnerId := db.CreateNew(a.date, a.userId, a.sender, a.receiver, a.description, a.confirm, partnerAmounts, Some(id));
      db.SetLinked(id, Some(partnerId));
    }
    var balance2 := GetBalance(db, a.receiver);
    if balance2.Err? {
      return Err(balance2.error);
    }
    if HasNegative(balance2.value) {
      var _ := db.Delete(id);
      return Err(NotEnoughMoney);
    }
    r := Ok(id);
  }

  /** The partner row does not count for the receiver and the relinked
      primary row weighs the same, so the second guard sees exactly the
      balance the first guard saw: it can never fire, and the sender's
      balance is never looked at. */
  lemma SecondGuardRepeatsFirst(st: Snapshot, id: int, a: Request, partnerAmounts: map<Currency, int>)
    requires WellKeyed(st) && id in st.rows && a.sender != a.receiver
    ensures BalanceOf(WithPartner(st, id, a, partnerAmounts), a.receiver) == BalanceOf(st, a.receiver)
  {
    var pid := st.nextId;
    var p := Partner(a, id, pid, partnerAmounts);
    var mid := Snapshot(st.rows[pid := p], pid + 1);
    BalanceAfterInsert(st, p, a.receiver);
    assert id in mid.rows && mid.rows[id] == st.rows[id];
    BalanceIgnoresSameMoney(mid, id, st.rows[id].(linked := Some(pid)), a.receiver);
  }

  /** The table once `create_new` has stored the primary row with `coins`. */
  function Stage(st: Snapshot, a: Request, coins: map<Currency, int>): Snapshot {
    Snapshot(st.rows[st.nextId := Primary(a, st.nextId, coins)], st.nextId + 1)
  }

  /** On "Not enough money" every row is as before the create: the primary
      row is deleted and the second guard, which could have left a partner
      row behind, never fires. The model's key counter stays past the
      rolled-back key; SQLite would reuse that key for the next row. */
  lemma SettleRollbackRestores(st: Snapshot, a: Request, coins: map<Currency, int>, partnerAmounts: map<Currency, int>)
    requires WellKeyed(st)
    ensures var out := SettleSpec(Stage(st, a, coins), st.nextId, a, partnerAmounts);
            out.0 == Err(NotEnoughMoney) ==> out.1.rows == st.rows && out.1.nextId == st.nextId + 1
  {
    var st1 := Stage(st, a, coins);
    SettleOutcome(st1, st.nextId, a, partnerAmounts);
    assert st1.rows - {st.nextId} == st.rows;
  }

  /** A successful deposit or withdrawal (sender == receiver) adds the
      primary row and nothing else. */
  lemma SettleDepositSingleRow(st: Snapshot, a: Request, coins: map<Currency, int>, partnerAmounts: map<Currency, int>)
    requires WellKeyed(st) && a.sender == a.receiver
    ensures var out := SettleSpec(Stage(st, a, coins), st.nextId, a, partnerAmounts);
            out.0.Ok? ==> out.0.value == st.nextId && out.1 == Stage(st, a, coins)
  {
    SettleOutcome(Stage(st, a, coins), st.nextId, a, partnerAmounts);
  }

  /** A successful transfer adds the primary row and, under the next key,
      the partner row, each linked to the other. */
  lemma SettleTransferPair(st: Snapshot, a: Request, coins: map<Currency, int>, partnerAmounts: map<Currency, int>)
    requires WellKeyed(st) && a.sender != a.receiver
    ensures var id := st.nextId;
            var out := SettleSpec(Stage(st, a, coins), id, a, partnerAmounts);
            out.0.Ok? ==>
              && out.0.value == id
              && out.1.nextId == id + 2
              && out.1.rows == st.rows[id := Primary(a, id, coins).(linked := Some(id + 1))]
                                      [id + 1 := Partner(a, id, id + 1, partnerAmounts)]
              && out.1.rows[id].linked == Some(id + 1) && out.1.rows[id + 1].linked == Some(id)
              && out.1.rows[id + 1].receiverId == a.sender && out.1.rows[id + 1].senderId == a.receiver
  {
    var id := st.nextId;
    var st1 := Stage(st, a, coins);
    SettleOutcome(st1, id, a, partnerAmounts);
    assert st1.rows[id + 1 := Partner(a, id, id + 1, partnerAmounts)][id := st1.rows[id].(linked := Some(id + 1))]
        == st.rows[id := Primary(a, id, coins).(linked := Some(id + 1))][id + 1 := Partner(a, id, id + 1, partnerAmounts)];
  }

  /** The outcome of the shared tail: success exactly when the receiver has
      confirmed history and no negative total; the only failure that deletes
      anything is the first guard, and it deletes just the primary row. */
  lemma SettleOutcome(st: Snapshot, id: int, a: Request, partnerAmounts: map<Currency, int>)
    requires WellKeyed(st) && id in st.rows
    ensures var (r, st') := SettleSpec(st, id, a, partnerAmounts);
            && (r.Ok? <==> BalanceOf(st, a.receiver).Ok? && !HasNegative(BalanceOf(st, a.receiver).value))
            && (r.Ok? ==> r.value == id && st' == (if a.sender != a.receiver then WithPartner(st, id, a, partnerAmounts) else st))
            && (r == Err(NotEnoughMoney) ==> st' == Snapshot(st.rows - {id}, st.nextId))
            && (r.Err? && r != Err(NotEnoughMoney) ==> st' == st && BalanceOf(st, a.receiver) == Err(r.error))
  {
    if BalanceOf(st, a.receiver).Ok? && !HasNegative(BalanceOf(st, a.receiver).value) && a.sender != a.receiver {
      SecondGuardRepeatsFirst(st, id, a, partnerAmounts);
    }
  }

  /** The receiver guard finds no history exactly when the new row is
      unconfirmed and the receiver had no confirmed incoming row before.
      That failure rolls nothing back: the primary row stays stored, with no
      partner and no link. */
  lemma SettleNoHistory(st: Snapshot, a: Request, coins: map<Currency, int>, partnerAmounts: map<Currency, int>)
    requires WellKeyed(st)
    ensures var out := SettleSpec(Stage(st, a, coins), st.nextId, a, partnerAmounts);
            && (out.0 == Err(NoTransactionsYet) <==> !a.confirm && BalanceOf(st, a.receiver).Err?)
            && (out.0 == Err(NoTransactionsYet) ==> out.1 == Stage(st, a, coins))
  {
    var st1 := Stage(st, a, coins);
    SettleOutcome(st1, st.nextId, a, partnerAmounts);
    SelectInsertTop(st, CountedBy(a.receiver), Primary(a, st.nextId, coins));
  }

  /** The reply of the shared tail does not depend on the partner's
      amounts: neither guard counts the partner row for the receiver. */
  lemma SettleReplyIgnoresPartner(st: Snapshot, id: int, a: Request, p1: map<Currency, int>, p2: map<Currency, int>)
    requires WellKeyed(st) && id in st.rows
    ensures SettleSpec(st, id, a, p1).0 == SettleSpec(st, id, a, p2).0
  {
    if a.sender != a.receiver {
      SecondGuardRepeatsFirst(st, id, a, p1);
      SecondGuardRepeatsFirst(st, id, a, p2);
    }
  }

  /** `amount * -1` for every parsed amount, zeros included (extra/bank.py). */
  function Negated(m: map<Currency, int>): map<Currency, int> {
    map c | c in m :: -m[c]
  }

  /** `if amount: setattr(transaction2, currency, amount * -1)` (bank.py):
      zero and NULL amounts stay NULL on the partner row. */
  function NegatedNonZero(m: map<Currency, int>): map<Currency, int> {
    map c | c in m && m[c] != 0 :: -m[c]
  }

  /** Either way the partner row carries the opposite of every amount. */
  lemma NegationsMirror(a: Request, id: int, partnerId: int, m: map<Currency, int>, c: Currency)
    ensures Amount(Partner(a, id, partnerId, Negated(m)), c) == -(if c in m then m[c] else 0)
    ensures Amount(Partner(a, id, partnerId, NegatedNonZero(m)), c) == -(if c in m then m[c] else 0)
    ensures c in Negated(m) <==> c in m
    ensures c in NegatedNonZero(m) <==> c in m && m[c] != 0
  {
  }

  /* ---------------------------------------------------------------------- */
  /* Confirming                                                              */
  /* ---------------------------------------------------------------------- */

  /** `confirm_transaction(id, check_linked)` as a value: the message and the
      rows afterwards. */
  function ConfirmSpec(rows: map<int, Transaction>, id: int, checkLinked: bool): (string, map<int, Transaction>)
    decreases if checkLinked then 1 else 0
  {
    if id !in rows then ("Unknown transaction: " + IntToString(id), rows)
    else if rows[id].confirmed then ("Transaction " + IntToString(id) + " was already confirmed", rows)
    else
      var rows1 := rows[id := rows[id].(confirmed := true)];
      var msg := "Confirmed transaction: " + IntToString(id);
      var l := rows[id].linked;
      if l.Some? && l.value != 0 && checkLinked then
        var (msg2, rows2) := ConfirmSpec(rows1, l.value, false);
        (msg + "\n" + msg2, rows2)
      else (msg, rows1)
  }

  /** `confirm_transaction`: sets `confirmed` and follows the link at most
      once; the recursive call passes `check_linked=False`. */
  method ConfirmTransaction(db: TransactionTable, id: int, checkLinked: bool := true) returns (msg: string)
    requires db.Valid()
    modifies db
    ensures db.Valid() && db.nextId == old(db.nextId)
    ensures (msg, db.rows) == ConfirmSpec(old(db.rows), id, checkLinked)
    decreases if checkLinked then 1 else 0
  {
    var t := db.QueryOne(id);
    if t.None? {
      return "Unknown transaction: " + IntToString(id);
    }
    if t.value.confirmed {
      return "Transaction " + IntToString(id) + " was already confirmed";
    }
    db.SetConfirmed(id, true);
    msg := "Confirmed transaction: " + IntToString(id);
    var l := t.value.linked;
    if l.Some? && l.value != 0 && checkLinked {
      var msg2 := ConfirmTransaction(db, l.value, false);
      msg := msg + "\n" + msg2;
    }
  }

  /** Confirming changes no key and no field but `confirmed`, only ever from
      false to true, and only on the row itself and, one hop away, the row
      its link names: never further along a chain of links. */
  lemma ConfirmTouchesAtMostTheLinkedPair(rows: map<int, Transaction>, id: int, checkLinked: bool)
    ensures var rows' := ConfirmSpec(rows, id, checkLinked).1;
            && rows'.Keys == rows.Keys
            && forall k :: k in rows ==>
                 || rows'[k] == rows[k]
                 || (&& !rows[k].confirmed && rows'[k] == rows[k].(confirmed := true)
                     && (k == id || (checkLinked && id in rows && rows[id].linked == Some(k))))
    decreases if checkLinked then 1 else 0
  {
    if id in rows && !rows[id].confirmed {
      var rows1 := rows[id := rows[id].(confirmed := true)];
      var l := rows[id].linked;
      if l.Some? && l.value != 0 && checkLinked {
        ConfirmTouchesAtMostTheLinkedPair(rows1, l.value, false);
      }
    }
  }

  /** Confirming a second time reports "already confirmed" and changes nothing. */
  lemma ConfirmIdempotent(rows: map<int, Transaction>, id: int)
    requires id in rows
    ensures var rows' := ConfirmSpec(rows, id, true).1;
            ConfirmSpec(rows', id, true) == ("Transaction " + IntToString(id) + " was already confirmed", rows')
  {
    ConfirmTouchesAtMostTheLinkedPair(rows, id, true);
    var rows' := ConfirmSpec(rows, id, true).1;
    assert rows'[id].confirmed;
  }

  /** A pending transfer pair is confirmed as a whole by one call on either row. */
  lemma ConfirmPair(rows: map<int, Transaction>, id: int, partner: int)
    requires id in rows && partner in rows && id != partner && partner != 0
    requires !rows[id].confirmed && !rows[partner].confirmed
    requires rows[id].linked == Some(partner)
    ensures var rows' := ConfirmSpec(rows, id, true).1;
            rows'[id] == rows[id].(confirmed := true) && rows'[partner] == rows[partner].(confirmed := true)
  {
  }

  /** A create whose rows are all unconfirmed (`account_send_money`) moves
      no balance at all: the transfer stays invisible until confirmed. */
  lemma PendingSettleInvisible(st: Snapshot, a: Request, coins: map<Currency, int>, partnerAmounts: map<Currency, int>, account: int)
    requires WellKeyed(st) && !a.confirm
    ensures var out := SettleSpec(Stage(st, a, coins), st.nextId, a, partnerAmounts);
            out.0.Ok? ==> BalanceOf(out.1, account) == BalanceOf(st, account)
  {
    var id := st.nextId;
    var st1 := Stage(st, a, coins);
    BalanceAfterInsert(st, Primary(a, id, coins), account);
    if a.sender != a.receiver {
      var p := Partner(a, id, st1.nextId, partnerAmounts);
      BalanceAfterInsert(st1, p, account);
      var mid := Snapshot(st1.rows[st1.nextId := p], st1.nextId + 1);
      assert id in mid.rows && mid.rows[id] == st1.rows[id];
      BalanceIgnoresSameMoney(mid, id, st1.rows[id].(linked := Some(st1.nextId)), account);
    }
  }

  /* ---------------------------------------------------------------------- */
  /* Command replies and display                                             */
  /* ---------------------------------------------------------------------- */

  const NoActiveCharacter: Failure := BadArgument("No active character found")
  const OnlyPositive: Failure := BadArgument("You can only send positive amounts")
  const SelfTransfer: Failure := BadArgument("You cannot send money to yourself")
  const ReceiverNotFound: Failure := BadArgument("Receiver not found")
  const UnknownTransaction: Failure := BadArgument("Unknown transaction")

  /** The coin part of a transaction's body: one `**amount** emoji ` entry
      per non-zero denomination, in CURRENCIES order. */
  function CoinsText(cs: seq<Currency>, t: Transaction, emoji: Currency -> string): string {
    if cs == [] then ""
    else
      (if Amount(t, cs[0]) != 0 then "**" + IntToString(Amount(t, cs[0])) + "** " + emoji(cs[0]) + " " else "")
      + CoinsText(cs[1..], t, emoji)
  }

  /** The coin part is empty exactly when every listed denomination is zero. */
  lemma {:induction false} CoinsTextEmptyIffZero(cs: seq<Currency>, t: Transaction, emoji: Currency -> string)
    ensures CoinsText(cs, t, emoji) == "" <==> forall i :: 0 <= i < |cs| ==> Amount(t, cs[i]) == 0
  {
    if cs != [] {
      CoinsTextEmptyIffZero(cs[1..], t, emoji);
      if Amount(t, cs[0]) == 0 {
        forall i | 0 <= i < |cs| && Amount(t, cs[i]) != 0 ensures Amount(t, cs[1..][i - 1]) != 0 {
          assert i > 0;
        }
      }
    }
  }

  /** `date.split('.')[0].replace('T', ' ') + ' UTC'`. */
  function DisplayDate(date: string): string {
    Replace(SplitOn(date, '.')[0], "T", " ") + " UTC"
  }

  /** The date part of a timestamp with a fraction of seconds: everything
      from the first '.' on (the fraction and the "+00:00" offset) is
      dropped, every 'T' becomes a space and " UTC" is appended. */
  lemma DisplayDateDropsFraction(p: string, q: string)
    requires '.' !in p
    ensures var r := DisplayDate(p + "." + q);
            && |r| == |p| + 4 && r[|p|..] == " UTC"
            && forall i :: 0 <= i < |p| ==> r[i] == (if p[i] == 'T' then ' ' else p[i])
  {
    SplitAfterSeparator(p, q, '.');
    assert p + "." + q == p + ['.'] + q;
    ReplaceCharPointwise(p, 'T', ' ');
  }

  /** A timestamp without '.' (`isoformat` at a whole second) is kept
      whole, its "+00:00" offset included, with every 'T' made a space and
      " UTC" appended. */
  lemma DisplayDateWholeSecond(d: string)
    requires '.' !in d
    ensures var r := DisplayDate(d);
            && |r| == |d| + 4 && r[|d|..] == " UTC"
            && forall i :: 0 <= i < |d| ==> r[i] == (if d[i] == 'T' then ' ' else d[i])
  {
    SplitWithoutSeparator(d, '.');
    ReplaceCharPointwise(d, 'T', ' ');
  }

  /** The parties lines of `format_transaction`: one line for a
      deposit/withdrawal, two for a transfer; a party with no character
      record fails on `.display_name`. */
  function PartiesText(t: Transaction, chars: map<int, Character>): Result<string> {
    if t.senderId == t.receiverId then
      if t.receiverId in chars then Ok("\nEin/Auszahlung: " + chars[t.receiverId].displayName)
      else Err(AttributeError)
    else if t.receiverId in chars && t.senderId in chars then
      Ok("\nVon: " + chars[t.senderId].displayName + "\nAn: " + chars[t.receiverId].displayName)
    else Err(AttributeError)
  }

  /** `"(Pending) " * (not confirmed)`. */
  function PendingMark(t: Transaction): string {
    if t.confirmed then "" else "(Pending) "
  }

  /** A title that starts with the pending mark and then "ID:" is marked
      exactly when the row is unconfirmed. */
  lemma PendingMarkIffUnconfirmed(t: Transaction, rest: string)
    ensures StartsWith(PendingMark(t) + "ID:" + rest, "(Pending) ") <==> !t.confirmed
  {
    var title := PendingMark(t) + "ID:" + rest;
    if t.confirmed {
      assert title[0] == 'I';
    } else {
      assert title[..10] == "(Pending) ";
    }
  }
}
