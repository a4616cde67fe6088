/** The first bank cog, src/cogs/bank.py: the primary row is stored before
    the amount string is parsed piece by piece, and the partner row of a
    transfer negates only the non-zero amounts. */
module BankV1 {
  import opened Common
  import opened Text
  import opened Store
  import opened Ledger
  import opened Characters

  /** `create_transaction` as a value: the reply and the table afterwards.
      A piece that fails to parse leaves the half-written primary row stored. */
  function CreateSpec(st: Snapshot, a: Request): (Result<int>, Snapshot) {
    if a.description == [] || a.text == [] then (Err(MissingInput), st)
    else if FirstInvalid(a.text).Some? then (Err(InvalidCharacter(FirstInvalid(a.text).value)), st)
    else AfterInsert(st, a, FoldCoins(SplitOn(a.text, ',')))
  }

  /** The part after the primary row is stored with the amounts the piece
      loop wrote (`fold.0`), stopping on its error (`fold.1`). */
  function AfterInsert(st: Snapshot, a: Request, fold: (map<Currency, int>, Option<Failure>)): (Result<int>, Snapshot) {
    if fold.1.Some? then (Err(fold.1.value), Stage(st, a, fold.0))
    else SettleSpec(Stage(st, a, fold.0), st.nextId, a, NegatedNonZero(fold.0))
  }

  /** The piece loop of `create_transaction`: each comma piece writes one
      currency of the stored row; the first bad piece raises, leaving what
      was written. */
  method WriteAmounts(db: TransactionTable, id: int, pieces: seq<string>) returns (err: Option<Failure>)
    requires db.Valid() && id in db.rows && db.rows[id].amounts == map[]
    modifies db
    ensures db.Valid() && db.nextId == old(db.nextId)
    ensures err == FoldCoins(pieces).1
    ensures db.rows == old(db.rows)[id := old(db.rows)[id].(amounts := FoldCoins(pieces).0)]
  {
    var i := 0;
    while i < |pieces|
      invariant 0 <= i <= |pieces|
      invariant db.Valid() && db.nextId == old(db.nextId)
      invariant FoldCoins(pieces[..i]).1.None?
      invariant db.rows == old(db.rows)[id := old(db.rows)[id].(amounts := FoldCoins(pieces[..i]).0)]
    {
      var coin := ParseCoin(pieces[i]);
      if coin.Err? {
        FoldCoinsStopsAt(pieces, i);
        return Some(coin.error);
      }
      FoldCoinsStep(pieces, i);
      db.SetAmount(id, coin.value.0, coin.value.1);
      i := i + 1;
    }
    assert pieces[..i] == pieces;
    return None;
  }

  /** `create_transaction`: insert, then set one currency per comma piece,
      then the shared guard-partner-guard tail. */
  method CreateTransaction(db: TransactionTable, a: Request) returns (r: Result<int>)
    requires db.Valid()
    modifies db
    ensures db.Valid()
    ensures (r, db.State()) == CreateSpec(old(db.State()), a)
  {
    if a.description == [] || a.text == [] {
      return Err(MissingInput);
    }
    var bad := CheckCharacters(a.text);
    if bad.Some? {
      return Err(InvalidCharacter(bad.value));
    }
    ghost var st0 := db.State();
    var id := db.CreateNew(a.date, a.userId, a.receiver, a.sender, a.description, a.confirm, map[], None);
    var err := WriteAmounts(db, id, SplitOn(a.text, ','));
    assert db.State() == Stage(st0, a, Coins(a.text));
    if err.Some? {
      return Err(err.value);
    }
    var coins := db.rows[id].amounts;
    r := Settle(db, id, a, NegatedNonZero(coins));
  }

  /** The amounts the piece loop writes for an amount string. */
  function Coins(text: string): map<Currency, int> {
    FoldCoins(SplitOn(text, ',')).0
  }

  /** Past the character check, the create is the insert followed by the
      shared tail. */
  lemma CreateSpecSettles(st: Snapshot, a: Request)
    requires a.description != [] && a.text != [] && FirstInvalid(a.text).None?
    requires FoldCoins(SplitOn(a.text, ',')).1.None?
    ensures CreateSpec(st, a) == SettleSpec(Stage(st, a, Coins(a.text)), st.nextId, a, NegatedNonZero(Coins(a.text)))
  {
  }

  /** A well-formed alphabet with a bad piece is reported only after the
      primary row is stored: the row stays, with the amounts of the pieces
      before the bad one, and its key is used up. */
  lemma ParseFailureKeepsPrimaryRow(st: Snapshot, a: Request)
    requires WellKeyed(st)
    requires a.description != [] && a.text != [] && FirstInvalid(a.text).None?
    requires FoldCoins(SplitOn(a.text, ',')).1.Some?
    ensures CreateSpec(st, a).0 == Err(FoldCoins(SplitOn(a.text, ',')).1.value)
    ensures st.nextId !in st.rows
    ensures CreateSpec(st, a).1 == Snapshot(st.rows[st.nextId := Primary(a, st.nextId, Coins(a.text))], st.nextId + 1)
  {
  }

  /** A parseable create to a receiver without confirmed history fails
      with "There are no Transactions on this account yet" exactly when it
      is unconfirmed, as every `account send` is. Nothing is rolled back:
      the pending primary row stays stored under its key, alone and
      unlinked, so a later confirm credits the receiver with no debit. */
  lemma NoHistoryKeepsPrimaryRow(st: Snapshot, a: Request)
    requires WellKeyed(st)
    requires a.description != [] && a.text != [] && FirstInvalid(a.text).None?
    requires FoldCoins(SplitOn(a.text, ',')).1.None?
    ensures CreateSpec(st, a).0 == Err(NoTransactionsYet) <==> !a.confirm && BalanceOf(st, a.receiver).Err?
    ensures CreateSpec(st, a).0 == Err(NoTransactionsYet) ==>
              && st.nextId !in st.rows
              && CreateSpec(st, a).1 == Snapshot(st.rows[st.nextId := Primary(a, st.nextId, Coins(a.text))], st.nextId + 1)
              && Primary(a, st.nextId, Coins(a.text)).linked.None?
  {
    CreateSpecSettles(st, a);
    SettleNoHistory(st, a, Coins(a.text), NegatedNonZero(Coins(a.text)));
  }

  /** "Not enough money" restores every row. The model's key counter stays
      past the rolled-back key, which SQLite would hand out again. */
  lemma RollbackRestoresRows(st: Snapshot, a: Request)
    requires WellKeyed(st)
    ensures CreateSpec(st, a).0 == Err(NotEnoughMoney) ==>
              CreateSpec(st, a).1.rows == st.rows && CreateSpec(st, a).1.nextId == st.nextId + 1
  {
    FoldCoinsNeverGuardError(SplitOn(a.text, ','));
    if FirstInvalid(a.text).Some? {
      InvalidCharacterIsNotGuardError(FirstInvalid(a.text).value);
    }
    InvalidCharacterIsNotGuardError('a');
    if a.description != [] && a.text != [] && FirstInvalid(a.text).None? && FoldCoins(SplitOn(a.text, ',')).1.None? {
      CreateSpecSettles(st, a);
      SettleRollbackRestores(st, a, Coins(a.text), NegatedNonZero(Coins(a.text)));
    }
  }

  /** A successful deposit or withdrawal stores exactly one row, holding
      the parsed amounts. */
  lemma DepositStoresOneRow(st: Snapshot, a: Request)
    requires WellKeyed(st) && a.sender == a.receiver
    ensures CreateSpec(st, a).0.Ok? ==> CreateSpec(st, a).1 == Stage(st, a, Coins(a.text))
  {
    if a.description != [] && a.text != [] && FirstInvalid(a.text).None? && FoldCoins(SplitOn(a.text, ',')).1.None? {
      CreateSpecSettles(st, a);
      SettleDepositSingleRow(st, a, Coins(a.text), NegatedNonZero(Coins(a.text)));
    }
  }

  /** A successful transfer stores the primary row and its partner, linked
      both ways, the partner carrying the opposite of every amount and
      leaving zero amounts NULL. */
  lemma TransferStoresMirroredPair(st: Snapshot, a: Request)
    requires WellKeyed(st) && a.sender != a.receiver
    ensures var (r, st') := CreateSpec(st, a);
            var id := st.nextId;
            r.Ok? ==>
              && st'.rows == st.rows[id := Primary(a, id, Coins(a.text)).(linked := Some(id + 1))]
                                    [id + 1 := Partner(a, id, id + 1, NegatedNonZero(Coins(a.text)))]
              && st'.rows[id].linked == Some(id + 1) && st'.rows[id + 1].linked == Some(id)
              && (forall c :: Amount(st'.rows[id + 1], c) == -Amount(st'.rows[id], c))
              && (forall c :: c in st'.rows[id + 1].amounts <==> c in Coins(a.text) && Coins(a.text)[c] != 0)
  {
    if a.description != [] && a.text != [] && FirstInvalid(a.text).None? && FoldCoins(SplitOn(a.text, ',')).1.None? {
      CreateSpecSettles(st, a);
      SettleTransferPair(st, a, Coins(a.text), NegatedNonZero(Coins(a.text)));
      forall c ensures Amount(Partner(a, st.nextId, st.nextId + 1, NegatedNonZero(Coins(a.text))), c)
                    == -Amount(Primary(a, st.nextId, Coins(a.text)), c) {
        NegationsMirror(a, st.nextId, st.nextId + 1, Coins(a.text), c);
      }
    }
  }

  /** A transfer created unconfirmed moves no balance until it is confirmed. */
  lemma PendingCreateMovesNothing(st: Snapshot, a: Request, account: int)
    requires WellKeyed(st) && !a.confirm
    ensures var out := CreateSpec(st, a);
            out.0.Ok? ==> BalanceOf(out.1, account) == BalanceOf(st, account)
  {
    var out := CreateSpec(st, a);
    if a.description != [] && a.text != [] && FirstInvalid(a.text).None? && FoldCoins(SplitOn(a.text, ',')).1.None? {
      CreateSpecSettles(st, a);
      PendingSettleInvisible(st, a, Coins(a.text), NegatedNonZero(Coins(a.text)), account);
    } else {
      assert out.0.Err?;
    }
  }

  /** A create succeeds exactly when both strings are present, the amount
      string parses, and the receiver's balance including the new row has
      confirmed history and no negative total. Nothing in this condition
      reads the sender's balance: a transfer can overdraw its sender. */
  lemma CreateSucceedsIff(st: Snapshot, a: Request)
    requires WellKeyed(st)
    ensures CreateSpec(st, a).0.Ok? <==>
              && a.description != [] && a.text != [] && FirstInvalid(a.text).None?
              && FoldCoins(SplitOn(a.text, ',')).1.None?
              && BalanceOf(Stage(st, a, Coins(a.text)), a.receiver).Ok?
              && !HasNegative(BalanceOf(Stage(st, a, Coins(a.text)), a.receiver).value)
  {
    if a.description != [] && a.text != [] && FirstInvalid(a.text).None? && FoldCoins(SplitOn(a.text, ',')).1.None? {
      CreateSpecSettles(st, a);
      SettleOutcome(Stage(st, a, Coins(a.text)), st.nextId, a, NegatedNonZero(Coins(a.text)));
    }
  }

  /* ---------------------------------------------------------------------- */
  /* Display                                                                 */
  /* ---------------------------------------------------------------------- */

  /** `format_transaction`: title with the pending mark, id and date; body
      with the non-zero coins, the parties and the purpose. */
  function FormatTransaction(t: Transaction, chars: map<int, Character>, emoji: Currency -> string): Result<(string, string)> {
    var title := PendingMark(t) + "ID:" + IntToString(t.id) + " | " + DisplayDate(t.date);
    match PartiesText(t, chars)
    case Err(e) => Err(e)
    case Ok(parties) => Ok((title, CoinsText(Currencies, t, emoji) + parties + "\nZweck: " + t.description))
  }

  /** The title is marked "(Pending) " exactly for unconfirmed rows; the body
      ends with the purpose line; it fails only when a party has no
      character record. */
  lemma FormatTransactionShape(t: Transaction, chars: map<int, Character>, emoji: Currency -> string)
    ensures var r := FormatTransaction(t, chars, emoji);
            && (r.Err? <==> t.receiverId !in chars || (t.senderId != t.receiverId && t.senderId !in chars))
            && (r.Ok? ==> (StartsWith(r.value.0, "(Pending) ") <==> !t.confirmed))
            && (r.Ok? ==> EndsWith(r.value.1, "\nZweck: " + t.description))
  {
    PendingMarkIffUnconfirmed(t, IntToString(t.id) + " | " + DisplayDate(t.date));
    assert PendingMark(t) + "ID:" + IntToString(t.id) + " | " + DisplayDate(t.date)
        == PendingMark(t) + "ID:" + (IntToString(t.id) + " | " + DisplayDate(t.date));
  }

  /* ---------------------------------------------------------------------- */
  /* Command guards                                                          */
  /* ---------------------------------------------------------------------- */

  /** `account send`: no '-' in the amount string (None fails the `in`
      test), an active character, not oneself, an existing receiver; the
      transfer is created unconfirmed. */
  method AccountSendMoney(db: TransactionTable, dir: Directory, author: int, receiverNr: int,
                          text: Option<string>, description: string, date: string)
    returns (r: Result<int>)
    requires db.Valid() && dir.Valid()
    modifies db, dir
    ensures db.Valid() && dir.Valid()
    ensures dir.characters == old(dir.characters) && dir.nextId == old(dir.nextId)
    ensures text.None? ==> r == Err(TypeError) && db.State() == old(db.State()) && dir.users == old(dir.users)
    ensures text.Some? && '-' in text.value ==>
              r == Err(OnlyPositive) && db.State() == old(db.State()) && dir.users == old(dir.users)
    ensures text.Some? && '-' !in text.value ==>
      && dir.users == ActiveCleared(old(dir.characters), old(dir.users), author)
      && var active := ActiveChar(old(dir.characters), old(dir.users), author);
      && (active.Err? ==> r == Err(active.error) && db.State() == old(db.State()))
      && (active == Ok(None) ==> r == Err(NoActiveCharacter) && db.State() == old(db.State()))
      && (active.Ok? && active.value.Some? ==>
            var sender := active.value.value.id;
            && (sender == receiverNr ==> r == Err(SelfTransfer) && db.State() == old(db.State()))
            && (sender != receiverNr && receiverNr !in old(dir.characters) ==>
                  r == Err(ReceiverNotFound) && db.State() == old(db.State()))
            && (sender != receiverNr && receiverNr in old(dir.characters) ==>
                  (r, db.State()) == CreateSpec(old(db.State()), Request(author, date, text.value, description, sender, receiverNr, false))))
  {
    if text.None? {
      return Err(TypeError);
    }
    if '-' in text.value {
      return Err(OnlyPositive);
    }
    var active := dir.QueryActiveChar(author);
    if active.Err? {
      return Err(active.error);
    }
    if active.value.None? {
      return Err(NoActiveCharacter);
    }
    var character := active.value.value;
    if character.id == receiverNr {
      return Err(SelfTransfer);
    }
    if receiverNr !in dir.characters {
      return Err(ReceiverNotFound);
    }
    var receiver := dir.characters[receiverNr];
    r := CreateTransaction(db, Request(author, date, text.value, description, character.id, receiver.id, false));
  }

  /** A deposit or withdrawal of the given character: it is both sender and
      receiver of the row. */
  predicate OwnDeposit(t: Transaction, characterId: int) {
    t.senderId == t.receiverId == characterId
  }

  const NotOwnDeposit: Failure := BadArgument("This is not a deposit/withdraw transaction of your current character")

  /** What a successful `account send` stores: the primary row from the
      active character and its swapped partner row under the next key, both
      unconfirmed, so no account's balance moves until it is confirmed. */
  lemma AccountSendStoresPendingPair(st: Snapshot, sender: int, receiver: int, author: int, date: string,
                                     text: string, description: string)
    requires WellKeyed(st) && sender != receiver
    ensures var a := Request(author, date, text, description, sender, receiver, false);
            var out := CreateSpec(st, a);
            out.0.Ok? ==>
              && out.0.value == st.nextId && out.1.nextId == st.nextId + 2
              && st.nextId in out.1.rows && st.nextId + 1 in out.1.rows
              && !out.1.rows[st.nextId].confirmed && !out.1.rows[st.nextId + 1].confirmed
              && out.1.rows[st.nextId].senderId == sender && out.1.rows[st.nextId].receiverId == receiver
              && out.1.rows[st.nextId + 1].senderId == receiver && out.1.rows[st.nextId + 1].receiverId == sender
              && forall account :: BalanceOf(out.1, account) == BalanceOf(st, account)
  {
    var a := Request(author, date, text, description, sender, receiver, false);
    if CreateSpec(st, a).0.Ok? {
      assert FoldCoins(SplitOn(a.text, ',')).1.None?;
      CreateSpecSettles(st, a);
      SettleTransferPair(st, a, Coins(text), NegatedNonZero(Coins(text)));
      forall account ensures BalanceOf(CreateSpec(st, a).1, account) == BalanceOf(st, account) {
        PendingCreateMovesNothing(st, a, account);
      }
    }
  }

  /** `account delete`: only a deposit/withdrawal of the active character
      (sender == receiver == that character) is deleted, and only that row. */
  method AccountDelete(db: TransactionTable, dir: Directory, author: int, transactionId: int)
    returns (r: Result<nat>)
    requires db.Valid() && dir.Valid()
    modifies db, dir
    ensures db.Valid() && dir.Valid() && db.nextId == old(db.nextId)
    ensures dir.characters == old(dir.characters) && dir.nextId == old(dir.nextId)
    ensures dir.users == ActiveCleared(old(dir.characters), old(dir.users), author)
    ensures var active := ActiveChar(old(dir.characters), old(dir.users), author);
            && (active.Err? ==> r == Err(active.error) && db.rows == old(db.rows))
            && (active == Ok(None) ==> r == Err(NoActiveCharacter) && db.rows == old(db.rows))
            && (active.Ok? && active.value.Some? ==>
                  && (transactionId !in old(db.rows) ==> r == Err(UnknownTransaction) && db.rows == old(db.rows))
                  && (transactionId in old(db.rows) && !OwnDeposit(old(db.rows)[transactionId], active.value.value.id) ==>
                        r == Err(NotOwnDeposit) && db.rows == old(db.rows))
                  && (transactionId in old(db.rows) && OwnDeposit(old(db.rows)[transactionId], active.value.value.id) ==>
                        r == Ok(1) && db.rows == old(db.rows) - {transactionId}))
  {
    var active := dir.QueryActiveChar(author);
    if active.Err? {
      return Err(active.error);
    }
    if active.value.None? {
      return Err(NoActiveCharacter);
    }
    var character := active.value.value;
    var t := db.QueryOne(transactionId);
    if t.None? {
      return Err(UnknownTransaction);
    }
    if !OwnDeposit(t.value, character.id) {
      return Err(NotOwnDeposit);
    }
    var count := db.Delete(transactionId);
    r := Ok(count);
  }

  /** The refusal of `bank send`: it compares with account 0, so the bank's
      own account 1 gets through. */
  predicate BankSendRefused(receiverNr: int) {
    receiverNr == 0
  }

  /** `bank send`: a confirmed transfer from the bank (account 1). */
  method BankSendMoney(db: TransactionTable, dir: Directory, author: int, receiverNr: int,
                       text: string, description: string, date: string)
    returns (r: Result<int>)
    requires db.Valid() && dir.Valid()
    modifies db
    ensures db.Valid()
    ensures BankSendRefused(receiverNr) ==> r == Err(SelfTransfer) && db.State() == old(db.State())
    ensures !BankSendRefused(receiverNr) && receiverNr !in dir.characters ==> r == Err(ReceiverNotFound) && db.State() == old(db.State())
    ensures !BankSendRefused(receiverNr) && receiverNr in dir.characters ==>
      (r, db.State()) == CreateSpec(old(db.State()), Request(author, date, text, description, 1, receiverNr, true))
  {
    if BankSendRefused(receiverNr) {
      return Err(SelfTransfer);
    }
    if receiverNr !in dir.characters {
      return Err(ReceiverNotFound);
    }
    var receiver := dir.characters[receiverNr];
    r := CreateTransaction(db, Request(author, date, text, description, 1, receiver.id, true));
  }

  /** Sending from the bank to account 1 passes the guard and becomes a
      deposit into the bank: one row, no partner. */
  lemma BankSendToItselfIsDeposit(st: Snapshot, text: string, description: string, author: int, date: string)
    requires WellKeyed(st)
    ensures !BankSendRefused(1)
    ensures var a := Request(author, date, text, description, 1, 1, true);
            CreateSpec(st, a).0.Ok? ==>
              CreateSpec(st, a).1 == Snapshot(st.rows[st.nextId := Primary(a, st.nextId, Coins(text))], st.nextId + 1)
  {
    DepositStoresOneRow(st, Request(author, date, text, description, 1, 1, true));
  }
}
