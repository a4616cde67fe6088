/** The keyed record store under the bank ledger: the `bank_transactions`
    table (models/core.py), the `TransactionDB`/transaction-record pair
    (models/transaction_model.py) and the generic `BaseDB.query_one`,
    `BaseDB.query_all` and `BaseModel.delete`. The SQL table becomes a map
    from primary key to row, plus the auto-increment counter. */
module Store {
  import opened Common

  /** The five denominations, highest value first (CURRENCIES). */
  datatype Currency = Platinum | Gold | Electrum | Silver | Copper

  const Currencies: seq<Currency> := [Platinum, Gold, Electrum, Silver, Copper]
  const CurrencySet: set<Currency> := {Platinum, Gold, Electrum, Silver, Copper}

  /** Position of a denomination in CURRENCIES. */
  function Rank(c: Currency): nat {
    match c
    case Platinum => 0
    case Gold => 1
    case Electrum => 2
    case Silver => 3
    case Copper => 4
  }

  /** CURRENCIES_SHORT: each denomination's first letter. */
  function Letter(c: Currency): char {
    match c
    case Platinum => 'p'
    case Gold => 'g'
    case Electrum => 'e'
    case Silver => 's'
    case Copper => 'c'
  }

  /** One `bank_transactions` row. The five nullable currency columns are the
      map `amounts`: a denomination that is absent from the map is SQL NULL.
      `linked` is the partner row of a transfer; the bank code reads and writes
      it although the table has no such column. */
  datatype Transaction = Transaction(
    id: int,
    date: string,
    userId: int,
    receiverId: int,
    senderId: int,
    description: string,
    confirmed: bool,
    amounts: map<Currency, int>,
    linked: Option<int>)

  /** `getattr(transaction, c) or 0`: a NULL amount reads as zero. */
  function Amount(t: Transaction, c: Currency): int {
    if c in t.amounts then t.amounts[c] else 0
  }

  /** The keyword filter of `filter_by(receiver_id=..., confirmed=...)`; a
      field left as None is not constrained. */
  datatype Filter = Filter(receiverId: Option<int>, confirmed: Option<bool>)

  predicate Matches(t: Transaction, f: Filter) {
    && (f.receiverId.None? || t.receiverId == f.receiverId.value)
    && (f.confirmed.None? || t.confirmed == f.confirmed.value)
  }

  /** The whole table: its rows by primary key and the next key to assign. */
  datatype Snapshot = Snapshot(rows: map<int, Transaction>, nextId: int)

  /** Keys are auto-incremented from 1: every stored key lies below the
      counter, and each row carries its own key. */
  ghost predicate WellKeyed(st: Snapshot) {
    && 1 <= st.nextId
    && forall id :: id in st.rows ==> 1 <= id < st.nextId && st.rows[id].id == id
  }

  /** The rows with keys in [1, n) that match `f`, in key order. */
  function Select(rows: map<int, Transaction>, f: Filter, n: int): seq<Transaction>
    decreases n
  {
    if n <= 1 then []
    else Select(rows, f, n - 1) + (if n - 1 in rows && Matches(rows[n - 1], f) then [rows[n - 1]] else [])
  }

  /** `query_all(**filter)` on a whole table: every matching row, in key order. */
  function SelectAll(st: Snapshot, f: Filter): seq<Transaction> {
    Select(st.rows, f, st.nextId)
  }

  /** Membership in a selection is exactly "stored, below the bound, matching". */
  lemma {:induction false} SelectMembership(rows: map<int, Transaction>, f: Filter, n: int, t: Transaction)
    requires forall id :: id in rows ==> rows[id].id == id
    ensures t in Select(rows, f, n) <==> 1 <= t.id < n && t.id in rows && rows[t.id] == t && Matches(t, f)
    decreases n
  {
    if n > 1 {
      SelectMembership(rows, f, n - 1, t);
    }
  }

  /** `query_all` returns every matching row of the table and nothing else. */
  lemma SelectAllExactly(st: Snapshot, f: Filter, t: Transaction)
    requires WellKeyed(st)
    ensures t in SelectAll(st, f) <==> t.id in st.rows && st.rows[t.id] == t && Matches(t, f)
  {
    SelectMembership(st.rows, f, st.nextId, t);
  }

  /** Keys at or above the bound are invisible to a selection. */
  lemma {:induction false} SelectIgnoresHighKeys(rows: map<int, Transaction>, f: Filter, n: int, k: int, t: Transaction)
    requires k >= n
    ensures Select(rows[k := t], f, n) == Select(rows, f, n)
    ensures Select(rows - {k}, f, n) == Select(rows, f, n)
    decreases n
  {
    if n > 1 {
      SelectIgnoresHighKeys(rows, f, n - 1, k, t);
    }
  }

  /** Writing a row that matches neither before nor after leaves every
      selection unchanged. */
  lemma {:induction false} SelectIgnoresNonMatching(rows: map<int, Transaction>, f: Filter, n: int, k: int, t: Transaction)
    requires k !in rows || !Matches(rows[k], f)
    requires !Matches(t, f)
    ensures Select(rows[k := t], f, n) == Select(rows, f, n)
    ensures Select(rows - {k}, f, n) == Select(rows, f, n)
    decreases n
  {
    if n > 1 {
      SelectIgnoresNonMatching(rows, f, n - 1, k, t);
    }
  }

  /** A row stored at a fresh top key is appended to every selection it matches. */
  lemma SelectInsertTop(st: Snapshot, f: Filter, t: Transaction)
    requires WellKeyed(st)
    ensures SelectAll(Snapshot(st.rows[st.nextId := t], st.nextId + 1), f)
         == SelectAll(st, f) + (if Matches(t, f) then [t] else [])
  {
    SelectIgnoresHighKeys(st.rows, f, st.nextId, st.nextId, t);
  }

  /** The live table, as `TransactionDB` and the transaction record see it. */
  class TransactionTable {
    var rows: map<int, Transaction>
    var nextId: int

    ghost predicate Valid()
      reads this
    {
      WellKeyed(Snapshot(rows, nextId))
    }

    function State(): Snapshot
      reads this
    {
      Snapshot(rows, nextId)
    }

    constructor ()
      ensures Valid() && rows == map[] && nextId == 1
    {
      rows := map[];
      nextId := 1;
    }

    /** `query_one(id=...)`: the row with that key, or None. */
    method QueryOne(id: int) returns (r: Option<Transaction>)
      requires Valid()
      ensures r.None? <==> id !in rows
      ensures r.Some? ==> r.value == rows[id] && r.value.id == id
    {
      if id in rows {
        r := Some(rows[id]);
      } else {
        r := None;
      }
    }

    /** `query_all(**filter)`: None when nothing matches (never an empty
        tuple), otherwise every matching row, one row included. */
    method QueryAll(f: Filter) returns (r: Option<seq<Transaction>>)
      requires Valid()
      ensures r.None? <==> forall id :: id in rows ==> !Matches(rows[id], f)
      ensures r.None? <==> SelectAll(State(), f) == []
      ensures r.Some? ==> r.value == SelectAll(State(), f)
      ensures r.Some? ==> forall t :: t in r.value <==> t.id in rows && rows[t.id] == t && Matches(t, f)
    {
      var found: seq<Transaction> := [];
      var id := 1;
      while id < nextId
        invariant 1 <= id <= nextId
        invariant found == Select(rows, f, id)
      {
        if id in rows && Matches(rows[id], f) {
          found := found + [rows[id]];
        }
        id := id + 1;
      }
      forall t ensures t in found <==> t.id in rows && rows[t.id] == t && Matches(t, f) {
        SelectAllExactly(State(), f, t);
      }
      if found == [] {
        forall id | id in rows ensures !Matches(rows[id], f) {
          assert rows[id] !in found;
        }
        r := None;
      } else {
        assert found[0] in found;
        assert found[0].id in rows && Matches(rows[found[0].id], f);
        r := Some(found);
      }
    }

    /** `TransactionDB.create_new`: stores exactly the given fields under a
        fresh key; currencies not given stay NULL and `confirmed` defaults to
        false. */
    method CreateNew(date: string, userId: int, receiverId: int, senderId: int, description: string,
                     confirmed: bool := false, amounts: map<Currency, int> := map[], linked: Option<int> := None)
      returns (id: int)
      requires Valid()
      modifies this
      ensures Valid()
      ensures id == old(nextId) && id !in old(rows) && nextId == id + 1
      ensures rows == old(rows)[id := Transaction(id, date, userId, receiverId, senderId, description, confirmed, amounts, linked)]
    {
      id := nextId;
      rows := rows[id := Transaction(id, date, userId, receiverId, senderId, description, confirmed, amounts, linked)];
      nextId := nextId + 1;
    }

    /** The `confirmed` setter: stores `bool(value)` and persists; nothing
        else changes. */
    method SetConfirmed(id: int, value: bool)
      requires Valid() && id in rows
      modifies this
      ensures Valid() && nextId == old(nextId)
      ensures rows == old(rows)[id := old(rows)[id].(confirmed := value)]
    {
      rows := rows[id := rows[id].(confirmed := value)];
    }

    /** The five currency setters: store `int(value)` in one column. */
    method SetAmount(id: int, c: Currency, value: int)
      requires Valid() && id in rows
      modifies this
      ensures Valid() && nextId == old(nextId)
      ensures rows == old(rows)[id := old(rows)[id].(amounts := old(rows)[id].amounts[c := value])]
    {
      rows := rows[id := rows[id].(amounts := rows[id].amounts[c := value])];
    }

    /** Assigning `transaction.linked`. */
    method SetLinked(id: int, value: Option<int>)
      requires Valid() && id in rows
      modifies this
      ensures Valid() && nextId == old(nextId)
      ensures rows == old(rows)[id := old(rows)[id].(linked := value)]
    {
      rows := rows[id := rows[id].(linked := value)];
    }

    /** `BaseModel.delete`: removes the one row with this key (no other row,
        a linked partner included) and returns how many rows went. */
    method Delete(id: int) returns (count: nat)
      requires Valid()
      modifies this
      ensures Valid() && nextId == old(nextId)
      ensures rows == old(rows) - {id}
      ensures count == (if id in old(rows) then 1 else 0)
    {
      count := if id in rows then 1 else 0;
      rows := rows - {id};
    }
  }
}
