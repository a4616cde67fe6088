/** The two versions of the bank cog side by side: they answer every
    well-formed request alike and differ in what a malformed amount string
    leaves behind. */
module BankVersions {
  import opened Common
  import opened Text
  import opened Store
  import opened Ledger
  import BankV1
  import BankV2

  /** On an amount string that parses, both versions give the same reply:
      they store the same primary row, and the partner's amounts (zeros
      negated or left NULL) are never weighed by either guard. */
  lemma VersionsAgreeOnWellFormedInput(st: Snapshot, a: Request)
    requires WellKeyed(st) && CoinsOf(a.text).Ok?
    ensures BankV1.CreateSpec(st, a).0 == BankV2.CreateSpec(st, a).0
  {
    if a.description != [] && a.text != [] {
      var coins := CoinsOf(a.text).value;
      assert FirstInvalid(a.text).None? && FoldCoins(SplitOn(a.text, ',')).1.None?;
      assert BankV1.Coins(a.text) == coins;
      BankV1.CreateSpecSettles(st, a);
      SettleReplyIgnoresPartner(Stage(st, a, coins), st.nextId, a, NegatedNonZero(coins), Negated(coins));
    }
  }

  /** On a bad comma piece both versions report the same error, but only
      the first leaves a row behind (and uses up a key). */
  lemma OnlyFirstVersionStoresMalformed(st: Snapshot, a: Request)
    requires WellKeyed(st)
    requires a.description != [] && a.text != [] && FirstInvalid(a.text).None?
    requires FoldCoins(SplitOn(a.text, ',')).1.Some?
    ensures BankV1.CreateSpec(st, a).0 == BankV2.CreateSpec(st, a).0
    ensures BankV2.CreateSpec(st, a).1 == st
    ensures BankV1.CreateSpec(st, a).1.nextId == st.nextId + 1
    ensures st.nextId in BankV1.CreateSpec(st, a).1.rows && st.nextId !in st.rows
  {
    BankV1.ParseFailureKeepsPrimaryRow(st, a);
  }
}
