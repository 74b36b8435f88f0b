/** Wallet spending policies: which transfers they allow, and the gate a second signature
    has to pass before it releases a queued transaction. */
module Policy {
  import opened Common
  import opened Wrappers
  import opened Address
  import FundBuyer

  datatype WalletPolicy = WalletPolicy(
    maxTxAmount: Option<nat>, dailyLimit: Option<nat>,
    allowedDestinations: seq<string>, blockedDestinations: seq<string>, policyTier: Option<string>)

  datatype Refusal = Frozen | OverLimit | Blocked | NotAllowed

  /** The list names the account, in whatever spelling. */
  predicate Names(list: seq<string>, dest: string) {
    exists i :: 0 <= i < |list| && CanonDest(list[i]) == CanonDest(dest)
  }

  /** `daily_limit` is stored but not enforced. */
  function Check(p: WalletPolicy, dest: string, value: nat): Result<(), Refusal> {
    if p.policyTier == Some("frozen") then Err(Frozen)
    else if p.maxTxAmount.Some? && value > p.maxTxAmount.value then Err(OverLimit)
    else if Names(p.blockedDestinations, dest) then Err(Blocked)
    else if p.allowedDestinations != [] && !Names(p.allowedDestinations, dest) then Err(NotAllowed)
    else Ok(())
  }

  /** The accounts a list names. */
  function Accounts(list: seq<string>): set<string> {
    set i | 0 <= i < |list| :: CanonDest(list[i])
  }

  lemma NamesIsMembership(list: seq<string>, dest: string)
    ensures Names(list, dest) <==> CanonDest(dest) in Accounts(list)
  {
  }

  /** The same limit and tier, and lists that name the same accounts. */
  ghost predicate Respelled(p: WalletPolicy, q: WalletPolicy) {
    && p.maxTxAmount == q.maxTxAmount && p.policyTier == q.policyTier
    && Accounts(p.allowedDestinations) == Accounts(q.allowedDestinations)
    && Accounts(p.blockedDestinations) == Accounts(q.blockedDestinations)
  }

  lemma EmptyIffNoAccounts(list: seq<string>)
    ensures list == [] <==> Accounts(list) == {}
  {
    if list != [] {
      assert CanonDest(list[0]) in Accounts(list);
    }
  }

  /** Decisions depend on accounts only: respelling the destination or any list entry
      changes nothing, the reason of a refusal included. */
  lemma SpellingDoesNotMatter(p: WalletPolicy, q: WalletPolicy, dest: string, other: string, value: nat)
    requires Respelled(p, q) && CanonDest(dest) == CanonDest(other)
    ensures Check(p, dest, value) == Check(q, other, value)
  {
    hide CanonDest, Names, Accounts;
    EmptyIffNoAccounts(p.allowedDestinations);
    EmptyIffNoAccounts(q.allowedDestinations);
    NamesIsMembership(p.allowedDestinations, dest);
    NamesIsMembership(q.allowedDestinations, other);
    NamesIsMembership(p.blockedDestinations, dest);
    NamesIsMembership(q.blockedDestinations, other);
  }

  /** Where every spelling is an address the parser accepts, a list names an account exactly
      through the entries of that account without a `0x` prefix. A destination with the prefix
      is named by prefixed entries of its account only. */
  lemma NamesAccountIff(list: seq<string>, dest: string)
    requires Parse(dest).Some? && forall i :: 0 <= i < |list| ==> Parse(list[i]).Some?
    ensures !HexPrefixed(dest) ==>
              (Names(list, dest)
               <==> exists i :: 0 <= i < |list| && Parse(list[i]) == Parse(dest) && !HexPrefixed(list[i]))
    ensures HexPrefixed(dest) && Names(list, dest) ==>
              exists i :: 0 <= i < |list| && Parse(list[i]) == Parse(dest) && HexPrefixed(list[i])
  {
    hide Parse, HexPrefixed, CanonDest;
    forall i | 0 <= i < |list|
      ensures CanonDest(list[i]) == CanonDest(dest) ==>
                Parse(list[i]) == Parse(dest) && HexPrefixed(list[i]) == HexPrefixed(dest)
      ensures !HexPrefixed(list[i]) && !HexPrefixed(dest) && Parse(list[i]) == Parse(dest)
              ==> CanonDest(list[i]) == CanonDest(dest)
    {
      SameCanonIff(list[i], dest);
    }
  }

  /** The list has an entry of the destination's account, without `0x`, however it is spelled. */
  ghost predicate Lists(list: seq<string>, dest: string) {
    exists i :: 0 <= i < |list| && Parse(list[i]).Some? && Parse(list[i]) == Parse(dest) && !HexPrefixed(list[i])
  }

  ghost predicate Readable(list: seq<string>) {
    forall i :: 0 <= i < |list| ==> Parse(list[i]).Some?
  }

  /** A listed account is named, whatever else is in the list. */
  lemma ListedIsNamed(list: seq<string>, dest: string)
    requires Lists(list, dest) && !HexPrefixed(dest)
    ensures Names(list, dest)
  {
    hide Parse, HexPrefixed, CanonDest;
    var i :| 0 <= i < |list| && Parse(list[i]).Some? && Parse(list[i]) == Parse(dest) && !HexPrefixed(list[i]);
    SameCanonIff(list[i], dest);
  }

  lemma NamedIsListed(list: seq<string>, dest: string)
    requires Parse(dest).Some? && !HexPrefixed(dest) && Readable(list)
    ensures Names(list, dest) <==> Lists(list, dest)
  {
    hide Parse, HexPrefixed, CanonDest, Names;
    NamesAccountIff(list, dest);
  }

  /** The policy blocks the account of the destination. */
  ghost predicate Blocks(p: WalletPolicy, dest: string) {
    !HexPrefixed(dest) && Lists(p.blockedDestinations, dest)
  }

  /** What a payment to an account written without `0x` is told, in terms of accounts. A
      blocked account, an amount above the limit and a frozen wallet are always refused; with
      lists of addresses the parser accepts, an account that is on a block-list, or not on a
      non-empty allow-list, is the only other one that is. */
  lemma VerdictByAccount(p: WalletPolicy, dest: string, value: nat)
    ensures Blocks(p, dest) ==> Check(p, dest, value) in {Err(Frozen), Err(OverLimit), Err(Blocked)}
    ensures p.policyTier == Some("frozen") ==> Check(p, dest, value) == Err(Frozen)
    ensures p.maxTxAmount.Some? && value > p.maxTxAmount.value ==> Check(p, dest, value).Err?
    ensures Parse(dest).Some? && !HexPrefixed(dest)
            && Readable(p.blockedDestinations) && Readable(p.allowedDestinations) ==>
              (Check(p, dest, value).Ok?
               <==> && p.policyTier != Some("frozen")
                    && (p.maxTxAmount.Some? ==> value <= p.maxTxAmount.value)
                    && !Lists(p.blockedDestinations, dest)
                    && (p.allowedDestinations == [] || Lists(p.allowedDestinations, dest)))
  {
    hide Parse, HexPrefixed, Names, Lists, Readable;
    if Blocks(p, dest) {
      ListedIsNamed(p.blockedDestinations, dest);
    }
    if Parse(dest).Some? && !HexPrefixed(dest)
       && Readable(p.blockedDestinations) && Readable(p.allowedDestinations) {
      NamedIsListed(p.blockedDestinations, dest);
      NamedIsListed(p.allowedDestinations, dest);
    }
  }

  /** An account listed with `0x` only, every account id being such an account: a block-list
      entry blocks nothing, and an allow-list entry refuses the very account it lists. The
      other way round, an account blocked by its id is let through when spelled with `0x`. */
  lemma PrefixedEntriesMiss(bare: string, value: nat)
    requires IsBare(bare)
    ensures Parse("0x" + bare) == Parse(bare) == Some(bare)
    ensures Check(WalletPolicy(None, None, [], ["0x" + bare], None), bare, value).Ok?
    ensures Check(WalletPolicy(None, None, ["0x" + bare], [], None), bare, value) == Err(NotAllowed)
    ensures Check(WalletPolicy(None, None, [], [bare], None), "0x" + bare, value).Ok?
  {
    var prefixed := "0x" + bare;
    HexPrefixedIsMissed(bare);
    ParseOfBare(bare);
    BareIsFixed(bare, bare);
    OtherAccountsOnly(prefixed, bare, value);
    OtherAccountsOnly(bare, prefixed, value);
  }

  /** What lists of one entry say about a destination with another canonical form. */
  lemma OtherAccountsOnly(entry: string, dest: string, value: nat)
    requires CanonDest(entry) != CanonDest(dest)
    ensures Check(WalletPolicy(None, None, [], [entry], None), dest, value).Ok?
    ensures Check(WalletPolicy(None, None, [entry], [], None), dest, value) == Err(NotAllowed)
  {
    hide CanonDest;
    assert !Names([entry], dest);
  }

  /** `q` refuses no more than `p`: no lower limit, no more blocked accounts, no account
      taken off an allow-list. */
  ghost predicate NoStricter(q: WalletPolicy, p: WalletPolicy) {
    && (q.policyTier == Some("frozen") ==> p.policyTier == Some("frozen"))
    && (q.maxTxAmount.Some? ==> p.maxTxAmount.Some? && p.maxTxAmount.value <= q.maxTxAmount.value)
    && Accounts(q.blockedDestinations) <= Accounts(p.blockedDestinations)
    && (q.allowedDestinations == [] ||
        (p.allowedDestinations != [] && Accounts(p.allowedDestinations) <= Accounts(q.allowedDestinations)))
  }

  /** What is allowed stays allowed for a smaller amount and under a policy no stricter. */
  lemma AllowedStaysAllowed(p: WalletPolicy, q: WalletPolicy, dest: string, value: nat, less: nat)
    requires Check(p, dest, value).Ok? && less <= value && NoStricter(q, p)
    ensures Check(q, dest, less).Ok?
  {
    hide CanonDest, Names, Accounts;
    NamesIsMembership(p.allowedDestinations, dest);
    NamesIsMembership(q.allowedDestinations, dest);
    NamesIsMembership(p.blockedDestinations, dest);
    NamesIsMembership(q.blockedDestinations, dest);
  }

  // ---- the second signature -------------------------------------------------

  datatype GateError = RateLimited | LookupFailed | WalletFrozen | QueueUnreadable | NotQueued | Refused(why: Refusal)

  /** The policy lookup: it fails, or yields a policy or none. */
  type Lookup = Result<Option<WalletPolicy>, ()>

  function FindTx(txs: seq<FundBuyer.QueuedTx>, id: nat): Option<FundBuyer.QueuedTx> {
    if txs == [] then None
    else if txs[0].id == id then Some(txs[0])
    else FindTx(txs[1..], id)
  }

  /** The destination and amount a queued transaction is checked for. */
  function ForPolicy(tx: FundBuyer.QueuedTx): (string, nat) {
    (match BareAccountId(tx.dest) case Some(bare) => bare case None => tx.dest, Max(tx.value, tx.ecc2))
  }

  /** The decision whether a confirmation may be signed. */
  function ConfirmGate(withinRate: bool, lookup: Lookup, queue: Result<seq<FundBuyer.QueuedTx>, ()>, id: nat)
    : Result<(), GateError>
  {
    if !withinRate then Err(RateLimited)
    else match lookup
         case Err(_) => Err(LookupFailed)
         case Ok(None) => Ok(())
         case Ok(Some(policy)) =>
           if policy.policyTier == Some("frozen") then Err(WalletFrozen)
           else match queue
                case Err(_) => Err(QueueUnreadable)
                case Ok(txs) =>
                  match FindTx(txs, id)
                  case None => Err(NotQueued)
                  case Some(tx) =>
                    match Check(policy, ForPolicy(tx).0, ForPolicy(tx).1)
                    case Ok(_) => Ok(())
                    case Err(why) => Err(Refused(why))
  }

  /** The lookup yields the first transaction of the id, and none only if there is none. */
  lemma {:induction false} FindTxIff(txs: seq<FundBuyer.QueuedTx>, id: nat)
    ensures FindTx(txs, id).None? <==> forall i :: 0 <= i < |txs| ==> txs[i].id != id
    ensures FindTx(txs, id).Some? ==> exists k :: IsFirst(txs, id, k) && txs[k] == FindTx(txs, id).value
  {
    if txs != [] && txs[0].id != id {
      assert forall i :: 1 <= i < |txs| ==> txs[i] == txs[1..][i - 1];
      FindTxIff(txs[1..], id);
      if FindTx(txs[1..], id).Some? {
        var k :| IsFirst(txs[1..], id, k) && txs[1..][k] == FindTx(txs[1..], id).value;
        assert IsFirst(txs, id, k + 1);
      }
    } else if txs != [] {
      assert IsFirst(txs, id, 0);
    }
  }

  /** A transaction is released exactly when the call is within the rate, the policy lookup
      succeeds and, if there is a policy, the queue can be read and has a transaction of that
      id, the first of which the policy allows, at the destination as the queue spells it,
      both for its native value and for the SHELL it carries. */
  lemma ReleasedIffPolicyAllows(withinRate: bool, lookup: Lookup, queue: Result<seq<FundBuyer.QueuedTx>, ()>, id: nat)
    ensures ConfirmGate(withinRate, lookup, queue, id).Ok?
            <==> && withinRate && lookup.Ok?
                 && (lookup.value.Some? ==> queue.Ok? && FirstIsAllowed(lookup.value.value, queue.value, id))
  {
    hide CanonDest, BareAccountId, NoStricter, Accounts, Names, Check, FirstIsAllowed;
    if lookup.Ok? && lookup.value.Some? && queue.Ok? {
      var policy := lookup.value.value;
      FindTxIff(queue.value, id);
      if policy.policyTier == Some("frozen") {
        FrozenRefuses(policy, queue.value, id);
      }
      if FindTx(queue.value, id).Some? {
        CheckedForBoth(policy, FindTx(queue.value, id).value);
      }
      AllowedIfFound(policy, queue.value, id);
    }
  }

  /** The first transaction of the id in the queue is allowed for both its amounts. */
  ghost predicate FirstIsAllowed(policy: WalletPolicy, txs: seq<FundBuyer.QueuedTx>, id: nat) {
    exists k :: IsFirst(txs, id, k) && Check(policy, txs[k].dest, txs[k].value).Ok?
                && Check(policy, txs[k].dest, txs[k].ecc2).Ok?
  }

  predicate IsFirst(txs: seq<FundBuyer.QueuedTx>, id: nat, k: int) {
    0 <= k < |txs| && txs[k].id == id && forall i :: 0 <= i < k ==> txs[i].id != id
  }

  lemma AllowedIfFound(policy: WalletPolicy, txs: seq<FundBuyer.QueuedTx>, id: nat)
    ensures FirstIsAllowed(policy, txs, id)
            <==> && FindTx(txs, id).Some?
                 && var tx := FindTx(txs, id).value;
                    Check(policy, tx.dest, tx.value).Ok? && Check(policy, tx.dest, tx.ecc2).Ok?
  {
    hide Check;
    FindTxIff(txs, id);
    if FindTx(txs, id).Some? {
      var k :| IsFirst(txs, id, k) && txs[k] == FindTx(txs, id).value;
      assert forall j :: IsFirst(txs, id, j) ==> j == k;
    }
  }

  lemma FrozenRefuses(policy: WalletPolicy, txs: seq<FundBuyer.QueuedTx>, id: nat)
    requires policy.policyTier == Some("frozen")
    ensures !FirstIsAllowed(policy, txs, id)
  {
  }

  /** Nothing is released to a blocked account, however the queue or the policy spells it. */
  lemma BlockedIsNotReleased(withinRate: bool, policy: WalletPolicy, txs: seq<FundBuyer.QueuedTx>, id: nat, k: int)
    requires IsFirst(txs, id, k) && Blocks(policy, txs[k].dest)
    ensures ConfirmGate(withinRate, Ok(Some(policy)), Ok(txs), id).Err?
  {
    hide Blocks, Check, ConfirmGate;
    ReleasedIffPolicyAllows(withinRate, Ok(Some(policy)), Ok(txs), id);
    VerdictByAccount(policy, txs[k].dest, txs[k].value);
    assert forall j :: IsFirst(txs, id, j) ==> j == k;
  }

  lemma CheckedForBoth(policy: WalletPolicy, tx: FundBuyer.QueuedTx)
    ensures Check(policy, ForPolicy(tx).0, ForPolicy(tx).1).Ok?
            <==> Check(policy, tx.dest, tx.value).Ok? && Check(policy, tx.dest, tx.ecc2).Ok?
  {
    hide Check, CanonDest, BareAccountId, NoStricter, Accounts;
    var (dest, amount) := ForPolicy(tx);
    if BareAccountId(tx.dest).Some? {
      CanonIsBareId(tx.dest);
      SpellingDoesNotMatter(policy, policy, dest, tx.dest, amount);
    }
    SamePolicyNoStricter(policy);
    if Check(policy, dest, amount).Ok? {
      AllowedStaysAllowed(policy, policy, tx.dest, amount, tx.value);
      AllowedStaysAllowed(policy, policy, tx.dest, amount, tx.ecc2);
    }
  }

  lemma SamePolicyNoStricter(policy: WalletPolicy)
    ensures NoStricter(policy, policy)
  {
  }
}
