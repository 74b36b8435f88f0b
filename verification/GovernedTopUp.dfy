/** The whole governed top-up: every check in front of the submit, the submit itself, and what
    the second custodian's gate later makes of the transaction it queued. */
module GovernedTopUp {
  import opened Wrappers
  import opened Address
  import opened FundBuyer
  import Policy
  import RateLimiter

  /** The native value sent along with every top-up. */
  const GAS_VMSHELL: nat := 1_000_000_000

  datatype Refusal =
    | BadAddress
    | Unresolved
    | RateLimited
    | LookupFailed
    | Refused(why: Policy.Refusal)
    | Failed(failure: Failure)

  /** The policy found in front of the submit, if it could be looked up and there is one,
      allows the budget to go to the buyer's account. */
  predicate Allows(lookup: Policy.Lookup, dest: string, value: nat) {
    lookup.Ok? && (lookup.value.Some? ==> Policy.Check(lookup.value.value, dest, value).Ok?)
  }

  predicate HasSubmitted(r: Result<nat, Refusal>) {
    match r
    case Ok(id) => true
    case Err(Failed(failure)) => HasSent(Err(failure))
    case Err(_) => false
  }

  /** Nothing is sent to an account that the policy blocks, however it is spelled.
      `resolved` says whether the treasury and a way to read it were found, `hasKey` whether
      the signing key is there; `key` is the treasury's canonical account id, `now` the
      limiter's clock reading. A submit is sent only when every check in front of it has
      passed, and then exactly one; the limiter counts every call that gets to it. */
  method TopUp(limiter: RateLimiter.TxRateLimiter, t: Treasury, resolved: bool, key: string, now: int,
               lookup: Policy.Lookup, creator: string, operAddress: string, budget: nat,
               confirms: Result<nat, ()>, hasKey: bool)
    returns (r: Result<nat, Refusal>, ghost own: nat, ghost snap: nat)
    requires t.Valid()
    modifies limiter, t
    ensures t.Valid() && Grows(old(t.ledger), t.ledger) && old(t.lastRead) <= t.lastRead
    ensures r == Err(BadAddress) <==> BareAccountId(operAddress).None?
    ensures r == Err(Unresolved) <==> BareAccountId(operAddress).Some? && !resolved
    ensures var (accepted, counted) := RateLimiter.Checked(old(limiter.buckets), key, now);
            if r == Err(BadAddress) || r == Err(Unresolved) then limiter.buckets == old(limiter.buckets)
            else
              && limiter.buckets == counted
              && (r == Err(RateLimited) <==> !accepted)
              && (r == Err(LookupFailed) <==> accepted && lookup.Err?)
              && (r.Err? && r.error.Refused? <==> accepted && lookup.Ok? && !Allows(lookup, operAddress, budget))
              && var passed := accepted && Allows(lookup, operAddress, budget);
                 && (r == Err(Failed(NotReadable)) <==> passed && confirms.Err?)
                 && (r == Err(Failed(NotGoverned)) <==> passed && confirms.Ok? && confirms.value < 2)
    ensures t.sent == old(t.sent) + if HasSubmitted(r) then [Submit(creator, operAddress, budget)] else []
    ensures HasSubmitted(r) ==>
              && RateLimiter.Checked(old(limiter.buckets), key, now).0
              && Allows(lookup, operAddress, budget)
              && confirms.Ok? && confirms.value >= 2 && hasKey
    ensures lookup.Ok? && lookup.value.Some? && Policy.Blocks(lookup.value.value, operAddress)
            ==> t.sent == old(t.sent)
    ensures r.Ok? ==>
              && old(t.lastRead) <= snap
              && |old(t.ledger.submits)| <= own < |t.ledger.submits|
              && t.ledger.submits[own] == Submit(creator, operAddress, budget)
              && Attributed(t.ledger, r.value, snap, t.lastRead, Submit(creator, operAddress, budget))
              && (forall id :: Attributed(t.ledger, id, snap, t.lastRead, Submit(creator, operAddress, budget))
                    ==> id == r.value)
  {
    hide Attributed, Grows, RateLimiter.Checked, BareAccountId, Policy.Check, Policy.Blocks;
    own, snap := 0, 0;
    assert t.sent + [] == t.sent;
    GrowsItself(t.ledger);
    var canon := BareAccountId(operAddress);
    if canon.None? {
      return Err(BadAddress), own, snap;
    }
    if !resolved {
      return Err(Unresolved), own, snap;
    }
    var accepted := limiter.Check(key, now);
    if !accepted {
      return Err(RateLimited), own, snap;
    }
    if lookup.Err? {
      return Err(LookupFailed), own, snap;
    }
    if lookup.value.Some? {
      Policy.VerdictByAccount(lookup.value.value, operAddress, budget);
      CheckedAsSpelled(lookup.value.value, operAddress, budget);
      var verdict := Policy.Check(lookup.value.value, canon.value, budget);
      if verdict.Err? {
        return Err(Refused(verdict.error)), own, snap;
      }
    }
    var found;
    ghost var atSnap;
    found, own, snap, atSnap := SubmitAndFind(t, creator, operAddress, budget, confirms, hasKey);
    r := match found case Ok(id) => Ok(id) case Err(failure) => Err(Failed(failure));
  }

  /** Checking the canonical account id is checking the address as it was given. */
  lemma CheckedAsSpelled(policy: Policy.WalletPolicy, dest: string, value: nat)
    requires BareAccountId(dest).Some?
    ensures Policy.Check(policy, BareAccountId(dest).value, value) == Policy.Check(policy, dest, value)
  {
    hide Policy.Check, BareAccountId, CanonDest;
    CanonIsBareId(dest);
    Policy.SpellingDoesNotMatter(policy, policy, BareAccountId(dest).value, dest, value);
  }

  // ---- will the second custodian be let through? ----------------------------

  /** A queued top-up as the chain shows it: the account and SHELL of the submit, and the
      native value that goes along. */
  ghost predicate IsTopUp(tx: QueuedTx, s: Submit) {
    Shows(tx, s) && tx.value == GAS_VMSHELL && BareAccountId(s.dest).Some?
  }

  /** The submit is checked for its budget, the release for the larger of budget and native
      value. So under one policy an allowed top-up is released exactly when the native value
      is within the limit as well. */
  lemma AllowedIsReleasedIff(policy: Policy.WalletPolicy, s: Submit, txs: seq<QueuedTx>, id: nat)
    requires Policy.Check(policy, s.dest, s.ecc2).Ok?
    requires Policy.FindTx(txs, id).Some? && IsTopUp(Policy.FindTx(txs, id).value, s)
    ensures Policy.ConfirmGate(true, Ok(Some(policy)), Ok(txs), id).Ok?
            <==> policy.maxTxAmount.None? || GAS_VMSHELL <= policy.maxTxAmount.value
  {
    var tx := Policy.FindTx(txs, id).value;
    Policy.ReleasedIffPolicyAllows(true, Ok(Some(policy)), Ok(txs), id);
    Policy.AllowedIfFound(policy, txs, id);
    hide BareAccountId, CanonDest, Policy.Names;
    CanonIsBareId(s.dest);
    CanonIsBareId(tx.dest);
    Policy.SpellingDoesNotMatter(policy, policy, s.dest, tx.dest, tx.ecc2);
    Policy.SpellingDoesNotMatter(policy, policy, s.dest, tx.dest, tx.value);
  }

  /** And it does happen that it is not: under every limit below the native value, a budget
      within the limit is let through at the submit and can then never be released. */
  lemma SmallTopUpsStrand(limit: nat, s: Submit, tx: QueuedTx)
    requires s.ecc2 <= limit < GAS_VMSHELL && IsTopUp(tx, s)
    ensures var policy := Policy.WalletPolicy(Some(limit), None, [], [], None);
            && Policy.Check(policy, s.dest, s.ecc2).Ok?
            && Policy.ConfirmGate(true, Ok(Some(policy)), Ok([tx]), tx.id) == Err(Policy.Refused(Policy.OverLimit))
  {
    hide BareAccountId;
  }
}
