/** The deposit script for a two-coin pool: it finds the coins through
    whichever getter the pool exposes, takes 18 decimals for the native
    asset, finds the native-asset leg, approves only the token legs whose
    allowance falls short, attaches the native leg's amount as the call's
    value, and submits add_liquidity with and then without a receiver. */
module AddLiquidity {
  import opened Calls

  const ETH_SENTINEL: string := "0xEeeeeEeeeEeEeeEeEeEeeEEEeeeeEeeeeeeeEEeE"
  const ZERO_ADDRESS: string := "0x0000000000000000000000000000000000000000"
  /** Decimals assumed for the native asset. */
  const ETH_DECIMALS: nat := 18

  /** ASCII case folding, as str.lower() does on addresses. */
  function LowerChar(c: char): char {
    if 'A' <= c <= 'Z' then ((c as int) + 32) as char else c
  }

  function Lower(s: string): (t: string)
    ensures |t| == |s| && forall k :: 0 <= k < |s| ==> t[k] == LowerChar(s[k])
  {
    seq(|s|, k requires 0 <= k < |s| => LowerChar(s[k]))
  }

  /** The set of sentinels as written: the lowered sentinel, the zero
      address, and the sentinel in its checksummed spelling. */
  const ETH_SENTINELS: set<string> := {Lower(ETH_SENTINEL), ZERO_ADDRESS, ETH_SENTINEL}

  /** `is_eth_addr`: false for None and for the empty string; otherwise the
      lowered address must be in the set. The checksummed entry can never
      match a lowered address, so only two spellings count, and case does
      not matter. */
  function IsEthAddr(addr: Option<string>): (b: bool)
    ensures b <==> addr.Some? && addr.value != []
                   && (Lower(addr.value) == Lower(ETH_SENTINEL) || Lower(addr.value) == ZERO_ADDRESS)
  {
    if addr.None? then false
    else
      LoweredIsNeverChecksummed(addr.value);
      addr.value != [] && Lower(addr.value) in ETH_SENTINELS
  }

  /** The checksummed sentinel has upper-case letters, so no lowered string equals it. */
  lemma LoweredIsNeverChecksummed(s: string)
    ensures Lower(s) != ETH_SENTINEL
  {
    if |s| == |ETH_SENTINEL| {
      assert Lower(s)[2] == LowerChar(s[2]) != ETH_SENTINEL[2];
    }
  }

  /** Addresses that differ only in letter case are classified alike. */
  lemma IsEthAddrIgnoresCase(a: string, b: string)
    requires Lower(a) == Lower(b)
    ensures IsEthAddr(Some(a)) == IsEthAddr(Some(b))
  {
  }

  predicate IsEthCoin(c: Address) {
    IsEthAddr(Some(c))
  }

  /** The pool's coin getters: which named getters it has, what getter(i)
      answers, and what the indexed form coins[i] answers. */
  datatype CoinGetters = CoinGetters(
    has: string -> bool,
    call: (string, nat) -> Outcome<Address>,
    indexed: nat -> Outcome<Address>)

  datatype CoinList = CoinList(coins: seq<Address>, source: string)

  /** A getter yields the coin list when the pool has it and both of its
      calls return. */
  predicate GetterWorks(pool: CoinGetters, getter: string) {
    pool.has(getter) && pool.call(getter, 0).Ok? && pool.call(getter, 1).Ok?
  }

  /** The answer of `get_coins`: `coins` before `tokens`, the first that
      yields indices 0 and 1; only when neither does, the array form, whose
      failures propagate in index order. */
  function CoinsOf(pool: CoinGetters): (r: Outcome<CoinList>)
    ensures r.Ok? ==> |r.value.coins| == 2
  {
    if GetterWorks(pool, "coins") then Ok(CoinList([pool.call("coins", 0).value, pool.call("coins", 1).value], "coins"))
    else if GetterWorks(pool, "tokens") then Ok(CoinList([pool.call("tokens", 0).value, pool.call("tokens", 1).value], "tokens"))
    else if pool.indexed(0).Raised? then Raised(pool.indexed(0).error)
    else if pool.indexed(1).Raised? then Raised(pool.indexed(1).error)
    else Ok(CoinList([pool.indexed(0).value, pool.indexed(1).value], "coins[]"))
  }

  /** `get_coins`, a loop over the getter names with an early return. */
  method GetCoins(pool: CoinGetters) returns (r: Outcome<CoinList>)
    ensures r == CoinsOf(pool)
    ensures GetterWorks(pool, "coins") ==>
              r == Ok(CoinList([pool.call("coins", 0).value, pool.call("coins", 1).value], "coins"))
    ensures !GetterWorks(pool, "coins") && GetterWorks(pool, "tokens") ==>
              r == Ok(CoinList([pool.call("tokens", 0).value, pool.call("tokens", 1).value], "tokens"))
    ensures !GetterWorks(pool, "coins") && !GetterWorks(pool, "tokens") ==>
              (r.Ok? <==> pool.indexed(0).Ok? && pool.indexed(1).Ok?)
              && (r.Ok? ==> r.value == CoinList([pool.indexed(0).value, pool.indexed(1).value], "coins[]"))
              && (r.Raised? ==> r.error == if pool.indexed(0).Raised? then pool.indexed(0).error else pool.indexed(1).error)
  {
    var getters := ["coins", "tokens"];
    for k := 0 to |getters|
      invariant getters[0] == "coins" && getters[1] == "tokens"
      invariant forall m :: 0 <= m < k ==> !GetterWorks(pool, getters[m])
    {
      var getter := getters[k];
      if pool.has(getter) {
        var c0 := pool.call(getter, 0);
        if c0.Ok? {
          var c1 := pool.call(getter, 1);
          if c1.Ok? {
            return Ok(CoinList([c0.value, c1.value], getter));
          }
        }
      }
    }
    var c0 := pool.indexed(0);
    if c0.Raised? {
      return Raised(c0.error);
    }
    var c1 := pool.indexed(1);
    if c1.Raised? {
      return Raised(c1.error);
    }
    r := Ok(CoinList([c0.value, c1.value], "coins[]"));
  }

  /** The answer of `get_decimals`: one entry per coin, 18 for a
      native-asset coin and the token's decimals() otherwise; the first
      failing decimals() propagates. */
  function DecimalsOf(coins: seq<Address>, decimals: Address -> Outcome<nat>): (r: Outcome<seq<nat>>)
    ensures r.Ok? ==> |r.value| == |coins|
    decreases |coins|
  {
    if coins == [] then Ok([])
    else
      var head := if IsEthCoin(coins[0]) then Ok(ETH_DECIMALS) else decimals(coins[0]);
      if head.Raised? then Raised(head.error)
      else Prefixed([head.value], DecimalsOf(coins[1..], decimals))
  }

  /** `o` with `p` in front of its list, or `o`'s error. */
  function Prefixed(p: seq<nat>, o: Outcome<seq<nat>>): Outcome<seq<nat>> {
    if o.Raised? then o else Ok(p + o.value)
  }

  /** DecimalsOf succeeds exactly when every token's decimals() returns; it
      then holds 18 or the token's decimals per coin, and otherwise fails
      with the error of the first token whose decimals() raises. */
  lemma {:induction false} DecimalsOfSpec(coins: seq<Address>, decimals: Address -> Outcome<nat>)
    ensures DecimalsOf(coins, decimals).Ok? <==> forall k :: 0 <= k < |coins| && !IsEthCoin(coins[k]) ==> decimals(coins[k]).Ok?
    ensures DecimalsOf(coins, decimals).Ok? ==>
              var decs := DecimalsOf(coins, decimals).value;
              |decs| == |coins|
              && forall k :: 0 <= k < |coins| ==> decs[k] == if IsEthCoin(coins[k]) then ETH_DECIMALS else decimals(coins[k]).value
    ensures DecimalsOf(coins, decimals).Raised? ==>
              exists k :: 0 <= k < |coins| && !IsEthCoin(coins[k]) && decimals(coins[k]) == Raised(DecimalsOf(coins, decimals).error)
                          && forall m :: 0 <= m < k && !IsEthCoin(coins[m]) ==> decimals(coins[m]).Ok?
  {
    if coins != [] {
      var tail := coins[1..];
      DecimalsOfSpec(tail, decimals);
      var r := DecimalsOf(coins, decimals);
      if r.Raised? && (IsEthCoin(coins[0]) || decimals(coins[0]).Ok?) {
        var k :| 0 <= k < |tail| && !IsEthCoin(tail[k]) && decimals(tail[k]) == Raised(r.error)
                 && forall m :: 0 <= m < k && !IsEthCoin(tail[m]) ==> decimals(tail[m]).Ok?;
        assert forall m :: 0 <= m < k + 1 && !IsEthCoin(coins[m]) ==> decimals(coins[m]).Ok? by {
          forall m | 0 < m < k + 1 ensures coins[m] == tail[m - 1] { }
        }
      }
      if (forall k :: 0 <= k < |tail| && !IsEthCoin(tail[k]) ==> decimals(tail[k]).Ok?) {
        assert forall k :: 1 <= k < |coins| ==> coins[k] == tail[k - 1];
      }
    }
  }

  /** `get_decimals`, a loop over the coins that returns at the first
      failing decimals(). */
  method GetDecimals(coins: seq<Address>, decimals: Address -> Outcome<nat>) returns (r: Outcome<seq<nat>>)
    ensures r == DecimalsOf(coins, decimals)
    ensures r.Ok? <==> forall k :: 0 <= k < |coins| && !IsEthCoin(coins[k]) ==> decimals(coins[k]).Ok?
    ensures r.Ok? ==> |r.value| == |coins|
    ensures r.Ok? ==> forall k :: 0 <= k < |coins| && IsEthCoin(coins[k]) ==> r.value[k] == ETH_DECIMALS
    ensures r.Ok? ==> forall k :: 0 <= k < |coins| && !IsEthCoin(coins[k]) ==> r.value[k] == decimals(coins[k]).value
    ensures r.Raised? ==> exists k :: 0 <= k < |coins| && !IsEthCoin(coins[k]) && decimals(coins[k]) == Raised(r.error)
                                      && forall m :: 0 <= m < k && !IsEthCoin(coins[m]) ==> decimals(coins[m]).Ok?
  {
    DecimalsOfSpec(coins, decimals);
    var decs := [];
    assert coins[0..] == coins;
    assert DecimalsOf(coins, decimals).Ok? ==> [] + DecimalsOf(coins, decimals).value == DecimalsOf(coins, decimals).value;
    for k := 0 to |coins|
      invariant DecimalsOf(coins, decimals) == Prefixed(decs, DecimalsOf(coins[k..], decimals))
    {
      assert coins[k..][0] == coins[k] && coins[k..][1..] == coins[k + 1..];
      if IsEthCoin(coins[k]) {
        PrefixedAppend(decs, [ETH_DECIMALS], DecimalsOf(coins[k + 1..], decimals));
        decs := decs + [ETH_DECIMALS];
      } else {
        var d := decimals(coins[k]);
        if d.Raised? {
          return Raised(d.error);
        }
        PrefixedAppend(decs, [d.value], DecimalsOf(coins[k + 1..], decimals));
        decs := decs + [d.value];
      }
    }
    assert coins[|coins|..] == [];
    assert decs + [] == decs;
    r := Ok(decs);
  }

  lemma PrefixedAppend(p: seq<nat>, q: seq<nat>, o: Outcome<seq<nat>>)
    ensures Prefixed(p, Prefixed(q, o)) == Prefixed(p + q, o)
  {
    if o.Ok? {
      assert p + (q + o.value) == (p + q) + o.value;
    }
  }

  /** The position of the first native-asset coin, if any. */
  function FirstEth(coins: seq<Address>): (idx: Option<nat>)
    ensures idx.Some? ==> idx.value < |coins| && IsEthCoin(coins[idx.value])
                          && forall j :: 0 <= j < idx.value ==> !IsEthCoin(coins[j])
    ensures idx.None? <==> forall j :: 0 <= j < |coins| ==> !IsEthCoin(coins[j])
    decreases |coins|
  {
    if coins == [] then None
    else if IsEthCoin(coins[0]) then Some(0)
    else match FirstEth(coins[1..])
         case None => None
         case Some(k) => Some(k + 1)
  }

  /** The search for `eth_index`, a loop that stops at the first match. */
  method EthIndex(coins: seq<Address>) returns (idx: Option<nat>)
    ensures idx == FirstEth(coins)
    ensures idx.Some? ==> idx.value < |coins| && IsEthCoin(coins[idx.value])
                          && forall j :: 0 <= j < idx.value ==> !IsEthCoin(coins[j])
    ensures idx.None? <==> forall j :: 0 <= j < |coins| ==> !IsEthCoin(coins[j])
  {
    idx := None;
    for k := 0 to |coins|
      invariant forall j :: 0 <= j < k ==> !IsEthCoin(coins[j])
    {
      if IsEthCoin(coins[k]) {
        idx := Some(k);
        FirstEthIsUnique(coins, k);
        return;
      }
    }
    FirstEthIsUnique(coins, |coins|);
  }

  /** The first match is the only index with a match and none before it. */
  lemma {:induction false} FirstEthIsUnique(coins: seq<Address>, k: nat)
    requires k <= |coins|
    requires forall j :: 0 <= j < k ==> !IsEthCoin(coins[j])
    requires k < |coins| ==> IsEthCoin(coins[k])
    ensures FirstEth(coins) == if k < |coins| then Some(k) else None
  {
    if coins != [] && k > 0 {
      FirstEthIsUnique(coins[1..], k - 1);
    }
  }

  /** `eth_value`: the amount of the native-asset leg, or 0 without one. */
  function EthValue(amounts: seq<int>, ethIndex: Option<nat>): int
    requires ethIndex.Some? ==> ethIndex.value < |amounts|
  {
    if ethIndex.Some? then amounts[ethIndex.value] else 0
  }

  /** The value attached to the deposit is the amount of the first
      native-asset leg, and 0 when every leg is a token. */
  lemma EthValueOfCoins(coins: seq<Address>, amounts: seq<int>)
    requires |coins| <= |amounts|
    ensures (forall j :: 0 <= j < |coins| ==> !IsEthCoin(coins[j])) ==> EthValue(amounts, FirstEth(coins)) == 0
    ensures forall k :: 0 <= k < |coins| && IsEthCoin(coins[k]) && (forall j :: 0 <= j < k ==> !IsEthCoin(coins[j])) ==>
              EthValue(amounts, FirstEth(coins)) == amounts[k]
  {
    forall k | 0 <= k < |coins| && IsEthCoin(coins[k]) && (forall j :: 0 <= j < k ==> !IsEthCoin(coins[j]))
      ensures EthValue(amounts, FirstEth(coins)) == amounts[k]
    {
      FirstEthIsUnique(coins, k);
    }
  }

  datatype Approval = Approval(token: Address, amount: int)

  /** A leg needs an approval when it is a token whose current allowance to
      the pool is below the amount to deposit. */
  predicate NeedsApproval(coins: seq<Address>, amounts: seq<int>, allowance: Address -> Outcome<int>, k: int)
    requires 0 <= k < |coins| <= |amounts|
  {
    !IsEthCoin(coins[k]) && allowance(coins[k]).Ok? && allowance(coins[k]).value < amounts[k]
  }

  /** The approvals of a pass over `coins` in which every read and call returns. */
  function PlannedApprovals(coins: seq<Address>, amounts: seq<int>, allowance: Address -> Outcome<int>): seq<Approval>
    requires |coins| <= |amounts|
    decreases |coins|
  {
    if coins == [] then []
    else
      var rest := PlannedApprovals(coins[1..], amounts[1..], allowance);
      if NeedsApproval(coins, amounts, allowance, 0) then [Approval(coins[0], amounts[0])] + rest else rest
  }

  /** Each planned approval is for a needing leg and for exactly its amount,
      and every needing leg is planned. */
  lemma {:induction false} PlannedApprovalsExact(coins: seq<Address>, amounts: seq<int>, allowance: Address -> Outcome<int>)
    requires |coins| <= |amounts|
    ensures forall a :: a in PlannedApprovals(coins, amounts, allowance) ==>
              exists k :: 0 <= k < |coins| && NeedsApproval(coins, amounts, allowance, k) && a == Approval(coins[k], amounts[k])
    ensures forall k :: 0 <= k < |coins| && NeedsApproval(coins, amounts, allowance, k) ==>
              Approval(coins[k], amounts[k]) in PlannedApprovals(coins, amounts, allowance)
  {
    if coins != [] {
      var tail, tailAmounts := coins[1..], amounts[1..];
      PlannedApprovalsExact(tail, tailAmounts, allowance);
      forall a | a in PlannedApprovals(coins, amounts, allowance)
        ensures exists k :: 0 <= k < |coins| && NeedsApproval(coins, amounts, allowance, k) && a == Approval(coins[k], amounts[k])
      {
        if a in PlannedApprovals(tail, tailAmounts, allowance) {
          var k :| 0 <= k < |tail| && NeedsApproval(tail, tailAmounts, allowance, k) && a == Approval(tail[k], tailAmounts[k]);
          assert NeedsApproval(coins, amounts, allowance, k + 1);
        } else {
          assert NeedsApproval(coins, amounts, allowance, 0) && a == Approval(coins[0], amounts[0]);
        }
      }
      forall k | 0 <= k < |coins| && NeedsApproval(coins, amounts, allowance, k)
        ensures Approval(coins[k], amounts[k]) in PlannedApprovals(coins, amounts, allowance)
      {
        if k > 0 {
          assert NeedsApproval(tail, tailAmounts, allowance, k - 1);
        }
      }
    }
  }

  /** The error with which leg k stops the approval pass: its allowance read
      raising, or, when the allowance falls short, its approve raising. */
  function LegFailure(coins: seq<Address>, amounts: seq<int>, allowance: Address -> Outcome<int>,
                      approve: Approval -> Outcome<()>, k: int): Option<Error>
    requires 0 <= k < |coins| <= |amounts|
  {
    if IsEthCoin(coins[k]) then None
    else if allowance(coins[k]).Raised? then Some(allowance(coins[k]).error)
    else if allowance(coins[k]).value < amounts[k] && approve(Approval(coins[k], amounts[k])).Raised?
    then Some(approve(Approval(coins[k], amounts[k])).error)
    else None
  }

  /** The error that ends the approval pass, leg by leg in order. */
  function ApprovalFailure(coins: seq<Address>, amounts: seq<int>, allowance: Address -> Outcome<int>,
                           approve: Approval -> Outcome<()>): Option<Error>
    requires |coins| <= |amounts|
    decreases |coins|
  {
    if coins == [] then None
    else if LegFailure(coins, amounts, allowance, approve, 0).Some? then LegFailure(coins, amounts, allowance, approve, 0)
    else ApprovalFailure(coins[1..], amounts[1..], allowance, approve)
  }

  /** The pass fails exactly when some leg fails, and then with the error of
      the first failing leg. */
  lemma {:induction false} ApprovalFailureFirst(coins: seq<Address>, amounts: seq<int>, allowance: Address -> Outcome<int>,
                                                approve: Approval -> Outcome<()>)
    requires |coins| <= |amounts|
    ensures ApprovalFailure(coins, amounts, allowance, approve).None? <==>
              forall k :: 0 <= k < |coins| ==> LegFailure(coins, amounts, allowance, approve, k).None?
    ensures ApprovalFailure(coins, amounts, allowance, approve).Some? ==>
              exists k :: 0 <= k < |coins|
                          && ApprovalFailure(coins, amounts, allowance, approve) == LegFailure(coins, amounts, allowance, approve, k)
                          && forall m :: 0 <= m < k ==> LegFailure(coins, amounts, allowance, approve, m).None?
  {
    if coins != [] {
      var tail, tailAmounts := coins[1..], amounts[1..];
      ApprovalFailureFirst(tail, tailAmounts, allowance, approve);
      forall m | 0 <= m < |tail|
        ensures LegFailure(tail, tailAmounts, allowance, approve, m) == LegFailure(coins, amounts, allowance, approve, m + 1)
      {
        assert tail[m] == coins[m + 1] && tailAmounts[m] == amounts[m + 1];
      }
      var f := ApprovalFailure(coins, amounts, allowance, approve);
      if LegFailure(coins, amounts, allowance, approve, 0).None? {
        if f.Some? {
          var k :| 0 <= k < |tail| && f == LegFailure(tail, tailAmounts, allowance, approve, k)
                   && forall m :: 0 <= m < k ==> LegFailure(tail, tailAmounts, allowance, approve, m).None?;
          assert forall m :: 0 <= m < k + 1 ==> LegFailure(coins, amounts, allowance, approve, m).None? by {
            forall m | 0 < m < k + 1 ensures LegFailure(coins, amounts, allowance, approve, m).None? {
              assert LegFailure(tail, tailAmounts, allowance, approve, m - 1).None?;
            }
          }
          assert f == LegFailure(coins, amounts, allowance, approve, k + 1);
        } else {
          forall k | 0 <= k < |coins| ensures LegFailure(coins, amounts, allowance, approve, k).None? {
            if k > 0 {
              assert LegFailure(tail, tailAmounts, allowance, approve, k - 1).None?;
            }
          }
        }
      }
    }
  }

  /** The pass completes exactly when every token's allowance read returns
      and every planned approval returns. */
  lemma ApprovalPassSucceeds(coins: seq<Address>, amounts: seq<int>, allowance: Address -> Outcome<int>,
                             approve: Approval -> Outcome<()>)
    requires |coins| <= |amounts|
    ensures ApprovalFailure(coins, amounts, allowance, approve).None? <==>
              (forall k :: 0 <= k < |coins| && !IsEthCoin(coins[k]) ==> allowance(coins[k]).Ok?)
              && (forall a :: a in PlannedApprovals(coins, amounts, allowance) ==> approve(a).Ok?)
  {
    ApprovalFailureFirst(coins, amounts, allowance, approve);
    PlannedApprovalsExact(coins, amounts, allowance);
    if ApprovalFailure(coins, amounts, allowance, approve).Some? {
      var k :| 0 <= k < |coins| && LegFailure(coins, amounts, allowance, approve, k).Some?;
      if allowance(coins[k]).Ok? {
        assert NeedsApproval(coins, amounts, allowance, k);
      }
    }
  }

  /** Planning a pass over `c1 + c2` plans `c1`, then `c2` with the amounts
      after those of `c1`. */
  lemma {:induction false} PlannedAppend(c1: seq<Address>, c2: seq<Address>, amounts: seq<int>,
                                         allowance: Address -> Outcome<int>)
    requires |c1| + |c2| <= |amounts|
    ensures PlannedApprovals(c1 + c2, amounts, allowance)
            == PlannedApprovals(c1, amounts, allowance) + PlannedApprovals(c2, amounts[|c1|..], allowance)
  {
    if c1 == [] {
      assert c1 + c2 == c2 && amounts[0..] == amounts;
    } else {
      PlannedAppend(c1[1..], c2, amounts[1..], allowance);
      assert (c1 + c2)[1..] == c1[1..] + c2;
      assert amounts[1..][|c1| - 1..] == amounts[|c1|..];
      assert NeedsApproval(c1 + c2, amounts, allowance, 0) == NeedsApproval(c1, amounts, allowance, 0);
    }
  }

  /** The plan for the first k + 1 legs extends the plan for the first k by
      leg k's approval when it needs one. */
  lemma PlannedPrefixStep(coins: seq<Address>, amounts: seq<int>, allowance: Address -> Outcome<int>, k: nat)
    requires k < |coins| <= |amounts|
    ensures PlannedApprovals(coins[..k + 1], amounts, allowance)
            == PlannedApprovals(coins[..k], amounts, allowance)
               + (if NeedsApproval(coins, amounts, allowance, k) then [Approval(coins[k], amounts[k])] else [])
  {
    var before, leg := coins[..k], [coins[k]];
    calc {
      PlannedApprovals(coins[..k + 1], amounts, allowance);
      { TakeOneMore(coins, k); }
      PlannedApprovals(before + leg, amounts, allowance);
      { PlannedAppend(before, leg, amounts, allowance); }
      PlannedApprovals(before, amounts, allowance) + PlannedApprovals(leg, amounts[k..], allowance);
      { PlannedSingle(coins, amounts, allowance, k); }
      PlannedApprovals(before, amounts, allowance)
      + (if NeedsApproval(coins, amounts, allowance, k) then [Approval(coins[k], amounts[k])] else []);
    }
  }

  lemma TakeOneMore<T>(s: seq<T>, k: nat)
    requires k < |s|
    ensures s[..k + 1] == s[..k] + [s[k]]
  {
  }

  /** The plan for leg k alone. */
  lemma PlannedSingle(coins: seq<Address>, amounts: seq<int>, allowance: Address -> Outcome<int>, k: nat)
    requires k < |coins| <= |amounts|
    ensures PlannedApprovals([coins[k]], amounts[k..], allowance)
            == if NeedsApproval(coins, amounts, allowance, k) then [Approval(coins[k], amounts[k])] else []
  {
    var leg := [coins[k]];
    assert leg[1..] == [];
    assert NeedsApproval(leg, amounts[k..], allowance, 0) == NeedsApproval(coins, amounts, allowance, k);
  }

  /** The approvals planned for the first k legs are each for a leg that needs one. */
  lemma PrefixPlannedAreNeeded(coins: seq<Address>, amounts: seq<int>, allowance: Address -> Outcome<int>, k: nat)
    requires k <= |coins| <= |amounts|
    ensures forall a :: a in PlannedApprovals(coins[..k], amounts, allowance) ==>
              exists j :: 0 <= j < |coins| && NeedsApproval(coins, amounts, allowance, j) && a == Approval(coins[j], amounts[j])
  {
    PlannedApprovalsExact(coins[..k], amounts, allowance);
    forall a | a in PlannedApprovals(coins[..k], amounts, allowance)
      ensures exists j :: 0 <= j < |coins| && NeedsApproval(coins, amounts, allowance, j) && a == Approval(coins[j], amounts[j])
    {
      var j :| 0 <= j < k && NeedsApproval(coins[..k], amounts, allowance, j) && a == Approval(coins[..k][j], amounts[j]);
      assert NeedsApproval(coins, amounts, allowance, j);
    }
  }

  /** One leg of the pass: the failure of the legs from k on is leg k's own
      failure, or else that of the legs after it. */
  lemma ApprovalStep(coins: seq<Address>, amounts: seq<int>, allowance: Address -> Outcome<int>,
                     approve: Approval -> Outcome<()>, k: nat)
    requires k < |coins| <= |amounts|
    ensures ApprovalFailure(coins[k..], amounts[k..], allowance, approve)
            == if LegFailure(coins, amounts, allowance, approve, k).Some? then LegFailure(coins, amounts, allowance, approve, k)
               else ApprovalFailure(coins[k + 1..], amounts[k + 1..], allowance, approve)
  {
    assert coins[k..][1..] == coins[k + 1..] && amounts[k..][1..] == amounts[k + 1..];
    assert LegFailure(coins[k..], amounts[k..], allowance, approve, 0) == LegFailure(coins, amounts, allowance, approve, k);
  }

  /** The error with which leg k stops the report loop: for a native leg the
      sender's balance read; for a token leg its balanceOf read, then its
      allowance read. The symbol() read is swallowed and never stops it. */
  function ReportLegFailure(coins: seq<Address>, balanceOf: Address -> Outcome<int>, ethBalance: Outcome<int>,
                            allowance: Address -> Outcome<int>, k: int): Option<Error>
    requires 0 <= k < |coins|
  {
    if IsEthCoin(coins[k]) then (if ethBalance.Raised? then Some(ethBalance.error) else None)
    else if balanceOf(coins[k]).Raised? then Some(balanceOf(coins[k]).error)
    else if allowance(coins[k]).Raised? then Some(allowance(coins[k]).error)
    else None
  }

  /** The error that ends the report loop, leg by leg in order. */
  function ReportFailure(coins: seq<Address>, balanceOf: Address -> Outcome<int>, ethBalance: Outcome<int>,
                         allowance: Address -> Outcome<int>): Option<Error>
    decreases |coins|
  {
    if coins == [] then None
    else if ReportLegFailure(coins, balanceOf, ethBalance, allowance, 0).Some?
    then ReportLegFailure(coins, balanceOf, ethBalance, allowance, 0)
    else ReportFailure(coins[1..], balanceOf, ethBalance, allowance)
  }

  /** The report loop fails exactly when some leg's read fails, and then with
      the error of the first failing leg. */
  lemma {:induction false} ReportFailureFirst(coins: seq<Address>, balanceOf: Address -> Outcome<int>,
                                              ethBalance: Outcome<int>, allowance: Address -> Outcome<int>)
    ensures ReportFailure(coins, balanceOf, ethBalance, allowance).None? <==>
              forall k :: 0 <= k < |coins| ==> ReportLegFailure(coins, balanceOf, ethBalance, allowance, k).None?
    ensures ReportFailure(coins, balanceOf, ethBalance, allowance).Some? ==>
              exists k :: 0 <= k < |coins|
                          && ReportFailure(coins, balanceOf, ethBalance, allowance) == ReportLegFailure(coins, balanceOf, ethBalance, allowance, k)
                          && forall m :: 0 <= m < k ==> ReportLegFailure(coins, balanceOf, ethBalance, allowance, m).None?
  {
    if coins != [] {
      var tail := coins[1..];
      ReportFailureFirst(tail, balanceOf, ethBalance, allowance);
      forall m | 0 <= m < |tail|
        ensures ReportLegFailure(tail, balanceOf, ethBalance, allowance, m) == ReportLegFailure(coins, balanceOf, ethBalance, allowance, m + 1)
      {
        assert tail[m] == coins[m + 1];
      }
      var f := ReportFailure(coins, balanceOf, ethBalance, allowance);
      if ReportLegFailure(coins, balanceOf, ethBalance, allowance, 0).None? {
        if f.Some? {
          var k :| 0 <= k < |tail| && f == ReportLegFailure(tail, balanceOf, ethBalance, allowance, k)
                   && forall m :: 0 <= m < k ==> ReportLegFailure(tail, balanceOf, ethBalance, allowance, m).None?;
          assert forall m :: 0 <= m < k + 1 ==> ReportLegFailure(coins, balanceOf, ethBalance, allowance, m).None? by {
            forall m | 0 < m < k + 1 ensures ReportLegFailure(coins, balanceOf, ethBalance, allowance, m).None? {
              assert ReportLegFailure(tail, balanceOf, ethBalance, allowance, m - 1).None?;
            }
          }
          assert f == ReportLegFailure(coins, balanceOf, ethBalance, allowance, k + 1);
        } else {
          forall k | 0 <= k < |coins| ensures ReportLegFailure(coins, balanceOf, ethBalance, allowance, k).None? {
            if k > 0 {
              assert ReportLegFailure(tail, balanceOf, ethBalance, allowance, k - 1).None?;
            }
          }
        }
      }
    }
  }

  /** The report loop completes exactly when every read it makes returns. */
  lemma ReportPassSucceeds(coins: seq<Address>, balanceOf: Address -> Outcome<int>, ethBalance: Outcome<int>,
                           allowance: Address -> Outcome<int>)
    ensures ReportFailure(coins, balanceOf, ethBalance, allowance).None? <==>
              forall k :: 0 <= k < |coins| ==>
                if IsEthCoin(coins[k]) then ethBalance.Ok? else balanceOf(coins[k]).Ok? && allowance(coins[k]).Ok?
  {
    ReportFailureFirst(coins, balanceOf, ethBalance, allowance);
    if ReportFailure(coins, balanceOf, ethBalance, allowance).Some? {
      var k :| 0 <= k < |coins| && ReportLegFailure(coins, balanceOf, ethBalance, allowance, k).Some?;
    }
  }

  /** Once the report loop has read every token's allowance, the approval
      pass can stop only at a leg that needs an approval, because its
      approve raised. */
  lemma ReportThenApproval(coins: seq<Address>, amounts: seq<int>, balanceOf: Address -> Outcome<int>,
                           ethBalance: Outcome<int>, allowance: Address -> Outcome<int>, approve: Approval -> Outcome<()>)
    requires |coins| <= |amounts|
    requires ReportFailure(coins, balanceOf, ethBalance, allowance).None?
    ensures forall k :: 0 <= k < |coins| && LegFailure(coins, amounts, allowance, approve, k).Some? ==>
              NeedsApproval(coins, amounts, allowance, k)
              && approve(Approval(coins[k], amounts[k])).Raised?
              && LegFailure(coins, amounts, allowance, approve, k) == Some(approve(Approval(coins[k], amounts[k])).error)
  {
    ReportFailureFirst(coins, balanceOf, ethBalance, allowance);
    forall k | 0 <= k < |coins| && LegFailure(coins, amounts, allowance, approve, k).Some?
      ensures NeedsApproval(coins, amounts, allowance, k) && approve(Approval(coins[k], amounts[k])).Raised?
    {
      assert ReportLegFailure(coins, balanceOf, ethBalance, allowance, k).None?;
    }
  }

  lemma ReportStep(coins: seq<Address>, balanceOf: Address -> Outcome<int>, ethBalance: Outcome<int>,
                   allowance: Address -> Outcome<int>, k: nat)
    requires k < |coins|
    ensures ReportFailure(coins[k..], balanceOf, ethBalance, allowance)
            == if ReportLegFailure(coins, balanceOf, ethBalance, allowance, k).Some?
               then ReportLegFailure(coins, balanceOf, ethBalance, allowance, k)
               else ReportFailure(coins[k + 1..], balanceOf, ethBalance, allowance)
  {
    assert coins[k..][1..] == coins[k + 1..];
    assert ReportLegFailure(coins[k..], balanceOf, ethBalance, allowance, 0)
           == ReportLegFailure(coins, balanceOf, ethBalance, allowance, k);
  }

  /** The balance and allowance report: for each leg in order, the sender's
      native balance or the token's balanceOf and allowance reads, then its
      symbol() read, whose failure is swallowed. A failing read ends the
      script with its error. */
  method ReportLegs(coins: seq<Address>, balanceOf: Address -> Outcome<int>, ethBalance: Outcome<int>,
                    allowance: Address -> Outcome<int>)
    returns (outcome: Outcome<()>)
    ensures outcome == match ReportFailure(coins, balanceOf, ethBalance, allowance)
                       case None => Ok(())
                       case Some(e) => Raised(e)
    ensures outcome.Ok? ==> forall k :: 0 <= k < |coins| && !IsEthCoin(coins[k]) ==>
                              balanceOf(coins[k]).Ok? && allowance(coins[k]).Ok?
  {
    assert coins[0..] == coins;
    for k := 0 to |coins|
      invariant ReportFailure(coins[k..], balanceOf, ethBalance, allowance) == ReportFailure(coins, balanceOf, ethBalance, allowance)
      invariant forall m :: 0 <= m < k && !IsEthCoin(coins[m]) ==> balanceOf(coins[m]).Ok? && allowance(coins[m]).Ok?
    {
      ReportStep(coins, balanceOf, ethBalance, allowance, k);
      if IsEthCoin(coins[k]) {
        if ethBalance.Raised? {
          return Raised(ethBalance.error);
        }
      } else {
        var balance := balanceOf(coins[k]);
        if balance.Raised? {
          return Raised(balance.error);
        }
        var current := allowance(coins[k]);
        if current.Raised? {
          return Raised(current.error);
        }
      }
    }
    assert coins[|coins|..] == [];
    outcome := Ok(());
  }

  /** The approval pass: for each token leg, read the allowance and approve
      the pool for exactly the leg's amount when the allowance is strictly
      below it; native-asset legs are skipped. A failing read or approve
      ends the pass with its error. Returns the approvals submitted. */
  method ApproveLegs(coins: seq<Address>, amounts: seq<int>, allowance: Address -> Outcome<int>,
                     approve: Approval -> Outcome<()>)
    returns (issued: seq<Approval>, outcome: Outcome<()>)
    requires |coins| <= |amounts|
    ensures forall a :: a in issued ==>
              exists k :: 0 <= k < |coins| && NeedsApproval(coins, amounts, allowance, k) && a == Approval(coins[k], amounts[k])
    ensures outcome.Ok? ==> issued == PlannedApprovals(coins, amounts, allowance)
    ensures outcome.Ok? ==> forall a :: a in issued ==> approve(a).Ok?
    ensures outcome.Raised? ==>
              (exists k :: 0 <= k < |coins| && !IsEthCoin(coins[k]) && allowance(coins[k]) == Raised(outcome.error))
              || (|issued| > 0 && approve(issued[|issued| - 1]) == Raised(outcome.error))
    // the pass stops exactly at the first failing leg, with its error
    ensures outcome == match ApprovalFailure(coins, amounts, allowance, approve)
                       case None => Ok(())
                       case Some(e) => Raised(e)
    ensures outcome.Ok? ==> forall k :: 0 <= k < |coins| && !IsEthCoin(coins[k]) ==> allowance(coins[k]).Ok?
    // a failing pass has submitted the planned approvals of the legs before
    // the failing one, then that leg's own approve when its allowance was read
    ensures outcome.Raised? ==>
              exists k :: 0 <= k < |coins| && LegFailure(coins, amounts, allowance, approve, k) == Some(outcome.error)
                          && (forall m :: 0 <= m < k ==> LegFailure(coins, amounts, allowance, approve, m).None?)
                          && issued == PlannedApprovals(coins[..k], amounts, allowance)
                                       + (if allowance(coins[k]).Ok? then [Approval(coins[k], amounts[k])] else [])
  {
    issued := [];
    assert coins[0..] == coins && amounts[0..] == amounts;
    for k := 0 to |coins|
      invariant issued == PlannedApprovals(coins[..k], amounts, allowance)
      invariant ApprovalFailure(coins[k..], amounts[k..], allowance, approve) == ApprovalFailure(coins, amounts, allowance, approve)
      invariant forall a :: a in issued ==> approve(a).Ok?
      invariant forall m :: 0 <= m < k ==> LegFailure(coins, amounts, allowance, approve, m).None?
      invariant forall m :: 0 <= m < k && !IsEthCoin(coins[m]) ==> allowance(coins[m]).Ok?
    {
      ApprovalStep(coins, amounts, allowance, approve, k);
      PlannedPrefixStep(coins, amounts, allowance, k);
      if IsEthCoin(coins[k]) {
        continue;
      }
      var current := allowance(coins[k]);
      if current.Raised? {
        PrefixPlannedAreNeeded(coins, amounts, allowance, k);
        return issued, Raised(current.error);
      }
      if current.value < amounts[k] {
        var a := Approval(coins[k], amounts[k]);
        var done := approve(a);
        if done.Raised? {
          PrefixPlannedAreNeeded(coins, amounts, allowance, k);
          assert NeedsApproval(coins, amounts, allowance, k);
          return issued + [a], Raised(done.error);
        }
        issued := issued + [a];
      }
    }
    assert coins[|coins|..] == [] && coins[..|coins|] == coins;
    PrefixPlannedAreNeeded(coins, amounts, allowance, |coins|);
    outcome := Ok(());
  }

  /** The final deposit: add_liquidity(amounts, min_mint, receiver) and, only
      when that one reverts with a contract-logic error, add_liquidity(amounts,
      min_mint), both with the native leg's amount attached. */
  function Deposit(amounts: seq<int>, minMint: int, sender: Address, ethValue: int, ledger: Ledger): (r: Attempts)
    ensures var first := AddLiquidity(amounts, minMint, Some(sender), sender, ethValue);
            var second := AddLiquidity(amounts, minMint, None, sender, ethValue);
            if ledger(first).Raised? && ledger(first).error.ContractLogicError?
            then r == Attempts([first, second], ledger(second))
            else r == Attempts([first], ledger(first))
    ensures r.outcome == ledger(r.tried[|r.tried| - 1])
  {
    TwoVariants(AddLiquidity(amounts, minMint, Some(sender), sender, ethValue),
                AddLiquidity(amounts, minMint, None, sender, ethValue), ledger, ContractLogicOnly);
    TryInOrder([AddLiquidity(amounts, minMint, Some(sender), sender, ethValue),
                AddLiquidity(amounts, minMint, None, sender, ethValue)], ledger, ContractLogicOnly)
  }
  function Pow10(n: nat): (p: nat)
    ensures p > 0
  {
    if n == 0 then 1 else 10 * Pow10(n - 1)
  }

  /** `scale(0.5, decimals)`: half a unit of the coin in its smallest
      denomination. 10^d / 2 is what the float product yields while 10^d is
      exactly representable, which covers decimals up to 22. */
  function HalfUnit(decimals: nat): (amount: nat)
    ensures 2 * amount == Pow10(decimals) || (decimals == 0 && amount == 0)
  {
    if decimals == 0 then 0
    else
      HalfUnitExact(decimals);
      Pow10(decimals) / 2
  }

  lemma {:induction false} HalfUnitExact(n: nat)
    requires n > 0
    ensures Pow10(n) % 2 == 0
  {
    if n > 1 {
      HalfUnitExact(n - 1);
    }
  }

  /** The slippage guard: 99% of the quoted mint, or 0 when the quote is
      unavailable. The quote is an unsigned amount, so truncation toward
      zero and rounding down agree. */
  function MinMint(quote: Outcome<nat>): (m: int)
    ensures quote.Raised? ==> m == 0
    ensures quote.Ok? ==> 100 * m <= 99 * quote.value < 100 * m + 100
  {
    if quote.Raised? then 0 else (99 * quote.value) / 100
  }

  /** Restates how a failing approval pass ends once the report has
      completed: the failing leg needs an approval and its approve raised. */
  lemma ApprovalStopsAtApprove(coins: seq<Address>, amounts: seq<int>, balanceOf: Address -> Outcome<int>,
                               ethBalance: Outcome<int>, allowance: Address -> Outcome<int>,
                               approve: Approval -> Outcome<()>, issued: seq<Approval>, e: Error)
    requires |coins| <= |amounts|
    requires ReportFailure(coins, balanceOf, ethBalance, allowance).None?
    requires exists k :: 0 <= k < |coins| && LegFailure(coins, amounts, allowance, approve, k) == Some(e)
                         && (forall m :: 0 <= m < k ==> LegFailure(coins, amounts, allowance, approve, m).None?)
                         && issued == PlannedApprovals(coins[..k], amounts, allowance)
                                      + (if allowance(coins[k]).Ok? then [Approval(coins[k], amounts[k])] else [])
    ensures exists k :: 0 <= k < |coins| && NeedsApproval(coins, amounts, allowance, k)
                        && approve(Approval(coins[k], amounts[k])) == Raised(e)
                        && (forall m :: 0 <= m < k ==> LegFailure(coins, amounts, allowance, approve, m).None?)
                        && issued == PlannedApprovals(coins[..k], amounts, allowance) + [Approval(coins[k], amounts[k])]
  {
    var k :| 0 <= k < |coins| && LegFailure(coins, amounts, allowance, approve, k) == Some(e)
             && (forall m :: 0 <= m < k ==> LegFailure(coins, amounts, allowance, approve, m).None?)
             && issued == PlannedApprovals(coins[..k], amounts, allowance)
                          + (if allowance(coins[k]).Ok? then [Approval(coins[k], amounts[k])] else []);
    ReportThenApproval(coins, amounts, balanceOf, ethBalance, allowance, approve);
    assert NeedsApproval(coins, amounts, allowance, k);
  }

  /** The script end to end, after the coin, decimals, balance and allowance
      reads and before the receipt: the first failing coin read, decimals()
      read, report read or approve aborts it with that error; otherwise it
      deposits half a unit of each coin, attaching the first native-asset
      leg's amount as value, and returns the add_liquidity attempts. */
  method DepositFlow(pool: CoinGetters, decimals: Address -> Outcome<nat>, balanceOf: Address -> Outcome<int>,
                     ethBalance: Outcome<int>, allowance: Address -> Outcome<int>,
                     approve: Approval -> Outcome<()>, quote: Outcome<nat>, sender: Address, ledger: Ledger)
    returns (coins: seq<Address>, amounts: seq<int>, issued: seq<Approval>, result: Outcome<Attempts>)
    // the coin read fails: nothing else happens
    ensures CoinsOf(pool).Raised? ==> result == Raised(CoinsOf(pool).error) && issued == []
    ensures CoinsOf(pool).Ok? ==> coins == CoinsOf(pool).value.coins && |coins| == 2
    // a decimals() read fails: no approval is issued
    ensures CoinsOf(pool).Ok? && DecimalsOf(coins, decimals).Raised? ==>
              result == Raised(DecimalsOf(coins, decimals).error) && issued == []
    // the amounts are half a unit of each coin
    ensures CoinsOf(pool).Ok? && DecimalsOf(coins, decimals).Ok? ==>
              |amounts| == 2 && (forall k :: 0 <= k < 2 ==> amounts[k] == HalfUnit(DecimalsOf(coins, decimals).value[k]))
    // a balance or allowance read of the report fails: no approval is issued
    ensures CoinsOf(pool).Ok? && DecimalsOf(coins, decimals).Ok? && ReportFailure(coins, balanceOf, ethBalance, allowance).Some? ==>
              result == Raised(ReportFailure(coins, balanceOf, ethBalance, allowance).value) && issued == []
    // after the report, the approval pass can only stop at a raising approve,
    // after the planned approvals of the legs before it
    ensures CoinsOf(pool).Ok? && DecimalsOf(coins, decimals).Ok? && ReportFailure(coins, balanceOf, ethBalance, allowance).None? ==>
              (ApprovalFailure(coins, amounts, allowance, approve).Some? ==>
                 result == Raised(ApprovalFailure(coins, amounts, allowance, approve).value)
                 && exists k :: 0 <= k < 2 && NeedsApproval(coins, amounts, allowance, k)
                                && approve(Approval(coins[k], amounts[k])) == Raised(ApprovalFailure(coins, amounts, allowance, approve).value)
                                && (forall m :: 0 <= m < k ==> LegFailure(coins, amounts, allowance, approve, m).None?)
                                && issued == PlannedApprovals(coins[..k], amounts, allowance) + [Approval(coins[k], amounts[k])])
              && (ApprovalFailure(coins, amounts, allowance, approve).None? ==> result.Ok?)
    // the deposit is reached exactly when every read and every planned approve returns
    ensures result.Ok? <==>
              CoinsOf(pool).Ok?
              && (forall k :: 0 <= k < 2 && !IsEthCoin(coins[k]) ==> decimals(coins[k]).Ok?)
              && (forall k :: 0 <= k < 2 ==>
                    if IsEthCoin(coins[k]) then ethBalance.Ok? else balanceOf(coins[k]).Ok? && allowance(coins[k]).Ok?)
              && |amounts| == 2
              && (forall a :: a in PlannedApprovals(coins, amounts, allowance) ==> approve(a).Ok?)
    ensures result.Ok? ==> forall k :: 0 <= k < 2 ==>
              if IsEthCoin(coins[k]) then amounts[k] == HalfUnit(ETH_DECIMALS)
              else decimals(coins[k]).Ok? && amounts[k] == HalfUnit(decimals(coins[k]).value)
    ensures result.Ok? ==> issued == PlannedApprovals(coins, amounts, allowance)
                           && forall a :: a in issued ==> approve(a).Ok?
    ensures result.Ok? ==> result.value == Deposit(amounts, MinMint(quote), sender, EthValue(amounts, FirstEth(coins)), ledger)
  {
    issued := [];
    var found := GetCoins(pool);
    if found.Raised? {
      return [], [], [], Raised(found.error);
    }
    coins := found.value.coins;
    var decs := GetDecimals(coins, decimals);
    if decs.Raised? {
      return coins, [], [], Raised(decs.error);
    }
    amounts := [HalfUnit(decs.value[0]), HalfUnit(decs.value[1])];
    var ethIndex := EthIndex(coins);
    var reported := ReportLegs(coins, balanceOf, ethBalance, allowance);
    if reported.Raised? {
      ReportPassSucceeds(coins, balanceOf, ethBalance, allowance);
      return coins, amounts, [], Raised(reported.error);
    }
    var approved;
    issued, approved := ApproveLegs(coins, amounts, allowance, approve);
    if approved.Raised? {
      ApprovalPassSucceeds(coins, amounts, allowance, approve);
      ApprovalStopsAtApprove(coins, amounts, balanceOf, ethBalance, allowance, approve, issued, approved.error);
      return coins, amounts, issued, Raised(approved.error);
    }
    ReportPassSucceeds(coins, balanceOf, ethBalance, allowance);
    ApprovalPassSucceeds(coins, amounts, allowance, approve);
    var minMint := MinMint(quote);
    var value := EthValue(amounts, ethIndex);
    result := Ok(Deposit(amounts, minMint, sender, value, ledger));
  }
}
