/** The stateful fuzz harness for a Curve-style pool: a machine that reads
    the pool's invariant value D and its balances through several accessor
    forms, checks three invariants, and runs four rules. Three rules fall
    back between two call signatures; ramp_A makes a single call. The rules
    write a failure record for a transaction error, for any failure of the
    ramp_A call and for a failed post-check; failing reads, the admin
    lookup, other exceptions and failed invariants surface without a
    record. The pool is an oracle: a PoolView is what its read accessors
    answer at one moment, and a Ledger is what submitting a call returns. */
module CurveFuzz {
  import opened Calls
  import opened Text
  import opened Failures

  /** The range from which the exchange rule draws dx. */
  const DX_MIN: int := 1000
  const DX_MAX: int := 10000000000000000000000
  /** How far in the future a ramp of A is scheduled to end, in seconds. */
  const RAMP_DELAY: int := 3600
  /** At most this many test accounts become actors. */
  const MAX_ACTORS: nat := 10

  /** What the pool's read accessors answer at one moment. */
  datatype PoolView = PoolView(
    dCall: Outcome<int>,               // pool.D()
    dAttribute: Option<Outcome<int>>,  // None when the pool has no attribute D; else int(pool.D)
    balanceCall: nat -> Outcome<int>,  // pool.balances(i)
    balanceIndex: nat -> Outcome<int>) // pool.balances[i]

  /** The pool's fixed interface: its answer to N_COINS() and which optional
      entry points it exposes. */
  datatype Pool = Pool(
    nCoins: Outcome<nat>,
    hasRemoveLiquidityOneCoin: bool,
    hasRampAGamma: bool,
    hasRampA: bool)

  /** How a rule or an invariant check ends: it returns, its assertion
      fails, or an exception propagates out of it. */
  datatype Verdict = Passed | AssertionFailed(message: string) | Propagated(error: Error)

  datatype Rule = ExchangeRule | AddLiquidityRule | RemoveLiquidityOneRule | RampARule

  /** The machine's reading of D: the D() call, else the D attribute when the
      pool has one (whose read may itself raise), else 0. */
  function ReadD(view: PoolView): (r: Outcome<int>)
    ensures view.dCall.Ok? ==> r == view.dCall
    ensures view.dCall.Raised? && view.dAttribute.Some? ==> r == view.dAttribute.value
    ensures view.dCall.Raised? && view.dAttribute.None? ==> r == Ok(0)
    // a failing D() alone never makes the reading fail
    ensures r.Raised? ==> view.dAttribute.Some? && view.dAttribute.value.Raised?
  {
    match view.dCall
    case Ok(d) => Ok(d)
    case Raised(_) => if view.dAttribute.Some? then view.dAttribute.value else Ok(0)
  }

  /** The machine's reading of coin i's balance. */
  function ReadBalance(view: PoolView, i: nat): int {
    match view.balanceCall(i)
    case Ok(b) => b
    case Raised(_) =>
      match view.balanceIndex(i)
      case Ok(b) => b
      case Raised(_) => 0
  }

  /** The balances reading for `n` coins, as the invariants see it. */
  function BalancesOf(view: PoolView, n: nat): seq<int> {
    seq(n, i requires 0 <= i < n => ReadBalance(view, i))
  }

  /** The index of the first negative entry of `s`, or |s| when there is none. */
  function FirstNegative(s: seq<int>): (k: nat)
    ensures k <= |s|
    ensures forall j :: 0 <= j < k ==> s[j] >= 0
    ensures k < |s| ==> s[k] < 0
    decreases |s|
  {
    if s == [] then 0 else if s[0] < 0 then 0 else 1 + FirstNegative(s[1..])
  }

  /** True when D has fallen below 99% of `d0`. The source compares against
      Decimal("0.99") at 80 digits of precision, which is exact for values of
      up to 78 digits, so the comparison is on exact rationals. */
  predicate DropsOverOnePercent(d0: int, d1: int): (b: bool)
    ensures b <==> (d1 as real) < (d0 as real) * 0.99
  {
    100 * d1 < 99 * d0
  }

  datatype ExchangeCheck = Steady | NegativeD | DropOverOnePercent

  /** The post-check of an exchange: a negative D takes precedence over a
      drop of more than 1% from the D read before the call. */
  function ClassifyExchange(d0: int, d1: int): (c: ExchangeCheck)
    ensures c == NegativeD <==> d1 < 0
    ensures c == DropOverOnePercent <==> 0 <= d1 && (d1 as real) < (d0 as real) * 0.99
    ensures c == Steady <==> 0 <= d1 && (d0 as real) * 0.99 <= (d1 as real)
  {
    if d1 < 0 then NegativeD
    else if DropsOverOnePercent(d0, d1) then DropOverOnePercent
    else Steady
  }

  /** Which actor performs an exchange: Python's `dx % len(actors)`, which for
      a positive divisor agrees with Dafny's Euclidean remainder. */
  function CallerIndex(dx: int, n: nat): (k: nat)
    requires n > 0
    ensures k < n
  {
    dx % n
  }

  /** The remainder is determined by any decomposition a == q * n + k with 0 <= k < n. */
  lemma RemainderUnique(a: int, n: nat, q: int, k: int)
    requires n > 0 && 0 <= k < n && a == q * n + k
    ensures a % n == k
  {
    var d, r := a / n, a % n;
    assert a == d * n + r;
    var t := d - q;
    assert t * n == d * n - q * n;
    assert t * n == k - r;
    if t > 0 {
      MultipleAtLeast(t, n);
    } else if t < 0 {
      MultipleAtLeast(-t, n);
    }
  }

  lemma MultipleAtLeast(t: int, n: nat)
    requires t > 0
    ensures t * n >= n
  {
    assert t * n == (t - 1) * n + n;
    assert (t - 1) * n >= 0;
  }

  /** Amounts that differ by a multiple of the actor count pick the same actor. */
  lemma CallerIndexPeriodic(dx: int, n: nat, m: int)
    requires n > 0
    ensures CallerIndex(dx + m * n, n) == CallerIndex(dx, n)
  {
    RemainderUnique(dx, n, dx / n, dx % n);
    RemainderUnique(dx + m * n, n, dx / n + m, dx % n);
  }

  /** Every actor performs some exchange whose amount lies in the rule's range. */
  lemma EveryActorExchanges(n: nat, k: nat)
    requires 0 < n <= MAX_ACTORS && k < n
    ensures exists dx :: DX_MIN <= dx <= DX_MAX && CallerIndex(dx, n) == k
  {
    var dx := DX_MIN * n + k;
    RemainderUnique(dx, n, DX_MIN, k);
    assert DX_MIN <= dx <= DX_MAX && CallerIndex(dx, n) == k;
  }

  /** The exchange post-check judges each step against the D read just before
      it, while D_not_spiking_down judges against the snapshot. Two steps that
      each pass the post-check lose at most 1.99% in all, and that much can
      already fail the invariant: 1000 -> 995 -> 989 passes both steps and
      ends below 990. */
  lemma {:induction false} TwoSteadyExchangesBound(d0: int, d1: int, d2: int)
    requires ClassifyExchange(d0, d1) == Steady && ClassifyExchange(d1, d2) == Steady
    ensures 10000 * d2 >= 9801 * d0
    ensures ClassifyExchange(1000, 995) == Steady && ClassifyExchange(995, 989) == Steady && DropsOverOnePercent(1000, 989)
  {
    assert !DropsOverOnePercent(d0, d1) && !DropsOverOnePercent(d1, d2);
    assert 100 * d1 >= 99 * d0 && 100 * d2 >= 99 * d1;
    assert 10000 * d2 >= 9900 * d1 >= 9801 * d0;
  }

  function ExchangeParams(i: int, j: int, dx: int): map<string, Json> {
    map["i" := JInt(i), "j" := JInt(j), "dx" := JInt(dx)]
  }

  function IntsJson(xs: seq<int>): Json {
    JList(seq(|xs|, k requires 0 <= k < |xs| => JInt(xs[k])))
  }

  /** The diagnostic `f"{D0}->{D1}"`. */
  function Transition(d0: int, d1: int): string {
    IntToString(d0) + "->" + IntToString(d1)
  }

  /** The exchange variants in the order tried: with an explicit receiver,
      then without. */
  function ExchangeVariants(i: int, j: int, dx: int, who: Address): seq<Call> {
    [Exchange(i, j, dx, 0, Some(who), who), Exchange(i, j, dx, 0, None, who)]
  }

  function AddLiquidityVariants(amounts: seq<int>, who: Address): seq<Call> {
    [AddLiquidity(amounts, 0, Some(who), who, 0), AddLiquidity(amounts, 0, None, who, 0)]
  }

  function RemoveOneVariants(lpAmount: int, i: int, who: Address): seq<Call> {
    [RemoveLiquidityOneCoin(lpAmount, i, 0, Some(who), who), RemoveLiquidityOneCoin(lpAmount, i, 0, None, who)]
  }

  /** The directory after `except TransactionError` around a call that ended
      in `e`: a record for a transaction error, nothing for anything else. */
  function RecordIfTransactionError(dir: map<string, Json>, name: string, params: map<string, Json>, e: Error, block: nat): map<string, Json> {
    if e.IsTransactionError() then Saved(dir, FailureRecord(name, params, e.message, block)) else dir
  }

  class CurveStateMachine {
    const pool: Pool
    /** ADMIN_ADDR from the environment. */
    const admin: Option<Address>
    const actors: seq<Address>
    const caller: Address
    const nCoins: nat
    /** The failure directory, shared by every machine of a run. */
    const dir: FailureDir
    var snapshotD: Option<int>
    var snapshotBalances: Option<seq<int>>

    predicate Valid() {
      0 < |actors| <= MAX_ACTORS && caller == actors[0]
    }

    /** The first (at most) ten test accounts act; the first is the default
        caller; the coin count is N_COINS(), or 2 when that read fails. The
        source raises IndexError when there is no test account. */
    constructor (pool: Pool, testAccounts: seq<Address>, admin: Option<Address>, dir: FailureDir)
      requires |testAccounts| > 0
      ensures Valid()
      ensures actors == testAccounts[..if |testAccounts| < MAX_ACTORS then |testAccounts| else MAX_ACTORS]
      ensures caller == testAccounts[0]
      ensures pool.nCoins.Ok? ==> nCoins == pool.nCoins.value
      ensures pool.nCoins.Raised? ==> nCoins == 2
      ensures snapshotD.None? && snapshotBalances.None?
      ensures this.pool == pool && this.admin == admin && this.dir == dir
    {
      this.pool := pool;
      this.admin := admin;
      this.dir := dir;
      actors := testAccounts[..if |testAccounts| < MAX_ACTORS then |testAccounts| else MAX_ACTORS];
      caller := testAccounts[0];
      match pool.nCoins {
        case Ok(n) => nCoins := n;
        case Raised(_) => nCoins := 2;
      }
      snapshotD := None;
      snapshotBalances := None;
    }

    /** `_balances`: one entry per coin, each from the call form, else the
        index form, else 0. */
    method Balances(view: PoolView) returns (bals: seq<int>)
      ensures |bals| == nCoins
      ensures forall i :: 0 <= i < nCoins && view.balanceCall(i).Ok? ==> bals[i] == view.balanceCall(i).value
      ensures forall i :: 0 <= i < nCoins && view.balanceCall(i).Raised? && view.balanceIndex(i).Ok? ==>
                bals[i] == view.balanceIndex(i).value
      ensures forall i :: 0 <= i < nCoins && view.balanceCall(i).Raised? && view.balanceIndex(i).Raised? ==>
                bals[i] == 0
      ensures bals == BalancesOf(view, nCoins)
    {
      bals := [];
      for i := 0 to nCoins
        invariant |bals| == i
        invariant forall k :: 0 <= k < i ==> bals[k] == ReadBalance(view, k)
      {
        var b;
        match view.balanceCall(i) {
          case Ok(v) => b := v;
          case Raised(_) =>
            match view.balanceIndex(i) {
              case Ok(v) => b := v;
              case Raised(_) => b := 0;
            }
        }
        bals := bals + [b];
      }
    }

    /** `init_state`: snapshots D and the balances. When reading D raises,
        the exception propagates and nothing is snapshotted. */
    method InitState(view: PoolView) returns (verdict: Verdict)
      modifies this
      ensures ReadD(view).Raised? ==>
                verdict == Propagated(ReadD(view).error)
                && snapshotD == old(snapshotD) && snapshotBalances == old(snapshotBalances)
      ensures ReadD(view).Ok? ==>
                verdict == Passed
                && snapshotD == Some(ReadD(view).value) && snapshotBalances == Some(BalancesOf(view, nCoins))
    {
      var d := ReadD(view);
      if d.Raised? {
        return Propagated(d.error);
      }
      snapshotD := Some(d.value);
      var bals := Balances(view);
      snapshotBalances := Some(bals);
      verdict := Passed;
    }

    /** Invariant `no_negative_balances`: fails on the first negative balance. */
    function NoNegativeBalances(view: PoolView): (v: Verdict)
      ensures v.Passed? <==> forall i :: 0 <= i < nCoins ==> ReadBalance(view, i) >= 0
      ensures v.AssertionFailed? <==> exists i :: 0 <= i < nCoins && ReadBalance(view, i) < 0
      ensures !v.Propagated?
      // the message names the first negative balance
      ensures v.AssertionFailed? ==>
                exists i :: 0 <= i < nCoins && ReadBalance(view, i) < 0
                            && (forall j :: 0 <= j < i ==> ReadBalance(view, j) >= 0)
                            && v.message == "Negative balance detected: " + IntToString(ReadBalance(view, i))
    {
      var bals := BalancesOf(view, nCoins);
      var k := FirstNegative(bals);
      assert forall i :: 0 <= i < nCoins ==> bals[i] == ReadBalance(view, i);
      if k < |bals| then AssertionFailed("Negative balance detected: " + IntToString(bals[k])) else Passed
    }

    /** Invariant `D_monotonic_non_negative`. */
    function DNonNegative(view: PoolView): (v: Verdict)
      ensures v.Passed? <==> ReadD(view).Ok? && ReadD(view).value >= 0
      ensures v.Propagated? <==> ReadD(view).Raised?
      ensures ReadD(view).Raised? ==> v == Propagated(ReadD(view).error)
      ensures v.AssertionFailed? ==> v.message == "D negative " + IntToString(ReadD(view).value)
    {
      match ReadD(view)
      case Raised(e) => Propagated(e)
      case Ok(d) => if d < 0 then AssertionFailed("D negative " + IntToString(d)) else Passed
    }

    /** Invariant `D_not_spiking_down`: with no snapshot, or a zero one, only
        reading D can fail; otherwise D must not fall below 99% of the snapshot. */
    function DNotSpikingDown(view: PoolView): (v: Verdict)
      reads this
      ensures v.Propagated? <==> ReadD(view).Raised?
      ensures ReadD(view).Raised? ==> v == Propagated(ReadD(view).error)
      ensures (snapshotD.None? || snapshotD == Some(0)) && ReadD(view).Ok? ==> v.Passed?
      ensures v.AssertionFailed? <==>
                ReadD(view).Ok? && snapshotD.Some? && snapshotD.value != 0
                && (ReadD(view).value as real) < (snapshotD.value as real) * 0.99
      ensures v.AssertionFailed? ==>
                v.message == "D dropped too much: " + IntToString(snapshotD.value) + " -> " + IntToString(ReadD(view).value)
    {
      match ReadD(view)
      case Raised(e) => Propagated(e)
      case Ok(d) =>
        if snapshotD.Some? && snapshotD.value != 0 && DropsOverOnePercent(snapshotD.value, d)
        then AssertionFailed("D dropped too much: " + IntToString(snapshotD.value) + " -> " + IntToString(d))
        else Passed
    }

    /** After an exchange whose post-check passed, starting from the snapshot
        value, the two D invariants hold on the same reading. */
    lemma SteadyExchangeKeepsDInvariants(d0: int, after: PoolView)
      requires snapshotD == Some(d0)
      requires ReadD(after).Ok? && ClassifyExchange(d0, ReadD(after).value) == Steady
      ensures DNonNegative(after) == Passed && DNotSpikingDown(after) == Passed
    {
    }

    /** Hypothesis's preconditions: ramp_A needs ADMIN_ADDR; the others always run. */
    predicate Enabled(rule: Rule): (b: bool)
      ensures !b <==> rule == RampARule && admin.None?
    {
      match rule
      case RampARule => admin.Some?
      case _ => true
    }

    function ExchangeCaller(dx: int): (who: Address)
      requires Valid()
      ensures who in actors
    {
      actors[CallerIndex(dx, |actors|)]
    }

    function ExchangeAttempt(i: int, j: int, dx: int, ledger: Ledger): Attempts
      requires Valid()
    {
      TryInOrder(ExchangeVariants(i, j, dx, ExchangeCaller(dx)), ledger, AnyException)
    }

    /** Rule `exchange`. */
    method Exchange(i: int, j: int, dx: int, before: PoolView, ledger: Ledger, after: PoolView, block: nat)
      returns (verdict: Verdict, calls: seq<Call>)
      requires Valid()
      modifies dir
      // reading D before the call raises: nothing is submitted or recorded
      ensures ReadD(before).Raised? ==>
                verdict == Propagated(ReadD(before).error) && calls == [] && dir.entries == old(dir.entries)
      ensures ReadD(before).Ok? ==> calls == ExchangeAttempt(i, j, dx, ledger).tried
      // the last variant raised: a transaction error is recorded as `exchange`; any error propagates
      ensures ReadD(before).Ok? && ExchangeAttempt(i, j, dx, ledger).outcome.Raised? ==>
                var e := ExchangeAttempt(i, j, dx, ledger).outcome.error;
                verdict == Propagated(e)
                && dir.entries == RecordIfTransactionError(old(dir.entries), "exchange", ExchangeParams(i, j, dx), e, block)
      ensures ReadD(before).Ok? && ExchangeAttempt(i, j, dx, ledger).outcome.Ok? && ReadD(after).Raised? ==>
                verdict == Propagated(ReadD(after).error) && dir.entries == old(dir.entries)
      // the post-check
      ensures ReadD(before).Ok? && ExchangeAttempt(i, j, dx, ledger).outcome.Ok? && ReadD(after).Ok? ==>
                var d0, d1 := ReadD(before).value, ReadD(after).value;
                match ClassifyExchange(d0, d1)
                case Steady =>
                  verdict == Passed && dir.entries == old(dir.entries)
                case NegativeD =>
                  verdict == AssertionFailed("D negative after exchange")
                  && dir.entries == Saved(old(dir.entries), FailureRecord("D_negative_after_exchange", ExchangeParams(i, j, dx), Transition(d0, d1), block))
                case DropOverOnePercent =>
                  verdict == AssertionFailed("D dropped >1% after exchange " + Transition(d0, d1))
                  && dir.entries == Saved(old(dir.entries), FailureRecord("D_drop", ExchangeParams(i, j, dx), Transition(d0, d1), block))
    {
      var who := actors[CallerIndex(dx, |actors|)];
      var d0 := ReadD(before);
      if d0.Raised? {
        return Propagated(d0.error), [];
      }
      var attempt := TryInOrder(ExchangeVariants(i, j, dx, who), ledger, AnyException);
      calls := attempt.tried;
      if attempt.outcome.Raised? {
        var e := attempt.outcome.error;
        if e.IsTransactionError() {
          var _ := dir.Save("exchange", ExchangeParams(i, j, dx), e.message, block);
        }
        return Propagated(e), calls;
      }
      var d1 := ReadD(after);
      if d1.Raised? {
        return Propagated(d1.error), calls;
      }
      if d1.value < 0 {
        var _ := dir.Save("D_negative_after_exchange", ExchangeParams(i, j, dx), Transition(d0.value, d1.value), block);
        return AssertionFailed("D negative after exchange"), calls;
      }
      if DropsOverOnePercent(d0.value, d1.value) {
        var _ := dir.Save("D_drop", ExchangeParams(i, j, dx), Transition(d0.value, d1.value), block);
        return AssertionFailed("D dropped >1% after exchange " + Transition(d0.value, d1.value)), calls;
      }
      verdict := Passed;
    }

    /** Rule `add_liquidity`, by the first actor. */
    method AddLiquidity(amounts: seq<int>, ledger: Ledger, after: PoolView, block: nat)
      returns (verdict: Verdict, calls: seq<Call>)
      requires Valid()
      modifies dir
      ensures calls == TryInOrder(AddLiquidityVariants(amounts, actors[0]), ledger, AnyException).tried
      ensures TryInOrder(AddLiquidityVariants(amounts, actors[0]), ledger, AnyException).outcome.Raised? ==>
                var e := TryInOrder(AddLiquidityVariants(amounts, actors[0]), ledger, AnyException).outcome.error;
                verdict == Propagated(e)
                && dir.entries == RecordIfTransactionError(old(dir.entries), "add_liquidity", map["amounts" := IntsJson(amounts)], e, block)
      ensures TryInOrder(AddLiquidityVariants(amounts, actors[0]), ledger, AnyException).outcome.Ok? ==>
                var bals := BalancesOf(after, nCoins);
                if FirstNegative(bals) < |bals| then
                  verdict == AssertionFailed("Negative balances after add_liquidity")
                  && dir.entries == Saved(old(dir.entries), FailureRecord("neg_bal_add_liq", map["amounts" := IntsJson(amounts)], IntListToString(bals), block))
                else
                  verdict == Passed && dir.entries == old(dir.entries)
    {
      var who := actors[0];
      var attempt := TryInOrder(AddLiquidityVariants(amounts, who), ledger, AnyException);
      calls := attempt.tried;
      if attempt.outcome.Raised? {
        var e := attempt.outcome.error;
        if e.IsTransactionError() {
          var _ := dir.Save("add_liquidity", map["amounts" := IntsJson(amounts)], e.message, block);
        }
        return Propagated(e), calls;
      }
      var bals := Balances(after);
      if FirstNegative(bals) < |bals| {
        var _ := dir.Save("neg_bal_add_liq", map["amounts" := IntsJson(amounts)], IntListToString(bals), block);
        return AssertionFailed("Negative balances after add_liquidity"), calls;
      }
      verdict := Passed;
    }

    /** Rule `remove_liquidity_one`, by the first actor; it returns at once
        when the pool has no remove_liquidity_one_coin. */
    method RemoveLiquidityOne(lpAmount: int, i: int, ledger: Ledger, after: PoolView, block: nat)
      returns (verdict: Verdict, calls: seq<Call>)
      requires Valid()
      modifies dir
      ensures !pool.hasRemoveLiquidityOneCoin ==>
                verdict == Passed && calls == [] && dir.entries == old(dir.entries)
      ensures pool.hasRemoveLiquidityOneCoin ==>
                calls == TryInOrder(RemoveOneVariants(lpAmount, i, actors[0]), ledger, AnyException).tried
      ensures pool.hasRemoveLiquidityOneCoin && TryInOrder(RemoveOneVariants(lpAmount, i, actors[0]), ledger, AnyException).outcome.Raised? ==>
                var e := TryInOrder(RemoveOneVariants(lpAmount, i, actors[0]), ledger, AnyException).outcome.error;
                verdict == Propagated(e)
                && dir.entries == RecordIfTransactionError(old(dir.entries), "remove_liquidity_one_coin", map["lp_amount" := JInt(lpAmount), "i" := JInt(i)], e, block)
      ensures pool.hasRemoveLiquidityOneCoin && TryInOrder(RemoveOneVariants(lpAmount, i, actors[0]), ledger, AnyException).outcome.Ok? ==>
                var bals := BalancesOf(after, nCoins);
                if FirstNegative(bals) < |bals| then
                  verdict == AssertionFailed("Negative balance after remove")
                  && dir.entries == Saved(old(dir.entries), FailureRecord("neg_bal_after_remove", map["lp_amount" := JInt(lpAmount), "i" := JInt(i)], IntListToString(bals), block))
                else
                  verdict == Passed && dir.entries == old(dir.entries)
    {
      var who := actors[0];
      if !pool.hasRemoveLiquidityOneCoin {
        return Passed, [];
      }
      var params := map["lp_amount" := JInt(lpAmount), "i" := JInt(i)];
      var attempt := TryInOrder(RemoveOneVariants(lpAmount, i, who), ledger, AnyException);
      calls := attempt.tried;
      if attempt.outcome.Raised? {
        var e := attempt.outcome.error;
        if e.IsTransactionError() {
          var _ := dir.Save("remove_liquidity_one_coin", params, e.message, block);
        }
        return Propagated(e), calls;
      }
      var bals := Balances(after);
      if FirstNegative(bals) < |bals| {
        var _ := dir.Save("neg_bal_after_remove", params, IntListToString(bals), block);
        return AssertionFailed("Negative balance after remove"), calls;
      }
      verdict := Passed;
    }

    /** Who ramps A: the first test account when no ADMIN_ADDR is set, else
        what looking up the ADMIN_ADDR account answers; that lookup can raise. */
    function RampAdmin(lookup: Outcome<Address>): Outcome<Address>
      requires Valid()
    {
      if admin.Some? then lookup else Ok(actors[0])
    }

    /** Rule `ramp_A`: looks up the admin account, outside the rule's
        exception handler, then calls ramp_A_gamma(new_A, new_A, now + 3600)
        when the pool has it, else ramp_A(new_A, now + 3600), else nothing;
        every exception of that call is recorded as `ramp_A_fail` and
        propagates. `lookup` is what looking up ADMIN_ADDR answers. */
    method RampA(newA: int, now: int, lookup: Outcome<Address>, ledger: Ledger, block: nat)
      returns (verdict: Verdict, calls: seq<Call>)
      requires Valid()
      modifies dir
      // a failing admin lookup propagates before anything is submitted or recorded
      ensures RampAdmin(lookup).Raised? ==>
                verdict == Propagated(RampAdmin(lookup).error) && calls == [] && dir.entries == old(dir.entries)
      ensures RampAdmin(lookup).Ok? && pool.hasRampAGamma ==>
                calls == [RampAGamma(newA, newA, now + RAMP_DELAY, RampAdmin(lookup).value)]
      ensures RampAdmin(lookup).Ok? && !pool.hasRampAGamma && pool.hasRampA ==>
                calls == [Call.RampA(newA, now + RAMP_DELAY, RampAdmin(lookup).value)]
      ensures RampAdmin(lookup).Ok? && !pool.hasRampAGamma && !pool.hasRampA ==>
                verdict == Passed && calls == [] && dir.entries == old(dir.entries)
      ensures |calls| == 1 && ledger(calls[0]).Ok? ==> verdict == Passed && dir.entries == old(dir.entries)
      ensures |calls| == 1 && ledger(calls[0]).Raised? ==>
                verdict == Propagated(ledger(calls[0]).error)
                && dir.entries == Saved(old(dir.entries), FailureRecord("ramp_A_fail", map["new_A" := JInt(newA)], ledger(calls[0]).error.message, block))
    {
      var account := RampAdmin(lookup);
      if account.Raised? {
        return Propagated(account.error), [];
      }
      var who := account.value;
      if pool.hasRampAGamma {
        calls := [RampAGamma(newA, newA, now + RAMP_DELAY, who)];
      } else if pool.hasRampA {
        calls := [Call.RampA(newA, now + RAMP_DELAY, who)];
      } else {
        return Passed, [];
      }
      var outcome := ledger(calls[0]);
      if outcome.Raised? {
        var _ := dir.Save("ramp_A_fail", map["new_A" := JInt(newA)], outcome.error.message, block);
        return Propagated(outcome.error), calls;
      }
      verdict := Passed;
    }
  }
}
