/**
 * The claim gate of app/frames/route.tsx, `handleRequest`.
 *
 * The frame message arrives already parsed and validated by the hub
 * middleware; the chain, the claims table and the clock are collaborators
 * whose answers are given as parameters (`Env`). The handler is a ladder of
 * checks that picks one screen: home, to-do list, no verified address, wait,
 * transfer error, or tokens received.
 */
module FramesRoute {
  import opened Wrappers
  import opened Utils

  type Address = string

  /** `parseUnits("0.000333", 18)`: the payout in the token's base units. */
  const ClaimAmount: nat := 333_000_000_000_000

  /** The fields of the validated frame message that the handler reads. */
  datatype Message = Message(
    likedCast: bool,
    requesterFollowsCaster: bool,
    requesterVerifiedAddresses: seq<Address>,
    requesterFid: nat,
    requesterCustodyAddress: Address,
    displayName: Option<string>)

  /** A row of the `fox_claims` table; `claimedAt` is stamped by the store. */
  datatype ClaimRecord = ClaimRecord(fid: nat, fAddress: Address, ethAddress: Address, claimedAt: int)

  /** The screen the frame answers with. */
  datatype Screen =
    | Home(ethBalance: nat, foxBalance: nat)
    | TodoList(items: seq<string>)
    | NoVerifiedAddress
    | Wait(displayName: Option<string>, formattedTime: string)
    | TransferError(message: string)
    | Received(receipt: string)

  /** What the ladder decides before any transfer: a screen, or a payout. */
  datatype Decision = Show(screen: Screen) | Pay(to: Address, amount: nat)

  /** How the two-step transfer (simulate, then write) ends. */
  datatype TransferResult =
    | SimulationReverted(message: string)
    | WriteFailed(message: string)
    | Submitted(receipt: string)

  /** The collaborators' answers for one request. */
  datatype Env = Env(
    now: int,                   // the clock read by `checkInteractionTime`
    ethBalance: nat,            // `publicClient.getBalance` of the faucet wallet
    foxBalance: nat,            // `balanceOf` the faucet wallet on the token contract
    transfer: TransferResult,   // `simulateContract` then `writeContract`
    insertAccepted: bool,       // whether the store accepted the claim row
    savedAt: int)               // the store's own timestamp for that row

  /** The calls the handler makes on its collaborators, in order. */
  datatype Call =
    | ReadEthBalance
    | ReadFoxBalance
    | QueryLastClaim(fid: nat)
    | SimulateTransfer(to: Address, amount: nat)
    | WriteTransfer(to: Address, amount: nat)
    | InsertClaim(fid: nat, fAddress: Address, ethAddress: Address)

  /** Everything one request does: the screen, the calls made, the rows appended. */
  datatype Response = Response(screen: Screen, calls: seq<Call>, saved: seq<ClaimRecord>)

  /** One line of the to-do list: `[ x ] task` when done, `[   ] task` otherwise. */
  function Checkbox(done: bool, task: string): (line: string)
    ensures |line| == 6 + |task|
    ensures line[2] == 'x' <==> done
    ensures line[6..] == task
  {
    "[ " + (if done then "x" else " ") + " ] " + task
  }

  function TodoItems(liked: bool, follows: bool): seq<string> {
    [Checkbox(liked, "Like"), Checkbox(follows, "Follow")]
  }

  /** Each flag has its own line, and its box is marked exactly when the flag holds. */
  lemma TodoMarks(liked: bool, follows: bool)
    ensures |TodoItems(liked, follows)| == 2
    ensures |TodoItems(liked, follows)[0]| > 2 && (TodoItems(liked, follows)[0][2] == 'x' <==> liked)
    ensures |TodoItems(liked, follows)[1]| > 2 && (TodoItems(liked, follows)[1][2] == 'x' <==> follows)
    ensures TodoItems(liked, follows)[0][6..] == "Like" && TodoItems(liked, follows)[1][6..] == "Follow"
  {
  }

  /**
   * The most recent `claimed_at` among the rows of one fid: the
   * `.eq("fid", fid).order("claimed_at", desc).limit(1)` query.
   */
  function MostRecentClaim(rows: seq<ClaimRecord>, fid: nat): (r: Option<int>)
    ensures r.None? <==> forall i :: 0 <= i < |rows| ==> rows[i].fid != fid
    ensures r.Some? ==> exists i :: 0 <= i < |rows| && rows[i].fid == fid && rows[i].claimedAt == r.value
    ensures r.Some? ==> forall i :: 0 <= i < |rows| && rows[i].fid == fid ==> rows[i].claimedAt <= r.value
  {
    if rows == [] then None
    else
      var rest := MostRecentClaim(rows[..|rows| - 1], fid);
      var row := rows[|rows| - 1];
      if row.fid != fid then rest
      else if rest.Some? && rest.value >= row.claimedAt then rest
      else Some(row.claimedAt)
  }

  /**
   * The ladder of lines 55 to 144. `last` is the answer of the claims query;
   * it is consulted only once the social and address checks have passed.
   *
   * The source hands the query's row array to `checkInteractionTime`, whose
   * parameter is a timestamp string; here the evaluator receives the most
   * recent claim time, and with no prior claim it is not consulted (eligible).
   */
  function Plan(msg: Option<Message>, last: Option<int>, now: int, ethBalance: nat, foxBalance: nat): Decision {
    if msg.None? then Show(Home(ethBalance, foxBalance))
    else
      var m := msg.value;
      if !m.likedCast || !m.requesterFollowsCaster then
        Show(TodoList(TodoItems(m.likedCast, m.requesterFollowsCaster)))
      else if |m.requesterVerifiedAddresses| == 0 then Show(NoVerifiedAddress)
      else if last.Some? && !CheckInteractionTime(last.value, now).has24HoursPassed then
        Show(Wait(m.displayName, CheckInteractionTime(last.value, now).formattedTime))
      else Pay(m.requesterVerifiedAddresses[0], ClaimAmount)
  }

  /** Whether the handler gets as far as querying the claims table. */
  predicate QueriesClaims(msg: Option<Message>) {
    msg.Some? && msg.value.likedCast && msg.value.requesterFollowsCaster
    && |msg.value.requesterVerifiedAddresses| > 0
  }

  /** The whole request: the ladder, then the transfer, then the claim row. */
  function Respond(msg: Option<Message>, rows: seq<ClaimRecord>, env: Env): Response {
    if !QueriesClaims(msg) then
      Response(Plan(msg, None, env.now, env.ethBalance, env.foxBalance).screen, [ReadEthBalance, ReadFoxBalance], [])
    else
      var m := msg.value;
      match Plan(msg, MostRecentClaim(rows, m.requesterFid), env.now, env.ethBalance, env.foxBalance)
      case Show(screen) => Response(screen, [ReadEthBalance, ReadFoxBalance, QueryLastClaim(m.requesterFid)], [])
      case Pay(to, amount) => Settle(m, to, amount, env)
  }

  /** The part after the cooldown check: simulate, write, and save the claim row. */
  function Settle(m: Message, to: Address, amount: nat, env: Env): Response {
    var query, simulate, write := QueryLastClaim(m.requesterFid), SimulateTransfer(to, amount), WriteTransfer(to, amount);
    match env.transfer
    case SimulationReverted(e) =>
      Response(TransferError(e), [ReadEthBalance, ReadFoxBalance, query, simulate], [])
    case WriteFailed(e) =>
      Response(TransferError(e), [ReadEthBalance, ReadFoxBalance, query, simulate, write], [])
    case Submitted(receipt) =>
      var insert := InsertClaim(m.requesterFid, m.requesterCustodyAddress, to);
      var row := ClaimRecord(m.requesterFid, m.requesterCustodyAddress, to, env.savedAt);
      Response(Received(receipt),
               [ReadEthBalance, ReadFoxBalance, query, simulate, write, insert],
               if env.insertAccepted then [row] else [])
  }

  /** Whatever the transfer does, the balance reads and the claims query came first. */
  lemma SettleOpensWithQuery(m: Message, to: Address, amount: nat, env: Env)
    ensures 4 <= |Settle(m, to, amount, env).calls|
    ensures Settle(m, to, amount, env).calls[..3] == [ReadEthBalance, ReadFoxBalance, QueryLastClaim(m.requesterFid)]
  {
  }

  /** A request that gets to the claims query read both balances first. */
  lemma QueriedRunOpensWithBalances(msg: Option<Message>, rows: seq<ClaimRecord>, env: Env)
    requires QueriesClaims(msg)
    ensures 3 <= |Respond(msg, rows, env).calls|
    ensures Respond(msg, rows, env).calls[..2] == [ReadEthBalance, ReadFoxBalance]
  {
  }

  /** Every collaborator call a request can make, in the order the handler makes them. */
  function FullRun(msg: Option<Message>): seq<Call> {
    if !QueriesClaims(msg) then [ReadEthBalance, ReadFoxBalance]
    else
      var m := msg.value;
      var to := m.requesterVerifiedAddresses[0];
      [ReadEthBalance, ReadFoxBalance, QueryLastClaim(m.requesterFid),
       SimulateTransfer(to, ClaimAmount), WriteTransfer(to, ClaimAmount),
       InsertClaim(m.requesterFid, m.requesterCustodyAddress, to)]
  }

  /** No two claims of one fid lie less than a day apart. */
  predicate WellSpaced(rows: seq<ClaimRecord>) {
    forall i, j :: 0 <= i < j < |rows| && rows[i].fid == rows[j].fid ==>
      rows[j].claimedAt - rows[i].claimedAt >= DayMs || rows[i].claimedAt - rows[j].claimedAt >= DayMs
  }

  /** The claims of `fid` that are less than a day old at `now`, or stamped after it. */
  predicate ClaimedWithinDay(rows: seq<ClaimRecord>, fid: nat, now: int) {
    exists i :: 0 <= i < |rows| && rows[i].fid == fid && now - rows[i].claimedAt < DayMs
  }

  /** What the handler itself tests: the most recent claim of `fid` is less than a day old. */
  predicate InCooldown(rows: seq<ClaimRecord>, fid: nat, now: int) {
    MostRecentClaim(rows, fid).Some? && now - MostRecentClaim(rows, fid).value < DayMs
  }

  function TransferAttempted(r: Response): bool {
    exists i :: 0 <= i < |r.calls| && r.calls[i].SimulateTransfer?
  }

  /** Without a message: the home screen with the faucet balances, and only the two balance reads. */
  lemma NoMessageShowsHome(rows: seq<ClaimRecord>, env: Env)
    ensures Respond(None, rows, env) == Response(Home(env.ethBalance, env.foxBalance), [ReadEthBalance, ReadFoxBalance], [])
  {
  }

  /** A missing like or follow: the to-do list, no query, no transfer, no row. */
  lemma SocialChecksShowTodo(m: Message, rows: seq<ClaimRecord>, env: Env)
    requires !m.likedCast || !m.requesterFollowsCaster
    ensures Respond(Some(m), rows, env)
         == Response(TodoList(TodoItems(m.likedCast, m.requesterFollowsCaster)), [ReadEthBalance, ReadFoxBalance], [])
  {
  }

  /** Both social checks passed but no verified address: its own screen, no query, no transfer. */
  lemma NoAddressShowsNotice(m: Message, rows: seq<ClaimRecord>, env: Env)
    requires m.likedCast && m.requesterFollowsCaster && m.requesterVerifiedAddresses == []
    ensures Respond(Some(m), rows, env) == Response(NoVerifiedAddress, [ReadEthBalance, ReadFoxBalance], [])
  {
  }

  /** A claim less than a day old exists exactly when the most recent claim is one. */
  lemma WithinDayIsMostRecent(rows: seq<ClaimRecord>, fid: nat, now: int)
    ensures ClaimedWithinDay(rows, fid, now) <==> InCooldown(rows, fid, now)
  {
    var last := MostRecentClaim(rows, fid);
    if ClaimedWithinDay(rows, fid, now) {
      var i :| 0 <= i < |rows| && rows[i].fid == fid && now - rows[i].claimedAt < DayMs;
      assert last.value >= rows[i].claimedAt;
    }
    if last.Some? {
      var i :| 0 <= i < |rows| && rows[i].fid == fid && rows[i].claimedAt == last.value;
    }
  }

  /**
   * A claim of this fid less than a day old (or stamped in the future): the
   * wait screen shows the evaluator's rendering of the most recent one, and
   * nothing is transferred or saved.
   */
  lemma CooldownShowsWait(m: Message, rows: seq<ClaimRecord>, env: Env)
    requires QueriesClaims(Some(m))
    requires InCooldown(rows, m.requesterFid, env.now)
    ensures MostRecentClaim(rows, m.requesterFid).Some?
    ensures var last := MostRecentClaim(rows, m.requesterFid).value;
      Respond(Some(m), rows, env)
        == Response(Wait(m.displayName, CheckInteractionTime(last, env.now).formattedTime),
                    [ReadEthBalance, ReadFoxBalance, QueryLastClaim(m.requesterFid)], [])
  {
  }

  /** No claim of this fid less than a day old: the request goes on to the payout. */
  lemma PaysWhenEligible(m: Message, rows: seq<ClaimRecord>, env: Env)
    requires QueriesClaims(Some(m))
    requires !InCooldown(rows, m.requesterFid, env.now)
    ensures Respond(Some(m), rows, env) == Settle(m, m.requesterVerifiedAddresses[0], ClaimAmount, env)
  {
  }

  /**
   * A transfer is attempted exactly when the social and address checks pass
   * and no claim of the fid is less than a day old: the cooldown check comes
   * before the transfer.
   */
  lemma TransferOnlyAfterCooldown(msg: Option<Message>, rows: seq<ClaimRecord>, env: Env)
    ensures TransferAttempted(Respond(msg, rows, env))
        <==> QueriesClaims(msg) && !ClaimedWithinDay(rows, msg.value.requesterFid, env.now)
  {
    if QueriesClaims(msg) {
      WithinDayIsMostRecent(rows, msg.value.requesterFid, env.now);
      if ClaimedWithinDay(rows, msg.value.requesterFid, env.now) {
        CooldownShowsWait(msg.value, rows, env);
        QueryOnlyRunHasNoTransfer(Respond(msg, rows, env), msg.value.requesterFid);
      } else {
        PaysWhenEligible(msg.value, rows, env);
        assert Respond(msg, rows, env).calls[3].SimulateTransfer?;
      }
    }
  }

  lemma QueryOnlyRunHasNoTransfer(r: Response, fid: nat)
    requires r.calls == [ReadEthBalance, ReadFoxBalance, QueryLastClaim(fid)]
    ensures !TransferAttempted(r)
  {
  }

  /** The payout goes to the first verified address, for the fixed amount. */
  lemma PayoutToFirstAddress(msg: Option<Message>, rows: seq<ClaimRecord>, env: Env, i: nat)
    requires i < |Respond(msg, rows, env).calls|
    requires Respond(msg, rows, env).calls[i].SimulateTransfer? || Respond(msg, rows, env).calls[i].WriteTransfer?
    ensures msg.Some? && |msg.value.requesterVerifiedAddresses| > 0
    ensures Respond(msg, rows, env).calls[i].to == msg.value.requesterVerifiedAddresses[0]
    ensures Respond(msg, rows, env).calls[i].amount == ClaimAmount == 333 * 1_000_000_000_000
  {
    CallsFollowLadder(msg, rows, env);
    LadderTransfersPayFirstAddress(msg, Respond(msg, rows, env).calls, i);
  }

  lemma LadderTransfersPayFirstAddress(msg: Option<Message>, calls: seq<Call>, i: nat)
    requires calls <= FullRun(msg) && i < |calls|
    requires calls[i].SimulateTransfer? || calls[i].WriteTransfer?
    ensures msg.Some? && |msg.value.requesterVerifiedAddresses| > 0
    ensures calls[i].to == msg.value.requesterVerifiedAddresses[0] && calls[i].amount == ClaimAmount
  {
    assert calls[i] == FullRun(msg)[i];
  }

  /** The calls always follow the fixed order: balances, query, simulate, write, insert. */
  lemma CallsFollowLadder(msg: Option<Message>, rows: seq<ClaimRecord>, env: Env)
    ensures 2 <= |Respond(msg, rows, env).calls|
    ensures Respond(msg, rows, env).calls <= FullRun(msg)
  {
  }

  /**
   * A claim row is written only when the write returned a receipt, right after
   * that write, and it records the fid, the custody address and the payout address.
   */
  lemma InsertOnlyAfterReceipt(msg: Option<Message>, rows: seq<ClaimRecord>, env: Env, i: nat)
    requires i < |Respond(msg, rows, env).calls| && Respond(msg, rows, env).calls[i].InsertClaim?
    ensures env.transfer.Submitted?
    ensures 1 <= i && Respond(msg, rows, env).calls[i - 1].WriteTransfer?
    ensures msg.Some? && |msg.value.requesterVerifiedAddresses| > 0
    ensures Respond(msg, rows, env).calls[i]
         == InsertClaim(msg.value.requesterFid, msg.value.requesterCustodyAddress, msg.value.requesterVerifiedAddresses[0])
  {
    CallsFollowLadder(msg, rows, env);
  }

  /** A reverted simulation or a failed write: the error screen, and no row. */
  lemma FailedTransferSavesNothing(m: Message, rows: seq<ClaimRecord>, env: Env)
    requires QueriesClaims(Some(m)) && !ClaimedWithinDay(rows, m.requesterFid, env.now)
    requires !env.transfer.Submitted?
    ensures Respond(Some(m), rows, env).screen == TransferError(env.transfer.message)
    ensures Respond(Some(m), rows, env).saved == []
    ensures forall i :: 0 <= i < |Respond(Some(m), rows, env).calls| ==> !Respond(Some(m), rows, env).calls[i].InsertClaim?
  {
    WithinDayIsMostRecent(rows, m.requesterFid, env.now);
    PaysWhenEligible(m, rows, env);
  }

  /**
   * A submitted transfer shows the receipt whether or not the store accepted
   * the row: the insert's result is never looked at.
   */
  lemma ReceiptShownRegardlessOfInsert(m: Message, rows: seq<ClaimRecord>, env: Env)
    requires QueriesClaims(Some(m)) && !ClaimedWithinDay(rows, m.requesterFid, env.now)
    requires env.transfer.Submitted?
    ensures Respond(Some(m), rows, env).screen == Received(env.transfer.receipt)
    ensures Respond(Some(m), rows, env).screen == Respond(Some(m), rows, env.(insertAccepted := !env.insertAccepted)).screen
    ensures Respond(Some(m), rows, env).saved
         == if env.insertAccepted
            then [ClaimRecord(m.requesterFid, m.requesterCustodyAddress, m.requesterVerifiedAddresses[0], env.savedAt)]
            else []
  {
    WithinDayIsMostRecent(rows, m.requesterFid, env.now);
    PaysWhenEligible(m, rows, env);
  }

  /** A row is saved only for an eligible request, and it is the payout's row. */
  lemma SavedOnlyWhenEligible(msg: Option<Message>, rows: seq<ClaimRecord>, env: Env)
    requires Respond(msg, rows, env).saved != []
    ensures QueriesClaims(msg) && !ClaimedWithinDay(rows, msg.value.requesterFid, env.now)
    ensures var m := msg.value;
      Respond(msg, rows, env).saved
        == [ClaimRecord(m.requesterFid, m.requesterCustodyAddress, m.requesterVerifiedAddresses[0], env.savedAt)]
  {
    if QueriesClaims(msg) {
      WithinDayIsMostRecent(rows, msg.value.requesterFid, env.now);
      if ClaimedWithinDay(rows, msg.value.requesterFid, env.now) {
        CooldownShowsWait(msg.value, rows, env);
      } else {
        PaysWhenEligible(msg.value, rows, env);
      }
    }
  }

  /** Appending a row at least a day after every earlier row of its fid keeps the spacing. */
  lemma AppendKeepsSpacing(rows: seq<ClaimRecord>, row: ClaimRecord)
    requires WellSpaced(rows)
    requires forall i :: 0 <= i < |rows| && rows[i].fid == row.fid ==> row.claimedAt - rows[i].claimedAt >= DayMs
    ensures WellSpaced(rows + [row])
  {
    var all := rows + [row];
    forall i, j | 0 <= i < j < |all| && all[i].fid == all[j].fid
      ensures all[j].claimedAt - all[i].claimedAt >= DayMs || all[i].claimedAt - all[j].claimedAt >= DayMs
    {
      if j == |rows| {
        assert all[i] == rows[i] && all[j] == row;
      } else {
        assert all[i] == rows[i] && all[j] == rows[j];
      }
    }
  }

  /**
   * With requests handled one at a time and the store's clock not behind the
   * handler's, the claims of one fid stay at least a day apart.
   */
  lemma SavedKeepsSpacing(msg: Option<Message>, rows: seq<ClaimRecord>, env: Env)
    requires WellSpaced(rows)
    requires env.now <= env.savedAt
    ensures WellSpaced(rows + Respond(msg, rows, env).saved)
  {
    var saved := Respond(msg, rows, env).saved;
    if saved == [] {
      assert rows + saved == rows;
    } else {
      SavedOnlyWhenEligible(msg, rows, env);
      AppendKeepsSpacing(rows, saved[0]);
    }
  }

  /**
   * The state one request touches: the `fox_claims` table, which the handler
   * reads and appends to, and a ghost log of the calls it makes on its
   * collaborators.
   */
  class Faucet {
    var claims: seq<ClaimRecord>
    ghost var calls: seq<Call>

    constructor (rows: seq<ClaimRecord>)
      ensures claims == rows && calls == []
    {
      claims := rows;
      calls := [];
    }

    /** The claims query: the most recent `claimed_at` of `fid`, if any. */
    method QueryLastClaim(fid: nat) returns (last: Option<int>)
      modifies this`calls
      ensures last == MostRecentClaim(claims, fid)
      ensures calls == old(calls) + [Call.QueryLastClaim(fid)]
    {
      calls := calls + [Call.QueryLastClaim(fid)];
      last := MostRecentClaim(claims, fid);
    }

    /** The insert of a claim row; the store stamps it and may reject it. */
    method InsertClaim(fid: nat, fAddress: Address, ethAddress: Address, accepted: bool, stampedAt: int)
      modifies this
      ensures calls == old(calls) + [Call.InsertClaim(fid, fAddress, ethAddress)]
      ensures claims == old(claims) + if accepted then [ClaimRecord(fid, fAddress, ethAddress, stampedAt)] else []
    {
      calls := calls + [Call.InsertClaim(fid, fAddress, ethAddress)];
      if accepted {
        claims := claims + [ClaimRecord(fid, fAddress, ethAddress, stampedAt)];
      }
    }

    /** `handleRequest`: the checks in order, then the transfer, then the claim row. */
    method HandleRequest(msg: Option<Message>, env: Env) returns (screen: Screen)
      modifies this
      ensures screen == Respond(msg, old(claims), env).screen
      ensures calls == old(calls) + Respond(msg, old(claims), env).calls
      ensures claims == old(claims) + Respond(msg, old(claims), env).saved
      ensures WellSpaced(old(claims)) && env.now <= env.savedAt ==> WellSpaced(claims)
    {
      ghost var rows, log := claims, calls;
      calls := calls + [ReadEthBalance];
      var balance := env.ethBalance;
      calls := calls + [ReadFoxBalance];
      var foxBalance := env.foxBalance;
      assert calls == log + [ReadEthBalance, ReadFoxBalance];

      if msg.None? {
        NoMessageShowsHome(rows, env);
        return Home(balance, foxBalance);
      }
      var message := msg.value;
      if !message.likedCast || !message.requesterFollowsCaster {
        SocialChecksShowTodo(message, rows, env);
        return TodoList(TodoItems(message.likedCast, message.requesterFollowsCaster));
      }
      if |message.requesterVerifiedAddresses| == 0 {
        NoAddressShowsNotice(message, rows, env);
        return NoVerifiedAddress;
      }

      QueriedRunOpensWithBalances(msg, rows, env);
      screen := ClaimOrWait(message, env);
      if WellSpaced(rows) && env.now <= env.savedAt {
        SavedKeepsSpacing(msg, rows, env);
      }
    }

    /**
     * From the claims query on: the wait screen when the most recent claim is
     * less than a day old, the payout otherwise.
     */
    method ClaimOrWait(message: Message, env: Env) returns (screen: Screen)
      requires QueriesClaims(Some(message))
      modifies this
      ensures screen == Respond(Some(message), old(claims), env).screen
      ensures calls == old(calls) + Respond(Some(message), old(claims), env).calls[2..]
      ensures claims == old(claims) + Respond(Some(message), old(claims), env).saved
    {
      ghost var rows := claims;
      var wait := AwaitCooldown(message, env.now);
      if wait.Some? {
        CooldownShowsWait(message, rows, env);
        screen := wait.value;
      } else {
        var userAddress := message.requesterVerifiedAddresses[0];
        PaysWhenEligible(message, rows, env);
        SettleOpensWithQuery(message, userAddress, ClaimAmount, env);
        screen := Payout(message, userAddress, ClaimAmount, env);
      }
    }

    /**
     * The claims query and the cooldown test: the wait screen when the most
     * recent claim of the requester is less than a day old.
     */
    method AwaitCooldown(message: Message, now: int) returns (wait: Option<Screen>)
      modifies this`calls
      ensures calls == old(calls) + [Call.QueryLastClaim(message.requesterFid)]
      ensures wait.Some? <==> InCooldown(claims, message.requesterFid, now)
      ensures wait.Some? ==>
        wait.value == Wait(message.displayName, CheckInteractionTime(MostRecentClaim(claims, message.requesterFid).value, now).formattedTime)
    {
      var last := QueryLastClaim(message.requesterFid);
      if last.Some? {
        var lastInteractionTime := CheckInteractionTime(last.value, now);
        if !lastInteractionTime.has24HoursPassed {
          return Some(Wait(message.displayName, lastInteractionTime.formattedTime));
        }
      }
      return None;
    }

    /** The `try` block: simulate, write, then insert the claim row on a receipt. */
    method Payout(m: Message, to: Address, amount: nat, env: Env) returns (screen: Screen)
      modifies this
      ensures screen == Settle(m, to, amount, env).screen
      ensures calls == old(calls) + Settle(m, to, amount, env).calls[3..]
      ensures claims == old(claims) + Settle(m, to, amount, env).saved
    {
      calls := calls + [SimulateTransfer(to, amount)];
      if env.transfer.SimulationReverted? {
        return TransferError(env.transfer.message);
      }
      calls := calls + [WriteTransfer(to, amount)];
      if env.transfer.WriteFailed? {
        return TransferError(env.transfer.message);
      }
      var receipt := env.transfer.receipt;
      InsertClaim(m.requesterFid, m.requesterCustodyAddress, to, env.insertAccepted, env.savedAt);
      screen := Received(receipt);
    }
  }
}
