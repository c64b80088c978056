/** The `interactionCreate` handler of bot.js: the GEN-role gate, the
    registered-command gate, the channel gate, and dispatch to the `gen`,
    `stock`, `add` and `help` handlers, each a pure step from the table to
    the table after the command plus the reply the caller sees. */
module Bot {
  import opened Text
  import opened Accounts
  import opened Stock

  /** Name of the role a member needs to use the bot at all. */
  const GenRole: string := "GEN"

  const HelpText: string := "\n/gen <service>\n/stock\n/add <service> <account>\n/help"

  /** The invoking guild member: the names of their roles, and whether
      their permissions include ADMINISTRATOR. */
  datatype Caller = Caller(roleNames: set<string>, administrator: bool)

  /** One slash-command invocation. `service` and `accounts` are the string
      options; commands that take no option ignore them. */
  datatype Interaction = Interaction(
    commandName: string,
    channelId: string,
    caller: Caller,
    service: string,
    accounts: string)

  /** Deployment state the handler reads: the allowed channel id (`None`
      when the environment leaves it unset) and the command names whose
      registration at startup stored an id. */
  datatype Config = Config(allowedChannel: Option<string>, registered: set<string>)

  /** What the invoker sees. `AccountSent` is the "check your messages"
      reply, carrying the direct message's service label and account;
      `Added` is the public reply's amount together with the restock
      notice's total. `Silent` means no reply at all. */
  datatype Reply =
    | NoPermission
    | WrongChannel
    | AccountSent(serviceLabel: string, account: string)
    | NoStock
    | StockReport(counts: map<string, nat>)
    | Added(amount: nat, total: nat)
    | AdminOnly
    | Help(text: string)
    | Silent

  /** All three gates pass: GEN role, registered command, allowed channel. */
  predicate Admitted(cfg: Config, ix: Interaction)
  {
    && GenRole in ix.caller.roleNames
    && ix.commandName in cfg.registered
    && cfg.allowedChannel == Some(ix.channelId)
  }

  /** `gen`: select the rows of the lower-cased service, pick one with
      `Math.random`, send its account verbatim and delete it by id; with no
      rows, reply "No stock available" and leave the table alone. The third
      component is the row dispensed, if any. */
  function GenCommand(st: Store, serviceOption: string, rand: real): (out: (Store, Reply, Option<Row>))
    requires Valid(st)
    requires 0.0 <= rand < 1.0
    ensures Valid(out.0)
    ensures out.1 == NoStock <==> CountOf(st.rows, Lower(serviceOption)) == 0
    ensures out.1 == NoStock <==> out.2.None?
    ensures out.1 == NoStock ==> out.0 == st
    ensures out.2.Some? ==>
              && out.1 == AccountSent(Capitalize(JsString(Lower(serviceOption))), out.2.value.account)
              && out.2.value in st.rows
              && out.2.value.service == Lower(serviceOption)
              && multiset(out.0.rows) + multiset{out.2.value} == multiset(st.rows)
              && (forall j :: 0 <= j < |out.0.rows| ==> out.0.rows[j].id != out.2.value.id)
              && out.0.nextId == st.nextId
              && exists i :: 0 <= i < |st.rows| && st.rows[i] == out.2.value && out.0.rows == st.rows[..i] + st.rows[i + 1..]
    ensures out.2.Some? ==>
              out.2.value == Matching(st.rows, Lower(serviceOption))[PickIndex(rand, CountOf(st.rows, Lower(serviceOption)))]
    ensures out.1 != NoStock ==> CountOf(out.0.rows, Lower(serviceOption)) == CountOf(st.rows, Lower(serviceOption)) - 1
    ensures forall s :: s != Lower(serviceOption) ==> CountOf(out.0.rows, s) == CountOf(st.rows, s)
  {
    var service := Lower(serviceOption);
    var n := CountOf(st.rows, service);
    if n == 0 then
      (st, NoStock, None)
    else
      var k := PickIndex(rand, n);
      var (st', row) := Claim(st, service, k);
      (st', AccountSent(Capitalize(JsString(service)), row.account), Some(row))
  }

  /** Every row selected for the service, in any table, is the one `gen`
      dispenses for some random draw: `rand = k / n` picks row `k`. */
  lemma GenReaches(st: Store, serviceOption: string, k: nat)
    requires Valid(st)
    requires k < CountOf(st.rows, Lower(serviceOption))
    ensures var n := CountOf(st.rows, Lower(serviceOption));
            0.0 <= k as real / n as real < 1.0
            && GenCommand(st, serviceOption, k as real / n as real).2 == Some(Matching(st.rows, Lower(serviceOption))[k])
  {
    PickIndexReaches(k, CountOf(st.rows, Lower(serviceOption)));
  }

  /** `stock`: one entry per service that has rows, with its row count;
      the table is only read. */
  function StockCommand(st: Store): (out: (Store, Reply))
    ensures out.0 == st
    ensures out.1.StockReport?
    ensures forall s :: s in out.1.counts <==> CountOf(st.rows, s) > 0
    ensures forall s :: s in out.1.counts ==> out.1.counts[s] == CountOf(st.rows, s)
  {
    var counts := GroupCount(st.rows);
    forall s
      ensures s in counts <==> CountOf(st.rows, s) > 0
    {
      CountOfPositive(st.rows, s);
    }
    (st, StockReport(counts))
  }

  /** `add` once the ADMINISTRATOR check has passed: insert one row per
      comma-separated piece under the lower-cased service, reply with the
      number inserted and report the service's new total. */
  function AddCommand(st: Store, serviceOption: string, accountsOption: string): (out: (Store, Reply))
    requires Valid(st)
    ensures Valid(out.0)
    ensures out.1.Added?
    ensures out.1.amount == CountChar(accountsOption, ',') + 1
    ensures out.1.total == CountOf(st.rows, Lower(serviceOption)) + out.1.amount
    ensures out.1.total == CountOf(out.0.rows, Lower(serviceOption))
    ensures |out.0.rows| == |st.rows| + out.1.amount && out.0.rows[..|st.rows|] == st.rows
    ensures forall i :: 0 <= i < out.1.amount ==>
              && out.0.rows[|st.rows| + i].service == Lower(serviceOption)
              && out.0.rows[|st.rows| + i].account == ParseAccounts(accountsOption)[i]
    ensures forall s :: s != Lower(serviceOption) ==> CountOf(out.0.rows, s) == CountOf(st.rows, s)
  {
    var service := Lower(serviceOption);
    var entries := ParseAccounts(accountsOption);
    var st' := Insert(st, service, entries);
    (st', Added(|entries|, CountOf(st'.rows, service)))
  }

  /** The whole `interactionCreate` handler. The GEN role is checked first,
      whatever the command; then the command must be registered (the
      `interaction.isCommand` operand is a method reference and always
      truthy); then the channel; then `add` also needs ADMINISTRATOR. */
  function Handle(cfg: Config, st: Store, ix: Interaction, rand: real): (out: (Store, Reply))
    requires Valid(st)
    requires 0.0 <= rand < 1.0
    ensures Valid(out.0)
    ensures GenRole !in ix.caller.roleNames ==> out == (st, NoPermission)
    ensures GenRole in ix.caller.roleNames && ix.commandName !in cfg.registered ==> out == (st, Silent)
    ensures (GenRole in ix.caller.roleNames && ix.commandName in cfg.registered && cfg.allowedChannel != Some(ix.channelId))
              ==> out == (st, WrongChannel)
    ensures Admitted(cfg, ix) && Lower(ix.commandName) == "add" && !ix.caller.administrator ==> out == (st, AdminOnly)
    ensures Admitted(cfg, ix) && Lower(ix.commandName) == "help" ==> out == (st, Help(HelpText))
    ensures Lower(ix.commandName) in {"stock", "help"} ==> out.0 == st
    ensures out.0 != st ==>
              && Admitted(cfg, ix)
              && (Lower(ix.commandName) == "gen" || (Lower(ix.commandName) == "add" && ix.caller.administrator))
    ensures Admitted(cfg, ix) && Lower(ix.commandName) == "gen" ==>
              out == (GenCommand(st, ix.service, rand).0, GenCommand(st, ix.service, rand).1)
    ensures Admitted(cfg, ix) && Lower(ix.commandName) == "stock" ==> out == StockCommand(st)
    ensures Admitted(cfg, ix) && Lower(ix.commandName) == "add" && ix.caller.administrator ==>
              out == AddCommand(st, ix.service, ix.accounts)
    ensures Admitted(cfg, ix) && Lower(ix.commandName) !in {"gen", "stock", "add", "help"} ==> out == (st, Silent)
  {
    if GenRole !in ix.caller.roleNames then
      (st, NoPermission)
    else if ix.commandName !in cfg.registered then
      (st, Silent)
    else if cfg.allowedChannel != Some(ix.channelId) then
      (st, WrongChannel)
    else
      var command := Lower(ix.commandName);
      if command == "gen" then
        var (st', reply, _) := GenCommand(st, ix.service, rand);
        (st', reply)
      else if command == "stock" then
        StockCommand(st)
      else if command == "add" then
        if ix.caller.administrator then AddCommand(st, ix.service, ix.accounts) else (st, AdminOnly)
      else if command == "help" then
        (st, Help(HelpText))
      else
        (st, Silent)
  }

  /** Service names are lower-cased on both sides: after `add` under one
      spelling into a service that had no rows, `gen` under any spelling
      with the same lower case finds stock, and what it sends is one of
      the entries just added, verbatim. */
  lemma AddThenGen(st: Store, addService: string, genService: string, accountsOption: string, rand: real)
    requires Valid(st)
    requires 0.0 <= rand < 1.0
    requires Lower(addService) == Lower(genService)
    requires CountOf(st.rows, Lower(addService)) == 0
    ensures var (st1, _) := AddCommand(st, addService, accountsOption);
            var (_, reply, _) := GenCommand(st1, genService, rand);
            reply.AccountSent? && reply.account in ParseAccounts(accountsOption)
  {
  }

  /** Every entry of an `add` into an empty service can be the one `gen`
      sends: for entry `k` there is a random draw that picks it. */
  lemma AddThenGenReaches(st: Store, service: string, accountsOption: string, k: nat)
    requires Valid(st)
    requires CountOf(st.rows, Lower(service)) == 0
    requires k < |ParseAccounts(accountsOption)|
    ensures var n := |ParseAccounts(accountsOption)|;
            var st1 := AddCommand(st, service, accountsOption).0;
            0.0 <= k as real / n as real < 1.0
            && GenCommand(st1, service, k as real / n as real).1.account == ParseAccounts(accountsOption)[k]
  {
    var n := |ParseAccounts(accountsOption)|;
    PickIndexReaches(k, n);
    InsertThenClaim(st, Lower(service), ParseAccounts(accountsOption), k);
  }

  /** The replies of a run of `gen` commands line up with the rows it
      dispensed: the first replies send those rows' accounts, in order,
      under `serviceLabel`, and every later reply is "no stock". */
  predicate RepliesMatch(replies: seq<Reply>, dispensed: seq<Row>, serviceLabel: string)
  {
    && |dispensed| <= |replies|
    && (forall i :: 0 <= i < |replies| ==> (replies[i] == NoStock <==> i >= |dispensed|))
    && (forall i :: 0 <= i < |dispensed| ==> replies[i] == AccountSent(serviceLabel, dispensed[i].account))
  }

  lemma RepliesMatchNoStock(rest: seq<Reply>, serviceLabel: string)
    requires RepliesMatch(rest, [], serviceLabel)
    ensures RepliesMatch([NoStock] + rest, [], serviceLabel)
  {
    var replies := [NoStock] + rest;
    assert forall i :: 1 <= i < |replies| ==> replies[i] == rest[i - 1];
  }

  lemma RepliesMatchSent(rest: seq<Reply>, later: seq<Row>, row: Row, serviceLabel: string)
    requires RepliesMatch(rest, later, serviceLabel)
    ensures RepliesMatch([AccountSent(serviceLabel, row.account)] + rest, [row] + later, serviceLabel)
  {
    var replies := [AccountSent(serviceLabel, row.account)] + rest;
    var dispensed := [row] + later;
    assert forall i :: 1 <= i < |replies| ==> replies[i] == rest[i - 1];
    assert forall i :: 1 <= i < |dispensed| ==> dispensed[i] == later[i - 1];
  }

  /** One more dispensed row in front of a run: the rows dispensed stay
      distinct by id, all come from the original table with the service,
      and together with the final table they make up the original table. */
  lemma DispenseStep(st: Store, st1: Store, st2: Store, row: Row, later: seq<Row>, service: string)
    requires multiset(st1.rows) + multiset{row} == multiset(st.rows)
    requires forall j :: 0 <= j < |st1.rows| ==> st1.rows[j].id != row.id
    requires row in st.rows && row.service == service
    requires multiset(st2.rows) + multiset(later) == multiset(st1.rows)
    requires UniqueIds(later)
    requires forall i :: 0 <= i < |later| ==> later[i] in st1.rows && later[i].service == service
    ensures multiset(st2.rows) + multiset([row] + later) == multiset(st.rows)
    ensures UniqueIds([row] + later)
    ensures forall i :: 0 <= i < |[row] + later| ==> ([row] + later)[i] in st.rows && ([row] + later)[i].service == service
  {
    var all := [row] + later;
    assert multiset(all) == multiset{row} + multiset(later);
    forall i | 0 <= i < |later|
      ensures later[i] in st.rows && later[i].id != row.id
    {
      assert later[i] in multiset(st1.rows);
      assert multiset(st.rows)[later[i]] >= multiset(st1.rows)[later[i]] > 0;
      var j :| 0 <= j < |st1.rows| && st1.rows[j] == later[i];
    }
    assert forall i :: 1 <= i < |all| ==> all[i] == later[i - 1];
  }

  /** What a run of `n` `gen` calls for `service` promises, from table
      `st` to table `final`: one reply per call; `min(n, M)` rows dispensed
      for a service with `M` rows, lined up with the replies; the rows
      dispensed are distinct by id and are rows of `st` with the service;
      and `final` is `st` without exactly those rows. */
  predicate RunOutcome(st: Store, service: string, serviceLabel: string, n: nat,
                       final: Store, replies: seq<Reply>, dispensed: seq<Row>)
  {
    && |replies| == n
    && |dispensed| == (if n <= CountOf(st.rows, service) then n else CountOf(st.rows, service))
    && RepliesMatch(replies, dispensed, serviceLabel)
    && UniqueIds(dispensed)
    && (forall i :: 0 <= i < |dispensed| ==> dispensed[i] in st.rows && dispensed[i].service == service)
    && multiset(final.rows) + multiset(dispensed) == multiset(st.rows)
    && CountOf(final.rows, service) == CountOf(st.rows, service) - |dispensed|
  }

  /** One step of a run of `gen` commands, stated over the contracts of
      its parts: the first call's reply and dispensed row (as `GenCommand`
      promises them) followed by a run of the remaining `n` calls make up
      a run of `n + 1` calls. */
  lemma RunStep(st: Store, st1: Store, st2: Store, service: string, serviceLabel: string,
                first: Reply, claimed: Option<Row>, n: nat, rest: seq<Reply>, later: seq<Row>)
    requires first == NoStock <==> CountOf(st.rows, service) == 0
    requires first == NoStock <==> claimed.None?
    requires first == NoStock ==> st1 == st
    requires claimed.Some? ==>
               && first == AccountSent(serviceLabel, claimed.value.account)
               && claimed.value in st.rows
               && claimed.value.service == service
               && multiset(st1.rows) + multiset{claimed.value} == multiset(st.rows)
               && (forall j :: 0 <= j < |st1.rows| ==> st1.rows[j].id != claimed.value.id)
    requires first != NoStock ==> CountOf(st1.rows, service) == CountOf(st.rows, service) - 1
    requires RunOutcome(st1, service, serviceLabel, n, st2, rest, later)
    ensures RunOutcome(st, service, serviceLabel, n + 1, st2, [first] + rest,
                       if claimed.Some? then [claimed.value] + later else later)
  {
    if claimed.None? {
      RunStepNoStock(st, service, serviceLabel, n, st2, rest, later);
    } else {
      RunStepSent(st, st1, st2, service, serviceLabel, claimed.value, n, rest, later);
    }
  }

  /** A first call that finds no stock, then a run of `n` calls. */
  lemma RunStepNoStock(st: Store, service: string, serviceLabel: string, n: nat,
                       st2: Store, rest: seq<Reply>, later: seq<Row>)
    requires CountOf(st.rows, service) == 0
    requires RunOutcome(st, service, serviceLabel, n, st2, rest, later)
    ensures RunOutcome(st, service, serviceLabel, n + 1, st2, [NoStock] + rest, later)
  {
    RepliesMatchNoStock(rest, serviceLabel);
  }

  /** A first call that dispenses `row`, then a run of `n` calls. */
  lemma RunStepSent(st: Store, st1: Store, st2: Store, service: string, serviceLabel: string,
                    row: Row, n: nat, rest: seq<Reply>, later: seq<Row>)
    requires row in st.rows && row.service == service
    requires multiset(st1.rows) + multiset{row} == multiset(st.rows)
    requires forall j :: 0 <= j < |st1.rows| ==> st1.rows[j].id != row.id
    requires CountOf(st1.rows, service) == CountOf(st.rows, service) - 1
    requires RunOutcome(st1, service, serviceLabel, n, st2, rest, later)
    ensures RunOutcome(st, service, serviceLabel, n + 1, st2, [AccountSent(serviceLabel, row.account)] + rest, [row] + later)
  {
    DispenseStep(st, st1, st2, row, later, service);
    RepliesMatchSent(rest, later, row, serviceLabel);
  }

  /** A `gen` call followed by a run of `n` more is a run of `n + 1`. */
  lemma GenThenRun(st: Store, serviceOption: string, rand: real, n: nat,
                   st2: Store, rest: seq<Reply>, later: seq<Row>)
    requires Valid(st)
    requires 0.0 <= rand < 1.0
    requires RunOutcome(GenCommand(st, serviceOption, rand).0, Lower(serviceOption),
                        Capitalize(JsString(Lower(serviceOption))), n, st2, rest, later)
    ensures var step := GenCommand(st, serviceOption, rand);
            RunOutcome(st, Lower(serviceOption), Capitalize(JsString(Lower(serviceOption))), n + 1,
                       st2, [step.1] + rest, if step.2.Some? then [step.2.value] + later else later)
  {
    var (st1, first, claimed) := GenCommand(st, serviceOption, rand);
    RunStep(st, st1, st2, Lower(serviceOption), Capitalize(JsString(Lower(serviceOption))),
            first, claimed, n, rest, later);
  }

  /** A run of `gen` commands, one random draw each, as sequential atomic
      steps. The third component lists the rows dispensed, in order: the
      first `min(N, M)` calls each send a different row of the service,
      and the table loses exactly those. */
  function GenRun(st: Store, serviceOption: string, rands: seq<real>): (out: (Store, seq<Reply>, seq<Row>))
    requires Valid(st)
    requires forall i :: 0 <= i < |rands| ==> 0.0 <= rands[i] < 1.0
    ensures Valid(out.0)
    ensures RunOutcome(st, Lower(serviceOption), Capitalize(JsString(Lower(serviceOption))), |rands|, out.0, out.1, out.2)
    decreases |rands|
  {
    if |rands| == 0 then (st, [], [])
    else
      var step := GenCommand(st, serviceOption, rands[0]);
      var run := GenRun(step.0, serviceOption, rands[1..]);
      GenThenRun(st, serviceOption, rands[0], |rands| - 1, run.0, run.1, run.2);
      (run.0, [step.1] + run.1, if step.2.Some? then [step.2.value] + run.2 else run.2)
  }
}
