/**
  Per-account proxy chains: an ordered list of endpoints with a sticky active one, which moves on
  only after three failures in a row, and the transport's cache of those chains.
 */
module ProxyChains {
  import opened Wrappers
  import opened Limits

  type Endpoint = string

  datatype Chain = Chain(endpoints: seq<Endpoint>, activeIndex: nat, failures: seq<nat>, successes: seq<nat>)

  ghost predicate ChainOk(c: Chain) {
    && c.activeIndex < |c.endpoints|
    && |c.failures| == |c.successes| == |c.endpoints|
  }

  function Bump(n: nat): nat {
    if n < U8_MAX then n + 1 else n
  }

  function NewChain(endpoints: seq<Endpoint>): (c: Chain)
    requires endpoints != []
    ensures ChainOk(c)
  {
    Chain(endpoints, 0, seq(|endpoints|, _ => 0), seq(|endpoints|, _ => 0))
  }

  function AfterFailure(c: Chain): (r: Chain)
    requires ChainOk(c)
    ensures ChainOk(r)
  {
    var failures := c.failures[c.activeIndex := Bump(c.failures[c.activeIndex])];
    var moves := failures[c.activeIndex] >= 3 && c.activeIndex + 1 < |c.endpoints|;
    Chain(c.endpoints, if moves then c.activeIndex + 1 else c.activeIndex, failures, c.successes[c.activeIndex := 0])
  }

  function AfterSuccess(c: Chain): (r: Chain)
    requires ChainOk(c)
    ensures ChainOk(r)
  {
    c.(failures := c.failures[c.activeIndex := 0],
       successes := c.successes[c.activeIndex := Bump(c.successes[c.activeIndex])])
  }

  function AfterResult(c: Chain, success: bool): (r: Chain)
    requires ChainOk(c)
    ensures ChainOk(r)
  {
    if success then AfterSuccess(c) else AfterFailure(c)
  }

  class ProxyChain {
    const endpoints: seq<Endpoint>
    var activeIndex: nat
    var consecutiveFailures: seq<nat>
    var consecutiveSuccesses: seq<nat>

    ghost function View(): Chain
      reads this
    {
      Chain(endpoints, activeIndex, consecutiveFailures, consecutiveSuccesses)
    }

    constructor (endpoints: seq<Endpoint>)
      requires endpoints != []
      ensures View() == NewChain(endpoints)
    {
      this.endpoints := endpoints;
      activeIndex := 0;
      consecutiveFailures := seq(|endpoints|, _ => 0);
      consecutiveSuccesses := seq(|endpoints|, _ => 0);
    }

    method RecordFailure()
      requires ChainOk(View())
      modifies this
      ensures View() == AfterFailure(old(View()))
    {
      var active := activeIndex;
      consecutiveSuccesses := consecutiveSuccesses[active := 0];
      consecutiveFailures := consecutiveFailures[active := Bump(consecutiveFailures[active])];
      if consecutiveFailures[active] >= 3 && active + 1 < |endpoints| {
        activeIndex := activeIndex + 1;
      }
    }

    method RecordSuccess()
      requires ChainOk(View())
      modifies this
      ensures View() == AfterSuccess(old(View()))
    {
      var active := activeIndex;
      consecutiveFailures := consecutiveFailures[active := 0];
      consecutiveSuccesses := consecutiveSuccesses[active := Bump(consecutiveSuccesses[active])];
    }
  }

  /** A chain needs at least one endpoint. */
  method CreateChain(endpoints: seq<Endpoint>) returns (r: Result<ProxyChain, ()>)
    ensures r.Err? <==> endpoints == []
    ensures r.Ok? ==> fresh(r.value) && r.value.View() == NewChain(endpoints)
  {
    if endpoints == [] {
      return Err(());
    }
    var chain := new ProxyChain(endpoints);
    r := Ok(chain);
  }

  // --- Runs of results ----------------------------------------------------------------------------

  /** The chain after a run of recorded results. */
  function Run(c: Chain, results: seq<bool>): (r: Chain)
    requires ChainOk(c)
    ensures ChainOk(r) && r.endpoints == c.endpoints
  {
    if results == [] then c
    else AfterResult(Run(c, results[..|results| - 1]), results[|results| - 1])
  }

  /** The active index of a fresh chain after a run of results. */
  function Index(endpoints: seq<Endpoint>, results: seq<bool>): nat
    requires endpoints != []
  {
    Run(NewChain(endpoints), results).activeIndex
  }

  function Failures(results: seq<bool>): nat {
    if results == [] then 0
    else Failures(results[..|results| - 1]) + if results[|results| - 1] then 0 else 1
  }

  /** How many of the last results were failures on the endpoint that is active now. */
  ghost function Streak(endpoints: seq<Endpoint>, results: seq<bool>): nat
    requires endpoints != []
  {
    if results == [] then 0
    else
      var front := results[..|results| - 1];
      if results[|results| - 1] || Index(endpoints, results) != Index(endpoints, front) then 0
      else Streak(endpoints, front) + 1
  }

  /** How many of the last results were successes. */
  ghost function Successes(results: seq<bool>): nat {
    if results == [] || !results[|results| - 1] then 0 else Successes(results[..|results| - 1]) + 1
  }

  function Capped(n: nat): nat {
    if n < U8_MAX then n else U8_MAX
  }

  /** The counters of a run: the active ones hold the streaks, later ones are untouched. */
  ghost predicate Counters(endpoints: seq<Endpoint>, results: seq<bool>)
    requires endpoints != []
  {
    var c := Run(NewChain(endpoints), results);
    && (forall k :: c.activeIndex < k < |endpoints| ==> c.failures[k] == 0 && c.successes[k] == 0)
    && c.failures[c.activeIndex] == Capped(Streak(endpoints, results))
    && c.successes[c.activeIndex] == Capped(Successes(results))
    && (c.activeIndex + 1 < |endpoints| ==> Streak(endpoints, results) < 3)
    && 3 * c.activeIndex + Streak(endpoints, results) <= Failures(results)
  }

  lemma {:induction false} CountersHold(endpoints: seq<Endpoint>, results: seq<bool>)
    requires endpoints != []
    ensures Counters(endpoints, results)
  {
    if results != [] {
      var front := results[..|results| - 1];
      CountersHold(endpoints, front);
      var c := Run(NewChain(endpoints), front);
      assert Run(NewChain(endpoints), results) == AfterResult(c, results[|results| - 1]);
    }
  }

  /**
    The results end with `n` failures, all recorded while the endpoint that is active now was
    active. A result counts for the endpoint active when it is recorded, which need not be the one
    its request went through.
   */
  ghost predicate EndsInFailures(endpoints: seq<Endpoint>, results: seq<bool>, n: nat)
    requires endpoints != []
  {
    && n <= |results|
    && (forall k :: |results| - n <= k < |results| ==> !results[k])
    && (forall k :: |results| - n <= k <= |results| ==> Index(endpoints, results[..k]) == Index(endpoints, results))
  }

  lemma {:induction false} StreakMeans(endpoints: seq<Endpoint>, results: seq<bool>, n: nat)
    requires endpoints != []
    ensures n <= Streak(endpoints, results) <==> EndsInFailures(endpoints, results, n)
  {
    hide Index;
    assert results[..|results|] == results;
    if n > 0 && results != [] {
      var front := results[..|results| - 1];
      StreakMeans(endpoints, front, n - 1);
      assert forall k :: 0 <= k <= |front| ==> front[..k] == results[..k];
      if EndsInFailures(endpoints, results, n) {
        assert Index(endpoints, results[..|front|]) == Index(endpoints, results);
        assert EndsInFailures(endpoints, front, n - 1);
      }
    }
  }

  ghost predicate Moves(endpoints: seq<Endpoint>, results: seq<bool>, success: bool)
    requires endpoints != []
  {
    !success && Index(endpoints, results) + 1 < |endpoints| && EndsInFailures(endpoints, results, 2)
  }

  /**
    Failover, exactly: a result moves the chain on, by one endpoint, if and only if it is a
    failure, there is a next endpoint, and the two results before it were failures recorded while
    the same endpoint was active.
   */
  lemma AdvancesExactly(endpoints: seq<Endpoint>, results: seq<bool>, success: bool)
    requires endpoints != []
    ensures Index(endpoints, results + [success])
         == Index(endpoints, results) + if Moves(endpoints, results, success) then 1 else 0
  {
    CountersHold(endpoints, results);
    StreakMeans(endpoints, results, 2);
    assert (results + [success])[..|results|] == results;
  }

  /** Over every run the index stays in range, never goes back, and pays three failures for each move. */
  lemma {:induction false} FailoverBounds(endpoints: seq<Endpoint>, results: seq<bool>, i: nat)
    requires endpoints != [] && i <= |results|
    ensures Index(endpoints, results) < |endpoints|
    ensures 3 * Index(endpoints, results) <= Failures(results)
    ensures Index(endpoints, results[..i]) <= Index(endpoints, results)
    decreases |results|
  {
    CountersHold(endpoints, results);
    if i < |results| {
      var front := results[..|results| - 1];
      FailoverBounds(endpoints, front, i);
      assert front[..i] == results[..i];
    } else {
      assert results[..i] == results;
    }
  }

  /** Of four requests sent through the first endpoint, the fourth failure counts against the second. */
  lemma LateFailureCountsAgainstNext()
    ensures var c := NewChain(["first", "second"]);
            var third := AfterFailure(AfterFailure(AfterFailure(c)));
            && c.activeIndex == 0 && third.activeIndex == 1
            && third.failures == [3, 0] && AfterFailure(third).failures == [3, 1]
  {
  }

  // --- The transport's chains --------------------------------------------------------------------------

  datatype AccountChain = AccountChain(sources: seq<string>, chain: Chain)

  type Chains = map<string, AccountChain>

  type Parser = string -> Option<Endpoint>

  /** The endpoints of a source list; none when one of them is not a proxy URL. */
  function ParseAll(parse: Parser, sources: seq<string>): (r: Option<seq<Endpoint>>)
    ensures r.Some? ==> |r.value| == |sources|
    ensures r.Some? ==> forall i :: 0 <= i < |sources| ==> parse(sources[i]) == Some(r.value[i])
    ensures r.None? ==> exists i :: 0 <= i < |sources| && parse(sources[i]).None?
  {
    if sources == [] then Some([])
    else
      var front, last := ParseAll(parse, sources[..|sources| - 1]), parse(sources[|sources| - 1]);
      if front.Some? && last.Some? then Some(front.value + [last.value]) else None
  }

  ghost predicate ChainsOk(parse: Parser, chains: Chains) {
    forall a :: a in chains ==>
      && chains[a].sources != [] && ChainOk(chains[a].chain)
      && ParseAll(parse, chains[a].sources) == Some(chains[a].chain.endpoints)
  }

  /** The chains after a selection; the error is a source that is not a proxy URL. */
  function Select(parse: Parser, chains: Chains, account: string, sources: seq<string>)
    : (r: (Chains, Result<Option<Endpoint>, ()>))
    requires ChainsOk(parse, chains)
    ensures r.1 == Ok(None) <==> sources == []
  {
    if sources == [] then (chains - {account}, Ok(None))
    else if account in chains && chains[account].sources == sources then
      var c := chains[account].chain;
      (chains, Ok(Some(c.endpoints[c.activeIndex])))
    else
      match ParseAll(parse, sources)
      case None => (chains, Err(()))
      case Some(endpoints) =>
        (chains[account := AccountChain(sources, NewChain(endpoints))], Ok(Some(endpoints[0])))
  }

  function Recorded(parse: Parser, chains: Chains, account: string, success: bool): Chains
    requires ChainsOk(parse, chains)
  {
    if account !in chains then chains
    else chains[account := chains[account].(chain := AfterResult(chains[account].chain, success))]
  }

  class ReqwestTransport {
    const parse: Parser
    var chains: Chains

    ghost predicate Valid()
      reads this
    {
      ChainsOk(parse, chains)
    }

    constructor (parse: Parser)
      ensures Valid() && chains == map[] && this.parse == parse
    {
      this.parse := parse;
      chains := map[];
    }

    method SelectedProxy(account: string, sources: seq<string>) returns (r: Result<Option<Endpoint>, ()>)
      requires Valid()
      modifies this
      ensures Valid() && (chains, r) == Select(parse, old(chains), account, sources)
    {
      if sources == [] {
        chains := chains - {account};
        return Ok(None);
      }
      if account !in chains || chains[account].sources != sources {
        var endpoints := ParseAll(parse, sources);
        if endpoints.None? {
          return Err(());
        }
        chains := chains[account := AccountChain(sources, NewChain(endpoints.value))];
      }
      var chain := chains[account].chain;
      r := Ok(Some(chain.endpoints[chain.activeIndex]));
    }

    method RecordTransportResult(account: string, success: bool)
      requires Valid()
      modifies this
      ensures Valid() && chains == Recorded(parse, old(chains), account, success)
    {
      if account in chains {
        var state := chains[account];
        var next := if success then AfterSuccess(state.chain) else AfterFailure(state.chain);
        chains := chains[account := state.(chain := next)];
      }
    }
  }

  datatype Event = Selected(account: string, sources: seq<string>) | Outcome(account: string, success: bool)

  function Step(parse: Parser, chains: Chains, e: Event): (r: Chains)
    requires ChainsOk(parse, chains)
    ensures ChainsOk(parse, r)
  {
    match e
    case Selected(account, sources) => Select(parse, chains, account, sources).0
    case Outcome(account, success) => Recorded(parse, chains, account, success)
  }

  ghost predicate IsRun(parse: Parser, tr: seq<Chains>, es: seq<Event>) {
    && |tr| == |es| + 1
    && (forall i :: 0 <= i < |tr| ==> ChainsOk(parse, tr[i]))
    && forall i :: 0 <= i < |es| ==> tr[i + 1] == Step(parse, tr[i], es[i])
  }

  /** The results recorded for one account, in order. */
  function ResultsFor(es: seq<Event>, account: string): seq<bool> {
    if es == [] then []
    else
      var front, last := ResultsFor(es[..|es| - 1], account), es[|es| - 1];
      if last.Outcome? && last.account == account then front + [last.success] else front
  }

  /** The event is no selection for the account that would replace or drop a chain built from `sources`. */
  predicate Keeps(parse: Parser, e: Event, account: string, sources: seq<string>) {
    e.Selected? && e.account == account ==> e.sources == sources || ParseAll(parse, e.sources).None?
  }

  /** Only its own results change the chain of an account while its source list stays in use. */
  lemma StepOnChain(parse: Parser, chains: Chains, e: Event, account: string)
    requires ChainsOk(parse, chains) && account in chains && Keeps(parse, e, account, chains[account].sources)
    ensures account in Step(parse, chains, e)
    ensures Step(parse, chains, e)[account] ==
            if e.Outcome? && e.account == account
            then chains[account].(chain := AfterResult(chains[account].chain, e.success)) else chains[account]
  {
  }

  lemma Rebuilds(parse: Parser, chains: Chains, account: string, sources: seq<string>)
    requires ChainsOk(parse, chains) && sources != [] && ParseAll(parse, sources).Some?
    requires account in chains ==> chains[account].sources != sources
    ensures account in Step(parse, chains, Selected(account, sources))
    ensures Step(parse, chains, Selected(account, sources))[account]
         == AccountChain(sources, NewChain(ParseAll(parse, sources).value))
    ensures Select(parse, chains, account, sources).1 == Ok(Some(ParseAll(parse, sources).value[0]))
  {
  }

  lemma RunSnoc(c: Chain, results: seq<bool>, success: bool)
    requires ChainOk(c)
    ensures Run(c, results + [success]) == AfterResult(Run(c, results), success)
  {
    assert (results + [success])[..|results|] == results;
  }

  /**
    Since a selection rebuilt an account's chain, and until another one replaces or drops it, the
    chain is a fresh one after exactly the results recorded for that account, whatever happens to
    other accounts.
   */
  lemma {:induction false} ChainFollowsResults(parse: Parser, tr: seq<Chains>,
                                               es: seq<Event>, i: nat, j: nat, account: string, sources: seq<string>)
    requires IsRun(parse, tr, es) && i < j < |tr|
    requires es[i] == Selected(account, sources) && ParseAll(parse, sources).Some? && sources != []
    requires account in tr[i] ==> tr[i][account].sources != sources
    requires forall k :: i < k < j ==> Keeps(parse, es[k], account, sources)
    ensures account in tr[j]
    ensures var blank := NewChain(ParseAll(parse, sources).value);
            tr[j][account] == AccountChain(sources, Run(blank, ResultsFor(es[i + 1..j], account)))
    decreases j
  {
    hide Step, ChainsOk, ParseAll, NewChain, Run, AfterResult;
    assert tr[j - 1 + 1] == Step(parse, tr[j - 1], es[j - 1]);
    var blank := NewChain(ParseAll(parse, sources).value);
    if i + 1 == j {
      assert es[i + 1..j] == [];
      Rebuilds(parse, tr[i], account, sources);
      RunNothing(blank);
    } else {
      ChainFollowsResults(parse, tr, es, i, j - 1, account, sources);
      StepOnChain(parse, tr[j - 1], es[j - 1], account);
      var stretch, before := es[i + 1..j], es[i + 1..j - 1];
      assert stretch[..|stretch| - 1] == before && stretch[|stretch| - 1] == es[j - 1];
      if es[j - 1].Outcome? && es[j - 1].account == account {
        RunSnoc(blank, ResultsFor(before, account), es[j - 1].success);
      }
    }
  }

  lemma RunNothing(c: Chain)
    requires ChainOk(c)
    ensures Run(c, []) == c
  {
  }

  /** A selection then answers with the endpoint at that index of the current source list; it never goes direct. */
  lemma SelectionIsActiveSource(parse: Parser, tr: seq<Chains>,
                                es: seq<Event>, i: nat, j: nat, account: string, sources: seq<string>)
    requires IsRun(parse, tr, es) && i < j < |tr|
    requires es[i] == Selected(account, sources) && ParseAll(parse, sources).Some? && sources != []
    requires account in tr[i] ==> tr[i][account].sources != sources
    requires forall k :: i < k < j ==> Keeps(parse, es[k], account, sources)
    ensures var index := Index(ParseAll(parse, sources).value, ResultsFor(es[i + 1..j], account));
            && index < |sources|
            && parse(sources[index]).Some?
            && Select(parse, tr[j], account, sources).1 == Ok(parse(sources[index]))
  {
    ChainFollowsResults(parse, tr, es, i, j, account, sources);
  }

  // --- Against which endpoint a result is recorded -----------------------------------------------------

  /** Recording this result moves the account's chain on to its next endpoint. */
  predicate MovesOn(parse: Parser, chains: Chains, e: Event, account: string)
    requires ChainsOk(parse, chains)
  {
    && account in chains && e == Outcome(account, false)
    && var c := chains[account].chain;
       c.failures[c.activeIndex] >= 2 && c.activeIndex + 1 < |c.endpoints|
  }

  lemma KeptStep(parse: Parser, chains: Chains, e: Event, account: string)
    requires ChainsOk(parse, chains) && account in chains && Keeps(parse, e, account, chains[account].sources)
    ensures var next := Step(parse, chains, e);
            && account in next
            && next[account].sources == chains[account].sources
            && next[account].chain.endpoints == chains[account].chain.endpoints
            && next[account].chain.activeIndex
            == chains[account].chain.activeIndex + if MovesOn(parse, chains, e, account) then 1 else 0
  {
    StepOnChain(parse, chains, e, account);
  }

  /** A selection that answers with a proxy answers with the active endpoint of the chain it leaves. */
  lemma SelectedIsActive(parse: Parser, chains: Chains, account: string, sources: seq<string>)
    requires ChainsOk(parse, chains) && sources != [] && Select(parse, chains, account, sources).1.Ok?
    ensures var (next, answer) := (Step(parse, chains, Selected(account, sources)),
                                   Select(parse, chains, account, sources).1);
            && account in next && next[account].sources == sources && ChainOk(next[account].chain)
            && answer == Ok(Some(next[account].chain.endpoints[next[account].chain.activeIndex]))
  {
  }

  /**
    A request selects its proxy at `i`, and its result is recorded in state `j`. Until a selection
    with another usable list comes in between, that is the same chain, its index has not gone back,
    and the result counts for the endpoint the request used exactly when no result recorded in
    between moved the chain on.
   */
  lemma {:induction false} RecordedAgainstUsedIff(parse: Parser, tr: seq<Chains>, es: seq<Event>,
                                                  i: nat, j: nat, account: string, sources: seq<string>)
    requires IsRun(parse, tr, es) && i < j < |tr| && es[i] == Selected(account, sources)
    requires sources != [] && Select(parse, tr[i], account, sources).1.Ok?
    requires forall k :: i < k < j ==> Keeps(parse, es[k], account, sources)
    ensures account in tr[i + 1] && account in tr[j]
    ensures var used, now := tr[i + 1][account], tr[j][account];
            && ChainOk(used.chain) && used.sources == now.sources == sources
            && used.chain.endpoints == now.chain.endpoints
            && Select(parse, tr[i], account, sources).1 == Ok(Some(used.chain.endpoints[used.chain.activeIndex]))
            && used.chain.activeIndex <= now.chain.activeIndex
            && (used.chain.activeIndex == now.chain.activeIndex
                <==> forall k :: i < k < j ==> !MovesOn(parse, tr[k], es[k], account))
    decreases j
  {
    hide Step, Select, ChainsOk, Keeps, MovesOn;
    var last := j - 1;
    assert tr[last + 1] == Step(parse, tr[last], es[last]);
    if i == last {
      SelectedIsActive(parse, tr[i], account, sources);
    } else {
      RecordedAgainstUsedIff(parse, tr, es, i, last, account, sources);
      KeptStep(parse, tr[last], es[last], account);
    }
  }

  /**
    An empty list drops the chain. Until a usable list is selected again the account has none, so
    every result recorded for it is lost.
   */
  lemma {:induction false} DroppedResultIsLost(parse: Parser, tr: seq<Chains>,
                                               es: seq<Event>, i: nat, j: nat, account: string, success: bool)
    requires IsRun(parse, tr, es) && i < j < |tr| && es[i] == Selected(account, [])
    requires forall k :: i < k < j ==> Keeps(parse, es[k], account, [])
    ensures account !in tr[j] && Step(parse, tr[j], Outcome(account, success)) == tr[j]
    decreases j
  {
    var last := j - 1;
    assert tr[last + 1] == Step(parse, tr[last], es[last]);
    if i < last {
      DroppedResultIsLost(parse, tr, es, i, last, account, success);
    }
  }

  lemma ParseOne(parse: Parser, source: string)
    requires parse(source).Some?
    ensures ParseAll(parse, [source]) == Some([parse(source).value])
  {
    var r := ParseAll(parse, [source]);
    assert [source][0] == source;
    assert r.value == [parse(source).value];
  }

  lemma FirstFailure(endpoint: Endpoint)
    ensures AfterResult(NewChain([endpoint]), false).endpoints == [endpoint]
    ensures AfterResult(NewChain([endpoint]), false).failures == [1]
  {
  }

  /**
    A rebuild in between: a request used `s`, another request of the account brings the list [`t`],
    and the first one's failure counts against `t` although no result moved anything.
   */
  lemma RebuildCountsAgainstOther(parse: Parser, account: string, s: string, t: string)
    requires parse(s).Some? && parse(t).Some? && s != t
    ensures Select(parse, map[], account, [s]).1 == Ok(parse(s))
    ensures var selected := Step(parse, map[], Selected(account, [s]));
            var rebuilt := Step(parse, selected, Selected(account, [t]));
            var recorded := Step(parse, rebuilt, Outcome(account, false));
            && account in recorded && recorded[account].chain.endpoints == [parse(t).value]
            && recorded[account].chain.failures == [1]
  {
    hide Step, Select, ParseAll, AfterResult, NewChain;
    ParseOne(parse, s);
    ParseOne(parse, t);
    Rebuilds(parse, map[], account, [s]);
    var selected := Step(parse, map[], Selected(account, [s]));
    Rebuilds(parse, selected, account, [t]);
    var rebuilt := Step(parse, selected, Selected(account, [t]));
    StepOnChain(parse, rebuilt, Outcome(account, false), account);
    FirstFailure(parse(t).value);
  }
}
