/**
  The gray (canary) routing component: for one call it decides whether the
  call goes to the gray cohort, keeps the candidate invokers of that cohort
  (falling back once to the other cohort when it is empty), writes the
  chosen group into the call's `group` attachment, and picks the invoker.

  Everything the component asks of the outside world is a parameter: the
  lookups of `GrayHandlerHelper` and `GrayConfigHepler`, the interface-name
  extractor `CommonUitl.getInterface`, and the load balancer's
  `superFilterSelect`. The Java code mutates the invocation in place; here
  the tagged invocation is part of the result.
 */
module GrayComponent {
  import opened JavaLang
  import opened Invokers

  /** The lookups the component consults. */
  datatype Helpers = Helpers(
    /** `CommonUitl.getInterface(invoker, invocation)`; a throw is caught. */
    getInterface: (Invoker, Invocation) -> Try<JString>,
    /** `getGrayInterfaceList()`; a throw is caught. A null list behaves as an empty one. */
    grayInterfaceList: Try<seq<JString>>,
    /** `checkGrayFsEa(fsEa, providerApplicationName)`: is the tenant gray for this provider? */
    checkGrayFsEa: (JString, JString) -> bool,
    /** `justGaryByIpAndApplication(consumerApplicationName)`: is this machine's consumer gray? */
    justGrayByIpAndApplication: JString -> bool,
    /** `getGrayGroupByConsumerApplication(consumerApplicationName)` */
    grayGroupByConsumerApplication: JString -> JString,
    /** `getGrayApplicationGroupNameByEa(fsEa)` */
    grayGroupByEa: JString -> JString
  )

  /** `CustomLoadBalance.superFilterSelect(invokers, url, invocation)`; nothing is assumed of its answer. */
  type LoadBalance = (seq<Invoker>, Params, Invocation) -> Invoker

  /** The forced-gray list entry that forces every interface. */
  const ALL_INTERFACES: string := "all"

  /** The group literal a formal call must not carry to the provider. */
  const WILDCARD_GROUP: string := "*"

  // ---------------------------------------------------------------------
  // Metadata of the candidate list
  // ---------------------------------------------------------------------

  /** The `application` parameter of a URL; an unreadable URL gives "". */
  function ApplicationOf(u: UrlView): JString {
    match u
    case Unreadable => Some("")
    case Readable(params) => Get(params, APPLICATION_KEY)
  }

  /** `getProviderApplicationName`: read from the first invoker's provider URL. */
  function ProviderApplicationName(invokers: seq<Invoker>): (name: JString)
    ensures |invokers| == 0 ==> name == Some("")
    ensures name != Some("") ==>
              |invokers| > 0 && invokers[0].providerUrl.Readable?
              && Get(invokers[0].providerUrl.params, APPLICATION_KEY) == name
    ensures |invokers| > 0 && invokers[0].providerUrl.Readable? ==>
              name == Get(invokers[0].providerUrl.params, APPLICATION_KEY)
  {
    if |invokers| == 0 then Some("") else ApplicationOf(invokers[0].providerUrl)
  }

  /** `getConsumerApplicationName`: read from the first invoker's own URL. */
  function ConsumerApplicationName(invokers: seq<Invoker>): (name: JString)
    ensures |invokers| == 0 ==> name == Some("")
    ensures name != Some("") ==>
              |invokers| > 0 && invokers[0].url.Readable?
              && Get(invokers[0].url.params, APPLICATION_KEY) == name
    ensures |invokers| > 0 && invokers[0].url.Readable? ==> name == Get(invokers[0].url.params, APPLICATION_KEY)
  {
    if |invokers| == 0 then Some("") else ApplicationOf(invokers[0].url)
  }

  /** `getInterface`: "" for no invokers or when the extractor throws. */
  function InterfaceName(invokers: seq<Invoker>, inv: Invocation, h: Helpers): (name: JString)
    ensures |invokers| == 0 ==> name == Some("")
    ensures name != Some("") ==> |invokers| > 0 && h.getInterface(invokers[0], inv) == Returned(name)
    ensures |invokers| > 0 && h.getInterface(invokers[0], inv).Returned? ==>
              name == h.getInterface(invokers[0], inv).value
  {
    if |invokers| == 0 then Some("")
    else
      match h.getInterface(invokers[0], inv)
      case Threw => Some("")
      case Returned(n) => n
  }

  /** Only the first invoker is consulted for the names. */
  lemma NamesReadOnlyTheFirstInvoker(a: seq<Invoker>, b: seq<Invoker>, inv: Invocation, h: Helpers)
    requires |a| > 0 && |b| > 0 && a[0] == b[0]
    ensures ProviderApplicationName(a) == ProviderApplicationName(b)
    ensures ConsumerApplicationName(a) == ConsumerApplicationName(b)
    ensures InterfaceName(a, inv, h) == InterfaceName(b, inv, h)
  {
  }

  // ---------------------------------------------------------------------
  // Decide
  // ---------------------------------------------------------------------

  /**
    `justInterfaceGray`: is the called interface forced to gray? The list
    lookup failing or the list being empty means no; otherwise yes exactly
    when the list holds "all" or the interface name. The emptiness guard is
    subsumed: an empty list holds nothing.
   */
  function JustInterfaceGray(invokers: seq<Invoker>, inv: Invocation, h: Helpers): (forced: bool)
    ensures forced <==>
              && h.grayInterfaceList.Returned?
              && (Some(ALL_INTERFACES) in h.grayInterfaceList.value
                  || InterfaceName(invokers, inv, h) in h.grayInterfaceList.value)
  {
    var name := InterfaceName(invokers, inv, h);
    match h.grayInterfaceList
    case Threw => false
    case Returned(list) =>
      if |list| == 0 then false
      else Some(ALL_INTERFACES) in list || name in list
  }

  /** "all" in the forced list sends every call to gray, whatever its interface. */
  lemma WildcardForcesEveryInterface(invokers: seq<Invoker>, inv: Invocation, h: Helpers)
    requires h.grayInterfaceList.Returned? && Some(ALL_INTERFACES) in h.grayInterfaceList.value
    ensures JustInterfaceGray(invokers, inv, h)
  {
  }

  /**
    The outcome of the decision stage: `gray` is the cohort flag and
    `identityConsulted` records whether the tenant (or machine) lookup ran.
   */
  datatype Decision = Decision(gray: bool, identityConsulted: bool)

  /**
    `justGray`: without a tenant the interface check alone decides; with a
    tenant the call is gray when the interface is forced or the tenant is a
    gray tenant of the provider, and the tenant lookup is skipped when the
    interface is already forced.
   */
  function JustGray(fsEa: JString, invokers: seq<Invoker>, inv: Invocation, providerApp: JString, h: Helpers)
    : (d: Decision)
    ensures var forced := JustInterfaceGray(invokers, inv, h);
            && (IsEmpty(fsEa) ==> d.gray == forced)
            && (!IsEmpty(fsEa) ==> (d.gray <==> forced || h.checkGrayFsEa(fsEa, providerApp)))
            && (d.identityConsulted <==> !IsEmpty(fsEa) && !forced)
  {
    if IsEmpty(fsEa) then Decision(JustInterfaceGray(invokers, inv, h), false)
    else if JustInterfaceGray(invokers, inv, h) then Decision(true, false)
    else Decision(h.checkGrayFsEa(fsEa, providerApp), true)
  }

  /**
    The decision of `selectByIpAndApplication`: forced by interface, or else
    gray when this machine's consumer application is gray.
   */
  function TopologyDecision(invokers: seq<Invoker>, inv: Invocation, consumerApp: JString, h: Helpers)
    : (d: Decision)
    ensures var forced := JustInterfaceGray(invokers, inv, h);
            && (d.gray <==> forced || h.justGrayByIpAndApplication(consumerApp))
            && (d.identityConsulted <==> !forced)
  {
    var forced := JustInterfaceGray(invokers, inv, h);
    if forced then Decision(true, false) else Decision(h.justGrayByIpAndApplication(consumerApp), true)
  }

  // ---------------------------------------------------------------------
  // Filter
  // ---------------------------------------------------------------------

  /** `getGrayGroupName`: by consumer application without a tenant, else by tenant. */
  function GrayGroupName(fsEa: JString, consumerApp: JString, h: Helpers): (g: JString)
    ensures IsEmpty(fsEa) ==> g == h.grayGroupByConsumerApplication(consumerApp)
    ensures !IsEmpty(fsEa) ==> g == h.grayGroupByEa(fsEa)
  {
    if IsEmpty(fsEa) then h.grayGroupByConsumerApplication(consumerApp) else h.grayGroupByEa(fsEa)
  }

  /** The invokers kept by the filter stage and the value it writes to `group`. */
  datatype Filtered = Filtered(survivors: seq<Invoker>, group: JString)

  /** A gray invoker of group `g` exists among the candidates. */
  lemma SomeGrayIffGrayOfNonEmpty(invokers: seq<Invoker>, g: JString)
    ensures (exists e :: e in invokers && MatchesGray(e, g)) <==> |GrayOf(invokers, g)| > 0
  {
    var gray := GrayOf(invokers, g);
    if |gray| > 0 {
      assert gray[0] in gray;
    }
  }

  /** A formal invoker exists among the candidates. */
  lemma SomeFormalIffFormalOfNonEmpty(invokers: seq<Invoker>)
    ensures (exists e :: e in invokers && IsFormal(e)) <==> |FormalOf(invokers)| > 0
  {
    var formal := FormalOf(invokers);
    if |formal| > 0 {
      assert formal[0] in formal;
    }
  }

  /**
    `doGrayFilterSelect`: the invokers of the resolved gray group, tagged
    with that group; when there are none (the group name is null or empty,
    or nobody carries it) the formal invokers, tagged "".
   */
  function DoGrayFilterSelect(invokers: seq<Invoker>, consumerApp: JString, fsEa: JString, h: Helpers)
    : (f: Filtered)
    ensures var g := GrayGroupName(fsEa, consumerApp, h);
            if exists e :: e in invokers && MatchesGray(e, g)
            then f == Filtered(GrayOf(invokers, g), g)
            else f == Filtered(FormalOf(invokers), Some(""))
  {
    var g := GrayGroupName(fsEa, consumerApp, h);
    SomeGrayIffGrayOfNonEmpty(invokers, g);
    if IsEmpty(g) then
      EmptyGroupMatchesNothing(invokers, g);
      Filtered(FormalOf(invokers), Some(""))
    else
      var gray := GrayOf(invokers, g);
      if |gray| == 0 then Filtered(FormalOf(invokers), Some("")) else Filtered(gray, g)
  }

  /**
    `doFormatFilterSelect`: the formal invokers, tagged ""; when there are
    none, the invokers of the resolved gray group, tagged with that group
    even if no invoker carries it.
   */
  function DoFormalFilterSelect(invokers: seq<Invoker>, consumerApp: JString, fsEa: JString, h: Helpers)
    : (f: Filtered)
    ensures if exists e :: e in invokers && IsFormal(e)
            then f == Filtered(FormalOf(invokers), Some(""))
            else var g := GrayGroupName(fsEa, consumerApp, h);
                 f == Filtered(GrayOf(invokers, g), g)
  {
    var formal := FormalOf(invokers);
    SomeFormalIffFormalOfNonEmpty(invokers);
    if |formal| == 0 then
      var g := GrayGroupName(fsEa, consumerApp, h);
      Filtered(GrayOf(invokers, g), g)
    else
      Filtered(formal, Some(""))
  }

  /** `doFilterSelect`: the branch chosen by the cohort flag. */
  function DoFilterSelect(invokers: seq<Invoker>, gray: bool, consumerApp: JString, fsEa: JString, h: Helpers)
    : (f: Filtered)
    ensures var g := GrayGroupName(fsEa, consumerApp, h);
            && (f == Filtered(FormalOf(invokers), Some("")) || f == Filtered(GrayOf(invokers, g), g))
            && (gray && (exists e :: e in invokers && MatchesGray(e, g)) ==> f.survivors == GrayOf(invokers, g))
            && (!gray && (exists e :: e in invokers && IsFormal(e)) ==> f.survivors == FormalOf(invokers))
  {
    if gray then DoGrayFilterSelect(invokers, consumerApp, fsEa, h)
    else DoFormalFilterSelect(invokers, consumerApp, fsEa, h)
  }

  // ---------------------------------------------------------------------
  // Tag
  // ---------------------------------------------------------------------

  /** `setGroupInfo`: binds `group` to `value` and leaves every other attachment alone. */
  function SetGroupInfo(inv: Invocation, value: JString): (r: Invocation)
    ensures GROUP_KEY in r.attachments && r.attachments[GROUP_KEY] == value
    ensures forall k :: k != GROUP_KEY ==> (k in r.attachments <==> k in inv.attachments)
    ensures forall k :: k != GROUP_KEY && k in inv.attachments ==> r.attachments[k] == inv.attachments[k]
  {
    Invocation(inv.attachments[GROUP_KEY := value])
  }

  /**
    `setFormalServiceGroup`: an invocation with no attachments, or whose
    `group` is the wildcard "*", gets `group` = ""; any other invocation is
    returned unchanged.
   */
  function SetFormalServiceGroup(inv: Invocation): (r: Invocation)
    ensures r != inv <==> |inv.attachments| == 0 || Get(inv.attachments, GROUP_KEY) == Some(WILDCARD_GROUP)
    ensures r != inv ==> r == SetGroupInfo(inv, Some(""))
  {
    var group := Get(inv.attachments, GROUP_KEY);
    if |inv.attachments| == 0 || (!IsEmpty(group) && group.value == WILDCARD_GROUP) then
      var r := SetGroupInfo(inv, Some(""));
      assert GROUP_KEY in r.attachments;
      assert r.attachments != inv.attachments;
      r
    else
      inv
  }

  /** Normalising twice is normalising once. */
  lemma SetFormalServiceGroupIdempotent(inv: Invocation)
    ensures SetFormalServiceGroup(SetFormalServiceGroup(inv)) == SetFormalServiceGroup(inv)
  {
    var r := SetFormalServiceGroup(inv);
    if r != inv {
      assert GROUP_KEY in r.attachments;
      assert |r.attachments| > 0;
    }
  }

  // ---------------------------------------------------------------------
  // Select
  // ---------------------------------------------------------------------

  /**
    The final choice: `balancedOver` is the list handed to the load
    balancer, or `None` when the balancer was not called.
   */
  datatype Selection = Selection(chosen: Invoker, balancedOver: Option<seq<Invoker>>)

  /**
    `afterFilterSelect`: a single survivor is returned as is; several go to
    the load balancer; none sends the whole original list to it.
   */
  function AfterFilterSelect(invokers: seq<Invoker>, url: Params, inv: Invocation, lb: LoadBalance,
                             survivors: seq<Invoker>): (s: Selection)
    ensures s.balancedOver.None? <==> |survivors| == 1
    ensures s.balancedOver.None? ==> s.chosen == survivors[0]
    ensures s.balancedOver.Some? ==>
              && s.balancedOver.value == (if |survivors| == 0 then invokers else survivors)
              && s.chosen == lb(s.balancedOver.value, url, inv)
  {
    if |survivors| == 0 then Selection(lb(invokers, url, inv), Some(invokers))
    else if |survivors| == 1 then Selection(survivors[0], None)
    else Selection(lb(survivors, url, inv), Some(survivors))
  }

  // ---------------------------------------------------------------------
  // The two entry points
  // ---------------------------------------------------------------------

  /**
    What every routed call satisfies, given the candidates, the incoming
    invocation and the gray group name the call resolves to:
    - only `group` is written, and it is always written;
    - it is written either "" or the resolved group;
    - every survivor is a candidate of the cohort `group` names (formal for "");
    - the choice follows the none / one / many rule.
   */
  ghost predicate RoutedConsistently(invokers: seq<Invoker>, url: Params, inv: Invocation, lb: LoadBalance,
                                     resolved: JString, r: Routed)
  {
    var group := r.filtered.group;
    var survivors := r.filtered.survivors;
    && r.invocation.attachments == inv.attachments[GROUP_KEY := group]
    && (group == Some("") || group == resolved)
    && (forall e :: e in survivors ==>
          e in invokers && (if group == Some("") then IsFormal(e) else MatchesGray(e, group)))
    && (|survivors| == 0 ==> r.selection == Selection(lb(invokers, url, r.invocation), Some(invokers)))
    && (|survivors| == 1 ==> r.selection == Selection(survivors[0], None))
    && (|survivors| > 1 ==> r.selection == Selection(lb(survivors, url, r.invocation), Some(survivors)))
  }

  /**
    The filter outcome the decision dictates, given the resolved group `g`:
    a gray call gets the group's invokers tagged with the group, falling
    back to the formal invokers tagged "" when the group has none; a formal
    call gets the formal invokers tagged "", falling back to the group's
    invokers tagged with the group when there is no formal invoker.
   */
  ghost predicate FollowsDecision(invokers: seq<Invoker>, g: JString, gray: bool, f: Filtered)
  {
    && (gray && (exists e :: e in invokers && MatchesGray(e, g)) ==> f == Filtered(GrayOf(invokers, g), g))
    && (gray && (forall e :: e in invokers ==> !MatchesGray(e, g)) ==> f == Filtered(FormalOf(invokers), Some("")))
    && (!gray && (exists e :: e in invokers && IsFormal(e)) ==> f == Filtered(FormalOf(invokers), Some("")))
    && (!gray && (forall e :: e in invokers ==> !IsFormal(e)) ==> f == Filtered(GrayOf(invokers, g), g))
  }

  /** One routed call: the decision, the filter outcome, the tagged invocation and the choice. */
  datatype Routed = Routed(decision: Decision, filtered: Filtered, invocation: Invocation, selection: Selection)

  /** `filterSelect`: filter by the flag, tag the invocation, then select. */
  function FilterSelect(invokers: seq<Invoker>, url: Params, inv: Invocation, lb: LoadBalance,
                        decision: Decision, consumerApp: JString, fsEa: JString, h: Helpers): (r: Routed)
    ensures r.decision == decision
    ensures r.filtered == DoFilterSelect(invokers, decision.gray, consumerApp, fsEa, h)
    ensures FollowsDecision(invokers, GrayGroupName(fsEa, consumerApp, h), decision.gray, r.filtered)
    ensures RoutedConsistently(invokers, url, inv, lb, GrayGroupName(fsEa, consumerApp, h), r)
  {
    var f := DoFilterSelect(invokers, decision.gray, consumerApp, fsEa, h);
    var tagged := SetGroupInfo(inv, f.group);
    Routed(decision, f, tagged, AfterFilterSelect(invokers, url, tagged, lb, f.survivors))
  }

  /** `selectByEa`: routing of a call made on behalf of tenant `fsEa` (which may be null or empty). */
  function SelectByEa(invokers: seq<Invoker>, url: Params, inv: Invocation, fsEa: JString,
                      lb: LoadBalance, h: Helpers): (r: Routed)
    ensures r.decision == JustGray(fsEa, invokers, inv, ProviderApplicationName(invokers), h)
    ensures FollowsDecision(invokers, GrayGroupName(fsEa, ConsumerApplicationName(invokers), h), r.decision.gray,
                            r.filtered)
    ensures RoutedConsistently(invokers, url, inv, lb, GrayGroupName(fsEa, ConsumerApplicationName(invokers), h), r)
  {
    var consumerApp := ConsumerApplicationName(invokers);
    var providerApp := ProviderApplicationName(invokers);
    var decision := JustGray(fsEa, invokers, inv, providerApp, h);
    FilterSelect(invokers, url, inv, lb, decision, consumerApp, fsEa, h)
  }

  /** `selectByIpAndApplication`: routing of a service-to-service hop without a tenant. */
  function SelectByIpAndApplication(invokers: seq<Invoker>, url: Params, inv: Invocation,
                                    lb: LoadBalance, h: Helpers): (r: Routed)
    ensures r.decision == TopologyDecision(invokers, inv, ConsumerApplicationName(invokers), h)
    ensures FollowsDecision(invokers, h.grayGroupByConsumerApplication(ConsumerApplicationName(invokers)),
                            r.decision.gray, r.filtered)
    ensures RoutedConsistently(invokers, url, inv, lb,
                               h.grayGroupByConsumerApplication(ConsumerApplicationName(invokers)), r)
  {
    var consumerApp := ConsumerApplicationName(invokers);
    var decision := TopologyDecision(invokers, inv, consumerApp, h);
    FilterSelect(invokers, url, inv, lb, decision, consumerApp, None, h)
  }

  // ---------------------------------------------------------------------
  // Properties of a routed call
  // ---------------------------------------------------------------------

  /**
    The group a tenant call is routed by comes from the tenant resolver when
    a tenant is given, and from the consumer-application resolver otherwise.
   */
  lemma SelectByEaResolvesGroup(invokers: seq<Invoker>, url: Params, inv: Invocation, fsEa: JString,
                                lb: LoadBalance, h: Helpers)
    ensures var r := SelectByEa(invokers, url, inv, fsEa, lb, h);
            && (!IsEmpty(fsEa) ==> RoutedConsistently(invokers, url, inv, lb, h.grayGroupByEa(fsEa), r))
            && (IsEmpty(fsEa) ==>
                  RoutedConsistently(invokers, url, inv, lb,
                                     h.grayGroupByConsumerApplication(ConsumerApplicationName(invokers)), r))
  {
  }

  /**
    The cohort the decision names is honoured whenever it has a member:
    a gray call goes to the resolved group's invokers, a formal call to the
    formal invokers, each in input order.
   */
  lemma PreferredCohortWins(invokers: seq<Invoker>, url: Params, inv: Invocation, lb: LoadBalance,
                            decision: Decision, consumerApp: JString, fsEa: JString, h: Helpers)
    ensures var r := FilterSelect(invokers, url, inv, lb, decision, consumerApp, fsEa, h);
            var g := GrayGroupName(fsEa, consumerApp, h);
            && (decision.gray && (exists e :: e in invokers && MatchesGray(e, g)) ==>
                  r.filtered.survivors == GrayOf(invokers, g) && r.invocation.attachments[GROUP_KEY] == g)
            && (!decision.gray && (exists e :: e in invokers && IsFormal(e)) ==>
                  r.filtered.survivors == FormalOf(invokers) && r.invocation.attachments[GROUP_KEY] == Some(""))
  {
  }

  /**
    Degradation happens once and only toward the other cohort: a gray call
    with no invoker of its group gets the formal invokers and `group` = "";
    a formal call with no formal invoker gets the resolved group's invokers
    and that group, even when that leaves nobody.
   */
  lemma DegradesToTheOtherCohort(invokers: seq<Invoker>, url: Params, inv: Invocation, lb: LoadBalance,
                                 decision: Decision, consumerApp: JString, fsEa: JString, h: Helpers)
    ensures var r := FilterSelect(invokers, url, inv, lb, decision, consumerApp, fsEa, h);
            var g := GrayGroupName(fsEa, consumerApp, h);
            && (decision.gray && (forall e :: e in invokers ==> !MatchesGray(e, g)) ==>
                  r.filtered.survivors == FormalOf(invokers) && r.invocation.attachments[GROUP_KEY] == Some(""))
            && (!decision.gray && (forall e :: e in invokers ==> !IsFormal(e)) ==>
                  r.filtered.survivors == GrayOf(invokers, g) && r.invocation.attachments[GROUP_KEY] == g)
  {
  }

  /**
    A group resolved to "*" gets no special treatment when filtering: it is
    matched as an ordinary tag, so a gray call goes to the invokers tagged
    "*" when there are any, and a formal call with no formal invoker writes
    "*" into `group`.
   */
  lemma WildcardGroupIsAnOrdinaryTag(invokers: seq<Invoker>, url: Params, inv: Invocation, lb: LoadBalance,
                                     decision: Decision, consumerApp: JString, fsEa: JString, h: Helpers)
    requires GrayGroupName(fsEa, consumerApp, h) == Some(WILDCARD_GROUP)
    ensures var r := FilterSelect(invokers, url, inv, lb, decision, consumerApp, fsEa, h);
            var star := Some(WILDCARD_GROUP);
            && (decision.gray && (exists e :: e in invokers && MatchesGray(e, star)) ==>
                  r.filtered.survivors == GrayOf(invokers, star) && r.invocation.attachments[GROUP_KEY] == star)
            && (!decision.gray && (forall e :: e in invokers ==> !IsFormal(e)) ==>
                  r.filtered.survivors == GrayOf(invokers, star) && r.invocation.attachments[GROUP_KEY] == star)
  {
  }

  /**
    The load balancer never receives an empty list unless the candidates
    themselves were empty, and what it receives is either the full list or
    more than one survivor.
   */
  lemma BalancerInput(invokers: seq<Invoker>, url: Params, inv: Invocation, lb: LoadBalance,
                      decision: Decision, consumerApp: JString, fsEa: JString, h: Helpers)
    ensures var r := FilterSelect(invokers, url, inv, lb, decision, consumerApp, fsEa, h);
            r.selection.balancedOver.Some? ==>
              && (|invokers| > 0 ==> |r.selection.balancedOver.value| > 0)
              && (r.selection.balancedOver.value == invokers || |r.selection.balancedOver.value| > 1)
  {
  }

  /** With no candidates nothing survives and the balancer is handed the empty list. */
  lemma NoCandidatesFallsBackToBalancer(url: Params, inv: Invocation, lb: LoadBalance,
                                        decision: Decision, consumerApp: JString, fsEa: JString, h: Helpers)
    ensures var r := FilterSelect([], url, inv, lb, decision, consumerApp, fsEa, h);
            r.filtered.survivors == [] && r.selection.balancedOver == Some([])
  {
  }
}
