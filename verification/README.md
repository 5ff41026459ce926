# Gray routing and MQ gray switching, modelled in Dafny

This project models a Dubbo gray-release ("canary") component and its
RocketMQ helpers.

- **Gray routing engine (`GrayComponent`).** For each call it does four
  things. It decides whether the call belongs to the gray cohort, using a
  list of forcibly gray interfaces (with an `"all"` wildcard) and either the
  caller's tenant or this machine's consumer application. It keeps the
  candidate provider invokers of that cohort, degrading once to the other
  cohort when that one is empty. It writes the chosen group into the call's
  `group` attachment. Finally it returns the single survivor, or asks the
  load balancer to choose.
- **MQ listener switch (`MQListenerController`).** This is a
  listening / not-listening state machine. It consults an IP allow-list
  stored in Redis and calls `init` or `shutDown` on every registered
  listener when its state changes.
- **RocketMQ consumer configuration (`AutoConfRocketMQ`).** This covers the
  constructor's blank-argument guard, the parser of `"topic1:tag1,topic2"`
  into a topic-to-tag map, and `getTopic`.

The model has five modules:

- `JavaLang` (`java_lang.dfy`): Java's null as `Option`, thrown exceptions
  the code catches as `Try`, `StringUtils.isEmpty`/`isBlank`, ASCII
  `equalsIgnoreCase`, an order-preserving `Filter`, and two tokenisers.
  `String.split(";|,")` keeps inner empty pieces and drops trailing ones.
  `StringUtils.split` drops every empty piece. Both are characterised by
  "whole pieces between separators".
- `Invokers` (`invokers.dfy`): invoker records with their URL parameter
  maps, the group tag read, and the two cohort loops as methods with loop
  invariants.
- `GrayComponent` (`gray_component.dfy`): the four stages and the two entry
  points.
  - Every collaborator is a function-typed parameter: the
    `GrayHandlerHelper` and `GrayConfigHepler` lookups,
    `CommonUitl.getInterface`, and the load balancer's `superFilterSelect`.
  - Nothing is assumed of what these collaborators return. In particular,
    the balancer's choice need not be one of its inputs.
  - The Java code mutates the invocation's attachments in place; here the
    tagged invocation is part of the result.
- `MQListenerController` (`mq_listener_controller.dfy`): the controller as
  an immutable value.
  - Each operation returns the next controller, the log of listener calls it
    made, and how often it asked the host for its IP.
  - The Redis value and the host's IP are inputs.
- `AutoConfRocketMQ` (`auto_conf_rocket_mq.dfy`): the constructor as a
  `Result`, `parseTopics` and `getTopic`.

With no candidate invokers, `getInterface` returns "", so a forced list
holding "all" or "" still decides gray, and the tenant and machine lookups
run with "" as the application name.

A resolved gray group of `"*"` is not special-cased by the filter. The doc
comment of `getGrayGroupName` (GrayComponent.java:347-355) says an empty
or `"*"` consumer group calls the formal service, but the code special-
cases only the empty group (line 330). `"*"` is compared as an ordinary
tag (line 160). A formal call with no formal invoker writes the resolved
group, `"*"` or null included, into `group` (lines 313-316). The comment
at lines 112-115 says that a `"*"` group, when a service has a single
provider, leaves that provider unreachable. The group resolvers are not
part of this model and may never answer `"*"`, so the model follows the
code and states this as `GrayComponent.WildcardGroupIsAnOrdinaryTag`.

## Model

| member | source | states |
|---|---|---|
| Invokers.GroupTag | gray-core/src/main/java/com/huangyuan/open/gray/common/component/GrayComponent.java:155-159 | Reading an invoker's `default.group` tag fails exactly when its provider URL cannot be read; otherwise it yields the parameter, which may be null. |
| Invokers.FindGrayService | gray-core/src/main/java/com/huangyuan/open/gray/common/component/GrayComponent.java:152-169 | The loop appends to the given list exactly the invokers whose tag is non-empty and equals the gray group ignoring case, in input order. An unreadable invoker, or a null group, skips only that invoker. |
| Invokers.FindFormalService | gray-core/src/main/java/com/huangyuan/open/gray/common/component/GrayComponent.java:178-194 | The loop appends exactly the invokers whose tag is null or empty, in input order. Unreadable invokers are skipped and the loop goes on. |
| Invokers.FormalAndGrayAreDisjoint | gray-core/src/main/java/com/huangyuan/open/gray/common/component/GrayComponent.java:152-194 | No invoker is in both the formal and the gray cohort, for any group. |
| Invokers.EmptyGroupMatchesNothing | gray-core/src/main/java/com/huangyuan/open/gray/common/component/GrayComponent.java:152-169 | A null or empty gray group selects no invoker. |
| GrayComponent.ProviderApplicationName | gray-core/src/main/java/com/huangyuan/open/gray/common/component/GrayComponent.java:203-220 | An empty candidate list gives "". A readable first provider URL gives its `application` parameter (possibly null), and any name other than "" comes from there. |
| GrayComponent.ConsumerApplicationName | gray-core/src/main/java/com/huangyuan/open/gray/common/component/GrayComponent.java:230-243 | An empty candidate list gives "". A readable first consumer URL gives its `application` parameter (possibly null), and any name other than "" comes from there. |
| GrayComponent.InterfaceName | gray-core/src/main/java/com/huangyuan/open/gray/common/component/GrayComponent.java:371-383 | An empty candidate list gives "". Otherwise the extractor's answer for the first invoker is passed through, and any name other than "" is that answer; a throw gives "". |
| GrayComponent.NamesReadOnlyTheFirstInvoker | gray-core/src/main/java/com/huangyuan/open/gray/common/component/GrayComponent.java:203-243 | Two candidate lists with the same first invoker give the same provider, consumer and interface names. |
| GrayComponent.JustInterfaceGray | gray-core/src/main/java/com/huangyuan/open/gray/common/component/GrayComponent.java:389-404 | A call is interface-forced exactly when the forced list could be read and holds "all" or the call's interface name. A failed lookup or an empty list gives false. |
| GrayComponent.WildcardForcesEveryInterface | gray-core/src/main/java/com/huangyuan/open/gray/common/component/GrayComponent.java:397 | "all" in the forced list forces every call, whatever its interface. |
| GrayComponent.JustGray | gray-core/src/main/java/com/huangyuan/open/gray/common/component/GrayComponent.java:409-427 | Without a tenant, the decision is the interface check alone. With a tenant, it is interface-forced or tenant-gray, and the tenant lookup runs only when the call is not forced. |
| GrayComponent.TopologyDecision | gray-core/src/main/java/com/huangyuan/open/gray/common/component/GrayComponent.java:89-105 | The topology decision is interface-forced or machine-gray for the consumer application. The machine lookup runs only when the call is not forced. |
| GrayComponent.GrayGroupName | gray-core/src/main/java/com/huangyuan/open/gray/common/component/GrayComponent.java:356-362 | The group is resolved by consumer application when the tenant is null or empty, and by tenant otherwise. |
| GrayComponent.DoGrayFilterSelect | gray-core/src/main/java/com/huangyuan/open/gray/common/component/GrayComponent.java:324-345 | If some invoker carries the resolved group, the result is exactly those invokers, tagged with the group. Otherwise it is exactly the formal invokers, tagged "". |
| GrayComponent.DoFormalFilterSelect | gray-core/src/main/java/com/huangyuan/open/gray/common/component/GrayComponent.java:306-322 | If some invoker is formal, the result is exactly the formal invokers, tagged "". Otherwise it is the invokers of the resolved group, tagged with that group even when none carries it. |
| GrayComponent.DoFilterSelect | gray-core/src/main/java/com/huangyuan/open/gray/common/component/GrayComponent.java:291-304 | The survivors are the formal invokers tagged "" or the resolved group's invokers tagged with it. A gray flag with a matching invoker keeps the gray ones; a formal flag with a formal invoker keeps the formal ones. |
| GrayComponent.SetGroupInfo | gray-core/src/main/java/com/huangyuan/open/gray/common/component/GrayComponent.java:141-149 | Binds `group` to the value and leaves every other attachment as it was. |
| GrayComponent.SetFormalServiceGroup | gray-core/src/main/java/com/huangyuan/open/gray/common/component/GrayComponent.java:122-139 | The invocation changes exactly when its attachments are empty or `group` is "*". The change is `group` set to "". |
| GrayComponent.SetFormalServiceGroupIdempotent | gray-core/src/main/java/com/huangyuan/open/gray/common/component/GrayComponent.java:122-139 | Normalising an invocation twice gives the same result as once. |
| GrayComponent.AfterFilterSelect | gray-core/src/main/java/com/huangyuan/open/gray/common/component/GrayComponent.java:273-289 | With one survivor, it returns that survivor and skips the balancer. With several, the balancer gets exactly the survivors. With none, it gets the full candidate list. |
| GrayComponent.FilterSelect | gray-core/src/main/java/com/huangyuan/open/gray/common/component/GrayComponent.java:258-271 | The outcome follows the flag: the preferred cohort when it has a member, otherwise the other cohort, each with its `group` value. Every filtered call also satisfies four things. It writes only `group`, and the value is "" or the resolved group. Every survivor is a candidate of the cohort that value names. The choice follows the none / one / many rule. |
| GrayComponent.SelectByEa | gray-core/src/main/java/com/huangyuan/open/gray/common/component/GrayComponent.java:52-67 | Tenant routing is decided by `justGray` with the provider application. A gray decision gets the invokers of the group its tenant (or consumer application) resolves to, tagged with that group, or the formal invokers tagged "" when the group has none. A formal decision gets the formal invokers tagged "", or the group's invokers when there is no formal one. The call is consistent with that group. |
| GrayComponent.SelectByEaResolvesGroup | gray-core/src/main/java/com/huangyuan/open/gray/common/component/GrayComponent.java:52-67 | With a tenant, tenant routing follows the group the tenant resolver gives; without one, it follows the consumer-application resolver's group for the first invoker's application. |
| GrayComponent.SelectByIpAndApplication | gray-core/src/main/java/com/huangyuan/open/gray/common/component/GrayComponent.java:80-109 | Topology routing is decided by the interface or machine check for the consumer application. A gray decision gets that application's gray-group invokers, or the formal invokers tagged "" when the group has none. A formal decision gets the formal invokers tagged "", or the group's invokers when there is no formal one. The call is consistent with that group. |
| GrayComponent.PreferredCohortWins | gray-core/src/main/java/com/huangyuan/open/gray/common/component/GrayComponent.java:291-345 | When the cohort the decision names has a member, the survivors are exactly that cohort, with the matching `group` value. |
| GrayComponent.DegradesToTheOtherCohort | gray-core/src/main/java/com/huangyuan/open/gray/common/component/GrayComponent.java:306-345 | When the preferred cohort is empty, the call degrades once to the other cohort, with that cohort's `group` value. |
| GrayComponent.WildcardGroupIsAnOrdinaryTag | gray-core/src/main/java/com/huangyuan/open/gray/common/component/GrayComponent.java:306-345 | A group resolved to "*" is matched as an ordinary tag: a gray call goes to the invokers tagged "*" when there are any, and a formal call with no formal invoker gets them and has "*" written into `group`. |
| GrayComponent.BalancerInput | gray-core/src/main/java/com/huangyuan/open/gray/common/component/GrayComponent.java:273-289 | The balancer gets an empty list only when there were no candidates. What it gets is either the full candidate list or more than one survivor. |
| GrayComponent.NoCandidatesFallsBackToBalancer | gray-core/src/main/java/com/huangyuan/open/gray/common/component/GrayComponent.java:273-279 | With no candidates, nothing survives and the balancer is handed the empty list. |
| MQListenerController.Initial | gray-core/src/main/java/com/huangyuan/open/gray/common/component/mq/MQListenerController.java:29-33 | A new controller does not listen and has no cached IP. |
| MQListenerController.StartConsume | gray-core/src/main/java/com/huangyuan/open/gray/common/component/mq/MQListenerController.java:87-97 | Afterwards the controller listens. It calls `init` on every listener, in order, only when it was not listening before. |
| MQListenerController.StopConsume | gray-core/src/main/java/com/huangyuan/open/gray/common/component/mq/MQListenerController.java:73-82 | Afterwards the controller does not listen. It calls `shutDown` on every listener, in order, only when it was listening before. |
| MQListenerController.CurrentIp | gray-core/src/main/java/com/huangyuan/open/gray/common/component/mq/MQListenerController.java:63-68 | A cached IP is returned without asking the host. Otherwise the host's answer is cached and returned. |
| MQListenerController.Reload | gray-core/src/main/java/com/huangyuan/open/gray/common/component/mq/MQListenerController.java:41-68 | Afterwards the controller listens exactly when the allow-list decision holds. It makes the init or shutdown round only on a change. The host is asked for its IP exactly when nothing is cached and the list is present without "all" or "ALL", and its answer is cached. |
| JavaLang.ListEntriesAreThePieces | gray-core/src/main/java/com/huangyuan/open/gray/common/component/mq/MQListenerController.java:52 | A non-empty string is an entry of the `;`/`,` split exactly when it stands in the list as a whole entry between separators. |
| MQListenerController.ShouldListen | gray-core/src/main/java/com/huangyuan/open/gray/common/component/mq/MQListenerController.java:46-59 | A missing or empty list means listen. For a non-empty IP, the controller listens exactly when "all", "ALL" or the IP stands in the list as a whole entry between separators. |
| MQListenerController.ReloadIsIdempotent | gray-core/src/main/java/com/huangyuan/open/gray/common/component/mq/MQListenerController.java:41-97 | A second reload with the same inputs changes nothing and calls no listener. |
| MQListenerController.CachedIpIsKept | gray-core/src/main/java/com/huangyuan/open/gray/common/component/mq/MQListenerController.java:63-68 | Once an IP is cached, it is kept through any reloads and the host is never asked again. |
| MQListenerController.IpAskedAtMostOnce | gray-core/src/main/java/com/huangyuan/open/gray/common/component/mq/MQListenerController.java:63-68 | When the host never answers null, any sequence of reloads asks it for its IP at most once. |
| MQListenerController.ReloadAddsARound | gray-core/src/main/java/com/huangyuan/open/gray/common/component/mq/MQListenerController.java:41-97 | One reload adds either no listener calls or exactly the next alternating round. |
| MQListenerController.RoundsAlternate | gray-core/src/main/java/com/huangyuan/open/gray/common/component/mq/MQListenerController.java:73-97 | Over any reload sequence, listener calls come in whole alternating init / shutdown rounds. The state matches the parity of the round count. |
| MQListenerController.FreshControllerAlternates | gray-core/src/main/java/com/huangyuan/open/gray/common/component/mq/MQListenerController.java:31-97 | From a new controller, the listener log is always whole alternating rounds that start with `init` and end in the current state. |
| AutoConfRocketMQ.New | gray-core/src/main/java/com/huangyuan/open/gray/common/component/mq/AutoConfRocketMQ.java:38-50 | The constructor fails with the four arguments exactly when one of them is null, empty or whitespace. Otherwise it keeps the keys, and the loaded values start out null. |
| AutoConfRocketMQ.SegmentEntry | gray-core/src/main/java/com/huangyuan/open/gray/common/component/mq/AutoConfRocketMQ.java:69-76 | A segment's topic, when it has one, is non-empty and colon-free; its tag is "*" or a non-empty colon-free piece. |
| AutoConfRocketMQ.PutSegments | gray-core/src/main/java/com/huangyuan/open/gray/common/component/mq/AutoConfRocketMQ.java:67-77 | Putting segments never drops a topic already in the map. Which keys appear and which tag wins are stated by `PutSegmentsKeys` and `LastSegmentWins`. |
| AutoConfRocketMQ.ParseTopics | gray-core/src/main/java/com/huangyuan/open/gray/common/component/mq/AutoConfRocketMQ.java:60-64 | A blank topic string parses to the empty map. |
| JavaLang.SplitDroppingEmptyAreThePieces | gray-core/src/main/java/com/huangyuan/open/gray/common/component/mq/AutoConfRocketMQ.java:65-69 | The entries of `StringUtils.split` are exactly the non-empty pieces between separators, so empty tokens never appear. |
| AutoConfRocketMQ.PutSegmentsKeys | gray-core/src/main/java/com/huangyuan/open/gray/common/component/mq/AutoConfRocketMQ.java:67-77 | The parsed map's keys are exactly the topics some segment names. |
| AutoConfRocketMQ.LastSegmentWins | gray-core/src/main/java/com/huangyuan/open/gray/common/component/mq/AutoConfRocketMQ.java:67-77 | When later segments name the same topic, the last one's tag is the one kept. |
| AutoConfRocketMQ.ParsedTopicsComeFromPieces | gray-core/src/main/java/com/huangyuan/open/gray/common/component/mq/AutoConfRocketMQ.java:60-79 | A topic is parsed exactly when some non-empty comma piece of the input names it, and every parsed topic is non-empty and colon-free. |
| AutoConfRocketMQ.SegmentSkippedIffColonsOnly | gray-core/src/main/java/com/huangyuan/open/gray/common/component/mq/AutoConfRocketMQ.java:69-71 | A segment contributes nothing exactly when it is empty or made only of colons. |
| AutoConfRocketMQ.BareSegmentTakesAllTags | gray-core/src/main/java/com/huangyuan/open/gray/common/component/mq/AutoConfRocketMQ.java:72-73 | A non-empty segment without a colon names itself with the tag "*". |
| AutoConfRocketMQ.BareTopicTakesAllTags | gray-core/src/main/java/com/huangyuan/open/gray/common/component/mq/AutoConfRocketMQ.java:65-73 | A topic string with no comma or colon maps that topic to "*". |
| AutoConfRocketMQ.ParsedTagIsLastNamingSegments | gray-core/src/main/java/com/huangyuan/open/gray/common/component/mq/AutoConfRocketMQ.java:65-78 | In a parsed string, a comma piece's topic maps to that piece's tag when no later piece names the same topic. |
| AutoConfRocketMQ.BareSegmentAmongOthersTakesAllTags | gray-core/src/main/java/com/huangyuan/open/gray/common/component/mq/AutoConfRocketMQ.java:65-78 | A colon-free comma piece maps to "*" among any other pieces, unless a later piece names the same topic. |
| AutoConfRocketMQ.TopicWithTag | gray-core/src/main/java/com/huangyuan/open/gray/common/component/mq/AutoConfRocketMQ.java:69-75 | A segment "t:x" or "t:x:…" maps `t` to `x`; pieces after the second are ignored. |
| AutoConfRocketMQ.GetTopic | gray-core/src/main/java/com/huangyuan/open/gray/common/component/mq/AutoConfRocketMQ.java:93-100 | With no topics loaded, the result is null. With topics, it throws exactly when the map is empty, and otherwise returns the first key of the iteration order, which is a key of the map. |
| AutoConfRocketMQ.GetTopics | gray-core/src/main/java/com/huangyuan/open/gray/common/component/mq/AutoConfRocketMQ.java:89-91 | `getTopics` throws exactly when no topics are loaded, and otherwise gives the loaded map. |
| AutoConfRocketMQ.FreshConsumerHasNoTopics | gray-core/src/main/java/com/huangyuan/open/gray/common/component/mq/AutoConfRocketMQ.java:38-50 | On a freshly constructed consumer, `getTopic` answers null and `getTopics` throws, because nothing loads topics. |

## Left out

- Logging through SLF4J: it has no behavioural effect.
- Concurrency: the `volatile` fields and concurrent calls are not modelled. Every operation is a single-threaded step.
- Reflection and Dubbo types: the reflective `providerUrl` read, `URL`, `Invoker` and `Invocation` are reduced to records with parameter maps. A failed read is the `Unreadable` URL.
- `JavaLang.EqualsIgnoreCase`: folds only ASCII letters. Java also folds other Unicode letters, which cannot be expressed without Unicode tables.
- `JavaLang.IsWhitespace`: follows `Character.isWhitespace` on the characters it lists; it does not consult Unicode tables.
- Collaborator exceptions the code does not catch are not modelled. These come from `checkGrayFsEa`, `justGaryByIpAndApplication`, the two group resolvers, `CustomLoadBalance.superFilterSelect`, `Jedis.get` and `GrayHandlerHelper.getLocalIp`; in Java they propagate to the caller. The collaborators are modelled as total functions.
- A listener whose `init` or `shutDown` throws ends the `forEach` early, so the state flag is not flipped and later listeners are not called. Listener calls are recorded as always completing.
- `setGroupInfo` and `setFormalServiceGroup` catch exceptions from attachment maps that are null or read-only. Attachments here are always an ordinary map, so those paths do not arise.
- A null forced-interface list behaves as an empty one (`CollectionUtils.isEmpty`). The model gives the lookup a list or a thrown exception.
- The `url` argument of the entry points is opaque: only its parameter map is passed through to the load balancer.
- `setApplicationContext`: the registered listeners are an input list of identities. Spring wiring is not modelled.
- `AutoConfRocketMQProcessor`: RocketMQ client lifecycle plumbing; only the `init` / `shutDown` calls made on it are recorded.
- `AutoConfRocketMQ.init` is an empty placeholder and `doReload` / `shutDown` are abstract, so nothing of them is modelled. `getGuid` draws a random UUID and is left out.
- `getNameServer` and `getGroupName` are plain getters of fields nothing in this code sets, so they are not modelled.
- `AutoConfRocketMQ.GetTopic`: a `HashMap`'s iteration order is unspecified, so the order is an input; which key comes first is not modelled.
- `MQListenerController.ShouldListen`: the whole-entry reading is stated for a non-empty IP. An empty IP would match an inner empty entry, which the whole-piece reading does not single out.
