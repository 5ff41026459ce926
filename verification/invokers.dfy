/**
  Candidate provider endpoints ("invokers") as the gray component sees them,
  and the two cohort filters `findFormalService` and `findGrayService`.

  An invoker's metadata lives in URL parameter maps. The provider URL is
  read reflectively and that read may throw; the consumer-side URL comes
  from `getUrl` and may be unusable as well. A failed read is `Unreadable`.
 */
module Invokers {
  import opened JavaLang

  /** URL parameters; a value may be null. */
  type Params = map<string, JString>

  datatype UrlView = Unreadable | Readable(params: Params)

  /** `id` stands for the opaque transport handle. */
  datatype Invoker = Invoker(id: nat, url: UrlView, providerUrl: UrlView)

  /** The call; only its attachment map matters to routing. */
  datatype Invocation = Invocation(attachments: Params)

  const GROUP_KEY: string := "group"
  const DEFAULT_GROUP_KEY: string := "default.group"
  const APPLICATION_KEY: string := "application"

  /** The provider's `default.group` parameter, or `Threw` when its URL cannot be read. */
  function GroupTag(e: Invoker): (t: Try<JString>)
    ensures t.Threw? <==> e.providerUrl.Unreadable?
    ensures e.providerUrl.Readable? ==> t == Returned(Get(e.providerUrl.params, DEFAULT_GROUP_KEY))
  {
    match e.providerUrl
    case Unreadable => Threw
    case Readable(params) => Returned(Get(params, DEFAULT_GROUP_KEY))
  }

  /** A formal (stable) provider: readable metadata and a null or empty group tag. */
  predicate IsFormal(e: Invoker) {
    GroupTag(e).Returned? && IsEmpty(GroupTag(e).value)
  }

  /**
    A provider of gray group `grayGroup`: readable metadata, a non-empty tag,
    and a tag equal to the group ignoring case. A null `grayGroup` throws on
    the comparison, which the loop catches, so it matches nothing.
   */
  predicate MatchesGray(e: Invoker, grayGroup: JString) {
    && GroupTag(e).Returned?
    && !IsEmpty(GroupTag(e).value)
    && grayGroup.Some?
    && EqualsIgnoreCase(grayGroup.value, GroupTag(e).value.value)
  }

  /** The formal invokers, in input order. */
  function FormalOf(invokers: seq<Invoker>): seq<Invoker> {
    Filter(invokers, IsFormal)
  }

  /** The invokers of gray group `grayGroup`, in input order. */
  function GrayOf(invokers: seq<Invoker>, grayGroup: JString): seq<Invoker> {
    Filter(invokers, e => MatchesGray(e, grayGroup))
  }

  /** No invoker is both formal and gray, whatever the group. */
  lemma FormalAndGrayAreDisjoint(invokers: seq<Invoker>, grayGroup: JString)
    ensures forall e :: e in FormalOf(invokers) ==> e !in GrayOf(invokers, grayGroup)
  {
  }

  /** An empty or null group name selects no gray invoker. */
  lemma EmptyGroupMatchesNothing(invokers: seq<Invoker>, grayGroup: JString)
    requires IsEmpty(grayGroup)
    ensures GrayOf(invokers, grayGroup) == []
  {
    FilterRejectingAll(invokers, e => MatchesGray(e, grayGroup));
  }

  /**
    `findFormalService`: appends to `formalInvokers` every invoker whose
    group tag is null or empty, in order; an invoker whose metadata cannot
    be read is skipped and the loop goes on.
   */
  method FindFormalService(invokers: seq<Invoker>, formalInvokers: seq<Invoker>) returns (out: seq<Invoker>)
    ensures out == formalInvokers + FormalOf(invokers)
  {
    out := formalInvokers;
    for i := 0 to |invokers|
      invariant out == formalInvokers + FormalOf(invokers[..i])
    {
      var e := invokers[i];
      assert invokers[..i + 1][..i] == invokers[..i];
      match GroupTag(e)
      case Threw =>
      case Returned(group) =>
        if IsEmpty(group) {
          out := out + [e];
        }
    }
    assert invokers[..|invokers|] == invokers;
  }

  /**
    `findGrayService`: appends to `grayInvokers` every invoker whose group
    tag is non-empty and equal to `grayGroup` ignoring case, in order; an
    invoker whose metadata cannot be read, or a null `grayGroup`, throws
    inside the loop body, is caught, and only that invoker is skipped.
   */
  method FindGrayService(invokers: seq<Invoker>, grayInvokers: seq<Invoker>, grayGroup: JString)
    returns (out: seq<Invoker>)
    ensures out == grayInvokers + GrayOf(invokers, grayGroup)
  {
    out := grayInvokers;
    for i := 0 to |invokers|
      invariant out == grayInvokers + GrayOf(invokers[..i], grayGroup)
    {
      var e := invokers[i];
      assert invokers[..i + 1][..i] == invokers[..i];
      match GroupTag(e)
      case Threw =>
      case Returned(group) =>
        if !IsEmpty(group) {
          match grayGroup
          case None =>
          case Some(g) =>
            if EqualsIgnoreCase(g, group.value) {
              out := out + [e];
            }
        }
    }
    assert invokers[..|invokers|] == invokers;
  }
}
