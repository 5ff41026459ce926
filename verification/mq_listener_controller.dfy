/**
  The MQ listener switch: a machine listens to the message queue when its
  IP is on an allow-list kept in Redis (or the list says "all"/"ALL", or
  there is no list at all), and stops listening otherwise.

  The controller is a two-state machine (listening / not listening) over a
  fixed list of registered listeners. Each operation returns the next
  controller, the `init`/`shutDown` calls it made on listeners, and how many
  times it asked the host for its local IP. The Redis value (stored under
  the key "fs-eservice-cases-provider:mqlistener:iplist") and the host's
  local IP are inputs of `reloadListener`.
 */
module MQListenerController {
  import opened JavaLang

  const ALL_LOWER: string := "all"
  const ALL_UPPER: string := "ALL"

  /** A registered `AutoConfRocketMQProcessor`, by identity. */
  type ListenerId = nat

  /** A call the controller makes on a listener. */
  datatype Effect = Init(listener: ListenerId) | ShutDown(listener: ListenerId)

  datatype Controller = Controller(listeners: seq<ListenerId>, currentIsListen: bool, currentIp: JString)

  /** One operation's outcome. */
  datatype Step = Step(after: Controller, effects: seq<Effect>, ipQueries: nat)

  /** A freshly wired controller: not listening, no IP cached. */
  function Initial(listeners: seq<ListenerId>): (c: Controller)
    ensures c.listeners == listeners && !c.currentIsListen && c.currentIp.None?
  {
    Controller(listeners, false, None)
  }

  /** `init` called on every listener, in registration order. */
  function InitAll(listeners: seq<ListenerId>): seq<Effect> {
    seq(|listeners|, i requires 0 <= i < |listeners| => Init(listeners[i]))
  }

  /** `shutDown` called on every listener, in registration order. */
  function ShutDownAll(listeners: seq<ListenerId>): seq<Effect> {
    seq(|listeners|, i requires 0 <= i < |listeners| => ShutDown(listeners[i]))
  }

  /** `startConsume`: from not listening, init every listener and listen; otherwise nothing. */
  function StartConsume(c: Controller): (s: Step)
    ensures s.after == c.(currentIsListen := true) && s.ipQueries == 0
    ensures s.effects == if c.currentIsListen then [] else InitAll(c.listeners)
  {
    if c.currentIsListen then Step(c, [], 0)
    else Step(c.(currentIsListen := true), InitAll(c.listeners), 0)
  }

  /** `stopConsume`: from listening, shut every listener down and stop; otherwise nothing. */
  function StopConsume(c: Controller): (s: Step)
    ensures s.after == c.(currentIsListen := false) && s.ipQueries == 0
    ensures s.effects == if c.currentIsListen then ShutDownAll(c.listeners) else []
  {
    if c.currentIsListen then Step(c.(currentIsListen := false), ShutDownAll(c.listeners), 0)
    else Step(c, [], 0)
  }

  /** The outcome of `getCunrrentIP`: the next controller, the IP, and whether the host was asked. */
  datatype IpLookup = IpLookup(after: Controller, ip: JString, asked: bool)

  /**
    `getCunrrentIP`: a cached IP is returned without asking the host;
    otherwise the host's answer is cached and returned. A null answer
    leaves the cache empty, so the host is asked again next time.
   */
  function CurrentIp(c: Controller, localIp: JString): (r: IpLookup)
    ensures c.currentIp.Some? ==> r == IpLookup(c, c.currentIp, false)
    ensures c.currentIp.None? ==> r == IpLookup(c.(currentIp := localIp), localIp, true)
  {
    if c.currentIp.None? then IpLookup(c.(currentIp := localIp), localIp, true)
    else IpLookup(c, c.currentIp, false)
  }

  /** The IP a reload compares against: the cached one, else the host's. */
  function EffectiveIp(c: Controller, localIp: JString): JString {
    if c.currentIp.Some? then c.currentIp else localIp
  }

  /**
    Whether a machine with IP `ip` should listen, given the stored
    allow-list: yes without a list; otherwise yes exactly when an entry of
    the `;`/`,`-separated list is "all", "ALL" or the IP itself. Read
    without the tokeniser, for a non-empty IP: "all", "ALL" or the IP
    stands in the list as a whole entry between separators.
   */
  predicate ShouldListen(stored: JString, ip: JString)
    ensures IsEmpty(stored) ==> ShouldListen(stored, ip)
    ensures !IsEmpty(stored) && ip.Some? && ip.value != "" ==>
              (ShouldListen(stored, ip) <==>
                 || OccursAsPiece(stored.value, ALL_LOWER, IsListSeparator)
                 || OccursAsPiece(stored.value, ALL_UPPER, IsListSeparator)
                 || OccursAsPiece(stored.value, ip.value, IsListSeparator))
  {
    if IsEmpty(stored) then true
    else
      var entries := SplitListEntries(stored.value);
      ListEntriesAreThePieces(stored.value, ALL_LOWER);
      ListEntriesAreThePieces(stored.value, ALL_UPPER);
      if ip.Some? && ip.value != "" then
        ListEntriesAreThePieces(stored.value, ip.value);
        ALL_LOWER in entries || ALL_UPPER in entries || ip.value in entries
      else
        ALL_LOWER in entries || ALL_UPPER in entries || (ip.Some? && ip.value in entries)
  }

  /**
    `reloadListener` with the stored allow-list `stored` (the Redis value)
    and `localIp` (what the host would answer for its IP). The IP is only
    looked up when the list neither is missing nor says "all"/"ALL".
   */
  function Reload(c: Controller, stored: JString, localIp: JString): (s: Step)
    ensures s.after.listeners == c.listeners
    ensures s.after.currentIsListen == ShouldListen(stored, EffectiveIp(c, localIp))
    ensures s.effects ==
              if s.after.currentIsListen == c.currentIsListen then []
              else if s.after.currentIsListen then InitAll(c.listeners)
              else ShutDownAll(c.listeners)
    ensures s.ipQueries <= 1 && (s.ipQueries == 1 ==> c.currentIp.None?)
    ensures IsEmpty(stored) || ALL_LOWER in SplitListEntries(stored.value) || ALL_UPPER in SplitListEntries(stored.value)
            ==> s.ipQueries == 0
    ensures c.currentIp.None? && !IsEmpty(stored)
            && ALL_LOWER !in SplitListEntries(stored.value) && ALL_UPPER !in SplitListEntries(stored.value)
            ==> s.ipQueries == 1
    ensures s.after.currentIp == if s.ipQueries == 1 then localIp else c.currentIp
  {
    if IsEmpty(stored) then StartConsume(c)
    else
      var ips := SplitListEntries(stored.value);
      if ALL_LOWER in ips || ALL_UPPER in ips then StartConsume(c)
      else
        var lookup := CurrentIp(c, localIp);
        var s := if lookup.ip.Some? && lookup.ip.value in ips then StartConsume(lookup.after)
                 else StopConsume(lookup.after);
        s.(ipQueries := if lookup.asked then 1 else 0)
  }

  /** A second reload with the same inputs changes nothing and calls no listener. */
  lemma ReloadIsIdempotent(c: Controller, stored: JString, localIp: JString)
    ensures var s1 := Reload(c, stored, localIp);
            var s2 := Reload(s1.after, stored, localIp);
            s2.effects == [] && s2.after == s1.after
  {
    var s1 := Reload(c, stored, localIp);
    assert EffectiveIp(s1.after, localIp) == EffectiveIp(c, localIp);
  }

  /** Reloads in sequence; effects and IP lookups accumulate. */
  datatype ReloadInput = ReloadInput(stored: JString, localIp: JString)

  function Run(c: Controller, inputs: seq<ReloadInput>): (s: Step)
    ensures s.after.listeners == c.listeners
    decreases |inputs|
  {
    if |inputs| == 0 then Step(c, [], 0)
    else
      var first := Reload(c, inputs[0].stored, inputs[0].localIp);
      var rest := Run(first.after, inputs[1..]);
      Step(rest.after, first.effects + rest.effects, first.ipQueries + rest.ipQueries)
  }

  /** Once an IP is cached it is kept, and the host is never asked again. */
  lemma {:induction false} CachedIpIsKept(c: Controller, inputs: seq<ReloadInput>)
    requires c.currentIp.Some?
    ensures Run(c, inputs).after.currentIp == c.currentIp
    ensures Run(c, inputs).ipQueries == 0
    decreases |inputs|
  {
    if |inputs| > 0 {
      var first := Reload(c, inputs[0].stored, inputs[0].localIp);
      CachedIpIsKept(first.after, inputs[1..]);
    }
  }

  /**
    When the host never answers null, its IP is asked for at most once over
    any sequence of reloads from a fresh controller.
   */
  lemma {:induction false} IpAskedAtMostOnce(c: Controller, inputs: seq<ReloadInput>)
    requires forall i :: 0 <= i < |inputs| ==> inputs[i].localIp.Some?
    ensures Run(c, inputs).ipQueries <= 1
    ensures c.currentIp.Some? ==> Run(c, inputs).ipQueries == 0
    decreases |inputs|
  {
    if |inputs| > 0 {
      var first := Reload(c, inputs[0].stored, inputs[0].localIp);
      if c.currentIp.Some? {
        CachedIpIsKept(c, inputs);
      } else if first.ipQueries == 1 {
        CachedIpIsKept(first.after, inputs[1..]);
      } else {
        IpAskedAtMostOnce(first.after, inputs[1..]);
      }
    }
  }

  /** `n` alternating rounds of listener calls, starting with `init`. */
  function Rounds(listeners: seq<ListenerId>, n: nat): seq<Effect>
    decreases n
  {
    if n == 0 then []
    else Rounds(listeners, n - 1) + (if n % 2 == 1 then InitAll(listeners) else ShutDownAll(listeners))
  }

  /** A transition's listener calls add no round or exactly the next one. */
  lemma TransitionAddsARound(ls: seq<ListenerId>, before: bool, after: bool, effects: seq<Effect>, n: nat)
    returns (n1: nat)
    requires before <==> n % 2 == 1
    requires effects == if after == before then [] else if after then InitAll(ls) else ShutDownAll(ls)
    ensures n1 >= n
    ensures Rounds(ls, n) + effects == Rounds(ls, n1)
    ensures after <==> n1 % 2 == 1
  {
    if after == before {
      n1 := n;
      assert Rounds(ls, n) + effects == Rounds(ls, n);
    } else {
      n1 := n + 1;
    }
  }

  /** One reload adds no round or exactly the next one. */
  lemma ReloadAddsARound(c: Controller, stored: JString, localIp: JString, n: nat) returns (n1: nat)
    requires c.currentIsListen <==> n % 2 == 1
    ensures n1 >= n
    ensures Rounds(c.listeners, n) + Reload(c, stored, localIp).effects == Rounds(c.listeners, n1)
    ensures Reload(c, stored, localIp).after.currentIsListen <==> n1 % 2 == 1
  {
    var s := Reload(c, stored, localIp);
    n1 := TransitionAddsARound(c.listeners, c.currentIsListen, s.after.currentIsListen, s.effects, n);
  }

  /**
    Listener calls come in whole alternating rounds: starting from a
    controller after `n` rounds (listening exactly when `n` is odd), any
    sequence of reloads extends the log to `m` rounds, and the controller
    listens exactly when `m` is odd. No listener is ever initialised twice
    without a shutdown in between.
   */
  lemma {:induction false} RoundsAlternate(c: Controller, inputs: seq<ReloadInput>, n: nat) returns (m: nat)
    requires c.currentIsListen <==> n % 2 == 1
    ensures m >= n
    ensures Rounds(c.listeners, n) + Run(c, inputs).effects == Rounds(c.listeners, m)
    ensures Run(c, inputs).after.currentIsListen <==> m % 2 == 1
    decreases |inputs|
  {
    var s := Run(c, inputs);
    if |inputs| == 0 {
      m := n;
      assert Rounds(c.listeners, n) + s.effects == Rounds(c.listeners, n);
    } else {
      var first := Reload(c, inputs[0].stored, inputs[0].localIp);
      var rest := Run(first.after, inputs[1..]);
      assert s == Step(rest.after, first.effects + rest.effects, first.ipQueries + rest.ipQueries);
      var ls := c.listeners;
      assert first.after.listeners == ls;
      var n1 := ReloadAddsARound(c, inputs[0].stored, inputs[0].localIp, n);
      m := RoundsAlternate(first.after, inputs[1..], n1);
      LogsChain(Rounds(ls, n), first.effects, Rounds(ls, n1), rest.effects, Rounds(ls, m));
    }
  }

  /** Two logs that each extend the one before extend it together. */
  lemma LogsChain(r0: seq<Effect>, e1: seq<Effect>, r1: seq<Effect>, e2: seq<Effect>, r2: seq<Effect>)
    requires r0 + e1 == r1 && r1 + e2 == r2
    ensures r0 + (e1 + e2) == r2
  {
    assert r0 + (e1 + e2) == (r0 + e1) + e2;
  }

  /** From a fresh controller, the listener log is whole alternating rounds that end with the current state. */
  lemma FreshControllerAlternates(listeners: seq<ListenerId>, inputs: seq<ReloadInput>)
    ensures exists m: nat :: Run(Initial(listeners), inputs).effects == Rounds(listeners, m)
              && (Run(Initial(listeners), inputs).after.currentIsListen <==> m % 2 == 1)
  {
    var m := RoundsAlternate(Initial(listeners), inputs, 0);
    assert Rounds(listeners, 0) + Run(Initial(listeners), inputs).effects == Run(Initial(listeners), inputs).effects;
  }
}
