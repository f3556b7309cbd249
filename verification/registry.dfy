/**
 * The notification registry: the ordered list of registered sinks with the
 * reference counts the registry takes on them, registration, removal, and
 * the synchronous fan-out of one event to every registered sink.
 */
module Registry {
  import opened Types

  /** The ordered sink list and the reference counts held on each sink.
      `refs` counts references by multiplicity: AddRef adds one occurrence,
      Release removes one. Sinks are compared by identity, as the source
      compares interface pointers. */
  datatype Registry<S> = Registry(sinks: seq<S>, refs: multiset<S>)

  /** The result code of a call together with the registry after it. */
  datatype Outcome<S> = Outcome(code: HResult, reg: Registry<S>)

  predicate NoDup<S(==)>(xs: seq<S>)
  {
    forall i, j :: 0 <= i < j < |xs| ==> xs[i] != xs[j]
  }

  /** Every registered sink holds exactly one reference taken by the registry
      on top of the references `base` that its owners hold. */
  predicate Accounted<S(==)>(reg: Registry<S>, base: multiset<S>)
  {
    reg.refs == base + multiset(reg.sinks)
  }

  /** std::find: the position of the first occurrence of `s`, or |xs| when
      there is none. */
  function IndexOf<S(==)>(xs: seq<S>, s: S): (k: nat)
    ensures k <= |xs|
    ensures forall j :: 0 <= j < k ==> xs[j] != s
    ensures k < |xs| ==> xs[k] == s
    ensures k == |xs| <==> s !in xs
  {
    if |xs| == 0 then 0
    else if xs[0] == s then 0
    else 1 + IndexOf(xs[1..], s)
  }

  /** Register: appends a sink that is absent and takes one reference on it;
      a sink that is already present is only logged. Both cases report
      ERROR_NONE. */
  function Register<S(==)>(reg: Registry<S>, s: S): (r: Outcome<S>)
    ensures r.code == ErrorNone
    ensures s !in reg.sinks ==> r.reg.sinks == reg.sinks + [s]
    ensures s !in reg.sinks ==> r.reg.refs == reg.refs + multiset{s}
    ensures s in reg.sinks ==> r.reg == reg
    ensures s in r.reg.sinks
    ensures NoDup(reg.sinks) ==> NoDup(r.reg.sinks)
  {
    if IndexOf(reg.sinks, s) == |reg.sinks| then
      Outcome(ErrorNone, Registry(reg.sinks + [s], reg.refs + multiset{s}))
    else
      Outcome(ErrorNone, reg)
  }

  /** Unregister: erases the first entry equal to the sink and releases the
      registry's reference on it; an absent sink yields ERROR_GENERAL and no
      change. */
  function Unregister<S(==)>(reg: Registry<S>, s: S): (r: Outcome<S>)
    ensures s in reg.sinks ==> r.code == ErrorNone
    ensures s in reg.sinks ==> r.reg.refs == reg.refs - multiset{s}
    ensures s in reg.sinks ==>
      exists k :: 0 <= k < |reg.sinks| && reg.sinks[k] == s && s !in reg.sinks[..k]
        && r.reg.sinks == reg.sinks[..k] + reg.sinks[k + 1..]
    ensures s in reg.sinks ==> multiset(r.reg.sinks) == multiset(reg.sinks) - multiset{s}
    ensures s !in reg.sinks ==> r.code == ErrorGeneral && r.reg == reg
    ensures NoDup(reg.sinks) ==> NoDup(r.reg.sinks) && s !in r.reg.sinks
  {
    var k := IndexOf(reg.sinks, s);
    if k < |reg.sinks| then
      EraseFirst(reg.sinks, k);
      assert s !in reg.sinks[..k] by {
        forall j | 0 <= j < k
          ensures reg.sinks[..k][j] != s
        {
        }
      }
      Outcome(ErrorNone, Registry(reg.sinks[..k] + reg.sinks[k + 1..], reg.refs - multiset{s}))
    else
      Outcome(ErrorGeneral, reg)
  }

  /** Erasing position k of a list removes one occurrence of its element and,
      in a duplicate-free list, every occurrence. */
  lemma EraseFirst<S>(xs: seq<S>, k: nat)
    requires k < |xs|
    ensures multiset(xs[..k] + xs[k + 1..]) == multiset(xs) - multiset{xs[k]}
    ensures NoDup(xs) ==> NoDup(xs[..k] + xs[k + 1..]) && xs[k] !in xs[..k] + xs[k + 1..]
  {
    assert xs == xs[..k] + [xs[k]] + xs[k + 1..];
    assert multiset(xs) == multiset(xs[..k]) + multiset{xs[k]} + multiset(xs[k + 1..]);
    if NoDup(xs) {
      EraseKeepsNoDup(xs, k);
    }
  }

  lemma EraseKeepsNoDup<S>(xs: seq<S>, k: nat)
    requires k < |xs| && NoDup(xs)
    ensures NoDup(xs[..k] + xs[k + 1..]) && xs[k] !in xs[..k] + xs[k + 1..]
  {
    var ys := xs[..k] + xs[k + 1..];
    forall i, j | 0 <= i < j < |ys|
      ensures ys[i] != ys[j]
    {
      var i' := if i < k then i else i + 1;
      var j' := if j < k then j else j + 1;
      assert ys[i] == xs[i'] && ys[j] == xs[j'];
    }
    forall i | 0 <= i < |ys|
      ensures ys[i] != xs[k]
    {
      var i' := if i < k then i else i + 1;
      assert ys[i] == xs[i'];
    }
  }

  /** The registry's reference accounting survives both operations, and the
      list never acquires a duplicate. */
  lemma RegisterKeepsAccounting<S>(reg: Registry<S>, base: multiset<S>, s: S)
    requires Accounted(reg, base) && NoDup(reg.sinks)
    ensures Accounted(Register(reg, s).reg, base) && NoDup(Register(reg, s).reg.sinks)
  {
  }

  lemma UnregisterKeepsAccounting<S>(reg: Registry<S>, base: multiset<S>, s: S)
    requires Accounted(reg, base) && NoDup(reg.sinks)
    ensures Accounted(Unregister(reg, s).reg, base) && NoDup(Unregister(reg, s).reg.sinks)
  {
    if s in reg.sinks {
      var r := Unregister(reg, s).reg;
      assert multiset(r.sinks) == multiset(reg.sinks) - multiset{s};
      assert s in multiset(reg.sinks);
    }
  }

  /** A client request against the registry. */
  datatype Request<S> = Reg(sink: S) | Unreg(sink: S)

  /** Applies a sequence of requests in order. */
  function Apply<S(==)>(reg: Registry<S>, reqs: seq<Request<S>>): Registry<S>
    decreases |reqs|
  {
    if |reqs| == 0 then reg
    else
      var next := match reqs[0]
        case Reg(s) => Register(reg, s).reg
        case Unreg(s) => Unregister(reg, s).reg;
      Apply(next, reqs[1..])
  }

  /** From an empty registry, any history of Register and Unregister calls
      leaves a duplicate-free list in which every sink carries exactly the
      one reference its registration took: each AddRef is matched by one
      Release when the sink leaves. */
  lemma {:induction false} HistoryKeepsAccounting<S>(reg: Registry<S>, base: multiset<S>, reqs: seq<Request<S>>)
    requires Accounted(reg, base) && NoDup(reg.sinks)
    ensures Accounted(Apply(reg, reqs), base) && NoDup(Apply(reg, reqs).sinks)
    decreases |reqs|
  {
    if |reqs| > 0 {
      match reqs[0]
      case Reg(s) =>
        RegisterKeepsAccounting(reg, base, s);
        HistoryKeepsAccounting(Register(reg, s).reg, base, reqs[1..]);
      case Unreg(s) =>
        UnregisterKeepsAccounting(reg, base, s);
        HistoryKeepsAccounting(Unregister(reg, s).reg, base, reqs[1..]);
    }
  }

  /** Unregistering a sink just registered restores the registry exactly,
      reference counts included. */
  lemma RegisterThenUnregister<S>(reg: Registry<S>, s: S)
    requires s !in reg.sinks
    ensures Unregister(Register(reg, s).reg, s) == Outcome(ErrorNone, reg)
  {
    var r := Register(reg, s).reg;
    assert IndexOf(r.sinks, s) == |reg.sinks|;
    assert r.sinks[..|reg.sinks|] == reg.sinks;
  }

  /** Registering twice is the same as registering once. */
  lemma RegisterIdempotent<S>(reg: Registry<S>, s: S)
    ensures Register(Register(reg, s).reg, s) == Register(reg, s)
  {
  }

  /** The events the implementation dispatches; `Unhandled` stands for any
      other event value, which reaches only the log. */
  datatype Event = OnAVDecoderStatusChanged | Unhandled(id: nat)

  /** One OnAVDecoderStatusChanged call made on a sink. */
  datatype Delivery<S> = Delivery(sink: S, payload: string)

  /** One call per sink, in list order. */
  function Fanout<S(==)>(sinks: seq<S>, payload: string): (ds: seq<Delivery<S>>)
    ensures |ds| == |sinks|
    ensures forall i :: 0 <= i < |ds| ==> ds[i] == Delivery(sinks[i], payload)
  {
    if |sinks| == 0 then [] else [Delivery(sinks[0], payload)] + Fanout(sinks[1..], payload)
  }

  /** Dispatch: walks the list from its head, calling every sink with the
      payload for the status-change event; other events deliver nothing.
      The registry is read, never changed. */
  method Dispatch<S(==)>(reg: Registry<S>, event: Event, payload: string) returns (delivered: seq<Delivery<S>>)
    ensures event == OnAVDecoderStatusChanged ==> delivered == Fanout(reg.sinks, payload)
    ensures event != OnAVDecoderStatusChanged ==> delivered == []
  {
    delivered := [];
    match event {
      case OnAVDecoderStatusChanged =>
        var index := 0;
        while index < |reg.sinks|
          invariant 0 <= index <= |reg.sinks|
          invariant delivered == Fanout(reg.sinks[..index], payload)
        {
          assert reg.sinks[..index + 1] == reg.sinks[..index] + [reg.sinks[index]];
          FanoutAppend(reg.sinks[..index], reg.sinks[index], payload);
          delivered := delivered + [Delivery(reg.sinks[index], payload)];
          index := index + 1;
        }
        assert reg.sinks[..index] == reg.sinks;
      case Unhandled(_) =>
    }
  }

  lemma FanoutAppend<S>(sinks: seq<S>, s: S, payload: string)
    ensures Fanout(sinks + [s], payload) == Fanout(sinks, payload) + [Delivery(s, payload)]
  {
  }

  /** The payloads, in order, that the calls in `ds` hand to sink `s`. */
  function Received<S(==)>(ds: seq<Delivery<S>>, s: S): seq<string>
  {
    if |ds| == 0 then []
    else (if ds[0].sink == s then [ds[0].payload] else []) + Received(ds[1..], s)
  }

  lemma ReceivedConcat<S>(a: seq<Delivery<S>>, b: seq<Delivery<S>>, s: S)
    ensures Received(a + b, s) == Received(a, s) + Received(b, s)
  {
    if |a| > 0 {
      assert (a + b)[1..] == a[1..] + b;
      assert (a + b)[0] == a[0];
      ReceivedConcat(a[1..], b, s);
      assert Received(a + b, s) == (if a[0].sink == s then [a[0].payload] else []) + Received(a[1..] + b, s);
    } else {
      assert a + b == b;
    }
  }

  /** With no duplicates in the list, a fan-out reaches each registered sink
      exactly once and every other sink never. */
  lemma {:induction false} FanoutReachesEachOnce<S>(sinks: seq<S>, payload: string, s: S)
    requires NoDup(sinks)
    ensures Received(Fanout(sinks, payload), s) == if s in sinks then [payload] else []
    decreases |sinks|
  {
    if |sinks| > 0 {
      var ds := Fanout(sinks, payload);
      assert ds[1..] == Fanout(sinks[1..], payload);
      assert NoDup(sinks[1..]);
      FanoutReachesEachOnce(sinks[1..], payload, s);
      if sinks[0] == s {
        assert s !in sinks[1..];
      }
    }
  }

  /** The calls made by a series of fan-outs, one per payload, in order. */
  function Broadcast<S(==)>(sinks: seq<S>, payloads: seq<string>): seq<Delivery<S>>
  {
    if |payloads| == 0 then [] else Fanout(sinks, payloads[0]) + Broadcast(sinks, payloads[1..])
  }

  /** Over a series of fan-outs each registered sink sees every payload once,
      in the order the fan-outs happened; unregistered sinks see nothing. */
  lemma {:induction false} BroadcastPreservesOrder<S>(sinks: seq<S>, payloads: seq<string>, s: S)
    requires NoDup(sinks)
    ensures Received(Broadcast(sinks, payloads), s) == if s in sinks then payloads else []
    decreases |payloads|
  {
    if |payloads| > 0 {
      ReceivedConcat(Fanout(sinks, payloads[0]), Broadcast(sinks, payloads[1..]), s);
      FanoutReachesEachOnce(sinks, payloads[0], s);
      BroadcastPreservesOrder(sinks, payloads[1..], s);
      if s in sinks {
        assert payloads == [payloads[0]] + payloads[1..];
      }
    }
  }
}
