/** Properties of the main loop, `while (1) { tud_task(); stream(); }`,
    seen as a sequence of receive callbacks and calls to `stream()`. */
module LoopFacts {
  import opened Wire
  import opened Peripherals
  import opened Framing
  import opened Machine
  import opened RxFacts

  lemma {:induction false} RunAppend(s: State, a: seq<Event>, b: seq<Event>)
    ensures Run(s, a + b) == Run(Run(s, a), b)
    decreases |a|
  {
    if a == [] {
      assert a + b == b;
    } else {
      assert (a + b)[0] == a[0];
      assert (a + b)[1..] == a[1..] + b;
      RunAppend(Step(s, a[0]), a[1..], b);
    }
  }

  /** One more event is one more step. */
  lemma RunSnoc(s: State, a: seq<Event>, e: Event)
    ensures Run(s, a + [e]) == Step(Run(s, a), e)
  {
    RunAppend(s, a, [e]);
    assert [e][1..] == [];
  }

  /** The stream cursor never passes its limit. (That `++stream_offset`
      cannot wrap follows from the `stream_offset < stream_end` guard in
      front of it, which `StreamStep` tests before adding one.) */
  lemma {:induction false} RunKeepsInv(s: State, events: seq<Event>)
    requires Inv(s)
    ensures Inv(Run(s, events))
    decreases |events|
  {
    if events != [] {
      RunKeepsInv(Step(s, events[0]), events[1..]);
    }
  }

  /** `t` is `u` with some prefix removed. */
  predicate IsSuffix(t: seq<byte>, u: seq<byte>)
  {
    |t| <= |u| && t == u[|u| - |t|..]
  }

  lemma SuffixAppend(t: seq<byte>, u: seq<byte>, y: seq<byte>)
    requires IsSuffix(t, u)
    ensures IsSuffix(t + y, u + y)
  {
    assert (u + y)[|u + y| - |t + y|..] == u[|u| - |t|..] + y;
  }

  lemma SuffixTransitive(a: seq<byte>, b: seq<byte>, c: seq<byte>)
    requires IsSuffix(a, b) && IsSuffix(b, c)
    ensures IsSuffix(a, c)
  {
    assert a == c[|c| - |a|..];
  }

  /** What steps may do to the channels while the host sends `arrived`:
      append output and effects, and consume the FIFO, with those bytes
      added at its end, only from the front. */
  predicate Extends(s: State, t: State, arrived: seq<byte>)
  {
    s.outbound <= t.outbound && s.effects <= t.effects && IsSuffix(t.inbound, s.inbound + arrived)
  }

  lemma StepExtends(s: State, e: Event)
    ensures Extends(s, Step(s, e), Sent(e))
  {
    match e
    case Received(bytes, env) =>
      var a := Arrive(s, bytes);
      var t := RxStep(a, env);
      assert t.inbound == a.inbound[|a.inbound| - |t.inbound|..];
    case Polled(capacity, env) =>
      assert s.inbound + [] == s.inbound;
      assert s.inbound[0..] == s.inbound;
  }

  lemma ExtendsTransitive(a: State, b: State, c: State, x: seq<byte>, y: seq<byte>)
    requires Extends(a, b, x) && Extends(b, c, y)
    ensures Extends(a, c, x + y)
  {
    SuffixAppend(b.inbound, a.inbound + x, y);
    AppendAssociative(a.inbound, x, y);
    SuffixTransitive(c.inbound, b.inbound + y, a.inbound + (x + y));
  }

  /** The outbound channel and the effect log are append-only, and the only
      bytes that join the inbound FIFO are the host's, which are consumed in
      the order they were sent, from the front. */
  lemma {:induction false} RunOnlyAppends(s: State, events: seq<Event>)
    ensures Extends(s, Run(s, events), Arrivals(events))
    decreases |events|
  {
    if events == [] {
      assert s.inbound + [] == s.inbound;
      assert s.inbound[0..] == s.inbound;
    } else {
      var next := Step(s, events[0]);
      StepExtends(s, events[0]);
      RunOnlyAppends(next, events[1..]);
      ExtendsTransitive(s, next, Run(next, events[1..]), Sent(events[0]), Arrivals(events[1..]));
    }
  }

  lemma StepRebooted(s: State, e: Event)
    requires s.rebooted
    ensures Step(s, e) == s.(inbound := s.inbound + Sent(e))
  {
    if e.Polled? {
      assert s.inbound + [] == s.inbound;
    }
  }

  /** The fields a run after the reboot leaves as they were. */
  predicate Halted(s: State, t: State, arrived: seq<byte>)
  {
    && t.rebooted && t.outbound == s.outbound && t.effects == s.effects
    && t.session == s.session && t.inbound == s.inbound + arrived
  }

  /** Bytes received one event at a time line up as all of them at once. */
  lemma ArrivalsAfter(pending: seq<byte>, events: seq<Event>)
    requires events != []
    ensures pending + Sent(events[0]) + Arrivals(events[1..]) == pending + Arrivals(events)
  {
    var first, rest := Sent(events[0]), Arrivals(events[1..]);
    assert Arrivals(events) == first + rest;
    AppendAssociative(pending, first, rest);
  }

  lemma AppendAssociative(a: seq<byte>, b: seq<byte>, c: seq<byte>)
    ensures a + b + c == a + (b + c)
  {
  }

  lemma {:induction false} RunHalted(s: State, events: seq<Event>)
    requires s.rebooted
    ensures Halted(s, Run(s, events), Arrivals(events))
    decreases |events|
  {
    if events == [] {
      assert s.inbound + [] == s.inbound;
    } else {
      var next := Step(s, events[0]);
      StepRebooted(s, events[0]);
      RunHalted(next, events[1..]);
      ArrivalsAfter(s.inbound, events);
    }
  }

  /** After the jump to the bootloader the firmware does nothing any more:
      whatever the host sends stays unread, and nothing else changes. */
  lemma RunAfterReboot(s: State, events: seq<Event>)
    requires s.rebooted
    ensures Run(s, events) == s.(inbound := s.inbound + Arrivals(events))
  {
    RunHalted(s, events);
  }

  /** The callback handles at most one request per transfer: if one
      transfer completes two requests, the second stays queued until the
      next transfer's callback, even an empty transfer, serves it. Only a
      reboot request in first place stops it from being served. */
  lemma TransferServesOneRequest(s: State, f: Frame, g: Frame, env: Env, env': Env)
    requires !s.rebooted && s.inbound == [] && WellFormed(f) && WellFormed(g)
    requires f.header.op != REBOOT_TO_BOOTLOADER
    ensures var t := Step(s, Received(EncodeFrame(f) + EncodeFrame(g), env));
      && t == Dispatch(s.(inbound := EncodeFrame(g)), f, env)
      && Step(t, Received([], env')) == Dispatch(t.(inbound := []), g, env')
  {
    var both := Arrive(s, EncodeFrame(f) + EncodeFrame(g));
    assert both.inbound == EncodeFrame(f) + EncodeFrame(g);
    RxDispatchesEncodedFrame(both, f, EncodeFrame(g), env);
    assert both.(inbound := EncodeFrame(g)) == s.(inbound := EncodeFrame(g));
    var t := Dispatch(s.(inbound := EncodeFrame(g)), f, env);
    var next := Arrive(t, []);
    assert next.inbound == EncodeFrame(g) + [];
    RxDispatchesEncodedFrame(next, g, [], env');
    assert next.(inbound := []) == t.(inbound := []);
  }

  /** A REBOOT_TO_BOOTLOADER request, even in the middle of a stream, ends
      all protocol activity: whatever the loop does afterwards, no byte is
      written and no peripheral is called. */
  lemma RebootHaltsStream(s: State, env: Env, events: seq<Event>)
    requires !s.rebooted && |s.inbound| >= HeaderSize && s.inbound[0] == REBOOT_TO_BOOTLOADER
    ensures var t := Run(RxStep(s, env), events);
      t.rebooted && t.outbound == s.outbound && t.effects == s.effects
  {
    var f := Parse(s.inbound).frame;
    assert s.inbound[..HeaderSize] == EncodeHeader(f.header);
    assert f.header.op == REBOOT_TO_BOOTLOADER;
    RunAfterReboot(RxStep(s, env), events);
  }
}
