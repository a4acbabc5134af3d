/** Properties of the streaming read engine, `StreamStep`, one call at a
    time and over a whole session. */
module StreamFacts {
  import opened Wire
  import opened Peripherals
  import opened Machine

  /** With no session active, a call changes nothing. */
  lemma StreamIdle(s: State, capacity: nat, env: Env)
    requires !s.session.active
    ensures StreamStep(s, capacity, env) == s
  {
  }

  /** A session whose cursor has reached its limit is closed and nothing is
      written, whatever the outbound capacity. */
  lemma StreamFinishes(s: State, capacity: nat, env: Env)
    requires !s.rebooted && s.session.active && s.session.cursor >= s.session.limit
    ensures StreamStep(s, capacity, env) == s.(session := s.session.(active := false))
  {
  }

  /** With less than one frame of outbound space, an unfinished session
      waits: nothing is read, written or advanced. */
  lemma StreamDefers(s: State, capacity: nat, env: Env)
    requires s.session.cursor < s.session.limit && capacity < StreamFrameSize
    ensures StreamStep(s, capacity, env) == s
  {
  }

  /** A successful block read sends the 532-byte frame (a zero status word,
      the page data, the spare area) and advances the cursor by one. */
  lemma StreamSendsBlock(s: State, capacity: nat, env: Env)
    requires !s.rebooted && s.session.active && s.session.cursor < s.session.limit
    requires capacity >= StreamFrameSize
    requires env.readBlock(s.session.cursor).status == 0
    ensures var t, r := StreamStep(s, capacity, env), env.readBlock(s.session.cursor);
      && t == s.(outbound := s.outbound + StreamFrame(r), session := s.session.(cursor := s.session.cursor + 1))
      && StreamFrame(r) == [0, 0, 0, 0] + r.data + r.spare
      && |t.outbound| == |s.outbound| + 532
  {
  }

  /** A failed block read sends the four status bytes alone and ends the
      session where it stood. */
  lemma StreamAborts(s: State, capacity: nat, env: Env)
    requires !s.rebooted && s.session.active && s.session.cursor < s.session.limit
    requires capacity >= StreamFrameSize
    requires env.readBlock(s.session.cursor).status != 0
    ensures var t, r := StreamStep(s, capacity, env), env.readBlock(s.session.cursor);
      && t == s.(outbound := s.outbound + LE32(r.status), session := s.session.(active := false))
      && |t.outbound| == |s.outbound| + 4
  {
  }

  /** Consecutive calls to `stream()`, one per capacity reading, with the
      same peripheral answers. */
  function RunStream(s: State, capacities: seq<nat>, env: Env): State
    decreases |capacities|
  {
    if capacities == [] then s else RunStream(StreamStep(s, capacities[0], env), capacities[1..], env)
  }

  /** The main-loop events those calls are. */
  function Polls(capacities: seq<nat>, env: Env): (events: seq<Event>)
    ensures |events| == |capacities|
  {
    if capacities == [] then [] else [Polled(capacities[0], env)] + Polls(capacities[1..], env)
  }

  /** Running the stream engine alone is running the main loop on those
      events. */
  lemma {:induction false} RunStreamIsRun(s: State, capacities: seq<nat>, env: Env)
    ensures RunStream(s, capacities, env) == Run(s, Polls(capacities, env))
    decreases |capacities|
  {
    if capacities != [] {
      var events := Polls(capacities, env);
      assert events[0] == Polled(capacities[0], env);
      assert events[1..] == Polls(capacities[1..], env);
      RunStreamIsRun(StreamStep(s, capacities[0], env), capacities[1..], env);
    }
  }

  lemma {:induction false} RunStreamAppend(s: State, a: seq<nat>, b: seq<nat>, env: Env)
    ensures RunStream(s, a + b, env) == RunStream(RunStream(s, a, env), b, env)
    decreases |a|
  {
    if a == [] {
      assert a + b == b;
    } else {
      assert (a + b)[0] == a[0];
      assert (a + b)[1..] == a[1..] + b;
      RunStreamAppend(StreamStep(s, a[0], env), a[1..], b, env);
    }
  }

  /** The frames of blocks `from .. to`, in block order. */
  function Frames(env: Env, from: u32, to: u32): (frames: seq<byte>)
    requires from <= to
    ensures |frames| == StreamFrameSize * (to as int - from as int)
    decreases (to as int) - (from as int)
  {
    if from == to then [] else StreamFrame(env.readBlock(from)) + Frames(env, from + 1, to)
  }

  /** Block `from + i` is the `i`-th frame: nothing is dropped or reordered. */
  lemma {:induction false} FramesAt(env: Env, from: u32, to: u32, i: nat)
    requires (from as int) + i < (to as int)
    ensures Frames(env, from, to)[StreamFrameSize * i..StreamFrameSize * (i + 1)]
         == StreamFrame(env.readBlock((from as int + i) as u32))
    decreases i
  {
    var head := StreamFrame(env.readBlock(from));
    var tail := Frames(env, from + 1, to);
    if i == 0 {
      assert Frames(env, from, to)[..StreamFrameSize] == head;
    } else {
      FramesAt(env, from + 1, to, i - 1);
      assert Frames(env, from, to)[StreamFrameSize * i..StreamFrameSize * (i + 1)]
          == tail[StreamFrameSize * (i - 1)..StreamFrameSize * i];
    }
  }

  predicate ReadsSucceed(env: Env, from: u32, to: u32)
  {
    forall lba: u32 :: from <= lba < to ==> env.readBlock(lba).status == 0
  }

  /** Every capacity reading leaves room for a whole frame. */
  predicate Roomy(capacities: seq<nat>)
  {
    forall i :: 0 <= i < |capacities| ==> capacities[i] >= StreamFrameSize
  }

  /** With room for every frame and no failed read, one call per remaining
      block sends the remaining blocks' frames in order and brings the
      cursor to the limit, the session still open. */
  lemma {:induction false} StreamDeliversRange(s: State, capacities: seq<nat>, env: Env)
    requires !s.rebooted && s.session.active && Inv(s)
    requires ReadsSucceed(env, s.session.cursor, s.session.limit)
    requires |capacities| == (s.session.limit as int) - (s.session.cursor as int) && Roomy(capacities)
    ensures RunStream(s, capacities, env)
         == s.(outbound := s.outbound + Frames(env, s.session.cursor, s.session.limit),
               session := s.session.(cursor := s.session.limit))
    decreases |capacities|
  {
    if capacities == [] {
      assert s.outbound + [] == s.outbound;
    } else {
      var c, limit := s.session.cursor, s.session.limit;
      var frame := StreamFrame(env.readBlock(c));
      var next := s.(outbound := s.outbound + frame, session := s.session.(cursor := c + 1));
      assert env.readBlock(c).status == 0;
      StreamSendsBlock(s, capacities[0], env);
      StreamDeliversRange(next, capacities[1..], env);
      assert Frames(env, c, limit) == frame + Frames(env, c + 1, limit);
      assert next.outbound + Frames(env, c + 1, limit) == s.outbound + Frames(env, c, limit);
    }
  }

  /** Once the session is closed, or the device has rebooted, no call
      writes anything again. */
  lemma {:induction false} StreamStaysIdle(s: State, capacities: seq<nat>, env: Env)
    requires s.rebooted || !s.session.active
    ensures RunStream(s, capacities, env) == s
    decreases |capacities|
  {
    if capacities != [] {
      StreamStaysIdle(s, capacities[1..], env);
    }
  }

  /** A session started with limit `n` and never failing sends exactly `n`
      frames, block 0 first, in `n` calls, and the next call closes it,
      whether or not the channel has room by then. The same holds of the
      main loop making those calls. */
  lemma StreamWholeSession(s: State, n: u32, capacities: seq<nat>, env: Env)
    requires !s.rebooted && s.session == Session(true, 0, n)
    requires ReadsSucceed(env, 0, n)
    requires |capacities| == (n as int) + 1 && Roomy(capacities[..n])
    ensures var t := RunStream(s, capacities, env);
      && t == s.(outbound := s.outbound + Frames(env, 0, n), session := Session(false, n, n))
      && |t.outbound| == |s.outbound| + 532 * (n as int)
      && Run(s, Polls(capacities, env)) == t
  {
    RunStreamIsRun(s, capacities, env);
    var mid := s.(outbound := s.outbound + Frames(env, 0, n), session := Session(true, n, n));
    RunStreamAppend(s, capacities[..n], capacities[n..], env);
    assert capacities[..n] + capacities[n..] == capacities;
    StreamDeliversRange(s, capacities[..n], env);
    StreamStaysIdle(StreamStep(mid, capacities[n], env), capacities[(n as int) + 1..], env);
  }

  /** If block `k` is the first to fail, the host gets exactly the frames
      of the blocks before it, then the four-byte failure status, and the
      session is over, in the main loop as in the engine alone. */
  lemma StreamFailsAt(s: State, k: u32, capacities: seq<nat>, env: Env)
    requires !s.rebooted && s.session.active && s.session.cursor <= k < s.session.limit
    requires ReadsSucceed(env, s.session.cursor, k) && env.readBlock(k).status != 0
    requires |capacities| == (k as int) - (s.session.cursor as int) + 1 && Roomy(capacities)
    ensures RunStream(s, capacities, env)
         == s.(outbound := s.outbound + Frames(env, s.session.cursor, k) + LE32(env.readBlock(k).status),
               session := s.session.(active := false, cursor := k))
    ensures Run(s, Polls(capacities, env)) == RunStream(s, capacities, env)
  {
    RunStreamIsRun(s, capacities, env);
    var m := (k as int) - (s.session.cursor as int);
    var early := s.(session := s.session.(limit := k));
    var mid := s.(outbound := s.outbound + Frames(env, s.session.cursor, k), session := s.session.(cursor := k));
    RunStreamAppend(s, capacities[..m], capacities[m..], env);
    assert capacities[..m] + capacities[m..] == capacities;
    StreamDeliversRange(early, capacities[..m], env);
    SameRunWithLaterLimit(s, capacities[..m], env, k);
    assert capacities[m..][1..] == [];
  }

  /** Up to a limit `k` it has not reached, a session runs the same as one
      whose limit is `k`. */
  lemma {:induction false} SameRunWithLaterLimit(s: State, capacities: seq<nat>, env: Env, k: u32)
    requires !s.rebooted && s.session.active && s.session.cursor <= k <= s.session.limit
    requires ReadsSucceed(env, s.session.cursor, k)
    requires |capacities| == (k as int) - (s.session.cursor as int) && Roomy(capacities)
    ensures var early := s.(session := s.session.(limit := k));
      RunStream(s, capacities, env)
      == RunStream(early, capacities, env).(session := RunStream(early, capacities, env).session.(limit := s.session.limit))
    decreases |capacities|
  {
    if capacities != [] {
      var early := s.(session := s.session.(limit := k));
      SameRunWithLaterLimit(StreamStep(s, capacities[0], env), capacities[1..], env, k);
      assert StreamStep(early, capacities[0], env)
          == StreamStep(s, capacities[0], env).(session := StreamStep(s, capacities[0], env).session.(limit := k));
    }
  }

  /** The capacity readings that leave room for a frame. */
  function RoomyOnly(capacities: seq<nat>): (r: seq<nat>)
    ensures Roomy(r) && |r| <= |capacities|
  {
    if capacities == [] then []
    else if capacities[0] >= StreamFrameSize then [capacities[0]] + RoomyOnly(capacities[1..])
    else RoomyOnly(capacities[1..])
  }

  /** `a` is `b`, or `b` with its finished session already closed. */
  predicate SameUpToClosing(a: State, b: State)
  {
    a == b || (b.session.active && b.session.cursor >= b.session.limit
               && a == b.(session := b.session.(active := false)))
  }

  /** Deferral neither drops nor reorders frames: calls made without room
      for a frame can be left out altogether, and the output is the same.
      The only difference is that a call made without room may still close
      a session that has reached its limit. */
  lemma {:induction false} DeferralIsInvisible(a: State, b: State, capacities: seq<nat>, env: Env)
    requires SameUpToClosing(a, b)
    ensures SameUpToClosing(RunStream(a, capacities, env), RunStream(b, RoomyOnly(capacities), env))
    decreases |capacities|
  {
    if capacities != [] {
      var a' := StreamStep(a, capacities[0], env);
      if capacities[0] >= StreamFrameSize {
        assert RoomyOnly(capacities)[1..] == RoomyOnly(capacities[1..]);
        DeferralIsInvisible(a', StreamStep(b, capacities[0], env), capacities[1..], env);
      } else {
        DeferralIsInvisible(a', b, capacities[1..], env);
      }
    }
  }

  /** The same stream output, with or without deferred calls. */
  lemma DeferralKeepsOutput(s: State, capacities: seq<nat>, env: Env)
    ensures RunStream(s, capacities, env).outbound == RunStream(s, RoomyOnly(capacities), env).outbound
    ensures RunStream(s, capacities, env).session.cursor == RunStream(s, RoomyOnly(capacities), env).session.cursor
  {
    DeferralIsInvisible(s, s, capacities, env);
  }
}
