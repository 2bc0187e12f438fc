/** Which streams of DCC CV verifies enter an update. */
module EntryProofs {
  import opened Bytes
  import opened EntryPoint

  /** What the recogniser remembers after a stream of calls. */
  ghost function Run(cfg: Config, d: seq<Verify>, stream: seq<Verify>): seq<Verify>
    requires cfg.Valid()
  {
    if stream == [] then d
    else Remember(cfg, Run(cfg, d, stream[..|stream| - 1]), stream[|stream| - 1])
  }

  /** Whether call `k` of a stream fires a hook. */
  ghost predicate FiresAt(cfg: Config, d: seq<Verify>, stream: seq<Verify>, k: nat, hook: Hook)
    requires cfg.Valid() && k < |stream|
  {
    Fires(cfg, Run(cfg, d, stream[..k]), stream[k], hook)
  }

  /** Consecutive repeats removed. */
  function Condensed(stream: seq<Verify>): (r: seq<Verify>)
    ensures |r| <= |stream| && (stream != [] ==> r != [] && r[|r| - 1] == stream[|stream| - 1])
  {
    if stream == [] then []
    else
      var before := Condensed(stream[..|stream| - 1]);
      var v := stream[|stream| - 1];
      if Repeats(before, v) then before else before + [v]
  }

  /** The calls since the last clear: an unrelated address clears, and so does a call after which the calls
      since the last clear, repeats removed, no longer begin a word. */
  ghost function Since(cfg: Config, stream: seq<Verify>): seq<Verify>
    requires cfg.Valid()
  {
    if stream == [] then []
    else
      var v := stream[|stream| - 1];
      var calls := Since(cfg, stream[..|stream| - 1]) + [v];
      if IsCvAddr(v.cvAddr) && IsPrefix(cfg, Condensed(calls)) then calls else []
  }

  lemma {:induction false} SinceBeginsWord(cfg: Config, stream: seq<Verify>)
    requires cfg.Valid()
    ensures Since(cfg, stream) == [] || IsPrefix(cfg, Condensed(Since(cfg, stream)))
  {
  }

  /** The recogniser remembers exactly the calls since the last clear, repeats removed. */
  lemma {:induction false} RemembersSince(cfg: Config, stream: seq<Verify>)
    requires cfg.Valid()
    ensures Run(cfg, [], stream) == Condensed(Since(cfg, stream))
  {
    if stream != [] {
      var before, v := stream[..|stream| - 1], stream[|stream| - 1];
      RemembersSince(cfg, before);
      SinceBeginsWord(cfg, before);
      var calls := Since(cfg, before) + [v];
      assert calls[..|calls| - 1] == Since(cfg, before);
    }
  }

  /** The calls since the last clear are the latest calls of the stream. */
  lemma {:induction false} SinceIsSuffix(cfg: Config, stream: seq<Verify>) returns (older: seq<Verify>)
    requires cfg.Valid()
    ensures stream == older + Since(cfg, stream)
  {
    if Since(cfg, stream) == [] {
      older := stream;
    } else {
      var before, v := stream[..|stream| - 1], stream[|stream| - 1];
      older := SinceIsSuffix(cfg, before);
      assert stream == before + [v];
      assert Since(cfg, stream) == Since(cfg, before) + [v];
    }
  }

  /** A hook fires at a call iff that call completes a word of the calls since the last clear, repeats removed. */
  lemma {:induction false} FiresExactly(cfg: Config, stream: seq<Verify>, v: Verify, hook: Hook)
    requires cfg.Valid()
    ensures Fires(cfg, Run(cfg, [], stream), v, hook)
       <==> IsWord(cfg, hook, Condensed(Since(cfg, stream) + [v])) && !Repeats(Condensed(Since(cfg, stream)), v)
  {
    RemembersSince(cfg, stream);
    var calls := Since(cfg, stream) + [v];
    assert calls[..|calls| - 1] == Since(cfg, stream);
    if IsWord(cfg, hook, Condensed(calls)) {
      var w := Condensed(calls);
      WordAddresses(cfg, hook, w, |w| - 1);
    }
  }

  /** So what fires has been spelled by the latest calls, each call as often as one likes. */
  lemma {:induction false} FiredWordWasSpelled(cfg: Config, stream: seq<Verify>, v: Verify, hook: Hook)
    requires cfg.Valid() && Fires(cfg, Run(cfg, [], stream), v, hook)
    ensures exists j :: 0 <= j <= |stream| && IsWord(cfg, hook, Condensed((stream + [v])[j..]))
  {
    FiresExactly(cfg, stream, v, hook);
    var older := SinceIsSuffix(cfg, stream);
    assert (stream + [v])[|older|..] == Since(cfg, stream) + [v];
  }

  // ----- which spelled words fire

  lemma {:induction false} CondensedGrows(stream: seq<Verify>, k: nat)
    requires k <= |stream|
    ensures Condensed(stream[..k]) <= Condensed(stream)
  {
    if k == |stream| {
      assert stream[..k] == stream;
    } else {
      var front := stream[..|stream| - 1];
      CondensedGrows(front, k);
      assert front[..k] == stream[..k];
    }
  }

  /** While the calls begin a word, an empty memory fills with them. */
  lemma {:induction false} FollowsWord(cfg: Config, stream: seq<Verify>, hook: Hook, w: seq<Verify>)
    requires cfg.Valid() && IsWord(cfg, hook, w) && Condensed(stream) <= w
    ensures Run(cfg, [], stream) == Condensed(stream)
  {
    if stream != [] {
      var front, v := stream[..|stream| - 1], stream[|stream| - 1];
      CondensedGrows(stream, |stream| - 1);
      FollowsWord(cfg, front, hook, w);
      WordAddresses(cfg, hook, w, |Condensed(stream)| - 1);
      assert v == w[|Condensed(stream)| - 1];
      assert IsPrefix(cfg, Condensed(stream));
    }
  }

  /** From an empty memory every word, stuttered at will, fires its hook. */
  lemma {:induction false} SpelledWordFires(cfg: Config, stream: seq<Verify>, hook: Hook, w: seq<Verify>)
    returns (k: nat)
    requires cfg.Valid() && IsWord(cfg, hook, w) && Condensed(stream) == w
    ensures k < |stream| && FiresAt(cfg, [], stream, k, hook)
  {
    var front, v := stream[..|stream| - 1], stream[|stream| - 1];
    if Condensed(front) == w {
      k := SpelledWordFires(cfg, front, hook, w);
      assert stream[..k] == front[..k];
    } else {
      k := |stream| - 1;
      CondensedGrows(stream, k);
      FollowsWord(cfg, front, hook, w);
      WordAddresses(cfg, hook, w, |w| - 1);
    }
  }

  lemma {:induction false} RunConcat(cfg: Config, d: seq<Verify>, a: seq<Verify>, b: seq<Verify>)
    requires cfg.Valid()
    ensures Run(cfg, d, a + b) == Run(cfg, Run(cfg, d, a), b)
  {
    if b == [] {
      assert a + b == a;
    } else {
      var front := b[..|b| - 1];
      RunConcat(cfg, d, a, front);
      assert (a + b)[..|a + b| - 1] == a + front;
    }
  }

  /** Calls after the first fire as they do from the memory the first leaves. */
  lemma {:induction false} FiresAfterFirst(cfg: Config, d: seq<Verify>, stream: seq<Verify>, k: nat, hook: Hook)
    requires cfg.Valid() && 0 < k < |stream|
    ensures FiresAt(cfg, d, stream, k, hook) <==> FiresAt(cfg, Remember(cfg, d, stream[0]), stream[1..], k - 1, hook)
  {
    assert stream[..k] == [stream[0]] + stream[1..][..k - 1];
    RunConcat(cfg, d, [stream[0]], stream[1..][..k - 1]);
    assert [stream[0]][..0] == [];
    assert Run(cfg, d, [stream[0]]) == Remember(cfg, d, stream[0]);
  }

  /** In a stuttered word, calls to the start address are the start itself, at the very beginning. */
  lemma {:induction false} StartOnlyFirst(cfg: Config, stream: seq<Verify>, hook: Hook, w: seq<Verify>, k: nat)
    requires cfg.Valid() && IsWord(cfg, hook, w) && Condensed(stream) == w
    requires 0 < k < |stream| && stream[1] != w[0]
    ensures stream[k].cvAddr != 7 && IsCvAddr(stream[k].cvAddr)
  {
    CondensedGrows(stream, k + 1);
    CondensedGrows(stream[..k + 1], 2);
    assert stream[..k + 1][..2] == stream[..2] && stream[..2][..1] == [stream[0]];
    FirstCallIsStart(stream);
    assert Condensed(stream[..2]) == [stream[0], stream[1]];
    var n := |Condensed(stream[..k + 1])|;
    WordAddresses(cfg, hook, w, n - 1);
    assert stream[k] == Condensed(stream[..k + 1])[n - 1];
  }

  lemma {:induction false} FirstCallIsStart(stream: seq<Verify>)
    requires stream != []
    ensures Condensed(stream)[0] == stream[0] && Condensed([stream[0]]) == [stream[0]]
  {
    assert [stream[0]][..0] == [];
    assert stream[..1] == [stream[0]];
    CondensedGrows(stream, 1);
  }

  /** Nothing fires from an empty memory without a start. */
  lemma {:induction false} NoStartNoEntry(cfg: Config, stream: seq<Verify>, k: nat, hook: Hook)
    requires cfg.Valid() && forall i :: 0 <= i < |stream| ==> stream[i].cvAddr != 7
    requires k < |stream|
    ensures Run(cfg, [], stream[..k]) == [] && !FiresAt(cfg, [], stream, k, hook)
  {
    if k > 0 {
      NoStartNoEntry(cfg, stream, k - 1, hook);
      assert stream[..k][..k - 1] == stream[..k - 1];
      BeginningAddresses(cfg, [stream[k - 1]], 0);
    }
  }

  /** The calls of a beginning are at CV8, then at CV105 and CV106 in turn. */
  lemma {:induction false} BeginningAddresses(cfg: Config, p: seq<Verify>, i: nat)
    requires cfg.Valid() && i < |p|
    ensures IsPrefix(cfg, p) ==> p[i].cvAddr == if i == 0 then 7 else if i % 2 == 1 then 104 else 105
  {
    if IsPrefix(cfg, p) {
      var hook, w :| IsWord(cfg, hook, w) && p <= w;
      WordAddresses(cfg, hook, w, i);
    }
  }

  /** A start in the middle of another word clears the memory, the start included. */
  lemma {:induction false} StartClears(cfg: Config, d: seq<Verify>, start: Verify)
    requires cfg.Valid() && d != [] && IsPrefix(cfg, d) && start.cvAddr == 7 && d != [start]
    ensures Remember(cfg, d, start) == [] && forall hook :: !Fires(cfg, d, start, hook)
  {
    BeginningAddresses(cfg, d, |d| - 1);
    BeginningAddresses(cfg, d + [start], |d|);
    WordIsPrefix(cfg, d + [start]);
  }

  ghost predicate Enters(cfg: Config, d: seq<Verify>, stream: seq<Verify>, hook: Hook)
    requires cfg.Valid()
  {
    exists k :: 0 <= k < |stream| && FiresAt(cfg, d, stream, k, hook)
  }

  /** With a word half spelled before, a new word is lost exactly when its start comes once only: that call clears
      the memory and is forgotten. From an empty memory, or one that holds the start already, every word enters. */
  lemma {:induction false} WordEntersExactly(cfg: Config, d: seq<Verify>, stream: seq<Verify>, hook: Hook,
                                             w: seq<Verify>)
    requires cfg.Valid() && IsWord(cfg, hook, w) && Condensed(stream) == w
    requires |d| < MAX_SIZE && (d == [] || IsPrefix(cfg, d))
    ensures Enters(cfg, d, stream, hook) <==> d == [] || d == [w[0]] || stream[1] == w[0]
  {
    FirstCallIsStart(stream);
    WordAddresses(cfg, hook, w, 0);
    if d == [] {
      var k := SpelledWordFires(cfg, stream, hook, w);
    } else if d == [w[0]] {
      StartHeldEnters(cfg, stream, hook, w);
    } else {
      StartClears(cfg, d, w[0]);
      if stream[1] == w[0] {
        RepeatedStartEnters(cfg, d, stream, hook, w);
      } else {
        SingleStartIsLost(cfg, d, stream, hook, w);
      }
    }
  }

  lemma {:induction false} StartHeldEnters(cfg: Config, stream: seq<Verify>, hook: Hook, w: seq<Verify>)
    requires cfg.Valid() && IsWord(cfg, hook, w) && Condensed(stream) == w
    ensures Enters(cfg, [w[0]], stream, hook)
  {
    FirstCallIsStart(stream);
    WordAddresses(cfg, hook, w, 0);
    var k := SpelledWordFires(cfg, stream, hook, w);
    assert k > 0 by { assert stream[..0] == []; }
    FiresAfterFirst(cfg, [], stream, k, hook);
    FiresAfterFirst(cfg, [w[0]], stream, k, hook);
    assert [w[0]] <= w && [] + [w[0]] == [w[0]];
    assert IsPrefix(cfg, [w[0]]);
  }

  lemma {:induction false} RepeatedStartEnters(cfg: Config, d: seq<Verify>, stream: seq<Verify>, hook: Hook,
                                               w: seq<Verify>)
    requires cfg.Valid() && IsWord(cfg, hook, w) && Condensed(stream) == w && stream[1] == w[0]
    requires Remember(cfg, d, w[0]) == []
    ensures Enters(cfg, d, stream, hook)
  {
    FirstCallIsStart(stream);
    CondensedWithoutFirst(stream);
    var k := SpelledWordFires(cfg, stream[1..], hook, w);
    FiresAfterFirst(cfg, d, stream, k + 1, hook);
  }

  lemma {:induction false} CondensedWithoutFirst(stream: seq<Verify>)
    requires |stream| >= 2 && stream[1] == stream[0]
    ensures Condensed(stream[1..]) == Condensed(stream)
  {
    var front := stream[..|stream| - 1];
    assert stream[1..][..|stream| - 2] == front[1..];
    if |stream| == 2 {
      assert front == [stream[0]] && stream[1..] == [stream[1]];
      FirstCallIsStart(stream);
    } else {
      CondensedWithoutFirst(front);
    }
  }

  lemma {:induction false} SingleStartIsLost(cfg: Config, d: seq<Verify>, stream: seq<Verify>, hook: Hook,
                                             w: seq<Verify>)
    requires cfg.Valid() && IsWord(cfg, hook, w) && Condensed(stream) == w && stream[1] != w[0]
    requires Remember(cfg, d, w[0]) == [] && !Fires(cfg, d, w[0], hook)
    ensures !Enters(cfg, d, stream, hook)
  {
    FirstCallIsStart(stream);
    forall k | 0 <= k < |stream| ensures !FiresAt(cfg, d, stream, k, hook) {
      if k == 0 {
        assert stream[..0] == [];
      } else {
        forall i | 0 <= i < |stream[1..]| ensures stream[1..][i].cvAddr != 7 {
          StartOnlyFirst(cfg, stream, hook, w, i + 1);
        }
        NoStartNoEntry(cfg, stream[1..], k - 1, hook);
        FiresAfterFirst(cfg, d, stream, k, hook);
      }
    }
  }
}
