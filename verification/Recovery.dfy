/** What the deframer recovers: soundness, round trip, containment of damage, resynchronisation. */
module Recovery {
  import opened Bytes
  import opened Frames
  import opened Deframer

  // ---- Soundness on arbitrary streams ----

  /** A stream laid out as gap, frame, gap, frame, ..., gap. */
  function Weave(gaps: seq<seq<byte>>, msgs: seq<seq<byte>>): seq<byte>
    requires |gaps| == |msgs| + 1
    decreases |msgs|
  {
    if msgs == [] then gaps[0] else gaps[0] + Encode(msgs[0]) + Weave(gaps[1..], msgs[1..])
  }

  ghost predicate Occur(s: seq<byte>, msgs: seq<seq<byte>>) {
    exists gaps | |gaps| == |msgs| + 1 :: Weave(gaps, msgs) == s
  }

  lemma OccurPrepend(s: seq<byte>, skip: seq<byte>, msgs: seq<seq<byte>>)
    requires Occur(s, msgs)
    ensures Occur(skip + s, msgs)
  {
    var gaps :| |gaps| == |msgs| + 1 && Weave(gaps, msgs) == s;
    var wider := [skip + gaps[0]] + gaps[1..];
    assert wider[1..] == gaps[1..];
    assert Weave(wider, msgs) == skip + s;
  }

  lemma OccurFrame(s: seq<byte>, m: seq<byte>, msgs: seq<seq<byte>>)
    requires Occur(s, msgs)
    ensures Occur(Encode(m) + s, [m] + msgs)
  {
    var gaps :| |gaps| == |msgs| + 1 && Weave(gaps, msgs) == s;
    assert ([[]] + gaps)[1..] == gaps && ([m] + msgs)[1..] == msgs;
    assert Weave([[]] + gaps, [m] + msgs) == Encode(m) + s;
  }

  lemma OccurAtFrame(s: seq<byte>, rest: seq<byte>)
    requires |s| >= 2 && s[0] == MARK0 && s[1] == MARK1 && Whole(s) && rest == s[|Payload(s)| + 4..]
    requires Occur(rest, Scan(rest)) && AllSendable(Scan(rest))
    ensures Occur(s, Scan(s)) && AllSendable(Scan(s))
  {
    hide XorAll, Weave, Occur;
    var payload := Payload(s);
    var n := |payload|;
    assert s == FrameWith(payload, s[n + 3]) + rest;
    if XorAll(payload) == s[n + 3] {
      assert Scan(s) == [payload] + Scan(rest);
      OccurFrame(rest, payload, Scan(rest));
    } else {
      assert Scan(s) == Scan(rest);
      OccurPrepend(rest, FrameWith(payload, s[n + 3]), Scan(rest));
    }
  }

  /** Every delivered message occurs in the input as a complete frame of its own, in order. */
  lemma {:induction false} ScanSound(s: seq<byte>)
    ensures Occur(s, Scan(s))
    ensures AllSendable(Scan(s))
    decreases |s|
  {
    if |s| < 2 {
      assert Weave([s], []) == s;
    } else if s[0] != MARK0 {
      ScanSound(s[1..]);
      OccurPrepend(s[1..], s[..1], Scan(s));
      assert s[..1] + s[1..] == s;
    } else if s[1] != MARK1 {
      ScanSound(s[2..]);
      OccurPrepend(s[2..], s[..2], Scan(s));
      assert s[..2] + s[2..] == s;
    } else if !Whole(s) {
      assert Weave([s], []) == s;
    } else {
      ScanSound(s[|Payload(s)| + 4..]);
      OccurAtFrame(s, s[|Payload(s)| + 4..]);
    }
  }

  lemma DeliveredMessagesOccur(d: Automaton, s: seq<byte>)
    requires Idle(d)
    ensures Occur(s, Run(d, s).1)
    ensures AllSendable(Run(d, s).1)
  {
    RunIsScan(d, s);
    ScanSound(s);
  }

  function FrameBytes(msgs: seq<seq<byte>>): nat {
    if msgs == [] then 0 else |msgs[0]| + 4 + FrameBytes(msgs[1..])
  }

  /** No byte serves two frames. */
  lemma {:induction false} ScanFits(s: seq<byte>)
    ensures FrameBytes(Scan(s)) <= |s|
    decreases |s|
  {
    if |s| < 2 {
    } else if s[0] != MARK0 {
      ScanFits(s[1..]);
    } else if s[1] != MARK1 {
      ScanFits(s[2..]);
    } else if Whole(s) {
      var rest := s[|Payload(s)| + 4..];
      ScanFits(rest);
      assert ([Payload(s)] + Scan(rest))[1..] == Scan(rest);
      assert [] + Scan(rest) == Scan(rest);
    }
  }

  // ---- Round trip and containment ----

  lemma ScanNil()
    ensures Scan([]) == []
  {
  }

  lemma ScanFrame(p: seq<byte>, check: byte, rest: seq<byte>)
    requires Sendable(p)
    ensures Scan(FrameWith(p, check) + rest) == (if XorAll(p) == check then [p] else []) + Scan(rest)
  {
    var s := FrameWith(p, check) + rest;
    assert Whole(s) && Payload(s) == p && s[|p| + 3] == check && s[|p| + 4..] == rest;
  }

  /** Encoded payloads come out exactly as they went in, and what follows them starts in sync. */
  lemma {:induction false} RoundTrip(ps: seq<seq<byte>>, rest: seq<byte>)
    requires AllSendable(ps)
    ensures Scan(EncodeAll(ps) + rest) == ps + Scan(rest)
    decreases |ps|
  {
    hide Scan, XorAll;
    if ps == [] {
      assert EncodeAll(ps) + rest == rest;
    } else {
      var tail := EncodeAll(ps[1..]) + rest;
      RoundTrip(ps[1..], rest);
      ScanFrame(ps[0], XorAll(ps[0]), tail);
      assert EncodeAll(ps) + rest == Encode(ps[0]) + tail;
      assert ps == [ps[0]] + ps[1..];
    }
  }

  lemma RunRoundTrip(d: Automaton, ps: seq<seq<byte>>)
    requires Idle(d) && AllSendable(ps)
    ensures Run(d, EncodeAll(ps)).1 == ps
    ensures Idle(Run(d, EncodeAll(ps)).0)
  {
    var s := EncodeAll(ps);
    RunIsScan(d, s);
    RoundTrip(ps, []);
    assert s + [] == s;
    EndsIdle(d, ps);
  }

  lemma RunHead3(d: Automaton, a: byte, b: byte, c: byte)
    ensures Run(d, [a, b, c]).0 == Step(Step(Step(d, a).0, b).0, c).0
  {
    RunCons(d, [a, b, c], 1);
    assert [a, b, c][1..] == [b, c];
    RunCons(Step(d, a).0, [b, c], 0);
    assert [b, c][1..] == [c] && [b, c][0..] == [b, c];
    RunCons(Step(Step(d, a).0, b).0, [c], 0);
    assert [c][1..] == [] && [c][0..] == [c];
  }

  lemma {:induction false} EndsIdle(d: Automaton, ps: seq<seq<byte>>)
    requires Idle(d) && AllSendable(ps)
    ensures Idle(Run(d, EncodeAll(ps)).0)
    decreases |ps|
  {
    hide XorAll, Run;
    if ps == [] {
      RunNil(d, EncodeAll(ps));
    } else {
      var p := ps[0];
      var size: byte := |p|;
      var d3 := Step(Step(Step(d, MARK0).0, MARK1).0, size).0;
      var header: seq<byte> := [MARK0, MARK1, size];
      RunHead3(d, MARK0, MARK1, size);
      XorAllNil();
      DataComplete(d3, p, XorAll(p));
      RunConcat(d, header, p + [XorAll(p)]);
      assert header + (p + [XorAll(p)]) == Encode(p);
      RunConcat(d, Encode(p), EncodeAll(ps[1..]));
      EndsIdle(Run(d, Encode(p)).0, ps[1..]);
    }
  }

  /** The length byte bounds what can be sent: empty payloads and payloads over 255 bytes do not
      come back. An empty payload even silences the line for good. */
  lemma RoundTripExactly(p: seq<byte>)
    ensures Scan(Encode(p)) == [p] <==> Sendable(p)
  {
    hide XorAll;
    var s := Encode(p);
    if Sendable(p) {
      RoundTrip([p], []);
      assert EncodeAll([p]) + [] == s;
    } else {
      assert s[2] == |p| % 256;
      if Whole(s) {
        ScanFits(s[|Payload(s)| + 4..]);
        FrameBytesOne(p);
        assert |Payload(s)| != |p|;
      }
    }
  }

  lemma FrameBytesOne(p: seq<byte>)
    ensures FrameBytes([p]) == |p| + 4
  {
  }

  lemma ZeroLengthSilences(rest: seq<byte>)
    ensures Scan(Encode([]) + rest) == []
  {
    assert (Encode([]) + rest)[2] == 0;
  }

  /** Damage to one payload or checksum byte costs that frame and no other. */
  lemma CorruptionContained(ps: seq<seq<byte>>, p: seq<byte>, qs: seq<seq<byte>>, i: nat, b: byte)
    requires Sendable(p) && AllSendable(ps) && AllSendable(qs)
    requires 3 <= i < |Encode(p)| && b != Encode(p)[i]
    ensures Scan(EncodeAll(ps) + Encode(p)[i := b] + EncodeAll(qs)) == ps + qs
  {
    hide Scan, XorAll, EncodeAll;
    var tail := Encode(p)[i := b] + EncodeAll(qs);
    assert EncodeAll(ps) + Encode(p)[i := b] + EncodeAll(qs) == EncodeAll(ps) + tail;
    RoundTrip(ps, tail);
    RoundTrip(qs, []);
    ScanNil();
    assert EncodeAll(qs) + [] == EncodeAll(qs);
    if i == |p| + 3 {
      assert Encode(p)[i := b] == FrameWith(p, b);
      ScanFrame(p, b, EncodeAll(qs));
    } else {
      var p' := p[i - 3 := b];
      XorAllDetects(p, i - 3, b);
      assert Encode(p)[i := b] == FrameWith(p', XorAll(p));
      ScanFrame(p', XorAll(p), EncodeAll(qs));
    }
  }

  // ---- Resynchronisation after garbage ----

  /** Length of the run of first sync marks a buffer ends with. */
  function TrailingMarks(g: seq<byte>): nat {
    if g == [] || g[|g| - 1] != MARK0 then 0 else 1 + TrailingMarks(g[..|g| - 1])
  }

  lemma {:induction false} TrailingCons(g: seq<byte>)
    requires g != []
    ensures TrailingMarks(g[1..]) <= |g| - 1
    ensures TrailingMarks(g) ==
            if TrailingMarks(g[1..]) == |g| - 1 && g[0] == MARK0 then |g| else TrailingMarks(g[1..])
    decreases |g|
  {
    var n := |g| - 1;
    if n > 0 {
      assert g[1..][..n - 1] == g[..n][1..];
      TrailingCons(g[..n]);
    }
  }

  lemma ScanSkips(g: seq<byte>, s: seq<byte>)
    requires g != []
    ensures g[0] != MARK0 ==> Scan(g + s) == Scan(g[1..] + s)
    ensures g[0] == MARK0 && |g| >= 2 && g[1] != MARK1 ==> Scan(g + s) == Scan(g[2..] + s)
  {
    assert (g + s)[1..] == g[1..] + s;
    if |g| >= 2 {
      assert (g + s)[2..] == g[2..] + s;
    }
  }

  /** Garbage without a second mark leaves behind only the parity of the marks it ends with. */
  lemma {:induction false} GarbageScan(g: seq<byte>, s: seq<byte>)
    requires MARK1 !in g
    ensures Scan(g + s) == if TrailingMarks(g) % 2 == 0 then Scan(s) else Scan([MARK0] + s)
    decreases |g|
  {
    hide Scan;
    if g == [] {
      assert g + s == s;
    } else {
      TrailingCons(g);
      ScanSkips(g, s);
      if g[0] != MARK0 {
        GarbageScan(g[1..], s);
      } else if |g| == 1 {
        assert g == [MARK0];
      } else {
        TrailingCons(g[1..]);
        assert g[1..][1..] == g[2..];
        GarbageScan(g[2..], s);
      }
    }
  }

  /** The frame right after such garbage is received exactly when that parity is even; frames after
      an even run all are. */
  lemma ResyncExactly(g: seq<byte>, p: seq<byte>)
    requires MARK1 !in g && Sendable(p)
    ensures Scan(g + Encode(p)) == [p] <==> TrailingMarks(g) % 2 == 0
  {
    hide Scan;
    var s := Encode(p);
    GarbageScan(g, s);
    if TrailingMarks(g) % 2 == 0 {
      RoundTripExactly(p);
    } else {
      ScanSkips([MARK0, MARK0], s[1..]);
      assert [MARK0, MARK0] + s[1..] == [MARK0] + s && [MARK0, MARK0][2..] + s[1..] == s[1..];
      ScanFits(s[1..]);
      FrameBytesOne(p);
    }
  }

  lemma ResyncAll(g: seq<byte>, ps: seq<seq<byte>>)
    requires MARK1 !in g && TrailingMarks(g) % 2 == 0
    requires AllSendable(ps)
    ensures Scan(g + EncodeAll(ps)) == ps
  {
    GarbageScan(g, EncodeAll(ps));
    RoundTrip(ps, []);
    assert EncodeAll(ps) + [] == EncodeAll(ps);
  }
}
