// The expected text of each round of the ping-pong exchange
// (`reconstructWsMessage`) and the facts about it that the harness relies
// on: its length, its first token, and how many markers it holds.

module Messages {
  import opened StringSearch

  /** The marker token; a round-`n` message holds `n + 1` of them. */
  const Marker: string := "ping"

  /** What every round appends to the previous round's text. */
  const RoundSuffix: string := "-pong ping"

  /** The text expected in round `n`: the marker, then `n` copies of the round suffix. */
  function ExpectedMessage(n: nat): (m: string)
    ensures |m| == 4 + 10 * n
    ensures Marker <= m
  {
    if n == 0 then Marker else ExpectedMessage(n - 1) + RoundSuffix
  }

  /**
   * `reconstructWsMessage(index)`: start from the marker and append the
   * round suffix once per loop iteration. A negative index runs the loop
   * zero times, so it yields the marker alone.
   */
  method ReconstructWsMessage(index: int) returns (message: string)
    ensures message == ExpectedMessage(if index < 0 then 0 else index)
    ensures |message| == 4 + 10 * (if index < 0 then 0 else index)
  {
    message := "ping";
    var i := 0;
    while i < index
      invariant 0 <= i <= (if index < 0 then 0 else index)
      invariant message == ExpectedMessage(i)
    {
      message := message + "-pong ping";
      i := i + 1;
    }
  }

  /** The same text read the other way round: each round prepends "ping-pong ". */
  lemma {:induction false} ExpectedMessagePrepend(n: nat)
    ensures ExpectedMessage(n + 1) == "ping-pong " + ExpectedMessage(n)
  {
    if n > 0 {
      ExpectedMessagePrepend(n - 1);
      assert ExpectedMessage(n + 1) == ("ping-pong " + ExpectedMessage(n - 1)) + RoundSuffix;
    }
  }

  /** In "ping-pong " + `prev`, the scan finds the first marker at 0, then resumes at 4 and finds the next at 10. */
  lemma LeadMarkers(prev: string)
    requires Marker <= prev
    ensures IndexOf("ping-pong " + prev, Marker, 0) == 0
    ensures IndexOf("ping-pong " + prev, Marker, 4) == 10
  {
    var lead := "ping-pong ";
    var s := lead + prev;
    OccursAtStart(Marker, "-pong " + prev);
    assert Marker + ("-pong " + prev) == s;
    IndexOfFirst(s, Marker, 0);
    OccursAtStart(Marker, prev[4..]);
    assert Marker + prev[4..] == prev;
    OccursShift(lead, prev, Marker, 0);
    forall k | 4 <= k < 10 ensures !Occurs(s, Marker, k) {
      assert s[k] == lead[k];
      if k == 5 {
        assert s[k + 1] == lead[k + 1] != Marker[1];
      } else {
        assert s[k] != Marker[0];
      }
    }
    IndexOfFirst(s, Marker, 4);
  }

  /** Scanning "ping-pong " + `prev` reports 0, then the markers of `prev` shifted by 10. */
  lemma LeadScan(prev: string)
    requires Marker <= prev
    ensures IndicesOf(Marker, "ping-pong " + prev) == [0] + Shift(IndicesOf(Marker, prev), 10)
  {
    var lead := "ping-pong ";
    var s := lead + prev;
    LeadMarkers(prev);
    IndexOfShift(lead, prev, Marker, 0);
    calc {
      IndicesOf(Marker, s);
      IndicesFrom(Marker, s, 0);
      [0] + IndicesFrom(Marker, s, 4);
      [0] + ([10] + IndicesFrom(Marker, s, 14));
      [0] + IndicesFrom(Marker, s, |lead| + 0);
      { IndicesFromShift(Marker, lead, prev, 0); }
      [0] + Shift(IndicesFrom(Marker, prev, 0), 10);
    }
  }

  /**
   * The markers of the round-`n` text sit at 0, 10, ..., 10 * n, and the
   * scan of `getIndicesOf` finds exactly those `n + 1` of them.
   */
  lemma {:induction false} MarkerPositions(n: nat)
    ensures |IndicesOf(Marker, ExpectedMessage(n))| == n + 1
    ensures forall j :: 0 <= j <= n ==> IndicesOf(Marker, ExpectedMessage(n))[j] == 10 * j
  {
    if n == 0 {
      var s := ExpectedMessage(0);
      OccursAtStart(Marker, []);
      assert Marker + [] == s;
      IndexOfFirst(s, Marker, 0);
      IndexOfFirst(s, Marker, 4);
      assert IndicesOf(Marker, s) == [0] + IndicesFrom(Marker, s, 4);
    } else {
      MarkerPositions(n - 1);
      var prev := ExpectedMessage(n - 1);
      ExpectedMessagePrepend(n - 1);
      LeadScan(prev);
      var r := IndicesOf(Marker, ExpectedMessage(n));
      var rest := Shift(IndicesOf(Marker, prev), 10);
      assert r == [0] + rest;
      forall j | 0 <= j <= n ensures r[j] == 10 * j {
        if j > 0 {
          assert r[j] == rest[j - 1];
        }
      }
    }
  }

  /** The structural check of the harness: the round-`n` text holds `n + 1` markers. */
  lemma MarkerCount(n: nat)
    ensures |IndicesOf(Marker, ExpectedMessage(n))| == n + 1
  {
    MarkerPositions(n);
  }
}
