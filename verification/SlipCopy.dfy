/** What the copy loops of slip_poll_handler make of a packet, whether or not it goes round the
    end of the ring, and how much of the output buffer they write. */
module SlipCopy {
  import opened Common
  import opened SlipSpec

  // ---------------------------------------------------------------- One run of the loop

  lemma CopiedChar(c: bv8, more: seq<bv8>, out: seq<bv8>, limit: nat)
    requires |out| <= limit
    ensures Copied(Escaped(c) + more, out, false, limit) == Copied(more, out + [c], false, limit)
    ensures Written(Escaped(c) + more, out, false, limit) == Written(more, out + [c], false, limit)
  {
    var x := Escaped(c) + more;
    if |Escaped(c)| == 1 {
      assert x[1..] == more;
    } else {
      assert x[1..][1..] == more;
      assert Copied(x, out, false, limit) == Copied(x[1..], out, true, limit);
      assert Written(x, out, false, limit) == Written(x[1..], out, true, limit);
    }
  }

  /** Nothing but what fits, and one byte more. */
  function Fitting(x: seq<bv8>, limit: nat): seq<bv8> {
    if |x| <= limit + 1 then x else []
  }

  /** The loop over a whole packet leaves all of it or nothing. */
  lemma {:induction false} CopiedEncoded(p: seq<bv8>, out: seq<bv8>, limit: nat)
    requires |out| <= limit + 1
    ensures Copied(Encoded(p), out, false, limit) == (Fitting(out + p, limit), false)
    ensures Written(Encoded(p), out, false, limit) == Min(|out| + |p|, limit + 1)
  {
    if p == [] {
      assert out + p == out;
    } else if |out| <= limit {
      CopiedChar(p[0], Encoded(p[1..]), out, limit);
      CopiedEncoded(p[1..], out + [p[0]], limit);
      assert out + p == out + [p[0]] + p[1..];
    } else {
      assert Encoded(p) != [];
    }
  }

  /** The same when an escape is open at the end: the loop has to have room for one byte more,
      or it gives up. */
  lemma {:induction false} CopiedOpen(p: seq<bv8>, out: seq<bv8>, limit: nat)
    requires |out| <= limit + 1
    ensures Copied(Encoded(p) + [ESC], out, false, limit)
         == if |out| + |p| <= limit then (out + p, true) else ([], false)
    ensures Written(Encoded(p) + [ESC], out, false, limit) == Min(|out| + |p|, limit + 1)
  {
    if p == [] {
      assert [] + [ESC] == [ESC] && [ESC][1..] == [] && out + p == out;
    } else if |out| <= limit {
      assert Encoded(p) + [ESC] == Escaped(p[0]) + (Encoded(p[1..]) + [ESC]);
      CopiedChar(p[0], Encoded(p[1..]) + [ESC], out, limit);
      CopiedOpen(p[1..], out + [p[0]], limit);
      assert out + p == out + [p[0]] + p[1..];
    } else {
      assert Encoded(p) + [ESC] != [];
    }
  }

  /** The rest of a packet, from the second half of an escape on, when the loop before has left
      the escape open. */
  lemma CopiedClosing(c: bv8, p: seq<bv8>, out: seq<bv8>, limit: nat)
    requires |Escaped(c)| == 2 && |out| <= limit
    ensures Copied([Escaped(c)[1]] + Encoded(p), out, true, limit) == (Fitting(out + [c] + p, limit), false)
    ensures Written([Escaped(c)[1]] + Encoded(p), out, true, limit) == Min(|out| + 1 + |p|, limit + 1)
  {
    var x := [Escaped(c)[1]] + Encoded(p);
    assert x[1..] == Encoded(p);
    CopiedEncoded(p, out + [c], limit);
  }

  /** The same after a loop that gave up: the second half stands for itself. */
  lemma CopiedHalf(c: bv8, p: seq<bv8>, limit: nat)
    requires |Escaped(c)| == 2
    ensures var half := Escaped(c)[1];
      && Copied([half] + Encoded(p), [], false, limit) == (Fitting([half] + p, limit), false)
      && Written([half] + Encoded(p), [], false, limit) == Min(1 + |p|, limit + 1)
  {
    var half := Escaped(c)[1];
    var x := [half] + Encoded(p);
    assert x[1..] == Encoded(p) && [] + [half] == [half];
    CopiedEncoded(p, [half], limit);
  }

  // ---------------------------------------------------------------- Two runs

  /** A packet can be cut in front of the k-th character, or within its escape. */
  predicate CutBefore(p: seq<bv8>, a: seq<bv8>, b: seq<bv8>, k: nat) {
    k <= |p| && a == Encoded(p[..k]) && b == Encoded(p[k..])
  }

  predicate CutWithin(p: seq<bv8>, a: seq<bv8>, b: seq<bv8>, k: nat) {
    && k < |p| && |Escaped(p[k])| == 2
    && a == Encoded(p[..k]) + [ESC] && b == [Escaped(p[k])[1]] + Encoded(p[k + 1..])
  }

  lemma EncodedCons(p: seq<bv8>, j: nat)
    requires p != [] && j <= |p| - 1
    ensures Encoded(p[..j + 1]) == Escaped(p[0]) + Encoded(p[1..][..j])
    ensures p[j + 1..] == p[1..][j..]
  {
    assert p[..j + 1][1..] == p[1..][..j];
  }

  lemma {:induction false} CutOfEncoded(p: seq<bv8>, a: seq<bv8>, b: seq<bv8>) returns (k: nat)
    requires a + b == Encoded(p)
    ensures CutBefore(p, a, b, k) || CutWithin(p, a, b, k)
    decreases |p|, 1
  {
    k := 0;
    if a == [] {
      assert a + b == b && p[0..] == p;
    } else {
      var x, y := Escaped(p[0]), Encoded(p[1..]);
      assert x + y == a + b;
      if |a| < |x| {
        assert a == (a + b)[..1] == [ESC] && b == (a + b)[1..] == [x[1]] + y;
        assert Encoded(p[..0]) + [ESC] == [ESC];
      } else {
        k := CutLater(p, a, b, x, y);
      }
    }
  }

  lemma CutLater(p: seq<bv8>, a: seq<bv8>, b: seq<bv8>, x: seq<bv8>, y: seq<bv8>) returns (k: nat)
    requires p != [] && x == Escaped(p[0]) && y == Encoded(p[1..])
    requires |x| <= |a| && a + b == x + y
    ensures CutBefore(p, a, b, k) || CutWithin(p, a, b, k)
    decreases |p|, 0
  {
    hide Encoded;
    var rest := a[|x|..];
    assert rest + b == (a + b)[|x|..] == y;
    assert a == (a + b)[..|x|] + rest == x + rest;
    var j := CutOfEncoded(p[1..], rest, b);
    k := j + 1;
    EncodedCons(p, j);
    if CutWithin(p[1..], rest, b, j) {
      assert p[k] == p[1..][j] && p[k + 1..] == p[1..][j + 1..];
      assert x + (Encoded(p[1..][..j]) + [ESC]) == x + Encoded(p[1..][..j]) + [ESC];
    }
  }

  /** The characters that some cells stand for, and whether an escape is open at their end. */
  function Unescaped(cells: seq<bv8>): (seq<bv8>, bool) {
    Copied(cells, [], false, |cells|)
  }

  /** The loop over some cells gives up: it has more than limit + 1 characters to copy, or that
      many and an open escape. */
  predicate GivesUp(cells: seq<bv8>, already: nat, limit: nat) {
    var (chars, open) := Unescaped(cells);
    already + |chars| > limit + 1 || (already + |chars| == limit + 1 && open)
  }

  lemma {:induction false} EncodedIsLonger(p: seq<bv8>)
    ensures |p| <= |Encoded(p)|
  {
    if p != [] {
      EncodedIsLonger(p[1..]);
    }
  }

  lemma UnescapedWhole(p: seq<bv8>)
    ensures Unescaped(Encoded(p)) == (p, false)
  {
    EncodedIsLonger(p);
    CopiedEncoded(p, [], |Encoded(p)|);
    assert [] + p == p;
  }

  lemma UnescapedOpen(p: seq<bv8>)
    ensures Unescaped(Encoded(p) + [ESC]) == (p, true)
  {
    EncodedIsLonger(p);
    CopiedOpen(p, [], |Encoded(p)| + 1);
    assert [] + p == p;
  }

  lemma UnescapedHalf(c: bv8, p: seq<bv8>)
    requires |Escaped(c)| == 2
    ensures Unescaped([Escaped(c)[1]] + Encoded(p)) == ([Escaped(c)[1]] + p, false)
  {
    EncodedIsLonger(p);
    CopiedHalf(c, p, |Encoded(p)| + 1);
  }

  /** What two runs of the loop leave, how much they write, and what that means when the first
      one gives up. */
  ghost predicate TwiceIs(p: seq<bv8>, out: seq<bv8>, a: seq<bv8>, b: seq<bv8>, limit: nat) {
    var (o, e) := Copied(a, out, false, limit);
    var n, m := Written(a, out, false, limit), Written(b, o, e, limit);
    var behind, gaveUp := Unescaped(b).0, GivesUp(a, |out|, limit);
    && Copied(b, o, e, limit) == (Fitting(if gaveUp then behind else out + p, limit), false)
    && (if n < m then m else n) == Min(|out| + |p|, limit + 1)
    && (gaveUp ==> |out| + |p| > limit + 1 && (out == [] ==> |behind| < |p|))
  }

  lemma TwiceBefore(p: seq<bv8>, out: seq<bv8>, a: seq<bv8>, b: seq<bv8>, k: nat, limit: nat)
    requires |out| <= limit + 1 && CutBefore(p, a, b, k)
    ensures TwiceIs(p, out, a, b, limit)
  {
    hide Copied, Written, Encoded, Unescaped;
    var first, second := p[..k], p[k..];
    UnescapedWhole(first);
    UnescapedWhole(second);
    CopiedEncoded(first, out, limit);
    if |out + first| <= limit + 1 {
      CopiedEncoded(second, out + first, limit);
      assert out + first + second == out + p;
    } else {
      CopiedEncoded(second, [], limit);
      assert [] + second == second;
    }
  }

  lemma TwiceWithin(p: seq<bv8>, out: seq<bv8>, a: seq<bv8>, b: seq<bv8>, k: nat, limit: nat)
    requires |out| <= limit + 1 && CutWithin(p, a, b, k)
    ensures TwiceIs(p, out, a, b, limit)
  {
    hide Copied, Written, Encoded, Unescaped;
    var first, second := p[..k], p[k + 1..];
    UnescapedOpen(first);
    UnescapedHalf(p[k], second);
    CopiedOpen(first, out, limit);
    if |out| + |first| <= limit {
      CopiedClosing(p[k], second, out + first, limit);
      assert out + first + [p[k]] + second == out + p;
    } else {
      CopiedHalf(p[k], second, limit);
    }
  }

  /** Two runs of the loop over a packet that is cut anywhere, even within an escape: all of
      the packet or nothing, unless the first run gives up.  Then the second run starts anew,
      as if what is left were a packet. */
  lemma CopiedTwice(p: seq<bv8>, out: seq<bv8>, a: seq<bv8>, b: seq<bv8>, limit: nat)
    requires a + b == Encoded(p) && |out| <= limit + 1
    ensures TwiceIs(p, out, a, b, limit)
  {
    hide TwiceIs, Encoded, Copied;
    var k := CutOfEncoded(p, a, b);
    if CutBefore(p, a, b, k) {
      TwiceBefore(p, out, a, b, k, limit);
    } else {
      TwiceWithin(p, out, a, b, k, limit);
    }
  }

  // ---------------------------------------------------------------- A poll

  /** What a poll hands on of a packet that goes round the end of the ring. */
  lemma DeliveredAcrossEnd(s: Slip, p: seq<bv8>, limit: nat)
    requires Valid(s) && s.pktEnd < s.begin && Packet(s) == Encoded(p)
    ensures var first, behind := s.cells[s.begin..], s.cells[..s.pktEnd];
      Delivered(s, limit) == Fitting(if GivesUp(first, 0, limit) then Unescaped(behind).0 else p, limit)
  {
    CopiedTwice(p, [], s.cells[s.begin..], s.cells[..s.pktEnd], limit);
    assert [] + p == p;
  }

  /** So the packet is handed on whole or dropped whole, exactly unless the first loop gives up
      and there are characters behind it, not too many. */
  lemma WholeOrNothingIff(s: Slip, p: seq<bv8>, limit: nat)
    requires Valid(s) && s.pktEnd < s.begin && Packet(s) == Encoded(p)
    ensures var first, behind := s.cells[s.begin..], Unescaped(s.cells[..s.pktEnd]).0;
      (Delivered(s, limit) == p || Delivered(s, limit) == [])
      <==> (!GivesUp(first, 0, limit) || behind == [] || |behind| > limit + 1)
  {
    DeliveredAcrossEnd(s, p, limit);
    CopiedTwice(p, [], s.cells[s.begin..], s.cells[..s.pktEnd], limit);
  }

  /** An input of the kind that fails: the ESC of an escape is the last cell of the ring, and
      its second half is handed on alone. */
  lemma HalfAnEscapeDelivered()
    ensures var s := Slip(Ok, 2, 2, 1, [ESC_END, END, 0x41, ESC]);
      && Valid(s) && Packet(s) == Encoded([0x41, END]) && Delivered(s, 0) == [ESC_END]
  {
    var s := Slip(Ok, 2, 2, 1, [ESC_END, END, 0x41, ESC]);
    var p: seq<bv8> := [0x41, END];
    assert p[1..] == [END] && p[1..][1..] == [];
    assert Encoded(p[1..]) == [ESC, ESC_END];
    assert Encoded(p) == [0x41, ESC, ESC_END] == Packet(s);
    assert s.cells[2..] == [0x41] + [ESC] && s.cells[..1] == [ESC_END];
    assert Encoded([0x41]) == [0x41];
    CopiedOpen([0x41], [], 0);
    CopiedHalf(END, [], 0);
    assert [ESC_END] + Encoded([]) == [ESC_END] && [ESC_END] + [] == [ESC_END];
  }

  lemma DeliversPayload(s: Slip, p: seq<bv8>, limit: nat)
    requires Valid(s) && s.begin != s.pktEnd && Packet(s) == Encoded(p) && |p| <= limit + 1
    ensures Delivered(s, limit) == p
  {
    hide Copied, Written, Encoded, Unescaped;
    assert [] + p == p;
    if s.begin < s.pktEnd {
      CopiedEncoded(p, [], limit);
    } else {
      CopiedTwice(p, [], s.cells[s.begin..], s.cells[..s.pktEnd], limit);
    }
  }

  /** A poll writes as many cells of the output buffer as the payload has bytes, but up to one
      more than the limit it is given. */
  lemma PollWritesPayload(s: Slip, p: seq<bv8>, limit: nat)
    requires Valid(s) && s.begin != s.pktEnd && Packet(s) == Encoded(p)
    ensures PollWrites(s, limit) == Min(|p|, limit + 1)
  {
    if s.begin < s.pktEnd {
      CopiedEncoded(p, [], limit);
    } else {
      CopiedTwice(p, [], s.cells[s.begin..], s.cells[..s.pktEnd], limit);
    }
  }

  /** All writes of a poll lie within a buffer of limit cells exactly when the payload fits it:
      for a longer payload the loop gives up one byte too late. */
  lemma WritesFitIff(s: Slip, p: seq<bv8>, limit: nat)
    requires Valid(s) && s.begin != s.pktEnd && Packet(s) == Encoded(p)
    ensures PollWrites(s, limit) <= limit <==> |p| <= limit
  {
    PollWritesPayload(s, p, limit);
  }

  /** An END in front of a packet is copied out with it. */
  lemma DeliversStrayEnd(s: Slip, p: seq<bv8>, limit: nat)
    requires Valid(s) && s.begin != s.pktEnd && Packet(s) == [END] + Encoded(p) && |p| <= limit
    ensures Delivered(s, limit) == [END] + p
  {
    if s.begin < s.pktEnd {
      StrayWhole(Packet(s), p, limit);
    } else {
      StrayTwice(s.cells[s.begin..], s.cells[..s.pktEnd], p, limit);
    }
  }

  lemma StrayWhole(x: seq<bv8>, p: seq<bv8>, limit: nat)
    requires x == [END] + Encoded(p) && |p| <= limit
    ensures Copied(x, [], false, limit).0 == [END] + p
  {
    hide Encoded;
    assert x[1..] == Encoded(p);
    CopiedStray(x, limit);
    CopiedEncoded(p, [END], limit);
  }

  lemma StrayTwice(a: seq<bv8>, b: seq<bv8>, p: seq<bv8>, limit: nat)
    requires a != [] && a + b == [END] + Encoded(p) && |p| <= limit
    ensures var (o, e) := Copied(a, [], false, limit); Copied(b, o, e, limit).0 == [END] + p
  {
    hide Encoded, Copied;
    assert a[0] == (a + b)[0] == END;
    assert a[1..] + b == (a + b)[1..] == Encoded(p);
    CopiedStray(a, limit);
    CopiedTwice(p, [END], a[1..], b, limit);
  }

  lemma CopiedStray(a: seq<bv8>, limit: nat)
    requires a != [] && a[0] == END
    ensures Copied(a, [], false, limit) == Copied(a[1..], [END], false, limit)
  {
    assert [] + [END] == [END];
  }
}
