/** Reference behaviour of the byte reader, stated on the number of medium bytes consumed so
    far: a read of `sz` bytes either returns the next `sz` bytes of the medium and consumes them,
    or fails (return code -1) and leaves the whole medium consumed. */
module Stream {
  import opened Geometry

  /** What one read returns: its return code, the bytes it delivers (none on failure) and the
      number of medium bytes consumed after it. */
  datatype Outcome = Outcome(rc: int, data: seq<byte>, consumed: nat)

  /** One read of `sz` bytes when `consumed` bytes of `medium` have already been read. */
  function Read(medium: seq<byte>, consumed: nat, sz: nat): (o: Outcome)
    requires consumed <= |medium|
    ensures consumed <= o.consumed <= |medium|
  {
    if consumed + sz <= |medium| then Outcome(0, medium[consumed..consumed + sz], consumed + sz)
    else Outcome(-1, [], |medium|)
  }

  /** Bytes consumed after reads of the sizes `sizes`, in order, starting at `consumed`. */
  function Position(medium: seq<byte>, consumed: nat, sizes: seq<nat>): (p: nat)
    requires consumed <= |medium|
    ensures consumed <= p <= |medium|
    decreases |sizes|
  {
    if sizes == [] then consumed
    else Position(medium, Read(medium, consumed, sizes[0]).consumed, sizes[1..])
  }

  /** Outcomes of reads of the sizes `sizes`, in order, starting at `consumed`. */
  function Run(medium: seq<byte>, consumed: nat, sizes: seq<nat>): (os: seq<Outcome>)
    requires consumed <= |medium|
    ensures |os| == |sizes|
    decreases |sizes|
  {
    if sizes == [] then []
    else
      var o := Read(medium, consumed, sizes[0]);
      [o] + Run(medium, o.consumed, sizes[1..])
  }

  /** The bytes delivered by the successful reads among `os`, concatenated in order. */
  function Delivered(os: seq<Outcome>): seq<byte> {
    if os == [] then []
    else (if os[0].rc == 0 then os[0].data else []) + Delivered(os[1..])
  }

  /** `k` reads of `stride` bytes each. */
  function Strides(stride: nat, k: nat): (s: seq<nat>)
    ensures |s| == k
    ensures forall i :: 0 <= i < k ==> s[i] == stride
  {
    if k == 0 then [] else Strides(stride, k - 1) + [stride]
  }

  /** A successful read delivers exactly the next `sz` bytes of the medium and consumes them;
      it succeeds exactly when that many bytes remain; a failed read consumes the rest. */
  lemma ReadNextBytes(medium: seq<byte>, consumed: nat, sz: nat)
    requires consumed <= |medium|
    ensures var o := Read(medium, consumed, sz);
      (o.rc == 0 || o.rc == -1) &&
      (o.rc == 0 <==> consumed + sz <= |medium|) &&
      (o.rc == 0 ==> |o.data| == sz && o.consumed == consumed + sz &&
                     forall i :: 0 <= i < sz ==> o.data[i] == medium[consumed + i]) &&
      (o.rc == -1 ==> o.consumed == |medium|)
  {
  }

  /** A zero-length read always succeeds, delivers nothing and consumes nothing,
      even when the medium is exhausted. */
  lemma ZeroLengthRead(medium: seq<byte>, consumed: nat)
    requires consumed <= |medium|
    ensures Read(medium, consumed, 0) == Outcome(0, [], consumed)
  {
  }

  /** Two successive successful reads deliver what one read of their total size delivers. */
  lemma ReadsConcatenate(medium: seq<byte>, consumed: nat, a: nat, b: nat)
    requires consumed + a + b <= |medium|
    ensures var o1 := Read(medium, consumed, a);
      var o2 := Read(medium, o1.consumed, b);
      var o := Read(medium, consumed, a + b);
      o1.rc == 0 && o2.rc == 0 && o.rc == 0 &&
      o1.data + o2.data == o.data && o2.consumed == o.consumed
  {
    var o1 := Read(medium, consumed, a);
    var o2 := Read(medium, o1.consumed, b);
    assert medium[consumed..consumed + a] + medium[consumed + a..consumed + a + b]
        == medium[consumed..consumed + a + b];
  }

  /** Reading `sizes` and then one more read: the run is extended by one outcome, the read
      made at the position the run had reached. */
  lemma {:induction false} RunSnoc(medium: seq<byte>, consumed: nat, sizes: seq<nat>, sz: nat)
    requires consumed <= |medium|
    ensures Run(medium, consumed, sizes + [sz])
         == Run(medium, consumed, sizes) + [Read(medium, Position(medium, consumed, sizes), sz)]
    ensures Position(medium, consumed, sizes + [sz])
         == Read(medium, Position(medium, consumed, sizes), sz).consumed
    decreases |sizes|
  {
    if sizes == [] {
      assert [sz][1..] == [];
    } else {
      var o := Read(medium, consumed, sizes[0]);
      assert (sizes + [sz])[0] == sizes[0];
      assert (sizes + [sz])[1..] == sizes[1..] + [sz];
      RunSnoc(medium, o.consumed, sizes[1..], sz);
    }
  }

  /** One more outcome adds its data, if it succeeded, to the end of what was delivered. */
  lemma {:induction false} DeliveredSnoc(os: seq<Outcome>, o: Outcome)
    ensures Delivered(os + [o]) == Delivered(os) + (if o.rc == 0 then o.data else [])
    decreases |os|
  {
    if os != [] {
      assert (os + [o])[0] == os[0];
      assert (os + [o])[1..] == os[1..] + [o];
      DeliveredSnoc(os[1..], o);
    } else {
      assert [o][1..] == [];
    }
  }

  /** Extending the prefix `sizes[..n]` of a run by the next size: the earlier outcomes stay,
      the new one is the read at the position reached, and its data, if it succeeded, is
      appended to what was delivered. */
  lemma RunPrefixStep(medium: seq<byte>, consumed: nat, sizes: seq<nat>, n: nat)
    requires consumed <= |medium| && n < |sizes|
    ensures var o := Read(medium, Position(medium, consumed, sizes[..n]), sizes[n]);
      var before := Run(medium, consumed, sizes[..n]);
      var after := Run(medium, consumed, sizes[..n + 1]);
      after == before + [o] &&
      Position(medium, consumed, sizes[..n + 1]) == o.consumed &&
      Delivered(after) == Delivered(before) + (if o.rc == 0 then o.data else [])
  {
    var o := Read(medium, Position(medium, consumed, sizes[..n]), sizes[n]);
    assert sizes[..n + 1] == sizes[..n] + [sizes[n]];
    RunSnoc(medium, consumed, sizes[..n], sizes[n]);
    DeliveredSnoc(Run(medium, consumed, sizes[..n]), o);
  }

  /** Once the whole medium is consumed, reads deliver nothing more. */
  lemma {:induction false} NothingAfterEnd(medium: seq<byte>, sizes: seq<nat>)
    ensures Delivered(Run(medium, |medium|, sizes)) == []
    decreases |sizes|
  {
    if sizes != [] {
      var os := Run(medium, |medium|, sizes);
      assert os[1..] == Run(medium, |medium|, sizes[1..]);
      NothingAfterEnd(medium, sizes[1..]);
    }
  }

  /** Round trip of a whole run: the bytes delivered by the successful reads, concatenated,
      are exactly the medium bytes from the starting position on, with no byte lost or
      repeated, up to the first exhaustion. */
  lemma {:induction false} RunDeliversPrefix(medium: seq<byte>, consumed: nat, sizes: seq<nat>)
    requires consumed <= |medium|
    ensures var d := Delivered(Run(medium, consumed, sizes));
      consumed + |d| <= |medium| && d == medium[consumed..consumed + |d|]
    decreases |sizes|
  {
    if sizes != [] {
      var o := Read(medium, consumed, sizes[0]);
      var os := Run(medium, consumed, sizes);
      assert os[0] == o && os[1..] == Run(medium, o.consumed, sizes[1..]);
      RunDeliversPrefix(medium, o.consumed, sizes[1..]);
      if o.rc == -1 {
        NothingAfterEnd(medium, sizes[1..]);
      } else {
        var rest := Delivered(Run(medium, o.consumed, sizes[1..]));
        assert medium[consumed..consumed + sizes[0]] + medium[o.consumed..o.consumed + |rest|]
            == medium[consumed..consumed + sizes[0] + |rest|];
      }
    }
  }

  /** Sticky exhaustion: once a read of a run fails, every later read of nonzero length
      in the same run fails too. */
  lemma {:induction false} FailureIsSticky(medium: seq<byte>, consumed: nat, sizes: seq<nat>, i: nat, j: nat)
    requires consumed <= |medium|
    requires i < j < |sizes| && sizes[j] > 0
    requires Run(medium, consumed, sizes)[i].rc == -1
    ensures Run(medium, consumed, sizes)[j].rc == -1
    decreases |sizes|
  {
    var o := Read(medium, consumed, sizes[0]);
    var os := Run(medium, consumed, sizes);
    assert os[0] == o && os[1..] == Run(medium, o.consumed, sizes[1..]);
    if i == 0 {
      StuckAtEnd(medium, sizes[1..], j - 1);
    } else {
      FailureIsSticky(medium, o.consumed, sizes[1..], i - 1, j - 1);
    }
  }

  /** From the end of the medium every read of nonzero length fails. */
  lemma {:induction false} StuckAtEnd(medium: seq<byte>, sizes: seq<nat>, j: nat)
    requires j < |sizes| && sizes[j] > 0
    ensures Run(medium, |medium|, sizes)[j].rc == -1
    decreases |sizes|
  {
    var os := Run(medium, |medium|, sizes);
    assert os[1..] == Run(medium, |medium|, sizes[1..]);
    if j > 0 {
      StuckAtEnd(medium, sizes[1..], j - 1);
    }
  }

  /** After `k` reads of `stride` bytes from the start, the reader has consumed `k * stride`
      bytes if they all fit, and the whole medium otherwise. */
  lemma {:induction false} StridePosition(medium: seq<byte>, stride: nat, k: nat)
    ensures Position(medium, 0, Strides(stride, k)) == if k * stride <= |medium| then k * stride else |medium|
  {
    if k > 0 {
      StridePosition(medium, stride, k - 1);
      RunSnoc(medium, 0, Strides(stride, k - 1), stride);
      assert (k - 1) * stride + stride == k * stride;
      if (k - 1) * stride > |medium| {
        assert k * stride > |medium|;
      }
    }
  }

  /** The check of the test loop: read number `k` (from 0) of a run of `stride`-byte reads
      from the start succeeds exactly when it ends inside the medium, and then it delivers
      the medium bytes at offset `k * stride`, the loop's running offset. */
  lemma StrideRoundTrip(medium: seq<byte>, stride: nat, k: nat)
    ensures var o := Run(medium, 0, Strides(stride, k + 1))[k];
      (o.rc == 0 <==> (k + 1) * stride <= |medium|) &&
      (o.rc == 0 ==> o.data == medium[k * stride..k * stride + stride])
  {
    StridePosition(medium, stride, k);
    RunSnoc(medium, 0, Strides(stride, k), stride);
    assert Strides(stride, k + 1) == Strides(stride, k) + [stride];
    assert k * stride + stride == (k + 1) * stride;
  }
}
