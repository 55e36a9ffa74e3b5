/** Reconstruction of frames from a timestamped, delimiter-free byte
    capture, shared by both capture-log parsers: records are taken in
    order, and a new segment starts when the time since the previous
    accepted record exceeds a threshold (1.0 s in modbus_parser.py, 0.1 s
    in modbus_parser_new.py). Segments are defined from the end, one record
    at a time, which is how both parsers' loops build them. */
module Segmenter {
  import opened Wrappers
  import opened Text

  /** One accepted capture row: its start time and its byte token. */
  datatype Record<T> = Record(time: real, token: T)

  /** The records of the capture rows that `parse` accepts, in order; a
      row it rejects (a missing field, a time that is not a float) is
      skipped. */
  function Accepted<R, T>(rows: seq<R>, parse: R -> Option<Record<T>>): (r: seq<Record<T>>)
    ensures |r| <= |rows|
  {
    if |rows| == 0 then []
    else
      var prev := Accepted(rows[..|rows| - 1], parse);
      match parse(rows[|rows| - 1])
      case Some(rec) => prev + [rec]
      case None => prev
  }

  lemma {:induction false} AcceptedAppend<R, T>(a: seq<R>, b: seq<R>, parse: R -> Option<Record<T>>)
    ensures Accepted(a + b, parse) == Accepted(a, parse) + Accepted(b, parse)
    decreases |b|
  {
    if |b| == 0 {
      assert a + b == a;
    } else {
      var b' := b[..|b| - 1];
      assert (a + b)[..|a + b| - 1] == a + b';
      assert (a + b)[|a + b| - 1] == b[|b| - 1];
      AcceptedAppend(a, b', parse);
    }
  }

  /** A rejected row anywhere in the log changes nothing: the rows around
      it are accepted as if it were absent. */
  lemma SkippedRowIsInvisible<R, T>(before: seq<R>, bad: R, after: seq<R>, parse: R -> Option<Record<T>>)
    requires parse(bad).None?
    ensures Accepted(before + [bad] + after, parse) == Accepted(before + after, parse)
  {
    AcceptedAppend(before + [bad], after, parse);
    AcceptedAppend(before, [bad], parse);
    AcceptedAppend(before, after, parse);
    assert Accepted([bad], parse) == Accepted([], parse) by {
      assert [bad][..0] == [];
    }
  }

  /** One more row extends the accepted records by that row's, if any. */
  lemma AcceptedStep<R, T>(rows: seq<R>, i: nat, parse: R -> Option<Record<T>>)
    requires i < |rows|
    ensures parse(rows[i]).None? ==> Accepted(rows[..i + 1], parse) == Accepted(rows[..i], parse)
    ensures parse(rows[i]).Some? ==>
      Accepted(rows[..i + 1], parse) == Accepted(rows[..i], parse) + [parse(rows[i]).value]
  {
    assert rows[..i + 1][..i] == rows[..i];
  }

  /** The concatenation of a sequence of sequences. */
  function Flatten<T>(segs: seq<seq<T>>): seq<T>
  {
    if |segs| == 0 then [] else Flatten(segs[..|segs| - 1]) + segs[|segs| - 1]
  }

  lemma {:induction false} FlattenAppend<T>(a: seq<seq<T>>, b: seq<seq<T>>)
    ensures Flatten(a + b) == Flatten(a) + Flatten(b)
  {
    if |b| > 0 {
      assert (a + b)[..|a + b| - 1] == a + b[..|b| - 1];
      FlattenAppend(a, b[..|b| - 1]);
    } else {
      assert a + b == a;
    }
  }

  /** Appending a record to the last segment extends the flattening by it. */
  lemma FlattenExtendLast<T>(segs: seq<seq<T>>, x: T)
    requires |segs| > 0
    ensures var m := |segs|;
      Flatten(segs[..m - 1] + [segs[m - 1] + [x]]) == Flatten(segs) + [x]
  {
    var m := |segs|;
    var segs' := segs[..m - 1] + [segs[m - 1] + [x]];
    assert segs'[..m - 1] == segs[..m - 1];
  }

  /** With non-empty segments, the last element of the flattening is the
      last element of the last segment. */
  lemma FlattenLast<T>(segs: seq<seq<T>>)
    requires |segs| > 0 && |segs[|segs| - 1]| > 0
    ensures |Flatten(segs)| > 0
    ensures Flatten(segs)[|Flatten(segs)| - 1] == segs[|segs| - 1][|segs[|segs| - 1]| - 1]
  {
  }

  /** Every element of every segment occurs in the flattening. */
  lemma {:induction false} FlattenMember<T>(segs: seq<seq<T>>, k: nat, j: nat)
    requires k < |segs| && j < |segs[k]|
    ensures segs[k][j] in Flatten(segs)
  {
    var init := segs[..|segs| - 1];
    var last := segs[|segs| - 1];
    assert Flatten(segs) == Flatten(init) + last;
    if k < |segs| - 1 {
      FlattenMember(init, k, j);
    } else {
      assert last[j] == Flatten(segs)[|Flatten(init)| + j];
    }
  }

  /** The segmentation of `recs`: each record either opens a new segment,
      when it comes more than `threshold` after the record before it, or
      joins the current one. */
  function Segments<T>(recs: seq<Record<T>>, threshold: real): (r: seq<seq<Record<T>>>)
    ensures |r| == 0 <==> |recs| == 0
    ensures |r| <= |recs|
  {
    if |recs| == 0 then []
    else
      var prev := Segments(recs[..|recs| - 1], threshold);
      var last := recs[|recs| - 1];
      if |prev| == 0 then [[last]]
      else if last.time - recs[|recs| - 2].time > threshold then prev + [[last]]
      else prev[..|prev| - 1] + [prev[|prev| - 1] + [last]]
  }

  /** No two neighbours in `seg` are more than `threshold` apart. */
  predicate GapsWithin<T>(seg: seq<Record<T>>, threshold: real) {
    forall i :: 0 < i < |seg| ==> seg[i].time - seg[i - 1].time <= threshold
  }

  /** `b` starts more than `threshold` after `a` ends. */
  predicate SplitBetween<T>(a: seq<Record<T>>, b: seq<Record<T>>, threshold: real) {
    |a| > 0 && |b| > 0 && b[0].time - a[|a| - 1].time > threshold
  }

  /** `segs` cuts `recs`, in order and without loss, into non-empty
      segments, splitting exactly at the gaps larger than `threshold`. */
  ghost predicate IsGapPartition<T>(segs: seq<seq<Record<T>>>, recs: seq<Record<T>>, threshold: real) {
    && Flatten(segs) == recs
    && (forall k :: 0 <= k < |segs| ==> |segs[k]| > 0 && GapsWithin(segs[k], threshold))
    && (forall k :: 0 < k < |segs| ==> SplitBetween(segs[k - 1], segs[k], threshold))
  }

  /** A record more than `threshold` after the last one opens a segment
      of its own. */
  lemma SplitKeepsPartition<T>(segs: seq<seq<Record<T>>>, recs: seq<Record<T>>, last: Record<T>, threshold: real)
    requires IsGapPartition(segs, recs, threshold) && |segs| > 0
    requires last.time - recs[|recs| - 1].time > threshold
    ensures IsGapPartition(segs + [[last]], recs + [last], threshold)
  {
    var m := |segs|;
    var segs' := segs + [[last]];
    FlattenLast(segs);
    assert segs'[..m] == segs;
    forall k | 0 < k < |segs'|
      ensures SplitBetween(segs'[k - 1], segs'[k], threshold)
    {
      if k < m {
        assert SplitBetween(segs[k - 1], segs[k], threshold);
      }
    }
  }

  /** A record at most `threshold` after the last one joins the last
      segment. */
  lemma MergeKeepsPartition<T>(segs: seq<seq<Record<T>>>, recs: seq<Record<T>>, last: Record<T>, threshold: real)
    requires IsGapPartition(segs, recs, threshold) && |segs| > 0
    requires last.time - recs[|recs| - 1].time <= threshold
    ensures var m := |segs|;
      IsGapPartition(segs[..m - 1] + [segs[m - 1] + [last]], recs + [last], threshold)
  {
    var m := |segs|;
    var seg := segs[m - 1] + [last];
    var segs' := segs[..m - 1] + [seg];
    FlattenLast(segs);
    FlattenExtendLast(segs, last);
    assert GapsWithin(segs[m - 1], threshold);
    forall i | 0 < i < |seg|
      ensures seg[i].time - seg[i - 1].time <= threshold
    {
      if i < |seg| - 1 {
        assert seg[i] == segs[m - 1][i] && seg[i - 1] == segs[m - 1][i - 1];
      }
    }
    forall k | 0 <= k < |segs'|
      ensures |segs'[k]| > 0 && GapsWithin(segs'[k], threshold)
    {
      if k < m - 1 {
        assert segs'[k] == segs[k];
      }
    }
    forall k | 0 < k < |segs'|
      ensures SplitBetween(segs'[k - 1], segs'[k], threshold)
    {
      assert SplitBetween(segs[k - 1], segs[k], threshold);
      if k == m - 1 {
        assert segs'[k][0] == segs[k][0];
      }
    }
  }

  /** The segmentation is a gap partition: nothing is lost or reordered,
      segments are non-empty, and a split happens exactly where the gap
      exceeds the threshold. */
  lemma {:induction false} SegmentsIsGapPartition<T>(recs: seq<Record<T>>, threshold: real)
    ensures IsGapPartition(Segments(recs, threshold), recs, threshold)
  {
    if |recs| > 0 {
      var n := |recs|;
      var init := recs[..n - 1];
      var last := recs[n - 1];
      var prev := Segments(init, threshold);
      SegmentsIsGapPartition(init, threshold);
      assert recs == init + [last];
      if |prev| == 0 {
        assert Segments(recs, threshold) == [[last]];
        assert Flatten([[last]]) == Flatten([[last]][..0]) + [last];
      } else if last.time - recs[n - 2].time > threshold {
        assert Segments(recs, threshold) == prev + [[last]];
        SplitKeepsPartition(prev, init, last, threshold);
      } else {
        assert Segments(recs, threshold) == prev[..|prev| - 1] + [prev[|prev| - 1] + [last]];
        MergeKeepsPartition(prev, init, last, threshold);
      }
    }
  }

  /** A gap partition with its last segment dropped, or with the last
      record of its last segment dropped, is a gap partition of the
      records before the last one. */
  lemma GapPartitionInit<T>(segs: seq<seq<Record<T>>>, recs: seq<Record<T>>, threshold: real)
    requires IsGapPartition(segs, recs, threshold) && |segs| > 0
    ensures var m := |segs|; var lastSeg := segs[m - 1];
      |recs| > 0 && lastSeg[|lastSeg| - 1] == recs[|recs| - 1]
      && (|lastSeg| == 1 ==> IsGapPartition(segs[..m - 1], recs[..|recs| - 1], threshold))
      && (|lastSeg| > 1 ==> IsGapPartition(segs[..m - 1] + [lastSeg[..|lastSeg| - 1]], recs[..|recs| - 1], threshold))
  {
    var m := |segs|;
    var lastSeg := segs[m - 1];
    assert Flatten(segs) == Flatten(segs[..m - 1]) + lastSeg;
    if |lastSeg| > 1 {
      var shorter := lastSeg[..|lastSeg| - 1];
      var segs' := segs[..m - 1] + [shorter];
      assert shorter + [lastSeg[|lastSeg| - 1]] == lastSeg;
      FlattenExtendLast(segs', lastSeg[|lastSeg| - 1]);
      assert segs'[..m - 1] + [segs'[m - 1] + [lastSeg[|lastSeg| - 1]]] == segs;
      assert recs == Flatten(segs') + [lastSeg[|lastSeg| - 1]];
      assert recs[..|recs| - 1] == Flatten(segs');
      forall k | 0 <= k < |segs'|
        ensures |segs'[k]| > 0 && GapsWithin(segs'[k], threshold)
      {
        if k == m - 1 {
          assert GapsWithin(lastSeg, threshold);
          forall i | 0 < i < |shorter|
            ensures shorter[i].time - shorter[i - 1].time <= threshold
          {
            assert shorter[i] == lastSeg[i] && shorter[i - 1] == lastSeg[i - 1];
          }
        } else {
          assert segs'[k] == segs[k];
        }
      }
      forall k | 0 < k < |segs'|
        ensures SplitBetween(segs'[k - 1], segs'[k], threshold)
      {
        assert SplitBetween(segs[k - 1], segs[k], threshold);
        if k == m - 1 {
          assert segs'[k][0] == segs[k][0];
        }
      }
    } else {
      assert recs == Flatten(segs[..m - 1]) + [lastSeg[0]];
      assert recs[..|recs| - 1] == Flatten(segs[..m - 1]);
    }
  }

  /** Uniqueness, last segment a single record: it was split off. */
  lemma UniqueWhenSplit<T>(segs: seq<seq<Record<T>>>, recs: seq<Record<T>>, threshold: real)
    requires IsGapPartition(segs, recs, threshold) && |segs| > 0 && |recs| > 0
    requires |segs[|segs| - 1]| == 1
    requires segs[..|segs| - 1] == Segments(recs[..|recs| - 1], threshold)
    ensures segs == Segments(recs, threshold)
  {
    var m, n := |segs|, |recs|;
    var last := recs[n - 1];
    var prev := segs[..m - 1];
    assert segs == prev + [[last]] by {
      GapPartitionInit(segs, recs, threshold);
      assert segs[m - 1] == [last];
    }
    if m > 1 {
      assert last.time - recs[n - 2].time > threshold by {
        GapPartitionInit(segs, recs, threshold);
        assert SplitBetween(segs[m - 2], segs[m - 1], threshold);
        assert Flatten(prev) == recs[..n - 1] by {
          assert Flatten(segs) == Flatten(prev) + segs[m - 1];
        }
        FlattenLast(prev);
        assert prev[m - 2] == segs[m - 2];
      }
    } else {
      assert n == 1;
    }
  }

  /** Uniqueness, last segment longer than one record: its last record
      was merged. */
  lemma UniqueWhenMerged<T>(segs: seq<seq<Record<T>>>, recs: seq<Record<T>>, threshold: real)
    requires IsGapPartition(segs, recs, threshold) && |segs| > 0 && |recs| > 0
    requires |segs[|segs| - 1]| > 1
    requires var lastSeg := segs[|segs| - 1];
      segs[..|segs| - 1] + [lastSeg[..|lastSeg| - 1]] == Segments(recs[..|recs| - 1], threshold)
    ensures segs == Segments(recs, threshold)
  {
    var m, n := |segs|, |recs|;
    var lastSeg := segs[m - 1];
    var j := |lastSeg| - 1;
    var shorter := lastSeg[..j];
    var prev := segs[..m - 1] + [shorter];
    GapPartitionInit(segs, recs, threshold);
    var last := recs[n - 1];
    assert GapsWithin(lastSeg, threshold);
    assert lastSeg[j].time - lastSeg[j - 1].time <= threshold;
    FlattenLast(prev);
    assert prev[m - 1] == shorter;
    assert lastSeg[j - 1] == recs[n - 2];
    assert prev[..m - 1] == segs[..m - 1];
    assert shorter + [last] == lastSeg;
    assert segs == segs[..m - 1] + [lastSeg];
    assert Segments(recs, threshold) == prev[..m - 1] + [prev[m - 1] + [last]];
  }

  /** Conversely, the segmentation is the only gap partition: a frame
      boundary is determined by the gaps alone. */
  lemma {:induction false} GapPartitionUnique<T>(segs: seq<seq<Record<T>>>, recs: seq<Record<T>>, threshold: real)
    requires IsGapPartition(segs, recs, threshold)
    ensures segs == Segments(recs, threshold)
    decreases |recs|
  {
    if |segs| == 0 {
      assert |recs| == 0;
    } else {
      var m := |segs|;
      var lastSeg := segs[m - 1];
      GapPartitionInit(segs, recs, threshold);
      if |lastSeg| == 1 {
        GapPartitionUnique(segs[..m - 1], recs[..|recs| - 1], threshold);
        UniqueWhenSplit(segs, recs, threshold);
      } else {
        GapPartitionUnique(segs[..m - 1] + [lastSeg[..|lastSeg| - 1]], recs[..|recs| - 1], threshold);
        UniqueWhenMerged(segs, recs, threshold);
      }
    }
  }

  /** The tokens of a segment, in order. */
  function Tokens<T>(seg: seq<Record<T>>): (r: seq<T>)
    ensures |r| == |seg|
    ensures forall i :: 0 <= i < |seg| ==> r[i] == seg[i].token
  {
    seq(|seg|, i requires 0 <= i < |seg| => seg[i].token)
  }

  lemma TokensAppend<T>(a: seq<Record<T>>, b: seq<Record<T>>)
    ensures Tokens(a + b) == Tokens(a) + Tokens(b)
  {
  }

  /** Each segment's tokens joined into one string (`"".join`). */
  function Join(segs: seq<seq<Record<string>>>): (r: seq<string>)
    ensures |r| == |segs|
    ensures forall k :: 0 <= k < |segs| ==> r[k] == Concat(Tokens(segs[k]))
  {
    seq(|segs|, k requires 0 <= k < |segs| => Concat(Tokens(segs[k])))
  }

  lemma JoinAppend(a: seq<seq<Record<string>>>, b: seq<seq<Record<string>>>)
    ensures Join(a + b) == Join(a) + Join(b)
  {
  }

  /** Joining segment by segment and concatenating gives the tokens of
      the flattened segments, in order. */
  lemma {:induction false} JoinFlatten(segs: seq<seq<Record<string>>>)
    ensures Concat(Join(segs)) == Concat(Tokens(Flatten(segs)))
  {
    if |segs| > 0 {
      var init := segs[..|segs| - 1];
      var last := segs[|segs| - 1];
      JoinFlatten(init);
      JoinAppend(init, [last]);
      assert segs == init + [last];
      assert Join(init + [last])[..|segs| - 1] == Join(init);
      TokensAppend(Flatten(init), last);
      ConcatAppend(Tokens(Flatten(init)), Tokens(last));
    }
  }

  /** No token is lost, duplicated or reordered: the joined segments,
      concatenated, are the concatenation of every record's token. */
  lemma SegmentsKeepTokens(recs: seq<Record<string>>, threshold: real)
    ensures Concat(Join(Segments(recs, threshold))) == Concat(Tokens(recs))
  {
    SegmentsIsGapPartition(recs, threshold);
    JoinFlatten(Segments(recs, threshold));
  }

  /** The state of a grouping loop after the records `recs`: `closed` holds
      the joined segments before the last one, and `open` the tokens of the
      last one, which is still being collected. */
  ghost predicate Progress(recs: seq<Record<string>>, threshold: real, closed: seq<string>, open: seq<string>)
  {
    var segs := Segments(recs, threshold);
    (|recs| == 0 <==> |open| == 0)
    && (|recs| == 0 ==> closed == [])
    && (|recs| > 0 ==> closed == Join(segs[..|segs| - 1]) && open == Tokens(segs[|segs| - 1]))
  }

  lemma ProgressStart(threshold: real)
    ensures Progress([], threshold, [], [])
  {
  }

  /** A record more than `threshold` after the last one: the open segment
      is closed and a new one opened with the record's token. */
  lemma ProgressSplit(recs: seq<Record<string>>, rec: Record<string>, threshold: real, closed: seq<string>, open: seq<string>)
    requires Progress(recs, threshold, closed, open)
    requires |recs| > 0 && rec.time - recs[|recs| - 1].time > threshold
    ensures Progress(recs + [rec], threshold, closed + [Concat(open)], [rec.token])
  {
    var segs := Segments(recs, threshold);
    var all := recs + [rec];
    assert all[..|all| - 1] == recs;
    assert Segments(all, threshold) == segs + [[rec]];
    assert segs[..|segs| - 1] + [segs[|segs| - 1]] == segs;
    JoinAppend(segs[..|segs| - 1], [segs[|segs| - 1]]);
    assert (segs + [[rec]])[..|segs|] == segs;
  }

  /** The first record, or one at most `threshold` after the last: its
      token joins the open segment. */
  lemma ProgressExtend(recs: seq<Record<string>>, rec: Record<string>, threshold: real, closed: seq<string>, open: seq<string>)
    requires Progress(recs, threshold, closed, open)
    requires |recs| > 0 ==> rec.time - recs[|recs| - 1].time <= threshold
    ensures Progress(recs + [rec], threshold, closed, open + [rec.token])
  {
    var segs := Segments(recs, threshold);
    var all := recs + [rec];
    assert all[..|all| - 1] == recs;
    if |recs| == 0 {
      assert Segments(all, threshold) == [[rec]];
    } else {
      var last := segs[|segs| - 1];
      var init := segs[..|segs| - 1];
      assert Segments(all, threshold) == init + [last + [rec]];
      TokensAppend(last, [rec]);
      assert (init + [last + [rec]])[..|segs| - 1] == init;
    }
  }

  /** Closing the open segment, if any, yields every joined segment. */
  lemma ProgressFinish(recs: seq<Record<string>>, threshold: real, closed: seq<string>, open: seq<string>)
    requires Progress(recs, threshold, closed, open)
    ensures (if |open| > 0 then closed + [Concat(open)] else closed) == Join(Segments(recs, threshold))
  {
    var segs := Segments(recs, threshold);
    if |recs| > 0 {
      JoinAppend(segs[..|segs| - 1], [segs[|segs| - 1]]);
      assert segs[..|segs| - 1] + [segs[|segs| - 1]] == segs;
    }
  }

  /** No gap between neighbours lies in the interval `(lo, hi]`. */
  predicate NoGapBetween<T>(recs: seq<Record<T>>, lo: real, hi: real)
  {
    forall i :: 0 < i < |recs| ==> !(lo < recs[i].time - recs[i - 1].time <= hi)
  }

  /** Two thresholds cut a log the same way when none of its gaps falls
      between them. */
  lemma {:induction false} SameSegmentsAcrossThresholds<T>(recs: seq<Record<T>>, lo: real, hi: real)
    requires lo <= hi && NoGapBetween(recs, lo, hi)
    ensures Segments(recs, lo) == Segments(recs, hi)
  {
    if |recs| > 0 {
      var init := recs[..|recs| - 1];
      assert NoGapBetween(init, lo, hi) by {
        forall i | 0 < i < |init|
          ensures !(lo < init[i].time - init[i - 1].time <= hi)
        {
          assert init[i] == recs[i] && init[i - 1] == recs[i - 1];
        }
      }
      SameSegmentsAcrossThresholds(init, lo, hi);
      if |recs| > 1 {
        var gap := recs[|recs| - 1].time - recs[|recs| - 2].time;
        assert !(lo < gap <= hi);
      }
    }
  }
}
