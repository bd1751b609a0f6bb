/**
 * `find_rle` of kmod/update.c: literal and repeated spans of a buffer, found eight bytes at a time
 * and specified one byte at a time.
 */
module RleScan {
  import opened Bytes
  import opened Callback
  import opened Words

  /** A reported span: `len` bytes from `off`, sent as one repeated byte if `rle`. */
  datatype Segment = Segment(off: nat, len: nat, rle: bool)

  /** All bytes of `s..e` are equal. */
  ghost predicate Constant(buf: seq<u8>, s: nat, e: nat) {
    s <= e <= |buf| && forall k | s <= k < e :: buf[k] == buf[s]
  }

  /** `s..e` is a run of equal bytes that cannot be extended on either side. */
  ghost predicate IsRun(buf: seq<u8>, s: nat, e: nat) {
    && s < e && Constant(buf, s, e)
    && (s > 0 ==> buf[s - 1] != buf[s])
    && (e < |buf| ==> buf[e] != buf[s])
  }

  /** The end of the run of equal bytes that starts at `i`. */
  function RunEnd(buf: seq<u8>, i: nat): (e: nat)
    requires i < |buf|
    ensures i < e && Constant(buf, i, e) && (e < |buf| ==> buf[e] != buf[i])
    decreases |buf| - i
  {
    if i + 1 < |buf| && buf[i + 1] == buf[i] then RunEnd(buf, i + 1) else i + 1
  }

  /**
   * Is the run `s..e` sent as a repeated byte? It must be long enough and, because the scanner
   * looks for runs at the last byte of each full word, it must hold such a byte.
   */
  predicate Kept(s: nat, e: nat, minRun: nat)
    requires s < e
  {
    e / 8 > s / 8 && e - s >= minRun
  }

  function Literal(lit: nat, end: nat): seq<Segment> {
    if lit < end then [Segment(lit, end - lit, false)] else []
  }

  /**
   * The reference: look at the runs from `i` on one after the other; `lit` is the first byte that
   * is not yet reported.
   */
  function Split(buf: seq<u8>, minRun: nat, lit: nat, i: nat): seq<Segment>
    requires lit <= i <= |buf|
    decreases |buf| - i
  {
    if i == |buf| then
      Literal(lit, i)
    else
      var e := RunEnd(buf, i);
      if Kept(i, e, minRun) then
        Literal(lit, i) + [Segment(i, e - i, true)] + Split(buf, minRun, e, e)
      else
        Split(buf, minRun, lit, e)
  }

  function Segments(buf: seq<u8>, minRun: nat): seq<Segment> {
    Split(buf, minRun, 0, 0)
  }

  // ---- What the reference means ----

  /** The segments cover `lo..hi` in order without overlap, and no two literals are neighbours. */
  ghost predicate Partition(segs: seq<Segment>, lo: nat, hi: nat) {
    if segs == [] then lo == hi
    else
      && segs[0].off == lo && segs[0].len > 0
      && (|segs| > 1 ==> segs[0].rle || segs[1].rle)
      && Partition(segs[1..], lo + segs[0].len, hi)
  }

  /** Run boundaries: a byte position at which no run continues. */
  ghost predicate Boundary(buf: seq<u8>, i: nat) {
    i <= |buf| && (0 < i < |buf| ==> buf[i - 1] != buf[i])
  }

  /** A run, and the literal before it if there is one, in front of a partition. */
  lemma RunInFront(lit: nat, i: nat, e: nat, tail: seq<Segment>, hi: nat)
    requires lit <= i < e && Partition(tail, e, hi)
    ensures Partition(Literal(lit, i) + [Segment(i, e - i, true)] + tail, lit, hi)
  {
    var rest := [Segment(i, e - i, true)] + tail;
    assert rest[1..] == tail;
    if lit < i {
      var all := [Segment(lit, i - lit, false)] + rest;
      assert all[1..] == rest;
      assert Literal(lit, i) + [Segment(i, e - i, true)] + tail == all;
    } else {
      assert Literal(lit, i) + [Segment(i, e - i, true)] + tail == rest;
    }
  }

  lemma {:induction false} SplitIsPartition(buf: seq<u8>, minRun: nat, lit: nat, i: nat)
    requires lit <= i <= |buf|
    ensures Partition(Split(buf, minRun, lit, i), lit, |buf|)
    decreases |buf| - i
  {
    if i < |buf| {
      var e := RunEnd(buf, i);
      if Kept(i, e, minRun) {
        SplitIsPartition(buf, minRun, e, e);
        RunInFront(lit, i, e, Split(buf, minRun, e, e), |buf|);
      } else {
        SplitIsPartition(buf, minRun, lit, e);
      }
    }
  }

  /** A maximal run that starts at or after the boundary `i` starts at `i` or after the run at `i`. */
  lemma RunsFrom(buf: seq<u8>, i: nat, s: nat, e: nat)
    requires i < |buf| && Boundary(buf, i) && s < e
    ensures IsRun(buf, i, RunEnd(buf, i)) && Boundary(buf, RunEnd(buf, i))
    ensures s >= i && IsRun(buf, s, e) ==> s >= RunEnd(buf, i) || (s == i && e == RunEnd(buf, i))
  {}

  /** The repeated spans are exactly the kept runs. */
  lemma {:induction false} SplitKeeps(buf: seq<u8>, minRun: nat, lit: nat, i: nat, s: nat, e: nat)
    requires lit <= i <= |buf| && Boundary(buf, i) && s < e
    ensures Segment(s, e - s, true) in Split(buf, minRun, lit, i) <==>
              s >= i && IsRun(buf, s, e) && Kept(s, e, minRun)
    decreases |buf| - i
  {
    if i < |buf| {
      var j := RunEnd(buf, i);
      RunsFrom(buf, i, s, e);
      if Kept(i, j, minRun) {
        SplitKeeps(buf, minRun, j, j, s, e);
        assert Segment(s, e - s, true) == Segment(i, j - i, true) <==> s == i && e == j;
      } else {
        SplitKeeps(buf, minRun, lit, j, s, e);
      }
    }
  }

  /**
   * The segments partition the buffer in order, no literal is followed by a literal, and the
   * repeated spans are exactly the maximal runs that are long enough and hold the last byte of a
   * word.
   */
  lemma SegmentsAreTheKeptRuns(buf: seq<u8>, minRun: nat)
    ensures Partition(Segments(buf, minRun), 0, |buf|)
    ensures forall s: nat, e: nat | s < e ::
              Segment(s, e - s, true) in Segments(buf, minRun)
              <==> IsRun(buf, s, e) && e - s >= minRun && e / 8 > s / 8
  {
    SplitIsPartition(buf, minRun, 0, 0);
    forall s: nat, e: nat | s < e
      ensures Segment(s, e - s, true) in Segments(buf, minRun)
              <==> IsRun(buf, s, e) && e - s >= minRun && e / 8 > s / 8
    {
      SplitKeeps(buf, minRun, 0, 0, s, e);
    }
  }

  /**
   * The promise "find ALL runs of at least `minRun` bytes" is met on every buffer exactly when
   * `minRun` is at least a word. Seven zeros before a one are missed by any smaller threshold.
   */
  lemma FindsAllRunsIff(minRun: nat)
    ensures (forall buf: seq<u8>, s: nat, e: nat | IsRun(buf, s, e) && e - s >= minRun ::
               Segment(s, e - s, true) in Segments(buf, minRun))
       <==> minRun >= 8
  {
    if minRun >= 8 {
      forall buf: seq<u8>, s: nat, e: nat | IsRun(buf, s, e) && e - s >= minRun
        ensures Segment(s, e - s, true) in Segments(buf, minRun)
      {
        SplitKeeps(buf, minRun, 0, 0, s, e);
      }
    } else {
      var buf: seq<u8> := [0, 0, 0, 0, 0, 0, 0, 1];
      assert IsRun(buf, 0, 7);
      SplitKeeps(buf, minRun, 0, 0, 0, 7);
    }
  }

  // ---- Scanning word by word ----

  /** Runs inside one word that stop short of its last byte are passed over. */
  lemma {:induction false} PassOver(buf: seq<u8>, minRun: nat, lit: nat, i: nat, j: nat)
    requires lit <= i <= j <= |buf| && i / 8 == j / 8 && Boundary(buf, j)
    ensures Split(buf, minRun, lit, i) == Split(buf, minRun, lit, j)
    decreases j - i
  {
    if i < j {
      var e := RunEnd(buf, i);
      assert e <= j;
      PassOver(buf, minRun, lit, e, j);
    }
  }

  /** What `trailing` and `leading` count: how many bytes at an end of word `w` equal `byte`. */
  method MatchSpread(buf: seq<u8>, w: nat, byte: u8) returns (leading: nat, trailing: nat)
    requires 8 * w + 8 <= |buf|
    ensures leading <= 8 && trailing <= 8 && (leading == 8 <==> trailing == 8)
    ensures forall k | 8 * w <= k < 8 * w + leading :: buf[k] == byte
    ensures leading < 8 ==> buf[8 * w + leading] != byte
    ensures forall k | 8 * w + 8 - trailing <= k < 8 * w + 8 :: buf[k] == byte
    ensures trailing < 8 ==> buf[8 * w + 7 - trailing] != byte
  {
    var word := buf[8 * w..8 * w + 8];
    var zero, lzb, tzb := XorSpread(word, byte);
    leading, trailing := if zero then 8 else lzb, if zero then 8 else tzb;
    assert forall k | 8 * w <= k < 8 * w + 8 :: buf[k] == word[k - 8 * w];
  }

  /** What the scanner finds in word `w`: the run `runStart..runEnd` through its last byte. */
  ghost predicate Found(buf: seq<u8>, w: nat, lit: nat, runStart: nat, runEnd: nat) {
    && runStart <= 8 * w + 7 < runEnd && Constant(buf, runStart, runEnd)
    && (runEnd < |buf| ==> buf[runEnd] != buf[runStart])
    && (runStart > 8 * w ==> buf[runStart - 1] != buf[runStart])
    && (runStart < 8 * w ==> runStart >= lit && w > 0 && buf[8 * w - 1] == buf[runStart])
  }

  /**
   * The run through the last byte of word `w`: its extension backwards into the previous word and
   * forwards over the following words and the tail.
   */
  method RunThrough(buf: seq<u8>, w: nat, litStart: nat) returns (runStart: nat, runEnd: nat)
    requires 8 * w + 8 <= |buf|
    ensures Found(buf, w, litStart, runStart, runEnd)
  {
    var byte := LastByteOf(buf[8 * w..8 * w + 8]);
    assert byte == buf[8 * w + 7];
    var leading, trailing := MatchSpread(buf, w, byte);
    if trailing == 0 {
      assert false;  // the last byte of a word matches itself
    }
    runStart := (w + 1) * 8 - trailing;
    if trailing == 8 && w > 0 && runStart > litStart {
      var _, prevMatch := MatchSpread(buf, w - 1, byte);
      if prevMatch > 0 {
        var extendedStart := w * 8 - prevMatch;
        if extendedStart >= litStart {
          runStart := extendedStart;
        }
      }
    }
    var words, tail := |buf| / 8, |buf| % 8;
    var wend := w + 1;
    while wend < words
      invariant w < wend <= words
      invariant forall k | runStart <= k < 8 * wend :: buf[k] == byte
    {
      leading, trailing := MatchSpread(buf, wend, byte);
      if leading < 8 {
        runEnd := wend * 8 + leading;
        return;
      }
      wend := wend + 1;
    }
    runEnd := words * 8;
    if tail > 0 {
      var tailMatch := 0;
      while tailMatch < tail && buf[words * 8 + tailMatch] == byte
        invariant tailMatch <= tail
        invariant forall k | runStart <= k < 8 * words + tailMatch :: buf[k] == byte
      {
        tailMatch := tailMatch + 1;
      }
      runEnd := runEnd + tailMatch;
    }
  }

  /**
   * The scanner has dealt with the words before `w`: `s..e` is the run through the last byte before
   * word `w`, and it was either just reported or was too short.
   */
  ghost predicate Handled(buf: seq<u8>, minRun: nat, w: nat, lit: nat, s: nat, e: nat) {
    && lit <= e <= |buf|
    && if w == 0 then e == 0
       else
         && s < 8 * w <= e && IsRun(buf, s, e)
         && ((lit == e && e < 8 * w + 8) || (lit <= s && e - s < minRun))
  }

  /** The run found in word `w` is the old run, still too short, or it is the next one to decide on. */
  lemma NextRun(buf: seq<u8>, minRun: nat, lit: nat, w: nat, s: nat, e: nat, runStart: nat, runEnd: nat)
    requires 8 * w + 8 <= |buf|
    requires Handled(buf, minRun, w, lit, s, e) && Found(buf, w, lit, runStart, runEnd)
    ensures e > 8 * w + 7 ==> runEnd - runStart < minRun
    ensures e <= 8 * w + 7 ==>
              && lit <= e <= runStart && IsRun(buf, runStart, runEnd) && RunEnd(buf, runStart) == runEnd
              && Split(buf, minRun, lit, e) == Split(buf, minRun, lit, runStart)
  {
    if e > 8 * w + 7 {
      assert s <= runStart && runEnd == e;
    } else {
      assert e <= runStart;
      PassOver(buf, minRun, lit, e, runStart);
    }
  }

  /** A run that is too short joins the literal; the scanner moves on to the next word. */
  lemma RunTooShort(buf: seq<u8>, minRun: nat, lit: nat, w: nat, s: nat, e: nat, runStart: nat, runEnd: nat)
    returns (s': nat, e': nat)
    requires 8 * w + 8 <= |buf|
    requires Handled(buf, minRun, w, lit, s, e) && Found(buf, w, lit, runStart, runEnd)
    requires runEnd - runStart < minRun
    ensures Handled(buf, minRun, w + 1, lit, s', e')
    ensures Split(buf, minRun, lit, e') == Split(buf, minRun, lit, e)
  {
    NextRun(buf, minRun, lit, w, s, e, runStart, runEnd);
    s', e' := if e > 8 * w + 7 then s else runStart, if e > 8 * w + 7 then e else runEnd;
  }

  /** A run that is long enough is reported after the pending literal. */
  lemma RunReported(buf: seq<u8>, minRun: nat, lit: nat, w: nat, s: nat, e: nat, runStart: nat, runEnd: nat)
    requires 8 * w + 8 <= |buf|
    requires Handled(buf, minRun, w, lit, s, e) && Found(buf, w, lit, runStart, runEnd)
    requires runEnd - runStart >= minRun
    ensures runStart / 8 <= w < runEnd / 8 <= |buf| / 8 && lit <= runStart
    ensures Handled(buf, minRun, runEnd / 8, runEnd, runStart, runEnd)
    ensures Split(buf, minRun, lit, e)
         == Literal(lit, runStart) + [Segment(runStart, runEnd - runStart, true)]
            + Split(buf, minRun, runEnd, runEnd)
  {
    NextRun(buf, minRun, lit, w, s, e, runStart, runEnd);
  }

  /** After the last full word only a literal can follow. */
  lemma Finish(buf: seq<u8>, minRun: nat, lit: nat, w: nat, s: nat, e: nat)
    requires w == |buf| / 8 && Handled(buf, minRun, w, lit, s, e)
    ensures Split(buf, minRun, lit, e) == Literal(lit, |buf|)
  {
    PassOver(buf, minRun, lit, e, |buf|);
  }

  /** Report the pending literal, if there is one. */
  method ReportLiteral(calls: seq<Segment>, lit: nat, end: nat, accept: nat -> bool,
                       ghost rest: seq<Segment>, ghost all: seq<Segment>)
    returns (ok: bool, calls': seq<Segment>)
    requires Going(calls, Literal(lit, end) + rest, all, accept)
    ensures ok ==> Going(calls', rest, all, accept)
    ensures !ok ==> Done(false, calls', all, accept)
  {
    if end > lit {
      ok, calls' := Report(calls, Segment(lit, end - lit, false), accept, rest, all);
    } else {
      ok, calls' := true, calls;
      assert Literal(lit, end) + rest == rest;
    }
  }

  /** Report a run, and the pending literal before it. */
  method ReportRun(calls: seq<Segment>, litStart: nat, runStart: nat, runLen: nat, accept: nat -> bool,
                   ghost rest: seq<Segment>, ghost all: seq<Segment>)
    returns (ok: bool, calls': seq<Segment>)
    requires Going(calls, Literal(litStart, runStart) + [Segment(runStart, runLen, true)] + rest, all, accept)
    ensures ok ==> Going(calls', rest, all, accept)
    ensures !ok ==> Done(false, calls', all, accept)
  {
    ghost var run := [Segment(runStart, runLen, true)];
    assert Literal(litStart, runStart) + run + rest == Literal(litStart, runStart) + (run + rest);
    ok, calls' := ReportLiteral(calls, litStart, runStart, accept, run + rest, all);
    if ok {
      ok, calls' := Report(calls', Segment(runStart, runLen, true), accept, rest, all);
    }
  }

  /** One turn of the loop of `find_rle`: from word `w` to the next word to look at. */
  method ScanWord(buf: seq<u8>, minRun: nat, accept: nat -> bool, calls: seq<Segment>, w: nat, litStart: nat,
                  ghost s: nat, ghost e: nat, ghost all: seq<Segment>)
    returns (ok: bool, calls': seq<Segment>, w': nat, litStart': nat, ghost s': nat, ghost e': nat)
    requires w < |buf| / 8 && Handled(buf, minRun, w, litStart, s, e)
    requires Going(calls, Split(buf, minRun, litStart, e), all, accept)
    ensures if ok then
              && w < w' <= |buf| / 8 && Handled(buf, minRun, w', litStart', s', e')
              && Going(calls', Split(buf, minRun, litStart', e'), all, accept)
            else Done(false, calls', all, accept)
  {
    var runStart, runEnd := RunThrough(buf, w, litStart);
    var runLen := runEnd - runStart;
    if runLen >= minRun {
      RunReported(buf, minRun, litStart, w, s, e, runStart, runEnd);
      ok, calls' := ReportRun(calls, litStart, runStart, runLen, accept, Split(buf, minRun, runEnd, runEnd), all);
      litStart', s', e' := runEnd, runStart, runEnd;
      w' := runEnd / 8;
      if w' <= runStart / 8 {
        assert false;  // the run holds the last byte of a word
      }
    } else {
      ok, calls', litStart' := true, calls, litStart;
      s', e' := RunTooShort(buf, minRun, litStart, w, s, e, runStart, runEnd);
      w' := w + 1;
    }
  }

  /** `find_rle`, for any threshold. */
  method FindRle(buf: seq<u8>, minRun: nat, accept: nat -> bool) returns (ok: bool, calls: seq<Segment>)
    ensures Done(ok, calls, Segments(buf, minRun), accept)
  {
    var len := |buf|;
    ghost var all := Segments(buf, minRun);
    calls := [];
    if len == 0 {
      return true, calls;
    }
    if len < 8 {
      PassOver(buf, minRun, 0, 0, len);
      ok, calls := Report(calls, Segment(0, len, false), accept, [], all);
      return;
    }
    var words := len / 8;
    var litStart: nat, w: nat := 0, 0;
    ghost var s: nat, e: nat := 0, 0;
    while w < words
      invariant w <= words && Handled(buf, minRun, w, litStart, s, e)
      invariant Going(calls, Split(buf, minRun, litStart, e), all, accept)
      decreases words - w
    {
      ok, calls, w, litStart, s, e := ScanWord(buf, minRun, accept, calls, w, litStart, s, e, all);
      if !ok {
        return;
      }
    }
    Finish(buf, minRun, litStart, w, s, e);
    ok, calls := ReportLiteral(calls, litStart, len, accept, [], all);
  }
}
