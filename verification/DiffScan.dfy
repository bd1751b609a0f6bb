/**
 * `find_diffs` of kmod/update.c: the differing regions of two buffers, found eight bytes at a time
 * and specified one byte at a time.
 */
module DiffScan {
  import opened Bytes
  import opened Callback
  import opened Words

  /** A reported region: `start` is its first byte, `end` is one past its last byte. */
  datatype Region = Region(start: nat, end: nat)

  /**
   * Are the differing bytes `p < q`, with only equal bytes between them, reported in separate
   * regions? They are when a whole equal word lies between them, or when they lie in neighbouring
   * words with at least `gap` equal bytes between them; never inside one word.
   */
  predicate Splits(p: nat, q: nat, gap: nat)
    requires p < q
  {
    q / 8 > p / 8 + 1 || (q / 8 == p / 8 + 1 && q - p - 1 >= gap)
  }

  /**
   * The reference: read the bytes `i..n` one by one, with the region `open` still growing, and
   * return it and all later regions.
   */
  function Scan(a: seq<u8>, b: seq<u8>, gap: nat, n: nat, i: nat, open: Option<Region>): seq<Region>
    requires i <= n <= |a| && n <= |b|
    requires open.Some? ==> open.value.start < open.value.end <= i
    decreases n - i
  {
    if i == n then
      if open.Some? then [open.value] else []
    else if a[i] == b[i] then
      Scan(a, b, gap, n, i + 1, open)
    else if open.None? then
      Scan(a, b, gap, n, i + 1, Some(Region(i, i + 1)))
    else if Splits(open.value.end - 1, i, gap) then
      [open.value] + Scan(a, b, gap, n, i + 1, Some(Region(i, i + 1)))
    else
      Scan(a, b, gap, n, i + 1, Some(Region(open.value.start, i + 1)))
  }

  /** The regions of the first `len` bytes; a tail shorter than a word is not scanned. */
  function Regions(a: seq<u8>, b: seq<u8>, len: nat, gap: nat): seq<Region>
    requires len <= |a| && len <= |b|
  {
    Scan(a, b, gap, len / 8 * 8, 0, None)
  }

  // ---- What the reference means ----

  /** Some region holds the byte `q`. */
  ghost predicate Covered(rs: seq<Region>, q: nat) {
    exists k :: 0 <= k < |rs| && rs[k].start <= q < rs[k].end
  }

  /** Each region is nonempty, inside the buffer, and starts and ends on a differing byte. */
  ghost predicate Tight(a: seq<u8>, b: seq<u8>, n: nat, rs: seq<Region>)
    requires n <= |a| && n <= |b|
  {
    forall k | 0 <= k < |rs| ::
      && rs[k].start < rs[k].end <= n
      && a[rs[k].start] != b[rs[k].start]
      && a[rs[k].end - 1] != b[rs[k].end - 1]
  }

  /** Regions come in order, with at least `min(8, gap)` bytes between neighbours. */
  ghost predicate Spaced(gap: nat, rs: seq<Region>) {
    forall k | 0 < k < |rs| ::
      rs[k - 1].end + (if gap < 8 then gap else 8) <= rs[k].start
  }

  lemma SplitsApart(p: nat, q: nat, gap: nat)
    requires p < q && Splits(p, q, gap)
    ensures p + 1 + (if gap < 8 then gap else 8) <= q
  {}

  lemma RegionBefore(a: seq<u8>, b: seq<u8>, gap: nat, n: nat, r: Region, rs: seq<Region>)
    requires n <= |a| && n <= |b| && Tight(a, b, n, [r]) && Tight(a, b, n, rs) && Spaced(gap, rs)
    requires rs != [] ==> r.end + (if gap < 8 then gap else 8) <= rs[0].start
    ensures Tight(a, b, n, [r] + rs) && Spaced(gap, [r] + rs)
  {
    var all := [r] + rs;
    assert [r][0] == r;
    assert forall k | 0 < k < |all| :: all[k] == rs[k - 1];
  }

  lemma {:induction false} ScanMeaning(a: seq<u8>, b: seq<u8>, gap: nat, n: nat, i: nat, open: Option<Region>)
    requires i <= n <= |a| && n <= |b|
    requires open.Some? ==>
               && open.value.start < open.value.end <= i
               && a[open.value.start] != b[open.value.start]
               && a[open.value.end - 1] != b[open.value.end - 1]
    ensures var rs := Scan(a, b, gap, n, i, open);
            && Tight(a, b, n, rs) && Spaced(gap, rs)
            && (open.Some? ==> |rs| > 0 && rs[0].start == open.value.start && rs[0].end >= open.value.end)
            && (open.None? && |rs| > 0 ==> rs[0].start >= i)
    decreases n - i
  {
    if i < n {
      if a[i] == b[i] {
        ScanMeaning(a, b, gap, n, i + 1, open);
      } else if open.Some? && Splits(open.value.end - 1, i, gap) {
        ScanMeaning(a, b, gap, n, i + 1, Some(Region(i, i + 1)));
        SplitsApart(open.value.end - 1, i, gap);
        RegionBefore(a, b, gap, n, open.value, Scan(a, b, gap, n, i + 1, Some(Region(i, i + 1))));
      } else {
        ScanMeaning(a, b, gap, n, i + 1, Some(Region(if open.Some? then open.value.start else i, i + 1)));
      }
    }
  }

  lemma CoveredLater(rs: seq<Region>, r: Region, q: nat)
    requires Covered(rs, q)
    ensures Covered([r] + rs, q)
  {
    var k :| 0 <= k < |rs| && rs[k].start <= q < rs[k].end;
    assert ([r] + rs)[k + 1] == rs[k];
  }

  lemma {:induction false} ScanCovers(a: seq<u8>, b: seq<u8>, gap: nat, n: nat, i: nat, open: Option<Region>, q: nat)
    requires i <= n <= |a| && n <= |b| && q < n
    requires open.Some? ==> open.value.start < open.value.end <= i
    requires (i <= q && a[q] != b[q]) || (open.Some? && open.value.start <= q < open.value.end)
    ensures Covered(Scan(a, b, gap, n, i, open), q)
    decreases n - i
  {
    var rs := Scan(a, b, gap, n, i, open);
    if i == n {
      assert rs[0] == open.value;
    } else if a[i] == b[i] {
      ScanCovers(a, b, gap, n, i + 1, open, q);
    } else if open.Some? && Splits(open.value.end - 1, i, gap) {
      if i <= q {
        ScanCovers(a, b, gap, n, i + 1, Some(Region(i, i + 1)), q);
        CoveredLater(Scan(a, b, gap, n, i + 1, Some(Region(i, i + 1))), open.value, q);
      } else {
        assert rs[0] == open.value;
      }
    } else {
      ScanCovers(a, b, gap, n, i + 1, Some(Region(if open.Some? then open.value.start else i, i + 1)), q);
    }
  }

  /**
   * Regions are ordered, disjoint and apart, start and end on a differing byte, and cover every
   * differing byte of the scanned words.
   */
  lemma RegionsAreTheDifferences(a: seq<u8>, b: seq<u8>, len: nat, gap: nat)
    requires len <= |a| && len <= |b|
    ensures var n, rs := len / 8 * 8, Regions(a, b, len, gap);
            && Tight(a, b, n, rs) && Spaced(gap, rs)
            && forall q | 0 <= q < n && a[q] != b[q] :: Covered(rs, q)
  {
    var n := len / 8 * 8;
    ScanMeaning(a, b, gap, n, 0, None);
    forall q | 0 <= q < n && a[q] != b[q]
      ensures Covered(Regions(a, b, len, gap), q)
    {
      ScanCovers(a, b, gap, n, 0, None, q);
    }
  }

  /** The same for a whole number of words. */
  lemma WholeRegions(a: seq<u8>, b: seq<u8>, len: nat, gap: nat)
    requires len <= |a| && len <= |b| && len % 8 == 0
    ensures var rs := Regions(a, b, len, gap);
            && Tight(a, b, len, rs) && Spaced(gap, rs)
            && forall q | 0 <= q < len && a[q] != b[q] :: Covered(rs, q)
  {
    RegionsAreTheDifferences(a, b, len, gap);
    assert len / 8 * 8 == len;
  }

  // ---- Where regions are split ----

  /** Some region holds both bytes. */
  ghost predicate Together(rs: seq<Region>, p: nat, q: nat) {
    exists k :: 0 <= k < |rs| && rs[k].start <= p && q < rs[k].end
  }

  lemma TogetherLater(r: Region, rs: seq<Region>, p: nat, q: nat)
    requires r.end <= q
    ensures Together([r] + rs, p, q) <==> Together(rs, p, q)
  {
    if Together(rs, p, q) {
      var k :| 0 <= k < |rs| && rs[k].start <= p && q < rs[k].end;
      assert ([r] + rs)[k + 1] == rs[k];
    }
  }

  lemma {:induction false} StartsRise(gap: nat, rs: seq<Region>, k: nat)
    requires Spaced(gap, rs) && k < |rs| && forall j | 0 <= j < |rs| :: rs[j].start < rs[j].end
    ensures rs[0].start <= rs[k].start
  {
    if k > 0 {
      StartsRise(gap, rs, k - 1);
    }
  }

  lemma NotTogether(gap: nat, rs: seq<Region>, p: nat, q: nat)
    requires Spaced(gap, rs) && (forall j | 0 <= j < |rs| :: rs[j].start < rs[j].end)
    requires rs != [] ==> p < rs[0].start
    ensures !Together(rs, p, q)
  {
    forall k | 0 <= k < |rs|
      ensures rs[k].start > p
    {
      StartsRise(gap, rs, k);
    }
  }

  /** `p` and `q` are neighbouring differences. */
  ghost predicate Neighbours(a: seq<u8>, b: seq<u8>, n: nat, p: nat, q: nat)
    requires n <= |a| && n <= |b|
  {
    p < q < n && a[p] != b[p] && a[q] != b[q] && forall k | p < k < q :: a[k] == b[k]
  }

  /** The scanner stands at the second of the two. */
  lemma SplitAt(a: seq<u8>, b: seq<u8>, gap: nat, n: nat, r: Region, p: nat, q: nat)
    requires n <= |a| && n <= |b| && Neighbours(a, b, n, p, q)
    requires r.start < r.end == p + 1 && a[r.start] != b[r.start]
    ensures Together(Scan(a, b, gap, n, q, Some(r)), p, q) <==> !Splits(p, q, gap)
  {
    var rs := Scan(a, b, gap, n, q, Some(r));
    if Splits(p, q, gap) {
      var tail := Scan(a, b, gap, n, q + 1, Some(Region(q, q + 1)));
      ScanMeaning(a, b, gap, n, q + 1, Some(Region(q, q + 1)));
      assert rs == [r] + tail;
      TogetherLater(r, tail, p, q);
      NotTogether(gap, tail, p, q);
    } else {
      ScanMeaning(a, b, gap, n, q + 1, Some(Region(r.start, q + 1)));
      assert rs[0].start <= p && q < rs[0].end;
    }
  }

  lemma {:induction false} SplitFrom(a: seq<u8>, b: seq<u8>, gap: nat, n: nat, i: nat, open: Option<Region>,
                                     p: nat, q: nat)
    requires n <= |a| && n <= |b| && Neighbours(a, b, n, p, q) && i <= q
    requires open.Some? ==> open.value.start < open.value.end <= i && a[open.value.start] != b[open.value.start]
    requires i > p ==> open.Some? && open.value.end == p + 1
    ensures Together(Scan(a, b, gap, n, i, open), p, q) <==> !Splits(p, q, gap)
    decreases n - i
  {
    if i == q {
      SplitAt(a, b, gap, n, open.value, p, q);
    } else if a[i] == b[i] {
      SplitFrom(a, b, gap, n, i + 1, open, p, q);
    } else if open.Some? && Splits(open.value.end - 1, i, gap) {
      SplitFrom(a, b, gap, n, i + 1, Some(Region(i, i + 1)), p, q);
      TogetherLater(open.value, Scan(a, b, gap, n, i + 1, Some(Region(i, i + 1))), p, q);
    } else {
      SplitFrom(a, b, gap, n, i + 1, Some(Region(if open.Some? then open.value.start else i, i + 1)), p, q);
    }
  }

  /**
   * Neighbouring differences go out in one region unless a whole equal word lies between them, or
   * they lie in neighbouring words with at least `gap` equal bytes between them.
   */
  lemma SplitExactly(a: seq<u8>, b: seq<u8>, len: nat, gap: nat, p: nat, q: nat)
    requires len <= |a| && len <= |b| && Neighbours(a, b, len / 8 * 8, p, q)
    ensures Together(Regions(a, b, len, gap), p, q)
       <==> !(q / 8 > p / 8 + 1 || (q / 8 == p / 8 + 1 && q - p - 1 >= gap))
  {
    SplitFrom(a, b, gap, len / 8 * 8, 0, None, p, q);
  }

  // ---- Scanning word by word ----

  /** Equal bytes leave the open region as it is. */
  lemma {:induction false} SkipEqual(a: seq<u8>, b: seq<u8>, gap: nat, n: nat, i: nat, j: nat, open: Option<Region>)
    requires i <= j <= n <= |a| && n <= |b|
    requires open.Some? ==> open.value.start < open.value.end <= i
    requires forall k | i <= k < j :: a[k] == b[k]
    ensures Scan(a, b, gap, n, i, open) == Scan(a, b, gap, n, j, open)
    decreases j - i
  {
    if i < j {
      SkipEqual(a, b, gap, n, i + 1, j, open);
    }
  }

  /** An open region is closed when the next differing byte, if any, is split from it. */
  lemma {:induction false} Close(a: seq<u8>, b: seq<u8>, gap: nat, n: nat, i: nat, r: Region)
    requires r.start < r.end <= i <= n <= |a| && n <= |b|
    requires forall q | i <= q < n && a[q] != b[q] && (forall k | i <= k < q :: a[k] == b[k]) ::
               Splits(r.end - 1, q, gap)
    ensures Scan(a, b, gap, n, i, Some(r)) == [r] + Scan(a, b, gap, n, i, None)
    decreases n - i
  {
    if i < n && a[i] == b[i] {
      Close(a, b, gap, n, i + 1, r);
    }
  }

  /** Inside one word the open region grows up to the last differing byte. */
  lemma {:induction false} GrowInWord(a: seq<u8>, b: seq<u8>, gap: nat, n: nat, j: nat, hi: nat, r: Region)
    requires r.start < r.end <= j <= hi <= n <= |a| && n <= |b|
    requires (r.end - 1) / 8 == (hi - 1) / 8
    requires a[hi - 1] != b[hi - 1] && (j == hi ==> r.end == hi)
    ensures Scan(a, b, gap, n, j, Some(r)) == Scan(a, b, gap, n, hi, Some(Region(r.start, hi)))
    decreases hi - j
  {
    if j < hi {
      GrowInWord(a, b, gap, n, j + 1, hi, if a[j] == b[j] then r else Region(r.start, j + 1));
    }
  }

  /** The bytes `lo` and `hi - 1` are the first and the last difference in word `i`. */
  ghost predicate DifferFromTo(a: seq<u8>, b: seq<u8>, i: nat, lo: nat, hi: nat) {
    && 8 * i <= lo < hi <= 8 * i + 8 <= |a| && 8 * i + 8 <= |b|
    && a[lo] != b[lo] && a[hi - 1] != b[hi - 1]
    && forall k | 8 * i <= k < 8 * i + 8 && (k < lo || hi <= k) :: a[k] == b[k]
  }

  ghost predicate SameWord(a: seq<u8>, b: seq<u8>, i: nat) {
    && 8 * i + 8 <= |a| && 8 * i + 8 <= |b|
    && forall k | 8 * i <= k < 8 * i + 8 :: a[k] == b[k]
  }

  lemma Locate(a: seq<u8>, b: seq<u8>, i: nat, l: nat, t: nat)
    requires 8 * i + 8 <= |a| && 8 * i + 8 <= |b|
    requires var p, q := a[8 * i..8 * i + 8], b[8 * i..8 * i + 8];
             && l + t < 8 && p[l] != q[l] && p[7 - t] != q[7 - t]
             && forall j | 0 <= j < 8 && (j < l || 7 - t < j) :: p[j] == q[j]
    ensures DifferFromTo(a, b, i, 8 * i + l, 8 * i + 8 - t)
  {
    var p, q := a[8 * i..8 * i + 8], b[8 * i..8 * i + 8];
    assert forall k | 8 * i <= k < 8 * i + 8 :: a[k] == p[k - 8 * i] && b[k] == q[k - 8 * i];
  }

  /**
   * The exclusive-or of word `i` of the two buffers: is it zero, and if not, what are its LZB and
   * TZB?
   */
  method XorWord(a: seq<u8>, b: seq<u8>, i: nat) returns (zero: bool, lzb: nat, tzb: nat)
    requires 8 * i + 8 <= |a| && 8 * i + 8 <= |b|
    ensures zero ==> SameWord(a, b, i)
    ensures !zero ==> lzb + tzb < 8 && DifferFromTo(a, b, i, 8 * i + lzb, 8 * i + 8 - tzb)
  {
    zero, lzb, tzb := XorLoads(a[8 * i..8 * i + 8], b[8 * i..8 * i + 8]);
    if zero {
      assert forall k | 8 * i <= k < 8 * i + 8 ::
          a[k] == a[8 * i..8 * i + 8][k - 8 * i] && b[k] == b[8 * i..8 * i + 8][k - 8 * i];
    } else {
      Locate(a, b, i, lzb, tzb);
    }
  }

  /** A differing byte opens a region, or extends the open one if it is not split from it. */
  lemma OpenAt(a: seq<u8>, b: seq<u8>, gap: nat, n: nat, i: nat, open: Option<Region>)
    requires i < n <= |a| && n <= |b| && a[i] != b[i]
    requires open.Some? ==> open.value.start < open.value.end <= i && !Splits(open.value.end - 1, i, gap)
    ensures Scan(a, b, gap, n, i, open)
         == Scan(a, b, gap, n, i + 1, Some(Region(if open.Some? then open.value.start else i, i + 1)))
  {}

  /** One word with its first difference at `lo` and its last at `hi - 1`. */
  lemma ScanWord(a: seq<u8>, b: seq<u8>, gap: nat, n: nat, i: nat, lo: nat, hi: nat, open: Option<Region>)
    requires DifferFromTo(a, b, i, lo, hi) && 8 * i + 8 <= n <= |a| && n <= |b|
    requires open.Some? ==>
               open.value.start < open.value.end <= 8 * i && !Splits(open.value.end - 1, lo, gap)
    ensures Scan(a, b, gap, n, 8 * i, open)
         == Scan(a, b, gap, n, 8 * i + 8, Some(Region(if open.Some? then open.value.start else lo, hi)))
  {
    var r := Region(if open.Some? then open.value.start else lo, lo + 1);
    assert Scan(a, b, gap, n, 8 * i, open) == Scan(a, b, gap, n, lo + 1, Some(r)) by {
      SkipEqual(a, b, gap, n, 8 * i, lo, open);
      OpenAt(a, b, gap, n, lo, open);
    }
    GrowInWord(a, b, gap, n, lo + 1, hi, r);
    SkipEqual(a, b, gap, n, hi, 8 * i + 8, Some(Region(r.start, hi)));
  }

  /** An open region is closed by an equal word, or by a word whose first difference is far enough. */
  lemma CloseBefore(a: seq<u8>, b: seq<u8>, gap: nat, n: nat, i: nat, r: Region, zero: bool, lo: nat, hi: int)
    requires r.start < r.end <= 8 * i < r.end + 8 && 8 * i + 8 <= n <= |a| && n <= |b|
    requires if zero then SameWord(a, b, i) else hi >= 0 && DifferFromTo(a, b, i, lo, hi) && lo - r.end >= gap
    ensures Scan(a, b, gap, n, 8 * i, Some(r)) == [r] + Scan(a, b, gap, n, 8 * i, None)
  {
    forall q | 8 * i <= q < n && a[q] != b[q] && (forall k | 8 * i <= k < q :: a[k] == b[k])
      ensures Splits(r.end - 1, q, gap)
    {
      if zero {
        assert q >= 8 * i + 8;
      } else {
        assert q == lo;
      }
    }
    Close(a, b, gap, n, 8 * i, r);
  }

  /** An open region grows over a word whose first difference is near enough. */
  lemma GrowOver(a: seq<u8>, b: seq<u8>, gap: nat, n: nat, i: nat, r: Region, lo: nat, hi: nat)
    requires r.start < r.end <= 8 * i < r.end + 8 && 8 * i + 8 <= n <= |a| && n <= |b|
    requires DifferFromTo(a, b, i, lo, hi) && lo - r.end < gap
    ensures Scan(a, b, gap, n, 8 * i, Some(r)) == Scan(a, b, gap, n, 8 * (i + 1), Some(Region(r.start, hi)))
  {
    ScanWord(a, b, gap, n, i, lo, hi, Some(r));
  }

  /**
   * The inner loop of `find_diffs`: let the region from `start` to `trailing` bytes before word `i`
   * grow over the following words until a gap ends it.
   */
  method Extend(a: seq<u8>, b: seq<u8>, words: nat, minGap: nat, start: nat, i: nat, trailing: nat)
    returns (i': nat, trailing': nat)
    requires 0 < i <= words && 8 * words <= |a| && 8 * words <= |b|
    requires trailing < 8 && start < 8 * i - trailing
    ensures i <= i' <= words && trailing' < 8 && start < 8 * i' - trailing'
    ensures Scan(a, b, minGap, 8 * words, 8 * i, Some(Region(start, 8 * i - trailing)))
         == [Region(start, 8 * i' - trailing')] + Scan(a, b, minGap, 8 * words, 8 * i', None)
  {
    ghost var n := 8 * words;
    i', trailing' := i, trailing;
    while i' < words
      invariant i <= i' <= words && trailing' < 8 && start < 8 * i' - trailing'
      invariant Scan(a, b, minGap, n, 8 * i, Some(Region(start, 8 * i - trailing)))
             == Scan(a, b, minGap, n, 8 * i', Some(Region(start, 8 * i' - trailing')))
    {
      var zero, lzb: nat, tzb: nat := XorWord(a, b, i');
      if zero || trailing' + lzb >= minGap {
        CloseBefore(a, b, minGap, n, i', Region(start, 8 * i' - trailing'), zero, 8 * i' + lzb, 8 * i' + 8 - tzb);
        return;
      }
      GrowOver(a, b, minGap, n, i', Region(start, 8 * i' - trailing'), 8 * i' + lzb, 8 * i' + 8 - tzb);
      trailing' := tzb;
      i' := i' + 1;
    }
  }

  /** `find_diffs` */
  method FindDiffs(oldBuf: seq<u8>, newBuf: seq<u8>, len: nat, minGap: nat, accept: nat -> bool)
    returns (ok: bool, calls: seq<Region>)
    requires len <= |oldBuf| && len <= |newBuf|
    ensures Done(ok, calls, Regions(oldBuf, newBuf, len, minGap), accept)
  {
    var words := len / 8;
    ghost var n := 8 * words;
    ghost var all := Regions(oldBuf, newBuf, len, minGap);
    calls := [];
    var i: nat := 0;
    while i < words
      invariant i <= words
      invariant Going(calls, Scan(oldBuf, newBuf, minGap, n, 8 * i, None), all, accept)
    {
      var zero, lzb: nat, tzb: nat := XorWord(oldBuf, newBuf, i);
      while zero
        invariant i < words
        invariant Going(calls, Scan(oldBuf, newBuf, minGap, n, 8 * i, None), all, accept)
        invariant zero ==> SameWord(oldBuf, newBuf, i)
        invariant !zero ==> lzb + tzb < 8 && DifferFromTo(oldBuf, newBuf, i, 8 * i + lzb, 8 * i + 8 - tzb)
        decreases words - i, zero
      {
        SkipEqual(oldBuf, newBuf, minGap, n, 8 * i, 8 * i + 8, None);
        i := i + 1;
        if i >= words {
          return true, calls;
        }
        zero, lzb, tzb := XorWord(oldBuf, newBuf, i);
      }

      var start: nat, trailing: nat := 8 * i + lzb, tzb;
      ScanWord(oldBuf, newBuf, minGap, n, i, start, 8 * i + 8 - trailing, None);
      i, trailing := Extend(oldBuf, newBuf, words, minGap, start, i + 1, trailing);
      ok, calls := Report(calls, Region(start, 8 * i - trailing), accept,
                          Scan(oldBuf, newBuf, minGap, n, 8 * i, None), all);
      if !ok {
        return;
      }
    }
    ok := true;
  }
}
