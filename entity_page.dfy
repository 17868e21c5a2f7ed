/** `detail::EntityPage` (src/lpg/core/World.cpp): a slab of 256 entity slots
    with a four-word occupancy bitmap and a byte buffer that grows on demand.
    Bytes are not modelled: the buffer is its length and an address is a byte
    offset into it. */
module EntityPages {
  import opened Wrappers
  import opened Bits

  /** `detail::EntityPageSize`. */
  const EntityPageSize: nat := 256

  /** `(EntityPageSize + 63) / 64`, the number of occupancy words. */
  const NumWords: nat := 4

  // ---------------------------------------------------------------------
  // The occupancy bitmap as a sequence of slots

  /** The bits of `words`, word 0 first, each word from bit 0: slot `o` is bit
      `o % 64` of word `o / 64`. */
  function Flatten(words: seq<Word>): (s: seq<bool>)
    ensures |s| == 64 * |words|
  {
    if words == [] then [] else Flatten(words[..|words| - 1]) + words[|words| - 1]
  }

  /** Slot `64*i + k` is bit `k` of word `i`. */
  lemma {:induction false} FlattenAt(words: seq<Word>, i: nat, k: nat)
    requires i < |words| && k < 64
    ensures Flatten(words)[64 * i + k] == words[i][k]
  {
    var init := words[..|words| - 1];
    if i < |words| - 1 {
      FlattenAt(init, i, k);
      assert init[i] == words[i];
    }
  }

  /** The first `i` words flatten to the first `64*i` slots. */
  lemma {:induction false} FlattenPrefix(words: seq<Word>, i: nat)
    requires i <= |words|
    ensures Flatten(words)[..64 * i] == Flatten(words[..i])
    decreases |words|
  {
    if i < |words| {
      var init := words[..|words| - 1];
      FlattenPrefix(init, i);
      assert init[..i] == words[..i];
    } else {
      assert words[..i] == words;
    }
  }

  /** Word `i` of the bitmap sets slot `o = 64*i + k` exactly when bit `k` of
      word `i` is set; the slot index of word and bit. */
  lemma SlotOfWord(words: seq<Word>, o: nat)
    requires o < |Flatten(words)|
    ensures o / 64 < |words| && Flatten(words)[o] == words[o / 64][o % 64]
  {
    FlattenAt(words, o / 64, o % 64);
  }

  /** Setting bit `o % 64` of word `o / 64` sets slot `o` and no other. */
  lemma SetSlot(words: seq<Word>, o: nat)
    requires o < 64 * |words|
    ensures o / 64 < |words|
    ensures Flatten(words[o / 64 := Or(words[o / 64], Bit(o % 64))]) == Flatten(words)[o := true]
  {
    var after := words[o / 64 := Or(words[o / 64], Bit(o % 64))];
    forall p | 0 <= p < |Flatten(words)|
      ensures Flatten(after)[p] == Flatten(words)[o := true][p]
    {
      SlotOfWord(words, p);
      SlotOfWord(after, p);
    }
  }

  /** Clearing bit `o % 64` of word `o / 64` clears slot `o` and no other. */
  lemma ClearSlot(words: seq<Word>, o: nat)
    requires o < 64 * |words|
    ensures o / 64 < |words|
    ensures Flatten(words[o / 64 := And(words[o / 64], Not(Bit(o % 64)))]) == Flatten(words)[o := false]
  {
    var after := words[o / 64 := And(words[o / 64], Not(Bit(o % 64)))];
    forall p | 0 <= p < |Flatten(words)|
      ensures Flatten(after)[p] == Flatten(words)[o := false][p]
    {
      SlotOfWord(words, p);
      SlotOfWord(after, p);
    }
  }

  /** Replacing word `i` changes only the slots of that word. */
  lemma ReplacedWordSlot(words: seq<Word>, i: nat, w: Word, k: nat)
    requires i < |words| && k < 64 * |words|
    ensures Flatten(words[i := w])[k] == if k / 64 == i then w[k % 64] else Flatten(words)[k]
  {
    SlotOfWord(words, k);
    SlotOfWord(words[i := w], k);
  }

  /** The as-written test of bit 31 of a word reads the slot and the 32 slots
      after it, up to the word's end. */
  lemma TestAsWrittenSlots(words: seq<Word>, slots: seq<bool>, offset: nat)
    requires slots == Flatten(words)
    requires offset < 64 * |words| && offset % 64 == 31
    ensures offset / 64 < |words| && offset + 33 <= |slots|
    ensures TestAsWritten(words[offset / 64], offset % 64) ==
            Some(exists k :: offset <= k < offset + 33 && slots[k])
  {
    var i := offset / 64;
    assert offset == 64 * i + 31;
    WordAsSlots(words, i);
    TestAsWrittenBits(words[i], slots, 64 * i);
  }

  /** The same, for any slot sequence holding the word at `base`. */
  lemma TestAsWrittenBits(w: Word, s: seq<bool>, base: nat)
    requires base + 64 <= |s| && forall j :: 0 <= j < 64 ==> s[base + j] == w[j]
    ensures TestAsWritten(w, 31) == Some(exists k :: base + 31 <= k < base + 64 && s[k])
  {
    if TestAsWritten(w, 31).value {
      var j: nat := if w[31] then 31 else var j :| 32 <= j < 64 && w[j]; j;
      assert s[base + j];
    } else {
      forall k | base + 31 <= k < base + 64
        ensures !s[k]
      {
        assert s[base + (k - base)] == w[k - base];
      }
    }
  }

  /** Word `i` holds slots `64*i .. 64*i+63`. */
  lemma WordAsSlots(words: seq<Word>, i: nat)
    requires i < |words|
    ensures 64 * i + 64 <= |Flatten(words)|
    ensures forall j :: 0 <= j < 64 ==> Flatten(words)[64 * i + j] == words[i][j]
  {
    forall j | 0 <= j < 64
      ensures Flatten(words)[64 * i + j] == words[i][j]
    {
      FlattenAt(words, i, j);
    }
  }

  /** The lowest slot at or after `from` whose bit is `b`. */
  function FirstFrom(s: seq<bool>, b: bool, from: nat): (r: Option<nat>)
    requires from <= |s|
    ensures r.Some? ==> from <= r.value < |s| && s[r.value] == b
    ensures r.Some? ==> forall k :: from <= k < r.value ==> s[k] != b
    ensures r.None? <==> forall k :: from <= k < |s| ==> s[k] != b
    decreases |s| - from
  {
    if from == |s| then None
    else if s[from] == b then Some(from)
    else FirstFrom(s, b, from + 1)
  }

  // ---------------------------------------------------------------------
  // Runs of occupied slots

  /** A half-open range `[begin, end)` of slots, `std::pair<int, int>`. */
  datatype Range = Range(begin: int, end: int)

  /** The maximal runs of set slots among the first `n` slots of `s`, built
      slot by slot: a clear slot adds nothing, a set slot after a set slot
      extends the last run, any other set slot opens a run. */
  function Runs(s: seq<bool>, n: nat): (r: seq<Range>)
    requires n <= |s|
    ensures r != [] ==> r[|r| - 1].end <= n
    ensures n > 0 && s[n - 1] ==> r != [] && r[|r| - 1].end == n
    ensures r != [] && r[|r| - 1].end == n ==> n > 0 && s[n - 1]
  {
    if n == 0 then []
    else
      var r := Runs(s, n - 1);
      if !s[n - 1] then r
      else if n >= 2 && s[n - 2] then r[..|r| - 1] + [Range(r[|r| - 1].begin, n)]
      else r + [Range(n - 1, n)]
  }

  /** Every run is non-empty and lies in `[0, n)`; runs are ascending and
      separated by at least one clear slot. */
  ghost predicate OrderedRuns(r: seq<Range>, n: nat)
  {
    (forall j :: 0 <= j < |r| ==> 0 <= r[j].begin < r[j].end <= n) &&
    (forall j :: 0 <= j < |r| - 1 ==> r[j].end < r[j + 1].begin)
  }

  /** Covered by run `j` of `r`. */
  ghost predicate InRun(r: seq<Range>, o: int)
  {
    exists j :: 0 <= j < |r| && r[j].begin <= o < r[j].end
  }

  /** The runs of the first `n` slots are ordered. */
  lemma {:induction false} RunsOrdered(s: seq<bool>, n: nat)
    requires n <= |s|
    ensures OrderedRuns(Runs(s, n), n)
  {
    if n > 0 {
      RunsOrdered(s, n - 1);
      if !s[n - 1] {
        assert Runs(s, n) == Runs(s, n - 1);
      } else if n >= 2 && s[n - 2] {
        RunsOrderedExtend(s, n);
      } else {
        RunsOrderedOpen(s, n);
      }
    }
  }

  lemma RunsOrderedExtend(s: seq<bool>, n: nat)
    requires 2 <= n <= |s| && s[n - 1] && s[n - 2]
    requires OrderedRuns(Runs(s, n - 1), n - 1)
    ensures OrderedRuns(Runs(s, n), n)
  {
    var r := Runs(s, n - 1);
    assert r != [] && r[|r| - 1].end == n - 1;
    ExtendLastOrdered(r, n);
  }

  /** Stretching the last of ordered runs, which ends at `n - 1`, to `n`
      keeps them ordered. */
  lemma ExtendLastOrdered(r: seq<Range>, n: nat)
    requires 1 <= n && OrderedRuns(r, n - 1) && r != [] && r[|r| - 1].end == n - 1
    ensures OrderedRuns(r[..|r| - 1] + [Range(r[|r| - 1].begin, n)], n)
  {
    var last := |r| - 1;
    var r' := r[..last] + [Range(r[last].begin, n)];
    forall j | 0 <= j < |r'|
      ensures 0 <= r'[j].begin < r'[j].end <= n
    {
      if j < last {
        assert r'[j] == r[j];
      }
    }
    forall j | 0 <= j < |r'| - 1
      ensures r'[j].end < r'[j + 1].begin
    {
      assert r'[j] == r[j];
      assert r'[j + 1].begin == r[j + 1].begin;
    }
  }

  lemma RunsOrderedOpen(s: seq<bool>, n: nat)
    requires 1 <= n <= |s| && s[n - 1] && !(n >= 2 && s[n - 2])
    requires OrderedRuns(Runs(s, n - 1), n - 1)
    ensures OrderedRuns(Runs(s, n), n)
  {
    var r := Runs(s, n - 1);
    var r' := r + [Range(n - 1, n)];
    assert Runs(s, n) == r';
    assert forall j :: 0 <= j < |r| ==> r'[j] == r[j];
    if r != [] {
      assert r[|r| - 1].end < n - 1;
    }
  }

  /** The runs of the first `n` slots cover exactly the set slots. */
  lemma {:induction false} RunsCover(s: seq<bool>, n: nat)
    requires n <= |s|
    ensures forall o :: 0 <= o < n ==> (s[o] <==> InRun(Runs(s, n), o))
  {
    if n > 0 {
      RunsCover(s, n - 1);
      RunsOrdered(s, n - 1);
      var r := Runs(s, n - 1);
      var r' := Runs(s, n);
      forall o | 0 <= o < n
        ensures s[o] <==> InRun(r', o)
      {
        if o == n - 1 {
          RunsCoverLast(s, n);
        } else {
          RunsCoverEarlier(s, n, o);
        }
      }
    }
  }

  /** Slot `n - 1` is covered by the runs of the first `n` slots exactly when
      it is set. */
  lemma RunsCoverLast(s: seq<bool>, n: nat)
    requires 0 < n <= |s|
    requires OrderedRuns(Runs(s, n - 1), n - 1)
    ensures s[n - 1] <==> InRun(Runs(s, n), n - 1)
  {
    var r' := Runs(s, n);
    if s[n - 1] {
      assert r'[|r'| - 1].begin <= n - 1 < r'[|r'| - 1].end;
    } else {
      assert r' == Runs(s, n - 1);
      forall j | 0 <= j < |r'|
        ensures !(r'[j].begin <= n - 1 < r'[j].end)
      {
      }
    }
  }

  /** Extending the slots by one leaves the coverage of earlier slots as it
      was. */
  lemma RunsCoverEarlier(s: seq<bool>, n: nat, o: nat)
    requires o < n - 1 && n <= |s|
    requires OrderedRuns(Runs(s, n - 1), n - 1)
    ensures InRun(Runs(s, n), o) <==> InRun(Runs(s, n - 1), o)
  {
    if !s[n - 1] {
      assert Runs(s, n) == Runs(s, n - 1);
    } else if n >= 2 && s[n - 2] {
      CoverEarlierExtend(s, n, o);
    } else {
      CoverEarlierOpen(s, n, o);
    }
  }

  lemma CoverEarlierExtend(s: seq<bool>, n: nat, o: nat)
    requires o < n - 1 && 2 <= n <= |s| && s[n - 1] && s[n - 2]
    requires OrderedRuns(Runs(s, n - 1), n - 1)
    ensures InRun(Runs(s, n), o) <==> InRun(Runs(s, n - 1), o)
  {
    var r := Runs(s, n - 1);
    assert r != [] && r[|r| - 1].end == n - 1;
    ExtendLastCover(r, n, o);
  }

  /** Stretching the last run from `n - 1` to `n` changes the coverage of
      no slot before `n - 1`. */
  lemma ExtendLastCover(r: seq<Range>, n: nat, o: int)
    requires o < n - 1 && r != [] && r[|r| - 1].end == n - 1
    ensures InRun(r[..|r| - 1] + [Range(r[|r| - 1].begin, n)], o) <==> InRun(r, o)
  {
    var last := |r| - 1;
    var r' := r[..last] + [Range(r[last].begin, n)];
    assert |r'| == |r| && r'[last].begin == r[last].begin;
    if InRun(r, o) {
      var j :| 0 <= j < |r| && r[j].begin <= o < r[j].end;
      if j < last {
        assert r'[j] == r[j];
      }
      assert r'[j].begin <= o < r'[j].end;
    }
    if InRun(r', o) {
      var j :| 0 <= j < |r'| && r'[j].begin <= o < r'[j].end;
      if j < last {
        assert r'[j] == r[j];
      }
      assert r[j].begin <= o < r[j].end;
    }
  }

  lemma CoverEarlierOpen(s: seq<bool>, n: nat, o: nat)
    requires o < n - 1 && 1 <= n <= |s| && s[n - 1] && !(n >= 2 && s[n - 2])
    requires OrderedRuns(Runs(s, n - 1), n - 1)
    ensures InRun(Runs(s, n), o) <==> InRun(Runs(s, n - 1), o)
  {
    var r := Runs(s, n - 1);
    var r' := r + [Range(n - 1, n)];
    assert Runs(s, n) == r';
    if InRun(r, o) {
      var j :| 0 <= j < |r| && r[j].begin <= o < r[j].end;
      assert r'[j] == r[j];
    }
    if InRun(r', o) {
      var j :| 0 <= j < |r'| && r'[j].begin <= o < r'[j].end;
      assert j < |r|;
      assert r[j] == r'[j];
    }
  }

  /** Every run in `r` is maximal within the first `n` slots of `s`: the
      slot before it is clear, and so is the slot after it when that slot is
      among the first `n`. */
  ghost predicate MaximalRuns(s: seq<bool>, r: seq<Range>, n: nat)
    requires n <= |s|
    requires OrderedRuns(r, n)
  {
    forall j :: 0 <= j < |r| ==>
      (r[j].begin == 0 || !s[r[j].begin - 1]) && (r[j].end == n || !s[r[j].end])
  }

  /** The runs of the first `n` slots are ordered and maximal. */
  lemma {:induction false} RunsMaximal(s: seq<bool>, n: nat)
    requires n <= |s|
    ensures OrderedRuns(Runs(s, n), n) && MaximalRuns(s, Runs(s, n), n)
  {
    RunsOrdered(s, n);
    if n > 0 {
      RunsMaximal(s, n - 1);
      if !s[n - 1] {
        MaximalClosed(s, n);
      } else if n >= 2 && s[n - 2] {
        MaximalExtend(s, n);
      } else {
        MaximalOpen(s, n);
      }
    }
  }

  lemma MaximalClosed(s: seq<bool>, n: nat)
    requires 1 <= n <= |s| && !s[n - 1]
    requires OrderedRuns(Runs(s, n - 1), n - 1) && MaximalRuns(s, Runs(s, n - 1), n - 1)
    requires OrderedRuns(Runs(s, n), n)
    ensures MaximalRuns(s, Runs(s, n), n)
  {
    var r := Runs(s, n - 1);
    assert Runs(s, n) == r;
    forall j | 0 <= j < |r|
      ensures r[j].end == n || !s[r[j].end]
    {
    }
  }

  lemma MaximalExtend(s: seq<bool>, n: nat)
    requires 2 <= n <= |s| && s[n - 1] && s[n - 2]
    requires OrderedRuns(Runs(s, n - 1), n - 1) && MaximalRuns(s, Runs(s, n - 1), n - 1)
    requires OrderedRuns(Runs(s, n), n)
    ensures MaximalRuns(s, Runs(s, n), n)
  {
    var r := Runs(s, n - 1);
    assert r != [] && r[|r| - 1].end == n - 1;
    ExtendLastMaximal(s, r, n);
  }

  /** Stretching the last of maximal runs, which ends at `n - 1`, to `n`
      keeps them maximal within the first `n` slots. */
  lemma ExtendLastMaximal(s: seq<bool>, r: seq<Range>, n: nat)
    requires 1 <= n <= |s| && r != [] && r[|r| - 1].end == n - 1
    requires OrderedRuns(r, n - 1) && MaximalRuns(s, r, n - 1)
    requires OrderedRuns(r[..|r| - 1] + [Range(r[|r| - 1].begin, n)], n)
    ensures MaximalRuns(s, r[..|r| - 1] + [Range(r[|r| - 1].begin, n)], n)
  {
    var last := |r| - 1;
    var r' := r[..last] + [Range(r[last].begin, n)];
    forall j | 0 <= j < |r'|
      ensures (r'[j].begin == 0 || !s[r'[j].begin - 1]) && (r'[j].end == n || !s[r'[j].end])
    {
      if j < last {
        assert r'[j] == r[j];
        assert r[j].end < r[j + 1].begin < r[j + 1].end <= n - 1;
      }
    }
  }

  lemma MaximalOpen(s: seq<bool>, n: nat)
    requires 1 <= n <= |s| && s[n - 1] && !(n >= 2 && s[n - 2])
    requires OrderedRuns(Runs(s, n - 1), n - 1) && MaximalRuns(s, Runs(s, n - 1), n - 1)
    requires OrderedRuns(Runs(s, n), n)
    ensures MaximalRuns(s, Runs(s, n), n)
  {
    var r := Runs(s, n - 1);
    var r' := r + [Range(n - 1, n)];
    assert Runs(s, n) == r';
    forall j | 0 <= j < |r'|
      ensures (r'[j].begin == 0 || !s[r'[j].begin - 1]) && (r'[j].end == n || !s[r'[j].end])
    {
      if j < |r| {
        assert r'[j] == r[j];
        assert r[|r| - 1].end < n - 1 by {
          assert r[|r| - 1].end <= n - 1;
        }
        if j < |r| - 1 {
          assert r[j].end < r[j + 1].begin < r[j + 1].end <= n - 1;
        }
      }
    }
  }

  /** Clear slots add no run. */
  lemma {:induction false} RunsGap(s: seq<bool>, n: nat, m: nat)
    requires n <= m <= |s|
    requires forall k :: n <= k < m ==> !s[k]
    ensures Runs(s, m) == Runs(s, n)
    decreases m
  {
    if n < m {
      RunsGap(s, n, m - 1);
    }
  }

  /** A block of set slots `[b, e)` either extends the run ending at `b` or
      opens the run `[b, e)`. */
  lemma {:induction false} RunsChunk(s: seq<bool>, b: nat, e: nat)
    requires b < e <= |s|
    requires forall k :: b <= k < e ==> s[k]
    ensures var r := Runs(s, b);
      if b > 0 && s[b - 1] then r != [] && Runs(s, e) == r[..|r| - 1] + [Range(r[|r| - 1].begin, e)]
      else Runs(s, e) == r + [Range(b, e)]
    decreases e
  {
    var r := Runs(s, b);
    if e > b + 1 {
      RunsChunk(s, b, e - 1);
      var q := Runs(s, e - 1);
      assert Runs(s, e) == q[..|q| - 1] + [Range(q[|q| - 1].begin, e)];
      if b > 0 && s[b - 1] {
        assert q[..|q| - 1] == r[..|r| - 1];
      } else {
        assert q[..|q| - 1] == r;
      }
    }
  }

  // ---------------------------------------------------------------------
  // The state of the range scan

  /** The scan's `result`, `curBegin` and `curEnd` stand for the runs `r`:
      every run but the last has been emitted and the last one is open; with
      no run, nothing is emitted and the open range is `[0, 0)`. */
  ghost predicate ScanMatches(r: seq<Range>, result: seq<Range>, curBegin: int, curEnd: int)
  {
    if r == [] then result == [] && curBegin == 0 && curEnd == 0
    else result == r[..|r| - 1] && curBegin == r[|r| - 1].begin && curEnd == r[|r| - 1].end
  }

  /** Closing the scan: emitting the open range, when it is non-empty, yields
      exactly the runs. */
  lemma ScanFinish(s: seq<bool>, n: nat, result: seq<Range>, curBegin: int, curEnd: int)
    requires n <= |s|
    requires ScanMatches(Runs(s, n), result, curBegin, curEnd)
    ensures (if curBegin != curEnd then result + [Range(curBegin, curEnd)] else result) == Runs(s, n)
  {
    RunsOrdered(s, n);
  }

  /** Every slot in `[lo, hi)` is `v`, stated slot by slot from the top so
      that it unfolds only as far as a proof asks. */
  ghost predicate Filled(s: seq<bool>, lo: nat, hi: nat, v: bool)
    requires hi <= |s|
    decreases hi
  {
    hi <= lo || (s[hi - 1] == v && Filled(s, lo, hi - 1, v))
  }

  lemma {:induction false} FilledAll(s: seq<bool>, lo: nat, hi: nat, v: bool)
    requires hi <= |s|
    ensures Filled(s, lo, hi, v) <==> forall k :: lo <= k < hi ==> s[k] == v
    decreases hi
  {
    if hi > lo {
      FilledAll(s, lo, hi - 1, v);
    }
  }

  /** Slots `[n, b)` are clear and slots `[b, e)` are set: one block of
      the scan, after the gap before it. */
  ghost predicate Block(s: seq<bool>, n: nat, b: int, e: int)
  {
    n <= b < e <= |s| && Filled(s, n, b, false) && Filled(s, b, e, true)
  }

  lemma BlockSlots(s: seq<bool>, n: nat, b: nat, e: nat)
    requires n <= b < e <= |s|
    ensures Block(s, n, b, e) <==> (forall k :: n <= k < b ==> !s[k]) && (forall k :: b <= k < e ==> s[k])
  {
    FilledAll(s, n, b, false);
    FilledAll(s, b, e, true);
  }

  /** One step of the corrected scan over a gap `[n, b)` and a block of set
      slots `[b, e)`: the block extends the open range exactly when that
      range ends at `b`; otherwise the open range, when non-empty, is emitted
      and the block becomes the open range. */
  lemma ScanStep(s: seq<bool>, n: nat, b: nat, e: nat, result: seq<Range>, curBegin: int, curEnd: int)
    requires Block(s, n, b, e)
    requires ScanMatches(Runs(s, n), result, curBegin, curEnd)
    ensures curEnd == b ==> ScanMatches(Runs(s, e), result, curBegin, e)
    ensures curEnd != b ==>
      ScanMatches(Runs(s, e), if curBegin != curEnd then result + [Range(curBegin, curEnd)] else result, b, e)
  {
    BlockSlots(s, n, b, e);
    RunsGap(s, n, b);
    RunsChunk(s, b, e);
    RunsOrdered(s, b);
    var r := Runs(s, b);
    if r != [] {
      assert curEnd == b <==> b > 0 && s[b - 1];
      if curEnd != b {
        assert result + [Range(curBegin, curEnd)] == r;
      }
    }
  }

  /** The runs the scan as written reports for the first `n` slots: all of
      them when slot 0 is set, none otherwise. */
  ghost function ScannedAsWritten(s: seq<bool>, n: nat): (r: seq<Range>)
    requires n <= |s|
    ensures n > 0 && s[0] ==> r == Runs(s, n)
    ensures !(n > 0 && s[0]) ==> r == []
  {
    if n > 0 && s[0] then Runs(s, n) else []
  }

  /** One step of the scan as written: as `ScanStep` while a range is open;
      with no open range, a block that does not start at slot 0 is dropped. */
  lemma ScanStepAsWritten(s: seq<bool>, n: nat, b: nat, e: nat, result: seq<Range>, curBegin: int, curEnd: int)
    requires Block(s, n, b, e)
    requires ScanMatches(ScannedAsWritten(s, n), result, curBegin, curEnd)
    ensures curEnd == b ==> ScanMatches(ScannedAsWritten(s, e), result, curBegin, e)
    ensures curEnd != b && curBegin != curEnd ==>
      ScanMatches(ScannedAsWritten(s, e), result + [Range(curBegin, curEnd)], b, e)
    ensures curEnd != b && curBegin == curEnd ==>
      ScanMatches(ScannedAsWritten(s, e), result, curBegin, curEnd)
  {
    if n > 0 && s[0] {
      ScanStepOpen(s, n, b, e, result, curBegin, curEnd);
    } else {
      ScanStepNoneOpen(s, n, b, e);
    }
  }

  lemma ScanStepOpen(s: seq<bool>, n: nat, b: nat, e: nat, result: seq<Range>, curBegin: int, curEnd: int)
    requires Block(s, n, b, e) && 0 < n && s[0]
    requires ScanMatches(Runs(s, n), result, curBegin, curEnd)
    ensures curBegin != curEnd
    ensures curEnd == b ==> ScanMatches(Runs(s, e), result, curBegin, e)
    ensures curEnd != b ==> ScanMatches(Runs(s, e), result + [Range(curBegin, curEnd)], b, e)
  {
    RunsOrdered(s, n);
    RunsCover(s, n);
    assert InRun(Runs(s, n), 0);
    ScanStep(s, n, b, e, result, curBegin, curEnd);
  }

  lemma ScanStepNoneOpen(s: seq<bool>, n: nat, b: nat, e: nat)
    requires Block(s, n, b, e)
    requires !(n > 0 && s[0])
    ensures b == 0 ==> ScannedAsWritten(s, e) == [Range(0, e)]
    ensures b != 0 ==> ScannedAsWritten(s, e) == []
  {
    BlockSlots(s, n, b, e);
    if b == 0 {
      RunsChunk(s, b, e);
    } else {
      assert !s[0];
    }
  }

  /** Clear slots leave the runs the scan as written reports unchanged. */
  lemma ScannedAsWrittenGap(s: seq<bool>, n: nat, m: nat)
    requires n <= m <= |s|
    requires forall k :: n <= k < m ==> !s[k]
    ensures ScannedAsWritten(s, m) == ScannedAsWritten(s, n)
  {
    RunsGap(s, n, m);
  }

  /** The clear bits the scan skips in the word `w` from bit `pos`: `t0`
      of them, followed by a set bit. */
  lemma WordGap(w: Word, pos: nat, t0: nat)
    requires pos <= 64 && ShiftRight(w, pos) != Zero()
    requires t0 == CountrZero(ShiftRight(w, pos))
    ensures pos + t0 < 64 && w[pos + t0]
    ensures forall k :: pos <= k < pos + t0 ==> !w[k]
    ensures ShiftRight(ShiftRight(w, pos), t0 % 64) == ShiftRight(w, pos + t0)
  {
    var tmp := ShiftRight(w, pos);
    NonZeroHasSetBit(tmp);
    assert t0 % 64 == t0;
    assert tmp[t0];
    ShiftRightTwice(w, pos, t0);
    WordGapClear(w, pos, t0);
  }

  lemma WordGapClear(w: Word, pos: nat, t0: nat)
    requires pos + t0 <= 64
    requires forall k :: 0 <= k < t0 ==> !ShiftRight(w, pos)[k]
    ensures forall k :: pos <= k < pos + t0 ==> !w[k]
  {
    forall k | pos <= k < pos + t0
      ensures !w[k]
    {
      assert !ShiftRight(w, pos)[k - pos];
    }
  }

  /** A non-zero word has a lowest set bit. */
  lemma NonZeroHasSetBit(w: Word)
    requires w != Zero()
    ensures CountrZero(w) < 64
  {
    assert exists k :: 0 <= k < 64 && w[k] != Zero()[k];
  }

  /** The set bits the scan takes from the word `w` at bit `p`: `t1` of
      them, at least one, within the word. */
  lemma WordBlock(w: Word, p: nat, t1: nat)
    requires p < 64 && w[p]
    requires t1 == CountrOne(ShiftRight(w, p))
    ensures 1 <= t1 && p + t1 <= 64
    ensures forall k :: p <= k < p + t1 ==> w[k]
    ensures t1 < 64 ==> ShiftRight(ShiftRight(w, p), t1 % 64) == ShiftRight(w, p + t1)
    ensures t1 == 64 ==> p == 0 && ShiftRight(w, 64) == Zero()
  {
    var tmp := ShiftRight(w, p);
    assert tmp[0];
    if p > 0 {
      assert !tmp[64 - p];
    }
    if t1 < 64 {
      ShiftRightTwice(w, p, t1);
    }
    assert ShiftRight(w, 64) == Zero();
    forall k | p <= k < p + t1
      ensures w[k]
    {
      assert tmp[k - p];
    }
  }

  /** The first slot from `from` whose bit is `b` is the one the search
      returns. */
  lemma FirstFromIs(s: seq<bool>, b: bool, from: nat, v: nat)
    requires from <= v < |s| && s[v] == b
    requires forall k :: from <= k < v ==> s[k] != b
    ensures FirstFrom(s, b, from) == Some(v)
  {
  }

  /** With every word zero, no slot is set. */
  lemma {:induction false} ZeroWordsClear(words: seq<Word>)
    requires forall i :: 0 <= i < |words| ==> words[i] == Zero()
    ensures forall k :: 0 <= k < |Flatten(words)| ==> !Flatten(words)[k]
  {
    forall k | 0 <= k < |Flatten(words)|
      ensures !Flatten(words)[k]
    {
      SlotOfWord(words, k);
    }
  }

  /** The free-slot search as written looks for a set slot: on a fresh page it
      finds none, where the leftmost free slot is slot 0. */
  lemma FreshPageSearch(words: seq<Word>)
    requires |words| == NumWords
    requires forall i :: 0 <= i < |words| ==> words[i] == Zero()
    ensures FirstFrom(Flatten(words), true, 0) == None
    ensures FirstFrom(Flatten(words), false, 0) == Some(0)
  {
    ZeroWordsClear(words);
  }

  /** Bits `[lo, hi)` of word `i` are slots `[64*i + lo, 64*i + hi)`. */
  lemma WordSlots(s: seq<bool>, i: nat, w: Word, lo: nat, hi: nat, b: bool)
    requires 64 * i + 64 <= |s| && lo <= hi <= 64
    requires forall k :: 0 <= k < 64 ==> s[64 * i + k] == w[k]
    requires forall j :: lo <= j < hi ==> w[j] == b
    ensures forall k :: 64 * i + lo <= k < 64 * i + hi ==> s[k] == b
  {
    forall k | 64 * i + lo <= k < 64 * i + hi
      ensures s[k] == b
    {
      assert s[64 * i + (k - 64 * i)] == w[k - 64 * i];
    }
  }

  /** When `w >> pos` is zero, bits `pos..63` of `w` are clear. */
  lemma ZeroShiftGap(w: Word, pos: nat)
    requires pos <= 64 && ShiftRight(w, pos) == Zero()
    ensures forall j :: pos <= j < 64 ==> !w[j]
  {
    forall j | pos <= j < 64
      ensures !w[j]
    {
      assert !ShiftRight(w, pos)[j - pos];
    }
  }

  /** Word `i` of the slots `s` is `w`. */
  ghost predicate WordOf(s: seq<bool>, i: nat, w: Word)
  {
    64 * i + 64 <= |s| && forall k :: 0 <= k < 64 ==> s[64 * i + k] == w[k]
  }

  /** Word `i` of the bitmap is word `i` of its slots. */
  lemma WordOfFlatten(words: seq<Word>, i: nat)
    requires i < |words|
    ensures WordOf(Flatten(words), i, words[i])
  {
    forall k | 0 <= k < 64
      ensures Flatten(words)[64 * i + k] == words[i][k]
    {
      FlattenAt(words, i, k);
    }
  }

  /** The block the scan peels off bit `pos` of `w`: `t0` clear bits, then
      `t1 >= 1` set bits, within the word; the word left to scan is
      `w >> pos'`. */
  lemma WordChunk(w: Word, pos: nat, t0: nat, t1: nat, pos': nat)
    requires pos <= 64 && ShiftRight(w, pos) != Zero()
    requires t0 == CountrZero(ShiftRight(w, pos))
    requires t1 == CountrOne(ShiftRight(ShiftRight(w, pos), t0 % 64))
    requires pos' == pos + t0 + t1
    ensures 1 <= t1 && pos' <= 64
    ensures (if t1 == 64 then Zero() else ShiftRight(ShiftRight(ShiftRight(w, pos), t0 % 64), t1 % 64))
            == ShiftRight(w, pos')
    ensures forall k :: pos <= k < pos + t0 ==> !w[k]
    ensures forall k :: pos + t0 <= k < pos' ==> w[k]
  {
    WordGap(w, pos, t0);
    WordChunkRest(w, pos, t0, t1, pos');
    WordChunkShift(w, pos, t0, t1, pos');
  }

  /** The set bits after the gap. */
  lemma WordChunkRest(w: Word, pos: nat, t0: nat, t1: nat, pos': nat)
    requires pos + t0 < 64 && w[pos + t0]
    requires ShiftRight(ShiftRight(w, pos), t0 % 64) == ShiftRight(w, pos + t0)
    requires t1 == CountrOne(ShiftRight(ShiftRight(w, pos), t0 % 64))
    requires pos' == pos + t0 + t1
    ensures 1 <= t1 && pos' <= 64
    ensures forall k :: pos + t0 <= k < pos' ==> w[k]
  {
    WordBlock(w, pos + t0, t1);
  }

  /** The word left once the set bits after the gap are shifted out. */
  lemma WordChunkShift(w: Word, pos: nat, t0: nat, t1: nat, pos': nat)
    requires pos + t0 < 64 && w[pos + t0]
    requires ShiftRight(ShiftRight(w, pos), t0 % 64) == ShiftRight(w, pos + t0)
    requires t1 == CountrOne(ShiftRight(ShiftRight(w, pos), t0 % 64))
    requires pos' == pos + t0 + t1
    ensures pos' <= 64
    ensures (if t1 == 64 then Zero() else ShiftRight(ShiftRight(ShiftRight(w, pos), t0 % 64), t1 % 64))
            == ShiftRight(w, pos')
  {
    WordBlock(w, pos + t0, t1);
    if t1 == 64 {
      assert pos' == 64;
    }
  }

  /** Clear bits `[pos, mid)` and set bits `[mid, pos')` of word `i` are a
      block of slots. */
  lemma ChunkSlots(s: seq<bool>, i: nat, w: Word, pos: nat, mid: nat, pos': nat, b: int, e: int)
    requires WordOf(s, i, w)
    requires pos <= mid < pos' <= 64
    requires forall k :: pos <= k < mid ==> !w[k]
    requires forall k :: mid <= k < pos' ==> w[k]
    requires b == 64 * i + mid && e == 64 * i + pos'
    ensures Block(s, 64 * i + pos, b, e)
  {
    WordSlots(s, i, w, pos, mid, false);
    WordSlots(s, i, w, mid, pos', true);
    BlockSlots(s, 64 * i + pos, b, e);
  }

  /** One pass of the corrected scan's inner loop over word `i`: clear bits
      `[pos, mid)` and set bits `[mid, pos')` of the word are the block
      `[begin, end)` of slots; the scan state after the block. */
  lemma ScanWordBlock(s: seq<bool>, i: nat, w: Word, pos: nat, mid: nat, pos': nat,
                      result: seq<Range>, curBegin: int, curEnd: int, begin: int, end: int)
    requires WordOf(s, i, w)
    requires pos <= mid < pos' <= 64
    requires forall k :: pos <= k < mid ==> !w[k]
    requires forall k :: mid <= k < pos' ==> w[k]
    requires begin == 64 * i + mid && end == 64 * i + pos'
    requires ScanMatches(Runs(s, 64 * i + pos), result, curBegin, curEnd)
    ensures curEnd == begin ==> ScanMatches(Runs(s, 64 * i + pos'), result, curBegin, end)
    ensures curEnd != begin ==>
      ScanMatches(Runs(s, 64 * i + pos'), if curBegin != curEnd then result + [Range(curBegin, curEnd)] else result, begin, end)
  {
    ChunkSlots(s, i, w, pos, mid, pos', begin, end);
    ScanBlock(s, 64 * i + pos, begin, end, 64 * i + pos', result, curBegin, curEnd);
  }

  /** One pass of the inner loop of the scan as written. */
  lemma ScanWordBlockAsWritten(s: seq<bool>, i: nat, w: Word, pos: nat, mid: nat, pos': nat,
                               result: seq<Range>, curBegin: int, curEnd: int, begin: int, end: int)
    requires WordOf(s, i, w)
    requires pos <= mid < pos' <= 64
    requires forall k :: pos <= k < mid ==> !w[k]
    requires forall k :: mid <= k < pos' ==> w[k]
    requires begin == 64 * i + mid && end == 64 * i + pos'
    requires ScanMatches(ScannedAsWritten(s, 64 * i + pos), result, curBegin, curEnd)
    ensures curEnd == begin ==> ScanMatches(ScannedAsWritten(s, 64 * i + pos'), result, curBegin, end)
    ensures curEnd != begin && curBegin != curEnd ==>
      ScanMatches(ScannedAsWritten(s, 64 * i + pos'), result + [Range(curBegin, curEnd)], begin, end)
    ensures curEnd != begin && curBegin == curEnd ==>
      ScanMatches(ScannedAsWritten(s, 64 * i + pos'), result, curBegin, curEnd)
  {
    ChunkSlots(s, i, w, pos, mid, pos', begin, end);
    ScanBlockAsWritten(s, 64 * i + pos, begin, end, 64 * i + pos', result, curBegin, curEnd);
  }

  /** After the last block of word `i`, the rest of the word is clear. */
  lemma WordTail(s: seq<bool>, i: nat, w: Word, pos: nat)
    requires WordOf(s, i, w)
    requires pos <= 64 && ShiftRight(w, pos) == Zero()
    ensures Runs(s, 64 * i + 64) == Runs(s, 64 * i + pos)
    ensures ScannedAsWritten(s, 64 * i + 64) == ScannedAsWritten(s, 64 * i + pos)
  {
    ZeroShiftGap(w, pos);
    WordSlots(s, i, w, pos, 64, false);
    RunsGap(s, 64 * i + pos, 64 * i + 64);
    ScannedAsWrittenGap(s, 64 * i + pos, 64 * i + 64);
  }

  /** `ScanStep` as the scan loop uses it: the block ends at slot `e`, and
      the loop's position after it is written `m`. */
  lemma ScanBlock(s: seq<bool>, n: nat, b: nat, e: nat, m: nat, result: seq<Range>, curBegin: int, curEnd: int)
    requires Block(s, n, b, e) && m == e
    requires ScanMatches(Runs(s, n), result, curBegin, curEnd)
    ensures curEnd == b ==> ScanMatches(Runs(s, m), result, curBegin, e)
    ensures curEnd != b ==>
      ScanMatches(Runs(s, m), if curBegin != curEnd then result + [Range(curBegin, curEnd)] else result, b, e)
  {
    ScanStep(s, n, b, e, result, curBegin, curEnd);
  }

  /** `ScanStepAsWritten` as the scan loop uses it. */
  lemma ScanBlockAsWritten(s: seq<bool>, n: nat, b: nat, e: nat, m: nat, result: seq<Range>, curBegin: int, curEnd: int)
    requires Block(s, n, b, e) && m == e
    requires ScanMatches(ScannedAsWritten(s, n), result, curBegin, curEnd)
    ensures curEnd == b ==> ScanMatches(ScannedAsWritten(s, m), result, curBegin, e)
    ensures curEnd != b && curBegin != curEnd ==>
      ScanMatches(ScannedAsWritten(s, m), result + [Range(curBegin, curEnd)], b, e)
    ensures curEnd != b && curBegin == curEnd ==>
      ScanMatches(ScannedAsWritten(s, m), result, curBegin, curEnd)
  {
    ScanStepAsWritten(s, n, b, e, result, curBegin, curEnd);
  }

  /** Whenever slot 0 is clear and some slot is set, the scan as written
      reports no range although the slots have runs. */
  lemma ScanAsWrittenDropsRuns(s: seq<bool>, o: nat)
    requires o < |s| && s[o] && !s[0]
    ensures ScannedAsWritten(s, |s|) == []
    ensures Runs(s, |s|) != []
  {
    RunsCover(s, |s|);
    assert InRun(Runs(s, |s|), o);
  }

  /** Stretches of `stride` bytes at ascending slots do not overlap. */
  lemma {:induction false} StrideAfter(o1: int, o2: int, stride: int)
    requires 0 <= o1 < o2 && stride >= 0
    ensures o1 * stride + stride <= o2 * stride
    decreases o2 - o1
  {
    if o2 > o1 + 1 {
      StrideAfter(o1, o2 - 1, stride);
    }
  }

  /** Ascending without repeats: the order `std::set<int>` iterates in, and
      the order a scan over the runs visits slots in. */
  ghost predicate Ascending(s: seq<int>)
  {
    forall i, j :: 0 <= i < j < |s| ==> s[i] < s[j]
  }

  /** The slots `begin`, ..., `end - 1`, counted up one at a time. */
  function Span(begin: int, end: int): (r: seq<int>)
    ensures |r| == if begin <= end then end - begin else 0
    ensures forall k :: 0 <= k < |r| ==> r[k] == begin + k
    decreases end - begin
  {
    if end <= begin then [] else Span(begin, end - 1) + [end - 1]
  }

  /** The slots the loops `for (i = beg; i < end; i++)` over the runs visit,
      run after run. */
  function RunSlots(r: seq<Range>): seq<int>
  {
    if r == [] then []
    else
      var init := RunSlots(r[..|r| - 1]);
      var last := r[|r| - 1];
      var tail := Span(last.begin, last.end);
      init + tail
  }

  /** A slot is visited exactly when some run covers it. */
  lemma {:induction false} RunSlotsCover(r: seq<Range>)
    ensures forall o :: o in RunSlots(r) <==> InRun(r, o)
  {
    if r != [] {
      var init := r[..|r| - 1];
      var last := r[|r| - 1];
      RunSlotsCover(init);
      var tail := Span(last.begin, last.end);
      assert RunSlots(r) == RunSlots(init) + tail;
      forall o
        ensures o in RunSlots(r) <==> InRun(r, o)
      {
        if InRun(init, o) {
          var j :| 0 <= j < |init| && init[j].begin <= o < init[j].end;
          assert r[j] == init[j];
        }
        if InRun(r, o) {
          var j :| 0 <= j < |r| && r[j].begin <= o < r[j].end;
          if j < |r| - 1 {
            assert init[j] == r[j];
            assert InRun(init, o);
          } else {
            assert tail[o - last.begin] == o;
          }
        }
      }
    }
  }

  /** Over ordered runs the visited slots ascend, and all lie below the end
      of the last run. */
  lemma {:induction false} RunSlotsAscending(r: seq<Range>, n: nat)
    requires OrderedRuns(r, n)
    ensures Ascending(RunSlots(r))
    ensures r != [] ==> forall x :: x in RunSlots(r) ==> x < r[|r| - 1].end
  {
    if r != [] {
      var init := r[..|r| - 1];
      var last := r[|r| - 1];
      assert OrderedRuns(init, n);
      RunSlotsAscending(init, n);
      var a := RunSlots(init);
      var tail := Span(last.begin, last.end);
      assert RunSlots(r) == a + tail;
      if init != [] {
        assert init[|init| - 1] == r[|r| - 2];
        assert forall x :: x in a ==> x < last.begin;
      }
      assert forall i :: 0 <= i < |a| ==> a[i] in a;
      assert forall i, j :: 0 <= i < j < |a + tail| ==> (a + tail)[i] < (a + tail)[j];
    }
  }

  /** The slots a scan over `Runs(s, |s|)` visits are exactly the occupied
      slots, in ascending order. */
  lemma RunSlotsOccupied(s: seq<bool>)
    ensures Ascending(RunSlots(Runs(s, |s|)))
    ensures forall o :: o in RunSlots(Runs(s, |s|)) <==> 0 <= o < |s| && s[o]
  {
    RunsOrdered(s, |s|);
    RunsCover(s, |s|);
    RunSlotsCover(Runs(s, |s|));
    RunSlotsAscending(Runs(s, |s|), |s|);
  }

  /** A bitmap with fewer set slots than its length has a clear slot. */
  lemma RoomHasFreeSlot(s: seq<bool>)
    requires Count(s) < |s|
    ensures FirstFrom(s, false, 0).Some?
  {
    CountExtremes(s);
  }

  // ---------------------------------------------------------------------
  // The page

  /** `PageReserveEntityResult`: the entity's address (a byte offset into the
      page's buffer) and its slot. */
  datatype PageReservation = PageReservation(entity: int, offset: int)

  /** `detail::EntityPage`. `storageSize` is the length of `storage`. */
  class EntityPage {
    var entityTypeId: int
    var pageId: int
    var parentPage: int
    var stride: int
    var occupancy: seq<Word>
    var storageSize: nat

    ghost predicate Valid()
      reads this
    {
      |occupancy| == NumWords && stride >= 0
    }

    /** The occupancy bitmap, slot by slot. */
    ghost function Slots(): (s: seq<bool>)
      reads this
      requires Valid()
      ensures |s| == EntityPageSize
    {
      Flatten(occupancy)
    }

    /** The page `World::createNewPage` appends: no slot occupied, an empty
        buffer, no parent page. */
    constructor (entityTypeId: int, pageId: int, stride: int)
      requires stride >= 0
      ensures Valid()
      ensures this.entityTypeId == entityTypeId && this.pageId == pageId && this.stride == stride
      ensures parentPage == -1 && storageSize == 0
      ensures occupancy == seq(NumWords, _ => Zero())
      ensures forall k :: 0 <= k < EntityPageSize ==> !Slots()[k]
    {
      this.entityTypeId := entityTypeId;
      this.pageId := pageId;
      this.stride := stride;
      parentPage := -1;
      storageSize := 0;
      occupancy := seq(NumWords, _ => Zero());
      new;
      ZeroWordsClear(occupancy);
    }

    /** `findFreeOffset` as written: word by word, `countr_zero` finds the
        lowest SET slot. */
    method FindFreeOffset() returns (r: Option<nat>)
      requires Valid()
      ensures r == FirstFrom(Slots(), true, 0)
    {
      for i := 0 to |occupancy|
        invariant forall k :: 0 <= k < 64 * i ==> !Slots()[k]
      {
        var bits := CountrZero(occupancy[i]);
        forall k | 0 <= k < 64
          ensures Slots()[64 * i + k] == occupancy[i][k]
        {
          FlattenAt(occupancy, i, k);
        }
        if bits < 64 {
          var result: nat := bits + i * 64;
          assert forall k :: 64 * i <= k < result ==> !Slots()[k] by {
            forall k | 64 * i <= k < result
              ensures !Slots()[k]
            {
              assert Slots()[64 * i + (k - 64 * i)] == occupancy[i][k - 64 * i];
            }
          }
          FirstFromIs(Slots(), true, 0, result);
          return if result >= EntityPageSize then None else Some(result);
        }
        assert forall k :: 64 * i <= k < 64 * (i + 1) ==> !Slots()[k] by {
          forall k | 64 * i <= k < 64 * (i + 1)
            ensures !Slots()[k]
          {
            assert Slots()[64 * i + (k - 64 * i)] == occupancy[i][k - 64 * i];
          }
        }
      }
      return None;
    }

    /** `findFreeOffset` as the comment on `reserveEntity` means it: word by
        word, `countr_one` finds the lowest CLEAR slot. */
    method FindFreeOffsetIntended() returns (r: Option<nat>)
      requires Valid()
      ensures r == FirstFrom(Slots(), false, 0)
    {
      for i := 0 to |occupancy|
        invariant forall k :: 0 <= k < 64 * i ==> Slots()[k]
      {
        var bits := CountrOne(occupancy[i]);
        forall k | 0 <= k < 64
          ensures Slots()[64 * i + k] == occupancy[i][k]
        {
          FlattenAt(occupancy, i, k);
        }
        if bits < 64 {
          var result: nat := bits + i * 64;
          assert forall k :: 64 * i <= k < result ==> Slots()[k] by {
            forall k | 64 * i <= k < result
              ensures Slots()[k]
            {
              assert Slots()[64 * i + (k - 64 * i)] == occupancy[i][k - 64 * i];
            }
          }
          FirstFromIs(Slots(), false, 0, result);
          return if result >= EntityPageSize then None else Some(result);
        }
        assert forall k :: 64 * i <= k < 64 * (i + 1) ==> Slots()[k] by {
          forall k | 64 * i <= k < 64 * (i + 1)
            ensures Slots()[k]
          {
            assert Slots()[64 * i + (k - 64 * i)] == occupancy[i][k - 64 * i];
          }
        }
      }
      return None;
    }

    /** `reserveEntity`, with the intended search for the lowest clear slot
        and 64-bit masks: no free slot leaves the page as it was; otherwise
        the slot is marked occupied, the buffer grows to hold it, and its
        address and slot are returned. */
    method ReserveEntity() returns (r: Option<PageReservation>)
      requires Valid()
      modifies this
      ensures Valid()
      ensures entityTypeId == old(entityTypeId) && pageId == old(pageId)
      ensures parentPage == old(parentPage) && stride == old(stride)
      ensures FirstFrom(old(Slots()), false, 0).None? ==>
        r.None? && occupancy == old(occupancy) && storageSize == old(storageSize)
      ensures FirstFrom(old(Slots()), false, 0).Some? ==>
        var off := FirstFrom(old(Slots()), false, 0).value;
        r == Some(PageReservation(off * stride, off)) &&
        Slots() == old(Slots())[off := true] &&
        storageSize == (if old(storageSize) < (off + 1) * stride then (off + 1) * stride else old(storageSize))
    {
      var offOpt := FindFreeOffsetIntended();
      if offOpt.None? {
        return None;
      }
      var off := offOpt.value;
      var targetSize := (off + 1) * stride;
      if storageSize < targetSize {
        storageSize := targetSize;
      }
      SetSlot(occupancy, off);
      occupancy := occupancy[off / 64 := Or(occupancy[off / 64], Bit(off % 64))];
      r := Some(PageReservation(EntityPtr(off), off));
    }

    /** `releaseEntity` with a 64-bit mask: slot `offset` becomes free and no
        other slot changes. An offset outside the page indexes past the
        bitmap, which the source leaves undefined. */
    method ReleaseEntity(offset: int)
      requires Valid() && 0 <= offset < EntityPageSize
      modifies this
      ensures Valid()
      ensures entityTypeId == old(entityTypeId) && pageId == old(pageId) && parentPage == old(parentPage)
      ensures stride == old(stride) && storageSize == old(storageSize)
      ensures Slots() == old(Slots())[offset := false]
    {
      ClearSlot(occupancy, offset);
      occupancy := occupancy[offset / 64 := And(occupancy[offset / 64], Not(Bit(offset % 64)))];
    }

    /** `isEntityPresent` with a 64-bit mask: false past the page, otherwise
        the slot's bit. The bound is unsigned, so a negative `int` offset
        converts to a value past the page and is not present either. */
    function IsEntityPresent(offset: int): (r: bool)
      reads this
      requires Valid()
      ensures r == (0 <= offset < EntityPageSize && Slots()[offset])
    {
      if offset < 0 || offset >= EntityPageSize then false
      else
        SlotOfWord(occupancy, offset);
        MaskTest(occupancy[offset / 64], offset % 64);
        And(occupancy[offset / 64], Bit(offset % 64)) != Zero()
    }

    /** `releaseEntity` AS WRITTEN: `~(1 << (offset % 64))` is computed in
        32-bit `int` and then widened. Below bit 31 it frees slot `offset`
        alone; at bit 31 it also frees the 32 slots after it, up to the end of
        the word; from bit 32 the shift is undefined (`defined` is false and
        the page is left as it was). */
    method ReleaseEntityAsWritten(offset: int) returns (defined: bool)
      requires Valid() && 0 <= offset < EntityPageSize
      modifies this
      ensures Valid()
      ensures entityTypeId == old(entityTypeId) && pageId == old(pageId) && parentPage == old(parentPage)
      ensures stride == old(stride) && storageSize == old(storageSize)
      ensures defined <==> offset % 64 < 32
      ensures !defined ==> occupancy == old(occupancy)
      ensures defined ==> forall k :: 0 <= k < EntityPageSize ==>
        Slots()[k] == (old(Slots())[k] && k != offset && !(offset % 64 == 31 && offset < k < offset + 33))
    {
      var cleared := ClearAsWritten(occupancy[offset / 64], offset % 64);
      if cleared.None? {
        return false;
      }
      ghost var before := occupancy;
      occupancy := occupancy[offset / 64 := cleared.value];
      forall k | 0 <= k < EntityPageSize
        ensures Slots()[k] == (Flatten(before)[k] && k != offset && !(offset % 64 == 31 && offset < k < offset + 33))
      {
        ReplacedWordSlot(before, offset / 64, cleared.value, k);
        SlotOfWord(before, k);
      }
      defined := true;
    }

    /** `isEntityPresent` AS WRITTEN: `false` past the page, and for a
        negative offset too, which converts to a huge unsigned value in the
        comparison; otherwise the 32-bit `int` mask is widened, so bit 31 of
        a word tests the slot and the 32 after it, and a bit from 32 on is an
        undefined shift (None). */
    function IsEntityPresentAsWritten(offset: int): (r: Option<bool>)
      reads this
      requires Valid()
      ensures r.None? <==> 0 <= offset < EntityPageSize && offset % 64 >= 32
      ensures offset < 0 || offset >= EntityPageSize ==> r == Some(false)
      ensures 0 <= offset < EntityPageSize && offset % 64 < 31 ==> r == Some(Slots()[offset])
      ensures 0 <= offset < EntityPageSize && offset % 64 == 31 ==>
        r == Some(exists k :: offset <= k < offset + 33 && Slots()[k])
    {
      if offset < 0 || offset >= EntityPageSize then Some(false)
      else
        SlotOfWord(occupancy, offset);
        if offset % 64 == 31 then
          TestAsWrittenSlots(occupancy, Slots(), offset);
          TestAsWritten(occupancy[offset / 64], offset % 64)
        else
          TestAsWritten(occupancy[offset / 64], offset % 64)
    }

    /** Slot 31 clear and slot 40 occupied: the as-written presence test
        answers true for slot 31, and the as-written release of slot 31 also
        frees slot 40, which the 64-bit mask keeps. */
    lemma Slot31Discrepancy()
      requires Valid() && !Slots()[31] && Slots()[40]
      ensures IsEntityPresentAsWritten(31) == Some(true) && !IsEntityPresent(31)
      ensures ClearAsWritten(occupancy[0], 31).Some?
      ensures !Flatten(occupancy[0 := ClearAsWritten(occupancy[0], 31).value])[40]
      ensures Slots()[31 := false][40]
    {
      ReplacedWordSlot(occupancy, 0, ClearAsWritten(occupancy[0], 31).value, 40);
      SlotOfWord(occupancy, 40);
    }

    /** `entityPtr`: the address of slot `offset` in the buffer. */
    function EntityPtr(offset: int): (addr: int)
      reads this
      ensures addr == offset * stride
    {
      offset * stride
    }

    /** `componentPtr`: the address of the component at `componentOffset`
        within the entity in slot `offset`. */
    function ComponentPtr(offset: int, componentOffset: int): (addr: int)
      reads this
      ensures addr - EntityPtr(offset) == componentOffset
    {
      componentOffset + offset * stride
    }

    /** Entities in different slots occupy disjoint stretches of the buffer,
        ascending with the slot. */
    lemma EntitiesDisjoint(o1: int, o2: int)
      requires Valid() && 0 <= o1 < o2
      ensures EntityPtr(o1) + stride <= EntityPtr(o2)
    {
      StrideAfter(o1, o2, stride);
    }

    /** A component at an offset within the entity's size lies inside the
        entity's stretch of the buffer. */
    lemma ComponentInEntity(offset: int, componentOffset: int)
      requires Valid() && 0 <= componentOffset < stride
      ensures EntityPtr(offset) <= ComponentPtr(offset, componentOffset) < EntityPtr(offset) + stride
    {
    }

    /** `numActiveEntities`: the popcounts of the four words add up to the
        number of occupied slots. */
    method NumActiveEntities() returns (r: nat)
      requires Valid()
      ensures r == Count(Slots())
    {
      r := 0;
      for i := 0 to |occupancy|
        invariant r == Count(Flatten(occupancy[..i]))
      {
        assert occupancy[..i + 1][..i] == occupancy[..i];
        CountAppend(Flatten(occupancy[..i]), occupancy[i]);
        r := r + Popcount(occupancy[i]);
      }
      assert occupancy[..|occupancy|] == occupancy;
    }

    /** `isEmpty`: true exactly when no slot is occupied. */
    method IsEmpty() returns (r: bool)
      requires Valid()
      ensures r <==> Count(Slots()) == 0
    {
      CountExtremes(Slots());
      for i := 0 to |occupancy|
        invariant forall k :: 0 <= k < 64 * i ==> !Slots()[k]
      {
        forall k | 0 <= k < 64
          ensures Slots()[64 * i + k] == occupancy[i][k]
        {
          FlattenAt(occupancy, i, k);
        }
        if occupancy[i] != Zero() {
          var k :| 0 <= k < 64 && occupancy[i][k] != Zero()[k];
          assert Slots()[64 * i + k];
          return false;
        }
        WordSlots(Slots(), i, occupancy[i], 0, 64, false);
      }
      return true;
    }

    /** `isFull`: true exactly when all 256 slots are occupied. */
    method IsFull() returns (r: bool)
      requires Valid()
      ensures r <==> Count(Slots()) == EntityPageSize
    {
      CountExtremes(Slots());
      for i := 0 to |occupancy|
        invariant forall k :: 0 <= k < 64 * i ==> Slots()[k]
      {
        forall k | 0 <= k < 64
          ensures Slots()[64 * i + k] == occupancy[i][k]
        {
          FlattenAt(occupancy, i, k);
        }
        if Not(occupancy[i]) != Zero() {
          var k :| 0 <= k < 64 && Not(occupancy[i])[k] != Zero()[k];
          assert !Slots()[64 * i + k];
          return false;
        }
        assert forall j :: 0 <= j < 64 ==> occupancy[i][j] by {
          forall j | 0 <= j < 64
            ensures occupancy[i][j]
          {
            assert !Not(occupancy[i])[j];
          }
        }
        WordSlots(Slots(), i, occupancy[i], 0, 64, true);
      }
      return true;
    }

    /** `getActiveRanges` with the open range always replaced when a block
        does not extend it: the maximal runs of occupied slots, merged
        across word boundaries. */
    method GetActiveRanges() returns (result: seq<Range>)
      requires Valid()
      ensures result == Runs(Slots(), EntityPageSize)
    {
      ghost var s := Slots();
      result := [];
      var curBegin, curEnd := 0, 0;
      for i := 0 to |occupancy|
        invariant ScanMatches(Runs(s, 64 * i), result, curBegin, curEnd)
      {
        var w := occupancy[i];
        WordOfFlatten(occupancy, i);
        var tmp := w;
        var pos := 0;
        assert tmp == ShiftRight(w, 0);
        while tmp != Zero()
          invariant 0 <= pos <= 64 && tmp == ShiftRight(w, pos)
          invariant WordOf(s, i, w)
          invariant ScanMatches(Runs(s, 64 * i + pos), result, curBegin, curEnd)
          decreases 64 - pos
        {
          var t0 := CountrZero(tmp);
          tmp := ShiftRight(tmp, t0 % 64);
          var t1 := CountrOne(tmp);
          tmp := ShiftRight(tmp, t1 % 64);
          if t1 == 64 {
            tmp := Zero();
          }
          var begin := pos + t0;
          var end := begin + t1;
          ghost var pos0 := pos;
          pos := pos + t0 + t1;
          begin := begin + 64 * i;
          end := end + 64 * i;
          WordChunk(w, pos0, t0, t1, pos);
          ScanWordBlock(s, i, w, pos0, pos0 + t0, pos, result, curBegin, curEnd, begin, end);
          if curEnd == begin {
            curEnd := end;
          } else {
            if curBegin != curEnd {
              result := result + [Range(curBegin, curEnd)];
            }
            curBegin := begin;
            curEnd := end;
          }
        }
        WordTail(s, i, w, pos);
      }
      ScanFinish(s, EntityPageSize, result, curBegin, curEnd);
      if curBegin != curEnd {
        result := result + [Range(curBegin, curEnd)];
      }
    }

    /** `getActiveRanges` as written: the `else if` only replaces the open
        range when it is non-empty, so with slot 0 clear every block is
        dropped and nothing is reported. */
    method GetActiveRangesAsWritten() returns (result: seq<Range>)
      requires Valid()
      ensures result == (if Slots()[0] then Runs(Slots(), EntityPageSize) else [])
    {
      ghost var s := Slots();
      result := [];
      var curBegin, curEnd := 0, 0;
      for i := 0 to |occupancy|
        invariant ScanMatches(ScannedAsWritten(s, 64 * i), result, curBegin, curEnd)
      {
        var w := occupancy[i];
        WordOfFlatten(occupancy, i);
        var tmp := w;
        var pos := 0;
        assert tmp == ShiftRight(w, 0);
        while tmp != Zero()
          invariant 0 <= pos <= 64 && tmp == ShiftRight(w, pos)
          invariant WordOf(s, i, w)
          invariant ScanMatches(ScannedAsWritten(s, 64 * i + pos), result, curBegin, curEnd)
          decreases 64 - pos
        {
          var t0 := CountrZero(tmp);
          tmp := ShiftRight(tmp, t0 % 64);
          var t1 := CountrOne(tmp);
          tmp := ShiftRight(tmp, t1 % 64);
          if t1 == 64 {
            tmp := Zero();
          }
          var begin := pos + t0;
          var end := begin + t1;
          ghost var pos0 := pos;
          pos := pos + t0 + t1;
          begin := begin + 64 * i;
          end := end + 64 * i;
          WordChunk(w, pos0, t0, t1, pos);
          ScanWordBlockAsWritten(s, i, w, pos0, pos0 + t0, pos, result, curBegin, curEnd, begin, end);
          if curEnd == begin {
            curEnd := end;
          } else if curBegin != curEnd {
            result := result + [Range(curBegin, curEnd)];
            curBegin := begin;
            curEnd := end;
          }
        }
        WordTail(s, i, w, pos);
      }
      if s[0] {
        ScanFinish(s, EntityPageSize, result, curBegin, curEnd);
      }
      if curBegin != curEnd {
        result := result + [Range(curBegin, curEnd)];
      }
    }
  }
}
