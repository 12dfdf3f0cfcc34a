/** What each page operation of the toolkit produces, stated on values: a
    document is the ordered list of its pages, the filesystem maps each
    existing path to its document, and a writer is the list of pages added
    to it so far. */
module PageSelection {
  import opened Outcomes
  import opened PyText
  import opened PageRanges

  /** A page as the PDF library hands it over: copied, never inspected. */
  type Page

  /** The files the toolkit can see: a path exists when it is a key. */
  type FileSystem = map<string, seq<Page>>

  function Min(a: int, b: int): int {
    if a <= b then a else b
  }

  /** reader.pages[i] with Python's indexing: a negative i counts from the end. */
  function PyIndex(pages: seq<Page>, i: int): (p: Page)
    requires -|pages| <= i < |pages|
    ensures p in pages
  {
    if i >= 0 then pages[i] else pages[|pages| + i]
  }

  // ============================================================ extract

  /** The pages copied for the indices from lo up to, not including, hi when each index is only
      tested against the document length: larger indices are skipped. An
      index below -len(pages) would raise IndexError instead; ExtractResult
      reports that case before these pages are ever used, so here it simply
      adds nothing. */
  function Picks(pages: seq<Page>, lo: int, hi: int): (picked: seq<Page>)
    ensures |pages| == 0 ==> picked == []
    decreases hi - lo
  {
    if hi <= lo then []
    else Picks(pages, lo, hi - 1) + (if -|pages| <= hi - 1 < |pages| then [PyIndex(pages, hi - 1)] else [])
  }

  /** No range asks an empty document for its page at index -1, which is the
      one way indexing can fail: a range starting at 0 begins at -1. */
  predicate Indexable(pages: seq<Page>, ranges: seq<PageRange>) {
    |pages| > 0 || forall i :: 0 <= i < |ranges| ==> ranges[i].start >= 1
  }

  /** What extract_pages adds to its writer: each range in turn. */
  function Extracted(pages: seq<Page>, ranges: seq<PageRange>): (extracted: seq<Page>)
    ensures |pages| == 0 ==> extracted == []
  {
    if ranges == [] then []
    else
      var last := ranges[|ranges| - 1];
      Extracted(pages, ranges[..|ranges| - 1]) + Picks(pages, last.start - 1, last.end)
  }

  /** extract_pages: a missing input or a malformed token is reported, and so
      is the IndexError of a 0-start range on an empty document; otherwise
      the extracted pages are what gets written. */
  function ExtractResult(fs: FileSystem, input: string, tokens: seq<string>): (r: Result<seq<Page>>)
    ensures input !in fs ==> r == Err(FileNotFound(input))
    ensures r.Ok? ==> ParseRanges(tokens).Ok?
    ensures r.Err? ==> r.error == FileNotFound(input) || r.error.BadRangeToken? || r.error == IndexOutOfRange(-1)
  {
    if input !in fs then Err(FileNotFound(input))
    else
      var parsed := ParseRanges(tokens);
      if parsed.Err? then Err(parsed.error)
      else if !Indexable(fs[input], parsed.value) then Err(IndexOutOfRange(-1))
      else Ok(Extracted(fs[input], parsed.value))
  }

  /** From a non-negative start, a range copies the contiguous run of pages
      it covers, in increasing index, with the indices past the end dropped;
      a range whose start exceeds its end copies nothing. */
  lemma {:induction false} PicksSlice(pages: seq<Page>, lo: nat, hi: nat)
    ensures Picks(pages, lo, hi) == pages[Min(lo, Min(hi, |pages|))..Min(hi, |pages|)]
    decreases hi - lo
  {
    if hi > lo {
      PicksSlice(pages, lo, hi - 1);
      if hi - 1 < |pages| && lo < hi - 1 {
        assert pages[lo..hi - 1] + [pages[hi - 1]] == pages[lo..hi];
      }
    }
  }

  /** A range starting at 0 first copies the LAST page (Python index -1),
      then pages 1 .. end as a 1-start range would. */
  lemma {:induction false} PicksFromZero(pages: seq<Page>, hi: int)
    requires |pages| > 0 && hi >= 0
    ensures Picks(pages, -1, hi) == [pages[|pages| - 1]] + Picks(pages, 0, hi)
    decreases hi
  {
    if hi > 0 {
      PicksFromZero(pages, hi - 1);
    }
  }

  /** Ranges are copied one after the other, so the output for a list of
      ranges is the outputs for its parts joined in order; overlapping or
      repeated ranges therefore copy their pages again. */
  lemma {:induction false} ExtractedAppend(pages: seq<Page>, a: seq<PageRange>, b: seq<PageRange>)
    ensures Extracted(pages, a + b) == Extracted(pages, a) + Extracted(pages, b)
    decreases |b|
  {
    if b != [] {
      var init := b[..|b| - 1];
      assert (a + b)[..|a + b| - 1] == a + init;
      ExtractedAppend(pages, a, init);
    } else {
      assert a + b == a;
    }
  }

  /** A one-range list copies what that range's loop copies. */
  lemma ExtractedSingle(pages: seq<Page>, r: PageRange)
    ensures Extracted(pages, [r]) == Picks(pages, r.start - 1, r.end)
  {
    assert [r][..0] == [];
  }

  /** A single range start-end with start >= 1 yields exactly the pages
      start .. min(end, n), in order. */
  lemma ExtractOneRange(pages: seq<Page>, start: nat, end: nat)
    requires start >= 1
    ensures Extracted(pages, [PageRange(start, end)])
      == pages[Min(start - 1, Min(end, |pages|))..Min(end, |pages|)]
  {
    var lo: nat := start - 1;
    ExtractedSingle(pages, PageRange(start, end));
    PicksSlice(pages, lo, end);
  }

  /** The range 1-n of an n-page document reproduces it. */
  lemma ExtractWholeDocument(pages: seq<Page>)
    ensures Extracted(pages, [PageRange(1, |pages|)]) == pages
  {
    ExtractOneRange(pages, 1, |pages|);
  }

  /** Python's negative indexing: on a non-empty document the range 0-e
      yields the last page followed by pages 1 .. min(e, n). */
  lemma ExtractFromZero(pages: seq<Page>, end: nat)
    requires |pages| > 0
    ensures Extracted(pages, [PageRange(0, end)])
      == [pages[|pages| - 1]] + pages[..Min(end, |pages|)]
  {
    assert [PageRange(0, end)][..0] == [];
    PicksFromZero(pages, end);
    PicksSlice(pages, 0, end);
  }

  // ============================================================ delete

  /** The integers of range(lo, hi), as a set. */
  function Interval(lo: int, hi: int): (s: set<int>)
    ensures forall i :: i in s <==> lo <= i < hi
    decreases hi - lo
  {
    if hi <= lo then {} else Interval(lo, hi - 1) + {hi - 1}
  }

  /** range(start - 1, end): the 0-based indices a range token names. */
  function RangeIndices(r: PageRange): (s: set<int>)
    ensures forall i :: i in s <==> r.start - 1 <= i < r.end
  {
    Interval(r.start - 1, r.end)
  }

  /** pages_to_exclude after every token has been added. */
  function Excluded(ranges: seq<PageRange>): (s: set<int>)
    ensures forall i :: i in s ==> -1 <= i
  {
    if ranges == [] then {}
    else Excluded(ranges[..|ranges| - 1]) + RangeIndices(ranges[|ranges| - 1])
  }

  /** The first j pages that are not excluded, in their original order. */
  function Kept(pages: seq<Page>, excluded: set<int>, j: nat): (kept: seq<Page>)
    requires j <= |pages|
    ensures |kept| <= j
  {
    if j == 0 then []
    else Kept(pages, excluded, j - 1) + (if j - 1 in excluded then [] else [pages[j - 1]])
  }

  /** delete_pages: a missing input or a malformed token is reported;
      otherwise the pages outside every range are what gets written. */
  function DeleteResult(fs: FileSystem, input: string, tokens: seq<string>): (r: Result<seq<Page>>)
    ensures r.Ok? <==> input in fs && ParseRanges(tokens).Ok?
    ensures r.Ok? ==> |r.value| <= |fs[input]|
    ensures r.Err? ==> r.error == FileNotFound(input) || r.error.BadRangeToken?
  {
    if input !in fs then Err(FileNotFound(input))
    else
      var parsed := ParseRanges(tokens);
      if parsed.Err? then Err(parsed.error)
      else Ok(Kept(fs[input], Excluded(parsed.value), |fs[input]|))
  }

  /** An index is excluded exactly when some range covers it. */
  lemma {:induction false} ExcludedCovers(ranges: seq<PageRange>, i: int)
    ensures i in Excluded(ranges) <==>
      exists k :: 0 <= k < |ranges| && ranges[k].start - 1 <= i < ranges[k].end
    decreases |ranges|
  {
    if ranges != [] {
      var init := ranges[..|ranges| - 1];
      ExcludedCovers(init, i);
      assert forall k :: 0 <= k < |init| ==> init[k] == ranges[k];
      if i in RangeIndices(ranges[|ranges| - 1]) {
        assert ranges[|ranges| - 1].start - 1 <= i < ranges[|ranges| - 1].end;
      }
    }
  }

  /** Only which ranges were given matters: their order and repetitions do
      not change the excluded set. */
  lemma ExcludedBySet(a: seq<PageRange>, b: seq<PageRange>)
    requires forall r :: r in a <==> r in b
    ensures Excluded(a) == Excluded(b)
  {
    forall i | i in Excluded(a) ensures i in Excluded(b) {
      ExcludedCovers(a, i);
      var k :| 0 <= k < |a| && a[k].start - 1 <= i < a[k].end;
      assert a[k] in a;
      var m :| 0 <= m < |b| && b[m] == a[k];
      ExcludedCovers(b, i);
    }
    forall i | i in Excluded(b) ensures i in Excluded(a) {
      ExcludedCovers(b, i);
      var k :| 0 <= k < |b| && b[k].start - 1 <= i < b[k].end;
      assert b[k] in b;
      var m :| 0 <= m < |a| && a[m] == b[k];
      ExcludedCovers(a, i);
    }
  }

  /** Excluded indices outside the document have no effect. */
  lemma {:induction false} KeptIgnoresOutside(pages: seq<Page>, e1: set<int>, e2: set<int>, j: nat)
    requires j <= |pages|
    requires forall i :: 0 <= i < |pages| ==> (i in e1 <==> i in e2)
    ensures Kept(pages, e1, j) == Kept(pages, e2, j)
  {
    if j > 0 {
      KeptIgnoresOutside(pages, e1, e2, j - 1);
    }
  }

  /** The indices of the kept pages: range(j) without the excluded ones. */
  function KeptIndices(excluded: set<int>, j: nat): seq<nat> {
    if j == 0 then []
    else KeptIndices(excluded, j - 1) + (if j - 1 in excluded then [] else [j - 1])
  }

  /** The kept pages are exactly the pages whose index is not excluded,
      each once, in their original order. */
  lemma {:induction false} KeptIsComplement(pages: seq<Page>, excluded: set<int>, j: nat)
    requires j <= |pages|
    ensures var idx := KeptIndices(excluded, j);
      && |Kept(pages, excluded, j)| == |idx|
      && (forall t :: 0 <= t < |idx| ==> idx[t] < j && Kept(pages, excluded, j)[t] == pages[idx[t]])
      && (forall s, t :: 0 <= s < t < |idx| ==> idx[s] < idx[t])
      && (forall i :: 0 <= i < j ==> (i in idx <==> i !in excluded))
  {
    if j > 0 {
      KeptIsComplement(pages, excluded, j - 1);
    }
  }

  /** Deleting one range a-b (1 <= a, a <= b + 1) removes the pages
      a .. min(b, n) and keeps the rest in order. */
  lemma {:induction false} DeleteOneRange(pages: seq<Page>, a: nat, b: nat, j: nat)
    requires 1 <= a <= b + 1 && j <= |pages|
    ensures Kept(pages, Excluded([PageRange(a, b)]), j)
      == pages[..Min(a - 1, j)] + pages[Min(b, j)..j]
  {
    var ex := Excluded([PageRange(a, b)]);
    assert [PageRange(a, b)][..0] == [];
    assert Excluded([PageRange(a, b)][..0]) == {};
    assert ex == RangeIndices(PageRange(a, b));
    if j > 0 {
      DeleteOneRange(pages, a, b, j - 1);
      if j - 1 in ex {
        assert pages[Min(b, j)..j] == [];
      } else if j - 1 < a - 1 {
        assert pages[..j - 1] + [pages[j - 1]] == pages[..j];
      } else {
        assert pages[Min(b, j - 1)..j - 1] + [pages[j - 1]] == pages[Min(b, j)..j];
      }
    }
  }

  /** Extracting 1-(a-1) and then (b+1)-n copies every page outside a .. b,
      in order. */
  lemma ExtractComplement(pages: seq<Page>, a: nat, b: nat)
    requires 1 <= a <= b + 1
    ensures Extracted(pages, [PageRange(1, a - 1), PageRange(b + 1, |pages|)])
      == pages[..Min(a - 1, |pages|)] + pages[Min(b, |pages|)..|pages|]
  {
    var n := |pages|;
    var x, y := PageRange(1, a - 1), PageRange(b + 1, n);
    assert Extracted(pages, [x, y]) == Picks(pages, 0, a - 1) + Picks(pages, b, n) by {
      assert [x, y][..1] == [x];
      ExtractedSingle(pages, x);
    }
    PicksSlice(pages, 0, a - 1);
    PicksSlice(pages, b, n);
  }

  /** Deleting a-b gives what extracting its complement 1-(a-1), (b+1)-n
      gives. */
  lemma DeleteIsExtractOfRest(pages: seq<Page>, a: nat, b: nat)
    requires 1 <= a <= b + 1
    ensures Kept(pages, Excluded([PageRange(a, b)]), |pages|)
      == Extracted(pages, [PageRange(1, a - 1), PageRange(b + 1, |pages|)])
  {
    ExtractComplement(pages, a, b);
    DeleteOneRange(pages, a, b, |pages|);
  }

  // ============================================================ merge

  /** What merge_pdfs adds to its writer: every page of every input that
      exists, file after file; a missing file adds nothing. */
  function Merged(fs: FileSystem, files: seq<string>): (merged: seq<Page>)
    ensures forall f :: f in files && f in fs ==> |fs[f]| <= |merged|
  {
    if files == [] then []
    else
      var last := files[|files| - 1];
      Merged(fs, files[..|files| - 1]) + (if last in fs then fs[last] else [])
  }

  /** Merging a list is merging its parts and joining the results in order. */
  lemma {:induction false} MergedAppend(fs: FileSystem, a: seq<string>, b: seq<string>)
    ensures Merged(fs, a + b) == Merged(fs, a) + Merged(fs, b)
    decreases |b|
  {
    if b == [] {
      assert a + b == a;
    } else {
      assert (a + b)[..|a + b| - 1] == a + b[..|b| - 1];
      MergedAppend(fs, a, b[..|b| - 1]);
    }
  }

  /** A missing file contributes nothing wherever it is listed. */
  lemma MergedSkipsMissing(fs: FileSystem, a: seq<string>, f: string, b: seq<string>)
    requires f !in fs
    ensures Merged(fs, a + [f] + b) == Merged(fs, a + b)
  {
    MergedAppend(fs, a + [f], b);
    MergedAppend(fs, a, [f]);
    MergedAppend(fs, a, b);
    assert [f][..0] == [];
  }

  /** Merging files that all exist yields all their pages, file after file. */
  lemma MergedTwo(fs: FileSystem, x: string, y: string)
    requires x in fs && y in fs
    ensures Merged(fs, [x, y]) == fs[x] + fs[y]
  {
    assert [x, y][..1] == [x];
    assert [x][..0] == [];
    assert Merged(fs, [x]) == Merged(fs, []) + fs[x];
    assert Merged(fs, [x, y]) == Merged(fs, [x]) + fs[y];
  }

  // ============================================================ split

  /** Python's `a // b`: rounds toward minus infinity for either sign of b. */
  function FloorDiv(a: int, b: int): (q: int)
    requires b != 0
    ensures b > 0 ==> q * b <= a < q * b + b
    ensures b < 0 ==> q * b >= a > q * b + b
  {
    if b > 0 then a / b else (-a) / (-b)
  }

  /** The part count: the page count plus the part size less one, floor-divided
      by the part size. */
  function PartCount(n: nat, k: int): (count: int)
    requires k != 0
    ensures k > 0 ==> count >= 0
  {
    FloorDiv(n + k - 1, k)
  }

  /** Pages range(p*k, min((p+1)*k, n)) of part p (0-based). */
  function PartPages(pages: seq<Page>, p: nat, k: int): (part: seq<Page>)
    ensures |part| <= if k > 0 then k else 0
  {
    var lo, hi := p * k, Min(p * k + k, |pages|);
    if lo < hi then pages[lo..hi] else []
  }

  /** The file name of the part numbered `number`: the base name, then "_part",
      then the number in decimal, then the ".pdf" extension. */
  function PartName(base: string, number: nat): (name: string)
    ensures |name| > |base| + 9
    ensures name[..|base|] == base && name[|name| - 4..] == ".pdf"
  {
    base + "_part" + NatToString(number) + ".pdf"
  }

  /** Between the base name and ".pdf" a part's name holds "_part" and then
      only digits, and those digits read back as the part's number. */
  lemma PartNameNumber(base: string, number: nat)
    ensures var name := PartName(base, number);
      && name[|base|..|base| + 5] == "_part"
      && AllDigits(name[|base| + 5..|name| - 4])
      && ParseDigits(name[|base| + 5..|name| - 4]) == Some(number)
  {
    var name := PartName(base, number);
    assert name[|base| + 5..|name| - 4] == NatToString(number);
  }

  datatype Part = Part(name: string, pages: seq<Page>)

  /** The first `count` parts, named from 1. */
  function Parts(pages: seq<Page>, k: int, base: string, count: nat): (parts: seq<Part>)
    ensures |parts| == count
  {
    if count == 0 then []
    else Parts(pages, k, base, count - 1) + [Part(PartName(base, count), PartPages(pages, count - 1, k))]
  }

  /** split_pdf: a missing input or pages_per_part == 0 is reported;
      otherwise max(num_parts, 0) parts are written. */
  function SplitResult(fs: FileSystem, input: string, k: int, base: string): (r: Result<seq<Part>>)
    ensures r.Ok? <==> input in fs && k != 0
    ensures r.Err? ==> r.error == (if input !in fs then FileNotFound(input) else ZeroPartSize)
  {
    if input !in fs then Err(FileNotFound(input))
    else if k == 0 then Err(ZeroPartSize)
    else
      var count := PartCount(|fs[input]|, k);
      Ok(Parts(fs[input], k, base, if count < 0 then 0 else count))
  }

  /** The pages of a list of parts, part after part. */
  function Joined(parts: seq<Part>): seq<Page> {
    if parts == [] then [] else Joined(parts[..|parts| - 1]) + parts[|parts| - 1].pages
  }

  lemma {:induction false} PartsAt(pages: seq<Page>, k: int, base: string, count: nat, p: nat)
    requires p < count
    ensures Parts(pages, k, base, count)[p] == Part(PartName(base, p + 1), PartPages(pages, p, k))
  {
    if p < count - 1 {
      PartsAt(pages, k, base, count - 1, p);
    }
  }

  /** For k > 0 the count is ceil(n / k): enough parts to hold every page,
      and not one more. */
  lemma PartCountIsCeiling(n: nat, k: int)
    requires k > 0
    ensures PartCount(n, k) == (n + k - 1) / k
    ensures PartCount(n, k) >= 0
    ensures PartCount(n, k) * k >= n
    ensures PartCount(n, k) * k < n + k
  {
  }

  /** Split with k > 0: the parts, joined in order, are the whole document. */
  lemma {:induction false} JoinedParts(pages: seq<Page>, k: int, base: string, count: nat)
    requires k > 0
    ensures Joined(Parts(pages, k, base, count)) == pages[..Min(count * k, |pages|)]
  {
    if count > 0 {
      var c := count - 1;
      JoinedParts(pages, k, base, c);
      var parts := Parts(pages, k, base, count);
      assert parts[..|parts| - 1] == Parts(pages, k, base, c);
      var lo := c * k;
      MulLeft(0, c, k);
      assert count * k == lo + k;
      PrefixStep(pages, lo, lo + k);
    }
  }

  /** Extending a capped prefix from lo to hi appends the capped slice
      between them. */
  lemma PrefixStep(pages: seq<Page>, lo: nat, hi: nat)
    requires lo <= hi
    ensures pages[..Min(lo, |pages|)]
      + (if lo < Min(hi, |pages|) then pages[lo..Min(hi, |pages|)] else [])
      == pages[..Min(hi, |pages|)]
  {
    if lo < Min(hi, |pages|) {
      assert pages[..lo] + pages[lo..Min(hi, |pages|)] == pages[..Min(hi, |pages|)];
    }
  }

  /** Split with k > 0 writes ceil(n / k) parts whose pages, joined in order,
      are the document. */
  lemma SplitCoversDocument(pages: seq<Page>, k: int, base: string)
    requires k > 0
    ensures PartCount(|pages|, k) >= 0
    ensures Joined(Parts(pages, k, base, PartCount(|pages|, k))) == pages
  {
    var count := PartCount(|pages|, k);
    PartCountIsCeiling(|pages|, k);
    JoinedParts(pages, k, base, count);
  }

  lemma MulLeft(a: int, b: int, k: nat)
    requires a <= b
    ensures a * k <= b * k
  {
  }

  /** Split with k > 0: every part but the last holds exactly k pages, the
      last between 1 and k, and part p holds pages p*k .. min((p+1)*k, n). */
  lemma SplitPartSizes(pages: seq<Page>, k: int, p: nat)
    requires k > 0 && p < PartCount(|pages|, k)
    ensures 0 <= p * k < Min(p * k + k, |pages|)
    ensures PartPages(pages, p, k) == pages[p * k..Min(p * k + k, |pages|)]
    ensures p < PartCount(|pages|, k) - 1 ==> |PartPages(pages, p, k)| == k
    ensures 1 <= |PartPages(pages, p, k)| <= k
  {
    var n, count := |pages|, PartCount(|pages|, k);
    PartCountIsCeiling(n, k);
    MulLeft(0, p, k);
    MulLeft(p + 1, count, k);
    assert (p + 1) * k == p * k + k;
    assert p * k < n;
    if p < count - 1 {
      MulLeft(p + 2, count, k);
      assert (p + 2) * k == p * k + k + k;
      assert p * k + k < n;
    }
  }

  /** Distinct part numbers give distinct file names. */
  lemma PartNamesDistinct(base: string, m: nat, n: nat)
    requires m != n
    ensures PartName(base, m) != PartName(base, n)
  {
    var prefix := base + "_part";
    var x, y := NatToString(m), NatToString(n);
    var nameM, nameN := PartName(base, m), PartName(base, n);
    assert nameM == prefix + x + ".pdf";
    assert nameN == prefix + y + ".pdf";
    assert nameM[|prefix|..|nameM| - 4] == x;
    assert nameN[|prefix|..|nameN| - 4] == y;
    NatToStringInjective(m, n);
  }

  /** A negative pages_per_part does not fail: every range(p*k, ...) is
      empty, so each of the max(num_parts, 0) parts written is empty. */
  lemma SplitNegativeEmpty(pages: seq<Page>, k: int, p: nat)
    requires k < 0
    ensures PartPages(pages, p, k) == []
  {
    assert p * k + k < p * k;
  }
}
