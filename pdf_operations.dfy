/** The page operations as they run: each reads its input, loops over page
    numbers appending pages to a writer, and writes the writer's pages once
    the loops are done. An exception raised inside the try block is caught
    and printed: the operation returns normally and writes nothing. */
module PdfOperations {
  import opened Outcomes
  import opened PageRanges
  import opened PageSelection

  /** extract_pages: the result is what ExtractResult describes, and the
      output file holds it exactly when no error was raised. */
  method ExtractPages(fs: FileSystem, input: string, output: string, tokens: seq<string>)
    returns (r: Result<seq<Page>>, written: FileSystem)
    ensures r == ExtractResult(fs, input, tokens)
    ensures written == if r.Ok? then fs[output := r.value] else fs
  {
    written := fs;
    if input !in fs {
      r := Err(FileNotFound(input));
      return;
    }
    var parsed := ParseRanges(tokens);
    if parsed.Err? {
      r := Err(parsed.error);
      return;
    }
    r := CopyRanges(fs[input], parsed.value);
    if r.Ok? {
      written := fs[output := r.value];
    }
  }

  /** The page loops of extract_pages: each range in turn. */
  method CopyRanges(pages: seq<Page>, ranges: seq<PageRange>) returns (r: Result<seq<Page>>)
    ensures r == if Indexable(pages, ranges) then Ok(Extracted(pages, ranges))
                 else Err(IndexOutOfRange(-1))
  {
    var writer: seq<Page> := [];
    for k := 0 to |ranges|
      invariant Indexable(pages, ranges[..k])
      invariant writer == Extracted(pages, ranges[..k])
    {
      var step := CopyRange(pages, writer, ranges[k].start, ranges[k].end);
      if step.Err? {
        r := step;
        return;
      }
      writer := step.value;
      assert ranges[..k + 1] == ranges[..k] + [ranges[k]];
    }
    assert ranges[..|ranges|] == ranges;
    r := Ok(writer);
  }

  /** One range of extract_pages: page numbers start-1 .. end-1 are copied
      onto the writer, those past the end skipped; on an empty document a
      range starting at 0 asks for reader.pages[-1] and raises IndexError. */
  method CopyRange(pages: seq<Page>, writer: seq<Page>, start: nat, end: nat)
    returns (r: Result<seq<Page>>)
    ensures r == if |pages| == 0 && start == 0 then Err(IndexOutOfRange(-1))
                 else Ok(writer + Picks(pages, start - 1, end))
  {
    var copied := writer;
    var pageNum := start - 1;
    while pageNum < end
      invariant start - 1 <= pageNum && (pageNum <= end || pageNum == start - 1)
      invariant pageNum > start - 1 ==> |pages| > 0 || start >= 1
      invariant copied == writer + Picks(pages, start - 1, pageNum)
      decreases end - pageNum
    {
      if pageNum < |pages| {
        if pageNum < -|pages| {
          r := Err(IndexOutOfRange(pageNum));
          return;
        }
        copied := copied + [PyIndex(pages, pageNum)];
      }
      pageNum := pageNum + 1;
    }
    assert Picks(pages, start - 1, pageNum) == Picks(pages, start - 1, end);
    r := Ok(copied);
  }

  /** merge_pdfs: every page of every existing input, in list order, is
      written to the output; missing inputs are skipped. */
  method MergePdfs(fs: FileSystem, files: seq<string>, output: string)
    returns (merged: seq<Page>, written: FileSystem)
    ensures merged == Merged(fs, files)
    ensures written == fs[output := merged]
  {
    var writer: seq<Page> := [];
    for i := 0 to |files|
      invariant writer == Merged(fs, files[..i])
    {
      var file := files[i];
      assert files[..i + 1][..i] == files[..i];
      assert files[..i + 1][i] == file;
      if file !in fs {
        // merge_pdfs prints a warning and skips the missing file
        continue;
      }
      var pages := fs[file];
      for j := 0 to |pages|
        invariant writer == Merged(fs, files[..i]) + pages[..j]
      {
        writer := writer + [pages[j]];
      }
      assert pages[..|pages|] == pages;
    }
    assert files[..|files|] == files;
    merged := writer;
    written := fs[output := merged];
  }

  /** delete_pages: the pages whose index no range covers are written, in
      their original order. */
  method DeletePages(fs: FileSystem, input: string, output: string, tokens: seq<string>)
    returns (r: Result<seq<Page>>, written: FileSystem)
    ensures r == DeleteResult(fs, input, tokens)
    ensures written == if r.Ok? then fs[output := r.value] else fs
  {
    written := fs;
    if input !in fs {
      r := Err(FileNotFound(input));
      return;
    }
    var exclude := CollectExcluded(tokens);
    if exclude.Err? {
      r := Err(exclude.error);
      return;
    }
    var kept := KeepPages(fs[input], exclude.value);
    r := Ok(kept);
    written := fs[output := kept];
  }

  /** The token loop of delete_pages: every token is parsed in turn and its
      indices range(start - 1, end) are added to the excluded set; the first
      malformed token stops the loop. */
  method CollectExcluded(tokens: seq<string>) returns (r: Result<set<int>>)
    ensures r == if ParseRanges(tokens).Ok? then Ok(Excluded(ParseRanges(tokens).value))
                 else Err(ParseRanges(tokens).error)
  {
    var exclude: set<int> := {};
    ghost var ranges: seq<PageRange> := [];
    for k := 0 to |tokens|
      invariant |ranges| == k
      invariant forall j :: 0 <= j < k ==> ParseRange(tokens[j]) == Ok(ranges[j])
      invariant exclude == Excluded(ranges)
    {
      var parsed := ParseRange(tokens[k]);
      if parsed.Err? {
        ParseEachFirstError(tokens, ParseRange, k);
        r := Err(parsed.error);
        return;
      }
      var range := parsed.value;
      exclude := exclude + Interval(range.start - 1, range.end);
      ghost var next := ranges + [range];
      assert next[..k] == ranges && next[k] == range;
      assert Excluded(next) == exclude;
      ranges := next;
    }
    ParseEachAll(tokens, ParseRange, ranges);
    r := Ok(exclude);
  }

  /** The page loop of delete_pages: every page whose index is not in
      `exclude`, in order. */
  method KeepPages(pages: seq<Page>, exclude: set<int>) returns (writer: seq<Page>)
    ensures writer == Kept(pages, exclude, |pages|)
  {
    writer := [];
    for pageNum := 0 to |pages|
      invariant writer == Kept(pages, exclude, pageNum)
    {
      if pageNum !in exclude {
        writer := writer + [pages[pageNum]];
      }
    }
  }

  /** split_pdf: max(num_parts, 0) parts, each written from its own writer
      and named base_part<N>.pdf. */
  method SplitPdf(fs: FileSystem, input: string, pagesPerPart: int, base: string)
    returns (r: Result<seq<Part>>)
    ensures r == SplitResult(fs, input, pagesPerPart, base)
  {
    if input !in fs {
      r := Err(FileNotFound(input));
      return;
    }
    var pages := fs[input];
    var total := |pages|;
    if pagesPerPart == 0 {
      r := Err(ZeroPartSize);
      return;
    }
    var numParts := FloorDiv(total + pagesPerPart - 1, pagesPerPart);
    var parts: seq<Part> := [];
    var partNum := 0;
    while partNum < numParts
      invariant 0 <= partNum && (partNum <= numParts || partNum == 0)
      invariant parts == Parts(pages, pagesPerPart, base, partNum)
    {
      var writer := CopyPart(pages, partNum, pagesPerPart);
      parts := parts + [Part(PartName(base, partNum + 1), writer)];
      partNum := partNum + 1;
    }
    r := Ok(parts);
  }

  /** One part of split_pdf: a fresh writer that gets the pages
      range(part * k, min((part + 1) * k, total)), in order. */
  method CopyPart(pages: seq<Page>, part: nat, k: int) returns (writer: seq<Page>)
    ensures writer == PartPages(pages, part, k)
  {
    var startPage := part * k;
    var endPage := Min((part + 1) * k, |pages|);
    assert (part + 1) * k == startPage + k;
    writer := [];
    if startPage < endPage {
      if k > 0 {
        MulLeft(0, part, k);
      }
      for pageNum := startPage to endPage
        invariant writer == pages[startPage..pageNum]
      {
        writer := writer + [pages[pageNum]];
      }
    }
  }
}
