/**
 * The filesystem side of `pdf_renamer.py`: the metadata write with its
 * temporary file (`update_and_save_pdf_metadata`), the per-file job
 * (`process_single_pdf`) and the batch driver (`process_pdf_directory`),
 * over one directory whose entries a `Directory` object holds.
 */
module Renamer {
  import opened Wrappers
  import opened Text
  import opened FilenamePolicy
  import opened ResponseParser
  import opened LlmProvider
  import opened PdfDocs
  import opened Listing

  /** A directory entry: a regular file with its contents and modification time, or anything else (`is_file()` is false). */
  datatype Entry = File(content: Content, mtime: int) | Other

  /** How one call of the write step fares once the source has been read: the `open`, the `write` or the `replace` can raise. */
  datatype WriteFault = Succeeds | OpenFails | WriteFails | ReplaceFails

  /** Line 126: the temporary file next to the destination. */
  function TempName(dest: string): (t: string)
    ensures t != dest && |t| == |dest| + 4
  {
    dest + ".tmp"
  }

  /** What `PdfReader` makes of a name: the document of a regular file, otherwise an error. */
  function DocAt(entries: map<string, Entry>, name: string): Document {
    if name in entries && entries[name].File? then entries[name].content.doc else Unreadable
  }

  /**
   * Lines 114-133 on the entries: on success the destination holds the
   * source's pages with the new metadata and the temporary file is gone; on
   * any failure the result is false, the destination is untouched, and the
   * temporary file may remain, empty-handed after a failed write or complete
   * after a failed replace.
   */
  function AfterWrite(entries: map<string, Entry>, src: string, dest: string, author: string, title: string, year: string,
                      fault: WriteFault, stamp: int): (r: (bool, map<string, Entry>))
    ensures r.0 <==> fault == Succeeds && Rewritten(DocAt(entries, src), author, title, year).Some?
    ensures r.0 ==> dest in r.1 && r.1[dest] == File(Rewritten(DocAt(entries, src), author, title, year).value, stamp)
    ensures r.0 ==> TempName(dest) !in r.1
    ensures !r.0 ==> (dest in r.1 <==> dest in entries) && (dest in entries ==> r.1[dest] == entries[dest])
    ensures forall n :: n != dest && n != TempName(dest) ==> (n in r.1 <==> n in entries)
    ensures forall n :: n in entries && n != dest && n != TempName(dest) ==> r.1[n] == entries[n]
  {
    match Rewritten(DocAt(entries, src), author, title, year)
    case None => (false, entries)
    case Some(c) =>
      var tmp := TempName(dest);
      match fault
      case OpenFails => (false, entries)
      case WriteFails => (false, entries[tmp := File(Content(Unreadable, map[]), stamp)])
      case ReplaceFails => (false, entries[tmp := File(c, stamp)])
      case Succeeds => (true, (entries - {tmp})[dest := File(c, stamp)])
  }

  /** The job's outcome: the path it returns, or the `KeyError` of line 151, which nothing catches. */
  datatype JobResult = Done(path: string) | KeyErrorAbort(key: string)

  /** A field spelled into an f-string: a string as itself, any other value as Python's `str()` shows it. */
  function Shown(f: Field): string {
    match f
    case Str(s) => s
    case NonStr(shown) => shown
  }

  /** Lines 143-150 as a specification: the accepted dictionary for the file, or None when the job skips it. */
  function Guess(entries: map<string, Entry>, pdf: string, llm: Llm, prompt: string, nPages: int): Option<Record> {
    match PagesText(DocAt(entries, pdf), nPages)
    case None => None
    case Some(text) => if text == "" then None else ExtractMetadata(llm, prompt, text)
  }

  /** The three keys line 151 reads. */
  predicate HasKeys(d: Record) {
    "author" in d && "title" in d && "pubdate" in d
  }

  /** Lines 151-152: the sanitized `"{author} - {title} ({pubdate})"`. */
  function NameFor(d: Record): string
    requires HasKeys(d)
  {
    SanitizeFilename(Shown(d["author"]) + " - " + Shown(d["title"]) + " (" + Shown(d["pubdate"]) + ")", 200)
  }

  /** Line 155: the pages of `doc` with the sanitized author and title and the publication date as metadata. */
  function Renamed(doc: Document, d: Record): Content
    requires HasKeys(d)
  {
    Content(doc, Metadata(SanitizeFilename(Shown(d["author"]), 200), SanitizeFilename(Shown(d["title"]), 200), Shown(d["pubdate"])))
  }

  /** Every entry except those named in `except` is the same before and after. */
  ghost predicate SameExcept(before: map<string, Entry>, after: map<string, Entry>, except: set<string>) {
    forall n :: n !in except ==> (n in after <==> n in before) && (n in before ==> after[n] == before[n])
  }

  /**
   * One run of the job on `pdf`, lines 143-163, when `g` is what lines
   * 143-150 made of the file: the directory goes from `before` to `after`,
   * the count of write calls from `w` to `w2`, and the job returns `r`;
   * `dest` is the destination line 153 chose when the job gets that far.
   */
  ghost predicate JobStep(faultAt: nat -> WriteFault, before: map<string, Entry>, w: nat, after: map<string, Entry>, w2: nat,
                          pdf: string, g: Option<Record>, r: JobResult, dest: string)
  {
    // no text or no accepted guess: the file is skipped and nothing is written
    && (g.None? ==> r == Done(pdf) && after == before && w2 == w)
    // line 151 raises exactly when a key is missing, before anything is written
    && (r.KeyErrorAbort? <==> g.Some? && !HasKeys(g.value))
    && (r.KeyErrorAbort? ==> after == before && w2 == w)
    // otherwise the first free name is chosen, and the file moves there exactly when the first write succeeds
    && (g.Some? && HasKeys(g.value) ==>
          && r.Done?
          && dest !in before
          && IsFirstFree(before.Keys, BaseName(NameFor(g.value)), dest)
          && (r.path != pdf <==> faultAt(w) == Succeeds)
          && w2 == (if r.path != pdf then w + 2 else w + 1))
    && (r.Done? && r.path != pdf ==>
          && r.path == dest
          && (pdf !in after || pdf == TempName(dest))
          && dest in after && after[dest].File? && after[dest].content == Renamed(DocAt(before, pdf), g.value)
          && SameExcept(before, after, {pdf, dest, TempName(dest)}))
    && (r == Done(pdf) && g.Some? ==> pdf in after && SameExcept(before, after, {TempName(dest)}))
  }

  /** `Guess` for one provider, prompt and page count, as a function of the directory and the file. */
  function GuessOf(llm: Llm, prompt: string, nPages: int): (map<string, Entry>, string) -> Option<Record> {
    (entries: map<string, Entry>, pdf: string) => Guess(entries, pdf, llm, prompt, nPages)
  }

  /** One job of a pass: its result, the destination it chose, and the directory and write count it left. */
  datatype Step = Step(result: JobResult, dest: string, after: map<string, Entry>, writes: nat)

  /** The directory before the i-th job of a pass that started from `start`. */
  function StateAt(start: map<string, Entry>, steps: seq<Step>, i: nat): map<string, Entry>
    requires i <= |steps|
  {
    if i == 0 then start else steps[i - 1].after
  }

  /** The count of write calls before the i-th job of a pass that started at `w`. */
  function WritesAt(w: nat, steps: seq<Step>, i: nat): nat
    requires i <= |steps|
  {
    if i == 0 then w else steps[i - 1].writes
  }

  /**
   * The jobs of a pass ran on the queue in order: the i-th on the i-th
   * queued file, from the directory the one before it left, with what
   * `guess` makes of that file there.
   */
  ghost predicate Ran(faultAt: nat -> WriteFault, guess: (map<string, Entry>, string) -> Option<Record>,
                      start: map<string, Entry>, w: nat, queue: seq<Listed>, steps: seq<Step>)
    decreases |steps|
  {
    && |steps| <= |queue|
    && (steps != [] ==>
         var i := |steps| - 1;
         && Ran(faultAt, guess, start, w, queue, steps[..i])
         && JobStep(faultAt, StateAt(start, steps, i), WritesAt(w, steps, i), steps[i].after, steps[i].writes,
                    queue[i].name, guess(StateAt(start, steps, i), queue[i].name), steps[i].result, steps[i].dest))
  }

  /** The pass was cut short: its last job raised the `KeyError`. */
  predicate Aborted(steps: seq<Step>) {
    steps != [] && steps[|steps| - 1].result.KeyErrorAbort?
  }

  /**
   * A pass from `start`, with `w` write calls made before it, over `queue`:
   * its jobs ran in order and all but the last returned a path, it was cut
   * short exactly when the last one raised, and it left the directory
   * `after` with `w2` write calls made.
   */
  ghost predicate Pass(faultAt: nat -> WriteFault, guess: (map<string, Entry>, string) -> Option<Record>,
                       start: map<string, Entry>, w: nat, queue: seq<Listed>, steps: seq<Step>,
                       aborted: bool, after: map<string, Entry>, w2: nat)
  {
    && Ran(faultAt, guess, start, w, queue, steps)
    && (forall i :: 0 <= i < |steps| - 1 ==> steps[i].result.Done?)
    && aborted == Aborted(steps)
    && after == StateAt(start, steps, |steps|) && w2 == WritesAt(w, steps, |steps|)
  }

  /** Appending a step leaves the earlier steps and the state before the new one as they were. */
  lemma StepAppended(start: map<string, Entry>, w: nat, steps: seq<Step>, s: Step)
    ensures (steps + [s])[..|steps|] == steps && (steps + [s])[|steps|] == s
    ensures forall i :: 0 <= i < |steps| ==> (steps + [s])[i] == steps[i]
    ensures StateAt(start, steps + [s], |steps|) == StateAt(start, steps, |steps|)
    ensures WritesAt(w, steps + [s], |steps|) == WritesAt(w, steps, |steps|)
    ensures StateAt(start, steps + [s], |steps| + 1) == s.after && WritesAt(w, steps + [s], |steps| + 1) == s.writes
  {
    assert (steps + [s])[..|steps|] == steps;
  }

  /** One more job, run where a pass that has not been cut short stands, extends it. */
  lemma PassExtend(faultAt: nat -> WriteFault, guess: (map<string, Entry>, string) -> Option<Record>,
                   start: map<string, Entry>, w: nat, queue: seq<Listed>, steps: seq<Step>,
                   before: map<string, Entry>, wb: nat, s: Step)
    requires Pass(faultAt, guess, start, w, queue, steps, false, before, wb) && |steps| < |queue|
    requires JobStep(faultAt, before, wb, s.after, s.writes, queue[|steps|].name, guess(before, queue[|steps|].name), s.result, s.dest)
    ensures Pass(faultAt, guess, start, w, queue, steps + [s], s.result.KeyErrorAbort?, s.after, s.writes)
  {
    StepAppended(start, w, steps, s);
  }

  /**
   * The directory the pipeline works in. Writes are the only thing that can
   * fail; `faultAt(i)` says how the i-th write call fares, and each call
   * stamps its file with the clock, which then advances.
   */
  class Directory {
    var entries: map<string, Entry>
    var clock: int
    var writes: nat
    const faultAt: nat -> WriteFault

    constructor(entries0: map<string, Entry>, clock0: int, faultAt0: nat -> WriteFault)
      ensures entries == entries0 && clock == clock0 && writes == 0 && faultAt == faultAt0
    {
      entries := entries0;
      clock := clock0;
      writes := 0;
      faultAt := faultAt0;
    }

    /** `update_and_save_pdf_metadata(src, dest, author, title, year)`, lines 107-133. */
    method UpdateAndSavePdfMetadata(src: string, dest: string, author: string, title: string, year: string) returns (ok: bool)
      modifies this
      ensures (ok, entries) == AfterWrite(old(entries), src, dest, author, title, year, faultAt(old(writes)), old(clock))
      ensures writes == old(writes) + 1 && clock == old(clock) + 1
    {
      var fault := faultAt(writes);
      var stamp := clock;
      writes := writes + 1;
      clock := clock + 1;
      var doc := DocAt(entries, src);
      if doc.Unreadable? {
        return false;
      }
      var content := Content(doc, Metadata(author, title, year));
      var tmp := dest + ".tmp";
      if fault == OpenFails {
        return false;
      }
      if fault == WriteFails {
        entries := entries[tmp := File(Content(Unreadable, map[]), stamp)];
        return false;
      }
      if fault == ReplaceFails {
        entries := entries[tmp := File(content, stamp)];
        return false;
      }
      // the temporary file, once written, is renamed onto the destination
      entries := (entries - {tmp})[dest := File(content, stamp)];
      return true;
    }

    /**
     * `process_single_pdf(pdf, llm, prompt, nPages)`, lines 143-163. `dest`
     * is the destination line 153 chose, when the job gets that far.
     */
    method ProcessSinglePdf(pdf: string, llm: Llm, prompt: string, nPages: int) returns (r: JobResult, ghost dest: string)
      modifies this
      ensures JobStep(faultAt, old(entries), old(writes), entries, writes, pdf, Guess(old(entries), pdf, llm, prompt, nPages), r, dest)
    {
      dest := pdf;
      var extracted := ExtractFirstNPagesText(DocAt(entries, pdf), nPages);
      if extracted.None? || extracted.value == "" {
        return Done(pdf), dest;
      }
      var guessed := ExtractMetadata(llm, prompt, extracted.value);
      if guessed.None? {
        return Done(pdf), dest;
      }
      var d := guessed.value;
      if "author" !in d {
        return KeyErrorAbort("author"), dest;
      }
      if "title" !in d {
        return KeyErrorAbort("title"), dest;
      }
      if "pubdate" !in d {
        return KeyErrorAbort("pubdate"), dest;
      }
      assert DocAt(entries, pdf).Pages?;
      r, dest := RenameByGuess(pdf, d);
    }

    /**
     * Lines 151-163 once the dictionary `d` has all three keys: build and
     * sanitize the name, choose the first free destination and move the
     * file there with the new metadata.
     */
    method RenameByGuess(pdf: string, d: Record) returns (r: JobResult, ghost dest: string)
      requires HasKeys(d) && DocAt(entries, pdf).Pages?
      modifies this
      ensures JobStep(faultAt, old(entries), old(writes), entries, writes, pdf, Some(d), r, dest)
    {
      var candidateName := Shown(d["author"]) + " - " + Shown(d["title"]) + " (" + Shown(d["pubdate"]) + ")";
      var cleanFile := SanitizeFilename(candidateName, 200);
      var newPath;
      ghost var k;
      newPath, k := MakeDestinationPath(entries.Keys, cleanFile);
      dest := newPath;
      var author, title, year := SanitizeFilename(Shown(d["author"]), 200), SanitizeFilename(Shown(d["title"]), 200), Shown(d["pubdate"]);
      assert IsFirstFree(entries.Keys, BaseName(cleanFile), newPath) by {
        assert FirstFreeAt(entries.Keys, BaseName(cleanFile), k);
      }
      assert pdf in entries;
      var ok := MoveWithMetadata(pdf, newPath, author, title, year);
      if ok {
        return Done(newPath), dest;
      } else {
        return Done(pdf), dest;
      }
    }

    /**
     * Lines 155-158: write `dest` from `pdf` with the new metadata; on
     * success remove the original and write `dest` once more from itself,
     * ignoring how that second write fares. The caller has chosen a `dest`
     * other than `pdf`.
     */
    method MoveWithMetadata(pdf: string, dest: string, author: string, title: string, year: string) returns (ok: bool)
      requires dest != pdf
      modifies this
      ensures ok <==> faultAt(old(writes)) == Succeeds && Rewritten(DocAt(old(entries), pdf), author, title, year).Some?
      ensures writes == old(writes) + (if ok then 2 else 1)
      ensures ok ==> dest in entries && entries[dest].File?
      ensures ok ==> entries[dest].content == Rewritten(DocAt(old(entries), pdf), author, title, year).value
      ensures ok ==> (pdf !in entries || pdf == TempName(dest))
      ensures ok ==> SameExcept(old(entries), entries, {pdf, dest, TempName(dest)})
      ensures !ok ==> old(entries).Keys <= entries.Keys && SameExcept(old(entries), entries, {TempName(dest)})
    {
      ghost var before := entries;
      ok := UpdateAndSavePdfMetadata(pdf, dest, author, title, year);
      if ok {
        entries := entries - {pdf};
        ghost var c := Rewritten(DocAt(before, pdf), author, title, year).value;
        assert DocAt(entries, dest) == c.doc;
        RewrittenStable(DocAt(before, pdf), author, title, year);
        var _ := UpdateAndSavePdfMetadata(dest, dest, author, title, year);
      }
    }

    /** `directory.iterdir()`: every name once, in an order the model leaves open. */
    method ListNames() returns (names: seq<string>)
      ensures ListsEachOnce(entries, names)
    {
      var rest := entries.Keys;
      names := [];
      while rest != {}
        invariant forall n :: n in names || n in rest <==> n in entries
        invariant forall n :: n in names ==> n !in rest
        invariant forall i, j :: 0 <= i < j < |names| ==> names[i] != names[j]
        decreases |rest|
      {
        var x :| x in rest;
        names := names + [x];
        rest := rest - {x};
      }
    }

    /**
     * One pass of lines 197-199 (or 207-209): list, keep the regular files
     * with a ".pdf" suffix, sort newest first, and run the job on each in
     * turn. A `KeyError` ends the pass, and the batch with it.
     */
    method RunPass(llm: Llm, prompt: string, nPages: int)
      returns (names: seq<string>, queue: seq<Listed>, done: nat, aborted: bool, ghost steps: seq<Step>)
      modifies this
      ensures ListsEachOnce(old(entries), names)
      ensures queue == PdfQueue(old(entries), names)
      ensures Pass(faultAt, GuessOf(llm, prompt, nPages), old(entries), old(writes), queue, steps, aborted, entries, writes)
      ensures !aborted ==> |steps| == |queue|
      ensures done == (if aborted then |steps| - 1 else |steps|)
    {
      names := ListNames();
      queue := PdfQueue(entries, names);
      aborted := false;
      done := 0;
      steps := [];
      while done < |queue|
        invariant done == |steps| <= |queue|
        invariant Pass(faultAt, GuessOf(llm, prompt, nPages), old(entries), old(writes), queue, steps, false, entries, writes)
      {
        ghost var before, wb := entries, writes;
        var r;
        ghost var dest;
        r, dest := ProcessSinglePdf(queue[done].name, llm, prompt, nPages);
        ghost var s := Step(r, dest, entries, writes);
        assert GuessOf(llm, prompt, nPages)(before, queue[done].name) == Guess(before, queue[done].name, llm, prompt, nPages);
        PassExtend(faultAt, GuessOf(llm, prompt, nPages), old(entries), old(writes), queue, steps, before, wb, s);
        steps := steps + [s];
        if r.KeyErrorAbort? {
          aborted := true;
          return;
        }
        done := done + 1;
      }
    }

    /**
     * `process_pdf_directory(directory, llm, prompt, n_pages)`, lines
     * 197-210: the function has no `return`, so after the first pass it
     * lists the directory again and runs every job a second time with the
     * default of five pages. `steps1` and `steps2` are the jobs of the two
     * passes and `middle` is the directory between them.
     */
    method ProcessPdfDirectory(llm: Llm, prompt: string, nPages: int)
      returns (first: seq<Listed>, second: seq<Listed>, aborted: bool,
               ghost steps1: seq<Step>, ghost middle: map<string, Entry>, ghost middleWrites: nat, ghost steps2: seq<Step>)
      modifies this
      ensures exists names :: ListsEachOnce(old(entries), names) && first == PdfQueue(old(entries), names)
      ensures Pass(faultAt, GuessOf(llm, prompt, nPages), old(entries), old(writes), first, steps1, Aborted(steps1), middle, middleWrites)
      ensures Aborted(steps1) ==> aborted && second == [] && steps2 == [] && entries == middle && writes == middleWrites
      ensures !Aborted(steps1) ==> |steps1| == |first|
      ensures !Aborted(steps1) ==> exists names :: ListsEachOnce(middle, names) && second == PdfQueue(middle, names)
      ensures !Aborted(steps1) ==> Pass(faultAt, GuessOf(llm, prompt, 5), middle, middleWrites, second, steps2, aborted, entries, writes)
      ensures !aborted ==> |steps2| == |second|
    {
      var names1, done1, names2, done2, aborted1;
      names1, first, done1, aborted1, steps1 := RunPass(llm, prompt, nPages);
      middle, middleWrites := entries, writes;
      second, steps2, aborted := [], [], aborted1;
      if aborted {
        return;
      }
      names2, second, done2, aborted, steps2 := RunPass(llm, prompt, 5);
    }
  }

  /** `names` is a listing of the directory: every entry, each exactly once. */
  ghost predicate ListsEachOnce(entries: map<string, Entry>, names: seq<string>) {
    && (forall n :: n in names <==> n in entries)
    && (forall i, j :: 0 <= i < j < |names| ==> names[i] != names[j])
  }

  /** Line 197's filter over the listing, in listing order. */
  function PdfListing(entries: map<string, Entry>, names: seq<string>): (r: seq<Listed>)
    ensures |r| <= |names|
  {
    if names == [] then []
    else
      var n := names[|names| - 1];
      PdfListing(entries, names[..|names| - 1])
        + (if IsPdfName(n) && n in entries && entries[n].File? then [Listed(n, entries[n].mtime)] else [])
  }

  /** Line 197: the filtered listing sorted by modification time, newest first. */
  function PdfQueue(entries: map<string, Entry>, names: seq<string>): seq<Listed> {
    SortByMtime(PdfListing(entries, names))
  }

  /** Regular files with a ".pdf" suffix, listed with their modification time. */
  predicate IsPdfFile(entries: map<string, Entry>, x: Listed) {
    IsPdfName(x.name) && x.name in entries && entries[x.name].File? && entries[x.name].mtime == x.mtime
  }

  /** The filter keeps exactly the listed regular files whose suffix is ".pdf", each once. */
  lemma {:induction false} PdfListingSpec(entries: map<string, Entry>, names: seq<string>)
    requires forall i, j :: 0 <= i < j < |names| ==> names[i] != names[j]
    ensures forall x :: x in PdfListing(entries, names) <==> IsPdfFile(entries, x) && x.name in names
    ensures forall x :: multiset(PdfListing(entries, names))[x] <= 1
  {
    if names != [] {
      var init := names[..|names| - 1];
      var n := names[|names| - 1];
      PdfListingSpec(entries, init);
      assert forall m :: m in names <==> m in init || m == n;
      assert n !in init;
    }
  }

  /**
   * The queue of a pass: every regular ".pdf" file in the directory exactly
   * once, newest first, and files with equal modification times in
   * listing order.
   */
  lemma PdfQueueSpec(entries: map<string, Entry>, names: seq<string>)
    requires ListsEachOnce(entries, names)
    ensures forall x :: x in PdfQueue(entries, names) <==> IsPdfFile(entries, x)
    ensures forall x :: multiset(PdfQueue(entries, names))[x] <= 1
    ensures SortedDesc(PdfQueue(entries, names))
    ensures forall m :: Ties(PdfQueue(entries, names), m) == Ties(PdfListing(entries, names), m)
  {
    PdfListingSpec(entries, names);
    var l := PdfListing(entries, names);
    assert forall x :: x in PdfQueue(entries, names) <==> x in multiset(l);
    SortSorted(l);
    forall m | true ensures Ties(PdfQueue(entries, names), m) == Ties(l, m) {
      SortStable(l, m);
    }
  }

  /** The proposed name is never empty and holds no '.' or '/': the " - " between author and title survives sanitizing. */
  lemma NameForClean(d: Record)
    requires HasKeys(d)
    ensures NameFor(d) != [] && '.' !in NameFor(d) && '/' !in NameFor(d)
  {
    var raw := Shown(d["author"]) + " - " + Shown(d["title"]) + " (" + Shown(d["pubdate"]) + ")";
    assert raw[|Shown(d["author"])| + 1] == '-';
    SanitizeKeepsVisible(raw, '-', 200);
    SanitizedHasNoDot(raw, 200);
  }

  /**
   * A renamed file is queued again: the destination of a job ends in ".pdf",
   * so the second pass lists it and, when the model proposes the same name,
   * the name is taken by the file itself and the counter moves on.
   */
  lemma DestinationIsPdf(d: Record, existing: set<string>, dest: string)
    requires HasKeys(d) && IsFirstFree(existing, BaseName(NameFor(d)), dest)
    ensures IsPdfName(dest)
    ensures NameFor(d) + ".pdf" in existing ==> dest != NameFor(d) + ".pdf"
  {
    var clean := NameFor(d);
    NameForClean(d);
    var k: nat :| FirstFreeAt(existing, BaseName(clean), k) && dest == Candidate(BaseName(clean), k);
    CleanDestinationEndsInPdf(clean, k);
    CandidatesOfCleanName(clean, k);
    LowerKeepsPdf(dest);
    IsPdfNameIff(dest);
  }

  /** When a file holds a clean proposed name and its "_1" name is free, the first free name is the "_1" name. */
  lemma SelfCollision(clean: string, existing: set<string>, dest: string)
    requires clean != [] && '.' !in clean && '/' !in clean
    requires clean + ".pdf" in existing && clean + "_1.pdf" !in existing
    requires IsFirstFree(existing, BaseName(clean), dest)
    ensures dest == clean + "_1.pdf"
  {
    var base := BaseName(clean);
    CandidatesOfCleanName(clean, 0);
    CandidatesOfCleanName(clean, 1);
    assert Candidate(base, 1) == clean + "_1.pdf" by {
      assert NatToString(1) == "1";
      assert clean + "_" + "1" + ".pdf" == clean + "_1.pdf";
    }
    var k: nat :| FirstFreeAt(existing, base, k) && dest == Candidate(base, k);
    assert k == 1;
  }

  /**
   * The collision of the second pass: a file the first pass renamed to
   * the proposed name, given the same dictionary again, finds that name
   * taken by itself, and a successful job moves it on to the "_1" name.
   */
  lemma RenamedFileMovesOn(faultAt: nat -> WriteFault, before: map<string, Entry>, w: nat, after: map<string, Entry>, w2: nat,
                           d: Record, r: JobResult, dest: string)
    requires HasKeys(d) && NameFor(d) + ".pdf" in before && NameFor(d) + "_1.pdf" !in before
    requires JobStep(faultAt, before, w, after, w2, NameFor(d) + ".pdf", Some(d), r, dest)
    requires faultAt(w) == Succeeds
    ensures r == Done(NameFor(d) + "_1.pdf")
    ensures NameFor(d) + ".pdf" !in after && NameFor(d) + "_1.pdf" in after
  {
    NameForClean(d);
    SelfCollision(NameFor(d), before.Keys, dest);
    assert |TempName(dest)| != |NameFor(d) + ".pdf"|;
  }

  lemma LowerKeepsPdf(s: string)
    requires EndsWith(s, ".pdf")
    ensures EndsWith(LowerAscii(s), ".pdf")
  {
    assert LowerAscii(s)[|s| - 4..] == LowerAscii(s[|s| - 4..]);
  }
}
