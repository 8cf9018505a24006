/**
 * The document side of `pdf_renamer.py`: what the PDF library yields for a
 * file, the page-text join of `extract_first_n_pages_text`, and the
 * metadata dictionary `update_and_save_pdf_metadata` writes.
 */
module PdfDocs {
  import opened Wrappers
  import opened Text

  /** What `page.extract_text()` gives for one page: some text (possibly empty), None, or an exception. */
  datatype PageText = Extracted(s: string) | NoText | Fault

  /** A file as `PdfReader` sees it: unreadable (the constructor raises), or its pages. */
  datatype Document = Unreadable | Pages(pages: seq<PageText>)

  /** The contents of a file: the document and the metadata dictionary stored with it. */
  datatype Content = Content(doc: Document, meta: map<string, string>)

  /** Line 44, `min(len(reader.pages), n)`; a negative `n` reads nothing, as `range` does. */
  function PagesRead(pages: seq<PageText>, n: int): (k: nat)
    ensures k <= |pages|
    ensures n <= 0 ==> k == 0
    ensures n >= |pages| ==> k == |pages|
    ensures 0 <= n <= |pages| ==> k == n
  {
    if n <= 0 then 0 else if n < |pages| then n else |pages|
  }

  /**
   * Lines 46-49 over the given pages, in order: each non-empty text is kept
   * stripped, None and "" are dropped; a page whose extraction raises makes
   * the whole extraction fail.
   */
  function Kept(pages: seq<PageText>): Option<seq<string>>
  {
    if pages == [] then Some([])
    else match Kept(pages[..|pages| - 1])
      case None => None
      case Some(t) =>
        match pages[|pages| - 1]
        case Fault => None
        case NoText => Some(t)
        case Extracted(s) => if s != "" then Some(t + [Strip(s)]) else Some(t)
  }

  /** Lines 40-53: None for an unreadable file, no pages, a raising page or no kept text; else the kept texts joined by a blank line. */
  function PagesText(doc: Document, n: int): Option<string> {
    match doc
    case Unreadable => None
    case Pages(ps) =>
      if ps == [] then None
      else match Kept(ps[..PagesRead(ps, n)])
        case None => None
        case Some(texts) => if texts == [] then None else Some(Join(texts, "\n\n"))
  }

  /** `extract_first_n_pages_text`: the loop of lines 44-50, appending to `texts`. */
  method ExtractFirstNPagesText(doc: Document, n: int) returns (r: Option<string>)
    ensures r == PagesText(doc, n)
  {
    if doc.Unreadable? || doc.pages == [] {
      return None;
    }
    var pages := doc.pages;
    var numPages := PagesRead(pages, n);
    var texts: seq<string> := [];
    for i := 0 to numPages
      invariant Kept(pages[..i]) == Some(texts)
    {
      assert pages[..i + 1][..i] == pages[..i];
      match pages[i]
      case Fault =>
        KeptFault(pages[..i + 1], pages[..numPages]);
        return None;
      case NoText =>
      case Extracted(s) =>
        if s != "" {
          texts := texts + [Strip(s)];
        }
    }
    assert pages[..numPages] == pages[..numPages];
    if texts == [] {
      return None;
    }
    return Some(Join(texts, "\n\n"));
  }

  /** Once a page raises, reading more pages still fails. */
  lemma {:induction false} KeptFault(ps: seq<PageText>, qs: seq<PageText>)
    requires ps != [] && ps[|ps| - 1] == Fault
    requires ps <= qs
    ensures Kept(qs) == None
    decreases |qs|
  {
    if |qs| > |ps| {
      KeptFault(ps, qs[..|qs| - 1]);
    } else {
      assert qs == ps;
    }
  }

  /** No page among `pages` raises. */
  predicate NoFault(pages: seq<PageText>) {
    forall i :: 0 <= i < |pages| ==> !pages[i].Fault?
  }

  /** Some page among `pages` has non-empty text. */
  predicate SomeText(pages: seq<PageText>) {
    exists i :: 0 <= i < |pages| && pages[i].Extracted? && pages[i].s != ""
  }

  /**
   * The kept texts: present exactly when no page raises, at most one per
   * page, each stripped, and empty exactly when no page has text.
   */
  lemma {:induction false} KeptSpec(pages: seq<PageText>)
    ensures Kept(pages).Some? <==> NoFault(pages)
    ensures Kept(pages).Some? ==> |Kept(pages).value| <= |pages|
    ensures Kept(pages).Some? ==> forall k :: 0 <= k < |Kept(pages).value| ==> Stripped(Kept(pages).value[k])
    ensures Kept(pages).Some? ==> (Kept(pages).value == [] <==> !SomeText(pages))
  {
    if pages != [] {
      var init := pages[..|pages| - 1];
      KeptSpec(init);
      assert forall i :: 0 <= i < |init| ==> init[i] == pages[i];
      match pages[|pages| - 1]
      case Fault =>
      case NoText =>
      case Extracted(s) =>
        if s != "" {
          StripResult(s);
        }
    }
  }

  /** The extraction fails exactly when the file is unreadable, has no pages, a page read raises, or no page read has text. */
  lemma PagesTextNone(doc: Document, n: int)
    ensures PagesText(doc, n) == None <==>
      || doc.Unreadable?
      || doc.pages == []
      || !NoFault(doc.pages[..PagesRead(doc.pages, n)])
      || !SomeText(doc.pages[..PagesRead(doc.pages, n)])
  {
    if doc.Pages? && doc.pages != [] {
      KeptSpec(doc.pages[..PagesRead(doc.pages, n)]);
    }
  }

  /** Only the first `n` pages are read: pages after them make no difference. */
  lemma PagesTextIgnoresLater(pages: seq<PageText>, rest: seq<PageText>, n: int)
    requires pages != [] && n <= |pages|
    ensures PagesText(Pages(pages + rest), n) == PagesText(Pages(pages), n)
  {
    var k := PagesRead(pages, n);
    assert PagesRead(pages + rest, n) == k;
    assert (pages + rest)[..k] == pages[..k];
  }

  /** Two pages with text and one without: the stripped texts separated by one blank line. */
  lemma TwoPagesJoined(a: string, b: string)
    requires Stripped(a) && Stripped(b) && a != "" && b != ""
    ensures PagesText(Pages([Extracted(a), NoText, Extracted(b)]), 5) == Some(a + "\n\n" + b)
  {
    var ps := [Extracted(a), NoText, Extracted(b)];
    StripStripped(a);
    StripStripped(b);
    var p1, p2 := ps[..1], ps[..2];
    assert p1[..0] == [] && p1[0] == Extracted(a);
    assert Kept(p1) == Some([] + [a]);
    assert [] + [a] == [a];
    assert p2[..1] == p1 && p2[1] == NoText;
    assert Kept(p2) == Some([a]);
    assert ps[..3] == ps && ps[..2] == p2;
    assert Kept(ps) == Some([a] + [b]);
    assert [a] + [b] == [a, b];
    assert [a, b][..1] == [a];
    assert Join([a, b], "\n\n") == a + "\n\n" + b;
  }

  /**
   * A page of blanks passes the non-empty test of line 48 and strips to "",
   * so two such pages give a bare blank line, which the job's emptiness test
   * does not catch.
   */
  lemma BlankPagesGiveSeparator()
    ensures PagesText(Pages([Extracted(" "), Extracted(" ")]), 5) == Some("\n\n")
  {
    var ps := [Extracted(" "), Extracted(" ")];
    assert Strip(" ") == "" by { assert StripLeft(" "[1..]) == ""; }
    assert Kept(ps) == Some(["", ""]) by {
      var p1 := ps[..1];
      assert p1[..0] == [] && p1[0] == Extracted(" ");
      assert Kept(p1) == Some([] + [Strip(" ")]);
      assert [] + [""] == [""];
      assert ps[..|ps| - 1] == p1;
      assert Kept(ps) == Some([""] + [Strip(" ")]);
      assert [""] + [""] == ["", ""];
    }
    assert PagesText(Pages(ps), 5) == Some(Join(["", ""], "\n\n")) by {
      assert PagesRead(ps, 5) == 2;
      assert ps[..2] == ps;
    }
    assert Join(["", ""], "\n\n") == "\n\n" by {
      assert ["", ""][..1] == [""];
      assert "" + "\n\n" + "" == "\n\n";
    }
  }

  /** `f"D:{year_candidate}0101000000Z"`, line 123. */
  function CreationDate(year: string): (r: string)
    ensures |r| == |year| + 13
  {
    "D:" + year + "0101000000Z"
  }

  /** The year is recoverable from the date string: it sits between the "D:" prefix and the fixed suffix. */
  lemma CreationDateYear(year: string)
    ensures StartsWith(CreationDate(year), "D:") && EndsWith(CreationDate(year), "0101000000Z")
    ensures CreationDate(year)[2..|year| + 2] == year
  {
    var r := CreationDate(year);
    assert r[..2] == "D:";
    assert r[|r| - 11..] == "0101000000Z";
  }

  /** Lines 120-124: the dictionary passed to `add_metadata`. */
  function Metadata(author: string, title: string, year: string): map<string, string> {
    map["/Author" := author, "/Title" := title, "/CreationDate" := CreationDate(year)]
  }

  /** The written metadata has exactly the three keys, each with its value. */
  lemma MetadataFields(author: string, title: string, year: string)
    ensures Metadata(author, title, year).Keys == {"/Author", "/Title", "/CreationDate"}
    ensures Metadata(author, title, year)["/Author"] == author
    ensures Metadata(author, title, year)["/Title"] == title
    ensures Metadata(author, title, year)["/CreationDate"][2..|year| + 2] == year
  {
    CreationDateYear(year);
  }

  /** Lines 115-128: what the temporary file receives, the source's pages with the new metadata; None when the source is unreadable. */
  function Rewritten(src: Document, author: string, title: string, year: string): (c: Option<Content>)
    ensures c.Some? <==> src.Pages?
    ensures c.Some? ==> c.value.doc == src && c.value.meta.Keys == {"/Author", "/Title", "/CreationDate"}
  {
    MetadataFields(author, title, year);
    if src.Unreadable? then None else Some(Content(src, Metadata(author, title, year)))
  }

  /** Rewriting a rewritten document with the same metadata gives the same contents again. */
  lemma RewrittenStable(src: Document, author: string, title: string, year: string)
    requires Rewritten(src, author, title, year).Some?
    ensures Rewritten(Rewritten(src, author, title, year).value.doc, author, title, year) == Rewritten(src, author, title, year)
  {
  }
}
