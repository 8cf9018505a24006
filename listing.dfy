/**
 * The listing step of `process_pdf_directory` (line 197): which directory
 * entries count as PDFs (`Path.suffix`), and Python's stable `sorted` by
 * modification time, newest first.
 */
module Listing {
  import opened Text

  /** `Path.suffix` of a name without '/': from the last '.', unless that dot is first or last. */
  function Suffix(name: string): (r: string)
    ensures r == [] || (r[0] == '.' && |r| < |name| && r == name[|name| - |r|..])
  {
    var i := RFind(name, '.');
    if 0 < i < |name| - 1 then name[i..] else ""
  }

  /** Line 197's name test `f.suffix.lower() == ".pdf"`. */
  predicate IsPdfName(name: string) {
    LowerAscii(Suffix(name)) == ".pdf"
  }

  /** A name passes the test exactly when it ends in ".pdf" in any case and something comes before that. */
  lemma IsPdfNameIff(name: string)
    ensures IsPdfName(name) <==> |name| >= 5 && EndsWith(LowerAscii(name), ".pdf")
  {
    if |name| >= 5 && EndsWith(LowerAscii(name), ".pdf") {
      EndsPdfIsPdfName(name);
    }
    if IsPdfName(name) {
      PdfNameEndsPdf(name);
    }
  }

  lemma EndsPdfIsPdfName(name: string)
    requires |name| >= 5 && EndsWith(LowerAscii(name), ".pdf")
    ensures IsPdfName(name)
  {
    var low := LowerAscii(name);
    var k := |name| - 4;
    assert low[k..] == ".pdf";
    assert name[k] == '.' by { assert low[k] == Lower(name[k]) == '.'; }
    assert forall j :: k < j < |name| ==> name[j] != '.' by {
      forall j | k < j < |name| ensures name[j] != '.' {
        assert low[j] == Lower(name[j]) == low[k..][j - k];
      }
    }
    assert RFind(name, '.') == k;
    assert LowerAscii(name[k..]) == low[k..];
  }

  lemma PdfNameEndsPdf(name: string)
    requires IsPdfName(name)
    ensures |name| >= 5 && EndsWith(LowerAscii(name), ".pdf")
  {
    var suf := Suffix(name);
    assert |suf| == 4;
    assert LowerAscii(name)[|name| - 4..] == LowerAscii(suf);
  }

  /** A temporary file `dest + ".tmp"` is never taken for a PDF. */
  lemma TempNotPdf(dest: string)
    ensures !IsPdfName(dest + ".tmp")
  {
    var t := dest + ".tmp";
    IsPdfNameIff(t);
    assert LowerAscii(t)[|t| - 1] == 'p' by { assert t[|t| - 1] == 'p'; }
  }

  /** A listed entry: its name and its `st_mtime`. */
  datatype Listed = Listed(name: string, mtime: int)

  /** Newest first. */
  predicate SortedDesc(s: seq<Listed>) {
    forall i, j :: 0 <= i < j < |s| ==> s[i].mtime >= s[j].mtime
  }

  /** Put `x` before the first entry no newer than it, so it precedes the entries it ties with. */
  function Insert(x: Listed, t: seq<Listed>): (r: seq<Listed>)
    ensures multiset(r) == multiset(t) + multiset{x}
    ensures |r| == |t| + 1
  {
    if t == [] || t[0].mtime <= x.mtime then [x] + t
    else
      assert t == [t[0]] + t[1..];
      [t[0]] + Insert(x, t[1..])
  }

  /**
   * `sorted(..., key=mtime, reverse=True)`: Python's sort is stable, and
   * `reverse=True` keeps equal keys in their original order, so the model
   * inserts each entry ahead of the later entries it ties with.
   */
  function SortByMtime(s: seq<Listed>): (r: seq<Listed>)
    ensures multiset(r) == multiset(s)
    ensures |r| == |s|
  {
    if s == [] then []
    else
      assert s == [s[0]] + s[1..];
      Insert(s[0], SortByMtime(s[1..]))
  }

  lemma {:induction false} InsertSorted(x: Listed, t: seq<Listed>)
    requires SortedDesc(t)
    ensures SortedDesc(Insert(x, t))
    decreases |t|
  {
    if t != [] && t[0].mtime > x.mtime {
      var u := t[1..];
      InsertSorted(x, u);
      var r := Insert(x, u);
      assert r[0] == x || r[0] == u[0];
      assert t[0].mtime >= r[0].mtime;
      forall k | 0 <= k < |r| ensures t[0].mtime >= r[k].mtime {
        assert r[0].mtime >= r[k].mtime || k == 0;
      }
    }
  }

  /** The order is newest first. */
  lemma {:induction false} SortSorted(s: seq<Listed>)
    ensures SortedDesc(SortByMtime(s))
  {
    if s != [] {
      SortSorted(s[1..]);
      InsertSorted(s[0], SortByMtime(s[1..]));
    }
  }

  /** The entries of `s` with modification time `m`, in order. */
  function Ties(s: seq<Listed>, m: int): seq<Listed> {
    if s == [] then []
    else (if s[0].mtime == m then [s[0]] else []) + Ties(s[1..], m)
  }

  lemma {:induction false} InsertTies(x: Listed, t: seq<Listed>, m: int)
    ensures Ties(Insert(x, t), m) == (if x.mtime == m then [x] else []) + Ties(t, m)
    decreases |t|
  {
    if t == [] || t[0].mtime <= x.mtime {
      assert ([x] + t)[1..] == t;
    } else {
      InsertTies(x, t[1..], m);
      assert ([t[0]] + Insert(x, t[1..]))[1..] == Insert(x, t[1..]);
      if x.mtime == m {
        assert t[0].mtime != m;
      }
    }
  }

  /** Stability: the entries sharing any one modification time keep their listing order. */
  lemma {:induction false} SortStable(s: seq<Listed>, m: int)
    ensures Ties(SortByMtime(s), m) == Ties(s, m)
  {
    if s != [] {
      SortStable(s[1..], m);
      InsertTies(s[0], SortByMtime(s[1..]), m);
    }
  }
}
