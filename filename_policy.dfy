/**
 * The filename policy of pdf_renamer.py: `sanitize_filename` (a pure
 * three-step string transform) and `make_destination_path` (a search loop
 * against the directory's "does this name exist" oracle, modelled as the
 * finite set of names present).
 */
module FilenamePolicy {
  import opened Text

  /** The characters `[\w\s\(\)\-\&]` that sanitizing keeps. */
  predicate Allowed(c: char) {
    IsWord(c) || IsSpace(c) || c == '(' || c == ')' || c == '-' || c == '&'
  }

  predicate AllAllowed(s: string) {
    forall i :: 0 <= i < |s| ==> Allowed(s[i])
  }

  /** Every whitespace character is a plain space and no two spaces are adjacent. */
  predicate Spaced(s: string) {
    && (forall i :: 0 <= i < |s| && IsSpace(s[i]) ==> s[i] == ' ')
    && (forall i :: 0 <= i < |s| - 1 ==> !(s[i] == ' ' && s[i + 1] == ' '))
  }

  /** What a sanitized name looks like: allowed characters only, single plain spaces, no leading space. */
  predicate Clean(s: string) {
    AllAllowed(s) && Spaced(s) && (s == [] || s[0] != ' ')
  }

  /** Step 1, `re.sub(r"[^\w\s\(\)\-\&]", "", s)`: delete every character outside the allowed set. */
  function DropDisallowed(s: string): (r: string)
    ensures |r| <= |s| && AllAllowed(r)
    ensures AllAllowed(s) ==> r == s
  {
    if s == [] then []
    else (if Allowed(s[0]) then [s[0]] else []) + DropDisallowed(s[1..])
  }

  /** Deleting works character by character: it splits over a concatenation, */
  lemma {:induction false} DropDisallowedAppend(a: string, b: string)
    ensures DropDisallowed(a + b) == DropDisallowed(a) + DropDisallowed(b)
    decreases |a|
  {
    if a == [] {
      assert a + b == b;
    } else {
      var h := if Allowed(a[0]) then [a[0]] else [];
      var ab := a + b;
      assert ab[0] == a[0] && ab[1..] == a[1..] + b;
      assert DropDisallowed(ab) == h + DropDisallowed(a[1..] + b);
      DropDisallowedAppend(a[1..], b);
      assert DropDisallowed(a) == h + DropDisallowed(a[1..]);
    }
  }

  /** and keeps a single character exactly when it is allowed. */
  lemma DropDisallowedChar(c: char)
    ensures DropDisallowed([c]) == if Allowed(c) then [c] else []
  {
  }

  /** Step 2a, `re.sub(r"\s+", " ", s)`: every maximal whitespace run becomes one space. */
  function CollapseSpaces(s: string): (r: string)
    ensures s != [] ==> r != [] && r[0] == (if IsSpace(s[0]) then ' ' else s[0])
    ensures Spaced(r)
    ensures AllAllowed(s) ==> AllAllowed(r)
    decreases |s|
  {
    if s == [] then []
    else if IsSpace(s[0]) then
      StripLeftSpec(s);
      [' '] + CollapseSpaces(StripLeft(s))
    else [s[0]] + CollapseSpaces(s[1..])
  }

  /** Python's slice `s[:limit]`; a negative limit counts from the end. */
  function SliceTo(s: string, limit: int): (r: string)
    ensures |r| <= |s| && r == s[..|r|]
    ensures limit >= 0 ==> |r| == if limit < |s| then limit else |s|
    ensures limit < 0 ==> |r| == if |s| + limit > 0 then |s| + limit else 0
  {
    if limit >= 0 then (if limit < |s| then s[..limit] else s)
    else if |s| + limit > 0 then s[..|s| + limit]
    else []
  }

  /** The sanitized name before truncation: steps 1 and 2, then `.strip()`. */
  function Untruncated(raw: string): string {
    Strip(CollapseSpaces(DropDisallowed(raw)))
  }

  /** `sanitize_filename(raw, limit)`. */
  function SanitizeFilename(raw: string, limit: int): (r: string)
    ensures limit >= 0 ==> |r| <= limit
    ensures Clean(r)
    ensures |r| <= |Untruncated(raw)| && r == Untruncated(raw)[..|r|]
  {
    UntruncatedClean(raw);
    SliceTo(Untruncated(raw), limit)
  }

  lemma SpacedInfix(s: string, i: int, j: int)
    requires Spaced(s) && 0 <= i <= j <= |s|
    ensures Spaced(s[i..j])
  {
    var t := s[i..j];
    forall k | 0 <= k < |t| - 1
      ensures !(t[k] == ' ' && t[k + 1] == ' ')
    {
      assert t[k] == s[i + k] && t[k + 1] == s[i + k + 1];
    }
  }

  /** The untruncated name is clean and has no whitespace at either end. */
  lemma UntruncatedClean(raw: string)
    ensures Clean(Untruncated(raw)) && Stripped(Untruncated(raw))
  {
    var c := CollapseSpaces(DropDisallowed(raw));
    StripResult(c);
    var i, j :| 0 <= i <= j <= |c| && Strip(c) == c[i..j];
    SpacedInfix(c, i, j);
  }

  lemma CleanPrefix(s: string, n: nat)
    requires Clean(s) && n <= |s|
    ensures Clean(s[..n])
  {
    SpacedInfix(s, 0, n);
  }

  /** A spaced string is its own collapse. */
  lemma {:induction false} CollapseSpacedIdentity(s: string)
    requires Spaced(s)
    ensures CollapseSpaces(s) == s
  {
    if s != [] {
      SpacedInfix(s, 1, |s|);
      if IsSpace(s[0]) {
        assert s[1..] == [] || !IsSpace(s[1]);
        assert StripLeft(s) == StripLeft(s[1..]) == s[1..];
      }
      CollapseSpacedIdentity(s[1..]);
    }
  }

  /**
   * A sanitized name ends in a space only when truncation cut it: the
   * untruncated name never does.
   */
  lemma TrailingSpaceOnlyWhenCut(raw: string, limit: int)
    ensures var r := SanitizeFilename(raw, limit);
      r != [] && r[|r| - 1] == ' ' ==> |r| < |Untruncated(raw)|
  {
    UntruncatedClean(raw);
  }

  /**
   * Sanitizing is idempotent exactly when the sanitized name does not end in
   * a space; a trailing space left by truncation is removed by the second
   * `.strip()`.
   */
  lemma SanitizeIdempotentIff(raw: string, limit: int)
    requires limit >= 0
    ensures var r := SanitizeFilename(raw, limit);
      SanitizeFilename(r, limit) == r <==> r == [] || r[|r| - 1] != ' '
  {
    var r := SanitizeFilename(raw, limit);
    assert DropDisallowed(r) == r;
    CollapseSpacedIdentity(r);
    assert Untruncated(r) == Strip(r);
    if r != [] && r[|r| - 1] == ' ' {
      var body := r[..|r| - 1];
      assert body != [] by { assert r[0] != ' '; }
      assert r[|r| - 2] != ' ';
      assert !IsSpace(body[0]) && !IsSpace(body[|body| - 1]);
      assert r == [] + body + " ";
      StripPadded([], body, " ");
      assert |SanitizeFilename(r, limit)| < |r|;
    } else {
      StripStripped(r);
    }
  }

  /** A counterexample to unconditional idempotence, first half: truncating "ab c" to 3 leaves a trailing space. */
  lemma SanitizeCutLeavesSpace(x: string)
    requires x == "ab c"
    ensures SanitizeFilename(x, 3) == "ab "
  {
    assert AllAllowed(x) && Spaced(x);
    CollapseSpacedIdentity(x);
    StripStripped(x);
  }

  /** Second half: sanitizing "ab " again strips that space, so the result changes. */
  lemma SanitizeAgainStripsSpace(y: string)
    requires y == "ab "
    ensures SanitizeFilename(y, 3) == "ab"
  {
    assert AllAllowed(y) && Spaced(y);
    CollapseSpacedIdentity(y);
    assert y == [] + "ab" + " ";
    StripPadded([], "ab", " ");
  }

  // ---- make_destination_path ----

  /**
   * `os.path.splitext` on POSIX: the extension starts at the last '.' after
   * the last '/', provided a character other than '.' precedes that dot
   * within the final component; otherwise the extension is empty.
   */
  function SplitExt(p: string): (res: (string, string))
    ensures res.0 + res.1 == p
    ensures res.1 == [] || (res.1[0] == '.' && '.' !in res.1[1..] && '/' !in res.1)
  {
    var sep := RFind(p, '/');
    var dot := RFind(p, '.');
    if dot > sep && exists k :: sep + 1 <= k < dot && p[k] != '.' then
      assert p[dot..][1..] == p[dot + 1..];
      (p[..dot], p[dot..])
    else (p, "")
  }

  /** Lines 95-97: the proposed name, with ".pdf" appended unless it already ends so (ignoring case). */
  function BaseName(proposed: string): string {
    if EndsWith(LowerAscii(proposed), ".pdf") then proposed else proposed + ".pdf"
  }

  /** The base name ends in ".pdf" (ignoring case) and extends the proposal by at most that suffix. */
  lemma BaseNameSpec(proposed: string)
    ensures EndsWith(LowerAscii(BaseName(proposed)), ".pdf")
    ensures EndsWith(LowerAscii(proposed), ".pdf") ==> BaseName(proposed) == proposed
    ensures !EndsWith(LowerAscii(proposed), ".pdf") ==> BaseName(proposed) == proposed + ".pdf"
  {
    var b := proposed + ".pdf";
    assert LowerAscii(b)[|b| - 4..] == ".pdf";
  }

  /** The k-th name tried: the base name itself, then `stem_k.ext` built from the base name's split. */
  function Candidate(base: string, k: nat): string {
    if k == 0 then base
    else
      var (stem, ext) := SplitExt(base);
      stem + "_" + NatToString(k) + ext
  }

  /** The names tried before the n-th. */
  function Tried(base: string, n: nat): (s: set<string>)
    ensures forall j :: 0 <= j < n ==> Candidate(base, j) in s
  {
    if n == 0 then {} else Tried(base, n - 1) + {Candidate(base, n - 1)}
  }

  /** The n-th name is the first free one: it is not in `existing` and every earlier one is. */
  ghost predicate FirstFreeAt(existing: set<string>, base: string, n: nat) {
    Candidate(base, n) !in existing && forall j :: 0 <= j < n ==> Candidate(base, j) in existing
  }

  ghost predicate IsFirstFree(existing: set<string>, base: string, r: string) {
    exists n: nat :: FirstFreeAt(existing, base, n) && r == Candidate(base, n)
  }

  /** Different counters give different names, so the search never revisits a name. */
  lemma CandidateInjective(base: string, j: nat, k: nat)
    requires j != k
    ensures Candidate(base, j) != Candidate(base, k)
  {
    var (stem, ext) := SplitExt(base);
    if j != 0 && k != 0 && |NatToString(j)| == |NatToString(k)| {
      var cj, ck := Candidate(base, j), Candidate(base, k);
      if cj == ck {
        var lo, hi := |stem| + 1, |stem| + 1 + |NatToString(j)|;
        assert cj[lo..hi] == NatToString(j);
        assert ck[lo..hi] == NatToString(k);
        DecimalInjective(j, k);
      }
    }
  }

  lemma {:induction false} TriedExcludesNext(base: string, n: nat)
    ensures forall x :: x in Tried(base, n) ==> exists j :: 0 <= j < n && x == Candidate(base, j)
    ensures Candidate(base, n) !in Tried(base, n)
    ensures |Tried(base, n)| == n
  {
    if n > 0 {
      var t, c, d := Tried(base, n - 1), Candidate(base, n - 1), Candidate(base, n);
      assert Tried(base, n) == t + {c};
      TriedExcludesNext(base, n - 1);
      assert d != c by { CandidateInjective(base, n - 1, n); }
      assert d !in t by {
        forall x | x in t ensures x != d {
          var j :| 0 <= j < n - 1 && x == Candidate(base, j);
          CandidateInjective(base, j, n);
        }
      }
      forall x | x in t + {c} ensures exists j :: 0 <= j < n && x == Candidate(base, j) {
        if x == c {
          assert 0 <= n - 1 < n && x == Candidate(base, n - 1);
        } else {
          var j :| 0 <= j < n - 1 && x == Candidate(base, j);
          assert 0 <= j < n;
        }
      }
      assert |t + {c}| == |t| + 1;
    }
  }

  /** The first free name is unique: two searches over the same set agree. */
  lemma FirstFreeUnique(existing: set<string>, base: string, r1: string, r2: string)
    requires IsFirstFree(existing, base, r1) && IsFirstFree(existing, base, r2)
    ensures r1 == r2
  {
    var n1: nat :| FirstFreeAt(existing, base, n1) && r1 == Candidate(base, n1);
    var n2: nat :| FirstFreeAt(existing, base, n2) && r2 == Candidate(base, n2);
    assert !(n1 < n2) && !(n2 < n1);
  }

  /**
   * `make_destination_path(base_dir, proposed)` against the set of names in
   * `base_dir`: returns the first name of `base, stem_1.ext, stem_2.ext, ...`
   * that is not taken. The loop runs at most once per existing name.
   */
  method MakeDestinationPath(existing: set<string>, proposed: string) returns (r: string, ghost k: nat)
    ensures r !in existing
    ensures r == Candidate(BaseName(proposed), k)
    ensures forall j :: 0 <= j < k ==> Candidate(BaseName(proposed), j) in existing
    ensures k <= |existing|
  {
    var baseName := proposed;
    if !EndsWith(LowerAscii(baseName), ".pdf") {
      baseName := baseName + ".pdf";
    }
    var candidate := baseName;
    var counter := 1;
    while candidate in existing
      invariant 1 <= counter
      invariant candidate == Candidate(baseName, counter - 1)
      invariant Tried(baseName, counter - 1) <= existing
      decreases |existing - Tried(baseName, counter - 1)|
    {
      TriedGrows(existing, baseName, counter - 1);
      var (stem, ext) := SplitExt(baseName);
      candidate := stem + "_" + NatToString(counter) + ext;
      counter := counter + 1;
    }
    TriedBound(existing, baseName, counter - 1);
    r, k := candidate, counter - 1;
  }

  /** One more name tried and found taken: the tried set stays inside `existing` and the untried part shrinks. */
  lemma TriedGrows(existing: set<string>, base: string, n: nat)
    requires Tried(base, n) <= existing && Candidate(base, n) in existing
    ensures Tried(base, n + 1) <= existing
    ensures |existing - Tried(base, n + 1)| < |existing - Tried(base, n)|
  {
    TriedExcludesNext(base, n);
    var c := Candidate(base, n);
    assert existing - Tried(base, n + 1) == (existing - Tried(base, n)) - {c};
    assert c in existing - Tried(base, n);
  }

  /** The n names tried are all distinct and all taken, so there are at least n names. */
  lemma TriedBound(existing: set<string>, base: string, n: nat)
    requires Tried(base, n) <= existing
    ensures n <= |existing|
  {
    TriedExcludesNext(base, n);
    SubsetCard(Tried(base, n), existing);
  }

  lemma SubsetCard(a: set<string>, b: set<string>)
    requires a <= b
    ensures |a| <= |b|
  {
    assert b == a + (b - a);
  }

  /**
   * In the pipeline the proposed name is sanitized, so it holds no '.' and no
   * '/': ".pdf" is always appended and every name tried is `proposed.pdf` or
   * `proposed_k.pdf`.
   */
  lemma CandidatesOfCleanName(proposed: string, k: nat)
    requires proposed != [] && '.' !in proposed && '/' !in proposed
    ensures BaseName(proposed) == proposed + ".pdf"
    ensures Candidate(BaseName(proposed), k) == if k == 0 then proposed + ".pdf" else proposed + "_" + NatToString(k) + ".pdf"
  {
    var b := proposed + ".pdf";
    if |proposed| >= 4 {
      assert LowerAscii(proposed)[|proposed| - 4] == Lower(proposed[|proposed| - 4]) != '.';
    }
    assert RFind(b, '/') == -1;
    assert b[|proposed|] == '.';
    assert RFind(b, '.') == |proposed|;
    assert b[0] != '.';
    assert SplitExt(b) == (proposed, ".pdf");
  }

  /** Such a destination always ends in ".pdf" and contains no further '/'. */
  lemma CleanDestinationEndsInPdf(proposed: string, k: nat)
    requires proposed != [] && '.' !in proposed && '/' !in proposed
    ensures EndsWith(Candidate(BaseName(proposed), k), ".pdf")
    ensures '/' !in Candidate(BaseName(proposed), k)
  {
    CandidatesOfCleanName(proposed, k);
    var d := NatToString(k);
    NoSlashInDecimal(k);
    if k == 0 {
      PdfAppended(Candidate(BaseName(proposed), k), proposed);
    } else {
      PdfAppended(Candidate(BaseName(proposed), k), proposed + "_" + d);
    }
  }

  lemma NoSlashInDecimal(k: nat)
    ensures '/' !in NatToString(k)
  {
    var d := NatToString(k);
    assert forall i :: 0 <= i < |d| ==> d[i] != '/';
  }

  lemma PdfAppended(c: string, stem: string)
    requires c == stem + ".pdf" && '/' !in stem
    ensures EndsWith(c, ".pdf") && '/' !in c
  {
    EndsWithAppended(stem, ".pdf");
  }

  /** Sanitizing keeps any allowed character that is not whitespace, so such a name never becomes empty. */
  lemma SanitizeKeepsVisible(raw: string, c: char, limit: int)
    requires c in raw && Allowed(c) && !IsSpace(c) && limit > 0
    ensures SanitizeFilename(raw, limit) != ""
  {
    DropKeeps(raw, c);
    CollapseKeeps(DropDisallowed(raw), c);
    StripKeeps(CollapseSpaces(DropDisallowed(raw)), c);
  }

  lemma {:induction false} DropKeeps(s: string, c: char)
    requires c in s && Allowed(c)
    ensures c in DropDisallowed(s)
  {
    if s[0] != c {
      DropKeeps(s[1..], c);
    }
  }

  lemma {:induction false} CollapseKeeps(s: string, c: char)
    requires c in s && !IsSpace(c)
    ensures c in CollapseSpaces(s)
    decreases |s|
  {
    if s[0] != c {
      if IsSpace(s[0]) {
        StripLeftSpec(s);
        var l := StripLeft(s);
        var k :| 0 <= k < |s| && s[k] == c;
        assert k >= |s| - |l|;
        assert l[k - (|s| - |l|)] == c;
        CollapseKeeps(l, c);
      } else {
        CollapseKeeps(s[1..], c);
      }
    }
  }

  lemma StripKeeps(s: string, c: char)
    requires c in s && !IsSpace(c)
    ensures Strip(s) != ""
  {
    var k :| 0 <= k < |s| && s[k] == c;
    StripLeftNonEmpty(s, k);
    StripRightNonEmpty(StripLeft(s));
  }

  /** The sanitized name has no dot or slash, and "_" never brings one in. */
  lemma SanitizedHasNoDot(raw: string, limit: int)
    ensures '.' !in SanitizeFilename(raw, limit) && '/' !in SanitizeFilename(raw, limit)
  {
    var r := SanitizeFilename(raw, limit);
    assert forall i :: 0 <= i < |r| ==> Allowed(r[i]);
  }

  lemma FooCandidate(p: string, k: nat)
    requires p == "foo" && k <= 2
    ensures Candidate(BaseName(p), k) == ["foo.pdf", "foo_1.pdf", "foo_2.pdf"][k]
  {
    var expected := ["foo.pdf", "foo_1.pdf", "foo_2.pdf"][k];
    var clean := if k == 0 then p + ".pdf" else p + "_" + NatToString(k) + ".pdf";
    assert clean == expected by {
      if k == 1 { assert NatToString(1) == "1"; }
      else if k == 2 { assert NatToString(2) == "2"; }
    }
    CandidatesOfCleanName(p, k);
  }

  lemma BareCandidates(p: string)
    requires p == ""
    ensures Candidate(BaseName(p), 0) == ".pdf"
    ensures Candidate(BaseName(p), 1) == ".pdf_1"
  {
    var b := BaseName(p);
    assert b == ".pdf" by { assert !EndsWith(LowerAscii(p), ".pdf"); }
    assert SplitExt(b) == (".pdf", "") by {
      assert b[1..] == "pdf";
      LeadingDotOnly(b);
    }
    assert NatToString(1) == "1";
    assert ".pdf" + "_" + "1" + "" == ".pdf_1";
  }

  /** A name whose only dot is its first character, with no '/', has no extension. */
  lemma LeadingDotOnly(p: string)
    requires |p| > 0 && p[0] == '.' && '.' !in p[1..] && '/' !in p
    ensures SplitExt(p) == (p, "")
  {
  }

  /** A taken name gets the suffix "_1". */
  method FirstCollisionExample() returns (r: string)
    ensures r == "foo_1.pdf"
  {
    ghost var k;
    r, k := MakeDestinationPath({"foo.pdf"}, "foo");
    FooCandidate("foo", 0);
    assert k != 0;
    FooCandidate("foo", 1);
    assert !(k > 1);
  }

  /** With "foo.pdf" and "foo_1.pdf" taken the counter goes on to 2. */
  method SecondCollisionExample() returns (r: string)
    ensures r == "foo_2.pdf"
  {
    ghost var k;
    r, k := MakeDestinationPath({"foo.pdf", "foo_1.pdf"}, "foo");
    FooCandidate("foo", 0);
    FooCandidate("foo", 1);
    assert k != 0 && k != 1;
    FooCandidate("foo", 2);
    assert !(k > 2);
  }

  /** A free name is returned unchanged apart from the appended ".pdf". */
  method NoCollisionExample() returns (r: string)
    ensures r == "foo.pdf"
  {
    ghost var k;
    r, k := MakeDestinationPath({"bar.pdf"}, "foo");
    FooCandidate("foo", 0);
    assert !(k > 0);
  }

  /**
   * The edge the pipeline never reaches: `splitext(".pdf")` has no extension,
   * so an empty proposal that collides yields ".pdf_1", which does not end in ".pdf".
   */
  method EmptyNameExample() returns (r: string)
    ensures r == ".pdf_1"
  {
    ghost var k;
    r, k := MakeDestinationPath({".pdf"}, "");
    BareCandidates("");
    assert k != 0;
    assert !(k > 1);
  }
}
