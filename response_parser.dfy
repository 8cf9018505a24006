/**
 * The string-repair chain of `LitellmProvider.extract_metadata`
 * (llm_provider.py): each `re.search`/`re.sub` pass is a pure function on the
 * response text, applied in the source's order, followed by validation of the
 * dictionary that `json.loads` produced.
 */
module ResponseParser {
  import opened Wrappers
  import opened Text

  /** The first index at or after `i` that is not whitespace, or |s|: where a greedy `\s*` stops. */
  function SkipSpace(s: string, i: nat): (j: nat)
    requires i <= |s|
    ensures i <= j <= |s|
    decreases |s| - i
  {
    if i < |s| && IsSpace(s[i]) then SkipSpace(s, i + 1) else i
  }

  /** What a greedy `\s*` consumes: whitespace only, up to a non-space or the end. */
  lemma {:induction false} SkipSpaceSpan(s: string, i: nat)
    requires i <= |s|
    ensures AllSpace(s[i..SkipSpace(s, i)])
    ensures SkipSpace(s, i) == |s| || !IsSpace(s[SkipSpace(s, i)])
    decreases |s| - i
  {
    if i < |s| && IsSpace(s[i]) {
      SkipSpaceSpan(s, i + 1);
      assert s[i..SkipSpace(s, i)] == [s[i]] + s[i + 1..SkipSpace(s, i)];
    }
  }

  /** The whitespace run from `a` is exactly `w` when `w` is whitespace and is followed by a non-space. */
  lemma SkipSpaceOver(s: string, a: nat, w: string)
    requires a + |w| <= |s| && s[a..a + |w|] == w && AllSpace(w)
    requires a + |w| == |s| || !IsSpace(s[a + |w|])
    ensures SkipSpace(s, a) == a + |w|
  {
    forall k | a <= k < a + |w| ensures IsSpace(s[k]) {
      assert s[k] == w[k - a];
    }
    SkipSpacePasses(s, a, a + |w|);
    if a + |w| < |s| {
      SkipSpaceStops(s, a, a + |w|);
    }
  }

  /** A greedy `\s*` from `i` consumes at least a whitespace run up to `m`. */
  lemma {:induction false} SkipSpacePasses(s: string, i: nat, m: nat)
    requires i <= m <= |s| && forall k :: i <= k < m ==> IsSpace(s[k])
    ensures SkipSpace(s, i) >= m
    decreases m - i
  {
    if i < m {
      SkipSpacePasses(s, i + 1, m);
    }
  }

  /** A greedy `\s*` from `i` never runs past a non-space at `m`. */
  lemma {:induction false} SkipSpaceStops(s: string, i: nat, m: nat)
    requires i <= m < |s| && !IsSpace(s[m])
    ensures SkipSpace(s, i) <= m
    decreases m - i
  {
    if IsSpace(s[i]) {
      SkipSpaceStops(s, i + 1, m);
    }
  }

  /** A fence "```" starts at position `i`. */
  predicate FenceAt(s: string, i: nat) {
    i + 3 <= |s| && s[i] == '`' && s[i + 1] == '`' && s[i + 2] == '`'
  }

  /** The tag "json" starts at position `i`, in lower case (the search is case-sensitive). */
  predicate JsonAt(s: string, i: nat) {
    i + 4 <= |s| && s[i] == 'j' && s[i + 1] == 's' && s[i + 2] == 'o' && s[i + 3] == 'n'
  }

  /**
   * The tag "json" starts at position `i`, in any case as `re.IGNORECASE`
   * reads it: ASCII case, and the long s 'ſ' (U+017F), which folds to 's'.
   */
  predicate JsonAnyCaseAt(s: string, i: nat) {
    && i + 4 <= |s|
    && Lower(s[i]) == 'j'
    && (Lower(s[i + 1]) == 's' || s[i + 1] == '\U{17F}')
    && Lower(s[i + 2]) == 'o'
    && Lower(s[i + 3]) == 'n'
  }

  // ---- Pass 1: re.search(r"```(?:json)?\s*(\{.*?\})\s*```", s, re.DOTALL), lines 59-60 ----

  /**
   * Where the group's `{` must stand for a match that starts at `i`: after
   * "```", after "json" when it follows, and after all the whitespace that
   * follows. (Backing off the optional tag or the greedy `\s*` only puts a
   * letter or a space where `{` is needed, so no other position can match.)
   */
  function OpenBrace(s: string, i: nat): Option<nat>
    requires i <= |s|
  {
    if !FenceAt(s, i) then None
    else
      var p := if JsonAt(s, i + 3) then SkipSpace(s, i + 7) else SkipSpace(s, i + 3);
      if p < |s| && s[p] == '{' then Some(p) else None
  }

  /** The pattern's tail `\s*```` matches from `j`. */
  predicate ClosesAt(s: string, j: nat)
    requires j <= |s|
  {
    FenceAt(s, SkipSpace(s, j))
  }

  /** The lazy `.*?\}` from `j`: the first '}' after which whitespace and "```" follow. */
  function CloseBrace(s: string, j: nat): Option<nat>
    requires j <= |s|
    decreases |s| - j
  {
    if j >= |s| then None
    else if s[j] == '}' && ClosesAt(s, j + 1) then Some(j)
    else CloseBrace(s, j + 1)
  }

  /** Laziness: the group ends at the first '}' from `j` that can be followed by the closing fence. */
  lemma {:induction false} CloseBraceFirst(s: string, j: nat, q: nat)
    requires j <= q < |s| && s[q] == '}' && ClosesAt(s, q + 1)
    requires forall k :: j <= k < q && s[k] == '}' ==> !ClosesAt(s, k + 1)
    ensures CloseBrace(s, j) == Some(q)
    decreases q - j
  {
    if j < q {
      CloseBraceFirst(s, j + 1, q);
    }
  }

  /** The match that starts at `i`, as the span (first, last) of its group. */
  function MatchAt(s: string, i: nat): Option<(nat, nat)>
    requires i <= |s|
  {
    match OpenBrace(s, i)
    case None => None
    case Some(p) =>
      match CloseBrace(s, p + 1)
      case None => None
      case Some(q) => Some((p, q))
  }

  /** The leftmost match at or after `i`. */
  function FenceFrom(s: string, i: nat): Option<(nat, nat)>
    requires i <= |s|
    decreases |s| - i
  {
    if i == |s| then None
    else if MatchAt(s, i).Some? then MatchAt(s, i)
    else FenceFrom(s, i + 1)
  }

  /** A found group starts at a '{' after the opening fence and ends at a '}' that the closing fence can follow. */
  lemma {:induction false} CloseBraceSpan(s: string, j: nat)
    requires j <= |s|
    ensures CloseBrace(s, j).Some? ==> var q := CloseBrace(s, j).value;
      j <= q < |s| && s[q] == '}' && ClosesAt(s, q + 1)
    decreases |s| - j
  {
    if j < |s| && !(s[j] == '}' && ClosesAt(s, j + 1)) {
      CloseBraceSpan(s, j + 1);
    }
  }

  lemma MatchAtSpan(s: string, i: nat)
    requires i <= |s|
    ensures MatchAt(s, i).Some? ==> var (p, q) := MatchAt(s, i).value;
      i + 3 <= p < q < |s| && s[p] == '{' && s[q] == '}'
  {
    if OpenBrace(s, i).Some? {
      CloseBraceSpan(s, OpenBrace(s, i).value + 1);
    }
  }

  lemma {:induction false} FenceFromSpan(s: string, i: nat)
    requires i <= |s|
    ensures FenceFrom(s, i).Some? ==> var (p, q) := FenceFrom(s, i).value;
      i + 3 <= p < q < |s| && s[p] == '{' && s[q] == '}'
    decreases |s| - i
  {
    if i < |s| {
      MatchAtSpan(s, i);
      if MatchAt(s, i).None? {
        FenceFromSpan(s, i + 1);
      }
    }
  }

  /** Lines 59-60: keep only the object of the first fenced block, else the whole text. */
  function ExtractFenced(s: string): (r: string)
    ensures |r| <= |s|
    ensures r != s ==> |r| >= 2 && r[0] == '{' && r[|r| - 1] == '}'
  {
    FenceFromSpan(s, 0);
    match FenceFrom(s, 0)
    case Some((p, q)) => s[p..q + 1]
    case None => s
  }

  /** "```" does not occur in `t`. */
  predicate NoFence(t: string) {
    forall k :: 0 <= k < |t| ==> !FenceAt(t, k)
  }

  /**
   * No '}' of `obj` before its last character is followed, within `obj`, by
   * whitespace and "```": the lazy group cannot end inside the object.
   */
  predicate NoEarlyClose(obj: string) {
    forall k :: 0 <= k < |obj| - 1 && obj[k] == '}' ==> !ClosesAt(obj, k + 1)
  }

  lemma {:induction false} FenceFromSkipsProse(s: string, n: nat, i: nat)
    requires i <= n <= |s| && forall k :: 0 <= k < n ==> MatchAt(s, k).None?
    ensures FenceFrom(s, i) == FenceFrom(s, n)
    decreases n - i
  {
    if i < n {
      FenceFromSkipsProse(s, n, i + 1);
    }
  }

  /** A greedy `\s*` inside an embedded `obj` that ends in a non-space stops where it stops in `obj`. */
  lemma {:induction false} SkipSpaceEmbedded(s: string, p: nat, obj: string, j: nat)
    requires p + |obj| <= |s| && forall k :: 0 <= k < |obj| ==> s[p + k] == obj[k]
    requires j < |obj| && !IsSpace(obj[|obj| - 1])
    ensures SkipSpace(s, p + j) == p + SkipSpace(obj, j)
    decreases |obj| - j
  {
    assert s[p + j] == obj[j];
    if IsSpace(obj[j]) {
      SkipSpaceEmbedded(s, p, obj, j + 1);
    }
  }

  /** Inside an embedded `obj` that ends in '}', a fence starts in `s` exactly where it starts in `obj`. */
  lemma FenceEmbedded(s: string, p: nat, obj: string, m: nat)
    requires p + |obj| <= |s| && forall k :: 0 <= k < |obj| ==> s[p + k] == obj[k]
    requires m < |obj| && obj[|obj| - 1] == '}'
    ensures FenceAt(s, p + m) == FenceAt(obj, m)
  {
    if m + 3 <= |obj| {
      assert s[p + m] == obj[m] && s[p + m + 1] == obj[m + 1] && s[p + m + 2] == obj[m + 2];
    } else {
      assert s[p + |obj| - 1] == '}';
    }
  }

  /** A '}' inside an embedded `obj` that ends in '}' can close the fence in `s` exactly when it can in `obj`. */
  lemma ClosesEmbedded(s: string, p: nat, obj: string, j: nat)
    requires p + |obj| <= |s| && forall k :: 0 <= k < |obj| ==> s[p + k] == obj[k]
    requires j < |obj| && obj[|obj| - 1] == '}'
    ensures ClosesAt(s, p + j) == ClosesAt(obj, j)
  {
    SkipSpaceEmbedded(s, p, obj, j);
    SkipSpaceStops(obj, j, |obj| - 1);
    FenceEmbedded(s, p, obj, SkipSpace(obj, j));
  }

  /** The opening of the pattern matches at `i` and puts the group's '{' at `p`. */
  lemma OpenBraceAt(s: string, i: nat, tagLen: nat, p: nat)
    requires FenceAt(s, i) && i + 3 + tagLen <= p < |s| && s[p] == '{'
    requires (tagLen == 4 && JsonAt(s, i + 3)) || (tagLen == 0 && !JsonAt(s, i + 3))
    requires AllSpace(s[i + 3 + tagLen..p])
    ensures OpenBrace(s, i) == Some(p)
  {
    SkipSpaceOver(s, i + 3 + tagLen, s[i + 3 + tagLen..p]);
  }

  /** The whole pattern, located by offsets in `s`: the group is `s[p..e]`. */
  lemma FenceMatch(s: string, i: nat, tagLen: nat, p: nat, e: nat, c: nat)
    requires i + 3 + tagLen <= p && p + 2 <= e <= c && c + 3 <= |s|
    requires forall k :: 0 <= k < i ==> MatchAt(s, k).None?
    requires forall k :: p + 1 <= k < e - 1 && s[k] == '}' ==> !ClosesAt(s, k + 1)
    requires FenceAt(s, i) && FenceAt(s, c)
    requires (tagLen == 4 && JsonAt(s, i + 3)) || (tagLen == 0 && !JsonAt(s, i + 3))
    requires AllSpace(s[i + 3 + tagLen..p]) && AllSpace(s[e..c])
    requires s[p] == '{' && s[e - 1] == '}'
    ensures ExtractFenced(s) == s[p..e]
  {
    assert OpenBrace(s, i) == Some(p) by { OpenBraceAt(s, i, tagLen, p); }
    assert CloseBrace(s, p + 1) == Some(e - 1) by {
      ClosesOver(s, e, c);
      CloseBraceFirst(s, p + 1, e - 1);
    }
    assert FenceFrom(s, i) == Some((p, e - 1)) by { FenceFromAt(s, i, p, e - 1); }
    assert FenceFrom(s, 0) == FenceFrom(s, i) by { FenceFromSkipsProse(s, i, 0); }
  }

  lemma ClosesOver(s: string, e: nat, c: nat)
    requires e <= c && FenceAt(s, c) && AllSpace(s[e..c])
    ensures ClosesAt(s, e)
  {
    SkipSpaceOver(s, e, s[e..c]);
  }

  lemma FenceFromAt(s: string, i: nat, p: nat, q: nat)
    requires i < |s| && OpenBrace(s, i) == Some(p) && p + 1 <= |s| && CloseBrace(s, p + 1) == Some(q)
    ensures FenceFrom(s, i) == Some((p, q))
  {
    assert MatchAt(s, i) == Some((p, q));
  }

  /** The middle part of a concatenation, by slice and by index. */
  lemma Middle(a: string, b: string, c: string)
    ensures (a + b + c)[|a|..|a| + |b|] == b
    ensures forall k :: 0 <= k < |b| ==> (a + b + c)[|a| + k] == b[k]
    ensures forall k :: 0 <= k < |a| ==> (a + b + c)[k] == a[k]
  {
  }

  /**
   * Prose, a block fenced by "```" or "```json" around one object, and more
   * prose: the object is exactly what pass 1 keeps, provided the leading
   * prose holds no "```" and no '}' inside the object can be followed by
   * the closing fence.
   */
  lemma FencedObjectExtracted(pre: string, tag: string, ws1: string, obj: string, ws2: string, post: string)
    requires NoFence(pre) && NoEarlyClose(obj)
    requires tag == "" || tag == "json"
    requires AllSpace(ws1) && AllSpace(ws2)
    requires |obj| >= 2 && obj[0] == '{' && obj[|obj| - 1] == '}'
    ensures ExtractFenced(pre + "```" + tag + ws1 + obj + ws2 + "```" + post) == obj
  {
    var s := pre + "```" + tag + ws1 + obj + ws2 + "```" + post;
    var i := |pre|;
    var p := i + 3 + |tag| + |ws1|;
    var e := p + |obj|;
    var c := e + |ws2|;
    FencedSlices(pre, "```" + tag + ws1, obj, ws2, "```" + post);
    assert s == pre + ("```" + tag + ws1) + obj + ws2 + ("```" + post);
    FencedLayout(s, pre, tag, ws1, obj, ws2, post, i, p, e, c);
  }

  /** Inline code in the prose before the block does not stop pass 1 from finding the block. */
  lemma InlineCodeBeforeBlock()
    ensures ExtractFenced("`a` ```{}```") == "{}"
  {
    var pre := "`a` ";
    assert NoFence(pre) by {
      assert pre[1] == 'a';
    }
    assert NoEarlyClose("{}");
    FencedObjectExtracted(pre, "", "", "{}", "", "");
    assert pre + "```" + "" + "" + "{}" + "" + "```" + "" == "`a` ```{}```";
  }

  /** Where each of five concatenated parts sits. */
  lemma FencedSlices(pre: string, open: string, obj: string, ws2: string, close: string)
    ensures var s, i := pre + open + obj + ws2 + close, |pre|;
      var p := i + |open|;
      var e := p + |obj|;
      var c := e + |ws2|;
      s[..i] == pre && s[i..p] == open && s[p..e] == obj && s[e..c] == ws2 && s[c..] == close
  {
    var s := pre + open + obj + ws2 + close;
    var i := |pre|;
    var p := i + |open|;
    var e := p + |obj|;
    var c := e + |ws2|;
    assert s[..i] == pre by { Middle(pre, open, obj + ws2 + close); }
    assert s[i..p] == open by { Middle(pre, open, obj + ws2 + close); }
    assert s[p..e] == obj by {
      assert s == (pre + open) + obj + (ws2 + close);
      Middle(pre + open, obj, ws2 + close);
    }
    assert s[e..c] == ws2 by {
      assert s == (pre + open + obj) + ws2 + close;
      Middle(pre + open + obj, ws2, close);
    }
    assert s[c..] == close by {
      assert s == (pre + open + obj + ws2) + close + [];
      Middle(pre + open + obj + ws2, close, []);
    }
  }

  /** The fenced layout of the lemma above, given by where each part sits in `s`. */
  lemma FencedLayout(s: string, pre: string, tag: string, ws1: string, obj: string, ws2: string, post: string,
                     i: nat, p: nat, e: nat, c: nat)
    requires NoFence(pre) && NoEarlyClose(obj)
    requires tag == "" || tag == "json"
    requires AllSpace(ws1) && AllSpace(ws2)
    requires |obj| >= 2 && obj[0] == '{' && obj[|obj| - 1] == '}'
    requires i == |pre| && p == i + 3 + |tag| + |ws1| && e == p + |obj| && c == e + |ws2| && c <= |s|
    requires s[..i] == pre && s[i..p] == "```" + tag + ws1 && s[p..e] == obj && s[e..c] == ws2 && s[c..] == "```" + post
    ensures ExtractFenced(s) == obj
  {
    var open := "```" + tag + ws1;
    assert FenceAt(s, i) by {
      assert s[i] == open[0] && s[i + 1] == open[1] && s[i + 2] == open[2];
    }
    assert s[i + 3 + |tag|..p] == ws1 by {
      assert s[i + 3 + |tag|..p] == s[i..p][3 + |tag|..];
      assert open[3 + |tag|..] == ws1;
    }
    assert FenceAt(s, c) by {
      assert s[c] == s[c..][0] && s[c + 1] == s[c..][1] && s[c + 2] == s[c..][2];
    }
    if tag == "json" {
      assert JsonAt(s, i + 3) by {
        assert s[i + 3] == open[3] && s[i + 4] == open[4] && s[i + 5] == open[5] && s[i + 6] == open[6];
      }
    } else {
      assert !JsonAt(s, i + 3) by {
        assert s[i + 3] == if ws1 == [] then obj[0] else ws1[0];
      }
    }
    assert s[p] == '{' && s[e - 1] == '}' by {
      assert s[p] == obj[0] && s[e - 1] == obj[|obj| - 1];
    }
    ProseHasNoMatch(s, pre);
    ObjectClosesOnce(s, p, obj);
    FenceMatch(s, i, |tag|, p, e, c);
  }

  /** `ProseDoesNotMatch` at every position of the prose. */
  lemma ProseHasNoMatch(s: string, pre: string)
    requires |pre| + 3 <= |s| && s[..|pre|] == pre && FenceAt(s, |pre|) && NoFence(pre)
    ensures forall k :: 0 <= k < |pre| ==> MatchAt(s, k).None?
  {
    forall k | 0 <= k < |pre| ensures MatchAt(s, k).None? {
      ProseDoesNotMatch(s, pre, k);
    }
  }

  /** In `s`, the lazy group that opens at an embedded `obj` cannot stop before the object's last '}'. */
  lemma ObjectClosesOnce(s: string, p: nat, obj: string)
    requires p + |obj| <= |s| && s[p..p + |obj|] == obj && |obj| >= 1 && obj[|obj| - 1] == '}' && NoEarlyClose(obj)
    ensures forall k :: p + 1 <= k < p + |obj| - 1 && s[k] == '}' ==> !ClosesAt(s, k + 1)
  {
    assert forall k :: 0 <= k < |obj| ==> s[p + k] == obj[k];
    forall k | p + 1 <= k < p + |obj| - 1 && s[k] == '}' ensures !ClosesAt(s, k + 1) {
      assert obj[k - p] == s[k];
      ClosesEmbedded(s, p, obj, k + 1 - p);
    }
  }

  /**
   * No match starts in prose free of "```" that the opening fence follows:
   * a fence starting there would need its own "```" inside the prose, or
   * would meet a backtick of the opening fence where '{' or "json" must be.
   */
  lemma ProseDoesNotMatch(s: string, pre: string, k: nat)
    requires |pre| + 3 <= |s| && s[..|pre|] == pre && FenceAt(s, |pre|) && NoFence(pre) && k < |pre|
    ensures MatchAt(s, k).None?
  {
    var i := |pre|;
    if k + 3 <= i {
      assert s[k] == pre[k] && s[k + 1] == pre[k + 1] && s[k + 2] == pre[k + 2];
      assert !FenceAt(pre, k);
    } else {
      assert s[k + 3] == '`';
      assert !JsonAt(s, k + 3) && SkipSpace(s, k + 3) == k + 3;
    }
  }

  // ---- Pass 2: leading and trailing fence markers, lines 61-62 ----

  /** `re.sub(r'^```(?:json)?', '', t, flags=re.IGNORECASE)`: one "```" at the very start, with a "json" tag in any case. */
  function DropLeadingFence(t: string): string {
    if !FenceAt(t, 0) then t
    else if JsonAnyCaseAt(t, 3) then t[7..]
    else t[3..]
  }

  /** `re.sub(r'```$', '', t)` on a stripped `t`, which never ends in a newline, so `$` is the very end. */
  function DropTrailingFence(t: string): string {
    if |t| >= 3 && FenceAt(t, |t| - 3) then t[..|t| - 3] else t
  }

  /** Lines 61-62 as a whole; the source strips before and after each removal. */
  function StripFences(s: string): (r: string)
    ensures Stripped(r)
  {
    var t := Strip(DropLeadingFence(Strip(s)));
    var u := Strip(DropTrailingFence(Strip(t)));
    StripResult(DropTrailingFence(Strip(t)));
    u
  }

  /** Text without fence markers at either end only loses its surrounding whitespace. */
  lemma StripFencesUnfenced(s: string)
    requires !FenceAt(Strip(s), 0) && !(|Strip(s)| >= 3 && FenceAt(Strip(s), |Strip(s)| - 3))
    ensures StripFences(s) == Strip(s)
  {
    StripResult(s);
    StripStripped(Strip(s));
  }

  lemma {:induction false} StripLeftAppend(a: string, b: string)
    requires b != [] && !IsSpace(b[0])
    ensures StripLeft(a + b) == StripLeft(a) + b
  {
    if a == [] {
      assert a + b == b;
    } else if IsSpace(a[0]) {
      assert (a + b)[1..] == a[1..] + b;
      StripLeftAppend(a[1..], b);
    }
  }

  lemma StripLeftIdempotent(a: string)
    ensures StripLeft(StripLeft(a)) == StripLeft(a)
  {
  }

  /**
   * A whole response fenced as "```json" ... "```" (whitespace around it
   * allowed) comes out as its stripped body.
   */
  lemma StripFencesFenced(w1: string, body: string, w2: string)
    requires AllSpace(w1) && AllSpace(w2)
    ensures StripFences(w1 + "```json" + body + "```" + w2) == Strip(body)
  {
    var l := StripLeft(body);
    StripAroundFence(w1, body, w2);
    DropLeadingJsonFence(body);
    StripBeforeFence(body);
    DropTrailingFenceOf(l);
    StripLeftIdempotent(body);
  }

  lemma StripAroundFence(w1: string, body: string, w2: string)
    requires AllSpace(w1) && AllSpace(w2)
    ensures Strip(w1 + "```json" + body + "```" + w2) == "```json" + body + "```"
  {
    var inner := "```json" + body + "```";
    assert w1 + "```json" + body + "```" + w2 == w1 + inner + w2;
    assert inner[0] == '`' && inner[|inner| - 1] == '`';
    StripPadded(w1, inner, w2);
  }

  /** Stripping text that ends in a fence only strips its front, and a second strip changes nothing. */
  lemma StripBeforeFence(body: string)
    ensures Strip(body + "```") == StripLeft(body) + "```"
    ensures Strip(StripLeft(body) + "```") == StripLeft(body) + "```"
  {
    var l := StripLeft(body);
    StripLeftAppend(body, "```");
    assert StripRight(l + "```") == l + "```";
    assert (l + "```")[0] != ' ' by { assert l == [] || !IsSpace(l[0]); }
    StripStripped(l + "```");
  }

  lemma DropLeadingJsonFence(body: string)
    ensures DropLeadingFence("```json" + body + "```") == body + "```"
  {
    var t := "```json" + body + "```";
    assert t[0] == '`' && t[1] == '`' && t[2] == '`';
    assert t[3] == 'j' && t[4] == 's' && t[5] == 'o' && t[6] == 'n';
    assert t[7..] == body + "```";
  }

  /** Case folding in pass 2 goes beyond ASCII: "```JſON" loses its tag too. */
  lemma DropLeadingLongSTag(body: string)
    ensures DropLeadingFence("```J\U{17F}ON" + body) == body
  {
    var t := "```J\U{17F}ON" + body;
    assert t[0] == '`' && t[1] == '`' && t[2] == '`';
    assert t[3] == 'J' && t[4] == '\U{17F}' && t[5] == 'O' && t[6] == 'N';
    assert t[7..] == body;
  }

  lemma DropTrailingFenceOf(l: string)
    ensures DropTrailingFence(l + "```") == l
  {
    var t := l + "```";
    assert t[|t| - 3] == '`' && t[|t| - 2] == '`' && t[|t| - 1] == '`';
    assert t[..|t| - 3] == l;
  }

  // ---- Pass 3: re.search(r'\{.*\}', s, re.DOTALL), lines 63-65 ----

  /** Some '{' comes before some '}'. */
  predicate HasBracedSpan(s: string) {
    exists i, j :: 0 <= i < j < |s| && s[i] == '{' && s[j] == '}'
  }

  /** Lines 63-65: from the first '{' through the last '}' when one precedes the other, else unchanged. */
  function GreedyBrace(s: string): string {
    var i, j := Find(s, '{'), RFind(s, '}');
    if 0 <= i < j then s[i..j + 1] else s
  }

  /** `s` is `a + r + b` with `r` running from a '{' to a '}', no '{' in `a` and no '}' in `b`. */
  predicate GreedySplit(s: string, a: string, r: string, b: string) {
    && s == a + r + b
    && '{' !in a && '}' !in b
    && |r| >= 2 && r[0] == '{' && r[|r| - 1] == '}'
  }

  /**
   * The greedy span: the result runs from a '{' to a '}', the text before it
   * holds no '{' and the text after it no '}'.
   */
  lemma GreedyBraceSpan(s: string)
    ensures HasBracedSpan(s) ==>
      GreedySplit(s, s[..Find(s, '{')], GreedyBrace(s), s[RFind(s, '}') + 1..])
    ensures !HasBracedSpan(s) ==> GreedyBrace(s) == s
  {
    if HasBracedSpan(s) {
      var i0, j0 :| 0 <= i0 < j0 < |s| && s[i0] == '{' && s[j0] == '}';
      GreedyBraceCut(s, i0, j0);
      var i, j := Find(s, '{'), RFind(s, '}');
      GreedyBraceValue(s, i, j);
      SpanParts(s, i, j, GreedyBrace(s));
    } else {
      GreedyBraceNone(s);
    }
  }

  /** A span `s[i..j + 1]` from a '{' to a '}', with no '{' before it and no '}' after it, is a greedy split of `s`. */
  lemma SpanParts(s: string, i: int, j: int, r: string)
    requires 0 <= i < j < |s| && s[i] == '{' && s[j] == '}' && r == s[i..j + 1]
    requires '{' !in s[..i] && '}' !in s[j + 1..]
    ensures GreedySplit(s, s[..i], r, s[j + 1..])
  {
    Split3(s, i, j + 1);
  }

  /** With a '{' at `i0` before a '}' at `j0`, the first '{' precedes the last '}'. */
  lemma GreedyBraceCut(s: string, i0: nat, j0: nat)
    requires i0 < j0 < |s| && s[i0] == '{' && s[j0] == '}'
    ensures 0 <= Find(s, '{') <= i0 && j0 <= RFind(s, '}')
  {
    var i, j := Find(s, '{'), RFind(s, '}');
    assert s[i0] in s;
    assert s[j0] in s;
  }

  lemma GreedyBraceValue(s: string, i: int, j: int)
    requires i == Find(s, '{') && j == RFind(s, '}') && 0 <= i < j
    ensures GreedyBrace(s) == s[i..j + 1]
  {
  }

  lemma GreedyBraceNone(s: string)
    requires !HasBracedSpan(s)
    ensures GreedyBrace(s) == s
  {
  }

  /** Applying pass 3 twice gives what applying it once does. */
  lemma GreedyBraceIdempotent(s: string)
    ensures GreedyBrace(GreedyBrace(s)) == GreedyBrace(s)
  {
    var i, j := Find(s, '{'), RFind(s, '}');
    if 0 <= i < j {
      var r := s[i..j + 1];
      assert Find(r, '{') == 0;
      var rj := RFind(r, '}');
      assert r[|r| - 1] == s[j];
      assert rj == |r| - 1;
      assert r[0..|r|] == r;
    }
  }

  // ---- Pass 4: single quotes to double quotes, lines 66-67 ----

  /** Lines 66-67: `if '"' not in s: s = s.replace("'", '"')`. */
  function SwapQuotes(s: string): (r: string)
    ensures |r| == |s|
    ensures '"' in s ==> r == s
    ensures '"' !in s ==> '\'' !in r
    ensures '"' !in s ==> forall i :: 0 <= i < |s| && s[i] == '\'' ==> r[i] == '"'
    ensures forall i :: 0 <= i < |s| && s[i] != '\'' ==> r[i] == s[i]
  {
    if '"' in s then s
    else seq(|s|, i requires 0 <= i < |s| => if s[i] == '\'' then '"' else s[i])
  }

  /** A second swap changes nothing: either there were no quotes at all, or now there is a '"'. */
  lemma SwapQuotesIdempotent(s: string)
    ensures SwapQuotes(SwapQuotes(s)) == SwapQuotes(s)
  {
    var r := SwapQuotes(s);
    if '"' !in s && '\'' in s {
      var k :| 0 <= k < |s| && s[k] == '\'';
      assert r[k] == '"';
    }
  }

  // ---- Pass 5: re.sub(r',\s*([}\]])', r'\1', s), line 68 ----

  /** The pattern `,\s*[}\]]` matches at `i`. */
  predicate CommaCloseAt(s: string, i: nat) {
    && i < |s| && s[i] == ','
    && SkipSpace(s, i + 1) < |s|
    && (s[SkipSpace(s, i + 1)] == '}' || s[SkipSpace(s, i + 1)] == ']')
  }

  predicate HasTrailingComma(s: string) {
    exists i :: 0 <= i < |s| && CommaCloseAt(s, i)
  }

  /**
   * Line 68: one left-to-right scan; at each match the comma and the
   * whitespace after it are dropped and the bracket kept, and the scan
   * resumes after the bracket.
   */
  function DropTrailingCommas(s: string): (r: string)
    ensures |r| <= |s|
    decreases |s|
  {
    if s == [] then []
    else if CommaCloseAt(s, 0) then
      var k := SkipSpace(s, 1);
      [s[k]] + DropTrailingCommas(s[k + 1..])
    else [s[0]] + DropTrailingCommas(s[1..])
  }

  lemma {:induction false} SkipSpaceShift(s: string, i: nat)
    requires 1 <= i <= |s|
    ensures SkipSpace(s[1..], i - 1) == SkipSpace(s, i) - 1
    decreases |s| - i
  {
    if i < |s| && IsSpace(s[i]) {
      assert s[1..][i - 1] == s[i];
      SkipSpaceShift(s, i + 1);
    }
  }

  lemma CommaCloseShift(s: string, i: nat)
    requires 1 <= i < |s|
    ensures CommaCloseAt(s[1..], i - 1) == CommaCloseAt(s, i)
  {
    SkipSpaceShift(s, i + 1);
  }

  lemma {:induction false} DropTrailingCommasShrinks(s: string)
    requires HasTrailingComma(s)
    ensures |DropTrailingCommas(s)| < |s|
    decreases |s|
  {
    if !CommaCloseAt(s, 0) {
      var i :| 0 <= i < |s| && CommaCloseAt(s, i);
      CommaCloseShift(s, i);
      DropTrailingCommasShrinks(s[1..]);
    }
  }

  lemma {:induction false} DropTrailingCommasKeeps(s: string)
    requires !HasTrailingComma(s)
    ensures DropTrailingCommas(s) == s
    decreases |s|
  {
    if s != [] {
      assert !CommaCloseAt(s, 0);
      forall i | 0 <= i < |s| - 1 ensures !CommaCloseAt(s[1..], i) {
        CommaCloseShift(s, i + 1);
      }
      DropTrailingCommasKeeps(s[1..]);
    }
  }

  /** Pass 5 changes the text exactly when the pattern occurs in it, and then it gets shorter. */
  lemma DropTrailingCommasChanges(s: string)
    ensures DropTrailingCommas(s) == s <==> !HasTrailingComma(s)
  {
    if HasTrailingComma(s) {
      DropTrailingCommasShrinks(s);
    } else {
      DropTrailingCommasKeeps(s);
    }
  }

  /** What pass 5 deletes: commas and whitespace only. */
  function Visible(s: string): string {
    if s == [] then []
    else (if s[0] == ',' || IsSpace(s[0]) then [] else [s[0]]) + Visible(s[1..])
  }

  lemma {:induction false} VisibleAllSpace(w: string)
    requires AllSpace(w)
    ensures Visible(w) == []
  {
    if w != [] {
      VisibleAllSpace(w[1..]);
    }
  }

  lemma {:induction false} VisibleAppend(a: string, b: string)
    ensures Visible(a + b) == Visible(a) + Visible(b)
  {
    if a == [] {
      assert a + b == b;
    } else {
      assert (a + b)[0] == a[0];
      assert (a + b)[1..] == a[1..] + b;
      VisibleAppend(a[1..], b);
    }
  }

  /** Every character other than a comma or whitespace survives pass 5, in order. */
  lemma {:induction false} DropTrailingCommasVisible(s: string)
    ensures Visible(DropTrailingCommas(s)) == Visible(s)
    decreases |s|
  {
    if s != [] {
      if CommaCloseAt(s, 0) {
        var k := SkipSpace(s, 1);
        SkipSpaceSpan(s, 1);
        assert s == [s[0]] + s[1..k] + ([s[k]] + s[k + 1..]);
        VisibleAppend([s[0]] + s[1..k], [s[k]] + s[k + 1..]);
        VisibleAppend([s[0]], s[1..k]);
        VisibleAllSpace(s[1..k]);
        VisibleAppend([s[k]], s[k + 1..]);
        VisibleAppend([s[k]], DropTrailingCommas(s[k + 1..]));
        DropTrailingCommasVisible(s[k + 1..]);
      } else {
        VisibleAppend([s[0]], s[1..]);
        VisibleAppend([s[0]], DropTrailingCommas(s[1..]));
        DropTrailingCommasVisible(s[1..]);
      }
    }
  }

  /** Pass 5 is not idempotent: in ",,}" only the second comma is followed by the bracket. */
  lemma DropTrailingCommasNotIdempotent(s: string)
    requires s == ",,}"
    ensures DropTrailingCommas(s) == ",}"
    ensures DropTrailingCommas(",}") == "}"
  {
    assert SkipSpace(s, 1) == 1;
    assert !CommaCloseAt(s, 0);
    assert s[1..] == ",}";
    var t := s[1..];
    assert SkipSpace(t, 1) == 1;
    assert CommaCloseAt(t, 0);
    assert t[2..] == [];
  }

  // ---- The chain and validation ----

  /** Lines 59-68 in order: the text handed to `json.loads`. */
  function Normalize(content: string): string {
    DropTrailingCommas(SwapQuotes(GreedyBrace(StripFences(ExtractFenced(content)))))
  }

  /**
   * A strict-JSON object in a "```json" block, surrounded by prose, reaches
   * the parser unchanged.
   */
  lemma FencedJsonNormalizes(pre: string, obj: string, post: string)
    requires NoFence(pre) && NoEarlyClose(obj) && '"' in obj && !HasTrailingComma(obj)
    requires |obj| >= 2 && obj[0] == '{' && obj[|obj| - 1] == '}'
    ensures Normalize(pre + "```json\n" + obj + "\n```" + post) == obj
  {
    assert pre + "```json\n" + obj + "\n```" + post == pre + "```" + "json" + "\n" + obj + "\n" + "```" + post;
    FencedObjectExtracted(pre, "json", "\n", obj, "\n", post);
    BracedUnfenced(obj);
    BracedWhole(obj);
    DropTrailingCommasKeeps(obj);
  }

  /** Text from '{' to '}' has no fence or whitespace to strip. */
  lemma BracedUnfenced(obj: string)
    requires |obj| >= 2 && obj[0] == '{' && obj[|obj| - 1] == '}'
    ensures StripFences(obj) == obj
  {
    assert !FenceAt(obj, 0) && !(|obj| >= 3 && FenceAt(obj, |obj| - 3));
    assert Strip(obj) == obj by {
      assert Stripped(obj);
      StripStripped(obj);
    }
    StripFencesUnfenced(obj);
  }

  /** Text from '{' to '}' is its own greedy span. */
  lemma BracedWhole(obj: string)
    requires |obj| >= 2 && obj[0] == '{' && obj[|obj| - 1] == '}'
    ensures GreedyBrace(obj) == obj
  {
    assert Find(obj, '{') == 0;
    assert RFind(obj, '}') == |obj| - 1;
    assert obj[0..|obj|] == obj;
  }

  /** A value of the parsed JSON: a string, or any other value given by its Python `str()`. */
  datatype Field = Str(s: string) | NonStr(shown: string)

  /** What `json.loads` returned: a dictionary, or some other JSON value. */
  datatype Parsed = Dict(fields: map<string, Field>) | NonDict

  type Record = map<string, Field>

  /** `d.get(key, "")` where a string is needed: None when the value is not a string, so that `.strip()` raises. */
  function StrField(d: Record, key: string): Option<string> {
    if key !in d then Some("")
    else match d[key]
      case Str(v) => Some(v)
      case NonStr(_) => None
  }

  /** `v.strip().lower()`, the normal form both comparisons use. */
  function Folded(v: string): string {
    LowerAscii(Strip(v))
  }

  /** The author placeholders the source rejects. */
  predicate PlaceholderAuthor(a: string) {
    Folded(a) == "unknown" || Folded(a) == "various"
  }

  /** The title placeholder, or a title that is blank once stripped. */
  predicate UnusableTitle(t: string) {
    Folded(t) == "unknown" || Strip(t) == ""
  }

  /**
   * Lines 69-75 after parsing, in the source's order of evaluation: reject
   * (None) on a parse failure, a value without `.get`, a non-string author
   * or title (the exceptions are caught), a placeholder author, or an
   * unusable title; otherwise the dictionary itself.
   */
  function Validate(parsed: Option<Parsed>): Option<Record> {
    match parsed
    case None => None
    case Some(NonDict) => None
    case Some(Dict(d)) =>
      match StrField(d, "author")
      case None => None
      case Some(a) =>
        if PlaceholderAuthor(a) then None
        else match StrField(d, "title")
          case None => None
          case Some(t) => if UnusableTitle(t) then None else Some(d)
  }

  /** The author test: absent, or a string that is no placeholder. */
  predicate AuthorAcceptable(d: Record) {
    "author" !in d || (d["author"].Str? && !PlaceholderAuthor(d["author"].s))
  }

  /** The title test: present, a string, and usable. */
  predicate TitleAcceptable(d: Record) {
    "title" in d && d["title"].Str? && !UnusableTitle(d["title"].s)
  }

  /** An absent author counts as "", which is no placeholder. */
  lemma EmptyIsNoPlaceholder()
    ensures !PlaceholderAuthor("")
  {
    assert Strip("") == [];
  }

  /**
   * Validation returns the parsed dictionary unchanged exactly when both
   * tests pass, and rejects everything else, non-dictionaries and parse
   * failures included.
   */
  lemma ValidateAccepts(parsed: Option<Parsed>)
    ensures Validate(parsed).Some? <==> parsed.Some? && parsed.value.Dict? && AuthorAcceptable(parsed.value.fields) && TitleAcceptable(parsed.value.fields)
    ensures Validate(parsed).Some? ==> Validate(parsed).value == parsed.value.fields
  {
    EmptyIsNoPlaceholder();
    assert UnusableTitle("") by { assert Strip("") == []; }
  }

  /** The publication date is never examined. */
  lemma ValidateIgnoresPubdate(d: Record, v: Field)
    ensures Validate(Some(Dict(d["pubdate" := v]))).Some? == Validate(Some(Dict(d - {"pubdate"}))).Some?
  {
    var d1, d2 := d["pubdate" := v], d - {"pubdate"};
    assert StrField(d1, "author") == StrField(d2, "author");
    assert StrField(d1, "title") == StrField(d2, "title");
  }

  /** An author "unknown" is rejected, whatever the title. */
  lemma UnknownAuthorRejected(d: Record, a: string)
    requires a == "unknown" && "author" in d && d["author"] == Str(a)
    ensures Validate(Some(Dict(d))) == None
  {
    assert Strip(a) == a by { StripStripped(a); }
    assert LowerAscii(a) == a;
  }
}
