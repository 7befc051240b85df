/**
  The subset of JavaScript's `String.prototype.replace` that the integration
  script relies on: a non-global regular expression that is either a literal or
  a chain of literal fragments joined by lazy `[\s\S]*?` gaps, replacing only
  its first (leftmost) match.

  The matcher here takes each fragment at its first occurrence after the
  previous one. The module RegexReference proves that this is what a
  backtracking regular-expression engine returns for such a pattern.
*/
module StringSearch {

  datatype Option<+T> = None | Some(value: T)

  /** The half-open range `[start, end)` of a string that a pattern matched. */
  datatype Span = Span(start: nat, end: nat)

  /**
    A regular expression made of literal fragments joined by `[\s\S]*?`:
    `[a, b, c]` stands for `a[\s\S]*?b[\s\S]*?c`, and `[lit]` for the literal
    expression `lit`.
  */
  type Pattern = seq<string>

  /** `lit` occurs in `s` starting at index `i`, compared character by character. */
  predicate OccursAt(s: string, lit: string, i: nat)
    decreases |s| - i
  {
    i + |lit| <= |s| && (lit == [] || (s[i] == lit[0] && OccursAt(s, lit[1..], i + 1)))
  }

  ghost predicate Contains(s: string, lit: string)
  {
    exists j: nat :: OccursAt(s, lit, j)
  }

  /** The first index at or after `from` where `lit` occurs in `s`. */
  function IndexOf(s: string, lit: string, from: nat): (r: Option<nat>)
    ensures r.Some? ==> from <= r.value && OccursAt(s, lit, r.value)
    ensures forall j: nat :: from <= j && (r.None? || j < r.value) ==> !OccursAt(s, lit, j)
    decreases |s| - from
  {
    if from + |lit| > |s| then None
    else if OccursAt(s, lit, from) then Some(from)
    else IndexOf(s, lit, from + 1)
  }

  /**
    Where a search for the fragments of `pat` ends when each fragment is taken
    at its first occurrence at or after the end of the previous one, starting
    at `from`; `None` when some fragment cannot be found.
  */
  function ChainEnd(s: string, pat: Pattern, from: nat): (r: Option<nat>)
    ensures r.Some? ==> from <= r.value && (pat != [] ==> r.value <= |s|)
    decreases |pat|, |s|
  {
    if pat == [] then Some(from)
    else
      match IndexOf(s, pat[0], from)
      case None => None
      case Some(i) => ChainEnd(s, pat[1..], i + |pat[0]|)
  }

  /**
    The first match of `pat` in `s` at or after `from`: it starts at the first
    occurrence of the first fragment, and each later fragment is taken at its
    first occurrence after the previous one.
  */
  function FindChain(s: string, pat: Pattern, from: nat): (r: Option<Span>)
    requires pat != []
    ensures r.Some? ==>
      && from <= r.value.start <= r.value.end <= |s|
      && OccursAt(s, pat[0], r.value.start)
      && r.value.start + |pat[0]| <= r.value.end
    ensures r.Some? ==> IndexOf(s, pat[0], from) == Some(r.value.start)
  {
    match IndexOf(s, pat[0], from)
    case None => None
    case Some(i) =>
      match ChainEnd(s, pat[1..], i + |pat[0]|)
      case None => None
      case Some(e) => Some(Span(i, e))
  }

  /**
    `s.replace(re, rep)` for a non-global `re` described by `pat`: the first
    match is replaced by `rep`; without a match, `s` comes back unchanged.
  */
  function ReplaceFirst(s: string, pat: Pattern, rep: string): (r: string)
    requires pat != []
    ensures FindChain(s, pat, 0).None? ==> r == s
  {
    match FindChain(s, pat, 0)
    case None => s
    case Some(m) => s[..m.start] + rep + s[m.end..]
  }

  /**
    `s.replace(outer, match => match.replace(inner, rep))`: inside the first
    match of `outer`, the first match of `inner` is replaced by `rep`.
  */
  function ReplaceWithinFirst(s: string, outer: Pattern, inner: Pattern, rep: string): (r: string)
    requires outer != [] && inner != []
    ensures FindChain(s, outer, 0).None? ==> r == s
  {
    match FindChain(s, outer, 0)
    case None => s
    case Some(m) => s[..m.start] + ReplaceFirst(s[m.start..m.end], inner, rep) + s[m.end..]
  }

  /**
    `s.replace(re, match => match + block)` for a literal `re`: `block` is
    inserted right after the first occurrence of `anchor`.
  */
  function InsertAfterFirst(s: string, anchor: string, block: string): (r: string)
    ensures IndexOf(s, anchor, 0).None? ==> r == s
    ensures IndexOf(s, anchor, 0).Some? ==>
      var j := IndexOf(s, anchor, 0).value + |anchor|;
      r == s[..j] + block + s[j..]
  {
    LiteralMatch(s, anchor, 0);
    ReplaceLiteralAppend(s, anchor, block);
    ReplaceFirst(s, [anchor], anchor + block)
  }

  /**
    `s.replace(re, block + anchor)` for a literal `re` matching `anchor`:
    `block` is inserted right before the first occurrence of `anchor`.
  */
  function InsertBeforeFirst(s: string, anchor: string, block: string): (r: string)
    ensures IndexOf(s, anchor, 0).None? ==> r == s
    ensures IndexOf(s, anchor, 0).Some? ==>
      var i := IndexOf(s, anchor, 0).value;
      r == s[..i] + block + s[i..]
  {
    LiteralMatch(s, anchor, 0);
    ReplaceLiteralPrepend(s, anchor, block);
    ReplaceFirst(s, [anchor], block + anchor)
  }

  // ---------------------------------------------------------------------------
  // Lemmas about the matcher
  // ---------------------------------------------------------------------------

  /** `OccursAt` is the same as the slice of `s` at `i` being `lit`. */
  lemma {:induction false} OccursAtSlice(s: string, lit: string, i: nat)
    ensures OccursAt(s, lit, i) <==> i + |lit| <= |s| && s[i..i + |lit|] == lit
    decreases |lit|
  {
    if lit != [] && i + |lit| <= |s| {
      OccursAtSlice(s, lit[1..], i + 1);
      assert s[i..i + |lit|] == [s[i]] + s[i + 1..i + 1 + |lit[1..]|];
      assert lit == [lit[0]] + lit[1..];
    }
  }

  /** A literal pattern matches exactly at the first occurrence of the literal. */
  lemma {:induction false} LiteralMatch(s: string, lit: string, from: nat)
    ensures FindChain(s, [lit], from).None? <==> IndexOf(s, lit, from).None?
    ensures IndexOf(s, lit, from).Some? ==>
      var i := IndexOf(s, lit, from).value;
      FindChain(s, [lit], from) == Some(Span(i, i + |lit|))
  {
    assert [lit][1..] == [];
  }

  /** Replacing the first match of a literal replaces its first occurrence, and nothing else. */
  lemma {:induction false} ReplaceLiteral(s: string, lit: string, rep: string)
    requires IndexOf(s, lit, 0).Some?
    ensures var i := IndexOf(s, lit, 0).value;
      && i + |lit| <= |s| && s[i..i + |lit|] == lit
      && ReplaceFirst(s, [lit], rep) == s[..i] + rep + s[i + |lit|..]
  {
    LiteralMatch(s, lit, 0);
    OccursAtSlice(s, lit, IndexOf(s, lit, 0).value);
  }

  /** Replacing the first occurrence of a literal by itself followed by `block` inserts `block` right after it. */
  lemma {:induction false} ReplaceLiteralAppend(s: string, lit: string, block: string)
    ensures IndexOf(s, lit, 0).Some? ==>
      var j := IndexOf(s, lit, 0).value + |lit|;
      ReplaceFirst(s, [lit], lit + block) == s[..j] + block + s[j..]
  {
    if IndexOf(s, lit, 0).Some? {
      var i := IndexOf(s, lit, 0).value;
      ReplaceLiteral(s, lit, lit + block);
      assert s[..i] + lit == s[..i + |lit|];
    }
  }

  /** Replacing the first occurrence of a literal by `block` followed by itself inserts `block` right before it. */
  lemma {:induction false} ReplaceLiteralPrepend(s: string, lit: string, block: string)
    ensures IndexOf(s, lit, 0).Some? ==>
      var i := IndexOf(s, lit, 0).value;
      ReplaceFirst(s, [lit], block + lit) == s[..i] + block + s[i..]
  {
    if IndexOf(s, lit, 0).Some? {
      var i := IndexOf(s, lit, 0).value;
      ReplaceLiteral(s, lit, block + lit);
      assert s[i..] == lit + s[i + |lit|..];
    }
  }

  /** A match is found exactly when the chain search completes, and it ends where the search ends. */
  lemma {:induction false} FindChainEnd(s: string, pat: Pattern, from: nat)
    requires pat != []
    ensures FindChain(s, pat, from).Some? <==> ChainEnd(s, pat, from).Some?
    ensures FindChain(s, pat, from).Some? ==> FindChain(s, pat, from).value.end == ChainEnd(s, pat, from).value
  {
  }

  /** No occurrence at or after `from` is the same as `IndexOf` finding nothing. */
  lemma {:induction false} IndexOfNoneIffAbsent(s: string, lit: string)
    ensures IndexOf(s, lit, 0).None? <==> !Contains(s, lit)
  {
    if IndexOf(s, lit, 0).Some? {
      assert OccursAt(s, lit, IndexOf(s, lit, 0).value);
    }
  }

  /** The contract of `IndexOf` pins down its result. */
  lemma {:induction false} IndexOfIsFirst(s: string, lit: string, from: nat, i: nat)
    requires from <= i && OccursAt(s, lit, i)
    requires forall j: nat :: from <= j < i ==> !OccursAt(s, lit, j)
    ensures IndexOf(s, lit, from) == Some(i)
  {
  }

  /**
    Text that agrees with `s` up to the end of the first occurrence of `lit`
    has its first occurrence at the same place: edits that lie after an anchor
    do not move the anchor.
  */
  lemma {:induction false} IndexOfCommonPrefix(s: string, t: string, lit: string, from: nat)
    requires IndexOf(s, lit, from).Some?
    requires var e := IndexOf(s, lit, from).value + |lit|; e <= |t| && s[..e] == t[..e]
    ensures IndexOf(t, lit, from) == IndexOf(s, lit, from)
  {
    var i := IndexOf(s, lit, from).value;
    var e := i + |lit|;
    OccursAtSlice(s, lit, i);
    OccursAtSlice(t, lit, i);
    assert t[i..e] == s[..e][i..e] == s[i..e];
    forall j: nat | from <= j < i
      ensures !OccursAt(t, lit, j)
    {
      assert !OccursAt(s, lit, j);
      OccursAtSlice(s, lit, j);
      OccursAtSlice(t, lit, j);
      if j + |lit| <= e {
        assert t[j..j + |lit|] == s[..e][j..j + |lit|] == s[j..j + |lit|];
      }
    }
    IndexOfIsFirst(t, lit, from, i);
  }

  /** Starting later never finds an earlier occurrence. */
  lemma {:induction false} IndexOfMonotone(s: string, lit: string, p: nat, q: nat)
    requires p <= q && IndexOf(s, lit, q).Some?
    ensures IndexOf(s, lit, p).Some? && IndexOf(s, lit, p).value <= IndexOf(s, lit, q).value
  {
    assert OccursAt(s, lit, IndexOf(s, lit, q).value);
  }

  /**
    Starting the chain search later never ends it earlier; in particular, a
    chain that cannot be completed from `p` cannot be completed from any later
    position either.
  */
  lemma {:induction false} ChainEndMonotone(s: string, pat: Pattern, p: nat, q: nat)
    requires p <= q && ChainEnd(s, pat, q).Some?
    ensures ChainEnd(s, pat, p).Some? && ChainEnd(s, pat, p).value <= ChainEnd(s, pat, q).value
    decreases |pat|
  {
    if pat != [] {
      IndexOfMonotone(s, pat[0], p, q);
      var i := IndexOf(s, pat[0], p).value;
      var i' := IndexOf(s, pat[0], q).value;
      ChainEndMonotone(s, pat[1..], i + |pat[0]|, i' + |pat[0]|);
    }
  }

  /** Once the chain has been completed, the search for any leading part of it completes no later. */
  lemma {:induction false} ChainEndPrefix(s: string, pat: Pattern, from: nat, l: nat)
    requires l <= |pat| && ChainEnd(s, pat, from).Some?
    ensures ChainEnd(s, pat[..l], from).Some?
    ensures ChainEnd(s, pat[..l], from).value <= ChainEnd(s, pat, from).value
    decreases |pat|
  {
    if l > 0 {
      var i := IndexOf(s, pat[0], from).value;
      assert pat[..l][0] == pat[0];
      assert pat[..l][1..] == pat[1..][..l - 1];
      ChainEndPrefix(s, pat[1..], i + |pat[0]|, l - 1);
    }
  }

  /** A completed chain search passes through a point from which its trailing part completes at the same end. */
  lemma {:induction false} ChainEndSuffix(s: string, pat: Pattern, from: nat, k: nat) returns (q: nat)
    requires k <= |pat| && ChainEnd(s, pat, from).Some?
    ensures from <= q && ChainEnd(s, pat[k..], q) == ChainEnd(s, pat, from)
    decreases k
  {
    if k == 0 {
      assert pat[k..] == pat;
      q := from;
    } else {
      var i := IndexOf(s, pat[0], from).value;
      assert pat[1..][k - 1..] == pat[k..];
      q := ChainEndSuffix(s, pat[1..], i + |pat[0]|, k - 1);
    }
  }

  /** An occurrence inside the window `s[a..b]` is an occurrence in `s`, shifted by `a`. */
  lemma {:induction false} OccursInWindow(s: string, a: nat, b: nat, lit: string, j: nat)
    requires a <= b <= |s| && a + j + |lit| <= b
    ensures OccursAt(s[a..b], lit, j) <==> OccursAt(s, lit, a + j)
    decreases |lit|
  {
    if lit != [] {
      assert s[a..b][j] == s[a + j];
      OccursInWindow(s, a, b, lit[1..], j + 1);
    }
  }

  /** A first occurrence that ends inside the window `s[a..b]` is the window's first occurrence too. */
  lemma {:induction false} IndexOfWindow(s: string, a: nat, b: nat, lit: string, p: nat)
    requires a <= b <= |s|
    requires IndexOf(s, lit, a + p).Some? && IndexOf(s, lit, a + p).value + |lit| <= b
    ensures IndexOf(s[a..b], lit, p) == Some(IndexOf(s, lit, a + p).value - a)
  {
    var i := IndexOf(s, lit, a + p).value;
    OccursInWindow(s, a, b, lit, i - a);
    forall j: nat | p <= j < i - a
      ensures !OccursAt(s[a..b], lit, j)
    {
      assert !OccursAt(s, lit, a + j);
      OccursInWindow(s, a, b, lit, j);
    }
    IndexOfIsFirst(s[a..b], lit, p, i - a);
  }

  /**
    When a chain completes in `s` from `a + p` and ends by `b`, the same chain
    completes from `p` in the window `s[a..b]`, at the same place shifted by `a`.
  */
  lemma {:induction false} ChainEndWindow(s: string, a: nat, b: nat, pat: Pattern, p: nat)
    requires a <= b <= |s|
    requires ChainEnd(s, pat, a + p).Some? && ChainEnd(s, pat, a + p).value <= b
    ensures ChainEnd(s[a..b], pat, p) == Some(ChainEnd(s, pat, a + p).value - a)
    decreases |pat|
  {
    if pat != [] {
      var f := pat[0];
      var i := IndexOf(s, f, a + p).value;
      assert ChainEnd(s, pat, a + p) == ChainEnd(s, pat[1..], i + |f|);
      IndexOfWindow(s, a, b, f, p);
      ChainEndWindow(s, a, b, pat[1..], i - a + |f|);
    }
  }

  /** The same as `ChainEndWindow`, for the whole match of a pattern. */
  lemma {:induction false} FindChainWindow(s: string, a: nat, b: nat, pat: Pattern, p: nat)
    requires pat != [] && a <= b <= |s|
    requires FindChain(s, pat, a + p).Some? && FindChain(s, pat, a + p).value.end <= b
    ensures var n := FindChain(s, pat, a + p).value;
      FindChain(s[a..b], pat, p) == Some(Span(n.start - a, n.end - a))
  {
    FindChainEnd(s, pat, a + p);
    FindChainEnd(s[a..b], pat, p);
    ChainEndWindow(s, a, b, pat, p);
    IndexOfWindow(s, a, b, pat[0], p);
  }

  /**
    When `inner` is a run of consecutive fragments of `outer`, the first match
    of `inner` at or after the start of the first match `m` of `outer` exists
    and lies within `m`.
  */
  lemma {:induction false} InnerMatchWithinOuter(s: string, outer: Pattern, inner: Pattern, k: nat)
    requires outer != [] && inner != []
    requires k + |inner| <= |outer| && outer[k..k + |inner|] == inner
    requires FindChain(s, outer, 0).Some?
    ensures var m := FindChain(s, outer, 0).value;
      && FindChain(s, inner, m.start).Some?
      && m.start <= FindChain(s, inner, m.start).value.start
      && FindChain(s, inner, m.start).value.end <= m.end
  {
    var m := FindChain(s, outer, 0).value;
    FindChainEnd(s, outer, 0);
    FindChainEnd(s, inner, m.start);
    // The outer chain, searched from its own start, ends where the match ends.
    IndexOfIsFirst(s, outer[0], m.start, m.start);
    assert ChainEnd(s, outer, m.start) == ChainEnd(s, outer[1..], m.start + |outer[0]|);
    // Its run `inner` completes from some point q after m.start, no later than m.end.
    var q := ChainEndSuffix(s, outer, m.start, k);
    ChainEndPrefix(s, outer[k..], q, |inner|);
    assert outer[k..][..|inner|] == inner;
    ChainEndMonotone(s, inner, m.start, q);
  }

  /**
    The effect of `ReplaceWithinFirst` when `inner` is a run of consecutive
    fragments of `outer`: inside the first match `m` of `outer`, the first match
    `n` of `inner` at or after `m.start` always exists and lies within `m`, and
    exactly that span of `s` is replaced by `rep`; everything before and after
    it is kept.
  */
  lemma {:induction false} ReplaceWithinEffect(s: string, outer: Pattern, inner: Pattern, rep: string, k: nat)
    requires outer != [] && inner != []
    requires k + |inner| <= |outer| && outer[k..k + |inner|] == inner
    requires FindChain(s, outer, 0).Some?
    ensures var m := FindChain(s, outer, 0).value;
      && FindChain(s, inner, m.start).Some?
      && var n := FindChain(s, inner, m.start).value;
      && m.start <= n.start <= n.end <= m.end
      && ReplaceWithinFirst(s, outer, inner, rep) == s[..n.start] + rep + s[n.end..]
  {
    InnerMatchWithinOuter(s, outer, inner, k);
    var m := FindChain(s, outer, 0).value;
    ReplaceWithinSplice(s, outer, inner, rep, m, FindChain(s, inner, m.start).value);
  }

  /** Replacing the first match of `inner` inside the window of `m` is replacing the span `n` of `s`. */
  lemma {:induction false} ReplaceWithinSplice(s: string, outer: Pattern, inner: Pattern, rep: string, m: Span, n: Span)
    requires outer != [] && inner != []
    requires FindChain(s, outer, 0) == Some(m) && m.start <= n.start <= n.end <= m.end
    requires FindChain(s, inner, m.start) == Some(n)
    ensures ReplaceWithinFirst(s, outer, inner, rep) == s[..n.start] + rep + s[n.end..]
  {
    var mid := ReplaceFirst(s[m.start..m.end], inner, rep);
    var r := ReplaceWithinFirst(s, outer, inner, rep);
    assert r == s[..m.start] + mid + s[m.end..] by {
      UnfoldReplaceWithin(s, outer, inner, rep, m);
    }
    assert mid == s[m.start..n.start] + rep + s[n.end..m.end] by {
      WindowReplace(s, m.start, m.end, inner, rep, n);
    }
    SpliceInWindow(s, m.start, m.end, n.start, n.end, rep, mid, r);
  }

  lemma {:induction false} UnfoldReplaceWithin(s: string, outer: Pattern, inner: Pattern, rep: string, m: Span)
    requires outer != [] && inner != [] && FindChain(s, outer, 0) == Some(m)
    ensures ReplaceWithinFirst(s, outer, inner, rep) == s[..m.start] + ReplaceFirst(s[m.start..m.end], inner, rep) + s[m.end..]
  {
  }

  /** The first match of `inner` in `s` from `a`, when it ends by `b`, is what the window `s[a..b]` replaces. */
  lemma {:induction false} WindowReplace(s: string, a: nat, b: nat, inner: Pattern, rep: string, n: Span)
    requires inner != [] && a <= n.start <= n.end <= b <= |s|
    requires FindChain(s, inner, a) == Some(n)
    ensures ReplaceFirst(s[a..b], inner, rep) == s[a..n.start] + rep + s[n.end..b]
  {
    var w := s[a..b];
    FindChainWindow(s, a, b, inner, 0);
    ReplaceFirstAt(w, inner, rep, n.start - a, n.end - a);
    assert w[..n.start - a] == s[a..n.start];
    assert w[n.end - a..] == s[n.end..b];
  }

  lemma {:induction false} ReplaceFirstAt(t: string, pat: Pattern, rep: string, x: nat, y: nat)
    requires pat != [] && FindChain(t, pat, 0) == Some(Span(x, y))
    ensures ReplaceFirst(t, pat, rep) == t[..x] + rep + t[y..]
  {
  }

  /** Replacing `[i, j)` inside the window `s[a..b]` and splicing the window back replaces `[i, j)` in `s`. */
  lemma {:induction false} SpliceInWindow(s: string, a: nat, b: nat, i: nat, j: nat, rep: string, mid: string, r: string)
    requires a <= i <= j <= b <= |s|
    requires mid == s[a..i] + rep + s[j..b]
    requires r == s[..a] + mid + s[b..]
    ensures r == s[..i] + rep + s[j..]
  {
    assert s[..a] + s[a..i] == s[..i];
    assert s[j..b] + s[b..] == s[j..];
  }

  // ---------------------------------------------------------------------------
  // Composing edits
  // ---------------------------------------------------------------------------

  /** Inserting after an anchor leaves the anchor's first occurrence where it was. */
  lemma {:induction false} InsertAfterKeepsAnchor(s: string, anchor: string, block: string)
    requires IndexOf(s, anchor, 0).Some?
    ensures IndexOf(InsertAfterFirst(s, anchor, block), anchor, 0) == IndexOf(s, anchor, 0)
  {
    var j := IndexOf(s, anchor, 0).value + |anchor|;
    var t := InsertAfterFirst(s, anchor, block);
    assert t[..j] == s[..j];
    IndexOfCommonPrefix(s, t, anchor, 0);
  }

  /**
    Two insertions after the same anchor: the second block lands between the
    anchor and the first block.
  */
  lemma {:induction false} InsertAfterTwice(s: string, anchor: string, first: string, second: string)
    requires IndexOf(s, anchor, 0).Some?
    ensures var j := IndexOf(s, anchor, 0).value + |anchor|;
      InsertAfterFirst(InsertAfterFirst(s, anchor, first), anchor, second) == s[..j] + second + first + s[j..]
  {
    var j := IndexOf(s, anchor, 0).value + |anchor|;
    InsertAfterKeepsAnchor(s, anchor, first);
    ConcatParts(s[..j], first, s[j..]);
  }

  /** The two ends of a concatenation `x + y + z`, cut at the end of `x`. */
  lemma {:induction false} ConcatParts(x: string, y: string, z: string)
    ensures (x + y + z)[..|x|] == x && (x + y + z)[|x|..] == y + z
  {
    assert (x + y + z)[|x|..] == y + z;
  }

  /**
    Inserting before an anchor keeps the anchor, so a second insertion finds it
    again and the block is inserted twice.
  */
  lemma {:induction false} InsertBeforeTwice(s: string, anchor: string, block: string)
    requires IndexOf(s, anchor, 0).Some?
    ensures |InsertBeforeFirst(InsertBeforeFirst(s, anchor, block), anchor, block)| == |s| + 2 * |block|
  {
    var i := IndexOf(s, anchor, 0).value;
    var once := InsertBeforeFirst(s, anchor, block);
    var q := i + |block|;
    OccursAtSlice(s, anchor, i);
    assert once[q..] == s[i..];
    OccursAtSlice(once, anchor, q);
    assert once[q..q + |anchor|] == s[i..i + |anchor|];
  }

  // ---------------------------------------------------------------------------
  // Keeping an anchor and the text after it
  // ---------------------------------------------------------------------------

  /** The first occurrence of `anchor` in `s` is immediately followed by `block`. */
  predicate AnchorThen(s: string, anchor: string, block: string)
  {
    IndexOf(s, anchor, 0).Some? && anchor + block <= s[IndexOf(s, anchor, 0).value..]
  }

  /**
    `rep` cannot take part in an occurrence of `anchor`, whatever surrounds it:
    some character of `anchor` never appears in `rep`, the last character of
    `anchor` is not among the first `|anchor| - 1` characters of `rep`, and the
    last character of `rep` is not among the first `|anchor| - 1` characters of
    `anchor`.
  */
  predicate Unanchored(anchor: string, rep: string)
  {
    && 0 < |anchor| <= |rep|
    && (exists q :: 0 <= q < |anchor| && anchor[q] !in rep)
    && anchor[|anchor| - 1] !in rep[..|anchor| - 1]
    && rep[|rep| - 1] !in anchor[..|anchor| - 1]
  }

  /** No occurrence of `anchor` in `x + rep + y` overlaps an `Unanchored` `rep`. */
  lemma {:induction false} UnanchoredNoOverlap(x: string, rep: string, y: string, anchor: string, j: nat)
    requires Unanchored(anchor, rep)
    requires j < |x| + |rep| && |x| < j + |anchor|
    ensures !OccursAt(x + rep + y, anchor, j)
  {
    var t := x + rep + y;
    var n := |anchor|;
    OccursAtSlice(t, anchor, j);
    if j + n <= |t| {
      if j < |x| {
        // The occurrence would end inside the first `n - 1` characters of `rep`.
        var k := j + n - 1 - |x|;
        assert t[j..j + n][n - 1] == t[j + n - 1] == rep[k] == rep[..n - 1][k];
      } else if j + n <= |x| + |rep| {
        // The occurrence would lie inside `rep`.
        var q :| 0 <= q < n && anchor[q] !in rep;
        assert t[j..j + n][q] == t[j + q] == rep[j - |x| + q];
      } else {
        // The occurrence would start inside `rep` and run past its last character.
        var k := |x| + |rep| - 1 - j;
        assert t[j..j + n][k] == t[j + k] == rep[|rep| - 1];
        assert anchor[..n - 1][k] == anchor[k];
      }
    }
  }

  /** Replacing a span that lies wholly after `block` keeps the first `anchor` followed by `block`. */
  lemma {:induction false} SpliceAfterKeepsAnchorThen(s: string, a: nat, c: nat, rep: string, anchor: string, block: string)
    requires a <= c <= |s| && AnchorThen(s, anchor, block)
    requires IndexOf(s, anchor, 0).value + |anchor| + |block| <= a
    ensures AnchorThen(s[..a] + rep + s[c..], anchor, block)
  {
    var i := IndexOf(s, anchor, 0).value;
    var e := i + |anchor| + |block|;
    var t := s[..a] + rep + s[c..];
    assert t[..a] == s[..a];
    assert t[..e] == s[..e] by {
      assert t[..e] == t[..a][..e];
      assert s[..e] == s[..a][..e];
    }
    assert t[..i + |anchor|] == s[..i + |anchor|] by {
      assert t[..i + |anchor|] == t[..e][..i + |anchor|];
      assert s[..i + |anchor|] == s[..e][..i + |anchor|];
    }
    IndexOfCommonPrefix(s, t, anchor, 0);
    assert t[i..][..e - i] == t[..e][i..] == s[..e][i..] == s[i..][..e - i];
  }

  /**
    Replacing a span that lies wholly before the first `anchor` by an
    `Unanchored` text moves that anchor, and the `block` after it, by the
    change in length; no earlier occurrence appears.
  */
  lemma {:induction false} SpliceBeforeKeepsAnchorThen(s: string, a: nat, c: nat, rep: string, anchor: string, block: string)
    requires a <= c <= |s| && AnchorThen(s, anchor, block)
    requires c <= IndexOf(s, anchor, 0).value && Unanchored(anchor, rep)
    ensures AnchorThen(s[..a] + rep + s[c..], anchor, block)
  {
    var i := IndexOf(s, anchor, 0).value;
    var t := s[..a] + rep + s[c..];
    var i' := a + |rep| + (i - c);
    assert t[i'..] == s[i..] by {
      assert t[a + |rep|..] == s[c..];
      assert t[i'..] == t[a + |rep|..][i - c..];
    }
    OccursAtSlice(s, anchor, i);
    OccursAtSlice(t, anchor, i');
    forall j: nat | j < i'
      ensures !OccursAt(t, anchor, j)
    {
      SpliceBeforeNoEarlier(s, a, c, rep, anchor, j);
    }
    IndexOfIsFirst(t, anchor, 0, i');
  }

  /** The step of `SpliceBeforeKeepsAnchorThen` for one position before the moved anchor. */
  lemma {:induction false} SpliceBeforeNoEarlier(s: string, a: nat, c: nat, rep: string, anchor: string, j: nat)
    requires a <= c <= |s| && IndexOf(s, anchor, 0).Some?
    requires c <= IndexOf(s, anchor, 0).value && Unanchored(anchor, rep)
    requires j < a + |rep| + (IndexOf(s, anchor, 0).value - c)
    ensures !OccursAt(s[..a] + rep + s[c..], anchor, j)
  {
    var i := IndexOf(s, anchor, 0).value;
    var t := s[..a] + rep + s[c..];
    var n := |anchor|;
    OccursAtSlice(t, anchor, j);
    if j + n <= a {
      // Inside the kept prefix, before the first anchor of `s`.
      assert !OccursAt(s, anchor, j);
      OccursAtSlice(s, anchor, j);
      assert t[j..j + n] == t[..a][j..j + n] == s[..a][j..j + n] == s[j..j + n];
    } else if a + |rep| <= j {
      // Inside the kept suffix, which is `s` from `c` on, before the first anchor of `s`.
      var j' := j - a - |rep| + c;
      assert !OccursAt(s, anchor, j');
      OccursAtSlice(s, anchor, j');
      assert t[a + |rep|..] == s[c..];
      if j + n <= |t| {
        assert t[j..j + n] == t[a + |rep|..][j - a - |rep|..j - a - |rep| + n] == s[c..][j' - c..j' - c + n] == s[j'..j' + n];
      }
    } else {
      UnanchoredNoOverlap(s[..a], rep, s[c..], anchor, j);
    }
  }

  /** An anchor that occurs in `s` is followed by the empty block. */
  lemma {:induction false} AnchorThenFound(s: string, anchor: string)
    requires IndexOf(s, anchor, 0).Some?
    ensures AnchorThen(s, anchor, [])
  {
    OccursAtSlice(s, anchor, IndexOf(s, anchor, 0).value);
  }

  /**
    Inserting `block` after the first `anchor`, which is followed by `rest`,
    leaves that anchor first and followed by `block` and then `rest`.
  */
  lemma {:induction false} InsertAfterAnchorThen(s: string, anchor: string, block: string, rest: string)
    requires AnchorThen(s, anchor, rest)
    ensures AnchorThen(InsertAfterFirst(s, anchor, block), anchor, block + rest)
  {
    var i := IndexOf(s, anchor, 0).value;
    var j := i + |anchor|;
    var t := InsertAfterFirst(s, anchor, block);
    InsertAfterKeepsAnchor(s, anchor, block);
    assert s[i..j] == anchor && s[j..][..|rest|] == rest by {
      assert s[i..j] == s[i..][..|anchor|] == (anchor + rest)[..|anchor|];
      assert s[j..][..|rest|] == s[i..][|anchor|..|anchor| + |rest|] == (anchor + rest)[|anchor|..];
    }
    assert t[i..] == anchor + block + s[j..] by {
      assert t == s[..i] + s[i..j] + block + s[j..];
    }
    assert (anchor + block + s[j..])[..|anchor| + |block| + |rest|] == anchor + block + rest;
  }

  /**
    The span that `ReplaceWithinFirst(s, outer, inner, rep)` replaces lies
    wholly after the `block` that follows the first `anchor`, or wholly before
    that anchor with an `Unanchored` replacement; or nothing is replaced.
  */
  predicate SpanClear(s: string, outer: Pattern, inner: Pattern, rep: string, anchor: string, block: string)
    requires outer != [] && inner != []
  {
    match FindChain(s, outer, 0)
    case None => true
    case Some(m) =>
      match FindChain(s, inner, m.start)
      case None => true
      case Some(n) =>
        match IndexOf(s, anchor, 0)
        case None => true
        case Some(i) => (n.end <= i && Unanchored(anchor, rep)) || i + |anchor| + |block| <= n.start
  }

  /** A nested replacement that is `SpanClear` keeps the first `anchor` followed by `block`. */
  lemma {:induction false} ReplaceWithinKeepsAnchorThen(s: string, outer: Pattern, inner: Pattern, rep: string, k: nat, anchor: string, block: string)
    requires outer != [] && inner != []
    requires k + |inner| <= |outer| && outer[k..k + |inner|] == inner
    requires AnchorThen(s, anchor, block) && SpanClear(s, outer, inner, rep, anchor, block)
    ensures AnchorThen(ReplaceWithinFirst(s, outer, inner, rep), anchor, block)
  {
    if FindChain(s, outer, 0).Some? {
      ReplaceWithinEffect(s, outer, inner, rep, k);
      var m := FindChain(s, outer, 0).value;
      var n := FindChain(s, inner, m.start).value;
      if n.end <= IndexOf(s, anchor, 0).value && Unanchored(anchor, rep) {
        SpliceBeforeKeepsAnchorThen(s, n.start, n.end, rep, anchor, block);
      } else {
        SpliceAfterKeepsAnchorThen(s, n.start, n.end, rep, anchor, block);
      }
    }
  }
}
