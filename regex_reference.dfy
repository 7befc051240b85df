/**
  A reference semantics for the regular expressions of `StringSearch`, written
  the way a backtracking engine such as JavaScript's runs them: the engine tries
  each start position from left to right; at a start position the first
  fragment must match exactly there, and each `[\s\S]*?` gap tries the shortest
  length first, growing only when the rest of the pattern cannot be matched.

  The theorems below show that `StringSearch.ChainEnd` and
  `StringSearch.FindChain`, which simply take every fragment at its first
  occurrence, compute exactly what this engine computes.
*/
module RegexReference {
  import opened StringSearch

  /**
    The end of the match of the gaps-and-fragments `[\s\S]*?pat[0][\s\S]*?pat[1]...`
    starting at `at`, trying the shortest first gap first and backtracking into
    a longer one when the rest of the pattern fails.
  */
  function LazyEnd(s: string, pat: Pattern, at: nat): (r: Option<nat>)
    ensures r.Some? ==> at <= r.value
    ensures r.Some? && pat != [] ==> r.value <= |s|
    decreases |pat|, |s| - at
  {
    if pat == [] then Some(at)
    else if at + |pat[0]| > |s| then None
    else if OccursAt(s, pat[0], at) && LazyEnd(s, pat[1..], at + |pat[0]|).Some? then
      LazyEnd(s, pat[1..], at + |pat[0]|)
    else LazyEnd(s, pat, at + 1)
  }

  /** The end of a match of `pat` anchored at `at`: its first fragment must start exactly there. */
  function Anchored(s: string, pat: Pattern, at: nat): (r: Option<nat>)
    requires pat != []
    ensures r.Some? ==> OccursAt(s, pat[0], at) && at + |pat[0]| <= r.value <= |s|
  {
    if OccursAt(s, pat[0], at) then LazyEnd(s, pat[1..], at + |pat[0]|) else None
  }

  /** The leftmost match of `pat` that starts at or after `from`. */
  function Search(s: string, pat: Pattern, from: nat): (r: Option<Span>)
    requires pat != []
    ensures r.Some? ==> from <= r.value.start <= r.value.end <= |s|
    ensures r.Some? ==> Anchored(s, pat, r.value.start) == Some(r.value.end)
    decreases |s| + 1 - from
  {
    if from > |s| then None
    else
      match Anchored(s, pat, from)
      case Some(e) => Some(Span(from, e))
      case None => Search(s, pat, from + 1)
  }

  /** Backtracking over lazy gaps ends exactly where the first-occurrence chain search ends. */
  lemma {:induction false} LazyEndIsChainEnd(s: string, pat: Pattern, at: nat)
    ensures LazyEnd(s, pat, at) == ChainEnd(s, pat, at)
    decreases |pat|, |s| - at
  {
    if pat != [] && at + |pat[0]| <= |s| {
      var f := pat[0];
      LazyEndIsChainEnd(s, pat[1..], at + |f|);
      LazyEndIsChainEnd(s, pat, at + 1);
      if OccursAt(s, f, at) {
        assert ChainEnd(s, pat, at) == ChainEnd(s, pat[1..], at + |f|);
        if ChainEnd(s, pat[1..], at + |f|).None? {
          LaterChainFails(s, pat, at);
        }
      } else {
        assert IndexOf(s, f, at) == IndexOf(s, f, at + 1);
      }
    }
  }

  /**
    When the first fragment occurs at `at` but the rest of the chain cannot be
    completed after it, no later start completes the chain either.
  */
  lemma {:induction false} LaterChainFails(s: string, pat: Pattern, at: nat)
    requires pat != [] && OccursAt(s, pat[0], at)
    requires ChainEnd(s, pat[1..], at + |pat[0]|).None?
    ensures ChainEnd(s, pat, at + 1).None?
  {
    match IndexOf(s, pat[0], at + 1)
    case None =>
    case Some(i) =>
      NoneMonotone(s, pat[1..], at + |pat[0]|, i + |pat[0]|);
  }

  /** A chain that cannot be completed from `p` cannot be completed from a later position. */
  lemma {:induction false} NoneMonotone(s: string, pat: Pattern, p: nat, q: nat)
    requires p <= q && ChainEnd(s, pat, p).None?
    ensures ChainEnd(s, pat, q).None?
  {
    if ChainEnd(s, pat, q).Some? {
      ChainEndMonotone(s, pat, p, q);
    }
  }

  /**
    One step of the search for a match: either the match starts at `from`, or
    it is the match found from `from + 1`.
  */
  lemma {:induction false} FindChainStep(s: string, pat: Pattern, from: nat)
    requires pat != []
    ensures OccursAt(s, pat[0], from) && ChainEnd(s, pat[1..], from + |pat[0]|).Some? ==>
      FindChain(s, pat, from) == Some(Span(from, ChainEnd(s, pat[1..], from + |pat[0]|).value))
    ensures !(OccursAt(s, pat[0], from) && ChainEnd(s, pat[1..], from + |pat[0]|).Some?) ==>
      FindChain(s, pat, from) == FindChain(s, pat, from + 1)
  {
    var f := pat[0];
    if !OccursAt(s, f, from) {
      assert IndexOf(s, f, from) == IndexOf(s, f, from + 1);
    } else if ChainEnd(s, pat[1..], from + |f|).None? {
      LaterChainFails(s, pat, from);
      FindChainEnd(s, pat, from + 1);
    }
  }

  /** An anchored match is the chain search started right after the first fragment. */
  lemma {:induction false} AnchoredIsChain(s: string, pat: Pattern, at: nat)
    requires pat != []
    ensures Anchored(s, pat, at) ==
      if OccursAt(s, pat[0], at) then ChainEnd(s, pat[1..], at + |pat[0]|) else None
  {
    LazyEndIsChainEnd(s, pat[1..], at + |pat[0]|);
  }

  /** One step of the engine: a match anchored at `from` wins, otherwise the search moves on. */
  lemma {:induction false} SearchStep(s: string, pat: Pattern, from: nat)
    requires pat != [] && from <= |s|
    ensures Anchored(s, pat, from).Some? ==> Search(s, pat, from) == Some(Span(from, Anchored(s, pat, from).value))
    ensures Anchored(s, pat, from).None? ==> Search(s, pat, from) == Search(s, pat, from + 1)
  {
  }

  /** The leftmost backtracking match is the match `FindChain` computes. */
  lemma {:induction false} SearchIsFindChain(s: string, pat: Pattern, from: nat)
    requires pat != []
    ensures Search(s, pat, from) == FindChain(s, pat, from)
    decreases |s| + 1 - from
  {
    if from <= |s| {
      SearchIsFindChain(s, pat, from + 1);
      AnchoredIsChain(s, pat, from);
      SearchStep(s, pat, from);
      FindChainStep(s, pat, from);
    } else {
      assert IndexOf(s, pat[0], from).None?;
    }
  }
}
