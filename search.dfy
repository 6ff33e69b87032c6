/** The threshold rule shared by the monster search and the item search
    (app.py:118-134 and app.py:142-160). The fuzzy matcher's ranked list, best
    first, is an input: when it is non-empty and its top score is at least 80,
    every match scoring at least 60 is shown, in ranked order; otherwise nothing
    is shown and every match is offered as a suggestion. */
module Search {

  /** The top score that makes a query a close match. */
  const CloseMatch: int := 80

  /** The score a ranked match needs to be shown once the query is a close match. */
  const ShownScore: int := 60

  /** One ranked candidate: a name and its similarity score. */
  datatype Match = Match(name: string, score: int)

  /** What a search reports: the matches whose tables are shown, or the
      suggestions listed after "No close matches". */
  datatype Selection = Shown(matches: seq<Match>) | NoCloseMatch(suggestions: seq<Match>)

  /** The matches of `ms` scoring at least `threshold`, in their order in `ms`. */
  function AtLeast(ms: seq<Match>, threshold: int): seq<Match> {
    if ms == [] then []
    else
      var last := ms[|ms| - 1];
      var init := AtLeast(ms[..|ms| - 1], threshold);
      if last.score >= threshold then init + [last] else init
  }

  /** The selection the searches make from a ranked list. */
  function Selected(ranked: seq<Match>): Selection {
    if |ranked| > 0 && ranked[0].score >= CloseMatch then Shown(AtLeast(ranked, ShownScore))
    else NoCloseMatch(ranked)
  }

  /** The branch of `search_monster`/`search_item` on the ranked list, with its
      loop over the matches that keeps those scoring at least 60. */
  method Select(ranked: seq<Match>) returns (sel: Selection)
    ensures sel == Selected(ranked)
  {
    if |ranked| > 0 && ranked[0].score >= CloseMatch {
      var shown := [];
      for i := 0 to |ranked|
        invariant shown == AtLeast(ranked[..i], ShownScore)
      {
        assert ranked[..i + 1][..i] == ranked[..i];
        if ranked[i].score >= ShownScore {
          shown := shown + [ranked[i]];
        }
      }
      assert ranked[..|ranked|] == ranked;
      sel := Shown(shown);
    } else {
      sel := NoCloseMatch(ranked);
    }
  }

  /** A match is kept exactly when it is in the list and scores at least the threshold. */
  lemma {:induction false} AtLeastMembers(ms: seq<Match>, threshold: int, m: Match)
    ensures m in AtLeast(ms, threshold) <==> m in ms && m.score >= threshold
  {
    if ms != [] {
      var init := ms[..|ms| - 1];
      AtLeastMembers(init, threshold, m);
      assert ms == init + [ms[|ms| - 1]];
    }
  }

  /** Keeping matches never adds any: the kept list is no longer than the list. */
  lemma {:induction false} AtLeastLength(ms: seq<Match>, threshold: int)
    ensures |AtLeast(ms, threshold)| <= |ms|
  {
    if ms != [] {
      AtLeastLength(ms[..|ms| - 1], threshold);
    }
  }

  /** The list is ranked: scores never increase along it. */
  predicate Ranked(ms: seq<Match>) {
    forall i, j :: 0 <= i < j < |ms| ==> ms[i].score >= ms[j].score
  }

  /** On a ranked list the kept matches are a prefix: the first `n` matches score
      at least the threshold and all later ones score less. */
  lemma {:induction false} AtLeastOfRanked(ms: seq<Match>, threshold: int) returns (n: nat)
    requires Ranked(ms)
    ensures n <= |ms| && AtLeast(ms, threshold) == ms[..n]
    ensures forall i :: 0 <= i < n ==> ms[i].score >= threshold
    ensures forall i :: n <= i < |ms| ==> ms[i].score < threshold
  {
    if ms == [] {
      n := 0;
    } else {
      var init := ms[..|ms| - 1];
      assert Ranked(init);
      n := AtLeastOfRanked(init, threshold);
      if ms[|ms| - 1].score >= threshold {
        assert n == |init|;
        n := |ms|;
        assert ms[..n] == init + [ms[|ms| - 1]];
      } else {
        assert ms[..n] == init[..n];
      }
    }
  }

  /** The close-match test decides the outcome. A shown selection starts with
      the top match, and everything in it scores at least 60; otherwise every
      ranked match is suggested, in order. */
  lemma SelectedShape(ranked: seq<Match>)
    ensures Selected(ranked).Shown? <==> |ranked| > 0 && ranked[0].score >= CloseMatch
    ensures Selected(ranked).Shown? ==>
      var shown := Selected(ranked).matches;
      && |shown| > 0 && shown[0] == ranked[0]
      && forall m :: m in shown <==> m in ranked && m.score >= ShownScore
    ensures Selected(ranked).NoCloseMatch? ==> Selected(ranked).suggestions == ranked
  {
    if |ranked| > 0 && ranked[0].score >= CloseMatch {
      AtLeastHead(ranked, ShownScore);
      forall m {
        AtLeastMembers(ranked, ShownScore, m);
      }
    }
  }

  /** When the first match is kept, it is the first kept match. */
  lemma {:induction false} AtLeastHead(ms: seq<Match>, threshold: int)
    requires |ms| > 0 && ms[0].score >= threshold
    ensures |AtLeast(ms, threshold)| > 0 && AtLeast(ms, threshold)[0] == ms[0]
  {
    if |ms| > 1 {
      var init := ms[..|ms| - 1];
      AtLeastHead(init, threshold);
    }
  }
}
