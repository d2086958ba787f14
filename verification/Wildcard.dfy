/**
 A pattern of single-element matchers and stars, over any alphabet. The glob engine uses this
 meaning twice: characters within a path segment, and segments within a path.
 */
module Wildcard {
  datatype Item<A> = Star | One(atom: A)

  /** Cut points that hand each star a run of the text and every other item exactly one accepted element. */
  ghost predicate Splits<A, T>(ok: (A, T) -> bool, pat: seq<Item<A>>, text: seq<T>, cuts: seq<nat>) {
    && |cuts| == |pat| + 1
    && cuts[0] == 0
    && cuts[|pat|] == |text|
    && (forall i :: 0 <= i < |pat| ==> SplitAt(ok, pat, text, cuts, i))
  }

  ghost predicate SplitAt<A, T>(ok: (A, T) -> bool, pat: seq<Item<A>>, text: seq<T>, cuts: seq<nat>, i: nat)
    requires i < |pat| && |cuts| == |pat| + 1
  {
    && cuts[i] <= cuts[i + 1] <= |text|
    && (pat[i].One? ==> cuts[i + 1] == cuts[i] + 1 && ok(pat[i].atom, text[cuts[i]]))
  }

  /** The same meaning, item by item: a star takes some prefix of the text. */
  ghost predicate Matches<A, T>(ok: (A, T) -> bool, pat: seq<Item<A>>, text: seq<T>) {
    if pat == [] then text == []
    else if pat[0].Star? then exists k :: 0 <= k <= |text| && Matches(ok, pat[1..], text[k..])
    else text != [] && ok(pat[0].atom, text[0]) && Matches(ok, pat[1..], text[1..])
  }

  /** Matching is the existence of a way to cut the text. */
  lemma MatchesIffSplits<A, T>(ok: (A, T) -> bool, pat: seq<Item<A>>, text: seq<T>)
    ensures Matches(ok, pat, text) <==> exists cuts :: Splits(ok, pat, text, cuts)
  {
    if Matches(ok, pat, text) {
      var cuts := Cuts(ok, pat, text);
    }
    if cuts :| Splits(ok, pat, text, cuts) {
      SplitsMatch(ok, pat, text, cuts);
    }
  }

  lemma {:induction false} Cuts<A, T>(ok: (A, T) -> bool, pat: seq<Item<A>>, text: seq<T>) returns (cuts: seq<nat>)
    requires Matches(ok, pat, text)
    ensures Splits(ok, pat, text, cuts)
  {
    if pat == [] {
      cuts := [0];
    } else {
      var k := 1;
      if pat[0].Star? {
        k :| 0 <= k <= |text| && Matches(ok, pat[1..], text[k..]);
      }
      var rest := Cuts(ok, pat[1..], text[k..]);
      cuts := [0] + seq(|rest|, i requires 0 <= i < |rest| => rest[i] + k);
      forall i | 0 <= i < |pat| ensures SplitAt(ok, pat, text, cuts, i) {
        if i > 0 {
          assert SplitAt(ok, pat[1..], text[k..], rest, i - 1);
        }
      }
    }
  }

  lemma {:induction false} SplitsMatch<A, T>(ok: (A, T) -> bool, pat: seq<Item<A>>, text: seq<T>, cuts: seq<nat>)
    requires Splits(ok, pat, text, cuts)
    ensures Matches(ok, pat, text)
    decreases |pat|
  {
    if pat != [] {
      var k := cuts[1];
      assert SplitAt(ok, pat, text, cuts, 0);
      forall i | 1 <= i <= |pat| ensures k <= cuts[i] {
        CutsAscend(ok, pat, text, cuts, 1, i);
      }
      var rest := seq(|pat|, i requires 0 <= i < |pat| => (cuts[i + 1] - k) as nat);
      forall i | 0 <= i < |pat| - 1 ensures SplitAt(ok, pat[1..], text[k..], rest, i) {
        assert SplitAt(ok, pat, text, cuts, i + 1);
      }
      SplitsMatch(ok, pat[1..], text[k..], rest);
    }
  }

  lemma {:induction false} CutsAscend<A, T>(
    ok: (A, T) -> bool, pat: seq<Item<A>>, text: seq<T>, cuts: seq<nat>, i: nat, j: nat)
    requires Splits(ok, pat, text, cuts) && i <= j <= |pat|
    ensures cuts[i] <= cuts[j]
    decreases j - i
  {
    if i < j {
      assert SplitAt(ok, pat, text, cuts, j - 1);
      CutsAscend(ok, pat, text, cuts, i, j - 1);
    }
  }

  /** A leading star may take any further run of the text first. */
  lemma StarAbsorbs<A, T>(ok: (A, T) -> bool, pat: seq<Item<A>>, text: seq<T>, k: nat)
    requires pat != [] && pat[0].Star? && k <= |text|
    requires Matches(ok, pat, text[k..])
    ensures Matches(ok, pat, text)
  {
    var j :| 0 <= j <= |text[k..]| && Matches(ok, pat[1..], text[k..][j..]);
    assert text[k..][j..] == text[k + j..];
  }

  /** Adjacent stars mean one star. */
  lemma StarsCollapse<A, T>(ok: (A, T) -> bool, pat: seq<Item<A>>, text: seq<T>)
    requires |pat| >= 2 && pat[0].Star? && pat[1].Star?
    ensures Matches(ok, pat, text) <==> Matches(ok, pat[1..], text)
  {
    assert text[0..] == text;
    if Matches(ok, pat, text) {
      var k :| 0 <= k <= |text| && Matches(ok, pat[1..], text[k..]);
      StarAbsorbs(ok, pat[1..], text, k);
    }
  }

  /** Nothing but stars matches the empty text. */
  lemma EmptyText<A, T>(ok: (A, T) -> bool, pat: seq<Item<A>>)
    ensures Matches(ok, pat, []) <==> forall i :: 0 <= i < |pat| ==> pat[i].Star?
  {
    var none: seq<T> := [];
    if pat != [] {
      EmptyText<A, T>(ok, pat[1..]);
      assert none[0..] == none;
      if pat[0].Star? && forall i :: 0 <= i < |pat[1..]| ==> pat[1..][i].Star? {
        assert forall i :: 0 < i < |pat| ==> pat[i] == pat[1..][i - 1];
      }
    }
  }

  /** Items that are not stars consume one element each. */
  lemma {:induction false} PlainPrefix<A, T>(ok: (A, T) -> bool, pat: seq<Item<A>>, text: seq<T>, d: nat)
    requires d <= |pat| && (forall i :: 0 <= i < d ==> pat[i].One?)
    requires Matches(ok, pat, text)
    ensures d <= |text| && Matches(ok, pat[d..], text[d..])
    decreases d
  {
    if d == 0 {
      assert pat[0..] == pat && text[0..] == text;
    } else {
      PlainPrefix(ok, pat, text, d - 1);
      var p, t := pat[d - 1..], text[d - 1..];
      assert p[0] == pat[d - 1];
      OneFirst(ok, p, t);
      assert p[1..] == pat[d..] && t[1..] == text[d..];
    }
  }

  lemma OneFirst<A, T>(ok: (A, T) -> bool, pat: seq<Item<A>>, text: seq<T>)
    requires pat != [] && pat[0].One? && Matches(ok, pat, text)
    ensures text != [] && ok(pat[0].atom, text[0]) && Matches(ok, pat[1..], text[1..])
  {
  }

  /**
   Why remembering only the latest star is enough. Since that star, d plain items have been paired with
   d elements, and another star comes next. If giving the remembered star k more elements could succeed,
   then going on from here succeeds too, because the new star can absorb those k elements instead.
   */
  lemma LatestStarSuffices<A, T>(ok: (A, T) -> bool, pat: seq<Item<A>>, text: seq<T>, d: nat, k: nat)
    requires d < |pat| && d <= |text| && k <= |text|
    requires forall i :: 0 <= i < d ==> pat[i].One?
    requires pat[d].Star?
    requires Matches(ok, pat, text[k..])
    ensures Matches(ok, pat[d..], text[d..])
  {
    PlainPrefix(ok, pat, text[k..], d);
    assert text[k..][d..] == text[d..][k..];
    StarAbsorbs(ok, pat[d..], text[d..], k);
  }

  /** What is still possible for a search that stands at (pat, text) and may lengthen the run of its star. */
  ghost predicate Reachable<A, T>(
    ok: (A, T) -> bool, pat: seq<Item<A>>, text: seq<T>, starred: bool, starPat: seq<Item<A>>, starText: seq<T>)
  {
    || Matches(ok, pat, text)
    || (starred && exists k :: 1 <= k <= |starText| && Matches(ok, starPat, starText[k..]))
  }

  /** The search stands d plain items after its star, wherever that star's run ended. */
  ghost predicate Follows<A, T>(
    pat: seq<Item<A>>, text: seq<T>, starPat: seq<Item<A>>, starText: seq<T>, d: nat)
  {
    && d <= |starPat| && d <= |starText|
    && pat == starPat[d..] && text == starText[d..]
    && forall i :: 0 <= i < d ==> starPat[i].One?
  }

  /** Meeting a new star: the old one can be forgotten. */
  lemma ForgetStar<A, T>(
    ok: (A, T) -> bool, pat: seq<Item<A>>, text: seq<T>, starred: bool, starPat: seq<Item<A>>, starText: seq<T>,
    d: nat)
    requires pat != [] && pat[0].Star?
    requires starred ==> Follows(pat, text, starPat, starText, d)
    ensures Reachable(ok, pat, text, starred, starPat, starText) <==> Matches(ok, pat, text)
    ensures Matches(ok, pat, text) <==> Reachable(ok, pat[1..], text, true, pat[1..], text)
  {
    if starred {
      forall k | 1 <= k <= |starText| && Matches(ok, starPat, starText[k..]) ensures Matches(ok, pat, text) {
        LatestStarSuffices(ok, starPat, starText, d, k);
      }
    }
    assert text[0..] == text;
  }

  /** Going on past one plain item and the element it accepts. */
  lemma StepOne<A, T>(
    ok: (A, T) -> bool, pat: seq<Item<A>>, text: seq<T>, starred: bool, starPat: seq<Item<A>>, starText: seq<T>,
    d: nat)
    requires pat != [] && pat[0].One? && text != [] && ok(pat[0].atom, text[0])
    requires starred ==> Follows(pat, text, starPat, starText, d)
    ensures Reachable(ok, pat, text, starred, starPat, starText)
       <==> Reachable(ok, pat[1..], text[1..], starred, starPat, starText)
    ensures starred ==> Follows(pat[1..], text[1..], starPat, starText, d + 1)
  {
    if starred {
      assert starPat[d] == pat[0];
      assert pat[1..] == starPat[d + 1..] && text[1..] == starText[d + 1..];
    }
  }

  /** At the end of the text a longer run for the star cannot help. */
  lemma TextExhausted<A, T>(
    ok: (A, T) -> bool, pat: seq<Item<A>>, starred: bool, starPat: seq<Item<A>>, starText: seq<T>, d: nat)
    requires starred ==> Follows(pat, [], starPat, starText, d)
    ensures Reachable(ok, pat, [], starred, starPat, starText) <==> Matches(ok, pat, [])
  {
    if starred {
      assert |starText| == d;
      forall k | 1 <= k <= |starText| ensures !Matches(ok, starPat, starText[k..]) {
        if Matches(ok, starPat, starText[k..]) {
          PlainPrefix(ok, starPat, starText[k..], d);
        }
      }
    }
  }

  /** Falling back: the star's run grows by one element. */
  lemma LengthenStar<A, T>(
    ok: (A, T) -> bool, pat: seq<Item<A>>, text: seq<T>, starPat: seq<Item<A>>, starText: seq<T>)
    requires !Matches(ok, pat, text) && starText != []
    ensures Reachable(ok, pat, text, true, starPat, starText)
       <==> Reachable(ok, starPat, starText[1..], true, starPat, starText[1..])
  {
    forall k | 1 <= k <= |starText| ensures starText[k..] == starText[1..][k - 1..] {
    }
    assert starText[1..][0..] == starText[1..];
    if k :| 1 <= k <= |starText[1..]| && Matches(ok, starPat, starText[1..][k..]) {
      assert starText[1..][k..] == starText[k + 1..];
    }
  }

  /** A directory pattern followed by one segment and any more: some proper prefix matches the directory. */
  lemma {:induction false} ContentsOf<A, T>(ok: (A, T) -> bool, dir: seq<Item<A>>, any: A, text: seq<T>)
    requires forall t :: t in text ==> ok(any, t)
    ensures Matches(ok, dir + [One(any), Star], text) <==> exists k :: 0 <= k < |text| && Matches(ok, dir, text[..k])
  {
    var pat := dir + [One(any), Star];
    if dir == [] {
      assert pat[1..] == [Star];
      if text != [] {
        assert text[1..][|text[1..]|..] == [];
        assert Matches(ok, pat[1..][1..], text[1..][|text[1..]|..]);
        assert text[..0] == [];
      }
    } else {
      var rest := dir[1..];
      assert pat[1..] == rest + [One(any), Star];
      if dir[0].Star? {
        forall j, k | 0 <= j <= k < |text| ensures text[j..][..k - j] == text[..k][j..] {
        }
        if Matches(ok, pat, text) {
          var j :| 0 <= j <= |text| && Matches(ok, pat[1..], text[j..]);
          ContentsOf(ok, rest, any, text[j..]);
          var k :| 0 <= k < |text[j..]| && Matches(ok, rest, text[j..][..k]);
          assert text[j..][..k] == text[..j + k][j..];
          assert Matches(ok, dir, text[..j + k]);
        }
        if k :| 0 <= k < |text| && Matches(ok, dir, text[..k]) {
          var j :| 0 <= j <= |text[..k]| && Matches(ok, rest, text[..k][j..]);
          assert text[..k][j..] == text[j..][..k - j];
          ContentsOf(ok, rest, any, text[j..]);
          assert Matches(ok, pat[1..], text[j..]);
        }
      } else if text != [] {
        ContentsOf(ok, rest, any, text[1..]);
        if k :| 0 <= k < |text[1..]| && Matches(ok, rest, text[1..][..k]) {
          assert text[1..][..k] == text[..k + 1][1..];
          if ok(dir[0].atom, text[0]) {
            assert Matches(ok, dir, text[..k + 1]);
          }
        }
        if k :| 0 <= k < |text| && Matches(ok, dir, text[..k]) {
          assert text[..k][1..] == text[1..][..k - 1];
        }
      }
    }
  }
}
