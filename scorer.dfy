/**
 * The local heuristic classifier `scoreTextLocal`: whole-word term counts per category,
 * weighted scores ranked by a stable sort, the two-clause flag rule, the label, the preview
 * and the substring-based `topTerms`.
 */
module Scorer {
  import opened Wrappers
  import opened Text
  import opened Seqs
  import opened Lexicon

  /** A weighted score of this many tenths flags the text (the source's `score >= 1`). */
  const FlagThreshold: nat := 10
  /** This many sexual plus Hinglish-profanity hits flag the text whatever the scores are. */
  const PairThreshold: nat := 2
  const PreviewLength: nat := 300
  const MaxTopTerms: nat := 10
  const SafeLabel: string := "safe"

  // ------------------------------------------------------------------------------------------
  // Counting one term: the global regex (^|[^a-zA-Z])TERM([^a-zA-Z]|$) run by `String.match`.

  /** The group ([^a-zA-Z]|$) at position `e`: it consumes one non-letter, or matches the end. */
  function TrailEnd(t: string, e: nat): Option<nat>
  {
    if e < |t| then (if IsAsciiLetter(t[e]) then None else Some(e + 1))
    else if e == |t| then Some(e)
    else None
  }

  /**
   * The end of the regex match that starts at `p`, if any. The alternative `^` is tried
   * first (only at the start of the string), then `[^a-zA-Z]`, which consumes a character.
   */
  function MatchEnd(t: string, w: Term, p: nat): (r: Option<nat>)
    requires p <= |t|
    ensures r.Some? ==> p < r.value <= |t|
  {
    if p == 0 && IsAt(t, w, 0) && TrailEnd(t, |w|).Some? then TrailEnd(t, |w|)
    else if p < |t| && !IsAsciiLetter(t[p]) && IsAt(t, w, p + 1) then TrailEnd(t, p + 1 + |w|)
    else None
  }

  /** The number of matches found scanning from `i`: each search resumes where the last match ended. */
  function CountFrom(t: string, w: Term, i: nat): nat
    requires i <= |t|
    decreases |t| - i
  {
    if i == |t| then 0
    else match MatchEnd(t, w, i)
      case Some(e) => 1 + CountFrom(t, w, e)
      case None => CountFrom(t, w, i + 1)
  }

  /** `(t.match(re) || []).length` for the term's regex. */
  function CountMatches(t: string, w: Term): nat {
    CountFrom(t, w, 0)
  }

  /** `w` occurs at `q` as a whole word: ASCII letters on neither side. */
  predicate WordAt(t: string, w: string, q: int) {
    IsAt(t, w, q)
    && (q == 0 || !IsAsciiLetter(t[q - 1]))
    && (q + |w| == |t| || !IsAsciiLetter(t[q + |w|]))
  }

  lemma MatchIffWord(t: string, w: Term)
    ensures (exists p: nat :: p < |t| && MatchEnd(t, w, p).Some?) <==> (exists q :: WordAt(t, w, q))
  {
    if exists p: nat :: p < |t| && MatchEnd(t, w, p).Some? {
      var p: nat :| p < |t| && MatchEnd(t, w, p).Some?;
      if p == 0 && IsAt(t, w, 0) && TrailEnd(t, |w|).Some? {
        assert WordAt(t, w, 0);
      } else {
        assert WordAt(t, w, p + 1);
      }
    }
    if exists q :: WordAt(t, w, q) {
      var q :| WordAt(t, w, q);
      var p: nat := if q == 0 then 0 else q - 1;
      assert MatchEnd(t, w, p).Some?;
    }
  }

  /** A match at `p` or later makes the count from `i` positive. */
  lemma {:induction false} CountFromOfMatch(t: string, w: Term, i: nat, p: nat)
    requires i <= p < |t| && MatchEnd(t, w, p).Some?
    ensures CountFrom(t, w, i) > 0
    decreases p - i
  {
    if MatchEnd(t, w, i).None? {
      CountFromOfMatch(t, w, i + 1, p);
    }
  }

  /** A positive count from `i` comes from a match starting at `i` or later. */
  lemma {:induction false} CountFromMatch(t: string, w: Term, i: nat) returns (p: nat)
    requires i <= |t| && CountFrom(t, w, i) > 0
    ensures i <= p < |t| && MatchEnd(t, w, p).Some?
    decreases |t| - i
  {
    if MatchEnd(t, w, i).Some? {
      p := i;
    } else {
      p := CountFromMatch(t, w, i + 1);
    }
  }

  lemma CountFromPositive(t: string, w: Term, i: nat)
    requires i <= |t|
    ensures CountFrom(t, w, i) > 0 <==> exists p: nat :: i <= p < |t| && MatchEnd(t, w, p).Some?
  {
    if CountFrom(t, w, i) > 0 {
      var p := CountFromMatch(t, w, i);
    }
    if exists p: nat :: i <= p < |t| && MatchEnd(t, w, p).Some? {
      var p: nat :| i <= p < |t| && MatchEnd(t, w, p).Some?;
      CountFromOfMatch(t, w, i, p);
    }
  }

  /** A term is counted at least once exactly when it occurs somewhere as a whole word. */
  lemma CountPositiveIffWord(t: string, w: Term)
    ensures CountMatches(t, w) > 0 <==> exists q :: WordAt(t, w, q)
  {
    CountFromPositive(t, w, 0);
    MatchIffWord(t, w);
  }

  /**
   * From `i`, the first match found ends no later than `s2`, where a second match starts;
   * so both are counted.
   */
  lemma {:induction false} CountTwiceFrom(t: string, w: Term, i: nat, s1: nat, s2: nat)
    requires i <= s1 < s2 < |t|
    requires MatchEnd(t, w, s1).Some? && MatchEnd(t, w, s2).Some?
    requires forall p: nat :: i <= p <= s1 && MatchEnd(t, w, p).Some? ==> MatchEnd(t, w, p).value <= s2
    ensures CountFrom(t, w, i) >= 2
    decreases s1 - i
  {
    match MatchEnd(t, w, i)
    case None =>
      CountTwiceFrom(t, w, i + 1, s1, s2);
    case Some(e) =>
      CountFromOfMatch(t, w, e, s2);
  }

  /**
   * Two whole-word occurrences with at least two characters between them (both non-letters,
   * one consumed by each match) are counted twice.
   */
  lemma TwoSeparatedWordsCountTwice(t: string, w: Term, q1: nat, q2: nat)
    requires WordAt(t, w, q1) && WordAt(t, w, q2) && q1 + |w| + 2 <= q2
    ensures CountMatches(t, w) >= 2
  {
    var s1: nat := if q1 == 0 then 0 else q1 - 1;
    var s2: nat := q2 - 1;
    assert MatchEnd(t, w, s1).Some?;
    assert MatchEnd(t, w, s2).Some?;
    CountTwiceFrom(t, w, 0, s1, s2);
  }

  /**
   * Boundaries are ASCII letters only, and matching consumes the boundary characters:
   * `ass` is not counted inside `classic` but is in `an ass.`; `mc mc` holds one `mc`
   * match (the space is consumed by the first), `mc, mc` two.
   */
  lemma WordBoundaryExamples()
    ensures CountMatches("classic", "ass") == 0
    ensures CountMatches("an ass.", "ass") == 1
    ensures CountMatches("mc mc", "mc") == 1
    ensures CountMatches("mc, mc", "mc") == 2
  {
    InsideWordNotCounted();
    SurroundedWordCounted();
    SharedBoundaryCountedOnce();
    SeparateBoundariesCountedTwice();
  }

  lemma InsideWordNotCounted()
    ensures CountMatches("classic", "ass") == 0
  {
    var c := "classic";
    forall q ensures !WordAt(c, "ass", q) {
      if IsAt(c, "ass", q) {
        assert c[q] == c[q..q + 3][0] == 'a';
        assert q == 2 && IsAsciiLetter(c[1]);
      }
    }
    CountPositiveIffWord(c, "ass");
  }

  lemma SurroundedWordCounted()
    ensures CountMatches("an ass.", "ass") == 1
  {
    var a := "an ass.";
    assert MatchEnd(a, "ass", 2) == Some(7);
    assert CountFrom(a, "ass", 7) == 0;
    assert !IsAsciiLetter(a[2]) && IsAsciiLetter(a[1]) && IsAsciiLetter(a[0]);
    assert !IsAt(a, "ass", 0) && !IsAt(a, "ass", 1) && !IsAt(a, "ass", 2);
    assert MatchEnd(a, "ass", 1) == None && MatchEnd(a, "ass", 0) == None;
  }

  lemma SharedBoundaryCountedOnce()
    ensures CountMatches("mc mc", "mc") == 1
  {
    var m := "mc mc";
    assert IsAsciiLetter(m[3]) && IsAsciiLetter(m[4]);
    assert CountFrom(m, "mc", 4) == 0;
    assert CountFrom(m, "mc", 3) == 0;
    assert IsAt(m, "mc", 0) && !IsAsciiLetter(m[2]);
    assert MatchEnd(m, "mc", 0) == Some(3);
  }

  lemma SeparateBoundariesCountedTwice()
    ensures CountMatches("mc, mc", "mc") == 2
  {
    var n := "mc, mc";
    assert IsAt(n, "mc", 4) && !IsAsciiLetter(n[3]);
    assert MatchEnd(n, "mc", 3) == Some(6);
    assert CountFrom(n, "mc", 3) == 1;
    assert IsAt(n, "mc", 0) && !IsAsciiLetter(n[2]);
    assert MatchEnd(n, "mc", 0) == Some(3);
  }

  // ------------------------------------------------------------------------------------------
  // Per-category counts.

  /** The sum of the counts of `ws`: the inner loop's `counts[cat] += matches.length`. */
  function CategoryCount(t: string, ws: seq<Term>): nat
  {
    if ws == [] then 0 else CategoryCount(t, ws[..|ws| - 1]) + CountMatches(t, ws[|ws| - 1])
  }

  lemma {:induction false} CategoryCountPositive(t: string, ws: seq<Term>)
    ensures CategoryCount(t, ws) > 0 <==> exists k :: 0 <= k < |ws| && CountMatches(t, ws[k]) > 0
  {
    if ws != [] {
      var init := ws[..|ws| - 1];
      CategoryCountPositive(t, init);
      assert forall k :: 0 <= k < |init| ==> init[k] == ws[k];
    }
  }

  predicate Complete(counts: map<Category, nat>) {
    forall c: Category :: c in counts
  }

  /** `counts` of the lower-cased text: one entry per category. */
  function Counts(t: string): (counts: map<Category, nat>)
    ensures Complete(counts)
  {
    DeclaredIsComplete();
    map c | c in Declared :: CategoryCount(t, Terms(c))
  }

  // ------------------------------------------------------------------------------------------
  // Weighted scores and their stable ranking.

  /** A category with its weighted score, in tenths. */
  datatype CategoryScore = CategoryScore(cat: Category, score: nat)

  function ScoreOf(counts: map<Category, nat>, c: Category): nat
    requires Complete(counts)
  {
    counts[c] * Weight(c)
  }

  /** `Object.keys(counts).map(k => ({cat: k, score: counts[k] * weights[k]}))`. */
  function Weighted(counts: map<Category, nat>): (r: seq<CategoryScore>)
    requires Complete(counts)
    ensures |r| == |Declared|
    ensures forall i :: 0 <= i < |r| ==> r[i] == CategoryScore(Declared[i], ScoreOf(counts, Declared[i]))
  {
    seq(|Declared|, i requires 0 <= i < |Declared| => CategoryScore(Declared[i], ScoreOf(counts, Declared[i])))
  }

  /** `a` comes before `b`: higher score, or an equal score and declared earlier. */
  predicate Precedes(a: CategoryScore, b: CategoryScore) {
    a.score > b.score || (a.score == b.score && Index(a.cat) < Index(b.cat))
  }

  predicate Ranked(s: seq<CategoryScore>) {
    forall i, j :: 0 <= i < j < |s| ==> Precedes(s[i], s[j])
  }

  predicate InDeclarationOrder(s: seq<CategoryScore>) {
    forall i, j :: 0 <= i < j < |s| ==> Index(s[i].cat) < Index(s[j].cat)
  }

  /** Inserts `x` ahead of every entry whose score it reaches, so earlier entries win ties. */
  function Insert(x: CategoryScore, l: seq<CategoryScore>): (r: seq<CategoryScore>)
    ensures multiset(r) == multiset(l) + multiset{x}
  {
    if l == [] then [x]
    else if x.score >= l[0].score then [x] + l
    else
      assert l == [l[0]] + l[1..];
      [l[0]] + Insert(x, l[1..])
  }

  /** Inserting an entry declared before all others into a ranked sequence keeps it ranked. */
  lemma {:induction false} InsertRanked(x: CategoryScore, l: seq<CategoryScore>)
    requires Ranked(l)
    requires forall e :: e in l ==> Index(x.cat) < Index(e.cat)
    ensures Ranked(Insert(x, l))
  {
    if l == [] {
    } else if x.score >= l[0].score {
      var r := [x] + l;
      forall i, j | 0 <= i < j < |r| ensures Precedes(r[i], r[j]) {
        if i == 0 {
          assert r[j] == l[j - 1] && l[j - 1] in l;
          if j - 1 > 0 {
            assert Precedes(l[0], l[j - 1]);
          }
        } else {
          assert r[i] == l[i - 1] && r[j] == l[j - 1];
        }
      }
    } else {
      var tail := l[1..];
      var rest := Insert(x, tail);
      assert forall e :: e in tail ==> e in l;
      InsertRanked(x, tail);
      var r := [l[0]] + rest;
      forall i, j | 0 <= i < j < |r| ensures Precedes(r[i], r[j]) {
        if i == 0 {
          var e := r[j];
          assert e in multiset(rest);
          if e != x {
            assert e in tail;
            var k :| 0 <= k < |tail| && tail[k] == e;
            assert l[k + 1] == e;
          }
        } else {
          assert r[i] == rest[i - 1] && r[j] == rest[j - 1];
        }
      }
    }
  }

  /**
   * `categories.sort((a, b) => b.score - a.score)`, which is stable: insertion of each entry
   * ahead of the entries after it that it ties with. The result is a permutation of the input.
   */
  function SortByScore(s: seq<CategoryScore>): (r: seq<CategoryScore>)
    ensures multiset(r) == multiset(s) && |r| == |s|
  {
    if s == [] then []
    else
      assert s == [s[0]] + s[1..];
      var r := Insert(s[0], SortByScore(s[1..]));
      assert |r| == |multiset(r)|;
      r
  }

  /** Sorting entries listed in declaration order ranks them: by score, ties in declaration order. */
  lemma {:induction false} SortRanked(s: seq<CategoryScore>)
    requires InDeclarationOrder(s)
    ensures Ranked(SortByScore(s))
  {
    if s != [] {
      DeclarationOrderTail(s);
      SortRanked(s[1..]);
      FirstPrecedesSorted(s);
      InsertRanked(s[0], SortByScore(s[1..]));
    }
  }

  lemma DeclarationOrderTail(s: seq<CategoryScore>)
    requires s != [] && InDeclarationOrder(s)
    ensures InDeclarationOrder(s[1..])
  {
    forall i, j | 0 <= i < j < |s| - 1 ensures Index(s[1..][i].cat) < Index(s[1..][j].cat) {
      assert s[1..][i] == s[i + 1] && s[1..][j] == s[j + 1];
    }
  }

  /** The first entry is declared before every entry of the sorted rest. */
  lemma FirstPrecedesSorted(s: seq<CategoryScore>)
    requires s != [] && InDeclarationOrder(s)
    ensures forall e :: e in SortByScore(s[1..]) ==> Index(s[0].cat) < Index(e.cat)
  {
    var sorted := SortByScore(s[1..]);
    forall e | e in sorted ensures Index(s[0].cat) < Index(e.cat) {
      assert e in multiset(sorted);
      var k :| 0 <= k < |s[1..]| && s[1..][k] == e;
      assert s[k + 1] == e;
    }
  }

  /** `categories`: the weighted scores, ranked. */
  function RankedScores(counts: map<Category, nat>): (r: seq<CategoryScore>)
    requires Complete(counts)
    ensures |r| == |Declared|
  {
    SortByScore(Weighted(counts))
  }

  // ------------------------------------------------------------------------------------------
  // Decision, label and top terms.

  function IsFlagged(counts: map<Category, nat>): bool
    requires Complete(counts)
  {
    var top := RankedScores(counts)[0];
    top.score >= FlagThreshold || counts[Sexual] + counts[HinglishProfanity] >= PairThreshold
  }

  function Label(counts: map<Category, nat>): string
    requires Complete(counts)
  {
    if IsFlagged(counts) then Name(RankedScores(counts)[0].cat) else SafeLabel
  }

  /** The terms contained anywhere in `t`, in order: the `topTerms.push` loop. */
  function Matched(t: string, ws: seq<Term>): seq<Term>
  {
    if ws == [] then []
    else Matched(t, ws[..|ws| - 1]) + (if Contains(t, ws[|ws| - 1]) then [ws[|ws| - 1]] else [])
  }

  /** `Array.from(new Set(topTerms)).slice(0, 10)`. */
  function TopTerms(t: string): seq<Term> {
    Take(Dedup(Matched(t, AllTerms())), MaxTopTerms)
  }

  /** The record `scoreTextLocal` returns; `counts` and `categories` form its `scores`. */
  datatype AnalysisResult = AnalysisResult(
    flagged: bool,
    labelName: string,
    preview: string,
    counts: map<Category, nat>,
    categories: seq<CategoryScore>,
    topTerms: seq<Term>)

  /** The classifier's result for `text`, as a function. */
  function ScoreText(text: string): AnalysisResult {
    var t := Lower(text);
    var counts := Counts(t);
    AnalysisResult(IsFlagged(counts), Label(counts), Take(text, PreviewLength), counts,
                   RankedScores(counts), TopTerms(t))
  }

  /** The `forEach` that pushes every term of `ws` that `t` contains, in order. */
  method PushContained(t: string, ws: seq<Term>) returns (pushed: seq<Term>)
    ensures pushed == Matched(t, ws)
  {
    pushed := [];
    var n := 0;
    while n < |ws|
      invariant 0 <= n <= |ws|
      invariant pushed == Matched(t, ws[..n])
    {
      if Contains(t, ws[n]) {
        pushed := pushed + [ws[n]];
      }
      assert ws[..n + 1][..n] == ws[..n];
      n := n + 1;
    }
    assert ws[..|ws|] == ws;
  }

  /** The inner loop: `counts[cat] = 0`, then `counts[cat] += matches.length` for each term. */
  method CountCategory(t: string, counts: map<Category, nat>, cat: Category)
    returns (updated: map<Category, nat>)
    ensures updated == counts[cat := CategoryCount(t, Terms(cat))]
  {
    var words := Terms(cat);
    updated := counts[cat := 0];
    var j := 0;
    while j < |words|
      invariant 0 <= j <= |words|
      invariant updated == counts[cat := CategoryCount(t, words[..j])]
    {
      CategoryCountStep(t, words, j);
      updated := updated[cat := updated[cat] + CountMatches(t, words[j])];
      j := j + 1;
    }
    assert words[..|words|] == words;
  }

  lemma CategoryCountStep(t: string, ws: seq<Term>, j: nat)
    requires j < |ws|
    ensures CategoryCount(t, ws[..j + 1]) == CategoryCount(t, ws[..j]) + CountMatches(t, ws[j])
  {
    assert ws[..j + 1][..j] == ws[..j];
  }

  /** The outer loop of `scoreTextLocal`, over the categories in declaration order. */
  method CountCategories(t: string) returns (counts: map<Category, nat>)
    ensures counts == Counts(t)
  {
    counts := map[];
    var i := 0;
    while i < |Declared|
      invariant 0 <= i <= |Declared|
      invariant forall c: Category :: c in counts <==> Index(c) < i
      invariant forall c :: c in counts ==> counts[c] == CategoryCount(t, Terms(c))
    {
      counts := CountCategory(t, counts, Declared[i]);
      i := i + 1;
    }
    CountsOfEveryCategory(t, counts);
  }

  /** A map holding every category's count is the map of counts. */
  lemma CountsOfEveryCategory(t: string, counts: map<Category, nat>)
    requires forall c: Category :: c in counts && counts[c] == CategoryCount(t, Terms(c))
    ensures counts == Counts(t)
  {
    DeclaredIsComplete();
  }

  /** `scoreTextLocal`: counts, ranking, decision, label, preview and top terms. */
  method ScoreTextLocal(text: string) returns (r: AnalysisResult)
    ensures r == ScoreText(text)
  {
    var t := Lower(text);
    var counts := CountCategories(t);
    var categories := RankedScores(counts);
    var top := categories[0];
    var flagged := top.score >= FlagThreshold || counts[Sexual] + counts[HinglishProfanity] >= PairThreshold;
    var labelName := if flagged then Name(top.cat) else SafeLabel;
    var pushed := PushContained(t, AllTerms());
    r := AnalysisResult(flagged, labelName, Take(text, PreviewLength), counts, categories,
                        Take(Dedup(pushed), MaxTopTerms));
  }

  // ------------------------------------------------------------------------------------------
  // What the classifier promises.

  /**
   * `c` leads the scores: every other category scores lower, or equal and declared later.
   * It is the category a stable descending sort puts first.
   */
  predicate Leads(counts: map<Category, nat>, c: Category)
    requires Complete(counts)
  {
    forall d: Category :: ScoreOf(counts, d) < ScoreOf(counts, c)
      || (ScoreOf(counts, d) == ScoreOf(counts, c) && Index(c) <= Index(d))
  }

  /** At most one category leads. */
  lemma LeaderUnique(counts: map<Category, nat>, c: Category, d: Category)
    requires Complete(counts) && Leads(counts, c) && Leads(counts, d)
    ensures c == d
  {
    DeclaredIsComplete();
    assert ScoreOf(counts, d) < ScoreOf(counts, c) || (ScoreOf(counts, d) == ScoreOf(counts, c) && Index(c) <= Index(d));
    assert ScoreOf(counts, c) < ScoreOf(counts, d) || (ScoreOf(counts, c) == ScoreOf(counts, d) && Index(d) <= Index(c));
  }

  /**
   * `categories` is a permutation of the five weighted scores, ranked by score with ties in
   * declaration order; its first entry is the leading category.
   */
  lemma CategoriesRanked(counts: map<Category, nat>)
    requires Complete(counts)
    ensures multiset(RankedScores(counts)) == multiset(Weighted(counts))
    ensures Ranked(RankedScores(counts))
    ensures forall i :: 0 <= i < |Declared| ==> RankedScores(counts)[i].score == ScoreOf(counts, RankedScores(counts)[i].cat)
    ensures Leads(counts, RankedScores(counts)[0].cat)
  {
    DeclaredIsComplete();
    var w := Weighted(counts);
    var r := RankedScores(counts);
    assert InDeclarationOrder(w);
    SortRanked(w);
    forall i | 0 <= i < |Declared| ensures r[i].score == ScoreOf(counts, r[i].cat) {
      assert r[i] in multiset(w);
    }
    var top := r[0];
    forall d: Category ensures ScoreOf(counts, d) < ScoreOf(counts, top.cat)
      || (ScoreOf(counts, d) == ScoreOf(counts, top.cat) && Index(top.cat) <= Index(d))
    {
      var e := w[Index(d)];
      assert e == CategoryScore(d, ScoreOf(counts, d));
      assert e in multiset(r);
      var j :| 0 <= j < |r| && r[j] == e;
      if j > 0 {
        assert Precedes(r[0], r[j]);
      }
    }
  }

  /**
   * The flag rule: flagged exactly when some weighted score reaches 1.0, or the sexual and
   * Hinglish-profanity counts together reach 2.
   */
  lemma FlaggedIff(counts: map<Category, nat>)
    requires Complete(counts)
    ensures IsFlagged(counts) <==>
      (exists c: Category :: ScoreOf(counts, c) >= FlagThreshold)
      || counts[Sexual] + counts[HinglishProfanity] >= PairThreshold
  {
    CategoriesRanked(counts);
    var top := RankedScores(counts)[0];
    if exists c: Category :: ScoreOf(counts, c) >= FlagThreshold {
      var c: Category :| ScoreOf(counts, c) >= FlagThreshold;
      assert ScoreOf(counts, c) <= top.score;
    }
  }

  /**
   * The label is "safe" exactly when the text is not flagged; a flagged text is labelled with
   * the name of the leading category.
   */
  lemma LabelIsLeader(counts: map<Category, nat>)
    requires Complete(counts)
    ensures Label(counts) == SafeLabel <==> !IsFlagged(counts)
    ensures IsFlagged(counts) ==> exists c :: Leads(counts, c) && Label(counts) == Name(c)
  {
    CategoriesRanked(counts);
    var top := RankedScores(counts)[0].cat;
    assert Name(top) != SafeLabel by {
      assert Name(top)[0] != 's' || |Name(top)| != 4 || Name(top) == "sexual" || Name(top) == "selfharm";
    }
  }

  /** A whole-word hit of a hate or self-harm term, or two sexual or Hinglish-profanity hits, flag the text. */
  lemma StrongOrPairedHitsFlag(counts: map<Category, nat>)
    requires Complete(counts)
    requires counts[Hate] >= 1 || counts[SelfHarm] >= 1
          || counts[Sexual] + counts[HinglishProfanity] >= PairThreshold
    ensures IsFlagged(counts) && Label(counts) != SafeLabel
  {
    FlaggedIff(counts);
    LabelIsLeader(counts);
    if counts[Hate] >= 1 {
      assert ScoreOf(counts, Hate) >= FlagThreshold;
    } else if counts[SelfHarm] >= 1 {
      assert ScoreOf(counts, SelfHarm) >= FlagThreshold;
    }
  }

  /** The counts record for the five categories, in declaration order. */
  function CountsOf(sexual: nat, insults: nat, hinglish: nat, hate: nat, selfharm: nat): (c: map<Category, nat>)
    ensures Complete(c)
    ensures c[Sexual] == sexual && c[Insults] == insults && c[HinglishProfanity] == hinglish
    ensures c[Hate] == hate && c[SelfHarm] == selfharm
  {
    DeclaredIsComplete();
    map k | k in Declared ::
      match k
      case Sexual => sexual
      case Insults => insults
      case HinglishProfanity => hinglish
      case Hate => hate
      case SelfHarm => selfharm
  }

  /** One insult and one Hinglish term (0.5 and 0.9, two weak hits of which one is sexual or Hinglish) stay safe. */
  lemma WeakHitsStaySafe()
    ensures !IsFlagged(CountsOf(0, 1, 1, 0, 0)) && Label(CountsOf(0, 1, 1, 0, 0)) == "safe"
  {
    var counts := CountsOf(0, 1, 1, 0, 0);
    FlaggedIff(counts);
    LabelIsLeader(counts);
    forall c: Category ensures ScoreOf(counts, c) < FlagThreshold {
      match c
      case Sexual =>
      case Insults =>
      case HinglishProfanity =>
      case Hate =>
      case SelfHarm =>
    }
  }

  /** Two Hinglish terms (1.8) flag the text as hinglishProfanity. */
  lemma TwoHinglishHitsFlag()
    ensures IsFlagged(CountsOf(0, 0, 2, 0, 0)) && Label(CountsOf(0, 0, 2, 0, 0)) == "hinglishProfanity"
  {
    var counts := CountsOf(0, 0, 2, 0, 0);
    forall d: Category ensures ScoreOf(counts, d) < ScoreOf(counts, HinglishProfanity)
      || (ScoreOf(counts, d) == ScoreOf(counts, HinglishProfanity) && Index(HinglishProfanity) <= Index(d))
    {
      match d
      case Sexual =>
      case Insults =>
      case HinglishProfanity =>
      case Hate =>
      case SelfHarm =>
    }
    LeaderExample(counts, HinglishProfanity);
  }

  /** One sexual and one Hinglish term (0.7 and 0.9, both below 1.0) flag through the pair clause. */
  lemma PairClauseFlags()
    ensures IsFlagged(CountsOf(1, 0, 1, 0, 0)) && Label(CountsOf(1, 0, 1, 0, 0)) == "hinglishProfanity"
  {
    var counts := CountsOf(1, 0, 1, 0, 0);
    forall d: Category ensures ScoreOf(counts, d) < ScoreOf(counts, HinglishProfanity)
      || (ScoreOf(counts, d) == ScoreOf(counts, HinglishProfanity) && Index(HinglishProfanity) <= Index(d))
    {
      match d
      case Sexual =>
      case Insults =>
      case HinglishProfanity =>
      case Hate =>
      case SelfHarm =>
    }
    LeaderExample(counts, HinglishProfanity);
  }

  /** Two insults and one hate term tie at 1.0: the earlier-declared insults labels the text. */
  lemma TieGoesToEarlierCategory()
    ensures IsFlagged(CountsOf(0, 2, 0, 1, 0)) && Label(CountsOf(0, 2, 0, 1, 0)) == "insults"
  {
    var counts := CountsOf(0, 2, 0, 1, 0);
    forall d: Category ensures ScoreOf(counts, d) < ScoreOf(counts, Insults)
      || (ScoreOf(counts, d) == ScoreOf(counts, Insults) && Index(Insults) <= Index(d))
    {
      match d
      case Sexual =>
      case Insults =>
      case HinglishProfanity =>
      case Hate =>
      case SelfHarm =>
    }
    LeaderExample(counts, Insults);
  }

  lemma LeaderExample(counts: map<Category, nat>, c: Category)
    requires Complete(counts) && Leads(counts, c)
    requires ScoreOf(counts, c) >= FlagThreshold || counts[Sexual] + counts[HinglishProfanity] >= PairThreshold
    ensures IsFlagged(counts) && Label(counts) == Name(c)
  {
    FlaggedIff(counts);
    LabelIsLeader(counts);
    var d :| Leads(counts, d) && Label(counts) == Name(d);
    LeaderUnique(counts, c, d);
  }

  /** Every matched term is a term of `ws` that `t` contains. */
  lemma {:induction false} MatchedSound(t: string, ws: seq<Term>)
    ensures forall i :: 0 <= i < |Matched(t, ws)| ==> Matched(t, ws)[i] in ws && Contains(t, Matched(t, ws)[i])
  {
    if ws != [] {
      var init := ws[..|ws| - 1];
      MatchedSound(t, init);
      assert ws == init + [ws[|ws| - 1]];
    }
  }

  /** Every term of `ws` that `t` contains is matched. */
  lemma {:induction false} MatchedComplete(t: string, ws: seq<Term>)
    ensures forall k :: 0 <= k < |ws| && Contains(t, ws[k]) ==> ws[k] in Matched(t, ws)
  {
    if ws != [] {
      var init := ws[..|ws| - 1];
      MatchedComplete(t, init);
      forall k | 0 <= k < |ws| && Contains(t, ws[k]) ensures ws[k] in Matched(t, ws) {
        if k < |init| {
          assert init[k] == ws[k];
        }
      }
    }
  }

  /** The matched terms keep the order of `ws`. */
  lemma {:induction false} MatchedInOrder(t: string, ws: seq<Term>)
    ensures IsSubsequence(Matched(t, ws), ws)
  {
    if ws != [] {
      var init := ws[..|ws| - 1];
      var last := ws[|ws| - 1];
      MatchedInOrder(t, init);
      assert ws == init + [last];
      var m := Matched(t, init);
      if Contains(t, last) {
        assert Matched(t, ws) == m + [last];
        assert (m + [last])[..|m|] == m;
        assert (init + [last])[..|init|] == init;
      } else {
        assert Matched(t, ws) == m;
        SubsequenceExtendRight(m, init, last);
      }
    }
  }

  lemma CappedDedupFacts(t: string, ws: seq<Term>)
    ensures var r := Take(Dedup(Matched(t, ws)), MaxTopTerms);
      && |r| <= MaxTopTerms
      && Distinct(r)
      && (forall i :: 0 <= i < |r| ==> r[i] in ws && Contains(t, r[i]))
      && IsSubsequence(r, ws)
      && (|r| < MaxTopTerms ==> forall k :: 0 <= k < |ws| && Contains(t, ws[k]) ==> ws[k] in r)
    ensures Distinct(ws) ==> Take(Dedup(Matched(t, ws)), MaxTopTerms) == Take(Matched(t, ws), MaxTopTerms)
  {
    var m := Matched(t, ws);
    var d := Dedup(m);
    var r := Take(d, MaxTopTerms);
    if Distinct(ws) {
      MatchedInOrder(t, ws);
      SubsequenceDistinct(m, ws);
      DedupOfDistinct(m);
    }
    MatchedSound(t, ws);
    MatchedComplete(t, ws);
    MatchedInOrder(t, ws);
    PrefixIsSubsequence(d, |r|);
    SubsequenceTransitive(r, d, m);
    SubsequenceTransitive(r, m, ws);
    forall i | 0 <= i < |r| ensures r[i] in ws && Contains(t, r[i]) {
      assert r[i] in d;
      assert r[i] in m;
    }
    if |r| < MaxTopTerms {
      assert r == d;
      forall k | 0 <= k < |ws| && Contains(t, ws[k]) ensures ws[k] in r {
        assert ws[k] in m;
        var i :| 0 <= i < |m| && m[i] == ws[k];
      }
    }
  }

  /**
   * `topTerms` holds at most ten pairwise distinct lexicon terms, each a substring of the
   * lower-cased text (no word boundary needed), in lexicon order; when it holds fewer than
   * ten, it holds every lexicon term the lower-cased text contains.
   */
  lemma TopTermsFacts(text: string)
    ensures var r := ScoreText(text).topTerms;
      && |r| <= MaxTopTerms
      && Distinct(r)
      && (forall i :: 0 <= i < |r| ==> r[i] in AllTerms() && Contains(Lower(text), r[i]))
      && IsSubsequence(r, AllTerms())
      && (|r| < MaxTopTerms ==>
            forall k :: 0 <= k < |AllTerms()| && Contains(Lower(text), AllTerms()[k]) ==> AllTerms()[k] in r)
    ensures ScoreText(text).topTerms == Take(Matched(Lower(text), AllTerms()), MaxTopTerms)
  {
    AllTermsDistinct();
    CappedDedupFacts(Lower(text), AllTerms());
  }

  /** Each count is positive exactly when one of the category's terms occurs as a whole word. */
  lemma CountsAreWholeWordHits(text: string)
    ensures Complete(ScoreText(text).counts)
    ensures forall c: Category :: ScoreText(text).counts[c] > 0 <==>
      exists k, q :: 0 <= k < |Terms(c)| && WordAt(Lower(text), Terms(c)[k], q)
  {
    assert ScoreText(text).counts == Counts(Lower(text));
    CountsPositiveIffWord(Lower(text));
  }

  lemma CountsPositiveIffWord(t: string)
    ensures forall c: Category :: Counts(t)[c] > 0 <==>
      exists k, q :: 0 <= k < |Terms(c)| && WordAt(t, Terms(c)[k], q)
  {
    forall c: Category ensures Counts(t)[c] > 0 <==>
      exists k, q :: 0 <= k < |Terms(c)| && WordAt(t, Terms(c)[k], q)
    {
      assert Declared[Index(c)] == c;
      assert Counts(t)[c] == CategoryCount(t, Terms(c));
      CategoryPositiveIffWord(t, Terms(c));
    }
  }

  /** A category's count is positive exactly when one of its terms occurs as a whole word. */
  lemma CategoryPositiveIffWord(t: string, ws: seq<Term>)
    ensures CategoryCount(t, ws) > 0 <==> exists k, q :: 0 <= k < |ws| && WordAt(t, ws[k], q)
  {
    CategoryCountPositive(t, ws);
    forall k | 0 <= k < |ws| ensures CountMatches(t, ws[k]) > 0 <==> exists q :: WordAt(t, ws[k], q) {
      CountPositiveIffWord(t, ws[k]);
    }
  }

  /** Text in which no lexicon term occurs as a whole word is safe. */
  lemma NoWholeWordHitIsSafe(text: string)
    requires forall c: Category, k, q :: 0 <= k < |Terms(c)| ==> !WordAt(Lower(text), Terms(c)[k], q)
    ensures !ScoreText(text).flagged && ScoreText(text).labelName == SafeLabel
  {
    var counts := ScoreText(text).counts;
    CountsAreWholeWordHits(text);
    FlaggedIff(counts);
    LabelIsLeader(counts);
    forall c: Category ensures ScoreOf(counts, c) == 0 {
      assert counts[c] == 0;
    }
  }

  /** The result is the same for the lower-cased text, except for the preview, which keeps the original case. */
  lemma ScoreIgnoresCase(text: string)
    ensures ScoreText(Lower(text)).(preview := ScoreText(text).preview) == ScoreText(text)
    ensures ScoreText(text).preview == text[..if |text| <= PreviewLength then |text| else PreviewLength]
  {
    LowerFacts(text);
  }
}
