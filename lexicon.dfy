/**
 * The content script's category lexicon (`WORDLIST`) and its per-category weights.
 * Weights are kept in exact tenths: 0.7 is 7, 0.5 is 5, 0.9 is 9, 1.0 is 10.
 */
module Lexicon {
  import opened Seqs

  /** A lexicon term; every term of the lexicon is non-empty. */
  type Term = w: string | |w| > 0 witness "a"

  /** The five categories, in the order `WORDLIST` declares them. */
  datatype Category = Sexual | Insults | HinglishProfanity | Hate | SelfHarm

  const Declared: seq<Category> := [Sexual, Insults, HinglishProfanity, Hate, SelfHarm]

  /** Position of a category in the declaration order. */
  function Index(c: Category): (i: nat)
    ensures i < |Declared| && Declared[i] == c
  {
    match c
    case Sexual => 0
    case Insults => 1
    case HinglishProfanity => 2
    case Hate => 3
    case SelfHarm => 4
  }

  /** The object key of the category, which is also the label the classifier reports. */
  function Name(c: Category): string {
    match c
    case Sexual => "sexual"
    case Insults => "insults"
    case HinglishProfanity => "hinglishProfanity"
    case Hate => "hate"
    case SelfHarm => "selfharm"
  }

  /** The weight of a category, in tenths. */
  function Weight(c: Category): nat {
    match c
    case Sexual => 7
    case Insults => 5
    case HinglishProfanity => 9
    case Hate => 10
    case SelfHarm => 10
  }

  // Each list is written in chunks of at most eight terms, in order.
  const SexualTerms: seq<Term> := SexualTerms1 + SexualTerms2 + SexualTerms3
  const SexualTerms1: seq<Term> := ["nsfw", "porn", "sex", "nude", "boobs", "tits", "ass", "dick"]
  const SexualTerms2: seq<Term> := ["cock", "pussy", "fuck", "suck", "deepthroat", "blowjob", "handjob"]
  const SexualTerms3: seq<Term> := ["randi", "randwa", "bhosdi", "lund", "chut", "chod", "chudai"]

  const InsultTerms: seq<Term> := InsultTerms1 + InsultTerms2
  const InsultTerms1: seq<Term> := ["idiot", "moron", "stupid", "dumb", "loser", "trash"]
  const InsultTerms2: seq<Term> := ["garbage", "bastard", "asshole", "retard", "fool"]

  const HinglishTerms: seq<Term> := HinglishTerms1 + HinglishTerms2
  const HinglishTerms1: seq<Term> := ["bsdk", "bkl", "mc", "bc", "chutiya", "madarchod", "behenchod"]
  const HinglishTerms2: seq<Term> := ["gaandu", "harami", "kamina", "kutte", "gandu", "saala"]

  const HateTerms: seq<Term> := HateTerms1 + HateTerms2
  const HateTerms1: seq<Term> := ["kill", "rape", "lynch", "genocide", "exterminate", "gas them", "hate", "nazis"]
  const HateTerms2: seq<Term> := ["jews", "muslims", "hindus", "sikhs", "christians", "dalit", "casteist", "terrorist"]

  const SelfHarmTerms: seq<Term> :=
    ["suicide", "kill myself", "kms", "end it", "cutting", "self harm", "self-harm",
     "no reason to live"]

  /** The terms of a category, in declaration order. */
  function Terms(c: Category): seq<Term> {
    match c
    case Sexual => SexualTerms
    case Insults => InsultTerms
    case HinglishProfanity => HinglishTerms
    case Hate => HateTerms
    case SelfHarm => SelfHarmTerms
  }

  /** `Object.values(WORDLIST).flat()`: all terms, category after category. */
  function AllTerms(): seq<Term> {
    Terms(Sexual) + Terms(Insults) + Terms(HinglishProfanity) + Terms(Hate) + Terms(SelfHarm)
  }

  /** Every category is declared exactly once, and the declaration index identifies it. */
  lemma DeclaredIsComplete()
    ensures forall c: Category :: c in Declared
    ensures forall i, j :: 0 <= i < j < |Declared| ==> Declared[i] != Declared[j]
    ensures forall c, d: Category :: Index(c) == Index(d) ==> c == d
    ensures forall i :: 0 <= i < |Declared| ==> Index(Declared[i]) == i
  {
    forall c: Category ensures c in Declared {
      assert Declared[Index(c)] == c;
    }
  }

  // Distinctness of the lexicon, one category or one pair of categories at a time.
  lemma SexualDistinct() ensures Distinct(SexualTerms) {}
  lemma InsultDistinct() ensures Distinct(InsultTerms) {}
  lemma HinglishDistinct() ensures Distinct(HinglishTerms) {}
  lemma HateDistinct() ensures Distinct(HateTerms) {}
  lemma SelfHarmDistinct() ensures Distinct(SelfHarmTerms) {}

  lemma SexualInsultDisjoint() ensures Disjoint(SexualTerms, InsultTerms) {}
  lemma SexualHinglishDisjoint() ensures Disjoint(SexualTerms, HinglishTerms) {}
  lemma InsultHinglishDisjoint() ensures Disjoint(InsultTerms, HinglishTerms) {}
  lemma SexualHateDisjoint() ensures Disjoint(SexualTerms, HateTerms) {}
  lemma InsultHateDisjoint() ensures Disjoint(InsultTerms, HateTerms) {}
  lemma HinglishHateDisjoint() ensures Disjoint(HinglishTerms, HateTerms) {}
  lemma SexualSelfHarmDisjoint() ensures Disjoint(SexualTerms, SelfHarmTerms) {}
  lemma InsultSelfHarmDisjoint() ensures Disjoint(InsultTerms, SelfHarmTerms) {}
  lemma HinglishSelfHarmDisjoint() ensures Disjoint(HinglishTerms, SelfHarmTerms) {}
  lemma HateSelfHarmDisjoint() ensures Disjoint(HateTerms, SelfHarmTerms) {}

  /** No term is listed twice, within a category or across categories. */
  lemma AllTermsDistinct()
    ensures Distinct(AllTerms())
  {
    var s, i, h, d, x := SexualTerms, InsultTerms, HinglishTerms, HateTerms, SelfHarmTerms;
    SexualDistinct(); InsultDistinct(); HinglishDistinct(); HateDistinct(); SelfHarmDistinct();
    SexualInsultDisjoint();
    DistinctConcat(s, i);
    SexualHinglishDisjoint(); InsultHinglishDisjoint();
    DisjointConcat(s, i, h);
    DistinctConcat(s + i, h);
    SexualHateDisjoint(); InsultHateDisjoint(); HinglishHateDisjoint();
    DisjointConcat(s, i, d);
    DisjointConcat(s + i, h, d);
    DistinctConcat(s + i + h, d);
    SexualSelfHarmDisjoint(); InsultSelfHarmDisjoint(); HinglishSelfHarmDisjoint(); HateSelfHarmDisjoint();
    DisjointConcat(s, i, x);
    DisjointConcat(s + i, h, x);
    DisjointConcat(s + i + h, d, x);
    DistinctConcat(s + i + h + d, x);
  }
}
