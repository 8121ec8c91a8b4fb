/**
 The two score classifiers of the analysis page, `score_color` (the badge shown
 beside each path score) and `hadith_description` (the sentence shown under
 the unit score). Both cut the number line at 9, 7, 5 and 3 into five bands
 and print one fixed label per band.
 */
module Bands {
  import opened Scoring

  /** The five bands, strongest first. */
  datatype Band = VeryStrong | Strong | Medium | Weak | VeryWeak

  /** The shared `if`/`elif` chain: the first threshold the score reaches.
      The score lies in the interval of the band it gets. */
  function BandOf(score: real): (b: Band)
    ensures InBand(score, b)
  {
    if score >= 9.0 then VeryStrong
    else if score >= 7.0 then Strong
    else if score >= 5.0 then Medium
    else if score >= 3.0 then Weak
    else VeryWeak
  }

  /** Position of a band from the bottom, for comparing bands. */
  function Rank(b: Band): nat {
    match b
    case VeryWeak => 0
    case Weak => 1
    case Medium => 2
    case Strong => 3
    case VeryStrong => 4
  }

  /** The half-open interval of scores each band stands for. */
  predicate InBand(score: real, b: Band) {
    match b
    case VeryStrong => 9.0 <= score
    case Strong => 7.0 <= score < 9.0
    case Medium => 5.0 <= score < 7.0
    case Weak => 3.0 <= score < 5.0
    case VeryWeak => score < 3.0
  }

  /** The badge text of `score_color`, one per band. */
  function ColorLabel(b: Band): string {
    match b
    case VeryStrong => "🟢 قوي جدًا"
    case Strong => "🟢 قوي"
    case Medium => "🟡 متوسط"
    case Weak => "🟠 ضعيف"
    case VeryWeak => "🔴 ضعيف جدًا"
  }

  /** The sentence of `hadith_description`, one per band. */
  function DescriptionLabel(b: Band): string {
    match b
    case VeryStrong => "حديث ثابت قوي جدًا"
    case Strong => "حديث صحيح قوي"
    case Medium => "حديث حسن أو متوسط القوة"
    case Weak => "حديث ضعيف"
    case VeryWeak => "حديث ضعيف جدًا"
  }

  /** `score_color(score)`: the badge of a band is shown exactly when the
      score lies in that band's interval. */
  function ScoreColor(score: real): (text: string)
    ensures forall b :: text == ColorLabel(b) <==> InBand(score, b)
  {
    ColorLabel(BandOf(score))
  }

  /** `hadith_description(score)`: the sentence of a band is shown exactly
      when the score lies in that band's interval. */
  function HadithDescription(score: real): (text: string)
    ensures forall b :: text == DescriptionLabel(b) <==> InBand(score, b)
  {
    DescriptionLabel(BandOf(score))
  }

  // ---------------------------------------------------------------------
  // Properties
  // ---------------------------------------------------------------------

  /** The bands partition the numbers: every score lies in exactly one
      interval, and that is the band the classifiers pick. */
  lemma BandIntervals(score: real, b: Band)
    ensures BandOf(score) == b <==> InBand(score, b)
  {
  }

  /** A higher score never lands in a lower band. */
  lemma BandMonotone(x: real, y: real)
    requires x <= y
    ensures Rank(BandOf(x)) <= Rank(BandOf(y))
  {
  }

  /** Each band has its own badge and its own sentence. */
  lemma LabelsDistinct(b1: Band, b2: Band)
    requires b1 != b2
    ensures ColorLabel(b1) != ColorLabel(b2)
    ensures DescriptionLabel(b1) != DescriptionLabel(b2)
  {
  }

  /** `score_color` and `hadith_description` put two scores in the same band
      exactly together: the badges agree iff the sentences agree iff the
      bands agree. */
  lemma SameBands(x: real, y: real)
    ensures ScoreColor(x) == ScoreColor(y) <==> BandOf(x) == BandOf(y)
    ensures HadithDescription(x) == HadithDescription(y) <==> BandOf(x) == BandOf(y)
  {
    if BandOf(x) != BandOf(y) {
      LabelsDistinct(BandOf(x), BandOf(y));
    }
  }

  // ---------------------------------------------------------------------
  // The bands of the unit score
  // ---------------------------------------------------------------------

  /** One path alone can never reach the top band: its unit score is at
      most 8.2 for a slider value from 0 to 10. */
  lemma SinglePathBelowTopBand(s: int)
    requires 0 <= s <= 10
    ensures GlobalScore([s]) <= 8.2
    ensures BandOf(GlobalScore([s])) != VeryStrong
  {
    GlobalScoreSingle(s);
    var w := 0.8 * s as real + (if s >= StrongScore then 0.2 else 0.0);
    assert w <= 8.2;
    Round1Monotone(Min(w, Cap), 8.2);
    assert Round1(8.2) == 8.2;
  }

  /** Three paths scored 9, 7 and 5: weighted sum 4.5 + 2.1 + 0.4 = 7.0,
      the "strong" band. */
  lemma ThreePathExample()
    ensures GlobalScore([9, 7, 5]) == 7.0
    ensures HadithDescription(GlobalScore([9, 7, 5])) == DescriptionLabel(Strong)
  {
    var s := [9, 7, 5];
    assert s[1..] == [7, 5] && s[1..][1..] == [5] && s[1..][1..][1..] == [];
    assert Max(s) == 9 && Sum(s) == 21 && StrongCount(s) == 2;
    assert Weighted(s) == 7.0;
    assert Round1(7.0) == 7.0;
  }
}
