/** The fixed campus slide list of the Campus section and the index arithmetic
    done on it: wrap-around stepping, the linear before/current/after
    classification used for the slide transitions, the caption lookup and the
    progress bar numerator. */
module Slides {

  datatype Slide = Slide(id: int, image: string, title: string, description: string, location: string)

  const CampusSlides: seq<Slide> := [
    Slide(1, "/campus-1.jpg", "Seoul National University Museum Of Art",
          "A cultural hub showcasing contemporary and traditional Korean art", "Gwanak Campus"),
    Slide(2, "/campus-2.jpg", "Gwanak Campus Main Gate",
          "The iconic entrance welcoming students and visitors from around the world", "Gwanak Campus"),
    Slide(3, "/campus-3.jpg", "Yeongeon Medical Campus",
          "State-of-the-art facilities for medical education and research", "Yeongeon Campus"),
    Slide(4, "/campus-4.jpg", "Pyeongchang Campus",
          "A serene mountain campus dedicated to sports science and research", "Pyeongchang Campus")
  ]

  /** `campusSlides.length`. */
  const SlideCount: int := 4

  lemma SlideCountIsLength()
    ensures |CampusSlides| == SlideCount
  {
  }

  /** A valid value of `currentSlide`. */
  type SlideIndex = i: int | 0 <= i < SlideCount

  /** `nextSlide`: the functional update `(prev + 1) % length`.  The operand is
      never negative, so the truncating `%` of the source agrees with Dafny's. */
  function Next(i: SlideIndex): (r: SlideIndex)
    ensures r == if i == SlideCount - 1 then 0 else i + 1
  {
    (i + 1) % SlideCount
  }

  /** `prevSlide`: the functional update `(prev - 1 + length) % length`. */
  function Prev(i: SlideIndex): (r: SlideIndex)
    ensures r == if i == 0 then SlideCount - 1 else i - 1
  {
    (i - 1 + SlideCount) % SlideCount
  }

  lemma PrevInvertsNext(i: SlideIndex)
    ensures Prev(Next(i)) == i
    ensures Next(Prev(i)) == i
  {
  }

  /** `k` applications of `Next`. */
  function NextN(i: SlideIndex, k: nat): SlideIndex
  {
    if k == 0 then i else Next(NextN(i, k - 1))
  }

  /** Stepping forward `k` times is a rotation by `k` modulo the slide count. */
  lemma {:induction false} NextNRotates(i: SlideIndex, k: nat)
    ensures NextN(i, k) == (i + k) % SlideCount
  {
    if k > 0 {
      NextNRotates(i, k - 1);
    }
  }

  /** Cyclic closure: `SlideCount` forward steps return to the start. */
  lemma NextCycle(i: SlideIndex)
    ensures NextN(i, SlideCount) == i
  {
    NextNRotates(i, SlideCount);
  }

  /** How a slide is rendered relative to the current one. */
  datatype Position = Current | Before | After

  /** The slide class choice: `index === currentSlide` first, then a LINEAR
      `index < currentSlide`; the comparison is not cyclic. */
  function Classify(index: SlideIndex, current: SlideIndex): (p: Position)
    ensures p == Current <==> index == current
    ensures p == Before <==> index < current
    ensures p == After <==> current < index
  {
    if index == current then Current
    else if index < current then Before
    else After
  }

  /** The slides drawn as current: exactly one. */
  function CurrentSlides(current: SlideIndex): (r: set<SlideIndex>)
    ensures r == {current}
  {
    set k: SlideIndex | Classify(k, current) == Current
  }

  /** On an ordinary forward step the slide left behind exits on the "before"
      side, but on the wrap from the last slide to the first it is classified
      "after": the linear comparison reverses the transition direction. */
  lemma ForwardStepExitSide(c: SlideIndex)
    ensures c < SlideCount - 1 ==> Classify(c, Next(c)) == Before
    ensures c == SlideCount - 1 ==> Classify(c, Next(c)) == After
  {
  }

  /** Symmetrically for a backward step and the wrap from the first slide to the last. */
  lemma BackwardStepExitSide(c: SlideIndex)
    ensures 0 < c ==> Classify(c, Prev(c)) == After
    ensures c == 0 ==> Classify(c, Prev(c)) == Before
  {
  }

  /** `campusSlides[currentSlide]`: the caption always reads an existing slide,
      the one whose id is `currentSlide + 1`. */
  function Caption(current: SlideIndex): (r: Slide)
    ensures r in CampusSlides
    ensures r.id == current + 1
  {
    SlideCountIsLength();
    CampusSlides[current]
  }

  /** The numerator of the progress bar width `(currentSlide + 1) / length`. */
  function ProgressNumerator(current: SlideIndex): (r: int)
    ensures 1 <= r <= SlideCount
    ensures r == SlideCount <==> current == SlideCount - 1
  {
    current + 1
  }

}
