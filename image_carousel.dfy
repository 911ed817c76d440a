/**
 * The image carousel of the about page (startImageCarousel and its inner changeImage).
 *
 * Each tick of the 5-second interval is a call of ChangeImage; the `.foto` element's
 * `src` and `alt` are fields of the carousel.
 */
module ImageCarousel {
  import opened Options

  // ---------------------------------------------------------------------------
  // Decimal text of a number, as a template literal prints it
  // ---------------------------------------------------------------------------

  function DigitChar(d: nat): (c: char)
    requires d < 10
    ensures '0' <= c <= '9' && c as int - '0' as int == d
  {
    (d + '0' as int) as char
  }

  /** The decimal digits of `n`, without leading zeros. */
  function Decimal(n: nat): (s: string)
    ensures |s| >= 1
    ensures forall i :: 0 <= i < |s| ==> '0' <= s[i] <= '9'
    ensures |s| > 1 ==> s[0] != '0'
  {
    if n < 10 then [DigitChar(n)] else Decimal(n / 10) + [DigitChar(n % 10)]
  }

  /** The number a string of decimal digits stands for. */
  function DecimalValue(s: string): nat
    requires forall i :: 0 <= i < |s| ==> '0' <= s[i] <= '9'
  {
    if s == [] then 0 else DecimalValue(s[..|s| - 1]) * 10 + (s[|s| - 1] as int - '0' as int)
  }

  /** Printing a number and reading the digits back gives the number. */
  lemma {:induction false} DecimalRoundTrip(n: nat)
    ensures DecimalValue(Decimal(n)) == n
  {
    if n >= 10 {
      DecimalRoundTrip(n / 10);
      var s := Decimal(n);
      assert s[..|s| - 1] == Decimal(n / 10);
    }
  }

  // ---------------------------------------------------------------------------
  // The carousel
  // ---------------------------------------------------------------------------

  /** The index after `calls` ticks, step by step as changeImage advances it. */
  function IndexAfter(calls: nat, count: nat): (index: nat)
    requires count > 0
    ensures index < count
  {
    if calls == 0 then 0 else (IndexAfter(calls - 1, count) + 1) % count
  }

  /** With the two images of the source, stepping by one modulo 2, `calls` times from 0, lands on `calls mod 2`. */
  lemma {:induction false} IndexAfterIsMod(calls: nat)
    ensures IndexAfter(calls, 2) == calls % 2
  {
    if calls > 0 {
      IndexAfterIsMod(calls - 1);
    }
  }

  class Carousel {
    /** The image list, in display order. */
    const imageUrls: seq<string>
    var currentIndex: nat
    /** The `src` and `alt` attributes of the `.foto` image. */
    var src: string
    var alt: string
    /** How many times changeImage has run. */
    ghost var calls: nat

    ghost predicate Valid()
      reads this`currentIndex, this`calls
    {
      |imageUrls| == 2 && currentIndex == IndexAfter(calls, |imageUrls|)
    }

    /** The state startImageCarousel sets up around an existing image, before the first tick. */
    constructor (src: string, alt: string)
      ensures Valid()
      ensures imageUrls == ["tapas.jpg", "ojo.jpg"]
      ensures currentIndex == 0 && calls == 0 && this.src == src && this.alt == alt
    {
      imageUrls := ["tapas.jpg", "ojo.jpg"];
      currentIndex := 0;
      this.src := src;
      this.alt := alt;
      calls := 0;
    }

    /**
     * One tick: shows the image under the index, labels it "Imagen <index + 1>" and moves the
     * index on by one, wrapping at the end of the list. The k-th tick (from 0) shows
     * image k mod 2 and leaves the index at (k + 1) mod 2.
     */
    method ChangeImage()
      requires Valid()
      modifies this
      ensures Valid()
      ensures calls == old(calls) + 1
      ensures src == imageUrls[old(calls) % |imageUrls|]
      ensures alt == "Imagen " + Decimal(old(currentIndex) + 1)
      ensures currentIndex == (old(currentIndex) + 1) % |imageUrls| == calls % |imageUrls|
    {
      IndexAfterIsMod(calls);
      src := imageUrls[currentIndex];
      alt := "Imagen " + Decimal(currentIndex + 1);
      currentIndex := (currentIndex + 1) % |imageUrls|;
      calls := calls + 1;
      IndexAfterIsMod(calls);
    }
  }

  /** `startImageCarousel()`: without a `.foto` image it gives up; otherwise the carousel starts at index 0. */
  method StartImageCarousel(image: Option<(string, string)>) returns (carousel: Option<Carousel>)
    ensures image.None? <==> carousel.None?
    ensures carousel.Some? ==> fresh(carousel.value) && carousel.value.Valid() && carousel.value.currentIndex == 0
    ensures carousel.Some? ==>
      && carousel.value.imageUrls == ["tapas.jpg", "ojo.jpg"] && carousel.value.calls == 0
      && carousel.value.src == image.value.0 && carousel.value.alt == image.value.1
  {
    if image.None? {
      return None;
    }
    var c := new Carousel(image.value.0, image.value.1);
    carousel := Some(c);
  }

  /** The first three ticks show tapas.jpg, ojo.jpg, tapas.jpg, labelled Imagen 1, Imagen 2, Imagen 1. */
  method FirstTicks()
  {
    var started := StartImageCarousel(Some(("x.jpg", "x")));
    var c := started.value;
    c.ChangeImage();
    assert c.src == "tapas.jpg" && c.alt == "Imagen " + Decimal(1);
    c.ChangeImage();
    assert c.src == "ojo.jpg" && c.alt == "Imagen " + Decimal(2);
    c.ChangeImage();
    assert c.src == "tapas.jpg" && c.currentIndex == 1;
  }
}
