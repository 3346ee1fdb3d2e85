/**
 The gallery's mutable state and the event handlers that change it: the list
 of doctors, the doctor whose slideshow is open (none while the list is
 shown) and the 0-based index of the slide on screen.
 */
module App {

  import opened Doctors
  import opened Slideshow

  class Gallery {
    var doctors: seq<Doctor>
    var currentDoctor: Option<nat>
    var currentSlide: nat

    /** A slideshow is open on a doctor that exists. */
    predicate IsOpen()
      reads this
    {
      currentDoctor.Some? && currentDoctor.value < |doctors|
    }

    /** The images of the doctor whose slideshow is open. */
    function Images(): seq<string>
      reads this
      requires IsOpen()
    {
      doctors[currentDoctor.value].images
    }

    /** While a slideshow is open, its doctor exists and the current slide is one of its images (or 0 when it has none). */
    predicate Valid()
      reads this
    {
      currentDoctor.Some? ==> IsOpen() && currentSlide <= MaxSlide(|Images()|)
    }

    /**
     Start-up: the persisted list, or the empty list when storage holds no
     entry (an absent key parses to null).
     */
    constructor (stored: Option<seq<Doctor>>)
      ensures doctors == (if stored.Some? then stored.value else [])
      ensures currentDoctor == None && currentSlide == 0
      ensures Valid()
    {
      doctors := if stored.Some? then stored.value else [];
      currentDoctor := None;
      currentSlide := 0;
    }

    /** The add-doctor button; `name` is what the prompt returned (None when cancelled). */
    method AddDoctor(name: Option<string>)
      modifies this
      ensures AcceptsName(name) ==> doctors == old(doctors) + [Doctor(name.value, [])]
      ensures !AcceptsName(name) ==> doctors == old(doctors)
      ensures currentDoctor == old(currentDoctor) && currentSlide == old(currentSlide)
      ensures old(Valid()) ==> Valid()
    {
      if AcceptsName(name) {
        doctors := doctors + [Doctor(name.value, [])];
      }
    }

    /** The delete button revealed on card `i`; `confirmed` is the answer to the confirmation dialog. */
    method DeleteDoctor(i: nat, confirmed: bool)
      modifies this
      ensures doctors == if confirmed then Splice(old(doctors), i) else old(doctors)
      ensures currentDoctor == old(currentDoctor) && currentSlide == old(currentSlide)
      ensures currentDoctor.None? ==> Valid()
    {
      if confirmed {
        doctors := Splice(doctors, i);
      }
    }

    /** A click on card `index` opens that doctor's slideshow at its first slide. */
    method OpenSlideshow(index: nat)
      requires index < |doctors|
      modifies this
      ensures currentDoctor == Some(index) && currentSlide == 0
      ensures doctors == old(doctors)
      ensures IsOpen() && Valid()
    {
      currentDoctor := Some(index);
      currentSlide := 0;
    }

    /**
     The images read from the chosen files, in selection order, are appended
     to whichever doctor is open when the reads finish. If none is open by
     then (back was pressed meanwhile), the push throws and the upload is
     lost: `appended` is false and nothing changes.
     */
    method AppendImages(imgs: seq<string>) returns (appended: bool)
      modifies this
      ensures appended == old(IsOpen())
      ensures appended ==> doctors == WithImages(old(doctors), old(currentDoctor).value, imgs)
      ensures appended ==> IsOpen() && Images() == old(Images()) + imgs
      ensures !appended ==> doctors == old(doctors)
      ensures currentDoctor == old(currentDoctor) && currentSlide == old(currentSlide)
      ensures old(Valid()) ==> Valid()
    {
      appended := IsOpen();
      if appended {
        var j := currentDoctor.value;
        doctors := doctors[j := doctors[j].(images := doctors[j].images + imgs)];
      }
    }

    /** The next button. */
    method Next()
      requires IsOpen()
      modifies this
      ensures currentSlide == NextSlide(old(currentSlide), |old(Images())|)
      ensures doctors == old(doctors) && currentDoctor == old(currentDoctor)
      ensures old(Valid()) ==> Valid()
    {
      if currentSlide < |doctors[currentDoctor.value].images| - 1 {
        currentSlide := currentSlide + 1;
      }
    }

    /** The previous button. */
    method Prev()
      modifies this
      ensures currentSlide == PrevSlide(old(currentSlide))
      ensures doctors == old(doctors) && currentDoctor == old(currentDoctor)
      ensures old(Valid()) ==> Valid()
    {
      if currentSlide > 0 {
        currentSlide := currentSlide - 1;
      }
    }

    /** The back button closes the slideshow; the slide index is left as it was. */
    method Back()
      modifies this
      ensures currentDoctor == None
      ensures doctors == old(doctors) && currentSlide == old(currentSlide)
      ensures Valid()
    {
      currentDoctor := None;
    }

    /**
     The end of a restore: the parsed file either replaces the whole list or
     changes nothing. `saved` says whether storage accepted the new list; a
     failed save puts the previous list back.
     */
    method Restore(parsed: ParseOutcome, saved: bool) returns (notice: Notice)
      modifies this
      ensures doctors == RestoreFrom(old(doctors), parsed, saved).store
      ensures notice == RestoreFrom(old(doctors), parsed, saved).notice
      ensures currentDoctor == old(currentDoctor) && currentSlide == old(currentSlide)
      ensures old(currentDoctor).None? ==> Valid()
    {
      match parsed
      case ParseError =>
        notice := ReadError;
      case NonArray =>
        notice := InvalidFormat;
      case Array(items) =>
        var previous := doctors;
        doctors := items;
        if saved {
          notice := Restored;
        } else {
          doctors := previous;
          notice := ReadError;
        }
    }

    /**
     A touch that starts at `startX` and ends at `endX` on the slides: two
     independent tests, each of which may click a navigation button.
     */
    method Swipe(startX: real, endX: real)
      requires IsOpen()
      modifies this
      ensures currentSlide == SwipedSlide(old(currentSlide), |old(Images())|, startX, endX)
      ensures doctors == old(doctors) && currentDoctor == old(currentDoctor)
      ensures old(Valid()) ==> Valid()
    {
      if endX < startX - SwipeThreshold {
        Next();
      }
      if endX > startX + SwipeThreshold {
        Prev();
      }
    }

    /**
     What the slideshow shows: one active mark per image (only the current
     slide is marked) and the counter text.
     */
    method RenderSlides() returns (active: seq<bool>, counter: Counter)
      requires IsOpen()
      ensures |active| == |Images()|
      ensures forall k :: 0 <= k < |active| ==> (active[k] <==> k == currentSlide)
      ensures counter == SlideCounter(currentSlide, |Images()|)
      ensures Valid() && 0 < |Images()| ==> CountActive(active) == 1
      ensures forall k :: 0 <= k < |active| && active[k] ==> ActiveSlide(Images(), currentSlide) == Some(Images()[k])
    {
      var images := doctors[currentDoctor.value].images;
      if |images| == 0 {
        return [], Counter(0, 0);
      }
      active := [];
      var i := 0;
      while i < |images|
        invariant 0 <= i <= |images|
        invariant |active| == i
        invariant forall k :: 0 <= k < i ==> (active[k] <==> k == currentSlide)
      {
        active := active + [i == currentSlide];
        i := i + 1;
      }
      counter := Counter(currentSlide + 1, |images|);
      OneSlideActive(active, currentSlide);
    }
  }

  /**
   A session from an empty store: add a doctor, open it, upload two images,
   click next twice (the second click is clamped), swipe right by 49, 50
   and 51 pixels (only the last goes back a slide), swipe left by 49, 50 and
   51 pixels (only the last goes forward a slide) and close it; an upload
   that finishes after closing is lost.
   */
  method Session(a: string, b: string)
  {
    var g := new Gallery(None);
    g.AddDoctor(Some("Dr. A"));
    assert g.doctors == [Doctor("Dr. A", [])];
    g.OpenSlideshow(0);
    var active, counter := g.RenderSlides();
    assert counter == Counter(0, 0);
    var appended := g.AppendImages([a, b]);
    assert appended;
    active, counter := g.RenderSlides();
    assert counter == Counter(1, 2) && active == [true, false];
    g.Next();
    active, counter := g.RenderSlides();
    assert counter == Counter(2, 2);
    g.Next();
    active, counter := g.RenderSlides();
    assert counter == Counter(2, 2);
    g.Swipe(200.0, 249.0);
    assert g.currentSlide == 1;
    g.Swipe(200.0, 250.0);
    assert g.currentSlide == 1;
    g.Swipe(200.0, 251.0);
    assert g.currentSlide == 0;
    g.Swipe(200.0, 151.0);
    assert g.currentSlide == 0;
    g.Swipe(200.0, 150.0);
    assert g.currentSlide == 0;
    g.Swipe(200.0, 149.0);
    assert g.currentSlide == 1;
    g.Back();
    assert g.currentDoctor == None && g.doctors == [Doctor("Dr. A", [a, b])];
    appended := g.AppendImages([a]);
    assert !appended && g.doctors == [Doctor("Dr. A", [a, b])];
  }
}
