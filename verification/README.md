# Doctor gallery: the slideshow state machine

This is a Dafny model of the state behind a browser gallery. The gallery
keeps a list of doctors. Each doctor has a name and an ordered list of images
stored as data-URI strings. Opening a doctor shows its images as a slideshow
with a counter, next and previous buttons and swipe navigation. The whole list
can be restored from a backup file.

The page's script keeps three module-level variables. The model keeps the
same three, as the fields of the class `App.Gallery`:

- `doctors`: a `seq<Doctor>`.
- `currentDoctor`: `Option<nat>`. It is `None` while the list is shown.
- `currentSlide`: a `nat`.

Each event handler becomes a method that reassigns these fields. The methods
are `AddDoctor`, `DeleteDoctor`, `OpenSlideshow`, `AppendImages`, `Next`,
`Prev`, `Back`, `Restore` and `Swipe`. The constructor is the start-up load.
`RenderSlides` computes what the slide renderer displays: the active mark of
each slide and the counter.

The pure rules behind the handlers are functions with their own lemmas:

- `Doctors` holds the entity, `splice`-by-index deletion, the image append
  and the all-or-nothing restore.
- `Slideshow` holds clamped navigation, the counter, the active slide and the
  ±50-pixel swipe rule.

`Gallery.Valid()` is the slideshow invariant. When a slideshow is open, its
doctor exists and `currentSlide <= max(0, len - 1)`. Here `len` is that
doctor's number of images. The constructor, `OpenSlideshow` and `Back`
establish the invariant. `AddDoctor`, `AppendImages`, `Next`, `Prev` and
`Swipe` preserve it.

`DeleteDoctor` and `Restore` keep `currentDoctor` and `currentSlide`
unchanged. `DeleteDoctor` is only reached from the list view, where
`currentDoctor` is null, so the invariant holds trivially there. `Restore`
finishes asynchronously, once the file has been read. It keeps the invariant
when no slideshow is open by then, but not in general (see "## Left out").

Where the script's behaviour may be surprising, the model follows the
script:

- A name that is only spaces is accepted. The script tests only that the
  prompt's answer is truthy.
- `Back` leaves `currentSlide` as it was. Opening a slideshow resets it
  to 0.
- `Prev` decrements without looking at the open doctor. `Next` reads the
  open doctor's image count, so `Next` requires an open doctor and `Prev`
  does not.

Two behaviours of the script are evidently unintended; they are listed
under "## Findings". For those two, `Gallery.Swipe` and `Gallery.Restore`
follow the corrected behaviour. The script as written is modelled beside
them, in `Slideshow.StackedSwipe` and `Doctors.RestoreAsWritten`.

## Model

| member | source | states |
|---|---|---|
| `Doctors.Splice` | script.js:50 | When `i` is in range, deletion removes exactly the element at `i`. The length drops by one, earlier elements stay put, later ones shift down by one, and the multiset loses only `s[i]`. An index past the end changes nothing, as with `splice`. |
| `Doctors.WithImages` | script.js:132-136 | Appending K images to doctor `j`: the doctor keeps its name, now has N+K images, its first N images are unchanged and the last K are the new ones in order. Every other doctor is unchanged. |
| `Doctors.RestoreAsWritten` | script.js:204-217 | The handler as written. A parsed array replaces the store verbatim whether or not the save succeeds. The success notice comes only when the save succeeds. A failed parse or a failed save gives the read-error notice, and a non-array gives the invalid-format notice. |
| `Doctors.RestoreOverwritesOnError` | script.js:205-216 | A parsed array whose save fails ends with the read-error notice, yet the store has been replaced. |
| `Doctors.RestoreFrom` | script.js:204-217 | Restore is all or nothing. Only a parsed array that is also saved replaces the store, verbatim. A non-array gives the invalid-format notice. A parse failure or a failed save gives the read-error notice. In every case other than success the store is unchanged. |
| `Doctors.RestoreFromAgreesWhenSaved` | script.js:204-217 | The all-or-nothing restore and the handler as written agree on every input except a parsed array whose save fails. |
| `Doctors.DeleteUndoesAdd` | script.js:47-79 | Deleting the doctor just added, at the last index, gives back the previous store. |
| `Doctors.DeleteCommutesWithAdd` | script.js:47-79 | Deleting an existing doctor commutes with adding a new one. The new doctor ends up last either way. |
| `Doctors.AppendImagesTwice` | script.js:132-136 | Two uploads to the same doctor give the same store as one upload of both batches in order. |
| `Slideshow.MaxSlide` | script.js:144 | With images, the bound is a valid slide index and no later index is valid. Without images it is 0. |
| `Slideshow.NextSlide` | script.js:142-148 | Next moves forward by at most one slide. It is a no-op exactly at or beyond the last slide, so an empty list never moves. It never leaves the valid range. |
| `Slideshow.PrevSlide` | script.js:150-155 | Previous moves back by at most one slide. It is a no-op exactly at slide 0. |
| `Slideshow.NextTimesStopsAtLast` | script.js:142-148 | `n` clicks on next from a valid slide reach `min(slide + n, last)`: they stop at the end with no wraparound. |
| `Slideshow.PrevTimesStopsAtFirst` | script.js:150-155 | `n` clicks on previous reach `max(slide - n, 0)`. |
| `Slideshow.NextThenPrevReturns` | script.js:142-155 | If `n` nexts do not reach the clamp, `n` previouses that follow return to the starting slide. |
| `Slideshow.SlideCounter` | script.js:96-113 | The counter reads "0 / 0" exactly when there are no images. Otherwise it reads "(currentSlide+1) / len", and for a valid slide the position is between 1 and the total. |
| `Slideshow.ActiveSlide` | script.js:102-105 | A slide is active exactly when `currentSlide` is below the image count. For a non-empty list and a valid slide, the active image is `images[currentSlide]`. |
| `Slideshow.OneSlideActive` | script.js:102-105 | If exactly the flag at `currentSlide` is set, the number of active slides is 1 when `currentSlide` is in range and 0 otherwise. |
| `Slideshow.SwipeAction` | script.js:230-234 | Next fires exactly when `endX < startX - 50` and previous exactly when `endX > startX + 50`. Nothing fires for a displacement of at most 50 either way. The two never fire together. |
| `Slideshow.SwipedSlide` | script.js:230-234 | A swipe ending more than 50 to the left acts as next. One ending more than 50 to the right acts as previous. One within 50 either way leaves the slide as it was. A swipe moves at most one slide and keeps a valid slide valid. |
| `Slideshow.StackedSwipe` | script.js:226-239 | The script as written: each of `k` registered touchend handlers applies the same swipe in turn. With one handler this is a single swipe. The slide stays valid. |
| `Slideshow.StackedSwipeIsNextTimes` | script.js:226-239 | With `k` touchend handlers registered, a left swipe acts as `k` clicks on next. |
| `Slideshow.StackedSwipeOversteps` | script.js:226-239 | With `k` handlers registered, a left swipe from a valid slide reaches `min(slide + k, last)`. |
| `Slideshow.StackedSwipeAfterFullscreenTrip` | script.js:237-239 | After one trip into fullscreen and back, a single left swipe from slide 0 of 5 lands on slide 3. With one handler it would land on slide 1. |
| `App.Gallery.constructor` | script.js:1-3 | Start-up loads the persisted list, or the empty list when no entry is stored. No doctor is open and the slide is 0. |
| `App.Gallery.AddDoctor` | script.js:72-79 | A non-empty, non-cancelled name appends exactly one `Doctor(name, [])` at the end. A cancelled or empty name leaves the store unchanged. The view state is untouched and the invariant is kept. |
| `App.Gallery.DeleteDoctor` | script.js:47-54 | A confirmed delete at `i` turns the store into `Splice(store, i)`. An unconfirmed delete leaves it unchanged. The view state is untouched. |
| `App.Gallery.OpenSlideshow` | script.js:82-89 | For an index within the list it sets `currentDoctor` to that index and `currentSlide` to 0, leaves the store unchanged and establishes the invariant. |
| `App.Gallery.AppendImages` | script.js:132-136 | If a doctor is open when the reads finish, its images become the old images followed by the new ones, with the rest as `WithImages` states. If none is open, the push throws: the upload is lost and the store is unchanged. `currentDoctor` and `currentSlide` are unchanged either way and the invariant is kept. |
| `App.Gallery.Next` | script.js:142-148 | `currentSlide` becomes `NextSlide(currentSlide, len)`. Nothing else changes and the invariant is kept. |
| `App.Gallery.Prev` | script.js:150-155 | `currentSlide` becomes `PrevSlide(currentSlide)`. Nothing else changes and the invariant is kept. |
| `App.Gallery.Back` | script.js:158-163 | Clears `currentDoctor` and leaves the store and the slide index unchanged. |
| `App.Gallery.Restore` | script.js:204-217 | The store and the notice are those of `RestoreFrom`, taking whether the save succeeded as an input. A failed save puts the previous list back. The view state is untouched, and the invariant holds when no slideshow was open. |
| `App.Gallery.Swipe` | script.js:230-234 | The two independent threshold tests move the slide exactly as `SwipedSlide` says: at most one step. Nothing else changes and the invariant is kept. |
| `App.Gallery.RenderSlides` | script.js:92-114 | There is one active mark per image, set exactly at `currentSlide`. The counter is `SlideCounter(currentSlide, len)`. Under the invariant with at least one image, exactly one slide is active, and it shows `ActiveSlide`. |

## Findings

| source | as written | input that shows it | evidently intended | confidence | as-written member | corrected member |
|---|---|---|---|---|---|---|
| script.js:237-239 | Every `fullscreenchange` runs `enableSwipe` again, which adds another pair of touch listeners on top of the earlier ones. A single swipe then clicks next (or previous) once per registered listener. | Enter and leave fullscreen once, so three touchend handlers are registered. Then swipe 100 pixels left on slide 0 of 5: the slideshow lands on slide 3. | Swipes keep working in fullscreen, and one swipe moves exactly one slide. | high, not executed | `Slideshow.StackedSwipeAfterFullscreenTrip` | `App.Gallery.Swipe` |
| script.js:205-216 | Parsing, replacing the list (208), saving it (209) and re-rendering share one `try`. If the save throws, for example because storage is over quota, the catch shows "Error reading file!". By then the in-memory list has already been replaced, and the cards are not re-rendered. | A valid backup array whose serialized size exceeds the storage quota: the user is told the file could not be read, yet `doctors` holds the new list. The old cards stay on screen and can open an index the new list does not have. | A restore that reports an error changes nothing. | medium, not executed | `Doctors.RestoreOverwritesOnError` | `App.Gallery.Restore` |

## Left out

- DOM construction and display switching (`innerHTML`, `createElement`, `style.display`, the heading text) are not modelled. `RenderSlides` keeps only the active marks and the counter values. The doctor-card list rendering (script.js:14-67) is not modelled beyond the indices it passes to `OpenSlideshow` and `DeleteDoctor`.
- `App.Gallery.RenderSlides`: the counter is the pair of numbers, not the text. The decimal formatting of the template string is not modelled.
- `localStorage` and `JSON.stringify`/`JSON.parse` are foreign calls. The persisted entry reaches the constructor as an `Option<seq<Doctor>>`. `None` stands for an absent entry and for any falsy parsed value (`null`, `false`, `0`, `""`), all of which `|| []` turns into the empty list. Two other cases are not modelled: stored text that does not parse makes the first line throw, and a truthy non-array breaks the first render (`doctors.forEach` at script.js:16). `saveDoctors` is modelled only inside Restore, where its outcome is an input. Elsewhere it runs after the in-memory change. A failed save there throws, which skips the re-render but leaves the modelled state the same, so it is not modelled.
- Backup (script.js:181-191) is not modelled: the Blob, the object URL and the download. The backup/restore round trip is not claimed, because it rests entirely on the JSON library.
- `Doctors.RestoreFrom`: the result of parsing a restore file is an input, `ParseOutcome`. An array's elements are taken to be doctor records. The script copies any array verbatim with no per-element check.
- `FileReader`, Promises and `Promise.all` (script.js:117-137, 199-221) are not modelled. `AppendImages` receives the already-read data URIs in selection order. It acts on whichever doctor is open when the reads finish, as the script does. Two overlapping uploads are two `AppendImages` calls in completion order.
- `prompt`, `confirm` and `alert` become inputs and outputs: an `Option<string>` name, a `bool` answer and the returned `Notice`.
- The long-press reveal of the delete button (script.js:24-40, 56-59) is not modelled. It is timer and DOM plumbing with no state beyond the revealed button. A click that ends a long press also reaches the card's click handler; that is not modelled either.
- The fullscreen toggle (script.js:166-173) is not modelled.
- `Slideshow.SwipeAction`: touch coordinates are exact `real`s. The script compares doubles. The rounding of `startX - 50` and `startX + 50` is not modelled, and neither are NaN and infinite values.
- `App.Gallery.Restore`: the list is replaced in the file reader's `onload` callback (script.js:204-217). While the read is pending, the list view stays live and a card click can open a slideshow. A restore that finishes then can leave `currentDoctor` past the end of the new list, or `currentSlide` past the new doctor's last image. `Valid()` is claimed only when no slideshow was open.
- `App.Gallery.OpenSlideshow`: requires an index within the list, which every freshly rendered card supplies. A card left on screen after a save failed during delete (script.js:50-52) can pass an index past the end. The script then sets the state and throws at script.js:87; that case is not modelled.
