/**
 The store of the gallery: an ordered list of doctors, each owning an ordered
 list of encoded images, and the pure transitions the event handlers apply to it.
 */
module Doctors {

  datatype Option<+T> = None | Some(value: T)

  /** One doctor card: a name and the data-URI strings of its images, in upload order. */
  datatype Doctor = Doctor(name: string, images: seq<string>)

  /** What parsing a restore file produced: it threw, or it gave a non-array, or an array. */
  datatype ParseOutcome = ParseError | NonArray | Array(items: seq<Doctor>)

  /** The alert a restore attempt ends with. */
  datatype Notice = Restored | InvalidFormat | ReadError

  datatype RestoreResult = RestoreResult(store: seq<Doctor>, notice: Notice)

  /** The name `prompt` returned is used only when it is truthy: not cancelled and not empty. */
  predicate AcceptsName(name: Option<string>) {
    name.Some? && name.value != ""
  }

  /**
   `splice(i, 1)` on a list: removes the element at `i` and shifts the later
   ones down by one; an index past the end removes nothing.
   */
  function Splice<T>(s: seq<T>, i: nat): (r: seq<T>)
    ensures i < |s| ==> |r| == |s| - 1
    ensures i < |s| ==> forall k :: 0 <= k < i ==> r[k] == s[k]
    ensures i < |s| ==> forall k :: i <= k < |r| ==> r[k] == s[k + 1]
    ensures i < |s| ==> multiset(r) + multiset{s[i]} == multiset(s)
    ensures |s| <= i ==> r == s
  {
    if i < |s| then
      assert s == s[..i] + [s[i]] + s[i + 1..];
      s[..i] + s[i + 1..]
    else
      s
  }

  /** The store after `images.push(...imgs)` on doctor `j`. */
  function WithImages(store: seq<Doctor>, j: nat, imgs: seq<string>): (r: seq<Doctor>)
    requires j < |store|
    ensures |r| == |store|
    ensures r[j].name == store[j].name
    ensures |r[j].images| == |store[j].images| + |imgs|
    ensures r[j].images[..|store[j].images|] == store[j].images
    ensures r[j].images[|store[j].images|..] == imgs
    ensures forall k :: 0 <= k < |r| && k != j ==> r[k] == store[k]
  {
    store[j := store[j].(images := store[j].images + imgs)]
  }

  /**
   The restore handler as written. Parsing, the replacement of the list,
   the save to storage and the success alert share one `try`, so a save
   that throws (storage quota exceeded) is reported as a read error after
   the in-memory list has already been replaced.
   */
  function RestoreAsWritten(store: seq<Doctor>, parsed: ParseOutcome, saved: bool): (r: RestoreResult)
    ensures r.notice == Restored <==> parsed.Array? && saved
    ensures parsed.Array? ==> r.store == parsed.items
    ensures !parsed.Array? ==> r.store == store
    ensures r.notice == ReadError <==> parsed.ParseError? || (parsed.Array? && !saved)
    ensures r.notice == InvalidFormat <==> parsed.NonArray?
  {
    match parsed
    case ParseError => RestoreResult(store, ReadError)
    case NonArray => RestoreResult(store, InvalidFormat)
    case Array(items) => RestoreResult(items, if saved then Restored else ReadError)
  }

  /** A restore whose save fails shows the read error but leaves the list replaced. */
  lemma RestoreOverwritesOnError()
    ensures RestoreAsWritten([], Array([Doctor("Dr. A", [])]), false).notice == ReadError
    ensures RestoreAsWritten([], Array([Doctor("Dr. A", [])]), false).store != []
  {
  }

  /**
   Restore, all or nothing: an array that is also saved replaces the store
   wholesale and verbatim; anything else, including a failed save, leaves it
   as it was and only raises a notice.
   */
  function RestoreFrom(store: seq<Doctor>, parsed: ParseOutcome, saved: bool): (r: RestoreResult)
    ensures r.notice == Restored <==> parsed.Array? && saved
    ensures r.notice == Restored ==> r.store == parsed.items
    ensures r.notice != Restored ==> r.store == store
    ensures r.notice == ReadError <==> parsed.ParseError? || (parsed.Array? && !saved)
    ensures r.notice == InvalidFormat <==> parsed.NonArray?
  {
    match parsed
    case ParseError => RestoreResult(store, ReadError)
    case NonArray => RestoreResult(store, InvalidFormat)
    case Array(items) =>
      if saved then RestoreResult(items, Restored) else RestoreResult(store, ReadError)
  }

  /** The two restores differ only when a parsed array fails to save. */
  lemma RestoreFromAgreesWhenSaved(store: seq<Doctor>, parsed: ParseOutcome, saved: bool)
    requires saved || !parsed.Array?
    ensures RestoreFrom(store, parsed, saved) == RestoreAsWritten(store, parsed, saved)
  {
  }

  /** Deleting the doctor that was just added gives back the store as it was. */
  lemma DeleteUndoesAdd(store: seq<Doctor>, name: string)
    ensures Splice(store + [Doctor(name, [])], |store|) == store
  {
  }

  /**
   Deleting an earlier doctor and then adding commutes with adding and then
   deleting: the new doctor always lands at the end.
   */
  lemma DeleteCommutesWithAdd(store: seq<Doctor>, i: nat, d: Doctor)
    requires i < |store|
    ensures Splice(store + [d], i) == Splice(store, i) + [d]
  {
  }

  /**
   Two image uploads to the same doctor, each appended whole, give the same
   store as one upload of both batches in order.
   */
  lemma AppendImagesTwice(store: seq<Doctor>, j: nat, first: seq<string>, second: seq<string>)
    requires j < |store|
    ensures WithImages(WithImages(store, j, first), j, second) == WithImages(store, j, first + second)
  {
    assert store[j].images + first + second == store[j].images + (first + second);
  }
}
