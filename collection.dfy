/** The image collection held by the drop target: an ordered list of image
    paths that a drop extends and that an explicit clear empties. */
module ImageCollection {
  import opened Text

  /** The suffixes a dropped path must end with (after lower-casing). */
  const ImageExtensions: seq<string> := [".png", ".jpg", ".jpeg", ".bmp", ".gif"]

  /** The extension filter of a drop: the lower-cased path ends with one
      of the accepted extensions. An accepted path has at least four
      characters, the shortest extension. */
  function IsImagePath(path: string): (b: bool)
    ensures b ==> |path| >= 4
  {
    assert forall k :: 0 <= k < |ImageExtensions| ==> |ImageExtensions[k]| >= 4;
    exists k :: 0 <= k < |ImageExtensions| && EndsWithIgnoringCase(path, ImageExtensions[k])
  }

  /** The filter ignores case: a path passes iff its lower-cased form does. */
  lemma IsImagePathIgnoresCase(path: string)
    ensures IsImagePath(Lower(path)) == IsImagePath(path)
  {
    LowerIdempotent(path);
  }

  predicate NoDuplicates<T(==)>(s: seq<T>)
  {
    forall i, j :: 0 <= i < j < |s| ==> s[i] != s[j]
  }

  /** The invariant of the collection: every entry passed the extension
      filter and no path is stored twice. */
  predicate WellFormed(paths: seq<string>)
  {
    NoDuplicates(paths) && forall i :: 0 <= i < |paths| ==> IsImagePath(paths[i])
  }

  /** One turn of the drop loop: append the candidate if it has an image
      extension and is not stored yet. */
  function Admit(paths: seq<string>, candidate: string): (r: seq<string>)
    ensures r == paths || r == paths + [candidate]
    ensures r != paths <==> IsImagePath(candidate) && candidate !in paths
    ensures WellFormed(paths) ==> WellFormed(r)
  {
    if IsImagePath(candidate) && candidate !in paths then paths + [candidate] else paths
  }

  /** The list after a drop of `candidates`, taken one at a time in drop
      order (written as "all but the last, then the last"). A drop only
      appends, and appends no more paths than it delivers. */
  function AddAll(paths: seq<string>, candidates: seq<string>): (r: seq<string>)
    ensures paths <= r
    ensures |r| <= |paths| + |candidates|
    decreases |candidates|
  {
    if candidates == [] then paths
    else Admit(AddAll(paths, candidates[..|candidates| - 1]), candidates[|candidates| - 1])
  }

  /** Whether a drop onto `paths` keeps the candidate at index `i`: it has an
      image extension, is not stored, and was not dropped earlier in the
      same drop. */
  predicate KeptAt(paths: seq<string>, candidates: seq<string>, i: nat)
    requires i < |candidates|
  {
    IsImagePath(candidates[i]) && candidates[i] !in paths && candidates[i] !in candidates[..i]
  }

  /** The candidates a drop keeps, in drop order: the first occurrence of
      each new image path. */
  function FirstOccurrences(paths: seq<string>, candidates: seq<string>): (r: seq<string>)
    ensures |r| <= |candidates|
    decreases |candidates|
  {
    if candidates == [] then []
    else
      var n := |candidates| - 1;
      FirstOccurrences(paths, candidates[..n]) + (if KeptAt(paths, candidates, n) then [candidates[n]] else [])
  }

  lemma {:induction false} FirstOccurrencesMembers(paths: seq<string>, candidates: seq<string>, x: string)
    ensures x in FirstOccurrences(paths, candidates) <==> x in candidates && IsImagePath(x) && x !in paths
    decreases |candidates|
  {
    if candidates != [] {
      var n := |candidates| - 1;
      assert candidates == candidates[..n] + [candidates[n]];
      FirstOccurrencesMembers(paths, candidates[..n], x);
    }
  }

  /** A drop appends exactly the first occurrences of the new image paths,
      in the order they were dropped. */
  lemma {:induction false} AddAllOrder(paths: seq<string>, candidates: seq<string>)
    ensures AddAll(paths, candidates) == paths + FirstOccurrences(paths, candidates)
    decreases |candidates|
  {
    if candidates != [] {
      var n := |candidates| - 1;
      var init, last := candidates[..n], candidates[n];
      AddAllOrder(paths, init);
      FirstOccurrencesMembers(paths, init, last);
      var kept := FirstOccurrences(paths, init);
      if KeptAt(paths, candidates, n) {
        assert (paths + kept) + [last] == paths + (kept + [last]);
      } else {
        assert kept + [] == kept;
      }
    }
  }

  /** After a drop a path is stored exactly when it was stored before, or
      it was dropped and has an image extension. */
  lemma {:induction false} AddAllMembers(paths: seq<string>, candidates: seq<string>, x: string)
    ensures x in AddAll(paths, candidates) <==> x in paths || (x in candidates && IsImagePath(x))
    decreases |candidates|
  {
    if candidates != [] {
      var init := candidates[..|candidates| - 1];
      assert candidates == init + [candidates[|candidates| - 1]];
      AddAllMembers(paths, init, x);
      AddAllMembers(paths, init, candidates[|candidates| - 1]);
    }
  }

  /** A drop keeps the collection invariant. */
  lemma {:induction false} AddAllWellFormed(paths: seq<string>, candidates: seq<string>)
    requires WellFormed(paths)
    ensures WellFormed(AddAll(paths, candidates))
    decreases |candidates|
  {
    if candidates != [] {
      AddAllWellFormed(paths, candidates[..|candidates| - 1]);
    }
  }

  /** The growth of the list is the number of distinct dropped paths that
      have an image extension and were not stored before. */
  lemma {:induction false} AddAllCount(paths: seq<string>, candidates: seq<string>)
    ensures |AddAll(paths, candidates)| - |paths|
         == |set c | c in candidates && IsImagePath(c) && c !in paths|
    decreases |candidates|
  {
    if candidates == [] {
      assert (set c | c in candidates && IsImagePath(c) && c !in paths) == {};
    } else {
      var init := candidates[..|candidates| - 1];
      var last := candidates[|candidates| - 1];
      assert candidates == init + [last];
      var before := set c | c in init && IsImagePath(c) && c !in paths;
      var after := set c | c in candidates && IsImagePath(c) && c !in paths;
      var prior := AddAll(paths, init);
      assert AddAll(paths, candidates) == Admit(prior, last);
      NewImagesStep(paths, init, last);
      AddAllCount(paths, init);
      AddAllMembers(paths, init, last);
      if IsImagePath(last) && last !in paths {
        assert after == before + {last};
        if last in init {
          assert last in before && last in prior;
          assert after == before;
        } else {
          assert last !in before && last !in prior;
          assert |after| == |before| + 1;
        }
      } else {
        assert after == before;
        assert Admit(prior, last) == prior;
      }
    }
  }

  lemma NewImagesStep(paths: seq<string>, init: seq<string>, last: string)
    ensures (set c | c in init + [last] && IsImagePath(c) && c !in paths)
         == (set c | c in init && IsImagePath(c) && c !in paths)
            + (if IsImagePath(last) && last !in paths then {last} else {})
  {
    assert forall c :: c in init + [last] <==> c in init || c == last;
  }

  /** A drop leaves the list unchanged exactly when each dropped path either
      lacks an image extension or is already stored (the empty drop too). */
  lemma {:induction false} AddAllUnchanged(paths: seq<string>, candidates: seq<string>)
    ensures AddAll(paths, candidates) == paths
        <==> forall c :: c in candidates && IsImagePath(c) ==> c in paths
    decreases |candidates|
  {
    if forall c :: c in candidates && IsImagePath(c) ==> c in paths {
      if candidates != [] {
        var init := candidates[..|candidates| - 1];
        assert forall c :: c in init ==> c in candidates;
        AddAllUnchanged(paths, init);
      }
    } else {
      var c :| c in candidates && IsImagePath(c) && c !in paths;
      AddAllMembers(paths, candidates, c);
    }
  }

  /** Dropping the same files again adds nothing. */
  lemma AddAllIdempotent(paths: seq<string>, candidates: seq<string>)
    ensures AddAll(AddAll(paths, candidates), candidates) == AddAll(paths, candidates)
  {
    forall c | c in candidates && IsImagePath(c)
      ensures c in AddAll(paths, candidates)
    {
      AddAllMembers(paths, candidates, c);
    }
    AddAllUnchanged(AddAll(paths, candidates), candidates);
  }

  /** Two drops in a row leave the same list as one drop of both lists. */
  lemma {:induction false} AddAllConcat(paths: seq<string>, first: seq<string>, second: seq<string>)
    ensures AddAll(paths, first + second) == AddAll(AddAll(paths, first), second)
    decreases |second|
  {
    if second == [] {
      assert first + second == first;
    } else {
      var init := second[..|second| - 1];
      assert (first + second)[..|first + second| - 1] == first + init;
      AddAllConcat(paths, first, init);
    }
  }

  /** What the user can do to the collection. */
  datatype Event = Drop(candidates: seq<string>) | Clear

  /** The list after a session of events, starting from the empty list the
      drop target is created with. Whatever the session, every stored path
      has an image extension and none is stored twice. */
  function Replay(events: seq<Event>): (r: seq<string>)
    ensures WellFormed(r)
    decreases |events|
  {
    if events == [] then []
    else
      var prior := Replay(events[..|events| - 1]);
      match events[|events| - 1]
      case Drop(candidates) =>
        AddAllWellFormed(prior, candidates);
        AddAll(prior, candidates)
      case Clear => []
  }

  /** The drop target, holding the collection. */
  class DropArea {
    var imagePaths: seq<string>

    ghost predicate Valid()
      reads this
    {
      WellFormed(imagePaths)
    }

    constructor ()
      ensures imagePaths == [] && Valid()
    {
      imagePaths := [];
    }

    /** Handles a drop of `candidates` and returns how many were added. */
    method DropEvent(candidates: seq<string>) returns (newImagesAdded: nat)
      modifies this
      ensures imagePaths == AddAll(old(imagePaths), candidates)
      ensures old(imagePaths) <= imagePaths
      ensures newImagesAdded == |imagePaths| - |old(imagePaths)|
      ensures newImagesAdded == 0 <==> imagePaths == old(imagePaths)
      ensures old(Valid()) ==> Valid()
    {
      newImagesAdded := 0;
      var i := 0;
      while i < |candidates|
        invariant 0 <= i <= |candidates|
        invariant imagePaths == AddAll(old(imagePaths), candidates[..i])
        invariant newImagesAdded == |imagePaths| - |old(imagePaths)|
      {
        var filePath := candidates[i];
        assert candidates[..i + 1][..i] == candidates[..i];
        if IsImagePath(filePath) {
          if filePath !in imagePaths {
            imagePaths := imagePaths + [filePath];
            newImagesAdded := newImagesAdded + 1;
          }
        }
        i := i + 1;
      }
      assert candidates[..i] == candidates;
      if old(Valid()) {
        AddAllWellFormed(old(imagePaths), candidates);
      }
    }

    /** Empties the collection. */
    method ClearImages()
      modifies this
      ensures imagePaths == [] && Valid()
    {
      imagePaths := [];
    }
  }
}
