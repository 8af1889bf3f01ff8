/**
 * The favourite-images list as a value: an ordered sequence of entries, each
 * holding one image name, and the functions that say what the operators do
 * to it. The host's image table is a set of names.
 */
module FaveList {

  /** One entry of the scene's favourites collection: the name of an image. */
  datatype FaveImage = FaveImage(imageName: string)

  /** The host's image table holds an image of this entry's name. */
  predicate Available(e: FaveImage, images: set<string>)
  {
    e.imageName in images
  }

  /** `s` with the entry at position `k` taken out; later entries shift down by one. */
  function Removed<T>(s: seq<T>, k: nat): (r: seq<T>)
    requires k < |s|
    ensures |r| == |s| - 1
    ensures forall i :: 0 <= i < k ==> r[i] == s[i]
    ensures forall i :: k <= i < |r| ==> r[i] == s[i + 1]
  {
    s[..k] + s[k + 1..]
  }

  /** Removing the entry just appended gives back the list before the append. */
  lemma RemovedUndoesAppend<T>(s: seq<T>, x: T)
    ensures Removed(s + [x], |s|) == s
  {
  }

  // ---------------------------------------------------------------------------
  // Selecting entries by position

  /** The entries of `s` at the positions `keep` marks, in their original order. */
  function Select<T>(s: seq<T>, keep: seq<bool>): (r: seq<T>)
    requires |keep| == |s|
    ensures |r| <= |s|
    ensures forall x :: x in r ==> x in s
  {
    if s == [] then []
    else (if keep[0] then [s[0]] else []) + Select(s[1..], keep[1..])
  }

  /** A selection holds no entry more often than the sequence it is taken from. */
  lemma {:induction false} SelectSubMultiset<T>(s: seq<T>, keep: seq<bool>)
    requires |keep| == |s|
    ensures multiset(Select(s, keep)) <= multiset(s)
  {
    if s != [] {
      assert s == [s[0]] + s[1..];
      SelectSubMultiset(s[1..], keep[1..]);
    }
  }

  /** Selecting with every position marked gives the whole sequence. */
  lemma {:induction false} SelectAll<T>(s: seq<T>, keep: seq<bool>)
    requires |keep| == |s|
    requires forall i :: 0 <= i < |s| ==> keep[i]
    ensures Select(s, keep) == s
  {
    if s != [] {
      assert forall i :: 0 <= i < |s| - 1 ==> keep[1..][i] == keep[i + 1];
      SelectAll(s[1..], keep[1..]);
    }
  }

  /** An entry at a marked position is among the selected ones. */
  lemma {:induction false} SelectKeeps<T>(s: seq<T>, keep: seq<bool>, j: nat)
    requires |keep| == |s| && j < |s| && keep[j]
    ensures s[j] in Select(s, keep)
  {
    if j > 0 {
      SelectKeeps(s[1..], keep[1..], j - 1);
    }
  }

  // ---------------------------------------------------------------------------
  // The forward scan of the clean operator

  /**
   * Which positions of `s` survive the clean operator's forward scan. The scan
   * examines an entry, drops it when its image is missing, and then moves on
   * by one position: the entry that slid into the vacated slot is passed over
   * and survives without being examined.
   */
  function ScanMask(s: seq<FaveImage>, images: set<string>): (m: seq<bool>)
    ensures |m| == |s|
    decreases |s|
  {
    if s == [] then []
    else if Available(s[0], images) then [true] + ScanMask(s[1..], images)
    else if |s| == 1 then [false]
    else [false, true] + ScanMask(s[2..], images)
  }

  /**
   * The survivor mask, position by position: an entry survives exactly when its
   * image is available or the entry before it was dropped.
   */
  lemma {:induction false} ScanMaskAt(s: seq<FaveImage>, images: set<string>, i: nat)
    requires i < |s|
    ensures ScanMask(s, images)[i]
        <==> Available(s[i], images) || (0 < i && !ScanMask(s, images)[i - 1])
    decreases |s|
  {
    if Available(s[0], images) {
      if i > 0 {
        ScanMaskAt(s[1..], images, i - 1);
      }
    } else if |s| > 1 && i >= 2 {
      ScanMaskAt(s[2..], images, i - 2);
    }
  }

  /**
   * Only entries whose image is missing are dropped, so every entry whose image
   * is available survives; and the entry after a dropped one always survives.
   */
  lemma ScanDropsOnlyUnavailable(s: seq<FaveImage>, images: set<string>)
    ensures forall i :: 0 <= i < |s| && !ScanMask(s, images)[i] ==> !Available(s[i], images)
    ensures forall i :: 0 < i < |s| && !ScanMask(s, images)[i - 1] ==> ScanMask(s, images)[i]
  {
    forall i | 0 <= i < |s|
      ensures ScanMask(s, images)[i] <==> Available(s[i], images) || (0 < i && !ScanMask(s, images)[i - 1])
    {
      ScanMaskAt(s, images, i);
    }
  }

  /** The list the clean operator leaves: the survivors of the scan, in their original order. */
  function ScanClean(s: seq<FaveImage>, images: set<string>): seq<FaveImage>
  {
    Select(s, ScanMask(s, images))
  }

  /** The scan splits off an examined available entry at the front. */
  lemma ScanCleanAvailableHead(s: seq<FaveImage>, images: set<string>)
    requires s != [] && Available(s[0], images)
    ensures ScanClean(s, images) == [s[0]] + ScanClean(s[1..], images)
  {
    assert ([true] + ScanMask(s[1..], images))[1..] == ScanMask(s[1..], images);
  }

  /** The scan drops an examined missing entry at the front and keeps the one after it. */
  lemma ScanCleanUnavailableHead(s: seq<FaveImage>, images: set<string>)
    requires |s| >= 2 && !Available(s[0], images)
    ensures ScanClean(s, images) == [s[1]] + ScanClean(s[2..], images)
  {
    var m := ScanMask(s[2..], images);
    assert ScanMask(s, images) == [false, true] + m;
    assert ([false, true] + m)[1..] == [true] + m;
    assert Select(s, [false, true] + m) == Select(s[1..], [true] + m);
    assert ([true] + m)[1..] == m;
    assert s[1..][1..] == s[2..];
    assert Select(s[1..], [true] + m) == [s[1]] + Select(s[2..], m);
  }

  /**
   * One step of the scan at position `j`, when `kept` is what it has left of
   * the positions before `j`: an available entry is kept; a missing one is
   * dropped and the entry after it, if any, is kept unexamined. The scan goes
   * on from position `j'`.
   */
  lemma ScanCleanStep(s: seq<FaveImage>, images: set<string>, kept: seq<FaveImage>, j: nat)
      returns (kept': seq<FaveImage>, j': nat)
    requires j < |s|
    requires ScanClean(s, images) == kept + ScanClean(s[j..], images)
    ensures j' <= |s| && ScanClean(s, images) == kept' + ScanClean(s[j'..], images)
    ensures Available(s[j], images) ==> kept' == kept + [s[j]] && j' == j + 1
    ensures !Available(s[j], images) && j + 1 < |s| ==> kept' == kept + [s[j + 1]] && j' == j + 2
    ensures !Available(s[j], images) && j + 1 == |s| ==> kept' == kept && j' == j + 1
  {
    assert s[j..][0] == s[j] && s[j..][1..] == s[j + 1..];
    if Available(s[j], images) {
      ScanCleanAvailableHead(s[j..], images);
      kept', j' := kept + [s[j]], j + 1;
    } else if j + 1 < |s| {
      assert s[j..][1] == s[j + 1] && s[j..][2..] == s[j + 2..];
      ScanCleanUnavailableHead(s[j..], images);
      kept', j' := kept + [s[j + 1]], j + 2;
    } else {
      assert s[j + 1..] == [];
      kept', j' := kept, j + 1;
    }
  }

  /** When every favourite's image is available, clean leaves the list unchanged. */
  lemma ScanCleanAllAvailable(s: seq<FaveImage>, images: set<string>)
    requires forall i :: 0 <= i < |s| ==> Available(s[i], images)
    ensures ScanClean(s, images) == s
  {
    ScanDropsOnlyUnavailable(s, images);
    SelectAll(s, ScanMask(s, images));
  }

  // ---------------------------------------------------------------------------
  // The available entries of a list

  /** The entries of `s` whose image is available, in their original order. */
  function KeepAvailable(s: seq<FaveImage>, images: set<string>): (r: seq<FaveImage>)
    ensures |r| <= |s|
    ensures forall e :: e in r ==> e in s && Available(e, images)
  {
    if s == [] then []
    else (if Available(s[0], images) then [s[0]] else []) + KeepAvailable(s[1..], images)
  }

  /** An entry whose image is available occurs in the available part as often as in the list. */
  lemma {:induction false} KeepAvailableCount(s: seq<FaveImage>, images: set<string>, e: FaveImage)
    requires Available(e, images)
    ensures multiset(KeepAvailable(s, images))[e] == multiset(s)[e]
  {
    if s != [] {
      assert s == [s[0]] + s[1..];
      KeepAvailableCount(s[1..], images, e);
    }
  }

  /** Keeping the available entries a second time changes nothing. */
  lemma {:induction false} KeepAvailableIdempotent(s: seq<FaveImage>, images: set<string>)
    ensures KeepAvailable(KeepAvailable(s, images), images) == KeepAvailable(s, images)
  {
    var r := KeepAvailable(s, images);
    forall i | 0 <= i < |r| ensures Available(r[i], images) {
      assert r[i] in r;
    }
    KeepAvailableAllAvailable(r, images);
  }

  /** A list whose every image is available is its own available part. */
  lemma {:induction false} KeepAvailableAllAvailable(s: seq<FaveImage>, images: set<string>)
    requires forall i :: 0 <= i < |s| ==> Available(s[i], images)
    ensures KeepAvailable(s, images) == s
  {
    if s != [] {
      forall i | 0 <= i < |s| - 1 ensures Available(s[1..][i], images) {
        assert s[1..][i] == s[i + 1];
      }
      KeepAvailableAllAvailable(s[1..], images);
      assert s == [s[0]] + s[1..];
    }
  }

  // ---------------------------------------------------------------------------
  // What the scan guarantees about the available entries

  /**
   * Every available entry survives the clean operator: the available entries
   * of the result are those of the input, in the same order and number.
   */
  lemma {:induction false} ScanCleanKeepsAvailable(s: seq<FaveImage>, images: set<string>)
    ensures KeepAvailable(ScanClean(s, images), images) == KeepAvailable(s, images)
    decreases |s|
  {
    if s == [] {
    } else if Available(s[0], images) {
      ScanCleanAvailableHead(s, images);
      ScanCleanKeepsAvailable(s[1..], images);
      assert ([s[0]] + ScanClean(s[1..], images))[1..] == ScanClean(s[1..], images);
    } else if |s| == 1 {
    } else {
      ScanCleanUnavailableHead(s, images);
      ScanCleanKeepsAvailable(s[2..], images);
      assert ([s[1]] + ScanClean(s[2..], images))[1..] == ScanClean(s[2..], images);
      assert s[1..][1..] == s[2..];
    }
  }

  /**
   * Clean removes only entries whose image is missing: no entry occurs more
   * often afterwards, and an entry that occurs less often is unavailable.
   */
  lemma ScanCleanRemovesOnlyUnavailable(s: seq<FaveImage>, images: set<string>)
    ensures multiset(ScanClean(s, images)) <= multiset(s)
    ensures forall e :: multiset(ScanClean(s, images))[e] < multiset(s)[e] ==> !Available(e, images)
  {
    var r := ScanClean(s, images);
    SelectSubMultiset(s, ScanMask(s, images));
    ScanCleanKeepsAvailable(s, images);
    forall e | Available(e, images) ensures multiset(r)[e] == multiset(s)[e] {
      KeepAvailableCount(r, images, e);
      KeepAvailableCount(s, images, e);
    }
  }

  /** No two neighbouring entries both have a missing image. */
  predicate NoAdjacentUnavailable(s: seq<FaveImage>, images: set<string>)
  {
    forall i :: 0 < i < |s| ==> Available(s[i - 1], images) || Available(s[i], images)
  }

  /** Without two neighbouring missing images, clean removes every missing one. */
  lemma {:induction false} ScanCleanIsFilter(s: seq<FaveImage>, images: set<string>)
    requires NoAdjacentUnavailable(s, images)
    ensures ScanClean(s, images) == KeepAvailable(s, images)
    decreases |s|
  {
    if s == [] {
    } else if Available(s[0], images) {
      ScanCleanAvailableHead(s, images);
      var t := s[1..];
      forall i | 0 < i < |t| ensures Available(t[i - 1], images) || Available(t[i], images) {
        assert t[i - 1] == s[i] && t[i] == s[i + 1];
      }
      ScanCleanIsFilter(t, images);
    } else if |s| == 1 {
    } else {
      assert Available(s[0], images) || Available(s[1], images);
      ScanCleanUnavailableHead(s, images);
      var t := s[2..];
      forall i | 0 < i < |t| ensures Available(t[i - 1], images) || Available(t[i], images) {
        assert t[i - 1] == s[i + 1] && t[i] == s[i + 2];
      }
      ScanCleanIsFilter(t, images);
      assert s[1..][0] == s[1] && s[1..][1..] == t;
      assert KeepAvailable(s, images) == KeepAvailable(s[1..], images);
      assert KeepAvailable(s[1..], images) == [s[1]] + KeepAvailable(t, images);
    }
  }

  /**
   * Clean leaves exactly the available entries if and only if no two
   * neighbouring entries both have a missing image.
   */
  lemma ScanCleanIsFilterIff(s: seq<FaveImage>, images: set<string>)
    ensures ScanClean(s, images) == KeepAvailable(s, images) <==> NoAdjacentUnavailable(s, images)
  {
    if NoAdjacentUnavailable(s, images) {
      ScanCleanIsFilter(s, images);
    } else {
      var m := ScanMask(s, images);
      var i :| 0 < i < |s| && !Available(s[i - 1], images) && !Available(s[i], images);
      ScanMaskAt(s, images, i);
      var j := if m[i - 1] then i - 1 else i;
      SelectKeeps(s, m, j);
      assert !Available(s[j], images);
    }
  }

  /**
   * Two neighbouring missing images: the scan drops the first, passes over the
   * second, and the second stays in the list.
   */
  lemma ScanMissesAdjacentUnavailable()
    ensures ScanClean([FaveImage("A"), FaveImage("x"), FaveImage("y"), FaveImage("B")], {"A", "B"})
         == [FaveImage("A"), FaveImage("y"), FaveImage("B")]
  {
    var images: set<string> := {"A", "B"};
    var a, x, y, b := FaveImage("A"), FaveImage("x"), FaveImage("y"), FaveImage("B");
    assert "x"[0] != "A"[0] && "x"[0] != "B"[0];
    assert Available(a, images) && !Available(x, images) && Available(b, images);
    assert ScanClean([b], images) == [b] by {
      ScanCleanAvailableHead([b], images);
      assert [b][1..] == [];
    }
    assert ScanClean([x, y, b], images) == [y, b] by {
      ScanCleanUnavailableHead([x, y, b], images);
      assert [x, y, b][2..] == [b];
    }
    ScanCleanAvailableHead([a, x, y, b], images);
    assert [a, x, y, b][1..] == [x, y, b];
  }

  // ---------------------------------------------------------------------------
  // The loop states of the two clean methods

  /**
   * The state of the clean operator's loop over the original list `orig`:
   * `kept` is what the scan has left of the positions before `j`, the list
   * is `kept` followed by the unscanned entries, and the loop index `i` is
   * just past `kept`, or one further once the last entry has been dropped.
   */
  ghost predicate ScanLoop(orig: seq<FaveImage>, images: set<string>, list: seq<FaveImage>,
                           kept: seq<FaveImage>, i: nat, j: nat)
  {
    j <= |orig| &&
    ScanClean(orig, images) == kept + ScanClean(orig[j..], images) &&
    list == kept + orig[j..] &&
    (i == |kept| || (j == |orig| && i == |kept| + 1))
  }

  /**
   * One pass of the loop body: the entry at index `i` is the original entry at
   * `j`; when it is missing it is removed from the list, and either way the
   * index moves on by one.
   */
  lemma ScanLoopStep(orig: seq<FaveImage>, images: set<string>, list: seq<FaveImage>,
                     kept: seq<FaveImage>, i: nat, j: nat)
      returns (kept': seq<FaveImage>, j': nat)
    requires ScanLoop(orig, images, list, kept, i, j) && i < |list|
    ensures j < j' && list[i] == orig[j]
    ensures Available(list[i], images) ==> ScanLoop(orig, images, list, kept', i + 1, j')
    ensures !Available(list[i], images) ==> ScanLoop(orig, images, Removed(list, i), kept', i + 1, j')
  {
    assert list[i] == orig[j];
    if !Available(list[i], images) {
      assert list[..i] == kept && list[i + 1..] == orig[j + 1..];
      kept', j' := ScanCleanStep(orig, images, kept, j);
      if j + 1 < |orig| {
        assert orig[j + 1..] == [orig[j + 1]] + orig[j'..];
      }
    } else {
      kept', j' := ScanCleanStep(orig, images, kept, j);
      assert orig[j..] == [orig[j]] + orig[j'..];
    }
  }

  /** Once the index has passed the end of the list, the scan is complete. */
  lemma ScanLoopDone(orig: seq<FaveImage>, images: set<string>, list: seq<FaveImage>,
                     kept: seq<FaveImage>, i: nat, j: nat)
    requires ScanLoop(orig, images, list, kept, i, j) && i >= |list|
    ensures list == ScanClean(orig, images)
  {
    assert orig[j..] == [];
  }

  /**
   * The state of a loop that removes every missing entry of `orig`: `kept` is
   * the available part of the positions before `j`, the list is `kept`
   * followed by the unexamined entries, and the index `i` is just past `kept`.
   */
  ghost predicate FilterLoop(orig: seq<FaveImage>, images: set<string>, list: seq<FaveImage>,
                             kept: seq<FaveImage>, i: nat, j: nat)
  {
    j <= |orig| &&
    KeepAvailable(orig, images) == kept + KeepAvailable(orig[j..], images) &&
    list == kept + orig[j..] && i == |kept|
  }

  /** A pass of that loop's body over an available entry: the index moves past it. */
  lemma FilterLoopKeep(orig: seq<FaveImage>, images: set<string>, list: seq<FaveImage>,
                       kept: seq<FaveImage>, i: nat, j: nat)
    requires FilterLoop(orig, images, list, kept, i, j) && i < |list|
    requires Available(list[i], images)
    ensures j < |orig| && FilterLoop(orig, images, list, kept + [list[i]], i + 1, j + 1)
  {
    assert list[i] == orig[j];
    assert KeepAvailable(orig, images) == (kept + [orig[j]]) + KeepAvailable(orig[j + 1..], images) by {
      assert orig[j..][0] == orig[j] && orig[j..][1..] == orig[j + 1..];
      assert KeepAvailable(orig[j..], images) == [orig[j]] + KeepAvailable(orig[j + 1..], images);
    }
    assert list == (kept + [orig[j]]) + orig[j + 1..] by {
      assert orig[j..] == [orig[j]] + orig[j + 1..];
    }
  }

  /** A pass of that loop's body over a missing entry: it is removed and the index stays. */
  lemma FilterLoopRemove(orig: seq<FaveImage>, images: set<string>, list: seq<FaveImage>,
                         kept: seq<FaveImage>, i: nat, j: nat)
    requires FilterLoop(orig, images, list, kept, i, j) && i < |list|
    requires !Available(list[i], images)
    ensures j < |orig| && FilterLoop(orig, images, Removed(list, i), kept, i, j + 1)
  {
    assert list[i] == orig[j];
    assert KeepAvailable(orig[j..], images) == KeepAvailable(orig[j + 1..], images) by {
      assert orig[j..][0] == orig[j] && orig[j..][1..] == orig[j + 1..];
    }
    assert Removed(list, i) == kept + orig[j + 1..] by {
      assert list[..i] == kept && list[i + 1..] == orig[j + 1..];
    }
  }

  /** Once the index has reached the end of the list, every missing entry is gone. */
  lemma FilterLoopDone(orig: seq<FaveImage>, images: set<string>, list: seq<FaveImage>,
                       kept: seq<FaveImage>, i: nat, j: nat)
    requires FilterLoop(orig, images, list, kept, i, j) && i >= |list|
    ensures list == KeepAvailable(orig, images)
  {
    assert orig[j..] == [];
  }
}
