/** The key-frame record the analysis emits, and the capacity policy applied after the scan:
    when more than six records were emitted, the sharpest six are kept and presented in
    timestamp order. Python's `list.sort` is stable, also with `reverse=True`; it is modelled
    by a stable insertion sort ascending by a key, and sorting by clarity with
    `reverse=True` is sorting ascending by the negated clarity. */
module Capacity {

  /** One emitted record: the encoded image, the index of the frame among the processed
      frames, the detector's magnitude, the clarity score and the frame's timestamp. */
  datatype KeyFrame = KeyFrame(data: string, index: nat, changeRate: real, clarity: real, timestamp: real)

  const MAX_KEY_FRAMES: nat := 6

  /** Sort key of `sort(key=clarity, reverse=True)`. */
  function ByClarityDescending(f: KeyFrame): real { -f.clarity }

  /** Sort key of `sort(key=timestamp)`. */
  function ByTimestamp(f: KeyFrame): real { f.timestamp }

  predicate SortedBy(s: seq<KeyFrame>, key: KeyFrame -> real) {
    forall i, j :: 0 <= i < j < |s| ==> key(s[i]) <= key(s[j])
  }

  /** Records with equal keys are in increasing order of `index`. */
  predicate StableBy(s: seq<KeyFrame>, key: KeyFrame -> real) {
    forall i, j :: 0 <= i < j < |s| && key(s[i]) == key(s[j]) ==> s[i].index < s[j].index
  }

  /** Emission order: every emitted record carries a larger index than those before it. */
  predicate IndexIncreasing(s: seq<KeyFrame>) {
    forall i, j :: 0 <= i < j < |s| ==> s[i].index < s[j].index
  }

  /** Inserts `x` before the first element whose key is larger than `x`'s, so after every
      element with an equal key. */
  function Insert(x: KeyFrame, r: seq<KeyFrame>, key: KeyFrame -> real): (res: seq<KeyFrame>)
    ensures |res| == |r| + 1
    ensures multiset(res) == multiset(r) + multiset{x}
  {
    if r == [] then [x]
    else if key(x) < key(r[0]) then [x] + r
    else
      assert r == [r[0]] + r[1..];
      [r[0]] + Insert(x, r[1..], key)
  }

  /** No element of `s` has a key below `v`. */
  predicate KeysAtLeast(s: seq<KeyFrame>, v: real, key: KeyFrame -> real) {
    forall k :: 0 <= k < |s| ==> v <= key(s[k])
  }

  /** Every element of `s` whose key is `v` has an index above `idx`. */
  predicate TiesAfter(s: seq<KeyFrame>, v: real, idx: int, key: KeyFrame -> real) {
    forall k :: 0 <= k < |s| && key(s[k]) == v ==> idx < s[k].index
  }

  lemma ConsKeysAtLeast(h: KeyFrame, rest: seq<KeyFrame>, v: real, key: KeyFrame -> real)
    requires KeysAtLeast(rest, v, key) && v <= key(h)
    ensures KeysAtLeast([h] + rest, v, key)
  {
    var res := [h] + rest;
    forall k | 0 <= k < |res| ensures v <= key(res[k]) {
      if k > 0 { assert res[k] == rest[k - 1]; }
    }
  }

  lemma ConsTiesAfter(h: KeyFrame, rest: seq<KeyFrame>, v: real, idx: int, key: KeyFrame -> real)
    requires TiesAfter(rest, v, idx, key) && (key(h) == v ==> idx < h.index)
    ensures TiesAfter([h] + rest, v, idx, key)
  {
    var res := [h] + rest;
    forall k | 0 <= k < |res| && key(res[k]) == v ensures idx < res[k].index {
      if k > 0 { assert res[k] == rest[k - 1]; }
    }
  }

  lemma {:induction false} InsertKeysAtLeast(x: KeyFrame, r: seq<KeyFrame>, v: real, key: KeyFrame -> real)
    requires KeysAtLeast(r, v, key) && v <= key(x)
    ensures KeysAtLeast(Insert(x, r, key), v, key)
  {
    if r == [] {
      ConsKeysAtLeast(x, r, v, key);
    } else if key(x) < key(r[0]) {
      ConsKeysAtLeast(x, r, v, key);
    } else {
      assert KeysAtLeast(r[1..], v, key);
      InsertKeysAtLeast(x, r[1..], v, key);
      ConsKeysAtLeast(r[0], Insert(x, r[1..], key), v, key);
    }
  }

  lemma {:induction false} InsertTiesAfter(x: KeyFrame, r: seq<KeyFrame>, v: real, idx: int, key: KeyFrame -> real)
    requires TiesAfter(r, v, idx, key) && (key(x) == v ==> idx < x.index)
    ensures TiesAfter(Insert(x, r, key), v, idx, key)
  {
    if r == [] {
      ConsTiesAfter(x, r, v, idx, key);
    } else if key(x) < key(r[0]) {
      ConsTiesAfter(x, r, v, idx, key);
    } else {
      assert TiesAfter(r[1..], v, idx, key);
      InsertTiesAfter(x, r[1..], v, idx, key);
      ConsTiesAfter(r[0], Insert(x, r[1..], key), v, idx, key);
    }
  }

  lemma ConsSorted(h: KeyFrame, rest: seq<KeyFrame>, key: KeyFrame -> real)
    requires SortedBy(rest, key) && KeysAtLeast(rest, key(h), key)
    ensures SortedBy([h] + rest, key)
  {
    var res := [h] + rest;
    forall i, j | 0 <= i < j < |res| ensures key(res[i]) <= key(res[j]) {
      assert res[j] == rest[j - 1];
      if i > 0 { assert res[i] == rest[i - 1]; }
    }
  }

  lemma ConsStable(h: KeyFrame, rest: seq<KeyFrame>, key: KeyFrame -> real)
    requires StableBy(rest, key) && TiesAfter(rest, key(h), h.index, key)
    ensures StableBy([h] + rest, key)
  {
    var res := [h] + rest;
    forall i, j | 0 <= i < j < |res| && key(res[i]) == key(res[j])
      ensures res[i].index < res[j].index
    {
      assert res[j] == rest[j - 1];
      if i > 0 { assert res[i] == rest[i - 1]; }
    }
  }

  lemma {:induction false} InsertSorted(x: KeyFrame, r: seq<KeyFrame>, key: KeyFrame -> real)
    requires SortedBy(r, key)
    ensures SortedBy(Insert(x, r, key), key)
  {
    if r == [] {
    } else if key(x) < key(r[0]) {
      ConsSorted(x, r, key);
    } else {
      InsertSorted(x, r[1..], key);
      InsertKeysAtLeast(x, r[1..], key(r[0]), key);
      ConsSorted(r[0], Insert(x, r[1..], key), key);
    }
  }

  lemma {:induction false} InsertStable(x: KeyFrame, r: seq<KeyFrame>, key: KeyFrame -> real)
    requires SortedBy(r, key) && StableBy(r, key)
    requires forall k :: 0 <= k < |r| ==> r[k].index < x.index
    ensures StableBy(Insert(x, r, key), key)
  {
    if r == [] {
    } else if key(x) < key(r[0]) {
      ConsStable(x, r, key);
    } else {
      InsertStable(x, r[1..], key);
      InsertTiesAfter(x, r[1..], key(r[0]), r[0].index, key);
      ConsStable(r[0], Insert(x, r[1..], key), key);
    }
  }

  /** A stable sort ascending by `key`. */
  function SortBy(s: seq<KeyFrame>, key: KeyFrame -> real): (r: seq<KeyFrame>)
    ensures |r| == |s|
    ensures multiset(r) == multiset(s)
    ensures SortedBy(r, key)
  {
    if s == [] then []
    else
      var init, last := s[..|s| - 1], s[|s| - 1];
      assert s == init + [last];
      var sorted := SortBy(init, key);
      InsertSorted(last, sorted, key);
      Insert(last, sorted, key)
  }

  /** Among records with equal keys, the sort keeps emission order. */
  lemma {:induction false} SortByStable(s: seq<KeyFrame>, key: KeyFrame -> real)
    requires IndexIncreasing(s)
    ensures StableBy(SortBy(s, key), key)
  {
    if s != [] {
      var init, last := s[..|s| - 1], s[|s| - 1];
      assert s == init + [last];
      var sorted := SortBy(init, key);
      SortByStable(init, key);
      forall k | 0 <= k < |sorted|
        ensures sorted[k].index < last.index
      {
        assert sorted[k] in multiset(init);
        var m :| 0 <= m < |init| && init[m] == sorted[k];
        assert sorted[k] == s[m];
      }
      InsertStable(last, sorted, key);
    }
  }

  /** The policy of app.py lines 135-138. */
  function Trim(frames: seq<KeyFrame>): (kept: seq<KeyFrame>)
    ensures |frames| <= MAX_KEY_FRAMES ==> kept == frames
    ensures |frames| > MAX_KEY_FRAMES ==> |kept| == MAX_KEY_FRAMES && SortedBy(kept, ByTimestamp)
    ensures multiset(kept) <= multiset(frames)
  {
    if |frames| > MAX_KEY_FRAMES then
      var sharpest := SortBy(frames, ByClarityDescending);
      assert sharpest == sharpest[..MAX_KEY_FRAMES] + sharpest[MAX_KEY_FRAMES..];
      SortBy(sharpest[..MAX_KEY_FRAMES], ByTimestamp)
    else
      frames
  }

  /** Over capacity, the kept records are the first six of the clarity ordering and the
      excluded ones are the rest of it. */
  lemma TrimSplit(frames: seq<KeyFrame>)
    requires |frames| > MAX_KEY_FRAMES
    ensures var sharpest := SortBy(frames, ByClarityDescending);
      && multiset(Trim(frames)) == multiset(sharpest[..MAX_KEY_FRAMES])
      && multiset(frames) - multiset(Trim(frames)) == multiset(sharpest[MAX_KEY_FRAMES..])
  {
    var sharpest := SortBy(frames, ByClarityDescending);
    assert Trim(frames) == SortBy(sharpest[..MAX_KEY_FRAMES], ByTimestamp);
    SplitDifference(sharpest, MAX_KEY_FRAMES);
  }

  lemma SplitDifference(s: seq<KeyFrame>, n: nat)
    requires n <= |s|
    ensures multiset(s) - multiset(s[..n]) == multiset(s[n..])
  {
    assert s == s[..n] + s[n..];
  }

  /** In a sorted, stable sequence every element of a prefix precedes every element of the
      rest: by a smaller key, or by a smaller index on an equal key. */
  lemma PrefixPrecedes(s: seq<KeyFrame>, n: nat, key: KeyFrame -> real)
    requires n <= |s| && SortedBy(s, key)
    ensures forall a, b :: a in s[..n] && b in s[n..] ==> key(a) <= key(b)
    ensures StableBy(s, key) ==>
      forall a, b :: a in s[..n] && b in s[n..] && key(a) == key(b) ==> a.index < b.index
  {
    forall a, b | a in s[..n] && b in s[n..]
      ensures key(a) <= key(b)
      ensures StableBy(s, key) && key(a) == key(b) ==> a.index < b.index
    {
      var i :| 0 <= i < n && s[..n][i] == a;
      var j :| 0 <= j < |s| - n && s[n..][j] == b;
      assert s[i] == a && s[n + j] == b;
    }
  }

  /** No record the policy drops is sharper than a record it keeps. */
  lemma TrimKeepsSharpest(frames: seq<KeyFrame>)
    ensures forall a, b :: a in multiset(Trim(frames)) && b in multiset(frames) - multiset(Trim(frames)) ==>
      b.clarity <= a.clarity
  {
    if |frames| > MAX_KEY_FRAMES {
      var sharpest := SortBy(frames, ByClarityDescending);
      TrimSplit(frames);
      PrefixPrecedes(sharpest, MAX_KEY_FRAMES, ByClarityDescending);
      forall a, b | a in multiset(Trim(frames)) && b in multiset(frames) - multiset(Trim(frames))
        ensures b.clarity <= a.clarity
      {
        assert a in sharpest[..MAX_KEY_FRAMES] && b in sharpest[MAX_KEY_FRAMES..];
        assert ByClarityDescending(a) <= ByClarityDescending(b);
      }
    }
  }

  /** Between a kept and a dropped record of equal clarity, the kept one was emitted first. */
  lemma TrimTiesFavourEarlier(frames: seq<KeyFrame>)
    requires IndexIncreasing(frames)
    ensures forall a, b ::
      (a in multiset(Trim(frames)) && b in multiset(frames) - multiset(Trim(frames)) && a.clarity == b.clarity) ==>
      a.index < b.index
  {
    if |frames| > MAX_KEY_FRAMES {
      var sharpest := SortBy(frames, ByClarityDescending);
      TrimSplit(frames);
      SortByStable(frames, ByClarityDescending);
      PrefixPrecedes(sharpest, MAX_KEY_FRAMES, ByClarityDescending);
      forall a, b | a in multiset(Trim(frames)) && b in multiset(frames) - multiset(Trim(frames)) && a.clarity == b.clarity
        ensures a.index < b.index
      {
        assert a in sharpest[..MAX_KEY_FRAMES] && b in sharpest[MAX_KEY_FRAMES..];
        assert ByClarityDescending(a) == ByClarityDescending(b);
      }
    }
  }
}
