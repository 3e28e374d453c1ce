/** The lines of one cache set, as values: the lookup with aging, the
    append while the set is not full, the choice of the victim and the
    eviction. The CacheSet class applies these to its `lines` field in
    place; here they are functions, so that what they preserve can be
    proved once.

    Recency is stated against the set's access history, the sequence of
    tags looked up in the set, oldest first: a line was used more recently
    than another when its tag occurs later in the history. */
module CacheLines {

  /** One slot of a set: the tag it holds and its age, 0 for the most
      recently used line. */
  datatype CacheLine = CacheLine(tag: nat, age: nat)

  /** Every line one access older (update_LRUs) */
  function Aged(s: seq<CacheLine>): (r: seq<CacheLine>)
    ensures |r| == |s|
    ensures forall k :: 0 <= k < |s| ==> r[k] == CacheLine(s[k].tag, s[k].age + 1)
  {
    if s == [] then [] else [CacheLine(s[0].tag, s[0].age + 1)] + Aged(s[1..])
  }

  predicate HoldsTag(s: seq<CacheLine>, tag: nat)
  {
    exists k :: 0 <= k < |s| && s[k].tag == tag
  }

  /** The position of the first line holding `tag`, |s| when there is none
      (the scan of check_cache_lines) */
  function FirstWithTag(s: seq<CacheLine>, tag: nat): (k: nat)
    ensures k <= |s|
    ensures k < |s| ==> s[k].tag == tag
    ensures forall j :: 0 <= j < k ==> s[j].tag != tag
  {
    if s == [] then 0
    else if s[0].tag == tag then 0
    else 1 + FirstWithTag(s[1..], tag)
  }

  /** A hit on line k: it becomes the most recently used, every other line
      gets one access older, and no tag moves. */
  function Touch(s: seq<CacheLine>, k: nat): (r: seq<CacheLine>)
    requires k < |s|
    ensures |r| == |s| && r[k] == CacheLine(s[k].tag, 0)
    ensures forall j :: 0 <= j < |s| && j != k ==> r[j] == CacheLine(s[j].tag, s[j].age + 1)
  {
    Aged(s)[k := CacheLine(s[k].tag, 0)]
  }

  /** v is the lowest position whose age is the largest in the set */
  ghost predicate IsLruSlot(s: seq<CacheLine>, v: nat)
  {
    v < |s|
    && (forall j :: 0 <= j < |s| ==> s[j].age <= s[v].age)
    && (forall j :: 0 <= j < v ==> s[j].age < s[v].age)
  }

  /** The victim chosen by find_LRU: the scan replaces its candidate only
      by a strictly older line, so the first of the oldest lines wins; an
      empty set yields its first position. */
  function LruSlot(s: seq<CacheLine>): (v: nat)
    ensures s == [] ==> v == 0
    ensures s != [] ==> IsLruSlot(s, v)
  {
    if |s| <= 1 then 0
    else
      var w := LruSlot(s[..|s| - 1]);
      if s[w].age < s[|s| - 1].age then |s| - 1 else w
  }

  /** update_cache_lines after a miss: append a fresh line while there is
      room (the other lines do not age), otherwise age every line and give
      the victim's slot to the new tag. */
  function Insert(s: seq<CacheLine>, tag: nat, setSize: nat): (r: seq<CacheLine>)
    requires s != [] || setSize > 0
    ensures |s| < setSize ==> r == s + [CacheLine(tag, 0)]
    ensures |s| >= setSize ==> |r| == |s| && r[LruSlot(s)] == CacheLine(tag, 0)
    ensures |s| >= setSize ==>
      forall j :: 0 <= j < |s| && j != LruSlot(s) ==> r[j] == CacheLine(s[j].tag, s[j].age + 1)
  {
    if |s| < setSize then s + [CacheLine(tag, 0)]
    else Aged(s)[LruSlot(s) := CacheLine(tag, 0)]
  }

  /** In a full set, Insert gives the victim's slot of the aged lines to
      the new tag */
  lemma InsertEvicts(s: seq<CacheLine>, tag: nat, setSize: nat)
    requires |s| >= setSize && s != []
    ensures Insert(s, tag, setSize) == Aged(s)[LruSlot(s) := CacheLine(tag, 0)]
  {
  }

  /** What one lookup does to a set: a hit touches the first line holding
      the tag, a miss inserts it. */
  datatype Outcome = Outcome(hit: bool, lines: seq<CacheLine>)

  function Access(s: seq<CacheLine>, tag: nat, setSize: nat): (r: Outcome)
    requires s != [] || setSize > 0
    ensures r.hit <==> HoldsTag(s, tag)
  {
    var k := FirstWithTag(s, tag);
    if k < |s| then Outcome(true, Touch(s, k)) else Outcome(false, Insert(s, tag, setSize))
  }

  /** The position of the last access to `tag` in the history, -1 if it
      was never accessed */
  function LastUse(h: seq<nat>, tag: nat): (r: int)
    ensures -1 <= r < |h|
    ensures r >= 0 ==> h[r] == tag
    ensures forall j :: r < j < |h| ==> h[j] != tag
  {
    if h == [] then -1
    else if h[|h| - 1] == tag then |h| - 1
    else LastUse(h[..|h| - 1], tag)
  }

  ghost predicate UniqueTags(s: seq<CacheLine>)
  {
    forall i, j :: 0 <= i < j < |s| ==> s[i].tag != s[j].tag
  }

  /** The ages of the lines, slot by slot */
  function Ages(s: seq<CacheLine>): seq<nat>
  {
    seq(|s|, i requires 0 <= i < |s| => s[i].age)
  }

  /** The last use of each line's tag, slot by slot */
  function Uses(s: seq<CacheLine>, h: seq<nat>): seq<int>
  {
    seq(|s|, i requires 0 <= i < |s| => LastUse(h, s[i].tag))
  }

  /** Every age one higher */
  function Older(a: seq<nat>): seq<nat>
  {
    seq(|a|, i requires 0 <= i < |a| => a[i] + 1)
  }

  /** Ages follow recency, stated slot by slot on ages a and last uses u: a
      slot used less recently is at least as old, and of two slots of the
      same age the lower one was used less recently. */
  ghost predicate Follows(a: seq<nat>, u: seq<int>)
  {
    && |a| == |u|
    && (forall i, j :: 0 <= i < |a| && 0 <= j < |a| && u[i] < u[j] ==> a[j] <= a[i])
    && (forall i, j :: 0 <= i < j < |a| && a[i] == a[j] ==> u[i] < u[j])
  }

  /** Every use is an access that happened, at a position before n */
  ghost predicate UsedBefore(u: seq<int>, n: int)
  {
    forall i :: 0 <= i < |u| ==> 0 <= u[i] < n
  }

  /** Every line's tag has been accessed, and ages follow recency */
  ghost predicate RecencyOrdered(s: seq<CacheLine>, h: seq<nat>)
  {
    UsedBefore(Uses(s, h), |h|) && Follows(Ages(s), Uses(s, h))
  }

  /** The invariant of a set of a cache with set size setSize after the
      accesses h */
  ghost predicate SetInvariant(s: seq<CacheLine>, setSize: nat, h: seq<nat>)
  {
    1 <= setSize && |s| <= setSize && UniqueTags(s) && RecencyOrdered(s, h)
  }

  /** An access moves its tag to the end of the history and leaves the
      last use of every other tag where it was */
  lemma LastUseAppend(h: seq<nat>, tag: nat, u: nat)
    ensures LastUse(h + [tag], u) == if u == tag then |h| else LastUse(h, u)
  {
    assert (h + [tag])[..|h|] == h;
  }

  /** Renewing slot k: it gets age 0 and a use later than all others,
      every other slot gets one access older. Ages still follow recency. */
  lemma FollowsRenew(a: seq<nat>, u: seq<int>, k: nat, n: nat)
    requires Follows(a, u) && k < |a| && UsedBefore(u, n)
    ensures Follows(Older(a)[k := 0], u[k := n]) && UsedBefore(u[k := n], n + 1)
  {
    var a', u' := Older(a)[k := 0], u[k := n];
    forall i, j | 0 <= i < |a'| && 0 <= j < |a'| && u'[i] < u'[j]
      ensures a'[j] <= a'[i]
    {
      if i != k && j != k {
        assert u[i] < u[j];
      }
    }
    forall i, j | 0 <= i < j < |a'| && a'[i] == a'[j]
      ensures u'[i] < u'[j]
    {
      assert a[i] == a[j];
    }
  }

  /** Appending a slot of age 0 with a use later than all others keeps
      ages following recency */
  lemma FollowsAppend(a: seq<nat>, u: seq<int>, n: nat)
    requires Follows(a, u) && UsedBefore(u, n)
    ensures Follows(a + [0], u + [n]) && UsedBefore(u + [n], n + 1)
  {
    var a', u' := a + [0], u + [n];
    forall i, j | 0 <= i < |a'| && 0 <= j < |a'| && u'[i] < u'[j]
      ensures a'[j] <= a'[i]
    {
      if i < |a| && j < |a| {
        assert u[i] < u[j];
      }
    }
  }

  /** Giving slot k of the aged lines to tag t, which no other slot holds:
      the ages and uses change the way FollowsRenew expects. This is both a
      hit on k (t is already k's tag) and an eviction from k. */
  lemma RenewSlot(s: seq<CacheLine>, h: seq<nat>, k: nat, t: nat)
    requires k < |s|
    requires forall i :: 0 <= i < |s| && i != k ==> s[i].tag != t
    ensures Ages(Aged(s)[k := CacheLine(t, 0)]) == Older(Ages(s))[k := 0]
    ensures Uses(Aged(s)[k := CacheLine(t, 0)], h + [t]) == Uses(s, h)[k := |h|]
  {
    var r := Aged(s)[k := CacheLine(t, 0)];
    forall i | 0 <= i < |s|
      ensures Uses(r, h + [t])[i] == Uses(s, h)[k := |h|][i]
    {
      LastUseAppend(h, t, r[i].tag);
      LastUseAppend(h, t, s[i].tag);
    }
  }

  /** Appending a line for tag t, which no line holds */
  lemma AppendSlot(s: seq<CacheLine>, h: seq<nat>, t: nat)
    requires forall i :: 0 <= i < |s| ==> s[i].tag != t
    ensures Ages(s + [CacheLine(t, 0)]) == Ages(s) + [0]
    ensures Uses(s + [CacheLine(t, 0)], h + [t]) == Uses(s, h) + [|h|]
  {
    var r := s + [CacheLine(t, 0)];
    forall i | 0 <= i < |r|
      ensures Uses(r, h + [t])[i] == (Uses(s, h) + [|h|])[i]
    {
      LastUseAppend(h, t, r[i].tag);
    }
  }

  /** Renewing slot k for a tag no other slot holds keeps ages following
      recency, with the tag appended to the history */
  lemma RenewRecency(s: seq<CacheLine>, h: seq<nat>, k: nat, t: nat)
    requires RecencyOrdered(s, h) && k < |s|
    requires forall i :: 0 <= i < |s| && i != k ==> s[i].tag != t
    ensures RecencyOrdered(Aged(s)[k := CacheLine(t, 0)], h + [t])
  {
    RenewSlot(s, h, k, t);
    FollowsRenew(Ages(s), Uses(s, h), k, |h|);
  }

  /** A hit keeps the invariant, with the tag appended to the history */
  lemma TouchKeepsInvariant(s: seq<CacheLine>, setSize: nat, h: seq<nat>, k: nat)
    requires SetInvariant(s, setSize, h) && k < |s|
    ensures SetInvariant(Touch(s, k), setSize, h + [s[k].tag])
  {
    RenewRecency(s, h, k, s[k].tag);
  }

  /** Appending to a set that is not full keeps the invariant */
  lemma AppendKeepsInvariant(s: seq<CacheLine>, setSize: nat, h: seq<nat>, tag: nat)
    requires SetInvariant(s, setSize, h) && !HoldsTag(s, tag) && |s| < setSize
    ensures SetInvariant(Insert(s, tag, setSize), setSize, h + [tag])
  {
    AppendSlot(s, h, tag);
    FollowsAppend(Ages(s), Uses(s, h), |h|);
  }

  /** Evicting from a full set keeps the invariant */
  lemma EvictKeepsInvariant(s: seq<CacheLine>, setSize: nat, h: seq<nat>, tag: nat)
    requires SetInvariant(s, setSize, h) && !HoldsTag(s, tag) && |s| >= setSize
    ensures SetInvariant(Insert(s, tag, setSize), setSize, h + [tag])
  {
    RenewRecency(s, h, LruSlot(s), tag);
    EvictUnique(s, tag, LruSlot(s));
  }

  /** Inserting a tag the set does not hold keeps the invariant, whether
      the set has room or not */
  lemma InsertKeepsInvariant(s: seq<CacheLine>, setSize: nat, h: seq<nat>, tag: nat)
    requires SetInvariant(s, setSize, h) && !HoldsTag(s, tag)
    ensures SetInvariant(Insert(s, tag, setSize), setSize, h + [tag])
  {
    if |s| < setSize {
      AppendKeepsInvariant(s, setSize, h, tag);
    } else {
      EvictKeepsInvariant(s, setSize, h, tag);
    }
  }

  lemma EvictUnique(s: seq<CacheLine>, tag: nat, v: nat)
    requires UniqueTags(s) && v < |s|
    requires forall i :: 0 <= i < |s| ==> s[i].tag != tag
    ensures UniqueTags(Aged(s)[v := CacheLine(tag, 0)])
  {
  }

  /** One access, hit or miss, keeps the invariant of the set */
  lemma AccessKeepsInvariant(s: seq<CacheLine>, setSize: nat, h: seq<nat>, tag: nat)
    requires SetInvariant(s, setSize, h)
    ensures SetInvariant(Access(s, tag, setSize).lines, setSize, h + [tag])
  {
    var k := FirstWithTag(s, tag);
    if k < |s| {
      TouchKeepsInvariant(s, setSize, h, k);
    } else {
      InsertKeepsInvariant(s, setSize, h, tag);
    }
  }

  /** The victim is the least recently used line: every other line in the
      set was accessed after it. */
  lemma LruIsLeastRecentlyUsed(s: seq<CacheLine>, h: seq<nat>)
    requires UniqueTags(s) && RecencyOrdered(s, h) && s != []
    ensures forall j :: 0 <= j < |s| && j != LruSlot(s) ==>
      LastUse(h, s[LruSlot(s)].tag) < LastUse(h, s[j].tag)
  {
    var v := LruSlot(s);
    var a, u := Ages(s), Uses(s, h);
    forall j | 0 <= j < |s| && j != v
      ensures LastUse(h, s[v].tag) < LastUse(h, s[j].tag)
    {
      assert s[v].tag != s[j].tag;
      assert u[v] != u[j];
    }
  }

  /** After an access the tag is in the set, so repeating the access at
      once is a hit. */
  lemma AccessThenHit(s: seq<CacheLine>, tag: nat, setSize: nat)
    requires s != [] || setSize > 0
    ensures Access(Access(s, tag, setSize).lines, tag, setSize).hit
  {
    var r := Access(s, tag, setSize).lines;
    var k := FirstWithTag(s, tag);
    if k < |s| {
      assert r[k].tag == tag;
    } else if |s| < setSize {
      assert r[|s|].tag == tag;
    } else {
      assert r[LruSlot(s)].tag == tag;
    }
  }

  /** The lines of a set of size setSize that started empty, after the
      lookups h in order */
  function Replay(h: seq<nat>, setSize: nat): (s: seq<CacheLine>)
    requires setSize >= 1
    ensures |s| <= setSize
    decreases |h|
  {
    if h == [] then []
    else Access(Replay(h[..|h| - 1], setSize), h[|h| - 1], setSize).lines
  }

  /** One more lookup replays as one more Access */
  lemma ReplayStep(h: seq<nat>, tag: nat, setSize: nat)
    requires setSize >= 1
    ensures Replay(h + [tag], setSize) == Access(Replay(h, setSize), tag, setSize).lines
  {
    assert (h + [tag])[..|h|] == h;
  }

  /** A lookup that hits replays as a Touch of the first line holding the
      tag */
  lemma ReplayHit(h: seq<nat>, tag: nat, setSize: nat)
    requires setSize >= 1 && HoldsTag(Replay(h, setSize), tag)
    ensures Replay(h + [tag], setSize)
         == Touch(Replay(h, setSize), FirstWithTag(Replay(h, setSize), tag))
  {
    ReplayStep(h, tag, setSize);
  }

  /** A lookup that misses replays as an Insert of the tag */
  lemma ReplayMiss(h: seq<nat>, tag: nat, setSize: nat)
    requires setSize >= 1 && !HoldsTag(Replay(h, setSize), tag)
    ensures Replay(h + [tag], setSize) == Insert(Replay(h, setSize), tag, setSize)
  {
    ReplayStep(h, tag, setSize);
  }

  /** Every set reached by lookups from an empty set satisfies the
      invariant: unique tags, and ages that follow recency. */
  lemma {:induction false} ReplayInvariant(h: seq<nat>, setSize: nat)
    requires setSize >= 1
    ensures SetInvariant(Replay(h, setSize), setSize, h)
  {
    if h != [] {
      var p := h[..|h| - 1];
      ReplayInvariant(p, setSize);
      AccessKeepsInvariant(Replay(p, setSize), setSize, p, h[|h| - 1]);
      assert p + [h[|h| - 1]] == h;
    }
  }

  /** In a set reached by lookups, the victim chosen by the replacement
      policy is the line whose tag was looked up longest ago. */
  lemma ReplayEvictsLeastRecentlyUsed(h: seq<nat>, setSize: nat)
    requires setSize >= 1 && Replay(h, setSize) != []
    ensures var s := Replay(h, setSize);
      forall j :: 0 <= j < |s| && j != LruSlot(s) ==>
        LastUse(h, s[LruSlot(s)].tag) < LastUse(h, s[j].tag)
  {
    ReplayInvariant(h, setSize);
    LruIsLeastRecentlyUsed(Replay(h, setSize), h);
  }
}
