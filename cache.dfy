/** The simulated cache as the program holds it: a table of sets, each set
    a vector of lines updated in place, and the counters and reference log
    the table keeps while a trace is replayed. */
module Cache {
  import opened CacheLines
  import opened Geometry

  /** A set of lines sharing one index. `history` is the sequence of tags
      looked up in this set; it exists only for the proof. */
  class CacheSet {
    var setSize: nat
    var index: nat
    var lines: seq<CacheLine>
    ghost var history: seq<nat>

    /** The lines are what the lookups so far make of an empty set, so
        they satisfy SetInvariant (ReplayInvariant). */
    ghost predicate Valid()
      reads this`lines, this`setSize, this`history
    {
      setSize >= 1 && lines == Replay(history, setSize)
    }

    /** A new, empty set; the index is assigned afterwards. */
    constructor (setSize: nat)
      ensures this.setSize == setSize && index == 0 && lines == [] && history == []
      ensures Valid() <==> setSize >= 1
    {
      this.setSize := setSize;
      index := 0;
      lines := [];
      history := [];
    }

    /** add_new_cache_line: a line holding `tag`, age 0, at the end; the
        other lines keep their ages */
    method AddNewCacheLine(tag: nat)
      modifies this`lines
      ensures lines == old(lines) + [CacheLine(tag, 0)]
    {
      lines := lines + [CacheLine(tag, 0)];
    }

    /** update_LRUs: every line one access older */
    method UpdateLRUs()
      modifies this`lines
      ensures lines == Aged(old(lines))
    {
      var i := 0;
      while i < |lines|
        invariant 0 <= i <= |lines| == |old(lines)|
        invariant forall k :: 0 <= k < i ==> lines[k] == CacheLine(old(lines)[k].tag, old(lines)[k].age + 1)
        invariant forall k :: i <= k < |lines| ==> lines[k] == old(lines)[k]
      {
        lines := lines[i := CacheLine(lines[i].tag, lines[i].age + 1)];
        i := i + 1;
      }
    }

    /** check_cache_lines: on a hit the first line holding `tag` becomes the
        most recently used and every other line ages by one; on a miss
        nothing changes. */
    method CheckCacheLines(tag: nat) returns (hit: bool)
      modifies this`lines, this`history
      ensures hit <==> HoldsTag(old(lines), tag)
      ensures hit ==> (lines == Touch(old(lines), FirstWithTag(old(lines), tag))
                       && history == old(history) + [tag])
      ensures !hit ==> (lines == old(lines) && history == old(history))
      ensures old(Valid()) ==> Valid()
    {
      var i := 0;
      while i < |lines|
        invariant 0 <= i <= |lines|
        invariant forall j :: 0 <= j < i ==> lines[j].tag != tag
        invariant lines == old(lines) && history == old(history)
      {
        if lines[i].tag == tag {
          UpdateLRUs();
          lines := lines[i := CacheLine(lines[i].tag, 0)];
          history := history + [tag];
          if old(Valid()) {
            ReplayHit(old(history), tag, setSize);
          }
          return true;
        }
        i := i + 1;
      }
      return false;
    }

    /** find_LRU: the first line whose age is the largest; position 0 when
        the set is empty */
    method FindLRU() returns (v: nat)
      ensures lines == [] ==> v == 0
      ensures v == LruSlot(lines)
      ensures lines != [] ==> IsLruSlot(lines, v)
    {
      v := 0;
      var i := 0;
      while i < |lines|
        invariant 0 <= i <= |lines|
        invariant v == 0 || v < i
        invariant lines != [] ==> v < |lines|
        invariant lines != [] ==> forall j :: 0 <= j < i ==> lines[j].age <= lines[v].age
        invariant lines != [] ==> forall j :: 0 <= j < v ==> lines[j].age < lines[v].age
      {
        if lines[v].age < lines[i].age {
          v := i;
        }
        i := i + 1;
      }
    }

    /** update_cache_lines, called after a miss: append while the set has
        room, otherwise age every line and overwrite the victim with `tag`
        at age 0. */
    method UpdateCacheLines(tag: nat)
      requires lines != [] || setSize > 0
      modifies this`lines, this`history
      ensures lines == Insert(old(lines), tag, setSize)
      ensures history == old(history) + [tag]
      ensures old(Valid()) && !HoldsTag(old(lines), tag) ==> Valid()
    {
      ghost var s, h := lines, history;
      if |lines| < setSize {
        AddNewCacheLine(tag);
      } else {
        var v := FindLRU();
        UpdateLRUs();
        // the victim takes the new tag and becomes the most recently used
        lines := lines[v := CacheLine(tag, 0)];
        InsertEvicts(s, tag, setSize);
      }
      history := history + [tag];
      if setSize >= 1 && s == Replay(h, setSize) && !HoldsTag(s, tag) {
        ReplayMiss(h, tag, setSize);
      }
    }

    /** setIndex */
    method SetIndex(index: nat)
      modifies this`index
      ensures this.index == index
    {
      this.index := index;
    }

    /** The work determine_hit_or_miss does on the set the index selects:
        check_cache_lines, and update_cache_lines when that misses. The
        lines change as Access says, and the set stays valid. */
    method Lookup(tag: nat) returns (hit: bool)
      requires Valid()
      modifies this`lines, this`history
      ensures Valid()
      ensures Outcome(hit, lines) == Access(old(lines), tag, setSize)
      ensures history == old(history) + [tag]
    {
      hit := CheckCacheLines(tag);
      if !hit {
        UpdateCacheLines(tag);
      }
    }
  }

  /** One replayed memory reference: its position in the trace, the
      address, the decoded fields and whether it hit */
  datatype MemRef = MemRef(refNum: nat, address: nat, tag: nat, index: nat, offset: nat, hit: bool)

  /** The number of hits among the references */
  function CountHits(refs: seq<MemRef>): (n: nat)
    ensures n <= |refs|
  {
    if refs == [] then 0
    else CountHits(refs[..|refs| - 1]) + (if refs[|refs| - 1].hit then 1 else 0)
  }

  /** `r` records reference number refNum at `address`, its fields decoded
      with the given sizes and masks */
  predicate Logged(r: MemRef, refNum: nat, address: nat,
                   indexSize: nat, offsetSize: nat, indexMask: nat, offsetMask: nat)
  {
    && r.refNum == refNum && r.address == address
    && r.tag == CalculateTag(address, indexSize, offsetSize)
    && r.index == CalculateIndex(address, indexMask, offsetSize)
    && r.offset == CalculateOffset(address, offsetMask)
  }

  /** The index each set carries, its size and its history, as values */
  ghost function Indices(ss: seq<CacheSet>): (r: seq<nat>)
    reads ss
    ensures |r| == |ss| && forall j :: 0 <= j < |ss| ==> r[j] == ss[j].index
  {
    if ss == [] then [] else Indices(ss[..|ss| - 1]) + [ss[|ss| - 1].index]
  }

  ghost function SetSizes(ss: seq<CacheSet>): (r: seq<nat>)
    reads ss
    ensures |r| == |ss| && forall j :: 0 <= j < |ss| ==> r[j] == ss[j].setSize
  {
    if ss == [] then [] else SetSizes(ss[..|ss| - 1]) + [ss[|ss| - 1].setSize]
  }

  ghost function Histories(ss: seq<CacheSet>): (r: seq<seq<nat>>)
    reads ss
    ensures |r| == |ss| && forall j :: 0 <= j < |ss| ==> r[j] == ss[j].history
  {
    if ss == [] then [] else Histories(ss[..|ss| - 1]) + [ss[|ss| - 1].history]
  }

  /** The set determine_hit_or_miss picks for `index` among sets carrying
      the indices ix: the first one carrying it, or |ix| when none does */
  function FirstSet(ix: seq<nat>, index: nat): (k: nat)
    ensures k <= |ix| && (k < |ix| ==> ix[k] == index)
    ensures forall j :: 0 <= j < k ==> ix[j] != index
  {
    if ix == [] then 0
    else if ix[0] == index then 0
    else 1 + FirstSet(ix[1..], index)
  }

  /** FirstSet is the only position with its two properties */
  lemma FirstSetUnique(ix: seq<nat>, index: nat, k: nat)
    requires k <= |ix| && (k < |ix| ==> ix[k] == index)
    requires forall j :: 0 <= j < k ==> ix[j] != index
    ensures k == FirstSet(ix, index)
  {
  }

  /** The tags of the first n addresses of a trace whose decoded index
      selects set j, in trace order: what the trace adds to the history of
      set j. */
  function Routed(trace: seq<nat>, ix: seq<nat>, j: nat, n: nat,
                  indexSize: nat, offsetSize: nat, indexMask: nat): (r: seq<nat>)
    requires n <= |trace|
    ensures |r| <= n
    ensures forall t :: t in r ==>
      exists i :: (0 <= i < n && FirstSet(ix, CalculateIndex(trace[i], indexMask, offsetSize)) == j
                   && t == CalculateTag(trace[i], indexSize, offsetSize))
  {
    if n == 0 then []
    else
      var p := Routed(trace, ix, j, n - 1, indexSize, offsetSize, indexMask);
      if FirstSet(ix, CalculateIndex(trace[n - 1], indexMask, offsetSize)) == j
      then p + [CalculateTag(trace[n - 1], indexSize, offsetSize)]
      else p
  }

  /** The histories hs after one more lookup of `tag` in set k; none
      changes when k names no set. */
  function Bump(hs: seq<seq<nat>>, k: nat, tag: nat): (r: seq<seq<nat>>)
    ensures |r| == |hs|
    ensures forall j :: 0 <= j < |hs| ==> r[j] == (if j == k then hs[j] + [tag] else hs[j])
  {
    if k < |hs| then hs[k := hs[k] + [tag]] else hs
  }

  /** The histories of sets that start with the indices ix and the
      histories hs, after the first n references of a trace: each
      reference is looked up in the set its decoded index selects. */
  function HistoriesAfter(trace: seq<nat>, n: nat, ix: seq<nat>, hs: seq<seq<nat>>,
                          indexSize: nat, offsetSize: nat, indexMask: nat): (r: seq<seq<nat>>)
    requires n <= |trace|
    ensures |r| == |hs|
  {
    if n == 0 then hs
    else Bump(HistoriesAfter(trace, n - 1, ix, hs, indexSize, offsetSize, indexMask),
              FirstSet(ix, CalculateIndex(trace[n - 1], indexMask, offsetSize)),
              CalculateTag(trace[n - 1], indexSize, offsetSize))
  }

  /** One more reference moves HistoriesAfter on by Bump at the set that
      reference's index selects. */
  lemma HistoriesAfterNext(trace: seq<nat>, n: nat, next: nat, ix: seq<nat>, hs: seq<seq<nat>>,
                           indexSize: nat, offsetSize: nat, indexMask: nat)
    requires n < |trace| && next == n + 1
    ensures HistoriesAfter(trace, next, ix, hs, indexSize, offsetSize, indexMask)
            == Bump(HistoriesAfter(trace, n, ix, hs, indexSize, offsetSize, indexMask),
                    FirstSet(ix, CalculateIndex(trace[n], indexMask, offsetSize)),
                    CalculateTag(trace[n], indexSize, offsetSize))
  {
  }

  /** After n references, each set's history is its starting history
      followed by the tags of exactly the references routed to it. */
  lemma {:induction false} HistoriesAfterRouted(trace: seq<nat>, n: nat, ix: seq<nat>, hs: seq<seq<nat>>,
                                                indexSize: nat, offsetSize: nat, indexMask: nat)
    requires n <= |trace|
    ensures forall j :: 0 <= j < |hs| ==>
      HistoriesAfter(trace, n, ix, hs, indexSize, offsetSize, indexMask)[j]
      == hs[j] + Routed(trace, ix, j, n, indexSize, offsetSize, indexMask)
  {
    if n > 0 {
      HistoriesAfterRouted(trace, n - 1, ix, hs, indexSize, offsetSize, indexMask);
    }
  }

  /** Whether a lookup of `tag` under `index` hits in sets that carry the
      indices ix, the histories cur and the sizes sizes: the index selects
      a set, and that set, replayed through its history, holds the tag. */
  ghost predicate LookupHits(ix: seq<nat>, cur: seq<seq<nat>>, sizes: seq<nat>, index: nat, tag: nat)
    requires |cur| == |ix| && |sizes| == |ix|
    requires forall j :: 0 <= j < |sizes| ==> sizes[j] >= 1
  {
    var k := FirstSet(ix, index);
    k < |ix| && HoldsTag(Replay(cur[k], sizes[k]), tag)
  }

  /** Whether reference n of a trace hits, for sets that start with the
      indices ix, the histories hs and the sizes sizes: LookupHits in the
      histories those sets have after the first n references. */
  ghost predicate TraceHit(trace: seq<nat>, n: nat, ix: seq<nat>, hs: seq<seq<nat>>, sizes: seq<nat>,
                           indexSize: nat, offsetSize: nat, indexMask: nat)
    requires n < |trace| && |hs| == |ix| && |sizes| == |ix|
    requires forall j :: 0 <= j < |sizes| ==> sizes[j] >= 1
  {
    LookupHits(ix, HistoriesAfter(trace, n, ix, hs, indexSize, offsetSize, indexMask), sizes,
               CalculateIndex(trace[n], indexMask, offsetSize), CalculateTag(trace[n], indexSize, offsetSize))
  }

  /** A reference to the same address as the reference just before it
      hits, whenever its index selects a set. */
  lemma RepeatHits(trace: seq<nat>, n: nat, ix: seq<nat>, hs: seq<seq<nat>>, sizes: seq<nat>,
                   indexSize: nat, offsetSize: nat, indexMask: nat)
    requires n + 1 < |trace| && trace[n + 1] == trace[n]
    requires |hs| == |ix| && |sizes| == |ix|
    requires forall j :: 0 <= j < |sizes| ==> sizes[j] >= 1
    requires FirstSet(ix, CalculateIndex(trace[n], indexMask, offsetSize)) < |ix|
    ensures TraceHit(trace, n + 1, ix, hs, sizes, indexSize, offsetSize, indexMask)
  {
    var k := FirstSet(ix, CalculateIndex(trace[n], indexMask, offsetSize));
    var tag := CalculateTag(trace[n], indexSize, offsetSize);
    var h := HistoriesAfter(trace, n, ix, hs, indexSize, offsetSize, indexMask)[k];
    assert HistoriesAfter(trace, n + 1, ix, hs, indexSize, offsetSize, indexMask)[k] == h + [tag];
    ReplayStep(h, tag, sizes[k]);
    AccessThenHit(Replay(h, sizes[k]), tag, sizes[k]);
  }

  /** log extends log0 by one entry per reference of trace[..n], entry i
      recording reference i and logged as a hit exactly when TraceHit says
      so for it. */
  ghost predicate TraceLog(log: seq<MemRef>, log0: seq<MemRef>, trace: seq<nat>, n: nat,
                           ix: seq<nat>, hs: seq<seq<nat>>, sizes: seq<nat>,
                           indexSize: nat, offsetSize: nat, indexMask: nat, offsetMask: nat)
    requires n <= |trace| && |hs| == |ix| && |sizes| == |ix|
    requires forall j :: 0 <= j < |sizes| ==> sizes[j] >= 1
  {
    && |log| == |log0| + n && log[..|log0|] == log0
    && (forall i :: 0 <= i < n ==>
          Logged(log[|log0| + i], i, trace[i], indexSize, offsetSize, indexMask, offsetMask))
    && (forall i :: 0 <= i < n ==>
          (log[|log0| + i].hit <==> TraceHit(trace, i, ix, hs, sizes, indexSize, offsetSize, indexMask)))
  }

  /** The log and the counters after the first n references of trace,
      starting from the log log0 and the counts hits0, total0 (hits plus
      misses) and access0: the log is TraceLog, the accesses and the hits
      plus misses grew by n, and the hits by the hits logged after log0. */
  ghost predicate RunSoFar(log: seq<MemRef>, hits: nat, miss: nat, access: nat,
                           log0: seq<MemRef>, hits0: nat, total0: nat, access0: nat,
                           trace: seq<nat>, n: nat, ix: seq<nat>, hs: seq<seq<nat>>, sizes: seq<nat>,
                           indexSize: nat, offsetSize: nat, indexMask: nat, offsetMask: nat)
    requires n <= |trace| && |hs| == |ix| && |sizes| == |ix|
    requires forall j :: 0 <= j < |sizes| ==> sizes[j] >= 1
  {
    && TraceLog(log, log0, trace, n, ix, hs, sizes, indexSize, offsetSize, indexMask, offsetMask)
    && access == access0 + n
    && hits + miss == total0 + n
    && hits == hits0 + CountHits(log[|log0|..])
  }

  /** Logging reference n as read_mem_trace does, and counting it as a hit
      or a miss, carries RunSoFar over the first n references to RunSoFar
      over the first next = n + 1. */
  lemma LogStep(log0: seq<MemRef>, hits0: nat, total0: nat, access0: nat,
                before: seq<MemRef>, hits: nat, miss: nat, access: nat,
                after: seq<MemRef>, hits': nat, miss': nat, access': nat,
                trace: seq<nat>, n: nat, next: nat, ix: seq<nat>, hs: seq<seq<nat>>, sizes: seq<nat>,
                indexSize: nat, offsetSize: nat, indexMask: nat, offsetMask: nat)
    requires n < |trace| && next == n + 1 && |hs| == |ix| && |sizes| == |ix|
    requires forall j :: 0 <= j < |sizes| ==> sizes[j] >= 1
    requires RunSoFar(before, hits, miss, access, log0, hits0, total0, access0,
                      trace, n, ix, hs, sizes, indexSize, offsetSize, indexMask, offsetMask)
    requires |after| == |before| + 1 && after[..|before|] == before
    requires Logged(after[|before|], n, trace[n], indexSize, offsetSize, indexMask, offsetMask)
    requires after[|before|].hit <==> TraceHit(trace, n, ix, hs, sizes, indexSize, offsetSize, indexMask)
    requires access' == access + 1 && hits' + miss' == hits + miss + 1
    requires hits' == hits + (if after[|before|].hit then 1 else 0)
    ensures RunSoFar(after, hits', miss', access', log0, hits0, total0, access0,
                     trace, next, ix, hs, sizes, indexSize, offsetSize, indexMask, offsetMask)
  {
    assert after[|log0|..][..|after[|log0|..]| - 1] == before[|log0|..];
    assert after[..|log0|] == before[..|log0|];
  }

  class CacheTable {
    var totalCacheSize: nat
    var lineSize: nat
    var setSize: nat
    var numberOfSets: nat
    var indexSize: nat
    var offsetSize: nat
    var offsetMask: nat
    var indexMask: nat
    var sets: seq<CacheSet>
    var memRefs: seq<MemRef>
    var totalHits: nat
    var totalMiss: nat
    var totalAccess: nat

    /** The sets are distinct objects, each valid. */
    ghost predicate Valid()
      reads this`sets, sets
    {
      && (forall i, j :: 0 <= i < j < |sets| ==> sets[i] != sets[j])
      && (forall i :: 0 <= i < |sets| ==> sets[i].Valid())
    }

    /** The sets are built: numberOfSets valid sets of setSize lines, set k
        carrying index k. */
    ghost predicate SetsBuilt()
      reads this`sets, this`numberOfSets, this`setSize, sets
    {
      && Valid()
      && |sets| == numberOfSets
      && (forall k :: 0 <= k < |sets| ==> sets[k].index == k && sets[k].setSize == setSize)
    }

    /** The geometry has been derived and the sets built: sizes and masks
        as the geometry gives them. */
    ghost predicate Configured()
      reads this, sets
    {
      && SetsBuilt()
      && lineSize >= 1 && numberOfSets >= 1
      && indexSize == IndexSize(numberOfSets) && offsetSize == OffsetSize(lineSize)
      && offsetMask == OffsetMask(offsetSize) && indexMask == IndexMask(indexSize, offsetSize)
    }

    /** Every reference replayed so far was counted once, as a hit or as a
        miss. */
    ghost predicate Balanced()
      reads this`totalHits, this`totalMiss, this`totalAccess, this`memRefs
    {
      && totalHits + totalMiss == totalAccess
      && totalAccess == |memRefs|
      && totalHits == CountHits(memRefs)
    }

    /** A table for the given sizes, before its geometry is derived; every
        counter starts at zero. */
    constructor (totalCacheSize: nat, lineSize: nat, setSize: nat)
      ensures this.totalCacheSize == totalCacheSize && this.lineSize == lineSize && this.setSize == setSize
      ensures numberOfSets == 0 && sets == [] && memRefs == []
      ensures totalHits == 0 && totalMiss == 0 && totalAccess == 0
      ensures Valid() && Balanced()
    {
      this.totalCacheSize := totalCacheSize;
      this.lineSize := lineSize;
      this.setSize := setSize;
      numberOfSets := 0;
      indexSize, offsetSize, offsetMask, indexMask := 0, 0, 0, 0;
      sets := [];
      memRefs := [];
      totalHits, totalMiss, totalAccess := 0, 0, 0;
    }

    /** calculate_number_of_sets: assigned only when line size and set size
        are nonzero */
    method CalculateNumberOfSets()
      modifies this`numberOfSets
      ensures NumberOfSets(totalCacheSize, lineSize, setSize).Some? ==>
                numberOfSets == NumberOfSets(totalCacheSize, lineSize, setSize).value
      ensures NumberOfSets(totalCacheSize, lineSize, setSize).None? ==> numberOfSets == old(numberOfSets)
    {
      if lineSize != 0 && setSize != 0 {
        numberOfSets := (totalCacheSize / lineSize) / setSize;
      }
    }

    method CalculateIndexSize()
      requires numberOfSets >= 1
      modifies this`indexSize
      ensures indexSize == IndexSize(numberOfSets)
    {
      indexSize := IndexSize(numberOfSets);
    }

    method CalculateOffsetSize()
      requires lineSize >= 1
      modifies this`offsetSize
      ensures offsetSize == OffsetSize(lineSize)
    {
      offsetSize := OffsetSize(lineSize);
    }

    method CalculateOffsetMask()
      modifies this`offsetMask
      ensures offsetMask == OffsetMask(offsetSize)
    {
      offsetMask := OffsetMask(offsetSize);
    }

    method CalculateIndexMask()
      modifies this`indexMask
      ensures indexMask == IndexMask(indexSize, offsetSize)
    {
      indexMask := IndexMask(indexSize, offsetSize);
    }

    /** create_cache_sets: n new, empty sets of setSize lines appended */
    method CreateCacheSets(n: nat)
      requires Valid() && setSize >= 1
      modifies this`sets
      ensures Valid()
      ensures |sets| == |old(sets)| + n && sets[..|old(sets)|] == old(sets)
      ensures forall k :: |old(sets)| <= k < |sets| ==>
        fresh(sets[k]) && sets[k].lines == [] && sets[k].history == []
        && sets[k].setSize == setSize && sets[k].index == 0
    {
      var i := 0;
      while i < n
        invariant 0 <= i <= n
        invariant Valid()
        invariant |sets| == |old(sets)| + i && sets[..|old(sets)|] == old(sets)
        invariant forall k :: |old(sets)| <= k < |sets| ==>
          fresh(sets[k]) && sets[k].lines == [] && sets[k].history == []
          && sets[k].setSize == setSize && sets[k].index == 0
      {
        var s := new CacheSet(setSize);
        sets := sets + [s];
        i := i + 1;
      }
    }

    /** set_index_for_cache_sets: set k gets index k */
    method SetIndexForCacheSets()
      requires Valid()
      modifies sets
      ensures Valid()
      ensures unchanged(this)
      ensures forall k :: 0 <= k < |sets| ==> sets[k].index == k
      ensures forall k :: 0 <= k < |sets| ==>
        sets[k].lines == old(sets[k].lines) && sets[k].setSize == old(sets[k].setSize)
        && sets[k].history == old(sets[k].history)
    {
      var i := 0;
      while i < |sets|
        invariant 0 <= i <= |sets|
        invariant forall k :: 0 <= k < i ==> sets[k].index == k
        invariant forall k :: 0 <= k < |sets| ==>
          sets[k].lines == old(sets[k].lines) && sets[k].setSize == old(sets[k].setSize)
          && sets[k].history == old(sets[k].history)
      {
        sets[i].SetIndex(i);
        i := i + 1;
      }
    }

    /** The start-up sequence: derive the number of sets, build and index
        the sets, then derive the field sizes and masks. A zero line size,
        set size or number of sets is a configuration error, reported by
        returning false before anything else is done. */
    method Setup() returns (ok: bool)
      requires Valid() && sets == []
      modifies this`numberOfSets, this`sets, this`indexSize, this`offsetSize, this`offsetMask, this`indexMask
      ensures ok <==> (lineSize != 0 && setSize != 0
                      && NumberOfSets(totalCacheSize, lineSize, setSize).value >= 1)
      ensures ok ==> Configured()
      ensures ok ==> numberOfSets == NumberOfSets(totalCacheSize, lineSize, setSize).value
      ensures ok ==> forall k :: 0 <= k < |sets| ==>
        fresh(sets[k]) && sets[k].lines == [] && sets[k].history == []
    {
      CalculateNumberOfSets();
      if lineSize == 0 || setSize == 0 || numberOfSets == 0 {
        return false;
      }
      BuildSets();
      DeriveFieldSizes();
      return true;
    }

    /** create_cache_sets for numberOfSets sets, then
        set_index_for_cache_sets */
    method BuildSets()
      requires Valid() && sets == [] && setSize >= 1
      modifies this`sets
      ensures SetsBuilt()
      ensures forall k :: 0 <= k < |sets| ==> fresh(sets[k]) && sets[k].lines == [] && sets[k].history == []
    {
      CreateCacheSets(numberOfSets);
      SetIndexForCacheSets();
    }

    /** calculate_index_size, calculate_offset_size, calculate_offset_mask
        and calculate_index_mask, in that order */
    method DeriveFieldSizes()
      requires numberOfSets >= 1 && lineSize >= 1
      modifies this`indexSize, this`offsetSize, this`offsetMask, this`indexMask
      ensures indexSize == IndexSize(numberOfSets) && offsetSize == OffsetSize(lineSize)
      ensures offsetMask == OffsetMask(offsetSize) && indexMask == IndexMask(indexSize, offsetSize)
    {
      CalculateIndexSize();
      CalculateOffsetSize();
      CalculateOffsetMask();
      CalculateIndexMask();
    }

    /** The search of determine_hit_or_miss: the position of the first set
        whose index is `index`, |sets| when there is none */
    method FindSet(index: nat) returns (i: nat)
      ensures i <= |sets| && (i < |sets| ==> sets[i].index == index)
      ensures forall j :: 0 <= j < i ==> sets[j].index != index
    {
      i := 0;
      while i < |sets| && sets[i].index != index
        invariant 0 <= i <= |sets|
        invariant forall j :: 0 <= j < i ==> sets[j].index != index
      {
        i := i + 1;
      }
    }

    /** The lookup in set i, which changes that set and no other */
    method LookupSet(i: nat, tag: nat) returns (hit: bool)
      requires Valid() && i < |sets|
      modifies sets[i]
      ensures Valid()
      ensures Outcome(hit, sets[i].lines) == Access(old(sets[i].lines), tag, sets[i].setSize)
      ensures sets[i].history == old(sets[i].history) + [tag]
      ensures sets[i].index == old(sets[i].index) && sets[i].setSize == old(sets[i].setSize)
      ensures HoldsTag(sets[i].lines, tag)
    {
      ghost var before := sets[i].lines;
      hit := sets[i].Lookup(tag);
      AccessThenHit(before, tag, sets[i].setSize);
    }

    /** determine_hit_or_miss: look `tag` up in the first set whose index
        is `index` (k, or |sets| when no set has it); a hit counts a hit,
        anything else counts a miss, and a miss in an existing set inserts
        the tag there. No other set changes. */
    method DetermineHitOrMiss(index: nat, tag: nat) returns (hit: bool, ghost k: nat)
      requires Valid()
      modifies this`totalHits, this`totalMiss, sets
      ensures Valid()
      ensures k <= |sets| && (k < |sets| ==> sets[k].index == index)
      ensures forall j :: 0 <= j < k ==> sets[j].index != index
      ensures hit <==> k < |sets| && HoldsTag(old(sets[k].lines), tag)
      ensures k < |sets| ==> Outcome(hit, sets[k].lines) == Access(old(sets[k].lines), tag, sets[k].setSize)
      ensures k < |sets| ==> sets[k].history == old(sets[k].history) + [tag]
      ensures k < |sets| ==> sets[k].index == old(sets[k].index) && sets[k].setSize == old(sets[k].setSize)
      ensures forall j :: 0 <= j < |sets| && j != k ==> unchanged(sets[j])
      ensures k < |sets| ==> HoldsTag(sets[k].lines, tag)
      ensures hit ==> totalHits == old(totalHits) + 1 && totalMiss == old(totalMiss)
      ensures !hit ==> totalMiss == old(totalMiss) + 1 && totalHits == old(totalHits)
    {
      var i := FindSet(index);
      k := i;
      if i < |sets| {
        hit := LookupSet(i, tag);
      } else {
        hit := false;
      }
      Count(hit);
    }

    /** The counting at the end of determine_hit_or_miss: one more hit or
        one more miss */
    method Count(hit: bool)
      modifies this`totalHits, this`totalMiss
      ensures hit ==> totalHits == old(totalHits) + 1 && totalMiss == old(totalMiss)
      ensures !hit ==> totalMiss == old(totalMiss) + 1 && totalHits == old(totalHits)
    {
      if hit {
        totalHits := totalHits + 1;
      } else {
        totalMiss := totalMiss + 1;
      }
    }

    /** The work read_mem_trace does for one line of the trace: decode the
        address with the table's sizes and masks, look it up, log the
        reference with its outcome and count the access. k is the set the
        decoded index selects, |sets| when there is none. */
    method ReadMemRef(refNum: nat, address: nat) returns (hit: bool, ghost k: nat)
      requires Valid()
      modifies this`totalHits, this`totalMiss, this`totalAccess, this`memRefs, sets
      ensures Valid()
      ensures k <= |sets| && (k < |sets| ==> sets[k].index == CalculateIndex(address, indexMask, offsetSize))
      ensures forall j :: 0 <= j < k ==> sets[j].index != CalculateIndex(address, indexMask, offsetSize)
      ensures hit <==> k < |sets| && HoldsTag(old(sets[k].lines), CalculateTag(address, indexSize, offsetSize))
      ensures k < |sets| ==> Outcome(hit, sets[k].lines)
                             == Access(old(sets[k].lines), CalculateTag(address, indexSize, offsetSize), sets[k].setSize)
      ensures k < |sets| ==> sets[k].history == old(sets[k].history) + [CalculateTag(address, indexSize, offsetSize)]
      ensures k < |sets| ==> sets[k].index == old(sets[k].index) && sets[k].setSize == old(sets[k].setSize)
      ensures forall j :: 0 <= j < |sets| && j != k ==> unchanged(sets[j])
      ensures |memRefs| == |old(memRefs)| + 1 && memRefs[..|old(memRefs)|] == old(memRefs)
      ensures Logged(memRefs[|old(memRefs)|], refNum, address, indexSize, offsetSize, indexMask, offsetMask)
      ensures memRefs[|old(memRefs)|].hit == hit
      ensures totalAccess == old(totalAccess) + 1
      ensures hit ==> totalHits == old(totalHits) + 1 && totalMiss == old(totalMiss)
      ensures !hit ==> totalMiss == old(totalMiss) + 1 && totalHits == old(totalHits)
      ensures old(Balanced()) ==> Balanced()
    {
      var tag := CalculateTag(address, indexSize, offsetSize);
      var index := CalculateIndex(address, indexMask, offsetSize);
      var offset := CalculateOffset(address, offsetMask);
      hit, k := DetermineHitOrMiss(index, tag);
      memRefs := memRefs + [MemRef(refNum, address, tag, index, offset, hit)];
      assert memRefs[..|memRefs| - 1] == old(memRefs);
      totalAccess := totalAccess + 1;
    }

    /** The sets carry the indices ix, the sizes sizes and the histories
        cur, set by set. */
    ghost predicate SetsHold(ix: seq<nat>, cur: seq<seq<nat>>, sizes: seq<nat>)
      reads this`sets, sets
    {
      && |ix| == |sets| && |cur| == |sets| && |sizes| == |sets|
      && (forall j :: 0 <= j < |sets| ==>
            sets[j].index == ix[j] && sets[j].setSize == sizes[j] && sets[j].history == cur[j])
    }

    /** ReadMemRef seen through the values the sets hold: the lookup hits
        exactly when LookupHits says so, and the histories move on by Bump
        at the set FirstSet picks. */
    method ReadMemRefOnValues(refNum: nat, address: nat, ghost ix: seq<nat>, ghost cur: seq<seq<nat>>,
                              ghost sizes: seq<nat>)
      returns (hit: bool)
      requires Valid() && SetsHold(ix, cur, sizes)
      modifies this`totalHits, this`totalMiss, this`totalAccess, this`memRefs, sets
      ensures forall j :: 0 <= j < |sizes| ==> sizes[j] >= 1
      ensures Valid()
      ensures SetsHold(ix, Bump(cur, FirstSet(ix, CalculateIndex(address, indexMask, offsetSize)),
                                CalculateTag(address, indexSize, offsetSize)), sizes)
      ensures hit <==> LookupHits(ix, cur, sizes, CalculateIndex(address, indexMask, offsetSize),
                                  CalculateTag(address, indexSize, offsetSize))
      ensures |memRefs| == |old(memRefs)| + 1 && memRefs[..|old(memRefs)|] == old(memRefs)
      ensures Logged(memRefs[|old(memRefs)|], refNum, address, indexSize, offsetSize, indexMask, offsetMask)
      ensures memRefs[|old(memRefs)|].hit == hit
      ensures totalAccess == old(totalAccess) + 1
      ensures totalHits + totalMiss == old(totalHits + totalMiss) + 1
      ensures totalHits == old(totalHits) + (if hit then 1 else 0)
      ensures old(Balanced()) ==> Balanced()
    {
      var index, tag := CalculateIndex(address, indexMask, offsetSize), CalculateTag(address, indexSize, offsetSize);
      ghost var f := FirstSet(ix, index);
      assert forall j :: 0 <= j < |sizes| ==> sizes[j] >= 1 by {
        forall j | 0 <= j < |sizes| ensures sizes[j] >= 1 {
          assert sets[j].Valid();
        }
      }
      assert f < |sets| ==> sets[f].Valid() && sets[f].lines == Replay(cur[f], sizes[f]);
      ghost var k;
      hit, k := ReadMemRef(refNum, address);
      FirstSetUnique(ix, index, k);
      ghost var next := Bump(cur, f, tag);
      forall j | 0 <= j < |sets|
        ensures sets[j].index == ix[j] && sets[j].setSize == sizes[j] && sets[j].history == next[j]
      {
        if j != k {
          assert unchanged(sets[j]);
        }
      }
    }

    /** read_mem_trace over the addresses of a trace, in order, numbering
        the references from 0. Each set's history becomes HistoriesAfter
        the trace, so its lines are the replay of that history; the log
        and the counters are RunSoFar over the whole trace, so reference n
        is logged as a hit exactly when TraceHit says its set held its tag
        at that point. */
    method ReadMemTrace(trace: seq<nat>)
      requires Valid()
      modifies this`totalHits, this`totalMiss, this`totalAccess, this`memRefs, sets
      ensures Valid()
      ensures old(Balanced()) ==> Balanced()
      ensures forall j :: 0 <= j < |old(sets)| ==> old(sets[j].setSize) >= 1
      ensures SetsHold(old(Indices(sets)),
                       HistoriesAfter(trace, |trace|, old(Indices(sets)), old(Histories(sets)),
                                      indexSize, offsetSize, indexMask),
                       old(SetSizes(sets)))
      ensures RunSoFar(memRefs, totalHits, totalMiss, totalAccess,
                       old(memRefs), old(totalHits), old(totalHits + totalMiss), old(totalAccess),
                       trace, |trace|, old(Indices(sets)), old(Histories(sets)), old(SetSizes(sets)),
                       indexSize, offsetSize, indexMask, offsetMask)
    {
      ghost var log0, hits0, total0, access0 := memRefs, totalHits, totalHits + totalMiss, totalAccess;
      ghost var ix, hs, sizes := Indices(sets), Histories(sets), SetSizes(sets);
      assert forall j :: 0 <= j < |sizes| ==> sizes[j] >= 1 by {
        forall j | 0 <= j < |sizes| ensures sizes[j] >= 1 {
          assert sets[j].Valid();
        }
      }
      ghost var cur := hs;
      var refNum := 0;
      while refNum < |trace|
        invariant 0 <= refNum <= |trace|
        invariant Valid() && SetsHold(ix, cur, sizes)
        invariant cur == HistoriesAfter(trace, refNum, ix, hs, indexSize, offsetSize, indexMask)
        invariant old(Balanced()) ==> Balanced()
        invariant RunSoFar(memRefs, totalHits, totalMiss, totalAccess, log0, hits0, total0, access0,
                           trace, refNum, ix, hs, sizes, indexSize, offsetSize, indexMask, offsetMask)
      {
        ghost var n, before, hits, miss, access := refNum, memRefs, totalHits, totalMiss, totalAccess;
        var hit := ReadMemRefOnValues(refNum, trace[refNum], ix, cur, sizes);
        cur := Bump(cur, FirstSet(ix, CalculateIndex(trace[n], indexMask, offsetSize)),
                    CalculateTag(trace[n], indexSize, offsetSize));
        refNum := refNum + 1;
        HistoriesAfterNext(trace, n, refNum, ix, hs, indexSize, offsetSize, indexMask);
        LogStep(log0, hits0, total0, access0, before, hits, miss, access, memRefs, totalHits, totalMiss, totalAccess,
                trace, n, refNum, ix, hs, sizes, indexSize, offsetSize, indexMask, offsetMask);
      }
    }
  }

  /** Once the table is configured, the index decoded from any address
      names a set that exists and carries that index, so
      determine_hit_or_miss always finds a set. */
  lemma DecodedIndexHasSet(t: CacheTable, address: nat)
    requires t.Configured()
    ensures var index := CalculateIndex(address, t.indexMask, t.offsetSize);
      index < |t.sets| && t.sets[index].index == index
  {
    DecodeFitsGeometry(address, t.lineSize, t.numberOfSets);
  }
}
