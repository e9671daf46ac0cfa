/**
 * The persistent trail structure: a trail is a store that is either empty,
 * a mountain in series with the rest of the trail, or a split into a top and
 * a bottom branch that rejoin at a following trail.  Every operation builds
 * a new value and never changes the one it is given.  Mountains are an
 * opaque type parameter.
 */
module Trails {

  datatype Trail<M> = Trail(store: Store<M>)

  datatype Store<M> =
    | Series(series: TrailSeries<M>)
    | Split(split: TrailSplit<M>)
    | NoStore

  /** A mountain followed by the rest of the trail. */
  datatype TrailSeries<M> = TrailSeries(mountain: M, following: Trail<M>)
  {
    /** The trail that is left once the first mountain is removed. */
    function RemoveMountain(): Store<M>
    {
      following.store
    }

    /** A new mountain in series before this one. */
    function AddMountainBefore(m: M): Store<M>
    {
      Series(TrailSeries(m, Trail(Series(this))))
    }

    /** An empty split whose following trail is this series. */
    function AddEmptyBranchBefore(): Store<M>
    {
      Split(TrailSplit(Trail(NoStore), Trail(NoStore), Trail(Series(this))))
    }

    /** A new mountain after this one and before the following trail. */
    function AddMountainAfter(m: M): Store<M>
    {
      Series(TrailSeries(mountain, Trail(Series(TrailSeries(m, following)))))
    }

    /** An empty split after this mountain and before the following trail. */
    function AddEmptyBranchAfter(): Store<M>
    {
      Series(TrailSeries(mountain, Trail(Split(TrailSplit(Trail(NoStore), Trail(NoStore), following)))))
    }
  }

  /** Two branches that join again at the following trail. */
  datatype TrailSplit<M> = TrailSplit(top: Trail<M>, bottom: Trail<M>, following: Trail<M>)
  {
    /** Drops both branches, leaving only the following trail. */
    function RemoveBranch(): Store<M>
    {
      following.store
    }
  }

  /** A mountain in series before everything in the trail. */
  function AddMountainBefore<M>(t: Trail<M>, m: M): Trail<M>
  {
    Trail(Series(TrailSeries(m, t)))
  }

  /** An empty split before everything in the trail. */
  function AddEmptyBranchBefore<M>(t: Trail<M>): Trail<M>
  {
    Trail(Split(TrailSplit(Trail(NoStore), Trail(NoStore), t)))
  }

  /** A trail made of series and the empty store only. */
  predicate SplitFree<M>(t: Trail<M>)
  {
    match t.store
    case NoStore => true
    case Series(s) => SplitFree(s.following)
    case Split(_) => false
  }

  /** The mountains of a split-free trail, first to last. */
  function CollectAllMountains<M>(t: Trail<M>): seq<M>
    requires SplitFree(t)
  {
    match t.store
    case NoStore => []
    case Series(s) => [s.mountain] + CollectAllMountains(s.following)
  }

  /** The number of series nodes along the chain of following trails. */
  function SeriesLength<M>(t: Trail<M>): nat
  {
    match t.store
    case Series(s) => 1 + SeriesLength(s.following)
    case _ => 0
  }

  /** The trail reached by following `i` series nodes from `t`. */
  function Advance<M>(t: Trail<M>, i: nat): Trail<M>
    requires i <= SeriesLength(t)
  {
    if i == 0 then t else Advance(t.store.series.following, i - 1)
  }

  // ---------------------------------------------------------------------
  // Properties

  /** The list of a split-free trail holds, at position i, the mountain of
      the i-th series node reached by following the trail. */
  lemma {:induction false} CollectListsSeriesInOrder<M>(t: Trail<M>)
    requires SplitFree(t)
    ensures |CollectAllMountains(t)| == SeriesLength(t)
    ensures forall i :: 0 <= i < SeriesLength(t) ==>
              Advance(t, i).store.Series? &&
              CollectAllMountains(t)[i] == Advance(t, i).store.series.mountain
  {
    match t.store
    case NoStore =>
    case Series(s) =>
      CollectListsSeriesInOrder(s.following);
      forall i | 0 <= i < SeriesLength(t)
        ensures Advance(t, i).store.Series? &&
                CollectAllMountains(t)[i] == Advance(t, i).store.series.mountain
      {
        if i > 0 {
          assert Advance(t, i) == Advance(s.following, i - 1);
        }
      }
  }

  /** A trail that ends is split-free and lists no mountains. */
  lemma CollectEmpty<M>(t: Trail<M>)
    requires t.store == NoStore
    ensures SplitFree(t) && CollectAllMountains(t) == []
  {
  }

  /** Adding a mountain before a trail puts it at the head of the list. */
  lemma CollectAddMountainBefore<M>(t: Trail<M>, m: M)
    requires SplitFree(t)
    ensures SplitFree(AddMountainBefore(t, m))
    ensures CollectAllMountains(AddMountainBefore(t, m)) == [m] + CollectAllMountains(t)
  {
  }

  /** The same on a series: the new mountain comes first, then the old list. */
  lemma CollectSeriesAddMountainBefore<M>(s: TrailSeries<M>, m: M)
    requires SplitFree(s.following)
    ensures SplitFree(Trail(s.AddMountainBefore(m)))
    ensures CollectAllMountains(Trail(s.AddMountainBefore(m)))
            == [m, s.mountain] + CollectAllMountains(s.following)
  {
  }

  /** Adding after keeps the first mountain, then the new one, then the rest. */
  lemma CollectSeriesAddMountainAfter<M>(s: TrailSeries<M>, m: M)
    requires SplitFree(s.following)
    ensures SplitFree(Trail(s.AddMountainAfter(m)))
    ensures CollectAllMountains(Trail(s.AddMountainAfter(m)))
            == [s.mountain, m] + CollectAllMountains(s.following)
  {
  }

  /** Removing the mountain added before a series gives the series back. */
  lemma RemoveUndoesAddBefore<M>(s: TrailSeries<M>, m: M)
    ensures s.AddMountainBefore(m).Series?
    ensures s.AddMountainBefore(m).series.RemoveMountain() == Series(s)
  {
  }

  /** Removing the mountain added after the first one gives back the old
      following trail; the first mountain is untouched. */
  lemma RemoveUndoesAddAfter<M>(s: TrailSeries<M>, m: M)
    ensures s.AddMountainAfter(m).Series?
    ensures s.AddMountainAfter(m).series.mountain == s.mountain
    ensures s.AddMountainAfter(m).series.RemoveMountain().Series?
    ensures s.AddMountainAfter(m).series.RemoveMountain().series.mountain == m
    ensures s.AddMountainAfter(m).series.RemoveMountain().series.RemoveMountain() == s.following.store
  {
  }

  /** An empty branch added before a series or a trail is a split with two
      empty branches; removing it gives the original back. */
  lemma RemoveUndoesEmptyBranchBefore<M>(s: TrailSeries<M>, t: Trail<M>)
    ensures s.AddEmptyBranchBefore().Split?
    ensures s.AddEmptyBranchBefore().split.top.store == NoStore
    ensures s.AddEmptyBranchBefore().split.bottom.store == NoStore
    ensures s.AddEmptyBranchBefore().split.RemoveBranch() == Series(s)
    ensures AddEmptyBranchBefore(t).store.Split?
    ensures AddEmptyBranchBefore(t).store.split.top.store == NoStore
    ensures AddEmptyBranchBefore(t).store.split.bottom.store == NoStore
    ensures AddEmptyBranchBefore(t).store.split.RemoveBranch() == t.store
  {
  }

  /** An empty branch added after the first mountain keeps that mountain and
      is followed by a split with two empty branches that rejoins the old
      following trail. */
  lemma RemoveUndoesEmptyBranchAfter<M>(s: TrailSeries<M>)
    ensures s.AddEmptyBranchAfter().Series?
    ensures s.AddEmptyBranchAfter().series.mountain == s.mountain
    ensures s.AddEmptyBranchAfter().series.RemoveMountain().Split?
    ensures s.AddEmptyBranchAfter().series.RemoveMountain().split.top.store == NoStore
    ensures s.AddEmptyBranchAfter().series.RemoveMountain().split.bottom.store == NoStore
    ensures s.AddEmptyBranchAfter().series.RemoveMountain().split.RemoveBranch() == s.following.store
  {
  }
}
