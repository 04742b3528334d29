/** The row cache shared by both grids (`this.rows`): a sparse array keyed by
    row index. Rendering walks the indices of the window in order; an index
    whose row is cached is reused as it is, any other gets a row created on
    the spot (`__processRow`), which is stored in the cache. Creating a row
    can throw, which stops the walk with the rows created so far kept. */
module RowCache {
  import opened Optional

  /** The cache after a walk, and whether the walk finished without a throw. */
  datatype Filled<R> = Filled(cache: map<int, R>, ok: bool)

  /** The walk over `idxs`: `rows[index] || __processRow(index)` for each
      index in turn; `make(i)` is the row `__processRow(i)` creates, `None`
      when it throws. */
  function Fill<R>(cache: map<int, R>, idxs: seq<int>, make: int -> Option<R>): (r: Filled<R>)
    ensures cache.Keys <= r.cache.Keys <= cache.Keys + set i | i in idxs
    decreases |idxs|
  {
    if idxs == [] then Filled(cache, true)
    else if idxs[0] in cache then Fill(cache, idxs[1..], make)
    else match make(idxs[0])
      case None => Filled(cache, false)
      case Some(row) => Fill(cache[idxs[0] := row], idxs[1..], make)
  }

  /** One step of the walk, as the loop that performs it takes it: a cached
      index is passed over, a made row is stored, and a row that cannot be
      made ends the walk. */
  lemma FillStep<R>(cache: map<int, R>, idxs: seq<int>, make: int -> Option<R>)
    requires idxs != []
    ensures idxs[0] in cache ==> Fill(cache, idxs, make) == Fill(cache, idxs[1..], make)
    ensures idxs[0] !in cache && make(idxs[0]).None? ==> Fill(cache, idxs, make) == Filled(cache, false)
    ensures idxs[0] !in cache && make(idxs[0]).Some? ==>
      Fill(cache, idxs, make) == Fill(cache[idxs[0] := make(idxs[0]).value], idxs[1..], make)
  {
  }

  /** A cached row is reused verbatim: the walk never replaces or drops an
      entry that was already there. */
  lemma {:induction false} FillReuses<R>(cache: map<int, R>, idxs: seq<int>, make: int -> Option<R>, k: int)
    requires k in cache
    ensures k in Fill(cache, idxs, make).cache && Fill(cache, idxs, make).cache[k] == cache[k]
    decreases |idxs|
  {
    if idxs != [] {
      if idxs[0] in cache {
        FillReuses(cache, idxs[1..], make, k);
      } else if make(idxs[0]).Some? {
        FillReuses(cache[idxs[0] := make(idxs[0]).value], idxs[1..], make, k);
      }
    }
  }

  /** Every entry the walk adds is a row created for an index of the window,
      and it is exactly the row `make` creates for that index: no other cache
      entry changes. */
  lemma {:induction false} FillCreates<R>(cache: map<int, R>, idxs: seq<int>, make: int -> Option<R>, k: int)
    requires k in Fill(cache, idxs, make).cache && k !in cache
    ensures k in idxs && make(k) == Some(Fill(cache, idxs, make).cache[k])
    decreases |idxs|
  {
    var i := idxs[0];
    if i in cache {
      FillCreates(cache, idxs[1..], make, k);
    } else if make(i).Some? {
      var c := cache[i := make(i).value];
      if k == i {
        FillReuses(c, idxs[1..], make, k);
      } else {
        FillCreates(c, idxs[1..], make, k);
      }
    }
  }

  /** The walk finishes exactly when every index of the window is cached or
      can be created, and then every index of the window is in the cache. */
  lemma {:induction false} FillCompletes<R>(cache: map<int, R>, idxs: seq<int>, make: int -> Option<R>)
    ensures Fill(cache, idxs, make).ok <==>
      forall j :: 0 <= j < |idxs| ==> idxs[j] in cache || make(idxs[j]).Some?
    ensures Fill(cache, idxs, make).ok ==>
      forall j :: 0 <= j < |idxs| ==> idxs[j] in Fill(cache, idxs, make).cache
    decreases |idxs|
  {
    if idxs != [] {
      var i := idxs[0];
      var c := if i in cache then cache else if make(i).Some? then cache[i := make(i).value] else cache;
      if i in cache || make(i).Some? {
        FillCompletes(c, idxs[1..], make);
        assert forall j :: 1 <= j < |idxs| ==> idxs[j] == idxs[1..][j - 1];
        if Fill(cache, idxs, make).ok {
          FillReuses(c, idxs[1..], make, i);
        }
      }
    }
  }
}
