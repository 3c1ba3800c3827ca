/**
 * The per-symbol index of recent deals: a two-level sorted map from open time
 * to volume-to-balance ratio to the deal that first took that slot, with the
 * three operations the processor applies to it (prefix eviction, the nested
 * ascending scan for a similar deal, and insert-if-absent).
 *
 * The sorted dictionaries are modelled as Dafny maps; enumerating one in
 * ascending key order is modelled by repeatedly taking the least key not yet
 * visited. The enumeration loops test `exists k :: k in pending` rather than
 * `pending != {}`, because the former is what lets each iteration pick a
 * witness key.
 */
module WindowIndex {
  import opened Wrappers
  import opened Deals

  type RatioIndex<S> = map<real, Deal<S>>
  type OpenTimeIndex<S> = map<int, RatioIndex<S>>

  /** The similarity window of an incoming deal: open times inclusive on both
      ends, ratios exclusive on both ends. */
  datatype Window = Window(openTimeMin: int, openTimeMax: int, ratioMin: real, ratioMax: real)

  predicate InWindow(w: Window, openTime: int, ratio: real)
  {
    w.openTimeMin <= openTime <= w.openTimeMax && w.ratioMin < ratio < w.ratioMax
  }

  /** The slot (openTime, ratio) holds a deal. */
  predicate Occupied<S>(index: OpenTimeIndex<S>, openTime: int, ratio: real)
  {
    openTime in index && ratio in index[openTime]
  }

  ghost predicate Similar<S>(index: OpenTimeIndex<S>, w: Window, openTime: int, ratio: real)
  {
    Occupied(index, openTime, ratio) && InWindow(w, openTime, ratio)
  }

  ghost predicate HasSimilar<S>(index: OpenTimeIndex<S>, w: Window)
  {
    exists openTime, ratio :: Similar(index, w, openTime, ratio)
  }

  /** Ascending order of slots: by open time, then by ratio. */
  ghost predicate SlotNotAfter(t: int, r: real, t': int, r': real)
  {
    t < t' || (t == t' && r <= r')
  }

  /** (openTime, ratio) is the first similar slot in ascending order. */
  ghost predicate IsFirstSimilar<S>(index: OpenTimeIndex<S>, w: Window, openTime: int, ratio: real)
  {
    && Similar(index, w, openTime, ratio)
    && forall t, r :: Similar(index, w, t, r) ==> SlotNotAfter(openTime, ratio, t, r)
  }

  /** Every deal sits in the slot named by its own open time and ratio, belongs
      to `symbol`, and no open-time entry is empty. */
  ghost predicate WellFormedIndex<S>(index: OpenTimeIndex<S>, symbol: string)
  {
    && (forall t :: t in index ==> index[t] != map[])
    && forall t, r :: Occupied(index, t, r) ==>
         && index[t][r].symbol == symbol
         && index[t][r].openTime == t
         && index[t][r].volumeToBalanceRate == r
  }

  /** The index with every open-time key at or before `threshold` removed. */
  ghost function Evicted<S>(index: OpenTimeIndex<S>, threshold: int): OpenTimeIndex<S>
  {
    map t | t in index && t > threshold :: index[t]
  }

  lemma EvictionKeepsWellFormed<S>(index: OpenTimeIndex<S>, threshold: int, symbol: string)
    requires WellFormedIndex(index, symbol)
    ensures WellFormedIndex(Evicted(index, threshold), symbol)
  {
  }

  /** A finite set of open times that holds `y` has a least element. */
  lemma {:induction false} LeastOpenTime(keys: set<int>, y: int) returns (least: int)
    requires y in keys
    ensures least in keys && forall x :: x in keys ==> least <= x
    decreases keys
  {
    var rest := keys - {y};
    least := y;
    if exists other :: other in rest {
      var other :| other in rest;
      var m := LeastOpenTime(rest, other);
      if m < y {
        least := m;
      }
    }
    forall x | x in keys
      ensures least <= x
    {
      if x != y {
        assert x in rest;
      }
    }
  }

  /** A finite set of ratios that holds `y` has a least element. This is
      `LeastOpenTime` again at type `real`: Dafny has no type parameter
      constrained to an ordered type, so the proof is stated once per key
      type. */
  lemma {:induction false} LeastRatio(keys: set<real>, y: real) returns (least: real)
    requires y in keys
    ensures least in keys && forall x :: x in keys ==> least <= x
    decreases keys
  {
    var rest := keys - {y};
    least := y;
    if exists other :: other in rest {
      var other :| other in rest;
      var m := LeastRatio(rest, other);
      if m < y {
        least := m;
      }
    }
    forall x | x in keys
      ensures least <= x
    {
      if x != y {
        assert x in rest;
      }
    }
  }


  /** Removes the stale prefix: walks the open-time keys in ascending order,
      collecting them until the first key after `firstRelevantOpenTime`, and
      then removes the collected keys. */
  method CleanFromExpiredData<S>(firstRelevantOpenTime: int, index: OpenTimeIndex<S>)
    returns (cleaned: OpenTimeIndex<S>)
    ensures forall t :: t in cleaned <==> t in index && t > firstRelevantOpenTime
    ensures forall t :: t in cleaned ==> cleaned[t] == index[t]
    ensures cleaned == Evicted(index, firstRelevantOpenTime)
  {
    var entriesToDelete: seq<int> := [];
    var pending := index.Keys;
    while exists k :: k in pending
      invariant pending <= index.Keys
      invariant forall t :: t in entriesToDelete <==> t in index && t !in pending
      invariant forall t :: t in entriesToDelete ==> t <= firstRelevantOpenTime
      decreases pending
    {
      ghost var some :| some in pending;
      ghost var least := LeastOpenTime(pending, some);
      var t :| t in pending && forall x :: x in pending ==> t <= x;
      if t > firstRelevantOpenTime {
        break;
      }
      entriesToDelete := entriesToDelete + [t];
      pending := pending - {t};
    }
    assert forall t :: t in pending ==> t > firstRelevantOpenTime;

    cleaned := index;
    for i := 0 to |entriesToDelete|
      invariant forall t :: t in cleaned <==> t in index && t !in entriesToDelete[..i]
      invariant forall t :: t in cleaned ==> cleaned[t] == index[t]
    {
      assert entriesToDelete[..i + 1] == entriesToDelete[..i] + [entriesToDelete[i]];
      cleaned := cleaned - {entriesToDelete[i]};
    }
    assert entriesToDelete[..|entriesToDelete|] == entriesToDelete;
    forall t
      ensures t in cleaned <==> t in Evicted(index, firstRelevantOpenTime)
    {
      if t in index && t > firstRelevantOpenTime {
        assert t !in entriesToDelete;
      }
    }
  }

  /** The inner scan over one open time's ratios, in ascending order: skips
      ratios at or below `ratioMin`, stops at the first ratio at or above
      `ratioMax`, and otherwise takes the first deal it meets. */
  method ScanRatios<S>(ratios: RatioIndex<S>, ratioMin: real, ratioMax: real)
    returns (found: Option<Deal<S>>, ghost ratio: real)
    ensures found.None? <==> forall r :: r in ratios ==> !(ratioMin < r < ratioMax)
    ensures found.Some? ==>
      && ratio in ratios && ratioMin < ratio < ratioMax && found.value == ratios[ratio]
      && forall r :: r in ratios && ratioMin < r < ratioMax ==> ratio <= r
  {
    found, ratio := None, 0.0;
    var pending := ratios.Keys;
    while exists k :: k in pending
      invariant pending <= ratios.Keys
      invariant forall r :: r in ratios && ratioMin < r < ratioMax ==> r in pending
      decreases pending
    {
      ghost var some :| some in pending;
      ghost var least := LeastRatio(pending, some);
      var r :| r in pending && forall x :: x in pending ==> r <= x;
      if r <= ratioMin {
        pending := pending - {r};
        continue;
      }
      if r >= ratioMax {
        break;
      }
      found, ratio := Some(ratios[r]), r;
      break;
    }
  }

  /** The nested scan for the first cached deal similar to the incoming one:
      open-time keys in ascending order, skipping those before the window and
      stopping at the first one after it; within an in-window open time, the
      ratio scan; the first deal found ends the search. */
  method FindFirstSimilar<S>(index: OpenTimeIndex<S>, w: Window)
    returns (found: Option<Deal<S>>, ghost openTime: int, ghost ratio: real)
    ensures found.None? <==> !HasSimilar(index, w)
    ensures found.Some? ==>
      IsFirstSimilar(index, w, openTime, ratio) && found.value == index[openTime][ratio]
  {
    found, openTime, ratio := None, 0, 0.0;
    var pending := index.Keys;
    while exists k :: k in pending
      invariant pending <= index.Keys
      invariant found.None?
      invariant forall t, r :: Similar(index, w, t, r) ==> t in pending
      decreases pending
    {
      ghost var some :| some in pending;
      ghost var least := LeastOpenTime(pending, some);
      var t :| t in pending && forall x :: x in pending ==> t <= x;
      if t < w.openTimeMin {
        pending := pending - {t};
        continue;
      }
      if t > w.openTimeMax {
        break;
      }
      ghost var r;
      found, r := ScanRatios(index[t], w.ratioMin, w.ratioMax);
      if found.Some? {
        openTime, ratio := t, r;
        assert Similar(index, w, openTime, ratio);
        break;
      }
      pending := pending - {t};
    }
  }

  /** Inserts `deal` at (openTime, ratio) unless that slot is already taken. */
  function TryToAddDealToIndexedData<S>(index: OpenTimeIndex<S>, deal: Deal<S>): OpenTimeIndex<S>
  {
    if deal.openTime !in index then
      index[deal.openTime := map[deal.volumeToBalanceRate := deal]]
    else if deal.volumeToBalanceRate !in index[deal.openTime] then
      index[deal.openTime := index[deal.openTime][deal.volumeToBalanceRate := deal]]
    else
      index
  }

  /** Insertion never replaces: a taken slot leaves the index as it was, a
      free one receives the deal; exactly one slot is added, every other slot
      keeps its deal, and the open times gain at most the deal's own. */
  lemma InsertionKeepsFirstDeal<S>(index: OpenTimeIndex<S>, deal: Deal<S>)
    ensures var r := TryToAddDealToIndexedData(index, deal);
      && (Occupied(index, deal.openTime, deal.volumeToBalanceRate) ==> r == index)
      && (!Occupied(index, deal.openTime, deal.volumeToBalanceRate) ==>
            Occupied(r, deal.openTime, deal.volumeToBalanceRate)
            && r[deal.openTime][deal.volumeToBalanceRate] == deal)
      && r.Keys == index.Keys + {deal.openTime}
      && (forall t, q :: Occupied(r, t, q) <==>
            Occupied(index, t, q) || (t == deal.openTime && q == deal.volumeToBalanceRate))
      && forall t, q :: Occupied(index, t, q) ==> Occupied(r, t, q) && r[t][q] == index[t][q]
  {
  }

  /** The index of a symbol seen for the first time: that deal alone. */
  function CreateIndexedData<S>(deal: Deal<S>): (r: OpenTimeIndex<S>)
    ensures r.Keys == {deal.openTime}
    ensures forall t, q :: Occupied(r, t, q) <==> t == deal.openTime && q == deal.volumeToBalanceRate
    ensures Occupied(r, deal.openTime, deal.volumeToBalanceRate)
    ensures r[deal.openTime][deal.volumeToBalanceRate] == deal
  {
    map[deal.openTime := map[deal.volumeToBalanceRate := deal]]
  }

  lemma InsertionKeepsWellFormed<S>(index: OpenTimeIndex<S>, deal: Deal<S>)
    requires WellFormedIndex(index, deal.symbol)
    ensures WellFormedIndex(TryToAddDealToIndexedData(index, deal), deal.symbol)
  {
    var r := TryToAddDealToIndexedData(index, deal);
    InsertionKeepsFirstDeal(index, deal);
    forall t | t in r
      ensures r[t] != map[]
    {
      if t == deal.openTime {
        assert Occupied(r, t, deal.volumeToBalanceRate);
      } else {
        assert r[t] == index[t];
      }
    }
  }

  lemma CreationIsWellFormed<S>(deal: Deal<S>)
    ensures WellFormedIndex(CreateIndexedData(deal), deal.symbol)
  {
    assert Occupied(CreateIndexedData(deal), deal.openTime, deal.volumeToBalanceRate);
  }
}
