/** How the source list is flattened into the four source buffers
    (UpdateSources, UpdateSourcesDynamic): every occurrence of a cell in a
    source's index list adds the source's velocities and density to that
    cell and raises its temperature to at least the source's temperature.
    Deposit and DynamicDeposit follow the loops source by source and index
    by index; the lemmas give the closed forms. */
module Deposits {
  import opened Emitters
  import opened Steps

  /** The four buffers hold n cells each. */
  predicate Holds(b: Sources, n: nat)
  {
    |b.dens| == n && |b.xVel| == n && |b.yVel| == n && |b.temp| == n
  }

  /** The loop body of UpdateSources for one index k. */
  function DepositCell(b: Sources, s: Source, k: int): (b': Sources)
    requires 0 <= k < |b.dens| && Holds(b, |b.dens|)
    ensures Holds(b', |b.dens|)
  {
    Sources(b.dens[k := b.dens[k] + s.dens], b.xVel[k := b.xVel[k] + s.xVel],
            b.yVel[k := b.yVel[k] + s.yVel], b.temp[k := Max(b.temp[k], s.temp)])
  }

  /** The index list addresses cells of a grid of n cells. */
  predicate Within(idx: seq<int>, n: nat)
  {
    forall m :: 0 <= m < |idx| ==> 0 <= idx[m] < n
  }

  /** The buffers after source s has written the indices idx, in order. */
  function DepositIndices(b: Sources, s: Source, idx: seq<int>): (b': Sources)
    requires Holds(b, |b.dens|) && Within(idx, |b.dens|)
    ensures Holds(b', |b.dens|)
  {
    if |idx| == 0 then b
    else DepositCell(DepositIndices(b, s, idx[..|idx| - 1]), s, idx[|idx| - 1])
  }

  /** The buffers after every source of srcs has written all its indices, in
      list order (UpdateSources after ResetSources). */
  function Deposit(b: Sources, srcs: seq<Source>): (b': Sources)
    requires Holds(b, |b.dens|) && IndicesIn(srcs, |b.dens|)
    ensures Holds(b', |b.dens|)
  {
    if |srcs| == 0 then b
    else
      var last := srcs[|srcs| - 1];
      assert Within(last.indices, |b.dens|);
      DepositIndices(Deposit(b, srcs[..|srcs| - 1]), last, last.indices)
  }

  // ---- Closed forms ----

  /** Number of occurrences of k in idx. */
  function Occurrences(k: int, idx: seq<int>): nat
  {
    if |idx| == 0 then 0
    else Occurrences(k, idx[..|idx| - 1]) + (if idx[|idx| - 1] == k then 1 else 0)
  }

  /** The additive channels of a source. */
  datatype Channel = DensChannel | XVelChannel | YVelChannel

  function Amount(s: Source, c: Channel): real
  {
    match c
    case DensChannel => s.dens
    case XVelChannel => s.xVel
    case YVelChannel => s.yVel
  }

  function Buffer(b: Sources, c: Channel): seq<real>
  {
    match c
    case DensChannel => b.dens
    case XVelChannel => b.xVel
    case YVelChannel => b.yVel
  }

  /** What the sources add to cell k on channel c: each source's amount, once
      per occurrence of k in its index list. */
  function Total(k: int, srcs: seq<Source>, c: Channel): real
  {
    if |srcs| == 0 then 0.0
    else Total(k, srcs[..|srcs| - 1], c) + Times(Occurrences(k, srcs[|srcs| - 1].indices) as real, Amount(srcs[|srcs| - 1], c))
  }

  /** Some source of srcs covers cell k. */
  predicate Covered(k: int, srcs: seq<Source>)
  {
    exists i :: 0 <= i < |srcs| && k in srcs[i].indices
  }

  lemma OccurrencesOnce(k: int, idx: seq<int>)
    ensures Occurrences(k, idx) == 0 <==> k !in idx
  {
    if |idx| > 0 {
      OccurrencesOnce(k, idx[..|idx| - 1]);
      assert idx == idx[..|idx| - 1] + [idx[|idx| - 1]];
    }
  }

  lemma TimesSucc(n: nat, a: real)
    ensures Times((n + 1) as real, a) == Times(n as real, a) + a
  {
  }

  /** One source adds its amount to cell k once per occurrence of k. */
  lemma {:induction false} DepositIndicesAdds(b: Sources, s: Source, idx: seq<int>, k: int, c: Channel)
    requires Holds(b, |b.dens|) && Within(idx, |b.dens|) && 0 <= k < |b.dens|
    ensures Buffer(DepositIndices(b, s, idx), c)[k] == Buffer(b, c)[k] + Times(Occurrences(k, idx) as real, Amount(s, c))
  {
    if |idx| > 0 {
      var front := idx[..|idx| - 1];
      DepositIndicesAdds(b, s, front, k, c);
      var n := Occurrences(k, front);
      if idx[|idx| - 1] == k {
        assert Occurrences(k, idx) == n + 1;
        TimesSucc(n, Amount(s, c));
      } else {
        assert Occurrences(k, idx) == n;
      }
    }
  }

  /** Cell k of an additive channel ends at its start value plus the total
      of all occurrences of k over all sources. */
  lemma {:induction false} DepositAdds(b: Sources, srcs: seq<Source>, k: int, c: Channel)
    requires Holds(b, |b.dens|) && IndicesIn(srcs, |b.dens|) && 0 <= k < |b.dens|
    ensures Buffer(Deposit(b, srcs), c)[k] == Buffer(b, c)[k] + Total(k, srcs, c)
  {
    if |srcs| > 0 {
      var front, last := srcs[..|srcs| - 1], srcs[|srcs| - 1];
      assert IndicesIn(front, |b.dens|);
      assert Within(last.indices, |b.dens|);
      DepositAdds(b, front, k, c);
      DepositIndicesAdds(Deposit(b, front), last, last.indices, k, c);
    }
  }

  /** One source leaves cell k at the larger of its old temperature and
      the source's, or unchanged when it does not cover k. */
  lemma {:induction false} DepositIndicesHeats(b: Sources, s: Source, idx: seq<int>, k: int)
    requires Holds(b, |b.dens|) && Within(idx, |b.dens|) && 0 <= k < |b.dens|
    ensures DepositIndices(b, s, idx).temp[k] == if k in idx then Max(b.temp[k], s.temp) else b.temp[k]
  {
    if |idx| > 0 {
      var front := idx[..|idx| - 1];
      DepositIndicesHeats(b, s, front, k);
      assert idx == front + [idx[|idx| - 1]];
    }
  }

  /** The temperature of cell k ends as the maximum of its start value and
      the temperatures of the sources covering k: at least each of them, and
      equal to one of them. */
  lemma {:induction false} DepositHeats(b: Sources, srcs: seq<Source>, k: int)
    requires Holds(b, |b.dens|) && IndicesIn(srcs, |b.dens|) && 0 <= k < |b.dens|
    ensures Deposit(b, srcs).temp[k] >= b.temp[k]
    ensures forall i :: 0 <= i < |srcs| && k in srcs[i].indices ==> Deposit(b, srcs).temp[k] >= srcs[i].temp
    ensures Deposit(b, srcs).temp[k] == b.temp[k] ||
      exists i :: 0 <= i < |srcs| && k in srcs[i].indices && Deposit(b, srcs).temp[k] == srcs[i].temp
  {
    if |srcs| > 0 {
      var front, last := srcs[..|srcs| - 1], srcs[|srcs| - 1];
      assert IndicesIn(front, |b.dens|);
      assert Within(last.indices, |b.dens|);
      DepositHeats(b, front, k);
      DepositIndicesHeats(Deposit(b, front), last, last.indices, k);
      var t := Deposit(b, srcs).temp[k];
      if t != b.temp[k] {
        if k in last.indices && t == last.temp {
          assert k in srcs[|srcs| - 1].indices;
        } else {
          var i :| 0 <= i < |front| && k in front[i].indices && Deposit(b, front).temp[k] == front[i].temp;
          assert srcs[i] == front[i];
        }
      }
    }
  }

  lemma {:induction false} TotalUncovered(k: int, srcs: seq<Source>, c: Channel)
    requires !Covered(k, srcs)
    ensures Total(k, srcs, c) == 0.0
  {
    if |srcs| > 0 {
      var front := srcs[..|srcs| - 1];
      forall i | 0 <= i < |front|
        ensures k !in front[i].indices
      {
        assert front[i] == srcs[i];
      }
      TotalUncovered(k, front, c);
      assert k !in srcs[|srcs| - 1].indices;
      OccurrencesOnce(k, srcs[|srcs| - 1].indices);
    }
  }

  /** After UpdateSources a cell no source covers keeps its reset values:
      zero velocity and density and the start temperature. */
  lemma DepositUncovered(b: Sources, srcs: seq<Source>, k: int)
    requires Holds(b, |b.dens|) && IndicesIn(srcs, |b.dens|) && 0 <= k < |b.dens|
    requires !Covered(k, srcs)
    ensures Deposit(b, srcs).dens[k] == b.dens[k] && Deposit(b, srcs).xVel[k] == b.xVel[k]
    ensures Deposit(b, srcs).yVel[k] == b.yVel[k] && Deposit(b, srcs).temp[k] == b.temp[k]
  {
    DepositAdds(b, srcs, k, DensChannel);
    DepositAdds(b, srcs, k, XVelChannel);
    DepositAdds(b, srcs, k, YVelChannel);
    TotalUncovered(k, srcs, DensChannel);
    TotalUncovered(k, srcs, XVelChannel);
    TotalUncovered(k, srcs, YVelChannel);
    DepositHeats(b, srcs, k);
  }

  // ---- The dynamic update ----

  /** The random engine, as an oracle: sample(i, m, d) is draw d of the
      update at index position m of the source at list position i. */
  type Sampler = (nat, nat, nat) -> real

  /** Velocity components of a wind of speed spd blowing at ang degrees. */
  function WindX(spd: real, ang: real, cos: real -> real): real
  {
    Times(spd, cos(Radians(ang, DynamicPi)))
  }

  function WindY(spd: real, ang: real, sin: real -> real): real
  {
    Times(spd, sin(Radians(ang, DynamicPi)))
  }

  /** The switch of UpdateSourcesDynamic for one index k (position m) of the
      dynamic source s at list position i. */
  function DynamicCell(b: Sources, s: Source, i: nat, m: nat, k: int, sample: Sampler,
                       cos: real -> real, sin: real -> real): (b': Sources)
    requires 0 <= k < |b.dens| && Holds(b, |b.dens|)
    ensures Holds(b', |b.dens|)
  {
    match s.kind
    case Gas =>
      b.(dens := b.dens[k := b.dens[k] + RandomNormal(s.dens, s.dVar, sample(i, m, 0))],
         temp := b.temp[k := Max(b.temp[k], RandomNormal(s.temp, s.tVar, sample(i, m, 1)))])
    case Wind =>
      var ang := RandomNormal(s.aMean, s.aVar, sample(i, m, 0));
      var spd := RandomNormal(s.wMean, s.wVar, sample(i, m, 1));
      b.(xVel := b.xVel[k := b.xVel[k] + WindX(spd, ang, cos)],
         yVel := b.yVel[k := b.yVel[k] + WindY(spd, ang, sin)])
    case Heat => b.(temp := b.temp[k := Max(b.temp[k], RandomNormal(s.temp, s.tVar, sample(i, m, 0)))])
    case Energy => b.(temp := b.temp[k := Max(b.temp[k], RandomNormal(s.temp, s.tVar, sample(i, m, 0)))])
    case WindBoundary => b.(xVel := b.xVel[k := b.xVel[k] + RandomNormal(s.wMean, s.wVar, sample(i, m, 0))])
  }

  /** The buffers after the dynamic source at list position i has written
      the indices idx. */
  function DynamicIndices(b: Sources, s: Source, i: nat, idx: seq<int>, sample: Sampler,
                          cos: real -> real, sin: real -> real): (b': Sources)
    requires Holds(b, |b.dens|) && Within(idx, |b.dens|)
    ensures Holds(b', |b.dens|)
  {
    if |idx| == 0 then b
    else DynamicCell(DynamicIndices(b, s, i, idx[..|idx| - 1], sample, cos, sin), s, i, |idx| - 1, idx[|idx| - 1], sample, cos, sin)
  }

  /** UpdateSourcesDynamic after ResetSources: a dynamic source draws its
      contributions, any other source writes as in UpdateSources. */
  function DynamicDeposit(b: Sources, srcs: seq<Source>, sample: Sampler,
                          cos: real -> real, sin: real -> real): (b': Sources)
    requires Holds(b, |b.dens|) && IndicesIn(srcs, |b.dens|)
    ensures Holds(b', |b.dens|)
  {
    if |srcs| == 0 then b
    else
      var i := |srcs| - 1;
      var last := srcs[i];
      assert Within(last.indices, |b.dens|);
      var before := DynamicDeposit(b, srcs[..i], sample, cos, sin);
      if last.isDynamic then DynamicIndices(before, last, i, last.indices, sample, cos, sin)
      else DepositIndices(before, last, last.indices)
  }

  /** Without dynamic sources the dynamic update is UpdateSources, whatever
      the random engine delivers. */
  lemma {:induction false} DynamicWithoutDynamicSources(b: Sources, srcs: seq<Source>, sample: Sampler,
                                                        cos: real -> real, sin: real -> real)
    requires Holds(b, |b.dens|) && IndicesIn(srcs, |b.dens|)
    requires forall i :: 0 <= i < |srcs| ==> !srcs[i].isDynamic
    ensures DynamicDeposit(b, srcs, sample, cos, sin) == Deposit(b, srcs)
  {
    if |srcs| > 0 {
      var front := srcs[..|srcs| - 1];
      assert IndicesIn(front, |b.dens|);
      DynamicWithoutDynamicSources(b, front, sample, cos, sin);
    }
  }

  /** A dynamic gas, heat or energy source without deviation writes each
      of its cells as the static update does (its velocities, and for heat
      and energy its density, being zero as every constructor sets them). */
  lemma DynamicCellWithoutDeviation(b: Sources, s: Source, i: nat, m: nat, k: int, sample: Sampler,
                                    cos: real -> real, sin: real -> real)
    requires 0 <= k < |b.dens| && Holds(b, |b.dens|)
    requires s.kind == Gas || s.kind == Heat || s.kind == Energy
    requires s.dVar == 0.0 && s.tVar == 0.0 && s.xVel == 0.0 && s.yVel == 0.0
    requires s.kind != Gas ==> s.dens == 0.0
    ensures DynamicCell(b, s, i, m, k, sample, cos, sin) == DepositCell(b, s, k)
  {
    var d := DepositCell(b, s, k);
    assert d.xVel == b.xVel;
    assert d.yVel == b.yVel;
    if s.kind != Gas {
      assert d.dens == b.dens;
    }
  }

  lemma {:induction false} DynamicIndicesWithoutDeviation(b: Sources, s: Source, i: nat, idx: seq<int>, sample: Sampler,
                                                          cos: real -> real, sin: real -> real)
    requires Holds(b, |b.dens|) && Within(idx, |b.dens|)
    requires s.kind == Gas || s.kind == Heat || s.kind == Energy
    requires s.dVar == 0.0 && s.tVar == 0.0 && s.xVel == 0.0 && s.yVel == 0.0
    requires s.kind != Gas ==> s.dens == 0.0
    ensures DynamicIndices(b, s, i, idx, sample, cos, sin) == DepositIndices(b, s, idx)
  {
    if |idx| > 0 {
      var front := idx[..|idx| - 1];
      DynamicIndicesWithoutDeviation(b, s, i, front, sample, cos, sin);
      DynamicCellWithoutDeviation(DepositIndices(b, s, front), s, i, |idx| - 1, idx[|idx| - 1], sample, cos, sin);
    }
  }
}
