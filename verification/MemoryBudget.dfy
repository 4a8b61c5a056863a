/** dt_configure_runtime_performance of src/darktable.c: how the memory of the machine is shared out. The method
    follows the C code with its 64-bit conversions; Plan says in plain integers what comes out. */
module MemoryBudget {

  const TWO_TO_63: int := 0x8000_0000_0000_0000
  const TWO_TO_64: int := 0x1_0000_0000_0000_0000
  const SIZE_MAX: int := TWO_TO_64 - 1

  type SizeT = x: int | 0 <= x < TWO_TO_64
  type Int64 = x: int | -TWO_TO_63 <= x < TWO_TO_63

  const MIB: int := 0x10_0000
  const GIB: int := 0x4000_0000
  const DEFAULT_FLOOR: int := 200 * MIB
  const LEAST_PIPE: int := 6 * 6000 * 4000 * 4 * 4
  const LEAST_MIPMAP: int := 128 * MIB

  // The configured numbers, in MiB.
  datatype Conf = Conf(hostLimit: Int64, headroom: Int64, floor: Int64, mipmap: Int64)

  function Max(a: int, b: int): int { if a > b then a else b }
  function Min(a: int, b: int): int { if a < b then a else b }

  // Signed arithmetic is defined in C as long as results fit.
  predicate Fits(x: int) { -TWO_TO_63 <= x < TWO_TO_63 }

  // The conversions and the macro of the C code.
  function ToSize(x: int): SizeT { x % TWO_TO_64 }
  function ToInt64(x: SizeT): Int64 { if x < TWO_TO_63 then x else x - TWO_TO_64 }
  function TruncatedQuotient(x: int, d: int): int requires d > 0 { if x >= 0 then x / d else -(-x / d) }
  function Clamp(x: int, low: int, high: int): int { if x > high then high else if x < low then low else x }

  // The memory the budget starts from: a host limit shrinks what was detected, 0 means not known.
  function Detected(physical: SizeT, container: SizeT): SizeT
  {
    if container != SIZE_MAX && (physical == 0 || container < physical) then container else physical
  }

  function Total(conf: Conf, physical: SizeT, container: SizeT): int
  {
    var known := Detected(physical, container);
    if conf.hostLimit <= 0 then known else if known == 0 then conf.hostLimit * MIB else Min(conf.hostLimit * MIB, known)
  }

  // A share that was asked for, which the upper limit beats: a negative request is taken as a huge one.
  function Share(asked: int, least: int, most: int): int
  {
    if asked < 0 || asked > most then most else Max(asked, least)
  }

  datatype Plan = Plan(total: int, headroom: int, floor: int, mipmap: int, pixelpipe: int)

  function Planned(total: int, conf: Conf): Plan
  {
    var headroom := Share(conf.headroom * MIB, GIB, total / 3);
    var thumbnails := Share(conf.mipmap * MIB, 256 * MIB, total / 6);
    var left := total - headroom;
    var floor := Min(if conf.floor > 0 then conf.floor * MIB else DEFAULT_FLOOR, total / 4);
    if left - thumbnails > LEAST_PIPE then
      Plan(total, headroom, floor, thumbnails, left - thumbnails)
    else
      Plan(total, headroom, floor, Max(left - LEAST_PIPE, LEAST_MIPMAP), LEAST_PIPE)
  }

  function Spent(p: Plan): int { p.headroom + p.mipmap + p.pixelpipe }

  // A total of 2^63 or more reads as negative: the pixel pipe gets its least, and the floor wraps around.
  function Arranged(total: int, conf: Conf): Plan
  {
    if total < TWO_TO_63 then Planned(total, conf)
    else
      var headroom := Share(conf.headroom * MIB, GIB, total / 3);
      Plan(total, headroom, ToSize(TruncatedQuotient(total - TWO_TO_64, 4)), LEAST_MIPMAP, LEAST_PIPE)
  }

  predicate SharesFit(total: int, conf: Conf)
  {
    && Fits(conf.headroom * MIB) && Fits(conf.floor * MIB) && Fits(conf.mipmap * MIB)
    && (total >= TWO_TO_63 ==>
          var headroom, thumbnails := Share(conf.headroom * MIB, GIB, total / 3), Share(conf.mipmap * MIB, 256 * MIB, total / 6);
          Fits(total - TWO_TO_64 - headroom - Max(thumbnails, LEAST_PIPE)))
  }

  // Undefined is what C makes of a signed overflow.
  datatype Outcome = Undefined | Done(shrunk: bool, critical: bool)

  class Resources {
    var totalMemory: SizeT
    var mipmapMemory: SizeT
    var headroomMemory: SizeT
    var pixelpipeMemory: SizeT
    var pressureFloorMemory: SizeT

    function Contents(): Plan
      reads this
    {
      Plan(totalMemory, headroomMemory, pressureFloorMemory, mipmapMemory, pixelpipeMemory)
    }

    // detected is the size of the machine in thousands of bytes.
    method ConfigureRuntimePerformance(conf: Conf, detected: SizeT, container: SizeT) returns (r: Outcome)
      modifies this
      ensures var total := Total(conf, ToSize(detected * 1000), container);
              && (r.Undefined? <==> (conf.hostLimit > 0 && !Fits(conf.hostLimit * MIB)) || !SharesFit(total, conf))
              && (r.Done? ==> Contents() == Arranged(total, conf))
      ensures r.Done? && totalMemory < TWO_TO_63 ==>
                Spent(Contents()) == Max(totalMemory, headroomMemory + LEAST_PIPE + LEAST_MIPMAP)
      ensures r.Done? ==> (r.critical <==> totalMemory < headroomMemory + LEAST_PIPE + LEAST_MIPMAP)
      ensures r.Done? ==> (r.shrunk <==> pixelpipeMemory == LEAST_PIPE)
    {
      hide Arranged, SharesFit, Total, ToSize;
      var physical := ToSize(detected * 1000);
      if conf.hostLimit <= 0 || Fits(conf.hostLimit * MIB) {
        TotalStepByStep(conf, physical, container);
      }
      if container != SIZE_MAX && (physical == 0 || container < physical) {
        physical := container;
      }
      totalMemory := physical;
      if conf.hostLimit > 0 {
        if !Fits(conf.hostLimit * MIB) {
          return Undefined;
        }
        totalMemory := ToSize(conf.hostLimit * MIB);
      }
      if physical > 0 && totalMemory > physical {
        totalMemory := physical;
      }
      r := ShareOut(conf);
    }

    // The shares of a total that is settled.
    method ShareOut(conf: Conf) returns (r: Outcome)
      modifies this
      ensures totalMemory == old(totalMemory) && (r.Undefined? <==> !SharesFit(totalMemory, conf))
      ensures r.Done? ==> Contents() == Arranged(totalMemory, conf)
      ensures r.Done? && totalMemory < TWO_TO_63 ==>
                Spent(Contents()) == Max(totalMemory, headroomMemory + LEAST_PIPE + LEAST_MIPMAP)
      ensures r.Done? ==> (r.critical <==> totalMemory < headroomMemory + LEAST_PIPE + LEAST_MIPMAP)
      ensures r.Done? ==> (r.shrunk <==> pixelpipeMemory == LEAST_PIPE)
    {
      hide Planned, Arranged, SharesFit, Fits, Clamp, Share, ToSize, ToInt64, TruncatedQuotient, Max, Min;
      ghost var total := totalMemory;
      FitCases(total, conf);
      if !Fits(conf.headroom * MIB) {
        return Undefined;
      }
      ClampIsShare(conf.headroom, 1024 * 1024 * 1024, total / 3);
      headroomMemory := ToSize(conf.headroom * MIB);
      headroomMemory := Clamp(headroomMemory, 1024 * 1024 * 1024, totalMemory / 3);

      if !Fits(conf.floor * MIB) {
        return Undefined;
      }
      var floor := conf.floor * MIB;
      if floor <= 0 {
        floor := DEFAULT_FLOOR;
      }
      FloorStep(floor, total);
      pressureFloorMemory := ToSize(Clamp(floor, 0, TruncatedQuotient(ToInt64(totalMemory), 4)));

      if !Fits(conf.mipmap * MIB) {
        return Undefined;
      }
      ClampIsShare(conf.mipmap, 256 * 1024 * 1024, total / 6);
      mipmapMemory := ToSize(conf.mipmap * MIB);
      mipmapMemory := Clamp(mipmapMemory, 256 * 1024 * 1024, totalMemory / 6);
      r := FitPipe(conf);
    }

    // The pixel pipe gets the rest, and the thumbnail cache gives way to it.
    method FitPipe(conf: Conf) returns (r: Outcome)
      requires headroomMemory == Share(conf.headroom * MIB, GIB, totalMemory / 3)
      requires mipmapMemory == Share(conf.mipmap * MIB, 256 * MIB, totalMemory / 6)
      requires pressureFloorMemory == FloorOf(totalMemory, conf)
      requires Fits(conf.headroom * MIB) && Fits(conf.floor * MIB) && Fits(conf.mipmap * MIB)
      modifies this
      ensures totalMemory == old(totalMemory) && (r.Undefined? <==> !SharesFit(totalMemory, conf))
      ensures r.Done? ==> Contents() == Arranged(totalMemory, conf)
      ensures r.Done? && totalMemory < TWO_TO_63 ==>
                Spent(Contents()) == Max(totalMemory, headroomMemory + LEAST_PIPE + LEAST_MIPMAP)
      ensures r.Done? ==> (r.critical <==> totalMemory < headroomMemory + LEAST_PIPE + LEAST_MIPMAP)
      ensures r.Done? ==> (r.shrunk <==> pixelpipeMemory == LEAST_PIPE)
    {
      hide Planned, Arranged, SharesFit, Fits, Share, ToSize, ToInt64, Max, Min, FloorOf;
      ghost var total, thumbnails, headroom := totalMemory, mipmapMemory, headroomMemory;
      FitCases(total, conf);
      PipeStep(total, thumbnails, headroom, LEAST_PIPE);
      if !Fits(ToInt64(totalMemory) - ToInt64(mipmapMemory) - ToInt64(headroomMemory)) {
        return Undefined;
      }
      var rest := ToInt64(totalMemory) - ToInt64(mipmapMemory) - ToInt64(headroomMemory);
      pixelpipeMemory := ToSize(Max(rest, LEAST_PIPE));
      var shrunk := pixelpipeMemory == LEAST_PIPE;
      if shrunk {
        PipeStep(total, LEAST_PIPE, headroom, LEAST_MIPMAP);
        if !Fits(ToInt64(totalMemory) - ToInt64(headroomMemory) - ToInt64(pixelpipeMemory)) {
          return Undefined;
        }
        rest := ToInt64(totalMemory) - ToInt64(headroomMemory) - ToInt64(pixelpipeMemory);
        mipmapMemory := ToSize(Max(rest, 128 * 1024 * 1024));
      }
      ArrangedIs(conf, Contents());
      ArrangedSum(total, conf);
      r := Done(shrunk, totalMemory < ToSize(headroomMemory + mipmapMemory + pixelpipeMemory));
    }
  }

  // The floor a total leads to.
  function FloorOf(total: SizeT, conf: Conf): int
  {
    var floor := if conf.floor > 0 then conf.floor * MIB else DEFAULT_FLOOR;
    if total < TWO_TO_63 then Min(floor, total / 4) else ToSize(TruncatedQuotient(total - TWO_TO_64, 4))
  }

  lemma FloorStep(floor: int, total: SizeT)
    requires 0 < floor && Fits(floor)
    ensures ToSize(Clamp(floor, 0, TruncatedQuotient(ToInt64(total), 4)))
         == if total < TWO_TO_63 then Min(floor, total / 4) else ToSize(TruncatedQuotient(total - TWO_TO_64, 4))
  {
  }

  // Which signed results have to fit.
  lemma FitCases(total: SizeT, conf: Conf)
    ensures SharesFit(total, conf) ==> Fits(conf.headroom * MIB) && Fits(conf.floor * MIB) && Fits(conf.mipmap * MIB)
    ensures Fits(conf.headroom * MIB) && Fits(conf.floor * MIB) && Fits(conf.mipmap * MIB) ==>
              var headroom, thumbnails := Share(conf.headroom * MIB, GIB, total / 3), Share(conf.mipmap * MIB, 256 * MIB, total / 6);
              && (SharesFit(total, conf) <==>
                    (total >= TWO_TO_63 ==>
                       Fits(total - TWO_TO_64 - headroom - thumbnails) && Fits(total - TWO_TO_64 - headroom - LEAST_PIPE)))
              && 0 <= headroom <= total / 3 + GIB && 0 <= thumbnails <= total / 6 + 256 * MIB
  {
  }

  // The signed subtractions: they do not overflow below 2^63, and read the total as negative from there on.
  lemma PipeStep(total: SizeT, first: SizeT, second: SizeT, least: SizeT)
    requires least < TWO_TO_63 && first <= total / 6 + 4 * GIB && second <= total / 3 + GIB
    ensures var rest := ToInt64(total) - ToInt64(first) - ToInt64(second);
            && rest == (if total < TWO_TO_63 then total else total - TWO_TO_64) - first - second
            && (total < TWO_TO_63 ==> Fits(rest))
            && (Fits(rest) ==> ToSize(Max(rest, least)) == Max(rest, least))
            && (total >= TWO_TO_63 ==> Max(rest, least) == least)
  {
  }

  lemma ArrangedIs(conf: Conf, p: Plan)
    requires 0 <= p.total < TWO_TO_64 && p.floor == FloorOf(p.total, conf)
    requires p.headroom == Share(conf.headroom * MIB, GIB, p.total / 3)
    requires var thumbnails := Share(conf.mipmap * MIB, 256 * MIB, p.total / 6);
             var left := if p.total < TWO_TO_63 then p.total else p.total - TWO_TO_64;
             && p.pixelpipe == Max(left - thumbnails - p.headroom, LEAST_PIPE)
             && p.mipmap == if p.pixelpipe == LEAST_PIPE then Max(left - p.headroom - LEAST_PIPE, LEAST_MIPMAP) else thumbnails
    ensures p == Arranged(p.total, conf)
  {
  }

  lemma ArrangedSum(total: SizeT, conf: Conf)
    ensures var p := Arranged(total, conf);
            && (total < TWO_TO_63 ==> Spent(p) == Max(total, p.headroom + LEAST_PIPE + LEAST_MIPMAP))
            && (total < ToSize(Spent(p)) <==> total < p.headroom + LEAST_PIPE + LEAST_MIPMAP)
  {
    hide Planned;
    if total < TWO_TO_63 {
      PlanSpendsAll(total, conf);
      HeadroomBelow(total, conf);
    }
  }

  // The steps of the method that settle the total.
  lemma TotalStepByStep(conf: Conf, physical: SizeT, container: SizeT)
    requires conf.hostLimit > 0 ==> Fits(conf.hostLimit * MIB)
    ensures var known := Detected(physical, container);
            var first := if conf.hostLimit > 0 then ToSize(conf.hostLimit * MIB) else known;
            Total(conf, physical, container) == if known > 0 && first > known then known else first
  {
  }

  // A request read as an unsigned number and clamped is the share it stands for; no bound is crossed by accident.
  lemma ClampIsShare(asked: Int64, least: SizeT, most: SizeT)
    requires most < TWO_TO_63 && least < TWO_TO_63 && Fits(asked * MIB)
    ensures Clamp(ToSize(asked * MIB), least, most) == Share(asked * MIB, least, most)
    ensures 0 <= Share(asked * MIB, least, most) <= most + least
  {
  }

  lemma HeadroomBelow(total: SizeT, conf: Conf)
    ensures 0 <= Planned(total, conf).headroom <= total / 3 + GIB
  {
  }

  // Every byte is given to someone, and the caches have a minimum that may not be there.
  lemma PlanSpendsAll(total: int, conf: Conf)
    requires total >= 0
    ensures Spent(Planned(total, conf)) == Max(total, Planned(total, conf).headroom + LEAST_PIPE + LEAST_MIPMAP)
    ensures Planned(total, conf).mipmap >= LEAST_MIPMAP && Planned(total, conf).pixelpipe >= LEAST_PIPE
  {
  }

  // The machines on which every plan fits.
  lemma EveryPlanFitsIff(total: int)
    requires total >= 0
    ensures (forall conf :: Spent(Planned(total, conf)) <= total) <==> total >= 3657326591
  {
    if total < 3657326591 {
      var greedy := Conf(0, -1, 0, 0);
      PlanSpendsAll(total, greedy);
      assert Spent(Planned(total, greedy)) > total;
    } else {
      forall conf
        ensures Spent(Planned(total, conf)) <= total
      {
        PlanSpendsAll(total, conf);
      }
    }
  }

  // The headroom keeps its documented bounds exactly from 3 GiB on: below, the bounds cross.
  lemma HeadroomBoundsIff(total: int, conf: Conf)
    requires total >= 0
    ensures GIB <= Planned(total, conf).headroom <= total / 3 <==> total >= 3 * GIB
  {
  }

  // The thumbnail cache keeps its own exactly when headroom and pixel pipe leave it its lower bound.
  lemma ThumbnailBoundsIff(total: int, conf: Conf)
    requires total >= 0
    ensures 256 * MIB <= Planned(total, conf).mipmap <= total / 6
            <==> total >= Share(conf.headroom * MIB, GIB, total / 3) + LEAST_PIPE + 256 * MIB
  {
  }

  // So on every configuration it does exactly from almost 3.6 GiB on.
  lemma EveryThumbnailBoundsIff(total: int)
    requires total >= 0
    ensures (forall conf :: 256 * MIB <= Planned(total, conf).mipmap <= total / 6) <==> total >= 3858653183
  {
    var greedy := Conf(0, -1, 0, -1);
    ThumbnailBoundsIff(total, greedy);
    assert Planned(total, greedy).headroom == total / 3;
    if total >= 3858653183 {
      forall conf
        ensures 256 * MIB <= Planned(total, conf).mipmap <= total / 6
      {
        ThumbnailBoundsIff(total, conf);
        HeadroomBoundsIff(total, conf);
      }
    } else {
      assert !(256 * MIB <= Planned(total, greedy).mipmap <= total / 6);
    }
  }

  // The pressure floor never takes more than a quarter of the memory.
  lemma FloorInRange(total: int, conf: Conf)
    requires total >= 0
    ensures 0 <= Planned(total, conf).floor <= total / 4
    ensures total >= 838860800 && conf.floor <= 0 ==> Planned(total, conf).floor == 209715200
    ensures 0 < conf.floor && conf.floor * 1048576 <= total / 4 ==> Planned(total, conf).floor == conf.floor * 1048576
  {
  }

  // A total that reads as negative leaves a floor just below 2^64, or none for the last three bytes.
  lemma FloorWrapsAround(total: SizeT, conf: Conf)
    requires total >= TWO_TO_63
    ensures var missing := 0x1_0000_0000_0000_0000 - total;
            Arranged(total, conf).floor == if missing < 4 then 0 else 0x1_0000_0000_0000_0000 - missing / 4
  {
  }

  // What is asked for within its bounds is granted: the headroom always, the thumbnail cache when there is room for it.
  lemma AskedIsGranted(total: int, conf: Conf)
    requires total >= 0
    ensures 1024 <= conf.headroom && conf.headroom * 1048576 <= total / 3 ==>
              Planned(total, conf).headroom == conf.headroom * 1048576
    ensures 256 <= conf.mipmap && conf.mipmap * 1048576 <= total / 6
            && Planned(total, conf).headroom + conf.mipmap * 1048576 + 2304000000 <= total ==>
              Planned(total, conf).mipmap == conf.mipmap * 1048576
  {
  }

  // More memory never costs the pixel pipe more than the byte that rounding takes, and sometimes it does cost that.
  lemma MoreMemoryKeepsPixelpipe(less: int, more: int, conf: Conf)
    requires 0 <= less <= more
    ensures Planned(less, conf).pixelpipe <= Planned(more, conf).pixelpipe + 1
  {
  }

  lemma MoreMemoryCanCostOneByte()
    ensures exists conf :: Planned(5999999999, conf).pixelpipe == Planned(6000000000, conf).pixelpipe + 1
  {
    var conf := Conf(0, -1, 0, -1);
    assert Planned(5999999999, conf).pixelpipe == Planned(6000000000, conf).pixelpipe + 1;
  }

  // The total is the least of the limits that are known, unless the container reports a limit of zero.
  ghost predicate Known(conf: Conf, physical: SizeT, container: SizeT, limit: int)
  {
    || (limit == physical && physical > 0)
    || (limit == container && container != 0xFFFF_FFFF_FFFF_FFFF)
    || (limit == conf.hostLimit * 1048576 && conf.hostLimit > 0)
  }

  lemma TotalIsLeastKnown(conf: Conf, physical: SizeT, container: SizeT)
    ensures (forall limit :: Known(conf, physical, container, limit) ==> Total(conf, physical, container) <= limit)
            <==> container != 0 || conf.hostLimit <= 0
    ensures var total := Total(conf, physical, container);
            Known(conf, physical, container, total) || (total == 0 && forall limit :: !Known(conf, physical, container, limit))
  {
    if container == 0 && conf.hostLimit > 0 {
      assert Known(conf, physical, container, 0);
    }
  }
}
