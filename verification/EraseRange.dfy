/** How much storage a download erases beforehand (fota.c, calc_available_storage and
    calc_and_erase_needed_storage), for builds without full resume. */
module EraseRange {
  import opened Bytes
  import opened CandidateFormat
  import opened BlockDevice
  import opened Resume

  /** The erased range: up to the end of the sector in which the data area ends. */
  method EraseNeeded(bd: Device, g: Geometry, start: nat, storage: nat, size: nat) returns (ok: bool, end: nat)
    requires g.eff > 0 && bd.eraseSize > 0 && start <= g.data
    requires Multiple(start, bd.eraseSize) && Multiple(start + storage, bd.eraseSize)
    modifies bd
    ensures DataEnd(g, size) > start + storage ==> !ok && bd.mem == old(bd.mem)
    ensures DataEnd(g, size) <= start + storage ==>
              && end == AlignUp(DataEnd(g, size), bd.eraseSize)
              && DataEnd(g, size) <= end <= start + storage && Multiple(end, bd.eraseSize)
    ensures DataEnd(g, size) <= start + storage && end <= |old(bd.mem)| && !ok ==> old(bd.power) < end - start
    ensures ok ==> bd.power == old(bd.power) - (end - start)
    ensures |bd.mem| == |old(bd.mem)|
    ensures ok ==> DataEnd(g, size) <= start + storage && end <= |bd.mem|
                   && forall i :: 0 <= i < |bd.mem| ==>
                        bd.mem[i] == if start <= i < end then bd.erased else old(bd.mem)[i]
  {
    hide Multiple, Blocks;
    BlocksIsCeiling(size, g.eff);
    var needed := g.data - start + AlignUp(size, g.eff) / g.eff * g.page;
    end := start + needed;
    if needed > storage {
      return false, end;
    }
    SectorEnd(end, bd.eraseSize, start + storage);
    var total := if end % bd.eraseSize != 0 then AlignDown(end, bd.eraseSize) + bd.eraseSize - start else needed;
    end := start + total;
    MultipleAdd(start, total, bd.eraseSize);
    ghost var n;
    ok, n := bd.Erase(start, total);
  }

  lemma SectorEnd(end: nat, es: nat, limit: nat)
    requires es > 0 && end <= limit && Multiple(limit, es)
    ensures AlignUp(end, es) == if end % es != 0 then AlignDown(end, es) + es else end
    ensures end <= AlignUp(end, es) <= limit && Multiple(AlignUp(end, es), es)
  {
    AlignUpIsLeast(end, es);
    MultipleIsMod(AlignUp(end, es), es);
    if AlignUp(end, es) > limit {
      MultipleGap(limit, AlignUp(end, es), es);
    }
    if end % es != 0 {
      var q := end / es;
      assert end == q * es + end % es by { assert end == es * q + end % es; }
      assert (q + 1) * es == q * es + es;
      MultipleMod(q + 1, es);
      AlignUpUnique(end, es, (q + 1) * es);
    }
  }
}
