// The entropy coder's interface (start_pass_huff of jchuff.c): whether a pass
// gathers statistics or writes bits is decided when it starts.
module EntropyCoding {
  import opened Errors
  import opened Tokens
  import opened BitWriter
  import opened McuCodec
  import opened SeqEncoder
  import opened SeqGather

  // The statistics coder and its counts.
  ghost function CountObjects(g: Gatherer): (r: set<object>)
    ensures g in r && (forall a <- g.dc_count_ptrs :: a in r) && (forall a <- g.ac_count_ptrs :: a in r)
    ensures forall o <- r :: o == g || o in g.dc_count_ptrs || o in g.ac_count_ptrs
  {
    {g} + (set i | 0 <= i < |g.dc_count_ptrs| :: g.dc_count_ptrs[i])
        + (set i | 0 <= i < |g.ac_count_ptrs| :: g.ac_count_ptrs[i])
  }

  class EntropyCoder {
    const scan: Scan
    const huff: SeqEncoder?
    const gather: Gatherer?
    ghost var taken: seq<Mcu>    // the MCUs that have been accepted

    ghost predicate Installed() {
      if huff != null then huff.scan == scan && gather == null else gather != null && gather.scan == scan
    }

    ghost function Objects(): set<object> {
      if huff != null then {huff}
      else if gather == null then {}
      else CountObjects(gather)
    }

    // These MCUs can be coded.
    ghost predicate CanTake(mcus: seq<Mcu>)
      requires Installed()
    {
      if huff != null then AllEncodable(scan, huff.tables, mcus, |mcus|)
      else ValidMcus(scan, mcus, |mcus|) && AllInRange(scan, mcus, |mcus|)
    }

    // The coder has taken them.
    ghost predicate Valid()
      requires Installed()
      reads this, Objects()
    {
      && CanTake(taken)
      && if huff != null then huff.Valid() && huff.Abstract() == StateAt(scan, huff.tables, taken, |taken|)
         else gather.Valid() && gather.Abstract() == GatherAt(scan, taken, |taken|)
    }

    // encode_mcu_huff is installed.
    constructor Output(e: SeqEncoder)
      requires e.Valid() && e.Abstract() == Start(e.scan)
      ensures Installed() && Valid() && huff == e && gather == null && scan == e.scan && taken == []
    {
      scan, huff, gather, taken := e.scan, e, null, [];
    }

    // encode_mcu_gather is installed.
    constructor Statistics(g: Gatherer)
      requires g.Valid() && g.Abstract() == Gathered(NoPredictions(g.scan), g.scan.restart_interval, [])
      ensures Installed() && Valid() && huff == null && gather == g && scan == g.scan && taken == []
      ensures Objects() == CountObjects(g)
    {
      scan, huff, gather, taken := g.scan, null, g, [];
    }

    // encode_mcu: the MCU is taken, or nothing has happened; Failed, if it cannot be coded.
    method EncodeMcu(mcu: Mcu) returns (st: Status)
      requires Installed() && Valid() && ValidMcu(scan, mcu)
      modifies this, Objects()
      ensures st.Done? ==> Valid() && taken == old(taken) + [mcu]
      ensures st.Suspended? ==> Valid() && taken == old(taken) && huff != null && huff.suspending && !huff.Accepts(mcu)
      ensures st.Failed? ==> !CanTake(old(taken) + [mcu])
    {
      hide AllEncodable, AllInRange, StateAt, GatherAt, ValidMcus, Encodable, McuInRange, Predictions, McuTokens;
      TakeOne(taken, mcu);
      ghost var before := taken;
      if huff != null {
        st := huff.EncodeMcu(mcu);
      } else {
        var ok := gather.EncodeMcuGather(mcu);
        st := if ok then Done else Failed(BadDctCoef);
      }
      if st.Done? {
        taken := taken + [mcu];
      }
    }

    // The application takes the bytes and hands over free bytes of room.
    method MakeRoom(free: nat)
      requires Installed() && Valid() && huff != null && free > 0
      modifies huff`free_in_buffer
      ensures Valid()
    {
      hide AllEncodable, StateAt;
      huff.MakeRoom(free);
    }

    // What can be taken depends on the MCUs taken before.
    lemma TakeOne(before: seq<Mcu>, mcu: Mcu)
      requires Installed() && CanTake(before) && ValidMcu(scan, mcu)
      ensures huff != null ==> NextState(before, mcu)
      ensures huff == null ==> NextGathered(before, mcu)
    {
      hide CanTake, NextState, NextGathered;
      if huff != null {
        TakeBits(before, mcu);
      } else {
        TakeCounts(before, mcu);
      }
    }

    lemma TakeBits(before: seq<Mcu>, mcu: Mcu)
      requires Installed() && huff != null && CanTake(before) && ValidMcu(scan, mcu)
      ensures NextState(before, mcu)
    {
      hide Encodable, McuInRange, Predictions, McuTokens, ValidMcu, ValidScan, AfterMcu, AllInRange;
      hide GatherAt, ValidMcus;
      SameStates(scan, huff.tables, before, before + [mcu], |before|);
    }

    lemma TakeCounts(before: seq<Mcu>, mcu: Mcu)
      requires Installed() && huff == null && CanTake(before) && ValidMcu(scan, mcu)
      ensures NextGathered(before, mcu)
    {
      hide McuInRange, Predictions, McuTokens, ValidMcu, ValidScan, AfterGather, AllEncodable, StateAt, Encodable;
      SameGathered(scan, before, before + [mcu], |before|);
    }

    ghost predicate NextState(before: seq<Mcu>, mcu: Mcu)
      requires Installed() && huff != null && CanTake(before) && ValidMcu(scan, mcu)
    {
      var s, all := StateAt(scan, huff.tables, before, |before|), before + [mcu];
      && (CanTake(all) <==> Encodable(scan, huff.tables, s, mcu))
      && (CanTake(all) ==> StateAt(scan, huff.tables, all, |all|) == AfterMcu(scan, huff.tables, s, mcu))
    }

    ghost predicate NextGathered(before: seq<Mcu>, mcu: Mcu)
      requires Installed() && huff == null && CanTake(before) && ValidMcu(scan, mcu)
    {
      var g, all := GatherAt(scan, before, |before|), before + [mcu];
      && (CanTake(all) <==> McuInRange(scan, AtRestart(scan, g).last, mcu, |mcu|))
      && (CanTake(all) ==> GatherAt(scan, all, |all|) == AfterGather(scan, g, mcu))
    }
  }

  // The states after n MCUs are the same in two scans that begin with the same MCUs.
  lemma {:induction false} SameStates(scan: Scan, t: CTables, a: seq<Mcu>, b: seq<Mcu>, n: nat)
    requires n <= |a| && n <= |b| && forall i | 0 <= i < n :: a[i] == b[i]
    ensures AllEncodable(scan, t, a, n) <==> AllEncodable(scan, t, b, n)
    ensures AllEncodable(scan, t, a, n) ==> StateAt(scan, t, a, n) == StateAt(scan, t, b, n)
  {
    hide Encodable, ValidMcu, ValidScan, SaneTables;
    if n > 0 {
      SameStates(scan, t, a, b, n - 1);
    }
  }

  lemma {:induction false} SameGathered(scan: Scan, a: seq<Mcu>, b: seq<Mcu>, n: nat)
    requires n <= |a| && n <= |b| && forall i | 0 <= i < n :: a[i] == b[i]
    ensures ValidMcus(scan, a, n) <==> ValidMcus(scan, b, n)
    ensures ValidMcus(scan, a, n) ==>
      (AllInRange(scan, a, n) <==> AllInRange(scan, b, n)) && GatherAt(scan, a, n) == GatherAt(scan, b, n)
  {
    hide McuInRange, ValidMcu, ValidScan, Predictions, McuTokens;
    if n > 0 {
      SameGathered(scan, a, b, n - 1);
    }
  }

  // A coder that can take all of a scan's MCUs can take the first n.
  lemma {:induction false} CanTakePrefix(c: EntropyCoder, mcus: seq<Mcu>, n: nat)
    requires c.Installed() && c.CanTake(mcus) && n <= |mcus|
    ensures c.CanTake(mcus[..n])
  {
    hide Encodable, ValidMcu, ValidScan, McuInRange, Predictions, McuTokens;
    if c.huff != null {
      AllEncodablePrefix(c.scan, c.huff.tables, mcus, n, |mcus|);
      SameStates(c.scan, c.huff.tables, mcus, mcus[..n], n);
    } else {
      InRangePrefix(c.scan, mcus, n, |mcus|);
      SameGathered(c.scan, mcus, mcus[..n], n);
    }
  }

  lemma {:induction false} InRangePrefix(scan: Scan, mcus: seq<Mcu>, n: nat, m: nat)
    requires n <= m <= |mcus| && ValidMcus(scan, mcus, m) && AllInRange(scan, mcus, m)
    ensures ValidMcus(scan, mcus, n) && AllInRange(scan, mcus, n)
    decreases m
  {
    hide McuInRange, ValidMcu;
    if n < m {
      InRangePrefix(scan, mcus, n, m - 1);
    }
  }
}
