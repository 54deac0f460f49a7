// Scan scripts: validate_script of jcmaster.c.
module Scripts {
  import opened Errors
  import opened Blocks

  const MAX_COMPONENTS := 10
  const MAX_COMPS_IN_SCAN := 4
  const MAX_AH_AL := 10

  // A scan as the application describes it (jpeg_scan_info); of the component
  // indexes only the first comps_in_scan mean anything.
  datatype ScanInfo = ScanInfo(comps_in_scan: int, component_index: seq<int>, Ss: int, Se: int, Ah: int, Al: int)

  predicate ValidInfo(s: ScanInfo) {
    |s.component_index| == MAX_COMPS_IN_SCAN
  }

  function CompsOf(s: ScanInfo): (r: seq<int>)
    requires ValidInfo(s)
    ensures 0 <= s.comps_in_scan <= MAX_COMPS_IN_SCAN ==> |r| == s.comps_in_scan
  {
    if 0 <= s.comps_in_scan <= MAX_COMPS_IN_SCAN then s.component_index[..s.comps_in_scan] else []
  }

  // ----- what a script sends -----

  // The components of a scan are there, each once, in the frame's order.
  predicate CompsOk(num: nat, s: ScanInfo)
    requires ValidInfo(s)
  {
    && 0 < s.comps_in_scan <= MAX_COMPS_IN_SCAN
    && (forall i | 0 <= i < s.comps_in_scan :: 0 <= CompsOf(s)[i] < num)
    && forall i | 0 < i < s.comps_in_scan :: CompsOf(s)[i - 1] < CompsOf(s)[i]
  }

  // Scan s sends something of coefficient k (in zigzag order) of component c.
  predicate Sends(s: ScanInfo, c: int, k: int)
    requires ValidInfo(s)
  {
    c in CompsOf(s) && s.Ss <= k <= s.Se
  }

  predicate ValidScript(script: seq<ScanInfo>) {
    forall i | 0 <= i < |script| :: ValidInfo(script[i])
  }

  // The bit position down to which the first n scans send the coefficient; -1: not at all.
  function LastPos(script: seq<ScanInfo>, n: nat, c: int, k: int): int
    requires ValidScript(script) && n <= |script|
  {
    if n == 0 then -1 else if Sends(script[n - 1], c, k) then script[n - 1].Al else LastPos(script, n - 1, c, k)
  }

  // ----- progressive scripts -----

  predicate ParamsOk(s: ScanInfo) {
    && 0 <= s.Ss <= s.Se < DCTSIZE2 && 0 <= s.Ah <= MAX_AH_AL && 0 <= s.Al <= MAX_AH_AL
    && (s.Ss == 0 ==> s.Se == 0) && (s.Ss != 0 ==> s.comps_in_scan == 1)
  }

  // The scan takes a coefficient on from where it stands.
  predicate Continues(pos: int, s: ScanInfo) {
    if pos < 0 then s.Ah == 0 else s.Ah == pos && s.Al == s.Ah - 1
  }

  // Scan n carries on what the scans before it have sent.
  ghost predicate CarriesOn(script: seq<ScanInfo>, n: nat)
    requires ValidScript(script) && n < |script|
  {
    && (script[n].Ss != 0 ==> forall c | c in CompsOf(script[n]) :: LastPos(script, n, c, 0) >= 0)
    && forall c, k: int | Sends(script[n], c, k) :: Continues(LastPos(script, n, c, k), script[n])
  }

  ghost predicate ScanOk(num: nat, script: seq<ScanInfo>, n: nat)
    requires ValidScript(script) && n < |script|
  {
    CompsOk(num, script[n]) && ParamsOk(script[n]) && CarriesOn(script, n)
  }

  // A script with a scan that is not for whole blocks is progressive.
  predicate Progressive(script: seq<ScanInfo>)
    requires script != []
  {
    script[0].Ss != 0 || script[0].Se != DCTSIZE2 - 1
  }

  ghost predicate ProgressiveOk(num: nat, script: seq<ScanInfo>)
    requires ValidScript(script)
  {
    && (forall n | 0 <= n < |script| :: ScanOk(num, script, n))
    && forall c | 0 <= c < num :: LastPos(script, |script|, c, 0) >= 0
  }

  // ----- sequential scripts -----

  predicate WholeBlocks(s: ScanInfo) {
    s.Ss == 0 && s.Se == DCTSIZE2 - 1 && s.Ah == 0 && s.Al == 0
  }

  // One of the first n scans sends the component.
  predicate SentUpTo(script: seq<ScanInfo>, n: nat, c: int)
    requires ValidScript(script) && n <= |script|
  {
    exists i :: 0 <= i < n && c in CompsOf(script[i])
  }

  // No component is sent twice, and all are.
  ghost predicate SequentialOk(num: nat, script: seq<ScanInfo>)
    requires ValidScript(script)
  {
    && (forall n | 0 <= n < |script| :: CompsOk(num, script[n]) && WholeBlocks(script[n]))
    && (forall m, n, c | 0 <= m < n < |script| && c in CompsOf(script[m]) :: c !in CompsOf(script[n]))
    && forall c | 0 <= c < num :: SentUpTo(script, |script|, c)
  }

  ghost predicate Accepted(num: nat, script: seq<ScanInfo>)
    requires ValidScript(script)
  {
    script != [] && if Progressive(script) then ProgressiveOk(num, script) else SequentialOk(num, script)
  }

  // ----- every coefficient is sent in an unbroken descending chain -----

  // Scan i is the last one before n that sends the coefficient.
  ghost predicate LastScan(script: seq<ScanInfo>, i: nat, n: nat, c: int, k: int)
    requires ValidScript(script)
  {
    i < n <= |script| && Sends(script[i], c, k) && forall j | i < j < n :: !Sends(script[j], c, k)
  }

  lemma {:induction false} LastScanPos(script: seq<ScanInfo>, i: nat, n: nat, c: int, k: int)
    requires ValidScript(script) && LastScan(script, i, n, c, k)
    ensures LastPos(script, n, c, k) == script[i].Al
  {
    hide Sends;
    if i < n - 1 {
      LastScanPos(script, i, n - 1, c, k);
    }
  }

  lemma {:induction false} NeverSentPos(script: seq<ScanInfo>, n: nat, c: int, k: int)
    requires ValidScript(script) && n <= |script| && forall j | 0 <= j < n :: !Sends(script[j], c, k)
    ensures LastPos(script, n, c, k) == -1
  {
    hide Sends;
    if n > 0 {
      NeverSentPos(script, n - 1, c, k);
    }
  }

  lemma {:induction false} SentBefore(script: seq<ScanInfo>, n: nat, c: int, k: int) returns (i: nat)
    requires ValidScript(script) && n <= |script| && LastPos(script, n, c, k) >= 0
    ensures LastScan(script, i, n, c, k)
  {
    hide Sends;
    if Sends(script[n - 1], c, k) {
      i := n - 1;
    } else {
      i := SentBefore(script, n - 1, c, k);
    }
  }

  // In an accepted progressive script the first scan of a coefficient starts
  // from nothing, every other one takes exactly the next bit, and AC
  // coefficients come after DC values.
  lemma Chain(num: nat, script: seq<ScanInfo>, n: nat, c: int, k: int)
    requires ValidScript(script) && script != [] && Progressive(script) && Accepted(num, script)
    requires n < |script| && Sends(script[n], c, k)
    ensures (forall i | 0 <= i < n :: !Sends(script[i], c, k)) ==> script[n].Ah == 0
    ensures forall i: nat | LastScan(script, i, n, c, k) ::
      script[n].Ah == script[i].Al && script[n].Al == script[n].Ah - 1
    ensures k > 0 ==> exists i :: 0 <= i < n && Sends(script[i], c, 0)
  {
    hide Sends, CompsOk, Continues;
    assert ScanOk(num, script, n);
    if forall i | 0 <= i < n :: !Sends(script[i], c, k) {
      NeverSentPos(script, n, c, k);
      ContinuesIs(LastPos(script, n, c, k), script[n]);
    }
    forall i: nat | LastScan(script, i, n, c, k)
      ensures script[n].Ah == script[i].Al && script[n].Al == script[n].Ah - 1
    {
      LastScanPos(script, i, n, c, k);
      assert ScanOk(num, script, i);
      ContinuesIs(LastPos(script, n, c, k), script[n]);
    }
    SendsIs(script[n], c, k);
    if k > 0 {
      var i := SentBefore(script, n, c, 0);
    }
  }

  lemma ContinuesIs(pos: int, s: ScanInfo)
    ensures Continues(pos, s) <==> if pos < 0 then s.Ah == 0 else s.Ah == pos && s.Al == s.Ah - 1
  {
  }

  lemma SendsIs(s: ScanInfo, c: int, k: int)
    requires ValidInfo(s)
    ensures Sends(s, c, k) <==> c in CompsOf(s) && s.Ss <= k <= s.Se
  {
  }

  // ----- what exactly is accepted -----

  // The components of a scan: one to four, in the frame's order.
  ghost predicate Named(num: nat, s: ScanInfo)
    requires ValidInfo(s)
  {
    && 1 <= s.comps_in_scan <= 4
    && forall i | 0 <= i < s.comps_in_scan :: 0 <= CompsOf(s)[i] < num && (i > 0 ==> CompsOf(s)[i - 1] < CompsOf(s)[i])
  }

  // DC values of any components, or a band of AC coefficients of one.
  ghost predicate InRange(s: ScanInfo) {
    && 0 <= s.Ah <= 10 && 0 <= s.Al <= 10
    && if s.Ss == 0 then s.Se == 0 else 1 <= s.Ss <= s.Se <= 63 && s.comps_in_scan == 1
  }

  // What scan n does for a coefficient: the first scan of a coefficient starts
  // from nothing, every other one adds the bit below the last one sent; and AC
  // coefficients are preceded by DC values.
  ghost predicate InChain(script: seq<ScanInfo>, n: nat, c: int, k: int)
    requires ValidScript(script) && n < |script|
  {
    && ((forall i | 0 <= i < n :: !Sends(script[i], c, k)) ==> script[n].Ah == 0)
    && (forall i: nat | LastScan(script, i, n, c, k) ::
      script[n].Ah == script[i].Al && script[n].Al == script[i].Al - 1)
    && (k > 0 ==> exists i :: 0 <= i < n && Sends(script[i], c, 0))
  }

  ghost predicate HasDc(script: seq<ScanInfo>, c: int)
    requires ValidScript(script)
  {
    exists i :: 0 <= i < |script| && Sends(script[i], c, 0)
  }

  lemma {:induction false} LastExists(script: seq<ScanInfo>, j: nat, n: nat, c: int, k: int) returns (i: nat)
    requires ValidScript(script) && j < n <= |script| && Sends(script[j], c, k)
    ensures LastScan(script, i, n, c, k)
    decreases n
  {
    hide Sends;
    if Sends(script[n - 1], c, k) {
      i := n - 1;
    } else {
      i := LastExists(script, j, n - 1, c, k);
    }
  }

  lemma NamedIs(num: nat, s: ScanInfo)
    requires ValidInfo(s)
    ensures Named(num, s) <==> CompsOk(num, s)
    ensures InRange(s) <==> ParamsOk(s)
    ensures Named(num, s) && InRange(s) && s.Ss != 0 ==> forall c | c in CompsOf(s) :: Sends(s, c, s.Ss)
  {
  }

  lemma SentPos(script: seq<ScanInfo>, n: nat, c: int, k: int)
    requires ValidScript(script) && n <= |script| && forall i | 0 <= i < n :: script[i].Al >= 0
    ensures LastPos(script, n, c, k) >= 0 <==> exists i :: 0 <= i < n && Sends(script[i], c, k)
  {
    hide Sends;
    if exists i :: 0 <= i < n && Sends(script[i], c, k) {
      var j :| 0 <= j < n && Sends(script[j], c, k);
      var i := LastExists(script, j, n, c, k);
      LastScanPos(script, i, n, c, k);
    } else {
      NeverSentPos(script, n, c, k);
    }
  }

  lemma ChainContinues(script: seq<ScanInfo>, n: nat, c: int, k: int)
    requires ValidScript(script) && n < |script| && InChain(script, n, c, k)
    requires forall i | 0 <= i < n :: script[i].Al >= 0
    ensures Continues(LastPos(script, n, c, k), script[n])
  {
    hide Sends;
    SentPos(script, n, c, k);
    if j: nat :| j < n && Sends(script[j], c, k) {
      var i := LastExists(script, j, n, c, k);
      LastScanPos(script, i, n, c, k);
    }
  }

  // A progressive script is accepted if and only if every scan names its
  // components in order and has parameters in range, every coefficient is sent in
  // such a chain, and every component gets DC values.
  lemma AcceptedExactly(num: nat, script: seq<ScanInfo>)
    requires ValidScript(script) && script != [] && Progressive(script)
    ensures Accepted(num, script) <==>
      && (forall n: nat | n < |script| :: Named(num, script[n]) && InRange(script[n]))
      && (forall n: nat, c: int, k: int | n < |script| && Sends(script[n], c, k) :: InChain(script, n, c, k))
      && forall c | 0 <= c < num :: HasDc(script, c)
  {
    hide Sends, Named, InRange, CompsOk, ParamsOk, Continues, LastPos;
    if Accepted(num, script) {
      ChainsHold(num, script);
    }
    if && (forall n: nat | n < |script| :: Named(num, script[n]) && InRange(script[n]))
       && (forall n: nat, c: int, k: int | n < |script| && Sends(script[n], c, k) :: InChain(script, n, c, k))
       && forall c | 0 <= c < num :: HasDc(script, c) {
      ChainsSuffice(num, script);
    }
  }

  lemma ChainsHold(num: nat, script: seq<ScanInfo>)
    requires ValidScript(script) && script != [] && Progressive(script) && ProgressiveOk(num, script)
    ensures forall n: nat | n < |script| :: Named(num, script[n]) && InRange(script[n])
    ensures forall n: nat, c: int, k: int | n < |script| && Sends(script[n], c, k) :: InChain(script, n, c, k)
    ensures forall c | 0 <= c < num :: HasDc(script, c)
  {
    hide Sends, Named, InRange, CompsOk, ParamsOk, Continues, LastPos;
    forall n: nat | n < |script|
      ensures Named(num, script[n]) && InRange(script[n]) && script[n].Al >= 0
    {
      assert ScanOk(num, script, n);
      NamedIs(num, script[n]);
      AlRange(script[n]);
    }
    forall n: nat, c: int, k: int | n < |script| && Sends(script[n], c, k)
      ensures InChain(script, n, c, k)
    {
      Chain(num, script, n, c, k);
    }
    forall c | 0 <= c < num
      ensures HasDc(script, c)
    {
      SentPos(script, |script|, c, 0);
    }
  }

  lemma AlRange(s: ScanInfo)
    requires InRange(s)
    ensures s.Al >= 0
  {
  }

  lemma ChainsSuffice(num: nat, script: seq<ScanInfo>)
    requires ValidScript(script) && script != []
    requires forall n: nat | n < |script| :: Named(num, script[n]) && InRange(script[n])
    requires forall n: nat, c: int, k: int | n < |script| && Sends(script[n], c, k) :: InChain(script, n, c, k)
    requires forall c | 0 <= c < num :: HasDc(script, c)
    ensures ProgressiveOk(num, script)
  {
    hide Sends, Named, InRange, CompsOk, ParamsOk, Continues, LastPos, CompsOf;
    forall n: nat | n < |script|
      ensures script[n].Al >= 0
    {
      AlRange(script[n]);
    }
    forall n: nat | n < |script|
      ensures ScanOk(num, script, n)
    {
      NamedIs(num, script[n]);
      forall c, k: int | Sends(script[n], c, k)
        ensures Continues(LastPos(script, n, c, k), script[n])
      {
        ChainContinues(script, n, c, k);
      }
      if script[n].Ss != 0 {
        forall c | c in CompsOf(script[n])
          ensures LastPos(script, n, c, 0) >= 0
        {
          assert Sends(script[n], c, script[n].Ss);
          assert InChain(script, n, c, script[n].Ss);
          StartsLater(script[n]);
          SentPos(script, n, c, 0);
        }
      }
    }
    forall c | 0 <= c < num
      ensures LastPos(script, |script|, c, 0) >= 0
    {
      assert HasDc(script, c);
      SentPos(script, |script|, c, 0);
    }
  }

  lemma StartsLater(s: ScanInfo)
    requires InRange(s) && s.Ss != 0
    ensures s.Ss > 0
  {
  }

  // ----- validate_script -----

  // The component indexes of a scan.
  method CheckComps(num: nat, s: ScanInfo) returns (r: Result<()>)
    requires ValidInfo(s)
    ensures r.Ok? <==> CompsOk(num, s)
    ensures r.Err? ==> r.error == if 0 < s.comps_in_scan <= MAX_COMPS_IN_SCAN then BadScanScript else ComponentCount
  {
    var ncomps := s.comps_in_scan;
    if ncomps <= 0 || ncomps > MAX_COMPS_IN_SCAN {
      return Err(ComponentCount);
    }
    for ci := 0 to ncomps
      invariant forall i | 0 <= i < ci :: 0 <= CompsOf(s)[i] < num
      invariant forall i | 0 < i < ci :: CompsOf(s)[i - 1] < CompsOf(s)[i]
    {
      var thisi := s.component_index[ci];
      assert thisi == CompsOf(s)[ci];
      if thisi < 0 || thisi >= num {
        return Err(BadScanScript);
      }
      if ci > 0 && thisi <= s.component_index[ci - 1] {
        assert s.component_index[ci - 1] == CompsOf(s)[ci - 1];
        return Err(BadScanScript);
      }
    }
    return Ok(());
  }

  lemma {:induction false} Ascending(num: nat, s: ScanInfo, i: nat, j: nat)
    requires ValidInfo(s) && CompsOk(num, s) && i < j < s.comps_in_scan
    ensures CompsOf(s)[i] < CompsOf(s)[j]
    decreases j
  {
    if i < j - 1 {
      Ascending(num, s, i, j - 1);
    }
  }

  // The first components of a scan.
  function FirstComps(s: ScanInfo, n: nat): seq<int>
    requires ValidInfo(s) && 0 < s.comps_in_scan <= MAX_COMPS_IN_SCAN && n <= s.comps_in_scan
  {
    CompsOf(s)[..n]
  }

  lemma NotAmong(num: nat, s: ScanInfo, n: nat)
    requires ValidInfo(s) && CompsOk(num, s) && n < s.comps_in_scan
    ensures CompsOf(s)[n] !in FirstComps(s, n) && 0 <= CompsOf(s)[n] < num
    ensures s.component_index[n] == CompsOf(s)[n]
    ensures forall c :: c in FirstComps(s, n + 1) <==> c in FirstComps(s, n) || c == CompsOf(s)[n]
  {
    if CompsOf(s)[n] in FirstComps(s, n) {
      var i :| 0 <= i < n && CompsOf(s)[i] == CompsOf(s)[n];
      Ascending(num, s, i, n);
    }
    assert FirstComps(s, n + 1) == FirstComps(s, n) + [CompsOf(s)[n]];
  }

  // The table of bit positions while scan n is entered: done are the
  // coefficients of the components in cs, and those below k of component c.
  ghost predicate Entering(pos: array2<int>, script: seq<ScanInfo>, n: nat, num: nat, cs: seq<int>, c: int, k: int)
    requires ValidScript(script) && n < |script|
    reads pos
  {
    && pos.Length0 == num && pos.Length1 == DCTSIZE2
    && forall d, j | 0 <= d < num && 0 <= j < DCTSIZE2 ::
         pos[d, j] == if script[n].Ss <= j <= script[n].Se && (d in cs || (d == c && j < k)) then script[n].Al
                      else LastPos(script, n, d, j)
  }

  ghost predicate Entered(pos: array2<int>, script: seq<ScanInfo>, n: nat, num: nat)
    requires ValidScript(script) && n <= |script|
    reads pos
  {
    && pos.Length0 == num && pos.Length1 == DCTSIZE2
    && forall d, j | 0 <= d < num && 0 <= j < DCTSIZE2 :: pos[d, j] == LastPos(script, n, d, j)
  }

  // Component c of scan n carries on what the scans before have sent.
  ghost predicate CompCarriesOn(script: seq<ScanInfo>, n: nat, c: int, k: int)
    requires ValidScript(script) && n < |script|
  {
    && (script[n].Ss != 0 ==> LastPos(script, n, c, 0) >= 0)
    && forall j: int | script[n].Ss <= j < k :: Continues(LastPos(script, n, c, j), script[n])
  }

  lemma CarriesOnIs(script: seq<ScanInfo>, n: nat)
    requires ValidScript(script) && n < |script|
    ensures CarriesOn(script, n) <==>
      forall c | c in CompsOf(script[n]) :: CompCarriesOn(script, n, c, script[n].Se + 1)
  {
    hide LastPos, Continues, CompsOf;
    if forall c | c in CompsOf(script[n]) :: CompCarriesOn(script, n, c, script[n].Se + 1) {
      forall c, k: int | Sends(script[n], c, k)
        ensures Continues(LastPos(script, n, c, k), script[n])
      {
        assert CompCarriesOn(script, n, c, script[n].Se + 1);
      }
    }
    if CarriesOn(script, n) {
      forall c | c in CompsOf(script[n])
        ensures CompCarriesOn(script, n, c, script[n].Se + 1)
      {
        forall j: int | script[n].Ss <= j < script[n].Se + 1
          ensures Continues(LastPos(script, n, c, j), script[n])
        {
          assert Sends(script[n], c, j);
        }
      }
    }
  }

  // One component of a progressive scan.
  method EnterComp(num: nat, script: seq<ScanInfo>, n: nat, pos: array2<int>, ci: nat) returns (ok: bool)
    requires ValidScript(script) && n < |script| && CompsOk(num, script[n]) && ParamsOk(script[n])
    requires ci < script[n].comps_in_scan
    requires Entering(pos, script, n, num, FirstComps(script[n], ci), -1, 0)
    modifies pos
    ensures ok <==> CompCarriesOn(script, n, CompsOf(script[n])[ci], script[n].Se + 1)
    ensures ok ==> Entering(pos, script, n, num, FirstComps(script[n], ci + 1), -1, 0)
  {
    hide LastPos, Continues, FirstComps, CompsOf;
    NotAmong(num, script[n], ci);
    var s, c := script[n], script[n].component_index[ci];
    ghost var cs := FirstComps(s, ci);
    if s.Ss != 0 && pos[c, 0] < 0 {
      return false;
    }
    for coefi := s.Ss to s.Se + 1
      invariant Entering(pos, script, n, num, cs, c, coefi) && CompCarriesOn(script, n, c, coefi)
    {
      ContinuesIs(pos[c, coefi], s);
      if pos[c, coefi] < 0 {
        if s.Ah != 0 {
          return false;
        }
      } else {
        if s.Ah != pos[c, coefi] || s.Al != s.Ah - 1 {
          return false;
        }
      }
      pos[c, coefi] := s.Al;
    }
    ok := true;
  }

  // The parameters of a progressive scan, and how it goes with the scans before it.
  method EnterScan(num: nat, script: seq<ScanInfo>, n: nat, pos: array2<int>) returns (ok: bool)
    requires ValidScript(script) && n < |script| && CompsOk(num, script[n]) && Entered(pos, script, n, num)
    modifies pos
    ensures ok <==> ParamsOk(script[n]) && CarriesOn(script, n)
    ensures ok ==> Entered(pos, script, n + 1, num)
  {
    hide Continues;
    var s := script[n];
    if s.Ss < 0 || s.Ss >= DCTSIZE2 || s.Se < s.Ss || s.Se >= DCTSIZE2
      || s.Ah < 0 || s.Ah > MAX_AH_AL || s.Al < 0 || s.Al > MAX_AH_AL {
      return false;
    }
    if s.Ss == 0 {
      if s.Se != 0 {
        return false;
      }
    } else {
      if s.comps_in_scan != 1 {
        return false;
      }
    }
    CarriesOnIs(script, n);
    assert FirstComps(s, 0) == [];
    for ci := 0 to s.comps_in_scan
      invariant Entering(pos, script, n, num, FirstComps(s, ci), -1, 0)
      invariant forall c | c in FirstComps(s, ci) :: CompCarriesOn(script, n, c, s.Se + 1)
    {
      NotAmong(num, s, ci);
      ok := EnterComp(num, script, n, pos, ci);
      if !ok {
        assert CompsOf(s)[ci] in CompsOf(s);
        return;
      }
    }
    assert FirstComps(s, s.comps_in_scan) == CompsOf(s);
    ok := true;
  }

  // One scan of a sequential script.
  method EnterWhole(num: nat, script: seq<ScanInfo>, n: nat, component_sent: array<bool>) returns (r: Result<()>)
    requires ValidScript(script) && n < |script| && CompsOk(num, script[n]) && component_sent.Length == num
    requires forall c | 0 <= c < num :: component_sent[c] == SentUpTo(script, n, c)
    modifies component_sent
    ensures r.Ok? <==> WholeBlocks(script[n]) && forall c | c in CompsOf(script[n]) :: !SentUpTo(script, n, c)
    ensures r.Ok? ==> forall c | 0 <= c < num :: component_sent[c] == SentUpTo(script, n + 1, c)
    ensures r.Err? ==> r.error == if WholeBlocks(script[n]) then BadScanScript else BadProgScript
  {
    var s := script[n];
    if s.Ss != 0 || s.Se != DCTSIZE2 - 1 || s.Ah != 0 || s.Al != 0 {
      return Err(BadProgScript);
    }
    assert FirstComps(s, 0) == [];
    for ci := 0 to s.comps_in_scan
      invariant forall c | 0 <= c < num :: component_sent[c] == (SentUpTo(script, n, c) || c in FirstComps(s, ci))
      invariant forall c | c in FirstComps(s, ci) :: !SentUpTo(script, n, c)
    {
      NotAmong(num, s, ci);
      var thisi := s.component_index[ci];
      if component_sent[thisi] {
        assert thisi in CompsOf(s);
        return Err(BadScanScript);
      }
      component_sent[thisi] := true;
    }
    assert FirstComps(s, s.comps_in_scan) == CompsOf(s);
    r := Ok(());
  }

  lemma SentByEarlier(script: seq<ScanInfo>, n: nat)
    requires ValidScript(script) && n < |script|
    ensures (forall c | c in CompsOf(script[n]) :: !SentUpTo(script, n, c)) <==>
            forall m, c | 0 <= m < n && c in CompsOf(script[m]) :: c !in CompsOf(script[n])
  {
  }

  // validate_script: the result says whether the script is progressive.
  method ValidateScript(num: nat, script: seq<ScanInfo>) returns (r: Result<bool>)
    requires ValidScript(script) && num <= MAX_COMPONENTS
    ensures r.Ok? <==> Accepted(num, script)
    ensures r.Ok? ==> r.value == Progressive(script)
    ensures r.Err? ==> r.error in {BadScanScript, BadProgScript, ComponentCount, MissingData}
  {
    hide CompsOk, ParamsOk, CarriesOn, WholeBlocks, Continues, LastPos, CompsOf;
    if |script| == 0 {
      return Err(BadScanScript);
    }
    var progressive_mode := script[0].Ss != 0 || script[0].Se != DCTSIZE2 - 1;
    var last_bitpos := new int[num, DCTSIZE2];
    var component_sent := new bool[num];
    if progressive_mode {
      forall ci, coefi | 0 <= ci < num && 0 <= coefi < DCTSIZE2 {
        last_bitpos[ci, coefi] := -1;
      }
    } else {
      forall ci | 0 <= ci < num {
        component_sent[ci] := false;
      }
    }
    NothingSent(script);
    for scanno := 0 to |script|
      invariant progressive_mode ==>
        Entered(last_bitpos, script, scanno, num) && forall n | 0 <= n < scanno :: ScanOk(num, script, n)
      invariant !progressive_mode ==> forall c | 0 <= c < num :: component_sent[c] == SentUpTo(script, scanno, c)
      invariant !progressive_mode ==> forall n | 0 <= n < scanno :: CompsOk(num, script[n]) && WholeBlocks(script[n])
      invariant !progressive_mode ==>
        forall m, n, c | 0 <= m < n < scanno && c in CompsOf(script[m]) :: c !in CompsOf(script[n])
    {
      var comps := CheckComps(num, script[scanno]);
      assert comps.Err? ==> !ScanOk(num, script, scanno);
      if comps.Err? {
        return Err(comps.error);
      }
      if progressive_mode {
        var ok := EnterScan(num, script, scanno, last_bitpos);
        assert ok == ScanOk(num, script, scanno);
        if !ok {
          return Err(BadProgScript);
        }
      } else {
        SentByEarlier(script, scanno);
        var one := EnterWhole(num, script, scanno, component_sent);
        if one.Err? {
          return Err(one.error);
        }
      }
    }
    for ci := 0 to num
      invariant forall c | 0 <= c < ci ::
        if progressive_mode then LastPos(script, |script|, c, 0) >= 0 else SentUpTo(script, |script|, c)
    {
      if progressive_mode {
        if last_bitpos[ci, 0] < 0 {
          return Err(MissingData);
        }
      } else {
        if !component_sent[ci] {
          return Err(MissingData);
        }
      }
    }
    return Ok(progressive_mode);
  }

  lemma NothingSent(script: seq<ScanInfo>)
    requires ValidScript(script)
    ensures forall c, k :: LastPos(script, 0, c, k) == -1
    ensures forall c :: !SentUpTo(script, 0, c)
  {
  }
}
