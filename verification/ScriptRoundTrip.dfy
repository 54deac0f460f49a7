// A whole progressive script: decoding its scans one after the other rebuilds
// the coefficients, as far as the script sends them.
module ScriptRoundTrip {
  import opened Arith
  import opened Tokens
  import opened Blocks
  import opened SeqCodec
  import opened BitWriter
  import opened McuCodec
  import opened ByteStream
  import opened McuReading
  import opened ProgCodec
  import opened ProgScan
  import opened ProgStream
  import opened ProgReading
  import opened ProgRoundTrip
  import opened Scripts
  import SimpleProgression
  import SeqDecoder

  // The coefficient arrays: the blocks of each component, in zigzag order.
  type Arrays = seq<seq<Block>>

  datatype Place = Place(comp: nat, index: nat)

  // Where the blocks of a scan's MCUs come from.
  type Layout = seq<seq<Place>>

  ghost predicate ValidArrays(a: Arrays) {
    forall c, i | 0 <= c < |a| && 0 <= i < |a[c]| :: |a[c][i]| == DCTSIZE2
  }

  ghost predicate SameShape(a: Arrays, b: Arrays) {
    ValidArrays(a) && ValidArrays(b) && |a| == |b| && forall c | 0 <= c < |a| :: |a[c]| == |b[c]|
  }

  ghost predicate Inside(layout: Layout, a: Arrays) {
    forall j, m | 0 <= j < |layout| && 0 <= m < |layout[j]| ::
      layout[j][m].comp < |a| && layout[j][m].index < |a[layout[j][m].comp]|
  }

  // No block is in a scan twice.
  ghost predicate Apart(layout: Layout) {
    forall j, m, i, n | 0 <= j < |layout| && 0 <= m < |layout[j]| && 0 <= i < |layout| && 0 <= n < |layout[i]| ::
      layout[j][m] == layout[i][n] ==> j == i && m == n
  }

  // The MCUs of a scan, from the arrays.
  function Gathered(layout: Layout, a: Arrays): (r: seq<Zigzags>)
    requires Inside(layout, a)
    ensures |r| == |layout|
    ensures forall j | 0 <= j < |layout| ::
      |r[j]| == |layout[j]| && forall m | 0 <= m < |layout[j]| :: r[j][m] == a[layout[j][m].comp][layout[j][m].index]
  {
    seq(|layout|, j requires 0 <= j < |layout| =>
      seq(|layout[j]|, m requires 0 <= m < |layout[j]| => a[layout[j][m].comp][layout[j][m].index]))
  }

  ghost predicate At(layout: Layout, c: nat, i: nat, j: nat, m: nat) {
    j < |layout| && m < |layout[j]| && layout[j][m] == Place(c, i)
  }

  ghost predicate Used(layout: Layout, c: nat, i: nat) {
    exists j: nat, m: nat :: At(layout, c, i, j, m)
  }

  ghost predicate Fitting(layout: Layout, mcus: seq<Zigzags>) {
    |mcus| == |layout| && forall j | 0 <= j < |layout| :: |mcus[j]| == |layout[j]|
  }

  // ... and back into them.
  ghost function Block1(layout: Layout, mcus: seq<Zigzags>, a: Arrays, c: nat, i: nat): Block
    requires Fitting(layout, mcus) && c < |a| && i < |a[c]|
  {
    if Used(layout, c, i) then
      var j: nat, m: nat :| At(layout, c, i, j, m);
      mcus[j][m]
    else a[c][i]
  }

  ghost function Scattered(layout: Layout, mcus: seq<Zigzags>, a: Arrays): (r: Arrays)
    requires Fitting(layout, mcus)
    ensures |r| == |a| && forall c | 0 <= c < |a| :: |r[c]| == |a[c]|
    ensures forall c, i | 0 <= c < |a| && 0 <= i < |a[c]| :: r[c][i] == Block1(layout, mcus, a, c, i)
  {
    seq(|a|, c requires 0 <= c < |a| => seq(|a[c]|, i requires 0 <= i < |a[c]| => Block1(layout, mcus, a, c, i)))
  }

  lemma BlockAt(layout: Layout, mcus: seq<Zigzags>, a: Arrays, c: nat, i: nat, j: nat, m: nat)
    requires Fitting(layout, mcus) && c < |a| && i < |a[c]| && Apart(layout) && At(layout, c, i, j, m)
    ensures Block1(layout, mcus, a, c, i) == mcus[j][m]
  {
    assert Used(layout, c, i);
    var j': nat, m': nat :| At(layout, c, i, j', m') && Block1(layout, mcus, a, c, i) == mcus[j'][m'];
    assert layout[j][m] == layout[j'][m'];
  }

  lemma BlockElsewhere(layout: Layout, mcus: seq<Zigzags>, a: Arrays, c: nat, i: nat)
    requires Fitting(layout, mcus) && c < |a| && i < |a[c]| && !Used(layout, c, i)
    ensures Block1(layout, mcus, a, c, i) == a[c][i]
  {
  }

  // ----- one scan -----

  // A scan of the script: its parameters, where its blocks are, the tables on
  // both sides, and what stands around its bytes in the stream.
  datatype Transfer = Transfer(info: ScanInfo, scan: Scan, layout: Layout, t: CTables, dt: DTables, front: seq<Byte>,
                               code: Byte, more: seq<Byte>)

  function BandOf(s: ScanInfo): Band
    requires ParamsOk(s)
  {
    Band(s.Ss, s.Se, s.Ah, s.Al)
  }

  // The MCUs consist of blocks of the scan's components.
  ghost predicate WellLaid(p: Transfer, img: Arrays) {
    && ValidInfo(p.info) && ParamsOk(p.info) && Inside(p.layout, img) && Apart(p.layout)
    && ValidProg(p.scan, BandOf(p.info)) && |CompsOf(p.info)| == |p.scan.comps|
    && forall j | 0 <= j < |p.layout| ::
         && |p.layout[j]| == |p.scan.membership|
         && forall m | 0 <= m < |p.layout[j]| :: p.layout[j][m].comp == CompsOf(p.info)[p.scan.membership[m]]
  }

  // All real blocks of the scan's components are in it; an AC scan has no others.
  ghost predicate Covers(p: Transfer, filled: seq<nat>)
    requires ValidInfo(p.info)
  {
    && (forall c: nat, i: nat | c in CompsOf(p.info) && c < |filled| && i < filled[c] :: Used(p.layout, c, i))
    && (p.info.Ss != 0 ==> forall j, m | 0 <= j < |p.layout| && 0 <= m < |p.layout[j]| ::
          p.layout[j][m].comp < |filled| && p.layout[j][m].index < filled[p.layout[j][m].comp])
  }

  // The scan can be encoded, and the decoder has the encoder's tables.
  ghost predicate Fits(p: Transfer, img: Arrays, filled: seq<nat>) {
    && WellLaid(p, img) && Covers(p, filled) && ValidArrays(img) && 0 < p.code < 0xFF
    && MatchingProg(p.scan, BandOf(p.info), p.t, p.dt)
    && PAllEncodable(p.scan, BandOf(p.info), p.t, Gathered(p.layout, img))
  }

  lemma GatheredValid(p: Transfer, a: Arrays)
    requires WellLaid(p, a) && ValidArrays(a)
    ensures AllValid(p.scan, Gathered(p.layout, a)) && ValidProg(p.scan, BandOf(p.info))
    ensures forall j | 0 <= j < |p.layout| :: ValidZs(p.scan, Gathered(p.layout, a)[j])
  {
    hide ValidProg;
  }

  // The bytes the scan is found in.
  ghost function DataOf(p: Transfer, img: Arrays): seq<Byte>
    requires WellLaid(p, img) && ValidArrays(img) && SaneTables(p.t)
  {
    GatheredValid(p, img);
    var b, mcus := BandOf(p.info), Gathered(p.layout, img);
    p.front + (PFinished(p.scan, b, p.t, PStateAt(p.scan, b, p.t, mcus, |mcus|)) + ([0xFF, p.code] + p.more))
  }

  // What the decoder makes of the bytes.
  ghost function RunOn(p: Transfer, data: seq<Byte>, was: Arrays): PRun
    requires WellLaid(p, was) && ValidArrays(was) && ValidProgTables(p.scan, BandOf(p.info), p.dt)
    requires |p.front| <= |data|
  {
    GatheredValid(p, was);
    StartValid(p.scan, data, |p.front|);
    PRunOf(p.scan, BandOf(p.info), p.dt, data, PStartAt(p.scan, data, |p.front|), Gathered(p.layout, was), |p.layout|)
  }

  lemma StartValid(scan: Scan, data: seq<Byte>, n: nat)
    requires n <= |data|
    ensures ValidDec(scan, data, PStartAt(scan, data, n).core)
  {
  }

  // The arrays after a scan; if it cannot be decoded, they stay as they are.
  ghost function Received(p: Transfer, data: seq<Byte>, was: Arrays): (r: Arrays)
    ensures |r| == |was| && forall c | 0 <= c < |was| :: |r[c]| == |was[c]|
  {
    if WellLaid(p, was) && ValidArrays(was) && ValidProgTables(p.scan, BandOf(p.info), p.dt) && |p.front| <= |data|
       && RunOn(p, data, was).PRun? && Fitting(p.layout, RunOn(p, data, was).mcus)
    then Scattered(p.layout, RunOn(p, data, was).mcus, was)
    else was
  }

  // ----- what is known of a coefficient -----

  // Coefficient k when bit pos is the last one sent.
  function Known(v: Coef, pos: int, k: nat): Coef
    requires pos <= MAX_AH_AL
  {
    if pos < 0 then 0 else if k == 0 then DcTrunc(v, pos) else Trunc(v, pos)
  }

  lemma {:induction false} PosBound(num: nat, script: seq<ScanInfo>, n: nat, c: int, k: int)
    requires ValidScript(script) && n <= |script| && forall i | 0 <= i < n :: ScanOk(num, script, i)
    ensures -1 <= LastPos(script, n, c, k) <= MAX_AH_AL
  {
    hide CarriesOn, CompsOk, Sends;
    if n > 0 {
      PosBound(num, script, n - 1, c, k);
      assert ScanOk(num, script, n - 1);
    }
  }

  // The first n scans of the script are in order.
  ghost predicate OkScript(num: nat, script: seq<ScanInfo>, n: nat) {
    ValidScript(script) && n <= |script| && forall i | 0 <= i < n :: ScanOk(num, script, i)
  }

  // The coefficient as the first n scans of the script send it.
  ghost function KnownAfter(num: nat, script: seq<ScanInfo>, n: nat, v: Coef, c: nat, k: nat): Coef
    requires OkScript(num, script, n)
  {
    PosBound(num, script, n, c, k);
    Known(v, LastPos(script, n, c, k), k)
  }

  // Of the real blocks, the arrays hold what the first n scans have sent.
  ghost predicate Knows(num: nat, script: seq<ScanInfo>, n: nat, img: Arrays, a: Arrays, filled: seq<nat>)
    requires OkScript(num, script, n)
  {
    && SameShape(a, img) && |filled| == |img| && (forall c | 0 <= c < |img| :: filled[c] <= |img[c]|)
    && forall c, i, k | 0 <= c < |img| && 0 <= i < filled[c] && 0 <= k < DCTSIZE2 ::
         a[c][i][k] == KnownAfter(num, script, n, img[c][i][k], c, k)
  }

  // ----- one scan takes the arrays one step further -----

  lemma ContinuesFrom(num: nat, script: seq<ScanInfo>, n: nat, c: int, k: int)
    requires OkScript(num, script, n + 1) && Sends(script[n], c, k)
    ensures ParamsOk(script[n]) && script[n].Al <= 10 && (script[n].Ah == 0 || script[n].Ah == script[n].Al + 1)
    ensures LastPos(script, n, c, k) == if script[n].Ah == 0 then -1 else script[n].Ah
    ensures LastPos(script, n + 1, c, k) == script[n].Al
  {
    assert ScanOk(num, script, n);
    PosBound(num, script, n, c, k);
    assert Continues(LastPos(script, n, c, k), script[n]);
  }

  // A block of an AC scan, as earlier scans have left it.
  lemma BandBefore(num: nat, script: seq<ScanInfo>, n: nat, z: Block, v: Block, c: nat)
    requires OkScript(num, script, n + 1) && |z| == |v| == DCTSIZE2 && c in CompsOf(script[n]) && script[n].Ss != 0
    requires forall k | 0 <= k < DCTSIZE2 :: z[k] == KnownAfter(num, script, n, v[k], c, k)
    ensures ParamsOk(script[n]) && Before(z, v, BandOf(script[n]))
  {
    hide LastPos, CarriesOn, CompsOk, CompsOf, Trunc, DcTrunc;
    assert ScanOk(num, script, n);
    var b := BandOf(script[n]);
    forall k: nat | b.Ss <= k <= b.Se && k < DCTSIZE2
      ensures z[k] == if b.Ah == 0 then 0 else Trunc(v[k], b.Ah)
    {
      ContinuesFrom(num, script, n, c, k);
    }
  }

  // What the scan makes of a block.
  function Stepped(z: Block, v: Block, b: Band): (r: Block)
    requires |z| == |v| == DCTSIZE2 && b.Al <= 14
    ensures |r| == DCTSIZE2
  {
    if b.Ss == 0 then SetDc(z, DcNext(z[0], v[0], b)) else After(z, v, b)
  }

  // ... is what is known after it.
  lemma SteppedKnown(num: nat, script: seq<ScanInfo>, n: nat, z: Block, v: Block, c: nat, k: nat)
    requires OkScript(num, script, n + 1) && |z| == |v| == DCTSIZE2 && c in CompsOf(script[n]) && k < DCTSIZE2
    requires z[k] == KnownAfter(num, script, n, v[k], c, k)
    ensures ParamsOk(script[n]) && script[n].Al <= 10
    ensures Stepped(z, v, BandOf(script[n]))[k] == KnownAfter(num, script, n + 1, v[k], c, k)
  {
    hide LastPos, CarriesOn, CompsOk, CompsOf, Trunc, DcTrunc, DcNext;
    assert ScanOk(num, script, n);
    var b := BandOf(script[n]);
    if Sends(script[n], c, k) {
      ContinuesFrom(num, script, n, c, k);
      if k == 0 {
        DcNextIs(z[0], v[0], b);
        if b.Ah != 0 {
          DcNextRight(v[0], b);
        }
      }
    } else {
      NotSent(script, n, c, k);
    }
  }

  lemma NotSent(script: seq<ScanInfo>, n: nat, c: int, k: int)
    requires ValidScript(script) && n < |script| && !Sends(script[n], c, k)
    ensures LastPos(script, n + 1, c, k) == LastPos(script, n, c, k)
  {
  }

  // The MCUs are fit for the scan.
  lemma McusBefore(num: nat, script: seq<ScanInfo>, n: nat, p: Transfer, img: Arrays, a: Arrays, filled: seq<nat>,
                   j: nat)
    requires OkScript(num, script, n + 1) && p.info == script[n] && Fits(p, img, filled)
    requires Knows(num, script, n, img, a, filled)
    requires WellLaid(p, a) && j < |p.layout|
    ensures McuBefore(p.scan, BandOf(p.info), Gathered(p.layout, a)[j], Gathered(p.layout, img)[j])
  {
    hide LastPos, CompsOf, KnownAfter, Before, PAllEncodable, MatchingProg, ValidProg;
    GatheredValid(p, a);
    GatheredValid(p, img);
    var was, zs, b := Gathered(p.layout, a)[j], Gathered(p.layout, img)[j], BandOf(p.info);
    if b.Ss != 0 {
      forall m | 0 <= m < |zs|
        ensures Before(was[m], zs[m], b)
      {
        var q := p.layout[j][m];
        PlaceComp(p, img, j, m);
        assert a[q.comp][q.index] == was[m] && img[q.comp][q.index] == zs[m];
        BandBefore(num, script, n, was[m], zs[m], q.comp);
      }
    }
  }

  lemma PlaceComp(p: Transfer, img: Arrays, j: nat, m: nat)
    requires WellLaid(p, img) && j < |p.layout| && m < |p.layout[j]|
    ensures p.layout[j][m].comp in CompsOf(p.info) && p.layout[j][m].comp < |img|
    ensures p.layout[j][m].index < |img[p.layout[j][m].comp]|
  {
    hide CompsOf;
  }

  lemma WellLaidSame(p: Transfer, img: Arrays, a: Arrays)
    requires WellLaid(p, img) && SameShape(a, img)
    ensures WellLaid(p, a)
  {
    hide CompsOf, ValidProg;
  }

  // Decoding a scan of what was sent.
  lemma ReceivedBlocks(num: nat, script: seq<ScanInfo>, n: nat, p: Transfer, img: Arrays, a: Arrays, filled: seq<nat>)
    requires OkScript(num, script, n + 1) && p.info == script[n] && Fits(p, img, filled)
    requires Knows(num, script, n, img, a, filled)
    ensures WellLaid(p, a) && ValidArrays(a) && SaneTables(p.t) && ValidProgTables(p.scan, BandOf(p.info), p.dt)
    ensures script[n].Al <= 10
    ensures WellLaid(p, img) && ValidArrays(img) && |p.front| <= |DataOf(p, img)|
    ensures RunOn(p, DataOf(p, img), a).PRun? && Fitting(p.layout, RunOn(p, DataOf(p, img), a).mcus)
    ensures forall j, m | 0 <= j < |p.layout| && 0 <= m < |p.layout[j]| ::
      && |Gathered(p.layout, a)[j][m]| == |Gathered(p.layout, img)[j][m]| == DCTSIZE2
      && RunOn(p, DataOf(p, img), a).mcus[j][m]
          == Stepped(Gathered(p.layout, a)[j][m], Gathered(p.layout, img)[j][m], BandOf(p.info))
  {
    hide LastPos, CompsOf, KnownAfter, Before, PAllEncodable, PStateAt, PFinished, PRunOf, PStartAt, PInStep,
      SeqDecoder.Live, McuBefore,
      ValidProgTables, DcNext, After, CarriesOn, Covers, Apart;
    WellLaidSame(p, img, a);
    GatheredValid(p, a);
    GatheredValid(p, img);
    assert ScanOk(num, script, n);
    var b, mcus, was := BandOf(p.info), Gathered(p.layout, img), Gathered(p.layout, a);
    forall j | 0 <= j < |mcus|
      ensures McuBefore(p.scan, b, was[j], mcus[j])
    {
      McusBefore(num, script, n, p, img, a, filled, j);
    }
    ProgScanRoundTrip(p.scan, b, p.t, p.dt, mcus, was, |mcus|, p.front, p.code, p.more, DataOf(p, img));
  }

  lemma KnowsNext(num: nat, script: seq<ScanInfo>, n: nat, p: Transfer, img: Arrays, a: Arrays, filled: seq<nat>)
    requires OkScript(num, script, n + 1) && p.info == script[n] && Fits(p, img, filled)
    requires Knows(num, script, n, img, a, filled)
    ensures SaneTables(p.t) && WellLaid(p, img) && ValidArrays(img)
    ensures Knows(num, script, n + 1, img, Received(p, DataOf(p, img), a), filled)
  {
    hide LastPos, CompsOf, KnownAfter, PAllEncodable, RunOn, DataOf, Stepped, MatchingProg, ValidProg, ValidProgTables,
      CarriesOn;
    ReceivedBlocks(num, script, n, p, img, a, filled);
    var mcus, r := RunOn(p, DataOf(p, img), a).mcus, Received(p, DataOf(p, img), a);
    assert ScanOk(num, script, n);
    forall c: nat, i: nat | c < |a| && i < |a[c]|
      ensures |r[c][i]| == DCTSIZE2
      ensures i < filled[c] ==>
        forall k | 0 <= k < DCTSIZE2 :: r[c][i][k] == KnownAfter(num, script, n + 1, img[c][i][k], c, k)
    {
      BlockKnown(num, script, n, p, img, a, filled, c, i);
    }
  }

  lemma BlockKnown(num: nat, script: seq<ScanInfo>, n: nat, p: Transfer, img: Arrays, a: Arrays, filled: seq<nat>,
                   c: nat, i: nat)
    requires OkScript(num, script, n + 1) && p.info == script[n] && Fits(p, img, filled)
    requires Knows(num, script, n, img, a, filled)
    requires c < |a| && i < |a[c]|
    ensures SaneTables(p.t) && WellLaid(p, img) && ValidArrays(img)
    ensures var r := Received(p, DataOf(p, img), a);
            && |r[c][i]| == DCTSIZE2
            && (i < filled[c] ==>
                forall k | 0 <= k < DCTSIZE2 :: r[c][i][k] == KnownAfter(num, script, n + 1, img[c][i][k], c, k))
  {
    hide LastPos, CompsOf, KnownAfter, PAllEncodable, RunOn, DataOf, Stepped, MatchingProg, ValidProg, ValidProgTables,
      CarriesOn;
    ReceivedBlocks(num, script, n, p, img, a, filled);
    var mcus, r := RunOn(p, DataOf(p, img), a).mcus, Received(p, DataOf(p, img), a);
    assert r[c][i] == Block1(p.layout, mcus, a, c, i);
    if Used(p.layout, c, i) {
      var j: nat, m: nat :| At(p.layout, c, i, j, m);
      BlockAt(p.layout, mcus, a, c, i, j, m);
      PlaceComp(p, img, j, m);
      if i < filled[c] {
        forall k | 0 <= k < DCTSIZE2
          ensures r[c][i][k] == KnownAfter(num, script, n + 1, img[c][i][k], c, k)
        {
          SteppedKnown(num, script, n, a[c][i], img[c][i], c, k);
        }
      }
    } else {
      BlockElsewhere(p.layout, mcus, a, c, i);
      if i < filled[c] {
        forall k | 0 <= k < DCTSIZE2
          ensures r[c][i][k] == KnownAfter(num, script, n + 1, img[c][i][k], c, k)
        {
          assert c !in CompsOf(script[n]);
          KnownSame(num, script, n, img[c][i][k], c, k);
        }
      }
    }
  }

  lemma KnownSame(num: nat, script: seq<ScanInfo>, n: nat, v: Coef, c: nat, k: nat)
    requires OkScript(num, script, n + 1) && c !in CompsOf(script[n])
    ensures OkScript(num, script, n) && KnownAfter(num, script, n + 1, v, c, k) == KnownAfter(num, script, n, v, c, k)
  {
    NotSent(script, n, c, k);
  }

  // ----- the whole script -----

  // The arrays after the first n scans, starting from zeros.
  ghost function ReceivedAll(ps: seq<Transfer>, img: Arrays, n: nat): (r: Arrays)
    requires n <= |ps|
    ensures |r| == |img| && forall c | 0 <= c < |img| :: |r[c]| == |img[c]|
  {
    if n == 0 then seq(|img|, c requires 0 <= c < |img| => seq(|img[c]|, _ => ZeroBlock()))
    else
      var a, p := ReceivedAll(ps, img, n - 1), ps[n - 1];
      if WellLaid(p, img) && ValidArrays(img) && SaneTables(p.t) then Received(p, DataOf(p, img), a) else a
  }

  // Scan n of the script is sent as ps[n] says.
  ghost predicate Carries(ps: seq<Transfer>, script: seq<ScanInfo>, img: Arrays, filled: seq<nat>) {
    && |ps| == |script| && ValidArrays(img) && |filled| == |img| && (forall c | 0 <= c < |img| :: filled[c] <= |img[c]|)
    && forall n | 0 <= n < |ps| :: ps[n].info == script[n] && Fits(ps[n], img, filled)
  }

  lemma {:induction false} ScriptKnows(num: nat, script: seq<ScanInfo>, ps: seq<Transfer>, img: Arrays,
                                       filled: seq<nat>, n: nat)
    requires OkScript(num, script, |script|) && Carries(ps, script, img, filled) && n <= |script|
    ensures OkScript(num, script, n) && Knows(num, script, n, img, ReceivedAll(ps, img, n), filled)
  {
    hide LastPos, Fits, ScanOk, Received, DataOf, WellLaid;
    if n > 0 {
      ScriptKnows(num, script, ps, img, filled, n - 1);
      KnowsNext(num, script, n - 1, ps[n - 1], img, ReceivedAll(ps, img, n - 1), filled);
    } else {
      NothingKnown(num, script, ps, img, filled);
    }
  }

  lemma NothingKnown(num: nat, script: seq<ScanInfo>, ps: seq<Transfer>, img: Arrays, filled: seq<nat>)
    requires OkScript(num, script, |script|) && Carries(ps, script, img, filled)
    ensures Knows(num, script, 0, img, ReceivedAll(ps, img, 0), filled)
  {
  }

  lemma KnownWhole(v: Coef, k: nat)
    ensures Known(v, 0, k) == v
  {
    assert Pow2(0) == 1;
  }

  // Of an accepted script that sends every bit, decoding its scans rebuilds
  // every coefficient of every real block exactly.
  lemma ScriptBack(num: nat, script: seq<ScanInfo>, ps: seq<Transfer>, img: Arrays, filled: seq<nat>)
    requires ValidScript(script) && script != [] && Progressive(script) && Accepted(num, script)
    requires SimpleProgression.Complete(num, script)
    requires Carries(ps, script, img, filled) && |img| == num
    ensures forall c, i | 0 <= c < num && 0 <= i < filled[c] :: ReceivedAll(ps, img, |ps|)[c][i] == img[c][i]
  {
    hide LastPos, Fits, ReceivedAll, ScanOk;
    ScriptKnows(num, script, ps, img, filled, |script|);
    var a := ReceivedAll(ps, img, |ps|);
    forall c: nat, i: nat | c < num && i < filled[c]
      ensures a[c][i] == img[c][i]
    {
      forall k: nat | k < DCTSIZE2
        ensures a[c][i][k] == img[c][i][k]
      {
        assert LastPos(script, |script|, c, k) == 0;
        KnownWhole(img[c][i][k], k);
      }
    }
  }
}
