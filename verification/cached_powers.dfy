/** The powers of ten that doubles are scaled with: every eighth one, rounded to 64 bits. */
module CachedPowers {
  import opened DiyFps

  type Row = (DiyFp, DiyFp, DiyFp)

  /** Three entries of the two arrays: for the decimal exponent 24 * j - 348, and the eighth and the sixteenth
      exponent above it. */
  function CachedRow(j: nat): Row {
    match j
    case 0 => (DiyFp(0xfa8fd5a0081c0288, -1220), DiyFp(0xbaaee17fa23ebf76, -1193), DiyFp(0x8b16fb203055ac76, -1166))
    case 1 => (DiyFp(0xcf42894a5dce35ea, -1140), DiyFp(0x9a6bb0aa55653b2d, -1113), DiyFp(0xe61acf033d1a45df, -1087))
    case 2 => (DiyFp(0xab70fe17c79ac6ca, -1060), DiyFp(0xff77b1fcbebcdc4f, -1034), DiyFp(0xbe5691ef416bd60c, -1007))
    case 3 => (DiyFp(0x8dd01fad907ffc3c, -980), DiyFp(0xd3515c2831559a83, -954), DiyFp(0x9d71ac8fada6c9b5, -927))
    case 4 => (DiyFp(0xea9c227723ee8bcb, -901), DiyFp(0xaecc49914078536d, -874), DiyFp(0x823c12795db6ce57, -847))
    case 5 => (DiyFp(0xc21094364dfb5637, -821), DiyFp(0x9096ea6f3848984f, -794), DiyFp(0xd77485cb25823ac7, -768))
    case 6 => (DiyFp(0xa086cfcd97bf97f4, -741), DiyFp(0xef340a98172aace5, -715), DiyFp(0xb23867fb2a35b28e, -688))
    case 7 => (DiyFp(0x84c8d4dfd2c63f3b, -661), DiyFp(0xc5dd44271ad3cdba, -635), DiyFp(0x936b9fcebb25c996, -608))
    case 8 => (DiyFp(0xdbac6c247d62a584, -582), DiyFp(0xa3ab66580d5fdaf6, -555), DiyFp(0xf3e2f893dec3f126, -529))
    case 9 => (DiyFp(0xb5b5ada8aaff80b8, -502), DiyFp(0x87625f056c7c4a8b, -475), DiyFp(0xc9bcff6034c13053, -449))
    case 10 => (DiyFp(0x964e858c91ba2655, -422), DiyFp(0xdff9772470297ebd, -396), DiyFp(0xa6dfbd9fb8e5b88f, -369))
    case 11 => (DiyFp(0xf8a95fcf88747d94, -343), DiyFp(0xb94470938fa89bcf, -316), DiyFp(0x8a08f0f8bf0f156b, -289))
    case 12 => (DiyFp(0xcdb02555653131b6, -263), DiyFp(0x993fe2c6d07b7fac, -236), DiyFp(0xe45c10c42a2b3b06, -210))
    case 13 => (DiyFp(0xaa242499697392d3, -183), DiyFp(0xfd87b5f28300ca0e, -157), DiyFp(0xbce5086492111aeb, -130))
    case 14 => (DiyFp(0x8cbccc096f5088cc, -103), DiyFp(0xd1b71758e219652c, -77), DiyFp(0x9c40000000000000, -50))
    case 15 => (DiyFp(0xe8d4a51000000000, -24), DiyFp(0xad78ebc5ac620000, 3), DiyFp(0x813f3978f8940984, 30))
    case 16 => (DiyFp(0xc097ce7bc90715b3, 56), DiyFp(0x8f7e32ce7bea5c70, 83), DiyFp(0xd5d238a4abe98068, 109))
    case 17 => (DiyFp(0x9f4f2726179a2245, 136), DiyFp(0xed63a231d4c4fb27, 162), DiyFp(0xb0de65388cc8ada8, 189))
    case 18 => (DiyFp(0x83c7088e1aab65db, 216), DiyFp(0xc45d1df942711d9a, 242), DiyFp(0x924d692ca61be758, 269))
    case 19 => (DiyFp(0xda01ee641a708dea, 295), DiyFp(0xa26da3999aef774a, 322), DiyFp(0xf209787bb47d6b85, 348))
    case 20 => (DiyFp(0xb454e4a179dd1877, 375), DiyFp(0x865b86925b9bc5c2, 402), DiyFp(0xc83553c5c8965d3d, 428))
    case 21 => (DiyFp(0x952ab45cfa97a0b3, 455), DiyFp(0xde469fbd99a05fe3, 481), DiyFp(0xa59bc234db398c25, 508))
    case 22 => (DiyFp(0xf6c69a72a3989f5c, 534), DiyFp(0xb7dcbf5354e9bece, 561), DiyFp(0x88fcf317f22241e2, 588))
    case 23 => (DiyFp(0xcc20ce9bd35c78a5, 614), DiyFp(0x98165af37b2153df, 641), DiyFp(0xe2a0b5dc971f303a, 667))
    case 24 => (DiyFp(0xa8d9d1535ce3b396, 694), DiyFp(0xfb9b7cd9a4a7443c, 720), DiyFp(0xbb764c4ca7a44410, 747))
    case 25 => (DiyFp(0x8bab8eefb6409c1a, 774), DiyFp(0xd01fef10a657842c, 800), DiyFp(0x9b10a4e5e9913129, 827))
    case 26 => (DiyFp(0xe7109bfba19c0c9d, 853), DiyFp(0xac2820d9623bf429, 880), DiyFp(0x80444b5e7aa7cf85, 907))
    case 27 => (DiyFp(0xbf21e44003acdd2d, 933), DiyFp(0x8e679c2f5e44ff8f, 960), DiyFp(0xd433179d9c8cb841, 986))
    case _ => (DiyFp(0x9e19db92b4e31ba9, 1013), DiyFp(0xeb96bf6ebadf77d9, 1039), DiyFp(0xaf87023b9bf0ee6b, 1066))
  }

  function RowEntry(row: Row, k: nat): DiyFp {
    if k == 0 then row.0 else if k == 1 then row.1 else row.2
  }

  function GetCachedPowerByIndex(i: nat): DiyFp {
    RowEntry(CachedRow(i / 3), i % 3)
  }

  /** Which of them is chosen for a binary exponent. */
  function CachedIndex(e: int): int {
    var dk := (-61 - e) as real * 0.30102999566398114 + 347.0;
    var k := if dk - dk.Floor as real > 0.0 then dk.Floor + 1 else dk.Floor;
    k / 8 + 1
  }

  /// ## The entries are powers of ten, rounded

  /** As `IsPowerOfTen`, where `x` is the power of ten in units of the last place of `c`. */
  predicate Near(c: DiyFp, x: real) {
    -1.0 <= 2.0 * (c.f as real - x) <= 1.0
  }

  /** From the power of ten of an entry to that of its neighbour, and from a row to its neighbours. */
  function Next(c: DiyFp, c': DiyFp, x: real): real {
    if c'.e - c.e == 26 then x * 100000000.0 / 67108864.0 else x * 100000000.0 / 134217728.0
  }

  const TEN24: real := 1000000000000000000000000.0
  const TWO79: real := 604462909807314587353088.0
  const TWO80: real := 1208925819614629174706176.0

  function NextRow(row: Row, row': Row, x: real): real {
    if row'.0.e - row.0.e == 79 then x * TEN24 / TWO79 else x * TEN24 / TWO80
  }

  function PreviousRow(row: Row, row': Row, x: real): real {
    if row'.0.e - row.0.e == 79 then x * TWO79 / TEN24 else x * TWO80 / TEN24
  }

  predicate NearRow(row: Row, x: real) {
    && Near(row.0, x) && Near(row.1, Next(row.0, row.1, x))
    && Near(row.2, Next(row.1, row.2, Next(row.0, row.1, x)))
  }

  /** The ratio of row `j` comes from that of its neighbour towards the middle. */
  predicate Climbs(xs: seq<real>, j: nat)
    requires j < |xs| == 29
  {
    if j < 14 then xs[j] == PreviousRow(CachedRow(j), CachedRow(j + 1), xs[j + 1])
    else if j == 14 then xs[j] == 10141204801825835211.973625643008
    else xs[j] == NextRow(CachedRow(j - 1), CachedRow(j), xs[j - 1])
  }

  /** The powers of ten of the rows in units of their first entries; in the middle, `10^-12` over `2^-103`. */
  ghost predicate Ratios(xs: seq<real>) {
    |xs| == 29 && forall j: nat :: j < 29 ==> Climbs(xs, j)
  }

  lemma Rows0To2(xs: seq<real>)
    requires Ratios(xs)
    requires 0.0 <= xs[3] - 10218702384817765435.680627790 <= 0.000001
    ensures forall j: nat :: j < 3 ==> NearRow(CachedRow(j), xs[j])
  {
    assert Climbs(xs, 2) && NearRow(CachedRow(2), xs[2]);
    assert Climbs(xs, 1) && NearRow(CachedRow(1), xs[1]);
    assert Climbs(xs, 0) && NearRow(CachedRow(0), xs[0]);
  }

  lemma Rows3To6(xs: seq<real>)
    requires Ratios(xs)
    requires 0.0 <= xs[7] - 9568131466127621947.163770265 <= 0.0000001
    ensures 0.0 <= xs[3] - 10218702384817765435.680627790 <= 0.000001
    ensures forall j: nat :: 3 <= j < 7 ==> NearRow(CachedRow(j), xs[j])
  {
    assert Climbs(xs, 6) && NearRow(CachedRow(6), xs[6]);
    assert Climbs(xs, 5) && NearRow(CachedRow(5), xs[5]);
    assert Climbs(xs, 4) && NearRow(CachedRow(4), xs[4]);
    assert Climbs(xs, 3) && NearRow(CachedRow(3), xs[3]);
  }

  lemma Rows7To10(xs: seq<real>)
    requires Ratios(xs)
    requires 0.0 <= xs[11] - 17917957937422433684.459538239 <= 0.00000001
    ensures 0.0 <= xs[7] - 9568131466127621947.163770265 <= 0.0000001
    ensures forall j: nat :: 7 <= j < 11 ==> NearRow(CachedRow(j), xs[j])
  {
    assert Climbs(xs, 10) && NearRow(CachedRow(10), xs[10]);
    assert Climbs(xs, 9) && NearRow(CachedRow(9), xs[9]);
    assert Climbs(xs, 8) && NearRow(CachedRow(8), xs[8]);
    assert Climbs(xs, 7) && NearRow(CachedRow(7), xs[7]);
  }

  lemma Rows11To13(xs: seq<real>)
    requires Ratios(xs)
    ensures 0.0 <= xs[11] - 17917957937422433684.459538239 <= 0.00000001
    ensures forall j: nat :: 11 <= j < 14 ==> NearRow(CachedRow(j), xs[j])
  {
    assert Climbs(xs, 14);
    assert Climbs(xs, 13) && NearRow(CachedRow(13), xs[13]);
    assert Climbs(xs, 12) && NearRow(CachedRow(12), xs[12]);
    assert Climbs(xs, 11) && NearRow(CachedRow(11), xs[11]);
  }

  lemma Rows14To17(xs: seq<real>)
    requires Ratios(xs)
    ensures 0.0 <= xs[17] - 11479437019748901445.007192741 <= 0.00000001
    ensures forall j: nat :: 14 <= j < 18 ==> NearRow(CachedRow(j), xs[j])
  {
    assert Climbs(xs, 14);
    assert Climbs(xs, 15) && NearRow(CachedRow(15), xs[15]);
    assert Climbs(xs, 16) && NearRow(CachedRow(16), xs[16]);
    assert Climbs(xs, 17) && NearRow(CachedRow(17), xs[17]);
  }

  lemma Rows18To19(xs: seq<real>)
    requires Ratios(xs)
    requires 0.0 <= xs[17] - 11479437019748901445.007192741 <= 0.00000001
    ensures 0.0 <= xs[19] - 15709099088952724969.906470205 <= 0.0000001
    ensures forall j: nat :: 18 <= j < 20 ==> NearRow(CachedRow(j), xs[j])
  {
    assert Climbs(xs, 18) && NearRow(CachedRow(18), xs[18]);
    assert Climbs(xs, 19) && NearRow(CachedRow(19), xs[19]);
  }

  lemma Rows20To22(xs: seq<real>)
    requires Ratios(xs)
    requires 0.0 <= xs[19] - 15709099088952724969.906470205 <= 0.0000001
    ensures 0.0 <= xs[22] - 17782069995880619867.541706814 <= 0.000001
    ensures forall j: nat :: 20 <= j < 23 ==> NearRow(CachedRow(j), xs[j])
  {
    assert Climbs(xs, 20) && NearRow(CachedRow(20), xs[20]);
    assert Climbs(xs, 21) && NearRow(CachedRow(21), xs[21]);
    assert Climbs(xs, 22) && NearRow(CachedRow(22), xs[22]);
  }

  lemma Rows23To25(xs: seq<real>)
    requires Ratios(xs)
    requires 0.0 <= xs[22] - 17782069995880619867.541706814 <= 0.000001
    ensures 0.0 <= xs[25] - 10064294952495520794.104739536 <= 0.00001
    ensures forall j: nat :: 23 <= j < 26 ==> NearRow(CachedRow(j), xs[j])
  {
    assert Climbs(xs, 23) && NearRow(CachedRow(23), xs[23]);
    assert Climbs(xs, 24) && NearRow(CachedRow(24), xs[24]);
    assert Climbs(xs, 25) && NearRow(CachedRow(25), xs[25]);
  }

  lemma Rows26To28(xs: seq<real>)
    requires Ratios(xs)
    requires 0.0 <= xs[25] - 10064294952495520794.104739536 <= 0.00001
    ensures forall j: nat :: 26 <= j < 29 ==> NearRow(CachedRow(j), xs[j])
  {
    assert Climbs(xs, 26) && NearRow(CachedRow(26), xs[26]);
    assert Climbs(xs, 27) && NearRow(CachedRow(27), xs[27]);
    assert Climbs(xs, 28) && NearRow(CachedRow(28), xs[28]);
  }

  predicate EvenlySpaced(c: DiyFp, c': DiyFp) {
    26 <= c'.e - c.e <= 27
  }

  lemma SmallPowers()
    ensures Pow10(8) == 100000000.0 && Pow2(26) == 67108864.0
  {
    assert Pow2(13) == 8192.0;
    Pow2Add(13, 13);
  }

  lemma GapIsPower(e: int)
    ensures Pow2(e + 26) == 67108864.0 * Pow2(e) && Pow2(e + 27) == 134217728.0 * Pow2(e)
  {
    SmallPowers();
    Pow2Add(26, e);
    Pow2Step(e + 26);
  }

  lemma RowGapIsPower(e: int)
    ensures Pow2(e + 79) == TWO79 * Pow2(e) && Pow2(e + 80) == TWO80 * Pow2(e)
  {
    GapIsPower(e);
    GapIsPower(e + 26);
    GapIsPower(e + 53);
  }

  lemma EightMore(p: int)
    ensures Pow10(p + 8) == 100000000.0 * Pow10(p)
  {
    SmallPowers();
    Pow10Add(8, p);
  }

  lemma RowMore(p: int)
    ensures Pow10(p + 24) == TEN24 * Pow10(p)
  {
    EightMore(p);
    EightMore(p + 8);
    EightMore(p + 16);
  }

  /** The number `10^p` is `x` units of the last place of `c`. */
  predicate Exact(c: DiyFp, p: int, x: real) {
    Product(x, Pow2(c.e), Pow10(p))
  }

  lemma Rescaled(x: real, b: real, a: real, k: real, t: real, x': real, b': real, a': real)
    requires Product(x, b, a) && k != 0.0 && x' == x * t / k && b' == k * b && a' == t * a
    ensures Product(x', b', a')
  {
    assert x' * k == x * t;
    assert (x' * k) * b == x' * (k * b);
    assert (x * t) * b == t * (x * b);
  }

  lemma NextExact(c: DiyFp, c': DiyFp, p: int, x: real)
    requires Exact(c, p, x) && EvenlySpaced(c, c')
    ensures Exact(c', p + 8, Next(c, c', x))
  {
    EightMore(p);
    GapIsPower(c.e);
    var k := if c'.e == c.e + 26 then 67108864.0 else 134217728.0;
    Rescaled(x, Pow2(c.e), Pow10(p), k, 100000000.0, Next(c, c', x), Pow2(c'.e), Pow10(p + 8));
  }

  lemma EntryAccuracy(c: DiyFp, p: int, x: real)
    requires Exact(c, p, x) && Near(c, x)
    ensures IsPowerOfTen(c, p)
  {
    NearScaled(c.f as real, x, Pow2(c.e), Pow10(p), Real(c));
  }

  lemma NearScaled(f: real, x: real, b: real, a: real, fb: real)
    requires -1.0 <= 2.0 * (f - x) <= 1.0 && b > 0.0 && Product(x, b, a) && Product(f, b, fb)
    ensures HalfUnit(fb, a, b)
  {
    var y := 2.0 * (f - x);
    ScaledUp(-1.0, y, b);
    ScaledUp(y, 1.0, b);
    assert y * b == 2.0 * (f * b) - 2.0 * (x * b);
    assert y * b == 2.0 * (fb - a);
  }

  lemma Spacing(j: nat)
    requires j < 29
    ensures EvenlySpaced(CachedRow(j).0, CachedRow(j).1) && EvenlySpaced(CachedRow(j).1, CachedRow(j).2)
    ensures j < 28 ==> 79 <= CachedRow(j + 1).0.e - CachedRow(j).0.e <= 80
  {
  }

  lemma Unique(x: real, y: real, b: real, a: real)
    requires b != 0.0 && Product(x, b, a) && Product(y, b, a)
    ensures x == y
  {
  }

  lemma RowLink(row: Row, row': Row, p: int, x: real, x': real)
    requires 79 <= row'.0.e - row.0.e <= 80 && Exact(row.0, p, x) && Exact(row'.0, p + 24, x')
    ensures x' == NextRow(row, row', x) && x == PreviousRow(row, row', x')
  {
    RowMore(p);
    RowGapIsPower(row.0.e);
    var k := if row'.0.e == row.0.e + 79 then TWO79 else TWO80;
    Rescaled(x, Pow2(row.0.e), Pow10(p), k, TEN24, NextRow(row, row', x), Pow2(row'.0.e), Pow10(p + 24));
    Unique(x', NextRow(row, row', x), Pow2(row'.0.e), Pow10(p + 24));
  }

  function RowRatio(j: nat): real {
    Pow10(24 * j - 348) / Pow2(CachedRow(j).0.e)
  }

  lemma RatioIsExact(j: nat)
    ensures Exact(CachedRow(j).0, 24 * j - 348, RowRatio(j))
  {
    Divided(Pow10(24 * j - 348), Pow2(CachedRow(j).0.e));
  }

  lemma Divided(a: real, b: real)
    requires b != 0.0
    ensures Product(a / b, b, a)
  {
  }

  lemma MiddlePowers()
    ensures 1000000000000.0 * Pow10(-12) == 1.0 && 10141204801825835211973625643008.0 * Pow2(-103) == 1.0
  {
    EightMore(-12);
    assert Pow10(-4) == 0.0001;
    GapIsPower(-103);
    RowGapIsPower(-77);
    assert Pow2(2) == 4.0;
  }

  lemma MiddleRatio()
    ensures RowRatio(14) == 10141204801825835211.973625643008
  {
    MiddlePowers();
    RatioIsExact(14);
    var a, b := Pow10(-12), Pow2(-103);
    Unique(RowRatio(14), 10141204801825835211.973625643008, b, a);
  }

  lemma RatioLink(j: nat)
    requires j < 28
    ensures RowRatio(j + 1) == NextRow(CachedRow(j), CachedRow(j + 1), RowRatio(j))
    ensures RowRatio(j) == PreviousRow(CachedRow(j), CachedRow(j + 1), RowRatio(j + 1))
  {
    Spacing(j);
    RatioIsExact(j);
    RatioIsExact(j + 1);
    RowLink(CachedRow(j), CachedRow(j + 1), 24 * j - 348, RowRatio(j), RowRatio(j + 1));
  }

  lemma RatiosExist() returns (xs: seq<real>)
    ensures Ratios(xs) && forall j: nat :: j < 29 ==> xs[j] == RowRatio(j)
  {
    xs := seq(29, j requires 0 <= j < 29 => RowRatio(j));
    MiddleRatio();
    forall j: nat | j < 28
      ensures xs[j + 1] == NextRow(CachedRow(j), CachedRow(j + 1), xs[j])
      ensures xs[j] == PreviousRow(CachedRow(j), CachedRow(j + 1), xs[j + 1])
    {
      RatioLink(j);
    }
    forall j: nat | 14 < j < 29 ensures Climbs(xs, j) { assert xs[j - 1 + 1] == xs[j]; }
  }

  lemma RowNear(j: nat)
    requires j < 29
    ensures NearRow(CachedRow(j), RowRatio(j))
  {
    var xs := RatiosExist();
    Rows14To17(xs);
    Rows18To19(xs);
    Rows20To22(xs);
    Rows23To25(xs);
    Rows26To28(xs);
    Rows11To13(xs);
    Rows7To10(xs);
    Rows3To6(xs);
    Rows0To2(xs);
  }

  predicate AccurateRow(row: Row, p: int) {
    IsPowerOfTen(row.0, p) && IsPowerOfTen(row.1, p + 8) && IsPowerOfTen(row.2, p + 16)
  }

  lemma RowAccuracy(row: Row, p: int, x: real)
    requires Exact(row.0, p, x) && NearRow(row, x) && EvenlySpaced(row.0, row.1) && EvenlySpaced(row.1, row.2)
    ensures AccurateRow(row, p)
  {
    NextExact(row.0, row.1, p, x);
    NextExact(row.1, row.2, p + 8, Next(row.0, row.1, x));
    EntryAccuracy(row.0, p, x);
    EntryAccuracy(row.1, p + 8, Next(row.0, row.1, x));
    EntryAccuracy(row.2, p + 16, Next(row.1, row.2, Next(row.0, row.1, x)));
  }

  lemma RowIsAccurate(j: nat)
    requires j < 29
    ensures AccurateRow(CachedRow(j), 24 * j - 348)
  {
    RowNear(j);
    Spacing(j);
    RatioIsExact(j);
    RowAccuracy(CachedRow(j), 24 * j - 348, RowRatio(j));
  }

  /** Every entry is the power of ten of its place, rounded to 64 bits. */
  lemma CachedIsPowerOfTen(i: nat)
    requires i < 87
    ensures IsPowerOfTen(GetCachedPowerByIndex(i), 8 * i - 348)
  {
    RowIsAccurate(i / 3);
    EntryOfRow(CachedRow(i / 3), 24 * (i / 3) - 348, i % 3);
  }

  lemma EntryOfRow(row: Row, p: int, k: nat)
    requires AccurateRow(row, p) && k < 3
    ensures IsPowerOfTen(RowEntry(row, k), p + 8 * k)
  {
  }

  /// ## The entry that is chosen

  /** With it, a boundary gets an exponent and a significand that the generation of digits can take. */
  predicate Suits(c: DiyFp, e: int) {
    var shift := -(e + c.e + 64);
    && BIT63 <= c.f < BIT64 && 34 <= shift <= 60
    && (c.f < 1000000000 * 0x4_0000_0000 || shift >= 35)
  }

  predicate SuitsRow(j: nat, e: int) {
    && (CachedIndex(e) == 3 * j ==> Suits(CachedRow(j).0, e))
    && (CachedIndex(e) == 3 * j + 1 ==> Suits(CachedRow(j).1, e))
    && (CachedIndex(e) == 3 * j + 2 ==> Suits(CachedRow(j).2, e))
  }

  lemma Suits0To9(j: nat, e: int)
    requires 0 <= j <= 9
    ensures SuitsRow(j, e)
  {
  }

  lemma Suits10To14(j: nat, e: int)
    requires 10 <= j <= 14
    ensures SuitsRow(j, e)
  {
  }

  lemma Suits15To19(j: nat, e: int)
    requires 15 <= j <= 19
    ensures SuitsRow(j, e)
  {
  }

  lemma Suits20To24(j: nat, e: int)
    requires 20 <= j <= 24
    ensures SuitsRow(j, e)
  {
  }

  lemma Suits25To28(j: nat, e: int)
    requires 25 <= j <= 28
    ensures SuitsRow(j, e)
  {
  }

  /** For the exponents that boundaries of doubles have. */
  lemma CachedSuits(e: int)
    requires -1137 <= e <= 960
    ensures 0 <= CachedIndex(e) < 87 && Suits(GetCachedPowerByIndex(CachedIndex(e)), e)
  {
    var j: nat := CachedIndex(e) / 3;
    if j < 10 { Suits0To9(j, e); }
    else if j < 15 { Suits10To14(j, e); }
    else if j < 20 { Suits15To19(j, e); }
    else if j < 25 { Suits20To24(j, e); }
    else { Suits25To28(j, e); }
  }
}
