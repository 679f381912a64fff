/** One storage block of the candidate area, in the three layouts the builds
    use: raw data, data behind a 16-bit additive checksum, and AES-CCM
    ciphertext behind its tag (fota.c, program_to_storage and
    analyze_resume_state; fota_candidate.c, fota_candidate_extract_fragment). */
module BlockLayout {
  import opened Bytes

  const TAG_SIZE: nat := 8
  const CHECKSUM_SIZE: nat := 2

  /** AES-CCM under the firmware key: a keystream indexed by the block's
      initialisation vector and the byte position, and a tag over the plaintext. */
  datatype Ccm = Ccm(keystream: (nat, nat) -> byte, mac: (nat, Bytes) -> Bytes)
  {
    function Tag(iv: nat, d: Bytes): (t: Bytes)
      ensures |t| == TAG_SIZE
    {
      (mac(iv, d) + [0, 0, 0, 0, 0, 0, 0, 0])[..TAG_SIZE]
    }

    function Mask(iv: nat, d: Bytes): (c: Bytes)
      ensures |c| == |d|
    {
      if d == [] then []
      else
        var n := |d| - 1;
        Mask(iv, d[..n]) + [Xor(d[n], keystream(iv, n))]
    }

    lemma {:induction false} MaskTwice(iv: nat, d: Bytes)
      ensures Mask(iv, Mask(iv, d)) == d
    {
      if d != [] {
        var n, c := |d| - 1, Mask(iv, d);
        MaskTwice(iv, d[..n]);
        assert c[..n] == Mask(iv, d[..n]);
        assert Pow2(8) == 256;
        XorTwice(d[n], keystream(iv, n), 8);
        assert d == d[..n] + [d[n]];
      }
    }

    function Encrypt(iv: nat, d: Bytes): (e: (Bytes, Bytes))
      ensures |e.0| == TAG_SIZE && |e.1| == |d|
    {
      (Tag(iv, d), Mask(iv, d))
    }

    function Decrypt(iv: nat, tag: Bytes, c: Bytes): (o: Option<Bytes>)
      ensures o.Some? ==> |o.value| == |c|
    {
      var d := Mask(iv, c);
      if tag == Tag(iv, d) then Some(d) else None
    }

    lemma DecryptEncrypt(iv: nat, d: Bytes)
      ensures Decrypt(iv, Encrypt(iv, d).0, Encrypt(iv, d).1) == Some(d)
    {
      MaskTwice(iv, d);
    }

    /** What passes the tag of a block is that block, or another one with the same code. */
    lemma TagDetects(iv: nat, d: Bytes, c: Bytes)
      requires forall x :: |mac(iv, x)| == TAG_SIZE
      ensures match Decrypt(iv, Encrypt(iv, d).0, c) {
                case Some(d') => mac(iv, d') == mac(iv, d) && c == Mask(iv, d')
                case None => mac(iv, Mask(iv, c)) != mac(iv, d)
              }
    {
      MaskTwice(iv, c);
      var d' := Mask(iv, c);
      assert (mac(iv, d) + [0, 0, 0, 0, 0, 0, 0, 0])[..TAG_SIZE] == mac(iv, d);
      assert (mac(iv, d') + [0, 0, 0, 0, 0, 0, 0, 0])[..TAG_SIZE] == mac(iv, d');
    }

    /** Zeros under the mask are the key stream. */
    lemma {:induction false} ZerosMasked(iv: nat, n: nat, i: nat)
      requires i < n
      ensures Mask(iv, Fill(0, n))[i] == keystream(iv, i)
    {
      var d := Fill(0, n);
      assert d[..n - 1] == Fill(0, n - 1);
      if i < n - 1 {
        ZerosMasked(iv, n - 1, i);
      } else {
        assert Pow2(8) == 256;
        XorZero(keystream(iv, i), 8);
      }
    }
  }

  function Pow2(w: nat): nat {
    if w == 0 then 1 else 2 * Pow2(w - 1)
  }

  function XorBits(a: nat, b: nat, w: nat): (r: nat)
    ensures r < Pow2(w)
  {
    if w == 0 then 0 else 2 * XorBits(a / 2, b / 2, w - 1) + (a + b) % 2
  }

  function Xor(a: byte, b: byte): (r: byte) {
    assert Pow2(8) == 256;
    XorBits(a, b, 8)
  }

  lemma Halves(x: nat, a: nat, b: nat)
    ensures (2 * x + (a + b) % 2) / 2 == x && (2 * x + (a + b) % 2 + b) % 2 == a % 2
  {}

  lemma {:induction false} XorTwice(a: nat, b: nat, w: nat)
    requires a < Pow2(w)
    ensures XorBits(XorBits(a, b, w), b, w) == a
  {
    if w > 0 {
      XorTwice(a / 2, b / 2, w - 1);
      Halves(XorBits(a / 2, b / 2, w - 1), a, b);
    }
  }

  lemma {:induction false} XorZero(b: nat, w: nat)
    requires b < Pow2(w)
    ensures XorBits(0, b, w) == b
  {
    if w > 0 {
      XorZero(b / 2, w - 1);
    }
  }

  datatype Layout = Plain | Checksummed | Encrypted(ccm: Ccm)
  {
    function Checker(): nat {
      match this
      case Plain => 0
      case Checksummed => CHECKSUM_SIZE
      case Encrypted(_) => TAG_SIZE
    }
  }

  function Sum(d: Bytes): nat {
    if d == [] then 0 else Sum(d[..|d| - 1]) + d[|d| - 1]
  }

  function Checksum(d: Bytes): nat {
    Sum(d) % 0x1_0000
  }

  /** fota_candidate_block_checksum_t as it lies in the page buffer. */
  function Le16(v: nat): Bytes
    requires v < 0x1_0000
  {
    [v % 256, v / 256]
  }

  /** What the writer stores for the block `d`: the checker bytes, then the body. */
  function Seal(l: Layout, iv: nat, d: Bytes): (Bytes, Bytes) {
    match l
    case Plain => ([], d)
    case Checksummed => (Le16(Checksum(d)), d)
    case Encrypted(a) => a.Encrypt(iv, d)
  }

  /** What the reader makes of checker and body; None is a bad block. */
  function Open(l: Layout, iv: nat, checker: Bytes, body: Bytes): (o: Option<Bytes>)
    ensures o.Some? ==> |o.value| == |body|
  {
    match l
    case Plain => Some(body)
    case Checksummed => if checker == Le16(Checksum(body)) then Some(body) else None
    case Encrypted(a) => a.Decrypt(iv, checker, body)
  }

  /** What the format needs to know about a layout. */
  datatype Codec = Codec(checker: nat,
                         seal: (nat, Bytes) -> (Bytes, Bytes),
                         open: (nat, Bytes, Bytes) -> Option<Bytes>)
  {
    predicate OpensAs(iv: nat, d: Bytes) {
      && |seal(iv, d).0| == checker && |seal(iv, d).1| == |d|
      && open(iv, seal(iv, d).0, seal(iv, d).1) == Some(d)
    }

    predicate KeepsLength(iv: nat, c: Bytes, body: Bytes) {
      open(iv, c, body).Some? ==> |open(iv, c, body).value| == |body|
    }

    /** Every sealed block opens as itself, and opening keeps the length. */
    ghost predicate Lawful() {
      && (forall iv: nat, d: Bytes :: OpensAs(iv, d))
      && (forall iv: nat, c: Bytes, body: Bytes :: KeepsLength(iv, c, body))
    }

    predicate SealsAs(l: Layout, iv: nat, d: Bytes) {
      seal(iv, d) == Seal(l, iv, d)
    }

    predicate ReadsAs(l: Layout, iv: nat, c: Bytes, body: Bytes) {
      open(iv, c, body) == Open(l, iv, c, body)
    }

    /** This is the codec of layout `l`. */
    ghost predicate Implements(l: Layout) {
      && checker == l.Checker()
      && (forall iv: nat, d: Bytes :: SealsAs(l, iv, d))
      && (forall iv: nat, c: Bytes, body: Bytes :: ReadsAs(l, iv, c, body))
    }
  }

  function CodecOf(l: Layout): Codec {
    Codec(l.Checker(), (iv: nat, d: Bytes) => Seal(l, iv, d),
          (iv: nat, c: Bytes, b: Bytes) => Open(l, iv, c, b))
  }

  /** The three layouts of the builds are lawful. */
  lemma LayoutsLawful(l: Layout)
    ensures CodecOf(l).Lawful() && CodecOf(l).Implements(l)
  {
    forall iv: nat, d: Bytes
      ensures CodecOf(l).OpensAs(iv, d)
    {
      if l.Encrypted? {
        l.ccm.DecryptEncrypt(iv, d);
      }
    }
  }

  function OpenPage(c: Codec, iv: nat, page: Bytes, len: nat): Option<Bytes>
    requires c.checker + len <= |page|
  {
    c.open(iv, page[..c.checker], page[c.checker..c.checker + len])
  }

  /** `page` starts with the sealed block `d`; the rest of the page is whatever
      the page buffer held before. */
  predicate IsSealed(c: Codec, iv: nat, d: Bytes, page: Bytes) {
    && c.checker + |d| <= |page|
    && (page[..c.checker], page[c.checker..c.checker + |d|]) == c.seal(iv, d)
  }

  lemma OpenSealed(c: Codec, iv: nat, d: Bytes, page: Bytes)
    requires c.Lawful() && IsSealed(c, iv, d, page)
    ensures OpenPage(c, iv, page, |d|) == Some(d)
  {
    assert c.OpensAs(iv, d);
  }

  predicate IsBlank(page: Bytes, erased: byte) {
    forall i :: 0 <= i < |page| ==> page[i] == erased
  }

  /** An erased page after a program operation that stopped at byte `t`. */
  function Torn(page: Bytes, t: nat, erased: byte): Bytes
    requires t <= |page|
  {
    page[..t] + Fill(erased, |page| - t)
  }

  /** Behind the tear everything is erased. */
  lemma TornTail(page: Bytes, t: nat, erased: byte, lo: nat, hi: nat)
    requires t <= lo <= hi <= |page|
    ensures Torn(page, t, erased)[lo..hi] == Fill(erased, hi - lo)
    ensures forall i :: t <= i < |page| ==> Torn(page, t, erased)[i] == erased
  {
    var q := Torn(page, t, erased);
    forall i | t <= i < |page|
      ensures q[i] == erased
    {
    }
    forall i | 0 <= i < hi - lo
      ensures q[lo..hi][i] == erased
    {
      assert q[lo..hi][i] == q[lo + i];
    }
  }

  /** The tear at byte `t` does no harm: the page still looks erased, or is
      recognised as bad, or the block had arrived completely. */
  predicate TearDetected(c: Codec, iv: nat, d: Bytes, page: Bytes, t: nat, erased: byte)
    requires c.checker + |d| <= |page| && t <= |page|
  {
    var q := Torn(page, t, erased);
    || IsBlank(q, erased)
    || OpenPage(c, iv, q, |d|) == None
    || OpenPage(c, iv, q, |d|) == Some(d)
  }

  // ---- The additive checksum ------------------------------------------------

  lemma {:induction false} SumAppend(a: Bytes, b: Bytes)
    ensures Sum(a + b) == Sum(a) + Sum(b)
  {
    if b == [] {
      assert a + b == a;
    } else {
      var b' := b[..|b| - 1];
      SumAppend(a, b');
      assert (a + b)[..|a + b| - 1] == a + b';
    }
  }

  lemma {:induction false} SumFill(v: byte, n: nat)
    ensures Sum(Fill(v, n)) == v * n
  {
    if n > 0 {
      SumFill(v, n - 1);
      assert Fill(v, n)[..n - 1] == Fill(v, n - 1);
      assert v * n == v * (n - 1) + v;
    }
  }

  lemma {:induction false} SumBound(d: Bytes)
    ensures 0 <= Sum(d) <= 255 * |d|
    ensures Sum(d) == 255 * |d| ==> d == Fill(255, |d|)
  {
    if d != [] {
      var d' := d[..|d| - 1];
      SumBound(d');
      if Sum(d) == 255 * |d| {
        assert d == d' + [255];
      }
    }
  }

  lemma ModEqual(a: nat, b: nat, m: nat)
    requires m > 0
    ensures a % m == b % m <==> (a - b) % m == 0
  {
    var qa, qb := a / m, b / m;
    assert a == qa * m + a % m by { assert a == m * qa + a % m; }
    assert b == qb * m + b % m by { assert b == m * qb + b % m; }
    var r := a % m - b % m;
    assert a - b == (qa - qb) * m + r by { assert (qa - qb) * m == qa * m - qb * m; }
    if r >= 0 {
      DivModUnique(a - b, m, qa - qb, r);
    } else {
      assert (qa - qb - 1) * m == (qa - qb) * m - m;
      DivModUnique(a - b, m, qa - qb - 1, r + m);
    }
  }

  lemma ChecksumPage(page: Bytes, len: nat)
    requires 2 + len <= |page|
    ensures CodecOf(Checksummed).checker == 2
    ensures var d := page[2..2 + len];
            OpenPage(CodecOf(Checksummed), 0, page, len) == if page[..2] == Le16(Checksum(d)) then Some(d) else None
  {}

  lemma ChecksumSealed(d: Bytes, page: Bytes)
    ensures IsSealed(CodecOf(Checksummed), 0, d, page)
       <==> 2 + |d| <= |page| && page[..2] == Le16(Checksum(d)) && page[2..2 + |d|] == d
  {}

  /** The data bytes a reader sees in a checksummed page torn behind its checksum. */
  lemma TornData(d: Bytes, page: Bytes, t: nat, erased: byte)
    requires IsSealed(CodecOf(Checksummed), 0, d, page) && CHECKSUM_SIZE <= t <= |page|
    ensures var u := Min(t - CHECKSUM_SIZE, |d|); var q := Torn(page, t, erased);
            && q[..2] == Le16(Checksum(d))
            && q[2..2 + |d|] == d[..u] + Fill(erased, |d| - u)
  {
    ChecksumSealed(d, page);
    hide CodecOf, Checksum;
    var u := Min(t - CHECKSUM_SIZE, |d|);
    var q := Torn(page, t, erased);
    assert q[..2] == page[..2];
    assert page[2..2 + |d|] == d;
    assert forall i :: 0 <= i < u ==> page[2 + i] == d[i];
    assert q[2..2 + |d|] == d[..u] + Fill(erased, |d| - u);
  }

  lemma TornSum(d: Bytes, u: nat, erased: byte)
    requires u <= |d|
    ensures Sum(d[..u] + Fill(erased, |d| - u)) - Sum(d) == erased * (|d| - u) - Sum(d[u..])
  {
    SumAppend(d[..u], Fill(erased, |d| - u));
    SumFill(erased, |d| - u);
    SumAppend(d[..u], d[u..]);
    assert d == d[..u] + d[u..];
  }

  /** A checksummed block torn after its checksum passes exactly when the lost
      bytes and the erased bytes that stand in for them differ by a multiple of
      65536 in sum. */
  lemma TornChecksumExact(d: Bytes, page: Bytes, t: nat, erased: byte)
    requires IsSealed(CodecOf(Checksummed), 0, d, page) && CHECKSUM_SIZE <= t <= |page|
    ensures var u := Min(t - CHECKSUM_SIZE, |d|);
            OpenPage(CodecOf(Checksummed), 0, Torn(page, t, erased), |d|).Some?
            <==> (erased * (|d| - u) - Sum(d[u..])) % 0x1_0000 == 0
  {
    ChecksumSealed(d, page);
    ChecksumPage(Torn(page, t, erased), |d|);
    hide CodecOf;
    var u := Min(t - CHECKSUM_SIZE, |d|);
    TornData(d, page, t, erased);
    var seen := d[..u] + Fill(erased, |d| - u);
    TornSum(d, u, erased);
    ModEqual(Sum(seen), Sum(d), 0x1_0000);
    Le16Injective(Checksum(seen), Checksum(d));
  }

  lemma Le16Injective(a: nat, b: nat)
    requires a < 0x1_0000 && b < 0x1_0000
    ensures Le16(a) == Le16(b) <==> a == b
  {
    assert Le16(a)[0] == a % 256 && Le16(a)[1] == a / 256;
    assert Le16(b)[0] == b % 256 && Le16(b)[1] == b / 256;
  }

  /** 255 and 257 are inverse to each other modulo 65536, up to the sign. */
  lemma Times255(n: nat, c: nat)
    requires c < 0x1_0000
    ensures (255 * n) % 0x1_0000 == c <==> n % 0x1_0000 == (65279 * c) % 0x1_0000
  {
    var q, r := n / 0x1_0000, n % 0x1_0000;
    assert 255 * n == 0x1_0000 * (255 * q) + 255 * r;
    ModEqual(255 * n, 255 * r, 0x1_0000);
    assert (255 * n - 255 * r) % 0x1_0000 == 0 by { MultipleMod(255 * q, 0x1_0000); }
    assert 65279 * 255 == 254 * 0x1_0000 + 1;
    if (255 * r) % 0x1_0000 == c {
      var j := 255 * r / 0x1_0000;
      assert 65279 * c == 65279 * 255 * r - 65279 * j * 0x1_0000;
      DivModUnique(65279 * c, 0x1_0000, 254 * r - 65279 * j, r);
    } else if r == (65279 * c) % 0x1_0000 {
      var j := 65279 * c / 0x1_0000;
      assert 255 * r == 255 * 65279 * c - 255 * j * 0x1_0000;
      DivModUnique(255 * r, 0x1_0000, 254 * c - 255 * j, c);
    }
  }

  /** The checksum of erased bytes is the erased checksum for exactly these lengths. */
  lemma ErasedChecksumExact(n: nat)
    ensures Le16(Checksum(Fill(255, n))) == Fill(255, 2) <==> n % 0x1_0000 == 257
  {
    var c := Checksum(Fill(255, n));
    SumFill(255, n);
    Times255(n, 65535);
    Le16Injective(c, 65535);
    assert Le16(65535) == Fill(255, 2);
  }

  /** What opens was sealed. */
  lemma Reseals(l: Layout, iv: nat, c: Bytes, b: Bytes)
    requires !l.Plain? && |c| == l.Checker() && Open(l, iv, c, b).Some?
    ensures Seal(l, iv, Open(l, iv, c, b).value) == (c, b)
  {
    if l.Encrypted? {
      l.ccm.MaskTwice(iv, b);
    }
  }

  /** Every tear of every checksummed block of `len` bytes is detected, on a
      device whose erased bytes read 0xFF. */
  ghost predicate TearsAlwaysDetected(len: nat) {
    forall d: Bytes, page: Bytes, t: nat ::
      |d| == len && IsSealed(CodecOf(Checksummed), 0, d, page) && t <= |page| ==>
        TearDetected(CodecOf(Checksummed), 0, d, page, t, 255)
  }

  /** Tears behind the checksum are detected in blocks of up to 257 bytes. */
  lemma LateTearDetected(d: Bytes, page: Bytes, t: nat)
    requires |d| <= 257 && IsSealed(CodecOf(Checksummed), 0, d, page) && CHECKSUM_SIZE <= t <= |page|
    ensures TearDetected(CodecOf(Checksummed), 0, d, page, t, 255)
  {
    ChecksumSealed(d, page);
    ChecksumPage(Torn(page, t, 255), |d|);
    hide CodecOf;
    var u := Min(t - CHECKSUM_SIZE, |d|);
    TornChecksumExact(d, page, t, 255);
    TornData(d, page, t, 255);
    SumBound(d[u..]);
    var diff := 255 * (|d| - u) - Sum(d[u..]);
    assert 0 <= diff <= 255 * 257;
    if diff % 0x1_0000 == 0 {
      assert diff == 0;
      assert d == d[..u] + Fill(255, |d| - u) by { assert d == d[..u] + d[u..]; }
    }
  }

  /** A tear inside the checksum leaves erased data behind half a checksum. */
  lemma EarlyTearDetected(d: Bytes, page: Bytes, t: nat)
    requires |d| <= 255 || |d| == 257
    requires IsSealed(CodecOf(Checksummed), 0, d, page) && t < CHECKSUM_SIZE
    ensures TearDetected(CodecOf(Checksummed), 0, d, page, t, 255)
  {
    ChecksumSealed(d, page);
    ChecksumPage(Torn(page, t, 255), |d|);
    hide CodecOf, Checksum, Torn;
    var q := Torn(page, t, 255);
    TornTail(page, t, 255, 2, 2 + |d|);
    TornTail(page, t, 255, t, |page|);
    ErasedChecksum(|d|);
    if q[..2] == Le16(Checksum(Fill(255, |d|))) {
      assert q[..2][1] == q[1] == 255;
      assert q[..2][0] == q[0] == 255;
      assert IsBlank(q, 255);
    }
  }

  /** The high byte of the checksum of erased bytes reads erased only if the low one does. */
  lemma ErasedChecksum(n: nat)
    requires n <= 255 || n == 257
    ensures var c := Le16(Checksum(Fill(255, n))); c[1] == 255 ==> c[0] == 255
  {
    SumFill(255, n);
  }

  /** A page holding exactly the sealed block `d`. */
  function SealedPage(d: Bytes): (p: Bytes)
    ensures IsSealed(CodecOf(Checksummed), 0, d, p) && |p| == 2 + |d|
  {
    var p := Le16(Checksum(d)) + d;
    assert p[..2] == Le16(Checksum(d)) && p[2..2 + |d|] == d;
    p
  }

  /** Zeros up to `len`, but for one 254 with 257 zeros behind it. */
  function Deceptive(len: nat): (d: Bytes)
    requires len >= 258
    ensures |d| == len
  {
    Fill(0, len - 258) + ([254] + Fill(0, 257))
  }

  lemma DeceptiveSum(len: nat)
    requires len >= 258
    ensures Sum(Deceptive(len)) == 254
    ensures var lost := Deceptive(len)[len - 258..]; Sum(lost) == 254 && lost[0] == 254
  {
    var lost: Bytes := [254] + Fill(0, 257);
    SumAppend(Fill(0, len - 258), lost);
    SumFill(0, len - 258);
    SumAppend([254], Fill(0, 257));
    SumFill(0, 257);
    assert Sum([254]) == 254;
    assert Deceptive(len)[len - 258..] == lost;
  }

  /** Any longer block can be torn so that different data passes the checksum:
      one byte of 254 and 257 zero bytes are 65536 short of erased ones. */
  lemma LongBlockCanPassTorn(len: nat)
    requires len >= 258
    ensures !TearsAlwaysDetected(len)
  {
    var u, d := len - 258, Deceptive(len);
    var page := SealedPage(d);
    DeceptiveSum(len);
    TornChecksumExact(d, page, 2 + u, 255);
    TornData(d, page, 2 + u, 255);
    var q := Torn(page, 2 + u, 255);
    assert q[..2][1] == 0;
    assert q[2..2 + len][u] == 255 && d[u] == 254;
    assert !TearDetected(CodecOf(Checksummed), 0, d, page, 2 + u, 255);
  }

  /** 256 zero bytes torn after the first checksum byte pass as 256 erased bytes. */
  lemma Block256CanPassTorn()
    ensures !TearsAlwaysDetected(256)
  {
    var d := Fill(0, 256);
    var page := SealedPage(d);
    SumFill(0, 256);
    SumFill(255, 256);
    var q := Torn(page, 1, 255);
    assert q[0] == 0 && q[1] == 255;
    assert q[2..258] == Fill(255, 256) && q[2] == 255 && d[0] == 0;
    assert q[..2] == Le16(Checksum(Fill(255, 256)));
    assert !TearDetected(CodecOf(Checksummed), 0, d, page, 1, 255);
  }

  /** The block lengths for which the checksum catches every power cut. */
  lemma TearDetectionExact(len: nat)
    ensures TearsAlwaysDetected(len) <==> len <= 255 || len == 257
  {
    if len <= 255 || len == 257 {
      forall d: Bytes, page: Bytes, t: nat
        | |d| == len && IsSealed(CodecOf(Checksummed), 0, d, page) && t <= |page|
        ensures TearDetected(CodecOf(Checksummed), 0, d, page, t, 255)
      {
        if t < CHECKSUM_SIZE {
          EarlyTearDetected(d, page, t);
        } else {
          LateTearDetected(d, page, t);
        }
      }
    } else if len == 256 {
      Block256CanPassTorn();
    } else {
      LongBlockCanPassTorn(len);
    }
  }

  /** No full page of `len` checksummed bytes can be taken for an erased one. */
  ghost predicate NeverBlank(len: nat, erased: byte) {
    forall d: Bytes, page: Bytes ::
      |d| == len && |page| == CHECKSUM_SIZE + len && IsSealed(CodecOf(Checksummed), 0, d, page) ==>
        !IsBlank(page, erased)
  }

  lemma BlankPageContent(d: Bytes, page: Bytes, erased: byte)
    requires |page| == CHECKSUM_SIZE + |d| && IsSealed(CodecOf(Checksummed), 0, d, page) && IsBlank(page, erased)
    ensures d == Fill(erased, |d|) && Le16(Checksum(d)) == [erased, erased]
  {
    assert d == page[2..2 + |d|];
    assert page[..2] == [erased, erased];
  }

  /** Exactly one content can look erased, a block of erased bytes, and only if
      their sum is the erased checksum: always when erased bytes read 0, and for
      lengths that are 257 modulo 65536 when they read 0xFF. */
  lemma NeverBlankExact(len: nat, erased: byte)
    ensures NeverBlank(len, erased) <==> (erased * len) % 0x1_0000 != 257 * erased
  {
    var f := Fill(erased, len);
    SumFill(erased, len);
    assert Le16(257 * erased) == [erased, erased];
    Le16Injective(Checksum(f), 257 * erased);
    if (erased * len) % 0x1_0000 == 257 * erased {
      var page := SealedPage(f);
      assert page == [erased, erased] + f;
      assert IsBlank(page, erased);
    } else {
      forall d: Bytes, page: Bytes
        | |d| == len && |page| == 2 + len && IsSealed(CodecOf(Checksummed), 0, d, page)
        ensures !IsBlank(page, erased)
      {
        if IsBlank(page, erased) {
          BlankPageContent(d, page, erased);
        }
      }
    }
  }
}
